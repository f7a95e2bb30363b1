/** The filter the object detector applies to its (box, score, class)
    triples before counting vehicles. Boxes are an opaque type parameter;
    the detector that produces the triples is not modelled. */
module Detections {

  /** The detector's class ids that are kept. */
  const AllowedClasses: seq<int> := [1, 2, 3, 5, 7]

  /** One detection: its bounding box, confidence score and class id. */
  datatype Detection<B> = Detection(box: B, score: real, cls: int)

  /** A detection is kept when its class is allowed and its score is
      positive. */
  function FilterByClass<B>(d: Detection<B>): (keep: bool)
    ensures keep <==> (d.cls == 1 || d.cls == 2 || d.cls == 3 || d.cls == 5 || d.cls == 7) && d.score > 0.0
    ensures keep ==> 1 <= d.cls <= 7 && d.cls != 4 && d.cls != 6
  {
    d.cls in AllowedClasses && d.score > 0.0
  }

  /** `filter(filter_by_class, ...)`: the kept detections in their
      original order. */
  function KeepAllowed<B>(ds: seq<Detection<B>>): (r: seq<Detection<B>>)
    ensures |r| <= |ds|
    ensures forall i :: 0 <= i < |r| ==> r[i] in ds && FilterByClass(r[i])
    ensures forall i :: 0 <= i < |ds| && FilterByClass(ds[i]) ==> ds[i] in r
    ensures |r| == |ds| <==> forall i :: 0 <= i < |ds| ==> FilterByClass(ds[i])
    decreases |ds|
  {
    if ds == [] then []
    else
      var rest := KeepAllowed(ds[1..]);
      assert forall i :: 1 <= i < |ds| ==> ds[i] == ds[1..][i - 1];
      if FilterByClass(ds[0]) then [ds[0]] + rest else rest
  }

  /** Filtering distributes over concatenation, so a detection stream may
      be filtered in pieces. */
  lemma {:induction false} KeepAllowedConcat<B>(a: seq<Detection<B>>, b: seq<Detection<B>>)
    ensures KeepAllowed(a + b) == KeepAllowed(a) + KeepAllowed(b)
    decreases |a|
  {
    if a == [] {
      assert a + b == b;
    } else {
      assert (a + b)[0] == a[0];
      assert (a + b)[1..] == a[1..] + b;
      KeepAllowedConcat(a[1..], b);
    }
  }

  /** Filtering twice is filtering once. */
  lemma {:induction false} KeepAllowedIdempotent<B>(ds: seq<Detection<B>>)
    ensures KeepAllowed(KeepAllowed(ds)) == KeepAllowed(ds)
    decreases |ds|
  {
    if ds != [] {
      KeepAllowedIdempotent(ds[1..]);
      var rest := KeepAllowed(ds[1..]);
      if FilterByClass(ds[0]) {
        assert ([ds[0]] + rest)[0] == ds[0];
        assert ([ds[0]] + rest)[1..] == rest;
      }
    }
  }

  /** A detection with a disallowed class, or a zero or negative score,
      never survives, whatever else it carries. */
  lemma RejectedDetections<B>(box: B, score: real, cls: int)
    requires cls !in AllowedClasses || score <= 0.0
    ensures KeepAllowed([Detection(box, score, cls)]) == []
  {
    assert [Detection(box, score, cls)][1..] == [];
  }
}
