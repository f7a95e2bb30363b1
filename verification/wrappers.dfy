/** Definitions shared by every module of the model: `Option` stands for
    the source's `None`-or-value returns, `Result` for a call that either
    returns a value or raises an exception, and two sequence helpers. */
module Wrappers {

  datatype Option<+T> = None | Some(value: T)

  datatype Result<+T, +E> = Success(value: T) | Failure(error: E)

  /** Every element occurs once. */
  predicate NoDuplicates<T(==)>(s: seq<T>) {
    forall i, j :: 0 <= i < j < |s| ==> s[i] != s[j]
  }

  /** The set of elements of a sequence. */
  function Elems<T>(s: seq<T>): set<T> {
    set x | x in s
  }

  /** A sequence has at least as many positions as elements, exactly as
      many when no element repeats. */
  lemma {:induction false} ElemsCard<T>(s: seq<T>)
    ensures |Elems(s)| <= |s|
    ensures NoDuplicates(s) ==> |Elems(s)| == |s|
    decreases |s|
  {
    if |s| > 0 {
      var rest := s[1..];
      ElemsCard(rest);
      assert Elems(s) == {s[0]} + Elems(rest);
      if NoDuplicates(s) {
        assert NoDuplicates(rest) by {
          forall i, j | 0 <= i < j < |rest| ensures rest[i] != rest[j] {
            assert rest[i] == s[i + 1] && rest[j] == s[j + 1];
          }
        }
        assert s[0] !in Elems(rest) by {
          forall k | 0 <= k < |rest| ensures rest[k] != s[0] {
            assert rest[k] == s[k + 1];
          }
        }
      }
    }
  }
}
