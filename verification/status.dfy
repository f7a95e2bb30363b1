/** Decoding of the single-character GRINT signal state reported by the
    traffic-light API into the three resolved states the rest of the system
    works with. */
module LightStatus {
  import opened Wrappers

  /** Resolved state of a signal group. */
  datatype Status = Red | Green | Other

  datatype DecodeError = InvalidStatusCode(code: string)

  /** Codes that resolve to red (amber after red included). */
  const RedCodes: string := "?@ABCDEFGH90"

  /** Codes that resolve to green (amber after green included). */
  const GreenCodes: string := "1345678:<>"

  /** The codes the decoder accepts: '0' through 'J'. */
  predicate InRange(c: char) {
    '0' <= c <= 'J'
  }

  /** Status decoding: a string of length one in '0'..'J' is classified by
      the two code lists, anything else is rejected. */
  function Decode(s: string): (r: Result<Status, DecodeError>)
    ensures r.Failure? <==> |s| != 1 || !InRange(s[0])
    ensures r.Failure? ==> r.error == InvalidStatusCode(s)
    ensures r.Success? ==> r.value == Resolve(Documented(s[0]))
  {
    if |s| != 1 || s[0] < '0' || 'J' < s[0] then
      Failure(InvalidStatusCode(s))
    else if s[0] in RedCodes then
      Success(Red)
    else if s[0] in GreenCodes then
      Success(Green)
    else
      Success(Other)
  }

  /** The meanings the GRINT state table documents for each code. */
  datatype Grint =
    | RedAmber | GreenOn | NotUsed | RedOn | GreenBlinking | AmberFlashing
    | AmberAfterGreen | AmberDark | RedNoDemand | StartUp

  /** The documented meaning of every accepted code, written out code by code
      independently of the two code lists. */
  function Documented(c: char): Grint
    requires InRange(c)
  {
    match c
    case '0' => RedAmber
    case '1' => GreenOn
    case '2' => NotUsed
    case '3' => GreenOn
    case '4' => GreenOn
    case '5' => GreenOn
    case '6' => GreenOn
    case '7' => GreenOn
    case '8' => GreenOn
    case '9' => RedOn
    case ':' => GreenBlinking
    case ';' => AmberFlashing
    case '<' => AmberAfterGreen
    case '=' => AmberDark
    case '>' => AmberAfterGreen
    case '?' => RedOn
    case '@' => RedOn
    case 'A' => RedOn
    case 'B' => RedNoDemand
    case 'C' => RedOn
    case 'D' => RedOn
    case 'E' => RedNoDemand
    case 'F' => RedOn
    case 'G' => RedOn
    case 'H' => RedOn
    case _ => StartUp  // 'I' and 'J'
  }

  /** Red-ish meanings are red, green-ish meanings (amber after green, which
      still lets the queue drain) are green, the rest is "other". */
  function Resolve(g: Grint): Status {
    match g
    case RedAmber | RedOn | RedNoDemand => Red
    case GreenOn | GreenBlinking | AmberAfterGreen => Green
    case NotUsed | AmberFlashing | AmberDark | StartUp => Other
  }

  /** The red and green code lists share no code, so the classification is a
      partition of '0'..'J' into exactly one of three classes. */
  lemma CodesPartitionRange(c: char)
    requires InRange(c)
    ensures !(c in RedCodes && c in GreenCodes)
    ensures Decode([c]) == Success(Red) <==> c in RedCodes
    ensures Decode([c]) == Success(Green) <==> c in GreenCodes
    ensures Decode([c]) == Success(Other) <==> c !in RedCodes && c !in GreenCodes
  {
  }

  /** The code lists lie inside the accepted range, so every listed code is
      decoded rather than rejected. */
  lemma CodeListsInRange()
    ensures forall i :: 0 <= i < |RedCodes| ==> InRange(RedCodes[i])
    ensures forall i :: 0 <= i < |GreenCodes| ==> InRange(GreenCodes[i])
  {
  }

  /** Every code of the red list decodes to red. */
  lemma DecodeRedCodes()
    ensures forall c :: c in "?@ABCDEFGH90" ==> Decode([c]) == Success(Red)
  {
  }

  /** Every code of the green list decodes to green. */
  lemma DecodeGreenCodes()
    ensures forall c :: c in "1345678:<>" ==> Decode([c]) == Success(Green)
  {
  }

  /** The in-range codes on neither list decode to other. */
  lemma DecodeOtherCodes()
    ensures forall c :: c in "2;=IJ" ==> Decode([c]) == Success(Other)
  {
  }

  /** Wrong lengths and out-of-range characters are rejected. */
  lemma DecodeRejects()
    ensures Decode("").Failure? && Decode("10").Failure? && Decode("A ").Failure?
    ensures Decode(" A").Failure? && Decode("/").Failure? && Decode("K").Failure?
  {
  }
}
