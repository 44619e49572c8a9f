/**
 * The description resolver: one canonical long_description per row, chosen
 * from the two candidate columns "13" and "14", which are then dropped.
 * The choice is Python's max over the two single-element lists, which
 * compares the strings by code point, not by length.
 */
module Resolver {

  import Extraction

  type Row = Extraction.Row

  const First: string := "13"
  const Second: string := "14"
  const LongDescription: string := "long_description"

  /** Python's a < b on str: code-point lexicographic order, a proper prefix being smaller. */
  predicate Less(a: string, b: string)
    decreases |a|
  {
    if a == [] then b != []
    else if b == [] then false
    else if a[0] != b[0] then a[0] < b[0]
    else Less(a[1..], b[1..])
  }

  lemma {:induction false} LessIrreflexive(a: string)
    ensures !Less(a, a)
  {
    if a != [] {
      LessIrreflexive(a[1..]);
    }
  }

  lemma {:induction false} LessAsymmetric(a: string, b: string)
    ensures !(Less(a, b) && Less(b, a))
    decreases |a|
  {
    if a != [] && b != [] && a[0] == b[0] {
      LessAsymmetric(a[1..], b[1..]);
    }
  }

  lemma {:induction false} LessTotal(a: string, b: string)
    ensures Less(a, b) || a == b || Less(b, a)
    decreases |a|
  {
    if a != [] && b != [] && a[0] == b[0] {
      LessTotal(a[1..], b[1..]);
      if a[1..] == b[1..] {
        assert a == [a[0]] + a[1..] && b == [b[0]] + b[1..];
      }
    }
  }

  lemma {:induction false} LessTransitive(a: string, b: string, c: string)
    requires Less(a, b) && Less(b, c)
    ensures Less(a, c)
    decreases |a|
  {
    if a != [] && a[0] == b[0] && b[0] == c[0] {
      LessTransitive(a[1..], b[1..], c[1..]);
    }
  }

  /**
   * max([d13], [d14]): "14" only when it is strictly greater than "13",
   * otherwise "13"; the result is the greater of the two.
   */
  function PickDescription(d13: string, d14: string): (r: string)
    ensures r == d13 || r == d14
    ensures !Less(r, d13) && !Less(r, d14)
    ensures r == d14 <==> Less(d13, d14) || d13 == d14
  {
    LessIrreflexive(d13);
    LessIrreflexive(d14);
    LessTotal(d13, d14);
    LessAsymmetric(d13, d14);
    if Less(d13, d14) then d14 else d13
  }

  /** The choice is not by length: a shorter candidate can win. */
  lemma ChoiceIgnoresLength()
    ensures PickDescription("A full description", "B") == "B"
    ensures |PickDescription("A full description", "B")| < |"A full description"|
  {
    assert Less("A full description", "B");
  }

  /**
   * select_long_description_field: writes long_description in every row,
   * then drops both candidate columns; nothing else changes.
   */
  method SelectLongDescriptionField(frame: seq<Row>) returns (out: seq<Row>)
    requires forall i :: 0 <= i < |frame| ==> First in frame[i] && Second in frame[i]
    ensures |out| == |frame|
    ensures forall i :: 0 <= i < |out| ==>
              out[i].Keys == frame[i].Keys - {First, Second} + {LongDescription}
    ensures forall i :: 0 <= i < |out| ==>
              out[i][LongDescription] == PickDescription(frame[i][First], frame[i][Second])
    ensures forall i, c :: 0 <= i < |out| && c in frame[i] && c != First && c != Second && c != LongDescription ==>
              out[i][c] == frame[i][c]
  {
    var rows := frame;
    for index := 0 to |rows|
      invariant |rows| == |frame|
      invariant forall i :: 0 <= i < index ==>
                  rows[i] == frame[i][LongDescription := PickDescription(frame[i][First], frame[i][Second])]
      invariant forall i :: index <= i < |rows| ==> rows[i] == frame[i]
    {
      var longerField := PickDescription(rows[index][First], rows[index][Second]);
      rows := rows[index := rows[index][LongDescription := longerField]];
    }
    out := seq(|rows|, i requires 0 <= i < |rows| => rows[i] - {First, Second});
  }
}
