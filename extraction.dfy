/**
 * The field extractor: for every collected link, fetch the product page
 * (under the retry policy) and write one cell per field specification into
 * that link's row.
 */
module Extraction {

  import opened Wrappers
  import Retry

  /** A product row: column name to cell text; an absent column is an unset (NaN) cell. */
  type Row = map<string, string>

  const ProductLink: string := "product_link"

  /**
   * A matched HTML node: `text` is its full text and `strippedText` what
   * get_text(strip=True) returns for it.
   */
  datatype Node = Node(text: string, strippedText: string)

  datatype Selector = Selector(tag: string, attr: string, value: string)

  /** A parsed product page: the nodes, in document order, that each (tag, attribute, value) selector matches. */
  type Page = map<Selector, seq<Node>>

  /**
   * A field specification: the mode ("multi", or anything else for a single
   * node), the tag, the attribute, and the attribute value, which is also
   * the output column.
   */
  datatype FieldSpec = FieldSpec(mode: string, tag: string, attr: string, value: string)

  function Matches(page: Page, field: FieldSpec): seq<Node> {
    var sel := Selector(field.tag, field.attr, field.value);
    if sel in page then page[sel] else []
  }

  // ---------------------------------------------------------------------
  // Text cleaning
  // ---------------------------------------------------------------------

  /** The characters of the cleaner's class [\n\r\t]. */
  predicate IsControl(c: char) {
    c == '\n' || c == '\r' || c == '\t'
  }

  /** Python's str.isspace, by code point. */
  predicate IsSpace(c: char) {
    var n := c as int;
    || (9 <= n <= 13) || (28 <= n <= 32) || n == 0x85 || n == 0xA0 || n == 0x1680
    || (0x2000 <= n <= 0x200A) || n == 0x2028 || n == 0x2029 || n == 0x202F
    || n == 0x205F || n == 0x3000
  }

  predicate NoControl(s: string) {
    forall i :: 0 <= i < |s| ==> !IsControl(s[i])
  }

  function LeadingSpaces(s: string): (n: nat)
    ensures n <= |s|
    ensures forall j :: 0 <= j < n ==> IsSpace(s[j])
    ensures n == |s| || !IsSpace(s[n])
  {
    if s == [] || !IsSpace(s[0]) then 0 else 1 + LeadingSpaces(s[1..])
  }

  function TrailingSpaces(s: string): (n: nat)
    ensures n <= |s|
    ensures forall j :: |s| - n <= j < |s| ==> IsSpace(s[j])
    ensures n == |s| || !IsSpace(s[|s| - 1 - n])
  {
    if s == [] || !IsSpace(s[|s| - 1]) then 0 else 1 + TrailingSpaces(s[..|s| - 1])
  }

  /** Python's str.strip(): drops leading and trailing whitespace. */
  function Strip(s: string): (r: string)
    ensures r == [] || (!IsSpace(r[0]) && !IsSpace(r[|r| - 1]))
    ensures r == [] <==> forall j :: 0 <= j < |s| ==> IsSpace(s[j])
    ensures LeadingSpaces(s) + |r| <= |s| && r == s[LeadingSpaces(s)..LeadingSpaces(s) + |r|]
    ensures forall j :: LeadingSpaces(s) + |r| <= j < |s| ==> IsSpace(s[j])
  {
    var a := LeadingSpaces(s);
    var t := s[a..];
    var b := TrailingSpaces(t);
    assert t[..|t| - b] == s[a..a + (|t| - b)];
    t[..|t| - b]
  }

  /** Drops a leading run of control characters. */
  function DropControl(s: string): (r: string)
    ensures |r| <= |s|
    ensures r == [] || !IsControl(r[0])
  {
    if s != [] && IsControl(s[0]) then DropControl(s[1..]) else s
  }

  /** re.sub(r"[\n\r\t]+", " ", s): every maximal run of control characters becomes one space. */
  function Collapse(s: string): string
    decreases |s|
  {
    if s == [] then []
    else if IsControl(s[0]) then " " + Collapse(DropControl(s[1..]))
    else [s[0]] + Collapse(s[1..])
  }

  /** The cleaner leaves no control character behind. */
  lemma {:induction false} CollapseIsClean(s: string)
    ensures NoControl(Collapse(s))
    decreases |s|
  {
    if s != [] {
      if IsControl(s[0]) {
        CollapseIsClean(DropControl(s[1..]));
      } else {
        CollapseIsClean(s[1..]);
      }
    }
  }

  /** A text made only of control characters has nothing left once its leading run is dropped. */
  lemma {:induction false} DropControlOfRun(s: string)
    requires forall i :: 0 <= i < |s| ==> IsControl(s[i])
    ensures DropControl(s) == []
  {
    if s != [] {
      DropControlOfRun(s[1..]);
    }
  }

  /** One whole run of control characters becomes a single space. */
  lemma {:induction false} CollapseRun(s: string)
    requires s != [] && forall i :: 0 <= i < |s| ==> IsControl(s[i])
    ensures Collapse(s) == " "
  {
    DropControlOfRun(s[1..]);
  }

  /** Clean text is left alone by the cleaner. */
  lemma {:induction false} CollapseClean(s: string)
    requires NoControl(s)
    ensures Collapse(s) == s
  {
    if s != [] {
      CollapseClean(s[1..]);
    }
  }

  /** What is left after a leading run of control characters ends where the text ends. */
  lemma {:induction false} DropControlKeepsLast(s: string)
    requires DropControl(s) != []
    ensures DropControl(s)[|DropControl(s)| - 1] == s[|s| - 1]
  {
    if IsControl(s[0]) {
      DropControlKeepsLast(s[1..]);
    }
  }

  /** A text that is all one run of control characters ends with a control character. */
  lemma {:induction false} DropControlAllGone(s: string)
    requires s != [] && DropControl(s) == []
    ensures IsControl(s[|s| - 1])
  {
    if |s| > 1 {
      DropControlAllGone(s[1..]);
    }
  }

  lemma {:induction false} DropControlAppend(x: string, b: string)
    ensures DropControl(x + b) == if DropControl(x) == [] then DropControl(b) else DropControl(x) + b
  {
    if x != [] && IsControl(x[0]) {
      assert (x + b)[1..] == x[1..] + b;
      DropControlAppend(x[1..], b);
    } else if x == [] {
      assert x + b == b;
    } else {
      assert (x + b)[0] == x[0];
    }
  }

  /**
   * Cleaning distributes over a concatenation whose seam is not inside a
   * run of control characters.
   */
  lemma {:induction false} CollapseAppend(a: string, b: string)
    requires a == [] || !IsControl(a[|a| - 1]) || b == [] || !IsControl(b[0])
    ensures Collapse(a + b) == Collapse(a) + Collapse(b)
    decreases |a|, 1
  {
    if a == [] {
      assert a + b == b;
    } else if !IsControl(a[0]) {
      assert Collapse(a + b) == [a[0]] + Collapse(a[1..] + b) by {
        assert (a + b)[0] == a[0] && (a + b)[1..] == a[1..] + b;
      }
      CollapseAppend(a[1..], b);
    } else {
      CollapseAppendAfterRun(a, b);
    }
  }

  /** CollapseAppend when a starts with a run of control characters. */
  lemma {:induction false} CollapseAppendAfterRun(a: string, b: string)
    requires a != [] && IsControl(a[0])
    requires !IsControl(a[|a| - 1]) || b == [] || !IsControl(b[0])
    ensures Collapse(a + b) == Collapse(a) + Collapse(b)
    decreases |a|, 0
  {
    var rest := DropControl(a[1..]);
    assert Collapse(a + b) == " " + Collapse(DropControl(a[1..] + b)) by {
      assert (a + b)[0] == a[0] && (a + b)[1..] == a[1..] + b;
    }
    assert Collapse(a) == " " + Collapse(rest);
    if rest == [] {
      assert DropControl(a[1..] + b) == b by {
        DropControlAppend(a[1..], b);
        if |a| > 1 {
          DropControlAllGone(a[1..]);
        }
      }
    } else {
      assert DropControl(a[1..] + b) == rest + b by {
        DropControlAppend(a[1..], b);
      }
      DropControlKeepsLast(a[1..]);
      CollapseAppend(rest, b);
    }
  }

  // ---------------------------------------------------------------------
  // The value of one field
  // ---------------------------------------------------------------------

  /**
   * The "multi" value as the extractor means it: each matched node's
   * stripped, cleaned text followed by a space, in document order.
   */
  function MultiValue(nodes: seq<Node>): (v: string)
    ensures NoControl(v)
    ensures v == [] <==> nodes == []
    ensures v != [] ==> v[|v| - 1] == ' '
  {
    if nodes == [] then ""
    else
      var t := Strip(nodes[|nodes| - 1].text);
      CollapseIsClean(t);
      MultiValue(nodes[..|nodes| - 1]) + Collapse(t) + " "
  }

  /** The concatenation of the nodes' stripped texts, each followed by a space, before any cleaning. */
  function RawValue(nodes: seq<Node>): (v: string)
    ensures v == [] || v[|v| - 1] == ' '
  {
    if nodes == [] then ""
    else RawValue(nodes[..|nodes| - 1]) + Strip(nodes[|nodes| - 1].text) + " "
  }

  /** Cleaning after every append gives what cleaning once at the end gives. */
  lemma {:induction false} CleaningOnceAtTheEnd(nodes: seq<Node>)
    ensures Collapse(RawValue(nodes)) == MultiValue(nodes)
  {
    if nodes != [] {
      var init := nodes[..|nodes| - 1];
      var t := Strip(nodes[|nodes| - 1].text);
      CleaningOnceAtTheEnd(init);
      CollapseStep(RawValue(init), t);
    }
  }

  /** Cleaning a value that ends with a space (or is empty), extended by a text and a space. */
  lemma CollapseStep(before: string, t: string)
    requires before == [] || before[|before| - 1] == ' '
    ensures Collapse(before + t + " ") == Collapse(before) + Collapse(t) + " "
  {
    assert before + t + " " == before + (t + " ");
    CollapseAppend(before, t + " ");
    CollapseAppend(t, " ");
    assert Collapse(" ") == " ";
  }

  /** The multi-mode accumulation loop: append stripped text and a space, then clean. */
  method ConcatenateNodes(nodes: seq<Node>) returns (fieldValue: string)
    ensures fieldValue == MultiValue(nodes)
  {
    fieldValue := "";
    for i := 0 to |nodes|
      invariant fieldValue == MultiValue(nodes[..i])
    {
      ghost var before := fieldValue;
      var t := Strip(nodes[i].text);
      fieldValue := fieldValue + t + " ";
      fieldValue := Collapse(fieldValue);
      assert nodes[..i + 1][..i] == nodes[..i];
      CollapseStep(before, t);
      CollapseClean(before);
    }
    assert nodes[..|nodes|] == nodes;
  }

  /**
   * The cell a field writes, or None when a single-mode field finds no node
   * (the AttributeError is caught and the cell is skipped).
   */
  function FieldCell(page: Page, field: FieldSpec): (cell: Option<string>)
    ensures field.mode == "multi" ==> cell == Some(MultiValue(Matches(page, field)))
    ensures field.mode == "multi" ==> cell.Some? && NoControl(cell.value)
    ensures field.mode == "multi" ==> (cell.value == "" <==> Matches(page, field) == [])
    ensures field.mode == "multi" && cell.value != "" ==> cell.value[|cell.value| - 1] == ' '
    ensures field.mode != "multi" ==> (cell.Some? <==> Matches(page, field) != [])
    ensures field.mode != "multi" && cell.Some? ==> cell.value == Matches(page, field)[0].strippedText
  {
    var found := Matches(page, field);
    if field.mode == "multi" then Some(MultiValue(found))
    else if found == [] then None
    else Some(found[0].strippedText)
  }

  // ---------------------------------------------------------------------
  // One row
  // ---------------------------------------------------------------------

  /** Some field naming column c writes a cell. */
  predicate Writes(page: Page, fields: seq<FieldSpec>, c: string) {
    exists i :: 0 <= i < |fields| && fields[i].value == c && FieldCell(page, fields[i]).Some?
  }

  /** The row after the fields, in order, have written their cells. */
  function ApplyFields(page: Page, fields: seq<FieldSpec>, row: Row): (r: Row)
    ensures forall c :: c in r <==> c in row || Writes(page, fields, c)
  {
    if fields == [] then row
    else
      var init := fields[..|fields| - 1];
      var field := fields[|fields| - 1];
      var prev := ApplyFields(page, init, row);
      assert forall c :: Writes(page, fields, c) <==> Writes(page, init, c) || (c == field.value && FieldCell(page, field).Some?) by {
        forall c ensures Writes(page, fields, c) ==> Writes(page, init, c) || (c == field.value && FieldCell(page, field).Some?) {
          if Writes(page, fields, c) {
            var i :| 0 <= i < |fields| && fields[i].value == c && FieldCell(page, fields[i]).Some?;
            if i < |init| {
              assert init[i] == fields[i];
            }
          }
        }
        forall c ensures Writes(page, init, c) ==> Writes(page, fields, c) {
          if Writes(page, init, c) {
            var i :| 0 <= i < |init| && init[i].value == c && FieldCell(page, init[i]).Some?;
            assert fields[i] == init[i];
          }
        }
      }
      match FieldCell(page, field)
      case None => prev
      case Some(v) => prev[field.value := v]
  }

  /** The number of cells written, which is what the progress bar counts. */
  function WrittenCount(page: Page, fields: seq<FieldSpec>): (n: nat)
    ensures n <= |fields|
  {
    if fields == [] then 0
    else WrittenCount(page, fields[..|fields| - 1]) + (if FieldCell(page, fields[|fields| - 1]).Some? then 1 else 0)
  }

  /**
   * A column is left as it was when no field that names it writes a cell:
   * present with the same text, or still absent.
   */
  lemma {:induction false} ApplyFieldsKeepsOtherColumns(page: Page, fields: seq<FieldSpec>, row: Row, c: string)
    requires forall i :: 0 <= i < |fields| && fields[i].value == c ==> FieldCell(page, fields[i]).None?
    ensures c in ApplyFields(page, fields, row) <==> c in row
    ensures c in row ==> ApplyFields(page, fields, row)[c] == row[c]
  {
    if fields != [] {
      var init := fields[..|fields| - 1];
      assert forall i :: 0 <= i < |init| ==> init[i] == fields[i];
      ApplyFieldsKeepsOtherColumns(page, init, row, c);
    }
  }

  /**
   * The last field that writes a column decides its cell: a later spec with
   * the same column overwrites an earlier one.
   */
  lemma {:induction false} ApplyFieldsLastWriterWins(page: Page, fields: seq<FieldSpec>, row: Row, i: nat)
    requires i < |fields| && FieldCell(page, fields[i]).Some?
    requires forall j :: i < j < |fields| && fields[j].value == fields[i].value ==> FieldCell(page, fields[j]).None?
    ensures fields[i].value in ApplyFields(page, fields, row)
    ensures ApplyFields(page, fields, row)[fields[i].value] == FieldCell(page, fields[i]).value
  {
    var init := fields[..|fields| - 1];
    var last := fields[|fields| - 1];
    var prev := ApplyFields(page, init, row);
    var c := fields[i].value;
    if i < |fields| - 1 {
      assert init[i] == fields[i];
      assert forall j :: i < j < |init| ==> init[j] == fields[j];
      ApplyFieldsLastWriterWins(page, init, row, i);
      if FieldCell(page, last).Some? {
        assert last.value != c;
        assert ApplyFields(page, fields, row) == prev[last.value := FieldCell(page, last).value];
      } else {
        assert ApplyFields(page, fields, row) == prev;
      }
    } else {
      assert ApplyFields(page, fields, row) == prev[c := FieldCell(page, last).value];
    }
  }

  /**
   * The field loop for one product page: each field's cell is written into
   * the row, skipped single fields leave it and the progress counter alone.
   */
  method ExtractFields(page: Page, fields: seq<FieldSpec>, row: Row) returns (out: Row, progress: nat)
    ensures out == ApplyFields(page, fields, row)
    ensures progress == WrittenCount(page, fields)
  {
    out, progress := row, 0;
    for k := 0 to |fields|
      invariant out == ApplyFields(page, fields[..k], row)
      invariant progress == WrittenCount(page, fields[..k])
    {
      assert fields[..k + 1][..k] == fields[..k];
      var field := fields[k];
      var fieldValue := "";
      if field.mode == "multi" {
        fieldValue := ConcatenateNodes(Matches(page, field));
      } else {
        var found := Matches(page, field);
        if |found| == 0 {
          continue;
        }
        fieldValue := found[0].strippedText;
      }
      out := out[field.value := fieldValue];
      progress := progress + 1;
    }
    assert fields[..|fields|] == fields;
  }

  // ---------------------------------------------------------------------
  // The whole frame
  // ---------------------------------------------------------------------

  /** The network: the outcome of attempt n at fetching a URL. */
  type Fetcher = (string, nat) -> Retry.Attempt<Page>

  /** What the retried fetch of one URL returns or raises. */
  function Fetched(fetch: Fetcher, url: string): Retry.Attempt<Page> {
    Retry.Settle((n: nat) => fetch(url, n))
  }

  /**
   * populate_links_df_with_extracted_fields: for each row in order, the
   * page at its product_link is fetched under the retry policy and the
   * fields are written. A fetch failure that the policy does not absorb
   * reaches the caller.
   */
  method PopulateLinksWithExtractedFields(frame: seq<Row>, fields: seq<FieldSpec>, fetch: Fetcher)
    returns (result: Result<seq<Row>, Retry.Failure>)
    requires forall i :: 0 <= i < |frame| ==> ProductLink in frame[i]
    ensures result.Ok? <==> forall i :: 0 <= i < |frame| ==> Fetched(fetch, frame[i][ProductLink]).Returned?
    ensures result.Ok? ==> |result.value| == |frame|
    ensures result.Ok? ==> forall i :: 0 <= i < |frame| ==>
              result.value[i] == ApplyFields(Fetched(fetch, frame[i][ProductLink]).value, fields, frame[i])
    ensures result.Err? ==>
              exists i :: 0 <= i < |frame|
                && (forall j :: 0 <= j < i ==> Fetched(fetch, frame[j][ProductLink]).Returned?)
                && Fetched(fetch, frame[i][ProductLink]) == Retry.Raised(result.error)
  {
    var rows := frame;
    for index := 0 to |frame|
      invariant |rows| == |frame|
      invariant forall i :: 0 <= i < index ==> Fetched(fetch, frame[i][ProductLink]).Returned?
      invariant forall i :: 0 <= i < index ==>
                  rows[i] == ApplyFields(Fetched(fetch, frame[i][ProductLink]).value, fields, frame[i])
      invariant forall i :: index <= i < |frame| ==> rows[i] == frame[i]
    {
      var url := rows[index][ProductLink];
      var target, _, _ := Retry.Call((n: nat) => fetch(url, n));
      assert target == Fetched(fetch, frame[index][ProductLink]);
      if target.Raised? {
        return Err(target.failure);
      }
      var row, _ := ExtractFields(target.value, fields, rows[index]);
      rows := rows[index := row];
    }
    return Ok(rows);
  }
}
