/**
  The CSV text `downloadCSV` builds (lib/export-utils.ts:1-29): the header is
  the union of the rows' keys in order of first appearance, each key in
  double quotes; each row lists its values under those keys, null and
  undefined as an empty cell and anything else in double quotes with inner
  quotes doubled; a byte-order mark precedes the lines, which are joined
  with `\n`.
*/
module Export {
  import opened Wrappers
  import opened Text
  import opened Tokenizer

  /** A property value as the export reads it: `null`, `undefined` (also what
      a missing key reads as), or the text `String(value)` gives. */
  datatype Value = Null | Undefined | Str(s: string)

  /** One exported object: its own properties in `Object.keys` order. */
  type Row = seq<(string, Value)>

  /** The byte-order mark written first. */
  const Bom: char := '\U{FEFF}'

  /** `Object.keys(row)`. */
  function KeysOf(row: Row): (r: seq<string>)
    ensures |r| == |row| && forall i :: 0 <= i < |row| ==> r[i] == row[i].0
  {
    if row == [] then [] else [row[0].0] + KeysOf(row[1..])
  }

  /** `data.flatMap(Object.keys)`. */
  function FlatKeys(data: seq<Row>): (r: seq<string>)
    ensures forall k :: k in r <==> exists i :: 0 <= i < |data| && k in KeysOf(data[i])
  {
    if data == [] then []
    else
      assert forall i :: 1 <= i < |data| ==> data[i] == data[1..][i - 1];
      KeysOf(data[0]) + FlatKeys(data[1..])
  }

  /** `Array.from(new Set(...))`: each key once, in order of first appearance. */
  function AllKeys(data: seq<Row>): seq<string> {
    Distinct(FlatKeys(data))
  }

  /** `row[key]`: the value of the key's entry, `undefined` when there is none. */
  function Get(row: Row, key: string): (r: Value)
    ensures key !in KeysOf(row) ==> r == Undefined
    ensures key in KeysOf(row) ==> r == row[FirstIndex(KeysOf(row), key)].1
  {
    if row == [] then Undefined
    else if row[0].0 == key then row[0].1
    else
      assert KeysOf(row) == [row[0].0] + KeysOf(row[1..]);
      Get(row[1..], key)
  }

  /** `replace(/"/g, '""')`: every quote doubled. */
  function Escape(v: string): (r: string)
    ensures |r| == |v| + Count(v, '"')
    ensures '"' !in v ==> r == v
    ensures forall c :: c != '"' ==> (c in r <==> c in v)
  {
    if v == [] then []
    else (if v[0] == '"' then "\"\"" else [v[0]]) + Escape(v[1..])
  }

  /** One cell: empty for null and undefined, otherwise quoted and escaped. */
  function Cell(x: Value): (r: string)
    ensures r == [] <==> !x.Str?
    ensures x.Str? ==> |r| >= 2 && r[0] == '"' && r[|r| - 1] == '"'
  {
    match x
    case Null => ""
    case Undefined => ""
    case Str(s) => "\"" + Escape(s) + "\""
  }

  /** What a cell holds once read back: the text, or nothing. */
  function Plain(x: Value): string {
    match x
    case Null => ""
    case Undefined => ""
    case Str(s) => s
  }

  function CellsOf(xs: seq<Value>): (r: seq<string>)
    ensures |r| == |xs| && forall i :: 0 <= i < |xs| ==> r[i] == Cell(xs[i])
  {
    if xs == [] then [] else [Cell(xs[0])] + CellsOf(xs[1..])
  }

  function PlainsOf(xs: seq<Value>): (r: seq<string>)
    ensures |r| == |xs| && forall i :: 0 <= i < |xs| ==> r[i] == Plain(xs[i])
  {
    if xs == [] then [] else [Plain(xs[0])] + PlainsOf(xs[1..])
  }

  /** The row's values under `keys`, in order. */
  function RowValues(row: Row, keys: seq<string>): (r: seq<Value>)
    ensures |r| == |keys| && forall i :: 0 <= i < |keys| ==> r[i] == Get(row, keys[i])
  {
    if keys == [] then [] else [Get(row, keys[0])] + RowValues(row, keys[1..])
  }

  /** One formatted row. */
  function FormatRow(row: Row, keys: seq<string>): string {
    Join(CellsOf(RowValues(row, keys)), ",")
  }

  function FormatRows(data: seq<Row>, keys: seq<string>): (r: seq<string>)
    ensures |r| == |data| && forall i :: 0 <= i < |data| ==> r[i] == FormatRow(data[i], keys)
  {
    if data == [] then [] else [FormatRow(data[0], keys)] + FormatRows(data[1..], keys)
  }

  /** Keys are quoted but not escaped. */
  function QuotedKeys(keys: seq<string>): (r: seq<string>)
    ensures |r| == |keys| && forall i :: 0 <= i < |keys| ==> r[i] == "\"" + keys[i] + "\""
  {
    if keys == [] then [] else ["\"" + keys[0] + "\""] + QuotedKeys(keys[1..])
  }

  function Header(keys: seq<string>): string {
    Join(QuotedKeys(keys), ",")
  }

  /** `csvContent`, or None when the data is absent or empty and nothing is
      exported. */
  function CsvContent(data: Option<seq<Row>>): (r: Option<string>)
    ensures r.None? <==> data.None? || data.value == []
    ensures r.Some? ==> |r.value| >= 1 && r.value[0] == Bom && IsSpace(r.value[0])
  {
    if data.None? || data.value == [] then None
    else
      var keys := AllKeys(data.value);
      Some([Bom] + Join([Header(keys)] + FormatRows(data.value, keys), "\n"))
  }

  // ---------------------------------------------------------------------
  // Reading the export back with the comma tokenizer
  // ---------------------------------------------------------------------

  /** Inside quotes, an escaped value and its closing quote read back as the
      value, after which quoting is off. */
  lemma {:induction false} EscapeRoundTrip(v: string, rest: string, current: string)
    requires rest == [] || rest[0] != '"'
    ensures Fields(Escape(v) + "\"" + rest, true, current) == Fields(rest, false, current + v)
    decreases |v|
  {
    if v == [] {
      assert Escape(v) + "\"" + rest == "\"" + rest;
      assert current + v == current;
      FieldsCloseQuote(rest, current);
    } else {
      var head := if v[0] == '"' then "\"\"" else [v[0]];
      var tail := Escape(v[1..]) + "\"" + rest;
      assert Escape(v) == head + Escape(v[1..]);
      ConcatAssoc(head, Escape(v[1..]), "\"", rest);
      assert current + [v[0]] + v[1..] == current + v;
      if v[0] == '"' {
        FieldsDoubledQuote(tail, current);
      } else {
        FieldsQuotedChar(v[0], tail, current);
      }
      EscapeRoundTrip(v[1..], rest, current + [v[0]]);
    }
  }

  /** A quote outside quotes opens them. */
  lemma FieldsOpenQuote(s: string, current: string)
    ensures Fields("\"" + s, false, current) == Fields(s, true, current)
  {
    assert ("\"" + s)[1..] == s;
  }

  /** A quote inside quotes not followed by another closes them. */
  lemma FieldsCloseQuote(s: string, current: string)
    requires s == [] || s[0] != '"'
    ensures Fields("\"" + s, true, current) == Fields(s, false, current)
  {
    assert ("\"" + s)[1..] == s;
  }

  /** A doubled quote inside quotes is one literal quote. */
  lemma FieldsDoubledQuote(s: string, current: string)
    ensures Fields("\"\"" + s, true, current) == Fields(s, true, current + ['"'])
  {
    assert ("\"\"" + s)[2..] == s;
  }

  /** Any other character inside quotes is kept. */
  lemma FieldsQuotedChar(c: char, s: string, current: string)
    requires c != '"'
    ensures Fields([c] + s, true, current) == Fields(s, true, current + [c])
  {
    assert ([c] + s)[1..] == s;
  }

  /** A cell followed by anything but a quote reads back as its plain text. */
  lemma CellRoundTrip(x: Value, rest: string)
    requires rest == [] || rest[0] != '"'
    ensures Fields(Cell(x) + rest, false, "") == Fields(rest, false, Plain(x))
  {
    match x {
      case Null => assert Cell(x) + rest == rest;
      case Undefined => assert Cell(x) + rest == rest;
      case Str(v) =>
        var body := Escape(v) + "\"" + rest;
        ConcatAssoc("\"", Escape(v), "\"", rest);
        FieldsOpenQuote(body, "");
        EscapeRoundTrip(v, rest, "");
        assert "" + v == v;
    }
  }

  /** A comma-joined list of cells reads back as the plain texts. */
  lemma {:induction false} CellsRoundTrip(xs: seq<Value>)
    requires |xs| >= 1
    ensures Fields(Join(CellsOf(xs), ","), false, "") == PlainsOf(xs)
    decreases |xs|
  {
    var cs := CellsOf(xs);
    if |xs| == 1 {
      assert Join(cs, ",") == Cell(xs[0]) + [];
      CellRoundTrip(xs[0], []);
    } else {
      var tail := Join(CellsOf(xs[1..]), ",");
      assert cs[1..] == CellsOf(xs[1..]);
      assert Join(cs, ",") == Cell(xs[0]) + ("," + tail);
      CellRoundTrip(xs[0], "," + tail);
      assert ("," + tail)[1..] == tail;
      CellsRoundTrip(xs[1..]);
      assert PlainsOf(xs) == [Plain(xs[0])] + PlainsOf(xs[1..]);
    }
  }

  /** Every exported row reads back, in comma mode, as one field per key:
      the value's text, or empty for null, undefined and missing keys. */
  lemma RowRoundTrip(row: Row, keys: seq<string>)
    requires keys != []
    ensures Tokens(false, FormatRow(row, keys)) == PlainsOf(RowValues(row, keys))
    ensures |Tokens(false, FormatRow(row, keys))| == |keys|
  {
    CellsRoundTrip(RowValues(row, keys));
  }

  /** The header reads back as the keys, as long as no key holds a quote
      (keys are not escaped). */
  lemma HeaderRoundTrip(keys: seq<string>)
    requires keys != []
    requires forall i :: 0 <= i < |keys| ==> '"' !in keys[i]
    ensures Tokens(false, Header(keys)) == keys
  {
    var xs := StrValues(keys);
    assert CellsOf(xs) == QuotedKeys(keys);
    CellsRoundTrip(xs);
    assert PlainsOf(xs) == keys;
  }

  function StrValues(keys: seq<string>): (r: seq<Value>)
    ensures |r| == |keys| && forall i :: 0 <= i < |keys| ==> r[i] == Str(keys[i])
  {
    if keys == [] then [] else [Str(keys[0])] + StrValues(keys[1..])
  }

  // ---------------------------------------------------------------------
  // Header and line structure
  // ---------------------------------------------------------------------

  /** The header names every key of every row, each once, in order of first
      appearance. */
  lemma AllKeysHeader(data: seq<Row>)
    ensures forall k :: k in AllKeys(data) <==> exists i :: 0 <= i < |data| && k in KeysOf(data[i])
    ensures var keys := AllKeys(data);
            forall i, j :: 0 <= i < j < |keys| ==> keys[i] != keys[j]
    ensures var keys := AllKeys(data);
            forall i, j :: 0 <= i < j < |keys| ==>
              FirstIndex(FlatKeys(data), keys[i]) < FirstIndex(FlatKeys(data), keys[j])
  {
    DistinctFirstAppearance(FlatKeys(data));
  }

  /** No key and no value of the data holds a line feed. */
  predicate NoLineFeeds(data: seq<Row>) {
    forall i, j :: 0 <= i < |data| && 0 <= j < |data[i]| ==>
      '\n' !in data[i][j].0 && (data[i][j].1.Str? ==> '\n' !in data[i][j].1.s)
  }

  lemma {:induction false} JoinKeepsOut(parts: seq<string>, sep: string, c: char)
    requires c !in sep && forall i :: 0 <= i < |parts| ==> c !in parts[i]
    ensures c !in Join(parts, sep)
    decreases |parts|
  {
    if |parts| > 1 {
      JoinKeepsOut(parts[1..], sep, c);
    }
  }

  lemma RowHasNoLineFeed(row: Row, keys: seq<string>)
    requires forall j :: 0 <= j < |row| ==> row[j].1.Str? ==> '\n' !in row[j].1.s
    ensures '\n' !in FormatRow(row, keys)
  {
    var cs := CellsOf(RowValues(row, keys));
    forall i | 0 <= i < |cs| ensures '\n' !in cs[i] {
      CellHasNoLineFeed(row, keys[i]);
    }
    JoinKeepsOut(cs, ",", '\n');
  }

  lemma CellHasNoLineFeed(row: Row, key: string)
    requires forall j :: 0 <= j < |row| ==> row[j].1.Str? ==> '\n' !in row[j].1.s
    ensures '\n' !in Cell(Get(row, key))
  {
    var x := Get(row, key);
    if x.Str? {
      assert x == row[FirstIndex(KeysOf(row), key)].1;
      var e := Escape(x.s);
      assert '\n' !in e;
      assert Cell(x) == ['"'] + e + ['"'];
    }
  }

  lemma KeyHasNoLineFeed(data: seq<Row>, k: string)
    requires NoLineFeeds(data) && k in FlatKeys(data)
    ensures '\n' !in k
  {
    var i :| 0 <= i < |data| && k in KeysOf(data[i]);
    var j :| 0 <= j < |KeysOf(data[i])| && KeysOf(data[i])[j] == k;
    assert data[i][j].0 == k;
  }

  lemma HeaderHasNoLineFeed(data: seq<Row>)
    requires NoLineFeeds(data)
    ensures '\n' !in Header(AllKeys(data))
  {
    var keys := AllKeys(data);
    var q := QuotedKeys(keys);
    forall i | 0 <= i < |q| ensures '\n' !in q[i] {
      KeyHasNoLineFeed(data, keys[i]);
    }
    JoinKeepsOut(q, ",", '\n');
  }

  /** Without line feeds in the data, the text after the mark splits into the
      header and one line per row. */
  lemma ContentLines(data: seq<Row>)
    requires data != [] && NoLineFeeds(data)
    ensures var keys := AllKeys(data);
            var text := CsvContent(Some(data)).value;
            Split(text[1..], '\n') == [Header(keys)] + FormatRows(data, keys)
    ensures |Split(CsvContent(Some(data)).value[1..], '\n')| == 1 + |data|
  {
    var keys := AllKeys(data);
    var rows := FormatRows(data, keys);
    var lines := [Header(keys)] + rows;
    HeaderHasNoLineFeed(data);
    forall i | 0 <= i < |lines| ensures '\n' !in lines[i] {
      if i > 0 {
        assert lines[i] == rows[i - 1];
        RowHasNoLineFeed(data[i - 1], keys);
      }
    }
    SplitJoin(lines, '\n');
    assert CsvContent(Some(data)).value == [Bom] + Join(lines, "\n");
  }
}
