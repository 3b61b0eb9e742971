/**
  The line tokenizer of the raw import (lib/import-utils.ts:241-272): the
  delimiter is chosen once per file from its first non-blank line, then every
  data line is split on tabs, or read as comma-separated values in which a
  double quote toggles quoting and a doubled quote inside quotes stands for
  one literal quote.
*/
module Tokenizer {
  import opened Text

  // ---------------------------------------------------------------------
  // Delimiter detection
  // ---------------------------------------------------------------------

  /** `lines.find(l => l.trim().length > 0) || ''`: the first line that is
      not blank, or the empty string when every line is blank. */
  function FirstNonBlank(lines: seq<string>): (r: string)
    ensures r == [] <==> forall i :: 0 <= i < |lines| ==> AllSpace(lines[i])
    ensures r != [] ==> !AllSpace(r)
    ensures r != [] ==> exists k :: 0 <= k < |lines| && lines[k] == r
                          && forall j :: 0 <= j < k ==> AllSpace(lines[j])
  {
    if lines == [] then ""
    else if Trim(lines[0]) != "" then
      assert lines[0] != [] by { assert !AllSpace(lines[0]); }
      lines[0]
    else
      var r := FirstNonBlank(lines[1..]);
      assert forall i :: 1 <= i < |lines| ==> lines[i] == lines[1..][i - 1];
      if r != [] then
        var k :| 0 <= k < |lines[1..]| && lines[1..][k] == r
                 && forall j :: 0 <= j < k ==> AllSpace(lines[1..][j]);
        assert lines[k + 1] == r;
        r
      else
        r
  }

  /** Tab mode: the first non-blank line splits into more than five pieces on
      tabs, that is, it holds at least five tabs. */
  function IsTsv(lines: seq<string>): (b: bool)
    ensures b <==> Count(FirstNonBlank(lines), '\t') >= 5
  {
    |Split(FirstNonBlank(lines), '\t')| > 5
  }

  // ---------------------------------------------------------------------
  // Comma mode
  // ---------------------------------------------------------------------

  /** The fields the comma-mode loop produces from the unread text `s`, given
      the quote state and the field read so far: a quote outside quotes opens
      them, a doubled quote inside quotes is one literal quote, any other
      quote closes them, a comma outside quotes ends the field, and every
      other character is kept. */
  function Fields(s: string, inQuotes: bool, current: string): (r: seq<string>)
    ensures |r| >= 1
    decreases |s|
  {
    if s == [] then [current]
    else if s[0] == '"' then
      if inQuotes && |s| > 1 && s[1] == '"' then Fields(s[2..], true, current + ['"'])
      else Fields(s[1..], !inQuotes, current)
    else if s[0] == ',' && !inQuotes then [current] + Fields(s[1..], false, "")
    else Fields(s[1..], inQuotes, current + [s[0]])
  }

  /** The first field continues the field being built: whatever the scan
      reads before the first comma outside quotes is appended to `current`. */
  lemma {:induction false} FieldsExtendCurrent(s: string, inQuotes: bool, current: string)
    ensures current <= Fields(s, inQuotes, current)[0]
    decreases |s|
  {
    if s == [] {
    } else if s[0] == '"' {
      if inQuotes && |s| > 1 && s[1] == '"' {
        FieldsExtendCurrent(s[2..], true, current + ['"']);
        assert current <= current + ['"'];
      } else {
        FieldsExtendCurrent(s[1..], !inQuotes, current);
      }
    } else if s[0] == ',' && !inQuotes {
    } else {
      FieldsExtendCurrent(s[1..], inQuotes, current + [s[0]]);
      assert current <= current + [s[0]];
    }
  }

  /** The cells of one line in the chosen mode. */
  function Tokens(isTsv: bool, text: string): seq<string> {
    if isTsv then Split(text, '\t') else Fields(text, false, "")
  }

  /** `parseLine`: a plain split on tabs in tab mode; otherwise the quote-aware
      comma scan, one character at a time. */
  method ParseLine(isTsv: bool, text: string) returns (result: seq<string>)
    ensures isTsv ==> result == Split(text, '\t')
    ensures !isTsv ==> result == Fields(text, false, "")
  {
    if isTsv {
      return Split(text, '\t');
    }
    result := [];
    var current := "";
    var inQuotes := false;
    var i := 0;
    while i < |text|
      invariant 0 <= i <= |text|
      invariant result + Fields(text[i..], inQuotes, current) == Fields(text, false, "")
    {
      var c := text[i];
      assert text[i..][1..] == text[i + 1..];
      if c == '"' {
        if inQuotes && i + 1 < |text| && text[i + 1] == '"' {
          assert text[i..][2..] == text[i + 2..];
          current := current + ['"'];
          i := i + 1;
        } else {
          inQuotes := !inQuotes;
        }
      } else if c == ',' && !inQuotes {
        result := result + [current];
        current := "";
      } else {
        current := current + [c];
      }
      i := i + 1;
    }
    assert text[i..] == [];
    result := result + [current];
  }

  /** Number of commas outside quotes, where the quote state simply flips at
      every quote character; a doubled quote flips it twice, so it cannot
      hide a comma. */
  function OutsideCommas(s: string, inQuotes: bool): nat {
    if s == [] then 0
    else
      (if s[0] == ',' && !inQuotes then 1 else 0)
      + OutsideCommas(s[1..], if s[0] == '"' then !inQuotes else inQuotes)
  }

  /** There is one more field than there are commas outside quotes. */
  lemma {:induction false} FieldCount(s: string, inQuotes: bool, current: string)
    ensures |Fields(s, inQuotes, current)| == 1 + OutsideCommas(s, inQuotes)
    decreases |s|
  {
    if s == [] {
    } else if s[0] == '"' {
      if inQuotes && |s| > 1 && s[1] == '"' {
        FieldCount(s[2..], true, current + ['"']);
        assert s[1..][1..] == s[2..];
        assert OutsideCommas(s, true) == OutsideCommas(s[2..], true);
      } else {
        FieldCount(s[1..], !inQuotes, current);
      }
    } else if s[0] == ',' && !inQuotes {
      FieldCount(s[1..], false, "");
    } else {
      FieldCount(s[1..], inQuotes, current + [s[0]]);
    }
  }

  /** The field count of a whole line read from the start. */
  lemma LineFieldCount(text: string)
    ensures |Fields(text, false, "")| == 1 + OutsideCommas(text, false)
  {
    FieldCount(text, false, "");
  }

  /** Without quote characters the comma scan is a plain split on commas; the
      field under construction is prepended to the first piece. */
  lemma {:induction false} FieldsWithoutQuotes(s: string, current: string)
    requires '"' !in s
    ensures Fields(s, false, current) == [current + Split(s, ',')[0]] + Split(s, ',')[1..]
    decreases |s|
  {
    if s == [] {
      assert current + "" == current;
    } else if s[0] == ',' {
      FieldsWithoutQuotes(s[1..], "");
      assert "" + Split(s[1..], ',')[0] == Split(s[1..], ',')[0];
      var rest := Split(s[1..], ',');
      assert Split(s, ',') == [""] + rest;
      assert Split(s, ',')[1..] == rest && current + "" == current;
      assert [rest[0]] + rest[1..] == rest;
    } else {
      FieldsWithoutQuotes(s[1..], current + [s[0]]);
      var rest := Split(s[1..], ',');
      assert Split(s, ',') == [[s[0]] + rest[0]] + rest[1..];
      assert current + [s[0]] + rest[0] == current + ([s[0]] + rest[0]);
    }
  }

  /** A line without quotes reads as its comma-separated pieces. */
  lemma UnquotedLine(text: string)
    requires '"' !in text
    ensures Fields(text, false, "") == Split(text, ',')
  {
    FieldsWithoutQuotes(text, "");
    var parts := Split(text, ',');
    assert "" + parts[0] == parts[0];
    assert [parts[0]] + parts[1..] == parts;
  }

  /** `s` holds no two quote characters in a row. */
  predicate NoDoubledQuote(s: string) {
    forall k :: 0 <= k < |s| - 1 ==> !(s[k] == '"' && s[k + 1] == '"')
  }

  /** Quote characters that are not doubled only switch the quote state: none
      of them reaches a field. */
  lemma {:induction false} QuotesDoNotReachFields(s: string, inQuotes: bool, current: string)
    requires NoDoubledQuote(s) && '"' !in current
    ensures forall f :: f in Fields(s, inQuotes, current) ==> '"' !in f
    decreases |s|
  {
    if s != [] {
      assert NoDoubledQuote(s[1..]) by {
        forall k | 0 <= k < |s[1..]| - 1 ensures !(s[1..][k] == '"' && s[1..][k + 1] == '"') {
          assert s[1..][k] == s[k + 1] && s[1..][k + 1] == s[k + 2];
        }
      }
      if s[0] == '"' {
        assert !(|s| > 1 && s[1] == '"');
        QuotesDoNotReachFields(s[1..], !inQuotes, current);
      } else if s[0] == ',' && !inQuotes {
        QuotesDoNotReachFields(s[1..], false, "");
      } else {
        QuotesDoNotReachFields(s[1..], inQuotes, current + [s[0]]);
      }
    }
  }

  /** The doubled quotes inside quotes that the comma scan of `s` reads as one
      literal quote each. */
  function EscapedQuotes(s: string, inQuotes: bool): nat
    decreases |s|
  {
    if s == [] then 0
    else if s[0] == '"' then
      if inQuotes && |s| > 1 && s[1] == '"' then 1 + EscapedQuotes(s[2..], true)
      else EscapedQuotes(s[1..], !inQuotes)
    else if s[0] == ',' && !inQuotes then EscapedQuotes(s[1..], false)
    else EscapedQuotes(s[1..], inQuotes)
  }

  /** The quote characters across a list of fields. */
  function QuotesIn(fields: seq<string>): nat {
    if fields == [] then 0 else Count(fields[0], '"') + QuotesIn(fields[1..])
  }

  /** For every line: the fields hold exactly one quote per escape pair the
      scan reads inside quotes, besides those of the field already started.
      Every other quote character, opening or closing, and a doubled quote
      outside quotes (`a""b` reads as `ab`), only switches the quote state. */
  lemma {:induction false} FieldQuotes(s: string, inQuotes: bool, current: string)
    ensures QuotesIn(Fields(s, inQuotes, current)) == Count(current, '"') + EscapedQuotes(s, inQuotes)
    decreases |s|
  {
    if s == [] {
      assert QuotesIn([current]) == Count(current, '"') + QuotesIn([]);
    } else if s[0] == '"' {
      if inQuotes && |s| > 1 && s[1] == '"' {
        FieldQuotes(s[2..], true, current + ['"']);
        CountAppend(current, '"', '"');
      } else {
        FieldQuotes(s[1..], !inQuotes, current);
      }
    } else if s[0] == ',' && !inQuotes {
      var rest := Fields(s[1..], false, "");
      FieldQuotes(s[1..], false, "");
      assert ([current] + rest)[1..] == rest;
      assert QuotesIn([current] + rest) == Count(current, '"') + QuotesIn(rest);
    } else {
      FieldQuotes(s[1..], inQuotes, current + [s[0]]);
      CountAppend(current, s[0], '"');
    }
  }

  /** A line in which no two quotes are adjacent has no escape pair. */
  lemma {:induction false} NoEscapesWithoutDoubledQuote(s: string, inQuotes: bool)
    requires NoDoubledQuote(s)
    ensures EscapedQuotes(s, inQuotes) == 0
    decreases |s|
  {
    if s != [] {
      assert NoDoubledQuote(s[1..]) by {
        forall k | 0 <= k < |s[1..]| - 1 ensures !(s[1..][k] == '"' && s[1..][k + 1] == '"') {
          assert s[1..][k] == s[k + 1] && s[1..][k + 1] == s[k + 2];
        }
      }
      if s[0] == '"' {
        assert !(|s| > 1 && s[1] == '"');
        NoEscapesWithoutDoubledQuote(s[1..], !inQuotes);
      } else if s[0] == ',' && !inQuotes {
        NoEscapesWithoutDoubledQuote(s[1..], false);
      } else {
        NoEscapesWithoutDoubledQuote(s[1..], inQuotes);
      }
    }
  }

  /** The empty quoted field that the export writes for an empty string reads
      back as an empty field. */
  lemma EmptyQuotedField()
    ensures Fields("a,\"\",b", false, "") == ["a", "", "b"]
  {
    var s := "a,\"\",b";
    assert s[1..] == ",\"\",b" && s[1..][1..] == "\"\",b";
    assert "\"\",b"[1..] == "\",b" && "\",b"[1..] == ",b" && ",b"[1..] == "b" && "b"[1..] == "";
    assert Fields("b", false, "") == Fields("", false, "" + ['b']) && "" + ['b'] == "b";
    assert Fields(",b", false, "") == [""] + ["b"];
    assert Fields("\",b", true, "") == Fields(",b", false, "");
    assert Fields("\"\",b", false, "") == Fields("\",b", true, "");
    assert Fields(s, false, "") == Fields(s[1..], false, "" + ['a']) && "" + ['a'] == "a";
    assert Fields(s[1..], false, "a") == ["a"] + Fields("\"\",b", false, "");
  }

  /** A doubled quote outside quotes opens and closes quoting and adds
      nothing: `a""b` reads as `ab`. */
  lemma DoubledQuoteOutsideQuotes()
    ensures Fields("a\"\"b", false, "") == ["ab"]
  {
    var s := "a\"\"b";
    assert s[1..] == "\"\"b" && "\"\"b"[1..] == "\"b" && "\"b"[1..] == "b" && "b"[1..] == "";
    assert Fields("b", false, "a") == Fields("", false, "a" + ['b']) && "a" + ['b'] == "ab";
    assert Fields("\"b", true, "a") == Fields("b", false, "a");
    assert Fields("\"\"b", false, "a") == Fields("\"b", true, "a");
    assert Fields(s, false, "") == Fields(s[1..], false, "" + ['a']) && "" + ['a'] == "a";
  }
}
