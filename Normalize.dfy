/**
  The field normalisers of the raw import (lib/import-utils.ts:6-79): total
  functions from one raw cell to a canonical value. None of them fails; an
  unparseable cell becomes null (None) or a fallback value.
*/
module Normalize {
  import opened Wrappers
  import opened Text

  // ---------------------------------------------------------------------
  // Dates: "4 June 1999" -> "1999-06-04"
  // ---------------------------------------------------------------------

  /** English month names in lower case; month n is at index n - 1. */
  const MonthNames: seq<string> := ["january", "february", "march", "april", "may", "june",
    "july", "august", "september", "october", "november", "december"]

  /** Two-digit month numbers; month n is at index n - 1. */
  const MonthCodes: seq<string> := ["01", "02", "03", "04", "05", "06",
    "07", "08", "09", "10", "11", "12"]

  /** The month table: a lower-case English month name to its two-digit number. */
  function MonthCode(name: string): (r: Option<string>)
    ensures r.Some? <==> name in MonthNames
    ensures forall k :: 0 <= k < |MonthNames| && MonthNames[k] == name ==> r == Some(MonthCodes[k])
  {
    if name == "january" then Some("01")
    else if name == "february" then Some("02")
    else if name == "march" then Some("03")
    else if name == "april" then Some("04")
    else if name == "may" then Some("05")
    else if name == "june" then Some("06")
    else if name == "july" then Some("07")
    else if name == "august" then Some("08")
    else if name == "september" then Some("09")
    else if name == "october" then Some("10")
    else if name == "november" then Some("11")
    else if name == "december" then Some("12")
    else None
  }

  /** `parseThaiDate`: "<day> <Month> <year>" becomes "<year>-<MM>-<day>" with
      the day left-padded to two characters. Null for an empty or blank cell,
      for "-", for anything whose trimmed text is not exactly three tokens
      separated by single spaces, and for an unknown month name. */
  function ParseThaiDate(s: string): (r: Option<string>)
    ensures AllSpace(s) ==> r == None
    ensures s == "-" ==> r == None
    ensures Count(Trim(s), ' ') != 2 ==> r == None
  {
    if s == "" || Trim(s) == "" || s == "-" then None
    else
      var parts := Split(Trim(s), ' ');
      if |parts| != 3 then None
      else
        var day := PadStart(parts[0], 2, '0');
        var year := parts[2];
        match MonthCode(ToLower(parts[1]))
        case None => None
        case Some(month) => Some(year + "-" + month + "-" + day)
  }

  /** A parsed date names a known month in its middle token. */
  lemma ParseThaiDateKnownMonth(s: string)
    requires ParseThaiDate(s).Some?
    ensures var parts := Split(Trim(s), ' ');
      |parts| == 3 && MonthCode(ToLower(parts[1])).Some?
  {
  }

  /** Lower-casing a month name in any mix of case keeps it free of spaces. */
  lemma LowerKeepsSpaces(name: string)
    requires ToLower(name) in MonthNames
    ensures ' ' !in name && name != []
  {
    assert forall m :: m in MonthNames ==> ' ' !in m && m != [];
    forall i | 0 <= i < |name| ensures name[i] != ' ' {
      assert ToLower(name)[i] == LowerChar(name[i]);
    }
  }

  /** Round trip with the date shape the importer expects: a day, an English
      month name in any case, and a year, separated by single spaces and
      surrounded by any whitespace, parse to "<year>-<MM>-<day padded to 2>". */
  lemma {:induction false} ParseThaiDateOfEnglishDate(w1: string, day: string, name: string, year: string,
                                                     w2: string, k: nat)
    requires k < 12 && ToLower(name) == MonthNames[k]
    requires day != [] && year != []
    requires ' ' !in day && ' ' !in year
    requires !IsSpace(day[0]) && !IsSpace(year[|year| - 1])
    requires AllSpace(w1) && AllSpace(w2)
    ensures ParseThaiDate(w1 + (day + " " + name + " " + year) + w2)
         == Some(year + "-" + MonthCodes[k] + "-" + PadStart(day, 2, '0'))
  {
    LowerKeepsSpaces(name);
    var core := day + " " + name + " " + year;
    EnglishDateShape(day, name, year);
    TrimPadded(w1, core, w2);
    assert MonthCode(ToLower(name)) == Some(MonthCodes[k]);
    var s := w1 + core + w2;
    assert |s| >= |core| >= 5;
    ParseThaiDateOfParts(s, day, name, year);
  }

  /** Such a date is its own trim and splits into its three tokens. */
  lemma EnglishDateShape(day: string, name: string, year: string)
    requires day != [] && year != [] && name != []
    requires ' ' !in day && ' ' !in name && ' ' !in year
    requires !IsSpace(day[0]) && !IsSpace(year[|year| - 1])
    ensures var s := day + " " + name + " " + year;
      s != "-" && s != "" && Trim(s) == s && Split(s, ' ') == [day, name, year]
  {
    var s := day + " " + name + " " + year;
    assert Join([day, name, year], [' ']) == s by {
      assert Join([name, year], [' ']) == name + " " + year;
    }
    assert s[0] == day[0] && s[|s| - 1] == year[|year| - 1];
    TrimOfTrimmed(s);
    SplitJoin([day, name, year], ' ');
    assert |s| >= 5;
  }

  /** A date that is its own trim and splits into three tokens parses to
      year-month-day. */
  lemma ParseThaiDateOfParts(s: string, day: string, name: string, year: string)
    requires s != "-" && s != "" && Trim(s) != "" && Split(Trim(s), ' ') == [day, name, year]
    ensures ParseThaiDate(s) == match MonthCode(ToLower(name))
      case None => None
      case Some(month) => Some(year + "-" + month + "-" + PadStart(day, 2, '0'))
  {
  }

  /** A one-digit day, as in "4 June 1999", gets a single leading zero:
      "1999-06-04". */
  lemma ParseThaiDateSingleDigitDay(day: string, name: string, year: string, k: nat)
    requires |day| == 1 && IsDigit(day[0])
    requires k < 12 && ToLower(name) == MonthNames[k]
    requires year != [] && ' ' !in year && !IsSpace(year[|year| - 1])
    ensures ParseThaiDate(day + " " + name + " " + year)
         == Some(year + "-" + MonthCodes[k] + "-0" + day)
  {
    var core := day + " " + name + " " + year;
    assert "" + core + "" == core;
    ParseThaiDateOfEnglishDate("", day, name, year, "", k);
    PadSingle(day);
    ZeroPrefixed(year + "-" + MonthCodes[k], day);
  }

  /** Appending "-" and a zero-padded day is appending "-0" and the day. */
  lemma ZeroPrefixed(head: string, day: string)
    ensures head + "-" + (['0'] + day) == head + "-0" + day
  {
  }

  /** A one-character day gets a single leading zero. */
  lemma PadSingle(d: string)
    requires |d| == 1
    ensures PadStart(d, 2, '0') == ['0'] + d
  {
  }

  /** An ISO date is a single token, so it is not a date to this parser. */
  lemma ParseThaiDateRejectsIso(s: string)
    requires s == "2024-01-01"
    ensures ParseThaiDate(s) == None
  {
    TrimOfTrimmed(s);
    CountAbsent(s, ' ');
  }

  // ---------------------------------------------------------------------
  // Movement types
  // ---------------------------------------------------------------------

  /** The six movement types the importer produces. */
  datatype MovementType = NewHired | VoluntaryResignation | InvoluntaryResignation
                        | TransferIn | TransferOut | Retirement
  {
    /** The text stored in `movement_type`. */
    function Name(): string {
      match this
      case NewHired => "New Hired"
      case VoluntaryResignation => "Voluntary Resignation"
      case InvoluntaryResignation => "Involuntary Resignation"
      case TransferIn => "Transfer-In"
      case TransferOut => "Transfer-Out"
      case Retirement => "Retirement"
    }

    /** A row that (re)starts an employment: `isNewHire`. */
    predicate IsNewHire() {
      this == NewHired || this == TransferIn
    }

    /** A row that ends an employment: `isLeaving`. */
    predicate IsLeaving() {
      this == VoluntaryResignation || this == InvoluntaryResignation
      || this == Retirement || this == TransferOut
    }
  }

  /** Two movement types are equal exactly when their stored names are, so a
      comparison on the stored text is a comparison on the type. */
  lemma NameInjective(a: MovementType, b: MovementType)
    ensures a.Name() == b.Name() <==> a == b
  {
  }

  /** Every movement type is exactly one of new-hire and leaving, so the
      reducer's third, "neither" branch can never fire. */
  lemma NewHireXorLeaving(t: MovementType)
    ensures t.IsNewHire() != t.IsLeaving()
  {
  }

  /** The text the classifier looks at: trimmed and lower-cased. */
  function MovementKey(raw: string): string {
    ToLower(Trim(raw))
  }

  /** Rule 1 of the classifier: "new hired". */
  predicate NewHiredRule(k: string) { Contains(k, "new hired") }

  /** Rule 2: "voluntary resignation". */
  predicate VoluntaryRule(k: string) { Contains(k, "voluntary resignation") }

  /** Rule 3: "involuntary resignation" or "mutual contract". */
  predicate InvoluntaryRule(k: string) {
    Contains(k, "involuntary resignation") || Contains(k, "mutual contract")
  }

  /** Rule 4: "transfer" and "in", anywhere in the text. */
  predicate TransferInRule(k: string) { Contains(k, "transfer") && Contains(k, "in") }

  /** Rule 5: "transfer" and "out". */
  predicate TransferOutRule(k: string) { Contains(k, "transfer") && Contains(k, "out") }

  /** Rule 6: "retirement". */
  predicate RetirementRule(k: string) { Contains(k, "retirement") }

  /** The six substring rules of the classifier, tried in source order on the
      lower-cased text, the first that fires deciding; New Hired when none
      fires. Each outcome is characterised both ways: it is produced exactly
      when its rule fires and no earlier rule does. */
  function Classify(k: string): (t: MovementType)
    ensures t == NewHired <==>
      NewHiredRule(k)
      || (!VoluntaryRule(k) && !InvoluntaryRule(k) && !TransferInRule(k)
          && !TransferOutRule(k) && !RetirementRule(k))
    ensures t == VoluntaryResignation <==> !NewHiredRule(k) && VoluntaryRule(k)
    ensures t == InvoluntaryResignation <==>
      !NewHiredRule(k) && !VoluntaryRule(k) && InvoluntaryRule(k)
    ensures t == TransferIn <==>
      !NewHiredRule(k) && !VoluntaryRule(k) && !InvoluntaryRule(k) && TransferInRule(k)
    ensures t == TransferOut <==>
      !NewHiredRule(k) && !VoluntaryRule(k) && !InvoluntaryRule(k) && !TransferInRule(k)
      && TransferOutRule(k)
    ensures t == Retirement <==>
      !NewHiredRule(k) && !VoluntaryRule(k) && !InvoluntaryRule(k) && !TransferInRule(k)
      && !TransferOutRule(k) && RetirementRule(k)
  {
    if Contains(k, "new hired") then NewHired
    else if Contains(k, "voluntary resignation") then VoluntaryResignation
    else if Contains(k, "involuntary resignation") || Contains(k, "mutual contract") then InvoluntaryResignation
    else if Contains(k, "transfer") && Contains(k, "in") then TransferIn
    else if Contains(k, "transfer") && Contains(k, "out") then TransferOut
    else if Contains(k, "retirement") then Retirement
    else NewHired
  }

  /** `parseMovementType`: a text naming "new hired" is always a New Hired,
      whatever else it says. */
  function ParseMovementType(raw: string): (t: MovementType)
    ensures Contains(MovementKey(raw), "new hired") ==> t == NewHired
  {
    Classify(MovementKey(raw))
  }

  /** Surrounding whitespace does not change the movement type. */
  lemma ParseMovementTypeIgnoresPadding(raw: string)
    ensures ParseMovementType(Trim(raw)) == ParseMovementType(raw)
  {
    TrimOfTrimmed(Trim(raw));
  }

  /** "voluntary resignation" is a substring of "involuntary resignation". */
  lemma VoluntaryInsideInvoluntary()
    ensures Contains("involuntary resignation", "voluntary resignation")
  {
    assert OccursAt("involuntary resignation", "voluntary resignation", 2);
  }

  /** Text mentioning "involuntary resignation" (and not "new hired") is
      classified as a Voluntary Resignation: the rule at line 33 shadows the
      one at line 34. */
  lemma {:induction false} InvoluntaryReadAsVoluntary(raw: string)
    requires Contains(MovementKey(raw), "involuntary resignation")
    requires !Contains(MovementKey(raw), "new hired")
    ensures ParseMovementType(raw) == VoluntaryResignation
  {
    VoluntaryInsideInvoluntary();
    assert ParseMovementType(raw) == Classify(MovementKey(raw));
    ContainsTransitive(MovementKey(raw), "involuntary resignation", "voluntary resignation");
  }

  /** So the only way to obtain an Involuntary Resignation is "mutual contract",
      in text that mentions neither "new hired" nor "involuntary resignation". */
  lemma {:induction false} InvoluntaryOnlyFromMutualContract(raw: string)
    ensures ParseMovementType(raw) == InvoluntaryResignation <==>
      && !Contains(MovementKey(raw), "new hired")
      && !Contains(MovementKey(raw), "voluntary resignation")
      && Contains(MovementKey(raw), "mutual contract")
    ensures ParseMovementType(raw) == InvoluntaryResignation ==>
      !Contains(MovementKey(raw), "involuntary resignation")
  {
    assert ParseMovementType(raw) == Classify(MovementKey(raw));
    if Contains(MovementKey(raw), "involuntary resignation") {
      VoluntaryInsideInvoluntary();
      ContainsTransitive(MovementKey(raw), "involuntary resignation", "voluntary resignation");
    }
  }

  /** A probe one of whose characters does not occur is not contained. */
  lemma NotContainsChar(s: string, t: string, j: nat)
    requires j < |t| && t[j] !in s
    ensures !Contains(s, t)
  {
    forall i | 0 <= i <= |s| - |t| ensures !OccursAt(s, t, i) {
      assert s[i..i + |t|][j] == s[i + j];
    }
  }

  /** Examples of the order-sensitive classification: "5 - Transfer - Out" is a
      Transfer-Out. */
  lemma TransferOutExample(raw: string)
    requires raw == "5 - Transfer - Out"
    ensures ParseMovementType(raw) == TransferOut
  {
    TrimOfTrimmed(raw);
    ClassifyTransferOut(MovementKey(raw));
  }

  lemma ClassifyTransferOut(k: string)
    requires k == "5 - transfer - out"
    ensures Classify(k) == TransferOut
  {
    TransferOutKeyLacks(k);
    NoEarlierRuleForTransferOut(k);
    assert OccursAt(k, "transfer", 4);
    assert OccursAt(k, "out", 15);
  }

  lemma TransferOutKeyLacks(k: string)
    requires k == "5 - transfer - out"
    ensures 'w' !in k && 'v' !in k && 'm' !in k && 'i' !in k
  {
  }

  /** Text without 'w', 'v', 'm' and 'i' matches none of the rules before
      the Transfer-Out rule. */
  lemma NoEarlierRuleForTransferOut(k: string)
    requires 'w' !in k && 'v' !in k && 'm' !in k && 'i' !in k
    ensures !Contains(k, "new hired") && !Contains(k, "voluntary resignation")
    ensures !Contains(k, "involuntary resignation") && !Contains(k, "mutual contract")
    ensures !Contains(k, "in")
  {
    NotContainsChar(k, "new hired", 2);
    NotContainsChar(k, "voluntary resignation", 0);
    NotContainsChar(k, "involuntary resignation", 2);
    NotContainsChar(k, "mutual contract", 0);
    NotContainsChar(k, "in", 0);
  }

  /** "9 - Transfer" has neither "in" nor "out", so it defaults to New Hired. */
  lemma BareTransferExample(raw: string)
    requires raw == "9 - Transfer"
    ensures ParseMovementType(raw) == NewHired
  {
    TrimOfTrimmed(raw);
    ClassifyBareTransfer(MovementKey(raw));
  }

  lemma ClassifyBareTransfer(k: string)
    requires k == "9 - transfer"
    ensures Classify(k) == NewHired
  {
    BareTransferKeyLacks(k);
    NoRuleForBareTransfer(k);
  }

  lemma BareTransferKeyLacks(k: string)
    requires k == "9 - transfer"
    ensures 'w' !in k && 'v' !in k && 'm' !in k && 'i' !in k && 'o' !in k
  {
  }

  /** Text without 'w', 'v', 'm', 'i' and 'o' matches no keyword rule. */
  lemma NoRuleForBareTransfer(k: string)
    requires 'w' !in k && 'v' !in k && 'm' !in k && 'i' !in k && 'o' !in k
    ensures !Contains(k, "new hired") && !Contains(k, "voluntary resignation")
    ensures !Contains(k, "involuntary resignation") && !Contains(k, "mutual contract")
    ensures !Contains(k, "in") && !Contains(k, "out") && !Contains(k, "retirement")
  {
    NotContainsChar(k, "new hired", 2);
    NotContainsChar(k, "voluntary resignation", 0);
    NotContainsChar(k, "involuntary resignation", 2);
    NotContainsChar(k, "mutual contract", 0);
    NotContainsChar(k, "in", 0);
    NotContainsChar(k, "out", 0);
    NotContainsChar(k, "retirement", 3);
  }

  // ---------------------------------------------------------------------
  // Names and position levels
  // ---------------------------------------------------------------------

  /** `s` with every occurrence of `c` deleted (`replace(/c/g, '')`). */
  function Remove(s: string, c: char): (r: string)
    ensures c !in r
    ensures c !in s ==> r == s
    ensures |r| <= |s|
  {
    if s == [] then []
    else (if s[0] == c then [] else [s[0]]) + Remove(s[1..], c)
  }

  /** Removal distributes over concatenation: every other character is kept,
      in order. */
  lemma {:induction false} RemoveAppend(a: string, b: string, c: char)
    ensures Remove(a + b, c) == Remove(a, c) + Remove(b, c)
    decreases |a|
  {
    if a == [] {
      assert a + b == b;
    } else {
      var head := if a[0] == c then [] else [a[0]];
      assert (a + b)[0] == a[0] && (a + b)[1..] == a[1..] + b;
      assert Remove(a + b, c) == head + Remove(a[1..] + b, c);
      RemoveAppend(a[1..], b, c);
      assert Remove(a, c) == head + Remove(a[1..], c);
      AppendAssoc(head, Remove(a[1..], c), Remove(b, c));
    }
  }

  /** Concatenation is associative. */
  lemma AppendAssoc(p: string, q: string, r: string)
    ensures p + (q + r) == (p + q) + r
  {
  }

  /** `cleanName`: every double quote deleted, then trimmed. No quote remains
      and the result has no white space at either end. */
  function CleanName(name: string): (r: string)
    ensures '"' !in r
    ensures r == [] || (!IsSpace(r[0]) && !IsSpace(r[|r| - 1]))
    ensures '"' !in name ==> r == Trim(name)
  {
    var q := Remove(name, '"');
    TrimSlice(q);
    assert forall i :: 0 <= i < |Trim(q)| ==> Trim(q)[i] in q;
    Trim(q)
  }

  /** A name that arrives between double quotes is its inner text, trimmed. */
  lemma CleanNameQuoted(n: string)
    requires '"' !in n
    ensures CleanName("\"" + n + "\"") == Trim(n)
  {
    var q := "\"";
    var x := q + n + q;
    assert x == q + (n + q);
    RemoveAppend(q, n + q, '"');
    RemoveAppend(n, q, '"');
    assert Remove(q, '"') == [] && Remove(n, '"') == n;
    assert Remove(x, '"') == n;
    assert CleanName(x) == Trim(Remove(x, '"'));
  }

  /** Cleaning a cleaned name changes nothing. */
  lemma CleanNameIdempotent(name: string)
    ensures CleanName(CleanName(name)) == CleanName(name)
  {
    TrimOfTrimmed(CleanName(name));
  }

  /** Number of ASCII digits at the front of `s`. */
  function LeadingDigits(s: string): (n: nat)
    ensures n <= |s| && AllDigits(s[..n])
    ensures n < |s| ==> !IsDigit(s[n])
  {
    if s == [] || !IsDigit(s[0]) then 0
    else
      var n := 1 + LeadingDigits(s[1..]);
      assert forall i :: 1 <= i < n ==> s[..n][i] == s[1..][..n - 1][i - 1];
      n
  }

  /** Length of the prefix `^\d+\.\s*`, or 0 when `s` does not start with one. */
  function OrdinalPrefix(s: string): (n: nat)
    ensures n <= |s|
    ensures n > 0 <==> 0 < LeadingDigits(s) < |s| && s[LeadingDigits(s)] == '.'
    ensures n > 0 ==> LeadingDigits(s) < n && (n < |s| ==> !IsSpace(s[n]))
    ensures n > 0 ==> AllSpace(s[LeadingDigits(s) + 1..n])
  {
    var k := LeadingDigits(s);
    if k > 0 && k < |s| && s[k] == '.' then
      SpaceEndAll(s, k + 1);
      SpaceEnd(s, k + 1)
    else 0
  }

  /** Trimming ignores white space already cut from the front. */
  lemma TrimDropSpace(x: string, i: nat)
    requires i <= |x| && AllSpace(x[..i])
    ensures Trim(x[i..]) == Trim(x)
  {
    var y := x[i..];
    var e, r := SpaceEnd(y, 0), Trim(y);
    SpaceEndAfterSpace(x, i);
    TrimSlice(y);
    SliceOfDrop(x, i, e, e + |r|);
    SpaceFromDrop(x, i, e + |r|);
    TrimUnique(x, i + e + |r|);
  }

  /** A slice of a suffix is a slice of the whole. */
  lemma SliceOfDrop(x: string, i: nat, p: nat, q: nat)
    requires i <= |x| && p <= q <= |x| - i
    ensures x[i..][p..q] == x[i + p..i + q]
  {
  }

  /** White space from `b` on in a suffix is white space from `i + b` on in
      the whole. */
  lemma SpaceFromDrop(x: string, i: nat, b: nat)
    requires i <= |x| && SpaceFrom(x[i..], b)
    ensures SpaceFrom(x, i + b)
  {
    forall j | i + b <= j < |x| ensures IsSpace(x[j]) {
      assert x[j] == x[i..][j - i];
    }
  }

  /** The leading white space of `x` runs on through that of `x[i..]`. */
  lemma SpaceEndAfterSpace(x: string, i: nat)
    requires i <= |x| && AllSpace(x[..i])
    ensures SpaceEnd(x, 0) == i + SpaceEnd(x[i..], 0)
  {
    var y := x[i..];
    var e := SpaceEnd(y, 0);
    SpaceEndAll(y, 0);
    forall k | 0 <= k < i + e ensures IsSpace(x[k]) {
      if k < i { assert x[k] == x[..i][k]; } else { assert x[k] == y[k - i]; }
    }
    assert i + e < |x| ==> x[i + e] == y[e];
    SpaceEndOfRun(x, 0, i + e);
  }

  /** `parsePositionLevel`: a leading ordinal "<digits>." and the white space
      after it are removed, then the rest is trimmed. */
  function ParsePositionLevel(level: string): (r: string)
    ensures r == [] || (!IsSpace(r[0]) && !IsSpace(r[|r| - 1]))
    ensures OrdinalPrefix(level) == 0 ==> r == Trim(level)
  {
    Trim(level[OrdinalPrefix(level)..])
  }

  /** "6. Officer" -> "Officer": the ordinal prefix of any length is dropped. */
  lemma {:induction false} StripsOrdinal(digits: string, rest: string)
    requires digits != [] && AllDigits(digits)
    ensures ParsePositionLevel(digits + "." + rest) == Trim(rest)
  {
    var s := digits + "." + rest;
    var k := |digits|;
    assert s == digits + ("." + rest);
    LeadingDigitsOfDigits(digits, "." + rest);
    assert s[k] == '.';
    assert s[k + 1..] == rest;
    var n := OrdinalPrefix(s);
    assert n == SpaceEnd(s, k + 1);
    SpaceEndAll(s, k + 1);
    var m := n - (k + 1);
    forall t | 0 <= t < m ensures IsSpace(rest[..m][t]) {
      assert rest[..m][t] == s[k + 1 + t];
    }
    assert s[n..] == rest[m..];
    TrimDropSpace(rest, m);
  }

  /** A run of digits followed by a non-digit is counted exactly. */
  lemma {:induction false} LeadingDigitsOfDigits(digits: string, rest: string)
    requires AllDigits(digits)
    requires rest == [] || !IsDigit(rest[0])
    ensures LeadingDigits(digits + rest) == |digits|
    decreases |digits|
  {
    if digits != [] {
      assert (digits + rest)[1..] == digits[1..] + rest;
      LeadingDigitsOfDigits(digits[1..], rest);
    }
  }

  // ---------------------------------------------------------------------
  // Leaving reasons: "5 - ความก้าวหน้า" -> "5"
  // ---------------------------------------------------------------------

  /** One past the last line terminator of `s` (0 when there is none). */
  function AfterLastTerminator(s: string): (q: nat)
    ensures q <= |s|
    ensures NoLineTerminator(s[q..])
    ensures q > 0 ==> IsLineTerminator(s[q - 1])
  {
    if s == [] then 0
    else if IsLineTerminator(s[|s| - 1]) then |s|
    else
      var q := AfterLastTerminator(s[..|s| - 1]);
      assert forall i :: q <= i < |s| - 1 ==> s[..|s| - 1][i] == s[i];
      q
  }

  /** `/^\s*.+$/` read as a scan: whatever follows the dash is white space and
      then at least one character, the latter part free of line terminators. */
  predicate TailMatches(s: string) {
    var q := AfterLastTerminator(s);
    q < |s| && AllSpace(s[..q])
  }

  /** The code captured by `/^(\d+)\s*-\s*.+$/`, as an explicit scan. */
  function ReasonCode(s: string): (r: Option<string>)
    ensures r.Some? ==> r.value != [] && r.value <= s && AllDigits(r.value)
    ensures r.Some? ==> |r.value| < |s| && !IsDigit(s[|r.value|])
  {
    var k := LeadingDigits(s);
    var p := SpaceEnd(s, k);
    if k > 0 && p < |s| && s[p] == '-' && TailMatches(s[p + 1..]) then Some(s[..k]) else None
  }

  /** The regular expression read declaratively: `s` is digits `s[..i]`, white
      space `s[i..j]`, a dash at `j`, white space `s[j+1..m]` and a non-empty,
      terminator-free rest `s[m..]`. */
  ghost predicate ReasonSplit(s: string, i: int, j: int, m: int) {
    && 0 < i <= j < m < |s|
    && AllDigits(s[..i])
    && AllSpace(s[i..j])
    && s[j] == '-'
    && AllSpace(s[j + 1..m])
    && NoLineTerminator(s[m..])
  }

  /** The scan and the regular expression agree, in both directions; the
      captured group is the digit prefix. */
  lemma {:induction false} ReasonCodeMatchesPattern(s: string)
    ensures ReasonCode(s).Some? <==> exists i, j, m :: ReasonSplit(s, i, j, m)
    ensures forall i, j, m :: ReasonSplit(s, i, j, m) ==> ReasonCode(s) == Some(s[..i])
  {
    if ReasonCode(s).Some? {
      var k := LeadingDigits(s);
      var p := SpaceEnd(s, k);
      var q := AfterLastTerminator(s[p + 1..]);
      var u := s[k..p];
      SpaceEndAll(s, k);
      forall t | 0 <= t < |u| ensures IsSpace(u[t]) {
        assert u[t] == s[k + t];
      }
      ScanIsReasonSplit(s, k, p, q);
    }
    forall i, j, m | ReasonSplit(s, i, j, m) ensures ReasonCode(s) == Some(s[..i]) {
      ReasonSplitIsScan(s, i, j, m);
    }
  }

  /** The pieces the scan finds assemble into a split in the sense of
      ReasonSplit. */
  lemma ScanIsReasonSplit(s: string, k: nat, p: nat, q: nat)
    requires 0 < k <= p && p + 1 + q < |s|
    requires AllDigits(s[..k]) && AllSpace(s[k..p]) && s[p] == '-'
    requires AllSpace(s[p + 1..][..q]) && NoLineTerminator(s[p + 1..][q..])
    ensures ReasonSplit(s, k, p, p + 1 + q)
  {
    assert s[p + 1..][..q] == s[p + 1..p + 1 + q];
    assert s[p + 1..][q..] == s[p + 1 + q..];
  }

  /** A split in the sense of ReasonSplit is the one the scan finds. */
  lemma ReasonSplitIsScan(s: string, i: int, j: int, m: int)
    requires ReasonSplit(s, i, j, m)
    ensures ReasonCode(s) == Some(s[..i])
  {
    DigitsOfSplit(s, i, j, m);
    SpacesOfSplit(s, i, j, m);
    var r := s[j + 1..];
    assert r[..m - (j + 1)] == s[j + 1..m];
    assert r[m - (j + 1)..] == s[m..];
    TailOfSplit(r, m - (j + 1));
  }

  /** The digit run of a split is the one the scan counts. */
  lemma DigitsOfSplit(s: string, i: int, j: int, m: int)
    requires ReasonSplit(s, i, j, m)
    ensures LeadingDigits(s) == i
  {
    assert s[..i] + s[i..] == s;
    assert !IsDigit(s[i]) by {
      if i < j { assert s[i..j][0] == s[i]; }
    }
    LeadingDigitsOfDigits(s[..i], s[i..]);
  }

  /** The white space before the dash of a split is the one the scan counts. */
  lemma SpacesOfSplit(s: string, i: int, j: int, m: int)
    requires ReasonSplit(s, i, j, m)
    ensures SpaceEnd(s, i) == j
  {
    forall k | i <= k < j ensures IsSpace(s[k]) {
      assert s[k] == s[i..j][k - i];
    }
    SpaceEndOfRun(s, i, j);
  }

  /** White space, then a non-empty terminator-free rest, matches the tail. */
  lemma TailOfSplit(r: string, c: nat)
    requires c < |r| && AllSpace(r[..c]) && NoLineTerminator(r[c..])
    ensures TailMatches(r)
  {
    var q := AfterLastTerminator(r);
    AfterLastTerminatorBound(r, c);
    assert r[..q] == r[..c][..q];
  }

  /** The last line terminator lies before any terminator-free suffix. */
  lemma {:induction false} AfterLastTerminatorBound(r: string, c: nat)
    requires c <= |r| && NoLineTerminator(r[c..])
    ensures AfterLastTerminator(r) <= c
    decreases |r|
  {
    if r != [] && c < |r| {
      assert r[|r| - 1] == r[c..][|r| - 1 - c];
      assert r[..|r| - 1][c..] == r[c..][..|r| - 1 - c];
      AfterLastTerminatorBound(r[..|r| - 1], c);
    }
  }

  /** `parseLeavingReason`: null for a blank cell; the leading code of
      "<digits> - <text>"; otherwise the trimmed text when it is at most ten
      characters long, else the catch-all code "99". */
  function ParseLeavingReason(raw: string): (r: Option<string>)
    ensures r == None <==> AllSpace(raw)
  {
    if raw == "" || Trim(raw) == "" then None
    else
      match ReasonCode(raw)
      case Some(code) => Some(code)
      case None =>
        var trimmed := Trim(raw);
        if |trimmed| <= 10 then Some(trimmed) else Some("99")
  }

  /** A non-blank reason is its code when it has one, and otherwise the
      trimmed text when that is at most ten characters long, else "99"; a
      result is never longer than the cell. */
  lemma LeavingReasonCases(raw: string)
    requires !AllSpace(raw)
    ensures ReasonCode(raw).Some? ==> ParseLeavingReason(raw) == ReasonCode(raw)
    ensures ReasonCode(raw).None? ==>
      ParseLeavingReason(raw) == Some(if |Trim(raw)| <= 10 then Trim(raw) else "99")
    ensures |ParseLeavingReason(raw).value| <= |raw|
  {
  }

  /** "<digits> <spaces>-<spaces><text>" yields the digits, for any text that
      is non-empty and on one line. */
  lemma {:induction false} LeavingReasonOfCode(digits: string, w1: string, w2: string, text: string)
    requires digits != [] && AllDigits(digits)
    requires AllSpace(w1) && AllSpace(w2)
    requires text != [] && NoLineTerminator(text)
    ensures ParseLeavingReason(digits + w1 + "-" + w2 + text) == Some(digits)
  {
    var s := digits + w1 + "-" + w2 + text;
    var i, j, m := |digits|, |digits| + |w1|, |digits| + |w1| + 1 + |w2|;
    assert s[..i] == digits;
    assert s[i..j] == w1;
    assert s[j] == '-';
    assert s[j + 1..m] == w2;
    assert s[m..] == text;
    assert ReasonSplit(s, i, j, m);
    ReasonCodeMatchesPattern(s);
    assert !IsSpace(s[0]);
  }

  /** The example from the source's comment: "5 - ความก้าวหน้า" -> "5". */
  lemma LeavingReasonExample(raw: string)
    requires raw == "5 - ความก้าวหน้า"
    ensures ParseLeavingReason(raw) == Some("5")
  {
    assert raw[2] == '-' && raw[..1] == "5";
    FivePieces(raw);
    LeavingReasonOfCode(raw[..1], raw[1..2], raw[3..4], raw[4..]);
  }

  /** A string of at least four characters is its first, second, third and
      fourth character and the rest. */
  lemma FivePieces(s: string)
    requires |s| >= 4
    ensures s == s[..1] + s[1..2] + [s[2]] + s[3..4] + s[4..]
  {
  }

  // ---------------------------------------------------------------------
  // Education levels
  // ---------------------------------------------------------------------

  const Doctorate: string := "ป. เอก"
  const Masters: string := "ป. โท"
  const Bachelors: string := "ป. ตรี"
  const HigherVocational: string := "ปวส."
  const Vocational: string := "ปวช."

  /** The five canonical education levels. */
  predicate IsCanonicalEducation(e: string) {
    e == Doctorate || e == Masters || e == Bachelors || e == HigherVocational || e == Vocational
  }

  /** Tier 1 of the education rules: a doctorate. */
  predicate DoctorateRule(edu: string) {
    Contains(edu, "ป. เอก") || Contains(edu, "phd") || Contains(edu, "ดร.")
  }

  /** Tier 2: a master's degree. */
  predicate MastersRule(edu: string) { Contains(edu, "ป. โท") || Contains(edu, "master") }

  /** Tier 3: a bachelor's degree. */
  predicate BachelorsRule(edu: string) { Contains(edu, "ป. ตรี") || Contains(edu, "bachelor") }

  /** Tier 4: a higher vocational certificate. */
  predicate HigherVocationalRule(edu: string) { Contains(edu, "ปวส") }

  /** Tier 5: a vocational certificate. */
  predicate VocationalRule(edu: string) { Contains(edu, "ปวช") }

  /** The canonical level named in lower-cased, trimmed text, by the rules in
      their priority order, or None when no rule matches. Each level is
      produced exactly when its tier's keywords occur and no earlier tier's
      do. */
  function EducationRule(edu: string): (r: Option<string>)
    ensures r.Some? ==> IsCanonicalEducation(r.value)
    ensures r == Some(Doctorate) <==> DoctorateRule(edu)
    ensures r == Some(Masters) <==> !DoctorateRule(edu) && MastersRule(edu)
    ensures r == Some(Bachelors) <==> !DoctorateRule(edu) && !MastersRule(edu) && BachelorsRule(edu)
    ensures r == Some(HigherVocational) <==>
      !DoctorateRule(edu) && !MastersRule(edu) && !BachelorsRule(edu) && HigherVocationalRule(edu)
    ensures r == Some(Vocational) <==>
      !DoctorateRule(edu) && !MastersRule(edu) && !BachelorsRule(edu) && !HigherVocationalRule(edu)
      && VocationalRule(edu)
    ensures r.None? <==>
      !DoctorateRule(edu) && !MastersRule(edu) && !BachelorsRule(edu) && !HigherVocationalRule(edu)
      && !VocationalRule(edu)
  {
    if Contains(edu, "ป. เอก") || Contains(edu, "phd") || Contains(edu, "ดร.") then Some(Doctorate)
    else if Contains(edu, "ป. โท") || Contains(edu, "master") then Some(Masters)
    else if Contains(edu, "ป. ตรี") || Contains(edu, "bachelor") then Some(Bachelors)
    else if Contains(edu, "ปวส") then Some(HigherVocational)
    else if Contains(edu, "ปวช") then Some(Vocational)
    else None
  }

  /** `parseEducationLevel`: the canonical level the text names, else the
      first space-delimited token of the untrimmed cell (which holds no space
      and is a prefix of the cell). */
  function ParseEducationLevel(raw: string): (r: string)
    ensures raw == [] ==> r == []
    ensures raw != [] && EducationRule(ToLower(Trim(raw))).Some? ==>
      r == EducationRule(ToLower(Trim(raw))).value
  {
    if raw == "" then ""
    else
      match EducationRule(ToLower(Trim(raw)))
      case Some(level) => level
      case None => FirstToken(raw)
  }

  /** An education level is canonical or a space-free prefix of the cell, and
      it is the first piece of `split(' ')` when no rule matches. */
  lemma EducationLevelShape(raw: string)
    ensures var r := ParseEducationLevel(raw);
      && (IsCanonicalEducation(r) || (' ' !in r && |r| <= |raw| && r == raw[..|r|]))
      && (EducationRule(ToLower(Trim(raw))).None? ==> r == Split(raw, ' ')[0])
  {
  }

  /** The first piece of `split(' ')`: the longest space-free prefix. */
  function FirstToken(s: string): (r: string)
    ensures ' ' !in r && |r| <= |s| && r == s[..|r|]
    ensures r == Split(s, ' ')[0]
  {
    if s == [] || s[0] == ' ' then [] else [s[0]] + FirstToken(s[1..])
  }
}
