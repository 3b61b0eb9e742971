/**
  The row reducer `parseRawData` (lib/import-utils.ts:233-382): the pasted
  text is trimmed and split into lines, the header line is skipped, blank
  lines are dropped, and every remaining line is tokenized and folded into an
  insertion-ordered employee map, an append-only movement list and a list of
  warnings.
*/
module Reducer {
  import opened Wrappers
  import opened Text
  import opened Tokenizer
  import opened Normalize

  // ---------------------------------------------------------------------
  // Records
  // ---------------------------------------------------------------------

  /** `current_status` of an employee snapshot. */
  datatype Status = Active | Resigned | Terminated {
    /** Resigned and Terminated are the end states a new-hire row cannot undo. */
    predicate IsTerminal() {
      this == Resigned || this == Terminated
    }

    function Name(): string {
      match this
      case Active => "Active"
      case Resigned => "Resigned"
      case Terminated => "Terminated"
    }
  }

  /** The named cells of one data line (`RawDataRow`). */
  datatype RawRow = RawRow(
    month: string, movementType: string, employeeId: string,
    firstName: string, lastName: string, gender: string,
    positionTitle: string, positionLevel: string,
    section: string, department: string, businessUnit: string, site: string, company: string,
    birthDate: string, onboardDate: string, resignedDate: string,
    educationLevel: string, leavingType: string, leavingReason: string, remark: string)

  /** The employee snapshot kept per id (`ParsedEmployee`); the organisation
      units are still names here. */
  datatype Employee = Employee(
    employeeId: string, firstName: string, lastName: string,
    birthDate: Option<string>, gender: string, educationLevel: string,
    onboardDate: Option<string>, resignedDate: Option<string>, currentStatus: Status,
    sectionName: string, departmentName: string, businessUnitName: string,
    siteName: string, companyName: string)

  /** One movement record (`ParsedMovement`). */
  datatype Movement = Movement(
    employeeId: string, movementType: MovementType, effectiveDate: Option<string>,
    positionTitle: string, positionLevel: string,
    reasonCode: Option<string>, reasonDetail: Option<string>,
    orgId: int, section: string, department: string)

  /** A line with fewer cells than this is rejected with a warning. */
  const MinColumns: nat := 10

  /** The organisation every movement is filed under. */
  const DefaultOrg: int := 1

  // ---------------------------------------------------------------------
  // Lines and cells
  // ---------------------------------------------------------------------

  /** `text.trim().split('\n')`. */
  function Lines(text: string): (r: seq<string>)
    ensures |r| >= 1
  {
    Split(Trim(text), '\n')
  }

  /** `lines.slice(1).filter(line => line.trim() !== '')` applied to the lines
      after the header: the lines that are not blank, in order. */
  function NonBlank(lines: seq<string>): (r: seq<string>)
    ensures |r| <= |lines|
    ensures forall l :: l in r <==> l in lines && !AllSpace(l)
  {
    if lines == [] then []
    else
      var rest := NonBlank(lines[1..]);
      assert forall l :: l in lines <==> l == lines[0] || l in lines[1..];
      if Trim(lines[0]) != "" then [lines[0]] + rest else rest
  }

  /** `line.replace(/\r$/, '')`: one carriage return at the very end is
      removed. */
  function StripCR(line: string): (r: string)
    ensures r == line || r + "\r" == line
    ensures |line| > 0 && line[|line| - 1] == '\r' ==> r + "\r" == line
  {
    if |line| > 0 && line[|line| - 1] == '\r' then line[..|line| - 1] else line
  }

  /** The cells of a data line. */
  function Cells(isTsv: bool, line: string): seq<string> {
    Tokens(isTsv, StripCR(line))
  }

  /** `cols[k] || ''`: a missing cell reads as the empty string. */
  function Col(cols: seq<string>, k: nat): (r: string)
    ensures k < |cols| ==> r == cols[k]
    ensures k >= |cols| ==> r == []
  {
    if k < |cols| then cols[k] else ""
  }

  /** The fixed column positions the parser reads; 14-16 and 19-21 are
      skipped, and education, leaving type, leaving reason and remark are read
      from 22-25. */
  function ToRow(cols: seq<string>): RawRow {
    RawRow(Col(cols, 0), Col(cols, 1), Col(cols, 2),
      CleanName(Col(cols, 3)), CleanName(Col(cols, 4)), Col(cols, 5),
      Col(cols, 6), Col(cols, 7),
      Col(cols, 8), Col(cols, 9), Col(cols, 10), Col(cols, 11), Col(cols, 12),
      Col(cols, 13), Col(cols, 17), Col(cols, 18),
      Col(cols, 22), Col(cols, 23), Col(cols, 24), Col(cols, 25))
  }

  /** Where the parser finds the fields it uses most: the id, type and dates
      in columns 2, 1, 17 and 18, the last four fields in columns 22 to 25, and
      the names with their quotes removed. */
  lemma ToRowColumns(cols: seq<string>)
    ensures var r := ToRow(cols);
      && r.employeeId == Col(cols, 2) && r.movementType == Col(cols, 1)
      && '"' !in r.firstName && '"' !in r.lastName
      && r.onboardDate == Col(cols, 17) && r.resignedDate == Col(cols, 18)
      && r.educationLevel == Col(cols, 22) && r.leavingType == Col(cols, 23)
      && r.leavingReason == Col(cols, 24) && r.remark == Col(cols, 25)
  {
  }

  /** A row is kept unless its employee id is empty or ".". */
  predicate HasId(row: RawRow) {
    row.employeeId != "" && row.employeeId != "."
  }

  /** The warning for a short line; `i` counts the non-blank data lines from
      0, so the header is row 1 and the first data line is row 2. */
  function ShortRowWarning(i: nat, n: nat): string {
    "Row " + NatToString(i + 2) + ": Not enough columns (" + NatToString(n) + ")"
  }

  /** The first data line, with three cells, is reported as row 2. */
  lemma ShortRowWarningExample()
    ensures ShortRowWarning(0, 3) == "Row 2: Not enough columns (3)"
  {
    assert DigitChar(2) == '2' && DigitChar(3) == '3';
    assert NatToString(2) == "2" && NatToString(3) == "3";
    assert "Row " + "2" + ": Not enough columns (" + "3" + ")" == "Row 2: Not enough columns (3)";
  }

  // ---------------------------------------------------------------------
  // One row
  // ---------------------------------------------------------------------

  /** The status a row implies: Terminated exactly for an involuntary
      resignation, Resigned for the other leaving types, Active otherwise. */
  function StatusFor(t: MovementType): (s: Status)
    ensures s == Active <==> !t.IsLeaving()
    ensures s == Terminated <==> t == InvoluntaryResignation
    ensures s.IsTerminal() <==> t.IsLeaving()
  {
    if t.IsLeaving() then (if t == InvoluntaryResignation then Terminated else Resigned) else Active
  }

  /** The snapshot written for a first sighting or a new-hire row. A prior
      Resigned or Terminated status survives it; the resigned date does not. */
  function Snapshot(row: RawRow, t: MovementType, prior: Option<Employee>): (e: Employee)
    ensures e.employeeId == row.employeeId
    ensures prior.Some? && prior.value.currentStatus.IsTerminal() ==>
      e.currentStatus == prior.value.currentStatus
    ensures !(prior.Some? && prior.value.currentStatus.IsTerminal()) ==> e.currentStatus == StatusFor(t)
    ensures t.IsNewHire() ==> e.resignedDate == None
  {
    Employee(row.employeeId, row.firstName, row.lastName,
      ParseThaiDate(row.birthDate), row.gender, ParseEducationLevel(row.educationLevel),
      ParseThaiDate(row.onboardDate),
      if t.IsLeaving() then ParseThaiDate(row.resignedDate) else None,
      if prior.Some? && prior.value.currentStatus.IsTerminal() then prior.value.currentStatus
      else StatusFor(t),
      row.section, row.department, row.businessUnit, row.site, row.company)
  }

  /** The merge rule. A first sighting or a new-hire row overwrites the whole
      snapshot; a leaving row for a known id changes only its status and
      resigned date; every other id is untouched. */
  function Merge(emps: map<string, Employee>, row: RawRow, t: MovementType): (r: map<string, Employee>)
    ensures r.Keys == emps.Keys + {row.employeeId}
    ensures forall k :: k in emps && k != row.employeeId ==> r[k] == emps[k]
    ensures row.employeeId !in emps ==> r[row.employeeId] == Snapshot(row, t, None)
    ensures row.employeeId in emps && t.IsNewHire() ==>
      r[row.employeeId] == Snapshot(row, t, Some(emps[row.employeeId]))
    ensures row.employeeId in emps && t.IsLeaving() ==>
      r[row.employeeId] == emps[row.employeeId].(currentStatus := StatusFor(t),
                                                  resignedDate := ParseThaiDate(row.resignedDate))
  {
    var id := row.employeeId;
    if id !in emps || t.IsNewHire() then
      emps[id := Snapshot(row, t, if id in emps then Some(emps[id]) else None)]
    else if t.IsLeaving() then
      emps[id := emps[id].(currentStatus := StatusFor(t), resignedDate := ParseThaiDate(row.resignedDate))]
    else
      emps
  }

  /** A first sighting or a new-hire row: the map with the new snapshot. */
  lemma MergeOverwrites(emps: map<string, Employee>, row: RawRow, t: MovementType)
    requires row.employeeId !in emps || t.IsNewHire()
    ensures Merge(emps, row, t)
         == emps[row.employeeId := Snapshot(row, t, if row.employeeId in emps then Some(emps[row.employeeId]) else None)]
  {
  }

  /** A leaving row for a known id: the map with the status and resigned
      date rewritten. */
  lemma MergeLeaves(emps: map<string, Employee>, row: RawRow, t: MovementType)
    requires row.employeeId in emps && !t.IsNewHire() && t.IsLeaving()
    ensures Merge(emps, row, t)
         == emps[row.employeeId := emps[row.employeeId].(currentStatus := StatusFor(t),
                                                          resignedDate := ParseThaiDate(row.resignedDate))]
  {
  }

  /** The movement a kept row appends. */
  function MovementOf(row: RawRow): Movement {
    var t := ParseMovementType(row.movementType);
    Movement(row.employeeId, t,
      if t.IsLeaving() then ParseThaiDate(row.resignedDate) else ParseThaiDate(row.onboardDate),
      row.positionTitle, ParsePositionLevel(row.positionLevel),
      ParseLeavingReason(row.leavingReason),
      if row.remark == "" then None else Some(row.remark),
      DefaultOrg, row.section, row.department)
  }

  /** The movement of a row is filed under the row's id and the default
      organisation, has the row's parsed type, is dated by the resigned date
      for a leaving row and by the onboard date otherwise, and has no detail
      exactly when the remark cell is empty. */
  lemma MovementOfFields(row: RawRow)
    ensures var m := MovementOf(row);
      && m.employeeId == row.employeeId && m.orgId == DefaultOrg
      && m.movementType == ParseMovementType(row.movementType)
      && m.effectiveDate == ParseThaiDate(if m.movementType.IsLeaving() then row.resignedDate
                                          else row.onboardDate)
      && (m.reasonDetail == None <==> row.remark == [])
  {
  }

  // ---------------------------------------------------------------------
  // The fold
  // ---------------------------------------------------------------------

  /** The loop state: the employee ids in order of first appearance (the
      iteration order of the source's Map), the snapshots, the movements and
      the warnings. */
  datatype Acc = Acc(order: seq<string>, employees: map<string, Employee>,
                     movements: seq<Movement>, warnings: seq<string>)

  const Start: Acc := Acc([], map[], [], [])

  /** The ordered id list lists every key of the map exactly once, and every
      snapshot is filed under its own id. */
  predicate Consistent(acc: Acc) {
    && (forall k :: k in acc.order ==> k in acc.employees)
    && (forall k :: k in acc.employees ==> k in acc.order && acc.employees[k].employeeId == k)
    && (forall i, j :: 0 <= i < j < |acc.order| ==> acc.order[i] != acc.order[j])
  }

  /** A kept row: merged into its snapshot, its id appended on first
      sighting, and one movement appended. */
  function Accept(acc: Acc, row: RawRow): Acc {
    var t := ParseMovementType(row.movementType);
    Acc(if row.employeeId in acc.employees then acc.order else acc.order + [row.employeeId],
        Merge(acc.employees, row, t),
        acc.movements + [MovementOf(row)],
        acc.warnings)
  }

  /** One loop iteration over the data line with index `i`. */
  function StepLine(acc: Acc, isTsv: bool, i: nat, line: string): Acc {
    var cols := Cells(isTsv, line);
    if |cols| < MinColumns then acc.(warnings := acc.warnings + [ShortRowWarning(i, |cols|)])
    else
      var row := ToRow(cols);
      if !HasId(row) then acc else Accept(acc, row)
  }

  /** Adding one key to the map, and appending it to the id list when it is
      new, keeps the two in step. */
  lemma ExtendConsistent(acc: Acc, id: string, emps: map<string, Employee>, ms: seq<Movement>)
    requires Consistent(acc) && emps.Keys == acc.employees.Keys + {id}
    requires forall k :: k in emps ==> emps[k].employeeId == k
    ensures Consistent(Acc(if id in acc.employees then acc.order else acc.order + [id],
                           emps, ms, acc.warnings))
  {
  }

  /** A kept row keeps the id list and the map in step. */
  lemma AcceptConsistent(acc: Acc, row: RawRow)
    requires Consistent(acc)
    ensures Consistent(Accept(acc, row))
  {
    var t := ParseMovementType(row.movementType);
    var emps := Merge(acc.employees, row, t);
    MergeKeepsIds(acc.employees, row, t);
    ExtendConsistent(acc, row.employeeId, emps, acc.movements + [MovementOf(row)]);
  }

  /** Merging keeps every snapshot filed under its own id. */
  lemma MergeKeepsIds(emps: map<string, Employee>, row: RawRow, t: MovementType)
    requires forall k :: k in emps ==> emps[k].employeeId == k
    ensures var r := Merge(emps, row, t);
            forall k :: k in r ==> r[k].employeeId == k
  {
    NewHireXorLeaving(t);
  }

  /** Each line adds at most one movement or one warning and keeps the id
      list and the map in step. */
  lemma StepLineConsistent(acc: Acc, isTsv: bool, i: nat, line: string)
    requires Consistent(acc)
    ensures Consistent(StepLine(acc, isTsv, i, line))
    ensures |StepLine(acc, isTsv, i, line).movements| + |StepLine(acc, isTsv, i, line).warnings|
         <= |acc.movements| + |acc.warnings| + 1
  {
    var cols := Cells(isTsv, line);
    if |cols| >= MinColumns && HasId(ToRow(cols)) {
      AcceptConsistent(acc, ToRow(cols));
    }
  }

  /** The loop run over the first `|data|` data lines. */
  function Fold(isTsv: bool, data: seq<string>): Acc {
    if data == [] then Start
    else StepLine(Fold(isTsv, data[..|data| - 1]), isTsv, |data| - 1, data[|data| - 1])
  }

  /** The fold keeps the id list and the map in step, and adds no more
      movements and warnings together than there are lines. */
  lemma {:induction false} FoldConsistent(isTsv: bool, data: seq<string>)
    ensures Consistent(Fold(isTsv, data))
    ensures |Fold(isTsv, data).movements| + |Fold(isTsv, data).warnings| <= |data|
  {
    if data != [] {
      FoldConsistent(isTsv, data[..|data| - 1]);
      StepLineConsistent(Fold(isTsv, data[..|data| - 1]), isTsv, |data| - 1, data[|data| - 1]);
    }
  }

  /** The fold over one more line is one more step. */
  lemma FoldStep(isTsv: bool, data: seq<string>, i: nat)
    requires i < |data|
    ensures Fold(isTsv, data[..i + 1]) == StepLine(Fold(isTsv, data[..i]), isTsv, i, data[i])
  {
    var p := data[..i + 1];
    assert p[..|p| - 1] == data[..i] && p[|p| - 1] == data[i];
  }

  // ---------------------------------------------------------------------
  // What the fold computes
  // ---------------------------------------------------------------------

  /** A data line is kept when it has enough cells and an id. */
  predicate Kept(isTsv: bool, line: string) {
    |Cells(isTsv, line)| >= MinColumns && HasId(ToRow(Cells(isTsv, line)))
  }

  /** The rows of the kept lines, in file order. */
  function KeptRows(isTsv: bool, data: seq<string>): (r: seq<RawRow>)
    ensures |r| <= |data|
  {
    if data == [] then []
    else
      var line := data[|data| - 1];
      KeptRows(isTsv, data[..|data| - 1]) + (if Kept(isTsv, line) then [ToRow(Cells(isTsv, line))] else [])
  }

  /** One warning per short line, numbered by its position. */
  function ShortRowWarnings(isTsv: bool, data: seq<string>): seq<string> {
    if data == [] then []
    else
      var n := |Cells(isTsv, data[|data| - 1])|;
      ShortRowWarnings(isTsv, data[..|data| - 1])
      + (if n < MinColumns then [ShortRowWarning(|data| - 1, n)] else [])
  }

  /** The movement of each row, in order. */
  function MovementsOf(rows: seq<RawRow>): (r: seq<Movement>)
    ensures |r| == |rows|
    ensures forall k :: 0 <= k < |rows| ==> r[k] == MovementOf(rows[k])
  {
    seq(|rows|, k requires 0 <= k < |rows| => MovementOf(rows[k]))
  }

  /** One more row adds its movement at the end. */
  lemma MovementsOfAppend(rows: seq<RawRow>, row: RawRow)
    ensures MovementsOf(rows + [row]) == MovementsOf(rows) + [MovementOf(row)]
  {
    var l, r := MovementsOf(rows + [row]), MovementsOf(rows) + [MovementOf(row)];
    assert |l| == |r|;
    forall k | 0 <= k < |l| ensures l[k] == r[k] {
      if k < |rows| {
        assert (rows + [row])[k] == rows[k];
      } else {
        assert (rows + [row])[k] == row;
      }
    }
  }

  /** The employee id of each row, in order. */
  function IdsOf(rows: seq<RawRow>): (r: seq<string>)
    ensures |r| == |rows|
    ensures forall k :: 0 <= k < |rows| ==> r[k] == rows[k].employeeId
  {
    if rows == [] then [] else IdsOf(rows[..|rows| - 1]) + [rows[|rows| - 1].employeeId]
  }

  /** One more row adds its id at the end. */
  lemma IdsOfAppend(rows: seq<RawRow>, row: RawRow)
    ensures IdsOf(rows + [row]) == IdsOf(rows) + [row.employeeId]
  {
    var s := rows + [row];
    assert s[..|s| - 1] == rows;
  }

  /** One more id joins the ordered set when it is new. */
  lemma DistinctAppend(ids: seq<string>, x: string)
    ensures Distinct(ids + [x]) == if x in Distinct(ids) then Distinct(ids) else Distinct(ids) + [x]
    ensures forall y :: y in ids + [x] <==> y in ids || y == x
  {
    var s := ids + [x];
    assert s[..|s| - 1] == ids;
  }

  /** One more id keeps the ordered id list and the key set in step with
      the ids seen. */
  lemma OrderStep(ids: seq<string>, x: string, order: seq<string>, keys: set<string>,
                  order': seq<string>, keys': set<string>)
    requires order == Distinct(ids) && forall k :: k in keys <==> k in ids
    requires order' == (if x in keys then order else order + [x]) && keys' == keys + {x}
    ensures order' == Distinct(ids + [x])
    ensures forall k :: k in keys' <==> k in ids + [x]
  {
    DistinctAppend(ids, x);
  }

  /** What one line adds: a movement and possibly a new id when it is kept, a
      warning when it is short. */
  lemma StepLineEffect(acc: Acc, isTsv: bool, i: nat, line: string)
    ensures var r := StepLine(acc, isTsv, i, line);
      var n := |Cells(isTsv, line)|;
      && r.warnings == acc.warnings + (if n < MinColumns then [ShortRowWarning(i, n)] else [])
      && (Kept(isTsv, line) ==>
            var row := ToRow(Cells(isTsv, line));
            && r.movements == acc.movements + [MovementOf(row)]
            && r.order == (if row.employeeId in acc.employees then acc.order else acc.order + [row.employeeId])
            && r.employees.Keys == acc.employees.Keys + {row.employeeId})
      && (!Kept(isTsv, line) ==> r.movements == acc.movements && r.order == acc.order
                                 && r.employees == acc.employees)
  {
  }

  /** The fold over a non-empty list is a step after the fold over all but
      its last line. */
  lemma FoldLast(isTsv: bool, data: seq<string>)
    requires data != []
    ensures Fold(isTsv, data)
         == StepLine(Fold(isTsv, data[..|data| - 1]), isTsv, |data| - 1, data[|data| - 1])
  {
  }

  /** The movements are exactly one per kept line, in file order: a short
      line and a line without an id add none. */
  lemma {:induction false} FoldMovements(isTsv: bool, data: seq<string>)
    ensures Fold(isTsv, data).movements == MovementsOf(KeptRows(isTsv, data))
  {
    if data != [] {
      var p := data[..|data| - 1];
      var line := data[|data| - 1];
      FoldMovements(isTsv, p);
      FoldLast(isTsv, data);
      StepLineEffect(Fold(isTsv, p), isTsv, |data| - 1, line);
      var rows := KeptRows(isTsv, p);
      if Kept(isTsv, line) {
        assert KeptRows(isTsv, data) == rows + [ToRow(Cells(isTsv, line))];
        MovementsOfAppend(rows, ToRow(Cells(isTsv, line)));
      } else {
        assert KeptRows(isTsv, data) == rows;
      }
    }
  }

  /** The warnings are exactly one per short line, in file order. */
  lemma {:induction false} FoldWarnings(isTsv: bool, data: seq<string>)
    ensures Fold(isTsv, data).warnings == ShortRowWarnings(isTsv, data)
  {
    if data != [] {
      FoldWarnings(isTsv, data[..|data| - 1]);
      FoldLast(isTsv, data);
      StepLineEffect(Fold(isTsv, data[..|data| - 1]), isTsv, |data| - 1, data[|data| - 1]);
    }
  }

  /** The employees are listed once per id, in order of the id's first kept
      line, and the map holds exactly the ids of the kept lines. */
  lemma {:induction false} FoldOrder(isTsv: bool, data: seq<string>)
    ensures Fold(isTsv, data).order == Distinct(IdsOf(KeptRows(isTsv, data)))
    ensures forall id :: id in Fold(isTsv, data).employees <==> id in IdsOf(KeptRows(isTsv, data))
  {
    if data != [] {
      var p := data[..|data| - 1];
      var line := data[|data| - 1];
      FoldOrder(isTsv, p);
      FoldLast(isTsv, data);
      var acc := Fold(isTsv, p);
      StepLineEffect(acc, isTsv, |data| - 1, line);
      if Kept(isTsv, line) {
        var row := ToRow(Cells(isTsv, line));
        var r := Fold(isTsv, data);
        assert KeptRows(isTsv, data) == KeptRows(isTsv, p) + [row];
        IdsOfAppend(KeptRows(isTsv, p), row);
        OrderStep(IdsOf(KeptRows(isTsv, p)), row.employeeId, acc.order, acc.employees.Keys,
                  r.order, r.employees.Keys);
      } else {
        assert KeptRows(isTsv, data) == KeptRows(isTsv, p);
      }
    }
  }

  /** A Resigned or Terminated employee stays Resigned or Terminated through
      one more line: a new-hire line keeps the prior status, and a leaving
      line sets another terminal one. */
  lemma StepKeepsTerminal(acc: Acc, isTsv: bool, i: nat, line: string, id: string)
    requires id in acc.employees && acc.employees[id].currentStatus.IsTerminal()
    ensures id in StepLine(acc, isTsv, i, line).employees
    ensures StepLine(acc, isTsv, i, line).employees[id].currentStatus.IsTerminal()
  {
    var cols := Cells(isTsv, line);
    if |cols| >= MinColumns && HasId(ToRow(cols)) {
      var row := ToRow(cols);
      var t := ParseMovementType(row.movementType);
      NewHireXorLeaving(t);
      var r := Merge(acc.employees, row, t);
      assert id in r;
      if id == row.employeeId {
        if t.IsNewHire() {
          assert r[id] == Snapshot(row, t, Some(acc.employees[id]));
        } else {
          assert r[id].currentStatus == StatusFor(t);
        }
      }
    }
  }

  /** Once an employee is Resigned or Terminated after some prefix of the
      data lines, no later line makes them Active again. */
  lemma {:induction false} StickyTerminal(isTsv: bool, data: seq<string>, n: nat, id: string)
    requires n <= |data|
    requires id in Fold(isTsv, data[..n]).employees
    requires Fold(isTsv, data[..n]).employees[id].currentStatus.IsTerminal()
    ensures id in Fold(isTsv, data).employees
    ensures Fold(isTsv, data).employees[id].currentStatus.IsTerminal()
    decreases |data| - n
  {
    if n == |data| {
      assert data[..n] == data;
    } else {
      FoldStep(isTsv, data, n);
      StepKeepsTerminal(Fold(isTsv, data[..n]), isTsv, n, data[n], id);
      StickyTerminal(isTsv, data, n + 1, id);
    }
  }

  /** For a known id, a line that is not a new hire is a leaving line, so the
      reducer's "neither" branch never leaves a snapshot as it was: the status
      and resigned date are always rewritten. */
  lemma NoIdleBranch(emps: map<string, Employee>, row: RawRow, t: MovementType)
    requires row.employeeId in emps && !t.IsNewHire()
    ensures Merge(emps, row, t)[row.employeeId]
         == emps[row.employeeId].(currentStatus := StatusFor(t),
                                  resignedDate := ParseThaiDate(row.resignedDate))
  {
    NewHireXorLeaving(t);
  }

  /** A line laid out like the downloadable 25-column template (columns 0 to
      24) is read one column to the right from column 22 on: its education
      comes from the template's "Leaving Type" column, its leaving reason from
      the template's "Remark" column, and its movement has no reason detail. */
  lemma TemplateColumnsShifted(cols: seq<string>)
    requires |cols| == 25
    ensures ToRow(cols).educationLevel == cols[22]
    ensures ToRow(cols).leavingReason == cols[24]
    ensures ToRow(cols).remark == []
    ensures MovementOf(ToRow(cols)).reasonDetail == None
  {
  }

  /** The header line of the downloadable template, one entry per column. */
  const TemplateHeader: seq<string> := [
    "Month", "Movement Type", "Employee ID", "Name", "Surname", "Gender",
    "Position Title", "Position Level", "Section", "Department",
    "Business Unit", "Site", "Company (Payroll)", "Birthday",
    "Age", "Service Year", "Generation", "Onboard Date", "Resigned Date",
    "Status", "Level", "Education", "Leaving Type", "Leaving Reason", "Remark"]

  /** Read as a data row, the template's own header shows the shift: the
      parser's education is the "Leaving Type" column, its leaving reason the
      "Remark" column, and its remark is past the end. */
  lemma TemplateHeaderShifted()
    ensures ToRow(TemplateHeader).employeeId == "Employee ID"
    ensures ToRow(TemplateHeader).educationLevel == "Leaving Type"
    ensures ToRow(TemplateHeader).leavingType == "Leaving Reason"
    ensures ToRow(TemplateHeader).leavingReason == "Remark"
    ensures ToRow(TemplateHeader).remark == ""
  {
    var h := TemplateHeader;
    assert |h| == 25;
    assert h[2] == "Employee ID" && h[22] == "Leaving Type";
    assert h[23] == "Leaving Reason" && h[24] == "Remark";
    TemplateColumnsShifted(h);
    ToRowColumns(h);
  }

  /** The snapshots in the order of `order` (`Array.from(employeeMap.values())`). */
  function Values(order: seq<string>, emps: map<string, Employee>): (r: seq<Employee>)
    requires forall k :: k in order ==> k in emps
    ensures |r| == |order|
    ensures forall i :: 0 <= i < |order| ==> r[i] == emps[order[i]]
  {
    if order == [] then [] else [emps[order[0]]] + Values(order[1..], emps)
  }

  /** What `parseRawData` returns. */
  datatype Parsed = Parsed(employees: seq<Employee>, movements: seq<Movement>, warnings: seq<string>)

  /** Whether the file is read in tab mode, and its non-blank data lines. */
  function Mode(text: string): bool {
    IsTsv(Lines(text))
  }

  function DataLines(text: string): seq<string> {
    NonBlank(Lines(text)[1..])
  }

  /** The result of `parseRawData` as a function of the text. */
  function ParseRawDataSpec(text: string): Parsed {
    var acc := Fold(Mode(text), DataLines(text));
    FoldConsistent(Mode(text), DataLines(text));
    Parsed(Values(acc.order, acc.employees), acc.movements, acc.warnings)
  }

  /** `parseRawData` returns one employee per id of a kept line, in order of
      the id's first kept line; so no two employees share an id. */
  lemma EmployeesInFirstAppearanceOrder(text: string)
    ensures var ids := Distinct(IdsOf(KeptRows(Mode(text), DataLines(text))));
            var emps := ParseRawDataSpec(text).employees;
            |emps| == |ids| && forall i :: 0 <= i < |emps| ==> emps[i].employeeId == ids[i]
  {
    var acc := Fold(Mode(text), DataLines(text));
    FoldOrder(Mode(text), DataLines(text));
    FoldConsistent(Mode(text), DataLines(text));
    var emps := Values(acc.order, acc.employees);
    assert ParseRawDataSpec(text).employees == emps;
    forall i | 0 <= i < |emps| ensures emps[i].employeeId == acc.order[i] {
      assert emps[i] == acc.employees[acc.order[i]];
    }
  }

  /** A new hire followed by a voluntary resignation of the same id: the
      snapshot is Resigned with the second row's resigned date, and keeps the
      names and onboard date of the first row. */
  lemma HireThenResign(emps: map<string, Employee>, hire: RawRow, leave: RawRow)
    requires hire.employeeId == leave.employeeId && hire.employeeId !in emps
    ensures var e := Merge(Merge(emps, hire, NewHired), leave, VoluntaryResignation)[hire.employeeId];
      && e.currentStatus == Resigned
      && e.resignedDate == ParseThaiDate(leave.resignedDate)
      && e.firstName == hire.firstName && e.lastName == hire.lastName
      && e.onboardDate == ParseThaiDate(hire.onboardDate)
  {
  }

  /** `parseRawData`: split the text into lines, choose the mode, and reduce
      the data lines. */
  method ParseRawData(text: string) returns (employees: seq<Employee>, movements: seq<Movement>,
                                              warnings: seq<string>)
    ensures Parsed(employees, movements, warnings) == ParseRawDataSpec(text)
  {
    var lines := Lines(text);
    var isTsv := IsTsv(lines);
    var dataLines := NonBlank(lines[1..]);
    var order, employeeMap;
    order, employeeMap, movements, warnings := ReduceLines(isTsv, dataLines);
    FoldConsistent(isTsv, dataLines);
    employees := Values(order, employeeMap);
  }

  /** The loop of `parseRawData` over the data lines. */
  method ReduceLines(isTsv: bool, dataLines: seq<string>)
    returns (order: seq<string>, employeeMap: map<string, Employee>,
             movements: seq<Movement>, warnings: seq<string>)
    ensures Acc(order, employeeMap, movements, warnings) == Fold(isTsv, dataLines)
  {
    employeeMap := map[];
    order := [];
    movements := [];
    warnings := [];
    var i := 0;
    assert dataLines[..0] == [];
    while i < |dataLines|
      invariant 0 <= i <= |dataLines|
      invariant Acc(order, employeeMap, movements, warnings) == Fold(isTsv, dataLines[..i])
    {
      order, employeeMap, movements, warnings :=
        ReduceLine(isTsv, i, dataLines[i], order, employeeMap, movements, warnings);
      FoldStep(isTsv, dataLines, i);
      i := i + 1;
    }
    assert dataLines[..i] == dataLines;
  }

  /** The update-or-create step of one kept row. */
  method MergeRow(order0: seq<string>, employeeMap0: map<string, Employee>, row: RawRow, t: MovementType)
    returns (order: seq<string>, employeeMap: map<string, Employee>)
    ensures order == if row.employeeId in employeeMap0 then order0 else order0 + [row.employeeId]
    ensures employeeMap == Merge(employeeMap0, row, t)
  {
    var id := row.employeeId;
    order, employeeMap := order0, employeeMap0;
    var status := StatusFor(t);
    if id !in employeeMap || t.IsNewHire() {
      if id !in employeeMap {
        order := order + [id];
      }
      var prior := if id in employeeMap then Some(employeeMap[id]) else None;
      employeeMap := employeeMap[id := Employee(id, row.firstName, row.lastName,
        ParseThaiDate(row.birthDate), row.gender, ParseEducationLevel(row.educationLevel),
        ParseThaiDate(row.onboardDate),
        if t.IsLeaving() then ParseThaiDate(row.resignedDate) else None,
        if prior.Some? && prior.value.currentStatus.IsTerminal() then prior.value.currentStatus
        else status,
        row.section, row.department, row.businessUnit, row.site, row.company)];
      assert employeeMap == employeeMap0[id := Snapshot(row, t, prior)];
      MergeOverwrites(employeeMap0, row, t);
    } else if t.IsLeaving() {
      var existing := employeeMap[id];
      employeeMap := employeeMap[id := existing.(currentStatus := status,
                                                 resignedDate := ParseThaiDate(row.resignedDate))];
      MergeLeaves(employeeMap0, row, t);
    } else {
      NewHireXorLeaving(t);
    }
  }

  /** The body of the loop for the data line with index `i`: a short line
      adds a warning, a line without an id is skipped, and any other line
      updates the employee map in place and appends its movement. */
  method ReduceLine(isTsv: bool, i: nat, line: string,
                    order0: seq<string>, employeeMap0: map<string, Employee>,
                    movements0: seq<Movement>, warnings0: seq<string>)
    returns (order: seq<string>, employeeMap: map<string, Employee>,
             movements: seq<Movement>, warnings: seq<string>)
    ensures Acc(order, employeeMap, movements, warnings)
         == StepLine(Acc(order0, employeeMap0, movements0, warnings0), isTsv, i, line)
  {
    ghost var acc := Acc(order0, employeeMap0, movements0, warnings0);
    order, employeeMap, movements, warnings := order0, employeeMap0, movements0, warnings0;
    var cols := ParseLine(isTsv, StripCR(line));
    assert cols == Cells(isTsv, line);
    if |cols| < MinColumns {
      warnings := warnings + [ShortRowWarning(i, |cols|)];
      return;
    }
    var row := ToRow(cols);
    if !HasId(row) {
      return;
    }
    var id := row.employeeId;
    var t := ParseMovementType(row.movementType);
    order, employeeMap := MergeRow(order, employeeMap, row, t);
    var effectiveDate := if t.IsLeaving() then ParseThaiDate(row.resignedDate)
                         else ParseThaiDate(row.onboardDate);
    movements := movements + [Movement(id, t, effectiveDate,
      row.positionTitle, ParsePositionLevel(row.positionLevel),
      ParseLeavingReason(row.leavingReason),
      if row.remark == "" then None else Some(row.remark),
      DefaultOrg, row.section, row.department)];
    assert movements == movements0 + [MovementOf(row)];
    assert employeeMap == Merge(acc.employees, row, t);
    assert StepLine(acc, isTsv, i, line) == Accept(acc, row);
  }
}
