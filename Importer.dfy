/**
  The import pipeline (lib/import-utils.ts:384-491): parse the text, create
  the organisation units it mentions, reload the lookup caches, upsert every
  employee and insert every movement whose key is not stored yet, and report
  per-record errors. Parser warnings are reported among the employee errors,
  so any warning makes the import unsuccessful.
*/
module Importer {
  import opened Wrappers
  import opened Text
  import opened Reducer
  import opened Store
  import opened Resolver

  datatype EmployeeSummary = EmployeeSummary(total: nat, inserted: nat, updated: nat, errors: seq<string>)

  datatype MovementSummary = MovementSummary(total: nat, inserted: nat, errors: seq<string>)

  /** `ImportResult`. */
  datatype ImportResult = ImportResult(success: bool, employees: EmployeeSummary, movements: MovementSummary)

  /** `value || null` on a string. */
  function OrNull(s: string): (r: Option<string>)
    ensures r.None? <==> s == []
    ensures r.Some? ==> r.value == s
  {
    if s == "" then None else Some(s)
  }

  /** The organisation id a record holds for table `t`. */
  function OrgId(r: EmployeeRecord, t: Table): Option<int> {
    match t
    case Sections => r.sectionId
    case Departments => r.departmentId
    case BusinessUnits => r.businessUnitId
    case Sites => r.siteId
    case Companies => r.companyId
  }

  /** `employeeData`: the snapshot with empty gender and education as null
      and every organisation name resolved through its cache. */
  function ToRecord(emp: Employee, caches: Caches): (r: EmployeeRecord)
    ensures r.employeeId == emp.employeeId && r.firstName == emp.firstName && r.lastName == emp.lastName
    ensures r.birthDate == emp.birthDate && r.onboardDate == emp.onboardDate
    ensures r.resignedDate == emp.resignedDate && r.currentStatus == emp.currentStatus
    ensures r.gender.None? <==> emp.gender == []
    ensures r.educationLevel.None? <==> emp.educationLevel == []
    ensures emp.gender != [] ==> r.gender == Some(emp.gender)
    ensures emp.educationLevel != [] ==> r.educationLevel == Some(emp.educationLevel)
    ensures forall t: Table :: OrgId(r, t) == LookupId(caches.For(t), OrgName(emp, t))
  {
    EmployeeRecord(
      emp.employeeId, emp.firstName, emp.lastName, emp.birthDate,
      OrNull(emp.gender), OrNull(emp.educationLevel),
      emp.onboardDate, emp.resignedDate, emp.currentStatus,
      LookupId(caches.sections, emp.sectionName),
      LookupId(caches.departments, emp.departmentName),
      LookupId(caches.businessUnits, emp.businessUnitName),
      LookupId(caches.sites, emp.siteName),
      LookupId(caches.companies, emp.companyName))
  }

  /** The start of the error reported for a failed employee upsert; the
      store's message follows. */
  function EmployeeError(id: string): (r: string)
    ensures |r| == |id| + 11 && r[9..|r| - 2] == id
  {
    "Employee " + id + ": "
  }

  /** The start of the error reported for a failed movement insert. */
  function MovementError(id: string): (r: string)
    ensures |r| == |id| + 15 && r[13..|r| - 2] == id
  {
    "Movement for " + id + ": "
  }

  lemma PrefixOfAppend(a: string, b: string)
    ensures a <= a + b
  {
    assert (a + b)[..|a|] == a;
  }

  /** Every error from index `from` on starts by naming one of `emps`. */
  predicate NameEmployees(errors: seq<string>, from: nat, emps: seq<Employee>) {
    forall k :: from <= k < |errors| ==>
      exists i :: 0 <= i < |emps| && EmployeeError(emps[i].employeeId) <= errors[k]
  }

  /** `emps[i]` is the last employee in `emps[..n]` with its id. */
  predicate LastWith(emps: seq<Employee>, n: nat, i: nat)
    requires i < n <= |emps|
  {
    forall j :: i < j < n ==> emps[j].employeeId != emps[i].employeeId
  }

  /** No employee of `emps` has id `id`. */
  predicate Absent(emps: seq<Employee>, id: string) {
    forall i :: 0 <= i < |emps| ==> emps[i].employeeId != id
  }

  /** For each id among `emps[..n]`, the store holds the record of the last
      employee with that id. */
  predicate Upserted(m: map<string, EmployeeRecord>, emps: seq<Employee>, n: nat, caches: Caches)
    requires n <= |emps|
  {
    forall i :: 0 <= i < n && LastWith(emps, n, i) ==>
      emps[i].employeeId in m && m[emps[i].employeeId] == ToRecord(emps[i], caches)
  }

  /** Upserting the record of `emps[i]` extends `Upserted` by one employee. */
  lemma UpsertedNext(emps: seq<Employee>, i: nat, caches: Caches,
                     before: map<string, EmployeeRecord>, after: map<string, EmployeeRecord>)
    requires i < |emps| && Upserted(before, emps, i, caches)
    requires after == before[emps[i].employeeId := ToRecord(emps[i], caches)]
    ensures Upserted(after, emps, i + 1, caches)
  {
    forall k | 0 <= k < i + 1 && LastWith(emps, i + 1, k)
      ensures emps[k].employeeId in after && after[emps[k].employeeId] == ToRecord(emps[k], caches)
    {
      if k < i {
        assert emps[k].employeeId != emps[i].employeeId;
        assert LastWith(emps, i, k);
      }
    }
  }

  /** An error naming `emps[i]` keeps the warnings first and every later
      error naming an employee. */
  lemma NameEmployeesAppend(errors: seq<string>, warnings: seq<string>, emps: seq<Employee>,
                            i: nat, message: string)
    requires warnings <= errors && NameEmployees(errors, |warnings|, emps) && i < |emps|
    ensures var e := errors + [EmployeeError(emps[i].employeeId) + message];
            warnings <= e && NameEmployees(e, |warnings|, emps)
  {
    var e := errors + [EmployeeError(emps[i].employeeId) + message];
    assert e[..|warnings|] == errors[..|warnings|];
    PrefixOfAppend(EmployeeError(emps[i].employeeId), message);
    assert forall k :: |warnings| <= k < |errors| ==> e[k] == errors[k];
    assert EmployeeError(emps[i].employeeId) <= e[|errors|];
  }

  /** The employee loop: one upsert per snapshot; a failed upsert adds an
      error naming the employee, a successful one counts as inserted. */
  method ImportEmployees(db: Db, emps: seq<Employee>, caches: Caches, warnings: seq<string>)
    returns (s: EmployeeSummary)
    modifies db
    ensures s.total == |emps| && s.updated == 0 && s.inserted <= |emps|
    ensures |s.errors| == |warnings| + |emps| - s.inserted
    ensures warnings <= s.errors
    ensures NameEmployees(s.errors, |warnings|, emps)
    ensures s.inserted == |emps| ==> Upserted(db.employees, emps, |emps|, caches)
    ensures forall id :: Absent(emps, id) ==>
      (id in db.employees <==> id in old(db.employees))
      && (id in db.employees ==> db.employees[id] == old(db.employees)[id])
    ensures forall t :: db.Rows(t) == old(db.Rows(t))
    ensures db.nextId == old(db.nextId) && db.movements == old(db.movements)
  {
    s := EmployeeSummary(|emps|, 0, 0, warnings);
    var i := 0;
    while i < |emps|
      invariant 0 <= i <= |emps|
      invariant s.total == |emps| && s.updated == 0 && s.inserted <= i
      invariant |s.errors| == |warnings| + i - s.inserted
      invariant warnings <= s.errors
      invariant NameEmployees(s.errors, |warnings|, emps)
      invariant s.inserted == i ==> Upserted(db.employees, emps, i, caches)
      invariant forall id :: Absent(emps, id) ==>
        (id in db.employees <==> id in old(db.employees))
        && (id in db.employees ==> db.employees[id] == old(db.employees)[id])
      invariant forall t :: db.Rows(t) == old(db.Rows(t))
      invariant db.nextId == old(db.nextId) && db.movements == old(db.movements)
    {
      var emp := emps[i];
      var employeeData := ToRecord(emp, caches);
      ghost var before := db.employees;
      var error := db.Upsert(employeeData);
      if error.Some? {
        NameEmployeesAppend(s.errors, warnings, emps, i, error.value);
        s := s.(errors := s.errors + [EmployeeError(emp.employeeId) + error.value]);
      } else {
        s := s.(inserted := s.inserted + 1);
        if s.inserted == i + 1 {
          UpsertedNext(emps, i, caches, before, db.employees);
        }
      }
      i := i + 1;
    }
  }

  /** No two movements of `ms` share a key. */
  predicate KeysDistinct(ms: seq<Movement>) {
    forall i, j :: 0 <= i < j < |ms| ==> KeyOf(ms[i]) != KeyOf(ms[j])
  }

  /** Appending a movement with a new key keeps the keys distinct. */
  lemma KeysDistinctAppend(ms: seq<Movement>, m: Movement)
    requires KeysDistinct(ms) && !HasKey(ms, KeyOf(m))
    ensures KeysDistinct(ms + [m])
  {
    var ms' := ms + [m];
    forall i, j | 0 <= i < j < |ms'| ensures KeyOf(ms'[i]) != KeyOf(ms'[j]) {
      assert ms'[i] == ms[i];
      if j == |ms| {
        assert ms'[j] == m;
      } else {
        assert ms'[j] == ms[j];
      }
    }
  }

  /** How many of `movs` have a key already present in `ms`. */
  function KnownCount(ms: seq<Movement>, movs: seq<Movement>): (n: nat)
    ensures n <= |movs|
  {
    if movs == [] then 0
    else KnownCount(ms, movs[..|movs| - 1]) + (if HasKey(ms, KeyOf(movs[|movs| - 1])) then 1 else 0)
  }

  lemma KnownCountStep(ms: seq<Movement>, movs: seq<Movement>, i: nat)
    requires i < |movs|
    ensures KnownCount(ms, movs[..i + 1])
            == KnownCount(ms, movs[..i]) + (if HasKey(ms, KeyOf(movs[i])) then 1 else 0)
  {
    assert movs[..i + 1][..i] == movs[..i];
  }

  /** When every key is stored, every movement counts as known. */
  lemma {:induction false} KnownCountAll(ms: seq<Movement>, movs: seq<Movement>)
    requires AllStored(ms, movs, |movs|)
    ensures KnownCount(ms, movs) == |movs|
  {
    if movs != [] {
      var p := movs[..|movs| - 1];
      assert forall j :: 0 <= j < |p| ==> p[j] == movs[j];
      KnownCountAll(ms, p);
    }
  }

  /** Every error starts by naming the employee of one of `movs`. */
  predicate NameMovements(errors: seq<string>, movs: seq<Movement>) {
    forall k :: 0 <= k < |errors| ==>
      exists i :: 0 <= i < |movs| && MovementError(movs[i].employeeId) <= errors[k]
  }

  /** The first `n` movements of `movs` all have their key stored in `ms`. */
  predicate AllStored(ms: seq<Movement>, movs: seq<Movement>, n: nat)
    requires n <= |movs|
  {
    forall j :: 0 <= j < n ==> HasKey(ms, KeyOf(movs[j]))
  }

  /** `now` is `o` with `n` movements of `movs` appended, none of them
      repeating a key. */
  predicate GrowsBy(o: seq<Movement>, now: seq<Movement>, movs: seq<Movement>, n: nat) {
    && |o| + n == |now| && o <= now
    && (forall k :: |o| <= k < |now| ==> now[k] in movs)
    && (KeysDistinct(o) ==> KeysDistinct(now))
  }

  /** The log after trying each of `movs` once, in order, starting from `o`:
      a movement whose key is already stored is skipped (the first movement
      of a key wins), any other is appended. */
  function InsertAll(o: seq<Movement>, movs: seq<Movement>): (r: seq<Movement>)
    ensures o <= r && |r| <= |o| + |movs|
  {
    if movs == [] then o
    else
      var l := InsertAll(o, movs[..|movs| - 1]);
      var last := movs[|movs| - 1];
      if HasKey(l, KeyOf(last)) then l else l + [last]
  }

  /** After the reference run, every key of `movs` is stored. */
  lemma {:induction false} InsertAllStoresAll(o: seq<Movement>, movs: seq<Movement>)
    ensures AllStored(InsertAll(o, movs), movs, |movs|)
  {
    if movs != [] {
      var front := movs[..|movs| - 1];
      var l := InsertAll(o, front);
      var last := movs[|movs| - 1];
      InsertAllStoresAll(o, front);
      var r := InsertAll(o, movs);
      forall j | 0 <= j < |movs| ensures HasKey(r, KeyOf(movs[j])) {
        if j < |front| {
          assert movs[j] == front[j];
          HasKeyGrown(l, r, KeyOf(movs[j]));
        } else if !HasKey(l, KeyOf(last)) {
          assert r[|l|] == last;
        }
      }
    }
  }

  /** Of two movements with one key that is not yet stored, the first is
      stored and the second skipped. */
  lemma InsertAllKeepsFirst(o: seq<Movement>, m1: Movement, m2: Movement)
    requires KeyOf(m1) == KeyOf(m2) && !HasKey(o, KeyOf(m1))
    ensures InsertAll(o, [m1, m2]) == o + [m1]
  {
    assert [m1, m2][..1] == [m1];
    assert [m1][..0] == [];
    var l := o + [m1];
    assert InsertAll(o, [m1]) == l;
    assert l[|o|] == m1;
    assert HasKey(l, KeyOf(m2));
  }

  lemma GrowsByAppend(o: seq<Movement>, before: seq<Movement>, movs: seq<Movement>, n: nat, mov: Movement)
    requires GrowsBy(o, before, movs, n) && mov in movs && !HasKey(before, KeyOf(mov))
    ensures GrowsBy(o, before + [mov], movs, n + 1)
  {
    if KeysDistinct(o) {
      KeysDistinctAppend(before, mov);
    }
    assert (before + [mov])[..|o|] == before[..|o|];
  }

  /** An error naming the employee of one of `movs` keeps every error
      naming one. */
  lemma NameMovementsAppend(errors: seq<string>, movs: seq<Movement>, i: nat, message: string)
    requires NameMovements(errors, movs) && i < |movs|
    ensures NameMovements(errors + [MovementError(movs[i].employeeId) + message], movs)
  {
    var e := errors + [MovementError(movs[i].employeeId) + message];
    PrefixOfAppend(MovementError(movs[i].employeeId), message);
    assert forall k :: 0 <= k < |errors| ==> e[k] == errors[k];
    assert MovementError(movs[i].employeeId) <= e[|errors|];
  }

  /** The stored prefix grows by one when the next movement's key is stored
      and nothing was removed. */
  lemma AllStoredNext(before: seq<Movement>, now: seq<Movement>, movs: seq<Movement>, i: nat)
    requires i < |movs| && before <= now && AllStored(before, movs, i)
    requires HasKey(now, KeyOf(movs[i]))
    ensures AllStored(now, movs, i + 1)
  {
    forall j | 0 <= j < i ensures HasKey(now, KeyOf(movs[j])) {
      HasKeyGrown(before, now, KeyOf(movs[j]));
    }
  }

  /** The state the movement loop keeps after `i` movements, starting from
      the log `o`: the counts, the growth of the log, the error naming and,
      while there is no error, the stored keys. */
  predicate LoopState(o: seq<Movement>, now: seq<Movement>, movs: seq<Movement>, i: nat,
                      s: MovementSummary, known: nat)
    requires i <= |movs|
  {
    && s.total == |movs| && s.inserted + |s.errors| + known <= i
    && known == KnownCount(o, movs[..i])
    && GrowsBy(o, now, movs, s.inserted)
    && NameMovements(s.errors, movs)
    && (s.errors == [] ==> AllStored(now, movs, i))
    && (s.errors == [] ==> now == InsertAll(o, movs[..i]))
  }

  /** The summary after one more movement with the given outcome. */
  function NextSummary(s: MovementSummary, mov: Movement, inserted: bool, error: Option<string>)
    : (r: MovementSummary)
    ensures r.total == s.total
  {
    match error
    case Some(message) => s.(errors := s.errors + [MovementError(mov.employeeId) + message])
    case None => if inserted then s.(inserted := s.inserted + 1) else s
  }

  /** One pass of the movement loop, on values: whatever `ImportMovement`
      does with `movs[i]`, the loop state carries over to `i + 1`. */
  lemma LoopStep(o: seq<Movement>, before: seq<Movement>, after: seq<Movement>, movs: seq<Movement>,
                 i: nat, s: MovementSummary, known: nat, inserted: bool, error: Option<string>)
    requires i < |movs| && LoopState(o, before, movs, i, s, known)
    requires HasKey(before, KeyOf(movs[i])) ==> !inserted && error.None?
    requires inserted ==> error.None? && after == before + [movs[i]] && !HasKey(before, KeyOf(movs[i]))
    requires !inserted ==> after == before
    requires error.None? ==> HasKey(after, KeyOf(movs[i]))
    ensures LoopState(o, after, movs, i + 1, NextSummary(s, movs[i], inserted, error),
                      known + (if HasKey(o, KeyOf(movs[i])) then 1 else 0))
  {
    var mov := movs[i];
    assert movs[..i + 1][..i] == movs[..i];
    KnownCountStep(o, movs, i);
    if HasKey(o, KeyOf(mov)) {
      HasKeyGrown(o, before, KeyOf(mov));
    }
    if error.Some? {
      NameMovementsAppend(s.errors, movs, i, error.value);
    } else {
      if inserted {
        GrowsByAppend(o, before, movs, s.inserted, mov);
      }
      if s.errors == [] {
        AllStoredNext(before, after, movs, i);
      }
    }
  }

  /** The loop state after the last movement gives the loop's results. */
  lemma LoopDone(o: seq<Movement>, now: seq<Movement>, movs: seq<Movement>, s: MovementSummary, known: nat)
    requires LoopState(o, now, movs, |movs|, s, known)
    ensures s.total == |movs| && s.inserted + |s.errors| + KnownCount(o, movs) <= |movs|
    ensures |o| + s.inserted == |now| && o <= now
    ensures forall k :: |o| <= k < |now| ==> now[k] in movs
    ensures KeysDistinct(o) ==> KeysDistinct(now)
    ensures NameMovements(s.errors, movs)
    ensures s.errors == [] ==> AllStored(now, movs, |movs|)
    ensures s.errors == [] ==> now == InsertAll(o, movs)
    ensures AllStored(o, movs, |movs|) ==> s.inserted == 0 && s.errors == [] && now == o
  {
    assert movs[..|movs|] == movs;
    if AllStored(o, movs, |movs|) {
      KnownCountAll(o, movs);
      assert now == o[..|o|];
    }
  }

  /** One pass of the movement loop: skip a movement whose key is stored,
      otherwise insert it. */
  method ImportMovement(db: Db, mov: Movement) returns (inserted: bool, error: Option<string>)
    modifies db
    ensures HasKey(old(db.movements), KeyOf(mov)) ==> !inserted && error.None?
    ensures inserted ==> error.None? && db.movements == old(db.movements) + [mov]
                         && !HasKey(old(db.movements), KeyOf(mov))
    ensures !inserted ==> db.movements == old(db.movements)
    ensures error.None? ==> HasKey(db.movements, KeyOf(mov))
    ensures forall t :: db.Rows(t) == old(db.Rows(t))
    ensures db.nextId == old(db.nextId) && db.employees == old(db.employees)
  {
    var existing := db.ExistsMovement(KeyOf(mov));
    if existing {
      return false, None;
    }
    error := db.InsertMovement(mov);
    inserted := error.None?;
    if inserted {
      assert db.movements[|old(db.movements)|] == mov;
    }
  }

  /** The movement loop: a movement whose key is stored is skipped; otherwise
      it is inserted, and a failed insert adds an error naming the employee. */
  method ImportMovements(db: Db, movs: seq<Movement>) returns (s: MovementSummary)
    modifies db
    ensures s.total == |movs| && s.inserted + |s.errors| + KnownCount(old(db.movements), movs) <= |movs|
    ensures |old(db.movements)| + s.inserted == |db.movements|
    ensures old(db.movements) <= db.movements
    ensures forall k :: |old(db.movements)| <= k < |db.movements| ==> db.movements[k] in movs
    ensures KeysDistinct(old(db.movements)) ==> KeysDistinct(db.movements)
    ensures NameMovements(s.errors, movs)
    ensures s.errors == [] ==> AllStored(db.movements, movs, |movs|)
    ensures s.errors == [] ==> db.movements == InsertAll(old(db.movements), movs)
    ensures AllStored(old(db.movements), movs, |movs|) ==>
      s.inserted == 0 && s.errors == [] && db.movements == old(db.movements)
    ensures forall t :: db.Rows(t) == old(db.Rows(t))
    ensures db.nextId == old(db.nextId) && db.employees == old(db.employees)
  {
    s := MovementSummary(|movs|, 0, []);
    ghost var known := 0;
    var i := 0;
    while i < |movs|
      invariant 0 <= i <= |movs|
      invariant LoopState(old(db.movements), db.movements, movs, i, s, known)
      invariant forall t :: db.Rows(t) == old(db.Rows(t))
      invariant db.nextId == old(db.nextId) && db.employees == old(db.employees)
    {
      var mov := movs[i];
      ghost var before := db.movements;
      var inserted, error := ImportMovement(db, mov);
      LoopStep(old(db.movements), before, db.movements, movs, i, s, known, inserted, error);
      if HasKey(old(db.movements), KeyOf(mov)) {
        known := known + 1;
      }
      s := NextSummary(s, mov, inserted, error);
      i := i + 1;
    }
    LoopDone(old(db.movements), db.movements, movs, s, known);
  }

  /** Steps 1-3 of `importRawData` and the two loops, on the parser's
      output. */
  method ImportParsed(db: Db, employees: seq<Employee>, movements: seq<Movement>, warnings: seq<string>)
    returns (result: ImportResult, ghost caches: Caches)
    requires db.Valid()
    modifies db
    ensures db.Valid()
    ensures forall t: Table :: caches.For(t) == CacheOf(db.Rows(t), t.HasCode()) || caches.For(t) == map[]
    ensures result.employees.inserted == |employees| ==> Upserted(db.employees, employees, |employees|, caches)
    ensures forall id :: Absent(employees, id) ==>
      (id in db.employees <==> id in old(db.employees))
      && (id in db.employees ==> db.employees[id] == old(db.employees)[id])
    ensures |result.employees.errors| == |warnings| + |employees| - result.employees.inserted
    ensures NameEmployees(result.employees.errors, |warnings|, employees)
    ensures result.movements.inserted + |result.movements.errors|
            + KnownCount(old(db.movements), movements) <= |movements|
    ensures |old(db.movements)| + result.movements.inserted == |db.movements|
    ensures forall k :: |old(db.movements)| <= k < |db.movements| ==> db.movements[k] in movements
    ensures NameMovements(result.movements.errors, movements)
    ensures result.employees.total == |employees| && result.movements.total == |movements|
    ensures warnings <= result.employees.errors
    ensures result.movements.errors == [] ==> AllStored(db.movements, movements, |movements|)
    ensures result.movements.errors == [] ==> db.movements == InsertAll(old(db.movements), movements)
    ensures AllStored(old(db.movements), movements, |movements|) ==>
      result.movements.inserted == 0 && result.movements.errors == [] && db.movements == old(db.movements)
    ensures result.employees.updated == 0
    ensures result.employees.inserted <= result.employees.total
    ensures result.success <==> result.employees.errors == [] && result.movements.errors == []
    ensures warnings != [] ==> !result.success
    ensures forall t: Table :: Extends(old(db.Rows(t)), db.Rows(t))
    ensures old(db.movements) <= db.movements
    ensures KeysDistinct(old(db.movements)) ==> KeysDistinct(db.movements)
  {
    var uniqueMasterData := CollectMasterData(employees);
    EnsureMasterDataExists(db, uniqueMasterData);
    var loaded := LoadLookupCaches(db);
    caches := loaded;
    var employeeSummary := ImportEmployees(db, employees, loaded, warnings);
    var movementSummary := ImportMovements(db, movements);
    if |warnings| > 0 {
      assert employeeSummary.errors != [];
    }
    result := ImportResult(employeeSummary.errors == [] && movementSummary.errors == [],
                           employeeSummary, movementSummary);
  }

  /** `importRawData`: parse, then import what was parsed. The results are
      stated against the parse of the text. */
  method ImportRawData(db: Db, text: string) returns (result: ImportResult, ghost caches: Caches)
    requires db.Valid()
    modifies db
    ensures db.Valid()
    ensures forall t: Table :: caches.For(t) == CacheOf(db.Rows(t), t.HasCode()) || caches.For(t) == map[]
    ensures var parsed := ParseRawDataSpec(text);
      && (result.employees.inserted == |parsed.employees| ==>
            Upserted(db.employees, parsed.employees, |parsed.employees|, caches))
      && (forall id :: Absent(parsed.employees, id) ==>
            (id in db.employees <==> id in old(db.employees))
            && (id in db.employees ==> db.employees[id] == old(db.employees)[id]))
      && |result.employees.errors| == |parsed.warnings| + |parsed.employees| - result.employees.inserted
      && NameEmployees(result.employees.errors, |parsed.warnings|, parsed.employees)
      && result.movements.inserted + |result.movements.errors|
           + KnownCount(old(db.movements), parsed.movements) <= |parsed.movements|
      && (forall k :: |old(db.movements)| <= k < |db.movements| ==> db.movements[k] in parsed.movements)
      && NameMovements(result.movements.errors, parsed.movements)
    ensures |old(db.movements)| + result.movements.inserted == |db.movements|
    ensures var parsed := ParseRawDataSpec(text);
      && result.employees.total == |parsed.employees|
      && result.movements.total == |parsed.movements|
      && parsed.warnings <= result.employees.errors
      && (parsed.warnings != [] ==> !result.success)
      && (result.movements.errors == [] ==> AllStored(db.movements, parsed.movements, |parsed.movements|))
      && (result.movements.errors == [] ==> db.movements == InsertAll(old(db.movements), parsed.movements))
      && (AllStored(old(db.movements), parsed.movements, |parsed.movements|) ==>
            result.movements.inserted == 0 && result.movements.errors == []
            && db.movements == old(db.movements))
    ensures result.employees.updated == 0
    ensures result.employees.inserted <= result.employees.total
    ensures result.success <==> result.employees.errors == [] && result.movements.errors == []
    ensures forall t: Table :: Extends(old(db.Rows(t)), db.Rows(t))
    ensures old(db.movements) <= db.movements
    ensures KeysDistinct(old(db.movements)) ==> KeysDistinct(db.movements)
  {
    var employees, movements, warnings := ParseRawData(text);
    result, caches := ImportParsed(db, employees, movements, warnings);
  }

  /** Importing the same text twice: when the first run stored every
      movement, the second inserts none and leaves the movements as they are. */
  method ImportTwice(db: Db, text: string) returns (first: ImportResult, second: ImportResult)
    requires db.Valid()
    modifies db
    ensures first.movements.errors == [] ==>
      second.movements.inserted == 0 && second.movements.errors == []
    ensures KeysDistinct(old(db.movements)) ==> KeysDistinct(db.movements)
  {
    ghost var c1, c2: Caches;
    first, c1 := ImportRawData(db, text);
    second, c2 := ImportRawData(db, text);
  }
}
