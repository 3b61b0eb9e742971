/**
  Reference resolution (lib/import-utils.ts:159-231, 388-414): the
  organisation names the parsed employees mention are collected per table,
  the missing ones are created, the five tables are reloaded into
  case-insensitive lookup caches, and names are resolved to ids through them.
*/
module Resolver {
  import opened Wrappers
  import opened Text
  import opened Reducer
  import opened Store

  // ---------------------------------------------------------------------
  // Collecting the names an import mentions
  // ---------------------------------------------------------------------

  /** The organisation name of an employee that refers to table `t`. */
  function OrgName(e: Employee, t: Table): string {
    match t
    case Sections => e.sectionName
    case Departments => e.departmentName
    case BusinessUnits => e.businessUnitName
    case Sites => e.siteName
    case Companies => e.companyName
  }

  /** The non-empty names for `t`, in employee order, repeats included. */
  function NamesIn(emps: seq<Employee>, t: Table): (r: seq<string>)
    ensures forall x :: x in r <==> x != [] && exists i :: 0 <= i < |emps| && OrgName(emps[i], t) == x
  {
    if emps == [] then []
    else
      var p := emps[..|emps| - 1];
      var name := OrgName(emps[|emps| - 1], t);
      assert forall i :: 0 <= i < |p| ==> p[i] == emps[i];
      NamesIn(p, t) + (if name != "" then [name] else [])
  }

  /** The insertion-ordered set of names per table. */
  datatype MasterData = MasterData(sections: seq<string>, departments: seq<string>,
                                   businessUnits: seq<string>, sites: seq<string>,
                                   companies: seq<string>)
  {
    function For(t: Table): seq<string> {
      match t
      case Sections => sections
      case Departments => departments
      case BusinessUnits => businessUnits
      case Sites => sites
      case Companies => companies
    }
  }

  /** What the collection loop builds: per table, each non-empty name once,
      in order of first mention. */
  function MasterDataOf(emps: seq<Employee>): MasterData {
    MasterData(Distinct(NamesIn(emps, Sections)), Distinct(NamesIn(emps, Departments)),
               Distinct(NamesIn(emps, BusinessUnits)), Distinct(NamesIn(emps, Sites)),
               Distinct(NamesIn(emps, Companies)))
  }

  /** Per table, the set holds each non-empty name some employee mentions,
      once. */
  lemma MasterDataMembers(emps: seq<Employee>, t: Table)
    ensures forall x :: x in MasterDataOf(emps).For(t) <==>
      x != [] && exists i :: 0 <= i < |emps| && OrgName(emps[i], t) == x
    ensures var names := MasterDataOf(emps).For(t);
            forall i, j :: 0 <= i < j < |names| ==> names[i] != names[j]
  {
    assert MasterDataOf(emps).For(t) == Distinct(NamesIn(emps, t));
  }

  /** `Set.add` of a name when it is not empty. */
  function AddName(names: seq<string>, name: string): seq<string> {
    if name != "" && name !in names then names + [name] else names
  }

  /** One more employee adds its name to the set, if it is new and not empty. */
  lemma MasterDataStep(emps: seq<Employee>, i: nat, t: Table)
    requires i < |emps|
    ensures Distinct(NamesIn(emps[..i + 1], t)) == AddName(Distinct(NamesIn(emps[..i], t)), OrgName(emps[i], t))
  {
    var p := emps[..i + 1];
    assert p[..|p| - 1] == emps[..i] && p[|p| - 1] == emps[i];
    var s := NamesIn(emps[..i], t);
    var name := OrgName(emps[i], t);
    assert NamesIn(p, t) == s + (if name != "" then [name] else []);
    if name != "" {
      var s' := s + [name];
      assert s'[..|s'| - 1] == s && s'[|s'| - 1] == name;
      assert Distinct(s') == if name in Distinct(s) then Distinct(s) else Distinct(s) + [name];
    } else {
      assert s + [] == s;
    }
  }

  /** The collection loop over the parsed employees (`uniqueMasterData`). */
  method CollectMasterData(emps: seq<Employee>) returns (data: MasterData)
    ensures data == MasterDataOf(emps)
  {
    data := MasterData([], [], [], [], []);
    var i := 0;
    assert emps[..0] == [];
    while i < |emps|
      invariant 0 <= i <= |emps|
      invariant data == MasterDataOf(emps[..i])
    {
      var e := emps[i];
      MasterDataStep(emps, i, Sections);
      MasterDataStep(emps, i, Departments);
      MasterDataStep(emps, i, BusinessUnits);
      MasterDataStep(emps, i, Sites);
      MasterDataStep(emps, i, Companies);
      data := MasterData(AddName(data.sections, e.sectionName),
                         AddName(data.departments, e.departmentName),
                         AddName(data.businessUnits, e.businessUnitName),
                         AddName(data.sites, e.siteName),
                         AddName(data.companies, e.companyName));
      i := i + 1;
    }
    assert emps[..i] == emps;
  }

  // ---------------------------------------------------------------------
  // Creating the missing names
  // ---------------------------------------------------------------------

  /** `new Set(existing?.map(r => r.name.toLowerCase()))`: empty when the
      fetch failed. */
  function ExistingNames(existing: Option<seq<RefRow>>): (r: set<string>)
    ensures existing.None? ==> r == {}
    ensures existing.Some? ==> forall x :: x in r <==>
      exists k :: 0 <= k < |existing.value| && ToLower(existing.value[k].name) == x
  {
    if existing.None? then {}
    else set k | 0 <= k < |existing.value| :: ToLower(existing.value[k].name)
  }

  /** The row created for a missing name: active, and for the code-bearing
      tables with the name as its code. */
  function NewRefFor(name: string, t: Table): NewRef {
    NewRef(name, if t.HasCode() then Some(name) else None, true)
  }

  /** `toInsert`: the names whose lower-cased form is not among the existing
      names, in order. The existing set is not updated as names are added,
      so two names differing only in case are both planned. */
  function PlanInserts(names: seq<string>, existing: set<string>, t: Table): (r: seq<NewRef>)
    ensures |r| <= |names|
    ensures forall k :: 0 <= k < |r| ==>
      r[k].name in names && ToLower(r[k].name) !in existing && r[k] == NewRefFor(r[k].name, t)
    ensures forall x :: x in names && ToLower(x) !in existing ==> NewRefFor(x, t) in r
  {
    if names == [] then []
    else
      var p := names[..|names| - 1];
      var x := names[|names| - 1];
      assert forall y :: y in names <==> y in p || y == x;
      PlanInserts(p, existing, t) + (if ToLower(x) !in existing then [NewRefFor(x, t)] else [])
  }

  /** No two planned rows share a name. */
  predicate DistinctNames(r: seq<NewRef>) {
    forall i, j :: 0 <= i < j < |r| ==> r[i].name != r[j].name
  }

  /** Distinct names are planned at most once each: a new name is inserted
      exactly once. */
  lemma {:induction false} PlanInsertsDistinct(names: seq<string>, existing: set<string>, t: Table)
    requires forall i, j :: 0 <= i < j < |names| ==> names[i] != names[j]
    ensures DistinctNames(PlanInserts(names, existing, t))
  {
    if names != [] {
      var p := names[..|names| - 1];
      var x := names[|names| - 1];
      PlanInsertsDistinct(p, existing, t);
      assert x !in p by {
        forall k | 0 <= k < |p| ensures p[k] != x {
          assert p[k] == names[k];
        }
      }
      var q := PlanInserts(p, existing, t);
      assert forall k :: 0 <= k < |q| ==> q[k].name != x;
      var r := PlanInserts(names, existing, t);
      assert p == names[..|names| - 1];
      assert r == q + (if ToLower(x) !in existing then [NewRefFor(x, t)] else []);
      forall i, j | 0 <= i < j < |r| ensures r[i].name != r[j].name {
        assert i < |q| && r[i] == q[i];
        if j >= |q| {
          assert r[j].name == x;
          assert q[i].name in p;
        } else {
          assert r[j] == q[j];
          assert q[i].name != q[j].name;
        }
      }
    }
  }

  /** Two names that differ only in case and are both unknown are both
      inserted, since the existing set is not updated inside the loop. */
  lemma CaseVariantsBothPlanned(names: seq<string>, existing: set<string>, t: Table, a: string, b: string)
    requires a in names && b in names && a != b && ToLower(a) == ToLower(b)
    requires ToLower(a) !in existing
    ensures NewRefFor(a, t) in PlanInserts(names, existing, t)
    ensures NewRefFor(b, t) in PlanInserts(names, existing, t)
    ensures NewRefFor(a, t) != NewRefFor(b, t)
  {
  }

  /** The loop of `ensure` that gathers `toInsert`. */
  method ToInsert(names: seq<string>, existingNames: set<string>, t: Table) returns (toInsert: seq<NewRef>)
    ensures toInsert == PlanInserts(names, existingNames, t)
  {
    toInsert := [];
    var i := 0;
    while i < |names|
      invariant 0 <= i <= |names|
      invariant toInsert == PlanInserts(names[..i], existingNames, t)
    {
      PlanInsertsStep(names, existingNames, t, i);
      var name := names[i];
      if ToLower(name) !in existingNames {
        var row := NewRef(name, if t.HasCode() then Some(name) else None, true);
        toInsert := toInsert + [row];
      }
      i := i + 1;
    }
    assert names[..i] == names;
  }

  /** One more name extends the plan by its row, if it is unknown. */
  lemma PlanInsertsStep(names: seq<string>, existing: set<string>, t: Table, i: nat)
    requires i < |names|
    ensures PlanInserts(names[..i + 1], existing, t)
         == PlanInserts(names[..i], existing, t)
            + (if ToLower(names[i]) !in existing then [NewRefFor(names[i], t)] else [])
  {
    var p := names[..i + 1];
    assert p[..|p| - 1] == names[..i] && p[|p| - 1] == names[i];
  }

  /** `ensure(table, names, isCode)`: nothing for an empty set; otherwise
      fetch the existing names, plan the missing ones and insert them in one
      call. A failed fetch counts as "no existing names"; a failed insert is
      only logged. */
  method Ensure(db: Db, t: Table, names: seq<string>)
    requires db.Valid()
    modifies db
    ensures db.Valid()
    ensures names == [] ==> db.Rows(t) == old(db.Rows(t))
    ensures || db.Rows(t) == old(db.Rows(t))
            || db.Rows(t) == old(db.Rows(t))
                 + Numbered(PlanInserts(names, ExistingNames(Some(old(db.Rows(t)))), t), old(db.nextId))
            || db.Rows(t) == old(db.Rows(t)) + Numbered(PlanInserts(names, {}, t), old(db.nextId))
    ensures forall u :: u != t ==> db.Rows(u) == old(db.Rows(u))
    ensures forall u :: Extends(old(db.Rows(u)), db.Rows(u))
    ensures db.employees == old(db.employees) && db.movements == old(db.movements)
  {
    if |names| > 0 {
      var existing := db.FetchAll(t);
      var existingNames := ExistingNames(existing);
      assert existingNames == {} || existingNames == ExistingNames(Some(old(db.Rows(t))));
      var toInsert := ToInsert(names, existingNames, t);
      if |toInsert| > 0 {
        var _ := db.InsertMany(t, toInsert);
        return;
      }
    }
    forall u: Table ensures Extends(db.Rows(u), db.Rows(u)) {
      ExtendsUnchangedOrAppended(db.Rows(u), db.Rows(u), []);
    }
  }

  /** Every row an ensure call adds is an active row for one of its names. */
  lemma EnsureAddsOnlyNames(names: seq<string>, existing: set<string>, t: Table, start: int, k: nat)
    requires k < |PlanInserts(names, existing, t)|
    ensures var row := Numbered(PlanInserts(names, existing, t), start)[k];
            && row.name in names && row.isActive && ToLower(row.name) !in existing
            && row.code == (if t.HasCode() then Some(row.name) else None)
  {
  }

  /** `ensureMasterDataExists`: one ensure call per table, in turn. */
  method EnsureMasterDataExists(db: Db, data: MasterData)
    requires db.Valid()
    modifies db
    ensures db.Valid()
    ensures forall t: Table :: Extends(old(db.Rows(t)), db.Rows(t))
    ensures db.employees == old(db.employees) && db.movements == old(db.movements)
  {
    Ensure(db, Sections, data.sections);
    label s1:
    Ensure(db, Departments, data.departments);
    label s2:
    Ensure(db, BusinessUnits, data.businessUnits);
    label s3:
    Ensure(db, Sites, data.sites);
    label s4:
    Ensure(db, Companies, data.companies);
    forall t: Table ensures Extends(old(db.Rows(t)), db.Rows(t)) {
      ExtendsTransitive(old(db.Rows(t)), old@s1(db.Rows(t)), old@s2(db.Rows(t)));
      ExtendsTransitive(old(db.Rows(t)), old@s2(db.Rows(t)), old@s3(db.Rows(t)));
      ExtendsTransitive(old(db.Rows(t)), old@s3(db.Rows(t)), old@s4(db.Rows(t)));
      ExtendsTransitive(old(db.Rows(t)), old@s4(db.Rows(t)), db.Rows(t));
    }
  }

  // ---------------------------------------------------------------------
  // Lookup caches
  // ---------------------------------------------------------------------

  /** `item.code` is truthy: present and not empty. */
  predicate HasUsableCode(r: RefRow) {
    r.code.Some? && r.code.value != ""
  }

  /** The cache keys row `r` writes: its lower-cased name, and with `useCode`
      its lower-cased code. */
  predicate MapsKey(r: RefRow, useCode: bool, k: string) {
    ToLower(r.name) == k || (useCode && HasUsableCode(r) && ToLower(r.code.value) == k)
  }

  /** The map `toMap` builds: each row in turn writes its id under its name
      and, with `useCode`, under its code. */
  function CacheOf(rows: seq<RefRow>, useCode: bool): map<string, int> {
    if rows == [] then map[]
    else
      var r := rows[|rows| - 1];
      var m := CacheOf(rows[..|rows| - 1], useCode)[ToLower(r.name) := r.id];
      if useCode && HasUsableCode(r) then m[ToLower(r.code.value) := r.id] else m
  }

  /** A key is in the cache exactly when some row writes it, and it holds the
      id of the last row that does. */
  lemma {:induction false} CacheLookup(rows: seq<RefRow>, useCode: bool, k: string)
    ensures k in CacheOf(rows, useCode) <==> exists i :: 0 <= i < |rows| && MapsKey(rows[i], useCode, k)
    ensures forall i :: 0 <= i < |rows| && MapsKey(rows[i], useCode, k)
                        && (forall j :: i < j < |rows| ==> !MapsKey(rows[j], useCode, k))
                        ==> k in CacheOf(rows, useCode) && CacheOf(rows, useCode)[k] == rows[i].id
  {
    if rows != [] {
      var n := |rows| - 1;
      var p := rows[..n];
      CacheLookup(p, useCode, k);
      assert forall i :: 0 <= i < n ==> p[i] == rows[i];
      if MapsKey(rows[n], useCode, k) {
        assert k in CacheOf(rows, useCode) && CacheOf(rows, useCode)[k] == rows[n].id;
      } else {
        assert k in CacheOf(rows, useCode) <==> k in CacheOf(p, useCode);
        assert k in CacheOf(p, useCode) ==> CacheOf(rows, useCode)[k] == CacheOf(p, useCode)[k];
      }
    }
  }

  /** `toMap(data, useCode)`: the loop over the fetched rows (`data || []`). */
  method ToMap(data: Option<seq<RefRow>>, useCode: bool) returns (m: map<string, int>)
    ensures m == CacheOf(data.GetOr([]), useCode)
    ensures data.None? ==> m == map[]
  {
    var rows := data.GetOr([]);
    m := map[];
    var i := 0;
    assert rows[..0] == [];
    while i < |rows|
      invariant 0 <= i <= |rows|
      invariant m == CacheOf(rows[..i], useCode)
    {
      var p := rows[..i + 1];
      assert p[..|p| - 1] == rows[..i] && p[|p| - 1] == rows[i];
      var item := rows[i];
      m := m[ToLower(item.name) := item.id];
      if useCode && item.code.Some? && item.code.value != "" {
        m := m[ToLower(item.code.value) := item.id];
      }
      i := i + 1;
    }
    assert rows[..i] == rows;
  }

  /** The five caches. */
  datatype Caches = Caches(sections: map<string, int>, departments: map<string, int>,
                           businessUnits: map<string, int>, sites: map<string, int>,
                           companies: map<string, int>)
  {
    function For(t: Table): map<string, int> {
      match t
      case Sections => sections
      case Departments => departments
      case BusinessUnits => businessUnits
      case Sites => sites
      case Companies => companies
    }
  }

  /** `loadLookupCaches`: every table is fetched again and turned into a
      cache, with codes for the code-bearing tables; a failed fetch gives an
      empty cache. */
  method LoadLookupCaches(db: Db) returns (caches: Caches)
    ensures forall t: Table :: caches.For(t) == CacheOf(db.Rows(t), t.HasCode()) || caches.For(t) == map[]
  {
    var secRes := db.FetchAll(Sections);
    var deptRes := db.FetchAll(Departments);
    var buRes := db.FetchAll(BusinessUnits);
    var siteRes := db.FetchAll(Sites);
    var compRes := db.FetchAll(Companies);
    var sections := ToMap(secRes, false);
    var departments := ToMap(deptRes, false);
    var businessUnits := ToMap(buRes, true);
    var sites := ToMap(siteRes, true);
    var companies := ToMap(compRes, true);
    caches := Caches(sections, departments, businessUnits, sites, companies);
  }

  /** `lookupId`: the id under the lower-cased name; null for an empty name, a
      name the cache lacks, or id 0 (which `|| null` also turns into null). */
  function LookupId(cache: map<string, int>, name: string): (r: Option<int>)
    ensures r.Some? <==> name != [] && ToLower(name) in cache && cache[ToLower(name)] != 0
    ensures r.Some? ==> r.value == cache[ToLower(name)]
  {
    if name == "" then None
    else if ToLower(name) in cache && cache[ToLower(name)] != 0 then Some(cache[ToLower(name)])
    else None
  }

  /** With positive ids, a non-empty name resolves exactly when some row of
      the table writes its lower-cased form, and then to the id of the last
      such row. */
  lemma ResolvesIffStored(rows: seq<RefRow>, useCode: bool, name: string)
    requires forall k :: 0 <= k < |rows| ==> rows[k].id >= 1
    requires name != []
    ensures LookupId(CacheOf(rows, useCode), name).Some?
        <==> exists i :: 0 <= i < |rows| && MapsKey(rows[i], useCode, ToLower(name))
  {
    var key := ToLower(name);
    CacheLookup(rows, useCode, key);
    if key in CacheOf(rows, useCode) {
      var i := LastWriter(rows, useCode, key);
      assert CacheOf(rows, useCode)[key] == rows[i].id;
    }
  }

  /** The last row that writes `k`. */
  lemma {:induction false} LastWriter(rows: seq<RefRow>, useCode: bool, k: string) returns (i: nat)
    requires exists i :: 0 <= i < |rows| && MapsKey(rows[i], useCode, k)
    ensures i < |rows| && MapsKey(rows[i], useCode, k)
    ensures forall j :: i < j < |rows| ==> !MapsKey(rows[j], useCode, k)
  {
    var n := |rows| - 1;
    if MapsKey(rows[n], useCode, k) {
      i := n;
    } else {
      var w :| 0 <= w < |rows| && MapsKey(rows[w], useCode, k);
      assert w < n && rows[..n][w] == rows[w];
      i := LastWriter(rows[..n], useCode, k);
      assert forall j :: i < j < n ==> rows[..n][j] == rows[j];
    }
  }

  /** A name created by a successful ensure call resolves to a non-null id
      once the table is reloaded: here `rows` is the table before the call and
      the created rows are numbered from a positive `start`. */
  lemma CreatedNameResolves(rows: seq<RefRow>, names: seq<string>, t: Table, start: int, name: string)
    requires forall k :: 0 <= k < |rows| ==> rows[k].id >= 1
    requires start >= 1
    requires name in names && name != []
    requires ToLower(name) !in ExistingNames(Some(rows))
    ensures var plan := PlanInserts(names, ExistingNames(Some(rows)), t);
            LookupId(CacheOf(rows + Numbered(plan, start), t.HasCode()), name).Some?
  {
    var plan := PlanInserts(names, ExistingNames(Some(rows)), t);
    var added := Numbered(plan, start);
    var all := rows + added;
    var j :| 0 <= j < |plan| && plan[j] == NewRefFor(name, t);
    assert all[|rows| + j] == added[j];
    assert MapsKey(all[|rows| + j], t.HasCode(), ToLower(name));
    forall k | 0 <= k < |all| ensures all[k].id >= 1 {
      if k >= |rows| {
        assert all[k] == added[k - |rows|];
      }
    }
    ResolvesIffStored(all, t.HasCode(), name);
  }
}
