/**
  The persistent store the importer talks to, reduced to the five calls it
  makes (fetch a reference table, insert reference rows, upsert an employee,
  look a movement up by its dedup key, insert a movement). The fetches and
  inserts may fail here as they can in the source: the outcome is chosen
  freely, and a failed call changes nothing. The duplicate lookup is exact:
  the source ignores its error, and that failure is not modelled.
*/
module Store {
  import opened Wrappers
  import opened Normalize
  import opened Reducer

  /** The five reference tables. */
  datatype Table = Sections | Departments | BusinessUnits | Sites | Companies {
    /** Business units, sites and companies carry a code next to the name. */
    predicate HasCode() {
      this == BusinessUnits || this == Sites || this == Companies
    }

    function Name(): string {
      match this
      case Sections => "sections"
      case Departments => "departments"
      case BusinessUnits => "business_units"
      case Sites => "sites"
      case Companies => "companies"
    }
  }

  /** A stored reference row. */
  datatype RefRow = RefRow(id: int, name: string, code: Option<string>, isActive: bool)

  /** A reference row to be inserted; the store assigns its id. */
  datatype NewRef = NewRef(name: string, code: Option<string>, isActive: bool)

  /** A row of `employee_master`, with organisation units as nullable ids. */
  datatype EmployeeRecord = EmployeeRecord(
    employeeId: string, firstName: string, lastName: string,
    birthDate: Option<string>, gender: Option<string>, educationLevel: Option<string>,
    onboardDate: Option<string>, resignedDate: Option<string>, currentStatus: Status,
    sectionId: Option<int>, departmentId: Option<int>, businessUnitId: Option<int>,
    siteId: Option<int>, companyId: Option<int>)

  /** The duplicate-check key of a movement. */
  datatype MovementKey = MovementKey(employeeId: string, movementType: MovementType,
                                     effectiveDate: Option<string>)

  function KeyOf(m: Movement): MovementKey {
    MovementKey(m.employeeId, m.movementType, m.effectiveDate)
  }

  /** Some stored movement has the key. */
  predicate HasKey(ms: seq<Movement>, key: MovementKey) {
    exists i | 0 <= i < |ms| :: KeyOf(ms[i]) == key
  }

  /** A key stays present when movements are appended. */
  lemma HasKeyExtended(ms: seq<Movement>, more: seq<Movement>, key: MovementKey)
    requires HasKey(ms, key)
    ensures HasKey(ms + more, key)
  {
    var i :| 0 <= i < |ms| && KeyOf(ms[i]) == key;
    assert (ms + more)[i] == ms[i];
  }

  /** The same for a log that grows to any extension of itself. */
  lemma HasKeyGrown(a: seq<Movement>, b: seq<Movement>, key: MovementKey)
    requires a <= b && HasKey(a, key)
    ensures HasKey(b, key)
  {
    assert b == a + b[|a|..];
    HasKeyExtended(a, b[|a|..], key);
  }

  /** The rows the store writes for `rows`, numbered from `start`. */
  function Numbered(rows: seq<NewRef>, start: int): (r: seq<RefRow>)
    ensures |r| == |rows|
    ensures forall k :: 0 <= k < |rows| ==>
      r[k] == RefRow(start + k, rows[k].name, rows[k].code, rows[k].isActive)
  {
    if rows == [] then []
    else [RefRow(start, rows[0].name, rows[0].code, rows[0].isActive)] + Numbered(rows[1..], start + 1)
  }

  /** `b` starts with `a`. */
  predicate Extends(a: seq<RefRow>, b: seq<RefRow>) {
    |a| <= |b| && b[..|a|] == a
  }

  /** A table left alone or with rows appended extends the old one. */
  lemma ExtendsUnchangedOrAppended(a: seq<RefRow>, b: seq<RefRow>, added: seq<RefRow>)
    requires b == a || b == a + added
    ensures Extends(a, b)
  {
    if b == a {
      assert a[..|a|] == a;
    } else {
      assert (a + added)[..|a|] == a;
    }
  }

  lemma ExtendsTransitive(a: seq<RefRow>, b: seq<RefRow>, c: seq<RefRow>)
    requires Extends(a, b) && Extends(b, c)
    ensures Extends(a, c)
  {
    assert c[..|a|] == c[..|b|][..|a|];
  }

  /** Every id of `rows` is positive and below `n`. */
  predicate IdsBelow(rows: seq<RefRow>, n: int) {
    forall k :: 0 <= k < |rows| ==> 1 <= rows[k].id < n
  }

  /** Rows numbered from `start` after rows with ids in [1, start) give a
      table whose ids are in [1, start + |rows|). */
  lemma NumberedIdsBelow(before: seq<RefRow>, rows: seq<NewRef>, start: int)
    requires start >= 1 && IdsBelow(before, start)
    ensures IdsBelow(before + Numbered(rows, start), start + |rows|)
  {
    var added := Numbered(rows, start);
    var r := before + added;
    forall k | 0 <= k < |r| ensures 1 <= r[k].id < start + |rows| {
      if k < |before| {
        assert r[k] == before[k];
      } else {
        assert r[k] == added[k - |before|];
      }
    }
  }

  class Db {
    var sections: seq<RefRow>
    var departments: seq<RefRow>
    var businessUnits: seq<RefRow>
    var sites: seq<RefRow>
    var companies: seq<RefRow>
    var employees: map<string, EmployeeRecord>
    var movements: seq<Movement>
    /** The id the next inserted reference row receives. */
    var nextId: int

    /** The rows of one reference table. */
    function Rows(t: Table): seq<RefRow>
      reads this
    {
      match t
      case Sections => sections
      case Departments => departments
      case BusinessUnits => businessUnits
      case Sites => sites
      case Companies => companies
    }

    /** Reference ids are positive and below `nextId`. */
    ghost predicate Valid()
      reads this
    {
      && nextId >= 1
      && forall t: Table :: IdsBelow(Rows(t), nextId)
    }

    constructor ()
      ensures Valid()
      ensures forall t: Table :: Rows(t) == []
      ensures employees == map[] && movements == []
    {
      sections, departments, businessUnits, sites, companies := [], [], [], [], [];
      employees, movements := map[], [];
      nextId := 1;
    }

    /** `from(t).select(..)`: the table, or None when the query fails. */
    method FetchAll(t: Table) returns (data: Option<seq<RefRow>>)
      ensures data.Some? ==> data.value == Rows(t)
    {
      var ok: bool := *;
      data := if ok then Some(Rows(t)) else None;
    }

    /** `from(t).insert(rows)`: all rows are added with fresh ids, or, on an
        error, none is. */
    method InsertMany(t: Table, rows: seq<NewRef>) returns (error: Option<string>)
      requires Valid()
      modifies this
      ensures Valid()
      ensures error.None? ==> Rows(t) == old(Rows(t)) + Numbered(rows, old(nextId))
      ensures error.Some? ==> Rows(t) == old(Rows(t))
      ensures forall u :: u != t ==> Rows(u) == old(Rows(u))
      ensures forall u :: Extends(old(Rows(u)), Rows(u))
      ensures old(nextId) <= nextId
      ensures error.Some? ==> nextId == old(nextId)
      ensures employees == old(employees) && movements == old(movements)
    {
      var ok: bool := *;
      if !ok {
        var message: string := *;
        forall u ensures Extends(Rows(u), Rows(u)) {
          ExtendsUnchangedOrAppended(Rows(u), Rows(u), []);
        }
        return Some(message);
      }
      var added := Numbered(rows, nextId);
      NumberedIdsBelow(Rows(t), rows, nextId);
      match t {
        case Sections => sections := sections + added;
        case Departments => departments := departments + added;
        case BusinessUnits => businessUnits := businessUnits + added;
        case Sites => sites := sites + added;
        case Companies => companies := companies + added;
      }
      nextId := nextId + |rows|;
      assert Rows(t) == old(Rows(t)) + added;
      assert forall u :: u != t ==> Rows(u) == old(Rows(u));
      forall u ensures IdsBelow(Rows(u), nextId) {
        if u != t {
          assert IdsBelow(old(Rows(u)), old(nextId));
        }
      }
      forall u ensures Extends(old(Rows(u)), Rows(u)) {
        ExtendsUnchangedOrAppended(old(Rows(u)), Rows(u), added);
      }
      error := None;
    }

    /** `from('employee_master').upsert(e, { onConflict: 'employee_id' })`:
        the record replaces any record with its id, or, on an error, nothing
        changes. */
    method Upsert(e: EmployeeRecord) returns (error: Option<string>)
      modifies this
      ensures error.None? ==> employees == old(employees)[e.employeeId := e]
      ensures error.Some? ==> employees == old(employees)
      ensures forall t :: Rows(t) == old(Rows(t))
      ensures nextId == old(nextId) && movements == old(movements)
    {
      var ok: bool := *;
      if ok {
        employees := employees[e.employeeId := e];
        error := None;
      } else {
        var message: string := *;
        error := Some(message);
      }
    }

    /** The duplicate check: a stored movement with the same key. */
    method ExistsMovement(key: MovementKey) returns (found: bool)
      ensures found <==> HasKey(movements, key)
    {
      found := exists i | 0 <= i < |movements| :: KeyOf(movements[i]) == key;
    }

    /** `from('movement_transactions').insert(m)`: appended, or, on an error,
        nothing changes. */
    method InsertMovement(m: Movement) returns (error: Option<string>)
      modifies this
      ensures error.None? ==> movements == old(movements) + [m]
      ensures error.Some? ==> movements == old(movements)
      ensures forall t :: Rows(t) == old(Rows(t))
      ensures nextId == old(nextId) && employees == old(employees)
    {
      var ok: bool := *;
      if ok {
        movements := movements + [m];
        error := None;
      } else {
        var message: string := *;
        error := Some(message);
      }
    }
  }
}
