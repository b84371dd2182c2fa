/** The attendance database of the time-clock app: the `employees`,
    `records` and `settings` tables and the statements the app runs
    against them. Days are numbered consecutively; the `YYYY-MM-DD` text
    the app stores sorts in the same order as the numbers, so `BETWEEN` on
    that text is an interval of days. Clocks are parameters. */
module AttendanceDb {
  import opened Common

  type Day = int

  /** A row of `employees`; `extra` is the parsed `extra_data` object. */
  datatype Employee = Employee(id: nat, name: string, extra: map<string, string>)

  /** A row of `records` (its own row id is never read). */
  datatype Record = Record(empId: nat, day: Day, timestamp: int)

  /** A row of the `getRawRecords` result. */
  datatype Punch = Punch(empId: nat, day: Day)

  /** A row of the `getEmployeesWithStatus` result. */
  datatype Status = Status(employee: Employee, isPunched: bool)

  // ---------------------------------------------------------------------
  // The records table
  // ---------------------------------------------------------------------

  predicate IsKey(r: Record, empId: nat, day: Day) {
    r.empId == empId && r.day == day
  }

  /** The `WHERE emp_id = $1 AND date_str = $2` condition as a filter. */
  function KeyIs(empId: nat, day: Day): Record -> bool {
    (r: Record) => IsKey(r, empId, day)
  }

  function KeyIsNot(empId: nat, day: Day): Record -> bool {
    (r: Record) => !IsKey(r, empId, day)
  }

  /** Some row has this (employee, day) key. */
  predicate HasRecord(rs: seq<Record>, empId: nat, day: Day) {
    exists r :: r in rs && IsKey(r, empId, day)
  }

  /** The table's `UNIQUE(emp_id, date_str)` constraint. */
  predicate UniqueKeys(rs: seq<Record>) {
    forall i, j :: 0 <= i < j < |rs| ==> !IsKey(rs[j], rs[i].empId, rs[i].day)
  }

  /** The (employee, day) keys present in the table. */
  function Keys(rs: seq<Record>): set<(nat, Day)> {
    set r | r in rs :: (r.empId, r.day)
  }

  /** `togglePunch`: deletes the day's record when there is one and
      otherwise inserts one stamped `now`. */
  function Toggle(rs: seq<Record>, empId: nat, day: Day, now: int): (r: seq<Record>)
    ensures HasRecord(r, empId, day) <==> !HasRecord(rs, empId, day)
    ensures forall x :: !IsKey(x, empId, day) ==> (x in r <==> x in rs)
  {
    if HasRecord(rs, empId, day) then Filter(rs, KeyIsNot(empId, day))
    else
      var r := rs + [Record(empId, day, now)];
      assert r[|rs|] in r;
      r
  }

  /** `INSERT OR IGNORE`: a row whose key is taken is dropped. */
  function InsertOrIgnore(rs: seq<Record>, rec: Record): (r: seq<Record>)
    ensures rs <= r && |r| <= |rs| + 1
    ensures HasRecord(r, rec.empId, rec.day)
  {
    if HasRecord(rs, rec.empId, rec.day) then rs
    else
      var r := rs + [rec];
      assert r[|rs|] in r;
      r
  }

  /** `punchAllEmployees`: one `INSERT OR IGNORE` per employee id, in order. */
  function PunchAll(rs: seq<Record>, ids: seq<nat>, day: Day, now: int): (r: seq<Record>)
    ensures rs <= r
  {
    if ids == [] then rs
    else InsertOrIgnore(PunchAll(rs, ids[..|ids| - 1], day, now), Record(ids[|ids| - 1], day, now))
  }

  /** `getRawRecords`: the (employee, day) pairs with `start <= day <= end`. */
  function RawRecords(rs: seq<Record>, start: Day, end: Day): (r: seq<Punch>)
    ensures |r| <= |rs|
    ensures forall p :: p in r <==> start <= p.day <= end && HasRecord(rs, p.empId, p.day)
  {
    if rs == [] then []
    else
      var rest := RawRecords(rs[1..], start, end);
      assert forall x :: x in rs <==> x == rs[0] || x in rs[1..];
      assert forall p: Punch :: HasRecord(rs, p.empId, p.day) <==>
        IsKey(rs[0], p.empId, p.day) || HasRecord(rs[1..], p.empId, p.day);
      if start <= rs[0].day <= end then [Punch(rs[0].empId, rs[0].day)] + rest else rest
  }

  // ---------------------------------------------------------------------
  // Facts about the records table
  // ---------------------------------------------------------------------

  lemma UniqueTail(rs: seq<Record>)
    requires rs != [] && UniqueKeys(rs)
    ensures UniqueKeys(rs[1..])
    ensures !HasRecord(rs[1..], rs[0].empId, rs[0].day)
  {
    var t := rs[1..];
    forall i, j | 0 <= i < j < |t| ensures !IsKey(t[j], t[i].empId, t[i].day) {
      assert t[i] == rs[i + 1] && t[j] == rs[j + 1];
    }
    forall x | x in t ensures !IsKey(x, rs[0].empId, rs[0].day) {
      var j :| 0 <= j < |t| && t[j] == x;
      assert rs[j + 1] == x;
    }
  }

  /** Deleting rows keeps the keys unique. */
  lemma {:induction false} FilterKeepsUnique(rs: seq<Record>, keep: Record -> bool)
    requires UniqueKeys(rs)
    ensures UniqueKeys(Filter(rs, keep))
  {
    if rs != [] {
      UniqueTail(rs);
      FilterKeepsUnique(rs[1..], keep);
      var t := Filter(rs[1..], keep);
      if keep(rs[0]) {
        var r := [rs[0]] + t;
        forall i, j | 0 <= i < j < |r| ensures !IsKey(r[j], r[i].empId, r[i].day) {
          if i == 0 {
            assert r[j] == t[j - 1] && t[j - 1] in t;
          } else {
            assert r[i] == t[i - 1] && r[j] == t[j - 1];
          }
        }
      }
    }
  }

  /** Appending a row with a fresh key keeps the keys unique. */
  lemma AppendKeepsUnique(rs: seq<Record>, rec: Record)
    requires UniqueKeys(rs) && !HasRecord(rs, rec.empId, rec.day)
    ensures UniqueKeys(rs + [rec])
  {
    var r := rs + [rec];
    forall i, j | 0 <= i < j < |r| ensures !IsKey(r[j], r[i].empId, r[i].day) {
      if j == |rs| {
        assert r[i] == rs[i] && r[i] in rs;
      } else {
        assert r[i] == rs[i] && r[j] == rs[j];
      }
    }
  }

  /** `togglePunch` and `INSERT OR IGNORE` respect the UNIQUE constraint. */
  lemma ToggleKeepsUnique(rs: seq<Record>, empId: nat, day: Day, now: int)
    requires UniqueKeys(rs)
    ensures UniqueKeys(Toggle(rs, empId, day, now))
  {
    if HasRecord(rs, empId, day) {
      FilterKeepsUnique(rs, KeyIsNot(empId, day));
    } else {
      AppendKeepsUnique(rs, Record(empId, day, now));
    }
  }

  lemma InsertOrIgnoreKeepsUnique(rs: seq<Record>, rec: Record)
    requires UniqueKeys(rs)
    ensures UniqueKeys(InsertOrIgnore(rs, rec))
  {
    if !HasRecord(rs, rec.empId, rec.day) {
      AppendKeepsUnique(rs, rec);
    }
  }

  /** Toggling twice restores the set of keys; when the day had no record,
      it restores the table exactly. */
  lemma ToggleTwice(rs: seq<Record>, empId: nat, day: Day, t1: int, t2: int)
    ensures Keys(Toggle(Toggle(rs, empId, day, t1), empId, day, t2)) == Keys(rs)
    ensures !HasRecord(rs, empId, day) ==> Toggle(Toggle(rs, empId, day, t1), empId, day, t2) == rs
  {
    var once := Toggle(rs, empId, day, t1);
    var twice := Toggle(once, empId, day, t2);
    forall k | k in Keys(twice) ensures k in Keys(rs) {
      var x :| x in twice && k == (x.empId, x.day);
      if !IsKey(x, empId, day) {
        assert x in rs;
      }
    }
    forall k | k in Keys(rs) ensures k in Keys(twice) {
      var x :| x in rs && k == (x.empId, x.day);
      if IsKey(x, empId, day) {
        var y :| y in twice && IsKey(y, empId, day);
        assert k == (y.empId, y.day);
      } else {
        assert x in twice;
      }
    }
    if !HasRecord(rs, empId, day) {
      FilterAppend(rs, [Record(empId, day, t1)], KeyIsNot(empId, day));
      FilterNoneRemoved(rs, KeyIsNot(empId, day));
      assert Filter([Record(empId, day, t1)], KeyIsNot(empId, day)) == [];
    }
  }

  /** `punchSpecificDate` is idempotent and never restamps a record. */
  lemma InsertOrIgnoreIdempotent(rs: seq<Record>, empId: nat, day: Day, t1: int, t2: int)
    ensures var once := InsertOrIgnore(rs, Record(empId, day, t1));
            InsertOrIgnore(once, Record(empId, day, t2)) == once
    ensures HasRecord(rs, empId, day) ==> InsertOrIgnore(rs, Record(empId, day, t1)) == rs
  {
  }

  /** After `punchAllEmployees`, every listed employee has a record for the
      day, the old rows are an untouched prefix, and every new row is a
      record of a listed employee for that day stamped `now`. */
  lemma {:induction false} PunchAllCovers(rs: seq<Record>, ids: seq<nat>, day: Day, now: int)
    ensures var r := PunchAll(rs, ids, day, now);
            && rs <= r
            && (forall id :: id in ids ==> HasRecord(r, id, day))
            && (forall k :: |rs| <= k < |r| ==> r[k].day == day && r[k].timestamp == now && r[k].empId in ids)
  {
    if ids != [] {
      var init := ids[..|ids| - 1];
      var last := ids[|ids| - 1];
      PunchAllCovers(rs, init, day, now);
      var p := PunchAll(rs, init, day, now);
      var r := InsertOrIgnore(p, Record(last, day, now));
      assert ids == init + [last];
      forall id | id in ids ensures HasRecord(r, id, day) {
        if id in init {
          var x :| x in p && IsKey(x, id, day);
          assert x in r;
        }
      }
      forall k | |rs| <= k < |r| ensures r[k].day == day && r[k].timestamp == now && r[k].empId in ids {
        if k < |p| {
          assert r[k] == p[k] && p[k].empId in init;
        }
      }
    }
  }

  lemma PunchAllStep(rs: seq<Record>, ids: seq<nat>, i: nat, day: Day, now: int)
    requires i < |ids|
    ensures PunchAll(rs, ids[..i + 1], day, now)
            == InsertOrIgnore(PunchAll(rs, ids[..i], day, now), Record(ids[i], day, now))
  {
    assert ids[..i + 1][..i] == ids[..i];
  }

  /** The inserts of `punchAllEmployees`, one employee at a time. */
  method InsertEach(rs: seq<Record>, ids: seq<nat>, day: Day, now: int) returns (r: seq<Record>)
    requires UniqueKeys(rs)
    ensures r == PunchAll(rs, ids, day, now) && UniqueKeys(r)
  {
    r := rs;
    var i := 0;
    while i < |ids|
      invariant 0 <= i <= |ids|
      invariant r == PunchAll(rs, ids[..i], day, now)
      invariant UniqueKeys(r)
    {
      var next := InsertOrIgnore(r, Record(ids[i], day, now));
      assert UniqueKeys(next) && next == PunchAll(rs, ids[..i + 1], day, now) by {
        InsertOrIgnoreKeepsUnique(r, Record(ids[i], day, now));
        PunchAllStep(rs, ids, i, day, now);
      }
      r := next;
      i := i + 1;
    }
    assert ids[..|ids|] == ids;
  }

  lemma {:induction false} PunchAllKeepsUnique(rs: seq<Record>, ids: seq<nat>, day: Day, now: int)
    requires UniqueKeys(rs)
    ensures UniqueKeys(PunchAll(rs, ids, day, now))
  {
    if ids != [] {
      PunchAllKeepsUnique(rs, ids[..|ids| - 1], day, now);
      InsertOrIgnoreKeepsUnique(PunchAll(rs, ids[..|ids| - 1], day, now), Record(ids[|ids| - 1], day, now));
    }
  }

  /** With unique keys, `getRawRecords` lists each pair once. */
  lemma {:induction false} RawRecordsDistinct(rs: seq<Record>, start: Day, end: Day)
    requires UniqueKeys(rs)
    ensures Distinct(RawRecords(rs, start, end))
  {
    if rs != [] {
      UniqueTail(rs);
      RawRecordsDistinct(rs[1..], start, end);
      var rest := RawRecords(rs[1..], start, end);
      if start <= rs[0].day <= end {
        var r := [Punch(rs[0].empId, rs[0].day)] + rest;
        forall i, j | 0 <= i < j < |r| ensures r[i] != r[j] {
          assert r[j] == rest[j - 1] && rest[j - 1] in rest;
          if i > 0 {
            assert r[i] == rest[i - 1];
          }
        }
      }
    }
  }

  // ---------------------------------------------------------------------
  // The employees table and the status join
  // ---------------------------------------------------------------------

  /** Row ids grow with insertion order (`AUTOINCREMENT`). */
  predicate IdsAscending(es: seq<Employee>) {
    forall i, j :: 0 <= i < j < |es| ==> es[i].id < es[j].id
  }

  function IdIsNot(id: nat): Employee -> bool {
    (e: Employee) => e.id != id
  }

  function EmpIsNot(id: nat): Record -> bool {
    (r: Record) => r.empId != id
  }

  /** `SELECT id FROM employees`. */
  function Ids(es: seq<Employee>): (r: seq<nat>)
    ensures |r| == |es| && forall i :: 0 <= i < |es| ==> r[i] == es[i].id
  {
    if es == [] then [] else [es[0].id] + Ids(es[1..])
  }

  /** `ORDER BY id DESC` over a table kept in insertion order. */
  function Descending(es: seq<Employee>): (r: seq<Employee>)
    ensures |r| == |es| && forall i :: 0 <= i < |es| ==> r[i] == es[|es| - 1 - i]
  {
    if es == [] then [] else [es[|es| - 1]] + Descending(es[..|es| - 1])
  }

  lemma DescendingIds(es: seq<Employee>)
    requires IdsAscending(es)
    ensures var r := Descending(es); forall i, j :: 0 <= i < j < |r| ==> r[i].id > r[j].id
  {
  }

  /** `UPDATE employees SET name, extra_data WHERE id`. */
  function Updated(es: seq<Employee>, id: nat, name: string, extra: map<string, string>): (r: seq<Employee>)
    ensures |r| == |es|
    ensures forall i :: 0 <= i < |es| ==> r[i].id == es[i].id
    ensures forall i :: 0 <= i < |es| && es[i].id != id ==> r[i] == es[i]
    ensures forall i :: 0 <= i < |es| && es[i].id == id ==> r[i].name == name && r[i].extra == extra
  {
    if es == [] then []
    else [if es[0].id == id then Employee(id, name, extra) else es[0]] + Updated(es[1..], id, name, extra)
  }

  /** The join rows of one employee with the matching records: one per
      record, or a single row with a null `punch_time`. `is_punched` is
      `!!punch_time`, so a timestamp of 0 reads as not punched. */
  function JoinRows(e: Employee, ms: seq<Record>): (r: seq<Status>)
    ensures |r| == if ms == [] then 1 else |ms|
  {
    if ms == [] then [Status(e, false)] else StatusRows(e, ms)
  }

  function StatusRows(e: Employee, ms: seq<Record>): (r: seq<Status>)
    ensures |r| == |ms|
  {
    if ms == [] then [] else [Status(e, ms[0].timestamp != 0)] + StatusRows(e, ms[1..])
  }

  /** `getEmployeesWithStatus`: `employees LEFT JOIN records` on the
      employee and the day, `ORDER BY id DESC`. */
  function EmployeesWithStatus(es: seq<Employee>, rs: seq<Record>, today: Day): seq<Status> {
    if es == [] then []
    else
      var e := es[|es| - 1];
      JoinRows(e, Filter(rs, KeyIs(e.id, today))) + EmployeesWithStatus(es[..|es| - 1], rs, today)
  }

  /** The employee has a record for the day with a non-zero timestamp. */
  predicate PunchedOn(rs: seq<Record>, empId: nat, day: Day) {
    exists r :: r in rs && IsKey(r, empId, day) && r.timestamp != 0
  }

  /** With unique keys the join row of an employee is unique. */
  lemma {:induction false} MatchingAtMostOne(rs: seq<Record>, empId: nat, day: Day)
    requires UniqueKeys(rs)
    ensures var ms := Filter(rs, KeyIs(empId, day));
            && |ms| <= 1
            && (ms == [] <==> !HasRecord(rs, empId, day))
            && (ms != [] ==> (ms[0].timestamp != 0 <==> PunchedOn(rs, empId, day)))
  {
    var ms := Filter(rs, KeyIs(empId, day));
    if rs != [] {
      UniqueTail(rs);
      MatchingAtMostOne(rs[1..], empId, day);
      var t := Filter(rs[1..], KeyIs(empId, day));
      if IsKey(rs[0], empId, day) {
        assert ms == [rs[0]];
        assert forall x :: x in rs ==> x == rs[0] || x in rs[1..];
      } else {
        assert ms == t;
        assert forall x :: x in rs[1..] ==> x in rs;
        assert forall x :: x in rs && x != rs[0] ==> x in rs[1..];
      }
    }
  }

  /** `getEmployeesWithStatus` has one row per employee, ordered by id
      descending, and `is_punched` holds exactly when the employee has a
      record for today with a non-zero timestamp. */
  lemma {:induction false} StatusOfEach(es: seq<Employee>, rs: seq<Record>, today: Day)
    requires UniqueKeys(rs)
    ensures var r := EmployeesWithStatus(es, rs, today);
            && |r| == |es|
            && forall i :: 0 <= i < |es| ==>
                 r[i] == Status(es[|es| - 1 - i], PunchedOn(rs, es[|es| - 1 - i].id, today))
  {
    if es != [] {
      var e := es[|es| - 1];
      var init := es[..|es| - 1];
      var rest := EmployeesWithStatus(init, rs, today);
      assert |rest| == |init| && forall i :: 0 <= i < |init| ==>
               rest[i] == Status(init[|init| - 1 - i], PunchedOn(rs, init[|init| - 1 - i].id, today)) by {
        StatusOfEach(init, rs, today);
      }
      var head := JoinRows(e, Filter(rs, KeyIs(e.id, today)));
      assert head == [Status(e, PunchedOn(rs, e.id, today))] by {
        MatchingAtMostOne(rs, e.id, today);
      }
      var r := EmployeesWithStatus(es, rs, today);
      assert r == head + rest;
      forall i | 0 <= i < |es| ensures r[i] == Status(es[|es| - 1 - i], PunchedOn(rs, es[|es| - 1 - i].id, today)) {
        if i > 0 {
          assert r[i] == rest[i - 1];
          assert init[|init| - 1 - (i - 1)] == es[|es| - 1 - i];
        }
      }
    }
  }

  /** When every timestamp is non-zero, `is_punched` is "has a record". */
  lemma PunchedOnIffRecord(rs: seq<Record>, empId: nat, day: Day)
    requires forall r :: r in rs ==> r.timestamp != 0
    ensures PunchedOn(rs, empId, day) <==> HasRecord(rs, empId, day)
  {
  }

  // ---------------------------------------------------------------------
  // The database
  // ---------------------------------------------------------------------

  class Store {
    /** `employees`, in insertion order. */
    var employees: seq<Employee>
    /** The next `AUTOINCREMENT` id. */
    var nextId: nat
    /** `records`, in insertion order. */
    var records: seq<Record>
    /** The `custom_fields` row of `settings`, if stored. */
    var customFields: Option<seq<string>>

    predicate Valid()
      reads this
    {
      && IdsAscending(employees)
      && nextId >= 1
      && (forall e :: e in employees ==> 0 < e.id < nextId)
      && UniqueKeys(records)
    }

    /** `initDB` on a new database file: three empty tables. */
    constructor()
      ensures Valid()
      ensures employees == [] && records == [] && customFields == None && nextId == 1
    {
      employees := [];
      nextId := 1;
      records := [];
      customFields := None;
    }

    /** `getCustomFields`: the stored list, or `[]` when none is stored. */
    method GetCustomFields() returns (fields: seq<string>)
      ensures customFields.None? ==> fields == []
      ensures customFields.Some? ==> fields == customFields.value
    {
      fields := if customFields.Some? then customFields.value else [];
    }

    /** `saveCustomFields` (`INSERT OR REPLACE`): a later
        `GetCustomFields` returns exactly `fields`. */
    method SaveCustomFields(fields: seq<string>)
      requires Valid()
      modifies this
      ensures Valid()
      ensures customFields == Some(fields)
      ensures employees == old(employees) && records == old(records) && nextId == old(nextId)
    {
      customFields := Some(fields);
    }

    /** `addEmployee`: a new row with the next id. */
    method AddEmployee(name: string, extra: map<string, string>) returns (ok: bool)
      requires Valid()
      modifies this
      ensures Valid() && ok
      ensures employees == old(employees) + [Employee(old(nextId), name, extra)]
      ensures nextId == old(nextId) + 1
      ensures records == old(records) && customFields == old(customFields)
    {
      employees := employees + [Employee(nextId, name, extra)];
      nextId := nextId + 1;
      ok := true;
    }

    /** `updateEmployee`: renames the row with this id; no row, no change. */
    method UpdateEmployee(id: nat, name: string, extra: map<string, string>) returns (ok: bool)
      requires Valid()
      modifies this
      ensures Valid() && ok
      ensures employees == Updated(old(employees), id, name, extra)
      ensures records == old(records) && nextId == old(nextId) && customFields == old(customFields)
    {
      employees := Updated(employees, id, name, extra);
      ok := true;
    }

    /** `deleteEmployee`: the employee and all of their records. */
    method DeleteEmployee(id: nat)
      requires Valid()
      modifies this
      ensures Valid()
      ensures employees == Filter(old(employees), IdIsNot(id))
      ensures records == Filter(old(records), EmpIsNot(id))
      ensures forall e :: e in employees <==> e in old(employees) && e.id != id
      ensures forall r :: r in records <==> r in old(records) && r.empId != id
      ensures nextId == old(nextId) && customFields == old(customFields)
    {
      FilterKeepsAscending(employees, IdIsNot(id));
      FilterKeepsUnique(records, EmpIsNot(id));
      employees := Filter(employees, IdIsNot(id));
      records := Filter(records, EmpIsNot(id));
    }

    /** `getEmployees`: all rows by id descending. */
    method GetEmployees() returns (r: seq<Employee>)
      requires Valid()
      ensures r == Descending(employees)
      ensures forall i, j :: 0 <= i < j < |r| ==> r[i].id > r[j].id
    {
      r := Descending(employees);
      DescendingIds(employees);
    }

    /** `getEmployeesWithStatus`: one row per employee, newest first, with
        `is_punched` exactly when today has a record with a non-zero
        timestamp. */
    method GetEmployeesWithStatus(today: Day) returns (r: seq<Status>)
      requires Valid()
      ensures r == EmployeesWithStatus(employees, records, today)
      ensures |r| == |employees|
      ensures forall i :: 0 <= i < |r| ==> r[i].employee == employees[|employees| - 1 - i]
      ensures forall i :: 0 <= i < |r| ==> (r[i].isPunched <==> PunchedOn(records, r[i].employee.id, today))
    {
      StatusOfEach(employees, records, today);
      r := EmployeesWithStatus(employees, records, today);
    }

    /** `togglePunch` for `today`, stamping an insert with `now`. */
    method TogglePunch(empId: nat, today: Day, now: int)
      requires Valid()
      modifies this
      ensures Valid()
      ensures records == Toggle(old(records), empId, today, now)
      ensures employees == old(employees) && nextId == old(nextId) && customFields == old(customFields)
    {
      var existing := HasRecord(records, empId, today);
      ToggleKeepsUnique(records, empId, today, now);
      if existing {
        records := Filter(records, KeyIsNot(empId, today));
      } else {
        records := records + [Record(empId, today, now)];
      }
    }

    /** `punchSpecificDate`: a back-filled record, ignored when the day
        already has one; `timestamp` is 09:00 of that day. */
    method PunchSpecificDate(empId: nat, day: Day, timestamp: int)
      requires Valid()
      modifies this
      ensures Valid()
      ensures records == InsertOrIgnore(old(records), Record(empId, day, timestamp))
      ensures employees == old(employees) && nextId == old(nextId) && customFields == old(customFields)
    {
      InsertOrIgnoreKeepsUnique(records, Record(empId, day, timestamp));
      records := InsertOrIgnore(records, Record(empId, day, timestamp));
    }

    /** `punchAllEmployees`: an `INSERT OR IGNORE` for every employee. */
    method PunchAllEmployees(today: Day, now: int)
      requires Valid()
      modifies this
      ensures Valid()
      ensures records == PunchAll(old(records), Ids(employees), today, now)
      ensures employees == old(employees) && nextId == old(nextId) && customFields == old(customFields)
    {
      records := InsertEach(records, Ids(employees), today, now);
    }

    /** `getRawRecords(start, end)`: `BETWEEN` includes both bounds. */
    method GetRawRecords(start: Day, end: Day) returns (r: seq<Punch>)
      requires Valid()
      ensures r == RawRecords(records, start, end)
      ensures forall p :: p in r <==> start <= p.day <= end && HasRecord(records, p.empId, p.day)
      ensures Distinct(r)
    {
      RawRecordsDistinct(records, start, end);
      r := RawRecords(records, start, end);
    }
  }

  /** Deleting rows keeps ids ascending. */
  lemma {:induction false} FilterKeepsAscending(es: seq<Employee>, keep: Employee -> bool)
    requires IdsAscending(es)
    ensures IdsAscending(Filter(es, keep))
  {
    if es != [] {
      var t := Filter(es[1..], keep);
      FilterKeepsAscending(es[1..], keep);
      if keep(es[0]) {
        var r := [es[0]] + t;
        forall i, j | 0 <= i < j < |r| ensures r[i].id < r[j].id {
          assert r[j] == t[j - 1] && t[j - 1] in t;
          var k :| 0 <= k < |es[1..]| && es[1..][k] == t[j - 1];
          assert es[k + 1] == r[j];
          if i > 0 {
            assert r[i] == t[i - 1];
          }
        }
      }
    }
  }
}
