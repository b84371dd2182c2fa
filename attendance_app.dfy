/** The logic of the attendance screens above the database: the date
    range of the statistics view, per-employee statistics, the local update
    after a back-filled punch, the CSV export, the search filters and
    sorts, the custom-field list and the local punch flip. The date
    picker's text, `dayjs` formatting and the locale-aware name comparison
    are parameters. */
module AttendanceApp {
  import opened Common
  import opened Sorting
  import opened AttendanceDb

  // ---------------------------------------------------------------------
  // Date ranges
  // ---------------------------------------------------------------------

  /** The days from `start` to `end`, both included. */
  function DayRange(start: Day, end: Day): (r: seq<Day>)
    ensures |r| == if start <= end then end - start + 1 else 0
    ensures forall i :: 0 <= i < |r| ==> r[i] == start + i
    decreases if start <= end then end - start + 1 else 0
  {
    if start > end then [] else [start] + DayRange(start + 1, end)
  }

  /** `getDatesInRange`: steps one day at a time from `start` while not
      past `end`. */
  method DatesInRange(start: Day, end: Day) returns (dates: seq<Day>)
    ensures |dates| == if start <= end then end - start + 1 else 0
    ensures forall i :: 0 <= i < |dates| ==> dates[i] == start + i
    ensures dates == DayRange(start, end)
  {
    dates := [];
    var curr := start;
    while curr <= end
      invariant start <= curr && (curr <= end + 1 || curr == start)
      invariant |dates| == curr - start
      invariant forall i :: 0 <= i < |dates| ==> dates[i] == start + i
      decreases end - curr
    {
      dates := dates + [curr];
      curr := curr + 1;
    }
  }

  lemma DayRangeDistinct(start: Day, end: Day)
    ensures Distinct(DayRange(start, end))
  {
  }

  // ---------------------------------------------------------------------
  // Statistics
  // ---------------------------------------------------------------------

  /** A row of the statistics table. The counts are JavaScript numbers;
      the local update can take `absentCount` below zero. */
  datatype StatRow = StatRow(employee: Employee, presentCount: int, absentCount: int, missedDates: seq<Day>)

  /** `rawRecords.filter(r => r.emp_id === id).map(r => r.date_str)`. */
  function PunchedDates(raw: seq<Punch>, id: nat): (r: seq<Day>)
    ensures |r| <= |raw|
    ensures forall d :: d in r <==> Punch(id, d) in raw
  {
    if raw == [] then []
    else
      assert forall p :: p in raw <==> p == raw[0] || p in raw[1..];
      (if raw[0].empId == id then [raw[0].day] else []) + PunchedDates(raw[1..], id)
  }

  function NotIn(ds: seq<Day>): Day -> bool {
    (d: Day) => d !in ds
  }

  function NotDay(d: Day): Day -> bool {
    (x: Day) => x != d
  }

  /** One employee's row of `calculateStats`. */
  function StatOf(e: Employee, dates: seq<Day>, raw: seq<Punch>): (r: StatRow)
    ensures r.employee == e
    ensures r.presentCount == |PunchedDates(raw, e.id)|
    ensures r.absentCount == |r.missedDates|
    ensures forall d :: d in r.missedDates <==> d in dates && Punch(e.id, d) !in raw
    ensures SubsequenceOf(r.missedDates, dates)
  {
    var punched := PunchedDates(raw, e.id);
    var missed := Filter(dates, NotIn(punched));
    FilterSubsequence(dates, NotIn(punched));
    StatRow(e, |punched|, |missed|, missed)
  }

  /** `calculateStats`: one row per employee, in the order given. */
  function CalculateStats(es: seq<Employee>, dates: seq<Day>, raw: seq<Punch>): (r: seq<StatRow>)
    ensures |r| == |es|
    ensures forall i :: 0 <= i < |es| ==> r[i].employee == es[i]
  {
    seq(|es|, i requires 0 <= i < |es| => StatOf(es[i], dates, raw))
  }

  /** The statistics the app computes from the database for the range
      `start..end`: employees by id descending, the range's days and the
      records inside the range. */
  function StatsOf(es: seq<Employee>, rs: seq<Record>, start: Day, end: Day): (r: seq<StatRow>)
    ensures |r| == |es|
    ensures forall i :: 0 <= i < |es| ==> r[i].employee == es[|es| - 1 - i]
  {
    CalculateStats(Descending(es), DayRange(start, end), RawRecords(rs, start, end))
  }

  /** The missed days of a range come in calendar order. */
  lemma MissedDatesAscending(e: Employee, start: Day, end: Day, raw: seq<Punch>)
    ensures var m := StatOf(e, DayRange(start, end), raw).missedDates;
            forall i, j :: 0 <= i < j < |m| ==> m[i] < m[j]
  {
    var dates := DayRange(start, end);
    assert forall i, j :: 0 <= i < j < |dates| ==> dates[i] < dates[j];
    SubsequenceIncreasing(StatOf(e, dates, raw).missedDates, dates);
  }

  /** Every row the app computes from the database: one per employee by id
      descending, present plus absent covering the range, and the missed
      days in calendar order. */
  lemma StatsOfRows(es: seq<Employee>, rs: seq<Record>, start: Day, end: Day)
    requires UniqueKeys(rs)
    ensures var r := StatsOf(es, rs, start, end);
            forall i :: 0 <= i < |r| ==>
              && r[i].employee == es[|es| - 1 - i]
              && r[i].presentCount + r[i].absentCount == |DayRange(start, end)|
              && (forall a, b :: 0 <= a < b < |r[i].missedDates| ==> r[i].missedDates[a] < r[i].missedDates[b])
  {
    var r := StatsOf(es, rs, start, end);
    forall i | 0 <= i < |r|
      ensures r[i].presentCount + r[i].absentCount == |DayRange(start, end)|
      ensures forall a, b :: 0 <= a < b < |r[i].missedDates| ==> r[i].missedDates[a] < r[i].missedDates[b]
    {
      var e := es[|es| - 1 - i];
      assert r[i] == StatOf(e, DayRange(start, end), RawRecords(rs, start, end));
      PresentPlusAbsent(e, rs, start, end);
      MissedDatesAscending(e, start, end, RawRecords(rs, start, end));
    }
  }

  lemma {:induction false} PunchedDatesDistinct(raw: seq<Punch>, id: nat)
    requires Distinct(raw)
    ensures Distinct(PunchedDates(raw, id))
  {
    if raw != [] {
      DistinctTail(raw);
      PunchedDatesDistinct(raw[1..], id);
      var t := PunchedDates(raw[1..], id);
      if raw[0].empId == id {
        var r := [raw[0].day] + t;
        forall i, j | 0 <= i < j < |r| ensures r[i] != r[j] {
          assert r[j] == t[j - 1] && t[j - 1] in t;
          if i > 0 {
            assert r[i] == t[i - 1];
          }
        }
      }
    }
  }

  /** The punched days of a distinct list that lies inside `dates` plus
      the days of `dates` left over make up all of `dates`. */
  lemma CountsSplitRange(dates: seq<Day>, punched: seq<Day>)
    requires Distinct(dates) && Distinct(punched)
    requires forall d :: d in punched ==> d in dates
    ensures |punched| + |Filter(dates, NotIn(punched))| == |dates|
  {
    var missed := Filter(dates, NotIn(punched));
    FilterDistinct(dates, NotIn(punched));
    DistinctCard(dates);
    DistinctCard(punched);
    DistinctCard(missed);
    assert Elems(missed) == Elems(dates) - Elems(punched);
    assert Elems(punched) <= Elems(dates);
  }

  /** For every employee, the days present and the days absent add up to
      the length of the range: each record in the range counts once. */
  lemma PresentPlusAbsent(e: Employee, rs: seq<Record>, start: Day, end: Day)
    requires UniqueKeys(rs)
    ensures var s := StatOf(e, DayRange(start, end), RawRecords(rs, start, end));
            s.presentCount + s.absentCount == |DayRange(start, end)|
  {
    var dates := DayRange(start, end);
    var raw := RawRecords(rs, start, end);
    RawRecordsDistinct(rs, start, end);
    PunchedDatesDistinct(raw, e.id);
    var punched := PunchedDates(raw, e.id);
    forall d | d in punched ensures d in dates {
      assert Punch(e.id, d) in raw;
      assert dates[d - start] == d;
    }
    CountsSplitRange(dates, punched);
  }

  /** The local update after a back-filled punch on `d`
      (`triggerRetroactivePunch`). */
  function Retro(s: StatRow, d: Day): (r: StatRow)
    ensures r.employee == s.employee
    ensures r.presentCount + r.absentCount == s.presentCount + s.absentCount
    ensures d !in r.missedDates
    ensures forall x :: x != d ==> (x in r.missedDates <==> x in s.missedDates)
  {
    s.(absentCount := s.absentCount - 1,
       presentCount := s.presentCount + 1,
       missedDates := Filter(s.missedDates, NotDay(d)))
  }

  lemma {:induction false} RawRecordsAppend(rs: seq<Record>, rec: Record, start: Day, end: Day)
    requires start <= rec.day <= end
    ensures RawRecords(rs + [rec], start, end) == RawRecords(rs, start, end) + [Punch(rec.empId, rec.day)]
  {
    if rs == [] {
      assert [rec][1..] == [];
    } else {
      assert (rs + [rec])[1..] == rs[1..] + [rec];
      RawRecordsAppend(rs[1..], rec, start, end);
    }
  }

  lemma {:induction false} PunchedDatesAppend(raw: seq<Punch>, id: nat, d: Day)
    ensures PunchedDates(raw + [Punch(id, d)], id) == PunchedDates(raw, id) + [d]
  {
    if raw == [] {
      assert [Punch(id, d)][1..] == [];
    } else {
      assert (raw + [Punch(id, d)])[1..] == raw[1..] + [Punch(id, d)];
      PunchedDatesAppend(raw[1..], id, d);
    }
  }

  lemma {:induction false} FilterNotInSnoc(s: seq<Day>, p: seq<Day>, d: Day)
    ensures Filter(s, NotIn(p + [d])) == Filter(Filter(s, NotIn(p)), NotDay(d))
  {
    if s != [] {
      FilterNotInSnoc(s[1..], p, d);
    }
  }

  /** The local update agrees with recomputing the statistics after
      `punchSpecificDate`, for a missed day of the range. */
  lemma RetroMatchesRecompute(e: Employee, rs: seq<Record>, start: Day, end: Day, d: Day, t: int)
    requires UniqueKeys(rs)
    requires d in StatOf(e, DayRange(start, end), RawRecords(rs, start, end)).missedDates
    ensures Retro(StatOf(e, DayRange(start, end), RawRecords(rs, start, end)), d)
            == StatOf(e, DayRange(start, end), RawRecords(InsertOrIgnore(rs, Record(e.id, d, t)), start, end))
  {
    RetroOfStat(e, DayRange(start, end), RawRecords(rs, start, end), d);
    StatAfterInsert(e, rs, start, end, d, t);
  }

  /** The local update of a row: one more present day, one missed day
      fewer. */
  lemma RetroOfStat(e: Employee, dates: seq<Day>, raw: seq<Punch>, d: Day)
    ensures var punched := PunchedDates(raw, e.id);
            var missed := Filter(dates, NotIn(punched));
            Retro(StatOf(e, dates, raw), d) == StatRow(e, |punched| + 1, |missed| - 1, Filter(missed, NotDay(d)))
  {
  }

  /** Recomputed after the insert, the row has one more present day and
      one missed day fewer. */
  lemma StatAfterInsert(e: Employee, rs: seq<Record>, start: Day, end: Day, d: Day, t: int)
    requires d in StatOf(e, DayRange(start, end), RawRecords(rs, start, end)).missedDates
    ensures var dates := DayRange(start, end);
            var punched := PunchedDates(RawRecords(rs, start, end), e.id);
            var missed := Filter(dates, NotIn(punched));
            StatOf(e, dates, RawRecords(InsertOrIgnore(rs, Record(e.id, d, t)), start, end))
            == StatRow(e, |punched| + 1, |missed| - 1, Filter(missed, NotDay(d)))
  {
    var dates := DayRange(start, end);
    var raw := RawRecords(rs, start, end);
    var punched := PunchedDates(raw, e.id);
    var missed := Filter(dates, NotIn(punched));
    MissedDay(e, rs, start, end, d);
    var raw' := RawRecords(InsertOrIgnore(rs, Record(e.id, d, t)), start, end);
    assert PunchedDates(raw', e.id) == punched + [d] by {
      PunchedAfterInsert(rs, e.id, d, t, start, end);
    }
    assert |Filter(missed, NotDay(d))| == |missed| - 1 && Filter(dates, NotIn(punched + [d])) == Filter(missed, NotDay(d)) by {
      MissedLosesDay(dates, punched, d);
    }
  }

  /** A missed day lies in the range and has no record. */
  lemma MissedDay(e: Employee, rs: seq<Record>, start: Day, end: Day, d: Day)
    requires d in StatOf(e, DayRange(start, end), RawRecords(rs, start, end)).missedDates
    ensures start <= d <= end && !HasRecord(rs, e.id, d)
    ensures d in DayRange(start, end) && Distinct(DayRange(start, end))
    ensures d !in PunchedDates(RawRecords(rs, start, end), e.id)
  {
    var dates := DayRange(start, end);
    assert d in dates && Punch(e.id, d) !in RawRecords(rs, start, end);
    assert dates[d - start] == d;
  }

  /** Inserting a day's first record for an employee within the range adds
      that day to the employee's punched days. */
  lemma PunchedAfterInsert(rs: seq<Record>, id: nat, d: Day, t: int, start: Day, end: Day)
    requires start <= d <= end && !HasRecord(rs, id, d)
    ensures PunchedDates(RawRecords(InsertOrIgnore(rs, Record(id, d, t)), start, end), id)
            == PunchedDates(RawRecords(rs, start, end), id) + [d]
  {
    var rec := Record(id, d, t);
    var raw := RawRecords(rs, start, end);
    assert InsertOrIgnore(rs, rec) == rs + [rec];
    assert RawRecords(rs + [rec], start, end) == raw + [Punch(id, d)] by {
      RawRecordsAppend(rs, rec, start, end);
    }
    PunchedDatesAppend(raw, id, d);
  }

  /** Marking a missed day as punched removes exactly that day from the
      missed days. */
  lemma MissedLosesDay(dates: seq<Day>, punched: seq<Day>, d: Day)
    requires Distinct(dates) && d in dates && d !in punched
    ensures var missed := Filter(dates, NotIn(punched));
            && |Filter(missed, NotDay(d))| == |missed| - 1
            && Filter(dates, NotIn(punched + [d])) == Filter(missed, NotDay(d))
  {
    var missed := Filter(dates, NotIn(punched));
    FilterNotInSnoc(dates, punched, d);
    FilterDistinct(dates, NotIn(punched));
    assert d in missed;
    FilterOutOne(missed, d, NotDay(d));
  }

  // ---------------------------------------------------------------------
  // CSV export
  // ---------------------------------------------------------------------

  /** A CSV cell: text written between double quotes, or written as is. */
  datatype Cell = Quoted(text: string) | Bare(text: string)

  /** `item.extra_data[f] || ''`. */
  function ExtraValue(extra: map<string, string>, f: string): string {
    if f in extra then extra[f] else ""
  }


  /** `missedDates.join("; ")`, each day in its `YYYY-MM-DD` text. */
  function MissedText(missed: seq<Day>, format: Day -> string): string {
    Join(seq(|missed|, i requires 0 <= i < |missed| => format(missed[i])), "; ")
  }

  /** The header: the name, the custom fields in order, then the present,
      absent and missed-dates columns. */
  function HeaderTexts(fields: seq<string>): (r: seq<string>)
    ensures |r| == |fields| + 4
  {
    ["姓名"] + fields + ["出勤天数", "缺勤天数", "缺勤日期明细"]
  }

  /** The cells of one statistics row, in header order. */
  function RowCells(s: StatRow, fields: seq<string>, format: Day -> string): (r: seq<Cell>)
    ensures |r| == |fields| + 4
  {
    [Quoted(s.employee.name)]
    + seq(|fields|, i requires 0 <= i < |fields| => Quoted(ExtraValue(s.employee.extra, fields[i])))
    + [Bare(IntText(s.presentCount)), Bare(IntText(s.absentCount)), Quoted(MissedText(s.missedDates, format))]
  }

  function Texts(cells: seq<Cell>): (r: seq<string>)
    ensures |r| == |cells| && forall i :: 0 <= i < |cells| ==> r[i] == cells[i].text
  {
    if cells == [] then [] else [cells[0].text] + Texts(cells[1..])
  }

  function BareCells(texts: seq<string>): (r: seq<Cell>)
    ensures Texts(r) == texts
  {
    seq(|texts|, i requires 0 <= i < |texts| => Bare(texts[i]))
  }

  function QuotedCells(texts: seq<string>): (r: seq<Cell>)
    ensures Texts(r) == texts
  {
    seq(|texts|, i requires 0 <= i < |texts| => Quoted(texts[i]))
  }

  /** Each quote inside a quoted field doubled (section 2 of RFC 4180). */
  function EscapeQuotes(s: string): (r: string)
    ensures |r| >= |s|
  {
    if s == [] then [] else (if s[0] == '"' then "\"\"" else [s[0]]) + EscapeQuotes(s[1..])
  }

  /** A cell as `exportToCSV` writes it: `"${text}"` with no escaping. */
  function CellAsWritten(c: Cell): string {
    match c
    case Quoted(t) => "\"" + t + "\""
    case Bare(t) => t
  }

  /** A cell with its quotes doubled, as RFC 4180 requires. */
  function CellText(c: Cell): string {
    match c
    case Quoted(t) => "\"" + EscapeQuotes(t) + "\""
    case Bare(t) => t
  }

  function LineAsWritten(cells: seq<Cell>): string {
    if cells == [] then []
    else if |cells| == 1 then CellAsWritten(cells[0])
    else CellAsWritten(cells[0]) + "," + LineAsWritten(cells[1..])
  }

  /** Cells joined with commas. */
  function Line(cells: seq<Cell>): string {
    if cells == [] then []
    else if |cells| == 1 then CellText(cells[0])
    else CellText(cells[0]) + "," + Line(cells[1..])
  }

  /** The cell rows of the statistics, in order. */
  function TableCells(stats: seq<StatRow>, fields: seq<string>, format: Day -> string): (r: seq<seq<Cell>>)
    ensures |r| == |stats| && forall i :: 0 <= i < |stats| ==> r[i] == RowCells(stats[i], fields, format)
  {
    if stats == [] then [] else [RowCells(stats[0], fields, format)] + TableCells(stats[1..], fields, format)
  }

  function LinesAsWritten(rows: seq<seq<Cell>>): (r: seq<string>)
    ensures |r| == |rows| && forall i :: 0 <= i < |rows| ==> r[i] == LineAsWritten(rows[i])
  {
    if rows == [] then [] else [LineAsWritten(rows[0])] + LinesAsWritten(rows[1..])
  }

  function LinesOf(rows: seq<seq<Cell>>): (r: seq<string>)
    ensures |r| == |rows| && forall i :: 0 <= i < |rows| ==> r[i] == Line(rows[i])
  {
    if rows == [] then [] else [Line(rows[0])] + LinesOf(rows[1..])
  }

  /** `exportToCSV` as written: a byte-order mark, then the unquoted
      header and one line per row joined with line breaks; refused when
      there are no statistics. */
  function ExportCsvAsWritten(stats: seq<StatRow>, fields: seq<string>, format: Day -> string): (r: Option<string>)
    ensures r.None? <==> stats == []
  {
    if stats == [] then None
    else Some("\U{FEFF}" + Join(LinesAsWritten([BareCells(HeaderTexts(fields))] + TableCells(stats, fields, format)), "\n"))
  }

  /** The export with every text cell, the header included, quoted and
      its quotes doubled. */
  function ExportCsv(stats: seq<StatRow>, fields: seq<string>, format: Day -> string): (r: Option<string>)
    ensures r.None? <==> stats == []
    ensures r.Some? ==> |r.value| > 0 && r.value[0] == '\U{FEFF}'
  {
    if stats == [] then None
    else Some("\U{FEFF}" + Join(LinesOf([QuotedCells(HeaderTexts(fields))] + TableCells(stats, fields, format)), "\n"))
  }

  // --- Reading CSV text back (section 2 of RFC 4180, line feed as the
  //     record separator, no final line break) ---

  function ConsField(c: char, r: Option<(string, string)>): (r': Option<(string, string)>)
    ensures r.None? <==> r'.None?
    ensures r.Some? ==> r'.value == ([c] + r.value.0, r.value.1)
  {
    match r
    case None => None
    case Some((f, rest)) => Some(([c] + f, rest))
  }

  /** The rest of a quoted field after its opening quote: `""` is one
      quote and a single `"` closes the field. */
  function ReadQuoted(s: string): (r: Option<(string, string)>)
    ensures r.Some? ==> |r.value.1| < |s|
  {
    if s == [] then None
    else if s[0] == '"' then
      if |s| > 1 && s[1] == '"' then ConsField('"', ReadQuoted(s[2..])) else Some(([], s[1..]))
    else ConsField(s[0], ReadQuoted(s[1..]))
  }

  /** An unquoted field: everything up to a comma, a line break or the
      end. A quote inside it is malformed. */
  function ReadBare(s: string): (r: Option<(string, string)>)
    ensures r.Some? ==> |r.value.1| <= |s|
  {
    if s == [] || s[0] == ',' || s[0] == '\n' then Some(([], s))
    else if s[0] == '"' then None
    else ConsField(s[0], ReadBare(s[1..]))
  }

  function ReadField(s: string): (r: Option<(string, string)>)
    ensures r.Some? ==> |r.value.1| <= |s|
  {
    if s != [] && s[0] == '"' then ReadQuoted(s[1..]) else ReadBare(s)
  }

  /** One record: fields separated by commas, up to a line break or the
      end. */
  function ReadRecord(s: string): (r: Option<(seq<string>, string)>)
    ensures r.Some? ==> |r.value.1| <= |s| && (r.value.1 == [] || r.value.1[0] == '\n')
    decreases |s|
  {
    match ReadField(s)
    case None => None
    case Some((f, rest)) =>
      if rest == [] || rest[0] == '\n' then Some(([f], rest))
      else if rest[0] != ',' then None
      else
        match ReadRecord(rest[1..])
        case None => None
        case Some((fs, rest2)) => Some(([f] + fs, rest2))
  }

  /** A whole document: records separated by line breaks. */
  function ReadCsv(s: string): Option<seq<seq<string>>>
    decreases |s|
  {
    match ReadRecord(s)
    case None => None
    case Some((rec, rest)) =>
      if rest == [] then Some([rec])
      else
        match ReadCsv(rest[1..])
        case None => None
        case Some(recs) => Some([rec] + recs)
  }

  /** A text that can stand unquoted. */
  predicate PlainText(t: string) {
    forall i :: 0 <= i < |t| ==> t[i] != ',' && t[i] != '\n' && t[i] != '"'
  }

  predicate SafeCells(cells: seq<Cell>) {
    forall i :: 0 <= i < |cells| ==> cells[i].Bare? ==> PlainText(cells[i].text)
  }

  /** What may follow a field. */
  predicate FieldEnd(tail: string) {
    tail == [] || tail[0] == ',' || tail[0] == '\n'
  }

  lemma {:induction false} ReadQuotedEscaped(t: string, tail: string)
    requires FieldEnd(tail)
    ensures ReadQuoted(EscapeQuotes(t) + "\"" + tail) == Some((t, tail))
  {
    var s := EscapeQuotes(t) + "\"" + tail;
    if t == [] {
      assert s == "\"" + tail && s[1..] == tail;
    } else {
      var x := EscapeQuotes(t[1..]) + "\"" + tail;
      assert ReadQuoted(x) == Some((t[1..], tail)) by {
        ReadQuotedEscaped(t[1..], tail);
      }
      var piece := if t[0] == '"' then "\"\"" else [t[0]];
      assert EscapeQuotes(t) == piece + EscapeQuotes(t[1..]);
      assert s == piece + x;
      assert t == [t[0]] + t[1..];
      if t[0] == '"' {
        assert s[0] == '"' && s[1] == '"' && s[2..] == x;
      } else {
        assert s[0] == t[0] && s[1..] == x;
      }
    }
  }

  lemma {:induction false} ReadBarePlain(t: string, tail: string)
    requires PlainText(t) && FieldEnd(tail)
    ensures ReadBare(t + tail) == Some((t, tail))
  {
    if t == [] {
      assert t + tail == tail;
    } else {
      assert PlainText(t[1..]) by {
        forall i | 0 <= i < |t[1..]| ensures t[1..][i] != ',' && t[1..][i] != '\n' && t[1..][i] != '"' {
          assert t[1..][i] == t[i + 1];
        }
      }
      assert (t + tail)[0] == t[0] && (t + tail)[1..] == t[1..] + tail;
      ReadBarePlain(t[1..], tail);
      assert t == [t[0]] + t[1..];
    }
  }

  lemma ReadFieldCell(c: Cell, tail: string)
    requires c.Bare? ==> PlainText(c.text)
    requires FieldEnd(tail)
    ensures ReadField(CellText(c) + tail) == Some((c.text, tail))
  {
    match c
    case Quoted(t) =>
      assert CellText(c) + tail == "\"" + (EscapeQuotes(t) + "\"" + tail);
      ReadQuotedEscaped(t, tail);
    case Bare(t) =>
      ReadBarePlain(t, tail);
  }

  lemma ReadRecordEnd(s: string, f: string, rest: string)
    requires ReadField(s) == Some((f, rest)) && (rest == [] || rest[0] == '\n')
    ensures ReadRecord(s) == Some(([f], rest))
  {
  }

  /** A field followed by a comma and a record that reads back. */
  lemma ReadRecordComma(h: string, f: string, more: string, fs: seq<string>, tail: string)
    requires ReadField(h + ("," + more)) == Some((f, "," + more))
    requires ReadRecord(more) == Some((fs, tail))
    ensures ReadRecord(h + ("," + more)) == Some(([f] + fs, tail))
  {
    assert ("," + more)[1..] == more;
  }

  lemma SafeCellsTail(cells: seq<Cell>)
    requires cells != [] && SafeCells(cells)
    ensures SafeCells(cells[1..]) && (cells[0].Bare? ==> PlainText(cells[0].text))
  {
    forall i | 0 <= i < |cells[1..]| ensures cells[1..][i].Bare? ==> PlainText(cells[1..][i].text) {
      assert cells[1..][i] == cells[i + 1];
    }
  }

  lemma LineCons(c: Cell, cells: seq<Cell>, tail: string)
    requires cells != []
    ensures Line([c] + cells) + tail == CellText(c) + ("," + (Line(cells) + tail))
  {
    assert ([c] + cells)[1..] == cells;
  }

  /** One more cell in front of a line that reads back. */
  lemma ReadRecordCons(c: Cell, cells: seq<Cell>, tail: string)
    requires c.Bare? ==> PlainText(c.text)
    requires cells != [] && ReadRecord(Line(cells) + tail) == Some((Texts(cells), tail))
    ensures ReadRecord(Line([c] + cells) + tail) == Some((Texts([c] + cells), tail))
  {
    var more := Line(cells) + tail;
    LineCons(c, cells, tail);
    ReadFieldCell(c, "," + more);
    ReadRecordComma(CellText(c), c.text, more, Texts(cells), tail);
    assert ([c] + cells)[1..] == cells;
  }

  /** Reading a written line gives back its cells' texts. */
  lemma {:induction false} ReadRecordLine(cells: seq<Cell>, tail: string)
    requires cells != [] && SafeCells(cells)
    requires tail == [] || tail[0] == '\n'
    ensures ReadRecord(Line(cells) + tail) == Some((Texts(cells), tail))
  {
    SafeCellsTail(cells);
    if |cells| == 1 {
      ReadFieldCell(cells[0], tail);
      ReadRecordEnd(Line(cells) + tail, cells[0].text, tail);
      assert Texts(cells) == [cells[0].text];
    } else {
      ReadRecordLine(cells[1..], tail);
      ReadRecordCons(cells[0], cells[1..], tail);
      assert [cells[0]] + cells[1..] == cells;
    }
  }

  lemma ReadCsvOne(line: string, rec: seq<string>)
    requires ReadRecord(line) == Some((rec, []))
    ensures ReadCsv(line) == Some([rec])
  {
  }

  lemma ReadCsvBreak(line: string, rec: seq<string>, rest: string, recs: Option<seq<seq<string>>>)
    requires ReadRecord(line + ("\n" + rest)) == Some((rec, "\n" + rest))
    requires ReadCsv(rest) == recs
    ensures ReadCsv(line + ("\n" + rest)) == if recs.Some? then Some([rec] + recs.value) else None
  {
    assert ("\n" + rest)[1..] == rest;
  }

  function TextsOf(rows: seq<seq<Cell>>): (r: seq<seq<string>>)
    ensures |r| == |rows| && forall i :: 0 <= i < |rows| ==> r[i] == Texts(rows[i])
  {
    if rows == [] then [] else [Texts(rows[0])] + TextsOf(rows[1..])
  }

  /** Every row has a cell and its bare cells can stand unquoted. */
  predicate SafeRows(rows: seq<seq<Cell>>) {
    forall i :: 0 <= i < |rows| ==> rows[i] != [] && SafeCells(rows[i])
  }

  lemma JoinCons(lines: seq<string>, sep: string)
    requires |lines| > 1
    ensures Join(lines, sep) == lines[0] + (sep + Join(lines[1..], sep))
  {
  }

  /** Reading a written document gives back every line's texts. */
  lemma {:induction false} ReadCsvRows(rows: seq<seq<Cell>>)
    requires rows != [] && SafeRows(rows)
    ensures ReadCsv(Join(LinesOf(rows), "\n")) == Some(TextsOf(rows))
  {
    if |rows| == 1 {
      ReadRecordLine(rows[0], []);
      assert Line(rows[0]) + [] == Line(rows[0]);
      ReadCsvOne(Line(rows[0]), Texts(rows[0]));
      assert LinesOf(rows) == [Line(rows[0])];
      assert TextsOf(rows) == [Texts(rows[0])];
    } else {
      var rest := Join(LinesOf(rows[1..]), "\n");
      assert SafeRows(rows[1..]) by {
        assert forall i :: 0 <= i < |rows[1..]| ==> rows[1..][i] == rows[i + 1];
      }
      ReadCsvRows(rows[1..]);
      ReadRecordLine(rows[0], "\n" + rest);
      ReadCsvBreak(Line(rows[0]), Texts(rows[0]), rest, Some(TextsOf(rows[1..])));
      JoinCons(LinesOf(rows), "\n");
      assert LinesOf(rows)[1..] == LinesOf(rows[1..]);
      assert TextsOf(rows) == [Texts(rows[0])] + TextsOf(rows[1..]);
    }
  }

  lemma IntTextPlain(n: int)
    ensures PlainText(IntText(n))
  {
    NatToStringDigits(if n < 0 then -n else n);
  }

  lemma RowCellsSafe(s: StatRow, fields: seq<string>, format: Day -> string)
    ensures SafeCells(RowCells(s, fields, format))
  {
    IntTextPlain(s.presentCount);
    IntTextPlain(s.absentCount);
  }

  /** The texts of one statistics row: the name, each custom value (empty
      when missing), the two counts and the missed days joined by `; `. */
  function RowTexts(s: StatRow, fields: seq<string>, format: Day -> string): (r: seq<string>)
    ensures r == Texts(RowCells(s, fields, format))
  {
    var r := [s.employee.name]
      + seq(|fields|, i requires 0 <= i < |fields| => ExtraValue(s.employee.extra, fields[i]))
      + [IntText(s.presentCount), IntText(s.absentCount), MissedText(s.missedDates, format)];
    var cells := RowCells(s, fields, format);
    assert |r| == |cells| && forall i :: 0 <= i < |r| ==> r[i] == cells[i].text by {
      forall i | 0 <= i < |r| ensures r[i] == cells[i].text {
        if 0 < i <= |fields| {
          assert r[i] == ExtraValue(s.employee.extra, fields[i - 1]);
          assert cells[i] == Quoted(ExtraValue(s.employee.extra, fields[i - 1]));
        }
      }
    }
    r
  }

  function TableTexts(stats: seq<StatRow>, fields: seq<string>, format: Day -> string): (r: seq<seq<string>>)
    ensures |r| == |stats| && forall i :: 0 <= i < |stats| ==> r[i] == RowTexts(stats[i], fields, format)
  {
    if stats == [] then [] else [RowTexts(stats[0], fields, format)] + TableTexts(stats[1..], fields, format)
  }

  /** The export, read back by an RFC 4180 reader after its byte-order
      mark, gives the header and then every statistics row's cells, in
      order; nothing is exported without statistics. */
  lemma ExportCsvRoundTrip(stats: seq<StatRow>, fields: seq<string>, format: Day -> string)
    requires stats != []
    ensures ExportCsv(stats, fields, format).Some?
    ensures ReadCsv(ExportCsv(stats, fields, format).value[1..])
            == Some([HeaderTexts(fields)] + TableTexts(stats, fields, format))
  {
    var rows := [QuotedCells(HeaderTexts(fields))] + TableCells(stats, fields, format);
    var body := Join(LinesOf(rows), "\n");
    assert ExportCsv(stats, fields, format).value[1..] == body by {
      assert ExportCsv(stats, fields, format).value == "\U{FEFF}" + body;
    }
    assert ReadCsv(body) == Some(TextsOf(rows)) by {
      ExportRowsSafe(stats, fields, format);
      ReadCsvRows(rows);
    }
    ExportRowsTexts(stats, fields, format);
  }

  /** Every exported row has a cell and can be read back. */
  lemma ExportRowsSafe(stats: seq<StatRow>, fields: seq<string>, format: Day -> string)
    ensures SafeRows([QuotedCells(HeaderTexts(fields))] + TableCells(stats, fields, format))
  {
    var rows := [QuotedCells(HeaderTexts(fields))] + TableCells(stats, fields, format);
    forall i | 0 <= i < |rows| ensures rows[i] != [] && SafeCells(rows[i]) {
      if i > 0 {
        RowCellsSafe(stats[i - 1], fields, format);
      }
    }
  }

  /** The texts of the exported rows are the header and the table. */
  lemma ExportRowsTexts(stats: seq<StatRow>, fields: seq<string>, format: Day -> string)
    ensures TextsOf([QuotedCells(HeaderTexts(fields))] + TableCells(stats, fields, format))
            == [HeaderTexts(fields)] + TableTexts(stats, fields, format)
  {
    var rows := [QuotedCells(HeaderTexts(fields))] + TableCells(stats, fields, format);
    var expected := [HeaderTexts(fields)] + TableTexts(stats, fields, format);
    forall i | 0 <= i < |rows| ensures TextsOf(rows)[i] == expected[i] {
      if i > 0 {
        assert rows[i] == RowCells(stats[i - 1], fields, format);
      }
    }
  }

  lemma ReadQuotedCons(c: char, rest: string)
    requires c != '"'
    ensures ReadQuoted([c] + rest) == ConsField(c, ReadQuoted(rest))
  {
    assert ([c] + rest)[1..] == rest;
  }

  /** A quoted `a"b` as written: the reader sees `"a"` and then text
      that is neither a comma nor a line break. */
  lemma QuotedQuoteRejected(after: string)
    ensures ReadRecord("\"a\"b\"" + after).None?
  {
    var s := "\"a\"b\"" + after;
    var q := "\"b\"" + after;
    assert s[1..] == ['a'] + q && s[1..][1..] == q;
    assert q[0] == '"' && q[1] == 'b' && q[1..] == "b\"" + after;
    assert ReadQuoted(q) == Some(([], "b\"" + after));
    var t := s[1..];
    assert s[0] == '"' && t == ['a'] + q;
    ReadQuotedCons('a', q);
    assert ['a'] + [] == ['a'];
    assert ReadQuoted(t) == Some((['a'], "b\"" + after));
    assert ReadField(s) == Some((['a'], "b\"" + after));
  }

  lemma ReadCsvRejects(s: string)
    requires ReadRecord(s).None?
    ensures ReadCsv(s).None?
  {
  }

  /** A row whose first cell is the quoted `a"b`, written without
      escaping, does not read back. */
  lemma RowAsWrittenRejected(row: seq<Cell>)
    requires |row| > 1 && row[0] == Quoted("a\"b")
    ensures ReadCsv(LineAsWritten(row)).None?
  {
    assert LineAsWritten(row) == "\"a\"b\"" + ("," + LineAsWritten(row[1..]));
    QuotedQuoteRejected("," + LineAsWritten(row[1..]));
    ReadCsvRejects(LineAsWritten(row));
  }

  /** The fixed header titles need no quoting. */
  lemma FixedTitlesPlain()
    ensures PlainText("姓名") && PlainText("出勤天数") && PlainText("缺勤天数") && PlainText("缺勤日期明细")
  {
  }

  /** The unquoted header with no custom fields reads back. */
  lemma PlainHeaderReads(tail: string)
    requires tail == [] || tail[0] == '\n'
    ensures ReadRecord(LineAsWritten(BareCells(HeaderTexts([]))) + tail) == Some((HeaderTexts([]), tail))
  {
    var header := BareCells(HeaderTexts([]));
    assert header == [Bare("姓名"), Bare("出勤天数"), Bare("缺勤天数"), Bare("缺勤日期明细")];
    assert LineAsWritten(header) == Line(header);
    FixedTitlesPlain();
    assert SafeCells(header);
    ReadRecordLine(header, tail);
  }

  /** The document of a one-row export as written, after its byte-order
      mark: the header line, a line break and the row's line. */
  lemma OneRowAsWritten(s: StatRow, format: Day -> string)
    ensures ExportCsvAsWritten([s], [], format).Some?
    ensures ExportCsvAsWritten([s], [], format).value[1..]
            == LineAsWritten(BareCells(HeaderTexts([]))) + ("\n" + LineAsWritten(RowCells(s, [], format)))
  {
    var lines := LinesAsWritten([BareCells(HeaderTexts([]))] + TableCells([s], [], format));
    assert lines == [LineAsWritten(BareCells(HeaderTexts([]))), LineAsWritten(RowCells(s, [], format))];
    JoinCons(lines, "\n");
    assert lines[1..] == [LineAsWritten(RowCells(s, [], format))];
    var body := Join(lines, "\n");
    assert ("\U{FEFF}" + body)[1..] == body;
  }

  /** The export as written breaks for a name with a quote: the reader
      finds text after the closing quote of `"a"b"` and rejects the file. */
  lemma ExportAsWrittenBreaksOnQuote(e: Employee, format: Day -> string)
    requires e.name == "a\"b"
    ensures var r := ExportCsvAsWritten([StatRow(e, 0, 0, [])], [], format);
            r.Some? && ReadCsv(r.value[1..]).None?
  {
    var s := StatRow(e, 0, 0, []);
    var line := LineAsWritten(RowCells(s, [], format));
    RowAsWrittenRejected(RowCells(s, [], format));
    PlainHeaderReads("\n" + line);
    ReadCsvBreak(LineAsWritten(BareCells(HeaderTexts([]))), HeaderTexts([]), line, None);
    OneRowAsWritten(s, format);
  }

  // ---------------------------------------------------------------------
  // Search and order
  // ---------------------------------------------------------------------

  function NameMatches(term: string): Status -> bool {
    (s: Status) => MatchesTerm(s.employee.name, term)
  }

  function StatNameMatches(term: string): StatRow -> bool {
    (s: StatRow) => MatchesTerm(s.employee.name, term)
  }

  /** `a.name.localeCompare(b.name, "zh-CN") <= 0`, with the collation as
      a parameter. */
  function ByName(nameLeq: (string, string) -> bool): (Status, Status) -> bool {
    (a: Status, b: Status) => nameLeq(a.employee.name, b.employee.name)
  }

  /** `(b.absentCount ?? 0) - (a.absentCount ?? 0) <= 0`. */
  function AbsentGeq(a: StatRow, b: StatRow): bool {
    a.absentCount >= b.absentCount
  }

  /** `filteredEmployees`: the employees whose name contains the search
      term, ignoring case, sorted by name into a new list. */
  function FilteredEmployees(es: seq<Status>, term: string, nameLeq: (string, string) -> bool): seq<Status> {
    SortBy(if term == [] then es else Filter(es, NameMatches(term)), ByName(nameLeq))
  }

  /** `filteredStats`: the same filter, most absences first. */
  function FilteredStats(stats: seq<StatRow>, term: string): seq<StatRow> {
    SortBy(if term == [] then stats else Filter(stats, StatNameMatches(term)), AbsentGeq)
  }

  /** Every name contains the empty term, so the `if (searchTerm)` guard
      does not change which rows are shown. */
  lemma EmptyTermMatches(name: string)
    ensures MatchesTerm(name, "")
  {
    assert At(ToLower(name), ToLower(""), 0);
  }

  lemma ByNamePreorder(nameLeq: (string, string) -> bool)
    requires TotalPreorder(nameLeq)
    ensures TotalPreorder(ByName(nameLeq))
  {
    var leq := ByName(nameLeq);
    forall a, b ensures leq(a, b) || leq(b, a) {
      assert nameLeq(a.employee.name, b.employee.name) || nameLeq(b.employee.name, a.employee.name);
    }
    forall a, b, c | leq(a, b) && leq(b, c) ensures leq(a, c) {
      assert nameLeq(a.employee.name, b.employee.name) && nameLeq(b.employee.name, c.employee.name);
    }
  }

  /** The attendance view lists exactly the matching employees, each as
      often as in the source list, in name order. */
  lemma FilteredEmployeesSpec(es: seq<Status>, term: string, nameLeq: (string, string) -> bool)
    requires TotalPreorder(nameLeq)
    ensures var r := FilteredEmployees(es, term, nameLeq);
            && multiset(r) == multiset(Filter(es, NameMatches(term)))
            && (forall x :: x in r <==> x in es && MatchesTerm(x.employee.name, term))
            && SortedBy(r, ByName(nameLeq))
  {
    var kept := if term == [] then es else Filter(es, NameMatches(term));
    if term == [] {
      forall x | x in es ensures NameMatches(term)(x) {
        EmptyTermMatches(x.employee.name);
      }
      FilterNoneRemoved(es, NameMatches(term));
    }
    SortByPermutation(kept, ByName(nameLeq));
    SortByMembers(kept, ByName(nameLeq));
    ByNamePreorder(nameLeq);
    SortBySorted(kept, ByName(nameLeq));
  }

  /** The statistics view lists exactly the matching rows, most absences
      first. */
  lemma FilteredStatsSpec(stats: seq<StatRow>, term: string)
    ensures var r := FilteredStats(stats, term);
            && multiset(r) == multiset(Filter(stats, StatNameMatches(term)))
            && (forall x :: x in r <==> x in stats && MatchesTerm(x.employee.name, term))
            && (forall i, j :: 0 <= i < j < |r| ==> r[i].absentCount >= r[j].absentCount)
  {
    var kept := if term == [] then stats else Filter(stats, StatNameMatches(term));
    if term == [] {
      forall x | x in stats ensures StatNameMatches(term)(x) {
        EmptyTermMatches(x.employee.name);
      }
      FilterNoneRemoved(stats, StatNameMatches(term));
    }
    SortByPermutation(kept, AbsentGeq);
    SortByMembers(kept, AbsentGeq);
    SortBySorted(kept, AbsentGeq);
  }

  // ---------------------------------------------------------------------
  // Custom fields
  // ---------------------------------------------------------------------

  /** `addField`: `None` when the name is blank after trimming or already
      in the list (exact match); otherwise the list with the name, as
      typed, appended. */
  function AddField(fields: seq<string>, name: string): (r: Option<seq<string>>)
    ensures r.None? <==> Trim(name) == [] || name in fields
    ensures r.Some? ==> |r.value| == |fields| + 1 && r.value[..|fields|] == fields && r.value[|fields|] == name
  {
    if Trim(name) == [] || name in fields then None else Some(fields + [name])
  }

  function NotName(name: string): string -> bool {
    (f: string) => f != name
  }

  /** `triggerRemoveField`'s confirmed action: every occurrence goes, the
      rest keep their order. */
  function RemoveField(fields: seq<string>, name: string): (r: seq<string>)
    ensures name !in r
    ensures forall f :: f != name ==> (f in r <==> f in fields)
    ensures multiset(r) == multiset(fields)[name := 0]
    ensures SubsequenceOf(r, fields)
  {
    FilterMultiset(fields, NotName(name));
    FilterSubsequence(fields, NotName(name));
    Filter(fields, NotName(name))
  }

  /** Removing a field that was just added restores the list. */
  lemma RemoveUndoesAdd(fields: seq<string>, name: string)
    requires AddField(fields, name).Some?
    ensures RemoveField(AddField(fields, name).value, name) == fields
  {
    FilterAppend(fields, [name], NotName(name));
    FilterNoneRemoved(fields, NotName(name));
    assert Filter([name], NotName(name)) == [];
  }

  /** The field list never gains a duplicate through `addField`. */
  lemma AddFieldKeepsDistinct(fields: seq<string>, name: string)
    requires Distinct(fields) && AddField(fields, name).Some?
    ensures Distinct(AddField(fields, name).value)
  {
  }

  // ---------------------------------------------------------------------
  // The punch button
  // ---------------------------------------------------------------------

  /** `handlePunch`'s local update: flips `is_punched` of the employee
      with this id only. */
  function FlipPunched(es: seq<Status>, id: nat): (r: seq<Status>)
    ensures |r| == |es|
    ensures forall i :: 0 <= i < |es| ==> r[i].employee == es[i].employee
    ensures forall i :: 0 <= i < |es| && es[i].employee.id != id ==> r[i] == es[i]
    ensures forall i :: 0 <= i < |es| && es[i].employee.id == id ==> r[i].isPunched == !es[i].isPunched
  {
    seq(|es|, i requires 0 <= i < |es| =>
      if es[i].employee.id == id then es[i].(isPunched := !es[i].isPunched) else es[i])
  }

  /** The local flip shows what reloading after `togglePunch` shows, as
      long as no timestamp is 0 (a record stamped 0 reads as unpunched). */
  lemma FlipMatchesReload(es: seq<Employee>, rs: seq<Record>, id: nat, today: Day, now: int)
    requires UniqueKeys(rs)
    requires forall r :: r in rs ==> r.timestamp != 0
    requires now != 0
    ensures FlipPunched(EmployeesWithStatus(es, rs, today), id)
            == EmployeesWithStatus(es, Toggle(rs, id, today, now), today)
  {
    var rs' := Toggle(rs, id, today, now);
    var before := EmployeesWithStatus(es, rs, today);
    var after := EmployeesWithStatus(es, rs', today);
    assert |before| == |es| && forall i :: 0 <= i < |es| ==>
             before[i] == Status(es[|es| - 1 - i], PunchedOn(rs, es[|es| - 1 - i].id, today)) by {
      StatusOfEach(es, rs, today);
    }
    assert |after| == |es| && forall i :: 0 <= i < |es| ==>
             after[i] == Status(es[|es| - 1 - i], PunchedOn(rs', es[|es| - 1 - i].id, today)) by {
      ToggleKeepsUnique(rs, id, today, now);
      StatusOfEach(es, rs', today);
    }
    forall i | 0 <= i < |es| ensures FlipPunched(before, id)[i] == after[i] {
      TogglePunchedOn(rs, id, es[|es| - 1 - i].id, today, now);
    }
  }

  /** `togglePunch` flips `is_punched` for its employee and no other. */
  lemma TogglePunchedOn(rs: seq<Record>, id: nat, x: nat, today: Day, now: int)
    requires forall r :: r in rs ==> r.timestamp != 0
    requires now != 0
    ensures PunchedOn(Toggle(rs, id, today, now), x, today)
            == (if x == id then !PunchedOn(rs, x, today) else PunchedOn(rs, x, today))
  {
    var rs' := Toggle(rs, id, today, now);
    assert forall r :: r in rs' ==> r.timestamp != 0;
    PunchedOnIffRecord(rs, x, today);
    PunchedOnIffRecord(rs', x, today);
    if x != id {
      if HasRecord(rs, x, today) {
        var y :| y in rs && IsKey(y, x, today);
        assert y in rs';
      }
      if HasRecord(rs', x, today) {
        var y :| y in rs' && IsKey(y, x, today);
        assert y in rs;
      }
    }
  }
}
