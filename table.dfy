/** The attendance table the page loads from `attendance.csv`: rows of `Employee` and `Dates`.
    Reads take the first row of an employee; the "Update Attendance" action appends a row for
    an employee who has none and otherwise overwrites `Dates` on every row of that employee. */
module Table {
  import opened Options
  import opened Calendar
  import opened Selection

  /** One table row. `dates` is `None` when pandas holds a non-string (NaN) in the cell. */
  datatype Row = Row(employee: string, dates: Option<string>)

  /** The first entry of the roster, which stands for "no employee chosen". */
  const Placeholder := "Select Employee"

  predicate HasRow(rows: seq<Row>, e: string) {
    exists i | 0 <= i < |rows| :: rows[i].employee == e
  }

  /** The position of the first row of `e`, as `df[df["Employee"] == e].values[0]` picks it. */
  function FirstRow(rows: seq<Row>, e: string): (r: Option<nat>)
    ensures r.None? <==> !HasRow(rows, e)
    ensures r.Some? ==> r.value < |rows| && rows[r.value].employee == e
    ensures r.Some? ==> forall i | 0 <= i < r.value :: rows[i].employee != e
  {
    if rows == [] then None
    else if rows[0].employee == e then Some(0)
    else
      match FirstRow(rows[1..], e)
      case None =>
        assert forall i | 1 <= i < |rows| :: rows[i] == rows[1..][i - 1];
        None
      case Some(k) => Some(k + 1)
  }

  /** `dates.split(", ") if isinstance(dates, str) else []`. */
  function Entries(dates: Option<string>): (r: seq<string>)
    ensures dates.Some? ==> |r| >= 1
  {
    match dates
    case Some(s) => Split(s)
    case None => []
  }

  /** The entries stored for `e`: those of its first row, and none when `e` has no row or its
      first row holds a non-string. */
  function StoredEntries(rows: seq<Row>, e: string): (r: seq<string>)
    ensures r != [] ==> HasRow(rows, e)
  {
    match FirstRow(rows, e)
    case None => []
    case Some(k) => Entries(rows[k].dates)
  }

  /** The table after storing `v` as the `Dates` of `e`. */
  function Upserted(rows: seq<Row>, e: string, v: string): (r: seq<Row>)
    // the row count grows by one exactly when e had no row
    ensures |r| == |rows| + (if HasRow(rows, e) then 0 else 1)
    // every row of e now holds v, and e has a row
    ensures HasRow(r, e)
    ensures forall i | 0 <= i < |r| :: r[i].employee == e ==> r[i].dates == Some(v)
    // the rows of every other employee are unchanged, in place
    ensures forall i | 0 <= i < |rows| :: rows[i].employee != e ==> r[i] == rows[i]
    ensures forall i | 0 <= i < |rows| :: r[i].employee == rows[i].employee
    // a new row goes at the end
    ensures !HasRow(rows, e) ==> r == rows + [Row(e, Some(v))]
  {
    if HasRow(rows, e) then
      var r := seq(|rows|, i requires 0 <= i < |rows| =>
        if rows[i].employee == e then Row(e, Some(v)) else rows[i]);
      assert r[FirstRow(rows, e).value].employee == e;
      r
    else
      var r := rows + [Row(e, Some(v))];
      assert r[|rows|].employee == e;
      r
  }

  /** After the update, reads of `e` see `v`. */
  lemma UpsertedReadsNew(rows: seq<Row>, e: string, v: string)
    ensures StoredEntries(Upserted(rows, e, v), e) == Split(v)
  {
    var r := Upserted(rows, e, v);
    assert r[FirstRow(r, e).value].dates == Some(v);
  }

  /** After the update, reads of every other employee see what they saw before. */
  lemma UpsertedKeepsOthers(rows: seq<Row>, e: string, v: string, other: string)
    requires other != e
    ensures StoredEntries(Upserted(rows, e, v), other) == StoredEntries(rows, other)
  {
    var r := Upserted(rows, e, v);
    match FirstRow(rows, other)
    case None =>
      assert !HasRow(r, other);
    case Some(j) =>
      assert FirstRow(r, other) == Some(j);
  }

  /** The last write wins: storing twice is storing the second value once. */
  lemma UpsertedTwice(rows: seq<Row>, e: string, v: string, w: string)
    ensures Upserted(Upserted(rows, e, v), e, w) == Upserted(rows, e, w)
  {
  }

  /** The page's table, which the "Update Attendance" action changes in place. */
  class AttendanceTable {
    var rows: seq<Row>

    constructor (loaded: seq<Row>)
      ensures rows == loaded
    {
      rows := loaded;
    }

    /** The employee chosen in the page and the entries picked for them: nothing happens for the
        placeholder; otherwise "N/A" replaces every other entry and the result, joined with
        `", "`, becomes the `Dates` of the employee (a new last row if they had none). */
    method Update(employee: string, picked: seq<string>)
      modifies this
      ensures employee == Placeholder ==> rows == old(rows)
      ensures employee != Placeholder ==>
        rows == Upserted(old(rows), employee, Join(Override(picked)))
    {
      if employee != Placeholder {
        var stored := Join(Override(picked));
        if !HasRow(rows, employee) {
          rows := rows + [Row(employee, Some(stored))];
        } else {
          var before := rows;
          rows := seq(|before|, i requires 0 <= i < |before| =>
            if before[i].employee == employee then Row(employee, Some(stored)) else before[i]);
        }
      }
    }
  }

  /** What a read sees after the update: the picked entries with "N/A" overriding, as long as
      something was picked; an empty pick reads back as one empty entry. */
  lemma UpdateThenRead(rows: seq<Row>, e: string, picked: seq<string>)
    requires forall i | 0 <= i < |picked| :: NoSeparator(picked[i])
    ensures var r := StoredEntries(Upserted(rows, e, Join(Override(picked))), e);
      && (picked != [] ==> r == Override(picked))
      && (picked == [] ==> r == [""])
  {
    var sel := Override(picked);
    UpsertedReadsNew(rows, e, Join(sel));
    if sel != [] {
      assert forall i | 0 <= i < |sel| :: NoSeparator(sel[i]) by {
        if NotApplicable in picked {
          NoSeparatorWithoutComma(NotApplicable);
        }
      }
      SplitJoin(sel);
    }
  }

  /** Every entry the page offers, the month's date labels and "N/A", can be stored and read
      back unchanged. */
  lemma OfferedEntriesStorable(month: int, year: int)
    requires 1 <= month <= 12 && MinYear <= year <= MaxYear
    ensures var days := WorkingDays(month, year);
      && (forall i | 0 <= i < |days| :: InRange(days[i]))
      && var offered := Labels(days) + [NotApplicable];
      forall i | 0 <= i < |offered| :: NoSeparator(offered[i]) && offered[i] != ""
  {
    WorkingDaysSpec(month, year);
    OfferedStorable(WorkingDays(month, year));
  }

  /** The labels of dates with four-digit years, and "N/A", can be stored and read back. */
  lemma OfferedStorable(days: seq<Date>)
    requires forall i | 0 <= i < |days| :: InRange(days[i])
    ensures var offered := Labels(days) + [NotApplicable];
      forall i | 0 <= i < |offered| :: NoSeparator(offered[i]) && offered[i] != ""
  {
    var offered := Labels(days) + [NotApplicable];
    forall i | 0 <= i < |offered| ensures NoSeparator(offered[i]) && offered[i] != "" {
      if i < |days| {
        assert offered[i] == Label(days[i]);
        LabelNoSeparator(days[i]);
      } else {
        NoSeparatorWithoutComma(NotApplicable);
      }
    }
  }

  lemma LabelNoSeparator(d: Date)
    requires InRange(d)
    ensures NoSeparator(Label(d)) && Label(d) != ""
  {
    var s := Label(d);
    forall i | 0 <= i < |s| ensures s[i] != ',' {
      assert Decimal.IsDigit(s[i]) || s[i] == '-';
    }
    NoSeparatorWithoutComma(s);
  }
}
