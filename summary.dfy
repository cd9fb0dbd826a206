/** The attendance summary: for every roster employee after the placeholder, the number of
    stored entries and the attendance percentage rendered as `"%.2f%%"`; then the company
    figure, the rendered percentages read back and averaged over the roster employees that
    have a row. */
module Summary {
  import opened Options
  import opened Decimal
  import opened Selection
  import opened Table

  /** The number of office days that counts as full attendance in a month. */
  const Quota := 8

  /** One summary line: employee, `str(office_days)` and the rendered percentage. */
  datatype Entry = Entry(employee: string, officeDays: string, attendance: string)

  function Min(a: int, b: int): int {
    if a <= b then a else b
  }

  /** The attendance percentage of a list of stored entries, in hundredths of a percent:
      100 when "N/A" is among them, otherwise `len(entries) / Quota * 100` capped at 100.
      One office day is worth 10000 / `Quota` = 1250 hundredths, so every such value is a
      multiple of 12.5 and hundredths hold it exactly. */
  function PercentHundredths(entries: seq<string>): (h: nat)
    ensures h <= 100 * 100
    ensures NotApplicable in entries ==> h == 100 * 100
    ensures NotApplicable !in entries ==> h * Quota == Min(|entries|, Quota) * 10000
  {
    if NotApplicable in entries then 10000 else Min(|entries| * 1250, Quota * 1250)
  }

  /** The summary entry of employee `e`: no row or a non-string `Dates` gives no entries, so
      0 office days and 0%. */
  function EntryFor(rows: seq<Row>, e: string): (r: Entry)
    ensures r.employee == e
    ensures AllDigits(r.officeDays) && DigitsValue(r.officeDays) == |StoredEntries(rows, e)|
  {
    EntryOf(e, StoredEntries(rows, e))
  }

  /** The summary entry of `e` given the entries stored for `e`: `e`, the number of entries
      in decimal, and the percentage. */
  function EntryOf(e: string, entries: seq<string>): (r: Entry)
    ensures r.employee == e
    ensures AllDigits(r.officeDays) && DigitsValue(r.officeDays) == |entries|
  {
    Entry(e, NatText(|entries|), PercentText(PercentHundredths(entries)))
  }

  /** `employees[1:]`: the roster without its first entry, the placeholder. */
  function Names(roster: seq<string>): seq<string>
  {
    if roster == [] then [] else roster[1..]
  }

  /** The summary of the named employees, one entry each, in order. */
  function SummaryOf(rows: seq<Row>, names: seq<string>): (s: seq<Entry>)
    ensures |s| == |names|
    ensures forall i | 0 <= i < |names| :: s[i].employee == names[i]
  {
    seq(|names|, i requires 0 <= i < |names| => EntryFor(rows, names[i]))
  }

  /** The summary loop: one entry per roster name after the first, in roster order. */
  method BuildSummary(roster: seq<string>, rows: seq<Row>) returns (summary: seq<Entry>)
    ensures summary == SummaryOf(rows, Names(roster))
  {
    var names := Names(roster);
    summary := [];
    var i := 0;
    while i < |names|
      invariant 0 <= i <= |names|
      invariant summary == SummaryOf(rows, names[..i])
    {
      assert names[..i + 1] == names[..i] + [names[i]];
      SummaryOfAppend(rows, names[..i], names[i]);
      summary := summary + [EntryFor(rows, names[i])];
      i := i + 1;
    }
    assert names[..i] == names;
  }

  lemma SummaryOfAppend(rows: seq<Row>, names: seq<string>, e: string)
    ensures SummaryOf(rows, names + [e]) == SummaryOf(rows, names) + [EntryFor(rows, e)]
  {
    var longer, shorter := SummaryOf(rows, names + [e]), SummaryOf(rows, names);
    assert |longer| == |shorter + [EntryFor(rows, e)]|;
    forall i | 0 <= i < |longer| ensures longer[i] == (shorter + [EntryFor(rows, e)])[i] {
      if i < |names| {
        assert (names + [e])[i] == names[i];
      }
    }
  }

  /** If the roster starts with the placeholder and lists it nowhere else, the summary names
      are exactly the roster's real employees. */
  lemma NamesSkipPlaceholder(roster: seq<string>)
    requires |roster| >= 1 && roster[0] == Placeholder
    requires forall k | 1 <= k < |roster| :: roster[k] != Placeholder
    ensures Placeholder !in Names(roster)
    ensures forall n :: n in Names(roster) <==> n in roster && n != Placeholder
  {
  }

  /** An employee without a row, or whose `Dates` is not a string, shows 0 office days at
      0.00%. */
  lemma EntryWithoutDates(rows: seq<Row>, e: string)
    requires FirstRow(rows, e).None? || rows[FirstRow(rows, e).value].dates.None?
    ensures EntryFor(rows, e) == Entry(e, "0", "0.00%")
  {
    assert StoredEntries(rows, e) == [];
    assert NatText(0) == "0";
    ZeroText();
  }

  lemma ZeroText()
    ensures PercentText(0) == "0.00%"
  {
    assert NatText(0) == "0";
    NoCents();
    assert "0" + "." + "00" + "%" == "0.00%";
    PercentTextOf(0, "0", "00");
  }

  /** "N/A" among the stored entries shows 100.00%, however many entries there are. */
  lemma NotApplicableShowsFull(entries: seq<string>)
    requires NotApplicable in entries
    ensures PercentText(PercentHundredths(entries)) == "100.00%"
  {
    FullText(PercentHundredths(entries));
  }

  lemma FullText(h: nat)
    requires h == 10000
    ensures PercentText(h) == "100.00%"
  {
    HundredText();
    NoCents();
    assert "100" + "." + "00" + "%" == "100.00%";
    PercentTextOf(h, "100", "00");
  }

  lemma NoCents()
    ensures Pow10(2) == 100 && Padded(0, 2) == "00"
  {
  }

  lemma HundredText()
    ensures NatText(100) == "100"
  {
    assert NatText(10) == "10";
  }

  /** The figures an employee's entry shows right after the page stores a selection of
      date labels (or "N/A"): "N/A" counts as one office day at 100%; an empty selection is
      stored as the empty text, which reads back as one empty entry and so as one office day at
      12.5%; any other selection counts its size, at 12.5% a day up to 100%. */
  lemma EntryAfterUpdate(rows: seq<Row>, e: string, picked: seq<string>)
    requires forall i | 0 <= i < |picked| :: NoSeparator(picked[i])
    ensures var entries := StoredEntries(Upserted(rows, e, Join(Override(picked))), e);
      var h := PercentHundredths(entries);
      && (NotApplicable in picked ==> |entries| == 1 && h == 10000)
      && (picked == [] ==> |entries| == 1 && h == 1250)
      && (picked != [] && NotApplicable !in picked ==>
            |entries| == |picked| && h == Min(|picked| * 1250, 10000))
  {
    UpdateThenRead(rows, e, picked);
    var entries := StoredEntries(Upserted(rows, e, Join(Override(picked))), e);
    if picked == [] {
      assert NotApplicable !in entries by {
        assert entries == [""];
      }
    }
  }

  /** The percentages of a month with two, four and ten stored dates: 25%, 50% and 100%
      (more than eight office days still count as full attendance). */
  lemma PercentExamples()
    ensures PercentHundredths(["a", "b"]) == 2500
    ensures PercentHundredths(["a", "b", "c", "d"]) == 5000
    ensures PercentHundredths(["a", "b", "c", "d", "e", "f", "g", "h", "i", "j"]) == 10000
  {
    assert NotApplicable !in ["a", "b"];
    assert NotApplicable !in ["a", "b", "c", "d"];
    assert NotApplicable !in ["a", "b", "c", "d", "e", "f", "g", "h", "i", "j"];
  }

  /** A March 2025 row storing "2025-03-03, 2025-03-04" reads back as those two dates, and
      its summary line shows two office days at 25.00%. */
  lemma MarchExample(e: string)
    ensures Entries(Some("2025-03-03, 2025-03-04")) == ["2025-03-03", "2025-03-04"]
    ensures PercentHundredths(Entries(Some("2025-03-03, 2025-03-04"))) == 2500
    ensures EntryOf(e, Entries(Some("2025-03-03, 2025-03-04"))) == Entry(e, "2", "25.00%")
  {
    var xs := ["2025-03-03", "2025-03-04"];
    MarchExampleJoined();
    MarchExampleDates();
    assert forall i | 0 <= i < |xs| :: NoSeparator(xs[i]);
    SplitJoin(xs);
    PercentExamples();
    QuarterText(PercentHundredths(xs));
    assert NatText(2) == "2";
  }

  lemma TwentyFiveText()
    ensures NatText(25) == "25"
  {
    assert NatText(2) == "2";
  }

  lemma QuarterText(h: nat)
    requires h == 2500
    ensures PercentText(h) == "25.00%"
  {
    TwentyFiveText();
    NoCents();
    assert "25" + "." + "00" + "%" == "25.00%";
    PercentTextOf(h, "25", "00");
  }

  lemma MarchExampleJoined()
    ensures Join(["2025-03-03", "2025-03-04"]) == "2025-03-03, 2025-03-04"
  {
  }

  lemma MarchExampleDates()
    ensures NoSeparator("2025-03-03") && NoSeparator("2025-03-04")
  {
    NoSeparatorWithoutComma("2025-03-03");
    NoSeparatorWithoutComma("2025-03-04");
  }

  /** `len([emp for emp in employees[1:] if emp in df["Employee"].values])`. */
  function PresentCount(names: seq<string>, rows: seq<Row>): (n: nat)
    ensures n <= |names|
  {
    if names == [] then 0
    else (if HasRow(rows, names[0]) then 1 else 0) + PresentCount(names[1..], rows)
  }

  /** The head count is 0 exactly when none of the names has a row. */
  lemma {:induction false} PresentZero(names: seq<string>, rows: seq<Row>)
    ensures PresentCount(names, rows) == 0 <==>
      forall k | 0 <= k < |names| :: !HasRow(rows, names[k])
  {
    if names != [] {
      PresentZero(names[1..], rows);
      assert forall k | 1 <= k < |names| :: names[1..][k - 1] == names[k];
    }
  }

  /** `float(entry["Attendance %"].strip('%'))`. */
  function AttendanceValue(entry: Entry): Option<real>
  {
    ReadPercent(entry.attendance)
  }

  /** The values the page reads back from the summary, in order. */
  function Readings(summary: seq<Entry>): (vs: seq<Option<real>>)
    ensures |vs| == |summary|
  {
    seq(|summary|, i requires 0 <= i < |summary| => AttendanceValue(summary[i]))
  }

  /** `sum(...)` of the values read back; `None` where Python would raise on an unreadable
      entry. */
  function Total(vs: seq<Option<real>>): Option<real>
  {
    if vs == [] then Some(0.0)
    else
      match (vs[0], Total(vs[1..]))
      case (Some(x), Some(rest)) => Some(x + rest)
      case _ => None
  }

  /** The company figure: the sum of the summary percentages over the number of roster
      employees with a row, and 0 when there is none. */
  function CompanyAverage(summary: seq<Entry>, present: nat): (r: Option<real>)
    ensures present == 0 ==> r == Some(0.0)
  {
    Mean(Readings(summary), present)
  }

  /** `sum(values) / present if present > 0 else 0`. */
  function Mean(vs: seq<Option<real>>, present: nat): (r: Option<real>)
    ensures present == 0 ==> r == Some(0.0)
  {
    if present > 0 then
      match Total(vs)
      case Some(total) => Some(total / present as real)
      case None => None
    else Some(0.0)
  }

  /** The percentages, in hundredths, of the named employees: each at most 100%, and 0 for
      an employee without a row. */
  function Percents(rows: seq<Row>, names: seq<string>): (hs: seq<nat>)
    ensures |hs| == |names|
    ensures forall i | 0 <= i < |names| ::
      hs[i] <= 10000 && (!HasRow(rows, names[i]) ==> hs[i] == 0)
  {
    seq(|names|, i requires 0 <= i < |names| => PercentHundredths(StoredEntries(rows, names[i])))
  }

  function Sum(hs: seq<nat>): nat
  {
    if hs == [] then 0 else hs[0] + Sum(hs[1..])
  }

  /** Only employees with a row contribute, and each at most 100%. */
  lemma {:induction false} TotalBound(rows: seq<Row>, names: seq<string>)
    ensures Sum(Percents(rows, names)) <= 10000 * PresentCount(names, rows)
  {
    if names != [] {
      assert Percents(rows, names)[1..] == Percents(rows, names[1..]);
      TotalBound(rows, names[1..]);
      if !HasRow(rows, names[0]) {
        assert StoredEntries(rows, names[0]) == [];
      }
    }
  }

  /** Percentages in hundredths, as the values `"%.2f"` and `float` turn them into. */
  function AsPercents(hs: seq<nat>): (vs: seq<Option<real>>)
    ensures |vs| == |hs|
  {
    seq(|hs|, i requires 0 <= i < |hs| => Some(hs[i] as real / 100.0))
  }

  /** Every rendered percentage of the page's summary reads back as the computed one. */
  lemma SummaryReadsBack(rows: seq<Row>, names: seq<string>)
    ensures Readings(SummaryOf(rows, names)) == AsPercents(Percents(rows, names))
  {
    var s := SummaryOf(rows, names);
    var hs := Percents(rows, names);
    forall i | 0 <= i < |names|
      ensures s[i].attendance == PercentText(hs[i])
    {
    }
    ReadingsArePercents(s, hs);
  }

  /** A summary whose attendance texts are rendered percentages reads back as those
      percentages. */
  lemma ReadingsArePercents(summary: seq<Entry>, hs: seq<nat>)
    requires |summary| == |hs|
    requires forall i | 0 <= i < |hs| :: summary[i].attendance == PercentText(hs[i])
    ensures Readings(summary) == AsPercents(hs)
  {
    forall i | 0 <= i < |hs|
      ensures Readings(summary)[i] == AsPercents(hs)[i]
    {
      ParsePercentText(hs[i]);
    }
  }

  lemma {:induction false} TotalOfPercents(hs: seq<nat>)
    ensures Total(AsPercents(hs)) == Some(Sum(hs) as real / 100.0)
  {
    if hs != [] {
      assert AsPercents(hs)[1..] == AsPercents(hs[1..]);
      TotalOfPercents(hs[1..]);
      assert hs[0] as real / 100.0 + Sum(hs[1..]) as real / 100.0 == Sum(hs) as real / 100.0;
    }
  }

  /** The company figure of any summary whose readings are the percentages `hs` (in
      hundredths) summing to at most 100% per present employee: 0 when nobody is present, and
      otherwise the sum of the percentages over the head count, which lies between 0 and
      100. `SummaryReadsBack` and `TotalBound` give both premises for the page's own
      summary. */
  lemma CompanyAverageBound(summary: seq<Entry>, hs: seq<nat>, n: nat)
    requires Readings(summary) == AsPercents(hs)
    requires Sum(hs) <= 10000 * n
    ensures var avg := CompanyAverage(summary, n);
      && avg.Some?
      && 0.0 <= avg.value <= 100.0
      && (n == 0 ==> avg.value == 0.0)
      && (n > 0 ==> avg.value == (Sum(hs) as real / 100.0) / n as real)
  {
    MeanOfPercents(hs, n);
  }

  /** The company figure of the page's own summary: 0 when no roster employee has a row, and
      otherwise the mean of the roster percentages over the employees with a row, between 0
      and 100. */
  lemma CompanyAverageOfSummary(rows: seq<Row>, names: seq<string>)
    ensures var n := PresentCount(names, rows);
      var avg := CompanyAverage(SummaryOf(rows, names), n);
      && avg.Some?
      && 0.0 <= avg.value <= 100.0
      && (n == 0 ==> avg.value == 0.0)
      && (n > 0 ==> avg.value == (Sum(Percents(rows, names)) as real / 100.0) / n as real)
  {
    SummaryReadsBack(rows, names);
    TotalBound(rows, names);
    CompanyAverageBound(SummaryOf(rows, names), Percents(rows, names), PresentCount(names, rows));
  }

  lemma MeanOfPercents(hs: seq<nat>, n: nat)
    requires Sum(hs) <= 10000 * n
    ensures var avg := Mean(AsPercents(hs), n);
      && avg.Some?
      && 0.0 <= avg.value <= 100.0
      && (n > 0 ==> avg.value == (Sum(hs) as real / 100.0) / n as real)
  {
    TotalOfPercents(hs);
    if n > 0 {
      MeanBound(Sum(hs) as real / 100.0, n as real);
    }
  }

  lemma MeanBound(sum: real, n: real)
    requires n > 0.0 && 0.0 <= sum <= 100.0 * n
    ensures 0.0 <= sum / n <= 100.0
  {
  }
}
