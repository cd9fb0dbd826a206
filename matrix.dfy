/** `transform_attendance_data`: one row per table row, one column per working-day label,
    each cell "Office" when the label is among the row's stored entries and "-" otherwise. */
module Matrix {
  import opened Options
  import opened Calendar
  import opened Selection
  import opened Table

  datatype Mark = Office | Absent

  /** The text of a cell. */
  function MarkText(m: Mark): (s: string)
    ensures s == "Office" || s == "-"
  {
    match m
    case Office => "Office"
    case Absent => "-"
  }

  datatype MatrixRow = MatrixRow(employee: string, marks: seq<Mark>)

  /** One matrix row's cells: "Office" under each column label among `attended`. */
  method MarkRow(attended: seq<string>, columns: seq<string>) returns (marks: seq<Mark>)
    ensures |marks| == |columns|
    ensures forall c | 0 <= c < |columns| :: marks[c] == Office <==> columns[c] in attended
  {
    marks := [];
    var j := 0;
    while j < |columns|
      invariant 0 <= j <= |columns|
      invariant |marks| == j
      invariant forall c | 0 <= c < j :: marks[c] == Office <==> columns[c] in attended
    {
      var mark := if columns[j] in attended then Office else Absent;
      marks := marks + [mark];
      j := j + 1;
    }
  }

  /** Builds the matrix row by row, as the page does. */
  method Transform(rows: seq<Row>, days: seq<Date>) returns (matrix: seq<MatrixRow>)
    requires forall k | 0 <= k < |days| :: InRange(days[k])
    ensures |matrix| == |rows|
    ensures forall i | 0 <= i < |rows| ::
      matrix[i].employee == rows[i].employee && |matrix[i].marks| == |days|
    ensures forall i, j | 0 <= i < |rows| && 0 <= j < |days| ::
      matrix[i].marks[j] == Office <==> Label(days[j]) in Entries(rows[i].dates)
    ensures forall i, j | 0 <= i < |rows| && 0 <= j < |days| && rows[i].dates.None? ::
      matrix[i].marks[j] == Absent
  {
    var columns := Labels(days);
    matrix := [];
    var i := 0;
    while i < |rows|
      invariant 0 <= i <= |rows|
      invariant |matrix| == i
      invariant forall r | 0 <= r < i ::
        matrix[r].employee == rows[r].employee && |matrix[r].marks| == |columns|
      invariant forall r, j | 0 <= r < i && 0 <= j < |columns| ::
        matrix[r].marks[j] == Office <==> columns[j] in Entries(rows[r].dates)
    {
      var marks := MarkRow(Entries(rows[i].dates), columns);
      matrix := matrix + [MatrixRow(rows[i].employee, marks)];
      i := i + 1;
    }
    forall i, j | 0 <= i < |rows| && 0 <= j < |days| && rows[i].dates.None?
      ensures matrix[i].marks[j] == Absent
    {
      assert Entries(rows[i].dates) == [];
      assert columns[j] !in Entries(rows[i].dates);
      assert matrix[i].marks[j] != Office;
    }
  }

  /** Storing a pick and rebuilding the matrix marks exactly the picked working days (with
      "N/A" overriding, which marks none), on every row of that employee. */
  lemma UpdatedRowMarks(rows: seq<Row>, e: string, picked: seq<string>, d: Date, i: nat)
    requires forall k | 0 <= k < |picked| :: NoSeparator(picked[k])
    requires InRange(d)
    requires var r := Upserted(rows, e, Join(Override(picked)));
      i < |r| && r[i].employee == e
    ensures var r := Upserted(rows, e, Join(Override(picked)));
      Label(d) in Entries(r[i].dates) <==> Label(d) in Override(picked)
  {
    var sel := Override(picked);
    assert forall k | 0 <= k < |sel| :: NoSeparator(sel[k]) by {
      if NotApplicable in picked {
        NoSeparatorWithoutComma(NotApplicable);
      }
    }
    LabelNoSeparator(d);
    StoredMembership(sel, Label(d));
  }

  /** "N/A" marks no working day: a label is never "N/A". */
  lemma NotApplicableMarksNothing(d: Date)
    requires InRange(d)
    ensures Label(d) !in Override([NotApplicable])
  {
    assert Label(d)[4] == '-';
  }
}
