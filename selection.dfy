/** How the page stores a selection of attendance entries in one `Dates` cell: the entries
    joined with `", "`, read back with Python's `str.split(", ")`, and the `"N/A"` exemption
    that replaces any other choice. */
module Selection {
  import opened Decimal

  const Separator := ", "
  const NotApplicable := "N/A"

  /** The separator `", "` occurs in `s` at index `i`. */
  predicate SeparatorAt(s: string, i: int) {
    0 <= i && i + 1 < |s| && s[i] == ',' && s[i + 1] == ' '
  }

  /** `s` has no occurrence of the separator. */
  predicate NoSeparator(s: string) {
    forall i | 0 <= i < |s| :: !SeparatorAt(s, i)
  }

  /** `s.split(", ")`: the pieces between the occurrences of `", "`, found left to right. The
      result is never empty; in particular `"".split(", ") == [""]`. */
  function Split(s: string): (r: seq<string>)
    ensures |r| >= 1
    decreases |s|
  {
    if SeparatorAt(s, 0) then [""] + Split(s[2..])
    else if s == [] then [""]
    else
      var rest := Split(s[1..]);
      [[s[0]] + rest[0]] + rest[1..]
  }

  /** `", ".join(xs)`. */
  function Join(xs: seq<string>): string
  {
    if xs == [] then ""
    else if |xs| == 1 then xs[0]
    else xs[0] + Separator + Join(xs[1..])
  }

  /** `["N/A"] if "N/A" in selected else selected`: the exemption excludes every other entry. */
  function Override(selected: seq<string>): (r: seq<string>)
    ensures NotApplicable in r <==> NotApplicable in selected
    ensures NotApplicable in r ==> r == [NotApplicable]
    ensures NotApplicable !in r ==> r == selected
  {
    if NotApplicable in selected then [NotApplicable] else selected
  }

  lemma OverrideIdempotent(selected: seq<string>)
    ensures Override(Override(selected)) == Override(selected)
  {
  }

  lemma {:induction false} SplitNoSeparator(x: string)
    requires NoSeparator(x)
    ensures Split(x) == [x]
    decreases |x|
  {
    if x != [] {
      assert !SeparatorAt(x, 0);
      assert NoSeparator(x[1..]) by {
        forall i | 0 <= i < |x[1..]| ensures !SeparatorAt(x[1..], i) {
          assert !SeparatorAt(x, i + 1);
        }
      }
      SplitNoSeparator(x[1..]);
      assert [x[0]] + x[1..] == x;
    }
  }

  /** A piece without the separator, followed by the separator, splits off as one entry. */
  lemma {:induction false} SplitPiece(x: string, rest: string)
    requires NoSeparator(x)
    ensures Split(x + Separator + rest) == [x] + Split(rest)
    decreases |x|
  {
    var s := x + Separator + rest;
    if x == [] {
      assert SeparatorAt(s, 0) && s[2..] == rest;
    } else {
      assert !SeparatorAt(s, 0) by {
        if |x| >= 2 {
          assert !SeparatorAt(x, 0);
        } else {
          assert s[1] == ',';
        }
      }
      assert NoSeparator(x[1..]) by {
        forall i | 0 <= i < |x[1..]| ensures !SeparatorAt(x[1..], i) {
          assert !SeparatorAt(x, i + 1);
        }
      }
      assert s[1..] == x[1..] + Separator + rest;
      SplitPiece(x[1..], rest);
      assert [x[0]] + x[1..] == x;
    }
  }

  /** Splitting a joined list gives the list back, provided it is not empty and no entry
      contains the separator. */
  lemma {:induction false} SplitJoin(xs: seq<string>)
    requires |xs| >= 1
    requires forall i | 0 <= i < |xs| :: NoSeparator(xs[i])
    ensures Split(Join(xs)) == xs
  {
    if |xs| == 1 {
      SplitNoSeparator(xs[0]);
    } else {
      SplitPiece(xs[0], Join(xs[1..]));
      SplitJoin(xs[1..]);
    }
  }

  /** The one exception: an empty selection is stored as `""` and reads back as one empty
      entry. */
  lemma SplitJoinEmpty()
    ensures Join([]) == "" && Split(Join([])) == [""]
  {
  }

  /** Reading back a stored selection: the entries when the list was not empty, `[""]` when it
      was. No entry of `[""]` is a working-day label, so membership of a non-empty string is
      the same as in the stored list either way. */
  lemma StoredMembership(xs: seq<string>, x: string)
    requires forall i | 0 <= i < |xs| :: NoSeparator(xs[i])
    requires x != ""
    ensures x in Split(Join(xs)) <==> x in xs
  {
    if xs != [] {
      SplitJoin(xs);
    }
  }

  /** A date label (`YYYY-MM-DD`) and the exemption `"N/A"` never contain the separator, so
      every selection the page offers can be stored and read back. */
  lemma NoSeparatorWithoutComma(s: string)
    requires forall i | 0 <= i < |s| :: s[i] != ','
    ensures NoSeparator(s)
  {
    forall i | 0 <= i < |s| ensures !SeparatorAt(s, i) {
      assert s[i] != ',';
    }
  }
}
