/** The merge-and-report pipeline of index: an outer join of the two sheets on
    Reference, the Match flag, the in-place sort on it, the price difference,
    the description and the five report columns. Prices are whole cents. */
module Report {
  import opened Nullable

  /** A row of an uploaded sheet; price is None for a blank cell. */
  datatype Row = Row(reference: int, price: Option<int>)

  /** A row of the outer join, with Price_Autocab and Price_CMAC. */
  datatype Merged = Merged(reference: int, autocab: Option<int>, cmac: Option<int>)

  /** A row of the joined frame once the Match column has been added. */
  datatype Flagged = Flagged(reference: int, autocab: Option<int>, cmac: Option<int>, matched: bool)

  /** A row of the rendered report: Reference, Price_Autocab, Price_CMAC,
      Price_Difference and Description. */
  datatype ReportRow = ReportRow(reference: int, autocab: Option<int>, cmac: Option<int>,
                                 difference: Option<int>, description: string)

  // ---------------------------------------------------------------------
  // Sheets and their references

  /** No Reference occurs twice in a sheet (pandas would otherwise emit
      every pairing of the duplicates). */
  predicate UniqueRefs(t: seq<Row>)
  {
    forall i, j :: 0 <= i < j < |t| ==> t[i].reference != t[j].reference
  }

  function Refs(t: seq<Row>): set<int>
  {
    set i | 0 <= i < |t| :: t[i].reference
  }

  /** The price a sheet gives for reference k; None when k is not in it. */
  function PriceOf(t: seq<Row>, k: int): (p: Option<int>)
    ensures k !in Refs(t) ==> p == None
  {
    if t == [] then None
    else if t[0].reference == k then t[0].price
    else
      assert k !in Refs(t) ==> k !in Refs(t[1..]) by {
        if k in Refs(t[1..]) {
          var i :| 0 <= i < |t[1..]| && t[1..][i].reference == k;
          assert t[i + 1].reference == k;
        }
      }
      PriceOf(t[1..], k)
  }

  /** In a sheet with unique references, looking up a row's reference finds
      that row's price. */
  lemma {:induction false} PriceOfRow(t: seq<Row>, i: nat)
    requires UniqueRefs(t) && i < |t|
    ensures PriceOf(t, t[i].reference) == t[i].price
  {
    if i > 0 {
      assert UniqueRefs(t[1..]);
      PriceOfRow(t[1..], i - 1);
    }
  }

  lemma PriceOfRows(t: seq<Row>)
    requires UniqueRefs(t)
    ensures forall i :: 0 <= i < |t| ==> PriceOf(t, t[i].reference) == t[i].price
  {
    forall i | 0 <= i < |t| {
      PriceOfRow(t, i);
    }
  }

  // ---------------------------------------------------------------------
  // The outer join (pd.merge(..., on='Reference', how='outer'))

  predicate UniqueMerged(m: seq<Merged>)
  {
    forall i, j :: 0 <= i < j < |m| ==> m[i].reference != m[j].reference
  }

  function MergedRefs(m: seq<Merged>): set<int>
  {
    set i | 0 <= i < |m| :: m[i].reference
  }

  lemma RefsCons(t: seq<Row>)
    requires t != []
    ensures Refs(t) == {t[0].reference} + Refs(t[1..])
  {
    forall k | k in Refs(t) ensures k in {t[0].reference} + Refs(t[1..]) {
      var i :| 0 <= i < |t| && t[i].reference == k;
      if i > 0 { assert t[1..][i - 1].reference == k; }
    }
  }

  lemma MergedRefsConcat(m1: seq<Merged>, m2: seq<Merged>)
    ensures MergedRefs(m1 + m2) == MergedRefs(m1) + MergedRefs(m2)
  {
    var m := m1 + m2;
    forall k | k in MergedRefs(m) ensures k in MergedRefs(m1) + MergedRefs(m2) {
      var i :| 0 <= i < |m| && m[i].reference == k;
      if i >= |m1| { assert m2[i - |m1|].reference == k; }
    }
    forall k | k in MergedRefs(m1) ensures k in MergedRefs(m) {
      var i :| 0 <= i < |m1| && m1[i].reference == k;
      assert m[i].reference == k;
    }
    forall k | k in MergedRefs(m2) ensures k in MergedRefs(m) {
      var i :| 0 <= i < |m2| && m2[i].reference == k;
      assert m[|m1| + i].reference == k;
    }
  }

  /** The rows of the right-hand sheet b whose reference is not in keys, with
      no left-hand price. */
  function RightOnly(b: seq<Row>, keys: set<int>): (m: seq<Merged>)
    requires UniqueRefs(b)
    ensures MergedRefs(m) == Refs(b) - keys
    ensures UniqueMerged(m)
    ensures forall i :: 0 <= i < |m| ==> m[i].autocab == None && m[i].cmac == PriceOf(b, m[i].reference)
  {
    if b == [] then []
    else
      assert UniqueRefs(b[1..]);
      var rest := RightOnly(b[1..], keys);
      RefsCons(b);
      var k := b[0].reference;
      assert k !in Refs(b[1..]);
      assert forall i :: 0 <= i < |rest| ==> rest[i].reference in MergedRefs(rest);
      assert forall i :: 0 <= i < |rest| ==> PriceOf(b, rest[i].reference) == PriceOf(b[1..], rest[i].reference);
      if k in keys then rest
      else
        var head := [Merged(k, None, b[0].price)];
        MergedRefsConcat(head, rest);
        assert head[0].reference == k;
        assert MergedRefs(head) == {k};
        head + rest
  }

  /** The full outer join on Reference: one row per reference of either sheet,
      carrying the price each sheet gives for it (None where it has none). */
  function Join(a: seq<Row>, b: seq<Row>): (m: seq<Merged>)
    requires UniqueRefs(a) && UniqueRefs(b)
    ensures MergedRefs(m) == Refs(a) + Refs(b)
    ensures UniqueMerged(m)
    ensures forall i :: 0 <= i < |m| ==>
              m[i].autocab == PriceOf(a, m[i].reference) && m[i].cmac == PriceOf(b, m[i].reference)
  {
    PriceOfRows(a);
    var left := seq(|a|, i requires 0 <= i < |a| => Merged(a[i].reference, a[i].price, PriceOf(b, a[i].reference)));
    var right := RightOnly(b, Refs(a));
    assert MergedRefs(left) == Refs(a) by {
      forall k | k in Refs(a) ensures k in MergedRefs(left) {
        var i :| 0 <= i < |a| && a[i].reference == k;
        assert left[i].reference == k;
      }
    }
    MergedRefsConcat(left, right);
    assert forall i :: 0 <= i < |right| ==> right[i].reference in MergedRefs(right);
    left + right
  }

  // ---------------------------------------------------------------------
  // Derived columns

  /** Price_Autocab == Price_CMAC: a missing price (NaN) equals nothing. */
  function IsMatch(autocab: Option<int>, cmac: Option<int>): (m: bool)
    ensures m ==> autocab.Some? && cmac.Some?
    ensures autocab.Some? && cmac.Some? ==> (m <==> autocab.value - cmac.value == 0)
  {
    autocab.Some? && cmac.Some? && autocab.value == cmac.value
  }

  /** Price_Autocab - Price_CMAC: missing when either operand is missing. */
  function Difference(autocab: Option<int>, cmac: Option<int>): (d: Option<int>)
    ensures d.Some? <==> autocab.Some? && cmac.Some?
    ensures d.Some? ==> d.value + cmac.value == autocab.value
  {
    if autocab.Some? && cmac.Some? then Some(autocab.value - cmac.value) else None
  }

  /** A row is a match exactly when both prices are present and their
      difference is zero; a missing price is never a match. */
  lemma MatchIffZeroDifference(autocab: Option<int>, cmac: Option<int>)
    ensures IsMatch(autocab, cmac) <==> Difference(autocab, cmac) == Some(0)
    ensures autocab.None? || cmac.None? ==> !IsMatch(autocab, cmac) && Difference(autocab, cmac).None?
    ensures Difference(autocab, cmac).Some? <==> autocab.Some? && cmac.Some?
  {
  }

  const MatchDescription: string := "Autocab (Match), CMAC (Match)"
  const MismatchDescription: string := "Autocab (Mismatch), CMAC (Mismatch)"

  function Status(matched: bool): string
  {
    if matched then " (Match)" else " (Mismatch)"
  }

  lemma MatchText()
    ensures "Autocab" + Status(true) + ", CMAC" + Status(true) == MatchDescription
  {
    assert "Autocab" + " (Match)" == "Autocab (Match)";
    assert "Autocab (Match)" + ", CMAC" == "Autocab (Match), CMAC";
    assert "Autocab (Match), CMAC" + " (Match)" == MatchDescription;
  }

  lemma MismatchText()
    ensures "Autocab" + Status(false) + ", CMAC" + Status(false) == MismatchDescription
  {
    assert "Autocab" + " (Mismatch)" == "Autocab (Mismatch)";
    assert "Autocab (Mismatch)" + ", CMAC" == "Autocab (Mismatch), CMAC";
    assert "Autocab (Mismatch), CMAC" + " (Mismatch)" == MismatchDescription;
  }

  lemma DescriptionsDiffer()
    ensures MatchDescription != MismatchDescription
  {
    assert MatchDescription[10] != MismatchDescription[10];
  }

  /** The Description column: both halves are built from the one Match flag,
      so they always agree. */
  function Describe(matched: bool): (d: string)
    ensures d == if matched then MatchDescription else MismatchDescription
  {
    MatchText();
    MismatchText();
    "Autocab" + Status(matched) + ", CMAC" + Status(matched)
  }

  /** Adds the Match column to one joined row. */
  function WithMatch(m: Merged): Flagged
  {
    Flagged(m.reference, m.autocab, m.cmac, IsMatch(m.autocab, m.cmac))
  }

  function Flag(m: seq<Merged>): seq<Flagged>
  {
    seq(|m|, i requires 0 <= i < |m| => WithMatch(m[i]))
  }

  /** Adds Price_Difference and Description to a row and keeps the five report
      columns (Reference is already an integer, so its coercion changes nothing). */
  function ToReportRow(f: Flagged): (r: ReportRow)
    ensures r.reference == f.reference && r.autocab == f.autocab && r.cmac == f.cmac
    ensures r.description == MatchDescription <==> f.matched
    ensures f.matched == IsMatch(f.autocab, f.cmac) ==> (r.difference == Some(0) <==> f.matched)
  {
    DescriptionsDiffer();
    MatchIffZeroDifference(f.autocab, f.cmac);
    ReportRow(f.reference, f.autocab, f.cmac, Difference(f.autocab, f.cmac), Describe(f.matched))
  }

  function Project(s: seq<Flagged>): (r: seq<ReportRow>)
    ensures |r| == |s|
  {
    seq(|s|, i requires 0 <= i < |s| => ToReportRow(s[i]))
  }

  lemma ProjectConcat(s: seq<Flagged>, t: seq<Flagged>)
    ensures Project(s + t) == Project(s) + Project(t)
  {
    var whole, parts := Project(s + t), Project(s) + Project(t);
    assert |whole| == |parts|;
    forall i | 0 <= i < |whole| ensures whole[i] == parts[i] {
      if i >= |s| {
        assert (s + t)[i] == t[i - |s|];
      }
    }
  }

  /** Taking the same row out of two permutations leaves two permutations. */
  lemma RemoveFromPermutation<T>(s: seq<T>, t: seq<T>, k: nat)
    requires multiset(s) == multiset(t) && s != [] && k < |t| && t[k] == s[0]
    ensures multiset(s[1..]) == multiset(t[..k] + t[k + 1..])
  {
    var x, rest := s[0], t[..k] + t[k + 1..];
    assert s == [x] + s[1..];
    assert t == t[..k] + [x] + t[k + 1..];
    assert multiset(t) == multiset{x} + multiset(rest);
    forall y ensures multiset(s[1..])[y] == multiset(rest)[y] {
      assert (multiset{x} + multiset(s[1..]))[y] == (multiset{x} + multiset(rest))[y];
    }
  }

  /** Projecting two permutations of the same rows gives two permutations of
      the same report rows. */
  lemma {:induction false} ProjectPermutation(s: seq<Flagged>, t: seq<Flagged>)
    requires multiset(s) == multiset(t)
    ensures multiset(Project(s)) == multiset(Project(t))
    decreases |s|
  {
    if s == [] {
      assert |t| == |multiset(t)| == 0;
    } else {
      var x := s[0];
      assert x in multiset(t);
      var k :| 0 <= k < |t| && t[k] == x;
      var before, after := t[..k], t[k + 1..];
      RemoveFromPermutation(s, t, k);
      ProjectPermutation(s[1..], before + after);
      assert s == [x] + s[1..];
      assert t == before + [x] + after;
      ProjectConcat([x], s[1..]);
      ProjectConcat(before + [x], after);
      ProjectConcat(before, [x]);
      ProjectConcat(before, after);
    }
  }

  // ---------------------------------------------------------------------
  // The sort (sort_values(by='Match', ascending=False, inplace=True))

  /** Every matching row comes before every non-matching row. */
  predicate MatchedFirst(s: seq<Flagged>)
  {
    forall i, j :: 0 <= i < j < |s| && s[j].matched ==> s[i].matched
  }

  /** Exchanges two rows of the frame. */
  method SwapRows(frame: array<Flagged>, i: nat, j: nat)
    requires i < j < frame.Length
    modifies frame
    ensures frame[..] == old(frame[..])[i := old(frame[j])][j := old(frame[i])]
    ensures multiset(frame[..]) == old(multiset(frame[..]))
  {
    frame[i], frame[j] := frame[j], frame[i];
  }

  /** Sorts the frame in place on Match, descending: True sorts above False,
      so the matches come first. Only the grouping is promised; the order
      inside each group is whatever the sort leaves. */
  method SortByMatch(frame: array<Flagged>)
    modifies frame
    ensures MatchedFirst(frame[..])
    ensures multiset(frame[..]) == old(multiset(frame[..]))
  {
    var lo, hi := 0, frame.Length;
    while lo < hi
      invariant 0 <= lo <= hi <= frame.Length
      invariant forall k :: 0 <= k < lo ==> frame[k].matched
      invariant forall k :: hi <= k < frame.Length ==> !frame[k].matched
      invariant multiset(frame[..]) == old(multiset(frame[..]))
    {
      if frame[lo].matched {
        lo := lo + 1;
      } else if !frame[hi - 1].matched {
        hi := hi - 1;
      } else {
        SwapRows(frame, lo, hi - 1);
        lo, hi := lo + 1, hi - 1;
      }
    }
  }

  // ---------------------------------------------------------------------
  // The report

  function ReportRefs(r: seq<ReportRow>): set<int>
  {
    set i | 0 <= i < |r| :: r[i].reference
  }

  /** The row the report shows for reference k. */
  function ExpectedRow(a: seq<Row>, b: seq<Row>, k: int): ReportRow
  {
    var pa, pb := PriceOf(a, k), PriceOf(b, k);
    ReportRow(k, pa, pb, Difference(pa, pb), Describe(IsMatch(pa, pb)))
  }

  /** The rows r are exactly one per reference of either sheet, each the row
      its reference determines. */
  predicate OneRowPerReference(r: seq<ReportRow>, a: seq<Row>, b: seq<Row>)
  {
    && ReportRefs(r) == Refs(a) + Refs(b)
    && (forall i, j :: 0 <= i < j < |r| ==> r[i].reference != r[j].reference)
    && (forall i :: 0 <= i < |r| ==> r[i] == ExpectedRow(a, b, r[i].reference))
  }

  /** Every row described as a match comes before every row described as a
      mismatch. */
  predicate MatchesListedFirst(r: seq<ReportRow>)
  {
    forall i, j :: 0 <= i < j < |r| && r[j].description == MatchDescription ==> r[i].description == MatchDescription
  }

  /** What the page shows for the sheets a (Autocab) and b (CMAC). */
  predicate IsReport(r: seq<ReportRow>, a: seq<Row>, b: seq<Row>)
  {
    OneRowPerReference(r, a, b) && MatchesListedFirst(r)
  }

  /** Before the sort, the joined, flagged and projected rows are already one
      row per reference. */
  lemma JoinedRowsPerReference(a: seq<Row>, b: seq<Row>)
    requires UniqueRefs(a) && UniqueRefs(b)
    ensures OneRowPerReference(Project(Flag(Join(a, b))), a, b)
  {
    var m := Join(a, b);
    var u := Project(Flag(m));
    forall i | 0 <= i < |u|
      ensures u[i] == ToReportRow(WithMatch(m[i])) && u[i].reference == m[i].reference
      ensures u[i] == ExpectedRow(a, b, u[i].reference)
    {
    }
    assert ReportRefs(u) == MergedRefs(m) by {
      forall k | k in MergedRefs(m) ensures k in ReportRefs(u) {
        var i :| 0 <= i < |m| && m[i].reference == k;
        assert u[i].reference == k;
      }
      forall k | k in ReportRefs(u) ensures k in MergedRefs(m) {
        var i :| 0 <= i < |u| && u[i].reference == k;
        assert m[i].reference == k;
      }
    }
  }

  lemma RepeatCounts<T>(s: seq<T>, i: nat, j: nat)
    requires i < j < |s| && s[i] == s[j]
    ensures multiset(s)[s[i]] >= 2
  {
    var x := s[i];
    assert s == s[..j] + [x] + s[j + 1..];
    assert x in s[..j];
  }

  lemma {:induction false} DistinctCounts(s: seq<ReportRow>)
    requires forall i, j :: 0 <= i < j < |s| ==> s[i].reference != s[j].reference
    ensures forall x :: multiset(s)[x] <= 1
  {
    if s != [] {
      DistinctCounts(s[1..]);
      assert s == [s[0]] + s[1..];
      assert s[0] !in s[1..];
    }
  }

  /** Reordering the rows keeps them one per reference. */
  lemma PermutationKeepsRows(r: seq<ReportRow>, u: seq<ReportRow>, a: seq<Row>, b: seq<Row>)
    requires multiset(r) == multiset(u)
    requires OneRowPerReference(u, a, b)
    ensures OneRowPerReference(r, a, b)
  {
    forall i | 0 <= i < |r| ensures r[i] == ExpectedRow(a, b, r[i].reference) && r[i].reference in ReportRefs(u) {
      assert r[i] in multiset(u);
      var k :| 0 <= k < |u| && u[k] == r[i];
    }
    forall k | k in ReportRefs(u) ensures k in ReportRefs(r) {
      var j :| 0 <= j < |u| && u[j].reference == k;
      assert u[j] in multiset(r);
      var i :| 0 <= i < |r| && r[i] == u[j];
    }
    DistinctCounts(u);
    forall i, j | 0 <= i < j < |r| ensures r[i].reference != r[j].reference {
      if r[i].reference == r[j].reference {
        RepeatCounts(r, i, j);
      }
    }
  }

  /** The pipeline of index from the merge to the column selection. The frame
      is built from the join, flagged, sorted in place, and then the two
      derived columns are added and the five report columns kept. When the
      join is empty (both sheets have no rows) the Description step fails:
      on an empty Series, apply keeps the bool dtype, and adding the string
      'Autocab' to a bool Series raises a TypeError. That failure is None. */
  method MergeReport(sheet1: seq<Row>, sheet2: seq<Row>) returns (report: Option<seq<ReportRow>>)
    requires UniqueRefs(sheet1) && UniqueRefs(sheet2)
    ensures report.None? <==> sheet1 == [] && sheet2 == []
    ensures report.Some? ==> multiset(report.value) == multiset(Project(Flag(Join(sheet1, sheet2))))
    ensures report.Some? ==> IsReport(report.value, sheet1, sheet2)
  {
    var merged := Join(sheet1, sheet2);
    var frame := new Flagged[|merged|](i requires 0 <= i < |merged| => WithMatch(merged[i]));
    assert frame[..] == Flag(merged);
    SortByMatch(frame);
    EmptyJoin(sheet1, sheet2);
    if frame.Length == 0 {
      return None;
    }
    var rows := Project(frame[..]);
    ProjectPermutation(frame[..], Flag(merged));
    JoinedRowsPerReference(sheet1, sheet2);
    PermutationKeepsRows(rows, Project(Flag(merged)), sheet1, sheet2);
    DescriptionsDiffer();
    assert forall i :: 0 <= i < |rows| ==> (rows[i].description == MatchDescription) == frame[i].matched;
    report := Some(rows);
  }

  /** The join is empty exactly when both sheets are. */
  lemma EmptyJoin(a: seq<Row>, b: seq<Row>)
    requires UniqueRefs(a) && UniqueRefs(b)
    ensures Join(a, b) == [] <==> a == [] && b == []
  {
    var m := Join(a, b);
    if a != [] {
      assert a[0].reference in Refs(a);
    } else if b != [] {
      assert b[0].reference in Refs(b);
    }
    if m != [] {
      assert m[0].reference in MergedRefs(m);
    }
  }

  /** A row of a report: its reference is in one of the sheets; Match holds
      exactly when both sheets price it and the prices agree; the
      difference is present exactly when both prices are. */
  lemma ReportRowMeaning(r: seq<ReportRow>, a: seq<Row>, b: seq<Row>, i: nat)
    requires IsReport(r, a, b) && i < |r|
    ensures r[i].reference in Refs(a) || r[i].reference in Refs(b)
    ensures r[i].autocab == PriceOf(a, r[i].reference) && r[i].cmac == PriceOf(b, r[i].reference)
    ensures r[i].description == MatchDescription <==>
              r[i].autocab.Some? && r[i].cmac.Some? && r[i].autocab.value == r[i].cmac.value
    ensures r[i].description == MatchDescription || r[i].description == MismatchDescription
    ensures r[i].difference == if r[i].autocab.Some? && r[i].cmac.Some?
                               then Some(r[i].autocab.value - r[i].cmac.value) else None
  {
    var k := r[i].reference;
    assert k in ReportRefs(r);
    var pa, pb := PriceOf(a, k), PriceOf(b, k);
    assert r[i] == ExpectedRow(a, b, k);
    DescriptionsDiffer();
    assert r[i].description == Describe(IsMatch(pa, pb));
  }

  const ExampleAutocab: seq<Row> := [Row(1, Some(1000)), Row(2, Some(2000))]
  const ExampleCmac: seq<Row> := [Row(1, Some(1000)), Row(3, Some(3000))]

  lemma ExampleRows()
    ensures Refs(ExampleAutocab) + Refs(ExampleCmac) == {1, 2, 3}
    ensures ExpectedRow(ExampleAutocab, ExampleCmac, 1) == ReportRow(1, Some(1000), Some(1000), Some(0), MatchDescription)
    ensures forall k :: k in {2, 3} ==> ExpectedRow(ExampleAutocab, ExampleCmac, k).description == MismatchDescription
    ensures forall k :: k in {2, 3} ==> ExpectedRow(ExampleAutocab, ExampleCmac, k).difference == None
    ensures MatchDescription != MismatchDescription
  {
    DescriptionsDiffer();
    var a, b := ExampleAutocab, ExampleCmac;
    RefsCons(a);
    RefsCons(b);
    RefsCons(a[1..]);
    RefsCons(b[1..]);
    assert PriceOf(a, 3) == None;
    assert PriceOf(b, 2) == None;
  }

  /** Rows with distinct references have as many distinct references as rows. */
  lemma {:induction false} DistinctRefsCount(r: seq<ReportRow>)
    requires forall i, j :: 0 <= i < j < |r| ==> r[i].reference != r[j].reference
    ensures |ReportRefs(r)| == |r|
  {
    if r != [] {
      DistinctRefsCount(r[1..]);
      assert ReportRefs(r) == {r[0].reference} + ReportRefs(r[1..]) by {
        forall k | k in ReportRefs(r) ensures k in {r[0].reference} + ReportRefs(r[1..]) {
          var i :| 0 <= i < |r| && r[i].reference == k;
          if i > 0 { assert r[1..][i - 1].reference == k; }
        }
        forall k | k in ReportRefs(r[1..]) ensures k in ReportRefs(r) {
          var i :| 0 <= i < |r[1..]| && r[1..][i].reference == k;
          assert r[i + 1].reference == k;
        }
      }
      assert r[0].reference !in ReportRefs(r[1..]);
    }
  }

  lemma ExampleRowCount(r: seq<ReportRow>)
    requires ReportRefs(r) == {1, 2, 3}
    requires forall i, j :: 0 <= i < j < |r| ==> r[i].reference != r[j].reference
    ensures |r| == 3
  {
    DistinctRefsCount(r);
    assert |{1, 2, 3}| == 3;
  }

  /** The worked example: Autocab prices references 1 and 2, CMAC prices 1 and
      3, and only reference 1 agrees. The report puts the match (1) first and
      the two one-sided references after it, as mismatches without a
      difference. */
  lemma ExampleMatchFirst(r: seq<ReportRow>)
    requires IsReport(r, ExampleAutocab, ExampleCmac)
    ensures ReportRefs(r) == {1, 2, 3}
    ensures |r| == 3
    ensures r != [] && r[0] == ReportRow(1, Some(1000), Some(1000), Some(0), MatchDescription)
    ensures forall j :: 0 < j < |r| ==>
              r[j].description == MismatchDescription && r[j].difference == None && r[j].reference in {2, 3}
  {
    ExampleRows();
    forall j | 0 <= j < |r| ensures r[j].reference in {1, 2, 3} {
      assert r[j].reference in ReportRefs(r);
    }
    assert 1 in ReportRefs(r);
    var i :| 0 <= i < |r| && r[i].reference == 1;
    assert r[i].description == MatchDescription;
    assert r[0].description == MatchDescription;
    assert r[0].reference == 1;
    ExampleRowCount(r);
  }
}
