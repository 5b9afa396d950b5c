/** Properties of the hit count of `count_hits` (AlignMeasure.py:65-92). */
module MatchingLemmas {
  import opened Boundaries
  import opened Matching

  // ---------------------------------------------------------------------
  // The hit count is the number of matching pairs
  // ---------------------------------------------------------------------

  /** The (reference index, hypothesis index) pairs that line 89 accepts. */
  ghost function MatchingPairs(ref: seq<BoundaryValue>, hyp: seq<BoundaryValue>): set<(int, int)>
  {
    set i, j | 0 <= i < |ref| && 0 <= j < |hyp| && Matches(ref[i], hyp[j]) :: (i, j)
  }

  ghost function PairsBelow(ref: seq<BoundaryValue>, hyp: seq<BoundaryValue>, n: nat): set<(int, int)>
    requires n <= |ref|
  {
    set i, j | 0 <= i < n && 0 <= j < |hyp| && Matches(ref[i], hyp[j]) :: (i, j)
  }

  ghost function Row(r: BoundaryValue, k: int, hyp: seq<BoundaryValue>, m: nat): set<(int, int)>
    requires m <= |hyp|
  {
    set j | 0 <= j < m && Matches(r, hyp[j]) :: (k, j)
  }

  lemma {:induction false} RowCount(r: BoundaryValue, k: int, hyp: seq<BoundaryValue>, m: nat)
    requires m <= |hyp|
    ensures |Row(r, k, hyp, m)| == HitsOf(r, hyp[..m])
  {
    if m == 0 {
      assert Row(r, k, hyp, 0) == {};
      assert hyp[..0] == [];
    } else {
      RowCount(r, k, hyp, m - 1);
      assert hyp[..m][..m - 1] == hyp[..m - 1];
      assert hyp[..m][m - 1] == hyp[m - 1];
      RowSplit(r, k, hyp, m);
    }
  }

  /** The row of the first `m` hypotheses is that of the first `m - 1`,
      plus `(k, m - 1)` when hypothesis `m - 1` matches. */
  lemma RowSplit(r: BoundaryValue, k: int, hyp: seq<BoundaryValue>, m: nat)
    requires 0 < m <= |hyp|
    ensures Row(r, k, hyp, m) == Row(r, k, hyp, m - 1) + (if Matches(r, hyp[m - 1]) then {(k, m - 1)} else {})
    ensures (k, m - 1) !in Row(r, k, hyp, m - 1)
  {
  }

  lemma {:induction false} PairsCount(ref: seq<BoundaryValue>, hyp: seq<BoundaryValue>, n: nat)
    requires n <= |ref|
    ensures |PairsBelow(ref, hyp, n)| == Hits(ref[..n], hyp)
  {
    if n == 0 {
      assert PairsBelow(ref, hyp, 0) == {};
      assert ref[..0] == [];
    } else {
      PairsCount(ref, hyp, n - 1);
      RowCount(ref[n - 1], n - 1, hyp, |hyp|);
      assert hyp[..|hyp|] == hyp;
      assert ref[..n][..n - 1] == ref[..n - 1];
      assert ref[..n][n - 1] == ref[n - 1];
      PairsSplit(ref, hyp, n);
    }
  }

  /** The pairs of the first `n` references are those of the first `n - 1`
      and, disjoint from them, the row of reference `n - 1`. */
  lemma PairsSplit(ref: seq<BoundaryValue>, hyp: seq<BoundaryValue>, n: nat)
    requires 0 < n <= |ref|
    ensures PairsBelow(ref, hyp, n) == PairsBelow(ref, hyp, n - 1) + Row(ref[n - 1], n - 1, hyp, |hyp|)
    ensures PairsBelow(ref, hyp, n - 1) * Row(ref[n - 1], n - 1, hyp, |hyp|) == {}
  {
    var below, row := PairsBelow(ref, hyp, n - 1), Row(ref[n - 1], n - 1, hyp, |hyp|);
    forall p | p in PairsBelow(ref, hyp, n)
      ensures p in below + row
    {
      var i, j :| 0 <= i < n && 0 <= j < |hyp| && Matches(ref[i], hyp[j]) && p == (i, j);
      if i < n - 1 {
        assert p in below;
      } else {
        assert p in row;
      }
    }
    forall p | p in below
      ensures p !in row
    {
      var i, j :| 0 <= i < n - 1 && 0 <= j < |hyp| && Matches(ref[i], hyp[j]) && p == (i, j);
      assert p.0 < n - 1;
    }
  }

  /** The value `count_hits` returns is the number of matching pairs: one
      reference boundary may be hit by several hypothesis boundaries. */
  lemma HitsCountsPairs(ref: seq<BoundaryValue>, hyp: seq<BoundaryValue>)
    ensures Hits(ref, hyp) == |MatchingPairs(ref, hyp)|
  {
    PairsCount(ref, hyp, |ref|);
    assert ref[..|ref|] == ref;
    assert PairsBelow(ref, hyp, |ref|) == MatchingPairs(ref, hyp);
  }

  // ---------------------------------------------------------------------
  // A hypothesis boundary whose label no reference has never counts
  // ---------------------------------------------------------------------

  lemma {:induction false} HitsOfAppend(r: BoundaryValue, a: seq<BoundaryValue>, b: seq<BoundaryValue>)
    ensures HitsOf(r, a + b) == HitsOf(r, a) + HitsOf(r, b)
  {
    if b == [] {
      assert a + b == a;
    } else {
      HitsOfAppend(r, a, b[..|b| - 1]);
      assert (a + b)[..|a + b| - 1] == a + b[..|b| - 1];
      assert (a + b)[|a + b| - 1] == b[|b| - 1];
    }
  }

  /** Inserting a hypothesis boundary whose label differs from every
      reference label leaves the hit count unchanged, whatever its time. */
  lemma {:induction false} HitsIgnoresForeignLabel(ref: seq<BoundaryValue>, before: seq<BoundaryValue>,
                                                   h: BoundaryValue, after: seq<BoundaryValue>)
    requires forall i :: 0 <= i < |ref| ==> ref[i].name != h.name
    ensures Hits(ref, before + [h] + after) == Hits(ref, before + after)
  {
    if ref != [] {
      var r := ref[|ref| - 1];
      HitsIgnoresForeignLabel(ref[..|ref| - 1], before, h, after);
      HitsOfAppend(r, before + [h], after);
      HitsOfAppend(r, before, [h]);
      HitsOfAppend(r, before, after);
      assert [h][..0] == [];
    }
  }

  // ---------------------------------------------------------------------
  // A hypothesis identical to the reference hits every reference boundary
  // ---------------------------------------------------------------------

  /** Same times and labels, in the same order (windows are irrelevant on
      the hypothesis side). */
  predicate SameBoundaries(hs: seq<BoundaryValue>, ms: seq<BoundaryValue>)
  {
    |hs| == |ms| && forall i :: 0 <= i < |ms| ==> hs[i].time == ms[i].time && hs[i].name == ms[i].name
  }

  /** With the midpoint split, every window holds its own boundary and stops
      short of both neighbours. */
  lemma MidpointWindow(ms: seq<BoundaryValue>, searchReg: real, i: nat)
    requires searchReg > 0.0 && StrictlyIncreasing(ms) && i < |ms|
    ensures var ws := Resolve(Assign(ms, searchReg), Midpoint);
      && ws[i].regBeg <= ms[i].time <= ws[i].regEnd
      && (i + 1 < |ms| ==> ws[i].regEnd < ms[i + 1].time)
      && (0 < i ==> ms[i - 1].time < ws[i].regBeg)
  {
    var aw := Assign(ms, searchReg);
    assert aw[i].regBeg == ms[i].time - searchReg && aw[i].regEnd == ms[i].time + searchReg;
    if i + 1 < |ms| {
      assert aw[i + 1].regBeg == ms[i + 1].time - searchReg;
      assert ms[i].time < ms[i + 1].time;
    }
    if 0 < i {
      assert aw[i - 1].regEnd == ms[i - 1].time + searchReg;
      assert ms[i - 1].time < ms[i].time;
    }
  }

  /** With the midpoint split, hypothesis `j` matches reference `i` exactly when `i == j`. */
  lemma MidpointMatchesOwn(ms: seq<BoundaryValue>, hs: seq<BoundaryValue>, searchReg: real, i: nat, j: nat)
    requires searchReg > 0.0 && StrictlyIncreasing(ms) && SameBoundaries(hs, ms)
    requires i < |ms| && j < |ms|
    ensures Matches(Resolve(Assign(ms, searchReg), Midpoint)[i], hs[j]) <==> i == j
  {
    var ws := Resolve(Assign(ms, searchReg), Midpoint);
    MidpointWindow(ms, searchReg, i);
    assert ws[i].name == ms[i].name by {
      ResolveChanges(Assign(ms, searchReg), Midpoint);
    }
    if j > i {
      assert ms[i + 1].time <= ms[j].time;
    } else if j < i {
      assert ms[j].time <= ms[i - 1].time;
    }
  }

  lemma {:induction false} MidpointHitsOfOwn(ms: seq<BoundaryValue>, hs: seq<BoundaryValue>, searchReg: real,
                                             i: nat, m: nat)
    requires searchReg > 0.0 && StrictlyIncreasing(ms) && SameBoundaries(hs, ms)
    requires i < |ms| && m <= |hs|
    ensures HitsOf(Resolve(Assign(ms, searchReg), Midpoint)[i], hs[..m]) == if i < m then 1 else 0
  {
    if m > 0 {
      MidpointHitsOfOwn(ms, hs, searchReg, i, m - 1);
      MidpointMatchesOwn(ms, hs, searchReg, i, m - 1);
      assert hs[..m][..m - 1] == hs[..m - 1];
      assert hs[..m][m - 1] == hs[m - 1];
    }
  }

  lemma {:induction false} MidpointHitsPrefix(ms: seq<BoundaryValue>, hs: seq<BoundaryValue>, searchReg: real,
                                              n: nat)
    requires searchReg > 0.0 && StrictlyIncreasing(ms) && SameBoundaries(hs, ms)
    requires n <= |ms|
    ensures Hits(Resolve(Assign(ms, searchReg), Midpoint)[..n], hs) == n
  {
    var ws := Resolve(Assign(ms, searchReg), Midpoint);
    if n > 0 {
      MidpointHitsPrefix(ms, hs, searchReg, n - 1);
      MidpointHitsOfOwn(ms, hs, searchReg, n - 1, |hs|);
      assert hs[..|hs|] == hs;
      assert ws[..n][..n - 1] == ws[..n - 1];
      assert ws[..n][n - 1] == ws[n - 1];
    }
  }

  /** Corrected split point: a hypothesis with the reference's own times and
      labels hits every reference boundary exactly once. */
  lemma PerfectHypothesisAllHit(ms: seq<BoundaryValue>, hs: seq<BoundaryValue>, searchReg: real)
    requires searchReg > 0.0 && StrictlyIncreasing(ms) && SameBoundaries(hs, ms)
    ensures Hits(Resolve(Assign(ms, searchReg), Midpoint), hs) == |ms|
  {
    var ws := Resolve(Assign(ms, searchReg), Midpoint);
    MidpointHitsPrefix(ms, hs, searchReg, |ms|);
    assert ws[..|ms|] == ws;
  }

  /** Split point as written (line 81): for the reference boundaries of the
      single segment ("a", 1.0 s, 0.03 s), the same boundaries as hypothesis
      score one hit out of two. The second window becomes [1.515, 1.05],
      which holds no time at all. */
  lemma PerfectHypothesisMissedAsWritten()
    ensures var ms := [BoundaryValue(1.0, "#_a", 0.98, 0.98), BoundaryValue(1.03, "a_#", 1.01, 1.01)];
      && StrictlyIncreasing(ms)
      && Resolve(Assign(ms, Tolerance), AsWritten)[1].regBeg == 1.515
      && Hits(Resolve(Assign(ms, Tolerance), AsWritten), ms) == 1
  {
    var ms := [BoundaryValue(1.0, "#_a", 0.98, 0.98), BoundaryValue(1.03, "a_#", 1.01, 1.01)];
    var ws := Resolve(Assign(ms, Tolerance), AsWritten);
    assert ws[0] == BoundaryValue(1.0, "#_a", 0.98, 1.515);
    assert ws[1] == BoundaryValue(1.03, "a_#", 1.515, 1.05);
    assert ws[..1] == [ws[0]] && ws[..1][..0] == [];
    assert ms[..1] == [ms[0]] && ms[..1][..0] == [];
    assert HitsOf(ws[0], ms) == 1 by {
      assert ms[..|ms| - 1] == ms[..1];
    }
    assert HitsOf(ws[1], ms) == 0 by {
      assert ms[..|ms| - 1] == ms[..1];
    }
  }

  /** Where no two windows overlap the split point is never used, so the
      formula of line 81 and the midpoint give the same windows. */
  lemma SplitRuleIrrelevantWithoutClash(ms: seq<BoundaryValue>)
    requires forall i :: 0 <= i < |ms| - 1 ==> !Clash(ms[i], ms[i + 1])
    ensures Resolve(ms, AsWritten) == Resolve(ms, Midpoint)
  {
    assert forall i :: 0 <= i < |ms| ==> Resolve(ms, AsWritten)[i] == Resolve(ms, Midpoint)[i];
  }

  /** As written, the same holds when no two reference boundaries are closer
      than twice the search region: no window then clashes. */
  lemma PerfectHypothesisAllHitWhenApart(ms: seq<BoundaryValue>, hs: seq<BoundaryValue>, searchReg: real)
    requires searchReg > 0.0 && StrictlyIncreasing(ms) && SameBoundaries(hs, ms)
    requires forall i :: 0 <= i < |ms| - 1 ==> ms[i + 1].time - ms[i].time >= 2.0 * searchReg
    ensures Hits(Resolve(Assign(ms, searchReg), AsWritten), hs) == |ms|
  {
    var aw := Assign(ms, searchReg);
    forall i | 0 <= i < |ms| - 1
      ensures !Clash(aw[i], aw[i + 1])
    {
      assert aw[i].regEnd == ms[i].time + searchReg;
      assert aw[i + 1].regBeg == ms[i + 1].time - searchReg;
    }
    SplitRuleIrrelevantWithoutClash(aw);
    PerfectHypothesisAllHit(ms, hs, searchReg);
  }
}
