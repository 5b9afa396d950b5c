/** `count_hits` of AlignMeasure.py: tolerance windows around the reference
    boundaries, one left-to-right pass that resolves overlapping windows, and
    the count of (reference, hypothesis) pairs that match in time and label. */
module Matching {
  import opened Boundaries

  // ---------------------------------------------------------------------
  // Split point of two overlapping windows
  // ---------------------------------------------------------------------

  /** How the shared edge of two overlapping windows is computed.
      `AsWritten` is the expression of line 81, `time_i + time_{i+1} / 2`
      (division binds tighter than addition); `Midpoint` is the
      `(time_i + time_{i+1}) / 2` that the comment above the loop describes. */
  datatype SplitRule = AsWritten | Midpoint

  function SplitPoint(rule: SplitRule, a: real, b: real): (t: real)
    ensures rule == Midpoint ==> t - a == b - t
    ensures rule == Midpoint && a <= b ==> a <= t <= b
  {
    match rule
    case AsWritten => a + b / 2.0
    case Midpoint => (a + b) / 2.0
  }

  // ---------------------------------------------------------------------
  // Specification of the three loops of count_hits, on values
  // ---------------------------------------------------------------------

  /** The first loop: every window becomes `[time - searchReg, time + searchReg]`. */
  function Assign(ms: seq<BoundaryValue>, searchReg: real): (ws: seq<BoundaryValue>)
    ensures |ws| == |ms|
  {
    seq(|ms|, i requires 0 <= i < |ms| =>
      BoundaryValue(ms[i].time, ms[i].name, ms[i].time - searchReg, ms[i].time + searchReg))
  }

  /** The test of line 80: the left window reaches past the start of the right one. */
  predicate Clash(left: BoundaryValue, right: BoundaryValue)
  {
    left.regEnd > right.regBeg
  }

  /** Window start of boundary `i` once the pass is over: only the pair
      `(i - 1, i)` writes it. */
  function ResolvedBeg(ms: seq<BoundaryValue>, i: nat, rule: SplitRule): real
    requires i < |ms|
  {
    if 0 < i && Clash(ms[i - 1], ms[i]) then SplitPoint(rule, ms[i - 1].time, ms[i].time)
    else ms[i].regBeg
  }

  /** Window end of boundary `i` once the pass is over: only the pair
      `(i, i + 1)` writes it. */
  function ResolvedEnd(ms: seq<BoundaryValue>, i: nat, rule: SplitRule): real
    requires i < |ms|
  {
    if i + 1 < |ms| && Clash(ms[i], ms[i + 1]) then SplitPoint(rule, ms[i].time, ms[i + 1].time)
    else ms[i].regEnd
  }

  /** Boundary `i` once the pass is over. */
  function ResolvedAt(ms: seq<BoundaryValue>, i: nat, rule: SplitRule): BoundaryValue
    requires i < |ms|
  {
    BoundaryValue(ms[i].time, ms[i].name, ResolvedBeg(ms, i, rule), ResolvedEnd(ms, i, rule))
  }

  /** The overlap pass of lines 79-83. Step `i` reads `reg_end` of `i` and
      `reg_beg` of `i + 1`, which no earlier step wrote, so every pair is
      decided on the windows the pass started from. */
  function Resolve(ms: seq<BoundaryValue>, rule: SplitRule): (ws: seq<BoundaryValue>)
    ensures |ws| == |ms|
    ensures forall i :: 0 <= i < |ms| ==> ws[i] == ResolvedAt(ms, i, rule)
  {
    seq(|ms|, i requires 0 <= i < |ms| => ResolvedAt(ms, i, rule))
  }

  /** What the pass leaves on the two sides of one adjacent pair. */
  lemma ResolvedPair(ms: seq<BoundaryValue>, i: nat, rule: SplitRule)
    requires i + 1 < |ms|
    ensures !Clash(ms[i], ms[i + 1]) ==>
      ResolvedEnd(ms, i, rule) == ms[i].regEnd && ResolvedBeg(ms, i + 1, rule) == ms[i + 1].regBeg
    ensures Clash(ms[i], ms[i + 1]) ==>
      ResolvedEnd(ms, i, rule) == SplitPoint(rule, ms[i].time, ms[i + 1].time) == ResolvedBeg(ms, i + 1, rule)
    ensures ResolvedEnd(ms, i, rule) <= ResolvedBeg(ms, i + 1, rule)
  {
  }

  /** After the pass no two adjacent windows overlap, whatever the split point. */
  lemma ResolveSeparates(ms: seq<BoundaryValue>, rule: SplitRule)
    ensures forall i :: 0 <= i < |ms| - 1 ==> Resolve(ms, rule)[i].regEnd <= Resolve(ms, rule)[i + 1].regBeg
  {
    forall i | 0 <= i < |ms| - 1
      ensures Resolve(ms, rule)[i].regEnd <= Resolve(ms, rule)[i + 1].regBeg
    {
      ResolvedPair(ms, i, rule);
    }
  }

  /** The pass changes no time and no label; a pair that did not overlap
      keeps its two edges; an overlapping pair then shares one edge, the
      split point; the two outer edges of the list are never moved. */
  lemma ResolveChanges(ms: seq<BoundaryValue>, rule: SplitRule)
    ensures forall i :: 0 <= i < |ms| ==>
      Resolve(ms, rule)[i].time == ms[i].time && Resolve(ms, rule)[i].name == ms[i].name
    ensures forall i :: 0 <= i < |ms| - 1 && !Clash(ms[i], ms[i + 1]) ==>
      Resolve(ms, rule)[i].regEnd == ms[i].regEnd && Resolve(ms, rule)[i + 1].regBeg == ms[i + 1].regBeg
    ensures forall i :: 0 <= i < |ms| - 1 && Clash(ms[i], ms[i + 1]) ==>
      Resolve(ms, rule)[i].regEnd == SplitPoint(rule, ms[i].time, ms[i + 1].time) == Resolve(ms, rule)[i + 1].regBeg
    ensures |ms| > 0 ==>
      Resolve(ms, rule)[0].regBeg == ms[0].regBeg && Resolve(ms, rule)[|ms| - 1].regEnd == ms[|ms| - 1].regEnd
  {
    forall i | 0 <= i < |ms| - 1
      ensures !Clash(ms[i], ms[i + 1]) ==>
        Resolve(ms, rule)[i].regEnd == ms[i].regEnd && Resolve(ms, rule)[i + 1].regBeg == ms[i + 1].regBeg
      ensures Clash(ms[i], ms[i + 1]) ==>
        Resolve(ms, rule)[i].regEnd == SplitPoint(rule, ms[i].time, ms[i + 1].time) == Resolve(ms, rule)[i + 1].regBeg
    {
      ResolvedPair(ms, i, rule);
    }
  }

  /** The test of line 89: the hypothesis time lies in the closed window of
      the reference boundary and the two labels are the same string. */
  predicate Matches(r: BoundaryValue, h: BoundaryValue)
  {
    r.regBeg <= h.time <= r.regEnd && r.name == h.name
  }

  /** Number of hypothesis boundaries that match one reference boundary. */
  function HitsOf(r: BoundaryValue, hyp: seq<BoundaryValue>): (n: nat)
    ensures n <= |hyp|
  {
    if hyp == [] then 0
    else HitsOf(r, hyp[..|hyp| - 1]) + (if Matches(r, hyp[|hyp| - 1]) then 1 else 0)
  }

  /** Number of matching (reference, hypothesis) pairs: every reference
      boundary may collect several hits, there is no early exit. */
  function Hits(ref: seq<BoundaryValue>, hyp: seq<BoundaryValue>): (n: nat)
    ensures n <= |ref| * |hyp|
  {
    if ref == [] then 0
    else
      var n := Hits(ref[..|ref| - 1], hyp) + HitsOf(ref[|ref| - 1], hyp);
      assert (|ref| - 1) * |hyp| + |hyp| == |ref| * |hyp|;
      n
  }

  // ---------------------------------------------------------------------
  // The imperative count_hits
  // ---------------------------------------------------------------------

  /** First loop of count_hits (lines 68-71). */
  method AssignWindows(ref: seq<Boundary>, searchReg: real)
    modifies ref
    ensures Values(ref) == Assign(old(Values(ref)), searchReg)
  {
    ghost var ms := Values(ref);
    for i := 0 to |ref|
      invariant forall k :: 0 <= k < |ref| ==> ref[k].time == ms[k].time && ref[k].name == ms[k].name
      invariant forall k :: 0 <= k < i ==> ref[k].Value() == Assign(ms, searchReg)[k]
    {
      var b := ref[i];
      b.regBeg := b.time - searchReg;
      b.regEnd := b.time + searchReg;
    }
  }

  /** Boundary `k` after the first `done` steps of the overlap pass. */
  ghost function PassState(ms: seq<BoundaryValue>, done: nat, k: nat, rule: SplitRule): BoundaryValue
    requires k < |ms|
  {
    BoundaryValue(ms[k].time, ms[k].name,
                  if k <= done then ResolvedBeg(ms, k, rule) else ms[k].regBeg,
                  if k < done then ResolvedEnd(ms, k, rule) else ms[k].regEnd)
  }

  /** One step of the overlap pass (lines 80-83): if the window of `left`
      reaches past the start of the window of `right`, both shared edges
      become the split point; otherwise nothing changes. */
  method SplitPair(left: Boundary, right: Boundary, rule: SplitRule)
    requires left != right
    modifies left, right
    ensures var t := SplitPoint(rule, left.time, right.time);
      && left.Value() == old(left.Value()).(regEnd := if old(Clash(left.Value(), right.Value())) then t else old(left.regEnd))
      && right.Value() == old(right.Value()).(regBeg := if old(Clash(left.Value(), right.Value())) then t else old(right.regBeg))
  {
    if left.regEnd > right.regBeg {
      var t := SplitPoint(rule, left.time, right.time);
      left.regEnd := t;
      right.regBeg := t;
    }
  }

  /** Overlap pass of count_hits (lines 79-83), computing the split point by `rule`. */
  method ResolveOverlaps(ref: seq<Boundary>, rule: SplitRule)
    requires Distinct(ref)
    modifies ref
    ensures Values(ref) == Resolve(old(Values(ref)), rule)
  {
    ghost var ms := Values(ref);
    var i := 0;
    while i < |ref| - 1
      invariant 0 <= i && (i == 0 || i <= |ref| - 1)
      invariant forall k :: 0 <= k < |ref| ==> ref[k].Value() == PassState(ms, i, k, rule)
    {
      SplitPair(ref[i], ref[i + 1], rule);
      PassStep(ms, i, rule);
      i := i + 1;
    }
    PassComplete(ms, i, rule);
    assert Values(ref) == Resolve(ms, rule);
  }

  /** Step `i` of the pass changes boundaries `i` and `i + 1` exactly as
      `SplitPair` does, and no other. */
  lemma PassStep(ms: seq<BoundaryValue>, i: nat, rule: SplitRule)
    requires i + 1 < |ms|
    ensures var l, r := PassState(ms, i, i, rule), PassState(ms, i, i + 1, rule);
      var t := SplitPoint(rule, l.time, r.time);
      && PassState(ms, i + 1, i, rule) == l.(regEnd := if Clash(l, r) then t else l.regEnd)
      && PassState(ms, i + 1, i + 1, rule) == r.(regBeg := if Clash(l, r) then t else r.regBeg)
    ensures forall k :: 0 <= k < |ms| && k != i && k != i + 1 ==>
      PassState(ms, i + 1, k, rule) == PassState(ms, i, k, rule)
  {
  }

  /** Once the last pair is done, the pass has reached `Resolve`. */
  lemma PassComplete(ms: seq<BoundaryValue>, done: nat, rule: SplitRule)
    requires done == 0 || done == |ms| - 1
    requires done >= |ms| - 1
    ensures forall k :: 0 <= k < |ms| ==> PassState(ms, done, k, rule) == Resolve(ms, rule)[k]
  {
  }

  /** Counting loops of count_hits (lines 87-90); changes nothing. */
  method CountMatches(ref: seq<Boundary>, hyp: seq<Boundary>) returns (hit: nat)
    ensures hit == Hits(Values(ref), Values(hyp))
  {
    ghost var rs, hs := Values(ref), Values(hyp);
    hit := 0;
    for i := 0 to |ref|
      invariant hit == Hits(rs[..i], hs)
    {
      var b := ref[i];
      for j := 0 to |hyp|
        invariant hit == Hits(rs[..i], hs) + HitsOf(b.Value(), hs[..j])
      {
        var b2 := hyp[j];
        assert hs[..j + 1][..j] == hs[..j];
        if b.regBeg <= b2.time <= b.regEnd && b.name == b2.name {
          hit := hit + 1;
        }
      }
      assert rs[..i + 1][..i] == rs[..i];
      assert hs[..|hyp|] == hs;
    }
    assert rs[..|ref|] == rs;
  }

  /** count_hits (lines 65-92). The source computes the split point as
      written (`rule := AsWritten`); `Midpoint` gives the intended split. */
  method CountHits(ref: seq<Boundary>, hyp: seq<Boundary>,
                   searchReg: real := Tolerance, rule: SplitRule := AsWritten)
    returns (hit: nat)
    requires Distinct(ref)
    modifies ref
    ensures Values(ref) == Resolve(Assign(old(Values(ref)), searchReg), rule)
    ensures forall i :: 0 <= i < |ref| - 1 ==> ref[i].regEnd <= ref[i + 1].regBeg
    ensures forall h :: h in hyp ==> h.time == old(h.time) && h.name == old(h.name)
    ensures hit == Hits(Values(ref), Values(hyp))
  {
    ghost var ms := Values(ref);
    AssignWindows(ref, searchReg);
    ghost var aw := Values(ref);
    assert aw == Assign(ms, searchReg);
    ResolveOverlaps(ref, rule);
    assert Values(ref) == Resolve(aw, rule);
    ResolveSeparates(aw, rule);
    hit := CountMatches(ref, hyp);
    forall h | h in hyp && h in ref
      ensures h.time == old(h.time) && h.name == old(h.name)
    {
      var k :| 0 <= k < |ref| && ref[k] == h;
      assert Values(ref)[k] == Resolve(aw, rule)[k];
    }
  }
}
