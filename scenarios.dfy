/** Whole-file consequences: `seg2boundary` followed by `count_hits`. */
module Scenarios {
  import opened Boundaries
  import opened Extraction
  import opened Matching
  import opened MatchingLemmas

  /** A hypothesis segmentation identical to a reference that `seg2boundary`
      accepts, each segment longer than the gap tolerance, hits all n + 1
      reference boundaries once the split point is the midpoint. */
  lemma PerfectSegmentationAllHit(segs: seq<Segment>)
    requires 0 < |segs| && Accepted(segs)
    requires forall i :: 0 <= i < |segs| ==> segs[i].dur > ContiguityTolerance
    ensures Hits(Resolve(Assign(Extracted(segs), Tolerance), Midpoint), Extracted(segs)) == |segs| + 1
  {
    ExtractedIncreasing(segs);
    PerfectHypothesisAllHit(Extracted(segs), Extracted(segs), Tolerance);
  }

  /** The input of the line 81 finding: the single segment ("a", 1.0 s,
      0.03 s) gives reference boundaries `#_a` at 1.0 and `a_#` at 1.03; with
      the split point as written, the same segment as hypothesis scores one
      hit out of two. */
  lemma ShortSegmentMissedAsWritten()
    ensures var ms := Extracted([Segment("a", 1.0, 0.03)]);
      && ms == [BoundaryValue(1.0, "#_a", 0.98, 0.98), BoundaryValue(1.03, "a_#", 1.01, 1.01)]
      && Resolve(Assign(ms, Tolerance), AsWritten)[1].regBeg == 1.515
      && Hits(Resolve(Assign(ms, Tolerance), AsWritten), ms) == 1
  {
    var ms := Extracted([Segment("a", 1.0, 0.03)]);
    assert ms[0] == BoundaryValue(1.0, "#_a", 0.98, 0.98);
    assert ms[1] == BoundaryValue(1.03, "a_#", 1.01, 1.01);
    PerfectHypothesisMissedAsWritten();
  }

  /** Reference segments ("a", 0, 1) and ("b", 1, 1): boundaries `#_a` at 0,
      `a_b` at 1 and `b_#` at 2; the same segments as hypothesis score three
      hits with the split point as written. */
  lemma IdenticalSegmentationScenario()
    ensures var segs := [Segment("a", 0.0, 1.0), Segment("b", 1.0, 1.0)];
      var ms := Extracted(segs);
      && |ms| == 3
      && ms[0].time == 0.0 && ms[1].time == 1.0 && ms[2].time == 2.0
      && ms[0].name == "#_a" && ms[1].name == "a_b" && ms[2].name == "b_#"
      && Hits(Resolve(Assign(ms, Tolerance), AsWritten), ms) == 3
  {
    var segs := [Segment("a", 0.0, 1.0), Segment("b", 1.0, 1.0)];
    var ms := Extracted(segs);
    assert ms[0].time == 0.0 && ms[1].time == 1.0 && ms[2].time == 2.0;
    PerfectHypothesisAllHitWhenApart(ms, ms, Tolerance);
  }

  /** The same reference against a hypothesis with one extra boundary inside
      segment "a" whose label no reference boundary carries: four hypothesis
      boundaries, still three hits. */
  lemma OverSegmentationScenario()
    ensures var ms := Extracted([Segment("a", 0.0, 1.0), Segment("b", 1.0, 1.0)]);
      var hyp := [ms[0], BoundaryValue(0.5, "a_c", 0.48, 0.48), ms[1], ms[2]];
      |hyp| == 4 && Hits(Resolve(Assign(ms, Tolerance), AsWritten), hyp) == 3
  {
    IdenticalSegmentationScenario();
    var ms := Extracted([Segment("a", 0.0, 1.0), Segment("b", 1.0, 1.0)]);
    var ws := Resolve(Assign(ms, Tolerance), AsWritten);
    var h := BoundaryValue(0.5, "a_c", 0.48, 0.48);
    assert forall i :: 0 <= i < |ws| ==> ws[i].name == ms[i].name by {
      ResolveChanges(Assign(ms, Tolerance), AsWritten);
    }
    HitsIgnoresForeignLabel(ws, [ms[0]], h, [ms[1], ms[2]]);
    assert [ms[0]] + [h] + [ms[1], ms[2]] == [ms[0], h, ms[1], ms[2]];
    assert [ms[0]] + [ms[1], ms[2]] == ms;
  }

  /** There is no early exit: two hypothesis boundaries inside one reference
      window, with its label, are two hits for a single reference boundary. */
  lemma MultipleHitsScenario()
    ensures var ref := [BoundaryValue(1.0, "a_b", 0.98, 1.02)];
      var hyp := [BoundaryValue(0.99, "a_b", 0.97, 0.97), BoundaryValue(1.01, "a_b", 0.99, 0.99)];
      Hits(ref, hyp) == 2 > |ref|
  {
    var ref := [BoundaryValue(1.0, "a_b", 0.98, 1.02)];
    var hyp := [BoundaryValue(0.99, "a_b", 0.97, 0.97), BoundaryValue(1.01, "a_b", 0.99, 0.99)];
    assert ref[..0] == [] && hyp[..1] == [hyp[0]] && hyp[..1][..0] == [];
  }
}
