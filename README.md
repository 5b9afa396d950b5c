# Boundary matching of the AlignMeasure segmentation evaluator

AlignMeasure scores an automatic segmentation of speech against a reference
segmentation. This project models its core in Dafny, in two parts.

- **Boundary extraction (`seg2boundary`).** An ordered list of n labelled
  segments `(text, start, dur)` becomes n + 1 boundaries. Boundary 0 sits at
  the first segment's start. Boundary i > 0 sits at the end of segment i - 1.
  The label of boundary i is `previous + "_" + next`, with `#` standing for
  the missing neighbour at either edge. The operation fails when the list is
  empty, or when a segment starts more than 0.01 s away from the end of the
  segment before it.
- **Boundary matching (`count_hits`).** Every reference boundary gets a window
  of ±`search_reg` (0.02 s by default), changed in place. One left-to-right
  pass then clamps every pair of adjacent overlapping windows to a shared
  split point. The result is the number of (reference, hypothesis) pairs
  whose hypothesis time lies in the closed reference window and whose labels
  are equal.

The model keeps the source's form. `Boundary` is a class with four fields;
the matcher updates its two window fields in place. Lists of boundaries are sequences of
`Boundary` objects. `Seg2Boundary` builds its list in an index loop.
`CountHits` runs the three loops of `count_hits`: `AssignWindows`,
`ResolveOverlaps` (built from one step, `SplitPair`) and `CountMatches`.
Each method is proved against a function on values (`BoundaryValue`,
obtained through `Boundary.Value()` and `Values`):

- `Extracted` specifies `Seg2Boundary`.
- `Assign` and `Resolve` specify the window loops.
- `Hits` specifies the hit count.

The properties the evaluator relies on are lemmas about these functions.

Times are Python floats in the source. Here they are exact `real`s. The
core only compares times, adds, subtracts and halves them, so exact reals
model the intended logic.

The split point of line 81 is written `time_i + time_{i+1} / 2`. Division
binds tighter than addition, so this is not the midpoint that the comment
above the loop describes. `SplitRule` names both formulas. `AsWritten` is
the expression in the code, and it is the default of `CountHits`, so the
model does what the source does. `Midpoint` is the intended formula (see
"## Findings"). The non-overlap property holds for either rule.

Files:

- `boundary.dfy` (module `Boundaries`): the `Boundary` record and list predicates.
- `extraction.dfy` (module `Extraction`): `Segment`, `seg2boundary` and its lemmas.
- `matching.dfy` (module `Matching`): `count_hits` and the functions that specify it.
- `matching_lemmas.dfy` (module `MatchingLemmas`): properties of the hit count, including the line 81 finding.
- `scenarios.dfy` (module `Scenarios`): extraction followed by matching, on whole inputs and on concrete examples.

## Model

| member | source | states |
|---|---|---|
| `Boundaries.Boundary.constructor` | AlignMeasure.py:54-59 | stores time and label; both window edges start as the placeholder `time - search_reg` |
| `Extraction.Seg2Boundary` | AlignMeasure.py:95-112 | fails with `EmptySegments` exactly when the list is empty; fails with `GapAt(i)` at the first i whose gap exceeds 0.01; succeeds exactly when every gap is within 0.01, returning n + 1 fresh, pairwise distinct boundaries whose values are `Extracted(segs)` |
| `Extraction.Extracted` | AlignMeasure.py:97-111 | exactly n + 1 boundaries, boundary i built from segments i - 1 and i, in segment order |
| `Extraction.ExtractedTimes` | AlignMeasure.py:100-104 | boundary 0's time is the first segment's start; boundary i's time is `start + dur` of segment i - 1 |
| `Extraction.ExtractedLabels` | AlignMeasure.py:98-111 | the first label starts with `#_` and the last ends with `_#`; segment i's text ends label i (after `_`) and starts label i + 1 (before `_`) |
| `Extraction.ExtractedIncreasing` | AlignMeasure.py:95-112 | segment lists that pass the gap test of line 109 (each start within 0.01 of the previous end), with every duration above 0.01, give strictly increasing boundary times, the order the overlap pass assumes |
| `Extraction.ExtractedIncreasingExact` | AlignMeasure.py:95-112 | exactly contiguous segments of any positive duration also give strictly increasing boundary times |
| `Matching.SplitPoint` | AlignMeasure.py:81 | with the midpoint rule, the split point is equidistant from both times and lies between them |
| `Matching.ResolvedPair` | AlignMeasure.py:80-83 | for one adjacent pair: if it did not overlap, both edges are kept; if it did, both shared edges equal the split point; either way, the left end does not exceed the right start |
| `Matching.ResolveSeparates` | AlignMeasure.py:79-83 | after the pass, `reg_end[i] <= reg_beg[i+1]` for every adjacent pair, whatever the split rule |
| `Matching.ResolveChanges` | AlignMeasure.py:79-83 | the pass changes no time or label; non-overlapping pairs keep their edges; an overlapping pair shares the split point; the two outer edges never move |
| `Matching.HitsOf` | AlignMeasure.py:88-90 | one reference boundary collects at most as many hits as there are hypothesis boundaries |
| `Matching.Hits` | AlignMeasure.py:87-92 | the hit count lies between 0 and `len(ref) * len(hyp)`, and is 0 when the hypothesis is empty |
| `Matching.AssignWindows` | AlignMeasure.py:68-71 | afterwards every window is `[time - search_reg, time + search_reg]`; times and labels are unchanged |
| `Matching.SplitPair` | AlignMeasure.py:80-83 | if the left window reaches past the right one's start, `reg_end` of the left and `reg_beg` of the right both become the split point; no other field changes |
| `Matching.ResolveOverlaps` | AlignMeasure.py:79-83 | the single left-to-right pass leaves exactly `Resolve` of the windows it started from: each pair is decided on edges no earlier step wrote |
| `Matching.CountMatches` | AlignMeasure.py:87-90 | returns `Hits` of the current windows against the hypothesis, reading every pair, with no early exit |
| `Matching.CountHits` | AlignMeasure.py:65-92 | new windows are `Resolve(Assign(old windows))`; no adjacent windows overlap; hypothesis times and labels are unchanged; the result is the pair count `Hits` |
| `MatchingLemmas.HitsCountsPairs` | AlignMeasure.py:87-92 | the hit count equals the number of index pairs (r, h) with `reg_beg <= time <= reg_end` and equal labels |
| `MatchingLemmas.HitsIgnoresForeignLabel` | AlignMeasure.py:89 | inserting a hypothesis boundary whose label no reference carries leaves the hit count unchanged, whatever its time |
| `MatchingLemmas.MidpointMatchesOwn` | AlignMeasure.py:73-90 | with midpoint splits, strictly increasing reference times and search_reg > 0, hypothesis j matches reference i exactly when i = j |
| `MatchingLemmas.PerfectHypothesisAllHit` | AlignMeasure.py:73-92 | corrected split: a hypothesis with the reference's own times and labels scores exactly `len(ref)` hits |
| `MatchingLemmas.PerfectHypothesisMissedAsWritten` | AlignMeasure.py:81 | as written: with reference times 1.0 and 1.03, the second window starts at 1.515, and the identical hypothesis scores 1 hit of 2 |
| `MatchingLemmas.SplitRuleIrrelevantWithoutClash` | AlignMeasure.py:80-83 | when no adjacent windows overlap, both split rules give the same windows |
| `MatchingLemmas.PerfectHypothesisAllHitWhenApart` | AlignMeasure.py:65-92 | as written: an identical hypothesis scores `len(ref)` hits when adjacent reference times are at least `2 * search_reg` apart |
| `Scenarios.PerfectSegmentationAllHit` | AlignMeasure.py:95-112 | extraction then matching with the midpoint split: a segmentation that passes the gap test, every duration above 0.01, matched against itself hits all n + 1 boundaries |
| `Scenarios.ShortSegmentMissedAsWritten` | AlignMeasure.py:81 | as written: the single segment ("a", 1.0, 0.03) extracts to `#_a`@1.0 and `a_#`@1.03, the second window starts at 1.515, and the same segment as hypothesis scores 1 hit of 2 |
| `Scenarios.IdenticalSegmentationScenario` | AlignMeasure.py:95-112 | segments ("a", 0, 1), ("b", 1, 1) give `#_a`@0, `a_b`@1, `b_#`@2; the identical hypothesis scores 3 hits as written |
| `Scenarios.OverSegmentationScenario` | AlignMeasure.py:87-92 | the same reference with one extra hypothesis boundary carrying a novel label: 4 hypothesis boundaries, 3 hits |
| `Scenarios.MultipleHitsScenario` | AlignMeasure.py:87-92 | two matching hypothesis boundaries in one reference window count as 2 hits for 1 reference boundary |

## Findings

| source | as written | input that shows it | evidently intended | confidence | as-written member | corrected member |
|---|---|---|---|---|---|---|
| AlignMeasure.py:81 | `t = time_i + time_{i+1} / 2` | one segment ("a", 1.0, 0.03): reference boundaries `#_a`@1.0 and `a_#`@1.03. Their ±0.02 windows overlap, t = 1.515, and the second window becomes [1.515, 1.05]. The identical hypothesis scores 1 hit instead of 2 | `t = (time_i + time_{i+1}) / 2`, which splits the space between the two boundaries into equal halves, as the comment at lines 73-78 says | not executed | `Scenarios.ShortSegmentMissedAsWritten` | `MatchingLemmas.PerfectHypothesisAllHit` |

The corrected behaviour is `CountHits(ref, hyp, rule := Midpoint)`. It is
also the rule used by `Scenarios.PerfectSegmentationAllHit`.

## Left out

- `read_ctm` and `read_textgrid` (lines 23-51): file I/O and the external `textgrid` library.
- The `__main__` block (lines 120-185): argument parsing, dispatch by file extension, the per-file loop that calls the core and sums the counts, and the printing.
- The metric formulas (lines 166-173): floating-point division, `math.sqrt` and `math.fabs`. The hit rate, over-segmentation, precision, recall, F-measure and R-value are not modelled.
- `Segment.__str__`, `Boundary.__str__` and `debug` (lines 19-20, 61-62, 115-117): formatting and printing only.
- Floating-point rounding: times are exact reals. A float gap within rounding of 0.01, or a split point affected by rounding, can behave differently in the source.
- The text of the assertion message at line 109. The model reports only the failing index, as `GapAt(i)`.
- `Matching.CountHits`, `Matching.ResolveOverlaps`: require the reference boundaries to be pairwise distinct objects. Every list `seg2boundary` returns is (`Seg2Boundary` ensures it). If the same object appeared twice, one step of the overlap pass could overwrite an edge a later step decides on, and this is not modelled. `Matching.AssignWindows` has no such requirement: writing the same window twice to one object leaves it the same. The hypothesis list may share objects with the reference list.
- The no-op write-back `ref_bound[i] = b` (line 71) stores the same object at the same index, so the model omits it.
- A shifted hypothesis scoring no hits is not stated. It does not hold in general: a boundary shifted by more than the tolerance can land in the neighbouring reference window when that window carries the same label.
