/** `Segment` and `seg2boundary` of AlignMeasure.py: an ordered list of n
    labelled segments becomes n + 1 boundaries, each with a time and the
    label `previous_next`, `#` standing for the edge of the list. */
module Extraction {
  import opened Boundaries

  /** A labelled interval `[start, start + dur]` (class `Segment`). */
  datatype Segment = Segment(text: string, start: real, dur: real)

  function End(s: Segment): real
  {
    s.start + s.dur
  }

  /** Label of the missing neighbour at either edge. */
  const Edge: string := "#"
  /** Separator between the two halves of a boundary label. */
  const Joiner: string := "_"
  /** Largest accepted gap between one segment's end and the next one's start (line 109). */
  const ContiguityTolerance: real := 0.01

  datatype Result<T, E> = Success(value: T) | Failure(error: E)

  /** Why `seg2boundary` raises: it indexes `segments[0]` of an empty list
      (an `IndexError`), or the assertion of line 109 fails at `index`. */
  datatype ExtractError = EmptySegments | GapAt(index: nat)

  function Abs(x: real): real
  {
    if x < 0.0 then -x else x
  }

  /** Segment `i - 1` ends where segment `i` starts, within the tolerance. */
  predicate Contiguous(segs: seq<Segment>, i: nat)
    requires 0 < i < |segs|
  {
    Abs(End(segs[i - 1]) - segs[i].start) <= ContiguityTolerance
  }

  /** Time of boundary `i`: the end of segment `i - 1`, or the start of the
      first segment for `i == 0`. */
  function BoundaryTime(segs: seq<Segment>, i: nat): real
    requires 0 < |segs| && i <= |segs|
  {
    if i == 0 then segs[0].start else End(segs[i - 1])
  }

  /** Label of boundary `i`: text of segment `i - 1`, `_`, text of segment `i`. */
  function BoundaryName(segs: seq<Segment>, i: nat): string
    requires i <= |segs|
  {
    (if i == 0 then Edge else segs[i - 1].text) + Joiner + (if i < |segs| then segs[i].text else Edge)
  }

  /** Boundary `i` as `seg2boundary` creates it; the window is the
      placeholder the `Boundary` constructor leaves. */
  function ExtractedAt(segs: seq<Segment>, i: nat): BoundaryValue
    requires 0 < |segs| && i <= |segs|
  {
    var t := BoundaryTime(segs, i);
    BoundaryValue(t, BoundaryName(segs, i), t - Tolerance, t - Tolerance)
  }

  /** The boundaries `seg2boundary` returns, as values, in segment order. */
  function Extracted(segs: seq<Segment>): (bs: seq<BoundaryValue>)
    requires 0 < |segs|
    ensures |bs| == |segs| + 1
    ensures forall i :: 0 <= i <= |segs| ==> bs[i] == ExtractedAt(segs, i)
  {
    seq(|segs| + 1, i requires 0 <= i <= |segs| => ExtractedAt(segs, i))
  }

  /** Boundary times: the first segment's start, then each segment's end. */
  lemma ExtractedTimes(segs: seq<Segment>)
    requires 0 < |segs|
    ensures Extracted(segs)[0].time == segs[0].start
    ensures forall i :: 0 < i <= |segs| ==> Extracted(segs)[i].time == End(segs[i - 1])
  {
  }

  predicate StartsWith(s: string, p: string)
  {
    |p| <= |s| && s[..|p|] == p
  }

  predicate EndsWith(s: string, p: string)
  {
    |p| <= |s| && s[|s| - |p|..] == p
  }

  lemma Affixes(a: string, b: string)
    ensures StartsWith(a + b, a) && EndsWith(a + b, b)
  {
    assert (a + b)[..|a|] == a;
    assert (a + b)[|a + b| - |b|..] == b;
  }

  /** Label shape: the first label starts with `#_`, the last ends with `_#`,
      and boundaries `i` and `i + 1` share segment `i`, whose text ends the
      one label (after `_`) and starts the other (before `_`). */
  lemma ExtractedLabels(segs: seq<Segment>)
    requires 0 < |segs|
    ensures StartsWith(Extracted(segs)[0].name, Edge + Joiner)
    ensures EndsWith(Extracted(segs)[|segs|].name, Joiner + Edge)
    ensures forall i :: 0 <= i < |segs| ==>
      EndsWith(Extracted(segs)[i].name, Joiner + segs[i].text) &&
      StartsWith(Extracted(segs)[i + 1].name, segs[i].text + Joiner)
  {
    var bs := Extracted(segs);
    assert bs[0].name == (Edge + Joiner) + segs[0].text;
    Affixes(Edge + Joiner, segs[0].text);
    var n := |segs|;
    assert bs[n].name == segs[n - 1].text + (Joiner + Edge);
    Affixes(segs[n - 1].text, Joiner + Edge);
    forall i | 0 <= i < |segs|
      ensures EndsWith(bs[i].name, Joiner + segs[i].text)
      ensures StartsWith(bs[i + 1].name, segs[i].text + Joiner)
    {
      var left := if i == 0 then Edge else segs[i - 1].text;
      var right := if i + 1 < |segs| then segs[i + 1].text else Edge;
      assert bs[i].name == left + (Joiner + segs[i].text);
      assert bs[i + 1].name == (segs[i].text + Joiner) + right;
      Affixes(left, Joiner + segs[i].text);
      Affixes(segs[i].text + Joiner, right);
    }
  }

  /** seg2boundary (lines 95-112). */
  method Seg2Boundary(segs: seq<Segment>) returns (r: Result<seq<Boundary>, ExtractError>)
    ensures r == Failure(EmptySegments) <==> segs == []
    ensures r.Failure? && r.error.GapAt? ==>
      && 0 < r.error.index < |segs|
      && !Contiguous(segs, r.error.index)
      && forall k :: 0 < k < r.error.index ==> Contiguous(segs, k)
    ensures r.Success? <==> segs != [] && forall k :: 0 < k < |segs| ==> Contiguous(segs, k)
    ensures r.Success? ==> |r.value| == |segs| + 1 && Distinct(r.value)
    ensures r.Success? ==> forall i :: 0 <= i < |r.value| ==> fresh(r.value[i])
    ensures r.Success? ==> Values(r.value) == Extracted(segs)
  {
    var ret: seq<Boundary> := [];
    for i := 0 to |segs| + 1
      invariant |ret| == i && Distinct(ret)
      invariant forall k :: 0 <= k < i ==> fresh(ret[k])
      invariant forall k :: 0 < k < i && k < |segs| ==> Contiguous(segs, k)
      invariant 0 < i ==> 0 < |segs| && forall k :: 0 <= k < i ==> ret[k].Value() == Extracted(segs)[k]
    {
      var nameP, nameN := Edge, Edge;
      var time: real;
      if i > 0 {
        nameP := segs[i - 1].text;
        time := segs[i - 1].start + segs[i - 1].dur;
      } else {
        if |segs| == 0 {
          return Failure(EmptySegments);
        }
        time := segs[i].start;
      }
      if i < |segs| {
        nameN := segs[i].text;
        if i > 0 && !(Abs(time - segs[i].start) <= ContiguityTolerance) {
          return Failure(GapAt(i));
        }
      }
      var b := new Boundary(time, nameP + Joiner + nameN);
      ret := ret + [b];
    }
    r := Success(ret);
  }

  /** Every segment starts within the tolerance of the previous one's end:
      the segment lists `seg2boundary` accepts. */
  predicate Accepted(segs: seq<Segment>)
  {
    forall k :: 0 < k < |segs| ==> Contiguous(segs, k)
  }

  /** Segments `seg2boundary` accepts, each longer than the largest gap it
      lets through, give boundaries in strictly increasing time order, the
      order `count_hits` relies on. A segment may start up to the tolerance
      before the previous one ends, so the duration bound is what keeps its
      end after that one's. */
  lemma {:induction false} ExtractedIncreasing(segs: seq<Segment>)
    requires 0 < |segs| && Accepted(segs)
    requires forall i :: 0 <= i < |segs| ==> segs[i].dur > ContiguityTolerance
    ensures StrictlyIncreasing(Extracted(segs))
  {
    forall k | 0 <= k < |segs|
      ensures BoundaryTime(segs, k) < BoundaryTime(segs, k + 1)
    {
      if k > 0 {
        assert Contiguous(segs, k);
      }
    }
    TimesIncreasingAll(segs);
  }

  /** Exactly contiguous segments of any positive duration give strictly
      increasing boundary times as well. */
  lemma {:induction false} ExtractedIncreasingExact(segs: seq<Segment>)
    requires 0 < |segs|
    requires forall i :: 0 <= i < |segs| ==> segs[i].dur > 0.0
    requires forall i :: 0 < i < |segs| ==> End(segs[i - 1]) == segs[i].start
    ensures StrictlyIncreasing(Extracted(segs))
  {
    forall k | 0 <= k < |segs|
      ensures BoundaryTime(segs, k) < BoundaryTime(segs, k + 1)
    {
      if k > 0 {
        assert End(segs[k - 1]) == segs[k].start;
      }
    }
    TimesIncreasingAll(segs);
  }

  /** Boundary times that increase at every step increase along the list. */
  lemma {:induction false} TimesIncreasingAll(segs: seq<Segment>)
    requires 0 < |segs|
    requires forall k :: 0 <= k < |segs| ==> BoundaryTime(segs, k) < BoundaryTime(segs, k + 1)
    ensures StrictlyIncreasing(Extracted(segs))
  {
    var bs := Extracted(segs);
    forall i, j | 0 <= i < j < |bs|
      ensures bs[i].time < bs[j].time
    {
      TimesIncrease(segs, i, j);
    }
  }

  lemma {:induction false} TimesIncrease(segs: seq<Segment>, i: nat, j: nat)
    requires 0 < |segs|
    requires forall k :: 0 <= k < |segs| ==> BoundaryTime(segs, k) < BoundaryTime(segs, k + 1)
    requires i < j <= |segs|
    ensures BoundaryTime(segs, i) < BoundaryTime(segs, j)
    decreases j - i
  {
    if i + 1 < j {
      TimesIncrease(segs, i + 1, j);
    }
  }
}
