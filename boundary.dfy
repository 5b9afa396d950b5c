/** The `Boundary` record of AlignMeasure.py: a point in time between two
    segments, its composite label, and the tolerance window (`reg_beg`,
    `reg_end`) that the matcher assigns and shrinks in place. */
module Boundaries {

  /** Default half-width of a tolerance window, in seconds (`search_reg=0.02`). */
  const Tolerance: real := 0.02

  /** The value held by a `Boundary` object at one moment. */
  datatype BoundaryValue = BoundaryValue(time: real, name: string, regBeg: real, regEnd: real)

  class Boundary {
    var time: real
    var name: string
    var regBeg: real
    var regEnd: real

    /** The Python constructor leaves a placeholder window: BOTH edges are
        `time - search_reg`; `count_hits` overwrites them before use. */
    constructor (time: real, name: string, searchReg: real := Tolerance)
      ensures this.time == time && this.name == name
      ensures regBeg == time - searchReg && regEnd == time - searchReg
    {
      this.time := time;
      this.name := name;
      regBeg := time - searchReg;
      regEnd := time - searchReg;
    }

    ghost function Value(): BoundaryValue
      reads this
    {
      BoundaryValue(time, name, regBeg, regEnd)
    }
  }

  /** The values held by a list of boundary objects, in list order. */
  ghost function Values(bs: seq<Boundary>): (vs: seq<BoundaryValue>)
    reads bs
    ensures |vs| == |bs|
    ensures forall i :: 0 <= i < |bs| ==> vs[i] == bs[i].Value()
  {
    seq(|bs|, i requires 0 <= i < |bs| reads bs => bs[i].Value())
  }

  /** No object occurs twice in the list (every list `seg2boundary` returns). */
  predicate Distinct(bs: seq<Boundary>)
  {
    forall i, j :: 0 <= i < j < |bs| ==> bs[i] != bs[j]
  }

  /** Boundary times strictly increase along the list. */
  predicate StrictlyIncreasing(ms: seq<BoundaryValue>)
  {
    forall i, j :: 0 <= i < j < |ms| ==> ms[i].time < ms[j].time
  }
}
