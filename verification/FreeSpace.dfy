/** The runs of clusters the bitmap marks free, in address order. */
module FreeSpace {
  import opened Prelude
  import opened Clusters

  datatype FreeRun = FreeRun(lcn: nat, length: nat) {
    function End(): nat { lcn + length }
  }

  predicate Free(bits: seq<byte>, cluster: nat) { Bit(bits, cluster) == Some(false) }

  /** One past the last cluster both the volume and its bitmap have. */
  function Covered(bits: seq<byte>, total: nat): nat { Min(total, 8 * |bits|) }

  /** Covered are the clusters the volume has and the bitmap describes. */
  lemma CoveredIs(bits: seq<byte>, total: nat, c: nat)
    ensures c < Covered(bits, total) <==> c < total && Bit(bits, c).Some?
  {
  }

  ghost function NextFree(bits: seq<byte>, end: nat, from: nat): (r: nat)
    requires from <= end
    ensures from <= r <= end && (r < end ==> Free(bits, r))
    ensures forall c | from <= c < r :: !Free(bits, c)
    decreases end - from
  {
    if from < end && !Free(bits, from) then NextFree(bits, end, from + 1) else from
  }

  ghost function NextTaken(bits: seq<byte>, end: nat, from: nat): (r: nat)
    requires from <= end
    ensures from <= r <= end && (r < end ==> !Free(bits, r))
    ensures forall c | from <= c < r :: Free(bits, c)
    decreases end - from
  {
    if from < end && Free(bits, from) then NextTaken(bits, end, from + 1) else from
  }

  /** The runs still to come once everything below `at` has been passed. */
  ghost function Runs(bits: seq<byte>, end: nat, at: nat): seq<FreeRun>
    requires at <= end
    decreases end - at
  {
    var lcn := NextFree(bits, end, at);
    if lcn == end then []
    else
      var stop := NextTaken(bits, end, lcn);
      assert lcn < stop by { assert Free(bits, lcn); }
      [FreeRun(lcn, stop - lcn)] + Runs(bits, end, stop)
  }

  class FreeRuns {
    const bits: seq<byte>
    const end: nat
    var at: nat

    constructor (bits: seq<byte>, total: nat)
      ensures this.bits == bits && end == Covered(bits, total) && at == 0
    {
      this.bits := bits;
      end := Covered(bits, total);
      at := 0;
    }

    method Next() returns (r: Option<FreeRun>)
      requires at <= end
      modifies this`at
      ensures old(at) <= at <= end
      ensures r == None ==> Runs(bits, end, old(at)) == []
      ensures r.Some? ==> Runs(bits, end, old(at)) == [r.value] + Runs(bits, end, at)
      ensures r.Some? ==> old(at) < at == r.value.End()
    {
      hide Bit;
      while at < end && Bit(bits, at) != Some(false)
        invariant old(at) <= at <= end
        invariant NextFree(bits, end, at) == NextFree(bits, end, old(at))
      {
        at := at + 1;
      }
      if at >= end { return None; }
      var lcn := at;
      while at < end && Bit(bits, at) == Some(false)
        invariant lcn <= at <= end
        invariant NextTaken(bits, end, at) == NextTaken(bits, end, lcn)
      {
        at := at + 1;
      }
      r := Some(FreeRun(lcn, at - lcn));
    }
  }

  /** A run of clear bits that cannot be extended on either side. */
  ghost predicate Maximal(bits: seq<byte>, end: nat, run: FreeRun) {
    && 0 < run.length && run.End() <= end
    && (forall c | run.lcn <= c < run.End() :: Free(bits, c))
    && (run.lcn > 0 ==> !Free(bits, run.lcn - 1))
    && (run.End() < end ==> !Free(bits, run.End()))
  }

  /** Exactly the maximal runs at or past `at` are listed, each once, each ending before the next begins. */
  lemma {:induction false} RunsAreTheMaximalOnes(bits: seq<byte>, end: nat, at: nat)
    requires at <= end
    requires at == 0 || at == end || !Free(bits, at) || !Free(bits, at - 1)
    ensures forall run :: run in Runs(bits, end, at) <==> Maximal(bits, end, run) && at <= run.lcn
    ensures forall i, j | 0 <= i < j < |Runs(bits, end, at)| ::
              Runs(bits, end, at)[i].End() < Runs(bits, end, at)[j].lcn
    decreases end - at
  {
    hide Free;
    var lcn := NextFree(bits, end, at);
    if lcn == end {
      forall run | Maximal(bits, end, run) ensures run.lcn < at {
        assert Free(bits, run.lcn);
      }
    } else {
      assert Free(bits, lcn);
      var stop := NextTaken(bits, end, lcn);
      var first := FreeRun(lcn, stop - lcn);
      var rest := Runs(bits, end, stop);
      RunsAreTheMaximalOnes(bits, end, stop);
      assert Runs(bits, end, at) == [first] + rest;
      assert Maximal(bits, end, first);
      forall run | Maximal(bits, end, run) && at <= run.lcn ensures run == first || stop <= run.lcn {
        MaximalMeet(bits, end, first, run, lcn, stop);
      }
      forall run | run in rest ensures stop < run.lcn {
        assert stop < end && !Free(bits, stop) && Free(bits, run.lcn);
      }
    }
  }

  lemma MaximalMeet(bits: seq<byte>, end: nat, first: FreeRun, run: FreeRun, lcn: nat, stop: nat)
    requires Maximal(bits, end, first) && Maximal(bits, end, run)
    requires first.lcn == lcn && first.End() == stop
    requires forall c | run.lcn <= c < lcn :: !Free(bits, c)
    ensures run == first || stop <= run.lcn
  {
    hide Free;
    assert Free(bits, run.lcn);
    assert !(lcn < run.lcn < stop);
    assert run.lcn == lcn ==> run.End() == stop;
  }

  /** The free clusters below n, in order. */
  ghost function FreeBelow(bits: seq<byte>, n: nat): seq<nat> {
    if n == 0 then [] else FreeBelow(bits, n - 1) + if Free(bits, n - 1) then [n - 1] else []
  }

  lemma {:induction false} NoneFreeBetween(bits: seq<byte>, lo: nat, hi: nat)
    requires lo <= hi && forall c | lo <= c < hi :: !Free(bits, c)
    ensures FreeBelow(bits, hi) == FreeBelow(bits, lo)
    decreases hi - lo
  {
    if lo < hi {
      NoneFreeBetween(bits, lo, hi - 1);
    }
  }

  lemma {:induction false} FreeBelowIs(bits: seq<byte>, n: nat)
    ensures forall c: nat :: c in FreeBelow(bits, n) <==> c < n && Free(bits, c)
    ensures forall i, j | 0 <= i < j < |FreeBelow(bits, n)| :: FreeBelow(bits, n)[i] < FreeBelow(bits, n)[j]
  {
    if n > 0 {
      FreeBelowIs(bits, n - 1);
      var before := FreeBelow(bits, n - 1);
      assert forall i | 0 <= i < |before| :: before[i] in before;
    }
  }

  lemma {:induction false} AllFreeBetween(bits: seq<byte>, lo: nat, hi: nat)
    requires lo <= hi && forall c | lo <= c < hi :: Free(bits, c)
    ensures |FreeBelow(bits, hi)| == |FreeBelow(bits, lo)| + (hi - lo)
    decreases hi - lo
  {
    if lo < hi {
      AllFreeBetween(bits, lo, hi - 1);
    }
  }

  ghost function TotalLength(runs: seq<FreeRun>): nat {
    if runs == [] then 0 else runs[0].length + TotalLength(runs[1..])
  }

  /** The lengths of the runs still to come add up to the free clusters still to come. */
  lemma {:induction false} RunsHoldTheFreeClusters(bits: seq<byte>, end: nat, at: nat)
    requires at <= end
    ensures TotalLength(Runs(bits, end, at)) == |FreeBelow(bits, end)| - |FreeBelow(bits, at)|
    decreases end - at
  {
    var lcn := NextFree(bits, end, at);
    NoneFreeBetween(bits, at, lcn);
    if lcn < end {
      var stop := NextTaken(bits, end, lcn);
      assert Free(bits, lcn);
      AllFreeBetween(bits, lcn, stop);
      RunsHoldTheFreeClusters(bits, end, stop);
      assert Runs(bits, end, at)[1..] == Runs(bits, end, stop);
    }
  }
}