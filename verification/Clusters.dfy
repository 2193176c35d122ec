/** How many clusters of a runlist the volume bitmap still marks free, and what that lets a carve claim. */
module Clusters {
  import opened Prelude

  datatype Run = Run(lcn: Option<u64>, length: u64)

  datatype Allocation = Allocation(free: u64, reused: u64, unknown: u64, sparse: u64)

  /** The allocation before any counter saturates. */
  datatype Tally = Tally(free: nat, reused: nat, unknown: nat, sparse: nat) {
    function Plus(other: Tally): Tally {
      Tally(free + other.free, reused + other.reused, unknown + other.unknown, sparse + other.sparse)
    }

    function Total(): nat { free + reused + unknown + sparse }

    function Saturated(): Allocation {
      Allocation(Clamp(free), Clamp(reused), Clamp(unknown), Clamp(sparse))
    }
  }

  const ZERO := Tally(0, 0, 0, 0)

  const MAX_BITMAP_BYTES := 64 * 1024 * 1024

  predicate BitOf(value: nat, k: nat) {
    if k == 0 then value % 2 == 1 else BitOf(value / 2, k - 1)
  }

  /** The allocation bit of cluster n, when the bitmap reaches that far. */
  function Bit(bits: seq<byte>, n: nat): Option<bool> {
    if n / 8 < |bits| then Some(BitOf(bits[n / 8], n % 8)) else None
  }

  /** Clusters the bitmap describes. */
  function Described(bits: seq<byte>): u64
    requires |bits| <= U64_MAX
  {
    Clamp(8 * |bits|)
  }

  function Halved(value: nat, k: nat): nat { if k == 0 then value else Halved(value / 2, k - 1) }

  lemma {:induction false} BitIsOfTheHalf(value: nat, k: nat)
    ensures BitOf(value, k) <==> Halved(value, k) % 2 == 1
  {
    if k > 0 {
      BitIsOfTheHalf(value / 2, k - 1);
    }
  }

  lemma {:induction false} HalvedOnce(value: nat, k: nat)
    ensures Halved(value, k + 1) == Halved(value, k) / 2
  {
    if k > 0 {
      HalvedOnce(value / 2, k - 1);
    }
  }

  /** The bits of a byte, the least significant first. */
  lemma BitsOfAByte(value: byte)
    ensures BitOf(value, 0) <==> value % 2 == 1
    ensures BitOf(value, 1) <==> value / 2 % 2 == 1
    ensures BitOf(value, 2) <==> value / 4 % 2 == 1
    ensures BitOf(value, 3) <==> value / 8 % 2 == 1
    ensures BitOf(value, 4) <==> value / 16 % 2 == 1
    ensures BitOf(value, 5) <==> value / 32 % 2 == 1
    ensures BitOf(value, 6) <==> value / 64 % 2 == 1
    ensures BitOf(value, 7) <==> value / 128 % 2 == 1
  {
    HalvesOfAByte(value);
    hide BitOf, Halved;
    forall k: nat ensures BitOf(value, k) <==> Halved(value, k) % 2 == 1 {
      BitIsOfTheHalf(value, k);
    }
  }

  lemma HalvesOfAByte(value: nat)
    ensures Halved(value, 0) == value && Halved(value, 1) == value / 2 && Halved(value, 2) == value / 4
    ensures Halved(value, 3) == value / 8 && Halved(value, 4) == value / 16 && Halved(value, 5) == value / 32
    ensures Halved(value, 6) == value / 64 && Halved(value, 7) == value / 128
  {
    assert Halved(value, 0) == value;
    hide Halved;
    HalvedOnce(value, 0);
    HalvedOnce(value, 1);
    HalvedOnce(value, 2);
    HalvedOnce(value, 3);
    HalvedOnce(value, 4);
    HalvedOnce(value, 5);
    HalvedOnce(value, 6);
  }

  /** Cluster n is bit n % 8 of byte n / 8, and the bitmap ends with its bytes. */
  lemma BitIs(bits: seq<byte>, byteAt: nat, k: nat)
    requires k < 8
    ensures Bit(bits, 8 * byteAt + k) == if byteAt < |bits| then Some(BitOf(bits[byteAt], k)) else None
  {
  }

  /** A bitmap is credible when it marks the boot sector's cluster taken: its first byte is odd. */
  lemma CredibleIs(volume: Option<seq<byte>>)
    ensures Credible(volume) == if volume.Some? && |volume.value| > 0 && volume.value[0] % 2 == 1 then volume else None
  {
  }

  // ----- the specification -----

  /** Clusters in [lo, hi) whose bit reads as `state`. */
  ghost function Count(bits: seq<byte>, lo: nat, hi: nat, state: Option<bool>): nat
    decreases hi - lo
  {
    if hi <= lo then 0
    else Count(bits, lo, hi - 1, state) + if Bit(bits, hi - 1) == state then 1 else 0
  }

  ghost function States(bits: seq<byte>, lo: nat, hi: nat): Tally {
    Tally(Count(bits, lo, hi, Some(false)), Count(bits, lo, hi, Some(true)), Count(bits, lo, hi, None), 0)
  }

  /** The part of a run that lies below `described`. */
  function Clip(run: Run, described: nat): (r: nat)
    ensures r <= run.length
    ensures r > 0 ==> run.lcn.Some? && run.lcn.value + r <= described
  {
    match run.lcn
    case None => 0
    case Some(lcn) => Max(Min(lcn + run.length, described) - lcn, 0)
  }

  ghost function Entry(bits: seq<byte>, run: Run, walk: nat): Tally
    requires walk <= run.length
  {
    match run.lcn
    case None => Tally(0, 0, 0, run.length)
    case Some(lcn) =>
      Tally(Count(bits, lcn, lcn + walk, Some(false)), Count(bits, lcn, lcn + walk, Some(true)), run.length - walk, 0)
  }

  ghost function Tallied(bits: seq<byte>, runs: seq<Run>, described: nat, budget: nat): Tally {
    if runs == [] then ZERO
    else
      var walk := Min(Clip(runs[0], described), budget);
      Entry(bits, runs[0], walk).Plus(Tallied(bits, runs[1..], described, budget - walk))
  }

  /** What the runlist declares, cluster by cluster. */
  ghost function Declared(runs: seq<Run>): nat {
    if runs == [] then 0 else runs[0].length + Declared(runs[1..])
  }

  /** Clusters of the runlist that lie inside the bitmap, one for every time a run names them. */
  ghost function Reachable(runs: seq<Run>, described: nat): nat {
    if runs == [] then 0 else Clip(runs[0], described) + Reachable(runs[1..], described)
  }

  ghost function NaiveRun(bits: seq<byte>, run: Run, state: bool): nat {
    match run.lcn
    case None => 0
    case Some(lcn) => Count(bits, lcn, Min(lcn + run.length, U64_MAX), Some(state))
  }

  /** The reference count: every cluster of every run is looked up, with no budget. */
  ghost function Naive(bits: seq<byte>, runs: seq<Run>, state: bool): nat {
    if runs == [] then 0 else NaiveRun(bits, runs[0], state) + Naive(bits, runs[1..], state)
  }

  // ----- the counter -----

  /** The bitmap, read from the volume at most once; `None` when it cannot be read or is not credible. */
  class ClusterMap {
    var bits: Option<seq<byte>>
    var attempted: bool

    constructor ()
      ensures bits == None && !attempted
    {
      bits, attempted := None, false;
    }

    /** Holds when whatever has been memoised is what `volume` would give. */
    ghost predicate Remembers(volume: Option<seq<byte>>)
      reads this
    {
      attempted ==> bits == Credible(volume)
    }

    method Bits(volume: Option<seq<byte>>) returns (r: Option<seq<byte>>)
      requires Remembers(volume)
      modifies this
      ensures Remembers(volume) && attempted
      ensures r == Credible(volume)
    {
      if !attempted {
        attempted := true;
        bits := Credible(volume);
      }
      r := bits;
    }

    /** Counts the runlist against the bitmap; `steps` is the number of clusters looked up. */
    method Allocate(volume: Option<seq<byte>>, runs: seq<Run>) returns (r: Option<Allocation>, steps: nat)
      requires Remembers(volume)
      requires volume.Some? ==> |volume.value| <= MAX_BITMAP_BYTES
      modifies this
      ensures Remembers(volume)
      ensures r.Some? <==> Credible(volume).Some?
      ensures r == Allocated(volume, runs)
      ensures steps <= if r.Some? then 8 * |volume.value| else 0
    {
      var image := Bits(volume);
      if image == None {
        return None, 0;
      }
      var found;
      found, steps := CountRuns(image.value, runs);
      r := Some(found);
    }
  }

  /** The outer loop of the count, once the bitmap is in hand. */
  method CountRuns(bits: seq<byte>, runs: seq<Run>) returns (found: Allocation, steps: nat)
    requires |bits| <= MAX_BITMAP_BYTES
    ensures found == Measure(bits, runs).Saturated()
    ensures steps <= 8 * |bits|
  {
    var described := Described(bits);
    var budget: u64 := described;
    ghost var exact := ZERO;
    found, steps := Allocation(0, 0, 0, 0), 0;
    for i := 0 to |runs|
      invariant steps + budget == described
      invariant found == exact.Saturated()
      invariant exact.Plus(Tallied(bits, runs[i..], described, budget)) == Measure(bits, runs)
    {
      TalliedStep(bits, runs, i, described, budget);
      var walk;
      found, walk := CountRun(bits, runs[i], described, budget, found, exact);
      PlusAssociates(exact, Entry(bits, runs[i], walk), Tallied(bits, runs[i + 1..], described, budget - walk));
      exact := exact.Plus(Entry(bits, runs[i], walk));
      budget, steps := budget - walk, steps + walk;
    }
  }

  lemma TalliedStep(bits: seq<byte>, runs: seq<Run>, i: nat, described: nat, budget: nat)
    requires i < |runs|
    ensures var walk := Min(Clip(runs[i], described), budget);
      Tallied(bits, runs[i..], described, budget)
      == Entry(bits, runs[i], walk).Plus(Tallied(bits, runs[i + 1..], described, budget - walk))
  {
    assert runs[i..][0] == runs[i] && runs[i..][1..] == runs[i + 1..];
  }

  lemma PlusAssociates(a: Tally, b: Tally, c: Tally)
    ensures a.Plus(b).Plus(c) == a.Plus(b.Plus(c))
  {
  }

  /** One turn of the outer loop: adds a run to the counters and says how many clusters were looked up for it. */
  method CountRun(bits: seq<byte>, run: Run, described: u64, budget: u64, before: Allocation, ghost exact: Tally)
    returns (found: Allocation, walk: u64)
    requires described <= 8 * |bits|
    requires before == exact.Saturated()
    ensures walk == Min(Clip(run, described), budget) <= run.length
    ensures found == exact.Plus(Entry(bits, run, walk)).Saturated()
  {
    match run.lcn
    case None =>
      walk := 0;
      found := before.(sparse := SaturatingAdd(before.sparse, run.length));
    case Some(lcn) =>
      var reach := Min(SaturatingAdd(lcn, run.length), described);
      walk := Min(SaturatingSub(reach, lcn), budget);
      found := LookUp(bits, lcn, walk, before, exact);
      AddUnknown(bits, lcn, walk, exact, run.length - walk);
      found := found.(unknown := SaturatingAdd(found.unknown, SaturatingSub(run.length, walk)));
  }

  lemma AddUnknown(bits: seq<byte>, lcn: nat, walk: nat, exact: Tally, more: nat)
    requires lcn + walk <= 8 * |bits| || walk == 0
    ensures var inside := exact.Plus(States(bits, lcn, lcn + walk)).Saturated();
      inside.(unknown := Min(inside.unknown + more, U64_MAX))
      == exact.Plus(Tally(Count(bits, lcn, lcn + walk, Some(false)), Count(bits, lcn, lcn + walk, Some(true)), more, 0))
           .Saturated()
  {
    NothingUnknownInside(bits, lcn, lcn + walk);
  }

  /** The inner loop: looks up the `walk` clusters from `lcn` on, one by one. */
  method LookUp(bits: seq<byte>, lcn: u64, walk: u64, before: Allocation, ghost exact: Tally) returns (found: Allocation)
    requires walk > 0 ==> lcn + walk <= U64_MAX
    requires before == exact.Saturated()
    ensures found == exact.Plus(States(bits, lcn, lcn + walk)).Saturated()
  {
    found := before;
    for cluster := lcn to SaturatingAdd(lcn, walk)
      invariant found == exact.Plus(States(bits, lcn, cluster)).Saturated()
    {
      match Bit(bits, cluster)
      case Some(true) => found := found.(reused := SaturatingAdd(found.reused, 1));
      case Some(false) => found := found.(free := SaturatingAdd(found.free, 1));
      case None => found := found.(unknown := SaturatingAdd(found.unknown, 1));
    }
  }

  lemma {:induction false} NothingUnknownInside(bits: seq<byte>, lo: nat, hi: nat)
    requires hi <= 8 * |bits| || hi <= lo
    ensures Count(bits, lo, hi, None) == 0
    ensures lo <= hi ==> Count(bits, lo, hi, Some(false)) + Count(bits, lo, hi, Some(true)) == hi - lo
    decreases hi - lo
  {
    if lo < hi {
      NothingUnknownInside(bits, lo, hi - 1);
    }
  }

  predicate BitmapIsCredible(bits: seq<byte>) {
    Bit(bits, 0) == Some(true)
  }

  function Credible(volume: Option<seq<byte>>): Option<seq<byte>> {
    if volume.Some? && BitmapIsCredible(volume.value) then volume else None
  }

  /** What `Allocate` gives: nothing without a credible bitmap, and else the saturated tally. */
  ghost function Allocated(volume: Option<seq<byte>>, runs: seq<Run>): Option<Allocation>
    requires volume.Some? ==> |volume.value| <= MAX_BITMAP_BYTES
  {
    if Credible(volume).Some? then Some(Measure(volume.value, runs).Saturated()) else None
  }

  ghost function Measure(bits: seq<byte>, runs: seq<Run>): Tally
    requires |bits| <= MAX_BITMAP_BYTES
  {
    Tallied(bits, runs, Described(bits), Described(bits))
  }

  // ----- what the counters add up to -----

  lemma EntryIsWhole(bits: seq<byte>, run: Run, walk: nat)
    requires walk <= Clip(run, 8 * |bits|)
    ensures Entry(bits, run, walk).Total() == run.length
  {
    if run.lcn.Some? {
      NothingUnknownInside(bits, run.lcn.value, run.lcn.value + walk);
    }
  }

  /** Every cluster the runlist declares lands in exactly one counter. */
  lemma {:induction false} TalliedIsWhole(bits: seq<byte>, runs: seq<Run>, described: nat, budget: nat)
    requires described <= 8 * |bits|
    ensures Tallied(bits, runs, described, budget).Total() == Declared(runs)
  {
    hide Entry, Count, Bit;
    if runs != [] {
      var walk := Min(Clip(runs[0], described), budget);
      EntryIsWhole(bits, runs[0], walk);
      TalliedIsWhole(bits, runs[1..], described, budget - walk);
    }
  }

  /** Conservation: a declared total that fits a 64-bit counter is what the four counters sum to. */
  lemma Conservation(bits: seq<byte>, runs: seq<Run>)
    requires |bits| <= MAX_BITMAP_BYTES
    requires Declared(runs) <= U64_MAX
    ensures var a := Measure(bits, runs).Saturated();
      a.free + a.reused + a.unknown + a.sparse == Declared(runs)
  {
    TalliedIsWhole(bits, runs, Described(bits), Described(bits));
  }

  lemma {:induction false} CountGrows(bits: seq<byte>, lo: nat, mid: nat, hi: nat, state: Option<bool>)
    requires mid <= hi
    ensures Count(bits, lo, mid, state) <= Count(bits, lo, hi, state)
    ensures 8 * |bits| <= mid && state.Some? ==> Count(bits, lo, mid, state) == Count(bits, lo, hi, state)
    decreases hi - mid
  {
    if mid < hi {
      CountGrows(bits, lo, mid, hi - 1, state);
    }
  }

  lemma CountPrefix(bits: seq<byte>, lo: nat, mid: nat, hi: nat)
    requires lo <= mid <= hi && (hi <= 8 * |bits| || hi == lo)
    ensures Count(bits, lo, mid, Some(false)) <= Count(bits, lo, hi, Some(false))
    ensures Count(bits, lo, mid, Some(true)) <= Count(bits, lo, hi, Some(true))
    ensures Count(bits, lo, mid, Some(false)) + Count(bits, lo, mid, Some(true)) == mid - lo
    ensures Count(bits, lo, hi, Some(false)) + Count(bits, lo, hi, Some(true)) == hi - lo
  {
    NothingUnknownInside(bits, lo, mid);
    NothingUnknownInside(bits, lo, hi);
    CountGrows(bits, lo, mid, hi, Some(false));
    CountGrows(bits, lo, mid, hi, Some(true));
  }

  /** The naive loop sees exactly the clipped part of a run. */
  lemma NaiveIsClipped(bits: seq<byte>, run: Run, state: bool)
    requires |bits| <= MAX_BITMAP_BYTES && run.lcn.Some?
    ensures NaiveRun(bits, run, state)
         == Count(bits, run.lcn.value, run.lcn.value + Clip(run, 8 * |bits|), Some(state))
  {
    var lcn := run.lcn.value;
    var reach := lcn + Clip(run, 8 * |bits|);
    if reach < Min(lcn + run.length, U64_MAX) {
      CountGrows(bits, lcn, reach, Min(lcn + run.length, U64_MAX), Some(state));
    }
  }

  lemma EntryAgainstNaive(bits: seq<byte>, run: Run, walk: nat)
    requires |bits| <= MAX_BITMAP_BYTES && walk <= Clip(run, 8 * |bits|)
    ensures Entry(bits, run, walk).free <= NaiveRun(bits, run, false)
    ensures Entry(bits, run, walk).reused <= NaiveRun(bits, run, true)
    ensures Entry(bits, run, walk).free + Entry(bits, run, walk).reused == walk
    ensures NaiveRun(bits, run, false) + NaiveRun(bits, run, true) == Clip(run, 8 * |bits|)
  {
    hide Bit, Count;
    match run.lcn
    case None =>
    case Some(lcn) =>
      var clip := Clip(run, 8 * |bits|);
      NaiveIsClipped(bits, run, false);
      NaiveIsClipped(bits, run, true);
      CountPrefix(bits, lcn, lcn + walk, lcn + clip);
  }

  lemma {:induction false} AgainstNaive(bits: seq<byte>, runs: seq<Run>, budget: nat)
    requires |bits| <= MAX_BITMAP_BYTES
    ensures var t := Tallied(bits, runs, 8 * |bits|, budget);
      && t.free <= Naive(bits, runs, false)
      && t.reused <= Naive(bits, runs, true)
      && t.free + t.reused == Min(Reachable(runs, 8 * |bits|), budget)
      && Naive(bits, runs, false) + Naive(bits, runs, true) == Reachable(runs, 8 * |bits|)
  {
    if runs != [] {
      var walk := Min(Clip(runs[0], 8 * |bits|), budget);
      EntryAgainstNaive(bits, runs[0], walk);
      AgainstNaive(bits, runs[1..], budget - walk);
    }
  }

  /** The budget costs nothing exactly when the runs name no more clusters than the bitmap has. */
  lemma BoundedByNaive(bits: seq<byte>, runs: seq<Run>)
    requires |bits| <= MAX_BITMAP_BYTES
    ensures var t := Measure(bits, runs);
      && t.free <= Naive(bits, runs, false) && t.reused <= Naive(bits, runs, true)
      && (t.free == Naive(bits, runs, false) && t.reused == Naive(bits, runs, true)
          <==> Reachable(runs, 8 * |bits|) <= 8 * |bits|)
  {
    AgainstNaive(bits, runs, 8 * |bits|);
  }

  ghost predicate Names(run: Run, cluster: nat) {
    run.lcn.Some? && run.lcn.value <= cluster < run.lcn.value + run.length
  }

  ghost predicate Disjoint(runs: seq<Run>) {
    forall i, j, cluster | 0 <= i < j < |runs| && Names(runs[i], cluster) :: !Names(runs[j], cluster)
  }

  ghost function Interval(lo: nat, hi: nat): (r: set<nat>)
    ensures forall c: nat :: c in r <==> lo <= c < hi
    ensures |r| == Max(hi - lo, 0)
    decreases hi - lo
  {
    if hi <= lo then {} else Interval(lo, hi - 1) + {hi - 1}
  }

  /** The clusters below `described` that one run names. */
  ghost function Cell(run: Run, described: nat): (r: set<nat>)
    ensures forall c: nat :: c in r <==> c < described && Names(run, c)
    ensures |r| == Clip(run, described)
  {
    if run.lcn == None then {} else Interval(run.lcn.value, run.lcn.value + Clip(run, described))
  }

  ghost function Cells(runs: seq<Run>, described: nat): set<nat> {
    if runs == [] then {} else Cell(runs[0], described) + Cells(runs[1..], described)
  }

  lemma {:induction false} CellsAre(runs: seq<Run>, described: nat)
    ensures forall c: nat :: c in Cells(runs, described) <==> c < described && exists run <- runs :: Names(run, c)
  {
    if runs != [] {
      CellsAre(runs[1..], described);
      forall c: nat
        ensures c in Cells(runs, described) <==> c < described && exists run <- runs :: Names(run, c)
      {
        assert runs == [runs[0]] + runs[1..];
      }
    }
  }

  lemma {:induction false} DisjointCells(runs: seq<Run>, described: nat)
    requires Disjoint(runs)
    ensures |Cells(runs, described)| == Reachable(runs, described)
  {
    if runs != [] {
      DisjointCells(runs[1..], described);
      CellsAre(runs[1..], described);
      assert Cell(runs[0], described) !! Cells(runs[1..], described);
    }
  }

  /** Runs that do not overlap never exhaust the budget, so the bounded count is the naive one. */
  lemma ExactWithoutOverlap(bits: seq<byte>, runs: seq<Run>)
    requires |bits| <= MAX_BITMAP_BYTES && Disjoint(runs)
    ensures Reachable(runs, 8 * |bits|) <= 8 * |bits|
    ensures Measure(bits, runs).free == Naive(bits, runs, false)
    ensures Measure(bits, runs).reused == Naive(bits, runs, true)
  {
    DisjointCells(runs, 8 * |bits|);
    CellsAre(runs, 8 * |bits|);
    SubsetSize(Cells(runs, 8 * |bits|), Interval(0, 8 * |bits|));
    BoundedByNaive(bits, runs);
  }

  lemma SubsetSize(a: set<nat>, b: set<nat>)
    requires a <= b
    ensures |a| <= |b|
  {
    assert b == a + (b - a);
  }

  // ----- what the counters let a carve say -----

  /** Every cluster the run names reads as `state`, and none lies past the bitmap. */
  ghost predicate Uniform(bits: seq<byte>, run: Run, state: bool) {
    forall cluster: nat | Names(run, cluster) :: Bit(bits, cluster) == Some(state)
  }

  ghost predicate EveryNamed(bits: seq<byte>, runs: seq<Run>, state: bool) {
    forall i | 0 <= i < |runs| :: Uniform(bits, runs[i], state)
  }

  ghost predicate SomeNamed(bits: seq<byte>, runs: seq<Run>, state: bool) {
    exists i, cluster: nat :: 0 <= i < |runs| && Names(runs[i], cluster) && Bit(bits, cluster) == Some(state)
  }

  /** Clusters the runlist names on the disk, and clusters it says were never there. */
  ghost function OnDisk(runs: seq<Run>): nat {
    if runs == [] then 0 else (if runs[0].lcn.Some? then runs[0].length else 0) + OnDisk(runs[1..])
  }

  ghost function Holes(runs: seq<Run>): nat {
    if runs == [] then 0 else (if runs[0].lcn.Some? then 0 else runs[0].length) + Holes(runs[1..])
  }

  lemma {:induction false} CountedAll(bits: seq<byte>, lo: nat, hi: nat, state: Option<bool>)
    requires lo <= hi
    ensures Count(bits, lo, hi, state) <= hi - lo
    ensures Count(bits, lo, hi, state) == hi - lo <==> forall c: nat | lo <= c < hi :: Bit(bits, c) == state
    ensures Count(bits, lo, hi, state) == 0 <==> forall c: nat | lo <= c < hi :: Bit(bits, c) != state
    decreases hi - lo
  {
    if lo < hi {
      CountedAll(bits, lo, hi - 1, state);
    }
  }

  /** The counter that must stay at zero when every named cluster reads as `state`. */
  ghost function Against(t: Tally, state: bool): nat { if state then t.free else t.reused }

  lemma CleanEntry(bits: seq<byte>, run: Run, walk: nat, budget: nat, state: bool)
    requires walk == Min(Clip(run, 8 * |bits|), budget)
    ensures var e := Entry(bits, run, walk);
      && e.sparse == (if run.lcn == None then run.length else 0)
      && (e.unknown == 0 && Against(e, state) == 0
          <==> Uniform(bits, run, state) && (run.lcn.Some? ==> run.length <= budget))
  {
    hide Bit, Count;
    if run.lcn.Some? {
      var lcn := run.lcn.value;
      CountedAll(bits, lcn, lcn + walk, Some(!state));
      if walk == run.length {
        DescribedBits(bits, lcn, lcn + walk, state);
        assert forall c: nat :: Names(run, c) <==> lcn <= c < lcn + walk;
      } else if run.length <= budget {
        assert Names(run, lcn + walk) && Bit(bits, lcn + walk) == None by { PastTheEnd(bits, lcn + walk); }
      }
    }
  }

  lemma DescribedBits(bits: seq<byte>, lo: nat, hi: nat, state: bool)
    requires hi <= 8 * |bits| || hi <= lo
    ensures forall c: nat | lo <= c < hi :: Bit(bits, c) == Some(state) <==> Bit(bits, c) != Some(!state)
  {
    hide BitOf;
  }

  lemma PastTheEnd(bits: seq<byte>, c: nat)
    requires c >= 8 * |bits|
    ensures Bit(bits, c) == None
  {
  }

  lemma EveryNamedSplits(bits: seq<byte>, runs: seq<Run>, state: bool)
    requires runs != []
    ensures EveryNamed(bits, runs, state) <==> Uniform(bits, runs[0], state) && EveryNamed(bits, runs[1..], state)
  {
    hide Uniform;
    assert forall i | 0 < i < |runs| :: runs[i] == runs[1..][i - 1];
  }

  /** Nothing unknown and nothing contrary: true of exactly the runlists whose every cluster reads as `state`. */
  lemma {:induction false} CleanTally(bits: seq<byte>, runs: seq<Run>, budget: nat, state: bool)
    ensures var t := Tallied(bits, runs, 8 * |bits|, budget);
      && t.sparse == Holes(runs)
      && (t.unknown == 0 && Against(t, state) == 0 <==> EveryNamed(bits, runs, state) && OnDisk(runs) <= budget)
  {
    if runs != [] {
      hide Entry, Uniform, EveryNamed;
      var walk := Min(Clip(runs[0], 8 * |bits|), budget);
      CleanTally(bits, runs[1..], budget - walk, state);
      EveryNamedSplits(bits, runs, state);
      CleanEntry(bits, runs[0], walk, budget, state);
      CleanWalk(bits, runs[0], walk, budget, state);
    }
  }

  /** A clean run on the disk was walked to its end. */
  lemma CleanWalk(bits: seq<byte>, run: Run, walk: nat, budget: nat, state: bool)
    requires walk == Min(Clip(run, 8 * |bits|), budget)
    ensures run.lcn.Some? && Entry(bits, run, walk).unknown == 0 ==> walk == run.length
  {
  }

  /** A counter above zero has seen a cluster, and a count the budget did not cut has seen every one. */
  lemma {:induction false} SeenTally(bits: seq<byte>, runs: seq<Run>, budget: nat)
    ensures var t := Tallied(bits, runs, 8 * |bits|, budget);
      && (t.free > 0 ==> SomeNamed(bits, runs, false))
      && (t.reused > 0 ==> SomeNamed(bits, runs, true))
      && (Reachable(runs, 8 * |bits|) <= budget && SomeNamed(bits, runs, false) ==> t.free > 0)
      && (Reachable(runs, 8 * |bits|) <= budget && SomeNamed(bits, runs, true) ==> t.reused > 0)
  {
    if runs != [] {
      var walk := Min(Clip(runs[0], 8 * |bits|), budget);
      SeenTally(bits, runs[1..], budget - walk);
      SomeNamedSplits(bits, runs, false);
      SomeNamedSplits(bits, runs, true);
      SeenEntry(bits, runs[0], walk, false);
      SeenEntry(bits, runs[0], walk, true);
    }
  }

  lemma SomeNamedSplits(bits: seq<byte>, runs: seq<Run>, state: bool)
    requires runs != []
    ensures SomeNamed(bits, runs, state) <==> SomeNamed(bits, [runs[0]], state) || SomeNamed(bits, runs[1..], state)
  {
    if SomeNamed(bits, runs, state) {
      var i, cluster: nat :| 0 <= i < |runs| && Names(runs[i], cluster) && Bit(bits, cluster) == Some(state);
      if i == 0 {
        assert Names([runs[0]][0], cluster);
      } else {
        assert Names(runs[1..][i - 1], cluster);
      }
    }
    if SomeNamed(bits, runs[1..], state) {
      var i, cluster: nat :| 0 <= i < |runs[1..]| && Names(runs[1..][i], cluster) && Bit(bits, cluster) == Some(state);
      assert Names(runs[i + 1], cluster);
    }
  }

  lemma SeenEntry(bits: seq<byte>, run: Run, walk: nat, state: bool)
    requires walk <= Clip(run, 8 * |bits|)
    ensures var seen := if state then Entry(bits, run, walk).reused else Entry(bits, run, walk).free;
      && (seen > 0 ==> SomeNamed(bits, [run], state))
      && (walk == Clip(run, 8 * |bits|) && SomeNamed(bits, [run], state) ==> seen > 0)
  {
    hide Bit, Count;
    match run.lcn
    case None =>
    case Some(lcn) =>
      CountedAll(bits, lcn, lcn + walk, Some(state));
      if c: nat :| lcn <= c < lcn + walk && Bit(bits, c) == Some(state) {
        assert Names([run][0], c);
      }
      if walk == Clip(run, 8 * |bits|) && SomeNamed(bits, [run], state) {
        var i, c: nat :| 0 <= i < |[run]| && Names([run][i], c) && Bit(bits, c) == Some(state);
        assert c < 8 * |bits| by {
          if c >= 8 * |bits| { PastTheEnd(bits, c); }
        }
        assert lcn <= c < lcn + walk;
      }
  }

  /** The clusters the budgeted count looks up: each run cut short where the count stops, holes to nothing. */
  ghost function Cut(runs: seq<Run>, described: nat, budget: nat): seq<Run> {
    if runs == [] then []
    else
      var walk := Min(Clip(runs[0], described), budget);
      [Run(runs[0].lcn, walk)] + Cut(runs[1..], described, budget - walk)
  }

  /** For every runlist, a counter is above zero exactly when some cluster before the cut reads that way. */
  lemma {:induction false} CutTally(bits: seq<byte>, runs: seq<Run>, budget: nat)
    ensures var t, cut := Tallied(bits, runs, 8 * |bits|, budget), Cut(runs, 8 * |bits|, budget);
      && (t.free > 0 <==> SomeNamed(bits, cut, false))
      && (t.reused > 0 <==> SomeNamed(bits, cut, true))
  {
    hide Bit, Count, SomeNamed;
    if runs == [] {
      NothingNamed(bits);
    } else {
      var walk := Min(Clip(runs[0], 8 * |bits|), budget);
      var cut := Cut(runs, 8 * |bits|, budget);
      CutTally(bits, runs[1..], budget - walk);
      assert cut[0] == Run(runs[0].lcn, walk) && cut[1..] == Cut(runs[1..], 8 * |bits|, budget - walk);
      SomeNamedSplits(bits, cut, false);
      SomeNamedSplits(bits, cut, true);
      SeenEntry(bits, cut[0], walk, false);
      SeenEntry(bits, cut[0], walk, true);
    }
  }

  lemma NothingNamed(bits: seq<byte>)
    ensures !SomeNamed(bits, [], false) && !SomeNamed(bits, [], true)
  {
  }

  /** The runlist names a cluster the bitmap does not describe. */
  ghost predicate SomePast(runs: seq<Run>, described: nat) {
    exists i, cluster: nat :: 0 <= i < |runs| && Names(runs[i], cluster) && cluster >= described
  }

  lemma PastEntry(run: Run, described: nat)
    ensures (exists cluster: nat :: Names(run, cluster) && cluster >= described)
            <==> run.lcn.Some? && Clip(run, described) < run.length
  {
    if run.lcn.Some? && Clip(run, described) < run.length {
      assert Names(run, run.lcn.value + run.length - 1);
    }
  }

  /** The clusters on the disk that the bitmap does not reach are those it does not describe. */
  lemma {:induction false} ReachableMisses(runs: seq<Run>, described: nat)
    ensures Reachable(runs, described) <= OnDisk(runs)
    ensures Reachable(runs, described) < OnDisk(runs) <==> SomePast(runs, described)
  {
    if runs != [] {
      hide Clip;
      ReachableMisses(runs[1..], described);
      PastEntry(runs[0], described);
      assert runs == [runs[0]] + runs[1..];
      if i, cluster: nat :| 0 <= i < |runs| && Names(runs[i], cluster) && cluster >= described {
        assert i > 0 ==> Names(runs[1..][i - 1], cluster);
      }
      if i, cluster: nat :| 0 <= i < |runs[1..]| && Names(runs[1..][i], cluster) && cluster >= described {
        assert Names(runs[i + 1], cluster);
      }
    }
  }

  /** Clusters count as unknown exactly when some lie past the bitmap, or the runs name more than it has. */
  lemma UnknownTally(bits: seq<byte>, runs: seq<Run>)
    requires |bits| <= MAX_BITMAP_BYTES
    ensures Measure(bits, runs).unknown > 0
            <==> SomePast(runs, 8 * |bits|) || Reachable(runs, 8 * |bits|) > 8 * |bits|
  {
    hide Bit, Tallied, SomePast;
    AgainstNaive(bits, runs, 8 * |bits|);
    CleanTally(bits, runs, 8 * |bits|, false);
    TalliedIsWhole(bits, runs, 8 * |bits|, 8 * |bits|);
    DeclaredSplits(runs);
    ReachableMisses(runs, 8 * |bits|);
  }

  /** How a carve from a free record describes itself when no recorded hash can judge it. */
  datatype Basis = Resident | Overwritten | PastTheBitmap | AllFree | FreeWithHoles | OnlyHoles | NoBitmap {
    predicate Partial() { Overwritten? || OnlyHoles? }
  }

  function CarveBasis(runs: seq<Run>, allocation: Option<Allocation>): Basis {
    if runs == [] then Resident
    else
      match allocation
      case None => NoBitmap
      case Some(a) =>
        if a.reused > 0 then Overwritten
        else if a.unknown > 0 then PastTheBitmap
        else if a.sparse == 0 then AllFree
        else if a.free > 0 then FreeWithHoles
        else OnlyHoles
  }

  /** "All of its clusters are still marked free" is said of exactly the runlists of which it is true. */
  lemma CarveBasisIsSound(bits: seq<byte>, runs: seq<Run>)
    requires |bits| <= MAX_BITMAP_BYTES && runs != []
    ensures var basis := CarveBasis(runs, Some(Measure(bits, runs).Saturated()));
      && (basis.AllFree? || basis.FreeWithHoles? || basis.OnlyHoles?
          <==> EveryNamed(bits, runs, false) && OnDisk(runs) <= 8 * |bits|)
      && (basis.AllFree? ==> Holes(runs) == 0)
      && (basis.FreeWithHoles? ==> Holes(runs) > 0 && OnDisk(runs) > 0)
      && (basis.OnlyHoles? ==> Holes(runs) > 0 && OnDisk(runs) == 0)
      && (basis.Overwritten? <==> SomeNamed(bits, Cut(runs, 8 * |bits|, 8 * |bits|), true))
      && (basis.Overwritten? ==> SomeNamed(bits, runs, true))
      && (Reachable(runs, 8 * |bits|) <= 8 * |bits| ==> (basis.Overwritten? <==> SomeNamed(bits, runs, true)))
      && (basis.PastTheBitmap?
          <==> && !SomeNamed(bits, Cut(runs, 8 * |bits|, 8 * |bits|), true)
               && (SomePast(runs, 8 * |bits|) || Reachable(runs, 8 * |bits|) > 8 * |bits|))
  {
    hide Bit, Tallied, EveryNamed, SomeNamed, Cut, SomePast;
    UnknownTally(bits, runs);
    CleanTally(bits, runs, 8 * |bits|, false);
    SeenTally(bits, runs, 8 * |bits|);
    CutTally(bits, runs, 8 * |bits|);
    TalliedIsWhole(bits, runs, 8 * |bits|, 8 * |bits|);
    DeclaredSplits(runs);
  }

  /** Whatever the bitmap: a carve is called resident exactly when it has no runs; it claims something of its clusters only
      from a credible bitmap, and owns up to having none; and it is offered as fragments exactly when a cluster before the
      cut is taken, or it is nothing but holes. */
  lemma CarveBasisOfAnyBitmap(volume: Option<seq<byte>>, runs: seq<Run>)
    requires volume.Some? ==> |volume.value| <= MAX_BITMAP_BYTES
    ensures var basis, credible := CarveBasis(runs, Allocated(volume, runs)), Credible(volume).Some?;
      && (basis.Resident? <==> runs == [])
      && (basis.NoBitmap? <==> runs != [] && !credible)
      && (basis.Overwritten? || basis.PastTheBitmap? || basis.AllFree? || basis.FreeWithHoles? || basis.OnlyHoles?
          <==> runs != [] && credible)
      && (basis.Partial()
          <==> && runs != [] && credible
               && (SomeNamed(volume.value, Cut(runs, 8 * |volume.value|, 8 * |volume.value|), true)
                   || (OnDisk(runs) == 0 && Holes(runs) > 0)))
  {
    hide Bit, Tallied, EveryNamed, SomeNamed, Cut, SomePast, Credible;
    CredibleIs(volume);
    if runs != [] && Credible(volume).Some? {
      CarveBasisIsSound(volume.value, runs);
      NothingOnDiskIsClean(volume.value, runs);
    }
  }

  lemma NothingOnDiskIsClean(bits: seq<byte>, runs: seq<Run>)
    requires |bits| <= MAX_BITMAP_BYTES
    ensures OnDisk(runs) == 0 ==> var t := Measure(bits, runs); t.free == t.reused == t.unknown == 0 && t.sparse == Holes(runs)
  {
    hide Bit, Tallied, EveryNamed;
    CleanTally(bits, runs, 8 * |bits|, false);
    TalliedIsWhole(bits, runs, 8 * |bits|, 8 * |bits|);
    DeclaredSplits(runs);
  }

  /** Whatever the bitmap: without a credible one a file is read and its ownership owned up to as unverifiable, and a
      ghost is read as standing unknown; with one, each verdict is of the tally. */
  lemma VerdictsWithoutABitmap(volume: Option<seq<byte>>, runs: seq<Run>)
    requires volume.Some? ==> |volume.value| <= MAX_BITMAP_BYTES
    ensures var owned, standing, credible :=
        Owned(Allocated(volume, runs)), GhostStanding(Allocated(volume, runs)), Credible(volume).Some?;
      && (owned == Some(Unverifiable) <==> !credible)
      && (standing == NotKnown <==> !credible)
      && (!credible ==> standing.Readable())
      && (standing == Taken <==> credible && SomeNamed(volume.value, Cut(runs, 8 * |volume.value|, 8 * |volume.value|), true))
  {
    hide Tallied, SomeNamed, Cut, Credible;
    CredibleIs(volume);
    if Credible(volume).Some? { CutTally(volume.value, runs, 8 * |volume.value|); }
  }

  /** Two runs over the same six clear clusters: the second half of the count is cut off, and the carve is said to reach
      past the bitmap, as a ghost is said to be vouched for in part, although every cluster is inside and clear. */
  lemma InsideIsCalledPast(bits: seq<byte>, run: Run)
    requires bits == [0x81] && run == Run(Some(1), 6)
    ensures var runs := [run, run];
      && EveryNamed(bits, runs, false) && !SomePast(runs, 8 * |bits|)
      && CarveBasis(runs, Some(Measure(bits, runs).Saturated())) == PastTheBitmap
      && GhostStanding(Some(Measure(bits, runs).Saturated())) == PartlyVouched
  {
    hide Tallied;
    var runs := [run, run];
    forall i, c: nat | 0 <= i < |runs| && Names(runs[i], c) ensures Bit(bits, c) == Some(false) {
      assert c == 1 || c == 2 || c == 3 || c == 4 || c == 5 || c == 6;
    }
    assert Names(runs[0], 1);
    assert runs[1..] == [run] && [run][1..] == [];
    assert Reachable([run], 8 * |bits|) == 6;
    UnknownTally(bits, runs);
    SeenTally(bits, runs, 8 * |bits|);
    ClearIsFree(bits, runs);
  }

  /** A runlist that names clear clusters only, and some, has some counted as free. */
  lemma ClearIsFree(bits: seq<byte>, runs: seq<Run>)
    requires |bits| <= MAX_BITMAP_BYTES && runs != [] && Clip(runs[0], 8 * |bits|) > 0
    requires EveryNamed(bits, runs, false)
    ensures Measure(bits, runs).free > 0 && Measure(bits, runs).reused == 0
  {
    hide Bit, Tallied;
    AgainstNaive(bits, runs, 8 * |bits|);
    SeenTally(bits, runs, 8 * |bits|);
  }

  lemma {:induction false} DeclaredSplits(runs: seq<Run>)
    ensures Declared(runs) == OnDisk(runs) + Holes(runs)
  {
    if runs != [] {
      DeclaredSplits(runs[1..]);
    }
  }

  /** Why a record whose name has no directory entry may still be read as this file. */
  datatype Ownership = NoClusters | AllAllocated | Unverifiable

  function Owned(allocation: Option<Allocation>): Option<Ownership> {
    match allocation
    case None => Some(Unverifiable)
    case Some(a) =>
      if a.free + a.reused + a.unknown + a.sparse == 0 then Some(NoClusters)
      else if a.free == 0 && a.unknown == 0 then Some(AllAllocated)
      else None
  }

  /** "Every cluster is still allocated" holds of the clusters on the disk; a file of nothing but holes passes too. */
  lemma OwnershipIsSound(bits: seq<byte>, runs: seq<Run>)
    requires |bits| <= MAX_BITMAP_BYTES && Declared(runs) <= U64_MAX
    ensures var owned := Owned(Some(Measure(bits, runs).Saturated()));
      && (owned == Some(NoClusters) <==> Declared(runs) == 0)
      && (owned == Some(AllAllocated)
          <==> Declared(runs) > 0 && EveryNamed(bits, runs, true) && OnDisk(runs) <= 8 * |bits|)
  {
    hide Bit, Tallied, EveryNamed, SomeNamed;
    CleanTally(bits, runs, 8 * |bits|, true);
    Conservation(bits, runs);
  }

  /** Three clusters that were never there pass for three that are still allocated. */
  lemma HolesPassForAllocated(bits: seq<byte>)
    requires |bits| <= MAX_BITMAP_BYTES
    ensures OnDisk([Run(None, 3)]) == 0
    ensures Owned(Some(Measure(bits, [Run(None, 3)]).Saturated())) == Some(AllAllocated)
  {
    hide Tallied;
    var runs := [Run(None, 3)];
    assert runs[1..] == [];
    OwnershipIsSound(bits, runs);
  }

  /** What the bitmap says of a runlist no record vouches for any more. */
  datatype Standing = Taken | NothingOnDisk | PartlyVouched | StillFree | NotKnown {
    predicate Readable() { PartlyVouched? || StillFree? || NotKnown? }
  }

  function GhostStanding(allocation: Option<Allocation>): Standing {
    match allocation
    case None => NotKnown
    case Some(a) =>
      if a.reused > 0 then Taken
      else if a.free == 0 then NothingOnDisk
      else if a.unknown > 0 || a.sparse > 0 then PartlyVouched
      else StillFree
  }

  /** A ghost is read exactly when some cluster before the cut is clear and none before it is taken. For runs that name
      no more clusters than the bitmap has, as disjoint ones do, that is said of every cluster they name. */
  lemma GhostReadIsSound(bits: seq<byte>, runs: seq<Run>)
    requires |bits| <= MAX_BITMAP_BYTES
    ensures var standing := GhostStanding(Some(Measure(bits, runs).Saturated()));
      var cut := Cut(runs, 8 * |bits|, 8 * |bits|);
      && (standing.Readable() <==> SomeNamed(bits, cut, false) && !SomeNamed(bits, cut, true))
      && (standing.PartlyVouched? <==> standing.Readable() && (Holes(runs) > 0 || SomePast(runs, 8 * |bits|)
                                                               || Reachable(runs, 8 * |bits|) > 8 * |bits|))
      && (standing.Readable() ==> SomeNamed(bits, runs, false))
      && (standing.StillFree? <==> OnDisk(runs) > 0 && EveryNamed(bits, runs, false)
                                   && OnDisk(runs) <= 8 * |bits| && Holes(runs) == 0)
      && (Reachable(runs, 8 * |bits|) <= 8 * |bits|
          ==> (standing.Readable() <==> SomeNamed(bits, runs, false) && !SomeNamed(bits, runs, true)))
      && (Disjoint(runs) ==> Reachable(runs, 8 * |bits|) <= 8 * |bits|)
  {
    hide Bit, Tallied, EveryNamed, SomeNamed, Cut, SomePast;
    UnknownTally(bits, runs);
    CleanTally(bits, runs, 8 * |bits|, false);
    SeenTally(bits, runs, 8 * |bits|);
    CutTally(bits, runs, 8 * |bits|);
    TalliedIsWhole(bits, runs, 8 * |bits|, 8 * |bits|);
    DeclaredSplits(runs);
    if Disjoint(runs) {
      ExactWithoutOverlap(bits, runs);
    }
  }

  /** The read is wrong exactly when it is made although a cluster past the cut, and none before it, is taken. */
  lemma WrongReads(bits: seq<byte>, runs: seq<Run>)
    requires |bits| <= MAX_BITMAP_BYTES
    ensures var cut := Cut(runs, 8 * |bits|, 8 * |bits|);
      GhostStanding(Some(Measure(bits, runs).Saturated())).Readable() && SomeNamed(bits, runs, true)
      <==> SomeNamed(bits, cut, false) && SomeNamed(bits, runs, true) && !SomeNamed(bits, cut, true)
    ensures Reachable(runs, 8 * |bits|) <= 8 * |bits| ==>
              (SomeNamed(bits, runs, true) <==> SomeNamed(bits, Cut(runs, 8 * |bits|, 8 * |bits|), true))
  {
    hide Bit, Tallied, SomeNamed, Cut;
    GhostReadIsSound(bits, runs);
    CutTally(bits, runs, 8 * |bits|);
    SeenTally(bits, runs, 8 * |bits|);
  }

  /** Two overlapping runs over one byte of bitmap use the budget up just before the one cluster that was given away. */
  lemma OverlapHidesAReusedCluster(bits: seq<byte>, first: Run, second: Run)
    requires bits == [0x81] && first == Run(Some(1), 6) && second == Run(Some(5), 3)
    ensures SomeNamed(bits, [first, second], true)
    ensures GhostStanding(Some(Measure(bits, [first, second]).Saturated())).Readable()
  {
    hide Tallied;
    assert Names([first, second][1], 7) && Bit(bits, 7) == Some(true);
    var cut := [Run(Some(1), 6), Run(Some(5), 2)];
    OverlapIsCut(first, second, 8 * |bits|);
    assert Names(cut[0], 1) && Bit(bits, 1) == Some(false);
    forall i, c: nat | 0 <= i < |cut| && Names(cut[i], c) ensures Bit(bits, c) == Some(false) {
      assert c == 1 || c == 2 || c == 3 || c == 4 || c == 5 || c == 6;
    }
    GhostReadIsSound(bits, [first, second]);
  }

  lemma OverlapIsCut(first: Run, second: Run, described: nat)
    requires first == Run(Some(1), 6) && second == Run(Some(5), 3) && described == 8
    ensures Cut([first, second], described, described) == [Run(Some(1), 6), Run(Some(5), 2)]
  {
    assert [first, second][1..] == [second] && [second][1..] == [];
    assert Cut([second], described, described - 6) == [Run(Some(5), 2)];
  }
}
