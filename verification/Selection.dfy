/** Which candidates get work done on them: a ranking, the band of it whose signatures are checked, and the samples
    taken from it within a budget. */
module Selection {
  import opened Prelude
  import opened Sorting

  const MAX_UNRANKED_ACQUISITIONS := 64
  const MAX_UNRANKED_BYTES := 256 * 1024 * 1024

  // ----- ranking -----

  /** Scores, and the number that settles which of two equal scores comes first: the smaller. */
  datatype Ranking = Ranking(score: nat -> real, tie: nat -> nat) {
    predicate Before(a: nat, b: nat) { score(a) > score(b) || (score(a) == score(b) && tie(a) < tie(b)) }
  }

  function Indices(n: nat): seq<nat> { seq(n, i => i) }

  function Precedes(r: Ranking): (nat, nat) -> bool { (a: nat, b: nat) => r.Before(a, b) }

  function NotAfter(r: Ranking): (nat, nat) -> bool { (a: nat, b: nat) => !r.Before(b, a) }

  /** The indices below n, highest score first. */
  function Order(r: Ranking, n: nat): seq<nat> { Sort(Precedes(r), Indices(n)) }

  ghost predicate Distinct(order: seq<nat>) { forall i, j | 0 <= i < j < |order| :: order[i] != order[j] }

  lemma {:induction false} DistinctCounts(s: seq<nat>)
    requires Distinct(s)
    ensures forall x :: multiset(s)[x] <= 1
  {
    if s != [] {
      var earlier, last := s[..|s| - 1], s[|s| - 1];
      DistinctCounts(earlier);
      assert s == earlier + [last] && last !in earlier;
      assert last !in multiset(earlier);
    }
  }

  lemma CountsMakeDistinct(s: seq<nat>)
    requires forall x :: multiset(s)[x] <= 1
    ensures Distinct(s)
  {
    forall i, j | 0 <= i < j < |s| ensures s[i] != s[j] {
      assert s == s[..j] + s[j..];
      assert s[i] == s[..j][i] && s[i] in multiset(s[..j]);
      assert s[j] == s[j..][0] && s[j] in multiset(s[j..]);
      assert s[i] == s[j] ==> multiset(s)[s[i]] >= 2;
    }
  }

  /** The order names every index once, no higher score after a lower one, and equal scores by the smaller number. */
  lemma OrderIsARanking(r: Ranking, n: nat)
    ensures |Order(r, n)| == n && Distinct(Order(r, n)) && forall x: nat :: x in Order(r, n) <==> x < n
    ensures forall i, j | 0 <= i < j < n :: !r.Before(Order(r, n)[j], Order(r, n)[i])
    ensures forall i, j | 0 <= i < j < n :: r.score(Order(r, n)[i]) >= r.score(Order(r, n)[j])
  {
    hide Sort, Distinct;
    var order := Order(r, n);
    SortOrders(Precedes(r), NotAfter(r), Indices(n)) by { PrecedesIsRespected(r); }
    forall i, j | 0 <= i < j < |order| ensures !r.Before(order[j], order[i]) {
      assert NotAfter(r)(order[i], order[j]);
    }
    IndicesAre(n);
    CountsMakeDistinct(order);
    assert |multiset(order)| == |multiset(Indices(n))|;
    forall x: nat ensures x in order <==> x < n {
      assert x in order <==> x in multiset(order);
      assert x in Indices(n) <==> x in multiset(Indices(n));
    }
  }

  lemma PrecedesIsRespected(r: Ranking)
    ensures Respects(Precedes(r), NotAfter(r))
  {
  }

  lemma IndicesAre(n: nat)
    ensures |Indices(n)| == n && (forall x: nat :: x in Indices(n) <==> x < n)
    ensures forall x :: multiset(Indices(n))[x] <= 1
  {
    forall x: nat | x < n ensures x in Indices(n) {
      assert Indices(n)[x] == x;
    }
    DistinctCounts(Indices(n));
  }

  // ----- the band whose signatures are checked -----

  /** The ranks that qualify, every one of them looked at. */
  function Band(order: seq<nat>, qualifies: (nat, nat) -> bool): seq<nat> {
    if order == [] then []
    else
      var rank := |order| - 1;
      Band(order[..rank], qualifies) + if qualifies(rank, order[rank]) then [order[rank]] else []
  }

  /** Ranked below the floor, or within reach of the threshold if its signature says the worst; and of a checkable shape. */
  function Worth(r: Ranking, verifiable: nat -> bool, floor: nat, headroom: real, threshold: real): (nat, nat) -> bool {
    (rank: nat, index: nat) => verifiable(index) && (rank < floor || r.score(index) + headroom >= threshold)
  }

  /** The loop leaves at the first rank past the floor that is out of reach. */
  method VerificationBand(r: Ranking, n: nat, verifiable: nat -> bool, floor: nat, headroom: real, threshold: real)
    returns (selected: seq<nat>)
    ensures selected == Band(Order(r, n), Worth(r, verifiable, floor, headroom, threshold))
  {
    hide Order;
    var order := Order(r, n);
    ghost var worth := Worth(r, verifiable, floor, headroom, threshold);
    OrderIsARanking(r, n);
    selected := [];
    for rank := 0 to |order|
      invariant selected == Band(order[..rank], worth)
    {
      var index := order[rank];
      var inReach := r.score(index) + headroom >= threshold;
      assert order[..rank + 1][..rank] == order[..rank];
      if rank >= floor && !inReach {
        NothingFurther(order, worth, rank);
        return;
      }
      if verifiable(index) {
        selected := selected + [index];
      }
    }
    assert order[..|order|] == order;
  }

  lemma {:induction false} NothingFurther(order: seq<nat>, qualifies: (nat, nat) -> bool, from: nat)
    requires from <= |order| && forall rank | from <= rank < |order| :: !qualifies(rank, order[rank])
    ensures Band(order, qualifies) == Band(order[..from], qualifies)
  {
    if from < |order| {
      NothingFurther(order[..|order| - 1], qualifies, from);
      assert order[..|order| - 1][..from] == order[..from];
    } else {
      assert order[..from] == order;
    }
  }

  lemma {:induction false} BandHolds(order: seq<nat>, qualifies: (nat, nat) -> bool, index: nat)
    ensures index in Band(order, qualifies) <==> exists rank :: 0 <= rank < |order| && order[rank] == index && qualifies(rank, index)
  {
    if order != [] {
      BandHolds(order[..|order| - 1], qualifies, index);
      var last := |order| - 1;
      if rank :| 0 <= rank < |order| && order[rank] == index && qualifies(rank, index) {
        assert rank < last ==> order[..last][rank] == index;
      }
    }
  }

  /** A checkable candidate the band leaves out could not have become a finding: it ranks past the floor, and the
      strongest signature evidence would still leave it short of the threshold. */
  lemma NothingOutsideTheBandCouldMatter(r: Ranking, n: nat, verifiable: nat -> bool, floor: nat, headroom: real,
                                         threshold: real, rank: nat)
    requires rank < n
    ensures |Order(r, n)| == n
    ensures var index := Order(r, n)[rank];
      index in Band(Order(r, n), Worth(r, verifiable, floor, headroom, threshold))
      <==> verifiable(index) && (rank < floor || r.score(index) + headroom >= threshold)
  {
    hide Order;
    OrderIsARanking(r, n);
    BandHolds(Order(r, n), Worth(r, verifiable, floor, headroom, threshold), Order(r, n)[rank]);
  }

  // ----- the samples -----

  datatype Outcome = Bytes(size: nat) | Withheld(size: nat) | Other(tag: nat) {
    function Size(): nat { if Other? then 0 else size }
  }

  /** What the k-th attempt of the run gives for a candidate, which candidates a rule names, and whether the directory
      for candidates the score did not reach can be made. */
  datatype World = World(attempt: (nat, nat) -> Outcome, matches: nat -> bool, directory: bool)

  ghost predicate Capped(w: World) { forall k, index :: w.attempt(k, index).Size() <= MAX_SAMPLE_BYTES }

  function Reportable(r: Ranking, top: nat, threshold: real): (nat, nat) -> bool {
    (rank: nat, index: nat) => rank < top && r.score(index) >= threshold
  }

  /** The best ranked candidates, down to the threshold. */
  function Reported(r: Ranking, n: nat, top: nat, threshold: real): seq<nat> {
    Band(Order(r, n), Reportable(r, top, threshold))
  }

  function Unreported(w: World, done: seq<nat>): (nat, nat) -> bool {
    (rank: nat, index: nat) => index !in done && w.matches(index)
  }

  /** The other candidates a rule names, in the order of their scores. */
  function Rest(w: World, r: Ranking, n: nat, done: seq<nat>): seq<nat> {
    Band(Order(r, n), Unreported(w, done))
  }

  /** The bytes a row of attempts brings in, the first of them being attempt number `from`. */
  function Spent(w: World, from: nat, taken: seq<nat>): nat {
    if taken == [] then 0
    else Spent(w, from, taken[..|taken| - 1]) + w.attempt(from + |taken| - 1, taken[|taken| - 1]).Size()
  }

  predicate WithinBudget(w: World, from: nat, taken: seq<nat>) {
    |taken| < MAX_UNRANKED_ACQUISITIONS && Spent(w, from, taken) < MAX_UNRANKED_BYTES
  }

  /** The attempts made of a list: as many from its front as the budget, looked at before each, allows. */
  ghost predicate Affords(w: World, from: nat, all: seq<nat>, taken: seq<nat>) {
    && taken <= all
    && (forall k | 0 <= k < |taken| :: WithinBudget(w, from, taken[..k]))
    && (|taken| < |all| ==> !WithinBudget(w, from, taken))
  }

  function Results(w: World, attempts: seq<nat>): map<nat, Outcome> {
    if attempts == [] then map[]
    else
      var k := |attempts| - 1;
      Results(w, attempts[..k])[attempts[k] := w.attempt(k, attempts[k])]
  }

  class SampleRun {
    var results: map<nat, Outcome>
    var acquired: nat
    var unranked: nat
    var declined: nat
    var spent: u64
    var unmade: Option<nat>
    ghost var attempts: seq<nat>

    constructor ()
      ensures results == map[] && attempts == [] && unmade == None
      ensures acquired == unranked == declined == spent == 0
    {
      results, attempts, unmade := map[], [], None;
      acquired, unranked, declined, spent := 0, 0, 0, 0;
    }

    ghost predicate Recorded(w: World)
      reads this`results, this`attempts
    {
      results == Results(w, attempts)
    }

    method Attempt(w: World, ghost k: nat, index: nat) returns (outcome: Outcome)
      requires Recorded(w) && k == |attempts| && k == acquired + unranked
      modifies this`results, this`attempts
      ensures Recorded(w) && attempts == old(attempts) + [index] && outcome == w.attempt(k, index)
    {
      outcome := w.attempt(acquired + unranked, index);
      results := results[index := outcome];
      assert (attempts + [index])[..|attempts|] == attempts;
      attempts := attempts + [index];
    }

    /** The first loop leaves at the first candidate below the threshold. */
    method AcquireReported(w: World, r: Ranking, n: nat, top: nat, threshold: real)
      requires Recorded(w) && attempts == [] && acquired == unranked == 0
      modifies this`results, this`attempts, this`acquired
      ensures Recorded(w) && attempts == Reported(r, n, top, threshold) && acquired == |attempts|
    {
      hide Order, Results;
      var order := Order(r, n);
      ghost var reportable := Reportable(r, top, threshold);
      OrderIsARanking(r, n);
      var most := Min(top, |order|);
      for rank := 0 to most
        invariant Recorded(w) && attempts == Band(order[..rank], reportable) && acquired == |attempts|
      {
        var index := order[rank];
        assert order[..rank + 1][..rank] == order[..rank];
        if r.score(index) < threshold {
          NothingFurther(order, reportable, rank);
          return;
        }
        var _ := Attempt(w, |attempts|, index);
        acquired := acquired + 1;
      }
      NothingFurther(order, reportable, most);
    }

    /** Where the second loop stands when it has seen these candidates and attempted some of them. */
    ghost predicate Standing(w: World, done: seq<nat>, seen: seq<nat>, taken: seq<nat>)
      reads this`results, this`attempts, this`acquired, this`unranked, this`declined, this`spent
    {
      && Recorded(w) && attempts == done + taken && acquired == |done| && unranked == |taken|
      && Affords(w, |done|, seen, taken) && unranked + declined == |seen|
      && spent == Spent(w, |done|, taken) && spent < MAX_UNRANKED_BYTES + MAX_SAMPLE_BYTES
      && unranked <= MAX_UNRANKED_ACQUISITIONS
    }

    /** One more candidate a rule names: attempted within the budget, declined past it. */
    method Consider(w: World, index: nat, ghost done: seq<nat>, ghost seen: seq<nat>, ghost taken: seq<nat>)
      returns (ghost now: seq<nat>)
      requires Capped(w) && Standing(w, done, seen, taken)
      modifies this`results, this`attempts, this`unranked, this`declined, this`spent
      ensures Standing(w, done, seen + [index], now)
    {
      hide Results, Spent;
      now := taken;
      if unranked >= MAX_UNRANKED_ACQUISITIONS || spent >= MAX_UNRANKED_BYTES {
        declined := declined + 1;
        return;
      }
      assert taken == seen;
      OneMoreSpent(w, |done|, taken, index);
      AffordsOneMore(w, |done|, taken, index);
      var outcome := Attempt(w, |attempts|, index);
      now := taken + [index];
      if !outcome.Other? { spent := SaturatingAdd(spent, outcome.size); }
      unranked := unranked + 1;
    }

    /** The second loop goes on through the whole order, unless the directory cannot be made when it is first needed. */
    method AcquireUnranked(w: World, r: Ranking, n: nat, done: seq<nat>)
      requires Capped(w) && Recorded(w) && attempts == done && acquired == |done| && unranked == declined == spent == 0
      requires unmade == None && |done| <= n
      modifies this`results, this`attempts, this`unranked, this`declined, this`spent, this`unmade
      ensures var rest := Rest(w, r, n, done);
        if w.directory then unranked <= |rest| && Standing(w, done, rest, rest[..unranked]) && unmade == None
        else Standing(w, done, [], []) && unmade == if rest == [] then None else Some(n - |done|)
    {
      hide Order, Standing, Band;
      var order := Order(r, n);
      ghost var wanted, taken := Unreported(w, done), [];
      OrderIsARanking(r, n);
      NothingTaken(this, w, done);
      NoBand(wanted);
      assert order[..0] == [];
      for i := 0 to |order|
        invariant Standing(w, done, Band(order[..i], wanted), taken) && unmade == None
        invariant !w.directory ==> Band(order[..i], wanted) == [] && Standing(w, done, [], [])
      {
        var index := order[i];
        assert order[..i + 1] == order[..i] + [index];
        OneMoreInBand(order[..i], wanted, index);
        if index in done || !w.matches(index) { continue; }
        if !w.directory {
          assert unranked == declined == spent == 0 by { NothingYet(this, w, done); }
          unmade := Some(|order| - acquired);
          BandGrows(order, wanted, i + 1);
          return;
        }
        taken := Consider(w, index, done, Band(order[..i], wanted), taken);
      }
      assert order[..|order|] == order;
      AFront(this, w, done, Rest(w, r, n, done), taken);
    }

    method AcquireSamples(w: World, r: Ranking, n: nat, top: nat, threshold: real)
      requires Capped(w)
      requires Recorded(w) && attempts == [] && acquired == unranked == declined == spent == 0 && unmade == None
      modifies this
      ensures var reported := Reported(r, n, top, threshold);
        var rest := Rest(w, r, n, reported);
        && Recorded(w) && acquired == |reported| && spent < MAX_UNRANKED_BYTES + MAX_SAMPLE_BYTES
        && unranked <= |rest|
        && if w.directory then
             && unranked + declined == |rest| && unranked <= MAX_UNRANKED_ACQUISITIONS
             && attempts == reported + rest[..unranked] && Affords(w, acquired, rest, rest[..unranked])
             && spent == Spent(w, acquired, rest[..unranked]) && unmade == None
           else
             && attempts == reported && unranked == declined == spent == 0
             && unmade == if rest == [] then None else Some(n - acquired)
    {
      hide Order, Results, Spent, Affords, Band;
      AcquireReported(w, r, n, top, threshold);
      BandIsShort(r, n, Reportable(r, top, threshold));
      AcquireUnranked(w, r, n, Reported(r, n, top, threshold));
      NothingSpent(w, acquired);
    }
  }

  lemma NothingSpent(w: World, from: nat)
    ensures Spent(w, from, []) == 0
  {
  }

  lemma NothingTaken(run: SampleRun, w: World, done: seq<nat>)
    requires run.Recorded(w) && run.attempts == done && run.acquired == |done|
    requires run.unranked == run.declined == run.spent == 0
    ensures run.Standing(w, done, [], [])
  {
  }

  lemma NothingYet(run: SampleRun, w: World, done: seq<nat>)
    requires run.Standing(w, done, [], [])
    ensures run.acquired == |done| && run.unranked == run.declined == run.spent == 0
  {
  }

  lemma AFront(run: SampleRun, w: World, done: seq<nat>, seen: seq<nat>, taken: seq<nat>)
    requires run.Standing(w, done, seen, taken)
    ensures run.unranked <= |seen| && taken == seen[..run.unranked]
  {
  }

  lemma NoBand(qualifies: (nat, nat) -> bool)
    ensures Band([], qualifies) == []
  {
  }

  lemma OneMoreInBand(order: seq<nat>, qualifies: (nat, nat) -> bool, index: nat)
    ensures Band(order + [index], qualifies)
         == if qualifies(|order|, index) then Band(order, qualifies) + [index] else Band(order, qualifies)
  {
    assert (order + [index])[..|order|] == order;
  }

  lemma OneMoreSpent(w: World, from: nat, taken: seq<nat>, index: nat)
    ensures Spent(w, from, taken + [index]) == Spent(w, from, taken) + w.attempt(from + |taken|, index).Size()
  {
    assert (taken + [index])[..|taken|] == taken;
  }

  lemma AffordsOneMore(w: World, from: nat, taken: seq<nat>, index: nat)
    requires Affords(w, from, taken, taken) && WithinBudget(w, from, taken)
    ensures Affords(w, from, taken + [index], taken + [index])
  {
    hide Spent;
    var more := taken + [index];
    forall k | 0 <= k < |more| ensures WithinBudget(w, from, more[..k]) {
      assert more[..k] == taken[..k];
      assert taken[..|taken|] == taken;
    }
  }

  lemma {:induction false} BandGrows(order: seq<nat>, qualifies: (nat, nat) -> bool, i: nat)
    requires i <= |order|
    ensures Band(order[..i], qualifies) <= Band(order, qualifies)
  {
    if i < |order| {
      BandGrows(order[..|order| - 1], qualifies, i);
      assert order[..|order| - 1][..i] == order[..i];
    } else {
      assert order[..i] == order;
    }
  }

  lemma {:induction false} BandIsADistinctPart(order: seq<nat>, qualifies: (nat, nat) -> bool)
    requires Distinct(order)
    ensures Distinct(Band(order, qualifies)) && |Band(order, qualifies)| <= |order|
    ensures forall index <- Band(order, qualifies) :: index in order
  {
    if order != [] {
      var earlier, last := order[..|order| - 1], order[|order| - 1];
      BandIsADistinctPart(earlier, qualifies);
      assert last !in earlier;
      assert last !in Band(earlier, qualifies);
    }
  }

  lemma BandIsShort(r: Ranking, n: nat, qualifies: (nat, nat) -> bool)
    ensures |Band(Order(r, n), qualifies)| <= n
  {
    hide Order, Band;
    OrderIsARanking(r, n);
    BandIsADistinctPart(Order(r, n), qualifies);
  }

  // ----- what a run of attempts establishes -----

  /** Bytes are charged whether they were written out or withheld, and nothing else is. */
  lemma BytesAreCharged(w: World, from: nat, taken: seq<nat>, index: nat)
    ensures Spent(w, from, taken + [index]) == Spent(w, from, taken)
              + match w.attempt(from + |taken|, index)
                case Bytes(size) => size
                case Withheld(size) => size
                case Other(_) => 0
  {
    OneMoreSpent(w, from, taken, index);
  }

  /** Each candidate attempted has the result of its own attempt, and no other candidate has one. */
  lemma {:induction false} ResultsAre(w: World, attempts: seq<nat>)
    requires Distinct(attempts)
    ensures forall index :: index in Results(w, attempts) <==> index in attempts
    ensures forall k | 0 <= k < |attempts| :: Results(w, attempts)[attempts[k]] == w.attempt(k, attempts[k])
  {
    if attempts != [] {
      var earlier, last := attempts[..|attempts| - 1], attempts[|attempts| - 1];
      ResultsAre(w, earlier);
      assert attempts == earlier + [last] && last !in earlier;
      forall k | 0 <= k < |attempts| ensures Results(w, attempts)[attempts[k]] == w.attempt(k, attempts[k]) {
        if k < |earlier| { assert attempts[k] == earlier[k] && earlier[k] in earlier; }
      }
    }
  }

  /** Who is attempted: the best ranked at or above the threshold, then whoever else a rule names; nobody twice. */
  lemma NobodyIsAttemptedTwice(w: World, r: Ranking, n: nat, top: nat, threshold: real)
    ensures |Order(r, n)| == n
    ensures var reported := Reported(r, n, top, threshold);
      var rest := Rest(w, r, n, reported);
      && Distinct(reported + rest)
      && forall rank | 0 <= rank < n ::
           var index := Order(r, n)[rank];
           && (index in reported <==> rank < top && r.score(index) >= threshold)
           && (index in rest <==> index !in reported && w.matches(index))
  {
    hide Order, Band;
    var order, reported := Order(r, n), Reported(r, n, top, threshold);
    var rest := Rest(w, r, n, reported);
    OrderIsARanking(r, n);
    BandIsADistinctPart(order, Reportable(r, top, threshold));
    BandIsADistinctPart(order, Unreported(w, reported));
    forall rank | 0 <= rank < n
      ensures order[rank] in reported <==> rank < top && r.score(order[rank]) >= threshold
      ensures order[rank] in rest <==> order[rank] !in reported && w.matches(order[rank])
    {
      BandHolds(order, Reportable(r, top, threshold), order[rank]);
      BandHolds(order, Unreported(w, reported), order[rank]);
    }
    forall index <- rest ensures index !in reported {
      BandHolds(order, Unreported(w, reported), index);
    }
    DistinctTogether(reported, rest);
  }

  lemma DistinctTogether(a: seq<nat>, b: seq<nat>)
    requires Distinct(a) && Distinct(b) && forall x <- b :: x !in a
    ensures Distinct(a + b)
  {
    forall i, j | 0 <= i < j < |a + b| ensures (a + b)[i] != (a + b)[j] {
      if i < |a| <= j { assert b[j - |a|] in b; }
    }
  }

  /** The attempts the budget allows of a list. */
  ghost function Affordable(w: World, from: nat, all: seq<nat>): (r: seq<nat>)
    ensures r <= all
  {
    if all == [] then []
    else
      var front := all[..|all| - 1];
      var earlier := Affordable(w, from, front);
      if earlier == front && WithinBudget(w, from, front) then all else earlier
  }

  /** A longer row of attempts costs no less. */
  lemma {:induction false} SpentGrows(w: World, from: nat, all: seq<nat>, k: nat)
    requires k <= |all|
    ensures Spent(w, from, all[..k]) <= Spent(w, from, all)
  {
    if k < |all| {
      SpentGrows(w, from, all[..|all| - 1], k);
      assert all[..|all| - 1][..k] == all[..k];
    } else {
      assert all[..k] == all;
    }
  }

  /** They are the one front of the list that the budget affords, and the whole list exactly when what comes before its
      last candidate leaves room for another attempt. */
  lemma {:induction false} AffordableIs(w: World, from: nat, all: seq<nat>)
    ensures Affords(w, from, all, Affordable(w, from, all))
    ensures Affordable(w, from, all) == all <==> all == [] || WithinBudget(w, from, all[..|all| - 1])
  {
    hide Spent;
    if all != [] {
      var n := |all| - 1;
      var front := all[..n];
      var taken := Affordable(w, from, front);
      if front != [] { SpentGrows(w, from, front, n - 1); }
      AffordableIs(w, from, front);
      assert forall k | 0 <= k < n :: front[..k] == all[..k];
    }
  }

  lemma OnlyOneFrontIsAfforded(w: World, from: nat, all: seq<nat>, taken: seq<nat>)
    requires Affords(w, from, all, taken)
    ensures taken == Affordable(w, from, all)
  {
    hide Spent;
    AffordableIs(w, from, all);
    var other := Affordable(w, from, all);
    assert taken == all[..|taken|] && other == all[..|other|];
    assert forall k | 0 <= k < |taken| :: taken[..k] == all[..k];
    assert forall k | 0 <= k < |other| :: other[..k] == all[..k];
  }

  /** When the directory cannot be made, the warning gives every candidate the score did not reach as an attempt not
      made. The directory prevents those the budget would have allowed of the candidates a rule names: the warning is
      never too low, and right exactly when a rule names every such candidate and the budget reaches to the last. */
  lemma TheWarningOvercounts(w: World, r: Ranking, n: nat, reported: seq<nat>)
    requires Distinct(reported) && forall index <- reported :: index < n
    ensures var rest := Rest(w, r, n, reported);
      var prevented := Affordable(w, |reported|, rest);
      var everyOne := forall index: nat | index < n && index !in reported :: w.matches(index);
      && |prevented| <= |rest| <= n - |reported|
      && (|rest| == n - |reported| <==> everyOne)
      && (|prevented| == n - |reported|
          <==> everyOne && (rest == [] || WithinBudget(w, |reported|, rest[..|rest| - 1])))
  {
    hide Order, Band, Distinct, Rest, Affordable, WithinBudget;
    var rest := Rest(w, r, n, reported);
    RestIsWhatIsLeft(w, r, n, reported);
    AffordableIs(w, |reported|, rest);
    assert Affordable(w, |reported|, rest) == rest <==> |Affordable(w, |reported|, rest)| == |rest|;
  }

  /** A rule names no more candidates than are left, and as many exactly when it names each of them. */
  lemma RestIsWhatIsLeft(w: World, r: Ranking, n: nat, reported: seq<nat>)
    requires Distinct(reported) && forall index <- reported :: index < n
    ensures |Rest(w, r, n, reported)| <= n - |reported|
    ensures |Rest(w, r, n, reported)| == n - |reported| <==> forall index: nat | index < n && index !in reported :: w.matches(index)
  {
    hide Order, Band, Elements, Distinct, Rest;
    var order, rest := Order(r, n), Rest(w, r, n, reported);
    OrderIsARanking(r, n);
    RestIs(w, r, n, reported);
    ElementsOf(order);
    ElementsOf(reported);
    ElementsOf(rest);
    var others := Elements(order) - Elements(reported);
    assert Elements(reported) <= Elements(order) && Elements(rest) <= others;
    PartOf(Elements(order), Elements(reported));
    PartOf(others, Elements(rest));
    assert Elements(rest) == others <==> forall index: nat | index < n && index !in reported :: w.matches(index) by {
      assert forall index: nat :: index in others <==> index < n && index !in reported;
    }
  }

  lemma {:induction false} NothingIsSpent(w: World, from: nat, taken: seq<nat>)
    requires forall k, index :: w.attempt(k, index).Other?
    ensures Spent(w, from, taken) == 0
  {
    if taken != [] {
      NothingIsSpent(w, from, taken[..|taken| - 1]);
    }
  }

  lemma NobodyIsReported(r: Ranking, n: nat, threshold: real)
    ensures Reported(r, n, 0, threshold) == []
  {
    var reported := Reported(r, n, 0, threshold);
    if reported != [] {
      BandHolds(Order(r, n), Reportable(r, 0, threshold), reported[0]);
    }
  }

  /** Sixty-five candidates, all named by a rule and none reported, whose attempts bring in nothing: the directory
      prevents sixty-four attempts, and the warning says sixty-five. */
  lemma TheWarningCountsADeclinedOne(w: World, r: Ranking, threshold: real)
    requires w == World((k, index) => Other(0), index => true, false)
    ensures var reported := Reported(r, MAX_UNRANKED_ACQUISITIONS + 1, 0, threshold);
      var rest := Rest(w, r, MAX_UNRANKED_ACQUISITIONS + 1, reported);
      && reported == [] && |rest| == MAX_UNRANKED_ACQUISITIONS + 1
      && |Affordable(w, 0, rest)| == MAX_UNRANKED_ACQUISITIONS
  {
    hide Order, Band, Affordable, Spent, Rest, Reported;
    var n: nat := MAX_UNRANKED_ACQUISITIONS + 1;
    NobodyIsReported(r, n, threshold);
    TheWarningOvercounts(w, r, n, []);
    var rest := Rest(w, r, n, []);
    AffordableIs(w, 0, rest);
    var taken := Affordable(w, 0, rest);
    NothingIsSpent(w, 0, taken);
    assert |taken| <= MAX_UNRANKED_ACQUISITIONS by {
      if taken != [] { assert WithinBudget(w, 0, taken[..|taken| - 1]); }
    }
  }

  lemma RestIs(w: World, r: Ranking, n: nat, reported: seq<nat>)
    ensures Distinct(Rest(w, r, n, reported))
    ensures forall index: nat ::
              index in Rest(w, r, n, reported) <==> index < n && index !in reported && w.matches(index)
  {
    hide Order, Band;
    var order := Order(r, n);
    OrderIsARanking(r, n);
    BandIsADistinctPart(order, Unreported(w, reported));
    forall index: nat ensures index in Rest(w, r, n, reported) <==> index < n && index !in reported && w.matches(index) {
      BandHolds(order, Unreported(w, reported), index);
      if index < n {
        assert index in order;
      }
    }
  }

  function Elements(s: seq<nat>): set<nat> { set x <- s }

  lemma PartOf<T>(all: set<T>, some: set<T>)
    requires some <= all
    ensures |some| <= |all| && |all - some| == |all| - |some| && (|some| == |all| <==> some == all)
  {
    assert all == some + (all - some);
    assert |all| == |some| + |all - some|;
  }

  lemma {:induction false} ElementsOf(s: seq<nat>)
    requires Distinct(s)
    ensures |Elements(s)| == |s| && forall x :: x in Elements(s) <==> x in s
  {
    if s == [] {
      assert Elements(s) == {};
    } else {
      var earlier, last := s[..|s| - 1], s[|s| - 1];
      ElementsOf(earlier);
      assert s == earlier + [last] && last !in earlier;
      assert Elements(s) == Elements(earlier) + {last};
    }
  }
}
