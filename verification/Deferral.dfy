/** Observations that may only add to a file something else knows of: they are set aside before the file system is
    walked, and come back afterwards if their path is one the rest of the list holds. */
module Deferral {
  import opened Observations
  import opened ComClasses

  // ----- what is set aside -----

  predicate IsOrdinaryCom(zone: Path -> Zone, o: Observation) {
    IsComServer(o) && !IsDeleted(o) && o.path.Some? && zone(o.path.value).Ordinary()
  }

  function OrdinaryCom(zone: Path -> Zone): Observation -> bool { o => IsOrdinaryCom(zone, o) }

  predicate IsDefenderLog(o: Observation) { o.source.DefenderLog? }

  predicate IsDeletedValue(o: Observation) { o.kind.DeletedRegistryValue? }

  predicate IsDeferred(zone: Path -> Zone, o: Observation) {
    IsOrdinaryCom(zone, o) || IsDefenderLog(o) || IsDeletedValue(o)
  }

  function Select(p: Observation -> bool, items: seq<Observation>): (r: seq<Observation>)
    ensures forall o :: o in r <==> o in items && p(o)
  {
    if items == [] then []
    else
      var earlier, last := Select(p, items[..|items| - 1]), items[|items| - 1];
      if p(last) then earlier + [last] else earlier
  }

  function Other(p: Observation -> bool): Observation -> bool { o => !p(o) }

  /** An observation comes back when its path is one of the keys. */
  predicate Rejoins(keys: set<string>, o: Observation) { o.path.Some? && o.path.value.key in keys }

  function Rejoining(keys: set<string>, deferred: seq<Observation>): seq<Observation> {
    Select(o => Rejoins(keys, o), deferred)
  }

  /** The list after the batches come back one by one, each seeing what came back before it. */
  function Reattached(items: seq<Observation>, batches: seq<seq<Observation>>): seq<Observation> {
    if batches == [] then items
    else
      var before := Reattached(items, batches[..|batches| - 1]);
      before + Rejoining(Keys(before), batches[|batches| - 1])
  }

  /** What the three passes set aside, in the order they do it: each pass sees what the last one left. */
  function Batches(zone: Path -> Zone, items: seq<Observation>): seq<seq<Observation>> {
    var withoutCom := Select(Other(OrdinaryCom(zone)), items);
    var withoutLog := Select(Other(IsDefenderLog), withoutCom);
    [Select(OrdinaryCom(zone), items), Select(IsDefenderLog, withoutCom), Select(IsDeletedValue, withoutLog)]
  }

  function Kept(zone: Path -> Zone, items: seq<Observation>): seq<Observation> {
    Select(o => !IsDeferred(zone, o), items)
  }

  class DeferPasses {
    var items: seq<Observation>

    constructor (items: seq<Observation>)
      ensures this.items == items
    {
      this.items := items;
    }

    /** Drains the list into those set aside and those kept. */
    method Defer(p: Observation -> bool) returns (deferred: seq<Observation>)
      modifies this
      ensures deferred == Select(p, old(items)) && items == Select(Other(p), old(items))
    {
      deferred := [];
      var kept := [];
      for i := 0 to |items|
        invariant items == old(items)
        invariant deferred == Select(p, items[..i]) && kept == Select(Other(p), items[..i])
      {
        assert items[..i + 1][..i] == items[..i];
        if p(items[i]) {
          deferred := deferred + [items[i]];
        } else {
          kept := kept + [items[i]];
        }
      }
      assert items[..|items|] == items;
      items := kept;
    }

    /** Brings back those whose path the list holds, and counts the rest. */
    method Reattach(deferred: seq<Observation>) returns (unmatched: nat)
      modifies this
      ensures items == Reattached(old(items), [deferred])
      ensures unmatched == |Select(o => !Rejoins(Keys(old(items)), o), deferred)|
    {
      var present := Keys(items);
      OneBatch(items, deferred);
      if deferred == [] { return 0; }
      var rejoining := [];
      for i := 0 to |deferred|
        invariant rejoining == Rejoining(present, deferred[..i])
        invariant |rejoining| + |Select(o => !Rejoins(present, o), deferred[..i])| == i
      {
        assert deferred[..i + 1][..i] == deferred[..i];
        if Rejoins(present, deferred[i]) {
          rejoining := rejoining + [deferred[i]];
        }
      }
      assert deferred[..|deferred|] == deferred;
      unmatched := |deferred| - |rejoining|;
      items := items + rejoining;
    }

    /** The run's order: three passes set observations aside, the walk adds its own, and three passes bring back. */
    method AroundTheWalk(zone: Path -> Zone, walked: seq<Observation>)
      modifies this
      ensures items == Reattached(Kept(zone, old(items)) + walked, Batches(zone, old(items)))
    {
      hide Select, Reattached;
      KeptIsWhatIsLeft(zone, items);
      var com := Defer(OrdinaryCom(zone));
      var log := Defer(IsDefenderLog);
      var values := Defer(IsDeletedValue);
      items := items + walked;
      ThreeBatches(items, com, log, values);
      var _ := Reattach(com);
      var _ := Reattach(log);
      var _ := Reattach(values);
    }
  }

  lemma OneBatch(items: seq<Observation>, batch: seq<Observation>)
    ensures Reattached(items, [batch]) == items + Rejoining(Keys(items), batch)
    ensures batch == [] ==> Reattached(items, [batch]) == items
  {
    assert [batch][..0] == [];
  }

  lemma ThreeBatches(items: seq<Observation>, a: seq<Observation>, b: seq<Observation>, c: seq<Observation>)
    ensures Reattached(items, [a, b, c]) == Reattached(Reattached(Reattached(items, [a]), [b]), [c])
  {
    hide Select;
    var one, two := Reattached(items, [a]), Reattached(items, [a, b]);
    assert [a, b][..1] == [a] && [a, b, c][..2] == [a, b];
    OneBatch(one, b);
    OneBatch(two, c);
  }

  lemma {:induction false} SelectTwice(p: Observation -> bool, q: Observation -> bool, r: Observation -> bool, items: seq<Observation>)
    requires forall o :: r(o) <==> p(o) && q(o)
    ensures Select(q, Select(p, items)) == Select(r, items)
  {
    if items != [] {
      var earlier, last := items[..|items| - 1], items[|items| - 1];
      SelectTwice(p, q, r, earlier);
      if p(last) {
        assert (Select(p, earlier) + [last])[..|Select(p, earlier)|] == Select(p, earlier);
      }
    }
  }

  /** Three passes leave what none of them takes, in its old order. */
  lemma KeptIsWhatIsLeft(zone: Path -> Zone, items: seq<Observation>)
    ensures var withoutCom := Select(Other(OrdinaryCom(zone)), items);
      Select(Other(IsDeletedValue), Select(Other(IsDefenderLog), withoutCom)) == Kept(zone, items)
  {
    hide Select;
    SelectTwice(Other(OrdinaryCom(zone)), Other(IsDefenderLog),
                o => !IsOrdinaryCom(zone, o) && !IsDefenderLog(o), items);
    SelectTwice(o => !IsOrdinaryCom(zone, o) && !IsDefenderLog(o), Other(IsDeletedValue),
                o => !IsDeferred(zone, o), items);
  }

  // ----- what comes back -----

  /** How often an observation stands in a list. */
  function Count(items: seq<Observation>, o: Observation): nat { multiset(items)[o] }

  lemma {:induction false} SelectCounts(p: Observation -> bool, items: seq<Observation>, o: Observation)
    ensures Count(Select(p, items), o) == if p(o) then Count(items, o) else 0
  {
    if items != [] {
      SelectCounts(p, items[..|items| - 1], o);
      assert items == items[..|items| - 1] + [items[|items| - 1]];
    }
  }

  function CountAll(batches: seq<seq<Observation>>, o: Observation): nat {
    if batches == [] then 0 else CountAll(batches[..|batches| - 1], o) + Count(batches[|batches| - 1], o)
  }

  /** Bringing back adds no path: so each deferred observation returns exactly when the list, before any returned, held
      its path, however the batches are ordered or cut. */
  lemma {:induction false} ReattachedCounts(items: seq<Observation>, batches: seq<seq<Observation>>, o: Observation)
    ensures Keys(Reattached(items, batches)) == Keys(items)
    ensures items <= Reattached(items, batches)
    ensures Count(Reattached(items, batches), o)
         == Count(items, o) + if Rejoins(Keys(items), o) then CountAll(batches, o) else 0
  {
    if batches != [] {
      hide Select;
      var earlier, batch := batches[..|batches| - 1], batches[|batches| - 1];
      ReattachedCounts(items, earlier, o);
      var before := Reattached(items, earlier);
      SelectCounts(x => Rejoins(Keys(items), x), batch, o);
      NoNewKeys(before, Rejoining(Keys(items), batch));
    }
  }

  lemma NoNewKeys(items: seq<Observation>, more: seq<Observation>)
    requires forall o <- more :: Rejoins(Keys(items), o)
    ensures Keys(items + more) == Keys(items)
  {
    forall key ensures key in Keys(items + more) <==> key in Keys(items) {
    }
  }

  /** Any two ways of bringing the same observations back give the same observations. */
  lemma OrderOfReturnDoesNotMatter(items: seq<Observation>, batches: seq<seq<Observation>>, others: seq<seq<Observation>>)
    requires forall o :: CountAll(batches, o) == CountAll(others, o)
    ensures multiset(Reattached(items, batches)) == multiset(Reattached(items, others))
  {
    hide Reattached, CountAll;
    forall o ensures multiset(Reattached(items, batches))[o] == multiset(Reattached(items, others))[o] {
      ReattachedCounts(items, batches, o);
      ReattachedCounts(items, others, o);
    }
  }

  lemma BatchesHold(zone: Path -> Zone, items: seq<Observation>, o: Observation)
    ensures CountAll(Batches(zone, items), o) == if IsDeferred(zone, o) then Count(items, o) else 0
  {
    hide Select, Count;
    var com, b := OrdinaryCom(zone), Batches(zone, items);
    var withoutCom := Select(Other(com), items);
    SelectCounts(com, items, o);
    SelectCounts(Other(com), items, o);
    SelectCounts(IsDefenderLog, withoutCom, o);
    SelectCounts(Other(IsDefenderLog), withoutCom, o);
    SelectCounts(IsDeletedValue, Select(Other(IsDefenderLog), withoutCom), o);
    assert b[..2] == [b[0], b[1]] && [b[0], b[1]][..1] == [b[0]] && [b[0]][..0] == [];
    assert CountAll([b[0]], o) == Count(b[0], o);
    assert CountAll(b, o) == CountAll([b[0]], o) + Count(b[1], o) + Count(b[2], o);
    assert Count(b[0], o) == if IsOrdinaryCom(zone, o) then Count(items, o) else 0;
    assert Count(withoutCom, o) == if IsOrdinaryCom(zone, o) then 0 else Count(items, o);
    assert Count(b[1], o) == if IsDefenderLog(o) then Count(withoutCom, o) else 0;
  }

  /** Across the walk nothing is lost but deferred observations of paths that neither a kept nor a walked one has, and
      nothing is gained but what the walk added; those kept and walked stand first, in their order. */
  lemma OnlyKnownPathsComeBack(zone: Path -> Zone, items: seq<Observation>, walked: seq<Observation>, o: Observation)
    ensures var known := Kept(zone, items) + walked;
      var final := Reattached(known, Batches(zone, items));
      && known <= final && Keys(final) == Keys(known)
      && Count(final, o) == Count(walked, o)
                          + if IsDeferred(zone, o) && !Rejoins(Keys(known), o) then 0 else Count(items, o)
  {
    hide Select, Reattached, Batches;
    BatchesHold(zone, items, o);
    SelectCounts(x => !IsDeferred(zone, x), items, o);
    ReattachedCounts(Kept(zone, items) + walked, Batches(zone, items), o);
  }

  /** After promotion and relabelling, no pass sets a promoted hijack aside, nor a registry finding still marked as
      recovered from a freed cell. */
  lemma HijacksAreNeverSetAside(zone: Path -> Zone, items: seq<Observation>, o: Observation)
    requires o in items
    ensures var kept := Kept(zone, Relabelling(zone, Promotion(items)));
      && (Redirects(Machine(items), o) ==> o.(kind := o.kind.(what := ComHijack)) in kept)
      && (IsDeleted(o) && o.source.Registry? && !Superseded(Survivors(zone, items), o) ==> o in kept)
  {
    hide Survivors, Machine, Target, Superseded;
    PassesDoNotInterfere(zone, items);
    var final := Relabelling(zone, Promotion(items));
    var i :| 0 <= i < |items| && items[i] == o;
    assert final[i] in final;
    if Redirects(Machine(items), o) { RedirectsIsFromTheRegistry(Machine(items), Survivors(zone, items), o); }
  }

  lemma RedirectsIsFromTheRegistry(machine: set<Claim>, survivors: set<Claim>, o: Observation)
    requires Redirects(machine, o)
    ensures o.source.Registry? && IsComServer(o) && !Superseded(survivors, o)
  {
  }

  /** What may only add to a known file: live registrations of ordinary COM servers, detections from the antivirus log,
      and registry values whose key is lost. */
  lemma DeferredExactly(zone: Path -> Zone, o: Observation)
    ensures IsDeferred(zone, o) <==>
      || o.source.DefenderLog?
      || o.kind.DeletedRegistryValue?
      || (o.kind.Persistent? && o.kind.what == ComServer && !("[deleted]" <= o.kind.rawValue) && o.path.Some?
          && zone(o.path.value) in {SystemDir, WindowsOther, WinSxs, ProgramFiles, ProgramData, Unlocated})
  {
  }

  /** It comes back exactly when some observation kept or added by the walk has its path key. */
  lemma RejoinsExactly(known: seq<Observation>, o: Observation)
    ensures Rejoins(Keys(known), o) <==>
              o.path.Some? && exists k <- known :: k.path.Some? && k.path.value.key == o.path.value.key
  {
  }
}
