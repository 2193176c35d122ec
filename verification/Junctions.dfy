/** Paths that run through junctions are respelled to where the junctions lead, when the volume has something there. */
module Junctions {
  import opened Prelude
  import opened PathKeys
  import opened Observations
  import opened Sorting

  const MAX_JUNCTION_HOPS := 8

  /** Where a junction lies and where it leads; without a target it was refused. */
  datatype Junction = Junction(at: Option<string>, target: Option<string>)

  datatype Rule = Rule(prefix: string, target: string)

  /** What a path resolves to, and what a spelling parses to. */
  datatype Volume = Volume(resolve: string -> Option<nat>, parse: string -> Option<Path>)

  // ----- rules -----

  function Rules(junctions: seq<Junction>): seq<Rule> {
    if junctions == [] then []
    else
      var earlier, j := Rules(junctions[..|junctions| - 1]), junctions[|junctions| - 1];
      if j.at.Some? && j.target.Some? then earlier + [Rule(j.at.value + "\\", j.target.value)] else earlier
  }

  predicate LexLess(a: string, b: string) {
    if b == "" then false else if a == "" then true
    else a[0] < b[0] || (a[0] == b[0] && LexLess(a[1..], b[1..]))
  }

  /** One text is before another when it is the beginning of it, or has the smaller character where they first differ. */
  lemma {:induction false} LexLessIs(a: string, b: string)
    ensures LexLess(a, b) <==>
      || (|a| < |b| && a <= b)
      || exists k | 0 <= k < |a| :: k < |b| && a[..k] == b[..k] && a[k] < b[k]
  {
    if a != "" && b != "" && a[0] == b[0] {
      LexLessIs(a[1..], b[1..]);
      if k :| 0 <= k < |a| && k < |b| && a[..k] == b[..k] && a[k] < b[k] {
        assert a[1..][..k - 1] == a[..k][1..] && b[1..][..k - 1] == b[..k][1..];
        assert a[1..][k - 1] < b[1..][k - 1];
      }
      if k :| 0 <= k < |a[1..]| && k < |b[1..]| && a[1..][..k] == b[1..][..k] && a[1..][k] < b[1..][k] {
        assert a[..k + 1] == [a[0]] + a[1..][..k] && b[..k + 1] == [b[0]] + b[1..][..k];
        assert a[k + 1] < b[k + 1];
      }
      if a[1..] <= b[1..] { assert a == [a[0]] + a[1..] && b == [b[0]] + b[1..]; }
    } else if a != "" && b != "" {
      assert a[..0] == b[..0];
      assert forall k | 0 < k < |a| && k < |b| :: a[..k][0] == a[0] && b[..k][0] == b[0];
    }
  }

  /** Longer prefixes come first, and equally long ones in the order of their text. */
  predicate Before(a: Rule, b: Rule) {
    |a.prefix| > |b.prefix| || (|a.prefix| == |b.prefix| && LexLess(a.prefix, b.prefix))
  }

  function Sorted(rules: seq<Rule>): seq<Rule> { Sort(Before, rules) }

  function NoShorter(): (Rule, Rule) -> bool { (a: Rule, b: Rule) => |a.prefix| >= |b.prefix| }

  ghost predicate LongestFirst(rules: seq<Rule>) { Ordered(NoShorter(), rules) }

  lemma SortedIs(rules: seq<Rule>)
    ensures multiset(Sorted(rules)) == multiset(rules) && LongestFirst(Sorted(rules))
  {
    hide LexLess;
    SortOrders(Before, NoShorter(), rules);
  }

  function Set(rules: seq<Rule>): set<Rule> { set rule <- rules }

  /** A matching rule than which no matching rule has a longer prefix. */
  ghost predicate IsLongest(rules: set<Rule>, key: string, rule: Rule) {
    && rule in rules && rule.prefix <= key
    && forall other <- rules | other.prefix <= key :: |other.prefix| <= |rule.prefix|
  }

  ghost predicate NoneApplies(rules: set<Rule>, key: string) { forall rule <- rules :: !(rule.prefix <= key) }

  function FirstMatch(rules: seq<Rule>, key: string): (r: Option<Rule>)
    ensures r == None <==> NoneApplies(Set(rules), key)
    ensures r.Some? ==> r.value in rules && r.value.prefix <= key
  {
    if rules == [] then None else if rules[0].prefix <= key then Some(rules[0]) else FirstMatch(rules[1..], key)
  }

  lemma {:induction false} FirstMatchIsLongest(rules: seq<Rule>, key: string)
    requires LongestFirst(rules)
    ensures FirstMatch(rules, key).Some? ==> IsLongest(Set(rules), key, FirstMatch(rules, key).value)
  {
    if rules != [] && !(rules[0].prefix <= key) {
      FirstMatchIsLongest(rules[1..], key);
    }
  }

  // ----- translation -----

  function Rewrite(rule: Rule, key: string): string
    requires rule.prefix <= key
  {
    rule.target + "\\" + key[|rule.prefix|..]
  }

  /** The key after at most n rewrites, and how many there were. */
  function Rewrites(rules: seq<Rule>, key: string, n: nat): (r: (string, nat))
    ensures r.1 <= n
  {
    if n == 0 then (key, 0)
    else
      var (current, hops) := Rewrites(rules, key, n - 1);
      var rule := FirstMatch(rules, current);
      if hops < n - 1 || rule == None then (current, hops) else (Rewrite(rule.value, current), hops + 1)
  }

  function Translation(rules: seq<Rule>, key: string): Option<string> {
    var (current, hops) := Rewrites(rules, key, MAX_JUNCTION_HOPS);
    if hops > 0 && current != key then Some(current) else None
  }

  method Translate(rules: seq<Rule>, key: string) returns (r: Option<string>)
    ensures r == Translation(rules, key)
  {
    hide Rewrites;
    var current, hops := key, 0;
    NoRewrite(rules, key);
    while hops < MAX_JUNCTION_HOPS
      invariant hops <= MAX_JUNCTION_HOPS && Rewrites(rules, key, hops) == (current, hops)
    {
      OneMoreRewrite(rules, key, hops);
      var rule := FirstMatch(rules, current);
      if rule == None {
        Settled(rules, key, hops, MAX_JUNCTION_HOPS);
        break;
      }
      current := Rewrite(rule.value, current);
      hops := hops + 1;
    }
    r := if hops > 0 && current != key then Some(current) else None;
  }

  lemma NoRewrite(rules: seq<Rule>, key: string)
    ensures Rewrites(rules, key, 0) == (key, 0)
  {
  }

  lemma OneMoreRewrite(rules: seq<Rule>, key: string, n: nat)
    ensures var (current, hops) := Rewrites(rules, key, n);
      var rule := FirstMatch(rules, current);
      Rewrites(rules, key, n + 1)
      == if hops < n || rule == None then (current, hops) else (Rewrite(rule.value, current), hops + 1)
  {
  }

  /** Once no rule applies, more turns change nothing. */
  lemma {:induction false} Settled(rules: seq<Rule>, key: string, n: nat, m: nat)
    requires n <= m && FirstMatch(rules, Rewrites(rules, key, n).0) == None
    ensures Rewrites(rules, key, m) == Rewrites(rules, key, n)
    decreases m
  {
    if n < m {
      Settled(rules, key, n, m - 1);
    }
  }

  /** One step to the longest matching prefix at a time. */
  ghost predicate Reaches(rules: set<Rule>, key: string, end: string, hops: nat)
    decreases hops
  {
    if hops == 0 then end == key
    else exists middle, rule ::
           Reaches(rules, key, middle, hops - 1) && IsLongest(rules, middle, rule) && end == Rewrite(rule, middle)
  }

  lemma {:induction false} RewritesReach(rules: seq<Rule>, key: string, n: nat)
    requires LongestFirst(rules)
    ensures var (end, hops) := Rewrites(rules, key, n);
      Reaches(Set(rules), key, end, hops) && (hops < n ==> NoneApplies(Set(rules), end))
  {
    hide Rewrites, IsLongest, FirstMatch, Set, NoneApplies;
    if n == 0 {
      NoRewrite(rules, key);
    } else {
      RewritesReach(rules, key, n - 1);
      OneMoreRewrite(rules, key, n - 1);
      FirstMatchIsLongest(rules, Rewrites(rules, key, n - 1).0);
    }
  }

  lemma SameRules(rules: seq<Rule>, others: seq<Rule>)
    requires multiset(rules) == multiset(others)
    ensures Set(rules) == Set(others)
  {
    forall rule ensures rule in rules <==> rule in others {
      assert rule in rules <==> rule in multiset(rules);
      assert rule in others <==> rule in multiset(others);
    }
  }

  /** A key translates to another by following the junctions, the deepest that lies on the path first, at most eight of
      them; if that was fewer than eight, no junction lies on the new path. */
  lemma TranslationFollowsTheDeepest(rules: seq<Rule>, key: string)
    ensures var (end, hops) := Rewrites(Sorted(rules), key, MAX_JUNCTION_HOPS);
      && Reaches(Set(rules), key, end, hops) && hops <= MAX_JUNCTION_HOPS
      && (hops < MAX_JUNCTION_HOPS ==> NoneApplies(Set(rules), end))
      && (Translation(Sorted(rules), key) == if end == key then None else Some(end))
  {
    hide Rewrites, Sorted, Set, NoneApplies, IsLongest;
    SortedIs(rules);
    SameRules(rules, Sorted(rules));
    var (end, hops) := Rewrites(Sorted(rules), key, MAX_JUNCTION_HOPS);
    RewritesReach(Sorted(rules), key, MAX_JUNCTION_HOPS);
  }

  /** Where fewer than eight junctions led, no more lead on. */
  lemma TranslationIsFinal(rules: seq<Rule>, key: string)
    requires Rewrites(rules, key, MAX_JUNCTION_HOPS).1 < MAX_JUNCTION_HOPS
    ensures Translation(rules, Rewrites(rules, key, MAX_JUNCTION_HOPS).0) == None
  {
    hide Rewrites;
    StoppedShort(rules, key, MAX_JUNCTION_HOPS);
    var end := Rewrites(rules, key, MAX_JUNCTION_HOPS).0;
    NoRewrite(rules, end);
    Settled(rules, end, 0, MAX_JUNCTION_HOPS);
  }

  lemma {:induction false} StoppedShort(rules: seq<Rule>, key: string, n: nat)
    requires Rewrites(rules, key, n).1 < n
    ensures FirstMatch(rules, Rewrites(rules, key, n).0) == None
  {
    hide Rewrites, FirstMatch;
    OneMoreRewrite(rules, key, n - 1);
    if Rewrites(rules, key, n - 1).1 < n - 1 {
      StoppedShort(rules, key, n - 1);
    }
  }

  /** Segments with a backslash between each two. */
  predicate IsTail(rest: string) {
    var i := LastSlash(rest);
    IsSegment(rest[i + 1..]) && (i < 0 || IsTail(rest[..i]))
  }

  lemma LastSlashOfJoin(base: string, rest: string)
    ensures var key, i := base + "\\" + rest, LastSlash(rest);
      var k := |base| + 1 + i;
      && LastSlash(key) == k && key[k + 1..] == rest[i + 1..]
      && key[..k] == if i < 0 then base else base + "\\" + rest[..i]
  {
    hide LastSlash;
    var key, i := base + "\\" + rest, LastSlash(rest);
    if i < 0 {
      AtJoin(base, rest);
      LastSlashIs(key, |base|);
    } else {
      AfterJoin(base, rest, i);
      LastSlashIs(key, |base| + 1 + i);
    }
  }

  lemma AtJoin(base: string, rest: string)
    ensures var key, k := base + "\\" + rest, |base|;
      key[k] == '\\' && key[k + 1..] == rest && key[..k] == base
  {
  }

  lemma AfterJoin(base: string, rest: string, i: nat)
    requires i < |rest|
    ensures var key, k := base + "\\" + rest, |base| + 1 + i;
      key[k] == rest[i] && key[k + 1..] == rest[i + 1..] && key[..k] == base + "\\" + rest[..i]
  {
  }

  lemma {:induction false} TailsMakeKeys(base: string, rest: string)
    requires IsKey(base)
    ensures IsKey(base + "\\" + rest) <==> IsTail(rest)
    decreases |rest|
  {
    hide LastSlash, IsSegment, IsKey, IsTail;
    var key, i := base + "\\" + rest, LastSlash(rest);
    LastSlashOfJoin(base, rest);
    KeyParts(base, LastSlash(base));
    KeyParts(key, |base| + 1 + i);
    TailParts(rest, i);
    assert key[|base| + 1 + i + 1..] == rest[i + 1..];
    if i >= 0 {
      TailsMakeKeys(base, rest[..i]);
      assert key[..|base| + 1 + i] == base + "\\" + rest[..i];
      assert IsKey(key) <==> IsSegment(rest[i + 1..]) && IsKey(base + "\\" + rest[..i]);
    } else {
      assert key[..|base| + 1 + i] == base;
      assert IsKey(key) <==> IsSegment(rest[i + 1..]) && IsKey(base);
    }
  }

  lemma TailParts(rest: string, i: int)
    requires i == LastSlash(rest)
    ensures IsTail(rest) <==> IsSegment(rest[i + 1..]) && (i < 0 || IsTail(rest[..i]))
  {
  }

  /** Respelling a key through a junction between two keys gives a key. */
  lemma RewritesKeepKeys(at: string, target: string, key: string)
    requires IsKey(at) && IsKey(target) && IsKey(key) && at + "\\" <= key
    ensures IsKey(Rewrite(Rule(at + "\\", target), key))
  {
    hide IsKey, IsTail;
    var rest := key[|at| + 1..];
    assert key == at + "\\" + rest;
    TailsMakeKeys(at, rest);
    TailsMakeKeys(target, rest);
  }

  // ----- the pass -----

  /** The key and record a key leads to: none if no junction moves it, or if the volume has nothing there. */
  function Lead(v: Volume, rules: seq<Rule>, key: string): Option<(string, nat)> {
    var canonical := Translation(rules, key);
    if canonical.Some? && v.resolve(canonical.value).Some?
    then Some((canonical.value, v.resolve(canonical.value).value))
    else None
  }

  predicate DeadEnd(v: Volume, rules: seq<Rule>, key: string) {
    Translation(rules, key).Some? && Lead(v, rules, key) == None
  }

  /** The parsed spelling, located where the path was. */
  function Rebased(v: Volume, path: Path, canonical: string): Option<Path> {
    var parsed := v.parse(canonical);
    if parsed == None then None else Some(parsed.value.(located := path.located))
  }

  /** The keys the pass considers: the file table's own names are never respelled. */
  function Considered(items: seq<Observation>): set<string> {
    set o <- items | o.path.Some? && o.source != Mft :: o.path.value.key
  }

  function Respelled(v: Volume, rules: seq<Rule>, o: Observation): Observation {
    if o.source == Mft || o.path == None then o
    else
      var lead := Lead(v, rules, o.path.value.key);
      var rebased := if lead == None then None else Rebased(v, o.path.value, lead.value.0);
      if rebased == None then o else o.(path := rebased)
  }

  /** The refused junctions that lie on a key. */
  function Crossed(junctions: seq<Junction>, key: string): set<string> {
    set j <- junctions | j.target == None && j.at.Some? && j.at.value + "\\" <= key :: j.at.value
  }

  function CrossedBy(junctions: seq<Junction>, keys: set<string>): set<string> {
    set key <- keys, j <- junctions | j.target == None && j.at.Some? && j.at.value + "\\" <= key :: j.at.value
  }

  class JunctionPass {
    var items: seq<Observation>
    var resolved: map<string, (string, nat)>
    var refused: set<string>
    var crossed: set<string>

    constructor (items: seq<Observation>)
      ensures this.items == items && resolved == map[] && refused == {} && crossed == {}
    {
      this.items := items;
      resolved, refused, crossed := map[], {}, {};
    }

    /** What has been learnt of the keys considered is what translating and resolving each of them would give. */
    ghost predicate Knows(v: Volume, rules: seq<Rule>, keys: set<string>)
      reads this`resolved, this`refused
    {
      && resolved == (map key <- keys | Lead(v, rules, key).Some? :: Lead(v, rules, key).value)
      && refused == set key <- keys | DeadEnd(v, rules, key)
    }

    /** The first loop: each key is translated and resolved once. */
    method Learn(v: Volume, rules: seq<Rule>, junctions: seq<Junction>)
      requires resolved == map[] && refused == {} && crossed == {}
      modifies this`resolved, this`refused, this`crossed
      ensures Knows(v, rules, Considered(items)) && crossed == CrossedBy(junctions, Considered(items))
    {
      hide Translation, Lead, DeadEnd, Crossed, CrossedBy, Considered, Knows;
      NothingKnown(v, rules, this, junctions);
      for i := 0 to |items|
        invariant Knows(v, rules, Considered(items[..i]))
        invariant crossed == CrossedBy(junctions, Considered(items[..i]))
      {
        var o := items[i];
        assert items[..i + 1] == items[..i] + [o];
        OneMoreConsidered(items[..i], o);
        if o.path == None || o.source == Mft { continue; }
        var key := o.path.value.key;
        OneMoreCrossed(junctions, Considered(items[..i]), key);
        crossed := crossed + Crossed(junctions, key);
        LearnKey(v, rules, key, Considered(items[..i]));
      }
      assert items[..|items|] == items;
    }

    method LearnKey(v: Volume, rules: seq<Rule>, key: string, ghost keys: set<string>)
      requires Knows(v, rules, keys)
      modifies this`resolved, this`refused
      ensures Knows(v, rules, keys + {key})
    {
      hide Translation;
      if key in resolved || key in refused {
        assert keys + {key} == keys;
        return;
      }
      var canonical := Translate(rules, key);
      if canonical == None { return; }
      var record := v.resolve(canonical.value);
      if record.Some? {
        resolved := resolved[key := (canonical.value, record.value)];
      } else {
        refused := refused + {key};
      }
    }

    /** The second loop: each observation whose key leads somewhere is respelled. */
    method Respell(v: Volume, ghost rules: seq<Rule>) returns (translated: nat)
      requires Knows(v, rules, Considered(items))
      modifies this`items
      ensures |items| == |old(items)|
      ensures forall i | 0 <= i < |items| :: items[i] == Respelled(v, rules, old(items)[i])
      ensures translated == |set i | 0 <= i < |items| && Moves(v, rules, old(items)[i])|
    {
      hide Translation, Lead, DeadEnd, Considered, Moves, Respelled;
      translated := 0;
      ghost var moved: set<int> := {};
      for i := 0 to |items|
        invariant |items| == |old(items)|
        invariant forall j | 0 <= j < |items| ::
                    items[j] == if j < i then Respelled(v, rules, old(items)[j]) else old(items)[j]
        invariant moved == set j | 0 <= j < i && Moves(v, rules, old(items)[j])
        invariant translated == |moved|
      {
        var o := items[i];
        assert o in old(items);
        Moved(v, rules, old(items), o);
        if o.source == Mft || o.path == None { continue; }
        if o.path.value.key !in resolved { continue; }
        var rebased := Rebased(v, o.path.value, resolved[o.path.value.key].0);
        if rebased == None { continue; }
        translated := translated + 1;
        moved := moved + {i};
        items := items[i := o.(path := rebased)];
      }
      assert moved == set i | 0 <= i < |items| && Moves(v, rules, old(items)[i]);
    }

    method Canonicalize(v: Volume, junctions: seq<Junction>) returns (translated: nat)
      requires resolved == map[] && refused == {} && crossed == {}
      modifies this
      ensures var rules := Sorted(Rules(junctions));
        && |items| == |old(items)|
        && (forall i | 0 <= i < |items| :: items[i] == Respelled(v, rules, old(items)[i]))
        && translated == |set i | 0 <= i < |items| && Moves(v, rules, old(items)[i])|
      ensures crossed == CrossedBy(junctions, Considered(old(items)))
      ensures refused == set key <- Considered(old(items)) | DeadEnd(v, Sorted(Rules(junctions)), key)
    {
      hide Translation, Lead, DeadEnd, CrossedBy, Considered, Sorted, Respelled, Moves;
      var rules := Sorted(Rules(junctions));
      if junctions == [] {
        NoJunctions(v, this);
        assert (set i | 0 <= i < |items| && Moves(v, rules, items[i])) == {};
        return 0;
      }
      Learn(v, rules, junctions);
      translated := Respell(v, rules);
    }
  }

  predicate Moves(v: Volume, rules: seq<Rule>, o: Observation) {
    && o.source != Mft && o.path.Some? && Lead(v, rules, o.path.value.key).Some?
    && v.parse(Lead(v, rules, o.path.value.key).value.0).Some?
  }

  lemma Moved(v: Volume, rules: seq<Rule>, items: seq<Observation>, o: Observation)
    requires o in items
    ensures o.source != Mft && o.path.Some? ==> o.path.value.key in Considered(items)
    ensures Respelled(v, rules, o)
         == if Moves(v, rules, o) then o.(path := Rebased(v, o.path.value, Lead(v, rules, o.path.value.key).value.0)) else o
    ensures Moves(v, rules, o) <==>
              && o.source != Mft && o.path.Some? && Lead(v, rules, o.path.value.key).Some?
              && Rebased(v, o.path.value, Lead(v, rules, o.path.value.key).value.0).Some?
  {
    hide Lead;
  }

  lemma NothingKnown(v: Volume, rules: seq<Rule>, pass: JunctionPass, junctions: seq<Junction>)
    requires pass.resolved == map[] && pass.refused == {}
    ensures pass.Knows(v, rules, Considered([])) && CrossedBy(junctions, Considered([])) == {}
  {
  }

  lemma OneMoreConsidered(items: seq<Observation>, o: Observation)
    ensures Considered(items + [o])
         == if o.path.Some? && o.source != Mft then Considered(items) + {o.path.value.key} else Considered(items)
  {
  }

  lemma OneMoreCrossed(junctions: seq<Junction>, keys: set<string>, key: string)
    ensures CrossedBy(junctions, keys + {key}) == CrossedBy(junctions, keys) + Crossed(junctions, key)
  {
  }

  lemma NoJunctions(v: Volume, pass: JunctionPass)
    ensures forall o :: Respelled(v, Sorted(Rules([])), o) == o
    ensures CrossedBy([], Considered(pass.items)) == {}
    ensures forall key :: !DeadEnd(v, Sorted(Rules([])), key)
    ensures forall o :: !Moves(v, Sorted(Rules([])), o)
  {
    forall key ensures Translation([], key) == None {
      hide Rewrites;
      NoRewrite([], key);
      Settled([], key, 0, MAX_JUNCTION_HOPS);
    }
  }

  // ----- what the pass establishes -----

  /** An observation keeps its path, or gets the one its junctions lead to, and that only if something is there. */
  lemma PathsStayOrLead(v: Volume, rules: seq<Rule>, o: Observation)
    ensures var after := Respelled(v, Sorted(rules), o);
      && after.source == o.source && after.kind == o.kind && after.path.Some? == o.path.Some?
      && (o.source == Mft ==> after == o)
      && (after != o ==> exists end, hops ::
            && 0 < hops <= MAX_JUNCTION_HOPS && Reaches(Set(rules), o.path.value.key, end, hops)
            && v.resolve(end).Some? && v.parse(end).Some?
            && after.path == Some(v.parse(end).value.(located := o.path.value.located)))
  {
    hide Rewrites, Sorted, Set, Reaches, NoneApplies;
    if o.path.Some? {
      TranslationFollowsTheDeepest(rules, o.path.value.key);
      var (end, hops) := Rewrites(Sorted(rules), o.path.value.key, MAX_JUNCTION_HOPS);
    }
  }

  // ----- in terms of the junctions themselves -----

  /** The junction was followed to a target, and the key lies under it. */
  ghost predicate LiesUnder(key: string, j: Junction) {
    j.at.Some? && j.target.Some? && j.at.value + "\\" <= key
  }

  /** From a key to the target of the deepest such junction, the rest of the key kept. */
  ghost predicate StepsTo(junctions: seq<Junction>, key: string, next: string) {
    exists j <- junctions ::
      && LiesUnder(key, j)
      && (forall k <- junctions | LiesUnder(key, k) :: |k.at.value| <= |j.at.value|)
      && next == j.target.value + "\\" + key[|j.at.value| + 1..]
  }

  ghost predicate LeadsTo(junctions: seq<Junction>, key: string, end: string, hops: nat)
    decreases hops
  {
    if hops == 0 then end == key
    else exists middle :: LeadsTo(junctions, key, middle, hops - 1) && StepsTo(junctions, middle, end)
  }

  /** The rules are those of the junctions that have a place and a target, refused ones left out. */
  lemma {:induction false} RulesAre(junctions: seq<Junction>)
    ensures Set(Rules(junctions))
         == set j <- junctions | j.at.Some? && j.target.Some? :: Rule(j.at.value + "\\", j.target.value)
  {
    if junctions != [] {
      var earlier, j := junctions[..|junctions| - 1], junctions[|junctions| - 1];
      RulesAre(earlier);
      assert junctions == earlier + [j];
      assert Set(Rules(junctions))
          == Set(Rules(earlier)) + if j.at.Some? && j.target.Some? then {Rule(j.at.value + "\\", j.target.value)} else {};
    }
  }

  lemma LongestIsDeepest(junctions: seq<Junction>, key: string, rule: Rule)
    requires IsLongest(Set(Rules(junctions)), key, rule)
    ensures StepsTo(junctions, key, Rewrite(rule, key))
  {
    RulesAre(junctions);
    var rules := Set(Rules(junctions));
    var j :| j in junctions && j.at.Some? && j.target.Some? && rule == Rule(j.at.value + "\\", j.target.value);
    forall k <- junctions | LiesUnder(key, k) ensures |k.at.value| <= |j.at.value| {
      assert Rule(k.at.value + "\\", k.target.value) in rules;
    }
  }

  lemma {:induction false} ReachesLeadsTo(junctions: seq<Junction>, key: string, end: string, hops: nat)
    requires Reaches(Set(Rules(junctions)), key, end, hops)
    ensures LeadsTo(junctions, key, end, hops)
    decreases hops
  {
    hide Rules, StepsTo, Set, IsLongest, Reaches;
    if hops == 0 {
      NoHop(Set(Rules(junctions)), key, end);
    } else {
      var middle, rule := LastHop(Set(Rules(junctions)), key, end, hops);
      ReachesLeadsTo(junctions, key, middle, hops - 1);
      LongestIsDeepest(junctions, middle, rule);
    }
  }

  lemma NoHop(rules: set<Rule>, key: string, end: string)
    requires Reaches(rules, key, end, 0)
    ensures end == key
  {
  }

  lemma LastHop(rules: set<Rule>, key: string, end: string, hops: nat) returns (middle: string, rule: Rule)
    requires hops > 0 && Reaches(rules, key, end, hops)
    ensures Reaches(rules, key, middle, hops - 1) && IsLongest(rules, middle, rule)
    ensures rule.prefix <= middle && end == Rewrite(rule, middle)
  {
    middle, rule :| Reaches(rules, key, middle, hops - 1) && IsLongest(rules, middle, rule) && end == Rewrite(rule, middle);
  }

  lemma NoneAppliesIs(junctions: seq<Junction>, key: string)
    ensures NoneApplies(Set(Rules(junctions)), key) <==> forall j <- junctions :: !LiesUnder(key, j)
  {
    RulesAre(junctions);
    forall j <- junctions | LiesUnder(key, j) ensures !NoneApplies(Set(Rules(junctions)), key) {
      assert Rule(j.at.value + "\\", j.target.value) in Set(Rules(junctions));
    }
  }

  /** What the pass makes of an observation, said of the junctions: it follows the deepest one over the key, up to eight
      times and as long as there is one, and respells the observation exactly when that led elsewhere, to something the
      volume has and that parses. The file table's own observations, and those under no junction, stay as they are. */
  lemma PassFollowsTheJunctions(v: Volume, junctions: seq<Junction>, o: Observation)
    ensures var after := Respelled(v, Sorted(Rules(junctions)), o);
      && (o.source == Mft || o.path == None ==> after == o)
      && (o.source != Mft && o.path.Some? ==>
            var key := o.path.value.key;
            exists end, hops: nat ::
              && hops <= 8 && LeadsTo(junctions, key, end, hops)
              && (hops < 8 ==> forall j <- junctions :: !LiesUnder(end, j))
              && after == if end != key && v.resolve(end).Some? && v.parse(end).Some?
                          then o.(path := Some(v.parse(end).value.(located := o.path.value.located)))
                          else o)
      && (o.path.Some? && (forall j <- junctions :: !LiesUnder(o.path.value.key, j)) ==> after == o)
  {
    hide Rewrites, Sorted, Rules, Set, Reaches, NoneApplies, LeadsTo, LiesUnder;
    if o.path.Some? {
      var key := o.path.value.key;
      TranslationFollowsTheDeepest(Rules(junctions), key);
      var (end, hops) := Rewrites(Sorted(Rules(junctions)), key, MAX_JUNCTION_HOPS);
      ReachesLeadsTo(junctions, key, end, hops);
      NoneAppliesIs(junctions, end);
      NoneAppliesIs(junctions, key);
      if forall j <- junctions :: !LiesUnder(key, j) {
        NowhereToGo(Rules(junctions), key);
      }
    }
  }

  lemma NowhereToGo(rules: seq<Rule>, key: string)
    requires NoneApplies(Set(rules), key)
    ensures Rewrites(Sorted(rules), key, MAX_JUNCTION_HOPS) == (key, 0)
  {
    hide Rewrites, Sorted;
    SortedIs(rules);
    SameRules(rules, Sorted(rules));
    NoRewrite(Sorted(rules), key);
    Settled(Sorted(rules), key, 0, MAX_JUNCTION_HOPS);
  }

  /** A refused junction is crossed exactly when some observation not of the file table lies under it. */
  lemma CrossedExactly(junctions: seq<Junction>, items: seq<Observation>, at: string)
    ensures at in CrossedBy(junctions, Considered(items)) <==>
              && Refused(junctions, at)
              && exists o <- items :: o.source != Mft && o.path.Some? && at + "\\" <= o.path.value.key
  {
    if o :| o in items && o.source != Mft && o.path.Some? && at + "\\" <= o.path.value.key {
      assert o.path.value.key in Considered(items);
    }
  }

  ghost predicate Refused(junctions: seq<Junction>, at: string) {
    exists j <- junctions :: j.at == Some(at) && j.target == None
  }

  // ----- a second pass -----

  /** The key that up to eight junctions lead to. */
  function Led(rules: seq<Rule>, key: string): string { Rewrites(rules, key, MAX_JUNCTION_HOPS).0 }

  lemma {:induction false} NoHopNoMove(rules: seq<Rule>, key: string, n: nat)
    ensures Rewrites(rules, key, n).1 == 0 ==> Rewrites(rules, key, n).0 == key
  {
    if n > 0 {
      NoHopNoMove(rules, key, n - 1);
    }
  }

  lemma TranslationIs(rules: seq<Rule>, key: string)
    ensures Translation(rules, key) == if Led(rules, key) == key then None else Some(Led(rules, key))
  {
    hide Rewrites;
    NoHopNoMove(rules, key, MAX_JUNCTION_HOPS);
  }

  /** The volume has the file a key leads to, and its path parses. */
  predicate Takes(v: Volume, rules: seq<Rule>, key: string) {
    var end := Led(rules, key);
    end != key && v.resolve(end).Some? && v.parse(end).Some?
  }

  /** Either the key is not respelled, or the key it becomes is not, or that one leads to something spelled the same. */
  predicate Settles(v: Volume, rules: seq<Rule>, key: string) {
    Takes(v, rules, key) ==>
      var end := Led(rules, key);
      var once := v.parse(end).value;
      Takes(v, rules, once.key) ==>
        var twice := v.parse(Led(rules, once.key)).value;
        twice.raw == once.raw && twice.key == once.key
  }

  lemma RespelledIs(v: Volume, rules: seq<Rule>, o: Observation)
    ensures Respelled(v, rules, o)
         == if o.source == Mft || o.path == None || !Takes(v, rules, o.path.value.key) then o
            else
              var end := Led(rules, o.path.value.key);
              o.(path := Some(v.parse(end).value.(located := o.path.value.located)))
  {
    hide Led, Translation;
    if o.path.Some? { TranslationIs(rules, o.path.value.key); }
  }

  /** A second pass leaves an observation alone exactly when its key settles. */
  lemma ASecondPassIsIdle(v: Volume, rules: seq<Rule>, o: Observation)
    ensures var once := Respelled(v, rules, o);
      Respelled(v, rules, once) == once <==> o.source == Mft || o.path == None || Settles(v, rules, o.path.value.key)
  {
    hide Led, Respelled;
    RespelledIs(v, rules, o);
    RespelledIs(v, rules, Respelled(v, rules, o));
  }

  /** A key that fewer than eight junctions lead to a key that parses to itself always settles. */
  lemma ShortChainsSettle(v: Volume, rules: seq<Rule>, key: string)
    requires var (end, hops) := Rewrites(rules, key, MAX_JUNCTION_HOPS);
      hops < MAX_JUNCTION_HOPS && v.parse(end).Some? && v.parse(end).value.key == end
    ensures Settles(v, rules, key)
  {
    hide Rewrites;
    TranslationIsFinal(rules, key);
    TranslationIs(rules, Led(rules, key));
  }

  const RING_JUNCTIONS: seq<Junction> :=
    [Junction(Some("\\a"), Some("\\b")), Junction(Some("\\b"), Some("\\c")), Junction(Some("\\c"), Some("\\a"))]

  const RING: seq<Rule> := [Rule("\\a\\", "\\b"), Rule("\\b\\", "\\c"), Rule("\\c\\", "\\a")]

  function OnRing(k: nat): string { ["\\a\\x", "\\b\\x", "\\c\\x"][k % 3] }

  lemma RingStep(k: nat)
    ensures FirstMatch(RING, OnRing(k)) == Some(RING[k % 3]) && Rewrite(RING[k % 3], OnRing(k)) == OnRing(k + 1)
  {
    var key, rule := OnRing(k), RING[k % 3];
    assert RING[0].prefix[1] == 'a' && RING[1].prefix[1] == 'b' && RING[2].prefix[1] == 'c';
    assert forall r <- RING | r.prefix <= key :: r.prefix[1] == key[1];
    assert key[3..] == "x" && key[..3] == rule.prefix;
    assert rule.target + "\\" + "x" == OnRing(k + 1);
  }

  lemma {:induction false} RingTurns(start: nat, n: nat)
    ensures Rewrites(RING, OnRing(start), n) == (OnRing(start + n), n)
  {
    hide Rewrites, OnRing, FirstMatch, Rewrite;
    if n == 0 {
      NoRewrite(RING, OnRing(start));
    } else {
      var k := start + n - 1;
      RingTurns(start, n - 1);
      RingStep(k);
      OneMoreRewrite(RING, OnRing(start), n - 1);
      assert Rewrites(RING, OnRing(start), n) == (OnRing(k + 1), n);
    }
  }

  lemma OneMoreRule(junctions: seq<Junction>, at: string, target: string)
    ensures Rules(junctions + [Junction(Some(at), Some(target))]) == Rules(junctions) + [Rule(at + "\\", target)]
  {
    assert (junctions + [Junction(Some(at), Some(target))])[..|junctions|] == junctions;
  }

  lemma OneMoreSorted(rules: seq<Rule>, rule: Rule)
    ensures Sorted(rules + [rule]) == Insert(Before, Sorted(rules), rule)
  {
    assert (rules + [rule])[..|rules|] == rules;
  }

  /** A rule that comes before none of the sorted ones goes last. */
  lemma {:induction false} InsertLast(sorted: seq<Rule>, rule: Rule)
    requires forall other <- sorted :: !Before(rule, other)
    ensures Insert(Before, sorted, rule) == sorted + [rule]
  {
    if sorted != [] {
      InsertLast(sorted[1..], rule);
    }
  }

  lemma RingIsSorted()
    ensures Sorted(Rules(RING_JUNCTIONS)) == RING
  {
    hide Rules, Sorted, Insert;
    var a, b, c := RING[0], RING[1], RING[2];
    RingRules();
    assert !Before(b, a) && !Before(c, a) && !Before(c, b);
    OneMoreSorted([], a);
    OneMoreSorted([a], b);
    OneMoreSorted([a, b], c);
    assert [] + [a] == [a] && [a] + [b] == [a, b] && [a, b] + [c] == RING;
    assert Sorted([]) == [] by { NothingToSort(); }
    InsertLast([], a);
    InsertLast([a], b);
    InsertLast([a, b], c);
  }

  lemma NothingToSort()
    ensures Sorted([]) == [] && Rules([]) == []
  {
  }

  lemma RingRules()
    ensures Rules(RING_JUNCTIONS) == RING
  {
    hide Rules;
    var a, b, c := RING_JUNCTIONS[0], RING_JUNCTIONS[1], RING_JUNCTIONS[2];
    NothingToSort();
    OneMoreRule([], "\\a", "\\b");
    OneMoreRule([a], "\\b", "\\c");
    OneMoreRule([a, b], "\\c", "\\a");
    assert [] + [a] == [a] && [a] + [b] == [a, b] && [a, b] + [c] == RING_JUNCTIONS;
    assert "\\a" + "\\" == "\\a\\" && "\\b" + "\\" == "\\b\\" && "\\c" + "\\" == "\\c\\";
  }

  /** Where the volume resolves the three paths round the ring and each parses to itself, a file behind a ring of three
      junctions is respelled by the pass, and respelled again by every further one. */
  lemma ARingNeverSettles(v: Volume, k: nat, raw: string)
    requires forall j: nat :: v.resolve(OnRing(j)).Some?
    requires forall j: nat :: v.parse(OnRing(j)) == Some(Path(OnRing(j), OnRing(j), true))
    ensures var rules := Sorted(Rules(RING_JUNCTIONS));
      var o := Observation(OtherSource("prefetch"), Some(Path(raw, OnRing(k), true)), OtherKind("executed"));
      var once := Respelled(v, rules, o);
      && once.path == Some(Path(OnRing(k + 2), OnRing(k + 2), true))
      && Respelled(v, rules, once).path == Some(Path(OnRing(k + 4), OnRing(k + 4), true))
      && OnRing(k) != OnRing(k + 2) && OnRing(k + 2) != OnRing(k + 4)
  {
    hide Rewrites, Sorted, Rules, Respelled, OnRing, Led;
    RingIsSorted();
    var o := Observation(OtherSource("prefetch"), Some(Path(raw, OnRing(k), true)), OtherKind("executed"));
    RingGoesOn(k);
    RingGoesOn(k + 2);
    RespelledIs(v, RING, o);
    RespelledIs(v, RING, Respelled(v, RING, o));
  }

  lemma RingGoesOn(k: nat)
    ensures Led(RING, OnRing(k)) == OnRing(k + 2) && OnRing(k + 2) != OnRing(k)
  {
    hide Rewrites;
    RingTurns(k, MAX_JUNCTION_HOPS);
    assert OnRing(k + 8) == OnRing(k + 2);
  }
}
