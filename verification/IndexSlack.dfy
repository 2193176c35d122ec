/** Deleted names still lying in the slack of their parent directory's index, joined to the paths a run could not find. */
module IndexSlack {
  import opened Prelude
  import opened PathKeys

  const MAX_DIRECTORIES := 8192

  datatype Fate = Free | FreedAgain | StillThere | Reallocated | Unknown

  datatype Entry = Entry(name: string, dosName: bool, record: nat, sequence: u16, realSize: nat, foundIn: nat)

  datatype Swept = Swept(entries: seq<Entry>, recovered: nat)

  datatype Found = Found(record: nat, sequence: u16, realSize: nat, foundIn: nat, fate: Fate)

  /** The volume's directories and records, the lower-casing of names, and the order of a sorted set. */
  datatype Volume = Volume(
    resolve: string -> Option<nat>,
    deletedEntries: nat -> Swept,
    fate: (nat, u16) -> Fate,
    lower: string -> string,
    sorted: set<string> -> seq<string>)

  /** `sorted` lists a set's elements, each once. */
  ghost predicate Sorts(v: Volume) {
    forall s ::
      && |v.sorted(s)| == |s|
      && (forall x :: x in v.sorted(s) <==> x in s)
      && forall i, j | 0 <= i < j < |v.sorted(s)| :: v.sorted(s)[i] != v.sorted(s)[j]
  }

  datatype WantedPath = WantedPath(key: string, located: bool)

  datatype Stats = Stats(
    wanted: nat,
    directories: nat,
    resolved: nat,
    declined: nat,
    entries: nat,
    ambiguous: nat,
    matched: nat,
    carveable: nat,
    reallocated: nat,
    stillThere: nat)

  // ----- what the sweep recovers -----

  function WantedKeys(paths: seq<WantedPath>): set<string> { set p <- paths | p.located :: p.key }

  function DirectoryOf(key: string): string { var d := Parent(key); if d.Some? then d.value else "" }

  function LeafOf(key: string): string { var l := FileName(key); if l.Some? then l.value else "" }

  function Directories(wanted: set<string>): set<string> { set key <- wanted :: DirectoryOf(key) }

  function LeavesIn(wanted: set<string>, directory: string): set<string> {
    set key <- wanted | DirectoryOf(key) == directory :: LeafOf(key)
  }

  /** The entries that claim a leaf: its name in lower case, and not the short name beside the long one. */
  function Claims(v: Volume, entries: seq<Entry>, leaf: string): seq<Entry> {
    if entries == [] then []
    else
      var last := entries[|entries| - 1];
      Claims(v, entries[..|entries| - 1], leaf) + if !last.dosName && v.lower(last.name) == leaf then [last] else []
  }

  function Identities(entries: seq<Entry>): set<(nat, u16)> { set e <- entries :: (e.record, e.sequence) }

  function ClaimsOn(v: Volume, key: string): seq<Entry> {
    var record := v.resolve(DirectoryOf(key));
    if record == None then [] else Claims(v, v.deletedEntries(record.value).entries, LeafOf(key))
  }

  predicate Undisputed(v: Volume, key: string) { |Identities(ClaimsOn(v, key))| == 1 }

  predicate Disputed(v: Volume, key: string) { |Identities(ClaimsOn(v, key))| > 1 }

  function FoundFrom(v: Volume, e: Entry): Found {
    Found(e.record, e.sequence, e.realSize, e.foundIn, v.fate(e.record, e.sequence))
  }

  function FoundFor(v: Volume, key: string): Found
    requires Undisputed(v, key)
  {
    assert ClaimsOn(v, key) != [] by { assert Identities([]) == {}; }
    FoundFrom(v, ClaimsOn(v, key)[0])
  }

  /** What a set of keys recovers: each undisputed key, with the entry that claims it. */
  function Recovered(v: Volume, keys: set<string>): map<string, Found> {
    map key <- keys | Undisputed(v, key) :: FoundFor(v, key)
  }

  function DisputedAmong(v: Volume, keys: set<string>): set<string> { set key <- keys | Disputed(v, key) }

  /** The wanted keys whose directory was swept. */
  function KeysIn(wanted: set<string>, swept: set<string>): set<string> {
    set key <- wanted | DirectoryOf(key) in swept
  }

  /** The first directories of a list that resolve, up to the cap. */
  function SweptOf(v: Volume, directories: seq<string>): (r: set<string>)
    ensures |r| <= MAX_DIRECTORIES
    ensures forall d <- r :: d in directories && v.resolve(d).Some?
  {
    if directories == [] then {}
    else
      var earlier, last := SweptOf(v, directories[..|directories| - 1]), directories[|directories| - 1];
      if |earlier| < MAX_DIRECTORIES && v.resolve(last).Some? then earlier + {last} else earlier
  }

  function SweptFor(v: Volume, wanted: set<string>): set<string> { SweptOf(v, v.sorted(Directories(wanted))) }

  function OfFate(names: map<string, Found>, fates: set<Fate>): set<string> {
    set key <- names | names[key].fate in fates
  }

  class RecoveredNames {
    var byPath: map<string, Found>
    var stats: Stats

    constructor ()
      ensures byPath == map[] && stats == Stats(0, 0, 0, 0, 0, 0, 0, 0, 0, 0)
    {
      byPath, stats := map[], Stats(0, 0, 0, 0, 0, 0, 0, 0, 0, 0);
    }

    /** The map holds what `keys` recover, and the counters agree with it. */
    ghost predicate Filed(v: Volume, keys: set<string>)
      reads this
    {
      && byPath == Recovered(v, keys)
      && stats.matched == |byPath|
      && stats.ambiguous == |DisputedAmong(v, keys)|
      && CountsFates()
    }

    ghost predicate CountsFates()
      reads this
    {
      && stats.carveable == |OfFate(byPath, {Free})|
      && stats.reallocated == |OfFate(byPath, {Reallocated, FreedAgain})|
      && stats.stillThere == |OfFate(byPath, {StillThere})|
    }

    /** The counters of directories, which filing does not touch. */
    function Progress(): (nat, nat, nat, nat, nat)
      reads this
    {
      (stats.wanted, stats.directories, stats.resolved, stats.declined, stats.entries)
    }

    /** Files one claimed leaf of a directory. */
    method FileLeaf(v: Volume, directory: string, leaf: string, claims: seq<Entry>, ghost keys: set<string>)
      requires IsDirectory(directory) && IsSegment(leaf)
      requires claims != [] && claims == ClaimsOn(v, Child(directory, leaf))
      requires Child(directory, leaf) !in keys && Filed(v, keys)
      modifies this
      ensures Filed(v, keys + {Child(directory, leaf)})
      ensures Progress() == old(Progress())
    {
      hide Undisputed, Disputed, FoundFor, ClaimsOn, OfFate, Child, IsDirectory, IsSegment, Identities, FoundFrom;
      var key := Child(directory, leaf);
      OneMoreKey(v, keys, key);
      LeafStanding(v, key, claims);
      var distinct := Identities(claims);
      if |distinct| > 1 {
        stats := stats.(ambiguous := stats.ambiguous + 1);
        return;
      }
      RecordFound(v, key, claims[0]);
    }

    /** Records an undisputed entry under its path, with the fate of the record it names. */
    method RecordFound(v: Volume, key: string, entry: Entry)
      requires key !in byPath
      modifies this
      ensures byPath == old(byPath)[key := FoundFrom(v, entry)]
      ensures Progress() == old(Progress()) && stats.ambiguous == old(stats.ambiguous)
      ensures stats.matched == old(stats.matched) + 1
      ensures old(CountsFates()) ==> CountsFates()
    {
      hide OfFate;
      var found := FoundFrom(v, entry);
      OneMoreOfFate(byPath, key, found, {Free});
      OneMoreOfFate(byPath, key, found, {Reallocated, FreedAgain});
      OneMoreOfFate(byPath, key, found, {StillThere});
      match found.fate {
        case Free => stats := stats.(carveable := stats.carveable + 1);
        case Reallocated => stats := stats.(reallocated := stats.reallocated + 1);
        case FreedAgain => stats := stats.(reallocated := stats.reallocated + 1);
        case StillThere => stats := stats.(stillThere := stats.stillThere + 1);
        case Unknown =>
      }
      byPath := byPath[key := found];
      stats := stats.(matched := stats.matched + 1);
    }

    /** Sweeps one directory that resolved: groups the claims on its wanted leaves, then files each group. */
    method FileDirectory(v: Volume, directory: string, record: nat, leaves: set<string>, ghost keys: set<string>)
      requires IsDirectory(directory) && v.resolve(directory) == Some(record)
      requires forall leaf <- leaves :: IsSegment(leaf)
      requires forall key <- keys :: DirectoryOf(key) != directory
      requires Filed(v, keys)
      modifies this
      ensures Filed(v, keys + ChildrenOf(directory, leaves))
      ensures Progress() == old(Progress())
    {
      var entries := v.deletedEntries(record).entries;
      var candidates := GroupClaims(v, entries, leaves);
      FileGroups(v, directory, record, leaves, candidates, keys);
      UnclaimedLeaves(v, directory, record, leaves, candidates.Keys, keys);
    }

    /** The loop of the harvest, over the wanted directories in order. */
    method SweepAll(v: Volume, byDirectory: map<string, set<string>>, directories: seq<string>,
                    ghost wanted: set<string>)
      requires Sorts(v) && forall key <- wanted :: IsKey(key)
      requires byDirectory == ByDirectory(wanted) && directories == v.sorted(byDirectory.Keys)
      requires Filed(v, KeysIn(wanted, {})) && stats.resolved == stats.declined == 0
      modifies this
      ensures var swept := SweptOf(v, directories); Filed(v, KeysIn(wanted, swept)) && stats.resolved == |swept|
      ensures stats.wanted == old(stats.wanted) && stats.directories == old(stats.directories)
      ensures stats.resolved + stats.declined <= |directories|
      ensures stats.declined > 0 ==> stats.resolved == MAX_DIRECTORIES
    {
      hide Recovered, DisputedAmong, OfFate, KeysIn, IsKey, Filed, LeavesIn, Directories, SweptOf, Sorts;
      ghost var swept: set<string> := {};
      NothingSwept(v);
      assert directories[..0] == [];
      for i := 0 to |directories|
        invariant swept == SweptOf(v, directories[..i]) && stats.resolved == |swept|
        invariant stats.wanted == old(stats.wanted) && stats.directories == old(stats.directories)
        invariant Filed(v, KeysIn(wanted, swept))
        invariant stats.resolved + stats.declined <= i
        invariant stats.declined > 0 ==> stats.resolved == MAX_DIRECTORIES
      {
        assert directories[..i + 1] == directories[..i] + [directories[i]];
        var directory := directories[i];
        NextDirectory(v, byDirectory.Keys, i);
        SweepDirectory(v, directory, byDirectory[directory], wanted, swept);
        OneMoreSwept(v, directories[..i], directory);
        swept := SweptOf(v, directories[..i + 1]);
      }
      assert directories[..|directories|] == directories;
    }

    /** One turn of the harvest: past the cap a directory is declined, and one that does not resolve is passed over. */
    method SweepDirectory(v: Volume, directory: string, leaves: set<string>, ghost wanted: set<string>,
                          ghost swept: set<string>)
      requires forall key <- wanted :: IsKey(key)
      requires directory in Directories(wanted) && directory !in swept && leaves == LeavesIn(wanted, directory)
      requires Filed(v, KeysIn(wanted, swept)) && stats.resolved == |swept|
      modifies this
      ensures var now := if |swept| < MAX_DIRECTORIES && v.resolve(directory).Some? then swept + {directory} else swept;
        Filed(v, KeysIn(wanted, now)) && stats.resolved == |now|
      ensures stats.wanted == old(stats.wanted) && stats.directories == old(stats.directories)
      ensures stats.declined == old(stats.declined) + if |swept| >= MAX_DIRECTORIES then 1 else 0
      ensures stats.entries == old(stats.entries) + if stats.resolved == |swept| then 0
                               else v.deletedEntries(v.resolve(directory).value).recovered
    {
      hide Parent, FileName, IsKey, Child, Recovered, DisputedAmong, IsDirectory, IsSegment, OfFate, KeysIn,
        Directories, LeavesIn;
      if stats.resolved >= MAX_DIRECTORIES {
        stats := stats.(declined := stats.declined + 1);
        return;
      }
      var record := v.resolve(directory);
      if record == None { return; }
      var found := v.deletedEntries(record.value);
      stats := stats.(resolved := stats.resolved + 1, entries := stats.entries + found.recovered);
      OneMoreDirectory(wanted, swept, directory);
      SweptElsewhere(wanted, swept, directory);
      FileDirectory(v, directory, record.value, leaves, KeysIn(wanted, swept));
    }

    /** The second loop of a sweep: the groups are filed in any order. */
    method FileGroups(v: Volume, directory: string, record: nat, leaves: set<string>,
                      candidates: map<string, seq<Entry>>, ghost keys: set<string>)
      requires IsDirectory(directory) && v.resolve(directory) == Some(record)
      requires forall leaf <- leaves :: IsSegment(leaf)
      requires forall key <- keys :: DirectoryOf(key) != directory
      requires candidates == Grouped(v, v.deletedEntries(record).entries, leaves)
      requires Filed(v, keys)
      modifies this
      ensures Filed(v, keys + ChildrenOf(directory, candidates.Keys))
      ensures Progress() == old(Progress())
    {
      hide Filed, Child, IsDirectory, IsSegment, Claims;
      var left := candidates.Keys;
      ghost var filed: set<string> := {};
      assert keys + ChildrenOf(directory, {}) == keys;
      while left != {}
        invariant left + filed == candidates.Keys && left !! filed
        invariant Filed(v, keys + ChildrenOf(directory, filed))
        invariant Progress() == old(Progress())
        decreases left
      {
        var leaf :| leaf in left;
        NextLeaf(v, directory, record, leaves, leaf, filed, keys);
        FileLeaf(v, directory, leaf, candidates[leaf], keys + ChildrenOf(directory, filed));
        left, filed := left - {leaf}, filed + {leaf};
      }
    }
  }

  /** The first loop of a sweep: entries under a wanted leaf are collected by leaf, short names passed over. */
  method GroupClaims(v: Volume, entries: seq<Entry>, leaves: set<string>) returns (candidates: map<string, seq<Entry>>)
    ensures candidates == Grouped(v, entries, leaves)
  {
    hide Grouped;
    candidates := map[];
    GroupedNothing(v, leaves);
    for i := 0 to |entries|
      invariant candidates == Grouped(v, entries[..i], leaves)
    {
      var entry := entries[i];
      GroupedStep(v, entries[..i], entry, leaves);
      assert entries[..i + 1] == entries[..i] + [entry];
      if entry.dosName { continue; }
      var leaf := v.lower(entry.name);
      if leaf !in leaves { continue; }
      candidates := candidates[leaf := (if leaf in candidates then candidates[leaf] else []) + [entry]];
    }
    assert entries[..|entries|] == entries;
  }

  // ----- the steps of the sweep -----

  ghost function ChildrenOf(directory: string, leaves: set<string>): set<string> {
    set leaf <- leaves :: Child(directory, leaf)
  }

  /** The claims on each wanted leaf that has any. */
  ghost function Grouped(v: Volume, entries: seq<Entry>, leaves: set<string>): map<string, seq<Entry>> {
    map leaf <- leaves | Claims(v, entries, leaf) != [] :: Claims(v, entries, leaf)
  }

  lemma GroupedNothing(v: Volume, leaves: set<string>)
    ensures Grouped(v, [], leaves) == map[]
  {
  }

  lemma ClaimsStep(v: Volume, entries: seq<Entry>, entry: Entry, leaf: string)
    ensures Claims(v, entries + [entry], leaf)
         == if !entry.dosName && v.lower(entry.name) == leaf then Claims(v, entries, leaf) + [entry]
            else Claims(v, entries, leaf)
  {
    assert (entries + [entry])[..|entries|] == entries;
    assert Claims(v, entries, leaf) + [] == Claims(v, entries, leaf);
  }

  lemma GroupedStep(v: Volume, entries: seq<Entry>, entry: Entry, leaves: set<string>)
    ensures var leaf, before := v.lower(entry.name), Grouped(v, entries, leaves);
      Grouped(v, entries + [entry], leaves)
      == if entry.dosName || leaf !in leaves then before
         else before[leaf := (if leaf in before then before[leaf] else []) + [entry]]
  {
    hide Claims;
    forall leaf ensures
      Claims(v, entries + [entry], leaf)
      == if !entry.dosName && v.lower(entry.name) == leaf then Claims(v, entries, leaf) + [entry]
         else Claims(v, entries, leaf)
    {
      ClaimsStep(v, entries, entry, leaf);
    }
  }

  /** What filing one more leaf needs to know, and what it makes of the keys filed. */
  lemma NextLeaf(v: Volume, directory: string, record: nat, leaves: set<string>, leaf: string, filed: set<string>,
                 keys: set<string>)
    requires IsDirectory(directory) && v.resolve(directory) == Some(record)
    requires forall other <- leaves :: IsSegment(other)
    requires var candidates := Grouped(v, v.deletedEntries(record).entries, leaves);
      leaf in candidates && filed <= candidates.Keys && leaf !in filed
    requires forall key <- keys :: DirectoryOf(key) != directory
    ensures var key, done := Child(directory, leaf), keys + ChildrenOf(directory, filed);
      && IsSegment(leaf) && key !in done
      && ClaimsOn(v, key) == Grouped(v, v.deletedEntries(record).entries, leaves)[leaf] != []
      && done + {key} == keys + ChildrenOf(directory, filed + {leaf})
  {
    hide Child, IsDirectory, IsSegment, Claims, Parent, FileName;
    PartsOfJoin(directory, leaf);
    ChildrenApart(directory, filed, leaf);
    assert ChildrenOf(directory, filed + {leaf}) == ChildrenOf(directory, filed) + {Child(directory, leaf)};
  }

  lemma OneMoreKey(v: Volume, keys: set<string>, key: string)
    requires key !in keys
    ensures Recovered(v, keys + {key})
         == if Undisputed(v, key) then Recovered(v, keys)[key := FoundFor(v, key)] else Recovered(v, keys)
    ensures DisputedAmong(v, keys + {key})
         == DisputedAmong(v, keys) + if Disputed(v, key) then {key} else {}
  {
    hide Undisputed, Disputed, FoundFor;
  }

  lemma OneMoreOfFate(names: map<string, Found>, key: string, found: Found, fates: set<Fate>)
    requires key !in names
    ensures |OfFate(names[key := found], fates)| == |OfFate(names, fates)| + if found.fate in fates then 1 else 0
  {
    assert OfFate(names[key := found], fates)
        == OfFate(names, fates) + if found.fate in fates then {key} else {};
  }

  /** What the claims on a key make of it. */
  lemma LeafStanding(v: Volume, key: string, claims: seq<Entry>)
    requires claims != [] && claims == ClaimsOn(v, key)
    ensures Undisputed(v, key) <==> |Identities(claims)| == 1
    ensures Disputed(v, key) <==> |Identities(claims)| > 1
    ensures Undisputed(v, key) || Disputed(v, key)
    ensures Undisputed(v, key) ==> FoundFor(v, key) == FoundFrom(v, claims[0])
  {
    assert (claims[0].record, claims[0].sequence) in Identities(claims);
  }

  lemma ChildrenApart(directory: string, leaves: set<string>, leaf: string)
    requires IsDirectory(directory) && IsSegment(leaf) && leaf !in leaves
    requires forall other <- leaves :: IsSegment(other)
    ensures Child(directory, leaf) !in ChildrenOf(directory, leaves)
  {
    PartsOfJoin(directory, leaf);
    forall other <- leaves ensures Child(directory, other) != Child(directory, leaf) {
      PartsOfJoin(directory, other);
    }
  }

  /** Leaves nothing claims add nothing. */
  lemma UnclaimedLeaves(v: Volume, directory: string, record: nat, leaves: set<string>, filed: set<string>,
                        keys: set<string>)
    requires IsDirectory(directory) && v.resolve(directory) == Some(record)
    requires forall leaf <- leaves :: IsSegment(leaf)
    requires filed == Grouped(v, v.deletedEntries(record).entries, leaves).Keys
    ensures var some, all := keys + ChildrenOf(directory, filed), keys + ChildrenOf(directory, leaves);
      Recovered(v, some) == Recovered(v, all) && DisputedAmong(v, some) == DisputedAmong(v, all)
  {
    hide FoundFor;
    forall leaf <- leaves | leaf !in filed
      ensures !Undisputed(v, Child(directory, leaf)) && !Disputed(v, Child(directory, leaf))
    {
      PartsOfJoin(directory, leaf);
      assert ClaimsOn(v, Child(directory, leaf)) == [];
      assert Identities([]) == {};
    }
  }

  // ----- the whole harvest -----

  /** The wanted leaves of each directory, built one path at a time; a key seen before is passed over. */
  method GroupWanted(paths: seq<WantedPath>) returns (seen: set<string>, byDirectory: map<string, set<string>>)
    requires forall p <- paths | p.located :: IsKey(p.key)
    ensures seen == WantedKeys(paths)
    ensures byDirectory == ByDirectory(seen)
    ensures forall key <- seen :: IsKey(key)
  {
    hide Parent, FileName, IsKey, Child, Directories, LeavesIn, WantedKeys, ByDirectory;
    seen, byDirectory := {}, map[];
    NothingWanted();
    assert paths[..0] == [];
    for i := 0 to |paths|
      invariant seen == WantedKeys(paths[..i])
      invariant byDirectory == ByDirectory(seen)
      invariant forall key <- seen :: IsKey(key)
    {
      var path := paths[i];
      assert path in paths && paths[..i + 1] == paths[..i] + [path];
      OneMorePath(paths[..i], path);
      if !path.located || path.key in seen { continue; }
      JoinOfParts(path.key);
      LeavesGrow(seen, path.key);
      seen := seen + {path.key};
      var parent, leaf := Parent(path.key), FileName(path.key);
      if parent == None || leaf == None { continue; }
      var leaves := if parent.value in byDirectory then byDirectory[parent.value] else {};
      byDirectory := byDirectory[parent.value := leaves + {leaf.value}];
    }
    assert paths[..|paths|] == paths;
  }

  ghost function ByDirectory(wanted: set<string>): map<string, set<string>> {
    map d <- Directories(wanted) :: LeavesIn(wanted, d)
  }

  lemma NothingWanted()
    ensures WantedKeys([]) == {} && ByDirectory({}) == map[]
  {
  }

  lemma OneMorePath(paths: seq<WantedPath>, path: WantedPath)
    ensures WantedKeys(paths + [path]) == WantedKeys(paths) + if path.located then {path.key} else {}
  {
  }

  lemma LeavesGrow(wanted: set<string>, key: string)
    ensures var before, d := ByDirectory(wanted), DirectoryOf(key);
      ByDirectory(wanted + {key}) == before[d := (if d in before then before[d] else {}) + {LeafOf(key)}]
  {
    hide DirectoryOf, LeafOf, Directories, LeavesIn;
    OneMoreWanted(wanted, key);
    var before, after, d := ByDirectory(wanted), ByDirectory(wanted + {key}), DirectoryOf(key);
    assert after.Keys == before.Keys + {d};
    forall other <- after ensures other != d ==> after[other] == before[other] {
      assert after[other] == LeavesIn(wanted + {key}, other);
    }
  }

  lemma OneMoreWanted(wanted: set<string>, key: string)
    ensures Directories(wanted + {key}) == Directories(wanted) + {DirectoryOf(key)}
    ensures forall d :: LeavesIn(wanted + {key}, d)
                     == LeavesIn(wanted, d) + if d == DirectoryOf(key) then {LeafOf(key)} else {}
    ensures DirectoryOf(key) !in Directories(wanted) ==> LeavesIn(wanted, DirectoryOf(key)) == {}
  {
    hide Parent, FileName;
  }

  lemma OneMoreDirectory(wanted: set<string>, swept: set<string>, directory: string)
    requires forall key <- wanted :: IsKey(key)
    ensures KeysIn(wanted, swept) + ChildrenOf(directory, LeavesIn(wanted, directory))
         == KeysIn(wanted, swept + {directory})
    ensures directory in Directories(wanted) ==>
              IsDirectory(directory) && forall leaf <- LeavesIn(wanted, directory) :: IsSegment(leaf)
  {
    hide Parent, FileName, IsKey, Child, IsDirectory;
    forall key <- wanted
      ensures Child(DirectoryOf(key), LeafOf(key)) == key && IsDirectory(DirectoryOf(key)) && IsSegment(LeafOf(key))
    {
      JoinOfParts(key);
    }
  }

  method Harvest(v: Volume, paths: seq<WantedPath>) returns (out: RecoveredNames)
    requires Sorts(v)
    requires forall p <- paths | p.located :: IsKey(p.key)
    ensures fresh(out)
    ensures var wanted := WantedKeys(paths);
      && out.Filed(v, KeysIn(wanted, SweptFor(v, wanted)))
      && out.stats.wanted == |wanted| && out.stats.directories == |Directories(wanted)|
      && out.stats.resolved == |SweptFor(v, wanted)| <= MAX_DIRECTORIES
      && out.stats.resolved + out.stats.declined <= out.stats.directories
      && (out.stats.declined > 0 ==> out.stats.resolved == MAX_DIRECTORIES)
  {
    hide Parent, FileName, IsKey, Child, Recovered, DisputedAmong, IsDirectory, IsSegment, OfFate, KeysIn,
      RecoveredNames.Filed, LeavesIn, WantedKeys, Directories, SweptOf, Sorts;
    out := new RecoveredNames();
    var wanted, byDirectory := GroupWanted(paths);
    out.stats := out.stats.(wanted := |wanted|, directories := |byDirectory|);
    assert byDirectory.Keys == Directories(wanted);
    var directories := v.sorted(byDirectory.Keys);
    assert |directories| == |byDirectory| by { SortedSize(v, byDirectory.Keys); }
    NothingRecovered(v, wanted, out);
    out.SweepAll(v, byDirectory, directories, wanted);
  }

  lemma SortedSize(v: Volume, s: set<string>)
    requires Sorts(v)
    ensures |v.sorted(s)| == |s|
  {
  }

  lemma NextDirectory(v: Volume, s: set<string>, i: nat)
    requires Sorts(v) && i < |v.sorted(s)|
    ensures v.sorted(s)[i] in s && v.sorted(s)[i] !in SweptOf(v, v.sorted(s)[..i])
  {
    hide SweptOf;
  }

  lemma NothingSwept(v: Volume)
    ensures SweptOf(v, []) == {}
  {
  }

  lemma OneMoreSwept(v: Volume, directories: seq<string>, last: string)
    ensures var earlier := SweptOf(v, directories);
      SweptOf(v, directories + [last])
      == if |earlier| < MAX_DIRECTORIES && v.resolve(last).Some? then earlier + {last} else earlier
  {
    assert (directories + [last])[..|directories|] == directories;
  }

  lemma SweptElsewhere(wanted: set<string>, swept: set<string>, directory: string)
    requires directory !in swept
    ensures forall key <- KeysIn(wanted, swept) :: DirectoryOf(key) != directory
  {
  }

  lemma NothingRecovered(v: Volume, wanted: set<string>, names: RecoveredNames)
    requires names.byPath == map[] && names.stats == Stats(names.stats.wanted, names.stats.directories, 0, 0, 0, 0, 0, 0, 0, 0)
    ensures names.Filed(v, KeysIn(wanted, {}))
  {
    assert KeysIn(wanted, {}) == {} && Recovered(v, {}) == map[] && DisputedAmong(v, {}) == {};
    assert forall fates :: OfFate(map[], fates) == {};
  }

  lemma {:induction false} ClaimsAre(v: Volume, entries: seq<Entry>, leaf: string)
    ensures forall e :: e in Claims(v, entries, leaf) <==> e in entries && !e.dosName && v.lower(e.name) == leaf
  {
    if entries != [] {
      ClaimsAre(v, entries[..|entries| - 1], leaf);
      assert entries == entries[..|entries| - 1] + [entries[|entries| - 1]];
    }
  }

  /** A path is recovered only if it was wanted, and under the one record its directory's long-name entries give it. */
  lemma EveryNameHasOneRecord(v: Volume, wanted: set<string>, key: string)
    requires key in Recovered(v, KeysIn(wanted, SweptFor(v, wanted)))
    ensures key in wanted && v.resolve(DirectoryOf(key)).Some?
    ensures var found := Recovered(v, KeysIn(wanted, SweptFor(v, wanted)))[key];
      var entries := v.deletedEntries(v.resolve(DirectoryOf(key)).value).entries;
      && found.fate == v.fate(found.record, found.sequence)
      && (exists e <- entries :: !e.dosName && v.lower(e.name) == LeafOf(key))
      && forall e <- entries | !e.dosName && v.lower(e.name) == LeafOf(key) ::
           e.record == found.record && e.sequence == found.sequence
  {
    hide Parent, FileName;
    var entries := v.deletedEntries(v.resolve(DirectoryOf(key)).value).entries;
    var claims := ClaimsOn(v, key);
    ClaimsAre(v, entries, LeafOf(key));
    assert Identities([]) == {};
    assert claims[0] in claims;
    forall e <- claims ensures (e.record, e.sequence) == (claims[0].record, claims[0].sequence) {
      OneMember(Identities(claims), (e.record, e.sequence), (claims[0].record, claims[0].sequence));
    }
  }

  /** The entries that claim a leaf, in the order of the directory. */
  lemma {:induction false} FirstClaimIsFirst(v: Volume, entries: seq<Entry>, leaf: string)
    requires Claims(v, entries, leaf) != []
    ensures exists i | 0 <= i < |entries| ::
              && entries[i] == Claims(v, entries, leaf)[0]
              && !entries[i].dosName && v.lower(entries[i].name) == leaf
              && forall j | 0 <= j < i :: entries[j].dosName || v.lower(entries[j].name) != leaf
  {
    var earlier, last := entries[..|entries| - 1], entries[|entries| - 1];
    assert entries == earlier + [last];
    if Claims(v, earlier, leaf) != [] {
      FirstClaimIsFirst(v, earlier, leaf);
      assert forall i | 0 <= i < |earlier| :: entries[i] == earlier[i];
      assert Claims(v, entries, leaf)[0] == Claims(v, earlier, leaf)[0];
    } else {
      ClaimsAre(v, earlier, leaf);
      forall j | 0 <= j < |earlier| ensures entries[j].dosName || v.lower(entries[j].name) != leaf {
        assert entries[j] == earlier[j] && earlier[j] in earlier;
      }
      assert entries[|entries| - 1] == Claims(v, entries, leaf)[0];
    }
  }

  /** Exactly which paths are recovered, and what each is told: a located path that was wanted, whose directory was swept,
      and whose leaf the directory's long-name entries claim for one record only; with the fields of the first such entry
      and the fate of its record. */
  lemma RecoveredExactly(v: Volume, paths: seq<WantedPath>, key: string)
    requires forall p <- paths | p.located :: IsKey(p.key)
    ensures var wanted := WantedKeys(paths);
      var recovered := Recovered(v, KeysIn(wanted, SweptFor(v, wanted)));
      && (key in recovered <==>
            && (exists p <- paths :: p.located && p.key == key)
            && DirectoryOf(key) in SweptFor(v, wanted) && v.resolve(DirectoryOf(key)).Some?
            && OneRecordClaims(v, v.deletedEntries(v.resolve(DirectoryOf(key)).value).entries, LeafOf(key)))
      && (key in recovered ==>
            var entries := v.deletedEntries(v.resolve(DirectoryOf(key)).value).entries;
            exists i | 0 <= i < |entries| ::
              var e := entries[i];
              && !e.dosName && v.lower(e.name) == LeafOf(key)
              && (forall j | 0 <= j < i :: entries[j].dosName || v.lower(entries[j].name) != LeafOf(key))
              && recovered[key] == Found(e.record, e.sequence, e.realSize, e.foundIn, v.fate(e.record, e.sequence)))
  {
    hide Parent, FileName, IsKey, SweptOf, DirectoryOf, LeafOf;
    var wanted := WantedKeys(paths);
    if key in wanted && DirectoryOf(key) in SweptFor(v, wanted) {
      var entries := v.deletedEntries(v.resolve(DirectoryOf(key)).value).entries;
      OneIdentity(v, entries, LeafOf(key));
      if Undisputed(v, key) {
        assert Identities([]) == {};
        FirstClaimIsFirst(v, entries, LeafOf(key));
      }
    }
  }

  /** Some long-name entry claims the leaf, and any two that do name the same record at the same sequence. */
  ghost predicate OneRecordClaims(v: Volume, entries: seq<Entry>, leaf: string) {
    && (exists e <- entries :: !e.dosName && v.lower(e.name) == leaf)
    && forall d <- entries, e <- entries | !d.dosName && v.lower(d.name) == leaf && !e.dosName && v.lower(e.name) == leaf ::
         d.record == e.record && d.sequence == e.sequence
  }

  lemma OneIdentity(v: Volume, entries: seq<Entry>, leaf: string)
    ensures |Identities(Claims(v, entries, leaf))| == 1 <==> OneRecordClaims(v, entries, leaf)
  {
    hide Claims;
    ClaimsAre(v, entries, leaf);
    var claims := Claims(v, entries, leaf);
    var identities := Identities(claims);
    if |identities| == 1 {
      assert claims != [] by { assert Identities([]) == {}; }
      assert claims[0] in claims;
      forall d <- entries, e <- entries | !d.dosName && v.lower(d.name) == leaf && !e.dosName && v.lower(e.name) == leaf
        ensures d.record == e.record && d.sequence == e.sequence
      {
        OneMember(identities, (d.record, d.sequence), (e.record, e.sequence));
      }
    }
    if OneRecordClaims(v, entries, leaf) {
      var e :| e in entries && !e.dosName && v.lower(e.name) == leaf;
      assert e in claims;
      assert identities == {(e.record, e.sequence)};
    }
  }

  /** Of the wanted directories, taken in their sorted order, the first that resolve are swept, up to the cap. */
  lemma {:induction false} SweptAre(v: Volume, directories: seq<string>)
    ensures forall d <- directories | v.resolve(d).Some? ::
              d in SweptOf(v, directories) || |SweptOf(v, directories)| == MAX_DIRECTORIES
  {
    if directories != [] {
      SweptAre(v, directories[..|directories| - 1]);
      assert directories == directories[..|directories| - 1] + [directories[|directories| - 1]];
    }
  }

  lemma OneMember<T>(s: set<T>, x: T, y: T)
    requires |s| == 1 && x in s && y in s
    ensures x == y
  {
    var rest := s - {x};
    assert |rest| == 0;
    assert y !in rest;
  }
}
