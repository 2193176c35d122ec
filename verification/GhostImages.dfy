/** Record images left in the log, sorted by name into those that describe one file and those that disagree. */
module GhostImages {
  import opened Prelude
  import opened Clusters

  const MAX_GHOST_NAMES := 50_000

  datatype Ghost = Ghost(
    name: string,
    parent: u64,
    realSize: u64,
    created: u64,
    modified: u64,
    runs: seq<Run>,
    resident: Option<seq<byte>>,
    foundAt: nat)
  {
    predicate HasBytes() { resident.Some? || runs != [] }

    /** What two images must share to describe one file; the times and the place they were found may differ. */
    function Identity(): (u64, u64, seq<Run>, Option<seq<byte>>) { (parent, realSize, runs, resident) }
  }

  predicate SameFile(a: Ghost, b: Ghost) {
    a.parent == b.parent && a.realSize == b.realSize && a.runs == b.runs && a.resident == b.resident
  }

  // ----- the grouping -----

  /** The images kept under each name after all of `ghosts`: one for every different file. */
  ghost function Grouped(lower: string -> string, ghosts: seq<Ghost>): map<string, seq<Ghost>> {
    if ghosts == [] then map[]
    else
      var earlier := Grouped(lower, ghosts[..|ghosts| - 1]);
      var image := ghosts[|ghosts| - 1];
      if image.HasBytes() then Group(earlier, lower(image.name), image) else earlier
  }

  function Group(groups: map<string, seq<Ghost>>, name: string, image: Ghost): map<string, seq<Ghost>> {
    if name !in groups && |groups| >= MAX_GHOST_NAMES then groups
    else
      var known := if name in groups then groups[name] else [];
      if exists seen <- known :: SameFile(seen, image) then groups[name := known]
      else groups[name := known + [image]]
  }

  ghost function CountWithBytes(ghosts: seq<Ghost>): nat {
    if ghosts == [] then 0
    else CountWithBytes(ghosts[..|ghosts| - 1]) + if ghosts[|ghosts| - 1].HasBytes() then 1 else 0
  }

  ghost function Singles(groups: map<string, seq<Ghost>>): map<string, Ghost> {
    map name <- groups | |groups[name]| == 1 :: groups[name][0]
  }

  ghost function Disagreements(groups: map<string, seq<Ghost>>): map<string, nat> {
    map name <- groups | |groups[name]| > 1 :: |groups[name]|
  }

  class GhostIndex {
    var unique: map<string, Ghost>
    var ambiguous: map<string, nat>
    var images: nat

    constructor ()
      ensures unique == map[] && ambiguous == map[] && images == 0
    {
      unique, ambiguous, images := map[], map[], 0;
    }

    method Absorb(lower: string -> string, ghosts: seq<Ghost>)
      modifies this
      ensures unique == old(unique) + Singles(Grouped(lower, ghosts))
      ensures ambiguous == old(ambiguous) + Disagreements(Grouped(lower, ghosts))
      ensures images == old(images) + CountWithBytes(ghosts)
    {
      hide Grouped, Singles, Disagreements, CountWithBytes;
      var distinct: map<string, seq<Ghost>> := map[];
      NothingGrouped(lower);
      assert ghosts[..0] == [];
      for i := 0 to |ghosts|
        invariant distinct == Grouped(lower, ghosts[..i])
        invariant images == old(images) + CountWithBytes(ghosts[..i])
        invariant unique == old(unique) && ambiguous == old(ambiguous)
      {
        assert ghosts[..i + 1] == ghosts[..i] + [ghosts[i]];
        var image := ghosts[i];
        OneMoreGrouped(lower, ghosts[..i], image);
        if !image.HasBytes() { continue; }
        images := images + 1;
        var name := lower(image.name);
        if name !in distinct && |distinct| >= MAX_GHOST_NAMES { continue; }
        var known := if name in distinct then distinct[name] else [];
        if !exists seen <- known :: SameFile(seen, image) {
          known := known + [image];
        }
        distinct := distinct[name := known];
      }
      assert ghosts[..|ghosts|] == ghosts;
      File(distinct);
    }

    /** The second loop visits the groups in no particular order. */
    method File(distinct: map<string, seq<Ghost>>)
      modifies this`unique, this`ambiguous
      ensures unique == old(unique) + Singles(distinct)
      ensures ambiguous == old(ambiguous) + Disagreements(distinct)
    {
      hide Singles, Disagreements;
      NothingFiled();
      var left := distinct.Keys;
      ghost var filed: map<string, seq<Ghost>> := map[];
      while left != {}
        invariant left <= distinct.Keys && filed == distinct - left
        invariant unique == old(unique) + Singles(filed)
        invariant ambiguous == old(ambiguous) + Disagreements(filed)
        decreases left
      {
        var name :| name in left;
        var found := distinct[name];
        FiledOne(filed, name, found);
        if |found| == 1 {
          unique := unique[name := found[0]];
        } else if |found| > 1 {
          ambiguous := ambiguous[name := |found|];
        }
        LeftByOne(distinct, left, name);
        left := left - {name};
        filed := filed[name := found];
      }
      assert distinct - {} == distinct;
    }
  }

  lemma NothingGrouped(lower: string -> string)
    ensures Grouped(lower, []) == map[] && CountWithBytes([]) == 0 && Names(lower, []) == {}
  {
  }

  lemma OneMoreGrouped(lower: string -> string, ghosts: seq<Ghost>, image: Ghost)
    ensures Grouped(lower, ghosts + [image])
         == if image.HasBytes() then Group(Grouped(lower, ghosts), lower(image.name), image) else Grouped(lower, ghosts)
    ensures CountWithBytes(ghosts + [image]) == CountWithBytes(ghosts) + if image.HasBytes() then 1 else 0
  {
    assert (ghosts + [image])[..|ghosts|] == ghosts;
  }

  lemma NothingFiled()
    ensures Singles(map[]) == map[] && Disagreements(map[]) == map[]
  {
  }

  lemma LeftByOne<K, V>(all: map<K, V>, left: set<K>, key: K)
    requires key in left && left <= all.Keys
    ensures all - (left - {key}) == (all - left)[key := all[key]] && key !in all - left
  {
  }

  lemma FiledOne(filed: map<string, seq<Ghost>>, name: string, found: seq<Ghost>)
    requires name !in filed
    ensures Singles(filed[name := found])
         == if |found| == 1 then Singles(filed)[name := found[0]] else Singles(filed)
    ensures Disagreements(filed[name := found])
         == if |found| > 1 then Disagreements(filed)[name := |found|] else Disagreements(filed)
  {
  }

  // ----- what the grouping says -----

  ghost predicate Named(lower: string -> string, name: string, image: Ghost) {
    image.HasBytes() && lower(image.name) == name
  }

  type Identity = (u64, u64, seq<Run>, Option<seq<byte>>)

  /** The different files that byte-carrying images under a name describe. */
  ghost function Files(lower: string -> string, ghosts: seq<Ghost>, name: string): set<Identity> {
    set image <- ghosts | Named(lower, name, image) :: image.Identity()
  }

  /** Every name a byte-carrying image bears. */
  ghost function Names(lower: string -> string, ghosts: seq<Ghost>): set<string> {
    set image <- ghosts | image.HasBytes() :: lower(image.name)
  }

  ghost function IdentitiesOf(known: seq<Ghost>): set<Identity> { set image <- known :: image.Identity() }

  /** One image for every different file under the name, and none twice. */
  ghost predicate Represents(known: seq<Ghost>, files: set<Identity>) {
    && IdentitiesOf(known) == files
    && forall i, j | 0 <= i < j < |known| :: !SameFile(known[i], known[j])
  }

  lemma SameIdentity(a: Ghost, b: Ghost)
    ensures SameFile(a, b) <==> a.Identity() == b.Identity()
  {
  }

  lemma OneMoreIdentity(known: seq<Ghost>, image: Ghost)
    ensures IdentitiesOf(known + [image]) == IdentitiesOf(known) + {image.Identity()}
  {
  }

  lemma NoRepeats(known: seq<Ghost>, image: Ghost)
    requires forall seen <- known :: !SameFile(seen, image)
    ensures image.Identity() !in IdentitiesOf(known)
  {
    forall seen <- known ensures seen.Identity() != image.Identity() {
      SameIdentity(seen, image);
    }
  }

  lemma {:induction false} RepresentativesCount(known: seq<Ghost>)
    requires forall i, j | 0 <= i < j < |known| :: !SameFile(known[i], known[j])
    ensures |IdentitiesOf(known)| == |known|
  {
    hide SameFile, IdentitiesOf;
    if known == [] {
      assert IdentitiesOf([]) == {} by { NoIdentities(); }
    } else {
      var last, earlier := known[|known| - 1], known[..|known| - 1];
      RepresentativesCount(earlier);
      assert known == earlier + [last];
      OneMoreIdentity(earlier, last);
      NoRepeats(earlier, last);
    }
  }

  lemma NoIdentities()
    ensures IdentitiesOf([]) == {}
  {
  }

  lemma FilesStep(lower: string -> string, earlier: seq<Ghost>, last: Ghost, name: string)
    ensures Files(lower, earlier + [last], name)
         == Files(lower, earlier, name) + if Named(lower, name, last) then {last.Identity()} else {}
    ensures Names(lower, earlier + [last])
         == Names(lower, earlier) + if last.HasBytes() then {lower(last.name)} else {}
  {
  }

  lemma GroupKeys(groups: map<string, seq<Ghost>>, name: string, image: Ghost)
    ensures Group(groups, name, image).Keys
         == groups.Keys + if name in groups || |groups| < MAX_GHOST_NAMES then {name} else {}
    ensures forall other <- groups | other != name :: Group(groups, name, image)[other] == groups[other]
  {
    hide SameFile;
  }

  /** Names are only left out once the cap is reached. */
  lemma {:induction false} GroupedNames(lower: string -> string, ghosts: seq<Ghost>)
    ensures Capped(Grouped(lower, ghosts).Keys, Names(lower, ghosts))
  {
    hide Grouped, Group, Names, Files;
    if ghosts == [] {
      NothingGrouped(lower);
    } else {
      var last, earlier := ghosts[|ghosts| - 1], ghosts[..|ghosts| - 1];
      assert ghosts == earlier + [last];
      GroupedNames(lower, earlier);
      FilesStep(lower, earlier, last, "");
      OneMoreGrouped(lower, earlier, last);
      if last.HasBytes() {
        var before := Grouped(lower, earlier);
        GroupKeys(before, lower(last.name), last);
        OneMoreName(before.Keys, Names(lower, earlier), lower(last.name));
      }
    }
  }

  ghost predicate Capped(kept: set<string>, names: set<string>) {
    kept <= names && |kept| <= MAX_GHOST_NAMES && (|kept| < MAX_GHOST_NAMES ==> kept == names)
  }

  lemma OneMoreName(kept: set<string>, names: set<string>, name: string)
    requires Capped(kept, names)
    ensures Capped(kept + if name in kept || |kept| < MAX_GHOST_NAMES then {name} else {}, names + {name})
  {
    if name in kept {
      assert kept + {name} == kept;
    }
  }

  /** Each name kept holds one image for every different file under it. */
  lemma {:induction false} GroupedRepresents(lower: string -> string, ghosts: seq<Ghost>, name: string)
    requires name in Grouped(lower, ghosts)
    ensures Grouped(lower, ghosts)[name] != []
    ensures Represents(Grouped(lower, ghosts)[name], Files(lower, ghosts, name))
  {
    hide Files, Grouped, Represents, Group, Names, SameFile;
    if ghosts == [] {
      NothingGrouped(lower);
    } else {
      var last, earlier := ghosts[|ghosts| - 1], ghosts[..|ghosts| - 1];
      assert ghosts == earlier + [last];
      OneMoreGrouped(lower, earlier, last);
      if name in Grouped(lower, earlier) {
        GroupedRepresents(lower, earlier, name);
        KnownNameRepresents(lower, earlier, last, name, Grouped(lower, earlier));
      } else {
        GroupedNames(lower, earlier);
        NewNameRepresents(lower, earlier, last, name, Grouped(lower, earlier));
      }
    }
  }

  lemma KnownNameRepresents(lower: string -> string, earlier: seq<Ghost>, last: Ghost, name: string,
                            groups: map<string, seq<Ghost>>)
    requires name in groups && groups[name] != [] && Represents(groups[name], Files(lower, earlier, name))
    ensures var after := if last.HasBytes() then Group(groups, lower(last.name), last) else groups;
      name in after && after[name] != [] && Represents(after[name], Files(lower, earlier + [last], name))
  {
    hide Files, Represents, Group, Names, SameFile;
    FilesStep(lower, earlier, last, name);
    if last.HasBytes() {
      GroupKeys(groups, lower(last.name), last);
      if Named(lower, name, last) {
        GroupAt(groups, name, last);
        Represented(groups[name], Files(lower, earlier, name), last);
      }
    }
  }

  lemma NewNameRepresents(lower: string -> string, earlier: seq<Ghost>, last: Ghost, name: string,
                          groups: map<string, seq<Ghost>>)
    requires Capped(groups.Keys, Names(lower, earlier))
    requires name !in groups && last.HasBytes() && name in Group(groups, lower(last.name), last)
    ensures var after := Group(groups, lower(last.name), last);
      after[name] != [] && Represents(after[name], Files(lower, earlier + [last], name))
  {
    hide Files, Represents, Group, Names, SameFile;
    NewGroup(groups, lower(last.name), last, name);
    FilesStep(lower, earlier, last, name);
    NoFiles(lower, earlier, name);
    OneFile(last);
  }

  lemma GroupAt(groups: map<string, seq<Ghost>>, name: string, image: Ghost)
    requires name in groups
    ensures name in Group(groups, name, image)
    ensures Group(groups, name, image)[name]
         == if exists seen <- groups[name] :: SameFile(seen, image) then groups[name] else groups[name] + [image]
  {
    hide SameFile;
  }

  lemma NewGroup(groups: map<string, seq<Ghost>>, name: string, image: Ghost, other: string)
    requires other !in groups && other in Group(groups, name, image)
    ensures other == name && Group(groups, name, image)[name] == [image] && |groups| < MAX_GHOST_NAMES
  {
    hide SameFile;
  }

  lemma OneFile(image: Ghost)
    ensures Represents([image], {image.Identity()})
  {
  }

  lemma Represented(known: seq<Ghost>, files: set<Identity>, image: Ghost)
    requires Represents(known, files)
    ensures if exists seen <- known :: SameFile(seen, image)
            then Represents(known, files + {image.Identity()})
            else Represents(known + [image], files + {image.Identity()})
  {
    if seen :| seen in known && SameFile(seen, image) {
      assert image.Identity() in IdentitiesOf(known);
    } else {
      assert IdentitiesOf(known + [image]) == IdentitiesOf(known) + {image.Identity()};
    }
  }

  lemma NoFiles(lower: string -> string, ghosts: seq<Ghost>, name: string)
    requires name !in Names(lower, ghosts)
    ensures Files(lower, ghosts, name) == {}
  {
  }

  /** An image with neither resident bytes nor runs changes nothing; any other counts. */
  lemma OnlyImagesWithBytesCount(lower: string -> string, ghosts: seq<Ghost>, image: Ghost)
    ensures image.resident == None && image.runs == [] ==>
              && Grouped(lower, ghosts + [image]) == Grouped(lower, ghosts)
              && CountWithBytes(ghosts + [image]) == CountWithBytes(ghosts)
    ensures image.resident.Some? || image.runs != [] ==>
              && lower(image.name) in Names(lower, ghosts + [image])
              && CountWithBytes(ghosts + [image]) == CountWithBytes(ghosts) + 1
  {
    hide Group, Grouped, CountWithBytes;
    OneMoreGrouped(lower, ghosts, image);
    FilesStep(lower, ghosts, image, lower(image.name));
  }

  /** Two images are of the same file exactly when they differ in name, times and place at most. */
  lemma SameFileIs(a: Ghost, b: Ghost)
    ensures SameFile(a, b) <==>
              a == b.(name := a.name, created := a.created, modified := a.modified, foundAt := a.foundAt)
  {
  }

  /** Within the cap, an index that was empty places a name exactly when one file bears it, and otherwise says how many
      do; a name no byte-carrying image bears is in neither table, and no name is in both. */
  lemma VerdictsAreExact(lower: string -> string, ghosts: seq<Ghost>, name: string)
    requires |Names(lower, ghosts)| <= MAX_GHOST_NAMES
    ensures var groups, files := Grouped(lower, ghosts), Files(lower, ghosts, name);
      && (name in Singles(groups) <==> |files| == 1)
      && (name in Singles(groups) ==>
            Named(lower, name, Singles(groups)[name]) && files == {Singles(groups)[name].Identity()})
      && (name in Disagreements(groups) <==> |files| > 1)
      && (name in Disagreements(groups) ==> Disagreements(groups)[name] == |files|)
  {
    hide Grouped, SameFile;
    var groups, files := Grouped(lower, ghosts), Files(lower, ghosts, name);
    GroupedNames(lower, ghosts);
    AllNamesKept(groups.Keys, Names(lower, ghosts));
    if name in groups {
      GroupedRepresents(lower, ghosts, name);
      RepresentativesCount(groups[name]);
      if |groups[name]| == 1 {
        OfTheOneFile(lower, ghosts, name, groups[name][0]);
      }
    } else {
      NoFiles(lower, ghosts, name);
    }
  }

  lemma AllNamesKept(kept: set<string>, all: set<string>)
    requires Capped(kept, all) && |all| <= MAX_GHOST_NAMES
    ensures kept == all
  {
    assert all == kept + (all - kept);
  }

  lemma {:induction false} OfTheOneFile(lower: string -> string, ghosts: seq<Ghost>, name: string, image: Ghost)
    requires name in Grouped(lower, ghosts) && image in Grouped(lower, ghosts)[name]
    ensures image in ghosts && Named(lower, name, image)
  {
    var last, earlier := ghosts[|ghosts| - 1], ghosts[..|ghosts| - 1];
    assert ghosts == earlier + [last];
    if name in Grouped(lower, earlier) && image in Grouped(lower, earlier)[name] {
      OfTheOneFile(lower, earlier, name, image);
    }
  }

  /** The verdicts do not depend on the order the images were found in. */
  lemma OrderDoesNotMatter(lower: string -> string, ghosts: seq<Ghost>, others: seq<Ghost>, name: string)
    requires multiset(ghosts) == multiset(others)
    requires |Names(lower, ghosts)| <= MAX_GHOST_NAMES
    ensures name in Singles(Grouped(lower, ghosts)) <==> name in Singles(Grouped(lower, others))
    ensures name in Singles(Grouped(lower, ghosts)) ==>
              SameFile(Singles(Grouped(lower, ghosts))[name], Singles(Grouped(lower, others))[name])
    ensures Disagreements(Grouped(lower, ghosts)) == Disagreements(Grouped(lower, others))
  {
    hide Grouped, Singles, Disagreements;
    forall image ensures image in ghosts <==> image in others {
      assert image in ghosts <==> image in multiset(ghosts);
      assert image in others <==> image in multiset(others);
    }
    assert Names(lower, ghosts) == Names(lower, others);
    forall n ensures Files(lower, ghosts, n) == Files(lower, others, n) {
    }
    VerdictsAreExact(lower, ghosts, name);
    VerdictsAreExact(lower, others, name);
    forall n
      ensures n in Disagreements(Grouped(lower, ghosts)) <==> n in Disagreements(Grouped(lower, others))
      ensures n in Disagreements(Grouped(lower, ghosts)) ==>
                Disagreements(Grouped(lower, ghosts))[n] == Disagreements(Grouped(lower, others))[n]
    {
      VerdictsAreExact(lower, ghosts, n);
      VerdictsAreExact(lower, others, n);
    }
    if name in Singles(Grouped(lower, ghosts)) {
      assert Singles(Grouped(lower, ghosts))[name].Identity() in Files(lower, ghosts, name);
      assert Singles(Grouped(lower, others))[name].Identity() in Files(lower, others, name);
    }
  }
}
