/** Spelling a directory's path from its chain of parents, with a cache that remembers every record already spelled. */
module DirectoryPaths {
  import opened Prelude
  import PathKeys

  const ROOT_RECORD := 5
  const NAMESPACE_DOS := 2
  const ATTR_FILE_NAME := 0x30
  const MAX_PATH_DEPTH := 64
  const WORST_NAMESPACE := 255

  datatype FileName = FileName(name: string, namespace: nat, parent: nat, parentSequence: u16)

  /** An attribute; `fileName` is missing when its content is not resident or does not parse. */
  datatype Attribute = Attribute(typeCode: nat, fileName: Option<FileName>)

  /** A record as it was read; `attributes` is missing when they do not parse. */
  datatype Record = Record(
    isFile: bool,
    isBase: bool,
    inUse: bool,
    isDirectory: bool,
    sequence: u16,
    attributes: Option<seq<Attribute>>)

  /** Reading a record; `None` when it cannot be read. */
  type Volume = nat -> Option<Record>

  // ----- the name a record goes by -----

  predicate IsName(a: Attribute) { a.typeCode == ATTR_FILE_NAME && a.fileName.Some? }

  /** A name that outranks any DOS name. */
  predicate Ranked(f: FileName) { f.namespace != NAMESPACE_DOS && f.namespace < WORST_NAMESPACE }

  ghost function FirstName(attributes: seq<Attribute>): Option<FileName> {
    if attributes == [] then None
    else
      var earlier, last := FirstName(attributes[..|attributes| - 1]), attributes[|attributes| - 1];
      if earlier.Some? || !IsName(last) then earlier else last.fileName
  }

  /** The first of the ranked names with the least namespace. */
  ghost function BestRanked(attributes: seq<Attribute>): (r: Option<FileName>)
    ensures r.Some? ==> Ranked(r.value)
  {
    if attributes == [] then None
    else
      var earlier, last := BestRanked(attributes[..|attributes| - 1]), attributes[|attributes| - 1];
      if IsName(last) && Ranked(last.fileName.value)
         && (earlier == None || last.fileName.value.namespace < earlier.value.namespace)
      then last.fileName
      else earlier
  }

  ghost function Preferred(attributes: seq<Attribute>): Option<FileName> {
    if BestRanked(attributes).Some? then BestRanked(attributes) else FirstName(attributes)
  }

  method ChooseName(attributes: seq<Attribute>) returns (chosen: Option<FileName>)
    ensures chosen == Preferred(attributes)
  {
    chosen := None;
    var bestNamespace := WORST_NAMESPACE;
    for i := 0 to |attributes|
      invariant chosen == Preferred(attributes[..i])
      invariant bestNamespace == match BestRanked(attributes[..i]) case Some(f) => f.namespace case None => WORST_NAMESPACE
    {
      assert attributes[..i + 1][..i] == attributes[..i];
      var attribute := attributes[i];
      if attribute.typeCode != ATTR_FILE_NAME { continue; }
      if attribute.fileName == None { continue; }
      var f := attribute.fileName.value;
      if f.namespace != NAMESPACE_DOS && f.namespace < bestNamespace {
        bestNamespace := f.namespace;
        chosen := Some(f);
      } else if chosen == None {
        chosen := Some(f);
      }
    }
    assert attributes[..|attributes|] == attributes;
  }

  lemma {:induction false} BestRankedIsBest(attributes: seq<Attribute>)
    ensures forall a <- attributes | IsName(a) && Ranked(a.fileName.value) ::
              BestRanked(attributes).Some? && BestRanked(attributes).value.namespace <= a.fileName.value.namespace
  {
    if attributes != [] {
      BestRankedIsBest(attributes[..|attributes| - 1]);
      assert attributes == attributes[..|attributes| - 1] + [attributes[|attributes| - 1]];
    }
  }

  /** A record gets a name exactly when it has one, and no ranked name it has is better than the one chosen. */
  lemma {:induction false} PreferredIsBest(attributes: seq<Attribute>)
    ensures Preferred(attributes).Some? <==> exists a <- attributes :: IsName(a)
    ensures Preferred(attributes).Some? ==>
              exists a <- attributes :: IsName(a) && a.fileName == Preferred(attributes)
    ensures forall a <- attributes | IsName(a) && Ranked(a.fileName.value) ::
              Ranked(Preferred(attributes).value)
              && Preferred(attributes).value.namespace <= a.fileName.value.namespace
  {
    BestRankedIsBest(attributes);
    if attributes != [] {
      PreferredIsBest(attributes[..|attributes| - 1]);
      assert attributes == attributes[..|attributes| - 1] + [attributes[|attributes| - 1]];
    }
  }

  /** A resident, readable $FILE_NAME (0x30) in any namespace but the DOS one (2) and the invalid one (255). */
  ghost predicate IsLongName(a: Attribute) {
    a.typeCode == 0x30 && a.fileName.Some? && a.fileName.value.namespace != 2 && a.fileName.value.namespace < 255
  }

  lemma {:induction false} BestRankedExactly(attributes: seq<Attribute>)
    ensures match BestRanked(attributes)
      case None => forall a <- attributes :: !IsLongName(a)
      case Some(f) => exists i | 0 <= i < |attributes| ::
        && IsLongName(attributes[i]) && attributes[i].fileName == Some(f)
        && (forall a <- attributes | IsLongName(a) :: f.namespace <= a.fileName.value.namespace)
        && forall j | 0 <= j < i :: IsLongName(attributes[j]) ==> f.namespace < attributes[j].fileName.value.namespace
  {
    if attributes != [] {
      var earlier, last := attributes[..|attributes| - 1], attributes[|attributes| - 1];
      BestRankedExactly(earlier);
      assert attributes == earlier + [last];
      assert forall i | 0 <= i < |earlier| :: attributes[i] == earlier[i];
      assert IsLongName(last) <==> IsName(last) && Ranked(last.fileName.value);
      if BestRanked(attributes) != BestRanked(earlier) {
        assert attributes[|attributes| - 1].fileName == BestRanked(attributes);
      }
    }
  }

  /** A record goes by its long name of the least namespace, the first if several tie; failing one, by the first name it
      has; and by none only if it has none. */
  lemma PreferredExactly(attributes: seq<Attribute>)
    ensures match Preferred(attributes)
      case None => forall a <- attributes :: !(a.typeCode == 0x30 && a.fileName.Some?)
      case Some(f) => exists i | 0 <= i < |attributes| ::
        && attributes[i].typeCode == 0x30 && attributes[i].fileName == Some(f)
        && if exists a <- attributes :: IsLongName(a)
           then && IsLongName(attributes[i])
                && (forall a <- attributes | IsLongName(a) :: f.namespace <= a.fileName.value.namespace)
                && forall j | 0 <= j < i ::
                     IsLongName(attributes[j]) ==> f.namespace < attributes[j].fileName.value.namespace
           else forall j | 0 <= j < i :: !(attributes[j].typeCode == 0x30 && attributes[j].fileName.Some?)
  {
    hide BestRanked, FirstName;
    BestRankedExactly(attributes);
    FirstNameExactly(attributes);
  }

  lemma {:induction false} FirstNameExactly(attributes: seq<Attribute>)
    ensures match FirstName(attributes)
      case None => forall a <- attributes :: !(a.typeCode == 0x30 && a.fileName.Some?)
      case Some(f) => exists i | 0 <= i < |attributes| ::
        && attributes[i].typeCode == 0x30 && attributes[i].fileName == Some(f)
        && forall j | 0 <= j < i :: !(attributes[j].typeCode == 0x30 && attributes[j].fileName.Some?)
  {
    if attributes != [] {
      var earlier, last := attributes[..|attributes| - 1], attributes[|attributes| - 1];
      FirstNameExactly(earlier);
      assert attributes == earlier + [last];
      assert forall i | 0 <= i < |earlier| :: attributes[i] == earlier[i];
      if FirstName(earlier) == None && FirstName(attributes).Some? {
        assert attributes[|attributes| - 1].fileName == FirstName(attributes);
      }
    }
  }

  // ----- the path, without a cache -----

  /** A record that can be a directory on a path under the reference given; sequence zero refers to any. */
  predicate Refers(v: Volume, record: nat, expectedSequence: u16) {
    match v(record)
    case None => false
    case Some(r) =>
      && r.isFile && r.isBase
      && (expectedSequence != 0 ==> r.sequence == expectedSequence)
      && r.inUse && r.isDirectory
  }

  /** The name and parent such a record gives. */
  ghost function NameOf(v: Volume, record: nat): Option<FileName> {
    match v(record)
    case None => None
    case Some(r) => if r.attributes == None then None else Preferred(r.attributes.value)
  }

  datatype Answer = Path(path: string) | Refused | TooDeep

  /** The path spelled by the chain of parents, following at most `fuel` references. */
  ghost function Spell(v: Volume, record: nat, sequence: u16, fuel: nat): Answer
    decreases fuel
  {
    if record == ROOT_RECORD then Path("\\")
    else if fuel == 0 then TooDeep
    else if !Refers(v, record, sequence) then Refused
    else
      match NameOf(v, record)
      case None => Refused
      case Some(f) =>
        match Spell(v, f.parent, f.parentSequence, fuel - 1)
        case Path(p) => Path(PathKeys.Child(p, f.name))
        case other => other
  }

  /** More fuel never changes an answer already reached. */
  lemma {:induction false} FuelIsEnough(v: Volume, record: nat, sequence: u16, fuel: nat, more: nat)
    requires fuel <= more && Spell(v, record, sequence, fuel) != TooDeep
    ensures Spell(v, record, sequence, more) == Spell(v, record, sequence, fuel)
    decreases fuel
  {
    if record != ROOT_RECORD && Refers(v, record, sequence) && NameOf(v, record).Some? {
      var f := NameOf(v, record).value;
      FuelIsEnough(v, f.parent, f.parentSequence, fuel - 1, more - 1);
    }
  }

  /** The answer of the whole chain, however long; a chain has at most one. */
  ghost predicate Answers(v: Volume, record: nat, sequence: u16, answer: Answer) {
    answer != TooDeep && exists fuel: nat :: Spell(v, record, sequence, fuel) == answer
  }

  lemma OneAnswer(v: Volume, record: nat, sequence: u16, a: Answer, b: Answer)
    requires Answers(v, record, sequence, a) && Answers(v, record, sequence, b)
    ensures a == b
  {
    var m: nat :| Spell(v, record, sequence, m) == a;
    var n: nat :| Spell(v, record, sequence, n) == b;
    if m <= n {
      FuelIsEnough(v, record, sequence, m, n);
    } else {
      FuelIsEnough(v, record, sequence, n, m);
    }
  }

  lemma AnswerOfParent(v: Volume, record: nat, sequence: u16, f: FileName, parent: Answer)
    requires record != ROOT_RECORD && Refers(v, record, sequence) && NameOf(v, record) == Some(f)
    requires Answers(v, f.parent, f.parentSequence, parent)
    ensures Answers(v, record, sequence, if parent.Path? then Path(PathKeys.Child(parent.path, f.name)) else Refused)
  {
    var fuel: nat :| Spell(v, f.parent, f.parentSequence, fuel) == parent;
    assert Spell(v, record, sequence, fuel + 1) == if parent.Path? then Path(PathKeys.Child(parent.path, f.name)) else Refused;
  }

  /** Only the reference's own sequence depends on the reference. */
  lemma SequenceOnlyGuards(v: Volume, record: nat, sequence: u16, answer: Answer)
    requires record != ROOT_RECORD && Refers(v, record, sequence) && Answers(v, record, 0, answer)
    ensures Answers(v, record, sequence, answer)
  {
    var fuel: nat :| Spell(v, record, 0, fuel) == answer;
    assert Spell(v, record, sequence, fuel) == answer;
  }

  /** What a spelled path means: the record is a file record, a base record, in use, a directory, and of the sequence
      referred to unless that is zero; and its path is its parent's, a backslash (the root's own being one already), and
      the name it goes by. Only the root is spelled by itself. */
  lemma PathsAreSpelled(v: Volume, record: nat, sequence: u16, path: string)
    ensures Answers(v, 5, sequence, Path(path)) <==> path == "\\"
    ensures record != 5 ==>
              (Answers(v, record, sequence, Path(path))
               <==> v(record).Some? && v(record).value.attributes.Some?
                    && var r := v(record).value;
                       && r.isFile && r.isBase && r.inUse && r.isDirectory && (sequence == 0 || r.sequence == sequence)
                       && Preferred(r.attributes.value).Some?
                       && var f := Preferred(r.attributes.value).value;
                          exists parent :: Answers(v, f.parent, f.parentSequence, Path(parent))
                                           && path == (if parent == "\\" then "" else parent) + "\\" + f.name)
  {
    hide Preferred, Spell;
    TheRootIsABackslash(v, sequence, path);
    if record != 5 {
      if Answers(v, record, sequence, Path(path)) {
        ASpelledPathHasAParent(v, record, sequence, path);
      }
      if Refers(v, record, sequence) && NameOf(v, record).Some? {
        var f := NameOf(v, record).value;
        forall parent | Answers(v, f.parent, f.parentSequence, Path(parent))
          ensures Answers(v, record, sequence, Path((if parent == "\\" then "" else parent) + "\\" + f.name))
        {
          AnswerOfParent(v, record, sequence, f, Path(parent));
          ChildIs(parent, f.name);
        }
      }
    }
  }

  lemma TheRootIsABackslash(v: Volume, sequence: u16, path: string)
    ensures Answers(v, ROOT_RECORD, sequence, Path(path)) <==> path == "\\"
  {
    hide Refers, NameOf;
    assert Spell(v, ROOT_RECORD, sequence, 0) == Path("\\");
  }

  lemma ChildIs(parent: string, name: string)
    ensures PathKeys.Child(parent, name) == (if parent == "\\" then "" else parent) + "\\" + name
  {
    assert "" + "\\" + name == "\\" + name;
  }

  lemma ASpelledPathHasAParent(v: Volume, record: nat, sequence: u16, path: string)
    requires record != ROOT_RECORD && Answers(v, record, sequence, Path(path))
    ensures Refers(v, record, sequence) && NameOf(v, record).Some?
    ensures var f := NameOf(v, record).value;
      exists parent :: Answers(v, f.parent, f.parentSequence, Path(parent))
                       && path == (if parent == "\\" then "" else parent) + "\\" + f.name
  {
    hide Refers, NameOf;
    var fuel: nat :| Spell(v, record, sequence, fuel) == Path(path);
    var f := NameOf(v, record).value;
    var parent := Spell(v, f.parent, f.parentSequence, fuel - 1);
    assert Answers(v, f.parent, f.parentSequence, parent);
    ChildIs(parent.path, f.name);
  }

  // ----- the path, with a cache -----

  type Cache = map<nat, Option<string>>

  /** What the resolver gives and remembers; `depth` counts the references followed so far. */
  ghost function Resolve(v: Volume, cache: Cache, record: nat, sequence: u16, depth: nat): (Option<string>, Cache)
    decreases MAX_PATH_DEPTH - depth
  {
    if record == ROOT_RECORD then (Some("\\"), cache)
    else if depth >= MAX_PATH_DEPTH || !Refers(v, record, sequence) then (None, cache)
    else if record in cache then (cache[record], cache)
    else
      match NameOf(v, record)
      case None => (None, cache)
      case Some(f) =>
        var (parent, after) := Resolve(v, cache, f.parent, f.parentSequence, depth + 1);
        var resolved := if parent.Some? then Some(PathKeys.Child(parent.value, f.name)) else None;
        (resolved, after[record := resolved])
  }

  class Resolver {
    var cache: Cache

    constructor ()
      ensures cache == map[]
    {
      cache := map[];
    }

    method ResolveDirectory(v: Volume, record: nat, expectedSequence: u16, depth: nat) returns (r: Option<string>)
      modifies this
      ensures (r, cache) == Resolve(v, old(cache), record, expectedSequence, depth)
      decreases MAX_PATH_DEPTH - depth
    {
      if record == ROOT_RECORD { return Some("\\"); }
      if depth >= MAX_PATH_DEPTH { return None; }
      var read := v(record);
      if read == None { return None; }
      var header := read.value;
      if !header.isFile || !header.isBase { return None; }
      if expectedSequence != 0 && header.sequence != expectedSequence { return None; }
      if !header.inUse || !header.isDirectory { return None; }
      if record in cache { return cache[record]; }
      if header.attributes == None { return None; }
      var chosen := ChooseName(header.attributes.value);
      if chosen == None { return None; }
      var f := chosen.value;
      var parent := ResolveDirectory(v, f.parent, f.parentSequence, depth + 1);
      r := if parent.Some? then Some(PathKeys.Child(parent.value, f.name)) else None;
      cache := cache[record := r];
    }
  }

  // ----- the cache tells no lies -----

  /** Every path remembered is the path the record's chain spells. */
  ghost predicate Sound(v: Volume, cache: Cache) {
    forall record <- cache | cache[record].Some? ::
      record != ROOT_RECORD && Answers(v, record, 0, Path(cache[record].value))
  }

  /** No path is spelled by the chain, whether it is refused somewhere or never ends. */
  ghost predicate Pathless(v: Volume, record: nat, sequence: u16) {
    forall path :: !Answers(v, record, sequence, Path(path))
  }

  /** ... and every record remembered to have no path has none. */
  ghost predicate Exact(v: Volume, cache: Cache) {
    Sound(v, cache) && forall record <- cache | cache[record] == None :: record != ROOT_RECORD && Pathless(v, record, 0)
  }

  /** A path given or remembered is always the one the uncached chain of live references spells, stale references
      refused even when their record is cached. */
  lemma {:induction false} PathsAreTrue(v: Volume, cache: Cache, record: nat, sequence: u16, depth: nat)
    requires Sound(v, cache)
    ensures var (r, after) := Resolve(v, cache, record, sequence, depth);
      && Sound(v, after)
      && (r.Some? ==> Answers(v, record, sequence, Path(r.value)))
      && (record != ROOT_RECORD && !Refers(v, record, sequence) ==> r == None && after == cache)
    decreases MAX_PATH_DEPTH - depth
  {
    hide Refers, NameOf;
    if record == ROOT_RECORD {
      assert Spell(v, record, sequence, 0) == Path("\\");
    } else if depth < MAX_PATH_DEPTH && Refers(v, record, sequence) {
      if record in cache {
        if cache[record].Some? {
          SequenceOnlyGuards(v, record, sequence, Path(cache[record].value));
        }
      } else if NameOf(v, record).Some? {
        var f := NameOf(v, record).value;
        PathsAreTrue(v, cache, f.parent, f.parentSequence, depth + 1);
        var (parent, after) := Resolve(v, cache, f.parent, f.parentSequence, depth + 1);
        if parent.Some? {
          AnswerOfParent(v, record, sequence, f, Path(parent.value));
          AnyReference(v, record, sequence);
          AnswerOfParent(v, record, 0, f, Path(parent.value));
        }
      }
    }
  }

  lemma AnyReference(v: Volume, record: nat, sequence: u16)
    requires Refers(v, record, sequence)
    ensures Refers(v, record, 0)
  {
  }

  /** The chain is followed to the depth limit without meeting the root, a refusal or a record already remembered. */
  ghost predicate Outruns(v: Volume, cache: Cache, record: nat, sequence: u16, depth: nat)
    decreases MAX_PATH_DEPTH - depth
  {
    && record != ROOT_RECORD
    && (depth >= MAX_PATH_DEPTH
        || (Refers(v, record, sequence) && record !in cache && NameOf(v, record).Some?
            && Outruns(v, cache, NameOf(v, record).value.parent, NameOf(v, record).value.parentSequence, depth + 1)))
  }

  /** With nothing remembered, that is what the uncached chain does within the references left. */
  lemma {:induction false} OutrunsIsTooDeep(v: Volume, record: nat, sequence: u16, depth: nat)
    requires depth <= MAX_PATH_DEPTH
    ensures Outruns(v, map[], record, sequence, depth) <==> Spell(v, record, sequence, MAX_PATH_DEPTH - depth) == TooDeep
    decreases MAX_PATH_DEPTH - depth
  {
    hide Refers, NameOf;
    if record != ROOT_RECORD && depth < MAX_PATH_DEPTH && NameOf(v, record).Some? {
      var f := NameOf(v, record).value;
      OutrunsIsTooDeep(v, f.parent, f.parentSequence, depth + 1);
    }
  }

  lemma RefusedIsPathless(v: Volume, record: nat, sequence: u16)
    requires record != ROOT_RECORD && (!Refers(v, record, sequence) || NameOf(v, record) == None)
    ensures Pathless(v, record, sequence)
  {
    hide Refers, NameOf;
  }

  /** Neither the sequence of the reference nor the step to the parent changes whether there is a path. */
  lemma PathlessLikeItsParent(v: Volume, record: nat, sequence: u16, f: FileName)
    requires record != ROOT_RECORD && Refers(v, record, sequence) && NameOf(v, record) == Some(f)
    ensures Pathless(v, record, sequence) <==> Pathless(v, f.parent, f.parentSequence)
    ensures Pathless(v, record, 0) <==> Pathless(v, f.parent, f.parentSequence)
  {
    hide Refers, NameOf;
    AnyReference(v, record, sequence);
    if path :| Answers(v, f.parent, f.parentSequence, Path(path)) {
      AnswerOfParent(v, record, sequence, f, Path(path));
      AnswerOfParent(v, record, 0, f, Path(path));
    }
    if path :| Answers(v, record, sequence, Path(path)) {
      ParentOfAnswer(v, record, sequence, f, path);
    }
    if path :| Answers(v, record, 0, Path(path)) {
      ParentOfAnswer(v, record, 0, f, path);
    }
  }

  lemma ParentOfAnswer(v: Volume, record: nat, sequence: u16, f: FileName, path: string)
    requires record != ROOT_RECORD && Refers(v, record, sequence) && NameOf(v, record) == Some(f)
    requires Answers(v, record, sequence, Path(path))
    ensures !Pathless(v, f.parent, f.parentSequence)
  {
    hide Refers, NameOf;
    var fuel: nat :| Spell(v, record, sequence, fuel) == Path(path);
    var parent := Spell(v, f.parent, f.parentSequence, fuel - 1);
    assert Answers(v, f.parent, f.parentSequence, parent);
  }

  lemma SequenceKeepsPathless(v: Volume, record: nat, sequence: u16)
    requires record != ROOT_RECORD && Refers(v, record, sequence)
    ensures Pathless(v, record, sequence) <==> Pathless(v, record, 0)
  {
    hide Refers, NameOf;
    if NameOf(v, record).Some? {
      PathlessLikeItsParent(v, record, sequence, NameOf(v, record).value);
    } else {
      RefusedIsPathless(v, record, sequence);
      AnyReference(v, record, sequence);
      RefusedIsPathless(v, record, 0);
    }
  }

  /** Before the root or a refusal, the chain meets the depth limit or a record remembered to have no path. */
  ghost predicate Stopped(v: Volume, cache: Cache, record: nat, sequence: u16, depth: nat)
    decreases MAX_PATH_DEPTH - depth
  {
    && record != ROOT_RECORD
    && (depth >= MAX_PATH_DEPTH
        || (Refers(v, record, sequence)
            && if record in cache then cache[record] == None
               else NameOf(v, record).Some?
                    && Stopped(v, cache, NameOf(v, record).value.parent, NameOf(v, record).value.parentSequence, depth + 1)))
  }

  /** The records a resolution adds to the cache. */
  ghost function Walked(v: Volume, cache: Cache, record: nat, sequence: u16, depth: nat): set<nat>
    decreases MAX_PATH_DEPTH - depth
  {
    if record == ROOT_RECORD || depth >= MAX_PATH_DEPTH || !Refers(v, record, sequence) || record in cache
       || NameOf(v, record) == None
    then {}
    else {record} + Walked(v, cache, NameOf(v, record).value.parent, NameOf(v, record).value.parentSequence, depth + 1)
  }

  /** The chain leads to the root, and yet the resolution does not get there. */
  ghost predicate Lost(v: Volume, cache: Cache, record: nat, sequence: u16, depth: nat) {
    Stopped(v, cache, record, sequence, depth) && !Pathless(v, record, sequence)
  }

  /** The records remembered to have no path although they have one. */
  ghost function Falsehoods(v: Volume, cache: Cache): set<nat> {
    set record <- cache | cache[record] == None && !Pathless(v, record, 0)
  }

  lemma ExactHasNoFalsehoods(v: Volume, cache: Cache)
    requires Sound(v, cache)
    ensures Exact(v, cache) <==> Falsehoods(v, cache) == {}
  {
    RootHasAPath(v, 0);
    hide Pathless, Answers;
    if Falsehoods(v, cache) == {} {
      forall record <- cache | cache[record] == None ensures record != ROOT_RECORD && Pathless(v, record, 0) {
        assert record !in Falsehoods(v, cache);
      }
    }
  }

  lemma RootHasAPath(v: Volume, sequence: u16)
    ensures !Pathless(v, ROOT_RECORD, sequence)
  {
    assert Spell(v, ROOT_RECORD, sequence, 0) == Path("\\");
  }

  lemma {:induction false} WalkedIsRemembered(v: Volume, cache: Cache, record: nat, sequence: u16, depth: nat)
    ensures var after := Resolve(v, cache, record, sequence, depth).1;
      && after.Keys == cache.Keys + Walked(v, cache, record, sequence, depth)
      && forall x <- cache :: after[x] == cache[x]
    decreases MAX_PATH_DEPTH - depth
  {
    hide Refers, NameOf;
    if record != ROOT_RECORD && depth < MAX_PATH_DEPTH && record !in cache && NameOf(v, record).Some? {
      var f := NameOf(v, record).value;
      WalkedIsRemembered(v, cache, f.parent, f.parentSequence, depth + 1);
    }
  }

  /** Whatever false entries a cache holds already: a path is refused exactly when there is none or it is lost, and a
      resolution that loses one makes a false entry of every record it adds, while any other makes none. */
  lemma {:induction false} LostExactly(v: Volume, cache: Cache, record: nat, sequence: u16, depth: nat)
    requires Sound(v, cache) && depth <= MAX_PATH_DEPTH
    ensures var (r, after) := Resolve(v, cache, record, sequence, depth);
      && (r == None <==> Pathless(v, record, sequence) || Lost(v, cache, record, sequence, depth))
      && Falsehoods(v, after)
         == Falsehoods(v, cache)
            + if Lost(v, cache, record, sequence, depth) then Walked(v, cache, record, sequence, depth) else {}
    decreases MAX_PATH_DEPTH - depth
  {
    hide Refers, NameOf, Pathless, Answers, Spell, Falsehoods;
    PathsAreTrue(v, cache, record, sequence, depth);
    var (r, after) := Resolve(v, cache, record, sequence, depth);
    if r.Some? { HasAPath(v, record, sequence, r.value); }
    if record == ROOT_RECORD || depth == MAX_PATH_DEPTH || record in cache {
      if record != ROOT_RECORD && !Refers(v, record, sequence) { RefusedIsPathless(v, record, sequence); }
    } else if !Refers(v, record, sequence) || NameOf(v, record) == None {
      RefusedIsPathless(v, record, sequence);
    } else {
      LostWithItsParent(v, cache, record, sequence, depth);
    }
  }

  lemma {:induction false} LostWithItsParent(v: Volume, cache: Cache, record: nat, sequence: u16, depth: nat)
    requires Sound(v, cache) && depth < MAX_PATH_DEPTH
    requires record != ROOT_RECORD && Refers(v, record, sequence) && record !in cache && NameOf(v, record).Some?
    ensures var (r, after) := Resolve(v, cache, record, sequence, depth);
      && (r == None <==> Pathless(v, record, sequence) || Lost(v, cache, record, sequence, depth))
      && Falsehoods(v, after)
         == Falsehoods(v, cache)
            + if Lost(v, cache, record, sequence, depth) then Walked(v, cache, record, sequence, depth) else {}
    decreases MAX_PATH_DEPTH - depth, 0
  {
    hide Refers, NameOf, Pathless, Answers, Spell;
    var f := NameOf(v, record).value;
    var (parent, before) := Resolve(v, cache, f.parent, f.parentSequence, depth + 1);
    LostExactly(v, cache, f.parent, f.parentSequence, depth + 1);
    PathlessLikeItsParent(v, record, sequence, f);
    var resolved := if parent.Some? then Some(PathKeys.Child(parent.value, f.name)) else None;
    assert record !in Falsehoods(v, cache);
    assert Falsehoods(v, before[record := resolved])
        == Falsehoods(v, before) - {record} + if resolved == None && !Pathless(v, record, 0) then {record} else {};
  }

  /** From a cache without false entries only the limit can stop a chain that leads to the root, and the first record
      it added is then false. */
  lemma {:induction false} StoppedByTheLimit(v: Volume, cache: Cache, record: nat, sequence: u16, depth: nat)
    requires Exact(v, cache) && !Pathless(v, record, sequence)
    ensures Stopped(v, cache, record, sequence, depth) <==> Outruns(v, cache, record, sequence, depth)
    ensures Outruns(v, cache, record, sequence, depth) && depth < MAX_PATH_DEPTH ==>
              record in Walked(v, cache, record, sequence, depth)
    decreases MAX_PATH_DEPTH - depth
  {
    hide Refers, NameOf, Pathless, Answers, Spell;
    if record != ROOT_RECORD && depth < MAX_PATH_DEPTH && Refers(v, record, sequence) {
      if record in cache {
        SequenceKeepsPathless(v, record, sequence);
      } else if NameOf(v, record).Some? {
        var f := NameOf(v, record).value;
        PathlessLikeItsParent(v, record, sequence, f);
        StoppedByTheLimit(v, cache, f.parent, f.parentSequence, depth + 1);
      }
    }
  }

  /** A cache without false entries stays so exactly when no chain that leads to the root outruns the limit. */
  lemma ExactStaysExact(v: Volume, cache: Cache, record: nat, sequence: u16, depth: nat)
    requires Exact(v, cache) && depth <= MAX_PATH_DEPTH
    ensures var (r, after) := Resolve(v, cache, record, sequence, depth);
      var lost := Outruns(v, cache, record, sequence, depth) && !Pathless(v, record, sequence);
      && (r == None <==> Pathless(v, record, sequence) || lost)
      && (Exact(v, after) <==> !lost || depth == MAX_PATH_DEPTH)
  {
    hide Refers, NameOf, Pathless, Answers, Spell, Falsehoods, Outruns, Stopped, Exact, Sound;
    assert Sound(v, cache) by { ExactIsSound(v, cache); }
    PathsAreTrue(v, cache, record, sequence, depth);
    LostExactly(v, cache, record, sequence, depth);
    ExactHasNoFalsehoods(v, cache);
    ExactHasNoFalsehoods(v, Resolve(v, cache, record, sequence, depth).1);
    if !Pathless(v, record, sequence) { StoppedByTheLimit(v, cache, record, sequence, depth); }
  }

  lemma ExactIsSound(v: Volume, cache: Cache)
    requires Exact(v, cache)
    ensures Sound(v, cache)
  {
    hide Sound;
  }

  /** A false entry spreads: whatever lies under a record remembered falsely is refused too, at any depth, and is
      remembered falsely in turn. */
  lemma FalsehoodSpreads(v: Volume, cache: Cache, record: nat, sequence: u16, f: FileName)
    requires Sound(v, cache) && record != ROOT_RECORD && record !in cache
    requires Refers(v, record, sequence) && NameOf(v, record) == Some(f)
    requires f.parent in Falsehoods(v, cache) && f.parent != ROOT_RECORD && Refers(v, f.parent, f.parentSequence)
    ensures var (r, after) := Resolve(v, cache, record, sequence, 0);
      r == None && Falsehoods(v, after) == Falsehoods(v, cache) + {record} && record !in Falsehoods(v, cache)
  {
    hide Refers, NameOf, Pathless;
    SequenceKeepsPathless(v, f.parent, f.parentSequence);
    PathlessLikeItsParent(v, record, sequence, f);
    LostExactly(v, cache, record, sequence, 0);
  }

  /** What a first resolution remembers is true exactly when its chain keeps within the limit or leads nowhere. */
  lemma FirstCacheIsExact(v: Volume, record: nat, sequence: u16)
    ensures Exact(v, Resolve(v, map[], record, sequence, 0).1)
            <==> Spell(v, record, sequence, MAX_PATH_DEPTH) != TooDeep || Pathless(v, record, sequence)
  {
    hide Resolve, Spell, Outruns, Pathless, Exact;
    NothingRememberedIsExact(v);
    ExactStaysExact(v, map[], record, sequence, 0);
    OutrunsIsTooDeep(v, record, sequence, 0);
  }

  lemma HasAPath(v: Volume, record: nat, sequence: u16, path: string)
    requires Answers(v, record, sequence, Path(path))
    ensures !Pathless(v, record, sequence)
  {
    hide Answers;
  }

  /** As long as no chain outruns the depth limit the cache stays exact and changes no answer. */
  lemma CacheChangesNothing(v: Volume, cache: Cache, record: nat, sequence: u16, depth: nat)
    requires depth <= MAX_PATH_DEPTH && Exact(v, cache)
    requires Spell(v, record, sequence, MAX_PATH_DEPTH - depth) != TooDeep
    ensures var (r, after) := Resolve(v, cache, record, sequence, depth);
      && Exact(v, after)
      && Spell(v, record, sequence, MAX_PATH_DEPTH - depth) == (if r.Some? then Path(r.value) else Refused)
  {
    hide Refers, NameOf;
    var answer := Spell(v, record, sequence, MAX_PATH_DEPTH - depth);
    var (r, after) := Resolve(v, cache, record, sequence, depth);
    assert Answers(v, record, sequence, answer);
    OutrunsIsTooDeep(v, record, sequence, depth);
    RememberingShortens(v, cache, record, sequence, depth);
    ExactStaysExact(v, cache, record, sequence, depth);
    PathsAreTrue(v, cache, record, sequence, depth);
    if r.Some? {
      OneAnswer(v, record, sequence, Path(r.value), answer);
    }
  }

  lemma {:induction false} RememberingShortens(v: Volume, cache: Cache, record: nat, sequence: u16, depth: nat)
    ensures Outruns(v, cache, record, sequence, depth) ==> Outruns(v, map[], record, sequence, depth)
    decreases MAX_PATH_DEPTH - depth
  {
    hide Refers, NameOf;
    if depth < MAX_PATH_DEPTH && NameOf(v, record).Some? {
      var f := NameOf(v, record).value;
      RememberingShortens(v, cache, f.parent, f.parentSequence, depth + 1);
    }
  }

  /** A chain that outruns the limit is remembered as having no path, and so is every record on the way. */
  lemma {:induction false} LimitIsRemembered(v: Volume, record: nat, sequence: u16, depth: nat)
    requires depth < MAX_PATH_DEPTH && Spell(v, record, sequence, MAX_PATH_DEPTH - depth) == TooDeep
    ensures var (r, after) := Resolve(v, map[], record, sequence, depth);
      && r == None && record in after && after[record] == None
      && NameOf(v, record).Some?
      && (depth + 1 < MAX_PATH_DEPTH ==>
            NameOf(v, record).value.parent in after && after[NameOf(v, record).value.parent] == None)
    decreases MAX_PATH_DEPTH - depth
  {
    hide Refers, NameOf;
    var f := NameOf(v, record).value;
    if depth + 1 < MAX_PATH_DEPTH {
      LimitIsRemembered(v, f.parent, f.parentSequence, depth + 1);
    }
  }

  /** The cache is not exact in general: resolving a directory that lies too deep first makes its parent, which does
      not, resolve to nothing from then on. */
  lemma LimitPoisonsTheParent(v: Volume, record: nat, sequence: u16, f: FileName, path: string)
    requires Refers(v, record, sequence) && NameOf(v, record) == Some(f)
    requires Spell(v, record, sequence, MAX_PATH_DEPTH) == TooDeep
    requires Spell(v, f.parent, f.parentSequence, MAX_PATH_DEPTH) == Path(path)
    ensures Resolve(v, map[], f.parent, f.parentSequence, 0).0 == Some(path)
    ensures var after := Resolve(v, map[], record, sequence, 0).1;
      Resolve(v, after, f.parent, f.parentSequence, 0).0 == None
  {
    hide Spell, Resolve, Refers, NameOf;
    CacheChangesNothing(v, map[], f.parent, f.parentSequence, 0);
    LimitIsRemembered(v, record, sequence, 0);
    var after := Resolve(v, map[], record, sequence, 0).1;
    assert f.parent != ROOT_RECORD by { RootIsNeverTooDeep(v, record, sequence, f); }
    OneStep(v, after, f.parent, f.parentSequence);
  }

  lemma RootIsNeverTooDeep(v: Volume, record: nat, sequence: u16, f: FileName)
    requires Refers(v, record, sequence) && NameOf(v, record) == Some(f)
    requires Spell(v, record, sequence, MAX_PATH_DEPTH) == TooDeep
    ensures f.parent != ROOT_RECORD
  {
    hide Refers, NameOf;
  }

  lemma OneStep(v: Volume, cache: Cache, record: nat, sequence: u16)
    requires record != ROOT_RECORD && record in cache && cache[record] == None
    ensures Resolve(v, cache, record, sequence, 0).0 == None
  {
    hide Refers, NameOf;
  }

  const BRANCH := 1000

  /** A directory named "d" for every record past the root's, in the one before it, but for one far up the numbers that
      lies two steps below the root. */
  function Nested(): Volume {
    r => if r > ROOT_RECORD
      then Some(Record(true, true, true, true, 1, Some([Attribute(ATTR_FILE_NAME, Some(NestedName(r)))])))
      else None
  }

  function NestedName(r: nat): FileName
    requires r > ROOT_RECORD
  {
    FileName("d", 1, if r == BRANCH then ROOT_RECORD + 2 else r - 1, 0)
  }

  lemma NestedStep(r: nat)
    requires r > ROOT_RECORD
    ensures Refers(Nested(), r, 0) && NameOf(Nested(), r) == Some(NestedName(r))
  {
    var attribute := Attribute(ATTR_FILE_NAME, Some(NestedName(r)));
    assert [attribute][..0] == [];
    assert BestRanked([]) == None;
    assert BestRanked([attribute]) == Some(NestedName(r));
  }

  lemma {:induction false} NestedSpells(k: nat, fuel: nat)
    requires ROOT_RECORD + k < BRANCH
    ensures Spell(Nested(), ROOT_RECORD + k, 0, fuel).Path? <==> k <= fuel
    ensures Spell(Nested(), ROOT_RECORD + k, 0, fuel) == TooDeep <==> k > fuel
  {
    hide Refers, NameOf, Nested;
    if k > 0 && fuel > 0 {
      NestedSpells(k - 1, fuel - 1);
      NestedStep(ROOT_RECORD + k);
    }
  }

  lemma NestedHasPaths(k: nat)
    requires ROOT_RECORD + k < BRANCH
    ensures !Pathless(Nested(), ROOT_RECORD + k, 0)
  {
    hide Spell, Pathless, Nested;
    NestedSpells(k, k);
    HasAPath(Nested(), ROOT_RECORD + k, 0, Spell(Nested(), ROOT_RECORD + k, 0, k).path);
  }

  /** On a volume of nested directories the 64th is spelled, but not after the 65th has been asked for. */
  lemma ANestedDirectoryIsPoisoned()
    ensures var deep, parent := ROOT_RECORD + MAX_PATH_DEPTH + 1, ROOT_RECORD + MAX_PATH_DEPTH;
      var after := Resolve(Nested(), map[], deep, 0, 0).1;
      && Resolve(Nested(), map[], parent, 0, 0).0.Some?
      && Resolve(Nested(), after, parent, 0, 0).0 == None
      && !Exact(Nested(), after)
  {
    hide Resolve, Spell, Refers, NameOf, Nested, Outruns, Pathless, Exact;
    var k: nat := MAX_PATH_DEPTH;
    var deep, parent := ROOT_RECORD + k + 1, ROOT_RECORD + k;
    NestedStep(deep);
    NestedSpells(k + 1, k);
    NestedSpells(k, k);
    var path := Spell(Nested(), parent, 0, k).path;
    LimitPoisonsTheParent(Nested(), deep, 0, NestedName(deep), path);
    FirstCacheIsExact(Nested(), deep, 0);
    NestedHasPaths(k + 1);
  }

  lemma {:induction false} NestedIsWalked(k: nat, depth: nat, j: nat)
    requires ROOT_RECORD + k < BRANCH && j < k && depth + j < MAX_PATH_DEPTH
    ensures ROOT_RECORD + k - j in Walked(Nested(), map[], ROOT_RECORD + k, 0, depth)
    decreases j
  {
    hide Refers, NameOf, Nested;
    NestedStep(ROOT_RECORD + k);
    if j > 0 {
      NestedIsWalked(k - 1, depth + 1, j - 1);
    }
  }

  lemma {:induction false} NestedAvoidsTheBranch(k: nat, depth: nat)
    requires ROOT_RECORD + k < BRANCH
    ensures BRANCH !in Walked(Nested(), map[], ROOT_RECORD + k, 0, depth)
    decreases k
  {
    hide Refers, NameOf, Nested;
    if k > 0 {
      NestedStep(ROOT_RECORD + k);
      NestedAvoidsTheBranch(k - 1, depth + 1);
    }
  }

  lemma AfterTheDeepOne()
    ensures var after := Resolve(Nested(), map[], ROOT_RECORD + MAX_PATH_DEPTH + 1, 0, 0).1;
      Sound(Nested(), after) && ROOT_RECORD + 2 in Falsehoods(Nested(), after) && BRANCH !in after
  {
    hide Resolve, Spell, Refers, NameOf, Nested, Pathless, Falsehoods, Walked, Stopped, Outruns;
    var v, k: nat := Nested(), MAX_PATH_DEPTH + 1;
    NothingRememberedIsExact(v);
    PathsAreTrue(v, map[], ROOT_RECORD + k, 0, 0);
    NestedHasPaths(k);
    NestedSpells(k, k - 1);
    OutrunsIsTooDeep(v, ROOT_RECORD + k, 0, 0);
    StoppedByTheLimit(v, map[], ROOT_RECORD + k, 0, 0);
    LostExactly(v, map[], ROOT_RECORD + k, 0, 0);
    NestedIsWalked(k, 0, k - 2);
    NestedAvoidsTheBranch(k, 0);
    WalkedIsRemembered(v, map[], ROOT_RECORD + k, 0, 0);
  }

  /** After the 65th directory has been asked for, one that lies three steps below the root and was never on its chain
      is refused as well, although its own chain does not come near the limit. */
  lemma AShallowDirectoryIsPoisonedToo()
    ensures var after := Resolve(Nested(), map[], ROOT_RECORD + MAX_PATH_DEPTH + 1, 0, 0).1;
      && Spell(Nested(), BRANCH, 0, 3).Path?
      && !Outruns(Nested(), after, BRANCH, 0, 0)
      && Resolve(Nested(), after, BRANCH, 0, 0).0 == None
      && BRANCH in Falsehoods(Nested(), Resolve(Nested(), after, BRANCH, 0, 0).1)
  {
    hide Resolve, Refers, NameOf, Nested, Pathless;
    var after := Resolve(Nested(), map[], ROOT_RECORD + MAX_PATH_DEPTH + 1, 0, 0).1;
    AfterTheDeepOne();
    NestedStep(BRANCH);
    NestedStep(ROOT_RECORD + 2);
    NestedSpells(2, 2);
    FalsehoodSpreads(Nested(), after, BRANCH, 0, NestedName(BRANCH));
  }

  lemma NothingRememberedIsExact(v: Volume)
    ensures Exact(v, map[])
  {
  }
}
