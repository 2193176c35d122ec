/** COM class registrations: a user's registration that redirects a machine-wide class is a hijack, and one recovered
    from a freed registry cell is superseded when a live machine-wide one still names its module. */
module ComClasses {
  import opened Prelude
  import opened PathKeys
  import opened Observations

  const DELETED_MARK := "[deleted]"
  const SUPERSEDED_MARK := "[superseded] "

  datatype Zone = SystemDir | WindowsOther | WindowsTemp | WinSxs | ProgramFiles | ProgramData | UserZone | Elsewhere | Unlocated
  {
    predicate Conventional() { SystemDir? || WindowsOther? || WinSxs? || ProgramFiles? }

    predicate Ordinary() { SystemDir? || WindowsOther? || WinSxs? || ProgramFiles? || ProgramData? || Unlocated? }
  }

  /** A class and a text about it: the path it loads, or the name of its module. */
  type Claim = (string, string)

  // ----- what an observation registers -----

  function ClassOf(o: Observation): Option<string> {
    if o.source.Registry? then FirstClassId(Segments(o.source.key)) else None
  }

  predicate MachineWide(o: Observation) {
    o.source.Registry? && (LowerAscii(o.source.hive) == "software" || LowerAscii(o.source.hive) == "system")
  }

  predicate IsComServer(o: Observation) { o.kind.Persistent? && o.kind.what == ComServer }

  predicate IsHijack(o: Observation) { o.kind.Persistent? && o.kind.what == ComHijack }

  /** Recovered from a freed registry cell. */
  predicate IsDeleted(o: Observation) { o.kind.Persistent? && DELETED_MARK <= o.kind.rawValue }

  /** The class and path of a COM server registration. */
  function Target(o: Observation): Option<Claim> {
    if IsComServer(o) && ClassOf(o).Some? && o.path.Some? then Some((ClassOf(o).value, o.path.value.key)) else None
  }

  /** The class and module name of a COM server registration. */
  function Module(o: Observation): Option<Claim> {
    if Target(o).Some? && FileName(o.path.value.key).Some?
    then Some((Target(o).value.0, LowerAscii(FileName(o.path.value.key).value)))
    else None
  }

  function MachineTarget(o: Observation): Option<Claim> {
    if MachineWide(o) && !IsDeleted(o) then Target(o) else None
  }

  function UserTarget(o: Observation): Option<Claim> {
    if !MachineWide(o) && !IsDeleted(o) then Target(o) else None
  }

  function Survivor(zone: Path -> Zone, o: Observation): Option<Claim> {
    if MachineTarget(o).Some? && zone(o.path.value).Conventional() then Module(o) else None
  }

  function FreedModule(o: Observation): Option<Claim> {
    if IsDeleted(o) then Module(o) else None
  }

  function Claims(of: Observation -> Option<Claim>, items: seq<Observation>): set<Claim> {
    set o <- items | of(o).Some? :: of(o).value
  }

  predicate KnowsClass(claims: set<Claim>, classId: string) { exists claim <- claims :: claim.0 == classId }

  // ----- the two passes -----

  /** A live user registration of a class the machine registers, with a path the machine gives that class nowhere. */
  predicate Redirects(machine: set<Claim>, o: Observation) {
    UserTarget(o).Some? && KnowsClass(machine, UserTarget(o).value.0) && UserTarget(o).value !in machine
  }

  function Promoted(machine: set<Claim>, o: Observation): Observation {
    if Redirects(machine, o) then o.(kind := o.kind.(what := ComHijack)) else o
  }

  /** A freed registration whose class a live machine-wide one in a conventional place still gives a module so named. */
  predicate Superseded(survivors: set<Claim>, o: Observation) {
    FreedModule(o).Some? && FreedModule(o).value in survivors
  }

  function Relabelled(survivors: set<Claim>, o: Observation): Observation {
    if Superseded(survivors, o)
    then o.(kind := o.kind.(rawValue := SUPERSEDED_MARK + TrimStart(o.kind.rawValue[|DELETED_MARK|..])))
    else o
  }

  function Each(items: seq<Observation>, f: Observation -> Observation): (r: seq<Observation>)
    ensures |r| == |items|
    ensures forall i | 0 <= i < |items| :: r[i] == f(items[i])
  {
    seq(|items|, i requires 0 <= i < |items| => f(items[i]))
  }

  function Machine(items: seq<Observation>): set<Claim> { Claims(MachineTarget, items) }

  function Survivors(zone: Path -> Zone, items: seq<Observation>): set<Claim> {
    Claims(o => Survivor(zone, o), items)
  }

  function Promotion(items: seq<Observation>): (r: seq<Observation>)
    ensures |r| == |items|
    ensures forall i | 0 <= i < |items| :: r[i] == Promoted(Machine(items), items[i])
  {
    Each(items, o => Promoted(Machine(items), o))
  }

  function Relabelling(zone: Path -> Zone, items: seq<Observation>): (r: seq<Observation>)
    ensures |r| == |items|
    ensures forall i | 0 <= i < |items| :: r[i] == Relabelled(Survivors(zone, items), items[i])
  {
    Each(items, o => Relabelled(Survivors(zone, items), o))
  }

  /** In how many places two lists differ. */
  function Changes(before: seq<Observation>, after: seq<Observation>): nat
    requires |before| == |after|
  {
    if before == [] then 0
    else
      var n := |before| - 1;
      Changes(before[..n], after[..n]) + if before[n] != after[n] then 1 else 0
  }

  class ComPasses {
    var items: seq<Observation>

    constructor (items: seq<Observation>)
      ensures this.items == items
    {
      this.items := items;
    }

    method PromoteComHijacks() returns (promoted: nat)
      modifies this
      ensures items == Promotion(old(items))
      ensures promoted == Changes(old(items), items)
    {
      hide MachineTarget, UserTarget, Target, Claims, ClassOf, Changes, IsDeleted;
      var machine := GroupClaims(MachineTarget, items);
      GroupedClaims(machine, Machine(items));
      ghost var after := Promotion(items);
      NothingChanges(items);
      if machine == map[] {
        assert items == after;
        return 0;
      }
      promoted := 0;
      for i := 0 to |items|
        invariant |items| == |after|
        invariant forall j | 0 <= j < |items| :: items[j] == if j < i then after[j] else old(items)[j]
        invariant promoted == Changes(old(items)[..i], after[..i])
      {
        var o := items[i];
        OneMoreChange(old(items), after, i);
        var target := UserTarget(o);
        if target == None || target.value.0 !in machine || target.value.1 in machine[target.value.0] {
          assert !Redirects(Machine(old(items)), o);
          continue;
        }
        assert Redirects(Machine(old(items)), o);
        TargetsAreServers(o);
        items := items[i := o.(kind := o.kind.(what := ComHijack))];
        promoted := promoted + 1;
      }
      assert after[..|after|] == after && old(items)[..|after|] == old(items);
      assert items == after;
    }

    method RelabelSuperseded(zone: Path -> Zone) returns (relabelled: nat)
      modifies this
      ensures items == Relabelling(zone, old(items))
      ensures relabelled == Changes(old(items), items)
    {
      hide Survivor, FreedModule, Claims, ClassOf, Changes, IsDeleted, TrimStart;
      var survivors := GroupClaims(o => Survivor(zone, o), items);
      GroupedClaims(survivors, Survivors(zone, items));
      ghost var after := Relabelling(zone, items);
      NothingChanges(items);
      if survivors == map[] {
        assert items == after;
        return 0;
      }
      relabelled := 0;
      for i := 0 to |items|
        invariant |items| == |after|
        invariant forall j | 0 <= j < |items| :: items[j] == if j < i then after[j] else old(items)[j]
        invariant relabelled == Changes(old(items)[..i], after[..i])
      {
        var o := items[i];
        OneMoreChange(old(items), after, i);
        var loaded := FreedModule(o);
        if loaded == None || loaded.value.0 !in survivors || loaded.value.1 !in survivors[loaded.value.0] {
          assert !Superseded(Survivors(zone, old(items)), o);
          continue;
        }
        assert Superseded(Survivors(zone, old(items)), o);
        FreedModulesAreMarked(o);
        var rest := TrimStart(o.kind.rawValue[|DELETED_MARK|..]);
        items := items[i := o.(kind := o.kind.(rawValue := SUPERSEDED_MARK + rest))];
        relabelled := relabelled + 1;
      }
      assert after[..|after|] == after && old(items)[..|after|] == old(items);
      assert items == after;
    }
  }

  ghost predicate Groups(groups: map<string, set<string>>, claims: set<Claim>) {
    && (forall classId <- groups :: groups[classId] != {})
    && forall classId, text :: (classId, text) in claims <==> classId in groups && text in groups[classId]
  }

  method GroupClaims(of: Observation -> Option<Claim>, items: seq<Observation>) returns (groups: map<string, set<string>>)
    ensures Groups(groups, Claims(of, items))
  {
    groups := map[];
    for i := 0 to |items|
      invariant Groups(groups, Claims(of, items[..i]))
    {
      var claim := of(items[i]);
      assert items[..i + 1] == items[..i] + [items[i]];
      assert Claims(of, items[..i + 1]) == Claims(of, items[..i]) + if claim.Some? then {claim.value} else {};
      if claim == None { continue; }
      var (classId, text) := claim.value;
      groups := groups[classId := (if classId in groups then groups[classId] else {}) + {text}];
    }
    assert items[..|items|] == items;
  }

  lemma GroupedClaims(groups: map<string, set<string>>, claims: set<Claim>)
    requires Groups(groups, claims)
    ensures forall classId :: KnowsClass(claims, classId) <==> classId in groups
    ensures groups == map[] ==> claims == {}
  {
    forall classId ensures KnowsClass(claims, classId) <==> classId in groups {
      if classId in groups {
        var text :| text in groups[classId];
        assert (classId, text) in claims;
      }
    }
    if groups == map[] {
      forall claim ensures claim !in claims {
        assert claim == (claim.0, claim.1);
      }
    }
  }

  lemma NothingChanges(items: seq<Observation>)
    ensures Changes(items, items) == 0 && Changes([], []) == 0
  {
  }

  lemma OneMoreChange(before: seq<Observation>, after: seq<Observation>, i: nat)
    requires i < |before| == |after|
    ensures Changes(before[..i + 1], after[..i + 1])
         == Changes(before[..i], after[..i]) + if before[i] != after[i] then 1 else 0
  {
    assert before[..i + 1][..i] == before[..i] && after[..i + 1][..i] == after[..i];
  }

  lemma TargetsAreServers(o: Observation)
    requires UserTarget(o).Some?
    ensures o.kind.Persistent? && o.kind.what == ComServer
  {
  }

  /** Relabelling takes the mark away, so the observation changes. */
  lemma FreedModulesAreMarked(o: Observation)
    requires FreedModule(o).Some?
    ensures o.kind.Persistent? && DELETED_MARK <= o.kind.rawValue
    ensures forall rest :: !(DELETED_MARK <= SUPERSEDED_MARK + rest)
  {
    forall rest ensures !(DELETED_MARK <= SUPERSEDED_MARK + rest) {
      assert (SUPERSEDED_MARK + rest)[1] == 's';
    }
  }

  // ----- what the passes establish -----

  lemma PromotionKeeps(machine: set<Claim>, o: Observation)
    ensures MachineTarget(Promoted(machine, o)) == MachineTarget(o)
    ensures IsDeleted(Promoted(machine, o)) == IsDeleted(o)
    ensures FreedModule(Promoted(machine, o)) == FreedModule(o)
    ensures !Redirects(machine, Promoted(machine, o))
  {
  }

  lemma SameMachine(before: seq<Observation>, after: seq<Observation>)
    requires |before| == |after|
    requires forall i | 0 <= i < |before| :: MachineTarget(after[i]) == MachineTarget(before[i])
    ensures Machine(after) == Machine(before)
  {
    hide MachineTarget;
    forall o <- before ensures exists p <- after :: MachineTarget(p) == MachineTarget(o) {
      var i :| 0 <= i < |before| && before[i] == o;
      assert after[i] in after;
    }
  }

  /** Promoting a second time finds nothing. */
  lemma PromotionIsIdempotent(items: seq<Observation>)
    ensures Promotion(Promotion(items)) == Promotion(items)
  {
    hide MachineTarget, Redirects, Machine;
    var once := Promotion(items);
    forall i | 0 <= i < |items|
      ensures MachineTarget(once[i]) == MachineTarget(items[i]) && !Redirects(Machine(items), once[i])
    {
      PromotionKeeps(Machine(items), items[i]);
    }
    SameMachine(items, once);
    assert Promotion(once) == once;
  }

  lemma RelabellingKeeps(survivors: set<Claim>, o: Observation)
    ensures var after := Relabelled(survivors, o);
      && Target(after) == Target(o) && Module(after) == Module(o) && MachineWide(after) == MachineWide(o)
      && after.path == o.path && after.source == o.source
      && (IsDeleted(after) <==> IsDeleted(o) && !Superseded(survivors, o))
      && !Superseded(survivors, after)
  {
    hide Segments, FirstClassId, FileName, LowerAscii, TrimStart;
    if Superseded(survivors, o) {
      FreedModulesAreMarked(o);
    }
  }

  lemma SurvivorsAre(zone: Path -> Zone, items: seq<Observation>, claim: Claim)
    ensures claim in Survivors(zone, items) <==> exists o <- items :: Survivor(zone, o) == Some(claim)
  {
  }

  lemma MachineIs(items: seq<Observation>, claim: Claim)
    ensures claim in Machine(items) <==> exists o <- items :: MachineTarget(o) == Some(claim)
  {
  }

  /** A machine-wide registration that relabelling brings back to life names a module its class already has. */
  lemma RelabellingAddsNoSurvivor(zone: Path -> Zone, items: seq<Observation>)
    ensures Survivors(zone, Relabelling(zone, items)) == Survivors(zone, items)
  {
    hide Module, MachineWide, IsDeleted, Target, Superseded, Relabelled, Survivors;
    var before, after := Survivors(zone, items), Relabelling(zone, items);
    forall claim ensures claim in Survivors(zone, after) <==> claim in before {
      SurvivorsAre(zone, items, claim);
      SurvivorsAre(zone, after, claim);
      if o :| o in after && Survivor(zone, o) == Some(claim) {
        var i :| 0 <= i < |after| && after[i] == o;
        RevivedNamesAreKnown(zone, before, items[i], claim);
        if Survivor(zone, items[i]) == Some(claim) { assert items[i] in items; }
      }
      if o :| o in items && Survivor(zone, o) == Some(claim) {
        var i :| 0 <= i < |items| && items[i] == o;
        LiveOnesStay(zone, before, o);
        assert after[i] in after;
      }
    }
  }

  lemma RevivedNamesAreKnown(zone: Path -> Zone, survivors: set<Claim>, o: Observation, claim: Claim)
    requires Survivor(zone, Relabelled(survivors, o)) == Some(claim)
    ensures Survivor(zone, o) == Some(claim) || claim in survivors
  {
    RelabellingKeeps(survivors, o);
  }

  lemma LiveOnesStay(zone: Path -> Zone, survivors: set<Claim>, o: Observation)
    requires !IsDeleted(o)
    ensures Relabelled(survivors, o) == o
  {
  }

  /** Relabelling a second time finds nothing. */
  lemma RelabellingIsIdempotent(zone: Path -> Zone, items: seq<Observation>)
    ensures Relabelling(zone, Relabelling(zone, items)) == Relabelling(zone, items)
  {
    hide Survivors, Superseded;
    RelabellingAddsNoSurvivor(zone, items);
    var once := Relabelling(zone, items);
    forall i | 0 <= i < |items| ensures Relabelled(Survivors(zone, items), once[i]) == once[i] {
      RelabellingKeeps(Survivors(zone, items), items[i]);
    }
    assert Relabelling(zone, once) == once;
  }

  lemma PromotionAddsNoSurvivor(zone: Path -> Zone, items: seq<Observation>)
    ensures Survivors(zone, Promotion(items)) == Survivors(zone, items)
  {
    hide Module, MachineWide, IsDeleted, Target, Redirects, Promoted, Survivors, Survivor;
    var after := Promotion(items);
    forall i | 0 <= i < |items| ensures Survivor(zone, after[i]) == Survivor(zone, items[i]) {
      PromotionKeepsSurvivor(zone, Machine(items), items[i]);
    }
    forall claim ensures claim in Survivors(zone, after) <==> claim in Survivors(zone, items) {
      SurvivorsAre(zone, items, claim);
      SurvivorsAre(zone, after, claim);
      if o :| o in items && Survivor(zone, o) == Some(claim) {
        var i :| 0 <= i < |items| && items[i] == o;
        assert after[i] in after;
      }
    }
  }

  lemma PromotionKeepsSurvivor(zone: Path -> Zone, machine: set<Claim>, o: Observation)
    ensures Survivor(zone, Promoted(machine, o)) == Survivor(zone, o)
  {
  }

  /** What the run's two passes make of one observation, judged against the list as it was before either. */
  function Outcome(zone: Path -> Zone, items: seq<Observation>, o: Observation): Observation {
    if Redirects(Machine(items), o) then Promoted(Machine(items), o) else Relabelled(Survivors(zone, items), o)
  }

  /** In the run's order neither pass disturbs what the other decides. */
  lemma PassesDoNotInterfere(zone: Path -> Zone, items: seq<Observation>)
    ensures var final := Relabelling(zone, Promotion(items));
      |final| == |items| && forall i | 0 <= i < |items| :: final[i] == Outcome(zone, items, items[i])
  {
    hide Survivors, Machine;
    PromotionAddsNoSurvivor(zone, items);
    forall i | 0 <= i < |items|
      ensures Relabelled(Survivors(zone, items), Promotion(items)[i]) == Outcome(zone, items, items[i])
    {
      PromotionKeeps(Machine(items), items[i]);
    }
  }

  /** A registration recovered from a freed cell is never made a hijack: the hijacks at the end are those there were and
      the live user registrations that redirect a class, and nothing else. */
  lemma FreedCellsNeverBecomeHijacks(zone: Path -> Zone, items: seq<Observation>, i: nat)
    requires i < |items|
    ensures var final := Relabelling(zone, Promotion(items));
      && |final| == |items|
      && (IsHijack(final[i]) <==> IsHijack(items[i]) || Redirects(Machine(items), items[i]))
      && (IsDeleted(items[i]) ==> (IsHijack(final[i]) <==> IsHijack(items[i])))
  {
    hide Survivors, Machine;
    PassesDoNotInterfere(zone, items);
  }

  // ----- the other order -----

  /** What relabelling brings back to life for the whole machine. */
  function Revived(zone: Path -> Zone, items: seq<Observation>): set<Claim> {
    set o <- items | MachineWide(o) && Superseded(Survivors(zone, items), o) :: Target(o).value
  }

  /** Relabelling first would neither promote a freed registration nor hide a hijack. */
  predicate OrderIsFree(zone: Path -> Zone, items: seq<Observation>) {
    forall o <- items :: Unmoved(Machine(items), Survivors(zone, items), Revived(zone, items), o)
  }

  predicate Unmoved(machine: set<Claim>, survivors: set<Claim>, revived: set<Claim>, o: Observation) {
    && (Redirects(machine, o) ==> UserTarget(o).value !in revived)
    && (Superseded(survivors, o) && !MachineWide(o) ==> Target(o).value in machine + revived)
  }

  lemma MachineAfterRelabelling(zone: Path -> Zone, items: seq<Observation>)
    ensures Machine(Relabelling(zone, items)) == Machine(items) + Revived(zone, items)
  {
    hide Module, MachineWide, IsDeleted, Target, Superseded, Relabelled, Survivors, Machine;
    var survivors, after := Survivors(zone, items), Relabelling(zone, items);
    forall i | 0 <= i < |items|
      ensures MachineTarget(after[i])
           == if Superseded(survivors, items[i]) then if MachineWide(items[i]) then Target(items[i]) else None
              else MachineTarget(items[i])
      ensures Superseded(survivors, items[i]) ==> Target(items[i]).Some? && MachineTarget(items[i]) == None
    {
      RelabellingKeeps(survivors, items[i]);
      if Superseded(survivors, items[i]) { FreedHasTarget(survivors, items[i]); }
    }
    forall claim ensures claim in Machine(after) <==> claim in Machine(items) + Revived(zone, items) {
      MachineIs(items, claim);
      MachineIs(after, claim);
      if o :| o in after && MachineTarget(o) == Some(claim) {
        var i :| 0 <= i < |after| && after[i] == o;
        assert items[i] in items;
      }
      if o :| o in items && MachineTarget(o) == Some(claim) {
        var i :| 0 <= i < |items| && items[i] == o;
        assert after[i] in after;
      }
      if claim in Revived(zone, items) {
        var o :| o in items && MachineWide(o) && Superseded(survivors, o) && Target(o).value == claim;
        var i :| 0 <= i < |items| && items[i] == o;
        assert after[i] in after;
      }
    }
  }

  lemma FreedHasTarget(survivors: set<Claim>, o: Observation)
    requires Superseded(survivors, o)
    ensures Target(o).Some? && IsDeleted(o) && Module(o).Some? && Module(o).value.0 == Target(o).value.0
    ensures Module(o).value in survivors && UserTarget(o) == None && MachineTarget(o) == None
  {
  }

  /** A class with a survivor is registered for the whole machine. */
  lemma SurvivorsAreRegistered(zone: Path -> Zone, items: seq<Observation>, classId: string)
    requires KnowsClass(Survivors(zone, items), classId)
    ensures KnowsClass(Machine(items), classId)
  {
    hide Survivors, Machine, MachineWide, Target, IsDeleted;
    var claim :| claim in Survivors(zone, items) && claim.0 == classId;
    SurvivorsAre(zone, items, claim);
    var o :| o in items && Survivor(zone, o) == Some(claim);
    MachineIs(items, MachineTarget(o).value);
    assert MachineTarget(o).value.0 == classId by { SurvivorClass(zone, o); }
  }

  lemma SurvivorClass(zone: Path -> Zone, o: Observation)
    requires Survivor(zone, o).Some?
    ensures MachineTarget(o).Some? && MachineTarget(o).value.0 == Survivor(zone, o).value.0
  {
  }

  lemma ReversedOutcome(zone: Path -> Zone, items: seq<Observation>, o: Observation)
    ensures var machine, survivors, revived := Machine(items), Survivors(zone, items), Revived(zone, items);
      Promoted(machine + revived, Relabelled(survivors, o)) == Outcome(zone, items, o)
      <==> Unmoved(machine, survivors, revived, o)
  {
    hide Survivors, Machine, Revived;
    var machine, survivors, revived := Machine(items), Survivors(zone, items), Revived(zone, items);
    if Superseded(survivors, o) {
      hide Relabelled, Target, Module, IsDeleted;
      RelabellingKeeps(survivors, o);
      FreedHasTarget(survivors, o);
      SurvivorsAreRegistered(zone, items, Target(o).value.0);
    } else if UserTarget(o).Some? && KnowsClass(revived, UserTarget(o).value.0) {
      RevivedClassesAreRegistered(zone, items, UserTarget(o).value.0);
    }
  }

  lemma RevivedClassesAreRegistered(zone: Path -> Zone, items: seq<Observation>, classId: string)
    requires KnowsClass(Revived(zone, items), classId)
    ensures KnowsClass(Machine(items), classId)
  {
    hide Survivors, Machine, MachineWide, Target, Module, IsDeleted, Superseded;
    var claim :| claim in Revived(zone, items) && claim.0 == classId;
    forall o <- items | Superseded(Survivors(zone, items), o) ensures Target(o).Some? {
      FreedHasTarget(Survivors(zone, items), o);
    }
    var o :| o in items && Superseded(Survivors(zone, items), o) && Target(o) == Some(claim);
    FreedHasTarget(Survivors(zone, items), o);
    SurvivorsAreRegistered(zone, items, classId);
  }

  /** Relabelling first gives the same list exactly when it neither revives the very path of a hijack nor relabels a
      user's freed registration of a path the machine does not give that class. */
  lemma OrderMattersExactly(zone: Path -> Zone, items: seq<Observation>)
    ensures Promotion(Relabelling(zone, items)) == Relabelling(zone, Promotion(items)) <==> OrderIsFree(zone, items)
  {
    hide Survivors, Machine, Revived, Unmoved, Outcome, Promoted, Relabelled;
    MachineAfterRelabelling(zone, items);
    PassesDoNotInterfere(zone, items);
    var reversed, final := Promotion(Relabelling(zone, items)), Relabelling(zone, Promotion(items));
    forall i | 0 <= i < |items|
      ensures reversed[i] == final[i]
              <==> Unmoved(Machine(items), Survivors(zone, items), Revived(zone, items), items[i])
    {
      ReversedOutcome(zone, items, items[i]);
    }
    if reversed == final {
      forall o <- items ensures Unmoved(Machine(items), Survivors(zone, items), Revived(zone, items), o) {
        var i :| 0 <= i < |items| && items[i] == o;
        assert reversed[i] == final[i];
      }
    }
    if OrderIsFree(zone, items) {
      forall i | 0 <= i < |items| ensures reversed[i] == final[i] {
        assert items[i] in items;
      }
      assert reversed == final;
    }
  }

  const CLASS := "{0}"

  /** A machine-wide registration in a conventional place, and a user's freed one of the same module elsewhere. */
  const LIVE := Observation(Registry("software", CLASS), Some(Path("m", "\\m", true)), Persistent(ComServer, "m"))

  const FREED := Observation(Registry("user", CLASS), Some(Path("m", "\\u\\m", true)), Persistent(ComServer, "[deleted]m"))

  lemma TheExampleRegisters()
    ensures Target(LIVE) == Some((CLASS, "\\m")) && Target(FREED) == Some((CLASS, "\\u\\m"))
    ensures Module(LIVE) == Some((CLASS, "m")) && Module(FREED) == Some((CLASS, "m"))
    ensures MachineWide(LIVE) && !MachineWide(FREED) && IsDeleted(FREED) && !IsDeleted(LIVE)
  {
    hide Segments, LowerAscii, FileName, FirstClassId;
    TheExampleSpells();
    assert "[deleted]m"[..9] == DELETED_MARK;
  }

  lemma TheExampleSpells()
    ensures FirstClassId(Segments(CLASS)) == Some(CLASS)
    ensures LowerAscii("software") == "software" && LowerAscii("user") == "user" && LowerAscii("m") == "m"
    ensures FileName("\\m") == Some("m") && FileName("\\u\\m") == Some("m")
  {
    hide Segments;
    OneSegment(CLASS);
    assert LowerAscii(CLASS) == CLASS;
    LastSlashIs("\\m", 0);
    LastSlashIs("\\u\\m", 2);
    assert "\\m"[1..] == "m" && "\\u\\m"[3..] == "m";
  }

  /** Relabelling first would make a hijack of a registration from a freed cell. */
  lemma TheOtherOrderPromotesAFreedCell()
    ensures IsDeleted(FREED) && IsHijack(Promotion(Relabelling(_ => SystemDir, [LIVE, FREED]))[1])
  {
    hide Target, Module, MachineWide, IsDeleted;
    TheExampleRegisters();
    var zone: Path -> Zone, items := _ => SystemDir, [LIVE, FREED];
    var survivors, after := Survivors(zone, items), Relabelling(zone, items);
    SurvivorsAre(zone, items, (CLASS, "m"));
    assert Survivor(zone, LIVE) == Some((CLASS, "m"));
    assert LIVE in items && Superseded(survivors, FREED);
    RelabellingKeeps(survivors, LIVE);
    RelabellingKeeps(survivors, FREED);
    assert after[0] in after;
    MachineIs(after, (CLASS, "\\m"));
    assert (CLASS, "\\m") in Machine(after);
    assert (CLASS, "\\u\\m") !in Machine(after) by { MachineIs(after, (CLASS, "\\u\\m")); }
    assert Redirects(Machine(after), after[1]);
  }

  // ----- the two rules, said of the observations themselves -----

  /** The machine-wide hives, in any ASCII case. */
  ghost predicate IsMachineHive(hive: string) { SpelledLike(hive, "SOFTWARE") || SpelledLike(hive, "SYSTEM") }

  ghost predicate SpelledLike(a: string, b: string) {
    |a| == |b| && forall i | 0 <= i < |a| :: SameLetter(a[i], b[i])
  }

  lemma MachineWideIs(o: Observation)
    ensures MachineWide(o) <==> o.source.Registry? && IsMachineHive(o.source.hive)
  {
    if o.source.Registry? {
      LowerAsciiIs(o.source.hive, "SOFTWARE");
      LowerAsciiIs(o.source.hive, "SYSTEM");
      assert LowerAscii("SOFTWARE") == "software" && LowerAscii("SYSTEM") == "system";
    }
  }

  /** Registers a server for a class, under this path, in a hive of the machine or of a user; live or freed. */
  ghost predicate Registers(o: Observation, classId: string, path: Path, machine: bool, live: bool) {
    && o.source.Registry? && IsMachineHive(o.source.hive) == machine
    && FirstClassId(Segments(o.source.key)) == Some(classId)
    && o.kind.Persistent? && o.kind.what == ComServer && ("[deleted]" <= o.kind.rawValue) == !live
    && o.path == Some(path)
  }

  lemma MachineTargetIs(o: Observation, claim: Claim)
    ensures MachineTarget(o) == Some(claim) <==>
              exists path :: Registers(o, claim.0, path, true, true) && path.key == claim.1
  {
    hide FirstClassId, Segments, LowerAscii, MachineWide, IsMachineHive;
    MachineWideIs(o);
    if MachineTarget(o) == Some(claim) {
      assert Registers(o, claim.0, o.path.value, true, true);
    }
  }

  lemma UserTargetIs(o: Observation, claim: Claim)
    requires o.source.Registry?
    ensures UserTarget(o) == Some(claim) <==>
              exists path :: Registers(o, claim.0, path, false, true) && path.key == claim.1
  {
    hide FirstClassId, Segments, LowerAscii, MachineWide, IsMachineHive;
    MachineWideIs(o);
    if UserTarget(o) == Some(claim) {
      assert Registers(o, claim.0, o.path.value, false, true);
    }
  }

  lemma UserTargetsAreOfTheRegistry(o: Observation)
    requires UserTarget(o).Some?
    ensures o.source.Registry?
  {
  }

  ghost predicate MachineGivesAnother(items: seq<Observation>, classId: string, path: Path) {
    && (exists m <- items, other :: Registers(m, classId, other, true, true))
    && forall m <- items, other | Registers(m, classId, other, true, true) :: other.key != path.key
  }

  /** An observation redirects a class exactly when it is a user's live registration of a server for it, the machine has
      a live one for the same class, and the machine has none for it under the same path key. */
  lemma RedirectsExactly(items: seq<Observation>, o: Observation)
    ensures Redirects(Machine(items), o) <==>
              exists classId, path :: Registers(o, classId, path, false, true) && MachineGivesAnother(items, classId, path)
  {
    hide Machine, MachineTarget, UserTarget, Registers;
    forall m, claim ensures MachineTarget(m) == Some(claim) <==>
                              exists path :: Registers(m, claim.0, path, true, true) && path.key == claim.1
    {
      MachineTargetIs(m, claim);
    }
    forall claim ensures claim in Machine(items) <==> exists m <- items :: MachineTarget(m) == Some(claim) {
      MachineIs(items, claim);
    }
    if Redirects(Machine(items), o) {
      var claim := UserTarget(o).value;
      UserTargetsAreOfTheRegistry(o);
      UserTargetIs(o, claim);
      var path :| Registers(o, claim.0, path, false, true) && path.key == claim.1;
      var known :| known in Machine(items) && known.0 == claim.0;
      var m :| m in items && MachineTarget(m) == Some(known);
      var other :| Registers(m, claim.0, other, true, true);
      forall n <- items, far | Registers(n, claim.0, far, true, true) ensures far.key != path.key {
        assert MachineTarget(n) == Some((claim.0, far.key));
      }
    }
    if classId, path :| Registers(o, classId, path, false, true) && MachineGivesAnother(items, classId, path) {
      RegistryOnly(o, classId, path, false, true);
      UserTargetIs(o, (classId, path.key));
      var m, other :| m in items && Registers(m, classId, other, true, true);
      assert MachineTarget(m) == Some((classId, other.key));
      assert (classId, other.key) in Machine(items);
    }
  }

  lemma RegistryOnly(o: Observation, classId: string, path: Path, machine: bool, live: bool)
    requires Registers(o, classId, path, machine, live)
    ensures o.source.Registry?
  {
  }

  ghost predicate SameModule(path: Path, other: Path) {
    var name, known := FileName(path.key), FileName(other.key);
    name.Some? && known.Some? && SpelledLike(name.value, known.value)
  }

  lemma SurvivorIs(zone: Path -> Zone, m: Observation, classId: string, name: string)
    ensures Survivor(zone, m) == Some((classId, name)) <==>
              exists other :: && Registers(m, classId, other, true, true) && zone(other).Conventional()
                              && FileName(other.key).Some? && LowerAscii(FileName(other.key).value) == name
  {
    hide FirstClassId, Segments, LowerAscii, MachineWide, IsMachineHive, FileName;
    MachineWideIs(m);
    if Survivor(zone, m) == Some((classId, name)) {
      assert Registers(m, classId, m.path.value, true, true);
    }
  }

  lemma FreedModuleIs(o: Observation, classId: string, name: string)
    ensures FreedModule(o) == Some((classId, name)) <==>
              exists path, machine :: && Registers(o, classId, path, machine, false)
                                      && FileName(path.key).Some? && LowerAscii(FileName(path.key).value) == name
  {
    hide FirstClassId, Segments, LowerAscii, MachineWide, IsMachineHive, FileName;
    if FreedModule(o) == Some((classId, name)) {
      assert Registers(o, classId, o.path.value, IsMachineHive(o.source.hive), false);
    }
  }

  /** An observation is superseded exactly when it is a freed registration of a server for a class, and the machine has a
      live one for the same class, in a conventional place, of a module of the same name. */
  lemma SupersededExactly(zone: Path -> Zone, items: seq<Observation>, o: Observation)
    ensures Superseded(Survivors(zone, items), o) <==>
              exists classId, path, machine ::
                Registers(o, classId, path, machine, false) && MachineKeeps(zone, items, classId, path)
  {
    hide Survivors, Survivor, FreedModule, Registers, FileName, LowerAscii, SpelledLike;
    if Superseded(Survivors(zone, items), o) {
      var (classId, name) := FreedModule(o).value;
      FreedModuleIs(o, classId, name);
      var path, machine :| && Registers(o, classId, path, machine, false)
                           && FileName(path.key).Some? && LowerAscii(FileName(path.key).value) == name;
      SurvivorsAre(zone, items, (classId, name));
      var m :| m in items && Survivor(zone, m) == Some((classId, name));
      SurvivorIs(zone, m, classId, name);
      var other :| && Registers(m, classId, other, true, true) && zone(other).Conventional()
                   && FileName(other.key).Some? && LowerAscii(FileName(other.key).value) == name;
      Alike(FileName(path.key).value, FileName(other.key).value);
      assert MachineKeeps(zone, items, classId, path);
    }
    if classId, path, machine :| Registers(o, classId, path, machine, false) && MachineKeeps(zone, items, classId, path) {
      var m, other :| && m in items && Registers(m, classId, other, true, true) && zone(other).Conventional()
                      && SameModule(path, other);
      var name := LowerAscii(FileName(path.key).value);
      Alike(FileName(path.key).value, FileName(other.key).value);
      FreedModuleIs(o, classId, name);
      SurvivorIs(zone, m, classId, name);
      SurvivorsAre(zone, items, (classId, name));
    }
  }

  ghost predicate MachineKeeps(zone: Path -> Zone, items: seq<Observation>, classId: string, path: Path) {
    exists m <- items, other ::
      Registers(m, classId, other, true, true) && zone(other).Conventional() && SameModule(path, other)
  }

  lemma Alike(a: string, b: string)
    ensures LowerAscii(a) == LowerAscii(b) <==> SpelledLike(a, b)
  {
    LowerAsciiIs(a, b);
  }

  /** Relabelling changes the mark and nothing else: what follows it, without leading white space, stays. */
  lemma RelabelledText(survivors: set<Claim>, o: Observation)
    requires Superseded(survivors, o)
    ensures var after := Relabelled(survivors, o);
      && after == o.(kind := Persistent(o.kind.what, after.kind.rawValue))
      && exists space, rest :: && o.kind.rawValue == "[deleted]" + space + rest
                               && after.kind.rawValue == "[superseded] " + rest
                               && (forall c <- space :: IsWhitespace(c)) && (rest == "" || !IsWhitespace(rest[0]))
  {
    hide TrimStart, FirstClassId, Segments, LowerAscii, FileName;
    var tail := o.kind.rawValue[|DELETED_MARK|..];
    var rest := TrimStart(tail);
    TrimStartIs(tail);
    var space := tail[..|tail| - |rest|];
    assert tail == space + rest;
    assert o.kind.rawValue == "[deleted]" + space + rest;
  }

  lemma ZonesAre(zone: Zone)
    ensures zone.Conventional() <==> zone in {SystemDir, WindowsOther, WinSxs, ProgramFiles}
    ensures zone.Ordinary() <==> zone.Conventional() || zone in {ProgramData, Unlocated}
  {
  }
}
