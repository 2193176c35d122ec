/** The recovery chain: nine ways to get a candidate's bytes, tried in order over one sample file and one set of
    hash bookkeeping, with the first unconfirmed result held back while later steps look for a confirmed one. */
module RecoveryChain {
  import opened Prelude
  import opened Hashes

  datatype Step =
    | OnVolume
    | Quarantine
    | RecycleBin
    | ShadowCopy
    | CarvedClusters
    | IndexSlack
    | OrphanedRecord
    | RecordSlack
    | LogFileGhost

  const CHAIN: seq<Step> :=
    [OnVolume, Quarantine, RecycleBin, ShadowCopy, CarvedClusters, IndexSlack, OrphanedRecord, RecordSlack, LogFileGhost]

  datatype Source = Mft | DefenderQuarantine | FromRecycleBin | VolumeShadowCopy | Artifact(name: string)

  datatype Recovery = Intact | UnlinkedButPresent | Confirmed(against: string) | Unverified | Partial {
    predicate Trustworthy() { Intact? || UnlinkedButPresent? || Confirmed? }
  }

  datatype Reason = Refusal(step: Step, tag: nat) | NotWritten(step: Step) | NotRepeated(step: Step) | FellThrough

  datatype Acquisition =
    | Bytes(via: Source, size: nat, recovery: Recovery)
    | Withheld(via: Source, size: nat, recovery: Recovery)
    | HashOnly(via: Source)
    | Failed(reason: Reason)

  /** What an artifact said about the file: its label, a digest if it recorded one, and whether that is all it did. */
  datatype HashNote = HashNote(source: string, hash: FileHash, hashRecovered: bool)

  /** What a step turns up before it is judged. `sound` is a linked name for the file on the volume and anything but
      fragments elsewhere; `disagrees` is the quarantine's size conflict; `listed` the length a directory entry holds. */
  datatype Finding =
    | Nothing
    | Refused(tag: nat)
    | Found(bytes: seq<byte>, sound: bool, disagrees: Option<nat>, listed: nat)

  /** The volume, its indexes and the sample directory. The n-th attempt of a run may find or write differently from
      another, because the volume and the disk can change underneath it. */
  datatype World = World(
    find: (nat, Step) -> Finding,
    writes: nat -> bool,
    writeOut: bool,
    digest: seq<byte> -> FileHash)

  // ----- judging one step -----

  function RecordedHash(observations: seq<HashNote>): Option<HashNote> {
    if observations == [] then None
    else if !observations[0].hash.IsEmpty() then Some(observations[0])
    else RecordedHash(observations[1..])
  }

  /** What the first recorded hash says of the computed one: the same file, not it, or nothing in common to compare. */
  function CompareWithRecorded(observations: seq<HashNote>, computed: FileHash): Option<Recovery> {
    match RecordedHash(observations)
    case None => None
    case Some(o) =>
      if !o.hash.AgreesWith(computed) && !o.hash.SharesAnAlgorithm(computed) then None
      else if o.hash.AgreesWith(computed) then Some(Confirmed(o.source))
      else Some(Partial)
  }

  /** How bytes describe themselves when no recorded hash judges them; `None` when the step takes them back. */
  function OwnVerdict(step: Step, found: Finding): Option<Recovery>
    requires found.Found?
  {
    if step == OnVolume then Some(if found.sound then Intact else UnlinkedButPresent)
    else if found.disagrees.Some? then None
    else Some(if found.sound then Unverified else Partial)
  }

  function Verdict(step: Step, found: Finding, observations: seq<HashNote>, computed: FileHash): Option<Recovery>
    requires found.Found?
  {
    var compared := if step == OnVolume then None else CompareWithRecorded(observations, computed);
    if compared.Some? then compared else OwnVerdict(step, found)
  }

  /** Whether the computed hash becomes the candidate's identity. */
  predicate Adopts(step: Step, recovery: Recovery) {
    match step
    case OnVolume => true
    case ShadowCopy => recovery.Confirmed?
    case OrphanedRecord => recovery.Confirmed?
    case _ => !recovery.Partial?
  }

  function Via(step: Step): Source {
    match step
    case Quarantine => DefenderQuarantine
    case RecycleBin => FromRecycleBin
    case ShadowCopy => VolumeShadowCopy
    case _ => Mft
  }

  /** A carve from index slack that was written out is checked against the length its directory entry holds. */
  function Checked(step: Step, found: Finding, acquisition: Acquisition): Acquisition
    requires found.Found?
  {
    if step == IndexSlack && acquisition.Bytes? && found.listed != 0 && found.listed != acquisition.size
    then Bytes(acquisition.via, acquisition.size, Partial)
    else acquisition
  }

  // ----- the candidate -----

  datatype Bookkeeping = Bookkeeping(hash: FileHash, acquired: Option<FileHash>, checks: seq<HashCheck>)

  /** The one sample file a candidate has; a write that failed leaves it in no known state. */
  datatype Sample = Absent | Holds(bytes: seq<byte>) | Torn

  /** Checks are appended once each. */
  function AddChecks(checks: seq<HashCheck>, more: seq<HashCheck>): seq<HashCheck>
    decreases more
  {
    if more == [] then checks
    else AddChecks(if more[0] in checks then checks else checks + [more[0]], more[1..])
  }

  function ChecksOf(observations: seq<HashNote>, computed: FileHash): seq<HashCheck> {
    if observations == [] then []
    else
      var o := observations[0];
      (if o.hash.IsEmpty() then [] else o.hash.CheckedAgainst(computed, o.source)) + ChecksOf(observations[1..], computed)
  }

  function Recorded(book: Bookkeeping, observations: seq<HashNote>, computed: FileHash, adopt: bool): Bookkeeping {
    Bookkeeping(
      if adopt then book.hash.SupersedeWith(computed) else book.hash,
      Some(computed),
      AddChecks(book.checks, ChecksOf(observations, computed)))
  }

  /** One attempt at one step: what it gives, the digest it recorded on the way, and what it did to the sample file. */
  datatype Attempt =
    | NoResult
    | Refuses(reason: Reason)
    | Hashed(acquisition: Acquisition, bytes: seq<byte>, computed: FileHash, adopt: bool)
  {
    /** Bytes, saved or withheld, as opposed to a refusal or a failed write. */
    predicate Gives() { Hashed? && (acquisition.Bytes? || acquisition.Withheld?) }

    predicate Trusted() { Gives() && acquisition.recovery.Trustworthy() }

    /** A digest was recorded, but the bytes behind it could not be written. */
    predicate LostWrite() { Hashed? && acquisition.Failed? }

    /** Puts its bytes in the sample file, or spoils the file trying. */
    predicate Touches() { Hashed? && (acquisition.Bytes? || acquisition.Failed?) }

    function FailureReason(): Option<Reason> {
      match this
      case NoResult => None
      case Refuses(reason) => Some(reason)
      case Hashed(a, _, _, _) => if a.Failed? then Some(a.reason) else None
    }

    function Book(book: Bookkeeping, observations: seq<HashNote>): Bookkeeping {
      if Hashed? then Recorded(book, observations, computed, adopt) else book
    }

    function File(sample: Sample): Sample {
      if Hashed? && acquisition.Bytes? then Holds(bytes) else if LostWrite() then Torn else sample
    }

    function Result(): Option<Acquisition> {
      match this
      case NoResult => None
      case Refuses(reason) => Some(Failed(reason))
      case Hashed(a, _, _, _) => Some(a)
    }
  }

  /** What the n-th attempt gives when it tries `step`; the bookkeeping plays no part in it. */
  function Try(w: World, observations: seq<HashNote>, n: nat, step: Step): Attempt {
    match w.find(n, step)
    case Nothing => NoResult
    case Refused(tag) => Refuses(Refusal(step, tag))
    case Found(bytes, sound, disagrees, listed) =>
      var found := w.find(n, step);
      var computed := w.digest(bytes);
      match Verdict(step, found, observations, computed)
      case None => Refuses(Refusal(step, disagrees.value))
      case Some(recovery) =>
        var saved :=
          if !w.writeOut then Withheld(Via(step), |bytes|, recovery)
          else if !w.writes(n) then Failed(NotWritten(step))
          else Bytes(Via(step), |bytes|, recovery);
        Hashed(Checked(step, found, saved), bytes, computed, Adopts(step, recovery))
  }

  class Candidate {
    const observations: seq<HashNote>
    var hash: FileHash
    var acquiredHash: Option<FileHash>
    var hashChecks: seq<HashCheck>
    var sample: Sample
    var attempts: nat

    constructor (observations: seq<HashNote>, hash: FileHash)
      ensures this.observations == observations
      ensures Book() == Bookkeeping(hash, None, []) && sample == Absent && attempts == 0
    {
      this.observations, this.hash := observations, hash;
      acquiredHash, hashChecks, sample, attempts := None, [], Absent, 0;
    }

    function Book(): Bookkeeping
      reads this
    {
      Bookkeeping(hash, acquiredHash, hashChecks)
    }

    method Restore(book: Bookkeeping)
      modifies this`hash, this`acquiredHash, this`hashChecks
      ensures Book() == book
    {
      hash, acquiredHash, hashChecks := book.hash, book.acquired, book.checks;
    }

    /** Compares the computed digest with every recorded one, keeps the new checks, and adopts the digest if told to. */
    method RecordAcquiredHash(computed: FileHash, adopt: bool)
      modifies this`hash, this`acquiredHash, this`hashChecks
      ensures Book() == Recorded(old(Book()), observations, computed, adopt)
    {
      for i := 0 to |observations|
        invariant hash == old(hash) && acquiredHash == old(acquiredHash)
        invariant AddChecks(hashChecks, ChecksOf(observations[i..], computed))
               == AddChecks(old(hashChecks), ChecksOf(observations, computed))
      {
        var o := observations[i];
        ChecksStep(observations, i, computed, hashChecks);
        if o.hash.IsEmpty() { continue; }
        PushChecks(o.hash.CheckedAgainst(computed, o.source));
      }
      acquiredHash := Some(computed);
      if adopt {
        hash := hash.SupersedeWith(computed);
      }
    }

    method PushChecks(checks: seq<HashCheck>)
      modifies this`hashChecks
      ensures hashChecks == AddChecks(old(hashChecks), checks)
    {
      for k := 0 to |checks|
        invariant AddChecks(hashChecks, checks[k..]) == AddChecks(old(hashChecks), checks)
      {
        assert checks[k..][0] == checks[k] && checks[k..][1..] == checks[k + 1..];
        if checks[k] !in hashChecks {
          hashChecks := hashChecks + [checks[k]];
        }
      }
    }

    /** Writes the sample file, or withholds it when the run writes nothing out. */
    method Save(w: World, bytes: seq<byte>, via: Source, step: Step, recovery: Recovery) returns (r: Acquisition)
      modifies this`sample
      ensures r == if !w.writeOut then Withheld(via, |bytes|, recovery)
                   else if !w.writes(attempts) then Failed(NotWritten(step))
                   else Bytes(via, |bytes|, recovery)
      ensures sample == if r.Bytes? then Holds(bytes) else if r.Failed? then Torn else old(sample)
    {
      if !w.writeOut { return Withheld(via, |bytes|, recovery); }
      if !w.writes(attempts) {
        sample := Torn;
        return Failed(NotWritten(step));
      }
      sample := Holds(bytes);
      r := Bytes(via, |bytes|, recovery);
    }

    /** Runs one step: find, judge, record the digest, save. */
    method RunStep(w: World, step: Step) returns (r: Option<Acquisition>)
      modifies this
      ensures var a := Try(w, observations, old(attempts), step);
        && r == a.Result()
        && Book() == a.Book(old(Book()), observations)
        && sample == a.File(old(sample))
      ensures attempts == old(attempts) + 1
    {
      hide AddChecks, ChecksOf, Recorded, CompareWithRecorded;
      var found := w.find(attempts, step);
      match found {
        case Nothing =>
          r := None;
        case Refused(tag) =>
          r := Some(Failed(Refusal(step, tag)));
        case Found(bytes, sound, disagrees, listed) =>
          var computed := w.digest(bytes);
          var verdict := Verdict(step, found, observations, computed);
          if verdict == None {
            r := Some(Failed(Refusal(step, disagrees.value)));
          } else {
            RecordAcquiredHash(computed, Adopts(step, verdict.value));
            var saved := Save(w, bytes, Via(step), step, verdict.value);
            r := Some(Checked(step, found, saved));
          }
      }
      attempts := attempts + 1;
    }
  }

  lemma ChecksStep(observations: seq<HashNote>, i: nat, computed: FileHash, checks: seq<HashCheck>)
    requires i < |observations|
    ensures var o, rest := observations[i], ChecksOf(observations[i + 1..], computed);
      AddChecks(checks, ChecksOf(observations[i..], computed))
      == AddChecks(if o.hash.IsEmpty() then checks else AddChecks(checks, o.hash.CheckedAgainst(computed, o.source)), rest)
  {
    var o, rest := observations[i], ChecksOf(observations[i + 1..], computed);
    assert observations[i..][0] == o && observations[i..][1..] == observations[i + 1..];
    if o.hash.IsEmpty() {
      assert [] + rest == rest;
    } else {
      AddChecksSplits(checks, o.hash.CheckedAgainst(computed, o.source), rest);
    }
  }

  lemma {:induction false} AddChecksSplits(checks: seq<HashCheck>, first: seq<HashCheck>, second: seq<HashCheck>)
    ensures AddChecks(checks, first + second) == AddChecks(AddChecks(checks, first), second)
    decreases first
  {
    if first == [] {
      assert first + second == second;
    } else {
      assert (first + second)[1..] == first[1..] + second;
      AddChecksSplits(if first[0] in checks then checks else checks + [first[0]], first[1..], second);
    }
  }

  // ----- the choice the chain makes -----

  /** What a run's first nine attempts give, were each of them made. */
  ghost function Trail(w: World, observations: seq<HashNote>, n: nat): (r: seq<Attempt>)
    ensures |r| == |CHAIN|
  {
    seq(|CHAIN|, i requires 0 <= i < |CHAIN| => Try(w, observations, n + i, CHAIN[i]))
  }

  /** The first of the first `k` attempts that gives bytes. */
  ghost function FirstGiving(trail: seq<Attempt>, k: nat): (r: Option<nat>)
    requires k <= |trail|
    ensures r.Some? ==> r.value < k && trail[r.value].Gives() && forall i | 0 <= i < r.value :: !trail[i].Gives()
    ensures r == None ==> forall i | 0 <= i < k :: !trail[i].Gives()
  {
    if k == 0 then None
    else
      var earlier := FirstGiving(trail, k - 1);
      if earlier.Some? then earlier else if trail[k - 1].Gives() then Some(k - 1) else None
  }

  /** The first of the first `k` attempts that gives bytes which can be trusted. */
  ghost function FirstTrusted(trail: seq<Attempt>, k: nat): (r: Option<nat>)
    requires k <= |trail|
    ensures r.Some? ==> r.value < k && trail[r.value].Trusted() && forall i | 0 <= i < r.value :: !trail[i].Trusted()
    ensures r == None ==> forall i | 0 <= i < k :: !trail[i].Trusted()
  {
    if k == 0 then None
    else
      var earlier := FirstTrusted(trail, k - 1);
      if earlier.Some? then earlier else if trail[k - 1].Trusted() then Some(k - 1) else None
  }

  ghost function FirstReason(trail: seq<Attempt>, k: nat): Option<Reason>
    requires k <= |trail|
  {
    if k == 0 then None else Or(FirstReason(trail, k - 1), trail[k - 1].FailureReason())
  }

  /** The bookkeeping after the first `k` attempts: a digest stays when, and only when, its bytes could not be written. */
  ghost function Residue(book: Bookkeeping, observations: seq<HashNote>, trail: seq<Attempt>, k: nat): Bookkeeping
    requires k <= |trail|
  {
    if k == 0 then book
    else
      var earlier := Residue(book, observations, trail, k - 1);
      if trail[k - 1].LostWrite() then trail[k - 1].Book(earlier, observations) else earlier
  }

  /** The sample file after the first `k` attempts: what the last of them that wrote to it left there. */
  ghost function FileAfter(sample: Sample, trail: seq<Attempt>, k: nat): Sample
    requires k <= |trail|
  {
    if k == 0 then sample else trail[k - 1].File(FileAfter(sample, trail, k - 1))
  }

  /** The attempt the chain settles on at once: with something to confirm against, the first that can be trusted;
      with nothing, the first that gives bytes. */
  ghost function Settled(trail: seq<Attempt>, confirmable: bool): Option<nat> {
    if confirmable then FirstTrusted(trail, |trail|) else FirstGiving(trail, |trail|)
  }

  /** The one-line choice: what the chain settles on, and failing that the first attempt that gave anything. */
  ghost function Choice(trail: seq<Attempt>, confirmable: bool): Option<nat> {
    Or(Settled(trail, confirmable), FirstGiving(trail, |trail|))
  }

  /** Where a digest the candidate still has came from, if an artifact can be named for it. */
  function HashVia(observations: seq<HashNote>): Option<Source> {
    match RecordedHash(observations)
    case Some(o) => Some(Artifact(o.source))
    case None => FirstHashRecovered(observations)
  }

  function FirstHashRecovered(observations: seq<HashNote>): Option<Source> {
    if observations == [] then None
    else if observations[0].hashRecovered then Some(Artifact(observations[0].source))
    else FirstHashRecovered(observations[1..])
  }

  function FromRecordedHash(book: Bookkeeping, observations: seq<HashNote>): Option<Acquisition> {
    match HashVia(observations)
    case Some(via) => if book.hash.IsEmpty() then None else Some(HashOnly(via))
    case None => None
  }

  function Fallback(book: Bookkeeping, observations: seq<HashNote>, reason: Option<Reason>): Acquisition {
    match FromRecordedHash(book, observations)
    case Some(a) => a
    case None => Failed(if reason.Some? then reason.value else FellThrough)
  }

  datatype Decision = Decision(acquisition: Acquisition, book: Bookkeeping, sample: Sample) {
    predicate HasBytes() { acquisition.Bytes? || acquisition.Withheld? }
  }

  /** What a run decides, in any world: `again` is the tenth attempt, made only to repeat a result held back. */
  ghost function Decide(w: World, observations: seq<HashNote>, n: nat, book: Bookkeeping, sample: Sample): Decision {
    var trail := Trail(w, observations, n);
    var probed := FileAfter(sample, trail, |trail|);
    match Settled(trail, RecordedHash(observations).Some?)
    case Some(i) =>
      Decision(trail[i].acquisition, trail[i].Book(Residue(book, observations, trail, i), observations),
               FileAfter(sample, trail, i + 1))
    case None =>
      match FirstGiving(trail, |trail|)
      case None =>
        var after := Residue(book, observations, trail, |trail|);
        Decision(Fallback(after, observations, FirstReason(trail, |trail|)), after, probed)
      case Some(h) =>
        var again := Try(w, observations, n + |CHAIN|, CHAIN[h]);
        var after := again.Book(Residue(book, observations, trail, h), observations);
        if again.Gives() then Decision(again.acquisition, after, again.File(probed))
        else
          var reason := if again.FailureReason().Some? then again.FailureReason().value else NotRepeated(CHAIN[h]);
          Decision(Fallback(after, observations, Or(FirstReason(trail, |trail|), Some(reason))), after, again.File(probed))
  }

  /** A result that carries bytes is the one in the sample file, and its digest is the one on the books. */
  ghost predicate Delivered(w: World, observations: seq<HashNote>, r: Acquisition, book: Bookkeeping, sample: Sample) {
    && (r.Bytes? ==> sample.Holds? && |sample.bytes| == r.size && book.acquired == Some(w.digest(sample.bytes)))
    && (r.Bytes? && r.recovery.Confirmed? ==>
          RecordedHash(observations).Some? && RecordedHash(observations).value.hash.AgreesWith(w.digest(sample.bytes)))
  }

  /** Every attempt that gives bytes delivers them; one that hashes gives bytes or loses its write. */
  lemma AttemptDelivers(w: World, observations: seq<HashNote>, n: nat, step: Step, book: Bookkeeping, sample: Sample)
    ensures var a := Try(w, observations, n, step);
      && (a.Gives() ==> Delivered(w, observations, a.acquisition, a.Book(book, observations), a.File(sample)))
      && (a.Hashed? ==> a.Gives() || a.LostWrite())
      && (!w.writeOut ==> a.File(sample) == sample)
  {
  }

  lemma TrailAt(w: World, observations: seq<HashNote>, n: nat, i: nat)
    requires i < |CHAIN|
    ensures Trail(w, observations, n)[i] == Try(w, observations, n + i, CHAIN[i])
  {
  }

  lemma NothingYet(trail: seq<Attempt>, book: Bookkeeping, observations: seq<HashNote>, sample: Sample)
    ensures FileAfter(sample, trail, 0) == sample
    ensures FirstTrusted(trail, 0) == FirstGiving(trail, 0) == None
    ensures FirstReason(trail, 0) == None && Residue(book, observations, trail, 0) == book
  {
  }

  lemma OneMore(trail: seq<Attempt>, book: Bookkeeping, observations: seq<HashNote>, sample: Sample, i: nat)
    requires i < |trail|
    ensures FileAfter(sample, trail, i + 1) == trail[i].File(FileAfter(sample, trail, i))
    ensures FirstTrusted(trail, i + 1)
         == Or(FirstTrusted(trail, i), if trail[i].Trusted() then Some(i) else None)
    ensures FirstGiving(trail, i + 1) == Or(FirstGiving(trail, i), if trail[i].Gives() then Some(i) else None)
    ensures FirstReason(trail, i + 1) == Or(FirstReason(trail, i), trail[i].FailureReason())
    ensures Residue(book, observations, trail, i + 1)
         == if trail[i].LostWrite() then trail[i].Book(Residue(book, observations, trail, i), observations)
            else Residue(book, observations, trail, i)
  {
  }

  lemma SettledAt(trail: seq<Attempt>, confirmable: bool, i: nat)
    requires i < |trail| && if confirmable then trail[i].Trusted() else trail[i].Gives()
    requires if confirmable then FirstTrusted(trail, i) == None else FirstGiving(trail, i) == None
    ensures Settled(trail, confirmable) == Some(i)
  {
  }

  /** The result held back is asked for again, from the bookkeeping it was first asked with. */
  method Replay(c: Candidate, w: World, step: Step, atTheTime: Bookkeeping)
    returns (given: Option<Acquisition>, reason: Reason)
    modifies c
    ensures var a := Try(w, c.observations, old(c.attempts), step);
      && given == (if a.Gives() then Some(a.acquisition) else None)
      && reason == (if a.FailureReason().Some? then a.FailureReason().value else NotRepeated(step))
      && c.Book() == a.Book(atTheTime, c.observations) && c.sample == a.File(old(c.sample))
    ensures given.Some? ==> Delivered(w, c.observations, given.value, c.Book(), c.sample)
    ensures !w.writeOut ==> c.sample == old(c.sample)
    ensures c.attempts == old(c.attempts) + 1
  {
    hide Try, Recorded, Delivered;
    c.Restore(atTheTime);
    AttemptDelivers(w, c.observations, c.attempts, step, c.Book(), c.sample);
    var outcome := c.RunStep(w, step);
    given, reason := None, NotRepeated(step);
    if outcome.Some? && (outcome.value.Bytes? || outcome.value.Withheld?) {
      given := outcome;
    } else if outcome.Some? && outcome.value.Failed? {
      reason := outcome.value.reason;
    }
  }

  method Acquire(c: Candidate, w: World) returns (r: Acquisition)
    modifies c
    ensures Decision(r, c.Book(), c.sample)
         == Decide(w, c.observations, old(c.attempts), old(c.Book()), old(c.sample))
    ensures Delivered(w, c.observations, r, c.Book(), c.sample)
    ensures !w.writeOut ==> c.sample == old(c.sample)
    ensures c.attempts <= old(c.attempts) + |CHAIN| + 1
  {
    hide Try, Recorded, RecordedHash, Delivered, Fallback, Residue, FirstGiving, FirstTrusted, FirstReason, FileAfter,
      Trail;
    NothingYet(Trail(w, c.observations, c.attempts), c.Book(), c.observations, c.sample);
    var firstFailure: Option<Reason> := None;
    var held: Option<(Step, Bookkeeping)> := None;
    var somethingCouldConfirmIt := RecordedHash(c.observations).Some?;
    ghost var trail := Trail(w, c.observations, c.attempts);
    for i := 0 to |CHAIN|
      invariant c.attempts == old(c.attempts) + i
      invariant FirstTrusted(trail, i) == None
      invariant !somethingCouldConfirmIt ==> FirstGiving(trail, i) == None
      invariant firstFailure == FirstReason(trail, i)
      invariant c.Book() == Residue(old(c.Book()), c.observations, trail, i)
      invariant c.sample == FileAfter(old(c.sample), trail, i)
      invariant held.Some? <==> FirstGiving(trail, i).Some?
      invariant held.Some? ==> held.value == (CHAIN[FirstGiving(trail, i).value],
                  Residue(old(c.Book()), c.observations, trail, FirstGiving(trail, i).value))
      invariant !w.writeOut ==> c.sample == old(c.sample)
    {
      var step, before := CHAIN[i], c.Book();
      OneMore(trail, old(c.Book()), c.observations, old(c.sample), i);
      TrailAt(w, c.observations, old(c.attempts), i);
      AttemptDelivers(w, c.observations, c.attempts, step, c.Book(), c.sample);
      var outcome := c.RunStep(w, step);
      match outcome {
        case None =>
        case Some(a) =>
          if a.Failed? {
            firstFailure := Or(firstFailure, Some(a.reason));
          } else if (a.Bytes? || a.Withheld?) && a.recovery.Trustworthy() {
            SettledAt(trail, somethingCouldConfirmIt, i);
            return a;
          } else {
            if !somethingCouldConfirmIt {
              SettledAt(trail, somethingCouldConfirmIt, i);
              return a;
            }
            if held == None { held := Some((step, before)); }
            c.Restore(before);
          }
      }
    }
    if held.Some? {
      var (step, atTheTime) := held.value;
      var given, reason := Replay(c, w, step, atTheTime);
      if given.Some? { return given.value; }
      firstFailure := Or(firstFailure, Some(reason));
    }
    FallbackHasNoBytes(w, c.Book(), c.observations, firstFailure, c.sample);
    r := Fallback(c.Book(), c.observations, firstFailure);
  }

  lemma FallbackHasNoBytes(w: World, book: Bookkeeping, observations: seq<HashNote>, reason: Option<Reason>,
                           sample: Sample)
    ensures Delivered(w, observations, Fallback(book, observations, reason), book, sample)
  {
  }

  // ----- what the choice comes to -----

  /** A volume that does not change underneath the run, and a sample directory that takes every write. */
  ghost predicate Steady(w: World) {
    && (forall n, m, step :: w.find(n, step) == w.find(m, step))
    && forall n :: w.writes(n)
  }

  lemma {:induction false} NothingLost(w: World, book: Bookkeeping, observations: seq<HashNote>, n: nat, k: nat)
    requires (forall m :: w.writes(m)) && k <= |CHAIN|
    ensures Residue(book, observations, Trail(w, observations, n), k) == book
  {
    hide Verdict, Recorded;
    if k > 0 {
      NothingLost(w, book, observations, n, k - 1);
    }
  }

  /** In a steady world a run is the one-line choice: the attempt chosen is the result, the bookkeeping and the sample
      file end as if it alone had run, and when nothing gave bytes neither is touched. */
  lemma SteadyRunIsTheChoice(w: World, observations: seq<HashNote>, n: nat, book: Bookkeeping, sample: Sample)
    requires Steady(w)
    ensures var trail := Trail(w, observations, n);
      Decide(w, observations, n, book, sample)
      == match Choice(trail, RecordedHash(observations).Some?)
         case Some(i) => Decision(trail[i].acquisition, trail[i].Book(book, observations), trail[i].File(sample))
         case None => Decision(Fallback(book, observations, FirstReason(trail, |trail|)), book, sample)
  {
    hide Recorded, FirstReason, Fallback, RecordedHash, Try, FileAfter, Residue, FirstGiving, FirstTrusted, Trail;
    var trail := Trail(w, observations, n);
    NothingLost(w, book, observations, n, |CHAIN|);
    match Settled(trail, RecordedHash(observations).Some?)
    case Some(i) =>
      NothingLost(w, book, observations, n, i);
      TrailAt(w, observations, n, i);
      OneMore(trail, book, observations, sample, i);
      WrittenOver(w, observations, n, sample, n + i, CHAIN[i], i);
    case None =>
      match FirstGiving(trail, |trail|)
      case None => NothingTouched(w, observations, n, sample);
      case Some(h) =>
        NothingLost(w, book, observations, n, h);
        TrailAt(w, observations, n, h);
        SameAttempt(w, observations, n + |CHAIN|, n + h, CHAIN[h]);
        WrittenOver(w, observations, n, sample, n + |CHAIN|, CHAIN[h], |trail|);
  }

  /** What decides whether an attempt gives bytes, loses its write, or touches the sample file. */
  lemma AttemptsAre(w: World, observations: seq<HashNote>, n: nat, step: Step)
    ensures var a, found := Try(w, observations, n, step), w.find(n, step);
      var judged := found.Found? && Verdict(step, found, observations, w.digest(found.bytes)).Some?;
      && (a.LostWrite() <==> judged && w.writeOut && !w.writes(n))
      && (a.Gives() <==> judged && (w.writeOut ==> w.writes(n)))
      && (a.Touches() <==> judged && w.writeOut)
  {
  }

  lemma {:induction false} Untouched(sample: Sample, trail: seq<Attempt>, k: nat)
    requires k <= |trail| && forall i | 0 <= i < k :: !trail[i].Touches()
    ensures FileAfter(sample, trail, k) == sample
  {
    if k > 0 {
      Untouched(sample, trail, k - 1);
    }
  }

  /** An attempt that gives bytes leaves the file as if nothing had been written before it. */
  lemma WrittenOver(w: World, observations: seq<HashNote>, n: nat, sample: Sample, m: nat, step: Step, k: nat)
    requires k <= |CHAIN| && Try(w, observations, m, step).Gives()
    ensures var a := Try(w, observations, m, step);
      a.File(FileAfter(sample, Trail(w, observations, n), k)) == a.File(sample)
  {
    hide Try, FileAfter;
    AttemptsAre(w, observations, m, step);
    var trail := Trail(w, observations, n);
    if !w.writeOut {
      forall i | 0 <= i < k ensures !trail[i].Touches() {
        AttemptsAre(w, observations, n + i, CHAIN[i]);
      }
      Untouched(sample, trail, k);
    }
  }

  lemma NothingTouched(w: World, observations: seq<HashNote>, n: nat, sample: Sample)
    requires (forall m :: w.writes(m)) && FirstGiving(Trail(w, observations, n), |CHAIN|) == None
    ensures FileAfter(sample, Trail(w, observations, n), |CHAIN|) == sample
  {
    hide Try, FileAfter, FirstGiving;
    var trail := Trail(w, observations, n);
    forall i | 0 <= i < |trail| ensures !trail[i].Touches() {
      AttemptsAre(w, observations, n + i, CHAIN[i]);
    }
    Untouched(sample, trail, |trail|);
  }

  lemma SameAttempt(w: World, observations: seq<HashNote>, n: nat, m: nat, step: Step)
    requires Steady(w)
    ensures Try(w, observations, n, step) == Try(w, observations, m, step)
  {
    hide Verdict, Adopts;
    assert w.find(n, step) == w.find(m, step) && w.writes(n) && w.writes(m);
  }

  /** The verdict on a digest is the verdict of the checks made of it: one that agrees confirms, whatever another says. */
  lemma VerdictFollowsTheChecks(observations: seq<HashNote>, computed: FileHash)
    ensures match RecordedHash(observations)
      case None => CompareWithRecorded(observations, computed) == None
      case Some(o) =>
        var checks := o.hash.CheckedAgainst(computed, o.source);
        CompareWithRecorded(observations, computed)
        == if checks == [] then None
           else if exists check <- checks :: check.agrees then Some(Confirmed(o.source))
           else Some(Partial)
  {
    hide RecordedHash;
    match RecordedHash(observations)
    case None =>
    case Some(o) => ChecksDecide(o.hash, computed, o.source);
  }

  /** One such verdict: the SHA-1 agrees and confirms, although the MD5 does not. */
  lemma ConfirmedDespiteADisagreement(recorded: FileHash, computed: FileHash)
    requires recorded == FileHash(Some([1]), Some([2]), None) && computed == FileHash(Some([9]), Some([2]), None)
    ensures CompareWithRecorded([HashNote("amcache", recorded, false)], computed) == Some(Confirmed("amcache"))
    ensures exists check <- recorded.CheckedAgainst(computed, "amcache") :: !check.agrees
  {
    assert !recorded.CheckedAgainst(computed, "amcache")[1].agrees;
  }

  /** Only the file itself and a digest some artifact recorded make a result trustworthy. */
  lemma TrustIsEarned(w: World, observations: seq<HashNote>, n: nat, step: Step)
    ensures var a := Try(w, observations, n, step);
      a.Trusted() ==>
        || step == OnVolume
        || (a.acquisition.recovery.Confirmed? && RecordedHash(observations).Some?
            && RecordedHash(observations).value.hash.AgreesWith(a.computed))
  {
  }

  /** The recorded hash is the first digest any artifact gave, and there is none only if no artifact gave one. */
  lemma {:induction false} RecordedHashIsTheFirst(observations: seq<HashNote>)
    ensures match RecordedHash(observations)
      case None => forall o <- observations :: o.hash == FileHash(None, None, None)
      case Some(o) => exists i | 0 <= i < |observations| ::
        observations[i] == o && o.hash != FileHash(None, None, None)
        && forall j | 0 <= j < i :: observations[j].hash == FileHash(None, None, None)
  {
    if observations != [] && observations[0].hash.IsEmpty() {
      RecordedHashIsTheFirst(observations[1..]);
      assert observations == [observations[0]] + observations[1..];
      if i :| 0 <= i < |observations[1..]| && RecordedHash(observations) == Some(observations[1..][i])
              && forall j | 0 <= j < i :: observations[1..][j].hash == FileHash(None, None, None) {
        assert observations[i + 1] == observations[1..][i];
      }
    }
  }

  /** The recorded hash is this file's. */
  ghost predicate Confirms(observations: seq<HashNote>, computed: FileHash) {
    RecordedHash(observations).Some? && RecordedHash(observations).value.hash.AgreesWith(computed)
  }

  /** There is no recorded hash, or none in an algorithm the computed one has. */
  ghost predicate Silent(observations: seq<HashNote>, computed: FileHash) {
    RecordedHash(observations) == None || !RecordedHash(observations).value.hash.SharesAnAlgorithm(computed)
  }

  /** A carve from index slack that was written out and has not the length its directory entry holds. */
  ghost predicate WrongLength(w: World, step: Step, found: Finding)
    requires found.Found?
  {
    step == IndexSlack && w.writeOut && found.listed != 0 && found.listed != |found.bytes|
  }

  /** What each step says of the bytes it gives, and where it says they came from. */
  lemma AttemptSays(w: World, observations: seq<HashNote>, n: nat, step: Step)
    ensures var a, found := Try(w, observations, n, step), w.find(n, step);
      a.Gives() ==>
        && found.Found? && a.bytes == found.bytes && a.computed == w.digest(a.bytes)
        && a.acquisition.size == |a.bytes| && (a.acquisition.Bytes? <==> w.writeOut)
        && a.acquisition.recovery
           == (if step == OnVolume then if found.sound then Intact else UnlinkedButPresent
               else if WrongLength(w, step, found) then Partial
               else if Confirms(observations, a.computed) then Confirmed(RecordedHash(observations).value.source)
               else if Silent(observations, a.computed) && found.sound then Unverified
               else Partial)
        && (a.acquisition.via == DefenderQuarantine <==> step == Quarantine)
        && (a.acquisition.via == FromRecycleBin <==> step == RecycleBin)
        && (a.acquisition.via == VolumeShadowCopy <==> step == ShadowCopy)
        && (a.acquisition.via.Mft? <==> step !in {Quarantine, RecycleBin, ShadowCopy})
  {
    hide RecordedHash;
    ConfirmingIsNotSilent(observations);
  }

  lemma ConfirmingIsNotSilent(observations: seq<HashNote>)
    ensures forall computed :: Confirms(observations, computed) ==> !Silent(observations, computed)
  {
    hide RecordedHash;
  }

  /** A step gives nothing when it finds nothing, and refuses when it says so or takes back what a silent record leaves
      in doubt; every other find is hashed. */
  lemma RefusalsAre(w: World, observations: seq<HashNote>, n: nat, step: Step)
    ensures var a, found := Try(w, observations, n, step), w.find(n, step);
      && (a == NoResult <==> found == Nothing)
      && (a.Refuses?
          <==> || found.Refused?
               || (found.Found? && step != OnVolume && found.disagrees.Some?
                   && Silent(observations, w.digest(found.bytes))))
      && (a.Refuses? ==> a.reason == Refusal(step, if found.Refused? then found.tag else found.disagrees.value))
  {
    hide RecordedHash;
    ConfirmingIsNotSilent(observations);
  }

  /** When a digest becomes the candidate's identity: that of the file itself always, that of a shadow copy or an
      orphaned record only when a recorded hash confirms it, and any other unless something speaks against the bytes. */
  lemma AdoptionIs(w: World, observations: seq<HashNote>, n: nat, step: Step)
    requires Try(w, observations, n, step).Hashed?
    ensures var a, found := Try(w, observations, n, step), w.find(n, step);
      a.adopt <==>
        if step == OnVolume then true
        else if step == ShadowCopy || step == OrphanedRecord then Confirms(observations, a.computed)
        else Confirms(observations, a.computed) || (Silent(observations, a.computed) && found.sound)
  {
    hide RecordedHash;
    ConfirmingIsNotSilent(observations);
  }

  /** The bytes are the file itself, or confirmed, or (but for a shadow copy or an orphaned record) undisputed. */
  ghost predicate IsIdentity(step: Step, found: Finding, observations: seq<HashNote>, computed: FileHash) {
    || step == OnVolume
    || Confirms(observations, computed)
    || (step != ShadowCopy && step != OrphanedRecord && Silent(observations, computed) && found.Found? && found.sound)
  }

  /** In a steady world the candidate's identity afterwards is the one it had, with the digest of the bytes chosen taken
      over if they are the file's own, or confirmed, or (but for a shadow copy or an orphaned record) undisputed. */
  lemma IdentityAfterASteadyRun(w: World, observations: seq<HashNote>, n: nat, book: Bookkeeping, sample: Sample)
    requires Steady(w)
    ensures var trail := Trail(w, observations, n);
      var choice := Choice(trail, RecordedHash(observations).Some?);
      Decide(w, observations, n, book, sample).book.hash
      == if choice == None then book.hash
         else
           var a := trail[choice.value];
           if IsIdentity(CHAIN[choice.value], w.find(n + choice.value, CHAIN[choice.value]), observations, a.computed)
           then book.hash.SupersedeWith(a.computed)
           else book.hash
  {
    hide RecordedHash, Try, FirstGiving, FirstTrusted, FileAfter, Residue, Decide, Trail, FirstReason;
    var trail := Trail(w, observations, n);
    var choice := Choice(trail, RecordedHash(observations).Some?);
    SteadyRunIsTheChoice(w, observations, n, book, sample);
    if choice.Some? {
      TrailAt(w, observations, n, choice.value);
      AttemptSays(w, observations, n + choice.value, CHAIN[choice.value]);
      AdoptionIs(w, observations, n + choice.value, CHAIN[choice.value]);
    }
  }

  /** Trusted are the file itself and bytes the recorded hash confirms, unless index slack found their length wrong. */
  lemma TrustedExactly(w: World, observations: seq<HashNote>, n: nat, step: Step)
    ensures var a, found := Try(w, observations, n, step), w.find(n, step);
      a.Gives() ==>
        (a.Trusted() <==> step == OnVolume || (Confirms(observations, a.computed) && !WrongLength(w, step, found)))
  {
    hide RecordedHash, Try;
    AttemptSays(w, observations, n, step);
  }

  /** The chain tries the file first, then what others kept of it, then what deletion left of it, the furthest last. */
  lemma ChainIs()
    ensures |CHAIN| == 9 && CHAIN[0] == OnVolume
    ensures CHAIN[1] == Quarantine && CHAIN[2] == RecycleBin && CHAIN[3] == ShadowCopy
    ensures CHAIN[4] == CarvedClusters && CHAIN[5] == IndexSlack && CHAIN[6] == OrphanedRecord
    ensures CHAIN[7] == RecordSlack && CHAIN[8] == LogFileGhost
  {
  }

  /** A run that ends with no bytes is a bare digest when the candidate has one and an artifact can be named for it, the
      first that gave a digest or else the first that only recovered one; otherwise it fails for the first reason. */
  lemma FallbackIs(book: Bookkeeping, observations: seq<HashNote>, reason: Option<Reason>)
    ensures var r := Fallback(book, observations, reason);
      var first := RecordedHash(observations);
      && (r.HashOnly? <==> book.hash != FileHash(None, None, None)
                           && (first.Some? || exists o <- observations :: o.hashRecovered))
      && (r.HashOnly? && first.Some? ==> r.via == Artifact(first.value.source))
      && (r.HashOnly? && first == None ==> exists i | 0 <= i < |observations| ::
            observations[i].hashRecovered && r.via == Artifact(observations[i].source)
            && forall j | 0 <= j < i :: !observations[j].hashRecovered)
      && (!r.HashOnly? ==> r == Failed(if reason.Some? then reason.value else FellThrough))
  {
    hide RecordedHash;
    FirstHashRecoveredIs(observations);
  }

  lemma {:induction false} FirstHashRecoveredIs(observations: seq<HashNote>)
    ensures match FirstHashRecovered(observations)
      case None => forall o <- observations :: !o.hashRecovered
      case Some(via) => exists i | 0 <= i < |observations| ::
        observations[i].hashRecovered && via == Artifact(observations[i].source)
        && forall j | 0 <= j < i :: !observations[j].hashRecovered
  {
    if observations != [] && !observations[0].hashRecovered {
      FirstHashRecoveredIs(observations[1..]);
      assert observations == [observations[0]] + observations[1..];
      if i :| 0 <= i < |observations[1..]| && observations[1..][i].hashRecovered
              && FirstHashRecovered(observations) == Some(Artifact(observations[1..][i].source))
              && forall j | 0 <= j < i :: !observations[1..][j].hashRecovered {
        assert observations[i + 1] == observations[1..][i];
      }
    }
  }

  /** The reason a run gives is that of the first attempt that refused or could not write. */
  lemma {:induction false} FirstReasonIs(trail: seq<Attempt>, k: nat)
    requires k <= |trail|
    ensures match FirstReason(trail, k)
      case None => forall i | 0 <= i < k :: !trail[i].Refuses? && !trail[i].LostWrite()
      case Some(reason) => exists i | 0 <= i < k ::
        && reason == (if trail[i].Refuses? then trail[i].reason
                      else if trail[i].LostWrite() then trail[i].acquisition.reason else FellThrough)
        && (trail[i].Refuses? || trail[i].LostWrite())
        && forall j | 0 <= j < i :: !trail[j].Refuses? && !trail[j].LostWrite()
  {
    if k > 0 {
      FirstReasonIs(trail, k - 1);
      assert trail[k - 1].FailureReason().Some? <==> trail[k - 1].Refuses? || trail[k - 1].LostWrite();
    }
  }

  /** With no recorded hash nothing past the volume itself is ever trusted, so the first bytes win. */
  lemma NothingToConfirmAgainst(w: World, observations: seq<HashNote>, n: nat)
    requires RecordedHash(observations) == None
    ensures var trail := Trail(w, observations, n);
      && Choice(trail, false) == FirstGiving(trail, |trail|)
      && forall i | 0 < i < |trail| :: !trail[i].Trusted()
  {
    hide Try, FirstGiving, FirstTrusted, RecordedHash;
    forall i | 0 < i < |CHAIN| ensures !Try(w, observations, n + i, CHAIN[i]).Trusted() {
      TrustIsEarned(w, observations, n + i, CHAIN[i]);
    }
  }

  lemma {:induction false} HeldChecks(checks: seq<HashCheck>, more: seq<HashCheck>)
    requires forall check <- more :: check in checks
    ensures AddChecks(checks, more) == checks
  {
    if more != [] {
      HeldChecks(checks, more[1..]);
    }
  }

  lemma {:induction false} AddedChecksAreHeld(checks: seq<HashCheck>, more: seq<HashCheck>)
    ensures forall check :: check in AddChecks(checks, more) <==> check in checks || check in more
    decreases more
  {
    if more != [] {
      AddedChecksAreHeld(if more[0] in checks then checks else checks + [more[0]], more[1..]);
      assert more == [more[0]] + more[1..];
    }
  }

  /** The checks made are those of every artifact that gave a digest, and a check already held is not added twice. */
  lemma {:induction false} ChecksAre(observations: seq<HashNote>, computed: FileHash)
    ensures forall check ::
              check in ChecksOf(observations, computed)
              <==> exists o <- observations :: check in o.hash.CheckedAgainst(computed, o.source)
  {
    if observations != [] {
      ChecksAre(observations[1..], computed);
      var o := observations[0];
      assert observations == [o] + observations[1..];
      if o.hash.IsEmpty() { assert o.hash.CheckedAgainst(computed, o.source) == []; }
    }
  }

  ghost predicate NoRepeats(checks: seq<HashCheck>) {
    forall i, j | 0 <= i < j < |checks| :: checks[i] != checks[j]
  }

  lemma {:induction false} AddedOnce(checks: seq<HashCheck>, more: seq<HashCheck>)
    requires NoRepeats(checks)
    ensures NoRepeats(AddChecks(checks, more)) && checks <= AddChecks(checks, more)
    decreases more
  {
    if more != [] {
      AddedOnce(if more[0] in checks then checks else checks + [more[0]], more[1..]);
    }
  }

  /** Recording the same digest again changes nothing, whether or not it is adopted. */
  lemma RecordingTwice(book: Bookkeeping, observations: seq<HashNote>, computed: FileHash, adopt: bool)
    ensures var once := Recorded(book, observations, computed, adopt);
      Recorded(once, observations, computed, adopt) == once
  {
    var more := ChecksOf(observations, computed);
    AddedChecksAreHeld(book.checks, more);
    HeldChecks(AddChecks(book.checks, more), more);
  }

  // ----- runs that report no bytes -----

  /** The first attempts' digests stay on the books exactly when one of their writes was lost. */
  lemma {:induction false} ResidueIsOfLostWrites(book: Bookkeeping, observations: seq<HashNote>, trail: seq<Attempt>, k: nat)
    requires k <= |trail| && book.acquired == None
    ensures var after := Residue(book, observations, trail, k);
      && (after == book <==> forall i | 0 <= i < k :: !trail[i].LostWrite())
      && (after != book ==> after.acquired.Some?)
  {
    if k > 0 {
      ResidueIsOfLostWrites(book, observations, trail, k - 1);
    }
  }

  /** How many attempts' lost writes a run that reports no bytes does not take back: those before the held one. */
  ghost function Unrestored(trail: seq<Attempt>): (k: nat)
    ensures k <= |trail|
  {
    var held := FirstGiving(trail, |trail|);
    if held.Some? then held.value else |trail|
  }

  /** The tenth attempt, made when the result held back is asked for again. */
  ghost function Again(w: World, observations: seq<HashNote>, n: nat): Option<Attempt> {
    match FirstGiving(Trail(w, observations, n), |CHAIN|)
    case Some(h) => Some(Try(w, observations, n + |CHAIN|, CHAIN[h]))
    case None => None
  }

  /** A run that reports no bytes has no settled attempt, and what it held, if anything, did not come again. */
  lemma NoBytesMeans(w: World, observations: seq<HashNote>, n: nat, book: Bookkeeping, sample: Sample)
    requires !Decide(w, observations, n, book, sample).HasBytes()
    ensures var trail, again, d := Trail(w, observations, n), Again(w, observations, n), Decide(w, observations, n, book, sample);
      var after, probed := Residue(book, observations, trail, Unrestored(trail)), FileAfter(sample, trail, |trail|);
      && (again.Some? ==> !again.value.Gives())
      && d.book == (if again.Some? then again.value.Book(after, observations) else after)
      && d.sample == (if again.Some? then again.value.File(probed) else probed)
  {
    hide Residue, FileAfter, Try, Recorded, RecordedHash, Fallback, FirstReason;
  }

  /** A run that reports no bytes leaves the bookkeeping of a fresh candidate untouched exactly when no write was lost
      before the attempt it held back, nor when that one was made again. */
  lemma NoBytesNoDigest(w: World, observations: seq<HashNote>, n: nat, book: Bookkeeping, sample: Sample)
    requires book.acquired == None && !Decide(w, observations, n, book, sample).HasBytes()
    ensures var trail, again := Trail(w, observations, n), Again(w, observations, n);
      Decide(w, observations, n, book, sample).book == book
      <==> (forall i | 0 <= i < Unrestored(trail) :: !trail[i].LostWrite())
           && (again.Some? ==> !again.value.LostWrite())
  {
    hide Residue, FileAfter, Try, FirstGiving, Decide;
    var trail, again := Trail(w, observations, n), Again(w, observations, n);
    NoBytesMeans(w, observations, n, book, sample);
    ResidueIsOfLostWrites(book, observations, trail, Unrestored(trail));
    if again.Some? {
      AgainHashes(w, observations, n);
    }
  }

  lemma AgainHashes(w: World, observations: seq<HashNote>, n: nat)
    requires Again(w, observations, n).Some?
    ensures var again := Again(w, observations, n).value; again.Hashed? ==> again.Gives() || again.LostWrite()
  {
    hide Try, FirstGiving;
    var h := FirstGiving(Trail(w, observations, n), |CHAIN|).value;
    AttemptDelivers(w, observations, n + |CHAIN|, CHAIN[h], Bookkeeping(NO_HASH, None, []), Absent);
  }

  /** The attempt whose doing the sample file is. */
  lemma {:induction false} FileIsOfTheLast(sample: Sample, trail: seq<Attempt>, k: nat, i: nat)
    requires i < k <= |trail| && trail[i].Touches() && forall j | i < j < k :: !trail[j].Touches()
    ensures FileAfter(sample, trail, k) == if trail[i].LostWrite() then Torn else Holds(trail[i].bytes)
  {
    if k > i + 1 {
      FileIsOfTheLast(sample, trail, k - 1, i);
    }
  }

  /** A run that reports no bytes, begun with no sample file, leaves some step's bytes in one exactly when samples are
      written out, some attempt gave bytes, no later one lost its write, and neither did the one made again. The bytes
      are then those of the last attempt that gave any. */
  lemma BytesLeftBehind(w: World, observations: seq<HashNote>, n: nat, book: Bookkeeping)
    requires !Decide(w, observations, n, book, Absent).HasBytes()
    ensures var trail, again := Trail(w, observations, n), Again(w, observations, n);
      var sample := Decide(w, observations, n, book, Absent).sample;
      && (sample.Holds? <==> w.writeOut && (again.Some? ==> !again.value.LostWrite())
                             && exists i | 0 <= i < |trail| ::
                                  trail[i].Gives() && forall j | i < j < |trail| :: !trail[j].LostWrite())
      && (sample.Holds? ==> exists i | 0 <= i < |trail| ::
            trail[i].Gives() && sample == Holds(trail[i].bytes)
            && forall j | i < j < |trail| :: !trail[j].Gives() && !trail[j].LostWrite())
  {
    hide FileAfter, Try, FirstGiving, Decide, Residue, Recorded;
    var trail, again := Trail(w, observations, n), Again(w, observations, n);
    NoBytesMeans(w, observations, n, book, Absent);
    forall i | 0 <= i < |trail|
      ensures trail[i].Touches() <==> w.writeOut && (trail[i].Gives() || trail[i].LostWrite())
      ensures trail[i].LostWrite() ==> w.writeOut && !trail[i].Gives()
    {
      AttemptsAre(w, observations, n + i, CHAIN[i]);
    }
    if again.Some? {
      AgainHashes(w, observations, n);
    }
    LastTouch(trail, |trail|);
    if i :| 0 <= i < |trail| && trail[i].Touches() && forall j | i < j < |trail| :: !trail[j].Touches() {
      FileIsOfTheLast(Absent, trail, |trail|, i);
    } else {
      Untouched(Absent, trail, |trail|);
    }
  }

  lemma {:induction false} LastTouch(trail: seq<Attempt>, k: nat)
    requires k <= |trail|
    ensures || (forall i | 0 <= i < k :: !trail[i].Touches())
            || exists i | 0 <= i < k :: trail[i].Touches() && forall j | i < j < k :: !trail[j].Touches()
  {
    if k > 0 {
      LastTouch(trail, k - 1);
      if !trail[k - 1].Touches() && !(forall i | 0 <= i < k :: !trail[i].Touches()) {
        var i :| 0 <= i < k - 1 && trail[i].Touches() && forall j | i < j < k - 1 :: !trail[j].Touches();
        assert forall j | i < j < k :: !trail[j].Touches();
      }
    }
  }

  const DIGEST := FileHash(Some([1]), None, None)

  /** A volume that holds the file and a directory that takes no write: the digest stays although no bytes came. */
  lemma LostWriteLeavesItsDigest(w: World, book: Bookkeeping)
    requires w == World((n, step) => if step == OnVolume then Found([77], true, None, 0) else Nothing,
                        n => false, true, bytes => DIGEST)
    requires book == Bookkeeping(NO_HASH, None, [])
    ensures var d := Decide(w, [], 0, book, Absent);
      !d.HasBytes() && d.book != book && d.book.acquired == Some(DIGEST)
  {
    hide Residue, FileAfter, FirstGiving, FirstTrusted;
    var trail := Trail(w, [], 0);
    assert trail[0].LostWrite() && forall i | 0 < i < |trail| :: trail[i] == NoResult;
    assert !Decide(w, [], 0, book, Absent).HasBytes();
    NoBytesNoDigest(w, [], 0, book, Absent);
    OnlyTheFirst(trail, book, |trail|);
  }

  lemma {:induction false} OnlyTheFirst(trail: seq<Attempt>, book: Bookkeeping, k: nat)
    requires 0 < k <= |trail| && trail[0].LostWrite()
    requires forall i | 0 < i < |trail| :: trail[i] == NoResult
    ensures Residue(book, [], trail, k) == trail[0].Book(book, [])
  {
    if k > 1 {
      OnlyTheFirst(trail, book, k - 1);
    }
  }

  /** The recycle bin and the log both give bytes nobody can confirm, and the tenth attempt gives nothing: the run reports
      a failure or a bare digest, and the log's bytes stay in the sample file. */
  lemma AnotherStepsBytesAreLeft(w: World, book: Bookkeeping)
    requires w == World((n, step) => if n < |CHAIN| && step == RecycleBin then Found([1], true, None, 0)
                                     else if n < |CHAIN| && step == LogFileGhost then Found([2], true, None, 0)
                                     else Nothing,
                        n => true, true, bytes => DIGEST)
    ensures var observations := [HashNote("amcache", FileHash(None, Some([3]), None), false)];
      var d := Decide(w, observations, 0, book, Absent);
      !d.HasBytes() && d.sample == Holds([2])
  {
    hide Residue, FileAfter, FirstGiving, FirstTrusted;
    var observations := [HashNote("amcache", FileHash(None, Some([3]), None), false)];
    var trail := Trail(w, observations, 0);
    assert RecordedHash(observations) == Some(observations[0]);
    TwoStepsGive(w, observations);
    assert !Decide(w, observations, 0, book, Absent).HasBytes() by {
      hide Try, Fallback, Recorded;
      assert FirstGiving(trail, |trail|) == Some(2);
    }
    hide Try, Decide;
    BytesLeftBehind(w, observations, 0, book);
  }

  lemma TwoStepsGive(w: World, observations: seq<HashNote>)
    requires w == World((n, step) => if n < |CHAIN| && step == RecycleBin then Found([1], true, None, 0)
                                     else if n < |CHAIN| && step == LogFileGhost then Found([2], true, None, 0)
                                     else Nothing,
                        n => true, true, bytes => DIGEST)
    requires observations == [HashNote("amcache", FileHash(None, Some([3]), None), false)]
    ensures var trail := Trail(w, observations, 0);
      && trail[2].Gives() && trail[8].Gives() && trail[8].bytes == [2]
      && (forall i | 0 <= i < |trail| :: !trail[i].Trusted() && !trail[i].LostWrite())
      && forall i | 0 <= i < |trail| && i != 2 && i != 8 :: trail[i] == NoResult
    ensures Try(w, observations, |CHAIN|, CHAIN[2]) == NoResult
  {
    assert CHAIN[2] == RecycleBin && CHAIN[8] == LogFileGhost;
    assert RecordedHash(observations) == Some(observations[0]);
  }

  // ----- carves whose length contradicts their directory entry -----

  /** A step adopts the digest of bytes it gives as partial exactly when it is a carve from index slack that nothing but
      the length in the directory entry speaks against, and that was written out. */
  lemma PartialIsAdoptedExactly(w: World, observations: seq<HashNote>, n: nat, step: Step)
    ensures var a, found := Try(w, observations, n, step), w.find(n, step);
      a.Gives() && a.adopt && a.acquisition.recovery.Partial?
      <==> && found.Found? && step == IndexSlack && w.writeOut && w.writes(n)
           && found.listed != 0 && found.listed != |found.bytes|
           && var verdict := Verdict(step, found, observations, w.digest(found.bytes));
              verdict.Some? && verdict != Some(Partial)
  {
  }

  /** One such carve: a run ends with bytes it calls partial and their digest as the candidate's identity. */
  lemma ADemotedCarveIsAdopted(w: World, book: Bookkeeping)
    requires w == World((n, step) => if step == IndexSlack then Found([77], true, None, 2) else Nothing,
                        n => true, true, bytes => DIGEST)
    requires book == Bookkeeping(NO_HASH, None, [])
    ensures var d := Decide(w, [], 0, book, Absent);
      d.acquisition == Bytes(Mft, 1, Partial) && d.book.hash == DIGEST
  {
    hide Residue, FileAfter, FirstGiving, FirstTrusted, FirstReason;
    var trail := Trail(w, [], 0);
    assert trail[5] == Hashed(Bytes(Mft, 1, Partial), [77], DIGEST, true);
    assert forall i | 0 <= i < |trail| && i != 5 :: trail[i] == NoResult;
    hide Try, Decide;
    SteadyRunIsTheChoice(w, [], 0, book, Absent);
    assert Choice(trail, false) == Some(5);
  }
}
