/** Digests of a file's bytes, as artifacts record them and as a recovery computes them. */
module Hashes {
  import opened Prelude

  type Digest = seq<byte>

  datatype HashCheck = HashCheck(algorithm: string, recordedBy: string, recorded: Digest, computed: Digest, agrees: bool)

  datatype FileHash = FileHash(md5: Option<Digest>, sha1: Option<Digest>, sha256: Option<Digest>) {

    predicate IsEmpty() { md5 == None && sha1 == None && sha256 == None }

    /** Some algorithm both sides used gave both the same digest. */
    predicate AgreesWith(other: FileHash) {
      || (sha256.Some? && sha256 == other.sha256)
      || (sha1.Some? && sha1 == other.sha1)
      || (md5.Some? && md5 == other.md5)
    }

    predicate SharesAnAlgorithm(other: FileHash) {
      || (md5.Some? && other.md5.Some?)
      || (sha1.Some? && other.sha1.Some?)
      || (sha256.Some? && other.sha256.Some?)
    }

    /** The computed digests replace the recorded ones; where none was computed the recorded one stands. */
    function SupersedeWith(computed: FileHash): FileHash {
      FileHash(Or(computed.md5, md5), Or(computed.sha1, sha1), Or(computed.sha256, sha256))
    }

    /** One check for each algorithm both sides used. */
    function CheckedAgainst(computed: FileHash, recordedBy: string): seq<HashCheck> {
      Check("sha256", recordedBy, sha256, computed.sha256)
      + Check("sha1", recordedBy, sha1, computed.sha1)
      + Check("md5", recordedBy, md5, computed.md5)
    }
  }

  const NO_HASH := FileHash(None, None, None)

  function Or<T>(first: Option<T>, second: Option<T>): Option<T> { if first.Some? then first else second }

  function Check(algorithm: string, recordedBy: string, recorded: Option<Digest>, got: Option<Digest>): seq<HashCheck> {
    match (recorded, got)
    case (Some(r), Some(g)) => [HashCheck(algorithm, recordedBy, r, g, r == g)]
    case _ => []
  }

  /** There are checks exactly when some algorithm is shared, and one of them agrees exactly when the hashes do. */
  lemma ChecksDecide(recorded: FileHash, computed: FileHash, recordedBy: string)
    ensures var checks := recorded.CheckedAgainst(computed, recordedBy);
      && (recorded.SharesAnAlgorithm(computed) <==> checks != [])
      && (recorded.AgreesWith(computed) <==> exists check <- checks :: check.agrees)
      && forall check <- checks :: check.recordedBy == recordedBy && (check.agrees <==> check.recorded == check.computed)
  {
    var sha256, sha1, md5 := Check("sha256", recordedBy, recorded.sha256, computed.sha256),
      Check("sha1", recordedBy, recorded.sha1, computed.sha1), Check("md5", recordedBy, recorded.md5, computed.md5);
    forall check ensures check in recorded.CheckedAgainst(computed, recordedBy) <==> check in sha256 || check in sha1 || check in md5 {
    }
    if recorded.sha256.Some? && computed.sha256.Some? { assert sha256[0] in sha256; }
    if recorded.sha1.Some? && computed.sha1.Some? { assert sha1[0] in sha1; }
    if recorded.md5.Some? && computed.md5.Some? { assert md5[0] in md5; }
  }

  /** Each check is of one algorithm's two digests, and there is one for each algorithm both sides used. */
  lemma ChecksAreOfOneAlgorithm(recorded: FileHash, computed: FileHash, recordedBy: string)
    ensures forall check :: check in recorded.CheckedAgainst(computed, recordedBy) <==>
      && check.recordedBy == recordedBy && check.agrees == (check.recorded == check.computed)
      && (|| (check.algorithm == "md5" && recorded.md5 == Some(check.recorded) && computed.md5 == Some(check.computed))
          || (check.algorithm == "sha1" && recorded.sha1 == Some(check.recorded) && computed.sha1 == Some(check.computed))
          || (check.algorithm == "sha256" && recorded.sha256 == Some(check.recorded)
              && computed.sha256 == Some(check.computed)))
  {
    OneCheck("md5", recordedBy, recorded.md5, computed.md5);
    OneCheck("sha1", recordedBy, recorded.sha1, computed.sha1);
    OneCheck("sha256", recordedBy, recorded.sha256, computed.sha256);
    hide Check;
  }

  lemma OneCheck(algorithm: string, recordedBy: string, recorded: Option<Digest>, got: Option<Digest>)
    ensures forall check :: check in Check(algorithm, recordedBy, recorded, got) <==>
      && check.algorithm == algorithm && check.recordedBy == recordedBy
      && check.agrees == (check.recorded == check.computed)
      && recorded == Some(check.recorded) && got == Some(check.computed)
  {
  }

  /** Empty is the hash that does not even agree with itself, and agreeing is mutual. */
  lemma AgreementIs(a: FileHash, b: FileHash)
    ensures a.IsEmpty() <==> !a.AgreesWith(a)
    ensures a.AgreesWith(b) <==> b.AgreesWith(a)
    ensures a.AgreesWith(b) ==> a.SharesAnAlgorithm(b)
  {
  }

  /** A hash that took over the computed digests agrees with them in every algorithm, keeps those that were only
      recorded, and taking them over again changes nothing. */
  lemma ComputedSupersedes(recorded: FileHash, computed: FileHash, recordedBy: string)
    ensures var after := recorded.SupersedeWith(computed);
      && (!computed.IsEmpty() ==> after.AgreesWith(computed))
      && (forall check <- after.CheckedAgainst(computed, recordedBy) :: check.agrees)
      && (computed.md5 == None ==> after.md5 == recorded.md5)
      && (computed.sha1 == None ==> after.sha1 == recorded.sha1)
      && (computed.sha256 == None ==> after.sha256 == recorded.sha256)
      && after.SupersedeWith(computed) == after
  {
    var after := recorded.SupersedeWith(computed);
    forall check <- after.CheckedAgainst(computed, recordedBy) ensures check.agrees {
      assert || check in Check("sha256", recordedBy, after.sha256, computed.sha256)
             || check in Check("sha1", recordedBy, after.sha1, computed.sha1)
             || check in Check("md5", recordedBy, after.md5, computed.md5);
    }
  }
}
