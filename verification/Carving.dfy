/** Which carved image answers which target: one hit per target, the first image that satisfies it. */
module Carving {
  import opened Prelude
  import opened Hashes

  const MAX_TARGETS := 32

  /** What a carved image can be checked with: its digest, and the names it carries inside itself. */
  datatype Inspector = Inspector(
    digest: seq<byte> -> FileHash,
    selfNames: seq<byte> -> seq<string>,
    stemOf: string -> string)

  datatype Target = Target(index: nat, recorded: Option<(string, FileHash)>, stem: string)

  datatype Matched = Digest(against: string) | SelfName(carried: string)

  datatype Image = Image(lcn: nat, bytes: seq<byte>)

  datatype Hit = Hit(index: nat, lcn: nat, bytes: seq<byte>, computed: FileHash, matched: Matched)

  ghost predicate DistinctIndices(targets: seq<Target>) {
    forall i, j | 0 <= i < j < |targets| :: targets[i].index != targets[j].index
  }

  predicate Hits(hits: seq<Hit>, index: nat) { exists hit <- hits :: hit.index == index }

  function FirstNamed(inspector: Inspector, names: seq<string>, stem: string): Option<string> {
    if names == [] then None
    else if inspector.stemOf(names[0]) == stem then Some(names[0])
    else FirstNamed(inspector, names[1..], stem)
  }

  /** How an image answers a target: by the digest recorded for it, or failing one by a name it carries. */
  function Answer(inspector: Inspector, target: Target, bytes: seq<byte>): Option<Matched> {
    match target.recorded
    case Some((source, recorded)) =>
      if recorded.AgreesWith(inspector.digest(bytes)) then Some(Digest(source)) else None
    case None =>
      match FirstNamed(inspector, inspector.selfNames(bytes), target.stem)
      case Some(name) => Some(SelfName(name))
      case None => None
  }

  /** The hits after an image has been compared with each target in turn. */
  ghost function AddHits(inspector: Inspector, targets: seq<Target>, image: Image, hits: seq<Hit>): seq<Hit> {
    if targets == [] then hits
    else
      var target := targets[0];
      var matched := Answer(inspector, target, image.bytes);
      var more :=
        if Hits(hits, target.index) || matched == None then hits
        else hits + [Hit(target.index, image.lcn, image.bytes, inspector.digest(image.bytes), matched.value)];
      AddHits(inspector, targets[1..], image, more)
  }

  /** The hits after a sequence of images. */
  ghost function HitsOf(inspector: Inspector, targets: seq<Target>, images: seq<Image>): seq<Hit> {
    if images == [] then []
    else AddHits(inspector, Searched(targets), images[|images| - 1], HitsOf(inspector, targets, images[..|images| - 1]))
  }

  /** The targets an image is compared with. */
  function Searched(targets: seq<Target>): seq<Target> { targets[..Min(|targets|, MAX_TARGETS)] }

  /** The comparison loop: appends to `hits` what this image answers. */
  method Compare(inspector: Inspector, targets: seq<Target>, image: Image, before: seq<Hit>) returns (hits: seq<Hit>)
    ensures hits == AddHits(inspector, Searched(targets), image, before)
  {
    hits := before;
    var searched := Searched(targets);
    var computed := inspector.digest(image.bytes);
    var carried: Option<seq<string>> := None;
    for i := 0 to |searched|
      invariant carried.Some? ==> carried.value == inspector.selfNames(image.bytes)
      invariant AddHits(inspector, searched[i..], image, hits) == AddHits(inspector, searched, image, before)
    {
      var target := searched[i];
      assert searched[i..][0] == target && searched[i..][1..] == searched[i + 1..];
      if Hits(hits, target.index) { continue; }
      var matched;
      match target.recorded {
        case Some((source, recorded)) =>
          if !recorded.AgreesWith(computed) { continue; }
          matched := Digest(source);
        case None =>
          if carried == None { carried := Some(inspector.selfNames(image.bytes)); }
          var name := FirstNamed(inspector, carried.value, target.stem);
          if name == None { continue; }
          matched := SelfName(name.value);
      }
      hits := hits + [Hit(target.index, image.lcn, image.bytes, computed, matched)];
    }
  }

  // ----- one hit per target, from the first image that answers it -----

  /** The first image that answers a target. */
  ghost function FirstAnswer(inspector: Inspector, target: Target, images: seq<Image>): (r: Option<Image>)
    ensures r == None ==> forall image <- images :: Answer(inspector, target, image.bytes) == None
    ensures r.Some? ==> Answer(inspector, target, r.value.bytes).Some?
    ensures r.Some? ==> exists i | 0 <= i < |images| ::
                          (images[i] == r.value
                           && forall j | 0 <= j < i :: Answer(inspector, target, images[j].bytes) == None)
  {
    if images == [] then None
    else
      var last := images[|images| - 1];
      var earlier := FirstAnswer(inspector, target, images[..|images| - 1]);
      if earlier.Some? then earlier
      else if Answer(inspector, target, last.bytes).Some? then Some(last)
      else None
  }

  ghost function HitOf(inspector: Inspector, target: Target, image: Image): Hit
    requires Answer(inspector, target, image.bytes).Some?
  {
    Hit(target.index, image.lcn, image.bytes, inspector.digest(image.bytes), Answer(inspector, target, image.bytes).value)
  }

  ghost predicate OnePerTarget(hits: seq<Hit>) {
    forall i, j | 0 <= i < j < |hits| :: hits[i].index != hits[j].index
  }

  /** Old hits stay, each target not yet hit gains its hit if the image answers it, and nothing else is added. */
  ghost predicate Extends(inspector: Inspector, targets: seq<Target>, image: Image, hits: seq<Hit>, after: seq<Hit>) {
    && OnePerTarget(after)
    && hits <= after
    && (forall hit <- after | hit !in hits ::
          exists t <- targets :: Answer(inspector, t, image.bytes).Some? && hit == HitOf(inspector, t, image)
                                 && !Hits(hits, t.index))
    && (forall t <- targets | !Hits(hits, t.index) && Answer(inspector, t, image.bytes).Some? ::
          HitOf(inspector, t, image) in after)
  }

  lemma NoTargets(inspector: Inspector, image: Image, hits: seq<Hit>)
    ensures AddHits(inspector, [], image, hits) == hits
  {
  }

  lemma AddHitsStep(inspector: Inspector, targets: seq<Target>, image: Image, hits: seq<Hit>)
    requires targets != []
    ensures var target := targets[0];
      AddHits(inspector, targets, image, hits)
      == AddHits(inspector, targets[1..], image,
                 if Hits(hits, target.index) || Answer(inspector, target, image.bytes) == None then hits
                 else hits + [HitOf(inspector, target, image)])
  {
  }

  lemma {:induction false} AddHitsExtends(inspector: Inspector, targets: seq<Target>, image: Image, hits: seq<Hit>)
    requires DistinctIndices(targets) && OnePerTarget(hits)
    ensures Extends(inspector, targets, image, hits, AddHits(inspector, targets, image, hits))
  {
    hide Answer, AddHits;
    if targets == [] {
      NoTargets(inspector, image, hits);
    } else {
      AddHitsStep(inspector, targets, image, hits);
      var target := targets[0];
      var matched := Answer(inspector, target, image.bytes);
      var more :=
        if Hits(hits, target.index) || matched == None then hits
        else hits + [HitOf(inspector, target, image)];
      AddHitsExtends(inspector, targets[1..], image, more);
      var after := AddHits(inspector, targets[1..], image, more);
      forall t <- targets | !Hits(hits, t.index) && Answer(inspector, t, image.bytes).Some?
        ensures HitOf(inspector, t, image) in after
      {
        if t == target {
          assert more[|hits|] in after;
        } else {
          assert t in targets[1..];
          assert !Hits(more, t.index);
        }
      }
    }
  }

  /** A target's hit is the one its first answering image gives, and there is none if no image answers it. */
  ghost predicate HitByFirst(inspector: Inspector, t: Target, images: seq<Image>, hits: seq<Hit>) {
    match FirstAnswer(inspector, t, images)
    case Some(image) => HitOf(inspector, t, image) in hits
    case None => !Hits(hits, t.index)
  }

  ghost predicate Faithful(inspector: Inspector, targets: seq<Target>, images: seq<Image>, hits: seq<Hit>) {
    && OnePerTarget(hits)
    && (forall t <- targets :: HitByFirst(inspector, t, images, hits))
    && (forall hit <- hits :: exists t <- targets :: t.index == hit.index)
  }

  lemma HitByFirstStep(inspector: Inspector, targets: seq<Target>, t: Target, images: seq<Image>, hits: seq<Hit>, after: seq<Hit>)
    requires DistinctIndices(targets) && t in targets && images != []
    requires Extends(inspector, targets, images[|images| - 1], hits, after)
    requires HitByFirst(inspector, t, images[..|images| - 1], hits)
    ensures HitByFirst(inspector, t, images, after)
  {
    hide Answer;
    var last, earlier := images[|images| - 1], images[..|images| - 1];
    match FirstAnswer(inspector, t, earlier)
    case Some(image) =>
    case None =>
      if Hits(after, t.index) {
        var hit :| hit in after && hit.index == t.index;
        assert hit !in hits;
        var u :| u in targets && Answer(inspector, u, last.bytes).Some? && hit == HitOf(inspector, u, last);
        assert u == t;
      }
  }

  lemma {:induction false} HitsAreFaithful(inspector: Inspector, targets: seq<Target>, images: seq<Image>)
    requires DistinctIndices(targets)
    ensures Faithful(inspector, Searched(targets), images, HitsOf(inspector, targets, images))
  {
    hide Answer, AddHits;
    if images != [] {
      var last, earlier := images[|images| - 1], images[..|images| - 1];
      var before, after := HitsOf(inspector, targets, earlier), HitsOf(inspector, targets, images);
      HitsAreFaithful(inspector, targets, earlier);
      AddHitsExtends(inspector, Searched(targets), last, before);
      forall t <- Searched(targets) ensures HitByFirst(inspector, t, images, after) {
        HitByFirstStep(inspector, Searched(targets), t, images, before, after);
      }
    }
  }

  /** What it is to match: a recorded digest is this file's; or, with none recorded, the first name the image carries
      whose stem is the target's. A recorded digest that disagrees is never made up for by a name. */
  ghost predicate Matches(inspector: Inspector, t: Target, bytes: seq<byte>, matched: Matched) {
    match matched
    case Digest(source) =>
      && t.recorded.Some? && t.recorded.value.0 == source
      && t.recorded.value.1.AgreesWith(inspector.digest(bytes))
    case SelfName(name) =>
      var names := inspector.selfNames(bytes);
      && t.recorded == None
      && exists i | 0 <= i < |names| ::
           names[i] == name && inspector.stemOf(name) == t.stem
           && forall j | 0 <= j < i :: inspector.stemOf(names[j]) != t.stem
  }

  lemma {:induction false} FirstNamedIs(inspector: Inspector, names: seq<string>, stem: string)
    ensures match FirstNamed(inspector, names, stem)
      case None => forall i | 0 <= i < |names| :: inspector.stemOf(names[i]) != stem
      case Some(name) => exists i | 0 <= i < |names| ::
        names[i] == name && inspector.stemOf(name) == stem
        && forall j | 0 <= j < i :: inspector.stemOf(names[j]) != stem
  {
    if names != [] && inspector.stemOf(names[0]) != stem {
      FirstNamedIs(inspector, names[1..], stem);
      if i :| 0 <= i < |names[1..]| && FirstNamed(inspector, names, stem) == Some(names[1..][i])
              && inspector.stemOf(names[1..][i]) == stem
              && forall j | 0 <= j < i :: inspector.stemOf(names[1..][j]) != stem {
        assert names[i + 1] == names[1..][i];
      }
    }
  }

  lemma AnswerIs(inspector: Inspector, t: Target, bytes: seq<byte>, matched: Matched)
    ensures Answer(inspector, t, bytes) == Some(matched) <==> Matches(inspector, t, bytes, matched)
  {
    FirstNamedIs(inspector, inspector.selfNames(bytes), t.stem);
  }

  /** Every hit is on a target searched for, and its image matches that target in the way the hit says. */
  lemma HitsAreEarned(inspector: Inspector, targets: seq<Target>, images: seq<Image>, hit: Hit)
    requires DistinctIndices(targets) && hit in HitsOf(inspector, targets, images)
    ensures exists t <- Searched(targets) ::
              && t.index == hit.index && Image(hit.lcn, hit.bytes) in images
              && hit.computed == inspector.digest(hit.bytes) && Matches(inspector, t, hit.bytes, hit.matched)
  {
    hide Answer, HitsOf, Matches;
    HitsAreFaithful(inspector, targets, images);
    var t :| t in Searched(targets) && t.index == hit.index;
    assert HitByFirst(inspector, t, images, HitsOf(inspector, targets, images));
    var image := FirstAnswer(inspector, t, images).value;
    assert HitOf(inspector, t, image) in HitsOf(inspector, targets, images);
    assert hit == HitOf(inspector, t, image);
    assert Image(hit.lcn, hit.bytes) == image;
    AnswerIs(inspector, t, hit.bytes, hit.matched);
  }

  /** ... and every target some image matches is hit, by an image that comes no later. */
  lemma MatchesAreHit(inspector: Inspector, targets: seq<Target>, images: seq<Image>, t: Target, i: nat, matched: Matched)
    requires DistinctIndices(targets) && t in Searched(targets) && i < |images|
    requires Matches(inspector, t, images[i].bytes, matched)
    ensures exists hit <- HitsOf(inspector, targets, images), k | 0 <= k <= i ::
              hit.index == t.index && images[k] == Image(hit.lcn, hit.bytes)
  {
    hide Answer, HitsOf, Matches;
    HitsAreFaithful(inspector, targets, images);
    AnswerIs(inspector, t, images[i].bytes, matched);
    assert HitByFirst(inspector, t, images, HitsOf(inspector, targets, images));
    var first := FirstAnswer(inspector, t, images).value;
    var k :| 0 <= k < |images| && images[k] == first
             && forall j | 0 <= j < k :: Answer(inspector, t, images[j].bytes) == None;
    assert !(i < k);
    assert HitOf(inspector, t, first) in HitsOf(inspector, targets, images);
  }

  ghost function Indices(targets: seq<Target>): set<nat> { set t <- targets :: t.index }

  ghost function HitIndices(hits: seq<Hit>): set<nat> { set hit <- hits :: hit.index }

  lemma {:induction false} IndicesSize(targets: seq<Target>)
    requires DistinctIndices(targets)
    ensures |Indices(targets)| == |targets|
  {
    if targets != [] {
      IndicesSize(targets[1..]);
      assert targets == [targets[0]] + targets[1..];
      assert Indices(targets) == {targets[0].index} + Indices(targets[1..]);
    }
  }

  lemma {:induction false} HitIndicesSize(hits: seq<Hit>)
    requires OnePerTarget(hits)
    ensures |HitIndices(hits)| == |hits|
  {
    if hits != [] {
      HitIndicesSize(hits[1..]);
      assert hits == [hits[0]] + hits[1..];
      assert HitIndices(hits) == {hits[0].index} + HitIndices(hits[1..]);
    }
  }

  lemma EveryTargetHit(inspector: Inspector, targets: seq<Target>, images: seq<Image>, hits: seq<Hit>)
    requires DistinctIndices(targets) && Faithful(inspector, targets, images, hits) && |hits| >= |targets|
    ensures forall t <- targets :: Hits(hits, t.index)
  {
    IndicesSize(targets);
    HitIndicesSize(hits);
    SameSize(HitIndices(hits), Indices(targets));
    forall t <- targets ensures Hits(hits, t.index) {
      assert t.index in HitIndices(hits);
    }
  }

  lemma OneMoreImage(inspector: Inspector, targets: seq<Target>, images: seq<Image>, image: Image)
    ensures HitsOf(inspector, targets, images + [image])
         == AddHits(inspector, Searched(targets), image, HitsOf(inspector, targets, images))
  {
    assert (images + [image])[..|images|] == images;
  }

  /** Once there are as many hits as targets every target is hit, and no further image can change the hits. */
  lemma NothingLeftToFind(inspector: Inspector, targets: seq<Target>, images: seq<Image>, more: seq<Image>)
    requires DistinctIndices(targets) && |targets| <= MAX_TARGETS
    requires |HitsOf(inspector, targets, images)| >= |targets|
    ensures forall t <- targets :: Hits(HitsOf(inspector, targets, images), t.index)
    ensures HitsOf(inspector, targets, images + more) == HitsOf(inspector, targets, images)
  {
    HitsAreFaithful(inspector, targets, images);
    assert Searched(targets) == targets;
    EveryTargetHit(inspector, targets, images, HitsOf(inspector, targets, images));
    NoFurtherHits(inspector, targets, images, more);
  }

  lemma {:induction false} NoFurtherHits(inspector: Inspector, targets: seq<Target>, images: seq<Image>, more: seq<Image>)
    requires forall t <- targets :: Hits(HitsOf(inspector, targets, images), t.index)
    ensures HitsOf(inspector, targets, images + more) == HitsOf(inspector, targets, images)
  {
    if more == [] {
      assert images + more == images;
    } else {
      var last, earlier := more[|more| - 1], more[..|more| - 1];
      NoFurtherHits(inspector, targets, images, earlier);
      OneMoreImage(inspector, targets, images + earlier, last);
      NoMoreHits(inspector, Searched(targets), last, HitsOf(inspector, targets, images));
      assert images + more == images + earlier + [last];
    }
  }

  lemma {:induction false} NoMoreHits(inspector: Inspector, targets: seq<Target>, image: Image, hits: seq<Hit>)
    requires forall t <- targets :: Hits(hits, t.index)
    ensures AddHits(inspector, targets, image, hits) == hits
  {
    if targets != [] {
      NoMoreHits(inspector, targets[1..], image, hits);
    }
  }

  lemma SameSize(small: set<nat>, large: set<nat>)
    requires small <= large && |small| >= |large|
    ensures small == large
  {
    var rest := large - small;
    assert large == small + rest;
    assert |rest| == 0;
  }
}
