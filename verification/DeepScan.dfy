/** The deep carve: every free run is read in overlapping chunks and every free cluster start is tried as a PE image. */
module DeepScan {
  import opened Prelude
  import opened Clusters
  import opened FreeSpace
  import opened PeImage
  import opened Carving
  import opened Hashes

  const CHUNK := 1024 * 1024
  const HEADER_WINDOW := 8 * 1024
  const MAX_READ_BYTES := 1024 * 1024 * 1024 * 1024
  const MAX_HEADERS := 4_000_000
  const MAX_HASH_ATTEMPTS := 200_000

  /** A volume as the scan sees it; `readable` says which reads the device would serve. */
  datatype Volume = Volume(
    disk: seq<byte>,
    clusterSize: u64,
    total: u64,
    bitmap: Option<seq<byte>>,
    readable: (nat, nat) -> bool)

  function Offset(v: Volume, cluster: nat): nat { cluster * v.clusterSize }

  /** The cluster a byte lies in. */
  function ClusterAt(v: Volume, offset: nat): nat
    requires v.clusterSize > 0
  {
    offset / v.clusterSize
  }

  /** A read that stays inside the volume and that the device serves gives the bytes stored there. */
  function ReadClusters(v: Volume, lcn: nat, length: nat): (r: Option<seq<byte>>)
    ensures r.Some? ==> |r.value| == length
  {
    var from := Offset(v, lcn);
    if from + length > Offset(v, v.total) || from + length > |v.disk| || !v.readable(lcn, length) then None
    else Some(v.disk[from..from + length])
  }

  /** A read is served exactly when the device serves it and all of it lies on the volume, and gives what is stored. */
  lemma ReadsAre(v: Volume, lcn: nat, length: nat)
    ensures var from, r := lcn * v.clusterSize, ReadClusters(v, lcn, length);
      && (r.Some? <==> v.readable(lcn, length) && from + length <= v.total * v.clusterSize && from + length <= |v.disk|)
      && (r.Some? ==> forall i | 0 <= i < length :: r.value[i] == v.disk[from + i])
  {
  }

  /** The cluster sizes for which chunks begin and end on clusters, and a cluster has room for two bytes. */
  predicate Aligned(v: Volume) { v.clusterSize >= 2 && CHUNK % v.clusterSize == 0 }

  datatype Stop = Unreadable(lcn: nat) | ReadLimit | HeaderLimit | HashLimit | TimeLimit

  class Scan {
    var freeClusters: u64
    var scannedClusters: u64
    var bytesRead: u64
    var headers: u64
    var hashed: u64
    var hits: seq<Hit>
    var stopped: seq<Stop>
    ghost var tested: seq<nat>   // clusters tried as the start of an image, in order
    ghost var images: seq<Image> // images hashed and compared, in order

    ghost predicate Fresh()
      reads this
    {
      && scannedClusters == bytesRead == headers == hashed == 0
      && hits == [] && stopped == [] && tested == [] && images == []
    }

    constructor ()
      ensures Fresh() && freeClusters == 0
    {
      freeClusters, scannedClusters, bytesRead, headers, hashed := 0, 0, 0, 0, 0;
      hits, stopped, tested, images := [], [], [], [];
    }

    predicate Exhaustive() reads this { stopped == [] }

    /** The limits hold, and the hits are the ones the hashed images give. */
    ghost predicate Counted(inspector: Inspector, targets: seq<Target>)
      reads this`hits, this`images, this`hashed, this`bytesRead, this`headers
    {
      && hits == HitsOf(inspector, targets, images)
      && hashed == |images| <= MAX_HASH_ATTEMPTS
      && bytesRead < MAX_READ_BYTES + MAX_SAMPLE_BYTES
      && headers < MAX_HEADERS + CHUNK
    }

    /** Only free clusters below n were tried, each at most once, in address order, and so were the images taken. */
    ghost predicate Ordered(bits: seq<byte>, n: nat)
      reads this`tested, this`images
    {
      && (forall i | 0 <= i < |tested| :: tested[i] < n && Free(bits, tested[i]))
      && (forall i, j | 0 <= i < j < |tested| :: tested[i] < tested[j])
      && (forall i | 0 <= i < |images| :: images[i].lcn < n && Free(bits, images[i].lcn))
      && (forall i, j | 0 <= i < j < |images| :: images[i].lcn < images[j].lcn)
    }

    ghost predicate OutOfAttempts() reads this`hashed, this`bytesRead { hashed >= MAX_HASH_ATTEMPTS || bytesRead >= MAX_READ_BYTES }

    /** Every tried cluster that holds an image the scan can take was taken, unless a limit was met; and nothing was taken
        but what such headers say. */
    ghost predicate Thorough(v: Volume, bits: seq<byte>, end: nat)
      reads this`tested, this`images, this`hashed, this`bytesRead
    {
      && (forall c <- tested | c <= end && Findable(v, bits, end, c) ::
            OutOfAttempts() || Content(v, bits, end, c) in images)
      && forall image <- images :: Genuine(v, bits, end, image)
    }

    ghost predicate At(v: Volume, inspector: Inspector, targets: seq<Target>, bits: seq<byte>, end: nat, n: nat)
      reads this
    {
      && Counted(inspector, targets)
      && (Aligned(v) ==> Ordered(bits, n) && Thorough(v, bits, end))
      && (Aligned(v) && Exhaustive() ==> tested == FreeBelow(bits, n))
    }
  }

  /** Bytes from a free cluster to the end of the free run it lies in. */
  ghost function Room(v: Volume, bits: seq<byte>, end: nat, c: nat): nat
    requires c <= end
  {
    Offset(v, NextTaken(bits, end, c) - c)
  }

  /** The least of the image's bytes the scan is sure to look at, whatever chunk the cluster falls in. */
  ghost function SureWindow(v: Volume, bits: seq<byte>, end: nat, c: nat): seq<byte>
    requires c <= end
  {
    var from, width := Offset(v, c), Min(Room(v, bits, end, c), HEADER_WINDOW);
    if from + width <= |v.disk| then v.disk[from..from + width] else []
  }

  /** A cluster from which an image can be measured by its first bytes, fits its free run, and can be read. */
  ghost predicate Findable(v: Volume, bits: seq<byte>, end: nat, c: nat)
    requires c <= end
  {
    var length := ImageLength(SureWindow(v, bits, end, c));
    length.Some? && length.value <= Room(v, bits, end, c) && ReadClusters(v, c, length.value).Some?
  }

  ghost function Content(v: Volume, bits: seq<byte>, end: nat, c: nat): Image
    requires c <= end && Findable(v, bits, end, c)
  {
    Image(c, ReadClusters(v, c, ImageLength(SureWindow(v, bits, end, c)).value).value)
  }

  /** The bytes the volume stores from a free cluster on, as many as the headers there say, inside its free run. */
  ghost predicate Genuine(v: Volume, bits: seq<byte>, end: nat, image: Image) {
    var from, length := Offset(v, image.lcn), |image.bytes|;
    && image.lcn < end && Free(bits, image.lcn)
    && from + length <= |v.disk| && image.bytes == v.disk[from..from + length]
    && length <= Room(v, bits, end, image.lcn)
    && ImageLength(v.disk[from..]) == Some(length)
  }

  // ----- one image -----

  /** The bytes `Examine` takes from a window, if it takes any. */
  ghost function Taken(v: Volume, window: seq<byte>, lcn: nat, contiguous: nat, hashed: nat, bytesRead: nat)
    : Option<seq<byte>>
  {
    match ImageLength(window)
    case None => None
    case Some(length) =>
      if length > contiguous || hashed >= MAX_HASH_ATTEMPTS || bytesRead >= MAX_READ_BYTES then None
      else if length <= |window| then Some(window[..length])
      else ReadClusters(v, lcn, length)
  }

  method Examine(v: Volume, inspector: Inspector, window: seq<byte>, lcn: nat, contiguous: nat,
                 targets: seq<Target>, scan: Scan)
    requires scan.Counted(inspector, targets)
    modifies scan`headers, scan`hashed, scan`bytesRead, scan`hits, scan`images
    ensures scan.headers == SaturatingAdd(old(scan.headers), if ImageLength(window).Some? then 1 else 0)
    ensures var taken := Taken(v, window, lcn, contiguous, old(scan.hashed), old(scan.bytesRead));
      match taken
      case None =>
        && scan.images == old(scan.images) && scan.hits == old(scan.hits)
        && scan.hashed == old(scan.hashed) && scan.bytesRead == old(scan.bytesRead)
      case Some(bytes) =>
        && scan.images == old(scan.images) + [Image(lcn, bytes)]
        && scan.hits == HitsOf(inspector, targets, scan.images)
        && scan.hashed == old(scan.hashed) + 1
        && scan.bytesRead == old(scan.bytesRead) + (if |bytes| <= |window| then 0 else |bytes|)
        && |bytes| <= MAX_SAMPLE_BYTES
  {
    hide ImageLength, HitsOf, AddHits;
    var measured := PeImageLength(window);
    if measured == None { return; }
    scan.headers := SaturatingAdd(scan.headers, 1);
    var length := measured.value;
    if length > contiguous { return; }
    if scan.hashed >= MAX_HASH_ATTEMPTS || scan.bytesRead >= MAX_READ_BYTES { return; }
    var bytes;
    if length <= |window| {
      bytes := window[..length];
    } else {
      var read := ReadClusters(v, lcn, length);
      if read == None { return; }
      scan.bytesRead := SaturatingAdd(scan.bytesRead, length);
      bytes := read.value;
    }
    CompareImage(inspector, Image(lcn, bytes), targets, scan);
  }

  /** Hashes an image that was read whole and compares it with every target still missing its file. */
  method CompareImage(inspector: Inspector, image: Image, targets: seq<Target>, scan: Scan)
    requires scan.hits == HitsOf(inspector, targets, scan.images) && scan.hashed < MAX_HASH_ATTEMPTS
    modifies scan`hashed, scan`hits, scan`images
    ensures scan.images == old(scan.images) + [image]
    ensures scan.hits == HitsOf(inspector, targets, scan.images)
    ensures scan.hashed == old(scan.hashed) + 1
  {
    scan.hashed := SaturatingAdd(scan.hashed, 1);
    OneMoreImage(inspector, targets, scan.images, image);
    scan.hits := Compare(inspector, targets, image, scan.hits);
    scan.images := scan.images + [image];
  }

  // ----- one cluster -----

  /** `window` is what the volume stores from cluster c on, as far as the sure window and no further than the run. */
  ghost predicate Shows(v: Volume, bits: seq<byte>, end: nat, c: nat, window: seq<byte>) {
    && c < end && Free(bits, c)
    && Offset(v, c) + |window| <= |v.disk|
    && window == v.disk[Offset(v, c)..Offset(v, c) + |window|]
    && Min(Room(v, bits, end, c), HEADER_WINDOW) <= |window| <= Room(v, bits, end, c)
  }

  /** A findable image is measured the same from the window at hand, so the scan follows it. */
  lemma FindableIsMeasured(v: Volume, bits: seq<byte>, end: nat, c: nat, window: seq<byte>)
    requires Shows(v, bits, end, c, window) && Findable(v, bits, end, c)
    ensures |window| >= 2 && window[0] == 'M' as int && window[1] == 'Z' as int
    ensures ImageLength(window) == ImageLength(SureWindow(v, bits, end, c))
  {
    var sure := SureWindow(v, bits, end, c);
    assert sure <= window;
    MeasuredImagesStartWithTheirMark(sure);
    PrefixStable(sure, window);
  }

  /** ... and what it takes is the content stored there, whether the window holds it all or it is read again. */
  lemma FindableIsTaken(v: Volume, bits: seq<byte>, end: nat, c: nat, window: seq<byte>, hashed: nat, bytesRead: nat)
    requires Shows(v, bits, end, c, window) && Findable(v, bits, end, c)
    requires hashed < MAX_HASH_ATTEMPTS && bytesRead < MAX_READ_BYTES
    ensures Taken(v, window, c, Room(v, bits, end, c), hashed, bytesRead) == Some(Content(v, bits, end, c).bytes)
    ensures Content(v, bits, end, c).lcn == c
  {
    hide ImageLength;
    FindableIsMeasured(v, bits, end, c, window);
    var from, length := Offset(v, c), ImageLength(window).value;
    if length <= |window| {
      assert window[..length] == v.disk[from..from + length];
    }
  }

  /** ... and whatever it takes is genuine. */
  lemma TakenIsGenuine(v: Volume, bits: seq<byte>, end: nat, c: nat, window: seq<byte>, hashed: nat, bytesRead: nat)
    requires Shows(v, bits, end, c, window)
    requires Taken(v, window, c, Room(v, bits, end, c), hashed, bytesRead).Some?
    ensures Genuine(v, bits, end, Image(c, Taken(v, window, c, Room(v, bits, end, c), hashed, bytesRead).value))
  {
    hide ImageLength, Bit, NextTaken;
    var from, length := Offset(v, c), ImageLength(window).value;
    assert window <= v.disk[from..];
    PrefixStable(window, v.disk[from..]);
    if length <= |window| {
      assert window[..length] == v.disk[from..from + length];
    }
  }

  /** The test at one cluster start: two bytes decide whether the image is examined. */
  method TryCluster(v: Volume, inspector: Inspector, ghost bits: seq<byte>, ghost end: nat, window: seq<byte>,
                    lcn: nat, contiguous: nat, targets: seq<Target>, scan: Scan) returns (marked: bool)
    requires |window| >= 2 && scan.Counted(inspector, targets) && scan.headers + 1 < MAX_HEADERS + CHUNK
    requires Aligned(v) ==> scan.At(v, inspector, targets, bits, end, lcn) && Shows(v, bits, end, lcn, window)
                            && contiguous == Room(v, bits, end, lcn)
    modifies scan`headers, scan`hashed, scan`bytesRead, scan`hits, scan`images, scan`tested
    ensures scan.Counted(inspector, targets) && old(scan.headers) <= scan.headers <= old(scan.headers) + 1
    ensures scan.tested == old(scan.tested) + [lcn]
    ensures marked <==> window[0] == 'M' as int && window[1] == 'Z' as int
    ensures Aligned(v) ==> scan.At(v, inspector, targets, bits, end, lcn + 1)
  {
    hide ImageLength, HitsOf, Findable, NextTaken, Bit, Genuine, Content;
    ghost var before, already := scan.tested, scan.images;
    scan.tested := scan.tested + [lcn];
    marked := window[0] == 'M' as int && window[1] == 'Z' as int;
    if marked {
      Examine(v, inspector, window, lcn, contiguous, targets, scan);
    }
    if Aligned(v) {
      assert already <= scan.images;
      if already != scan.images {
        TakenIsGenuine(v, bits, end, lcn, window, old(scan.hashed), old(scan.bytesRead));
      }
      forall c <- scan.tested | c <= end && Findable(v, bits, end, c)
        ensures scan.OutOfAttempts() || Content(v, bits, end, c) in scan.images
      {
        if c == lcn {
          FindableIsMeasured(v, bits, end, c, window);
          if !old(scan.OutOfAttempts()) {
            FindableIsTaken(v, bits, end, c, window, old(scan.hashed), old(scan.bytesRead));
          }
        } else {
          assert c in before;
          assert old(scan.OutOfAttempts()) || Content(v, bits, end, c) in already;
        }
      }
    }
  }

  // ----- one chunk -----

  /** Clusters of a chunk that starts k clusters into a run. */
  ghost function InChunk(v: Volume, run: FreeRun, k: nat): nat
    requires v.clusterSize > 0 && k <= run.length
  {
    Min(run.length - k, CHUNK / v.clusterSize)
  }

  /** The scan stands k clusters into a run, and `buffer` is what the volume stores from there on. */
  ghost predicate Standing(v: Volume, bits: seq<byte>, end: nat, run: FreeRun, k: nat, at: nat, buffer: seq<byte>) {
    && k < run.length && at == Offset(v, k)
    && Maximal(bits, end, run)
    && Offset(v, run.lcn + k) + |buffer| <= |v.disk|
    && buffer == v.disk[Offset(v, run.lcn + k)..Offset(v, run.lcn + k) + |buffer|]
  }

  lemma Distribute(a: int, b: int, c: int)
    ensures (a + b) * c == a * c + b * c
  {
  }

  lemma AtLeast(a: nat, b: nat, c: nat)
    requires a < b
    ensures a * c + c <= b * c
  {
    Distribute(a + 1, b - a - 1, c);
    Distribute(a, 1, c);
    assert (b - a - 1) * c >= 0;
  }

  lemma WholeClusters(k: nat, c: nat)
    requires c > 0
    ensures k * c / c == k
  {
    var q: nat := k * c / c;
    if q < k {
      AtLeast(q, k, c);
    } else if k < q {
      AtLeast(k, q, c);
    }
  }

  /** Where the j-th cluster of a chunk lies, k clusters into its run. */
  lemma InsideChunk(length: nat, lcn: nat, k: nat, j: nat, size: nat)
    requires size >= 2 && CHUNK % size == 0 && k < length && j < Min(length - k, CHUNK / size)
    ensures j * size + size <= length * size - k * size && j * size + size <= CHUNK
    ensures (k * size + j * size) / size == k + j
    ensures length * size - (k * size + j * size) == (length - (k + j)) * size
    ensures (lcn + k + j) * size == (lcn + k) * size + j * size
  {
    Distribute(k, j, size);
    Distribute(lcn + k, j, size);
    Distribute(length - (k + j), k + j, size);
    WholeClusters(k + j, size);
    AtLeast(k + j, length, size);
    AtLeast(j, CHUNK / size, size);
  }

  lemma NextTakenInRun(bits: seq<byte>, end: nat, run: FreeRun, c: nat)
    requires Maximal(bits, end, run) && run.lcn <= c < run.End()
    ensures NextTaken(bits, end, c) == run.End()
  {
    hide Bit;
    var stop := NextTaken(bits, end, c);
    assert !(stop < run.End()) && !(run.End() < stop);
  }

  /** What the buffer shows at the j-th cluster of the chunk. */
  lemma ShowsInChunk(v: Volume, bits: seq<byte>, end: nat, run: FreeRun, k: nat, at: nat, buffer: seq<byte>, j: nat)
    requires Aligned(v) && Standing(v, bits, end, run, k, at, buffer) && j < InChunk(v, run, k)
    requires |buffer| == Min(Offset(v, run.length) - at, CHUNK + HEADER_WINDOW)
    ensures var offset, c := Offset(v, j), run.lcn + k + j;
      && offset + 2 <= Min(|buffer|, CHUNK)
      && ClusterAt(v, at + offset) == k + j
      && Offset(v, run.length) - (at + offset) == Room(v, bits, end, c)
      && Shows(v, bits, end, c, buffer[offset..])
  {
    hide Bit, NextTaken;
    NextTakenInRun(bits, end, run, run.lcn + k + j);
    InsideChunk(run.length, run.lcn, k, j, v.clusterSize);
    TailOf(v.disk, Offset(v, run.lcn + k), buffer, Offset(v, j));
  }

  lemma TailOf(disk: seq<byte>, from: nat, buffer: seq<byte>, offset: nat)
    requires from + |buffer| <= |disk| && buffer == disk[from..from + |buffer|] && offset <= |buffer|
    ensures buffer[offset..] == disk[from + offset..from + offset + |buffer[offset..]|]
  {
  }

  /** The inner loop: every cluster start of one chunk is tried, until every target has its hit. */
  method SearchChunk(v: Volume, inspector: Inspector, ghost bits: seq<byte>, ghost end: nat, run: FreeRun, at: nat,
                     buffer: seq<byte>, targets: seq<Target>, scan: Scan, ghost k: nat) returns (going: bool)
    requires v.clusterSize > 0
    requires at < Offset(v, run.length) && |buffer| == Min(Offset(v, run.length) - at, CHUNK + HEADER_WINDOW)
    requires scan.Counted(inspector, targets) && scan.headers < MAX_HEADERS
    requires Aligned(v) ==> Standing(v, bits, end, run, k, at, buffer)
                            && scan.At(v, inspector, targets, bits, end, run.lcn + k)
    modifies scan`headers, scan`hashed, scan`bytesRead, scan`hits, scan`images, scan`tested
    ensures scan.Counted(inspector, targets)
    ensures !going ==> |scan.hits| >= |targets|
    ensures Aligned(v) && going ==>
              scan.At(v, inspector, targets, bits, end, run.lcn + k + InChunk(v, run, k))
    ensures Aligned(v) ==> scan.Ordered(bits, run.End()) && scan.Thorough(v, bits, end)
  {
    hide ImageLength, HitsOf, NextTaken, Bit, Findable, FreeBelow, Maximal, Shows, Scan.Counted, Scan.Ordered,
      Scan.Thorough;
    var searchable := Min(|buffer|, CHUNK);
    var offset := 0;
    ghost var j := 0;
    while offset + 2 <= searchable
      invariant scan.Counted(inspector, targets) && scan.headers < MAX_HEADERS + offset
      invariant Aligned(v) ==> offset == Offset(v, j) && j <= InChunk(v, run, k)
      invariant Aligned(v) ==> scan.At(v, inspector, targets, bits, end, run.lcn + k + j)
    {
      if Aligned(v) {
        NotPastChunk(v, run.length, k, j, searchable);
        ShowsInChunk(v, bits, end, run, k, at, buffer, j);
        Distribute(j, 1, v.clusterSize);
      }
      var start := at + offset;
      var marked := TryCluster(v, inspector, bits, end, buffer[offset..], run.lcn + ClusterAt(v, start),
                               Offset(v, run.length) - start, targets, scan);
      if marked && |scan.hits| >= |targets| {
        if Aligned(v) { OrderedFurther(scan, bits, run.lcn + k + j + 1, run.End()); }
        return false;
      }
      offset := offset + v.clusterSize;
      j := j + 1;
    }
    if Aligned(v) && j < InChunk(v, run, k) {
      InsideChunk(run.length, run.lcn, k, j, v.clusterSize);
      assert false;
    }
    if Aligned(v) { OrderedFurther(scan, bits, run.lcn + k + j, run.End()); }
    going := true;
  }

  /** A cluster with room for two bytes before the end of the chunk is one of the chunk's clusters. */
  lemma NotPastChunk(v: Volume, length: nat, k: nat, j: nat, searchable: nat)
    requires Aligned(v) && k < length && j <= Min(length - k, CHUNK / v.clusterSize)
    requires searchable <= Min(Offset(v, length) - Offset(v, k), CHUNK) && Offset(v, j) < searchable
    ensures j < Min(length - k, CHUNK / v.clusterSize)
  {
    Distribute(length - k, k, v.clusterSize);
  }

  // ----- one run -----

  /** The limits, checked before each chunk; the clock may stop the scan at any of these points. */
  method Exhausted(scan: Scan) returns (r: Option<Stop>)
    ensures r == None ==> scan.bytesRead < MAX_READ_BYTES && scan.headers < MAX_HEADERS && scan.hashed < MAX_HASH_ATTEMPTS
    ensures r == Some(ReadLimit) ==> scan.bytesRead >= MAX_READ_BYTES
    ensures r == Some(HeaderLimit) ==> scan.headers >= MAX_HEADERS
    ensures r == Some(HashLimit) ==> scan.hashed >= MAX_HASH_ATTEMPTS
    ensures r.Some? ==> !r.value.Unreadable?
  {
    if scan.bytesRead >= MAX_READ_BYTES { return Some(ReadLimit); }
    if scan.headers >= MAX_HEADERS { return Some(HeaderLimit); }
    if scan.hashed >= MAX_HASH_ATTEMPTS { return Some(HashLimit); }
    if * { return Some(TimeLimit); }
    r := None;
  }

  /** The counter of searched clusters agrees with the clusters tried, as long as nothing stopped the scan. */
  ghost predicate Swept(v: Volume, scan: Scan, bits: seq<byte>, n: nat)
    reads scan
  {
    Aligned(v) && scan.Exhaustive() ==> scan.scannedClusters == |FreeBelow(bits, n)|
  }

  lemma OrderedFurther(scan: Scan, bits: seq<byte>, n: nat, m: nat)
    requires n <= m
    ensures scan.Ordered(bits, n) ==> scan.Ordered(bits, m)
  {
    hide Bit;
  }

  lemma RunBytesFit(v: Volume, length: nat)
    requires v.clusterSize <= CHUNK && length <= 8 * MAX_BITMAP_BYTES
    ensures Offset(v, length) <= U64_MAX
  {
    var most := 8 * MAX_BITMAP_BYTES;
    Distribute(length, most - length, v.clusterSize);
    assert (most - length) * v.clusterSize >= 0;
  }

  lemma {:induction false} FewFreeBelow(bits: seq<byte>, n: nat)
    ensures |FreeBelow(bits, n)| <= n
  {
    if n > 0 {
      FewFreeBelow(bits, n - 1);
    }
  }

  /** After one chunk the scan stands at the next one, or at the end of the run. */
  lemma NextChunk(v: Volume, length: nat, k: nat, at: nat)
    requires Aligned(v) && k < length && at == Offset(v, k)
    ensures var m := Min(length - k, CHUNK / v.clusterSize);
      && Min(Offset(v, length) - at, CHUNK) == Offset(v, m)
      && ClusterAt(v, Offset(v, m)) == m && ClusterAt(v, at) == k
      && (at + CHUNK < Offset(v, length) ==> k + m < length && at + CHUNK == Offset(v, k + m))
      && (at + CHUNK >= Offset(v, length) ==> k + m == length)
  {
    var size, whole := v.clusterSize, CHUNK / v.clusterSize;
    var m := Min(length - k, whole);
    WholeClusters(m, size);
    WholeClusters(k, size);
    Distribute(k, m, size);
    Distribute(k, length - k, size);
    assert whole * size == CHUNK;
    if m < whole { AtLeast(m, whole, size); }
    if k + m < length { AtLeast(k + m, length, size); }
  }

  /** The middle loop: reads one free run in chunks that overlap by a header window. */
  method SearchRun(v: Volume, inspector: Inspector, ghost bits: seq<byte>, ghost end: nat, run: FreeRun,
                   targets: seq<Target>, scan: Scan) returns (going: bool)
    requires 0 < v.clusterSize <= CHUNK && end <= 8 * MAX_BITMAP_BYTES && Maximal(bits, end, run)
    requires scan.Counted(inspector, targets)
    requires Aligned(v) ==> scan.At(v, inspector, targets, bits, end, run.lcn) && Swept(v, scan, bits, run.lcn)
    modifies scan`headers, scan`hashed, scan`bytesRead, scan`hits, scan`images, scan`tested, scan`stopped,
             scan`scannedClusters
    ensures scan.Counted(inspector, targets)
    ensures Aligned(v) ==> scan.Ordered(bits, run.End()) && scan.Thorough(v, bits, end)
    ensures going && Aligned(v) ==>
              scan.At(v, inspector, targets, bits, end, run.End()) && Swept(v, scan, bits, run.End())
    ensures !going ==> !scan.Exhaustive() || |scan.hits| >= |targets|
    ensures old(scan.stopped) <= scan.stopped
  {
    hide ImageLength, HitsOf, NextTaken, Bit, Findable, Content, FreeBelow, ClusterAt, Scan.Counted, Scan.Ordered,
      Scan.Thorough;
    RunBytesFit(v, run.length);
    var runBytes: u64 := Clamp(Offset(v, run.length));
    var at: nat := 0;
    ghost var k: nat := 0;
    while at < runBytes
      invariant scan.Counted(inspector, targets)
      invariant k <= run.length
      invariant Aligned(v) ==> if at < runBytes then at == Offset(v, k) && k < run.length else k == run.length
      invariant Aligned(v) ==> scan.At(v, inspector, targets, bits, end, run.lcn + k) && Swept(v, scan, bits, run.lcn + k)
      invariant old(scan.stopped) <= scan.stopped
    {
      ghost var m := if Aligned(v) then InChunk(v, run, k) else 0;
      if Aligned(v) {
        NextChunk(v, run.length, k, at);
      }
      var reason := Exhausted(scan);
      if reason.Some? {
        scan.stopped := scan.stopped + [reason.value];
        OrderedFurther(scan, bits, run.lcn + k, run.End());
        return false;
      }
      going := ReadChunk(v, inspector, bits, end, run, at, targets, scan, k);
      if !going { return false; }
      at, k := at + CHUNK, k + m;
    }
    going := true;
  }

  /** One chunk of a run: skipped and owned up to if it cannot be read, searched otherwise. */
  method ReadChunk(v: Volume, inspector: Inspector, ghost bits: seq<byte>, ghost end: nat, run: FreeRun, at: nat,
                   targets: seq<Target>, scan: Scan, ghost k: nat) returns (going: bool)
    requires 0 < v.clusterSize && end <= 8 * MAX_BITMAP_BYTES && Maximal(bits, end, run) && k <= run.length
    requires at < Offset(v, run.length)
    requires scan.Counted(inspector, targets) && scan.headers < MAX_HEADERS && scan.bytesRead < MAX_READ_BYTES
    requires Aligned(v) ==> at == Offset(v, k) && k < run.length && Swept(v, scan, bits, run.lcn + k)
                            && scan.At(v, inspector, targets, bits, end, run.lcn + k)
    modifies scan`headers, scan`hashed, scan`bytesRead, scan`hits, scan`images, scan`tested, scan`scannedClusters,
             scan`stopped
    ensures scan.Counted(inspector, targets)
    ensures !going ==> |scan.hits| >= |targets|
    ensures Aligned(v) ==> scan.Ordered(bits, run.End()) && scan.Thorough(v, bits, end)
    ensures Aligned(v) && going ==>
              && scan.At(v, inspector, targets, bits, end, run.lcn + k + InChunk(v, run, k))
              && Swept(v, scan, bits, run.lcn + k + InChunk(v, run, k))
    ensures old(scan.stopped) <= scan.stopped
  {
    hide ImageLength, HitsOf, NextTaken, Bit, Findable, Content, FreeBelow, ClusterAt, Scan.Counted, Scan.Ordered,
      Scan.Thorough;
    if Aligned(v) {
      NextChunk(v, run.length, k, at);
    }
    var want: nat := Min(Offset(v, run.length) - at, CHUNK + HEADER_WINDOW);
    var lcn := run.lcn + ClusterAt(v, at);
    var buffer := ReadClusters(v, lcn, want);
    if buffer == None {
      if scan.stopped == [] { scan.stopped := [Unreadable(lcn)]; }
      if Aligned(v) {
        OrderedFurther(scan, bits, run.lcn + k, run.End());
        OrderedFurther(scan, bits, run.lcn + k, run.lcn + k + InChunk(v, run, k));
      }
      return true;
    }
    going := SweepChunk(v, inspector, bits, end, run, at, buffer.value, targets, scan, k);
  }

  /** A chunk that was read: counted, then searched. */
  method SweepChunk(v: Volume, inspector: Inspector, ghost bits: seq<byte>, ghost end: nat, run: FreeRun, at: nat,
                    buffer: seq<byte>, targets: seq<Target>, scan: Scan, ghost k: nat) returns (going: bool)
    requires 0 < v.clusterSize && end <= 8 * MAX_BITMAP_BYTES && run.End() <= end && k <= run.length
    requires at < Offset(v, run.length) && |buffer| == Min(Offset(v, run.length) - at, CHUNK + HEADER_WINDOW)
    requires scan.Counted(inspector, targets) && scan.headers < MAX_HEADERS && scan.bytesRead < MAX_READ_BYTES
    requires Aligned(v) ==> Standing(v, bits, end, run, k, at, buffer) && Swept(v, scan, bits, run.lcn + k)
                            && scan.At(v, inspector, targets, bits, end, run.lcn + k)
    modifies scan`headers, scan`hashed, scan`bytesRead, scan`hits, scan`images, scan`tested, scan`scannedClusters
    ensures scan.Counted(inspector, targets)
    ensures !going ==> |scan.hits| >= |targets|
    ensures Aligned(v) ==> scan.Ordered(bits, run.End()) && scan.Thorough(v, bits, end)
    ensures Aligned(v) && going ==>
              && scan.At(v, inspector, targets, bits, end, run.lcn + k + InChunk(v, run, k))
              && Swept(v, scan, bits, run.lcn + k + InChunk(v, run, k))
  {
    hide ImageLength, HitsOf, NextTaken, Bit, Findable, Content, FreeBelow, Scan.Ordered;
    scan.bytesRead := SaturatingAdd(scan.bytesRead, |buffer|);
    var searchable := Min(|buffer|, CHUNK);
    scan.scannedClusters := SaturatingAdd(scan.scannedClusters, Clamp(ClusterAt(v, searchable)));
    if Aligned(v) {
      var m := InChunk(v, run, k);
      NextChunk(v, run.length, k, at);
      AllFreeBetween(bits, run.lcn + k, run.lcn + k + m);
      FewFreeBelow(bits, run.lcn + k + m);
    }
    going := SearchChunk(v, inspector, bits, end, run, at, buffer, targets, scan, k);
  }

  // ----- the whole scan -----

  /** The scan itself, over bits already read: every free run in address order, then stop. */
  method SearchRuns(v: Volume, inspector: Inspector, bits: seq<byte>, targets: seq<Target>, scan: Scan)
    requires 0 < v.clusterSize <= CHUNK && |bits| <= MAX_BITMAP_BYTES
    requires scan.Fresh()
    modifies scan`headers, scan`hashed, scan`bytesRead, scan`hits, scan`images, scan`tested, scan`stopped,
             scan`scannedClusters
    ensures scan.Counted(inspector, targets)
    ensures Aligned(v) ==>
              scan.Ordered(bits, Covered(bits, v.total)) && scan.Thorough(v, bits, Covered(bits, v.total))
    ensures Aligned(v) && scan.Exhaustive() && |scan.hits| < |targets| ==>
              && scan.tested == FreeBelow(bits, Covered(bits, v.total))
              && scan.scannedClusters == |scan.tested|
  {
    hide ImageLength, NextTaken, NextFree, Bit, Findable, Content, Maximal, Runs, FreeBelow, Scan.Counted, Scan.Ordered,
      Scan.Thorough;
    NothingScanned(v, inspector, targets, bits, Covered(bits, v.total), scan);
    var runs := new FreeRuns(bits, v.total);
    ghost var end := runs.end;
    var going := true;
    RunsAreTheMaximalOnes(bits, end, 0);
    while going
      invariant fresh(runs) && runs.bits == bits && runs.end == end && runs.at <= end
      invariant scan.Counted(inspector, targets)
      invariant Aligned(v) ==> scan.Ordered(bits, end) && scan.Thorough(v, bits, end)
      invariant going && Aligned(v) ==>
                  scan.At(v, inspector, targets, bits, end, runs.at) && Swept(v, scan, bits, runs.at)
      invariant going ==> forall run <- Runs(bits, end, runs.at) :: Maximal(bits, end, run)
      invariant !going ==> !scan.Exhaustive() || |scan.hits| >= |targets|
                           || (Aligned(v) ==> scan.At(v, inspector, targets, bits, end, end) && Swept(v, scan, bits, end))
      decreases going, end - runs.at
    {
      ghost var from := runs.at;
      var next := runs.Next();
      if next == None {
        NoneFreeAfter(bits, end, from);
        OrderedFurther(scan, bits, from, end);
        going := false;
      } else {
        assert next.value in Runs(bits, end, from);
        assert forall run <- Runs(bits, end, runs.at) :: run in Runs(bits, end, from);
        NoneFreeBefore(bits, end, from);
        OrderedFurther(scan, bits, from, next.value.lcn);
        going := SearchRun(v, inspector, bits, end, next.value, targets, scan);
        OrderedFurther(scan, bits, next.value.End(), end);
      }
    }
  }

  lemma NothingScanned(v: Volume, inspector: Inspector, targets: seq<Target>, bits: seq<byte>, end: nat, scan: Scan)
    requires scan.Fresh()
    ensures scan.At(v, inspector, targets, bits, end, 0) && Swept(v, scan, bits, 0)
    ensures scan.Ordered(bits, end) && scan.Thorough(v, bits, end)
    ensures FreeBelow(bits, 0) == []
  {
  }

  lemma NoneFreeAfter(bits: seq<byte>, end: nat, at: nat)
    requires at <= end && Runs(bits, end, at) == []
    ensures FreeBelow(bits, end) == FreeBelow(bits, at)
  {
    NoneFreeBetween(bits, at, NextFree(bits, end, at));
  }

  lemma NoneFreeBefore(bits: seq<byte>, end: nat, at: nat)
    requires at <= end && Runs(bits, end, at) != []
    ensures at <= Runs(bits, end, at)[0].lcn
    ensures FreeBelow(bits, Runs(bits, end, at)[0].lcn) == FreeBelow(bits, at)
  {
    NoneFreeBetween(bits, at, NextFree(bits, end, at));
  }

  /** The deep carve of a volume for the files still missing; `None` when there is nothing to search with or for. */
  method ScanVolume(v: Volume, inspector: Inspector, clusters: ClusterMap, targets: seq<Target>)
    returns (r: Option<Scan>)
    requires clusters.Remembers(v.bitmap) && (v.bitmap.Some? ==> |v.bitmap.value| <= MAX_BITMAP_BYTES)
    modifies clusters
    ensures clusters.Remembers(v.bitmap)
    ensures r == None <==> targets == [] || v.clusterSize == 0 || v.clusterSize > CHUNK || v.total == 0
                           || Credible(v.bitmap) == None
    ensures r.Some? ==> fresh(r.value) && r.value.Counted(inspector, targets)
    ensures r.Some? ==>
              r.value.freeClusters == |FreeBelow(v.bitmap.value, Covered(v.bitmap.value, v.total))|
    ensures r.Some? && Aligned(v) ==>
              var bits, scan := v.bitmap.value, r.value;
              var end := Covered(bits, v.total);
              && scan.Ordered(bits, end) && scan.Thorough(v, bits, end)
              && (scan.Exhaustive() && |scan.hits| < |targets| ==>
                    && scan.tested == FreeBelow(bits, end)
                    && scan.scannedClusters == scan.freeClusters)
  {
    hide Scan.Counted, Scan.Ordered, Scan.Thorough, FreeBelow;
    if targets == [] { return None; }
    if v.clusterSize == 0 || v.clusterSize > CHUNK { return None; }
    if v.total == 0 { return None; }
    var read := clusters.Bits(v.bitmap);
    if read == None { return None; }
    var scan := new Scan();
    scan.freeClusters := CountFree(read.value, v.total);
    SearchRuns(v, inspector, read.value, targets, scan);
    r := Some(scan);
  }

  /** The first pass over the free runs only adds up their lengths. */
  method CountFree(bits: seq<byte>, total: nat) returns (free: u64)
    requires |bits| <= MAX_BITMAP_BYTES
    ensures free == |FreeBelow(bits, Covered(bits, total))|
  {
    hide Bit, FreeBelow, Runs;
    var runs := new FreeRuns(bits, total);
    ghost var end := runs.end;
    RunsHoldTheFreeClusters(bits, end, 0);
    FewFreeBelow(bits, end);
    FewFreeBelow(bits, 0);
    free := 0;
    var more := true;
    while more
      invariant fresh(runs) && runs.bits == bits && runs.end == end && runs.at <= end
      invariant more ==> free + TotalLength(Runs(bits, end, runs.at)) == |FreeBelow(bits, end)|
      invariant !more ==> free == |FreeBelow(bits, end)|
      decreases more, end - runs.at
    {
      ghost var from := runs.at;
      var next := runs.Next();
      if next == None {
        more := false;
      } else {
        assert Runs(bits, end, from)[1..] == Runs(bits, end, runs.at);
        free := SaturatingAdd(free, Clamp(next.value.length));
      }
    }
  }

  // ----- what a scan establishes -----

  /** A target is hit whenever some free cluster holds an image that answers it and the scan could take, unless the
      scan stopped or met a limit on the way. */
  lemma WhatIsThereIsFound(v: Volume, inspector: Inspector, targets: seq<Target>, scan: Scan, bits: seq<byte>,
                           t: Target, c: nat)
    requires DistinctIndices(targets) && |targets| <= MAX_TARGETS && t in targets
    requires var end := Covered(bits, v.total);
      && scan.Counted(inspector, targets) && scan.Thorough(v, bits, end)
      && (|scan.hits| < |targets| ==> scan.tested == FreeBelow(bits, end))
      && c < end && Free(bits, c) && Findable(v, bits, end, c)
      && Answer(inspector, t, Content(v, bits, end, c).bytes).Some?
    requires !scan.OutOfAttempts()
    ensures Hits(scan.hits, t.index)
  {
    hide Findable, Content, Answer, Bit, HitsOf;
    if |scan.hits| >= |targets| {
      NothingLeftToFind(inspector, targets, scan.images, []);
    } else {
      FreeBelowIs(bits, Covered(bits, v.total));
      HitsAreFaithful(inspector, targets, scan.images);
      assert Searched(targets) == targets;
      assert c in scan.tested;
      assert HitByFirst(inspector, t, scan.images, scan.hits);
    }
  }

  /** A PE32 image of 224 bytes, headers and one empty section, in a cluster of 512. */
  function TinyImage(): (r: seq<byte>)
    ensures |r| == 512 && forall i | 0 <= i < 512 :: r[i] == TinyByte(i)
  {
    seq(512, i requires 0 <= i < 512 => TinyByte(i))
  }

  function TinyByte(i: nat): byte {
    match i
    case 0 => 'M' as int
    case 1 => 'Z' as int
    case 0x3c => 0x40
    case 0x40 => 0x50
    case 0x41 => 0x45
    case 0x46 => 1
    case 0x54 => 0x60
    case 0x58 => 0x0b
    case 0x59 => 0x01
    case 0x94 => 0xe0
    case _ => 0
  }

  lemma TinyWords()
    ensures var b := TinyImage();
      U16At(b, 0x46) == Some(1) && U16At(b, 0x54) == Some(0x60) && U16At(b, 0x58) == Some(PE32)
  {
    hide TinyImage;
  }

  lemma TinyHeaders()
    ensures var b := TinyImage();
      U32At(b, 0x3c) == Some(0x40) && U32At(b, 0x40) == Some(PE_SIGNATURE) && U32At(b, 0x94) == Some(0xe0)
  {
    hide TinyImage;
  }

  lemma TinyZeroes()
    ensures var b := TinyImage(); U32At(b, 0xb4) == U32At(b, 0xc8) == U32At(b, 0xcc) == Some(0)
  {
    hide TinyImage;
  }

  lemma OneSection(b: seq<byte>, table: nat, section: Extent)
    requires U32At(b, table + 16) == Some(section.size) && U32At(b, table + 20) == Some(section.start)
    ensures ReadSections(b, table, 1) == Some([section])
  {
    hide U32At;
    assert ReadSections(b, table, 0) == Some([]);
    assert [] + [section] == [section];
  }

  lemma TinyImageMeasures()
    ensures ImageLength(TinyImage()) == Some(224)
  {
    hide U16At, U32At, TinyImage;
    TinyWords();
    TinyHeaders();
    TinyZeroes();
    var b := TinyImage();
    OneSection(b, 0xb8, Extent(0, 0));
    assert ReadCertificate(b, 0xb4) == Some(None);
    var layout := Layout(0xe0, None, [Extent(0, 0)]);
    assert ReadLayout(b) == Some(layout);
    assert layout.sections[..0] == [];
    assert Reach(layout) == 0xe0;
  }

  /** What completeness promises is not empty: the second cluster of a volume of two, clear in its bitmap, holds such an
      image, and the scan can find it and take it. */
  lemma ATinyImageIsFindable(v: Volume, bits: seq<byte>)
    requires bits == [0xfd]
    requires v.disk == seq(512, i => 0) + TinyImage() && v.clusterSize == 512 && v.total == 2
    requires v.readable(1, 224)
    ensures Aligned(v) && Covered(bits, v.total) == 2 && Free(bits, 1) && !Free(bits, 0)
    ensures Findable(v, bits, 2, 1) && Content(v, bits, 2, 1) == Image(1, TinyImage()[..224])
  {
    hide ImageLength;
    TinyImageMeasures();
    assert Bit(bits, 1) == Some(false) && Bit(bits, 0) == Some(true);
    assert NextTaken(bits, 2, 2) == 2 && NextTaken(bits, 2, 1) == 2;
    assert v.disk[512..1024] == TinyImage();
    assert SureWindow(v, bits, 2, 1) == TinyImage();
    assert v.disk[512..512 + 224] == TinyImage()[..224];
  }

  /** A hit is on a target that was asked for; its bytes lie on the volume where it says, in a free run that holds them
      whole, as long as their own headers say; and they match the target in the way it says. */
  lemma HitsAreGenuine(v: Volume, inspector: Inspector, targets: seq<Target>, scan: Scan, bits: seq<byte>, end: nat, hit: Hit)
    requires DistinctIndices(targets) && scan.Counted(inspector, targets) && scan.Thorough(v, bits, end)
    requires hit in scan.hits
    ensures Genuine(v, bits, end, Image(hit.lcn, hit.bytes)) && hit.computed == inspector.digest(hit.bytes)
    ensures exists t <- Searched(targets) :: t.index == hit.index && Matches(inspector, t, hit.bytes, hit.matched)
  {
    hide HitsOf, Matches, Genuine, Findable, Content;
    HitsAreEarned(inspector, targets, scan.images, hit);
  }

  /** A hit carries the bytes of the lowest-addressed image that answers its target. */
  lemma LowestAddressWins(inspector: Inspector, targets: seq<Target>, scan: Scan, bits: seq<byte>, n: nat, hit: Hit)
    requires DistinctIndices(targets) && scan.Counted(inspector, targets) && scan.Ordered(bits, n) && hit in scan.hits
    ensures exists t <- Searched(targets) ::
              && t.index == hit.index
              && Image(hit.lcn, hit.bytes) in scan.images
              && Answer(inspector, t, hit.bytes) == Some(hit.matched)
              && forall image <- scan.images | Answer(inspector, t, image.bytes).Some? :: hit.lcn <= image.lcn
  {
    hide Answer, Bit, HitsOf, DistinctIndices, FirstAnswer;
    HitsAreFaithful(inspector, targets, scan.images);
    var t :| t in Searched(targets) && t.index == hit.index;
    assert HitByFirst(inspector, t, scan.images, scan.hits);
    FirstIsLowest(inspector, t, scan, bits, n);
    var first := FirstAnswer(inspector, t, scan.images).value;
    assert HitOf(inspector, t, first) in scan.hits;
    assert hit == HitOf(inspector, t, first);
  }

  lemma FirstIsLowest(inspector: Inspector, t: Target, scan: Scan, bits: seq<byte>, n: nat)
    requires scan.Ordered(bits, n)
    ensures var first := FirstAnswer(inspector, t, scan.images);
      first.Some? ==>
        && first.value in scan.images && Answer(inspector, t, first.value.bytes).Some?
        && forall image <- scan.images | Answer(inspector, t, image.bytes).Some? :: first.value.lcn <= image.lcn
  {
    hide Answer, Bit;
    var first := FirstAnswer(inspector, t, scan.images);
    if first.Some? {
      var i :| 0 <= i < |scan.images| && scan.images[i] == first.value
               && forall j | 0 <= j < i :: Answer(inspector, t, scan.images[j].bytes) == None;
      forall image <- scan.images | Answer(inspector, t, image.bytes).Some? ensures first.value.lcn <= image.lcn {
        var j :| 0 <= j < |scan.images| && scan.images[j] == image;
        assert !(j < i);
      }
    }
  }

  // ----- what the scan is asked to find -----

  const MIN_SELF_NAME_STEM := 3

  /** The facts about a candidate that decide whether free space is searched for it. */
  datatype Missing = Missing(recovered: bool, live: bool, recorded: Option<(string, FileHash)>, stem: Option<string>)

  function TargetFor(m: Missing, index: nat): Option<Target> {
    var stem := if m.stem.Some? && Utf8Length(m.stem.value) >= MIN_SELF_NAME_STEM then m.stem.value else "";
    if m.recovered || m.live || (m.recorded == None && stem == "") then None
    else Some(Target(index, m.recorded, stem))
  }

  /** Every target the order would give, in order. */
  ghost function Qualified(candidates: seq<Missing>, order: seq<nat>): seq<Target> {
    if order == [] then []
    else
      var earlier := Qualified(candidates, order[..|order| - 1]);
      var index := order[|order| - 1];
      if index < |candidates| && TargetFor(candidates[index], index).Some?
      then earlier + [TargetFor(candidates[index], index).value]
      else earlier
  }

  /** The first MAX_TARGETS of them. */
  method Targets(candidates: seq<Missing>, order: seq<nat>) returns (targets: seq<Target>)
    ensures targets == Searched(Qualified(candidates, order))
  {
    targets := [];
    for i := 0 to |order|
      invariant targets == Qualified(candidates, order[..i]) && |targets| <= MAX_TARGETS
    {
      if |targets| >= MAX_TARGETS {
        QualifiedGrows(candidates, order, i, |order|);
        assert order[..|order|] == order;
        break;
      }
      assert order[..i + 1][..i] == order[..i];
      var index := order[i];
      if index >= |candidates| { continue; }
      var target := TargetFor(candidates[index], index);
      if target.Some? {
        targets := targets + [target.value];
      }
    }
    assert order[..|order|] == order;
  }

  lemma {:induction false} QualifiedGrows(candidates: seq<Missing>, order: seq<nat>, some: nat, all: nat)
    requires some <= all <= |order|
    ensures Qualified(candidates, order[..some]) <= Qualified(candidates, order[..all])
    decreases all
  {
    if some < all {
      QualifiedGrows(candidates, order, some, all - 1);
      assert order[..all][..all - 1] == order[..all - 1];
    }
  }

  /** The targets are the candidates of the order that are neither recovered nor still on the volume, and that can be told
      by a recorded digest or by a name of at least three bytes. */
  lemma {:induction false} QualifiedAre(candidates: seq<Missing>, order: seq<nat>, t: Target)
    ensures t in Qualified(candidates, order) <==>
              exists i | 0 <= i < |order| ::
                order[i] == t.index < |candidates|
                && var m := candidates[t.index];
                   && !m.recovered && !m.live && t.recorded == m.recorded
                   && (if m.stem.Some? && Utf8Length(m.stem.value) >= 3 then t.stem == m.stem.value
                       else t.stem == "" && m.recorded.Some?)
  {
    if order != [] {
      var earlier := order[..|order| - 1];
      QualifiedAre(candidates, earlier, t);
      assert order == earlier + [order[|order| - 1]];
      assert forall i | 0 <= i < |earlier| :: order[i] == earlier[i];
    }
  }

  /** An order that names no candidate twice gives targets with distinct indices. */
  lemma {:induction false} TargetsAreDistinct(candidates: seq<Missing>, order: seq<nat>)
    requires forall i, j | 0 <= i < j < |order| :: order[i] != order[j]
    ensures forall t <- Qualified(candidates, order) :: t.index in order
    ensures DistinctIndices(Qualified(candidates, order)) && DistinctIndices(Searched(Qualified(candidates, order)))
  {
    if order != [] {
      TargetsAreDistinct(candidates, order[..|order| - 1]);
    }
  }
}
