/** The version resource the build script prints: a tree of aligned, length-prefixed nodes, and a decoder written from
    the VS_VERSIONINFO, StringFileInfo, StringTable, String, VarFileInfo and Var structures and the RESOURCEHEADER. */
module VersionResource {
  import opened Prelude
  import opened LittleEndian

  type Wide = seq<u16> // UTF-16 code units

  // ----- text and padding -----

  function Units(text: Wide): Buffer {
    if text == [] then [] else Le16(text[0]) + Units(text[1..])
  }

  /** The text as UTF-16, ended by a zero. */
  function WideText(text: Wide): Buffer { Units(text + [0]) }

  function Zeroes(n: nat): Buffer { seq(n, _ => 0) }

  /** Bytes missing to the next multiple of four. */
  function Gap(length: nat): nat { (4 - length % 4) % 4 }

  function Padded(out: Buffer): Buffer { out + Zeroes(Gap(|out|)) }

  method Pad(before: Buffer) returns (out: Buffer)
    ensures out == Padded(before)
  {
    out := before;
    while |out| % 4 != 0
      invariant |before| <= |out| <= |before| + Gap(|before|)
      invariant out == before + Zeroes(|out| - |before|)
      decreases |before| + 4 - |out|
    {
      out := out + [0];
    }
  }

  // ----- the node printer -----

  /** A node before its length is patched in. */
  ghost function Body(key: Wide, kind: u16, value: Buffer, units: nat, children: seq<Buffer>): Buffer {
    Lay(Padded([0, 0] + Le16(units % 0x1_0000) + Le16(kind) + WideText(key)) + value, children)
  }

  /** Children follow one another, each starting on a multiple of four. */
  ghost function Lay(out: Buffer, children: seq<Buffer>): Buffer
    decreases |children|
  {
    if children == [] then out else Lay(Padded(out) + children[0], children[1..])
  }

  ghost function Printed(key: Wide, kind: u16, value: Buffer, units: nat, children: seq<Buffer>): Option<Buffer> {
    var body := Body(key, kind, value, units, children);
    if 2 <= |body| <= U16_MAX then Some(Le16(|body|) + body[2..]) else None
  }

  /** `None` is the panic of a node past 64 KB; the value length is cut to 16 bits unchecked, as the build script does. */
  method Node(key: Wide, kind: u16, value: Buffer, units: nat, children: seq<Buffer>) returns (r: Option<Buffer>)
    ensures r == Printed(key, kind, value, units, children)
  {
    var out: Buffer := [0, 0];
    out := out + Le16(units % 0x1_0000);
    out := out + Le16(kind);
    out := out + WideText(key);
    out := Pad(out);
    out := out + value;
    for i := 0 to |children|
      invariant |out| >= 2
      invariant Lay(out, children[i..]) == Body(key, kind, value, units, children)
    {
      assert children[i..][0] == children[i] && children[i..][1..] == children[i + 1..];
      out := Pad(out);
      out := out + children[i];
    }
    if |out| > U16_MAX { return None; }
    var length := Le16(|out|);
    out := out[0 := length[0]][1 := length[1]];
    assert out == length + out[2..];
    r := Some(out);
  }

  // ----- the tree and its decoder -----

  /** A node of the resource: kind 1 holds text, whose length is counted in words, and kind 0 holds bytes. */
  datatype Tree = Tree(key: Wide, kind: u16, value: Buffer, children: seq<Tree>) {
    function ValueUnits(): nat { if kind == 1 then |value| / 2 else |value| }
  }

  /** What the format can express: keys without a zero, and text of whole words. */
  ghost predicate WellFormed(t: Tree) {
    && 0 !in t.key
    && (t.kind == 1 ==> |t.value| % 2 == 0)
    && forall child <- t.children :: WellFormed(child)
  }

  ghost function Print(t: Tree): Option<Buffer> {
    match PrintAll(t.children)
    case Some(children) => Printed(t.key, t.kind, t.value, t.ValueUnits(), children)
    case None => None
  }

  ghost function PrintAll(ts: seq<Tree>): (r: Option<seq<Buffer>>)
    ensures r.Some? ==> |r.value| == |ts|
  {
    if ts == [] then Some([])
    else
      match (Print(ts[0]), PrintAll(ts[1..]))
      case (Some(first), Some(rest)) => Some([first] + rest)
      case _ => None
  }

  function Align(at: nat): nat { at + Gap(at) }

  /** Words up to a zero, and the position past it. */
  function ReadText(b: Buffer, at: nat, stop: nat): (r: Option<(Wide, nat)>)
    requires stop <= |b|
    ensures r.Some? ==> at < r.value.1 <= stop
    decreases stop - at
  {
    if at + 2 > stop then None
    else if Read16(b, at) == 0 then Some(([], at + 2))
    else
      match ReadText(b, at + 2, stop)
      case Some((rest, next)) => Some(([Read16(b, at)] + rest, next))
      case None => None
  }

  /** One node at a position of the whole buffer: every boundary is a multiple of four counted from the buffer's start. */
  function DecodeNode(b: Buffer, at: nat, limit: nat): (r: Option<(Tree, nat)>)
    requires limit <= |b|
    ensures r.Some? ==> at < r.value.1 <= limit
    decreases limit - at, 1
  {
    if at + 6 > limit then None
    else
      var length, valueLength, kind := Read16(b, at), Read16(b, at + 2), Read16(b, at + 4);
      var stop: nat := at + length;
      if length < 6 || stop > limit then None
      else
        match ReadText(b, at + 6, stop)
        case None => None
        case Some((key, next)) =>
          var from := Align(next);
          var size: nat := if kind == 1 then 2 * valueLength as int else valueLength;
          if from + size > stop then None
          else
            match DecodeChildren(b, from + size, stop)
            case Some(children) => Some((Tree(key, kind, b[from..from + size], children), stop))
            case None => None
  }

  /** Nodes until the parent's length is used up. */
  function DecodeChildren(b: Buffer, at: nat, stop: nat): Option<seq<Tree>>
    requires stop <= |b|
    decreases stop - at, 2
  {
    var from := Align(at);
    if from >= stop then Some([])
    else
      match DecodeNode(b, from, stop)
      case None => None
      case Some((child, next)) =>
        match DecodeChildren(b, next, stop)
        case Some(rest) => Some([child] + rest)
        case None => None
  }

  // ----- what is printed decodes -----

  lemma {:induction false} UnitsLength(text: Wide)
    ensures |Units(text)| == 2 * |text|
  {
    if text != [] { UnitsLength(text[1..]); }
  }

  lemma Slice(b: Buffer, at: nat, whole: Buffer, i: nat, j: nat)
    requires Stored(b, at, whole) && 2 <= i <= j <= |whole|
    ensures b[at + i..at + j] == whole[i..j]
  {
    forall k | i <= k < j ensures b[at + k] == whole[k] {
      assert b[at + 2..at + |whole|][k - 2] == whole[2..][k - 2];
    }
  }

  lemma Word(b: Buffer, at: nat, stored: Buffer, i: nat, n: u16)
    requires at + |stored| <= |b| && b[at..at + |stored|] == stored
    requires i + 2 <= |stored| && stored[i..i + 2] == Le16(n)
    ensures Read16(b, at + i) == n
  {
    assert b[at + i] == b[at..at + |stored|][i] && b[at + i + 1] == b[at..at + |stored|][i + 1];
    assert stored[i] == stored[i..i + 2][0] && stored[i + 1] == stored[i..i + 2][1];
  }

  /** A zero-ended text stored in a buffer reads back. */
  lemma {:induction false} TextReadsBack(text: Wide, b: Buffer, at: nat, stop: nat)
    requires 0 !in text
    requires at + 2 * |text| + 2 <= stop <= |b|
    requires b[at..at + 2 * |text| + 2] == WideText(text)
    ensures ReadText(b, at, stop) == Some((text, at + 2 * |text| + 2))
  {
    var all, words := WideText(text), text + [0];
    assert all == Le16(words[0]) + Units(words[1..]);
    UnitsLength(words[1..]);
    Word(b, at, all, 0, words[0]);
    if text != [] {
      assert words[1..] == text[1..] + [0];
      assert b[at + 2..at + |all|] == all[2..];
      TextReadsBack(text[1..], b, at + 2, stop);
      assert text == [text[0]] + text[1..];
    }
  }

  lemma {:induction false} LayExtends(out: Buffer, children: seq<Buffer>)
    ensures out <= Lay(out, children)
    decreases |children|
  {
    if children != [] {
      LayExtends(Padded(out) + children[0], children[1..]);
    }
  }

  ghost function Head(t: Tree): Buffer {
    Padded([0, 0] + Le16(t.ValueUnits() % 0x1_0000) + Le16(t.kind) + WideText(t.key))
  }

  /** `whole` is stored from `at` on, except for the two bytes of its length, which are patched in last. */
  ghost predicate Stored(b: Buffer, at: nat, whole: Buffer) {
    2 <= |whole| && at + |whole| <= |b| && b[at + 2..at + |whole|] == whole[2..]
  }

  lemma PaddedLength(out: Buffer)
    ensures out <= Padded(out) && |Padded(out)| == Align(|out|) && |Padded(out)| % 4 == 0
  {
  }

  lemma {:induction false} ChildrenDecode(ts: seq<Tree>, printed: seq<Buffer>, out: Buffer, b: Buffer, at: nat)
    requires PrintAll(ts) == Some(printed) && forall t <- ts :: WellFormed(t)
    requires at % 4 == 0 && |out| >= 2 && Stored(b, at, Lay(out, printed))
    ensures DecodeChildren(b, at + |out|, at + |Lay(out, printed)|) == Some(ts)
    decreases ts, 0
  {
    hide Printed, DecodeNode, WellFormed, Print, Gap, Padded;
    if ts != [] {
      var first, from := printed[0], |Padded(out)|;
      var next, whole := Padded(out) + first, Lay(out, printed);
      assert printed[1..] == PrintAll(ts[1..]).value;
      LayExtends(next, printed[1..]);
      assert whole == Lay(next, printed[1..]);
      PaddedLength(out);
      AlignShifts(at, |out|);
      Slice(b, at, whole, from, |next|);
      assert whole[from..|next|] == next[from..] == first;
      assert Print(ts[0]) == Some(first);
      NodeDecodes(ts[0], first, b, at + from, at + |whole|);
      ChildrenDecode(ts[1..], printed[1..], next, b, at);
      assert DecodeNode(b, Align(at + |out|), at + |whole|) == Some((ts[0], at + |next|));
      assert ts == [ts[0]] + ts[1..];
    }
  }

  lemma AlignShifts(at: nat, n: nat)
    requires at % 4 == 0
    ensures Align(at + n) == at + Align(n)
  {
    SameRemainder(at / 4, n);
  }

  lemma SameRemainder(q: nat, n: nat)
    ensures (4 * q + n) % 4 == n % 4
  {
  }

  lemma PrefixSlice(part: Buffer, whole: Buffer, i: nat, j: nat)
    requires part <= whole && i <= j <= |part|
    ensures whole[i..j] == part[i..j]
  {
    assert whole[..|part|] == part;
  }

  lemma HeadLayout(t: Tree)
    ensures |Head(t)| == Align(8 + 2 * |t.key|) >= 8 + 2 * |t.key|
    ensures Head(t)[2..4] == Le16(t.ValueUnits() % 0x1_0000) && Head(t)[4..6] == Le16(t.kind)
    ensures Head(t)[6..8 + 2 * |t.key|] == WideText(t.key)
  {
    UnitsLength(t.key + [0]);
  }

  /** The key and the value of a stored node, read back from where the format puts them. */
  lemma HeadReads(t: Tree, body: Buffer, b: Buffer, at: nat)
    requires 0 !in t.key && at % 4 == 0
    requires Head(t) + t.value <= body && Stored(b, at, body)
    ensures var textEnd := at + 8 + 2 * |t.key|;
      && ReadText(b, at + 6, at + |body|) == Some((t.key, textEnd))
      && Align(textEnd) == at + |Head(t)|
      && b[at + |Head(t)|..at + |Head(t)| + |t.value|] == t.value
  {
    hide Head, Align, ReadText, WideText;
    var head, textEnd := Head(t), 8 + 2 * |t.key|;
    HeadLayout(t);
    AlignShifts(at, textEnd);
    PrefixSlice(head + t.value, body, 6, textEnd);
    PrefixSlice(head + t.value, body, |head|, |head| + |t.value|);
    assert (head + t.value)[6..textEnd] == head[6..textEnd];
    assert (head + t.value)[|head|..|head| + |t.value|] == t.value;
    Slice(b, at, body, 6, textEnd);
    Slice(b, at, body, |head|, |head| + |t.value|);
    TextReadsBack(t.key, b, at + 6, at + |body|);
  }

  lemma StoredUpToLength(printed: Buffer, body: Buffer, b: Buffer, at: nat)
    requires |body| >= 2 && |body| <= U16_MAX && printed == Le16(|body|) + body[2..]
    requires at + |printed| <= |b| && b[at..at + |printed|] == printed
    ensures |printed| == |body| && Stored(b, at, body)
  {
    forall k | 2 <= k < |body| ensures b[at + k] == body[k] {
      assert b[at..at + |printed|][k] == printed[k] == body[2..][k - 2];
    }
  }

  lemma PrintedParts(t: Tree, printed: Buffer)
    requires Print(t) == Some(printed)
    ensures PrintAll(t.children).Some?
    ensures var body := Lay(Head(t) + t.value, PrintAll(t.children).value);
      2 <= |body| <= U16_MAX && printed == Le16(|body|) + body[2..]
  {
    hide Lay, Le16, WideText;
  }

  /** One unfolding of the decoder, from what its parts read. */
  lemma Assembled(b: Buffer, at: nat, limit: nat, t: Tree, length: nat, next: nat, from: nat)
    requires 6 <= length && at + length <= limit <= |b|
    requires Read16(b, at) == length && Read16(b, at + 2) == t.ValueUnits() && Read16(b, at + 4) == t.kind
    requires ReadText(b, at + 6, at + length) == Some((t.key, next)) && Align(next) == from
    requires t.kind == 1 ==> |t.value| % 2 == 0
    requires from + |t.value| <= at + length && b[from..from + |t.value|] == t.value
    requires DecodeChildren(b, from + |t.value|, at + length) == Some(t.children)
    ensures DecodeNode(b, at, limit) == Some((t, at + length))
  {
    hide Read16, ReadText, Align, DecodeChildren;
    assert (if t.kind == 1 then 2 * t.ValueUnits() else t.ValueUnits()) == |t.value|;
  }

  /** A printed node decodes to its tree wherever it is stored on a multiple of four. */
  lemma {:induction false} NodeDecodes(t: Tree, printed: Buffer, b: Buffer, at: nat, limit: nat)
    requires WellFormed(t) && Print(t) == Some(printed)
    requires at % 4 == 0 && at + |printed| <= limit <= |b| && b[at..at + |printed|] == printed
    ensures |printed| >= 6 && DecodeNode(b, at, limit) == Some((t, at + |printed|))
    decreases t, 1
  {
    hide Head, Lay, ReadText, Align, WellFormed, Print, PrintAll, Le16, DecodeChildren, DecodeNode, Read16;
    PrintedParts(t, printed);
    var children := PrintAll(t.children).value;
    var before := Head(t) + t.value;
    var body := Lay(before, children);
    LayExtends(before, children);
    HeadLayout(t);
    ValueUnitsFit(t, body);
    StoredUpToLength(printed, body, b, at);
    Fields(t, printed, body, b, at);
    WellFormedParts(t);
    HeadReads(t, body, b, at);
    ChildrenDecode(t.children, children, before, b, at);
    Assembled(b, at, limit, t, |body|, at + 8 + 2 * |t.key|, at + |Head(t)|);
  }

  lemma WellFormedParts(t: Tree)
    requires WellFormed(t)
    ensures 0 !in t.key && (t.kind == 1 ==> |t.value| % 2 == 0)
    ensures forall child <- t.children :: WellFormed(child)
  {
  }

  /** A node that passes the 64 KB check has a value length that fits its field, so the unchecked cut loses nothing. */
  lemma ValueUnitsFit(t: Tree, body: Buffer)
    requires Head(t) + t.value <= body && |body| <= U16_MAX
    ensures t.ValueUnits() <= U16_MAX && t.ValueUnits() % 0x1_0000 == t.ValueUnits()
  {
  }

  lemma Fields(t: Tree, printed: Buffer, body: Buffer, b: Buffer, at: nat)
    requires Head(t) + t.value <= body && |body| <= U16_MAX && printed == Le16(|body|) + body[2..]
    requires t.ValueUnits() <= U16_MAX
    requires at + |printed| <= |b| && b[at..at + |printed|] == printed
    ensures Read16(b, at) == |body| && Read16(b, at + 2) == t.ValueUnits() && Read16(b, at + 4) == t.kind
  {
    hide Head, Le16, Read16;
    var head := Head(t);
    HeadLayout(t);
    LittleEndianLengths();
    assert printed[0..2] == Le16(|body|);
    assert printed[2..4] == body[2..4] == head[2..4];
    assert printed[4..6] == body[4..6] == head[4..6];
    Word(b, at, printed, 0, |body|);
    Word(b, at, printed, 2, t.ValueUnits());
    Word(b, at, printed, 4, t.kind);
  }

  // ----- and only that -----

  lemma {:induction false} TextHasNoZero(b: Buffer, at: nat, stop: nat)
    requires stop <= |b| && ReadText(b, at, stop).Some?
    ensures 0 !in ReadText(b, at, stop).value.0
    decreases stop - at
  {
    if Read16(b, at) != 0 {
      TextHasNoZero(b, at + 2, stop);
    }
  }

  lemma {:induction false} DecodedIsWellFormed(b: Buffer, at: nat, limit: nat)
    requires limit <= |b| && DecodeNode(b, at, limit).Some?
    ensures WellFormed(DecodeNode(b, at, limit).value.0)
    decreases limit - at, 1
  {
    hide Read16, ReadText;
    var stop: nat := at + Read16(b, at);
    var (key, next) := ReadText(b, at + 6, stop).value;
    TextHasNoZero(b, at + 6, stop);
    var t := DecodeNode(b, at, limit).value.0;
    DecodedChildrenAreWellFormed(b, Align(next) + |t.value|, stop);
  }

  lemma {:induction false} DecodedChildrenAreWellFormed(b: Buffer, at: nat, stop: nat)
    requires stop <= |b| && DecodeChildren(b, at, stop).Some?
    ensures forall t <- DecodeChildren(b, at, stop).value :: WellFormed(t)
    decreases stop - at, 2
  {
    hide DecodeNode, WellFormed, Gap;
    if Align(at) < stop {
      DecodedIsWellFormed(b, Align(at), stop);
      DecodedChildrenAreWellFormed(b, DecodeNode(b, Align(at), stop).value.1, stop);
    }
  }

  /** Round trip: a printed tree decodes to itself exactly when the format can express it. */
  lemma PrintedTreesDecode(t: Tree, printed: Buffer, b: Buffer, at: nat)
    requires Print(t) == Some(printed)
    requires at % 4 == 0 && at + |printed| <= |b| && b[at..at + |printed|] == printed
    ensures DecodeNode(b, at, at + |printed|) == Some((t, at + |printed|)) <==> WellFormed(t)
  {
    hide DecodeNode, WellFormed, Print;
    if WellFormed(t) {
      NodeDecodes(t, printed, b, at, at + |printed|);
    }
    if DecodeNode(b, at, at + |printed|).Some? {
      DecodedIsWellFormed(b, at, at + |printed|);
    }
  }


  /** A key that holds a zero prints, and does not come back. */
  lemma AKeyWithAZeroIsLost(t: Tree)
    requires t == Tree([0], 0, [], [])
    ensures Print(t).Some?
    ensures var printed := Print(t).value; DecodeNode(printed, 0, |printed|) != Some((t, |printed|))
  {
    hide DecodeNode;
    UnitsLength(t.key + [0]);
    assert Padded([0, 0] + Le16(t.ValueUnits() % 0x1_0000) + Le16(t.kind) + WideText(t.key)) + [] == Head(t);
    PaddedLength([0, 0] + Le16(t.ValueUnits() % 0x1_0000) + Le16(t.kind) + WideText(t.key));
    var printed := Print(t).value;
    assert 0 in t.key;
    assert printed[0..0 + |printed|] == printed;
    PrintedTreesDecode(t, printed, printed, 0);
  }

  // ----- the resource file -----

  const RT_VERSION := 16
  const LANGUAGE := 0x0409
  const CODEPAGE := 0x04B0
  const FIXED_BYTES := 52
  const HEADER_BYTES := 32
  const MOVEABLE_AND_PURE := 0x0030

  datatype Entry = Entry(typeId: u16, nameId: u16, flags: u16, language: u16, data: Buffer)

  /** An entry's header and data, the whole padded to a multiple of four. */
  function PrintedEntry(e: Entry): Buffer
    requires |e.data| <= U32_MAX
  {
    Padded(Header(e) + e.data)
  }

  function Header(e: Entry): Buffer
    requires |e.data| <= U32_MAX
  {
    Le32(|e.data|) + Le32(HEADER_BYTES)
    + Le16(U16_MAX) + Le16(e.typeId) + Le16(U16_MAX) + Le16(e.nameId)
    + Le32(0) + Le16(e.flags) + Le16(e.language) + Le32(0) + Le32(0)
  }

  method PrintEntry(typeId: u16, nameId: u16, flags: u16, language: u16, data: Buffer) returns (out: Buffer)
    requires |data| <= U32_MAX
    ensures out == PrintedEntry(Entry(typeId, nameId, flags, language, data))
  {
    out := Le32(|data|);
    out := out + Le32(HEADER_BYTES);
    out := out + Le16(U16_MAX);
    out := out + Le16(typeId);
    out := out + Le16(U16_MAX);
    out := out + Le16(nameId);
    out := out + Le32(0);
    out := out + Le16(flags);
    out := out + Le16(language);
    out := out + Le32(0);
    out := out + Le32(0);
    out := out + data;
    out := Pad(out);
  }

  /** One entry of a .res file: sizes, type and name given as ordinals, flags and language, then the data, aligned. */
  function DecodeEntry(b: Buffer, at: nat): (r: Option<(Entry, nat)>)
    ensures r.Some? ==> at < r.value.1 <= |b|
  {
    if at + HEADER_BYTES > |b| then None
    else
      var size: nat, header: nat := Read32(b, at), Read32(b, at + 4);
      if header != HEADER_BYTES || Read16(b, at + 8) != U16_MAX || Read16(b, at + 12) != U16_MAX
         || Align(at + header + size) > |b|
      then None
      else
        Some((Entry(Read16(b, at + 10), Read16(b, at + 14), Read16(b, at + 20), Read16(b, at + 22),
                    b[at + header..at + header + size]),
              Align(at + header + size)))
  }

  lemma Word32(b: Buffer, at: nat, stored: Buffer, i: nat, n: u32)
    requires at + |stored| <= |b| && b[at..at + |stored|] == stored
    requires i + 4 <= |stored| && stored[i..i + 4] == Le32(n)
    ensures Read32(b, at + i) == n
  {
    assert stored[i..i + 2] == stored[i..i + 4][..2] == Le16(n % 0x1_0000);
    assert stored[i + 2..i + 4] == stored[i..i + 4][2..] == Le16(n / 0x1_0000);
    Word(b, at, stored, i, n % 0x1_0000);
    Word(b, at, stored, i + 2, n / 0x1_0000);
  }

  lemma HeaderFields(e: Entry)
    requires |e.data| <= U32_MAX
    ensures var h := Header(e);
      && |h| == HEADER_BYTES && h[0..4] == Le32(|e.data|) && h[4..8] == Le32(HEADER_BYTES)
      && h[8..10] == Le16(U16_MAX) && h[10..12] == Le16(e.typeId)
      && h[12..14] == Le16(U16_MAX) && h[14..16] == Le16(e.nameId)
      && h[20..22] == Le16(e.flags) && h[22..24] == Le16(e.language)
  {
    hide Le16, Le32;
    assert forall n: u32 :: |Le32(n)| == 4 by { LittleEndianLengths(); }
    assert forall n: u16 :: |Le16(n)| == 2 by { LittleEndianLengths(); }
  }

  lemma LittleEndianLengths()
    ensures forall n: u16 :: |Le16(n)| == 2
    ensures forall n: u32 :: |Le32(n)| == 4
  {
  }

  /** A printed entry reads back wherever it is stored on a multiple of four. */
  lemma EntryDecodes(e: Entry, b: Buffer, at: nat)
    requires |e.data| <= U32_MAX && at % 4 == 0
    requires at + |PrintedEntry(e)| <= |b| && b[at..at + |PrintedEntry(e)|] == PrintedEntry(e)
    ensures DecodeEntry(b, at) == Some((e, at + |PrintedEntry(e)|))
  {
    hide Read16, Read32, Header, Le16, Le32, Align, PrintedEntry;
    var out, h := PrintedEntry(e), Header(e);
    HeaderFields(e);
    EntryLayout(e);
    AlignShifts(at, HEADER_BYTES + |e.data|);
    Word32(b, at, out, 0, |e.data|);
    Word32(b, at, out, 4, HEADER_BYTES);
    Word(b, at, out, 8, U16_MAX);
    Word(b, at, out, 10, e.typeId);
    Word(b, at, out, 12, U16_MAX);
    Word(b, at, out, 14, e.nameId);
    Word(b, at, out, 20, e.flags);
    Word(b, at, out, 22, e.language);
    WholeSlice(b, at, out, HEADER_BYTES, HEADER_BYTES + |e.data|);
  }

  lemma WholeSlice(b: Buffer, at: nat, whole: Buffer, i: nat, j: nat)
    requires at + |whole| <= |b| && b[at..at + |whole|] == whole && i <= j <= |whole|
    ensures b[at + i..at + j] == whole[i..j]
  {
    forall k | i <= k < j ensures b[at + k] == whole[k] {
      assert b[at..at + |whole|][k] == whole[k];
    }
  }

  lemma EntryLayout(e: Entry)
    requires |e.data| <= U32_MAX
    ensures var out, h := PrintedEntry(e), Header(e);
      && |out| == Align(HEADER_BYTES + |e.data|) && HEADER_BYTES + |e.data| <= |out|
      && out[HEADER_BYTES..HEADER_BYTES + |e.data|] == e.data
      && |h| == HEADER_BYTES
      && forall i, j | 0 <= i <= j <= HEADER_BYTES :: out[i..j] == h[i..j]
  {
    hide Header, Padded;
    HeaderFields(e);
    var out, h := PrintedEntry(e), Header(e);
    PaddedLength(h + e.data);
    PrefixSlice(h + e.data, out, HEADER_BYTES, HEADER_BYTES + |e.data|);
    forall i, j | 0 <= i <= j <= HEADER_BYTES ensures out[i..j] == h[i..j] {
      PrefixSlice(h + e.data, out, i, j);
      PrefixSlice(h, h + e.data, i, j);
    }
  }

  // ----- this program's resource -----

  function Ascii(s: string): (r: Wide)
    requires forall i | 0 <= i < |s| :: 0 < s[i] as int < 0x80
    ensures 0 !in r && |r| == |s|
  {
    seq(|s|, i requires 0 <= i < |s| => (s[i] as int) as u16)
  }

  /** What the package says of itself, and the version parsed into its numbers. */
  datatype Package = Package(
    name: Wide,
    version: Wide,
    description: Wide,
    repository: Wide,
    company: Wide,
    copyright: Wide,
    major: u16,
    minor: u16,
    patch: u16)

  function Dwords(words: seq<u32>): Buffer {
    if words == [] then [] else Le32(words[0]) + Dwords(words[1..])
  }

  /** The fixed part: signature, layout version, and the version twice, once for the file and once for the product. */
  function FixedWords(p: Package): seq<u32> {
    var most, least := 0x1_0000 * p.major as int + p.minor as int, 0x1_0000 * p.patch as int;
    [0xFEEF_04BD, 0x0001_0000, most, least, most, least, 0x3F, 0, 0x0004_0004, 1, 0, 0, 0]
  }

  function StringFields(p: Package): seq<(Wide, Wide)> {
    [(Ascii("Comments"), p.repository),
     (Ascii("CompanyName"), p.company),
     (Ascii("FileDescription"), p.description),
     (Ascii("FileVersion"), p.version),
     (Ascii("InternalName"), p.name),
     (Ascii("LegalCopyright"), p.copyright),
     (Ascii("OriginalFilename"), p.name + Ascii(".exe")),
     (Ascii("ProductName"), p.name),
     (Ascii("ProductVersion"), p.version)]
  }

  /** A String node for every field that has a value. */
  function Strings(fields: seq<(Wide, Wide)>): seq<Tree> {
    if fields == [] then []
    else
      var (key, value) := fields[|fields| - 1];
      Strings(fields[..|fields| - 1]) + if value == [] then [] else [TextNode(key, value)]
  }

  function TextNode(key: Wide, value: Wide): Tree { Tree(key, 1, WideText(value), []) }

  function StringTable(p: Package): Tree { Tree(Ascii("040904B0"), 1, [], Strings(StringFields(p))) }

  function Translation(): Tree { Tree(Ascii("Translation"), 0, Le16(LANGUAGE) + Le16(CODEPAGE), []) }

  function ResourceTree(p: Package): Tree {
    Tree(Ascii("VS_VERSION_INFO"), 0, Dwords(FixedWords(p)),
         [Tree(Ascii("StringFileInfo"), 1, [], [StringTable(p)]),
          Tree(Ascii("VarFileInfo"), 1, [], [Translation()])])
  }

  method Text(key: Wide, value: Wide) returns (r: Option<Buffer>)
    ensures r == Print(TextNode(key, value))
  {
    UnitsLength(value + [0]);
    r := Node(key, 1, WideText(value), |value| + 1, []);
  }

  ghost function Join(first: Option<Buffer>, rest: Option<seq<Buffer>>): Option<seq<Buffer>> {
    if first.Some? && rest.Some? then Some([first.value] + rest.value) else None
  }

  lemma PrintAllSplits(t: Tree, rest: seq<Tree>)
    ensures PrintAll([t] + rest) == Join(Print(t), PrintAll(rest))
  {
    hide Print;
    assert ([t] + rest)[0] == t && ([t] + rest)[1..] == rest;
  }

  lemma {:induction false} PrintAllAppends(ts: seq<Tree>, t: Tree)
    ensures PrintAll(ts + [t])
         == if PrintAll(ts).Some? && Print(t).Some? then Some(PrintAll(ts).value + [Print(t).value]) else None
  {
    hide Print, PrintAll;
    if ts == [] {
      PrintOne(t);
      NothingPrinted();
      assert ts + [t] == [t];
      if Print(t).Some? { assert [] + [Print(t).value] == [Print(t).value]; }
    } else {
      PrintAllAppends(ts[1..], t);
      PrintAllSplits(ts[0], ts[1..]);
      PrintAllSplits(ts[0], ts[1..] + [t]);
      assert ts + [t] == [ts[0]] + (ts[1..] + [t]) && ts == [ts[0]] + ts[1..];
      if Print(ts[0]).Some? && PrintAll(ts[1..]).Some? && Print(t).Some? {
        var first, rest, last := [Print(ts[0]).value], PrintAll(ts[1..]).value, [Print(t).value];
        assert first + (rest + last) == (first + rest) + last;
      }
    }
  }

  lemma NothingPrinted()
    ensures PrintAll([]) == Some([])
  {
  }

  lemma {:induction false} PrintAllMissing(fields: seq<(Wide, Wide)>, k: nat)
    requires k <= |fields| && PrintAll(Strings(fields[..k])) == None
    ensures PrintAll(Strings(fields)) == None
    decreases |fields| - k
  {
    hide Print, TextNode;
    if k == |fields| {
      assert fields[..k] == fields;
    } else {
      assert fields[..k + 1][..k] == fields[..k];
      PrintAllAppends(Strings(fields[..k]), TextNode(fields[k].0, fields[k].1));
      assert Strings(fields[..k]) + [] == Strings(fields[..k]);
      PrintAllMissing(fields, k + 1);
    }
  }

  method PrintStrings(fields: seq<(Wide, Wide)>) returns (r: Option<seq<Buffer>>)
    ensures r == PrintAll(Strings(fields))
  {
    hide Print, TextNode;
    var strings: seq<Buffer> := [];
    for i := 0 to |fields|
      invariant PrintAll(Strings(fields[..i])) == Some(strings)
    {
      assert fields[..i + 1][..i] == fields[..i];
      var (key, value) := fields[i];
      assert Strings(fields[..i]) + [] == Strings(fields[..i]);
      if value == [] { continue; }
      PrintAllAppends(Strings(fields[..i]), TextNode(key, value));
      var printed := Text(key, value);
      if printed == None {
        PrintAllMissing(fields, i + 1);
        return None;
      }
      strings := strings + [printed.value];
    }
    assert fields[..|fields|] == fields;
    r := Some(strings);
  }

  lemma PrintOne(t: Tree)
    ensures PrintAll([t]) == if Print(t).Some? then Some([Print(t).value]) else None
  {
    hide Print;
    PrintAllSplits(t, []);
    assert [t] + [] == [t];
    if Print(t).Some? { assert [Print(t).value] + [] == [Print(t).value]; }
  }

  lemma PrintTwo(t: Tree, u: Tree)
    ensures PrintAll([t, u])
         == if Print(t).Some? && Print(u).Some? then Some([Print(t).value, Print(u).value]) else None
  {
    hide Print, PrintAll;
    PrintOne(u);
    PrintAllSplits(t, [u]);
    assert [t] + [u] == [t, u];
    if Print(t).Some? && Print(u).Some? {
      assert [Print(t).value] + [Print(u).value] == [Print(t).value, Print(u).value];
    }
  }

  /** The version resource, printed from the leaves up; `None` is the panic of a node past 64 KB. */
  method VersionInfo(p: Package) returns (r: Option<Buffer>)
    ensures r == Print(ResourceTree(p))
  {
    hide Printed, Strings, Dwords, StringFields, Ascii;
    var tree := ResourceTree(p);
    var stringInfo, varInfo := tree.children[0], tree.children[1];
    PrintOne(StringTable(p));
    PrintOne(Translation());
    PrintTwo(stringInfo, varInfo);
    FixedLength(p);

    var strings := PrintStrings(StringFields(p));
    if strings == None { return None; }
    var table := Node(Ascii("040904B0"), 1, [], 0, strings.value);
    if table == None { return None; }
    var stringsForWindows := Node(Ascii("StringFileInfo"), 1, [], 0, [table.value]);
    if stringsForWindows == None { return None; }
    var translation := Le16(LANGUAGE) + Le16(CODEPAGE);
    var spoken := Node(Ascii("Translation"), 0, translation, |translation|, []);
    if spoken == None { return None; }
    var languages := Node(Ascii("VarFileInfo"), 1, [], 0, [spoken.value]);
    if languages == None { return None; }
    r := Node(Ascii("VS_VERSION_INFO"), 0, Dwords(FixedWords(p)), FIXED_BYTES, [stringsForWindows.value, languages.value]);
  }

  lemma {:induction false} DwordsLength(words: seq<u32>)
    ensures |Dwords(words)| == 4 * |words|
  {
    if words != [] { DwordsLength(words[1..]); }
  }

  lemma FixedLength(p: Package)
    ensures |Dwords(FixedWords(p))| == FIXED_BYTES
  {
    DwordsLength(FixedWords(p));
  }

  lemma {:induction false} DwordAt(words: seq<u32>, i: nat)
    requires i < |words|
    ensures 4 * i + 4 <= |Dwords(words)| && Read32(Dwords(words), 4 * i) == words[i]
  {
    DwordsLength(words);
    DwordsLength(words[1..]);
    var all := Dwords(words);
    if i == 0 {
      assert all[0..4] == Le32(words[0]);
      Word32(all, 0, all, 0, words[0]);
    } else {
      DwordAt(words[1..], i - 1);
      assert all[4..] == Dwords(words[1..]);
      assert all[4 * i..4 * i + 4] == Dwords(words[1..])[4 * (i - 1)..4 * (i - 1) + 4];
      SameDword(all, 4 * i, Dwords(words[1..]), 4 * (i - 1));
    }
  }

  lemma SameDword(b: Buffer, at: nat, c: Buffer, from: nat)
    requires at + 4 <= |b| && from + 4 <= |c| && b[at..at + 4] == c[from..from + 4]
    ensures Read32(b, at) == Read32(c, from)
  {
    var x, y := b[at..at + 4], c[from..from + 4];
    assert x[0] == b[at] && x[1] == b[at + 1] && x[2] == b[at + 2] && x[3] == b[at + 3];
    assert y[0] == c[from] && y[1] == c[from + 1] && y[2] == c[from + 2] && y[3] == c[from + 3];
  }

  /** The three version numbers come back from the fixed part, for the file and for the product alike. */
  lemma VersionReadsBack(p: Package)
    ensures var fixed := ResourceTree(p).value;
      && |fixed| == FIXED_BYTES && Read32(fixed, 0) == 0xFEEF_04BD
      && Read32(fixed, 8) == Read32(fixed, 16) && Read32(fixed, 12) == Read32(fixed, 20)
      && Read32(fixed, 8) / 0x1_0000 == p.major && Read32(fixed, 8) % 0x1_0000 == p.minor
      && Read32(fixed, 12) / 0x1_0000 == p.patch && Read32(fixed, 12) % 0x1_0000 == 0
      && Read32(fixed, 4) == 0x0001_0000 && Read32(fixed, 24) == 0x3F && Read32(fixed, 28) == 0
      && Read32(fixed, 32) == 0x0004_0004 && Read32(fixed, 36) == 1
      && Read32(fixed, 40) == Read32(fixed, 44) == Read32(fixed, 48) == 0
  {
    hide Dwords, Read32;
    var words := FixedWords(p);
    FixedLength(p);
    forall i | 0 <= i < 13 ensures Read32(ResourceTree(p).value, 4 * i) == words[i] {
      DwordAt(words, i);
    }
    assert words[0] == Read32(ResourceTree(p).value, 4 * 0) && words[1] == Read32(ResourceTree(p).value, 4 * 1);
    assert words[2] == Read32(ResourceTree(p).value, 4 * 2) && words[3] == Read32(ResourceTree(p).value, 4 * 3);
    assert words[4] == Read32(ResourceTree(p).value, 4 * 4) && words[5] == Read32(ResourceTree(p).value, 4 * 5);
    assert words[6] == Read32(ResourceTree(p).value, 4 * 6) && words[7] == Read32(ResourceTree(p).value, 4 * 7);
    assert words[8] == Read32(ResourceTree(p).value, 4 * 8) && words[9] == Read32(ResourceTree(p).value, 4 * 9);
    assert words[10] == Read32(ResourceTree(p).value, 4 * 10) && words[11] == Read32(ResourceTree(p).value, 4 * 11);
    assert words[12] == Read32(ResourceTree(p).value, 4 * 12);
  }

  method ResourceFile(p: Package) returns (r: Option<Buffer>)
    ensures r.Some? <==> Print(ResourceTree(p)).Some?
    ensures r.Some? ==> r.value == Entries(Print(ResourceTree(p)).value)
  {
    hide Print, ResourceTree;
    var out := PrintEntry(0, 0, 0, 0, []);
    var info := VersionInfo(p);
    if info == None { return None; }
    PrintedLength(ResourceTree(p));
    var version := PrintEntry(RT_VERSION, 1, MOVEABLE_AND_PURE, LANGUAGE, info.value);
    r := Some(out + version);
  }

  const EMPTY_ENTRY := Entry(0, 0, 0, 0, [])

  function VersionEntry(info: Buffer): Entry { Entry(RT_VERSION, 1, MOVEABLE_AND_PURE, LANGUAGE, info) }

  function Entries(info: Buffer): Buffer
    requires |info| <= U32_MAX
  {
    PrintedEntry(EMPTY_ENTRY) + PrintedEntry(VersionEntry(info))
  }

  lemma PrintedLength(t: Tree)
    ensures Print(t).Some? ==> |Print(t).value| <= U16_MAX
  {
    hide Body;
  }

  lemma {:induction false} StringsAreWellFormed(fields: seq<(Wide, Wide)>)
    requires forall i | 0 <= i < |fields| :: 0 !in fields[i].0
    ensures forall t <- Strings(fields) :: WellFormed(t)
  {
    if fields != [] {
      StringsAreWellFormed(fields[..|fields| - 1]);
      var (key, value) := fields[|fields| - 1];
      UnitsLength(value + [0]);
      assert WellFormed(TextNode(key, value));
    }
  }

  lemma ResourceIsWellFormed(p: Package)
    ensures WellFormed(ResourceTree(p))
  {
    hide Strings, StringFields, Dwords, Units;
    assert forall i | 0 <= i < |StringFields(p)| :: 0 !in StringFields(p)[i].0 by { StringKeys(p); }
    StringsAreWellFormed(StringFields(p));
    assert WellFormed(StringTable(p)) && WellFormed(Translation());
    assert forall t <- ResourceTree(p).children :: WellFormed(t);
  }

  lemma StringKeys(p: Package)
    ensures forall i | 0 <= i < |StringFields(p)| :: 0 !in StringFields(p)[i].0
  {
    hide Ascii;
  }

  /** Whatever the package says, the file holds the mandatory empty entry and one version resource, and a reader that
      knows only the formats gets back the whole tree from where the resource lies in the file. */
  lemma ResourceFileDecodes(p: Package, info: Buffer)
    requires Print(ResourceTree(p)) == Some(info)
    ensures |info| <= U16_MAX
    ensures var file, start := Entries(info), 2 * HEADER_BYTES;
      && DecodeEntry(file, 0) == Some((EMPTY_ENTRY, HEADER_BYTES))
      && DecodeEntry(file, HEADER_BYTES) == Some((VersionEntry(info), |file|))
      && start + |info| <= |file|
      && DecodeNode(file, start, start + |info|) == Some((ResourceTree(p), start + |info|))
  {
    hide Print, ResourceTree, PrintedEntry, DecodeEntry, DecodeNode;
    PrintedLength(ResourceTree(p));
    var first, second := PrintedEntry(EMPTY_ENTRY), PrintedEntry(VersionEntry(info));
    var file := Entries(info);
    EntryLayout(EMPTY_ENTRY);
    EntryLayout(VersionEntry(info));
    EntryDecodes(EMPTY_ENTRY, file, 0);
    EntryDecodes(VersionEntry(info), file, HEADER_BYTES);
    WholeSlice(file, HEADER_BYTES, second, HEADER_BYTES, HEADER_BYTES + |info|);
    ResourceIsWellFormed(p);
    PrintedTreesDecode(ResourceTree(p), info, file, 2 * HEADER_BYTES);
  }

  // ----- what the resource says -----

  ghost predicate Spells(key: Wide, name: string) {
    |key| == |name| && forall i | 0 <= i < |name| :: key[i] == name[i] as int
  }

  /** A value that is this text in UTF-16, ended by a zero. */
  ghost predicate HoldsText(value: Buffer, text: Wide) {
    && |value| == 2 * |text| + 2 && Read16(value, 2 * |text|) == 0
    && forall i | 0 <= i < |text| :: Read16(value, 2 * i) == text[i]
  }

  /** There is a string of this name exactly when there is a text for it, and it is that text. */
  ghost predicate Shows(strings: seq<Tree>, name: string, text: Wide) {
    && ((exists t <- strings :: Spells(t.key, name)) <==> text != [])
    && forall t <- strings | Spells(t.key, name) :: t.kind == 1 && t.children == [] && HoldsText(t.value, text)
  }

  lemma {:induction false} UnitsHold(text: Wide)
    ensures |Units(text)| == 2 * |text| && forall i | 0 <= i < |text| :: Read16(Units(text), 2 * i) == text[i]
  {
    if text != [] {
      var all, rest := Units(text), Units(text[1..]);
      UnitsHold(text[1..]);
      assert all == Le16(text[0]) + rest;
      forall i | 0 <= i < |text| ensures Read16(all, 2 * i) == text[i] {
        if i > 0 {
          assert all[2 * i] == rest[2 * (i - 1)] && all[2 * i + 1] == rest[2 * (i - 1) + 1];
          assert Read16(rest, 2 * (i - 1)) == text[1..][i - 1];
        }
      }
    }
  }

  lemma WideTextHolds(text: Wide)
    ensures HoldsText(WideText(text), text)
  {
    UnitsHold(text + [0]);
    var value := WideText(text);
    assert Read16(value, 2 * |text|) == (text + [0])[|text|];
    forall i | 0 <= i < |text| ensures Read16(value, 2 * i) == text[i] {
      assert Read16(value, 2 * i) == (text + [0])[i];
    }
  }

  lemma {:induction false} StringsAre(fields: seq<(Wide, Wide)>, t: Tree)
    ensures t in Strings(fields) <==>
              exists i | 0 <= i < |fields| :: fields[i].1 != [] && t == TextNode(fields[i].0, fields[i].1)
  {
    hide TextNode;
    if fields != [] {
      var earlier := fields[..|fields| - 1];
      StringsAre(earlier, t);
      assert fields == earlier + [fields[|fields| - 1]];
      assert forall i | 0 <= i < |earlier| :: fields[i] == earlier[i];
    }
  }

  ghost predicate DistinctKeys(fields: seq<(Wide, Wide)>) {
    forall i, j | 0 <= i < j < |fields| :: fields[i].0 != fields[j].0
  }

  lemma ShowsItsField(fields: seq<(Wide, Wide)>, i: nat, name: string)
    requires DistinctKeys(fields) && i < |fields| && Spells(fields[i].0, name)
    ensures Shows(Strings(fields), name, fields[i].1)
  {
    hide Strings, WideText, HoldsText;
    var (key, text) := fields[i];
    forall t <- Strings(fields) | Spells(t.key, name)
      ensures text != [] && t.kind == 1 && t.children == [] && HoldsText(t.value, text)
    {
      StringsAre(fields, t);
      var j :| 0 <= j < |fields| && fields[j].1 != [] && t == TextNode(fields[j].0, fields[j].1);
      assert fields[j].0 == key;
      assert !(i < j) && !(j < i);
      WideTextHolds(text);
    }
    if text != [] {
      StringsAre(fields, TextNode(key, text));
      assert TextNode(key, text) in Strings(fields) && Spells(TextNode(key, text).key, name);
    }
  }

  lemma FieldsAreDistinct(p: Package)
    ensures DistinctKeys(StringFields(p))
  {
    var fields := StringFields(p);
    forall i, j | 0 <= i < j < |fields| ensures fields[i].0 != fields[j].0 {
      assert |fields[i].0| != |fields[j].0| || fields[i].0[0] != fields[j].0[0];
    }
  }

  const NAMES: seq<string> :=
    ["Comments", "CompanyName", "FileDescription", "FileVersion", "InternalName", "LegalCopyright", "OriginalFilename",
     "ProductName", "ProductVersion"]

  lemma FieldsAreNamed(p: Package)
    ensures |StringFields(p)| == |NAMES|
    ensures forall i | 0 <= i < |NAMES| :: Spells(StringFields(p)[i].0, NAMES[i])
  {
  }

  /** Every string the package has is there under its own name, and no other. */
  ghost predicate ShowsPackage(strings: seq<Tree>, p: Package) {
    && Shows(strings, "Comments", p.repository) && Shows(strings, "CompanyName", p.company)
    && Shows(strings, "FileDescription", p.description) && Shows(strings, "FileVersion", p.version)
    && Shows(strings, "InternalName", p.name) && Shows(strings, "LegalCopyright", p.copyright)
    && Shows(strings, "OriginalFilename", p.name + [0x2e, 0x65, 0x78, 0x65]) // the name and ".exe"
    && Shows(strings, "ProductName", p.name) && Shows(strings, "ProductVersion", p.version)
    && (forall t <- strings :: exists i | 0 <= i < |NAMES| :: Spells(t.key, NAMES[i]))
    && KeysApart(strings)
  }

  ghost predicate KeysApart(strings: seq<Tree>) {
    forall i, j | 0 <= i < j < |strings| :: strings[i].key != strings[j].key
  }

  lemma OneMoreApart(strings: seq<Tree>, t: Tree)
    requires KeysApart(strings) && forall other <- strings :: other.key != t.key
    ensures KeysApart(strings + [t])
  {
  }

  lemma {:induction false} NoStringTwice(fields: seq<(Wide, Wide)>)
    requires DistinctKeys(fields)
    ensures KeysApart(Strings(fields))
  {
    hide KeysApart, WideText;
    if fields == [] {
      assert KeysApart([]) by { NoStrings(); }
    } else {
      var earlier, last := fields[..|fields| - 1], fields[|fields| - 1];
      NoStringTwice(earlier);
      forall t <- Strings(earlier) ensures t.key != last.0 {
        StringsAre(earlier, t);
        var i :| 0 <= i < |earlier| && t == TextNode(earlier[i].0, earlier[i].1);
        assert fields[i].0 != fields[|fields| - 1].0;
      }
      OneMoreApart(Strings(earlier), TextNode(last.0, last.1));
      if last.1 == [] {
        assert Strings(fields) == Strings(earlier);
      } else {
        assert Strings(fields) == Strings(earlier) + [TextNode(last.0, last.1)];
      }
    }
  }

  lemma NoStrings()
    ensures KeysApart([])
  {
  }

  lemma StringsSay(p: Package)
    ensures ShowsPackage(Strings(StringFields(p)), p)
  {
    hide Strings, Shows, Spells;
    var fields := StringFields(p);
    FieldsAreDistinct(p);
    FieldsAreNamed(p);
    forall i | 0 <= i < |fields| ensures Shows(Strings(fields), NAMES[i], fields[i].1) {
      ShowsItsField(fields, i, NAMES[i]);
    }
    assert Ascii(".exe") == [0x2e, 0x65, 0x78, 0x65];
    NoStringTwice(fields);
    var strings := Strings(fields);
    assert Shows(strings, NAMES[0], p.repository) && Shows(strings, NAMES[1], p.company);
    assert Shows(strings, NAMES[2], p.description) && Shows(strings, NAMES[3], p.version);
    assert Shows(strings, NAMES[4], p.name) && Shows(strings, NAMES[5], p.copyright);
    assert Shows(strings, NAMES[6], p.name + Ascii(".exe"));
    assert Shows(strings, NAMES[7], p.name) && Shows(strings, NAMES[8], p.version);
    forall t <- Strings(fields) ensures exists i | 0 <= i < |NAMES| :: Spells(t.key, NAMES[i]) {
      StringsAre(fields, t);
    }
  }

  /** What a reader of the file learns of the package: from the second entry, of type 16, name 1 and language 0x0409, a
      tree whose one string table, keyed with that language and code page 0x04B0, holds the package's strings under
      their names, and whose one translation says the same language and code page. */
  lemma ResourceSays(p: Package, info: Buffer, t: Tree)
    requires Print(ResourceTree(p)) == Some(info)
    requires |info| <= U16_MAX
    requires var file := Entries(info); |file| >= 64 + |info| && DecodeNode(file, 64, 64 + |info|) == Some((t, 64 + |info|))
    ensures var file := Entries(info);
      && DecodeEntry(file, 32).Some?
      && var entry := DecodeEntry(file, 32).value.0;
         entry.typeId == 16 && entry.nameId == 1 && entry.flags == 0x0030 && entry.language == 0x0409 && entry.data == info
    ensures Spells(t.key, "VS_VERSION_INFO") && t.kind == 0 && |t.children| == 2
    ensures var strings, variables := t.children[0], t.children[1];
      && Spells(strings.key, "StringFileInfo") && |strings.children| == 1
      && Spells(variables.key, "VarFileInfo") && |variables.children| == 1
      && var table, translation := strings.children[0], variables.children[0];
         && Spells(table.key, "040904B0") && ShowsPackage(table.children, p)
         && Spells(translation.key, "Translation") && translation.kind == 0 && translation.children == []
         && |translation.value| == 4 && Read16(translation.value, 0) == 0x0409 && Read16(translation.value, 2) == 0x04B0
  {
    hide Print, PrintedEntry, DecodeEntry, DecodeNode, Strings, StringFields, ShowsPackage, Dwords, FixedWords;
    ResourceFileDecodes(p, info);
    StringsSay(p);
    assert t == ResourceTree(p);
  }
}
