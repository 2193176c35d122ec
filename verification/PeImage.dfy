/** Measures a PE image by its own headers, the only length a carve from free space has. */
module PeImage {
  import opened Prelude
  import opened LittleEndian

  const PE_SIGNATURE := 0x0000_4550
  const PE32 := 0x010b
  const PE32_PLUS := 0x020b
  const CERTIFICATE_ENTRY := 4
  const SECTION_BYTES := 40

  function U16At(bytes: seq<byte>, at: nat): Option<u16> {
    if at + 2 <= |bytes| then Some(Read16(bytes, at)) else None
  }

  function U32At(bytes: seq<byte>, at: nat): Option<u32> {
    if at + 4 <= |bytes| then Some(Read32(bytes, at)) else None
  }

  /** A number is read exactly when all its bytes are there, the least significant first. */
  lemma NumbersAreRead(bytes: seq<byte>, at: nat)
    ensures U16At(bytes, at).Some? <==> at + 2 <= |bytes|
    ensures U32At(bytes, at).Some? <==> at + 4 <= |bytes|
    ensures at + 2 <= |bytes| ==> U16At(bytes, at).value as int == bytes[at] as int + 256 * bytes[at + 1] as int
    ensures at + 4 <= |bytes| ==>
              U32At(bytes, at).value as int
              == bytes[at] as int + 256 * bytes[at + 1] as int + 65536 * bytes[at + 2] as int
                 + 16777216 * bytes[at + 3] as int
  {
  }

  function DirectoryCountAt(magic: u16): nat { if magic == PE32 then 92 else 108 }

  /** A part of the file: where its bytes start and how many there are. */
  datatype Extent = Extent(start: u32, size: u32) {
    function End(): u64 { start as int + size }
  }

  /** The parts of the file that the headers account for. */
  datatype Layout = Layout(headers: u32, certificate: Option<Extent>, sections: seq<Extent>)

  /** The raw data of `count` sections described from `table` on. */
  function ReadSections(bytes: seq<byte>, table: nat, count: nat): (r: Option<seq<Extent>>)
    ensures r.Some? ==> |r.value| == count
  {
    if count == 0 then Some([])
    else
      var last := table + (count - 1) * SECTION_BYTES;
      match (ReadSections(bytes, table, count - 1), U32At(bytes, last + 16), U32At(bytes, last + 20))
      case (Some(earlier), Some(size), Some(start)) => Some(earlier + [Extent(start, size)])
      case _ => None
  }

  /** The certificate table's directory entry: missing, absent from a short directory, or present. */
  function ReadCertificate(bytes: seq<byte>, countAt: nat): Option<Option<Extent>> {
    match U32At(bytes, countAt)
    case None => None
    case Some(count) =>
      if count <= CERTIFICATE_ENTRY then Some(None)
      else
        var entry := countAt + 4 + CERTIFICATE_ENTRY * 8;
        match (U32At(bytes, entry), U32At(bytes, entry + 4))
        case (Some(address), Some(size)) => Some(Some(Extent(address, size)))
        case _ => None
  }

  /** What the optional header at `optional` and the section table after it account for. */
  function ReadOptional(bytes: seq<byte>, optional: nat, sections: u16, optionalSize: u16, magic: u16): Option<Layout> {
    match (U32At(bytes, optional + 60),
           ReadCertificate(bytes, optional + DirectoryCountAt(magic)),
           ReadSections(bytes, optional + optionalSize, sections))
    case (Some(headers), Some(certificate), Some(extents)) => Some(Layout(headers, certificate, extents))
    case _ => None
  }

  /** The layout a PE file declares, field by field; `None` when a field is missing or is not a PE file's. */
  function ReadLayout(bytes: seq<byte>): Option<Layout> {
    if |bytes| < 0x40 || bytes[0] != 'M' as int || bytes[1] != 'Z' as int then None
    else
      match U32At(bytes, 0x3c)
      case None => None
      case Some(lfanew) =>
        if lfanew < 0x40 || U32At(bytes, lfanew) != Some(PE_SIGNATURE) then None
        else
          match (U16At(bytes, lfanew + 6), U16At(bytes, lfanew + 20), U16At(bytes, lfanew + 24))
          case (Some(sections), Some(optionalSize), Some(magic)) =>
            if 1 <= sections <= 96 && (magic == PE32 || magic == PE32_PLUS)
            then ReadOptional(bytes, lfanew + 24, sections, optionalSize, magic)
            else None
          case _ => None
  }

  /** Everything that has an end in the file: the headers, a real certificate table, every section with raw data. */
  ghost predicate EndsAt(layout: Layout, end: int) {
    || end == layout.headers
    || (layout.certificate.Some? && layout.certificate.value.start > 0 && layout.certificate.value.size > 0
        && end == layout.certificate.value.End())
    || exists section <- layout.sections :: section.size > 0 && end == section.End()
  }

  /** The furthest of those ends. */
  ghost predicate Furthest(layout: Layout, n: int) {
    EndsAt(layout, n) && forall end | EndsAt(layout, end) :: end <= n
  }

  function FurthestSection(sections: seq<Extent>, from: u64): u64 {
    if sections == [] then from
    else
      var last := sections[|sections| - 1];
      var before := FurthestSection(sections[..|sections| - 1], from);
      if last.size == 0 then before else Max(before, last.End())
  }

  function CertificateEnd(layout: Layout): u64 {
    match layout.certificate
    case Some(c) => if c.start > 0 && c.size > 0 then Max(layout.headers, c.End()) else layout.headers
    case None => layout.headers
  }

  function Reach(layout: Layout): u64 {
    FurthestSection(layout.sections, CertificateEnd(layout))
  }

  function Accepted(end: u64): Option<u64> { if 0 < end <= MAX_SAMPLE_BYTES then Some(end) else None }

  /** The length of the image that starts these bytes, when its headers say one a sample may have. */
  function ImageLength(bytes: seq<byte>): (r: Option<u64>)
    ensures r.Some? ==> 0 < r.value <= MAX_SAMPLE_BYTES
  {
    match ReadLayout(bytes)
    case Some(layout) => Accepted(Reach(layout))
    case None => None
  }

  // ----- the parser -----

  method PeImageLength(bytes: seq<byte>) returns (r: Option<u64>)
    ensures r == ImageLength(bytes)
  {
    if |bytes| < 0x40 || bytes[0] != 'M' as int || bytes[1] != 'Z' as int {
      return None;
    }
    var found := U32At(bytes, 0x3c);
    if found == None { return None; }
    var lfanew := found.value;
    if lfanew < 0x40 { return None; }
    found := U32At(bytes, lfanew);
    if found != Some(PE_SIGNATURE) { return None; }
    var coff: nat := lfanew as nat + 4;
    var sections, optionalSize := U16At(bytes, coff + 2), U16At(bytes, coff + 16);
    if sections == None || optionalSize == None { return None; }
    if sections.value == 0 || sections.value > 96 { return None; }
    var optional := coff + 20;
    var magic := U16At(bytes, optional);
    if magic != Some(PE32) && magic != Some(PE32_PLUS) { return None; }
    r := MeasureOptional(bytes, optional, sections.value, optionalSize.value, magic.value);
  }

  method MeasureOptional(bytes: seq<byte>, optional: nat, sections: u16, optionalSize: u16, magic: u16)
    returns (r: Option<u64>)
    ensures var layout := ReadOptional(bytes, optional, sections, optionalSize, magic);
      r == if layout.Some? then Accepted(Reach(layout.value)) else None
  {
    hide U32At;
    var headers := U32At(bytes, optional + 60);
    if headers == None { return None; }
    var end: u64 := headers.value;

    var countAt := optional + if magic == PE32 then 92 else 108;
    var directoryBase := optional + if magic == PE32 then 96 else 112;
    var count := U32At(bytes, countAt);
    if count == None { return None; }
    if count.value > CERTIFICATE_ENTRY {
      var entry := directoryBase + CERTIFICATE_ENTRY * 8;
      var address, size := U32At(bytes, entry), U32At(bytes, entry + 4);
      if address == None || size == None { return None; }
      if address.value > 0 && size.value > 0 {
        end := Max(end, address.value as int + size.value);
      }
    }
    ghost var certificate := ReadCertificate(bytes, countAt).value;
    ghost var before := Layout(headers.value, certificate, []);
    assert end == CertificateEnd(before);
    r := MeasureSections(bytes, optional + optionalSize, sections, end);
    ghost var extents := ReadSections(bytes, optional + optionalSize, sections);
    assert extents.Some? ==> CertificateEnd(before.(sections := extents.value)) == end;
  }

  method MeasureSections(bytes: seq<byte>, table: nat, sections: nat, from: u64) returns (r: Option<u64>)
    ensures var extents := ReadSections(bytes, table, sections);
      r == if extents.Some? then Accepted(FurthestSection(extents.value, from)) else None
  {
    var end := from;
    for index := 0 to sections
      invariant ReadSections(bytes, table, index).Some?
      invariant end == FurthestSection(ReadSections(bytes, table, index).value, from)
    {
      var section := table + index * SECTION_BYTES;
      var rawSize, rawOffset := U32At(bytes, section + 16), U32At(bytes, section + 20);
      if rawSize == None || rawOffset == None {
        MissingSection(bytes, table, index + 1, sections);
        return None;
      }
      ghost var earlier := ReadSections(bytes, table, index).value;
      assert (earlier + [Extent(rawOffset.value, rawSize.value)])[..index] == earlier;
      if rawSize.value == 0 { continue; }
      end := Max(end, rawOffset.value as int + rawSize.value);
    }
    if end == 0 || end > MAX_SAMPLE_BYTES { return None; }
    r := Some(end);
  }

  lemma {:induction false} MissingSection(bytes: seq<byte>, table: nat, some: nat, all: nat)
    requires some <= all && ReadSections(bytes, table, some) == None
    ensures ReadSections(bytes, table, all) == None
    decreases all - some
  {
    if some < all {
      MissingSection(bytes, table, some + 1, all);
    }
  }

  // ----- what the length means -----

  lemma {:induction false} FurthestSectionIs(sections: seq<Extent>, from: u64)
    ensures var n := FurthestSection(sections, from);
      && from <= n
      && (forall section <- sections | section.size > 0 :: section.End() <= n)
      && (n == from || exists section <- sections :: section.size > 0 && section.End() == n)
  {
    if sections != [] {
      var earlier := sections[..|sections| - 1];
      FurthestSectionIs(earlier, from);
      assert sections == earlier + [sections[|sections| - 1]];
    }
  }

  lemma ReachIsFurthest(layout: Layout)
    ensures Furthest(layout, Reach(layout))
  {
    FurthestSectionIs(layout.sections, CertificateEnd(layout));
  }

  /** A length is given exactly when the headers can be read and their furthest end is a sample's; it is that end. */
  lemma LengthIsTheFurthestEnd(bytes: seq<byte>, n: int)
    ensures ImageLength(bytes) == Some(n)
       <==> ReadLayout(bytes).Some? && Furthest(ReadLayout(bytes).value, n) && 0 < n <= MAX_SAMPLE_BYTES
  {
    if ReadLayout(bytes).Some? {
      var layout := ReadLayout(bytes).value;
      ReachIsFurthest(layout);
      if Furthest(layout, n) {
        assert EndsAt(layout, Reach(layout)) && EndsAt(layout, n);
      }
    }
  }

  lemma {:induction false} SectionsStable(bytes: seq<byte>, longer: seq<byte>, table: nat, count: nat)
    requires bytes <= longer && ReadSections(bytes, table, count).Some?
    ensures ReadSections(longer, table, count) == ReadSections(bytes, table, count)
  {
    if count > 0 {
      SectionsStable(bytes, longer, table, count - 1);
    }
  }

  lemma FieldStable(bytes: seq<byte>, longer: seq<byte>, at: nat)
    requires bytes <= longer
    ensures U32At(bytes, at).Some? ==> U32At(longer, at) == U32At(bytes, at)
    ensures U16At(bytes, at).Some? ==> U16At(longer, at) == U16At(bytes, at)
  {
  }

  lemma OptionalStable(bytes: seq<byte>, longer: seq<byte>, optional: nat, sections: u16, optionalSize: u16, magic: u16)
    requires bytes <= longer && ReadOptional(bytes, optional, sections, optionalSize, magic).Some?
    ensures ReadOptional(longer, optional, sections, optionalSize, magic)
         == ReadOptional(bytes, optional, sections, optionalSize, magic)
  {
    hide U32At, ReadSections;
    var countAt := optional + DirectoryCountAt(magic);
    FieldStable(bytes, longer, optional + 60);
    FieldStable(bytes, longer, countAt);
    FieldStable(bytes, longer, countAt + 4 + CERTIFICATE_ENTRY * 8);
    FieldStable(bytes, longer, countAt + 4 + CERTIFICATE_ENTRY * 8 + 4);
    SectionsStable(bytes, longer, optional + optionalSize, sections);
  }

  lemma LayoutStable(bytes: seq<byte>, longer: seq<byte>)
    requires bytes <= longer && ReadLayout(bytes).Some?
    ensures ReadLayout(longer) == ReadLayout(bytes)
  {
    hide U16At, U32At, ReadOptional;
    var lfanew: nat := U32At(bytes, 0x3c).value;
    FieldStable(bytes, longer, 0x3c);
    FieldStable(bytes, longer, lfanew);
    FieldStable(bytes, longer, lfanew + 6);
    FieldStable(bytes, longer, lfanew + 20);
    FieldStable(bytes, longer, lfanew + 24);
    OptionalStable(bytes, longer, lfanew + 24, U16At(bytes, lfanew + 6).value, U16At(bytes, lfanew + 20).value,
                   U16At(bytes, lfanew + 24).value);
  }

  /** A length read from a window is the length read from any longer view of the same bytes. */
  lemma PrefixStable(bytes: seq<byte>, longer: seq<byte>)
    requires bytes <= longer && ImageLength(bytes).Some?
    ensures ImageLength(longer) == ImageLength(bytes)
  {
    hide ReadLayout, Reach;
    LayoutStable(bytes, longer);
  }

  lemma MeasuredImagesStartWithTheirMark(bytes: seq<byte>)
    requires ImageLength(bytes).Some?
    ensures |bytes| >= 2 && bytes[0] == 'M' as int && bytes[1] == 'Z' as int
  {
  }

  // ----- the headers, field by field -----

  /** A field of a structure: its name, its width in bytes, and where it begins. */
  datatype Field = Field(name: string, width: nat, at: nat)

  type Fields = seq<Field>

  /** The fields lie one after the other from the start, with nothing between them. */
  predicate Packed(fields: Fields) {
    && fields != [] && fields[0].at == 0
    && forall i | 0 < i < |fields| :: fields[i].at == fields[i - 1].at + fields[i - 1].width
  }

  function SizeOf(fields: Fields): nat
    requires fields != []
  {
    fields[|fields| - 1].at + fields[|fields| - 1].width
  }

  const DOS_HEADER: Fields := [
    Field("e_magic", 2, 0), Field("e_cblp", 2, 2), Field("e_cp", 2, 4), Field("e_crlc", 2, 6),
    Field("e_cparhdr", 2, 8), Field("e_minalloc", 2, 10), Field("e_maxalloc", 2, 12), Field("e_ss", 2, 14),
    Field("e_sp", 2, 16), Field("e_csum", 2, 18), Field("e_ip", 2, 20), Field("e_cs", 2, 22),
    Field("e_lfarlc", 2, 24), Field("e_ovno", 2, 26), Field("e_res", 8, 28), Field("e_oemid", 2, 36),
    Field("e_oeminfo", 2, 38), Field("e_res2", 20, 40), Field("e_lfanew", 4, 60)
  ]

  /** The signature and the COFF file header after it. */
  const NT_HEADERS: Fields := [
    Field("Signature", 4, 0), Field("Machine", 2, 4), Field("NumberOfSections", 2, 6), Field("TimeDateStamp", 4, 8),
    Field("PointerToSymbolTable", 4, 12), Field("NumberOfSymbols", 4, 16), Field("SizeOfOptionalHeader", 2, 20),
    Field("Characteristics", 2, 22)
  ]

  const OPTIONAL_HEADER: Fields := [
    Field("Magic", 2, 0), Field("MajorLinkerVersion", 1, 2), Field("MinorLinkerVersion", 1, 3),
    Field("SizeOfCode", 4, 4), Field("SizeOfInitializedData", 4, 8), Field("SizeOfUninitializedData", 4, 12),
    Field("AddressOfEntryPoint", 4, 16), Field("BaseOfCode", 4, 20), Field("BaseOfData", 4, 24),
    Field("ImageBase", 4, 28), Field("SectionAlignment", 4, 32), Field("FileAlignment", 4, 36),
    Field("MajorOperatingSystemVersion", 2, 40), Field("MinorOperatingSystemVersion", 2, 42),
    Field("MajorImageVersion", 2, 44), Field("MinorImageVersion", 2, 46), Field("MajorSubsystemVersion", 2, 48),
    Field("MinorSubsystemVersion", 2, 50), Field("Win32VersionValue", 4, 52), Field("SizeOfImage", 4, 56),
    Field("SizeOfHeaders", 4, 60), Field("CheckSum", 4, 64), Field("Subsystem", 2, 68),
    Field("DllCharacteristics", 2, 70), Field("SizeOfStackReserve", 4, 72), Field("SizeOfStackCommit", 4, 76),
    Field("SizeOfHeapReserve", 4, 80), Field("SizeOfHeapCommit", 4, 84), Field("LoaderFlags", 4, 88),
    Field("NumberOfRvaAndSizes", 4, 92)
  ]

  /** The PE32+ form. */
  const OPTIONAL_HEADER_PLUS: Fields := [
    Field("Magic", 2, 0), Field("MajorLinkerVersion", 1, 2), Field("MinorLinkerVersion", 1, 3),
    Field("SizeOfCode", 4, 4), Field("SizeOfInitializedData", 4, 8), Field("SizeOfUninitializedData", 4, 12),
    Field("AddressOfEntryPoint", 4, 16), Field("BaseOfCode", 4, 20), Field("ImageBase", 8, 24),
    Field("SectionAlignment", 4, 32), Field("FileAlignment", 4, 36), Field("MajorOperatingSystemVersion", 2, 40),
    Field("MinorOperatingSystemVersion", 2, 42), Field("MajorImageVersion", 2, 44),
    Field("MinorImageVersion", 2, 46), Field("MajorSubsystemVersion", 2, 48), Field("MinorSubsystemVersion", 2, 50),
    Field("Win32VersionValue", 4, 52), Field("SizeOfImage", 4, 56), Field("SizeOfHeaders", 4, 60),
    Field("CheckSum", 4, 64), Field("Subsystem", 2, 68), Field("DllCharacteristics", 2, 70),
    Field("SizeOfStackReserve", 8, 72), Field("SizeOfStackCommit", 8, 80), Field("SizeOfHeapReserve", 8, 88),
    Field("SizeOfHeapCommit", 8, 96), Field("LoaderFlags", 4, 104), Field("NumberOfRvaAndSizes", 4, 108)
  ]

  const SECTION_HEADER: Fields := [
    Field("Name", 8, 0), Field("VirtualSize", 4, 8), Field("VirtualAddress", 4, 12), Field("SizeOfRawData", 4, 16),
    Field("PointerToRawData", 4, 20), Field("PointerToRelocations", 4, 24), Field("PointerToLinenumbers", 4, 28),
    Field("NumberOfRelocations", 2, 32), Field("NumberOfLinenumbers", 2, 34), Field("Characteristics", 4, 36)
  ]

  lemma DosHeaderIsPacked()
    ensures Packed(DOS_HEADER)
  {
  }

  lemma DosHeader()
    ensures SizeOf(DOS_HEADER) == 64
    ensures DOS_HEADER[18].name == "e_lfanew" && DOS_HEADER[18].at == 60
  {
  }

  lemma NtHeaders()
    ensures Packed(NT_HEADERS) && SizeOf(NT_HEADERS) == 24
    ensures NT_HEADERS[0].name == "Signature" && NT_HEADERS[0].at == 0
    ensures NT_HEADERS[2].name == "NumberOfSections" && NT_HEADERS[2].at == 6
    ensures NT_HEADERS[6].name == "SizeOfOptionalHeader" && NT_HEADERS[6].at == 20
  {
  }

  lemma OptionalHeaderIsPacked()
    ensures Packed(OPTIONAL_HEADER)
  {
  }

  lemma OptionalHeader()
    ensures SizeOf(OPTIONAL_HEADER) == 96
    ensures OPTIONAL_HEADER[0].name == "Magic" && OPTIONAL_HEADER[0].at == 0
    ensures OPTIONAL_HEADER[20].name == "SizeOfHeaders" && OPTIONAL_HEADER[20].at == 60
    ensures OPTIONAL_HEADER[29].name == "NumberOfRvaAndSizes" && OPTIONAL_HEADER[29].at == 92
  {
  }

  lemma OptionalHeaderPlusIsPacked()
    ensures Packed(OPTIONAL_HEADER_PLUS)
  {
  }

  lemma OptionalHeaderPlus()
    ensures SizeOf(OPTIONAL_HEADER_PLUS) == 112
    ensures OPTIONAL_HEADER_PLUS[0].name == "Magic" && OPTIONAL_HEADER_PLUS[0].at == 0
    ensures OPTIONAL_HEADER_PLUS[19].name == "SizeOfHeaders" && OPTIONAL_HEADER_PLUS[19].at == 60
    ensures OPTIONAL_HEADER_PLUS[28].name == "NumberOfRvaAndSizes" && OPTIONAL_HEADER_PLUS[28].at == 108
  {
  }

  lemma SectionHeader()
    ensures Packed(SECTION_HEADER) && SizeOf(SECTION_HEADER) == 40
    ensures SECTION_HEADER[3].name == "SizeOfRawData" && SECTION_HEADER[3].at == 16
    ensures SECTION_HEADER[4].name == "PointerToRawData" && SECTION_HEADER[4].at == 20
  {
  }

  /** What the file's bytes declare, read at the places the format's structures give their fields: the DOS header, the NT
      headers it points to, the optional header of either form after them, its data directories, of which the fifth is
      the certificate table, and the section table after the optional header. */
  ghost predicate Declares(bytes: seq<byte>, layout: Layout) {
    && |bytes| >= SizeOf(DOS_HEADER) && bytes[0] == 'M' as int && bytes[1] == 'Z' as int
    && var lfanew := U32At(bytes, DOS_HEADER[18].at);
       && lfanew.Some? && lfanew.value as int >= SizeOf(DOS_HEADER)
       && DeclaresFrom(bytes, lfanew.value, layout)
  }

  ghost predicate DeclaresFrom(bytes: seq<byte>, nt: nat, layout: Layout) {
    var optional := nt + SizeOf(NT_HEADERS);
    var sections, optionalSize := U16At(bytes, nt + NT_HEADERS[2].at), U16At(bytes, nt + NT_HEADERS[6].at);
    && U32At(bytes, nt + NT_HEADERS[0].at) == Some(PE_SIGNATURE)
    && sections.Some? && optionalSize.Some? && 1 <= sections.value as int <= 96
    && ((U16At(bytes, optional + OPTIONAL_HEADER[0].at) == Some(0x10b)
         && U32At(bytes, optional + OPTIONAL_HEADER[20].at) == Some(layout.headers)
         && DeclaresCertificate(bytes, optional + OPTIONAL_HEADER[29].at, optional + SizeOf(OPTIONAL_HEADER), layout))
        || (U16At(bytes, optional + OPTIONAL_HEADER_PLUS[0].at) == Some(0x20b)
            && U32At(bytes, optional + OPTIONAL_HEADER_PLUS[19].at) == Some(layout.headers)
            && DeclaresCertificate(bytes, optional + OPTIONAL_HEADER_PLUS[28].at, optional + SizeOf(OPTIONAL_HEADER_PLUS),
                                   layout)))
    && |layout.sections| == sections.value
    && DeclaresSections(bytes, optional + optionalSize.value, layout.sections)
  }

  ghost predicate DeclaresCertificate(bytes: seq<byte>, countAt: nat, directories: nat, layout: Layout) {
    var count := U32At(bytes, countAt);
    && count.Some?
    && if count.value as int < 5 then layout.certificate == None
       else layout.certificate.Some?
            && U32At(bytes, directories + 4 * 8) == Some(layout.certificate.value.start)
            && U32At(bytes, directories + 4 * 8 + 4) == Some(layout.certificate.value.size)
  }

  ghost predicate DeclaresSections(bytes: seq<byte>, table: nat, sections: seq<Extent>) {
    forall i | 0 <= i < |sections| ::
      var header := table + i * SizeOf(SECTION_HEADER);
      && U32At(bytes, header + SECTION_HEADER[3].at) == Some(sections[i].size)
      && U32At(bytes, header + SECTION_HEADER[4].at) == Some(sections[i].start)
  }

  lemma {:induction false} SectionsAreDeclared(bytes: seq<byte>, table: nat, sections: seq<Extent>)
    ensures ReadSections(bytes, table, |sections|) == Some(sections) <==> DeclaresSections(bytes, table, sections)
  {
    hide U32At;
    SectionHeader();
    if sections != [] {
      var earlier, last := sections[..|sections| - 1], sections[|sections| - 1];
      SectionsAreDeclared(bytes, table, earlier);
      assert sections == earlier + [last];
      assert forall i | 0 <= i < |earlier| :: sections[i] == earlier[i];
      var read := ReadSections(bytes, table, |earlier|);
      if read.Some? && DeclaresSections(bytes, table, sections) {
        assert DeclaresSections(bytes, table, earlier);
      }
    }
  }

  /** The parser reads exactly the layout the format declares. */
  lemma LayoutIsTheFormats(bytes: seq<byte>, layout: Layout)
    ensures ReadLayout(bytes) == Some(layout) <==> Declares(bytes, layout)
  {
    hide U16At, U32At, ReadSections, DeclaresSections;
    DosHeader();
    NtHeaders();
    OptionalHeader();
    OptionalHeaderPlus();
    var lfanew := U32At(bytes, 0x3c);
    if lfanew.Some? {
      var nt: nat := lfanew.value;
      var optionalSize := U16At(bytes, nt + 20);
      if optionalSize.Some? {
        SectionsAreDeclared(bytes, nt + 24 + optionalSize.value, layout.sections);
      }
    }
  }
}
