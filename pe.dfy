/** The PE loader (src/format/pe.rs). It decodes just enough of a PE image
    to reach its section table, following the Microsoft PE/COFF
    specification: the MS-DOS stub's `e_lfanew` at 0x3C (section 3.1), the
    "PE\0\0" signature (section 3.2), the COFF File Header (section 3.3),
    two fields of the optional header (sections 3.4.1 and 3.4.2), and the
    40-byte entries of the Section Table (section 4). Every read is a
    little-endian read at a fixed offset of an untrusted buffer. */
module Pe {
  import opened Common
  import opened Cpu
  import opened Sections

  const DOS_SIGNATURE: seq<byte> := [0x4D, 0x5A]            // "MZ"
  const NT_SIGNATURE: seq<byte> := [0x50, 0x45, 0x00, 0x00] // "PE\0\0"

  /** Offset of `e_lfanew` in the MS-DOS header. */
  const E_LFANEW: nat := 0x3C
  /** Size of the signature and the COFF File Header together. */
  const FILE_HEADER_SIZE: nat := 24
  /** Size of one Section Table entry. */
  const SECTION_HEADER_SIZE: nat := 40
  /** Offset of `AddressOfEntryPoint` in both optional-header layouts. */
  const ENTRY_POINT_OFFSET: nat := 16

  const MACHINE_I386: nat := 0x014C
  const MACHINE_X86_64: nat := 0x8664
  const MACHINE_ARM64: nat := 0xAA64

  /** What `PeParser::parse` keeps: the whole buffer and the header fields
      the section iterator needs. */
  datatype PeParser = PeParser(
    bytes: seq<byte>,
    machine: CpuType,
    numberOfSections: nat,
    sectionTableOffset: nat,
    imageBase: nat,
    entryPoint: nat)

  /** The machine types the parser accepts. */
  function MachineOf(m: nat): (r: Option<CpuType>)
    ensures r.Some? <==> m in {MACHINE_I386, MACHINE_X86_64, MACHINE_ARM64}
  {
    if m == MACHINE_I386 then Some(X86)
    else if m == MACHINE_X86_64 then Some(X64)
    else if m == MACHINE_ARM64 then Some(ARM64)
    else None
  }

  /** The parser agrees with the COFF machine mapping of the CPU module on
      every machine it accepts; of the machines that mapping knows, it
      rejects only the two 32-bit ARM ones. */
  lemma MachineOfAgreesWithCoff(m: nat)
    ensures MachineOf(m).Some? ==> FromCoffMachine(m) == Ok(MachineOf(m).value)
    ensures FromCoffMachine(m).Ok? && MachineOf(m).None? <==>
      m == COFF_MACHINE_ARM || m == COFF_MACHINE_ARMNT
  {
  }

  /** Offset of `ImageBase` in the optional header: 28 in the PE32 layout
      (after `BaseOfData`), 24 in the PE32+ layout. */
  function ImageBaseOffset(machine: CpuType): nat
  {
    if machine == X86 then 28 else 24
  }

  predicate HasDosSignature(b: seq<byte>)
  {
    |b| >= 2 && b[..2] == DOS_SIGNATURE
  }

  predicate HasNtSignature(b: seq<byte>, at: nat)
  {
    at + 4 <= |b| && b[at..at + 4] == NT_SIGNATURE
  }

  /** `PeParser::parse`, with its early returns and its panics, in the
      order the source performs them. Only the low four bytes of a PE32+
      `ImageBase` are read. */
  function Parse(bytes: seq<byte>): (r: Outcome<PeParser>)
    ensures r.Ok? ==> r.value.bytes == bytes && r.value.numberOfSections < 0x1_0000
  {
    if !HasDosSignature(bytes) then Err(InvalidMagicParsingError)
    else if |bytes| < E_LFANEW + 4 then Panic
    else
      var peOffset := U32At(bytes, E_LFANEW);
      if !HasNtSignature(bytes, peOffset) then Err(InvalidStructureParsingError)
      else
        var peHeader := bytes[peOffset..];
        if |peHeader| < 6 then Panic
        else
          match MachineOf(U16At(peHeader, 4))
          case None => Err(UnsupportedCpuError)
          case Some(machine) =>
            // `NumberOfSections` at 6..8, `SizeOfOptionalHeader` at 20..22
            if |peHeader| < 22 then Panic
            else
              var numberOfSections := U16At(peHeader, 6);
              var sizeOfOptionalHeader := U16At(peHeader, 20);
              var sectionTableOffset := peOffset + FILE_HEADER_SIZE + sizeOfOptionalHeader;
              if |peHeader| < FILE_HEADER_SIZE then Panic
              else
                var optHeader := peHeader[FILE_HEADER_SIZE..];
                var imageBaseOffset := ImageBaseOffset(machine);
                if |optHeader| < imageBaseOffset + 4 then Panic
                else
                  var imageBase := U32At(optHeader, imageBaseOffset);
                  var entryPoint := U32At(optHeader, ENTRY_POINT_OFFSET);
                  Ok(PeParser(bytes, machine, numberOfSections, sectionTableOffset, imageBase, entryPoint))
  }

  /** How `parse` ends, for every buffer: each error return and the panic
      case, stated on the buffer's absolute offsets. */
  lemma {:induction false} ParseOutcome(b: seq<byte>)
    ensures Parse(b) == Err(InvalidMagicParsingError) <==> !HasDosSignature(b)
    ensures Parse(b) == Err(InvalidStructureParsingError) <==>
      HasDosSignature(b) && |b| >= 0x40 && !HasNtSignature(b, U32At(b, E_LFANEW))
    ensures Parse(b) == Err(UnsupportedCpuError) <==>
      HasDosSignature(b) && |b| >= 0x40 && HasNtSignature(b, U32At(b, E_LFANEW))
      && U32At(b, E_LFANEW) + 6 <= |b| && MachineOf(U16At(b, U32At(b, E_LFANEW) + 4)).None?
    ensures Parse(b).Panic? <==>
      HasDosSignature(b) &&
      (|b| < 0x40 ||
       (HasNtSignature(b, U32At(b, E_LFANEW)) &&
        (U32At(b, E_LFANEW) + 6 > |b| ||
         (MachineOf(U16At(b, U32At(b, E_LFANEW) + 4)).Some? &&
          U32At(b, E_LFANEW) + FILE_HEADER_SIZE
            + ImageBaseOffset(MachineOf(U16At(b, U32At(b, E_LFANEW) + 4)).value) + 4 > |b|))))
  {
    if HasDosSignature(b) && |b| >= 0x40 {
      var po := U32At(b, E_LFANEW);
      if HasNtSignature(b, po) && po + 6 <= |b| {
        LeAtSuffix(b, po, 4, 2);
      }
    }
  }

  /** What a successful `parse` keeps, read at the buffer's absolute
      offsets: the machine at `e_lfanew + 4`, the section count at
      `e_lfanew + 6`, the section table after the optional header whose
      size is at `e_lfanew + 20`, and the image base and entry point
      inside the optional header. */
  lemma {:induction false} ParseFields(b: seq<byte>)
    requires Parse(b).Ok?
    ensures var p := Parse(b).value; var po := U32At(b, E_LFANEW);
      && HasDosSignature(b) && HasNtSignature(b, po)
      && po + FILE_HEADER_SIZE + ImageBaseOffset(p.machine) + 4 <= |b|
      && MachineOf(U16At(b, po + 4)) == Some(p.machine)
      && p.numberOfSections == U16At(b, po + 6)
      && p.sectionTableOffset == po + FILE_HEADER_SIZE + U16At(b, po + 20)
      && p.imageBase == U32At(b, po + FILE_HEADER_SIZE + ImageBaseOffset(p.machine))
      && p.entryPoint == U32At(b, po + FILE_HEADER_SIZE + ENTRY_POINT_OFFSET)
  {
    var po := U32At(b, E_LFANEW);
    var h := b[po..];
    var p := Parse(b).value;
    LeAtSuffix(b, po, 4, 2);
    LeAtSuffix(b, po, 6, 2);
    LeAtSuffix(b, po, 20, 2);
    var o := ImageBaseOffset(p.machine);
    assert h[FILE_HEADER_SIZE..] == b[po + FILE_HEADER_SIZE..];
    LeAtSuffix(b, po + FILE_HEADER_SIZE, o, 4);
    LeAtSuffix(b, po + FILE_HEADER_SIZE, ENTRY_POINT_OFFSET, 4);
  }

  // -------------------------------------------------------------------
  // Section table
  // -------------------------------------------------------------------

  /** Offset of Section Table entry `i`. */
  function EntryOffset(sectionTableOffset: nat, i: nat): nat
  {
    sectionTableOffset + 40 * i
  }

  /** The section an entry at offset `off` describes: a panic when the
      entry or its raw data lies outside the buffer, when the name is not
      UTF-8, or when the end address overflows; `None` when the start
      address overflows. */
  function DecodeEntry(b: seq<byte>, off: nat, imageBase: nat, permissionOf: PermissionOf): (r: Outcome<Option<Section>>)
    ensures !r.Err?
  {
    if off + 8 > |b| || !ValidUtf8(b[off..off + 8]) || off + 0x28 > |b| then Panic
    else
      var virtualSize := U32At(b, off + 0x08);
      var virtualAddress := U32At(b, off + 0x0C);
      var rawSize := U32At(b, off + 0x10);
      var rawOffset := U32At(b, off + 0x14);
      var characteristics := U32At(b, off + 0x24);
      if imageBase + virtualAddress > U64_MAX then Ok(None)
      else
        var start := imageBase + virtualAddress;
        if start + virtualSize > U64_MAX || rawOffset + rawSize > |b| then Panic
        else
          Ok(Some(Section(start, start + virtualSize, b[off..off + 8],
                          permissionOf(characteristics), b[rawOffset..rawOffset + rawSize])))
  }

  /** The item `SectionIterator::next` yields for table entry `i`: a panic
      when `40 * i` overflows, `None` when the entry's offset does. */
  function SectionAt(pe: PeParser, i: nat, permissionOf: PermissionOf): (r: Outcome<Option<Section>>)
    ensures !r.Err?
  {
    if 40 * i > USIZE_MAX then Panic
    else if EntryOffset(pe.sectionTableOffset, i) > USIZE_MAX then Ok(None)
    else DecodeEntry(pe.bytes, EntryOffset(pe.sectionTableOffset, i), pe.imageBase, permissionOf)
  }

  /** The iterator over the section table. */
  class SectionIterator {
    var index: nat
    const pe: PeParser

    constructor (pe: PeParser)
      ensures this.pe == pe && index == 0
    {
      this.pe := pe;
      index := 0;
    }

    /** `SectionIterator::next`: past the last entry it yields `None` and
        stays put; otherwise it advances by one and yields that entry. */
    method Next(permissionOf: PermissionOf) returns (r: Outcome<Option<Section>>)
      modifies this
      ensures !r.Err?
      ensures old(index) >= pe.numberOfSections ==> r == Ok(None) && index == old(index)
      ensures old(index) < pe.numberOfSections ==>
        r == SectionAt(pe, old(index), permissionOf) && index == old(index) + 1
    {
      if index >= pe.numberOfSections {
        return Ok(None);
      }
      var sectionIndex := index;
      index := index + 1;
      if 40 * sectionIndex > USIZE_MAX {
        return Panic;
      }
      var off := EntryOffset(pe.sectionTableOffset, sectionIndex);
      if off > USIZE_MAX {
        return Ok(None);
      }
      r := DecodeEntry(pe.bytes, off, pe.imageBase, permissionOf);
    }
  }

  /** The items the iterator yields, call by call. */
  function Entries(pe: PeParser, permissionOf: PermissionOf): nat -> Outcome<Option<Section>>
  {
    (i: nat) => SectionAt(pe, i, permissionOf)
  }

  /** What collecting the iterator from entry `i` on gives: the entries in
      table order up to the first `None`, or a panic. */
  function SectionsFrom(pe: PeParser, permissionOf: PermissionOf, i: nat): Outcome<seq<Section>>
  {
    CollectUntilNone(Entries(pe, permissionOf), pe.numberOfSections, i)
  }

  /** One call of `next` while collecting, and what its item means for
      the list collected so far. */
  method CollectOne(it: SectionIterator, permissionOf: PermissionOf, ghost vec: seq<Section>)
    returns (res: Outcome<Option<Section>>)
    modifies it
    ensures !res.Err?
    ensures it.index == if old(it.index) < it.pe.numberOfSections then old(it.index) + 1 else old(it.index)
    ensures res.Ok? && res.value.Some? ==>
      PrependOk(vec, SectionsFrom(it.pe, permissionOf, old(it.index)))
      == PrependOk(vec + [res.value.value], SectionsFrom(it.pe, permissionOf, it.index))
    ensures res == Ok(None) ==> PrependOk(vec, SectionsFrom(it.pe, permissionOf, old(it.index))) == Ok(vec)
    ensures res.Panic? ==> SectionsFrom(it.pe, permissionOf, old(it.index)).Panic?
  {
    ghost var i := it.index;
    res := it.Next(permissionOf);
    CollectStep(Entries(it.pe, permissionOf), it.pe.numberOfSections, i, vec, res);
  }

  /** `PeParser::sections`: calls `next` until it yields `None`. */
  method CollectSections(pe: PeParser, permissionOf: PermissionOf) returns (r: Outcome<seq<Section>>)
    ensures r == SectionsFrom(pe, permissionOf, 0)
  {
    var it := new SectionIterator(pe);
    var vec: seq<Section> := [];
    PrependNothing(SectionsFrom(pe, permissionOf, 0));
    while true
      invariant it.pe == pe && it.index <= pe.numberOfSections
      invariant PrependOk(vec, SectionsFrom(pe, permissionOf, it.index)) == SectionsFrom(pe, permissionOf, 0)
      decreases pe.numberOfSections - it.index
    {
      var res := CollectOne(it, permissionOf, vec);
      if !res.Ok? {
        return Panic;
      }
      if res.value.None? {
        return Ok(vec);
      }
      vec := vec + [res.value.value];
    }
  }

  // -------------------------------------------------------------------
  // Round trip of one Section Table entry
  // -------------------------------------------------------------------

  /** The fields of a Section Table entry that the iterator reads. */
  datatype SectionHeader = SectionHeader(
    name: seq<byte>,
    virtualSize: nat,
    virtualAddress: nat,
    sizeOfRawData: nat,
    pointerToRawData: nat,
    characteristics: nat)

  predicate ValidSectionHeader(h: SectionHeader)
  {
    && |h.name| == 8
    && h.virtualSize < 0x1_0000_0000 && h.virtualAddress < 0x1_0000_0000
    && h.sizeOfRawData < 0x1_0000_0000 && h.pointerToRawData < 0x1_0000_0000
    && h.characteristics < 0x1_0000_0000
  }

  /** The 40 bytes of an entry, with the relocation and line-number fields
      zero. */
  function EncodeSectionHeader(h: SectionHeader): (r: seq<byte>)
    requires ValidSectionHeader(h)
    ensures |r| == SECTION_HEADER_SIZE
  {
    h.name + (LeBytes(h.virtualSize, 4) + (LeBytes(h.virtualAddress, 4)
      + (LeBytes(h.sizeOfRawData, 4) + (LeBytes(h.pointerToRawData, 4)
      + (seq(12, _ => 0 as byte) + LeBytes(h.characteristics, 4))))))
  }

  /** Where each field sits in an encoded entry. */
  lemma SectionHeaderLayout(h: SectionHeader)
    requires ValidSectionHeader(h)
    ensures var e := EncodeSectionHeader(h);
      && e[..8] == h.name
      && e[0x08..0x0C] == LeBytes(h.virtualSize, 4)
      && e[0x0C..0x10] == LeBytes(h.virtualAddress, 4)
      && e[0x10..0x14] == LeBytes(h.sizeOfRawData, 4)
      && e[0x14..0x18] == LeBytes(h.pointerToRawData, 4)
      && e[0x24..0x28] == LeBytes(h.characteristics, 4)
  {
    EntryLayout(h.name, LeBytes(h.virtualSize, 4), LeBytes(h.virtualAddress, 4),
      LeBytes(h.sizeOfRawData, 4), LeBytes(h.pointerToRawData, 4),
      seq(12, _ => 0 as byte), LeBytes(h.characteristics, 4));
  }

  lemma EntryLayout(name: seq<byte>, f0: seq<byte>, f1: seq<byte>, f2: seq<byte>, f3: seq<byte>,
                    gap: seq<byte>, f4: seq<byte>)
    requires |name| == 8 && |f0| == 4 && |f1| == 4 && |f2| == 4 && |f3| == 4 && |gap| == 12 && |f4| == 4
    ensures var e := name + (f0 + (f1 + (f2 + (f3 + (gap + f4)))));
      && e[..8] == name && e[8..12] == f0 && e[12..16] == f1 && e[16..20] == f2
      && e[20..24] == f3 && e[36..40] == f4
  {
    var e := name + (f0 + (f1 + (f2 + (f3 + (gap + f4)))));
    assert e[8..] == f0 + (f1 + (f2 + (f3 + (gap + f4))));
    assert e[12..] == f1 + (f2 + (f3 + (gap + f4)));
    assert e[16..] == f2 + (f3 + (gap + f4));
    assert e[20..] == f3 + (gap + f4);
    assert e[36..] == f4;
  }

  /** The name and the five 32-bit fields of an encoded entry read back. */
  lemma SectionHeaderFields(b: seq<byte>, off: nat, h: SectionHeader)
    requires ValidSectionHeader(h) && off + SECTION_HEADER_SIZE <= |b|
    requires b[off..off + SECTION_HEADER_SIZE] == EncodeSectionHeader(h)
    ensures b[off..off + 8] == h.name
    ensures U32At(b, off + 0x08) == h.virtualSize
    ensures U32At(b, off + 0x0C) == h.virtualAddress
    ensures U32At(b, off + 0x10) == h.sizeOfRawData
    ensures U32At(b, off + 0x14) == h.pointerToRawData
    ensures U32At(b, off + 0x24) == h.characteristics
  {
    var e := EncodeSectionHeader(h);
    SectionHeaderLayout(h);
    assert b[off..off + 8] == b[off..off + SECTION_HEADER_SIZE][..8];
    U32Field(b, off, e, 0x08, h.virtualSize);
    U32Field(b, off, e, 0x0C, h.virtualAddress);
    U32Field(b, off, e, 0x10, h.sizeOfRawData);
    U32Field(b, off, e, 0x14, h.pointerToRawData);
    U32Field(b, off, e, 0x24, h.characteristics);
  }

  /** An encoded entry decodes to the section it describes: it starts at
      the image base plus the virtual address, spans the virtual size, and
      holds the raw data the entry points at. */
  lemma EntryRoundTrip(b: seq<byte>, off: nat, imageBase: nat, permissionOf: PermissionOf, h: SectionHeader)
    requires ValidSectionHeader(h) && ValidUtf8(h.name)
    requires off + SECTION_HEADER_SIZE <= |b|
    requires b[off..off + SECTION_HEADER_SIZE] == EncodeSectionHeader(h)
    requires imageBase + h.virtualAddress + h.virtualSize <= U64_MAX
    requires h.pointerToRawData + h.sizeOfRawData <= |b|
    ensures DecodeEntry(b, off, imageBase, permissionOf) == Ok(Some(Section(
      imageBase + h.virtualAddress,
      imageBase + h.virtualAddress + h.virtualSize,
      h.name,
      permissionOf(h.characteristics),
      b[h.pointerToRawData..h.pointerToRawData + h.sizeOfRawData])))
  {
    SectionHeaderFields(b, off, h);
    EntryDecodes(b, off, imageBase, permissionOf, h);
  }

  lemma EntryDecodes(b: seq<byte>, off: nat, imageBase: nat, permissionOf: PermissionOf, h: SectionHeader)
    requires ValidUtf8(h.name) && off + SECTION_HEADER_SIZE <= |b|
    requires b[off..off + 8] == h.name
    requires U32At(b, off + 0x08) == h.virtualSize
    requires U32At(b, off + 0x0C) == h.virtualAddress
    requires U32At(b, off + 0x10) == h.sizeOfRawData
    requires U32At(b, off + 0x14) == h.pointerToRawData
    requires U32At(b, off + 0x24) == h.characteristics
    requires imageBase + h.virtualAddress + h.virtualSize <= U64_MAX
    requires h.pointerToRawData + h.sizeOfRawData <= |b|
    ensures DecodeEntry(b, off, imageBase, permissionOf) == Ok(Some(Section(
      imageBase + h.virtualAddress,
      imageBase + h.virtualAddress + h.virtualSize,
      h.name,
      permissionOf(h.characteristics),
      b[h.pointerToRawData..h.pointerToRawData + h.sizeOfRawData])))
  {
  }

  /** Entry `i`, written at `section_table_offset + 40 * i`, is what the
      iterator yields for `i`. */
  lemma SectionRoundTrip(pe: PeParser, i: nat, permissionOf: PermissionOf, h: SectionHeader)
    requires ValidSectionHeader(h) && ValidUtf8(h.name)
    requires EntryOffset(pe.sectionTableOffset, i) + SECTION_HEADER_SIZE <= |pe.bytes| <= USIZE_MAX
    requires pe.bytes[EntryOffset(pe.sectionTableOffset, i)..EntryOffset(pe.sectionTableOffset, i) + SECTION_HEADER_SIZE] == EncodeSectionHeader(h)
    requires pe.imageBase + h.virtualAddress + h.virtualSize <= U64_MAX
    requires h.pointerToRawData + h.sizeOfRawData <= |pe.bytes|
    ensures SectionAt(pe, i, permissionOf) == Ok(Some(Section(
      pe.imageBase + h.virtualAddress,
      pe.imageBase + h.virtualAddress + h.virtualSize,
      h.name,
      permissionOf(h.characteristics),
      pe.bytes[h.pointerToRawData..h.pointerToRawData + h.sizeOfRawData])))
  {
    var off := EntryOffset(pe.sectionTableOffset, i);
    EntryRoundTrip(pe.bytes, off, pe.imageBase, permissionOf, h);
    SectionAtInRange(pe, i, permissionOf);
  }

  /** An entry inside a buffer that fits `usize` is decoded at its offset. */
  lemma SectionAtInRange(pe: PeParser, i: nat, permissionOf: PermissionOf)
    requires EntryOffset(pe.sectionTableOffset, i) + SECTION_HEADER_SIZE <= |pe.bytes| <= USIZE_MAX
    ensures SectionAt(pe, i, permissionOf)
      == DecodeEntry(pe.bytes, EntryOffset(pe.sectionTableOffset, i), pe.imageBase, permissionOf)
  {
  }

  // -------------------------------------------------------------------
  // Pe::new
  // -------------------------------------------------------------------

  /** What `Pe::new` returns. */
  datatype PeImage = PeImage(sections: seq<Section>, entryPoint: nat, cpuType: CpuType)

  /** `filter(|s| s.permission.contains(Permission::EXECUTABLE))`. */
  function ExecutableOnly(ss: seq<Section>): (r: seq<Section>)
    ensures |r| <= |ss|
  {
    if ss == [] then []
    else if ss[|ss| - 1].IsExecutable() then ExecutableOnly(ss[..|ss| - 1]) + [ss[|ss| - 1]]
    else ExecutableOnly(ss[..|ss| - 1])
  }

  /** The filter keeps exactly the executable sections. */
  lemma {:induction false} ExecutableOnlyMembers(ss: seq<Section>)
    ensures forall s :: s in ExecutableOnly(ss) <==> s in ss && s.IsExecutable()
    decreases |ss|
  {
    if ss != [] {
      ExecutableOnlyMembers(ss[..|ss| - 1]);
      assert ss == ss[..|ss| - 1] + [ss[|ss| - 1]];
    }
  }

  /** The filter keeps the sections' order: it distributes over
      concatenation. */
  lemma {:induction false} ExecutableOnlyAppend(a: seq<Section>, c: seq<Section>)
    ensures ExecutableOnly(a + c) == ExecutableOnly(a) + ExecutableOnly(c)
    decreases |c|
  {
    if c == [] {
      assert a + c == a;
    } else {
      assert (a + c)[..|a + c| - 1] == a + c[..|c| - 1];
      assert (a + c)[|a + c| - 1] == c[|c| - 1];
      ExecutableOnlyAppend(a, c[..|c| - 1]);
    }
  }

  function PeNewSpec(bytes: seq<byte>, permissionOf: PermissionOf): Outcome<PeImage>
  {
    match Parse(bytes)
    case Ok(pe) =>
      (match SectionsFrom(pe, permissionOf, 0)
       case Ok(ss) => Ok(PeImage(ExecutableOnly(ss), pe.entryPoint, pe.machine))
       case _ => Panic)
    case Err(e) => Err(e)
    case Panic => Panic
  }

  /** `Pe::new`: parse, collect the sections, keep the executable ones. */
  method PeNew(bytes: seq<byte>, permissionOf: PermissionOf) returns (r: Outcome<PeImage>)
    ensures r == PeNewSpec(bytes, permissionOf)
    ensures r.Ok? ==> forall s :: s in r.value.sections ==> s.IsExecutable()
  {
    var parsed := Parse(bytes);
    if parsed.Err? {
      return Err(parsed.error);
    }
    if parsed.Panic? {
      return Panic;
    }
    var pe := parsed.value;
    var sections := CollectSections(pe, permissionOf);
    if !sections.Ok? {
      return Panic;
    }
    ExecutableOnlyMembers(sections.value);
    r := Ok(PeImage(ExecutableOnly(sections.value), pe.entryPoint, pe.machine));
  }

  /** A successful load keeps the entry point and machine of the headers,
      and of the collected sections exactly the executable ones. */
  lemma PeNewKeepsExecutable(bytes: seq<byte>, permissionOf: PermissionOf)
    requires PeNewSpec(bytes, permissionOf).Ok?
    ensures var pe := Parse(bytes).value; var img := PeNewSpec(bytes, permissionOf).value;
      && SectionsFrom(pe, permissionOf, 0).Ok?
      && img.entryPoint == pe.entryPoint && img.cpuType == pe.machine
      && img.cpuType in {X86, X64, ARM64}
      && (forall s :: s in img.sections <==> s in SectionsFrom(pe, permissionOf, 0).value && s.IsExecutable())
  {
    ExecutableOnlyMembers(SectionsFrom(Parse(bytes).value, permissionOf, 0).value);
  }
}
