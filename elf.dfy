/** The ELF loader (src/format/elf.rs). It reads the fields of the ELF
    header that locate the section header table (System V gABI, chapter 4
    "Object Files", part "ELF Header": `e_ident[EI_CLASS]`, `e_machine`,
    `e_entry`, `e_shoff`, `e_shnum`) and walks that table with the 64-byte
    layout of part "Sections", whatever the file's class. Every read is a
    little-endian read at a fixed offset of an untrusted buffer. */
module Elf {
  import opened Common
  import opened Cpu
  import opened Sections

  const ELF_MAGIC: seq<byte> := [0x7F, 0x45, 0x4C, 0x46] // 7F "ELF"

  const ELF_CLASS_32: byte := 1
  const ELF_CLASS_64: byte := 2

  const ELF_MACHINE_386: nat := 0x0003
  const ELF_MACHINE_ARM: nat := 0x0028
  const ELF_MACHINE_AMD64: nat := 0x003E

  /** Offset of `e_ident[EI_CLASS]`. */
  const EI_CLASS: nat := 4
  /** Offset of `e_machine` in both header layouts. */
  const E_MACHINE: nat := 18
  /** Offset of `e_entry` in both header layouts. */
  const E_ENTRY: nat := 24
  /** Size of one 64-bit section header. */
  const SECTION_HEADER_SIZE: nat := 64

  /** What `Elf::new` keeps: the CPU, the whole buffer and the header
      fields the section iterator needs. */
  datatype Elf = Elf(
    cpuType: CpuType,
    bytes: seq<byte>,
    numberOfSections: nat,
    sectionTableOffset: nat,
    entryPoint: nat)

  /** The machines the loader accepts; 0x28 is taken as ARM64 in a 64-bit
      file and as ARM in a 32-bit one. */
  function MachineOf(m: nat, is64: bool): (r: Option<CpuType>)
    ensures r.Some? <==> m in {ELF_MACHINE_386, ELF_MACHINE_AMD64, ELF_MACHINE_ARM}
  {
    if m == ELF_MACHINE_386 then Some(X86)
    else if m == ELF_MACHINE_AMD64 then Some(X64)
    else if m == ELF_MACHINE_ARM then (if is64 then Some(ARM64) else Some(ARM))
    else None
  }

  /** The loader agrees with the `e_machine` mapping of the CPU module on
      x86 and x86-64, and on ARM in a 32-bit file; it takes 0x28 in a
      64-bit file for ARM64, and it rejects `EM_AARCH64`. */
  lemma MachineOfVersusElfMachine(m: nat, is64: bool)
    ensures m in {ELF_MACHINE_386, ELF_MACHINE_AMD64} ==> FromElfMachine(m) == Ok(MachineOf(m, is64).value)
    ensures m == ELF_MACHINE_ARM ==>
      FromElfMachine(m) == Ok(ARM) && MachineOf(m, is64) == (if is64 then Some(ARM64) else Some(ARM))
    ensures MachineOf(EM_AARCH64, is64).None? && FromElfMachine(EM_AARCH64) == Ok(ARM64)
  {
  }

  /** Width in bytes of `e_entry` and `e_shoff`. */
  function Width(is64: bool): nat { if is64 then 8 else 4 }

  /** Offset of `e_shoff`: 40 in the 64-bit header, 32 in the 32-bit one. */
  function ShoffOffset(is64: bool): nat { E_ENTRY + 2 * Width(is64) }

  /** Offset of `e_shnum`: 60 in the 64-bit header, 48 in the 32-bit one. */
  function ShnumOffset(is64: bool): nat { 36 + 3 * Width(is64) }

  predicate HasElfMagic(b: seq<byte>)
  {
    |b| >= 4 && b[..4] == ELF_MAGIC
  }

  predicate HasKnownClass(b: seq<byte>)
  {
    |b| > EI_CLASS && (b[EI_CLASS] == ELF_CLASS_32 || b[EI_CLASS] == ELF_CLASS_64)
  }

  /** `Elf::new`, with its error returns and its panics in the order the
      source performs them. */
  function New(bytes: seq<byte>): (r: Outcome<Elf>)
    ensures r.Ok? ==> r.value.bytes == bytes && r.value.numberOfSections < 0x1_0000
  {
    if !HasElfMagic(bytes) then Err(InvalidMagicParsingError)
    else if !HasKnownClass(bytes) then Err(InvalidFileError)
    else
      var is64 := bytes[EI_CLASS] == ELF_CLASS_64;
      if |bytes| < E_MACHINE + 2 then Panic
      else
        match MachineOf(U16At(bytes, E_MACHINE), is64)
        case None => Err(UnsupportedCpuError)
        case Some(machine) =>
          var w := Width(is64);
          if |bytes| < E_ENTRY + w then Panic
          else
            var entryPoint := LeAt(bytes, E_ENTRY, w);
            if |bytes| < ShnumOffset(is64) + 2 then Panic
            else
              var numberOfSections := U16At(bytes, ShnumOffset(is64));
              if |bytes| < ShoffOffset(is64) + w then Panic
              else
                var sectionTableOffset := LeAt(bytes, ShoffOffset(is64), w);
                Ok(Elf(machine, bytes, numberOfSections, sectionTableOffset, entryPoint))
  }

  /** How `new` ends, for every buffer: each error return, and a panic
      exactly when an accepted header is cut before the end of `e_shnum`. */
  lemma NewOutcome(b: seq<byte>)
    ensures New(b) == Err(InvalidMagicParsingError) <==> !HasElfMagic(b)
    ensures New(b) == Err(InvalidFileError) <==> HasElfMagic(b) && !HasKnownClass(b)
    ensures New(b) == Err(UnsupportedCpuError) <==>
      && HasElfMagic(b) && HasKnownClass(b) && |b| >= E_MACHINE + 2
      && U16At(b, E_MACHINE) !in {ELF_MACHINE_386, ELF_MACHINE_AMD64, ELF_MACHINE_ARM}
    ensures New(b).Panic? <==>
      && HasElfMagic(b) && HasKnownClass(b)
      && (|b| < E_MACHINE + 2 ||
          (U16At(b, E_MACHINE) in {ELF_MACHINE_386, ELF_MACHINE_AMD64, ELF_MACHINE_ARM}
           && |b| < ShnumOffset(b[EI_CLASS] == ELF_CLASS_64) + 2))
  {
  }

  /** What a successful `new` keeps, at the offsets of the file's class. */
  lemma NewFields(b: seq<byte>)
    requires New(b).Ok?
    ensures var elf := New(b).value; var is64 := b[EI_CLASS] == ELF_CLASS_64;
      && HasElfMagic(b) && HasKnownClass(b)
      && ShnumOffset(is64) + 2 <= |b|
      && MachineOf(U16At(b, E_MACHINE), is64) == Some(elf.cpuType)
      && elf.entryPoint == LeAt(b, E_ENTRY, Width(is64))
      && elf.numberOfSections == U16At(b, ShnumOffset(is64))
      && elf.sectionTableOffset == LeAt(b, ShoffOffset(is64), Width(is64))
  {
  }

  // -------------------------------------------------------------------
  // Round trip of the header
  // -------------------------------------------------------------------

  /** The header fields the loader reads. */
  datatype ElfHeader = ElfHeader(is64: bool, machine: nat, entry: nat, shoff: nat, shnum: nat)

  predicate ValidElfHeader(h: ElfHeader)
  {
    && h.machine in {ELF_MACHINE_386, ELF_MACHINE_AMD64, ELF_MACHINE_ARM}
    && h.entry < Pow256(Width(h.is64)) && h.shoff < Pow256(Width(h.is64))
    && h.shnum < 0x1_0000
  }

  function Zeros(n: nat): (z: seq<byte>)
    ensures |z| == n
  {
    seq(n, _ => 0 as byte)
  }

  /** The header of the file's class with every field the loader does not
      read set to zero. */
  function EncodeHeader(h: ElfHeader): (e: seq<byte>)
    ensures |e| == ShnumOffset(h.is64) + 4
  {
    var w := Width(h.is64);
    ELF_MAGIC + ([if h.is64 then ELF_CLASS_64 else ELF_CLASS_32] + (Zeros(13) + (LeBytes(h.machine, 2)
      + (Zeros(4) + (LeBytes(h.entry, w) + (Zeros(w) + (LeBytes(h.shoff, w)
      + (Zeros(12) + (LeBytes(h.shnum, 2) + Zeros(2))))))))))
  }

  /** Where each field sits in an encoded header of width `w`. */
  lemma HeaderLayout(magic: seq<byte>, cls: byte, m: seq<byte>, entry: seq<byte>, gap: seq<byte>,
                     shoff: seq<byte>, shnum: seq<byte>, w: nat)
    requires w == 4 || w == 8
    requires |magic| == 4 && |m| == 2 && |entry| == w && |gap| == w && |shoff| == w && |shnum| == 2
    ensures var e := magic + ([cls] + (Zeros(13) + (m + (Zeros(4) + (entry + (gap + (shoff
      + (Zeros(12) + (shnum + Zeros(2))))))))));
      && e[..4] == magic && e[4] == cls && e[18..20] == m && e[24..24 + w] == entry
      && e[24 + 2 * w..24 + 3 * w] == shoff && e[36 + 3 * w..38 + 3 * w] == shnum
  {
    if w == 4 {
      Header32Layout(magic, cls, m, entry, gap, shoff, shnum);
    } else {
      Header64Layout(magic, cls, m, entry, gap, shoff, shnum);
    }
  }

  /** The ELF32 header: `e_entry` at 24, `e_shoff` at 32, `e_shnum` at 48. */
  lemma Header32Layout(magic: seq<byte>, cls: byte, m: seq<byte>, entry: seq<byte>, gap: seq<byte>,
                       shoff: seq<byte>, shnum: seq<byte>)
    requires |magic| == 4 && |m| == 2 && |entry| == 4 && |gap| == 4 && |shoff| == 4 && |shnum| == 2
    ensures var e := magic + ([cls] + (Zeros(13) + (m + (Zeros(4) + (entry + (gap + (shoff
      + (Zeros(12) + (shnum + Zeros(2))))))))));
      && e[..4] == magic && e[4] == cls && e[18..20] == m && e[24..28] == entry
      && e[32..36] == shoff && e[48..50] == shnum
  {
    var fromEntry := entry + (gap + (shoff + (Zeros(12) + (shnum + Zeros(2)))));
    var e := magic + ([cls] + (Zeros(13) + (m + (Zeros(4) + fromEntry))));
    assert e[24..] == fromEntry;
    assert e[32..] == shoff + (Zeros(12) + (shnum + Zeros(2)));
    assert e[48..] == shnum + Zeros(2);
  }

  /** The ELF64 header: `e_entry` at 24, `e_shoff` at 40, `e_shnum` at 60. */
  lemma Header64Layout(magic: seq<byte>, cls: byte, m: seq<byte>, entry: seq<byte>, gap: seq<byte>,
                       shoff: seq<byte>, shnum: seq<byte>)
    requires |magic| == 4 && |m| == 2 && |entry| == 8 && |gap| == 8 && |shoff| == 8 && |shnum| == 2
    ensures var e := magic + ([cls] + (Zeros(13) + (m + (Zeros(4) + (entry + (gap + (shoff
      + (Zeros(12) + (shnum + Zeros(2))))))))));
      && e[..4] == magic && e[4] == cls && e[18..20] == m && e[24..32] == entry
      && e[40..48] == shoff && e[60..62] == shnum
  {
    var fromEntry := entry + (gap + (shoff + (Zeros(12) + (shnum + Zeros(2)))));
    var e := magic + ([cls] + (Zeros(13) + (m + (Zeros(4) + fromEntry))));
    assert e[24..] == fromEntry;
    assert e[40..] == shoff + (Zeros(12) + (shnum + Zeros(2)));
    assert e[60..] == shnum + Zeros(2);
  }

  /** A buffer that starts with an encoded header loads with the header's
      CPU, entry point, section count and section table offset. */
  lemma HeaderRoundTrip(b: seq<byte>, h: ElfHeader)
    requires ValidElfHeader(h)
    requires |EncodeHeader(h)| <= |b| && b[..|EncodeHeader(h)|] == EncodeHeader(h)
    ensures New(b) == Ok(Elf(MachineOf(h.machine, h.is64).value, b, h.shnum, h.shoff, h.entry))
  {
    HeaderFields(b, h);
    HeaderDecodes(b, h);
  }

  /** The class byte and the fields of an encoded header read back. */
  lemma HeaderFields(b: seq<byte>, h: ElfHeader)
    requires ValidElfHeader(h)
    requires |EncodeHeader(h)| <= |b| && b[..|EncodeHeader(h)|] == EncodeHeader(h)
    ensures HasElfMagic(b) && ShnumOffset(h.is64) + 2 <= |b|
    ensures b[EI_CLASS] == if h.is64 then ELF_CLASS_64 else ELF_CLASS_32
    ensures U16At(b, E_MACHINE) == h.machine
    ensures LeAt(b, E_ENTRY, Width(h.is64)) == h.entry
    ensures U16At(b, ShnumOffset(h.is64)) == h.shnum
    ensures LeAt(b, ShoffOffset(h.is64), Width(h.is64)) == h.shoff
  {
    var e := EncodeHeader(h);
    assert b[0..|e|] == e;
    assert b[..4] == e[..4];
    assert b[EI_CLASS] == e[EI_CLASS];
    Pow256Widths();
    if h.is64 {
      Header64Layout(ELF_MAGIC, ELF_CLASS_64, LeBytes(h.machine, 2),
        LeBytes(h.entry, 8), Zeros(8), LeBytes(h.shoff, 8), LeBytes(h.shnum, 2));
      ReadFields(b, e, h.machine, h.entry, h.shnum, h.shoff, 40, 60, 8);
    } else {
      Header32Layout(ELF_MAGIC, ELF_CLASS_32, LeBytes(h.machine, 2),
        LeBytes(h.entry, 4), Zeros(4), LeBytes(h.shoff, 4), LeBytes(h.shnum, 2));
      ReadFields(b, e, h.machine, h.entry, h.shnum, h.shoff, 32, 48, 4);
    }
  }

  /** Reads the four header fields of `b` back from the encoding `e` it starts with. */
  lemma ReadFields(b: seq<byte>, e: seq<byte>, machine: nat, entry: nat, shnum: nat, shoff: nat,
                   shoffAt: nat, shnumAt: nat, w: nat)
    requires |e| <= |b| && b[..|e|] == e
    requires w < 9 && machine < 0x1_0000 && shnum < 0x1_0000
    requires entry < Pow256(w) && shoff < Pow256(w)
    requires shnumAt + 2 <= |e| && E_ENTRY + w <= |e| && shoffAt + w <= |e|
    requires e[18..20] == LeBytes(machine, 2) && e[shnumAt..shnumAt + 2] == LeBytes(shnum, 2)
    requires e[24..24 + w] == LeBytes(entry, w) && e[shoffAt..shoffAt + w] == LeBytes(shoff, w)
    ensures U16At(b, E_MACHINE) == machine && U16At(b, shnumAt) == shnum
    ensures LeAt(b, E_ENTRY, w) == entry && LeAt(b, shoffAt, w) == shoff
  {
    Pow256Widths();
    LeFieldAtStart(b, e, E_MACHINE, machine, 2);
    LeFieldAtStart(b, e, shnumAt, shnum, 2);
    LeFieldAtStart(b, e, E_ENTRY, entry, w);
    LeFieldAtStart(b, e, shoffAt, shoff, w);
  }

  lemma HeaderDecodes(b: seq<byte>, h: ElfHeader)
    requires ValidElfHeader(h)
    requires HasElfMagic(b) && ShnumOffset(h.is64) + 2 <= |b|
    requires b[EI_CLASS] == if h.is64 then ELF_CLASS_64 else ELF_CLASS_32
    requires U16At(b, E_MACHINE) == h.machine
    requires LeAt(b, E_ENTRY, Width(h.is64)) == h.entry
    requires U16At(b, ShnumOffset(h.is64)) == h.shnum
    requires LeAt(b, ShoffOffset(h.is64), Width(h.is64)) == h.shoff
    ensures New(b) == Ok(Elf(MachineOf(h.machine, h.is64).value, b, h.shnum, h.shoff, h.entry))
  {
  }

  // -------------------------------------------------------------------
  // Section header table
  // -------------------------------------------------------------------

  /** The section a 64-bit section header at offset `off` describes:
      `None` when the header starts past the buffer or the end address
      overflows; a panic when the header is cut short, its first four
      bytes are not UTF-8, or its data lies outside the buffer. */
  function DecodeEntry(b: seq<byte>, off: nat, permissionOf: PermissionOf): (r: Outcome<Option<Section>>)
    ensures !r.Err?
  {
    if off > |b| then Ok(None)
    else if off + 0x28 > |b| || !ValidUtf8(b[off..off + 4]) then Panic
    else
      BuildSection(b, b[off..off + 4], U64At(b, off + 0x10), U64At(b, off + 0x20),
                   U64At(b, off + 0x08), U64At(b, off + 0x18), permissionOf)
  }

  /** The section of a header's fields: `None` when the end address
      overflows, a panic when the data lies outside the buffer. */
  function BuildSection(b: seq<byte>, name: seq<byte>, startAddress: nat, size: nat, flags: nat, rawOffset: nat,
                        permissionOf: PermissionOf): (r: Outcome<Option<Section>>)
    ensures !r.Err?
  {
    if startAddress + size > U64_MAX then Ok(None)
    else if rawOffset + size > |b| then Panic
    else
      Ok(Some(Section(startAddress, startAddress + size, name,
                      permissionOf(flags), b[rawOffset..rawOffset + size])))
  }

  /** Offset of section header `i`. */
  function EntryOffset(sectionTableOffset: nat, i: nat): nat
  {
    sectionTableOffset + SECTION_HEADER_SIZE * i
  }

  /** The item `next` yields for header `i`: `None` when `64 * i` or the
      header's offset overflows. */
  function SectionAt(elf: Elf, i: nat, permissionOf: PermissionOf): (r: Outcome<Option<Section>>)
    ensures !r.Err?
  {
    if SECTION_HEADER_SIZE * i > USIZE_MAX then Ok(None)
    else if EntryOffset(elf.sectionTableOffset, i) > USIZE_MAX then Ok(None)
    else DecodeEntry(elf.bytes, EntryOffset(elf.sectionTableOffset, i), permissionOf)
  }

  /** The iterator over the section header table. */
  class ElfSectionIterator {
    var index: nat
    const elf: Elf

    constructor (elf: Elf)
      ensures this.elf == elf && index == 0
    {
      this.elf := elf;
      index := 0;
    }

    /** `ElfSectionIterator::next`: past the last header, or when `64 *
        index` overflows, it yields `None` and stays put; otherwise it
        advances by one and yields that header's section. */
    method Next(permissionOf: PermissionOf) returns (r: Outcome<Option<Section>>)
      modifies this
      ensures !r.Err?
      ensures old(index) >= elf.numberOfSections ==> r == Ok(None) && index == old(index)
      ensures old(index) < elf.numberOfSections ==> r == SectionAt(elf, old(index), permissionOf)
      ensures old(index) < elf.numberOfSections ==>
        index == if SECTION_HEADER_SIZE * old(index) > USIZE_MAX then old(index) else old(index) + 1
    {
      if index >= elf.numberOfSections {
        return Ok(None);
      }
      var offsetInTable := SECTION_HEADER_SIZE * index;
      if offsetInTable > USIZE_MAX {
        return Ok(None);
      }
      var i := index;
      index := index + 1;
      r := SectionAt(elf, i, permissionOf);
    }
  }

  /** The items the iterator yields, call by call. */
  function Entries(elf: Elf, permissionOf: PermissionOf): nat -> Outcome<Option<Section>>
  {
    (i: nat) => SectionAt(elf, i, permissionOf)
  }

  /** What collecting the iterator from header `i` on gives: the sections
      in table order up to the first `None`, or a panic. */
  function SectionsFrom(elf: Elf, permissionOf: PermissionOf, i: nat): Outcome<seq<Section>>
  {
    CollectUntilNone(Entries(elf, permissionOf), elf.numberOfSections, i)
  }

  /** One call of `next` while collecting, and what its item means for
      the list collected so far. */
  method CollectOne(it: ElfSectionIterator, permissionOf: PermissionOf, ghost vec: seq<Section>)
    returns (res: Outcome<Option<Section>>)
    modifies it
    ensures !res.Err?
    ensures it.index == old(it.index) || (old(it.index) < it.elf.numberOfSections && it.index == old(it.index) + 1)
    ensures res.Ok? && res.value.Some? ==>
      && it.index == old(it.index) + 1
      && PrependOk(vec, SectionsFrom(it.elf, permissionOf, old(it.index)))
         == PrependOk(vec + [res.value.value], SectionsFrom(it.elf, permissionOf, it.index))
    ensures res == Ok(None) ==> PrependOk(vec, SectionsFrom(it.elf, permissionOf, old(it.index))) == Ok(vec)
    ensures res.Panic? ==> SectionsFrom(it.elf, permissionOf, old(it.index)).Panic?
  {
    ghost var i := it.index;
    res := it.Next(permissionOf);
    CollectStep(Entries(it.elf, permissionOf), it.elf.numberOfSections, i, vec, res);
  }

  /** `executable_sections`: collects the iterator, keeping every section
      it yields whatever its permission. */
  method ExecutableSections(elf: Elf, permissionOf: PermissionOf) returns (r: Outcome<seq<Section>>)
    ensures r == SectionsFrom(elf, permissionOf, 0)
  {
    var it := new ElfSectionIterator(elf);
    var vec: seq<Section> := [];
    PrependNothing(SectionsFrom(elf, permissionOf, 0));
    while true
      invariant it.elf == elf && it.index <= elf.numberOfSections
      invariant PrependOk(vec, SectionsFrom(elf, permissionOf, it.index)) == SectionsFrom(elf, permissionOf, 0)
      decreases elf.numberOfSections - it.index
    {
      var res := CollectOne(it, permissionOf, vec);
      if !res.Ok? {
        return Panic;
      }
      if res.value.None? {
        return Ok(vec);
      }
      vec := vec + [res.value.value];
    }
  }

  /** A header that starts past the end of the buffer ends the list: the
      collection is what it would be if the table stopped before that
      header, and the headers after it are never read. */
  lemma OutOfFileHeaderTruncates(elf: Elf, permissionOf: PermissionOf, j: nat)
    requires j < elf.numberOfSections
    requires EntryOffset(elf.sectionTableOffset, j) > |elf.bytes|
    ensures SectionsFrom(elf, permissionOf, 0) == CollectUntilNone(Entries(elf, permissionOf), j, 0)
  {
    var item := Entries(elf, permissionOf);
    assert item(j) == Ok(None);
    CollectStopsAt(item, elf.numberOfSections, 0, j);
  }

  // -------------------------------------------------------------------
  // Round trip of one section header
  // -------------------------------------------------------------------

  /** The fields of a 64-bit section header that the iterator reads; the
      name is the raw first four bytes (`sh_name`). */
  datatype SectionHeader = SectionHeader(
    name: seq<byte>,
    flags: nat,
    addr: nat,
    offset: nat,
    size: nat)

  predicate ValidSectionHeader(h: SectionHeader)
  {
    |h.name| == 4 && h.flags <= U64_MAX && h.addr <= U64_MAX && h.offset <= U64_MAX && h.size <= U64_MAX
  }

  /** The 64 bytes of a section header, with `sh_type`, `sh_link`,
      `sh_info`, `sh_addralign` and `sh_entsize` zero. */
  function EncodeSectionHeader(h: SectionHeader): (r: seq<byte>)
    ensures |r| == |h.name| + 60
  {
    h.name + (Zeros(4) + (LeBytes(h.flags, 8) + (LeBytes(h.addr, 8)
      + (LeBytes(h.offset, 8) + (LeBytes(h.size, 8) + Zeros(24))))))
  }

  /** Where each field sits in an encoded section header. */
  lemma SectionHeaderLayout(name: seq<byte>, f0: seq<byte>, f1: seq<byte>, f2: seq<byte>, f3: seq<byte>)
    requires |name| == 4 && |f0| == 8 && |f1| == 8 && |f2| == 8 && |f3| == 8
    ensures var e := name + (Zeros(4) + (f0 + (f1 + (f2 + (f3 + Zeros(24))))));
      && e[..4] == name && e[0x08..0x10] == f0 && e[0x10..0x18] == f1
      && e[0x18..0x20] == f2 && e[0x20..0x28] == f3
  {
    var e := name + (Zeros(4) + (f0 + (f1 + (f2 + (f3 + Zeros(24))))));
    assert e[0x08..] == f0 + (f1 + (f2 + (f3 + Zeros(24))));
    assert e[0x10..] == f1 + (f2 + (f3 + Zeros(24)));
    assert e[0x18..] == f2 + (f3 + Zeros(24));
    assert e[0x20..] == f3 + Zeros(24);
  }

  /** The name and the four 64-bit fields of an encoded header read back. */
  lemma SectionHeaderFields(b: seq<byte>, off: nat, h: SectionHeader)
    requires ValidSectionHeader(h) && off + SECTION_HEADER_SIZE <= |b|
    requires b[off..off + SECTION_HEADER_SIZE] == EncodeSectionHeader(h)
    ensures b[off..off + 4] == h.name
    ensures U64At(b, off + 0x08) == h.flags
    ensures U64At(b, off + 0x10) == h.addr
    ensures U64At(b, off + 0x18) == h.offset
    ensures U64At(b, off + 0x20) == h.size
  {
    var e := EncodeSectionHeader(h);
    SectionHeaderLayout(h.name, LeBytes(h.flags, 8), LeBytes(h.addr, 8), LeBytes(h.offset, 8), LeBytes(h.size, 8));
    assert b[off..off + 4] == b[off..off + SECTION_HEADER_SIZE][..4];
    U64Field(b, off, e, 0x08, h.flags);
    U64Field(b, off, e, 0x10, h.addr);
    U64Field(b, off, e, 0x18, h.offset);
    U64Field(b, off, e, 0x20, h.size);
  }

  /** An encoded header inside the buffer decodes to the section built
      from the fields it holds. */
  lemma EntryRoundTrip(b: seq<byte>, off: nat, permissionOf: PermissionOf, h: SectionHeader)
    requires ValidSectionHeader(h) && ValidUtf8(h.name)
    requires off + SECTION_HEADER_SIZE <= |b|
    requires b[off..off + SECTION_HEADER_SIZE] == EncodeSectionHeader(h)
    ensures DecodeEntry(b, off, permissionOf)
      == BuildSection(b, h.name, h.addr, h.size, h.flags, h.offset, permissionOf)
  {
    SectionHeaderFields(b, off, h);
    EntryFields(b, off, permissionOf, h);
  }

  /** A header inside the buffer with a UTF-8 name is built from the
      fields it holds. */
  lemma EntryFields(b: seq<byte>, off: nat, permissionOf: PermissionOf, h: SectionHeader)
    requires ValidUtf8(h.name) && off + SECTION_HEADER_SIZE <= |b|
    requires b[off..off + 4] == h.name
    requires U64At(b, off + 0x08) == h.flags
    requires U64At(b, off + 0x10) == h.addr
    requires U64At(b, off + 0x18) == h.offset
    requires U64At(b, off + 0x20) == h.size
    ensures DecodeEntry(b, off, permissionOf)
      == BuildSection(b, h.name, h.addr, h.size, h.flags, h.offset, permissionOf)
  {
  }

  /** The section of a header's fields: `None` exactly when the end
      address overflows; otherwise a panic exactly when the data lies
      outside the buffer, and else the section that starts at the start
      address, spans `size` bytes and holds the `size` bytes at the raw
      offset. */
  lemma BuildSectionOutcome(b: seq<byte>, name: seq<byte>, startAddress: nat, size: nat, flags: nat, rawOffset: nat,
                            permissionOf: PermissionOf)
    ensures var r := BuildSection(b, name, startAddress, size, flags, rawOffset, permissionOf);
      && (r == Ok(None) <==> startAddress + size > U64_MAX)
      && (r.Panic? <==> startAddress + size <= U64_MAX && rawOffset + size > |b|)
      && (startAddress + size <= U64_MAX && rawOffset + size <= |b| ==>
            r == Ok(Some(Section(startAddress, startAddress + size, name, permissionOf(flags),
                                 b[rawOffset..rawOffset + size]))))
  {
  }

  /** Header `i`, written at `e_shoff + 64 * i`, is what the iterator
      decodes for `i`. */
  lemma SectionRoundTrip(elf: Elf, i: nat, permissionOf: PermissionOf, h: SectionHeader)
    requires ValidSectionHeader(h) && ValidUtf8(h.name)
    requires EntryOffset(elf.sectionTableOffset, i) + SECTION_HEADER_SIZE <= |elf.bytes| <= USIZE_MAX
    requires elf.bytes[EntryOffset(elf.sectionTableOffset, i)..EntryOffset(elf.sectionTableOffset, i) + SECTION_HEADER_SIZE]
      == EncodeSectionHeader(h)
    ensures SectionAt(elf, i, permissionOf)
      == BuildSection(elf.bytes, h.name, h.addr, h.size, h.flags, h.offset, permissionOf)
  {
    EntryRoundTrip(elf.bytes, EntryOffset(elf.sectionTableOffset, i), permissionOf, h);
  }

  // -------------------------------------------------------------------
  // From<Vec<u8>>
  // -------------------------------------------------------------------

  /** `Elf::from`: `new` with every error turned into a panic. */
  function From(bytes: seq<byte>): (r: Outcome<Elf>)
    ensures !r.Err?
    ensures r.Ok? <==> New(bytes).Ok?
    ensures r.Ok? ==> r == New(bytes)
  {
    match New(bytes)
    case Ok(elf) => Ok(elf)
    case _ => Panic
  }
}
