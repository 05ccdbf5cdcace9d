/** The format dispatcher (src/format/mod.rs): it picks the loader from the
    magic bytes at the start of the buffer, and hands out the CPU table
    that matches a loaded file's CPU type. */
module Format {
  import opened Common
  import opened Cpu
  import CpuX86
  import CpuX64
  import CpuArm
  import opened Sections
  import Pe
  import Elf

  /** A loaded executable: a PE image or an ELF file. */
  datatype FileFormat = PeFile(pe: Pe.PeImage) | ElfFile(elf: Elf.Elf)

  /** `Pe::from`: `Pe::new` with every error turned into a panic. */
  function PeFrom(bytes: seq<byte>, permissionOf: PermissionOf): (r: Outcome<Pe.PeImage>)
  {
    match Pe.PeNewSpec(bytes, permissionOf)
    case Ok(img) => Ok(img)
    case _ => Panic
  }

  /** `FileFormat::parse`. The two-byte MS-DOS signature is tested before
      the four-byte ELF magic; a panic of the chosen loader is a panic of
      the dispatcher. */
  function Parse(bytes: seq<byte>, permissionOf: PermissionOf): (r: Outcome<FileFormat>)
  {
    if |bytes| < 4 then Err(InvalidFileError)
    else if bytes[..2] == Pe.DOS_SIGNATURE then
      match PeFrom(bytes, permissionOf)
      case Ok(img) => Ok(PeFile(img))
      case _ => Panic
    else if bytes[..4] == Elf.ELF_MAGIC then
      match Elf.From(bytes)
      case Ok(elf) => Ok(ElfFile(elf))
      case _ => Panic
    else Err(InvalidMagicParsingError)
  }

  /** The dispatcher's outcomes: a buffer shorter than the magic is an
      invalid file, an unknown magic is an invalid magic, and no other
      error ever escapes (both loaders panic instead). "MZ" always wins,
      even on a buffer that also starts like an ELF file would. */
  lemma ParseOutcome(bytes: seq<byte>, permissionOf: PermissionOf)
    ensures Parse(bytes, permissionOf) == Err(InvalidFileError) <==> |bytes| < 4
    ensures Parse(bytes, permissionOf) == Err(InvalidMagicParsingError) <==>
      |bytes| >= 4 && bytes[..2] != Pe.DOS_SIGNATURE && bytes[..4] != Elf.ELF_MAGIC
    ensures Parse(bytes, permissionOf).Err? ==>
      Parse(bytes, permissionOf).error in {InvalidFileError, InvalidMagicParsingError}
    ensures Parse(bytes, permissionOf).Ok? && Parse(bytes, permissionOf).value.PeFile? ==>
      bytes[..2] == Pe.DOS_SIGNATURE
    ensures Parse(bytes, permissionOf).Ok? && Parse(bytes, permissionOf).value.ElfFile? ==>
      bytes[..2] != Pe.DOS_SIGNATURE && bytes[..4] == Elf.ELF_MAGIC
  {
  }

  /** A buffer starting with "MZ" is a PE image exactly when `Pe::new`
      accepts it, and that image is the one `Pe::new` builds. */
  lemma ParsePe(bytes: seq<byte>, permissionOf: PermissionOf)
    requires |bytes| >= 4 && bytes[..2] == Pe.DOS_SIGNATURE
    ensures Parse(bytes, permissionOf).Ok? <==> Pe.PeNewSpec(bytes, permissionOf).Ok?
    ensures Parse(bytes, permissionOf).Ok? ==>
      Parse(bytes, permissionOf).value == PeFile(Pe.PeNewSpec(bytes, permissionOf).value)
    ensures !Parse(bytes, permissionOf).Ok? ==> Parse(bytes, permissionOf).Panic?
  {
  }

  /** A buffer starting with the ELF magic and not with "MZ" is an ELF file
      exactly when `Elf::new` accepts it, and that file is the one
      `Elf::new` builds. */
  lemma ParseElf(bytes: seq<byte>, permissionOf: PermissionOf)
    requires |bytes| >= 4 && bytes[..2] != Pe.DOS_SIGNATURE && bytes[..4] == Elf.ELF_MAGIC
    ensures Parse(bytes, permissionOf).Ok? <==> Elf.New(bytes).Ok?
    ensures Parse(bytes, permissionOf).Ok? ==>
      Parse(bytes, permissionOf).value == ElfFile(Elf.New(bytes).value)
    ensures !Parse(bytes, permissionOf).Ok? ==> Parse(bytes, permissionOf).Panic?
  {
  }

  /** The ELF magic and "MZ" exclude each other, so the order of the two
      tests only matters to a reader. */
  lemma MagicsDisjoint(bytes: seq<byte>)
    requires |bytes| >= 4
    ensures !(bytes[..2] == Pe.DOS_SIGNATURE && bytes[..4] == Elf.ELF_MAGIC)
  {
    if bytes[..4] == Elf.ELF_MAGIC {
      assert bytes[0] == bytes[..4][0] == 0x7F;
      assert bytes[..2][0] == bytes[0];
    }
  }

  /** `cpu_type()` of the loaded file. */
  function CpuTypeOf(f: FileFormat): CpuType
  {
    match f
    case PeFile(img) => img.cpuType
    case ElfFile(elf) => elf.cpuType
  }

  /** The default `cpu()`: the table of the file's CPU type, and a panic
      for an Unknown type. */
  function CpuOf(t: CpuType): (r: Outcome<CpuTable>)
  {
    match t
    case X86 => Ok(CpuX86.X86())
    case X64 => Ok(CpuX64.X64())
    case ARM => Ok(CpuArm.Arm())
    case ARM64 => Ok(CpuArm.Arm64())
    case Unknown => Panic
  }

  /** `cpu()` panics exactly on Unknown; otherwise it gives a usable table
      whose own `cpu_type()` is the type asked for, with a pointer size of
      8 bytes exactly for the 64-bit types. */
  lemma CpuOfSpec(t: CpuType)
    ensures CpuOf(t).Panic? <==> t == Unknown
    ensures !CpuOf(t).Err?
    ensures CpuOf(t).Ok? ==> CpuOf(t).value.cpuType == t && ValidTable(CpuOf(t).value)
    ensures CpuOf(t).Ok? ==> (CpuOf(t).value.ptrsize == 8 <==> t in {X64, ARM64})
    ensures CpuOf(t).Ok? ==> (CpuOf(t).value.ptrsize == 4 <==> t in {X86, ARM})
  {
    CpuX86.X86Table();
    CpuX64.X64Table();
    CpuArm.ArmTables();
  }

  /** Every file the dispatcher loads has a CPU type `cpu()` accepts: both
      loaders reject the machines they do not know. */
  lemma LoadedFileHasCpu(bytes: seq<byte>, permissionOf: PermissionOf)
    requires Parse(bytes, permissionOf).Ok?
    ensures CpuOf(CpuTypeOf(Parse(bytes, permissionOf).value)).Ok?
  {
    var f := Parse(bytes, permissionOf).value;
    if f.PeFile? {
      Pe.PeNewKeepsExecutable(bytes, permissionOf);
    } else {
      Elf.NewFields(bytes);
    }
  }
}
