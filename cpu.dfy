/** CPU kinds and the per-architecture tables that parameterise the gadget
    search (src/cpu/mod.rs). */
module Cpu {
  import opened Common

  datatype CpuType = Unknown | X86 | X64 | ARM | ARM64

  /** `CpuType::default()`. */
  function DefaultCpuType(): (t: CpuType)
    ensures t.Unknown?
  {
    Unknown
  }

  /** `impl Display for CpuType`. */
  function Display(t: CpuType): (s: string)
  {
    "Arch=" + match t
      case X86 => "x86-32"
      case X64 => "x86-64"
      case ARM => "ARM"
      case ARM64 => "ARM64"
      case Unknown => "Unknown"
  }

  /** The display string names the architecture after an "Arch=" prefix,
      and different architectures display differently. */
  lemma DisplayIsInjective(a: CpuType, b: CpuType)
    ensures |Display(a)| > 5 && Display(a)[..5] == "Arch="
    ensures Display(a) == Display(b) ==> a == b
  {
  }

  /** The default `name()` tells two tables apart exactly when their CPU
      types differ. */
  lemma DefaultNameIdentifiesType(a: CpuTable, b: CpuTable)
    ensures DefaultName(a) == DefaultName(b) <==> a.cpuType == b.cpuType
  {
    DisplayIsInjective(a.cpuType, b.cpuType);
  }

  /** An instruction pattern: a window matches when, byte by byte,
      `window[i] & mask[i] == bytes[i]`. */
  datatype Pattern = Pattern(bytes: seq<byte>, mask: seq<byte>)

  /** A plain opcode sequence as a pattern: every mask byte is 0xff, so the
      window must equal the bytes. */
  function Exact(bs: seq<byte>): (p: Pattern)
    ensures p.bytes == bs && |p.mask| == |bs|
    ensures forall i :: 0 <= i < |bs| ==> p.mask[i] == 0xFF
  {
    Pattern(bs, seq(|bs|, _ => 0xFF as bv8))
  }

  /** A window matches a plain opcode pattern exactly when it equals the
      opcode bytes. */
  lemma ExactMatchesOnlyItself(bs: seq<byte>, w: seq<byte>)
    requires |w| == |bs|
    ensures (forall i :: 0 <= i < |bs| ==> w[i] & Exact(bs).mask[i] == Exact(bs).bytes[i]) <==> w == bs
  {
    var p := Exact(bs);
    forall i | 0 <= i < |bs|
      ensures w[i] & p.mask[i] == w[i]
    {
      assert p.mask[i] == 0xFF;
    }
  }

  predicate WellFormedPattern(p: Pattern) { |p.bytes| > 0 && |p.mask| == |p.bytes| }

  /** What the `Cpu` trait exposes for one architecture. */
  datatype CpuTable = CpuTable(
    cpuType: CpuType,
    name: string,
    ptrsize: nat,
    retInsns: seq<Pattern>,
    branchInsns: seq<Pattern>,
    insnStep: nat)

  /** The trait's default `name()`: the display string of `cpu_type()`. */
  function DefaultName(c: CpuTable): (s: string)
    ensures s == Display(c.cpuType)
  {
    Display(c.cpuType)
  }

  /** A table the search can use: a positive step and well-formed
      patterns whose widths are whole numbers of steps. */
  predicate ValidTable(c: CpuTable)
  {
    && c.insnStep >= 1
    && (forall p :: p in c.retInsns ==> WellFormedPattern(p) && |p.bytes| % c.insnStep == 0)
    && (forall p :: p in c.branchInsns ==> WellFormedPattern(p) && |p.bytes| % c.insnStep == 0)
  }

  // -------------------------------------------------------------------
  // Machine-id mappings (the `From` impls over goblin's headers)
  // -------------------------------------------------------------------

  const EM_386: nat := 3
  const EM_ARM: nat := 40
  const EM_X86_64: nat := 62
  const EM_AARCH64: nat := 183

  /** `From<&elf::header::Header> for CpuType`, panicking on other machines. */
  function FromElfMachine(m: nat): (r: Outcome<CpuType>)
    ensures r.Panic? <==> m !in {EM_386, EM_X86_64, EM_ARM, EM_AARCH64}
    ensures r.Ok? ==> !r.value.Unknown?
    ensures !r.Err?
  {
    if m == EM_386 then Ok(X86)
    else if m == EM_X86_64 then Ok(X64)
    else if m == EM_ARM then Ok(ARM)
    else if m == EM_AARCH64 then Ok(ARM64)
    else Panic
  }

  const CPU_TYPE_X86: nat := 7
  const CPU_TYPE_X86_64: nat := 0x0100_0007
  const CPU_TYPE_ARM: nat := 12
  const CPU_TYPE_ARM64: nat := 0x0100_000C

  /** `From<&mach::header::Header> for CpuType`, panicking on other CPUs. */
  function FromMachCpuType(m: nat): (r: Outcome<CpuType>)
    ensures r.Panic? <==> m !in {CPU_TYPE_X86, CPU_TYPE_X86_64, CPU_TYPE_ARM, CPU_TYPE_ARM64}
    ensures r.Ok? ==> !r.value.Unknown?
    ensures !r.Err?
  {
    if m == CPU_TYPE_X86 then Ok(X86)
    else if m == CPU_TYPE_X86_64 then Ok(X64)
    else if m == CPU_TYPE_ARM then Ok(ARM)
    else if m == CPU_TYPE_ARM64 then Ok(ARM64)
    else Panic
  }

  const COFF_MACHINE_X86: nat := 0x014C
  const COFF_MACHINE_ARM: nat := 0x01C0
  const COFF_MACHINE_ARMNT: nat := 0x01C4
  const COFF_MACHINE_X86_64: nat := 0x8664
  const COFF_MACHINE_ARM64: nat := 0xAA64

  /** `From<&pe::header::CoffHeader> for CpuType`: both ARM machine ids
      give ARM; other machines panic. */
  function FromCoffMachine(m: nat): (r: Outcome<CpuType>)
    ensures r.Panic? <==>
      m !in {COFF_MACHINE_X86, COFF_MACHINE_X86_64, COFF_MACHINE_ARM, COFF_MACHINE_ARMNT, COFF_MACHINE_ARM64}
    ensures r == Ok(ARM) <==> m == COFF_MACHINE_ARM || m == COFF_MACHINE_ARMNT
    ensures !r.Err?
  {
    if m == COFF_MACHINE_X86 then Ok(X86)
    else if m == COFF_MACHINE_X86_64 then Ok(X64)
    else if m == COFF_MACHINE_ARM then Ok(ARM)
    else if m == COFF_MACHINE_ARMNT then Ok(ARM)
    else if m == COFF_MACHINE_ARM64 then Ok(ARM64)
    else Panic
  }
}
