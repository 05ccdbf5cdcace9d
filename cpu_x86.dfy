/** The 32-bit x86 table (src/cpu/x86.rs). */
module CpuX86 {
  import opened Cpu

  /** One-byte return opcodes: ret, ret imm16, retf, retf imm16. */
  const RET_OPCODES: seq<seq<bv8>> := [[0xC3], [0xC2], [0xCB], [0xCF]]

  function X86(): (c: CpuTable)
  {
    CpuTable(
      cpuType := CpuType.X86,
      name := "x86",
      ptrsize := 4,
      retInsns := [Exact([0xC3]), Exact([0xC2]), Exact([0xCB]), Exact([0xCF])],
      branchInsns := [Exact([0xFF])],
      insnStep := 1)
  }

  /** The x86 table describes a 32-bit CPU that steps byte by byte, whose
      return patterns are exactly the four one-byte return opcodes in
      that order and whose only branch pattern is 0xff; it is usable by
      the search. */
  lemma X86Table()
    ensures X86().cpuType == CpuType.X86 && X86().ptrsize == 4 && X86().insnStep == 1
    ensures |X86().retInsns| == 4
    ensures forall k :: 0 <= k < 4 ==> X86().retInsns[k] == Exact(RET_OPCODES[k])
    ensures X86().branchInsns == [Exact([0xFF])]
    ensures ValidTable(X86())
  {
  }
}
