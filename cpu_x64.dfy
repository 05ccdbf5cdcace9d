/** The x86-64 table (src/cpu/x64.rs). */
module CpuX64 {
  import opened Cpu
  import CpuX86

  function X64(): (c: CpuTable)
  {
    CpuTable(
      cpuType := CpuType.X64,
      name := "x86-64",
      ptrsize := 8,
      retInsns := [Exact([0xC3]), Exact([0xC2]), Exact([0xCB]), Exact([0xCF])],
      branchInsns := [Exact([0xFF]), Exact([0xEB]), Exact([0xE9]), Exact([0xFF, 0xFF])],
      insnStep := 1)
  }

  /** The x86-64 table describes a 64-bit CPU with the same return
      patterns as x86 and four branch patterns, only the last of which
      (ff ff) is two bytes long; it is usable by the search. */
  lemma X64Table()
    ensures X64().cpuType == CpuType.X64 && X64().ptrsize == 8 && X64().insnStep == 1
    ensures X64().retInsns == CpuX86.X86().retInsns
    ensures |X64().branchInsns| == 4
    ensures X64().branchInsns[..3] == [Exact([0xFF]), Exact([0xEB]), Exact([0xE9])]
    ensures X64().branchInsns[3] == Exact([0xFF, 0xFF])
    ensures forall k :: 0 <= k < 4 ==> (|X64().branchInsns[k].bytes| == 2 <==> k == 3)
    ensures ValidTable(X64())
  {
  }
}
