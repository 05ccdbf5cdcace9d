/** The ARM and ARM64 tables (src/cpu/arm.rs). */
module CpuArm {
  import opened Cpu

  /** The 4-byte return encoding both tables search for. */
  const RET: seq<bv8> := [0xC0, 0x03, 0x5F, 0xD6]

  function Arm(): (c: CpuTable)
  {
    CpuTable(
      cpuType := CpuType.ARM,
      name := "arm",
      ptrsize := 4,
      retInsns := [Exact(RET)],
      branchInsns := [],
      insnStep := 4)
  }

  function Arm64(): (c: CpuTable)
  {
    CpuTable(
      cpuType := CpuType.ARM64,
      name := "arm64",
      ptrsize := 8,
      retInsns := [Exact(RET)],
      branchInsns := [],
      insnStep := 4)
  }

  /** Both ARM tables step by one 4-byte instruction, search for the single
      return encoding c0 03 5f d6, have no branch patterns, and differ only
      in type, name and pointer size; both are usable by the search. */
  lemma ArmTables()
    ensures Arm().cpuType == CpuType.ARM && Arm().ptrsize == 4
    ensures Arm64().cpuType == CpuType.ARM64 && Arm64().ptrsize == 8
    ensures Arm().insnStep == 4 && Arm64().insnStep == 4
    ensures Arm().retInsns == Arm64().retInsns == [Exact(RET)]
    ensures Arm().branchInsns == Arm64().branchInsns == []
    ensures ValidTable(Arm()) && ValidTable(Arm64())
  {
  }
}
