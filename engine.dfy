/** The disassembly engine (src/engine.rs): choosing the engine, turning
    the decoder's instructions into `Instruction`s with a group, and
    trimming the decoded list to the part that can end a gadget. The
    decoder itself is a parameter: what bytes decode to is outside the
    model. */
module Engine {
  import opened Common
  import opened Cpu
  import opened Gadgets

  datatype DisassemblyEngineType = Invalid | Capstone

  /** `DisassemblyEngineType::default()`. */
  function DefaultEngineType(): (t: DisassemblyEngineType)
    ensures t.Invalid?
  {
    Invalid
  }

  /** The decoder configurations the engine builds, one per architecture. */
  datatype CapstoneMode = X86Mode32 | X86Mode64 | ArmMode | Arm64Mode

  /** `CapstoneDisassembler::new`: the mode follows the CPU; an unknown CPU
      panics. */
  function CapstoneNew(t: CpuType): (r: Outcome<CapstoneMode>)
    ensures r.Panic? <==> t.Unknown?
    ensures !r.Err?
    ensures r.Ok? ==> ((r.value.X86Mode64? || r.value.Arm64Mode?) <==> (t.X64? || t.ARM64?))
    ensures r.Ok? ==> ((r.value.X86Mode32? || r.value.X86Mode64?) <==> (t.X86? || t.X64?))
  {
    match t
    case X86 => Ok(X86Mode32)
    case X64 => Ok(X86Mode64)
    case ARM => Ok(ArmMode)
    case ARM64 => Ok(Arm64Mode)
    case Unknown => Panic
  }

  /** `DisassemblyEngine::new`: only Capstone can be built; asking for the
      Invalid engine panics. */
  function DisassemblyEngineNew(e: DisassemblyEngineType, t: CpuType): (r: Outcome<CapstoneMode>)
    ensures r.Panic? <==> e.Invalid? || t.Unknown?
    ensures !r.Err?
  {
    match e
    case Capstone => CapstoneNew(t)
    case Invalid => Panic
  }

  /** The default engine type cannot be built. */
  lemma DefaultEngineCannotBeBuilt(t: CpuType)
    ensures DisassemblyEngineNew(DefaultEngineType(), t).Panic?
  {
  }

  /** Different CPUs get different decoder modes. */
  lemma CapstoneNewIsInjective(a: CpuType, b: CpuType)
    requires CapstoneNew(a).Ok? && CapstoneNew(a) == CapstoneNew(b)
    ensures a == b
  {
  }

  // -------------------------------------------------------------------
  // Instruction groups
  // -------------------------------------------------------------------

  const INSN_GRP_JUMP: nat := 1
  const INSN_GRP_CALL: nat := 2
  const INSN_GRP_RET: nat := 3
  const INSN_GRP_INT: nat := 4
  const INSN_GRP_IRET: nat := 5
  const INSN_GRP_PRIV: nat := 6

  /** The group a decoder group id stands for; other ids are skipped. */
  function ClassifyGroupId(id: nat): (g: Option<InstructionGroup>)
    ensures g.Some? <==> INSN_GRP_JUMP <= id <= INSN_GRP_PRIV
    ensures g.Some? ==> !g.value.Undefined?
  {
    if id == INSN_GRP_JUMP then Some(Jump)
    else if id == INSN_GRP_CALL then Some(Call)
    else if id == INSN_GRP_RET then Some(Ret)
    else if id == INSN_GRP_PRIV then Some(Privileged)
    else if id == INSN_GRP_INT then Some(Int)
    else if id == INSN_GRP_IRET then Some(Iret)
    else None
  }

  /** Distinct recognised ids name distinct groups. */
  lemma ClassifyGroupIdIsInjective(a: nat, b: nat)
    requires ClassifyGroupId(a).Some? && ClassifyGroupId(a) == ClassifyGroupId(b)
    ensures a == b
  {
  }

  /** The group of an instruction from its list of group ids: the last
      recognised id wins; with none, Undefined. */
  function GroupOf(ids: seq<nat>): InstructionGroup
  {
    if ids == [] then Undefined
    else match ClassifyGroupId(ids[|ids| - 1])
      case Some(g) => g
      case None => GroupOf(ids[..|ids| - 1])
  }

  /** `GroupOf` is Undefined exactly when no id is recognised; otherwise
      it is the group of a recognised id after which no recognised id
      follows. */
  lemma GroupOfSpec(ids: seq<nat>)
    ensures GroupOf(ids).Undefined? <==> forall i :: 0 <= i < |ids| ==> ClassifyGroupId(ids[i]).None?
    ensures !GroupOf(ids).Undefined? ==>
      exists i :: 0 <= i < |ids| && ClassifyGroupId(ids[i]) == Some(GroupOf(ids))
        && forall j :: i < j < |ids| ==> ClassifyGroupId(ids[j]).None?
  {
    GroupOfUndefined(ids);
    GroupOfLastRecognised(ids);
  }

  lemma {:induction false} GroupOfUndefined(ids: seq<nat>)
    ensures GroupOf(ids).Undefined? <==> forall i :: 0 <= i < |ids| ==> ClassifyGroupId(ids[i]).None?
    decreases |ids|
  {
    if ids != [] {
      var front := ids[..|ids| - 1];
      GroupOfUndefined(front);
      assert forall i :: 0 <= i < |front| ==> front[i] == ids[i];
    }
  }

  lemma {:induction false} GroupOfLastRecognised(ids: seq<nat>)
    ensures !GroupOf(ids).Undefined? ==>
      exists i :: 0 <= i < |ids| && ClassifyGroupId(ids[i]) == Some(GroupOf(ids))
        && forall j :: i < j < |ids| ==> ClassifyGroupId(ids[j]).None?
    decreases |ids|
  {
    if ids != [] {
      var n := |ids|;
      var front := ids[..n - 1];
      if ClassifyGroupId(ids[n - 1]).None? && !GroupOf(ids).Undefined? {
        GroupOfLastRecognised(front);
        var i :| 0 <= i < |front| && ClassifyGroupId(front[i]) == Some(GroupOf(front))
          && forall j :: i < j < |front| ==> ClassifyGroupId(front[j]).None?;
        assert ClassifyGroupId(ids[i]) == Some(GroupOf(ids));
      }
    }
  }

  /** The group loop over one instruction's ids. */
  method InstructionGroupOf(ids: seq<nat>) returns (g: InstructionGroup)
    ensures g == GroupOf(ids)
  {
    g := Undefined;
    for k := 0 to |ids|
      invariant g == GroupOf(ids[..k])
    {
      assert ids[..k + 1][..k] == ids[..k];
      match ClassifyGroupId(ids[k]) {
        case Some(x) => g := x;
        case None =>
      }
    }
    assert ids[..|ids|] == ids;
  }

  // -------------------------------------------------------------------
  // Decoding
  // -------------------------------------------------------------------

  /** One instruction as the decoder reports it. */
  datatype CsInsn = CsInsn(bytes: seq<byte>, address: nat, mnemonic: string,
                           opStr: Option<string>, groups: seq<nat>)

  /** The decoder: the instructions it reads from `code` at `address`. */
  type Decoder = (seq<byte>, nat) -> seq<CsInsn>

  /** The `Instruction` built from a decoded instruction. */
  function Lift(c: CsInsn): (i: Instruction)
  {
    Instruction(|c.bytes|, c.bytes, c.address, GroupOf(c.groups), c.mnemonic, c.opStr)
  }

  function LiftAll(cs: seq<CsInsn>): (r: seq<Instruction>)
    ensures |r| == |cs|
  {
    seq(|cs|, i requires 0 <= i < |cs| => Lift(cs[i]))
  }

  /** Lifting keeps each instruction's bytes, address and text, and its
      size is its byte count. */
  lemma LiftAllFaithful(cs: seq<CsInsn>)
    ensures WellSized(LiftAll(cs))
    ensures forall i :: 0 <= i < |cs| ==>
      && LiftAll(cs)[i].raw == cs[i].bytes
      && LiftAll(cs)[i].address == cs[i].address
      && LiftAll(cs)[i].mnemonic == cs[i].mnemonic
      && LiftAll(cs)[i].operands == cs[i].opStr
      && LiftAll(cs)[i].group == GroupOf(cs[i].groups)
  {
  }

  predicate IsBranch(g: InstructionGroup) { g == Jump || g == Call || g == Ret }

  /** Where the kept suffix starts when the scan from the end has reached
      index `j` (exclusive): just after the nearest branch below `j`, or
      0. */
  function SuffixStart(c: seq<Instruction>, j: nat): (k: nat)
    requires j <= |c|
    ensures k <= j
  {
    if j == 0 then 0
    else if IsBranch(c[j - 1].group) then j
    else SuffixStart(c, j - 1)
  }

  /** The kept part of a decoded list: the last instruction, and before it
      every instruction back to (not including) the nearest earlier
      branch. */
  function Trim(c: seq<Instruction>): (r: seq<Instruction>)
    requires c != []
  {
    c[SuffixStart(c, |c| - 1)..]
  }

  lemma {:induction false} SuffixStartSpec(c: seq<Instruction>, j: nat)
    requires j <= |c|
    ensures forall i :: SuffixStart(c, j) <= i < j ==> !IsBranch(c[i].group)
    ensures SuffixStart(c, j) == 0 || IsBranch(c[SuffixStart(c, j) - 1].group)
    decreases j
  {
    if j > 0 && !IsBranch(c[j - 1].group) {
      SuffixStartSpec(c, j - 1);
    }
  }

  /** The kept part is a non-empty suffix ending with the last decoded
      instruction; no branch occurs before its last instruction; and it
      is as long as that allows: it is the whole list, or the instruction
      before it is a branch. */
  lemma TrimSpec(c: seq<Instruction>)
    requires c != []
    ensures var r := Trim(c);
      && r != [] && |r| <= |c|
      && r == c[|c| - |r|..]
      && r[|r| - 1] == c[|c| - 1]
      && (forall i :: 0 <= i < |r| - 1 ==> !IsBranch(r[i].group))
      && (|r| == |c| || IsBranch(c[|c| - |r| - 1].group))
  {
    var k := SuffixStart(c, |c| - 1);
    SuffixStartSpec(c, |c| - 1);
    var r := c[k..];
    assert r == Trim(c);
    assert |c| - |r| == k;
    forall i | 0 <= i < |r| - 1 ensures !IsBranch(r[i].group) {
      assert r[i] == c[k + i];
    }
  }

  /** What `cs_disassemble` returns: None when nothing decodes, otherwise
      the trimmed list of lifted instructions. */
  function CsDisassembleSpec(decoded: seq<CsInsn>): Option<seq<Instruction>>
  {
    if decoded == [] then None else Some(Trim(LiftAll(decoded)))
  }

  /** `cs_disassemble`: lift every decoded instruction, then walk them
      from the last one backwards, putting each at the front until a
      branch is met after the first. */
  method CsDisassemble(decode: Decoder, code: seq<byte>, address: nat)
    returns (r: Option<seq<Instruction>>)
    ensures r == CsDisassembleSpec(decode(code, address))
  {
    var decoded := decode(code, address);
    if |decoded| == 0 {
      return None;
    }
    var candidates := LiftLoop(decoded);
    var insns := TrimLoop(candidates);
    r := Some(insns);
  }

  /** The lifting loop of `cs_disassemble`. */
  method LiftLoop(decoded: seq<CsInsn>) returns (candidates: seq<Instruction>)
    ensures candidates == LiftAll(decoded)
  {
    candidates := [];
    for k := 0 to |decoded|
      invariant candidates == LiftAll(decoded[..k])
    {
      var g := InstructionGroupOf(decoded[k].groups);
      var c := decoded[k];
      candidates := candidates + [Instruction(|c.bytes|, c.bytes, c.address, g, c.mnemonic, c.opStr)];
    }
    assert decoded[..|decoded|] == decoded;
  }

  /** The backward walk of `cs_disassemble`: it stops at the first branch
      met once something has been kept. */
  method TrimLoop(candidates: seq<Instruction>) returns (insns: seq<Instruction>)
    requires candidates != []
    ensures insns == Trim(candidates)
  {
    var n := |candidates|;
    insns := [];
    var j := n;
    while j > 0
      invariant 0 <= j <= n
      invariant insns == candidates[j..]
      invariant j < n - 1 ==> SuffixStart(candidates, n - 1) == SuffixStart(candidates, j)
    {
      var insn := candidates[j - 1];
      if IsBranch(insn.group) && |insns| > 0 {
        break;
      }
      insns := [insn] + insns;
      j := j - 1;
    }
  }

  /** The decoder as the gadget search uses it. */
  function AsDisasm(decode: Decoder): Disasm
  {
    (code: seq<byte>, address: nat) => CsDisassembleSpec(decode(code, address))
  }

  /** Whatever the decoder does, a decoding the gadget search receives is
      non-empty, its sizes are byte counts, and only its last instruction
      may be a branch: a gadget built from it has its instructions' bytes
      back to back in `raw`. */
  lemma DecodingsAreGadgetShaped(decode: Decoder, code: seq<byte>, address: nat)
    ensures var d := AsDisasm(decode)(code, address);
      d.Some? ==>
        && d.value != []
        && WellSized(d.value)
        && (forall i :: 0 <= i < |d.value| - 1 ==> !IsBranch(d.value[i].group))
  {
    var decoded := decode(code, address);
    assert AsDisasm(decode)(code, address) == CsDisassembleSpec(decoded);
    if decoded != [] {
      LiftAllFaithful(decoded);
      TrimKeepsShape(LiftAll(decoded));
    }
  }

  /** Trimming a well-sized list leaves a well-sized list with no branch
      before its last instruction. */
  lemma TrimKeepsShape(c: seq<Instruction>)
    requires c != [] && WellSized(c)
    ensures var r := Trim(c);
      && r != [] && WellSized(r)
      && (forall i :: 0 <= i < |r| - 1 ==> !IsBranch(r[i].group))
  {
    TrimSpec(c);
    WellSizedSuffix(c, SuffixStart(c, |c| - 1));
  }

  lemma WellSizedSuffix(c: seq<Instruction>, k: nat)
    requires k <= |c| && WellSized(c)
    ensures WellSized(c[k..])
  {
    forall i | 0 <= i < |c| - k ensures c[k..][i].size == |c[k..][i].raw| {
      assert c[k..][i] == c[k + i];
    }
  }
}
