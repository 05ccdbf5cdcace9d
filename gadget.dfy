/** Instructions, gadgets, the masked-pattern anchor search and the
    backward search from one anchor (src/gadget.rs). */
module Gadgets {
  import opened Common
  import opened Cpu
  import opened Sections

  // =====================================================================
  // Instructions and gadgets
  // =====================================================================

  datatype InstructionGroup = Undefined | Ret | Jump | Call | Int | Iret | Privileged

  /** `#[default]` of `InstructionGroup`. */
  function DefaultGroup(): (g: InstructionGroup)
    ensures g.Ret?
  {
    Ret
  }

  /** A decoded instruction; `size` is the length of `raw` when it comes
      from the disassembler. */
  datatype Instruction = Instruction(
    size: nat,
    raw: seq<byte>,
    address: nat,
    group: InstructionGroup,
    mnemonic: string,
    operands: Option<string>)

  /** `Instruction::text(false)`: the mnemonic, then a space and the
      operands when there are operands. */
  function InstructionText(i: Instruction): (t: string)
  {
    match i.operands
    case None => i.mnemonic
    case Some(op) => i.mnemonic + " " + op
  }

  /** The text starts with the mnemonic; the operands follow after one
      space exactly when there are operands. */
  lemma InstructionTextShape(i: Instruction)
    ensures |InstructionText(i)| >= |i.mnemonic|
    ensures InstructionText(i)[..|i.mnemonic|] == i.mnemonic
    ensures i.operands.None? ==> InstructionText(i) == i.mnemonic
    ensures i.operands.Some? ==>
      InstructionText(i)[|i.mnemonic|..] == " " + i.operands.value
  {
  }

  datatype Gadget = Gadget(address: nat, insns: seq<Instruction>, size: nat, raw: seq<byte>)

  function SumSizes(insns: seq<Instruction>): nat
  {
    if insns == [] then 0 else insns[0].size + SumSizes(insns[1..])
  }

  function ConcatRaw(insns: seq<Instruction>): seq<byte>
  {
    if insns == [] then [] else insns[0].raw + ConcatRaw(insns[1..])
  }

  /** The gadget record built from a non-empty instruction list. */
  function BuildGadget(insns: seq<Instruction>): (g: Gadget)
    requires insns != []
  {
    Gadget(insns[0].address, insns, SumSizes(insns), ConcatRaw(insns))
  }

  /** `Gadget::new`: panics on an empty list; otherwise the gadget starts
      at its first instruction and carries the list unchanged. */
  function GadgetNew(insns: seq<Instruction>): (r: Outcome<Gadget>)
    ensures r.Panic? <==> insns == []
    ensures r.Ok? ==> r.value.insns == insns && r.value.address == insns[0].address
    ensures r.Ok? ==> r.value.size == SumSizes(insns) && r.value.raw == ConcatRaw(insns)
    ensures !r.Err?
  {
    if insns == [] then Panic else Ok(BuildGadget(insns))
  }

  predicate WellSized(insns: seq<Instruction>)
  {
    forall k :: 0 <= k < |insns| ==> insns[k].size == |insns[k].raw|
  }

  /** Byte offset of instruction `k` inside the gadget. */
  function OffsetOf(insns: seq<Instruction>, k: nat): nat
    requires k <= |insns|
  {
    SumSizes(insns[..k])
  }

  lemma {:induction false} SumSizesAppend(a: seq<Instruction>, b: seq<Instruction>)
    ensures SumSizes(a + b) == SumSizes(a) + SumSizes(b)
    decreases |a|
  {
    if a != [] {
      assert (a + b)[1..] == a[1..] + b;
      SumSizesAppend(a[1..], b);
    } else {
      assert a + b == b;
    }
  }

  lemma {:induction false} ConcatRawAppend(a: seq<Instruction>, b: seq<Instruction>)
    ensures ConcatRaw(a + b) == ConcatRaw(a) + ConcatRaw(b)
    decreases |a|
  {
    if a != [] {
      assert (a + b)[0] == a[0];
      assert (a + b)[1..] == a[1..] + b;
      ConcatRawAppend(a[1..], b);
    } else {
      assert a + b == b;
    }
  }

  lemma {:induction false} WellSizedLength(insns: seq<Instruction>)
    requires WellSized(insns)
    ensures |ConcatRaw(insns)| == SumSizes(insns)
    decreases |insns|
  {
    if insns != [] {
      WellSizedLength(insns[1..]);
    }
  }

  /** For instructions whose `size` is their byte length, the gadget's
      `size` is the length of its `raw`, and instruction `k`'s bytes sit in
      `raw` at the sum of the sizes before it: `raw` is the in-order
      concatenation. */
  lemma {:induction false} GadgetLayout(insns: seq<Instruction>, k: nat)
    requires insns != [] && WellSized(insns) && k < |insns|
    ensures |BuildGadget(insns).raw| == BuildGadget(insns).size
    ensures OffsetOf(insns, k) + insns[k].size <= |BuildGadget(insns).raw|
    ensures BuildGadget(insns).raw[OffsetOf(insns, k)..OffsetOf(insns, k) + insns[k].size] == insns[k].raw
  {
    WellSizedLength(insns);
    WellSizedLength(insns[..k]);
    ConcatRawSplit(insns, k);
    var pre, post := ConcatRaw(insns[..k]), ConcatRaw(insns[k + 1..]);
    assert |pre| == OffsetOf(insns, k);
    SliceOfMiddle(pre, insns[k].raw, post);
  }

  /** The bytes of a list are those before instruction `k`, then its own,
      then those after it. */
  lemma ConcatRawSplit(insns: seq<Instruction>, k: nat)
    requires k < |insns|
    ensures ConcatRaw(insns) == ConcatRaw(insns[..k]) + insns[k].raw + ConcatRaw(insns[k + 1..])
  {
    var pre, tail := insns[..k], insns[k + 1..];
    var rest := insns[k..];
    assert rest[0] == insns[k] && rest[1..] == tail;
    assert ConcatRaw(rest) == insns[k].raw + ConcatRaw(tail);
    assert insns == pre + rest;
    ConcatRawAppend(pre, rest);
    assert ConcatRaw(pre) + (insns[k].raw + ConcatRaw(tail)) == ConcatRaw(pre) + insns[k].raw + ConcatRaw(tail);
  }

  lemma SliceOfMiddle<T>(a: seq<T>, b: seq<T>, c: seq<T>)
    ensures (a + b + c)[|a|..|a| + |b|] == b
  {
  }

  // ---------------------------------------------------------------------
  // Gadget text
  // ---------------------------------------------------------------------

  function TextOf(insns: seq<Instruction>): string
  {
    if insns == [] then "" else InstructionText(insns[0]) + " ; " + TextOf(insns[1..])
  }

  /** `Gadget::text(false)`. */
  function GadgetText(g: Gadget): string
  {
    TextOf(g.insns)
  }

  /** The text of a list is the texts of its parts, in order: every
      instruction contributes its own text followed by " ; ". */
  lemma {:induction false} TextOfAppend(a: seq<Instruction>, b: seq<Instruction>)
    ensures TextOf(a + b) == TextOf(a) + TextOf(b)
    decreases |a|
  {
    if a != [] {
      assert (a + b)[0] == a[0];
      assert (a + b)[1..] == a[1..] + b;
      TextOfAppend(a[1..], b);
    } else {
      assert a + b == b;
    }
  }

  /** The separator follows the last instruction too: a gadget's text
      ends with " ; " and the last instruction's text stands right
      before it. */
  lemma GadgetTextEnds(insns: seq<Instruction>)
    requires insns != []
    ensures var t := TextOf(insns); var last := InstructionText(insns[|insns| - 1]) + " ; ";
      |t| >= |last| && t[|t| - |last|..] == last
  {
    var n := |insns|;
    assert insns == insns[..n - 1] + [insns[n - 1]];
    TextOfAppend(insns[..n - 1], [insns[n - 1]]);
    assert TextOf([insns[n - 1]]) == InstructionText(insns[n - 1]) + " ; " + TextOf([]);
  }

  // =====================================================================
  // Anchor search: masked patterns over sliding windows
  // =====================================================================

  datatype Profile = Fast | Complete

  /** `(position, length)` of a pattern occurrence. */
  type Match = (nat, nat)

  /** The pattern occurs at `pos` of `chunk`. */
  predicate MaskedAt(chunk: seq<byte>, pos: nat, p: Pattern)
  {
    && pos + |p.bytes| <= |chunk|
    && |p.mask| >= |p.bytes|
    && forall i :: 0 <= i < |p.bytes| ==> chunk[pos + i] & p.mask[i] == p.bytes[i]
  }

  /** One window against one pattern, as `Iterator::cmp` does it: byte by
      byte from the left, stopping at the first difference; reading the
      mask beyond its end panics. */
  function WindowCmp(w: seq<byte>, p: Pattern, i: nat): (r: Outcome<bool>)
    requires |w| == |p.bytes| && i <= |w|
    ensures !r.Err?
    decreases |w| - i
  {
    if i == |w| then Ok(true)
    else if i >= |p.mask| then Panic
    else if w[i] & p.mask[i] != p.bytes[i] then Ok(false)
    else WindowCmp(w, p, i + 1)
  }

  lemma {:induction false} WindowCmpAgrees(w: seq<byte>, p: Pattern, i: nat)
    requires |w| == |p.bytes| <= |p.mask| && i <= |w|
    ensures WindowCmp(w, p, i) == Ok(forall j :: i <= j < |w| ==> w[j] & p.mask[j] == p.bytes[j])
    decreases |w| - i
  {
    if i < |w| {
      WindowCmpAgrees(w, p, i + 1);
    }
  }

  /** The windows/enumerate/filter/map pipeline from window `pos` on. */
  function ScanFrom(p: Pattern, chunk: seq<byte>, pos: nat): (r: Outcome<seq<Match>>)
    requires |p.bytes| > 0
    ensures !r.Err?
    decreases |chunk| - pos
  {
    var len := |p.bytes|;
    if pos + len > |chunk| then Ok([])
    else
      var hit := WindowCmp(chunk[pos..pos + len], p, 0);
      var rest := ScanFrom(p, chunk, pos + 1);
      if hit.Panic? || rest.Panic? then Panic
      else Ok((if hit.value then [(pos, len)] else []) + rest.value)
  }

  /** All occurrences of one pattern; `windows(0)` panics. */
  function PatternMatches(p: Pattern, chunk: seq<byte>): (r: Outcome<seq<Match>>)
    ensures !r.Err?
  {
    if |p.bytes| == 0 then Panic else ScanFrom(p, chunk, 0)
  }

  /** The scan of a well-formed pattern never panics. */
  lemma {:induction false} ScanFromOk(p: Pattern, chunk: seq<byte>, pos: nat)
    requires WellFormedPattern(p)
    ensures ScanFrom(p, chunk, pos).Ok?
    decreases |chunk| - pos
  {
    var len := |p.bytes|;
    if pos + len <= |chunk| {
      WindowCmpAgrees(chunk[pos..pos + len], p, 0);
      ScanFromOk(p, chunk, pos + 1);
    }
  }

  /** The window at `pos` agrees with the pattern exactly when the pattern
      occurs at `pos`. */
  lemma WindowIsOccurrence(p: Pattern, chunk: seq<byte>, pos: nat)
    requires WellFormedPattern(p) && pos + |p.bytes| <= |chunk|
    ensures WindowCmp(chunk[pos..pos + |p.bytes|], p, 0) == Ok(MaskedAt(chunk, pos, p))
  {
    var w := chunk[pos..pos + |p.bytes|];
    WindowCmpAgrees(w, p, 0);
    assert forall j :: 0 <= j < |p.bytes| ==> w[j] == chunk[pos + j];
  }

  /** The scan returns exactly the occurrences at or after `pos`, each with
      the pattern's length. */
  lemma {:induction false} ScanFromMembers(p: Pattern, chunk: seq<byte>, pos: nat)
    requires WellFormedPattern(p)
    ensures ScanFrom(p, chunk, pos).Ok?
    ensures forall m :: m in ScanFrom(p, chunk, pos).value <==>
      (m.1 == |p.bytes| && pos <= m.0 && MaskedAt(chunk, m.0, p))
    decreases |chunk| - pos
  {
    ScanFromOk(p, chunk, pos);
    var len := |p.bytes|;
    if pos + len <= |chunk| {
      WindowIsOccurrence(p, chunk, pos);
      ScanFromMembers(p, chunk, pos + 1);
      var ms := ScanFrom(p, chunk, pos).value;
      var rest := ScanFrom(p, chunk, pos + 1).value;
      assert ms == (if MaskedAt(chunk, pos, p) then [(pos, len)] else []) + rest;
      forall m: Match ensures m in ms <==> (m.1 == len && pos <= m.0 && MaskedAt(chunk, m.0, p)) {
        if m.0 == pos && m.1 == len {
          assert m == (pos, len);
        }
      }
    } else {
      forall m: Match | pos <= m.0 ensures !MaskedAt(chunk, m.0, p) { }
    }
  }

  /** Positions come out in strictly ascending order. */
  lemma {:induction false} ScanFromAscending(p: Pattern, chunk: seq<byte>, pos: nat)
    requires WellFormedPattern(p)
    ensures ScanFrom(p, chunk, pos).Ok?
    ensures var ms := ScanFrom(p, chunk, pos).value;
      forall i, j :: 0 <= i < j < |ms| ==> ms[i].0 < ms[j].0
    decreases |chunk| - pos
  {
    ScanFromOk(p, chunk, pos);
    var len := |p.bytes|;
    if pos + len <= |chunk| {
      ScanFromAscending(p, chunk, pos + 1);
      ScanFromMembers(p, chunk, pos + 1);
      var rest := ScanFrom(p, chunk, pos + 1).value;
      assert forall j :: 0 <= j < |rest| ==> rest[j] in rest;
    }
  }

  /** The scan returns exactly the occurrences at or after `pos`, each with
      the pattern's length, in strictly ascending position order. */
  lemma ScanFromSpec(p: Pattern, chunk: seq<byte>, pos: nat)
    requires WellFormedPattern(p)
    ensures ScanFrom(p, chunk, pos).Ok?
    ensures var ms := ScanFrom(p, chunk, pos).value;
      && (forall m :: m in ms <==> (m.1 == |p.bytes| && pos <= m.0 && MaskedAt(chunk, m.0, p)))
      && (forall i, j :: 0 <= i < j < |ms| ==> ms[i].0 < ms[j].0)
  {
    ScanFromMembers(p, chunk, pos);
    ScanFromAscending(p, chunk, pos);
  }

  /** Occurrences of a well-formed pattern. */
  function Matches(p: Pattern, chunk: seq<byte>): (ms: seq<Match>)
    requires WellFormedPattern(p)
  {
    ScanFromSpec(p, chunk, 0);
    PatternMatches(p, chunk).value
  }

  /** `(pos, len)` is reported for a pattern exactly when `len` is the
      pattern's length, the window fits in the chunk and every masked byte
      agrees; positions come out ascending. */
  lemma MatchesSpec(p: Pattern, chunk: seq<byte>, m: Match)
    requires WellFormedPattern(p)
    ensures m in Matches(p, chunk) <==>
      (m.1 == |p.bytes| && m.0 + m.1 <= |chunk|
       && forall i :: 0 <= i < m.1 ==> chunk[m.0 + i] & p.mask[i] == p.bytes[i])
    ensures forall i, j :: 0 <= i < j < |Matches(p, chunk)| ==> Matches(p, chunk)[i].0 < Matches(p, chunk)[j].0
  {
    ScanFromSpec(p, chunk, 0);
  }

  predicate WellFormedGroup(group: seq<Pattern>)
  {
    forall k :: 0 <= k < |group| ==> WellFormedPattern(group[k])
  }

  /** What `collect_previous_instructions` computes: each pattern's
      matches in pattern order; under Fast, stop after the first pattern
      with at least one match. */
  function CollectSpec(profile: Profile, group: seq<Pattern>, chunk: seq<byte>): (r: Outcome<seq<Match>>)
    ensures !r.Err?
  {
    if group == [] then Ok([])
    else
      var ms := PatternMatches(group[0], chunk);
      if ms.Panic? then Panic
      else if |ms.value| > 0 && profile == Fast then Ok(ms.value)
      else
        var rest := CollectSpec(profile, group[1..], chunk);
        if rest.Panic? then Panic else Ok(ms.value + rest.value)
  }

  /** `collect_previous_instructions`: a loop over the patterns that
      extends `out` and breaks under the Fast profile. */
  method CollectPreviousInstructions(profile: Profile, group: seq<Pattern>, chunk: seq<byte>)
    returns (r: Outcome<seq<Match>>)
    ensures r == CollectSpec(profile, group, chunk)
  {
    var out: seq<Match> := [];
    var k := 0;
    assert group[0..] == group;
    if CollectSpec(profile, group, chunk).Ok? {
      assert [] + CollectSpec(profile, group, chunk).value == CollectSpec(profile, group, chunk).value;
    }
    while k < |group|
      invariant 0 <= k <= |group|
      invariant CollectSpec(profile, group, chunk) == PrependOk(out, CollectSpec(profile, group[k..], chunk))
    {
      assert group[k..][0] == group[k] && group[k..][1..] == group[k + 1..];
      var chunks := PatternMatches(group[k], chunk);
      if chunks.Panic? {
        return Panic;
      }
      ghost var rest := CollectSpec(profile, group[k + 1..], chunk);
      if |chunks.value| > 0 {
        if profile == Fast {
          return Ok(out + chunks.value);
        }
        if rest.Ok? {
          assert out + (chunks.value + rest.value) == (out + chunks.value) + rest.value;
        }
        out := out + chunks.value;
      } else {
        if rest.Ok? {
          assert chunks.value + rest.value == rest.value;
        }
      }
      k := k + 1;
    }
    assert out + [] == out;
    r := Ok(out);
  }

  /** Concatenation of every pattern's matches, in pattern order. */
  function AllMatches(group: seq<Pattern>, chunk: seq<byte>): seq<Match>
    requires WellFormedGroup(group)
  {
    if group == [] then [] else Matches(group[0], chunk) + AllMatches(group[1..], chunk)
  }

  /** Complete profile: the output is the concatenation of all patterns'
      matches in pattern order. */
  lemma {:induction false} CompleteIsConcatenation(group: seq<Pattern>, chunk: seq<byte>)
    requires WellFormedGroup(group)
    ensures CollectSpec(Complete, group, chunk) == Ok(AllMatches(group, chunk))
    decreases |group|
  {
    if group != [] {
      ScanFromSpec(group[0], chunk, 0);
      CompleteIsConcatenation(group[1..], chunk);
    }
  }

  /** Fast profile: the output is the matches of the first pattern that
      has any, and empty when no pattern matches. */
  lemma {:induction false} FastTakesFirstMatchingPattern(group: seq<Pattern>, chunk: seq<byte>)
    requires WellFormedGroup(group)
    ensures CollectSpec(Fast, group, chunk).Ok?
    ensures var out := CollectSpec(Fast, group, chunk).value;
      || (out == [] && forall k :: 0 <= k < |group| ==> Matches(group[k], chunk) == [])
      || (exists k :: 0 <= k < |group| && out == Matches(group[k], chunk) != []
            && forall j :: 0 <= j < k ==> Matches(group[j], chunk) == [])
    decreases |group|
  {
    if group != [] {
      ScanFromSpec(group[0], chunk, 0);
      var m0 := Matches(group[0], chunk);
      if m0 == [] {
        FastTakesFirstMatchingPattern(group[1..], chunk);
        var out := CollectSpec(Fast, group, chunk).value;
        assert out == CollectSpec(Fast, group[1..], chunk).value;
        if out != [] {
          var k :| 0 <= k < |group[1..]| && out == Matches(group[1..][k], chunk) != []
            && forall j :: 0 <= j < k ==> Matches(group[1..][j], chunk) == [];
          assert out == Matches(group[k + 1], chunk);
          forall j | 0 <= j < k + 1 ensures Matches(group[j], chunk) == [] {
            if j > 0 { assert group[j] == group[1..][j - 1]; }
          }
        } else {
          forall k | 0 <= k < |group| ensures Matches(group[k], chunk) == [] {
            if k > 0 { assert group[k] == group[1..][k - 1]; }
          }
        }
      }
    }
  }

  /** Whatever the profile, every reported `(pos, len)` is an occurrence
      of one of the patterns. */
  lemma {:induction false} CollectIsSound(profile: Profile, group: seq<Pattern>, chunk: seq<byte>)
    requires WellFormedGroup(group)
    ensures CollectSpec(profile, group, chunk).Ok?
    ensures forall m :: m in CollectSpec(profile, group, chunk).value ==>
      exists k :: 0 <= k < |group| && m.1 == |group[k].bytes| && MaskedAt(chunk, m.0, group[k])
    decreases |group|
  {
    if group != [] {
      ScanFromSpec(group[0], chunk, 0);
      CollectIsSound(profile, group[1..], chunk);
      forall m | m in CollectSpec(profile, group, chunk).value
        ensures exists k :: 0 <= k < |group| && m.1 == |group[k].bytes| && MaskedAt(chunk, m.0, group[k])
      {
        if m in Matches(group[0], chunk) {
          assert m.1 == |group[0].bytes| && MaskedAt(chunk, m.0, group[0]);
        } else {
          var k :| 0 <= k < |group[1..]| && m.1 == |group[1..][k].bytes| && MaskedAt(chunk, m.0, group[1..][k]);
          assert group[1..][k] == group[k + 1];
        }
      }
    }
  }

  /** Complete profile: every occurrence of every pattern is reported. */
  lemma {:induction false} CompleteIsComplete(group: seq<Pattern>, chunk: seq<byte>, k: nat, pos: nat)
    requires WellFormedGroup(group) && k < |group| && MaskedAt(chunk, pos, group[k])
    ensures CollectSpec(Complete, group, chunk).Ok?
    ensures (pos, |group[k].bytes|) in CollectSpec(Complete, group, chunk).value
    decreases k
  {
    CompleteIsConcatenation(group, chunk);
    ScanFromSpec(group[0], chunk, 0);
    if k > 0 {
      assert group[1..][k - 1] == group[k];
      CompleteIsComplete(group[1..], chunk, k - 1, pos);
      CompleteIsConcatenation(group[1..], chunk);
    }
  }

  /** An empty pattern panics (`windows(0)`) as soon as the loop reaches
      it. */
  lemma EmptyPatternPanics(profile: Profile, group: seq<Pattern>, chunk: seq<byte>)
    requires group != [] && group[0].bytes == []
    ensures CollectSpec(profile, group, chunk).Panic?
  {
  }

  // ---------------------------------------------------------------------
  // get_all_valid_positions_and_length
  // ---------------------------------------------------------------------

  /** `get_all_valid_positions_and_length`: the patterns searched for in
      `data[cursor..]` are chosen by the gadget group; Int, Iret and
      Privileged reach `todo!()`, Undefined `panic!()`, and a cursor past
      the end panics on the slice. */
  method GetAllValidPositionsAndLength(
    profile: Profile, gadgetType: InstructionGroup,
    retInsns: seq<Pattern>, callInsns: seq<Pattern>, jmpInsns: seq<Pattern>,
    section: Section, cursor: nat)
    returns (r: Outcome<seq<Match>>)
    ensures cursor > |section.data| || gadgetType !in {Ret, Call, Jump} ==> r.Panic?
    ensures cursor <= |section.data| && gadgetType == Ret ==> r == CollectSpec(profile, retInsns, section.data[cursor..])
    ensures cursor <= |section.data| && gadgetType == Call ==> r == CollectSpec(profile, callInsns, section.data[cursor..])
    ensures cursor <= |section.data| && gadgetType == Jump ==> r == CollectSpec(profile, jmpInsns, section.data[cursor..])
    ensures r.Ok? ==> forall m :: m in r.value ==> cursor + m.0 + m.1 <= |section.data|
  {
    if cursor > |section.data| {
      return Panic;
    }
    var data := section.data[cursor..];
    var group: seq<Pattern>;
    match gadgetType {
      case Ret => group := retInsns;
      case Call => group := callInsns;
      case Jump => group := jmpInsns;
      case Int => return Panic;
      case Iret => return Panic;
      case Privileged => return Panic;
      case Undefined => return Panic;
    }
    r := CollectPreviousInstructions(profile, group, data);
    CollectFits(profile, group, data);
  }

  /** Every reported occurrence fits in the chunk, whether or not the
      patterns are well formed. */
  lemma {:induction false} CollectFits(profile: Profile, group: seq<Pattern>, chunk: seq<byte>)
    ensures CollectSpec(profile, group, chunk).Ok? ==>
      forall m :: m in CollectSpec(profile, group, chunk).value ==> m.0 + m.1 <= |chunk|
    decreases |group|
  {
    if group != [] && |group[0].bytes| > 0 {
      ScanFits(group[0], chunk, 0);
      CollectFits(profile, group[1..], chunk);
    }
  }

  lemma {:induction false} ScanFits(p: Pattern, chunk: seq<byte>, pos: nat)
    requires |p.bytes| > 0
    ensures ScanFrom(p, chunk, pos).Ok? ==>
      forall m :: m in ScanFrom(p, chunk, pos).value ==> m.0 + m.1 <= |chunk|
    decreases |chunk| - pos
  {
    if pos + |p.bytes| <= |chunk| {
      ScanFits(p, chunk, pos + 1);
    }
  }

  /** Positions are relative to the cursor: an occurrence at `pos` of
      `data[cursor..]` is an occurrence at `cursor + pos` of `data`. */
  lemma RelativeToCursor(data: seq<byte>, cursor: nat, pos: nat, p: Pattern)
    requires cursor <= |data|
    ensures MaskedAt(data[cursor..], pos, p) <==> MaskedAt(data, cursor + pos, p)
  {
    if pos + |p.bytes| <= |data[cursor..]| {
      var t := data[cursor..];
      forall k | pos <= k < pos + |p.bytes| ensures t[k] == data[cursor + k] { }
    }
  }

  // =====================================================================
  // Backward search from one anchor
  // =====================================================================

  /** The decoder as the search sees it (`Disassembler::disassemble`):
      bytes and their address to instructions, or None. */
  type Disasm = (seq<byte>, nat) -> Option<seq<Instruction>>

  function LastGroup(insns: seq<Instruction>): InstructionGroup
    requires insns != []
  {
    insns[|insns| - 1].group
  }

  predicate AddressTaken(gs: seq<Gadget>, a: nat)
  {
    exists i :: 0 <= i < |gs| && gs[i].address == a
  }

  predicate DistinctAddresses(gs: seq<Gadget>)
  {
    forall i, j :: 0 <= i < j < |gs| ==> gs[i].address != gs[j].address
  }

  /** One decoding step: keep the decoded list as a gadget when its last
      instruction has the wanted group and its address is new. */
  function Keep(gadgetType: InstructionGroup, x: seq<Instruction>, acc: seq<Gadget>): seq<Gadget>
  {
    if x != [] && LastGroup(x) == gadgetType && !AddressTaken(acc, x[0].address)
    then acc + [BuildGadget(x)] else acc
  }

  /** The loop of `find_gadgets_from_position` from candidate size `sz`,
      with `nbInvalid` consecutive failed decodings so far and the gadgets
      `acc` kept so far. `window` is `data[s..anchor + len]`; `base` is the
      section address of `window[0]`. The guard is the source's
      `sz - step >= window.len()`; a seek before the window's start is the
      `Err` of `Cursor::seek`; the address sum is a checked `u64` sum. */
  function Rewind(gadgetType: InstructionGroup, disasm: Disasm, base: nat, window: seq<byte>,
                  maxRewind: nat, step: nat, sz: nat, nbInvalid: nat, acc: seq<Gadget>)
    : (r: Outcome<seq<Gadget>>)
    requires step >= 1
    decreases |window| + step - sz
  {
    if sz < step then Panic
    else if sz - step >= |window| then Ok(acc)
    else if sz > |window| then Err(IoError)
    else if base + |window| > U64_MAX then Panic
    else
      match disasm(window[|window| - sz..], base + |window| - sz)
      case Some(x) =>
        Rewind(gadgetType, disasm, base, window, maxRewind, step, sz + step, 0, Keep(gadgetType, x, acc))
      case None =>
        if nbInvalid + 1 == maxRewind then Ok(acc)
        else Rewind(gadgetType, disasm, base, window, maxRewind, step, sz + step, nbInvalid + 1, acc)
  }

  /** One step of the rewind, unfolded: the decoding of the `sz`-byte
      suffix decides the next state. */
  lemma RewindStep(gadgetType: InstructionGroup, disasm: Disasm, base: nat, window: seq<byte>,
                   maxRewind: nat, step: nat, sz: nat, nbInvalid: nat, acc: seq<Gadget>)
    requires step >= 1 && step <= sz <= |window| && sz - step < |window| && base + |window| <= U64_MAX
    ensures var d := disasm(window[|window| - sz..], base + |window| - sz);
      Rewind(gadgetType, disasm, base, window, maxRewind, step, sz, nbInvalid, acc) ==
        if d.Some? then Rewind(gadgetType, disasm, base, window, maxRewind, step, sz + step, 0, Keep(gadgetType, d.value, acc))
        else if nbInvalid + 1 == maxRewind then Ok(acc)
        else Rewind(gadgetType, disasm, base, window, maxRewind, step, sz + step, nbInvalid + 1, acc)
  {
  }

  /** Start of the rewind window: `anchor - maxRewind`, saturating at 0. */
  function WindowStart(anchor: nat, maxRewind: nat): (s: nat)
    ensures s <= anchor
    ensures s == 0 || anchor - s == maxRewind
  {
    if anchor < maxRewind then 0 else anchor - maxRewind
  }

  /** What `find_gadgets_from_position` returns. */
  function FindGadgetsSpec(gadgetType: InstructionGroup, disasm: Disasm, section: Section,
                           anchor: nat, len: nat, maxRewind: nat, step: nat): Outcome<seq<Gadget>>
    requires step >= 1
  {
    if anchor + len > |section.data| then Panic
    else
      var s := WindowStart(anchor, maxRewind);
      Rewind(gadgetType, disasm, section.startAddress + s, section.data[s..anchor + len],
             maxRewind, step, len, 0, [])
  }

  /** `gadgets.iter().all(|x| x.address != a)`. */
  method AddressIsNew(gadgets: seq<Gadget>, a: nat) returns (isNew: bool)
    ensures isNew <==> !AddressTaken(gadgets, a)
  {
    isNew := true;
    var i := 0;
    while i < |gadgets|
      invariant 0 <= i <= |gadgets|
      invariant isNew <==> forall j :: 0 <= j < i ==> gadgets[j].address != a
    {
      if gadgets[i].address == a {
        isNew := false;
      }
      i := i + 1;
    }
  }

  /** The body of the loop for a successful decoding: the list becomes a
      gadget when it ends with the wanted group and its address is new. */
  method KeepDecoded(gadgetType: InstructionGroup, x: seq<Instruction>, gadgets: seq<Gadget>)
    returns (kept: seq<Gadget>)
    ensures kept == Keep(gadgetType, x, gadgets)
  {
    kept := gadgets;
    if x != [] && LastGroup(x) == gadgetType {
      var gadget := BuildGadget(x);
      var isNew := AddressIsNew(gadgets, gadget.address);
      if isNew {
        kept := gadgets + [gadget];
      }
    }
  }

  /** `find_gadgets_from_position`: cuts the window that ends `len` bytes
      after the anchor and reaches back at most `maxRewind` bytes, then
      runs the backward search over it. */
  method FindGadgetsFromPosition(gadgetType: InstructionGroup, disasm: Disasm, section: Section,
                                 anchor: nat, len: nat, maxRewind: nat, step: nat)
    returns (r: Outcome<seq<Gadget>>)
    requires step >= 1
    ensures r == FindGadgetsSpec(gadgetType, disasm, section, anchor, len, maxRewind, step)
  {
    if anchor + len > |section.data| {
      return Panic;
    }
    var s := if anchor < maxRewind then 0 else anchor - maxRewind;
    var data := section.data[s..anchor + len];
    r := RewindLoop(gadgetType, disasm, section.startAddress + s, data, maxRewind, step, len);
  }

  /** The loop of `find_gadgets_from_position`: tries ever longer suffixes
      of the window, `step` bytes at a time, keeping decodings that end
      with the wanted group at new addresses. */
  method RewindLoop(gadgetType: InstructionGroup, disasm: Disasm, base: nat, data: seq<byte>,
                    maxRewind: nat, step: nat, len: nat)
    returns (r: Outcome<seq<Gadget>>)
    requires step >= 1
    ensures r == Rewind(gadgetType, disasm, base, data, maxRewind, step, len, 0, [])
  {
    var sz := len;
    var nbInvalid := 0;
    var gadgets: seq<Gadget> := [];
    while true
      invariant Rewind(gadgetType, disasm, base, data, maxRewind, step, sz, nbInvalid, gadgets)
        == Rewind(gadgetType, disasm, base, data, maxRewind, step, len, 0, [])
      decreases |data| + step - sz
    {
      if sz < step {
        return Panic;
      }
      if sz - step >= |data| {
        break;
      }
      if sz > |data| {
        return Err(IoError);
      }
      var candidate := data[|data| - sz..];
      if base + |data| > U64_MAX {
        return Panic;
      }
      var addr := base + |data| - sz;
      RewindStep(gadgetType, disasm, base, data, maxRewind, step, sz, nbInvalid, gadgets);
      var insns := disasm(candidate, addr);
      match insns {
        case Some(x) =>
          nbInvalid := 0;
          gadgets := KeepDecoded(gadgetType, x, gadgets);
        case None =>
          nbInvalid := nbInvalid + 1;
          if nbInvalid == maxRewind {
            break;
          }
      }
      sz := sz + step;
    }
    r := Ok(gadgets);
  }

  // ---------------------------------------------------------------------
  // Properties of the backward search
  // ---------------------------------------------------------------------

  /** Returned gadgets have pairwise distinct addresses. */
  lemma {:induction false} RewindDistinct(gadgetType: InstructionGroup, disasm: Disasm, base: nat, window: seq<byte>,
                                          maxRewind: nat, step: nat, sz: nat, nbInvalid: nat, acc: seq<Gadget>)
    requires step >= 1 && DistinctAddresses(acc)
    ensures var r := Rewind(gadgetType, disasm, base, window, maxRewind, step, sz, nbInvalid, acc);
      r.Ok? ==> DistinctAddresses(r.value)
    decreases |window| + step - sz
  {
    if sz >= step && sz - step < |window| && sz <= |window| && base + |window| <= U64_MAX {
      match disasm(window[|window| - sz..], base + |window| - sz)
      case Some(x) =>
        var acc' := Keep(gadgetType, x, acc);
        if acc' != acc {
          forall i, j | 0 <= i < j < |acc'| ensures acc'[i].address != acc'[j].address {
            if j == |acc| {
              assert acc'[j].address == x[0].address;
              assert acc'[i] == acc[i];
            }
          }
        }
        RewindDistinct(gadgetType, disasm, base, window, maxRewind, step, sz + step, 0, acc');
      case None =>
        if nbInvalid + 1 != maxRewind {
          RewindDistinct(gadgetType, disasm, base, window, maxRewind, step, sz + step, nbInvalid + 1, acc);
        }
    }
  }

  /** Candidate `sz` of the rewind from an anchor: the final `sz` bytes of
      the section that end where the anchor's pattern ends. */
  function Candidate(section: Section, anchor: nat, len: nat, sz: nat): seq<byte>
    requires len <= sz <= anchor + len <= |section.data|
  {
    section.data[anchor + len - sz..anchor + len]
  }

  /** Size of the `k`-th candidate tried from an anchor of length `len`. */
  function CandidateSize(len: nat, step: nat, k: nat): (sz: nat)
    ensures sz >= len
  {
    if k == 0 then len else CandidateSize(len, step, k - 1) + step
  }

  /** `g` is the decoding of one of the candidates tried from the anchor,
      at that candidate's own address in the section, and ends with the
      wanted group. */
  ghost predicate FromCandidate(gadgetType: InstructionGroup, disasm: Disasm, section: Section,
                                anchor: nat, len: nat, maxRewind: nat, step: nat, g: Gadget)
  {
    && anchor + len <= |section.data|
    && g.insns != []
    && LastGroup(g.insns) == gadgetType
    && g == BuildGadget(g.insns)
    && CandidateDecodesTo(disasm, section, anchor, len, maxRewind, step, g.insns)
  }

  /** Some candidate tried from the anchor decodes to `x`; the candidate
      starts no earlier than the rewind window, `maxRewind` bytes before
      the anchor (or the section start). */
  ghost predicate CandidateDecodesTo(disasm: Disasm, section: Section, anchor: nat, len: nat,
                                     maxRewind: nat, step: nat, x: seq<Instruction>)
    requires anchor + len <= |section.data|
  {
    exists k: nat ::
      && CandidateSize(len, step, k) <= anchor + len - WindowStart(anchor, maxRewind)
      && disasm(Candidate(section, anchor, len, CandidateSize(len, step, k)),
                section.startAddress + anchor + len - CandidateSize(len, step, k)) == Some(x)
  }

  /** The suffix of length `sz` of the window ending at `anchor + len`
      is the candidate of that size, at the candidate's address. */
  lemma WindowSuffix(section: Section, anchor: nat, len: nat, s: nat, sz: nat)
    requires s <= anchor && anchor + len <= |section.data| && len <= sz <= anchor + len - s
    ensures section.data[s..anchor + len][anchor + len - s - sz..] == Candidate(section, anchor, len, sz)
  {
  }

  /** `g` is the decoding of one of the suffixes of `window` the rewind
      tries, at that suffix's address, and ends with the wanted group. */
  ghost predicate FromSuffix(gadgetType: InstructionGroup, disasm: Disasm, base: nat, window: seq<byte>,
                             len: nat, step: nat, g: Gadget)
  {
    && g.insns != []
    && LastGroup(g.insns) == gadgetType
    && g == BuildGadget(g.insns)
    && SuffixDecodesTo(disasm, base, window, len, step, g.insns)
  }

  /** Some suffix of `window` the rewind tries (`len + k * step` bytes for
      some `k`) decodes to `x`. */
  ghost predicate SuffixDecodesTo(disasm: Disasm, base: nat, window: seq<byte>, len: nat, step: nat,
                                  x: seq<Instruction>)
  {
    exists k: nat ::
      && CandidateSize(len, step, k) <= |window|
      && disasm(window[|window| - CandidateSize(len, step, k)..],
                base + |window| - CandidateSize(len, step, k)) == Some(x)
  }

  lemma CandidateNext(len: nat, step: nat, k: nat)
    ensures CandidateSize(len, step, k) + step == CandidateSize(len, step, k + 1)
    ensures CandidateSize(len, step, 0) == len
  {
  }

  /** Keeping a decoded suffix preserves "every gadget comes from a
      suffix". */
  lemma KeepFromSuffix(gadgetType: InstructionGroup, disasm: Disasm, base: nat, window: seq<byte>,
                       len: nat, step: nat, k: nat, x: seq<Instruction>, acc: seq<Gadget>)
    requires CandidateSize(len, step, k) <= |window|
    requires disasm(window[|window| - CandidateSize(len, step, k)..],
                    base + |window| - CandidateSize(len, step, k)) == Some(x)
    requires forall g :: g in acc ==> FromSuffix(gadgetType, disasm, base, window, len, step, g)
    ensures forall g :: g in Keep(gadgetType, x, acc) ==> FromSuffix(gadgetType, disasm, base, window, len, step, g)
  {
    if x != [] && LastGroup(x) == gadgetType && !AddressTaken(acc, x[0].address) {
      var g := BuildGadget(x);
      assert g.insns == x;
      assert SuffixDecodesTo(disasm, base, window, len, step, x);
    }
  }

  /** Every gadget the rewind keeps comes from a suffix it tried, given
      that those kept before do. */
  lemma {:induction false} RewindSound(gadgetType: InstructionGroup, disasm: Disasm, base: nat, window: seq<byte>,
                                       maxRewind: nat, step: nat, len: nat, k: nat, nbInvalid: nat, acc: seq<Gadget>)
    requires step >= 1
    requires forall g :: g in acc ==> FromSuffix(gadgetType, disasm, base, window, len, step, g)
    ensures var r := Rewind(gadgetType, disasm, base, window, maxRewind, step, CandidateSize(len, step, k), nbInvalid, acc);
      r.Ok? ==> forall g :: g in r.value ==> FromSuffix(gadgetType, disasm, base, window, len, step, g)
    decreases |window| + step - CandidateSize(len, step, k)
  {
    var sz := CandidateSize(len, step, k);
    if sz >= step && sz - step < |window| && sz <= |window| && base + |window| <= U64_MAX {
      CandidateNext(len, step, k);
      RewindStep(gadgetType, disasm, base, window, maxRewind, step, sz, nbInvalid, acc);
      var d := disasm(window[|window| - sz..], base + |window| - sz);
      if d.Some? {
        KeepFromSuffix(gadgetType, disasm, base, window, len, step, k, d.value, acc);
        RewindSound(gadgetType, disasm, base, window, maxRewind, step, len, k + 1, 0, Keep(gadgetType, d.value, acc));
      } else if nbInvalid + 1 != maxRewind {
        RewindSound(gadgetType, disasm, base, window, maxRewind, step, len, k + 1, nbInvalid + 1, acc);
      }
    }
  }

  /** A decoding of a suffix of the window `data[s..anchor + len]` is the
      decoding of the candidate of the same size. */
  lemma SuffixIsCandidate(disasm: Disasm, section: Section, anchor: nat, len: nat, maxRewind: nat, s: nat,
                          base: nat, window: seq<byte>, step: nat, x: seq<Instruction>)
    requires s == WindowStart(anchor, maxRewind) && anchor + len <= |section.data|
    requires window == section.data[s..anchor + len] && base == section.startAddress + s
    requires SuffixDecodesTo(disasm, base, window, len, step, x)
    ensures CandidateDecodesTo(disasm, section, anchor, len, maxRewind, step, x)
  {
    var k: nat :| && CandidateSize(len, step, k) <= |window|
                   && disasm(window[|window| - CandidateSize(len, step, k)..],
                             base + |window| - CandidateSize(len, step, k)) == Some(x);
    SuffixIsCandidateAt(disasm, section, anchor, len, maxRewind, s, base, window, step, k, x);
  }

  lemma SuffixIsCandidateAt(disasm: Disasm, section: Section, anchor: nat, len: nat, maxRewind: nat, s: nat,
                            base: nat, window: seq<byte>, step: nat, k: nat, x: seq<Instruction>)
    requires s == WindowStart(anchor, maxRewind) && anchor + len <= |section.data|
    requires window == section.data[s..anchor + len] && base == section.startAddress + s
    requires && CandidateSize(len, step, k) <= |window|
             && disasm(window[|window| - CandidateSize(len, step, k)..],
                       base + |window| - CandidateSize(len, step, k)) == Some(x)
    ensures CandidateDecodesTo(disasm, section, anchor, len, maxRewind, step, x)
  {
    var sz := CandidateSize(len, step, k);
    WindowSuffix(section, anchor, len, s, sz);
    assert disasm(Candidate(section, anchor, len, sz), section.startAddress + anchor + len - sz) == Some(x);
  }

  /** What the search returns from an anchor: gadgets at pairwise distinct
      addresses, each the decoding of a candidate `data[anchor + len - sz ..
      anchor + len]` with `sz = len + k * step` that starts inside the
      rewind window `data[s..anchor + len]`, decoded at that candidate's
      section address and ending with the wanted group. */
  lemma FindGadgetsSound(gadgetType: InstructionGroup, disasm: Disasm, section: Section,
                         anchor: nat, len: nat, maxRewind: nat, step: nat)
    requires step >= 1
    ensures var r := FindGadgetsSpec(gadgetType, disasm, section, anchor, len, maxRewind, step);
      r.Ok? ==>
        && DistinctAddresses(r.value)
        && forall g :: g in r.value ==> FromCandidate(gadgetType, disasm, section, anchor, len, maxRewind, step, g)
  {
    if anchor + len <= |section.data| {
      var s := WindowStart(anchor, maxRewind);
      var base := section.startAddress + s;
      var window := section.data[s..anchor + len];
      var r := Rewind(gadgetType, disasm, base, window, maxRewind, step, len, 0, []);
      assert FindGadgetsSpec(gadgetType, disasm, section, anchor, len, maxRewind, step) == r;
      RewindDistinct(gadgetType, disasm, base, window, maxRewind, step, len, 0, []);
      CandidateNext(len, step, 0);
      RewindSound(gadgetType, disasm, base, window, maxRewind, step, len, 0, 0, []);
      if r.Ok? {
        SuffixesAreCandidates(gadgetType, disasm, section, anchor, len, maxRewind, step, r.value);
      }
    }
  }

  lemma SuffixesAreCandidates(gadgetType: InstructionGroup, disasm: Disasm, section: Section,
                              anchor: nat, len: nat, maxRewind: nat, step: nat, gs: seq<Gadget>)
    requires anchor + len <= |section.data|
    requires var s := WindowStart(anchor, maxRewind);
      forall g :: g in gs ==>
        FromSuffix(gadgetType, disasm, section.startAddress + s, section.data[s..anchor + len], len, step, g)
    ensures forall g :: g in gs ==> FromCandidate(gadgetType, disasm, section, anchor, len, maxRewind, step, g)
  {
    var s := WindowStart(anchor, maxRewind);
    var base := section.startAddress + s;
    var window := section.data[s..anchor + len];
    forall g | g in gs ensures FromCandidate(gadgetType, disasm, section, anchor, len, maxRewind, step, g) {
      SuffixIsCandidate(disasm, section, anchor, len, maxRewind, s, base, window, step, g.insns);
    }
  }

  /** With a one-byte step (x86, x86-64) the guard keeps every candidate
      inside the window, so the seek never fails. */
  lemma {:induction false} UnitStepNeverSeeksOut(gadgetType: InstructionGroup, disasm: Disasm, base: nat, window: seq<byte>,
                                                 maxRewind: nat, sz: nat, nbInvalid: nat, acc: seq<Gadget>)
    ensures !Rewind(gadgetType, disasm, base, window, maxRewind, 1, sz, nbInvalid, acc).Err?
    decreases |window| + 1 - sz
  {
    if sz >= 1 && sz - 1 < |window| && base + |window| <= U64_MAX {
      match disasm(window[|window| - sz..], base + |window| - sz)
      case Some(x) =>
        UnitStepNeverSeeksOut(gadgetType, disasm, base, window, maxRewind, sz + 1, 0, Keep(gadgetType, x, acc));
      case None =>
        if nbInvalid + 1 != maxRewind {
          UnitStepNeverSeeksOut(gadgetType, disasm, base, window, maxRewind, sz + 1, nbInvalid + 1, acc);
        }
    }
  }

  /** Candidate sizes shifted by one step: starting one step later is
      skipping the first candidate. */
  lemma {:induction false} CandidateShift(sz: nat, step: nat, j: nat)
    ensures CandidateSize(sz + step, step, j) == CandidateSize(sz, step, j + 1)
    decreases j
  {
    if j > 0 {
      CandidateShift(sz, step, j - 1);
    }
  }

  /** Candidate sizes grow with the number of steps taken. */
  lemma {:induction false} CandidateMonotone(sz: nat, step: nat, j: nat, m: nat)
    requires j <= m
    ensures CandidateSize(sz, step, j) <= CandidateSize(sz, step, m)
    decreases m
  {
    if j < m {
      CandidateMonotone(sz, step, j, m - 1);
    }
  }

  /** The decoding of the `sz`-byte suffix of the window, at its address. */
  function DecodeSuffix(disasm: Disasm, base: nat, window: seq<byte>, sz: nat): Option<seq<Instruction>>
    requires sz <= |window|
  {
    disasm(window[|window| - sz..], base + |window| - sz)
  }

  /** The `count` candidates `sz`, `sz + step`, ... that lie inside the
      window all fail to decode. */
  ghost predicate AllFail(disasm: Disasm, base: nat, window: seq<byte>, sz: nat, step: nat, count: nat)
    decreases count
  {
    count > 0 ==>
      && (sz <= |window| ==> DecodeSuffix(disasm, base, window, sz).None?)
      && AllFail(disasm, base, window, sz + step, step, count - 1)
  }

  /** One failed decoding inside the window: the search stops when it is
      the `maxRewind`-th in a row, and otherwise counts it and moves on. */
  lemma FailStep(gadgetType: InstructionGroup, disasm: Disasm, base: nat, window: seq<byte>,
                 maxRewind: nat, step: nat, sz: nat, n: nat, acc: seq<Gadget>)
    requires step >= 1 && step <= sz <= |window| && base + |window| <= U64_MAX
    requires DecodeSuffix(disasm, base, window, sz).None?
    ensures Rewind(gadgetType, disasm, base, window, maxRewind, step, sz, n, acc) ==
      if n + 1 == maxRewind then Ok(acc)
      else Rewind(gadgetType, disasm, base, window, maxRewind, step, sz + step, n + 1, acc)
  {
  }

  /** `nb_invalid` counts consecutive failures only: from `n` failures in a
      row at size `sz`, if the next `maxRewind - n` candidates `sz`,
      `sz + step`, ... all lie inside the window and all fail to decode,
      the search stops there with the gadgets kept so far. */
  lemma {:induction false} StopsAfterConsecutiveFailures(gadgetType: InstructionGroup, disasm: Disasm, base: nat,
                                                         window: seq<byte>, maxRewind: nat, step: nat, sz: nat,
                                                         n: nat, acc: seq<Gadget>)
    requires step >= 1 && step <= sz && n < maxRewind && base + |window| <= U64_MAX
    requires CandidateSize(sz, step, maxRewind - n - 1) <= |window|
    requires AllFail(disasm, base, window, sz, step, maxRewind - n)
    ensures Rewind(gadgetType, disasm, base, window, maxRewind, step, sz, n, acc) == Ok(acc)
    decreases maxRewind - n
  {
    CandidateMonotone(sz, step, 0, maxRewind - n - 1);
    FailStep(gadgetType, disasm, base, window, maxRewind, step, sz, n, acc);
    if n + 1 < maxRewind {
      CandidateShift(sz, step, maxRewind - (n + 1) - 1);
      StopsAfterConsecutiveFailures(gadgetType, disasm, base, window, maxRewind, step, sz + step, n + 1, acc);
    }
  }

  /** A successful decoding resets the failure count: from a candidate that
      decodes, the search goes on the same whatever number of failures
      preceded it. */
  lemma SuccessResetsFailures(gadgetType: InstructionGroup, disasm: Disasm, base: nat, window: seq<byte>,
                              maxRewind: nat, step: nat, sz: nat, n: nat, acc: seq<Gadget>)
    requires step >= 1 && step <= sz <= |window| && base + |window| <= U64_MAX
    requires disasm(window[|window| - sz..], base + |window| - sz).Some?
    ensures Rewind(gadgetType, disasm, base, window, maxRewind, step, sz, n, acc)
         == Rewind(gadgetType, disasm, base, window, maxRewind, step, sz, 0, acc)
  {
    RewindStep(gadgetType, disasm, base, window, maxRewind, step, sz, n, acc);
    RewindStep(gadgetType, disasm, base, window, maxRewind, step, sz, 0, acc);
  }

  /** With a step above one byte (ARM, ARM64), a window whose length past
      the anchor is not a multiple of the step lets the guard admit a
      candidate longer than the window; the seek then fails and the whole
      position is an error, losing what was kept. Example: anchor 2,
      pattern length 4, step 4: the window is 6 bytes, size 4 is tried,
      then size 8 passes the guard and the seek fails. */
  lemma MisalignedWindowSeeksOut(gadgetType: InstructionGroup, disasm: Disasm, section: Section, maxRewind: nat)
    requires |section.data| >= 6 && section.startAddress + 6 <= U64_MAX && maxRewind >= 2
    ensures FindGadgetsSpec(gadgetType, disasm, section, 2, 4, maxRewind, 4) == Err(IoError)
  {
    var window := section.data[0..6];
    assert WindowStart(2, maxRewind) == 0;
    RewindStep(gadgetType, disasm, section.startAddress, window, maxRewind, 4, 4, 0, []);
    match disasm(window[2..], section.startAddress + 2)
    case Some(x) =>
      assert Rewind(gadgetType, disasm, section.startAddress, window, maxRewind, 4, 8, 0, Keep(gadgetType, x, [])) == Err(IoError);
    case None =>
      assert Rewind(gadgetType, disasm, section.startAddress, window, maxRewind, 4, 8, 1, []) == Err(IoError);
  }
}
