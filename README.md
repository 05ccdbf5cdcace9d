# ropgadget-rs, modelled in Dafny

This project models the gadget-finding core of ropgadget-rs, a ROP gadget finder written in Rust. The core has five parts:

- **Executable loaders.** They read just enough of a PE or ELF file to find its CPU, its entry point and its sections. The PE loader follows the Microsoft PE/COFF specification. The ELF loader follows the System V gABI, chapter 4 "Object Files".
- **Format dispatcher.** It chooses the loader from the magic bytes.
- **Per-architecture tables.** For each CPU they give the return and branch opcode patterns, the instruction step and the pointer size.
- **Gadget search.** A masked-pattern search finds anchor instructions in a section. A backward search from each anchor then decodes ever longer byte suffixes that end at the anchor.
- **Decoder post-filter, scheduler and output.** The post-filter keeps the longest suffix of a decoding in which only the last instruction is a jump, call or return. The scheduler runs one worker per section in batches and merges the results. The post-processing sorts and deduplicates the gadgets and formats the output lines.

Conventions of the model:

- Rust's `Result` becomes `Outcome`, which has `Ok`, `Err` and a third case, `Panic`. `Panic` stands for a `panic!`, a failed `unwrap`/`expect`, a slice index out of range, or an integer overflow as it behaves in a debug build.
- Integers are unbounded. The `u64` and `usize` (64-bit target) limits are checked explicitly wherever the source adds, multiplies or uses `checked_*`.
- Some operations take their foreign collaborators as parameters:
  - the Capstone decoder;
  - the `Disassembler` the search calls;
  - `Permission::from`;
  - the two search functions `main.rs` imports.

Modules:

| module | file | source |
|---|---|---|
| `Common` | common.dfy | `Outcome`, the error kinds, little-endian reads and their encoders, UTF-8 validity, collecting an iterator |
| `Sections` | section.dfy | src/section.rs |
| `Cpu` | cpu.dfy | src/cpu/mod.rs |
| `CpuX86` | cpu_x86.dfy | src/cpu/x86.rs |
| `CpuX64` | cpu_x64.dfy | src/cpu/x64.rs |
| `CpuArm` | cpu_arm.dfy | src/cpu/arm.rs |
| `Gadgets` | gadget.dfy | src/gadget.rs |
| `Engine` | engine.dfy | src/engine.rs |
| `Scheduler` | scheduler.dfy | src/main.rs |
| `Store` | store.dfy | src/lib.rs, post-processing |
| `Output` | output.dfy | src/lib.rs, output lines |
| `Pe` | pe.dfy | src/format/pe.rs |
| `Elf` | elf.dfy | src/format/elf.rs |
| `Format` | format.dfy | src/format/mod.rs |

How state-changing code is modelled:

- The loops of the source are methods with loop invariants. Each method is proved equal to a specification function, and the properties are lemmas about that function.
- The two section iterators are classes whose `index` field `Next` advances.
- The scheduler's session is a class whose gadget list `FindGadgets` extends. `CollectAllGadgets` rewrites the same list in place.

## Model

| member | source | states |
|---|---|---|
| Sections.FlagsAreDistinctBits | src/section.rs:7-11 | READABLE, WRITABLE and EXECUTABLE are distinct single bits 1, 2 and 4. ALL is 7 and contains exactly those three bits. Every permission contains NONE. |
| Sections.NewSection | src/section.rs:46-58 | Panics exactly when start >= end. Otherwise the section has the given bounds, no name, permission NONE and `end - start` zero bytes of data. |
| Cpu.DefaultCpuType | src/cpu/mod.rs:47-51 | The default CPU type is Unknown. |
| Cpu.DisplayIsInjective | src/cpu/mod.rs:33-45 | Every display string starts with "Arch=", and different CPU types display differently. |
| Cpu.DefaultNameIdentifiesType | src/cpu/mod.rs:28-30 | The default `name()` of two tables is equal exactly when their CPU types are equal. |
| Cpu.FromElfMachine | src/cpu/mod.rs:53-63 | Panics exactly on machines other than EM_386, EM_X86_64, EM_ARM and EM_AARCH64, and never yields Unknown. |
| Cpu.FromMachCpuType | src/cpu/mod.rs:65-75 | Panics exactly on CPU types other than the four Mach-O ones, and never yields Unknown. |
| Cpu.FromCoffMachine | src/cpu/mod.rs:77-88 | Panics exactly on unknown machines. Yields ARM exactly for COFF_MACHINE_ARM and COFF_MACHINE_ARMNT. |
| Cpu.ExactMatchesOnlyItself | src/cpu/mod.rs:20-26 | A plain opcode list, written as an (opcode, mask) pair with an all-0xff mask, matches a window exactly when the window equals the opcodes. |
| CpuX86.X86Table | src/cpu/x86.rs:9-50 | Type X86, pointer size 4, step 1. The return patterns are c3, c2, cb, cf in that order. The only branch pattern is ff. The table is usable by the search. |
| CpuX64.X64Table | src/cpu/x64.rs:9-52 | Type X64, pointer size 8, step 1. The return patterns are those of x86. The branch patterns are ff, eb, e9, ff ff, and only the last is two bytes long. |
| CpuArm.ArmTables | src/cpu/arm.rs:5-61 | ARM has pointer size 4 and ARM64 has 8. Both have step 4, the single return pattern c0 03 5f d6 and no branch patterns. |
| Gadgets.DefaultGroup | src/gadget.rs:21-25 | The default instruction group is Ret. |
| Gadgets.InstructionTextShape | src/gadget.rs:51-71 | The text is the mnemonic. A space and the operands follow exactly when the instruction has operands. |
| Gadgets.GadgetNew | src/gadget.rs:108-129 | Panics exactly on an empty list. Otherwise the gadget keeps the list, takes the first instruction's address, has the sum of the instruction sizes as `size` and the concatenation of their bytes as `raw`. |
| Gadgets.GadgetLayout | src/gadget.rs:117-121 | For instructions whose size is their byte count, `raw` has length `size`. Instruction k's bytes sit in `raw` at the sum of the sizes before it, so `raw` is the in-order concatenation. |
| Gadgets.TextOfAppend | src/gadget.rs:131-136 | The text of a list is the concatenation of its instructions' texts, each followed by " ; ". |
| Gadgets.GadgetTextEnds | src/gadget.rs:131-136 | The text ends with the last instruction's text followed by " ; ": the separator is kept after the last instruction. |
| Gadgets.WindowCmpAgrees | src/gadget.rs:166-173 | The byte-by-byte `cmp` of a masked window with the pattern is Equal exactly when every masked byte equals the pattern byte. |
| Gadgets.ScanFromSpec | src/gadget.rs:162-175 | The scan of one well-formed pattern returns exactly its occurrences at or after a position, each paired with the pattern length, in strictly ascending order. |
| Gadgets.MatchesSpec | src/gadget.rs:162-175 | (pos, len) is reported for a pattern exactly when len is the pattern length, pos + len fits in the chunk, and `chunk[pos+i] & mask[i] == bytes[i]` for every i. Positions ascend. |
| Gadgets.EmptyPatternPanics | src/gadget.rs:162-164 | A pattern of length 0 panics in `windows(0)` as soon as the loop reaches it. |
| Gadgets.CollectPreviousInstructions | src/gadget.rs:144-190 | The pattern loop with its `extend` and its Fast-profile `break` computes the collection specification. |
| Gadgets.CompleteIsConcatenation | src/gadget.rs:177-186 | Under Complete, the output is the concatenation of every pattern's matches in pattern order. |
| Gadgets.FastTakesFirstMatchingPattern | src/gadget.rs:177-186 | Under Fast, the output is the matches of the first pattern that has any. Every earlier pattern has none. The output is empty when no pattern matches. |
| Gadgets.CollectIsSound | src/gadget.rs:151-189 | Under either profile, every reported (pos, len) is an occurrence of one of the patterns, with that pattern's length. |
| Gadgets.CompleteIsComplete | src/gadget.rs:151-189 | Under Complete, every occurrence of every pattern is reported. |
| Gadgets.CollectFits | src/gadget.rs:163-175 | Every reported occurrence lies inside the chunk, whether or not the patterns are well formed. |
| Gadgets.GetAllValidPositionsAndLength | src/gadget.rs:192-220 | Ret, Call and Jump search `data[cursor..]` for the return, call and jump patterns. Int, Iret, Privileged, Undefined and a cursor past the end panic. Every result fits in the data after the cursor. |
| Gadgets.RelativeToCursor | src/gadget.rs:198-219 | An occurrence at pos of `data[cursor..]` is an occurrence at `cursor + pos` of the section data. |
| Gadgets.WindowStart | src/gadget.rs:236-240 | The window starts `max_rewind` bytes before the anchor, or at 0 when the anchor is closer to the start. |
| Gadgets.AddressIsNew | src/gadget.rs:290 | True exactly when no kept gadget has the address. |
| Gadgets.KeepDecoded | src/gadget.rs:283-300 | The loop body for a successful decoding keeps it as a gadget exactly when it is non-empty, ends with the wanted group and has a new address. |
| Gadgets.RewindStep | src/gadget.rs:253-311 | One iteration: a successful decoding resets the failure count and may keep a gadget. A failure either ends the search, on the `max_rewind`-th consecutive failure, or counts up. Either way `sz` grows by `step`. |
| Gadgets.RewindLoop | src/gadget.rs:248-312 | The `loop` over candidate sizes computes the rewind specification. |
| Gadgets.FindGadgetsFromPosition | src/gadget.rs:225-315 | Cuts `data[s..anchor+len]` and runs the backward search over it. It panics when the anchor's end lies past the section data. |
| Gadgets.RewindDistinct | src/gadget.rs:286-298 | The returned gadgets have pairwise distinct addresses. |
| Gadgets.RewindSound | src/gadget.rs:253-311 | Every kept gadget is the decoding of a suffix the loop tried, and ends with the wanted group. |
| Gadgets.FindGadgetsSound | src/gadget.rs:236-298 | Every returned gadget decodes the candidate `data[anchor+len-sz .. anchor+len]`, with `sz = len + k*step`, at that candidate's section address. The candidate starts inside the rewind window: `sz <= anchor + len - s`, where `s` is `anchor - max_rewind`, or 0 when the anchor is closer to the start. The gadget ends with the wanted group. Addresses are distinct. |
| Gadgets.UnitStepNeverSeeksOut | src/gadget.rs:259-268 | With a one-byte step the guard keeps every candidate inside the window, so the seek never fails. |
| Gadgets.StopsAfterConsecutiveFailures | src/gadget.rs:283-311 | Start from `n < max_rewind` failures in a row at size `sz`. Suppose the next `max_rewind - n` candidates `sz`, `sz + step`, … lie inside the window and none of them decodes. Then the search ends there and returns the gadgets kept so far. |
| Gadgets.SuccessResetsFailures | src/gadget.rs:284-285 | When a candidate decodes, the rest of the search does not depend on how many failures came before it: the count restarts at 0. |
| Gadgets.MisalignedWindowSeeksOut | src/gadget.rs:259-268 | With step 4, an anchor at 2 and a pattern length of 4, the window is 6 bytes long. The guard admits size 8 after size 4, so the seek fails. The whole position is then `Err`, whatever the decoder returns. |
| Engine.DefaultEngineType | src/engine.rs:18-22 | The default engine type is Invalid. |
| Engine.DisassemblyEngineNew | src/engine.rs:41-48 | Panics exactly for the Invalid engine or an Unknown CPU. |
| Engine.DefaultEngineCannotBeBuilt | src/engine.rs:18-46 | Building the default engine type panics. |
| Engine.CapstoneNew | src/engine.rs:96-131 | Panics exactly on Unknown. The mode is 64-bit exactly for X64 and ARM64, and an x86 mode exactly for X86 and X64. |
| Engine.CapstoneNewIsInjective | src/engine.rs:96-128 | Different CPU types get different decoder modes. |
| Engine.ClassifyGroupId | src/engine.rs:159-169 | Exactly the ids 1 to 6 are recognised, and never as Undefined. |
| Engine.ClassifyGroupIdIsInjective | src/engine.rs:62-67 | Distinct recognised ids stand for distinct groups. |
| Engine.GroupOfSpec | src/engine.rs:156-170 | The group is Undefined exactly when no id is recognised. Otherwise it is the group of a recognised id that no later recognised id follows, so the last one wins. |
| Engine.InstructionGroupOf | src/engine.rs:156-170 | The loop over an instruction's group ids computes that group. |
| Engine.LiftAllFaithful | src/engine.rs:172-187 | Each lifted instruction copies the decoder's bytes, address, mnemonic and operands, takes its group from its ids, and has size equal to its byte count. |
| Engine.LiftLoop | src/engine.rs:153-190 | The `candidates.push` loop lifts every decoded instruction in order. |
| Engine.TrimSpec | src/engine.rs:196-217 | The kept part is a non-empty suffix that ends with the last decoded instruction. No jump, call or ret occurs before its last instruction. It is maximal: the whole list, or the instruction before it is a jump, call or ret. |
| Engine.TrimLoop | src/engine.rs:196-217 | The reverse walk with `insert(0, ..)` and `break` computes that suffix. |
| Engine.CsDisassemble | src/engine.rs:134-220 | Returns None exactly when the decoder yields nothing. Otherwise it returns the trimmed suffix of the lifted instructions. |
| Engine.DecodingsAreGadgetShaped | src/engine.rs:134-220 | Whatever the decoder does, a Some result is non-empty, its sizes are byte counts, and only its last instruction may branch. |
| Engine.TrimKeepsShape | src/engine.rs:196-217 | Trimming a list whose sizes are byte counts keeps that property and leaves no branch before the last instruction. |
| Store.TextLeIsTotalPreorder | src/lib.rs:66 | Ordering gadgets by their exact text is a total preorder. Two gadgets are equivalent exactly when their texts are equal. |
| Store.AddrLeIsTotalPreorder | src/lib.rs:77 | Ordering gadgets by address is a total preorder. Two gadgets are equivalent exactly when their addresses are equal. |
| Store.SortBySpec | src/lib.rs:66-77 | The stable sort orders its input, is a permutation of it, and keeps equivalent elements in their original relative order. |
| Store.EqIgnoreAsciiCaseIsEquivalence | src/lib.rs:67 | Equality ignoring ASCII case is reflexive, symmetric and transitive, and strictly coarser than equality ("RET" and "ret"). |
| Store.DedupSubseq | src/lib.rs:67 | `dedup_by` keeps a subsequence of its input. |
| Store.DedupNoAdjacentDuplicates | src/lib.rs:67 | After `dedup_by`, no element duplicates its left neighbour. |
| Store.DedupCovers | src/lib.rs:67 | Only duplicates are dropped: every input element is the same as some kept element. |
| Store.DedupIdempotent | src/lib.rs:67 | Deduplicating twice gives the same list as deduplicating once. |
| Store.TextSameIsEquivalence | src/lib.rs:67 | The dedup test, text equal ignoring ASCII case, is reflexive, symmetric and transitive. |
| Store.DedupIsRunHeads | src/lib.rs:67 | For a test that is an equivalence, `dedup_by` keeps exactly the first element of every run: `s[0]`, and each `s[i]` that is not the same as `s[i-1]`. |
| Store.UniqueKeepsRunHeads | src/lib.rs:66-67 | The unique list is the first gadget of each run of case-insensitively equal texts in the stable text-sorted list. The final unique list is that list sorted by address, so the reported address of a run is its first gadget's. |
| Store.DedupIsAdjacentOnly | src/lib.rs:66-67 | Only neighbours are compared. After the text sort, "RET ; " and "ret ; " are separated by "pop ; ", so both survive although they are equal ignoring case. |
| Store.FinaliseSpec | src/lib.rs:60-77 | The final list ascends by address and keeps the prior order among equal addresses. Without `unique_only` it is a permutation of the collected gadgets. With `unique_only` it is a sub-multiset of them in which every collected gadget has a case-insensitive text twin. Store.UniqueKeepsRunHeads states which twin survives. |
| Store.RemovedCountIsNatural | src/lib.rs:68-71 | The removed count `total - gadgets.len()` cannot underflow. |
| Store.CollectAllGadgets | src/lib.rs:55-77 | In place on the session's list: it becomes the finalised list, the removed count is reported exactly with `unique_only`, and nothing else in the session changes. |
| Output.HexSpec | src/lib.rs:122 | `{:x}` digits read back to the number, have no leading zero except for 0, and number at most k when the value is below 16^k. |
| Output.ZeroPadValue | src/lib.rs:91-98 | Zero padding keeps the digits hexadecimal and their value unchanged. |
| Output.ConsoleAddressSpec | src/lib.rs:91-98 | The console address is "0x" followed by 16 digits for a 64-bit target and 8 otherwise, when the address fits, and reads back to the address. |
| Output.ConsoleLineSpec | src/lib.rs:89-104 | A console line is "0x", then 16 digits for a 64-bit target (every `u64` address fits) or 8 otherwise, when the address fits. The digits read back to the address, and " \| " and the gadget text follow. |
| Output.FileLine | src/lib.rs:121-122 | A file line panics exactly when entry point + address overflows `u64`. |
| Output.FileLineSpec | src/lib.rs:119-123 | A file line is "0x", at most 16 hexadecimal digits of entry point + address, " \| ", the gadget text, then a newline. |
| Output.WriteFile | src/lib.rs:119-123 | The writing loop produces one line per gadget, in list order. |
| Output.FileContentsPanics | src/lib.rs:121 | One overflowing address makes the whole write panic. |
| Scheduler.GadgetsFrom | src/main.rs:34-47 | The per-position loop never returns an error; it only passes on panics. |
| Scheduler.ProcessSection | src/main.rs:30-50 | The per-position loop computes the section's gadget list. An error from the position search is passed on. |
| Scheduler.GadgetsFromPanics | src/main.rs:34-47 | A section panics exactly when the search from one of its positions panics. |
| Scheduler.OkIndicesSpec | src/main.rs:34-47 | The successful positions are listed once each, in ascending order, and all of them are listed. |
| Scheduler.GadgetsFromOk | src/main.rs:34-47 | The section's gadgets are, in anchor order, exactly the results of the successful searches. Failing anchors are skipped. |
| Scheduler.AtMostOnePerPosition | src/main.rs:34-47 | A section yields at most one gadget per anchor position. |
| Scheduler.BatchEnd | src/main.rs:82-94 | A batch covers at most `nb_thread` sections. It ends at the last section or after exactly `nb_thread`. |
| Scheduler.BatchProgress | src/main.rs:78-94 | A batch makes no progress exactly when `nb_thread` is 0. In that case the outer loop never ends. |
| Scheduler.SpawnBatch | src/main.rs:82-94 | The spawn loop advances `i` by one per spawned worker and runs one worker per scheduled section, in section order. |
| Scheduler.MergedAppend | src/main.rs:96-112 | The merge is section by section, in section order. |
| Scheduler.MergedSingle | src/main.rs:53-58 | A section contributes its gadgets when its worker succeeds, and nothing when `process_section` fails and the `unwrap` panics. |
| Scheduler.Session.JoinAll | src/main.rs:96-112 | Joined workers' gadgets are appended in spawn order, and a failed worker adds nothing. The count is the number appended. |
| Scheduler.Session.FindGadgets | src/main.rs:64-120 | The old gadgets are followed by the merged gadgets of every section, in section order. The total is the number appended, the result is true, and nothing else changes. |
| Pe.MachineOf | src/format/pe.rs:223-236 | Exactly 0x014c, 0x8664 and 0xaa64 are accepted. |
| Pe.MachineOfAgreesWithCoff | src/format/pe.rs:230-235 | On every accepted machine the parser agrees with the COFF mapping. Of the machines that mapping knows, it rejects only the two 32-bit ARM ones. |
| Pe.ParseOutcome | src/format/pe.rs:196-311 | InvalidMagicParsingError exactly without "MZ". InvalidStructureParsingError exactly when "PE\0\0" is missing at `e_lfanew`. UnsupportedCpuError exactly for an unknown machine. A panic exactly when a read falls outside the buffer. |
| Pe.ParseFields | src/format/pe.rs:245-320 | A successful parse keeps the u16 section count at `e_lfanew+6` and the section table at `e_lfanew + 24 + SizeOfOptionalHeader`. It keeps the u32 ImageBase at optional-header offset 28 (x86) or 24 (others), and the u32 entry point at offset 16. |
| Pe.SectionAt | src/format/pe.rs:357-363 | An item is never an error, only a section, None or a panic. |
| Pe.SectionIterator.Next | src/format/pe.rs:349-400 | Past the last entry it yields None and stays put. Otherwise it advances by one and yields entry i, read at `section_table_offset + 40*i`. |
| Pe.CollectOne | src/format/pe.rs:326-332 | One `next` while collecting: a section is pushed, None ends the list, and a panic ends everything. |
| Pe.CollectSections | src/format/pe.rs:323-334 | `sections()` collects items until None: exactly the items of entries 0, 1, … up to the first None. |
| Pe.SectionHeaderFields | src/format/pe.rs:365-391 | The name and the five u32 fields of an encoded entry read back from their offsets. |
| Pe.EntryRoundTrip | src/format/pe.rs:365-399 | An encoded entry decodes to its section: start = ImageBase + VirtualAddress, end = start + VirtualSize, data = `bytes[PointerToRawData..+SizeOfRawData]`, permission from the characteristics. |
| Pe.SectionRoundTrip | src/format/pe.rs:360-399 | Entry i written at `section_table_offset + 40*i` is the section the iterator yields for i. |
| Pe.SectionAtInRange | src/format/pe.rs:360-363 | An entry inside a buffer that fits `usize` is decoded at its offset. |
| Pe.ExecutableOnlyMembers | src/format/pe.rs:483-487 | The filter keeps exactly the sections whose permission contains EXECUTABLE. |
| Pe.ExecutableOnlyAppend | src/format/pe.rs:483-487 | The filter distributes over concatenation, so it keeps the sections' order. |
| Pe.PeNew | src/format/pe.rs:469-544 | `Pe::new` parses, collects the sections and keeps the executable ones. Every section it returns is executable. |
| Pe.PeNewKeepsExecutable | src/format/pe.rs:469-544 | A successful load has the parser's entry point and machine, and exactly the collected sections that are executable. |
| Elf.MachineOf | src/format/elf.rs:176-194 | Exactly 3, 0x3e and 0x28 are accepted. 0x28 is ARM64 in a 64-bit file and ARM in a 32-bit one. |
| Elf.MachineOfVersusElfMachine | src/format/elf.rs:176-194 | The loader agrees with the CPU module's ELF mapping on x86, x86-64 and 32-bit ARM. It reads 0x28 as ARM64 in a 64-bit file and rejects EM_AARCH64. |
| Elf.New | src/format/elf.rs:152-245 | A successful load keeps the buffer, and its section count fits in a u16. |
| Elf.NewOutcome | src/format/elf.rs:152-231 | InvalidMagicParsingError exactly without 7f "ELF". InvalidFileError exactly for a class byte other than 1 or 2. UnsupportedCpuError exactly for an unknown machine. A panic exactly when an accepted header is cut short. |
| Elf.NewFields | src/format/elf.rs:176-244 | A successful load keeps the machine at 18, the entry at 24 (u64 or u32), `e_shnum` at 60 or 48, and `e_shoff` at 40 (u64) or 32 (u32). |
| Elf.HeaderFields | src/format/elf.rs:196-231 | Every field of an encoded 32- or 64-bit header reads back from the offsets of its class. |
| Elf.HeaderRoundTrip | src/format/elf.rs:152-245 | A buffer that starts with an encoded header loads with that header's CPU, entry point, section count and table offset. |
| Elf.DecodeEntry | src/format/elf.rs:112-132 | An item is never an error, only a section, None or a panic. |
| Elf.BuildSectionOutcome | src/format/elf.rs:126-132 | None exactly when `sh_addr + sh_size` overflows. Otherwise a panic exactly when the data lies outside the buffer, and else the section `[sh_addr, sh_addr + sh_size)` holding `bytes[sh_offset..+sh_size]`. |
| Elf.SectionAt | src/format/elf.rs:109-113 | An item is never an error. |
| Elf.ElfSectionIterator.Next | src/format/elf.rs:101-133 | Past the last header, or when `64*index` overflows, it yields None and stays put. Otherwise it advances by one and yields header i at `e_shoff + 64*i`. |
| Elf.CollectOne | src/format/elf.rs:263-268 | One `next` while collecting: a section is pushed, None ends the list, and a panic ends everything. |
| Elf.ExecutableSections | src/format/elf.rs:263-269 | `executable_sections` collects every section the iterator yields, with no permission filter. |
| Elf.OutOfFileHeaderTruncates | src/format/elf.rs:109-113 | A header that starts past the end of the buffer ends the collection. The result is the collection of the headers before it. |
| Elf.SectionHeaderFields | src/format/elf.rs:116-124 | The name and the four u64 fields of an encoded 64-bit section header read back from their offsets. |
| Elf.EntryRoundTrip | src/format/elf.rs:112-132 | An encoded header inside the buffer decodes to the section built from the fields it holds. |
| Elf.SectionRoundTrip | src/format/elf.rs:109-132 | Header i written at `e_shoff + 64*i` is the one the iterator decodes for i. |
| Elf.From | src/format/elf.rs:248-252 | `Elf::from` never returns an error. It succeeds exactly when `new` does, with the same file, and panics otherwise. |
| Format.ParseOutcome | src/format/mod.rs:27-44 | InvalidFileError exactly for fewer than 4 bytes. InvalidMagicParsingError exactly when neither "MZ" nor 7f "ELF" starts the buffer. No other error escapes. A PE result implies "MZ", and an ELF result implies the ELF magic without "MZ". |
| Format.ParsePe | src/format/mod.rs:30-31 | With "MZ", the result is the PE image exactly when `Pe::new` succeeds, and a panic otherwise. |
| Format.ParseElf | src/format/mod.rs:32-33 | With the ELF magic, the result is the ELF file exactly when `Elf::new` succeeds, and a panic otherwise. |
| Format.MagicsDisjoint | src/format/mod.rs:30-33 | No buffer starts with both "MZ" and the ELF magic. |
| Format.CpuOfSpec | src/format/mod.rs:67-75 | `cpu()` panics exactly on Unknown. Otherwise its table has the requested type, is usable by the search, and has pointer size 8 exactly for the 64-bit types. |
| Format.LoadedFileHasCpu | src/format/mod.rs:67-75 | Every file the dispatcher loads has a CPU type that `cpu()` accepts. |

## Left out

- Capstone itself: its setup, `disasm_all` and `insn_detail`. The decoder is a function parameter from bytes and address to decoded instructions. `disasm_all`'s `expect` failure is not modelled.
- Threads, `Arc`, mutex locking and `join` mechanics. Each worker runs as a sequential call whose result is its gadgets or a failure, in spawn order.
- File reading, file writing, console printing, colours, logging and timing. The model produces the strings that would be written. `ConsoleLine` has no colour codes.
- src/session.rs, src/error.rs, src/format/mach.rs and examples/rp-rs.rs are not part of this model. The Mach-O loader is commented out, and the dispatcher never calls it.
- `Permission::from`, the search functions `get_all_return_positions` and `find_biggest_gadget_from_position`, `max_rewind_size`, `call_insns` and `jmp_insns` are not among the modelled files. They are parameters, so the `IMAGE_SCN_MEM_*` constants are unused.
- `Pe::from`, which the dispatcher calls, is not defined in src/format/pe.rs. It is modelled as `Pe::new` with every error turned into a panic, the way `Elf::from` is written.
- The `size` field of `Section` is not stored. It is `Size()`, `end - start`, as `Section::new` computes it. The loaders do not set it.
- Section names are kept as their raw bytes, checked to be UTF-8, rather than as a `String`.
- The ELF loader reads 32-bit files with the 64-bit section header layout, as the source does. Its name is the first four header bytes, not a string-table lookup.
- Gadgets.FindGadgetsFromPosition: requires `step >= 1`. With a zero step the source's `sz` never grows, and the loop ends only by failures.
- Gadgets.RewindLoop: requires `step >= 1`, for the same reason.
- The source's `Cursor::read_exact` failure cannot happen once the seek succeeds: a read of `sz` bytes starting `sz` bytes before the end stops exactly at the end. The model has no branch for it.
- Scheduler.Session.FindGadgets: requires `nb_thread >= 1` when there are sections. With none, the source's `while` loop never ends (Scheduler.BatchProgress).
- Buffers are assumed to be at most `usize::MAX` bytes long where the loaders index them, and counts of gadgets are unbounded naturals. A `usize` overflow of a list length is not modelled.
- The `i64` negation and cast in the seek offset are modelled as a seek to `len - sz`. A value beyond `i64` is unreachable for buffers that fit in memory.
- The engines' `name()` strings, which include Capstone's library version, are left out.
