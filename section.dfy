/** Executable sections and their permission flags (src/section.rs). */
module Sections {
  import opened Common

  /** `Permission` is a `u8` bit set. */
  type Permission = bv8

  const NONE: Permission := 0
  const READABLE: Permission := 1
  const WRITABLE: Permission := 2
  const EXECUTABLE: Permission := 4
  const ALL: Permission := READABLE | WRITABLE | EXECUTABLE

  /** `Permission::contains`: every bit of `flag` is set in `p`. */
  predicate Contains(p: Permission, flag: Permission) { p & flag == flag }

  /** The three flags are distinct single bits, and ALL is exactly their
      union: it contains each of them and nothing else. */
  lemma FlagsAreDistinctBits()
    ensures READABLE != WRITABLE && WRITABLE != EXECUTABLE && READABLE != EXECUTABLE
    ensures READABLE & WRITABLE == 0 && WRITABLE & EXECUTABLE == 0 && READABLE & EXECUTABLE == 0
    ensures ALL == 7
    ensures Contains(ALL, READABLE) && Contains(ALL, WRITABLE) && Contains(ALL, EXECUTABLE)
    ensures forall p: Permission :: Contains(ALL, p) <==> p & 0xF8 == 0
    ensures forall p: Permission :: Contains(p, NONE)
  {
  }

  /** `Permission::from(flags)`, which turns a loader's section flags into
      a `Permission`, is not part of this model: the loaders take it as a
      parameter. */
  type PermissionOf = nat -> Permission

  /** A region of the image: its address range, its name (the raw bytes of
      the name, which the loaders have checked to be UTF-8), its permission
      and its bytes as stored in the file. */
  datatype Section = Section(
    startAddress: nat,
    endAddress: nat,
    name: seq<byte>,
    permission: Permission,
    data: seq<byte>)
  {
    /** `size` as `Section::new` computes it. */
    function Size(): nat
      requires startAddress <= endAddress
    {
      endAddress - startAddress
    }

    predicate IsExecutable() { Contains(permission, EXECUTABLE) }
  }

  /** `Section::new`: asserts `start < end`; the new section is unnamed,
      has no permission, and holds `end - start` zero bytes. */
  function NewSection(start: nat, end: nat): (r: Outcome<Section>)
    ensures r.Panic? <==> start >= end
    ensures r.Ok? ==>
      && r.value.startAddress == start && r.value.endAddress == end
      && |r.value.data| == r.value.Size()
      && (forall i :: 0 <= i < |r.value.data| ==> r.value.data[i] == 0)
      && r.value.name == [] && r.value.permission == NONE
      && !r.value.IsExecutable()
    ensures !r.Err?
  {
    if start < end then
      Ok(Section(start, end, [], NONE, seq(end - start, _ => 0 as bv8)))
    else
      Panic
  }
}
