/** Post-processing of the collected gadgets (src/lib.rs,
    `collect_all_gadgets`): with `unique_only`, sort by text and drop
    neighbours whose texts differ only in ASCII case; then sort by
    address. Both sorts are the standard library's stable sorts; they are
    modelled by one stable sort, insertion of each element after every
    element not greater than it. */
module Store {
  import opened Common
  import opened Gadgets
  import opened Scheduler


  /** A comparison `le(a, b)`: "a may come before b". */
  type Order = (Gadget, Gadget) -> bool

  /** What the sorts need of their comparison. */
  ghost predicate TotalPreorder(le: Order)
  {
    && (forall a, b :: le(a, b) || le(b, a))
    && (forall a, b, c :: le(a, b) && le(b, c) ==> le(a, c))
  }

  predicate Equiv(le: Order, a: Gadget, b: Gadget) { le(a, b) && le(b, a) }

  ghost predicate SortedBy(le: Order, s: seq<Gadget>)
  {
    forall i, j :: 0 <= i < j < |s| ==> le(s[i], s[j])
  }

  // ---------------------------------------------------------------------
  // The two orders
  // ---------------------------------------------------------------------

  /** `Ord for str`: lexicographic, a proper prefix first. (Comparing the
      UTF-8 bytes and comparing the code points give the same order.) */
  predicate LexLe(a: string, b: string)
    decreases |a|
  {
    a == [] || (b != [] && (a[0] < b[0] || (a[0] == b[0] && LexLe(a[1..], b[1..]))))
  }

  lemma {:induction false} LexLeTotal(a: string, b: string)
    ensures LexLe(a, b) || LexLe(b, a)
    decreases |a|
  {
    if a != [] && b != [] && a[0] == b[0] {
      LexLeTotal(a[1..], b[1..]);
    }
  }

  lemma {:induction false} LexLeTrans(a: string, b: string, c: string)
    requires LexLe(a, b) && LexLe(b, c)
    ensures LexLe(a, c)
    decreases |a|
  {
    if a != [] && b != [] && c != [] && a[0] == b[0] == c[0] {
      LexLeTrans(a[1..], b[1..], c[1..]);
    }
  }

  lemma {:induction false} LexLeAntisym(a: string, b: string)
    requires LexLe(a, b) && LexLe(b, a)
    ensures a == b
    decreases |a|
  {
    if a != [] && b != [] {
      LexLeAntisym(a[1..], b[1..]);
      assert a == [a[0]] + a[1..] && b == [b[0]] + b[1..];
    }
  }

  /** `sort_by_key(|a| a.text(false))`. */
  function TextLe(): Order
  {
    (a: Gadget, b: Gadget) => LexLe(GadgetText(a), GadgetText(b))
  }

  /** `sort_by(|a, b| a.address.cmp(&b.address))`. */
  function AddrLe(): Order
  {
    (a: Gadget, b: Gadget) => a.address <= b.address
  }

  /** The text order is a total preorder in which equivalent gadgets have
      the same text. */
  lemma TextLeIsTotalPreorder()
    ensures TotalPreorder(TextLe())
    ensures forall a, b :: Equiv(TextLe(), a, b) <==> GadgetText(a) == GadgetText(b)
  {
    var le := TextLe();
    forall a, b ensures le(a, b) || le(b, a) {
      LexLeTotal(GadgetText(a), GadgetText(b));
    }
    forall a, b, c | le(a, b) && le(b, c) ensures le(a, c) {
      LexLeTrans(GadgetText(a), GadgetText(b), GadgetText(c));
    }
    forall a, b ensures Equiv(le, a, b) <==> GadgetText(a) == GadgetText(b) {
      if Equiv(le, a, b) {
        LexLeAntisym(GadgetText(a), GadgetText(b));
      } else if GadgetText(a) == GadgetText(b) {
        LexLeTotal(GadgetText(a), GadgetText(b));
      }
    }
  }

  /** The address order is a total preorder in which equivalent gadgets
      have the same address. */
  lemma AddrLeIsTotalPreorder()
    ensures TotalPreorder(AddrLe())
    ensures forall a, b :: Equiv(AddrLe(), a, b) <==> a.address == b.address
  {
  }

  // ---------------------------------------------------------------------
  // Stable sort
  // ---------------------------------------------------------------------

  /** Insert `x` after every element of `t` that is not strictly greater. */
  function Insert(le: Order, x: Gadget, t: seq<Gadget>): (r: seq<Gadget>)
    ensures |r| == |t| + 1
  {
    if t == [] then [x]
    else if le(x, t[0]) && !le(t[0], x) then [x] + t
    else [t[0]] + Insert(le, x, t[1..])
  }

  /** The stable sort: the elements inserted one after another in input
      order. */
  function SortBy(le: Order, s: seq<Gadget>): (r: seq<Gadget>)
    ensures |r| == |s|
  {
    if s == [] then [] else Insert(le, s[|s| - 1], SortBy(le, s[..|s| - 1]))
  }

  /** The elements of `s` equivalent to `x`, in their order in `s`. */
  function Class(le: Order, x: Gadget, s: seq<Gadget>): seq<Gadget>
  {
    if s == [] then [] else (if Equiv(le, x, s[0]) then [s[0]] else []) + Class(le, x, s[1..])
  }

  lemma {:induction false} ClassAppend(le: Order, x: Gadget, a: seq<Gadget>, b: seq<Gadget>)
    ensures Class(le, x, a + b) == Class(le, x, a) + Class(le, x, b)
    decreases |a|
  {
    if a == [] {
      assert a + b == b;
    } else {
      assert (a + b)[0] == a[0] && (a + b)[1..] == a[1..] + b;
      ClassAppend(le, x, a[1..], b);
    }
  }

  lemma {:induction false} ClassOfNone(le: Order, x: Gadget, s: seq<Gadget>)
    requires forall y :: y in s ==> !Equiv(le, x, y)
    ensures Class(le, x, s) == []
    decreases |s|
  {
    if s != [] {
      ClassOfNone(le, x, s[1..]);
    }
  }

  lemma {:induction false} InsertMultiset(le: Order, x: Gadget, t: seq<Gadget>)
    ensures multiset(Insert(le, x, t)) == multiset(t) + multiset{x}
    decreases |t|
  {
    if t != [] && !(le(x, t[0]) && !le(t[0], x)) {
      InsertMultiset(le, x, t[1..]);
      assert t == [t[0]] + t[1..];
    }
  }

  lemma {:induction false} InsertSorted(le: Order, x: Gadget, t: seq<Gadget>)
    requires TotalPreorder(le) && SortedBy(le, t)
    ensures SortedBy(le, Insert(le, x, t))
    decreases |t|
  {
    if t != [] {
      if le(x, t[0]) && !le(t[0], x) {
        forall e | e in t ensures le(x, e) {
          var k :| 0 <= k < |t| && t[k] == e;
          assert le(t[0], t[k]) || k == 0;
        }
        ConsSorted(le, x, t);
      } else {
        var tail := t[1..];
        SortedTail(le, t);
        var rest := Insert(le, x, tail);
        InsertSorted(le, x, tail);
        InsertMultiset(le, x, tail);
        assert le(t[0], x);
        forall e | e in rest ensures le(t[0], e) {
          assert e in multiset(rest);
          if e != x {
            var k :| 0 <= k < |tail| && tail[k] == e;
            assert t[k + 1] == e;
          }
        }
        ConsSorted(le, t[0], rest);
      }
    }
  }

  lemma SortedTail(le: Order, t: seq<Gadget>)
    requires t != [] && SortedBy(le, t)
    ensures SortedBy(le, t[1..])
  {
    forall i, j | 0 <= i < j < |t| - 1 ensures le(t[1..][i], t[1..][j]) {
      assert t[1..][i] == t[i + 1] && t[1..][j] == t[j + 1];
    }
  }

  /** An element below every element of a sorted list may go in front. */
  lemma ConsSorted(le: Order, y: Gadget, rest: seq<Gadget>)
    requires SortedBy(le, rest) && forall e :: e in rest ==> le(y, e)
    ensures SortedBy(le, [y] + rest)
  {
    var r := [y] + rest;
    forall i, j | 0 <= i < j < |r| ensures le(r[i], r[j]) {
      assert r[j] == rest[j - 1];
      if i > 0 {
        assert r[i] == rest[i - 1];
      } else {
        assert r[j] in rest;
      }
    }
  }

  lemma {:induction false} InsertClass(le: Order, z: Gadget, x: Gadget, t: seq<Gadget>)
    requires TotalPreorder(le) && SortedBy(le, t)
    ensures Class(le, z, Insert(le, x, t)) == Class(le, z, t) + (if Equiv(le, z, x) then [x] else [])
    decreases |t|
  {
    if t == [] {
    } else if le(x, t[0]) && !le(t[0], x) {
      assert ([x] + t)[0] == x && ([x] + t)[1..] == t;
      if Equiv(le, z, x) {
        forall y | y in t ensures !Equiv(le, z, y) {
          var k :| 0 <= k < |t| && t[k] == y;
          assert le(t[0], y);
        }
        ClassOfNone(le, z, t);
      }
    } else {
      InsertClass(le, z, x, t[1..]);
      var r := [t[0]] + Insert(le, x, t[1..]);
      assert r[0] == t[0] && r[1..] == Insert(le, x, t[1..]);
    }
  }

  /** The sort orders, permutes, and is stable: equivalent elements keep
      their relative order. */
  lemma {:induction false} SortBySpec(le: Order, s: seq<Gadget>)
    requires TotalPreorder(le)
    ensures SortedBy(le, SortBy(le, s))
    ensures multiset(SortBy(le, s)) == multiset(s)
    ensures forall z :: Class(le, z, SortBy(le, s)) == Class(le, z, s)
    decreases |s|
  {
    if s != [] {
      var n := |s|;
      var front := s[..n - 1];
      SortBySpec(le, front);
      InsertSorted(le, s[n - 1], SortBy(le, front));
      InsertMultiset(le, s[n - 1], SortBy(le, front));
      assert s == front + [s[n - 1]];
      forall z ensures Class(le, z, SortBy(le, s)) == Class(le, z, s) {
        InsertClass(le, z, s[n - 1], SortBy(le, front));
        ClassAppend(le, z, front, [s[n - 1]]);
      }
    }
  }

  // ---------------------------------------------------------------------
  // Case-insensitive adjacent dedup
  // ---------------------------------------------------------------------

  function AsciiLower(c: char): char
  {
    if 'A' <= c <= 'Z' then (c as int + 32) as char else c
  }

  /** `str::eq_ignore_ascii_case`. */
  predicate EqIgnoreAsciiCase(a: string, b: string)
  {
    |a| == |b| && forall i :: 0 <= i < |a| ==> AsciiLower(a[i]) == AsciiLower(b[i])
  }

  /** Ignoring ASCII case is an equivalence: reflexive, symmetric and
      transitive, and coarser than equality. */
  lemma EqIgnoreAsciiCaseIsEquivalence(a: string, b: string, c: string)
    ensures EqIgnoreAsciiCase(a, a)
    ensures EqIgnoreAsciiCase(a, b) ==> EqIgnoreAsciiCase(b, a)
    ensures EqIgnoreAsciiCase(a, b) && EqIgnoreAsciiCase(b, c) ==> EqIgnoreAsciiCase(a, c)
    ensures EqIgnoreAsciiCase("RET", "ret") && "RET" != "ret"
  {
  }

  predicate SameText(a: Gadget, b: Gadget)
  {
    EqIgnoreAsciiCase(GadgetText(a), GadgetText(b))
  }

  /** A test `same(a, b)`: "b duplicates a". */
  type Sameness = (Gadget, Gadget) -> bool

  /** The test `collect_all_gadgets` dedups with: same text ignoring
      ASCII case. */
  function TextSame(): Sameness
  {
    (a: Gadget, b: Gadget) => SameText(a, b)
  }

  lemma TextSameIsReflexive()
    ensures forall g :: TextSame()(g, g)
  {
    forall g ensures TextSame()(g, g) {
      EqIgnoreAsciiCaseIsEquivalence(GadgetText(g), GadgetText(g), GadgetText(g));
    }
  }

  /** `same` is reflexive, symmetric and transitive. */
  ghost predicate IsEquivalence(same: Sameness)
  {
    && (forall a :: same(a, a))
    && (forall a, b :: same(a, b) ==> same(b, a))
    && (forall a, b, c :: same(a, b) && same(b, c) ==> same(a, c))
  }

  /** The test used for the unique list is an equivalence. */
  lemma TextSameIsEquivalence()
    ensures IsEquivalence(TextSame())
  {
    forall a, b, c ensures
      && TextSame()(a, a)
      && (TextSame()(a, b) ==> TextSame()(b, a))
      && (TextSame()(a, b) && TextSame()(b, c) ==> TextSame()(a, c))
    {
      EqIgnoreAsciiCaseIsEquivalence(GadgetText(a), GadgetText(b), GadgetText(c));
      EqIgnoreAsciiCaseIsEquivalence(GadgetText(a), GadgetText(a), GadgetText(a));
    }
  }

  /** The first element of every run: `s[0]`, and each `s[i]` that is not
      the same as its left neighbour `s[i - 1]`. */
  function RunHeads(same: Sameness, s: seq<Gadget>): seq<Gadget>
  {
    if |s| <= 1 then s
    else RunHeads(same, s[..|s| - 1]) + (if same(s[|s| - 1], s[|s| - 2]) then [] else [s[|s| - 1]])
  }

  /** `dedup_by`: walking left to right, drop an element when it is the
      same as the last element kept. */
  function Dedup(same: Sameness, s: seq<Gadget>): (r: seq<Gadget>)
    ensures |r| <= |s|
    ensures s != [] ==> r != [] && r[0] == s[0]
  {
    if |s| <= 1 then s
    else
      var d := Dedup(same, s[..|s| - 1]);
      if same(s[|s| - 1], d[|d| - 1]) then d else d + [s[|s| - 1]]
  }

  /** The last element of a list is the same as the last element `dedup_by`
      keeps: either it was kept, or it was dropped for being the same. */
  lemma DedupLastSame(same: Sameness, s: seq<Gadget>)
    requires s != [] && forall a :: same(a, a)
    ensures var r := Dedup(same, s); same(s[|s| - 1], r[|r| - 1])
  {
  }

  /** For an equivalence, `dedup_by` keeps exactly the first element of
      every run of mutually same elements, so the survivor of each run is
      the element that came first in the list. */
  lemma {:induction false} DedupIsRunHeads(same: Sameness, s: seq<Gadget>)
    requires IsEquivalence(same)
    ensures Dedup(same, s) == RunHeads(same, s)
    decreases |s|
  {
    if |s| > 1 {
      var n := |s|;
      var front := s[..n - 1];
      DedupIsRunHeads(same, front);
      var d := Dedup(same, front);
      DedupLastSame(same, front);
      assert front[|front| - 1] == s[n - 2];
      SameAsEquivalent(same, s[n - 1], s[n - 2], d[|d| - 1]);
    }
  }

  /** Under an equivalence, when `m` is the same as `d`, being the same
      as `d` and being the same as `m` are one and the same thing. */
  lemma SameAsEquivalent(same: Sameness, x: Gadget, m: Gadget, d: Gadget)
    requires IsEquivalence(same) && same(m, d)
    ensures same(x, d) <==> same(x, m)
  {
  }

  /** `a` is `b` with some elements left out. */
  predicate Subseq(a: seq<Gadget>, b: seq<Gadget>)
    decreases |b|
  {
    if a == [] then true
    else if b == [] then false
    else if a[|a| - 1] == b[|b| - 1] then Subseq(a[..|a| - 1], b[..|b| - 1])
    else Subseq(a, b[..|b| - 1])
  }

  lemma {:induction false} SubseqMultiset(a: seq<Gadget>, b: seq<Gadget>)
    requires Subseq(a, b)
    ensures multiset(a) <= multiset(b)
    decreases |b|
  {
    if a != [] {
      var na, nb := |a|, |b|;
      assert b == b[..nb - 1] + [b[nb - 1]];
      if a[na - 1] == b[nb - 1] {
        SubseqMultiset(a[..na - 1], b[..nb - 1]);
        assert a == a[..na - 1] + [a[na - 1]];
      } else {
        SubseqMultiset(a, b[..nb - 1]);
      }
    }
  }

  /** The dedup keeps a subsequence of its input. */
  lemma {:induction false} DedupSubseq(same: Sameness, s: seq<Gadget>)
    ensures Subseq(Dedup(same, s), s)
    decreases |s|
  {
    var r := Dedup(same, s);
    if |s| == 1 {
      assert r[..0] == [] && s[..0] == [];
    } else if |s| > 1 {
      var n := |s|;
      var front := s[..n - 1];
      var d := Dedup(same, front);
      DedupSubseq(same, front);
      if same(s[n - 1], d[|d| - 1]) {
        SubseqExtend(d, s);
      } else {
        assert r[..|r| - 1] == d;
      }
    }
  }

  /** No neighbour in the result duplicates the one before it. */
  lemma {:induction false} DedupNoAdjacentDuplicates(same: Sameness, s: seq<Gadget>)
    ensures forall i :: 0 <= i < |Dedup(same, s)| - 1 ==> !same(Dedup(same, s)[i + 1], Dedup(same, s)[i])
    decreases |s|
  {
    if |s| > 1 {
      var n := |s|;
      var d := Dedup(same, s[..n - 1]);
      DedupNoAdjacentDuplicates(same, s[..n - 1]);
      var r := Dedup(same, s);
      if !same(s[n - 1], d[|d| - 1]) {
        assert r == d + [s[n - 1]];
        forall i | 0 <= i < |r| - 1 ensures !same(r[i + 1], r[i]) {
          assert r[i] == d[i];
          if i + 1 < |d| {
            assert r[i + 1] == d[i + 1];
          }
        }
      }
    }
  }

  /** `g` duplicates an element of `r`. */
  ghost predicate CoveredBy(same: Sameness, g: Gadget, r: seq<Gadget>)
  {
    exists j :: 0 <= j < |r| && same(g, r[j])
  }

  /** Nothing is lost but duplicates: when every element duplicates
      itself, every input element duplicates some kept element. */
  lemma {:induction false} DedupCovers(same: Sameness, s: seq<Gadget>)
    requires forall g :: same(g, g)
    ensures forall i :: 0 <= i < |s| ==> CoveredBy(same, s[i], Dedup(same, s))
    decreases |s|
  {
    var r := Dedup(same, s);
    if |s| == 1 {
      assert same(s[0], r[0]);
    } else if |s| > 1 {
      var n := |s|;
      var front := s[..n - 1];
      var d := Dedup(same, front);
      DedupCovers(same, front);
      forall i | 0 <= i < n ensures CoveredBy(same, s[i], r) {
        if i < n - 1 {
          assert s[i] == front[i];
          assert CoveredBy(same, front[i], d);
          var j :| 0 <= j < |d| && same(front[i], d[j]);
          assert r[j] == d[j];
        } else if same(s[n - 1], d[|d| - 1]) {
          assert r[|d| - 1] == d[|d| - 1];
        } else {
          assert same(s[n - 1], s[n - 1]);
          assert r[|r| - 1] == s[n - 1];
        }
      }
    }
  }

  /** A list in which no neighbour duplicates the one before it is left
      as it is; so the dedup is idempotent. */
  lemma {:induction false} DedupKeepsDistinctNeighbours(same: Sameness, s: seq<Gadget>)
    requires forall i :: 0 <= i < |s| - 1 ==> !same(s[i + 1], s[i])
    ensures Dedup(same, s) == s
    decreases |s|
  {
    if |s| > 1 {
      var n := |s|;
      DedupKeepsDistinctNeighbours(same, s[..n - 1]);
      assert s[..n - 1] + [s[n - 1]] == s;
    }
  }

  lemma DedupIdempotent(same: Sameness, s: seq<Gadget>)
    ensures Dedup(same, Dedup(same, s)) == Dedup(same, s)
  {
    DedupNoAdjacentDuplicates(same, s);
    DedupKeepsDistinctNeighbours(same, Dedup(same, s));
  }

  /** A one-instruction gadget with no operands. */
  function OneInsn(address: nat, opcode: byte, group: InstructionGroup, mnemonic: string): Gadget
  {
    BuildGadget([Instruction(1, [opcode], address, group, mnemonic, None)])
  }

  lemma OneInsnText(address: nat, opcode: byte, group: InstructionGroup, mnemonic: string)
    ensures GadgetText(OneInsn(address, opcode, group, mnemonic)) == mnemonic + " ; "
  {
    var i := Instruction(1, [opcode], address, group, mnemonic, None);
    assert TextOf([i]) == InstructionText(i) + " ; " + TextOf([]);
  }

  function ExampleRetUpper(): Gadget { OneInsn(0, 0xC3, Ret, "RET") }
  function ExamplePop(): Gadget { OneInsn(1, 0x58, Undefined, "pop") }
  function ExampleRetLower(): Gadget { OneInsn(2, 0xC3, Ret, "ret") }

  lemma ExampleTexts()
    ensures GadgetText(ExampleRetUpper()) == "RET ; "
    ensures GadgetText(ExamplePop()) == "pop ; "
    ensures GadgetText(ExampleRetLower()) == "ret ; "
  {
    OneInsnText(0, 0xC3, Ret, "RET");
    OneInsnText(1, 0x58, Undefined, "pop");
    OneInsnText(2, 0xC3, Ret, "ret");
  }

  /** Sorting by exact text puts "RET ; " first and "ret ; " last, with
      "pop ; " between them. */
  lemma ExampleSort()
    ensures SortBy(TextLe(), [ExampleRetLower(), ExamplePop(), ExampleRetUpper()])
         == [ExampleRetUpper(), ExamplePop(), ExampleRetLower()]
  {
    var g1, g2, g3 := ExampleRetUpper(), ExamplePop(), ExampleRetLower();
    ExampleTexts();
    var le := TextLe();
    assert le(g2, g3) && !le(g3, g2) by {
      assert LexLe("pop ; ", "ret ; ") && !LexLe("ret ; ", "pop ; ");
    }
    assert le(g1, g2) && !le(g2, g1) by {
      assert LexLe("RET ; ", "pop ; ") && !LexLe("pop ; ", "RET ; ");
    }
    assert [g3, g2, g1][..2] == [g3, g2] && [g3, g2][..1] == [g3];
    assert SortBy(le, [g3, g2]) == Insert(le, g2, [g3]) == [g2, g3];
    assert Insert(le, g1, [g2, g3]) == [g1, g2, g3];
  }

  /** The two spellings of `ret` are the same text ignoring case; `pop`
      differs from both. */
  lemma ExampleSameness()
    ensures SameText(ExampleRetUpper(), ExampleRetLower())
    ensures !SameText(ExamplePop(), ExampleRetUpper())
    ensures !SameText(ExampleRetLower(), ExamplePop())
  {
    ExampleTexts();
    assert EqIgnoreAsciiCase("RET ; ", "ret ; ");
    assert AsciiLower("pop ; "[0]) != AsciiLower("RET ; "[0]);
    assert AsciiLower("ret ; "[0]) != AsciiLower("pop ; "[0]);
  }

  /** The dedup of the sorted example keeps all three gadgets. */
  lemma ExampleDedup()
    ensures Dedup(TextSame(), [ExampleRetUpper(), ExamplePop(), ExampleRetLower()])
         == [ExampleRetUpper(), ExamplePop(), ExampleRetLower()]
  {
    var g1, g2, g3 := ExampleRetUpper(), ExamplePop(), ExampleRetLower();
    ExampleSameness();
    assert [g1, g2, g3][..2] == [g1, g2] && [g1, g2][..1] == [g1];
    assert Dedup(TextSame(), [g1, g2]) == [g1, g2];
  }

  /** Only neighbours are compared: in text order "RET ; " < "pop ; " <
      "ret ; ", so the two spellings of `ret` are not adjacent and both
      survive the dedup although they are equal ignoring case. */
  lemma DedupIsAdjacentOnly()
    ensures SameText(ExampleRetUpper(), ExampleRetLower())
    ensures Dedup(TextSame(), SortBy(TextLe(), [ExampleRetLower(), ExamplePop(), ExampleRetUpper()]))
         == [ExampleRetUpper(), ExamplePop(), ExampleRetLower()]
  {
    ExampleSort();
    ExampleDedup();
    ExampleSameness();
  }

  /** A subsequence of a prefix is a subsequence of the whole. */
  lemma {:induction false} SubseqExtend(a: seq<Gadget>, b: seq<Gadget>)
    requires b != [] && Subseq(a, b[..|b| - 1])
    ensures Subseq(a, b)
    decreases |b|, 0
  {
    if a != [] && a[|a| - 1] == b[|b| - 1] {
      SubseqDropLast(a, b[..|b| - 1]);
    }
  }

  /** Leaving out the last element keeps a subsequence. */
  lemma {:induction false} SubseqDropLast(a: seq<Gadget>, c: seq<Gadget>)
    requires a != [] && Subseq(a, c)
    ensures Subseq(a[..|a| - 1], c)
    decreases |c|, 1
  {
    var c' := c[..|c| - 1];
    if a[|a| - 1] == c[|c| - 1] {
      SubseqExtend(a[..|a| - 1], c);
    } else {
      SubseqDropLast(a, c');
      SubseqExtend(a[..|a| - 1], c);
    }
  }

  // ---------------------------------------------------------------------
  // The post-processing of collect_all_gadgets
  // ---------------------------------------------------------------------

  /** The unique list: sorted by text, then deduplicated. */
  function UniqueByText(gs: seq<Gadget>): seq<Gadget>
  {
    Dedup(TextSame(), SortBy(TextLe(), gs))
  }

  /** The final list: unique if asked, then sorted by address. */
  function Finalise(gs: seq<Gadget>, uniqueOnly: bool): seq<Gadget>
  {
    SortBy(AddrLe(), if uniqueOnly then UniqueByText(gs) else gs)
  }

  /** The final list is ascending by address, and gadgets at the same
      address keep the order they had before the address sort. Without
      `unique_only` it is a permutation of the collected gadgets; with
      it, it holds some of them, no more, and every collected gadget has
      the text of a kept one up to ASCII case. */
  lemma FinaliseSpec(gs: seq<Gadget>, uniqueOnly: bool)
    ensures var r := Finalise(gs, uniqueOnly);
      var u := if uniqueOnly then UniqueByText(gs) else gs;
      && (forall i, j :: 0 <= i < j < |r| ==> r[i].address <= r[j].address)
      && (forall z :: Class(AddrLe(), z, r) == Class(AddrLe(), z, u))
      && multiset(r) == multiset(u)
    ensures !uniqueOnly ==> multiset(Finalise(gs, uniqueOnly)) == multiset(gs)
    ensures uniqueOnly ==> multiset(Finalise(gs, uniqueOnly)) <= multiset(gs)
    ensures uniqueOnly ==> forall g :: g in gs ==> CoveredBy(TextSame(), g, Finalise(gs, uniqueOnly))
    ensures |Finalise(gs, uniqueOnly)| <= |gs|
  {
    AddrLeIsTotalPreorder();
    var u := if uniqueOnly then UniqueByText(gs) else gs;
    SortBySpec(AddrLe(), u);
    var r := Finalise(gs, uniqueOnly);
    if uniqueOnly {
      TextLeIsTotalPreorder();
      var sorted := SortBy(TextLe(), gs);
      SortBySpec(TextLe(), gs);
      DedupSubseq(TextSame(), sorted);
      SubseqMultiset(u, sorted);
      TextSameIsReflexive();
      DedupCovers(TextSame(), sorted);
      forall g | g in gs ensures CoveredBy(TextSame(), g, r) {
        assert g in multiset(sorted);
        var i :| 0 <= i < |sorted| && sorted[i] == g;
        assert CoveredBy(TextSame(), sorted[i], u);
        var j :| 0 <= j < |u| && TextSame()(g, u[j]);
        assert u[j] in multiset(r);
        var k :| 0 <= k < |r| && r[k] == u[j];
      }
    }
  }

  /** The unique list keeps, of each run of gadgets whose texts agree up to
      ASCII case in the text-sorted list, the first one: which gadget of a
      run survives, and so which address is reported, is the one the
      stable text sort put first. */
  lemma UniqueKeepsRunHeads(gs: seq<Gadget>)
    ensures UniqueByText(gs) == RunHeads(TextSame(), SortBy(TextLe(), gs))
    ensures Finalise(gs, true) == SortBy(AddrLe(), RunHeads(TextSame(), SortBy(TextLe(), gs)))
  {
    TextSameIsEquivalence();
    DedupIsRunHeads(TextSame(), SortBy(TextLe(), gs));
  }

  /** The count of removed duplicates, `total - gadgets.len()`, never
      underflows. */
  lemma RemovedCountIsNatural(gs: seq<Gadget>)
    ensures |UniqueByText(gs)| <= |gs|
  {
  }

  /** The post-processing in place on the session's gadget list: with
      `unique_only`, sort by text and dedup, reporting how many were
      removed; then sort by address. */
  method CollectAllGadgets(session: Session, uniqueOnly: bool) returns (removed: Option<nat>)
    modifies session
    ensures session.gadgets == Finalise(old(session.gadgets), uniqueOnly)
    ensures session.sections == old(session.sections) && session.nbThread == old(session.nbThread)
    ensures removed.Some? <==> uniqueOnly
    ensures removed.Some? ==> removed.value == |old(session.gadgets)| - |UniqueByText(old(session.gadgets))|
  {
    var total := |session.gadgets|;
    removed := None;
    if uniqueOnly {
      session.gadgets := SortBy(TextLe(), session.gadgets);
      session.gadgets := Dedup(TextSame(), session.gadgets);
      removed := Some(total - |session.gadgets|);
    }
    session.gadgets := SortBy(AddrLe(), session.gadgets);
  }
}
