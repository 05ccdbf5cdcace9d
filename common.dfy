/** Shared vocabulary of the model: bytes, the source's error kinds, the
    three ways an operation can end (a value, an error return, a panic), the
    little-endian integer reads that every loader performs over an untrusted
    buffer, and the UTF-8 check behind `String::from_utf8(..).unwrap()`. */
module Common {

  /** One byte of a buffer (`u8`). */
  type byte = bv8

  /** Largest value of `u64`; the 64-bit target's `usize` has the same bound. */
  const U64_MAX: nat := 0xFFFF_FFFF_FFFF_FFFF
  const USIZE_MAX: nat := U64_MAX

  datatype Option<T> = None | Some(value: T)

  /** The error variants the loaders and the gadget search return. */
  datatype Error =
    | InvalidMagicParsingError
    | InvalidStructureParsingError
    | UnsupportedCpuError
    | InvalidFileError
    | IoError          // a failed `Cursor::seek`

  /** How a call ends: a value, an error return (`Err`), or a panic
      (`panic!`, `todo!`, `unwrap`/`expect` on a failure, an out-of-range
      slice, an integer overflow with overflow checks on). */
  datatype Outcome<T> = Ok(value: T) | Err(error: Error) | Panic

  /** A list produced so far in front of the rest of a computation that
      may still fail: an error or a panic in the rest wins. */
  function PrependOk<T>(front: seq<T>, r: Outcome<seq<T>>): Outcome<seq<T>>
  {
    if r.Ok? then Ok(front + r.value) else r
  }

  lemma PrependNothing<T>(r: Outcome<seq<T>>)
    ensures PrependOk([], r) == r
  {
    if r.Ok? {
      assert [] + r.value == r.value;
    }
  }

  /** Prepending in two steps is prepending the concatenation. */
  lemma PrependOkTwice<T>(a: seq<T>, b: seq<T>, r: Outcome<seq<T>>)
    ensures PrependOk(a, PrependOk(b, r)) == PrependOk(a + b, r)
  {
    if r.Ok? {
      assert a + (b + r.value) == (a + b) + r.value;
    }
  }

  /** What collecting an iterator gives when `item(i)` is what its `i`-th
      call to `next` yields and the `n`-th call is the first past its end:
      the items in order up to the first `None`, or the first failure. */
  function CollectUntilNone<T>(item: nat -> Outcome<Option<T>>, n: nat, i: nat): (r: Outcome<seq<T>>)
    ensures r.Ok? ==> |r.value| <= if i < n then n - i else 0
    decreases if i < n then n - i else 0
  {
    if i >= n then Ok([])
    else
      match item(i)
      case Ok(Some(x)) => PrependOk([x], CollectUntilNone(item, n, i + 1))
      case Ok(None) => Ok([])
      case Err(e) => Err(e)
      case Panic => Panic
  }

  /** One call to `next` during the collection: a present item moves from
      the rest of the collection to the front, a `None` or the end stops
      it, and a panic is the collection's outcome. */
  lemma CollectStep<T>(item: nat -> Outcome<Option<T>>, n: nat, i: nat, front: seq<T>, res: Outcome<Option<T>>)
    requires i < n ==> item(i) == res
    requires i >= n ==> res == Ok(None)
    ensures res.Ok? && res.value.Some? ==>
      PrependOk(front, CollectUntilNone(item, n, i))
        == PrependOk(front + [res.value.value], CollectUntilNone(item, n, i + 1))
    ensures res == Ok(None) ==> PrependOk(front, CollectUntilNone(item, n, i)) == Ok(front)
    ensures res.Panic? ==> CollectUntilNone(item, n, i).Panic?
  {
    if res.Ok? && res.value.Some? {
      PrependOkTwice(front, [res.value.value], CollectUntilNone(item, n, i + 1));
    } else if res == Ok(None) {
      assert front + [] == front;
    }
  }

  /** When items `i .. j - 1` are all present and `j` is the end or yields
      `None`, the collection is exactly those items in order. */
  lemma {:induction false} CollectInOrder<T>(item: nat -> Outcome<Option<T>>, n: nat, i: nat, j: nat)
    requires i <= j <= n
    requires forall k :: i <= k < j ==> item(k).Ok? && item(k).value.Some?
    requires j == n || item(j) == Ok(None)
    ensures CollectUntilNone(item, n, i).Ok?
    ensures |CollectUntilNone(item, n, i).value| == j - i
    ensures forall k :: i <= k < j ==> CollectUntilNone(item, n, i).value[k - i] == item(k).value.value
    decreases j - i
  {
    if i < j {
      CollectInOrder(item, n, i + 1, j);
    }
  }

  /** A `None` at `j` ends the collection there: collecting is the same as
      if the iterator had only `j` items. */
  lemma {:induction false} CollectStopsAt<T>(item: nat -> Outcome<Option<T>>, n: nat, i: nat, j: nat)
    requires i <= j < n && item(j) == Ok(None)
    ensures CollectUntilNone(item, n, i) == CollectUntilNone(item, j, i)
    decreases j - i
  {
    if i < j {
      CollectStopsAt(item, n, i + 1, j);
    }
  }

  /** A panic before any `None` makes the whole collection panic. */
  lemma {:induction false} CollectPanics<T>(item: nat -> Outcome<Option<T>>, n: nat, i: nat, j: nat)
    requires i <= j < n
    requires forall k :: i <= k < j ==> item(k).Ok? && item(k).value.Some?
    requires item(j).Panic?
    ensures CollectUntilNone(item, n, i).Panic?
    decreases j - i
  {
    if i < j {
      CollectPanics(item, n, i + 1, j);
    }
  }

  // ---------------------------------------------------------------------
  // Little-endian reads (`uN::from_le_bytes(buf[off..off + N])`)
  // ---------------------------------------------------------------------

  /** Unsigned little-endian integer of the `n` bytes at `off`. */
  function LeAt(b: seq<byte>, off: nat, n: nat): (v: nat)
    requires off + n <= |b|
    decreases n
  {
    if n == 0 then 0 else b[off] as nat + 256 * LeAt(b, off + 1, n - 1)
  }

  function Pow256(n: nat): (p: nat)
    ensures p >= 1
  {
    if n == 0 then 1 else 256 * Pow256(n - 1)
  }

  /** An `n`-byte little-endian read always fits in `n` bytes. */
  lemma {:induction false} LeAtBound(b: seq<byte>, off: nat, n: nat)
    requires off + n <= |b|
    ensures LeAt(b, off, n) < Pow256(n)
    decreases n
  {
    if n > 0 {
      LeAtBound(b, off + 1, n - 1);
      assert b[off] as nat <= 255;
    }
  }

  /** The byte whose value is `x`. */
  function ByteOf(x: nat): (b: byte)
    requires x < 256
    ensures b as nat == x
  {
    if x == 0 then 0 else ByteOf(x - 1) + 1
  }

  /** The little-endian encoding of `v` on `n` bytes. */
  function LeBytes(v: nat, n: nat): (r: seq<byte>)
    ensures |r| == n
    decreases n
  {
    if n == 0 then [] else [ByteOf(v % 256)] + LeBytes(v / 256, n - 1)
  }

  /** Reading back an encoded value gives the value: the decoder and the
      encoder are inverse on values that fit. */
  lemma {:induction false} LeRoundTrip(v: nat, n: nat)
    requires v < Pow256(n)
    ensures LeAt(LeBytes(v, n), 0, n) == v
    decreases n
  {
    if n > 0 {
      var lo := v % 256;
      var hi := v / 256;
      var rest := LeBytes(hi, n - 1);
      var r := [ByteOf(lo)] + rest;
      assert LeBytes(v, n) == r;
      assert hi < Pow256(n - 1) by {
        DivBound(v, Pow256(n - 1));
      }
      LeRoundTrip(hi, n - 1);
      LeAtShift([ByteOf(lo)], rest, 0, n - 1);
      assert r[0] as nat == lo;
      assert LeAt(r, 1, n - 1) == hi;
      assert LeAt(r, 0, n) == lo + 256 * hi;
      assert lo + 256 * hi == v;
    }
  }

  lemma DivBound(v: nat, p: nat)
    requires v < 256 * p
    ensures v / 256 < p
  {
  }

  /** A read inside the tail of `a + c` is a read of `c`. */
  lemma {:induction false} LeAtShift(a: seq<byte>, c: seq<byte>, off: nat, n: nat)
    requires off + n <= |c|
    ensures LeAt(a + c, |a| + off, n) == LeAt(c, off, n)
    decreases n
  {
    if n > 0 {
      assert (a + c)[|a| + off] == c[off];
      LeAtShift(a, c, off + 1, n - 1);
    }
  }

  /** A read depends only on the bytes it covers. */
  lemma {:induction false} LeAtAgree(b: seq<byte>, p: nat, c: seq<byte>, q: nat, n: nat)
    requires p + n <= |b| && q + n <= |c|
    requires b[p..p + n] == c[q..q + n]
    ensures LeAt(b, p, n) == LeAt(c, q, n)
    decreases n
  {
    if n > 0 {
      assert b[p] == b[p..p + n][0] == c[q..q + n][0] == c[q];
      assert b[p + 1..p + n] == b[p..p + n][1..] == c[q..q + n][1..] == c[q + 1..q + n];
      LeAtAgree(b, p + 1, c, q + 1, n - 1);
    }
  }

  /** Reading back the bytes of an encoded value, wherever they sit. */
  lemma LeAtEncoded(b: seq<byte>, p: nat, v: nat, n: nat)
    requires p + n <= |b| && v < Pow256(n)
    requires b[p..p + n] == LeBytes(v, n)
    ensures LeAt(b, p, n) == v
  {
    LeAtAgree(b, p, LeBytes(v, n), 0, n);
    assert LeBytes(v, n)[0..n] == LeBytes(v, n);
    LeRoundTrip(v, n);
  }

  /** An `n`-byte field at offset `k` of a record `e` that sits at `off`
      in `b` reads back the value encoded there. */
  lemma LeField(b: seq<byte>, off: nat, e: seq<byte>, k: nat, v: nat, n: nat)
    requires off + |e| <= |b| && b[off..off + |e|] == e
    requires k + n <= |e| && v < Pow256(n) && e[k..k + n] == LeBytes(v, n)
    ensures off + k + n <= |b| && LeAt(b, off + k, n) == v
  {
    var window := b[off + k..off + k + n];
    forall t | 0 <= t < n
      ensures window[t] == e[k..k + n][t]
    {
      assert b[off..off + |e|][k + t] == b[off + k + t];
    }
    assert window == e[k..k + n];
    LeAtEncoded(b, off + k, v, n);
  }

  /** `LeField` for an encoding that starts the buffer. */
  lemma LeFieldAtStart(b: seq<byte>, e: seq<byte>, k: nat, v: nat, n: nat)
    requires |e| <= |b| && b[..|e|] == e
    requires k + n <= |e| && v < Pow256(n) && e[k..k + n] == LeBytes(v, n)
    ensures k + n <= |b| && LeAt(b, k, n) == v
  {
    assert b[0..|e|] == e;
    LeField(b, 0, e, k, v, n);
    assert 0 + k == k;
  }

  lemma U16Field(b: seq<byte>, off: nat, e: seq<byte>, k: nat, v: nat)
    requires off + |e| <= |b| && b[off..off + |e|] == e
    requires k + 2 <= |e| && v < 0x1_0000 && e[k..k + 2] == LeBytes(v, 2)
    ensures off + k + 2 <= |b| && LeAt(b, off + k, 2) == v
  {
    Pow256Widths();
    LeField(b, off, e, k, v, 2);
  }

  lemma U32Field(b: seq<byte>, off: nat, e: seq<byte>, k: nat, v: nat)
    requires off + |e| <= |b| && b[off..off + |e|] == e
    requires k + 4 <= |e| && v < 0x1_0000_0000 && e[k..k + 4] == LeBytes(v, 4)
    ensures off + k + 4 <= |b| && LeAt(b, off + k, 4) == v
  {
    Pow256Widths();
    LeField(b, off, e, k, v, 4);
  }

  lemma U64Field(b: seq<byte>, off: nat, e: seq<byte>, k: nat, v: nat)
    requires off + |e| <= |b| && b[off..off + |e|] == e
    requires k + 8 <= |e| && v <= U64_MAX && e[k..k + 8] == LeBytes(v, 8)
    ensures off + k + 8 <= |b| && LeAt(b, off + k, 8) == v
  {
    Pow256Widths();
    LeField(b, off, e, k, v, 8);
  }

  /** A read inside a suffix of the buffer is the read at the shifted
      offset of the buffer itself. */
  lemma LeAtSuffix(b: seq<byte>, k: nat, off: nat, n: nat)
    requires k + off + n <= |b|
    ensures LeAt(b[k..], off, n) == LeAt(b, k + off, n)
  {
    assert b[k..][off..off + n] == b[k + off..k + off + n];
    LeAtAgree(b[k..], off, b, k + off, n);
  }

  lemma Pow256Widths()
    ensures Pow256(2) == 0x1_0000
    ensures Pow256(4) == 0x1_0000_0000
    ensures Pow256(8) == U64_MAX + 1
  {
    assert Pow256(2) == 0x1_0000;
    assert Pow256(4) == 0x1_0000_0000;
    assert Pow256(6) == 0x1_0000_0000_0000;
  }

  function U16At(b: seq<byte>, off: nat): (v: nat)
    requires off + 2 <= |b|
    ensures v < 0x1_0000
  {
    LeAtBound(b, off, 2);
    LeAt(b, off, 2)
  }

  function U32At(b: seq<byte>, off: nat): (v: nat)
    requires off + 4 <= |b|
    ensures v < 0x1_0000_0000
  {
    LeAtBound(b, off, 4);
    LeAt(b, off, 4)
  }

  function U64At(b: seq<byte>, off: nat): (v: nat)
    requires off + 8 <= |b|
    ensures v <= U64_MAX
  {
    LeAtBound(b, off, 8);
    LeAt(b, off, 8)
  }

  // ---------------------------------------------------------------------
  // UTF-8 well-formedness (what `String::from_utf8` accepts)
  // ---------------------------------------------------------------------

  predicate IsCont(x: byte) { 0x80 <= x <= 0xBF }

  /** The length of the well-formed UTF-8 sequence (RFC 3629: no overlong
      form, no surrogate, nothing above U+10FFFF) that starts at `s[i]`,
      or 0 when none starts there. */
  function Utf8CharLength(s: seq<byte>, i: nat): (n: nat)
    requires i < |s|
    ensures n <= 4 && (n > 0 ==> i + n <= |s|)
  {
    var b0 := s[i];
    if b0 < 0x80 then 1
    else if 0xC2 <= b0 <= 0xDF then
      if i + 2 <= |s| && IsCont(s[i + 1]) then 2 else 0
    else if b0 == 0xE0 then
      if i + 3 <= |s| && 0xA0 <= s[i + 1] <= 0xBF && IsCont(s[i + 2]) then 3 else 0
    else if (0xE1 <= b0 <= 0xEC) || (0xEE <= b0 <= 0xEF) then
      if i + 3 <= |s| && IsCont(s[i + 1]) && IsCont(s[i + 2]) then 3 else 0
    else if b0 == 0xED then
      if i + 3 <= |s| && 0x80 <= s[i + 1] <= 0x9F && IsCont(s[i + 2]) then 3 else 0
    else if b0 == 0xF0 then
      if i + 4 <= |s| && 0x90 <= s[i + 1] <= 0xBF && IsCont(s[i + 2]) && IsCont(s[i + 3]) then 4 else 0
    else if 0xF1 <= b0 <= 0xF3 then
      if i + 4 <= |s| && IsCont(s[i + 1]) && IsCont(s[i + 2]) && IsCont(s[i + 3]) then 4 else 0
    else if b0 == 0xF4 then
      if i + 4 <= |s| && 0x80 <= s[i + 1] <= 0x8F && IsCont(s[i + 2]) && IsCont(s[i + 3]) then 4 else 0
    else 0
  }

  /** `s[i..]` is a sequence of well-formed UTF-8 characters. */
  predicate ValidUtf8From(s: seq<byte>, i: nat)
    decreases if i < |s| then |s| - i else 0, 1
  {
    i >= |s| || CharThenValid(s, i)
  }

  /** A well-formed character starts at `s[i]` and valid UTF-8 follows it. */
  predicate CharThenValid(s: seq<byte>, i: nat)
    requires i < |s|
    decreases |s| - i, 0
  {
    Utf8CharLength(s, i) > 0 && ValidUtf8From(s, i + Utf8CharLength(s, i))
  }

  /** What `String::from_utf8` accepts. */
  predicate ValidUtf8(s: seq<byte>)
  {
    ValidUtf8From(s, 0)
  }

  /** Every ASCII byte string is valid UTF-8 (section names such as
      ".text\0\0\0" are). */
  lemma AsciiIsValidUtf8(s: seq<byte>)
    requires forall i :: 0 <= i < |s| ==> s[i] < 0x80
    ensures ValidUtf8(s)
  {
    AsciiFrom(s, 0);
  }

  lemma {:induction false} AsciiFrom(s: seq<byte>, i: nat)
    requires forall k :: 0 <= k < |s| ==> s[k] < 0x80
    ensures ValidUtf8From(s, i)
    decreases if i < |s| then |s| - i else 0
  {
    if i < |s| {
      AsciiFrom(s, i + 1);
      assert CharThenValid(s, i);
    }
  }

  /** A lone continuation byte or a byte that never starts a sequence
      (0xC0, 0xC1, 0xF5..0xFF) is rejected wherever it starts the string. */
  lemma InvalidLeadByte(s: seq<byte>)
    requires |s| > 0 && (IsCont(s[0]) || s[0] == 0xC0 || s[0] == 0xC1 || s[0] >= 0xF5)
    ensures !ValidUtf8(s)
  {
    assert Utf8CharLength(s, 0) == 0;
    assert !CharThenValid(s, 0);
  }
}
