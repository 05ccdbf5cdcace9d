/** The lines `collect_all_gadgets` prints or writes (src/lib.rs): the
    gadget's address in hexadecimal, " | ", and its text. */
module Output {
  import opened Common
  import opened Gadgets

  predicate IsHexDigit(c: char) { ('0' <= c <= '9') || ('a' <= c <= 'f') }

  function HexDigit(d: nat): (c: char)
    requires d < 16
    ensures IsHexDigit(c)
  {
    if d < 10 then (48 + d) as char else (87 + d) as char
  }

  function DigitValue(c: char): (d: nat)
    requires IsHexDigit(c)
    ensures d < 16
  {
    if c <= '9' then c as nat - 48 else c as nat - 87
  }

  /** `{:x}`: lower-case hexadecimal digits, no leading zero. */
  function Hex(n: nat): (s: string)
    ensures |s| >= 1
    ensures forall i :: 0 <= i < |s| ==> IsHexDigit(s[i])
  {
    if n < 16 then [HexDigit(n)] else Hex(n / 16) + [HexDigit(n % 16)]
  }

  /** The value of a string of hexadecimal digits. */
  function HexValue(s: string): nat
    requires forall i :: 0 <= i < |s| ==> IsHexDigit(s[i])
  {
    if s == [] then 0 else 16 * HexValue(s[..|s| - 1]) + DigitValue(s[|s| - 1])
  }

  function Pow16(k: nat): (p: nat)
    ensures p >= 1
  {
    if k == 0 then 1 else 16 * Pow16(k - 1)
  }

  /** Reading the digits back gives the number; only 0 is written with a
      leading zero; a number below 16^k needs at most k digits. */
  lemma {:induction false} HexSpec(n: nat, k: nat)
    ensures HexValue(Hex(n)) == n
    ensures Hex(n)[0] == '0' ==> n == 0
    ensures k >= 1 && n < Pow16(k) ==> |Hex(n)| <= k
    decreases n
  {
    if n >= 16 {
      var h := Hex(n);
      assert h[..|h| - 1] == Hex(n / 16);
      HexSpec(n / 16, if k >= 1 then k - 1 else 0);
      assert HexDigit(n % 16) as nat == (if n % 16 < 10 then 48 + n % 16 else 87 + n % 16);
      assert h[0] == Hex(n / 16)[0];
    }
  }

  /** `{:0w}` padding: zeros in front up to width `w`. */
  function ZeroPad(s: string, w: nat): (r: string)
    ensures |r| == if |s| < w then w else |s|
  {
    if |s| < w then seq(w - |s|, _ => '0') + s else s
  }

  /** Zeros in front change neither the digits' kind nor their value. */
  lemma {:induction false} ZeroPadValue(s: string, w: nat)
    requires forall i :: 0 <= i < |s| ==> IsHexDigit(s[i])
    ensures forall i :: 0 <= i < |ZeroPad(s, w)| ==> IsHexDigit(ZeroPad(s, w)[i])
    ensures HexValue(ZeroPad(s, w)) == HexValue(s)
    decreases |s|
  {
    if |s| < w {
      LeadingZeros(s, w - |s|);
    }
  }

  lemma {:induction false} LeadingZeros(s: string, z: nat)
    requires forall i :: 0 <= i < |s| ==> IsHexDigit(s[i])
    ensures var t := seq(z, _ => '0') + s;
      (forall i :: 0 <= i < |t| ==> IsHexDigit(t[i])) && HexValue(t) == HexValue(s)
    decreases |s|
  {
    var t := seq(z, _ => '0') + s;
    if s == [] {
      assert t == seq(z, _ => '0');
      AllZeros(z);
    } else {
      LeadingZeros(s[..|s| - 1], z);
      assert t[..|t| - 1] == seq(z, _ => '0') + s[..|s| - 1];
    }
  }

  lemma {:induction false} AllZeros(z: nat)
    ensures HexValue(seq(z, _ => '0')) == 0
    decreases z
  {
    if z > 0 {
      assert seq(z, _ => '0')[..z - 1] == seq(z - 1, _ => '0');
      AllZeros(z - 1);
    }
  }

  /** `{:#x}`. */
  function AlternateHex(n: nat): string
  {
    "0x" + Hex(n)
  }

  /** One line of the output file: `{:#x} | {text}\n` of the entry point
      plus the gadget's address, a `u64` sum that panics on overflow. */
  function FileLine(entryPoint: nat, g: Gadget): (r: Outcome<string>)
    ensures !r.Err?
    ensures r.Panic? <==> entryPoint + g.address > U64_MAX
  {
    if entryPoint + g.address > U64_MAX then Panic
    else Ok(AlternateHex(entryPoint + g.address) + " | " + GadgetText(g) + "\n")
  }

  /** A file line reads back: "0x", the hexadecimal digits of the entry
      point plus the address, " | ", the gadget's text, a newline. */
  lemma FileLineSpec(entryPoint: nat, g: Gadget)
    requires entryPoint + g.address <= U64_MAX
    ensures var line := FileLine(entryPoint, g).value; var h := Hex(entryPoint + g.address);
      && line[..2] == "0x"
      && line[2..2 + |h|] == h && HexValue(h) == entryPoint + g.address
      && |h| <= 16
      && line[2 + |h|..] == " | " + GadgetText(g) + "\n"
  {
    var a := entryPoint + g.address;
    var h := Hex(a);
    var rest := " | " + GadgetText(g) + "\n";
    assert FileLine(entryPoint, g).value == "0x" + h + rest;
    Pow16Sixteen();
    HexSpec(a, 16);
  }

  lemma Pow16Sixteen()
    ensures Pow16(16) == U64_MAX + 1
  {
    assert Pow16(2) == 0x100;
    assert Pow16(4) == 0x1_0000;
    assert Pow16(6) == 0x100_0000;
    assert Pow16(8) == 0x1_0000_0000;
    assert Pow16(10) == 0x100_0000_0000;
    assert Pow16(12) == 0x1_0000_0000_0000;
    assert Pow16(14) == 0x100_0000_0000_0000;
  }

  /** The address column of a console line: `0x{:016x}` for a 64-bit
      target (pointer size 8), `0x{:08x}` otherwise. */
  function ConsoleAddress(ptrsize: nat, address: nat): string
  {
    "0x" + ZeroPad(Hex(address), if ptrsize == 8 then 16 else 8)
  }

  /** A console line, without colours: the address column, " | ", the
      gadget's text. */
  function ConsoleLine(ptrsize: nat, g: Gadget): string
  {
    ConsoleAddress(ptrsize, g.address) + " | " + GadgetText(g)
  }

  /** An address that fits the width gets exactly that many digits, and
      the digits read back to the address. */
  lemma ConsoleAddressSpec(ptrsize: nat, address: nat)
    ensures var w := if ptrsize == 8 then 16 else 8; var col := ConsoleAddress(ptrsize, address);
      && col[..2] == "0x"
      && (address < Pow16(w) ==> |col| == 2 + w)
      && (forall i :: 2 <= i < |col| ==> IsHexDigit(col[i]))
      && HexValue(col[2..]) == address
  {
    var w := if ptrsize == 8 then 16 else 8;
    HexSpec(address, w);
    ZeroPadValue(Hex(address), w);
    var col := ConsoleAddress(ptrsize, address);
    assert col[2..] == ZeroPad(Hex(address), w);
  }

  /** A console line is the address column, " | " and the gadget's text.
      For an address that fits the width the column is "0x" and exactly
      16 (64-bit target) or 8 digits that read back to the address; every
      `u64` address fits 16 digits. */
  lemma ConsoleLineSpec(ptrsize: nat, g: Gadget)
    ensures var w := if ptrsize == 8 then 16 else 8; var line := ConsoleLine(ptrsize, g);
      && line[..2] == "0x"
      && (ptrsize == 8 && g.address <= U64_MAX ==> g.address < Pow16(w))
      && (g.address < Pow16(w) ==>
            && |line| == 2 + w + 3 + |GadgetText(g)|
            && HexValue(line[2..2 + w]) == g.address
            && line[2 + w..] == " | " + GadgetText(g))
  {
    var w := if ptrsize == 8 then 16 else 8;
    var col := ConsoleAddress(ptrsize, g.address);
    ConsoleAddressSpec(ptrsize, g.address);
    Pow16Sixteen();
    ColumnThenRest(col, " | ", GadgetText(g));
    assert ConsoleLine(ptrsize, g) == col + " | " + GadgetText(g);
  }

  lemma ColumnThenRest(col: string, sep: string, text: string)
    requires |col| >= 2
    ensures |col + sep + text| == |col| + |sep| + |text|
    ensures (col + sep + text)[..2] == col[..2]
    ensures (col + sep + text)[2..|col|] == col[2..]
    ensures (col + sep + text)[|col|..] == sep + text
  {
  }

  /** The file's contents: one line per gadget, in list order; the first
      overflowing address panics. */
  function FileContents(entryPoint: nat, gs: seq<Gadget>): Outcome<string>
  {
    if gs == [] then Ok("")
    else
      var front := FileContents(entryPoint, gs[..|gs| - 1]);
      var line := FileLine(entryPoint, gs[|gs| - 1]);
      if front.Panic? || line.Panic? then Panic else Ok(front.value + line.value)
  }

  /** The writing loop of the file output. */
  method WriteFile(entryPoint: nat, gs: seq<Gadget>) returns (r: Outcome<string>)
    ensures r == FileContents(entryPoint, gs)
  {
    var contents := "";
    for k := 0 to |gs|
      invariant FileContents(entryPoint, gs[..k]) == Ok(contents)
    {
      assert gs[..k + 1][..k] == gs[..k];
      var addr := entryPoint + gs[k].address;
      if addr > U64_MAX {
        FileContentsPanics(entryPoint, gs, k);
        return Panic;
      }
      var line := AlternateHex(addr) + " | " + GadgetText(gs[k]) + "\n";
      contents := contents + line;
    }
    assert gs[..|gs|] == gs;
    r := Ok(contents);
  }

  /** One overflowing address makes the whole output panic. */
  lemma {:induction false} FileContentsPanics(entryPoint: nat, gs: seq<Gadget>, k: nat)
    requires k < |gs| && entryPoint + gs[k].address > U64_MAX
    ensures FileContents(entryPoint, gs).Panic?
    decreases |gs|
  {
    if k < |gs| - 1 {
      assert gs[..|gs| - 1][k] == gs[k];
      FileContentsPanics(entryPoint, gs[..|gs| - 1], k);
    }
  }
}
