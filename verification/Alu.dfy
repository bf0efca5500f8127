/** Flag-setting addition and subtraction (native/blink/blink/alu.c). The source
    has a copy of each operation for 8, 16, 32 and 64 bits; here the width is k. */
module Alu {
  import opened Bits
  import opened Words
  import opened X86

  predicate Width(k: nat) {
    k == 8 || k == 16 || k == 32 || k == 64
  }

  /** The low k bits: assignment to an unsigned variable of k bits. */
  function Cut(x: int, k: nat): (r: nat)
    ensures r < Pow2(k)
  {
    DivMod(x, Pow2(k));
    x % Pow2(k)
  }

  /** The operand read as two's complement. */
  function Signed(x: nat, k: nat): int
    requires k > 0
  {
    if x >= Pow2(k - 1) then x - Pow2(k) else x
  }

  // ----- AluFlags -----

  const RESULT_FLAGS: bv32 := FLAG_CF | FLAG_ZF | FLAG_SF | FLAG_OF | FLAG_AF | 0xff00_0000

  function Mask(b: bool, mask: bv32): bv32 {
    if b then mask else 0
  }

  function LowByte(x: nat): (b: bv32)
    ensures b < 256
  {
    (x % 256) as bv32
  }

  function Pack(flags: bv32, sf: bv32, cf: bv32, zf: bv32, of: bv32, af: bv32, low: bv32): bv32 {
    (flags & !RESULT_FLAGS) | sf | cf | zf | of | af | (low << 24)
  }

  /** The flags word after an operation: one bit a flag, and the low byte of the
      result at the top, from which parity is computed lazily. */
  function AluFlags(flags: bv32, x: nat, af: bool, of: bool, cf: bool, sf: bool): bv32 {
    Pack(flags, Mask(sf, FLAG_SF), Mask(cf, FLAG_CF), Mask(x == 0, FLAG_ZF), Mask(of, FLAG_OF), Mask(af, FLAG_AF),
         LowByte(x))
  }

  lemma AluFlagsRead(flags: bv32, x: nat, af: bool, of: bool, cf: bool, sf: bool)
    ensures var f := AluFlags(flags, x, af, of, cf, sf);
      && Has(f, FLAG_CF) == cf && Has(f, FLAG_OF) == of && Has(f, FLAG_AF) == af && Has(f, FLAG_SF) == sf
      && Has(f, FLAG_ZF) == (x == 0) && f >> 24 == (x % 256) as bv32
      && f & 0x00ff_f72e == flags & 0x00ff_f72e
  {
    hide Pack;
    FlagBits(flags, Mask(sf, FLAG_SF), Mask(cf, FLAG_CF), Mask(x == 0, FLAG_ZF), Mask(of, FLAG_OF),
             Mask(af, FLAG_AF), LowByte(x));
  }

  lemma FlagBits(flags: bv32, sf: bv32, cf: bv32, zf: bv32, of: bv32, af: bv32, low: bv32)
    requires low < 256 && (sf == 0 || sf == FLAG_SF) && (cf == 0 || cf == FLAG_CF) && (zf == 0 || zf == FLAG_ZF)
    requires (of == 0 || of == FLAG_OF) && (af == 0 || af == FLAG_AF)
    ensures var f := Pack(flags, sf, cf, zf, of, af, low);
      && f & FLAG_CF == cf && f & FLAG_OF == of && f & FLAG_AF == af && f & FLAG_SF == sf
      && f & FLAG_ZF == zf && f >> 24 == low && f & 0x00ff_f72e == flags & 0x00ff_f72e
  {
  }

  // ----- one operation, as the architecture defines it -----

  function LowNibble(x: int): nat {
    x % 16
  }

  datatype Result = Result(z: nat, cf: bool, of: bool, af: bool)

  /** x + y + c on k bits: carry out of bit k - 1 and of bit 3, signed overflow. */
  function AddResult(x: nat, y: nat, c: nat, k: nat): Result
    requires k > 0
  {
    var s := Signed(x, k) + Signed(y, k) + c;
    Result(Cut(x + y + c, k), x + y + c >= Pow2(k),
           !(0 - Pow2(k - 1) <= s < Pow2(k - 1)), LowNibble(x) + LowNibble(y) + c >= 16)
  }

  function SubResult(x: nat, y: nat, c: nat, k: nat): Result
    requires k > 0
  {
    var s := Signed(x, k) - Signed(y, k) - c;
    Result(Cut(x - y - c, k), x < y + c,
           !(0 - Pow2(k - 1) <= s < Pow2(k - 1)), LowNibble(x) < LowNibble(y) + c)
  }

  /** What an operation leaves: its value, and CF, OF, AF, ZF and SF in their places of
      the flags word, the low byte at its top, and every other bit as before. */
  ghost predicate Leaves(z: nat, f: bv32, before: bv32, r: Result, k: nat)
    requires k > 0
  {
    && z == r.z
    && Has(f, 0x001) == r.cf && Has(f, 0x800) == r.of && Has(f, 0x010) == r.af
    && Has(f, 0x040) == (z == 0) && Has(f, 0x080) == (z >= Pow2(k - 1)) && f >> 24 == (z % 256) as bv32
    && f & 0x00ff_f72e == before & 0x00ff_f72e
  }

  lemma Summary(flags: bv32, z: nat, af: bool, of: bool, cf: bool, sf: bool, r: Result, k: nat)
    requires k > 0 && z == r.z && af == r.af && of == r.of && cf == r.cf && (sf <==> z >= Pow2(k - 1))
    ensures Leaves(z, AluFlags(flags, z, af, of, cf, sf), flags, r, k)
  {
    AluFlagsRead(flags, z, af, of, cf, sf);
    hide AluFlags, Has, LowByte, Pow2;
  }

  // ----- the operations -----

  function CarryIn(flags: bv32): (c: nat)
    ensures c <= 1
  {
    if Has(flags, FLAG_CF) then 1 else 0
  }

  method Add(m: Machine, x64: U64, y64: U64, k: nat) returns (z: nat)
    requires Width(k)
    modifies m`flags
    ensures Leaves(z, m.flags, old(m.flags), AddResult(Cut(x64, k), Cut(y64, k), 0, k), k)
  {
    hide Leaves, Cut, Pow2, Shr, And, Xor, AluFlags, AddResult, SubResult, CarryIn;
    var x, y := Cut(x64, k), Cut(y64, k);
    z := Cut(x + y, k);
    var cf := z < y;
    var af := And(z, 15) < And(y, 15);
    var of := Shr(And(Xor(z, x), Xor(z, y)), k - 1) != 0;
    AddFlags(x, y, 0, k);
    Summary(m.flags, z, af, of, cf, Shr(z, k - 1) != 0, AddResult(x, y, 0, k), k);
    m.flags := AluFlags(m.flags, z, af, of, cf, Shr(z, k - 1) != 0);
  }

  method Adc(m: Machine, x64: U64, y64: U64, k: nat) returns (z: nat)
    requires Width(k)
    modifies m`flags
    ensures Leaves(z, m.flags, old(m.flags), AddResult(Cut(x64, k), Cut(y64, k), CarryIn(old(m.flags)), k), k)
  {
    hide Leaves, Cut, Pow2, Shr, And, Xor, AluFlags, AddResult, SubResult, CarryIn;
    var x, y := Cut(x64, k), Cut(y64, k);
    var t := Cut(x + CarryIn(m.flags), k);
    z := Cut(t + y, k);
    var cf := t < x || z < y;
    var of := Shr(And(Xor(z, x), Xor(z, y)), k - 1) != 0;
    var af := And(t, 15) < And(x, 15) || And(z, 15) < And(y, 15);
    AddFlags(x, y, CarryIn(m.flags), k);
    Summary(m.flags, z, af, of, cf, Shr(z, k - 1) != 0, AddResult(x, y, CarryIn(m.flags), k), k);
    m.flags := AluFlags(m.flags, z, af, of, cf, Shr(z, k - 1) != 0);
  }

  method Sub(m: Machine, x64: U64, y64: U64, k: nat) returns (z: nat)
    requires Width(k)
    modifies m`flags
    ensures Leaves(z, m.flags, old(m.flags), SubResult(Cut(x64, k), Cut(y64, k), 0, k), k)
  {
    hide Leaves, Cut, Pow2, Shr, And, Xor, AluFlags, AddResult, SubResult, CarryIn;
    var x, y := Cut(x64, k), Cut(y64, k);
    z := Cut(x - y, k);
    var cf := x < z;
    var af := And(x, 15) < And(z, 15);
    var of := Shr(And(Xor(x, y), Xor(z, x)), k - 1) != 0;
    SubFlags(x, y, 0, k);
    Summary(m.flags, z, af, of, cf, Shr(z, k - 1) != 0, SubResult(x, y, 0, k), k);
    m.flags := AluFlags(m.flags, z, af, of, cf, Shr(z, k - 1) != 0);
  }

  method Sbb(m: Machine, x64: U64, y64: U64, k: nat) returns (z: nat)
    requires Width(k)
    modifies m`flags
    ensures Leaves(z, m.flags, old(m.flags), SubResult(Cut(x64, k), Cut(y64, k), CarryIn(old(m.flags)), k), k)
  {
    hide Leaves, Cut, Pow2, Shr, And, Xor, AluFlags, AddResult, SubResult, CarryIn;
    var x, y := Cut(x64, k), Cut(y64, k);
    var t := Cut(x - CarryIn(m.flags), k);
    z := Cut(t - y, k);
    var cf := x < t || t < z;
    var of := Shr(And(Xor(z, x), Xor(x, y)), k - 1) != 0;
    var af := And(x, 15) < And(t, 15) || And(t, 15) < And(z, 15);
    SubFlags(x, y, CarryIn(m.flags), k);
    Summary(m.flags, z, af, of, cf, Shr(z, k - 1) != 0, SubResult(x, y, CarryIn(m.flags), k), k);
    m.flags := AluFlags(m.flags, z, af, of, cf, Shr(z, k - 1) != 0);
  }

  // ----- why the flag formulas are right -----

  /** A value that is at most one turn outside [0, 2h), reduced modulo 2h. */
  function Wrap(s: int, h: nat): (r: nat)
    requires -2 * h <= s < 4 * h
    ensures r < 2 * h || h == 0
  {
    if s < 0 then s + 2 * h else if s >= 2 * h then s - 2 * h else s
  }

  lemma CutIsWrap(s: int, k: nat)
    requires k > 0 && 0 - Pow2(k) <= s < 2 * Pow2(k)
    ensures Cut(s, k) == Wrap(s, Pow2(k - 1))
  {
    ModUnique(s, Pow2(k), if s < 0 then -1 else if s >= Pow2(k) then 1 else 0, Wrap(s, Pow2(k - 1)));
  }

  lemma WidthIs(k: nat)
    requires k >= 4
    ensures Pow2(k - 1) % 8 == 0 && Pow2(k) == 2 * Pow2(k - 1)
  {
    Pow2Add(3, k - 4);
    assert Pow2(3) == 8;
  }

  lemma OverflowBit(x: nat, y: nat, z: nat, w: nat, k: nat)
    requires k > 0 && x < Pow2(k) && y < Pow2(k) && z < Pow2(k) && w < Pow2(k)
    ensures var h := Pow2(k - 1);
      Shr(And(Xor(x, y), Xor(z, w)), k - 1) != 0 <==> (x >= h) != (y >= h) && (z >= h) != (w >= h)
  {
    XorTop(x, y, k - 1);
    XorTop(z, w, k - 1);
    AndTop(Xor(x, y), Xor(z, w), k - 1);
    ShrTop(And(Xor(x, y), Xor(z, w)), k - 1);
  }

  lemma Nibble(x: nat)
    ensures And(x, 15) == LowNibble(x)
  {
    assert Pow2(4) == 16;
    AndMask(x, 4);
  }

  lemma AddFlags(x: nat, y: nat, c: nat, k: nat)
    requires k >= 4 && x < Pow2(k) && y < Pow2(k) && c <= 1
    ensures var t := Cut(x + c, k);
      var z := Cut(t + y, k);
      var r := AddResult(x, y, c, k);
      && z == r.z && r.cf == (t < x || z < y)
      && r.of == (Shr(And(Xor(z, x), Xor(z, y)), k - 1) != 0)
      && r.af == (And(t, 15) < And(x, 15) || And(z, 15) < And(y, 15))
      && (c == 0 ==> t == x)
      && (z >= Pow2(k - 1) <==> Shr(z, k - 1) != 0)
  {
    hide Cut, And, Xor, Shr, Pow2, LowNibble, AddResult;
    AddCarries(x, y, c, k);
    var t := Cut(x + c, k);
    var z := Cut(t + y, k);
    OverflowBit(z, x, z, y, k);
    ShrTop(z, k - 1);
    Nibble(t); Nibble(x); Nibble(z); Nibble(y);
  }

  lemma AddCarries(x: nat, y: nat, c: nat, k: nat)
    requires k >= 4 && x < Pow2(k) && y < Pow2(k) && c <= 1
    ensures var t, h := Cut(x + c, k), Pow2(k - 1);
      var z := Cut(t + y, k);
      var r := AddResult(x, y, c, k);
      && z == r.z && r.cf == (t < x || z < y) && (c == 0 ==> t == x)
      && r.of == ((z >= h) != (x >= h) && (z >= h) != (y >= h))
      && r.af == (LowNibble(t) < LowNibble(x) || LowNibble(z) < LowNibble(y))
  {
    hide Cut, Wrap, Pow2, LowNibble, AddResult, Sum;
    AddResultIs(x, y, c, k);
    WidthIs(k);
    CutIsWrap(x + c, k);
    CutIsWrap(Cut(x + c, k) + y, k);
    AddWraps(x, y, c, Pow2(k - 1));
  }

  /** AddResult in terms of h, half the number of k-bit words. */
  function Sum(x: nat, y: nat, c: nat, h: nat): Result
    requires x < 2 * h && y < 2 * h && c <= 1
  {
    var s := (if x >= h then x - 2 * h else x) + (if y >= h then y - 2 * h else y) + c;
    Result(Wrap(x + y + c, h), x + y + c >= 2 * h, !(0 - h <= s < h), LowNibble(x) + LowNibble(y) + c >= 16)
  }

  lemma AddResultIs(x: nat, y: nat, c: nat, k: nat)
    requires k >= 4 && x < Pow2(k) && y < Pow2(k) && c <= 1
    ensures AddResult(x, y, c, k) == Sum(x, y, c, Pow2(k - 1))
  {
    WidthIs(k);
    CutIsWrap(x + y + c, k);
    hide Cut, Pow2;
  }

  lemma AddWraps(x: nat, y: nat, c: nat, h: nat)
    requires x < 2 * h && y < 2 * h && c <= 1 && h % 8 == 0
    ensures var t, r := Wrap(x + c, h), Sum(x, y, c, h);
      var z := Wrap(t + y, h);
      && z == r.z && r.cf == (t < x || z < y) && (c == 0 ==> t == x)
      && r.of == ((z >= h) != (x >= h) && (z >= h) != (y >= h))
      && r.af == (LowNibble(t) < LowNibble(x) || LowNibble(z) < LowNibble(y))
  {
    hide LowNibble;
    AddHalfCarry(x, y, c, h);
  }

  lemma AddHalfCarry(x: nat, y: nat, c: nat, h: nat)
    requires x < 2 * h && y < 2 * h && c <= 1 && h % 8 == 0
    ensures var t := Wrap(x + c, h);
      var z := Wrap(t + y, h);
      LowNibble(x) + LowNibble(y) + c >= 16 <==> LowNibble(t) < LowNibble(x) || LowNibble(z) < LowNibble(y)
  {
    hide Wrap;
    var t := Wrap(x + c, h);
    WrapNibble(x + c, h);
    WrapNibble(t + y, h);
    NibbleSum(x, c);
    NibbleSum(t, y);
  }

  lemma WrapNibble(s: int, h: nat)
    requires h % 8 == 0 && -2 * h <= s < 4 * h
    ensures Wrap(s, h) % 16 == s % 16
  {
    var v := h / 8;
    assert 2 * h == 16 * v;
    DivMod(s, 16);
    ModUnique(Wrap(s, h), 16, if s < 0 then s / 16 + v else if s >= 2 * h then s / 16 - v else s / 16, s % 16);
  }

  lemma NibbleSum(a: int, b: int)
    ensures (a + b) % 16 == if a % 16 + b % 16 >= 16 then a % 16 + b % 16 - 16 else a % 16 + b % 16
  {
  }

  lemma NibbleDifference(a: int, b: int)
    ensures (a - b) % 16 == if a % 16 < b % 16 then a % 16 - b % 16 + 16 else a % 16 - b % 16
  {
  }

  lemma SubFlags(x: nat, y: nat, c: nat, k: nat)
    requires k >= 4 && x < Pow2(k) && y < Pow2(k) && c <= 1
    ensures var t := Cut(x - c, k);
      var z := Cut(t - y, k);
      var r := SubResult(x, y, c, k);
      && z == r.z && r.cf == (x < t || t < z)
      && r.of == (Shr(And(Xor(z, x), Xor(x, y)), k - 1) != 0)
      && r.of == (Shr(And(Xor(x, y), Xor(z, x)), k - 1) != 0)
      && r.af == (And(x, 15) < And(t, 15) || And(t, 15) < And(z, 15))
      && (c == 0 ==> t == x)
      && (z >= Pow2(k - 1) <==> Shr(z, k - 1) != 0)
  {
    hide Cut, And, Xor, Shr, Pow2, LowNibble, SubResult;
    SubCarries(x, y, c, k);
    var t := Cut(x - c, k);
    var z := Cut(t - y, k);
    OverflowBit(z, x, x, y, k);
    OverflowBit(x, y, z, x, k);
    ShrTop(z, k - 1);
    Nibble(t); Nibble(x); Nibble(z); Nibble(y);
  }

  lemma SubCarries(x: nat, y: nat, c: nat, k: nat)
    requires k >= 4 && x < Pow2(k) && y < Pow2(k) && c <= 1
    ensures var t, h := Cut(x - c, k), Pow2(k - 1);
      var z := Cut(t - y, k);
      var r := SubResult(x, y, c, k);
      && z == r.z && r.cf == (x < t || t < z) && (c == 0 ==> t == x)
      && r.of == ((z >= h) != (x >= h) && (x >= h) != (y >= h))
      && r.af == (LowNibble(x) < LowNibble(t) || LowNibble(t) < LowNibble(z))
  {
    hide Cut, Wrap, Pow2, LowNibble, SubResult, Difference;
    SubResultIs(x, y, c, k);
    WidthIs(k);
    CutIsWrap(x - c, k);
    CutIsWrap(Cut(x - c, k) - y, k);
    SubWraps(x, y, c, Pow2(k - 1));
  }

  /** SubResult in terms of h, half the number of k-bit words. */
  function Difference(x: nat, y: nat, c: nat, h: nat): Result
    requires x < 2 * h && y < 2 * h && c <= 1
  {
    var s := (if x >= h then x - 2 * h else x) - (if y >= h then y - 2 * h else y) - c;
    Result(Wrap(x - y - c, h), x < y + c, !(0 - h <= s < h), LowNibble(x) < LowNibble(y) + c)
  }

  lemma SubResultIs(x: nat, y: nat, c: nat, k: nat)
    requires k >= 4 && x < Pow2(k) && y < Pow2(k) && c <= 1
    ensures SubResult(x, y, c, k) == Difference(x, y, c, Pow2(k - 1))
  {
    WidthIs(k);
    CutIsWrap(x - y - c, k);
    hide Cut, Pow2;
  }

  lemma SubWraps(x: nat, y: nat, c: nat, h: nat)
    requires x < 2 * h && y < 2 * h && c <= 1 && h % 8 == 0
    ensures var t, r := Wrap(x - c, h), Difference(x, y, c, h);
      var z := Wrap(t - y, h);
      && z == r.z && r.cf == (x < t || t < z) && (c == 0 ==> t == x)
      && r.of == ((z >= h) != (x >= h) && (x >= h) != (y >= h))
      && r.af == (LowNibble(x) < LowNibble(t) || LowNibble(t) < LowNibble(z))
  {
    hide LowNibble;
    SubHalfBorrow(x, y, c, h);
  }

  lemma SubHalfBorrow(x: nat, y: nat, c: nat, h: nat)
    requires x < 2 * h && y < 2 * h && c <= 1 && h % 8 == 0
    ensures var t := Wrap(x - c, h);
      var z := Wrap(t - y, h);
      LowNibble(x) < LowNibble(y) + c <==> LowNibble(x) < LowNibble(t) || LowNibble(t) < LowNibble(z)
  {
    hide Wrap;
    var t := Wrap(x - c, h);
    WrapNibble(x - c, h);
    WrapNibble(t - y, h);
    NibbleDifference(x, c);
    NibbleDifference(t, y);
  }
}
