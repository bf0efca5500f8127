/** The CRC32 instruction (native/blink/blink/crc32.c): a table-driven CRC32C
    against the bit-serial definition of section 12.1 of RFC 3720. */
module Crc32c {
  import opened Bits
  import opened Words

  // ----- the polynomial -----

  function Swap32(x: bv32): bv32 {
    (x >> 24) | ((x >> 8) & 0xff00) | ((x << 8) & 0xff0000) | (x << 24)
  }

  function ReverseBits32(x: bv32): bv32 {
    var a := Swap32(x);
    var b := ((a & 0xaaaaaaaa) >> 1) | ((a & 0x55555555) << 1);
    var c := ((b & 0xcccccccc) >> 2) | ((b & 0x33333333) << 2);
    ((c & 0xf0f0f0f0) >> 4) | ((c & 0x0f0f0f0f) << 4)
  }

  /** r has at p the bit that x has at q, and the other way round. */
  predicate Exchanged(x: bv32, r: bv32, p: bv32, q: bv32) {
    (r & p != 0) == (x & q != 0) && (r & q != 0) == (x & p != 0)
  }

  /** Bit i of the result is bit 31 - i of x. */
  lemma ReverseBits32Exchanges(x: bv32)
    ensures Exchanged(x, ReverseBits32(x), 0x0000_0001, 0x8000_0000)
    ensures Exchanged(x, ReverseBits32(x), 0x0000_0002, 0x4000_0000)
    ensures Exchanged(x, ReverseBits32(x), 0x0000_0004, 0x2000_0000)
    ensures Exchanged(x, ReverseBits32(x), 0x0000_0008, 0x1000_0000)
    ensures Exchanged(x, ReverseBits32(x), 0x0000_0010, 0x0800_0000)
    ensures Exchanged(x, ReverseBits32(x), 0x0000_0020, 0x0400_0000)
    ensures Exchanged(x, ReverseBits32(x), 0x0000_0040, 0x0200_0000)
    ensures Exchanged(x, ReverseBits32(x), 0x0000_0080, 0x0100_0000)
    ensures Exchanged(x, ReverseBits32(x), 0x0000_0100, 0x0080_0000)
    ensures Exchanged(x, ReverseBits32(x), 0x0000_0200, 0x0040_0000)
    ensures Exchanged(x, ReverseBits32(x), 0x0000_0400, 0x0020_0000)
    ensures Exchanged(x, ReverseBits32(x), 0x0000_0800, 0x0010_0000)
    ensures Exchanged(x, ReverseBits32(x), 0x0000_1000, 0x0008_0000)
    ensures Exchanged(x, ReverseBits32(x), 0x0000_2000, 0x0004_0000)
    ensures Exchanged(x, ReverseBits32(x), 0x0000_4000, 0x0002_0000)
    ensures Exchanged(x, ReverseBits32(x), 0x0000_8000, 0x0001_0000)
  {
  }

  lemma ReverseBits32Twice(x: bv32)
    ensures ReverseBits32(ReverseBits32(x)) == x
  {
  }

  /** The Castagnoli polynomial of RFC 3720, reversed. */
  const POLYNOMIAL: U32 := 0x82f6_3b78

  lemma PolynomialIsReversed()
    ensures ReverseBits32(0x1edc6f41) == 0x82f63b78
  {
  }

  /** The polynomial in use is the reversed one. */
  lemma PolynomialIs()
    ensures ReverseBits32(0x1edc6f41) as int == POLYNOMIAL
  {
    hide ReverseBits32;
    PolynomialIsReversed();
  }

  // ----- bit-serial definition, for any polynomial -----

  /** One step of polynomial division: r >> 1 ^ (r & 1 ? polynomial : 0). */
  function Shift(p: nat, r: nat): nat {
    Xor(r / 2, if r % 2 == 1 then p else 0)
  }

  function Shifts(p: nat, r: nat, n: nat): nat
    decreases n
  {
    if n == 0 then r else Shifts(p, Shift(p, r), n - 1)
  }

  /** The remainder h after feeding the n low bits of w, least significant first. */
  function BitSerial(p: nat, h: nat, w: nat, n: nat): nat
    decreases n
  {
    if n == 0 then h else BitSerial(p, Shift(p, Xor(h, w % 2)), w / 2, n - 1)
  }

  // ----- the steps are linear -----

  lemma ShiftXor(p: nat, a: nat, b: nat)
    ensures Shift(p, Xor(a, b)) == Xor(Shift(p, a), Shift(p, b))
  {
    var x, y := if a % 2 == 1 then p else 0, if b % 2 == 1 then p else 0;
    XorHalves(a, b);
    XorShuffle(a / 2, x, b / 2, y);
    XorZero(x);
    XorZero(y);
    XorSelf(x);
  }

  lemma {:induction false} ShiftsXor(p: nat, a: nat, b: nat, n: nat)
    ensures Shifts(p, Xor(a, b), n) == Xor(Shifts(p, a, n), Shifts(p, b, n))
    decreases n
  {
    if n > 0 {
      ShiftXor(p, a, b);
      ShiftsXor(p, Shift(p, a), Shift(p, b), n - 1);
    }
  }

  /** Bits above the ones divided out just move down. */
  lemma {:induction false} ShiftsOfHigh(p: nat, h: nat, n: nat)
    ensures Shifts(p, Shl(h, n), n) == h
    decreases n
  {
    if n > 0 {
      ShiftOfEven(p, Shl(h, n - 1));
      ShiftsOfHigh(p, h, n - 1);
    }
  }

  lemma ShiftOfEven(p: nat, r: nat)
    ensures Shift(p, 2 * r) == r
  {
    XorZero(r);
  }

  /** Feeding n message bits is n steps on the remainder with the bits added in. */
  lemma {:induction false} BitSerialIsShifts(p: nat, h: nat, w: nat, n: nat)
    requires w < Pow2(n)
    ensures BitSerial(p, h, w, n) == Shifts(p, Xor(h, w), n)
    decreases n
  {
    if n == 0 {
      XorZero(h);
    } else {
      BitSerialIsShifts(p, Shift(p, Xor(h, w % 2)), w / 2, n - 1);
      calc {
        Xor(Shift(p, Xor(h, w % 2)), w / 2);
        { ShiftOfEven(p, w / 2); }
        Xor(Shift(p, Xor(h, w % 2)), Shift(p, 2 * (w / 2)));
        { ShiftXor(p, Xor(h, w % 2), 2 * (w / 2)); }
        Shift(p, Xor(Xor(h, w % 2), 2 * (w / 2)));
        { XorAssociates(h, w % 2, 2 * (w / 2)); LowBit(w); }
        Shift(p, Xor(h, w));
      }
    }
  }

  lemma LowBit(w: nat)
    ensures Xor(w % 2, 2 * (w / 2)) == w
  {
    XorOfDoubles(0, w % 2, w / 2, 0);
    XorZero(w / 2);
  }

  /** Dividing out n bits at once: the low n bits choose what is added to the
      rest (the table lookup, for n = 8). */
  lemma GroupOfSteps(p: nat, hi: nat, lo: nat, b: nat, n: nat)
    requires lo < Pow2(n) && b < Pow2(n)
    ensures Xor(hi, Shifts(p, Xor(lo, b), n)) == BitSerial(p, Shl(hi, n) + lo, b, n)
  {
    hide Xor, Shl, Shifts, BitSerial, Pow2;
    var s := Xor(lo, b);
    XorSplit(hi, lo, 0, b, n);
    XorSplit(hi, 0, 0, s, n);
    XorZero(hi);
    XorZero(s);
    ShlIsMul(0, n);
    BitSerialIsShifts(p, Shl(hi, n) + lo, b, n);
    assert Xor(Shl(hi, n) + lo, b) == Xor(Shl(hi, n), s);
    ShiftsXor(p, Shl(hi, n), s, n);
    ShiftsOfHigh(p, hi, n);
  }

  /** Feeding m + n bits is feeding m bits and then the following n. */
  lemma {:induction false} BitSerialAppend(p: nat, h: nat, hi: nat, lo: nat, m: nat, n: nat)
    requires lo < Pow2(m)
    ensures BitSerial(p, h, Shl(hi, m) + lo, m + n) == BitSerial(p, BitSerial(p, h, lo, m), hi, n)
    decreases m
  {
    if m > 0 {
      var w := Shl(hi, m) + lo;
      assert w % 2 == lo % 2 && w / 2 == Shl(hi, m - 1) + lo / 2;
      BitSerialAppend(p, Shift(p, Xor(h, lo % 2)), hi, lo / 2, m - 1, n);
    }
  }

  // ----- the table-driven routine -----

  ghost predicate TableOf(p: nat, table: array<U32>)
    reads table
  {
    table.Length == 256 && forall d | 0 <= d < 256 :: table[d] == Shifts(p, d, 8)
  }

  method InitializeCrc32(table: array<U32>, polynomial: U32)
    requires table.Length == 256
    modifies table
    ensures TableOf(polynomial, table)
  {
    var d := 0;
    while d < 256
      invariant 0 <= d <= 256
      invariant forall j | 0 <= j < d :: table[j] == Shifts(polynomial, j, 8)
    {
      var r: U32 := d;
      var i := 0;
      while i < 8
        invariant 0 <= i <= 8 && Shifts(polynomial, r, 8 - i) == Shifts(polynomial, d, 8)
        invariant forall j | 0 <= j < d :: table[j] == Shifts(polynomial, j, 8)
      {
        ShiftBound(polynomial, r);
        r := Xor(r / 2, if And(r, 1) != 0 then polynomial else 0);
        i := i + 1;
      }
      table[d] := r;
      d := d + 1;
    }
  }

  lemma ShiftBound(p: U32, r: U32)
    ensures Xor(r / 2, if And(r, 1) != 0 then p else 0) == Shift(p, r) < W32
  {
    Pow2Small();
    AndMask(r, 1);
    XorBound(r / 2, if r % 2 == 1 then p else 0, 32);
  }

  /** kCastagnoli and its `once` flag. */
  class Table {
    const entries: array<U32>
    var once: bool

    ghost predicate Valid()
      reads this, entries
    {
      entries.Length == 256 && (once ==> TableOf(POLYNOMIAL, entries))
    }

    constructor ()
      ensures Valid() && fresh(entries)
    {
      entries := new U32[256];
      once := false;
    }

    /** Castagnoli: n bytes of w through the table are 8n bit-serial steps. */
    method Castagnoli(h0: U32, w0: U64, n: int) returns (h: U32)
      requires Valid()
      modifies this, entries
      ensures Valid()
      ensures h == BitSerial(POLYNOMIAL, h0, w0, if n > 0 then 8 * n else 0)
    {
      if !once {
        InitializeCrc32(entries, POLYNOMIAL);
        once := true;
      }
      h := h0;
      var w, i := w0, 0;
      while i < n
        invariant 0 <= i && (i <= n || i == 0) && Valid() && once
        invariant BitSerial(POLYNOMIAL, h, w, if i < n then 8 * (n - i) else 0)
               == BitSerial(POLYNOMIAL, h0, w0, if n > 0 then 8 * n else 0)
      {
        TableStep(h, w, 8 * (n - i - 1));
        h := Xor(h / 256, entries[Xor(And(h, 255), And(w, 255))]);
        w := w / 256;
        i := i + 1;
      }
    }
  }

  lemma TableStep(h: U32, w: U64, rest: nat)
    ensures Xor(And(h, 255), And(w, 255)) < 256
    ensures var h' := Xor(h / 256, Shifts(POLYNOMIAL, Xor(And(h, 255), And(w, 255)), 8));
      h' < W32 && BitSerial(POLYNOMIAL, h, w, 8 + rest) == BitSerial(POLYNOMIAL, h', w / 256, rest)
  {
    hide Shifts, BitSerial, Xor, And;
    Pow2Small();
    AndMask(h, 8);
    AndMask(w, 8);
    XorBound(h % 256, w % 256, 8);
    ShiftsBound(POLYNOMIAL, Xor(h % 256, w % 256), 8);
    XorBound(h / 256, Shifts(POLYNOMIAL, Xor(h % 256, w % 256), 8), 32);
    ShlIsMul(h / 256, 8);
    ShlIsMul(w / 256, 8);
    GroupOfSteps(POLYNOMIAL, h / 256, h % 256, w % 256, 8);
    BitSerialAppend(POLYNOMIAL, h, w / 256, w % 256, 8, rest);
  }

  lemma {:induction false} ShiftsBound(p: U32, r: U32, n: nat)
    ensures Shifts(p, r, n) < W32
    decreases n
  {
    if n > 0 {
      ShiftBound(p, r);
      ShiftsBound(p, Shift(p, r), n - 1);
    }
  }

  /** Processing n1 + n2 bytes is processing n1 and then n2. */
  lemma BytesCompose(h: U32, w: U64, n1: nat, n2: nat)
    ensures BitSerial(POLYNOMIAL, h, w, 8 * n1 + 8 * n2)
         == BitSerial(POLYNOMIAL, BitSerial(POLYNOMIAL, h, w, 8 * n1), Shr(w, 8 * n1), 8 * n2)
  {
    var lo := SplitAt(w, 8 * n1);
    var hi := Shr(w, 8 * n1);
    BitSerialAppend(POLYNOMIAL, h, hi, lo, 8 * n1, 8 * n2);
    BitSerialAppend(POLYNOMIAL, h, hi, lo, 8 * n1, 0);
  }
}
