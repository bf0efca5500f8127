/** PCLMULQDQ (native/blink/blink/clmul.c): multiplication of polynomials over GF(2). */
module Clmul {
  import opened Bits
  import opened Words

  /** The xor, over the set bits i of b, of a << i. */
  function Product(a: nat, b: nat): nat
    decreases b
  {
    if b == 0 then 0 else Xor(if b % 2 == 1 then a else 0, Product(2 * a, b / 2))
  }

  /** bsr: index of the highest set bit. */
  function Bsr(x: nat): nat
    requires x > 0
  {
    if x == 1 then 0 else 1 + Bsr(x / 2)
  }

  // ----- the product is the polynomial product -----

  /** The xor of b_j * a_(k-j) for j from i to k. */
  predicate Terms(a: nat, b: nat, k: nat, i: nat)
    decreases k + 1 - i
  {
    if i > k then false else (Bit(b, i) && Bit(a, k - i)) != Terms(a, b, k, i + 1)
  }

  lemma {:induction false} TermsOfHalf(a: nat, b: nat, k: nat, i: nat)
    requires k > 0
    ensures Terms(a, b, k, i + 1) == Terms(a, b / 2, k - 1, i)
    decreases k + 1 - i
  {
    if i < k { TermsOfHalf(a, b, k, i + 1); }
  }

  lemma {:induction false} TermsOfDouble(a: nat, b: nat, k: nat, i: nat)
    ensures Terms(2 * a, b, k, i) == (k > 0 && Terms(a, b, k - 1, i))
    decreases k + 1 - i
  {
    if i <= k { TermsOfDouble(a, b, k, i + 1); }
  }

  /** Coefficient k of the product is the xor of b_j * a_(k-j) for j up to k. */
  lemma {:induction false} ProductBit(a: nat, b: nat, k: nat)
    ensures Bit(Product(a, b), k) == Terms(a, b, k, 0)
    decreases b
  {
    if b == 0 {
      NoTerms(a, k, 0);
    } else {
      var t := if b % 2 == 1 then a else 0;
      XorBit(t, Product(2 * a, b / 2), k);
      ZeroBit(k);
      ProductBit(2 * a, b / 2, k);
      TermsOfDouble(a, b / 2, k, 0);
      if k > 0 { TermsOfHalf(a, b, k, 0); }
    }
  }

  lemma {:induction false} NoTerms(a: nat, k: nat, i: nat)
    ensures !Terms(a, 0, k, i)
    ensures !Bit(0, k)
    decreases k + 1 - i
  {
    ZeroBit(k);
    ZeroBit(i);
    if i <= k { NoTerms(a, k, i + 1); }
  }

  // ----- algebra -----

  lemma {:induction false} ProductZero(b: nat)
    ensures Product(0, b) == 0
    decreases b
  {
    if b > 0 { ProductZero(b / 2); }
  }

  /** Carry-less multiplication distributes over xor. */
  lemma {:induction false} ProductXor(a: nat, a': nat, b: nat)
    ensures Product(Xor(a, a'), b) == Xor(Product(a, b), Product(a', b))
    decreases b
  {
    if b > 0 {
      XorOfDoubles(a, 0, a', 0);
      ProductXor(2 * a, 2 * a', b / 2);
      var p, p' := Product(2 * a, b / 2), Product(2 * a', b / 2);
      if b % 2 == 1 {
        XorShuffle(a, p, a', p');
      } else {
        XorZero(p);
        XorZero(p');
        XorZero(Xor(p, p'));
      }
    }
  }

  lemma {:induction false} ProductDouble(a: nat, b: nat)
    ensures Product(2 * a, b) == 2 * Product(a, b)
    decreases b
  {
    if b > 0 {
      ProductDouble(2 * a, b / 2);
      XorOfDoubles(if b % 2 == 1 then a else 0, 0, Product(2 * a, b / 2), 0);
    }
  }

  lemma {:induction false} ProductOne(b: nat)
    ensures Product(1, b) == b
    decreases b
  {
    if b > 0 {
      ProductOne(b / 2);
      ProductDouble(1, b / 2);
      XorOfDoubles(0, b % 2, b / 2, 0);
      XorZero(b / 2);
    }
  }

  lemma {:induction false} ProductCommutes(a: nat, b: nat)
    ensures Product(a, b) == Product(b, a)
    decreases a
  {
    if a == 0 {
      ProductZero(b);
    } else {
      ProductCommutes(a / 2, b);
      ProductDouble(a / 2, b);
      ProductDouble(b, a / 2);
      var t := if a % 2 == 1 then b else 0;
      assert Product(a % 2, b) == t by { ProductOne(b); ProductZero(b); }
      ProductXor(a % 2, 2 * (a / 2), b);
      XorOfDoubles(0, a % 2, a / 2, 0);
      XorZero(a / 2);
    }
  }

  // ----- the loop -----

  /** clmul: x is the low and y the high half of the product. */
  method Multiply(a0: U64, b0: U64) returns (x: U64, y: U64)
    ensures x + W64 * y == Product(a0, b0)
  {
    x, y := 0, 0;
    ProductZero(b0);
    if a0 != 0 && b0 != 0 {
      var a: U64, b: U64, t: U64 := a0, b0, 0;
      if Bsr(a) < Bsr(b) {
        ProductCommutes(a, b);
        a, b := b, a;
      }
      ghost var i := 0;
      Pow2Word();
      XorZero(Product(a0, b0));
      assert Multiplying(Product(a0, b0), x, y, a, t, b, i);
      hide Multiplying, Xor, Or, Product;
      while b != 0
        invariant Multiplying(Product(a0, b0), x, y, a, t, b, i)
        decreases b
      {
        MultiplyRound(Product(a0, b0), x, y, a, t, b, i);
        if b % 2 == 1 {
          x, y := Xor(x, a), Xor(y, t);
        }
        t := Or(2 * t % W64, a / W63);
        a, b := 2 * a % W64, b / 2;
        i := i + 1;
      }
      MultiplyEnds(Product(a0, b0), x, y, a, t, i);
    }
  }

  /** i rounds done: what is accumulated in y:x and what t:a and b still give. */
  ghost predicate Multiplying(p: nat, x: U64, y: U64, a: U64, t: U64, b: U64, i: nat) {
    && i <= 64 && b < Pow2(64 - i) && Wide(t, a) < Pow2(64 + i)
    && Xor(Wide(y, x), Product(Wide(t, a), b)) == p
  }

  lemma MultiplyRound(p: nat, x: U64, y: U64, a: U64, t: U64, b: U64, i: nat)
    requires b != 0 && Multiplying(p, x, y, a, t, b, i)
    ensures Xor(x, a) < W64 && Xor(y, t) < W64 && Or(2 * t % W64, a / W63) < W64
    ensures Multiplying(p, if b % 2 == 1 then Xor(x, a) else x, if b % 2 == 1 then Xor(y, t) else y,
              2 * a % W64, Or(2 * t % W64, a / W63), b / 2, i + 1)
  {
    hide Xor, Or, Product;
    Accumulate(x, y, a, t, b);
    ShiftWide(t, a, i);
  }

  lemma MultiplyEnds(p: nat, x: U64, y: U64, a: U64, t: U64, i: nat)
    requires Multiplying(p, x, y, a, t, 0, i)
    ensures x + W64 * y == p
  {
    XorZero(Wide(y, x));
  }

  /** The 128-bit number hi:lo. */
  function Wide(hi: U64, lo: U64): nat {
    lo + W64 * hi
  }

  lemma WideIs(hi: U64, lo: U64)
    ensures Wide(hi, lo) == Shl(hi, 64) + lo
  {
    Pow2Word();
    ShlIsMul(hi, 64);
  }

  /** Xor of two pairs is done half by half. */
  lemma XorWide(y: U64, x: U64, t: U64, a: U64)
    ensures Xor(x, a) < W64 && Xor(y, t) < W64
    ensures Wide(Xor(y, t), Xor(x, a)) == Xor(Wide(y, x), Wide(t, a))
  {
    Pow2Word();
    XorBound(x, a, 64);
    XorBound(y, t, 64);
    WideIs(y, x);
    WideIs(t, a);
    WideIs(Xor(y, t), Xor(x, a));
    XorSplit(y, x, t, a, 64);
  }

  lemma Accumulate(x: U64, y: U64, a: U64, t: U64, b: nat)
    requires b > 0
    ensures Xor(x, a) < W64 && Xor(y, t) < W64
    ensures Xor(Wide(y, x), Product(Wide(t, a), b))
         == Xor(if b % 2 == 1 then Wide(Xor(y, t), Xor(x, a)) else Wide(y, x), Product(2 * Wide(t, a), b / 2))
  {
    XorWide(y, x, t, a);
    var p := Product(2 * Wide(t, a), b / 2);
    XorAssociates(Wide(y, x), Wide(t, a), p);
    XorZero(p);
  }

  lemma ShiftWide(t: U64, a: U64, i: nat)
    requires i < 64 && Wide(t, a) < Pow2(64 + i)
    ensures Or(2 * t % W64, a / W63) < W64
    ensures Wide(Or(2 * t % W64, a / W63), 2 * a % W64) == 2 * Wide(t, a) < Pow2(64 + i + 1)
  {
    hide Pow2, Or;
    Pow2Double();
    Pow2Monotone(64 + i, 127);
    Pow2Up(64 + i);
    OrTop(t, a / W63);
    ShiftHalves(a);
  }

  lemma OrTop(t: U64, b: nat)
    requires t < W63 && b <= 1
    ensures Or(2 * t % W64, b) == 2 * t + b < W64
  {
    hide Or;
    assert 2 * t == Shl(t, 1) && Pow2(1) == 2;
    OrDisjoint(t, b, 1);
  }

  lemma ShiftHalves(a: U64)
    ensures 0 <= a / W63 <= 1 && 2 * a % W64 + W64 * (a / W63) == 2 * a
  {
  }
}
