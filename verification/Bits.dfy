/** Bitwise operations on natural numbers, used to model the C operators on
    unsigned words: a word of width k is a natural number below Pow2(k), a left
    shift is multiplication followed by reduction modulo Pow2(k), and `|`, `&`,
    `^` are the functions Or, And, Xor below. */
module Bits {

  function Pow2(n: nat): (p: nat)
    ensures p > 0
  {
    if n == 0 then 1 else 2 * Pow2(n - 1)
  }

  /** Bit i of x. */
  predicate Bit(x: nat, i: nat)
    decreases i
  {
    if i == 0 then x % 2 == 1 else Bit(x / 2, i - 1)
  }

  /** x << k, without a width. */
  function Shl(x: nat, k: nat): nat {
    if k == 0 then x else 2 * Shl(x, k - 1)
  }

  /** x >> k. */
  function Shr(x: nat, k: nat): nat
    decreases k
  {
    if k == 0 then x else Shr(x / 2, k - 1)
  }

  function B2N(b: bool): (n: nat)
    ensures n <= 1
  {
    if b then 1 else 0
  }

  function Or(a: nat, b: nat): nat
    decreases a + b
  {
    if a == 0 && b == 0 then 0 else B2N(a % 2 == 1 || b % 2 == 1) + 2 * Or(a / 2, b / 2)
  }

  function And(a: nat, b: nat): nat
    decreases a + b
  {
    if a == 0 && b == 0 then 0 else B2N(a % 2 == 1 && b % 2 == 1) + 2 * And(a / 2, b / 2)
  }

  function Xor(a: nat, b: nat): nat
    decreases a + b
  {
    if a == 0 && b == 0 then 0 else B2N(a % 2 != b % 2) + 2 * Xor(a / 2, b / 2)
  }

  // ----- powers of two -----

  lemma {:induction false} Pow2Add(m: nat, n: nat)
    ensures Pow2(m + n) == Pow2(m) * Pow2(n)
  {
    if m > 0 {
      Pow2Add(m - 1, n);
      Regroup(Pow2(m - 1), Pow2(n));
    }
  }

  lemma Pow2Up(k: nat)
    ensures Pow2(0) == 1 && Pow2(k + 1) == 2 * Pow2(k)
  {
  }

  lemma {:induction false} Pow2Monotone(m: nat, n: nat)
    requires m <= n
    ensures Pow2(m) <= Pow2(n)
    decreases n
  {
    if m < n { Pow2Monotone(m, n - 1); }
  }

  lemma Pow2Small()
    ensures Pow2(8) == 0x100 && Pow2(16) == 0x1_0000 && Pow2(32) == 0x1_0000_0000
  {
    assert Pow2(4) == 16;
    Pow2Add(4, 4);
    Pow2Add(8, 8);
    Pow2Add(16, 16);
  }

  lemma Pow2Word()
    ensures Pow2(63) == 0x8000_0000_0000_0000 && Pow2(64) == 0x1_0000_0000_0000_0000
  {
    Pow2Small();
    Pow2Add(32, 32);
    Pow2Add(63, 1);
  }

  lemma Pow2Double()
    ensures Pow2(127) == 0x8000_0000_0000_0000_0000_0000_0000_0000
    ensures Pow2(128) == 0x1_0000_0000_0000_0000_0000_0000_0000_0000
  {
    Pow2Word();
    Pow2Add(64, 64);
    Pow2Add(64, 63);
  }

  /** Moves a factor of two across a product. */
  lemma Regroup(x: int, p: int)
    ensures x * (2 * p) == 2 * (x * p) == (2 * x) * p
  {
  }

  lemma {:induction false} ShlIsMul(x: nat, k: nat)
    ensures Shl(x, k) == x * Pow2(k)
  {
    if k > 0 {
      ShlIsMul(x, k - 1);
      Regroup(x, Pow2(k - 1));
    }
  }

  lemma {:induction false} ShrIsDiv(x: nat, k: nat)
    ensures Shr(x, k) == x / Pow2(k)
    decreases k
  {
    if k > 0 {
      ShrIsDiv(x / 2, k - 1);
      ModDouble(x, Pow2(k - 1));
    }
  }

  lemma {:induction false} ShlDouble(x: nat, k: nat)
    ensures Shl(2 * x, k) == Shl(x, k + 1)
  {
    if k > 0 { ShlDouble(x, k - 1); }
  }

  lemma {:induction false} ShlPlusOne(x: nat, k: nat)
    ensures Shl(x + 1, k) == Shl(x, k) + Pow2(k)
  {
    if k > 0 { ShlPlusOne(x, k - 1); }
  }

  lemma {:induction false} ZeroBit(i: nat)
    ensures !Bit(0, i)
    decreases i
  {
    if i > 0 { ZeroBit(i - 1); }
  }

  /** The parts of x above and below bit k. */
  lemma {:induction false} SplitAt(x: nat, k: nat) returns (lo: nat)
    ensures x == Shl(Shr(x, k), k) + lo && lo < Pow2(k)
    decreases k
  {
    if k == 0 {
      lo := 0;
    } else {
      lo := SplitAt(x / 2, k - 1);
      lo := 2 * lo + x % 2;
    }
  }

  // ----- or, and -----

  /** Or of a multiple of Pow2(k) with a number below it is their sum. */
  lemma {:induction false} OrDisjoint(hi: nat, lo: nat, k: nat)
    requires lo < Pow2(k)
    ensures Or(Shl(hi, k), lo) == Shl(hi, k) + lo
    ensures Or(lo, Shl(hi, k)) == Shl(hi, k) + lo
  {
    if k == 0 {
      OrZero(hi);
    } else {
      OrDisjoint(hi, lo / 2, k - 1);
    }
  }

  lemma {:induction false} OrZero(a: nat)
    ensures Or(a, 0) == a && Or(0, a) == a
  {
    if a > 0 { OrZero(a / 2); }
  }

  lemma {:induction false} OrAssociates(a: nat, b: nat, c: nat)
    ensures Or(Or(a, b), c) == Or(a, Or(b, c))
    decreases a + b + c
  {
    if a + b + c > 0 {
      OrAssociates(a / 2, b / 2, c / 2);
      OrHalves(a, b);
      OrHalves(b, c);
    }
  }

  lemma OrHalves(a: nat, b: nat)
    ensures Or(a, b) / 2 == Or(a / 2, b / 2)
    ensures Or(a, b) % 2 == B2N(a % 2 == 1 || b % 2 == 1)
  {
  }

  /** Masking with k ones is reduction modulo Pow2(k). */
  lemma {:induction false} AndMask(a: nat, k: nat)
    ensures And(a, Pow2(k) - 1) == a % Pow2(k)
  {
    if k == 0 {
      AndZero(a);
    } else {
      var p := Pow2(k - 1);
      assert (2 * p - 1) % 2 == 1 && (2 * p - 1) / 2 == p - 1;
      AndMask(a / 2, k - 1);
      ModDouble(a, p);
    }
  }

  lemma {:induction false} AndZero(a: nat)
    ensures And(a, 0) == 0
  {
    if a > 0 { AndZero(a / 2); }
  }

  lemma ModDouble(a: nat, p: nat)
    requires p > 0
    ensures a % (2 * p) == a % 2 + 2 * (a / 2 % p)
    ensures a / (2 * p) == a / 2 / p
  {
    var q, r := a / 2 / p, a / 2 % p;
    DivMod(a / 2, p);
    Regroup(q, p);
    ModUnique(a, 2 * p, q, 2 * r + a % 2);
  }

  /** Quotient and remainder are determined by a == q * b + r with 0 <= r < b. */
  lemma ModUnique(a: int, b: int, q: int, r: int)
    requires 0 <= r < b && a == q * b + r
    ensures a / b == q && a % b == r
  {
    var q', r' := a / b, a % b;
    assert a == q' * b + r' && 0 <= r' < b;
    Distribute(q, q', b);
    if q > q' {
      AtLeastOnce(q - q', b);
    } else if q < q' {
      Distribute(q', q, b);
      AtLeastOnce(q' - q, b);
    }
  }

  lemma DivMod(a: int, b: int)
    requires b > 0
    ensures a == (a / b) * b + a % b && 0 <= a % b < b
  {
  }

  lemma Distribute(q: int, q': int, b: int)
    ensures (q - q') * b == q * b - q' * b
  {
  }

  lemma AtLeastOnce(n: int, b: int)
    requires n >= 1 && b >= 0
    ensures n * b >= b
  {
  }

  // ----- the top bit of a k-bit word -----

  lemma {:induction false} ShrTop(x: nat, k: nat)
    ensures Shr(x, k) != 0 <==> x >= Pow2(k)
    decreases k
  {
    if k > 0 { ShrTop(x / 2, k - 1); }
  }

  lemma {:induction false} AndTop(a: nat, b: nat, k: nat)
    requires a < 2 * Pow2(k) && b < 2 * Pow2(k)
    ensures And(a, b) < 2 * Pow2(k)
    ensures And(a, b) >= Pow2(k) <==> a >= Pow2(k) && b >= Pow2(k)
    decreases k
  {
    assert And(a, b) / 2 == And(a / 2, b / 2);
    if k == 0 {
      assert And(a / 2, b / 2) == 0;
    } else {
      AndTop(a / 2, b / 2, k - 1);
    }
  }

  lemma {:induction false} XorTop(a: nat, b: nat, k: nat)
    requires a < 2 * Pow2(k) && b < 2 * Pow2(k)
    ensures Xor(a, b) < 2 * Pow2(k)
    ensures Xor(a, b) >= Pow2(k) <==> (a >= Pow2(k)) != (b >= Pow2(k))
    decreases k
  {
    XorHalves(a, b);
    if k == 0 {
      assert Xor(a / 2, b / 2) == 0;
    } else {
      XorTop(a / 2, b / 2, k - 1);
    }
  }

  // ----- xor -----

  lemma {:induction false} XorZero(a: nat)
    ensures Xor(a, 0) == a && Xor(0, a) == a
  {
    if a > 0 { XorZero(a / 2); }
  }

  lemma {:induction false} XorSelf(a: nat)
    ensures Xor(a, a) == 0
  {
    if a > 0 { XorSelf(a / 2); }
  }

  lemma {:induction false} XorCommutes(a: nat, b: nat)
    ensures Xor(a, b) == Xor(b, a)
    decreases a + b
  {
    if a + b > 0 { XorCommutes(a / 2, b / 2); }
  }

  lemma {:induction false} XorAssociates(a: nat, b: nat, c: nat)
    ensures Xor(Xor(a, b), c) == Xor(a, Xor(b, c))
    decreases a + b + c
  {
    if a + b + c > 0 {
      XorAssociates(a / 2, b / 2, c / 2);
      XorHalves(a, b);
      XorHalves(b, c);
    }
  }

  lemma XorHalves(a: nat, b: nat)
    ensures Xor(a, b) / 2 == Xor(a / 2, b / 2)
    ensures Xor(a, b) % 2 == B2N(a % 2 != b % 2)
  {
  }

  /** Swaps the middle two of four xor operands. */
  lemma XorShuffle(a: nat, b: nat, c: nat, d: nat)
    ensures Xor(Xor(a, b), Xor(c, d)) == Xor(Xor(a, c), Xor(b, d))
  {
    calc {
      Xor(Xor(a, b), Xor(c, d));
      { XorAssociates(a, b, Xor(c, d)); }
      Xor(a, Xor(b, Xor(c, d)));
      { XorAssociates(b, c, d); XorCommutes(b, c); XorAssociates(c, b, d); }
      Xor(a, Xor(c, Xor(b, d)));
      { XorAssociates(a, c, Xor(b, d)); }
      Xor(Xor(a, c), Xor(b, d));
    }
  }

  /** Xor works on the part above and the part below bit k separately. */
  lemma {:induction false} XorSplit(hi: nat, lo: nat, hi': nat, lo': nat, k: nat)
    requires lo < Pow2(k) && lo' < Pow2(k)
    ensures Xor(lo, lo') < Pow2(k)
    ensures Xor(Shl(hi, k) + lo, Shl(hi', k) + lo') == Shl(Xor(hi, hi'), k) + Xor(lo, lo')
  {
    if k > 0 {
      var e, e' := lo % 2, lo' % 2;
      XorSplit(hi, lo / 2, hi', lo' / 2, k - 1);
      assert Xor(lo, lo') == 2 * Xor(lo / 2, lo' / 2) + B2N(e != e') by {
        XorOfDoubles(lo / 2, e, lo' / 2, e');
      }
      XorOfDoubles(Shl(hi, k - 1) + lo / 2, e, Shl(hi', k - 1) + lo' / 2, e');
    }
  }

  lemma XorOfDoubles(a: nat, e: nat, a': nat, e': nat)
    requires e <= 1 && e' <= 1
    ensures Xor(2 * a + e, 2 * a' + e') == 2 * Xor(a, a') + B2N(e != e')
  {
    XorHalves(2 * a + e, 2 * a' + e');
  }

  lemma XorBound(a: nat, b: nat, k: nat)
    requires a < Pow2(k) && b < Pow2(k)
    ensures Xor(a, b) < Pow2(k)
  {
    XorSplit(0, a, 0, b, k);
    ShlIsMul(0, k);
  }

  lemma {:induction false} XorBit(a: nat, b: nat, i: nat)
    ensures Bit(Xor(a, b), i) == (Bit(a, i) != Bit(b, i))
    decreases i
  {
    XorHalves(a, b);
    if i > 0 { XorBit(a / 2, b / 2, i - 1); }
  }

  /** Numbers with the same bits are equal. */
  lemma {:induction false} BitsDetermine(a: nat, b: nat)
    requires forall i: nat :: Bit(a, i) == Bit(b, i)
    ensures a == b
    decreases a + b
  {
    assert Bit(a, 0) == Bit(b, 0);
    if a + b > 0 {
      forall i: nat ensures Bit(a / 2, i) == Bit(b / 2, i) {
        assert Bit(a, i + 1) == Bit(b, i + 1);
      }
      BitsDetermine(a / 2, b / 2);
    }
  }
}
