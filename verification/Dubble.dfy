/** 64-bit MUL, IMUL, DIV and IDIV on hosts without a 128-bit integer type
    (native/blink/blink/divmul.c). */
module Dubble {
  import opened Bits
  import opened Words
  import opened X86

  const W127: int := W63 * W64
  const W128: int := W64 * W64

  datatype Dubble = Dubble(lo: U64, hi: U64) {
    /** The 128-bit number that the pair stands for. */
    function Val(): int {
      lo + W64 * hi
    }

    /** The same bits read as two's complement. */
    function Signed(): int {
      if hi >= W63 then Val() - W128 else Val()
    }
  }

  function Signed64(x: U64): int {
    if x >= W63 then x - W64 else x
  }

  function Wrap(x: int): U64 {
    x % W64
  }

  // ----- value functions -----

  function Neg(x: Dubble): Dubble {
    var borrow := if Wrap(x.lo - 1) > x.lo then 1 else 0;
    Dubble(Wrap(-(x.lo as int)), W64 - 1 - Wrap(x.hi - borrow))
  }

  function Shl1(x: Dubble): Dubble {
    Shl1Bound(x);
    Dubble(Wrap(2 * x.lo), Or(Wrap(2 * x.hi), x.lo / W63))
  }

  function Shr1(x: Dubble): Dubble {
    Shr1Bound(x);
    Dubble(Or(x.lo / 2, Wrap(x.hi * W63)), x.hi / 2)
  }

  predicate Lte(a: Dubble, b: Dubble) {
    if a.hi == b.hi then a.lo <= b.lo else a.hi <= b.hi
  }

  /** The two-limb subtraction in the division loop, with its final borrow. */
  function Subtract(a: Dubble, d: Dubble): (Dubble, bool) {
    var lo := Wrap(a.lo - d.lo);
    var c := if lo > a.lo then 1 else 0;
    var hi := Wrap(a.hi - Wrap(d.hi + c));
    (Dubble(lo, hi), hi > a.hi)
  }

  lemma Shl1Bound(x: Dubble)
    ensures Or(Wrap(2 * x.hi), x.lo / W63) == Wrap(2 * x.hi) + x.lo / W63 < W64
  {
    var h := Wrap(2 * x.hi) / 2;
    assert Wrap(2 * x.hi) == Shl(h, 1);
    OrDisjoint(h, x.lo / W63, 1);
  }

  lemma Shr1Bound(x: Dubble)
    ensures Wrap(x.hi * W63) == (x.hi % 2) * W63
    ensures Or(x.lo / 2, Wrap(x.hi * W63)) == x.lo / 2 + (x.hi % 2) * W63 < W64
  {
    assert x.hi * W63 == (x.hi / 2) * W64 + (x.hi % 2) * W63;
    ModUnique(x.hi * W63, W64, x.hi / 2, (x.hi % 2) * W63);
    Pow2Word();
    ShlIsMul(x.hi % 2, 63);
    OrDisjoint(x.hi % 2, x.lo / 2, 63);
  }

  lemma NegVal(x: Dubble)
    ensures Neg(x).Val() == if x.Val() == 0 then 0 else W128 - x.Val()
  {
  }

  lemma Shl1Val(x: Dubble)
    ensures Shl1(x).Val() == if x.Val() < W127 then 2 * x.Val() else 2 * x.Val() - W128
    ensures Shl1(x).lo % 2 == 0
  {
    Shl1Bound(x);
    WrapDouble(x.lo);
    WrapDouble(x.hi);
  }

  lemma WrapDouble(x: U64)
    ensures Wrap(2 * x) == 2 * x - W64 * (x / W63) && 0 <= x / W63 <= 1
    ensures x / W63 == 1 <==> x >= W63
  {
  }

  lemma Shr1Val(x: Dubble)
    ensures Shr1(x).Val() == x.Val() / 2 && Shr1(x).hi < W63
  {
    Shr1Bound(x);
  }

  lemma LteVal(a: Dubble, b: Dubble)
    ensures Lte(a, b) <==> a.Val() <= b.Val()
  {
  }

  lemma SubtractVal(a: Dubble, d: Dubble)
    requires d.hi < W63
    ensures Subtract(a, d).1 <==> a.Val() < d.Val()
    ensures a.Val() >= d.Val() ==> Subtract(a, d).0.Val() == a.Val() - d.Val()
  {
  }

  // ----- multiplication -----

  method Mul(a: U64, b: U64) returns (d: Dubble)
    ensures d.Val() == a * b
  {
    Limbs(a, b);
    d := SumLimbs((a % W32) * (b % W32), (a / W32) * (b % W32), (b / W32) * (a % W32), (a / W32) * (b / W32));
  }

  /** The carry chain of DubbleMul over the four partial products. */
  method SumLimbs(p00: U64, p10: U64, p01: U64, p11: U64) returns (d: Dubble)
    requires p00 <= MAX_LIMB && p10 <= MAX_LIMB && p01 <= MAX_LIMB && p11 <= MAX_LIMB
    ensures d.Val() == p00 + W32 * (p10 + p01) + W64 * p11
  {
    var x, y := AddLimb(p00, p10);
    var x', y' := AddLimb(x, p01);
    y := Wrap(y + y');
    y := Wrap(y + p11);
    d := Dubble(x', y);
  }

  /** One carry step of DubbleMul: adds p << 32 to x. */
  method AddLimb(x0: U64, p: U64) returns (x: U64, y: U64)
    requires p <= MAX_LIMB
    ensures x + W64 * y == x0 + W32 * p && y < W32
  {
    var t: U64 := x0 / W32;
    x := x0 % W32;
    t := Wrap(t + p);
    x := Wrap(x + (t % W32) * W32);
    y := t / W32;
  }

  const MAX_LIMB: int := (W32 - 1) * (W32 - 1)

  /** The four 32-bit partial products: their bounds, and how they sum to a * b. */
  lemma Limbs(a: U64, b: U64)
    ensures 0 <= (a % W32) * (b % W32) <= MAX_LIMB && 0 <= (a / W32) * (b % W32) <= MAX_LIMB
    ensures 0 <= (b / W32) * (a % W32) <= MAX_LIMB && 0 <= (a / W32) * (b / W32) <= MAX_LIMB
    ensures a * b == (a % W32) * (b % W32) + W32 * ((a / W32) * (b % W32) + (b / W32) * (a % W32))
                     + W64 * ((a / W32) * (b / W32))
  {
    var a0, a1, b0, b1 := a % W32, a / W32, b % W32, b / W32;
    ProductBound(a0, b0, W32 - 1);
    ProductBound(a1, b0, W32 - 1);
    ProductBound(b1, a0, W32 - 1);
    ProductBound(a1, b1, W32 - 1);
    Expand(a0, a1, b0, b1);
  }

  lemma ProductBound(x: int, y: int, m: int)
    requires 0 <= x <= m && 0 <= y <= m
    ensures 0 <= x * y <= m * m
  {
    MulMonotone(x, 0, y);
    MulMonotone(x, y, m);
    MulMonotone(m, x, m);
  }

  lemma Expand(a0: int, a1: int, b0: int, b1: int)
    ensures (a0 + W32 * a1) * (b0 + W32 * b1)
         == a0 * b0 + W32 * (a1 * b0 + b1 * a0) + W64 * (a1 * b1)
  {
    calc {
      (a0 + W32 * a1) * (b0 + W32 * b1);
      a0 * (b0 + W32 * b1) + (W32 * a1) * (b0 + W32 * b1);
      a0 * b0 + a0 * (W32 * b1) + W32 * (a1 * (b0 + W32 * b1));
      a0 * b0 + W32 * (b1 * a0) + W32 * (a1 * b0 + W32 * (a1 * b1));
    }
  }

  function Magnitude(x: U64): U64 {
    if x >= W63 then Wrap(-(x as int)) else x
  }

  method Imul(a: U64, b: U64) returns (d: Dubble)
    ensures d.Signed() == Signed64(a) * Signed64(b)
  {
    var s, t := a >= W63, b >= W63;
    d := Mul(Magnitude(a), Magnitude(b));
    SignedProduct(a, b);
    SignedOfSmall(d);
    if s != t { d := Neg(d); }
  }

  lemma SignedProduct(a: U64, b: U64)
    ensures 0 <= Magnitude(a) * Magnitude(b) <= W63 * W63
    ensures Signed64(a) * Signed64(b)
         == if (a >= W63) != (b >= W63) then 0 - Magnitude(a) * Magnitude(b) else Magnitude(a) * Magnitude(b)
  {
    ProductBound(Magnitude(a), Magnitude(b), W63);
    SignedMagnitude(a);
    SignedMagnitude(b);
    NegateProduct(Magnitude(a), Magnitude(b));
  }

  lemma SignedMagnitude(x: U64)
    ensures Signed64(x) == (if x >= W63 then 0 - Magnitude(x) else Magnitude(x)) && Magnitude(x) <= W63
  {
  }

  lemma NegateProduct(x: int, y: int)
    ensures (0 - x) * y == 0 - x * y == x * (0 - y) && (0 - x) * (0 - y) == x * y
  {
  }

  lemma SignedOfSmall(p: Dubble)
    requires p.Val() < W127
    ensures p.Signed() == p.Val() && Neg(p).Signed() == -p.Val()
  {
    NegVal(p);
  }

  // ----- division -----

  /** First loop of DubbleDiv: doubles the divisor until it exceeds a. When a
      bit is shifted out of the top, the quotient needs more than 64 bits. */
  method ScaleDivisor(a: Dubble, b: U64) returns (d: Dubble, n: nat, ghost exact: bool)
    requires b > 0
    ensures n <= 128
    ensures exact ==> d.Val() == Shl(b, n) > a.Val()
    ensures !exact ==> n >= 65 && a.Val() >= b * W64 && a.Val() >= W127
    ensures n > 0 ==> d.Val() / 2 <= a.Val()
  {
    d, n, exact := Dubble(b, 0), 0, true;
    while Lte(d, a) && n < 128
      invariant n <= 128
      invariant exact ==> d.Val() == Shl(b, n)
      invariant !exact ==> n >= 65 && a.Val() >= b * W64 && a.Val() >= W127
      invariant n > 0 ==> d.Val() / 2 <= a.Val()
    {
      LteVal(d, a);
      Shl1Val(d);
      if exact && d.Val() >= W127 {
        ShiftedOut(b, n);
        exact := false;
      }
      d := Shl1(d);
      n := n + 1;
    }
    LteVal(d, a);
    if exact && n == 128 { ShiftedOut(b, n); }
  }

  lemma ShiftedOut(b: U64, n: nat)
    requires b > 0
    ensures Shl(b, n) >= W127 ==> n >= 64 && Shl(b, n) >= b * W64
    ensures n == 128 ==> Shl(b, n) >= W128
  {
    ShlIsMul(b, n);
    Pow2Word();
    Pow2Double();
    if n >= 64 {
      Pow2Monotone(64, n);
      MulMonotone(b, W64, Pow2(n));
      MulMonotone(Pow2(n), 1, b);
    } else {
      Pow2Monotone(n, 63);
      MulMonotone(b, Pow2(n), W63);
    }
  }

  lemma MulMonotone(b: int, x: int, y: int)
    requires 0 <= b && x <= y
    ensures b * x <= b * y
  {
  }

  /** Shift-and-subtract division. The shifted divisor may lose bits out of the
      top; the quotient is then wrong, but its high half is nonzero, as is that
      of the true quotient. */
  method Div(a0: Dubble, b: U64) returns (q: Dubble, r: U64)
    requires b > 0
    ensures q.hi == 0 <==> a0.Val() / b < W64
    ensures q.hi == 0 || a0.Val() < W127 ==> q.Val() == a0.Val() / b && r == a0.Val() % b
  {
    var d, n, exact := ScaleDivisor(a0, b);
    var a;
    q, a := LongDivide(a0, d, n, b, exact);
    r := a.lo;
    if exact {
      FinishDivision(a0.Val(), b, q.Val(), a.Val());
    } else {
      QuotientAtLeast(a0.Val(), b);
    }
  }

  /** Second loop of DubbleDiv. */
  method LongDivide(a0: Dubble, d0: Dubble, n0: nat, ghost b: U64, ghost exact: bool) returns (q: Dubble, a: Dubble)
    requires n0 <= 128 && (n0 > 0 ==> d0.Val() / 2 <= a0.Val())
    requires exact ==> d0.Val() == Shl(b, n0) > a0.Val()
    requires !exact ==> n0 >= 65
    ensures exact ==> LongDivision(a0.Val(), b, q.Val(), a.Val())
    ensures !exact ==> q.Val() >= W64
  {
    q, a := Dubble(0, 0), a0;
    var d, n := d0, n0;
    while n > 0
      invariant 0 <= n <= n0
      invariant exact ==> d.Val() == Shl(b, n) && LongDivision(a0.Val(), d.Val(), q.Val(), a.Val())
      invariant n == n0 ==> q.Val() == 0 && (n > 0 ==> d.Val() / 2 <= a.Val())
      invariant !exact && n < n0 ==> Pow2(n0 - n - 1) <= q.Val() < Pow2(n0 - n)
    {
      if exact {
        HalveDivisor(a0.Val(), Shl(b, n - 1), q.Val(), a.Val());
      } else {
        QuotientRange(n0 - n);
      }
      a, d, q := TrialSubtract(a, d, q);
      n := n - 1;
    }
    if !exact { QuotientRange(n0 - 1); }
  }

  /** Body of the second loop of DubbleDiv. */
  method TrialSubtract(a: Dubble, d: Dubble, q: Dubble) returns (a': Dubble, d': Dubble, q': Dubble)
    requires q.Val() < W127
    ensures d'.Val() == d.Val() / 2
    ensures a.Val() < d.Val() / 2 ==> a' == a && q'.Val() == 2 * q.Val()
    ensures a.Val() >= d.Val() / 2 ==> a'.Val() == a.Val() - d.Val() / 2 && q'.Val() == 2 * q.Val() + 1
  {
    hide Shl1, Shr1, Subtract;
    Shr1Val(d);
    d' := Shr1(d);
    Shl1Val(q);
    q' := Shl1(q);
    SubtractVal(a, d');
    var (difference, borrow) := Subtract(a, d');
    if borrow {
      a' := a;
    } else {
      a' := difference;
      q' := Dubble(q'.lo + 1, q'.hi);
    }
  }

  /** What the subtracting loop keeps while no bit of the divisor is lost. */
  ghost predicate LongDivision(A: int, d: int, q: int, a: int) {
    A == q * d + a && 0 <= a < d
  }

  /** Halving the divisor doubles the quotient, plus one if the rest allows it. */
  lemma HalveDivisor(A: int, h: int, q: int, a: int)
    requires q >= 0 && LongDivision(A, 2 * h, q, a)
    ensures a < h ==> LongDivision(A, h, 2 * q, a)
    ensures a >= h ==> LongDivision(A, h, 2 * q + 1, a - h)
    ensures 2 * q <= A
  {
    Regroup(q, h);
    Distribute(2 * q, -1, h);
    MulMonotone(2 * q, 1, h);
  }

  lemma FinishDivision(A: int, b: int, q: int, a: int)
    requires LongDivision(A, b, q, a)
    ensures q == A / b && a == A % b
  {
    ModUnique(A, b, q, a);
  }

  lemma QuotientRange(k: nat)
    ensures k <= 127 ==> Pow2(k) <= W127
    ensures k >= 64 ==> W64 <= Pow2(k)
  {
    Pow2Double();
    Pow2Word();
    if k <= 127 { Pow2Monotone(k, 127); }
    if k >= 64 { Pow2Monotone(64, k); }
  }

  lemma QuotientAtLeast(A: int, b: int)
    requires 0 < b && A >= b * W64
    ensures A / b >= W64
  {
    if A / b < W64 {
      MulMonotone(b, A / b, W64 - 1);
    }
  }

  // ----- signed division -----

  function Abs(x: int): int {
    if x < 0 then -x else x
  }

  /** Division that truncates toward zero. */
  function TruncDiv(a: int, b: int): int
    requires b != 0
  {
    var q := Abs(a) / Abs(b);
    if (a < 0) != (b < 0) then -q else q
  }

  function TruncRem(a: int, b: int): int
    requires b != 0
  {
    var r := Abs(a) % Abs(b);
    if a < 0 then -r else r
  }

  method Idiv(a: Dubble, b: U64) returns (q: Dubble, r: U64)
    requires b > 0 && a.Val() != W127
    ensures q.Signed() == TruncDiv(a.Signed(), Signed64(b))
    ensures Signed64(r) == TruncRem(a.Signed(), Signed64(b))
  {
    var s, t := a.hi >= W63, b >= W63;
    var x := if s then Neg(a) else a;
    var y := Magnitude(b);
    assert Abs(a.Signed()) == x.Val() < W127 by { NegVal(a); }
    assert Abs(Signed64(b)) == y by { SignedMagnitude(b); }
    q, r := Div(x, y);
    QuotientBelow(x.Val(), y);
    SignedOfSmall(q);
    if s != t { q := Neg(q); }
    SignOfRemainder(r, y);
    if s { r := Wrap(-(r as int)); }
  }

  lemma SignOfRemainder(r: U64, y: int)
    requires r < y <= W63
    ensures Signed64(r) == r && Signed64(Wrap(-(r as int))) == 0 - r
  {
  }

  lemma QuotientBelow(A: int, b: int)
    requires 0 <= A < W127 && 0 < b
    ensures 0 <= A / b < W127
  {
    DivMod(A, b);
    ProductSign(A / b, b);
  }

  lemma ProductSign(q: int, b: int)
    requires b > 0
    ensures q >= 0 ==> q * b >= q
    ensures q < 0 ==> q * b <= -b
  {
    if q >= 0 { MulMonotone(q, 1, b); } else { MulMonotone(b, q, -1); }
  }

  /** TruncDiv and TruncRem are the only pair with a == q * b + r, |r| < |b|
      and r of the sign of a. */
  lemma TruncUnique(a: int, b: int, q: int, r: int)
    requires b != 0
    ensures (q == TruncDiv(a, b) && r == TruncRem(a, b))
       <==> (a == q * b + r && Abs(r) < Abs(b) && (r == 0 || (r < 0 <==> a < 0)))
  {
    var A, B := Abs(a), Abs(b);
    DivMod(A, B);
    var q0 := if (a < 0) != (b < 0) then -q else q;
    var r0 := if a < 0 then -r else r;
    NegateProduct(q0, B);
    assert (a == q * b + r) <==> A == q0 * B + r0;
    if 0 <= r0 < B && A == q0 * B + r0 {
      ModUnique(A, B, q0, r0);
    }
  }

  // ----- instruction handlers -----

  datatype Outcome = Raise | Result(quotient: int, remainder: int)

  /** DIV, as the architecture defines it, on a 128-bit dividend. */
  function DivOutcome(a: int, b: int): Outcome
    requires a >= 0 && b >= 0
  {
    if b == 0 || a / b >= W64 then Raise else Result(a / b, a % b)
  }

  /** IDIV, as the architecture defines it, on a 128-bit dividend. */
  function IdivOutcome(a: int, b: int): Outcome {
    if b == 0 || !(-W63 <= TruncDiv(a, b) < W63) then Raise else Result(TruncDiv(a, b), TruncRem(a, b))
  }

  /** DIV r/m64. RaiseDivideError does not return, so a raise leaves the registers alone. */
  method OpDivUnsigned64(m: Machine, d: U64) returns (raised: bool)
    modifies m`ax, m`dx
    ensures raised <==> d == 0 || old(m.dx) >= d
    ensures !raised ==> old(m.ax) + W64 * old(m.dx) == m.ax * d + m.dx && m.dx < d
    ensures DivOutcome(old(m.ax) + W64 * old(m.dx), d)
         == if raised then Raise else Result(m.ax, m.dx)
    ensures raised ==> m.ax == old(m.ax) && m.dx == old(m.dx)
  {
    var x := Dubble(m.ax, m.dx);
    if d == 0 { return true; }
    RaisesOnHighHalf(x, d);
    var q, r := Div(x, d);
    if q.hi != 0 { return true; }
    DivMod(x.Val(), d);
    m.ax := q.lo;
    m.dx := r;
    raised := false;
  }

  /** A quotient fits RAX exactly when the high half is below the divisor. */
  lemma QuotientFits(x: Dubble, d: U64, q: int, r: int)
    requires x.Val() == q * d + r && 0 <= r < d
    ensures q < W64 <==> x.hi < d
  {
    RaisesOnHighHalf(x, d);
    FinishDivision(x.Val(), d, q, r);
  }

  lemma RaisesOnHighHalf(x: Dubble, d: U64)
    requires d > 0
    ensures x.Val() / d >= W64 <==> x.hi >= d
  {
    if x.hi >= d {
      QuotientAtLeast(x.Val(), d);
    } else if x.Val() / d >= W64 {
      DivMod(x.Val(), d);
      MulMonotone(d, W64, x.Val() / d);
    }
  }

  /** What the outcome means: truncating division, or no quotient that fits. */
  lemma OutcomeMeans(a: int, b: int, q: int, r: int)
    requires b != 0 && Abs(r) < Abs(b) && (r == 0 || (r < 0 <==> a < 0)) && -W63 <= q < W63
    ensures a == q * b + r <==> IdivOutcome(a, b) == Result(q, r)
  {
    TruncUnique(a, b, q, r);
  }

  lemma RaiseMeans(a: int, d: U64)
    requires d > 0 && IdivOutcome(a, Signed64(d)) == Raise
    ensures forall q: U64, r: U64 |
      Abs(Signed64(r)) < Abs(Signed64(d)) && (r == 0 || (Signed64(r) < 0 <==> a < 0)) ::
      Signed64(q) * Signed64(d) + Signed64(r) != a
  {
    forall q: U64, r: U64 | Abs(Signed64(r)) < Abs(Signed64(d)) && (r == 0 || (Signed64(r) < 0 <==> a < 0))
      ensures Signed64(q) * Signed64(d) + Signed64(r) != a
    {
      OutcomeMeans(a, Signed64(d), Signed64(q), Signed64(r));
    }
  }

  /** The value of a two's complement word is in range and agrees modulo its size. */
  lemma SignedIs(x: U64, y: Dubble)
    ensures -W63 <= Signed64(x) < W63 && Wrap(Signed64(x)) == x
    ensures -W127 <= y.Signed() < W127 && y.Signed() % W128 == y.lo + W64 * y.hi
  {
  }

  /** IDIV r/m64: it leaves the one quotient and remainder of truncating division,
      and raises when no words for RAX and RDX would be that. */
  method OpDivSigned64(m: Machine, d: U64) returns (raised: bool)
    modifies m`ax, m`dx
    ensures var a, b := Dubble(old(m.ax), old(m.dx)).Signed(), Signed64(d);
      var q, r := Signed64(m.ax), Signed64(m.dx);
      !raised ==> a == q * b + r && Abs(r) < Abs(b) && (r == 0 || (r < 0 <==> a < 0))
    ensures var a, b := Dubble(old(m.ax), old(m.dx)).Signed(), Signed64(d);
      raised ==> d == 0 || forall q: U64, r: U64 |
        Abs(Signed64(r)) < Abs(b) && (r == 0 || (Signed64(r) < 0 <==> a < 0)) :: Signed64(q) * b + Signed64(r) != a
    ensures IdivOutcome(Dubble(old(m.ax), old(m.dx)).Signed(), Signed64(d))
         == if raised then Raise else Result(Signed64(m.ax), Signed64(m.dx))
    ensures raised ==> m.ax == old(m.ax) && m.dx == old(m.dx)
  {
    var x := Dubble(m.ax, m.dx);
    if d == 0 { return true; }
    ghost var a, b := x.Signed(), Signed64(d);
    if x.lo == 0 && x.hi == W63 {
      LeastDividendRaises(d);
      RaiseMeans(a, d);
      return true;
    }
    var q, r := Idiv(x, d);
    if Signed64(q.lo) < 0 && Signed64(q.hi) != -1 { RaiseMeans(a, d); return true; }
    if Signed64(q.lo) >= 0 && q.hi != 0 { RaiseMeans(a, d); return true; }
    OutcomeMeans(a, b, Signed64(q.lo), Signed64(r));
    m.ax := q.lo;
    m.dx := r;
    raised := false;
  }

  lemma LeastDividendRaises(d: U64)
    requires d > 0
    ensures IdivOutcome(-W127, Signed64(d)) == Raise
  {
    SignedMagnitude(d);
    QuotientAtLeast(W127, Magnitude(d));
  }

  /** MUL r/m64. */
  method OpMulUnsigned64(m: Machine, x: U64)
    modifies m`ax, m`dx, m`flags
    ensures m.ax + W64 * m.dx == old(m.ax) * x
    ensures Has(m.flags, FLAG_CF) == Has(m.flags, FLAG_OF) == (old(m.ax) * x >= W64)
    ensures OthersKept(m.flags, old(m.flags))
  {
    hide SetFlag, Has, OthersKept;
    var p := Mul(m.ax, x);
    var overflow := p.hi != 0;
    m.ax := p.lo;
    m.dx := p.hi;
    FlagsSet(m.flags, overflow);
    m.flags := SetFlag(m.flags, FLAG_CF, overflow);
    m.flags := SetFlag(m.flags, FLAG_OF, overflow);
  }

  /** IMUL r/m64. */
  method OpMulSigned64(m: Machine, x: U64)
    modifies m`ax, m`dx, m`flags
    ensures Dubble(m.ax, m.dx).Signed() == Signed64(old(m.ax)) * Signed64(x)
    ensures Has(m.flags, FLAG_CF) == Has(m.flags, FLAG_OF)
         == !(-W63 <= Signed64(old(m.ax)) * Signed64(x) < W63)
    ensures OthersKept(m.flags, old(m.flags))
  {
    hide SetFlag, Has, OthersKept;
    var p := Imul(m.ax, x);
    var overflow := Wrap(p.hi + p.lo / W63) != 0;
    SignExtended(p);
    m.ax := p.lo;
    m.dx := p.hi;
    FlagsSet(m.flags, overflow);
    m.flags := SetFlag(m.flags, FLAG_CF, overflow);
    m.flags := SetFlag(m.flags, FLAG_OF, overflow);
  }

  lemma SignExtended(p: Dubble)
    ensures Wrap(p.hi + p.lo / W63) == 0 <==> -W63 <= p.Signed() < W63
  {
    WrapDouble(p.lo);
  }

  lemma FlagsSet(flags: bv32, v: bool)
    ensures var f := SetFlag(SetFlag(flags, FLAG_CF, v), FLAG_OF, v);
      && Has(f, FLAG_CF) == v && Has(f, FLAG_OF) == v
      && OthersKept(f, flags)
  {
  }

  // ----- division undoes multiplication -----

  lemma DivUndoesMul(a: U64, b: U64)
    requires b > 0
    ensures a * b >= 0 && DivOutcome(a * b, b) == Result(a, 0)
  {
    ProductBound(a, b, W64);
    ModUnique(a * b, b, a, 0);
  }

  lemma IdivUndoesImul(a: U64, b: U64)
    requires b > 0
    ensures IdivOutcome(Signed64(a) * Signed64(b), Signed64(b)) == Result(Signed64(a), 0)
  {
    TruncUnique(Signed64(a) * Signed64(b), Signed64(b), Signed64(a), 0);
  }

  lemma Commutes(a: int, b: int)
    ensures a * b == b * a
  {
  }

  lemma SignedZero()
    ensures Signed64(0) == 0
  {
  }

  lemma SignedInjective(a: U64, b: U64)
    requires Signed64(a) == Signed64(b)
    ensures a == b
  {
  }

  /** MUL and then DIV by the same operand: no divide error, and RAX is back. */
  method MulThenDiv(m: Machine, x: U64) returns (raised: bool)
    requires x > 0
    modifies m`ax, m`dx, m`flags
    ensures !raised && m.ax == old(m.ax) && m.dx == 0
  {
    DivUndoesMul(m.ax, x);
    OpMulUnsigned64(m, x);
    raised := OpDivUnsigned64(m, x);
  }

  /** The same for the other factor. */
  method MulThenDivOther(m: Machine, x: U64) returns (raised: bool)
    requires m.ax > 0
    modifies m`ax, m`dx, m`flags
    ensures !raised && m.ax == x && m.dx == 0
  {
    var y := m.ax;
    DivUndoesMul(x, y);
    OpMulUnsigned64(m, x);
    raised := OpDivUnsigned64(m, y);
  }

  /** IMUL and then IDIV by the same operand. */
  method ImulThenIdiv(m: Machine, x: U64) returns (raised: bool)
    requires x > 0
    modifies m`ax, m`dx, m`flags
    ensures !raised && m.ax == old(m.ax) && m.dx == 0
  {
    hide IdivOutcome, Signed64, Dubble.Signed, Has;
    var a := m.ax;
    IdivUndoesImul(a, x);
    OpMulSigned64(m, x);
    raised := OpDivSigned64(m, x);
    SignedZero();
    SignedInjective(m.ax, a);
    SignedInjective(m.dx, 0);
  }

  /** The same for the other factor. */
  method ImulThenIdivOther(m: Machine, x: U64) returns (raised: bool)
    requires m.ax > 0
    modifies m`ax, m`dx, m`flags
    ensures !raised && m.ax == x && m.dx == 0
  {
    hide IdivOutcome, Signed64, Dubble.Signed, Has;
    var y := m.ax;
    IdivUndoesImul(x, y);
    Commutes(Signed64(x), Signed64(y));
    OpMulSigned64(m, x);
    raised := OpDivSigned64(m, y);
    SignedZero();
    SignedInjective(m.ax, x);
    SignedInjective(m.dx, 0);
  }
}
