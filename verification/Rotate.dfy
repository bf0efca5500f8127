/** Rotation through the carry flag (native/blink/blink/alu.c). An operand of k
    bits and CF together are one word of k + 1 bits, CF on top. */
module Rotate {
  import opened Bits
  import opened Words
  import opened X86
  import opened Alu

  // ----- rotation of an n-bit word, one place at a time -----

  function Left(w: nat, n: nat): (r: nat)
    requires n > 0 && w < Pow2(n)
    ensures r < Pow2(n)
  {
    if w >= Pow2(n - 1) then 2 * (w - Pow2(n - 1)) + 1 else 2 * w
  }

  function Right(w: nat, n: nat): (r: nat)
    requires n > 0 && w < Pow2(n)
    ensures r < Pow2(n)
  {
    w / 2 + if w % 2 == 1 then Pow2(n - 1) else 0
  }

  function RotL(w: nat, y: nat, n: nat): (r: nat)
    requires n > 0 && w < Pow2(n)
    ensures r < Pow2(n)
  {
    if y == 0 then w else Left(RotL(w, y - 1, n), n)
  }

  function RotR(w: nat, y: nat, n: nat): (r: nat)
    requires n > 0 && w < Pow2(n)
    ensures r < Pow2(n)
    decreases y
  {
    if y == 0 then w else RotR(Right(w, n), y - 1, n)
  }

  lemma OneStep(w: nat, n: nat)
    requires n > 0 && w < Pow2(n)
    ensures Right(Left(w, n), n) == w && Left(Right(w, n), n) == w
  {
    hide Pow2;
    Pow2Up(n - 1);
    Halving(w, Pow2(n - 1));
  }

  lemma Halving(w: nat, p: nat)
    ensures (2 * w) / 2 == w && (2 * w) % 2 == 0 && (2 * w + 1) / 2 == w && (2 * w + 1) % 2 == 1
    ensures w < 2 * p ==> w / 2 < p && w == 2 * (w / 2) + w % 2
  {
  }

  lemma {:induction false} RightUndoesLeft(w: nat, y: nat, n: nat)
    requires n > 0 && w < Pow2(n)
    ensures RotR(RotL(w, y, n), y, n) == w
  {
    if y > 0 {
      RightUndoesLeft(w, y - 1, n);
      OneStep(RotL(w, y - 1, n), n);
      hide Left, Right, Pow2;
    }
  }

  lemma {:induction false} LeftUndoesRight(w: nat, y: nat, n: nat)
    requires n > 0 && w < Pow2(n)
    ensures RotL(RotR(w, y, n), y, n) == w
    decreases y
  {
    if y > 0 {
      LeftUndoesRight(Right(w, n), y - 1, n);
      OneStep(w, n);
      hide Left, Right, Pow2;
    }
  }

  /** A number written as high and low part fits in the width of both. */
  lemma Below(hi: nat, lo: nat, p: nat, q: nat)
    requires hi < q && lo < p
    ensures hi * p + lo < q * p
  {
    Distribute(q, hi, p);
    AtLeastOnce(q - hi, p);
  }

  lemma BelowPow2(hi: nat, lo: nat, s: nat, t: nat)
    requires hi < Pow2(t) && lo < Pow2(s)
    ensures Shl(hi, s) + lo < Pow2(s + t)
  {
    hide Pow2, Shl;
    ShlIsMul(hi, s);
    Pow2Add(t, s);
    Below(hi, lo, Pow2(s), Pow2(t));
  }

  /** Rotating left by y places swaps the top y bits with the rest. */
  lemma {:induction false} RotLSwaps(hi: nat, lo: nat, y: nat, n: nat)
    requires y <= n && n > 0 && hi < Pow2(y) && lo < Pow2(n - y)
    ensures Shl(hi, n - y) + lo < Pow2(n)
    ensures RotL(Shl(hi, n - y) + lo, y, n) == Shl(lo, y) + hi
    decreases y
  {
    hide Pow2, Shl, Left, RotL;
    BelowPow2(hi, lo, n - y, y);
    Unroll(Shl(hi, n - y) + lo, y, n);
    Pow2Up(0);
    if y == 0 {
      ShlZero(lo);
      ShlIsMul(0, n);
    } else {
      var h, b := hi / 2, hi % 2;
      Pow2Up(y - 1);
      Pow2Up(n - y);
      ShlParts(h, b, n - y);
      BelowPow2(b, lo, n - y, 1);
      RotLSwaps(h, Shl(b, n - y) + lo, y - 1, n);
      LeftSwaps(b, lo, h, y, n);
    }
  }

  lemma ShlZero(x: nat)
    ensures Shl(x, 0) == x
  {
  }

  lemma Unroll(w: nat, y: nat, n: nat)
    requires n > 0 && w < Pow2(n)
    ensures RotL(w, y, n) == if y == 0 then w else Left(RotL(w, y - 1, n), n)
  {
  }

  lemma Parts(h: nat, b: nat, p: nat)
    requires b <= 1
    ensures (2 * h + b) * p == h * (2 * p) + b * p && (b == 0 ==> b * p == 0) && (b == 1 ==> b * p == p)
  {
  }

  lemma ShlParts(h: nat, b: nat, k: nat)
    requires b <= 1
    ensures Shl(2 * h + b, k) == Shl(h, k + 1) + Shl(b, k)
  {
    ShlIsMul(2 * h + b, k);
    ShlIsMul(h, k + 1);
    ShlIsMul(b, k);
    Pow2Up(k);
    hide Shl, Pow2;
    Parts(h, b, Pow2(k));
  }

  /** The last of y turns. */
  lemma LeftSwaps(b: nat, lo: nat, h: nat, y: nat, n: nat)
    requires b <= 1 && 0 < y <= n && lo < Pow2(n - y) && h < Pow2(y - 1)
    ensures Shl(Shl(b, n - y) + lo, y - 1) + h < Pow2(n)
    ensures Left(Shl(Shl(b, n - y) + lo, y - 1) + h, n) == Shl(lo, y) + 2 * h + b
  {
    hide Shl, Pow2;
    var p, q := Pow2(n - y), Pow2(y - 1);
    Pow2Add(n - y, y - 1);
    Pow2Up(n - 1);
    Pow2Up(y - 1);
    ShlIsMul(b, n - y);
    ShlIsMul(Shl(b, n - y) + lo, y - 1);
    ShlIsMul(lo, y);
    assert (b * p + lo) * q == b * (p * q) + lo * q;
    Parts(0, b, p * q);
    Below(lo, h, q, p);
    Regroup(lo, q);
  }

  /** Rotating right by y places swaps the bottom y bits with the rest. */
  lemma RotRSwaps(hi: nat, lo: nat, y: nat, n: nat)
    requires y <= n && n > 0 && hi < Pow2(n - y) && lo < Pow2(y)
    ensures Shl(hi, y) + lo < Pow2(n)
    ensures RotR(Shl(hi, y) + lo, y, n) == Shl(lo, n - y) + hi
  {
    hide Pow2, RotL, RotR, Shl;
    RotLSwaps(lo, hi, y, n);
    RightUndoesLeft(Shl(lo, n - y) + hi, y, n);
  }

  lemma {:induction false} RotLAdds(w: nat, y: nat, y': nat, n: nat)
    requires n > 0 && w < Pow2(n)
    ensures RotL(RotL(w, y, n), y', n) == RotL(w, y + y', n)
  {
    if y' > 0 { RotLAdds(w, y, y' - 1, n); }
  }

  lemma FullTurn(w: nat, n: nat)
    requires n > 0 && w < Pow2(n)
    ensures RotL(w, n, n) == w
  {
    assert Shl(w, 0) == w;
    ShlIsMul(0, n);
    RotLSwaps(w, 0, n, n);
  }

  lemma {:induction false} WholeTurns(w: nat, y: nat, turns: nat, n: nat)
    requires n > 0 && w < Pow2(n) && turns * n >= 0
    ensures RotL(w, y + turns * n, n) == RotL(w, y, n)
  {
    if turns > 0 {
      hide RotL, Pow2;
      Distribute(turns, 1, n);
      WholeTurns(w, y, turns - 1, n);
      RotLAdds(w, y + (turns - 1) * n, n, n);
      FullTurn(RotL(w, y + (turns - 1) * n, n), n);
    }
  }

  /** Counts matter modulo the width of the word. */
  lemma RotLModulo(w: nat, y: nat, n: nat)
    requires n > 0 && w < Pow2(n)
    ensures RotL(w, y, n) == RotL(w, y % n, n)
  {
    hide RotL, Pow2;
    DivMod(y, n);
    WholeTurns(w, y % n, y / n, n);
  }

  lemma {:induction false} RotRAdds(w: nat, y: nat, y': nat, n: nat)
    requires n > 0 && w < Pow2(n)
    ensures RotR(RotR(w, y, n), y', n) == RotR(w, y + y', n)
    decreases y
  {
    hide Pow2, Right;
    if y > 0 { RotRAdds(Right(w, n), y - 1, y', n); }
  }

  lemma RotRModulo(w: nat, y: nat, n: nat)
    requires n > 0 && w < Pow2(n)
    ensures RotR(w, y, n) == RotR(w, y % n, n)
  {
    hide RotL, RotR, Pow2;
    var v := RotR(w, y, n);
    LeftUndoesRight(w, y, n);
    RotLModulo(v, y, n);
    RightUndoesLeft(v, y % n, n);
  }

  /** Right rotations by different counts below the width differ on some word. */
  lemma RotRDiffers(d: nat, e: nat, n: nat) returns (w: nat)
    requires d < n && e < n && d != e
    ensures w < Pow2(n) && RotR(w, d, n) != RotR(w, e, n)
  {
    hide RotL, RotR, Pow2;
    OneMoves(d, n);
    OneMoves(e, n);
    Pow2Differ(d, e);
    w := RotL(1, d, n);
    RightUndoesLeft(1, d, n);
    LeftUndoesRight(w, e, n);
  }

  lemma OneMoves(y: nat, n: nat)
    requires y < n
    ensures 1 < Pow2(n) && RotL(1, y, n) == Pow2(y)
  {
    ShlIsMul(0, n - y);
    ShlIsMul(1, y);
    RotLSwaps(0, 1, y, n);
  }

  // ----- shifts and masks assemble the rotated word -----

  /** The top s bits of the (k + 1)-bit word c:x, and the k + 1 - s bits below. */
  function Top(x: nat, c: nat, s: nat, k: nat): nat
    requires 0 < s <= k
  {
    Shl(c, s - 1) + Shr(x, k + 1 - s)
  }

  function Rest(x: nat, s: nat, k: nat): (r: nat)
    requires 0 < s <= k
    ensures r < Pow2(k + 1 - s)
  {
    Cut(x, k + 1 - s)
  }

  lemma Halves(x: nat, c: nat, s: nat, k: nat)
    requires 0 < s <= k && x < Pow2(k) && c <= 1
    ensures Top(x, c, s, k) < Pow2(s)
    ensures Shl(c, k) + x == Shl(Top(x, c, s, k), k + 1 - s) + Rest(x, s, k)
    ensures Or(Shl(c, s - 1), Shr(x, k + 1 - s)) == Top(x, c, s, k) == Or(Shr(x, k + 1 - s), Shl(c, s - 1))
  {
    hide Or, Shl, Shr, Pow2;
    var p, q := Pow2(k + 1 - s), Pow2(s - 1);
    Pow2Up(s - 1);
    Pow2Add(s - 1, k + 1 - s);
    ShrIsDiv(x, k + 1 - s);
    DivMod(x, p);
    QuotientBelow(x, q, p);
    ShlIsMul(c, s - 1);
    ShlIsMul(c, k);
    ShlIsMul(Top(x, c, s, k), k + 1 - s);
    OrDisjoint(c, x / p, s - 1);
    Spread(c, q, x / p, p);
    Parts(0, c, q);
  }

  lemma QuotientBelow(x: nat, q: nat, p: nat)
    requires p > 0 && x < q * p
    ensures 0 <= x / p < q
  {
    DivMod(x, p);
    if x / p >= q {
      Distribute(x / p, q, p);
      if x / p > q { AtLeastOnce(x / p - q, p); }
    }
  }

  lemma Spread(c: nat, q: nat, d: nat, p: nat)
    ensures (c * q + d) * p == c * (q * p) + d * p
  {
  }

  /** x cut at bit n, both parts moved up s places. */
  lemma CutShifted(x: nat, n: nat, s: nat)
    ensures x * Pow2(s) == Shr(x, n) * (Pow2(n) * Pow2(s)) + Cut(x, n) * Pow2(s)
    ensures Cut(x, n) * Pow2(s) < Pow2(n) * Pow2(s)
  {
    hide Pow2, Shr;
    DivMod(x, Pow2(n));
    ShrIsDiv(x, n);
    Spread(Shr(x, n), Pow2(n), Cut(x, n), Pow2(s));
    Below(Cut(x, n), 0, Pow2(s), Pow2(n));
  }

  lemma ShlTruncated(x: nat, n: nat, s: nat)
    ensures Cut(Shl(x, s), n + s) == Shl(Cut(x, n), s)
  {
    hide Pow2, Shl;
    Pow2Add(n, s);
    ShlIsMul(x, s);
    ShlIsMul(Cut(x, n), s);
    CutShifted(x, n, s);
    ModUnique(x * Pow2(s), Pow2(n + s), Shr(x, n), Cut(x, n) * Pow2(s));
  }

  /** The low k bits of the shifted operand with the top part put below it. */
  lemma Refill(x: nat, hi: nat, s: nat, k: nat)
    requires 0 < s <= k <= 64 && hi < Pow2(s)
    ensures Or(Cut(Shl(x, s), 64), hi) % Pow2(k) == (Shl(Rest(x, s, k), s) + hi) % Pow2(k)
    ensures Or(hi, Cut(Shl(x, s), 64)) == Or(Cut(Shl(x, s), 64), hi)
  {
    hide Pow2, Shl, Shr, Cut, Or;
    ShlTruncated(x, 64 - s, s);
    ShlIsMul(Cut(x, 64 - s), s);
    OrDisjoint(Cut(x, 64 - s), hi, s);
    CutShifted(x, 64 - s, s);
    CutShifted(x, k + 1 - s, s);
    Pow2Add(64 - s, s);
    Pow2Add(k + 1 - s, s);
    Pow2Add(64 - k, k);
    Pow2Add(1, k);
    ShlIsMul(Rest(x, s, k), s);
    SameRemainder(Cut(x, 64 - s) * Pow2(s) + hi, Rest(x, s, k) * Pow2(s) + hi,
      Shr(x, 64 - s), Pow2(64 - k), Shr(x, k + 1 - s), Pow2(1), Pow2(k));
  }

  lemma SameRemainder(u: nat, v: nat, a: nat, m: nat, b: nat, m': nat, p: nat)
    requires p > 0 && u + a * (m * p) == v + b * (m' * p)
    ensures u % p == v % p
  {
    assert a * (m * p) == (a * m) * p && b * (m' * p) == (b * m') * p;
    var t := b * m' - a * m;
    assert t * p == (b * m') * p - (a * m) * p by { Distribute(b * m', a * m, p); }
    DivMod(v, p);
    assert (v / p + t) * p == (v / p) * p + t * p by { Distribute(v / p, -t, p); }
    ModUnique(u, p, v / p + t, v % p);
  }

  /** The bit that comes out on top. */
  lemma CarryOut(x: nat, hi: nat, s: nat, k: nat)
    requires 0 < s <= k && hi < Pow2(s)
    ensures (Shl(Rest(x, s, k), s) + hi) / Pow2(k) == Shr(x, k - s) % 2
  {
    hide Pow2, Shl, Shr;
    var r := Pow2(k - s);
    Pow2Up(k - s);
    Pow2Add(k - s, s);
    ShrIsDiv(x, k - s);
    DivMod(x, r);
    DivMod(x / r, 2);
    var b, low := x / r % 2, Cut(x, k - s);
    Parts(x / r / 2, b, r);
    ModUnique(x, 2 * r, x / r / 2, b * r + low);
    Below(low, hi, Pow2(s), r);
    Spread(b, r, low, Pow2(s));
    ShlIsMul(Rest(x, s, k), s);
    ModUnique(Shl(Rest(x, s, k), s) + hi, Pow2(k), b, low * Pow2(s) + hi);
  }

  /** The rotated word is the bit that came out and the low k bits. */
  lemma Reassembled(x: nat, hi: nat, s: nat, k: nat)
    requires 0 < s <= k && hi < Pow2(s)
    ensures Shl(Rest(x, s, k), s) + hi
         == Shl(And(Shr(x, k - s), 1), k) + (Shl(Rest(x, s, k), s) + hi) % Pow2(k)
  {
    hide Rest, Pow2, Shl, And, Shr;
    CarryOut(x, hi, s, k);
    One(Shr(x, k - s));
    var w := Shl(Rest(x, s, k), s) + hi;
    DivMod(w, Pow2(k));
    ShlIsMul(w / Pow2(k), k);
  }

  lemma One(x: nat)
    ensures And(x, 1) == x % 2 <= 1
  {
    AndMask(x, 1);
    assert Pow2(1) == 2;
  }

  lemma LeftWord(x: nat, c: nat, y: nat, k: nat)
    requires 0 < y <= k <= 64 && x < Pow2(k) && c <= 1
    ensures Shl(c, k) + x < Pow2(k + 1)
    ensures Shl(And(Shr(x, k - y), 1), k)
          + And(Or(Or(Cut(Shl(x, y), 64), Shl(c, y - 1)), Shr(x, k + 1 - y)), Pow2(k) - 1)
         == RotL(Shl(c, k) + x, y, k + 1)
    ensures And(Or(Or(Cut(Shl(x, y), 64), Shl(c, y - 1)), Shr(x, k + 1 - y)), Pow2(k) - 1) < Pow2(k)
    ensures And(Shr(x, k - y), 1) <= 1
  {
    hide Pow2, Shl, Shr, Or, And, Rest, Top, Cut, RotL;
    One(Shr(x, k - y));
    var hi := Top(x, c, y, k);
    Halves(x, c, y, k);
    OrAssociates(Cut(Shl(x, y), 64), Shl(c, y - 1), Shr(x, k + 1 - y));
    Refill(x, hi, y, k);
    AndMask(Or(Cut(Shl(x, y), 64), hi), k);
    Reassembled(x, hi, y, k);
    RotLSwaps(hi, Rest(x, y, k), y, k + 1);
  }

  lemma RightWord(x: nat, c: nat, y: nat, k: nat)
    requires 0 < y <= k <= 64 && x < Pow2(k) && c <= 1
    ensures Shl(c, k) + x < Pow2(k + 1)
    ensures Shl(And(Shr(x, y - 1), 1), k)
          + And(Or(Or(Shr(x, y), Shl(c, k - y)), Cut(Shl(x, k + 1 - y), 64)), Pow2(k) - 1)
         == RotR(Shl(c, k) + x, y, k + 1)
    ensures And(Or(Or(Shr(x, y), Shl(c, k - y)), Cut(Shl(x, k + 1 - y), 64)), Pow2(k) - 1) < Pow2(k)
    ensures And(Shr(x, y - 1), 1) <= 1
  {
    hide Pow2, Shl, Shr, Or, And, Rest, Top, Cut, RotR;
    One(Shr(x, y - 1));
    var s := k + 1 - y;
    var hi := Top(x, c, s, k);
    Halves(x, c, s, k);
    Refill(x, hi, s, k);
    AndMask(Or(hi, Cut(Shl(x, s), 64)), k);
    Reassembled(x, hi, s, k);
    RotRSwaps(hi, Rest(x, s, k), y, k + 1);
  }

  /** The shorter expressions for a count of one give the same value. */
  lemma CountOfOne(x: nat, c: nat, k: nat)
    requires 0 < k <= 64 && x < Pow2(k) && c <= 1
    ensures Or(Cut(Shl(x, 1), 64), c) == Or(Or(Cut(Shl(x, 1), 64), Shl(c, 0)), Shr(x, k))
    ensures And(Or(Shr(x, 1), Shl(c, k - 1)), Pow2(k) - 1)
         == And(Or(Or(Shr(x, 1), Shl(c, k - 1)), Cut(Shl(x, k), 64)), Pow2(k) - 1)
  {
    hide Pow2, Shl, Shr, Or, And, Rest, Top, Cut;
    ShlZero(c);
    ShrTop(x, k);
    OrZero(Or(Cut(Shl(x, 1), 64), c));
    var hi := Top(x, c, k, k);
    Halves(x, c, k, k);
    Refill(x, hi, k, k);
    AndMask(hi, k);
    AndMask(Or(hi, Cut(Shl(x, k), 64)), k);
    Multiple(Rest(x, k, k), hi, k);
  }

  lemma Multiple(q: nat, r: nat, k: nat)
    ensures (Shl(q, k) + r) % Pow2(k) == r % Pow2(k)
  {
    hide Shl, Pow2;
    ShlIsMul(q, k);
    var p := Pow2(k);
    DivMod(r, p);
    Distribute(q, -(r / p), p);
    ModUnique(q * p + r, p, q + r / p, r % p);
  }

  lemma {:induction false} BitAt(x: nat, i: nat)
    ensures Bit(x, i) <==> And(Shr(x, i), 1) == 1
    decreases i
  {
    One(Shr(x, i));
    if i > 0 {
      One(Shr(x / 2, i - 1));
      BitAt(x / 2, i - 1);
    }
  }

  lemma {:induction false} BitOfCut(x: nat, i: nat, n: nat)
    requires i < n
    ensures Bit(Cut(x, n), i) == Bit(x, i)
    decreases i
  {
    ModDouble(x, Pow2(n - 1));
    assert Cut(x, n) == x % 2 + 2 * Cut(x / 2, n - 1);
    if i > 0 { BitOfCut(x / 2, i - 1, n - 1); }
  }

  /** The overflow formula of Rcl compares the bit that came out with the top bit. */
  lemma CarryAgainstTop(ct: nat, x: nat, k: nat)
    requires ct <= 1 && k > 0
    ensures Xor(ct, And(Shr(x, k - 1), 1)) == 1 <==> (ct == 1) != Bit(x, k - 1)
  {
    hide Shr, And, Bit;
    BitAt(x, k - 1);
    One(Shr(x, k - 1));
  }

  /** The overflow formula of Rcr compares the two top bits. */
  lemma TopTwoDiffer(x: nat, k: nat)
    requires 2 <= k <= 64
    ensures And(Shr(Xor(Cut(Shl(x, 1), 64), x), k - 1), 1) == 1 <==> Bit(x, k - 1) != Bit(x, k - 2)
  {
    var d := Cut(Shl(x, 1), 64);
    BitAt(Xor(d, x), k - 1);
    XorBit(d, x, k - 1);
    ShlTruncated(x, 63, 1);
    BitOfCut(x, k - 2, 63);
    assert d == 2 * Cut(x, 63);
  }

  // ----- the operations -----

  /** The operand with CF above it. */
  function WithCarry(x: nat, flags: bv32, k: nat): (w: nat)
    requires x < Pow2(k)
    ensures w < Pow2(k + 1)
  {
    ShlIsMul(CarryIn(flags), k);
    Shl(CarryIn(flags), k) + x
  }

  const ROTATE_FLAGS: bv32 := FLAG_CF | FLAG_OF

  function Stored(flags: bv32, cf: bv32, of: bv32): bv32 {
    (flags & !ROTATE_FLAGS) | cf | of
  }

  function RotateFlags(flags: bv32, cf: bool, of: bool): bv32 {
    Stored(flags, Mask(cf, FLAG_CF), Mask(of, FLAG_OF))
  }

  lemma RotateFlagsRead(flags: bv32, cf: bool, of: bool)
    ensures var f := RotateFlags(flags, cf, of);
      && Has(f, FLAG_CF) == cf && Has(f, FLAG_OF) == of && OthersKept(f, flags)
  {
    hide Stored;
    StoredBits(flags, Mask(cf, FLAG_CF), Mask(of, FLAG_OF));
  }

  lemma StoredBits(flags: bv32, cf: bv32, of: bv32)
    requires (cf == 0 || cf == FLAG_CF) && (of == 0 || of == FLAG_OF)
    ensures var f := Stored(flags, cf, of);
      && f & FLAG_CF == cf && f & FLAG_OF == of && OthersKept(f, flags)
  {
  }

  /** What a rotation that moved the operand and CF to the given word leaves: OF is
      set when two given bits differ, every other flag is as before. */
  ghost predicate Turned(x: nat, f: bv32, before: bv32, word: nat, overflow: bool, k: nat) {
    && x < Pow2(k) && WithCarry(x, f, k) == word
    && Has(f, FLAG_OF) == overflow && OthersKept(f, before)
  }

  /** The state after RCL of operand x0 by y places. */
  ghost predicate Leftwards(x: nat, f: bv32, x0: nat, before: bv32, y: nat, k: nat)
    requires k > 0 && x0 < Pow2(k)
  {
    if y == 0 then x == x0 && f == before
    else Turned(x, f, before, RotL(WithCarry(x0, before, k), y, k + 1), Has(f, FLAG_CF) != Bit(x, k - 1), k)
  }

  ghost predicate Rightwards(x: nat, f: bv32, x0: nat, before: bv32, y: nat, k: nat)
    requires k > 1 && x0 < Pow2(k)
  {
    if y == 0 then x == x0 && f == before
    else Turned(x, f, before, RotR(WithCarry(x0, before, k), y, k + 1), Bit(x, k - 1) != Bit(x, k - 2), k)
  }

  lemma Unmoved(x: nat, flags: bv32, k: nat)
    requires k > 1 && x < Pow2(k)
    ensures Leftwards(x, flags, x, flags, 0, k) && Rightwards(x, flags, x, flags, 0, k)
  {
  }

  lemma {:induction false} LeftSummary(flags: bv32, x: nat, x0: nat, ct: nat, of: nat, y: nat, k: nat)
    requires k > 0 && y > 0 && x0 < Pow2(k) && x < Pow2(k) && ct <= 1
    requires RotL(WithCarry(x0, flags, k), y, k + 1) == Shl(ct, k) + x
    requires of == 1 <==> (ct == 1) != Bit(x, k - 1)
    ensures Leftwards(x, RotateFlags(flags, ct == 1, of == 1), x0, flags, y, k)
  {
    hide RotateFlags, Has, Pow2, Shl, RotL, Bit;
    RotateFlagsRead(flags, ct == 1, of == 1);
  }

  lemma RightSummary(flags: bv32, x: nat, x0: nat, ct: nat, of: nat, y: nat, k: nat)
    requires k > 1 && y > 0 && x0 < Pow2(k) && x < Pow2(k) && ct <= 1
    requires RotR(WithCarry(x0, flags, k), y, k + 1) == Shl(ct, k) + x
    requires of == 1 <==> Bit(x, k - 1) != Bit(x, k - 2)
    ensures Rightwards(x, RotateFlags(flags, ct == 1, of == 1), x0, flags, y, k)
  {
    hide RotateFlags, Has, Pow2, Shl, RotR, Bit;
    RotateFlagsRead(flags, ct == 1, of == 1);
  }

  lemma Masked(x: nat, k: nat)
    requires Width(k)
    ensures And(x, Pow2(k) - 1) == Cut(x, k) && 8 <= k <= 64
  {
    AndMask(x, k);
    hide Pow2, And;
  }

  method Rcl(m: Machine, x64: U64, y: nat, k: nat) returns (x: nat)
    requires Width(k) && y <= k && y < 64
    modifies m`flags
    ensures Leftwards(x, m.flags, Cut(x64, k), old(m.flags), y, k)
  {
    hide Width, Pow2, Shl, Shr, Or, And, Xor, Bit, RotateFlags, RotL, Cut, CarryIn, Leftwards, Rightwards;
    x := And(x64, Pow2(k) - 1);
    Masked(x64, k);
    Unmoved(x, m.flags, k);
    if y != 0 {
      ghost var x0 := x;
      var cf := CarryIn(m.flags);
      var ct := And(Shr(x, k - y), 1);
      LeftWord(x, cf, y, k);
      if y == 1 {
        CountOfOne(x, cf, k);
        x := And(Or(Cut(Shl(x, 1), 64), cf), Pow2(k) - 1);
      } else {
        x := And(Or(Or(Cut(Shl(x, y), 64), Shl(cf, y - 1)), Shr(x, k + 1 - y)), Pow2(k) - 1);
      }
      var of := Xor(ct, And(Shr(x, k - 1), 1));
      CarryAgainstTop(ct, x, k);
      LeftSummary(m.flags, x, x0, ct, of, y, k);
      m.flags := RotateFlags(m.flags, ct == 1, of == 1);
    }
  }

  method Rcr(m: Machine, x64: U64, y: nat, k: nat) returns (x: nat)
    requires Width(k) && y <= k && y < 64
    modifies m`flags
    ensures Rightwards(x, m.flags, Cut(x64, k), old(m.flags), y, k)
  {
    hide Width, Pow2, Shl, Shr, Or, And, Xor, Bit, RotateFlags, RotR, Cut, CarryIn, Leftwards, Rightwards;
    x := And(x64, Pow2(k) - 1);
    Masked(x64, k);
    Unmoved(x, m.flags, k);
    if y != 0 {
      ghost var x0 := x;
      var cf := CarryIn(m.flags);
      var ct := And(Shr(x, y - 1), 1);
      RightWord(x, cf, y, k);
      if y == 1 {
        CountOfOne(x, cf, k);
        x := And(Or(Shr(x, 1), Shl(cf, k - 1)), Pow2(k) - 1);
      } else {
        x := And(Or(Or(Shr(x, y), Shl(cf, k - y)), Cut(Shl(x, k + 1 - y), 64)), Pow2(k) - 1);
      }
      var of := And(Shr(Xor(Cut(Shl(x, 1), 64), x), k - 1), 1);
      TopTwoDiffer(x, k);
      RightSummary(m.flags, x, x0, ct, of, y, k);
      m.flags := RotateFlags(m.flags, ct == 1, of == 1);
    }
  }

  // ----- the instructions -----

  /** How much of a count each width looks at. */
  function CountMask(k: nat): (m: nat)
    ensures m > 0
  {
    if k == 64 then 64 else 32
  }

  function Count(y: nat, k: nat): (c: nat)
    requires Width(k)
    ensures c <= k && c < 64
    ensures c == y % CountMask(k) % (k + 1)
  {
    if k == 8 then y % 32 % 9 else if k == 16 then y % 32 % 17 else if k == 32 then y % 32 else y % 64
  }

  method RotateCarryLeft(m: Machine, x64: U64, y: U64, k: nat) returns (x: nat)
    requires Width(k)
    modifies m`flags
    ensures Leftwards(x, m.flags, Cut(x64, k), old(m.flags), y % (if k == 64 then 64 else 32) % (k + 1), k)
  {
    x := Rcl(m, x64, Count(y, k), k);
  }

  method RotateCarryRight(m: Machine, x64: U64, y: U64, k: nat) returns (x: nat)
    requires Width(k)
    modifies m`flags
    ensures Rightwards(x, m.flags, Cut(x64, k), old(m.flags), y % (if k == 64 then 64 else 32) % (k + 1), k)
  {
    x := Rcr(m, x64, Count(y, k), k);
  }

  lemma LeftMovesWord(x: nat, f: bv32, x0: nat, before: bv32, y: nat, k: nat)
    requires k > 0 && x0 < Pow2(k) && Leftwards(x, f, x0, before, y, k)
    ensures x < Pow2(k) && WithCarry(x, f, k) == RotL(WithCarry(x0, before, k), y, k + 1)
  {
    hide Pow2, Has, CarryIn;
  }

  lemma RightMovesWord(x: nat, f: bv32, x0: nat, before: bv32, y: nat, k: nat)
    requires k > 1 && x0 < Pow2(k) && Rightwards(x, f, x0, before, y, k)
    ensures x < Pow2(k) && WithCarry(x, f, k) == RotR(WithCarry(x0, before, k), y, k + 1)
  {
    hide Pow2, Has, CarryIn;
  }

  lemma SameWord(x: nat, f: bv32, x': nat, f': bv32, k: nat)
    requires x < Pow2(k) && x' < Pow2(k) && WithCarry(x, f, k) == WithCarry(x', f', k)
    ensures x == x' && CarryIn(f) == CarryIn(f')
  {
    hide Pow2, Shl, CarryIn;
    ShlIsMul(CarryIn(f), k);
    ShlIsMul(CarryIn(f'), k);
    Parts(0, CarryIn(f), Pow2(k));
    Parts(0, CarryIn(f'), Pow2(k));
  }

  /** RCL then RCR by the same count gives back the operand and CF. */
  lemma RcrUndoesRcl(x0: nat, f0: bv32, x1: nat, f1: bv32, x2: nat, f2: bv32, y: nat, k: nat)
    requires k > 1 && x0 < Pow2(k) && x1 < Pow2(k)
    requires Leftwards(x1, f1, x0, f0, y, k) && Rightwards(x2, f2, x1, f1, y, k)
    ensures x2 == x0 && CarryIn(f2) == CarryIn(f0)
  {
    hide Pow2, Leftwards, Rightwards, WithCarry, CarryIn, RotL, RotR;
    LeftMovesWord(x1, f1, x0, f0, y, k);
    RightMovesWord(x2, f2, x1, f1, y, k);
    RightUndoesLeft(WithCarry(x0, f0, k), y, k + 1);
    SameWord(x2, f2, x0, f0, k);
  }

  lemma RclUndoesRcr(x0: nat, f0: bv32, x1: nat, f1: bv32, x2: nat, f2: bv32, y: nat, k: nat)
    requires k > 1 && x0 < Pow2(k) && x1 < Pow2(k)
    requires Rightwards(x1, f1, x0, f0, y, k) && Leftwards(x2, f2, x1, f1, y, k)
    ensures x2 == x0 && CarryIn(f2) == CarryIn(f0)
  {
    hide Pow2, Leftwards, Rightwards, WithCarry, CarryIn, RotL, RotR;
    RightMovesWord(x1, f1, x0, f0, y, k);
    LeftMovesWord(x2, f2, x1, f1, y, k);
    LeftUndoesRight(WithCarry(x0, f0, k), y, k + 1);
    SameWord(x2, f2, x0, f0, k);
  }

  /** Two rotations are one by the sum of the counts, modulo k + 1. */
  lemma RclCountsAdd(x0: nat, f0: bv32, x1: nat, f1: bv32, x2: nat, f2: bv32, y: nat, y': nat, k: nat)
    requires k > 1 && x0 < Pow2(k) && x1 < Pow2(k)
    requires Leftwards(x1, f1, x0, f0, y, k) && Leftwards(x2, f2, x1, f1, y', k)
    ensures x2 < Pow2(k) && WithCarry(x2, f2, k) == RotL(WithCarry(x0, f0, k), (y + y') % (k + 1), k + 1)
  {
    hide Pow2, Leftwards, WithCarry, RotL;
    LeftMovesWord(x1, f1, x0, f0, y, k);
    LeftMovesWord(x2, f2, x1, f1, y', k);
    RotLAdds(WithCarry(x0, f0, k), y, y', k + 1);
    RotLModulo(WithCarry(x0, f0, k), y + y', k + 1);
  }

  lemma RcrCountsAdd(x0: nat, f0: bv32, x1: nat, f1: bv32, x2: nat, f2: bv32, y: nat, y': nat, k: nat)
    requires k > 1 && x0 < Pow2(k) && x1 < Pow2(k)
    requires Rightwards(x1, f1, x0, f0, y, k) && Rightwards(x2, f2, x1, f1, y', k)
    ensures x2 < Pow2(k) && WithCarry(x2, f2, k) == RotR(WithCarry(x0, f0, k), (y + y') % (k + 1), k + 1)
  {
    hide Pow2, Rightwards, WithCarry, RotR;
    RightMovesWord(x1, f1, x0, f0, y, k);
    RightMovesWord(x2, f2, x1, f1, y', k);
    RotRAdds(WithCarry(x0, f0, k), y, y', k + 1);
    RotRModulo(WithCarry(x0, f0, k), y + y', k + 1);
  }

  // ----- when do the counts of two instructions compose? -----

  function TwoTurns(w: nat, y: nat, y': nat, k: nat): nat
    requires Width(k) && w < Pow2(k + 1)
  {
    RotL(RotL(w, Count(y, k), k + 1), Count(y', k), k + 1)
  }

  /** The instruction cuts a count to five or six bits before reducing it, so RCL by
      y and then by y' is RCL by y + y' exactly when the cut counts do not carry. */
  lemma CountsCompose(y: nat, y': nat, k: nat)
    requires Width(k)
    ensures (forall w: nat :: w < Pow2(k + 1) ==> TwoTurns(w, y, y', k) == RotL(w, Count(y + y', k), k + 1))
       <==> y % CountMask(k) + y' % CountMask(k) < CountMask(k)
  {
    hide Pow2, RotL;
    var n, d := k + 1, (y % CountMask(k) + y' % CountMask(k)) % (k + 1);
    forall w: nat | w < Pow2(n) ensures TwoTurns(w, y, y', k) == RotL(w, d, n) {
      RotLAdds(w, Count(y, k), Count(y', k), n);
      RotLModulo(w, Count(y, k) + Count(y', k), n);
      ModSum(y % CountMask(k), y' % CountMask(k), n);
    }
    CarriedCount(y, y', k);
    OneMoves(d, n);
    OneMoves(Count(y + y', k), n);
    if d != Count(y + y', k) {
      Pow2Differ(d, Count(y + y', k));
      assert TwoTurns(1, y, y', k) != RotL(1, Count(y + y', k), n);
    }
  }

  function TwoTurnsRight(w: nat, y: nat, y': nat, k: nat): nat
    requires Width(k) && w < Pow2(k + 1)
  {
    RotR(RotR(w, Count(y, k), k + 1), Count(y', k), k + 1)
  }

  /** The same for RCR. */
  lemma RcrCountsCompose(y: nat, y': nat, k: nat)
    requires Width(k)
    ensures (forall w: nat :: w < Pow2(k + 1) ==> TwoTurnsRight(w, y, y', k) == RotR(w, Count(y + y', k), k + 1))
       <==> y % CountMask(k) + y' % CountMask(k) < CountMask(k)
  {
    hide Pow2, RotR;
    var n, d := k + 1, (y % CountMask(k) + y' % CountMask(k)) % (k + 1);
    forall w: nat | w < Pow2(n) ensures TwoTurnsRight(w, y, y', k) == RotR(w, d, n) {
      RotRAdds(w, Count(y, k), Count(y', k), n);
      RotRModulo(w, Count(y, k) + Count(y', k), n);
      ModSum(y % CountMask(k), y' % CountMask(k), n);
    }
    CarriedCount(y, y', k);
    if d != Count(y + y', k) {
      var w := RotRDiffers(d, Count(y + y', k), n);
      assert TwoTurnsRight(w, y, y', k) != RotR(w, Count(y + y', k), n);
    }
  }

  lemma NoTurn(w: nat, n: nat)
    requires n > 0 && w < Pow2(n)
    ensures RotL(w, 0, n) == w == RotR(w, 0, n)
  {
  }

  /** At 8 bits, twice RCL by 16 is not RCL by 32, which does nothing: it moves bit 0
      up by five; and twice RCR by 16 moves it back. */
  lemma CountsCarry()
    ensures TwoTurns(1, 16, 16, 8) == 32 && RotL(1, Count(32, 8), 9) == 1
    ensures TwoTurnsRight(32, 16, 16, 8) == 1 && RotR(32, Count(32, 8), 9) == 32
  {
    hide RotL, RotR;
    assert Count(16, 8) == 7 && Count(32, 8) == 0;
    assert Pow2(5) == 32 && Pow2(9) == 512;
    RotLAdds(1, 7, 7, 9);
    RotLModulo(1, 14, 9);
    OneMoves(5, 9);
    OneMoves(0, 9);
    RotRAdds(32, 7, 7, 9);
    RotRModulo(32, 14, 9);
    RightUndoesLeft(1, 5, 9);
    RightUndoesLeft(32, 0, 9);
    NoTurn(32, 9);
  }

  lemma ModSum(a: nat, b: nat, n: nat)
    requires n > 0
    ensures (a % n + b % n) % n == (a + b) % n
  {
    DivMod(a, n);
    DivMod(b, n);
    DivMod(a % n + b % n, n);
    var q := a / n + b / n + (a % n + b % n) / n;
    Distribute(a / n, -(b / n), n);
    Distribute(a / n + b / n, -((a % n + b % n) / n), n);
    ModUnique(a + b, n, q, (a % n + b % n) % n);
  }

  lemma CarriedCount(y: nat, y': nat, k: nat)
    requires Width(k)
    ensures var m := CountMask(k);
      (y % m + y' % m) % (k + 1) == Count(y + y', k) <==> y % m + y' % m < m
  {
    hide CountMask;
    var m := CountMask(k);
    ModSum(y, y', m);
    LessOneTurn(y % m + y' % m, m);
    if y % m + y' % m >= m { CarryShows(y % m + y' % m, k); }
  }

  lemma LessOneTurn(t: nat, m: nat)
    requires t < 2 * m
    ensures t % m == if t < m then t else t - m
  {
  }

  lemma CarryShows(t: nat, k: nat)
    requires Width(k) && CountMask(k) <= t
    ensures t % (k + 1) != (t - CountMask(k)) % (k + 1)
  {
  }

  lemma {:induction false} Pow2Differ(a: nat, b: nat)
    requires a != b
    ensures Pow2(a) != Pow2(b)
  {
    if a < b { Pow2Monotone(a + 1, b); } else { Pow2Monotone(b + 1, a); }
  }
}
