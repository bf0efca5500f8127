/** PDEP and PEXT (native/blink/blink/bmi2.c). */
module Bmi2 {
  import opened Bits
  import opened Words

  // ----- what the instructions compute -----

  /** The low bits of x, spread over the set bits of m. */
  function Deposit(x: nat, m: nat): nat
    decreases m
  {
    if m == 0 then 0
    else if m % 2 == 1 then x % 2 + 2 * Deposit(x / 2, m / 2)
    else 2 * Deposit(x, m / 2)
  }

  /** The bits of x selected by m, packed at the bottom. */
  function Extract(x: nat, m: nat): nat
    decreases m
  {
    if m == 0 then 0
    else if m % 2 == 1 then x % 2 + 2 * Extract(x / 2, m / 2)
    else Extract(x / 2, m / 2)
  }

  function Popcount(m: nat): nat {
    if m == 0 then 0 else m % 2 + Popcount(m / 2)
  }

  /** Number of set bits of m below bit i. */
  function Rank(m: nat, i: nat): nat
    decreases i
  {
    if i == 0 then 0 else m % 2 + Rank(m / 2, i - 1)
  }

  // ----- the loops -----

  method Pdep(x0: U64, mask0: U64) returns (r: U64)
    ensures r == Deposit(x0, mask0)
  {
    var x: U64, mask: U64, b: U64 := x0, mask0, 1;
    r := 0;
    ghost var i := 0;
    Pow2Word();
    assert Depositing(x0, mask0, x, mask, r, b, i);
    hide Depositing, And, Or;
    while mask != 0
      invariant Depositing(x0, mask0, x, mask, r, b, i)
      decreases mask
    {
      DepositRound(x0, mask0, x, mask, r, b, i);
      if And(mask, 1) != 0 {
        if And(x, 1) != 0 { r := Or(r, b); }
        x := x / 2;
      }
      mask, b := mask / 2, 2 * b % W64;
      i := i + 1;
    }
    DepositEnds(x0, mask0, x, r, b, i);
  }

  /** i rounds done: r holds the deposit of the low i mask bits, b is 1 << i. */
  ghost predicate Depositing(x0: nat, mask0: nat, x: U64, mask: U64, r: U64, b: U64, i: nat) {
    && i <= 64 && mask < Pow2(64 - i) && r < Pow2(i) && (i < 64 ==> b == Pow2(i))
    && r + Shl(Deposit(x, mask), i) == Deposit(x0, mask0)
  }

  lemma DepositRound(x0: nat, mask0: nat, x: U64, mask: U64, r: U64, b: U64, i: nat)
    requires mask != 0 && Depositing(x0, mask0, x, mask, r, b, i)
    ensures Or(r, b) < W64
    ensures Depositing(x0, mask0, if And(mask, 1) != 0 then x / 2 else x, mask / 2,
              if And(mask, 1) != 0 && And(x, 1) != 0 then Or(r, b) else r, 2 * b % W64, i + 1)
  {
    hide And, Or;
    WordBit(r, i);
    DepositStep(x, mask, i);
    AndMask(mask, 1);
    AndMask(x, 1);
  }

  lemma DepositEnds(x0: nat, mask0: nat, x: U64, r: U64, b: U64, i: nat)
    requires Depositing(x0, mask0, x, 0, r, b, i)
    ensures r == Deposit(x0, mask0)
  {
    ShlIsMul(0, i);
  }

  method Pext(x0: U64, mask0: U64) returns (r: U64)
    ensures r == Extract(x0, mask0)
  {
    var x: U64, mask: U64, b: U64 := x0, mask0, 1;
    r := 0;
    ghost var i, k := 0, 0;
    Pow2Word();
    assert Extracting(x0, mask0, x, mask, r, b, i, k);
    hide Extracting, And, Or;
    while mask != 0
      invariant Extracting(x0, mask0, x, mask, r, b, i, k)
      decreases mask
    {
      ExtractRound(x0, mask0, x, mask, r, b, i, k);
      if And(mask, 1) != 0 {
        if And(x, 1) != 0 { r := Or(r, b); }
        b := 2 * b % W64;
        k := k + 1;
      }
      mask, x := mask / 2, x / 2;
      i := i + 1;
    }
    ExtractEnds(x0, mask0, x, r, b, i, k);
  }

  /** i rounds done: r holds the k selected bits of the low i, b is 1 << k. */
  ghost predicate Extracting(x0: nat, mask0: nat, x: U64, mask: U64, r: U64, b: U64, i: nat, k: nat) {
    && k <= i <= 64 && mask < Pow2(64 - i) && r < Pow2(k) && (k < 64 ==> b == Pow2(k))
    && r + Shl(Extract(x, mask), k) == Extract(x0, mask0)
  }

  lemma ExtractRound(x0: nat, mask0: nat, x: U64, mask: U64, r: U64, b: U64, i: nat, k: nat)
    requires mask != 0 && Extracting(x0, mask0, x, mask, r, b, i, k)
    ensures Or(r, b) < W64
    ensures if And(mask, 1) != 0
      then Extracting(x0, mask0, x / 2, mask / 2, if And(x, 1) != 0 then Or(r, b) else r, 2 * b % W64, i + 1, k + 1)
      else Extracting(x0, mask0, x / 2, mask / 2, r, b, i + 1, k)
  {
    hide And, Or;
    WordBit(r, k);
    ExtractStep(x, mask, k);
    AndMask(mask, 1);
    AndMask(x, 1);
  }

  lemma ExtractEnds(x0: nat, mask0: nat, x: U64, r: U64, b: U64, i: nat, k: nat)
    requires Extracting(x0, mask0, x, 0, r, b, i, k)
    ensures r == Extract(x0, mask0)
  {
    ShlIsMul(0, k);
  }

  /** r |= 1 << i where r has no bit from i up. */
  lemma WordBit(r: nat, i: nat)
    requires i < 64 && r < Pow2(i)
    ensures Or(r, Pow2(i)) == r + Pow2(i) < Pow2(i + 1) <= W64
    ensures i < 63 ==> 2 * Pow2(i) < W64
  {
    ShlIsMul(1, i);
    OrDisjoint(1, r, i);
    Pow2Word();
    Pow2Monotone(i + 1, 64);
    if i < 63 { Pow2Monotone(i + 1, 63); }
  }

  lemma DepositStep(x: nat, mask: nat, i: nat)
    requires mask > 0
    ensures Shl(Deposit(x, mask), i) ==
      if mask % 2 == 1
      then (if x % 2 == 1 then Pow2(i) else 0) + Shl(Deposit(x / 2, mask / 2), i + 1)
      else Shl(Deposit(x, mask / 2), i + 1)
  {
    var d := Deposit(if mask % 2 == 1 then x / 2 else x, mask / 2);
    ShlDouble(d, i);
    ShlPlusOne(2 * d, i);
  }

  lemma ExtractStep(x: nat, mask: nat, k: nat)
    requires mask > 0
    ensures Shl(Extract(x, mask), k) ==
      if mask % 2 == 1
      then (if x % 2 == 1 then Pow2(k) else 0) + Shl(Extract(x / 2, mask / 2), k + 1)
      else Shl(Extract(x / 2, mask / 2), k)
  {
    var d := Extract(x / 2, mask / 2);
    ShlDouble(d, k);
    ShlPlusOne(2 * d, k);
  }

  // ----- their meaning, and how they undo each other -----

  /** Bit i of the deposit is the bit of x of that rank where m has a bit. */
  lemma {:induction false} DepositBit(x: nat, m: nat, i: nat)
    ensures Bit(Deposit(x, m), i) == (Bit(m, i) && Bit(x, Rank(m, i)))
    decreases i
  {
    ZeroBit(i);
    if m > 0 && i > 0 {
      DepositBit(if m % 2 == 1 then x / 2 else x, m / 2, i - 1);
    }
  }

  /** Each selected bit of x is found at its rank. */
  lemma {:induction false} ExtractBit(x: nat, m: nat, i: nat)
    requires Bit(m, i)
    ensures Bit(Extract(x, m), Rank(m, i)) == Bit(x, i)
    decreases i
  {
    ZeroBit(i);
    if i > 0 { ExtractBit(x / 2, m / 2, i - 1); }
  }

  lemma {:induction false} ExtractFits(x: nat, m: nat)
    ensures Extract(x, m) < Pow2(Popcount(m))
    decreases m
  {
    if m > 0 { ExtractFits(x / 2, m / 2); }
  }

  lemma PopcountHalf(m: nat)
    ensures Popcount(m) == if m == 0 then 0 else m % 2 + Popcount(m / 2)
  {
  }

  /** PEXT after PDEP: x cut to its low popcount(m) bits. */
  lemma {:induction false} ExtractUndoesDeposit(x: nat, m: nat)
    ensures Extract(Deposit(x, m), m) == x % Pow2(Popcount(m))
    decreases m
  {
    hide Pow2, Popcount;
    PopcountHalf(m);
    if m == 0 {
      Pow2Up(0);
    } else {
      Pow2Up(Popcount(m / 2));
      ExtractUndoesDeposit(if m % 2 == 1 then x / 2 else x, m / 2);
      ModDouble(x, Pow2(Popcount(m / 2)));
    }
  }

  /** PDEP after PEXT: x masked by m. */
  lemma {:induction false} DepositUndoesExtract(x: nat, m: nat)
    ensures Deposit(Extract(x, m), m) == And(x, m)
    decreases m
  {
    if m == 0 {
      AndZero(x);
    } else {
      DepositUndoesExtract(x / 2, m / 2);
    }
  }
}
