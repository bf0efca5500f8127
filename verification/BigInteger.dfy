/** Chains of Add64/Adc64 and Sub64/Sbb64 (native/blink/blink/alu.c) over limb
    arrays of any length, as compilers emit them for wide integers. */
module BigInteger {
  import opened Bits
  import opened Words
  import opened X86
  import Alu

  /** The number whose base-2^64 digits are xs, least significant first. */
  function Big(xs: seq<U64>): nat {
    if xs == [] then 0 else xs[0] + W64 * Big(xs[1..])
  }

  /** Number of values of n limbs. */
  function Radix(n: nat): nat {
    if n == 0 then 1 else W64 * Radix(n - 1)
  }

  /** The number as two's complement over all its limbs. */
  function SignedBig(xs: seq<U64>): int
    requires xs != []
  {
    if xs[|xs| - 1] >= W63 then Big(xs) - Radix(|xs|) else Big(xs)
  }

  datatype Chain = Chain(limbs: seq<U64>, cf: bool, of: bool)

  function Carry(b: bool): nat {
    if b then 1 else 0
  }

  /** What a 64-bit operation of the Alu module leaves: its result, with the
      width made concrete. */
  lemma Operation64(x: U64, y: U64, c: bool)
    ensures Alu.AddResult(x, y, Carry(c), 64) == Alu.Sum(x, y, Carry(c), W63)
    ensures Alu.SubResult(x, y, Carry(c), 64) == Alu.Difference(x, y, Carry(c), W63)
  {
    Pow2Word();
    Alu.AddResultIs(x, y, Carry(c), 64);
    Alu.SubResultIs(x, y, Carry(c), 64);
    hide Pow2, Alu.AddResult, Alu.SubResult, Alu.Sum, Alu.Difference;
  }

  /** Add64 on the first limb (c = 0) and Adc64 on the others: each operation
      takes the CF that the one before it left. */
  function AddChain(xs: seq<U64>, ys: seq<U64>, c: bool): Chain
    requires |xs| == |ys| > 0
    decreases |xs|
  {
    var r := Alu.Sum(xs[0], ys[0], Carry(c), W63);
    if |xs| == 1 then Chain([r.z], r.cf, r.of)
    else
      var rest := AddChain(xs[1..], ys[1..], r.cf);
      Chain([r.z] + rest.limbs, rest.cf, rest.of)
  }

  function SubChain(xs: seq<U64>, ys: seq<U64>, c: bool): Chain
    requires |xs| == |ys| > 0
    decreases |xs|
  {
    var r := Alu.Difference(xs[0], ys[0], Carry(c), W63);
    if |xs| == 1 then Chain([r.z], r.cf, r.of)
    else
      var rest := SubChain(xs[1..], ys[1..], r.cf);
      Chain([r.z] + rest.limbs, rest.cf, rest.of)
  }

  /** Does s fit n limbs as two's complement? */
  predicate Fits(s: int, n: nat) {
    0 - Radix(n) <= 2 * s < Radix(n)
  }

  lemma SignedSplit(xs: seq<U64>)
    requires |xs| > 1
    ensures SignedBig(xs) == xs[0] + W64 * SignedBig(xs[1..])
  {
  }

  lemma FitsSplit(lo: int, hi: int, n: nat)
    requires n > 1 && 0 <= lo < W64
    ensures Fits(lo + W64 * hi, n) <==> Fits(hi, n - 1)
  {
    FitsStep(lo, hi, Radix(n - 2));
  }

  lemma FitsStep(lo: int, hi: int, q: int)
    requires 0 <= lo < W64
    ensures 0 - W64 * (W64 * q) <= 2 * (lo + W64 * hi) < W64 * (W64 * q) <==> 0 - W64 * q <= 2 * hi < W64 * q
  {
    var e := W63 * q;
    assert W64 * q == 2 * e;
    FitsHalves(lo, hi, e);
  }

  lemma FitsHalves(lo: int, hi: int, e: int)
    requires 0 <= lo < W64
    ensures 0 - W64 * (2 * e) <= 2 * (lo + W64 * hi) < W64 * (2 * e) <==> 0 - 2 * e <= 2 * hi < 2 * e
  {
  }

  lemma OneLimb(x: U64)
    ensures Big([x]) == x && Radix(1) == W64
  {
    assert [x][1..] == [];
    assert Radix(1) == W64 * Radix(0);
  }

  lemma BigSplit(xs: seq<U64>)
    requires xs != []
    ensures Big(xs) == xs[0] + W64 * Big(xs[1..]) && Radix(|xs|) == W64 * Radix(|xs| - 1)
  {
  }

  lemma AddLimb(x: U64, y: U64, c: bool)
    ensures var r := Alu.Sum(x, y, Carry(c), W63);
      && r.z < W64 && r.z + W64 * Carry(r.cf) == x + y + Carry(c)
      && (r.of <==> !Fits(SignedBig([x]) + SignedBig([y]) + Carry(c), 1))
  {
    OneLimb(x);
    OneLimb(y);
  }

  /** The chain computes the exact sum modulo 2^(64n), and the last CF is the
      carry out of the whole number. */
  lemma {:induction false} AddChainValue(xs: seq<U64>, ys: seq<U64>, c: bool)
    requires |xs| == |ys| > 0
    ensures var r := AddChain(xs, ys, c);
      && |r.limbs| == |xs|
      && Big(r.limbs) + (if r.cf then Radix(|xs|) else 0) == Big(xs) + Big(ys) + Carry(c)
    decreases |xs|
  {
    hide Big, Radix, Alu.Sum;
    AddLimb(xs[0], ys[0], c);
    var first := Alu.Sum(xs[0], ys[0], Carry(c), W63);
    if |xs| == 1 {
      OneLimb(xs[0]);
      OneLimb(ys[0]);
      OneLimb(first.z);
      assert xs == [xs[0]] && ys == [ys[0]];
    } else {
      AddChainValue(xs[1..], ys[1..], first.cf);
      var r, rest := AddChain(xs, ys, c), AddChain(xs[1..], ys[1..], first.cf);
      assert r.limbs[0] == first.z && r.limbs[1..] == rest.limbs;
      BigSplit(xs);
      BigSplit(ys);
      BigSplit(r.limbs);
    }
  }

  /** The last OF is the signed overflow of the whole number. */
  lemma {:induction false} AddChainOverflow(xs: seq<U64>, ys: seq<U64>, c: bool)
    requires |xs| == |ys| > 0
    ensures AddChain(xs, ys, c).of <==> !Fits(SignedBig(xs) + SignedBig(ys) + Carry(c), |xs|)
    decreases |xs|
  {
    AddLimb(xs[0], ys[0], c);
    var first := Alu.Sum(xs[0], ys[0], Carry(c), W63);
    if |xs| == 1 {
      assert xs == [xs[0]] && ys == [ys[0]];
    } else {
      AddChainOverflow(xs[1..], ys[1..], first.cf);
      SignedSplit(xs);
      SignedSplit(ys);
      FitsSplit(first.z, SignedBig(xs[1..]) + SignedBig(ys[1..]) + Carry(first.cf), |xs|);
    }
  }

  lemma SubLimb(x: U64, y: U64, c: bool)
    ensures var r := Alu.Difference(x, y, Carry(c), W63);
      && r.z < W64 && r.z - W64 * Carry(r.cf) == x - y - Carry(c)
      && (r.of <==> !Fits(SignedBig([x]) - SignedBig([y]) - Carry(c), 1))
  {
    OneLimb(x);
    OneLimb(y);
  }

  /** The chain computes the exact difference modulo 2^(64n), and the last CF is
      the borrow of the whole number. */
  lemma {:induction false} SubChainValue(xs: seq<U64>, ys: seq<U64>, c: bool)
    requires |xs| == |ys| > 0
    ensures var r := SubChain(xs, ys, c);
      && |r.limbs| == |xs|
      && Big(r.limbs) - (if r.cf then Radix(|xs|) else 0) == Big(xs) - Big(ys) - Carry(c)
    decreases |xs|
  {
    hide Big, Radix, Alu.Difference;
    SubLimb(xs[0], ys[0], c);
    var first := Alu.Difference(xs[0], ys[0], Carry(c), W63);
    if |xs| == 1 {
      OneLimb(xs[0]);
      OneLimb(ys[0]);
      OneLimb(first.z);
      assert xs == [xs[0]] && ys == [ys[0]];
    } else {
      SubChainValue(xs[1..], ys[1..], first.cf);
      var r, rest := SubChain(xs, ys, c), SubChain(xs[1..], ys[1..], first.cf);
      assert r.limbs[0] == first.z && r.limbs[1..] == rest.limbs;
      BigSplit(xs);
      BigSplit(ys);
      BigSplit(r.limbs);
    }
  }

  /** The last OF is the signed overflow of the whole number. */
  lemma {:induction false} SubChainOverflow(xs: seq<U64>, ys: seq<U64>, c: bool)
    requires |xs| == |ys| > 0
    ensures SubChain(xs, ys, c).of <==> !Fits(SignedBig(xs) - SignedBig(ys) - Carry(c), |xs|)
    decreases |xs|
  {
    SubLimb(xs[0], ys[0], c);
    var first := Alu.Difference(xs[0], ys[0], Carry(c), W63);
    if |xs| == 1 {
      assert xs == [xs[0]] && ys == [ys[0]];
    } else {
      SubChainOverflow(xs[1..], ys[1..], first.cf);
      SignedSplit(xs);
      SignedSplit(ys);
      FitsSplit(first.z, SignedBig(xs[1..]) - SignedBig(ys[1..]) - Carry(first.cf), |xs|);
    }
  }

  /** Subtracting what was added, with its carry, gives the number back. */
  lemma SubUndoesAdd(xs: seq<U64>, ys: seq<U64>)
    requires |xs| == |ys| > 0
    ensures var sum := AddChain(xs, ys, false);
      |sum.limbs| == |ys| && SubChain(sum.limbs, ys, false).limbs == xs && SubChain(sum.limbs, ys, false).cf == sum.cf
  {
    var sum := AddChain(xs, ys, false);
    AddChainValue(xs, ys, false);
    var back := SubChain(sum.limbs, ys, false);
    SubChainValue(sum.limbs, ys, false);
    BigBound(xs);
    BigBound(back.limbs);
    hide AddChain, SubChain, Big, Radix;
    BigInjective(back.limbs, xs);
  }

  // ----- the instructions, run on the machine -----

  lemma CutWord(x: U64)
    ensures Alu.Cut(x, 64) == x
  {
    Pow2Word();
    hide Pow2;
    ModUnique(x, W64, 0, x);
  }

  /** What Add64 and Adc64 leave, as one limb of the chain. */
  lemma AddedLimb(x: U64, y: U64, c: bool, z: nat, f: bv32, before: bv32)
    requires Alu.Leaves(z, f, before, Alu.AddResult(Alu.Cut(x, 64), Alu.Cut(y, 64), Carry(c), 64), 64)
    ensures var r := Alu.Sum(x, y, Carry(c), W63);
      z == r.z < W64 && Has(f, FLAG_CF) == r.cf && Has(f, FLAG_OF) == r.of
  {
    hide Pow2, Has, Alu.Cut, Alu.AddResult, Alu.Sum, Alu.LowByte;
    CutWord(x);
    CutWord(y);
    Operation64(x, y, c);
    AddLimb(x, y, c);
  }

  lemma SubtractedLimb(x: U64, y: U64, c: bool, z: nat, f: bv32, before: bv32)
    requires Alu.Leaves(z, f, before, Alu.SubResult(Alu.Cut(x, 64), Alu.Cut(y, 64), Carry(c), 64), 64)
    ensures var r := Alu.Difference(x, y, Carry(c), W63);
      z == r.z < W64 && Has(f, FLAG_CF) == r.cf && Has(f, FLAG_OF) == r.of
  {
    hide Pow2, Has, Alu.Cut, Alu.SubResult, Alu.Difference, Alu.LowByte;
    CutWord(x);
    CutWord(y);
    Operation64(x, y, c);
    SubLimb(x, y, c);
  }

  /** Flags and limbs agree with a chain. */
  ghost predicate Shows(zs: seq<U64>, f: bv32, r: Chain) {
    zs == r.limbs && Has(f, FLAG_CF) == r.cf && Has(f, FLAG_OF) == r.of
  }

  lemma CarryInIs(f: bv32)
    ensures Alu.CarryIn(f) == Carry(Has(f, FLAG_CF))
  {
  }

  /** ADC on every limb, from the lowest up. */
  method AdcLimbs(m: Machine, xs: seq<U64>, ys: seq<U64>) returns (zs: seq<U64>)
    requires |xs| == |ys| > 0
    modifies m`flags
    ensures Shows(zs, m.flags, AddChain(xs, ys, Has(old(m.flags), FLAG_CF)))
    decreases |xs|
  {
    hide Has, Alu.CarryIn, Alu.Sum, Alu.Leaves, Alu.AddResult;
    CarryInIs(m.flags);
    var z := Alu.Adc(m, xs[0], ys[0], 64);
    AddedLimb(xs[0], ys[0], Has(old(m.flags), FLAG_CF), z, m.flags, old(m.flags));
    zs := [z];
    if |xs| > 1 {
      var rest := AdcLimbs(m, xs[1..], ys[1..]);
      zs := zs + rest;
    }
  }

  /** ADD on the lowest limb, ADC on the others: the exact sum modulo 2^(64n), CF
      the carry out of the whole number, OF its signed overflow. */
  method AddLimbs(m: Machine, xs: seq<U64>, ys: seq<U64>) returns (zs: seq<U64>)
    requires |xs| == |ys| > 0
    modifies m`flags
    ensures |zs| == |xs| && Big(zs) + (if Has(m.flags, FLAG_CF) then Radix(|xs|) else 0) == Big(xs) + Big(ys)
    ensures Has(m.flags, FLAG_OF) <==> !Fits(SignedBig(xs) + SignedBig(ys), |xs|)
    ensures Shows(zs, m.flags, AddChain(xs, ys, false))
  {
    hide Has, Alu.Sum, Alu.Leaves, Alu.AddResult, Big, Radix, SignedBig;
    var z := Alu.Add(m, xs[0], ys[0], 64);
    AddedLimb(xs[0], ys[0], false, z, m.flags, old(m.flags));
    zs := [z];
    if |xs| > 1 {
      var rest := AdcLimbs(m, xs[1..], ys[1..]);
      zs := zs + rest;
    }
    AddChainValue(xs, ys, false);
    AddChainOverflow(xs, ys, false);
  }

  /** SBB on every limb, from the lowest up. */
  method SbbLimbs(m: Machine, xs: seq<U64>, ys: seq<U64>) returns (zs: seq<U64>)
    requires |xs| == |ys| > 0
    modifies m`flags
    ensures Shows(zs, m.flags, SubChain(xs, ys, Has(old(m.flags), FLAG_CF)))
    decreases |xs|
  {
    hide Has, Alu.CarryIn, Alu.Difference, Alu.Leaves, Alu.SubResult;
    CarryInIs(m.flags);
    var z := Alu.Sbb(m, xs[0], ys[0], 64);
    SubtractedLimb(xs[0], ys[0], Has(old(m.flags), FLAG_CF), z, m.flags, old(m.flags));
    zs := [z];
    if |xs| > 1 {
      var rest := SbbLimbs(m, xs[1..], ys[1..]);
      zs := zs + rest;
    }
  }

  /** SUB on the lowest limb, SBB on the others. */
  method SubLimbs(m: Machine, xs: seq<U64>, ys: seq<U64>) returns (zs: seq<U64>)
    requires |xs| == |ys| > 0
    modifies m`flags
    ensures |zs| == |xs| && Big(zs) - (if Has(m.flags, FLAG_CF) then Radix(|xs|) else 0) == Big(xs) - Big(ys)
    ensures Has(m.flags, FLAG_OF) <==> !Fits(SignedBig(xs) - SignedBig(ys), |xs|)
    ensures Shows(zs, m.flags, SubChain(xs, ys, false))
  {
    hide Has, Alu.Difference, Alu.Leaves, Alu.SubResult, Big, Radix, SignedBig;
    var z := Alu.Sub(m, xs[0], ys[0], 64);
    SubtractedLimb(xs[0], ys[0], false, z, m.flags, old(m.flags));
    zs := [z];
    if |xs| > 1 {
      var rest := SbbLimbs(m, xs[1..], ys[1..]);
      zs := zs + rest;
    }
    SubChainValue(xs, ys, false);
    SubChainOverflow(xs, ys, false);
  }

  lemma {:induction false} BigBound(xs: seq<U64>)
    ensures Big(xs) < Radix(|xs|)
  {
    if xs != [] { BigBound(xs[1..]); }
  }

  lemma {:induction false} BigInjective(xs: seq<U64>, ys: seq<U64>)
    requires |xs| == |ys| && Big(xs) == Big(ys)
    ensures xs == ys
  {
    if xs != [] {
      assert xs[0] == ys[0];
      BigInjective(xs[1..], ys[1..]);
      assert xs == [xs[0]] + xs[1..] && ys == [ys[0]] + ys[1..];
    }
  }
}
