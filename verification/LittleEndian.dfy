/** Unsigned integers as little-endian bytes. */
module LittleEndian {
  import opened Bits
  import opened Words

  function LeBytes(w: nat, n: nat): (s: seq<Byte>)
    ensures |s| == n
    decreases n
  {
    if n == 0 then [] else [w % 256] + LeBytes(w / 256, n - 1)
  }

  function LeValue(s: seq<Byte>): nat {
    if s == [] then 0 else s[0] + 256 * LeValue(s[1..])
  }

  /** Decoding returns the low n bytes of what was encoded. */
  lemma {:induction false} LeRoundTrip(w: nat, n: nat)
    ensures LeValue(LeBytes(w, n)) == w % Base(n)
    decreases n
  {
    if n > 0 {
      LeRoundTrip(w / 256, n - 1);
      assert LeBytes(w, n)[1..] == LeBytes(w / 256, n - 1);
      ModSplit(w, Base(n - 1));
    }
  }

  /** Byte i of the encoding counts multiples of 256 to the power i. */
  lemma {:induction false} LeBytesAt(w: nat, n: nat, i: nat)
    requires i < n
    ensures LeBytes(w, n)[i] == w / Base(i) % 256
    decreases i
  {
    if i > 0 {
      LeBytesAt(w / 256, n - 1, i - 1);
      DivTwice(w, Base(i - 1));
    }
  }

  lemma DivTwice(w: nat, b: nat)
    requires b > 0
    ensures w / (256 * b) == w / 256 / b
  {
    var q, r := w / 256 / b, w / 256 % b;
    DivMod(w / 256, b);
    assert 256 * (q * b) == q * (256 * b);
    ModUnique(w, 256 * b, q, 256 * r + w % 256);
  }

  function Base(n: nat): (b: nat)
    ensures b > 0
  {
    if n == 0 then 1 else 256 * Base(n - 1)
  }

  lemma ModSplit(w: nat, b: nat)
    requires b > 0
    ensures w % (256 * b) == w % 256 + 256 * (w / 256 % b)
  {
    var q, r := w / 256 / b, w / 256 % b;
    DivMod(w / 256, b);
    assert 256 * (q * b) == q * (256 * b);
    ModUnique(w, 256 * b, q, 256 * r + w % 256);
  }
}
