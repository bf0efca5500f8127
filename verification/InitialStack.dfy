/** Building the initial process stack (native/blink/blink/argv.c), read back as
    section 3.4.1 of the System V AMD64 ABI prescribes. */
module InitialStack {
  import opened LittleEndian
  import opened Words
  import opened Wrappers
  import opened X86

  /** A C string: no NUL inside. */
  type CString = s: seq<Byte> | 0 !in s

  // ----- memory -----

  ghost predicate Holds(mem: Memory, a: int, s: seq<Byte>) {
    forall j | 0 <= j < |s| :: mem(a + j) == s[j]
  }

  /** The NUL-terminated string at a is s. */
  ghost predicate StringAt(mem: Memory, a: int, s: CString) {
    Holds(mem, a, s + [0])
  }

  /** The pointer passed for an optional string. */
  ghost predicate OptionAt(mem: Memory, a: int, s: Option<CString>) {
    match s
    case None => a == 0
    case Some(t) => StringAt(mem, a, t)
  }

  /** At most one string can be read at an address. */
  lemma StringAtUnique(mem: Memory, a: int, s: CString, t: CString)
    requires StringAt(mem, a, s) && StringAt(mem, a, t)
    ensures s == t
  {
    var n := if |s| < |t| then |s| else |t|;
    assert (s + [0])[n] == mem(a + n) == (t + [0])[n];
    forall j | 0 <= j < n ensures s[j] == t[j] {
      assert (s + [0])[j] == mem(a + j) == (t + [0])[j];
    }
  }

  function Write(mem: Memory, a: int, s: seq<Byte>): Memory {
    x => if a <= x < a + |s| then s[x - a] else mem(x)
  }

  /** PushBuffer. A failing CopyToUser aborts the emulator, so the stack has room. */
  method PushBuffer(m: Machine, s: seq<Byte>) returns (p: U64)
    requires |s| <= m.sp
    modifies m`sp, m`mem
    ensures p == m.sp == old(m.sp) - |s| && Holds(m.mem, p, s)
    ensures forall a: int, t: seq<Byte> :: a >= old(m.sp) && Holds(old(m.mem), a, t) ==> Holds(m.mem, a, t)
  {
    m.sp := m.sp - |s|;
    m.mem := Write(m.mem, m.sp, s);
    p := m.sp;
  }

  /** PushString. */
  method PushString(m: Machine, s: Option<CString>) returns (p: U64)
    requires Size(s) <= m.sp
    modifies m`sp, m`mem
    ensures m.sp == old(m.sp) - Size(s) && OptionAt(m.mem, p, s) && (s.Some? ==> p >= m.sp)
    ensures forall a: int, t: seq<Byte> :: a >= old(m.sp) && Holds(old(m.mem), a, t) ==> Holds(m.mem, a, t)
  {
    match s
    case None => p := 0;
    case Some(t) => p := PushBuffer(m, t + [0]);
  }

  function Size(s: Option<CString>): nat {
    match s
    case None => 0
    case Some(t) => |t| + 1
  }

  function Sizes(s: seq<CString>): nat {
    SizesFrom(s, 0)
  }

  /** Bytes taken by s[i..] with their terminators. */
  function SizesFrom(s: seq<CString>, i: nat): nat
    requires i <= |s|
    decreases |s| - i
  {
    if i == |s| then 0 else |s[i]| + 1 + SizesFrom(s, i + 1)
  }

  /** The malloc'd block of words, filled from its end through the pointer p. */
  class WordBlock {
    const words: array<U64>
    var p: nat

    ghost predicate Valid()
      reads this
    {
      p <= words.Length
    }

    ghost function Filled(): seq<U64>
      requires Valid()
      reads this, words
    {
      words[p..]
    }

    constructor (n: nat)
      ensures Valid() && fresh(words) && p == words.Length == n && Filled() == []
    {
      words := new U64[n];
      p := n;
    }

    /** *--p = w */
    method Push(w: U64)
      requires Valid() && p > 0
      modifies this, words
      ensures Valid() && p == old(p) - 1 && Filled() == [w] + old(Filled())
    {
      p := p - 1;
      words[p] := w;
    }
  }

  /** A vector entry in front of the others. */
  function Aux(k: U64, v: U64, rest: seq<U64>): seq<U64> {
    [k, v] + rest
  }

  /** PUSH_AUXV */
  method PushAux(b: WordBlock, k: U64, v: U64)
    requires b.Valid() && b.p >= 2
    modifies b, b.words
    ensures b.Valid() && b.p == old(b.p) - 2 && b.Filled() == Aux(k, v, old(b.Filled()))
  {
    b.Push(v);
    b.Push(k);
  }

  ghost predicate StringsAt(mem: Memory, lo: int, ps: seq<U64>, strs: seq<CString>) {
    |ps| == |strs| && forall i | 0 <= i < |ps| :: ps[i] >= lo && StringAt(mem, ps[i], strs[i])
  }

  /** for (*--p = 0, i = n; i--;) *--p = PushString(m, strs[i]) */
  method PushStrings(m: Machine, b: WordBlock, strs: seq<CString>) returns (ghost ps: seq<U64>)
    requires b.Valid() && b.p >= |strs| + 1 && Sizes(strs) <= m.sp
    modifies m`sp, m`mem, b, b.words
    ensures m.sp == old(m.sp) - Sizes(strs) && StringsAt(m.mem, m.sp, ps, strs)
    ensures b.Valid() && b.p == old(b.p) - |strs| - 1 && b.Filled() == ps + [0] + old(b.Filled())
    ensures forall a: int, t: seq<Byte> :: a >= old(m.sp) && Holds(old(m.mem), a, t) ==> Holds(m.mem, a, t)
  {
    hide Holds;
    ghost var before := b.Filled();
    b.Push(0);
    ps := [];
    var i := |strs|;
    assert strs[i..] == [];
    while i > 0
      invariant 0 <= i <= |strs| && b.Valid() && b.p == old(b.p) - (|strs| - i) - 1
      invariant m.sp == old(m.sp) - SizesFrom(strs, i)
      invariant StringsAt(m.mem, m.sp, ps, strs[i..])
      invariant b.Filled() == ps + [0] + before
      invariant forall a: int, t: seq<Byte> :: a >= old(m.sp) && Holds(old(m.mem), a, t) ==> Holds(m.mem, a, t)
    {
      i := i - 1;
      SizesBelow(strs, i);
      var p := PushString(m, Some(strs[i]));
      StringsPrepend(m.mem, m.sp, p, strs[i], ps, strs[i + 1..]);
      b.Push(p);
      assert strs[i..] == [strs[i]] + strs[i + 1..];
      ps := [p] + ps;
    }
    assert strs[0..] == strs;
  }

  lemma StringsPrepend(mem: Memory, lo: int, p: U64, s: CString, ps: seq<U64>, strs: seq<CString>)
    requires p >= lo && StringAt(mem, p, s) && StringsAt(mem, lo, ps, strs)
    ensures StringsAt(mem, lo, [p] + ps, [s] + strs)
  {
  }

  lemma {:induction false} SizesBelow(strs: seq<CString>, i: nat)
    requires i <= |strs|
    ensures SizesFrom(strs, i) <= Sizes(strs)
    decreases i
  {
    if i > 0 { SizesBelow(strs, i - 1); }
  }

  // ----- the block of words, as the ABI reads it -----

  function Encode(ws: seq<U64>): (s: seq<Byte>)
    ensures |s| == 8 * |ws|
  {
    if ws == [] then [] else LeBytes(ws[0], 8) + Encode(ws[1..])
  }

  /** The 64-bit word at a. */
  function Read64(mem: Memory, a: int): nat {
    LeValue(Peek(mem, a, 8))
  }

  function Peek(mem: Memory, a: int, n: nat): (s: seq<Byte>)
    ensures |s| == n && forall j | 0 <= j < n :: s[j] == mem(a + j)
  {
    seq(n, j requires 0 <= j < n => mem(a + j))
  }

  lemma {:induction false} EncodedWordAt(mem: Memory, a: int, ws: seq<U64>, i: nat)
    requires Holds(mem, a, Encode(ws)) && i < |ws|
    ensures Read64(mem, a + 8 * i) == ws[i]
    decreases i
  {
    hide LeBytes, LeValue, Read64, Holds;
    HoldsSplit(mem, a, LeBytes(ws[0], 8), Encode(ws[1..]));
    if i == 0 {
      WordAt(mem, a, ws[0]);
    } else {
      EncodedWordAt(mem, a + 8, ws[1..], i - 1);
    }
  }

  lemma HoldsSplit(mem: Memory, a: int, s: seq<Byte>, t: seq<Byte>)
    requires Holds(mem, a, s + t)
    ensures Holds(mem, a, s) && Holds(mem, a + |s|, t)
  {
    forall j | 0 <= j < |s| ensures mem(a + j) == s[j] { assert (s + t)[j] == s[j]; }
    forall j | 0 <= j < |t| ensures mem(a + |s| + j) == t[j] { assert (s + t)[|s| + j] == t[j]; }
  }

  lemma WordAt(mem: Memory, a: int, w: U64)
    requires Holds(mem, a, LeBytes(w, 8))
    ensures Read64(mem, a) == w
  {
    assert Peek(mem, a, 8) == LeBytes(w, 8);
    LeRoundTrip(w, 8);
    assert Base(8) == W64;
  }

  // ----- LoadArgv -----

  const AT_PHDR: U64 := 3
  const AT_PHENT: U64 := 4
  const AT_PHNUM: U64 := 5
  const AT_PAGESZ: U64 := 6
  const AT_BASE: U64 := 7
  const AT_ENTRY: U64 := 9
  const AT_UID: U64 := 11
  const AT_EUID: U64 := 12
  const AT_GID: U64 := 13
  const AT_EGID: U64 := 14
  const AT_CLKTCK: U64 := 17
  const AT_SECURE: U64 := 23
  const AT_RANDOM: U64 := 25
  const AT_EXECFN: U64 := 31

  /** System.elf; base 2^64 - 1 stands for -1. */
  datatype Elf = Elf(entry: U64, base: U64, phdr: U64, phent: U64, phnum: U64)

  /** What the host answers about the process. */
  datatype Host = Host(uid: U64, euid: U64, gid: U64, egid: U64, secure: U64, pagesz: U64, clktck: U64)

  /** The vector the ABI reader must find, given where the random bytes and the
      file name were put. */
  function AuxVector(elf: Elf, host: Host, random: U64, execfn: U64): seq<U64> {
    ElfAux(elf, Aux(AT_EXECFN, execfn, Aux(AT_RANDOM, random, HostAux(host))))
  }

  function ElfAux(elf: Elf, rest: seq<U64>): seq<U64> {
    if elf.entry == 0 then rest else
    var phdrs := Aux(AT_PHNUM, elf.phnum, Aux(AT_PHENT, elf.phent, Aux(AT_PHDR, elf.phdr, rest)));
    var entry := Aux(AT_ENTRY, elf.entry, phdrs);
    if elf.base == W64 - 1 then entry else Aux(AT_BASE, elf.base, entry)
  }

  function HostAux(host: Host): seq<U64> {
    Aux(AT_CLKTCK, host.clktck, Aux(AT_PAGESZ, host.pagesz, Aux(AT_SECURE, host.secure, Aux(AT_EGID, host.egid,
      Aux(AT_GID, host.gid, Aux(AT_EUID, host.euid, Aux(AT_UID, host.uid, Aux(0, 0, []))))))))
  }

  function AuxCount(elf: Elf): nat {
    10 + if elf.entry != 0 then (if elf.base != W64 - 1 then 5 else 4) else 0
  }

  /** Stack that LoadArgv needs: strings, random bytes, words, alignment. */
  function Room(execfn: Option<CString>, prog: Option<CString>, args: seq<CString>, vars: seq<CString>): nat {
    Size(execfn) + Size(prog) + Sizes(args) + Sizes(vars) + 16 + 8 * (3 + |args| + |vars| + 30) + 15
  }

  /** How a program reads the vector: pairs up to the one with key 0. */
  function Lookup(aux: seq<U64>, k: U64): Option<U64>
    decreases |aux|
  {
    if |aux| < 2 || aux[0] == 0 then None
    else if aux[0] == k then Some(aux[1])
    else Lookup(aux[2..], k)
  }

  lemma LookupStep(k': U64, v: U64, rest: seq<U64>, k: U64)
    ensures Lookup(Aux(k', v, rest), k) == if k' == 0 then None else if k' == k then Some(v) else Lookup(rest, k)
  {
    assert Aux(k', v, rest)[2..] == rest;
  }

  /** What is found under each of the ABI's key numbers that does not depend on the
      executable. */
  function HostValue(host: Host, random: U64, execfn: U64, k: U64): Option<U64> {
    match k
    case 6 => Some(host.pagesz)
    case 11 => Some(host.uid)
    case 12 => Some(host.euid)
    case 13 => Some(host.gid)
    case 14 => Some(host.egid)
    case 17 => Some(host.clktck)
    case 23 => Some(host.secure)
    case 25 => Some(random)
    case 31 => Some(execfn)
    case _ => None
  }

  lemma LookupHost(host: Host, random: U64, execfn: U64, k: U64)
    ensures Lookup(Aux(AT_EXECFN, execfn, Aux(AT_RANDOM, random, HostAux(host))), k)
         == HostValue(host, random, execfn, k)
  {
    hide Aux, Lookup;
    var end := Aux(0, 0, []);
    var uid := Aux(AT_UID, host.uid, end);
    var euid := Aux(AT_EUID, host.euid, uid);
    var gid := Aux(AT_GID, host.gid, euid);
    var egid := Aux(AT_EGID, host.egid, gid);
    var secure := Aux(AT_SECURE, host.secure, egid);
    var pagesz := Aux(AT_PAGESZ, host.pagesz, secure);
    LookupStep(0, 0, [], k);
    LookupStep(AT_UID, host.uid, end, k);
    LookupStep(AT_EUID, host.euid, uid, k);
    LookupStep(AT_GID, host.gid, euid, k);
    LookupStep(AT_EGID, host.egid, gid, k);
    LookupStep(AT_SECURE, host.secure, egid, k);
    LookupStep(AT_PAGESZ, host.pagesz, secure, k);
    LookupStep(AT_CLKTCK, host.clktck, pagesz, k);
    LookupStep(AT_RANDOM, random, HostAux(host), k);
    LookupStep(AT_EXECFN, execfn, Aux(AT_RANDOM, random, HostAux(host)), k);
  }

  /** Reading the vector finds every value under its key, and nothing else; the
      entries of the executable are there only when it has an entry point. */
  lemma AuxReads(elf: Elf, host: Host, random: U64, execfn: U64, k: U64)
    ensures Lookup(AuxVector(elf, host, random, execfn), k) ==
      if elf.entry != 0 && k == 3 then Some(elf.phdr)
      else if elf.entry != 0 && k == 4 then Some(elf.phent)
      else if elf.entry != 0 && k == 5 then Some(elf.phnum)
      else if elf.entry != 0 && elf.base != W64 - 1 && k == 7 then Some(elf.base)
      else if elf.entry != 0 && k == 9 then Some(elf.entry)
      else HostValue(host, random, execfn, k)
  {
    hide Aux, Lookup, HostAux, HostValue;
    LookupHost(host, random, execfn, k);
    var rest := Aux(AT_EXECFN, execfn, Aux(AT_RANDOM, random, HostAux(host)));
    var phdr := Aux(AT_PHDR, elf.phdr, rest);
    var phent := Aux(AT_PHENT, elf.phent, phdr);
    var phnum := Aux(AT_PHNUM, elf.phnum, phent);
    LookupStep(AT_PHDR, elf.phdr, rest, k);
    LookupStep(AT_PHENT, elf.phent, phdr, k);
    LookupStep(AT_PHNUM, elf.phnum, phent, k);
    LookupStep(AT_ENTRY, elf.entry, phnum, k);
    LookupStep(AT_BASE, elf.base, Aux(AT_ENTRY, elf.entry, phnum), k);
  }

  /** The vector is whole pairs and ends with the pair of zeros. */
  lemma AuxEnds(elf: Elf, host: Host, random: U64, execfn: U64)
    ensures var aux := AuxVector(elf, host, random, execfn);
      && |aux| == 2 * AuxCount(elf) == (if elf.entry == 0 then 20 else if elf.base == W64 - 1 then 28 else 30)
      && aux[|aux| - 2] == 0 == aux[|aux| - 1]
  {
  }

  /** The words below are pushed from the end of the vector towards its start. */
  method PushHostAux(b: WordBlock, host: Host)
    requires b.Valid() && b.Filled() == [] && b.p >= 16
    modifies b, b.words
    ensures b.Valid() && b.p == old(b.p) - 16
    ensures b.Filled() == HostAux(host)
  {
    PushAux(b, 0, 0);
    PushAux(b, AT_UID, host.uid);
    PushAux(b, AT_EUID, host.euid);
    PushAux(b, AT_GID, host.gid);
    PushAux(b, AT_EGID, host.egid);
    PushAux(b, AT_SECURE, host.secure);
    PushAux(b, AT_PAGESZ, host.pagesz);
    PushAux(b, AT_CLKTCK, host.clktck);
  }

  method PushElfAux(b: WordBlock, elf: Elf)
    requires b.Valid() && b.p >= 2 * AuxCount(elf) - 20
    modifies b, b.words
    ensures b.Valid() && b.p == old(b.p) - 2 * AuxCount(elf) + 20
    ensures b.Filled() == ElfAux(elf, old(b.Filled()))
  {
    if elf.entry != 0 {
      PushAux(b, AT_PHDR, elf.phdr);
      PushAux(b, AT_PHENT, elf.phent);
      PushAux(b, AT_PHNUM, elf.phnum);
      PushAux(b, AT_ENTRY, elf.entry);
      if elf.base != W64 - 1 {
        PushAux(b, AT_BASE, elf.base);
      }
    }
  }

  method PushAuxVector(m: Machine, b: WordBlock, elf: Elf, host: Host, execfn: Option<CString>, rng: seq<Byte>)
    returns (random: U64, fname: U64)
    requires |rng| == 16 && Size(execfn) + 16 <= m.sp
    requires b.Valid() && b.Filled() == [] && b.p >= 2 * AuxCount(elf)
    modifies m`sp, m`mem, b, b.words
    ensures m.sp == old(m.sp) - 16 - Size(execfn)
    ensures random >= m.sp && Holds(m.mem, random, rng)
    ensures OptionAt(m.mem, fname, execfn) && (execfn.Some? ==> fname >= m.sp)
    ensures b.Valid() && b.p == old(b.p) - 2 * AuxCount(elf) && b.Filled() == AuxVector(elf, host, random, fname)
    ensures forall a: int, t: seq<Byte> :: a >= old(m.sp) && Holds(old(m.mem), a, t) ==> Holds(m.mem, a, t)
  {
    PushHostAux(b, host);
    random := PushBuffer(m, rng);
    PushAux(b, AT_RANDOM, random);
    fname := PushString(m, execfn);
    PushAux(b, AT_EXECFN, fname);
    PushElfAux(b, elf);
  }

  /** while ((sp - nall * 8) & 15) --sp; sp -= nall * 8 */
  method AlignStack(sp0: U64, nall: nat) returns (sp: U64)
    requires 8 * nall + 15 <= sp0
    ensures sp % 16 == 0 && sp0 - 15 <= sp + 8 * nall <= sp0
  {
    var x: int := sp0;
    while (x - 8 * nall) % 16 != 0
      invariant x <= sp0 && x - (x - 8 * nall) % 16 == sp0 - (sp0 - 8 * nall) % 16
      decreases x
    {
      x := x - 1;
    }
    sp := x - 8 * nall;
  }

  /** Write64 of every word of the block. */
  method Serialize(b: WordBlock) returns (bytes: seq<Byte>)
    requires b.Valid() && b.p == 0
    ensures bytes == Encode(b.Filled())
  {
    var i := 0;
    bytes := [];
    while i < b.words.Length
      invariant 0 <= i <= b.words.Length && bytes == Encode(b.words[..i])
    {
      EncodeSnoc(b.words[..i], b.words[i]);
      assert b.words[..i + 1] == b.words[..i] + [b.words[i]];
      bytes := bytes + LeBytes(b.words[i], 8);
      i := i + 1;
    }
    assert b.words[..i] == b.Filled();
  }

  /** Aligns RSP and copies the finished block to it. */
  method StoreBlock(m: Machine, b: WordBlock)
    requires b.Valid() && b.p == 0 && 8 * b.words.Length + 15 <= m.sp
    modifies m`sp, m`mem
    ensures m.sp % 16 == 0 && m.sp + 8 * b.words.Length <= old(m.sp)
    ensures Holds(m.mem, m.sp, Encode(b.Filled()))
    ensures forall a: int, t: seq<Byte> :: a >= old(m.sp) && Holds(old(m.mem), a, t) ==> Holds(m.mem, a, t)
  {
    var sp := AlignStack(m.sp, b.words.Length);
    m.sp := sp;
    var bytes := Serialize(b);
    m.mem := Write(m.mem, sp, bytes);
  }

  lemma {:induction false} EncodeSnoc(ws: seq<U64>, w: U64)
    ensures Encode(ws + [w]) == Encode(ws) + LeBytes(w, 8)
  {
    if ws == [] {
      assert ws + [w] == [w] && [w][1..] == [];
    } else {
      assert (ws + [w])[1..] == ws[1..] + [w];
      EncodeSnoc(ws[1..], w);
    }
  }

  // ----- reading the stack back -----

  /** Word i of an array of words at a. */
  function Word(mem: Memory, a: int, i: nat): nat {
    Read64(mem, a + 8 * i)
  }

  ghost predicate WordsAt(mem: Memory, a: int, ws: seq<U64>) {
    forall i: nat | i < |ws| :: Word(mem, a, i) == ws[i]
  }

  /** A NULL-terminated array at a points to the given strings. */
  ghost predicate PointersAt(mem: Memory, a: int, lo: int, strs: seq<CString>) {
    && (forall i: nat | i < |strs| :: Word(mem, a, i) >= lo && StringAt(mem, Word(mem, a, i), strs[i]))
    && Word(mem, a, |strs|) == 0
  }

  /** The process stack at sp, as section 3.4.1 of the System V AMD64 ABI lays it
      out. The strings are at or above lo. */
  ghost predicate ProcessStack(mem: Memory, sp: int, lo: int, args: seq<CString>, vars: seq<CString>, aux: seq<U64>) {
    var envp := sp + 8 * (|args| + 2);
    var auxv := envp + 8 * (|vars| + 1);
    && Word(mem, sp, 0) == |args|
    && PointersAt(mem, sp + 8, lo, args)
    && PointersAt(mem, envp, lo, vars)
    && WordsAt(mem, auxv, aux)
  }

  lemma EncodedWords(mem: Memory, a: int, ws: seq<U64>)
    requires Holds(mem, a, Encode(ws))
    ensures WordsAt(mem, a, ws)
  {
    forall i: nat | i < |ws| ensures Word(mem, a, i) == ws[i] {
      EncodedWordAt(mem, a, ws, i);
    }
  }

  lemma SplitWords(mem: Memory, a: int, xs: seq<U64>, ys: seq<U64>)
    requires WordsAt(mem, a, xs + ys)
    ensures WordsAt(mem, a, xs) && WordsAt(mem, a + 8 * |xs|, ys)
  {
    forall i: nat | i < |xs| ensures Word(mem, a, i) == xs[i] {
      assert (xs + ys)[i] == xs[i];
    }
    forall i: nat | i < |ys| ensures Word(mem, a + 8 * |xs|, i) == ys[i] {
      assert Word(mem, a, |xs| + i) == (xs + ys)[|xs| + i];
    }
  }

  lemma SplitPointers(mem: Memory, a: int, lo: int, ps: seq<U64>, strs: seq<CString>, rest: seq<U64>)
    requires WordsAt(mem, a, ps + [0] + rest) && StringsAt(mem, lo, ps, strs)
    ensures PointersAt(mem, a, lo, strs) && WordsAt(mem, a + 8 * (|strs| + 1), rest)
  {
    SplitWords(mem, a, ps + [0], rest);
    assert (ps + [0])[|ps|] == 0;
    forall i: nat | i < |strs| ensures Word(mem, a, i) == ps[i] {
      assert (ps + [0])[i] == ps[i];
    }
  }

  lemma StackReads(mem: Memory, sp: int, lo: int, argv: seq<U64>, envp: seq<U64>,
                   args: seq<CString>, vars: seq<CString>, aux: seq<U64>)
    requires |args| < W64 && WordsAt(mem, sp, [|args|] + (argv + [0] + (envp + [0] + aux)))
    requires StringsAt(mem, lo, argv, args) && StringsAt(mem, lo, envp, vars)
    ensures ProcessStack(mem, sp, lo, args, vars, aux)
  {
    SplitWords(mem, sp, [|args|], argv + [0] + (envp + [0] + aux));
    SplitPointers(mem, sp + 8, lo, argv, args, envp + [0] + aux);
    SplitPointers(mem, sp + 8 * (|args| + 2), lo, envp, vars, aux);
    assert Word(mem, sp, 0) == [|args|][0];
  }

  /** The part of LoadArgv after the auxiliary vector: envp, argv and argc. */
  method PushArrays(m: Machine, b: WordBlock, args: seq<CString>, vars: seq<CString>)
    returns (ghost argv: seq<U64>, ghost envp: seq<U64>)
    requires b.Valid() && b.p == |args| + |vars| + 3 && |args| < W64 && Sizes(args) + Sizes(vars) <= m.sp
    modifies m`sp, m`mem, b, b.words
    ensures m.sp == old(m.sp) - Sizes(args) - Sizes(vars)
    ensures StringsAt(m.mem, m.sp, argv, args) && StringsAt(m.mem, m.sp, envp, vars)
    ensures b.Valid() && b.p == 0 && b.Filled() == [|args|] + (argv + [0] + (envp + [0] + old(b.Filled())))
    ensures forall a: int, t: seq<Byte> :: a >= old(m.sp) && Holds(old(m.mem), a, t) ==> Holds(m.mem, a, t)
  {
    envp := PushStrings(m, b, vars);
    argv := PushStrings(m, b, args);
    b.Push(|args|);
  }

  /** LoadArgv: afterwards an ABI reader at RSP finds exactly what was passed in.
      RSP is aligned, the word block was filled to its start (p came down to 0)
      and ends at or below lo, where the strings begin. */
  method LoadArgv(m: Machine, execfn: Option<CString>, prog: Option<CString>, args: seq<CString>, vars: seq<CString>,
                  rng: seq<Byte>, elf: Elf, host: Host)
    returns (ghost lo: int, ghost random: U64, ghost fname: U64)
    requires |rng| == 16 && Room(execfn, prog, args, vars) <= m.sp
    modifies m`sp, m`mem, m`dx, m`di
    ensures m.sp % 16 == 0 && m.di == 0 && m.sp + 8 * (|args| + |vars| + 3 + 2 * AuxCount(elf)) <= lo
    ensures ProcessStack(m.mem, m.sp, lo, args, vars, AuxVector(elf, host, random, fname))
    ensures random >= lo && Holds(m.mem, random, rng)
    ensures OptionAt(m.mem, fname, execfn) && (execfn.Some? ==> fname >= lo)
    ensures OptionAt(m.mem, m.dx, prog) && (prog.Some? ==> m.dx >= lo)
  {
    hide Holds, AuxVector, ProcessStack, WordsAt, Encode;
    var nall := 1 + |args| + 1 + |vars| + 1 + 2 * AuxCount(elf);
    var b := new WordBlock(nall);
    var dx := PushString(m, prog);
    random, fname := PushAuxVector(m, b, elf, host, execfn, rng);
    ghost var argv, envp := PushArrays(m, b, args, vars);
    lo := m.sp;
    StoreBlock(m, b);
    m.dx := dx;
    m.di := 0;
    EncodedWords(m.mem, m.sp, b.Filled());
    StackReads(m.mem, m.sp, lo, argv, envp, args, vars, AuxVector(elf, host, random, fname));
  }
}
