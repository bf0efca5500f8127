/** Closing many file descriptors while walking their list
    (native/blink/blink/close.c). */
module CloseFds {
  import opened RingList

  /** struct Fd: its number (as u32), and whether its close or closedir callback
      will fail. Its oflags are in OFlags. */
  class Fd {
    const fildes: nat
    const closeFails: bool

    constructor (fildes: nat, closeFails: bool)
      ensures this.fildes == fildes && this.closeFails == closeFails
    {
      this.fildes, this.closeFails := fildes, closeFails;
    }
  }

  /** The oflags words of all descriptors: those with O_CLOEXEC set. */
  class OFlags {
    var cloexec: set<Fd>
  }

  type Elem = Dll<Fd>

  /** The host side of CloseFd: which descriptors were closed, in order. */
  class Host {
    var closed: seq<Fd>

    constructor ()
      ensures closed == []
    {
      closed := [];
    }

    /** CloseFd. */
    method Close(fd: Fd) returns (rc: int)
      modifies this
      ensures closed == old(closed) + [fd]
      ensures rc == if fd.closeFails then -1 else 0
    {
      closed := closed + [fd];
      rc := if fd.closeFails then -1 else 0;
    }
  }

  const EINVAL: int := -1
  const CLOSE_RANGE_CLOEXEC: bv32 := 4

  // ----- what the loops compute, on the first n elements of the list -----

  /** The elements in m, in order. */
  ghost function Within<T>(s: seq<T>, n: nat, m: set<T>): seq<T>
    requires n <= |s|
  {
    if n == 0 then [] else Within(s, n - 1, m) + if s[n - 1] in m then [s[n - 1]] else []
  }

  /** The elements not in m, in order. */
  ghost function Without<T>(s: seq<T>, n: nat, m: set<T>): seq<T>
    requires n <= |s|
  {
    if n == 0 then [] else Without(s, n - 1, m) + if s[n - 1] in m then [] else [s[n - 1]]
  }

  ghost function Containers(s: seq<Elem>, n: nat): seq<Fd>
    requires n <= |s|
  {
    if n == 0 then [] else Containers(s, n - 1) + [s[n - 1].container]
  }

  /** rc |= r for return codes 0 and -1. */
  function OrRc(rc: int, r: int): int {
    if rc == -1 || r == -1 then -1 else 0
  }

  ghost function CloseRc(s: seq<Elem>, n: nat): int
    requires n <= |s|
  {
    if n == 0 then 0 else OrRc(CloseRc(s, n - 1), if s[n - 1].container.closeFails then -1 else 0)
  }

  lemma {:induction false} CloseRcIs(s: seq<Elem>, n: nat)
    requires n <= |s|
    ensures CloseRc(s, n) == if exists i | 0 <= i < n :: s[i].container.closeFails then -1 else 0
  {
    if n > 0 { CloseRcIs(s, n - 1); }
  }

  lemma {:induction false} Partition<T>(s: seq<T>, n: nat, m: set<T>)
    requires n <= |s|
    ensures forall x :: x in Within(s, n, m) <==> x in s[..n] && x in m
    ensures forall x :: x in Without(s, n, m) <==> x in s[..n] && x !in m
    ensures |Within(s, n, m)| + |Without(s, n, m)| == n
  {
    if n > 0 {
      Partition(s, n - 1, m);
      assert s[..n] == s[..n - 1] + [s[n - 1]];
    }
  }

  /** Both parts keep the order of the list. */
  lemma {:induction false} PartsInOrder<T>(s: seq<T>, n: nat, m: set<T>)
    requires n <= |s|
    ensures InOrderOf(Within(s, n, m), s, n) && InOrderOf(Without(s, n, m), s, n)
  {
    if n > 0 {
      PartsInOrder(s, n - 1, m);
      InOrderGrows(Within(s, n - 1, m), s, n);
      InOrderGrows(Without(s, n - 1, m), s, n);
    }
  }

  /** Any two of the part come from two positions below n in the same order. */
  ghost predicate InOrderOf<T>(part: seq<T>, s: seq<T>, n: nat)
    requires n <= |s|
  {
    (forall x | x in part :: x in s[..n]) && forall i, j | 0 <= i < j < |part| :: Before(s, n, part[i], part[j])
  }

  ghost predicate Before<T>(s: seq<T>, n: nat, x: T, y: T)
    requires n <= |s|
  {
    exists a, b :: 0 <= a < b < n && s[a] == x && s[b] == y
  }

  lemma BeforeGrows<T>(s: seq<T>, n: nat, x: T)
    requires 0 < n <= |s|
    ensures forall y | Before(s, n - 1, x, y) :: Before(s, n, x, y)
    ensures x in s[..n - 1] ==> Before(s, n, x, s[n - 1])
  {
    if x in s[..n - 1] {
      var a :| 0 <= a < n - 1 && s[..n - 1][a] == x;
      assert s[a] == x;
    }
  }

  lemma InOrderGrows<T>(part: seq<T>, s: seq<T>, n: nat)
    requires 0 < n <= |s| && InOrderOf(part, s, n - 1)
    ensures InOrderOf(part, s, n) && InOrderOf(part + [s[n - 1]], s, n)
  {
    hide Before;
    assert s[..n] == s[..n - 1] + [s[n - 1]];
    forall i | 0 <= i < |part| ensures part[i] in s[..n - 1] && Before(s, n, part[i], s[n - 1]) {
      BeforeGrows(s, n, part[i]);
    }
    forall i, j | 0 <= i < j < |part| ensures Before(s, n, part[i], part[j]) { BeforeGrows(s, n, part[i]); }
  }

  /** Each element is embedded in a descriptor of its own. */
  ghost predicate OwnContainers(s: seq<Elem>) {
    forall i, j | 0 <= i < j < |s| :: s[i].container != s[j].container
  }

  ghost predicate NoRepeats(fds: seq<Fd>) {
    forall i, j | 0 <= i < j < |fds| :: fds[i] != fds[j]
  }

  lemma {:induction false} ContainersAre(s: seq<Elem>, n: nat)
    requires n <= |s|
    ensures |Containers(s, n)| == n && forall i | 0 <= i < n :: Containers(s, n)[i] == s[i].container
  {
    if n > 0 { ContainersAre(s, n - 1); }
  }

  lemma WithinFrom(s: seq<Elem>, n: nat, m: set<Elem>, e: Elem)
    requires n <= |s| && e in Within(s, n, m)
    ensures exists j | 0 <= j < n :: s[j] == e
  {
    hide Within, Without;
    Partition(s, n, m);
    var j :| 0 <= j < n && s[..n][j] == e;
    assert s[j] == e;
  }

  lemma {:induction false} WithinOwns(s: seq<Elem>, n: nat, m: set<Elem>)
    requires n <= |s| && OwnContainers(s)
    ensures OwnContainers(Within(s, n, m))
  {
    if n > 0 {
      WithinOwns(s, n - 1, m);
      var w := Within(s, n - 1, m);
      forall i | 0 <= i < |w| ensures w[i].container != s[n - 1].container {
        WithinFrom(s, n - 1, m, w[i]);
      }
    }
  }

  lemma InPart(all: seq<Elem>, m: set<Elem>, e: Elem)
    ensures e in Within(all, |all|, m) <==> e in all && e in m
    ensures e in Without(all, |all|, m) <==> e in all && e !in m
  {
    Partition(all, |all|, m);
    assert all[..|all|] == all;
  }

  lemma Collected(all: seq<Elem>, m: set<Elem>, e: Elem)
    requires OwnContainers(all) && e in all
    ensures var w := Within(all, |all|, m);
      e in m <==> e.container in Containers(w, |w|)
  {
    hide Within, Without, Containers, OwnContainers;
    var w := Within(all, |all|, m);
    var closed := Containers(w, |w|);
    ContainersAre(w, |w|);
    InPart(all, m, e);
    if e in m {
      var i :| 0 <= i < |w| && w[i] == e;
      assert closed[i] == e.container;
    }
    if e.container in closed {
      var i :| 0 <= i < |closed| && closed[i] == e.container;
      assert w[i] in w;
      InPart(all, m, w[i]);
      SameElement(all, w[i], e);
    }
  }

  /** The descriptors of the collected elements are those of the matching ones, each
      once, and no element that is kept has one of them. */
  lemma ClosedOnce(all: seq<Elem>, m: set<Elem>)
    requires OwnContainers(all)
    ensures var w := Within(all, |all|, m);
      && NoRepeats(Containers(w, |w|))
      && (forall e | e in all :: e in m <==> e.container in Containers(w, |w|))
      && (forall e | e in Without(all, |all|, m) :: e.container !in Containers(w, |w|))
  {
    hide Within, Without, Containers;
    var w := Within(all, |all|, m);
    WithinOwns(all, |all|, m);
    ContainersAre(w, |w|);
    forall e | e in all ensures e in m <==> e.container in Containers(w, |w|) {
      Collected(all, m, e);
    }
    forall e | e in Without(all, |all|, m) ensures e.container !in Containers(w, |w|) {
      InPart(all, m, e);
      Collected(all, m, e);
    }
  }

  lemma SameElement(all: seq<Elem>, d: Elem, e: Elem)
    requires OwnContainers(all) && d in all && e in all && d.container == e.container
    ensures d == e
  {
    var i :| 0 <= i < |all| && all[i] == d;
    var j :| 0 <= j < |all| && all[j] == e;
  }

  /** One round of CloseFds: takes the first descriptor off and closes it. */
  method CloseFirst(fds: List<Fd>, e: Elem, host: Host, rc0: int) returns (e2: Dll?<Fd>, rc: int)
    requires fds.Valid() && fds.elems != [] && fds.elems[0] == e
    modifies fds, Nodes(fds.elems), host
    ensures fds.Valid() && fds.elems == old(fds.elems)[1..] && Nodes(fds.elems) <= old(Nodes(fds.elems))
    ensures e2 == if |old(fds.elems)| > 1 then old(fds.elems)[1] else null
    ensures host.closed == old(host.closed) + [e.container]
    ensures rc == OrRc(rc0, if e.container.closeFails then -1 else 0)
  {
    hide Ring;
    NextPrevInverse(fds.elems, e);
    e2 := fds.Next(e, 0);
    fds.Remove(e, 0);
    var r := host.Close(e.container);
    rc := OrRc(rc0, r);
  }

  /** CloseFds: closes every descriptor once, in order, and empties the list. */
  method CloseAll(fds: List<Fd>, host: Host) returns (rc: int)
    requires fds.Valid()
    modifies fds, Nodes(fds.elems), host
    ensures fds.Valid() && fds.elems == []
    ensures var all := old(fds.elems);
      && host.closed == old(host.closed) + Containers(all, |all|)
      && rc == CloseRc(all, |all|)
  {
    hide Ring;
    rc := 0;
    ghost var all, i := fds.elems, 0;
    var e := fds.First();
    while e != null
      invariant 0 <= i <= |all| && fds.Valid() && fds.elems == all[i..] && Nodes(fds.elems) <= Nodes(all)
      invariant e == if i < |all| then all[i] else null
      invariant host.closed == old(host.closed) + Containers(all, i)
      invariant rc == CloseRc(all, i)
      decreases |all| - i
    {
      e, rc := CloseFirst(fds, e, host, rc);
      i := i + 1;
    }
  }

  /** dll_remove from one list, dll_make_last into another. */
  method Move(list: List<Fd>, fds: List<Fd>, e: Elem, ghost k: nat)
    requires list != fds && list.Valid() && fds.Valid() && Nodes(fds.elems) !! Nodes(list.elems)
    requires k < |list.elems| && list.elems[k] == e
    modifies list, fds, Nodes(list.elems), Nodes(fds.elems)
    ensures list.Valid() && fds.Valid() && Nodes(fds.elems) !! Nodes(list.elems)
    ensures Nodes(list.elems) + Nodes(fds.elems) == old(Nodes(list.elems) + Nodes(fds.elems))
    ensures list.elems == old(list.elems)[..k] + old(list.elems)[k + 1..]
    ensures fds.elems == old(fds.elems) + [e]
  {
    NextPrevInverse(list.elems, e);
    list.Remove(e, k);
    fds.MakeLast(e, [e]);
  }

  /** The list when the loop stands at element i: what it kept, and what is ahead. */
  ghost function Rest<T>(all: seq<T>, i: nat, m: set<T>): seq<T>
    requires i <= |all|
  {
    Without(all, i, m) + all[i..]
  }

  /** How one round advances the split of the list. */
  lemma RoundSplits<T>(all: seq<T>, i: nat, m: set<T>)
    requires i < |all|
    ensures var k, s := |Without(all, i, m)|, Rest(all, i, m);
      && k < |s| && s[k] == all[i]
      && (k + 1 < |s| <==> i + 1 < |all|) && (i + 1 < |all| ==> s[k + 1] == all[i + 1])
      && Rest(all, i + 1, m) == (if all[i] in m then s[..k] + s[k + 1..] else s)
      && Within(all, i + 1, m) == if all[i] in m then Within(all, i, m) + [all[i]] else Within(all, i, m)
  {
  }

  lemma RoundsEnd<T>(all: seq<T>, m: set<T>)
    ensures Within(all, 0, m) == [] && Rest(all, 0, m) == all && Rest(all, |all|, m) == Without(all, |all|, m)
  {
  }

  /** One round of the collecting loops: steps past e, taking it off if asked. */
  method Round(list: List<Fd>, fds: List<Fd>, e: Elem, take: bool,
               ghost all: seq<Elem>, ghost i: nat, ghost m: set<Elem>)
    returns (e2: Dll?<Fd>)
    requires list != fds && list.Valid() && fds.Valid() && Nodes(fds.elems) !! Nodes(list.elems)
    requires i < |all| && e == all[i] && (take <==> e in m)
    requires list.elems == Rest(all, i, m) && fds.elems == Within(all, i, m)
    modifies list, fds, Nodes(list.elems), Nodes(fds.elems)
    ensures list.Valid() && fds.Valid() && Nodes(fds.elems) !! Nodes(list.elems)
    ensures Nodes(list.elems) + Nodes(fds.elems) == old(Nodes(list.elems) + Nodes(fds.elems))
    ensures e2 == if i + 1 < |all| then all[i + 1] else null
    ensures list.elems == Rest(all, i + 1, m) && fds.elems == Within(all, i + 1, m)
  {
    hide Ring, Rest, Within, Without;
    RoundSplits(all, i, m);
    ghost var k := |Without(all, i, m)|;
    e2 := list.Next(e, k);
    if take {
      Move(list, fds, e, k);
    }
  }

  /** The elements whose descriptor has O_CLOEXEC. */
  ghost function CloexecIn(all: seq<Elem>, cloexec: set<Fd>): (m: set<Elem>)
    ensures forall e | e in all :: e in m <==> e.container in cloexec
  {
    set e | e in all && e.container in cloexec
  }

  /** SysCloseExec: keeps the other descriptors in order, closes these in order. */
  method SysCloseExec(list: List<Fd>, flags: OFlags, host: Host)
    requires list.Valid()
    modifies list, Nodes(list.elems), host
    ensures list.Valid()
    ensures var all, m := old(list.elems), CloexecIn(old(list.elems), old(flags.cloexec));
      && list.elems == Without(all, |all|, m)
      && host.closed == old(host.closed) + Containers(Within(all, |all|, m), |Within(all, |all|, m)|)
  {
    var fds := new List<Fd>();
    CollectCloexec(list, fds, flags.cloexec);
    var _ := CloseAll(fds, host);
  }

  method CollectCloexec(list: List<Fd>, fds: List<Fd>, cloexec: set<Fd>)
    requires list != fds && list.Valid() && fds.Valid() && fds.elems == []
    modifies list, fds, Nodes(list.elems)
    ensures list.Valid() && fds.Valid() && Nodes(fds.elems) <= old(Nodes(list.elems))
    ensures Nodes(fds.elems) !! Nodes(list.elems)
    ensures var all, m := old(list.elems), CloexecIn(old(list.elems), cloexec);
      list.elems == Without(all, |all|, m) && fds.elems == Within(all, |all|, m)
  {
    hide Ring, CloexecIn, Within, Without, Rest;
    ghost var all, i := list.elems, 0;
    ghost var m := CloexecIn(all, cloexec);
    RoundsEnd(all, m);
    var e := list.First();
    while e != null
      invariant 0 <= i <= |all| && e == if i < |all| then all[i] else null
      invariant list.Valid() && fds.Valid() && Nodes(fds.elems) !! Nodes(list.elems)
      invariant Nodes(list.elems) + Nodes(fds.elems) == Nodes(all)
      invariant list.elems == Rest(all, i, m)
      invariant fds.elems == Within(all, i, m)
      decreases |all| - i
    {
      var take := e.container in cloexec;
      assert take <==> e in m by { assert all[i] in all; }
      e := Round(list, fds, e, take, all, i, m);
      i := i + 1;
    }
  }

  predicate InRange(fd: Fd, first: nat, last: nat) {
    first <= fd.fildes <= last
  }

  ghost function RangeIn(all: seq<Elem>, first: nat, last: nat): (m: set<Elem>)
    ensures forall e | e in all :: e in m <==> InRange(e.container, first, last)
  {
    set e | e in all && InRange(e.container, first, last)
  }

  method CollectRange(list: List<Fd>, fds: List<Fd>, first: nat, last: nat)
    requires list != fds && list.Valid() && fds.Valid() && fds.elems == []
    modifies list, fds, Nodes(list.elems)
    ensures list.Valid() && fds.Valid() && Nodes(fds.elems) <= old(Nodes(list.elems))
    ensures Nodes(fds.elems) !! Nodes(list.elems)
    ensures var all, m := old(list.elems), RangeIn(old(list.elems), first, last);
      list.elems == Without(all, |all|, m) && fds.elems == Within(all, |all|, m)
  {
    hide Ring, RangeIn, Within, Without, Rest;
    ghost var all, i := list.elems, 0;
    ghost var m := RangeIn(all, first, last);
    RoundsEnd(all, m);
    var e := list.First();
    while e != null
      invariant 0 <= i <= |all| && e == if i < |all| then all[i] else null
      invariant list.Valid() && fds.Valid() && Nodes(fds.elems) !! Nodes(list.elems)
      invariant Nodes(list.elems) + Nodes(fds.elems) == Nodes(all)
      invariant list.elems == Rest(all, i, m)
      invariant fds.elems == Within(all, i, m)
      decreases |all| - i
    {
      var take := InRange(e.container, first, last);
      assert take <==> e in m by { assert all[i] in all; }
      e := Round(list, fds, e, take, all, i, m);
      i := i + 1;
    }
  }

  /** SysCloseRangeCloexec. */
  method SysCloseRangeCloexec(list: List<Fd>, flags: OFlags, first: nat, last: nat)
    requires list.Valid()
    modifies flags
    ensures flags.cloexec == old(flags.cloexec) + set e | e in RangeIn(list.elems, first, last) :: e.container
    ensures forall e | e in list.elems ::
      e.container in flags.cloexec <==> e.container in old(flags.cloexec) || first <= e.container.fildes <= last
  {
    ghost var i := 0;
    ghost var all := list.elems;
    var e := list.First();
    while e != null
      invariant 0 <= i <= |all| && e == if i < |all| then all[i] else null
      invariant flags.cloexec ==
        old(flags.cloexec) + set j | 0 <= j < i && InRange(all[j].container, first, last) :: all[j].container
      decreases |all| - i
    {
      if InRange(e.container, first, last) && e.container !in flags.cloexec {
        flags.cloexec := flags.cloexec + {e.container};
      }
      e := list.Next(e, i);
      i := i + 1;
    }
  }

  /** SysCloseRange. */
  method SysCloseRange(list: List<Fd>, flags: OFlags, host: Host, first: nat, last: nat, bits: bv32) returns (rc: int)
    requires list.Valid()
    modifies list, Nodes(list.elems), flags, host
    ensures list.Valid()
    ensures var all, m := old(list.elems), RangeIn(old(list.elems), first, last);
      var closes := Within(all, |all|, m);
      if bits & !CLOSE_RANGE_CLOEXEC != 0 || first > last then
        rc == EINVAL && list.elems == all && flags.cloexec == old(flags.cloexec) && host.closed == old(host.closed)
      else if bits & CLOSE_RANGE_CLOEXEC != 0 then
        && rc == 0 && list.elems == all && host.closed == old(host.closed)
        && flags.cloexec == old(flags.cloexec) + set e | e in m :: e.container
      else
        && list.elems == Without(all, |all|, m) && flags.cloexec == old(flags.cloexec)
        && host.closed == old(host.closed) + Containers(closes, |closes|) && rc == CloseRc(closes, |closes|)
    ensures forall e | e in list.elems :: e in old(list.elems)
    ensures bits == 0 && first <= last ==> forall e | e in old(list.elems) ::
      e in list.elems <==> e.container.fildes < first || last < e.container.fildes
    ensures bits == 0 && first <= last && OwnContainers(old(list.elems)) ==> forall e | e in old(list.elems) ::
      e.container in host.closed[|old(host.closed)|..] <==> first <= e.container.fildes <= last
    ensures bits == 4 && first <= last ==> forall e | e in list.elems ::
      e.container in flags.cloexec <==> e.container in old(flags.cloexec) || first <= e.container.fildes <= last
  {
    hide Ring, RangeIn, Within, Without, Containers, OwnContainers;
    NoBits();
    if bits & !CLOSE_RANGE_CLOEXEC != 0 || first > last { return EINVAL; }
    if bits & CLOSE_RANGE_CLOEXEC != 0 {
      SysCloseRangeCloexec(list, flags, first, last);
      return 0;
    }
    var fds := new List<Fd>();
    CollectRange(list, fds, first, last);
    rc := CloseAll(fds, host);
    RangeMeans(old(list.elems), first, last);
  }

  lemma NoBits()
    ensures (0 as bv32) & !CLOSE_RANGE_CLOEXEC == 0 && (0 as bv32) & CLOSE_RANGE_CLOEXEC == 0
    ensures (4 as bv32) & !CLOSE_RANGE_CLOEXEC == 0 && (4 as bv32) & CLOSE_RANGE_CLOEXEC != 0
  {
  }

  /** Which elements a range leaves, and which descriptors it closes. */
  lemma RangeMeans(all: seq<Elem>, first: nat, last: nat)
    ensures var m := RangeIn(all, first, last);
      && (forall e :: e in Without(all, |all|, m) <==> e in all && !(first <= e.container.fildes <= last))
      && (OwnContainers(all) ==> forall e | e in all ::
            e.container in Containers(Within(all, |all|, m), |Within(all, |all|, m)|)
            <==> first <= e.container.fildes <= last)
  {
    hide Within, Without, Containers, OwnContainers;
    var m := RangeIn(all, first, last);
    forall e ensures e in Without(all, |all|, m) <==> e in all && !(first <= e.container.fildes <= last) {
      InPart(all, m, e);
    }
    if OwnContainers(all) { ClosedOnce(all, m); }
  }

  /** Marking a range close-on-exec adds exactly its elements to the marked ones. */
  lemma MarkedIn(all: seq<Elem>, cloexec: set<Fd>, first: nat, last: nat)
    ensures var marked := cloexec + set e | e in RangeIn(all, first, last) :: e.container;
      CloexecIn(all, marked) == CloexecIn(all, cloexec) + RangeIn(all, first, last)
  {
  }

  lemma MarkedMeans(all: seq<Elem>, cloexec: set<Fd>, first: nat, last: nat)
    ensures var m := CloexecIn(all, cloexec) + RangeIn(all, first, last);
      && (forall e :: e in Without(all, |all|, m) <==>
            e in all && e.container !in cloexec && !(first <= e.container.fildes <= last))
      && (OwnContainers(all) ==> forall e | e in all ::
            e.container in Containers(Within(all, |all|, m), |Within(all, |all|, m)|)
            <==> e.container in cloexec || first <= e.container.fildes <= last)
  {
    hide Within, Without, Containers, OwnContainers;
    var m := CloexecIn(all, cloexec) + RangeIn(all, first, last);
    forall e ensures e in Without(all, |all|, m) <==>
      e in all && e.container !in cloexec && !(first <= e.container.fildes <= last)
    {
      InPart(all, m, e);
    }
    if OwnContainers(all) { ClosedOnce(all, m); }
  }

  lemma EmptyRange(all: seq<Elem>, m: set<Elem>, first: nat, last: nat)
    ensures first > last ==> m + RangeIn(all, first, last) == m
  {
  }

  lemma ForCloexec()
    ensures CLOSE_RANGE_CLOEXEC & !CLOSE_RANGE_CLOEXEC == 0 && CLOSE_RANGE_CLOEXEC & CLOSE_RANGE_CLOEXEC != 0
  {
  }

  /** close_range with the cloexec flag and then an exec: what was marked before is
      closed together with the range, each once and in order, and exactly the rest
      stays open. */
  method CloexecThenExec(list: List<Fd>, flags: OFlags, host: Host, first: nat, last: nat) returns (rc: int)
    requires list.Valid()
    modifies list, Nodes(list.elems), flags, host
    ensures list.Valid() && rc == if first > last then EINVAL else 0
    ensures var all := old(list.elems);
      var m := CloexecIn(all, old(flags.cloexec)) + RangeIn(all, first, last);
      && list.elems == Without(all, |all|, m)
      && host.closed == old(host.closed) + Containers(Within(all, |all|, m), |Within(all, |all|, m)|)
    ensures forall e | e in list.elems :: e in old(list.elems)
    ensures forall e | e in old(list.elems) :: e in list.elems <==>
      e.container !in old(flags.cloexec) && (e.container.fildes < first || last < e.container.fildes)
    ensures OwnContainers(old(list.elems)) ==> forall e | e in old(list.elems) ::
      e.container in host.closed[|old(host.closed)|..]
      <==> e.container in old(flags.cloexec) || first <= e.container.fildes <= last
  {
    hide Ring, CloexecIn, RangeIn, Within, Without, Containers;
    MarkedIn(list.elems, flags.cloexec, first, last);
    EmptyRange(list.elems, CloexecIn(list.elems, flags.cloexec), first, last);
    ForCloexec();
    rc := SysCloseRange(list, flags, host, first, last, CLOSE_RANGE_CLOEXEC);
    SysCloseExec(list, flags, host);
    MarkedMeans(old(list.elems), old(flags.cloexec), first, last);
  }
}
