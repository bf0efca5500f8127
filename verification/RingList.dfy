/** The intrusive circular list of native/blink/blink/dll.c and dll.h. A list is
    a pointer to its last element; the last element's `next` is the first. The
    structure that embeds an element (DLL_CONTAINER) is its constant `container`. */
module RingList {

  class Dll<T> {
    const container: T
    var next: Dll<T>
    var prev: Dll<T>

    /** dll_init on fresh memory. */
    constructor (t: T)
      ensures container == t && next == this && prev == this
      ensures Ring([this])
    {
      container, next, prev := t, this, this;
    }
  }

  /** The objects that make up s, for reads and modifies clauses. */
  ghost function Nodes<T>(s: seq<Dll<T>>): (r: set<object>)
    ensures forall i | 0 <= i < |s| :: s[i] in r
  {
    set x: Dll<T> | x in s
  }

  ghost predicate Distinct<T>(s: seq<Dll<T>>) {
    forall i, j | 0 <= i < j < |s| :: s[i] != s[j]
  }

  function After<T>(s: seq<T>, i: nat): T
    requires i < |s|
  {
    if i + 1 < |s| then s[i + 1] else s[0]
  }

  function Before<T>(s: seq<T>, i: nat): T
    requires i < |s|
  {
    if i > 0 then s[i - 1] else s[|s| - 1]
  }

  /** The elements of s, in this order, form one cycle on which next and prev are
      mutually inverse. */
  ghost predicate Ring<T>(s: seq<Dll<T>>)
    reads Nodes(s)
  {
    && |s| > 0 && Distinct(s)
    && forall i | 0 <= i < |s| :: Linked(s, i)
  }

  ghost predicate Linked<T>(s: seq<Dll<T>>, i: nat)
    requires i < |s|
    reads s[i]
  {
    s[i].next == After(s, i) && s[i].prev == Before(s, i)
  }

  /** A ring may be read off starting at any element. */
  lemma RotateRing<T>(s: seq<Dll<T>>, k: nat)
    requires Ring(s) && k <= |s|
    ensures Ring(s[k..] + s[..k])
  {
    var t := s[k..] + s[..k];
    forall i | 0 <= i < |t| ensures Linked(t, i) {
      var j := if i < |s| - k then k + i else i - (|s| - k);
      assert t[i] == s[j] && Linked(s, j);
    }
  }

  /** On a ring, next and prev undo each other. */
  lemma NextPrevInverse<T>(s: seq<Dll<T>>, e: Dll<T>)
    requires Ring(s) && e in s
    ensures e.next in s && e.prev in s && e.next.prev == e && e.prev.next == e
  {
    var i :| 0 <= i < |s| && s[i] == e;
    assert Linked(s, i);
    assert Linked(s, if i + 1 < |s| then i + 1 else 0) && Linked(s, if i > 0 then i - 1 else |s| - 1);
  }

  /** dll_splice_after: elem ends one ring, succ starts another. */
  method SpliceAfter<T>(elem: Dll<T>, succ: Dll<T>, ghost a: seq<Dll<T>>, ghost b: seq<Dll<T>>)
    requires Ring(a) && Ring(b) && a[|a| - 1] == elem && b[0] == succ
    requires Nodes(a) !! Nodes(b)
    modifies elem, elem.next, succ, succ.prev
    ensures Ring(a + b)
  {
    assert Linked(a, 0) && Linked(a, |a| - 1) && Linked(b, 0) && Linked(b, |b| - 1);
    forall i, j | 0 <= i < j < |a + b| ensures (a + b)[i] != (a + b)[j] {
      if i < |a| <= j { assert a[i] in a && b[j - |a|] in b; }
    }
    var tmp1 := elem.next;
    var tmp2 := succ.prev;
    elem.next := succ;
    succ.prev := elem;
    tmp2.next := tmp1;
    tmp1.prev := tmp2;
    forall i | 0 <= i < |a + b| ensures Linked(a + b, i) {
      if i < |a| {
        assert old(Linked(a, i)) && a[i] in a;
        assert (a[i] == elem <==> i == |a| - 1) && (a[i] == tmp1 <==> i == 0);
      } else {
        ghost var j := i - |a|;
        assert old(Linked(b, j)) && b[j] in b && elem in a && tmp1 in a;
        assert (b[j] == succ <==> j == 0) && (b[j] == tmp2 <==> j == |b| - 1);
      }
    }
  }

  class List<T> {
    var last: Dll?<T>
    ghost var elems: seq<Dll<T>>

    ghost predicate Valid()
      reads this, Nodes(elems)
    {
      if elems == [] then last == null else Ring(elems) && last == elems[|elems| - 1]
    }

    constructor ()
      ensures Valid() && elems == []
    {
      last, elems := null, [];
    }

    /** dll_first. */
    function First(): (e: Dll?<T>)
      requires Valid()
      reads this, Nodes(elems)
      ensures e == if elems == [] then null else elems[0]
    {
      assert elems != [] ==> Linked(elems, |elems| - 1);
      if last == null then null else last.next
    }

    /** dll_next. */
    function Next(e: Dll<T>, ghost k: nat): (n: Dll?<T>)
      requires Valid() && k < |elems| && elems[k] == e
      reads this, Nodes(elems), e
      ensures n == if k + 1 < |elems| then elems[k + 1] else null
    {
      assert Linked(elems, k);
      if e != last then e.next else null
    }

    /** dll_prev. */
    function Prev(e: Dll<T>, ghost k: nat): (p: Dll?<T>)
      requires Valid() && k < |elems| && elems[k] == e
      reads this, Nodes(elems), e
      ensures p == if k > 0 then elems[k - 1] else null
    {
      assert Linked(elems, k) && Linked(elems, |elems| - 1);
      if last != null && e != last.next then e.prev else null
    }

    /** dll_remove. */
    method Remove(elem: Dll<T>, ghost k: nat)
      requires Valid() && k < |elems| && elems[k] == elem
      modifies this, elem, elem.next, elem.prev
      ensures Valid() && elems == old(elems[..k] + elems[k + 1..])
      ensures Ring([elem]) && elem.next == elem && elem.prev == elem
      ensures Nodes(elems) == old(Nodes(elems)) - {elem}
    {
      ghost var s := elems;
      ghost var t := s[..k] + s[k + 1..];
      NextPrevInverse(s, elem);
      assert Linked(s, k) && Linked(s, |s| - 1);
      if last == elem {
        if last.prev == last {
          last := null;
        } else {
          last := last.prev;
        }
      }
      elem.next.prev := elem.prev;
      elem.prev.next := elem.next;
      elem.next := elem;
      elem.prev := elem;
      elems := t;
      forall i | 0 <= i < |t| ensures Linked(t, i) {
        ghost var j := if i < k then i else i + 1;
        assert t[i] == s[j] && old(Linked(s, j));
      }
    }

    /** dll_make_first: prepends the ring that starts at elem. */
    method MakeFirst(elem: Dll?<T>, ghost items: seq<Dll<T>>)
      requires Valid() && (if elem == null then items == [] else Ring(items) && items[0] == elem)
      requires Nodes(items) !! Nodes(elems)
      modifies this, Nodes(elems), Nodes(items)
      ensures Valid() && elems == items + old(elems)
    {
      if elem != null {
        assert Linked(items, 0);
        assert elems != [] ==> Linked(elems, |elems| - 1);
        if last == null {
          last := elem.prev;
          assert items + elems == items;
        } else {
          ghost var before := elems;
          assert last in elems && last.next in elems && elem in items && elem.prev in items;
          SpliceAfter(last, elem, elems, items);
          RotateRing(before + items, |before|);
          assert (before + items)[|before|..] + (before + items)[..|before|] == items + before;
        }
        elems := items + elems;
      }
    }

    /** dll_make_last: appends the ring that ends at elem. */
    method MakeLast(elem: Dll?<T>, ghost items: seq<Dll<T>>)
      requires Valid() && (if elem == null then items == [] else Ring(items) && items[|items| - 1] == elem)
      requires Nodes(items) !! Nodes(elems)
      modifies this, Nodes(elems), Nodes(items)
      ensures Valid() && elems == old(elems) + items
    {
      if elem != null {
        ghost var before := elems;
        assert Linked(items, |items| - 1);
        MakeFirst(elem.next, items);
        last := elem;
        RotateRing(items + before, |items|);
        assert (items + before)[|items|..] + (items + before)[..|items|] == before + items;
        elems := before + items;
      }
    }
  }
}
