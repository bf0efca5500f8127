/** Paged directory listing: the getdents64 case of src/browser/kernel-worker.js
    and the walk over the returned records that a C library does. */
module Getdents {
  import opened DirEntries
  import opened LittleEndian
  import opened Words
  import opened Wrappers

  /** A file name as UTF-8 bytes. */
  type Name = s: seq<Byte> | 0 !in s

  type Item = Entry<Name>

  function DType(kind: Kind): Byte {
    match kind
    case Directory => 4
    case Symlink => 10
    case Regular => 8
  }

  /** Size of a record: 19 bytes of header, the name and its NUL, rounded up to 8. */
  function RecLen(n: nat): (r: nat)
    ensures r % 8 == 0 && 19 + n < r <= n + 27
  {
    (19 + n + 1 + 7) / 8 * 8
  }

  function Record(e: Item, i: nat): (s: seq<Byte>)
    ensures |s| == RecLen(|e.name|)
  {
    var r := RecLen(|e.name|);
    LeBytes(i + 1, 8) + LeBytes(i + 2, 8) + LeBytes(r, 2) + [DType(e.kind)] + e.name + Zeros(r - 19 - |e.name|)
  }

  /** The fields of a record, at their offsets: d_ino, d_off, d_reclen, d_type and
      d_name with its NUL and the padding. */
  lemma RecordBytes(e: Item, i: nat)
    ensures var s, n := Record(e, i), |e.name|;
      && |s| == (19 + n + 1 + 7) / 8 * 8
      && (forall j | 0 <= j < 8 :: s[j] == (i + 1) / Base(j) % 256 && s[8 + j] == (i + 2) / Base(j) % 256)
      && s[16] == |s| % 256 && s[17] == |s| / 256 % 256
      && s[18] == (if e.kind == Directory then 4 else if e.kind == Symlink then 10 else 8)
      && s[19..19 + n] == e.name && forall j | 19 + n <= j < |s| :: s[j] == 0
  {
    hide LeBytes, RecLen;
    var s, r := Record(e, i), RecLen(|e.name|);
    RecordHeader(e, i);
    LeBytesAt(r, 2, 0);
    LeBytesAt(r, 2, 1);
    RecLenIs(|e.name|);
    forall j | 0 <= j < 8 ensures s[j] == (i + 1) / Base(j) % 256 && s[8 + j] == (i + 2) / Base(j) % 256 {
      LeBytesAt(i + 1, 8, j);
      LeBytesAt(i + 2, 8, j);
    }
  }

  lemma RecLenIs(n: nat)
    ensures RecLen(n) == (19 + n + 1 + 7) / 8 * 8
  {
  }

  lemma RecordHeader(e: Item, i: nat)
    ensures var s, ino, off, len := Record(e, i), LeBytes(i + 1, 8), LeBytes(i + 2, 8), LeBytes(RecLen(|e.name|), 2);
      && (forall j | 0 <= j < 8 :: s[j] == ino[j] && s[8 + j] == off[j])
      && s[16] == len[0] && s[17] == len[1] && s[18] == DType(e.kind)
      && s[19..19 + |e.name|] == e.name && forall j | 19 + |e.name| <= j < |s| :: s[j] == 0
  {
    hide LeBytes, RecLen, DType;
  }

  function Zeros(n: nat): (s: seq<Byte>)
    ensures |s| == n && forall j | 0 <= j < n :: s[j] == 0
  {
    seq(n, _ => 0)
  }

  /** The records of entries[from..to], one after the other. */
  function Stream(entries: seq<Item>, from: nat, to: nat): seq<Byte>
    requires from <= to <= |entries|
    decreases |entries| - from
  {
    if from == to then [] else Record(entries[from], from) + Stream(entries, from + 1, to)
  }

  /** The first entry whose record no longer fits. */
  function Stop(entries: seq<Item>, from: nat, room: nat): (to: nat)
    requires from <= |entries|
    ensures from <= to <= |entries|
    decreases |entries| - from
  {
    if from == |entries| || RecLen(|entries[from].name|) > room then from
    else Stop(entries, from + 1, room - RecLen(|entries[from].name|))
  }

  /** It is the first one: what is before it fits, and with one record more it would
      not. */
  lemma {:induction false} StopIsLast(entries: seq<Item>, from: nat, room: nat)
    requires from <= |entries|
    ensures var to := Stop(entries, from, room);
      && |Stream(entries, from, to)| <= room
      && (to < |entries| ==> |Stream(entries, from, to + 1)| > room)
    decreases |entries| - from
  {
    hide Record, RecLen;
    if from < |entries| {
      var first := Record(entries[from], from);
      var to := Stop(entries, from, room);
      if |first| <= room {
        StopIsLast(entries, from + 1, room - |first|);
        assert Stream(entries, from, to) == first + Stream(entries, from + 1, to);
        if to < |entries| { assert Stream(entries, from, to + 1) == first + Stream(entries, from + 1, to + 1); }
      } else {
        assert Stream(entries, from, from + 1) == first + Stream(entries, from + 1, from + 1);
      }
    }
  }

  lemma {:induction false} StreamGrows(entries: seq<Item>, from: nat, to: nat)
    requires from <= to < |entries|
    ensures Stream(entries, from, to + 1) == Stream(entries, from, to) + Record(entries[to], to)
    decreases |entries| - from
  {
    hide Record;
    if from < to {
      StreamGrows(entries, from + 1, to);
      assert Stream(entries, from, to + 1)
          == Record(entries[from], from) + (Stream(entries, from + 1, to) + Record(entries[to], to));
    }
  }

  // ----- the system call -----

  function Patched(s: seq<Byte>, a: nat, t: seq<Byte>): (r: seq<Byte>)
    requires a + |t| <= |s|
    ensures |r| == |s|
  {
    s[..a] + t + s[a + |t|..]
  }

  /** TypedArray.set, and the DataView setters on the bytes they encode. */
  method Set(buf: array<Byte>, a: nat, t: seq<Byte>)
    requires a + |t| <= buf.Length
    modifies buf
    ensures buf[..] == Patched(old(buf[..]), a, t)
  {
    forall j | 0 <= j < |t| {
      buf[a + j] := t[j];
    }
  }

  lemma PatchedTwice(s: seq<Byte>, a: nat, t: seq<Byte>, u: seq<Byte>)
    requires a + |t| + |u| <= |s|
    ensures Patched(Patched(s, a, t), a + |t|, u) == Patched(s, a, t + u)
  {
  }

  /** A patch whose end repeats what is there already. */
  lemma PatchedPadding(s: seq<Byte>, a: nat, t: seq<Byte>, n: nat)
    requires a + |t| + n <= |s| && forall j | a + |t| <= j < a + |t| + n :: s[j] == 0
    ensures Patched(s, a, t) == Patched(s, a, t + Zeros(n))
  {
  }

  /** One record, written into a part of the buffer that is still zero. */
  method PutRecord(buf: array<Byte>, off: nat, e: Item, i: nat)
    requires off + RecLen(|e.name|) <= buf.Length
    requires buf[off..] == Zeros(buf.Length - off)
    modifies buf
    ensures buf[..] == Patched(old(buf[..]), off, Record(e, i))
  {
    hide Patched, LeBytes;
    var reclen := RecLen(|e.name|);
    ghost var ino, next, len := LeBytes(i + 1, 8), LeBytes(i + 2, 8), LeBytes(reclen, 2);
    Set(buf, off, LeBytes(i + 1, 8));
    Set(buf, off + 8, LeBytes(i + 2, 8));
    PatchedTwice(old(buf[..]), off, ino, next);
    Set(buf, off + 16, LeBytes(reclen, 2));
    PatchedTwice(old(buf[..]), off, ino + next, len);
    Set(buf, off + 18, [DType(e.kind)]);
    PatchedTwice(old(buf[..]), off, ino + next + len, [DType(e.kind)]);
    Set(buf, off + 19, e.name);
    PatchedTwice(old(buf[..]), off, ino + next + len + [DType(e.kind)], e.name);
    Set(buf, off + 19 + |e.name|, [0]);
    ghost var t := ino + next + len + [DType(e.kind)] + e.name;
    PatchedTwice(old(buf[..]), off, t, [0]);
    ghost var pad := reclen - 19 - |e.name|;
    assert Zeros(pad) == [0] + Zeros(pad - 1);
    assert t + Zeros(pad) == t + [0] + Zeros(pad - 1);
    ZeroTail(old(buf[..]), off);
    PatchedPadding(old(buf[..]), off, t + [0], pad - 1);
  }

  lemma ZeroTail(s: seq<Byte>, a: nat)
    requires a <= |s| && s[a..] == Zeros(|s| - a)
    ensures forall j | a <= j < |s| :: s[j] == 0
  {
    forall j | a <= j < |s| ensures s[j] == 0 {
      assert s[j] == s[a..][j - a];
    }
  }

  class OpenDir {
    var entries: Option<seq<Item>>
    var offset: nat

    constructor ()
      ensures entries == None
    {
      entries, offset := None, 0;
    }

    ghost predicate Valid()
      reads this
    {
      entries.Some? ==> offset <= |entries.value|
    }

    /** The listing a call works on: taken once, when the directory is first read. */
    function Listing(now: seq<Item>): seq<Item>
      reads this
    {
      if entries.Some? then entries.value else now
    }

    function Position(): nat
      reads this
    {
      if entries.Some? then offset else 0
    }
  }

  const EBADF: int := -9

  /** The loop of the call: records into a zeroed buffer, while they fit. */
  method Fill(dir: OpenDir, entries: seq<Item>, tmp: array<Byte>) returns (written: nat)
    requires dir.entries == Some(entries) && dir.offset <= |entries|
    requires tmp[..] == Zeros(tmp.Length)
    modifies dir`offset, tmp
    ensures dir.offset == Stop(entries, old(dir.offset), tmp.Length)
    ensures written <= tmp.Length && tmp[..written] == Stream(entries, old(dir.offset), dir.offset)
  {
    hide Record, Zeros, Patched;
    ghost var start := dir.offset;
    written := 0;
    assert tmp[0..] == tmp[..];
    while dir.offset < |entries|
      invariant start <= dir.offset <= |entries| && written <= tmp.Length
      invariant Stop(entries, dir.offset, tmp.Length - written) == Stop(entries, start, tmp.Length)
      invariant tmp[..written] == Stream(entries, start, dir.offset)
      invariant tmp[written..] == Zeros(tmp.Length - written)
      decreases |entries| - dir.offset
    {
      var entry := entries[dir.offset];
      var reclen := RecLen(|entry.name|);
      if written + reclen > tmp.Length { break; }
      ghost var before := tmp[..];
      PutRecord(tmp, written, entry, dir.offset);
      StreamGrows(entries, start, dir.offset);
      Extended(before, tmp[..], written, Record(entry, dir.offset));
      written := written + reclen;
      dir.offset := dir.offset + 1;
    }
  }

  /** listing is what readdir returns now. A copy to guest memory that does not fit
      throws, which the kernel's handler turns into -1 after the offset has moved. */
  method Getdents64(dir: OpenDir?, listing: seq<Item>, guest: array<Byte>, b: int, c: int) returns (result: int)
    requires dir != null ==> dir.Valid()
    modifies dir, guest
    ensures dir == null ==> result == EBADF && guest[..] == old(guest[..])
    ensures dir != null ==> dir.entries == if old(dir.entries.Some?) then old(dir.entries) else Some(listing)
    ensures dir != null ==>
      && dir.Valid() && dir.entries == Some(old(dir.Listing(listing)))
      && dir.offset == Stop(dir.entries.value, old(dir.Position()), c % W32)
      && var bytes := Stream(dir.entries.value, old(dir.Position()), dir.offset);
      && |bytes| <= c % W32
      && Answered(result, guest[..], old(guest[..]), b % W32, bytes)
  {
    hide Record, Stream, Stop;
    if dir == null {
      return EBADF;
    }
    if dir.entries.None? {
      dir.entries, dir.offset := Some(listing), 0;
    }
    var bufSize, dirpBase := c % W32, b % W32;
    var tmp := new Byte[bufSize](_ => 0);
    assert tmp[..] == Zeros(bufSize);
    var written := Fill(dir, dir.entries.value, tmp);
    if written > 0 {
      if dirpBase + written > guest.Length {
        return -1;
      }
      Set(guest, dirpBase, tmp[..written]);
    }
    result := written;
  }

  /** The bytes at address a and their number; nothing when there are none; -1 when
      they do not fit into guest memory. */
  predicate Answered(result: int, now: seq<Byte>, before: seq<Byte>, a: nat, bytes: seq<Byte>) {
    if bytes == [] then result == 0 && now == before
    else if a + |bytes| > |before| then result == -1 && now == before
    else result == |bytes| && now == Patched(before, a, bytes)
  }

  /** So the answer is -1 exactly when the records do not fit, and byte for byte the
      guest finds them at a, everything else as it was. */
  lemma AnsweredMeans(result: int, now: seq<Byte>, before: seq<Byte>, a: nat, bytes: seq<Byte>)
    requires Answered(result, now, before, a, bytes)
    ensures result == if bytes != [] && a + |bytes| > |before| then -1 else |bytes|
    ensures |now| == |before| && forall j | 0 <= j < |now| ::
      now[j] == if result != -1 && a <= j < a + |bytes| then bytes[j - a] else before[j]
  {
  }

  lemma Extended(before: seq<Byte>, now: seq<Byte>, w: nat, r: seq<Byte>)
    requires w + |r| <= |before| && before[w..] == Zeros(|before| - w) && now == Patched(before, w, r)
    ensures now[..w + |r|] == before[..w] + r && now[w + |r|..] == Zeros(|now| - w - |r|)
  {
  }

  // ----- walking the records -----

  datatype Dirent = Dirent(ino: nat, next: nat, kind: Byte, name: Name)

  /** The string before the first NUL. */
  function CString(s: seq<Byte>): Option<Name> {
    if s == [] then None
    else if s[0] == 0 then Some([])
    else
      var rest := CString(s[1..]);
      if rest.None? then None else Some([s[0]] + rest.value)
  }

  /** Reads records one after the other, d_reclen leading to the next. Fails on a
      record that is misaligned, too short, past the end, or without a NUL. */
  function Walk(s: seq<Byte>): Option<seq<Dirent>>
    decreases |s|
  {
    if s == [] then Some([])
    else if |s| < 20 then None
    else
      var r := LeValue(s[16..18]);
      if r % 8 != 0 || r < 20 || r > |s| then None
      else
        var name, rest := CString(s[19..r]), Walk(s[r..]);
        if name.None? || rest.None? then None
        else Some([Dirent(LeValue(s[..8]), LeValue(s[8..16]), s[18], name.value)] + rest.value)
  }

  /** What the i-th entry should read as. */
  function Expected(e: Item, i: nat): Dirent {
    Dirent((i + 1) % Base(8), (i + 2) % Base(8), DType(e.kind), e.name)
  }

  function AllExpected(entries: seq<Item>, from: nat, to: nat): seq<Dirent>
    requires from <= to <= |entries|
    decreases |entries| - from
  {
    if from == to then [] else [Expected(entries[from], from)] + AllExpected(entries, from + 1, to)
  }

  /** d_reclen is a 16-bit field. */
  predicate LengthFits(e: Item) {
    |e.name| <= 65508
  }

  predicate AllFit(entries: seq<Item>, from: nat, to: nat)
    requires from <= to <= |entries|
  {
    forall i | from <= i < to :: LengthFits(entries[i])
  }

  lemma {:induction false} CStringOf(name: Name, n: nat)
    ensures CString(name + [0] + Zeros(n)) == Some(name)
    decreases |name|
  {
    var s := name + [0] + Zeros(n);
    if name == [] {
      assert s[0] == 0;
    } else {
      assert s[0] == name[0] && s[1..] == name[1..] + [0] + Zeros(n);
      CStringOf(name[1..], n);
      assert name == [name[0]] + name[1..];
    }
  }

  lemma {:induction false} NoCString(s: seq<Byte>)
    requires 0 !in s
    ensures CString(s) == None
    decreases |s|
  {
    if s != [] { NoCString(s[1..]); }
  }

  lemma StoredLength(n: nat)
    ensures LeValue(LeBytes(RecLen(n), 2)) == RecLen(n) % 65536
    ensures RecLen(n) < 65536 <==> n <= 65508
  {
    hide LeValue, LeBytes;
    LeRoundTrip(RecLen(n), 2);
    assert Base(2) == 65536;
  }

  /** The fields of a record at the front of a buffer. */
  lemma RecordFields(e: Item, i: nat, rest: seq<Byte>)
    ensures var s, r := Record(e, i) + rest, RecLen(|e.name|);
      && s[..8] == LeBytes(i + 1, 8) && s[8..16] == LeBytes(i + 2, 8) && s[16..18] == LeBytes(r, 2)
      && s[18] == DType(e.kind) && s[19..r] == e.name + [0] + Zeros(r - 20 - |e.name|) && s[r..] == rest
  {
    hide LeBytes;
    var r := RecLen(|e.name|);
    assert Zeros(r - 19 - |e.name|) == [0] + Zeros(r - 20 - |e.name|);
  }

  lemma WalkStep(s: seq<Byte>)
    requires |s| >= 20
    ensures var r := LeValue(s[16..18]);
      Walk(s) == if r % 8 != 0 || r < 20 || r > |s| || CString(s[19..r]).None? || Walk(s[r..]).None? then None
        else Some([Dirent(LeValue(s[..8]), LeValue(s[8..16]), s[18], CString(s[19..r]).value)] + Walk(s[r..]).value)
  {
    hide LeValue, CString;
  }

  /** A walker that starts at a record reads its entry, and goes on behind it,
      exactly when the length fits the field; otherwise it does not get past it. */
  lemma WalkRecord(e: Item, i: nat, rest: seq<Byte>)
    ensures Walk(Record(e, i) + rest) ==
      if LengthFits(e) && Walk(rest).Some? then Some([Expected(e, i)] + Walk(rest).value) else None
  {
    hide LeBytes, LeValue, Record, Zeros, Walk, CString;
    var s, r := Record(e, i) + rest, RecLen(|e.name|);
    WalkStep(s);
    RecordFields(e, i, rest);
    StoredLength(|e.name|);
    LeRoundTrip(i + 1, 8);
    LeRoundTrip(i + 2, 8);
    if LengthFits(e) {
      CStringOf(e.name, r - 20 - |e.name|);
    } else {
      var stored := r % 65536;
      if 20 <= stored {
        assert s[19..stored] == s[19..r][..stored - 19] == e.name[..stored - 19];
        NoCString(s[19..stored]);
      }
    }
  }

  /** The shortest name that does not fit: its record is stored with length 0, and no
      walker gets past it. */
  lemma LongNameStops(i: nat, rest: seq<Byte>) returns (e: Item)
    ensures |e.name| == 65509 && LeValue(LeBytes(RecLen(|e.name|), 2)) == 0
    ensures Walk(Record(e, i) + rest) == None
  {
    hide LeValue, LeBytes, Walk, Record;
    var name: seq<Byte> := seq(65509, _ => 97);
    e := Entry(name, Regular);
    StoredLength(65509);
    WalkRecord(e, i, rest);
  }

  lemma FitsFirst(entries: seq<Item>, from: nat, to: nat)
    requires from <= to <= |entries|
    ensures AllFit(entries, from, to) <==> from == to || (LengthFits(entries[from]) && AllFit(entries, from + 1, to))
  {
  }

  lemma WalkEmpty()
    ensures Walk([]) == Some([])
  {
  }

  /** Walking the bytes of a call yields its entries, all of them, once and in
      order, exactly when every name is at most 65508 bytes long. */
  lemma {:induction false} WalkExact(entries: seq<Item>, from: nat, to: nat)
    requires from <= to <= |entries|
    ensures Walk(Stream(entries, from, to)) ==
      if AllFit(entries, from, to) then Some(AllExpected(entries, from, to)) else None
    decreases |entries| - from
  {
    hide Record, Expected, LengthFits, Walk, AllFit;
    FitsFirst(entries, from, to);
    WalkEmpty();
    if from < to {
      WalkRecord(entries[from], from, Stream(entries, from + 1, to));
      WalkExact(entries, from + 1, to);
    }
  }

  // ----- a sequence of calls -----

  /** What the calls put into their buffers, one after the other. */
  function Pages(entries: seq<Item>, from: nat, counts: seq<nat>): seq<seq<Byte>>
    requires from <= |entries|
    decreases |counts|
  {
    if counts == [] then []
    else
      var to := Stop(entries, from, counts[0]);
      [Stream(entries, from, to)] + Pages(entries, to, counts[1..])
  }

  function After(entries: seq<Item>, from: nat, counts: seq<nat>): (to: nat)
    requires from <= |entries|
    ensures from <= to <= |entries|
    decreases |counts|
  {
    if counts == [] then from else After(entries, Stop(entries, from, counts[0]), counts[1..])
  }

  function WalkPages(pages: seq<seq<Byte>>): Option<seq<Dirent>> {
    if pages == [] then Some([])
    else
      var first, rest := Walk(pages[0]), WalkPages(pages[1..]);
      if first.None? || rest.None? then None else Some(first.value + rest.value)
  }

  lemma {:induction false} ExpectedConcat(entries: seq<Item>, from: nat, mid: nat, to: nat)
    requires from <= mid <= to <= |entries|
    ensures AllExpected(entries, from, to) == AllExpected(entries, from, mid) + AllExpected(entries, mid, to)
    decreases |entries| - from
  {
    hide Expected;
    if from < mid { ExpectedConcat(entries, from + 1, mid, to); }
  }

  /** Whatever the buffer sizes, the walks of what the calls put together join to the
      entries passed. */
  lemma {:induction false} PagesWalk(entries: seq<Item>, from: nat, counts: seq<nat>)
    requires from <= |entries|
    ensures var to := After(entries, from, counts);
      WalkPages(Pages(entries, from, counts)) ==
        if AllFit(entries, from, to) then Some(AllExpected(entries, from, to)) else None
    decreases |counts|
  {
    hide Walk, Stream, Stop, AllExpected, LengthFits;
    if counts != [] {
      var mid := Stop(entries, from, counts[0]);
      PagesWalk(entries, mid, counts[1..]);
      WalkExact(entries, from, mid);
      ExpectedConcat(entries, from, mid, After(entries, from, counts));
    } else {
      WalkExact(entries, from, from);
      EmptyWalk(entries, from);
    }
  }

  lemma EmptyWalk(entries: seq<Item>, from: nat)
    requires from <= |entries|
    ensures AllExpected(entries, from, from) == []
  {
  }

  /** Each call is given room for the record it starts with. */
  predicate RoomForNext(entries: seq<Item>, from: nat, counts: seq<nat>)
    requires from <= |entries|
    decreases |counts|
  {
    counts == [] || (
      && (from == |entries| || RecLen(|entries[from].name|) <= counts[0])
      && RoomForNext(entries, Stop(entries, from, counts[0]), counts[1..]))
  }

  /** With room for the next record in every call, as many calls as there are entries
      reach the end, and a page is empty only there. */
  lemma {:induction false} PagingEnds(entries: seq<Item>, from: nat, counts: seq<nat>)
    requires from <= |entries| && RoomForNext(entries, from, counts)
    ensures After(entries, from, counts) == |entries| || After(entries, from, counts) >= from + |counts|
    decreases |counts|
  {
    if counts != [] { PagingEnds(entries, Stop(entries, from, counts[0]), counts[1..]); }
  }

  /** An empty answer means the end, or a buffer too small for the next record. */
  lemma EmptyPage(entries: seq<Item>, from: nat, count: nat)
    requires from <= |entries|
    ensures Stream(entries, from, Stop(entries, from, count)) == []
       <==> from == |entries| || RecLen(|entries[from].name|) > count
  {
    hide Record;
  }

  // ----- what reaches the guest -----

  /** The dirp and count arguments of a call. */
  datatype Request = Request(b: int, c: int)

  function Counts(calls: seq<Request>): (counts: seq<nat>)
    ensures |counts| == |calls|
  {
    if calls == [] then [] else [calls[0].c % W32] + Counts(calls[1..])
  }

  /** The copy to guest memory stays inside it; nothing is copied when there is nothing. */
  predicate CopyFits(page: seq<Byte>, b: int, memory: nat) {
    page == [] || b % W32 + |page| <= memory
  }

  /** What the calls return: a page that does not fit guest memory is lost. */
  function Delivered(entries: seq<Item>, from: nat, calls: seq<Request>, memory: nat): seq<seq<Byte>>
    requires from <= |entries|
    decreases |calls|
  {
    if calls == [] then []
    else
      var to := Stop(entries, from, calls[0].c % W32);
      var page := Stream(entries, from, to);
      [if CopyFits(page, calls[0].b, memory) then page else []] + Delivered(entries, to, calls[1..], memory)
  }

  predicate NothingLost(entries: seq<Item>, from: nat, calls: seq<Request>, memory: nat)
    requires from <= |entries|
    decreases |calls|
  {
    calls == [] || (
      var to := Stop(entries, from, calls[0].c % W32);
      CopyFits(Stream(entries, from, to), calls[0].b, memory) && NothingLost(entries, to, calls[1..], memory))
  }

  /** Everything is delivered exactly when every copy fits. */
  lemma {:induction false} DeliveredIff(entries: seq<Item>, from: nat, calls: seq<Request>, memory: nat)
    requires from <= |entries|
    ensures Delivered(entries, from, calls, memory) == Pages(entries, from, Counts(calls))
       <==> NothingLost(entries, from, calls, memory)
    decreases |calls|
  {
    hide Stream, Stop;
    if calls != [] {
      var to := Stop(entries, from, calls[0].c % W32);
      DeliveredIff(entries, to, calls[1..], memory);
      var d, p := Delivered(entries, from, calls, memory), Pages(entries, from, Counts(calls));
      assert d[1..] == Delivered(entries, to, calls[1..], memory) && p[1..] == Pages(entries, to, Counts(calls[1..]));
      assert d == p <==> d[0] == p[0] && d[1..] == p[1..];
    }
  }

  lemma {:induction false} ExpectedLength(entries: seq<Item>, from: nat, to: nat)
    requires from <= to <= |entries|
    ensures |AllExpected(entries, from, to)| == to - from
    decreases |entries| - from
  {
    if from < to { ExpectedLength(entries, from + 1, to); }
  }

  /** A lost page takes its entries with it: what is read is never too long, and too
      short when something was lost. */
  lemma {:induction false} DeliveredLength(entries: seq<Item>, from: nat, calls: seq<Request>, memory: nat)
    requires from <= |entries| && WalkPages(Delivered(entries, from, calls, memory)).Some?
    ensures var n := |WalkPages(Delivered(entries, from, calls, memory)).value|;
      var to := After(entries, from, Counts(calls));
      n <= to - from && (!NothingLost(entries, from, calls, memory) ==> n < to - from)
    decreases |calls|
  {
    hide Walk, Stream, Stop, AllExpected, LengthFits, AllFit;
    if calls != [] {
      var to := Stop(entries, from, calls[0].c % W32);
      var d := Delivered(entries, from, calls, memory);
      assert d[1..] == Delivered(entries, to, calls[1..], memory);
      DeliveredLength(entries, to, calls[1..], memory);
      WalkExact(entries, from, to);
      ExpectedLength(entries, from, to);
      WalkEmpty();
      StreamNotEmpty(entries, from, to);
    }
  }

  lemma StreamNotEmpty(entries: seq<Item>, from: nat, to: nat)
    requires from <= to <= |entries|
    ensures Stream(entries, from, to) == [] <==> from == to
  {
    hide Record;
  }

  /** For any sequence of calls: what the guest reads is each entry passed, once and in
      order, exactly when all their names fit and every copy to guest memory does. */
  lemma PagingExact(entries: seq<Item>, from: nat, calls: seq<Request>, memory: nat)
    requires from <= |entries|
    ensures var to := After(entries, from, Counts(calls));
      WalkPages(Delivered(entries, from, calls, memory)) == Some(AllExpected(entries, from, to))
      <==> AllFit(entries, from, to) && NothingLost(entries, from, calls, memory)
  {
    hide Walk, WalkPages, Delivered, Pages, AllExpected, AllFit, NothingLost;
    var to := After(entries, from, Counts(calls));
    if NothingLost(entries, from, calls, memory) {
      DeliveredIff(entries, from, calls, memory);
      PagesWalk(entries, from, Counts(calls));
    } else if WalkPages(Delivered(entries, from, calls, memory)).Some? {
      DeliveredLength(entries, from, calls, memory);
      ExpectedLength(entries, from, to);
    }
  }

  /** A call whose buffer starts where guest memory ends loses the next entry for good:
      whatever calls follow, they read what they would have read without it. */
  lemma AnswerLost(entries: seq<Item>, from: nat, memory: nat, more: seq<Request>)
    requires from < |entries| && RecLen(|entries[from].name|) < W32 && memory < W32
    ensures var calls := [Request(memory, RecLen(|entries[from].name|))] + more;
      && !NothingLost(entries, from, calls, memory)
      && Delivered(entries, from, calls, memory) == [[]] + Delivered(entries, from + 1, more, memory)
  {
    hide Record, Delivered, NothingLost;
    var calls := [Request(memory, RecLen(|entries[from].name|))] + more;
    assert calls[1..] == more;
    assert Stop(entries, from, RecLen(|entries[from].name|)) == from + 1;
    StreamNotEmpty(entries, from, from + 1);
    DeliveredFirst(entries, from, calls, memory);
  }

  lemma DeliveredFirst(entries: seq<Item>, from: nat, calls: seq<Request>, memory: nat)
    requires from <= |entries| && calls != []
    ensures var to := Stop(entries, from, calls[0].c % W32);
      var fits := CopyFits(Stream(entries, from, to), calls[0].b, memory);
      && Delivered(entries, from, calls, memory)
         == [if fits then Stream(entries, from, to) else []] + Delivered(entries, to, calls[1..], memory)
      && (NothingLost(entries, from, calls, memory) <==> fits && NothingLost(entries, to, calls[1..], memory))
  {
  }

  /** A whole directory is read exactly when the calls reach its end, all names fit and
      every copy does. */
  lemma WholeDirectory(entries: seq<Item>, calls: seq<Request>, memory: nat)
    ensures WalkPages(Delivered(entries, 0, calls, memory)) == Some(AllExpected(entries, 0, |entries|))
       <==> && After(entries, 0, Counts(calls)) == |entries| && AllFit(entries, 0, |entries|)
            && NothingLost(entries, 0, calls, memory)
    ensures |AllExpected(entries, 0, |entries|)| == |entries|
    ensures forall i | 0 <= i < |entries| :: AllExpected(entries, 0, |entries|)[i] == Expected(entries[i], i)
  {
    hide WalkPages, Delivered, AllExpected, AllFit, NothingLost, After, Expected;
    PagingExact(entries, 0, calls, memory);
    ExpectedAt(entries, 0);
    if WalkPages(Delivered(entries, 0, calls, memory)).Some? {
      DeliveredLength(entries, 0, calls, memory);
    }
  }

  // ----- a reader that stops at the first empty answer -----

  function UntilEmpty(pages: seq<seq<Byte>>): seq<seq<Byte>> {
    if pages == [] || pages[0] == [] then [] else [pages[0]] + UntilEmpty(pages[1..])
  }

  /** Up to the end of the directory every call has room for the record it starts with
      and its answer fits guest memory, and there are enough calls. */
  predicate ReachesEnd(entries: seq<Item>, from: nat, calls: seq<Request>, memory: nat)
    requires from <= |entries|
    decreases |calls|
  {
    from == |entries| || (calls != [] && (
      var to := Stop(entries, from, calls[0].c % W32);
      && RecLen(|entries[from].name|) <= calls[0].c % W32
      && CopyFits(Stream(entries, from, to), calls[0].b, memory)
      && ReachesEnd(entries, to, calls[1..], memory)))
  }

  /** A buffer too small for the next record is answered with 0, like the end: a reader
      that stops there has read everything exactly when all names fit and no answer
      before the end was empty for lack of room, or lost. */
  lemma {:induction false} StopsAtEmpty(entries: seq<Item>, from: nat, calls: seq<Request>, memory: nat)
    requires from <= |entries|
    ensures WalkPages(UntilEmpty(Delivered(entries, from, calls, memory)))
         == Some(AllExpected(entries, from, |entries|))
       <==> AllFit(entries, from, |entries|) && ReachesEnd(entries, from, calls, memory)
    decreases |calls|
  {
    hide Walk, Stream, Stop, AllExpected, AllFit, CopyFits;
    ExpectedLength(entries, from, |entries|);
    if calls != [] {
      var to := Stop(entries, from, calls[0].c % W32);
      var page, rest := Stream(entries, from, to), Delivered(entries, to, calls[1..], memory);
      DeliveredFirst(entries, from, calls, memory);
      assert Delivered(entries, from, calls, memory)[1..] == rest;
      EmptyPage(entries, from, calls[0].c % W32);
      StreamNotEmpty(entries, from, to);
      if page != [] && CopyFits(page, calls[0].b, memory) {
        StopsAtEmpty(entries, to, calls[1..], memory);
        assert UntilEmpty([page] + rest) == [page] + UntilEmpty(rest);
        WalkFirst(entries, from, to, UntilEmpty(rest));
      } else {
        AllFitEnd(entries, from);
      }
    } else {
      AllFitEnd(entries, from);
    }
  }

  lemma AllFitEnd(entries: seq<Item>, from: nat)
    requires from <= |entries|
    ensures from == |entries| ==> AllFit(entries, from, |entries|) && AllExpected(entries, from, |entries|) == []
  {
  }

  /** One delivered page in front of others. */
  lemma WalkFirst(entries: seq<Item>, from: nat, to: nat, rest: seq<seq<Byte>>)
    requires from <= to <= |entries|
    ensures WalkPages([Stream(entries, from, to)] + rest) == Some(AllExpected(entries, from, |entries|))
       <==> AllFit(entries, from, to) && WalkPages(rest) == Some(AllExpected(entries, to, |entries|))
    ensures AllFit(entries, from, |entries|) <==> AllFit(entries, from, to) && AllFit(entries, to, |entries|)
  {
    hide Walk, Stream, AllExpected, LengthFits;
    var pages := [Stream(entries, from, to)] + rest;
    assert pages[0] == Stream(entries, from, to) && pages[1..] == rest;
    WalkExact(entries, from, to);
    ExpectedConcat(entries, from, to, |entries|);
    if WalkPages(pages) == Some(AllExpected(entries, from, |entries|)) {
      SameBehind(AllExpected(entries, from, to), WalkPages(rest).value, AllExpected(entries, to, |entries|));
    }
  }

  lemma SameBehind(a: seq<Dirent>, b: seq<Dirent>, c: seq<Dirent>)
    requires a + b == a + c
    ensures b == c
  {
    assert b == (a + b)[|a|..] && c == (a + c)[|a|..];
  }

  /** Given as many calls as entries, and answers that fit, that is exactly room for the
      next record in every call. */
  lemma {:induction false} ReachesEndIff(entries: seq<Item>, from: nat, calls: seq<Request>, memory: nat)
    requires from <= |entries| <= from + |calls| && NothingLost(entries, from, calls, memory)
    ensures ReachesEnd(entries, from, calls, memory) <==> RoomForNext(entries, from, Counts(calls))
    decreases |calls|
  {
    hide Stream, CopyFits;
    if from == |entries| {
      RoomAtEnd(entries, Counts(calls));
    } else {
      var to := Stop(entries, from, calls[0].c % W32);
      assert Counts(calls)[1..] == Counts(calls[1..]);
      if RecLen(|entries[from].name|) <= calls[0].c % W32 { ReachesEndIff(entries, to, calls[1..], memory); }
    }
  }

  lemma {:induction false} RoomAtEnd(entries: seq<Item>, counts: seq<nat>)
    ensures RoomForNext(entries, |entries|, counts)
  {
    if counts != [] { RoomAtEnd(entries, counts[1..]); }
  }

  /** A C library reading a directory: one call after the other, and the bytes each of
      them returned. */
  method ReadPages(dir: OpenDir, listing: seq<Item>, guest: array<Byte>, calls: seq<Request>)
    returns (pages: seq<seq<Byte>>)
    requires dir.Valid()
    modifies dir, guest
    ensures dir.Valid() && dir.Listing(listing) == old(dir.Listing(listing))
    ensures var entries, from := old(dir.Listing(listing)), old(dir.Position());
      && pages == Delivered(entries, from, calls, guest.Length)
      && dir.Position() == After(entries, from, Counts(calls))
  {
    hide Stream, Stop, Delivered, After;
    ghost var entries := dir.Listing(listing);
    pages := [];
    assert calls[0..] == calls;
    for i := 0 to |calls|
      invariant dir.Valid() && dir.Listing(listing) == entries
      invariant pages + Delivered(entries, dir.Position(), calls[i..], guest.Length)
             == Delivered(entries, old(dir.Position()), calls, guest.Length)
      invariant After(entries, dir.Position(), Counts(calls[i..])) == After(entries, old(dir.Position()), Counts(calls))
    {
      var call := calls[i];
      CallFirst(entries, dir.Position(), calls[i..], guest.Length);
      assert calls[i..][1..] == calls[i + 1..];
      var result := Getdents64(dir, listing, guest, call.b, call.c);
      var page := [];
      if result > 0 {
        page := guest[call.b % W32..call.b % W32 + result];
      }
      pages := pages + [page];
    }
    NoCalls(entries, dir.Position(), guest.Length);
    assert calls[|calls|..] == [];
  }

  lemma NoCalls(entries: seq<Item>, from: nat, memory: nat)
    requires from <= |entries|
    ensures Delivered(entries, from, [], memory) == [] && After(entries, from, Counts([])) == from
  {
  }

  lemma CallFirst(entries: seq<Item>, from: nat, calls: seq<Request>, memory: nat)
    requires from <= |entries| && calls != []
    ensures var to := Stop(entries, from, calls[0].c % W32);
      var page := Stream(entries, from, to);
      && Delivered(entries, from, calls, memory)
         == [if CopyFits(page, calls[0].b, memory) then page else []] + Delivered(entries, to, calls[1..], memory)
      && After(entries, from, Counts(calls)) == After(entries, to, Counts(calls[1..]))
  {
    hide Stream, Stop;
    assert Counts(calls)[1..] == Counts(calls[1..]);
  }

  lemma {:induction false} ExpectedAt(entries: seq<Item>, from: nat)
    requires from <= |entries|
    ensures |AllExpected(entries, from, |entries|)| == |entries| - from
    ensures forall i | from <= i < |entries| ::
      AllExpected(entries, from, |entries|)[i - from] == Expected(entries[i], i)
    decreases |entries| - from
  {
    hide Expected;
    if from < |entries| {
      ExpectedAt(entries, from + 1);
      var all, rest := AllExpected(entries, from, |entries|), AllExpected(entries, from + 1, |entries|);
      assert all == [Expected(entries[from], from)] + rest;
      forall i | from <= i < |entries| ensures all[i - from] == Expected(entries[i], i) {
        if i > from { assert all[i - from] == rest[i - (from + 1)]; }
      }
    }
  }
}
