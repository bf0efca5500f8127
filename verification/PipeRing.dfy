/** The shared-memory pipe of src/browser/execution-worker.js: one reading and
    one writing worker, each Atomics operation and each access to the shared
    data array being one step of an interleaving. */
module PipeRing {
  import opened Bits
  import opened Words

  /** Where the reader stands. `seen` and `closedThen` are history: the number of
      bytes published, and the closed flag, when the write position was loaded. */
  datatype ReaderPc =
    | Idle
    | LoopHead
    | HaveWp(wp: nat, seen: nat, closedThen: bool)   // loaded control[0]
    | Empty(wp: nat, seen: nat, closedThen: bool)    // loaded control[1], equal to wp
    | AtWait(wp: nat, seen: nat)                     // about to Atomics.wait
    | Asleep(seen: nat)
    | Fetch(rp: nat)                                 // about to copy data[rp]
    | Publish(rp: nat)                               // about to store control[1]

  /** lens: remaining buffers of the call, the current one first; filled: bytes
      in the current one; result: value returned by the last call. History: bytes
      received before the call, room in all its buffers, closed flag at its start;
      the sizes of all buffers, the full ones and the current one; the number of
      unread bytes that its last comparison of positions found. */
  datatype Reader = Reader(
    pc: ReaderPc, lens: seq<nat>, filled: nat, result: nat, from: nat, asked: nat, closedAtCall: bool,
    sizes: seq<nat>, full: seq<seq<Byte>>, current: seq<Byte>, found: int)

  datatype WriterPc =
    | WIdle
    | WLoopHead
    | WHaveWp(wp: nat)     // loaded control[0]
    | WStore(wp: nat)      // not full, about to store data[wp]
    | WPublish(wp: nat)    // about to store control[0]
    | WNotify

  /** todo: bytes of the call not yet published; written: number published.
      History: all bytes of the call, bytes published before it; the number of free
      slots that its last comparison of positions found. */
  datatype Writer = Writer(pc: WriterPc, todo: seq<Byte>, written: nat, offered: seq<Byte>, from: nat, free: int)

  /** Shared words and array, both workers, and the history: all bytes published
      by the writer, all bytes copied out by the reader, reads completed. */
  datatype State = State(
    wp: nat, rp: nat, closed: bool, data: seq<Byte>,
    reader: Reader, writer: Writer,
    sent: seq<Byte>, received: seq<Byte>, taken: nat)

  datatype Action =
    | Read(count: nat) | Readv(lens: seq<nat>) | ReaderStep | Timeout
    | Write(bytes: seq<Byte>) | Writev(chunks: seq<seq<Byte>>) | WriterStep
    | Close

  function Init(cap: nat): State {
    State(0, 0, false, seq(cap, _ => 0), Reader(Idle, [], 0, 0, 0, 0, false, [], [], [], 0),
          Writer(WIdle, [], 0, [], 0, 0), [], [], 0)
  }

  function Flatten(chunks: seq<seq<Byte>>): seq<Byte> {
    if chunks == [] then [] else chunks[0] + Flatten(chunks[1..])
  }

  function Sum(lens: seq<nat>): nat {
    if lens == [] then 0 else lens[0] + Sum(lens[1..])
  }

  // ----- one step -----

  function StartRead(s: State, lens: seq<nat>): State {
    s.(reader := Reader(LoopHead, lens, 0, 0, |s.received|, Sum(lens), s.closed, lens, [], [], |s.data|))
  }

  function Goto(s: State, pc: ReaderPc): State {
    s.(reader := s.reader.(pc := pc))
  }

  function Return(s: State): State
    requires s.reader.from <= |s.received|
  {
    s.(reader := s.reader.(pc := Idle, result := |s.received| - s.reader.from))
  }

  /** localPipeRead and localPipeReadv. */
  function StepReader(s: State): State
    requires s.reader.from <= |s.received| && |s.data| > 0
  {
    var r := s.reader;
    match r.pc
    case Idle => s
    case LoopHead =>
      if r.lens == [] then Return(s)
      else if r.filled < r.lens[0] then Goto(s, HaveWp(s.wp, |s.sent|, s.closed))
      else s.(reader := r.(lens := r.lens[1..], filled := 0, full := r.full + [r.current], current := []))
    case HaveWp(wp, seen, closedThen) =>
      var next := if s.rp == wp then Empty(wp, seen, closedThen) else Fetch(s.rp);
      s.(reader := r.(pc := next, found := seen - s.taken))
    case Empty(wp, seen, _) =>
      if s.closed || |s.received| > r.from then Return(s) else Goto(s, AtWait(wp, seen))
    case AtWait(wp, seen) =>
      if s.wp == wp then Goto(s, Asleep(seen)) else Goto(s, LoopHead)
    case Asleep(_) => s
    case Fetch(rp) =>
      if rp < |s.data| then
        s.(reader := r.(pc := Publish(rp), current := r.current + [s.data[rp]]), received := s.received + [s.data[rp]])
      else s
    case Publish(rp) =>
      s.(reader := r.(pc := LoopHead, filled := r.filled + 1), rp := (rp + 1) % |s.data|, taken := s.taken + 1)
  }

  function WGoto(s: State, pc: WriterPc): State {
    s.(writer := s.writer.(pc := pc))
  }

  /** localPipeWrite and localPipeWritev. */
  function StepWriter(s: State): State
    requires |s.data| > 0
  {
    var w := s.writer;
    match w.pc
    case WIdle => s
    case WLoopHead => WGoto(s, if w.todo == [] then WNotify else WHaveWp(s.wp))
    case WHaveWp(wp) =>
      var next := if (wp + 1) % |s.data| == s.rp then WNotify else WStore(wp);
      s.(writer := w.(pc := next, free := s.taken + |s.data| - 1 - |s.sent|))
    case WStore(wp) =>
      if wp < |s.data| && w.todo != [] then WGoto(s, WPublish(wp)).(data := s.data[wp := w.todo[0]]) else s
    case WPublish(wp) =>
      if w.todo == [] then s else
      s.(wp := (wp + 1) % |s.data|, sent := s.sent + [w.todo[0]],
         writer := w.(pc := WLoopHead, todo := w.todo[1..], written := w.written + 1))
    case WNotify =>
      WGoto(if s.reader.pc.Asleep? then Goto(s, LoopHead) else s, WIdle)
  }

  predicate Enabled(s: State, a: Action) {
    match a
    case Read(_) => s.reader.pc.Idle?
    case Readv(_) => s.reader.pc.Idle?
    case ReaderStep => !s.reader.pc.Idle? && !s.reader.pc.Asleep?
    case Timeout => s.reader.pc.Asleep?
    case Write(_) => s.writer.pc.WIdle? && !s.closed
    case Writev(_) => s.writer.pc.WIdle? && !s.closed
    case WriterStep => !s.writer.pc.WIdle?
    case Close => s.writer.pc.WIdle?
  }

  function StartWrite(s: State, bytes: seq<Byte>): State {
    s.(writer := Writer(WLoopHead, bytes, 0, bytes, |s.sent|, |s.data|))
  }

  function Min(a: nat, b: nat): nat {
    if a < b then a else b
  }

  function Step(s: State, a: Action): State
    requires s.reader.from <= |s.received| && |s.data| > 0 && Enabled(s, a)
  {
    match a
    case Read(count) => StartRead(s, [Min(count, |s.data|)])
    case Readv(lens) => StartRead(s, lens)
    case ReaderStep => StepReader(s)
    case Timeout => Goto(s, LoopHead)
    case Write(bytes) => StartWrite(s, bytes)
    case Writev(chunks) => StartWrite(s, Flatten(chunks))
    case WriterStep => StepWriter(s)
    case Close => s.(closed := true)
  }

  // ----- invariant -----

  /** The shared words are the history counters modulo the capacity, the ring
      holds exactly the published bytes not yet taken, and one slot stays free. */
  ghost predicate RingHolds(s: State) {
    var cap := |s.data|;
    && cap > 0
    && s.taken <= |s.sent| < s.taken + cap
    && s.wp == |s.sent| % cap && s.rp == s.taken % cap
    && forall i | s.taken <= i < |s.sent| :: Slot(s, i) == s.sent[i]
  }

  function Slot(s: State, i: nat): Byte
    requires |s.data| > 0
  {
    s.data[i % |s.data|]
  }

  ghost predicate ReaderHolds(s: State)
    requires RingHolds(s)
  {
    var r := s.reader;
    && r.from <= |s.received|
    && s.received <= s.sent
    && |s.received| == s.taken + (if r.pc.Publish? then 1 else 0)
    && CallHolds(s) && BuffersHold(s)
    && match r.pc
       case HaveWp(wp, seen, closedThen) => SeenHolds(s, wp, seen) && (closedThen ==> s.closed && seen == |s.sent|)
       case Empty(wp, seen, closedThen) =>
         r.found == 0 && seen == s.taken && SeenHolds(s, wp, seen) && (closedThen ==> s.closed && seen == |s.sent|)
       case AtWait(wp, seen) => seen == s.taken && SeenHolds(s, wp, seen)
       case Asleep(seen) => seen == s.taken
       case Fetch(rp) => rp == s.rp && s.taken < |s.sent|
       case Publish(rp) => rp == s.rp
       case _ => true
  }

  /** A call fills its buffers without overrunning them, and returns the number
      of bytes it stored; zero means drained if the pipe was closed beforehand. */
  ghost predicate CallHolds(s: State)
    requires s.reader.from <= |s.received|
  {
    var r, got := s.reader, |s.received| - s.reader.from;
    if r.pc.Idle?
    then
      && r.result == got <= r.asked && (got == r.asked || r.found == 0)
      && (r.closedAtCall && got == 0 < r.asked ==> s.closed && s.received == s.sent)
    else
      && (r.closedAtCall ==> s.closed)
      && (r.lens == [] ==> r.pc.LoopHead? && got == r.asked)
      && (r.lens != [] ==>
            && r.filled <= r.lens[0]
            && (!r.pc.LoopHead? ==> r.filled < r.lens[0])
            && got + Sum(r.lens) == r.asked + r.filled + (if r.pc.Publish? then 1 else 0))
      && match r.pc
         case HaveWp(_, _, closedThen) => r.closedAtCall ==> closedThen
         case Empty(_, _, closedThen) => r.closedAtCall ==> closedThen
         case _ => true
  }

  /** The buffers are filled one after the other with the bytes received. */
  ghost predicate BuffersHold(s: State)
    requires s.reader.from <= |s.received|
  {
    var r := s.reader;
    && r.asked == Sum(r.sizes) && |r.full| <= |r.sizes| && r.lens == r.sizes[|r.full|..]
    && (forall i | 0 <= i < |r.full| :: |r.full[i]| == r.sizes[i])
    && |r.current| == r.filled + (if r.pc.Publish? then 1 else 0)
    && (if r.lens == [] then r.current == [] else |r.current| <= r.lens[0])
    && Flatten(r.full) + r.current == s.received[r.from..]
  }

  ghost predicate SeenHolds(s: State, wp: nat, seen: nat)
    requires |s.data| > 0
  {
    s.taken <= seen <= |s.sent| && wp == seen % |s.data|
  }

  ghost predicate WriterHolds(s: State)
    requires RingHolds(s)
  {
    var w := s.writer;
    && (s.closed ==> w.pc.WIdle?)
    && |s.sent| == w.from + w.written && w.written <= |w.offered|
    && w.todo == w.offered[w.written..] && s.sent[w.from..] == w.offered[..w.written]
    && match w.pc
       case WHaveWp(wp) => wp == s.wp && w.todo != []
       case WStore(wp) => wp == s.wp && w.todo != [] && |s.sent| + 1 < s.taken + |s.data|
       case WPublish(wp) => wp == s.wp && w.todo != [] && |s.sent| + 1 < s.taken + |s.data| && s.data[wp] == w.todo[0]
       case WLoopHead => true
       case _ => w.written == |w.offered| || w.free == 0
  }

  /** A sleeping reader has nothing to read, or the writer still owes a notify. */
  ghost predicate NoLostWakeup(s: State) {
    s.reader.pc.Asleep? ==> s.taken == |s.sent| || !s.writer.pc.WIdle?
  }

  ghost predicate Inv(s: State) {
    RingHolds(s) && ReaderHolds(s) && WriterHolds(s) && NoLostWakeup(s)
  }

  // ----- arithmetic of the ring -----

  lemma ModDistinct(i: nat, j: nat, cap: nat)
    requires i < j < i + cap
    ensures i % cap != j % cap
  {
    DivMod(i, cap);
    DivMod(j, cap);
    if i % cap == j % cap {
      Distribute(j / cap, i / cap, cap);
      if j / cap > i / cap { AtLeastOnce(j / cap - i / cap, cap); }
      else { Distribute(i / cap, j / cap, cap); AtLeastOnce(i / cap - j / cap + 1, cap); }
    }
  }

  lemma ModSucc(i: nat, cap: nat)
    requires cap > 0
    ensures (i % cap + 1) % cap == (i + 1) % cap
  {
    DivMod(i, cap);
    if i % cap + 1 < cap {
      ModUnique(i + 1, cap, i / cap, i % cap + 1);
      ModUnique(i % cap + 1, cap, 0, i % cap + 1);
    } else {
      Distribute(i / cap, -1, cap);
      ModUnique(i + 1, cap, i / cap + 1, 0);
      ModUnique(cap, cap, 1, 0);
    }
  }

  // ----- every step keeps the invariant -----

  lemma InitHolds(cap: nat)
    requires cap > 0
    ensures Inv(Init(cap))
  {
    ModUnique(0, cap, 0, 0);
  }

  lemma ReaderStepHolds(s: State)
    requires Inv(s) && Enabled(s, ReaderStep)
    ensures Inv(StepReader(s))
  {
    match s.reader.pc
    case LoopHead => LoopHeadHolds(s);
    case HaveWp(_, _, _) => HaveWpHolds(s);
    case Empty(_, _, _) => EmptyHolds(s);
    case AtWait(_, _) => AtWaitHolds(s);
    case Fetch(_) => FetchHolds(s);
    case Publish(_) => PublishHolds(s);
  }

  lemma LoopHeadHolds(s: State)
    requires Inv(s) && s.reader.pc.LoopHead?
    ensures Inv(StepReader(s))
  {
    var s' := StepReader(s);
    assert s' == s.(reader := s'.reader);
    assert RingHolds(s') && WriterHolds(s') && NoLostWakeup(s');
    assert CallHolds(s') by { LoopHeadCall(s); }
    assert BuffersHold(s') by { LoopHeadBuffers(s); }
  }

  lemma LoopHeadCall(s: State)
    requires s.reader.from <= |s.received| && |s.data| > 0 && s.reader.pc.LoopHead?
    requires CallHolds(s) && s.received <= s.sent
    ensures CallHolds(StepReader(s))
  {
    if s.reader.lens != [] { assert Sum(s.reader.lens) == s.reader.lens[0] + Sum(s.reader.lens[1..]); }
  }

  lemma LoopHeadBuffers(s: State)
    requires s.reader.from <= |s.received| && |s.data| > 0 && s.reader.pc.LoopHead? && BuffersHold(s)
    requires s.reader.lens != [] ==> s.reader.filled <= s.reader.lens[0]
    ensures BuffersHold(StepReader(s))
  {
    FlattenSnoc(s.reader.full, s.reader.current);
  }

  lemma {:induction false} FlattenSnoc(chunks: seq<seq<Byte>>, c: seq<Byte>)
    ensures Flatten(chunks + [c]) == Flatten(chunks) + c
  {
    if chunks == [] {
      assert [c][1..] == [];
    } else {
      assert (chunks + [c])[1..] == chunks[1..] + [c];
      FlattenSnoc(chunks[1..], c);
    }
  }

  lemma HaveWpHolds(s: State)
    requires Inv(s) && s.reader.pc.HaveWp?
    ensures Inv(StepReader(s))
  {
    if s.taken < s.reader.pc.seen { ModDistinct(s.taken, s.reader.pc.seen, |s.data|); }
  }

  lemma EmptyHolds(s: State)
    requires Inv(s) && s.reader.pc.Empty?
    ensures Inv(StepReader(s))
  {
  }

  lemma AtWaitHolds(s: State)
    requires Inv(s) && s.reader.pc.AtWait?
    ensures Inv(StepReader(s))
  {
    if s.reader.pc.seen < |s.sent| { ModDistinct(s.reader.pc.seen, |s.sent|, |s.data|); }
  }

  lemma FetchHolds(s: State)
    requires Inv(s) && s.reader.pc.Fetch?
    ensures Inv(StepReader(s))
  {
    assert Slot(s, s.taken) == s.sent[s.taken];
    var s', b := StepReader(s), s.sent[s.taken];
    assert s'.received == s.sent[..s.taken] + [b];
    assert s'.received[s.reader.from..] == s.received[s.reader.from..] + [b];
    assert BuffersHold(s');
  }

  lemma PublishHolds(s: State)
    requires Inv(s) && s.reader.pc.Publish?
    ensures Inv(StepReader(s))
  {
    ModSucc(s.taken, |s.data|);
    assert forall i | s.taken + 1 <= i < |s.sent| :: Slot(StepReader(s), i) == Slot(s, i);
  }

  lemma WriterStepHolds(s: State)
    requires Inv(s) && Enabled(s, WriterStep)
    ensures Inv(StepWriter(s))
  {
    match s.writer.pc
    case WHaveWp(_) => WHaveWpHolds(s);
    case WStore(_) => StoreHolds(s);
    case WPublish(_) => WPublishHolds(s);
    case _ =>
  }

  lemma WHaveWpHolds(s: State)
    requires Inv(s) && s.writer.pc.WHaveWp?
    ensures Inv(StepWriter(s))
  {
    FullIff(s);
    var s' := StepWriter(s);
    assert s' == s.(writer := s'.writer);
    assert RingHolds(s') && NoLostWakeup(s') && ReaderHolds(s');
  }

  /** The writer sees a full ring exactly when cap - 1 bytes are unread. */
  lemma FullIff(s: State)
    requires RingHolds(s)
    ensures (s.wp + 1) % |s.data| == s.rp <==> |s.sent| + 1 == s.taken + |s.data|
  {
    ModSucc(|s.sent|, |s.data|);
    if |s.sent| + 1 == s.taken + |s.data| { Wraps(s.taken, |s.data|); }
    else { ModDistinct(s.taken, |s.sent| + 1, |s.data|); }
  }

  /** The slot written is not one that holds an unread byte. */
  lemma StoreHolds(s: State)
    requires Inv(s) && s.writer.pc.WStore?
    ensures Inv(StepWriter(s))
    ensures forall i | s.taken <= i < |s.sent| :: Slot(StepWriter(s), i) == Slot(s, i)
  {
    forall i | s.taken <= i < |s.sent| ensures Slot(StepWriter(s), i) == Slot(s, i) {
      ModDistinct(i, |s.sent|, |s.data|);
    }
  }

  lemma WPublishHolds(s: State)
    requires Inv(s) && s.writer.pc.WPublish?
    ensures Inv(StepWriter(s))
  {
    ModSucc(|s.sent|, |s.data|);
    forall i | s.taken <= i < |s.sent| + 1 ensures Slot(StepWriter(s), i) == StepWriter(s).sent[i] {
      if i < |s.sent| { assert Slot(s, i) == s.sent[i]; }
    }
  }

  lemma Wraps(i: nat, cap: nat)
    requires cap > 0
    ensures (i + cap) % cap == i % cap
  {
    DivMod(i, cap);
    Distribute(i / cap, -1, cap);
    ModUnique(i + cap, cap, i / cap + 1, i % cap);
  }

  lemma StepHolds(s: State, a: Action)
    requires Inv(s) && Enabled(s, a)
    ensures Inv(Step(s, a)) && |Step(s, a).data| == |s.data|
  {
    match a
    case ReaderStep => ReaderStepHolds(s);
    case WriterStep => WriterStepHolds(s);
    case _ => OtherStepHolds(s, a);
  }

  lemma OtherStepHolds(s: State, a: Action)
    requires Inv(s) && Enabled(s, a) && !a.ReaderStep? && !a.WriterStep?
    ensures Inv(Step(s, a)) && |Step(s, a).data| == |s.data|
  {
  }

  // ----- whole runs -----

  /** The state after the given actions; one that is not enabled does nothing. */
  function RunFrom(s: State, actions: seq<Action>): State
    decreases |actions|
  {
    if actions == [] then s else RunFrom(Try(s, actions[0]), actions[1..])
  }

  /** The same from an empty ring of capacity cap. */
  function Run(cap: nat, actions: seq<Action>): State {
    RunFrom(Init(cap), actions)
  }

  function Try(s: State, a: Action): State {
    if s.reader.from <= |s.received| && |s.data| > 0 && Enabled(s, a) then Step(s, a) else s
  }

  lemma {:induction false} RunFromHolds(s: State, actions: seq<Action>)
    requires Inv(s)
    ensures Inv(RunFrom(s, actions)) && |RunFrom(s, actions).data| == |s.data|
    decreases |actions|
  {
    if actions != [] {
      if Enabled(s, actions[0]) { StepHolds(s, actions[0]); }
      RunFromHolds(Try(s, actions[0]), actions[1..]);
    }
  }

  lemma RunHolds(cap: nat, actions: seq<Action>)
    requires cap > 0
    ensures Inv(Run(cap, actions)) && |Run(cap, actions).data| == cap
  {
    InitHolds(cap);
    RunFromHolds(Init(cap), actions);
  }

  /** The unread bytes, as a reader of the shared words sees them. */
  function InFlight(s: State): seq<Byte>
    requires |s.data| > 0
  {
    seq((s.wp - s.rp) % |s.data|, i requires 0 <= i => Ahead(s, i))
  }

  function Ahead(s: State, i: nat): Byte
    requires |s.data| > 0
  {
    s.data[(s.rp + i) % |s.data|]
  }

  /** FIFO: under every interleaving the bytes taken by reads, followed by the
      bytes in the ring, are the bytes published, at most cap - 1 of them are in
      the ring, and what reads have delivered is a prefix of what was written. */
  lemma Fifo(cap: nat, actions: seq<Action>)
    requires cap > 0
    ensures var s := Run(cap, actions);
      && |s.data| == cap && s.taken <= |s.received|
      && s.received[..s.taken] + InFlight(s) == s.sent
      && |InFlight(s)| <= cap - 1
      && s.received <= s.sent
  {
    RunHolds(cap, actions);
    InFlightIs(Run(cap, actions));
  }

  lemma InFlightIs(s: State)
    requires Inv(s)
    ensures InFlight(s) == s.sent[s.taken..]
  {
    RingSize(s.taken, |s.sent|, |s.data|);
    forall i: nat | i < |s.sent| - s.taken ensures Ahead(s, i) == s.sent[s.taken + i] {
      ModShift(s.taken, i, |s.data|);
      assert Slot(s, s.taken + i) == s.sent[s.taken + i];
    }
  }

  lemma RingSize(taken: nat, n: nat, cap: nat)
    requires taken <= n < taken + cap
    ensures (n % cap - taken % cap) % cap == n - taken
  {
    DivMod(n, cap);
    DivMod(taken, cap);
    Distribute(taken / cap, n / cap, cap);
    ModUnique(n % cap - taken % cap, cap, taken / cap - n / cap, n - taken);
  }

  lemma ModShift(t: nat, i: nat, cap: nat)
    requires cap > 0
    ensures (t % cap + i) % cap == (t + i) % cap
  {
    DivMod(t, cap);
    DivMod(t + i, cap);
    var q := (t + i) / cap - t / cap;
    Distribute((t + i) / cap, t / cap, cap);
    ModUnique(t % cap + i, cap, q, (t + i) % cap);
  }

  /** A completed read returns the number of bytes it delivered, which are the next
      unread ones, laid out in its buffers one after the other; it has filled them
      all or its last comparison found the ring empty. A sleeping reader is never
      forgotten. */
  lemma ReadDelivers(cap: nat, actions: seq<Action>)
    requires cap > 0
    ensures var s := Run(cap, actions); var r := s.reader;
      && (r.pc.Idle? ==>
            && r.result <= r.asked && (r.result < r.asked ==> r.found == 0)
            && r.from + r.result == |s.received| <= |s.sent|
            && Flatten(r.full) + r.current == s.received[r.from..] == s.sent[r.from..r.from + r.result])
      && |r.full| <= |r.sizes| && (forall i | 0 <= i < |r.full| :: |r.full[i]| == r.sizes[i])
      && (r.current != [] ==> |r.full| < |r.sizes| && |r.current| <= r.sizes[|r.full|])
      && (r.pc.Asleep? && s.writer.pc.WIdle? ==> s.received == s.sent)
  {
    RunHolds(cap, actions);
  }

  /** A completed write returns the number of bytes it published, and those are
      its first bytes, in order, after everything published before; it has
      published all of them or its last comparison found the ring full. */
  lemma WritePublishes(cap: nat, actions: seq<Action>)
    requires cap > 0
    ensures var s := Run(cap, actions); var w := s.writer;
      w.pc.WIdle? ==>
        && w.written <= |w.offered| && (w.written < |w.offered| ==> w.free == 0)
        && |s.sent| == w.from + w.written
        && s.sent[w.from..] == w.offered[..w.written]
  {
    RunHolds(cap, actions);
  }

  /** What the four calls ask for. */
  lemma CallsAsk(s: State, a: Action)
    requires s.reader.from <= |s.received| && |s.data| > 0 && Enabled(s, a)
    ensures var t := Step(s, a);
      && (a.Read? ==> t.reader.asked == if a.count < |s.data| then a.count else |s.data|)
      && (a.Read? ==> t.reader.sizes == [t.reader.asked])
      && (a.Readv? ==> t.reader.sizes == a.lens && t.reader.asked == Sum(a.lens))
      && (a.Read? || a.Readv? ==> t.reader.from == |s.received| && t.reader.closedAtCall == s.closed)
      && (a.Write? ==> t.writer.offered == a.bytes)
      && (a.Writev? ==> t.writer.offered == Flatten(a.chunks) && |t.writer.offered| == Sum(Lengths(a.chunks)))
      && (a.Write? || a.Writev? ==> t.writer.from == |s.sent|)
  {
    match a
    case Writev(chunks) => FlattenLength(chunks);
    case Read(_) => SumIs(Step(s, a).reader.sizes[0], [], []);
    case _ =>
  }

  function Lengths(chunks: seq<seq<Byte>>): seq<nat> {
    seq(|chunks|, i requires 0 <= i < |chunks| => |chunks[i]|)
  }

  lemma {:induction false} SumIs(x: nat, a: seq<nat>, b: seq<nat>)
    ensures Sum([x]) == x && Sum(a + b) == Sum(a) + Sum(b)
  {
    if a == [] {
      assert a + b == b;
    } else {
      assert (a + b)[1..] == a[1..] + b;
      SumIs(x, a[1..], b);
    }
  }

  lemma {:induction false} FlattenLength(chunks: seq<seq<Byte>>)
    ensures |Flatten(chunks)| == Sum(Lengths(chunks))
  {
    if chunks != [] {
      FlattenLength(chunks[1..]);
      assert Lengths(chunks) == [|chunks[0]|] + Lengths(chunks[1..]);
    }
  }

  lemma {:induction false} FlattenAppend(a: seq<seq<Byte>>, b: seq<seq<Byte>>)
    ensures Flatten(a + b) == Flatten(a) + Flatten(b)
  {
    if a == [] {
      assert a + b == b;
    } else {
      assert (a + b)[1..] == a[1..] + b;
      FlattenAppend(a[1..], b);
    }
  }

  /** Each buffer of a writev stands right after all earlier ones. */
  lemma ChunkPlace(chunks: seq<seq<Byte>>, i: nat)
    requires i < |chunks|
    ensures var at := Sum(Lengths(chunks[..i]));
      && at + |chunks[i]| <= |Flatten(chunks)|
      && Flatten(chunks)[at..at + |chunks[i]|] == chunks[i]
  {
    var before, rest := chunks[..i], chunks[i..];
    FlattenAppend(before, rest);
    assert before + rest == chunks && rest[0] == chunks[i];
    FlattenLength(before);
  }

  // ----- a call that runs alone -----

  lemma {:induction false} RunFromAppend(s: State, a: seq<Action>, b: seq<Action>)
    ensures RunFrom(s, a + b) == RunFrom(RunFrom(s, a), b)
    decreases |a|
  {
    if a == [] {
      assert a + b == b;
    } else {
      assert (a + b)[1..] == a[1..] + b;
      RunFromAppend(Try(s, a[0]), a[1..], b);
    }
  }

  lemma TwoSteps(s: State, a: Action, b: Action)
    ensures RunFrom(s, [a, b]) == Try(Try(s, a), b)
  {
    assert [a, b][1..] == [b] && [b][1..] == [];
    assert RunFrom(s, [a, b]) == RunFrom(Try(s, a), [b]) == RunFrom(Try(Try(s, a), b), []);
  }

  lemma FourSteps(s: State, a: Action)
    ensures RunFrom(s, [a, a, a, a]) == Try(Try(Try(Try(s, a), a), a), a)
  {
    ThreeSteps(s, a, a, a, [a]);
    assert [a, a, a] + [a] == [a, a, a, a];
    var t := Try(Try(Try(s, a), a), a);
    assert [a][1..] == [] && RunFrom(t, [a]) == RunFrom(Try(t, a), []);
  }

  /** A writer with a byte to write and a free slot publishes that byte. */
  lemma PublishesByte(s: State)
    requires Inv(s) && s.writer.pc.WLoopHead? && s.writer.todo != [] && |s.sent| + 1 < s.taken + |s.data|
    ensures var t, w := RunFrom(s, [WriterStep, WriterStep, WriterStep, WriterStep]), s.writer;
      && Inv(t) && t.writer.pc.WLoopHead? && t.writer.todo == w.todo[1..] && t.writer.written == w.written + 1
      && t.sent == s.sent + [w.todo[0]] && t.taken == s.taken && |t.data| == |s.data|
      && t.reader == s.reader && t.received == s.received && t.closed == s.closed
  {
    var a := WriterStep;
    RunFromHolds(s, [a, a, a, a]);
    FullIff(s);
    FourWrites(s);
  }

  lemma FourWrites(s: State)
    requires s.writer.pc.WLoopHead? && s.writer.todo != [] && s.reader.from <= |s.received|
    requires s.wp < |s.data| && (s.wp + 1) % |s.data| != s.rp
    ensures var t, w := RunFrom(s, [WriterStep, WriterStep, WriterStep, WriterStep]), s.writer;
      && t == s.(writer := t.writer, data := s.data[s.wp := w.todo[0]], wp := t.wp, sent := s.sent + [w.todo[0]])
      && t.writer.pc.WLoopHead? && t.writer.todo == w.todo[1..] && t.writer.written == w.written + 1
  {
    var w, a := s.writer, WriterStep;
    FourSteps(s, a);
    var u := Try(Try(s, a), a);
    assert u == s.(writer := w.(pc := WStore(s.wp), free := u.writer.free)) by { hide RunFrom; }
    var v := Try(u, a);
    assert v == u.(writer := u.writer.(pc := WPublish(s.wp)), data := s.data[s.wp := w.todo[0]]);
  }

  /** Running alone, a writer publishes as much as there is room for and wakes a
      sleeping reader. */
  lemma {:induction false} WriterFinishes(s: State) returns (actions: seq<Action>)
    requires Inv(s) && s.writer.pc.WLoopHead?
    ensures forall a | a in actions :: a == WriterStep
    ensures var t, free := RunFrom(s, actions), s.taken + |s.data| - 1 - |s.sent|;
      && Inv(t) && t.writer.pc.WIdle? && t.taken == s.taken && t.received == s.received && t.closed == s.closed
      && t.writer.written == s.writer.written + (if |s.writer.todo| < free then |s.writer.todo| else free)
      && t.sent == s.sent + s.writer.todo[..t.writer.written - s.writer.written]
      && t.reader == (if s.reader.pc.Asleep? then s.reader.(pc := LoopHead) else s.reader)
    decreases |s.writer.todo|
  {
    hide CallHolds, BuffersHold, NoLostWakeup, StepReader, StepWriter;
    var a, w := WriterStep, s.writer;
    if w.todo != [] && |s.sent| + 1 < s.taken + |s.data| {
      PublishesByte(s);
      var rest := WriterFinishes(RunFrom(s, [a, a, a, a]));
      actions := [a, a, a, a] + rest;
      RunFromAppend(s, [a, a, a, a], rest);
    } else {
      FullIff(s);
      actions := if w.todo == [] then [a, a] else [a, a, a];
      RunFromHolds(s, actions);
      LastWrites(s, w.todo == []);
    }
  }

  lemma LastWrites(s: State, done: bool)
    requires s.writer.pc.WLoopHead? && s.reader.from <= |s.received| && |s.data| > 0
    requires if done then s.writer.todo == [] else s.writer.todo != [] && (s.wp + 1) % |s.data| == s.rp
    ensures var t := RunFrom(s, if done then [WriterStep, WriterStep] else [WriterStep, WriterStep, WriterStep]);
      && t == s.(writer := t.writer, reader := t.reader)
      && t.writer.pc.WIdle? && t.writer.written == s.writer.written
      && t.reader == (if s.reader.pc.Asleep? then s.reader.(pc := LoopHead) else s.reader)
  {
    var a := WriterStep;
    if done { TwoSteps(s, a, a); } else { ThreeSteps(s, a, a, a, []); assert [a, a, a] + [] == [a, a, a]; }
  }

  /** A write or writev that runs alone publishes the first of its bytes, as many
      as there are free slots or all of them, and returns their number. */
  lemma WriteAlone(s: State, a: Action) returns (actions: seq<Action>)
    requires Inv(s) && (a.Write? || a.Writev?) && Enabled(s, a)
    ensures forall b | b in actions :: b == WriterStep
    ensures var t, free := RunFrom(s, [a] + actions), |s.data| - 1 - (|s.sent| - s.taken);
      var bytes := if a.Write? then a.bytes else Flatten(a.chunks);
      && t.writer.pc.WIdle? && t.writer.written == (if |bytes| < free then |bytes| else free)
      && t.sent == s.sent + bytes[..t.writer.written] && !t.reader.pc.Asleep?
  {
    StepHolds(s, a);
    actions := WriterFinishes(Step(s, a));
    RunFromAppend(s, [a], actions);
    assert [a][1..] == [] && RunFrom(s, [a]) == RunFrom(Step(s, a), []);
  }

  /** The reader sees an empty ring exactly when no byte is unread. */
  lemma EmptyIff(s: State)
    requires RingHolds(s)
    ensures s.wp == s.rp <==> |s.sent| == s.taken
  {
    if s.taken < |s.sent| { ModDistinct(s.taken, |s.sent|, |s.data|); }
  }

  /** A reader with room takes the next byte. */
  lemma TakesByte(s: State)
    requires Inv(s) && s.reader.pc.LoopHead? && s.reader.lens != [] && s.reader.filled < s.reader.lens[0]
    requires s.wp != s.rp
    ensures var t, r := RunFrom(s, [ReaderStep, ReaderStep, ReaderStep, ReaderStep]), s.reader;
      && Inv(t) && t.reader.pc.LoopHead? && t.reader.from == r.from && t.reader.asked == r.asked
      && |t.received| == |s.received| + 1 && t.sent == s.sent && t.writer == s.writer && t.closed == s.closed
  {
    var a := ReaderStep;
    RunFromHolds(s, [a, a, a, a]);
    FourSteps(s, a);
    FindsByte(s);
    CopiesByte(Try(Try(s, a), a));
  }

  lemma FindsByte(s: State)
    requires s.reader.pc.LoopHead? && s.reader.lens != [] && s.reader.filled < s.reader.lens[0]
    requires s.reader.from <= |s.received| && s.rp < |s.data| && s.wp != s.rp
    ensures var t := Try(Try(s, ReaderStep), ReaderStep);
      t == s.(reader := s.reader.(pc := Fetch(s.rp), found := t.reader.found))
  {
  }

  lemma CopiesByte(s: State)
    requires s.reader.pc.Fetch? && s.reader.pc.rp < |s.data| && s.reader.from <= |s.received|
    ensures var t, got := Try(Try(s, ReaderStep), ReaderStep), s.received + [s.data[s.reader.pc.rp]];
      && t == s.(reader := t.reader, received := got, rp := t.rp, taken := s.taken + 1)
      && t.reader == s.reader.(pc := LoopHead, filled := s.reader.filled + 1, current := t.reader.current)
  {
  }

  /** On an empty ring the reader returns, or falls asleep if the pipe is open
      and it has nothing yet. */
  lemma LastReads(s: State)
    requires s.reader.pc.LoopHead? && s.reader.lens != [] && s.reader.filled < s.reader.lens[0]
    requires s.reader.from <= |s.received| && |s.data| > 0 && s.wp == s.rp
    ensures var t, a := RunFrom(s, [ReaderStep, ReaderStep, ReaderStep, ReaderStep]), s.reader.from;
      && t == s.(reader := t.reader)
      && (if s.closed || |s.received| > a then t.reader.pc.Idle? && t.reader.result == |s.received| - a
          else t.reader.pc.Asleep?)
  {
    var a := ReaderStep;
    FourSteps(s, a);
    var u := Try(Try(s, a), a);
    assert u == s.(reader := u.reader) && u.reader.pc.Empty? && u.reader.pc.wp == s.wp && u.reader.from == s.reader.from
      by { hide RunFrom; }
  }

  /** Running alone, a reader takes the unread bytes up to the end of its buffers;
      it sleeps exactly when there is room but no byte and the pipe is open. */
  lemma {:induction false} ReaderFinishes(s: State) returns (actions: seq<Action>)
    requires Inv(s) && s.reader.pc.LoopHead?
    ensures forall a | a in actions :: a == ReaderStep
    ensures var t, r, all := RunFrom(s, actions), s.reader, |s.sent| - s.reader.from;
      && t.sent == s.sent && t.writer == s.writer && t.closed == s.closed
      && if r.asked == 0 || all > 0 || s.closed
         then && t.reader.pc.Idle? && t.reader.result == (if r.asked < all then r.asked else all)
              && t.received == s.sent[..r.from + t.reader.result]
         else t.reader.pc.Asleep? && t.received == s.received
    decreases s.reader.asked + s.reader.from - |s.received|, |s.reader.lens|
  {
    hide BuffersHold, WriterHolds, NoLostWakeup, StepWriter, StepReader;
    var a, r := ReaderStep, s.reader;
    EmptyIff(s);
    if r.lens == [] {
      actions := [a];
      Returns(s);
    } else if r.filled == r.lens[0] {
      NextBuffer(s);
      var rest := ReaderFinishes(StepReader(s));
      actions := [a] + rest;
    } else if s.wp == s.rp {
      actions := [a, a, a, a];
      LastReads(s);
    } else {
      TakesByte(s);
      RunFromHolds(s, [a, a, a, a]);
      var rest := ReaderFinishes(RunFrom(s, [a, a, a, a]));
      actions := [a, a, a, a] + rest;
      RunFromAppend(s, [a, a, a, a], rest);
    }
  }

  lemma Returns(s: State)
    requires s.reader.pc.LoopHead? && s.reader.lens == [] && s.reader.from <= |s.received| && |s.data| > 0
    ensures var t := RunFrom(s, [ReaderStep]);
      t == s.(reader := t.reader) && t.reader.pc.Idle? && t.reader.result == |s.received| - s.reader.from
  {
    var a := ReaderStep;
    assert [a][1..] == [] && RunFrom(s, [a]) == RunFrom(StepReader(s), []);
  }

  lemma NextBuffer(s: State)
    requires Inv(s) && s.reader.pc.LoopHead? && s.reader.lens != [] && s.reader.filled == s.reader.lens[0]
    ensures var t := StepReader(s);
      && Inv(t) && t == s.(reader := t.reader) && t.reader.pc.LoopHead? && t.reader.lens == s.reader.lens[1..]
      && t.reader.from == s.reader.from && t.reader.asked == s.reader.asked
  {
    LoopHeadHolds(s);
  }

  /** A read or readv that runs alone returns the next unread bytes, as many as
      there are or fit its buffers; only one that has room sleeps, on an empty ring
      that is open. */
  lemma ReadAlone(s: State, a: Action) returns (actions: seq<Action>)
    requires Inv(s) && (a.Read? || a.Readv?) && Enabled(s, a)
    ensures forall b | b in actions :: b == ReaderStep
    ensures var t, unread := RunFrom(s, [a] + actions), |s.sent| - s.taken;
      var room := if a.Readv? then Sum(a.lens) else if a.count < |s.data| then a.count else |s.data|;
      if room == 0 || unread > 0 || s.closed
      then && t.reader.pc.Idle? && t.reader.result == (if room < unread then room else unread)
           && t.received == s.sent[..s.taken + t.reader.result]
      else t.reader.pc.Asleep? && t.received == s.received
  {
    StepHolds(s, a);
    CallsAsk(s, a);
    actions := ReaderFinishes(Step(s, a));
    RunFromAppend(s, [a], actions);
    assert [a][1..] == [] && RunFrom(s, [a]) == RunFrom(Step(s, a), []);
  }

  /** A sleeping reader whose wait times out looks again, and takes what is there. */
  lemma TimedOutReads(s: State) returns (actions: seq<Action>)
    requires Inv(s) && s.reader.pc.Asleep? && s.reader.asked > 0
    ensures forall b | b in actions :: b == ReaderStep
    ensures var t, all := RunFrom(s, [Timeout] + actions), |s.sent| - s.reader.from;
      if all > 0 || s.closed
      then && t.reader.pc.Idle? && t.reader.result == (if s.reader.asked < all then s.reader.asked else all)
           && t.received == s.sent[..s.reader.from + t.reader.result]
      else t.reader.pc.Asleep?
  {
    StepHolds(s, Timeout);
    actions := ReaderFinishes(Step(s, Timeout));
    RunFromAppend(s, [Timeout], actions);
    assert [Timeout][1..] == [] && RunFrom(s, [Timeout]) == RunFrom(Step(s, Timeout), []);
  }

  // ----- end of file -----

  /** A read that finds the ring empty has drained the pipe, and its next step
      returns, if the pipe was closed before it loaded the write position; so a
      read that begins after the close and returns no byte has drained it. */
  lemma EofMeansDrained(cap: nat, actions: seq<Action>)
    requires cap > 0
    ensures var s := Run(cap, actions);
      && (s.reader.pc.Empty? && s.reader.pc.closedThen ==>
            && s.closed && s.received == s.sent
            && s.reader.from <= |s.received| && |s.data| > 0 && StepReader(s).reader.pc.Idle?)
      && (s.reader.pc.Idle? && s.reader.closedAtCall && s.reader.result == 0 < s.reader.asked ==> s.received == s.sent)
  {
    RunHolds(cap, actions);
  }

  /** A read about to report end of file has drained the pipe exactly when
      nothing was published after it loaded the write position. */
  lemma EofDrainedIff(cap: nat, actions: seq<Action>)
    requires cap > 0
    ensures var s := Run(cap, actions);
      s.reader.pc.Empty? && s.closed && |s.received| == s.reader.from ==>
        && s.reader.from <= |s.received| && |s.data| > 0
        && StepReader(s).reader.pc.Idle? && StepReader(s).reader.result == 0
        && (s.received == s.sent <==> s.reader.pc.seen == |s.sent|)
  {
    RunHolds(cap, actions);
  }

  /** Without the pipe being closed first, end of file can miss bytes: here the
      pipe is written and closed between the two loads of the reader. */
  lemma EofCanMissBytes() returns (actions: seq<Action>)
    ensures var s := Run(4, actions);
      s.reader.pc.Idle? && s.reader.result == 0 < s.reader.asked && s.closed && s.sent == [7] && s.received == []
  {
    var s3 := Init(4).(reader := Reader(Empty(0, 0, false), [1], 0, 0, 0, 1, false, [1], [], [], 0));
    var rest;
    rest := WritesAndCloses(s3);
    actions := [Read(1), ReaderStep, ReaderStep] + rest;
    FindsEmpty();
    ThreeSteps(Init(4), Read(1), ReaderStep, ReaderStep, rest);
  }

  lemma WritesAndCloses(s: State) returns (actions: seq<Action>)
    requires s == Init(4).(reader := Reader(Empty(0, 0, false), [1], 0, 0, 0, 1, false, [1], [], [], 0))
    ensures RunFrom(s, actions) == s.(reader := s.reader.(pc := Idle), writer := Writer(WIdle, [], 1, [7], 0, 3),
                                      data := [7, 0, 0, 0], wp := 1, closed := true, sent := [7])
  {
    var t := s.(writer := Writer(WStore(0), [7], 0, [7], 0, 3));
    StartsToWrite(s);
    StoreSeven(t);
    var u := Try(Try(Try(t, WriterStep), WriterStep), WriterStep);
    SeesClosed(u);
    var rest := [WriterStep, WriterStep, WriterStep] + ([WriterStep, Close, ReaderStep] + []);
    actions := [Write([7]), WriterStep, WriterStep] + rest;
    ThreeSteps(s, Write([7]), WriterStep, WriterStep, rest);
    ThreeSteps(t, WriterStep, WriterStep, WriterStep, [WriterStep, Close, ReaderStep] + []);
    ThreeSteps(u, WriterStep, Close, ReaderStep, []);
  }

  lemma SeesClosed(s: State)
    requires s.writer == Writer(WNotify, [], 1, [7], 0, 3) && s.reader.pc.Empty? && |s.data| == 4
    requires s.reader.from == |s.received| && s.reader.result == 0
    ensures Try(Try(Try(s, WriterStep), Close), ReaderStep)
         == s.(reader := s.reader.(pc := Idle), writer := Writer(WIdle, [], 1, [7], 0, 3), closed := true)
  {
  }

  lemma FindsEmpty()
    ensures Try(Try(Try(Init(4), Read(1)), ReaderStep), ReaderStep)
         == Init(4).(reader := Reader(Empty(0, 0, false), [1], 0, 0, 0, 1, false, [1], [], [], 0))
  {
  }

  lemma StartsToWrite(s: State)
    requires s.writer.pc.WIdle? && |s.data| == 4 && s.wp == 0 && s.rp == 0 && !s.closed
    requires s.sent == [] && s.taken == 0 && s.reader.from <= |s.received|
    ensures Try(Try(Try(s, Write([7])), WriterStep), WriterStep) == s.(writer := Writer(WStore(0), [7], 0, [7], 0, 3))
  {
  }

  lemma StoreSeven(s: State)
    requires s.writer == Writer(WStore(0), [7], 0, [7], 0, 3) && s.data == [0, 0, 0, 0] && s.wp == 0 && s.sent == []
    requires s.reader.from <= |s.received|
    ensures Try(Try(Try(s, WriterStep), WriterStep), WriterStep)
         == s.(writer := Writer(WNotify, [], 1, [7], 0, 3), data := [7, 0, 0, 0], wp := 1, sent := [7])
  {
    var t := s.(writer := Writer(WPublish(0), [7], 0, [7], 0, 3), data := [7, 0, 0, 0]);
    assert s.data[0 := 7] == [7, 0, 0, 0];
    assert Try(s, WriterStep) == t;
    var u := t.(writer := Writer(WLoopHead, [], 1, [7], 0, 3), wp := 1, sent := [7]);
    assert [7][1..] == [] && t.sent + [t.writer.todo[0]] == [7];
    assert Try(t, WriterStep) == u;
  }

  lemma ThreeSteps(s: State, a: Action, b: Action, c: Action, rest: seq<Action>)
    ensures RunFrom(s, [a, b, c] + rest) == RunFrom(Try(Try(Try(s, a), b), c), rest)
  {
    var all := [a, b, c] + rest;
    assert all[1..] == [b, c] + rest && all[1..][1..] == [c] + rest && all[1..][1..][1..] == rest;
    assert RunFrom(s, all) == RunFrom(Try(s, a), all[1..]) == RunFrom(Try(Try(s, a), b), all[1..][1..]);
  }
}
