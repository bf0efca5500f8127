/** Which CPU flags may still be read by the code at a given address
    (native/blink/blink/deps.c), and why a flag write that the analysis calls
    dead can be dropped. */
module FlagLiveness {
  import opened Bits
  import opened Words
  import opened Wrappers

  type Flag = f: nat | f < 32

  /** How IsJump, IsConditionalJump and ClassifyOp sort an instruction. */
  datatype Kind = Normal | Jump | CondJump | Abnormal

  /** A decoded instruction: its encoding, and what the per-op tables say of it. */
  datatype Op = Op(code: nat, len: nat, kind: Kind, disp: int, deps: set<Flag>, clobbers: set<Flag>)

  /** Guest code; decoding fails at addresses outside the domain. */
  type Program = map<int, Op>

  /** Result of the analysis; Unknown is the -1 of the C code. */
  datatype Needed = Unknown | Flags(need: set<Flag>) {
    function Plus(more: set<Flag>): Needed {
      if Unknown? then Unknown else Flags(need + more)
    }
  }

  const LOOK_LIMIT: nat := 32

  // ----- the analysis -----

  function Crawl(p: Program, pc: int, my: set<Flag>, look: nat): Needed
    requires look > 0
    decreases look
  {
    if pc !in p then Unknown else
    var op := p[pc];
    var next, need, rest := pc + op.len, op.deps * my, my - op.clobbers;
    if rest == {} then Flags(need)
    else if look == 1 then Unknown
    else match op.kind
      case Jump => Crawl(p, next + op.disp, rest, look - 1).Plus(need)
      case CondJump =>
        var taken := Crawl(p, next + op.disp, rest, look - 1);
        if taken.Unknown? then Unknown
        else Crawl(p, next, rest, look - 1).Plus(need + taken.need)
      case Abnormal => Unknown
      case Normal => Crawl(p, next, rest, look - 1).Plus(need)
  }

  /** CrawlFlags: a loop along the straight line, recursion at conditional jumps. */
  method CrawlFlags(p: Program, start: int, flags: set<Flag>, limit: nat) returns (r: Needed)
    requires limit > 0
    ensures r == Crawl(p, start, flags, limit)
    decreases limit
  {
    var pc, my, look, need := start, flags, limit, {};
    while true
      invariant 0 < look <= limit
      invariant Crawl(p, pc, my, look).Plus(need) == Crawl(p, start, flags, limit)
      decreases look
    {
      if pc !in p { return Unknown; }
      var op := p[pc];
      pc := pc + op.len;
      need := need + op.deps * my;
      my := my - op.clobbers;
      if my == {} { return Flags(need); }
      look := look - 1;
      if look == 0 { return Unknown; }
      match op.kind {
        case Jump => pc := pc + op.disp;
        case CondJump =>
          var taken := CrawlFlags(p, pc + op.disp, my, look);
          if taken.Unknown? { return Unknown; }
          need := need + taken.need;
        case Abnormal => return Unknown;
        case Normal =>
      }
    }
  }

  /** GetNeededFlags. */
  method GetNeededFlags(p: Program, pc: int, flags: set<Flag>) returns (r: Needed)
    ensures r == Crawl(p, pc, flags, LOOK_LIMIT)
    ensures r.Flags? <==> !MayBlock(p, pc, flags, 32)
    ensures r.Flags? ==> forall f :: f in r.need <==> f in flags && MayRead(p, pc, f)
  {
    hide MayRead, MayBlock, Crawl;
    r := CrawlFlags(p, pc, flags, LOOK_LIMIT);
    AnswersIff(p, pc, flags, LOOK_LIMIT);
    if r.Flags? {
      forall f ensures f in r.need <==> f in flags && MayRead(p, pc, f) {
        AnswerIsExact(p, pc, flags, LOOK_LIMIT, f);
      }
    }
  }

  // ----- what the answer means on the control-flow graph -----

  /** Can control go from op at pc to pc'? The analysis does not follow abnormal ops. */
  predicate Follows(op: Op, pc: int, pc': int) {
    match op.kind
    case Normal => pc' == pc + op.len
    case Jump => pc' == pc + op.len + op.disp
    case CondJump => pc' == pc + op.len || pc' == pc + op.len + op.disp
    case Abnormal => false
  }

  /** A path through the program; only its last address may lie outside. */
  ghost predicate Path(p: Program, path: seq<int>) {
    && path != []
    && forall i | 0 <= i < |path| - 1 :: path[i] in p && Follows(p[path[i]], path[i], path[i + 1])
  }

  /** The last instruction of the path reads f, and none before it rewrites f. */
  ghost predicate ReadsFirst(p: Program, path: seq<int>, f: Flag) {
    && Path(p, path) && path[|path| - 1] in p && f in p[path[|path| - 1]].deps
    && forall i | 0 <= i < |path| - 1 :: f !in p[path[i]].clobbers
  }

  ghost predicate MayRead(p: Program, pc: int, f: Flag) {
    exists path: seq<int> :: ReadsFirst(p, path, f) && path[0] == pc
  }

  lemma MayReadStep(p: Program, pc: int, f: Flag)
    requires pc in p
    ensures MayRead(p, pc, f) <==>
      f in p[pc].deps || (f !in p[pc].clobbers && exists pc' :: Follows(p[pc], pc, pc') && MayRead(p, pc', f))
  {
    if MayRead(p, pc, f) && f !in p[pc].deps {
      var path: seq<int> :| ReadsFirst(p, path, f) && path[0] == pc;
      assert f !in p[path[0]].clobbers && Follows(p[pc], pc, path[1]);
      assert ReadsFirst(p, path[1..], f);
    }
    if f in p[pc].deps {
      assert ReadsFirst(p, [pc], f);
    }
    if f !in p[pc].clobbers && exists pc' :: Follows(p[pc], pc, pc') && MayRead(p, pc', f) {
      var pc' :| Follows(p[pc], pc, pc') && MayRead(p, pc', f);
      var rest: seq<int> :| ReadsFirst(p, rest, f) && rest[0] == pc';
      assert ReadsFirst(p, [pc] + rest, f) by { PathPrepend(p, pc, rest); }
    }
  }

  lemma PathPrepend(p: Program, pc: int, rest: seq<int>)
    requires pc in p && Path(p, rest) && Follows(p[pc], pc, rest[0])
    ensures Path(p, [pc] + rest)
  {
    var path := [pc] + rest;
    forall i | 0 <= i < |path| - 1 ensures path[i] in p && Follows(p[path[i]], path[i], path[i + 1]) {
      if i > 0 { assert path[i] == rest[i - 1] && path[i + 1] == rest[i]; }
    }
  }

  /** An answer is exact: it holds precisely the tracked flags that some path, of
      any length, reads before rewriting them. */
  lemma {:induction false} AnswerIsExact(p: Program, pc: int, F: set<Flag>, look: nat, f: Flag)
    requires look > 0 && Crawl(p, pc, F, look).Flags?
    ensures f in Crawl(p, pc, F, look).need <==> f in F && MayRead(p, pc, f)
    decreases look
  {
    var op := p[pc];
    MayReadStep(p, pc, f);
    hide MayRead;
    if F - op.clobbers == {} {
      assert f in F ==> f in op.clobbers || f !in F - op.clobbers;
    } else {
      match op.kind
      case Normal => AnswerIsExact(p, pc + op.len, F - op.clobbers, look - 1, f);
      case Jump => AnswerIsExact(p, pc + op.len + op.disp, F - op.clobbers, look - 1, f);
      case CondJump =>
        AnswerIsExact(p, pc + op.len + op.disp, F - op.clobbers, look - 1, f);
        AnswerIsExact(p, pc + op.len, F - op.clobbers, look - 1, f);
    }
  }

  /** The flags of F that no instruction on the path rewrites. */
  function Left(p: Program, path: seq<int>, F: set<Flag>): set<Flag>
    decreases |path|
  {
    if path == [] then F else Left(p, path[1..], if path[0] in p then F - p[path[0]].clobbers else F)
  }

  /** A path on which flags are still tracked when it leaves the program, uses up
      the limit, or comes to an instruction that the analysis does not follow. */
  ghost predicate Blocked(p: Program, path: seq<int>, F: set<Flag>, look: nat) {
    var last := if path == [] then 0 else path[|path| - 1];
    && Path(p, path) && |path| <= look
    && (|path| == 1 || Left(p, path[..|path| - 1], F) != {})
    && (last !in p || (Left(p, path, F) != {} && (|path| == look || p[last].kind == Abnormal)))
  }

  ghost predicate MayBlock(p: Program, pc: int, F: set<Flag>, look: nat) {
    exists path: seq<int> :: Blocked(p, path, F, look) && path[0] == pc
  }

  lemma LeftPrepend(p: Program, pc: int, rest: seq<int>, F: set<Flag>)
    requires pc in p && rest != []
    ensures var path, F' := [pc] + rest, F - p[pc].clobbers;
      Left(p, path, F) == Left(p, rest, F') && Left(p, path[..|path| - 1], F) == Left(p, rest[..|rest| - 1], F')
  {
    var path := [pc] + rest;
    assert path[1..] == rest && path[..|path| - 1][1..] == rest[..|rest| - 1];
  }

  lemma BlockedPrepend(p: Program, pc: int, rest: seq<int>, F: set<Flag>, look: nat)
    requires pc in p && rest != [] && look > 1 && F - p[pc].clobbers != {} && Follows(p[pc], pc, rest[0])
    ensures Blocked(p, [pc] + rest, F, look) <==> Blocked(p, rest, F - p[pc].clobbers, look - 1)
  {
    var path := [pc] + rest;
    LeftPrepend(p, pc, rest, F);
    hide Left;
    assert Path(p, path) <==> Path(p, rest) by {
      if Path(p, rest) { PathPrepend(p, pc, rest); }
      if Path(p, path) { assert path[1..] == rest; }
    }
    if |rest| == 1 { LeftNothing(p, rest, F - p[pc].clobbers); }
  }

  lemma LeftNothing(p: Program, path: seq<int>, F: set<Flag>)
    requires |path| == 1
    ensures Left(p, path[..|path| - 1], F) == F
  {
  }

  lemma BlockedAtOnce(p: Program, pc: int, F: set<Flag>, look: nat)
    requires look > 0
    ensures Blocked(p, [pc], F, look) <==>
      pc !in p || (F - p[pc].clobbers != {} && (look == 1 || p[pc].kind == Abnormal))
  {
    if pc in p {
      assert [pc][1..] == [];
      assert Left(p, [pc], F) == F - p[pc].clobbers;
    }
  }

  lemma MayBlockStep(p: Program, pc: int, F: set<Flag>, look: nat)
    requires look > 0
    ensures MayBlock(p, pc, F, look) <==>
      pc !in p || (F - p[pc].clobbers != {} && (look == 1 || p[pc].kind == Abnormal
        || exists pc' :: Follows(p[pc], pc, pc') && MayBlock(p, pc', F - p[pc].clobbers, look - 1)))
  {
    hide Left;
    BlockedAtOnce(p, pc, F, look);
    assert [pc][0] == pc;
    if MayBlock(p, pc, F, look) && pc in p {
      var path: seq<int> :| Blocked(p, path, F, look) && path[0] == pc;
      if |path| == 1 {
        assert path == [pc];
      } else {
        var rest := path[1..];
        assert path == [pc] + rest && Follows(p[path[0]], path[0], path[1]);
        LeftShrinks(p, path, F);
        BlockedPrepend(p, pc, rest, F, look);
      }
    }
    if pc in p && F - p[pc].clobbers != {} && look > 1 &&
       exists pc' :: Follows(p[pc], pc, pc') && MayBlock(p, pc', F - p[pc].clobbers, look - 1)
    {
      var pc' :| Follows(p[pc], pc, pc') && MayBlock(p, pc', F - p[pc].clobbers, look - 1);
      var rest: seq<int> :| Blocked(p, rest, F - p[pc].clobbers, look - 1) && rest[0] == pc';
      BlockedPrepend(p, pc, rest, F, look);
      assert ([pc] + rest)[0] == pc;
    }
  }

  /** Flags left before the end of a path are left after its first instruction. */
  lemma LeftShrinks(p: Program, path: seq<int>, F: set<Flag>)
    requires |path| > 1 && path[0] in p && Left(p, path[..|path| - 1], F) != {}
    ensures F - p[path[0]].clobbers != {}
  {
    var rest := path[..|path| - 1][1..];
    LeftSubset(p, rest, F - p[path[0]].clobbers);
  }

  lemma {:induction false} LeftSubset(p: Program, path: seq<int>, F: set<Flag>)
    ensures Left(p, path, F) <= F
    decreases |path|
  {
    if path != [] { LeftSubset(p, path[1..], if path[0] in p then F - p[path[0]].clobbers else F); }
  }

  /** The analysis answers exactly when no path is blocked: on every path all flags
      of F are rewritten before the limit, an abnormal instruction or undecodable code. */
  lemma {:induction false} AnswersIff(p: Program, pc: int, F: set<Flag>, look: nat)
    requires look > 0
    ensures Crawl(p, pc, F, look).Flags? <==> !MayBlock(p, pc, F, look)
    decreases look
  {
    MayBlockStep(p, pc, F, look);
    hide MayBlock;
    if pc in p && F - p[pc].clobbers != {} && look > 1 {
      var op, rest := p[pc], F - p[pc].clobbers;
      var next, target := pc + op.len, pc + op.len + op.disp;
      assert op.kind.Jump? || op.kind.CondJump? ==> Follows(op, pc, target);
      assert op.kind.Normal? || op.kind.CondJump? ==> Follows(op, pc, next);
      match op.kind
      case Normal => AnswersIff(p, next, rest, look - 1);
      case Jump => AnswersIff(p, target, rest, look - 1);
      case CondJump =>
        AnswersIff(p, target, rest, look - 1);
        AnswersIff(p, next, rest, look - 1);
      case Abnormal =>
    }
  }

  // ----- guest execution -----

  /** Machine state: program counter, everything else that is not a flag, and
      the flags that are set. */
  datatype State<R> = State(pc: int, regs: R, flags: set<Flag>)

  ghost predicate Agree<R>(s: State<R>, t: State<R>, f: Flag) {
    f in s.flags <==> f in t.flags
  }

  ghost predicate AgreeExcept<R>(s: State<R>, t: State<R>, dead: set<Flag>) {
    forall f: Flag :: f in dead || Agree(s, t, f)
  }

  ghost predicate SameButFlags<R>(s: State<R>, t: State<R>) {
    s.pc == t.pc && s.regs == t.regs
  }

  /** Where an instruction of this kind can continue. */
  ghost predicate Continues(op: Op, pc: int, pc': int) {
    op.kind.Abnormal? || Follows(op, pc, pc')
  }

  type Exec<!R> = (Op, State<R>) -> State<R>

  /** The tables are right about op on states s and t: flags outside deps do not
      influence what op does, and a clobbered flag is rewritten. */
  ghost predicate Obeys<R>(exec: Exec<R>, op: Op, s: State<R>, t: State<R>) {
    && Continues(op, s.pc, exec(op, s).pc)
    && (SameButFlags(s, t) && (forall f | f in op.deps :: Agree(s, t, f)) ==>
          && SameButFlags(exec(op, s), exec(op, t))
          && forall f: Flag :: f in op.clobbers || Agree(s, t, f) ==> Agree(exec(op, s), exec(op, t), f))
  }

  /** The same on every pair of states. A variable-count shift never meets this: it
      is listed as rewriting flags that a zero count leaves alone. */
  ghost predicate TablesHold<R(!new)>(exec: Exec<R>, p: Program) {
    forall pc, s: State<R>, t: State<R> | pc in p :: Obeys(exec, p[pc], s, t)
  }

  function Run<R>(exec: Exec<R>, p: Program, s: State<R>, n: nat): Option<State<R>>
    decreases n
  {
    if n == 0 then Some(s)
    else if s.pc !in p then None
    else Run(exec, p, exec(p[s.pc], s), n - 1)
  }

  /** The flags of F that no instruction of the first n steps has clobbered. */
  function Unclobbered<R>(exec: Exec<R>, p: Program, s: State<R>, F: set<Flag>, n: nat): set<Flag>
    decreases n
  {
    if n == 0 || s.pc !in p then F
    else Unclobbered(exec, p, exec(p[s.pc], s), F - p[s.pc].clobbers, n - 1)
  }

  /** The tables are right about the instruction that two runs have come to. */
  ghost predicate ObeysAt<R>(exec: Exec<R>, p: Program, a: Option<State<R>>, b: Option<State<R>>) {
    a.Some? && b.Some? && a.value.pc in p ==> Obeys(exec, p[a.value.pc], a.value, b.value)
  }

  /** The tables are right wherever the first n steps from s and t come. */
  ghost predicate ObeysOnRuns<R>(exec: Exec<R>, p: Program, s: State<R>, t: State<R>, n: nat) {
    forall i | 0 <= i < n :: ObeysAt(exec, p, Run(exec, p, s, i), Run(exec, p, t, i))
  }

  // ----- soundness of one answer -----

  /** One step keeps agreement outside the dead flags, and the analysis still
      holds where the step went. */
  lemma StepKeeps<R>(exec: Exec<R>, p: Program, s: State<R>, t: State<R>, F: set<Flag>, look: nat)
    requires look > 0 && SameButFlags(s, t)
    requires s.pc in p ==> Obeys(exec, p[s.pc], s, t)
    requires Crawl(p, s.pc, F, look).Flags?
    requires AgreeExcept(s, t, F - Crawl(p, s.pc, F, look).need)
    ensures s.pc in p
    ensures var op, s', t' := p[s.pc], exec(p[s.pc], s), exec(p[s.pc], t);
      var F' := F - op.clobbers;
      && SameButFlags(s', t')
      && (F' == {} ==> s' == t')
      && (F' != {} ==> look > 1 && Crawl(p, s'.pc, F', look - 1).Flags?)
      && (F' != {} ==> Crawl(p, s'.pc, F', look - 1).need <= Crawl(p, s.pc, F, look).need)
      && (F' != {} ==> AgreeExcept(s', t', F' - Crawl(p, s'.pc, F', look - 1).need))
  {
    var op := p[s.pc];
    var s', t' := exec(op, s), exec(op, t);
    assert op.deps * F <= Crawl(p, s.pc, F, look).need;
    assert Continues(op, s.pc, s'.pc);
    if F - op.clobbers == {} {
      assert s'.flags == t'.flags by {
        forall f: Flag ensures f in s'.flags <==> f in t'.flags {
          assert f !in F - op.clobbers;
          assert Agree(s', t', f);
        }
      }
    }
  }

  /** If Crawl answers N for F, two runs that differ only in flags of F outside N
      take the same path and meet in identical states, within `look` steps and
      exactly when every flag of F has been clobbered. */
  lemma {:induction false} Converge<R>(
    exec: Exec<R>, p: Program, s: State<R>, t: State<R>, F: set<Flag>, look: nat)
    returns (k: nat)
    requires ObeysOnRuns(exec, p, s, t, look) && look > 0 && SameButFlags(s, t)
    requires Crawl(p, s.pc, F, look).Flags?
    requires AgreeExcept(s, t, F - Crawl(p, s.pc, F, look).need)
    ensures 1 <= k <= look && Unclobbered(exec, p, s, F, k) == {}
    ensures Run(exec, p, s, k).Some? && Run(exec, p, s, k) == Run(exec, p, t, k)
    ensures forall j | 0 <= j <= k :: Run(exec, p, s, j).Some? && Run(exec, p, t, j).Some?
              && SameButFlags(Run(exec, p, s, j).value, Run(exec, p, t, j).value)
    ensures forall j | 0 < j < k :: Unclobbered(exec, p, s, F, j) != {}
    decreases look
  {
    assert ObeysAt(exec, p, Run(exec, p, s, 0), Run(exec, p, t, 0));
    StepKeeps(exec, p, s, t, F, look);
    var op := p[s.pc];
    var s', t', F' := exec(op, s), exec(op, t), F - op.clobbers;
    if F' == {} {
      k := 1;
    } else {
      forall i | 0 <= i < look - 1 ensures ObeysAt(exec, p, Run(exec, p, s', i), Run(exec, p, t', i)) {
        assert ObeysAt(exec, p, Run(exec, p, s, i + 1), Run(exec, p, t, i + 1));
      }
      var k' := Converge(exec, p, s', t', F', look - 1);
      k := k' + 1;
      forall j | 0 < j <= k
        ensures Run(exec, p, s, j) == Run(exec, p, s', j - 1)
             && Run(exec, p, t, j) == Run(exec, p, t', j - 1)
             && Unclobbered(exec, p, s, F, j) == Unclobbered(exec, p, s', F', j - 1)
      {
      }
    }
  }

  // ----- whole runs of optimised code -----

  /** Flag f is dead at pc: some crawl from pc tracked f and did not need it. */
  ghost predicate Dead(p: Program, pc: int, f: Flag) {
    exists F: set<Flag>, look: nat :: look > 0 && DeadBy(p, pc, f, F, look)
  }

  ghost predicate DeadBy(p: Program, pc: int, f: Flag, F: set<Flag>, look: nat)
    requires look > 0
  {
    f in F && Crawl(p, pc, F, look).Flags? && f !in Crawl(p, pc, F, look).need
  }

  /** For each optimised instruction, the flags it no longer writes. */
  type Sites = map<int, set<Flag>>

  /** Every site drops only flags that a crawl of at most `limit` steps from the
      following instruction did not report (GetNeededFlags: limit 32). */
  ghost predicate Justified(p: Program, sites: Sites, limit: nat) {
    forall pc | pc in sites && pc in p ::
      p[pc].kind == Normal && Droppable(p, pc + p[pc].len, sites[pc], limit)
  }

  ghost predicate Droppable(p: Program, pc: int, dropped: set<Flag>, limit: nat) {
    exists F: set<Flag> :: Licensed(p, pc, F, dropped, limit)
  }

  ghost predicate Licensed(p: Program, pc: int, F: set<Flag>, dropped: set<Flag>, limit: nat) {
    limit > 0 && Crawl(p, pc, F, limit).Flags? && dropped <= F - Crawl(p, pc, F, limit).need
  }

  /** One step of optimised code: at a site the dropped flags hold whatever
      `junk` says. */
  function OptStep<R>(exec: Exec<R>, p: Program, sites: Sites, junk: set<Flag>, s: State<R>): State<R>
    requires s.pc in p
  {
    var s' := exec(p[s.pc], s);
    if s.pc in sites
    then s'.(flags := s'.flags - sites[s.pc] + junk * sites[s.pc])
    else s'
  }

  function OptRun<R>(exec: Exec<R>, p: Program, sites: Sites, junk: nat -> set<Flag>, s: State<R>, n: nat)
    : Option<State<R>>
  {
    if n == 0 then Some(s)
    else
      match OptRun(exec, p, sites, junk, s, n - 1)
      case None => None
      case Some(s') => if s'.pc in p then Some(OptStep(exec, p, sites, junk(n), s')) else None
  }

  function Differing<R>(s: State<R>, t: State<R>): set<Flag> {
    (s.flags - t.flags) + (t.flags - s.flags)
  }

  /** The optimised state matches the original one up to dead flags. */
  ghost predicate Matches<R>(p: Program, s: State<R>, t: State<R>) {
    SameButFlags(s, t) && forall f | f in Differing(s, t) :: Dead(p, s.pc, f)
  }

  lemma RunOneMore<R>(exec: Exec<R>, p: Program, s: State<R>, n: nat)
    ensures Run(exec, p, s, n + 1) ==
      match Run(exec, p, s, n)
      case None => None
      case Some(s') => if s'.pc in p then Some(exec(p[s'.pc], s')) else None
    decreases n
  {
    if n > 0 && s.pc in p { RunOneMore(exec, p, exec(p[s.pc], s), n - 1); }
  }

  /** A dead flag is not read, and stays dead until it is clobbered. */
  lemma DeadStays<R>(exec: Exec<R>, p: Program, s: State<R>, f: Flag)
    requires Dead(p, s.pc, f) && (s.pc in p ==> Continues(p[s.pc], s.pc, exec(p[s.pc], s).pc))
    ensures s.pc in p && f !in p[s.pc].deps
    ensures f in p[s.pc].clobbers || Dead(p, exec(p[s.pc], s).pc, f)
  {
    var F: set<Flag>, look: nat :| look > 0 && DeadBy(p, s.pc, f, F, look);
    var op := p[s.pc];
    assert f in op.deps ==> f in op.deps * F;
    if f !in op.clobbers {
      assert f in F - op.clobbers;
      assert DeadBy(p, exec(op, s).pc, f, F - op.clobbers, look - 1);
    }
  }

  /** What one step of the optimised code can make differ. */
  lemma OptStepDiffers<R>(exec: Exec<R>, p: Program, sites: Sites, junk: set<Flag>, s: State<R>, t: State<R>)
    requires s.pc in p && Obeys(exec, p[s.pc], s, t) && SameButFlags(s, t)
    requires forall f | f in Differing(s, t) :: f !in p[s.pc].deps
    ensures var s', u := exec(p[s.pc], s), OptStep(exec, p, sites, junk, t);
      && SameButFlags(s', u)
      && forall f | f in Differing(s', u) ::
           (s.pc in sites && f in sites[s.pc]) || (f in Differing(s, t) && f !in p[s.pc].clobbers)
  {
    var s', t', u := exec(p[s.pc], s), exec(p[s.pc], t), OptStep(exec, p, sites, junk, t);
    forall f | f in p[s.pc].deps ensures Agree(s, t, f) {
      assert f !in Differing(s, t);
    }
    forall f | f in Differing(s', u) && (s.pc !in sites || f !in sites[s.pc])
      ensures f in Differing(s, t) && f !in p[s.pc].clobbers
    {
      assert !Agree(s', t', f);
    }
  }

  lemma OptStepKeeps<R>(
    exec: Exec<R>, p: Program, sites: Sites, limit: nat, junk: set<Flag>, s: State<R>, t: State<R>)
    requires s.pc in p && Obeys(exec, p[s.pc], s, t) && Justified(p, sites, limit) && Matches(p, s, t)
    ensures Matches(p, exec(p[s.pc], s), OptStep(exec, p, sites, junk, t))
  {
    var s', u := exec(p[s.pc], s), OptStep(exec, p, sites, junk, t);
    forall f | f in Differing(s, t)
      ensures f !in p[s.pc].deps && (f in p[s.pc].clobbers || Dead(p, s'.pc, f))
    {
      DeadStays(exec, p, s, f);
    }
    OptStepDiffers(exec, p, sites, junk, s, t);
    forall f | f in Differing(s', u) ensures Dead(p, s'.pc, f) {
      if s.pc in sites && f in sites[s.pc] {
        DroppedIsDead(p, s'.pc, sites[s.pc], limit, f);
      }
    }
  }

  lemma DroppedIsDead(p: Program, pc: int, dropped: set<Flag>, limit: nat, f: Flag)
    requires Droppable(p, pc, dropped, limit) && f in dropped
    ensures Dead(p, pc, f)
  {
    var F: set<Flag> :| Licensed(p, pc, F, dropped, limit);
    assert f in F - Crawl(p, pc, F, limit).need;
    assert DeadBy(p, pc, f, F, limit);
  }

  /** The tables are right wherever the first n steps of the original and of the
      optimised code come. */
  ghost predicate ObeysAlong<R>(
    exec: Exec<R>, p: Program, sites: Sites, junk: nat -> set<Flag>, s: State<R>, n: nat)
  {
    forall i | 0 <= i < n :: ObeysAt(exec, p, Run(exec, p, s, i), OptRun(exec, p, sites, junk, s, i))
  }

  /** Dropping the dead flag writes preserves the meaning of every run on which the
      tables are right: at every step, whatever is left in the dropped flags,
      optimised and original code are at the same instruction with the same
      registers and memory, and differ at most in flags that are dead there. */
  lemma {:induction false} OptimisedRunsMatch<R>(
    exec: Exec<R>, p: Program, sites: Sites, limit: nat, junk: nat -> set<Flag>, s: State<R>, n: nat)
    requires ObeysAlong(exec, p, sites, junk, s, n) && Justified(p, sites, limit)
    ensures Run(exec, p, s, n).Some? <==> OptRun(exec, p, sites, junk, s, n).Some?
    ensures Run(exec, p, s, n).Some? ==> Matches(p, Run(exec, p, s, n).value, OptRun(exec, p, sites, junk, s, n).value)
  {
    if n > 0 {
      OptimisedRunsMatch(exec, p, sites, limit, junk, s, n - 1);
      RunOneMore(exec, p, s, n - 1);
      var before := Run(exec, p, s, n - 1);
      if before.Some? && before.value.pc in p {
        assert ObeysAt(exec, p, before, OptRun(exec, p, sites, junk, s, n - 1));
        OptStepKeeps(exec, p, sites, limit, junk(n), before.value, OptRun(exec, p, sites, junk, s, n - 1).value);
      }
    }
  }

  /** Tables that are right on all states are right along all runs. */
  lemma TablesHoldOnRuns<R(!new)>(
    exec: Exec<R>, p: Program, sites: Sites, junk: nat -> set<Flag>, s: State<R>, t: State<R>, n: nat)
    requires TablesHold(exec, p)
    ensures ObeysOnRuns(exec, p, s, t, n) && ObeysAlong(exec, p, sites, junk, s, n)
  {
  }

  /** The tables are right at the states that the first n steps of the original
      code come to, whatever flags the optimised code has there. */
  ghost predicate RightAlong<R(!new)>(exec: Exec<R>, p: Program, s: State<R>, n: nat) {
    forall i | 0 <= i < n && Run(exec, p, s, i).Some? && Run(exec, p, s, i).value.pc in p ::
      RightAt(exec, p, Run(exec, p, s, i).value)
  }

  ghost predicate RightAt<R(!new)>(exec: Exec<R>, p: Program, s: State<R>)
    requires s.pc in p
  {
    forall t: State<R> :: Obeys(exec, p[s.pc], s, t)
  }

  /** So a condition on the original run alone keeps every optimised run in step. */
  lemma RightRunsMatch<R(!new)>(
    exec: Exec<R>, p: Program, sites: Sites, limit: nat, junk: nat -> set<Flag>, s: State<R>, n: nat)
    requires RightAlong(exec, p, s, n) && Justified(p, sites, limit)
    ensures Run(exec, p, s, n).Some? <==> OptRun(exec, p, sites, junk, s, n).Some?
    ensures Run(exec, p, s, n).Some? ==> Matches(p, Run(exec, p, s, n).value, OptRun(exec, p, sites, junk, s, n).value)
  {
    assert ObeysAlong(exec, p, sites, junk, s, n);
    OptimisedRunsMatch(exec, p, sites, limit, junk, s, n);
  }

  // ----- exactly when dropping flag writes is right, whatever the tables say -----

  /** The flags that an instruction really writes in a given state. */
  type Writes<!R> = (Op, State<R>) -> set<Flag>

  /** As long as only flags differ and do not show in the outcome, a flag is either
      written, to the same value, or differs afterwards just when it did before (it is
      left alone, or complemented). */
  ghost predicate Honest<R(!new)>(exec: Exec<R>, writes: Writes<R>, op: Op, s: State<R>) {
    forall t: State<R> | SameButFlags(s, t) && SameButFlags(exec(op, s), exec(op, t)) ::
      WritesOrKeeps(exec, writes(op, s), op, s, t)
  }

  ghost predicate WritesOrKeeps<R>(exec: Exec<R>, written: set<Flag>, op: Op, s: State<R>, t: State<R>) {
    forall f: Flag ::
      if f in written then Agree(exec(op, s), exec(op, t), f)
      else (Agree(s, t, f) <==> Agree(exec(op, s), exec(op, t), f))
  }

  ghost predicate HonestAlong<R(!new)>(exec: Exec<R>, writes: Writes<R>, p: Program, s: State<R>, n: nat) {
    forall i | 0 <= i < n && Run(exec, p, s, i).Some? && Run(exec, p, s, i).value.pc in p ::
      Honest(exec, writes, p[Run(exec, p, s, i).value.pc], Run(exec, p, s, i).value)
  }

  /** The flags that a dropped write has left open after n steps of the original run
      and that no instruction has really written since. */
  function Stale<R>(exec: Exec<R>, writes: Writes<R>, p: Program, sites: Sites, s: State<R>, n: nat): set<Flag> {
    if n == 0 then {}
    else
      match Run(exec, p, s, n - 1)
      case None => {}
      case Some(a) =>
        if a.pc !in p then {}
        else Stale(exec, writes, p, sites, s, n - 1) - writes(p[a.pc], a) + if a.pc in sites then sites[a.pc] else {}
  }

  /** Some value of the flags in D changes what the instruction at s does. */
  ghost predicate Matters<R(!new)>(exec: Exec<R>, op: Op, s: State<R>, D: set<Flag>) {
    exists t: State<R> :: SameButFlags(s, t) && AgreeExcept(s, t, D) && !SameButFlags(exec(op, s), exec(op, t))
  }

  /** No instruction among the first n of the original run depends on a stale flag. */
  ghost predicate NoStaleRead<R(!new)>(
    exec: Exec<R>, writes: Writes<R>, p: Program, sites: Sites, s: State<R>, n: nat)
  {
    forall i | 0 <= i < n && Run(exec, p, s, i).Some? && Run(exec, p, s, i).value.pc in p ::
      StaleUnread(exec, writes, p, sites, s, i)
  }

  ghost predicate StaleUnread<R(!new)>(
    exec: Exec<R>, writes: Writes<R>, p: Program, sites: Sites, s: State<R>, i: nat)
    requires Run(exec, p, s, i).Some? && Run(exec, p, s, i).value.pc in p
  {
    var a := Run(exec, p, s, i).value;
    !Matters(exec, p[a.pc], a, Stale(exec, writes, p, sites, s, i))
  }

  /** Original and optimised code are at the same place with the same registers and
      memory, or have both stopped. */
  ghost predicate Together<R>(a: Option<State<R>>, b: Option<State<R>>) {
    (a.Some? <==> b.Some?) && (a.Some? ==> SameButFlags(a.value, b.value))
  }

  ghost predicate InStep<R>(
    exec: Exec<R>, p: Program, sites: Sites, junk: nat -> set<Flag>, s: State<R>, n: nat)
  {
    forall i | 0 <= i <= n :: Together(Run(exec, p, s, i), OptRun(exec, p, sites, junk, s, i))
  }

  /** Together, and different at most in flags of D. */
  ghost predicate DiffersIn<R>(a: Option<State<R>>, b: Option<State<R>>, D: set<Flag>) {
    Together(a, b) && (a.Some? ==> AgreeExcept(a.value, b.value, D))
  }

  /** Of the flags in D exactly those in X differ. */
  ghost predicate DiffersJustIn<R>(a: Option<State<R>>, b: Option<State<R>>, D: set<Flag>, X: set<Flag>) {
    a.Some? && b.Some? ==> forall f | f in D :: Agree(a.value, b.value, f) <==> f !in X
  }

  /** The flags of a state with those in X turned round. */
  function Flip<R>(a: Option<State<R>>, X: set<Flag>): set<Flag> {
    if a.None? then {} else (a.value.flags - X) + (X - a.value.flags)
  }

  lemma StaleStep<R(!new)>(exec: Exec<R>, writes: Writes<R>, p: Program, sites: Sites, junk: set<Flag>,
                           a: State<R>, b: State<R>, D: set<Flag>, X: set<Flag>)
    requires a.pc in p && Honest(exec, writes, p[a.pc], a) && !Matters(exec, p[a.pc], a, D)
    requires SameButFlags(a, b) && AgreeExcept(a, b, D)
    ensures var D' := D - writes(p[a.pc], a) + if a.pc in sites then sites[a.pc] else {};
      var a', b' := exec(p[a.pc], a), OptStep(exec, p, sites, junk, b);
      && SameButFlags(a', b') && AgreeExcept(a', b', D')
      && (junk == Flip(Some(a'), X) && DiffersJustIn(Some(a), Some(b), D, X) ==>
            DiffersJustIn(Some(a'), Some(b'), D', X))
  {
    var op := p[a.pc];
    var a', c, b' := exec(op, a), exec(op, b), OptStep(exec, p, sites, junk, b);
    var dropped := if a.pc in sites then sites[a.pc] else {};
    assert SameButFlags(a', c);
    assert WritesOrKeeps(exec, writes(op, a), op, a, b);
    forall f: Flag ensures f in D - writes(op, a) + dropped || Agree(a', b', f) {
      if f !in dropped {
        assert Agree(c, b', f);
        if f in writes(op, a) { assert Agree(a', c, f); } else { assert Agree(a, b, f) <==> Agree(a', c, f); }
      }
    }
    if junk == Flip(Some(a'), X) && DiffersJustIn(Some(a), Some(b), D, X) {
      forall f | f in D - writes(op, a) + dropped ensures Agree(a', b', f) <==> f !in X {
        if f in dropped {
          assert f in b'.flags <==> f in junk;
        } else {
          assert Agree(c, b', f) && (Agree(a, b, f) <==> Agree(a', c, f));
        }
      }
    }
  }

  /** While no stale flag is read the optimised code differs in stale flags only; any
      set X of them can be made to differ, by the right leftovers. */
  lemma {:induction false} StaleHolds<R(!new)>(exec: Exec<R>, writes: Writes<R>, p: Program, sites: Sites,
                                               junk: nat -> set<Flag>, X: set<Flag>, s: State<R>, n: nat)
    requires HonestAlong(exec, writes, p, s, n) && NoStaleRead(exec, writes, p, sites, s, n)
    ensures var D, a, b := Stale(exec, writes, p, sites, s, n), Run(exec, p, s, n), OptRun(exec, p, sites, junk, s, n);
      && DiffersIn(a, b, D)
      && ((forall k: nat :: junk(k) == Flip(Run(exec, p, s, k), X)) ==> DiffersJustIn(a, b, D, X))
  {
    if n > 0 {
      StaleHolds(exec, writes, p, sites, junk, X, s, n - 1);
      RunOneMore(exec, p, s, n - 1);
      var a, b := Run(exec, p, s, n - 1), OptRun(exec, p, sites, junk, s, n - 1);
      if a.Some? && a.value.pc in p {
        assert StaleUnread(exec, writes, p, sites, s, n - 1);
        StaleStep(exec, writes, p, sites, junk(n), a.value, b.value, Stale(exec, writes, p, sites, s, n - 1), X);
      }
    }
  }

  /** For every program, any flag writes dropped, and every run: the optimised code
      stays in step with the original, whatever is left in the dropped flags, exactly
      when no instruction of the original run depends on a flag that is stale there. */
  lemma InStepIff<R(!new)>(
    exec: Exec<R>, writes: Writes<R>, p: Program, sites: Sites, s: State<R>, n: nat)
    requires HonestAlong(exec, writes, p, s, n)
    ensures (forall junk: nat -> set<Flag> :: InStep(exec, p, sites, junk, s, n))
       <==> NoStaleRead(exec, writes, p, sites, s, n)
  {
    if NoStaleRead(exec, writes, p, sites, s, n) {
      forall junk: nat -> set<Flag>, i | 0 <= i <= n
        ensures Together(Run(exec, p, s, i), OptRun(exec, p, sites, junk, s, i))
      {
        StaleHolds(exec, writes, p, sites, junk, {}, s, i);
      }
    } else {
      var junk := StaleReadShows(exec, writes, p, sites, s, n);
    }
  }

  /** A stale flag that is read can be given a value that shows. */
  lemma {:induction false} StaleReadShows<R(!new)>(
    exec: Exec<R>, writes: Writes<R>, p: Program, sites: Sites, s: State<R>, n: nat) returns (junk: nat -> set<Flag>)
    requires HonestAlong(exec, writes, p, s, n) && !NoStaleRead(exec, writes, p, sites, s, n)
    ensures !InStep(exec, p, sites, junk, s, n)
  {
    if !NoStaleRead(exec, writes, p, sites, s, n - 1) {
      junk := StaleReadShows(exec, writes, p, sites, s, n - 1);
    } else {
      var a, D := Run(exec, p, s, n - 1).value, Stale(exec, writes, p, sites, s, n - 1);
      assert !StaleUnread(exec, writes, p, sites, s, n - 1);
      var t :| SameButFlags(a, t) && AgreeExcept(a, t, D) && !SameButFlags(exec(p[a.pc], a), exec(p[a.pc], t));
      var X := Differing(a, t);
      junk := k => Flip(Run(exec, p, s, k), X);
      StaleHolds(exec, writes, p, sites, junk, X, s, n - 1);
      var b := OptRun(exec, p, sites, junk, s, n - 1).value;
      assert b.flags == t.flags by {
        forall f: Flag ensures f in b.flags <==> f in t.flags {
          assert f in X <==> !Agree(a, t, f);
          if f in D { assert Agree(a, b, f) <==> f !in X; } else { assert Agree(a, b, f) && Agree(a, t, f); }
        }
      }
      assert b == t;
      RunOneMore(exec, p, s, n - 1);
      assert !Together(Run(exec, p, s, n), OptRun(exec, p, sites, junk, s, n));
    }
  }

  /** Where the tables are right, a drop that the analysis licensed is never read. */
  lemma LicensedNeverStale<R(!new)>(
    exec: Exec<R>, writes: Writes<R>, p: Program, sites: Sites, limit: nat, s: State<R>, n: nat)
    requires HonestAlong(exec, writes, p, s, n) && RightAlong(exec, p, s, n) && Justified(p, sites, limit)
    ensures NoStaleRead(exec, writes, p, sites, s, n)
  {
    forall junk: nat -> set<Flag>, i | 0 <= i <= n
      ensures Together(Run(exec, p, s, i), OptRun(exec, p, sites, junk, s, i))
    {
      RightRunsMatch(exec, p, sites, limit, junk, s, i);
    }
    assert forall junk: nat -> set<Flag> :: InStep(exec, p, sites, junk, s, n);
    InStepIff(exec, writes, p, sites, s, n);
  }

  // ----- a table row that is not always right -----

  const ZF: Flag := 6

  datatype Regs = Regs(x: nat, cl: nat)

  /** inc x; shr %cl, x; jz. The shift is listed as clobbering ZF. */
  const SHIFT_PROGRAM: Program := map[
    0 := Op(0, 1, Normal, 0, {}, {ZF}),
    1 := Op(1, 1, Normal, 0, {}, {ZF}),
    2 := Op(2, 1, CondJump, 10, {ZF}, {})]

  const SHIFT_SITES: Sites := map[0 := {ZF}]

  function WithZf(s: State<Regs>, x: nat): State<Regs> {
    State(s.pc + 1, s.regs.(x := x), if x == 0 then s.flags + {ZF} else s.flags - {ZF})
  }

  /** The shift uses the count modulo 32, and with zero leaves the flags alone. */
  function ShiftExec(op: Op, s: State<Regs>): State<Regs> {
    if op.code == 0 then WithZf(s, (s.regs.x + 1) % W32)
    else if op.code == 1 then
      (if s.regs.cl % 32 != 0 then WithZf(s, Shr(s.regs.x, s.regs.cl % 32)) else s.(pc := s.pc + 1))
    else s.(pc := if ZF in s.flags then s.pc + 11 else s.pc + 1)
  }

  /** What the program really writes: with a zero count the shift writes no flag. */
  function ShiftWrites(op: Op, s: State<Regs>): set<Flag> {
    if op.code == 0 || (op.code == 1 && s.regs.cl % 32 != 0) then {ZF} else {}
  }

  /** So the exact condition applies to every run of it, whatever the count. */
  lemma ShiftHonest(s: State<Regs>, n: nat)
    ensures HonestAlong(ShiftExec, ShiftWrites, SHIFT_PROGRAM, s, n)
  {
    hide Shr, Run;
    forall op: Op, a: State<Regs> ensures Honest(ShiftExec, ShiftWrites, op, a) {
    }
  }

  /** The rows are right about this program wherever the count is not zero, and at
      the shift only there. */
  lemma ShiftRightIff(s: State<Regs>)
    requires s.pc in SHIFT_PROGRAM
    ensures RightAt(ShiftExec, SHIFT_PROGRAM, s) <==> s.pc != 1 || s.regs.cl % 32 != 0
  {
    hide Shr;
    var op := SHIFT_PROGRAM[s.pc];
    if s.pc == 1 && s.regs.cl % 32 == 0 {
      var t := s.(flags := if ZF in s.flags then s.flags - {ZF} else s.flags + {ZF});
      assert !Agree(ShiftExec(op, s), ShiftExec(op, t), ZF);
      assert !Obeys(ShiftExec, op, s, t);
    } else {
      forall t ensures Obeys(ShiftExec, op, s, t) {
        assert op.deps == {ZF} && SameButFlags(s, t) && Agree(s, t, ZF) ==>
            SameButFlags(ShiftExec(op, s), ShiftExec(op, t));
      }
    }
  }

  /** Without the shift the same execution obeys its tables on all states. */
  lemma TablesCanHold()
    ensures TablesHold(ShiftExec, map[0 := SHIFT_PROGRAM[0], 1 := SHIFT_PROGRAM[2]])
  {
    hide Shr;
    var p: Program := map[0 := SHIFT_PROGRAM[0], 1 := SHIFT_PROGRAM[2]];
    forall pc, s: State<Regs>, t: State<Regs> | pc in p ensures Obeys(ShiftExec, p[pc], s, t) {
      assert pc == 1 && SameButFlags(s, t) && Agree(s, t, ZF) ==>
          SameButFlags(ShiftExec(p[pc], s), ShiftExec(p[pc], t));
    }
  }

  /** The analysis lets the increment drop its flag write. */
  lemma ShiftLicensed()
    ensures Justified(SHIFT_PROGRAM, SHIFT_SITES, LOOK_LIMIT)
  {
    assert Crawl(SHIFT_PROGRAM, 1, {ZF}, LOOK_LIMIT) == Flags({});
    assert Licensed(SHIFT_PROGRAM, 1, {ZF}, {ZF}, LOOK_LIMIT);
  }

  lemma {:induction false} ShiftKeepsCount(s: State<Regs>, n: nat)
    ensures Run(ShiftExec, SHIFT_PROGRAM, s, n).Some? ==> Run(ShiftExec, SHIFT_PROGRAM, s, n).value.regs.cl == s.regs.cl
    decreases n
  {
    hide Shr;
    if n > 0 && s.pc in SHIFT_PROGRAM { ShiftKeepsCount(ShiftExec(SHIFT_PROGRAM[s.pc], s), n - 1); }
  }

  /** The original and the optimised program both end, at the same place and with
      the same registers. */
  ghost predicate SameOutcome(s: State<Regs>, junk: nat -> set<Flag>) {
    var a, b := Run(ShiftExec, SHIFT_PROGRAM, s, 3), OptRun(ShiftExec, SHIFT_PROGRAM, SHIFT_SITES, junk, s, 3);
    a.Some? && b.Some? && SameButFlags(a.value, b.value)
  }

  /** The three steps, one by one. */
  lemma ThreeSteps(s: State<Regs>, junk: nat -> set<Flag>)
    requires s.pc == 0
    ensures var p := SHIFT_PROGRAM;
      && Run(ShiftExec, p, s, 3) == Some(ShiftExec(p[2], ShiftExec(p[1], ShiftExec(p[0], s))))
      && OptRun(ShiftExec, p, SHIFT_SITES, junk, s, 3)
         == Some(ShiftExec(p[2], ShiftExec(p[1], OptStep(ShiftExec, p, SHIFT_SITES, junk(1), s))))
  {
    hide Shr;
    var p := SHIFT_PROGRAM;
    var s1, o1 := ShiftExec(p[0], s), OptStep(ShiftExec, p, SHIFT_SITES, junk(1), s);
    var s2, o2 := ShiftExec(p[1], s1), ShiftExec(p[1], o1);
    RunOneMore(ShiftExec, p, s, 0);
    RunOneMore(ShiftExec, p, s, 1);
    RunOneMore(ShiftExec, p, s, 2);
    assert OptRun(ShiftExec, p, SHIFT_SITES, junk, s, 0) == Some(s);
    assert OptRun(ShiftExec, p, SHIFT_SITES, junk, s, 1) == Some(o1);
    assert OptRun(ShiftExec, p, SHIFT_SITES, junk, s, 2) == Some(o2);
  }

  /** For every operand, count and start flags: the optimised program does what the
      original does, whatever is left in the dropped flag, exactly when the shift
      count is not zero modulo 32. */
  lemma ShiftProgramIff(s: State<Regs>)
    requires s.pc == 0
    ensures (forall junk: nat -> set<Flag> :: SameOutcome(s, junk)) <==> s.regs.cl % 32 != 0
  {
    hide Shr, Run, OptRun;
    if s.regs.cl % 32 != 0 {
      forall junk: nat -> set<Flag> ensures SameOutcome(s, junk) {
        forall i | 0 <= i < 3 && Run(ShiftExec, SHIFT_PROGRAM, s, i).Some?
                   && Run(ShiftExec, SHIFT_PROGRAM, s, i).value.pc in SHIFT_PROGRAM
          ensures RightAt(ShiftExec, SHIFT_PROGRAM, Run(ShiftExec, SHIFT_PROGRAM, s, i).value)
        {
          ShiftKeepsCount(s, i);
          ShiftRightIff(Run(ShiftExec, SHIFT_PROGRAM, s, i).value);
        }
        ShiftLicensed();
        RightRunsMatch(ShiftExec, SHIFT_PROGRAM, SHIFT_SITES, LOOK_LIMIT, junk, s, 3);
        ThreeSteps(s, junk);
      }
    } else {
      var _ := ZeroCountShiftMisleads(s);
    }
  }

  /** With a zero count there is always a leftover flag that makes the optimised
      program take the other branch. */
  lemma ZeroCountShiftMisleads(s: State<Regs>) returns (junk: nat -> set<Flag>)
    requires s.pc == 0 && s.regs.cl % 32 == 0
    ensures Justified(SHIFT_PROGRAM, SHIFT_SITES, LOOK_LIMIT)
    ensures !SameOutcome(s, junk)
    ensures var a, b := Run(ShiftExec, SHIFT_PROGRAM, s, 3), OptRun(ShiftExec, SHIFT_PROGRAM, SHIFT_SITES, junk, s, 3);
      a.Some? && b.Some? && {a.value.pc, b.value.pc} == {3, 13}
  {
    hide Shr;
    ShiftLicensed();
    junk := if (s.regs.x + 1) % W32 == 0 then (_ => {}) else (_ => {ZF});
    ThreeSteps(s, junk);
  }
}
