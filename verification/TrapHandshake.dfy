/** The system-call handshake between any number of execution workers
    (src/browser/execution-worker.js) and the kernel worker
    (src/browser/kernel-worker.js). Each access to a control word is one step. */
module TrapHandshake {

  /** System-call number and the arguments a to f. */
  type Call = c: seq<int> | |c| == 7 witness [0, 0, 0, 0, 0, 0, 0]

  const SYS_PROC_WAIT: int := 1011
  const SYS_HOST_SYSCALL: int := 1024

  /** Calls that the kernel answers itself. HOST_SYSCALL moves its arguments down by
      one, with 0 behind them, and starts over with what is then the number. */
  predicate Answered(c: seq<int>) {
    c == [] || if c[0] == SYS_HOST_SYSCALL then Answered(c[1..]) else c[0] != SYS_PROC_WAIT
  }

  /** Those are all but SYS_PROC_WAIT behind any number of HOST_SYSCALL. */
  lemma {:induction false} AnsweredIff(c: seq<int>)
    ensures !Answered(c) <==> exists n :: 0 <= n < |c| && c[n] == 1011 && forall j | 0 <= j < n :: c[j] == 1024
  {
    if c != [] && c[0] == SYS_HOST_SYSCALL {
      AnsweredIff(c[1..]);
      if !Answered(c) {
        var n :| 0 <= n < |c[1..]| && c[1..][n] == 1011 && forall j | 0 <= j < n :: c[1..][j] == 1024;
        assert c[n + 1] == 1011 && forall j | 0 <= j < n + 1 :: c[j] == 1024 by {
          forall j | 0 <= j < n + 1 ensures c[j] == 1024 { if j > 0 { assert c[j] == c[1..][j - 1]; } }
        }
      }
      if exists n :: 0 <= n < |c| && c[n] == 1011 && forall j | 0 <= j < n :: c[j] == 1024 {
        var n :| 0 <= n < |c| && c[n] == 1011 && forall j | 0 <= j < n :: c[j] == 1024;
        assert c[1..][n - 1] == 1011;
      }
    }
  }

  datatype WorkerPc =
    | Running
    | StoreArg(k: nat)   // about to store control[1 + k]
    | StoreFlag
    | Notify
    | AtWait             // about to Atomics.wait(ctl, 0, 1)
    | Asleep
    | LoadResult

  /** A worker with its control words (flag is control[0], args control[1..8],
      ret control[8]) and the history of its traps. */
  datatype Worker = Worker(
    pc: WorkerPc, call: Call, flag: bool, args: Call, ret: int,
    issued: seq<Call>, handled: seq<(Call, int)>, returned: seq<int>)

  datatype Kernel =
    | Scanning
    | Pending(i: nat)                   // loaded flag 1, waiting for memory or messages
    | Reading(i: nat, got: seq<int>)    // handleSyscall loads control[1..8]
    | Clearing(i: nat)                  // about to store 0 into control[0]
    | Notifying(i: nat)                 // about to Atomics.notify

  datatype State = State(workers: seq<Worker>, kernel: Kernel)

  datatype Action =
    | Trap(i: nat, call: Call)            // guest code of worker i makes a system call
    | WorkerStep(i: nat)
    | Scan(i: nat)                        // kernelLoop loads control[0] of worker i
    | Defer                               // no memory registered yet: continue scanning
    | KernelStep
    | Answer(value: int, scratch: Call)   // stores the result; may overwrite the argument slots

  function Fresh(): Worker {
    Worker(Running, [0, 0, 0, 0, 0, 0, 0], false, [0, 0, 0, 0, 0, 0, 0], 0, [], [], [])
  }

  function Init(n: nat): State {
    State(seq(n, _ => Fresh()), Scanning)
  }

  // ----- steps -----

  /** trapToKernel. */
  function StepWorker(w: Worker): Worker {
    match w.pc
    case Running => w
    case StoreArg(k) =>
      if k < 7 then w.(args := w.args[k := w.call[k]], pc := if k < 6 then StoreArg(k + 1) else StoreFlag) else w
    case StoreFlag => w.(flag := true, pc := Notify, issued := w.issued + [w.call])
    case Notify => w.(pc := AtWait)
    case AtWait => w.(pc := if w.flag then Asleep else LoadResult)
    case Asleep => w
    case LoadResult => w.(pc := Running, returned := w.returned + [w.ret])
  }

  predicate Enabled(s: State, a: Action) {
    match a
    case Trap(i, call) => i < |s.workers| && s.workers[i].pc.Running? && Answered(call)
    case WorkerStep(i) => i < |s.workers| && !s.workers[i].pc.Running? && !s.workers[i].pc.Asleep?
    case Scan(i) => i < |s.workers| && s.kernel.Scanning?
    case Defer => s.kernel.Pending?
    case KernelStep =>
      !s.kernel.Scanning? && s.kernel.i < |s.workers| && (s.kernel.Reading? ==> |s.kernel.got| < 7)
    case Answer(_, _) => s.kernel.Reading? && s.kernel.i < |s.workers| && |s.kernel.got| == 7
  }

  function Put(s: State, i: nat, w: Worker, k: Kernel): State
    requires i < |s.workers|
  {
    State(s.workers[i := w], k)
  }

  function Step(s: State, a: Action): State
    requires Enabled(s, a)
  {
    match a
    case Trap(i, call) => Put(s, i, s.workers[i].(pc := StoreArg(0), call := call), s.kernel)
    case WorkerStep(i) => Put(s, i, StepWorker(s.workers[i]), s.kernel)
    case Scan(i) => s.(kernel := if s.workers[i].flag then Pending(i) else Scanning)
    case Defer => s.(kernel := Scanning)
    case KernelStep =>
      var i := s.kernel.i;
      var w := s.workers[i];
      (match s.kernel
       case Scanning => s
       case Pending(_) => s.(kernel := Reading(i, []))
       case Reading(_, got) => s.(kernel := Reading(i, got + [w.args[|got|]]))
       case Clearing(_) => Put(s, i, w.(flag := false), Notifying(i))
       case Notifying(_) => Put(s, i, if w.pc.Asleep? then w.(pc := LoadResult) else w, Scanning))
    case Answer(value, scratch) =>
      var i, call := s.kernel.i, s.kernel.got;
      var w := s.workers[i];
      Put(s, i, w.(ret := value, args := scratch, handled := w.handled + [(call, value)]), Clearing(i))
  }

  // ----- what the handshake promises -----

  ghost predicate InTrap(pc: WorkerPc) {
    pc.Notify? || pc.AtWait? || pc.Asleep?
  }

  /** Every trap is handled once with the arguments it was issued with; every
      value returned, or about to be, is the one computed for that trap; a worker
      does not write arguments that the kernel may be reading; and a sleeping
      worker has its flag up or a notify on the way. */
  ghost predicate CorrectWorker(w: Worker, k: Kernel, i: nat) {
    && |w.returned| + (if w.pc.LoadResult? then 1 else 0) <= |w.handled| <= |w.issued| <= |w.returned| + 1
    && (forall t | 0 <= t < |w.handled| :: w.handled[t].0 == w.issued[t])
    && (forall t | 0 <= t < |w.returned| :: w.returned[t] == w.handled[t].1)
    && (w.pc.LoadResult? ==> w.ret == w.handled[|w.returned|].1)
    && (k == Pending(i) || (k.Reading? && k.i == i) ==> InTrap(w.pc))
    && (w.pc.Asleep? ==> w.flag || k == Notifying(i))
  }

  ghost predicate Correct(s: State) {
    forall i | 0 <= i < |s.workers| :: CorrectWorker(s.workers[i], s.kernel, i)
  }

  /** Worker i is about to wait for a new trap while the kernel has cleared its
      previous one but not yet notified it. */
  ghost predicate StaleNotifyAhead(s: State, a: Action) {
    && a.WorkerStep? && a.i < |s.workers|
    && s.workers[a.i].pc.AtWait? && s.workers[a.i].flag && s.kernel == Notifying(a.i)
  }

  // ----- invariant -----

  datatype View = Away | Waits | Reads(got: seq<int>) | Clears | Notifies

  function Seen(k: Kernel, i: nat): View {
    match k
    case Scanning => Away
    case Pending(j) => if i == j then Waits else Away
    case Reading(j, got) => if i == j then Reads(got) else Away
    case Clearing(j) => if i == j then Clears else Away
    case Notifying(j) => if i == j then Notifies else Away
  }

  ghost predicate History(w: Worker) {
    && |w.handled| <= |w.issued| && |w.returned| <= |w.handled|
    && (forall t | 0 <= t < |w.handled| :: w.handled[t].0 == w.issued[t])
    && (forall t | 0 <= t < |w.returned| :: w.returned[t] == w.handled[t].1)
  }

  /** No trap in progress; the arguments of the next one are being stored. */
  ghost predicate Quiet(w: Worker, v: View) {
    && (w.pc.Running? || w.pc.StoreArg? || w.pc.StoreFlag?)
    && !w.flag && |w.issued| == |w.handled| == |w.returned| && (v.Away? || v.Notifies?)
    && (w.pc.StoreArg? ==> w.pc.k < 7 && w.args[..w.pc.k] == w.call[..w.pc.k])
    && (w.pc.StoreFlag? ==> w.args == w.call)
  }

  /** Issued, not yet answered. */
  ghost predicate Asked(w: Worker, v: View) {
    && InTrap(w.pc) && w.flag && |w.issued| == |w.returned| + 1 && |w.handled| == |w.returned|
    && w.args == w.issued[|w.returned|]
    && !v.Clears? && (v.Notifies? ==> !w.pc.Asleep?)
    && (v.Reads? ==> |v.got| <= 7 && v.got == w.args[..|v.got|])
  }

  /** Answered; the flag may still be up. */
  ghost predicate Told(w: Worker, v: View) {
    && (InTrap(w.pc) || w.pc.LoadResult?)
    && |w.issued| == |w.handled| == |w.returned| + 1
    && w.ret == w.handled[|w.returned|].1
    && (w.flag <==> v.Clears?) && (w.flag ==> InTrap(w.pc)) && (!w.flag ==> v.Away? || v.Notifies?)
    && (w.pc.Asleep? ==> v.Clears? || v.Notifies?)
  }

  ghost predicate WorkerInv(w: Worker, v: View) {
    History(w) && (Quiet(w, v) || Asked(w, v) || Told(w, v))
  }

  ghost predicate Inv(s: State) {
    && (s.kernel.Scanning? || s.kernel.i < |s.workers|)
    && forall i | 0 <= i < |s.workers| :: WorkerInv(s.workers[i], Seen(s.kernel, i))
  }

  lemma InvIsCorrect(s: State)
    requires Inv(s)
    ensures Correct(s)
  {
    forall i | 0 <= i < |s.workers| ensures CorrectWorker(s.workers[i], s.kernel, i) {
      assert WorkerInv(s.workers[i], Seen(s.kernel, i));
    }
  }

  lemma StepWorkerHolds(w: Worker, v: View)
    requires WorkerInv(w, v) && !w.pc.Running? && !w.pc.Asleep?
    requires !(w.pc.AtWait? && w.flag && v.Notifies?)
    ensures WorkerInv(StepWorker(w), v)
  {
    if w.pc.StoreArg? {
      assert StepWorker(w).args[..w.pc.k + 1] == w.call[..w.pc.k + 1];
      assert w.pc.k == 6 ==> StepWorker(w).args == w.call;
    }
  }

  lemma StepHolds(s: State, a: Action)
    requires Inv(s) && Enabled(s, a) && !StaleNotifyAhead(s, a)
    ensures Inv(Step(s, a))
  {
    var s' := Step(s, a);
    forall i | 0 <= i < |s'.workers| ensures WorkerInv(s'.workers[i], Seen(s'.kernel, i)) {
      assert WorkerInv(s.workers[i], Seen(s.kernel, i));
      match a
      case WorkerStep(j) => if i == j { StepWorkerHolds(s.workers[i], Seen(s.kernel, i)); }
      case KernelStep =>
        if s.kernel.i == i { KernelStepHolds(s, i); }
      case Answer(_, _) => if s.kernel.i == i { AnswerHolds(s, a, i); }
      case _ =>
    }
  }

  lemma AnswerHolds(s: State, a: Action, i: nat)
    requires a.Answer? && Enabled(s, a) && s.kernel.i == i && WorkerInv(s.workers[i], Seen(s.kernel, i))
    ensures WorkerInv(Step(s, a).workers[i], Seen(Step(s, a).kernel, i))
  {
  }

  lemma KernelStepHolds(s: State, i: nat)
    requires Enabled(s, KernelStep) && s.kernel.i == i && WorkerInv(s.workers[i], Seen(s.kernel, i))
    ensures WorkerInv(Step(s, KernelStep).workers[i], Seen(Step(s, KernelStep).kernel, i))
  {
  }

  // ----- whole runs: the exact condition -----

  function Try(s: State, a: Action): State {
    if Enabled(s, a) then Step(s, a) else s
  }

  /** The state after the given actions; one that is not enabled does nothing. */
  function Run(s: State, actions: seq<Action>): State
    decreases |actions|
  {
    if actions == [] then s else Run(Try(s, actions[0]), actions[1..])
  }

  ghost predicate CorrectThroughout(s: State, actions: seq<Action>)
    decreases |actions|
  {
    Correct(s) && (actions != [] ==> CorrectThroughout(Try(s, actions[0]), actions[1..]))
  }

  /** No worker goes to wait for a new trap while the kernel stands between the
      store that released its previous trap and the notify that follows. */
  ghost predicate AvoidsStaleNotify(s: State, actions: seq<Action>)
    decreases |actions|
  {
    actions != [] ==> !StaleNotifyAhead(s, actions[0]) && AvoidsStaleNotify(Try(s, actions[0]), actions[1..])
  }

  lemma InitHolds(n: nat)
    ensures Inv(Init(n))
  {
    forall i | 0 <= i < n ensures WorkerInv(Init(n).workers[i], Seen(Init(n).kernel, i)) {
      assert Quiet(Fresh(), Away);
    }
  }

  lemma {:induction false} AvoidingIsCorrect(s: State, actions: seq<Action>)
    requires Inv(s) && AvoidsStaleNotify(s, actions)
    ensures CorrectThroughout(s, actions)
    decreases |actions|
  {
    InvIsCorrect(s);
    if actions != [] {
      if Enabled(s, actions[0]) { StepHolds(s, actions[0]); }
      AvoidingIsCorrect(Try(s, actions[0]), actions[1..]);
    }
  }

  /** Worker i sleeps on an unanswered trap and the kernel is about to wake it. */
  ghost predicate Doomed(s: State, i: nat) {
    && i < |s.workers| && s.kernel == Notifying(i)
    && s.workers[i].pc.Asleep? && |s.workers[i].returned| == |s.workers[i].handled|
  }

  lemma {:induction false} DoomedGoesWrong(s: State, i: nat, actions: seq<Action>)
    requires Doomed(s, i)
    ensures !CorrectThroughout(s, actions + [KernelStep])
    decreases |actions|
  {
    var all := actions + [KernelStep];
    var s' := Try(s, all[0]);
    if all[0] == KernelStep {
      assert !CorrectWorker(s'.workers[i], s'.kernel, i);
    } else {
      assert Doomed(s', i);
      assert all[1..] == actions[1..] + [KernelStep];
      DoomedGoesWrong(s', i, actions[1..]);
    }
  }

  lemma {:induction false} NotAvoidingGoesWrong(s: State, actions: seq<Action>)
    requires Inv(s) && !AvoidsStaleNotify(s, actions)
    ensures !CorrectThroughout(s, actions + [KernelStep])
    decreases |actions|
  {
    var a, rest := actions[0], actions[1..];
    assert (actions + [KernelStep])[1..] == rest + [KernelStep];
    if StaleNotifyAhead(s, a) {
      assert WorkerInv(s.workers[a.i], Seen(s.kernel, a.i));
      DoomedGoesWrong(Step(s, a), a.i, rest);
    } else {
      if Enabled(s, a) { StepHolds(s, a); }
      NotAvoidingGoesWrong(Try(s, a), rest);
    }
  }

  lemma {:induction false} AvoidsOneMore(s: State, actions: seq<Action>)
    requires AvoidsStaleNotify(s, actions)
    ensures AvoidsStaleNotify(s, actions + [KernelStep])
    decreases |actions|
  {
    var all := actions + [KernelStep];
    if actions == [] {
      assert all[1..] == [];
    } else {
      assert all[1..] == actions[1..] + [KernelStep];
      AvoidsOneMore(Try(s, actions[0]), actions[1..]);
    }
  }

  /** For any number of workers and any schedule, the handshake keeps all its
      promises, through the kernel's next step, exactly when no worker waits on
      a new trap with the notify of its previous one still to come. */
  lemma HandshakeExact(n: nat, actions: seq<Action>)
    ensures AvoidsStaleNotify(Init(n), actions) <==> CorrectThroughout(Init(n), actions + [KernelStep])
  {
    InitHolds(n);
    if AvoidsStaleNotify(Init(n), actions) {
      AvoidsOneMore(Init(n), actions);
      AvoidingIsCorrect(Init(n), actions + [KernelStep]);
    } else {
      NotAvoidingGoesWrong(Init(n), actions);
    }
  }

  // ----- the promise can be broken -----

  lemma {:induction false} RunAppend(s: State, xs: seq<Action>, ys: seq<Action>)
    ensures Run(s, xs + ys) == Run(Run(s, xs), ys)
    decreases |xs|
  {
    if xs == [] {
      assert xs + ys == ys;
    } else {
      assert (xs + ys)[1..] == xs[1..] + ys;
      RunAppend(Try(s, xs[0]), xs[1..], ys);
    }
  }

  /** Worker i stores its remaining arguments and the flag, and comes to wait. */
  lemma {:induction false} Issues(s: State, i: nat) returns (actions: seq<Action>)
    requires i < |s.workers| && s.workers[i].pc.StoreArg? && s.workers[i].pc.k < 7
    requires s.workers[i].args[..s.workers[i].pc.k] == s.workers[i].call[..s.workers[i].pc.k]
    ensures var w := s.workers[i];
      Run(s, actions) ==
        Put(s, i, w.(pc := AtWait, flag := true, args := w.call, issued := w.issued + [w.call]), s.kernel)
    decreases 7 - s.workers[i].pc.k
  {
    var w := s.workers[i];
    var s' := Step(s, WorkerStep(i));
    if w.pc.k == 6 {
      assert s'.workers[i].args == w.call;
      actions := [WorkerStep(i), WorkerStep(i), WorkerStep(i)];
      var t := Step(s', WorkerStep(i));
      var u := Step(t, WorkerStep(i));
      assert Run(s, actions) == Run(s', actions[1..]);
      assert actions[1..] == [WorkerStep(i), WorkerStep(i)] && actions[1..][1..] == [WorkerStep(i)];
      assert Run(s', actions[1..]) == Run(t, [WorkerStep(i)]);
      assert Run(t, [WorkerStep(i)]) == Run(u, []) == u;
      assert u.workers[i] == w.(pc := AtWait, flag := true, args := w.call, issued := w.issued + [w.call]);
    } else {
      assert s'.workers[i].args[..w.pc.k + 1] == w.call[..w.pc.k + 1];
      var rest := Issues(s', i);
      actions := [WorkerStep(i)] + rest;
      assert actions[1..] == rest;
    }
  }

  /** The kernel loads the remaining arguments, answers, and clears the flag. */
  lemma {:induction false} Answers(s: State, value: int) returns (actions: seq<Action>)
    requires s.kernel.Reading? && s.kernel.i < |s.workers| && |s.kernel.got| <= 7
    requires s.kernel.got == s.workers[s.kernel.i].args[..|s.kernel.got|]
    ensures forall a | a in actions :: OfKernel(a)
    ensures var i, w := s.kernel.i, s.workers[s.kernel.i];
      Run(s, actions) ==
        Put(s, i, w.(flag := false, ret := value, handled := w.handled + [(w.args, value)]), Notifying(i))
    decreases 7 - |s.kernel.got|
  {
    var i, w, got := s.kernel.i, s.workers[s.kernel.i], s.kernel.got;
    if |got| == 7 {
      assert got == w.args;
      actions := [Answer(value, w.args), KernelStep];
      var t := Step(s, actions[0]);
      var w' := w.(ret := value, handled := w.handled + [(w.args, value)]);
      assert t == Put(s, i, w', Clearing(i));
      assert Step(t, KernelStep) == Put(s, i, w'.(flag := false), Notifying(i));
      assert Run(s, actions) == Run(t, actions[1..]) == Run(Step(t, KernelStep), actions[1..][1..]);
    } else {
      var s' := Step(s, KernelStep);
      assert s'.kernel.got == w.args[..|got| + 1];
      var rest := Answers(s', value);
      actions := [KernelStep] + rest;
      assert actions[1..] == rest;
    }
  }

  /** With one worker and two traps: the notify for the first one wakes the
      second one, which returns the first result before it was ever handled. */
  lemma StaleResult(first: Call, second: Call, value: int) returns (actions: seq<Action>)
    requires Answered(first) && Answered(second)
    ensures var w := Run(Init(1), actions).workers;
      |w| == 1 && w[0].issued == [first, second] && w[0].handled == [(first, value)] && w[0].returned == [value, value]
  {
    var one, two;
    one := FirstTrap(first, value);
    var w := Worker(StoreArg(0), second, false, first, value, [first], [(first, value)], [value]);
    var s := State([w], Notifying(0));
    Extend(one, Trap(0, second));
    assert Try(Run(Init(1), one), Trap(0, second)) == s;
    two := Issues(s, 0);
    actions := one + [Trap(0, second)];
    RunAppend(Init(1), actions, two);
    actions := actions + two;
    var w' := w.(pc := AtWait, flag := true, args := second, issued := [first, second]);
    assert w.issued + [second] == w'.issued;
    assert Run(Init(1), actions).workers == [w'];
    Extend(actions, WorkerStep(0));
    assert Run(Init(1), actions + [WorkerStep(0)]) == State([w'.(pc := Asleep)], Notifying(0));
    Extend(actions + [WorkerStep(0)], KernelStep);
    actions := actions + [WorkerStep(0)] + [KernelStep];
    assert Run(Init(1), actions) == State([w'.(pc := LoadResult)], Scanning);
    Extend(actions, WorkerStep(0));
    actions := actions + [WorkerStep(0)];
    assert w'.returned + [value] == [value, value];
  }

  /** One trap whose result the worker loads without sleeping; the kernel's
      notify is still to come. */
  lemma FirstTrap(call: Call, value: int) returns (actions: seq<Action>)
    requires Answered(call)
    ensures var s := Run(Init(1), actions);
      && s.kernel == Notifying(0)
      && s.workers == [Worker(Running, call, false, call, value, [call], [(call, value)], [value])]
  {
    var issue, answer;
    var w := Fresh().(pc := StoreArg(0), call := call);
    Extend([], Trap(0, call));
    actions := [] + [Trap(0, call)];
    assert Run(Init(1), actions) == State([w], Scanning);
    issue := Issues(State([w], Scanning), 0);
    RunAppend(Init(1), actions, issue);
    actions := actions + issue;
    var w' := w.(pc := AtWait, flag := true, args := call, issued := [call]);
    assert w.issued + [call] == [call];
    assert Run(Init(1), actions) == State([w'], Scanning);
    Extend(actions, Scan(0));
    Extend(actions + [Scan(0)], KernelStep);
    actions := actions + [Scan(0)] + [KernelStep];
    assert Run(Init(1), actions) == State([w'], Reading(0, []));
    answer := Answers(State([w'], Reading(0, [])), value);
    RunAppend(Init(1), actions, answer);
    actions := actions + answer;
    var w'' := w'.(flag := false, ret := value, handled := [(call, value)]);
    assert w'.handled + [(w'.args, value)] == [(call, value)];
    assert Run(Init(1), actions) == State([w''], Notifying(0));
    Extend(actions, WorkerStep(0));
    Extend(actions + [WorkerStep(0)], WorkerStep(0));
    actions := actions + [WorkerStep(0)] + [WorkerStep(0)];
    assert w''.returned + [value] == [value];
  }

  lemma Extend(actions: seq<Action>, a: Action)
    ensures Run(Init(1), actions + [a]) == Try(Run(Init(1), actions), a)
  {
    RunAppend(Init(1), actions, [a]);
    assert [a][1..] == [];
  }

  // ----- every trap can be completed -----

  predicate OfKernel(a: Action) {
    !a.Trap? && !a.WorkerStep?
  }

  lemma OneStep(s: State, a: Action)
    ensures Run(s, [a]) == Try(s, a)
  {
    assert [a][1..] == [];
  }

  lemma {:induction false} KernelKeeps(s: State, actions: seq<Action>)
    requires Inv(s) && forall a | a in actions :: OfKernel(a)
    ensures Inv(Run(s, actions))
    decreases |actions|
  {
    if actions != [] {
      assert OfKernel(actions[0]);
      if Enabled(s, actions[0]) { StepHolds(s, actions[0]); }
      KernelKeeps(Try(s, actions[0]), actions[1..]);
    }
  }

  /** A kernel that reads worker i goes on to answer it with any value, clears
      its flag and wakes it. */
  lemma AnswersAndWakes(s: State, value: int) returns (actions: seq<Action>)
    requires s.kernel.Reading? && s.kernel.i < |s.workers| && |s.kernel.got| <= 7
    requires s.kernel.got == s.workers[s.kernel.i].args[..|s.kernel.got|]
    ensures forall a | a in actions :: OfKernel(a)
    ensures Run(s, actions) == Put(s, s.kernel.i, Served(s.workers[s.kernel.i], value), Scanning)
  {
    var answer := Answers(s, value);
    actions := answer + [KernelStep];
    RunAppend(s, answer, [KernelStep]);
    OneStep(Run(s, answer), KernelStep);
  }

  ghost function Served(w: Worker, value: int): Worker {
    w.(flag := false, ret := value, handled := w.handled + [(w.args, value)],
       pc := if w.pc.Asleep? then LoadResult else w.pc)
  }

  /** A scanning kernel can turn to any worker whose flag is up, and answer its
      call, which is its unanswered one, with any value; other workers do not move. */
  lemma Serves(s: State, i: nat, value: int) returns (actions: seq<Action>)
    requires Inv(s) && s.kernel.Scanning? && i < |s.workers| && s.workers[i].flag
    ensures forall a | a in actions :: OfKernel(a)
    ensures var t, w := Run(s, actions), s.workers[i];
      && t.kernel.Scanning? && |t.workers| == |s.workers|
      && (forall j | 0 <= j < |s.workers| && j != i :: t.workers[j] == s.workers[j])
      && |w.issued| == |w.handled| + 1 && t.workers[i].handled == w.handled + [(w.issued[|w.handled|], value)]
      && t.workers[i].issued == w.issued && t.workers[i].returned == w.returned && t.workers[i].ret == value
      && !t.workers[i].flag && InTrapOrDone(t.workers[i].pc)
  {
    assert WorkerInv(s.workers[i], Seen(s.kernel, i));
    var start := [Scan(i), KernelStep];
    var u := s.(kernel := Reading(i, []));
    RunAppend(s, [Scan(i)], [KernelStep]);
    OneStep(s, Scan(i));
    OneStep(Try(s, Scan(i)), KernelStep);
    assert start == [Scan(i)] + [KernelStep] && Run(s, start) == u;
    var rest := AnswersAndWakes(u, value);
    actions := start + rest;
    RunAppend(s, start, rest);
  }

  /** In a trap, and not asleep. */
  ghost predicate InTrapOrDone(pc: WorkerPc) {
    pc.Notify? || pc.AtWait? || pc.LoadResult?
  }

  /** A worker whose flag is down comes back from its trap with the result. */
  lemma {:induction false} ComesBack(s: State, i: nat) returns (actions: seq<Action>)
    requires i < |s.workers| && !s.workers[i].flag && InTrapOrDone(s.workers[i].pc)
    ensures forall a | a in actions :: a == WorkerStep(i)
    ensures var w := s.workers[i];
      Run(s, actions) == Put(s, i, w.(pc := Running, returned := w.returned + [w.ret]), s.kernel)
    decreases if s.workers[i].pc.Notify? then 2 else if s.workers[i].pc.AtWait? then 1 else 0
  {
    var a := WorkerStep(i);
    if s.workers[i].pc.LoadResult? {
      actions := [a];
      OneStep(s, a);
    } else {
      var rest := ComesBack(Step(s, a), i);
      actions := [a] + rest;
      assert actions[1..] == rest;
    }
  }

  /** Wherever it stands, the kernel can get back to scanning, and only a trap
      that it was already reading is answered on the way. */
  lemma KernelReturns(s: State, value: int) returns (actions: seq<Action>)
    requires Inv(s)
    ensures forall a | a in actions :: OfKernel(a)
    ensures var t := Run(s, actions);
      && Inv(t) && t.kernel.Scanning? && |t.workers| == |s.workers|
      && (forall j | 0 <= j < |s.workers| && Open(s.workers[j]) && !IsReading(s.kernel, j) ::
            t.workers[j] == s.workers[j])
  {
    forall j | 0 <= j < |s.workers| ensures WorkerInv(s.workers[j], Seen(s.kernel, j)) {}
    match s.kernel {
    case Scanning => actions := [];
    case Pending(_) => actions := [Defer]; OneStep(s, Defer);
    case Reading(i, got) =>
      assert WorkerInv(s.workers[i], Seen(s.kernel, i)) && Seen(s.kernel, i) == Reads(got);
      actions := AnswersAndWakes(s, value);
    case Clearing(_) =>
      actions := [KernelStep] + [KernelStep];
      RunAppend(s, [KernelStep], [KernelStep]);
      OneStep(s, KernelStep);
      OneStep(Step(s, KernelStep), KernelStep);
    case Notifying(_) => actions := [KernelStep]; OneStep(s, KernelStep);
    }
    KernelKeeps(s, actions);
  }

  /** A trap has been issued and not answered. */
  predicate Open(w: Worker) {
    |w.handled| < |w.issued|
  }

  predicate IsReading(k: Kernel, i: nat) {
    k.Reading? && k.i == i
  }

  /** From every state that keeps the invariant, each trap that is open can be
      completed: the kernel answers it with its own arguments and any value, and
      the worker returns that value. */
  lemma OpenTrapCompletes(s: State, i: nat, value: int) returns (served: seq<Action>, back: seq<Action>)
    requires Inv(s) && i < |s.workers| && Open(s.workers[i])
    ensures forall a | a in served :: OfKernel(a)
    ensures forall a | a in back :: a == WorkerStep(i)
    ensures var t, w := Run(s, served + back).workers, s.workers[i];
      && |t| == |s.workers| && t[i].pc.Running? && t[i].issued == w.issued
      && t[i].handled == w.handled + [(w.issued[|w.handled|], value)]
      && t[i].returned == w.returned + [value]
  {
    assert WorkerInv(s.workers[i], Seen(s.kernel, i));
    if IsReading(s.kernel, i) {
      assert Seen(s.kernel, i) == Reads(s.kernel.got);
      served := AnswersAndWakes(s, value);
    } else {
      var first := KernelReturns(s, value);
      var rest := Serves(Run(s, first), i, value);
      served := first + rest;
      RunAppend(s, first, rest);
    }
    back := ComesBack(Run(s, served), i);
    RunAppend(s, served, back);
  }

  /** A system call of a running worker, from start to end. */
  lemma TrapCompletes(s: State, i: nat, call: Call, value: int) returns (actions: seq<Action>)
    requires Inv(s) && i < |s.workers| && s.workers[i].pc.Running? && Answered(call)
    ensures var t, w := Run(s, actions).workers, s.workers[i];
      && |t| == |s.workers| && t[i].pc.Running? && t[i].issued == w.issued + [call]
      && t[i].handled == w.handled + [(call, value)] && t[i].returned == w.returned + [value]
  {
    var w := s.workers[i];
    assert WorkerInv(w, Seen(s.kernel, i));
    var u := Step(s, Trap(i, call));
    var issue := Issues(u, i);
    var v := Run(u, issue);
    var w' := w.(pc := AtWait, flag := true, call := call, args := call, issued := w.issued + [call]);
    assert v == Put(s, i, w', s.kernel);
    assert Asked(w', Seen(s.kernel, i));
    forall j | 0 <= j < |v.workers| ensures WorkerInv(v.workers[j], Seen(v.kernel, j)) {
      assert WorkerInv(s.workers[j], Seen(s.kernel, j));
    }
    var served, back := OpenTrapCompletes(v, i, value);
    actions := [Trap(i, call)] + (issue + (served + back));
    RunAppend(s, [Trap(i, call)], issue + (served + back));
    RunAppend(u, issue, served + back);
    OneStep(s, Trap(i, call));
  }

  lemma {:induction false} AvoidingKeeps(s: State, actions: seq<Action>)
    requires Inv(s) && AvoidsStaleNotify(s, actions)
    ensures Inv(Run(s, actions)) && |Run(s, actions).workers| == |s.workers|
    decreases |actions|
  {
    if actions != [] {
      if Enabled(s, actions[0]) { StepHolds(s, actions[0]); }
      AvoidingKeeps(Try(s, actions[0]), actions[1..]);
    }
  }

  /** For any number of workers and any schedule outside the window: whatever trap
      of whatever worker is open can be completed from there. */
  lemma RunsCanComplete(n: nat, actions: seq<Action>, i: nat, value: int) returns (more: seq<Action>)
    requires i < n && AvoidsStaleNotify(Init(n), actions)
    ensures forall a | a in more :: OfKernel(a) || a == WorkerStep(i)
    ensures |Run(Init(n), actions).workers| == |Run(Init(n), actions + more).workers| == n
    ensures var w, t := Run(Init(n), actions).workers[i], Run(Init(n), actions + more).workers[i];
      Open(w) ==>
        && t.handled == w.handled + [(w.issued[|w.handled|], value)]
        && t.returned == w.returned + [value] && t.pc.Running?
  {
    InitHolds(n);
    AvoidingKeeps(Init(n), actions);
    var s := Run(Init(n), actions);
    more := [];
    if Open(s.workers[i]) {
      var served, back := OpenTrapCompletes(s, i, value);
      more := served + back;
    }
    RunAppend(Init(n), actions, more);
  }
}
