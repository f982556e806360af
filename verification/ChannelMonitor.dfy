/** The write queue as a channel uses it: every call on the queue is made with the channel's own mutex held,
    so a thread that waits inside the queue keeps everyone else out. */
module ChannelMonitor {
  import opened Monitor
  import opened Wrappers

  /** A thread outside the channel, at its mutex, or holding it. */
  datatype Place<T> = Out | AtMutex(op: Op<T>) | Inside(op: Op<T>)

  datatype CState<T> = CState(m: State<T>, holder: Option<Tid>, at: map<Tid, Place<T>>)

  datatype CStep<T> =
    | Begin(t: Tid, op: Op<T>)
    | Enter(t: Tid)               // takes the channel mutex and starts the call on the queue
    | Inner(step: Step<T>)        // a step of that call
    | Leave(t: Tid)               // releases the channel mutex

  ghost predicate CInitial<T>(s: CState<T>) {
    Initial(s.m) && s.holder == None && s.at.Keys == s.m.pc.Keys && forall t :: t in s.at ==> s.at[t] == Out
  }

  predicate CEnabled<T>(s: CState<T>, step: CStep<T>) {
    match step
    case Begin(t, op) => t in s.at && s.at[t].Out?
    case Enter(t) => t in s.at && s.at[t].AtMutex? && s.holder == None && Enabled(s.m, Call(t, s.at[t].op))
    case Inner(inner) => !inner.Call? && Enabled(s.m, inner)
    case Leave(t) => t in s.at && s.at[t].Inside? && t in s.m.pc && s.m.pc[t].Idle?
  }

  function CNext<T>(s: CState<T>, step: CStep<T>): CState<T>
    requires CEnabled(s, step)
  {
    match step
    case Begin(t, op) => s.(at := s.at[t := AtMutex(op)])
    case Enter(t) => CState(Next(s.m, Call(t, s.at[t].op)), Some(t), s.at[t := Inside(s.at[t].op)])
    case Inner(inner) => s.(m := Next(s.m, inner))
    case Leave(t) => s.(holder := None, at := s.at[t := Out])
  }

  predicate CLegal<T>(s: CState<T>, run: seq<CStep<T>>)
    decreases |run|
  {
    run == [] || (CEnabled(s, run[0]) && CLegal(CNext(s, run[0]), run[1..]))
  }

  function CExec<T>(s: CState<T>, run: seq<CStep<T>>): CState<T>
    requires CLegal(s, run)
    decreases |run|
  {
    if run == [] then s else CExec(CNext(s, run[0]), run[1..])
  }

  /** A call that has not had its effect yet. */
  predicate BeforeEffect<T>(p: PC<T>) {
    p.Lock? || p.Test? || p.Asleep? || p.Woken? || p.Act?
  }

  /** Only the holder of the channel mutex is inside the queue. */
  ghost predicate Nested<T>(s: CState<T>) {
    && s.at.Keys == s.m.pc.Keys
    && (forall t :: t in s.at ==> (s.at[t].Inside? <==> s.holder == Some(t)))
    && (forall t :: t in s.m.pc && !s.m.pc[t].Idle? ==> s.holder == Some(t))
    && (s.holder.Some? ==> s.holder.value in s.at)
  }

  ghost predicate CInv<T>(s: CState<T>) {
    Inv(s.m) && Nested(s)
  }

  lemma {:induction false} MonitorStep<T>(s: State<T>, step: Step<T>)
    requires Inv(s) && Enabled(s, step)
    ensures Inv(Next(s, step))
  {
    LockStep(s, step);
    SleepStep(s, step);
    OneKindStep(s, step);
    HistStep(s, step);
  }

  lemma NestedStep<T>(s: CState<T>, step: CStep<T>)
    requires Nested(s) && CEnabled(s, step)
    ensures Nested(CNext(s, step))
  {
  }

  lemma {:induction false} CInvStep<T>(s: CState<T>, step: CStep<T>)
    requires CInv(s) && CEnabled(s, step)
    ensures CInv(CNext(s, step))
  {
    NestedStep(s, step);
    match step {
      case Enter(t) => MonitorStep(s.m, Call(t, s.at[t].op));
      case Inner(inner) => MonitorStep(s.m, inner);
      case _ =>
    }
  }

  lemma {:induction false} CInvRun<T>(s: CState<T>, run: seq<CStep<T>>)
    requires CInv(s) && CLegal(s, run)
    ensures CInv(CExec(s, run))
    decreases |run|
  {
    if run != [] {
      CInvStep(s, run[0]);
      CInvRun(CNext(s, run[0]), run[1..]);
    }
  }

  lemma CInitialInv<T>(s: CState<T>)
    requires CInitial(s)
    ensures CInv(s) && !Hung(s)
  {
  }

  // ---------------------------------------------------------------- waiting inside is for ever

  /** The holder of the channel mutex is in a call whose guard is true. */
  ghost predicate Hung<T>(s: CState<T>) {
    && s.holder.Some? && s.holder.value in s.m.pc
    && BeforeEffect(s.m.pc[s.holder.value])
    && Blocked(s.m, s.m.pc[s.holder.value].op)
  }

  /** Every call finds its guard false when it takes the channel mutex. */
  predicate EntersClear<T>(s: CState<T>, run: seq<CStep<T>>)
    requires CLegal(s, run)
    decreases |run|
  {
    run == [] || (&& (run[0].Enter? ==> !Blocked(s.m, s.at[run[0].t].op))
                  && EntersClear(CNext(s, run[0]), run[1..]))
  }

  /** A call whose guard is true only moves between testing, sleeping and waking. */
  lemma StaysBlocked<T>(s: State<T>, step: Step<T>)
    requires LockInv(s) && Enabled(s, step) && !step.Call?
    requires BeforeEffect(s.pc[step.t]) && Blocked(s, s.pc[step.t].op)
    ensures var s' := Next(s, step);
            && step.t in s'.pc && BeforeEffect(s'.pc[step.t]) && Blocked(s', s'.pc[step.t].op)
            && s'.hist == s.hist && s'.logs == s.logs
  {
  }

  lemma HungStep<T>(s: CState<T>, step: CStep<T>)
    requires CInv(s) && Hung(s) && CEnabled(s, step)
    ensures Hung(CNext(s, step))
    ensures CNext(s, step).holder == s.holder && CNext(s, step).m.hist == s.m.hist
    ensures CNext(s, step).m.logs == s.m.logs
  {
    if step.Inner? {
      assert s.holder == Some(step.step.t);
      StaysBlocked(s.m, step.step);
    }
  }

  /** Once a thread has to wait while holding the channel mutex, no run ever changes the queue again,
      returns a call, or frees the mutex. */
  lemma {:induction false} HungForEver<T>(s: CState<T>, run: seq<CStep<T>>)
    requires CInv(s) && Hung(s) && CLegal(s, run)
    ensures Hung(CExec(s, run))
    ensures CExec(s, run).holder == s.holder && CExec(s, run).m.hist == s.m.hist && CExec(s, run).m.logs == s.m.logs
    decreases |run|
  {
    if run != [] {
      HungStep(s, run[0]);
      CInvStep(s, run[0]);
      HungForEver(CNext(s, run[0]), run[1..]);
    }
  }

  lemma InnerStepHangs<T>(s: CState<T>, step: Step<T>)
    requires Nested(s) && !Hung(s) && CEnabled(s, Inner(step))
    ensures !Hung(CNext(s, Inner(step)))
  {
  }

  lemma StepHangs<T>(s: CState<T>, step: CStep<T>)
    requires CInv(s) && !Hung(s) && CEnabled(s, step)
    ensures Hung(CNext(s, step)) <==> step.Enter? && Blocked(s.m, s.at[step.t].op)
  {
    if step.Inner? {
      InnerStepHangs(s, step.step);
    }
  }

  /** Nobody sleeps on the condition variable unless the channel is hung. */
  lemma NobodySleeps<T>(s: CState<T>)
    requires CInv(s) && !Hung(s)
    ensures forall t :: t in s.m.pc ==> !s.m.pc[t].Asleep?
  {
  }

  lemma {:induction false} HangsFrom<T>(s: CState<T>, run: seq<CStep<T>>)
    requires CInv(s) && !Hung(s) && CLegal(s, run)
    ensures Hung(CExec(s, run)) <==> !EntersClear(s, run)
    decreases |run|
  {
    if run != [] {
      StepHangs(s, run[0]);
      CInvStep(s, run[0]);
      if Hung(CNext(s, run[0])) {
        HungForEver(CNext(s, run[0]), run[1..]);
      } else {
        HangsFrom(CNext(s, run[0]), run[1..]);
      }
    }
  }

  /** In any run from the start, the channel has hung exactly when some call entered it with its guard true. */
  lemma HangsExactly<T>(s: CState<T>, run: seq<CStep<T>>)
    requires CInitial(s) && CLegal(s, run)
    ensures Hung(CExec(s, run)) <==> !EntersClear(s, run)
  {
    CInitialInv(s);
    HangsFrom(s, run);
  }

  // ---------------------------------------------------------------- one drainer

  /** The queue size a thread may rely on: what it was last told, less what it has popped since. */
  function Credit<T>(log: seq<Event<T>>): nat {
    if log == [] then 0
    else match log[|log| - 1]
      case Sized(n) => n
      case Popped(_) => var c := Credit(log[..|log| - 1]); if c == 0 then 0 else c - 1
      case Pushed(_) => Credit(log[..|log| - 1])
  }

  /** Whoever pops was told of a size that leaves something to pop, and whoever enqueues finds room. */
  predicate Allowed<T>(s: State<T>, t: Tid, op: Op<T>) {
    match op
    case Pop => t in s.logs && Credit(s.logs[t]) > 0
    case Enqueue(_) => |s.q| < s.maxLen
    case Size => true
  }

  /** The step does not enter a call its thread has not checked. */
  predicate Checked<T>(s: CState<T>, step: CStep<T>) {
    step.Enter? && step.t in s.at && s.at[step.t].AtMutex? ==> Allowed(s.m, step.t, s.at[step.t].op)
  }

  predicate AllChecked<T>(s: CState<T>, run: seq<CStep<T>>)
    requires CLegal(s, run)
    decreases |run|
  {
    run == [] || (Checked(s, run[0]) && AllChecked(CNext(s, run[0]), run[1..]))
  }

  /** Callers check, and thread w alone pops. */
  predicate Disciplined<T>(s: CState<T>, step: CStep<T>, w: Tid) {
    && Checked(s, step)
    && (step.Enter? && step.t in s.at && s.at[step.t].AtMutex? && s.at[step.t].op.Pop? ==> step.t == w)
  }

  predicate AllDisciplined<T>(s: CState<T>, run: seq<CStep<T>>, w: Tid)
    requires CLegal(s, run)
    decreases |run|
  {
    run == [] || (Disciplined(s, run[0], w) && AllDisciplined(CNext(s, run[0]), run[1..], w))
  }

  ghost predicate PopsOnly<T>(s: CState<T>, w: Tid) {
    forall t :: t in s.m.pc && BeforeEffect(s.m.pc[t]) && s.m.pc[t].op.Pop? ==> t == w
  }

  /** Only w is ever in a pop, and what w was told about the size is still there. */
  ghost predicate SoleDrainer<T>(s: CState<T>, w: Tid) {
    && PopsOnly(s, w)
    && Credit(Project(s.m.hist, w)) <= |s.m.q|
  }

  lemma CreditSnoc<T>(log: seq<Event<T>>, e: Event<T>)
    ensures Credit(log + [e]) == match e
                                 case Sized(n) => n
                                 case Popped(_) => if Credit(log) == 0 then 0 else Credit(log) - 1
                                 case Pushed(_) => Credit(log)
  {
  }

  lemma DrainerMutates<T>(s: State<T>, t: Tid, w: Tid)
    requires Enabled(s, Mutate(t)) && (s.pc[t].op.Pop? ==> t == w)
    requires Credit(Project(s.hist, w)) <= |s.q|
    ensures var s' := Next(s, Mutate(t)); Credit(Project(s'.hist, w)) <= |s'.q|
  {
    var s' := Next(s, Mutate(t));
    var e := s'.hist[|s.hist|].1;
    var log := Project(s.hist, w);
    RecordSteps(s.hist, t, e);
    if t == w {
      CreditSnoc(log, e);
    } else {
      assert log + [] == log;
    }
  }

  lemma PopsOnlyStep<T>(s: CState<T>, step: CStep<T>, w: Tid)
    requires PopsOnly(s, w) && CEnabled(s, step) && Disciplined(s, step, w)
    ensures PopsOnly(CNext(s, step), w)
  {
  }

  lemma DrainerStep<T>(s: CState<T>, step: CStep<T>, w: Tid)
    requires CInv(s) && SoleDrainer(s, w) && CEnabled(s, step) && Disciplined(s, step, w)
    ensures SoleDrainer(CNext(s, step), w)
  {
    PopsOnlyStep(s, step, w);
    if step.Inner? && step.step.Mutate? {
      DrainerMutates(s.m, step.step.t, w);
    } else {
      assert CNext(s, step).m.hist == s.m.hist && CNext(s, step).m.q == s.m.q;
    }
  }

  /** Disciplined callers always enter clear. */
  lemma DisciplinedEnters<T>(s: CState<T>, step: CStep<T>, w: Tid)
    requires CInv(s) && SoleDrainer(s, w) && CEnabled(s, step) && Disciplined(s, step, w)
    ensures step.Enter? ==> !Blocked(s.m, s.at[step.t].op)
  {
    if step.Enter? && s.at[step.t].op.Pop? {
      assert s.m.logs[w] + [] == s.m.logs[w];
    }
  }

  lemma {:induction false} NeverWaitsFrom<T>(s: CState<T>, run: seq<CStep<T>>, w: Tid)
    requires CInv(s) && !Hung(s) && SoleDrainer(s, w)
    requires CLegal(s, run) && AllDisciplined(s, run, w)
    ensures !Hung(CExec(s, run))
    ensures forall t :: t in CExec(s, run).m.pc ==> !CExec(s, run).m.pc[t].Asleep?
    decreases |run|
  {
    if run == [] {
      NobodySleeps(s);
    } else {
      DisciplinedEnters(s, run[0], w);
      StepHangs(s, run[0]);
      CInvStep(s, run[0]);
      DrainerStep(s, run[0], w);
      NeverWaitsFrom(CNext(s, run[0]), run[1..], w);
    }
  }

  lemma CInitialDrainer<T>(s: CState<T>, w: Tid)
    requires CInitial(s)
    ensures SoleDrainer(s, w)
  {
  }

  /** Checking the size and then popping never waits, in any run from the start and with any number of other threads
      that only enqueue, below the bound, and ask for the size: no thread ever sleeps while it holds the channel
      mutex. */
  lemma CheckThenPop<T>(s: CState<T>, run: seq<CStep<T>>, w: Tid)
    requires CInitial(s) && CLegal(s, run) && AllDisciplined(s, run, w)
    ensures !Hung(CExec(s, run))
    ensures forall t :: t in CExec(s, run).m.pc ==> !CExec(s, run).m.pc[t].Asleep?
  {
    CInitialInv(s);
    CInitialDrainer(s, w);
    NeverWaitsFrom(s, run, w);
  }

  // ---------------------------------------------------------------- progress

  predicate CProper<T>(step: CStep<T>) {
    match step
    case Begin(_, _) => false
    case Inner(inner) => Proper(inner)
    case _ => true
  }

  /** While the channel is not hung and some call is unfinished, some thread can go on. */
  lemma ChannelProceeds<T>(s: CState<T>, t: Tid) returns (step: CStep<T>)
    requires CInv(s) && !Hung(s) && t in s.at && !s.at[t].Out?
    ensures CEnabled(s, step) && CProper(step)
  {
    NobodySleeps(s);
    if s.holder == None {
      step := Enter(t);
    } else if s.m.pc[s.holder.value].Idle? {
      step := Leave(s.holder.value);
    } else {
      var inner := SomeoneProceeds(s.m, s.holder.value);
      step := Inner(inner);
    }
  }

  // ---------------------------------------------------------------- two drainers

  /** Extends a run by a step. */
  lemma {:induction false} CThen<T>(s: CState<T>, run: seq<CStep<T>>, step: CStep<T>) returns (run': seq<CStep<T>>)
    requires CLegal(s, run) && AllChecked(s, run)
    requires CEnabled(CExec(s, run), step) && Checked(CExec(s, run), step)
    ensures CLegal(s, run') && AllChecked(s, run') && CExec(s, run') == CNext(CExec(s, run), step)
    decreases |run|
  {
    run' := run + [step];
    if run != [] {
      var rest := CThen(CNext(s, run[0]), run[1..], step);
      run' := [run[0]] + rest;
      assert run'[1..] == rest;
    } else {
      assert run'[1..] == [];
    }
  }

  /** Nobody is in a call. */
  ghost predicate Rested<T>(s: CState<T>) {
    && s.holder == None && s.m.owner == None
    && s.at.Keys == s.m.pc.Keys == s.m.logs.Keys
    && forall t :: t in s.at ==> s.at[t] == Out && s.m.pc[t] == Idle
  }

  /** The effect of a call on a queue that does not make it wait. */
  function EffectOf<T>(s: State<T>, op: Op<T>): Event<T>
    requires !Blocked(s, op)
  {
    match op
    case Enqueue(v) => Pushed(v)
    case Pop => Popped(s.q[0])
    case Size => Sized(|s.q|)
  }

  function QueueAfter<T>(s: State<T>, op: Op<T>): seq<T>
    requires !Blocked(s, op)
  {
    match op
    case Enqueue(v) => s.q + [v]
    case Pop => s.q[1..]
    case Size => s.q
  }

  /** The state after a whole call by t. */
  function AfterCall<T>(s: CState<T>, t: Tid, op: Op<T>): CState<T>
    requires t in s.m.logs && !Blocked(s.m, op)
  {
    var e := EffectOf(s.m, op);
    s.(m := s.m.(q := QueueAfter(s.m, op), hist := s.m.hist + [(t, e)], logs := s.m.logs[t := s.m.logs[t] + [e]]))
  }

  /** What such a call does and returns. */
  lemma AfterCallMeans<T>(s: CState<T>, t: Tid, op: Op<T>)
    requires t in s.m.logs && (op.Enqueue? ==> |s.m.q| < s.m.maxLen) && (op.Pop? ==> s.m.q != [])
    ensures !Blocked(s.m, op)
    ensures var m := AfterCall(s, t, op).m;
            match op
            case Enqueue(v) => m.q == s.m.q + [v] && m.logs[t] == s.m.logs[t] + [Pushed(v)]
            case Pop => [s.m.q[0]] + m.q == s.m.q && m.logs[t] == s.m.logs[t] + [Popped(s.m.q[0])]
            case Size => m.q == s.m.q && m.logs[t] == s.m.logs[t] + [Sized(|s.m.q|)]
  {
  }

  /** A thread t in its call on the queue, at p, with everyone else at rest. */
  function InCall<T>(r: CState<T>, t: Tid, op: Op<T>, p: PC<T>): CState<T> {
    CState(r.m.(owner := if HoldsLock(p) then Some(t) else None, pc := r.m.pc[t := p]), Some(t), r.at[t := Inside(op)])
  }

  lemma Enters<T>(r: CState<T>, t: Tid, op: Op<T>)
    requires Rested(r) && t in r.at
    ensures CEnabled(r, Begin(t, op)) && CEnabled(CNext(r, Begin(t, op)), Enter(t))
    ensures CNext(CNext(r, Begin(t, op)), Enter(t)) == InCall(r, t, op, Lock(op))
  {
    assert r.at[t := AtMutex(op)][t := Inside(op)] == r.at[t := Inside(op)];
  }

  lemma Locks<T>(r: CState<T>, t: Tid, op: Op<T>)
    requires Rested(r) && t in r.at
    ensures var at := InCall(r, t, op, Lock(op));
            && CEnabled(at, Inner(TakeLock(t)))
            && CNext(at, Inner(TakeLock(t))) == InCall(r, t, op, if op.Size? then Act(op) else Test(op))
  {
    var p := if op.Size? then Act(op) else Test(op);
    assert r.m.pc[t := Lock(op)][t := p] == r.m.pc[t := p];
  }

  lemma Passes<T>(r: CState<T>, t: Tid, op: Op<T>)
    requires Rested(r) && t in r.at && !Blocked(r.m, op)
    ensures var at := InCall(r, t, op, Test(op));
            CEnabled(at, Inner(CheckGuard(t))) && CNext(at, Inner(CheckGuard(t))) == InCall(r, t, op, Act(op))
  {
    assert r.m.pc[t := Test(op)][t := Act(op)] == r.m.pc[t := Act(op)];
  }

  /** The queue and the history, changed as the call does. */
  function Effected<T>(r: CState<T>, t: Tid, op: Op<T>): CState<T>
    requires !Blocked(r.m, op)
  {
    r.(m := r.m.(q := QueueAfter(r.m, op), hist := r.m.hist + [(t, EffectOf(r.m, op))]))
  }

  lemma Acts<T>(r: CState<T>, t: Tid, op: Op<T>)
    requires Rested(r) && t in r.at && !Blocked(r.m, op)
    ensures var at, e := InCall(r, t, op, Act(op)), EffectOf(r.m, op);
            && CEnabled(at, Inner(Mutate(t)))
            && CNext(at, Inner(Mutate(t)))
               == InCall(Effected(r, t, op), t, op, if op.Size? then Unlock(e) else Notify(e))
  {
    var p := if op.Size? then Unlock(EffectOf(r.m, op)) else Notify(EffectOf(r.m, op));
    assert r.m.pc[t := Act(op)][t := p] == r.m.pc[t := p];
  }

  lemma Notifies<T>(r: CState<T>, t: Tid, op: Op<T>, e: Event<T>)
    requires Rested(r) && t in r.at
    ensures var at := InCall(r, t, op, Notify(e));
            CEnabled(at, Inner(NotifyAll(t))) && CNext(at, Inner(NotifyAll(t))) == InCall(r, t, op, Unlock(e))
  {
    var pc := r.m.pc[t := Notify(e)];
    assert (map u | u in pc :: WokenUp(pc[u])) == pc;
    assert pc[t := Unlock(e)] == r.m.pc[t := Unlock(e)];
  }

  lemma Leaves<T>(r: CState<T>, t: Tid, op: Op<T>, e: Event<T>)
    requires Rested(r) && t in r.at
    ensures var at := InCall(r, t, op, Unlock(e));
            && CEnabled(at, Inner(Return(t))) && CEnabled(CNext(at, Inner(Return(t))), Leave(t))
            && CNext(CNext(at, Inner(Return(t))), Leave(t)) == r.(m := r.m.(logs := r.m.logs[t := r.m.logs[t] + [e]]))
  {
    assert r.m.pc[t := Unlock(e)][t := Idle] == r.m.pc;
    assert r.at[t := Inside(op)][t := Out] == r.at;
  }

  /** A call made alone gets past the wait loop. */
  lemma CallEnters<T>(s: CState<T>, run: seq<CStep<T>>, t: Tid, op: Op<T>) returns (run': seq<CStep<T>>)
    requires CLegal(s, run) && AllChecked(s, run)
    requires Rested(CExec(s, run)) && t in CExec(s, run).at && !Blocked(CExec(s, run).m, op)
    requires Allowed(CExec(s, run).m, t, op)
    ensures CLegal(s, run') && AllChecked(s, run') && CExec(s, run') == InCall(CExec(s, run), t, op, Act(op))
  {
    var r := CExec(s, run);
    Enters(r, t, op);
    Locks(r, t, op);
    run' := CThen(s, run, Begin(t, op));
    run' := CThen(s, run', Enter(t));
    run' := CThen(s, run', Inner(TakeLock(t)));
    if !op.Size? {
      Passes(r, t, op);
      run' := CThen(s, run', Inner(CheckGuard(t)));
    }
  }

  /** It changes the queue, notifies and returns. */
  lemma CallEnds<T>(s: CState<T>, run: seq<CStep<T>>, t: Tid, op: Op<T>, r: CState<T>) returns (run': seq<CStep<T>>)
    requires CLegal(s, run) && AllChecked(s, run) && Rested(r) && t in r.at && !Blocked(r.m, op)
    requires CExec(s, run) == InCall(r, t, op, Act(op))
    ensures CLegal(s, run') && AllChecked(s, run') && CExec(s, run') == AfterCall(r, t, op)
  {
    var e, r' := EffectOf(r.m, op), Effected(r, t, op);
    Acts(r, t, op);
    run' := CThen(s, run, Inner(Mutate(t)));
    if !op.Size? {
      Notifies(r', t, op, e);
      run' := CThen(s, run', Inner(NotifyAll(t)));
    }
    Leaves(r', t, op, e);
    run' := CThen(s, run', Inner(Return(t)));
    run' := CThen(s, run', Leave(t));
  }

  /** A call made alone, with its guard false, returns after its one effect on the queue. */
  lemma WholeCall<T>(s: CState<T>, run: seq<CStep<T>>, t: Tid, op: Op<T>) returns (run': seq<CStep<T>>)
    requires CLegal(s, run) && AllChecked(s, run)
    requires Rested(CExec(s, run)) && t in CExec(s, run).at
    requires Allowed(CExec(s, run).m, t, op) && (op.Pop? ==> CExec(s, run).m.q != [])
    ensures CLegal(s, run') && AllChecked(s, run')
    ensures CExec(s, run') == AfterCall(CExec(s, run), t, op) && Rested(CExec(s, run'))
  {
    run' := CallEnters(s, run, t, op);
    run' := CallEnds(s, run', t, op, CExec(s, run));
  }

  /** Thread 0 pushes v, and 1 is told the size is one. */
  lemma OneTold<T>(s: CState<T>, v: T) returns (run: seq<CStep<T>>)
    requires CInitial(s) && s.m.maxLen == 1 && s.at.Keys == {0, 1, 2}
    ensures CLegal(s, run) && AllChecked(s, run) && Rested(CExec(s, run)) && CExec(s, run).at.Keys == {0, 1, 2}
    ensures CExec(s, run).m.q == [v] && CExec(s, run).m.logs[1] == [Sized(1)] && CExec(s, run).m.logs[2] == []
  {
    AfterCallMeans(s, 0, Enqueue(v));
    run := WholeCall(s, [], 0, Enqueue(v));
    AfterCallMeans(CExec(s, run), 1, Size);
    run := WholeCall(s, run, 1, Size);
  }

  /** And 2 is told so as well, and 1 pops. */
  lemma BothTold<T>(s: CState<T>, v: T) returns (run: seq<CStep<T>>)
    requires CInitial(s) && s.m.maxLen == 1 && s.at.Keys == {0, 1, 2}
    ensures CLegal(s, run) && AllChecked(s, run) && Rested(CExec(s, run)) && CExec(s, run).at.Keys == {0, 1, 2}
    ensures CExec(s, run).m.q == [] && CExec(s, run).m.logs[2] == [Sized(1)]
  {
    run := OneTold(s, v);
    AfterCallMeans(CExec(s, run), 2, Size);
    run := WholeCall(s, run, 2, Size);
    assert CExec(s, run).m.logs[1] == [Sized(1)];
    AfterCallMeans(CExec(s, run), 1, Pop);
    run := WholeCall(s, run, 1, Pop);
  }

  /** With two drainers checking first is not enough. From the start, with everyone checking, both are told of the
      one value, the first pops it, and the pop of the second hangs the channel. */
  lemma TwoDrainersHang<T>(v: T) returns (s: CState<T>, run: seq<CStep<T>>)
    ensures CInitial(s) && s.m.maxLen > 0
    ensures CLegal(s, run) && AllChecked(s, run) && Hung(CExec(s, run))
  {
    s := CState(State(1, None, [], map[0 := Idle, 1 := Idle, 2 := Idle], [], map[0 := [], 1 := [], 2 := []]),
                None, map[0 := Out, 1 := Out, 2 := Out]);
    run := BothTold(s, v);
    var told := CExec(s, run);
    assert Credit(told.m.logs[2]) == 1;
    Enters(told, 2, Pop);
    run := CThen(s, run, Begin(2, Pop));
    run := CThen(s, run, Enter(2));
    assert CExec(s, run) == InCall(told, 2, Pop, Lock(Pop));
  }
}
