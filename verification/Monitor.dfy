/** The bounded blocking queue as a monitor: one mutex, and one condition variable shared by the threads that
    wait for room and those that wait for a value. Any number of threads, any interleaving, spurious wake-ups. */
module Monitor {
  import opened Wrappers

  type Tid = nat

  datatype Op<T> = Enqueue(v: T) | Pop | Size

  /** What a call did to the queue, and what it returns. */
  datatype Event<T> = Pushed(v: T) | Popped(v: T) | Sized(n: nat)

  /** Where a thread is. From Test to Unlock, but not while asleep or woken, it holds the mutex. */
  datatype PC<T> =
    | Idle                    // in no call
    | Lock(op: Op<T>)         // at the unique_lock
    | Test(op: Op<T>)         // at the guard of the wait loop
    | Asleep(op: Op<T>)       // in wait, mutex released, not notified
    | Woken(op: Op<T>)        // wait is about to take the mutex again
    | Act(op: Op<T>)          // past the wait loop
    | Notify(e: Event<T>)     // the queue is changed, notify_all is next
    | Unlock(e: Event<T>)     // about to release the mutex and return

  /** `hist` lists the effects on the queue in the order they happened; `logs` what each thread's calls returned. */
  datatype State<T> = State(
    maxLen: nat,
    owner: Option<Tid>,
    q: seq<T>,
    pc: map<Tid, PC<T>>,
    hist: seq<(Tid, Event<T>)>,
    logs: map<Tid, seq<Event<T>>>)

  datatype Step<T> =
    | Call(t: Tid, op: Op<T>)
    | TakeLock(t: Tid)
    | CheckGuard(t: Tid)
    | Spurious(t: Tid)
    | Mutate(t: Tid)
    | NotifyAll(t: Tid)
    | Return(t: Tid)

  ghost predicate Initial<T>(s: State<T>) {
    && s.owner == None && s.q == [] && s.hist == []
    && s.logs.Keys == s.pc.Keys
    && forall t :: t in s.pc ==> s.pc[t] == Idle && s.logs[t] == []
  }

  /** The guard of the wait loop. */
  predicate Blocked<T>(s: State<T>, op: Op<T>) {
    match op
    case Enqueue(_) => |s.q| == s.maxLen
    case Pop => s.q == []
    case Size => false
  }

  predicate HoldsLock<T>(p: PC<T>) {
    p.Test? || p.Act? || p.Notify? || p.Unlock?
  }

  predicate Enabled<T>(s: State<T>, step: Step<T>) {
    && step.t in s.pc && step.t in s.logs
    && var p := s.pc[step.t];
       match step
       case Call(_, _) => p.Idle?
       case TakeLock(_) => (p.Lock? || p.Woken?) && s.owner == None
       case CheckGuard(_) => p.Test?
       case Spurious(_) => p.Asleep?
       case Mutate(_) => p.Act? && (p.op.Pop? ==> s.q != [])
       case NotifyAll(_) => p.Notify?
       case Return(_) => p.Unlock?
  }

  function Goto<T>(s: State<T>, t: Tid, p: PC<T>): State<T> {
    s.(pc := s.pc[t := p])
  }

  function WokenUp<T>(p: PC<T>): PC<T> {
    if p.Asleep? then Woken(p.op) else p
  }

  /** Everyone asleep on the condition variable is woken, whatever it waits for. */
  function NotifiedAll<T>(s: State<T>): State<T> {
    s.(pc := map t | t in s.pc :: WokenUp(s.pc[t]))
  }

  function Record<T>(s: State<T>, t: Tid, e: Event<T>): State<T> {
    s.(hist := s.hist + [(t, e)])
  }

  function Next<T>(s: State<T>, step: Step<T>): State<T>
    requires Enabled(s, step)
  {
    var t := step.t;
    var p := s.pc[t];
    match step
    case Call(_, op) => Goto(s, t, Lock(op))
    case TakeLock(_) => Goto(s.(owner := Some(t)), t, if p.op.Size? then Act(p.op) else Test(p.op))
    case CheckGuard(_) =>
      if Blocked(s, p.op) then Goto(s.(owner := None), t, Asleep(p.op)) else Goto(s, t, Act(p.op))
    case Spurious(_) => Goto(s, t, Woken(p.op))
    case Mutate(_) =>
      (match p.op
       case Enqueue(v) => Goto(Record(s.(q := s.q + [v]), t, Pushed(v)), t, Notify(Pushed(v)))
       case Pop => Goto(Record(s.(q := s.q[1..]), t, Popped(s.q[0])), t, Notify(Popped(s.q[0])))
       case Size => Goto(Record(s, t, Sized(|s.q|)), t, Unlock(Sized(|s.q|))))
    case NotifyAll(_) => Goto(NotifiedAll(s), t, Unlock(p.e))
    case Return(_) => Goto(s.(owner := None, logs := s.logs[t := s.logs[t] + [p.e]]), t, Idle)
  }

  predicate Legal<T>(s: State<T>, run: seq<Step<T>>)
    decreases |run|
  {
    run == [] || (Enabled(s, run[0]) && Legal(Next(s, run[0]), run[1..]))
  }

  function Exec<T>(s: State<T>, run: seq<Step<T>>): State<T>
    requires Legal(s, run)
    decreases |run|
  {
    if run == [] then s else Exec(Next(s, run[0]), run[1..])
  }

  // ---------------------------------------------------------------- the sequential queue

  /** The contents of an unbounded FIFO queue after these effects, or None if some effect is not one it allows. */
  function Replay<T(==)>(hist: seq<(Tid, Event<T>)>): Option<seq<T>> {
    if hist == [] then Some([])
    else match Replay(hist[..|hist| - 1])
      case None => None
      case Some(q) =>
        match hist[|hist| - 1].1
        case Pushed(v) => Some(q + [v])
        case Popped(v) => if q != [] && q[0] == v then Some(q[1..]) else None
        case Sized(n) => if n == |q| then Some(q) else None
  }

  function PushedValues<T>(hist: seq<(Tid, Event<T>)>): seq<T> {
    if hist == [] then []
    else PushedValues(hist[..|hist| - 1]) + if hist[|hist| - 1].1.Pushed? then [hist[|hist| - 1].1.v] else []
  }

  function PoppedValues<T>(hist: seq<(Tid, Event<T>)>): seq<T> {
    if hist == [] then []
    else PoppedValues(hist[..|hist| - 1]) + if hist[|hist| - 1].1.Popped? then [hist[|hist| - 1].1.v] else []
  }

  /** The effects of one thread's calls. */
  function Project<T>(hist: seq<(Tid, Event<T>)>, t: Tid): seq<Event<T>> {
    if hist == [] then []
    else Project(hist[..|hist| - 1], t) + if hist[|hist| - 1].0 == t then [hist[|hist| - 1].1] else []
  }

  /** The effect of a call that has happened but has not been returned yet. */
  function Pending<T>(p: PC<T>): seq<Event<T>> {
    if p.Notify? || p.Unlock? then [p.e] else []
  }

  // ---------------------------------------------------------------- invariants

  /** Only the owner of the mutex is where a thread needs it. */
  ghost predicate MutexInv<T>(s: State<T>) {
    && s.logs.Keys == s.pc.Keys
    && (forall t :: t in s.pc && HoldsLock(s.pc[t]) ==> s.owner == Some(t))
    && (s.owner.Some? ==> s.owner.value in s.pc && HoldsLock(s.pc[s.owner.value]))
  }

  /** A thread past the wait loop still finds its guard false, and the bound holds. */
  ghost predicate GuardInv<T>(s: State<T>) {
    && (forall t :: t in s.pc && s.pc[t].Act? ==> !Blocked(s, s.pc[t].op))
    && |s.q| <= s.maxLen
  }

  ghost predicate LockInv<T>(s: State<T>) {
    MutexInv(s) && GuardInv(s)
  }

  /** Some thread has changed the queue and is about to notify. */
  predicate NotifyDue<T>(s: State<T>) {
    s.owner.Some? && s.owner.value in s.pc && s.pc[s.owner.value].Notify?
  }

  /** No wake-up is lost: whoever sleeps would still find its guard true, or a notification is on its way. */
  ghost predicate SleepInv<T>(s: State<T>) {
    forall t :: t in s.pc && s.pc[t].Asleep? ==> NotifyDue(s) || Blocked(s, s.pc[t].op)
  }

  predicate Sleeps<T>(s: State<T>, t: Tid) {
    t in s.pc && s.pc[t].Asleep?
  }

  /** Given room for one value, the sleepers are all producers or all consumers. */
  ghost predicate OneKind<T>(s: State<T>) {
    && (forall t :: Sleeps(s, t) ==> !s.pc[t].op.Size?)
    && (s.maxLen > 0 ==> forall t, u :: Sleeps(s, t) && Sleeps(s, u) ==> s.pc[t].op.Pop? == s.pc[u].op.Pop?)
  }

  ghost predicate HistInv<T>(s: State<T>) {
    && Replay(s.hist) == Some(s.q)
    && s.logs.Keys == s.pc.Keys
    && forall t :: t in s.pc ==> Project(s.hist, t) == s.logs[t] + Pending(s.pc[t])
  }

  ghost predicate Inv<T>(s: State<T>) {
    LockInv(s) && SleepInv(s) && OneKind(s) && HistInv(s)
  }

  lemma RecordSteps<T>(hist: seq<(Tid, Event<T>)>, t: Tid, e: Event<T>)
    ensures (hist + [(t, e)])[..|hist|] == hist
    ensures forall u :: Project(hist + [(t, e)], u) == Project(hist, u) + if u == t then [e] else []
  {
  }

  lemma MutexStep<T>(s: State<T>, step: Step<T>)
    requires MutexInv(s) && Enabled(s, step)
    ensures MutexInv(Next(s, step))
  {
  }

  lemma GuardStep<T>(s: State<T>, step: Step<T>)
    requires LockInv(s) && Enabled(s, step)
    ensures GuardInv(Next(s, step))
  {
  }

  lemma LockStep<T>(s: State<T>, step: Step<T>)
    requires LockInv(s) && Enabled(s, step)
    ensures LockInv(Next(s, step))
  {
    MutexStep(s, step);
    GuardStep(s, step);
  }

  lemma SleepStep<T>(s: State<T>, step: Step<T>)
    requires LockInv(s) && SleepInv(s) && Enabled(s, step)
    ensures SleepInv(Next(s, step))
  {
  }

  /** A thread falls asleep only while no notification is due, so every other sleeper has its guard true as well. */
  lemma OneKindStep<T>(s: State<T>, step: Step<T>)
    requires LockInv(s) && SleepInv(s) && OneKind(s) && Enabled(s, step)
    ensures OneKind(Next(s, step))
  {
    var s', w := Next(s, step), step.t;
    assert forall t :: Sleeps(s', t) && t != w ==> Sleeps(s, t) && s'.pc[t] == s.pc[t];
    if Sleeps(s', w) {
      assert !NotifyDue(s) && Blocked(s, s'.pc[w].op);
      assert forall t :: Sleeps(s, t) ==> Blocked(s, s.pc[t].op);
    }
  }

  lemma ReplaySnoc<T>(hist: seq<(Tid, Event<T>)>, t: Tid, e: Event<T>)
    requires Replay(hist).Some?
    ensures var q := Replay(hist).value;
            Replay(hist + [(t, e)]) == match e
                                       case Pushed(v) => Some(q + [v])
                                       case Popped(v) => if q != [] && q[0] == v then Some(q[1..]) else None
                                       case Sized(n) => if n == |q| then Some(q) else None
  {
    assert (hist + [(t, e)])[..|hist|] == hist;
  }

  /** The effect is one the sequential queue allows. */
  lemma MutateReplays<T>(s: State<T>, t: Tid)
    requires Replay(s.hist) == Some(s.q) && Enabled(s, Mutate(t))
    ensures var s' := Next(s, Mutate(t)); Replay(s'.hist) == Some(s'.q)
  {
    match s.pc[t].op {
      case Enqueue(v) => ReplaySnoc(s.hist, t, Pushed(v));
      case Pop => ReplaySnoc(s.hist, t, Popped(s.q[0]));
      case Size => ReplaySnoc(s.hist, t, Sized(|s.q|));
    }
  }

  lemma MutateProjects<T>(s: State<T>, t: Tid)
    requires HistInv(s) && Enabled(s, Mutate(t))
    ensures var s' := Next(s, Mutate(t));
            forall u :: u in s'.pc ==> Project(s'.hist, u) == s'.logs[u] + Pending(s'.pc[u])
  {
    var s' := Next(s, Mutate(t));
    var e := s'.hist[|s.hist|].1;
    assert s'.hist == s.hist + [(t, e)];
    RecordSteps(s.hist, t, e);
    assert s.logs[t] + [] + [e] == s.logs[t] + [e];
  }

  /** Every other step leaves each thread's effects where they were: returned, or pending. */
  lemma QuietStep<T>(s: State<T>, step: Step<T>, u: Tid)
    requires s.logs.Keys == s.pc.Keys && Enabled(s, step) && !step.Mutate? && u in s.pc
    ensures var s' := Next(s, step);
            s'.hist == s.hist && s'.q == s.q && s'.logs.Keys == s'.pc.Keys == s.pc.Keys
            && s'.logs[u] + Pending(s'.pc[u]) == s.logs[u] + Pending(s.pc[u])
  {
  }

  lemma {:induction false} HistStep<T>(s: State<T>, step: Step<T>)
    requires HistInv(s) && Enabled(s, step)
    ensures HistInv(Next(s, step))
  {
    if step.Mutate? {
      MutateReplays(s, step.t);
      MutateProjects(s, step.t);
    } else {
      QuietStep(s, step, step.t);
      forall u | u in s.pc
        ensures Project(s.hist, u) == Next(s, step).logs[u] + Pending(Next(s, step).pc[u])
      {
        QuietStep(s, step, u);
      }
    }
  }

  lemma {:induction false} InvRun<T>(s: State<T>, run: seq<Step<T>>)
    requires Inv(s) && Legal(s, run)
    ensures Inv(Exec(s, run))
    decreases |run|
  {
    if run != [] {
      LockStep(s, run[0]);
      SleepStep(s, run[0]);
      OneKindStep(s, run[0]);
      HistStep(s, run[0]);
      InvRun(Next(s, run[0]), run[1..]);
    }
  }

  lemma InitialInv<T>(s: State<T>)
    requires Initial(s)
    ensures Inv(s)
  {
  }

  // ---------------------------------------------------------------- linearizability

  lemma {:induction false} FifoBalance<T>(hist: seq<(Tid, Event<T>)>)
    requires Replay(hist).Some?
    ensures PushedValues(hist) == PoppedValues(hist) + Replay(hist).value
  {
    if hist != [] {
      var front, e := hist[..|hist| - 1], hist[|hist| - 1].1;
      FifoBalance(front);
      var q := Replay(front).value;
      match e {
        case Pushed(v) => assert PoppedValues(front) + (q + [v]) == PoppedValues(front) + q + [v];
        case Popped(v) => assert q == [v] + q[1..];
        case Sized(_) =>
      }
    }
  }

  /** Every size returned is the number of values pushed before it less those popped. */
  ghost predicate SizesTrue<T>(hist: seq<(Tid, Event<T>)>) {
    forall i :: 0 <= i < |hist| && hist[i].1.Sized? ==>
      hist[i].1.n == |PushedValues(hist[..i])| - |PoppedValues(hist[..i])|
  }

  lemma {:induction false} ReplayedSizes<T>(hist: seq<(Tid, Event<T>)>)
    requires Replay(hist).Some?
    ensures SizesTrue(hist)
  {
    if hist != [] {
      var front := hist[..|hist| - 1];
      ReplayedSizes(front);
      FifoBalance(front);
      forall i | 0 <= i < |hist| && hist[i].1.Sized?
        ensures hist[i].1.n == |PushedValues(hist[..i])| - |PoppedValues(hist[..i])|
      {
        if i < |front| {
          assert hist[..i] == front[..i] && front[i] == hist[i];
        }
      }
    }
  }

  /** Every interleaving is equivalent to a sequential one on a FIFO queue: the effects in the order they happened
      are a history the sequential queue allows, each thread got back exactly the results of its own effects, the
      values pushed are the values popped followed by those still queued, and the bound holds. */
  lemma Linearizable<T>(s: State<T>, run: seq<Step<T>>)
    requires Initial(s) && Legal(s, run)
    ensures var s' := Exec(s, run);
            && Replay(s'.hist) == Some(s'.q)
            && (forall t :: t in s'.pc && s'.pc[t].Idle? ==> t in s'.logs && s'.logs[t] == Project(s'.hist, t))
            && PushedValues(s'.hist) == PoppedValues(s'.hist) + s'.q
            && SizesTrue(s'.hist)
            && |s'.q| <= s'.maxLen
  {
    InitialInv(s);
    InvRun(s, run);
    var s' := Exec(s, run);
    FifoBalance(s'.hist);
    ReplayedSizes(s'.hist);
    forall t | t in s'.pc && s'.pc[t].Idle?
      ensures t in s'.logs && s'.logs[t] == Project(s'.hist, t)
    {
      assert s'.logs[t] + [] == s'.logs[t];
    }
  }

  lemma {:induction false} ProjectJoin<T>(hist: seq<(Tid, Event<T>)>, later: seq<(Tid, Event<T>)>, t: Tid)
    ensures Project(hist + later, t) == Project(hist, t) + Project(later, t)
  {
    if later == [] {
      assert hist + later == hist;
      assert Project(hist, t) + [] == Project(hist, t);
    } else {
      var front := later[..|later| - 1];
      assert (hist + later)[..|hist + later| - 1] == hist + front;
      ProjectJoin(hist, front, t);
    }
  }

  lemma {:induction false} HistoryGrows<T>(s: State<T>, run: seq<Step<T>>)
    requires Legal(s, run)
    ensures s.hist <= Exec(s, run).hist
    decreases |run|
  {
    if run != [] {
      HistoryGrows(Next(s, run[0]), run[1..]);
    }
  }

  lemma {:induction false} EffectsSplit<T>(mid: State<T>, end: State<T>, later: seq<(Tid, Event<T>)>, t: Tid)
    requires HistInv(mid) && HistInv(end) && end.hist == mid.hist + later
    requires t in mid.pc && t in end.pc
    ensures Project(mid.hist, t) == mid.logs[t] + Pending(mid.pc[t])
    ensures mid.logs[t] + Pending(mid.pc[t]) + Project(later, t) == end.logs[t] + Pending(end.pc[t])
  {
    ProjectJoin(mid.hist, later, t);
  }

  /** The order of effects respects real time. Cut any run in two: the effects after the cut are, thread by thread,
      those of the calls that had not had their effect at the cut. So a call that returned before another began has
      its effect first. */
  lemma RealTimeOrder<T>(s: State<T>, before: seq<Step<T>>, after: seq<Step<T>>) returns (later: seq<(Tid, Event<T>)>)
    requires Initial(s) && Legal(s, before) && Legal(Exec(s, before), after)
    ensures var mid, end := Exec(s, before), Exec(Exec(s, before), after);
            && end.hist == mid.hist + later
            && mid.logs.Keys == mid.pc.Keys && end.logs.Keys == end.pc.Keys
            && forall t :: t in mid.pc && t in end.pc ==>
                 && Project(mid.hist, t) == mid.logs[t] + Pending(mid.pc[t])
                 && mid.logs[t] + Pending(mid.pc[t]) + Project(later, t) == end.logs[t] + Pending(end.pc[t])
  {
    var mid, end := Exec(s, before), Exec(Exec(s, before), after);
    assert HistInv(mid) && HistInv(end) by {
      InitialInv(s);
      InvRun(s, before);
      InvRun(mid, after);
    }
    HistoryGrows(mid, after);
    later := end.hist[|mid.hist|..];
    forall t | t in mid.pc && t in end.pc
      ensures Project(mid.hist, t) == mid.logs[t] + Pending(mid.pc[t])
      ensures mid.logs[t] + Pending(mid.pc[t]) + Project(later, t) == end.logs[t] + Pending(end.pc[t])
    {
      EffectsSplit(mid, end, later, t);
    }
  }

  // ---------------------------------------------------------------- nobody is stuck without reason

  /** A step the program takes by itself: not a new call, not a spurious wake-up. */
  predicate Proper<T>(step: Step<T>) {
    !step.Call? && !step.Spurious?
  }

  ghost predicate CanProceed<T(!new)>(s: State<T>) {
    exists step :: Enabled(s, step) && Proper(step)
  }

  predicate Quiet<T>(s: State<T>) {
    forall t :: t in s.pc ==> s.pc[t].Idle? || s.pc[t].Asleep?
  }

  lemma SomeoneProceeds<T>(s: State<T>, t: Tid) returns (step: Step<T>)
    requires LockInv(s) && t in s.pc && !s.pc[t].Idle? && !s.pc[t].Asleep?
    ensures Enabled(s, step) && Proper(step)
  {
    var u := if s.owner.Some? then s.owner.value else t;
    var p := s.pc[u];
    step := if p.Test? then CheckGuard(u)
            else if p.Act? then Mutate(u)
            else if p.Notify? then NotifyAll(u)
            else if p.Unlock? then Return(u)
            else TakeLock(u);
  }

  /** A full queue for a producer, an empty one for a consumer. */
  predicate FullOrEmpty<T>(s: State<T>, op: Op<T>) {
    (op.Enqueue? && |s.q| == s.maxLen) || (op.Pop? && |s.q| == 0)
  }

  lemma QuietIsStuck<T(!new)>(s: State<T>)
    requires LockInv(s)
    ensures CanProceed(s) <==> !Quiet(s)
  {
    if !Quiet(s) {
      var t :| t in s.pc && !s.pc[t].Idle? && !s.pc[t].Asleep?;
      var step := SomeoneProceeds(s, t);
    }
  }

  /** In every reachable state, whoever sleeps without a notification being due does so with reason: the queue is
      full under a sleeping producer, empty under a sleeping consumer. The only way for no thread to be able to go on
      is that every unfinished call sleeps, and then for that reason. */
  lemma NoStuck<T(!new)>(s: State<T>, run: seq<Step<T>>)
    requires Initial(s) && Legal(s, run)
    ensures var s' := Exec(s, run);
            && (forall t :: Sleeps(s', t) ==> NotifyDue(s') || FullOrEmpty(s', s'.pc[t].op))
            && (CanProceed(s') <==> !Quiet(s'))
            && (!CanProceed(s') ==> forall t :: Sleeps(s', t) ==> FullOrEmpty(s', s'.pc[t].op))
  {
    InitialInv(s);
    InvRun(s, run);
    var s' := Exec(s, run);
    QuietIsStuck(s');
    assert Quiet(s') ==> !NotifyDue(s');
  }

  /** A sleeper may wake at any time without having been notified; it finds its guard still true and sleeps again. */
  lemma WakesInVain<T>(s: State<T>, t: Tid)
    requires Sleeps(s, t) && t in s.logs && s.owner == None && FullOrEmpty(s, s.pc[t].op)
    ensures var run := [Spurious(t), TakeLock(t), CheckGuard(t)]; Legal(s, run) && Exec(s, run) == s
  {
    var op := s.pc[t].op;
    var run := Then(s, [], Spurious(t));
    run := Then(s, run, TakeLock(t));
    assert Exec(s, run).pc[t] == Test(op);
    run := Then(s, run, CheckGuard(t));
    assert Exec(s, run).pc == s.pc;
  }

  lemma {:induction false} MaxLenFixed<T>(s: State<T>, run: seq<Step<T>>)
    requires Legal(s, run)
    ensures Exec(s, run).maxLen == s.maxLen
    decreases |run|
  {
    if run != [] {
      MaxLenFixed(Next(s, run[0]), run[1..]);
    }
  }

  /** A producer and a consumer asleep at once. */
  ghost predicate BothAsleep<T>(s: State<T>) {
    exists t, u :: Sleeps(s, t) && Sleeps(s, u) && s.pc[t].op.Enqueue? && s.pc[u].op.Pop?
  }

  /** With room for one value at least, in no reachable state. */
  lemma NeverBothAsleep<T>(s: State<T>, run: seq<Step<T>>)
    requires Initial(s) && Legal(s, run) && s.maxLen > 0
    ensures !BothAsleep(Exec(s, run))
    ensures forall t, u :: Sleeps(Exec(s, run), t) && Sleeps(Exec(s, run), u) ==>
              Exec(s, run).pc[t].op.Pop? == Exec(s, run).pc[u].op.Pop?
  {
    InitialInv(s);
    InvRun(s, run);
    MaxLenFixed(s, run);
  }

  /** With no room at all the two kinds do sleep together: the bound on the last lemma is needed. */
  lemma BothAsleepWithoutRoom<T>(v: T) returns (s: State<T>, run: seq<Step<T>>)
    ensures Initial(s) && s.maxLen == 0 && Legal(s, run) && BothAsleep(Exec(s, run))
  {
    s := State(0, None, [], map[0 := Idle, 1 := Idle], [], map[0 := [], 1 := []]);
    run := [];
    run := Then(s, run, Call(0, Enqueue(v)));
    run := Then(s, run, TakeLock(0));
    run := Then(s, run, CheckGuard(0));
    run := Then(s, run, Call(1, Pop));
    run := Then(s, run, TakeLock(1));
    run := Then(s, run, CheckGuard(1));
    assert Sleeps(Exec(s, run), 0) && Sleeps(Exec(s, run), 1);
  }

  /** Extends a run by a step. */
  lemma {:induction false} Then<T>(s: State<T>, run: seq<Step<T>>, step: Step<T>) returns (run': seq<Step<T>>)
    requires Legal(s, run) && Enabled(Exec(s, run), step)
    ensures run' == run + [step]
    ensures Legal(s, run') && Exec(s, run') == Next(Exec(s, run), step)
    decreases |run|
  {
    run' := run + [step];
    if run != [] {
      var rest := Then(Next(s, run[0]), run[1..], step);
      assert run'[1..] == rest;
    } else {
      assert run'[1..] == [];
    }
  }
}
