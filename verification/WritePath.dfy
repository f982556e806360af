/** The sending side of one connection as a transition system: what a direct write, a parked remainder and
    a drain of the queue do to the wire, the queue, the epoll interest and the channel's last event, over
    every run and every answer of the kernel. Channel.dfy and Worker.dfy prove that the code takes these steps. */
module WritePath {
  import opened Bits
  import opened Epoll
  import opened Framing
  import opened Nio
  import opened Wrappers

  const MAX_QUEUE := 10240

  /** A connection: the bytes that went out, the write queue, its place in the interest set, the channel's last
      event, and the epoll_ctl calls made for it. */
  datatype View = View(wire: seq<byte>, queue: seq<seq<byte>>, interest: Option<Mask>, events: nat, ctls: seq<CtlCall>)

  /** How `send_buf` ends: everything written, the rest parked on EAGAIN, or the rest dropped on 0 or an error. */
  datatype End = Done | Parked | Abandoned

  predicate Outcome(buf: seq<byte>, k: nat, end: End) {
    k <= |buf| && (end == Done <==> k == |buf|)
  }

  /** A call of `add_event` or `modify_event` on the connection. */
  function AfterCtl(v: View, op: Op, interest: Option<Mask>): View {
    v.(interest := interest, ctls := v.ctls + [CtlCall(op, v.interest.Some?)])
  }

  /** `watch_conn` of a new descriptor. */
  function Watched(v: View): View {
    AfterCtl(v, AddOp(0), Added(v.interest, 0, EIO_READ))
  }

  /** `send_buf` when the kernel took the first k bytes directly. */
  function Sent(v: View, buf: seq<byte>, k: nat, end: End): View
    requires Outcome(buf, k, end)
  {
    var w := v.(wire := v.wire + buf[..k]);
    if end != Parked then w
    else AfterCtl(w.(queue := v.queue + [buf[k..]]), AddOp(v.events), Added(v.interest, v.events, EIO_WRITE))
  }

  /** `send_buf` when the kernel took the first k bytes and the rest finds the queue full: its thread waits. */
  function Stalled(v: View, buf: seq<byte>, k: nat): View
    requires k <= |buf|
  {
    v.(wire := v.wire + buf[..k])
  }

  /** How many bytes of each queued buffer the drain got onto the wire. */
  predicate Counts(queue: seq<seq<byte>>, ks: seq<nat>) {
    |ks| == |queue| && forall i :: 0 <= i < |ks| ==> ks[i] <= |queue[i]|
  }

  /** All of every buffer so far. */
  predicate Full(queue: seq<seq<byte>>, ks: seq<nat>)
    requires |ks| <= |queue|
  {
    forall i :: 0 <= i < |ks| ==> ks[i] == |queue[i]|
  }

  function Delivered(queue: seq<seq<byte>>, ks: seq<nat>): seq<byte>
    requires Counts(queue, ks)
  {
    if queue == [] then [] else queue[0][..ks[0]] + Delivered(queue[1..], ks[1..])
  }

  function Undelivered(queue: seq<seq<byte>>, ks: seq<nat>): seq<byte>
    requires Counts(queue, ks)
  {
    if queue == [] then [] else queue[0][ks[0]..] + Undelivered(queue[1..], ks[1..])
  }

  /** The EIO_WRITE branch of the worker loop. */
  function Drained(v: View, ks: seq<nat>): View
    requires Counts(v.queue, ks)
  {
    AfterCtl(v.(wire := v.wire + Delivered(v.queue, ks), queue := []), Mod, Modified(v.interest, EIO_READ))
  }

  datatype Label =
    | Watch
    | ReadReady
    | Send(buf: seq<byte>, k: nat, end: End)   // a send_buf made by onMessage
    | WriteReady(ks: seq<nat>)

  /** A connection with its history: the buffers accepted by send_buf and the bytes given up. */
  datatype Sys = Sys(v: View, accepted: seq<seq<byte>>, lost: seq<byte>)

  const INIT := Sys(View([], [], None, 0, []), [], [])

  predicate Enabled(s: Sys, l: Label) {
    match l
    case Watch => s.v.interest.None?
    case ReadReady => s.v.interest.Some?
    case Send(buf, k, end) =>
      && s.v.events == EIO_READ
      && Outcome(buf, k, end)
      && (end == Parked ==> |s.v.queue| < MAX_QUEUE)
    case WriteReady(ks) => s.v.interest.Some? && Counts(s.v.queue, ks)
  }

  function Next(s: Sys, l: Label): Sys
    requires Enabled(s, l)
  {
    match l
    case Watch => s.(v := Watched(s.v))
    case ReadReady => s.(v := s.v.(events := EIO_READ))
    case Send(buf, k, end) =>
      Sys(Sent(s.v, buf, k, end), s.accepted + [buf], if end == Abandoned then s.lost + buf[k..] else s.lost)
    case WriteReady(ks) =>
      Sys(Drained(s.v.(events := EIO_WRITE), ks), s.accepted, s.lost + Undelivered(s.v.queue, ks))
  }

  predicate Legal(s: Sys, ls: seq<Label>)
    decreases |ls|
  {
    ls == [] || (Enabled(s, ls[0]) && Legal(Next(s, ls[0]), ls[1..]))
  }

  function Exec(s: Sys, ls: seq<Label>): Sys
    requires Legal(s, ls)
    decreases |ls|
  {
    if ls == [] then s else Exec(Next(s, ls[0]), ls[1..])
  }

  /** Two runs end to end. */
  lemma {:induction false} JoinRuns(s: Sys, ls: seq<Label>, more: seq<Label>)
    requires Legal(s, ls) && Legal(Exec(s, ls), more)
    ensures Legal(s, ls + more) && Exec(s, ls + more) == Exec(Exec(s, ls), more)
    ensures AllCareful(s, ls + more) <==> AllCareful(s, ls) && AllCareful(Exec(s, ls), more)
    decreases |ls|
  {
    if ls == [] {
      assert ls + more == more;
    } else {
      assert (ls + more)[1..] == ls[1..] + more;
      JoinRuns(Next(s, ls[0]), ls[1..], more);
    }
  }

  lemma OneStep(s: Sys, l: Label)
    requires Enabled(s, l)
    ensures Legal(s, [l]) && Exec(s, [l]) == Next(s, l)
    ensures AllCareful(s, [l]) <==> Careful(s, l)
  {
    assert [l][1..] == [];
  }

  /** Extends a run by a step. */
  lemma {:induction false} Then(s: Sys, ls: seq<Label>, l: Label) returns (ls': seq<Label>)
    requires Legal(s, ls) && Enabled(Exec(s, ls), l)
    ensures ls' == ls + [l] && Legal(s, ls') && Exec(s, ls') == Next(Exec(s, ls), l)
    ensures AllCareful(s, ls') <==> AllCareful(s, ls) && Careful(Exec(s, ls), l)
  {
    ls' := ls + [l];
    OneStep(Exec(s, ls), l);
    JoinRuns(s, ls, [l]);
  }

  // ---------------------------------------------------------------- conservation

  predicate IsSuffix(q: seq<byte>, a: seq<byte>) {
    |q| <= |a| && q == a[|a| - |q|..]
  }

  ghost predicate FromAccepted(q: seq<byte>, accepted: seq<seq<byte>>) {
    q != [] && exists a :: a in accepted && IsSuffix(q, a)
  }

  /** No byte is duplicated or made up: every one is on the wire, in the queue or accounted as lost. */
  ghost predicate BytesKept(s: Sys) {
    Balanced(Concat(s.accepted), s.v.wire, Concat(s.v.queue), s.lost)
  }

  predicate Balanced(all: seq<byte>, wire: seq<byte>, queued: seq<byte>, lost: seq<byte>) {
    multiset(all) == multiset(wire) + multiset(queued) + multiset(lost)
  }

  ghost predicate Conserved(s: Sys) {
    BytesKept(s) && forall q :: q in s.v.queue ==> FromAccepted(q, s.accepted)
  }

  lemma {:induction false} DrainSplits(queue: seq<seq<byte>>, ks: seq<nat>)
    requires Counts(queue, ks)
    ensures multiset(Concat(queue)) == multiset(Delivered(queue, ks)) + multiset(Undelivered(queue, ks))
  {
    if queue != [] {
      DrainSplits(queue[1..], ks[1..]);
      assert queue[0] == queue[0][..ks[0]] + queue[0][ks[0]..];
    }
  }

  lemma BalancedAppend(all: seq<byte>, wire: seq<byte>, queued: seq<byte>, lost: seq<byte>, buf: seq<byte>, k: nat)
    requires Balanced(all, wire, queued, lost) && k <= |buf|
    ensures Balanced(all + buf, wire + buf[..k], queued + buf[k..], lost)
    ensures Balanced(all + buf, wire + buf[..k], queued, lost + buf[k..])
  {
    assert buf == buf[..k] + buf[k..];
  }

  lemma SendKeepsBytes(s: Sys, buf: seq<byte>, k: nat, end: End)
    requires BytesKept(s) && Enabled(s, Send(buf, k, end))
    ensures BytesKept(Next(s, Send(buf, k, end)))
  {
    var t := Next(s, Send(buf, k, end));
    var queued := Concat(s.v.queue);
    ConcatSnoc(s.accepted, buf);
    BalancedAppend(Concat(s.accepted), s.v.wire, queued, s.lost, buf, k);
    match end {
      case Parked =>
        ConcatSnoc(s.v.queue, buf[k..]);
        assert Concat(t.v.queue) == queued + buf[k..];
      case Done =>
        assert s.lost + buf[k..] == s.lost;
      case Abandoned =>
    }
  }

  lemma SendConserves(s: Sys, buf: seq<byte>, k: nat, end: End)
    requires Conserved(s) && Enabled(s, Send(buf, k, end))
    ensures Conserved(Next(s, Send(buf, k, end)))
  {
    SendKeepsBytes(s, buf, k, end);
    var t := Next(s, Send(buf, k, end));
    forall q | q in t.v.queue
      ensures FromAccepted(q, t.accepted)
    {
      if q in s.v.queue {
        var a :| a in s.accepted && IsSuffix(q, a);
        assert a in t.accepted;
      } else {
        assert buf in t.accepted && IsSuffix(q, buf);
      }
    }
  }

  lemma DrainConserves(s: Sys, ks: seq<nat>)
    requires Conserved(s) && Enabled(s, WriteReady(ks))
    ensures Conserved(Next(s, WriteReady(ks)))
  {
    DrainSplits(s.v.queue, ks);
  }

  /** Bytes are conserved in every run, with no assumption on the order of sends or on the kernel:
      zero-length writes and hard errors included. */
  lemma {:induction false} Conservation(s: Sys, ls: seq<Label>)
    requires Conserved(s) && Legal(s, ls)
    ensures Conserved(Exec(s, ls))
    decreases |ls|
  {
    if ls != [] {
      match ls[0] {
        case Send(buf, k, end) => SendConserves(s, buf, k, end);
        case WriteReady(ks) => DrainConserves(s, ks);
        case _ =>
      }
      Conservation(Next(s, ls[0]), ls[1..]);
    }
  }

  // ---------------------------------------------------------------- order

  /** What is on the wire, followed by what is queued, is everything accepted so far, in order. */
  predicate InOrder(s: Sys) {
    s.v.wire + Concat(s.v.queue) == Concat(s.accepted)
  }

  /** The step gives up no byte. */
  predicate Lossless(s: Sys, l: Label) {
    match l
    case Send(_, _, end) => end != Abandoned
    case WriteReady(ks) => Counts(s.v.queue, ks) && Full(s.v.queue, ks)
    case _ => true
  }

  /** The step loses nothing, and a direct write does not overtake queued bytes. */
  predicate Careful(s: Sys, l: Label) {
    Lossless(s, l) && (l.Send? ==> s.v.queue == [] || l.k == 0)
  }

  predicate AllCareful(s: Sys, ls: seq<Label>)
    requires Legal(s, ls)
    decreases |ls|
  {
    ls == [] || (Careful(s, ls[0]) && AllCareful(Next(s, ls[0]), ls[1..]))
  }

  lemma {:induction false} FullDrain(queue: seq<seq<byte>>, ks: seq<nat>)
    requires Counts(queue, ks) && Full(queue, ks)
    ensures Delivered(queue, ks) == Concat(queue) && Undelivered(queue, ks) == []
  {
    if queue != [] {
      FullDrain(queue[1..], ks[1..]);
    }
  }

  /** Sending in the middle of the queue what belongs behind it goes unnoticed. */
  predicate Swaps(queued: seq<byte>, buf: seq<byte>, k: nat)
    requires k <= |buf|
  {
    buf[..k] + (queued + buf[k..]) == queued + buf
  }

  lemma SamePrefix(w: seq<byte>, x: seq<byte>, y: seq<byte>)
    ensures w + x == w + y <==> x == y
  {
    if w + x == w + y {
      assert x == (w + x)[|w|..] && y == (w + y)[|w|..];
    }
  }

  lemma SwapSeen(wire: seq<byte>, queued: seq<byte>, buf: seq<byte>, k: nat)
    requires k <= |buf|
    ensures wire + buf[..k] + (queued + buf[k..]) == wire + queued + buf <==> Swaps(queued, buf, k)
  {
    var x, y := buf[..k] + (queued + buf[k..]), queued + buf;
    assert wire + buf[..k] + (queued + buf[k..]) == wire + x;
    assert wire + queued + buf == wire + y;
    SamePrefix(wire, x, y);
  }

  /** What a send without loss adds to both sides. */
  lemma AfterSend(s: Sys, buf: seq<byte>, k: nat, end: End)
    requires Enabled(s, Send(buf, k, end)) && end != Abandoned
    ensures var t := Next(s, Send(buf, k, end));
            && t.v.wire == s.v.wire + buf[..k]
            && Concat(t.v.queue) == Concat(s.v.queue) + buf[k..]
            && Concat(t.accepted) == Concat(s.accepted) + buf
  {
    ConcatSnoc(s.accepted, buf);
    if end == Done {
      assert Concat(s.v.queue) + buf[k..] == Concat(s.v.queue);
    } else {
      ConcatSnoc(s.v.queue, buf[k..]);
    }
  }

  lemma InOrderAfterSend(s: Sys, buf: seq<byte>, k: nat, end: End)
    requires InOrder(s) && Enabled(s, Send(buf, k, end)) && end != Abandoned
    ensures InOrder(Next(s, Send(buf, k, end))) <==> Swaps(Concat(s.v.queue), buf, k)
  {
    AfterSend(s, buf, k, end);
    SwapSeen(s.v.wire, Concat(s.v.queue), buf, k);
  }

  lemma CarefulSwaps(queued: seq<byte>, buf: seq<byte>, k: nat)
    requires k <= |buf| && (k == 0 || queued == [])
    ensures Swaps(queued, buf, k)
  {
  }

  lemma CarefulKeepsOrder(s: Sys, l: Label)
    requires InOrder(s) && Enabled(s, l) && Careful(s, l)
    ensures InOrder(Next(s, l))
  {
    match l {
      case Send(buf, k, end) =>
        InOrderAfterSend(s, buf, k, end);
        CarefulSwaps(Concat(s.v.queue), buf, k);
      case WriteReady(ks) => FullDrain(s.v.queue, ks);
      case _ =>
    }
  }

  /** In every careful run the receiver sees a prefix of what was sent, never anything else,
      and all of it after each EIO_WRITE step. */
  lemma {:induction false} SendSideRefinement(s: Sys, ls: seq<Label>)
    requires InOrder(s) && Legal(s, ls) && AllCareful(s, ls)
    ensures InOrder(Exec(s, ls))
    ensures Exec(s, ls).v.wire <= Concat(Exec(s, ls).accepted)
    ensures ls != [] && ls[|ls| - 1].WriteReady? ==> Exec(s, ls).v.wire == Concat(Exec(s, ls).accepted)
    decreases |ls|
  {
    if ls != [] {
      CarefulKeepsOrder(s, ls[0]);
      SendSideRefinement(Next(s, ls[0]), ls[1..]);
    }
  }

  /** Whatever the kernel answers short of an error, the send keeps the order. */
  ghost predicate AlwaysInOrder(s: Sys, buf: seq<byte>) {
    forall k: nat, end: End ::
      end != Abandoned && Enabled(s, Send(buf, k, end)) ==> InOrder(Next(s, Send(buf, k, end)))
  }

  /** The same byte over and over. */
  predicate Uniform(x: seq<byte>) {
    forall i :: 0 <= i < |x| ==> x[i] == x[0]
  }

  /** A byte that can be moved past a sequence is all there is in it. */
  lemma {:induction false} ByteCommutes(c: byte, x: seq<byte>, i: nat)
    requires [c] + x == x + [c] && i < |x|
    ensures x[i] == c
  {
    if i == 0 {
      assert x[0] == (x + [c])[0];
    } else {
      ByteCommutes(c, x, i - 1);
      assert x[i] == (x + [c])[i] == ([c] + x)[i];
    }
  }

  /** What can be moved past a run of one byte consists of that byte. */
  lemma {:induction false} RunCommutes(c: byte, x: seq<byte>, buf: seq<byte>, i: nat)
    requires x != [] && (forall j :: 0 <= j < |x| ==> x[j] == c)
    requires buf + x == x + buf && i < |buf|
    ensures buf[i] == c
  {
    assert buf[i] == (buf + x)[i] == (x + buf)[i];
    if i >= |x| {
      RunCommutes(c, x, buf, i - |x|);
    }
  }

  lemma UniformSwaps(queued: seq<byte>, buf: seq<byte>, k: nat)
    requires k <= |buf| && (queued == [] || Uniform(queued + buf))
    ensures Swaps(queued, buf, k)
  {
    if queued == [] {
      assert buf[..k] + (queued + buf[k..]) == buf == queued + buf;
    } else {
      var c := (queued + buf)[0];
      assert forall i :: 0 <= i < |queued| ==> queued[i] == (queued + buf)[i] == c;
      assert forall i :: 0 <= i < |buf| ==> buf[i] == (queued + buf)[|queued| + i] == c;
    }
  }

  /** One byte taken directly and all of it taken directly are enough to notice. */
  lemma {:induction false} SwapsAreUniform(queued: seq<byte>, buf: seq<byte>)
    requires queued != [] && buf != [] && Swaps(queued, buf, 1) && Swaps(queued, buf, |buf|)
    ensures Uniform(queued + buf)
  {
    var c := buf[0];
    assert ([c] + queued) + buf[1..] == buf[..1] + (queued + buf[1..]);
    assert (queued + [c]) + buf[1..] == queued + buf;
    assert [c] + queued == (([c] + queued) + buf[1..])[..|queued| + 1];
    assert queued + [c] == ((queued + [c]) + buf[1..])[..|queued| + 1];
    forall i | 0 <= i < |queued| ensures queued[i] == c {
      ByteCommutes(c, queued, i);
    }
    assert buf[..|buf|] == buf && queued + buf[|buf|..] == queued;
    forall i | 0 <= i < |buf| ensures buf[i] == c {
      RunCommutes(c, queued, buf, i);
    }
  }

  /** A send is safe under every kernel answer if and only if no byte is queued when it starts, but for bytes
      that cannot be told apart. */
  lemma SendOrderExactly(s: Sys, buf: seq<byte>)
    requires InOrder(s) && s.v.events == EIO_READ && |s.v.queue| < MAX_QUEUE
    ensures AlwaysInOrder(s, buf) <==> buf == [] || Concat(s.v.queue) == [] || Uniform(Concat(s.v.queue) + buf)
  {
    var queued := Concat(s.v.queue);
    if buf == [] || queued == [] || Uniform(queued + buf) {
      forall k: nat, end: End | end != Abandoned && Enabled(s, Send(buf, k, end))
        ensures InOrder(Next(s, Send(buf, k, end)))
      {
        InOrderAfterSend(s, buf, k, end);
        if buf != [] {
          UniformSwaps(queued, buf, k);
        }
      }
    } else if AlwaysInOrder(s, buf) {
      var end := if |buf| == 1 then Done else Parked;
      assert Enabled(s, Send(buf, 1, end)) && Enabled(s, Send(buf, |buf|, Done));
      InOrderAfterSend(s, buf, 1, end);
      InOrderAfterSend(s, buf, |buf|, Done);
      SwapsAreUniform(queued, buf);
      assert false;
    }
  }

  /** The overtaking happens from the start of a connection, with a kernel that fails nothing: a reply is parked
      whole, a later one of the same callback goes out directly, and the drain brings the first after it. */
  lemma Overtaking(f: seq<byte>, g: seq<byte>) returns (ls: seq<Label>)
    requires f != []
    ensures ls == [Watch, ReadReady, Send(f, 0, Parked), Send(g, |g|, Done), WriteReady([|f|])]
    ensures Legal(INIT, ls)
    ensures var s := Exec(INIT, ls); s.accepted == [f, g] && s.v.wire == g + f && s.v.queue == [] && s.lost == []
  {
    ls := ParkedFirst(f);
    ls := Then(INIT, ls, Send(g, |g|, Done));
    var s := Exec(INIT, ls);
    assert s.v.wire == [] + g == g;
    FullDrain([f], [|f|]);
    assert Concat([f]) == f + Concat([]) == f;
    ls := Then(INIT, ls, WriteReady([|f|]));
  }

  lemma ParkedFirst(f: seq<byte>) returns (ls: seq<Label>)
    requires f != []
    ensures ls == [Watch, ReadReady, Send(f, 0, Parked)] && Legal(INIT, ls)
    ensures var s := Exec(INIT, ls);
            && s.accepted == [f] && s.lost == []
            && s.v.wire == [] && s.v.queue == [f] && s.v.events == EIO_READ && s.v.interest.Some?
  {
    ls := Then(INIT, [], Watch);
    ls := Then(INIT, ls, ReadReady);
    ls := Then(INIT, ls, Send(f, 0, Parked));
    assert [] + f[..0] == [] && [] + [f[0..]] == [f];
  }

  // ---------------------------------------------------------------- what the kernel's answers decide

  /** The outcome of a direct write: the bytes taken, how it ended, and the position of the next answer. */
  datatype Direct = Direct(k: nat, end: End, at: nat)

  /** A direct write of the bytes from `total` to `len`, under a schedule of answers. */
  function DirectWrite(plan: Plan, at: nat, total: nat, len: nat): (d: Direct)
    requires total <= len
    ensures total <= d.k <= len && (d.end == Done <==> d.k == len)
    ensures at <= d.at && (total < len ==> at < d.at)
    decreases len - total
  {
    if total == len then Direct(len, Done, at)
    else match plan(at)
      case Moves(n) => DirectWrite(plan, at + 1, total + Min(n, len - total), len)
      case Again => Direct(total, Parked, at + 1)
      case _ => Direct(total, Abandoned, at + 1)
  }

  /** How a direct write ends whose last answer this is. */
  function EndFor(a: Answer): End {
    match a
    case Moves(_) => Done
    case Again => Parked
    case _ => Abandoned
  }

  /** The kernel's last answer decides how a direct write ends, its first whether any byte goes out directly. */
  lemma {:induction false} DirectEnds(plan: Plan, at: nat, total: nat, len: nat)
    requires total < len
    ensures var d := DirectWrite(plan, at, total, len);
            && d.end == EndFor(plan(d.at - 1))
            && (d.end == Done <==> plan(d.at - 1).Moves?) && (d.end == Parked <==> plan(d.at - 1).Again?)
            && (d.k == total <==> !plan(at).Moves?)
    decreases len - total
  {
    if plan(at).Moves? {
      var next := total + Min(plan(at).n, len - total);
      if next < len {
        DirectEnds(plan, at + 1, next, len);
      }
    }
  }

  function DirectSend(plan: Plan, at: nat, buf: seq<byte>): Direct {
    DirectWrite(plan, at, 0, |buf|)
  }

  /** What the first and the last answer to a `send_buf` decide. */
  predicate Decided(plan: Plan, at: nat, buf: seq<byte>, d: Direct) {
    buf != [] ==> at < d.at && d.end == EndFor(plan(d.at - 1)) && (d.k == 0 <==> !plan(at).Moves?)
  }

  /** A direct write gives up bytes exactly when a hard error is among its answers. */
  lemma {:induction false} DirectUnbroken(plan: Plan, at: nat, total: nat, len: nat)
    requires total <= len
    ensures var d := DirectWrite(plan, at, total, len); Unbroken(plan, at, d.at) <==> d.end != Abandoned
    decreases len - total
  {
    if total < len {
      var d := DirectWrite(plan, at, total, len);
      assert Unbroken(plan, at, d.at) <==> Unbroken(plan, at, at + 1) && Unbroken(plan, at + 1, d.at);
      assert Unbroken(plan, at, at + 1) <==> plan(at).Moves? || plan(at).Again?;
      if plan(at).Moves? {
        DirectUnbroken(plan, at + 1, total + Min(plan(at).n, len - total), len);
      }
    }
  }

  lemma SendDecided(plan: Plan, at: nat, buf: seq<byte>)
    ensures Decided(plan, at, buf, DirectSend(plan, at, buf))
    ensures Unbroken(plan, at, DirectSend(plan, at, buf).at) <==> DirectSend(plan, at, buf).end != Abandoned
  {
    if buf != [] {
      DirectEnds(plan, at, 0, |buf|);
    }
    DirectUnbroken(plan, at, 0, |buf|);
  }

  /** The step a `send_buf` takes that starts at this position of the schedule. */
  function SendAt(plan: Plan, at: nat, buf: seq<byte>): Label {
    var d := DirectSend(plan, at, buf);
    Send(buf, d.k, d.end)
  }

  /** The steps of the sends of these buffers, one after the other. */
  function SendsAt(plan: Plan, at: nat, bufs: seq<seq<byte>>): (ls: seq<Label>)
    ensures |ls| == |bufs|
    ensures forall i :: 0 <= i < |ls| ==> ls[i].Send? && ls[i].buf == bufs[i]
    decreases |bufs|
  {
    if bufs == [] then []
    else [SendAt(plan, at, bufs[0])] + SendsAt(plan, DirectSend(plan, at, bufs[0]).at, bufs[1..])
  }

  /** The position after them. */
  function SendsEnd(plan: Plan, at: nat, bufs: seq<seq<byte>>): (end: nat)
    ensures at <= end
    decreases |bufs|
  {
    if bufs == [] then at else SendsEnd(plan, DirectSend(plan, at, bufs[0]).at, bufs[1..])
  }

  /** How many of these sends the kernel's answers make park. */
  function Parkings(plan: Plan, at: nat, bufs: seq<seq<byte>>): nat
    decreases |bufs|
  {
    if bufs == [] then 0
    else
      var d := DirectSend(plan, at, bufs[0]);
      (if d.end == Parked then 1 else 0) + Parkings(plan, d.at, bufs[1..])
  }

  /** The queue has room for what the kernel's answers make park. */
  predicate Room(queued: nat, plan: Plan, at: nat, bufs: seq<seq<byte>>) {
    queued + Parkings(plan, at, bufs) <= MAX_QUEUE
  }

  lemma {:induction false} SendsSnoc(plan: Plan, at: nat, bufs: seq<seq<byte>>, buf: seq<byte>)
    ensures var end := SendsEnd(plan, at, bufs);
            && SendsAt(plan, at, bufs + [buf]) == SendsAt(plan, at, bufs) + [SendAt(plan, end, buf)]
            && SendsEnd(plan, at, bufs + [buf]) == DirectSend(plan, end, buf).at
    decreases |bufs|
  {
    if bufs == [] {
      assert [buf][1..] == [];
    } else {
      assert (bufs + [buf])[1..] == bufs[1..] + [buf];
      SendsSnoc(plan, DirectSend(plan, at, bufs[0]).at, bufs[1..], buf);
    }
  }

  lemma AppendFirst<T>(a: seq<T>, b: seq<T>)
    requires b != []
    ensures a + [b[0]] + b[1..] == a + b
  {
  }

  /** A run of sends accepts exactly the buffers sent. */
  lemma {:induction false} SendsAccept(s: Sys, ls: seq<Label>, bufs: seq<seq<byte>>)
    requires Legal(s, ls) && |ls| == |bufs| && forall i :: 0 <= i < |ls| ==> ls[i].Send? && ls[i].buf == bufs[i]
    ensures Exec(s, ls).accepted == s.accepted + bufs
    decreases |ls|
  {
    if ls != [] {
      assert Next(s, ls[0]).accepted == s.accepted + [bufs[0]];
      SendsAccept(Next(s, ls[0]), ls[1..], bufs[1..]);
      AppendFirst(s.accepted, bufs);
    }
  }

  predicate NoneAbandoned(ls: seq<Label>) {
    forall i :: 0 <= i < |ls| && ls[i].Send? ==> ls[i].end != Abandoned
  }

  /** Without a hard error among the answers no send gives up bytes. */
  lemma {:induction false} UnbrokenSends(plan: Plan, at: nat, bufs: seq<seq<byte>>)
    ensures Unbroken(plan, at, SendsEnd(plan, at, bufs)) ==> NoneAbandoned(SendsAt(plan, at, bufs))
    decreases |bufs|
  {
    if bufs != [] && Unbroken(plan, at, SendsEnd(plan, at, bufs)) {
      SendDecided(plan, at, bufs[0]);
      UnbrokenSends(plan, DirectSend(plan, at, bufs[0]).at, bufs[1..]);
    }
  }

  /** Each of these sends starts with an empty queue or is answered EAGAIN first, and none meets a hard error. */
  ghost predicate Patient(plan: Plan, at: nat, queued: bool, bufs: seq<seq<byte>>)
    decreases |bufs|
  {
    bufs == [] ||
    var d := DirectSend(plan, at, bufs[0]);
    && (queued && bufs[0] != [] ==> plan(at).Again?)
    && Unbroken(plan, at, d.at)
    && Patient(plan, d.at, queued || d.end == Parked, bufs[1..])
  }

  /** The sends are careful exactly when the kernel answers so. */
  lemma {:induction false} CarefulExactly(s: Sys, plan: Plan, at: nat, bufs: seq<seq<byte>>)
    requires Legal(s, SendsAt(plan, at, bufs))
    ensures AllCareful(s, SendsAt(plan, at, bufs)) <==> Patient(plan, at, s.v.queue != [], bufs)
    decreases |bufs|
  {
    if bufs != [] {
      var l, d := SendAt(plan, at, bufs[0]), DirectSend(plan, at, bufs[0]);
      SendDecided(plan, at, bufs[0]);
      assert SendsAt(plan, at, bufs)[0] == l && SendsAt(plan, at, bufs)[1..] == SendsAt(plan, d.at, bufs[1..]);
      assert Next(s, l).v.queue != [] <==> s.v.queue != [] || d.end == Parked;
      CarefulExactly(Next(s, l), plan, d.at, bufs[1..]);
    }
  }

  /** One reply, sent while nothing is queued, needs no more of the kernel than that it does not fail. */
  lemma OneReplyIsPatient(plan: Plan, at: nat, buf: seq<byte>)
    requires Reliable(plan)
    ensures Patient(plan, at, false, [buf]) && Parkings(plan, at, [buf]) <= 1
  {
    assert [buf][1..] == [];
  }

  /** Once the kernel refuses bytes it goes on refusing them, and there is no hard error. */
  ghost predicate Sticky(plan: Plan, from: nat, to: nat) {
    Unbroken(plan, from, to) && forall i: nat :: from <= i && i + 1 < to && plan(i).Again? ==> plan(i + 1).Again?
  }

  /** Against such a kernel the sends of one callback never overtake each other, nor what was queued before
      if the first is refused. */
  lemma {:induction false} StickyIsPatient(plan: Plan, at: nat, queued: bool, bufs: seq<seq<byte>>)
    requires Sticky(plan, at, SendsEnd(plan, at, bufs))
    requires queued && at < SendsEnd(plan, at, bufs) ==> plan(at).Again?
    ensures Patient(plan, at, queued, bufs)
    decreases |bufs|
  {
    if bufs != [] {
      var d, end := DirectSend(plan, at, bufs[0]), SendsEnd(plan, at, bufs);
      SendDecided(plan, at, bufs[0]);
      StickyIsPatient(plan, d.at, queued || d.end == Parked, bufs[1..]);
    }
  }

  // ---------------------------------------------------------------- interest

  /** A watched descriptor always reports input, and output exactly while bytes are queued; and the only epoll_ctl
      calls are one ADD of the new descriptor and MODs of the registered one, so none of them fails. */
  ghost predicate InterestKept(s: Sys) {
    && s.v.events in {0, EIO_READ, EIO_WRITE}
    && (s.v.interest.None? ==> s.v.events == 0 && s.v.queue == [] && s.v.ctls == [])
    && (s.v.interest.Some? ==>
          && s.v.interest.value.input && s.v.interest.value.edge
          && (s.v.interest.value.output <==> s.v.queue != [])
          && s.v.ctls != [] && s.v.ctls[0] == CtlCall(Add, false)
          && forall i :: 0 < i < |s.v.ctls| ==> s.v.ctls[i] == CtlCall(Mod, true))
  }

  lemma {:induction false} InterestInvariant(s: Sys, ls: seq<Label>)
    requires InterestKept(s) && Legal(s, ls)
    ensures InterestKept(Exec(s, ls))
    decreases |ls|
  {
    if ls != [] {
      InterestInvariant(Next(s, ls[0]), ls[1..]);
    }
  }

  /** A drain leaves a watched descriptor armed for input only, by one MOD. */
  lemma DrainDisarms(v: View, ks: seq<nat>)
    requires Counts(v.queue, ks) && v.interest.Some?
    ensures var w := Drained(v, ks);
            && w.interest == Some(Mask(true, false, true)) && w.queue == [] && w.events == v.events
            && w.ctls == v.ctls + [CtlCall(Mod, true)]
  {
  }

  /** Only a send that parks touches the interest set, and then by one call. */
  lemma SendArms(v: View, buf: seq<byte>, k: nat, end: End)
    requires Outcome(buf, k, end)
    ensures var w := Sent(v, buf, k, end);
            && w.events == v.events && w.wire == v.wire + buf[..k]
            && (end != Parked ==> w.queue == v.queue && w.interest == v.interest && w.ctls == v.ctls)
            && (end == Parked ==>
                  && w.queue == v.queue + [buf[k..]]
                  && w.ctls == v.ctls + [CtlCall(if v.events == 0 then Add else Mod, v.interest.Some?)]
                  && (v.events == 1 && v.interest.Some? ==> w.interest == Some(Mask(true, true, true))))
  {
  }

  lemma {:induction false} StaysWatched(s: Sys, ls: seq<Label>)
    requires s.v.interest.Some? && Legal(s, ls)
    ensures Exec(s, ls).v.interest.Some?
    decreases |ls|
  {
    if ls != [] {
      StaysWatched(Next(s, ls[0]), ls[1..]);
    }
  }

  /** Both hold of every connection at any time. */
  lemma {:induction false} EveryRun(ls: seq<Label>)
    requires Legal(INIT, ls)
    ensures Conserved(Exec(INIT, ls)) && InterestKept(Exec(INIT, ls))
  {
    Conservation(INIT, ls);
    InterestInvariant(INIT, ls);
  }

  /** A new connection, registered for input. */
  lemma WatchedOnly()
    ensures Legal(INIT, [Watch])
    ensures Exec(INIT, [Watch]) == Sys(View([], [], Some(Mask(true, false, true)), 0, [CtlCall(Add, false)]), [], [])
  {
    OneStep(INIT, Watch);
  }

  /** Why sends must come from `onMessage`: parking arms output while keeping input exactly when the channel's
      last event is a read (or it has seen none yet and both were armed already: the ADD is then refused). */
  lemma ParkingArmsExactly(v: View, buf: seq<byte>, k: nat)
    requires v.interest.Some? && k < |buf|
    ensures Sent(v, buf, k, Parked).interest.Some?
    ensures var after := Sent(v, buf, k, Parked).interest.value;
            (after.input && after.output
             <==> Has(v.events, EIO_READ) || (v.events == 0 && v.interest.value.input && v.interest.value.output))
  {
  }

  /** A send from elsewhere before the first event of a connection: its bytes are queued, the ADD meant to arm output
      is refused, and output stays disarmed. */
  lemma ParkedTooEarly(buf: seq<byte>)
    requires buf != []
    ensures Legal(INIT, [Watch])
    ensures var v := Sent(Exec(INIT, [Watch]).v, buf, 0, Parked);
            && v.queue == [buf] && v.interest == Some(Mask(true, false, true))
            && v.ctls == [CtlCall(Add, false), CtlCall(Add, true)]
  {
    WatchedOnly();
    assert buf[0..] == buf;
  }

  /** A send from elsewhere after a drain: its bytes are queued and output is armed, but input is disarmed, and no
      further frame is ever reported. */
  lemma ParkedAfterDrain(f: seq<byte>, buf: seq<byte>) returns (ls: seq<Label>)
    requires f != [] && buf != []
    ensures ls == [Watch, ReadReady, Send(f, 0, Parked), WriteReady([|f|])] && Legal(INIT, ls)
    ensures var v := Sent(Exec(INIT, ls).v, buf, 0, Parked);
            v.queue == [buf] && v.interest == Some(Mask(false, true, true))
  {
    ls := ParkedFirst(f);
    assert Counts([f], [|f|]);
    ls := Then(INIT, ls, WriteReady([|f|]));
    assert buf[0..] == buf;
  }
}
