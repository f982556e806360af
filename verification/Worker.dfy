/** The worker's handling of the events of one wait, proved to be runs of the transition system of WritePath.dfy. */
module Worker {
  import opened Bits
  import opened Buffer
  import opened Nio
  import opened Epoll
  import opened Framing
  import opened WritePath
  import opened Channel
  import opened Wrappers

  class IoWorker {
    const ioCtx: IoCtx

    constructor ()
      ensures Valid() && fresh(ioCtx) && fresh(ioCtx.epollCtx)
      ensures ioCtx.Table() == map[] && ioCtx.epollCtx.interest == map[] && ioCtx.epollCtx.ctls == map[]
    {
      ioCtx := new IoCtx();
    }

    ghost predicate Valid()
      reads ioCtx
    {
      ioCtx.Valid()
    }

    /** The channel of a descriptor and its queue. */
    ghost function Touched(fd: int): set<object>
      reads ioCtx
    {
      if fd in ioCtx.Table() then {ioCtx.Table()[fd], ioCtx.Table()[fd].writeQ} else {}
    }

    method GetChan(fd: int) returns (chan: EioChannel)
      requires Valid() && 0 <= fd && (fd + 1) * 2 < TWO31
      modifies ioCtx, Touched(fd)
      ensures Valid() && chan.fd == fd && chan.epollCtx == ioCtx.epollCtx
      ensures ioCtx.Table() == old(ioCtx.Table())[fd := chan]
      ensures fd in old(ioCtx.Table()) ==> chan == old(ioCtx.Table())[fd]
      ensures fd in old(ioCtx.Table()) ==>
                && chan.events == old(ioCtx.Table()[fd].events) && chan.setting == old(ioCtx.Table()[fd].setting)
                && chan.onMessage == old(ioCtx.Table()[fd].onMessage)
                && chan.writeQ.q == old(ioCtx.Table()[fd].writeQ.q)
      ensures fd !in old(ioCtx.Table()) ==> fresh(chan) && fresh(chan.writeQ) && chan.events == 0
      ensures fd !in old(ioCtx.Table()) ==> chan.writeQ.q == [] && chan.writeQ.maxLen == MAX_QUEUE == 10240
    {
      chan := ioCtx.GetChan(fd);
      chan.epollCtx := ioCtx.epollCtx;
    }

    /** Registers a descriptor for input. */
    method WatchConn(ev: EioEvent)
      modifies ioCtx.epollCtx
      ensures ioCtx.epollCtx.Of(ev.fd) == Added(old(ioCtx.epollCtx.Of(ev.fd)), ev.events, EIO_READ)
      ensures ioCtx.epollCtx.CtlsOf(ev.fd)
           == old(ioCtx.epollCtx.CtlsOf(ev.fd)) + [CtlCall(AddOp(ev.events), old(ioCtx.epollCtx.Of(ev.fd)).Some?)]
      ensures ioCtx.epollCtx.Others(ev.fd) == old(ioCtx.epollCtx.Others(ev.fd))
    {
      ioCtx.epollCtx.AddEvent(ev, EIO_READ);
    }

    /** A buffer holding the reply is sent: the Send step on the connection that the kernel's answers decide, unless
        they make it park on a full queue, where the thread waits. */
    method SendOne(chan: EioChannel, reply: seq<byte>, sock: Socket, ghost s: Sys) returns (waits: bool, ghost l: Label)
      requires chan.epollCtx == ioCtx.epollCtx && s.v == chan.View(sock) && s.v.events == EIO_READ
      requires chan.writeQ.maxLen == MAX_QUEUE && |s.v.queue| <= MAX_QUEUE && |reply| < TWO31
      modifies sock`writeAt, sock`wire, sock`errno, chan.writeQ, ioCtx.epollCtx
      ensures l == SendAt(sock.writePlan, old(sock.writeAt), reply)
      ensures sock.writeAt == DirectSend(sock.writePlan, old(sock.writeAt), reply).at
      ensures Decided(sock.writePlan, old(sock.writeAt), reply, Direct(l.k, l.end, sock.writeAt))
      ensures Unbroken(sock.writePlan, old(sock.writeAt), sock.writeAt) <==> l.end != Abandoned
      ensures waits <==> l.end == Parked && |s.v.queue| == MAX_QUEUE
      ensures if waits then chan.View(sock) == Stalled(s.v, reply, l.k)
              else Enabled(s, l) && Next(s, l).v == chan.View(sock)
      ensures ioCtx.epollCtx.Others(chan.fd) == old(ioCtx.epollCtx.Others(chan.fd))
    {
      var buf := new Buf(0);
      buf.Copy(reply);
      ghost var k, end;
      waits, k, end := chan.SendBuf(buf, sock);
      l := Send(reply, k, end);
    }

    /** The sends of one callback are a run of Send steps, one for each reply, in order, with the outcomes that
        the kernel's answers decide, as far as the queue has room for what they make park. */
    method Reply(chan: EioChannel, replies: seq<seq<byte>>, sock: Socket, ghost s: Sys)
      returns (waits: bool, ghost ls: seq<Label>)
      requires chan.epollCtx == ioCtx.epollCtx && s.v == chan.View(sock) && s.v.events == EIO_READ
      requires chan.writeQ.maxLen == MAX_QUEUE && |s.v.queue| <= MAX_QUEUE
      requires SizesFit(replies)
      modifies sock`writeAt, sock`wire, sock`errno, chan.writeQ, ioCtx.epollCtx
      ensures waits <==> !Room(|s.v.queue|, sock.writePlan, old(sock.writeAt), replies)
      ensures waits ==> StuckAt(s, sock.writePlan, old(sock.writeAt), replies, ls, chan.View(sock), sock.writeAt)
      ensures !waits ==> SentBy(s, sock.writePlan, old(sock.writeAt), replies, ls, chan.View(sock), sock.writeAt)
      ensures ioCtx.epollCtx.Others(chan.fd) == old(ioCtx.epollCtx.Others(chan.fd))
    {
      waits, ls := false, [];
      for i := 0 to |replies|
        invariant SentBy(s, sock.writePlan, old(sock.writeAt), replies[..i], ls, chan.View(sock), sock.writeAt)
        invariant |chan.writeQ.q| + Parkings(sock.writePlan, sock.writeAt, replies[i..])
               == |s.v.queue| + Parkings(sock.writePlan, old(sock.writeAt), replies)
        invariant |chan.writeQ.q| <= MAX_QUEUE
        invariant ioCtx.epollCtx.Others(chan.fd) == old(ioCtx.epollCtx.Others(chan.fd))
      {
        assert replies[i..][1..] == replies[i + 1..];
        ghost var l;
        waits, l := SendOne(chan, replies[i], sock, Exec(s, ls));
        if waits {
          return;
        }
        ls := SentByFurther(s, sock.writePlan, old(sock.writeAt), replies, i, ls, l);
      }
      assert replies[..|replies|] == replies;
    }

    /** Takes the first message off the write queue and tries it; if the transfer fails it is given up. */
    method TryFirst(chan: EioChannel, sock: Socket) returns (ghost k: nat)
      requires Fair(sock.writePlan) && SizesFit(chan.writeQ.q) && chan.writeQ.q != []
      modifies sock`writeAt, sock`wire, sock`errno, chan.writeQ
      ensures chan.writeQ.q == old(chan.writeQ.q)[1..]
      ensures Tried(sock.writePlan, old(chan.writeQ.q)[0], k, old(sock.writeAt), sock.writeAt)
      ensures sock.wire == old(sock.wire) + old(chan.writeQ.q)[0][..k]
    {
      var popped := chan.PopWriteMsg();
      assert popped.value in old(chan.writeQ.q);
      var ret := IoWrite(sock, popped.value);
      k := Moved(sock.wire, old(sock.wire));
    }

    /** Takes the messages off the write queue and tries each in turn. */
    method TryAll(chan: EioChannel, sock: Socket) returns (ghost ks: seq<nat>, ghost ats: seq<nat>)
      requires Fair(sock.writePlan) && SizesFit(chan.writeQ.q)
      modifies sock`writeAt, sock`wire, sock`errno, chan.writeQ
      ensures chan.writeQ.q == [] && DrainedSoFar(old(chan.writeQ.q), ks, [], old(sock.wire), sock.wire)
      ensures EachTried(sock.writePlan, old(chan.writeQ.q), ks, ats)
      ensures ats[0] == old(sock.writeAt) && ats[|ks|] == sock.writeAt
    {
      ghost var queue, wire := chan.writeQ.q, sock.wire;
      ks, ats := [], [sock.writeAt];
      var size := chan.WriteQueueSize();
      while size > 0
        invariant size == |chan.writeQ.q| && SizesFit(chan.writeQ.q)
        invariant DrainedSoFar(queue, ks, chan.writeQ.q, wire, sock.wire)
        invariant EachTried(sock.writePlan, queue, ks, ats)
        invariant ats[0] == old(sock.writeAt) && ats[|ks|] == sock.writeAt
        decreases size
      {
        ghost var left, sent := chan.writeQ.q, sock.wire;
        ghost var k := TryFirst(chan, sock);
        DrainedFurther(queue, ks, left, wire, sent, k);
        EachTriedFurther(sock.writePlan, queue, ks, ats, k, sock.writeAt);
        ks, ats := ks + [k], ats + [sock.writeAt];
        size := chan.WriteQueueSize();
      }
    }

    /** Empties the write queue, message by message, and drops output from the interest set. */
    method Drain(chan: EioChannel, sock: Socket) returns (ghost ks: seq<nat>, ghost ats: seq<nat>)
      requires chan.epollCtx == ioCtx.epollCtx && Fair(sock.writePlan)
      requires SizesFit(chan.writeQ.q)
      modifies sock`writeAt, sock`wire, sock`errno, chan.writeQ, ioCtx.epollCtx
      ensures Counts(old(chan.writeQ.q), ks)
      ensures chan.View(sock) == Drained(old(chan.View(sock)), ks)
      ensures ioCtx.epollCtx.Others(chan.fd) == old(ioCtx.epollCtx.Others(chan.fd))
      ensures Unbroken(sock.writePlan, old(sock.writeAt), sock.writeAt) <==> Full(old(chan.writeQ.q), ks)
      ensures EachTried(sock.writePlan, old(chan.writeQ.q), ks, ats)
      ensures ats[0] == old(sock.writeAt) && ats[|ks|] == sock.writeAt
      ensures chan.writeQ.q == []
      ensures old(ioCtx.epollCtx.Of(chan.fd)).Some? ==> ioCtx.epollCtx.Of(chan.fd) == Some(Mask(true, false, true))
      ensures ioCtx.epollCtx.CtlsOf(chan.fd)
           == old(ioCtx.epollCtx.CtlsOf(chan.fd)) + [CtlCall(Mod, old(ioCtx.epollCtx.Of(chan.fd)).Some?)]
    {
      ghost var queue := chan.writeQ.q;
      ks, ats := TryAll(chan, sock);
      assert queue[..|ks|] == queue;
      UnbrokenIsFull(sock.writePlan, queue, ks, ats);
      ioCtx.epollCtx.ModifyEvent(chan.fd, EIO_READ);
    }

    ghost function MomentOf(chan: EioChannel, sock: Socket): Moment
      reads ioCtx.epollCtx, chan, chan.writeQ, sock
    {
      Moment(View(sock.wire, chan.writeQ.q, ioCtx.epollCtx.Of(chan.fd), chan.events, ioCtx.epollCtx.CtlsOf(chan.fd)),
             chan.writeQ.maxLen, chan.setting, chan.onMessage,
             sock.readPlan, sock.readAt, sock.writePlan, sock.writeAt, sock.incoming)
    }

    /** The first half of the EIO_READ branch: a frame is received into a buffer of its own. */
    method ReceiveFrame(chan: EioChannel, sock: Socket) returns (ret: int, frame: seq<byte>)
      requires Readable(MomentOf(chan, sock))
      modifies sock`readAt, sock`incoming, sock`errno
      ensures old(sock.readAt) <= sock.readAt
      ensures ret == 0 ==> Deframe(chan.setting, old(sock.incoming)) == Got(frame, sock.incoming)
      ensures Unbroken(sock.readPlan, old(sock.readAt), sock.readAt) ==>
                match Deframe(chan.setting, old(sock.incoming))
                case Got(_, _) => ret == 0
                case Rejected(rest) => ret == -1 && sock.incoming == rest
                case Cut => ret == IO_DISCONNECT && sock.incoming == []
      ensures |old(sock.incoming)| < chan.setting.fieldOffset + chan.setting.fieldBytes ==>
                Unbroken(sock.readPlan, old(sock.readAt), sock.readAt) ==> ret == 0x8001
    {
      var readBuf := new Buf(0);
      ret := chan.RecvBuf(readBuf, sock);
      frame := readBuf.base[..];
    }

    /** The EIO_READ branch: one frame is received and handed to the callback. */
    method OnReadable(chan: EioChannel, sock: Socket, ghost s: Sys, ghost before: Moment)
      returns (waits: bool, ghost ls: seq<Label>)
      requires chan.epollCtx == ioCtx.epollCtx && Serviceable(before, EIO_READ)
      requires Enabled(s, ReadReady) && s.v == before.view
      requires MomentOf(chan, sock) == before.(view := Next(s, ReadReady).v)
      modifies sock`readAt, sock`incoming, sock`writeAt, sock`wire, sock`errno, chan.writeQ, ioCtx.epollCtx
      ensures Ran(waits, EIO_READ, s, before, MomentOf(chan, sock), ls)
      ensures !waits && ls != [ReadReady] ==>
                && Deframe(chan.setting, old(sock.incoming)).Got?
                && ls == [ReadReady] + SendsAt(sock.writePlan, old(sock.writeAt),
                                               chan.onMessage(Deframe(chan.setting, old(sock.incoming)).value))
      ensures ioCtx.epollCtx.Others(chan.fd) == old(ioCtx.epollCtx.Others(chan.fd))
    {
      waits, ls := false, [ReadReady];
      OneStep(s, ReadReady);
      var ret, frame := ReceiveFrame(chan, sock);
      if ret != 0 {
        return;
      }
      var replies := chan.onMessage(frame);
      assert replies == RepliesAt(before);
      ghost var sends;
      waits, sends := Reply(chan, replies, sock, Next(s, ReadReady));
      RanFurther(waits, s, before, MomentOf(chan, sock), sends);
      ls := ls + sends;
    }

    /** The two branches of the worker loop on the channel it looked up. */
    method HandleOn(chan: EioChannel, events: nat, sock: Socket, ghost s: Sys)
      returns (waits: bool, ghost ls: seq<Label>)
      requires events == EIO_READ || events == EIO_WRITE
      requires chan.epollCtx == ioCtx.epollCtx && Waits(MomentOf(chan, sock), events, s)
      modifies chan`events, sock`readAt, sock`incoming, sock`writeAt, sock`wire, sock`errno
      modifies chan.writeQ, ioCtx.epollCtx
      ensures Ran(waits, events, s, old(MomentOf(chan, sock)), MomentOf(chan, sock), ls)
      ensures ioCtx.epollCtx.Others(chan.fd) == old(ioCtx.epollCtx.Others(chan.fd))
      ensures chan.events == events
      ensures events == EIO_WRITE ==>
                && chan.writeQ.q == [] && ioCtx.epollCtx.Of(chan.fd) == Some(Mask(true, false, true))
                && ioCtx.epollCtx.CtlsOf(chan.fd) == old(ioCtx.epollCtx.CtlsOf(chan.fd)) + [CtlCall(Mod, true)]
    {
      ghost var before := MomentOf(chan, sock);
      waits, ls := false, [];
      chan.events := events;
      assert Has(EIO_READ, EIO_READ) && !Has(EIO_READ, EIO_WRITE);
      assert Has(EIO_WRITE, EIO_WRITE) && !Has(EIO_WRITE, EIO_READ);
      if Has(chan.events, EIO_READ) {
        waits, ls := OnReadable(chan, sock, s, before);
        if waits {
          return;
        }
      }
      if Has(chan.events, EIO_WRITE) {
        ghost var ks, ats := Drain(chan, sock);
        ls := [WriteReady(ks)];
        OneStep(s, WriteReady(ks));
      }
    }

    /** An event of a descriptor with a channel, which is looked up and handled. */
    method HandleKnown(ev: EioEvent, sock: Socket, ghost known: EioChannel, ghost s: Sys)
      returns (waits: bool, ghost ls: seq<Label>)
      requires Valid() && Manageable(ev) && ioCtx.Holds(ev.fd, known) && Waits(MomentOf(known, sock), ev.events, s)
      modifies ioCtx, ioCtx.epollCtx, known, known.writeQ
      modifies sock`readAt, sock`incoming, sock`writeAt, sock`wire, sock`errno
      ensures Valid() && ioCtx.Table() == old(ioCtx.Table())
      ensures ioCtx.epollCtx.Others(ev.fd) == old(ioCtx.epollCtx.Others(ev.fd))
      ensures Ran(waits, ev.events, s, old(MomentOf(known, sock)), MomentOf(known, sock), ls)
    {
      assert known.fd == ev.fd;
      var chan := GetChan(ev.fd);
      assert chan == known && MomentOf(known, sock) == old(MomentOf(known, sock));
      assert ioCtx.epollCtx.Others(ev.fd) == old(ioCtx.epollCtx.Others(ev.fd));
      waits, ls := HandleOn(chan, ev.events, sock, s);
    }

    /** One event of the worker loop: a readable descriptor yields one frame and the callback's sends, a writable
        one is drained. Each makes a legal run on the connection `known`, and touches no other connection. */
    method HandleEvent(ev: EioEvent, sock: Socket, ghost known: EioChannel, ghost s: Sys)
      returns (waits: bool, ghost ls: seq<Label>)
      requires Valid()
      requires ev.fd > 0 ==> Manageable(ev) && ioCtx.Holds(ev.fd, known) && Waits(MomentOf(known, sock), ev.events, s)
      modifies ioCtx, ioCtx.epollCtx, known, known.writeQ
      modifies sock`readAt, sock`incoming, sock`writeAt, sock`wire, sock`errno
      ensures Valid() && ioCtx.Table() == old(ioCtx.Table())
      ensures ioCtx.epollCtx.Others(ev.fd) == old(ioCtx.epollCtx.Others(ev.fd))
      ensures ioCtx.epollCtx.interest.Keys == old(ioCtx.epollCtx.interest.Keys)
      ensures if ev.fd > 0 then Ran(waits, ev.events, s, old(MomentOf(known, sock)), MomentOf(known, sock), ls)
              else !waits && ls == [] && MomentOf(known, sock) == old(MomentOf(known, sock))
    {
      waits, ls := false, [];
      if ev.fd <= 0 {
        return;
      }
      ghost var registered, before := ioCtx.epollCtx.interest, MomentOf(known, sock);
      assert ev.fd in registered;
      waits, ls := HandleKnown(ev, sock, known, s);
      RanStaysWatched(waits, ev.events, s, before, MomentOf(known, sock), ls);
      SameKeys(registered, ioCtx.epollCtx.interest, ev.fd);
    }

    /** The n-th event of a batch: its connection runs, the others stay as they are. */
    method HandleNth(n: nat, events: seq<EioEvent>, socks: seq<Socket>, ghost chans: seq<EioChannel>, ghost s: Sys)
      returns (waits: bool, ghost ls: seq<Label>)
      requires Valid() && n < |events| == |socks| == |chans| && Apart(chans, socks)
      requires Manageable(events[n]) && ioCtx.Holds(events[n].fd, chans[n])
      requires Waits(MomentOf(chans[n], socks[n]), events[n].events, s)
      modifies ioCtx, ioCtx.epollCtx, chans[n], chans[n].writeQ, socks[n]
      ensures Valid() && ioCtx.Table() == old(ioCtx.Table())
      ensures Ran(waits, events[n].events, s, old(MomentOf(chans[n], socks[n])), MomentOf(chans[n], socks[n]), ls)
      ensures forall i :: 0 <= i < |events| && i != n ==>
                MomentOf(chans[i], socks[i]) == old(MomentOf(chans[i], socks[i]))
    {
      waits, ls := HandleEvent(events[n], socks[n], chans[n], s);
      assert chans[n].fd == events[n].fd;
      forall i | 0 <= i < |events| && i != n
        ensures MomentOf(chans[i], socks[i]) == old(MomentOf(chans[i], socks[i]))
      {
        assert AreApart(chans[i], socks[i], chans[n], socks[n]);
        Elsewhere(old(ioCtx.epollCtx.interest), ioCtx.epollCtx.interest, events[n].fd, chans[i].fd);
        Elsewhere(old(ioCtx.epollCtx.ctls), ioCtx.epollCtx.ctls, events[n].fd, chans[i].fd);
      }
    }

    /** The events of one wait, each on a connection of its own: every connection makes the run of its event from
        the state it was in, undisturbed by the others, until some callback waits on a full queue. */
    method HandleEvents(events: seq<EioEvent>, socks: seq<Socket>, ghost chans: seq<EioChannel>, ghost ss: seq<Sys>)
      returns (waits: bool, ghost runs: seq<seq<Label>>)
      requires Valid() && |socks| == |chans| == |ss| == |events| && Apart(chans, socks)
      requires forall i :: 0 <= i < |events| ==> Manageable(events[i]) && ioCtx.Holds(events[i].fd, chans[i])
      requires forall i :: 0 <= i < |events| ==> Waits(MomentOf(chans[i], socks[i]), events[i].events, ss[i])
      modifies ioCtx, ioCtx.epollCtx, chans, (set c | c in chans :: c.writeQ), socks
      ensures Valid() && ioCtx.Table() == old(ioCtx.Table())
      ensures |runs| <= |events| && (!waits ==> |runs| == |events|) && (waits ==> runs != [])
      ensures forall i :: 0 <= i < |runs| ==>
                Ran(waits && i == |runs| - 1, events[i].events, ss[i],
                    old(MomentOf(chans[i], socks[i])), MomentOf(chans[i], socks[i]), runs[i])
      ensures forall i :: |runs| <= i < |events| ==> MomentOf(chans[i], socks[i]) == old(MomentOf(chans[i], socks[i]))
    {
      waits, runs := false, [];
      var n := 0;
      while n < |events| && !waits
        invariant Valid() && ioCtx.Table() == old(ioCtx.Table())
        invariant n == |runs| <= |events| && (waits ==> runs != [])
        invariant forall i :: 0 <= i < n ==>
                    Ran(waits && i == n - 1, events[i].events, ss[i],
                        old(MomentOf(chans[i], socks[i])), MomentOf(chans[i], socks[i]), runs[i])
        invariant forall i :: n <= i < |events| ==> MomentOf(chans[i], socks[i]) == old(MomentOf(chans[i], socks[i]))
      {
        ghost var ls;
        waits, ls := HandleNth(n, events, socks, chans, ss[n]);
        runs := runs + [ls];
        n := n + 1;
      }
    }
  }

  lemma SameKeys(m: map<int, Mask>, m': map<int, Mask>, fd: int)
    requires m - {fd} == m' - {fd} && fd in m && fd in m'
    ensures m.Keys == m'.Keys
  {
    assert m.Keys == (m - {fd}).Keys + {fd} && m'.Keys == (m' - {fd}).Keys + {fd};
  }

  lemma Elsewhere<T>(m: map<int, T>, m': map<int, T>, touched: int, fd: int)
    requires m - {touched} == m' - {touched} && fd != touched
    ensures fd in m <==> fd in m'
    ensures fd in m ==> m[fd] == m'[fd]
  {
    assert fd in m <==> fd in m - {touched};
    assert fd in m' <==> fd in m' - {touched};
    if fd in m {
      assert m[fd] == (m - {touched})[fd] && m'[fd] == (m' - {touched})[fd];
    }
  }

  predicate Manageable(ev: EioEvent) {
    ev.fd > 0 && (ev.fd + 1) * 2 < TWO31 && (ev.events == EIO_READ || ev.events == EIO_WRITE)
  }

  predicate AreApart(c: EioChannel, s: Socket, d: EioChannel, t: Socket) {
    c.fd != d.fd && c != d && c.writeQ != d.writeQ && s != t
  }

  ghost predicate Apart(chans: seq<EioChannel>, socks: seq<Socket>)
    requires |chans| == |socks|
  {
    forall i, j :: 0 <= i < |chans| && 0 <= j < |chans| && i != j ==> AreApart(chans[i], socks[i], chans[j], socks[j])
  }

  /** A connection at one moment: its state, the room of its queue, what the application set, and where the
      kernel's answers and the arriving bytes have got to. */
  datatype Moment = Moment(view: View, room: nat, setting: UnpackSetting, onMessage: Callback,
                           readPlan: Plan, readAt: nat, writePlan: Plan, writeAt: nat, incoming: seq<byte>)

  /** Buffers of a size an `int` can hold. */
  predicate SizesFit(bufs: seq<seq<byte>>) {
    forall buf :: buf in bufs ==> |buf| < TWO31
  }

  /** Lengths an `int` can hold, and a kernel that does not answer EAGAIN for ever. */
  ghost predicate Readable(m: Moment) {
    Fair(m.readPlan) && Usable(m.setting) && Sane(m.setting, m.incoming)
  }

  /** What a connection must offer for an event to be handled. */
  ghost predicate Serviceable(m: Moment, events: nat) {
    && Fair(m.writePlan) && |m.view.queue| <= m.room == MAX_QUEUE
    && SizesFit(m.view.queue)
    && (events == EIO_READ ==>
          && Readable(m)
          && (Deframe(m.setting, m.incoming).Got? ==> SizesFit(RepliesAt(m))))
  }

  /** A watched connection in state s, with this event to be handled. */
  ghost predicate Waits(m: Moment, events: nat, s: Sys) {
    s.v == m.view && s.v.interest.Some? && Serviceable(m, events)
  }

  /** The buffers the callback sends in reply to the frame at the head of the stream. */
  function RepliesAt(m: Moment): seq<seq<byte>>
    requires Usable(m.setting) && Sane(m.setting, m.incoming) && Deframe(m.setting, m.incoming).Got?
  {
    m.onMessage(Deframe(m.setting, m.incoming).value)
  }

  /** All these replies have been sent: the run, the state it leads to and the position of the next answer. */
  ghost predicate SentBy(s: Sys, plan: Plan, at: nat, replies: seq<seq<byte>>, ls: seq<Label>, now: View, next: nat) {
    && ls == SendsAt(plan, at, replies) && next == SendsEnd(plan, at, replies)
    && Legal(s, ls) && Exec(s, ls).v == now && now.events == s.v.events
  }

  lemma SentByFurther(s: Sys, plan: Plan, at: nat, replies: seq<seq<byte>>, i: nat, ls: seq<Label>, l: Label)
    returns (ls': seq<Label>)
    requires i < |replies| && Legal(s, ls)
    requires SentBy(s, plan, at, replies[..i], ls, Exec(s, ls).v, SendsEnd(plan, at, replies[..i]))
    requires l == SendAt(plan, SendsEnd(plan, at, replies[..i]), replies[i]) && Enabled(Exec(s, ls), l)
    ensures SentBy(s, plan, at, replies[..i + 1], ls', Next(Exec(s, ls), l).v,
                   DirectSend(plan, SendsEnd(plan, at, replies[..i]), replies[i]).at)
  {
    SendsSnoc(plan, at, replies[..i], replies[i]);
    assert replies[..i + 1] == replies[..i] + [replies[i]];
    ls' := Then(s, ls, l);
  }

  /** The replies before the n-th have been sent; the n-th finds the queue full, and what the kernel took of it
      directly is all that is done about it. */
  ghost predicate StuckAt(s: Sys, plan: Plan, at: nat, replies: seq<seq<byte>>, ls: seq<Label>, now: View, next: nat) {
    var n := |ls|;
    && n < |replies| && ls == SendsAt(plan, at, replies[..n])
    && var d := DirectSend(plan, SendsEnd(plan, at, replies[..n]), replies[n]);
       && d.end == Parked && next == d.at
       && Legal(s, ls) && |Exec(s, ls).v.queue| == MAX_QUEUE && now == Stalled(Exec(s, ls).v, replies[n], d.k)
  }

  /** The frame at the head of the stream was taken. */
  ghost predicate FrameTaken(before: Moment, after: Moment) {
    && Usable(before.setting) && Sane(before.setting, before.incoming) && Deframe(before.setting, before.incoming).Got?
    && after.incoming == Deframe(before.setting, before.incoming).rest
  }

  /** The queue has room for the replies that the kernel's answers make park. */
  predicate RepliesFit(m: Moment)
    requires Usable(m.setting) && Sane(m.setting, m.incoming) && Deframe(m.setting, m.incoming).Got?
  {
    Room(|m.view.queue|, m.writePlan, m.writeAt, RepliesAt(m))
  }

  /** The frame was taken and the run sends the callback's replies to it, in order and as the kernel's answers
      decide. */
  ghost predicate Answered(before: Moment, after: Moment, ls: seq<Label>) {
    && FrameTaken(before, after) && RepliesFit(before)
    && ls == [ReadReady] + SendsAt(before.writePlan, before.writeAt, RepliesAt(before))
    && after.writeAt == SendsEnd(before.writePlan, before.writeAt, RepliesAt(before))
  }

  /** There was no whole frame, or the connection broke. On an unbroken one, a head that announces no body is taken
      off the stream, and of a stream that ends inside a frame nothing is left. */
  ghost predicate Unanswered(before: Moment, after: Moment, ls: seq<Label>) {
    && ls == [ReadReady] && after.writeAt == before.writeAt
    && (Unbroken(before.readPlan, before.readAt, after.readAt) ==>
          && Usable(before.setting) && Sane(before.setting, before.incoming)
          && match Deframe(before.setting, before.incoming)
             case Got(_, _) => false
             case Rejected(rest) => after.incoming == rest
             case Cut => after.incoming == [])
  }

  /** What an event comes to: a readable one is answered or there is nothing to answer, a writable one is drained,
      without loss exactly when the kernel does not fail meanwhile. */
  ghost predicate Handled(events: nat, s: Sys, before: Moment, after: Moment, ls: seq<Label>) {
    if events == EIO_READ then Answered(before, after, ls) || Unanswered(before, after, ls)
    else
      && |ls| == 1 && ls[0].WriteReady? && after.incoming == before.incoming
      && (Unbroken(before.writePlan, before.writeAt, after.writeAt) <==> Lossless(s, ls[0]))
  }

  /** The callback waits inside a send, on a queue without room for what the kernel's answers make park. */
  ghost predicate StuckInCallback(events: nat, s: Sys, before: Moment, after: Moment, ls: seq<Label>) {
    && events == EIO_READ && Enabled(s, ReadReady)
    && FrameTaken(before, after) && !RepliesFit(before)
    && ls != [] && ls[0] == ReadReady
    && StuckAt(Next(s, ReadReady), before.writePlan, before.writeAt, RepliesAt(before), ls[1..],
               after.view, after.writeAt)
  }

  /** The connection has made the run of the event, to its end or to where its thread waits. */
  ghost predicate Ran(waits: bool, events: nat, s: Sys, before: Moment, after: Moment, ls: seq<Label>) {
    && Legal(s, ls)
    && if waits then StuckInCallback(events, s, before, after, ls)
       else Exec(s, ls).v == after.view && Handled(events, s, before, after, ls)
  }

  lemma RanFurther(waits: bool, s: Sys, before: Moment, after: Moment, sends: seq<Label>)
    requires s.v == before.view && Enabled(s, ReadReady) && FrameTaken(before, after)
    requires waits <==> !RepliesFit(before)
    requires var t, plan, at := Next(s, ReadReady), before.writePlan, before.writeAt;
             if waits then StuckAt(t, plan, at, RepliesAt(before), sends, after.view, after.writeAt)
             else SentBy(t, plan, at, RepliesAt(before), sends, after.view, after.writeAt)
    ensures Ran(waits, EIO_READ, s, before, after, [ReadReady] + sends)
  {
    OneStep(s, ReadReady);
    JoinRuns(s, [ReadReady], sends);
    assert ([ReadReady] + sends)[1..] == sends;
  }

  lemma RanStaysWatched(waits: bool, events: nat, s: Sys, before: Moment, after: Moment, ls: seq<Label>)
    requires Ran(waits, events, s, before, after, ls) && s.v.interest.Some?
    ensures after.view.interest.Some?
  {
    StaysWatched(s, ls);
    if waits {
      assert Exec(s, ls) == Exec(Next(s, ReadReady), ls[1..]);
    }
  }

  lemma NoneAbandonedAfterRead(sends: seq<Label>)
    requires NoneAbandoned(sends)
    ensures NoneAbandoned([ReadReady] + sends)
  {
    var ls := [ReadReady] + sends;
    assert forall i :: 0 < i < |ls| ==> ls[i] == sends[i - 1];
  }

  /** The replies sent before the one that waits met no hard error either. */
  lemma NoneAbandonedWhenStuck(s: Sys, plan: Plan, at: nat, replies: seq<seq<byte>>, ls: seq<Label>,
                               now: View, next: nat)
    requires StuckAt(s, plan, at, replies, ls, now, next) && Unbroken(plan, at, next)
    ensures NoneAbandoned(ls)
  {
    var sent := replies[..|ls|];
    UnbrokenJoin(plan, at, SendsEnd(plan, at, sent), next);
    UnbrokenSends(plan, at, sent);
  }

  /** Unless the kernel fails meanwhile, no event gives up bytes. */
  lemma NothingAbandoned(waits: bool, events: nat, s: Sys, before: Moment, after: Moment, ls: seq<Label>)
    requires Ran(waits, events, s, before, after, ls) && Unbroken(before.writePlan, before.writeAt, after.writeAt)
    ensures NoneAbandoned(ls) && (events != EIO_READ ==> Lossless(s, ls[0]))
  {
    var plan, at := before.writePlan, before.writeAt;
    if waits {
      NoneAbandonedWhenStuck(Next(s, ReadReady), plan, at, RepliesAt(before), ls[1..], after.view, after.writeAt);
      NoneAbandonedAfterRead(ls[1..]);
      assert ls == [ReadReady] + ls[1..];
    } else if events == EIO_READ && Answered(before, after, ls) {
      UnbrokenSends(plan, at, RepliesAt(before));
      NoneAbandonedAfterRead(SendsAt(plan, at, RepliesAt(before)));
    }
  }

  /** The kernel answered this event as the order of the sends needs it: a drain met no hard error, and the
      callback's sends each started with an empty queue or were refused first. */
  ghost predicate KernelPatient(events: nat, s: Sys, before: Moment, after: Moment, ls: seq<Label>) {
    if events == EIO_WRITE then Unbroken(before.writePlan, before.writeAt, after.writeAt)
    else
      |ls| > 1 ==>
        && Answered(before, after, ls)
        && Patient(before.writePlan, before.writeAt, s.v.queue != [], RepliesAt(before))
  }

  /** Then, and only then, the run of the event is careful. */
  lemma {:induction false} HandledCarefully(events: nat, s: Sys, before: Moment, after: Moment, ls: seq<Label>)
    requires events == EIO_READ || events == EIO_WRITE
    requires Ran(false, events, s, before, after, ls)
    ensures AllCareful(s, ls) <==> KernelPatient(events, s, before, after, ls)
  {
    if events == EIO_WRITE {
      assert ls == [ls[0]];
      OneStep(s, ls[0]);
    } else if Answered(before, after, ls) {
      var sends := SendsAt(before.writePlan, before.writeAt, RepliesAt(before));
      assert ls[0] == ReadReady && ls[1..] == sends;
      CarefulExactly(Next(s, ReadReady), before.writePlan, before.writeAt, RepliesAt(before));
    } else {
      OneStep(s, ReadReady);
    }
  }

  /** Between these positions of the schedule the kernel was offered the message, and took k bytes of it: all unless
      it failed. */
  ghost predicate Tried(plan: Plan, msg: seq<byte>, k: nat, from: nat, to: nat) {
    && from <= to && (msg != [] ==> from < to)
    && k <= |msg| && (k == |msg| <==> Unbroken(plan, from, to))
  }

  /** The first |ks| messages of the queue were tried, one after the other. */
  ghost predicate EachTried(plan: Plan, queue: seq<seq<byte>>, ks: seq<nat>, ats: seq<nat>) {
    && |ats| == |ks| + 1 && |ks| <= |queue|
    && forall i :: 0 <= i < |ks| ==> Tried(plan, queue[i], ks[i], ats[i], ats[i + 1])
  }

  lemma EachTriedFurther(plan: Plan, queue: seq<seq<byte>>, ks: seq<nat>, ats: seq<nat>, k: nat, to: nat)
    requires EachTried(plan, queue, ks, ats) && |ks| < |queue| && Tried(plan, queue[|ks|], k, ats[|ks|], to)
    ensures EachTried(plan, queue, ks + [k], ats + [to])
  {
  }

  /** Everything is delivered exactly when the kernel did not fail in between. */
  lemma {:induction false} UnbrokenIsFull(plan: Plan, queue: seq<seq<byte>>, ks: seq<nat>, ats: seq<nat>)
    requires EachTried(plan, queue, ks, ats)
    ensures ats[0] <= ats[|ks|]
    ensures Unbroken(plan, ats[0], ats[|ks|]) <==> Full(queue, ks)
    decreases |ks|
  {
    if ks != [] {
      var n := |ks| - 1;
      UnbrokenIsFull(plan, queue, ks[..n], ats[..n + 1]);
      assert Tried(plan, queue[n], ks[n], ats[n], ats[n + 1]);
      UnbrokenJoin(plan, ats[0], ats[n], ats[n + 1]);
      assert Full(queue, ks) <==> Full(queue, ks[..n]) && ks[n] == |queue[n]|;
    }
  }

  /** The first |ks| messages of the queue are gone, ks[i] bytes of the i-th onto the wire. */
  ghost predicate DrainedSoFar(queue: seq<seq<byte>>, ks: seq<nat>, left: seq<seq<byte>>, wire: seq<byte>,
                               now: seq<byte>)
  {
    && |ks| <= |queue| && left == queue[|ks|..]
    && Counts(queue[..|ks|], ks)
    && now == wire + Delivered(queue[..|ks|], ks)
  }

  lemma DrainedFurther(queue: seq<seq<byte>>, ks: seq<nat>, left: seq<seq<byte>>, wire: seq<byte>, now: seq<byte>,
                       k: nat)
    requires DrainedSoFar(queue, ks, left, wire, now) && left != [] && k <= |left[0]|
    ensures DrainedSoFar(queue, ks + [k], left[1..], wire, now + left[0][..k])
  {
    DeliveredSnoc(queue[..|ks|], ks, left[0], k);
    assert queue[..|ks| + 1] == queue[..|ks|] + [left[0]];
  }

  lemma {:induction false} DeliveredSnoc(queue: seq<seq<byte>>, ks: seq<nat>, q: seq<byte>, k: nat)
    requires Counts(queue, ks) && k <= |q|
    ensures Counts(queue + [q], ks + [k])
    ensures Delivered(queue + [q], ks + [k]) == Delivered(queue, ks) + q[..k]
  {
    if queue == [] {
      assert [q][1..] == [] && [k][1..] == [];
    } else {
      assert (queue + [q])[1..] == queue[1..] + [q] && (ks + [k])[1..] == ks[1..] + [k];
      DeliveredSnoc(queue[1..], ks[1..], q, k);
    }
  }
}
