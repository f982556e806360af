/** From messages packed at one end to messages received at the other. */
module EndToEnd {
  import opened Bits
  import opened Buffer
  import opened Codec
  import opened Framing
  import opened Nio
  import opened Protocol
  import opened WritePath
  import opened Channel
  import opened Acceptor
  import opened Worker
  import opened Epoll
  import opened Wrappers

  /** What a callback does with a reply: packs it into a buffer of its package size and sends that buffer. The
      kernel's answers decide the outcome as for any buffer. */
  method SendMessage(msg: RpcMessage, chan: EioChannel, sock: Socket)
    returns (waits: bool, ghost k: nat, ghost end: End)
    requires msg.Valid() && Sendable(msg.View()) && chan.epollCtx != null
    modifies msg`jsonLen, sock`writeAt, sock`wire, sock`errno, chan.writeQ, chan.epollCtx
    ensures msg.View() == old(msg.View())
    ensures Direct(k, end, sock.writeAt) == DirectSend(sock.writePlan, old(sock.writeAt), Encode(msg.View(), msg.tail))
    ensures Decided(sock.writePlan, old(sock.writeAt), Encode(msg.View(), msg.tail), Direct(k, end, sock.writeAt))
    ensures Unbroken(sock.writePlan, old(sock.writeAt), sock.writeAt) <==> end != Abandoned
    ensures waits <==> end == Parked && |old(chan.writeQ.q)| == chan.writeQ.maxLen
    ensures chan.View(sock) == if waits then Stalled(old(chan.View(sock)), Encode(msg.View(), msg.tail), k)
                               else Sent(old(chan.View(sock)), Encode(msg.View(), msg.tail), k, end)
  {
    var size := msg.PackageSize();
    var buf := new Buf(size);
    var n := buf.Size();
    ghost var frame := Encode(msg.View(), msg.tail);
    assert SentJson(msg.jsonData) == msg.jsonData;
    var ret := msg.RpcPack(buf.base, n);
    assert buf.Contents() == frame;
    waits, k, end := chan.SendBuf(buf, sock);
  }

  // ---------------------------------------------------------------- requests

  lemma FrameAlone(m: Msg, tail: u16, held: Msg)
    requires Sendable(m) && held.bin == []
    ensures var f := Encode(m, tail);
            && Complete(f) && UnpackOnto(f, held) == Some(m) && f[..|f|] == f && Get32(f, 2) == |f|
            && Receivable(f) && Receive(f, held) == Got(m, [])
            && Usable(RPC_SETTING) && Sane(RPC_SETTING, f) && Deframe(RPC_SETTING, f) == Got(f, [])
  {
    var f := Encode(m, tail);
    Layout(m, tail);
    RoundTrip(m, tail, held);
    ReceiveOne(m, tail, [], held);
    RpcFrames(f);
    DeframeExact(RPC_SETTING, f, f, []);
    assert f + [] == f;
  }

  /** A peer that reads a message object off this stream. */
  method ReceiveWhole(stream: seq<byte>, readPlan: Plan, msgType: u16, ghost m: Msg, ghost tail: u16)
    returns (got: Msg, unread: nat)
    requires Willing(readPlan) && Sendable(m) && stream == Encode(m, tail)
    ensures got == m && unread == 0
  {
    FrameAlone(m, tail, Fresh(msgType));
    var sock := new Socket(readPlan, readPlan, stream);
    var msg := new RpcMessage(msgType, 0, 0);
    ghost var at := sock.readAt;
    var ret := msg.RecvData(sock);
    assert Unbroken(sock.readPlan, at, sock.readAt);
    got := Msg(msg.flag, msg.msgType, msg.fmt, msg.jsonData, msg.binData.base[..]);
    unread := |sock.incoming|;
  }

  /** A peer that takes a frame off this stream and unpacks it. */
  method ReceiveFramed(stream: seq<byte>, readPlan: Plan, msgType: u16, ghost m: Msg, ghost tail: u16)
    returns (got: Msg, unread: nat)
    requires Willing(readPlan) && Sendable(m) && stream == Encode(m, tail)
    ensures got == m && unread == 0
  {
    FrameAlone(m, tail, Fresh(msgType));
    var sock := new Socket(readPlan, readPlan, stream);
    var chan := new EioChannel(1);
    var readBuf := new Buf(0);
    ghost var at := sock.readAt;
    var ret := chan.RecvBuf(readBuf, sock);
    assert Unbroken(sock.readPlan, at, sock.readAt);
    assert readBuf.Contents() == stream;
    unread := |sock.incoming|;
    var msg := new RpcMessage(msgType, 0, 0);
    ret := msg.RpcUnpack(readBuf.base, readBuf.len);
    got := Msg(msg.flag, msg.msgType, msg.fmt, msg.jsonData, msg.binData.base[..]);
  }

  /** What `send_data` put on a new connection is that message to either kind of receiver, and nothing is left. */
  method RequestArrives(msg: RpcMessage, client: Socket, readPlan: Plan, msgType: u16)
    returns (whole: Msg, framed: Msg, unread: nat)
    requires msg.Valid() && Sendable(msg.View()) && client.wire == [] && Willing(client.writePlan) && Willing(readPlan)
    modifies msg`jsonLen, client`writeAt, client`wire, client`errno
    ensures whole == framed == msg.View() == old(msg.View()) && unread == 0
    ensures client.wire == Encode(msg.View(), msg.tail)
  {
    ghost var at, m := client.writeAt, msg.View();
    var ret := msg.SendData(client);
    assert Unbroken(client.writePlan, at, client.writeAt);
    assert client.wire == [] + Encode(m, msg.tail) == Encode(m, msg.tail);
    var n;
    whole, unread := ReceiveWhole(client.wire, readPlan, msgType, m, msg.tail);
    framed, n := ReceiveFramed(client.wire, readPlan, msgType, m, msg.tail);
    unread := unread + n;
  }

  // ---------------------------------------------------------------- what can be received

  lemma PrefixStep(f: seq<byte>, left: seq<byte>, w: seq<byte>, n: nat)
    requires w <= f + left && HEAD_LENGTH <= |w| && HEAD_LENGTH <= |f|
    ensures Get32(w, 2) == Get32(f, 2)
    ensures |f| <= |w| ==> w[..|f|] == f && w[|f|..] <= left
  {
  }

  lemma ReceiveFromPrefix(m: Msg, tail: u16, left: seq<byte>, w: seq<byte>, held: Msg)
    requires Sendable(m) && held.bin == [] && w <= Encode(m, tail) + left
    requires Receivable(w) && Receive(w, held).Got?
    ensures Receive(w, held).value == m && Receive(w, held).rest <= left
  {
    var f := Encode(m, tail);
    Layout(m, tail);
    PrefixStep(f, left, w, |f|);
    RoundTrip(m, tail, held);
  }

  /** From part of the sent stream the first receive can only take the first message. */
  lemma ReceiveFromPart(ms: seq<Msg>, tail: u16, w: seq<byte>, held: Msg)
    requires AllSendable(ms) && w <= Concat(Frames(ms, tail)) && held.bin == []
    ensures Receivable(w) && Receive(w, held).Got? ==>
              ms != [] && Receive(w, held).value == ms[0] && Receive(w, held).rest <= Concat(Frames(ms[1..], tail))
  {
    if ms != [] && Receivable(w) && Receive(w, held).Got? {
      var left := Concat(Frames(ms[1..], tail));
      FramesCons(ms, tail, []);
      assert Concat(Frames(ms, tail)) + [] == Concat(Frames(ms, tail)) && left + [] == left;
      ReceiveFromPrefix(ms[0], tail, left, w, held);
    }
  }

  /** If so many receives succeed on the stream, they return the first so many of these messages. */
  predicate YieldsOnly(stream: seq<byte>, msgTypes: seq<u16>, ms: seq<Msg>) {
    match ReceiveMany(stream, msgTypes)
    case Some((got, _)) => |got| == |msgTypes| && got <= ms
    case None => true
  }

  lemma YieldsOnlyCons(stream: seq<byte>, msgTypes: seq<u16>, ms: seq<Msg>, rest: seq<byte>)
    requires msgTypes != [] && ms != []
    requires Yields(stream, Fresh(msgTypes[0]), ms[0], rest) && YieldsOnly(rest, msgTypes[1..], ms[1..])
    ensures YieldsOnly(stream, msgTypes, ms)
  {
    ReceiveManyCons(stream, msgTypes);
    assert ms == [ms[0]] + ms[1..];
  }

  /** From any part of the sent stream that has arrived, only the sent messages can be received, in order. */
  lemma {:induction false} ReceivedIsPrefix(ms: seq<Msg>, tail: u16, w: seq<byte>, msgTypes: seq<u16>)
    requires AllSendable(ms) && w <= Concat(Frames(ms, tail))
    ensures YieldsOnly(w, msgTypes, ms)
    decreases |msgTypes|
  {
    if msgTypes != [] && ReceiveMany(w, msgTypes).Some? {
      ReceiveManyCons(w, msgTypes);
      ReceiveFromPart(ms, tail, w, Fresh(msgTypes[0]));
      var rest := Receive(w, Fresh(msgTypes[0])).rest;
      ReceivedIsPrefix(ms[1..], tail, rest, msgTypes[1..]);
      YieldsOnlyCons(w, msgTypes, ms, rest);
    }
  }

  /** At every moment of every careful run, whatever the kernel answered so far, what a receiver can make
      of the wire is a prefix of the messages sent. */
  lemma {:induction false} NothingElseArrives(ms: seq<Msg>, tail: u16, ls: seq<Label>, msgTypes: seq<u16>)
    requires AllSendable(ms)
    requires Legal(INIT, ls) && AllCareful(INIT, ls) && Exec(INIT, ls).accepted == Frames(ms, tail)
    ensures YieldsOnly(Exec(INIT, ls).v.wire, msgTypes, ms)
  {
    SendSideRefinement(INIT, ls);
    ReceivedIsPrefix(ms, tail, Exec(INIT, ls).v.wire, msgTypes);
  }

  /** And once the queue is drained, as many receives as messages were sent return exactly those messages
      and leave the stream empty. */
  lemma {:induction false} EverythingArrives(ms: seq<Msg>, tail: u16, ls: seq<Label>, msgTypes: seq<u16>)
    requires AllSendable(ms) && |msgTypes| == |ms|
    requires Legal(INIT, ls) && AllCareful(INIT, ls) && Exec(INIT, ls).accepted == Frames(ms, tail)
    requires Exec(INIT, ls).v.queue == []
    ensures ReceiveMany(Exec(INIT, ls).v.wire, msgTypes) == Some((ms, []))
  {
    SendSideRefinement(INIT, ls);
    var wire := Exec(INIT, ls).v.wire;
    assert wire == wire + Concat(Exec(INIT, ls).v.queue);
    assert wire + [] == wire;
    ReceiveAll(ms, tail, [], msgTypes);
  }

  // ---------------------------------------------------------------- the order of replies

  /** A packed frame ends in two different bytes. */
  lemma FrameNotUniform(m: Msg, queued: seq<byte>)
    requires Representable(m)
    ensures !Uniform(queued + Encode(m, TAIL))
  {
    var f := Encode(m, TAIL);
    Layout(m, TAIL);
    var x, n := queued + f, |queued + f|;
    assert x[n - 2] == f[|f| - 2] == 0x55 && x[n - 1] == f[|f| - 1] == 0xAA;
  }

  /** For packed messages the condition is exact: a reply keeps the order under every answer of the kernel if and
      only if nothing is queued when it is sent. */
  lemma ReplyOrderExactly(s: Sys, m: Msg)
    requires Conserved(s) && InOrder(s) && s.v.events == EIO_READ && |s.v.queue| < MAX_QUEUE
    requires Representable(m)
    ensures AlwaysInOrder(s, Encode(m, TAIL)) <==> s.v.queue == []
  {
    SendOrderExactly(s, Encode(m, TAIL));
    FrameNotUniform(m, Concat(s.v.queue));
    if s.v.queue != [] {
      assert s.v.queue[0] in s.v.queue && FromAccepted(s.v.queue[0], s.accepted);
    }
  }

  lemma TwoFrames(m: Msg, n: Msg, tail: u16)
    requires Sendable(m) && Sendable(n)
    ensures AllSendable([m, n]) && Frames([m, n], tail) == [Encode(m, tail), Encode(n, tail)]
    ensures Concat(Frames([m, n], tail)) == Encode(m, tail) + Encode(n, tail)
  {
    assert [m, n][1..] == [n] && [n][1..] == [];
    assert Frames([n], tail) == [Encode(n, tail)];
    var fs := [Encode(m, tail), Encode(n, tail)];
    assert fs[1..] == [Encode(n, tail)];
    assert Concat(fs[1..]) == Encode(n, tail) + Concat(fs[1..][1..]) == Encode(n, tail);
  }

  /** Without that, from the start of a connection and with a kernel that fails nothing, two replies of one callback
      are received in the wrong order. */
  lemma RepliesSwap(m: Msg, n: Msg, tail: u16, msgTypes: seq<u16>) returns (ls: seq<Label>)
    requires Sendable(m) && Sendable(n) && |msgTypes| == 2
    ensures AllSendable([m, n]) && Legal(INIT, ls)
    ensures Exec(INIT, ls).accepted == Frames([m, n], tail) && Exec(INIT, ls).v.queue == [] && Exec(INIT, ls).lost == []
    ensures ReceiveMany(Exec(INIT, ls).v.wire, msgTypes) == Some(([n, m], []))
  {
    TwoFrames(m, n, tail);
    TwoFrames(n, m, tail);
    ls := Overtaking(Encode(m, tail), Encode(n, tail));
    ReceiveAll([n, m], tail, [], msgTypes);
    assert Exec(INIT, ls).v.wire + [] == Exec(INIT, ls).v.wire;
  }

  // ---------------------------------------------------------------- the whole way

  /** A message object of the callback's own, with its fields set. */
  method NewReply(m: Msg) returns (msg: RpcMessage)
    ensures fresh(msg) && msg.Valid() && msg.View() == m && msg.tail == TAIL
  {
    msg := new RpcMessage(m.msgType, 0, 0);
    msg.flag, msg.fmt, msg.jsonData := m.flag, m.fmt, m.json;
    msg.binData.Copy(m.bin);
  }

  /** One reply, packed, is a Send step, given room if it is to park. */
  method SendReply(m: Msg, chan: EioChannel, sock: Socket, ghost s: Sys) returns (ghost l: Label)
    requires Sendable(m) && chan.epollCtx != null && chan.writeQ.maxLen == MAX_QUEUE
    requires s.v == chan.View(sock) && s.v.events == EIO_READ && SizesFit(s.v.queue)
    requires DirectSend(sock.writePlan, sock.writeAt, Encode(m, TAIL)).end == Parked ==> |s.v.queue| < MAX_QUEUE
    modifies sock`writeAt, sock`wire, sock`errno, chan.writeQ, chan.epollCtx
    ensures l == SendAt(sock.writePlan, old(sock.writeAt), Encode(m, TAIL))
    ensures sock.writeAt == DirectSend(sock.writePlan, old(sock.writeAt), Encode(m, TAIL)).at
    ensures Enabled(s, l) && Next(s, l).v == chan.View(sock)
    ensures Next(s, l).v.events == EIO_READ && SizesFit(Next(s, l).v.queue)
  {
    var msg := NewReply(m);
    var waits;
    ghost var k, end;
    waits, k, end := SendMessage(msg, chan, sock);
    l := Send(Encode(m, TAIL), k, end);
  }

  /** The first i replies have been sent, in this run, and there is room for the others. */
  ghost predicate Sending(s: Sys, ls: seq<Label>, plan: Plan, at: nat, ms: seq<Msg>, i: nat, now: View, next: nat)
    requires AllSendable(ms) && i <= |ms|
  {
    && Legal(s, ls) && Exec(s, ls).v == now
    && ls == SendsAt(plan, at, Frames(ms[..i], TAIL)) && next == SendsEnd(plan, at, Frames(ms[..i], TAIL))
    && now.events == EIO_READ && SizesFit(now.queue)
    && Room(|now.queue|, plan, next, Frames(ms[i..], TAIL))
  }

  lemma SendsOfFrames(plan: Plan, at: nat, ms: seq<Msg>, i: nat, tail: u16)
    requires AllSendable(ms) && i < |ms|
    ensures var next := SendsEnd(plan, at, Frames(ms[..i], tail));
            && SendsAt(plan, at, Frames(ms[..i + 1], tail))
               == SendsAt(plan, at, Frames(ms[..i], tail)) + [SendAt(plan, next, Encode(ms[i], tail))]
            && SendsEnd(plan, at, Frames(ms[..i + 1], tail)) == DirectSend(plan, next, Encode(ms[i], tail)).at
  {
    FramesSnoc(ms[..i], ms[i], tail);
    assert ms[..i + 1] == ms[..i] + [ms[i]];
    SendsSnoc(plan, at, Frames(ms[..i], tail), Encode(ms[i], tail));
  }

  /** The remaining replies need room for the next and then for the others. */
  lemma ParkingsFrom(plan: Plan, at: nat, ms: seq<Msg>, i: nat, tail: u16)
    requires AllSendable(ms) && i < |ms|
    ensures var d := DirectSend(plan, at, Encode(ms[i], tail));
            Parkings(plan, at, Frames(ms[i..], tail))
            == (if d.end == Parked then 1 else 0) + Parkings(plan, d.at, Frames(ms[i + 1..], tail))
  {
    assert ms[i..][1..] == ms[i + 1..];
    assert Frames(ms[i..], tail)[1..] == Frames(ms[i + 1..], tail);
  }

  lemma SendingFurther(s: Sys, ls: seq<Label>, plan: Plan, at: nat, ms: seq<Msg>, i: nat,
                       now: View, next: nat, l: Label)
    returns (ls': seq<Label>)
    requires AllSendable(ms) && i < |ms| && Sending(s, ls, plan, at, ms, i, now, next)
    requires l == SendAt(plan, next, Encode(ms[i], TAIL)) && Enabled(Exec(s, ls), l)
    requires var v := Next(Exec(s, ls), l).v; v.events == EIO_READ && SizesFit(v.queue)
    ensures Sending(s, ls', plan, at, ms, i + 1, Next(Exec(s, ls), l).v, DirectSend(plan, next, Encode(ms[i], TAIL)).at)
  {
    SendsOfFrames(plan, at, ms, i, TAIL);
    ParkingsFrom(plan, next, ms, i, TAIL);
    ls' := Then(s, ls, l);
  }

  /** The next of the callback's replies, packed and sent. */
  method SendNth(ms: seq<Msg>, i: nat, chan: EioChannel, sock: Socket,
                 ghost s: Sys, ghost ls: seq<Label>, ghost at: nat)
    returns (ghost ls': seq<Label>)
    requires AllSendable(ms) && i < |ms| && chan.epollCtx != null && chan.writeQ.maxLen == MAX_QUEUE
    requires Sending(s, ls, sock.writePlan, at, ms, i, chan.View(sock), sock.writeAt)
    modifies sock`writeAt, sock`wire, sock`errno, chan.writeQ, chan.epollCtx
    ensures Sending(s, ls', sock.writePlan, at, ms, i + 1, chan.View(sock), sock.writeAt)
  {
    ghost var now, next := chan.View(sock), sock.writeAt;
    ParkingsFrom(sock.writePlan, next, ms, i, TAIL);
    ghost var l := SendReply(ms[i], chan, sock, Exec(s, ls));
    ls' := SendingFurther(s, ls, sock.writePlan, at, ms, i, now, next, l);
  }

  /** The callback's replies, packed and sent one after the other, given room for those that are to park. */
  method SendAll(ms: seq<Msg>, chan: EioChannel, sock: Socket, ghost s: Sys) returns (ghost ls: seq<Label>)
    requires AllSendable(ms) && chan.epollCtx != null && chan.writeQ.maxLen == MAX_QUEUE
    requires s.v == chan.View(sock) && s.v.events == EIO_READ && SizesFit(s.v.queue)
    requires Room(|s.v.queue|, sock.writePlan, sock.writeAt, Frames(ms, TAIL))
    modifies sock`writeAt, sock`wire, sock`errno, chan.writeQ, chan.epollCtx
    ensures ls == SendsAt(sock.writePlan, old(sock.writeAt), Frames(ms, TAIL))
    ensures sock.writeAt == SendsEnd(sock.writePlan, old(sock.writeAt), Frames(ms, TAIL))
    ensures Legal(s, ls) && Exec(s, ls).v == chan.View(sock)
    ensures |chan.writeQ.q| <= MAX_QUEUE && SizesFit(chan.writeQ.q)
  {
    ls := [];
    ghost var at := sock.writeAt;
    assert ms[0..] == ms && ms[..0] == [];
    for i := 0 to |ms|
      invariant Sending(s, ls, sock.writePlan, at, ms, i, chan.View(sock), sock.writeAt)
    {
      ls := SendNth(ms, i, chan, sock, s, ls, at);
    }
    assert ms[..|ms|] == ms;
  }

  /** The run of a connection so far: careful, and what was accepted are the frames of these messages. */
  ghost predicate Carried(run: seq<Label>, ms: seq<Msg>, tail: u16) {
    AllSendable(ms) && Legal(INIT, run) && AllCareful(INIT, run) && Exec(INIT, run).accepted == Frames(ms, tail)
  }

  /** Sends that a patient kernel answers carry their messages as well. */
  lemma CarriedFurther(run: seq<Label>, ms: seq<Msg>, tail: u16, plan: Plan, at: nat, more: seq<Msg>)
    requires Carried(run, ms, tail) && AllSendable(more)
    requires Legal(Exec(INIT, run), SendsAt(plan, at, Frames(more, tail)))
    requires Patient(plan, at, Exec(INIT, run).v.queue != [], Frames(more, tail))
    ensures Carried(run + SendsAt(plan, at, Frames(more, tail)), ms + more, tail)
  {
    var s, sends := Exec(INIT, run), SendsAt(plan, at, Frames(more, tail));
    CarefulExactly(s, plan, at, Frames(more, tail));
    SendsAccept(s, sends, Frames(more, tail));
    JoinRuns(INIT, run, sends);
    FramesJoin(ms, more, tail);
  }

  /** So does a drain that loses nothing. */
  lemma CarriedByDrain(run: seq<Label>, ms: seq<Msg>, tail: u16, l: Label)
    requires Carried(run, ms, tail) && l.WriteReady? && Enabled(Exec(INIT, run), l) && Lossless(Exec(INIT, run), l)
    ensures Carried(run + [l], ms, tail)
  {
    OneStep(Exec(INIT, run), l);
    JoinRuns(INIT, run, [l]);
  }

  /** So does a read event. */
  lemma CarriedByRead(run: seq<Label>, ms: seq<Msg>, tail: u16)
    requires Carried(run, ms, tail) && Exec(INIT, run).v.interest.Some?
    ensures Carried(run + [ReadReady], ms, tail)
    ensures Exec(INIT, run + [ReadReady]) == Next(Exec(INIT, run), ReadReady)
  {
    OneStep(Exec(INIT, run), ReadReady);
    JoinRuns(INIT, run, [ReadReady]);
  }

  /** A watched connection of this worker, and what it has carried so far. */
  ghost predicate Connected(worker: IoWorker, chan: EioChannel, sock: Socket, run: seq<Label>, carried: seq<Msg>)
    reads worker.ioCtx.epollCtx, chan, chan.writeQ, sock
  {
    && chan.epollCtx == worker.ioCtx.epollCtx
    && Carried(run, carried, TAIL) && Exec(INIT, run).v == worker.MomentOf(chan, sock).view
    && Exec(INIT, run).v.interest.Some?
    && |chan.writeQ.q| <= chan.writeQ.maxLen == MAX_QUEUE && SizesFit(chan.writeQ.q)
  }

  /** A read event up to the callback: one frame is taken, or none. */
  method EnterCallback(worker: IoWorker, chan: EioChannel, sock: Socket, ghost run: seq<Label>, ghost carried: seq<Msg>)
    returns (ret: int, frame: seq<byte>, ghost run': seq<Label>)
    requires Connected(worker, chan, sock, run, carried) && Readable(worker.MomentOf(chan, sock))
    modifies chan`events, sock`readAt, sock`incoming, sock`errno
    ensures Connected(worker, chan, sock, run', carried) && chan.events == EIO_READ
    ensures ret == 0 ==> Deframe(chan.setting, old(sock.incoming)) == Got(frame, sock.incoming)
    ensures Reliable(sock.readPlan) ==> (ret == 0 <==> Deframe(chan.setting, old(sock.incoming)).Got?)
  {
    chan.events := EIO_READ;
    ghost var at := sock.readAt;
    ret, frame := worker.ReceiveFrame(chan, sock);
    assert Reliable(sock.readPlan) ==> Unbroken(sock.readPlan, at, sock.readAt);
    CarriedByRead(run, carried, TAIL);
    run' := run + [ReadReady];
  }

  /** Write event on a connection that has parked bytes: without a hard error all that was ever sent is on the wire
      afterwards. */
  method DrainAll(worker: IoWorker, chan: EioChannel, sock: Socket, ghost run: seq<Label>, ghost carried: seq<Msg>)
    returns (ghost run': seq<Label>)
    requires Connected(worker, chan, sock, run, carried) && Willing(sock.writePlan)
    modifies chan`events, chan.writeQ, worker.ioCtx.epollCtx
    modifies sock`readAt, sock`incoming, sock`writeAt, sock`wire, sock`errno
    ensures Connected(worker, chan, sock, run', carried) && chan.writeQ.q == []
    ensures sock.incoming == old(sock.incoming)
  {
    ghost var s, at := Exec(INIT, run), sock.writeAt;
    var waits;
    ghost var drain;
    waits, drain := worker.HandleOn(chan, EIO_WRITE, sock, s);
    assert drain == [drain[0]] && Unbroken(sock.writePlan, at, sock.writeAt);
    OneStep(s, drain[0]);
    StaysWatched(s, drain);
    CarriedByDrain(run, carried, TAIL, drain[0]);
    JoinRuns(INIT, run, drain);
    run' := run + drain;
  }

  /** A callback's replies. Asked of the kernel is no hard error, and that each send starts with an empty queue or is
      refused first; without the latter, RepliesSwap. */
  method AnswerWith(worker: IoWorker, ms: seq<Msg>, chan: EioChannel, sock: Socket,
                    ghost run: seq<Label>, ghost earlier: seq<Msg>)
    returns (ghost run': seq<Label>)
    requires AllSendable(ms) && Connected(worker, chan, sock, run, earlier) && chan.events == EIO_READ
    requires Patient(sock.writePlan, sock.writeAt, chan.writeQ.q != [], Frames(ms, TAIL))
    requires Room(|chan.writeQ.q|, sock.writePlan, sock.writeAt, Frames(ms, TAIL))
    modifies chan.writeQ, worker.ioCtx.epollCtx, sock`writeAt, sock`wire, sock`errno
    ensures Connected(worker, chan, sock, run', earlier + ms)
  {
    ghost var at, s := sock.writeAt, Exec(INIT, run);
    ghost var sends := SendAll(ms, chan, sock, s);
    CarriedFurther(run, earlier, TAIL, sock.writePlan, at, ms);
    JoinRuns(INIT, run, sends);
    StaysWatched(s, sends);
    run' := run + sends;
  }

  /** One callback and the write event after it, if the callback parked anything. */
  method SendAndDrain(worker: IoWorker, ms: seq<Msg>, chan: EioChannel, sock: Socket,
                      ghost run: seq<Label>, ghost earlier: seq<Msg>)
    returns (ghost run': seq<Label>)
    requires AllSendable(ms) && Connected(worker, chan, sock, run, earlier) && chan.events == EIO_READ
    requires Willing(sock.writePlan)
    requires Patient(sock.writePlan, sock.writeAt, chan.writeQ.q != [], Frames(ms, TAIL))
    requires Room(|chan.writeQ.q|, sock.writePlan, sock.writeAt, Frames(ms, TAIL))
    modifies chan`events, chan.writeQ, worker.ioCtx.epollCtx
    modifies sock`readAt, sock`incoming, sock`writeAt, sock`wire, sock`errno
    ensures Connected(worker, chan, sock, run', earlier + ms) && chan.writeQ.q == []
    ensures sock.incoming == old(sock.incoming)
  {
    run' := AnswerWith(worker, ms, chan, sock, run, earlier);
    var parked := chan.WriteQueueSize();
    if parked > 0 {
      run' := DrainAll(worker, chan, sock, run', earlier + ms);
    }
  }

  /** A client that reads this stream. */
  method ReceiveAllOf(stream: seq<byte>, readPlan: Plan, msgTypes: seq<u16>, ghost ms: seq<Msg>)
    returns (received: seq<Msg>, unread: nat)
    requires Willing(readPlan) && ReceiveMany(stream, msgTypes) == Some((ms, []))
    ensures received == ms && unread == 0
  {
    var client := new Socket(readPlan, readPlan, stream);
    var ret;
    ret, received := ReceiveReplies(client, msgTypes);
    unread := |client.incoming|;
  }

  lemma CarriedArrives(run: seq<Label>, ms: seq<Msg>, tail: u16, msgTypes: seq<u16>, wire: seq<byte>)
    requires Carried(run, ms, tail) && |msgTypes| == |ms|
    requires Exec(INIT, run).v.wire == wire && Exec(INIT, run).v.queue == []
    ensures ReceiveMany(wire, msgTypes) == Some((ms, []))
  {
    EverythingArrives(ms, tail, run, msgTypes);
  }

  /** From the callback to the client. On a connection that has carried `earlier`, a callback packs and sends more
      messages, what was parked is drained, and a client receives: exactly all the messages, in order, under every
      fragmentation of what it reads, and nothing is left. */
  method Exchange(worker: IoWorker, ms: seq<Msg>, chan: EioChannel, sock: Socket, readPlan: Plan, msgTypes: seq<u16>,
                  ghost run: seq<Label>, ghost earlier: seq<Msg>)
    returns (received: seq<Msg>, unread: nat, ghost run': seq<Label>)
    requires AllSendable(ms) && Connected(worker, chan, sock, run, earlier) && chan.events == EIO_READ
    requires Willing(sock.writePlan) && Willing(readPlan) && |msgTypes| == |earlier| + |ms|
    requires Patient(sock.writePlan, sock.writeAt, chan.writeQ.q != [], Frames(ms, TAIL))
    requires Room(|chan.writeQ.q|, sock.writePlan, sock.writeAt, Frames(ms, TAIL))
    modifies chan`events, chan.writeQ, worker.ioCtx.epollCtx
    modifies sock`readAt, sock`incoming, sock`writeAt, sock`wire, sock`errno
    ensures received == earlier + ms && unread == 0
    ensures Connected(worker, chan, sock, run', earlier + ms) && chan.writeQ.q == []
    ensures sock.incoming == old(sock.incoming)
  {
    run' := SendAndDrain(worker, ms, chan, sock, run, earlier);
    CarriedArrives(run', earlier + ms, TAIL, msgTypes, sock.wire);
    received, unread := ReceiveAllOf(sock.wire, readPlan, msgTypes, earlier + ms);
  }

  // ---------------------------------------------------------------- a conversation

  lemma OneFrame(m: Msg, tail: u16)
    requires Sendable(m)
    ensures AllSendable([m]) && Frames([m], tail) == [Encode(m, tail)]
  {
    assert [m][1..] == [];
  }

  /** One request is read and answered with one message. */
  method Round(worker: IoWorker, m: Msg, chan: EioChannel, sock: Socket, ghost req: seq<byte>, ghost rest: seq<byte>,
               ghost run: seq<Label>, ghost earlier: seq<Msg>)
    returns (ghost run': seq<Label>)
    requires Sendable(m) && Connected(worker, chan, sock, run, earlier) && chan.writeQ.q == []
    requires Readable(worker.MomentOf(chan, sock)) && Deframe(chan.setting, sock.incoming) == Got(req, rest)
    requires Reliable(sock.readPlan) && Willing(sock.writePlan)
    modifies chan`events, chan.writeQ, worker.ioCtx.epollCtx
    modifies sock`readAt, sock`incoming, sock`writeAt, sock`wire, sock`errno
    ensures Connected(worker, chan, sock, run', earlier + [m]) && chan.writeQ.q == []
    ensures sock.incoming == rest
  {
    var ret, frame;
    ret, frame, run' := EnterCallback(worker, chan, sock, run, earlier);
    OneFrame(m, TAIL);
    OneReplyIsPatient(sock.writePlan, sock.writeAt, Encode(m, TAIL));
    run' := SendAndDrain(worker, [m], chan, sock, run', earlier);
  }

  /** The first i requests have been read and answered. */
  ghost predicate Answering(worker: IoWorker, chan: EioChannel, sock: Socket, setting: UnpackSetting,
                            reqs: seq<seq<byte>>, ms: seq<Msg>, i: nat, run: seq<Label>)
    reads worker.ioCtx.epollCtx, chan, chan.writeQ, sock
  {
    && i <= |ms| == |reqs| && AllSendable(ms) && Usable(setting) && AllFrames(setting, reqs)
    && Connected(worker, chan, sock, run, ms[..i]) && chan.writeQ.q == []
    && chan.setting == setting && sock.incoming == Concat(reqs[i..])
    && Willing(sock.readPlan) && Willing(sock.writePlan)
  }

  lemma Slices<T>(s: seq<T>, i: nat)
    requires i < |s|
    ensures s[i..][1..] == s[i + 1..] && s[..i + 1] == s[..i] + [s[i]]
  {
  }

  /** The i-th request is read and answered with the i-th message. */
  method AnswerNth(worker: IoWorker, chan: EioChannel, sock: Socket, ghost setting: UnpackSetting,
                   ghost reqs: seq<seq<byte>>, ms: seq<Msg>, i: nat, ghost run: seq<Label>)
    returns (ghost run': seq<Label>)
    requires Answering(worker, chan, sock, setting, reqs, ms, i, run) && i < |ms|
    modifies chan`events, chan.writeQ, worker.ioCtx.epollCtx
    modifies sock`readAt, sock`incoming, sock`writeAt, sock`wire, sock`errno
    ensures Answering(worker, chan, sock, setting, reqs, ms, i + 1, run')
  {
    ghost var rest := Concat(reqs[i + 1..]);
    Slices(reqs, i);
    Slices(ms, i);
    FrameByFrame(setting, reqs[i..]);
    run' := Round(worker, ms[i], chan, sock, reqs[i], rest, run, ms[..i]);
  }

  /** Every request is read and answered. */
  method AnswerAll(worker: IoWorker, chan: EioChannel, sock: Socket, ghost setting: UnpackSetting,
                   ghost reqs: seq<seq<byte>>, ms: seq<Msg>)
    returns (ghost run: seq<Label>)
    requires Answering(worker, chan, sock, setting, reqs, ms, 0, [Watch])
    modifies chan`events, chan.writeQ, worker.ioCtx.epollCtx
    modifies sock`readAt, sock`incoming, sock`writeAt, sock`wire, sock`errno
    ensures Connected(worker, chan, sock, run, ms) && chan.writeQ.q == [] && sock.incoming == []
  {
    run := [Watch];
    for i := 0 to |ms|
      invariant Answering(worker, chan, sock, setting, reqs, ms, i, run)
    {
      run := AnswerNth(worker, chan, sock, setting, reqs, ms, i, run);
    }
    assert ms[..|ms|] == ms && reqs[|reqs|..] == [];
  }

  lemma CarriedByWatch(tail: u16)
    ensures Carried([Watch], [], tail)
  {
    WatchedOnly();
    OneStep(INIT, Watch);
  }

  /** A connection just accepted has carried nothing yet. */
  method Accept(acceptor: IOAcceptor, fd: int, sock: Socket, ghost reqs: seq<seq<byte>>, ghost ms: seq<Msg>)
    returns (worker: IoWorker, chan: EioChannel)
    requires acceptor.Valid() && 0 < fd && (fd + 1) * 2 < TWO31
    requires fd !in acceptor.workers[acceptor.Owner(fd)].ioCtx.Table() && sock.wire == []
    requires Usable(acceptor.setting) && AllFrames(acceptor.setting, reqs) && sock.incoming == Concat(reqs)
    requires AllSendable(ms) && |ms| == |reqs| && Willing(sock.readPlan) && Willing(sock.writePlan)
    modifies acceptor.workers[acceptor.Owner(fd)].ioCtx, acceptor.workers[acceptor.Owner(fd)].ioCtx.epollCtx
    ensures worker == acceptor.workers[acceptor.Owner(fd)] && fresh(chan) && fresh(chan.writeQ)
    ensures Answering(worker, chan, sock, acceptor.setting, reqs, ms, 0, [Watch])
  {
    chan := acceptor.NewConnection(fd, sock);
    worker := acceptor.workers[fd % |acceptor.workers|];
    CarriedByWatch(TAIL);
    WatchedOnly();
    assert ms[..0] == [] && reqs[0..] == reqs;
  }

  /** The whole way, from a connection just accepted: every request is read off the stream, answered with a packed
      message, and what the kernel refused is drained before the next; then a client receives exactly the answers, in
      order, under every fragmentation. Of the kernel nothing is asked but that it does not fail, and does not answer
      EAGAIN for ever. */
  method Conversation(acceptor: IOAcceptor, fd: int, sock: Socket, ms: seq<Msg>, readPlan: Plan, msgTypes: seq<u16>,
                      ghost reqs: seq<seq<byte>>)
    returns (received: seq<Msg>, unread: nat, ghost run: seq<Label>)
    requires acceptor.Valid() && 0 < fd && (fd + 1) * 2 < TWO31
    requires fd !in acceptor.workers[acceptor.Owner(fd)].ioCtx.Table() && sock.wire == []
    requires Usable(acceptor.setting) && AllFrames(acceptor.setting, reqs) && sock.incoming == Concat(reqs)
    requires AllSendable(ms) && |msgTypes| == |ms| == |reqs|
    requires Willing(sock.readPlan) && Willing(sock.writePlan) && Willing(readPlan)
    modifies acceptor.workers[acceptor.Owner(fd)].ioCtx, acceptor.workers[acceptor.Owner(fd)].ioCtx.epollCtx
    modifies sock`readAt, sock`incoming, sock`writeAt, sock`wire, sock`errno
    ensures received == ms && unread == 0 && sock.incoming == []
    ensures Carried(run, ms, TAIL) && Exec(INIT, run).v.wire == sock.wire && Exec(INIT, run).v.queue == []
  {
    var worker, chan := Accept(acceptor, fd, sock, reqs, ms);
    run := AnswerAll(worker, chan, sock, acceptor.setting, reqs, ms);
    CarriedArrives(run, ms, TAIL, msgTypes, sock.wire);
    received, unread := ReceiveAllOf(sock.wire, readPlan, msgTypes, ms);
  }

  /** A conversation from nothing at all: the acceptor and its workers are created, a connection with these requests on
      it is accepted, and the client has exactly the answers. */
  method Session(workerNum: nat, setting: UnpackSetting, onMessage: Callback, fd: int,
                 reqs: seq<seq<byte>>, ms: seq<Msg>, msgTypes: seq<u16>,
                 readPlan: Plan, writePlan: Plan, clientPlan: Plan)
    returns (received: seq<Msg>, unread: nat)
    requires workerNum > 0 && 0 < fd && (fd + 1) * 2 < TWO31
    requires Usable(setting) && AllFrames(setting, reqs) && AllSendable(ms) && |msgTypes| == |ms| == |reqs|
    requires Willing(readPlan) && Willing(writePlan) && Willing(clientPlan)
    ensures received == ms && unread == 0
  {
    var acceptor := new IOAcceptor(workerNum, setting, onMessage);
    var sock := new Socket(readPlan, writePlan, Concat(reqs));
    ghost var run;
    received, unread, run := Conversation(acceptor, fd, sock, ms, clientPlan, msgTypes, reqs);
  }
}
