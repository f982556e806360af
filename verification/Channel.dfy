/** A connection's channel: its bounded write queue, direct sends, framed receives, and the table of channels. */
module Channel {
  import opened Bits
  import opened Buffer
  import opened Nio
  import opened Epoll
  import opened Framing
  import opened WritePath
  import opened Wrappers

  /** The bounded queue as one thread meets it. Where the source waits for another thread, the call here ends by
      saying so and changes nothing; Monitor.dfy has what other threads make of it. */
  class ConcurrentQueue<T> {
    const maxLen: nat
    var q: seq<T>

    constructor (maxLen: nat)
      ensures this.maxLen == maxLen && q == []
    {
      this.maxLen, q := maxLen, [];
    }

    method Size() returns (n: nat)
      ensures n == |q|
    {
      n := |q|;
    }

    /** Appends a value, or waits while the queue is full. */
    method Enqueue(val: T) returns (waits: bool)
      modifies this
      ensures waits <==> |old(q)| == maxLen
      ensures q == if waits then old(q) else old(q) + [val]
    {
      waits := |q| == maxLen;
      if !waits {
        q := q + [val];
      }
    }

    /** Takes the first value, or waits (None) while there is none. */
    method Pop() returns (val: Option<T>)
      modifies this
      ensures val.None? <==> old(q) == []
      ensures q == if val.None? then old(q) else old(q)[1..]
      ensures val.Some? ==> val.value == old(q)[0]
    {
      if q == [] {
        return None;
      }
      val := Some(q[0]);
      q := q[1..];
    }
  }

  /** The application callback, reduced to the buffers it sends in reply to a frame. */
  type Callback = seq<byte> -> seq<seq<byte>>

  class EioChannel {
    const fd: int
    const writeQ: ConcurrentQueue<seq<byte>>
    var events: nat
    var setting: UnpackSetting
    var onMessage: Callback
    var epollCtx: EpollCtx?

    constructor (fd: int)
      ensures this.fd == fd && events == 0 && fresh(writeQ)
      ensures writeQ.q == [] && writeQ.maxLen == MAX_QUEUE == 10240
      ensures setting == UnpackSetting(1, 10, 2, 4, 0)
    {
      this.fd, events, setting := fd, 0, RPC_SETTING;
      onMessage, epollCtx := _ => [], null;
      writeQ := new ConcurrentQueue(MAX_QUEUE);
    }

    /** This channel and the socket behind its descriptor, as the transition system sees them. */
    ghost function View(sock: Socket): WritePath.View
      reads this, writeQ, sock, epollCtx
      requires epollCtx != null
    {
      WritePath.View(sock.wire, writeQ.q, epollCtx.Of(fd), events, epollCtx.CtlsOf(fd))
    }

    method WriteQueueSize() returns (n: nat)
      ensures n == |writeQ.q|
    {
      n := writeQ.Size();
    }

    method EnqueueWriteMsg(data: seq<byte>) returns (waits: bool)
      modifies writeQ
      ensures waits <==> |old(writeQ.q)| == writeQ.maxLen
      ensures writeQ.q == if waits then old(writeQ.q) else old(writeQ.q) + [data]
    {
      waits := writeQ.Enqueue(data);
    }

    method PopWriteMsg() returns (data: Option<seq<byte>>)
      modifies writeQ
      ensures data.None? <==> old(writeQ.q) == []
      ensures writeQ.q == if data.None? then old(writeQ.q) else old(writeQ.q)[1..]
      ensures data.Some? ==> data.value == old(writeQ.q)[0]
    {
      data := writeQ.Pop();
    }

    /** Writes directly until the kernel stops taking bytes. The step taken on the connection is `Sent`, with the
        outcome the kernel's answers decide, unless they make the send park on a full queue: then it waits there. */
    method SendBuf(buf: Buf, sock: Socket) returns (waits: bool, ghost k: nat, ghost end: End)
      requires buf.Valid() && |buf.Contents()| < TWO31
      requires epollCtx != null
      modifies sock`writeAt, sock`wire, sock`errno, writeQ, epollCtx
      ensures Direct(k, end, sock.writeAt) == DirectSend(sock.writePlan, old(sock.writeAt), buf.Contents())
      ensures Decided(sock.writePlan, old(sock.writeAt), buf.Contents(), Direct(k, end, sock.writeAt))
      ensures Unbroken(sock.writePlan, old(sock.writeAt), sock.writeAt) <==> end != Abandoned
      ensures waits <==> end == Parked && |old(writeQ.q)| == writeQ.maxLen
      ensures View(sock) == if waits then Stalled(old(View(sock)), buf.Contents(), k)
                            else Sent(old(View(sock)), buf.Contents(), k, end)
      ensures k <= |buf.Contents()| && sock.wire == old(sock.wire) + buf.Contents()[..k]
      ensures end != Parked || waits ==>
                && writeQ.q == old(writeQ.q)
                && epollCtx.Of(fd) == old(epollCtx.Of(fd)) && epollCtx.CtlsOf(fd) == old(epollCtx.CtlsOf(fd))
      ensures end == Parked && !waits ==>
                && writeQ.q == old(writeQ.q) + [buf.Contents()[k..]]
                && |epollCtx.CtlsOf(fd)| == |old(epollCtx.CtlsOf(fd))| + 1
                && (events == 1 && old(epollCtx.Of(fd)).Some? ==> epollCtx.Of(fd) == Some(Mask(true, true, true)))
      ensures epollCtx.Others(fd) == old(epollCtx.Others(fd))
    {
      SendDecided(sock.writePlan, sock.writeAt, buf.Contents());
      var len := buf.Size();
      waits, k, end := false, 0, Done;
      if len <= 0 {
        assert sock.wire + buf.Contents()[..0] == sock.wire;
        return;
      }
      ghost var data := buf.base[..];
      var total, nwrite := WriteDirectly(buf, sock);
      k, end := total, EndAfter(nwrite, sock.errno);
      if nwrite < 0 {
        if sock.errno == EAGAIN {
          assert buf.base[total..len] == data[total..];
          waits := Park(buf.base[total..len]);
        }
      }
    }

    /** The loop of `send_buf`: the bytes taken and the result of the last write. */
    method WriteDirectly(buf: Buf, sock: Socket) returns (total: nat, nwrite: int)
      requires buf.Valid() && 0 < |buf.Contents()| < TWO31
      modifies sock`writeAt, sock`wire, sock`errno
      ensures total <= |buf.Contents()| && sock.wire == old(sock.wire) + buf.Contents()[..total]
      ensures Direct(total, EndAfter(nwrite, sock.errno), sock.writeAt)
           == DirectSend(sock.writePlan, old(sock.writeAt), buf.Contents())
    {
      ghost var data, start := buf.base[..], sock.writeAt;
      total, nwrite := 0, 1;
      while total < buf.len
        invariant 0 <= total <= buf.len && nwrite > 0
        invariant sock.wire == old(sock.wire) + data[..total]
        invariant DirectWrite(sock.writePlan, sock.writeAt, total, buf.len) == DirectSend(sock.writePlan, start, data)
        decreases buf.len - total
      {
        nwrite := sock.Write(buf.base[..], total);
        if nwrite <= 0 {
          return;
        }
        assert data[..total] + data[total..total + nwrite] == data[..total + nwrite];
        total := total + nwrite;
      }
    }

    /** Queues what the kernel would not take and asks to be told when it will. */
    method Park(rest: seq<byte>) returns (waits: bool)
      requires epollCtx != null
      modifies writeQ, epollCtx
      ensures waits <==> |old(writeQ.q)| == writeQ.maxLen
      ensures writeQ.q == if waits then old(writeQ.q) else old(writeQ.q) + [rest]
      ensures !waits ==>
                && epollCtx.Of(fd) == Added(old(epollCtx.Of(fd)), events, EIO_WRITE)
                && epollCtx.CtlsOf(fd)
                   == old(epollCtx.CtlsOf(fd)) + [CtlCall(AddOp(events), old(epollCtx.Of(fd)).Some?)]
      ensures waits ==> epollCtx.Of(fd) == old(epollCtx.Of(fd)) && epollCtx.CtlsOf(fd) == old(epollCtx.CtlsOf(fd))
      ensures epollCtx.Others(fd) == old(epollCtx.Others(fd))
    {
      waits := EnqueueWriteMsg(rest);
      if waits {
        return;
      }
      epollCtx.AddEvent(EioEvent(fd, events), EIO_WRITE);
    }

    /** Receives one frame. Success means the frame at the head of the stream was taken, whatever the schedule;
        on an unbroken connection the outcome does not depend on the schedule. */
    method RecvBuf(readBuf: Buf, sock: Socket) returns (ret: int)
      requires readBuf.Valid() && Fair(sock.readPlan)
      requires Usable(setting) && Sane(setting, sock.incoming)
      modifies sock`readAt, sock`incoming, sock`errno, readBuf, readBuf.base
      ensures readBuf.Valid() && old(sock.readAt) <= sock.readAt
      ensures ret == 0 ==> Deframe(setting, old(sock.incoming)) == Got(readBuf.Contents(), sock.incoming)
      ensures Unbroken(sock.readPlan, old(sock.readAt), sock.readAt) ==>
                match Deframe(setting, old(sock.incoming))
                case Got(_, _) => ret == 0
                case Rejected(rest) => ret == -1 && sock.incoming == rest
                case Cut => ret == IO_DISCONNECT && sock.incoming == []
      ensures Unbroken(sock.readPlan, old(sock.readAt), sock.readAt) ==>
                var h := setting.fieldOffset + setting.fieldBytes;
                ret == if |old(sock.incoming)| < h then 0x8001
                       else if FrameLength(setting, old(sock.incoming)) == h then -1
                       else if |old(sock.incoming)| < FrameLength(setting, old(sock.incoming)) then 0x8001
                       else 0
    {
      ghost var stream := sock.incoming;
      var head, length;
      ret, head, length := RecvHead(sock);
      if ret != 0 {
        return;
      }
      if (length - |head|) % 0x1_0000_0000_0000_0000 <= 0 {
        return -1;
      }
      ret := RecvBody(readBuf, head, length, sock);
      JoinHeadBody(stream, |head|, length);
    }

    /** Everything up to and including the length field, and the length it announces. */
    method RecvHead(sock: Socket) returns (ret: int, head: seq<byte>, length: u32)
      requires Fair(sock.readPlan) && Usable(setting)
      modifies sock`readAt, sock`incoming, sock`errno
      ensures old(sock.readAt) <= sock.readAt
      ensures ret == 0 ==> HeadLen(setting) <= |old(sock.incoming)|
      ensures ret == 0 ==> head == old(sock.incoming)[..HeadLen(setting)]
      ensures ret == 0 ==> length == FrameLength(setting, old(sock.incoming))
      ensures ret == 0 ==> sock.incoming == old(sock.incoming)[HeadLen(setting)..]
      ensures Unbroken(sock.readPlan, old(sock.readAt), sock.readAt) ==>
                && (ret == 0 <==> HeadLen(setting) <= |old(sock.incoming)|)
                && (ret != 0 ==> ret == IO_DISCONNECT && sock.incoming == [])
    {
      ghost var stream := sock.incoming;
      head, length := [], 0;
      var headLen := setting.fieldOffset + setting.fieldBytes;
      var headBuf := new Buf(headLen);
      ret := IoRead(sock, headBuf.base, 0, headLen);
      if ret != 0 {
        return;
      }
      head := headBuf.base[..];
      assert head == stream[..headLen];
      length := ReadLength(headBuf.base);
      SameHead(setting, head, stream);
    }

    /** The rest of a frame of the given length, behind its head. */
    method RecvBody(readBuf: Buf, head: seq<byte>, length: u32, sock: Socket) returns (ret: int)
      requires readBuf.Valid() && Fair(sock.readPlan) && |head| <= length < TWO31
      modifies sock`readAt, sock`incoming, sock`errno, readBuf, readBuf.base
      ensures readBuf.Valid() && old(sock.readAt) <= sock.readAt
      ensures ret == 0 ==> length - |head| <= |old(sock.incoming)|
      ensures ret == 0 ==> readBuf.Contents() == head + old(sock.incoming)[..length - |head|]
      ensures ret == 0 ==> sock.incoming == old(sock.incoming)[length - |head|..]
      ensures Unbroken(sock.readPlan, old(sock.readAt), sock.readAt) ==>
                && (ret == 0 <==> length - |head| <= |old(sock.incoming)|)
                && (ret != 0 ==> ret == IO_DISCONNECT && sock.incoming == [])
    {
      readBuf.Resize(length);
      CopyInto(readBuf.base, 0, head);
      ghost var half, stream := readBuf.base[..], sock.incoming;
      assert half[..|head|] == head;
      ret := IoRead(sock, readBuf.base, |head|, length - |head|);
    }

    /** The length field of a head, digit by digit with shifts and ors, and its adjustment. */
    method ReadLength(head: array<byte>) returns (length: u32)
      requires Usable(setting) && head.Length == HeadLen(setting)
      ensures length == FrameLength(setting, head[..])
    {
      length := 0;
      var p := setting.fieldOffset;
      ghost var field := head[p..];
      assert field == head[..][p..HeadLen(setting)];
      for i := 0 to setting.fieldBytes
        invariant setting.coding == CODING_BIG_ENDIAN ==> length == BigEndian(field[..i])
        invariant setting.coding != CODING_BIG_ENDIAN ==> length == LittleEndian(field[..i])
      {
        assert field[..i + 1] == field[..i] + [head[p + i]];
        if setting.coding == CODING_BIG_ENDIAN {
          BigTurn(field[..i], head[p + i]);
          length := BitOr(Shl32(length, 8), head[p + i]);
        } else {
          LittleTurn(field[..i], head[p + i]);
          length := BitOr(length, Shl32(head[p + i], 8 * i));
        }
      }
      assert field[..setting.fieldBytes] == field;
      length := (length + setting.adjustment) % TWO32;
    }
  }

  lemma JoinHeadBody(stream: seq<byte>, h: nat, n: nat)
    requires h <= |stream| && h <= n
    ensures n - h <= |stream[h..]| <==> n <= |stream|
    ensures n <= |stream| ==> stream[..h] + stream[h..][..n - h] == stream[..n] && stream[h..][n - h..] == stream[n..]
  {
  }

  /** How a direct write has ended, by the result of its last write and the error number. */
  function EndAfter(nwrite: int, errno: int): End {
    if nwrite > 0 then Done else if nwrite < 0 && errno == EAGAIN then Parked else Abandoned
  }

  /** The channels of one worker, indexed by descriptor. */
  class IoCtx {
    const epollCtx: EpollCtx
    var channelArr: seq<EioChannel?>

    constructor ()
      ensures Valid() && Table() == map[] && fresh(epollCtx)
      ensures epollCtx.interest == map[] && epollCtx.ctls == map[]
    {
      epollCtx := new EpollCtx();
      channelArr := [];
    }

    /** Every stored channel sits at its own descriptor and shares its queue with no other. */
    ghost predicate Valid()
      reads this
    {
      && (forall i :: 0 <= i < |channelArr| && channelArr[i] != null ==> channelArr[i].fd == i)
      && (forall i, j :: 0 <= i < j < |channelArr| && channelArr[i] != null && channelArr[j] != null
            ==> channelArr[i].writeQ != channelArr[j].writeQ)
    }

    ghost function Table(): map<int, EioChannel>
      reads this
    {
      map i | 0 <= i < |channelArr| && channelArr[i] != null :: channelArr[i]
    }

    ghost predicate Holds(fd: int, chan: EioChannel)
      reads this
    {
      fd in Table() && Table()[fd] == chan
    }

    /** Lookup with creation on first use; growing the array changes no existing entry. */
    method GetChan(fd: int) returns (chan: EioChannel)
      requires Valid() && 0 <= fd && (fd + 1) * 2 < TWO31
      modifies this
      ensures Valid() && chan.fd == fd
      ensures Table() == old(Table())[fd := chan]
      ensures fd in old(Table()) ==> chan == old(Table())[fd]
      ensures fd !in old(Table()) ==> fresh(chan) && fresh(chan.writeQ) && chan.events == 0
      ensures fd !in old(Table()) ==> chan.writeQ.q == [] && chan.writeQ.maxLen == MAX_QUEUE == 10240
      ensures |channelArr| == if fd < |old(channelArr)| then |old(channelArr)| else (fd + 1) * 2
    {
      if fd >= |channelArr| {
        channelArr := channelArr + seq((fd + 1) * 2 - |channelArr|, _ => null);
      }
      if channelArr[fd] == null {
        chan := new EioChannel(fd);
        channelArr := channelArr[fd := chan];
      }
      chan := channelArr[fd];
    }

    /** Distinct descriptors never share a channel, nor a queue. */
    lemma DistinctChannels(i: int, c: EioChannel, j: int, d: EioChannel)
      requires Valid() && Holds(i, c) && Holds(j, d)
      ensures c == d <==> i == j
      ensures c.writeQ == d.writeQ <==> i == j
    {
      assert channelArr[i] == c && channelArr[j] == d;
    }
  }
}
