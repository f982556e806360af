/** The hand-over of a new connection to the worker that owns its descriptor. */
module Acceptor {
  import opened Bits
  import opened Epoll
  import opened Framing
  import opened Channel
  import opened Nio
  import opened Worker
  import opened WritePath
  import opened Wrappers

  predicate AreSeparate(w: IoWorker, x: IoWorker) {
    w.ioCtx != x.ioCtx && w.ioCtx.epollCtx != x.ioCtx.epollCtx
  }

  /** A worker that knows no descriptor. */
  ghost predicate NewWorker(w: IoWorker)
    reads w.ioCtx, w.ioCtx.epollCtx
  {
    w.Valid() && w.ioCtx.Table() == map[] && w.ioCtx.epollCtx.interest == map[] && w.ioCtx.epollCtx.ctls == map[]
  }

  lemma SmallMultiple(k: int, n: nat, d: nat)
    requires 0 < d < n
    ensures k * n != d
  {
    if k <= 0 {
      assert k * n <= 0;
    } else {
      assert k * n >= n;
    }
  }

  lemma KeysGrow<T>(m: map<int, T>, m': map<int, T>, fd: int)
    requires m - {fd} == m' - {fd}
    ensures m'.Keys <= m.Keys + {fd}
  {
    assert m'.Keys <= (m' - {fd}).Keys + {fd};
  }

  class IOAcceptor {
    const workers: seq<IoWorker>
    var setting: UnpackSetting
    var onMessage: Callback

    /** The acceptor with its workers, each with a table and an epoll instance of its own. */
    constructor (workerNum: nat, setting: UnpackSetting, onMessage: Callback)
      ensures this.setting == setting && this.onMessage == onMessage && |workers| == workerNum
      ensures workerNum > 0 ==> Valid()
      ensures forall i :: 0 <= i < |workers| ==>
                && NewWorker(workers[i])
                && fresh(workers[i].ioCtx) && fresh(workers[i].ioCtx.epollCtx)
    {
      var list: seq<IoWorker> := [];
      for i := 0 to workerNum
        invariant |list| == i
        invariant forall j :: 0 <= j < i ==> NewWorker(list[j]) && fresh(list[j].ioCtx) && fresh(list[j].ioCtx.epollCtx)
        invariant forall j, k :: 0 <= j < k < i ==> AreSeparate(list[j], list[k])
      {
        var worker := new IoWorker();
        list := list + [worker];
      }
      this.workers, this.setting, this.onMessage := list, setting, onMessage;
    }

    function Owner(fd: nat): nat
      requires workers != []
    {
      fd % |workers|
    }

    /** The descriptors are spread evenly: any |workers| in a row go to |workers| different workers. */
    lemma OwnersSpread(fd: nat, i: nat, j: nat)
      requires i < j < |workers|
      ensures Owner(fd + i) < |workers| && Owner(fd + i) != Owner(fd + j)
    {
      var n := |workers|;
      if Owner(fd + i) == Owner(fd + j) {
        var p, q := (fd + i) / n, (fd + j) / n;
        assert fd + i == p * n + (fd + i) % n && fd + j == q * n + (fd + j) % n;
        SmallMultiple(q - p, n, j - i);
      }
    }

    ghost function Contexts(): set<object>
    {
      (set i | 0 <= i < |workers| :: workers[i].ioCtx) + (set i | 0 <= i < |workers| :: workers[i].ioCtx.epollCtx)
    }

    ghost predicate Separate() {
      forall i, j :: 0 <= i < j < |workers| ==> AreSeparate(workers[i], workers[j])
    }

    /** These known, registered and ever mentioned descriptors are a share of the i-th worker. */
    ghost predicate OwnShare(i: nat, known: set<int>, registered: set<int>, mentioned: set<int>)
      requires i < |workers|
    {
      (forall fd: nat :: fd in known ==> Owner(fd) == i) && registered <= known && mentioned <= known
    }

    /** Worker i holds only descriptors that are i modulo the number of workers, and has registered no others. */
    ghost predicate OwnsOnly(i: nat)
      requires i < |workers|
      reads workers[i].ioCtx, workers[i].ioCtx.epollCtx
    {
      var ctx := workers[i].ioCtx;
      workers[i].Valid() && OwnShare(i, ctx.Table().Keys, ctx.epollCtx.interest.Keys, ctx.epollCtx.ctls.Keys)
    }

    /** The workers share nothing, and each has its own share of the descriptors. */
    ghost predicate Valid()
      reads Contexts()
    {
      workers != [] && Separate() && forall i :: 0 <= i < |workers| ==> OwnsOnly(i)
    }

    /** The new descriptor's channel as the acceptor leaves it with a worker. */
    twostate predicate HandedOver(worker: IoWorker, ev: EioEvent, new chan: EioChannel)
      reads this, worker.ioCtx, worker.ioCtx.epollCtx, chan, chan.writeQ
    {
      var epoll := worker.ioCtx.epollCtx;
      && worker.ioCtx.Holds(ev.fd, chan) && worker.ioCtx.Table() == old(worker.ioCtx.Table())[ev.fd := chan]
      && chan.fd == ev.fd && chan.epollCtx == epoll && chan.setting == setting && chan.onMessage == onMessage
      && epoll.Of(ev.fd) == Added(old(epoll.Of(ev.fd)), ev.events, EIO_READ)
      && epoll.CtlsOf(ev.fd) == old(epoll.CtlsOf(ev.fd)) + [CtlCall(AddOp(ev.events), old(epoll.Of(ev.fd)).Some?)]
      && epoll.Others(ev.fd) == old(epoll.Others(ev.fd))
      && (ev.fd !in old(worker.ioCtx.Table()) ==>
            && fresh(chan) && fresh(chan.writeQ) && chan.events == 0
            && chan.writeQ.q == [] && chan.writeQ.maxLen == MAX_QUEUE)
    }

    /** Sets up the channel in a worker's table and registers the descriptor there. */
    method HandOver(worker: IoWorker, ev: EioEvent) returns (chan: EioChannel)
      requires worker.Valid() && 0 <= ev.fd && (ev.fd + 1) * 2 < TWO31
      modifies worker.ioCtx, worker.ioCtx.epollCtx, worker.Touched(ev.fd)
      ensures worker.Valid() && HandedOver(worker, ev, chan)
    {
      chan := worker.GetChan(ev.fd);
      chan.setting := setting;
      chan.onMessage := onMessage;
      worker.WatchConn(ev);
    }

    /** Handing over a descriptor of its own leaves a worker with its own. */
    method HandToOwner(i: nat, ev: EioEvent) returns (chan: EioChannel)
      requires i < |workers| && OwnsOnly(i) && 0 <= ev.fd && (ev.fd + 1) * 2 < TWO31 && Owner(ev.fd) == i
      modifies workers[i].ioCtx, workers[i].ioCtx.epollCtx, workers[i].Touched(ev.fd)
      ensures OwnsOnly(i) && HandedOver(workers[i], ev, chan)
    {
      ghost var epoll := workers[i].ioCtx.epollCtx;
      ghost var interest, ctls := epoll.interest, epoll.ctls;
      chan := HandOver(workers[i], ev);
      KeysGrow(interest, epoll.interest, ev.fd);
      KeysGrow(ctls, epoll.ctls, ev.fd);
    }

    /** Sets up the channel in its owner's table and registers the new descriptor there, and nowhere else. */
    method Dispatcher(ev: EioEvent) returns (chan: EioChannel)
      requires Valid() && 0 <= ev.fd && (ev.fd + 1) * 2 < TWO31
      modifies workers[Owner(ev.fd)].ioCtx, workers[Owner(ev.fd)].ioCtx.epollCtx, workers[Owner(ev.fd)].Touched(ev.fd)
      ensures Valid() && HandedOver(workers[Owner(ev.fd)], ev, chan)
      ensures workers[ev.fd % |workers|].ioCtx.Holds(ev.fd, chan)
    {
      var index := ev.fd % |workers|;
      assert OwnsOnly(index);
      chan := HandToOwner(index, ev);
      forall j | 0 <= j < |workers| && j != index
        ensures OwnsOnly(j)
      {
        assert old(OwnsOnly(j)) && AreSeparate(workers[Min(j, index)], workers[Max(j, index)]);
      }
    }

    /** Handling an event of a descriptor of its own leaves a worker with its own. */
    method ServeOwn(i: nat, ev: EioEvent, sock: Socket, ghost chan: EioChannel, ghost s: Sys)
      returns (waits: bool, ghost ls: seq<Label>)
      requires i < |workers| && OwnsOnly(i) && Manageable(ev)
      requires workers[i].ioCtx.Holds(ev.fd, chan) && Waits(workers[i].MomentOf(chan, sock), ev.events, s)
      modifies workers[i].ioCtx, workers[i].ioCtx.epollCtx, chan, chan.writeQ, sock
      ensures OwnsOnly(i) && workers[i].ioCtx.Table() == old(workers[i].ioCtx.Table())
      ensures workers[i].ioCtx.epollCtx.interest.Keys == old(workers[i].ioCtx.epollCtx.interest.Keys)
      ensures Ran(waits, ev.events, s, old(workers[i].MomentOf(chan, sock)), workers[i].MomentOf(chan, sock), ls)
    {
      ghost var epoll := workers[i].ioCtx.epollCtx;
      ghost var ctls := epoll.ctls;
      waits, ls := workers[i].HandleEvent(ev, sock, chan, s);
      KeysGrow(ctls, epoll.ctls, ev.fd);
    }

    /** A worker handles an event of its own: the partition stays as it was. */
    method Serve(i: nat, ev: EioEvent, sock: Socket, ghost chan: EioChannel, ghost s: Sys)
      returns (waits: bool, ghost ls: seq<Label>)
      requires Valid() && i < |workers| && Manageable(ev)
      requires workers[i].ioCtx.Holds(ev.fd, chan) && Waits(workers[i].MomentOf(chan, sock), ev.events, s)
      modifies workers[i].ioCtx, workers[i].ioCtx.epollCtx, chan, chan.writeQ, sock
      ensures Valid() && workers[i].ioCtx.Table() == old(workers[i].ioCtx.Table())
      ensures workers[i].ioCtx.epollCtx.interest.Keys == old(workers[i].ioCtx.epollCtx.interest.Keys)
      ensures Ran(waits, ev.events, s, old(workers[i].MomentOf(chan, sock)), workers[i].MomentOf(chan, sock), ls)
    {
      assert OwnsOnly(i);
      waits, ls := ServeOwn(i, ev, sock, chan, s);
      forall j | 0 <= j < |workers| && j != i
        ensures OwnsOnly(j)
      {
        assert old(OwnsOnly(j)) && AreSeparate(workers[Min(i, j)], workers[Max(i, j)]);
      }
    }

    /** A connection just accepted, on a descriptor never seen before, is in the state the first step of every run
        leads to: known to its owner alone, empty, registered for input. */
    method NewConnection(fd: int, ghost sock: Socket) returns (chan: EioChannel)
      requires Valid() && 0 < fd && (fd + 1) * 2 < TWO31
      requires fd !in workers[Owner(fd)].ioCtx.Table() && sock.wire == []
      modifies workers[Owner(fd)].ioCtx, workers[Owner(fd)].ioCtx.epollCtx
      ensures Valid() && workers[Owner(fd)].ioCtx.Holds(fd, chan)
      ensures fresh(chan) && fresh(chan.writeQ)
      ensures chan.epollCtx == workers[Owner(fd)].ioCtx.epollCtx && chan.writeQ.maxLen == MAX_QUEUE
      ensures chan.setting == setting && chan.onMessage == onMessage
      ensures Legal(INIT, [Watch]) && workers[Owner(fd)].MomentOf(chan, sock).view == Exec(INIT, [Watch]).v
    {
      assert OwnsOnly(Owner(fd));
      chan := Dispatcher(EioEvent(fd, 0));
      WatchedOnly();
    }

    /** No descriptor is watched by two workers, and no channel is in two workers' tables: each channel's queue is
        drained by one thread only. */
    lemma SingleDrainer(i: nat, j: nat)
      requires Valid() && i < |workers| && j < |workers|
      ensures forall fd: nat ::
                fd in workers[i].ioCtx.epollCtx.interest && fd in workers[j].ioCtx.epollCtx.interest ==> i == j
      ensures forall fd, fd', c ::
                workers[i].ioCtx.Holds(fd, c) && workers[j].ioCtx.Holds(fd', c) ==> i == j && fd == fd'
    {
      assert OwnsOnly(i) && OwnsOnly(j);
    }
  }
}
