/** The interest set of an epoll instance and the calls that change it. */
module Epoll {
  import opened Wrappers

  const EIO_READ := 0x0001
  const EIO_WRITE := 0x0004

  /** `events & bit` for the single-bit constants above. */
  predicate Has(events: nat, bit: nat)
    requires bit > 0
  {
    events / bit % 2 == 1
  }

  /** The bits EPOLLIN, EPOLLOUT and EPOLLET. */
  datatype Mask = Mask(input: bool, output: bool, edge: bool)

  datatype EioEvent = EioEvent(fd: int, events: nat)

  datatype Op = Add | Mod

  /** A call of epoll_ctl on a descriptor and whether that was registered when it was made. */
  datatype CtlCall = CtlCall(op: Op, registered: bool)

  /** epoll_ctl on one descriptor: ADD fails on a registered one (EEXIST), MOD on an unregistered one (ENOENT). */
  function Controlled(current: Option<Mask>, op: Op, mask: Mask): Option<Mask> {
    if current.Some? == op.Mod? then Some(mask) else current
  }

  /** The mask bits asked for by EIO_* bits. */
  function MaskOf(events: nat): Mask {
    Mask(Has(events, EIO_READ), Has(events, EIO_WRITE), true)
  }

  function Union(a: Mask, b: Mask): Mask {
    Mask(a.input || b.input, a.output || b.output, a.edge || b.edge)
  }

  /** The call `add_event` makes: an event value of 0 means the descriptor is new. */
  function AddOp(known: nat): Op {
    if known == 0 then Add else Mod
  }

  function Added(current: Option<Mask>, known: nat, events: nat): Option<Mask> {
    Controlled(current, AddOp(known), Union(MaskOf(known), MaskOf(events)))
  }

  function Modified(current: Option<Mask>, events: nat): Option<Mask> {
    Controlled(current, Mod, MaskOf(events))
  }

  class EpollCtx {
    var interest: map<int, Mask>
    ghost var ctls: map<int, seq<CtlCall>>   // the epoll_ctl calls made on each descriptor

    constructor ()
      ensures interest == map[] && ctls == map[]
    {
      interest, ctls := map[], map[];
    }

    function Of(fd: int): Option<Mask>
      reads this
    {
      if fd in interest then Some(interest[fd]) else None
    }

    ghost function CtlsOf(fd: int): seq<CtlCall>
      reads this
    {
      if fd in ctls then ctls[fd] else []
    }

    /** The interest set and the calls made, but for one descriptor. */
    ghost function Others(fd: int): (map<int, Mask>, map<int, seq<CtlCall>>)
      reads this
    {
      (interest - {fd}, ctls - {fd})
    }

    /** epoll_ctl. Only the given descriptor is affected. */
    method Ctl(op: Op, fd: int, mask: Mask)
      modifies this
      ensures Of(fd) == Controlled(old(Of(fd)), op, mask)
      ensures Of(fd) == match op
                        case Add => if old(Of(fd)) == None then Some(mask) else old(Of(fd))
                        case Mod => if old(Of(fd)) == None then None else Some(mask)
      ensures CtlsOf(fd) == old(CtlsOf(fd)) + [CtlCall(op, old(Of(fd)).Some?)]
      ensures Others(fd) == old(Others(fd))
    {
      ctls := ctls[fd := CtlsOf(fd) + [CtlCall(op, fd in interest)]];
      assert ctls - {fd} == old(ctls - {fd});
      if (fd in interest) == op.Mod? {
        interest := interest[fd := mask];
      }
      assert interest - {fd} == old(interest - {fd});
    }

    method AddEvent(ev: EioEvent, events: nat)
      modifies this
      ensures Of(ev.fd) == Added(old(Of(ev.fd)), ev.events, events)
      ensures var mask := Mask(ev.events % 2 == 1 || events % 2 == 1,
                               ev.events / 4 % 2 == 1 || events / 4 % 2 == 1, true);
              Of(ev.fd) == if old(Of(ev.fd)).Some? == (ev.events != 0) then Some(mask) else old(Of(ev.fd))
      ensures |CtlsOf(ev.fd)| == |old(CtlsOf(ev.fd))| + 1
      ensures CtlsOf(ev.fd) == old(CtlsOf(ev.fd)) + [CtlCall(AddOp(ev.events), old(Of(ev.fd)).Some?)]
      ensures Others(ev.fd) == old(Others(ev.fd))
    {
      var op := if ev.events == 0 then Add else Mod;
      var ee := Mask(false, false, false);
      if Has(ev.events, EIO_READ) {
        ee := ee.(input := true);
      }
      if Has(ev.events, EIO_WRITE) {
        ee := ee.(output := true);
      }
      if Has(events, EIO_READ) {
        ee := ee.(input := true);
      }
      if Has(events, EIO_WRITE) {
        ee := ee.(output := true);
      }
      ee := ee.(edge := true);
      Ctl(op, ev.fd, ee);
    }

    method ModifyEvent(fd: int, events: nat)
      modifies this
      ensures Of(fd) == Modified(old(Of(fd)), events)
      ensures Of(fd) == if old(Of(fd)) == None then None
                        else Some(Mask(events % 2 == 1, events / 4 % 2 == 1, true))
      ensures CtlsOf(fd) == old(CtlsOf(fd)) + [CtlCall(Mod, old(Of(fd)).Some?)]
      ensures Others(fd) == old(Others(fd))
    {
      var ee := Mask(false, false, false);
      if Has(events, EIO_READ) {
        ee := ee.(input := true);
      }
      if Has(events, EIO_WRITE) {
        ee := ee.(output := true);
      }
      ee := ee.(edge := true);
      Ctl(Mod, fd, ee);
    }
  }

  /** A descriptor epoll_wait reports ready. */
  datatype Ready = Ready(fd: int, input: bool, output: bool)

  /** What `wait_events` makes of one ready descriptor: readiness to write is passed on only when there is
      nothing to read, and readiness for neither not at all. */
  function Classified(r: Ready): seq<EioEvent> {
    if r.input then [EioEvent(r.fd, EIO_READ)] else if r.output then [EioEvent(r.fd, EIO_WRITE)] else []
  }

  function AllClassified(ready: seq<Ready>): seq<EioEvent> {
    if ready == [] then [] else AllClassified(ready[..|ready| - 1]) + Classified(ready[|ready| - 1])
  }

  /** The events are those of the first n entries, one for each that is ready for anything, at these indices. */
  predicate Listed(ready: seq<Ready>, n: nat, events: seq<EioEvent>, at: seq<nat>)
    requires n <= |ready|
  {
    && |at| == |events| && (forall k :: 0 <= k < |at| ==> at[k] < n)
    && (forall j, k :: 0 <= j < k < |at| ==> at[j] < at[k])
    && (forall i :: 0 <= i < n ==> (i in at <==> ready[i].input || ready[i].output))
    && (forall k :: 0 <= k < |at| ==> events[k] == EioEvent(ready[at[k]].fd, if ready[at[k]].input then 1 else 4))
  }

  lemma ListedFurther(ready: seq<Ready>, n: nat, events: seq<EioEvent>, at: seq<nat>)
    requires n < |ready| && Listed(ready, n, events, at)
    ensures var r := ready[n];
            if r.input then Listed(ready, n + 1, events + [EioEvent(r.fd, 1)], at + [n])
            else if r.output then Listed(ready, n + 1, events + [EioEvent(r.fd, 4)], at + [n])
            else Listed(ready, n + 1, events, at)
  {
    assert n !in at;
    assert forall i :: i in at + [n] <==> i in at || i == n;
  }

  /** One event for each descriptor that is ready for anything, in the order reported; `at` tells which it is for. */
  method WaitEvents(ready: seq<Ready>) returns (events: seq<EioEvent>, ghost at: seq<nat>)
    ensures events == AllClassified(ready)
    ensures |at| == |events| && forall k :: 0 <= k < |at| ==> at[k] < |ready|
    ensures forall j, k :: 0 <= j < k < |at| ==> at[j] < at[k]
    ensures forall i :: 0 <= i < |ready| ==> (i in at <==> ready[i].input || ready[i].output)
    ensures forall k :: 0 <= k < |at| ==> events[k] == EioEvent(ready[at[k]].fd, if ready[at[k]].input then 1 else 4)
  {
    events, at := [], [];
    for i := 0 to |ready|
      invariant events == AllClassified(ready[..i]) && Listed(ready, i, events, at)
    {
      assert ready[..i + 1][..i] == ready[..i];
      ListedFurther(ready, i, events, at);
      if ready[i].input {
        events := events + [EioEvent(ready[i].fd, EIO_READ)];
        at := at + [i];
      } else if ready[i].output {
        events := events + [EioEvent(ready[i].fd, EIO_WRITE)];
        at := at + [i];
      }
    }
    assert ready[..|ready|] == ready;
  }

  /** Of a descriptor that is ready for both, the worker is told only to read. */
  lemma {:induction false} EventsClassify(ready: seq<Ready>, e: EioEvent)
    ensures e in AllClassified(ready) <==>
              exists r :: r in ready && r.fd == e.fd
                          && ((r.input && e.events == EIO_READ) || (!r.input && r.output && e.events == EIO_WRITE))
  {
    if ready != [] {
      EventsClassify(ready[..|ready| - 1], e);
      assert ready == ready[..|ready| - 1] + [ready[|ready| - 1]];
    }
  }
}
