/** Blocking transfer loops over a socket that answers as it pleases. */
module Nio {
  import opened Bits

  const EAGAIN := 11
  const IO_DISCONNECT := 0x8001

  /** An error number other than EAGAIN. */
  type Errno = e: int | e > 0 && e != EAGAIN witness 4

  type Count = n: int | n > 0 witness 1

  /** One answer of the kernel to a `read` or `write`: move up to n bytes, EAGAIN, 0, or a hard error. */
  datatype Answer = Moves(n: Count) | Again | Zero | Fails(err: Errno)

  /** Every answer the kernel will ever give, in order: an arbitrary schedule. */
  type Plan = nat -> Answer

  ghost predicate AnswersFrom(plan: Plan, i: nat) {
    exists j: nat :: i <= j && plan(j) != Again
  }

  /** EAGAIN is never answered forever. */
  ghost predicate Fair(plan: Plan) {
    forall i: nat :: AnswersFrom(plan, i)
  }

  /** These answers do not break the connection: short transfers and EAGAIN only. */
  ghost predicate Unbroken(plan: Plan, from: nat, to: nat) {
    forall i: nat :: from <= i < to ==> plan(i).Moves? || plan(i).Again?
  }

  lemma UnbrokenJoin(plan: Plan, from: nat, mid: nat, to: nat)
    requires from <= mid <= to
    ensures Unbroken(plan, from, to) <==> Unbroken(plan, from, mid) && Unbroken(plan, mid, to)
  {
  }

  /** The connection never breaks. */
  ghost predicate Reliable(plan: Plan) {
    forall i: nat :: plan(i).Moves? || plan(i).Again?
  }

  /** A kernel that neither fails nor answers EAGAIN for ever. */
  ghost predicate Willing(plan: Plan) {
    Fair(plan) && Reliable(plan)
  }

  /** A later position at which the kernel answers something. */
  ghost function NextAnswer(plan: Plan, i: nat): (j: nat)
    requires Fair(plan)
    ensures i <= j && plan(j) != Again
  {
    assert AnswersFrom(plan, i);
    var j: nat :| i <= j && plan(j) != Again;
    j
  }

  function Max(a: int, b: int): int {
    if a < b then b else a
  }

  function Min(a: int, b: int): int {
    if a < b then a else b
  }

  /** What a connected descriptor refers to: bytes still to arrive, bytes already sent. */
  class Socket {
    const readPlan: Plan
    const writePlan: Plan
    var readAt: nat
    var writeAt: nat
    var incoming: seq<byte>
    var wire: seq<byte>
    var errno: int

    constructor (readPlan: Plan, writePlan: Plan, incoming: seq<byte>)
      ensures this.readPlan == readPlan && this.writePlan == writePlan
      ensures this.incoming == incoming && wire == []
    {
      this.readPlan, this.writePlan, this.incoming := readPlan, writePlan, incoming;
      wire, readAt, writeAt, errno := [], 0, 0, 0;
    }

    /** `read(fd, buf + off, want)`; the end of the stream answers 0. */
    method Read(buf: array<byte>, off: nat, want: nat) returns (n: int)
      requires 0 < want && off + want <= buf.Length
      modifies `readAt, `incoming, `errno, buf
      ensures readAt == old(readAt) + 1
      ensures n > 0 ==> n <= want && n <= |old(incoming)| && incoming == old(incoming)[n..]
      ensures n > 0 ==> buf[..] == Filled(old(buf[..]), off, old(incoming), n)
      ensures n <= 0 ==> incoming == old(incoming) && buf[..] == old(buf[..])
      ensures n == 0 <==> readPlan(old(readAt)).Zero? || (readPlan(old(readAt)).Moves? && old(incoming) == [])
      ensures n < 0 ==> (if errno == EAGAIN then readPlan(old(readAt)).Again?
                         else readPlan(old(readAt)).Fails? && errno == readPlan(old(readAt)).err)
    {
      var answer := readPlan(readAt);
      readAt := readAt + 1;
      match answer {
        case Moves(k) =>
          n := Min(Min(k, want), |incoming|);
          forall i | 0 <= i < n {
            buf[off + i] := incoming[i];
          }
          incoming := incoming[n..];
        case Again => n, errno := -1, EAGAIN;
        case Zero => n := 0;
        case Fails(err) => n, errno := -1, err;
      }
    }

    /** `write(fd, data + off, |data| - off)`. */
    method Write(data: seq<byte>, off: nat) returns (n: int)
      requires off < |data|
      modifies `writeAt, `wire, `errno
      ensures writeAt == old(writeAt) + 1
      ensures n > 0 <==> writePlan(old(writeAt)).Moves?
      ensures n > 0 ==> n == Min(writePlan(old(writeAt)).n, |data| - off) && wire == old(wire) + data[off..off + n]
      ensures n <= 0 ==> wire == old(wire)
      ensures n == 0 <==> writePlan(old(writeAt)).Zero?
      ensures n < 0 ==> (if errno == EAGAIN then writePlan(old(writeAt)).Again?
                         else writePlan(old(writeAt)).Fails? && errno == writePlan(old(writeAt)).err)
    {
      var answer := writePlan(writeAt);
      writeAt := writeAt + 1;
      match answer {
        case Moves(k) =>
          n := Min(k, |data| - off);
          wire := wire + data[off..off + n];
        case Again => n, errno := -1, EAGAIN;
        case Zero => n := 0;
        case Fails(err) => n, errno := -1, err;
      }
    }
  }

  /** The number of bytes a call moved, read off the socket before and after. */
  function Moved(longer: seq<byte>, shorter: seq<byte>): int {
    |longer| - |shorter|
  }

  /** The contents of a buffer after the first t bytes of a stream were put at `off`. */
  function Filled(before: seq<byte>, off: nat, stream: seq<byte>, t: nat): (now: seq<byte>)
    requires off + t <= |before| && t <= |stream|
    ensures |now| == |before|
  {
    before[..off] + stream[..t] + before[off + t..]
  }

  lemma FilledAt(before: seq<byte>, off: nat, stream: seq<byte>, t: nat, i: nat)
    requires off + t <= |before| && t <= |stream| && i < |before|
    ensures Filled(before, off, stream, t)[i] == if off <= i < off + t then stream[i - off] else before[i]
  {
  }

  /** Putting the next n bytes of the stream behind the first t of them fills the first t + n. */
  lemma FilledFurther(before: seq<byte>, off: nat, stream: seq<byte>, t: nat, n: nat)
    requires off + t + n <= |before| && t + n <= |stream|
    ensures Filled(Filled(before, off, stream, t), off + t, stream[t..], n) == Filled(before, off, stream, t + n)
    ensures stream[t..][n..] == stream[t + n..]
  {
  }

  /** Fills `buf[off..off + len]` from the stream, waiting out EAGAIN. Whatever the schedule, the bytes
      consumed are the next bytes of the stream, put in place; 0 is returned exactly when all arrived. */
  method IoRead(sock: Socket, buf: array<byte>, off: nat, len: int) returns (ret: int)
    requires off <= buf.Length && off + len <= buf.Length
    requires Fair(sock.readPlan)
    modifies sock`readAt, sock`incoming, sock`errno, buf
    ensures var n := Moved(old(sock.incoming), sock.incoming);
            && 0 <= n <= |old(sock.incoming)|
            && sock.incoming == old(sock.incoming)[n..]
            && (ret == 0 <==> len <= n)
            && n <= Max(len, 0)
            && buf[..] == Filled(old(buf[..]), off, old(sock.incoming), n)
    ensures Unbroken(sock.readPlan, old(sock.readAt), sock.readAt) ==>
              && (ret == 0 <==> len <= |old(sock.incoming)|)
              && (ret != 0 ==> ret == IO_DISCONNECT && sock.incoming == [])
    ensures old(sock.readAt) <= sock.readAt
    ensures ret != 0 ==> old(sock.readAt) < sock.readAt
    ensures ret != 0 ==> ret == match sock.readPlan(sock.readAt - 1) case Fails(err) => err case _ => 0x8001
  {
    var total := 0;
    ghost var stream := sock.incoming;
    ghost var before := buf[..];
    ghost var until := NextAnswer(sock.readPlan, sock.readAt);
    while total < len
      invariant 0 <= total <= |stream| && total <= Max(len, 0) && sock.incoming == stream[total..]
      invariant buf[..] == Filled(before, off, stream, total)
      invariant old(sock.readAt) <= sock.readAt <= until && sock.readPlan(until) != Again
      decreases len - total, until - sock.readAt
    {
      var nread := sock.Read(buf, off + total, len - total);
      if nread == 0 {
        return IO_DISCONNECT;
      } else if nread < 0 {
        var err := sock.errno;
        if err == EAGAIN {
          continue;
        }
        return err;
      }
      FilledFurther(before, off, stream, total, nread);
      total := total + nread;
      until := NextAnswer(sock.readPlan, sock.readAt);
    }
    return 0;
  }

  /** Sends all of `data`, waiting out EAGAIN. Whatever the schedule, what reaches the wire is a prefix
      of it, and 0 is returned exactly when that is all of it. */
  method IoWrite(sock: Socket, data: seq<byte>) returns (ret: int)
    requires |data| < TWO31
    requires Fair(sock.writePlan)
    modifies sock`writeAt, sock`wire, sock`errno
    ensures var n := Moved(sock.wire, old(sock.wire));
            && 0 <= n <= |data|
            && sock.wire == old(sock.wire) + data[..n]
            && (ret == 0 <==> n == |data|)
    ensures Unbroken(sock.writePlan, old(sock.writeAt), sock.writeAt) <==> ret == 0
    ensures old(sock.writeAt) <= sock.writeAt
    ensures data != [] ==> old(sock.writeAt) < sock.writeAt
    ensures ret != 0 ==> ret == match sock.writePlan(sock.writeAt - 1) case Fails(err) => err case _ => 0x8001
  {
    if |data| <= 0 {
      return 0;
    }
    var total := 0;
    ghost var before := sock.wire;
    ghost var until := NextAnswer(sock.writePlan, sock.writeAt);
    while total < |data|
      invariant 0 <= total <= |data| && sock.wire == before + data[..total]
      invariant old(sock.writeAt) <= sock.writeAt <= until && sock.writePlan(until) != Again
      invariant Unbroken(sock.writePlan, old(sock.writeAt), sock.writeAt)
      invariant total > 0 ==> old(sock.writeAt) < sock.writeAt
      decreases |data| - total, until - sock.writeAt
    {
      var nwrite := sock.Write(data, total);
      if nwrite == 0 {
        return IO_DISCONNECT;
      } else if nwrite < 0 {
        var err := sock.errno;
        if err == EAGAIN {
          continue;
        }
        return err;
      }
      assert data[..total] + data[total..total + nwrite] == data[..total + nwrite];
      total := total + nwrite;
      until := NextAnswer(sock.writePlan, sock.writeAt);
    }
    return 0;
  }
}
