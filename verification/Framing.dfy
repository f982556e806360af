/** Cutting a byte stream into frames by a configurable length field, and reading RPC messages off it. */
module Framing {
  import opened Bits
  import opened Codec
  import opened Wrappers

  const CODING_LITTLE_ENDIAN := 1
  const CODING_BIG_ENDIAN := 2

  type i32 = x: int | -0x8000_0000 <= x < 0x8000_0000

  datatype UnpackSetting =
    UnpackSetting(coding: u16, bodyOffset: u32, fieldOffset: u32, fieldBytes: u32, adjustment: i32)

  const RPC_SETTING := UnpackSetting(CODING_LITTLE_ENDIAN, HEAD_LENGTH, 2, 4, 0)

  /** A length field that fits a 32-bit word, at an offset an `int` can hold. */
  predicate Usable(s: UnpackSetting) {
    s.fieldBytes <= 4 && s.fieldOffset + s.fieldBytes < TWO31
  }

  function HeadLen(s: UnpackSetting): nat {
    s.fieldOffset + s.fieldBytes
  }

  /** The length field as a number. */
  function FieldValue(s: UnpackSetting, head: seq<byte>): (v: u32)
    requires Usable(s) && HeadLen(s) <= |head|
  {
    var field := head[s.fieldOffset..HeadLen(s)];
    LittleWord(field);
    BigWord(field);
    if s.coding == CODING_BIG_ENDIAN then BigEndian(field) else LittleEndian(field)
  }

  /** The number a field of each width stands for, under either coding. */
  lemma FieldByWidth(s: UnpackSetting, head: seq<byte>)
    requires Usable(s) && HeadLen(s) <= |head|
    ensures s.fieldBytes == 0 ==> FieldValue(s, head) == 0
    ensures s.fieldBytes == 1 ==> FieldValue(s, head) == head[s.fieldOffset]
    ensures s.fieldBytes == 2 ==>
              var a: int, b: int := head[s.fieldOffset], head[s.fieldOffset + 1];
              FieldValue(s, head) == if s.coding == 2 then 0x100 * a + b else a + 0x100 * b
    ensures s.fieldBytes == 3 ==>
              var a: int, b: int, c: int := head[s.fieldOffset], head[s.fieldOffset + 1], head[s.fieldOffset + 2];
              FieldValue(s, head) == if s.coding == 2 then 0x1_0000 * a + 0x100 * b + c
                                     else a + 0x100 * b + 0x1_0000 * c
    ensures s.fieldBytes == 4 ==>
              var a: int, b: int, c: int, d: int :=
                head[s.fieldOffset], head[s.fieldOffset + 1], head[s.fieldOffset + 2], head[s.fieldOffset + 3];
              FieldValue(s, head) == if s.coding == 2 then 0x100_0000 * a + 0x1_0000 * b + 0x100 * c + d
                                     else a + 0x100 * b + 0x1_0000 * c + 0x100_0000 * d
  {
    var field := head[s.fieldOffset..HeadLen(s)];
    assert forall i :: 0 <= i < |field| ==> field[i] == head[s.fieldOffset + i];
    LittleByWidth(field);
    BigByWidth(field);
  }

  lemma LittleByWidth(s: seq<byte>)
    requires |s| <= 4
    ensures LittleEndian(s) == (if |s| > 0 then s[0] as int else 0) + (if |s| > 1 then 0x100 * (s[1] as int) else 0)
                             + (if |s| > 2 then 0x1_0000 * (s[2] as int) else 0)
                             + (if |s| > 3 then 0x100_0000 * (s[3] as int) else 0)
  {
    if |s| > 0 {
      LittleStep(s);
      if |s| > 1 {
        LittleStep(s[1..]);
        if |s| > 2 {
          LittleStep(s[2..]);
          if |s| > 3 {
            LittleStep(s[3..]);
          }
        }
      }
    }
  }

  lemma LittleStep(s: seq<byte>)
    requires s != []
    ensures LittleEndian(s) == s[0] + 0x100 * LittleEndian(s[1..])
    ensures forall i :: 0 < i < |s| ==> s[1..][i - 1] == s[i]
    ensures |s| > 1 ==> s[1..][1..] == s[2..]
  {
  }

  lemma BigByWidth(s: seq<byte>)
    requires |s| <= 4
    ensures |s| == 0 ==> BigEndian(s) == 0
    ensures |s| == 1 ==> BigEndian(s) == s[0]
    ensures |s| == 2 ==> BigEndian(s) == 0x100 * (s[0] as int) + s[1]
    ensures |s| == 3 ==> BigEndian(s) == 0x1_0000 * (s[0] as int) + 0x100 * (s[1] as int) + s[2]
    ensures |s| == 4 ==>
              BigEndian(s) == 0x100_0000 * (s[0] as int) + 0x1_0000 * (s[1] as int) + 0x100 * (s[2] as int) + s[3]
  {
    var r := Reversed(s);
    assert Reversed(r) == s;
    LittleIsReversedBig(r);
    LittleByWidth(r);
  }

  /** `length += length_adjustment` on an unsigned word. */
  function FrameLength(s: UnpackSetting, head: seq<byte>): u32
    requires Usable(s) && HeadLen(s) <= |head|
  {
    (FieldValue(s, head) + s.adjustment) % TWO32
  }

  /** The wrapping addition is the signed sum exactly when that sum is a 32-bit word. */
  lemma AdjustmentIsSignedSum(s: UnpackSetting, head: seq<byte>)
    requires Usable(s) && HeadLen(s) <= |head|
    ensures FrameLength(s, head) == FieldValue(s, head) + s.adjustment
       <==> 0 <= FieldValue(s, head) + s.adjustment < TWO32
  {
  }

  /** The coding only chooses which end of the field counts as its low end. */
  lemma CodingIsReversal(s: UnpackSetting, head: seq<byte>, head': seq<byte>)
    requires Usable(s) && HeadLen(s) <= |head| && HeadLen(s) <= |head'|
    requires head'[s.fieldOffset..HeadLen(s)] == Reversed(head[s.fieldOffset..HeadLen(s)])
    ensures FieldValue(s.(coding := CODING_LITTLE_ENDIAN), head) == FieldValue(s.(coding := CODING_BIG_ENDIAN), head')
  {
    LittleIsReversedBig(head[s.fieldOffset..HeadLen(s)]);
  }

  /** A frame announces its own size. */
  predicate IsFrame(s: UnpackSetting, f: seq<byte>)
    requires Usable(s)
  {
    HeadLen(s) < |f| < TWO31 && FrameLength(s, f) == |f|
  }

  /** Lengths the receiver computes with: not below the head, and within `int`. */
  predicate Sane(s: UnpackSetting, stream: seq<byte>)
    requires Usable(s)
  {
    HeadLen(s) <= |stream| ==> HeadLen(s) <= FrameLength(s, stream) < TWO31
  }

  datatype Received<T> =
    | Got(value: T, rest: seq<byte>)
    | Cut                          // the stream ends inside a frame
    | Rejected(rest: seq<byte>)    // the head announces no body

  /** One `recv_buf` on an unbroken connection. */
  function Deframe(s: UnpackSetting, stream: seq<byte>): Received<seq<byte>>
    requires Usable(s) && Sane(s, stream)
  {
    if |stream| < HeadLen(s) then Cut
    else
      var n := FrameLength(s, stream);
      if n == HeadLen(s) then Rejected(stream[n..])
      else if |stream| < n then Cut
      else Got(stream[..n], stream[n..])
  }

  lemma SameHead(s: UnpackSetting, x: seq<byte>, y: seq<byte>)
    requires Usable(s) && HeadLen(s) <= |x| && x <= y
    ensures FrameLength(s, x) == FrameLength(s, y)
  {
    assert x[s.fieldOffset..HeadLen(s)] == y[s.fieldOffset..HeadLen(s)];
  }

  /** A receive yields a frame exactly when that frame is what the stream starts with, and consumes nothing past it. */
  lemma DeframeExact(s: UnpackSetting, stream: seq<byte>, f: seq<byte>, rest: seq<byte>)
    requires Usable(s)
    ensures IsFrame(s, f) && stream == f + rest ==> Sane(s, stream) && Deframe(s, stream) == Got(f, rest)
    ensures Sane(s, stream) && Deframe(s, stream) == Got(f, rest) ==> IsFrame(s, f) && stream == f + rest
  {
    if IsFrame(s, f) && stream == f + rest {
      SameHead(s, f, stream);
    }
    if Sane(s, stream) && Deframe(s, stream) == Got(f, rest) {
      SameHead(s, f, stream);
    }
  }

  /** Part of a frame, however little, is waited for and never taken for anything else. */
  lemma PartOfFrameIsCut(s: UnpackSetting, f: seq<byte>, k: nat)
    requires Usable(s) && IsFrame(s, f) && k < |f|
    ensures Sane(s, f[..k]) && Deframe(s, f[..k]) == Cut
  {
    if HeadLen(s) <= k {
      SameHead(s, f[..k], f);
    }
  }

  /** The frame this stream with a whole head is part of. */
  lemma Completed(s: UnpackSetting, stream: seq<byte>) returns (f: seq<byte>)
    requires Usable(s) && Sane(s, stream) && HeadLen(s) <= |stream| && Deframe(s, stream) == Cut
    ensures IsFrame(s, f) && stream < f
  {
    f := stream + seq(FrameLength(s, stream) - |stream|, _ => 0);
    SameHead(s, stream, f);
  }

  /** Why a receive ends without a frame: the head is not there yet, the stream is part of a longer frame, or the head
      announces nothing behind it and is all that is taken. */
  lemma NoFrameExactly(s: UnpackSetting, stream: seq<byte>)
    requires Usable(s) && Sane(s, stream)
    ensures |stream| < s.fieldOffset + s.fieldBytes ==> Deframe(s, stream) == Cut
    ensures s.fieldOffset + s.fieldBytes <= |stream| ==>
              && (Deframe(s, stream) == Cut <==> exists f :: IsFrame(s, f) && stream < f)
              && (Deframe(s, stream).Rejected? <==> FrameLength(s, stream) == s.fieldOffset + s.fieldBytes)
    ensures Deframe(s, stream).Rejected? ==> Deframe(s, stream).rest == stream[s.fieldOffset + s.fieldBytes..]
  {
    if HeadLen(s) <= |stream| {
      if Deframe(s, stream) == Cut {
        var f := Completed(s, stream);
      }
      forall f | IsFrame(s, f) && stream < f
        ensures Deframe(s, stream) == Cut
      {
        PartOfFrameIsCut(s, f, |stream|);
        assert f[..|stream|] == stream;
      }
    }
  }

  function Concat<T>(ss: seq<seq<T>>): seq<T> {
    if ss == [] then [] else ss[0] + Concat(ss[1..])
  }

  lemma {:induction false} ConcatSnoc<T>(ss: seq<seq<T>>, s: seq<T>)
    ensures Concat(ss + [s]) == Concat(ss) + s
  {
    if ss == [] {
      assert Concat([s]) == s + Concat<T>([]);
    } else {
      assert (ss + [s])[1..] == ss[1..] + [s];
      ConcatSnoc(ss[1..], s);
    }
  }

  predicate AllFrames(s: UnpackSetting, fs: seq<seq<byte>>)
    requires Usable(s)
  {
    forall f :: f in fs ==> IsFrame(s, f)
  }

  /** The outcome of k successive receives: the frames and what is left, if every one succeeded. */
  function DeframeMany(s: UnpackSetting, stream: seq<byte>, k: nat): Option<(seq<seq<byte>>, seq<byte>)>
    requires Usable(s)
  {
    if k == 0 then Some(([], stream))
    else if !Sane(s, stream) then None
    else match Deframe(s, stream)
      case Got(f, rest) =>
        (match DeframeMany(s, rest, k - 1)
         case Some((fs, left)) => Some(([f] + fs, left))
         case None => None)
      case _ => None
  }

  lemma DeframeManyCons(s: UnpackSetting, stream: seq<byte>, f: seq<byte>, rest: seq<byte>,
                        fs: seq<seq<byte>>, left: seq<byte>)
    requires Usable(s) && Sane(s, stream) && Deframe(s, stream) == Got(f, rest)
    requires DeframeMany(s, rest, |fs|) == Some((fs, left))
    ensures DeframeMany(s, stream, |fs| + 1) == Some(([f] + fs, left))
  {
  }

  /** Any concatenation of frames is received as exactly those frames, in order, and nothing more is consumed. */
  lemma {:induction false} SelfDelimiting(s: UnpackSetting, fs: seq<seq<byte>>, rest: seq<byte>)
    requires Usable(s) && AllFrames(s, fs)
    ensures DeframeMany(s, Concat(fs) + rest, |fs|) == Some((fs, rest))
  {
    if fs == [] {
      assert Concat(fs) + rest == rest;
    } else {
      var left := Concat(fs[1..]) + rest;
      assert Concat(fs) + rest == fs[0] + left;
      DeframeExact(s, Concat(fs) + rest, fs[0], left);
      SelfDelimiting(s, fs[1..], rest);
      DeframeManyCons(s, Concat(fs) + rest, fs[0], left, fs[1..], rest);
      assert fs == [fs[0]] + fs[1..];
    }
  }

  /** The next frame of several is received, and the others are left. */
  lemma FrameByFrame(s: UnpackSetting, fs: seq<seq<byte>>)
    requires Usable(s) && AllFrames(s, fs) && fs != []
    ensures Sane(s, Concat(fs)) && Deframe(s, Concat(fs)) == Got(fs[0], Concat(fs[1..]))
  {
    DeframeExact(s, Concat(fs), fs[0], Concat(fs[1..]));
  }

  /** No frame is a proper prefix of another. */
  lemma PrefixFree(s: UnpackSetting, f: seq<byte>, g: seq<byte>)
    requires Usable(s) && IsFrame(s, f) && IsFrame(s, g) && f <= g
    ensures f == g
  {
    SameHead(s, f, g);
  }

  lemma FramesOccupy(s: UnpackSetting, fs: seq<seq<byte>>)
    requires Usable(s) && AllFrames(s, fs)
    ensures Concat(fs) == [] <==> fs == []
  {
    if fs != [] {
      assert fs[0] in fs;
    }
  }

  /** A concatenation of frames has exactly one decomposition. */
  lemma {:induction false} UniqueDecomposition(s: UnpackSetting, fs: seq<seq<byte>>, gs: seq<seq<byte>>)
    requires Usable(s) && AllFrames(s, fs) && AllFrames(s, gs)
    requires Concat(fs) == Concat(gs)
    ensures fs == gs
  {
    FramesOccupy(s, fs);
    FramesOccupy(s, gs);
    if fs != [] && gs != [] {
      var c := Concat(fs);
      assert c == fs[0] + Concat(fs[1..]) == gs[0] + Concat(gs[1..]);
      DeframeExact(s, c, fs[0], Concat(fs[1..]));
      DeframeExact(s, c, gs[0], Concat(gs[1..]));
      UniqueDecomposition(s, fs[1..], gs[1..]);
      assert fs == [fs[0]] + fs[1..] && gs == [gs[0]] + gs[1..];
    }
  }

  lemma LittleFour(a: byte, b: byte, c: byte, d: byte)
    ensures LittleEndian([a, b, c, d]) == a + 0x100 * (b as int) + 0x1_0000 * (c as int) + 0x100_0000 * (d as int)
  {
    assert [a, b, c, d][1..] == [b, c, d] && [b, c, d][1..] == [c, d] && [c, d][1..] == [d];
    assert LittleEndian([d]) == d && LittleEndian([c, d]) == c + 0x100 * (d as int);
  }

  lemma RpcField(f: seq<byte>)
    requires HEAD_LENGTH <= |f|
    ensures FrameLength(RPC_SETTING, f) == Get32(f, 2)
  {
    assert f[2..6] == [f[2], f[3], f[4], f[5]];
    LittleFour(f[2], f[3], f[4], f[5]);
  }

  /** With the default setting the framing layer cuts the stream exactly at RPC frame boundaries. */
  lemma RpcFrames(f: seq<byte>)
    requires CoversJson(f)
    ensures Usable(RPC_SETTING) && IsFrame(RPC_SETTING, f)
  {
    RpcField(f);
  }

  /** Streams `recv_data` can read in bounds. */
  predicate Receivable(stream: seq<byte>) {
    HEAD_LENGTH <= |stream| ==>
      var n := Get32(stream, 2);
      && HEAD_LENGTH <= n < TWO31
      && (HEAD_LENGTH < n <= |stream| ==> CoversJson(stream[..n]))
  }

  /** One `recv_data` into a message that held `held`, on an unbroken connection. */
  function Receive(stream: seq<byte>, held: Msg): Received<Msg>
    requires Receivable(stream)
  {
    if |stream| < HEAD_LENGTH then Cut
    else
      var n := Get32(stream, 2);
      if n == HEAD_LENGTH then Rejected(stream[n..])
      else if |stream| < n then Cut
      else Got(UnpackInTwoOnto(stream[..n], held), stream[n..])
  }

  /** Reading head and body apart refines reading the frame whole: the same frames are cut off the stream, and
      the message is the same if and only if the frame has room for its tail, and carries JSON or the receiver
      held none. */
  lemma TwoPhaseRefinesOneShot(stream: seq<byte>, held: Msg)
    requires Receivable(stream)
    ensures Usable(RPC_SETTING)
    ensures |stream| < 10 ==> Receive(stream, held) == Cut
    ensures HEAD_LENGTH <= |stream| ==> Sane(RPC_SETTING, stream)
    ensures HEAD_LENGTH <= |stream| ==>
              match Deframe(RPC_SETTING, stream)
              case Cut => Receive(stream, held).Cut?
              case Rejected(_) => false
              case Got(f, rest) =>
                if |f| == HEAD_LENGTH then Receive(stream, held) == Rejected(rest)
                else
                  && CoversJson(f) && Receive(stream, held).Got? && Receive(stream, held).rest == rest
                  && (UnpackOnto(f, held) == Some(Receive(stream, held).value)
                      <==> Complete(f) && (JsonLen(f) >= 1 || held.json == []))
  {
    if HEAD_LENGTH <= |stream| {
      RpcField(stream);
      var n := Get32(stream, 2);
      if HEAD_LENGTH < n <= |stream| {
        TwoUnpackersAgree(stream[..n], held);
      }
    }
  }

  /** A frame on which they part although it carries JSON. */
  lemma ShortFrameReceived(held: Msg)
    ensures Receivable(SHORT_FRAME) && Deframe(RPC_SETTING, SHORT_FRAME) == Got(SHORT_FRAME, [])
    ensures Receive(SHORT_FRAME, held) == Got(Msg(0, 0, 0, [0x7B], held.bin), [])
    ensures UnpackOnto(SHORT_FRAME, held) == None
  {
    ShortFrame(held);
    RpcField(SHORT_FRAME);
    assert SHORT_FRAME[..13] == SHORT_FRAME;
  }

  /** k receives into fresh messages. */
  function ReceiveMany(stream: seq<byte>, msgTypes: seq<u16>): Option<(seq<Msg>, seq<byte>)> {
    if msgTypes == [] then Some(([], stream))
    else if !Receivable(stream) then None
    else match Receive(stream, Fresh(msgTypes[0]))
      case Got(m, rest) =>
        (match ReceiveMany(rest, msgTypes[1..])
         case Some((ms, left)) => Some(([m] + ms, left))
         case None => None)
      case _ => None
  }

  /** k receives succeed exactly when the first does and the others do on what it leaves. */
  lemma ReceiveManyCons(stream: seq<byte>, msgTypes: seq<u16>)
    requires msgTypes != []
    ensures ReceiveMany(stream, msgTypes).Some? ==> Receivable(stream) && Receive(stream, Fresh(msgTypes[0])).Got?
    ensures Receivable(stream) && Receive(stream, Fresh(msgTypes[0])).Got? ==>
              var r := Receive(stream, Fresh(msgTypes[0]));
              var more := ReceiveMany(r.rest, msgTypes[1..]);
              if more.Some? then ReceiveMany(stream, msgTypes) == Some(([r.value] + more.value.0, more.value.1))
              else ReceiveMany(stream, msgTypes) == None
  {
  }

  predicate Yields(stream: seq<byte>, held: Msg, m: Msg, next: seq<byte>) {
    Receivable(stream) && Receive(stream, held) == Got(m, next)
  }

  lemma ReceiveThen(stream: seq<byte>, msgTypes: seq<u16>, m: Msg, next: seq<byte>, ms: seq<Msg>, left: seq<byte>)
    requires msgTypes != [] && Yields(stream, Fresh(msgTypes[0]), m, next)
    requires ReceiveMany(next, msgTypes[1..]) == Some((ms, left))
    ensures ReceiveMany(stream, msgTypes) == Some(([m] + ms, left))
  {
  }

  predicate Sendable(m: Msg) {
    1 <= |m.json| <= MAX_JSON && Representable(m)
  }

  predicate AllSendable(ms: seq<Msg>) {
    forall i :: 0 <= i < |ms| ==> Sendable(ms[i])
  }

  function Frames(ms: seq<Msg>, tail: u16): (fs: seq<seq<byte>>)
    requires AllSendable(ms)
    ensures |fs| == |ms|
  {
    if ms == [] then [] else [Encode(ms[0], tail)] + Frames(ms[1..], tail)
  }

  lemma {:induction false} FrameAt(ms: seq<Msg>, tail: u16, i: nat)
    requires AllSendable(ms) && i < |ms|
    ensures Frames(ms, tail)[i] == Encode(ms[i], tail)
    decreases i
  {
    if i > 0 {
      FrameAt(ms[1..], tail, i - 1);
    }
  }

  lemma FramesJoin(ms: seq<Msg>, more: seq<Msg>, tail: u16)
    requires AllSendable(ms) && AllSendable(more)
    ensures AllSendable(ms + more) && Frames(ms + more, tail) == Frames(ms, tail) + Frames(more, tail)
  {
    var joined := Frames(ms, tail) + Frames(more, tail);
    forall i | 0 <= i < |ms + more|
      ensures Frames(ms + more, tail)[i] == joined[i]
    {
      FrameAt(ms + more, tail, i);
      if i < |ms| {
        FrameAt(ms, tail, i);
      } else {
        FrameAt(more, tail, i - |ms|);
      }
    }
  }

  lemma FramesSnoc(ms: seq<Msg>, m: Msg, tail: u16)
    requires AllSendable(ms) && Sendable(m)
    ensures AllSendable(ms + [m]) && Frames(ms + [m], tail) == Frames(ms, tail) + [Encode(m, tail)]
  {
    FramesJoin(ms, [m], tail);
    assert [m][1..] == [];
  }

  lemma {:induction false} FramesAreFrames(ms: seq<Msg>, tail: u16)
    requires AllSendable(ms)
    ensures Usable(RPC_SETTING) && AllFrames(RPC_SETTING, Frames(ms, tail))
  {
    var fs := Frames(ms, tail);
    forall f | f in fs
      ensures IsFrame(RPC_SETTING, f)
    {
      var i :| 0 <= i < |fs| && fs[i] == f;
      FrameAt(ms, tail, i);
      Layout(ms[i], tail);
      RpcFrames(f);
    }
  }

  /** Equal streams of packed messages come from equal lists of messages. */
  lemma UniqueMessages(ms: seq<Msg>, ns: seq<Msg>, tail: u16)
    requires AllSendable(ms) && AllSendable(ns)
    requires Concat(Frames(ms, tail)) == Concat(Frames(ns, tail))
    ensures ms == ns
  {
    FramesAreFrames(ms, tail);
    FramesAreFrames(ns, tail);
    UniqueDecomposition(RPC_SETTING, Frames(ms, tail), Frames(ns, tail));
    forall i | 0 <= i < |ms|
      ensures ms[i] == ns[i]
    {
      FrameAt(ms, tail, i);
      FrameAt(ns, tail, i);
      EncodeInjective(ms[i], ns[i], tail);
    }
  }

  lemma ReceiveOne(m: Msg, tail: u16, rest: seq<byte>, held: Msg)
    requires Sendable(m) && held.bin == []
    ensures Receivable(Encode(m, tail) + rest)
    ensures Receive(Encode(m, tail) + rest, held) == Got(m, rest)
  {
    var f := Encode(m, tail);
    Layout(m, tail);
    RoundTrip(m, tail, held);
    assert (f + rest)[..|f|] == f && (f + rest)[|f|..] == rest;
    assert Get32(f + rest, 2) == Get32(f, 2);
  }

  lemma FramesCons(ms: seq<Msg>, tail: u16, rest: seq<byte>)
    requires AllSendable(ms) && ms != []
    ensures Concat(Frames(ms, tail)) + rest == Encode(ms[0], tail) + (Concat(Frames(ms[1..], tail)) + rest)
  {
    assert Frames(ms, tail)[1..] == Frames(ms[1..], tail);
  }

  lemma ReceiveFirst(ms: seq<Msg>, tail: u16, rest: seq<byte>, held: Msg)
    requires AllSendable(ms) && ms != [] && held.bin == []
    ensures var stream := Concat(Frames(ms, tail)) + rest;
            Receivable(stream) && Receive(stream, held) == Got(ms[0], Concat(Frames(ms[1..], tail)) + rest)
  {
    FramesCons(ms, tail, rest);
    ReceiveOne(ms[0], tail, Concat(Frames(ms[1..], tail)) + rest, held);
  }

  lemma FirstYields(ms: seq<Msg>, tail: u16, rest: seq<byte>, msgType: u16)
    requires AllSendable(ms) && ms != []
    ensures AllSendable(ms[1..])
    ensures Yields(Concat(Frames(ms, tail)) + rest, Fresh(msgType), ms[0], Concat(Frames(ms[1..], tail)) + rest)
  {
    ReceiveFirst(ms, tail, rest, Fresh(msgType));
  }

  lemma ReceiveRest(stream: seq<byte>, next: seq<byte>, msgTypes: seq<u16>, ms: seq<Msg>, rest: seq<byte>)
    requires ms != [] && msgTypes != [] && Yields(stream, Fresh(msgTypes[0]), ms[0], next)
    requires ReceiveMany(next, msgTypes[1..]) == Some((ms[1..], rest))
    ensures ReceiveMany(stream, msgTypes) == Some((ms, rest))
  {
    FirstAndRest(ms);
    ReceiveThen(stream, msgTypes, ms[0], next, ms[1..], rest);
  }

  lemma FirstAndRest<T>(s: seq<T>)
    requires s != []
    ensures [s[0]] + s[1..] == s
  {
  }

  /** Back-to-back packed messages are received as exactly those messages, leaving the rest of the stream. */
  lemma {:induction false} ReceiveAll(ms: seq<Msg>, tail: u16, rest: seq<byte>, msgTypes: seq<u16>)
    requires |msgTypes| == |ms| && AllSendable(ms)
    ensures ReceiveMany(Concat(Frames(ms, tail)) + rest, msgTypes) == Some((ms, rest))
    decreases |ms|
  {
    if ms == [] {
      assert Concat(Frames(ms, tail)) + rest == rest;
    } else {
      FirstYields(ms, tail, rest, msgTypes[0]);
      ReceiveAll(ms[1..], tail, rest, msgTypes[1..]);
      ReceiveRest(Concat(Frames(ms, tail)) + rest, Concat(Frames(ms[1..], tail)) + rest, msgTypes, ms, rest);
    }
  }
}
