/** The RPC message object: packing in place, unpacking in place, and its exchange over a socket. */
module Protocol {
  import opened Bits
  import opened Codec
  import opened Framing
  import opened Buffer
  import opened Nio
  import opened Wrappers

  /** A buffer whose first |done| bytes have been overwritten by `done`. */
  function Written(before: seq<byte>, done: seq<byte>): seq<byte>
    requires |done| <= |before|
  {
    done + before[|done|..]
  }

  lemma WrittenFurther(before: seq<byte>, done: seq<byte>, more: seq<byte>)
    requires |done| + |more| <= |before|
    ensures var now := Written(before, done);
            (now[..|done|] + more + now[|done| + |more|..] == Written(before, done + more))
  {
  }

  /** Stores a 16-bit word low byte first: `*p++ = x & 0xFF; *p++ = (x >> 8) & 0xFF;`. */
  method Put16(buf: array<byte>, p: nat, x: u16, ghost before: seq<byte>, ghost done: seq<byte>) returns (q: nat)
    requires p == |done| && p + 2 <= buf.Length == |before|
    requires buf[..] == Written(before, done)
    modifies buf
    ensures q == p + 2 && buf[..] == Written(before, done + Word16(x))
  {
    var lo := Low8(x);
    var hi := Low8(x / 0x100);
    buf[p] := lo;
    buf[p + 1] := hi;
    q := p + 2;
    WrittenFurther(before, done, Word16(x));
  }

  /** Stores a 32-bit word low byte first. */
  method Put32(buf: array<byte>, p: nat, x: u32, ghost before: seq<byte>, ghost done: seq<byte>) returns (q: nat)
    requires p == |done| && p + 4 <= buf.Length == |before|
    requires buf[..] == Written(before, done)
    modifies buf
    ensures q == p + 4 && buf[..] == Written(before, done + Word32(x))
  {
    var b0 := Low8(x);
    var b1 := Low8(x / 0x100);
    var b2 := Low8(x / 0x1_0000);
    var b3 := Low8(x / 0x100_0000);
    buf[p] := b0;
    buf[p + 1] := b1;
    buf[p + 2] := b2;
    buf[p + 3] := b3;
    q := p + 4;
    FourBytes(x);
    WrittenFurther(before, done, Word32(x));
  }

  method PutBytes(buf: array<byte>, p: nat, s: seq<byte>, ghost before: seq<byte>, ghost done: seq<byte>)
    returns (q: nat)
    requires p == |done| && p + |s| <= buf.Length == |before|
    requires buf[..] == Written(before, done)
    modifies buf
    ensures q == p + |s| && buf[..] == Written(before, done + s)
  {
    CopyInto(buf, p, s);
    q := p + |s|;
    WrittenFurther(before, done, s);
  }

  /** What `rpc_unpack_data` reads lies in the body. */
  predicate BodyInBounds(body: seq<byte>, size: u32) {
    && JSON_LENGTH <= |body|
    && JSON_LENGTH + Get16(body, 0) <= |body|
    && JSON_LENGTH + Get16(body, 0) + BinInt(size, Get16(body, 0)) <= |body|
  }

  /** What `rpc_unpack_data` leaves in a message m whose head announced `size`. */
  function BodyOnto(body: seq<byte>, size: u32, m: Msg): Msg
    requires BodyInBounds(body, size)
  {
    var j := Get16(body, 0);
    var b := BinInt(size, j);
    m.(json := if j > 0 then body[2..2 + j] else m.json,
       bin := if b > 0 then body[2 + j..2 + j + b] else m.bin)
  }

  /** The parts taken: as much JSON as the first two bytes say, and as much behind it as the size leaves. */
  lemma BodyFields(body: seq<byte>, size: u32, m: Msg)
    requires HEAD_LENGTH <= size && BodyInBounds(body, size)
    ensures var j := body[0] + 0x100 * (body[1] as int);
            var n := size - 14 - j;
            && 2 + j <= |body| && (0 < n < 0x8000_0000 ==> 2 + j + n <= |body|)
            && BodyOnto(body, size, m) == m.(json := if j > 0 then body[2..2 + j] else m.json,
                                             bin := if 0 < n < 0x8000_0000 then body[2 + j..2 + j + n] else m.bin)
  {
    var n := size - 14 - Get16(body, 0);
    assert n % TWO32 == if n >= 0 then n else n + TWO32;
  }

  /** The head of a frame put into a message, then its body, is the frame unpacked in two. */
  lemma {:induction false} BodyOfFrame(f: seq<byte>, body: seq<byte>, m: Msg, held: Msg)
    requires CoversJson(f) && body == f[HEAD_LENGTH..]
    requires m == held.(flag := Get16(f, 0), msgType := Get16(f, 6), fmt := Get16(f, 8))
    ensures BodyInBounds(body, |f|) && BodyOnto(body, |f|, m) == UnpackInTwoOnto(f, held)
  {
    var j := JsonLen(f);
    var b := |f| - OVERHEAD - j;
    assert Get16(body, 0) == j;
    BinLengths(f);
    assert body[2..2 + j] == f[12..12 + j];
    if b > 0 {
      assert body[2 + j..2 + j + b] == f[12 + j..12 + j + b];
    }
  }

  lemma SubSlice(s: seq<byte>, n: nat, lo: nat, hi: nat)
    requires lo <= hi <= n <= |s|
    ensures s[..n][lo..hi] == s[lo..hi]
  {
  }

  /** The return code and the rest of the stream that this outcome of a receive on an unbroken connection has. */
  predicate Settled(r: Received<Msg>, ret: int, rest: seq<byte>) {
    match r
    case Got(_, _) => ret == 0
    case Rejected(left) => ret == -3 && rest == left
    case Cut => ret == IO_DISCONNECT && rest == []
  }

  /** Reads so many bytes into a buffer of their own. */
  method ReadBytes(sock: Socket, n: nat) returns (ret: int, bytes: array<byte>)
    requires Fair(sock.readPlan)
    modifies sock`readAt, sock`incoming, sock`errno
    ensures fresh(bytes) && bytes.Length == n && old(sock.readAt) <= sock.readAt
    ensures ret == 0 ==> n <= |old(sock.incoming)| && bytes[..] == old(sock.incoming)[..n]
    ensures ret == 0 ==> sock.incoming == old(sock.incoming)[n..]
    ensures Unbroken(sock.readPlan, old(sock.readAt), sock.readAt) ==>
              && (ret == 0 <==> n <= |old(sock.incoming)|)
              && (ret != 0 ==> ret == 0x8001 && sock.incoming == [])
  {
    var buf := new Buf(n);
    bytes := buf.base;
    ret := IoRead(sock, bytes, 0, n);
  }

  /** The rest of a frame behind its head, if it is all there. */
  lemma WholeOrCut(stream: seq<byte>, held: Msg, n: u32)
    requires Receivable(stream) && HEAD_LENGTH <= |stream| && n == Get32(stream, 2) > HEAD_LENGTH
    ensures n > |stream| ==> Receive(stream, held) == Cut
    ensures n <= |stream| ==>
              && CoversJson(stream[..n]) && stream[HEAD_LENGTH..][..n - HEAD_LENGTH] == stream[..n][HEAD_LENGTH..]
              && Receive(stream, held)
                 == Got(UnpackInTwoOnto(stream[..n], held), stream[HEAD_LENGTH..][n - HEAD_LENGTH..])
  {
  }

  class RpcMessage {
    var flag: u16
    var length: u32
    var msgType: u16
    var fmt: u16
    var jsonLen: u16
    var jsonData: seq<byte>
    const binData: Buf
    const tail: u16

    /** The uninitialised fields `length`, `msg_type` and `json_len` get arbitrary values. */
    constructor (msgType: u16, length: u32, jsonLen: u16)
      ensures Valid() && fresh(binData) && fresh(binData.base)
      ensures View() == Fresh(msgType) && tail == TAIL
      ensures View() == Msg(0x55AA, msgType, 0, [0x7B, 0x7D], []) && tail == 0xAA55
    {
      flag, this.length, this.msgType, fmt := 0x55AA, length, msgType, 0;
      this.jsonLen, jsonData := jsonLen, [0x7B, 0x7D];
      binData := new Buf(0);
      tail := TAIL;
    }

    ghost predicate Valid()
      reads this, binData
    {
      binData.Valid()
    }

    ghost function View(): Msg
      reads this, binData, binData.base
      requires Valid()
    {
      Msg(flag, msgType, fmt, jsonData, binData.Contents())
    }

    /** The buffer size `rpc_pack` is called with; at least the size of the frame. */
    method PackageSize() returns (n: int)
      requires Valid()
      requires OVERHEAD + |jsonData| + |binData.Contents()| < TWO31
      ensures n == OVERHEAD + |View().json| + |View().bin| >= FrameSize(View())
      ensures n == FrameSize(View()) <==> |View().json| <= MAX_JSON
    {
      n := HEAD_LENGTH + JSON_LENGTH + |jsonData| + binData.len + TAIL_LENGTH;
    }

    /** Writes the frame at the start of the buffer and touches nothing behind it. */
    method RpcPack(buf: array?<byte>, len: int) returns (ret: int)
      requires Valid() && Representable(View())
      requires buf != null ==> len <= buf.Length && buf != binData.base
      modifies `jsonLen, buf
      ensures View() == old(View())
      ensures ret == if buf == null || len == 0 || View().json == [] then -1
                     else if len < FrameSize(View()) then -2
                     else 0
      ensures ret == 0 ==> buf[..] == Written(old(buf[..]), Encode(View(), tail))
      ensures ret == 0 ==> buf[..FrameSize(View())] == Encode(View(), tail)
      ensures ret == 0 ==> buf[FrameSize(View())..] == old(buf[FrameSize(View())..])
      ensures ret != 0 && buf != null ==> buf[..] == old(buf[..])
      ensures jsonLen == if ret == -1 then old(jsonLen) else |SentJson(View().json)|
    {
      if buf == null || len == 0 || |jsonData| == 0 {
        return -1;
      }
      jsonLen := |jsonData| % 0x1_0000;
      var binLen := binData.len;
      var size := HEAD_LENGTH + JSON_LENGTH + jsonLen + binLen + TAIL_LENGTH;
      if len < size {
        return -2;
      }
      ghost var before := buf[..];
      ghost var m := View();
      var p := PutHeader(buf, size, before);
      p := Put16(buf, p, jsonLen, before, Header(m));
      ghost var done := Header(m) + Word16(jsonLen);
      p := PutBytes(buf, p, jsonData[..jsonLen], before, done);
      done := done + SentJson(m.json);
      if binLen > 0 {
        p := PutBytes(buf, p, binData.base[..binLen], before, done);
      }
      assert m.bin == binData.base[..binLen];
      done := done + m.bin;
      p := Put16(buf, p, tail, before, done);
      return 0;
    }

    /** The ten head bytes, common to `rpc_pack` and `rpc_pack_head`. */
    method PutHeader(buf: array<byte>, size: u32, ghost before: seq<byte>) returns (p: nat)
      requires Valid() && Representable(View()) && size == FrameSize(View())
      requires buf[..] == before && size <= buf.Length && buf != binData.base
      modifies buf
      ensures p == HEAD_LENGTH && buf[..] == Written(before, Header(View()))
    {
      ghost var w1 := Word16(flag);
      ghost var w2 := w1 + Word32(size);
      ghost var w3 := w2 + Word16(msgType);
      assert buf[..] == Written(before, []);
      p := Put16(buf, 0, flag, before, []);
      assert [] + w1 == w1;
      p := Put32(buf, p, size, before, w1);
      p := Put16(buf, p, msgType, before, w2);
      p := Put16(buf, p, fmt, before, w3);
    }

    /** Writes the head only, under the same checks. */
    method RpcPackHead(buf: array?<byte>, len: int) returns (ret: int)
      requires Valid() && Representable(View())
      requires buf != null ==> len <= buf.Length && buf != binData.base
      modifies `jsonLen, buf
      ensures View() == old(View())
      ensures ret == if buf == null || len == 0 || View().json == [] then -1
                     else if len < FrameSize(View()) then -2
                     else 0
      ensures ret == 0 ==> buf[..] == Written(old(buf[..]), Encode(View(), tail)[..HEAD_LENGTH])
      ensures ret == 0 ==> buf[..10] == Encode(View(), tail)[..10] && buf[10..] == old(buf[10..])
      ensures ret != 0 && buf != null ==> buf[..] == old(buf[..])
      ensures jsonLen == if ret == -1 then old(jsonLen) else |SentJson(View().json)|
    {
      if buf == null || len == 0 || |jsonData| == 0 {
        return -1;
      }
      jsonLen := |jsonData| % 0x1_0000;
      var size := HEAD_LENGTH + JSON_LENGTH + jsonLen + binData.len + TAIL_LENGTH;
      if len < size {
        return -2;
      }
      ghost var before := buf[..];
      var p := PutHeader(buf, size, before);
      assert Encode(View(), tail)[..HEAD_LENGTH] == Header(View());
      return 0;
    }

    /** Reads the ten head bytes into the head fields. */
    method GetHeader(buf: array<byte>)
      requires HEAD_LENGTH <= buf.Length
      modifies `flag, `length, `msgType, `fmt
      ensures flag == Get16(buf[..], 0) && length == Get32(buf[..], 2)
      ensures msgType == Get16(buf[..], 6) && fmt == Get16(buf[..], 8)
    {
      flag := Join16(buf[0], buf[1]);
      length := Join32(buf[2], buf[3], buf[4], buf[5]);
      msgType := Join16(buf[6], buf[7]);
      fmt := Join16(buf[8], buf[9]);
    }

    /** Unpacks the frame at the start of the buffer. */
    method RpcUnpack(buf: array?<byte>, len: int) returns (ret: int)
      requires Valid() && (buf != null ==> len <= buf.Length && buf != binData.base)
      requires buf != null && HEAD_LENGTH <= len && Get32(buf[..], 2) <= len ==> Complete(buf[..Get32(buf[..], 2)])
      modifies this, binData, binData.base
      ensures Valid()
      ensures ret == if buf == null || len == 0 then -1
                     else if len < HEAD_LENGTH then -2
                     else if len < Get32(old(buf[..]), 2) then -3
                     else 0
      ensures ret == -1 || ret == -2 ==> View() == old(View()) && length == old(length)
      ensures ret == -3 ==> View() == old(View()).(flag := Get16(old(buf[..]), 0), msgType := Get16(old(buf[..]), 6),
                                                   fmt := Get16(old(buf[..]), 8))
      ensures ret == -3 || ret == 0 ==> length == Get32(old(buf[..]), 2)
      ensures jsonLen == if ret == 0 then Get16(old(buf[..]), 10) else old(jsonLen)
      ensures ret == 0 ==> Some(View()) == UnpackOnto(old(buf[..])[..length], old(View()))
    {
      if buf == null || len == 0 {
        return -1;
      }
      if len < HEAD_LENGTH {
        return -2;
      }
      GetHeader(buf);
      if len < length {
        return -3;
      }
      ghost var f := buf[..length];
      CompleteParts(f, old(View()));
      GetJson(buf, f);
      GetBin(buf, f);
      return 0;
    }

    /** The JSON part of `rpc_unpack`. */
    method GetJson(buf: array<byte>, ghost f: seq<byte>)
      requires CoversJson(f) && |f| <= buf.Length && f == buf[..|f|]
      modifies `jsonLen, `jsonData
      ensures jsonLen == JsonLen(f) && jsonData == f[12..12 + jsonLen]
    {
      jsonLen := Join16(buf[10], buf[11]);
      jsonData := buf[12..12 + jsonLen];
      SubSlice(buf[..], |f|, 12, 12 + jsonLen);
    }

    /** The binary part of `rpc_unpack`. */
    method GetBin(buf: array<byte>, ghost f: seq<byte>)
      requires Valid() && buf != binData.base && Complete(f)
      requires |f| <= buf.Length && f == buf[..|f|] && length == |f| && jsonLen == JsonLen(f)
      modifies binData, binData.base
      ensures Valid()
      ensures binData.Contents() == Else(BinPart(f), old(binData.Contents()))
    {
      var binLen: u32 := BinWord(length, jsonLen);
      BinLengths(f);
      if binLen > 0 {
        SubSlice(buf[..], |f|, 12 + jsonLen, |f| - 2);
        binData.Copy(buf[12 + jsonLen..12 + jsonLen + binLen]);
      }
    }

    method RpcUnpackHead(buf: array?<byte>, len: int) returns (ret: int)
      requires buf != null ==> len <= buf.Length
      modifies `flag, `length, `msgType, `fmt
      ensures ret == if buf == null || len == 0 then -1 else if len < HEAD_LENGTH then -2 else 0
      ensures ret == 0 ==> flag == Get16(buf[..], 0) && length == Get32(buf[..], 2)
      ensures ret == 0 ==> msgType == Get16(buf[..], 6) && fmt == Get16(buf[..], 8)
      ensures ret != 0 ==> flag == old(flag) && length == old(length) && msgType == old(msgType) && fmt == old(fmt)
    {
      if buf == null || len == 0 {
        return -1;
      }
      if len < HEAD_LENGTH {
        return -2;
      }
      GetHeader(buf);
      return 0;
    }

    /** Unpacks a frame body, under the head already in this message. */
    method RpcUnpackData(buf: array<byte>, len: int) returns (ret: int)
      requires Valid() && buf != binData.base && HEAD_LENGTH <= length
      requires 0 <= len <= buf.Length
      requires len >= length - HEAD_LENGTH ==> BodyInBounds(buf[..], length)
      modifies `jsonLen, `jsonData, binData, binData.base
      ensures Valid() && (binData.base == old(binData.base) || fresh(binData.base))
      ensures ret == if len < length - HEAD_LENGTH then -3 else 0
      ensures ret != 0 ==> View() == old(View()) && jsonLen == old(jsonLen)
      ensures ret == 0 ==> jsonLen == Get16(old(buf[..]), 0)
      ensures ret == 0 ==> View() == BodyOnto(old(buf[..]), length, old(View()))
    {
      if len < length - HEAD_LENGTH {
        return -3;
      }
      BodyJson(buf);
      BodyBinary(buf);
      return 0;
    }

    /** The JSON part of `rpc_unpack_data`, left alone when it is empty. */
    method BodyJson(buf: array<byte>)
      requires BodyInBounds(buf[..], length)
      modifies `jsonLen, `jsonData
      ensures jsonLen == Get16(buf[..], 0)
      ensures jsonData == if jsonLen > 0 then buf[2..2 + jsonLen] else old(jsonData)
    {
      jsonLen := Join16(buf[0], buf[1]);
      if jsonLen > 0 {
        jsonData := buf[2..2 + jsonLen];
      }
    }

    /** Its binary part, behind the JSON. */
    method BodyBinary(buf: array<byte>)
      requires Valid() && buf != binData.base && BodyInBounds(buf[..], length) && jsonLen == Get16(buf[..], 0)
      modifies binData, binData.base
      ensures Valid() && (binData.base == old(binData.base) || fresh(binData.base))
      ensures var b := BinInt(length, jsonLen);
              binData.Contents() == if b > 0 then old(buf[2 + jsonLen..2 + jsonLen + b]) else old(binData.Contents())
    {
      var binLen := BinInt(length, jsonLen);
      var p := JSON_LENGTH + jsonLen;
      if binLen > 0 {
        binData.Copy(buf[p..p + binLen]);
      }
    }

    /** The first read of `recv_data`: ten bytes, into the head fields. */
    method RecvHead(sock: Socket) returns (ret: int)
      requires Valid() && Fair(sock.readPlan)
      modifies `flag, `length, `msgType, `fmt, sock`readAt, sock`incoming, sock`errno
      ensures old(sock.readAt) <= sock.readAt
      ensures ret == 0 ==> HEAD_LENGTH <= |old(sock.incoming)| && sock.incoming == old(sock.incoming)[HEAD_LENGTH..]
      ensures ret == 0 ==> flag == Get16(old(sock.incoming), 0) && length == Get32(old(sock.incoming), 2)
      ensures ret == 0 ==> msgType == Get16(old(sock.incoming), 6) && fmt == Get16(old(sock.incoming), 8)
      ensures Unbroken(sock.readPlan, old(sock.readAt), sock.readAt) ==>
                && (ret == 0 <==> HEAD_LENGTH <= |old(sock.incoming)|)
                && (ret != 0 ==> ret == IO_DISCONNECT && sock.incoming == [])
    {
      ghost var stream := sock.incoming;
      var head;
      ret, head := ReadBytes(sock, HEAD_LENGTH);
      if ret != 0 {
        return;
      }
      ret := RpcUnpackHead(head, HEAD_LENGTH);
      if ret != 0 {
        return -2;
      }
    }

    /** The second read of `recv_data`: the rest of the frame at the head of `stream`, into a message that held
        `held`. */
    method RecvBody(sock: Socket, ghost stream: seq<byte>, ghost held: Msg) returns (ret: int)
      requires Valid() && Fair(sock.readPlan) && Receivable(stream) && HEAD_LENGTH <= |stream|
      requires length == Get32(stream, 2) > HEAD_LENGTH && sock.incoming == stream[HEAD_LENGTH..]
      requires View() == held.(flag := Get16(stream, 0), msgType := Get16(stream, 6), fmt := Get16(stream, 8))
      modifies `jsonLen, `jsonData, binData, binData.base, sock`readAt, sock`incoming, sock`errno
      ensures Valid() && (binData.base == old(binData.base) || fresh(binData.base))
      ensures old(sock.readAt) <= sock.readAt
      ensures ret == 0 ==> Receive(stream, held) == Got(View(), sock.incoming)
      ensures ret != 0 ==> View() == old(View())
      ensures Unbroken(sock.readPlan, old(sock.readAt), sock.readAt) ==>
                Settled(Receive(stream, held), ret, sock.incoming)
    {
      WholeOrCut(stream, held, length);
      var body;
      ret, body := ReadBytes(sock, length - HEAD_LENGTH);
      if ret != 0 {
        return;
      }
      BodyOfFrame(stream[..length], body[..], View(), held);
      ret := RpcUnpackData(body, length - HEAD_LENGTH);
      if ret != 0 {
        return -5;
      }
    }

    /** Head, then body, off the socket. Success means the message at the head of the stream was taken,
        whatever the schedule; on an unbroken connection the outcome does not depend on the schedule. */
    method RecvData(sock: Socket) returns (ret: int)
      requires Valid() && Fair(sock.readPlan) && Receivable(sock.incoming)
      modifies this, binData, binData.base, sock`readAt, sock`incoming, sock`errno
      ensures Valid() && (binData.base == old(binData.base) || fresh(binData.base))
      ensures ret == 0 ==> Receive(old(sock.incoming), old(View())) == Got(View(), sock.incoming)
      ensures ret != 0 ==> View().json == old(View()).json && View().bin == old(View()).bin
      ensures Unbroken(sock.readPlan, old(sock.readAt), sock.readAt) ==>
                Settled(Receive(old(sock.incoming), old(View())), ret, sock.incoming)
      ensures Unbroken(sock.readPlan, old(sock.readAt), sock.readAt) ==>
                ret == if |old(sock.incoming)| < 10 then 0x8001
                       else if Get32(old(sock.incoming), 2) == 10 then -3
                       else if |old(sock.incoming)| < Get32(old(sock.incoming), 2) then 0x8001
                       else 0
    {
      ghost var stream, held := sock.incoming, View();
      ret := RecvHead(sock);
      if ret != 0 {
        return;
      }
      if (length - HEAD_LENGTH) % TWO32 <= 0 {
        return -3;
      }
      ret := RecvBody(sock, stream, held);
    }

    /** Packs into a buffer of the announced size and writes all of that buffer: the frame and, when the JSON is too
        long for its 16-bit length and the frame is shorter than the buffer, zeros behind it. Whatever the schedule,
        what reaches the wire is a prefix of that, 0 is returned exactly when it is all of it, and the error is the
        kernel's last. */
    method SendData(sock: Socket) returns (ret: int)
      requires Valid() && Fair(sock.writePlan)
      requires OVERHEAD + |View().json| + |View().bin| < TWO31
      modifies `jsonLen, sock`writeAt, sock`wire, sock`errno
      ensures View() == old(View())
      ensures View().json == [] ==> ret == -1 && sock.wire == old(sock.wire)
      ensures View().json != [] ==>
                var zeros := |View().json| - |View().json| % 0x1_0000;
                var all := old(sock.wire) + Encode(View(), tail) + seq(zeros, _ => 0);
                && old(sock.wire) <= sock.wire <= all
                && (ret == 0 <==> sock.wire == all)
                && (ret == 0 <==> Unbroken(sock.writePlan, old(sock.writeAt), sock.writeAt))
      ensures 1 <= |View().json| <= 65535 && ret == 0 ==> sock.wire == old(sock.wire) + Encode(View(), tail)
      ensures View().json != [] && ret != 0 ==>
                && old(sock.writeAt) < sock.writeAt
                && ret == match sock.writePlan(sock.writeAt - 1) case Fails(err) => err case _ => 0x8001
    {
      var buf := new Buf(HEAD_LENGTH + JSON_LENGTH + |jsonData| + binData.len + TAIL_LENGTH);
      ghost var blank, frame := buf.Contents(), Encode(View(), tail);
      ghost var zeros: seq<byte> := seq(|View().json| - |View().json| % 0x1_0000, _ => 0);
      var p := buf.Data();
      ret := RpcPack(p, buf.len);
      if ret != 0 {
        return -1;
      }
      var n := buf.Size();
      assert p[..n] == frame + zeros by {
        assert blank[|frame|..] == zeros;
        assert p[..n] == Written(blank, frame);
      }
      ret := IoWrite(sock, p[..n]);
      SentPrefix(old(sock.wire), frame, zeros, sock.wire, Moved(sock.wire, old(sock.wire)));
    }
  }

  lemma SentPrefix(before: seq<byte>, frame: seq<byte>, zeros: seq<byte>, now: seq<byte>, n: nat)
    requires n <= |frame + zeros| && now == before + (frame + zeros)[..n]
    ensures before <= now <= before + frame + zeros
    ensures now == before + frame + zeros <==> n == |frame + zeros|
    ensures zeros == [] ==> before + frame + zeros == before + frame
  {
    assert before + frame + zeros == before + (frame + zeros);
    assert (frame + zeros)[..|frame + zeros|] == frame + zeros;
  }

  /** `ms` are the first i messages of a stream on which all receives succeed, and `now` is left of it. */
  ghost predicate ReceivedSoFar(stream: seq<byte>, msgTypes: seq<u16>, i: nat, ms: seq<Msg>, now: seq<byte>) {
    && i <= |msgTypes|
    && ReceiveMany(now, msgTypes[i..]).Some?
    && var (more, rest) := ReceiveMany(now, msgTypes[i..]).value;
       ReceiveMany(stream, msgTypes) == Some((ms + more, rest))
  }

  lemma {:induction false} ReceivedNext(stream: seq<byte>, msgTypes: seq<u16>, i: nat, ms: seq<Msg>, now: seq<byte>)
    requires i < |msgTypes|
    ensures ReceivedSoFar(stream, msgTypes, i, ms, now) ==>
              && Receivable(now) && Receive(now, Fresh(msgTypes[i])).Got?
              && var r := Receive(now, Fresh(msgTypes[i]));
                 ReceivedSoFar(stream, msgTypes, i + 1, ms + [r.value], r.rest)
  {
    if ReceivedSoFar(stream, msgTypes, i, ms, now) {
      assert msgTypes[i..][1..] == msgTypes[i + 1..];
      var r := Receive(now, Fresh(msgTypes[i]));
      var more := ReceiveMany(r.rest, msgTypes[i + 1..]).value.0;
      assert ms + ([r.value] + more) == ms + [r.value] + more;
    }
  }

  /** The receiving half of the client loop: each reply into a message object of its own. Back-to-back frames
      are received as exactly those messages under every fragmentation of the stream. */
  method ReceiveReplies(sock: Socket, msgTypes: seq<u16>) returns (ret: int, ms: seq<Msg>)
    requires Fair(sock.readPlan) && Reliable(sock.readPlan)
    requires ReceiveMany(sock.incoming, msgTypes).Some?
    modifies sock`readAt, sock`incoming, sock`errno
    ensures ret == 0
    ensures ReceiveMany(old(sock.incoming), msgTypes) == Some((ms, sock.incoming))
  {
    ms, ret := [], 0;
    ghost var stream := sock.incoming;
    assert msgTypes[0..] == msgTypes;
    assert [] + ReceiveMany(stream, msgTypes).value.0 == ReceiveMany(stream, msgTypes).value.0;
    for i := 0 to |msgTypes|
      invariant ReceivedSoFar(stream, msgTypes, i, ms, sock.incoming) && ret == 0
    {
      ReceivedNext(stream, msgTypes, i, ms, sock.incoming);
      var reply := new RpcMessage(msgTypes[i], 0, 0);
      ghost var at := sock.readAt;
      ret := reply.RecvData(sock);
      assert Unbroken(sock.readPlan, at, sock.readAt);
      if ret != 0 {
        return;
      }
      ms := ms + [Msg(reply.flag, reply.msgType, reply.fmt, reply.jsonData, reply.binData.base[..])];
    }
    assert msgTypes[|msgTypes|..] == [];
    assert ms + [] == ms;
  }
}
