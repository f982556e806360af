/** The RPC frame as a value: what `rpc_pack` puts into a buffer and what the two
    unpackers read out of one. The object that does it in place is in Protocol.dfy. */
module Codec {
  import opened Bits
  import opened Wrappers

  const HEAD_LENGTH := 10
  const JSON_LENGTH := 2
  const TAIL_LENGTH := 2
  const OVERHEAD := HEAD_LENGTH + JSON_LENGTH + TAIL_LENGTH
  const MAX_JSON := 0xFFFF
  const TAIL: u16 := 0xAA55

  /** The fields of a message that travel. `head.length`, `json_len` and `tail` are derived or constant. */
  datatype Msg = Msg(flag: u16, msgType: u16, fmt: u16, json: seq<byte>, bin: seq<byte>)

  /** A default-constructed message; `msg_type` is left uninitialised by the source. */
  function Fresh(msgType: u16): Msg {
    Msg(0x55AA, msgType, 0, [0x7B, 0x7D], [])
  }

  function Word16(x: u16): (s: seq<byte>) {
    [x % 0x100, x / 0x100]
  }

  function Word32(x: u32): (s: seq<byte>) {
    Word16(x % 0x1_0000) + Word16(x / 0x1_0000)
  }

  function Get16(f: seq<byte>, i: nat): u16
    requires i + 2 <= |f|
  {
    f[i] + 0x100 * (f[i + 1] as int)
  }

  function Get32(f: seq<byte>, i: nat): u32
    requires i + 4 <= |f|
  {
    Get16(f, i) + 0x1_0000 * (Get16(f, i + 2) as int)
  }

  /** `json_len` is an unsigned short: only this much of the JSON text is announced and copied. */
  function SentJson(json: seq<byte>): seq<byte> {
    json[..|json| % 0x1_0000]
  }

  function FrameSize(m: Msg): nat {
    OVERHEAD + |SentJson(m.json)| + |m.bin|
  }

  /** What `rpc_pack` demands beyond its own checks: a frame an `int` length can describe. */
  predicate Representable(m: Msg) {
    FrameSize(m) < TWO31
  }

  function Header(m: Msg): (h: seq<byte>)
    requires Representable(m)
    ensures |h| == HEAD_LENGTH
  {
    Word16(m.flag) + Word32(FrameSize(m)) + Word16(m.msgType) + Word16(m.fmt)
  }

  /** The bytes of one frame. */
  function Encode(m: Msg, tail: u16): (f: seq<byte>)
    requires Representable(m)
    ensures |f| == FrameSize(m)
  {
    Header(m) + Word16(|SentJson(m.json)|) + SentJson(m.json) + m.bin + Word16(tail)
  }

  /** A frame whose length field is its size, within `int`, and covers its JSON part. */
  predicate CoversJson(f: seq<byte>) {
    && HEAD_LENGTH + JSON_LENGTH <= |f| < TWO31
    && Get32(f, 2) == |f|
    && HEAD_LENGTH + JSON_LENGTH + JsonLen(f) <= |f|
  }

  /** A frame whose length field also covers the tail. */
  predicate Complete(f: seq<byte>) {
    CoversJson(f) && OVERHEAD + JsonLen(f) <= |f|
  }

  function JsonLen(f: seq<byte>): u16
    requires HEAD_LENGTH + JSON_LENGTH <= |f|
  {
    Get16(f, 10)
  }

  /** The length of the binary part as `rpc_unpack` computes it, in an unsigned word. */
  function BinWord(size: u32, json: u16): u32 {
    (size - HEAD_LENGTH - JSON_LENGTH - json - TAIL_LENGTH) % TWO32
  }

  /** The same as `rpc_unpack_data` keeps it, in an `int`. */
  function BinInt(size: u32, json: u16): int {
    AsInt32(BinWord(size, json))
  }

  /** The two differ exactly on a frame without room for its tail, where the unsigned one is far out of bounds. */
  lemma BinLengths(f: seq<byte>)
    requires CoversJson(f)
    ensures BinInt(|f|, JsonLen(f)) == |f| - OVERHEAD - JsonLen(f)
    ensures if Complete(f) then BinWord(|f|, JsonLen(f)) == BinInt(|f|, JsonLen(f))
            else BinWord(|f|, JsonLen(f)) > TWO31 > |f| && BinInt(|f|, JsonLen(f)) < 0
  {
    var n := |f| - OVERHEAD - JsonLen(f);
    if n >= 0 {
      assert n % TWO32 == n;
    } else {
      assert n % TWO32 == n + TWO32;
    }
  }

  /** The fields `rpc_unpack` leaves in a message that held `held`: an empty binary part is not copied.
      None when the copy of the binary part runs past the frame. */
  function UnpackOnto(f: seq<byte>, held: Msg): Option<Msg>
    requires CoversJson(f)
  {
    var j := JsonLen(f);
    var b := BinWord(|f|, j);
    if 12 + j + b > |f| then None
    else Some(Msg(Get16(f, 0), Get16(f, 6), Get16(f, 8),
                  f[12..12 + j],
                  if b > 0 then f[12 + j..12 + j + b] else held.bin))
  }

  /** The fields left by `rpc_unpack_head` and `rpc_unpack_data`: an empty JSON part is not copied either. The signed
      length of the binary part is what the frame has besides (BinLengths). */
  function UnpackInTwoOnto(f: seq<byte>, held: Msg): Msg
    requires CoversJson(f)
  {
    var j := JsonLen(f);
    var b := |f| - OVERHEAD - j;
    Msg(Get16(f, 0), Get16(f, 6), Get16(f, 8),
        if j > 0 then f[12..12 + j] else held.json,
        if b > 0 then f[12 + j..12 + j + b] else held.bin)
  }

  function Fields(f: seq<byte>, json: seq<byte>, bin: seq<byte>): Msg
    requires HEAD_LENGTH <= |f|
  {
    Msg(Get16(f, 0), Get16(f, 6), Get16(f, 8), json, bin)
  }

  /** What lies between JSON and tail. */
  function BinPart(f: seq<byte>): seq<byte>
    requires Complete(f)
  {
    f[12 + JsonLen(f)..|f| - 2]
  }

  function Else(part: seq<byte>, held: seq<byte>): seq<byte> {
    if part != [] then part else held
  }

  /** On a complete frame both read the binary part between JSON and tail. */
  lemma CompleteParts(f: seq<byte>, held: Msg)
    requires Complete(f)
    ensures var json, bin := f[12..12 + JsonLen(f)], Else(BinPart(f), held.bin);
            && UnpackOnto(f, held) == Some(Fields(f, json, bin))
            && UnpackInTwoOnto(f, held) == Fields(f, Else(json, held.json), bin)
  {
    BinLengths(f);
  }

  /** Every byte of a packed frame: all fields low byte first, and the length of the whole in the third to the sixth. */
  lemma FrameBytes(m: Msg, tail: u16)
    requires Representable(m)
    ensures var f, j := Encode(m, tail), |m.json| % 0x1_0000;
            && |f| == 14 + j + |m.bin|
            && f[0] == m.flag % 0x100 && f[1] == m.flag / 0x100
            && f[2] == |f| % 0x100 && f[3] == |f| / 0x100 % 0x100
            && f[4] == |f| / 0x1_0000 % 0x100 && f[5] == |f| / 0x100_0000
            && f[6] == m.msgType % 0x100 && f[7] == m.msgType / 0x100
            && f[8] == m.fmt % 0x100 && f[9] == m.fmt / 0x100
            && f[10] == j % 0x100 && f[11] == j / 0x100
            && f[12..12 + j] == m.json[..j]
            && f[12 + j..12 + j + |m.bin|] == m.bin
            && f[|f| - 2] == tail % 0x100 && f[|f| - 1] == tail / 0x100
  {
    var f := Encode(m, tail);
    Layout(m, tail);
    assert m.json[..|m.json| % 0x1_0000] == SentJson(m.json);
    FourBytes(|f|);
    assert Header(m)[2..6] == Word32(|f|);
    assert f[2..6] == Word32(|f|);
    assert f[2] == f[2..6][0] && f[3] == f[2..6][1] && f[4] == f[2..6][2] && f[5] == f[2..6][3];
  }

  lemma Digits(l0: byte, l1: byte, h0: byte, h1: byte)
    ensures var x := l0 + 0x100 * (l1 as int) + 0x1_0000 * (h0 as int) + 0x100_0000 * (h1 as int);
            && x % 0x100 == l0 && x / 0x100 == l1 + 0x100 * (h0 as int) + 0x1_0000 * (h1 as int)
            && x / 0x1_0000 == h0 + 0x100 * (h1 as int) && x / 0x100_0000 == h1
  {
  }

  lemma FourBytes(x: u32)
    ensures Word32(x) == [x % 0x100, x / 0x100 % 0x100, x / 0x1_0000 % 0x100, x / 0x100_0000 % 0x100]
    ensures x / 0x100_0000 < 0x100
  {
    var lo, hi := x % 0x1_0000, x / 0x1_0000;
    Digits(lo % 0x100, lo / 0x100, hi % 0x100, hi / 0x100);
  }

  /** The frame of a message nothing was set in, byte for byte. */
  lemma DefaultFrame()
    ensures Representable(Fresh(1))
    ensures var f := Encode(Fresh(1), TAIL);
            && |f| == 16
            && f[0] == 0xAA && f[1] == 0x55 && f[2] == 16 && f[3] == 0 && f[4] == 0 && f[5] == 0
            && f[6] == 1 && f[7] == 0 && f[8] == 0 && f[9] == 0 && f[10] == 2 && f[11] == 0
            && f[12..14] == [0x7B, 0x7D] && f[14] == 0x55 && f[15] == 0xAA
  {
    assert Fresh(1).json == [0x7B, 0x7D] && |Fresh(1).json| % 0x1_0000 == 2 && Fresh(1).bin == [];
    FrameBytes(Fresh(1), TAIL);
    Prefix2([0x7B, 0x7D]);
  }

  lemma Prefix2(s: seq<byte>)
    requires |s| == 2
    ensures s[..2] == s
  {
  }

  /** The fields each unpacker takes from the bytes of a frame with room for its JSON. */
  lemma FieldsTaken(f: seq<byte>, held: Msg)
    requires CoversJson(f)
    ensures var j := f[10] + 0x100 * (f[11] as int);
            var flag, msgType := f[0] + 0x100 * (f[1] as int), f[6] + 0x100 * (f[7] as int);
            var fmt := f[8] + 0x100 * (f[9] as int);
            var bin := if 14 + j < |f| then f[12 + j..|f| - 2] else held.bin;
            && 12 + j <= |f|
            && UnpackOnto(f, held)
               == (if 14 + j <= |f| then Some(Msg(flag, msgType, fmt, f[12..12 + j], bin)) else None)
            && UnpackInTwoOnto(f, held) == Msg(flag, msgType, fmt, if j > 0 then f[12..12 + j] else held.json, bin)
  {
    BinLengths(f);
  }

  /** Where each part of a packed frame lies. */
  lemma Layout(m: Msg, tail: u16)
    requires Representable(m)
    ensures var f, j := Encode(m, tail), |SentJson(m.json)|;
            && Complete(f)
            && JsonLen(f) == j
            && Get16(f, 0) == m.flag && Get16(f, 6) == m.msgType && Get16(f, 8) == m.fmt
            && f[12..12 + j] == SentJson(m.json)
            && f[12 + j..|f| - 2] == m.bin
            && f[|f| - 2..] == Word16(tail)
  {
  }

  /** The JSON of a message survives the 16-bit length, or is of a size that wraps to zero and already held. */
  predicate JsonSurvives(m: Msg, held: Msg) {
    |m.json| <= MAX_JSON || (|m.json| % 0x1_0000 == 0 && held.json == m.json)
  }

  /** What the receiver of a packed message holds afterwards. */
  lemma UnpackedFrame(m: Msg, tail: u16, held: Msg)
    requires Representable(m)
    ensures var f, json, bin := Encode(m, tail), SentJson(m.json), Else(m.bin, held.bin);
            && Complete(f)
            && UnpackOnto(f, held) == Some(m.(json := json, bin := bin))
            && UnpackInTwoOnto(f, held) == m.(json := Else(json, held.json), bin := bin)
  {
    Layout(m, tail);
    CompleteParts(Encode(m, tail), held);
  }

  /** Unpacking a packed frame gives back the message sent if and only if its JSON fits the 16-bit length and its
      binary part is not one the receiver fails to clear. In two calls it also does when the JSON sent was cut to
      nothing and the receiver happened to hold it. */
  lemma RoundTrip(m: Msg, tail: u16, held: Msg)
    requires Representable(m) && m.json != []
    ensures Complete(Encode(m, tail))
    ensures UnpackOnto(Encode(m, tail), held) == Some(m)
       <==> |m.json| <= MAX_JSON && (m.bin != [] || held.bin == [])
    ensures UnpackInTwoOnto(Encode(m, tail), held) == m
       <==> JsonSurvives(m, held) && (m.bin != [] || held.bin == [])
  {
    UnpackedFrame(m, tail, held);
    SentExactly(m.json);
  }

  lemma SentExactly(json: seq<byte>)
    ensures SentJson(json) == json <==> |json| <= MAX_JSON
    ensures SentJson(json) == [] <==> |json| % 0x1_0000 == 0
  {
    if |json| <= MAX_JSON {
      assert SentJson(json) == json;
    } else {
      assert |SentJson(json)| < |json|;
    }
  }

  /** What `rpc_pack` makes of a message with room enough: nothing when there is no JSON. */
  function Pack(m: Msg, tail: u16): Option<seq<byte>>
    requires Representable(m)
  {
    if m.json == [] then None else Some(Encode(m, tail))
  }

  /** Packing the parts of a complete frame makes that frame again, but for the tail. */
  lemma Repacked(f: seq<byte>, m: Msg, tail: u16)
    requires Complete(f) && m == Fields(f, f[12..12 + JsonLen(f)], BinPart(f))
    ensures FrameSize(m) == |f| && |m.json| == JsonLen(f)
    ensures Encode(m, tail) == f[..|f| - 2] + Word16(tail)
  {
    var j := JsonLen(f);
    assert SentJson(m.json) == m.json;
    SplitWord16(f, 0);
    SplitWord32(f, 2);
    SplitWord16(f, 6);
    SplitWord16(f, 8);
    SplitWord16(f, 10);
    assert Header(m) == f[..10];
    assert f[..|f| - 2] == f[..10] + f[10..12] + f[12..12 + j] + f[12 + j..|f| - 2];
  }

  /** A received frame is reproduced byte for byte by packing what was unpacked from it,
      if and only if it carries some JSON and ends in the packer's tail. */
  lemma InverseRoundTrip(f: seq<byte>, held: Msg, tail: u16)
    requires Complete(f) && held.bin == []
    ensures UnpackOnto(f, held).Some? && Representable(UnpackOnto(f, held).value)
    ensures Pack(UnpackOnto(f, held).value, tail) == Some(f) <==> JsonLen(f) >= 1 && f[|f| - 2..] == Word16(tail)
  {
    CompleteParts(f, held);
    Repacked(f, UnpackOnto(f, held).value, tail);
    assert f == f[..|f| - 2] + f[|f| - 2..];
  }

  lemma SplitWord16(f: seq<byte>, i: nat)
    requires i + 2 <= |f|
    ensures Word16(Get16(f, i)) == f[i..i + 2]
  {
  }

  lemma HalvesOf(lo: u16, hi: u16)
    ensures var x := lo + 0x1_0000 * (hi as int); x % 0x1_0000 == lo && x / 0x1_0000 == hi
  {
  }

  lemma SplitWord32(f: seq<byte>, i: nat)
    requires i + 4 <= |f|
    ensures Word32(Get32(f, i)) == f[i..i + 4]
  {
    SplitWord16(f, i);
    SplitWord16(f, i + 2);
    HalvesOf(Get16(f, i), Get16(f, i + 2));
    assert f[i..i + 4] == f[i..i + 2] + f[i + 2..i + 4];
  }

  /** One call and two leave the same message if and only if the frame has room for its tail, and carries
      JSON or the receiver held none. */
  lemma TwoUnpackersAgree(f: seq<byte>, held: Msg)
    requires CoversJson(f)
    ensures UnpackOnto(f, held).Some? <==> Complete(f)
    ensures UnpackOnto(f, held) == Some(UnpackInTwoOnto(f, held))
       <==> Complete(f) && (JsonLen(f) >= 1 || held.json == [])
  {
    BinLengths(f);
    if Complete(f) {
      CompleteParts(f, held);
    }
  }

  /** Thirteen bytes announcing one byte of JSON and no tail: two calls unpack it, one call reads past it. */
  const SHORT_FRAME: seq<byte> := [0, 0, 13, 0, 0, 0, 0, 0, 0, 0, 1, 0, 0x7B]

  lemma ShortFrame(held: Msg)
    ensures CoversJson(SHORT_FRAME) && JsonLen(SHORT_FRAME) == 1
    ensures UnpackOnto(SHORT_FRAME, held) == None
    ensures UnpackInTwoOnto(SHORT_FRAME, held) == Msg(0, 0, 0, [0x7B], held.bin)
  {
    BinLengths(SHORT_FRAME);
  }

  /** Distinct sendable messages have distinct frames. */
  lemma EncodeInjective(m: Msg, n: Msg, tail: u16)
    requires Representable(m) && Representable(n)
    requires 1 <= |m.json| <= MAX_JSON && 1 <= |n.json| <= MAX_JSON
    requires Encode(m, tail) == Encode(n, tail)
    ensures m == n
  {
    RoundTrip(m, tail, Fresh(0));
    RoundTrip(n, tail, Fresh(0));
  }
}
