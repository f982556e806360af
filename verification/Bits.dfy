/** Machine words and the bit operations the sources apply to them.
    Words are integers with an explicit range; `|`, `&` and `<<` are defined bit by bit,
    so that "or-ing a shifted byte" and "adding a scaled byte" are different things that
    are proved equal where the sources rely on it. */
module Bits {
  type byte = x: int | 0 <= x < 0x100
  type u16 = x: int | 0 <= x < 0x1_0000
  type u32 = x: int | 0 <= x < 0x1_0000_0000

  const TWO31 := 0x8000_0000
  const TWO32 := 0x1_0000_0000

  function Pow2(k: nat): (r: int)
    ensures r > 0
  {
    if k == 0 then 1 else 2 * Pow2(k - 1)
  }

  function BitOr(x: nat, y: nat): nat
    decreases x + y
  {
    if x + y == 0 then 0
    else 2 * BitOr(x / 2, y / 2) + if x % 2 == 1 || y % 2 == 1 then 1 else 0
  }

  function BitAnd(x: nat, y: nat): (r: nat)
    ensures r <= y
  {
    if y == 0 then 0
    else 2 * BitAnd(x / 2, y / 2) + if x % 2 == 1 && y % 2 == 1 then 1 else 0
  }

  /** `x << k` on a 32-bit unsigned word. */
  function Shl32(x: u32, k: nat): u32 {
    x * Pow2(k) % TWO32
  }

  /** The value of a 32-bit word read as a signed `int`. */
  function AsInt32(x: u32): int {
    if x < TWO31 then x else x - TWO32
  }

  lemma {:induction false} OrZero(x: nat)
    ensures BitOr(x, 0) == x && BitOr(0, x) == x
  {
    if x > 0 {
      OrZero(x / 2);
    }
  }

  lemma HalfOfScaled(hi: nat, k: nat)
    requires k > 0
    ensures hi * Pow2(k) == 2 * (hi * Pow2(k - 1))
  {
  }

  /** Or-ing words that share no bit position is adding them. */
  lemma {:induction false} OrDisjoint(hi: nat, lo: nat, k: nat)
    requires lo < Pow2(k)
    ensures hi * Pow2(k) >= 0
    ensures BitOr(hi * Pow2(k), lo) == hi * Pow2(k) + lo
    ensures BitOr(lo, hi * Pow2(k)) == hi * Pow2(k) + lo
    decreases k
  {
    assert hi * Pow2(k) >= 0;
    if k == 0 {
      OrZero(hi);
    } else {
      HalfOfScaled(hi, k);
      OrDisjoint(hi, lo / 2, k - 1);
    }
  }

  /** Masking with 2^k - 1 keeps the low k bits. */
  lemma {:induction false} AndMask(q: nat, r: nat, k: nat)
    requires r < Pow2(k)
    ensures q * Pow2(k) >= 0
    ensures BitAnd(q * Pow2(k) + r, Pow2(k) - 1) == r
    decreases k
  {
    assert q * Pow2(k) >= 0;
    if k > 0 {
      HalfOfScaled(q, k);
      AndMask(q, r / 2, k - 1);
    }
  }

  /** `x & 0xFF`, the byte stored by `*p++ = x & 0xFF`. */
  method Low8(x: nat) returns (b: byte)
    ensures b == x % 0x100
  {
    assert Pow2(8) == 0x100;
    AndMask(x / 0x100, x % 0x100, 8);
    b := BitAnd(x, 0xFF);
  }

  lemma ShlFits(b: byte, k: nat)
    requires 0x100 * Pow2(k) <= TWO32
    ensures Shl32(b, k) == b * Pow2(k) <= 0xFF * Pow2(k)
  {
  }

  /** `lo | b << k` puts a byte above the low k bits. */
  lemma {:induction false} OrByte(lo: u32, b: byte, k: nat)
    requires lo < Pow2(k) && 0x100 * Pow2(k) <= TWO32
    ensures BitOr(lo, Shl32(b, k)) == lo + b * Pow2(k) < 0x100 * Pow2(k)
  {
    ShlFits(b, k);
    OrDisjoint(b, lo, k);
  }

  /** `w = *p++; w |= *p++ << 8;` on a 16-bit field. */
  method Join16(b0: byte, b1: byte) returns (w: u16)
    ensures w == b0 + 0x100 * b1
  {
    assert Pow2(8) == 0x100;
    OrByte(b0, b1, 8);
    w := b0;
    w := BitOr(w, Shl32(b1, 8));  // fits, so the conversion back to 16 bits loses nothing
  }

  /** `w = *p++; w |= *p++ << 8; w |= *p++ << 16; w |= *p++ << 24;` on a 32-bit field. */
  method Join32(b0: byte, b1: byte, b2: byte, b3: byte) returns (w: u32)
    ensures w == b0 + 0x100 * b1 + 0x1_0000 * b2 + 0x100_0000 * b3
  {
    assert Pow2(8) == 0x100 && Pow2(16) == 0x1_0000 && Pow2(24) == 0x100_0000;
    w := b0;
    OrByte(w, b1, 8);
    w := BitOr(w, Shl32(b1, 8));
    OrByte(w, b2, 16);
    w := BitOr(w, Shl32(b2, 16));
    OrByte(w, b3, 24);
    w := BitOr(w, Shl32(b3, 24));
  }

  /** Positional value, first byte least significant. */
  function LittleEndian(s: seq<byte>): (v: nat)
  {
    if s == [] then 0 else s[0] + 0x100 * LittleEndian(s[1..])
  }

  /** Positional value, last byte least significant. */
  function BigEndian(s: seq<byte>): (v: nat)
  {
    if s == [] then 0 else BigEndian(s[..|s| - 1]) * 0x100 + s[|s| - 1]
  }

  function Reversed(s: seq<byte>): (r: seq<byte>)
    ensures |r| == |s| && forall i :: 0 <= i < |s| ==> r[i] == s[|s| - 1 - i]
  {
    seq(|s|, i requires 0 <= i < |s| => s[|s| - 1 - i])
  }

  lemma {:induction false} LittleIsReversedBig(s: seq<byte>)
    ensures LittleEndian(s) == BigEndian(Reversed(s))
  {
    if s != [] {
      LittleIsReversedBig(s[1..]);
      assert Reversed(s)[..|s| - 1] == Reversed(s[1..]);
    }
  }

  lemma {:induction false} BigBound(s: seq<byte>)
    ensures BigEndian(s) < Pow2(8 * |s|)
  {
    if s != [] {
      BigBound(s[..|s| - 1]);
      Pow2Times256(8 * |s| - 8);
    }
  }

  lemma Pow2Times256(k: nat)
    ensures Pow2(k + 8) == 0x100 * Pow2(k)
  {
    assert Pow2(k + 8) == 2 * Pow2(k + 7) == 4 * Pow2(k + 6) == 8 * Pow2(k + 5) == 16 * Pow2(k + 4)
        == 32 * Pow2(k + 3) == 64 * Pow2(k + 2) == 128 * Pow2(k + 1);
  }

  /** Appending a more significant byte. */
  lemma {:induction false} LittleSnoc(s: seq<byte>, b: byte)
    ensures LittleEndian(s + [b]) == LittleEndian(s) + b * Pow2(8 * |s|)
  {
    if s == [] {
      assert [b][1..] == [];
    } else {
      LittleSnoc(s[1..], b);
      assert (s + [b])[1..] == s[1..] + [b];
      var k := 8 * |s| - 8;
      Pow2Times256(k);
      assert 0x100 * (b * Pow2(k)) == b * Pow2(k + 8) by {
        calc { b * Pow2(k + 8); b * (0x100 * Pow2(k)); 0x100 * (b * Pow2(k)); }
      }
    }
  }

  lemma {:induction false} LittleBound(s: seq<byte>)
    ensures LittleEndian(s) < Pow2(8 * |s|)
  {
    LittleIsReversedBig(s);
    BigBound(Reversed(s));
  }

  lemma {:induction false} Pow2Monotone(i: nat, j: nat)
    requires i <= j
    ensures Pow2(i) <= Pow2(j)
    decreases j - i
  {
    if i < j {
      Pow2Monotone(i + 1, j);
    }
  }

  lemma Pow2Bytes()
    ensures Pow2(0) == 1 && Pow2(8) == 0x100 && Pow2(16) == 0x1_0000 && Pow2(24) == 0x100_0000 && Pow2(32) == TWO32
  {
  }

  /** One turn of the little-endian loop, `length |= b << (8 * i)`, reads one more digit. */
  lemma LittleTurn(s: seq<byte>, b: byte)
    requires |s| < 4
    ensures LittleEndian(s) < TWO32
    ensures BitOr(LittleEndian(s), Shl32(b, 8 * |s|)) == LittleEndian(s + [b]) < TWO32
  {
    LittleWord(s);
    LittleBound(s);
    LittleSnoc(s, b);
    Pow2Monotone(8 * |s|, 24);
    Pow2Bytes();
    OrByte(LittleEndian(s), b, 8 * |s|);
  }

  /** At most four bytes make a 32-bit word. */
  lemma LittleWord(s: seq<byte>)
    requires |s| <= 4
    ensures LittleEndian(s) < TWO32
  {
    LittleBound(s);
    Pow2Bytes();
  }

  lemma ShlByte(v: u32)
    requires v < 0x100_0000
    ensures Shl32(v, 8) == v * 0x100 == v * Pow2(8)
  {
  }

  lemma BigWord(s: seq<byte>)
    requires |s| <= 4
    ensures BigEndian(s) < TWO32
    ensures |s| < 4 ==> BigEndian(s) < 0x100_0000
  {
    BigBound(s);
    Pow2Bytes();
  }

  /** One turn of the big-endian loop, `length = length << 8 | b`, reads one more digit. */
  lemma {:induction false} BigTurn(s: seq<byte>, b: byte)
    requires |s| < 4
    ensures BigEndian(s) < TWO32
    ensures BitOr(Shl32(BigEndian(s), 8), b) == BigEndian(s + [b]) < TWO32
  {
    BigWord(s);
    assert (s + [b])[..|s|] == s;
    ShlByte(BigEndian(s));
    OrDisjoint(BigEndian(s), b, 8);
  }
}
