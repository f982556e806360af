/** The growable byte buffer. */
module Buffer {
  import opened Bits

  /** memcpy of `src` to `dst + off`. */
  method CopyInto(dst: array<byte>, off: nat, src: seq<byte>)
    requires off + |src| <= dst.Length
    modifies dst
    ensures dst[..] == old(dst[..off]) + src + old(dst[off + |src|..])
  {
    forall i | 0 <= i < |src| {
      dst[off + i] := src[i];
    }
  }

  /** A byte sequence `s` cut or zero-extended to length n. */
  function Resized(s: seq<byte>, n: nat): (r: seq<byte>)
    ensures |r| == n
    ensures forall i :: 0 <= i < n ==> r[i] == if i < |s| then s[i] else 0
  {
    if n <= |s| then s[..n] else s + seq(n - |s|, _ => 0)
  }

  /** `base` is never freed while in use, so a null base is the array of length 0:
      malloc and realloc to a positive size never yield it and realloc to 0 always does. */
  class Buf {
    var base: array<byte>
    var len: nat

    ghost predicate Valid()
      reads this
    {
      base.Length == len
    }

    ghost function Contents(): (s: seq<byte>)
      reads this, base
      requires Valid()
      ensures |s| == len
    {
      base[..]
    }

    constructor (cap: nat)
      ensures Valid() && fresh(base)
      ensures Contents() == seq(cap, _ => 0)
    {
      base := new byte[0];
      len := 0;
      new;
      Resize(cap);
      assert Contents() == seq(cap, _ => 0);
    }

    method Data() returns (p: array?<byte>)
      requires Valid()
      ensures len == 0 ==> p == null
      ensures len > 0 ==> p == base
    {
      p := if base.Length == 0 then null else base;
    }

    method Size() returns (n: nat)
      requires Valid()
      ensures n == |Contents()|
    {
      n := len;
    }

    method IsNull() returns (b: bool)
      requires Valid()
      ensures b <==> Contents() == []
    {
      b := base.Length == 0 || len == 0;
    }

    method Clean()
      requires Valid()
      modifies this
      ensures Valid() && fresh(base) && Contents() == []
    {
      base := new byte[0];
      len := 0;
    }

    /** Keeps the first min(old, new) bytes and zero-fills the rest. */
    method Resize(newsize: nat)
      requires Valid()
      modifies this
      ensures Valid() && (base == old(base) || fresh(base))
      ensures Contents() == Resized(old(Contents()), newsize)
    {
      if newsize == len {
        return;
      }
      ghost var before := Contents();
      var ptr := new byte[newsize];
      if base.Length == 0 {
        forall i | 0 <= i < newsize {
          ptr[i] := 0;
        }
      } else {
        forall i | 0 <= i < newsize {
          ptr[i] := if i < len then base[i] else 0;
        }
      }
      base := ptr;
      len := newsize;
      assert Contents() == Resized(before, newsize);
    }

    /** Afterwards the buffer holds exactly the given bytes. The source does not alias the buffer. */
    method Copy(data: seq<byte>)
      requires Valid()
      modifies this, base
      ensures Valid() && (base == old(base) || fresh(base))
      ensures Contents() == data
    {
      Resize(|data|);
      CopyInto(base, 0, data);
    }
  }
}
