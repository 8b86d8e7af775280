/** src/debug.c: the byte buffer, little-endian integers and LEB128 (section 7.6 of DWARF 4). */
module Bytes {
  import Words

  type byte = x: nat | x < 256

  datatype Option<T> = None | Some(value: T) {
    predicate IsFailure() { None? }

    function PropagateFailure<U>(): Option<U>
      requires None?
    {
      Option<U>.None
    }

    function Extract(): T
      requires Some?
    {
      value
    }
  }

  // ---------- Little-endian integers ----------

  function Power256(n: nat): (p: nat)
    ensures p > 0
  {
    if n == 0 then 1 else 256 * Power256(n - 1)
  }

  // The n low bytes of v, in two's complement for a negative v.
  function Little(v: int, n: nat): (b: seq<byte>)
    ensures |b| == n
    decreases n
  {
    if n == 0 then [] else [v % 256] + Little(v / 256, n - 1)
  }

  function FromLittle(b: seq<byte>): nat {
    if b == [] then 0 else b[0] + 256 * FromLittle(b[1..])
  }

  lemma {:induction false} LittleRoundTrip(v: int, n: nat)
    ensures FromLittle(Little(v, n)) == v % Power256(n)
    decreases n
  {
    if n > 0 {
      LittleRoundTrip(v / 256, n - 1);
      assert Little(v, n)[1..] == Little(v / 256, n - 1);
      SplitByte(v, Power256(n - 1));
    }
  }

  lemma SplitByte(v: int, p: nat)
    requires p > 0
    ensures v % (256 * p) == v % 256 + 256 * (v / 256 % p)
  {
    var a := v / 256;
    assert v == a / p * (256 * p) + (256 * (a % p) + v % 256) by {
      assert a / p * (256 * p) == 256 * (a / p * p);
    }
    Words.DivModUnique(v, 256 * p, a / p, 256 * (a % p) + v % 256);
  }

  // ---------- LEB128 ----------

  function Uleb(v: nat): (b: seq<byte>)
    ensures |b| > 0
  {
    if v / 128 == 0 then [v % 128] else [v % 128 + 128] + Uleb(v / 128)
  }

  function Sleb(v: int): (b: seq<byte>)
    ensures |b| > 0
    decreases if v < 0 then -v else v
  {
    var x, w := v % 128, v / 128;
    if (w == 0 && x < 64) || (w == -1 && x >= 64) then [x] else [x + 128] + Sleb(w)
  }

  // A number and the bytes behind it.
  function ReadUleb(b: seq<byte>): Option<(nat, seq<byte>)>
    decreases b
  {
    if b == [] then None
    else if b[0] < 128 then Some((b[0], b[1..]))
    else match ReadUleb(b[1..])
      case None => None
      case Some((v, rest)) => Some((b[0] - 128 + 128 * v, rest))
  }

  // The last byte's second highest bit is the sign.
  function ReadSleb(b: seq<byte>): Option<(int, seq<byte>)>
    decreases b
  {
    if b == [] then None
    else if b[0] < 128 then
      var x: int := b[0];
      Some((if x < 64 then x else x - 128, b[1..]))
    else match ReadSleb(b[1..])
      case None => None
      case Some((v, rest)) => Some((b[0] - 128 + 128 * v, rest))
  }

  lemma {:induction false} UlebRoundTrip(v: nat, rest: seq<byte>)
    ensures ReadUleb(Uleb(v) + rest) == Some((v, rest))
  {
    if v / 128 != 0 {
      UlebRoundTrip(v / 128, rest);
      assert (Uleb(v) + rest)[1..] == Uleb(v / 128) + rest;
    } else {
      assert (Uleb(v) + rest)[1..] == rest;
    }
  }

  lemma {:induction false} SlebRoundTrip(v: int, rest: seq<byte>)
    ensures ReadSleb(Sleb(v) + rest) == Some((v, rest))
    decreases if v < 0 then -v else v
  {
    var x, w := v % 128, v / 128;
    if (w == 0 && x < 64) || (w == -1 && x >= 64) {
      assert (Sleb(v) + rest)[1..] == rest;
    } else {
      SlebRoundTrip(w, rest);
      assert (Sleb(v) + rest)[1..] == Sleb(w) + rest;
    }
  }

  lemma SlebUnfolds(d: seq<byte>, v: int)
    ensures var x, w := v % 128, v / 128;
            d + Sleb(v) == if (w == 0 && x < 64) || (w == -1 && x >= 64) then d + [x] else d + [x + 128] + Sleb(w)
  {
  }

  // ---------- Buffer ----------

  class Buffer {
    var data: seq<byte>

    constructor ()
      ensures data == []
    {
      data := [];
    }

    // d_bytes
    method Append(b: seq<byte>)
      modifies this
      ensures data == old(data) + b
    {
      data := data + b;
    }

    // d_u8
    method U8(v: byte)
      modifies this
      ensures data == old(data) + [v]
    {
      data := data + [v];
    }

    // d_u16, d_u32 and d_u64: the low n bytes of v, as a little-endian machine keeps them
    method Unsigned(v: int, n: nat)
      modifies this
      ensures data == old(data) + Little(v, n)
    {
      var x, i := v, 0;
      while i < n
        invariant 0 <= i <= n && data + Little(x, n - i) == old(data) + Little(v, n)
      {
        assert data + Little(x, n - i) == data + [x % 256] + Little(x / 256, n - i - 1);
        data := data + [x % 256];
        x := x / 256;
        i := i + 1;
      }
    }

    // d_uleb
    method UnsignedLeb(v: nat)
      modifies this
      ensures data == old(data) + Uleb(v)
    {
      var x, more := v, true;
      while more
        invariant (if more then data + Uleb(x) else data) == old(data) + Uleb(v)
        decreases more, x
      {
        var b: nat := x % 128;
        assert data + Uleb(x) == if x / 128 == 0 then data + [b] else data + [b + 128] + Uleb(x / 128);
        x := x / 128;
        more := x != 0;
        if more {
          b := b + 128;
        }
        data := data + [b];
      }
    }

    // d_sleb; v >> 7 is the arithmetic shift
    method SignedLeb(v: int)
      modifies this
      ensures data == old(data) + Sleb(v)
    {
      hide Sleb;
      var x, more := v, true;
      while more
        invariant (if more then data + Sleb(x) else data) == old(data) + Sleb(v)
        decreases more, if x < 0 then -x else x
      {
        var b: nat := x % 128;
        var sign := b >= 64;
        SlebUnfolds(data, x);
        x := x / 128;
        if (x == 0 && !sign) || (x == -1 && sign) {
          more := false;
        } else {
          b := b + 128;
        }
        data := data + [b];
      }
    }
  }

  // The examples of section 7.6 of DWARF 4.
  lemma UnsignedExamples()
    ensures Uleb(2) == [2] && Uleb(127) == [127] && Uleb(128) == [128, 1] && Uleb(129) == [129, 1]
    ensures Uleb(130) == [130, 1] && Uleb(12857) == [185, 100]
  {
    assert Uleb(1) == [1] && Uleb(100) == [100];
  }

  lemma SignedExamples()
    ensures Sleb(2) == [2] && Sleb(-2) == [126] && Sleb(127) == [255, 0] && Sleb(-127) == [129, 127]
    ensures Sleb(128) == [128, 1] && Sleb(-128) == [128, 127] && Sleb(129) == [129, 1] && Sleb(-129) == [255, 126]
  {
    assert Sleb(0) == [0] && Sleb(1) == [1] && Sleb(-1) == [127] && Sleb(-2) == [126];
  }
}
