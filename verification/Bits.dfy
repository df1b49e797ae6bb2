/**
  Bit strings as DEFLATE packs them: the first bit of the stream is the least
  significant bit of the first byte. A bit string is a `seq<bool>`; the shift,
  mask and or operators of the code are defined on naturals bit by bit.
 */
module Bits {
  type byte = x: int | 0 <= x < 256

  function Pow2(n: nat): (r: nat)
    ensures r >= 1
  {
    if n == 0 then 1 else 2 * Pow2(n - 1)
  }

  /** v << n */
  function Shl(v: nat, n: nat): nat
  {
    if n == 0 then v else 2 * Shl(v, n - 1)
  }

  /** v >> n */
  function Shr(v: nat, n: nat): nat
  {
    if n == 0 then v else Shr(v / 2, n - 1)
  }

  /** v & ((1 << n) - 1) */
  function Low(v: nat, n: nat): (r: nat)
    ensures r < Pow2(n)
  {
    if n == 0 then 0 else v % 2 + 2 * Low(v / 2, n - 1)
  }

  /** x | y */
  function Or(x: nat, y: nat): nat
    decreases x + y
  {
    if x == 0 then y
    else if y == 0 then x
    else (if x % 2 == 1 || y % 2 == 1 then 1 else 0) + 2 * Or(x / 2, y / 2)
  }

  /** The low `n` bits of `v`, least significant first. */
  function ToBits(v: nat, n: nat): (r: seq<bool>)
    ensures |r| == n
  {
    if n == 0 then [] else [v % 2 == 1] + ToBits(v / 2, n - 1)
  }

  /** The value of a bit string whose first bit weighs 1. */
  function Nat(b: seq<bool>): (v: nat)
    ensures v < Pow2(|b|)
  {
    if b == [] then 0 else (if b[0] then 1 else 0) + 2 * Nat(b[1..])
  }

  /** The bits of a code word, most significant first. */
  function MsbBits(v: nat, n: nat): (r: seq<bool>)
    ensures |r| == n
  {
    if n == 0 then [] else MsbBits(v / 2, n - 1) + [v % 2 == 1]
  }

  /** The bits of a byte string, in stream order. */
  function BytesBits(s: seq<byte>): (r: seq<bool>)
    ensures |r| == 8 * |s|
  {
    if s == [] then [] else ToBits(s[0], 8) + BytesBits(s[1..])
  }

  // ---------------------------------------------------------------- powers

  lemma {:induction false} Pow2Add(a: nat, b: nat)
    ensures Pow2(a + b) == Pow2(a) * Pow2(b)
  {
    if a == 0 {
    } else {
      Pow2Add(a - 1, b);
      assert Pow2(a + b) == 2 * Pow2(a - 1 + b);
    }
  }

  lemma {:induction false} Pow2Monotone(a: nat, b: nat)
    requires a <= b
    ensures Pow2(a) <= Pow2(b)
  {
    if a == b {
    } else {
      Pow2Monotone(a, b - 1);
    }
  }

  lemma Assoc<T>(a: seq<T>, b: seq<T>, c: seq<T>)
    ensures a + b + c == a + (b + c)
  {
  }

  lemma Pow2Small()
    ensures Pow2(0) == 1 && Pow2(1) == 2 && Pow2(2) == 4 && Pow2(3) == 8 && Pow2(4) == 16 && Pow2(5) == 32
    ensures Pow2(7) == 128 && Pow2(8) == 256 && Pow2(10) == 1024 && Pow2(13) == 8192
    ensures Pow2(15) == 32768 && Pow2(16) == 65536
  {
    assert Pow2(4) == 16;
    assert Pow2(8) == 256 by { Pow2Add(4, 4); }
    assert Pow2(16) == 65536 by { Pow2Add(8, 8); }
    assert Pow2(10) == 1024 by { Pow2Add(8, 2); }
    assert Pow2(13) == 8192 by { Pow2Add(8, 5); }
  }

  lemma {:induction false} ShlIsMul(v: nat, n: nat)
    ensures Shl(v, n) == v * Pow2(n)
  {
    if n == 0 {
    } else {
      ShlIsMul(v, n - 1);
      assert v * Pow2(n) == v * (2 * Pow2(n - 1)) == 2 * (v * Pow2(n - 1));
    }
  }

  // ------------------------------------------------------------- registers

  lemma {:induction false} ToBitsNat(b: seq<bool>)
    ensures ToBits(Nat(b), |b|) == b
  {
    if b == [] {
    } else {
      ToBitsNat(b[1..]);
      assert Nat(b) / 2 == Nat(b[1..]);
      assert b == [b[0]] + b[1..];
    }
  }

  lemma {:induction false} NatToBits(v: nat, n: nat)
    ensures Nat(ToBits(v, n)) == Low(v, n)
  {
    if n == 0 {
    } else {
      NatToBits(v / 2, n - 1);
      assert ToBits(v, n)[1..] == ToBits(v / 2, n - 1);
    }
  }

  lemma {:induction false} LowId(v: nat, n: nat)
    requires v < Pow2(n)
    ensures Low(v, n) == v
  {
    if n == 0 {
    } else {
      LowId(v / 2, n - 1);
    }
  }

  lemma {:induction false} LowSplit(v: nat, a: nat, b: nat)
    ensures Low(v, a + b) == Low(v, a) + Shl(Low(Shr(v, a), b), a)
  {
    if a == 0 {
    } else {
      LowSplit(v / 2, a - 1, b);
      assert a - 1 + b == a + b - 1;
    }
  }

  lemma {:induction false} ShrShr(v: nat, a: nat, b: nat)
    ensures Shr(Shr(v, a), b) == Shr(v, a + b)
  {
    if a == 0 {
    } else {
      ShrShr(v / 2, a - 1, b);
    }
  }

  /** Reading `a` bits and then `b` more from a register is reading `a + b`. */
  lemma {:induction false} ToBitsSplit(v: nat, a: nat, b: nat)
    ensures ToBits(v, a + b) == ToBits(v, a) + ToBits(Shr(v, a), b)
  {
    if a == 0 {
      assert ToBits(v, a) == [];
    } else {
      ToBitsSplit(v / 2, a - 1, b);
      assert a - 1 + b == a + b - 1;
      var hi := ToBits(Shr(v, a), b);
      assert [v % 2 == 1] + (ToBits(v / 2, a - 1) + hi) == [v % 2 == 1] + ToBits(v / 2, a - 1) + hi;
    }
  }

  lemma {:induction false} ShrBound(v: nat, a: nat, b: nat)
    requires v < Pow2(a + b)
    ensures Shr(v, a) < Pow2(b)
  {
    if a == 0 {
    } else {
      ShrBound(v / 2, a - 1, b);
    }
  }

  lemma OrHalves(x: nat, y: nat)
    ensures Or(x, y) / 2 == Or(x / 2, y / 2)
    ensures Or(x, y) % 2 == 1 <==> (x % 2 == 1 || y % 2 == 1)
  {
  }

  /** `x |= y << a` appends the bits of `y` to a register holding `a` bits. */
  lemma {:induction false} OrShl(x: nat, a: nat, y: nat, b: nat)
    requires x < Pow2(a) && y < Pow2(b)
    ensures Or(x, Shl(y, a)) < Pow2(a + b)
    ensures ToBits(Or(x, Shl(y, a)), a + b) == ToBits(x, a) + ToBits(y, b)
  {
    if a == 0 {
      assert ToBits(x, a) == [];
    } else {
      OrShl(x / 2, a - 1, y, b);
      assert a - 1 + b == a + b - 1;
      var z := Shl(y, a);
      OrHalves(x, z);
      assert z / 2 == Shl(y, a - 1) && z % 2 == 0;
      assert [x % 2 == 1] + (ToBits(x / 2, a - 1) + ToBits(y, b))
          == [x % 2 == 1] + ToBits(x / 2, a - 1) + ToBits(y, b);
    }
  }

  lemma {:induction false} BytesBitsConcat(a: seq<byte>, b: seq<byte>)
    ensures BytesBits(a + b) == BytesBits(a) + BytesBits(b)
  {
    if a == [] {
      assert a + b == b;
    } else {
      BytesBitsConcat(a[1..], b);
      assert (a + b)[1..] == a[1..] + b;
      Assoc(ToBits(a[0], 8), BytesBits(a[1..]), BytesBits(b));
    }
  }

  lemma BytesBitsOne(c: byte)
    ensures BytesBits([c]) == ToBits(c, 8)
  {
    assert [c][1..] == [];
  }
}
