/**
  Adler-32 (section 8.2 of RFC 1950): the definition reduces after every byte,
  the code after every 5552, which is as many as 32 bits allow.
 */
module Adler {
  import opened Bits

  const BASE: nat := 65521
  const NMAX: nat := 5552

  type uint32 = x: int | 0 <= x < 0x1_0000_0000

  datatype Sums = Sums(s1: nat, s2: nat)

  ghost function Add(p: Sums, c: byte): Sums
  {
    var s1 := (p.s1 + c) % BASE;
    Sums(s1, (p.s2 + s1) % BASE)
  }

  ghost function Sum(p: Sums, data: seq<byte>): Sums
  {
    if data == [] then p else Add(Sum(p, data[..|data| - 1]), data[|data| - 1])
  }

  function Split(a: nat): Sums
  {
    Sums(a % 65536, a / 65536)
  }

  function Join(p: Sums): nat
  {
    p.s2 * 65536 + p.s1
  }

  /** The checksum of `data`, continuing from checksum `a`. */
  ghost function Adler32(a: nat, data: seq<byte>): nat
  {
    Join(Sum(Split(a), data))
  }

  predicate IsAdler(a: nat)
  {
    Split(a).s1 < BASE && Split(a).s2 < BASE
  }

  lemma SplitJoin(p: Sums)
    requires p.s1 < 65536
    ensures Split(Join(p)) == p
  {
  }

  lemma {:induction false} SumConcat(p: Sums, a: seq<byte>, b: seq<byte>)
    ensures Sum(p, a + b) == Sum(Sum(p, a), b)
    decreases |b|
  {
    hide Add;
    if b == [] {
      assert a + b == a;
    } else {
      var n := |b| - 1;
      SumConcat(p, a, b[..n]);
      assert (a + b)[..|a| + n] == a + b[..n];
    }
  }

  lemma {:induction false} SumReduced(p: Sums, data: seq<byte>)
    requires p.s1 < BASE && p.s2 < BASE
    ensures Sum(p, data).s1 < BASE && Sum(p, data).s2 < BASE
  {
  }

  /** The checksum of a concatenation is that of the second part continued from
      that of the first. */
  lemma AdlerConcat(x: nat, a: seq<byte>, b: seq<byte>)
    requires IsAdler(x)
    ensures IsAdler(Adler32(x, a)) && Adler32(x, a + b) == Adler32(Adler32(x, a), b)
    ensures Adler32(x, []) == x && Adler32(x, a) < 0x1_0000_0000
  {
    SumConcat(Split(x), a, b);
    SumReduced(Split(x), a);
    SplitJoin(Sum(Split(x), a));
  }

  // -------------------------------------------------- the sums as they are meant

  ghost function ByteSum(data: seq<byte>): nat
  {
    if data == [] then 0 else data[0] as int + ByteSum(data[1..])
  }

  /** Every byte as often as it enters the second sum: the first one most often. */
  ghost function Weighted(data: seq<byte>): nat
  {
    if data == [] then 0 else |data| * data[0] as int + Weighted(data[1..])
  }

  lemma {:induction false} ByteSumSnoc(data: seq<byte>, c: byte)
    ensures ByteSum(data + [c]) == ByteSum(data) + c as int
  {
    if data == [] {
      assert [c][1..] == [];
      assert data + [c] == [c];
    } else {
      ByteSumSnoc(data[1..], c);
      assert (data + [c])[1..] == data[1..] + [c];
    }
  }

  lemma Once(n: nat, d: nat)
    ensures (n + 1) * d == n * d + d
  {
  }

  lemma {:induction false} WeightedSnoc(data: seq<byte>, c: byte)
    ensures Weighted(data + [c]) == Weighted(data) + ByteSum(data) + c as int
  {
    if data == [] {
      assert [c][1..] == [];
      assert data + [c] == [c];
    } else {
      WeightedSnoc(data[1..], c);
      assert (data + [c])[1..] == data[1..] + [c];
      Once(|data|, data[0]);
    }
  }

  lemma ModStep(a: nat, b: nat)
    ensures (a % BASE + b) % BASE == (a + b) % BASE
  {
  }

  lemma ClosedStep(a: nat, b: nat, c: byte)
    ensures Add(Sums(a % BASE, b % BASE), c) == Sums((a + c) % BASE, (b + (a + c)) % BASE)
  {
    ModStep(a, c);
    ModStep(b, (a + c) % BASE);
    ModStep(a + c, b);
  }

  lemma {:induction false} SumsClosed(data: seq<byte>)
    ensures Sum(Sums(1, 0), data) == Sums((1 + ByteSum(data)) % BASE, (|data| + Weighted(data)) % BASE)
  {
    if data == [] {
    } else {
      var n := |data| - 1;
      var front, c := data[..n], data[n];
      SumsClosed(front);
      assert data == front + [c];
      ByteSumSnoc(front, c);
      WeightedSnoc(front, c);
      ClosedStep(1 + ByteSum(front), n + Weighted(front), c);
    }
  }

  /** Section 8.2 of RFC 1950: one plus the bytes, and the sum of all those sums, both
      modulo 65521, the second in the upper half. */
  lemma AdlerClosed(data: seq<byte>)
    ensures Adler32(1, data) == (|data| + Weighted(data)) % 65521 * 65536 + (1 + ByteSum(data)) % 65521
  {
    hide Sum;
    SumsClosed(data);
  }

  ghost predicate Prime(n: nat)
  {
    n >= 2 && forall d :: 2 <= d < n ==> n % d != 0
  }

  /** None of `d`, `d` + 2, .. up to `top` divides `n`. */
  ghost predicate NoneDivides(n: nat, d: nat, top: nat)
    requires d >= 1
    decreases if d > top then 0 else top + 2 - d
  {
    if d > top then true else if n % d == 0 then false else NoneDivides(n, d + 2, top)
  }

  lemma {:induction false} NoneDividesMeans(n: nat, d: nat, top: nat, k: nat)
    requires 1 <= d <= k <= top && k % 2 == d % 2 && NoneDivides(n, d, top)
    ensures n % k != 0
    decreases k - d
  {
    if k == d {
    } else {
      NoneDividesMeans(n, d + 2, top, k);
    }
  }

  lemma NoneTo65()
    ensures NoneDivides(65521, 3, 65)
  {
    assert NoneDivides(65521, 51, 65);
    assert NoneDivides(65521, 35, 65);
    assert NoneDivides(65521, 19, 65);
    assert NoneDivides(65521, 3, 65);
  }

  lemma NoneTo129()
    ensures NoneDivides(65521, 67, 129)
  {
    assert NoneDivides(65521, 115, 129);
    assert NoneDivides(65521, 99, 129);
    assert NoneDivides(65521, 83, 129);
    assert NoneDivides(65521, 67, 129);
  }

  lemma NoneTo193()
    ensures NoneDivides(65521, 131, 193)
  {
    assert NoneDivides(65521, 179, 193);
    assert NoneDivides(65521, 163, 193);
    assert NoneDivides(65521, 147, 193);
    assert NoneDivides(65521, 131, 193);
  }

  lemma NoneTo255()
    ensures NoneDivides(65521, 195, 255)
  {
    assert NoneDivides(65521, 243, 255);
    assert NoneDivides(65521, 227, 255);
    assert NoneDivides(65521, 211, 255);
    assert NoneDivides(65521, 195, 255);
  }

  lemma Doubled(h: nat, q: nat)
    ensures 2 * h * q == 2 * (h * q)
  {
  }

  lemma EvenDivisor(k: nat)
    requires k >= 2 && k % 2 == 0
    ensures 65521 % k != 0
  {
    var h, q := k / 2, 65521 / k;
    assert 65521 == k * q + 65521 % k;
    assert k == 2 * h;
    Doubled(h, q);
  }

  lemma NoSmallDivisor(k: nat)
    requires 2 <= k <= 255
    ensures 65521 % k != 0
  {
    hide NoneDivides;
    if k % 2 == 0 {
      EvenDivisor(k);
    } else if k <= 65 {
      NoneTo65();
      NoneDividesMeans(65521, 3, 65, k);
    } else if k <= 129 {
      NoneTo129();
      NoneDividesMeans(65521, 67, 129, k);
    } else if k <= 193 {
      NoneTo193();
      NoneDividesMeans(65521, 131, 193, k);
    } else {
      NoneTo255();
      NoneDividesMeans(65521, 195, 255, k);
    }
  }

  lemma MulMono(a: nat, b: nat, d: nat)
    requires a <= b
    ensures d * a <= d * b
  {
  }

  lemma Factor(n: nat, d: nat, q: nat)
    requires n == d * q && d >= 256 && 0 < n < 65536
    ensures 0 < q <= 255
  {
    if q >= 256 { MulMono(256, q, d); }
  }

  /** Multiples of `q` do not differ by less than `q`. */
  lemma NoMultiple(a: nat, b: nat, q: nat, r: nat)
    requires 0 < r < q
    ensures a * q != q * b + r
  {
    if a <= b { MulMono(a, b, q); } else { MulMono(b + 1, a, q); }
  }

  lemma MultipleMod(d: nat, q: nat)
    requires q > 0
    ensures (d * q) % q == 0
  {
    var n := d * q;
    var r := n % q;
    assert n == q * (n / q) + r;
    if r != 0 { NoMultiple(d, n / q, q, r); }
  }

  lemma Quotient(n: nat, d: nat)
    requires 256 <= d < n < 65536 && n % d == 0
    ensures 2 <= n / d <= 255 && n % (n / d) == 0
  {
    var q := n / d;
    assert n == d * q;
    Factor(n, d, q);
    assert q != 1;
    MultipleMod(d, q);
  }

  /** The modulus is the largest prime below 2^16. */
  lemma LargestPrime()
    ensures Prime(BASE)
    ensures forall n :: BASE < n < 65536 ==> !Prime(n)
  {
    forall d | 2 <= d < BASE ensures BASE % d != 0 {
      if d <= 255 {
        NoSmallDivisor(d);
      } else if BASE % d == 0 {
        Quotient(BASE, d);
        NoSmallDivisor(BASE / d);
      }
    }
    forall n | BASE < n < 65536 ensures !Prime(n) {
      if n == 65523 || n == 65529 || n == 65535 {
        assert n % 3 == 0;
      } else if n == 65525 {
        assert n % 5 == 0;
      } else if n == 65527 {
        assert n % 7 == 0;
      } else if n == 65531 {
        assert n % 19 == 0;
      } else if n == 65533 {
        assert n % 13 == 0;
      } else {
        assert n % 2 == 0;
      }
    }
  }

  // ------------------------------------------------------- the blocked method

  /** The largest s2 after `i` bytes of a block. */
  ghost function Most(i: nat): nat
  {
    if i == 0 then 65535 else Most(i - 1) + 65535 + 255 * i
  }

  lemma {:induction false} MostClosed(i: nat)
    ensures 2 * Most(i) == 131070 + 131070 * i + 255 * (i * (i + 1))
  {
    if i == 0 {
    } else {
      MostClosed(i - 1);
      assert i * (i + 1) == (i - 1) * i + 2 * i;
    }
  }

  lemma {:induction false} MostMonotone(i: nat, j: nat)
    requires i <= j
    ensures Most(i) <= Most(j)
  {
    if i == j {
    } else {
      MostMonotone(i, j - 1);
    }
  }

  /** 5552 bytes of 255 do not overflow 32 bits. */
  lemma MostFits(i: nat)
    requires i <= NMAX
    ensures Most(i) < 0x1_0000_0000
  {
    MostMonotone(i, NMAX);
    MostClosed(NMAX);
  }

  ghost predicate Congruent(s1: nat, s2: nat, p: Sums)
  {
    s1 % BASE == p.s1 % BASE && s2 % BASE == p.s2 % BASE
  }

  lemma ModSum(a: nat, c: nat)
    ensures (a + c) % BASE == (a % BASE + c % BASE) % BASE
  {
  }

  lemma ModPlus(a: nat, b: nat, c: nat, d: nat)
    requires a % BASE == b % BASE && c % BASE == d % BASE
    ensures (a + c) % BASE == (b + d) % BASE
  {
    ModSum(a, c);
    ModSum(b, d);
  }

  lemma AddCongruent(s1: nat, s2: nat, p: Sums, c: byte)
    requires Congruent(s1, s2, p)
    ensures Congruent(s1 + c, s2 + (s1 + c), Add(p, c))
  {
    ModPlus(s1, p.s1, c, c);
    var t := (p.s1 + c) % BASE;
    ModPlus(s2, p.s2, s1 + c, t);
  }

  lemma FirstMost()
    ensures Most(0) == 65535
  {
  }

  /** s1 += *ptr++, s2 += s1: neither sum overflows. */
  method AddByte(s1: uint32, s2: uint32, data: seq<byte>, at: nat, i: nat, ghost p: Sums) returns (t1: uint32,
          t2: uint32)
    requires at + i < |data| && i < NMAX && s1 <= 65535 + 255 * i && s2 <= Most(i)
    requires Congruent(s1, s2, Sum(p, data[..at + i]))
    ensures t1 <= 65535 + 255 * (i + 1) && t2 <= Most(i + 1)
    ensures Congruent(t1, t2, Sum(p, data[..at + i + 1]))
  {
    hide Congruent, Add;
    var c := data[at + i];
    MostFits(i + 1);
    AddCongruent(s1, s2, Sum(p, data[..at + i]), c);
    assert data[..at + i + 1][..at + i] == data[..at + i];
    t1 := s1 + c;
    t2 := s2 + t1;
  }

  /** One block: eight bytes at a time, then the rest. */
  method Block(a1: uint32, a2: uint32, data: seq<byte>, at: nat, len: nat, ghost p: Sums) returns (s1: uint32,
          s2: uint32)
    requires at + len <= |data| && len <= NMAX && a1 < 65536 && a2 < 65536
    requires Congruent(a1, a2, Sum(p, data[..at]))
    ensures Congruent(s1, s2, Sum(p, data[..at + len]))
  {
    hide Sum, Congruent, Most;
    s1, s2 := a1, a2;
    var i := 0;
    FirstMost();
    while i + 7 < len
      invariant i <= len && s1 <= 65535 + 255 * i && s2 <= Most(i)
      invariant Congruent(s1, s2, Sum(p, data[..at + i]))
    {
      for k := 0 to 8
        invariant s1 <= 65535 + 255 * (i + k) && s2 <= Most(i + k)
        invariant Congruent(s1, s2, Sum(p, data[..at + i + k]))
      {
        s1, s2 := AddByte(s1, s2, data, at, i + k, p);
      }
      i := i + 8;
    }
    while i < len
      invariant i <= len && s1 <= 65535 + 255 * i && s2 <= Most(i)
      invariant Congruent(s1, s2, Sum(p, data[..at + i]))
    {
      s1, s2 := AddByte(s1, s2, data, at, i, p);
      i := i + 1;
    }
  }

  lemma SumNothing(p: Sums, data: seq<byte>)
    ensures Sum(p, data[..0]) == p && Sum(p, []) == p
  {
  }

  lemma NextLen(left: nat, len: nat)
    requires len <= left && (len == left % NMAX || (len == NMAX && left % NMAX == 0))
    ensures (left - len) % NMAX == 0 && (left > len ==> NMAX <= left - len)
  {
  }

  lemma SelfCongruent(p: Sums)
    ensures Congruent(p.s1, p.s2, p)
  {
  }

  lemma ModTwice(s: nat)
    ensures s % BASE % BASE == s % BASE
  {
  }

  lemma SumIsReduced(p: Sums, data: seq<byte>)
    requires data != []
    ensures Sum(p, data).s1 % BASE == Sum(p, data).s1 && Sum(p, data).s2 % BASE == Sum(p, data).s2
  {
  }

  lemma Reduced(s1: nat, s2: nat, p: Sums, data: seq<byte>)
    requires Congruent(s1, s2, Sum(p, data))
    ensures Congruent(s1 % BASE, s2 % BASE, Sum(p, data))
    ensures data != [] ==> s1 % BASE == Sum(p, data).s1 && s2 % BASE == Sum(p, data).s2
  {
    hide Sum;
    ModTwice(s1);
    ModTwice(s2);
    if data != [] { SumIsReduced(p, data); }
  }

  /** mz_adler32, and the inflater's running checksum. */
  method Update(adler: nat, data: seq<byte>) returns (r: nat)
    requires adler < 0x1_0000_0000
    ensures r == Adler32(adler, data)
  {
    hide Congruent, Sum;
    ghost var p := Split(adler);
    var s1: uint32, s2: uint32 := adler % 65536, adler / 65536;
    var at, left, len := 0, |data|, |data| % NMAX;
    SelfCongruent(p);
    SumNothing(p, data);
    while left > 0
      invariant 0 <= left && 0 <= at && at + left == |data| && (left > 0 ==> len <= left) && len <= NMAX
      invariant len == left % NMAX || (len == NMAX && left % NMAX == 0)
      invariant s1 < 65536 && s2 < 65536
      invariant Congruent(s1, s2, Sum(p, data[..at]))
      invariant at > 0 ==> s1 == Sum(p, data[..at]).s1 && s2 == Sum(p, data[..at]).s2
      invariant data == [] ==> s1 == p.s1 && s2 == p.s2
      decreases left, NMAX - len
    {
      s1, s2 := Block(s1, s2, data, at, len, p);
      at := at + len;
      Reduced(s1, s2, p, data[..at]);
      s1, s2 := s1 % BASE, s2 % BASE;
      NextLen(left, len);
      left := left - len;
      len := NMAX;
    }
    assert data[..at] == data;
    r := s2 * 65536 + s1;
  }
}
