/**
  What RFC 1951 and RFC 1950 say in numbers, proved of the reference inflater and
  of the bits that are written. The laws here use the numbers of the standard and
  not the tables of the program, so that a table that is wrong in the same way on
  both sides of a round trip breaks them.
 */
module Standard {
  import opened Bits
  import opened Canonical
  import opened Deflate
  import opened Blocks
  import opened Stream

  // ---------------------------------------------------------- order of bits

  lemma QuotientUnique(v: nat, d: nat, q: nat, r: nat)
    requires r < d && v == d * q + r
    ensures v / d == q
  {
    MulSign(v / d - q, d);
    assert v == d * (v / d) + v % d;
    assert (v / d - q) * d == d * (v / d) - d * q;
  }

  lemma HalfFirst(v: nat, p: nat)
    requires p >= 1
    ensures (v / 2) / p == v / (2 * p)
  {
    var q, r := (v / 2) / p, (v / 2) % p;
    assert v == (2 * p) * q + (2 * r + v % 2);
    QuotientUnique(v, 2 * p, q, 2 * r + v % 2);
  }

  lemma {:induction false} ShrIsDiv(v: nat, n: nat)
    ensures Shr(v, n) == v / Pow2(n)
  {
    if n == 0 {
    } else {
      ShrIsDiv(v / 2, n - 1);
      HalfFirst(v, Pow2(n - 1));
    }
  }

  /** A field holds its least significant bit first. */
  lemma {:induction false} FieldBit(v: nat, n: nat, i: nat)
    requires i < n
    ensures ToBits(v, n)[i] <==> (v / Pow2(i)) % 2 == 1
  {
    if i == 0 {
    } else {
      FieldBit(v / 2, n - 1, i - 1);
      HalfFirst(v, Pow2(i - 1));
    }
  }

  /** A code word is stored the other way round. */
  lemma {:induction false} WordBit(v: nat, n: nat, i: nat)
    requires i < n
    ensures MsbBits(v, n)[n - 1 - i] <==> (v / Pow2(i)) % 2 == 1
  {
    if i == 0 {
    } else {
      WordBit(v / 2, n - 1, i - 1);
      HalfFirst(v, Pow2(i - 1));
    }
  }

  /** The bits of a byte string, byte after byte. */
  lemma {:induction false} StreamBit(s: seq<byte>, k: nat, i: nat)
    requires k < |s| && i < 8
    ensures BytesBits(s)[8 * k + i] <==> (s[k] / Pow2(i)) % 2 == 1
  {
    if k == 0 {
      FieldBit(s[0], 8, i);
    } else {
      StreamBit(s[1..], k - 1, i);
      assert BytesBits(s)[8 * k + i] == BytesBits(s[1..])[8 * (k - 1) + i];
    }
  }

  // -------------------------------------------------------------- code words

  lemma {:induction false} CountGap(lens: seq<nat>, a: nat, b: nat, l: nat)
    requires a <= b <= |lens| && forall i :: a <= i < b ==> lens[i] != l
    ensures Count(lens[..b], l) == Count(lens[..a], l)
    decreases b - a
  {
    if a == b {
    } else {
      CountGap(lens, a, b - 1, l);
      CountStep(lens, b - 1, l);
    }
  }

  /** Among equal lengths the code numbers count up by one, starting where twice
      the numbers after the shorter ones end (section 3.2.2 of RFC 1951). */
  lemma NextWord(lens: seq<nat>, s: nat, t: nat)
    requires s < t < |lens| && 0 < lens[s] == lens[t]
    requires forall i :: s < i < t ==> lens[i] != lens[s]
    ensures Code(lens, t) == Code(lens, s) + 1
  {
    CountStep(lens, s, lens[s]);
    CountGap(lens, s + 1, t, lens[s]);
  }

  lemma {:induction false} NoneShorter(lens: seq<nat>, l: nat)
    requires forall i :: 0 <= i < |lens| && lens[i] > 0 ==> lens[i] > l
    ensures End(lens, l) == 0
  {
    if l == 0 {
    } else {
      NoneShorter(lens, l - 1);
      NoneOfLength(lens, l);
    }
  }

  /** The first word of the shortest length is all zeros. */
  lemma FirstWord(lens: seq<nat>, s: nat)
    requires s < |lens| && lens[s] > 0
    requires forall i :: 0 <= i < |lens| && lens[i] > 0 ==> lens[i] >= lens[s]
    requires forall i :: 0 <= i < s ==> lens[i] != lens[s]
    ensures Code(lens, s) == 0
  {
    NoneShorter(lens, lens[s] - 1);
    CountGap(lens, 0, s, lens[s]);
    assert lens[..0] == [];
  }

  lemma Doubled(v: nat, k: nat)
    requires k > 0
    ensures 2 * (v * Pow2(k - 1)) == v * Pow2(k)
  {
    assert v * (2 * Pow2(k - 1)) == 2 * (v * Pow2(k - 1));
  }

  lemma {:induction false} EndGap(lens: seq<nat>, l: nat, m: nat)
    requires l <= m && forall i :: 0 <= i < |lens| ==> lens[i] <= l || lens[i] > m
    ensures End(lens, m) == Shl(End(lens, l), m - l)
    decreases m - l
  {
    if m == l {
    } else {
      EndGap(lens, l, m - 1);
      NoneOfLength(lens, m);
    }
  }

  /** The first word of the next length in use is the last word of the length
      before it, plus one, with zeros behind it. */
  lemma NextLength(lens: seq<nat>, s: nat, t: nat)
    requires s < |lens| && t < |lens| && 0 < lens[s] < lens[t]
    requires forall i :: s < i < |lens| ==> lens[i] != lens[s]
    requires forall i :: 0 <= i < t ==> lens[i] != lens[t]
    requires forall i :: 0 <= i < |lens| ==> lens[i] <= lens[s] || lens[i] >= lens[t]
    ensures Code(lens, t) == (Code(lens, s) + 1) * Pow2(lens[t] - lens[s])
  {
    hide Pow2;
    var l, m := lens[s], lens[t];
    CountStep(lens, s, l);
    CountGap(lens, s + 1, |lens|, l);
    assert lens[..|lens|] == lens;
    assert Code(lens, s) + 1 == End(lens, l);
    CountGap(lens, 0, t, m);
    assert lens[..0] == [];
    EndGap(lens, l, m - 1);
    ShlIsMul(End(lens, l), m - 1 - l);
    Doubled(End(lens, l), m - l);
  }

  /** The fixed literal code of section 3.2.6. */
  lemma {:induction false} FixedLitWord(s: nat)
    requires s < 288
    ensures FixedLit()[s] == if s < 144 then 8 else if s < 256 then 9 else if s < 280 then 7 else 8
    ensures Code(FixedLit(), s)
         == if s < 144 then 0x30 + s else if s < 256 then 0x190 + (s - 144) else if s < 280 then s - 256
           else 0xC0 + (s - 280)
    decreases if s < 144 then 24 + s else if s < 256 then 200 + s else if s < 280 then s - 256 else s - 100
  {
    hide Code;
    var f := FixedLit();
    if s == 256 {
      FirstWord(f, s);
    } else if s == 0 {
      FixedLitWord(279);
      NextLength(f, 279, s);
      Pow2Small();
    } else if s == 280 {
      FixedLitWord(143);
      NextWord(f, 143, s);
    } else if s == 144 {
      FixedLitWord(287);
      NextLength(f, 287, s);
      Pow2Small();
    } else {
      FixedLitWord(s - 1);
      NextWord(f, s - 1, s);
    }
  }

  lemma {:induction false} FixedDistWord(s: nat)
    requires s < 32
    ensures FixedDist()[s] == 5 && Code(FixedDist(), s) == s
  {
    hide Code;
    if s == 0 {
      FirstWord(FixedDist(), s);
    } else {
      FixedDistWord(s - 1);
      NextWord(FixedDist(), s - 1, s);
    }
  }

  // ------------------------------------------------------ lengths, distances

  lemma ShortRow(k: nat)
    requires k < 16
    ensures LENGTH_EXTRA[k] == if k < 8 || k == 28 then 0 else k / 4 - 1
    ensures LENGTH_BASE[k] == if k < 8 then 3 + k else if k == 28 then 258 else 3 + (4 + k % 4) * Pow2(k / 4 - 1)
  {
    Pow2Small();
    hide Pow2;
  }

  lemma LongRow(k: nat)
    requires 16 <= k < 29
    ensures LENGTH_EXTRA[k] == if k < 8 || k == 28 then 0 else k / 4 - 1
    ensures LENGTH_BASE[k] == if k < 8 then 3 + k else if k == 28 then 258 else 3 + (4 + k % 4) * Pow2(k / 4 - 1)
  {
    Pow2Small();
    hide Pow2;
  }

  /** The extra bits of length symbol 257 + k and the shortest length it stands for
      (section 3.2.5); 258 has a symbol of its own. */
  lemma LengthRow(k: nat)
    requires k < 29
    ensures LENGTH_EXTRA[k] == if k < 8 || k == 28 then 0 else k / 4 - 1
    ensures LENGTH_BASE[k] == if k < 8 then 3 + k else if k == 28 then 258 else 3 + (4 + k % 4) * Pow2(k / 4 - 1)
  {
    hide Pow2;
    if k < 16 { ShortRow(k); } else { LongRow(k); }
  }

  lemma NearRow(k: nat)
    requires k < 16
    ensures DIST_EXTRA[k] == if k < 4 then 0 else k / 2 - 1
    ensures DIST_BASE[k] == if k < 4 then 1 + k else 1 + (2 + k % 2) * Pow2(k / 2 - 1)
  {
    Pow2Small();
    assert Pow2(6) == 64;
    hide Pow2;
  }

  lemma FarRow(k: nat)
    requires 16 <= k < 30
    ensures DIST_EXTRA[k] == if k < 4 then 0 else k / 2 - 1
    ensures DIST_BASE[k] == if k < 4 then 1 + k else 1 + (2 + k % 2) * Pow2(k / 2 - 1)
  {
    Pow2Small();
    assert Pow2(9) == 512 && Pow2(11) == 2048 && Pow2(12) == 4096;
    hide Pow2;
  }

  /** The same for distance symbol k. */
  lemma DistRow(k: nat)
    requires k < 30
    ensures DIST_EXTRA[k] == if k < 4 then 0 else k / 2 - 1
    ensures DIST_BASE[k] == if k < 4 then 1 + k else 1 + (2 + k % 2) * Pow2(k / 2 - 1)
  {
    hide Pow2;
    if k < 16 { NearRow(k); } else { FarRow(k); }
  }

  // ------------------------------------------------------------ zigzag order

  /** The order of section 3.2.7: 16, 17, 18, 0, then 8 and up between 7 and down. */
  lemma ZigOrder(j: nat)
    ensures j < 3 ==> Zig(j) == 16 + j
    ensures Zig(3) == 0
    ensures j < 8 ==> Zig(4 + 2 * j) == 8 + j
    ensures j < 7 ==> Zig(5 + 2 * j) == 7 - j
  {
  }

  function FieldOrZero(got: seq<nat>, k: nat): nat
  {
    if k < |got| then got[k] else 0
  }

  /** Which length of the code-length code every stored field sets; a length
      without a field is zero. */
  lemma StoredLengths(got: seq<nat>, v: nat)
    requires |got| <= 19
    ensures |Unzigzag(got)| == 19
    ensures v == 0 ==> Unzigzag(got)[v] == FieldOrZero(got, 3)
    ensures 1 <= v <= 7 ==> Unzigzag(got)[v] == FieldOrZero(got, 19 - 2 * v)
    ensures 8 <= v <= 15 ==> Unzigzag(got)[v] == FieldOrZero(got, 2 * v - 12)
    ensures 16 <= v <= 18 ==> Unzigzag(got)[v] == FieldOrZero(got, v - 16)
  {
    hide Unzigzag, Zig, ZigPos;
    if v < 19 {
      var k := if v == 0 then 3 else if v <= 7 then 19 - 2 * v else if v <= 15 then 2 * v - 12 else v - 16;
      ZigOrder(if v == 0 then 0 else if v <= 7 then 7 - v else if v <= 15 then v - 8 else v - 16);
      ZigzagInverse(0, k);
      UnzigzagPrefix(got, v);
    }
  }

  // ------------------------------------------------- headers of the machine

  /** The `n` bits from bit `i` on, as a number. */
  ghost function Field(bits: seq<bool>, i: nat, n: nat): nat
    requires i + n <= |bits|
  {
    Nat(bits[i..i + n])
  }

  lemma FieldLater(bits: seq<bool>, k: nat, i: nat, n: nat)
    requires k + i + n <= |bits|
    ensures Field(bits[k..], i, n) == Field(bits, k + i, n)
  {
    assert bits[k..][i..i + n] == bits[k + i..k + i + n];
  }

  lemma FirstField(bits: seq<bool>, n: nat)
    requires n <= |bits|
    ensures Nat(bits[..n]) == Field(bits, 0, n)
  {
    assert bits[..n] == bits[0..n];
  }

  lemma DropTwice(bits: seq<bool>, a: nat, b: nat)
    requires a + b <= |bits|
    ensures bits[a..][b..] == bits[a + b..]
  {
  }

  /** A step that takes `n` bits, seen from `k` bits before it. */
  lemma TakeField(bits: seq<bool>, k: nat, n: nat)
    requires k + n <= |bits|
    ensures Nat(bits[k..][..n]) == Field(bits, k, n) && bits[k..][n..] == bits[k + n..]
  {
    FirstField(bits[k..], n);
    FieldLater(bits, k, 0, n);
    DropTwice(bits, k, n);
  }

  /** Section 2.2 of RFC 1950: method 8, a window of at most 32 KB, a check that
      makes the two bytes a multiple of 31, and no preset dictionary. */
  predicate GoodHeader(cmf: nat, flg: nat)
  {
    cmf % 16 == 8 && cmf / 16 <= 7 && (cmf * 256 + flg) % 31 == 0 && (flg / 32) % 2 != 1
  }

  lemma NothingFollows(c: Config)
    requires Step(c) == None && !c.ph.Done?
    ensures Run(c) == None
  {
  }

  lemma SecondStep(c: Config)
    requires c.ph.ZHeader1? && |c.bits| >= 8
    ensures ZStep(c)
         == if GoodHeader(c.ph.z0, Nat(c.bits[..8])) then Some(c.(ph := BlockHeader, bits := c.bits[8..])) else None
  {
    hide Nat;
  }

  lemma {:induction false} SecondByte(c: Config)
    requires c.ph.ZHeader1? && |c.bits| >= 8
    ensures Run(c) == if GoodHeader(c.ph.z0, Field(c.bits, 0, 8))
                      then Run(c.(ph := BlockHeader, bits := c.bits[8..])) else None
  {
    hide Run, Nat, Field, GoodHeader, ZStep;
    FirstField(c.bits, 8);
    SecondStep(c);
    if GoodHeader(c.ph.z0, Field(c.bits, 0, 8)) {
      RunZ(c, c.(ph := BlockHeader, bits := c.bits[8..]));
    } else {
      NothingFollows(c);
    }
  }

  lemma {:induction false} ZlibHeader(c: Config)
    requires c.ph.ZHeader0? && |c.bits| >= 16
    ensures Run(c) == if GoodHeader(Field(c.bits, 0, 8), Field(c.bits, 8, 8))
                      then Run(c.(ph := BlockHeader, bits := c.bits[16..])) else None
  {
    hide Run, Nat, Field, GoodHeader;
    FirstField(c.bits, 8);
    FieldLater(c.bits, 8, 0, 8);
    DropTwice(c.bits, 8, 8);
    var c1 := c.(ph := ZHeader1(Field(c.bits, 0, 8)), bits := c.bits[8..]);
    RunZ(c, c1);
    SecondByte(c1);
  }

  lemma ThreeBits(x: bool, y: bool, z: bool)
    ensures Nat([x, y, z]) == (if x then 1 else 0) + (if y then 2 else 0) + (if z then 4 else 0)
  {
    assert [x, y, z][1..] == [y, z] && [y, z][1..] == [z] && [z][1..] == [];
    assert Nat([z]) == (if z then 1 else 0);
    assert Nat([y, z]) == (if y then 1 else 0) + 2 * Nat([z]);
  }

  /** Section 3.2.3 of RFC 1951: the last-block bit and the kind. */
  lemma {:induction false} BlockKinds(c: Config)
    requires c.ph.BlockHeader? && |c.bits| >= 3
    ensures var next := c.bits[3..];
            var c1 := c.(fin := c.bits[0], bits := next);
            Run(c) == if c.bits[1] && c.bits[2] then None
                      else if c.bits[1] then Run(c1.(ph := Symbols(FixedLit(), FixedDist())))
                      else if c.bits[2] then Run(c1.(ph := Sizes([])))
                      else Run(c1.(ph := RawHeader([]), bits := next[|next| % 8..]))
  {
    hide Run, FixedLit, FixedDist;
    ThreeBits(c.bits[0], c.bits[1], c.bits[2]);
    assert c.bits[..3] == [c.bits[0], c.bits[1], c.bits[2]];
    if c.bits[1] && c.bits[2] {
      NothingFollows(c);
    } else {
      RunBlock(c, BlockStep(c).value);
    }
  }

  lemma TwiceSum(n: nat, p: nat, m: nat)
    ensures 2 * (n + p * m) == 2 * n + (2 * p) * m
  {
  }

  lemma {:induction false} NatSplit(a: seq<bool>, b: seq<bool>)
    ensures Nat(a + b) == Nat(a) + Pow2(|a|) * Nat(b)
  {
    if a == [] {
      assert a + b == b;
    } else {
      NatSplit(a[1..], b);
      assert (a + b)[1..] == a[1..] + b;
      TwiceSum(Nat(a[1..]), Pow2(|a| - 1), Nat(b));
    }
  }

  lemma WideField(bits: seq<bool>, i: nat)
    requires i + 16 <= |bits|
    ensures Field(bits, i, 16) == Field(bits, i, 8) + 256 * Field(bits, i + 8, 8)
  {
    hide Nat, Pow2;
    assert bits[i..i + 16] == bits[i..i + 8] + bits[i + 8..i + 16];
    NatSplit(bits[i..i + 8], bits[i + 8..i + 16]);
    Pow2Small();
  }

  lemma {:induction false} HeaderByte(c: Config, k: nat, h: seq<nat>)
    requires c.ph == RawHeader([]) && |h| < 4 && k + 8 <= |c.bits|
    ensures Run(c.(ph := RawHeader(h), bits := c.bits[k..]))
         == Run(c.(ph := RawHeader(h + [Field(c.bits, k, 8)]), bits := c.bits[k + 8..]))
  {
    hide Run, Nat, Field;
    TakeField(c.bits, k, 8);
    RunRaw(c.(ph := RawHeader(h), bits := c.bits[k..]),
           c.(ph := RawHeader(h + [Field(c.bits, k, 8)]), bits := c.bits[k + 8..]));
  }

  lemma {:induction false} LengthCheck(c: Config)
    requires c.ph.RawHeader? && |c.ph.h| == 4
    ensures var h := c.ph.h;
            var n, m := h[0] + 256 * h[1], h[2] + 256 * h[3];
            Run(c) == if n + m == 65535 then Run(c.(ph := RawBytes(n))) else None
  {
    hide Run;
    var h := c.ph.h;
    if h[0] + 256 * h[1] + (h[2] + 256 * h[3]) == 65535 {
      RunRaw(c, c.(ph := RawBytes(h[0] + 256 * h[1])));
    } else {
      NothingFollows(c);
    }
  }

  /** Section 3.2.4: the length of a stored block and its complement. */
  lemma {:induction false} StoredLength(c: Config)
    requires c.ph == RawHeader([]) && |c.bits| >= 32
    ensures var n, m := Field(c.bits, 0, 16), Field(c.bits, 16, 16);
            Run(c) == if n + m == 65535 then Run(c.(ph := RawBytes(n), bits := c.bits[32..])) else None
  {
    hide Run, Nat, Field;
    var b := c.bits;
    var x0, x1, x2, x3 := Field(b, 0, 8), Field(b, 8, 8), Field(b, 16, 8), Field(b, 24, 8);
    WideField(b, 0);
    WideField(b, 16);
    assert b[0..] == b && [] + [x0] == [x0] && [x0] + [x1] == [x0, x1];
    assert [x0, x1] + [x2] == [x0, x1, x2] && [x0, x1, x2] + [x3] == [x0, x1, x2, x3];
    HeaderByte(c, 0, []);
    HeaderByte(c, 8, [x0]);
    HeaderByte(c, 16, [x0, x1]);
    HeaderByte(c, 24, [x0, x1, x2]);
    LengthCheck(c.(ph := RawHeader([x0, x1, x2, x3]), bits := b[32..]));
  }

  lemma {:induction false} CountField(c: Config, k: nat, h: seq<nat>)
    requires c.ph == Sizes([]) && |h| < 3 && k + (if |h| == 2 then 4 else 5) <= |c.bits|
    ensures var n, min := if |h| == 2 then 4 else 5, if |h| == 0 then 257 else if |h| == 1 then 1 else 4;
            Run(c.(ph := Sizes(h), bits := c.bits[k..]))
            == Run(c.(ph := Sizes(h + [min + Field(c.bits, k, n)]), bits := c.bits[k + n..]))
  {
    hide Run, Nat, Field;
    var n, min := if |h| == 2 then 4 else 5, if |h| == 0 then 257 else if |h| == 1 then 1 else 4;
    TakeField(c.bits, k, n);
    RunSize(c.(ph := Sizes(h), bits := c.bits[k..]),
            c.(ph := Sizes(h + [min + Field(c.bits, k, n)]), bits := c.bits[k + n..]));
  }

  /** Section 3.2.7: how many lengths of each code a dynamic header has. */
  lemma {:induction false} DynamicCounts(c: Config)
    requires c.ph == Sizes([]) && |c.bits| >= 14
    ensures var b := c.bits;
            Run(c) == Run(c.(bits := b[14..],
                ph := ClLens(257 + Field(b, 0, 5), 1 + Field(b, 5, 5), 4 + Field(b, 10, 4), [])))
  {
    hide Run, Nat, Field;
    var b := c.bits;
    var x0, x1, x2 := 257 + Field(b, 0, 5), 1 + Field(b, 5, 5), 4 + Field(b, 10, 4);
    assert b[0..] == b && [] + [x0] == [x0] && [x0] + [x1] == [x0, x1] && [x0, x1] + [x2] == [x0, x1, x2];
    CountField(c, 0, []);
    CountField(c, 5, [x0]);
    CountField(c, 10, [x0, x1]);
    RunSize(c.(ph := Sizes([x0, x1, x2]), bits := b[14..]), c.(ph := ClLens(x0, x1, x2, []), bits := b[14..]));
  }

  lemma {:induction false} TrailerByte(c: Config, i: nat, k: nat, z: nat)
    requires c.ph.Trailer? && i < 4 && k + 8 <= |c.bits|
    ensures Run(c.(ph := Trailer(i, z), bits := c.bits[k..]))
         == Run(c.(ph := Trailer(i + 1, 256 * z + Field(c.bits, k, 8)), bits := c.bits[k + 8..]))
  {
    hide Run, Nat, Field;
    TakeField(c.bits, k, 8);
    RunZ(c.(ph := Trailer(i, z), bits := c.bits[k..]),
         c.(ph := Trailer(i + 1, 256 * z + Field(c.bits, k, 8)), bits := c.bits[k + 8..]));
  }

  /** The trailer of RFC 1950: the checksum, most significant byte first. */
  lemma {:induction false} TrailerBytes(c: Config)
    requires c.ph == Trailer(0, 0) && |c.bits| >= 32
    ensures var b := c.bits;
            var sum := 0x100_0000 * Field(b, 0, 8) + 0x1_0000 * Field(b, 8, 8) + 0x100 * Field(b, 16, 8)
              + Field(b, 24, 8);
            Run(c) == Some(c.(ph := Done(sum), bits := b[32..]))
  {
    hide Run, Nat, Field;
    var b := c.bits;
    var z1 := 256 * Field(b, 0, 8) + Field(b, 8, 8);
    var z2 := 256 * z1 + Field(b, 16, 8);
    var z3 := 256 * z2 + Field(b, 24, 8);
    assert b[0..] == b;
    TrailerByte(c, 0, 0, 0);
    TrailerByte(c, 1, 8, Field(b, 0, 8));
    TrailerByte(c, 2, 16, z1);
    TrailerByte(c, 3, 24, z2);
    RunZ(c.(ph := Trailer(4, z3), bits := b[32..]), c.(ph := Done(z3), bits := b[32..]));
    RunDone(c.(ph := Done(z3), bits := b[32..]));
  }

  // ------------------------------------------------------ dynamic code lengths

  ghost function ThreeBitFields(bits: seq<bool>, n: nat): (r: seq<nat>)
    requires 3 * n <= |bits|
    ensures |r| == n && forall k :: 0 <= k < n ==> r[k] == Field(bits, 3 * k, 3)
  {
    if n == 0 then [] else ThreeBitFields(bits, n - 1) + [Field(bits, 3 * (n - 1), 3)]
  }

  lemma {:induction false} ReadThreeBitFields(c: Config, n: nat)
    requires c.ph.ClLens? && c.ph.got == [] && n <= c.ph.hclen && 3 * n <= |c.bits|
    ensures Run(c) == Run(c.(bits := c.bits[3 * n..],
        ph := ClLens(c.ph.hlit, c.ph.hdist, c.ph.hclen, ThreeBitFields(c.bits, n))))
  {
    hide Run, Nat, Field;
    var ClLens(hl, hd, hc, _) := c.ph;
    if n == 0 {
      assert c.bits[0..] == c.bits;
      assert c == c.(bits := c.bits[0..], ph := ClLens(hl, hd, hc, ThreeBitFields(c.bits, 0)));
    } else {
      ReadThreeBitFields(c, n - 1);
      var before := ThreeBitFields(c.bits, n - 1);
      TakeField(c.bits, 3 * (n - 1), 3);
      hide ClEnd;
      RunCl(c.(bits := c.bits[3 * (n - 1)..], ph := ClLens(hl, hd, hc, before)),
            c.(bits := c.bits[3 * n..], ph := ClLens(hl, hd, hc, before + [Field(c.bits, 3 * (n - 1), 3)])));
    }
  }

  /** Section 3.2.7: the fields of three bits, put into the order of `StoredLengths`,
      are the lengths of the code that the other lengths are packed with. */
  lemma {:induction false} CodeLengthCode(c: Config)
    requires c.ph.ClLens? && c.ph.got == [] && c.ph.hclen <= 19 && 3 * c.ph.hclen <= |c.bits|
    ensures var cl := Unzigzag(ThreeBitFields(c.bits, c.ph.hclen));
            Run(c) == if ValidCode(cl)
                      then Run(c.(bits := c.bits[3 * c.ph.hclen..], ph := Lens(c.ph.hlit, c.ph.hdist, cl, [])))
                      else None
  {
    hide Run, Unzigzag, ThreeBitFields, ValidCode;
    var ClLens(hl, hd, hc, _) := c.ph;
    ReadThreeBitFields(c, hc);
    var got := ThreeBitFields(c.bits, hc);
    var c1 := c.(bits := c.bits[3 * hc..], ph := ClLens(hl, hd, hc, got));
    if ValidCode(Unzigzag(got)) {
      RunCl(c1, c1.(ph := Lens(hl, hd, Unzigzag(got), [])));
    } else {
      NothingFollows(c1);
    }
  }

  /** Symbol 16 repeats the length before it 3 to 6 times, 17 and 18 give 3 to 10
      and 11 to 138 zeros. */
  function Repeated(got: seq<nat>, sym: nat, extra: nat): seq<nat>
    requires 16 <= sym <= 18 && (sym == 16 ==> got != [])
  {
    if sym == 16 then Repeat(got[|got| - 1], 3 + extra)
    else if sym == 17 then Repeat(0, 3 + extra)
    else Repeat(0, 11 + extra)
  }

  lemma {:induction false} RepeatedLengths(c: Config)
    requires c.ph.LensRep? && 16 <= c.ph.sym <= 18 && (c.ph.sym == 16 ==> c.ph.got != [])
    requires |c.bits| >= 7
    ensures var n := if c.ph.sym == 16 then 2 else if c.ph.sym == 17 then 3 else 7;
            var LensRep(hl, hd, cl, got, sym) := c.ph;
            Run(c) == Run(c.(bits := c.bits[n..], ph := Lens(hl, hd, cl,
              got + Repeated(got, sym, Field(c.bits, 0, n)))))
  {
    hide Run, Nat, Field, Repeat;
    var n := if c.ph.sym == 16 then 2 else if c.ph.sym == 17 then 3 else 7;
    FirstField(c.bits, n);
    RunRep(c, RepStep(c).value);
  }

  // --------------------------------------------------------- symbols of a block

  /** Section 3.2.5: the symbols of the literal and length alphabet. */
  lemma {:induction false} LiteralSymbols(c: Config, s: nat)
    requires c.ph.Symbols? && DecodeSym(c.ph.lit, c.bits) == Some(s)
    ensures c.ph.lit[s] <= |c.bits|
    ensures var c1 := c.(bits := c.bits[c.ph.lit[s]..]);
            Run(c) == if s < 256 then Run(c1.(out := c.out + [s]))
                      else if s == 256 then Run(EndBlock(c1))
                      else if s < 286
                      then Run(c1.(ph := LenExtra(c.ph.lit, c.ph.dist, LENGTH_BASE[s - 257], LENGTH_EXTRA[s - 257])))
                      else None
  {
    hide Run, DecodeSym, EndBlock;
    if s < 286 {
      RunSymbol(c, SymbolStep(c).value);
    } else {
      NothingFollows(c);
    }
  }

  lemma {:induction false} LengthBits(c: Config)
    requires c.ph.LenExtra? && |c.bits| >= c.ph.extra
    ensures var n := c.ph.extra;
            Run(c) == Run(c.(bits := c.bits[n..], ph := DistSym(c.ph.lit, c.ph.dist, c.ph.base + Field(c.bits, 0, n))))
  {
    hide Run, Nat, Field;
    FirstField(c.bits, c.ph.extra);
    RunSymbol(c, SymbolStep(c).value);
  }

  /** Distance symbols 30 and 31 do not occur. */
  lemma {:induction false} DistanceSymbols(c: Config, s: nat)
    requires c.ph.DistSym? && DecodeSym(c.ph.dist, c.bits) == Some(s)
    ensures c.ph.dist[s] <= |c.bits|
    ensures var DistSym(lit, dist, len) := c.ph;
            Run(c) == if s < 30
                      then Run(c.(bits := c.bits[dist[s]..], ph := DistExtra(lit, dist, len, DIST_BASE[s],
                        DIST_EXTRA[s])))
                      else None
  {
    hide Run, DecodeSym;
    if s < 30 {
      RunMatch(c, MatchStep(c).value);
    } else {
      NothingFollows(c);
    }
  }

  /** A distance before the start of the output or beyond the window ends the run. */
  lemma {:induction false} DistanceBits(c: Config)
    requires c.ph.DistExtra? && |c.bits| >= c.ph.extra
    ensures var DistExtra(lit, dist, len, base, n) := c.ph;
            var d := base + Field(c.bits, 0, n);
            Run(c) == if 1 <= d <= |c.out| && d <= 32768
                      then Run(c.(bits := c.bits[n..], ph := Copy(lit, dist, len, d))) else None
  {
    hide Run, Nat, Field;
    FirstField(c.bits, c.ph.extra);
    var d := c.ph.base + Field(c.bits, 0, c.ph.extra);
    if 1 <= d <= |c.out| && d <= 32768 {
      RunMatch(c, MatchStep(c).value);
    } else {
      NothingFollows(c);
    }
  }

  /** A match repeats what stands `d` bytes back, also where it overlaps itself. */
  lemma {:induction false} CopiedBytes(out: seq<byte>, len: nat, d: nat, i: nat)
    requires 1 <= d <= |out| && i < |out| + len
    ensures |CopyOut(out, len, d)| == |out| + len
    ensures CopyOut(out, len, d)[i] == if i < |out| then out[i] else CopyOut(out, len, d)[i - d]
    decreases len
  {
    CopyLen(out, len, d);
    if len == 0 {
    } else {
      var more := out + [out[|out| - d]];
      CopiedBytes(more, len - 1, d, i);
    }
  }

  // ---------------------------------------------------------- streams refused

  /** What the program reports as a bad stream, whatever buffer it writes to. */
  lemma {:induction false} BadStreams(c: Config)
    ensures c.ph.ZHeader1? && |c.bits| >= 8 && !GoodHeader(c.ph.z0, Field(c.bits, 0, 8)) && c.ph.z0 / 16 <= 7
            ==> FateOf(c) == Fails(c)
    ensures c.ph.BlockHeader? && |c.bits| >= 3 && c.bits[1] && c.bits[2] ==> FateOf(c) == Fails(c)
    ensures c.ph.RawHeader? && |c.ph.h| == 4 && c.ph.h[0] + 256 * c.ph.h[1] + c.ph.h[2] + 256 * c.ph.h[3] != 65535
            ==> FateOf(c) == Fails(c)
    ensures c.ph.ClLens? && |c.ph.got| == c.ph.hclen <= 19 && !ValidCode(Unzigzag(c.ph.got)) ==> FateOf(c) == Fails(c)
    ensures c.ph.Lens? && |c.ph.got| > c.ph.hlit + c.ph.hdist ==> FateOf(c) == Fails(c)
    ensures c.ph.Lens? && |c.ph.got| == c.ph.hlit + c.ph.hdist && !ValidCode(c.ph.got[..c.ph.hlit])
            ==> FateOf(c) == Fails(c)
    ensures c.ph.Lens? && |c.ph.got| == c.ph.hlit + c.ph.hdist && !ValidCode(c.ph.got[c.ph.hlit..])
            ==> FateOf(c) == Fails(c)
    ensures c.ph.Lens? && c.ph.got == [] && 0 < c.ph.hlit + c.ph.hdist && DecodeSym(c.ph.cl, c.bits) == Some(16)
            ==> FateOf(c) == Fails(c)
  {
    hide FateOf, Nat, Field, Unzigzag, ValidCode, DecodeSym, Step;
    if c.ph.BlockHeader? && |c.bits| >= 3 {
      ThreeBits(c.bits[0], c.bits[1], c.bits[2]);
      assert c.bits[..3] == [c.bits[0], c.bits[1], c.bits[2]];
    }
    if |c.bits| >= 8 { FirstField(c.bits, 8); }
    if Refuses(c) { RefusedStops(c); }
  }

  /** A distance before the start is reported where the output is one flat buffer. */
  lemma {:induction false} TooFarBack(c: Config)
    requires c.ph.DistExtra? && |c.bits| >= c.ph.extra && c.room.Plain?
    requires c.ph.base + Field(c.bits, 0, c.ph.extra) > |c.out|
    ensures FateOf(c) == Fails(c)
  {
    hide FateOf, Nat, Field, Step;
    FirstField(c.bits, c.ph.extra);
    RefusedStops(c);
  }

  // ------------------------------------------------------------ a whole stream

  /** A number below 2^16, low byte first. */
  function TwoBytesOf(v: nat): seq<byte>
    requires v < 65536
  {
    [v % 256, v / 256]
  }

  /** A zlib stream of one stored block, byte by byte. */
  function StoredStream(data: seq<byte>, sum: nat): seq<byte>
    requires |data| < 65536 && sum < 0x1_0000_0000
  {
    [0x78, 0x01] + ([0x01] + TwoBytesOf(|data|) + TwoBytesOf(65535 - |data|) + data)
    + [sum / 0x100_0000, sum / 0x1_0000 % 256, sum / 0x100 % 256, sum % 256]
  }

  lemma LowByte(v: nat)
    ensures ToBits(v, 8) == ToBits(v % 256, 8)
  {
    hide ToBits, Nat;
    NatToBits(v, 8);
    NatToBits(v % 256, 8);
    LowMod(v, 8);
    LowMod(v % 256, 8);
    Pow2Small();
    ToBitsNat(ToBits(v, 8));
    ToBitsNat(ToBits(v % 256, 8));
  }

  lemma ShiftedByte(v: nat, k: nat)
    ensures ToBits(Shr(v, k), 8) == ToBits(v / Pow2(k) % 256, 8)
  {
    hide ToBits, Shr, Pow2;
    ShrIsDiv(v, k);
    LowByte(v / Pow2(k));
  }

  lemma BytePair(a: byte, b: byte)
    ensures BytesBits([a, b]) == ToBits(a, 8) + ToBits(b, 8)
  {
    hide ToBits;
    assert [a, b] == [a] + [b];
    BytesBitsConcat([a], [b]);
    BytesBitsOne(a);
    BytesBitsOne(b);
  }

  lemma StoredLengthBytes(n: nat)
    requires n < 65536
    ensures ToBits(n, 16) == BytesBits(TwoBytesOf(n))
  {
    hide ToBits, BytesBits, Pow2;
    ToBitsSplit(n, 8, 8);
    LowByte(n);
    ShiftedByte(n, 8);
    Pow2Small();
    BytePair(n % 256, n / 256);
  }

  lemma ChecksumBytes(sum: nat)
    requires sum < 0x1_0000_0000
    ensures ChecksumBits(sum)
         == BytesBits([sum / 0x100_0000, sum / 0x1_0000 % 256, sum / 0x100 % 256, sum % 256])
  {
    hide ToBits, BytesBits, Pow2, Shr;
    Pow2Small();
    assert Pow2(24) == 0x100_0000 by { Pow2Add(16, 8); }
    var a, b, d, e: byte := sum / 0x100_0000, sum / 0x1_0000 % 256, sum / 0x100 % 256, sum % 256;
    assert a == sum / 0x100_0000 % 256;
    ShiftedByte(sum, 24);
    ShiftedByte(sum, 16);
    ShiftedByte(sum, 8);
    LowByte(sum);
    BytePair(a, b);
    BytePair(d, e);
    BytesBitsConcat([a, b], [d, e]);
    assert [a, b] + [d, e] == [a, b, d, e];
    Assoc(ToBits(a, 8), ToBits(b, 8), ToBits(d, 8) + ToBits(e, 8));
  }

  lemma FirstByteOfStored()
    ensures [true] + (ToBits(0, 2) + Padding(19)) == BytesBits([0x01])
  {
    BytesBitsOne(1);
    assert ToBits(1, 8) == [true] + ToBits(0, 7);
    ToBitsSplit(0, 2, 5);
    assert ToBits(0, 5) == Padding(19) by { ZeroBits(5); }
  }

  lemma OnlyBlockCloses(b: Block)
    requires b.fin
    ensures Closes([b])
  {
  }

  lemma OneStoredBlock(data: seq<byte>)
    requires |data| < 65536
    ensures var bs := [Block(true, Stored(data))];
            ValidBlocks(bs) && Closes(bs) && BlocksOut(bs) == data
            && BlocksBits(bs, 16) == BlockBits(bs[0], [], 16)
  {
    hide BlockBits, Closes;
    var bs := [Block(true, Stored(data))];
    assert bs[..0] == [];
    assert BlocksOut(bs) == [] + data == data;
    assert Closes(bs) by { OnlyBlockCloses(bs[0]); }
    assert [] + BlockBits(bs[0], [], 16) == BlockBits(bs[0], [], 16);
  }

  lemma StoredBlockBits(data: seq<byte>)
    requires |data| < 65536
    ensures BlockBits(Block(true, Stored(data)), [], 16)
         == [true] + (ToBits(0, 2) + Padding(19)) + (ToBits(|data|, 16)
           + (ToBits(65535 - |data|, 16) + BytesBits(data)))
  {
    hide ToBits, BytesBits, Padding;
    var w := StoredBits(data);
    Assoc([true], ToBits(0, 2) + Padding(19), w);
    Assoc(ToBits(0, 2), Padding(19), w);
  }

  lemma FourPieces(a: seq<byte>, b: seq<byte>, c: seq<byte>, d: seq<byte>)
    ensures BytesBits(a + b + c + d) == BytesBits(a) + (BytesBits(b) + (BytesBits(c) + BytesBits(d)))
  {
    hide BytesBits;
    BytesBitsConcat(a + b + c, d);
    BytesBitsConcat(a + b, c);
    BytesBitsConcat(a, b);
    Assoc(BytesBits(a) + BytesBits(b), BytesBits(c), BytesBits(d));
    Assoc(BytesBits(a), BytesBits(b), BytesBits(c) + BytesBits(d));
  }

  lemma StoredBlockBytes(data: seq<byte>, h: seq<byte>, u: seq<byte>, v: seq<byte>)
    requires |data| < 65536
    requires BytesBits(h) == [true] + (ToBits(0, 2) + Padding(19))
    requires BytesBits(u) == ToBits(|data|, 16) && BytesBits(v) == ToBits(65535 - |data|, 16)
    ensures BlockBits(Block(true, Stored(data)), [], 16) == BytesBits(h + u + v + data)
  {
    hide ToBits, BytesBits, Padding, BlockBits;
    StoredBlockBits(data);
    FourPieces(h, u, v, data);
  }

  lemma StoredStreamBits(data: seq<byte>, sum: nat)
    requires |data| < 65536 && sum < 0x1_0000_0000
    ensures var bs := [Block(true, Stored(data))];
            ValidBlocks(bs) && BytesBits(StoredStream(data, sum)) == FinishedBits(true, bs, sum)
  {
    hide ToBits, BytesBits, TwoBytesOf, BlockBits, BlocksBits, ChecksumBits, ValidBlocks, Closes, BlocksOut;
    var bs := [Block(true, Stored(data))];
    var block := [0x01] + TwoBytesOf(|data|) + TwoBytesOf(65535 - |data|) + data;
    var tail: seq<byte> := [sum / 0x100_0000, sum / 0x1_0000 % 256, sum / 0x100 % 256, sum % 256];
    OneStoredBlock(data);
    FirstByteOfStored();
    StoredLengthBytes(|data|);
    StoredLengthBytes(65535 - |data|);
    StoredBlockBytes(data, [0x01], TwoBytesOf(|data|), TwoBytesOf(65535 - |data|));
    ChecksumBytes(sum);
    BytePair(0x78, 0x01);
    BytesBitsConcat([0x78, 0x01], block);
    BytesBitsConcat([0x78, 0x01] + block, tail);
    assert StoredStream(data, sum) == [0x78, 0x01] + block + tail;
    var w := OpenBits(true, bs);
    assert w == BytesBits([0x78, 0x01] + block);
    assert Padding(|w|) == [];
    assert [] + ChecksumBits(sum) == ChecksumBits(sum);
  }

  /** The inflater reads that stream as the data and the checksum. */
  lemma StoredStreamInflates(data: seq<byte>, sum: nat)
    requires |data| < 65536 && sum < 0x1_0000_0000
    ensures Inflate(true, StoredStream(data, sum)) == Some(Config(Done(sum), true, true, [], data, Either))
  {
    hide Run, BytesBits, FinishedBits, ValidBlocks, Closes, BlocksOut, StoredStream;
    var bs := [Block(true, Stored(data))];
    OneStoredBlock(data);
    StoredStreamBits(data, sum);
    var w := FinishedBits(true, bs, sum);
    FinishedStreamInflates(true, bs, sum, [], Either);
    assert w + [] == w;
  }
}
