/**
  The bits of a block and of a whole stream, and the theorem that the reference
  inflater reads them back. Stored blocks start at a byte boundary, so the bits
  of a block depend on the position at which it is written.
 */
module Stream {
  import opened Bits
  import opened Canonical
  import opened Deflate
  import opened Blocks

  /** One symbol of the code-length alphabet with its extra bits. */
  datatype Packed = Packed(sym: nat, extra: nat)

  datatype Header = Header(lit: seq<nat>, dist: seq<nat>, hclen: nat, cl: seq<nat>, packed: seq<Packed>)

  datatype Body =
    | Stored(data: seq<byte>)
    | Fixed(tokens: seq<Token>)
    | Dynamic(header: Header, tokens: seq<Token>)

  datatype Block = Block(fin: bool, body: Body)

  // ------------------------------------------------- packed code lengths

  ghost function UnpackOne(got: seq<nat>, p: Packed): seq<nat>
  {
    if p.sym < 16 then got + [p.sym]
    else if p.sym == 16 then got + Repeat(if got == [] then 0 else got[|got| - 1], p.extra + 3)
    else got + Repeat(0, p.extra + (if p.sym == 17 then 3 else 11))
  }

  /** The code lengths that a packed list stands for. */
  ghost function Unpack(packed: seq<Packed>): seq<nat>
  {
    if packed == [] then []
    else UnpackOne(Unpack(packed[..|packed| - 1]), packed[|packed| - 1])
  }

  ghost predicate ValidPacked(cl: seq<nat>, packed: seq<Packed>)
  {
    packed == [] ||
    var n := |packed| - 1;
    var p := packed[n];
    && ValidPacked(cl, packed[..n])
    && p.sym <= 18 && HasCode(cl, p.sym)
    && (p.sym >= 16 ==> p.extra < Pow2(REP_BITS[p.sym - 16]))
    && (p.sym == 16 ==> Unpack(packed[..n]) != [])
  }

  ghost function PackedOne(cl: seq<nat>, p: Packed): seq<bool>
    requires p.sym < |cl|
  {
    CodeBits(cl, p.sym) + (if 16 <= p.sym <= 18 then ToBits(p.extra, REP_BITS[p.sym - 16]) else [])
  }

  ghost function PackedBits(cl: seq<nat>, packed: seq<Packed>): seq<bool>
    requires ValidPacked(cl, packed)
  {
    if packed == [] then []
    else PackedBits(cl, packed[..|packed| - 1]) + PackedOne(cl, packed[|packed| - 1])
  }

  // --------------------------------------------------------------- headers

  ghost function ClStored(cl: seq<nat>, n: nat): (r: seq<nat>)
    requires |cl| == 19 && n <= 19
    ensures |r| == n
  {
    seq(n, k requires 0 <= k < n => cl[Zig(k)])
  }

  ghost function ClBits(got: seq<nat>): seq<bool>
  {
    if got == [] then [] else ClBits(got[..|got| - 1]) + ToBits(got[|got| - 1], 3)
  }

  ghost predicate ValidHeader(h: Header)
  {
    && 257 <= |h.lit| <= LIT_CODES && 1 <= |h.dist| <= DIST_CODES && 4 <= h.hclen <= 19
    && |h.cl| == 19 && (forall i :: 0 <= i < 19 ==> h.cl[i] <= 7)
    && (forall k :: h.hclen <= k < 19 ==> h.cl[Zig(k)] == 0)
    && ValidCode(h.cl) && ValidCode(h.lit) && ValidCode(h.dist)
    && ValidPacked(h.cl, h.packed)
    && Unpack(h.packed) == h.lit + h.dist
  }

  ghost function HeaderBits(h: Header): seq<bool>
    requires ValidHeader(h)
  {
    ToBits(|h.lit| - 257, 5) + (ToBits(|h.dist| - 1, 5) + (ToBits(h.hclen - 4, 4)
    + (ClBits(ClStored(h.cl, h.hclen)) + PackedBits(h.cl, h.packed))))
  }

  // ---------------------------------------------------------------- blocks

  function PadLen(pos: nat): (r: nat)
    ensures r < 8 && (pos + r) % 8 == 0
  {
    (8 - pos % 8) % 8
  }

  ghost function Padding(pos: nat): seq<bool>
  {
    Repeat(false, PadLen(pos))
  }

  ghost function StoredBits(data: seq<byte>): seq<bool>
    requires |data| < 0x10000
  {
    ToBits(|data|, 16) + (ToBits(0xFFFF - |data|, 16) + BytesBits(data))
  }

  ghost function CodedBits(lit: seq<nat>, dist: seq<nat>, tokens: seq<Token>): seq<bool>
    requires AllCodable(lit, dist, tokens) && HasCode(lit, END_OF_BLOCK)
  {
    TokensBits(lit, dist, tokens) + CodeBits(lit, END_OF_BLOCK)
  }

  ghost predicate ValidBody(out: seq<byte>, b: Body)
  {
    match b
    case Stored(data) => |data| < 0x10000
    case Fixed(tokens) => AllCodable(FixedLit(), FixedDist(), tokens) && HasCode(FixedLit(), END_OF_BLOCK)
                          && Reaches(out, tokens)
    case Dynamic(h, tokens) => ValidHeader(h) && AllCodable(h.lit, h.dist, tokens)
                               && HasCode(h.lit, END_OF_BLOCK) && Reaches(out, tokens)
  }

  /** The bits of a block whose first bit stands at position `pos`. */
  ghost function BlockBits(b: Block, out: seq<byte>, pos: nat): seq<bool>
    requires ValidBody(out, b.body)
  {
    match b.body
    case Stored(data) => [b.fin] + (ToBits(0, 2) + (Padding(pos + 3) + StoredBits(data)))
    case Fixed(tokens) => [b.fin] + (ToBits(1, 2) + CodedBits(FixedLit(), FixedDist(), tokens))
    case Dynamic(h, tokens) => [b.fin] + (ToBits(2, 2) + (HeaderBits(h) + CodedBits(h.lit, h.dist, tokens)))
  }

  ghost function BodyOut(out: seq<byte>, b: Body): (r: seq<byte>)
    ensures out <= r
  {
    match b
    case Stored(data) => out + data
    case Fixed(tokens) => Expand(out, tokens)
    case Dynamic(_, tokens) => Expand(out, tokens)
  }

  /** The bytes a list of blocks stands for. */
  ghost function BlocksOut(bs: seq<Block>): seq<byte>
  {
    if bs == [] then [] else BodyOut(BlocksOut(bs[..|bs| - 1]), bs[|bs| - 1].body)
  }

  ghost predicate ValidBlocks(bs: seq<Block>)
  {
    bs == [] ||
    var n := |bs| - 1;
    ValidBlocks(bs[..n]) && ValidBody(BlocksOut(bs[..n]), bs[n].body)
  }

  ghost predicate AllOpen(bs: seq<Block>)
  {
    forall i :: 0 <= i < |bs| ==> !bs[i].fin
  }

  /** The bits of a list of blocks that starts at position `base`. */
  ghost function BlocksBits(bs: seq<Block>, base: nat): seq<bool>
    requires ValidBlocks(bs)
  {
    if bs == [] then []
    else
      var n := |bs| - 1;
      var before := BlocksBits(bs[..n], base);
      before + BlockBits(bs[n], BlocksOut(bs[..n]), base + |before|)
  }

  // ------------------------------------------ the fixed code is a valid code

  lemma {:induction false} CountRepeat(lens: seq<nat>, v: nat, n: nat, l: nat)
    ensures Count(lens + Repeat(v, n), l) == Count(lens, l) + (if v == l then n else 0)
    decreases n
  {
    var all := lens + Repeat(v, n);
    if n == 0 {
      assert all == lens;
    } else {
      CountRepeat(lens, v, n - 1, l);
      assert all[..|all| - 1] == lens + Repeat(v, n - 1);
    }
  }

  lemma FixedLitCount(l: nat)
    ensures Count(FixedLit(), l) == if l == 7 then 24 else if l == 8 then 152 else if l == 9 then 112 else 0
  {
    var a := Repeat(8 as nat, 144);
    var b := a + Repeat(9, 112);
    var c := b + Repeat(7, 24);
    CountRepeat([], 8, 144, l);
    assert [] + a == a;
    CountRepeat(a, 9, 112, l);
    CountRepeat(b, 7, 24, l);
    CountRepeat(c, 8, 8, l);
  }

  lemma {:induction false} EndOfEmpty(f: seq<nat>, l: nat)
    requires forall i :: 0 <= i < |f| ==> f[i] > l
    ensures End(f, l) == 0
  {
    if l == 0 {
    } else {
      EndOfEmpty(f, l - 1);
      NoneOfLength(f, l);
    }
  }

  /** Above the longest code the space only doubles. */
  lemma {:induction false} EndAbove(f: seq<nat>, m: nat, l: nat)
    requires m <= l && forall i :: 0 <= i < |f| ==> f[i] <= m
    ensures End(f, l) == Shl(End(f, m), l - m)
    decreases l - m
  {
    if m == l {
    } else {
      EndAbove(f, m, l - 1);
      NoneOfLength(f, l);
    }
  }

  lemma FixedLitValid()
    ensures ValidCode(FixedLit())
    ensures forall s :: 0 <= s < LIT_CODES ==> HasCode(FixedLit(), s)
  {
    var f := FixedLit();
    assert forall i :: 0 <= i < |f| ==> f[i] in {7, 8, 9};
    assert End(f, 6) == 0 by { EndOfEmpty(f, 6); }
    FixedLitCount(7);
    FixedLitCount(8);
    FixedLitCount(9);
    assert End(f, 7) == 24;
    assert End(f, 8) == 200;
    assert End(f, 9) == 512;
    EndAbove(f, 9, 15);
    ShlIsMul(512, 6);
    Pow2Small();
    assert Pow2(6) == 64;
  }

  lemma FixedDistEnd()
    ensures End(FixedDist(), 5) == 32
  {
    var f := FixedDist();
    EndOfEmpty(f, 4);
    CountRepeat([], 5, 32, 5);
    assert [] + Repeat(5 as nat, 32) == f;
  }

  lemma FixedDistValid()
    ensures ValidCode(FixedDist())
    ensures forall s :: 0 <= s < DIST_CODES ==> HasCode(FixedDist(), s)
  {
    hide End;
    var f := FixedDist();
    assert forall i :: 0 <= i < |f| ==> f[i] == 5;
    FixedDistEnd();
    EndAbove(f, 5, 15);
    ShlIsMul(32, 10);
    Pow2Small();
  }

  // --------------------------------------------- headers through the inflater

  lemma {:induction false} RunPackedOne(c: Config, p: Packed, rest: seq<bool>)
    requires c.ph.Lens? && ValidCode(c.ph.cl) && |c.ph.got| < c.ph.hlit + c.ph.hdist
    requires p.sym <= 18 && HasCode(c.ph.cl, p.sym)
    requires p.sym >= 16 ==> p.extra < Pow2(REP_BITS[p.sym - 16])
    requires p.sym == 16 ==> c.ph.got != []
    requires c.bits == PackedOne(c.ph.cl, p) + rest
    ensures Run(c) == Run(c.(bits := rest, ph := Lens(c.ph.hlit, c.ph.hdist, c.ph.cl, UnpackOne(c.ph.got, p))))
  {
    hide Run, Step, ValidCode, CodeBits, DecodeSym, ToBits, Nat, Low, LensEnd, Pow2, Repeat;
    var Lens(hl, hd, cl, got) := c.ph;
    var w := CodeBits(cl, p.sym);
    if p.sym < 16 {
      assert c.bits == w + rest;
      DecodeCode(cl, p.sym, rest);
      Front(w, rest);
      RunLens(c, c.(bits := rest, ph := Lens(hl, hd, cl, got + [p.sym])));
    } else {
      var k := REP_BITS[p.sym - 16];
      var x := ToBits(p.extra, k);
      assert w + x + rest == w + (x + rest);
      DecodeCode(cl, p.sym, x + rest);
      Front(w, x + rest);
      var c1 := c.(bits := x + rest, ph := LensRep(hl, hd, cl, got, p.sym));
      RunLens(c, c1);
      ReadField(p.extra, k, rest);
      LowId(p.extra, k);
      RunRep(c1, c.(bits := rest, ph := Lens(hl, hd, cl, UnpackOne(got, p))));
    }
  }

  lemma {:induction false} RunPacked(c: Config, packed: seq<Packed>, rest: seq<bool>)
    requires c.ph.Lens? && c.ph.got == [] && ValidCode(c.ph.cl) && ValidPacked(c.ph.cl, packed)
    requires |Unpack(packed)| <= c.ph.hlit + c.ph.hdist
    requires c.bits == PackedBits(c.ph.cl, packed) + rest
    ensures Run(c) == Run(c.(bits := rest, ph := Lens(c.ph.hlit, c.ph.hdist, c.ph.cl, Unpack(packed))))
    decreases |packed|
  {
    hide Run, Step, ValidCode, PackedOne;
    var Lens(hl, hd, cl, got) := c.ph;
    if packed == [] {
      assert c.bits == rest;
      assert c == c.(bits := rest, ph := Lens(hl, hd, cl, []));
    } else {
      var n := |packed| - 1;
      var w := PackedOne(cl, packed[n]);
      assert PackedBits(cl, packed[..n]) + w + rest == PackedBits(cl, packed[..n]) + (w + rest);
      RunPacked(c, packed[..n], w + rest);
      RunPackedOne(c.(bits := w + rest, ph := Lens(hl, hd, cl, Unpack(packed[..n]))), packed[n], rest);
    }
  }

  lemma {:induction false} RunClOne(c: Config, len: nat, rest: seq<bool>)
    requires c.ph.ClLens? && |c.ph.got| < c.ph.hclen && len < 8 && c.bits == ToBits(len, 3) + rest
    ensures Run(c) == Run(c.(bits := rest, ph := ClLens(c.ph.hlit, c.ph.hdist, c.ph.hclen, c.ph.got + [len])))
  {
    hide Run, Step, ToBits, Nat, Low, ClEnd, Pow2;
    Pow2Small();
    ReadField(len, 3, rest);
    LowId(len, 3);
    RunCl(c, c.(bits := rest, ph := ClLens(c.ph.hlit, c.ph.hdist, c.ph.hclen, c.ph.got + [len])));
  }

  lemma {:induction false} RunClBits(c: Config, got: seq<nat>, rest: seq<bool>)
    requires c.ph.ClLens? && c.ph.got == [] && |got| <= c.ph.hclen
    requires forall i :: 0 <= i < |got| ==> got[i] < 8
    requires c.bits == ClBits(got) + rest
    ensures Run(c) == Run(c.(bits := rest, ph := ClLens(c.ph.hlit, c.ph.hdist, c.ph.hclen, got)))
    decreases |got|
  {
    hide Run, ToBits;
    var ClLens(hl, hd, hc, _) := c.ph;
    if got == [] {
      assert c.bits == rest;
      assert c == c.(bits := rest, ph := ClLens(hl, hd, hc, got));
    } else {
      var n := |got| - 1;
      var w := ToBits(got[n], 3);
      Assoc(ClBits(got[..n]), w, rest);
      RunClBits(c, got[..n], w + rest);
      RunClOne(c.(bits := w + rest, ph := ClLens(hl, hd, hc, got[..n])), got[n], rest);
      assert got[..n] + [got[n]] == got;
    }
  }

  const ZIGPOS: seq<nat> := [3,17,15,13,11,9,7,5,4,6,8,10,12,14,16,18,0,1,2]

  function ZigPos(i: nat): (r: nat)
    requires i < 19
    ensures r < 19
  {
    ZIGPOS[i]
  }

  lemma ZigPosZig(k: nat)
    requires k < 19
    ensures ZigPos(Zig(k)) == k
  {
  }

  lemma ZigzagInverse(i: nat, k: nat)
    requires i < 19 && k < 19
    ensures Zig(ZigPos(i)) == i
    ensures ZigPos(Zig(k)) == k
  {
    assert ZigPos(Zig(k)) == k by { ZigPosZig(k); }
  }

  lemma {:induction false} UnzigzagPrefix(got: seq<nat>, i: nat)
    requires |got| <= 19 && i < 19
    ensures Unzigzag(got)[i] == if ZigPos(i) < |got| then got[ZigPos(i)] else 0
  {
    hide Zig, ZigPos;
    if got == [] {
    } else {
      UnzigzagPrefix(got[..|got| - 1], i);
      ZigzagInverse(i, |got| - 1);
    }
  }

  /** The decoder puts the stored lengths back in order. */
  lemma UnzigzagStored(cl: seq<nat>, n: nat)
    requires |cl| == 19 && n <= 19
    requires forall k :: n <= k < 19 ==> cl[Zig(k)] == 0
    ensures Unzigzag(ClStored(cl, n)) == cl
  {
    hide Unzigzag;
    var got := ClStored(cl, n);
    forall i | 0 <= i < 19 ensures Unzigzag(got)[i] == cl[i] {
      UnzigzagPrefix(got, i);
      ZigzagInverse(i, 0);
    }
  }

  lemma {:induction false} RunSizes(c: Config, a: nat, b: nat, n: nat, rest: seq<bool>)
    requires c.ph == Sizes([]) && 257 <= a < 289 && 1 <= b < 33 && 4 <= n < 20
    requires c.bits == ToBits(a - 257, 5) + (ToBits(b - 1, 5) + (ToBits(n - 4, 4) + rest))
    ensures Run(c) == Run(c.(bits := rest, ph := ClLens(a, b, n, [])))
  {
    hide Run, Step, ToBits, Nat, Low;
    Pow2Small();
    var r1 := ToBits(b - 1, 5) + (ToBits(n - 4, 4) + rest);
    var r2 := ToBits(n - 4, 4) + rest;
    ReadField(a - 257, 5, r1);
    LowId(a - 257, 5);
    var c1 := c.(bits := r1, ph := Sizes([a]));
    assert [] + [a] == [a];
    RunSize(c, c1);
    ReadField(b - 1, 5, r2);
    LowId(b - 1, 5);
    var c2 := c.(bits := r2, ph := Sizes([a, b]));
    assert [a] + [b] == [a, b];
    RunSize(c1, c2);
    ReadField(n - 4, 4, rest);
    LowId(n - 4, 4);
    var c3 := c.(bits := rest, ph := Sizes([a, b, n]));
    assert [a, b] + [n] == [a, b, n];
    RunSize(c2, c3);
    RunSize(c3, c.(bits := rest, ph := ClLens(a, b, n, [])));
  }

  /** A dynamic header hands both codes to the inflater. */
  lemma {:induction false} RunHeader(c: Config, h: Header, rest: seq<bool>)
    requires c.ph == Sizes([]) && ValidHeader(h)
    requires c.bits == HeaderBits(h) + rest
    ensures Run(c) == Run(c.(bits := rest, ph := Symbols(h.lit, h.dist)))
  {
    hide Run, Step, ToBits, ValidCode, ClBits, PackedBits, Unzigzag, Unpack, ValidPacked;
    var stored := ClStored(h.cl, h.hclen);
    var w := ClBits(stored);
    var p := PackedBits(h.cl, h.packed);
    var s0, s1, s2 := ToBits(|h.lit| - 257, 5), ToBits(|h.dist| - 1, 5), ToBits(h.hclen - 4, 4);
    assert (s0 + (s1 + (s2 + (w + p)))) + rest == s0 + (s1 + (s2 + (w + (p + rest))));
    RunSizes(c, |h.lit|, |h.dist|, h.hclen, w + (p + rest));
    var c1 := c.(bits := w + (p + rest), ph := ClLens(|h.lit|, |h.dist|, h.hclen, []));
    RunClBits(c1, stored, p + rest);
    var c2 := c.(bits := p + rest, ph := ClLens(|h.lit|, |h.dist|, h.hclen, stored));
    UnzigzagStored(h.cl, h.hclen);
    var c3 := c.(bits := p + rest, ph := Lens(|h.lit|, |h.dist|, h.cl, []));
    RunCl(c2, c3);
    RunPacked(c3, h.packed, rest);
    var all := h.lit + h.dist;
    var c4 := c.(bits := rest, ph := Lens(|h.lit|, |h.dist|, h.cl, all));
    assert all[..|h.lit|] == h.lit && all[|h.lit|..] == h.dist;
    RunLens(c4, c.(bits := rest, ph := Symbols(h.lit, h.dist)));
  }

  // ---------------------------------------------- blocks through the inflater

  lemma {:induction false} RunRawBytes(c: Config, data: seq<byte>, rest: seq<bool>)
    requires c.ph == RawBytes(|data|) && c.bits == BytesBits(data) + rest
    ensures Run(c) == Run(EndBlock(c.(bits := rest, out := c.out + data)))
    decreases |data|
  {
    hide Run, Step, ToBits, Nat, Low, Pow2;
    if data == [] {
      assert c.bits == rest && c.out + data == c.out;
      RunRaw(c, EndBlock(c));
    } else {
      var more := BytesBits(data[1..]) + rest;
      assert ToBits(data[0], 8) + BytesBits(data[1..]) + rest == ToBits(data[0], 8) + more;
      ReadField(data[0], 8, more);
      Pow2Small();
      LowId(data[0], 8);
      var c1 := c.(bits := more, out := c.out + [data[0]], ph := RawBytes(|data| - 1));
      RunRaw(c, c1);
      RunRawBytes(c1, data[1..], rest);
      assert c.out + [data[0]] + data[1..] == c.out + data;
    }
  }

  /** A 16-bit field is two bytes, low byte first. */
  lemma TwoBytes(v: nat)
    requires v < 0x10000
    ensures ToBits(v, 16) == ToBits(v, 8) + ToBits(Shr(v, 8), 8)
    ensures Low(v, 8) + 256 * Low(Shr(v, 8), 8) == v
  {
    hide Shr, ToBits, Low;
    ToBitsSplit(v, 8, 8);
    LowSplit(v, 8, 8);
    ShlIsMul(Low(Shr(v, 8), 8), 8);
    Pow2Small();
    LowId(v, 16);
  }

  lemma {:induction false} RunRawHeaderByte(c: Config, v: nat, rest: seq<bool>)
    requires c.ph.RawHeader? && |c.ph.h| < 4 && c.bits == ToBits(v, 8) + rest
    ensures Run(c) == Run(c.(bits := rest, ph := RawHeader(c.ph.h + [Low(v, 8)])))
  {
    hide Run, Step, ToBits, Nat, Low;
    ReadField(v, 8, rest);
    RunRaw(c, c.(bits := rest, ph := RawHeader(c.ph.h + [Low(v, 8)])));
  }

  lemma {:induction false} RunTwoBytes(c: Config, v: nat, rest: seq<bool>)
    requires c.ph.RawHeader? && |c.ph.h| < 3 && c.bits == ToBits(v, 8) + (ToBits(Shr(v, 8), 8) + rest)
    ensures Run(c) == Run(c.(bits := rest, ph := RawHeader(c.ph.h + [Low(v, 8), Low(Shr(v, 8), 8)])))
  {
    hide Run, ToBits, Low, Shr;
    var h, x, y := c.ph.h, Low(v, 8), Low(Shr(v, 8), 8);
    var w := ToBits(Shr(v, 8), 8) + rest;
    RunRawHeaderByte(c, v, w);
    RunRawHeaderByte(c.(bits := w, ph := RawHeader(h + [x])), Shr(v, 8), rest);
    assert h + [x] + [y] == h + [x, y];
  }

  lemma {:induction false} RunStored(c: Config, data: seq<byte>, rest: seq<bool>)
    requires c.ph == RawHeader([]) && |data| < 0x10000 && c.bits == StoredBits(data) + rest
    ensures Run(c) == Run(EndBlock(c.(bits := rest, out := c.out + data)))
  {
    hide Run, Step, ToBits, Nat, Low, Shr, BytesBits;
    var n, m := |data|, 0xFFFF - |data|;
    var w := BytesBits(data) + rest;
    TwoBytes(n);
    TwoBytes(m);
    var a, b, d, e := ToBits(n, 8), ToBits(Shr(n, 8), 8), ToBits(m, 8), ToBits(Shr(m, 8), 8);
    assert ((a + b) + ((d + e) + BytesBits(data))) + rest == a + (b + (d + (e + w)));
    RunTwoBytes(c, n, d + (e + w));
    var h := [Low(n, 8), Low(Shr(n, 8), 8)];
    assert [] + h == h;
    RunTwoBytes(c.(bits := d + (e + w), ph := RawHeader(h)), m, w);
    RunRaw(c.(bits := w, ph := RawHeader(h + [Low(m, 8), Low(Shr(m, 8), 8)])), c.(bits := w, ph := RawBytes(n)));
    RunRawBytes(c.(bits := w, ph := RawBytes(n)), data, rest);
  }

  lemma {:induction false} RunCoded(c: Config, tokens: seq<Token>, rest: seq<bool>)
    requires c.ph.Symbols? && ValidCode(c.ph.lit) && ValidCode(c.ph.dist)
    requires AllCodable(c.ph.lit, c.ph.dist, tokens) && HasCode(c.ph.lit, END_OF_BLOCK) && Reaches(c.out, tokens)
    requires c.bits == CodedBits(c.ph.lit, c.ph.dist, tokens) + rest
    ensures Run(c) == Run(EndBlock(c.(bits := rest, out := Expand(c.out, tokens))))
  {
    hide Run, ValidCode, TokensBits, CodeBits;
    var w := CodeBits(c.ph.lit, END_OF_BLOCK);
    var t := TokensBits(c.ph.lit, c.ph.dist, tokens);
    assert t + w + rest == t + (w + rest);
    RunTokens(c, tokens, w + rest);
    RunEndOfBlock(c.(bits := w + rest, out := Expand(c.out, tokens)), rest);
  }

  /** The three bits in front of every block. */
  lemma {:induction false} RunBlockHeader(c: Config, fin: bool, kind: nat, rest: seq<bool>)
    requires c.ph.BlockHeader? && kind < 3 && c.bits == [fin] + (ToBits(kind, 2) + rest)
    ensures Run(c) == Run(c.(fin := fin,
        bits := if kind == 0 then Align(rest) else rest,
        ph := if kind == 0 then RawHeader([]) else if kind == 1 then Symbols(FixedLit(), FixedDist()) else Sizes([])))
  {
    hide Run, Step, FixedLit, FixedDist, Align;
    var v := (if fin then 1 else 0) + 2 * kind;
    assert v / 2 == kind && v % 2 == (if fin then 1 else 0);
    assert ToBits(v, 3) == [v % 2 == 1] + ToBits(kind, 2);
    assert c.bits == ToBits(v, 3) + rest;
    ReadField(v, 3, rest);
    Pow2Small();
    LowId(v, 3);
    RunBlock(c, c.(fin := fin,
        bits := if kind == 0 then Align(rest) else rest,
        ph := if kind == 0 then RawHeader([]) else if kind == 1 then Symbols(FixedLit(), FixedDist()) else Sizes([])));
  }

  lemma WholeBytes(a: nat, b: nat, n: nat)
    requires a % 8 == 0 && (a + b) % 8 == 0 && n < 8
    ensures b % 8 == 0 && (n + b) % 8 == n
  {
  }

  lemma AlignPadding(pos: nat, w: seq<bool>)
    requires (pos + PadLen(pos) + |w|) % 8 == 0
    ensures Align(Padding(pos) + w) == w
  {
    var p := Padding(pos);
    WholeBytes(pos + PadLen(pos), |w|, PadLen(pos));
    hide PadLen, Repeat;
    assert (p + w)[|p|..] == w;
  }

  lemma EndBlockIgnoresPhase(c: Config, ph: Phase)
    ensures EndBlock(c.(ph := ph)) == EndBlock(c)
  {
  }

  lemma PaddingLen(pos: nat)
    ensures |Padding(pos)| == PadLen(pos)
  {
  }

  lemma HeaderCodes(h: Header)
    requires ValidHeader(h)
    ensures ValidCode(h.lit) && ValidCode(h.dist)
  {
  }

  lemma {:induction false} ZeroBits(n: nat)
    ensures ToBits(0, n) == Repeat(false, n)
  {
    if n == 0 {
    } else {
      ZeroBits(n - 1);
    }
  }

  lemma {:induction false} RunStoredBody(c: Config, fin: bool, data: seq<byte>, pos: nat, rest: seq<bool>)
    requires c.ph.BlockHeader? && |data| < 0x10000 && (pos + |c.bits|) % 8 == 0
    requires c.bits == BlockBits(Block(fin, Stored(data)), c.out, pos) + rest
    ensures Run(c) == Run(EndBlock(c.(fin := fin, bits := rest, out := c.out + data)))
  {
    hide Run, Align, StoredBits, Padding, PadLen, EndBlock, ToBits;
    var f, k, p, w := [fin], ToBits(0, 2), Padding(pos + 3), StoredBits(data);
    Assoc(f, k + (p + w), rest);
    Assoc(k, p + w, rest);
    Assoc(p, w, rest);
    RunBlockHeader(c, fin, 0, p + (w + rest));
    PaddingLen(pos + 3);
    assert |c.bits| == 3 + |p| + |w + rest|;
    AlignPadding(pos + 3, w + rest);
    RunStored(c.(fin := fin, bits := w + rest, ph := RawHeader([])), data, rest);
    EndBlockIgnoresPhase(c.(fin := fin, bits := rest, out := c.out + data), RawHeader([]));
  }

  lemma {:induction false} RunFixedBody(c: Config, fin: bool, tokens: seq<Token>, pos: nat, rest: seq<bool>)
    requires c.ph.BlockHeader? && ValidBody(c.out, Fixed(tokens))
    requires c.bits == BlockBits(Block(fin, Fixed(tokens)), c.out, pos) + rest
    ensures Run(c) == Run(EndBlock(c.(fin := fin, bits := rest, out := Expand(c.out, tokens))))
  {
    hide Run, FixedLit, FixedDist, AllCodable, Reaches, CodedBits, EndBlock, ToBits;
    var f, k, w := [fin], ToBits(1, 2), CodedBits(FixedLit(), FixedDist(), tokens);
    Assoc(f, k + w, rest);
    Assoc(k, w, rest);
    RunBlockHeader(c, fin, 1, w + rest);
    FixedLitValid();
    FixedDistValid();
    var ph := Symbols(FixedLit(), FixedDist());
    RunCoded(c.(fin := fin, bits := w + rest, ph := ph), tokens, rest);
    EndBlockIgnoresPhase(c.(fin := fin, bits := rest, out := Expand(c.out, tokens)), ph);
  }

  lemma {:induction false} RunDynamicBody(c: Config, fin: bool, h: Header, tokens: seq<Token>, pos: nat,
          rest: seq<bool>)
    requires c.ph.BlockHeader? && ValidBody(c.out, Dynamic(h, tokens))
    requires c.bits == BlockBits(Block(fin, Dynamic(h, tokens)), c.out, pos) + rest
    ensures Run(c) == Run(EndBlock(c.(fin := fin, bits := rest, out := Expand(c.out, tokens))))
  {
    hide Run, ValidHeader, AllCodable, Reaches, CodedBits, HeaderBits, EndBlock, ToBits;
    var f, k, hb, w := [fin], ToBits(2, 2), HeaderBits(h), CodedBits(h.lit, h.dist, tokens);
    Assoc(f, k + (hb + w), rest);
    Assoc(k, hb + w, rest);
    Assoc(hb, w, rest);
    RunBlockHeader(c, fin, 2, hb + (w + rest));
    RunHeader(c.(fin := fin, bits := hb + (w + rest), ph := Sizes([])), h, w + rest);
    HeaderCodes(h);
    var ph := Symbols(h.lit, h.dist);
    RunCoded(c.(fin := fin, bits := w + rest, ph := ph), tokens, rest);
    EndBlockIgnoresPhase(c.(fin := fin, bits := rest, out := Expand(c.out, tokens)), ph);
  }

  /** The inflater reads a block of any kind back. */
  lemma {:induction false} RunBody(c: Config, b: Block, pos: nat, rest: seq<bool>)
    requires c.ph.BlockHeader? && ValidBody(c.out, b.body)
    requires c.bits == BlockBits(b, c.out, pos) + rest && (pos + |c.bits|) % 8 == 0
    ensures Run(c) == Run(EndBlock(c.(fin := b.fin, bits := rest, out := BodyOut(c.out, b.body))))
  {
    hide Run, BlockBits, EndBlock, Reaches, AllCodable, ValidHeader, Expand;
    match b.body
    case Stored(data) => RunStoredBody(c, b.fin, data, pos, rest);
    case Fixed(tokens) => RunFixedBody(c, b.fin, tokens, pos, rest);
    case Dynamic(h, tokens) => RunDynamicBody(c, b.fin, h, tokens, pos, rest);
  }

  /** The inflater reads any number of blocks back, whatever their kinds. */
  lemma {:induction false} RunBlocks(c: Config, bs: seq<Block>, base: nat, rest: seq<bool>)
    requires c.ph.BlockHeader? && c.out == [] && !c.fin && ValidBlocks(bs) && AllOpen(bs)
    requires c.bits == BlocksBits(bs, base) + rest && (base + |c.bits|) % 8 == 0
    ensures Run(c) == Run(c.(bits := rest, out := BlocksOut(bs)))
    decreases |bs|
  {
    hide Run, Step, ValidBody, BlockBits, BodyOut;
    if bs == [] {
      assert c.bits == rest;
      assert c == c.(bits := rest, out := []);
    } else {
      var n := |bs| - 1;
      var before := BlocksBits(bs[..n], base);
      var w := BlockBits(bs[n], BlocksOut(bs[..n]), base + |before|);
      assert before + w + rest == before + (w + rest);
      RunBlocks(c, bs[..n], base, w + rest);
      var c1 := c.(bits := w + rest, out := BlocksOut(bs[..n]));
      assert |c.bits| == |before| + |c1.bits|;
      RunBody(c1, bs[n], base + |before|, rest);
    }
  }

  // --------------------------------------------------------- whole streams

  ghost function Prefix(zlib: bool): seq<bool>
  {
    if zlib then ToBits(0x78, 8) + ToBits(0x01, 8) else []
  }

  /** A checksum, most significant byte first. */
  ghost function ChecksumBits(a: nat): seq<bool>
  {
    ToBits(Shr(a, 24), 8) + (ToBits(Shr(a, 16), 8) + (ToBits(Shr(a, 8), 8) + ToBits(a, 8)))
  }

  /** Everything up to the block at hand. */
  ghost function OpenBits(zlib: bool, bs: seq<Block>): seq<bool>
    requires ValidBlocks(bs)
  {
    Prefix(zlib) + BlocksBits(bs, |Prefix(zlib)|)
  }

  ghost predicate Closes(bs: seq<Block>)
  {
    bs != [] && bs[|bs| - 1].fin && AllOpen(bs[..|bs| - 1])
  }

  /** A finished stream: blocks, the last one marked, and the checksum. */
  ghost function FinishedBits(zlib: bool, bs: seq<Block>, adler: nat): seq<bool>
    requires ValidBlocks(bs)
  {
    var w := OpenBits(zlib, bs);
    w + (Padding(|w|) + (if zlib then ChecksumBits(adler) else []))
  }

  lemma {:induction false} RunPrefix(c: Config, rest: seq<bool>)
    requires c.ph == ZHeader0 && c.bits == Prefix(true) + rest
    ensures Run(c) == Run(c.(ph := BlockHeader, bits := rest))
  {
    hide Run, Step, ToBits, Nat, Low;
    Pow2Small();
    var a, b := ToBits(0x78, 8), ToBits(0x01, 8);
    assert a + b + rest == a + (b + rest);
    ReadField(0x78, 8, b + rest);
    LowId(0x78, 8);
    ReadField(0x01, 8, rest);
    LowId(0x01, 8);
    RunZ(c, c.(ph := ZHeader1(0x78), bits := b + rest));
    RunZ(c.(ph := ZHeader1(0x78), bits := b + rest), c.(ph := BlockHeader, bits := rest));
  }

  lemma FourBytes(a: nat)
    requires a < 0x1_0000_0000
    ensures a == ((Low(Shr(a, 24), 8) * 256 + Low(Shr(a, 16), 8)) * 256 + Low(Shr(a, 8), 8)) * 256 + Low(a, 8)
  {
    hide Low, Shr, Shl;
    Pow2Small();
    LowId(a, 32) by { Pow2Add(16, 16); }
    LowSplit(a, 8, 24);
    ShlIsMul(Low(Shr(a, 8), 24), 8);
    LowSplit(Shr(a, 8), 8, 16);
    ShlIsMul(Low(Shr(Shr(a, 8), 8), 16), 8);
    LowSplit(Shr(Shr(a, 8), 8), 8, 8);
    ShlIsMul(Low(Shr(Shr(Shr(a, 8), 8), 8), 8), 8);
    ShrShr(a, 8, 8);
    ShrShr(a, 16, 8);
  }

  lemma {:induction false} RunTrailerByte(c: Config, v: nat, rest: seq<bool>)
    requires c.ph.Trailer? && c.ph.k < 4 && c.bits == ToBits(v, 8) + rest
    ensures Run(c) == Run(c.(ph := Trailer(c.ph.k + 1, c.ph.z * 256 + Low(v, 8)), bits := rest))
  {
    hide Run, Step, ToBits, Nat, Low;
    ReadField(v, 8, rest);
    RunZ(c, c.(ph := Trailer(c.ph.k + 1, c.ph.z * 256 + Low(v, 8)), bits := rest));
  }

  lemma {:induction false} RunDone(c: Config)
    requires c.ph.Done?
    ensures Run(c) == Some(c)
  {
  }

  lemma {:induction false} RunChecksum(c: Config, a: nat, rest: seq<bool>)
    requires c.ph == Trailer(0, 0) && a < 0x1_0000_0000 && c.bits == ChecksumBits(a) + rest
    ensures Run(c) == Some(c.(ph := Done(a), bits := rest))
  {
    hide Run, Step, ToBits, Nat, Low, Shr;
    var d, e, f, g := ToBits(Shr(a, 24), 8), ToBits(Shr(a, 16), 8), ToBits(Shr(a, 8), 8), ToBits(a, 8);
    var l3, l2, l1, l0 := Low(Shr(a, 24), 8), Low(Shr(a, 16), 8), Low(Shr(a, 8), 8), Low(a, 8);
    assert d + (e + (f + g)) + rest == d + (e + (f + (g + rest)));
    RunTrailerByte(c, Shr(a, 24), e + (f + (g + rest)));
    RunTrailerByte(c.(ph := Trailer(1, l3), bits := e + (f + (g + rest))), Shr(a, 16), f + (g + rest));
    RunTrailerByte(c.(ph := Trailer(2, l3 * 256 + l2), bits := f + (g + rest)), Shr(a, 8), g + rest);
    RunTrailerByte(c.(ph := Trailer(3, (l3 * 256 + l2) * 256 + l1), bits := g + rest), a, rest);
    FourBytes(a);
    RunZ(c.(ph := Trailer(4, a), bits := rest), c.(ph := Done(a), bits := rest));
    RunDone(c.(ph := Done(a), bits := rest));
  }

  lemma PrefixLen(zlib: bool)
    ensures |Prefix(zlib)| == if zlib then 16 else 0
  {
  }

  /** Inflating what has been written so far, as long as no block is marked last. */
  lemma {:induction false} RunOpen(zlib: bool, bs: seq<Block>, tail: seq<bool>, room: Room)
    requires ValidBlocks(bs) && AllOpen(bs) && (|OpenBits(zlib, bs)| + |tail|) % 8 == 0
    ensures Run(Start(zlib, OpenBits(zlib, bs) + tail, room))
      == Run(Config(BlockHeader, zlib, false, tail, BlocksOut(bs), room))
  {
    hide Run, BlocksBits, Prefix;
    var px := Prefix(zlib);
    var before := BlocksBits(bs, |px|);
    assert px + before + tail == px + (before + tail);
    var c0 := Start(zlib, px + (before + tail), room);
    var c1 := Config(BlockHeader, zlib, false, before + tail, [], room);
    PrefixLen(zlib);
    if zlib { RunPrefix(c0, before + tail); } else { assert c0 == c1; }
    RunBlocks(c1, bs, |px|, tail);
  }

  lemma BlocksBitsLast(bs: seq<Block>, base: nat)
    requires ValidBlocks(bs) && bs != []
    ensures var n := |bs| - 1;
            var before := BlocksBits(bs[..n], base);
            ValidBlocks(bs[..n]) && ValidBody(BlocksOut(bs[..n]), bs[n].body)
            && BlocksBits(bs, base) == before + BlockBits(bs[n], BlocksOut(bs[..n]), base + |before|)
  {
    hide BlockBits, ValidBody, BodyOut;
  }

  lemma BlocksOutLast(bs: seq<Block>)
    requires bs != []
    ensures BlocksOut(bs) == BodyOut(BlocksOut(bs[..|bs| - 1]), bs[|bs| - 1].body)
  {
  }

  lemma {:induction false} RunClosed(zlib: bool, bs: seq<Block>, tail: seq<bool>, room: Room)
    requires ValidBlocks(bs) && Closes(bs) && (|OpenBits(zlib, bs)| + |tail|) % 8 == 0
    ensures Run(Start(zlib, OpenBits(zlib, bs) + tail, room))
         == Run(EndBlock(Config(BlockHeader, zlib, true, tail, BlocksOut(bs), room)))
  {
    hide Run, BlockBits, BodyOut, ValidBody, Prefix, EndBlock, BlocksBits, AllOpen, Start, BlocksOut;
    var n := |bs| - 1;
    var px := Prefix(zlib);
    BlocksBitsLast(bs, |px|);
    BlocksOutLast(bs);
    var before := BlocksBits(bs[..n], |px|);
    var w := BlockBits(bs[n], BlocksOut(bs[..n]), |px| + |before|);
    assert px + (before + w) + tail == px + before + (w + tail);
    PrefixLen(zlib);
    RunOpen(zlib, bs[..n], w + tail, room);
    RunBody(Config(BlockHeader, zlib, false, w + tail, BlocksOut(bs[..n]), room), bs[n], |px| + |before|, tail);
  }

  lemma ChecksumLen(a: nat)
    ensures |ChecksumBits(a)| == 32
  {
  }

  lemma Eights(a: nat, b: nat, c: nat)
    requires a % 8 == 0 && b % 8 == 0 && c % 8 == 0
    ensures (a + b + c) % 8 == 0
  {
  }

  lemma {:induction false} ZlibInflates(bs: seq<Block>, adler: nat, rest: seq<bool>, room: Room)
    requires ValidBlocks(bs) && Closes(bs) && adler < 0x1_0000_0000 && |rest| % 8 == 0
    ensures Run(Start(true, FinishedBits(true, bs, adler) + rest, room))
         == Some(Config(Done(adler), true, true, rest, BlocksOut(bs), room))
  {
    hide Run, OpenBits, BlocksOut, ChecksumBits, Padding, PadLen, Align, ValidBlocks, Closes;
    var open, sum := OpenBits(true, bs), ChecksumBits(adler);
    var pad := Padding(|open|);
    PaddingLen(|open|);
    ChecksumLen(adler);
    Eights(|open| + |pad|, |sum|, |rest|);
    var tail := pad + (sum + rest);
    Assoc(open, pad + sum, rest);
    Assoc(pad, sum, rest);
    RunClosed(true, bs, tail, room);
    AlignPadding(|open|, sum + rest);
    RunChecksum(Config(Trailer(0, 0), true, true, sum + rest, BlocksOut(bs), room), adler, rest);
  }

  lemma {:induction false} RawInflates(bs: seq<Block>, adler: nat, rest: seq<bool>, room: Room)
    requires ValidBlocks(bs) && Closes(bs) && |rest| % 8 == 0
    ensures Run(Start(false, FinishedBits(false, bs, adler) + rest, room))
         == Some(Config(Done(0), false, true, Padding(|OpenBits(false, bs)|) + rest, BlocksOut(bs), room))
  {
    hide Run, OpenBits, BlocksOut, ChecksumBits, Padding, PadLen, Align, ValidBlocks, Closes;
    var open := OpenBits(false, bs);
    var pad := Padding(|open|);
    PaddingLen(|open|);
    Eights(|open| + |pad|, 0, |rest|);
    assert pad + [] == pad;
    Assoc(open, pad, rest);
    RunClosed(false, bs, pad + rest, room);
    RunDone(Config(Done(0), false, true, pad + rest, BlocksOut(bs), room));
  }

  /** Inflating a finished stream gives exactly the bytes its blocks stand for,
      and the checksum it carries, whatever bytes come after it. */
  lemma {:induction false} FinishedStreamInflates(zlib: bool, bs: seq<Block>, adler: nat, rest: seq<bool>, room: Room)
    requires ValidBlocks(bs) && Closes(bs) && adler < 0x1_0000_0000 && |rest| % 8 == 0
    ensures Run(Start(zlib, FinishedBits(zlib, bs, adler) + rest, room))
         == Some(Config(Done(if zlib then adler else 0), zlib, true,
                        if zlib then rest else Padding(|OpenBits(zlib, bs)|) + rest, BlocksOut(bs), room))
  {
    hide Run, FinishedBits, OpenBits, BlocksOut, Padding, ValidBlocks, Closes;
    if zlib { ZlibInflates(bs, adler, rest, room); } else { RawInflates(bs, adler, rest, room); }
  }
}
