/**
  Writing one block out of the token buffer: static, dynamic or stored, with the
  rollbacks between them, and the bits that a flush puts behind it.
 */
module BlockWriter {
  import opened Bits
  import opened Canonical
  import opened Deflate
  import opened Blocks
  import opened Stream
  import opened HuffmanTable
  import opened UsedSymbols
  import opened LzBuffer
  import opened BitWriter
  import opened HeaderWriter
  import opened Emitter
  import opened BlockSize
  import opened TableCost

  datatype Flush = NoFlush | SyncFlush | FullFlush | Finish

  datatype Settings = Settings(zlib: bool, forceStatic: bool, forceRaw: bool, fast: bool)

  // ------------------------------------------------------------ specification

  /** The bits of a block behind its first bit, written at position `pos`. */
  ghost function BodyBits(out: seq<byte>, b: Body, pos: nat): seq<bool>
    requires ValidBody(out, b)
  {
    match b
    case Stored(data) => ToBits(0, 2) + (Padding(pos + 2) + StoredBits(data))
    case Fixed(tokens) => ToBits(1, 2) + CodedBits(FixedLit(), FixedDist(), tokens)
    case Dynamic(h, tokens) => ToBits(2, 2) + (HeaderBits(h) + CodedBits(h.lit, h.dist, tokens))
  }

  lemma BodyIsBlock(b: Block, out: seq<byte>, pos: nat)
    requires ValidBody(out, b.body)
    ensures BlockBits(b, out, pos) == [b.fin] + BodyBits(out, b.body, pos + 1)
  {
    hide ValidHeader, AllCodable, Reaches, StoredBits, CodedBits, HeaderBits, Padding, ToBits, FixedLit, FixedDist;
  }

  /** What a flush writes behind the block: the padding and the checksum, or an
      empty stored block. */
  ghost function Tail(zlib: bool, flush: Flush, adler: nat, pos: nat): seq<bool>
  {
    match flush
    case NoFlush => []
    case Finish => Padding(pos) + (if zlib then ChecksumBits(adler) else [])
    case _ => [false] + (ToBits(0, 2) + (Padding(pos + 3) + StoredBits([])))
  }

  // ------------------------------------------------------------- coded blocks

  method FixedSizes() returns (lit: array<nat>, dist: array<nat>)
    ensures fresh(lit) && fresh(dist) && lit[..] == FixedLit() && dist[..] == FixedDist()
  {
    lit := new nat[LIT_CODES](_ => 0);
    dist := new nat[DIST_CODES](_ => 0);
    FillSizes(lit, 0, 144, 8);
    FillSizes(lit, 144, 256, 9);
    FillSizes(lit, 256, 280, 7);
    FillSizes(lit, 280, 288, 8);
    FillSizes(dist, 0, 32, 5);
  }

  lemma FixedLimits()
    ensures forall i :: 0 <= i < LIT_CODES ==> FixedLit()[i] <= MAX_LEN
    ensures forall i :: 0 <= i < DIST_CODES ==> FixedDist()[i] <= MAX_LEN
  {
  }

  lemma LengthsAre(a: array<nat>, b: array<nat>)
    requires a[..] == FixedLit() && b[..] == FixedDist()
    ensures a.Length == LIT_CODES && b.Length == DIST_CODES
    ensures forall i :: 0 <= i < LIT_CODES ==> a[i] == FixedLit()[i]
    ensures forall i :: 0 <= i < DIST_CODES ==> b[i] == FixedDist()[i]
  {
    hide FixedLit, FixedDist;
    assert |a[..]| == a.Length && |b[..]| == b.Length;
  }

  /** tdefl_start_static_block. */
  method StartStaticBlock(w: BitWriter) returns (lit: Table, dist: Table)
    requires w.Valid()
    modifies w, w.buf
    ensures ValidTable(lit) && ValidTable(dist) && lit.sizes == FixedLit() && dist.sizes == FixedDist()
    ensures w.Appends(ToBits(1, 2))
  {
    hide w.Valid, CodesFor, ToBits;
    var sizes0, sizes1 := FixedSizes();
    var codes0 := new nat[LIT_CODES](_ => 0);
    var codes1 := new nat[DIST_CODES](_ => 0);
    FixedLimits();
    LengthsAre(sizes0, sizes1);
    StaticTable(MAX_LEN, sizes0, codes0);
    StaticTable(MAX_LEN, sizes1, codes1);
    lit := Table(sizes0[..], codes0[..]);
    dist := Table(sizes1[..], codes1[..]);
    Pow2Small();
    w.PutBits(1, 2);
  }

  // ---------------------------------------------------------- dynamic blocks

  /** Every token of the buffer has codes in tables built from its frequencies. */
  lemma BufferCodable(ts: seq<Token>, c0: seq<nat>, c1: seq<nat>, lit: seq<nat>, dist: seq<nat>)
    requires AllValid(ts) && Counted(ts, c0, c1)
    requires GoodSizes(c0[END_OF_BLOCK := 1], lit, MAX_LEN) && GoodSizes(c1, dist, MAX_LEN)
    ensures AllCodable(lit, dist, ts) && HasCode(lit, END_OF_BLOCK)
  {
    hide LenSym, DistSymOf, ValidCode, LitCount, DistCount;
    forall i | 0 <= i < |ts| ensures Codable(lit, dist, ts[i]) {
      CountedPositive(ts, i);
      SymRange(ts[i]);
    }
  }

  /** `a` is `b` without unused symbols at the end. */
  ghost predicate Truncated(a: seq<nat>, b: seq<nat>)
  {
    a <= b && forall i :: |a| <= i < |b| ==> b[i] == 0
  }

  lemma IsTruncated(a: seq<nat>, b: seq<nat>)
    requires a <= b && forall i :: |a| <= i < |b| ==> b[i] == 0
    ensures Truncated(a, b)
  {
  }

  lemma TruncatedCode(a: seq<nat>, b: seq<nat>, s: nat)
    requires Truncated(a, b) && HasCode(b, s)
    ensures HasCode(a, s) && CodeBits(a, s) == CodeBits(b, s)
  {
    hide CodeBits;
    CodeTruncate(b, |a|, s);
    assert b[..|a|] == a;
  }

  lemma TruncatedToken(l: seq<nat>, d: seq<nat>, lit: seq<nat>, dist: seq<nat>, t: Token)
    requires Truncated(l, lit) && Truncated(d, dist) && Codable(lit, dist, t)
    ensures Codable(l, d, t) && TokenBits(l, d, t) == TokenBits(lit, dist, t)
  {
    hide Truncated, HasCode, CodeBits, LenSym, DistSymOf, ToBits, LenBits, DistBitsOf;
    match t
    case Literal(b) => TruncatedCode(l, lit, b);
    case Match(len, di) =>
      TruncatedCode(l, lit, LenSym(len - MIN_MATCH));
      TruncatedCode(d, dist, DistSymOf(di - 1));
  }

  lemma {:induction false} TruncatedTokens(l: seq<nat>, d: seq<nat>, lit: seq<nat>, dist: seq<nat>, ts: seq<Token>)
    requires Truncated(l, lit) && Truncated(d, dist) && AllCodable(lit, dist, ts)
    ensures AllCodable(l, d, ts) && TokensBits(l, d, ts) == TokensBits(lit, dist, ts)
  {
    hide Truncated, Codable, TokenBits;
    if ts == [] {
    } else {
      var n := |ts| - 1;
      TruncatedTokens(l, d, lit, dist, ts[..n]);
      TruncatedToken(l, d, lit, dist, ts[n]);
    }
  }

  /** The encoder's tables and the lengths in the header mean the same code. */
  lemma TruncatedBits(l: seq<nat>, d: seq<nat>, lit: seq<nat>, dist: seq<nat>, ts: seq<Token>)
    requires Truncated(l, lit) && Truncated(d, dist) && AllCodable(lit, dist, ts) && HasCode(lit, END_OF_BLOCK)
    ensures AllCodable(l, d, ts) && HasCode(l, END_OF_BLOCK)
    ensures CodedBits(l, d, ts) == CodedBits(lit, dist, ts)
  {
    hide Truncated, AllCodable, TokensBits, HasCode, CodeBits;
    TruncatedTokens(l, d, lit, dist, ts);
    TruncatedCode(l, lit, END_OF_BLOCK);
  }

  /** A buffer that is ready to be coded. */
  ghost predicate CodeReady(lz: LzBuffer)
    reads lz, lz.code
  {
    && lz.code.Length == CODE_BUF_SIZE && lz.codePos == SealedLen(lz.tokens) <= CODE_BUF_SIZE
    && Sealed(lz.code[..lz.codePos], lz.tokens) && AllValid(lz.tokens) && |lz.tokens| <= 58254
    && lz.total == TotalLen(lz.tokens)
  }

  ghost predicate Ready(lz: LzBuffer)
    reads lz, lz.code, lz.count0, lz.count1
  {
    CodeReady(lz) && lz.CountsOk(lz.tokens)
  }

  /** tdefl_compress_block with a static block. */
  method CompressStatic(w: BitWriter, lz: LzBuffer, fast: bool, ghost out: seq<byte>) returns (ok: bool)
    requires w.Valid() && w.end + 8 <= w.buf.Length && CodeReady(lz) && Reaches(out, lz.tokens) && w.buf != lz.code
    modifies w, w.buf
    ensures w.Keeps() && ValidBody(out, Fixed(lz.tokens))
    ensures ok ==> w.Appends(BodyBits(out, Fixed(lz.tokens), |old(w.full)|))
    ensures ok <==> w.start + |old(w.full) + BodyBits(out, Fixed(lz.tokens), |old(w.full)|)| / 8 < w.end
  {
    hide w.Valid, ToBits, ValidTable, FixedLit, FixedDist, Sealed, SealedLen, AllCodable, CodedBits, Counted, Reaches;
    ghost var f0 := w.full;
    ghost var ts := lz.tokens;
    FixedCodable(ts);
    FixedEnd();
    var lit, dist := StartStaticBlock(w);
    ok := EmitCodes(w, lit, dist, lz.code[..lz.codePos], ts, fast);
    Assoc(f0, ToBits(1, 2), CodedBits(FixedLit(), FixedDist(), ts));
  }

  /** A dynamic body from a header and the tables it stands for. */
  lemma DynamicBody(out: seq<byte>, h: Header, lit: seq<nat>, dist: seq<nat>, ts: seq<Token>, f: seq<bool>)
    requires ValidHeader(h) && Truncated(h.lit, lit) && Truncated(h.dist, dist) && Reaches(out, ts)
    requires AllCodable(lit, dist, ts) && HasCode(lit, END_OF_BLOCK)
    ensures ValidBody(out, Dynamic(h, ts))
    ensures |BodyBits(out, Dynamic(h, ts), |f|)| == 2 + |HeaderBits(h)| + |CodedBits(lit, dist, ts)|
    ensures f + (ToBits(2, 2) + HeaderBits(h)) + CodedBits(lit, dist, ts) == f + BodyBits(out, Dynamic(h, ts), |f|)
  {
    hide ValidHeader, Truncated, AllCodable, HasCode, CodedBits, HeaderBits, ToBits, Reaches;
    TruncatedBits(h.lit, h.dist, lit, dist, ts);
    var a, b, c := ToBits(2, 2), HeaderBits(h), CodedBits(lit, dist, ts);
    assert f + (a + b) + c == f + (a + (b + c));
  }

  lemma GoodLen(counts: seq<nat>, sizes: seq<nat>)
    requires GoodSizes(counts, sizes, MAX_LEN)
    ensures |sizes| == |counts|
  {
  }

  // ------------------------------------------------------- what is coded how

  ghost function LitCounts(ts: seq<Token>): (c: seq<nat>)
    requires AllValid(ts)
    ensures |c| == LIT_CODES
  {
    seq(LIT_CODES, s requires 0 <= s < LIT_CODES => LitCount(ts, s))[END_OF_BLOCK := 1]
  }

  ghost function DistCounts(ts: seq<Token>): (c: seq<nat>)
    requires AllValid(ts)
    ensures |c| == DIST_CODES
  {
    seq(DIST_CODES, s requires 0 <= s < DIST_CODES => DistCount(ts, s))
  }

  /** Lengths for exactly the symbols that occur, nearly optimal for how often they do. */
  ghost predicate FitsCounts(sizes: seq<nat>, counts: seq<nat>)
  {
    |sizes| <= |counts| &&
    var all := sizes + Repeat(0, |counts| - |sizes|);
    GoodSizes(counts, all, MAX_LEN) && NearlyOptimal(counts, all)
  }

  /** A header made for the tokens, with one end of block. */
  ghost predicate MadeFor(h: Header, ts: seq<Token>)
  {
    AllValid(ts) && Tight(h) && FitsCounts(h.lit, LitCounts(ts)) && FitsCounts(h.dist, DistCounts(ts))
  }

  lemma PaddedSizes(a: seq<nat>, all: seq<nat>, counts: seq<nat>)
    requires a <= all && |all| == |counts| && forall i :: |a| <= i < |all| ==> all[i] == 0
    requires GoodSizes(counts, all, MAX_LEN) && NearlyOptimal(counts, all)
    ensures FitsCounts(a, counts)
  {
    assert a + Repeat(0, |counts| - |a|) == all;
  }

  lemma CountsAre(ts: seq<Token>, c0: seq<nat>, c1: seq<nat>)
    requires AllValid(ts) && Counted(ts, c0, c1)
    ensures c0[END_OF_BLOCK := 1] == LitCounts(ts) && c1 == DistCounts(ts)
  {
    hide LitCount, DistCount;
  }

  /** tdefl_compress_block with a dynamic block. */
  method CompressDynamic(w: BitWriter, lz: LzBuffer, fast: bool, ghost out: seq<byte>) returns (ok: bool,
          ghost h: Header)
    requires w.Valid() && w.end + 8 <= w.buf.Length && Ready(lz) && Reaches(out, lz.tokens) && w.buf != lz.code
    modifies w, w.buf, lz.count0
    ensures w.Keeps() && ValidBody(out, Dynamic(h, lz.tokens)) && MadeFor(h, lz.tokens)
    ensures |BodyBits(out, Dynamic(h, lz.tokens), |old(w.full)|)| + 98 < 8 * OUT_ROOM
    ensures ok ==> w.Appends(BodyBits(out, Dynamic(h, lz.tokens), |old(w.full)|))
    ensures ok <==> w.start + |old(w.full) + BodyBits(out, Dynamic(h, lz.tokens), |old(w.full)|)| / 8 < w.end
  {
    hide w.Valid, ToBits, ValidTable, Sealed, SealedLen, AllCodable, CodedBits, Counted, Reaches, Total, GoodSizes,
         ValidHeader, HeaderBits, BodyBits, ValidBody, NearlyOptimal, HasCode, Truncated, Tight, FitsCounts;
    ghost var f0 := w.full;
    ghost var ts := lz.tokens;
    BufferTotals(ts, lz.count0[..], lz.count1[..]);
    var c := lz.code[..lz.codePos];
    var lit, dist;
    lit, dist, h := StartDynamicBlock(w, lz.count0, lz.count1);
    BufferCodable(ts, old(lz.count0[..]), lz.count1[..], lit.sizes, dist.sizes);
    GoodLen(lz.count0[..], lit.sizes);
    GoodLen(lz.count1[..], dist.sizes);
    CountsAre(ts, old(lz.count0[..]), lz.count1[..]);
    PaddedSizes(h.lit, lit.sizes, lz.count0[..]);
    PaddedSizes(h.dist, dist.sizes, lz.count1[..]);
    IsTruncated(h.lit, lit.sizes);
    IsTruncated(h.dist, dist.sizes);
    DynamicFits(h, ts, old(lz.count0[..]), lz.count1[..], lit.sizes, dist.sizes);
    DynamicBody(out, h, lit.sizes, dist.sizes, ts, f0);
    ok := EmitCodes(w, lit, dist, c, ts, fast);
  }

  // ------------------------------------------------------------ stored blocks

  /** To the next byte boundary. */
  method PadByte(w: BitWriter)
    requires w.Valid()
    modifies w, w.buf
    ensures w.Appends(Padding(|old(w.full)|))
  {
    hide ToBits, BytesBits, Pow2;
    if w.bitsIn != 0 {
      ZeroBits(8 - w.bitsIn);
      w.PutBits(0, 8 - w.bitsIn);
    } else {
      assert w.full + [] == w.full;
    }
  }

  /** The length field of a stored block and its complement. */
  method PutLength(w: BitWriter, n: nat)
    requires w.Valid() && n < 0x10000
    modifies w, w.buf
    ensures w.Appends(ToBits(n, 16) + ToBits(0xFFFF - n, 16))
  {
    hide ToBits, w.Valid;
    ghost var f0 := w.full;
    Pow2Small();
    w.PutBits(n, 16);
    w.PutBits(0xFFFF - n, 16);
    Assoc(f0, ToBits(n, 16), ToBits(0xFFFF - n, 16));
  }

  function DictBytes(dict: seq<byte>, from: nat, n: nat): (r: seq<byte>)
    requires WINDOW <= |dict|
    ensures |r| == n
  {
    seq<byte>(n, i requires 0 <= i < n => dict[(from + i) % WINDOW])
  }

  lemma NoBytes(data: seq<byte>)
    ensures BytesBits(data[..0]) == []
  {
  }

  /** The bytes of a stored block, out of the dictionary. */
  method PutData(w: BitWriter, dict: array<byte>, from: nat, n: nat)
    requires w.Valid() && WINDOW <= dict.Length && dict != w.buf
    modifies w, w.buf
    ensures w.Appends(BytesBits(DictBytes(dict[..], from, n)))
  {
    hide ToBits, BytesBits, w.Valid;
    ghost var f0 := w.full;
    ghost var data := DictBytes(dict[..], from, n);
    Pow2Small();
    NoBytes(data);
    var i := 0;
    while i < n
      invariant 0 <= i <= n
      invariant w.Appends(BytesBits(data[..i]))
    {
      w.PutBits(dict[(from + i) % WINDOW], 8);
      assert data[..i + 1] == data[..i] + [data[i]];
      BytesBitsConcat(data[..i], [data[i]]);
      BytesBitsOne(data[i]);
      Assoc(f0, BytesBits(data[..i]), ToBits(data[i], 8));
      i := i + 1;
    }
    assert data[..i] == data;
  }

  lemma StoredJoin(f: seq<bool>, k: seq<bool>, p: seq<bool>, l0: seq<bool>, l1: seq<bool>, d: seq<bool>)
    ensures f + k + p + (l0 + l1) + d == f + (k + (p + (l0 + (l1 + d))))
  {
    Assoc(l0, l1, d);
    Assoc(f + k + p, l0 + l1, d);
    Assoc(f + k, p, l0 + (l1 + d));
    Assoc(f, k, p + (l0 + (l1 + d)));
  }

  /** The stored block: type, padding, length, data. */
  method PutStored(w: BitWriter, dict: array<byte>, from: nat, n: nat, ghost out: seq<byte>)
    requires w.Valid() && WINDOW <= dict.Length && dict != w.buf && n < 0x10000
    modifies w, w.buf
    ensures w.Appends(BodyBits(out, Stored(DictBytes(dict[..], from, n)), |old(w.full)|))
  {
    hide ToBits, BytesBits, w.Valid, Padding, DictBytes;
    ghost var f0 := w.full;
    ghost var data := DictBytes(dict[..], from, n);
    Pow2Small();
    w.PutBits(0, 2);
    PadByte(w);
    PutLength(w, n);
    PutData(w, dict, from, n);
    ghost var k, p, l0, l1, d := ToBits(0, 2), Padding(|f0| + 2), ToBits(n, 16), ToBits(0xFFFF - n, 16),
      BytesBits(data);
    assert |f0 + k| == |f0| + 2;
    StoredJoin(f0, k, p, l0, l1, d);
  }

  // ------------------------------------------------------------- which block

  /** The dictionary still holds the bytes of the block. */
  ghost predicate RawReady(dict: seq<byte>, from: nat, out: seq<byte>, ts: seq<Token>)
  {
    && WINDOW <= |dict| && TotalLen(ts) <= WINDOW
    && Expand(out, ts) == out + DictBytes(dict, from, TotalLen(ts))
  }

  predicate StaticFirst(cfg: Settings, total: nat)
  {
    cfg.forceStatic || total < 48
  }

  /** A block that cannot fill the output buffer, with a little in front of it. */
  ghost predicate Fitting(out: seq<byte>, b: Body, pos: nat)
  {
    ValidBody(out, b) && |BodyBits(out, b, pos)| + 90 < 8 * OUT_ROOM
  }

  ghost predicate Attempt(out: seq<byte>, ts: seq<Token>, b: Body)
  {
    ValidBody(out, b) && ((b.Fixed? && b.tokens == ts) || (b.Dynamic? && b.tokens == ts))
  }

  lemma FixedBody(out: seq<byte>, ts: seq<Token>, f: seq<bool>)
    requires ValidBody(out, Fixed(ts)) && SealedLen(ts) <= CODE_BUF_SIZE
    ensures Fitting(out, Fixed(ts), |f|)
  {
    hide CodedBits, ToBits, FixedLit, FixedDist, SealedLen, AllCodable, HasCode, Reaches;
    StaticFits(ts);
  }

  /** The block that the tokens are coded as: static, or dynamic and made for them. */
  ghost predicate CodedAs(ts: seq<Token>, static_: bool, b: Body)
  {
    if static_ then b == Fixed(ts) else b.Dynamic? && b.tokens == ts && MadeFor(b.header, ts)
  }

  /** tdefl_compress_block. */
  method CompressBlock(w: BitWriter, lz: LzBuffer, fast: bool, static_: bool, ghost out: seq<byte>) returns (ok: bool,
          ghost b: Body)
    requires w.Valid() && w.end + 8 <= w.buf.Length && Ready(lz) && Reaches(out, lz.tokens) && w.buf != lz.code
    modifies w, w.buf, lz.count0
    ensures w.Keeps() && CodeReady(lz) && Attempt(out, lz.tokens, b) && CodedAs(lz.tokens, static_, b)
    ensures Fitting(out, b, |old(w.full)|)
    ensures ok ==> w.Appends(BodyBits(out, b, |old(w.full)|))
    ensures ok <==> w.start + |old(w.full) + BodyBits(out, b, |old(w.full)|)| / 8 < w.end
  {
    hide w.Valid, Sealed, SealedLen, Counted, Reaches, BodyBits, AllCodable, FixedLit, FixedDist, ValidHeader, HasCode,
         MadeFor;
    if static_ {
      b := Fixed(lz.tokens);
      ghost var f0 := w.full;
      ok := CompressStatic(w, lz, fast, out);
      FixedBody(out, lz.tokens, f0);
    } else {
      ghost var h;
      ok, h := CompressDynamic(w, lz, fast, out);
      b := Dynamic(h, lz.tokens);
    }
  }

  lemma WriterAt(w: BitWriter)
    requires w.Valid() && w.Fits()
    ensures w.pos < w.end && w.pos == w.start + |w.full| / 8 && w.end <= w.buf.Length
    ensures w.bitsIn < 8 && |w.full| % 8 == w.bitsIn && w.bitBuffer < Pow2(w.bitsIn)
    ensures BytesBits(w.buf[w.start..w.pos]) + ToBits(w.bitBuffer, w.bitsIn) == w.full
  {
    hide ToBits, BytesBits, Pow2;
    BytesBitsLen(w.buf[w.start..w.pos]);
  }

  lemma StoredBody(dict: seq<byte>, from: nat, out: seq<byte>, ts: seq<Token>, f: seq<bool>)
    requires RawReady(dict, from, out, ts) && |f| <= 24
    ensures var b := Stored(DictBytes(dict, from, TotalLen(ts)));
            ValidBody(out, b) && BodyOut(out, b) == Expand(out, ts) && |f + BodyBits(out, b, |f|)| + 66 < 8 * OUT_ROOM
  {
    hide Expand, ToBits, Padding, BytesBits, DictBytes, TotalLen;
    PaddingLen(|f| + 2);
  }

  lemma FittingLen(out: seq<byte>, b: Body, f: seq<bool>)
    requires Fitting(out, b, |f|) && |f| <= 24
    ensures |f + BodyBits(out, b, |f|)| + 66 < 8 * OUT_ROOM
  {
    hide BodyBits;
  }

  /** The first attempt succeeds, so the fixed codes are never needed in its
      place. */
  lemma AttemptSucceeds(out: seq<byte>, b: Body, f: seq<bool>)
    requires Fitting(out, b, |f|) && |f| <= 24
    ensures |f + BodyBits(out, b, |f|)| / 8 < OUT_ROOM
  {
    FittingLen(out, b, f);
  }

  lemma AttemptOut(out: seq<byte>, ts: seq<Token>, b: Body)
    requires Attempt(out, ts, b)
    ensures ValidBody(out, b) && BodyOut(out, b) == Expand(out, ts) && !b.Stored? && b.tokens == ts
    ensures b.Fixed? ==> b == Fixed(ts)
  {
    hide ValidBody, Expand;
  }

  lemma CodeReadyFacts(lz: LzBuffer)
    requires CodeReady(lz)
    ensures lz.total == TotalLen(lz.tokens) && SealedLen(lz.tokens) <= CODE_BUF_SIZE
  {
  }

  lemma ReadyIsCodeReady(lz: LzBuffer)
    requires Ready(lz)
    ensures CodeReady(lz)
  {
  }

  lemma RawSmall(dict: seq<byte>, from: nat, out: seq<byte>, ts: seq<Token>)
    requires RawReady(dict, from, out, ts)
    ensures TotalLen(ts) <= WINDOW <= |dict|
  {
  }

  lemma IsStatic(out: seq<byte>, ts: seq<Token>)
    requires ValidBody(out, Fixed(ts))
    ensures Attempt(out, ts, Fixed(ts))
  {
  }

  /** Where a block began, so that it can be written again. */
  datatype Mark = Mark(pos: nat, bits: nat, n: nat)

  ghost predicate MarkOf(saved: seq<byte>, m: Mark, f0: seq<bool>)
  {
    m.n == |f0| % 8 && m.bits < Pow2(m.n) && BytesBits(saved) + ToBits(m.bits, m.n) == f0
  }

  ghost predicate Marked(w: BitWriter, m: Mark, f0: seq<bool>)
    reads w, w.buf
  {
    w.start <= m.pos < w.end <= w.buf.Length && m.pos == w.start + |f0| / 8 && MarkOf(w.buf[w.start..m.pos], m, f0)
  }

  method SetMark(w: BitWriter) returns (m: Mark)
    requires w.Valid() && w.Fits()
    ensures Marked(w, m, w.full) && m.pos == w.pos
  {
    WriterAt(w);
    m := Mark(w.pos, w.bitBuffer, w.bitsIn);
  }

  /** Forget what was written after the mark and store the data as it is. */
  method StoreInstead(w: BitWriter, lz: LzBuffer, dict: array<byte>, m: Mark, from: nat, ghost f0: seq<bool>,
          ghost out: seq<byte>)
    returns (ghost b: Body)
    requires Marked(w, m, f0) && w.end == w.start + OUT_ROOM && |f0| <= 24 && dict != w.buf
    requires lz.total == TotalLen(lz.tokens) && RawReady(dict[..], from, out, lz.tokens)
    modifies w, w.buf
    ensures b.Stored? && ValidBody(out, b) && BodyOut(out, b) == Expand(out, lz.tokens)
    ensures w.Valid() && w.buf == old(w.buf) && w.start == old(w.start) && w.end == old(w.end) && w.pos >= m.pos
    ensures w.full == f0 + BodyBits(out, b, |f0|) && |w.full| + 66 < 8 * OUT_ROOM
    ensures forall i :: 0 <= i < m.pos ==> w.buf[i] == old(w.buf[i])
  {
    hide w.Valid, BodyBits, ValidBody, BodyOut, RawReady, Expand, ToBits, BytesBits, Pow2, DictBytes, TotalLen;
    w.Rollback(m.pos, m.bits, m.n, f0);
    RawSmall(dict[..], from, out, lz.tokens);
    StoredBody(dict[..], from, out, lz.tokens, f0);
    b := Stored(DictBytes(dict[..], from, lz.total));
    PutStored(w, dict, from, lz.total, out);
  }

  /** Forget what was written after the mark and use the fixed codes. */
  method StaticInstead(w: BitWriter, lz: LzBuffer, m: Mark, fast: bool, ghost f0: seq<bool>, ghost out: seq<byte>)
    requires Marked(w, m, f0) && w.end == w.start + OUT_ROOM && |f0| <= 24 && w.buf != lz.code
    requires w.end + 8 <= w.buf.Length && CodeReady(lz) && Reaches(out, lz.tokens)
    modifies w, w.buf
    ensures Attempt(out, lz.tokens, Fixed(lz.tokens))
    ensures w.Valid() && w.buf == old(w.buf) && w.start == old(w.start) && w.end == old(w.end) && w.pos >= m.pos
    ensures w.full == f0 + BodyBits(out, Fixed(lz.tokens), |f0|) && |w.full| + 66 < 8 * OUT_ROOM
    ensures forall i :: 0 <= i < m.pos ==> w.buf[i] == old(w.buf[i])
  {
    hide w.Valid, BodyBits, ValidBody, BodyOut, Reaches, CodeReady, ToBits, BytesBits, Pow2, SealedLen;
    w.Rollback(m.pos, m.bits, m.n, f0);
    CodeReadyFacts(lz);
    var ok := CompressStatic(w, lz, fast, out);
    IsStatic(out, lz.tokens);
    FixedBody(out, lz.tokens, f0);
    FittingLen(out, Fixed(lz.tokens), f0);
  }

  lemma StartFits(w: BitWriter)
    requires w.Valid() && w.end == w.start + OUT_ROOM && |w.full| <= 24
    ensures w.Fits()
  {
  }

  lemma CodedLen(w: BitWriter, m: Mark, f0: seq<bool>)
    requires Marked(w, m, f0) && w.Valid()
    ensures w.Fits() ==> w.pos - m.pos == |w.full| / 8 - |f0| / 8
  {
    if w.Fits() { WriterAt(w); }
  }

  /** The bytes that a body takes which begins at bit `p`. */
  ghost function Grown(out: seq<byte>, b: Body, p: nat): int
    requires ValidBody(out, b)
  {
    (p + |BodyBits(out, b, p)|) / 8 - p / 8
  }

  ghost predicate Tried(cfg: Settings, ts: seq<Token>, out: seq<byte>, b: Body)
  {
    ValidBody(out, b) && CodedAs(ts, StaticFirst(cfg, TotalLen(ts)), b)
  }

  /** Whether coding the tokens as `tried` does not pay. */
  ghost predicate Outgrown(ts: seq<Token>, out: seq<byte>, tried: Body, p: nat)
    requires ValidBody(out, tried)
  {
    TotalLen(ts) > 0 && Grown(out, tried, p) + 1 >= TotalLen(ts)
  }

  /** Which block is chosen, for a body that begins at bit `p`: with its data still in
      the ring a block is stored if that is asked for or coding does not pay, and it is
      coded otherwise. */
  ghost predicate Chosen(cfg: Settings, canRaw: bool, ts: seq<Token>, out: seq<byte>, b: Body, p: nat)
  {
    if cfg.forceRaw && canRaw then b.Stored?
    else exists tried :: Tried(cfg, ts, out, tried)
                         && if canRaw && Outgrown(ts, out, tried, p) then b.Stored? else b == tried
  }

  /** The test in the code. */
  lemma TriedGrows(w: BitWriter, lz: LzBuffer, m: Mark, f0: seq<bool>, out: seq<byte>, b: Body)
    requires Marked(w, m, f0) && w.Valid() && w.Fits() && ValidBody(out, b) && w.full == f0 + BodyBits(out, b, |f0|)
    requires lz.total == TotalLen(lz.tokens)
    ensures w.pos - m.pos == Grown(out, b, |f0|)
    ensures lz.total != 0 && w.pos - m.pos + 1 >= lz.total <==> Outgrown(lz.tokens, out, b, |f0|)
  {
    hide w.Valid, BodyBits, ValidBody, TotalLen, MarkOf;
    CodedLen(w, m, f0);
  }

  /** The choice of tdefl_flush_block: a coded block, a stored block if coding
      does not pay and the data is still there, or a static block if a dynamic
      one does not fit. The last case never happens. */
  method ChooseBody(w: BitWriter, lz: LzBuffer, dict: array<byte>, cfg: Settings, canRaw: bool, from: nat,
          ghost out: seq<byte>)
    returns (ghost b: Body)
    requires w.Valid() && w.end == w.start + OUT_ROOM && w.end + 8 <= w.buf.Length && |w.full| <= 24
    requires Ready(lz) && Reaches(out, lz.tokens) && w.buf != lz.code && dict != w.buf
    requires WINDOW <= dict.Length && (canRaw ==> RawReady(dict[..], from, out, lz.tokens))
    modifies w, w.buf, lz.count0
    ensures ValidBody(out, b) && BodyOut(out, b) == Expand(out, lz.tokens) && (b.Stored? || b.tokens == lz.tokens)
    ensures w.Appends(BodyBits(out, b, |old(w.full)|)) && w.Fits()
    ensures Chosen(cfg, canRaw, lz.tokens, out, b, |old(w.full)|)
    ensures |w.full| + 66 < 8 * OUT_ROOM
  {
    hide Fitting;
    hide w.Valid, CodeReady, Ready, Reaches, BodyBits, ValidBody, BodyOut, Attempt, RawReady, Expand, TotalLen,
         SealedLen, MarkOf, CodedAs, StaticFirst, Outgrown;
    ghost var f0 := w.full;
    StartFits(w);
    var m := SetMark(w);
    ghost var saved := w.buf[w.start..m.pos];
    ReadyIsCodeReady(lz);
    CodeReadyFacts(lz);
    var useRaw := cfg.forceRaw && canRaw;
    var ok := false;
    ghost var tried := Fixed(lz.tokens);
    if !useRaw {
      ok, b := CompressBlock(w, lz, cfg.fast, StaticFirst(cfg, lz.total), out);
      tried := b;
      AttemptOut(out, lz.tokens, b);
    }
    assert |w.buf[w.start..m.pos]| == |saved|;
    assert w.buf[w.start..m.pos] == saved;
    if (useRaw || (lz.total != 0 && w.pos - m.pos + 1 >= lz.total)) && canRaw {
      if !useRaw {
        AttemptSucceeds(out, tried, f0);
        TriedGrows(w, lz, m, f0, out, tried);
        assert Tried(cfg, lz.tokens, out, tried);
      }
      b := StoreInstead(w, lz, dict, m, from, f0, out);
    } else {
      if !ok {
        StaticInstead(w, lz, m, cfg.fast, f0, out);
        b := Fixed(lz.tokens);
        AttemptSucceeds(out, tried, f0);
        assert false;
      }
      FittingLen(out, b, f0);
      TriedGrows(w, lz, m, f0, out, b);
      assert Tried(cfg, lz.tokens, out, b);
    }
  }

  // ------------------------------------------------------- around the block

  /** All the bits of one flush: the zlib header before the first block, the
      block, and what follows it. */
  ghost function FlushBits(first: bool, zlib: bool, flush: Flush, out: seq<byte>, b: Body, adler: nat,
          pos: nat): seq<bool>
    requires ValidBody(out, b)
  {
    var h := Prefix(first && zlib);
    var body := [flush.Finish?] + BodyBits(out, b, pos + |h| + 1);
    h + (body + Tail(zlib, flush, adler, pos + |h| + |body|))
  }

  lemma OneBitOf(b: bool)
    ensures ToBits(if b then 1 else 0, 1) == [b]
  {
  }

  /** The zlib header, before the first block only, and the final-block bit. */
  method WriteProlog(w: BitWriter, header: bool, fin: bool)
    requires w.Valid()
    modifies w, w.buf
    ensures w.Appends(Prefix(header) + [fin])
  {
    hide w.Valid, ToBits;
    ghost var f0 := w.full;
    Pow2Small();
    OneBitOf(fin);
    if header {
      w.PutBits(0x78, 8);
      w.PutBits(0x01, 8);
      assert f0 + ToBits(0x78, 8) + ToBits(0x01, 8) == f0 + Prefix(true);
    } else {
      assert f0 + Prefix(false) == f0;
    }
    w.PutBits(if fin then 1 else 0, 1);
    Assoc(f0, Prefix(header), [fin]);
  }

  /** The 32-bit shift of the checksum loop. */
  function ShiftUp(a: nat): (r: nat)
    ensures r < Pow2(32)
  {
    Low(Shl(a, 8), 32)
  }

  lemma {:induction false} ShlLow(a: nat, n: nat)
    ensures ToBits(Shl(a, n), n) == ToBits(0, n) && Shr(Shl(a, n), n) == a
  {
    if n == 0 {
    } else {
      ShlLow(a, n - 1);
      assert Shl(a, n) / 2 == Shl(a, n - 1);
    }
  }

  lemma ShiftUpBits(a: nat)
    ensures ToBits(ShiftUp(a), 32) == ToBits(0, 8) + ToBits(a, 32)[..24]
    ensures ToBits(Shr(a, 24), 8) == ToBits(a, 32)[24..]
  {
    hide ToBits, Shl, Shr, Low;
    LowBits(Shl(a, 8), 32);
    ToBitsSplit(Shl(a, 8), 8, 24);
    ShlLow(a, 8);
    ToBitsSplit(a, 24, 8);
  }

  lemma ChecksumParts(a: nat)
    ensures ChecksumBits(a) == ToBits(a, 32)[24..]
      + (ToBits(a, 32)[16..24] + (ToBits(a, 32)[8..16] + ToBits(a, 32)[..8]))
  {
    hide ToBits, Shr;
    ToBitsSplit(a, 24, 8);
    ToBitsSplit(a, 16, 16);
    ToBitsSplit(Shr(a, 16), 8, 8);
    ToBitsSplit(a, 8, 24);
    ToBitsSplit(Shr(a, 8), 8, 16);
    var r := ToBits(a, 32);
    assert r[16..24] == r[16..][..8];
    assert r[8..16] == r[8..][..8];
  }

  /** The bits of the checksum that the first `i` rounds have written. */
  ghost function ChecksumDone(a: nat, i: nat): seq<bool>
    requires i <= 4
  {
    if i == 0 then [] else ChecksumDone(a, i - 1) + ToBits(a, 32)[32 - 8 * i..40 - 8 * i]
  }

  lemma ThreeParts(f: seq<bool>, a: seq<bool>, b: seq<bool>, c: seq<bool>)
    ensures f + a + b + c == f + (a + (b + c))
  {
  }

  lemma ChecksumAll(a: nat)
    ensures ChecksumDone(a, 0) == [] && ChecksumDone(a, 4) == ChecksumBits(a)
  {
    hide ToBits, ChecksumBits;
    ChecksumParts(a);
    var r := ToBits(a, 32);
    assert ChecksumDone(a, 1) == [] + r[24..32];
    assert ChecksumDone(a, 2) == ChecksumDone(a, 1) + r[16..24];
    assert ChecksumDone(a, 3) == ChecksumDone(a, 2) + r[8..16];
    assert r[24..32] == r[24..] && r[0..8] == r[..8];
    ThreeParts([] + r[24..32], r[16..24], r[8..16], r[0..8]);
    assert [] + r[24..32] == r[24..32];
  }

  /** After `i` shifts the low bytes of the checksum stand at the top. */
  ghost predicate Shifted(a: nat, r: seq<bool>, i: nat)
  {
    |r| == 32 && i <= 4 && ToBits(a, 32)[8 * i..] == r[..32 - 8 * i]
  }

  lemma ShiftOnce(a: nat, r: seq<bool>, i: nat)
    requires Shifted(a, r, i) && i < 4
    ensures ToBits(Low(Shr(a, 24), 8), 8) == r[24 - 8 * i..32 - 8 * i]
    ensures Shifted(ShiftUp(a), r, i + 1)
  {
    hide ToBits, Shr, Low, ShiftUp;
    var x := ToBits(a, 32);
    ShiftUpBits(a);
    LowBits(Shr(a, 24), 8);
    assert x[24..] == x[8 * i..][24 - 8 * i..];
    assert x[8 * i..24] == x[8 * i..][..24 - 8 * i];
    assert ToBits(ShiftUp(a), 32)[8 * i + 8..] == x[8 * i..24];
  }

  lemma ChecksumStep(f: seq<bool>, a: nat, i: nat)
    requires i < 4
    ensures f + ChecksumDone(a, i) + ToBits(a, 32)[24 - 8 * i..32 - 8 * i] == f + ChecksumDone(a, i + 1)
  {
    hide ToBits;
    Assoc(f, ChecksumDone(a, i), ToBits(a, 32)[24 - 8 * i..32 - 8 * i]);
  }

  lemma ShiftNone(a: nat)
    ensures Shifted(a, ToBits(a, 32), 0)
  {
  }

  /** The checksum, most significant byte first. */
  method PutChecksum(w: BitWriter, adler: nat)
    requires w.Valid()
    modifies w, w.buf
    ensures w.Appends(ChecksumBits(adler))
  {
    hide w.Valid, ToBits, Shr, Low, ShiftUp, ChecksumBits, Shifted, ChecksumDone;
    ghost var f0 := w.full;
    var a := adler;
    ghost var r := ToBits(adler, 32);
    Pow2Small();
    ChecksumAll(adler);
    assert Shifted(a, r, 0) by { ShiftNone(a); }
    for i := 0 to 4
      invariant Shifted(a, r, i)
      invariant w.Appends(ChecksumDone(adler, i))
    {
      ShiftOnce(a, r, i);
      w.PutBits(Low(Shr(a, 24), 8), 8);
      ChecksumStep(f0, adler, i);
      a := ShiftUp(a);
    }
  }

  /** The end of the stream. */
  method FinishTail(w: BitWriter, zlib: bool, adler: nat)
    requires w.Valid()
    modifies w, w.buf
    ensures w.Appends(Tail(zlib, Finish, adler, |old(w.full)|))
  {
    hide w.Valid, ToBits, ChecksumBits, Padding;
    ghost var f0 := w.full;
    PadByte(w);
    if zlib {
      PutChecksum(w, adler);
      Assoc(f0, Padding(|f0|), ChecksumBits(adler));
    } else {
      assert Padding(|f0|) + [] == Padding(|f0|);
    }
  }

  lemma EmptyStored(f0: seq<bool>)
    ensures |f0 + ToBits(0, 3)| == |f0| + 3
    ensures Tail(false, SyncFlush, 0, |f0|) == ToBits(0, 3) + (Padding(|f0| + 3) + (ToBits(0, 16) + ToBits(0xFFFF, 16)))
  {
    hide Padding, ToBits;
    ToBitsSplit(0, 1, 2);
    OneBitOf(false);
    assert Shr(0, 1) == 0;
    assert ToBits(0, 3) == [false] + ToBits(0, 2);
    assert BytesBits([]) == [];
    var p, a, b := Padding(|f0| + 3), ToBits(0, 16), ToBits(0xFFFF, 16);
    assert a + (b + []) == a + b;
    assert [false] + (ToBits(0, 2) + (p + (a + b))) == [false] + ToBits(0, 2) + (p + (a + b));
  }

  /** An empty stored block. */
  method SyncTail(w: BitWriter)
    requires w.Valid()
    modifies w, w.buf
    ensures w.Appends(Tail(false, SyncFlush, 0, |old(w.full)|))
  {
    hide w.Valid, ToBits, Padding, Tail;
    ghost var f0 := w.full;
    Pow2Small();
    w.PutBits(0, 3);
    EmptyStored(f0);
    PadByte(w);
    PutLength(w, 0);
    ThreeParts(f0, ToBits(0, 3), Padding(|f0| + 3), ToBits(0, 16) + ToBits(0xFFFF, 16));
  }

  /** What follows the block. */
  method WriteTail(w: BitWriter, zlib: bool, flush: Flush, adler: nat)
    requires w.Valid()
    modifies w, w.buf
    ensures w.Appends(Tail(zlib, flush, adler, |old(w.full)|))
  {
    hide w.Valid, ToBits, ChecksumBits, Padding;
    if flush.Finish? {
      FinishTail(w, zlib, adler);
    } else if flush != NoFlush {
      SyncTail(w);
    } else {
      assert w.full + [] == w.full;
    }
  }

  lemma TailLen(zlib: bool, flush: Flush, adler: nat, pos: nat)
    ensures |Tail(zlib, flush, adler, pos)| <= if flush.NoFlush? then 0 else 42
  {
    hide ToBits, ChecksumBits;
    ChecksumLen(adler);
    PaddingLen(pos);
    PaddingLen(pos + 3);
  }

  lemma TokenFront(c: seq<byte>, ts: seq<Token>, k: nat)
    requires SealedLen(ts) <= |c| && k < |ts| && TokenAt(c, Off(ts, k), ts[k])
    ensures TokenAt(c[..SealedLen(ts)], Off(ts, k), ts[k])
  {
    hide Bytes;
    BytesMono(ts, k, |ts|);
  }

  lemma FlagsFront(c: seq<byte>, ts: seq<Token>, g: nat)
    requires SealedLen(ts) <= |c| && 8 * g < |ts| && FlagsAt(c, ts, g)
    ensures FlagsAt(c[..SealedLen(ts)], ts, g)
  {
    hide Bytes, FlagBits, Group;
    BytesMono(ts, 8 * g, |ts|);
  }

  /** Only the used part of the buffer matters. */
  lemma SealedFront(c: seq<byte>, ts: seq<Token>)
    requires Sealed(c, ts) && SealedLen(ts) <= |c|
    ensures Sealed(c[..SealedLen(ts)], ts)
  {
    hide Bytes, Off, TokenAt, FlagsAt, SealedLen;
    var d := c[..SealedLen(ts)];
    forall k | 0 <= k < |ts| ensures TokenAt(d, Off(ts, k), ts[k]) {
      assert TokenAt(c, Off(ts, k), ts[k]);
      TokenFront(c, ts, k);
    }
    forall g {:trigger FlagsAt(d, ts, g)} | 0 <= g && 8 * g < |ts| ensures FlagsAt(d, ts, g) {
      assert FlagsAt(c, ts, g);
      FlagsFront(c, ts, g);
    }
  }

  lemma CodeFacts(lz: LzBuffer)
    requires lz.Valid()
    ensures lz.code.Length == CODE_BUF_SIZE && |lz.tokens| <= 58254
  {
    hide Off, Cell, Counted, OpenBuf;
    BufferBounds(lz.code[..], lz.tokens);
  }

  lemma CountsFacts(lz: LzBuffer)
    requires lz.Valid()
    ensures AllValid(lz.tokens)
  {
  }

  /** Seal the token buffer. */
  method SealBuffer(lz: LzBuffer)
    requires lz.Valid()
    modifies lz.code, lz`codePos
    ensures Ready(lz)
  {
    hide Sealed, SealedLen, lz.CodeOk, lz.CountsOk, TotalLen, AllValid;
    CodeFacts(lz);
    ghost var ts := lz.tokens;
    CountsFacts(lz);
    lz.Finish();
    SealedFront(lz.code[..], ts);
    assert lz.code[..][..SealedLen(ts)] == lz.code[..lz.codePos];
  }

  lemma FlushParts(f: seq<bool>, h: seq<bool>, i: seq<bool>, b: seq<bool>, t: seq<bool>)
    ensures f + (h + i) + b + t == f + (h + (i + b + t))
  {
    assert f + (h + i) + b + t == f + (h + (i + (b + t)));
    assert i + (b + t) == i + b + t;
  }

  lemma FlushIs(first: bool, zlib: bool, flush: Flush, out: seq<byte>, b: Body, adler: nat, f: seq<bool>)
    requires ValidBody(out, b)
    ensures var h := Prefix(first && zlib) + [flush.Finish?];
            var p := |f| + |h|;
            var body := BodyBits(out, b, p);
            f + h + body + Tail(zlib, flush, adler, |f + h + body|)
              == f + FlushBits(first, zlib, flush, out, b, adler, |f|)
  {
    hide ValidBody, BodyBits, Prefix, Tail;
    var h, i := Prefix(first && zlib), [flush.Finish?];
    var body := BodyBits(out, b, |f| + |h| + 1);
    assert |f + (h + i) + body| == |f| + |h| + |i + body|;
    FlushParts(f, h, i, body, Tail(zlib, flush, adler, |f| + |h| + |i + body|));
  }

  /** What a block is written from, and where to. */
  ghost predicate CanWrite(w: BitWriter, lz: LzBuffer, dict: array<byte>, canRaw: bool, from: nat, out: seq<byte>)
    reads w, w.buf, lz, lz.code, lz.count0, lz.count1, dict
  {
    && w.Valid() && w.end == w.start + OUT_ROOM && w.end + 8 <= w.buf.Length && |w.full| < 8
    && lz.Valid() && Reaches(out, lz.tokens) && w.buf != lz.code && dict != w.buf && dict != lz.code
    && WINDOW <= dict.Length && (canRaw ==> RawReady(dict[..], from, out, lz.tokens))
  }

  /** The bits of tdefl_flush_block: always those of some valid block that
      stands for the tokens of the buffer, whichever kind is chosen, and they
      all fit. */
  method WriteBlock(w: BitWriter, lz: LzBuffer, dict: array<byte>, cfg: Settings, first: bool, canRaw: bool, from: nat,
                    flush: Flush, adler: nat, ghost out: seq<byte>)
    returns (ghost b: Body)
    requires CanWrite(w, lz, dict, canRaw, from, out)
    modifies w, w.buf, lz.code, lz.count0, lz`codePos
    ensures ValidBody(out, b) && BodyOut(out, b) == Expand(out, lz.tokens) && (b.Stored? || b.tokens == lz.tokens)
    ensures w.Appends(FlushBits(first, cfg.zlib, flush, out, b, adler, |old(w.full)|))
    ensures w.Fits()
    ensures Chosen(cfg, canRaw, lz.tokens, out, b, |old(w.full)| + |Prefix(first && cfg.zlib)| + 1)
  {
    hide w.Valid, Ready, Reaches, BodyBits, ValidBody, BodyOut, RawReady, Expand, lz.Valid, Tail, Chosen, Prefix,
         FlushBits;
    ghost var f0 := w.full;
    var header := first && cfg.zlib;
    SealBuffer(lz);
    PrefixLen(header);
    WriteProlog(w, header, flush == Finish);
    b := ChooseBody(w, lz, dict, cfg, canRaw, from, out);
    ghost var f2 := w.full;
    WriteTail(w, cfg.zlib, flush, adler);
    FlushIs(first, cfg.zlib, flush, out, b, adler, f0);
    TailLen(cfg.zlib, flush, adler, |f2|);
  }
}
