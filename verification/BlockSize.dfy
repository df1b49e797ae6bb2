/**
  How many bits a block takes. No buffer, coded with the fixed codes or with codes
  made for it, ever fills the output buffer: at most 31 bits for 25 bits of tokens
  with the fixed codes, and little more with the others, since they are close to
  the best.
 */
module BlockSize {
  import opened Bits
  import opened Canonical
  import opened Deflate
  import opened Blocks
  import opened Stream
  import opened OptimalCode
  import opened LengthLimit
  import opened LimitCost
  import opened UsedSymbols
  import opened TableCost
  import opened LzBuffer

  const OUT_BUF_SIZE: nat := 85196
  const OUT_ROOM: nat := OUT_BUF_SIZE - 16

  // ----------------------------------------------------- the static block fits

  lemma FixedLens(s: nat, d: nat)
    requires s < LIT_CODES && d < DIST_CODES
    ensures FixedLit()[s] <= (if s < 257 then 9 else 8) && FixedDist()[d] == 5
  {
  }

  /** 9 bits for a literal, 31 for a match. */
  lemma {:induction false} FixedTokenLen(t: Token)
    requires Codable(FixedLit(), FixedDist(), t)
    ensures |TokenBits(FixedLit(), FixedDist(), t)| <= 11 * TokenLen(t) - 2
  {
    hide LenSym, DistSymOf, LenBits, DistBitsOf, FixedLit, FixedDist, Code, Count;
    match t
    case Literal(b) => FixedLens(b, 0);
    case Match(len, d) =>
      LengthTables(len - MIN_MATCH);
      FieldBounds(len - MIN_MATCH, d - 1);
      FixedLens(LenSym(len - MIN_MATCH), DistSymOf(d - 1));
  }

  lemma {:induction false} FixedTokensLen(ts: seq<Token>)
    requires AllCodable(FixedLit(), FixedDist(), ts)
    ensures |TokensBits(FixedLit(), FixedDist(), ts)| <= 11 * Bytes(ts, |ts|) - 2 * |ts|
  {
    hide TokenBits, FixedLit, FixedDist, TokenLen, Codable;
    if ts == [] {
    } else {
      var n := |ts| - 1;
      FixedTokensLen(ts[..n]);
      FixedTokenLen(ts[n]);
      BytesPrefix(ts[..n], ts[n], n);
      assert ts[..n] + [ts[n]] == ts;
    }
  }

  /** At most 31 output bits for 25 bits of the token buffer. */
  lemma StaticExpansion(ts: seq<Token>)
    requires AllCodable(FixedLit(), FixedDist(), ts)
    ensures 25 * |TokensBits(FixedLit(), FixedDist(), ts)| <= 31 * (8 * SealedLen(ts))
  {
    hide TokensBits, FixedLit, FixedDist, AllCodable;
    FixedTokensLen(ts);
    BytesAtLeast(ts, |ts|);
  }

  lemma FixedEnd()
    ensures HasCode(FixedLit(), END_OF_BLOCK) && |CodeBits(FixedLit(), END_OF_BLOCK)| == 7
  {
  }

  /** Any buffer, coded with the fixed codes, leaves room for what comes before
      and after it. */
  lemma StaticFits(ts: seq<Token>)
    requires AllCodable(FixedLit(), FixedDist(), ts) && HasCode(FixedLit(), END_OF_BLOCK)
      && SealedLen(ts) <= CODE_BUF_SIZE
    ensures |CodedBits(FixedLit(), FixedDist(), ts)| + 100 < 8 * OUT_ROOM
  {
    hide TokensBits, FixedLit, FixedDist, AllCodable, SealedLen, CodeBits;
    StaticExpansion(ts);
    FixedEnd();
  }

  lemma FixedCodableOne(t: Token)
    requires ValidToken(t)
    ensures Codable(FixedLit(), FixedDist(), t)
  {
    hide FixedLit, FixedDist, LenSym, DistSymOf;
    FixedLitValid();
    FixedDistValid();
    match t
    case Literal(b) =>
    case Match(len, d) =>
      LengthTables(len - MIN_MATCH);
      DistTables(d - 1);
  }

  lemma FixedCodable(ts: seq<Token>)
    requires AllValid(ts)
    ensures AllCodable(FixedLit(), FixedDist(), ts)
  {
    hide FixedLit, FixedDist, Codable, ValidToken;
    forall i | 0 <= i < |ts| ensures Codable(FixedLit(), FixedDist(), ts[i]) {
      FixedCodableOne(ts[i]);
    }
  }

  // ---------------------------------------------------------- frequencies

  lemma {:induction false} LitTotal(ts: seq<Token>, c: seq<nat>)
    requires AllValid(ts) && |c| == LIT_CODES && forall s :: 0 <= s < LIT_CODES ==> c[s] == LitCount(ts, s)
    ensures Total(c) == |ts|
  {
    hide LitSym, Total;
    if ts == [] {
      ZeroTotal(c);
    } else {
      var n := |ts| - 1;
      var s := LitSym(ts[n]);
      SymRange(ts[n]);
      var before := c[s := c[s] - 1];
      LitTotal(ts[..n], before);
      TotalUpdate(before, s, c[s]);
      assert before[s := c[s]] == c;
    }
  }

  lemma {:induction false} DistTotal(ts: seq<Token>, c: seq<nat>)
    requires AllValid(ts) && |c| == DIST_CODES && forall s :: 0 <= s < DIST_CODES ==> c[s] == DistCount(ts, s)
    ensures Total(c) <= |ts|
  {
    hide DistSymOf, Total;
    if ts == [] {
      ZeroTotal(c);
    } else {
      var n := |ts| - 1;
      if ts[n].Match? {
        var s := DistSymOf(ts[n].dist - 1);
        SymRange(ts[n]);
        var before := c[s := c[s] - 1];
        DistTotal(ts[..n], before);
        TotalUpdate(before, s, c[s]);
        assert before[s := c[s]] == c;
      } else {
        DistTotal(ts[..n], c);
      }
    }
  }

  /** The frequencies of a buffer meet what the table builder asks for: no
      16-bit sum of them wraps. */
  lemma BufferTotals(ts: seq<Token>, c0: seq<nat>, c1: seq<nat>)
    requires AllValid(ts) && Counted(ts, c0, c1) && |ts| <= 58254
    ensures |c0| == LIT_CODES && |c1| == DIST_CODES
    ensures Total(c0[END_OF_BLOCK := 1]) < 65536 && Total(c1) < 65536
    ensures c0[286] == 0 && c0[287] == 0 && c1[30] == 0 && c1[31] == 0
  {
    hide Total, LitCount, DistCount;
    LitTotal(ts, c0);
    DistTotal(ts, c1);
    CountRange(ts, END_OF_BLOCK);
    CountRange(ts, 286);
    CountRange(ts, 287);
    CountRange(ts, 30);
    CountRange(ts, 31);
    TotalUpdate(c0, END_OF_BLOCK, 1);
  }

  // --------------------------------------------------------- coded tokens

  /** The extra bits of a token. */
  ghost function ExtraBits(t: Token): nat
    requires ValidToken(t)
  {
    match t
    case Literal(b) => 0
    case Match(len, d) => LenBits(len - MIN_MATCH) + DistBitsOf(d - 1)
  }

  ghost function Extras(ts: seq<Token>): nat
    requires AllValid(ts)
  {
    if ts == [] then 0 else Extras(ts[..|ts| - 1]) + ExtraBits(ts[|ts| - 1])
  }

  lemma TokenLenBits(lit: seq<nat>, dist: seq<nat>, t: Token)
    requires Codable(lit, dist, t)
    ensures ValidToken(t) && LitSym(t) < |lit| && (t.Match? ==> DistSymOf(t.dist - 1) < |dist|)
    ensures |TokenBits(lit, dist, t)| == lit[LitSym(t)] + ExtraBits(t)
      + (if t.Match? then dist[DistSymOf(t.dist - 1)] else 0)
  {
    hide LenSym, DistSymOf, LenBits, DistBitsOf, CodeBits, ToBits;
  }

  lemma CostOneMore(c: seq<nat>, l: seq<nat>, s: nat, v: nat)
    requires |c| == |l| && s < |c|
    ensures Cost(c[s := v], l) + c[s] * l[s] == Cost(c, l) + v * l[s]
  {
    hide Cost, Total;
    CostIsTotal(c, l);
    CostIsTotal(c[s := v], l);
    assert Products(c[s := v], l) == Products(c, l)[s := v * l[s]];
    TotalUpdate(Products(c, l), s, v * l[s]);
  }

  lemma CostCounted(c: seq<nat>, l: seq<nat>, s: nat)
    requires |c| == |l| && s < |c| && c[s] > 0
    ensures Cost(c, l) == Cost(c[s := c[s] - 1], l) + l[s]
  {
    hide Cost;
    CostOneMore(c, l, s, c[s] - 1);
    Distribute(l[s], c[s] - 1, 1);
  }

  lemma {:induction false} NoCost(c: seq<nat>, l: seq<nat>)
    requires |c| == |l| && forall s :: 0 <= s < |c| ==> c[s] == 0
    ensures Cost(c, l) == 0
  {
    if c == [] {
    } else {
      NoCost(c[1..], l[1..]);
    }
  }

  /** The frequencies before the last token. */
  lemma CountsBefore(ts: seq<Token>, c0: seq<nat>, c1: seq<nat>)
    requires ts != [] && AllValid(ts) && Counted(ts, c0, c1)
    ensures var n := |ts| - 1; var t := ts[n]; var s := LitSym(t);
            AllValid(ts[..n]) && s < LIT_CODES && c0[s] > 0 &&
            if t.Match? then
              var d := DistSymOf(t.dist - 1);
              d < DIST_CODES && c1[d] > 0 && Counted(ts[..n], c0[s := c0[s] - 1], c1[d := c1[d] - 1])
            else Counted(ts[..n], c0[s := c0[s] - 1], c1)
  {
    hide LitSym, DistSymOf;
    SymRange(ts[|ts| - 1]);
  }

  lemma CountsLen(ts: seq<Token>, c0: seq<nat>, c1: seq<nat>)
    requires AllValid(ts) && Counted(ts, c0, c1)
    ensures |c0| == LIT_CODES && |c1| == DIST_CODES
    ensures ts == [] ==> (forall s :: 0 <= s < |c0| ==> c0[s] == 0) && (forall s :: 0 <= s < |c1| ==> c1[s] == 0)
  {
  }

  /** The bits of the tokens, symbol by symbol. */
  lemma {:induction false} TokensLen(ts: seq<Token>, c0: seq<nat>, c1: seq<nat>, lit: seq<nat>, dist: seq<nat>)
    requires AllValid(ts) && Counted(ts, c0, c1) && AllCodable(lit, dist, ts) && |lit| == LIT_CODES
      && |dist| == DIST_CODES
    ensures |TokensBits(lit, dist, ts)| == Cost(c0, lit) + Cost(c1, dist) + Extras(ts)
  {
    hide Cost, Counted, ExtraBits, LitSym, DistSymOf, TokenBits, Codable;
    CountsLen(ts, c0, c1);
    if ts == [] {
      NoCost(c0, lit);
      NoCost(c1, dist);
    } else {
      var n := |ts| - 1;
      var t := ts[n];
      var s := LitSym(t);
      CountsBefore(ts, c0, c1);
      TokenLenBits(lit, dist, t);
      CostCounted(c0, lit, s);
      if t.Match? {
        var d := DistSymOf(t.dist - 1);
        CostCounted(c1, dist, d);
        TokensLen(ts[..n], c0[s := c0[s] - 1], c1[d := c1[d] - 1], lit, dist);
      } else {
        TokensLen(ts[..n], c0[s := c0[s] - 1], c1, lit, dist);
      }
    }
  }

  lemma CodedLen(ts: seq<Token>, c0: seq<nat>, c1: seq<nat>, lit: seq<nat>, dist: seq<nat>)
    requires AllValid(ts) && Counted(ts, c0, c1) && AllCodable(lit, dist, ts) && |lit| == LIT_CODES
      && |dist| == DIST_CODES
    requires HasCode(lit, END_OF_BLOCK)
    ensures |c0| == LIT_CODES && |c1| == DIST_CODES
    ensures |CodedBits(lit, dist, ts)| == Cost(c0[END_OF_BLOCK := 1], lit) + Cost(c1, dist) + Extras(ts)
  {
    hide Cost, TokensBits, AllCodable, Extras, LitCount, DistCount, CodeBits;
    CountsLen(ts, c0, c1);
    CountRange(ts, END_OF_BLOCK);
    TokensLen(ts, c0, c1, lit, dist);
    CostOneMore(c0, lit, END_OF_BLOCK, 1);
    assert c0[END_OF_BLOCK] * lit[END_OF_BLOCK] == 0;
  }

  // ------------------------------------------------------- the dynamic block

  lemma FixedBetween()
    ensures |FixedLit()| == LIT_CODES && |FixedDist()| == DIST_CODES
    ensures Between(FixedLit(), MAX_LEN) && Between(FixedDist(), MAX_LEN)
  {
  }

  lemma FixedSpace()
    ensures End(FixedLit(), MAX_LEN) <= Pow2(MAX_LEN) && End(FixedDist(), MAX_LEN) <= Pow2(MAX_LEN)
  {
    hide FixedLit, FixedDist, ValidCode;
    FixedLitValid();
    FixedDistValid();
    EndBound(FixedLit(), MAX_LEN);
    EndBound(FixedDist(), MAX_LEN);
  }

  lemma FixedRivals()
    ensures Rival(LIT_CODES, FixedLit()) && Rival(DIST_CODES, FixedDist())
  {
    hide KraftSum, End, Pow2, FixedLit, FixedDist;
    FixedBetween();
    FixedSpace();
    KraftIsEnd(FixedLit(), MAX_LEN);
    KraftIsEnd(FixedDist(), MAX_LEN);
  }

  lemma FixedLensLen()
    ensures |FixedLit()| == LIT_CODES && |FixedDist()| == DIST_CODES
  {
  }

  /** Tables made for the tokens code them nearly as well as the fixed ones, if
      not better. */
  lemma NoWorseThanFixed(ts: seq<Token>, c0: seq<nat>, c1: seq<nat>, lit: seq<nat>, dist: seq<nat>)
    requires AllValid(ts) && Counted(ts, c0, c1) && |ts| <= 58254 && AllCodable(lit, dist, ts)
      && HasCode(lit, END_OF_BLOCK)
    requires |c0| == LIT_CODES && NearlyOptimal(c0[END_OF_BLOCK := 1], lit) && NearlyOptimal(c1, dist)
    ensures AllCodable(FixedLit(), FixedDist(), ts) && HasCode(FixedLit(), END_OF_BLOCK)
    ensures RATE * |CodedBits(lit, dist, ts)| <= RATE * |CodedBits(FixedLit(), FixedDist(), ts)| + 576 * (|ts| + 1)
      + 64 * |ts|
  {
    hide Cost, TokensBits, AllCodable, Extras, LitCount, DistCount, CodeBits, FixedLit, FixedDist, CodedBits, Rival,
         Total, HasCode;
    CountsLen(ts, c0, c1);
    FixedCodable(ts);
    FixedEnd();
    FixedRivals();
    FixedLensLen();
    CodedLen(ts, c0, c1, lit, dist);
    CodedLen(ts, c0, c1, FixedLit(), FixedDist());
    LitTotal(ts, c0);
    DistTotal(ts, c1);
    CountRange(ts, END_OF_BLOCK);
    TotalUpdate(c0, END_OF_BLOCK, 1);
    assert |c0[END_OF_BLOCK := 1]| == LIT_CODES;
  }

  lemma {:induction false} PackedLen(cl: seq<nat>, packed: seq<Packed>)
    requires ValidPacked(cl, packed) && |cl| == 19 && forall i :: 0 <= i < 19 ==> cl[i] <= 7
    ensures |PackedBits(cl, packed)| <= 14 * |packed| && |packed| <= |Unpack(packed)|
  {
    hide CodeBits, ToBits;
    if packed == [] {
    } else {
      var n := |packed| - 1;
      PackedLen(cl, packed[..n]);
      assert |UnpackOne(Unpack(packed[..n]), packed[n])| >= |Unpack(packed[..n])| + 1;
    }
  }

  lemma {:induction false} ClLen(got: seq<nat>)
    ensures |ClBits(got)| == 3 * |got|
  {
    hide ToBits;
    if got == [] {
    } else {
      ClLen(got[..|got| - 1]);
    }
  }

  lemma HeaderLen(h: Header)
    requires ValidHeader(h)
    ensures |HeaderBits(h)| <= 14 + 57 + 14 * 320
  {
    hide ToBits, ClBits, PackedBits, Unpack, ValidCode, Zig, ValidPacked;
    PackedLen(h.cl, h.packed);
    ClLen(ClStored(h.cl, h.hclen));
  }

  lemma FixedCodedLen(ts: seq<Token>)
    requires AllCodable(FixedLit(), FixedDist(), ts) && HasCode(FixedLit(), END_OF_BLOCK)
      && SealedLen(ts) <= CODE_BUF_SIZE
    ensures RATE * |CodedBits(FixedLit(), FixedDist(), ts)| + 576 * (|ts| + 1) + 64 * |ts| <= 364_490_000
  {
    hide TokensBits, FixedLit, FixedDist, AllCodable, CodeBits, Bytes;
    FixedTokensLen(ts);
    FixedEnd();
    BytesAtLeast(ts, |ts|);
  }

  /** A dynamic block made for any buffer leaves room for what comes before and
      after it, like a static one: neither is ever cut off. */
  lemma DynamicFits(h: Header, ts: seq<Token>, c0: seq<nat>, c1: seq<nat>, lit: seq<nat>, dist: seq<nat>)
    requires ValidHeader(h) && AllValid(ts) && Counted(ts, c0, c1) && |ts| <= 58254 && SealedLen(ts) <= CODE_BUF_SIZE
    requires AllCodable(lit, dist, ts) && HasCode(lit, END_OF_BLOCK)
    requires |c0| == LIT_CODES && NearlyOptimal(c0[END_OF_BLOCK := 1], lit) && NearlyOptimal(c1, dist)
    ensures |HeaderBits(h)| + |CodedBits(lit, dist, ts)| + 100 < 8 * OUT_ROOM
  {
    hide AllCodable, FixedLit, FixedDist, NearlyOptimal, HasCode, ValidHeader, HeaderBits, Counted, CodedBits;
    HeaderLen(h);
    NoWorseThanFixed(ts, c0, c1, lit, dist);
    FixedCodedLen(ts);
  }
}
