/**
  Coding the token buffer: the portable loop, and the loop for machines with
  64-bit registers that looks ahead for literals. Both have the same contract.
 */
module Emitter {
  import opened Bits
  import opened Canonical
  import opened Deflate
  import opened Blocks
  import opened Stream
  import opened HuffmanTable
  import opened LzBuffer
  import opened BitWriter

  /** What the flag register holds before token `k`: the flags left of its
      group and the sentinel above them; just the sentinel between groups. */
  ghost predicate FlagReg(ts: seq<Token>, k: nat, flags: nat)
  {
    k <= |ts| &&
    if k % 8 == 0 then flags == 1
    else flags == FlagBits(Group(ts, k / 8)[k % 8..]) + Pow2(8 - k % 8)
  }

  /** The position behind `k` tokens. */
  ghost function Pos(ts: seq<Token>, k: nat): nat
    requires k <= |ts|
  {
    Bytes(ts, k) + (k + 7) / 8
  }

  lemma PosBounds(ts: seq<Token>, k: nat)
    requires k <= |ts|
    ensures Pos(ts, k) <= SealedLen(ts) && (k < |ts| ==> Pos(ts, k) < SealedLen(ts))
    ensures Pos(ts, |ts|) == SealedLen(ts) && Pos(ts, 0) == 0
  {
    if k < |ts| { BytesMono(ts, k, |ts|); }
  }

  lemma FlagHalf(g: seq<Token>, r: nat)
    requires r < |g| && r < 8
    ensures var v := FlagBits(g[r..]) + Pow2(8 - r);
            (v % 2 == 1 <==> g[r].Match?) && v / 2 == FlagBits(g[r + 1..]) + Pow2(7 - r)
  {
    assert g[r..][1..] == g[r + 1..];
    assert Pow2(8 - r) == 2 * Pow2(7 - r);
  }

  lemma NoFlags()
    ensures FlagBits([]) + Pow2(0) == 1
  {
  }

  lemma FlagShift(ts: seq<Token>, k: nat, flags: nat)
    requires k < |ts| && flags == FlagBits(Group(ts, k / 8)[k % 8..]) + Pow2(8 - k % 8)
    ensures flags % 2 == 1 <==> ts[k].Match?
    ensures FlagReg(ts, k + 1, flags / 2)
  {
    hide FlagBits, Pow2;
    var g := Group(ts, k / 8);
    var r := k % 8;
    FlagHalf(g, r);
    if r == 7 {
      assert g[r + 1..] == [];
      NoFlags();
      assert (k + 1) % 8 == 0;
    } else {
      assert (k + 1) / 8 == k / 8 && (k + 1) % 8 == r + 1;
    }
  }

  lemma NextFlag(ts: seq<Token>, k: nat, flags: nat)
    requires FlagReg(ts, k, flags) && (k % 8 == 0 || k < |ts|)
    ensures flags % 2 == 1 <==> (k % 8 == 0 || ts[k].Match?)
  {
    if k % 8 != 0 {
      assert Group(ts, k / 8)[k % 8..][0] == ts[k];
      assert Pow2(8 - k % 8) == 2 * Pow2(7 - k % 8);
    }
  }

  /** The register holds the flag of token `k` in its lowest bit. */
  lemma FlagOf(c: seq<byte>, ts: seq<Token>, k: nat, flags: nat)
    requires Sealed(c, ts) && k < |ts|
    requires flags == FlagBits(Group(ts, k / 8)[k % 8..]) + Pow2(8 - k % 8)
    ensures flags % 2 == 1 <==> ts[k].Match?
    ensures TokenAt(c, Off(ts, k), ts[k])
    ensures FlagReg(ts, k + 1, flags / 2)
    ensures k % 8 == 7 ==> flags / 2 % 2 == 1
    ensures k % 8 < 7 && k + 1 < |ts| ==> (flags / 2 % 2 == 1 <==> ts[k + 1].Match?)
  {
    hide Bytes, TokenAt, FlagBits, Group, FlagReg;
    FlagShift(ts, k, flags);
    assert (k + 1) % 8 == 0 <==> k % 8 == 7;
    if k % 8 == 7 || k + 1 < |ts| { NextFlag(ts, k + 1, flags / 2); }
  }

  /** The flag byte of a group, read with the sentinel. */
  lemma ReadFlags(c: seq<byte>, ts: seq<Token>, k: nat)
    requires Sealed(c, ts) && k < |ts| && k % 8 == 0
    ensures Pos(ts, k) < |c| && Off(ts, k) == Pos(ts, k) + 1
    ensures c[Pos(ts, k)] as int + 256 == FlagBits(Group(ts, k / 8)[0..]) + Pow2(8)
  {
    hide Bytes, TokenAt, Pow2;
    assert FlagsAt(c, ts, k / 8);
    assert Group(ts, k / 8)[0..] == Group(ts, k / 8);
    Pow2Small();
  }

  lemma NextPos(ts: seq<Token>, k: nat)
    requires k < |ts|
    ensures Off(ts, k) + TokenLen(ts[k]) == Pos(ts, k + 1)
    ensures Off(ts, k) == if k % 8 == 0 then Pos(ts, k) + 1 else Pos(ts, k)
  {
  }

  lemma TokensBitsNext(lit: seq<nat>, dist: seq<nat>, ts: seq<Token>, k: nat)
    requires k < |ts| && AllCodable(lit, dist, ts)
    ensures AllCodable(lit, dist, ts[..k]) && AllCodable(lit, dist, ts[..k + 1])
    ensures TokensBits(lit, dist, ts[..k + 1]) == TokensBits(lit, dist, ts[..k]) + TokenBits(lit, dist, ts[k])
  {
    assert ts[..k + 1][..k] == ts[..k];
  }

  // ----------------------------------------------------------------- portable

  /** The four fields of a match, as the code finds them. */
  method MatchFields(len: nat, d: nat) returns (lsym: nat, lextra: nat, dsym: nat, dextra: nat)
    requires len < 256 && d < WINDOW
    ensures lsym == LenSym(len) && lextra == LenBits(len) && dsym == DistSymOf(d) && dextra == DistBitsOf(d)
  {
    lsym, lextra := LenSym(len), LenBits(len);
    if d < 512 {
      dsym, dextra := SmallDistSym(d), SmallDistBits(d);
    } else {
      dsym, dextra := LargeDistSym(d / 256), LargeDistBits(d / 256);
    }
  }

  lemma FourParts(f: seq<bool>, a: seq<bool>, b: seq<bool>, c: seq<bool>, d: seq<bool>)
    ensures f + a + b + c + d == f + (a + b + c + d)
  {
  }

  method PutMatch(w: BitWriter, lit: Table, dist: Table, len: nat, d: nat)
    requires w.Valid() && ValidTable(lit) && ValidTable(dist) && len < 256 && d < WINDOW
    requires Codable(lit.sizes, dist.sizes, Match(len + MIN_MATCH, d + 1))
    modifies w, w.buf
    ensures w.Appends(TokenBits(lit.sizes, dist.sizes, Match(len + MIN_MATCH, d + 1)))
  {
    hide w.Valid, ToBits, CodeBits, Low, LenSym, LenBits, DistSymOf, DistBitsOf, SmallDistSym, SmallDistBits,
         LargeDistSym, LargeDistBits, ValidTable;
    ghost var f0 := w.full;
    var lsym, lextra, dsym, dextra := MatchFields(len, d);
    FieldBounds(len, d);
    LowBits(len, lextra);
    LowBits(d, dextra);
    w.PutSym(lit, lsym);
    w.PutBits(Low(len, lextra), lextra);
    w.PutSym(dist, dsym);
    w.PutBits(Low(d, dextra), dextra);
    FourParts(f0, CodeBits(lit.sizes, lsym), ToBits(len, lextra), CodeBits(dist.sizes, dsym), ToBits(d, dextra));
  }

  lemma StartTokens(lit: seq<nat>, dist: seq<nat>, ts: seq<Token>)
    ensures AllCodable(lit, dist, ts[..0]) && TokensBits(lit, dist, ts[..0]) == []
    ensures Pos(ts, 0) == 0 && FlagReg(ts, 0, 1)
  {
  }

  lemma Assoc3(f: seq<bool>, a: seq<bool>, lit: seq<nat>, dist: seq<nat>, ts: seq<Token>, k: nat)
    requires k < |ts| && AllCodable(lit, dist, ts)
    requires AllCodable(lit, dist, ts[..k]) && a == TokensBits(lit, dist, ts[..k])
    ensures AllCodable(lit, dist, ts[..k + 1])
    ensures Codable(lit, dist, ts[k]) && f + a + TokenBits(lit, dist, ts[k]) == f + TokensBits(lit, dist, ts[..k + 1])
  {
    TokensBitsNext(lit, dist, ts, k);
    hide AllCodable, TokensBits, TokenBits, Codable;
    Assoc(f, a, TokenBits(lit, dist, ts[k]));
  }

  /** The sentinel alone means that a group starts. */
  lemma RegSentinel(ts: seq<Token>, k: nat, flags: nat)
    requires FlagReg(ts, k, flags)
    ensures flags == 1 <==> k % 8 == 0
  {
    if k % 8 != 0 {
      assert Pow2(8 - k % 8) == 2 * Pow2(7 - k % 8);
    }
  }

  method LoadFlags(c: seq<byte>, ghost ts: seq<Token>, ghost k: nat, flags0: nat, p0: nat) returns (flags: nat, p: nat)
    requires Sealed(c, ts) && k < |ts| && p0 == Pos(ts, k) && FlagReg(ts, k, flags0)
    ensures flags == FlagBits(Group(ts, k / 8)[k % 8..]) + Pow2(8 - k % 8) && p == Off(ts, k)
  {
    hide Sealed, Pos, FlagBits, Off;
    flags, p := flags0, p0;
    NextPos(ts, k);
    RegSentinel(ts, k, flags0);
    if flags == 1 {
      ReadFlags(c, ts, k);
      flags := c[p] as int + 256;
      p := p + 1;
    }
  }

  /** One token: flags if a group starts here, then a match or a literal. */
  method EmitNext(w: BitWriter, lit: Table, dist: Table, c: seq<byte>, ghost ts: seq<Token>, ghost k: nat, flags0: nat,
          p0: nat)
    returns (flags: nat, p: nat)
    requires w.Valid() && ValidTable(lit) && ValidTable(dist) && Sealed(c, ts) && k < |ts|
    requires AllCodable(lit.sizes, dist.sizes, ts) && p0 == Pos(ts, k) && FlagReg(ts, k, flags0)
    modifies w, w.buf
    ensures p == Pos(ts, k + 1) && FlagReg(ts, k + 1, flags)
    ensures Codable(lit.sizes, dist.sizes, ts[k]) && w.Appends(TokenBits(lit.sizes, dist.sizes, ts[k]))
  {
    hide Sealed, FlagReg, Pos, FlagBits, Off, w.Valid, ValidTable, CodeBits, ToBits;
    flags, p := LoadFlags(c, ts, k, flags0, p0);
    FlagOf(c, ts, k, flags);
    NextPos(ts, k);
    if flags % 2 == 1 {
      var len, d := c[p], Word(c[p + 1], c[p + 2]);
      p := p + 3;
      PutMatch(w, lit, dist, len, d);
    } else {
      var b := c[p];
      p := p + 1;
      w.PutSym(lit, b);
    }
    flags := flags / 2;
  }

  /** tdefl_compress_lz_codes without unaligned stores. */
  method EmitPortable(w: BitWriter, lit: Table, dist: Table, c: seq<byte>, ghost ts: seq<Token>) returns (ok: bool)
    requires w.Valid() && ValidTable(lit) && ValidTable(dist)
    requires Sealed(c, ts) && |c| == SealedLen(ts)
    requires AllCodable(lit.sizes, dist.sizes, ts) && HasCode(lit.sizes, END_OF_BLOCK)
    modifies w, w.buf
    ensures w.Appends(CodedBits(lit.sizes, dist.sizes, ts))
    ensures ok <==> w.Fits()
  {
    hide w.Valid, Sealed, FlagReg, Pos, TokensBits, TokenBits, AllCodable, ValidTable, SealedLen, CodeBits;
    ghost var f0 := w.full;
    ghost var k := 0;
    var flags, p := 1, 0;
    StartTokens(lit.sizes, dist.sizes, ts);
    while p < |c|
      invariant 0 <= k <= |ts| && p == Pos(ts, k) && FlagReg(ts, k, flags)
      invariant AllCodable(lit.sizes, dist.sizes, ts[..k])
      invariant w.Appends(TokensBits(lit.sizes, dist.sizes, ts[..k]))
      decreases |ts| - k
    {
      PosBounds(ts, k);
      flags, p := EmitNext(w, lit, dist, c, ts, k, flags, p);
      Assoc3(f0, TokensBits(lit.sizes, dist.sizes, ts[..k]), lit.sizes, dist.sizes, ts, k);
      k := k + 1;
    }
    PosBounds(ts, k);
    assert ts[..k] == ts;
    w.PutSym(lit, END_OF_BLOCK);
    assert f0 + TokensBits(lit.sizes, dist.sizes, ts) + CodeBits(lit.sizes, END_OF_BLOCK)
        == f0 + (TokensBits(lit.sizes, dist.sizes, ts) + CodeBits(lit.sizes, END_OF_BLOCK));
    w.FitsIsRoom();
    ok := w.pos < w.end;
  }

  // ------------------------------------------------------------------- 64 bit

  /** bit_buffer and bits_in of the 64-bit loop. */
  datatype Reg = Reg(buf: nat, n: nat)

  ghost predicate ValidReg(r: Reg)
  {
    r.buf < Pow2(r.n) && r.n <= 64
  }

  ghost function RegBits(r: Reg): seq<bool>
  {
    ToBits(r.buf, r.n)
  }

  /** TDEFL_PUT_BITS_FAST: the register never overflows. */
  method PutFast(r: Reg, b: nat, l: nat) returns (r': Reg)
    requires ValidReg(r) && b < Pow2(l) && r.n + l <= 64
    ensures ValidReg(r') && r'.n == r.n + l && RegBits(r') == RegBits(r) + ToBits(b, l)
  {
    hide Or, Shl, ToBits, Pow2;
    OrShl(r.buf, r.n, b, l);
    r' := Reg(Or(r.buf, Shl(b, r.n)), r.n + l);
  }

  method PutSymFast(r: Reg, t: Table, s: nat) returns (r': Reg)
    requires ValidReg(r) && r.n + MAX_LEN <= 64 && ValidTable(t) && HasCode(t.sizes, s)
    ensures ValidReg(r') && r'.n <= r.n + MAX_LEN && RegBits(r') == RegBits(r) + CodeBits(t.sizes, s)
  {
    hide ToBits, CodeBits, ValidReg, RegBits;
    r' := PutFast(r, t.codes[s], t.sizes[s]);
  }

  method PutMatchFast(r: Reg, lit: Table, dist: Table, len: nat, d: nat) returns (r': Reg)
    requires ValidReg(r) && r.n < 8 && ValidTable(lit) && ValidTable(dist) && len < 256 && d < WINDOW
    requires Codable(lit.sizes, dist.sizes, Match(len + MIN_MATCH, d + 1))
    ensures ValidReg(r') && RegBits(r') == RegBits(r) + TokenBits(lit.sizes, dist.sizes, Match(len + MIN_MATCH, d + 1))
  {
    hide ToBits, CodeBits, Low, LenSym, LenBits, DistSymOf, DistBitsOf, SmallDistSym, SmallDistBits, LargeDistSym,
         LargeDistBits, ValidTable, ValidReg, RegBits;
    var lsym, lextra, dsym, dextra := MatchFields(len, d);
    FieldBounds(len, d);
    LowBits(len, lextra);
    LowBits(d, dextra);
    r' := PutSymFast(r, lit, lsym);
    r' := PutFast(r', Low(len, lextra), lextra);
    r' := PutSymFast(r', dist, dsym);
    r' := PutFast(r', Low(d, dextra), dextra);
    FourParts(RegBits(r), CodeBits(lit.sizes, lsym), ToBits(len, lextra), CodeBits(dist.sizes, dsym),
      ToBits(d, dextra));
  }

  lemma NoTokenBits(lit: seq<nat>, dist: seq<nat>)
    ensures TokensBits(lit, dist, []) == []
  {
  }

  lemma LastTokenBits(lit: seq<nat>, dist: seq<nat>, ts: seq<Token>)
    requires ts != [] && AllCodable(lit, dist, ts)
    ensures var n := |ts| - 1; TokensBits(lit, dist, ts) == TokensBits(lit, dist, ts[..n]) + TokenBits(lit, dist, ts[n])
  {
  }

  lemma {:induction false} TokensBitsConcat(lit: seq<nat>, dist: seq<nat>, a: seq<Token>, b: seq<Token>)
    requires AllCodable(lit, dist, a) && AllCodable(lit, dist, b)
    ensures AllCodable(lit, dist, a + b)
    ensures TokensBits(lit, dist, a + b) == TokensBits(lit, dist, a) + TokensBits(lit, dist, b)
    decreases |b|
  {
    hide TokenBits, Codable, TokensBits;
    if b == [] {
      assert a + b == a;
      NoTokenBits(lit, dist);
      assert TokensBits(lit, dist, a) + [] == TokensBits(lit, dist, a);
    } else {
      var n := |b| - 1;
      TokensBitsConcat(lit, dist, a, b[..n]);
      assert (a + b)[..|a| + n] == a + b[..n];
      assert (a + b)[|a| + n] == b[n];
      LastTokenBits(lit, dist, b);
      LastTokenBits(lit, dist, a + b);
      Assoc(TokensBits(lit, dist, a), TokensBits(lit, dist, b[..n]), TokenBits(lit, dist, b[n]));
    }
  }

  ghost predicate Codables(lit: Table, dist: Table, ts: seq<Token>)
  {
    AllCodable(lit.sizes, dist.sizes, ts)
  }

  /** The bits of tokens k..j. */
  ghost function Span(lit: Table, dist: Table, ts: seq<Token>, k: nat, j: nat): seq<bool>
    requires k <= j <= |ts| && Codables(lit, dist, ts)
  {
    TokensBits(lit.sizes, dist.sizes, ts[k..j])
  }

  lemma SpanNext(lit: Table, dist: Table, ts: seq<Token>, k: nat, j: nat)
    requires k <= j < |ts| && Codables(lit, dist, ts)
    ensures Codable(lit.sizes, dist.sizes, ts[j])
    ensures Span(lit, dist, ts, k, j + 1) == Span(lit, dist, ts, k, j) + TokenBits(lit.sizes, dist.sizes, ts[j])
    ensures Span(lit, dist, ts, k, k) == []
  {
    hide TokenBits;
    assert ts[k..j + 1][..j - k] == ts[k..j];
  }

  lemma OneSpan(lit: Table, dist: Table, ts: seq<Token>, k: nat)
    requires k < |ts| && Codables(lit, dist, ts)
    ensures Codable(lit.sizes, dist.sizes, ts[k])
    ensures Span(lit, dist, ts, k, k + 1) == TokenBits(lit.sizes, dist.sizes, ts[k])
  {
    hide Span, TokenBits, Codables;
    SpanNext(lit, dist, ts, k, k);
    assert [] + TokenBits(lit.sizes, dist.sizes, ts[k]) == TokenBits(lit.sizes, dist.sizes, ts[k]);
  }

  lemma SpanConcat(lit: Table, dist: Table, ts: seq<Token>, i: nat, k: nat, j: nat)
    requires i <= k <= j <= |ts| && Codables(lit, dist, ts)
    ensures Span(lit, dist, ts, i, j) == Span(lit, dist, ts, i, k) + Span(lit, dist, ts, k, j)
  {
    hide TokenBits, Codable;
    TokensBitsConcat(lit.sizes, dist.sizes, ts[i..k], ts[k..j]);
    assert ts[i..k] + ts[k..j] == ts[i..j];
  }

  /** One literal into the register. */
  method FastLiteral(r: Reg, lit: Table, ghost dist: Table, c: seq<byte>, ghost ts: seq<Token>, ghost k0: nat,
          ghost k: nat, p: nat)
    returns (r': Reg)
    requires ValidReg(r) && r.n + MAX_LEN <= 64 && ValidTable(lit) && k0 <= k < |ts| && Codables(lit, dist, ts)
    requires TokenAt(c, p, ts[k]) && ts[k].Literal?
    ensures ValidReg(r') && r'.n <= r.n + MAX_LEN
    ensures RegBits(r') == RegBits(r) + Span(lit, dist, ts, k, k + 1)
  {
    hide ValidTable, CodeBits, ValidReg, RegBits, Span;
    OneSpan(lit, dist, ts, k);
    r' := PutSymFast(r, lit, c[p]);
  }

  /** The look-ahead: if the next flag says literal and there is more input, take it. */
  method LookAhead(r: Reg, lit: Table, ghost dist: Table, c: seq<byte>, ghost ts: seq<Token>, ghost k: nat, flags: nat,
          p: nat)
    returns (took: bool, r': Reg, flags': nat, p': nat)
    requires ValidReg(r) && r.n + MAX_LEN <= 64 && ValidTable(lit) && 0 < k <= |ts| && Codables(lit, dist, ts)
    requires Sealed(c, ts) && |c| == SealedLen(ts) && p == Pos(ts, k) && FlagReg(ts, k, flags / 2)
    requires k % 8 == 0 ==> flags / 2 % 2 == 1
    requires k % 8 != 0 && k < |ts| ==> (flags / 2 % 2 == 1 <==> ts[k].Match?)
    ensures took ==> k < |ts| && ValidReg(r') && r'.n <= r.n + MAX_LEN
                     && RegBits(r') == RegBits(r) + Span(lit, dist, ts, k, k + 1)
                     && flags' == flags / 2 && p' == Pos(ts, k + 1) && FlagReg(ts, k + 1, flags' / 2)
                     && ((k + 1) % 8 == 0 ==> flags' / 2 % 2 == 1)
                     && ((k + 1) % 8 != 0 && k + 1 < |ts| ==> (flags' / 2 % 2 == 1 <==> ts[k + 1].Match?))
    ensures !took ==> r' == r && flags' == flags && p' == p
  {
    hide Sealed, Pos, FlagBits, Off, ValidTable, ValidReg, RegBits, Span, SealedLen, Codables;
    took, r', flags', p' := false, r, flags, p;
    if flags / 2 % 2 == 0 && p < |c| {
      PosBounds(ts, k);
      flags' := flags / 2;
      FlagOf(c, ts, k, flags');
      NextPos(ts, k);
      r' := FastLiteral(r, lit, dist, c, ts, k, k, p);
      took, p' := true, p + 1;
    }
  }

  method MoreLiterals(ghost r0: Reg, r: Reg, lit: Table, ghost dist: Table, c: seq<byte>, ghost ts: seq<Token>,
          ghost k: nat, flags0: nat, p0: nat)
    returns (r': Reg, ghost j: nat, flags: nat, p: nat)
    requires ValidReg(r) && r.n < 8 + MAX_LEN && ValidTable(lit) && k < |ts| && Codables(lit, dist, ts)
    requires RegBits(r) == RegBits(r0) + Span(lit, dist, ts, k, k + 1)
    requires Sealed(c, ts) && |c| == SealedLen(ts) && p0 == Pos(ts, k + 1) && FlagReg(ts, k + 1, flags0 / 2)
    requires k % 8 == 7 ==> flags0 / 2 % 2 == 1
    requires k % 8 < 7 && k + 1 < |ts| ==> (flags0 / 2 % 2 == 1 <==> ts[k + 1].Match?)
    ensures k < j <= |ts| && ValidReg(r') && RegBits(r') == RegBits(r0) + Span(lit, dist, ts, k, j)
    ensures p == Pos(ts, j) && FlagReg(ts, j, flags / 2)
  {
    hide Sealed, Pos, ValidTable, ValidReg, RegBits, Span, SealedLen, FlagReg, Codables;
    assert (k + 1) % 8 == 0 <==> k % 8 == 7;
    var took;
    took, r', flags, p := LookAhead(r, lit, dist, c, ts, k + 1, flags0, p0);
    j := k + 1;
    if took {
      SpanConcat(lit, dist, ts, k, k + 1, k + 2);
      Assoc(RegBits(r0), Span(lit, dist, ts, k, k + 1), Span(lit, dist, ts, k + 1, k + 2));
      j := k + 2;
      took, r', flags, p := LookAhead(r', lit, dist, c, ts, k + 2, flags, p);
      if took {
        SpanConcat(lit, dist, ts, k, k + 2, k + 3);
        Assoc(RegBits(r0), Span(lit, dist, ts, k, k + 2), Span(lit, dist, ts, k + 2, k + 3));
        j := k + 3;
      }
    }
  }

  /** The body of the 64-bit loop up to the store: a match, or one to three literals. */
  method FastTokens(r: Reg, lit: Table, dist: Table, c: seq<byte>, ghost ts: seq<Token>, ghost k: nat, flags0: nat,
          p0: nat)
    returns (r': Reg, ghost j: nat, flags: nat, p: nat)
    requires ValidReg(r) && r.n < 8 && ValidTable(lit) && ValidTable(dist) && k < |ts| && Codables(lit, dist, ts)
    requires Sealed(c, ts) && |c| == SealedLen(ts) && p0 == Pos(ts, k) && FlagReg(ts, k, flags0)
    ensures k < j <= |ts| && ValidReg(r') && RegBits(r') == RegBits(r) + Span(lit, dist, ts, k, j)
    ensures p == Pos(ts, j) && FlagReg(ts, j, flags / 2)
  {
    hide Sealed, Pos, FlagBits, Off, ValidTable, ValidReg, RegBits, Span, SealedLen, FlagReg;
    flags, p := LoadFlags(c, ts, k, flags0, p0);
    FlagOf(c, ts, k, flags);
    NextPos(ts, k);
    OneSpan(lit, dist, ts, k);
    j := k + 1;
    if flags % 2 == 1 {
      var len, d := c[p], Word(c[p + 1], c[p + 2]);
      p := p + 3;
      r' := PutMatchFast(r, lit, dist, len, d);
    } else {
      r' := FastLiteral(r, lit, dist, c, ts, k, k, p);
      p := p + 1;
      r', j, flags, p := MoreLiterals(r, r', lit, dist, c, ts, k, flags, p);
    }
  }

  // ------------------------------------------------------- the unaligned store

  /** The low `m` bytes of a register value. */
  ghost function RegBytes(v: nat, m: nat): (r: seq<byte>)
    ensures |r| == m
  {
    if m == 0 then [] else RegBytes(v, m - 1) + [ByteOf(Shr(v, 8 * (m - 1)))]
  }

  lemma {:induction false} RegBytesBits(v: nat, m: nat, n: nat)
    requires v < Pow2(n) && 8 * m <= n
    ensures BytesBits(RegBytes(v, m)) + ToBits(Shr(v, 8 * m), n - 8 * m) == ToBits(v, n)
    ensures Shr(v, 8 * m) < Pow2(n - 8 * m)
  {
    hide ToBits, Pow2;
    if m == 0 {
      assert Shr(v, 0) == v;
      assert BytesBits(RegBytes(v, 0)) == [];
    } else {
      RegBytesBits(v, m - 1, n);
      var u := Shr(v, 8 * (m - 1));
      var k := n - 8 * m;
      assert n - 8 * (m - 1) == k + 8;
      SplitByte(u, k);
      ShrShr(v, 8 * (m - 1), 8);
      assert 8 * (m - 1) + 8 == 8 * m;
      BytesBitsConcat(RegBytes(v, m - 1), [ByteOf(u)]);
      BytesBitsOne(ByteOf(u));
      Assoc(BytesBits(RegBytes(v, m - 1)), ToBits(ByteOf(u), 8), ToBits(Shr(v, 8 * m), k));
    }
  }

  /** *(mz_uint64*)pOutput_buf = bit_buffer: eight bytes, little endian. */
  method Store64(b: array<byte>, at: nat, v: nat)
    requires at + 8 <= b.Length
    modifies b
    ensures b[at..at + 8] == RegBytes(v, 8)
    ensures forall i :: 0 <= i < at ==> b[i] == old(b[i])
  {
    hide ByteOf, Shr;
    var i := 0;
    while i < 8
      invariant 0 <= i <= 8 && b[at..at + i] == RegBytes(v, i)
      invariant forall i :: 0 <= i < at ==> b[i] == old(b[i])
    {
      b[at + i] := ByteOf(Shr(v, 8 * i));
      assert b[at..at + i + 1] == b[at..at + i] + [b[at + i]];
      i := i + 1;
    }
  }

  lemma {:induction false} RegBytesPrefix(v: nat, m: nat, j: nat)
    requires m <= j
    ensures RegBytes(v, j)[..m] == RegBytes(v, m)
    decreases j - m
  {
    hide ByteOf, Shr;
    if m == j {
    } else {
      RegBytesPrefix(v, m, j - 1);
      assert RegBytes(v, j)[..m] == RegBytes(v, j - 1)[..m];
    }
  }

  /** The state of the 64-bit loop between iterations: the bytes out, and fewer
      than eight bits in the register. */
  ghost predicate FastOut(b: array<byte>, start: nat, po: nat, r: Reg, written: seq<bool>)
    reads b
  {
    && start <= po <= b.Length && ValidReg(r)
    && BytesBits(b[start..po]) + RegBits(r) == written
  }

  /** Store the register, keep the bits that do not fill a byte. */
  method StoreReg(b: array<byte>, ghost start: nat, po: nat, r: Reg, ghost written: seq<bool>) returns (po': nat,
          r': Reg)
    requires po + 8 <= b.Length && FastOut(b, start, po, r, written)
    modifies b
    ensures FastOut(b, start, po', r', written) && r'.n < 8 && po <= po' <= po + 8
    ensures forall i :: 0 <= i < po ==> b[i] == old(b[i])
  {
    hide BytesBits, ToBits, Shr, RegBytes, Pow2;
    ghost var before := b[start..po];
    var m := r.n / 8;
    Store64(b, po, r.buf);
    assert b[start..po] == before;
    RegBytesPrefix(r.buf, m, 8);
    assert b[po..po + m] == b[po..po + 8][..m];
    assert b[start..po + m] == before + b[po..po + m];
    RegBytesBits(r.buf, m, r.n);
    BytesBitsConcat(before, RegBytes(r.buf, m));
    Assoc(BytesBits(before), BytesBits(RegBytes(r.buf, m)), ToBits(Shr(r.buf, 8 * m), r.n - 8 * m));
    po' := po + m;
    r' := Reg(Shr(r.buf, 8 * m), r.n - 8 * m);
  }

  lemma NoBits(v: nat)
    ensures ToBits(v, 0) == []
  {
  }

  /** The bits left in the register go through the slow path. */
  method PutRest(w: BitWriter, r: Reg)
    requires w.Valid() && ValidReg(r)
    modifies w, w.buf
    ensures w.Appends(RegBits(r))
  {
    hide w.Valid, ToBits, Shr, Low, Pow2;
    ghost var f0 := w.full;
    var v: nat, n: nat := r.buf, r.n;
    ghost var done: seq<bool> := [];
    while n > 0
      invariant v < Pow2(n) && done + ToBits(v, n) == RegBits(r)
      invariant w.Appends(done)
    {
      var m := if n < 16 then n else 16;
      ghost var f1 := w.full;
      ToBitsSplit(v, m, n - m);
      assert m + (n - m) == n;
      ShrBound(v, m, n - m);
      LowBits(v, m);
      w.PutBits(Low(v, m), m);
      assert f0 + done + ToBits(v, m) == f0 + (done + ToBits(v, m));
      assert done + (ToBits(v, m) + ToBits(Shr(v, m), n - m)) == done + ToBits(v, m) + ToBits(Shr(v, m), n - m);
      done := done + ToBits(v, m);
      v, n := Shr(v, m), n - m;
    }
    NoBits(v);
    assert done + [] == done;
  }

  /** The 64-bit loop over the buffer: everything is in the output, or the end of
      the output was passed. */
  ghost predicate FastState(w: BitWriter, written: seq<bool>, po: nat, r: Reg)
    reads w, w.buf
  {
    && w.pos <= po && r.n < 8
    && (if w.pos < w.end then FastOut(w.buf, w.start, po, r, written)
        else po == w.pos && ValidReg(r) && w.start + |written| / 8 >= w.end)
  }

  lemma FastStart(w: BitWriter)
    requires w.Valid()
    ensures FastState(w, w.full, w.pos, Reg(w.bitBuffer, w.bitsIn))
  {
  }

  /** Past the end nothing that is still to come can fit. */
  lemma FastFull(w: BitWriter, written: seq<bool>, more: seq<bool>, po: nat, r: Reg)
    requires FastState(w, written, po, r) && po >= w.end
    ensures w.start + |written + more| / 8 >= w.end
  {
    hide ToBits, Pow2;
    if w.pos < w.end {
      assert |written| == 8 * (po - w.start) + r.n;
      assert |written| / 8 >= po - w.start;
    }
    assert |written + more| / 8 >= |written| / 8;
  }

  lemma SpanEmpty(lit: Table, dist: Table, ts: seq<Token>)
    requires Codables(lit, dist, ts)
    ensures Span(lit, dist, ts, 0, 0) == []
  {
  }

  lemma FastReg(w: BitWriter, written: seq<bool>, po: nat, r: Reg)
    requires FastState(w, written, po, r)
    ensures ValidReg(r) && r.n < 8
  {
  }

  method FastStore(w: BitWriter, ghost written: seq<bool>, ghost more: seq<bool>, po: nat, ghost r: Reg,
          r1: Reg)
    returns (po': nat, r': Reg)
    requires FastState(w, written, po, r) && po < w.end && w.end + 8 <= w.buf.Length
    requires ValidReg(r1) && RegBits(r1) == RegBits(r) + more
    modifies w.buf
    ensures forall i :: 0 <= i < w.pos ==> w.buf[i] == old(w.buf[i])
    ensures FastState(w, written + more, po', r')
  {
    hide ValidReg, RegBits;
    Assoc(BytesBits(w.buf[w.start..po]), RegBits(r), more);
    po', r' := StoreReg(w.buf, w.start, po, r1, written + more);
  }

  lemma KeepsStart(w: BitWriter)
    requires w.Valid()
    ensures w.start <= w.pos <= w.buf.Length && w.start <= w.end <= w.buf.Length
  {
  }

  /** The loop of tdefl_compress_lz_codes with 64-bit stores. */
  method FastLoop(w: BitWriter, lit: Table, dist: Table, c: seq<byte>, ghost ts: seq<Token>)
    returns (ok: bool, po: nat, r: Reg)
    requires w.Valid() && w.end + 8 <= w.buf.Length && ValidTable(lit) && ValidTable(dist)
    requires Sealed(c, ts) && |c| == SealedLen(ts) && Codables(lit, dist, ts)
    modifies w.buf
    ensures forall i :: 0 <= i < w.pos ==> w.buf[i] == old(w.buf[i])
    ensures ok ==> FastState(w, w.full + Span(lit, dist, ts, 0, |ts|), po, r)
    ensures !ok ==> w.start + |w.full + Span(lit, dist, ts, 0, |ts|)| / 8 >= w.end
  {
    hide w.Valid, Sealed, FlagReg, Pos, Span, ValidTable, SealedLen, FastState, Codables;
    ghost var f0 := w.full;
    ghost var k := 0;
    var flags, p := 1, 0;
    po, r := w.pos, Reg(w.bitBuffer, w.bitsIn);
    KeepsStart(w);
    FastStart(w);
    StartTokens(lit.sizes, dist.sizes, ts);
    SpanEmpty(lit, dist, ts);
    assert f0 + [] == f0;
    while p < |c|
      invariant 0 <= k <= |ts| && p == Pos(ts, k) && FlagReg(ts, k, flags)
      invariant FastState(w, f0 + Span(lit, dist, ts, 0, k), po, r)
      invariant forall i :: 0 <= i < w.pos ==> w.buf[i] == old(w.buf[i])
      decreases |ts| - k
    {
      PosBounds(ts, k);
      ghost var j;
      FastReg(w, f0 + Span(lit, dist, ts, 0, k), po, r);
      var r1: Reg;
      r1, j, flags, p := FastTokens(r, lit, dist, c, ts, k, flags, p);
      SpanConcat(lit, dist, ts, 0, k, j);
      Assoc(f0, Span(lit, dist, ts, 0, k), Span(lit, dist, ts, k, j));
      if po >= w.end {
        SpanConcat(lit, dist, ts, 0, k, |ts|);
        Assoc(f0, Span(lit, dist, ts, 0, k), Span(lit, dist, ts, k, |ts|));
        FastFull(w, f0 + Span(lit, dist, ts, 0, k), Span(lit, dist, ts, k, |ts|), po, r);
        return false, po, r1;
      }
      po, r := FastStore(w, f0 + Span(lit, dist, ts, 0, k), Span(lit, dist, ts, k, j), po, r, r1);
      flags := flags / 2;
      k := j;
    }
    PosBounds(ts, k);
    ok := true;
  }

  lemma SpanAll(lit: Table, dist: Table, ts: seq<Token>)
    requires Codables(lit, dist, ts)
    ensures Span(lit, dist, ts, 0, |ts|) == TokensBits(lit.sizes, dist.sizes, ts)
  {
    assert ts[0..|ts|] == ts;
  }

  lemma ZeroPow()
    ensures Pow2(0) == 1
  {
  }

  /** The cursor moves to where the fast loop stopped, and the bytes of its register
      follow. */
  method FastResume(w: BitWriter, po: nat, r: Reg, ghost written: seq<bool>)
    requires FastState(w, written, po, r) && w.start <= w.pos <= w.buf.Length && w.start <= w.end <= w.buf.Length
    modifies w, w.buf
    ensures w.Keeps() && w.Valid() && w.pos >= old(w.pos)
    ensures if old(w.pos) < w.end then w.full == written
      else w.start + |w.full| / 8 >= w.end && w.start + |written| / 8 >= w.end
  {
    hide ToBits, Pow2, BytesBits;
    FastReg(w, written, po, r);
    ghost var f1 := if w.pos < w.end then BytesBits(w.buf[w.start..po]) else written[..8 * (|written| / 8)];
    w.pos, w.bitsIn, w.bitBuffer := po, 0, 0;
    w.full := f1;
    NoBits(0);
    assert f1 + [] == f1;
    BytesBitsLen(w.buf[w.start..po]);
    ZeroPow();
    assert w.Valid();
    PutRest(w, r);
  }

  lemma LongerBytes(a: seq<bool>, b: seq<bool>)
    ensures |a + b| / 8 >= |a| / 8
  {
  }

  /** After the loop: the cursor, the pending bits, the end of the block. */
  method FastFinish(w: BitWriter, lit: Table, po: nat, r: Reg, ghost written: seq<bool>)
    requires FastState(w, written, po, r) && w.start <= w.pos <= w.buf.Length && w.start <= w.end <= w.buf.Length
    requires ValidTable(lit) && HasCode(lit.sizes, END_OF_BLOCK)
    modifies w, w.buf
    ensures w.Keeps() && w.Valid()
    ensures w.pos < w.end <==> w.start + |written + CodeBits(lit.sizes, END_OF_BLOCK)| / 8 < w.end
    ensures w.pos < w.end ==> w.full == written + CodeBits(lit.sizes, END_OF_BLOCK) && w.pos >= old(w.pos)
  {
    hide CodeBits, ValidTable, w.Valid, FastState, w.Emitted;
    FastResume(w, po, r, written);
    LongerBytes(w.full, CodeBits(lit.sizes, END_OF_BLOCK));
    LongerBytes(written, CodeBits(lit.sizes, END_OF_BLOCK));
    w.PutSym(lit, END_OF_BLOCK);
    w.FitsIsRoom();
  }

  /** tdefl_compress_lz_codes with 64-bit stores. */
  method EmitFast(w: BitWriter, lit: Table, dist: Table, c: seq<byte>, ghost ts: seq<Token>) returns (ok: bool)
    requires w.Valid() && w.end + 8 <= w.buf.Length && ValidTable(lit) && ValidTable(dist)
    requires Sealed(c, ts) && |c| == SealedLen(ts)
    requires AllCodable(lit.sizes, dist.sizes, ts) && HasCode(lit.sizes, END_OF_BLOCK)
    modifies w, w.buf
    ensures w.Keeps()
    ensures ok ==> w.Appends(CodedBits(lit.sizes, dist.sizes, ts))
    ensures ok <==> w.start + |old(w.full) + CodedBits(lit.sizes, dist.sizes, ts)| / 8 < w.end
  {
    hide w.Valid, Sealed, Span, ValidTable, SealedLen, FastState, CodeBits;
    ghost var f0 := w.full;
    ghost var s := Span(lit, dist, ts, 0, |ts|);
    ghost var e := CodeBits(lit.sizes, END_OF_BLOCK);
    SpanAll(lit, dist, ts);
    Assoc(f0, s, e);
    KeepsStart(w);
    var po, r;
    ok, po, r := FastLoop(w, lit, dist, c, ts);
    if !ok {
      assert |f0 + s + e| / 8 >= |f0 + s| / 8;
      return;
    }
    FastFinish(w, lit, po, r, f0 + s);
    ok := w.pos < w.end;
  }

  /** tdefl_compress_lz_codes: which of the two loops is compiled does not matter. */
  method EmitCodes(w: BitWriter, lit: Table, dist: Table, c: seq<byte>, ghost ts: seq<Token>,
          fast: bool)
    returns (ok: bool)
    requires w.Valid() && w.end + 8 <= w.buf.Length && ValidTable(lit) && ValidTable(dist)
    requires Sealed(c, ts) && |c| == SealedLen(ts)
    requires AllCodable(lit.sizes, dist.sizes, ts) && HasCode(lit.sizes, END_OF_BLOCK)
    modifies w, w.buf
    ensures w.Keeps()
    ensures ok ==> w.Appends(CodedBits(lit.sizes, dist.sizes, ts))
    ensures ok <==> w.start + |old(w.full) + CodedBits(lit.sizes, dist.sizes, ts)| / 8 < w.end
  {
    hide w.Valid, Sealed, SealedLen, ValidTable, AllCodable, CodedBits;
    KeepsStart(w);
    if fast {
      ok := EmitFast(w, lit, dist, c, ts);
    } else {
      ok := EmitPortable(w, lit, dist, c, ts);
    }
  }
}
