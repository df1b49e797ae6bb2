/**
  What a compressor writes: LZ tokens, the bits of a block, and the bits of a
  whole stream. The theorem of this module is that the reference inflater turns
  those bits back into the bytes the tokens stand for.
 */
module Blocks {
  import opened Bits
  import opened Canonical
  import opened Deflate

  const MIN_MATCH: nat := 3
  const MAX_MATCH: nat := 258

  datatype Token = Literal(b: byte) | Match(len: nat, dist: nat)

  // --------------------------------------------- the compressor's code tables

  // Each function is one table of the code; a division spells out its runs of
  // equal entries.

  function LenSym(i: nat): nat
    requires i < 256
  {
    if i < 8 then 257 + i
    else if i < 16 then 265 + (i - 8) / 2
    else if i < 32 then 269 + (i - 16) / 4
    else if i < 64 then 273 + (i - 32) / 8
    else if i < 128 then 277 + (i - 64) / 16
    else if i < 255 then 281 + (i - 128) / 32
    else 285
  }

  function LenBits(i: nat): nat
    requires i < 256
  {
    if i < 8 then 0 else if i < 16 then 1 else if i < 32 then 2 else if i < 64 then 3
    else if i < 128 then 4 else if i < 255 then 5 else 0
  }

  function SmallDistSym(i: nat): nat
    requires i < 512
  {
    if i < 4 then i
    else if i < 8 then 4 + (i - 4) / 2
    else if i < 16 then 6 + (i - 8) / 4
    else if i < 32 then 8 + (i - 16) / 8
    else if i < 64 then 10 + (i - 32) / 16
    else if i < 128 then 12 + (i - 64) / 32
    else if i < 256 then 14 + (i - 128) / 64
    else 16 + (i - 256) / 128
  }

  function SmallDistBits(i: nat): nat
    requires i < 512
  {
    if i < 4 then 0 else if i < 8 then 1 else if i < 16 then 2 else if i < 32 then 3
    else if i < 64 then 4 else if i < 128 then 5 else if i < 256 then 6 else 7
  }

  function LargeDistSym(j: nat): nat
    requires j < 128
  {
    if j < 2 then 0
    else if j < 4 then 18 + (j - 2)
    else if j < 8 then 20 + (j - 4) / 2
    else if j < 16 then 22 + (j - 8) / 4
    else if j < 32 then 24 + (j - 16) / 8
    else if j < 64 then 26 + (j - 32) / 16
    else 28 + (j - 64) / 32
  }

  function LargeDistBits(j: nat): nat
    requires j < 128
  {
    if j < 2 then 0 else if j < 4 then 8 else if j < 8 then 9 else if j < 16 then 10
    else if j < 32 then 11 else if j < 64 then 12 else 13
  }

  function DistSymOf(i: nat): nat
    requires i < WINDOW
  {
    if i < 512 then SmallDistSym(i) else LargeDistSym(i / 256)
  }

  function DistBitsOf(i: nat): nat
    requires i < WINDOW
  {
    if i < 512 then SmallDistBits(i) else LargeDistBits(i / 256)
  }

  lemma FieldBounds(len: nat, d: nat)
    requires len < 256 && d < WINDOW
    ensures LenBits(len) <= 5 && DistBitsOf(d) <= 13
  {
  }

  // ------------------------------------------------------------------ tokens

  ghost predicate ValidToken(t: Token)
  {
    t.Match? ==> MIN_MATCH <= t.len <= MAX_MATCH && 1 <= t.dist <= WINDOW
  }

  /** The bytes of an overlapping copy, one at a time. */
  ghost function CopyOut(out: seq<byte>, len: nat, d: nat): (r: seq<byte>)
    ensures out <= r
    decreases len
  {
    if len == 0 || d == 0 || d > |out| then out
    else CopyOut(out + [out[|out| - d]], len - 1, d)
  }

  lemma {:induction false} CopyLen(out: seq<byte>, len: nat, d: nat)
    requires 1 <= d <= |out|
    ensures |CopyOut(out, len, d)| == |out| + len
    decreases len
  {
    if len == 0 {
    } else {
      CopyLen(out + [out[|out| - d]], len - 1, d);
    }
  }

  ghost function Apply(out: seq<byte>, t: Token): (r: seq<byte>)
    ensures out <= r
  {
    match t
    case Literal(b) => out + [b]
    case Match(len, d) => CopyOut(out, len, d)
  }

  /** The output after `tokens`, each read against the output before it. */
  ghost function Expand(out: seq<byte>, tokens: seq<Token>): (r: seq<byte>)
    ensures out <= r
    decreases |tokens|
  {
    if tokens == [] then out
    else Apply(Expand(out, tokens[..|tokens| - 1]), tokens[|tokens| - 1])
  }

  /** Every match refers to bytes that are there. */
  ghost predicate Reaches(out: seq<byte>, tokens: seq<Token>)
    decreases |tokens|
  {
    tokens == [] ||
    var n := |tokens| - 1;
    && Reaches(out, tokens[..n])
    && ValidToken(tokens[n])
    && (tokens[n].Match? ==> tokens[n].dist <= |Expand(out, tokens[..n])|)
  }

  ghost predicate HasCode(lens: seq<nat>, s: nat)
  {
    s < |lens| && lens[s] > 0
  }

  /** The symbols of a token have codes: the emitter's assertions. */
  ghost predicate Codable(lit: seq<nat>, dist: seq<nat>, t: Token)
  {
    ValidToken(t) &&
    match t
    case Literal(b) => HasCode(lit, b)
    case Match(len, d) => HasCode(lit, LenSym(len - MIN_MATCH)) && HasCode(dist, DistSymOf(d - 1))
  }

  ghost predicate AllCodable(lit: seq<nat>, dist: seq<nat>, tokens: seq<Token>)
  {
    forall i :: 0 <= i < |tokens| ==> Codable(lit, dist, tokens[i])
  }

  ghost function TokenBits(lit: seq<nat>, dist: seq<nat>, t: Token): seq<bool>
    requires Codable(lit, dist, t)
  {
    match t
    case Literal(b) => CodeBits(lit, b)
    case Match(len, d) =>
      CodeBits(lit, LenSym(len - MIN_MATCH)) + ToBits(len - MIN_MATCH, LenBits(len - MIN_MATCH))
      + CodeBits(dist, DistSymOf(d - 1)) + ToBits(d - 1, DistBitsOf(d - 1))
  }

  ghost function TokensBits(lit: seq<nat>, dist: seq<nat>, tokens: seq<Token>): seq<bool>
    requires AllCodable(lit, dist, tokens)
  {
    if tokens == [] then []
    else TokensBits(lit, dist, tokens[..|tokens| - 1]) + TokenBits(lit, dist, tokens[|tokens| - 1])
  }

  // ------------------------------------------------------------------ tables

  lemma MulSign(k: int, d: int)
    requires d > 0
    ensures k >= 1 ==> k * d >= d
    ensures k <= -1 ==> k * d <= -d
  {
    if k >= 1 {
      assert k * d == d + (k - 1) * d;
    } else if k <= -1 {
      assert k * d == (k + 1) * d - d;
    }
  }

  lemma ModUnique(v: nat, d: nat, q: int, r: nat)
    requires 0 < d && r < d && v == q * d + r
    ensures v % d == r
  {
    MulSign(v / d - q, d);
    assert v == (v / d) * d + v % d;
    assert (v / d - q) * d == r - v % d;
  }

  lemma ModHalf(v: nat, p: nat)
    requires p >= 1
    ensures v % (2 * p) == v % 2 + 2 * ((v / 2) % p)
  {
    var q, r := (v / 2) / p, (v / 2) % p;
    assert v / 2 == q * p + r;
    assert v == q * (2 * p) + (2 * r + v % 2);
    ModUnique(v, 2 * p, q, 2 * r + v % 2);
  }

  lemma {:induction false} LowMod(v: nat, n: nat)
    ensures Low(v, n) == v % Pow2(n)
  {
    if n == 0 {
    } else {
      LowMod(v / 2, n - 1);
      ModHalf(v, Pow2(n - 1));
    }
  }

  lemma TinyLengthTables(i: nat)
    requires i < 8
    ensures 257 <= LenSym(i) <= 285
    ensures LENGTH_EXTRA[LenSym(i) - 257] == LenBits(i)
    ensures LENGTH_BASE[LenSym(i) - 257] + i % Pow2(LenBits(i)) == i + MIN_MATCH
  {
    Pow2Small();
  }

  lemma ShortLengthTables(i: nat)
    requires 8 <= i < 32
    ensures 257 <= LenSym(i) <= 285
    ensures LENGTH_EXTRA[LenSym(i) - 257] == LenBits(i)
    ensures LENGTH_BASE[LenSym(i) - 257] + i % Pow2(LenBits(i)) == i + MIN_MATCH
  {
    hide Pow2;
    Pow2Small();
  }

  lemma MiddleLengthTables(i: nat)
    requires 32 <= i < 128
    ensures 257 <= LenSym(i) <= 285
    ensures LENGTH_EXTRA[LenSym(i) - 257] == LenBits(i)
    ensures LENGTH_BASE[LenSym(i) - 257] + i % Pow2(LenBits(i)) == i + MIN_MATCH
  {
    Pow2Small();
  }

  lemma LongLengthTables(i: nat)
    requires 128 <= i < 256
    ensures 257 <= LenSym(i) <= 285
    ensures LENGTH_EXTRA[LenSym(i) - 257] == LenBits(i)
    ensures LENGTH_BASE[LenSym(i) - 257] + i % Pow2(LenBits(i)) == i + MIN_MATCH
  {
    Pow2Small();
  }

  /** The length tables of the two sides agree. */
  lemma LengthTables(i: nat)
    requires i < 256
    ensures 257 <= LenSym(i) <= 285
    ensures LENGTH_EXTRA[LenSym(i) - 257] == LenBits(i)
    ensures LENGTH_BASE[LenSym(i) - 257] + Low(i, LenBits(i)) == i + MIN_MATCH
  {
    LowMod(i, LenBits(i));
    if i < 8 {
      TinyLengthTables(i);
    } else if i < 32 {
      ShortLengthTables(i);
    } else if i < 128 {
      MiddleLengthTables(i);
    } else {
      LongLengthTables(i);
    }
  }

  lemma TinyDistTables(i: nat)
    requires i < 16
    ensures SmallDistSym(i) < 30 && DIST_EXTRA[SmallDistSym(i)] == SmallDistBits(i)
    ensures DIST_BASE[SmallDistSym(i)] + i % Pow2(SmallDistBits(i)) == i + 1
  {
    Pow2Small();
    assert Pow2(0) == 1;
    hide Pow2;
  }

  lemma ShortDistTables(i: nat)
    requires 16 <= i < 64
    ensures SmallDistSym(i) < 30 && DIST_EXTRA[SmallDistSym(i)] == SmallDistBits(i)
    ensures DIST_BASE[SmallDistSym(i)] + i % Pow2(SmallDistBits(i)) == i + 1
  {
    Pow2Small();
    assert Pow2(0) == 1;
    hide Pow2;
  }

  lemma NearDistTables(i: nat)
    requires 64 <= i < 512
    ensures SmallDistSym(i) < 30 && DIST_EXTRA[SmallDistSym(i)] == SmallDistBits(i)
    ensures DIST_BASE[SmallDistSym(i)] + i % Pow2(SmallDistBits(i)) == i + 1
  {
    Pow2Small();
    assert Pow2(6) == 64;
    hide Pow2;
  }

  lemma SmallDistTables(i: nat)
    requires i < 512
    ensures SmallDistSym(i) < 30
    ensures DIST_EXTRA[SmallDistSym(i)] == SmallDistBits(i)
    ensures DIST_BASE[SmallDistSym(i)] + i % Pow2(SmallDistBits(i)) == i + 1
  {
    if i < 16 { TinyDistTables(i); } else if i < 64 { ShortDistTables(i); } else { NearDistTables(i); }
  }

  lemma FarDistTables(i: nat)
    requires 512 <= i < 4096
    ensures LargeDistSym(i / 256) < 30
    ensures DIST_EXTRA[LargeDistSym(i / 256)] == LargeDistBits(i / 256)
    ensures DIST_BASE[LargeDistSym(i / 256)] + i % Pow2(LargeDistBits(i / 256)) == i + 1
  {
    Pow2Small();
    assert Pow2(9) == 512;
    hide Pow2;
  }

  lemma FarthestDistTables(i: nat)
    requires 4096 <= i < WINDOW
    ensures LargeDistSym(i / 256) < 30
    ensures DIST_EXTRA[LargeDistSym(i / 256)] == LargeDistBits(i / 256)
    ensures DIST_BASE[LargeDistSym(i / 256)] + i % Pow2(LargeDistBits(i / 256)) == i + 1
  {
    Pow2Small();
    assert Pow2(9) == 512 && Pow2(11) == 2048 && Pow2(12) == 4096;
    hide Pow2;
  }

  lemma LargeDistTables(i: nat)
    requires 512 <= i < WINDOW
    ensures LargeDistSym(i / 256) < 30
    ensures DIST_EXTRA[LargeDistSym(i / 256)] == LargeDistBits(i / 256)
    ensures DIST_BASE[LargeDistSym(i / 256)] + i % Pow2(LargeDistBits(i / 256)) == i + 1
  {
    if i < 4096 { FarDistTables(i); } else { FarthestDistTables(i); }
  }

  lemma DistTables(i: nat)
    requires i < WINDOW
    ensures DistSymOf(i) < 30
    ensures DIST_EXTRA[DistSymOf(i)] == DistBitsOf(i)
    ensures DIST_BASE[DistSymOf(i)] + Low(i, DistBitsOf(i)) == i + 1
  {
    LowMod(i, DistBitsOf(i));
    if i < 512 { SmallDistTables(i); } else { LargeDistTables(i); }
  }

  // -------------------------------------------- tokens through the inflater

  lemma Front(a: seq<bool>, rest: seq<bool>)
    ensures (a + rest)[..|a|] == a && (a + rest)[|a|..] == rest
  {
  }

  /** Reading back an `n`-bit field. */
  lemma ReadField(v: nat, n: nat, rest: seq<bool>)
    ensures Nat((ToBits(v, n) + rest)[..n]) == Low(v, n) && (ToBits(v, n) + rest)[n..] == rest
  {
    Front(ToBits(v, n), rest);
    NatToBits(v, n);
  }

  lemma {:induction false} RunCopy(c: Config)
    requires c.ph.Copy? && 1 <= c.ph.d <= |c.out| && c.ph.d <= WINDOW
    ensures Run(c) == Run(c.(ph := Symbols(c.ph.lit, c.ph.dist), out := CopyOut(c.out, c.ph.len, c.ph.d)))
    decreases c.ph.len
  {
    hide Run, Step;
    var Copy(lit, dist, len, d) := c.ph;
    if len == 0 {
      RunMatch(c, c.(ph := Symbols(lit, dist)));
    } else {
      var c1 := c.(ph := Copy(lit, dist, len - 1, d), out := c.out + [c.out[|c.out| - d]]);
      RunMatch(c, c1);
      RunCopy(c1);
    }
  }

  lemma {:induction false} RunLiteral(c: Config, b: byte, rest: seq<bool>)
    requires c.ph.Symbols? && ValidCode(c.ph.lit) && HasCode(c.ph.lit, b)
    requires c.bits == CodeBits(c.ph.lit, b) + rest
    ensures Run(c) == Run(c.(bits := rest, out := c.out + [b]))
  {
    hide Run, Step, ValidCode, CodeBits, DecodeSym;
    DecodeCode(c.ph.lit, b, rest);
    Front(CodeBits(c.ph.lit, b), rest);
    RunSymbol(c, c.(bits := rest, out := c.out + [b]));
  }

  lemma {:induction false} RunEndOfBlock(c: Config, rest: seq<bool>)
    requires c.ph.Symbols? && ValidCode(c.ph.lit) && HasCode(c.ph.lit, END_OF_BLOCK)
    requires c.bits == CodeBits(c.ph.lit, END_OF_BLOCK) + rest
    ensures Run(c) == Run(EndBlock(c.(bits := rest)))
  {
    hide Run, Step, ValidCode, CodeBits, DecodeSym;
    DecodeCode(c.ph.lit, END_OF_BLOCK, rest);
    Front(CodeBits(c.ph.lit, END_OF_BLOCK), rest);
    RunSymbol(c, EndBlock(c.(bits := rest)));
  }

  lemma {:induction false} RunExtraLength(c: Config, i: nat, rest: seq<bool>)
    requires c.ph.LenExtra? && i < 256 && c.ph.extra == LenBits(i) && c.ph.base + Low(i, LenBits(i)) == i + MIN_MATCH
    requires c.bits == ToBits(i, LenBits(i)) + rest
    ensures Run(c) == Run(c.(bits := rest, ph := DistSym(c.ph.lit, c.ph.dist, i + MIN_MATCH)))
  {
    hide Run, Step, ToBits, Nat, Low, LenBits;
    ReadField(i, LenBits(i), rest);
    RunSymbol(c, c.(bits := rest, ph := DistSym(c.ph.lit, c.ph.dist, i + MIN_MATCH)));
  }

  lemma LengthStep(c: Config, s: nat)
    requires c.ph.Symbols? && DecodeSym(c.ph.lit, c.bits) == Some(s) && 257 <= s <= 285
    ensures c.ph.lit[s] <= |c.bits|
    ensures var base, bits := LENGTH_BASE[s - 257], LENGTH_EXTRA[s - 257];
            SymbolStep(c) == Some(Drop(c, c.ph.lit[s]).(ph := LenExtra(c.ph.lit, c.ph.dist, base, bits)))
  {
    hide DecodeSym, EndBlock;
  }

  lemma {:induction false} RunLength(c: Config, len: nat, rest: seq<bool>)
    requires c.ph.Symbols? && ValidCode(c.ph.lit) && MIN_MATCH <= len <= MAX_MATCH
    requires HasCode(c.ph.lit, LenSym(len - MIN_MATCH))
    requires c.bits == CodeBits(c.ph.lit, LenSym(len - MIN_MATCH))
                       + (ToBits(len - MIN_MATCH, LenBits(len - MIN_MATCH)) + rest)
    ensures Run(c) == Run(c.(bits := rest, ph := DistSym(c.ph.lit, c.ph.dist, len)))
  {
    hide Run, Step, ValidCode, CodeBits, DecodeSym, SymbolStep, ToBits, Nat, Low, LenSym, LenBits;
    var Symbols(lit, dist) := c.ph;
    var i := len - MIN_MATCH;
    var s, extra := LenSym(i), ToBits(i, LenBits(i));
    LengthTables(i);
    DecodeCode(lit, s, extra + rest);
    Front(CodeBits(lit, s), extra + rest);
    var c1 := c.(bits := extra + rest, ph := LenExtra(lit, dist, LENGTH_BASE[s - 257], LenBits(i)));
    LengthStep(c, s);
    RunSymbol(c, c1);
    RunExtraLength(c1, i, rest);
  }

  lemma {:induction false} RunDistance(c: Config, d: nat, rest: seq<bool>)
    requires c.ph.DistSym? && ValidCode(c.ph.dist) && 1 <= d <= WINDOW && d <= |c.out|
    requires HasCode(c.ph.dist, DistSymOf(d - 1))
    requires c.bits == CodeBits(c.ph.dist, DistSymOf(d - 1)) + (ToBits(d - 1, DistBitsOf(d - 1)) + rest)
    ensures Run(c) == Run(c.(bits := rest, ph := Copy(c.ph.lit, c.ph.dist, c.ph.len, d)))
  {
    hide Run, Step, ValidCode, CodeBits, DecodeSym, ToBits, Nat, Low, DistSymOf, DistBitsOf;
    var DistSym(lit, dist, len) := c.ph;
    var i := d - 1;
    var s, extra := DistSymOf(i), ToBits(i, DistBitsOf(i));
    DistTables(i);
    DecodeCode(dist, s, extra + rest);
    Front(CodeBits(dist, s), extra + rest);
    var c1 := c.(bits := extra + rest, ph := DistExtra(lit, dist, len, DIST_BASE[s], DistBitsOf(i)));
    RunMatch(c, c1);
    ReadField(i, DistBitsOf(i), rest);
    RunMatch(c1, c.(bits := rest, ph := Copy(lit, dist, len, d)));
  }

  lemma {:induction false} RunToken(c: Config, t: Token, rest: seq<bool>)
    requires c.ph.Symbols? && ValidCode(c.ph.lit) && ValidCode(c.ph.dist) && Codable(c.ph.lit, c.ph.dist, t)
    requires t.Match? ==> t.dist <= |c.out|
    requires c.bits == TokenBits(c.ph.lit, c.ph.dist, t) + rest
    ensures Run(c) == Run(c.(bits := rest, out := Apply(c.out, t)))
  {
    hide Run, ValidCode, CodeBits, DecodeSym, ToBits, Nat, Low, DistSymOf, DistBitsOf, LenSym, LenBits, Step;
    var Symbols(lit, dist) := c.ph;
    match t
    case Literal(b) => RunLiteral(c, b, rest);
    case Match(len, d) =>
      var i := len - MIN_MATCH;
      var w0, w1 := CodeBits(lit, LenSym(i)), ToBits(i, LenBits(i));
      var w2, w3 := CodeBits(dist, DistSymOf(d - 1)), ToBits(d - 1, DistBitsOf(d - 1));
      assert w0 + w1 + w2 + w3 + rest == w0 + (w1 + (w2 + (w3 + rest)));
      RunLength(c, len, w2 + (w3 + rest));
      var c1 := c.(bits := w2 + (w3 + rest), ph := DistSym(lit, dist, len));
      RunDistance(c1, d, rest);
      RunCopy(c.(bits := rest, ph := Copy(lit, dist, len, d)));
  }

  /** Decoding the coded tokens applies them. */
  lemma {:induction false} RunTokens(c: Config, tokens: seq<Token>, rest: seq<bool>)
    requires c.ph.Symbols? && ValidCode(c.ph.lit) && ValidCode(c.ph.dist)
    requires AllCodable(c.ph.lit, c.ph.dist, tokens) && Reaches(c.out, tokens)
    requires c.bits == TokensBits(c.ph.lit, c.ph.dist, tokens) + rest
    ensures Run(c) == Run(c.(bits := rest, out := Expand(c.out, tokens)))
    decreases |tokens|
  {
    hide Run, ValidCode, CodeBits, DecodeSym, ToBits, Apply, TokenBits, Step;
    if tokens == [] {
      assert c.bits == rest;
      assert c == c.(bits := rest);
    } else {
      var n := |tokens| - 1;
      var Symbols(lit, dist) := c.ph;
      var w := TokenBits(lit, dist, tokens[n]);
      assert TokensBits(lit, dist, tokens[..n]) + w + rest == TokensBits(lit, dist, tokens[..n]) + (w + rest);
      RunTokens(c, tokens[..n], w + rest);
      RunToken(c.(bits := w + rest, out := Expand(c.out, tokens[..n])), tokens[n], rest);
    }
  }
}
