/**
  What the reference inflater says at each point where the real one can stop: its
  next step exists, or the program refuses the stream here; and taking the step
  leaves the result the same.
 */
module InflateSteps {
  import opened Bits
  import opened Canonical
  import opened Deflate
  import Blocks

  /** Everything that is left will be read, up to the end or to a place where the
      program gives up. */
  ghost predicate Good(c: Config)
  {
    !FateOf(c).Unclear?
  }

  /** `d` leads to the same result as `c` and is further on. */
  ghost predicate Onward(c: Config, d: Config)
  {
    && FateOf(d) == FateOf(c) && c.out <= d.out && d.zlib == c.zlib && d.room == c.room
    && (|d.bits| < |c.bits| || (|d.bits| == |c.bits| && Rank(d.ph) < Rank(c.ph)))
  }

  lemma OnwardTrans(a: Config, b: Config, c: Config)
    requires Onward(a, b) && Onward(b, c)
    ensures Onward(a, c)
  {
    hide FateOf, Rank;
  }

  lemma OnwardGood(c: Config, d: Config)
    requires Good(c) && Onward(c, d)
    ensures Good(d)
  {
    hide FateOf, Rank;
  }

  lemma {:induction false} MustStep(c: Config)
    requires Good(c) && !c.ph.Done? && !Refuses(c)
    ensures Step(c).Some? && Onward(c, Step(c).value)
  {
    hide Step, Rank, Refuses;
    var f := FateOf(c);
    StepDescends(c, Step(c).value);
  }

  /** Where the program gives up it will always be. */
  lemma Refused(c: Config)
    requires Refuses(c)
    ensures FateOf(c) == Fails(c) && !c.ph.Done?
  {
    RefusedStops(c);
  }

  lemma MustZ(c: Config)
    requires Good(c) && !Refuses(c) && (c.ph.ZHeader0? || c.ph.ZHeader1? || c.ph.Trailer?)
    ensures ZStep(c).Some? && Onward(c, ZStep(c).value)
  {
    hide FateOf, ZStep, Rank;
    MustStep(c);
  }

  lemma MustBlock(c: Config)
    requires Good(c) && !Refuses(c) && c.ph.BlockHeader?
    ensures BlockStep(c).Some? && Onward(c, BlockStep(c).value)
  {
    hide FateOf, BlockStep, Rank;
    MustStep(c);
  }

  lemma MustRaw(c: Config)
    requires Good(c) && !Refuses(c) && (c.ph.RawHeader? || c.ph.RawBytes? || c.ph.RawPut?)
    ensures RawStep(c).Some? && Onward(c, RawStep(c).value)
  {
    hide FateOf, RawStep, Rank;
    MustStep(c);
  }

  lemma MustSizes(c: Config)
    requires Good(c) && c.ph.Sizes?
    ensures SizesStep(c).Some? && Onward(c, SizesStep(c).value)
  {
    hide FateOf, SizesStep, Rank;
    MustStep(c);
  }

  lemma MustCl(c: Config)
    requires Good(c) && !Refuses(c) && c.ph.ClLens?
    ensures ClStep(c).Some? && Onward(c, ClStep(c).value)
  {
    hide FateOf, ClStep, Rank;
    MustStep(c);
  }

  lemma MustLens(c: Config)
    requires Good(c) && !Refuses(c) && c.ph.Lens?
    ensures LensStep(c).Some? && Onward(c, LensStep(c).value)
  {
    hide FateOf, LensStep, Rank;
    MustStep(c);
  }

  lemma MustRep(c: Config)
    requires Good(c) && c.ph.LensRep?
    ensures RepStep(c).Some? && Onward(c, RepStep(c).value)
  {
    hide FateOf, RepStep, Rank;
    MustStep(c);
  }

  lemma MustSymbol(c: Config)
    requires Good(c) && (c.ph.Symbols? || c.ph.Emit? || c.ph.LenExtra?)
    ensures SymbolStep(c).Some? && Onward(c, SymbolStep(c).value)
  {
    hide FateOf, SymbolStep, Rank;
    MustStep(c);
  }

  lemma MustMatch(c: Config)
    requires Good(c) && !Refuses(c) && (c.ph.DistSym? || c.ph.DistExtra? || c.ph.Copy?)
    ensures MatchStep(c).Some? && Onward(c, MatchStep(c).value)
  {
    hide FateOf, MatchStep, Rank;
    MustStep(c);
  }

  // --------------------------------------------------------------- detours

  lemma FateRaw(c: Config, c1: Config)
    requires c.ph.RawPut? && RawStep(c) == Some(c1)
    ensures FateOf(c) == FateOf(c1)
  {
    hide FateOf, RawStep;
    FateStep(c, c1);
  }

  lemma FateSymbol(c: Config, c1: Config)
    requires c.ph.Emit? && SymbolStep(c) == Some(c1)
    ensures FateOf(c) == FateOf(c1)
  {
    hide FateOf, SymbolStep;
    FateStep(c, c1);
  }

  /** A raw byte taken out of the bit register waits for room. */
  lemma TakeRaw(c: Config, n: nat, b: byte)
    requires Good(c) && c.ph == RawBytes(n) && n > 0
    ensures |c.bits| >= 8
    ensures b == Nat(c.bits[..8]) ==> Onward(c, Drop(c, 8).(ph := RawPut(n, b)))
  {
    hide FateOf, EndBlock, Nat;
    MustRaw(c);
    if b == Nat(c.bits[..8]) {
      var d := Drop(c, 8).(ph := RawPut(n, b));
      FateRaw(d, Drop(c, 8).(ph := RawBytes(n - 1), out := c.out + [b]));
    }
  }

  lemma SymbolUsesBits(lens: seq<nat>, bits: seq<bool>, s: nat)
    requires DecodeSym(lens, bits) == Some(s)
    ensures s < |lens| && 0 < lens[s] <= |bits| && IsCode(lens, s, bits)
  {
  }

  /** A literal that was decoded waits for room. */
  lemma TakeLiteral(c: Config, s: nat)
    requires Good(c) && c.ph.Symbols? && DecodeSym(c.ph.lit, c.bits) == Some(s) && s < 256
    ensures c.ph.lit[s] <= |c.bits|
    ensures Onward(c, Drop(c, c.ph.lit[s]).(ph := Emit(c.ph.lit, c.ph.dist, s)))
    ensures Onward(c, Drop(c, c.ph.lit[s]).(out := c.out + [s]))
  {
    hide FateOf, EndBlock, DecodeSym, CodeBits;
    MustSymbol(c);
    SymbolUsesBits(c.ph.lit, c.bits, s);
    var d := Drop(c, c.ph.lit[s]).(ph := Emit(c.ph.lit, c.ph.dist, s));
    FateSymbol(d, Drop(c, c.ph.lit[s]).(out := c.out + [s]));
  }

  /** A symbol can be read. */
  lemma SymbolAhead(c: Config) returns (s: nat)
    requires Good(c) && c.ph.Symbols?
    ensures DecodeSym(c.ph.lit, c.bits) == Some(s) && IsCode(c.ph.lit, s, c.bits) && s <= 285
    ensures s < |c.ph.lit| && 0 < c.ph.lit[s] <= |c.bits|
  {
    hide FateOf, EndBlock, DecodeSym, CodeBits;
    MustSymbol(c);
    s := DecodeSym(c.ph.lit, c.bits).value;
    SymbolUsesBits(c.ph.lit, c.bits, s);
  }

  /** End of block. */
  lemma TakeEnd(c: Config)
    requires Good(c) && c.ph.Symbols? && DecodeSym(c.ph.lit, c.bits) == Some(END_OF_BLOCK)
    ensures c.ph.lit[END_OF_BLOCK] <= |c.bits|
    ensures Onward(c, EndBlock(Drop(c, c.ph.lit[END_OF_BLOCK])))
  {
    hide FateOf, EndBlock, DecodeSym, CodeBits;
    MustSymbol(c);
  }

  /** The symbol of a match length. */
  lemma TakeLength(c: Config, s: nat)
    requires Good(c) && c.ph.Symbols? && DecodeSym(c.ph.lit, c.bits) == Some(s) && s > 256
    ensures s <= 285 && c.ph.lit[s] <= |c.bits|
    ensures var base, bits := LENGTH_BASE[s - 257], LENGTH_EXTRA[s - 257];
            Onward(c, Drop(c, c.ph.lit[s]).(ph := LenExtra(c.ph.lit, c.ph.dist, base, bits)))
  {
    hide FateOf, EndBlock, DecodeSym, CodeBits;
    MustSymbol(c);
  }

  /** The whole match at once. */
  lemma {:induction false} TakeCopy(c: Config)
    requires Good(c) && c.ph.Copy?
    ensures c.ph.len > 0 ==> 1 <= c.ph.d <= |c.out| && c.ph.d <= WINDOW
    ensures Onward(c, c.(ph := Symbols(c.ph.lit, c.ph.dist), out := Blocks.CopyOut(c.out, c.ph.len, c.ph.d)))
    decreases c.ph.len
  {
    hide FateOf, EndBlock;
    MustMatch(c);
    var d := MatchStep(c).value;
    if c.ph.len == 0 {
    } else {
      OnwardGood(c, d);
      TakeCopy(d);
      OnwardTrans(c, d, c.(ph := Symbols(c.ph.lit, c.ph.dist), out := Blocks.CopyOut(c.out, c.ph.len, c.ph.d)));
    }
  }

  lemma Longer(c: Config, d: Config)
    requires Good(c) && Onward(c, d) && |d.out| > |c.out|
    ensures |c.out| < |FateOf(c).end.out|
  {
    hide Rank;
    FateExtends(d);
  }

  /** A step that produces a byte: there is more output to come. */
  lemma MoreOutput(c: Config)
    requires Good(c)
    requires (c.ph.RawBytes? && c.ph.n > 0) || (c.ph.RawPut? && c.ph.n > 0) || c.ph.Emit?
      || (c.ph.Copy? && c.ph.len > 0)
    ensures |c.out| < |FateOf(c).end.out|
  {
    hide FateOf, EndBlock, Nat;
    match c.ph
    case RawBytes(_) =>
      MustRaw(c);
      Longer(c, RawStep(c).value);
    case RawPut(_, _) =>
      MustRaw(c);
      Longer(c, RawStep(c).value);
    case Emit(_, _, _) =>
      MustSymbol(c);
      Longer(c, SymbolStep(c).value);
    case Copy(_, _, _, _) =>
      MustMatch(c);
      Longer(c, MatchStep(c).value);
  }
}
