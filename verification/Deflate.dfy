/**
  The reference inflater: RFC 1951 (and its RFC 1950 wrapper) as a machine that
  reads a bit string and extends a byte string one decision at a time. It has
  no buffers and never suspends. Everything else is proved against `Run`.

  A stream is a whole number of bytes, so the bits up to the next byte boundary
  are the remaining bits modulo eight.
 */
module Deflate {
  import opened Bits
  import opened Canonical

  const WINDOW: nat := 32768
  const LIT_CODES: nat := 288
  const DIST_CODES: nat := 32
  const END_OF_BLOCK: nat := 256
  const LENGTH_BASE: seq<nat> := [3,4,5,6,7,8,9,10,11,13,15,17,19,23,27,31,35,43,51,59,67,83,99,115,131,163,195,227,258]
  const LENGTH_EXTRA: seq<nat> := [0,0,0,0,0,0,0,0,1,1,1,1,2,2,2,2,3,3,3,3,4,4,4,4,5,5,5,5,0]
  const DIST_BASE: seq<nat> := [1,2,3,4,5,7,9,13,17,25,33,49,65,97,129,193,257,385,513,769,1025,1537,2049,3073,4097,6145,8193,12289,16385,24577]
  const DIST_EXTRA: seq<nat> := [0,0,0,0,1,1,2,2,3,3,4,4,5,5,6,6,7,7,8,8,9,9,10,10,11,11,12,12,13,13]

  /** The order in which a dynamic header stores the code lengths of the
      code-length code. */
  const ZIGZAG: seq<nat> := [16,17,18,0,8,7,9,6,10,5,11,4,12,3,13,2,14,1,15]

  function Repeat<T>(v: T, n: nat): (r: seq<T>)
    ensures |r| == n && forall i :: 0 <= i < n ==> r[i] == v
  {
    seq(n, i => v)
  }

  function FixedLit(): (r: seq<nat>)
    ensures |r| == LIT_CODES
  {
    Repeat(8, 144) + Repeat(9, 112) + Repeat(7, 24) + Repeat(8, 8)
  }

  function FixedDist(): (r: seq<nat>)
    ensures |r| == DIST_CODES
  {
    Repeat(5, DIST_CODES)
  }

  function Zig(k: nat): (r: nat)
    requires k < 19
    ensures r < 19
  {
    ZIGZAG[k]
  }

  /** The 19 lengths of the code-length code from the stored ones. */
  function Unzigzag(got: seq<nat>): (r: seq<nat>)
    requires |got| <= 19
    ensures |r| == 19
  {
    if got == [] then Repeat(0, 19)
    else
      var n := |got| - 1;
      Unzigzag(got[..n])[Zig(n) := got[n]]
  }

  /** Where the inflater stands; every way in which it can be suspended is one of these. */
  datatype Phase =
    | ZHeader0
    | ZHeader1(z0: nat)
    | BlockHeader
    | RawHeader(h: seq<nat>)
    | RawBytes(n: nat)
    | RawPut(n: nat, b: byte)
    | Sizes(s: seq<nat>)
    | ClLens(hlit: nat, hdist: nat, hclen: nat, got: seq<nat>)
    | Lens(hlit: nat, hdist: nat, cl: seq<nat>, got: seq<nat>)
    | LensRep(hlit: nat, hdist: nat, cl: seq<nat>, got: seq<nat>, sym: nat)
    | Symbols(lit: seq<nat>, dist: seq<nat>)
    | Emit(lit: seq<nat>, dist: seq<nat>, b: byte)
    | LenExtra(lit: seq<nat>, dist: seq<nat>, base: nat, extra: nat)
    | DistSym(lit: seq<nat>, dist: seq<nat>, len: nat)
    | DistExtra(lit: seq<nat>, dist: seq<nat>, len: nat, base: nat, extra: nat)
    | Copy(lit: seq<nat>, dist: seq<nat>, len: nat, d: nat)
    | Trailer(k: nat, z: nat)
    | Done(z: nat)

  /** The buffer an inflater writes to. Two of its checks depend on it, so what is
      refused can depend on it too; what a valid stream gives does not. */
  datatype Room = Plain | Wrapping | Either

  datatype Config = Config(ph: Phase, zlib: bool, fin: bool, bits: seq<bool>, out: seq<byte>, room: Room)

  // ------------------------------------------------------------ single steps

  ghost function Align(bits: seq<bool>): (r: seq<bool>)
    ensures |r| <= |bits| && |r| % 8 == 0
  {
    bits[|bits| % 8..]
  }

  /** After the last symbol of a block. */
  ghost function EndBlock(c: Config): Config
  {
    if !c.fin then c.(ph := BlockHeader)
    else if c.zlib then c.(ph := Trailer(0, 0), bits := Align(c.bits))
    else c.(ph := Done(0))
  }

  /** Consume `n` bits. */
  ghost function Drop(c: Config, n: nat): Config
    requires n <= |c.bits|
  {
    c.(bits := c.bits[n..])
  }

  ghost function ZStep(c: Config): Option<Config>
    requires c.ph.ZHeader0? || c.ph.ZHeader1? || c.ph.Trailer?
  {
    if c.ph.Trailer? && c.ph.k >= 4 then Some(c.(ph := Done(c.ph.z)))
    else if |c.bits| < 8 then None
    else
      var v := Nat(c.bits[..8]);
      match c.ph
      case ZHeader0 => Some(Drop(c, 8).(ph := ZHeader1(v)))
      case ZHeader1(z0) =>
        if (z0 * 256 + v) % 31 != 0 || (v / 32) % 2 == 1 || z0 % 16 != 8 || z0 / 16 > 7 then None
        else Some(Drop(c, 8).(ph := BlockHeader))
      case Trailer(k, z) => Some(Drop(c, 8).(ph := Trailer(k + 1, z * 256 + v)))
  }

  ghost function BlockStep(c: Config): Option<Config>
    requires c.ph.BlockHeader?
  {
    if |c.bits| < 3 then None
    else
      var v := Nat(c.bits[..3]);
      var c1 := Drop(c, 3).(fin := v % 2 == 1);
      if v / 2 == 0 then Some(c1.(ph := RawHeader([]), bits := Align(c1.bits)))
      else if v / 2 == 1 then Some(c1.(ph := Symbols(FixedLit(), FixedDist())))
      else if v / 2 == 2 then Some(c1.(ph := Sizes([])))
      else None
  }

  ghost function Byte(bits: seq<bool>): (b: byte)
    requires |bits| == 8
  {
    Pow2Small();
    Nat(bits)
  }

  ghost function RawStep(c: Config): Option<Config>
    requires c.ph.RawHeader? || c.ph.RawBytes? || c.ph.RawPut?
  {
    match c.ph
    case RawHeader(h) =>
      if |h| == 4 then
        if h[0] + 256 * h[1] + h[2] + 256 * h[3] == 0xFFFF then Some(c.(ph := RawBytes(h[0] + 256 * h[1])))
        else None
      else if |h| > 4 || |c.bits| < 8 then None
      else Some(Drop(c, 8).(ph := RawHeader(h + [Nat(c.bits[..8])])))
    case RawBytes(n) =>
      if n == 0 then Some(EndBlock(c))
      else if |c.bits| < 8 then None
      else Some(Drop(c, 8).(ph := RawBytes(n - 1), out := c.out + [Byte(c.bits[..8])]))
    case RawPut(n, b) =>
      if n == 0 then None else Some(c.(ph := RawBytes(n - 1), out := c.out + [b]))
  }

  const SIZE_BITS: seq<nat> := [5, 5, 4]
  const SIZE_MIN: seq<nat> := [257, 1, 4]
  const REP_BITS: seq<nat> := [2, 3, 7]
  const REP_MIN: seq<nat> := [3, 3, 11]

  ghost function SizesStep(c: Config): Option<Config>
    requires c.ph.Sizes?
  {
    var s := c.ph.s;
    if |s| == 3 then Some(c.(ph := ClLens(s[0], s[1], s[2], [])))
    else if |s| > 3 || |c.bits| < SIZE_BITS[|s|] then None
    else
      var k := SIZE_BITS[|s|];
      Some(Drop(c, k).(ph := Sizes(s + [Nat(c.bits[..k]) + SIZE_MIN[|s|]])))
  }

  ghost function ClEnd(c: Config): (r: Option<Config>)
    requires c.ph.ClLens?
    ensures r.Some? ==> r.value.ph.Lens? && r.value == c.(ph := r.value.ph)
  {
    var ClLens(hl, hd, hc, got) := c.ph;
    if |got| <= 19 && ValidCode(Unzigzag(got)) then Some(c.(ph := Lens(hl, hd, Unzigzag(got), []))) else None
  }

  ghost function ClStep(c: Config): Option<Config>
    requires c.ph.ClLens?
  {
    var ClLens(hl, hd, hc, got) := c.ph;
    if |got| == hc then ClEnd(c)
    else if |c.bits| < 3 then None
    else Some(Drop(c, 3).(ph := ClLens(hl, hd, hc, got + [Nat(c.bits[..3])])))
  }

  ghost function LensEnd(c: Config): (r: Option<Config>)
    requires c.ph.Lens? && |c.ph.got| == c.ph.hlit + c.ph.hdist
    ensures r.Some? ==> r.value.ph.Symbols? && r.value == c.(ph := r.value.ph)
  {
    var hl, got := c.ph.hlit, c.ph.got;
    if ValidCode(got[..hl]) && ValidCode(got[hl..]) then Some(c.(ph := Symbols(got[..hl], got[hl..]))) else None
  }

  ghost function LensStep(c: Config): Option<Config>
    requires c.ph.Lens?
  {
    var Lens(hl, hd, cl, got) := c.ph;
    if |got| == hl + hd then LensEnd(c)
    else if |got| > hl + hd then None
    else
      match DecodeSym(cl, c.bits)
      case None => None
      case Some(s) =>
        var c1 := Drop(c, cl[s]);
        if s < 16 then Some(c1.(ph := Lens(hl, hd, cl, got + [s])))
        else if s > 18 || (s == 16 && got == []) then None
        else Some(c1.(ph := LensRep(hl, hd, cl, got, s)))
  }

  ghost function RepStep(c: Config): Option<Config>
    requires c.ph.LensRep?
  {
    var LensRep(hl, hd, cl, got, s) := c.ph;
    if !(16 <= s <= 18) || (s == 16 && got == []) || |c.bits| < REP_BITS[s - 16] then None
    else
      var k := REP_BITS[s - 16];
      var n := Nat(c.bits[..k]) + REP_MIN[s - 16];
      var v := if s == 16 then got[|got| - 1] else 0;
      Some(Drop(c, k).(ph := Lens(hl, hd, cl, got + Repeat(v, n))))
  }

  ghost function SymbolStep(c: Config): Option<Config>
    requires c.ph.Symbols? || c.ph.Emit? || c.ph.LenExtra?
  {
    match c.ph
    case Symbols(lit, dist) =>
      (match DecodeSym(lit, c.bits)
       case None => None
       case Some(s) =>
         var c1 := Drop(c, lit[s]);
         if s < 256 then Some(c1.(out := c.out + [s]))
         else if s == END_OF_BLOCK then Some(EndBlock(c1))
         else if s > 285 then None
         else Some(c1.(ph := LenExtra(lit, dist, LENGTH_BASE[s - 257], LENGTH_EXTRA[s - 257]))))
    case Emit(lit, dist, b) => Some(c.(ph := Symbols(lit, dist), out := c.out + [b]))
    case LenExtra(lit, dist, base, extra) =>
      if |c.bits| < extra then None
      else Some(Drop(c, extra).(ph := DistSym(lit, dist, base + Nat(c.bits[..extra]))))
  }

  ghost function MatchStep(c: Config): Option<Config>
    requires c.ph.DistSym? || c.ph.DistExtra? || c.ph.Copy?
  {
    match c.ph
    case DistSym(lit, dist, len) =>
      (match DecodeSym(dist, c.bits)
       case None => None
       case Some(s) =>
         if s >= 30 then None
         else Some(Drop(c, dist[s]).(ph := DistExtra(lit, dist, len, DIST_BASE[s], DIST_EXTRA[s]))))
    case DistExtra(lit, dist, len, base, extra) =>
      if |c.bits| < extra then None
      else
        var d := base + Nat(c.bits[..extra]);
        if d == 0 || d > |c.out| || d > WINDOW then None
        else Some(Drop(c, extra).(ph := Copy(lit, dist, len, d)))
    case Copy(lit, dist, len, d) =>
      if len == 0 then Some(c.(ph := Symbols(lit, dist)))
      else if d == 0 || d > |c.out| || d > WINDOW then None
      else Some(c.(ph := Copy(lit, dist, len - 1, d), out := c.out + [c.out[|c.out| - d]]))
  }

  ghost function Step(c: Config): Option<Config>
  {
    match c.ph
    case ZHeader0 => ZStep(c)
    case ZHeader1(_) => ZStep(c)
    case Trailer(_, _) => ZStep(c)
    case BlockHeader => BlockStep(c)
    case RawHeader(_) => RawStep(c)
    case RawBytes(_) => RawStep(c)
    case RawPut(_, _) => RawStep(c)
    case Sizes(_) => SizesStep(c)
    case ClLens(_, _, _, _) => ClStep(c)
    case Lens(_, _, _, _) => LensStep(c)
    case LensRep(_, _, _, _, _) => RepStep(c)
    case Symbols(_, _) => SymbolStep(c)
    case Emit(_, _, _) => SymbolStep(c)
    case LenExtra(_, _, _, _) => SymbolStep(c)
    case DistSym(_, _, _) => MatchStep(c)
    case DistExtra(_, _, _, _, _) => MatchStep(c)
    case Copy(_, _, _, _) => MatchStep(c)
    case Done(_) => None
  }

  /** Between two bits the machine only moves down this order. */
  ghost function Rank(ph: Phase): nat
  {
    match ph
    case Done(_) => 0
    case Trailer(_, _) => 1
    case BlockHeader => 2
    case ZHeader1(_) => 3
    case ZHeader0 => 4
    case Symbols(_, _) => 3
    case RawBytes(_) => 3
    case DistSym(_, _, _) => 3
    case RawPut(_, _) => 4
    case Emit(_, _, _) => 4
    case LenExtra(_, _, _, _) => 4
    case Lens(_, _, _, _) => 4
    case LensRep(_, _, _, _, _) => 5
    case RawHeader(_) => 5
    case ClLens(_, _, _, _) => 5
    case Sizes(_) => 6
    case Copy(_, _, len, _) => 4 + len
    case DistExtra(_, _, len, _, _) => 5 + len
  }

  ghost predicate Descends(c: Config, c1: Config)
  {
    && (|c1.bits| < |c.bits| || (|c1.bits| == |c.bits| && Rank(c1.ph) < Rank(c.ph)))
    && c.out <= c1.out && c1.zlib == c.zlib && c1.room == c.room
  }

  lemma {:induction false} ZDescends(c: Config, c1: Config)
    requires c.ph.ZHeader0? || c.ph.ZHeader1? || c.ph.Trailer?
    requires ZStep(c) == Some(c1)
    ensures Descends(c, c1)
  {
  }

  lemma {:induction false} BlockDescends(c: Config, c1: Config)
    requires c.ph.BlockHeader? && BlockStep(c) == Some(c1)
    ensures Descends(c, c1)
  {
  }

  lemma {:induction false} RawDescends(c: Config, c1: Config)
    requires c.ph.RawHeader? || c.ph.RawBytes? || c.ph.RawPut?
    requires RawStep(c) == Some(c1)
    ensures Descends(c, c1)
  {
  }

  lemma {:induction false} SizesDescends(c: Config, c1: Config)
    requires c.ph.Sizes? && SizesStep(c) == Some(c1)
    ensures Descends(c, c1)
  {
    assert |c.ph.s| < 3 ==> SIZE_BITS[|c.ph.s|] >= 4;
  }

  lemma {:induction false} ClDescends(c: Config, c1: Config)
    requires c.ph.ClLens? && ClStep(c) == Some(c1)
    ensures Descends(c, c1)
  {
    hide ClEnd;
  }

  lemma {:induction false} LensDescends(c: Config, c1: Config)
    requires c.ph.Lens? && LensStep(c) == Some(c1)
    ensures Descends(c, c1)
  {
    hide LensEnd, ValidCode, Complete;
  }

  lemma {:induction false} RepDescends(c: Config, c1: Config)
    requires c.ph.LensRep? && RepStep(c) == Some(c1)
    ensures Descends(c, c1)
  {
  }

  lemma {:induction false} SymbolDescends(c: Config, c1: Config)
    requires c.ph.Symbols? || c.ph.Emit? || c.ph.LenExtra?
    requires SymbolStep(c) == Some(c1)
    ensures Descends(c, c1)
  {
  }

  lemma {:induction false} MatchDescends(c: Config, c1: Config)
    requires c.ph.DistSym? || c.ph.DistExtra? || c.ph.Copy?
    requires MatchStep(c) == Some(c1)
    ensures Descends(c, c1)
  {
  }

  lemma {:induction false} StepDescends(c: Config, c1: Config)
    requires Step(c) == Some(c1)
    ensures Descends(c, c1)
  {
    hide ZStep, BlockStep, RawStep, SizesStep, ClStep, LensStep, RepStep, SymbolStep, MatchStep, Descends;
    match c.ph
    case ZHeader0 => ZDescends(c, c1);
    case ZHeader1(_) => ZDescends(c, c1);
    case Trailer(_, _) => ZDescends(c, c1);
    case BlockHeader => BlockDescends(c, c1);
    case RawHeader(_) => RawDescends(c, c1);
    case RawBytes(_) => RawDescends(c, c1);
    case RawPut(_, _) => RawDescends(c, c1);
    case Sizes(_) => SizesDescends(c, c1);
    case ClLens(_, _, _, _) => ClDescends(c, c1);
    case Lens(_, _, _, _) => LensDescends(c, c1);
    case LensRep(_, _, _, _, _) => RepDescends(c, c1);
    case Symbols(_, _) => SymbolDescends(c, c1);
    case Emit(_, _, _) => SymbolDescends(c, c1);
    case LenExtra(_, _, _, _) => SymbolDescends(c, c1);
    case DistSym(_, _, _) => MatchDescends(c, c1);
    case DistExtra(_, _, _, _, _) => MatchDescends(c, c1);
    case Copy(_, _, _, _) => MatchDescends(c, c1);
    case Done(_) =>
  }

  /** Run to the end: the final configuration, or None for an invalid stream. */
  ghost function Run(c: Config): (r: Option<Config>)
    ensures r.Some? ==> r.value.ph.Done?
    decreases |c.bits|, Rank(c.ph)
  {
    if c.ph.Done? then Some(c)
    else
      match Step(c)
      case None => None
      case Some(c1) => StepDescends(c, c1); Run(c1)
  }

  ghost function Start(zlib: bool, bits: seq<bool>, room: Room): Config
  {
    Config(if zlib then ZHeader0 else BlockHeader, zlib, false, bits, [], room)
  }

  /** What an inflater that starts on `stream` must produce: the bytes and, for
      a zlib stream, the checksum stored behind them. */
  ghost function Inflate(zlib: bool, stream: seq<byte>): Option<Config>
  {
    Run(Start(zlib, BytesBits(stream), Either))
  }

  // ------------------------------------------------------- streams that fail

  predicate BadHeader(z0: nat, z1: nat)
  {
    (z0 * 256 + z1) % 31 != 0 || (z1 / 32) % 2 == 1 || z0 % 16 != 8
  }

  /** The places where the program gives up on a stream. */
  ghost predicate Refuses(c: Config)
  {
    match c.ph
    case ZHeader1(z0) => |c.bits| >= 8 && (BadHeader(z0, Nat(c.bits[..8])) || (c.room.Wrapping? && z0 / 16 > 7))
    case BlockHeader => |c.bits| >= 3 && Nat(c.bits[..3]) / 2 == 3
    case RawHeader(h) => |h| == 4 && h[0] + 256 * h[1] + h[2] + 256 * h[3] != 0xFFFF
    case ClLens(_, _, hc, got) => |got| == hc <= 19 && !ValidCode(Unzigzag(got))
    case Lens(hl, hd, cl, got) =>
      if |got| < hl + hd then got == [] && DecodeSym(cl, c.bits) == Some(16)
      else |got| > hl + hd || !ValidCode(got[..hl]) || !ValidCode(got[hl..])
    case DistExtra(_, _, _, base, extra) =>
      c.room.Plain? && |c.bits| >= extra && base + Nat(c.bits[..extra]) > |c.out|
    case _ => false
  }

  /** How a stream ends: as it should, where the program gives up, or neither: it
      breaks off, or holds what the program does not check. */
  datatype Fate = Completes(end: Config) | Fails(end: Config) | Unclear

  ghost function FateOf(c: Config): (r: Fate)
    ensures r.Completes? ==> r.end.ph.Done?
    decreases |c.bits|, Rank(c.ph)
  {
    if c.ph.Done? then Completes(c)
    else
      match Step(c)
      case None => if Refuses(c) then Fails(c) else Unclear
      case Some(c1) => StepDescends(c, c1); FateOf(c1)
  }

  /** What an inflater makes of any stream. */
  ghost function Ends(zlib: bool, stream: seq<byte>, room: Room): Fate
  {
    FateOf(Start(zlib, BytesBits(stream), room))
  }

  lemma RefusedStops(c: Config)
    requires Refuses(c)
    ensures Step(c) == None && FateOf(c) == Fails(c)
  {
    hide Unzigzag, ValidCode, DecodeSym, Nat;
  }

  lemma DoneStops(c: Config)
    requires c.ph.Done?
    ensures Step(c) == None
  {
  }

  lemma {:induction false} FateStep(c: Config, c1: Config)
    requires Step(c) == Some(c1)
    ensures FateOf(c) == FateOf(c1)
  {
    hide Step;
    if c.ph.Done? { DoneStops(c); }
  }

  lemma {:induction false} FateExtends(c: Config)
    requires !FateOf(c).Unclear?
    ensures c.out <= FateOf(c).end.out && FateOf(c).end.zlib == c.zlib
    decreases |c.bits|, Rank(c.ph)
  {
    if c.ph.Done? || Step(c).None? {
    } else {
      var c1 := Step(c).value;
      StepDescends(c, c1);
      FateExtends(c1);
    }
  }

  ghost function Within(r: Option<Config>, room: Room): Option<Config>
  {
    if r.Some? then Some(r.value.(room := room)) else None
  }

  lemma ZIn(c: Config, room: Room)
    requires c.ph.ZHeader0? || c.ph.ZHeader1? || c.ph.Trailer?
    ensures ZStep(c.(room := room)) == Within(ZStep(c), room)
  {
  }

  lemma BlockIn(c: Config, room: Room)
    requires c.ph.BlockHeader?
    ensures BlockStep(c.(room := room)) == Within(BlockStep(c), room)
  {
  }

  lemma RawIn(c: Config, room: Room)
    requires c.ph.RawHeader? || c.ph.RawBytes? || c.ph.RawPut?
    ensures RawStep(c.(room := room)) == Within(RawStep(c), room)
  {
  }

  lemma SizesIn(c: Config, room: Room)
    requires c.ph.Sizes?
    ensures SizesStep(c.(room := room)) == Within(SizesStep(c), room)
  {
  }

  lemma ClIn(c: Config, room: Room)
    requires c.ph.ClLens?
    ensures ClStep(c.(room := room)) == Within(ClStep(c), room)
  {
  }

  lemma LensIn(c: Config, room: Room)
    requires c.ph.Lens?
    ensures LensStep(c.(room := room)) == Within(LensStep(c), room)
  {
  }

  lemma RepIn(c: Config, room: Room)
    requires c.ph.LensRep?
    ensures RepStep(c.(room := room)) == Within(RepStep(c), room)
  {
  }

  lemma SymbolIn(c: Config, room: Room)
    requires c.ph.Symbols? || c.ph.Emit? || c.ph.LenExtra?
    ensures SymbolStep(c.(room := room)) == Within(SymbolStep(c), room)
  {
  }

  lemma MatchIn(c: Config, room: Room)
    requires c.ph.DistSym? || c.ph.DistExtra? || c.ph.Copy?
    ensures MatchStep(c.(room := room)) == Within(MatchStep(c), room)
  {
  }

  /** The machine itself does not look at the buffer. */
  lemma StepIn(c: Config, room: Room)
    ensures Step(c.(room := room)) == Within(Step(c), room)
  {
    hide ZStep, BlockStep, RawStep, SizesStep, ClStep, LensStep, RepStep, SymbolStep, MatchStep;
    match c.ph
    case ZHeader0 => ZIn(c, room);
    case ZHeader1(_) => ZIn(c, room);
    case Trailer(_, _) => ZIn(c, room);
    case BlockHeader => BlockIn(c, room);
    case RawHeader(_) => RawIn(c, room);
    case RawBytes(_) => RawIn(c, room);
    case RawPut(_, _) => RawIn(c, room);
    case Sizes(_) => SizesIn(c, room);
    case ClLens(_, _, _, _) => ClIn(c, room);
    case Lens(_, _, _, _) => LensIn(c, room);
    case LensRep(_, _, _, _, _) => RepIn(c, room);
    case Symbols(_, _) => SymbolIn(c, room);
    case Emit(_, _, _) => SymbolIn(c, room);
    case LenExtra(_, _, _, _) => SymbolIn(c, room);
    case DistSym(_, _, _) => MatchIn(c, room);
    case DistExtra(_, _, _, _, _) => MatchIn(c, room);
    case Copy(_, _, _, _) => MatchIn(c, room);
    case Done(_) =>
  }

  /** A valid stream ends as it should, with the same result, in any buffer. */
  lemma {:induction false} RunIsFate(c: Config, room: Room)
    requires Run(c).Some?
    ensures FateOf(c.(room := room)) == Completes(Run(c).value.(room := room))
    decreases |c.bits|, Rank(c.ph)
  {
    hide Step, Refuses;
    if c.ph.Done? {
    } else {
      var c1 := Step(c).value;
      StepDescends(c, c1);
      StepIn(c, room);
      RunIsFate(c1, room);
    }
  }

  /** And only valid streams do. */
  lemma {:induction false} FateIsRun(c: Config, room: Room)
    requires FateOf(c.(room := room)).Completes?
    ensures Run(c).Some?
    decreases |c.bits|, Rank(c.ph)
  {
    hide Step, Refuses;
    if c.ph.Done? {
    } else {
      StepIn(c, room);
      var c1 := Step(c).value;
      StepDescends(c, c1);
      FateIsRun(c1, room);
    }
  }

  /** An inflater completes exactly the valid streams. */
  lemma CompletesIfValid(zlib: bool, stream: seq<byte>, room: Room)
    ensures Ends(zlib, stream, room).Completes? <==> Inflate(zlib, stream).Some?
    ensures Inflate(zlib, stream).Some? ==>
      Ends(zlib, stream, room) == Completes(Inflate(zlib, stream).value.(room := room))
  {
    hide Run, FateOf;
    var c := Start(zlib, BytesBits(stream), Either);
    assert c.(room := room) == Start(zlib, BytesBits(stream), room);
    if Run(c).Some? { RunIsFate(c, room); }
    if Ends(zlib, stream, room).Completes? { FateIsRun(c, room); }
  }

  lemma {:induction false} RunStep(c: Config, c1: Config)
    requires Step(c) == Some(c1)
    ensures Run(c) == Run(c1)
  {
    hide Step;
    if c.ph.Done? { DoneStops(c); }
  }

  // One lemma for each kind of step, so that a proof about one phase does not
  // look at the others.

  lemma {:induction false} RunZ(c: Config, c1: Config)
    requires c.ph.ZHeader0? || c.ph.ZHeader1? || c.ph.Trailer?
    requires ZStep(c) == Some(c1)
    ensures Run(c) == Run(c1)
  {
    hide ZStep;
    RunStep(c, c1);
  }

  lemma {:induction false} RunBlock(c: Config, c1: Config)
    requires c.ph.BlockHeader?
    requires BlockStep(c) == Some(c1)
    ensures Run(c) == Run(c1)
  {
    hide BlockStep;
    RunStep(c, c1);
  }

  lemma {:induction false} RunRaw(c: Config, c1: Config)
    requires c.ph.RawHeader? || c.ph.RawBytes? || c.ph.RawPut?
    requires RawStep(c) == Some(c1)
    ensures Run(c) == Run(c1)
  {
    hide RawStep;
    RunStep(c, c1);
  }

  lemma {:induction false} RunSize(c: Config, c1: Config)
    requires c.ph.Sizes?
    requires SizesStep(c) == Some(c1)
    ensures Run(c) == Run(c1)
  {
    hide SizesStep;
    RunStep(c, c1);
  }

  lemma {:induction false} RunCl(c: Config, c1: Config)
    requires c.ph.ClLens?
    requires ClStep(c) == Some(c1)
    ensures Run(c) == Run(c1)
  {
    hide ClStep;
    RunStep(c, c1);
  }

  lemma {:induction false} RunLens(c: Config, c1: Config)
    requires c.ph.Lens?
    requires LensStep(c) == Some(c1)
    ensures Run(c) == Run(c1)
  {
    hide LensStep;
    RunStep(c, c1);
  }

  lemma {:induction false} RunRep(c: Config, c1: Config)
    requires c.ph.LensRep?
    requires RepStep(c) == Some(c1)
    ensures Run(c) == Run(c1)
  {
    hide RepStep;
    RunStep(c, c1);
  }

  lemma {:induction false} RunSymbol(c: Config, c1: Config)
    requires c.ph.Symbols? || c.ph.Emit? || c.ph.LenExtra?
    requires SymbolStep(c) == Some(c1)
    ensures Run(c) == Run(c1)
  {
    hide SymbolStep;
    RunStep(c, c1);
  }

  lemma {:induction false} RunMatch(c: Config, c1: Config)
    requires c.ph.DistSym? || c.ph.DistExtra? || c.ph.Copy?
    requires MatchStep(c) == Some(c1)
    ensures Run(c) == Run(c1)
  {
    hide MatchStep;
    RunStep(c, c1);
  }

  /** Output is only ever appended to. */
  lemma {:induction false} RunExtends(c: Config)
    requires Run(c).Some?
    ensures c.out <= Run(c).value.out && Run(c).value.zlib == c.zlib
    decreases |c.bits|, Rank(c.ph)
  {
    if c.ph.Done? {
    } else {
      var c1 := Step(c).value;
      StepDescends(c, c1);
      RunExtends(c1);
    }
  }
}
