/**
  The inflater: a coroutine that can be suspended wherever it needs input or
  room. `state` is the place where it goes on. The ghost configuration `cfg` is
  the same place in the reference inflater; what it will produce never changes.
 */
module Inflater {
  import opened Bits
  import opened Canonical
  import opened Deflate
  import opened Blocks
  import opened Stream
  import opened DecodeTable
  import opened BitReader
  import opened WindowCopy
  import opened InflateSteps
  import opened Adler
  import HuffmanTable

  /** Where tinfl_decompress can resume, with the numbers of m_state. */
  datatype State =
    | ZlibHeader0   // 0, 1
    | ZlibHeader1   // 2
    | BlockStart    // 3
    | RawLength     // 6, 7
    | RawData       // 51, 9, 38
    | RawRoom       // 52
    | TableSizes    // 11
    | CodeLengths   // 14
    | Lengths       // 16
    | LengthRepeat  // 18
    | Literals      // 23
    | LiteralRoom   // 24
    | LengthBits    // 25
    | Distance      // 26
    | DistanceBits  // 27
    | CopyRoom      // 53
    | Checksum      // 41, 42
    | Ended         // 34
    | Broken        // 10, 17, 21, 35, 36, 37, 39

  datatype Status = Running | NeedsMoreInput | HasMoreOutput | Finished | Mismatch | Failed | BadParam

  const LEN_CODES: nat := 457

  /** The 1 that m_z_adler32 starts with, as it is shifted out. */
  function Seed(k: nat): nat
  {
    if k == 0 then 1 else if k == 1 then 256 else if k == 2 then 65536 else if k == 3 then 0x100_0000 else 0
  }

  /** A byte of the checksum: the initial 1 falls out of the 32 bits at last. */
  lemma ShiftIn(z: nat, k: nat, v: nat)
    requires k < 4 && Seed(k) <= z < 2 * Seed(k) && v < 256
    ensures var z' := (z * 256 + v) % 0x1_0000_0000;
            && z' == (z - Seed(k)) * 256 + v + Seed(k + 1) && (k < 3 ==> z' < 2 * Seed(k + 1))
  {
  }

  lemma TakeChecksum(c: Deflate.Config, k: nat, z: nat)
    requires Good(c) && k <= 4 && Seed(k) <= z && c.ph == Trailer(k, z - Seed(k)) && (k < 4 ==> z < 2 * Seed(k))
    ensures k == 4 ==> Onward(c, c.(ph := Done(z)))
    ensures k < 4 ==> |c.bits| >= 8 && Nat(c.bits[..8]) < 256
    ensures k < 4 ==> var z' := (z * 256 + Nat(c.bits[..8])) % 0x1_0000_0000;
                      && Seed(k + 1) <= z' && (k < 3 ==> z' < 2 * Seed(k + 1))
                      && Onward(c, Drop(c, 8).(ph := Trailer(k + 1, z' - Seed(k + 1))))
  {
    hide FateOf, Onward, Good, Nat;
    MustZ(c);
    Pow2Small();
    if k < 4 { ShiftIn(z, k, Nat(c.bits[..8])); }
  }

  /** The largest window a zlib header can ask for. */
  lemma WindowBits(n: nat)
    ensures Pow2(8 + n) <= WINDOW <==> n <= 7
  {
    Pow2Small();
    if n <= 7 { Pow2Monotone(8 + n, 15); } else { Pow2Monotone(16, 8 + n); }
  }

  /** The three size fields, as far as they are read. */
  ghost predicate SizesOk(s: seq<nat>)
  {
    |s| <= 3 && forall i :: 0 <= i < |s| ==> SIZE_MIN[i] <= s[i] < SIZE_MIN[i] + Pow2(SIZE_BITS[i])
  }

  /** `c` leads to the result of the whole stream, and there is one. */
  ghost predicate OnTrack(c: Deflate.Config, zlib: bool, stream: seq<byte>)
  {
    FateOf(c) == Ends(zlib, stream, c.room) && !Ends(zlib, stream, c.room).Unclear?
  }

  /** The first place inside a block of each kind. */
  ghost function BlockBegun(c: Deflate.Config, kind: nat): Deflate.Config
  {
    if kind == 0 then c.(ph := RawHeader([]), bits := Align(c.bits))
    else if kind == 1 then c.(ph := Symbols(FixedLit(), FixedDist()))
    else c.(ph := Sizes([]))
  }

  lemma TakeBlock(c: Deflate.Config)
    requires Good(c) && c.ph.BlockHeader?
    ensures |c.bits| >= 3 && Nat(c.bits[..3]) < 8
    ensures var v := Nat(c.bits[..3]);
            if v / 2 == 3 then Refuses(c) else Onward(c, BlockBegun(Drop(c, 3).(fin := v % 2 == 1), v / 2))
  {
    hide FateOf, Onward, Good, Nat, Align, FixedLit, FixedDist;
    Pow2Small();
    if !Refuses(c) { MustBlock(c); }
  }

  /** Three tables and a list of lengths that share no array. */
  ghost predicate AllApart(t0: Table, t1: Table, t2: Table, lenCodes: array<nat>)
  {
    && lenCodes.Length == LEN_CODES
    && t0 != t1 && t0 != t2 && t1 != t2
    && t0.Shape() && t1.Shape() && t2.Shape()
    && t0.size != t1.size && t0.size != t2.size && t1.size != t2.size
    && lenCodes != t0.size && lenCodes != t1.size && lenCodes != t2.size
    && t0.look !in {t1.look, t1.tree, t2.look, t2.tree} && t0.tree !in {t1.look, t1.tree, t2.look, t2.tree}
    && t1.look !in {t2.look, t2.tree} && t1.tree !in {t2.look, t2.tree}
  }

  lemma EmptyWindow(b: seq<byte>)
    ensures Shows(b, 0, 0, []) && Roomy(false, 0, 0, [])
  {
  }

  /** The beginning of a stream. */
  lemma Announced(zlib: bool, stream: seq<byte>, room: Room)
    requires !Ends(zlib, stream, room).Unclear?
    ensures var c := Start(zlib, BytesBits(stream), room);
            && OnTrack(c, zlib, stream) && c.ph == (if zlib then ZHeader0 else BlockHeader)
            && c.zlib == zlib && !c.fin && c.room == room && c.out == [] && c.bits == BytesBits(stream)
  {
    hide FateOf;
  }

  /** (n & (n - 1)) == 0 */
  predicate PowerOfTwo(n: nat)
  {
    n <= 1 || (n % 2 == 0 && PowerOfTwo(n / 2))
  }

  lemma AtTheEnd(c: Deflate.Config, zlib: bool, stream: seq<byte>)
    requires OnTrack(c, zlib, stream) && c.ph.Done?
    ensures Ends(zlib, stream, c.room) == Completes(c)
  {
    hide Ends;
  }

  lemma AtTheBreak(c: Deflate.Config, zlib: bool, stream: seq<byte>)
    requires OnTrack(c, zlib, stream) && Refuses(c)
    ensures Ends(zlib, stream, c.room) == Fails(c)
  {
    hide Ends, FateOf;
    Refused(c);
  }

  lemma FirstSum(out: seq<byte>)
    ensures IsAdler(1) && Adler32(1, out) < 0x1_0000_0000
  {
    AdlerConcat(1, out, []);
  }

  lemma OnwardLess(c: Deflate.Config, d: Deflate.Config)
    requires Onward(c, d)
    ensures |d.bits| < |c.bits| || (|d.bits| == |c.bits| && Rank(d.ph) < Rank(c.ph))
  {
    hide FateOf, Rank;
  }

  lemma Appended(before: seq<byte>, b: seq<byte>, next: nat, mid: nat, cur: nat, out0: seq<byte>, out1: seq<byte>)
    requires next <= mid <= cur <= |b| && out0 == before + b[next..mid] && out0 <= out1 && b[mid..cur] == out1[|out0|..]
    ensures out1 == before + b[next..cur]
  {
    assert b[next..cur] == b[next..mid] + b[mid..cur];
    assert out1 == out0 + out1[|out0|..];
  }

  lemma ModShift(i: int, n: int, k: int)
    requires n > 0
    ensures (i + n * k) % n == i % n
  {
    var q, m := i / n, i % n;
    var q', m' := (i + n * k) / n, (i + n * k) % n;
    assert i == n * q + m && i + n * k == n * q' + m';
    assert m' - m == (q + k - q') * n;
    MulSign(q + k - q', n);
  }

  lemma SameMod(a: nat, b: nat, d: nat, n: nat)
    requires n > 0 && a % n == b % n
    ensures (a - d) % n == (b - d) % n
  {
    var x, y := a / n, b / n;
    assert a == n * x + a % n && b == n * y + b % n;
    assert a - d == (b - d) + n * (x - y);
    ModShift(b - d, n, x - y);
  }

  lemma NextMod(a: nat, b: nat, n: nat)
    requires n > 0 && a % n == b % n
    ensures (a + 1) % n == (b + 1) % n
  {
    var x, y := a / n, b / n;
    assert a == n * x + a % n && b == n * y + b % n;
    assert a + 1 == (b + 1) + n * (x - y);
    ModShift(b + 1, n, x - y);
  }

  lemma BackInRange(buf: seq<byte>, end: nat, cur: nat, out: seq<byte>, d: nat)
    requires Shows(buf, end, cur, out) && 1 <= d <= |out| && d <= WINDOW
    ensures 0 <= Back(cur, d, end) < end <= |buf| && buf[Back(cur, d, end)] == out[|out| - d]
  {
  }

  lemma StartCopy(buf: seq<byte>, end: nat, wrap: bool, cur: nat, src: nat, out: seq<byte>, d: nat, len: nat)
    requires Shows(buf, end, cur, out) && Roomy(wrap, end, cur, out) && 1 <= d <= |out| && d <= WINDOW
    requires src == Back(cur, d, end) && cur + len <= end && src + len <= end
    ensures Copying(buf, end, wrap, cur, src, out, d, len, CopyOut(out, len, d))
  {
    hide CopyOut, Shows;
  }

  lemma TakeLengthBits(c: Deflate.Config)
    requires Good(c) && c.ph.LenExtra?
    ensures var LenExtra(lit, dist, base, x) := c.ph;
            && x <= |c.bits| && Nat(c.bits[..x]) < Pow2(x)
            && Onward(c, Drop(c, x).(ph := DistSym(lit, dist, base + Nat(c.bits[..x]))))
  {
    hide FateOf, Onward, Good, EndBlock, DecodeSym;
    MustSymbol(c);
  }

  lemma ExtraBound(s: nat)
    requires s < 30
    ensures DIST_EXTRA[s] <= 13
  {
  }

  lemma TakeDistanceSym(c: Deflate.Config) returns (s: nat)
    requires Good(c) && c.ph.DistSym?
    ensures var DistSym(lit, dist, len) := c.ph;
            && s < |dist| && IsCode(dist, s, c.bits) && 0 < dist[s] <= |c.bits| && s < 30 && DIST_EXTRA[s] <= 13
            && Onward(c, Drop(c, dist[s]).(ph := DistExtra(lit, dist, len, DIST_BASE[s], DIST_EXTRA[s])))
  {
    hide FateOf, Onward, Good, DecodeSym, IsCode;
    MustMatch(c);
    s := DecodeSym(c.ph.dist, c.bits).value;
    SymbolUsesBits(c.ph.dist, c.bits, s);
    ExtraBound(s);
  }

  lemma TakeDistance(c: Deflate.Config)
    requires Good(c) && c.ph.DistExtra?
    ensures var DistExtra(lit, dist, len, base, x) := c.ph;
            && x <= |c.bits|
            && (var d := base + Nat(c.bits[..x]);
                var c1 := Drop(c, x).(ph := Copy(lit, dist, len, d));
                if Refuses(c) then c.room.Plain? && d > |c.out|
                else && 1 <= d <= |c.out| && d <= WINDOW && Onward(c, c1)
                     && Onward(c, c1.(ph := Symbols(lit, dist), out := CopyOut(c.out, len, d))))
  {
    hide FateOf, Onward, Good, CopyOut;
    if Refuses(c) { return; }
    MustMatch(c);
    var c1 := MatchStep(c).value;
    OnwardGood(c, c1);
    TakeCopy(c1);
    OnwardTrans(c, c1, c1.(ph := Symbols(c.ph.lit, c.ph.dist), out := CopyOut(c.out, c.ph.len, c1.ph.d)));
  }

  lemma TakeCopyByte(c: Deflate.Config)
    requires Good(c) && c.ph.Copy? && c.ph.len > 0
    ensures var Copy(lit, dist, len, d) := c.ph;
            && 1 <= d <= |c.out| && d <= WINDOW
            && (var out := c.out + [c.out[|c.out| - d]];
                && Onward(c, c.(ph := Copy(lit, dist, len - 1, d), out := out))
                && (len == 1 ==> Onward(c, c.(ph := Symbols(lit, dist), out := out))))
  {
    hide FateOf, Onward, Good;
    MustMatch(c);
    var c1 := MatchStep(c).value;
    OnwardGood(c, c1);
    MustMatch(c1);
    if c.ph.len == 1 { OnwardTrans(c, c1, MatchStep(c1).value); }
  }

  /** What follows symbol `s`, which ends a block or begins a match. */
  ghost function Continued(d: Deflate.Config, lit: seq<nat>, dist: seq<nat>, s: nat): Deflate.Config
  {
    if 257 <= s <= 285 then d.(ph := LenExtra(lit, dist, LENGTH_BASE[s - 257], LENGTH_EXTRA[s - 257])) else EndBlock(d)
  }

  lemma TakeSymbol(c: Deflate.Config) returns (s: nat)
    requires Good(c) && c.ph.Symbols?
    ensures s < |c.ph.lit| && IsCode(c.ph.lit, s, c.bits) && 0 < c.ph.lit[s] <= |c.bits| && s <= 285
    ensures var d := Drop(c, c.ph.lit[s]);
            if s < 256 then Onward(c, d.(ph := Emit(c.ph.lit, c.ph.dist, s))) && Onward(c, d.(out := c.out + [s]))
            else Onward(c, Continued(d, c.ph.lit, c.ph.dist, s))
  {
    hide FateOf, Onward, Good, DecodeSym, IsCode, EndBlock;
    s := SymbolAhead(c);
    if s < 256 { TakeLiteral(c, s); } else if s == 256 { TakeEnd(c); } else { TakeLength(c, s); }
  }

  /** A table entry: the symbol in nine bits, maybe its length above. */
  lemma RawSymbol(raw: nat, s: nat)
    requires raw % 512 == s < 512
    ensures raw / 256 % 2 == (if s >= 256 then 1 else 0) && (s < 256 ==> raw % 256 == s)
  {
  }

  lemma LengthTableBounds(s: nat)
    requires 257 <= s <= 285
    ensures LENGTH_EXTRA[s - 257] <= 5 && LENGTH_BASE[s - 257] >= MIN_MATCH
    ensures LENGTH_BASE[s - 257] + Pow2(LENGTH_EXTRA[s - 257]) <= MAX_MATCH + 1
  {
    Pow2Small();
    hide Pow2;
  }

  /** The base of a match length and its number of extra bits. */
  method LengthCode(ghost d: Deflate.Config, ghost lit: seq<nat>, ghost dist: seq<nat>, s: nat) returns (base: nat,
          bits: nat)
    requires 257 <= s <= 285
    ensures bits <= 13 && MIN_MATCH <= base && base + Pow2(bits) <= MAX_MATCH + 1
    ensures Continued(d, lit, dist, s) == d.(ph := LenExtra(lit, dist, base, bits))
  {
    hide Pow2, EndBlock;
    LengthTableBounds(s);
    base, bits := LENGTH_BASE[s - 257], LENGTH_EXTRA[s - 257];
  }

  lemma ContinuedEnd(d: Deflate.Config, lit: seq<nat>, dist: seq<nat>)
    ensures Continued(d, lit, dist, 256) == EndBlock(d)
  {
  }

  lemma TakeLengthSym(c: Deflate.Config) returns (s: nat)
    requires Good(c) && c.ph.Lens? && |c.ph.got| < c.ph.hlit + c.ph.hdist
    ensures var Lens(hl, hd, cl, got) := c.ph;
            && s < |cl| && IsCode(cl, s, c.bits) && 0 < cl[s] <= |c.bits| && s <= 18
            && (if s == 16 && got == [] then Refuses(c)
                else Onward(c, Drop(c, cl[s]).(ph := if s < 16 then Lens(hl, hd, cl, got + [s])
                  else LensRep(hl, hd, cl, got, s))))
  {
    hide FateOf, Onward, Good, DecodeSym, IsCode, LensEnd;
    if !Refuses(c) { MustLens(c); }
    s := DecodeSym(c.ph.cl, c.bits).value;
    SymbolUsesBits(c.ph.cl, c.bits, s);
  }

  lemma TakeLengths(c: Deflate.Config)
    requires Good(c) && c.ph.Lens? && |c.ph.got| >= c.ph.hlit + c.ph.hdist
    ensures var Lens(hl, hd, cl, got) := c.ph;
            if |got| == hl + hd && ValidCode(got[..hl]) && ValidCode(got[hl..])
            then Onward(c, c.(ph := Symbols(got[..hl], got[hl..])))
            else Refuses(c)
  {
    hide FateOf, Onward, Good, DecodeSym, ValidCode;
    if !Refuses(c) { MustLens(c); }
  }

  lemma TakeRepeat(c: Deflate.Config)
    requires Good(c) && c.ph.LensRep? && 16 <= c.ph.sym <= 18
    ensures var LensRep(hl, hd, cl, got, s) := c.ph;
            var k := REP_BITS[s - 16];
            && k <= |c.bits| && k <= 7 && (s == 16 ==> got != [])
            && (var n := Nat(c.bits[..k]) + REP_MIN[s - 16];
                && n <= 138
                && Onward(c, Drop(c, k).(ph := Lens(hl, hd, cl,
                  got + Repeat(if s == 16 then got[|got| - 1] else 0, n)))))
  {
    hide FateOf, Onward, Good, DecodeSym, LensEnd, Nat;
    MustRep(c);
    Pow2Small();
  }

  lemma TakeSize(c: Deflate.Config)
    requires Good(c) && c.ph.Sizes? && SizesOk(c.ph.s)
    ensures var s := c.ph.s;
            if |s| == 3 then Onward(c, c.(ph := ClLens(s[0], s[1], s[2], [])))
            else
              var k := SIZE_BITS[|s|];
              && k <= |c.bits| && k <= 5
              && SizesOk(s + [Nat(c.bits[..k]) + SIZE_MIN[|s|]])
              && Onward(c, Drop(c, k).(ph := Sizes(s + [Nat(c.bits[..k]) + SIZE_MIN[|s|]])))
  {
    hide FateOf, Onward, Good, Nat, Pow2;
    MustSizes(c);
  }

  lemma TakeRawLength(c: Deflate.Config)
    requires Good(c) && c.ph.RawHeader? && |c.ph.h| >= 4
    ensures |c.ph.h| == 4
    ensures var h := c.ph.h;
            var n := h[0] + 256 * h[1];
            if n + h[2] + 256 * h[3] != 0xFFFF then Refuses(c) else Onward(c, c.(ph := RawBytes(n)))
  {
    hide FateOf, Onward, Good;
    if !Refuses(c) { MustRaw(c); }
  }

  lemma TakeCodeLength(c: Deflate.Config)
    requires Good(c) && c.ph.ClLens? && |c.ph.got| <= c.ph.hclen <= 19
    ensures var ClLens(hl, hd, hc, got) := c.ph;
            if |got| == hc then
              if ValidCode(Unzigzag(got)) then Onward(c, c.(ph := Lens(hl, hd, Unzigzag(got), []))) else Refuses(c)
            else
              && |c.bits| >= 3 && Nat(c.bits[..3]) <= 7
              && Onward(c, Drop(c, 3).(ph := ClLens(hl, hd, hc, got + [Nat(c.bits[..3])])))
  {
    hide FateOf, Onward, Good, Nat, Unzigzag, ValidCode;
    if !Refuses(c) { MustCl(c); }
    Pow2Small();
  }

  lemma OneMoreByte(b: seq<byte>, from: nat, cur: nat, out: seq<byte>, n: nat, before: seq<byte>)
    requires from < cur <= |b| && before <= out && |out| == |before| + 1 && n <= |before|
    requires b[from..cur - 1] == before[n..] && b[cur - 1] == out[|before|]
    ensures b[from..cur] == out[n..]
  {
    assert b[from..cur] == b[from..cur - 1] + [b[cur - 1]];
    assert out == before + [out[|before|]];
  }

  lemma GoodRun(c: Deflate.Config)
    requires Good(c)
    ensures !FateOf(c).Unclear?
  {
  }

  /** The next eight bits are there, and are a byte. */
  lemma ByteValue(c: Deflate.Config)
    requires Good(c) && c.ph.RawBytes? && c.ph.n > 0
    ensures |c.bits| >= 8 && Nat(c.bits[..8]) < 256
  {
    hide FateOf, Nat, EndBlock;
    MustRaw(c);
    Pow2Small();
  }

  lemma SizesLen(s: seq<nat>)
    requires SizesOk(s)
    ensures |s| <= 3
  {
  }

  lemma NoSizes()
    ensures SizesOk([])
  {
  }

  lemma FixedFilled(a: seq<nat>, b: seq<nat>)
    requires |a| == MAX_SYMS && |b| == MAX_SYMS
    requires forall i :: 0 <= i < 144 ==> a[i] == 8
    requires forall i :: 144 <= i < 256 ==> a[i] == 9
    requires forall i :: 256 <= i < 280 ==> a[i] == 7
    requires forall i :: 280 <= i < 288 ==> a[i] == 8
    requires forall i :: 0 <= i < 32 ==> b[i] == 5
    ensures a[..288] == FixedLit() && b[..32] == FixedDist()
    ensures ValidCode(a[..288]) && ValidCode(b[..32])
    ensures (forall i :: 0 <= i < 288 ==> a[i] <= MAX_LEN) && (forall i :: 0 <= i < 32 ==> b[i] <= MAX_LEN)
  {
    hide ValidCode;
    FixedLitValid();
    FixedDistValid();
    assert a[..288] == FixedLit();
    assert b[..32] == FixedDist();
  }

  class Inflater {
    const zlib: bool
    /** The buffers it will be given. */
    ghost const room: Room
    const r: Reader
    const t0: Table
    const t1: Table
    const t2: Table
    const lenCodes: array<nat>
    /** Matches are copied by words where that is possible. */
    const words: bool
    /** TINFL_FLAG_COMPUTE_ADLER32 */
    const checksum: bool
    var state: State
    var rawHeader: seq<nat>
    var sizes: seq<nat>
    var zhdr0: nat
    var zAdler: nat
    var final: nat
    var counter: nat
    var dist: nat
    var extra: nat
    var checkAdler: nat
    var distFrom: nat
    var buf: array<byte>
    var cur: nat
    var end: nat
    var wrap: bool
    /** Bits still to come, place, and everything produced so far in all calls. */
    ghost var cfg: Deflate.Config

    ghost predicate Apart()
    {
      AllApart(t0, t1, t2, lenCodes)
    }

    ghost predicate Window()
      reads this`buf, this`cur, this`end, this`wrap, this`cfg, buf
    {
      Shows(buf[..], end, cur, cfg.out) && Roomy(wrap, end, cur, cfg.out)
    }

    ghost predicate TablesBuilt()
      reads t0, t1, t0.look, t0.tree, t1.look, t1.tree
    {
      t0.Decodes(t0.lens) && t1.Decodes(t1.lens)
    }

    ghost predicate ReadingCodeLengths()
      reads this`counter, this`sizes, this`cfg, t2.size
    {
      && |sizes| == 3 && SizesOk(sizes) && cfg.ph.ClLens?
      && cfg.ph == ClLens(sizes[0], sizes[1], sizes[2], cfg.ph.got)
      && counter == |cfg.ph.got| <= sizes[2] && sizes[2] <= 19 && t2.size.Length == MAX_SYMS
        && t2.size[..19] == Unzigzag(cfg.ph.got)
      && forall i :: 0 <= i < 19 ==> t2.size[i] <= 7
    }

    ghost predicate ReadingLengths()
      reads this`counter, this`sizes, t2, t2.look, t2.tree, lenCodes
    {
      && |sizes| == 3 && lenCodes.Length == LEN_CODES
      && t2.Decodes(t2.lens) && |t2.lens| == 19 && SizesOk(sizes)
      && counter <= LEN_CODES && forall i :: 0 <= i < counter ==> lenCodes[i] <= MAX_LEN
    }

    /** Inside a block. */
    ghost predicate InBlock()
      reads this`cfg, this`final, this`zAdler
    {
      cfg.fin == (final % 2 == 1) && zAdler == 1
    }

    /** The fields that matter at the present place say what `cfg` says. */
    ghost predicate At()
      reads this`state, this`rawHeader, this`sizes, this`zhdr0, this`zAdler, this`final, this`counter, this`dist,
        this`extra, this`cfg
      reads r`numBits, t0, t1, t2, t0.look, t0.tree, t1.look, t1.tree, t2.look, t2.tree, t2.size, lenCodes
    {
      match state
      case ZlibHeader0 => cfg.ph == ZHeader0 && !cfg.fin && r.numBits == 0 && zAdler == 1
      case ZlibHeader1 => cfg.ph == ZHeader1(zhdr0) && !cfg.fin && r.numBits == 0 && zAdler == 1
      case BlockStart => cfg.ph == BlockHeader && !cfg.fin && zAdler == 1
      case RawLength => cfg.ph == RawHeader(rawHeader) && InBlock()
      case RawData => cfg.ph == RawBytes(counter) && InBlock()
      case RawRoom => counter > 0 && dist < 256 && cfg.ph == RawPut(counter, dist) && InBlock()
      case TableSizes => cfg.ph == Sizes(sizes) && InBlock() && SizesOk(sizes)
      case CodeLengths => InBlock() && ReadingCodeLengths()
      case Lengths => InBlock() && ReadingLengths() && cfg.ph == Lens(sizes[0], sizes[1], t2.lens, lenCodes[..counter])
      case LengthRepeat => InBlock() && ReadingLengths() && 16 <= dist <= 18 && extra == REP_BITS[dist - 16]
        && counter < sizes[0] + sizes[1]
                           && cfg.ph == LensRep(sizes[0], sizes[1], t2.lens, lenCodes[..counter], dist)
      case Literals => InBlock() && TablesBuilt() && cfg.ph == Symbols(t0.lens, t1.lens)
      case LiteralRoom => InBlock() && TablesBuilt() && counter < 256 && cfg.ph == Emit(t0.lens, t1.lens, counter)
      case LengthBits => InBlock() && TablesBuilt() && extra <= 13 && MIN_MATCH <= counter
        && counter + Pow2(extra) <= MAX_MATCH + 1
                         && cfg.ph == LenExtra(t0.lens, t1.lens, counter, extra)
      case Distance => InBlock() && TablesBuilt() && MIN_MATCH <= counter <= MAX_MATCH
        && cfg.ph == DistSym(t0.lens, t1.lens, counter)
      case DistanceBits => InBlock() && TablesBuilt() && extra <= 13 && MIN_MATCH <= counter <= MAX_MATCH
                           && cfg.ph == DistExtra(t0.lens, t1.lens, counter, dist, extra)
      case CopyRoom => InBlock() && TablesBuilt() && cfg.ph == Copy(t0.lens, t1.lens, counter + 1, dist)
      case Checksum => zlib && cfg.fin && counter <= 4 && Seed(counter) <= zAdler
        && (counter < 4 ==> zAdler < 2 * Seed(counter))
                       && cfg.ph == Trailer(counter, zAdler - Seed(counter))
      case Ended => cfg.ph == Done(if zlib then zAdler else 0)
      case Broken => Refuses(cfg)
    }

    /** The cursor that a suspended copy counts on, up to whole buffers. */
    ghost predicate AlignedTo(at: nat)
      reads this`wrap, this`end, this`distFrom
    {
      if wrap then end > 0 && distFrom % end == at % end else distFrom == at
    }

    ghost predicate Aligned()
      reads this`wrap, this`end, this`cur, this`distFrom
    {
      AlignedTo(cur)
    }

    /** The present buffer, if there is one, is of the kind that was announced. */
    ghost predicate RoomFits()
      reads this`wrap, this`cfg, r`src
    {
      cfg.room == room && (room.Plain? ==> !wrap) && (room.Wrapping? ==> wrap || r.src == [])
    }

    ghost predicate Valid()
      reads this, r, t0, t1, t2, t0.look, t0.tree, t1.look, t1.tree, t2.look, t2.tree, t2.size, lenCodes, buf
    {
      && Apart() && r.Valid() && Window() && RoomFits() && At() && (state.CopyRoom? ==> Aligned())
      && (state.Broken? || cfg.bits == r.Bits()) && cfg.zlib == zlib && OnTrack(cfg, zlib, r.stream)
    }

    lemma AtStart()
      requires if zlib then state.ZlibHeader0? else state.BlockStart?
      ensures At() <==>
        zAdler == 1 && !cfg.fin && (if zlib then cfg.ph == ZHeader0 && r.numBits == 0 else cfg.ph == BlockHeader)
    {
      hide TablesBuilt, Aligned, ReadingLengths, ReadingCodeLengths, InBlock, SizesOk, Seed, Pow2;
    }

    /** tinfl_init, over an unread stream and empty tables. */
    constructor (zlib: bool, ghost room: Room, r: Reader, t0: Table, t1: Table, t2: Table, lenCodes: array<nat>,
            words: bool, checksum: bool)
      requires r.Valid() && r.numBits == 0 && r.src == [] && r.Bits() == BytesBits(r.stream)
        && !Ends(zlib, r.stream, room).Unclear?
      requires AllApart(t0, t1, t2, lenCodes)
      ensures Valid() && this.zlib == zlib && this.room == room && this.r == r && cfg.out == [] && checkAdler == 1
        && !state.CopyRoom? && !state.Broken?
      ensures this.t0 == t0 && this.t1 == t1 && this.t2 == t2 && this.lenCodes == lenCodes && this.checksum == checksum
    {
      hide Valid, BytesBits, FateOf, Ends, r.Valid, At, AllApart, Shows, Roomy, OnTrack, Start;
      this.zlib, this.room, this.words, this.checksum := zlib, room, words, checksum;
      this.r, this.t0, this.t1, this.t2, this.lenCodes := r, t0, t1, t2, lenCodes;
      rawHeader, sizes := [], [];
      state := if zlib then ZlibHeader0 else BlockStart;
      zhdr0, zAdler, final, counter, dist, extra, checkAdler, distFrom := 0, 1, 0, 0, 0, 0, 1, 0;
      buf := new byte[0];
      cur, end, wrap := 0, 0, false;
      cfg := Start(zlib, BytesBits(r.stream), room);
      new;
      AtStart();
      EmptyWindow(buf[..]);
      Announced(zlib, r.stream, room);
      Settle(cfg);
    }

    lemma AtHeader()
      requires state.ZlibHeader0? || state.ZlibHeader1?
      ensures At() <==>
        cfg.ph == (if state.ZlibHeader0? then ZHeader0 else ZHeader1(zhdr0)) && !cfg.fin && r.numBits == 0
          && zAdler == 1
    {
      hide TablesBuilt, Aligned, ReadingLengths, ReadingCodeLengths, InBlock, SizesOk, Seed, Pow2;
    }

    lemma AtBlockStart()
      requires state.BlockStart?
      ensures At() <==> cfg.ph == BlockHeader && !cfg.fin && zAdler == 1
    {
      hide TablesBuilt, Aligned, ReadingLengths, ReadingCodeLengths, InBlock, SizesOk, Seed, Pow2;
    }

    lemma AtChecksum()
      requires state.Checksum?
      ensures At() <==>
        zlib && cfg.fin && counter <= 4 && Seed(counter) <= zAdler && (counter < 4 ==> zAdler < 2 * Seed(counter))
                        && cfg.ph == Trailer(counter, zAdler - Seed(counter))
    {
      hide TablesBuilt, Aligned, ReadingLengths, ReadingCodeLengths, InBlock, SizesOk, Seed, Pow2;
    }

    lemma AtEnd()
      requires state.Ended?
      ensures At() <==> cfg.ph == Done(if zlib then zAdler else 0)
    {
      hide TablesBuilt, Aligned, ReadingLengths, ReadingCodeLengths, InBlock, SizesOk, Seed, Pow2;
    }

    // ------------------------------------------------------------ suspending

    /** What a step leaves alone, and where its output goes. */
    twostate predicate Moved()
      reads this, r, buf
    {
      && r.src == old(r.src) && r.more == old(r.more) && r.pos == old(r.pos) && r.at >= old(r.at)
      && (old(state).Broken? ==> state.Broken?)
      && buf == old(buf) && end == old(end) && wrap == old(wrap) && checkAdler == old(checkAdler)
      && old(cfg.out) <= cfg.out && cur == old(cur) + |cfg.out| - |old(cfg.out)|
      && (forall i :: 0 <= i < buf.Length && !(old(cur) <= i < cur) ==> buf[i] == old(buf[i]))
    }

    /** A suspension is never premature: the input is used up and the stream goes
        on, or the room is used up and there is more output. */
    ghost predicate Stopped(st: Status)
      reads this, r
    {
      match st
      case Running => true
      case NeedsMoreInput => !state.Broken? && r.more && r.at == |r.src| && r.pos + r.at < |r.stream|
      case HasMoreOutput => !state.Broken? && cur == end && !FateOf(cfg).Unclear? && |cfg.out| < |FateOf(cfg).end.out|
      case Finished => state.Ended?
      case Failed => state.Broken?
      case _ => false
    }

    /** What a step starts from. */
    lemma Enter()
      requires Valid()
      ensures Apart() && r.Valid() && Window() && RoomFits() && At() && (state.CopyRoom? ==> Aligned())
      ensures (state.Broken? || cfg.bits == r.Bits()) && cfg.zlib == zlib
      ensures OnTrack(cfg, zlib, r.stream) && Good(cfg)
    {
      hide FateOf, Ends;
    }

    /** What it must leave behind. */
    lemma Settle(c: Deflate.Config)
      requires Apart() && r.Valid() && Window() && RoomFits() && At() && (state.CopyRoom? ==> Aligned())
      requires (state.Broken? || cfg.bits == r.Bits()) && cfg.zlib == zlib
      requires OnTrack(c, zlib, r.stream) && (cfg == c || Onward(c, cfg))
      ensures Valid()
    {
      hide FateOf, Ends, Rank, At;
    }

    /** Between two places: `c` was the last one, and the window shows `out`. */
    ghost predicate Between(c: Deflate.Config, out: seq<byte>)
      reads this, r, buf
    {
      && Apart() && r.Valid() && Shows(buf[..], end, cur, out) && Roomy(wrap, end, cur, out) && RoomFits()
      && OnTrack(c, zlib, r.stream) && cfg.zlib == zlib
    }

    /** Inside a block, with nothing put out yet. */
    ghost predicate Midway(c: Deflate.Config)
      reads this, r, buf
    {
      Between(c, cfg.out) && InBlock()
    }

    /** A place behind the bits that were taken from the reader. */
    ghost predicate Behind(d: Deflate.Config)
      requires r.Valid()
      reads this`cfg, r
    {
      d.bits == r.Bits() && d.zlib == cfg.zlib && d.room == cfg.room && d.fin == cfg.fin
    }

    lemma AtBroken()
      requires state.Broken?
      ensures At() <==> Refuses(cfg)
    {
      hide TablesBuilt, ReadingLengths, ReadingCodeLengths, InBlock, SizesOk, Seed, Pow2, Refuses;
    }

    /** The stream is refused at `c`. */
    method Break(ghost c: Deflate.Config) returns (st: Status)
      requires Between(c, cfg.out) && Refuses(c)
      requires c.zlib == zlib && c.out == cfg.out && c.room == cfg.room
      modifies this`state, this`cfg
      ensures Valid() && st == Failed && state.Broken? && cfg == c
    {
      hide FateOf, OnTrack, r.Valid, Shows, Roomy, Apart, Refuses, At, Valid;
      state, st := Broken, Failed;
      cfg := c;
      AtBroken();
      Settle(c);
    }

    method StepHeader0() returns (st: Status)
      requires Valid() && state.ZlibHeader0?
      modifies this`state, this`zhdr0, this`cfg, r`at
      ensures Valid() && Moved() && Stopped(st)
      ensures st == Running ==> Onward(old(cfg), cfg)
    {
      hide FateOf, OnTrack, BytesBits, ToBits, Nat, Pow2, r.Valid, Shows, Apart, Onward, Good, At, Valid, Aligned;
      Enter();
      AtHeader();
      ghost var c := cfg;
      MustZ(c);
      var ok, v := r.GetByte();
      st := NeedsMoreInput;
      if ok {
        zhdr0, state, st := v, ZlibHeader1, Running;
        cfg := Drop(c, 8).(ph := ZHeader1(v));
      }
      AtHeader();
      Settle(c);
    }

    /** The test of the zlib header, and what the machine says. */
    lemma HeaderTest(c: Deflate.Config, z0: nat)
      requires Good(c) && c.ph == ZHeader1(z0) && RoomFits() && cfg == c && Roomy(wrap, end, cur, c.out)
      requires wrap || !room.Wrapping?
      ensures |c.bits| >= 8
      ensures var v := Nat(c.bits[..8]);
              var bad := BadHeader(z0, v) || (wrap && (Pow2(8 + z0 / 16) > 32768 || end < Pow2(8 + z0 / 16)));
              if bad then Refuses(c) else Onward(c, Drop(c, 8).(ph := BlockHeader))
    {
      hide FateOf, Onward, Good, Nat, Pow2;
      WindowBits(z0 / 16);
      if !Refuses(c) { MustZ(c); }
    }

    lemma InputSeen()
      requires r.Valid() && r.at > 0
      ensures r.src != []
    {
    }

    lemma HeaderBits(c: Deflate.Config)
      requires Good(c) && c.ph.ZHeader1?
      ensures |c.bits| >= 8
    {
      hide FateOf, Onward, Good, Nat;
      if !Refuses(c) { MustZ(c); }
    }

    method StepHeader1() returns (st: Status)
      requires Valid() && state.ZlibHeader1?
      modifies this`state, this`cfg, r`at
      ensures Valid() && Moved() && Stopped(st)
      ensures st == Running ==> Onward(old(cfg), cfg)
    {
      hide FateOf, OnTrack, BytesBits, ToBits, Nat, Pow2, r.Valid, Shows, Roomy, Apart, Onward, Good, At, Valid,
           Aligned, Refuses;
      Enter();
      AtHeader();
      ghost var c := cfg;
      HeaderBits(c);
      var ok, v := r.GetByte();
      if !ok {
        AtHeader();
        Settle(c);
        return NeedsMoreInput;
      }
      InputSeen();
      HeaderTest(c, zhdr0);
      var bad := BadHeader(zhdr0, v);
      if wrap { bad := bad || Pow2(8 + zhdr0 / 16) > 32768 || end < Pow2(8 + zhdr0 / 16); }
      if bad {
        st := Break(c);
        return;
      }
      state, st := BlockStart, Running;
      cfg := Drop(c, 8).(ph := BlockHeader);
      AtBlockStart();
      Settle(c);
    }

    method TakeSumByte(ghost c: Deflate.Config, v: nat)
      requires Between(c, c.out) && c == cfg && state.Checksum? && zlib && c.fin && counter < 4 && |c.bits| >= 8
        && Drop(c, 8).bits == r.Bits()
      requires var z := (zAdler * 256 + v) % 0x1_0000_0000;
               && Seed(counter + 1) <= z && (counter < 3 ==> z < 2 * Seed(counter + 1))
               && Onward(c, Drop(c, 8).(ph := Trailer(counter + 1, z - Seed(counter + 1))))
      modifies this`counter, this`zAdler, this`cfg
      ensures Valid() && Onward(c, cfg) && cfg.out == old(cfg.out)
    {
      hide OnTrack, BytesBits, ToBits, r.Valid, Shows, Roomy, Apart, Onward, At, Valid, Seed, Aligned;
      counter, zAdler := counter + 1, (zAdler * 256 + v) % 0x1_0000_0000;
      cfg := Drop(c, 8).(ph := Trailer(counter, zAdler - Seed(counter)));
      AtChecksum();
      Settle(c);
    }

    method EndStream(ghost c: Deflate.Config)
      requires Between(c, c.out) && c == cfg && c.bits == r.Bits() && zlib && Onward(c, c.(ph := Done(zAdler)))
      modifies this`state, this`cfg
      ensures Valid() && Onward(c, cfg) && cfg.out == old(cfg.out)
    {
      hide OnTrack, BytesBits, ToBits, r.Valid, Shows, Roomy, Apart, Onward, At, Valid, Aligned;
      state := Ended;
      cfg := c.(ph := Done(zAdler));
      AtEnd();
      Settle(c);
    }

    method StepChecksum() returns (st: Status)
      requires Valid() && state.Checksum?
      modifies this`state, this`counter, this`zAdler, this`cfg, r`bitBuf, r`numBits, r`at
      ensures Valid() && Moved() && Stopped(st)
      ensures st == Running ==> Onward(old(cfg), cfg)
    {
      hide FateOf, OnTrack, BytesBits, ToBits, Nat, Pow2, r.Valid, Shows, Apart, Onward, Good, At, Valid, Seed,
           Aligned, Reader.Bits;
      Enter();
      AtChecksum();
      ghost var c := cfg;
      TakeChecksum(c, counter, zAdler);
      st := Running;
      if counter < 4 {
        var ok, v := r.NextByte();
        if ok {
          TakeSumByte(c, v);
        } else {
          st := NeedsMoreInput;
          AtChecksum();
          Settle(c);
        }
      } else {
        EndStream(c);
      }
    }

    // ------------------------------------------------------- blocks, raw data

    /** Both tables, the one for distances first. */
    method BuildTables(n0: nat, n1: nat) returns (ok: bool)
      requires Apart() && n0 <= MAX_SYMS && n1 <= MAX_SYMS
      requires forall i :: 0 <= i < n0 ==> t0.size[i] <= MAX_LEN
      requires forall i :: 0 <= i < n1 ==> t1.size[i] <= MAX_LEN
      modifies t0, t0.look, t0.tree, t1, t1.look, t1.tree
      ensures ok <==> ValidCode(t0.size[..n0]) && ValidCode(t1.size[..n1])
      ensures ok ==> TablesBuilt() && t0.lens == t0.size[..n0] && t1.lens == t1.size[..n1]
    {
      hide ValidCode, Holding;
      ok := t1.Build(n1);
      if ok { ok := t0.Build(n0); }
    }

    /** The tables of a static block. */
    method FixedTables()
      requires Apart()
      modifies t0, t0.size, t0.look, t0.tree, t1, t1.size, t1.look, t1.tree
      ensures TablesBuilt() && t0.lens == FixedLit() && t1.lens == FixedDist()
    {
      hide t0.Decodes, ValidCode, FixedLit, FixedDist;
      HuffmanTable.FillSizes(t0.size, 0, 144, 8);
      HuffmanTable.FillSizes(t0.size, 144, 256, 9);
      HuffmanTable.FillSizes(t0.size, 256, 280, 7);
      HuffmanTable.FillSizes(t0.size, 280, 288, 8);
      HuffmanTable.FillSizes(t1.size, 0, 32, 5);
      FixedFilled(t0.size[..], t1.size[..]);
      var ok := BuildTables(288, 32);
    }

    lemma AtRawLength()
      requires state.RawLength?
      ensures At() <==> cfg.ph == RawHeader(rawHeader) && InBlock()
    {
      hide TablesBuilt, Aligned, ReadingLengths, ReadingCodeLengths, InBlock, SizesOk, Seed, Pow2;
    }

    lemma AtRawData()
      requires state.RawData?
      ensures At() <==> cfg.ph == RawBytes(counter) && InBlock()
    {
      hide TablesBuilt, Aligned, ReadingLengths, ReadingCodeLengths, InBlock, SizesOk, Seed, Pow2;
    }

    lemma AtRawRoom()
      requires state.RawRoom?
      ensures At() <==> counter > 0 && dist < 256 && cfg.ph == RawPut(counter, dist) && InBlock()
    {
      hide TablesBuilt, Aligned, ReadingLengths, ReadingCodeLengths, InBlock, SizesOk, Seed, Pow2;
    }

    lemma AtTableSizes()
      requires state.TableSizes?
      ensures At() <==> cfg.ph == Sizes(sizes) && InBlock() && SizesOk(sizes)
    {
      hide TablesBuilt, Aligned, ReadingLengths, ReadingCodeLengths, InBlock, SizesOk, Seed, Pow2;
    }

    lemma AtLiterals()
      requires state.Literals?
      ensures At() <==> InBlock() && TablesBuilt() && cfg.ph == Symbols(t0.lens, t1.lens)
    {
      hide TablesBuilt, Aligned, ReadingLengths, ReadingCodeLengths, InBlock, SizesOk, Seed, Pow2;
    }

    /** A symbol comes next. */
    method BeginSymbols(ghost c: Deflate.Config, ghost d: Deflate.Config)
      requires Between(c, d.out) && InBlock() && TablesBuilt() && Behind(d) && d.ph == Symbols(t0.lens, t1.lens)
        && Onward(c, d)
      modifies this`state, this`cfg
      ensures Valid() && state == Literals && cfg == d
    {
      hide OnTrack, BytesBits, ToBits, Pow2, r.Valid, Shows, Roomy, Apart, Onward, At, Valid, TablesBuilt, Aligned;
      state := Literals;
      cfg := d;
      AtLiterals();
      Settle(c);
    }

    method BeginStatic(ghost c: Deflate.Config, ghost d: Deflate.Config)
      requires Midway(c) && Behind(d) && d.out == cfg.out && Onward(c, BlockBegun(d, 1))
      modifies this`state, this`cfg, t0, t0.size, t0.look, t0.tree, t1, t1.size, t1.look, t1.tree
      ensures Valid() && Onward(c, cfg) && cfg.out == old(cfg.out)
    {
      hide OnTrack, BytesBits, ToBits, r.Valid, Shows, Apart, Onward, At, Valid, TablesBuilt, FixedLit, FixedDist,
           Aligned;
      FixedTables();
      BeginSymbols(c, BlockBegun(d, 1));
    }

    method BeginStored(ghost c: Deflate.Config, ghost d: Deflate.Config)
      requires Midway(c) && Behind(d) && d.out == cfg.out && Onward(c, BlockBegun(d, 0))
      modifies this`state, this`counter, this`rawHeader, this`cfg, r`bitBuf, r`numBits
      ensures Valid() && Onward(c, cfg) && cfg.out == old(cfg.out)
    {
      hide OnTrack, BytesBits, ToBits, r.Valid, Shows, Apart, Onward, At, Valid, Align, Aligned;
      r.SkipToByte();
      counter, rawHeader, state := 0, [], RawLength;
      cfg := BlockBegun(d, 0);
      AtRawLength();
      Settle(c);
    }

    method BeginDynamic(ghost c: Deflate.Config, ghost d: Deflate.Config)
      requires Midway(c) && Behind(d) && d.out == cfg.out && Onward(c, BlockBegun(d, 2))
      modifies this`state, this`counter, this`sizes, this`cfg
      ensures Valid() && Onward(c, cfg) && cfg.out == old(cfg.out)
    {
      hide OnTrack, BytesBits, ToBits, r.Valid, Shows, Apart, Onward, At, Valid, SizesOk, Aligned;
      counter, sizes, state := 0, [], TableSizes;
      cfg := BlockBegun(d, 2);
      NoSizes();
      AtTableSizes();
      Settle(c);
    }

    /** The three bits of a block header. */
    method BeginBlock(ghost c: Deflate.Config, v: nat) returns (st: Status)
      requires Between(c, c.out) && c == cfg && zAdler == 1 && v < 8 && |c.bits| >= 3 && Drop(c, 3).bits == r.Bits()
      requires if v / 2 == 3 then Refuses(c) else Onward(c, BlockBegun(Drop(c, 3).(fin := v % 2 == 1), v / 2))
      modifies this`state, this`final, this`counter, this`rawHeader, this`sizes, this`cfg, r`bitBuf, r`numBits
      modifies t0, t0.size, t0.look, t0.tree, t1, t1.size, t1.look, t1.tree
      ensures Valid() && Stopped(st) && cfg.out == old(cfg.out) && (st == Running ==> Onward(c, cfg))
    {
      hide OnTrack, BytesBits, ToBits, r.Valid, Shows, Roomy, Apart, Onward, At, Valid, BlockBegun, Aligned, Refuses;
      if v / 2 == 3 {
        st := Break(c);
        return;
      }
      st := Running;
      final := v;
      ghost var d := Drop(c, 3).(fin := v % 2 == 1);
      cfg := d;
      if v / 2 == 0 {
        BeginStored(c, d);
      } else if v / 2 == 1 {
        BeginStatic(c, d);
      } else {
        BeginDynamic(c, d);
      }
    }

    /** The three bits in front of a block. */
    method StepBlockStart() returns (st: Status)
      requires Valid() && state.BlockStart?
      modifies this`state, this`final, this`counter, this`rawHeader, this`sizes, this`cfg, r`bitBuf, r`numBits, r`at
      modifies t0, t0.size, t0.look, t0.tree, t1, t1.size, t1.look, t1.tree
      ensures Valid() && Moved() && Stopped(st)
      ensures st == Running ==> Onward(old(cfg), cfg)
    {
      hide FateOf, OnTrack, BytesBits, ToBits, Nat, Pow2, r.Valid, Shows, Apart, Onward, Good, At, Valid, Aligned;
      Enter();
      AtBlockStart();
      ghost var c := cfg;
      TakeBlock(c);
      var ok, v := r.Get(3);
      if !ok {
        AtBlockStart();
        Settle(c);
        return NeedsMoreInput;
      }
      st := BeginBlock(c, v);
    }

    /** After the last symbol of a block; `d` is the configuration in front of
        that decision. */
    method EndOfBlock(ghost c: Deflate.Config, ghost d: Deflate.Config)
      requires Midway(c) && Behind(d) && d.out == cfg.out && Onward(c, EndBlock(d))
      modifies this`state, this`counter, this`cfg, r`bitBuf, r`numBits
      ensures Valid() && Onward(c, cfg) && cfg.out == d.out
    {
      hide FateOf, OnTrack, BytesBits, ToBits, Pow2, r.Valid, Shows, Apart, Onward, At, Valid, Align, Aligned;
      if final % 2 == 0 {
        state := BlockStart;
        cfg := EndBlock(d);
        AtBlockStart();
      } else if zlib {
        r.SkipToByte();
        counter, state := 0, Checksum;
        cfg := EndBlock(d);
        AtChecksum();
      } else {
        state := Ended;
        cfg := EndBlock(d);
        AtEnd();
      }
      Settle(c);
    }

    method BeginRawData(ghost c: Deflate.Config)
      requires Midway(c) && c == cfg && c.bits == r.Bits() && Onward(c, c.(ph := RawBytes(counter)))
      modifies this`state, this`cfg
      ensures Valid() && Onward(c, cfg) && cfg.out == old(cfg.out)
    {
      hide OnTrack, BytesBits, ToBits, r.Valid, Shows, Roomy, Apart, Onward, At, Valid, Aligned;
      state := RawData;
      cfg := c.(ph := RawBytes(counter));
      AtRawData();
      Settle(c);
    }

    /** Length and complement must agree. */
    method CheckRawLength(ghost c: Deflate.Config) returns (st: Status)
      requires Midway(c) && Good(c) && c == cfg
      requires cfg.bits == r.Bits() && c.ph == RawHeader(rawHeader) && |rawHeader| >= 4
      modifies this`state, this`counter, this`cfg
      ensures Valid() && Stopped(st) && cfg.out == old(cfg.out) && (st == Running ==> Onward(c, cfg))
    {
      hide FateOf, OnTrack, r.Valid, Shows, Roomy, Apart, Onward, Good, At, Valid, Aligned;
      TakeRawLength(c);
      counter := rawHeader[0] + 256 * rawHeader[1];
      if counter + rawHeader[2] + 256 * rawHeader[3] != 0xFFFF {
        st := Break(c);
        return;
      }
      BeginRawData(c);
      st := Running;
    }

    method TakeRawByte(ghost c: Deflate.Config, v: nat)
      requires Midway(c) && c == cfg && state.RawLength? && |c.bits| >= 8 && Drop(c, 8).bits == r.Bits()
      requires Onward(c, Drop(c, 8).(ph := RawHeader(rawHeader + [v])))
      modifies this`rawHeader, this`cfg
      ensures Valid() && Onward(c, cfg) && cfg.out == old(cfg.out)
    {
      hide OnTrack, BytesBits, ToBits, r.Valid, Shows, Roomy, Apart, Onward, At, Valid, Aligned;
      rawHeader := rawHeader + [v];
      cfg := Drop(c, 8).(ph := RawHeader(rawHeader));
      AtRawLength();
      Settle(c);
    }

    /** The length of a stored block, byte by byte, and its complement. */
    method StepRawLength() returns (st: Status)
      requires Valid() && state.RawLength?
      modifies this`state, this`counter, this`rawHeader, this`cfg, r`bitBuf, r`numBits, r`at
      ensures Valid() && Moved() && Stopped(st)
      ensures st == Running ==> Onward(old(cfg), cfg)
    {
      hide FateOf, OnTrack, BytesBits, ToBits, Nat, Pow2, r.Valid, Shows, Apart, Onward, Good, At, Valid, Aligned;
      Enter();
      AtRawLength();
      ghost var c := cfg;
      if |rawHeader| < 4 {
        MustRaw(c);
        st := Running;
        var ok, v := r.NextByte();
        if ok {
          TakeRawByte(c, v);
        } else {
          st := NeedsMoreInput;
          AtRawLength();
          Settle(c);
        }
      } else {
        st := CheckRawLength(c);
      }
    }

    lemma WindowBounds()
      requires Window()
      ensures cur <= end <= buf.Length
    {
    }

    /** *pOut_buf_cur++ = b */
    method PutByte(b: byte)
      requires Window() && cur < end
      modifies this`cur, buf
      ensures cur == old(cur) + 1 <= buf.Length && buf[old(cur)] == b
      ensures Shows(buf[..], end, cur, cfg.out + [b]) && Roomy(wrap, end, cur, cfg.out + [b])
      ensures forall i :: 0 <= i < buf.Length && i != old(cur) ==> buf[i] == old(buf[i])
    {
      hide Shows, Roomy;
      WindowBounds();
      PutOne(buf[..], end, cur, cfg.out, wrap, b);
      buf[cur] := b;
      assert buf[..] == old(buf[..])[old(cur) := b];
      cur := cur + 1;
    }

    /** A byte of a stored block was put out. */
    method RawTaken(ghost c: Deflate.Config, ghost d: Deflate.Config)
      requires Between(c, d.out) && InBlock() && Behind(d) && counter > 0 && d.ph == RawBytes(counter - 1)
        && Onward(c, d)
      modifies this`state, this`counter, this`cfg
      ensures Valid() && cfg == d && state == RawData && counter == old(counter) - 1
    {
      hide OnTrack, BytesBits, ToBits, r.Valid, Shows, Roomy, Apart, Onward, At, Valid, Aligned;
      counter, state := counter - 1, RawData;
      cfg := d;
      AtRawData();
      Settle(c);
    }

    /** A byte of a stored block goes to the buffer. */
    method PutRaw(ghost c: Deflate.Config, ghost d: Deflate.Config, b: byte)
      requires Midway(c) && cur < end && Behind(d) && counter > 0 && d.ph == RawBytes(counter - 1)
        && d.out == cfg.out + [b] && Onward(c, d)
      modifies this`state, this`counter, this`cur, this`cfg, buf
      ensures Valid() && cfg == d && state == RawData && counter == old(counter) - 1
      ensures cur == old(cur) + 1 <= buf.Length && buf[old(cur)] == b
      ensures forall i :: 0 <= i < buf.Length && i != old(cur) ==> buf[i] == old(buf[i])
    {
      hide OnTrack, BytesBits, ToBits, r.Valid, Shows, Roomy, Apart, Onward, At, Valid, Aligned;
      PutByte(b);
      RawTaken(c, d);
    }

    /** A byte of a stored block that came out of the bit register. */
    method StepRawRoom() returns (st: Status)
      requires Valid() && state.RawRoom?
      modifies this`state, this`counter, this`cur, this`cfg, buf
      ensures Valid() && Moved() && Stopped(st)
      ensures st == Running ==> Onward(old(cfg), cfg)
      ensures |cfg.out| <= |old(cfg.out)| + MAX_MATCH
    {
      hide FateOf, OnTrack, BytesBits, ToBits, Nat, Pow2, r.Valid, Shows, Roomy, Apart, Onward, At, Valid, Aligned;
      Enter();
      AtRawRoom();
      WindowBounds();
      ghost var c := cfg;
      if cur >= end {
        MoreOutput(c);
        return HasMoreOutput;
      }
      MustRaw(c);
      PutRaw(c, RawStep(c).value, dist);
      st := Running;
    }

    /** One byte of a stored block, from the input. */
    method CopyRaw()
      requires Valid() && state.RawData? && counter > 0 && r.numBits == 0 && cur < end && r.at < |r.src|
      modifies this`state, this`counter, this`cur, this`cfg, buf, r`at
      ensures Valid() && Moved() && state == RawData && counter == old(counter) - 1 && r.at == old(r.at) + 1
        && cur == old(cur) + 1
      ensures Onward(old(cfg), cfg)
      ensures |cfg.out| == |old(cfg.out)| + 1 && buf[old(cur)] == cfg.out[|old(cfg.out)|]
    {
      hide FateOf, OnTrack, BytesBits, ToBits, Nat, Pow2, r.Valid, Shows, Roomy, Apart, Onward, Good, At, Valid,
           Aligned;
      Enter();
      AtRawData();
      WindowBounds();
      ghost var c := cfg;
      MustRaw(c);
      var ok, v := r.GetByte();
      PutRaw(c, RawStep(c).value, v);
    }

    method HoldByte(ghost c: Deflate.Config, v: nat)
      requires Midway(c) && c == cfg && counter > 0 && v < 256 && |c.bits| >= 8 && Drop(c, 8).bits == r.Bits()
      requires Onward(c, Drop(c, 8).(ph := RawPut(counter, v)))
      modifies this`state, this`dist, this`cfg
      ensures Valid() && Onward(c, cfg) && cfg.out == old(cfg.out)
    {
      hide OnTrack, BytesBits, ToBits, r.Valid, Shows, Roomy, Apart, Onward, At, Valid, Aligned;
      dist, state := v, RawRoom;
      cfg := Drop(c, 8).(ph := RawPut(counter, v));
      AtRawRoom();
      Settle(c);
    }

    method RegisterByte() returns (st: Status)
      requires Valid() && state.RawData? && counter > 0
      modifies this`state, this`dist, this`cfg, r`bitBuf, r`numBits, r`at
      ensures Valid() && Moved() && Stopped(st)
      ensures st == Running ==> Onward(old(cfg), cfg)
    {
      hide FateOf, OnTrack, BytesBits, ToBits, Nat, Pow2, r.Valid, Shows, Roomy, Apart, Onward, Good, At, Valid,
           Aligned;
      Enter();
      AtRawData();
      ghost var c := cfg;
      ByteValue(c);
      var ok, v := r.Get(8);
      if ok {
        TakeRaw(c, counter, v);
        HoldByte(c, v);
        st := Running;
      } else {
        AtRawData();
        Settle(c);
        st := NeedsMoreInput;
      }
    }

    lemma BufferEnd()
      requires Valid()
      ensures cur <= end <= buf.Length
    {
      hide FateOf, Shows, At, OnTrack;
      WindowBounds();
    }

    /** Another byte of the run that began at `start`, behind `c`. */
    method CopyOneMore(ghost c: Deflate.Config, ghost start: nat)
      requires Valid() && state.RawData? && counter > 0 && r.numBits == 0 && cur < end && r.at < |r.src|
      requires Onward(c, cfg) && start < cur <= buf.Length && |c.out| <= |cfg.out|
        && buf[start..cur] == cfg.out[|c.out|..]
      modifies this`state, this`counter, this`cur, this`cfg, buf, r`at
      ensures Valid() && Moved() && state == RawData && counter == old(counter) - 1 && r.at == old(r.at) + 1
        && cur == old(cur) + 1
      ensures Onward(c, cfg) && cur <= buf.Length && |cfg.out| == |old(cfg.out)| + 1
        && buf[start..cur] == cfg.out[|c.out|..]
    {
      hide Onward, Valid;
      ghost var d, written := cfg, buf[start..cur];
      CopyRaw();
      OnwardTrans(c, d, cfg);
      BufferEnd();
      assert buf[start..cur - 1] == written;
      OneMoreByte(buf[..], start, cur, cfg.out, |c.out|, d.out);
    }

    /** memcpy of as many bytes as there are, are wanted and have room. */
    method CopyRun()
      requires Valid() && state.RawData? && counter > 0 && r.numBits == 0 && cur < end && r.at < |r.src|
      modifies this`state, this`counter, this`cur, this`cfg, buf, r`at
      ensures Valid() && Moved() && Onward(old(cfg), cfg)
      ensures old(cur) <= cur <= buf.Length && |old(cfg.out)| <= |cfg.out|
        && buf[old(cur)..cur] == cfg.out[|old(cfg.out)|..]
    {
      hide Onward, Valid;
      var n := if end - cur < |r.src| - r.at then end - cur else |r.src| - r.at;
      n := if n < counter then n else counter;
      ghost var c := cfg;
      CopyRaw();
      BufferEnd();
      assert buf[old(cur)..cur] == [buf[old(cur)]];
      assert cfg.out[|c.out|..] == [cfg.out[|c.out|]];
      var i := 1;
      while i < n
        invariant 1 <= i <= n && Valid() && state.RawData? && r.numBits == 0
        invariant counter == old(counter) - i && cur == old(cur) + i && r.at == old(r.at) + i
        invariant Onward(c, cfg) && Moved() && cur <= buf.Length
        invariant |cfg.out| == |c.out| + i && buf[old(cur)..cur] == cfg.out[|c.out|..]
      {
        CopyOneMore(c, old(cur));
        i := i + 1;
      }
    }

    /** The bytes of a stored block: first those in the bit register, then as many
        as input and room allow. */
    method StepRawData() returns (st: Status)
      requires Valid() && state.RawData?
      modifies this`state, this`counter, this`dist, this`cur, this`cfg, buf, r`bitBuf, r`numBits, r`at
      ensures Valid() && Moved() && Stopped(st)
      ensures st == Running ==> Onward(old(cfg), cfg)
      ensures old(cur) <= cur <= buf.Length && |old(cfg.out)| <= |cfg.out|
        && buf[old(cur)..cur] == cfg.out[|old(cfg.out)|..]
    {
      hide FateOf, OnTrack, BytesBits, ToBits, Nat, Pow2, r.Valid, Shows, Roomy, Apart, Onward, Good, At, Valid,
           EndBlock, Aligned;
      Enter();
      AtRawData();
      WindowBounds();
      ghost var c := cfg;
      if counter == 0 {
        MustRaw(c);
        EndOfBlock(c, c);
        return Running;
      }
      if r.numBits > 0 {
        st := RegisterByte();
        return;
      }
      if cur >= end {
        MoreOutput(c);
        GoodRun(c);
        return HasMoreOutput;
      }
      MustRaw(c);
      r.Beyond(8);
      if r.at >= |r.src| {
        if r.more { return NeedsMoreInput; }
        assert false;
      }
      CopyRun();
      st := Running;
    }

    // ---------------------------------------------------- the dynamic header

    lemma AtCodeLengths()
      requires state.CodeLengths?
      ensures At() <==> InBlock() && ReadingCodeLengths()
    {
      hide TablesBuilt, Aligned, ReadingLengths, ReadingCodeLengths, InBlock, SizesOk, Seed, Pow2;
    }

    lemma AtLengths()
      requires state.Lengths?
      ensures At() <==>
        InBlock() && ReadingLengths() && cfg.ph == Lens(sizes[0], sizes[1], t2.lens, lenCodes[..counter])
    {
      hide TablesBuilt, Aligned, ReadingLengths, ReadingCodeLengths, InBlock, SizesOk, Seed, Pow2;
    }

    lemma AtLengthRepeat()
      requires state.LengthRepeat?
      ensures At() <==>
        InBlock() && ReadingLengths() && 16 <= dist <= 18 && extra == REP_BITS[dist - 16]
          && counter < sizes[0] + sizes[1]
                        && cfg.ph == LensRep(sizes[0], sizes[1], t2.lens, lenCodes[..counter], dist)
    {
      hide TablesBuilt, Aligned, ReadingLengths, ReadingCodeLengths, InBlock, SizesOk, Seed, Pow2;
    }

    method ClearLengths()
      requires Apart()
      modifies t2.size
      ensures t2.size.Length == MAX_SYMS && forall i :: 0 <= i < MAX_SYMS ==> t2.size[i] == 0
    {
      for i := 0 to MAX_SYMS
        invariant forall k :: 0 <= k < i ==> t2.size[k] == 0
      {
        t2.size[i] := 0;
      }
    }

    lemma NoCodeLengths()
      requires t2.size.Length == MAX_SYMS && (forall i :: 0 <= i < MAX_SYMS ==> t2.size[i] == 0)
      requires |sizes| == 3 && SizesOk(sizes) && counter == 0 && cfg.ph == ClLens(sizes[0], sizes[1], sizes[2], [])
      ensures ReadingCodeLengths()
    {
      assert Pow2(4) == 16;
      assert t2.size[..19] == Unzigzag([]);
    }

    /** All sizes are known: no code lengths yet. */
    method BeginCodeLengths(ghost c: Deflate.Config)
      requires Midway(c) && c == cfg
      requires cfg.bits == r.Bits() && |sizes| == 3 && SizesOk(sizes)
      requires Onward(c, c.(ph := ClLens(sizes[0], sizes[1], sizes[2], [])))
      modifies this`state, this`counter, this`cfg, t2.size
      ensures Valid() && Onward(c, cfg) && cfg.out == old(cfg.out)
    {
      hide OnTrack, BytesBits, ToBits, Pow2, r.Valid, Shows, Roomy, Onward, At, Valid, SizesOk, ReadingCodeLengths,
           Aligned;
      ClearLengths();
      counter, state := 0, CodeLengths;
      cfg := c.(ph := ClLens(sizes[0], sizes[1], sizes[2], []));
      NoCodeLengths();
      AtCodeLengths();
      Settle(c);
    }

    method TakeSizeField(ghost c: Deflate.Config, v: nat)
      requires Midway(c) && c == cfg && state.TableSizes? && |sizes| < 3 && SIZE_BITS[|sizes|] <= |c.bits|
      requires Drop(c, SIZE_BITS[|sizes|]).bits == r.Bits() && SizesOk(sizes + [v + SIZE_MIN[|sizes|]])
      requires Onward(c, Drop(c, SIZE_BITS[|sizes|]).(ph := Sizes(sizes + [v + SIZE_MIN[|sizes|]])))
      modifies this`sizes, this`cfg
      ensures Valid() && Onward(c, cfg) && cfg.out == old(cfg.out)
    {
      hide OnTrack, BytesBits, ToBits, Pow2, r.Valid, Shows, Roomy, Apart, Onward, At, Valid, SizesOk, Aligned;
      cfg := Drop(c, SIZE_BITS[|sizes|]).(ph := Sizes(sizes + [v + SIZE_MIN[|sizes|]]));
      sizes := sizes + [v + SIZE_MIN[|sizes|]];
      AtTableSizes();
      Settle(c);
    }

    /** The three size fields. */
    method StepTableSizes() returns (st: Status)
      requires Valid() && state.TableSizes?
      modifies this`state, this`counter, this`sizes, this`cfg, r`bitBuf, r`numBits, r`at, t2.size
      ensures Valid() && Moved() && Stopped(st)
      ensures st == Running ==> Onward(old(cfg), cfg)
    {
      hide FateOf, OnTrack, BytesBits, ToBits, Nat, Pow2, r.Valid, Shows, Roomy, Apart, Onward, Good, At, Valid,
           SizesOk, ReadingCodeLengths, Aligned;
      Enter();
      AtTableSizes();
      ghost var c := cfg;
      SizesLen(sizes);
      TakeSize(c);
      st := Running;
      if |sizes| < 3 {
        var ok, v := r.Get(SIZE_BITS[|sizes|]);
        if ok {
          TakeSizeField(c, v);
        } else {
          st := NeedsMoreInput;
          AtTableSizes();
          Settle(c);
        }
      } else {
        BeginCodeLengths(c);
      }
    }

    lemma CodeLengthFacts()
      requires ReadingCodeLengths()
      ensures |sizes| == 3 && SizesOk(sizes) && sizes[2] <= 19 && cfg.ph.ClLens?
      ensures cfg.ph == ClLens(sizes[0], sizes[1], sizes[2], cfg.ph.got) && counter == |cfg.ph.got| <= sizes[2]
      ensures t2.size.Length == MAX_SYMS && t2.size[..19] == Unzigzag(cfg.ph.got)
      ensures forall i :: 0 <= i < 19 ==> t2.size[i] <= 7
    {
      hide Unzigzag;
    }

    method StoreLength(v: nat)
      requires t2.size.Length == MAX_SYMS && counter < 19 && v <= 7 && forall i :: 0 <= i < 19 ==> t2.size[i] <= 7
      modifies this`counter, t2.size
      ensures counter == old(counter) + 1 && t2.size[..19] == old(t2.size[..19])[Zig(old(counter)) := v]
      ensures forall i :: 0 <= i < 19 ==> t2.size[i] <= 7
    {
      hide Zig;
      t2.size[Zig(counter)] := v;
      counter := counter + 1;
    }

    lemma CodeLengthStored(got: seq<nat>, v: nat, before: seq<nat>)
      requires |sizes| == 3 && SizesOk(sizes) && sizes[2] <= 19 && counter == |got| + 1 <= sizes[2]
      requires cfg.ph == ClLens(sizes[0], sizes[1], sizes[2], got + [v])
      requires before == Unzigzag(got) && t2.size.Length == MAX_SYMS && t2.size[..19] == before[Zig(|got|) := v]
      requires forall i :: 0 <= i < 19 ==> t2.size[i] <= 7
      ensures ReadingCodeLengths()
    {
      hide Zig;
      assert (got + [v])[..|got|] == got;
    }

    /** The code-length code is known: no lengths yet. */
    method BeginLengths(ghost c: Deflate.Config)
      requires Midway(c) && c == cfg && c.bits == r.Bits() && |sizes| == 3 && SizesOk(sizes) && t2.Decodes(t2.lens)
        && |t2.lens| == 19
      requires Onward(c, c.(ph := Lens(sizes[0], sizes[1], t2.lens, [])))
      modifies this`state, this`counter, this`cfg
      ensures Valid() && Onward(c, cfg) && cfg.out == old(cfg.out)
    {
      hide OnTrack, BytesBits, ToBits, Pow2, r.Valid, Shows, Roomy, Onward, At, Valid, SizesOk, t2.Decodes, Aligned;
      counter, state := 0, Lengths;
      cfg := c.(ph := Lens(sizes[0], sizes[1], t2.lens, []));
      assert lenCodes[..0] == [];
      AtLengths();
      Settle(c);
    }

    /** The code-length code is complete: build its table. */
    method BuildLengthTable(ghost c: Deflate.Config) returns (st: Status)
      requires Midway(c) && c == cfg && cfg.bits == r.Bits() && ReadingCodeLengths()
      requires if ValidCode(t2.size[..19]) then Onward(c, c.(ph := Lens(sizes[0], sizes[1], t2.size[..19], [])))
        else Refuses(c)
      modifies this`state, this`counter, this`sizes, this`cfg, t2, t2.look, t2.tree
      ensures Valid() && Stopped(st) && cfg.out == old(cfg.out) && (st == Running ==> Onward(c, cfg))
    {
      hide OnTrack, BytesBits, ToBits, r.Valid, Shows, Onward, At, Valid, ValidCode, Holding, Unzigzag, SizesOk,
           Aligned, Refuses;
      var ok := t2.Build(19);
      if !ok {
        st := Break(c);
        return;
      }
      BeginLengths(c);
      st := Running;
    }

    method TakeCodeLengthField(ghost c: Deflate.Config, v: nat)
      requires Midway(c) && c == cfg && state.CodeLengths? && ReadingCodeLengths() && counter < sizes[2] && v <= 7
      requires |c.bits| >= 3 && Drop(c, 3).bits == r.Bits()
      requires Onward(c, Drop(c, 3).(ph := ClLens(sizes[0], sizes[1], sizes[2], c.ph.got + [v])))
      modifies this`counter, this`cfg, t2.size
      ensures Valid() && Onward(c, cfg) && cfg.out == old(cfg.out)
    {
      hide OnTrack, BytesBits, ToBits, r.Valid, Shows, Roomy, Onward, At, Valid, ReadingCodeLengths, SizesOk, Zig,
           Unzigzag, Aligned;
      CodeLengthFacts();
      ghost var before := t2.size[..19];
      StoreLength(v);
      cfg := Drop(c, 3).(ph := ClLens(sizes[0], sizes[1], sizes[2], c.ph.got + [v]));
      CodeLengthStored(c.ph.got, v, before);
      AtCodeLengths();
      Settle(c);
    }

    /** The lengths of the code-length code, in their own order. */
    method StepCodeLengths() returns (st: Status)
      requires Valid() && state.CodeLengths?
      modifies this`state, this`counter, this`sizes, this`cfg, r`bitBuf, r`numBits, r`at, t2, t2.size, t2.look, t2.tree
      ensures Valid() && Moved() && Stopped(st)
      ensures st == Running ==> Onward(old(cfg), cfg)
    {
      hide FateOf, OnTrack, BytesBits, ToBits, Nat, Pow2, r.Valid, Shows, Roomy, Apart, Onward, Good, At, Valid,
           ReadingCodeLengths, Zig, Unzigzag, Aligned;
      Enter();
      AtCodeLengths();
      CodeLengthFacts();
      ghost var c := cfg;
      TakeCodeLength(c);
      st := Running;
      if counter < sizes[2] {
        var ok, v := r.Get(3);
        if ok {
          TakeCodeLengthField(c, v);
        } else {
          st := NeedsMoreInput;
          AtCodeLengths();
          Settle(c);
        }
      } else {
        st := BuildLengthTable(c);
      }
    }

    lemma LengthFacts()
      requires ReadingLengths()
      ensures |sizes| == 3 && lenCodes.Length == LEN_CODES && sizes[0] <= 288 && 1 <= sizes[1] <= 32
      ensures counter <= LEN_CODES && t2.Decodes(t2.lens) && |t2.lens| == 19
      ensures forall i :: 0 <= i < counter ==> lenCodes[i] <= MAX_LEN
    {
      hide t2.Decodes;
      Pow2Small();
    }

    /** More lengths, or all of them. */
    lemma LengthsGrow(before: seq<nat>, more: seq<nat>)
      requires |sizes| == 3 && SizesOk(sizes) && lenCodes.Length == LEN_CODES && t2.Decodes(t2.lens) && |t2.lens| == 19
      requires counter == |before| + |more| <= LEN_CODES
      requires lenCodes[..counter] == before + more
      requires (forall i :: 0 <= i < |before| ==> before[i] <= MAX_LEN)
        && (forall i :: 0 <= i < |more| ==> more[i] <= MAX_LEN)
      ensures ReadingLengths()
    {
      hide t2.Decodes;
      Pow2Small();
      forall i | 0 <= i < counter ensures lenCodes[i] <= MAX_LEN {
        assert lenCodes[i] == (before + more)[i];
      }
    }

    method HoldRepeat(ghost c: Deflate.Config, ghost d: Deflate.Config)
      requires Midway(c) && Behind(d) && d.out == cfg.out && ReadingLengths() && counter < sizes[0] + sizes[1]
        && 16 <= dist <= 18
      requires d.ph == LensRep(sizes[0], sizes[1], t2.lens, lenCodes[..counter], dist) && Onward(c, d)
      modifies this`state, this`extra, this`cfg
      ensures Valid() && Onward(c, cfg) && cfg.out == old(cfg.out)
    {
      hide OnTrack, BytesBits, ToBits, Pow2, r.Valid, Shows, Roomy, Apart, Onward, At, Valid, ReadingLengths, SizesOk,
           t2.Decodes, Aligned;
      extra, state := REP_BITS[dist - 16], LengthRepeat;
      cfg := d;
      AtLengthRepeat();
      Settle(c);
    }

    lemma SizesStay()
      requires ReadingLengths()
      ensures |sizes| == 3 && SizesOk(sizes)
    {
    }

    /** A run needs its extra bits; there must be something to repeat. */
    method BeginRepeat(ghost c: Deflate.Config, ghost d: Deflate.Config) returns (st: Status)
      requires Midway(c) && Behind(d) && d.out == cfg.out && c.out == cfg.out && c.zlib == cfg.zlib
        && c.room == cfg.room && ReadingLengths() && counter < sizes[0] + sizes[1]
      requires 16 <= dist <= 18
      requires if dist == 16 && counter == 0 then Refuses(c)
               else d.ph == LensRep(sizes[0], sizes[1], t2.lens, lenCodes[..counter], dist) && Onward(c, d)
      modifies this`state, this`extra, this`cfg
      ensures Valid() && Stopped(st) && cfg.out == old(cfg.out) && (st == Running ==> Onward(c, cfg))
    {
      hide OnTrack, BytesBits, ToBits, Pow2, r.Valid, Shows, Roomy, Apart, Onward, At, Valid, ReadingLengths, SizesOk,
           t2.Decodes, Aligned, Refuses;
      SizesStay();
      if dist == 16 && counter == 0 {
        st := Break(c);
        return;
      }
      HoldRepeat(c, d);
      st := Running;
    }

    /** `more` lengths were stored behind the first `counter`. */
    method MoreLengths(ghost c: Deflate.Config, ghost d: Deflate.Config, ghost before: seq<nat>, ghost more: seq<nat>,
            n: nat)
      requires Midway(c) && Behind(d) && d.out == cfg.out && |sizes| == 3 && SizesOk(sizes) && t2.Decodes(t2.lens)
        && |t2.lens| == 19
      requires |before| == counter && |more| == n && counter + n <= LEN_CODES
        && lenCodes[..counter + n] == before + more
      requires (forall i :: 0 <= i < |before| ==> before[i] <= MAX_LEN)
        && (forall i :: 0 <= i < |more| ==> more[i] <= MAX_LEN)
      requires d.ph == Lens(sizes[0], sizes[1], t2.lens, before + more) && Onward(c, d)
      modifies this`state, this`counter, this`cfg
      ensures Valid() && Onward(c, cfg) && cfg.out == old(cfg.out)
    {
      hide OnTrack, BytesBits, ToBits, Pow2, r.Valid, Shows, Roomy, Onward, At, Valid, ReadingLengths, SizesOk,
           t2.Decodes, Aligned;
      counter, state := counter + n, Lengths;
      cfg := d;
      LengthsGrow(before, more);
      AtLengths();
      Settle(c);
    }

    method AddLength(ghost c: Deflate.Config, ghost d: Deflate.Config, sym: nat)
      requires Midway(c) && Behind(d) && d.out == cfg.out && ReadingLengths() && counter < sizes[0] + sizes[1]
        && sym < 16
      requires d.ph == Lens(sizes[0], sizes[1], t2.lens, lenCodes[..counter] + [sym]) && Onward(c, d)
      modifies this`state, this`counter, this`cfg, lenCodes
      ensures Valid() && Onward(c, cfg) && cfg.out == old(cfg.out)
    {
      hide OnTrack, BytesBits, ToBits, Pow2, r.Valid, Shows, Roomy, Onward, At, Valid, ReadingLengths, SizesOk,
           t2.Decodes, Aligned;
      LengthFacts();
      SizesStay();
      ghost var before := lenCodes[..counter];
      lenCodes[counter] := sym;
      assert lenCodes[..counter + 1] == before + [sym];
      MoreLengths(c, d, before, [sym], 1);
    }

    /** A symbol of the packed code lengths: a length or a run. */
    method TakeLengthCode(ghost c: Deflate.Config, ghost d: Deflate.Config, sym: nat) returns (st: Status)
      requires Midway(c) && Behind(d) && d.out == cfg.out && c.out == cfg.out && c.zlib == cfg.zlib
        && c.room == cfg.room && ReadingLengths() && counter < sizes[0] + sizes[1] && sym <= 18
      requires if sym == 16 && counter == 0 then Refuses(c)
               else Onward(c, d.(ph := if sym < 16 then Lens(sizes[0], sizes[1], t2.lens, lenCodes[..counter] + [sym])
                                       else LensRep(sizes[0], sizes[1], t2.lens, lenCodes[..counter], sym)))
      modifies this`state, this`counter, this`dist, this`extra, this`cfg, lenCodes
      ensures Valid() && Stopped(st) && cfg.out == old(cfg.out) && (st == Running ==> Onward(c, cfg))
    {
      hide OnTrack, BytesBits, ToBits, Pow2, r.Valid, Shows, Roomy, Apart, Onward, At, Valid, ReadingLengths,
           t2.Decodes, Aligned, Refuses;
      LengthFacts();
      dist := sym;
      if dist < 16 {
        AddLength(c, d.(ph := Lens(sizes[0], sizes[1], t2.lens, lenCodes[..counter] + [dist])), dist);
        st := Running;
      } else {
        st := BeginRepeat(c, d.(ph := LensRep(sizes[0], sizes[1], t2.lens, lenCodes[..counter], dist)));
      }
    }

    method ReadLength() returns (st: Status)
      requires Valid() && state.Lengths? && ReadingLengths() && counter < sizes[0] + sizes[1]
      modifies this`state, this`counter, this`dist, this`extra, this`cfg, r`bitBuf, r`numBits, r`at, lenCodes
      ensures Valid() && Moved() && Stopped(st)
      ensures st == Running ==> Onward(old(cfg), cfg)
    {
      hide FateOf, OnTrack, BytesBits, ToBits, Nat, Pow2, r.Valid, Shows, Roomy, Apart, Onward, Good, At, Valid,
           ReadingLengths, t2.Decodes, DecodeSym, IsCode, Aligned;
      Enter();
      AtLengths();
      LengthFacts();
      ghost var c := cfg;
      ghost var s := TakeLengthSym(c);
      var ok, sym := HuffDecode(r, t2, s);
      if !ok {
        AtLengths();
        Settle(c);
        return NeedsMoreInput;
      }
      st := TakeLengthCode(c, Drop(c, t2.lens[s]), sym);
    }

    method CopyLengths(a: array<nat>, from: nat, n: nat)
      requires lenCodes.Length == LEN_CODES && a != lenCodes && n <= a.Length && from + n <= LEN_CODES
      requires forall i :: from <= i < from + n ==> lenCodes[i] <= MAX_LEN
      modifies a
      ensures a[..n] == lenCodes[from..from + n] && forall i :: 0 <= i < n ==> a[i] <= MAX_LEN
    {
      for i := 0 to n
        invariant a[..i] == lenCodes[from..from + i] && forall k :: 0 <= k < i ==> a[k] <= MAX_LEN
      {
        a[i] := lenCodes[from + i];
        assert a[..i + 1] == a[..i] + [a[i]];
      }
    }

    method TablesFromLengths(n0: nat, n1: nat) returns (ok: bool)
      requires Apart() && counter == n0 + n1 && n0 <= 288 && n1 <= 32 && forall i ::
        0 <= i < counter ==> lenCodes[i] <= MAX_LEN
      modifies t0, t0.size, t0.look, t0.tree, t1, t1.size, t1.look, t1.tree
      ensures ok <==> ValidCode(lenCodes[..counter][..n0]) && ValidCode(lenCodes[..counter][n0..])
      ensures ok ==> TablesBuilt() && t0.lens == lenCodes[..counter][..n0] && t1.lens == lenCodes[..counter][n0..]
    {
      hide ValidCode, t0.Decodes;
      CopyLengths(t0.size, 0, n0);
      CopyLengths(t1.size, n0, n1);
      assert lenCodes[..counter][..n0] == t0.size[..n0];
      assert lenCodes[..counter][n0..] == t1.size[..n1];
      ok := BuildTables(n0, n1);
    }

    /** All lengths are read, or too many: two codes, two tables. */
    method SplitLengths() returns (st: Status)
      requires Valid() && state.Lengths? && ReadingLengths() && counter >= sizes[0] + sizes[1]
      modifies this`state, this`cfg, t0, t0.size, t0.look, t0.tree, t1, t1.size, t1.look, t1.tree
      ensures Valid() && Stopped(st) && cfg.out == old(cfg.out) && (st == Running ==> Onward(old(cfg), cfg))
    {
      hide FateOf, OnTrack, BytesBits, ToBits, Nat, Pow2, r.Valid, Shows, Roomy, Onward, Good, At, Valid,
           ReadingLengths, t2.Decodes, ValidCode, TablesBuilt, Aligned, Refuses;
      Enter();
      AtLengths();
      LengthFacts();
      ghost var c := cfg;
      TakeLengths(c);
      var n0, n1 := sizes[0], sizes[1];
      if n0 + n1 != counter {
        st := Break(c);
        return;
      }
      var ok := TablesFromLengths(n0, n1);
      if !ok {
        st := Break(c);
        return;
      }
      BeginSymbols(c, c.(ph := Symbols(t0.lens, t1.lens)));
      st := Running;
    }

    /** One symbol of the packed code lengths. */
    method StepLengths() returns (st: Status)
      requires Valid() && state.Lengths?
      modifies this`state, this`counter, this`dist, this`extra, this`cfg, r`bitBuf, r`numBits, r`at, lenCodes
      modifies t0, t0.size, t0.look, t0.tree, t1, t1.size, t1.look, t1.tree
      ensures Valid() && Moved() && Stopped(st)
      ensures st == Running ==> Onward(old(cfg), cfg)
    {
      hide FateOf, OnTrack, BytesBits, ToBits, Nat, Pow2, r.Valid, Shows, Roomy, Apart, Onward, Good, At, Valid,
           ReadingLengths, t2.Decodes, DecodeSym, IsCode, Aligned;
      Enter();
      AtLengths();
      LengthFacts();
      var total := sizes[0] + sizes[1];
      if counter < total {
        st := ReadLength();
      } else {
        st := SplitLengths();
      }
    }

    method RepeatLength(ghost c: Deflate.Config, ghost d: Deflate.Config, n: nat)
      requires Midway(c) && Behind(d) && d.out == cfg.out && ReadingLengths() && 16 <= dist <= 18
        && (dist == 16 ==> counter > 0) && counter + n <= LEN_CODES
      requires Onward(c, d.(ph := Lens(sizes[0], sizes[1], t2.lens,
                 lenCodes[..counter] + Repeat(if dist == 16 then lenCodes[counter - 1] else 0, n))))
      modifies this`state, this`counter, this`cfg, lenCodes
      ensures Valid() && Onward(c, cfg) && cfg.out == old(cfg.out)
    {
      hide OnTrack, BytesBits, ToBits, Pow2, r.Valid, Shows, Roomy, Onward, At, Valid, ReadingLengths, SizesOk,
           t2.Decodes, Aligned;
      LengthFacts();
      SizesStay();
      var v := if dist == 16 then lenCodes[counter - 1] else 0;
      ghost var before := lenCodes[..counter];
      HuffmanTable.FillSizes(lenCodes, counter, counter + n, v);
      assert lenCodes[..counter + n] == before + Repeat(v, n);
      MoreLengths(c, d.(ph := Lens(sizes[0], sizes[1], t2.lens, before + Repeat(v, n))), before, Repeat(v, n), n);
    }

    /** A run of equal lengths. */
    method StepLengthRepeat() returns (st: Status)
      requires Valid() && state.LengthRepeat?
      modifies this`state, this`counter, this`cfg, r`bitBuf, r`numBits, r`at, lenCodes
      ensures Valid() && Moved() && Stopped(st)
      ensures st == Running ==> Onward(old(cfg), cfg)
    {
      hide FateOf, OnTrack, BytesBits, ToBits, Nat, Pow2, r.Valid, Shows, Roomy, Apart, Onward, Good, At, Valid,
           ReadingLengths, t2.Decodes, Aligned;
      Enter();
      AtLengthRepeat();
      LengthFacts();
      ghost var c := cfg;
      TakeRepeat(c);
      Pow2Small();
      var ok, v := r.Get(extra);
      if !ok {
        AtLengthRepeat();
        Settle(c);
        return NeedsMoreInput;
      }
      RepeatLength(c, Drop(c, extra), v + REP_MIN[dist - 16]);
      st := Running;
    }

    // ------------------------------------------------- literals and matches

    lemma AtLiteralRoom()
      requires state.LiteralRoom?
      ensures At() <==> InBlock() && TablesBuilt() && counter < 256 && cfg.ph == Emit(t0.lens, t1.lens, counter)
    {
      hide TablesBuilt, Aligned, ReadingLengths, ReadingCodeLengths, InBlock, SizesOk, Seed, Pow2;
    }

    lemma AtLengthBits()
      requires state.LengthBits?
      ensures At() <==>
        InBlock() && TablesBuilt() && extra <= 13 && MIN_MATCH <= counter && counter + Pow2(extra) <= MAX_MATCH + 1
                        && cfg.ph == LenExtra(t0.lens, t1.lens, counter, extra)
    {
      hide TablesBuilt, Aligned, ReadingLengths, ReadingCodeLengths, InBlock, SizesOk, Seed, Pow2;
    }

    lemma AtDistance()
      requires state.Distance?
      ensures At() <==>
        InBlock() && TablesBuilt() && MIN_MATCH <= counter <= MAX_MATCH && cfg.ph == DistSym(t0.lens, t1.lens, counter)
    {
      hide TablesBuilt, Aligned, ReadingLengths, ReadingCodeLengths, InBlock, SizesOk, Seed, Pow2;
    }

    lemma AtDistanceBits()
      requires state.DistanceBits?
      ensures At() <==> InBlock() && TablesBuilt() && extra <= 13 && MIN_MATCH <= counter <= MAX_MATCH
                        && cfg.ph == DistExtra(t0.lens, t1.lens, counter, dist, extra)
    {
      hide TablesBuilt, Aligned, ReadingLengths, ReadingCodeLengths, InBlock, SizesOk, Seed, Pow2;
    }

    lemma AtCopyRoom()
      requires state.CopyRoom?
      ensures At() <==> InBlock() && TablesBuilt() && cfg.ph == Copy(t0.lens, t1.lens, counter + 1, dist)
    {
      hide TablesBuilt, Aligned, ReadingLengths, ReadingCodeLengths, InBlock, SizesOk, Seed, Pow2;
    }

    /** A match length has a base and extra bits. */
    method BeginLength(ghost c: Deflate.Config, ghost d: Deflate.Config, base: nat, bits: nat)
      requires Midway(c) && TablesBuilt() && Behind(d) && d.out == cfg.out && bits <= 13 && MIN_MATCH <= base
        && base + Pow2(bits) <= MAX_MATCH + 1
      requires d.ph == LenExtra(t0.lens, t1.lens, base, bits) && Onward(c, d)
      modifies this`state, this`counter, this`extra, this`cfg
      ensures Valid() && Onward(c, cfg) && cfg.out == old(cfg.out)
    {
      hide OnTrack, BytesBits, ToBits, Pow2, r.Valid, Shows, Roomy, Apart, Onward, At, Valid, TablesBuilt, Aligned;
      counter, extra, state := base, bits, LengthBits;
      cfg := d;
      AtLengthBits();
      Settle(c);
    }

    /** What follows a symbol that is no literal; `d` stands behind its code word. */
    method AfterSymbol(ghost c: Deflate.Config, ghost d: Deflate.Config, raw: nat)
      requires Midway(c) && TablesBuilt() && Behind(d) && d.out == cfg.out && 256 <= raw % 512 <= 285
      requires Onward(c, Continued(d, t0.lens, t1.lens, raw % 512))
      modifies this`state, this`counter, this`extra, this`cfg, r`bitBuf, r`numBits
      ensures Valid() && Onward(c, cfg) && cfg.out == old(cfg.out)
    {
      hide OnTrack, BytesBits, ToBits, Pow2, r.Valid, Shows, Roomy, Apart, Onward, At, Valid, TablesBuilt, EndBlock,
           Continued, Aligned;
      counter := raw % 512;
      if counter == 256 {
        ContinuedEnd(d, t0.lens, t1.lens);
        EndOfBlock(c, d);
      } else {
        var base, bits := LengthCode(d, t0.lens, t1.lens, counter);
        BeginLength(c, Continued(d, t0.lens, t1.lens, counter), base, bits);
      }
    }

    /** A literal goes to the buffer. */
    method EmitLiteral(ghost c: Deflate.Config, ghost d: Deflate.Config, b: byte)
      requires Midway(c) && cur < end && TablesBuilt() && Behind(d) && d.ph == Symbols(t0.lens, t1.lens)
        && d.out == cfg.out + [b] && Onward(c, d)
      modifies this`state, this`cur, this`cfg, buf
      ensures Valid() && state == Literals && cfg == d && cur == old(cur) + 1
      ensures forall i :: 0 <= i < buf.Length && i != old(cur) ==> buf[i] == old(buf[i])
    {
      hide OnTrack, BytesBits, ToBits, Pow2, r.Valid, Shows, Roomy, Apart, Onward, At, Valid, TablesBuilt, Aligned;
      PutByte(b);
      BeginSymbols(c, d);
    }

    /** A literal that waits for room. */
    method HoldLiteral(ghost c: Deflate.Config, ghost d: Deflate.Config)
      requires Midway(c) && TablesBuilt() && Behind(d) && d.out == cfg.out && counter < 256
        && d.ph == Emit(t0.lens, t1.lens, counter) && Onward(c, d)
      modifies this`state, this`cfg
      ensures Valid() && Onward(c, cfg) && cfg.out == old(cfg.out)
    {
      hide OnTrack, BytesBits, ToBits, Pow2, r.Valid, Shows, Roomy, Apart, Onward, At, Valid, TablesBuilt, Aligned;
      state := LiteralRoom;
      cfg := d;
      AtLiteralRoom();
      Settle(c);
    }

    /** A symbol was read; `d` stands behind its code word. */
    method TakeCode(ghost c: Deflate.Config, ghost d: Deflate.Config, sym: nat)
      requires Midway(c) && TablesBuilt() && Behind(d) && d.out == cfg.out && sym <= 285
      requires Onward(c, if sym < 256 then d.(ph := Emit(t0.lens, t1.lens, sym))
        else Continued(d, t0.lens, t1.lens, sym))
      modifies this`state, this`counter, this`extra, this`cfg, r`bitBuf, r`numBits
      ensures Valid() && Onward(c, cfg) && cfg.out == old(cfg.out)
    {
      hide OnTrack, BytesBits, ToBits, Pow2, r.Valid, Shows, Roomy, Apart, Onward, At, Valid, TablesBuilt, Continued,
           Aligned;
      if sym >= 256 {
        AfterSymbol(c, d, sym);
      } else {
        counter := sym;
        HoldLiteral(c, d.(ph := Emit(t0.lens, t1.lens, sym)));
      }
    }

    /** A symbol with every check for the end of the input. */
    method SlowSymbol() returns (st: Status)
      requires Valid() && state.Literals?
      modifies this`state, this`counter, this`extra, this`cfg, r`bitBuf, r`numBits, r`at
      ensures Valid() && Moved() && Stopped(st)
      ensures st == Running ==> Onward(old(cfg), cfg)
    {
      hide FateOf, OnTrack, BytesBits, ToBits, Nat, Pow2, r.Valid, Shows, Roomy, Apart, Onward, Good, At, Valid,
           t0.Decodes, DecodeSym, IsCode, Continued, Aligned;
      Enter();
      AtLiterals();
      ghost var c := cfg;
      ghost var s := TakeSymbol(c);
      var ok, sym := HuffDecode(r, t0, s);
      if !ok {
        AtLiterals();
        Settle(c);
        return NeedsMoreInput;
      }
      TakeCode(c, Drop(c, t0.lens[s]), sym);
      st := Running;
    }

    /** A symbol without checks: 15 bits and room for a byte are there. */
    method FastSymbol() returns (literal: bool)
      requires Valid() && state.Literals? && r.numBits >= 15 && cur < end
      modifies this`state, this`counter, this`extra, this`cur, this`cfg, r`bitBuf, r`numBits, buf
      ensures Valid() && Moved() && Onward(old(cfg), cfg)
      ensures literal ==> state.Literals? && cur == old(cur) + 1 && r.numBits >= old(r.numBits) - 15
      ensures |cfg.out| <= |old(cfg.out)| + 1
    {
      hide FateOf, OnTrack, BytesBits, ToBits, Nat, Pow2, r.Valid, Shows, Roomy, Apart, Onward, Good, At, Valid,
           t0.Decodes, DecodeSym, IsCode, Continued, Aligned;
      Enter();
      AtLiterals();
      ghost var c := cfg;
      ghost var s := TakeSymbol(c);
      var sym := FastDecode(r, t0, s);
      RawSymbol(sym, s);
      literal := sym / 256 % 2 == 0;
      if literal {
        EmitLiteral(c, Drop(c, t0.lens[s]).(out := c.out + [s]), sym % 256);
      } else {
        AfterSymbol(c, Drop(c, t0.lens[s]), sym);
      }
    }

    /** With four bytes of input and room for two, two symbols without checks. */
    method FastPair()
      requires Valid() && state.Literals? && |r.src| - r.at >= 4 && end - cur >= 2
      modifies this`state, this`counter, this`extra, this`cur, this`cfg, r`bitBuf, r`numBits, r`at, buf
      ensures Valid() && Moved() && Onward(old(cfg), cfg)
      ensures |cfg.out| <= |old(cfg.out)| + 2
    {
      hide FateOf, OnTrack, BytesBits, ToBits, Pow2, r.Valid, Shows, Roomy, Apart, Onward, Good, At, Valid,
           TablesBuilt, Aligned;
      Enter();
      AtLiterals();
      ghost var c := cfg;
      Fill32(r);
      AtLiterals();
      Settle(c);
      var literal := FastSymbol();
      if literal {
        ghost var d := cfg;
        literal := FastSymbol();
        OnwardTrans(c, d, cfg);
      }
    }

    method StepLiterals() returns (st: Status)
      requires Valid() && state.Literals?
      modifies this`state, this`counter, this`extra, this`cur, this`cfg, r`bitBuf, r`numBits, r`at, buf
      ensures Valid() && Moved() && Stopped(st)
      ensures st == Running ==> Onward(old(cfg), cfg)
      ensures |cfg.out| <= |old(cfg.out)| + MAX_MATCH
    {
      hide FateOf, Onward, Valid;
      if |r.src| - r.at < 4 || end - cur < 2 {
        st := SlowSymbol();
      } else {
        FastPair();
        st := Running;
      }
    }

    method StepLiteralRoom() returns (st: Status)
      requires Valid() && state.LiteralRoom?
      modifies this`state, this`cur, this`cfg, buf
      ensures Valid() && Moved() && Stopped(st)
      ensures st == Running ==> Onward(old(cfg), cfg)
      ensures |cfg.out| <= |old(cfg.out)| + MAX_MATCH
    {
      hide FateOf, OnTrack, BytesBits, ToBits, Nat, Pow2, r.Valid, Shows, Roomy, Apart, Onward, Good, At, Valid,
           TablesBuilt, Aligned;
      Enter();
      AtLiteralRoom();
      WindowBounds();
      ghost var c := cfg;
      if cur >= end {
        MoreOutput(c);
        GoodRun(c);
        return HasMoreOutput;
      }
      MustSymbol(c);
      EmitLiteral(c, c.(ph := Symbols(t0.lens, t1.lens), out := c.out + [counter]), counter);
      st := Running;
    }

    /** The match length is known. */
    method TakeExtraLength(ghost c: Deflate.Config, v: nat)
      requires Midway(c) && TablesBuilt() && c == cfg && extra <= |c.bits| && Drop(c, extra).bits == r.Bits()
      requires MIN_MATCH <= counter + v <= MAX_MATCH
        && Onward(c, Drop(c, extra).(ph := DistSym(t0.lens, t1.lens, counter + v)))
      modifies this`state, this`counter, this`cfg
      ensures Valid() && Onward(c, cfg) && cfg.out == old(cfg.out)
    {
      hide OnTrack, BytesBits, ToBits, Pow2, r.Valid, Shows, Roomy, Apart, Onward, At, Valid, TablesBuilt, Aligned;
      counter, state := counter + v, Distance;
      cfg := Drop(c, extra).(ph := DistSym(t0.lens, t1.lens, counter));
      AtDistance();
      Settle(c);
    }

    method StepLengthBits() returns (st: Status)
      requires Valid() && state.LengthBits?
      modifies this`state, this`counter, this`cfg, r`bitBuf, r`numBits, r`at
      ensures Valid() && Moved() && Stopped(st)
      ensures st == Running ==> Onward(old(cfg), cfg)
    {
      hide FateOf, OnTrack, BytesBits, ToBits, Nat, Pow2, r.Valid, Shows, Roomy, Apart, Onward, Good, At, Valid,
           TablesBuilt, Aligned;
      Enter();
      AtLengthBits();
      ghost var c := cfg;
      TakeLengthBits(c);
      var ok, v := r.GetExtra(extra);
      if !ok {
        AtLengthBits();
        Settle(c);
        return NeedsMoreInput;
      }
      TakeExtraLength(c, v);
      st := Running;
    }

    /** The base of a distance and its number of extra bits. */
    method BeginDistance(ghost c: Deflate.Config, ghost d: Deflate.Config, base: nat, bits: nat)
      requires Midway(c) && TablesBuilt() && Behind(d) && d.out == cfg.out && MIN_MATCH <= counter <= MAX_MATCH
      requires bits <= 13 && d.ph == DistExtra(t0.lens, t1.lens, counter, base, bits) && Onward(c, d)
      modifies this`state, this`dist, this`extra, this`cfg
      ensures Valid() && Onward(c, cfg) && cfg.out == old(cfg.out)
    {
      hide OnTrack, BytesBits, ToBits, Pow2, r.Valid, Shows, Roomy, Apart, Onward, At, Valid, TablesBuilt, Aligned;
      dist, extra, state := base, bits, DistanceBits;
      cfg := d;
      AtDistanceBits();
      Settle(c);
    }

    method StepDistance() returns (st: Status)
      requires Valid() && state.Distance?
      modifies this`state, this`dist, this`extra, this`cfg, r`bitBuf, r`numBits, r`at
      ensures Valid() && Moved() && Stopped(st)
      ensures st == Running ==> Onward(old(cfg), cfg)
    {
      hide FateOf, OnTrack, BytesBits, ToBits, Nat, Pow2, r.Valid, Shows, Roomy, Apart, Onward, Good, At, Valid,
           t0.Decodes, DecodeSym, IsCode, Aligned;
      Enter();
      AtDistance();
      ghost var c := cfg;
      ghost var s := TakeDistanceSym(c);
      var ok, sym := HuffDecode(r, t1, s);
      if !ok {
        AtDistance();
        Settle(c);
        return NeedsMoreInput;
      }
      st := Running;
      ghost var d := Drop(c, t1.lens[s]).(ph := DistExtra(t0.lens, t1.lens, counter, DIST_BASE[s], DIST_EXTRA[s]));
      BeginDistance(c, d, DIST_BASE[sym], DIST_EXTRA[sym]);
    }

    /** A distance that was read is in reach, or refused. */
    ghost predicate DistanceRead(c: Deflate.Config, d: Deflate.Config, n: nat)
      reads this`cfg, this`counter, t0, t1, r
    {
      && r.Valid() && Behind(d) && d.out == cfg.out && MIN_MATCH <= counter <= MAX_MATCH && c.out == cfg.out
        && c.zlib == zlib && c.room == room
      && d.ph == Copy(t0.lens, t1.lens, counter, n)
      && (if Refuses(c) then room.Plain? && n > |d.out|
          else 1 <= n <= |d.out| && n <= WINDOW && Onward(c, d)
               && Onward(c, d.(ph := Symbols(t0.lens, t1.lens), out := CopyOut(d.out, counter, n))))
    }

    /** What a match moves. */
    twostate predicate Spread()
      reads this, buf
    {
      && buf == old(buf) && old(cfg.out) <= cfg.out && |cfg.out| <= |old(cfg.out)| + MAX_MATCH
      && cur == old(cur) + |cfg.out| - |old(cfg.out)|
      && forall i :: 0 <= i < buf.Length && !(old(cur) <= i < cur) ==> buf[i] == old(buf[i])
    }

    /** The match is copied to the cursor. */
    method CopyNow(from: int)
      requires Window() && MIN_MATCH <= counter <= MAX_MATCH && 1 <= dist <= |cfg.out| && dist <= WINDOW
      requires from == Back(cur, dist, end) && cur + counter <= end && from + counter <= end
      modifies this`cur, buf
      ensures cur == old(cur) + counter && |CopyOut(cfg.out, counter, dist)| == |cfg.out| + counter
        && cfg.out <= CopyOut(cfg.out, counter, dist)
      ensures Shows(buf[..], end, cur, CopyOut(cfg.out, counter, dist))
        && Roomy(wrap, end, cur, CopyOut(cfg.out, counter, dist))
      ensures forall i :: 0 <= i < buf.Length && !(old(cur) <= i < cur) ==> buf[i] == old(buf[i])
    {
      hide CopyOut, Shows, Roomy, Copying, Back;
      BackInRange(buf[..], end, cur, cfg.out, dist);
      CopyLen(cfg.out, counter, dist);
      StartCopy(buf[..], end, wrap, cur, from, cfg.out, dist, counter);
      cur := CopyMatch(buf, cur, from, end, words, dist, counter, wrap, cfg.out);
    }

    method FastCopy(ghost c: Deflate.Config, ghost d: Deflate.Config, from: int)
      requires Midway(c) && TablesBuilt() && DistanceRead(c, d, dist) && !Refuses(c)
      requires from == Back(cur, dist, end) && cur + counter <= end && from + counter <= end
      modifies this`state, this`cur, this`cfg, buf
      ensures Valid() && Onward(c, cfg) && Spread()
    {
      hide OnTrack, BytesBits, ToBits, Pow2, r.Valid, Apart, Onward, At, Valid, TablesBuilt, CopyOut, Shows, Roomy,
           Back, Aligned, Refuses;
      CopyNow(from);
      BeginSymbols(c, d.(ph := Symbols(t0.lens, t1.lens), out := CopyOut(d.out, counter, dist)));
    }

    lemma AlignedHere()
      requires distFrom == cur && (wrap ==> end >= WINDOW)
      ensures Aligned()
    {
    }

    /** A match that is to be copied byte by byte. */
    method HoldCopy(ghost c: Deflate.Config, ghost d: Deflate.Config)
      requires Midway(c) && TablesBuilt() && DistanceRead(c, d, dist) && !Refuses(c) && distFrom == cur
        && (wrap ==> end >= WINDOW)
      modifies this`state, this`counter, this`cfg
      ensures Valid() && Onward(c, cfg) && cfg.out == old(cfg.out)
    {
      hide OnTrack, BytesBits, ToBits, Pow2, r.Valid, Shows, Roomy, Apart, Onward, At, Valid, TablesBuilt, CopyOut,
           Aligned, Refuses;
      counter, state := counter - 1, CopyRoom;
      cfg := d;
      AlignedHere();
      AtCopyRoom();
      Settle(c);
    }

    lemma FlatReach()
      requires Window()
      ensures !wrap ==> cur == |cfg.out|
      ensures wrap ==> end >= WINDOW
    {
    }

    /** The match is known: at once if it fits and does not wrap, otherwise byte
        by byte. */
    method BeginCopy(ghost c: Deflate.Config, ghost d: Deflate.Config) returns (st: Status)
      requires Midway(c) && TablesBuilt() && DistanceRead(c, d, dist)
      modifies this`state, this`counter, this`distFrom, this`cur, this`cfg, buf
      ensures Valid() && Stopped(st) && (st == Running ==> Onward(c, cfg)) && Spread()
    {
      hide OnTrack, BytesBits, ToBits, Pow2, r.Valid, Apart, Onward, At, Valid, TablesBuilt, CopyOut, Shows, Roomy,
           Aligned, Refuses;
      distFrom := cur;
      FlatReach();
      if !wrap && dist > distFrom {
        st := Break(c);
        return;
      }
      MaskIsBack(cur, dist, end, wrap, cfg.out, buf[..]);
      var from := Mask(distFrom - dist, end, wrap);
      st := Running;
      if (if cur > from then cur else from) + counter > end {
        HoldCopy(c, d);
      } else {
        FastCopy(c, d, from);
      }
    }

    /** The distance is known. */
    method TakeExtraDistance(ghost c: Deflate.Config, ghost d: Deflate.Config, v: nat) returns (st: Status)
      requires Midway(c) && TablesBuilt() && DistanceRead(c, d, dist + v)
      modifies this`state, this`counter, this`dist, this`distFrom, this`cur, this`cfg, buf
      ensures Valid() && Stopped(st) && (st == Running ==> Onward(c, cfg)) && Spread()
    {
      hide OnTrack, BytesBits, ToBits, Pow2, r.Valid, Apart, Onward, At, Valid, TablesBuilt, CopyOut, Shows, Roomy,
           Aligned, Refuses;
      dist := dist + v;
      st := BeginCopy(c, d);
    }

    lemma DistanceAhead(c: Deflate.Config)
      requires Good(c) && c.ph.DistExtra?
      ensures c.ph.extra <= |c.bits|
    {
      hide FateOf, Onward, Good, Refuses, CopyOut;
      TakeDistance(c);
    }

    lemma DistanceKnown(c: Deflate.Config, v: nat)
      requires Good(c) && c == cfg && c.ph == DistExtra(t0.lens, t1.lens, counter, dist, extra)
        && MIN_MATCH <= counter <= MAX_MATCH
      requires extra <= |c.bits| && r.Valid() && r.Bits() == c.bits[extra..] && v == Nat(c.bits[..extra]) && RoomFits()
        && c.zlib == zlib
      ensures DistanceRead(c, Drop(c, extra).(ph := Copy(t0.lens, t1.lens, counter, dist + v)), dist + v)
    {
      hide FateOf, Onward, Good, Refuses, CopyOut, BytesBits, ToBits, Nat, r.Valid;
      TakeDistance(c);
    }

    method StepDistanceBits() returns (st: Status)
      requires Valid() && state.DistanceBits?
      modifies this`state, this`counter, this`dist, this`distFrom, this`cur, this`cfg, r`bitBuf, r`numBits, r`at, buf
      ensures Valid() && Moved() && Stopped(st)
      ensures st == Running ==> Onward(old(cfg), cfg)
      ensures |cfg.out| <= |old(cfg.out)| + MAX_MATCH
    {
      hide FateOf, OnTrack, BytesBits, ToBits, Nat, Pow2, r.Valid, Shows, Roomy, Apart, Onward, Good, At, Valid,
           TablesBuilt, DistanceRead, Aligned;
      Enter();
      AtDistanceBits();
      ghost var c := cfg;
      DistanceAhead(c);
      var ok, v := r.GetExtra(extra);
      if !ok {
        AtDistanceBits();
        Settle(c);
        return NeedsMoreInput;
      }
      DistanceKnown(c, v);
      st := TakeExtraDistance(c, Drop(c, extra).(ph := Copy(t0.lens, t1.lens, counter, dist + v)), v);
    }

    /** The masked index of a suspended copy is still `dist` before the cursor. */
    lemma CopySource()
      requires Window() && Aligned() && 1 <= dist <= |cfg.out| && dist <= WINDOW
      ensures Mask(distFrom - dist, end, wrap) == Back(cur, dist, end)
    {
      hide Shows;
      MaskIsBack(cur, dist, end, wrap, cfg.out, buf[..]);
      if wrap { SameMod(distFrom, cur, dist, end); }
    }

    /** The count of a suspended copy follows the cursor. */
    method Follow()
      requires cur >= 1 && AlignedTo(cur - 1)
      modifies this`distFrom
      ensures Aligned()
    {
      if wrap { NextMod(distFrom, cur - 1, end); }
      distFrom := distFrom + 1;
    }

    method CopiedByte(ghost c: Deflate.Config, ghost b: byte)
      requires Between(c, c.out + [b]) && InBlock() && TablesBuilt() && c == cfg && state.CopyRoom?
      requires c.bits == r.Bits() && c.ph == Copy(t0.lens, t1.lens, counter + 1, dist) && cur >= 1 && AlignedTo(cur - 1)
      requires if counter == 0 then Onward(c, c.(ph := Symbols(t0.lens, t1.lens), out := c.out + [b]))
               else Onward(c, c.(ph := Copy(t0.lens, t1.lens, counter, dist), out := c.out + [b]))
      modifies this`state, this`counter, this`distFrom, this`cfg
      ensures Valid() && Onward(c, cfg) && cfg.out == c.out + [b]
    {
      hide OnTrack, BytesBits, ToBits, Pow2, r.Valid, Apart, Onward, At, Valid, TablesBuilt, Shows, Roomy, Aligned,
           AlignedTo;
      Follow();
      if counter == 0 {
        BeginSymbols(c, c.(ph := Symbols(t0.lens, t1.lens), out := c.out + [b]));
      } else {
        cfg := c.(ph := Copy(t0.lens, t1.lens, counter, dist), out := c.out + [b]);
        counter := counter - 1;
        AtCopyRoom();
        Settle(c);
      }
    }

    lemma AlignedAt()
      ensures Aligned() <==> AlignedTo(cur)
    {
    }

    /** One byte of a match that reaches the end of the buffer. */
    method StepCopyRoom() returns (st: Status)
      requires Valid() && state.CopyRoom?
      modifies this`state, this`counter, this`distFrom, this`cur, this`cfg, buf
      ensures Valid() && Moved() && Stopped(st)
      ensures st == Running ==> Onward(old(cfg), cfg)
      ensures |cfg.out| <= |old(cfg.out)| + MAX_MATCH
    {
      hide FateOf, OnTrack, BytesBits, ToBits, Nat, Pow2, r.Valid, Shows, Roomy, Apart, Onward, Good, At, Valid,
           TablesBuilt, Aligned, AlignedTo;
      Enter();
      AtCopyRoom();
      WindowBounds();
      ghost var c := cfg;
      if cur >= end {
        MoreOutput(c);
        GoodRun(c);
        return HasMoreOutput;
      }
      TakeCopyByte(c);
      BackInRange(buf[..], end, cur, cfg.out, dist);
      CopySource();
      AlignedAt();
      var b := buf[Mask(distFrom - dist, end, wrap)];
      PutByte(b);
      st := Running;
      CopiedByte(c, b);
    }

    // ------------------------------------------------------ tinfl_decompress

    /** The output of a small step, in the buffer. */
    lemma Recent(n: nat)
      requires Window() && n <= cur && n <= |cfg.out| && n <= WINDOW
      ensures cur <= buf.Length && buf[cur - n..cur] == cfg.out[|cfg.out| - n..]
    {
      var x, y := buf[cur - n..cur], cfg.out[|cfg.out| - n..];
      forall i | 0 <= i < n ensures x[i] == y[i] {
        assert buf[..][Back(cur, n - i, end)] == cfg.out[|cfg.out| - (n - i)];
      }
    }

    lemma CursorInBuffer()
      requires Valid()
      ensures Window() && cur <= buf.Length
    {
      hide FateOf, Shows, At, OnTrack;
      WindowBounds();
    }

    method SmallStep() returns (st: Status)
      requires Valid() && !state.RawData?
      modifies this, r, lenCodes, t0, t0.size, t0.look, t0.tree, t1, t1.size, t1.look, t1.tree, t2, t2.size, t2.look
      modifies t2.tree, buf
      ensures Valid() && Moved() && Stopped(st)
      ensures st == Running ==> Onward(old(cfg), cfg)
      ensures |cfg.out| <= |old(cfg.out)| + MAX_MATCH
    {
      hide FateOf, Onward, Valid;
      match state
      case ZlibHeader0 => st := StepHeader0();
      case ZlibHeader1 => st := StepHeader1();
      case BlockStart => st := StepBlockStart();
      case RawLength => st := StepRawLength();
      case RawRoom => st := StepRawRoom();
      case TableSizes => st := StepTableSizes();
      case CodeLengths => st := StepCodeLengths();
      case Lengths => st := StepLengths();
      case LengthRepeat => st := StepLengthRepeat();
      case Literals => st := StepLiterals();
      case LiteralRoom => st := StepLiteralRoom();
      case LengthBits => st := StepLengthBits();
      case Distance => st := StepDistance();
      case DistanceBits => st := StepDistanceBits();
      case CopyRoom => st := StepCopyRoom();
      case Checksum => st := StepChecksum();
      case Ended => st := Finished;
      case Broken => st := Failed;
    }

    /** Everything a step may change. */
    method Step() returns (st: Status)
      requires Valid()
      modifies this, r, lenCodes, t0, t0.size, t0.look, t0.tree, t1, t1.size, t1.look, t1.tree, t2, t2.size, t2.look
      modifies t2.tree, buf
      ensures Valid() && Moved() && Stopped(st)
      ensures st == Running ==> Onward(old(cfg), cfg)
      ensures old(cur) <= cur <= buf.Length && buf[old(cur)..cur] == cfg.out[|old(cfg.out)|..]
    {
      hide FateOf, Onward, Valid, Window, Shows;
      CursorInBuffer();
      if state.RawData? {
        st := StepRawData();
        return;
      }
      st := SmallStep();
      CursorInBuffer();
      Recent(cur - old(cur));
    }

    predicate Checks()
    {
      zlib || checksum
    }

    /** Between two calls: the running checksum is that of all the output. */
    ghost predicate Idle()
      reads this, r, t0, t1, t2, t0.look, t0.tree, t1.look, t1.tree, t2.look, t2.tree, t2.size, lenCodes, buf
    {
      Valid() && (Checks() && !state.Broken? ==> checkAdler == Adler32(1, cfg.out))
    }

    /** The caller goes on where the last call stopped: with the next piece of the
        stream, and with a buffer that still shows the output. */
    ghost predicate Continues(piece: seq<byte>, more: bool, b: array<byte>, next: nat, size: nat, flat: bool)
      requires r.Valid()
      reads this, r, b
    {
      && r.pos + r.at + |piece| <= |r.stream| && piece == r.stream[r.pos + r.at..r.pos + r.at + |piece|]
      && (!more ==> r.pos + r.at + |piece| == |r.stream|)
      && (room.Plain? ==> flat) && (room.Wrapping? ==> !flat)
      && Shows(b[..], next + size, next, cfg.out) && Roomy(!flat, next + size, next, cfg.out)
      && (state.CopyRoom? ==> if !flat then distFrom % (next + size) == next % (next + size) else distFrom == next)
    }

    method SetBuffer(b: array<byte>, next: nat, size: nat, flat: bool)
      modifies this`buf, this`cur, this`end, this`wrap
      ensures buf == b && cur == next && end == next + size && wrap == !flat
    {
      buf, cur, end, wrap := b, next, next + size, !flat;
    }

    method Begin(piece: seq<byte>, more: bool, b: array<byte>, next: nat, size: nat, flat: bool)
      requires Valid() && Continues(piece, more, b, next, size, flat)
      modifies this`buf, this`cur, this`end, this`wrap, r`src, r`at, r`more, r`pos
      ensures Valid() && buf == b && cur == next && end == next + size && wrap == !flat
      ensures r.src == piece && r.at == 0 && r.more == more && r.pos == old(r.pos + r.at)
    {
      hide FateOf, OnTrack, BytesBits, ToBits, r.Valid, Shows, Apart, Onward, Good, At, Valid;
      Enter();
      ghost var c := cfg;
      SetBuffer(b, next, size, flat);
      r.Feed(piece, more);
      Settle(c);
    }

    lemma StillRunning()
      ensures Stopped(Running)
    {
    }

    /** Steps until the coroutine stops. */
    method RunOn(ghost before: seq<byte>, next: nat) returns (st: Status)
      requires Valid() && cur == next && cfg.out == before
      modifies this, r, lenCodes, t0, t0.size, t0.look, t0.tree, t1, t1.size, t1.look, t1.tree, t2, t2.size, t2.look
      modifies t2.tree, buf
      ensures Valid() && Moved() && Stopped(st) && st != Running
      ensures next <= cur <= buf.Length && cfg.out == before + buf[next..cur]
    {
      hide FateOf, Onward, Valid, Stopped;
      CursorInBuffer();
      StillRunning();
      assert before + buf[next..next] == before;
      st := Running;
      while st == Running
        invariant Valid() && Moved() && Stopped(st) && next <= cur <= buf.Length
        invariant cfg.out == before + buf[next..cur]
        decreases (if st == Running then 1 else 0), |cfg.bits|, Rank(cfg.ph)
      {
        ghost var c, at0, written := cfg, cur, buf[next..cur];
        st := Step();
        assert buf[next..at0] == written;
        Appended(before, buf[..], next, at0, cur, c.out, cfg.out);
        if st == Running { OnwardLess(c, cfg); }
      }
    }

    /** m_check_adler32, over the output of this call. */
    method UpdateSum(data: seq<byte>)
      requires Valid() && checkAdler < 0x1_0000_0000
      modifies this`checkAdler
      ensures Valid() && checkAdler == Adler32(old(checkAdler), data)
    {
      hide FateOf, OnTrack, r.Valid, Shows, Apart, At, Aligned, Adler32;
      checkAdler := Update(checkAdler, data);
    }

    lemma InputBounds()
      requires Valid()
      ensures r.at <= |r.src|
    {
      hide FateOf, Shows, At, OnTrack;
    }

    /** At the end the checksums are compared. */
    method Verdict(st0: Status) returns (st: Status)
      requires Idle() && Stopped(st0) && st0 != Running
      ensures st != Running && st != BadParam && Stopped(if st == Mismatch then Finished else st)
      ensures st == Finished || st == Mismatch ==> cfg.ph.Done? && Ends(zlib, r.stream, room) == Completes(cfg)
      ensures st == Failed ==> Ends(zlib, r.stream, room) == Fails(cfg)
      ensures st == Mismatch ==> zlib && cfg.ph.Done? && Adler32(1, cfg.out) != cfg.ph.z
      ensures st == Finished && zlib ==> cfg.ph.Done? && Adler32(1, cfg.out) == cfg.ph.z
    {
      hide FateOf, Ends, At, Valid, OnTrack, Adler32, Refuses;
      st := st0;
      if st == Finished {
        Enter();
        AtEnd();
        AtTheEnd(cfg, zlib, r.stream);
        if zlib && checkAdler != zAdler { st := Mismatch; }
      } else if st == Failed {
        Enter();
        AtBroken();
        AtTheBreak(cfg, zlib, r.stream);
      }
    }

    /** The end of a call: the checksum of what it put out, and the verdict. */
    method Conclude(st0: Status, ghost before: seq<byte>, next: nat) returns (st: Status)
      requires Valid() && Stopped(st0) && st0 != Running && next <= cur <= buf.Length
        && cfg.out == before + buf[next..cur]
      requires Checks() && !state.Broken? ==> checkAdler == Adler32(1, before)
      modifies this`checkAdler
      ensures Idle() && st != Running && st != BadParam && Stopped(if st == Mismatch then Finished else st)
      ensures st == Finished || st == Mismatch ==> cfg.ph.Done? && Ends(zlib, r.stream, room) == Completes(cfg)
      ensures st == Failed ==> Ends(zlib, r.stream, room) == Fails(cfg)
      ensures st == Mismatch ==> zlib && cfg.ph.Done? && Adler32(1, cfg.out) != cfg.ph.z
      ensures st == Finished && zlib ==> cfg.ph.Done? && Adler32(1, cfg.out) == cfg.ph.z
    {
      hide FateOf, Ends, Onward, Valid, Adler32, Shows;
      if Checks() && st0 != Failed {
        FirstSum(before);
        AdlerConcat(1, before, buf[next..cur]);
        UpdateSum(buf[next..cur]);
      }
      st := Verdict(st0);
    }

    /** tinfl_decompress on the next piece of input and room for `size` bytes:
        status, bytes taken, bytes made. */
    method Decompress(piece: seq<byte>, more: bool, b: array<byte>, next: nat, size: nat, flat: bool)
      returns (st: Status, used: nat, made: nat)
      requires Idle() && next + size <= b.Length && Continues(piece, more, b, next, size, flat)
      modifies this, r, lenCodes, t0, t0.size, t0.look, t0.tree, t1, t1.size, t1.look, t1.tree, t2, t2.size, t2.look
      modifies t2.tree, b
      ensures Idle() && used <= |piece| && made <= size
      ensures st == BadParam <==> !flat && !PowerOfTwo(next + size)
      ensures st == BadParam ==> used == 0 && made == 0
      ensures st != BadParam ==> buf == b && cur == next + made && end == next + size && wrap == !flat
      ensures r.pos + r.at == old(r.pos + r.at) + used
      ensures cfg.out == old(cfg.out) + b[next..next + made]
      ensures forall i :: 0 <= i < b.Length && !(next <= i < next + made) ==> b[i] == old(b[i])
      ensures st == NeedsMoreInput ==> more && used == |piece| && r.pos + r.at < |r.stream|
      ensures st == HasMoreOutput ==> made == size && !FateOf(cfg).Unclear? && |cfg.out| < |FateOf(cfg).end.out|
      ensures st == Finished || st == Mismatch ==> cfg.ph.Done? && Ends(zlib, r.stream, room) == Completes(cfg)
      ensures st == Failed ==> Ends(zlib, r.stream, room) == Fails(cfg)
      ensures st == Mismatch ==> zlib && cfg.ph.Done? && Adler32(1, cfg.out) != cfg.ph.z
      ensures st == Finished && zlib ==> cfg.ph.Done? && Adler32(1, cfg.out) == cfg.ph.z
      ensures st != Running && (st != Failed && st != BadParam ==> !state.Broken?)
    {
      hide FateOf, Ends, Onward, Valid, Adler32, Shows;
      if !flat && !PowerOfTwo(next + size) {
        assert b[next..next] == [];
        return BadParam, 0, 0;
      }
      ghost var before := cfg.out;
      Begin(piece, more, b, next, size, flat);
      st := RunOn(before, next);
      CursorInBuffer();
      WindowBounds();
      InputBounds();
      used, made := r.at, cur - next;
      st := Conclude(st, before, next);
    }
  }
}
