/**
  The LZ token buffer: groups of eight tokens behind a byte of flags, a literal
  in one byte, a match in three; and the symbol frequencies that go with it.
 */
module LzBuffer {
  import opened Bits
  import opened Canonical
  import opened Deflate
  import opened Blocks
  import opened HuffmanTable

  const CODE_BUF_SIZE: nat := 65536

  function TokenLen(t: Token): nat
  {
    if t.Literal? then 1 else 3
  }

  /** The bytes of the first `k` tokens, flags not counted. */
  ghost function Bytes(ts: seq<Token>, k: nat): nat
    requires k <= |ts|
  {
    if k == 0 then 0 else Bytes(ts, k - 1) + TokenLen(ts[k - 1])
  }

  /** Where token `k` stands, behind the flags of its group. */
  ghost function Off(ts: seq<Token>, k: nat): nat
    requires k <= |ts|
  {
    Bytes(ts, k) + k / 8 + 1
  }

  ghost function FlagBits(ts: seq<Token>): nat
  {
    if ts == [] then 0 else (if ts[0].Match? then 1 else 0) + 2 * FlagBits(ts[1..])
  }

  ghost function Group(ts: seq<Token>, g: nat): (r: seq<Token>)
    requires 8 * g <= |ts|
    ensures |r| == if |ts| < 8 * g + 8 then |ts| - 8 * g else 8
  {
    ts[8 * g..if |ts| < 8 * g + 8 then |ts| else 8 * g + 8]
  }

  function Word(lo: int, hi: int): int
  {
    lo + 256 * hi
  }

  ghost predicate TokenAt(c: seq<byte>, at: nat, t: Token)
  {
    at + TokenLen(t) <= |c| &&
    match t
    case Literal(b) => c[at] == b
    case Match(len, d) => len == c[at] as int + MIN_MATCH && d == Word(c[at + 1], c[at + 2]) + 1
  }

  ghost predicate TokensAt(c: seq<byte>, ts: seq<Token>)
  {
    forall k :: 0 <= k < |ts| ==> TokenAt(c, Off(ts, k), ts[k])
  }

  /** The flags of group `g` are complete. */
  ghost predicate FlagsAt(c: seq<byte>, ts: seq<Token>, g: nat)
    requires 8 * g <= |ts|
  {
    Off(ts, 8 * g) <= |c| && c[Off(ts, 8 * g) - 1] == FlagBits(Group(ts, g))
  }

  /** A finished buffer: tokens and flags in place. */
  ghost predicate Sealed(c: seq<byte>, ts: seq<Token>)
  {
    TokensAt(c, ts) && forall g {:trigger FlagsAt(c, ts, g)} :: 0 <= g && 8 * g < |ts| ==> FlagsAt(c, ts, g)
  }

  // ------------------------------------------------------------------ offsets

  lemma {:induction false} BytesPrefix(ts: seq<Token>, t: Token, k: nat)
    requires k <= |ts|
    ensures Bytes(ts + [t], k) == Bytes(ts, k)
  {
    if k == 0 {
    } else {
      BytesPrefix(ts, t, k - 1);
    }
  }

  lemma {:induction false} BytesMono(ts: seq<Token>, k: nat, j: nat)
    requires k < j <= |ts|
    ensures Bytes(ts, k) + TokenLen(ts[k]) <= Bytes(ts, j)
    decreases j - k
  {
    if k + 1 == j {
    } else {
      BytesMono(ts, k, j - 1);
    }
  }

  lemma {:induction false} BytesAtLeast(ts: seq<Token>, k: nat)
    requires k <= |ts|
    ensures k <= Bytes(ts, k) <= 3 * k
  {
    if k == 0 {
    } else {
      BytesAtLeast(ts, k - 1);
    }
  }

  /** A token lies before the flags of later groups and before later tokens. */
  lemma TokenBefore(ts: seq<Token>, k: nat, j: nat)
    requires k < j <= |ts|
    ensures Off(ts, k) + TokenLen(ts[k]) <= Off(ts, j)
    ensures j % 8 == 0 ==> Off(ts, k) + TokenLen(ts[k]) <= Off(ts, j) - 1
  {
    BytesMono(ts, k, j);
  }

  lemma {:induction false} FlagBitsSnoc(ts: seq<Token>, t: Token)
    ensures FlagBits(ts + [t]) == FlagBits(ts) + (if t.Match? then Pow2(|ts|) else 0)
  {
    if ts == [] {
      assert ts + [t] == [t];
      assert [t][1..] == [];
    } else {
      FlagBitsSnoc(ts[1..], t);
      assert (ts + [t])[1..] == ts[1..] + [t];
    }
  }

  lemma {:induction false} FlagBitsBound(ts: seq<Token>)
    ensures FlagBits(ts) < Pow2(|ts|)
  {
    if ts == [] {
    } else {
      FlagBitsBound(ts[1..]);
    }
  }

  // ---------------------------------------------------------------- frequencies

  ghost function LitSym(t: Token): nat
    requires ValidToken(t)
  {
    match t
    case Literal(b) => b
    case Match(len, d) => LenSym(len - MIN_MATCH)
  }

  ghost predicate AllValid(ts: seq<Token>)
  {
    forall i :: 0 <= i < |ts| ==> ValidToken(ts[i])
  }

  ghost function LitCount(ts: seq<Token>, s: nat): nat
    requires AllValid(ts)
  {
    if ts == [] then 0
    else LitCount(ts[..|ts| - 1], s) + (if LitSym(ts[|ts| - 1]) == s then 1 else 0)
  }

  ghost function DistCount(ts: seq<Token>, s: nat): nat
    requires AllValid(ts)
  {
    if ts == [] then 0
    else
      var t := ts[|ts| - 1];
      DistCount(ts[..|ts| - 1], s) + (if t.Match? && DistSymOf(t.dist - 1) == s then 1 else 0)
  }

  ghost predicate Counted(ts: seq<Token>, c0: seq<nat>, c1: seq<nat>)
    requires AllValid(ts)
  {
    && |c0| == LIT_CODES && |c1| == DIST_CODES
    && (forall s :: 0 <= s < LIT_CODES ==> c0[s] == LitCount(ts, s))
    && (forall s :: 0 <= s < DIST_CODES ==> c1[s] == DistCount(ts, s))
  }

  lemma SymRange(t: Token)
    requires ValidToken(t)
    ensures LitSym(t) < 286 && LitSym(t) != END_OF_BLOCK
    ensures t.Match? ==> DistSymOf(t.dist - 1) < 30
  {
    match t
    case Literal(b) =>
    case Match(len, d) =>
      LengthTables(len - MIN_MATCH);
      DistTables(d - 1);
  }

  lemma {:induction false} CountRange(ts: seq<Token>, s: nat)
    requires AllValid(ts)
    ensures LitCount(ts, s) <= |ts| && DistCount(ts, s) <= |ts|
    ensures s >= 286 || s == END_OF_BLOCK ==> LitCount(ts, s) == 0
    ensures s >= 30 ==> DistCount(ts, s) == 0
  {
    if ts == [] {
    } else {
      CountRange(ts[..|ts| - 1], s);
      SymRange(ts[|ts| - 1]);
    }
  }

  ghost function Bump(c: seq<nat>, s: nat): seq<nat>
  {
    if s < |c| then c[s := c[s] + 1] else c
  }

  lemma CountSnoc(ts: seq<Token>, t: Token, c0: seq<nat>, c1: seq<nat>)
    requires AllValid(ts) && ValidToken(t) && Counted(ts, c0, c1)
    ensures AllValid(ts + [t]) && LitSym(t) < LIT_CODES
    ensures t.Literal? ==> Counted(ts + [t], Bump(c0, LitSym(t)), c1)
    ensures t.Match? ==> DistSymOf(t.dist - 1) < DIST_CODES
    ensures t.Match? ==> Counted(ts + [t], Bump(c0, LitSym(t)), Bump(c1, DistSymOf(t.dist - 1)))
  {
    hide LenSym, DistSymOf;
    SymRange(t);
    var ts' := ts + [t];
    assert ts'[..|ts|] == ts;
    forall s: nat ensures LitCount(ts', s) == LitCount(ts, s) + (if LitSym(t) == s then 1 else 0) {}
    forall s: nat ensures DistCount(ts', s) == DistCount(ts, s)
      + (if t.Match? && DistSymOf(t.dist - 1) == s then 1 else 0) {}
  }

  /** Every symbol of a token in the buffer has a positive frequency. */
  lemma {:induction false} CountedPositive(ts: seq<Token>, i: nat)
    requires AllValid(ts) && i < |ts|
    ensures LitCount(ts, LitSym(ts[i])) > 0
    ensures ts[i].Match? ==> DistCount(ts, DistSymOf(ts[i].dist - 1)) > 0
  {
    hide LenSym, DistSymOf;
    if i == |ts| - 1 {
    } else {
      CountedPositive(ts[..|ts| - 1], i);
    }
  }

  ghost function TotalLen(ts: seq<Token>): nat
  {
    if ts == [] then 0
    else
      var t := ts[|ts| - 1];
      TotalLen(ts[..|ts| - 1]) + (if t.Literal? then 1 else t.len)
  }

  lemma TotalSnoc(ts: seq<Token>, t: Token)
    ensures TotalLen(ts + [t]) == TotalLen(ts) + (if t.Literal? then 1 else t.len)
  {
    assert (ts + [t])[..|ts|] == ts;
  }

  // ----------------------------------------------------------- the open buffer

  /** The group under construction: the flags of its `r` tokens stand in the top
      bits of the cell, whatever was there before below them. */
  ghost predicate OpenFlags(c: seq<byte>, ts: seq<Token>)
  {
    var g := |ts| / 8;
    Off(ts, 8 * g) <= |c| && Shr(c[Off(ts, 8 * g) - 1], 8 - |ts| % 8) == FlagBits(Group(ts, g))
  }

  ghost predicate OpenBuf(c: seq<byte>, ts: seq<Token>)
  {
    && TokensAt(c, ts) && OpenFlags(c, ts)
    && forall g {:trigger FlagsAt(c, ts, g)} :: 0 <= g && 8 * g + 8 <= |ts| ==> FlagsAt(c, ts, g)
  }

  lemma {:induction false} ShrAdd(x: nat, y: nat, k: nat)
    ensures Shr(x + Shl(y, k), k) == Shr(x, k) + y
  {
    if k == 0 {
    } else {
      assert (x + Shl(y, k)) / 2 == x / 2 + Shl(y, k - 1);
      ShrAdd(x / 2, y, k - 1);
    }
  }

  /** Shifting a flag into the cell. */
  lemma CellSnoc(v: nat, r: nat, g: seq<Token>, t: Token)
    requires r == |g| < 8 && Shr(v, 8 - r) == FlagBits(g)
    ensures Shr(v / 2 + (if t.Match? then 128 else 0), 7 - r) == FlagBits(g + [t])
  {
    hide FlagBits;
    FlagBitsSnoc(g, t);
    assert Shr(v, 8 - r) == Shr(v / 2, 7 - r);
    if t.Match? {
      ShlIsMul(Pow2(r), 7 - r);
      Pow2Add(r, 7 - r);
      Pow2Small();
      ShrAdd(v / 2, Pow2(r), 7 - r);
    }
  }

  ghost function Cell(ts: seq<Token>): nat
  {
    Off(ts, 8 * (|ts| / 8)) - 1
  }

  /** Buffer `c'` is `c` with token `t` appended and its flag shifted in. */
  ghost predicate Recorded(c: seq<byte>, c': seq<byte>, ts: seq<Token>, t: Token)
  {
    && |c'| == |c| && Cell(ts) < |c| && Off(ts, |ts|) <= |c|
    && TokenAt(c', Off(ts, |ts|), t)
    && (forall i :: 0 <= i < Off(ts, |ts|) && i != Cell(ts) ==> c'[i] == c[i])
    && c'[Cell(ts)] as int == c[Cell(ts)] as int / 2 + (if t.Match? then 128 else 0)
  }

  lemma OffPrefix(ts: seq<Token>, t: Token, k: nat)
    requires k <= |ts|
    ensures Off(ts + [t], k) == Off(ts, k)
  {
    BytesPrefix(ts, t, k);
  }

  lemma TokenElsewhere(c: seq<byte>, c': seq<byte>, ts: seq<Token>, t: Token, k: nat)
    requires k < |ts| && TokenAt(c, Off(ts, k), ts[k]) && Recorded(c, c', ts, t)
    ensures TokenAt(c', Off(ts, k), ts[k])
  {
    var g8 := 8 * (|ts| / 8);
    TokenBefore(ts, k, |ts|);
    if k < g8 {
      TokenBefore(ts, k, g8);
    } else if g8 < k {
      BytesMono(ts, g8, k);
    }
  }

  lemma TokensSnoc(c: seq<byte>, c': seq<byte>, ts: seq<Token>, t: Token)
    requires TokensAt(c, ts) && Recorded(c, c', ts, t)
    ensures TokensAt(c', ts + [t])
  {
    hide Off;
    var ts' := ts + [t];
    forall k | 0 <= k < |ts'| ensures TokenAt(c', Off(ts', k), ts'[k]) {
      OffPrefix(ts, t, k);
      if k < |ts| {
        assert TokenAt(c, Off(ts, k), ts[k]);
        TokenElsewhere(c, c', ts, t, k);
      }
    }
  }

  lemma BytesAtMost(ts: seq<Token>, k: nat, j: nat)
    requires k <= j <= |ts|
    ensures Bytes(ts, k) <= Bytes(ts, j)
  {
    if k < j { BytesMono(ts, k, j); }
  }

  lemma FlagsKept(c: seq<byte>, c': seq<byte>, ts: seq<Token>, t: Token, g: nat)
    requires 8 * g + 8 <= |ts| && FlagsAt(c, ts, g) && Recorded(c, c', ts, t)
    ensures FlagsAt(c', ts + [t], g)
  {
    hide FlagBits;
    OffPrefix(ts, t, 8 * g);
    assert Group(ts + [t], g) == Group(ts, g);
    var g8 := 8 * (|ts| / 8);
    BytesMono(ts, 8 * g, g8);
    BytesAtMost(ts, g8, |ts|);
  }

  lemma GroupSnoc(ts: seq<Token>, t: Token)
    ensures Group(ts + [t], |ts| / 8) == Group(ts, |ts| / 8) + [t]
  {
  }

  lemma OpenCell(c: seq<byte>, c': seq<byte>, ts: seq<Token>, t: Token)
    requires OpenFlags(c, ts) && Recorded(c, c', ts, t)
    ensures |ts| % 8 < 7 ==> OpenFlags(c', ts + [t])
    ensures |ts| % 8 == 7 ==> FlagsAt(c', ts + [t], |ts| / 8)
  {
    hide FlagBits, TokenAt, Bytes;
    var g, r := |ts| / 8, |ts| % 8;
    OffPrefix(ts, t, 8 * g);
    GroupSnoc(ts, t);
    CellSnoc(c[Cell(ts)], r, Group(ts, g), t);
    assert Shr(c'[Cell(ts)], 7 - r) == FlagBits(Group(ts + [t], g));
    if r < 7 {
      assert (|ts| + 1) / 8 == g && (|ts| + 1) % 8 == r + 1;
    }
  }

  /** Appending a token keeps the buffer open, or completes its group. */
  lemma OpenSnoc(c: seq<byte>, c': seq<byte>, ts: seq<Token>, t: Token)
    requires OpenBuf(c, ts) && Recorded(c, c', ts, t)
    ensures TokensAt(c', ts + [t])
    ensures forall g {:trigger FlagsAt(c', ts + [t], g)} :: 0 <= g && 8 * g + 8 <= |ts| ==> FlagsAt(c', ts + [t], g)
    ensures |ts| % 8 < 7 ==> OpenFlags(c', ts + [t])
    ensures |ts| % 8 == 7 ==> FlagsAt(c', ts + [t], |ts| / 8)
  {
    hide FlagsAt, TokensAt, OpenFlags, Recorded;
    TokensSnoc(c, c', ts, t);
    forall g {:trigger FlagsAt(c', ts + [t], g)} | 0 <= g && 8 * g + 8 <= |ts| ensures FlagsAt(c', ts + [t], g) {
      FlagsKept(c, c', ts, t, g);
    }
    OpenCell(c, c', ts, t);
  }

  lemma ByteShr8(v: byte)
    ensures Shr(v, 8) == 0
  {
    Pow2Small();
    ShrBound(v, 8, 0);
  }

  /** A fresh flag cell behind a completed group, whatever it holds. */
  lemma NewCell(c: seq<byte>, ts: seq<Token>)
    requires |ts| % 8 == 0 && Off(ts, |ts|) <= |c| && TokensAt(c, ts)
    requires forall g {:trigger FlagsAt(c, ts, g)} :: 0 <= g && 8 * g + 8 <= |ts| ==> FlagsAt(c, ts, g)
    ensures OpenBuf(c, ts)
  {
    assert Group(ts, |ts| / 8) == [];
    assert Off(ts, |ts|) >= 1;
    hide Bytes;
    ByteShr8(c[Off(ts, |ts|) - 1]);
  }

  lemma SealToken(c: seq<byte>, c': seq<byte>, ts: seq<Token>, k: nat)
    requires k < |ts| && TokenAt(c, Off(ts, k), ts[k]) && |c'| == |c| && 0 <= Cell(ts) < |c|
    requires c' == c[Cell(ts) := c'[Cell(ts)]]
    ensures TokenAt(c', Off(ts, k), ts[k])
  {
    hide Bytes;
    TokenBefore(ts, k, |ts|);
    var g8 := 8 * (|ts| / 8);
    if k < g8 { TokenBefore(ts, k, g8); } else if g8 < k { BytesMono(ts, g8, k); }
  }

  lemma SealFlags(c: seq<byte>, c': seq<byte>, ts: seq<Token>, g: nat)
    requires 8 * g + 8 <= |ts| && FlagsAt(c, ts, g) && |c'| == |c| && 0 <= Cell(ts) < |c|
    requires c' == c[Cell(ts) := c'[Cell(ts)]]
    ensures FlagsAt(c', ts, g)
  {
    hide Bytes, FlagBits, Group;
    BytesMono(ts, 8 * g, 8 * g + 8);
    BytesAtMost(ts, 8 * g + 8, 8 * (|ts| / 8));
  }

  lemma SealLast(c: seq<byte>, c': seq<byte>, ts: seq<Token>, g: nat)
    requires 8 * g < |ts| < 8 * g + 8 && OpenFlags(c, ts) && |c'| == |c| && 0 <= Cell(ts) < |c|
    requires c'[Cell(ts)] as int == Shr(c[Cell(ts)], 8 - |ts| % 8)
    ensures FlagsAt(c', ts, g)
  {
    hide Bytes, FlagBits, Group, Shr;
    assert g == |ts| / 8;
  }

  /** Finishing: the last cell is shifted down, an empty last group is dropped. */
  lemma Seal(c: seq<byte>, c': seq<byte>, ts: seq<Token>)
    requires OpenBuf(c, ts) && |c'| == |c| && c' == c[Cell(ts) := c'[Cell(ts)]]
    requires c'[Cell(ts)] as int == Shr(c[Cell(ts)], 8 - |ts| % 8)
    ensures Sealed(c', ts)
  {
    hide TokenAt, FlagsAt, Off;
    forall k | 0 <= k < |ts| ensures TokenAt(c', Off(ts, k), ts[k]) {
      assert TokenAt(c, Off(ts, k), ts[k]);
      SealToken(c, c', ts, k);
    }
    forall g {:trigger FlagsAt(c', ts, g)} | 0 <= g && 8 * g < |ts| ensures FlagsAt(c', ts, g) {
      if 8 * g + 8 <= |ts| {
        assert FlagsAt(c, ts, g);
        SealFlags(c, c', ts, g);
      } else {
        SealLast(c, c', ts, g);
      }
    }
  }

  // ---------------------------------------------------------------- the class

  method ClearCounts(c: array<nat>)
    modifies c
    ensures forall i :: 0 <= i < c.Length ==> c[i] == 0
  {
    var i := 0;
    while i < c.Length
      invariant 0 <= i <= c.Length && forall k :: 0 <= k < i ==> c[k] == 0
    {
      c[i] := 0;
      i := i + 1;
    }
  }

  /** The buffer length after Finish: flags only for groups that have tokens. */
  ghost function SealedLen(ts: seq<Token>): nat
  {
    Bytes(ts, |ts|) + (|ts| + 7) / 8
  }

  lemma EndOff(ts: seq<Token>)
    ensures SealedLen(ts) == Off(ts, |ts|) - (if |ts| % 8 == 0 then 1 else 0)
  {
  }

  /** The cell lies before the end, and a buffer holds fewer than 2^16 tokens:
      each takes a byte, and each group a byte of flags. */
  lemma BufferBounds(c: seq<byte>, ts: seq<Token>)
    ensures 0 <= Cell(ts) < Off(ts, |ts|)
    ensures Off(ts, |ts|) <= CODE_BUF_SIZE ==> |ts| <= 58254
  {
    BytesAtLeast(ts, |ts|);
    BytesAtMost(ts, 8 * (|ts| / 8), |ts|);
  }

  /** No 16-bit frequency wraps. */
  lemma CountRoom(ts: seq<Token>, t: Token, c0: seq<nat>, c1: seq<nat>)
    requires AllValid(ts) && ValidToken(t) && Counted(ts, c0, c1) && |ts| <= 58254
    ensures |c0| == LIT_CODES && |c1| == DIST_CODES && LitSym(t) < LIT_CODES && c0[LitSym(t)] + 1 < 65536
    ensures t.Match? ==> DistSymOf(t.dist - 1) < DIST_CODES && c1[DistSymOf(t.dist - 1)] + 1 < 65536
  {
    hide LenSym, DistSymOf;
    SymRange(t);
    CountRange(ts, LitSym(t));
    if t.Match? { CountRange(ts, DistSymOf(t.dist - 1)); }
  }

  lemma DistSymCases(d: nat)
    requires d < WINDOW
    ensures d / 256 < 128 && d % 512 < 512
    ensures DistSymOf(d) == if d < 512 then SmallDistSym(d % 512) else LargeDistSym(d / 256 % 128)
  {
    hide SmallDistSym, LargeDistSym;
  }

  lemma {:induction false} ShrSmaller(v: nat, k: nat)
    ensures Shr(v, k) <= v
  {
    if k == 0 {
    } else {
      ShrSmaller(v / 2, k - 1);
    }
  }

  lemma ShrByte(v: byte, k: nat)
    ensures Shr(v, k) < 256
  {
    ShrSmaller(v, k);
  }

  lemma RecordedLen(c: seq<byte>, c': seq<byte>, ts: seq<Token>, t: Token)
    requires Recorded(c, c', ts, t)
    ensures |c'| == |c|
  {
  }

  lemma AdvanceOff(ts: seq<Token>, t: Token)
    ensures Off(ts + [t], |ts| + 1) == Off(ts, |ts|) + TokenLen(t) + (if |ts| % 8 == 7 then 1 else 0)
    ensures Cell(ts + [t]) == if |ts| % 8 == 7 then Off(ts, |ts|) + TokenLen(t) else Cell(ts)
  {
    BytesPrefix(ts, t, |ts|);
    BytesPrefix(ts, t, 8 * (|ts| / 8));
    assert Bytes(ts + [t], |ts| + 1) == Bytes(ts, |ts|) + TokenLen(t);
    if |ts| % 8 == 7 {
      assert (|ts| + 1) / 8 == |ts| / 8 + 1 && 8 * ((|ts| + 1) / 8) == |ts| + 1;
    } else {
      assert (|ts| + 1) / 8 == |ts| / 8;
    }
  }

  /** The cursor after a token. */
  lemma Advance(c: seq<byte>, c': seq<byte>, ts: seq<Token>, t: Token)
    requires OpenBuf(c, ts) && Recorded(c, c', ts, t) && Off(ts, |ts|) + TokenLen(t) < |c|
    ensures OpenBuf(c', ts + [t])
    ensures Off(ts + [t], |ts| + 1) == Off(ts, |ts|) + TokenLen(t) + (if |ts| % 8 == 7 then 1 else 0)
    ensures Cell(ts + [t]) == if |ts| % 8 == 7 then Off(ts, |ts|) + TokenLen(t) else Cell(ts)
  {
    hide FlagsAt, TokensAt, OpenFlags, Recorded;
    OpenSnoc(c, c', ts, t);
    AdvanceOff(ts, t);
    assert |c'| == |c| by { RecordedLen(c, c', ts, t); }
    if |ts| % 8 == 7 {
      assert (|ts| + 1) / 8 == |ts| / 8 + 1;
      NewCell(c', ts + [t]);
    } else {
      assert (|ts| + 1) / 8 == |ts| / 8;
    }
  }

  class LzBuffer {
    const code: array<byte>
    const count0: array<nat>
    const count1: array<nat>
    var codePos: nat
    var flagsPos: nat
    var flagsLeft: nat
    var total: nat
    ghost var tokens: seq<Token>

    /** The cursors and the bytes. */
    ghost predicate CodeOk(ts: seq<Token>)
      reads this`codePos, this`flagsPos, this`flagsLeft, code
    {
      && code.Length == CODE_BUF_SIZE && codePos == Off(ts, |ts|) <= CODE_BUF_SIZE
      && flagsPos == Cell(ts) && flagsLeft == 8 - |ts| % 8 && OpenBuf(code[..], ts)
    }

    /** The frequencies. */
    ghost predicate CountsOk(ts: seq<Token>)
      reads count0, count1
    {
      && count0.Length == LIT_CODES && count1.Length == DIST_CODES && count0 != count1
      && AllValid(ts) && Counted(ts, count0[..], count1[..])
    }

    ghost predicate Valid()
      reads this, code, count0, count1
    {
      && CodeOk(tokens) && CountsOk(tokens) && total == TotalLen(tokens)
    }

    ghost predicate HasRoom()
      reads this
    {
      codePos <= CODE_BUF_SIZE - 8
    }

    constructor ()
      ensures Valid() && HasRoom() && tokens == [] && fresh(code) && fresh(count0) && fresh(count1)
    {
      code := new byte[CODE_BUF_SIZE](_ => 0);
      count0 := new nat[LIT_CODES](_ => 0);
      count1 := new nat[DIST_CODES](_ => 0);
      codePos, flagsPos, flagsLeft, total, tokens := 1, 0, 8, 0, [];
      new;
      NewCell(code[..], []);
    }

    /** A flag is used; behind the eighth stands a new cell. */
    method NextFlag(ghost t: Token)
      requires code.Length == CODE_BUF_SIZE && OpenBuf(code[..], tokens + [t]) && flagsPos == Cell(tokens)
      requires codePos == Off(tokens, |tokens|) + TokenLen(t) < CODE_BUF_SIZE && flagsLeft == 8 - |tokens| % 8
      requires Off(tokens + [t], |tokens| + 1) == codePos + (if |tokens| % 8 == 7 then 1 else 0)
      requires Cell(tokens + [t]) == if |tokens| % 8 == 7 then codePos else Cell(tokens)
      modifies this`codePos, this`flagsPos, this`flagsLeft
      ensures CodeOk(tokens + [t]) && codePos <= old(codePos) + 1
    {
      hide OpenBuf, Off, Cell;
      flagsLeft := flagsLeft - 1;
      if flagsLeft == 0 {
        flagsLeft := 8;
        flagsPos := codePos;
        codePos := codePos + 1;
      }
    }

    method CodeLiteral(lit: byte)
      requires CodeOk(tokens) && HasRoom()
      modifies this`codePos, this`flagsPos, this`flagsLeft, code
      ensures CodeOk(tokens + [Literal(lit)]) && |tokens| <= 58254 && codePos <= old(codePos) + 2
    {
      hide OpenBuf, Off, Cell;
      ghost var t, c := Literal(lit), code[..];
      BufferBounds(c, tokens);
      code[codePos] := lit;
      codePos := codePos + 1;
      code[flagsPos] := (code[flagsPos] as int / 2) as byte;
      Advance(c, code[..], tokens, t);
      NextFlag(t);
    }

    method CountLiteral(lit: byte)
      requires CountsOk(tokens) && |tokens| <= 58254
      modifies count0
      ensures CountsOk(tokens + [Literal(lit)])
    {
      hide Counted, AllValid;
      ghost var t := Literal(lit);
      CountRoom(tokens, t, count0[..], count1[..]);
      count0[lit] := (count0[lit] + 1) % 65536;
      CountSnoc(tokens, t, old(count0[..]), count1[..]);
      assert count0[..] == Bump(old(count0[..]), lit);
    }

    /** tdefl_record_literal. */
    method RecordLiteral(lit: byte)
      requires Valid() && HasRoom()
      modifies this, code, count0
      ensures Valid() && tokens == old(tokens) + [Literal(lit)] && codePos <= old(codePos) + 2
    {
      hide CodeOk, CountsOk, TotalLen;
      total := total + 1;
      TotalSnoc(tokens, Literal(lit));
      CodeLiteral(lit);
      CountLiteral(lit);
      tokens := tokens + [Literal(lit)];
    }

    method CodeMatch(len: nat, dist: nat)
      requires CodeOk(tokens) && codePos + 4 <= CODE_BUF_SIZE && ValidToken(Match(len, dist))
      modifies this`codePos, this`flagsPos, this`flagsLeft, code
      ensures CodeOk(tokens + [Match(len, dist)]) && |tokens| <= 58254
    {
      hide OpenBuf, Off, Cell;
      ghost var t, c := Match(len, dist), code[..];
      BufferBounds(c, tokens);
      code[codePos] := (len - MIN_MATCH) as byte;
      code[codePos + 1] := ((dist - 1) % 256) as byte;
      code[codePos + 2] := ((dist - 1) / 256) as byte;
      codePos := codePos + 3;
      code[flagsPos] := (code[flagsPos] as int / 2 + 128) as byte;
      Advance(c, code[..], tokens, t);
      NextFlag(t);
    }

    method CountMatch(len: nat, dist: nat)
      requires CountsOk(tokens) && |tokens| <= 58254 && ValidToken(Match(len, dist))
      modifies count0, count1
      ensures CountsOk(tokens + [Match(len, dist)])
    {
      hide Counted, AllValid, LenSym, DistSymOf, SmallDistSym, LargeDistSym;
      ghost var t := Match(len, dist);
      CountRoom(tokens, t, count0[..], count1[..]);
      var d := dist - 1;
      DistSymCases(d);
      var s0, s1 := SmallDistSym(d % 512), LargeDistSym(d / 256 % 128);
      var sym := if d < 512 then s0 else s1;
      count1[sym] := (count1[sym] + 1) % 65536;
      var lsym := LenSym(len - MIN_MATCH);
      count0[lsym] := (count0[lsym] + 1) % 65536;
      CountSnoc(tokens, t, old(count0[..]), old(count1[..]));
      assert count0[..] == Bump(old(count0[..]), lsym);
      assert count1[..] == Bump(old(count1[..]), sym);
    }

    /** tdefl_record_match. */
    method RecordMatch(len: nat, dist: nat)
      requires Valid() && codePos + 4 <= CODE_BUF_SIZE && ValidToken(Match(len, dist))
      modifies this, code, count0, count1
      ensures Valid() && tokens == old(tokens) + [Match(len, dist)]
    {
      hide CodeOk, CountsOk, TotalLen;
      total := total + len;
      TotalSnoc(tokens, Match(len, dist));
      CodeMatch(len, dist);
      CountMatch(len, dist);
      tokens := tokens + [Match(len, dist)];
    }

    /** What tdefl_flush_block does to the buffer before it is coded. */
    method Finish()
      requires Valid()
      modifies code, this`codePos
      ensures Sealed(code[..], tokens) && codePos == SealedLen(tokens) <= CODE_BUF_SIZE
    {
      hide Counted, OpenBuf, Off, Cell, AllValid, Sealed, SealedLen;
      ghost var c := code[..];
      BufferBounds(c, tokens);
      ShrByte(code[flagsPos], flagsLeft);
      code[flagsPos] := Shr(code[flagsPos], flagsLeft) as byte;
      Seal(c, code[..], tokens);
      EndOff(tokens);
      if flagsLeft == 8 { codePos := codePos - 1; }
    }

    /** And afterwards: an empty buffer again. */
    method Reset()
      requires code.Length == CODE_BUF_SIZE && count0.Length == LIT_CODES && count1.Length == DIST_CODES
        && count0 != count1
      modifies this, count0, count1
      ensures Valid() && HasRoom() && tokens == []
    {
      ClearCounts(count0);
      ClearCounts(count1);
      codePos, flagsPos, flagsLeft, total, tokens := 1, 0, 8, 0, [];
      NewCell(code[..], []);
    }
  }
}
