/**
  What the parsers keep true: the recorded tokens stand for exactly the bytes
  consumed so far, one byte less while a match waits for a better one.
 */
module Parsing {
  import opened Bits
  import opened Deflate
  import opened Blocks
  import opened Stream
  import opened LzBuffer
  import opened BlockWriter
  import opened Dictionary

  /** Every match refers to bytes that are there, none of them before `floor`. */
  ghost predicate ReachesFrom(out: seq<byte>, ts: seq<Token>, floor: nat)
    decreases |ts|
  {
    ts == [] ||
    var n := |ts| - 1;
    && ReachesFrom(out, ts[..n], floor)
    && ValidToken(ts[n])
    && (ts[n].Match? ==> floor + ts[n].dist <= |Expand(out, ts[..n])|)
  }

  lemma {:induction false} FromReaches(out: seq<byte>, ts: seq<Token>, floor: nat)
    requires ReachesFrom(out, ts, floor)
    ensures Reaches(out, ts)
    decreases |ts|
  {
    hide Expand;
    if ts == [] {
    } else {
      FromReaches(out, ts[..|ts| - 1], floor);
    }
  }

  /** `ts`, read behind `out`, stand for the bytes up to `k`, and do not reach back
      behind `floor`. */
  ghost predicate Parsed(out: seq<byte>, ts: seq<Token>, seen: seq<byte>, k: nat, floor: nat)
  {
    k <= |seen| && ReachesFrom(out, ts, floor) && Expand(out, ts) == seen[..k]
  }

  lemma {:induction false} CopyRepeats(seen: seq<byte>, k: nat, len: nat, d: nat, floor: nat)
    requires Repeats(seen, k, len, d, floor)
    ensures CopyOut(seen[..k], len, d) == seen[..k + len]
    decreases len
  {
    if len == 0 {
    } else {
      assert seen[..k] + [seen[..k][k - d]] == seen[..k + 1];
      CopyRepeats(seen, k + 1, len - 1, d, floor);
    }
  }

  lemma ParsedLiteral(out: seq<byte>, ts: seq<Token>, seen: seq<byte>, k: nat, floor: nat)
    requires Parsed(out, ts, seen, k, floor) && k < |seen|
    ensures Parsed(out, ts + [Literal(seen[k])], seen, k + 1, floor)
  {
    var ts' := ts + [Literal(seen[k])];
    assert ts'[..|ts|] == ts;
    assert seen[..k] + [seen[k]] == seen[..k + 1];
  }

  /** The blocks from number `head` on do not reach back behind `floor`. */
  ghost predicate BodyFrom(out: seq<byte>, b: Body, floor: nat)
  {
    b.Stored? || ReachesFrom(out, b.tokens, floor)
  }

  ghost predicate BlocksFrom(bs: seq<Block>, head: nat, floor: nat)
  {
    forall i :: head <= i < |bs| ==> BodyFrom(BlocksOut(bs[..i]), bs[i].body, floor)
  }

  lemma FromSnoc(bs: seq<Block>, b: Block, head: nat, floor: nat)
    requires BlocksFrom(bs, head, floor) && BodyFrom(BlocksOut(bs), b.body, floor)
    ensures BlocksFrom(bs + [b], head, floor)
  {
    hide BodyFrom, BlocksOut;
    var bs' := bs + [b];
    forall i | head <= i < |bs'| ensures BodyFrom(BlocksOut(bs'[..i]), bs'[i].body, floor) {
      if i < |bs| { assert bs'[..i] == bs[..i]; } else { assert bs'[..i] == bs; }
    }
  }

  lemma RepeatsBounds(seen: seq<byte>, k: nat, len: nat, d: nat, floor: nat)
    requires Repeats(seen, k, len, d, floor)
    ensures 1 <= d && floor + d <= k && k + len <= |seen|
  {
  }

  lemma ParsedMatch(out: seq<byte>, ts: seq<Token>, seen: seq<byte>, k: nat, len: nat, d: nat, floor: nat)
    requires Parsed(out, ts, seen, k, floor) && Repeats(seen, k, len, d, floor) && ValidToken(Match(len, d))
    ensures Parsed(out, ts + [Match(len, d)], seen, k + len, floor)
  {
    hide CopyOut, Repeats;
    var ts' := ts + [Match(len, d)];
    assert ts'[..|ts|] == ts;
    CopyRepeats(seen, k, len, d, floor);
    RepeatsBounds(seen, k, len, d, floor);
  }

  /** More input does not disturb what was parsed. */
  lemma ParsedGrows(out: seq<byte>, ts: seq<Token>, seen: seq<byte>, more: seq<byte>, k: nat, floor: nat)
    requires Parsed(out, ts, seen, k, floor)
    ensures Parsed(out, ts, seen + more, k, floor)
  {
    assert (seen + more)[..k] == seen[..k];
  }

  lemma RepeatsGrows(seen: seq<byte>, more: seq<byte>, k: nat, len: nat, d: nat, floor: nat)
    requires Repeats(seen, k, len, d, floor)
    ensures Repeats(seen + more, k, len, d, floor)
  {
  }

  /** A block boundary: the same bytes, no tokens. */
  lemma ParsedNone(out: seq<byte>, ts: seq<Token>, seen: seq<byte>, k: nat, floor: nat)
    requires Parsed(out, ts, seen, k, floor)
    ensures Parsed(Expand(out, ts), [], seen, k, floor)
  {
  }

  lemma {:induction false} ExpandLen(out: seq<byte>, ts: seq<Token>)
    requires Reaches(out, ts)
    ensures |Expand(out, ts)| == |out| + TotalLen(ts)
    decreases |ts|
  {
    hide CopyOut;
    if ts == [] {
    } else {
      var n := |ts| - 1;
      ExpandLen(out, ts[..n]);
      match ts[n]
      case Literal(_) =>
      case Match(len, d) => CopyLen(Expand(out, ts[..n]), len, d);
    }
  }

  lemma {:induction false} TotalBound(ts: seq<Token>)
    requires AllValid(ts)
    ensures TotalLen(ts) <= 258 * |ts|
  {
    if ts == [] {
    } else {
      TotalBound(ts[..|ts| - 1]);
    }
  }

  lemma Join(out: seq<byte>, seen: seq<byte>, k: nat)
    requires |out| <= k <= |seen| && out <= seen[..k]
    ensures out + seen[|out|..k] == seen[..k]
  {
  }

  /** Bytes still in the dictionary, read by position. */
  lemma RingSlice(r: Ring, from: nat, dictPos: nat, n: nat)
    requires r.Valid() && r.Clamped() && r.Done() - r.size <= from && from + n <= |r.seen| && dictPos == from % WORD32
    ensures DictBytes(r.dict[..], dictPos, n) == r.seen[from..from + n]
  {
    hide Mirrored, Holds;
    var b := DictBytes(r.dict[..], dictPos, n);
    forall i | 0 <= i < n ensures b[i] == r.seen[from..from + n][i] {
      PosSlot(from, i);
      HeldByte(r.dict[..], r.seen, r.ahead + r.size, from + i, (dictPos + i) % WINDOW);
    }
  }

  lemma ExpandStarts(out: seq<byte>, ts: seq<Token>)
    ensures out <= Expand(out, ts)
  {
  }

  lemma Difference(a: nat, b: nat)
    requires b <= a < b + WORD32
    ensures (a % WORD32 + WORD32 - b % WORD32) % WORD32 == a - b
  {
    var x, y := a / WORD32, b / WORD32;
    assert a == WORD32 * x + a % WORD32 && b == WORD32 * y + b % WORD32;
    assert x == y || x == y + 1;
  }

  /** The 32-bit counters tell how much of the input the block holds. */
  lemma BlockSpan(r: Ring, dictPos: nat, out: seq<byte>, ts: seq<Token>, k: nat)
    requires r.Valid() && Parsed(out, ts, r.seen, k, r.floor) && k <= r.Done() <= k + 1
    requires dictPos == |out| % WORD32 && AllValid(ts) && |ts| <= 58254
    ensures (r.pos + WORD32 - dictPos) % WORD32 == TotalLen(ts) + (r.Done() - k)
  {
    hide Mirrored, Holds, TotalLen, Reaches, ReachesFrom, Expand, AllValid;
    FromReaches(out, ts, r.floor);
    ExpandLen(out, ts);
    TotalBound(ts);
    Difference(r.Done(), |out|);
    Join(out, r.seen, k);
  }

  /** The test of tdefl_flush_block for a stored block: the 32-bit counters tell
      whether the whole block is still in the dictionary. */
  lemma RawIsReady(r: Ring, dictPos: nat, out: seq<byte>, ts: seq<Token>, k: nat)
    requires r.Valid() && r.Clamped() && Parsed(out, ts, r.seen, k, r.floor) && k <= r.Done() <= k + 1
    requires dictPos == |out| % WORD32 && AllValid(ts) && |ts| <= 58254
    requires (r.pos + WORD32 - dictPos) % WORD32 <= r.size
    ensures RawReady(r.dict[..], dictPos, out, ts)
  {
    hide Mirrored, Holds, TotalLen, Reaches, ReachesFrom, Expand, AllValid;
    FromReaches(out, ts, r.floor);
    ExpandLen(out, ts);
    TotalBound(ts);
    var n := TotalLen(ts);
    Difference(r.Done(), |out|);
    assert n <= r.Done() - |out| <= r.size;
    ExpandStarts(out, ts);
    RingSlice(r, |out|, dictPos, n);
    Join(out, r.seen, k);
  }
}
