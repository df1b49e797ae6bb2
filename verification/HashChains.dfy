/**
  What the hash chains are for: they lead from a position to the earlier ones with
  the same three bytes, latest first. With them the search finds the longest
  repetition in the dictionary, as long as it is allowed enough probes.
 */
module HashChains {
  import opened Bits
  import opened Canonical
  import opened Deflate
  import opened Blocks
  import opened Dictionary
  import opened MatchSearch

  /** The latest position from `lo` on and before `hi` with hash `h`, or -1. */
  ghost function Latest(s: seq<byte>, lo: nat, hi: int, h: nat): (q: int)
    requires hi + 2 <= |s|
    ensures q == -1 || (lo <= q < hi && Hash3(s, q) == h)
    ensures forall p :: lo <= p < hi && p > q ==> Hash3(s, p) != h
    decreases hi - lo
  {
    if hi <= lo then -1
    else if Hash3(s, hi - 1) == h then hi - 1
    else Latest(s, lo, hi - 1, h)
  }

  function Half(q: int): half
  {
    if q < 0 then 0 else q % 65536
  }

  /** Every chain begins at the latest position. */
  lemma {:induction false} HeadIsLatest(s: seq<byte>, lo: nat, hi: int, h: nat)
    requires hi + 2 <= |s| && h < HASH_SIZE
    ensures EnterAll(NoChains(), s, lo, hi).hash[h] == Half(Latest(s, lo, hi, h))
    decreases hi - lo
  {
    hide Hash3;
    if hi <= lo {
    } else {
      HeadIsLatest(s, lo, hi - 1, h);
    }
  }

  /** And leads from every position still in the ring to the one before it. */
  lemma {:induction false} LinkIsEarlier(s: seq<byte>, lo: nat, hi: int, q: nat)
    requires hi + 2 <= |s| && lo <= q < hi && hi - WINDOW <= q
    ensures EnterAll(NoChains(), s, lo, hi).next[q % WINDOW] == Half(Latest(s, lo, q, Hash3(s, q)))
    decreases hi - lo
  {
    hide Hash3;
    if q == hi - 1 {
      HeadIsLatest(s, lo, q, Hash3(s, q));
    } else {
      LinkIsEarlier(s, lo, hi - 1, q);
      OtherSlot(q, hi - 1);
    }
  }

  /** How many positions from `lo` on and before `hi` have hash `h`. */
  ghost function SameHash(s: seq<byte>, lo: nat, hi: int, h: nat): nat
    requires hi + 2 <= |s|
    decreases hi - lo
  {
    if hi <= lo then 0 else SameHash(s, lo, hi - 1, h) + (if Hash3(s, hi - 1) == h then 1 else 0)
  }

  lemma {:induction false} NoneSame(s: seq<byte>, lo: nat, mid: nat, hi: int, h: nat)
    requires hi + 2 <= |s| && lo <= mid
    requires forall p :: mid <= p < hi ==> Hash3(s, p) != h
    ensures SameHash(s, lo, hi, h) == SameHash(s, lo, if hi < mid then hi else mid, h)
    decreases hi - lo
  {
    hide Hash3;
    if hi <= lo || hi <= mid {
    } else {
      NoneSame(s, lo, mid, hi - 1, h);
    }
  }

  /** The chains of a ring in which nothing was skipped. */
  ghost predicate FromChains(q: Query, floor: nat)
  {
    && Fits(q) && q.pos == q.at % WORD32 && floor + q.reach <= q.at
    && q.at + 3 <= |q.seen| <= q.at - q.reach + WINDOW
    && q.next == EnterAll(NoChains(), q.seen, floor, |q.seen| - 2).next
  }

  /** A link counts as the end of the chain when the position is a multiple of 65536. */
  ghost predicate NoZero(s: seq<byte>, lo: nat, hi: int, h: nat)
    requires hi + 2 <= |s|
  {
    forall p :: lo <= p < hi && Hash3(s, p) == h ==> p % 65536 != 0
  }

  lemma BackDistance(at: nat, p: nat)
    requires p < at && at - p <= WINDOW
    ensures (at % WORD32 + WORD32 - p % 65536) % 65536 == at - p
  {
    var a, b := at / WORD32, p / 65536;
    assert at % WORD32 + WORD32 - p % 65536 == at - p + 65536 * (65536 - 65536 * a + b);
    SixteenBits(at - p, 65536 - 65536 * a + b);
  }

  lemma HalfSlot(p: nat)
    ensures p % 65536 % WINDOW == p % WINDOW
  {
    SameSlot(p % 65536, p);
  }

  /** The link of a position in reach leads to the latest one with the same hash. */
  lemma LinkOf(q: Query, floor: nat, t: nat, p: nat)
    requires FromChains(q, floor) && floor <= p < t <= q.at && q.at - p <= q.reach
    requires p == Latest(q.seen, floor, t, Hash3(q.seen, t)) && p % 65536 != 0
    ensures Link(q, t % WINDOW) == Some(q.at - p) && q.next[t % WINDOW] % WINDOW == p % WINDOW
  {
    hide Hash3, EnterAll;
    LinkIsEarlier(q.seen, floor, |q.seen| - 2, t);
    assert q.next[t % WINDOW] == p % 65536;
    BackDistance(q.at, p);
    HalfSlot(p);
  }

  ghost predicate Nearer(c: Option<nat>, d: nat)
  {
    c.Some? && c.value <= d
  }

  lemma Here3(q: Query, floor: nat)
    requires FromChains(q, floor)
    ensures Fits(q) && q.at + 3 <= |q.seen| && q.pos == q.at % WORD32
  {
    hide EnterAll;
  }

  /** Every earlier position in reach with the same hash is a candidate; the ones before
      it are those in between. */
  lemma {:induction false} ChainReaches(q: Query, floor: nat, t: nat, p: nat) returns (i: nat)
    requires FromChains(q, floor) && floor <= p < t <= q.at && q.at - p <= q.reach
    requires Hash3(q.seen, p) == Hash3(q.seen, t) && NoZero(q.seen, p, t, Hash3(q.seen, t))
    ensures i == SameHash(q.seen, p + 1, t, Hash3(q.seen, t)) && Candidate(q, t % WINDOW, i) == Some(q.at - p)
    ensures forall j: nat :: j <= i ==> Nearer(Candidate(q, t % WINDOW, j), q.at - p)
    decreases t
  {
    hide Hash3, FromChains, Link;
    Here3(q, floor);
    var h := Hash3(q.seen, t);
    var u := Latest(q.seen, floor, t, h);
    LinkOf(q, floor, t, u);
    NoneSame(q.seen, p + 1, u + 1, t, h);
    if u == p {
      i := 0;
    } else {
      i := ChainReaches(q, floor, u, p);
      i := i + 1;
      forall j: nat | j <= i ensures Nearer(Candidate(q, t % WINDOW, j), q.at - p) {
        if j > 0 { assert Nearer(Candidate(q, u % WINDOW, j - 1), q.at - p); }
      }
    }
  }

  // ------------------------------------------------- the longest repetition

  lemma {:induction false} EarlierCandidate(q: Query, slot: nat, i: nat, v: nat)
    requires Fits(q) && slot < WINDOW && i <= v && Candidate(q, slot, v).Some?
    ensures Candidate(q, slot, i).Some?
    decreases v
  {
    hide Link;
    if i == 0 || v == 0 {
    } else {
      EarlierCandidate(q, q.next[slot] % WINDOW, i - 1, v - 1);
    }
  }

  lemma SameThree(q: Query, d: nat, n: nat)
    requires Fits(q) && Agree(q, d, n) && n >= 3
    ensures q.at + 2 < |q.seen| && Hash3(q.seen, q.at - d) == Hash3(q.seen, q.at)
  {
    hide HashStep, Xor, Shl;
    assert q.seen[q.at] == q.seen[q.at - d];
    assert q.seen[q.at + 1] == q.seen[q.at + 1 - d];
    assert q.seen[q.at + 2] == q.seen[q.at + 2 - d];
  }

  lemma SlotOfAt(q: Query, floor: nat)
    requires FromChains(q, floor)
    ensures q.pos % WINDOW == q.at % WINDOW && floor + q.reach <= q.at
  {
    hide EnterAll;
    PosSlot(q.at, 0);
  }

  /** What the search leaves out: no repetition that is longer, or as long and nearer,
      unless as many places with the same hash lie in between as it may look at, or one
      of them, or its own, is a multiple of 65536. */
  lemma {:induction false} LongestFound(q: Query, floor: nat, maxProbes: nat, len0: nat, d: nat)
    requires FromChains(q, floor) && 2 <= len0 < Ahead(q) && 1 <= d <= q.reach
    requires SameHash(q.seen, q.at - d + 1, q.at, Hash3(q.seen, q.at)) + 2 <= maxProbes
    requires NoZero(q.seen, q.at - d, q.at, Hash3(q.seen, q.at))
    ensures var (dist, len) := FindMatch(q, maxProbes, len0);
            !Agree(q, d, len + 1) && (len > len0 && Agree(q, d, len) ==> dist <= d)
  {
    hide FromChains, Hash3, Candidate, FindMatch, Link;
    Here3(q, floor);
    SlotOfAt(q, floor);
    var slot := q.pos % WINDOW;
    var (dist, len) := FindMatch(q, maxProbes, len0);
    var v := FindMatchIsBest(q, maxProbes, len0);
    if Agree(q, d, len + 1) || (len > len0 && Agree(q, d, len)) {
      SameThree(q, d, if Agree(q, d, len + 1) then len + 1 else len);
      var i := ChainReaches(q, floor, q.at, q.at - d);
      if v <= i { EarlierCandidate(q, slot, v, i); }
      assert i < v ==> Lacks(q, Candidate(q, slot, i), len + 1);
      if len > len0 {
        var i0: nat :| i0 < v && FirstWith(q, slot, i0, dist, len);
        assert i < i0 ==> Lacks(q, Candidate(q, slot, i), len);
        assert i0 <= i ==> Nearer(Candidate(q, slot, i0), d);
      }
    }
  }

  /** The ring of the parser has such chains at any time. */
  lemma RingChains(r: Ring)
    requires r.Valid() && r.Clamped() && r.Linked() && r.ahead >= 3
    ensures FromChains(Asked(r), r.floor) && Ahead(Asked(r)) == r.ahead
  {
    hide Mirrored, Holds, EnterAll;
    AskedFits(r);
  }

  lemma ZeroMultiple(p: half, k: int)
    requires p == 65536 * k
    ensures p == 0
  {
  }

  lemma WrapsToZero(pos: nat, p: half, at: nat, d: nat)
    requires pos == at % WORD32 && d <= at && (at - d) % 65536 == 0 && d == (pos + WORD32 - p) % 65536
    ensures p == 0
  {
    var a, b, c := at / WORD32, (at - d) / 65536, (pos + WORD32 - p) / 65536;
    assert at == pos + WORD32 * a && at - d == 65536 * b && pos + WORD32 - p == 65536 * c + d;
    assert p as int == 65536 * (b + 65536 - c - 65536 * a);
    ZeroMultiple(p, b + 65536 - c - 65536 * a);
  }

  /** A place at a multiple of 65536, the very first byte among them, is never found. */
  lemma {:induction false} NeverFound(q: Query, slot: nat, i: nat, d: nat)
    requires Fits(q) && slot < WINDOW && q.pos == q.at % WORD32 && d <= q.at && (q.at - d) % 65536 == 0
    ensures Candidate(q, slot, i) != Some(d)
    decreases i
  {
    if Link(q, slot) == Some(d) {
      var p := q.next[slot];
      assert false by { WrapsToZero(q.pos, p, q.at, d); }
    }
    if i == 0 || Link(q, slot).None? {
    } else {
      hide Link;
      NeverFound(q, q.next[slot] % WINDOW, i - 1, d);
    }
  }
}
