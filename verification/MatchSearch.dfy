/**
  The search for matches. What it finds is a function of the links it is handed,
  whatever they are: both forms of the search, and the one probe of the fast
  parser, are proved equal to a search over the input itself.
 */
module MatchSearch {
  import opened Bits
  import opened Canonical
  import opened Deflate
  import opened Blocks
  import opened LzBuffer
  import opened Dictionary

  /** What is asked: the links, the position, the input with the lookahead that
      starts at `at`, and how far a match may reach back. */
  datatype Query = Query(next: seq<half>, pos: nat, seen: seq<byte>, at: nat, reach: nat)

  ghost predicate Fits(q: Query)
  {
    |q.next| == WINDOW && q.reach <= q.at <= |q.seen|
  }

  ghost function Ahead(q: Query): nat
    requires Fits(q)
  {
    |q.seen| - q.at
  }

  /** The first `n` bytes of the lookahead repeat those `d` before them. */
  ghost predicate Agree(q: Query, d: nat, n: nat)
  {
    d <= q.at && q.at + n <= |q.seen| && forall i :: q.at <= i < q.at + n ==> q.seen[i] == q.seen[i - d]
  }

  ghost function CommonFrom(s: seq<byte>, i: nat, d: nat): (n: nat)
    requires d <= i <= |s|
    ensures i + n <= |s|
    decreases |s| - i
  {
    if i < |s| && s[i] == s[i - d] then 1 + CommonFrom(s, i + 1, d) else 0
  }

  /** How many bytes agree. */
  ghost function Common(q: Query, d: nat): (n: nat)
    requires Fits(q) && d <= q.at
    ensures n <= Ahead(q)
  {
    CommonFrom(q.seen, q.at, d)
  }

  /** How far back the link of a slot leads; None where the chain ends. */
  ghost function Link(q: Query, slot: nat): Option<nat>
    requires Fits(q) && slot < WINDOW
  {
    var p := q.next[slot];
    var d := (q.pos + WORD32 - p) % 65536;
    if p == 0 || d == 0 || d > q.reach then None else Some(d)
  }

  /** The distance of the i-th place that the links lead to. */
  ghost function Candidate(q: Query, slot: nat, i: nat): Option<nat>
    requires Fits(q) && slot < WINDOW
    decreases i
  {
    if Link(q, slot).None? || i == 0 then Link(q, slot) else Candidate(q, q.next[slot] % WINDOW, i - 1)
  }

  /** The two bytes that decide whether a match could become longer than `len`. */
  ghost predicate Hit(q: Query, d: nat, len: nat)
    requires Fits(q) && d <= q.at && 1 <= len < Ahead(q)
  {
    var i := q.at + len;
    q.seen[i - 1] == q.seen[i - 1 - d] && q.seen[i] == q.seen[i - d]
  }

  /** The search with `rounds` rounds, this one included, and `probes` probes left in
      this one; `len` bytes agree `dist` back already. */
  ghost function Search(q: Query, slot: nat, rounds: nat, probes: nat, dist: nat, len: nat): (nat, nat)
    requires Fits(q) && slot < WINDOW && 1 <= len < Ahead(q)
    decreases rounds, probes, 0
  {
    if probes == 0 then
      if rounds <= 1 then (dist, len) else Search(q, slot, rounds - 1, 3, dist, len)
    else
      match Link(q, slot)
      case None => (dist, len)
      case Some(d) =>
        var next := q.next[slot] % WINDOW;
        if Hit(q, d, len) then OnHit(q, next, rounds, d, dist, len)
        else Search(q, next, rounds, probes - 1, dist, len)
  }

  /** After a hit the round is over. */
  ghost function OnHit(q: Query, slot: nat, rounds: nat, d: nat, dist: nat, len: nat): (nat, nat)
    requires Fits(q) && slot < WINDOW && 1 <= len < Ahead(q) && d <= q.at
    decreases rounds, 0, 1
  {
    var n := Common(q, d);
    if n <= len then Search(q, slot, rounds, 0, dist, len)
    else if n == Ahead(q) then (d, n)
    else Search(q, slot, rounds, 0, d, n)
  }

  // ------------------------------------------------------ what it finds

  lemma {:induction false} CommonFromMeans(s: seq<byte>, i: nat, d: nat, n: nat)
    requires d <= i && i + n <= |s|
    requires forall j :: i <= j < i + n ==> s[j] == s[j - d]
    requires i + n < |s| ==> s[i + n] != s[i + n - d]
    ensures CommonFrom(s, i, d) == n
    decreases n
  {
    if n == 0 {
    } else {
      CommonFromMeans(s, i + 1, d, n - 1);
    }
  }

  lemma {:induction false} CommonFromAgrees(s: seq<byte>, i: nat, d: nat)
    requires d <= i <= |s|
    ensures var n := CommonFrom(s, i, d);
            && (forall j :: i <= j < i + n ==> s[j] == s[j - d])
            && (i + n < |s| ==> s[i + n] != s[i + n - d])
    decreases |s| - i
  {
    if i == |s| || s[i] != s[i - d] {
    } else {
      CommonFromAgrees(s, i + 1, d);
    }
  }

  /** Exactly the bytes up to there agree. */
  lemma CommonAgrees(q: Query, d: nat, n: nat)
    requires Fits(q) && d <= q.at
    ensures Agree(q, d, n) <==> n <= Common(q, d)
  {
    CommonFromAgrees(q.seen, q.at, d);
    var c := Common(q, d);
    if q.at + n <= |q.seen| && c < n { assert q.seen[q.at + c] != q.seen[q.at + c - d]; }
  }

  ghost predicate Lacks(q: Query, c: Option<nat>, n: nat)
  {
    c.Some? && !Agree(q, c.value, n)
  }

  /** None of the first `v` candidates has `n` bytes. */
  ghost predicate NoneWith(q: Query, slot: nat, v: nat, n: nat)
    requires Fits(q) && slot < WINDOW
  {
    forall i: nat :: i < v ==> Lacks(q, Candidate(q, slot, i), n)
  }

  /** The i-th candidate is the first with `n` bytes. */
  ghost predicate FirstWith(q: Query, slot: nat, i: nat, d: nat, n: nat)
    requires Fits(q) && slot < WINDOW
  {
    && Candidate(q, slot, i) == Some(d) && Agree(q, d, n)
    && NoneWith(q, slot, i, n)
  }

  /** `(d, l)` is the best of the first `v` candidates, or what was known before. */
  ghost predicate Best(q: Query, slot: nat, v: nat, dist: nat, len: nat, d: nat, l: nat)
    requires Fits(q) && slot < WINDOW
  {
    && len <= l <= Ahead(q) && (l == len ==> d == dist)
    && NoneWith(q, slot, v, l + 1)
    && (l > len ==> exists i: nat :: i < v && FirstWith(q, slot, i, d, l))
  }

  lemma NoneOneMore(q: Query, slot: nat, v: nat, n: nat)
    requires Fits(q) && slot < WINDOW && Link(q, slot).Some? && !Agree(q, Link(q, slot).value, n)
    requires NoneWith(q, q.next[slot] % WINDOW, v, n)
    ensures NoneWith(q, slot, v + 1, n)
  {
    hide Link, Agree;
    var next := q.next[slot] % WINDOW;
    forall i: nat | i < v + 1 ensures Lacks(q, Candidate(q, slot, i), n) {
      if i > 0 { assert Lacks(q, Candidate(q, next, i - 1), n); }
    }
  }

  lemma AgreeLess(q: Query, d: nat, n: nat, m: nat)
    requires Agree(q, d, m) && n <= m
    ensures Agree(q, d, n)
  {
  }

  /** A candidate in front that was passed over, or taken and then beaten. */
  lemma BestOneMore(q: Query, slot: nat, v: nat, dist: nat, len: nat, dist1: nat, len1: nat, d: nat, l: nat)
    requires Fits(q) && slot < WINDOW && Link(q, slot).Some? && !Agree(q, Link(q, slot).value, len1 + 1)
    requires (dist1 == dist && len1 == len)
          || (len < len1 && dist1 == Link(q, slot).value && Agree(q, dist1, len1))
    requires Best(q, q.next[slot] % WINDOW, v, dist1, len1, d, l)
    ensures Best(q, slot, v + 1, dist, len, d, l)
  {
    hide Link, Agree, Ahead;
    var next := q.next[slot] % WINDOW;
    var c := Link(q, slot).value;
    if Agree(q, c, l + 1) { AgreeLess(q, c, len1 + 1, l + 1); }
    NoneOneMore(q, slot, v, l + 1);
    if l > len1 {
      var i: nat :| i < v && FirstWith(q, next, i, d, l);
      if Agree(q, c, l) { AgreeLess(q, c, len1 + 1, l); }
      NoneOneMore(q, slot, i, l);
      assert Candidate(q, slot, i + 1) == Candidate(q, next, i);
      assert FirstWith(q, slot, i + 1, d, l);
    } else if l > len {
      assert FirstWith(q, slot, 0, d, l);
    }
  }

  lemma LinkReaches(q: Query, slot: nat)
    requires Fits(q) && slot < WINDOW && Link(q, slot).Some?
    ensures 1 <= Link(q, slot).value <= q.reach <= q.at
  {
  }

  lemma MissLacks(q: Query, d: nat, len: nat)
    requires Fits(q) && d <= q.at && 1 <= len < Ahead(q) && !Hit(q, d, len)
    ensures !Agree(q, d, len + 1)
  {
  }

  lemma SearchedNone(q: Query, slot: nat, dist: nat, len: nat)
    requires Fits(q) && slot < WINDOW && len <= Ahead(q)
    ensures Best(q, slot, 0, dist, len, dist, len)
  {
  }

  /** The search looks at a candidate a round at least, and gives the first of the
      longest among those it looks at. */
  lemma {:induction false} SearchBest(q: Query, slot: nat, rounds: nat, probes: nat, dist: nat, len: nat)
    returns (v: nat)
    requires Fits(q) && slot < WINDOW && 1 <= len < Ahead(q) && rounds >= 1
    ensures var (d, l) := Search(q, slot, rounds, probes, dist, len);
            && Best(q, slot, v, dist, len, d, l)
            && (v + 1 >= rounds + (if probes > 0 then 1 else 0) || l == Ahead(q) || Candidate(q, slot, v).None?)
    decreases rounds, probes
  {
    hide Link, Agree, Ahead, Best, Hit, Common;
    if probes == 0 {
      if rounds <= 1 {
        v := 0;
        SearchedNone(q, slot, dist, len);
      } else {
        v := SearchBest(q, slot, rounds - 1, 3, dist, len);
      }
    } else if Link(q, slot).None? {
      v := 0;
      SearchedNone(q, slot, dist, len);
    } else {
      var d := Link(q, slot).value;
      var next := q.next[slot] % WINDOW;
      LinkReaches(q, slot);
      var n, dist1, len1 := Common(q, d), dist, len;
      var r := Search(q, slot, rounds, probes, dist, len);
      if !Hit(q, d, len) {
        MissLacks(q, d, len);
        v := SearchBest(q, next, rounds, probes - 1, dist, len);
      } else {
        assert r == OnHit(q, next, rounds, d, dist, len);
        CommonAgrees(q, d, n);
        CommonAgrees(q, d, n + 1);
        CommonAgrees(q, d, len + 1);
        if n > len { dist1, len1 := d, n; }
        if len1 == Ahead(q) {
          v := 0;
          SearchedNone(q, next, dist1, len1);
        } else {
          v := SearchBest(q, next, rounds, 0, dist1, len1);
        }
      }
      BestOneMore(q, slot, v, dist, len, dist1, len1, r.0, r.1);
      v := v + 1;
    }
  }

  /** tdefl_find_match. */
  ghost function FindMatch(q: Query, maxProbes: nat, len0: nat): (nat, nat)
    requires Fits(q) && len0 >= 1
  {
    if Ahead(q) <= len0 then (0, len0) else Search(q, q.pos % WINDOW, maxProbes, 0, 0, len0)
  }

  /** The search looks at `v` candidates, at least all but one of those allowed unless
      the chain ends or the whole lookahead is matched. None of them agrees for more
      bytes than it reports; what it reports is the first that agrees for so many. */
  lemma {:induction false} FindMatchIsBest(q: Query, maxProbes: nat, len0: nat) returns (v: nat)
    requires Fits(q) && 1 <= len0 < Ahead(q) && maxProbes >= 1
    ensures var (dist, len) := FindMatch(q, maxProbes, len0);
            var slot := q.pos % WINDOW;
            && len0 <= len <= Ahead(q) && (len == len0 ==> dist == 0)
            && (v + 1 >= maxProbes || len == Ahead(q) || Candidate(q, slot, v).None?)
            && NoneWith(q, slot, v, len + 1)
            && (len > len0 ==> exists i: nat :: i < v && FirstWith(q, slot, i, dist, len))
  {
    hide Search, FirstWith, NoneWith, Candidate, Ahead;
    v := SearchBest(q, q.pos % WINDOW, maxProbes, 0, 0, len0);
  }

  // ------------------------------------------------------ the search in the ring

  ghost function Asked(r: Ring): Query
    requires r.ahead <= |r.seen|
    reads r, r.next
  {
    Query(r.next[..], r.pos, r.seen, r.Done(), r.size)
  }

  lemma AskedFits(r: Ring)
    requires r.Valid()
    ensures Fits(Asked(r)) && Ahead(Asked(r)) == r.ahead && Asked(r).reach == r.size && Asked(r).at == r.Done()
  {
    hide Mirrored, Holds;
  }

  /** What a search may report: nothing, or a longer repetition in reach. */
  ghost predicate Found(r: Ring, len0: nat, dist: nat, len: nat)
    requires r.ahead <= |r.seen|
    reads r
  {
    || (dist == 0 && len == len0)
    || (len0 < len <= r.ahead && dist <= r.size && Repeats(r.seen, r.Done(), len, dist, r.floor))
  }

  lemma {:induction false} CandidateReaches(q: Query, slot: nat, i: nat)
    requires Fits(q) && slot < WINDOW && Candidate(q, slot, i).Some?
    ensures 1 <= Candidate(q, slot, i).value <= q.reach
    decreases i
  {
    hide Link;
    if i == 0 || Link(q, slot).None? {
      LinkReaches(q, slot);
    } else {
      CandidateReaches(q, q.next[slot] % WINDOW, i - 1);
    }
  }

  /** What the search finds can be recorded. */
  lemma FindMatchFound(r: Ring, maxProbes: nat, len0: nat)
    requires r.Valid() && maxProbes >= 1 && len0 >= 1
    ensures Fits(Asked(r))
    ensures var (dist, len) := FindMatch(Asked(r), maxProbes, len0);
            Found(r, len0, dist, len)
  {
    hide Mirrored, Holds, Search, Candidate, NoneWith;
    AskedFits(r);
    var q := Asked(r);
    if Ahead(q) > len0 {
      var v := FindMatchIsBest(q, maxProbes, len0);
      var (dist, len) := FindMatch(q, maxProbes, len0);
      if len > len0 {
        var i: nat :| i < v && FirstWith(q, q.pos % WINDOW, i, dist, len);
        CandidateReaches(q, q.pos % WINDOW, i);
      }
    }
  }

  lemma ProbeSlot(done: nat, nextPos: nat, dist: nat)
    requires nextPos < 65536 && dist == (done % WORD32 + WORD32 - nextPos) % 65536 && dist <= done
    ensures nextPos % WINDOW == (done - dist) % WINDOW
  {
    var a := done % WORD32 + WORD32 - nextPos;
    var q := done / WORD32;
    assert done == done % WORD32 + WORD32 * q;
    var m := 2 * (a / 65536) + 131072 * q - 131072;
    assert a == 65536 * (a / 65536) + dist;
    assert done - dist == nextPos + WINDOW * m;
    ModAddInt(nextPos, m);
  }

  /** The bytes of the ring that a search compares. */
  lemma RingBytes(r: Ring, here: nat, at: nat, d: nat, j: nat)
    requires r.Valid() && r.Clamped() && d <= r.size && j < r.ahead && j < MAX_MATCH
    requires here == r.Done() % WINDOW && at == (r.Done() - d) % WINDOW
    ensures here + j < DICT_LEN && at + j < DICT_LEN && r.Done() + j < |r.seen|
    ensures r.dict[here + j] == r.seen[r.Done() + j] && r.dict[at + j] == r.seen[r.Done() + j - d]
  {
    hide Mirrored, Holds;
    SlotPlus(r.Done(), j);
    SlotPlus(r.Done() - d, j);
    HeldByte(r.dict[..], r.seen, r.ahead + r.size, r.Done() + j, here + j);
    HeldByte(r.dict[..], r.seen, r.ahead + r.size, r.Done() + j - d, at + j);
  }

  /** One step along the chain (TDEFL_PROBE without the comparison). */
  method Probe(r: Ring, probe: nat) returns (stop: bool, at: nat, dist: nat)
    requires r.Valid() && probe < WINDOW
    ensures !stop ==> dist <= r.size && at == (r.Done() - dist) % WINDOW
    ensures Fits(Asked(r))
    ensures if stop || dist == 0 then Link(Asked(r), probe) == None
            else Link(Asked(r), probe) == Some(dist) && at == Asked(r).next[probe] % WINDOW
  {
    hide Mirrored, Holds;
    AskedFits(r);
    var nextPos := r.next[probe];
    dist := (r.pos + WORD32 - nextPos) % 65536;
    stop := nextPos == 0 || dist > r.size;
    at := nextPos % WINDOW;
    if !stop { ProbeSlot(r.Done(), nextPos, dist); }
  }

  lemma WordParts(a: byte, b: byte, c: byte, d: byte)
    ensures Word(a, b) == Word(c, d) <==> a == c && b == d
  {
  }

  /** Two bytes of the ring decide a hit. */
  lemma RingHit(r: Ring, here: nat, at: nat, d: nat, len: nat)
    requires r.Valid() && r.Clamped() && d <= r.size && 1 <= len < r.ahead <= MAX_MATCH
    requires here == r.Done() % WINDOW && at == (r.Done() - d) % WINDOW
    ensures here + len < DICT_LEN && at + len < DICT_LEN && Fits(Asked(r)) && Ahead(Asked(r)) == r.ahead
    ensures Word(r.dict[at + len - 1], r.dict[at + len]) == Word(r.dict[here + len - 1], r.dict[here + len])
       <==> Hit(Asked(r), d, len)
  {
    hide Mirrored, Holds, Word;
    AskedFits(r);
    RingBytes(r, here, at, d, len - 1);
    RingBytes(r, here, at, d, len);
    WordParts(r.dict[at + len - 1], r.dict[at + len], r.dict[here + len - 1], r.dict[here + len]);
  }

  lemma SearchStops(q: Query, slot: nat, rounds: nat, probes: nat, dist: nat, len: nat)
    requires Fits(q) && slot < WINDOW && 1 <= len < Ahead(q)
    requires if probes == 0 then rounds <= 1 else Link(q, slot).None?
    ensures Search(q, slot, rounds, probes, dist, len) == (dist, len)
  {
    hide Link, Hit, Common;
  }

  lemma SearchRound(q: Query, slot: nat, rounds: nat, dist: nat, len: nat)
    requires Fits(q) && slot < WINDOW && 1 <= len < Ahead(q) && rounds > 1
    ensures Search(q, slot, rounds, 0, dist, len) == Search(q, slot, rounds - 1, 3, dist, len)
  {
    hide Link, Hit, Common;
  }

  lemma SearchLink(q: Query, slot: nat, rounds: nat, probes: nat, dist: nat, len: nat, d: nat)
    requires Fits(q) && slot < WINDOW && 1 <= len < Ahead(q) && probes > 0 && Link(q, slot) == Some(d)
    ensures d <= q.at
    ensures Search(q, slot, rounds, probes, dist, len)
         == if Hit(q, d, len) then OnHit(q, q.next[slot] % WINDOW, rounds, d, dist, len)
            else Search(q, q.next[slot] % WINDOW, rounds, probes - 1, dist, len)
  {
    LinkReaches(q, slot);
    hide Link, Hit, Common;
  }

  /** Follow the chain, three probes a round, to a place whose two deciding bytes fit. */
  method NextCandidate(r: Ring, probe0: nat, left0: nat, len: nat, c01: int, ghost best: nat)
    returns (stop: bool, left: nat, probe: nat, dist: nat)
    requires r.Valid() && r.Clamped() && probe0 < WINDOW && left0 >= 1 && 1 <= len < r.ahead <= MAX_MATCH
    requires c01 == Word(r.dict[r.pos % WINDOW + len - 1], r.dict[r.pos % WINDOW + len])
    ensures !stop ==> 1 <= left < left0 && dist <= r.size && probe == (r.Done() - dist) % WINDOW
    ensures Fits(Asked(r)) && Ahead(Asked(r)) == r.ahead && Asked(r).at == r.Done()
    ensures Search(Asked(r), probe0, left0, 0, best, len)
         == if stop || dist == 0 then (best, len) else OnHit(Asked(r), probe, left, dist, best, len)
  {
    hide Mirrored, Holds, Search, OnHit, Link, Hit, Word;
    AskedFits(r);
    Here(r);
    ghost var q, goal := Asked(r), Search(Asked(r), probe0, left0, 0, best, len);
    stop, left, probe, dist := false, left0, probe0, 0;
    while true
      invariant 1 <= left <= left0 && probe < WINDOW && Search(q, probe, left, 0, best, len) == goal
      decreases left
    {
      left := left - 1;
      if left == 0 {
        SearchStops(q, probe, 1, 0, best, len);
        return true, left, probe, dist;
      }
      SearchRound(q, probe, left + 1, best, len);
      for k := 0 to 3
        invariant probe < WINDOW && Search(q, probe, left, 3 - k, best, len) == goal
      {
        ghost var slot := probe;
        stop, probe, dist := Probe(r, probe);
        if stop {
          SearchStops(q, slot, left, 3 - k, best, len);
          return;
        }
        RingHit(r, r.pos % WINDOW, probe, dist, len);
        if dist == 0 {
          SearchStops(q, slot, left, 3 - k, best, len);
        } else {
          SearchLink(q, slot, left, 3 - k, best, len, dist);
        }
        if Word(r.dict[probe + len - 1], r.dict[probe + len]) == c01 { return; }
      }
    }
  }

  ghost predicate Same(d: seq<byte>, a: nat, b: nat, i: nat)
  {
    a + i < |d| && b + i < |d| && d[a + i] == d[b + i]
  }

  /** `n` equal bytes at two places. */
  ghost predicate Alike(d: seq<byte>, a: nat, b: nat, n: nat)
  {
    forall i: nat :: i < n ==> Same(d, a, b, i)
  }

  lemma SameBytes(d: array<byte>, a: nat, b: nat, i: nat)
    ensures Same(d[..], a, b, i) <==> a + i < d.Length && b + i < d.Length && d[a + i] == d[b + i]
  {
  }

  /** How far the ring agrees is how far the input does. */
  lemma RingCommon(r: Ring, here: nat, at: nat, d: nat, n: nat)
    requires r.Valid() && r.Clamped() && 1 <= d <= r.size && n <= MAX_MATCH
    requires here == r.Done() % WINDOW && at == (r.Done() - d) % WINDOW
    requires Alike(r.dict[..], here, at, n)
    requires n < MAX_MATCH && n < r.ahead ==> !Same(r.dict[..], here, at, n)
    ensures Fits(Asked(r))
    ensures var c := Common(Asked(r), d);
            (if c < MAX_MATCH then c else MAX_MATCH) == if n < r.ahead then n else r.ahead
  {
    hide Mirrored, Holds, Same;
    AskedFits(r);
    var q := Asked(r);
    var m := if n < r.ahead then n else r.ahead;
    forall i | r.Done() <= i < r.Done() + m ensures r.seen[i] == r.seen[i - d] {
      assert Same(r.dict[..], here, at, i - r.Done());
      SameBytes(r.dict, here, at, i - r.Done());
      RingBytes(r, here, at, d, i - r.Done());
    }
    CommonAgrees(q, d, m);
    if m < MAX_MATCH && m < r.ahead {
      SameBytes(r.dict, here, at, m);
      RingBytes(r, here, at, d, m);
      CommonAgrees(q, d, m + 1);
    }
  }

  /** How many bytes agree. */
  method CountEqual(d: array<byte>, here: nat, at: nat, max: nat) returns (n: nat)
    requires here + max <= d.Length && at + max <= d.Length
    ensures n <= max && Alike(d[..], here, at, n)
    ensures n < max ==> !Same(d[..], here, at, n)
  {
    hide Same;
    n := 0;
    while n < max
      invariant n <= max && Alike(d[..], here, at, n)
    {
      SameBytes(d, here, at, n);
      if d[here + n] != d[at + n] { break; }
      n := n + 1;
    }
  }

  /** tdefl_find_match, byte by byte. */
  method FindMatchBytes(r: Ring, maxProbes: nat, len0: nat) returns (dist: nat, len: nat)
    requires r.Valid() && r.Clamped() && r.ahead <= MAX_MATCH && maxProbes >= 1 && 1 <= len0 <= 257
    ensures Fits(Asked(r)) && (dist, len) == FindMatch(Asked(r), maxProbes, len0)
  {
    hide Mirrored, Holds, Same, Search, Word;
    Here(r);
    AskedFits(r);
    ghost var q := Asked(r);
    var here := r.pos % WINDOW;
    dist, len := 0, len0;
    var probe: nat, left: nat := here, maxProbes;
    var c01 := Word(r.dict[here + len - 1], r.dict[here + len]);
    if r.ahead <= len { return; }
    while true
      invariant 1 <= len < r.ahead && left >= 1 && probe < WINDOW
      invariant c01 == Word(r.dict[here + len - 1], r.dict[here + len])
      invariant Search(q, probe, left, 0, dist, len) == FindMatch(q, maxProbes, len0)
      decreases left
    {
      var stop, d;
      stop, left, probe, d := NextCandidate(r, probe, left, len, c01, dist);
      if stop || d == 0 { return; }
      var n := CountEqual(r.dict, here, probe, r.ahead);
      RingCommon(r, here, probe, d, n);
      if n > len {
        dist, len := d, n;
        if n == r.ahead { return; }
        c01 := Word(r.dict[here + len - 1], r.dict[here + len]);
      }
    }
  }

  /** Four words; stops at the first difference. */
  method CompareRound(d: array<byte>, here: nat, at: nat, p0: nat) returns (p: nat, same: bool)
    requires here + p0 + 10 <= d.Length && at + p0 + 10 <= d.Length && Alike(d[..], here, at, p0 + 2)
    ensures p0 + 2 <= p <= p0 + 8 && p != p0 + 3 && Alike(d[..], here, at, p)
      && (same ==> p == p0 + 8 && Alike(d[..], here, at, p + 2))
    ensures here == at ==> same
    ensures !same ==> !(Same(d[..], here, at, p) && Same(d[..], here, at, p + 1))
  {
    hide Word, Same;
    p, same := p0, true;
    for k := 0 to 4
      invariant p == p0 + 2 * k && same && Alike(d[..], here, at, p + 2)
    {
      p := p + 2;
      same := Word(d[here + p], d[here + p + 1]) == Word(d[at + p], d[at + p + 1]);
      WordParts(d[here + p], d[here + p + 1], d[at + p], d[at + p + 1]);
      SameBytes(d, here, at, p);
      SameBytes(d, here, at, p + 1);
      if !same { return; }
    }
  }

  /** Compare 16-bit words, four a round, for at most 32 rounds: where the first
      difference lies, and how many rounds were left. */
  method CompareWords(d: array<byte>, here: nat, at: nat) returns (p: nat, left: nat)
    requires here + MAX_MATCH <= d.Length && at + MAX_MATCH <= d.Length
    requires d[here] == d[at] && d[here + 1] == d[at + 1]
    ensures 2 <= p <= 256 && Alike(d[..], here, at, p) && (left == 0 ==> Alike(d[..], here, at, MAX_MATCH))
    ensures left > 0 ==> !(Same(d[..], here, at, p) && Same(d[..], here, at, p + 1))
    ensures p != 3 && (here == at ==> left == 0)
  {
    hide Same;
    SameBytes(d, here, at, 0);
    SameBytes(d, here, at, 1);
    p, left := 0, 32;
    while true
      invariant p == 8 * (32 - left) && 1 <= left <= 32 && Alike(d[..], here, at, p + 2)
      decreases left
    {
      var same;
      p, same := CompareRound(d, here, at, p);
      if !same { return; }
      left := left - 1;
      if left == 0 { return; }
    }
  }

  /** The length that follows from the comparison by words. */
  lemma WordsCommon(r: Ring, here: nat, at: nat, d: nat, p: nat, left: nat, n: nat)
    requires r.Valid() && r.Clamped() && 1 <= d <= r.size && p <= 256
    requires here == r.Done() % WINDOW && at == (r.Done() - d) % WINDOW
    requires Alike(r.dict[..], here, at, if left == 0 then MAX_MATCH else p)
    requires left > 0 ==> !(Same(r.dict[..], here, at, p) && Same(r.dict[..], here, at, p + 1))
    requires n == if left == 0 then MAX_MATCH else p + (if r.dict[here + p] == r.dict[at + p] then 1 else 0)
    ensures Fits(Asked(r))
    ensures var c := Common(Asked(r), d);
            (if c < MAX_MATCH then c else MAX_MATCH) == if n < r.ahead then n else r.ahead
  {
    hide Mirrored, Holds, Same, Common;
    SameBytes(r.dict, here, at, p);
    RingCommon(r, here, at, d, n);
  }

  /** The first two bytes already differ. */
  lemma WordDiffers(r: Ring, here: nat, at: nat, d: nat)
    requires r.Valid() && r.Clamped() && 1 <= d <= r.size && 2 <= r.ahead
    requires here == r.Done() % WINDOW && at == (r.Done() - d) % WINDOW
    requires Word(r.dict[at], r.dict[at + 1]) != Word(r.dict[here], r.dict[here + 1])
    ensures Fits(Asked(r)) && Common(Asked(r), d) < 2
  {
    hide Mirrored, Holds, Word;
    AskedFits(r);
    WordParts(r.dict[at], r.dict[at + 1], r.dict[here], r.dict[here + 1]);
    RingBytes(r, here, at, d, 0);
    RingBytes(r, here, at, d, 1);
    CommonAgrees(Asked(r), d, 2);
  }

  lemma SearchNoBetter(q: Query, slot: nat, rounds: nat, d: nat, dist: nat, len: nat)
    requires Fits(q) && slot < WINDOW && 1 <= len < Ahead(q) && d <= q.at && Common(q, d) <= len
    ensures OnHit(q, slot, rounds, d, dist, len) == Search(q, slot, rounds, 0, dist, len)
  {
    hide Search;
  }

  /** tdefl_find_match with unaligned 16-bit loads. */
  method FindMatchWords(r: Ring, maxProbes: nat, len0: nat) returns (dist: nat, len: nat)
    requires r.Valid() && r.Clamped() && r.ahead <= MAX_MATCH && maxProbes >= 1 && 1 <= len0 <= 257
    ensures Fits(Asked(r)) && (dist, len) == FindMatch(Asked(r), maxProbes, len0)
  {
    hide Mirrored, Holds, Word, Same, Search, Common;
    Here(r);
    AskedFits(r);
    ghost var q := Asked(r);
    var here := r.pos % WINDOW;
    dist, len := 0, len0;
    var probe: nat, left: nat := here, maxProbes;
    var c01, s01 := Word(r.dict[here + len - 1], r.dict[here + len]), Word(r.dict[here], r.dict[here + 1]);
    if r.ahead <= len { return; }
    while true
      invariant 1 <= len < r.ahead && left >= 1 && probe < WINDOW
      invariant c01 == Word(r.dict[here + len - 1], r.dict[here + len])
      invariant Search(q, probe, left, 0, dist, len) == FindMatch(q, maxProbes, len0)
      decreases left
    {
      var stop, d;
      stop, left, probe, d := NextCandidate(r, probe, left, len, c01, dist);
      if stop || d == 0 { return; }
      if Word(r.dict[probe], r.dict[probe + 1]) != s01 {
        WordDiffers(r, here, probe, d);
        SearchNoBetter(q, probe, left, d, dist, len);
        continue;
      }
      WordParts(r.dict[here], r.dict[here + 1], r.dict[probe], r.dict[probe + 1]);
      var p, rounds := CompareWords(r.dict, here, probe);
      var n := if rounds == 0 then MAX_MATCH else p + (if r.dict[here + p] == r.dict[probe + p] then 1 else 0);
      WordsCommon(r, here, probe, d, p, rounds, n);
      if rounds == 0 {
        dist, len := d, r.ahead;
        return;
      }
      if n > len {
        n := if r.ahead < n then r.ahead else n;
        dist, len := d, n;
        if n == r.ahead { return; }
        c01 := Word(r.dict[here + len - 1], r.dict[here + len]);
      }
    }
  }

  // ---------------------------------------------------- the other two searches

  lemma LastSlot(pos: nat, done: nat)
    requires pos % WINDOW == done % WINDOW && done >= 1
    ensures (pos % WINDOW + WINDOW - 1) % WINDOW == (done - 1) % WINDOW
  {
    assert done - 1 == done % WINDOW + WINDOW - 1 + WINDOW * (done / WINDOW - 1);
    ModAddInt(done % WINDOW + WINDOW - 1, done / WINDOW - 1);
  }

  lemma RunCommon(q: Query, n: nat, c: byte)
    requires Fits(q) && 1 <= q.at && n <= Ahead(q)
    requires forall i :: q.at - 1 <= i < q.at + n ==> q.seen[i] == c
    requires n < Ahead(q) ==> q.seen[q.at + n] != c
    ensures Common(q, 1) == n
  {
    CommonFromMeans(q.seen, q.at, 1, n);
  }

  /** The search of TDEFL_RLE_MATCHES: how often the last byte comes again. */
  method CountRun(r: Ring) returns (n: nat)
    requires r.Valid() && r.Clamped() && r.size >= 1 && r.ahead <= MAX_MATCH
    ensures Fits(Asked(r)) && n == Common(Asked(r), 1)
  {
    hide Mirrored, Holds, Common;
    AskedFits(r);
    Here(r);
    var here := r.pos % WINDOW;
    LastSlot(r.pos, r.Done());
    var c := r.dict[(here + WINDOW - 1) % WINDOW];
    HeldByte(r.dict[..], r.seen, r.ahead + r.size, r.Done() - 1, (here + WINDOW - 1) % WINDOW);
    n := 0;
    while n < r.ahead
      invariant n <= r.ahead && forall i :: r.Done() - 1 <= i < r.Done() + n ==> r.seen[i] == c
    {
      RingBytes(r, here, here, 0, n);
      if r.dict[here + n] != c { break; }
      n := n + 1;
    }
    RunCommon(Asked(r), n, c);
  }

  function Trigram(a: byte, b: byte, c: byte): nat
  {
    a as int + 256 * b as int + 65536 * c as int
  }

  lemma LowByteFirst(a: byte, x: nat, b: byte, y: nat)
    ensures a + 256 * x == b + 256 * y <==> a == b && x == y
  {
  }

  lemma SameTrigram(a: byte, b: byte, c: byte, a1: byte, b1: byte, c1: byte)
    ensures Trigram(a, b, c) == Trigram(a1, b1, c1) <==> a == a1 && b == b1 && c == c1
  {
    LowByteFirst(a, b + 256 * c, a1, b1 + 256 * c1);
    LowByteFirst(b, c, b1, c1);
  }

  /** (t ^ (t >> 17)) & 4095 */
  function FastHash(t: nat): (r: nat)
    ensures r < 4096
  {
    Pow2Small();
    assert Pow2(12) == 4096;
    Low(Xor(t, Shr(t, 17)), 12)
  }

  /** The first three bytes of the lookahead. */
  ghost function FirstThree(q: Query): nat
    requires Fits(q) && Ahead(q) >= 3
  {
    Trigram(q.seen[q.at], q.seen[q.at + 1], q.seen[q.at + 2])
  }

  /** What one place is worth to the fast parser: the bytes that agree, at most 258, if
      they are four or three not too far back, and a literal otherwise. */
  ghost function FastLength(q: Query, d: nat): nat
    requires Fits(q)
  {
    if d == 0 || d > q.reach then 1
    else
      var c := if Common(q, d) < MAX_MATCH then Common(q, d) else MAX_MATCH;
      if c > MIN_MATCH || (c == MIN_MATCH && d < 8192) then c else 1
  }

  lemma TrigramDiffers(r: Ring, here: nat, at: nat, d: nat)
    requires r.Valid() && r.Clamped() && 1 <= d <= r.size && r.ahead >= 3
    requires here == r.Done() % WINDOW && at == (r.Done() - d) % WINDOW
    requires Trigram(r.dict[at], r.dict[at + 1], r.dict[at + 2])
          != Trigram(r.dict[here], r.dict[here + 1], r.dict[here + 2])
    ensures Fits(Asked(r)) && FastLength(Asked(r), d) == 1
  {
    hide Mirrored, Holds, Trigram;
    AskedFits(r);
    SameTrigram(r.dict[at], r.dict[at + 1], r.dict[at + 2], r.dict[here], r.dict[here + 1], r.dict[here + 2]);
    RingBytes(r, here, at, d, 0);
    RingBytes(r, here, at, d, 1);
    RingBytes(r, here, at, d, 2);
    CommonAgrees(Asked(r), d, 3);
  }

  lemma RingThree(r: Ring)
    requires r.Valid() && r.Clamped() && r.ahead >= 3
    ensures Fits(Asked(r)) && Ahead(Asked(r)) == r.ahead
    ensures var here := r.pos % WINDOW;
            Trigram(r.dict[here], r.dict[here + 1], r.dict[here + 2]) == FirstThree(Asked(r))
  {
    hide Mirrored, Holds, Trigram;
    AskedFits(r);
    Here(r);
    var here := r.pos % WINDOW;
    RingBytes(r, here, here, 0, 0);
    RingBytes(r, here, here, 0, 1);
    RingBytes(r, here, here, 0, 2);
  }

  /** The one probe of the fast parser. */
  method FastProbe(r: Ring) returns (dist: nat, len: nat)
    requires r.Valid() && r.Clamped() && r.ahead >= 4
    modifies r.hash
    ensures r.Valid() && Fits(Asked(r)) && Asked(r) == old(Asked(r)) && Ahead(Asked(r)) == r.ahead
    ensures var h := FastHash(FirstThree(Asked(r)));
            && dist == (r.pos + WORD32 - old(r.hash[h])) % 65536
            && r.hash[..] == old(r.hash[..])[h := r.pos % 65536]
    ensures len == FastLength(Asked(r), dist)
  {
    hide Mirrored, Holds, Same, Trigram, FastHash, Common;
    RingThree(r);
    Here(r);
    var here := r.pos % WINDOW;
    var first := Trigram(r.dict[here], r.dict[here + 1], r.dict[here + 2]);
    var h := FastHash(first);
    var probe := r.hash[h];
    r.hash[h] := r.pos % 65536;
    dist, len := (r.pos + WORD32 - probe) % 65536, 1;
    if dist > r.size { return; }
    ProbeSlot(r.Done(), probe, dist);
    assert dist == 0 ==> probe % WINDOW == here;
    var at := probe % WINDOW;
    if Trigram(r.dict[at], r.dict[at + 1], r.dict[at + 2]) != first {
      if dist > 0 { TrigramDiffers(r, here, at, dist); }
      return;
    }
    SameTrigram(r.dict[at], r.dict[at + 1], r.dict[at + 2], r.dict[here], r.dict[here + 1], r.dict[here + 2]);
    var p, rounds := CompareWords(r.dict, here, at);
    len := p + (if r.dict[here + p] == r.dict[at + p] then 1 else 0);
    if rounds == 0 { len := if dist != 0 then MAX_MATCH else 0; }
    if dist > 0 { WordsCommon(r, here, at, dist, p, rounds, len); }
    if len < MIN_MATCH || (len == MIN_MATCH && dist >= 8192) {
      len := 1;
    } else {
      len := if r.ahead < len then r.ahead else len;
    }
  }

  /** What the fast parser takes can be recorded. */
  lemma FastLengthRepeats(r: Ring, d: nat)
    requires r.Valid() && r.ahead >= 1
    ensures Fits(Asked(r))
    ensures var len := FastLength(Asked(r), d);
            && 1 <= len <= r.ahead
            && (len > 1 ==> MIN_MATCH <= len <= MAX_MATCH && d <= r.size && Repeats(r.seen, r.Done(), len, d, r.floor))
  {
    hide Mirrored, Holds;
    AskedFits(r);
    var len := FastLength(Asked(r), d);
    if len > 1 { CommonAgrees(Asked(r), d, len); }
  }
}
