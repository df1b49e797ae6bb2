/**
  The ring of the last 32768 bytes with its mirrored beginning, the hash chains
  over it, and the search for matches. What the chains contain does not matter
  for correctness: a match is only reported after its bytes were compared.
 */
module Dictionary {
  import opened Bits
  import opened Deflate
  import opened Blocks
  import opened LzBuffer

  const DICT_LEN: nat := 33025
  const HASH_SIZE: nat := 32768
  const WORD32: nat := 0x1_0000_0000

  type half = x: int | 0 <= x < 65536

  function Xor(x: nat, y: nat): nat
    decreases x + y
  {
    if x == 0 then y
    else if y == 0 then x
    else (x % 2 + y % 2) % 2 + 2 * Xor(x / 2, y / 2)
  }

  /** ((h << 5) ^ c) & 0x7FFF */
  function HashStep(h: nat, c: nat): (r: nat)
    ensures r < HASH_SIZE
  {
    Pow2Small();
    Low(Xor(Shl(h, 5), c), 15)
  }

  lemma XorHalves(x: nat, y: nat)
    ensures Xor(x, y) / 2 == Xor(x / 2, y / 2)
    ensures Xor(x, y) % 2 == (x % 2 + y % 2) % 2
  {
  }

  /** Exclusive or, bit by bit. */
  lemma {:induction false} XorBit(x: nat, y: nat, n: nat, i: nat)
    requires i < n
    ensures ToBits(Xor(x, y), n)[i] == (ToBits(x, n)[i] != ToBits(y, n)[i])
  {
    XorHalves(x, y);
    if i == 0 {
    } else {
      XorBit(x / 2, y / 2, n - 1, i - 1);
    }
  }

  lemma LowUnfold(v: nat, n: nat)
    requires n > 0
    ensures Low(v, n) == v % 2 + 2 * Low(v / 2, n - 1)
    ensures Low(v, n) / 2 == Low(v / 2, n - 1) && Low(v, n) % 2 == v % 2
  {
  }

  lemma {:induction false} LowXor(x: nat, y: nat, n: nat)
    ensures Low(Xor(x, y), n) == Low(Xor(Low(x, n), y), n)
  {
    hide Xor;
    if n == 0 {
    } else {
      hide Low;
      XorHalves(x, y);
      XorHalves(Low(x, n), y);
      LowXor(x / 2, y / 2, n - 1);
      LowUnfold(x, n);
      LowUnfold(Xor(x, y), n);
      LowUnfold(Xor(Low(x, n), y), n);
    }
  }

  lemma {:induction false} LowShl(x: nat, k: nat, n: nat)
    ensures Low(Shl(x, k), k + n) == Shl(Low(x, n), k)
  {
    if k == 0 {
    } else {
      LowShl(x, k - 1, n);
    }
  }

  /** The three bytes at `q`, hashed from scratch. */
  function Hash3(s: seq<byte>, q: nat): (r: nat)
    requires q + 2 < |s|
    ensures r < HASH_SIZE
  {
    HashStep(Xor(Shl(s[q], 5), s[q + 1]), s[q + 2])
  }

  lemma {:induction false} LowLow(v: nat, m: nat, n: nat)
    requires n <= m
    ensures Low(Low(v, m), n) == Low(v, n)
  {
    if n == 0 {
    } else {
      hide Low;
      LowUnfold(v, m);
      LowUnfold(v, n);
      LowUnfold(Low(v, m), n);
      LowLow(v / 2, m - 1, n - 1);
    }
  }

  /** Only ten bits of the hash so far matter for the next one. */
  lemma StepLow(h: nat, c: nat)
    ensures HashStep(h, c) == HashStep(Low(h, 10), c)
  {
    hide Low, Xor, Shl;
    LowXor(Shl(h, 5), c, 15);
    LowXor(Shl(Low(h, 10), 5), c, 15);
    LowShl(h, 5, 10);
    LowShl(Low(h, 10), 5, 10);
    LowLow(h, 10, 10);
  }

  /** The low bits of a hash: the byte before last, shifted, and the last one. */
  lemma LowShifted(h: nat, b: nat, c: nat)
    requires Low(h, 5) == Low(b, 5)
    ensures Low(HashStep(h, c), 10) == Low(Xor(Shl(b, 5), c), 10)
  {
    hide Low, Xor, Shl;
    LowLow(Xor(Shl(h, 5), c), 15, 10);
    LowXor(Shl(h, 5), c, 10);
    LowXor(Shl(b, 5), c, 10);
    LowShl(h, 5, 5);
    LowShl(b, 5, 5);
  }

  lemma LowLast(a: nat, b: nat)
    ensures Low(Xor(Shl(a, 5), b), 5) == Low(b, 5)
  {
    LowXor(Shl(a, 5), b, 5);
    LowShl(a, 5, 0);
    assert Shl(0, 5) == 0;
    hide Low, Shl;
  }

  /** The rolling hash forgets all but the last two bytes. */
  ghost predicate Rolls(h: nat, s: seq<byte>)
  {
    |s| >= 2 && Low(h, 10) == Low(Xor(Shl(s[|s| - 2], 5), s[|s| - 1]), 10)
  }

  lemma StartsRolling(h: nat, s: seq<byte>)
    requires |s| >= 2 && h == Xor(Shl(s[|s| - 2], 5), s[|s| - 1])
    ensures Rolls(h, s)
  {
  }

  /** So it is the hash from scratch. */
  lemma RollingHash(h: nat, s: seq<byte>, c: byte)
    requires Rolls(h, s)
    ensures HashStep(h, c) == Hash3(s + [c], |s| - 2) && Rolls(HashStep(h, c), s + [c])
  {
    hide Low, Xor, Shl, HashStep;
    var a, b := s[|s| - 2], s[|s| - 1];
    StepLow(h, c);
    StepLow(Xor(Shl(a, 5), b), c);
    LowLow(h, 10, 5);
    LowLow(Xor(Shl(a, 5), b), 10, 5);
    LowLast(a, b);
    LowShifted(h, b, c);
  }

  /** Bytes `k..k + len` repeat the ones `d` before them, none of which lies before
      `floor`. */
  ghost predicate Repeats(s: seq<byte>, k: nat, len: nat, d: nat, floor: nat)
  {
    1 <= d && floor + d <= k && k + len <= |s| && forall i :: k <= i < k + len ==> s[i] == s[i - d]
  }

  ghost predicate Mirrored(d: seq<byte>)
  {
    |d| == DICT_LEN && forall j :: WINDOW <= j < DICT_LEN ==> d[j] == d[j - WINDOW]
  }

  /** The last `n` bytes, at most a whole ring, are where they should be. */
  ghost predicate Holds(d: seq<byte>, seen: seq<byte>, n: nat)
  {
    && |d| == DICT_LEN
    && forall q :: 0 <= q < |seen| && |seen| - n <= q && |seen| - WINDOW <= q ==> d[q % WINDOW] == seen[q]
  }

  lemma Position32(done: nat, n: nat)
    ensures (done % WORD32 + n) % WORD32 == (done + n) % WORD32
  {
  }

  lemma SliceSnoc(s: seq<byte>, at: nat, j: nat)
    requires at + j < |s|
    ensures s[at..at + j + 1] == s[at..at + j] + [s[at + j]]
  {
  }

  lemma HoldsLess(d: seq<byte>, seen: seq<byte>, n: nat, m: nat)
    requires Holds(d, seen, n) && m <= n
    ensures Holds(d, seen, m)
  {
  }

  lemma OtherSlot(q: nat, n: nat)
    requires n + 1 - WINDOW <= q < n
    ensures q % WINDOW != n % WINDOW
  {
  }

  /** The ring after one more byte. */
  lemma PutByte(d: seq<byte>, d': seq<byte>, seen: seq<byte>, n: nat, c: byte)
    requires Mirrored(d) && Holds(d, seen, n) && |d'| == DICT_LEN
    requires var at := |seen| % WINDOW;
             d' == d[at := c] || (at < 257 && d' == d[at := c][WINDOW + at := c])
    requires |seen| % WINDOW < 257 ==> d'[WINDOW + |seen| % WINDOW] == c
    ensures Mirrored(d') && Holds(d', seen + [c], n + 1)
  {
    var at := |seen| % WINDOW;
    forall j | WINDOW <= j < DICT_LEN ensures d'[j] == d'[j - WINDOW] {
      if j - WINDOW != at { assert d'[j] == d[j]; }
    }
    var s' := seen + [c];
    forall q | 0 <= q < |s'| && |s'| - (n + 1) <= q && |s'| - WINDOW <= q ensures d'[q % WINDOW] == s'[q] {
      if q < |seen| { OtherSlot(q, |seen|); }
    }
  }

  lemma ModAdd(x: nat, k: nat)
    ensures (x + WINDOW * k) % WINDOW == x % WINDOW
  {
  }

  lemma PosSlot(done: nat, ahead: nat)
    ensures (done % WORD32 + ahead) % WINDOW == (done + ahead) % WINDOW
  {
    var q := done / WORD32;
    assert done == done % WORD32 + WINDOW * (131072 * q);
    ModAdd(done % WORD32 + ahead, 131072 * q);
  }

  lemma NextSlot(n: nat)
    ensures (n % WINDOW + 1) % WINDOW == (n + 1) % WINDOW
  {
  }

  /** A byte of the ring, or of its mirror, is the byte that came in there. */
  lemma HeldByte(d: seq<byte>, seen: seq<byte>, n: nat, q: nat, at: nat)
    requires Mirrored(d) && Holds(d, seen, n) && q < |seen| && |seen| - n <= q && |seen| - WINDOW <= q
    requires at < DICT_LEN && at % WINDOW == q % WINDOW
    ensures d[at] == seen[q]
  {
    if at >= WINDOW {
      assert at % WINDOW == at - WINDOW;
    }
  }

  lemma SameSlot(x: nat, y: nat)
    requires x % 65536 == y % 65536
    ensures x % WINDOW == y % WINDOW
  {
    assert x == x % 65536 + WINDOW * (2 * (x / 65536));
    assert y == y % 65536 + WINDOW * (2 * (y / 65536));
    ModAdd(x % 65536, 2 * (x / 65536));
    ModAdd(y % 65536, 2 * (y / 65536));
  }

  lemma LowHalf(x: nat)
    ensures x % WORD32 % 65536 == x % 65536
  {
  }

  lemma SixteenBits(x: int, k: int)
    ensures (x + 65536 * k) % 65536 == x % 65536
  {
  }

  /** A place a few bytes back, from the 32-bit position. */
  lemma BackLow(done: nat, ahead: nat, k: nat)
    requires k <= done + ahead && k <= WORD32
    ensures (done % WORD32 + ahead + WORD32 - k) % WORD32 % 65536 == (done + ahead - k) % 65536
  {
    var x := done % WORD32 + ahead + WORD32 - k;
    LowHalf(x);
    var q := done / WORD32;
    assert done + ahead - k == x + 65536 * (65536 * q - 65536);
    SixteenBits(x, 65536 * q - 65536);
  }

  lemma BackSlots(done: nat, ahead: nat, k: nat)
    requires 2 <= k <= done + ahead && k <= WORD32
    ensures var ins, q := (done % WORD32 + ahead + WORD32 - k) % WORD32, done + ahead - k;
            ins % 65536 == q % 65536 && ins % WINDOW == q % WINDOW && (ins + 1) % WINDOW == (q + 1) % WINDOW
  {
    var ins, q := (done % WORD32 + ahead + WORD32 - k) % WORD32, done + ahead - k;
    BackLow(done, ahead, k);
    SameSlot(ins, q);
    NextSlot(ins);
    NextSlot(q);
  }

  lemma NextHalf(x: nat)
    ensures (x + 1) % 65536 == (x % 65536 + 1) % 65536
  {
    SixteenBits(x % 65536 + 1, x / 65536);
  }

  lemma NextIns(ins: nat, q: nat)
    requires ins % 65536 == q % 65536
    ensures (ins + 1) % WORD32 % 65536 == (q + 1) % 65536
  {
    LowHalf(ins + 1);
    NextHalf(ins);
    NextHalf(q);
  }

  // -------------------------------------------------------------- hash chains

  /** Where every place leads back to, and where every chain begins. */
  datatype Chains = Chains(next: seq<half>, hash: seq<half>)

  ghost predicate Shaped(ch: Chains)
  {
    |ch.next| == WINDOW && |ch.hash| == HASH_SIZE
  }

  ghost function NoChains(): (ch: Chains)
    ensures Shaped(ch)
  {
    Chains(Repeat(0, WINDOW), Repeat(0, HASH_SIZE))
  }

  /** The chains after position `q` is entered in front of the one of its three bytes. */
  ghost function Enter(ch: Chains, s: seq<byte>, q: nat): (r: Chains)
    requires Shaped(ch) && q + 2 < |s|
    ensures Shaped(r)
  {
    var h := Hash3(s, q);
    Chains(ch.next[q % WINDOW := ch.hash[h]], ch.hash[h := q % 65536])
  }

  /** The chains after all positions from `lo` up to `hi`. */
  ghost function EnterAll(ch: Chains, s: seq<byte>, lo: nat, hi: int): (r: Chains)
    requires Shaped(ch) && hi + 2 <= |s|
    ensures Shaped(r)
    decreases hi - lo
  {
    if hi <= lo then ch else Enter(EnterAll(ch, s, lo, hi - 1), s, hi - 1)
  }

  lemma {:induction false} EnterAllGrows(ch: Chains, s: seq<byte>, t: seq<byte>, lo: nat, hi: int)
    requires Shaped(ch) && hi + 2 <= |s|
    ensures EnterAll(ch, s + t, lo, hi) == EnterAll(ch, s, lo, hi)
    decreases hi - lo
  {
    hide HashStep;
    if hi <= lo {
    } else {
      EnterAllGrows(ch, s, t, lo, hi - 1);
    }
  }

  lemma EnterNone(ch: Chains, s: seq<byte>, lo: nat)
    requires Shaped(ch) && |s| - 2 <= lo
    ensures EnterAll(ch, s, lo, |s| - 2) == ch
  {
  }

  /** One more byte of input: the position two before it can be entered. */
  lemma EnterNext(ch: Chains, s: seq<byte>, c: byte, lo: nat)
    requires Shaped(ch) && lo <= |s|
    ensures |s| - 1 <= lo ==> EnterAll(ch, s + [c], lo, |s + [c]| - 2) == EnterAll(ch, s, lo, |s| - 2)
    ensures |s| - 1 > lo ==>
      EnterAll(ch, s + [c], lo, |s + [c]| - 2) == Enter(EnterAll(ch, s, lo, |s| - 2), s + [c], |s| - 2)
  {
    hide Enter;
    EnterAllGrows(ch, s, [c], lo, |s| - 2);
  }

  lemma {:induction false} EnterAllSplit(ch: Chains, s: seq<byte>, lo: nat, mid: nat, hi: int)
    requires Shaped(ch) && lo <= mid && mid + 2 <= |s| && hi + 2 <= |s|
    ensures EnterAll(EnterAll(ch, s, lo, mid), s, mid, hi) == EnterAll(ch, s, lo, if mid < hi then hi else mid)
    decreases hi - mid
  {
    hide Enter;
    if hi <= mid {
    } else {
      EnterAllSplit(ch, s, lo, mid, hi - 1);
    }
  }

  /** Every position since the last full flush, at byte `floor`, is in the chains, in
      order; as long as there are fewer than two bytes the dictionary begins there. */
  ghost predicate IsLinked(ch: Chains, s: seq<byte>, ahead: nat, size: nat, floor: nat)
  {
    && floor + size + ahead <= |s| && (floor + size + ahead == |s| || ahead + size >= 2)
    && ch == EnterAll(NoChains(), s, floor, |s| - 2)
  }

  /** What a refill enters follows on what is in the chains already. */
  lemma StaysLinked(ch: Chains, ch': Chains, s: seq<byte>, more: seq<byte>, ahead: nat, size: nat, floor: nat)
    requires ahead + |more| <= WINDOW
    requires IsLinked(ch, s, ahead, size, floor)
    requires ch' == EnterAll(ch, s + more, if ahead + size >= 2 then |s| - 2 else |s| - ahead - size, |s + more| - 2)
    ensures var ahead' := ahead + |more|;
            IsLinked(ch', s + more, ahead', if WINDOW - ahead' < size then WINDOW - ahead' else size, floor)
  {
    hide Enter;
    EnterAllGrows(NoChains(), s, more, floor, |s| - 2);
    if ahead + size >= 2 {
      EnterAllSplit(NoChains(), s + more, floor, |s| - 2, |s + more| - 2);
    } else {
      EnterNone(NoChains(), s, floor);
    }
  }

  class Ring {
    const dict: array<byte>
    const next: array<half>
    const hash: array<half>
    /** m_lookahead_pos, a 32-bit counter. */
    var pos: nat
    var ahead: nat
    var size: nat
    /** Every byte that ever came in; the last `ahead` of them are not parsed yet. */
    ghost var seen: seq<byte>
    /** Where the last full flush was; the dictionary does not reach back behind it. */
    ghost var floor: nat

    ghost function Done(): nat
      requires ahead <= |seen|
      reads this`ahead, this`seen
    {
      |seen| - ahead
    }

    ghost predicate Valid()
      reads this, dict
    {
      && dict.Length == DICT_LEN && next.Length == WINDOW && hash.Length == HASH_SIZE
      && next != hash
      && ahead <= |seen| && pos == Done() % WORD32 && floor + size <= Done() && size <= WINDOW
      && Mirrored(dict[..]) && Holds(dict[..], seen, ahead + size)
    }

    /** Lookahead and dictionary together fit the ring. */
    ghost predicate Clamped()
      reads this`ahead, this`size
    {
      ahead + size <= WINDOW
    }

    ghost function Links(): Chains
      reads next, hash
    {
      Chains(next[..], hash[..])
    }

    /** Every position since the last full flush is in the chains, in order. */
    ghost predicate Linked()
      reads this`ahead, this`size, this`seen, this`floor, next, hash
    {
      IsLinked(Links(), seen, ahead, size, floor)
    }

    constructor ()
      ensures Valid() && Clamped() && seen == [] && ahead == 0 && size == 0 && pos == 0 && floor == 0 && Linked()
      ensures fresh(dict) && fresh(next) && fresh(hash)
    {
      dict := new byte[DICT_LEN](_ => 0);
      next := new half[WINDOW](_ => 0);
      hash := new half[HASH_SIZE](_ => 0);
      pos, ahead, size, seen, floor := 0, 0, 0, [], 0;
    }

    /** One byte into the ring, and into the mirror of its beginning. */
    method Store(dst: nat, c: byte)
      requires Valid() && dst == |seen| % WINDOW
      modifies this`seen, this`ahead, dict
      ensures Valid() && seen == old(seen) + [c] && ahead == old(ahead) + 1
    {
      hide Holds, Mirrored;
      ghost var d := dict[..];
      dict[dst] := c;
      if dst < MAX_MATCH - 1 { dict[WINDOW + dst] := c; }
      PutByte(d, dict[..], seen, ahead + size, c);
      seen, ahead := seen + [c], ahead + 1;
    }

    /** A position enters the hash chains. */
    method Insert(ins: nat, h: nat, ghost q: nat)
      requires next.Length == WINDOW && hash.Length == HASH_SIZE && next != hash
      requires q + 2 < |seen| && ins % 65536 == q % 65536 && h == Hash3(seen, q)
      modifies next, hash
      ensures Links() == Enter(old(Links()), seen, q)
    {
      hide Hash3;
      SameSlot(ins, q);
      next[ins % WINDOW] := hash[h];
      hash[h] := ins % 65536;
    }

    /** The last bytes are still in the ring. */
    lemma LastBytes(k: nat)
      requires Valid() && 2 <= k <= ahead + size && k <= WINDOW
      ensures |seen| >= k
      ensures var ins := (pos + ahead + WORD32 - k) % WORD32;
              && ins % 65536 == (|seen| - k) % 65536
              && dict[ins % WINDOW] == seen[|seen| - k] && dict[(ins + 1) % WINDOW] == seen[|seen| - k + 1]
    {
      hide Holds, Mirrored;
      var q := |seen| - k;
      BackSlots(Done(), ahead, k);
      HeldByte(dict[..], seen, ahead + size, q, q % WINDOW);
      HeldByte(dict[..], seen, ahead + size, q + 1, (q + 1) % WINDOW);
    }

    /** One byte, and the position two before it into the chains. */
    method EnterByte(dst: nat, ins: nat, h: nat, c: byte) returns (h': nat)
      requires Valid() && dst == |seen| % WINDOW && Rolls(h, seen) && ins % 65536 == (|seen| - 2) % 65536
      modifies this`seen, this`ahead, dict, next, hash
      ensures Valid() && seen == old(seen) + [c] && ahead == old(ahead) + 1
      ensures Rolls(h', seen) && Links() == Enter(old(Links()), seen, |seen| - 3)
    {
      hide Holds, Mirrored, HashStep, Xor, Shl, Hash3, Enter;
      RollingHash(h, seen, c);
      Store(dst, c);
      h' := HashStep(h, c);
      Insert(ins, h', |seen| - 3);
    }

    /** The refill loop with a rolling hash. */
    method RefillRolling(src: seq<byte>, at: nat, n: nat)
      requires Valid() && at + n <= |src| && ahead + size >= 2
      modifies this`seen, this`ahead, dict, next, hash
      ensures Valid() && seen == old(seen) + src[at..at + n] && ahead == old(ahead) + n
      ensures Links() == EnterAll(old(Links()), seen, |old(seen)| - 2, |seen| - 2)
    {
      hide Holds, Mirrored, HashStep, Xor, Shl, Enter, EnterAll, Shaped, Rolls;
      ghost var ch, lo := Links(), |seen| - 2;
      PosSlot(Done(), ahead);
      LastBytes(2);
      EnterNone(ch, seen, lo);
      var dst: nat, ins: nat := (pos + ahead) % WINDOW, (pos + ahead + WORD32 - 2) % WORD32;
      var h := Xor(Shl(dict[ins % WINDOW], 5), dict[(ins + 1) % WINDOW]);
      StartsRolling(h, seen);
      var i := 0;
      while i < n
        invariant 0 <= i <= n && Valid() && dst == |seen| % WINDOW
        invariant seen == old(seen) + src[at..at + i] && ahead == old(ahead) + i
        invariant ins % 65536 == (|seen| - 2) % 65536 && Rolls(h, seen)
        invariant Links() == EnterAll(ch, seen, lo, |seen| - 2)
      {
        var c := src[at + i];
        NextSlot(|seen|);
        NextIns(ins, |seen| - 2);
        EnterNext(ch, seen, c, lo);
        h := EnterByte(dst, ins, h, c);
        dst, ins := (dst + 1) % WINDOW, (ins + 1) % WORD32;
        SliceSnoc(src, at, i);
        i := i + 1;
      }
    }

    /** The first bytes: a position enters as soon as its three bytes are there. */
    method EnterFirst(c: byte)
      requires Valid() && ahead + size < WINDOW
      modifies this`seen, this`ahead, dict, next, hash
      ensures Valid() && seen == old(seen) + [c] && ahead == old(ahead) + 1
      ensures Links() == if ahead + size >= 3 then Enter(old(Links()), seen, |seen| - 3) else old(Links())
    {
      hide Holds, Mirrored, HashStep, Xor, Shl, Enter;
      PosSlot(Done(), ahead);
      Store((pos + ahead) % WINDOW, c);
      if ahead + size >= MIN_MATCH {
        var ins := (pos + (ahead - 1) + WORD32 - 2) % WORD32;
        LastBytes(3);
        var h := HashStep(Xor(Shl(dict[ins % WINDOW], 5), dict[(ins + 1) % WINDOW]), c);
        Insert(ins, h, |seen| - 3);
      }
    }

    /** The refill loop at the very beginning, when there is no hash yet. */
    method RefillFirst(src: seq<byte>, at: nat) returns (n: nat)
      requires Valid() && at <= |src| && ahead <= MAX_MATCH && ahead + size < 2
      modifies this`seen, this`ahead, dict, next, hash
      ensures Valid() && n <= |src| - at && seen == old(seen) + src[at..at + n] && ahead == old(ahead) + n
      ensures n == if |src| - at < MAX_MATCH - old(ahead) then |src| - at else MAX_MATCH - old(ahead)
      ensures Links() == EnterAll(old(Links()), seen, old(Done() - size), |seen| - 2)
    {
      hide Holds, Mirrored, Enter, EnterAll, Shaped;
      ghost var ch, lo := Links(), Done() - size;
      EnterNone(ch, seen, lo);
      n := 0;
      while at + n < |src| && ahead < MAX_MATCH
        invariant n <= |src| - at && Valid()
        invariant seen == old(seen) + src[at..at + n] && ahead == old(ahead) + n <= MAX_MATCH
        invariant Links() == EnterAll(ch, seen, lo, |seen| - 2)
        decreases |src| - n
      {
        var c := src[at + n];
        EnterNext(ch, seen, c, lo);
        EnterFirst(c);
        SliceSnoc(src, at, n);
        n := n + 1;
      }
    }

    /** The dictionary gives up what the ring overwrote. */
    method Clamp()
      requires Valid() && ahead <= WINDOW
      modifies this`size
      ensures Valid() && Clamped() && size == if WINDOW - ahead < old(size) then WINDOW - ahead else old(size)
    {
      hide Mirrored, Holds;
      var most := WINDOW - ahead;
      HoldsLess(dict[..], seen, ahead + size, ahead + (if most < size then most else size));
      size := if most < size then most else size;
    }

    /** The first position that a refill enters. */
    ghost function Unentered(): nat
      requires ahead <= |seen| && floor + size <= Done()
      reads this
    {
      if ahead + size >= 2 then |seen| - 2 else Done() - size
    }

    /** Fill the lookahead. */
    method Refill(src: seq<byte>, at: nat) returns (n: nat)
      requires Valid() && at <= |src| && ahead <= MAX_MATCH
      modifies this`seen, this`ahead, this`size, dict, next, hash
      ensures Valid() && Clamped() && n <= |src| - at && seen == old(seen) + src[at..at + n] && ahead == old(ahead) + n
      ensures n == if |src| - at < MAX_MATCH - old(ahead) then |src| - at else MAX_MATCH - old(ahead)
      ensures size == (if WINDOW - ahead < old(size) then WINDOW - ahead else old(size)) && Done() == old(Done())
      ensures Links() == EnterAll(old(Links()), seen, old(Unentered()), |seen| - 2)
      ensures old(Linked()) ==> Linked()
    {
      hide Mirrored, Holds, EnterAll, IsLinked, Links;
      if ahead + size >= MIN_MATCH - 1 {
        n := if |src| - at < MAX_MATCH - ahead then |src| - at else MAX_MATCH - ahead;
        RefillRolling(src, at, n);
      } else {
        n := RefillFirst(src, at);
      }
      Clamp();
      if old(Linked()) { StaysLinked(old(Links()), Links(), old(seen), src[at..at + n], old(ahead), old(size), floor); }
    }

    /** memcpy into the ring and its mirror. */
    method StoreRun(dst: nat, src: seq<byte>, at: nat, m: nat)
      requires Valid() && at + m <= |src| && dst == |seen| % WINDOW && dst + m <= WINDOW
      modifies this`seen, this`ahead, dict
      ensures Valid() && seen == old(seen) + src[at..at + m] && ahead == old(ahead) + m
      ensures |seen| % WINDOW == (dst + m) % WINDOW
    {
      hide Holds, Mirrored, Done;
      var j := 0;
      while j < m
        invariant 0 <= j <= m && Valid() && (dst + j) % WINDOW == |seen| % WINDOW
        invariant seen == old(seen) + src[at..at + j] && ahead == old(ahead) + j
      {
        NextSlot(|seen|);
        NextSlot(dst + j);
        Store(dst + j, src[at + j]);
        SliceSnoc(src, at, j);
        j := j + 1;
      }
    }

    /** The refill of the fast parser: runs up to the end of the ring. */
    method RefillRuns(src: seq<byte>, at: nat, n: nat)
      requires Valid() && at + n <= |src| && ahead + n <= WINDOW
      modifies this`seen, this`ahead, this`size, dict
      ensures Valid() && Clamped() && seen == old(seen) + src[at..at + n] && ahead == old(ahead) + n
      ensures Done() == old(Done()) && size == if WINDOW - ahead < old(size) then WINDOW - ahead else old(size)
    {
      hide Holds, Mirrored;
      PosSlot(Done(), ahead);
      var dst, left, i := (pos + ahead) % WINDOW, n, at;
      while left > 0
        invariant 0 <= left <= n && i == at + n - left && Valid() && dst == |seen| % WINDOW
        invariant seen == old(seen) + src[at..i] && ahead == old(ahead) + (n - left) && size == old(size)
      {
        var m := if WINDOW - dst < left then WINDOW - dst else left;
        StoreRun(dst, src, i, m);
        assert src[at..i + m] == src[at..i] + src[i..i + m];
        dst, left, i := (dst + m) % WINDOW, left - m, i + m;
      }
      Clamp();
    }

    /** A full flush: no later match reaches back. */
    method Forget()
      requires Valid()
      modifies this`size, this`floor, next, hash
      ensures Valid() && size == 0 && floor == Done() && Links() == NoChains() && (ahead <= 2 ==> Linked())
    {
      hide Mirrored, Holds;
      for i := 0 to WINDOW
        invariant Valid() && forall j :: 0 <= j < i ==> next[j] == 0 && hash[j] == 0
      {
        next[i] := 0;
        hash[i] := 0;
      }
      HoldsLess(dict[..], seen, ahead + size, ahead);
      size, floor := 0, Done();
    }

    /** Move the lookahead forward. */
    method Advance(len: nat)
      requires Valid() && Clamped() && len <= ahead
      modifies this`pos, this`ahead, this`size
      ensures Valid() && Clamped() && ahead == old(ahead) - len && Done() == old(Done()) + len
      ensures size == if old(size) + len < WINDOW then old(size) + len else WINDOW
      ensures old(Linked()) ==> Linked()
    {
      hide Mirrored, Holds, EnterAll;
      Position32(Done(), len);
      HoldsLess(dict[..], seen, ahead + size, ahead - len + if size + len < WINDOW then size + len else WINDOW);
      pos := (pos + len) % WORD32;
      ahead := ahead - len;
      size := if size + len < WINDOW then size + len else WINDOW;
    }
  }

  // --------------------------------------------------- what the ring holds

  lemma ModAddInt(x: int, k: int)
    ensures (x + WINDOW * k) % WINDOW == x % WINDOW
  {
  }

  lemma SlotPlus(q: nat, j: nat)
    ensures (q % WINDOW + j) % WINDOW == (q + j) % WINDOW
  {
    assert q == q % WINDOW + WINDOW * (q / WINDOW);
    ModAdd(q % WINDOW + j, q / WINDOW);
  }

  lemma Here(r: Ring)
    requires r.Valid()
    ensures r.pos % WINDOW == r.Done() % WINDOW
  {
    hide Mirrored, Holds;
    PosSlot(r.Done(), 0);
  }

  /** The byte at the beginning of the lookahead, as the parsers read it. */
  lemma HereByte(r: Ring)
    requires r.Valid() && r.Clamped() && r.ahead > 0
    ensures r.dict[r.pos % WINDOW] == r.seen[r.Done()]
  {
    hide Mirrored, Holds;
    Here(r);
    HeldByte(r.dict[..], r.seen, r.ahead + r.size, r.Done(), r.pos % WINDOW);
  }
}
