/**
  Stable two-pass radix sort of the used symbols by their 16-bit frequency.
 */
module RadixSort {
  /** One entry of the sort: a frequency and the symbol it belongs to. */
  datatype SymFreq = SymFreq(key: nat, sym: nat)

  function Digit(x: SymFreq, pass: nat): (d: nat)
    ensures d < 256
  {
    if pass == 0 then x.key % 256 else x.key / 256 % 256
  }

  /** The entries whose digit is `d`, in order. */
  ghost function Bucket(s: seq<SymFreq>, pass: nat, d: nat): (r: seq<SymFreq>)
    ensures |r| <= |s|
  {
    if s == [] then []
    else Bucket(s[..|s| - 1], pass, d) + (if Digit(s[|s| - 1], pass) == d then [s[|s| - 1]] else [])
  }

  /** The buckets of the digits below `n`, one after the other. */
  ghost function Buckets(s: seq<SymFreq>, pass: nat, n: nat): seq<SymFreq>
  {
    if n == 0 then [] else Buckets(s, pass, n - 1) + Bucket(s, pass, n - 1)
  }

  ghost predicate SortedByKey(s: seq<SymFreq>)
  {
    forall i, j :: 0 <= i < j < |s| ==> s[i].key <= s[j].key
  }

  ghost predicate SortedByDigit(s: seq<SymFreq>, pass: nat)
  {
    forall i, j :: 0 <= i < j < |s| ==> Digit(s[i], pass) <= Digit(s[j], pass)
  }

  // ----------------------------------------------- what one pass achieves

  lemma {:induction false} BucketDigits(s: seq<SymFreq>, pass: nat, d: nat)
    ensures forall x :: x in Bucket(s, pass, d) ==> Digit(x, pass) == d && x in s
  {
    if s == [] {
    } else {
      BucketDigits(s[..|s| - 1], pass, d);
    }
  }

  /** Stability: a bucket keeps the order of the other digit. */
  lemma {:induction false} BucketStable(s: seq<SymFreq>, d: nat)
    requires SortedByDigit(s, 0)
    ensures SortedByDigit(Bucket(s, 1, d), 0)
  {
    hide Digit;
    if s == [] {
    } else {
      var n := |s| - 1;
      BucketStable(s[..n], d);
      BucketDigits(s[..n], 1, d);
      var b := Bucket(s[..n], 1, d);
      forall x | x in b ensures Digit(x, 0) <= Digit(s[n], 0) {
        var i :| 0 <= i < n && s[i] == x;
      }
    }
  }

  lemma {:induction false} BucketsDigits(s: seq<SymFreq>, pass: nat, n: nat)
    ensures SortedByDigit(Buckets(s, pass, n), pass)
    ensures forall x :: x in Buckets(s, pass, n) ==> Digit(x, pass) < n
  {
    hide Bucket, Digit;
    if n == 0 {
    } else {
      BucketsDigits(s, pass, n - 1);
      BucketDigits(s, pass, n - 1);
    }
  }

  ghost function Below(s: seq<SymFreq>, pass: nat, n: nat): seq<SymFreq>
  {
    if s == [] then []
    else Below(s[..|s| - 1], pass, n) + (if Digit(s[|s| - 1], pass) < n then [s[|s| - 1]] else [])
  }

  lemma {:induction false} BelowSplit(s: seq<SymFreq>, pass: nat, n: nat)
    ensures multiset(Below(s, pass, n + 1)) == multiset(Below(s, pass, n)) + multiset(Bucket(s, pass, n))
  {
    if s == [] {
    } else {
      BelowSplit(s[..|s| - 1], pass, n);
    }
  }

  lemma {:induction false} BelowNone(s: seq<SymFreq>, pass: nat)
    ensures Below(s, pass, 0) == []
  {
    if s == [] {
    } else {
      BelowNone(s[..|s| - 1], pass);
    }
  }

  lemma {:induction false} BelowAll(s: seq<SymFreq>, pass: nat)
    ensures Below(s, pass, 256) == s
  {
    if s == [] {
    } else {
      BelowAll(s[..|s| - 1], pass);
    }
  }

  lemma {:induction false} BucketsMultiset(s: seq<SymFreq>, pass: nat, n: nat)
    ensures multiset(Buckets(s, pass, n)) == multiset(Below(s, pass, n))
  {
    hide Below, Bucket, Digit;
    if n == 0 {
      BelowNone(s, pass);
    } else {
      BucketsMultiset(s, pass, n - 1);
      BelowSplit(s, pass, n - 1);
      var a, b := Buckets(s, pass, n - 1), Bucket(s, pass, n - 1);
      assert Buckets(s, pass, n) == a + b;
      assert multiset(a + b) == multiset(a) + multiset(b);
    }
  }

  /** A pass permutes. */
  lemma PassPermutes(s: seq<SymFreq>, pass: nat)
    ensures multiset(Buckets(s, pass, 256)) == multiset(s)
    ensures |Buckets(s, pass, 256)| == |s|
  {
    BucketsMultiset(s, pass, 256);
    BelowAll(s, pass);
    assert |multiset(Buckets(s, pass, 256))| == |Buckets(s, pass, 256)|;
  }

  lemma ConcatSorted(a: seq<SymFreq>, b: seq<SymFreq>)
    requires SortedByKey(a) && SortedByKey(b)
    requires forall x, y :: x in a && y in b ==> x.key <= y.key
    ensures SortedByKey(a + b)
  {
    var all: seq<SymFreq> := a + b;
    forall i, j | 0 <= i < j < |all| ensures all[i].key <= all[j].key {
      if i < |a| <= j { assert a[i] in a && b[j - |a|] in b; }
    }
  }

  lemma SameHighDigit(b: seq<SymFreq>, d: nat)
    requires SortedByDigit(b, 0)
    requires forall x :: x in b ==> Digit(x, 1) == d && x.key < 65536
    ensures SortedByKey(b)
  {
    forall i, j | 0 <= i < j < |b| ensures b[i].key <= b[j].key {
      assert b[i] in b && b[j] in b;
      assert Digit(b[i], 0) <= Digit(b[j], 0);
    }
  }

  lemma EmptySorted()
    ensures SortedByKey([])
  {
  }

  /** Sorting by the high digit after the low one sorts by both. */
  lemma {:induction false} BothDigits(s: seq<SymFreq>, n: nat)
    requires SortedByDigit(s, 0) && forall x :: x in s ==> x.key < 65536
    ensures SortedByKey(Buckets(s, 1, n))
    ensures forall x :: x in Buckets(s, 1, n) ==> x.key < 65536 && Digit(x, 1) < n
  {
    hide Bucket, SortedByKey, SortedByDigit;
    if n > 0 {
      BothDigits(s, n - 1);
      BucketDigits(s, 1, n - 1);
      BucketStable(s, n - 1);
      SameHighDigit(Bucket(s, 1, n - 1), n - 1);
      ConcatSorted(Buckets(s, 1, n - 1), Bucket(s, 1, n - 1));
    } else {
      assert SortedByKey([]) by { EmptySorted(); }
    }
  }

  lemma OneDigit(s: seq<SymFreq>)
    requires forall x :: x in s ==> x.key < 256
    requires SortedByDigit(s, 0)
    ensures SortedByKey(s)
  {
    forall i, j | 0 <= i < j < |s| ensures s[i].key <= s[j].key {
      assert s[i] in s && s[j] in s;
    }
  }

  // ---------------------------------------------------------------- stability

  /** The entries of one frequency, in order. */
  ghost function WithKey(s: seq<SymFreq>, key: nat): seq<SymFreq>
  {
    if s == [] then []
    else WithKey(s[..|s| - 1], key) + (if s[|s| - 1].key == key then [s[|s| - 1]] else [])
  }

  lemma {:induction false} WithKeyConcat(a: seq<SymFreq>, b: seq<SymFreq>, key: nat)
    ensures WithKey(a + b, key) == WithKey(a, key) + WithKey(b, key)
    decreases |b|
  {
    if b == [] {
      assert a + b == a;
    } else {
      WithKeyConcat(a, b[..|b| - 1], key);
      assert (a + b)[..|a + b| - 1] == a + b[..|b| - 1];
    }
  }

  lemma {:induction false} WithKeyBucket(s: seq<SymFreq>, pass: nat, d: nat, key: nat)
    ensures WithKey(Bucket(s, pass, d), key) == if Digit(SymFreq(key, 0), pass) == d then WithKey(s, key) else []
  {
    if s == [] {
    } else {
      var n := |s| - 1;
      WithKeyBucket(s[..n], pass, d, key);
      assert s[n].key == key ==> Digit(s[n], pass) == Digit(SymFreq(key, 0), pass);
      WithKeyConcat(Bucket(s[..n], pass, d), if Digit(s[n], pass) == d then [s[n]] else [], key);
      assert [s[n]][..0] == [];
    }
  }

  lemma WithKeyNone(key: nat)
    ensures WithKey([], key) == []
  {
  }

  lemma {:induction false} WithKeyBuckets(s: seq<SymFreq>, pass: nat, n: nat, key: nat)
    ensures WithKey(Buckets(s, pass, n), key) == if Digit(SymFreq(key, 0), pass) < n then WithKey(s, key) else []
  {
    hide Digit, Bucket, WithKey;
    if n == 0 {
      WithKeyNone(key);
    } else {
      WithKeyBuckets(s, pass, n - 1, key);
      WithKeyBucket(s, pass, n - 1, key);
      var a, b := Buckets(s, pass, n - 1), Bucket(s, pass, n - 1);
      WithKeyConcat(a, b, key);
      assert Buckets(s, pass, n) == a + b;
      assert WithKey(s, key) + [] == WithKey(s, key) == [] + WithKey(s, key);
    }
  }

  /** A pass is stable: entries of the same frequency keep their order. */
  lemma PassStable(s: seq<SymFreq>, pass: nat)
    ensures forall key: nat :: WithKey(Buckets(s, pass, 256), key) == WithKey(s, key)
  {
    forall key: nat ensures WithKey(Buckets(s, pass, 256), key)
      == WithKey(s, key) { WithKeyBuckets(s, pass, 256, key); }
  }

  // ------------------------------------------------------------ the scatter

  lemma {:induction false} BucketGrows(s: seq<SymFreq>, pass: nat, d: nat, i: nat)
    requires i <= |s|
    ensures |Bucket(s[..i], pass, d)| <= |Bucket(s, pass, d)|
    decreases |s| - i
  {
    if i == |s| {
      assert s[..i] == s;
    } else {
      BucketGrows(s, pass, d, i + 1);
      assert s[..i + 1][..i] == s[..i];
    }
  }

  lemma BucketStep(s: seq<SymFreq>, pass: nat, d: nat, i: nat)
    requires i < |s|
    ensures Bucket(s[..i + 1], pass, d) == Bucket(s[..i], pass, d) + (if Digit(s[i], pass) == d then [s[i]] else [])
    ensures |Bucket(s[..i + 1], pass, d)| <= |Bucket(s, pass, d)|
  {
    assert s[..i + 1][..i] == s[..i];
    BucketGrows(s, pass, d, i + 1);
  }

  lemma BucketsGrow(s: seq<SymFreq>, pass: nat, n: nat)
    requires n > 0
    ensures |Buckets(s, pass, n - 1)| <= |Buckets(s, pass, n)|
    ensures Buckets(s, pass, n)[..|Buckets(s, pass, n - 1)|] == Buckets(s, pass, n - 1)
  {
    hide Bucket;
  }

  lemma FrontOfFront(s: seq<SymFreq>, a: nat, b: nat)
    requires a <= b <= |s|
    ensures s[..b][..a] == s[..a]
  {
  }

  lemma {:induction false} BucketsMono(s: seq<SymFreq>, pass: nat, a: nat, b: nat)
    requires a <= b
    ensures |Buckets(s, pass, a)| <= |Buckets(s, pass, b)|
    ensures Buckets(s, pass, b)[..|Buckets(s, pass, a)|] == Buckets(s, pass, a)
    decreases b - a
  {
    hide Buckets;
    if a == b {
    } else {
      BucketsMono(s, pass, a, b - 1);
      BucketsGrow(s, pass, b);
      FrontOfFront(Buckets(s, pass, b), |Buckets(s, pass, a)|, |Buckets(s, pass, b - 1)|);
    }
  }

  ghost predicate Offsets(s: seq<SymFreq>, pass: nat, i: nat, offs: seq<nat>)
    requires i <= |s|
  {
    |offs| == 256 &&
    forall d :: 0 <= d < 256 ==> offs[d] == |Buckets(s, pass, d)| + |Bucket(s[..i], pass, d)|
  }

  /** The entries with digit `d` seen so far stand in their slots. */
  ghost predicate Placed(s: seq<SymFreq>, pass: nat, i: nat, out: seq<SymFreq>, d: nat)
    requires i <= |s|
  {
    var base, b := |Buckets(s, pass, d)|, Bucket(s[..i], pass, d);
    base + |b| <= |out| && out[base..base + |b|] == b
  }

  ghost predicate Scattered(s: seq<SymFreq>, pass: nat, i: nat, out: seq<SymFreq>)
    requires i <= |s|
  {
    |out| >= |s| && forall d :: 0 <= d < 256 ==> Placed(s, pass, i, out, d)
  }

  lemma SlotInRange(s: seq<SymFreq>, pass: nat, d: nat)
    requires d < 256
    ensures |Buckets(s, pass, d)| + |Bucket(s, pass, d)| <= |s|
  {
    BucketsMono(s, pass, d + 1, 256);
    PassPermutes(s, pass);
  }

  lemma SlotsDisjoint(s: seq<SymFreq>, pass: nat, d: nat, e: nat)
    requires d < e < 256
    ensures |Buckets(s, pass, d)| + |Bucket(s, pass, d)| <= |Buckets(s, pass, e)|
  {
    BucketsMono(s, pass, d + 1, e);
  }

  lemma ScatterStart(s: seq<SymFreq>, pass: nat, out: seq<SymFreq>)
    requires |out| >= |s|
    ensures Scattered(s, pass, 0, out)
  {
    forall d | 0 <= d < 256 ensures Placed(s, pass, 0, out, d) {
      SlotInRange(s, pass, d);
      assert s[..0] == [];
    }
  }

  lemma PlacedStep(s: seq<SymFreq>, pass: nat, i: nat, out: seq<SymFreq>, slot: nat, d: nat)
    requires i < |s| <= |out| && d < 256 && Placed(s, pass, i, out, d)
    requires var d0 := Digit(s[i], pass); slot == |Buckets(s, pass, d0)| + |Bucket(s[..i], pass, d0)| && slot < |s|
    ensures Placed(s, pass, i + 1, out[slot := s[i]], d)
  {
    hide Bucket, Buckets;
    var d0 := Digit(s[i], pass);
    BucketStep(s, pass, d, i);
    BucketStep(s, pass, d0, i);
    SlotInRange(s, pass, d);
    var base, b := |Buckets(s, pass, d)|, Bucket(s[..i], pass, d);
    var out' := out[slot := s[i]];
    if d == d0 {
      assert out'[base..base + |b|] == out[base..base + |b|];
      assert out'[base..base + |b| + 1] == out'[base..base + |b|] + [s[i]];
    } else {
      if d < d0 { SlotsDisjoint(s, pass, d, d0); } else { SlotsDisjoint(s, pass, d0, d); }
      assert slot < base || slot >= base + |b|;
      assert out'[base..base + |b|] == out[base..base + |b|];
    }
  }

  lemma ScatterStep(s: seq<SymFreq>, pass: nat, i: nat, out: seq<SymFreq>, slot: nat)
    requires i < |s| && Scattered(s, pass, i, out)
    requires var d := Digit(s[i], pass); slot == |Buckets(s, pass, d)| + |Bucket(s[..i], pass, d)|
    ensures slot < |s| && Scattered(s, pass, i + 1, out[slot := s[i]])
  {
    hide Placed, Bucket, Buckets;
    var d0 := Digit(s[i], pass);
    BucketStep(s, pass, d0, i);
    SlotInRange(s, pass, d0);
    var out', i' := out[slot := s[i]], i + 1;
    forall d | 0 <= d < 256 ensures Placed(s, pass, i', out', d) {
      PlacedStep(s, pass, i, out, slot, d);
    }
  }

  lemma {:induction false} ScatterDone(s: seq<SymFreq>, pass: nat, out: seq<SymFreq>, n: nat)
    requires n <= 256 && Scattered(s, pass, |s|, out)
    ensures |Buckets(s, pass, n)| <= |s| && out[..|Buckets(s, pass, n)|] == Buckets(s, pass, n)
  {
    hide Bucket;
    if n == 0 {
    } else {
      ScatterDone(s, pass, out, n - 1);
      SlotInRange(s, pass, n - 1);
      assert s[..|s|] == s;
      assert Placed(s, pass, |s|, out, n - 1);
      var a, b := Buckets(s, pass, n - 1), Bucket(s, pass, n - 1);
      assert out[..|a| + |b|] == out[..|a|] + out[|a|..|a| + |b|];
    }
  }

  // ------------------------------------------------------------ the program

  /** hist[256 * pass + d]: how many entries have that digit. */
  ghost predicate Histogram(s: seq<SymFreq>, hist: seq<nat>)
  {
    |hist| == 512 &&
    forall d :: 0 <= d < 256 ==> hist[d] == |Bucket(s, 0, d)| && hist[256 + d] == |Bucket(s, 1, d)|
  }

  lemma {:induction false} AllInOneBucket(s: seq<SymFreq>)
    requires |Bucket(s, 1, 0)| == |s| && forall x :: x in s ==> x.key < 65536
    ensures forall x :: x in s ==> x.key < 256
  {
    if s == [] {
    } else {
      var n := |s| - 1;
      assert s[n] in s;
      AllInOneBucket(s[..n]);
    }
  }

  lemma HistogramEntry(s: seq<SymFreq>, hist: seq<nat>, pass: nat, d: nat)
    requires Histogram(s, hist) && pass < 2 && d < 256
    ensures |hist| == 512 && hist[256 * pass + d] == |Bucket(s, pass, d)|
  {
  }

  lemma PassHist(s: seq<SymFreq>, hist: seq<nat>, pass: nat)
    requires Histogram(s, hist) && pass < 2
    ensures |hist| == 512
    ensures forall d :: 0 <= d < 256 ==> hist[256 * pass + d] == |Bucket(s, pass, d)|
  {
  }

  lemma FirstPass(s: seq<SymFreq>, s1: seq<SymFreq>)
    requires s1 == Buckets(s, 0, 256) && forall i :: 0 <= i < |s| ==> s[i].key < 65536
    ensures multiset(s1) == multiset(s) && SortedByDigit(s1, 0) && |s1| == |s|
    ensures forall x :: x in s1 ==> x.key < 65536
  {
    hide Buckets, Bucket;
    PassPermutes(s, 0);
    BucketsDigits(s, 0, 256);
    forall x | x in s1 ensures x.key < 65536 {
      assert x in multiset(s1);
      assert x in s;
    }
  }

  lemma LowKeysOnly(s: seq<SymFreq>, s1: seq<SymFreq>)
    requires multiset(s1) == multiset(s) && SortedByDigit(s1, 0)
    requires |Bucket(s, 1, 0)| == |s| && forall i :: 0 <= i < |s| ==> s[i].key < 65536
    ensures SortedByKey(s1)
  {
    hide Bucket;
    AllInOneBucket(s);
    forall x | x in s1 ensures x.key < 256 {
      assert x in multiset(s1);
      assert x in s;
    }
    OneDigit(s1);
  }

  lemma {:induction false} BucketMultiset(s: seq<SymFreq>, pass: nat, d: nat, x: SymFreq)
    ensures multiset(Bucket(s, pass, d))[x] == if Digit(x, pass) == d then multiset(s)[x] else 0
  {
    if s == [] {
    } else {
      var n := |s| - 1;
      BucketMultiset(s[..n], pass, d, x);
      assert s == s[..n] + [s[n]];
    }
  }

  /** The counts of the second digit survive the first pass. */
  lemma SameHistogram(s: seq<SymFreq>, t: seq<SymFreq>)
    requires multiset(s) == multiset(t)
    ensures forall pass, d :: |Bucket(s, pass, d)| == |Bucket(t, pass, d)|
  {
    forall pass: nat, d: nat ensures |Bucket(s, pass, d)| == |Bucket(t, pass, d)| {
      forall x ensures multiset(Bucket(s, pass, d))[x] == multiset(Bucket(t, pass, d))[x] {
        BucketMultiset(s, pass, d, x);
        BucketMultiset(t, pass, d, x);
      }
      assert multiset(Bucket(s, pass, d)) == multiset(Bucket(t, pass, d));
      assert |multiset(Bucket(s, pass, d))| == |Bucket(s, pass, d)|;
      assert |multiset(Bucket(t, pass, d))| == |Bucket(t, pass, d)|;
    }
  }

  method CountDigits(n: nat, syms: array<SymFreq>) returns (hist: array<nat>)
    requires n <= syms.Length
    ensures fresh(hist) && Histogram(syms[..n], hist[..])
  {
    hist := new nat[512](_ => 0);
    var i := 0;
    while i < n
      invariant 0 <= i <= n
      invariant Histogram(syms[..i], hist[..])
    {
      var freq := syms[i].key;
      hist[freq % 256] := hist[freq % 256] + 1;
      hist[256 + freq / 256 % 256] := hist[256 + freq / 256 % 256] + 1;
      assert syms[..i + 1][..i] == syms[..i];
      i := i + 1;
    }
  }

  lemma BucketsNext(s: seq<SymFreq>, pass: nat, d: nat)
    ensures Buckets(s, pass, 0) == []
    ensures |Buckets(s, pass, d + 1)| == |Buckets(s, pass, d)| + |Bucket(s, pass, d)|
  {
  }

  method Scatter(n: nat, cur: array<SymFreq>, nw: array<SymFreq>, offsets: array<nat>, pass: nat)
    requires n <= cur.Length && n <= nw.Length && cur != nw && offsets.Length == 256
    requires forall d :: 0 <= d < 256 ==> offsets[d] == |Buckets(cur[..n], pass, d)|
    modifies nw, offsets
    ensures Scattered(old(cur[..n]), pass, n, nw[..])
  {
    hide Buckets, Digit;
    ghost var s := cur[..n];
    ScatterStart(s, pass, nw[..]);
    assert s[..0] == [];
    var i := 0;
    while i < n
      invariant 0 <= i <= n && cur[..n] == s
      invariant Offsets(s, pass, i, offsets[..])
      invariant Scattered(s, pass, i, nw[..])
    {
      var d := Digit(cur[i], pass);
      ghost var slot := offsets[d];
      ScatterStep(s, pass, i, nw[..], offsets[d]);
      nw[offsets[d]] := cur[i];
      offsets[d] := offsets[d] + 1;
      forall e | 0 <= e < 256
        ensures offsets[e] == |Buckets(s, pass, e)| + |Bucket(s[..i + 1], pass, e)|
      {
        BucketStep(s, pass, e, i);
      }
      i := i + 1;
    }
  }

  /** Distribute `cur[..n]` into `nw` by one digit. */
  method ScatterPass(n: nat, cur: array<SymFreq>, nw: array<SymFreq>, hist: array<nat>, pass: nat)
    requires n <= cur.Length && n <= nw.Length && cur != nw && pass < 2 && hist.Length == 512
    requires forall d :: 0 <= d < 256 ==> hist[256 * pass + d] == |Bucket(cur[..n], pass, d)|
    modifies nw
    ensures nw[..n] == Buckets(cur[..n], pass, 256)
  {
    hide Buckets, Bucket, Scattered;
    ghost var s := cur[..n];
    var offsets := new nat[256](_ => 0);
    var sum := 0;
    var d := 0;
    BucketsNext(s, pass, 0);
    while d < 256
      invariant 0 <= d <= 256 && sum == |Buckets(s, pass, d)|
      invariant forall e :: 0 <= e < d ==> offsets[e] == |Buckets(s, pass, e)|
    {
      BucketsNext(s, pass, d);
      offsets[d] := sum;
      sum := sum + hist[256 * pass + d];
      d := d + 1;
    }
    Scatter(n, cur, nw, offsets, pass);
    ScatterDone(s, pass, nw[..], 256);
    PassPermutes(s, pass);
  }

  method RadixSortSyms(n: nat, syms0: array<SymFreq>, syms1: array<SymFreq>) returns (sorted: array<SymFreq>)
    requires n <= syms0.Length && n <= syms1.Length && syms0 != syms1
    requires forall i :: 0 <= i < n ==> syms0[i].key < 65536
    modifies syms0, syms1
    ensures sorted == syms0 || sorted == syms1
    ensures multiset(sorted[..n]) == multiset(old(syms0[..n]))
    ensures SortedByKey(sorted[..n])
    ensures forall key: nat :: WithKey(sorted[..n], key) == WithKey(old(syms0[..n]), key)
  {
    hide Histogram, SortedByKey, Bucket, Buckets, SortedByDigit, WithKey;
    ghost var s := syms0[..n];
    var hist := CountDigits(n, syms0);
    var passes := 2;
    assert hist[256] == |Bucket(s, 1, 0)| by { HistogramEntry(s, hist[..], 1, 0); }
    if n == hist[256] { passes := 1; }
    PassHist(s, hist[..], 0);
    ScatterPass(n, syms0, syms1, hist, 0);
    ghost var s1 := syms1[..n];
    FirstPass(s, s1);
    PassStable(s, 0);
    if passes == 1 {
      LowKeysOnly(s, s1);
      return syms1;
    }
    SameHistogram(s, s1);
    PassHist(s, hist[..], 1);
    ScatterPass(n, syms1, syms0, hist, 1);
    PassPermutes(s1, 1);
    PassStable(s1, 1);
    BothDigits(s1, 256);
    return syms0;
  }
}
