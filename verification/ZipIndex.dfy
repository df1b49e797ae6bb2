/**
  The name index of a ZIP archive: an index array heap-sorted by case-folded file
  name, the binary search over it, and the linear scan it stands in for.
 */
module ZipIndex {
  import opened Bits

  const WORD: nat := 0x1_0000_0000
  const MAX_NAME: nat := 0xFFFF

  // ------------------------------------------------------------ folded names

  function Lower(c: byte): byte
  {
    if 'A' as int <= c <= 'Z' as int then c + 32 else c
  }

  function Fold(s: seq<byte>): (r: seq<byte>)
    ensures |r| == |s| && forall i :: 0 <= i < |r| ==> r[i] == Lower(s[i])
  {
    seq<byte>(|s|, i requires 0 <= i < |s| => Lower(s[i]))
  }

  /** The same byte, or the same ASCII letter in the other case. */
  ghost predicate SameLetter(x: byte, y: byte)
  {
    x == y || (65 <= x <= 90 && y == x + 32) || (65 <= y <= 90 && x == y + 32)
  }

  /** The same name, but for the case of ASCII letters. */
  ghost predicate SameButCase(a: seq<byte>, b: seq<byte>)
  {
    |a| == |b| && forall i :: 0 <= i < |a| ==> SameLetter(a[i], b[i])
  }

  lemma LowerSame(x: byte, y: byte)
    ensures Lower(x) == Lower(y) <==> SameLetter(x, y)
  {
  }

  /** Folding forgets the case of letters and nothing else. */
  lemma FoldSame(a: seq<byte>, b: seq<byte>)
    ensures Fold(a) == Fold(b) <==> SameButCase(a, b)
  {
    hide Lower, SameLetter;
    forall i | 0 <= i < |a| && i < |b| ensures Lower(a[i]) == Lower(b[i]) <==> SameLetter(a[i], b[i]) {
      LowerSame(a[i], b[i]);
    }
    if Fold(a) == Fold(b) {
      forall i | 0 <= i < |a| ensures SameLetter(a[i], b[i]) {
        assert Fold(a)[i] == Fold(b)[i];
      }
    } else if SameButCase(a, b) {
      forall i | 0 <= i < |a| ensures Fold(a)[i] == Fold(b)[i] {
        assert SameLetter(a[i], b[i]);
      }
      assert false;
    }
  }

  lemma SameLength(a: seq<byte>, b: seq<byte>)
    requires SameButCase(a, b)
    ensures |a| == |b|
  {
  }

  lemma SameBothWays(a: seq<byte>, b: seq<byte>)
    ensures SameButCase(a, b) == SameButCase(b, a)
  {
  }

  /** Lexicographic order, a prefix first. */
  ghost predicate Before(a: seq<byte>, b: seq<byte>)
  {
    b != [] && (a == [] || a[0] < b[0] || (a[0] == b[0] && Before(a[1..], b[1..])))
  }

  lemma {:induction false} BeforeNot(a: seq<byte>, b: seq<byte>)
    ensures !(Before(a, b) && Before(b, a)) && !Before(a, a)
    ensures Before(a, b) || Before(b, a) || a == b
  {
    if a == [] {
    } else {
      BeforeNot(a[1..], a[1..]);
      if b != [] {
        BeforeNot(a[1..], b[1..]);
        assert a == [a[0]] + a[1..] && b == [b[0]] + b[1..];
      }
    }
  }

  lemma {:induction false} BeforeTransitive(a: seq<byte>, b: seq<byte>, c: seq<byte>)
    requires Before(a, b) && Before(b, c)
    ensures Before(a, c)
  {
    if a == [] || b[0] != a[0] || b[0] != c[0] {
    } else {
      BeforeTransitive(a[1..], b[1..], c[1..]);
    }
  }

  /** A common beginning does not matter. */
  lemma {:induction false} BeforeBehind(a: seq<byte>, b: seq<byte>, k: nat)
    requires k <= |a| && k <= |b| && a[..k] == b[..k]
    ensures Before(a, b) == Before(a[k..], b[k..])
  {
    if k == 0 {
      assert a[0..] == a && b[0..] == b;
    } else {
      assert a[0] == a[..k][0] == b[..k][0] == b[0];
      assert a[1..][..k - 1] == a[..k][1..] && b[1..][..k - 1] == b[..k][1..];
      BeforeBehind(a[1..], b[1..], k - 1);
      assert a[1..][k - 1..] == a[k..] && b[1..][k - 1..] == b[k..];
    }
  }

  /** Where two folded names first differ decides. */
  lemma Decided(a: seq<byte>, b: seq<byte>, k: nat)
    requires k <= |a| && k <= |b| && a[..k] == b[..k]
    requires k < |a| && k < |b| ==> a[k] != b[k]
    ensures Before(a, b) == if k < |a| && k < |b| then a[k] < b[k] else |a| < |b|
    ensures a == b <==> k == |a| == |b|
  {
    BeforeBehind(a, b, k);
    if k == |a| == |b| {
      assert a == a[..k] && b == b[..k];
    } else if k < |a| && k < |b| {
      assert a[k..][0] == a[k] && b[k..][0] == b[k];
    } else if k == |a| {
      assert a[k..] == [] && |b[k..]| > 0;
    } else {
      assert b[k..] == [];
    }
  }

  /** How far two names agree, case aside. */
  method Agree(l: seq<byte>, r: seq<byte>, n: nat) returns (k: nat)
    requires n <= |l| && n <= |r|
    ensures k <= n && Fold(l)[..k] == Fold(r)[..k] && (k < n ==> Lower(l[k]) != Lower(r[k]))
  {
    k := 0;
    while k < n
      invariant k <= n && Fold(l)[..k] == Fold(r)[..k]
    {
      if Lower(l[k]) != Lower(r[k]) { break; }
      k := k + 1;
    }
  }

  /** Letters are compared as small letters. */
  ghost predicate LetterBefore(x: byte, y: byte)
  {
    (if 65 <= x <= 90 then x + 32 else x) < if 65 <= y <= 90 then y + 32 else y
  }

  lemma LowerBefore(x: byte, y: byte)
    ensures Lower(x) < Lower(y) <==> LetterBefore(x, y)
    ensures !LetterBefore(x, y) && !LetterBefore(y, x) <==> SameLetter(x, y)
  {
  }

  /** The order of the index: at the first place where the names differ by more than
      case the smaller letter decides, and a name comes before those it begins. */
  ghost predicate NameBefore(l: seq<byte>, r: seq<byte>, k: nat)
  {
    && k <= |l| && k < |r| && SameButCase(l[..k], r[..k])
    && (k < |l| ==> LetterBefore(l[k], r[k]))
  }

  lemma FoldedFront(s: seq<byte>, k: nat)
    requires k <= |s|
    ensures Fold(s)[..k] == Fold(s[..k])
  {
  }

  lemma OrderFrom(l: seq<byte>, r: seq<byte>, k: nat)
    requires NameBefore(l, r, k)
    ensures Before(Fold(l), Fold(r))
  {
    hide Before, Lower, SameButCase;
    FoldSame(l[..k], r[..k]);
    FoldedFront(l, k);
    FoldedFront(r, k);
    if k < |l| { LowerBefore(l[k], r[k]); }
    Decided(Fold(l), Fold(r), k);
  }

  lemma {:induction false} FirstDifference(a: seq<byte>, b: seq<byte>) returns (k: nat)
    requires Before(a, b)
    ensures k <= |a| && k < |b| && a[..k] == b[..k] && (k < |a| ==> a[k] < b[k])
  {
    if a == [] || a[0] < b[0] {
      k := 0;
    } else {
      var j := FirstDifference(a[1..], b[1..]);
      k := j + 1;
      assert a[..k] == [a[0]] + a[1..][..j] && b[..k] == [b[0]] + b[1..][..j];
    }
  }

  lemma OrderMeans(l: seq<byte>, r: seq<byte>)
    ensures Before(Fold(l), Fold(r)) <==> exists k :: NameBefore(l, r, k)
  {
    hide Before, Lower, SameButCase;
    if Before(Fold(l), Fold(r)) {
      var k := FirstDifference(Fold(l), Fold(r));
      FoldSame(l[..k], r[..k]);
      FoldedFront(l, k);
      FoldedFront(r, k);
      if k < |l| { LowerBefore(l[k], r[k]); }
      assert NameBefore(l, r, k);
    }
    if k :| NameBefore(l, r, k) { OrderFrom(l, r, k); }
  }

  /** mz_zip_reader_filename_less */
  method FilenameLess(l: seq<byte>, r: seq<byte>) returns (less: bool)
    ensures less == Before(Fold(l), Fold(r))
    ensures less <==> exists k :: NameBefore(l, r, k)
  {
    hide NameBefore;
    OrderMeans(l, r);
    var n := if |l| < |r| then |l| else |r|;
    var k := Agree(l, r, n);
    Decided(Fold(l), Fold(r), k);
    less := if k == n then |l| < |r| else Lower(l[k]) < Lower(r[k]);
  }

  /** A 32-bit difference read as a signed number. */
  function SignedDiff(a: nat, b: nat): int
    requires a < WORD && b < WORD
  {
    var d := (a + WORD - b) % WORD;
    if d < WORD / 2 then d else d - WORD
  }

  /** mz_zip_reader_filename_compare */
  method FilenameCompare(l: seq<byte>, r: seq<byte>) returns (comp: int)
    requires |l| <= MAX_NAME && |r| < WORD
    ensures comp == 0 <==> SameButCase(l, r)
    ensures |r| <= MAX_NAME ==> (comp < 0 <==> Before(Fold(l), Fold(r)))
  {
    hide SameButCase;
    FoldSame(l, r);
    var n := if |l| < |r| then |l| else |r|;
    var k := Agree(l, r, n);
    Decided(Fold(l), Fold(r), k);
    BeforeNot(Fold(l), Fold(r));
    comp := if k == n then SignedDiff(|l|, |r|) else Lower(l[k]) as int - Lower(r[k]) as int;
  }

  // ------------------------------------------------------------------- ranks

  /** The files whose names come before `x`. */
  ghost function Earlier(names: seq<seq<byte>>, x: seq<byte>): set<nat>
  {
    set i: nat | i < |names| && Before(Fold(names[i]), x)
  }

  /** A number that orders the files as their names do. */
  ghost function Rank(names: seq<seq<byte>>, i: nat): nat
    requires i < |names|
  {
    |Earlier(names, Fold(names[i]))|
  }

  lemma {:induction false} SubsetSize(a: set<nat>, b: set<nat>)
    requires a <= b
    ensures |a| <= |b|
    decreases a
  {
    if a == {} {
    } else {
      var x :| x in a;
      SubsetSize(a - {x}, b - {x});
    }
  }

  lemma Smaller(a: set<nat>, b: set<nat>, x: nat)
    requires a <= b && x in b && x !in a
    ensures |a| < |b|
  {
    assert a <= b - {x};
    SubsetSize(a, b - {x});
  }

  lemma RankGrows(names: seq<seq<byte>>, i: nat, j: nat)
    requires i < |names| && j < |names| && Before(Fold(names[i]), Fold(names[j]))
    ensures Rank(names, i) < Rank(names, j)
  {
    var a, b := Earlier(names, Fold(names[i])), Earlier(names, Fold(names[j]));
    forall k | k in a ensures k in b { BeforeTransitive(Fold(names[k]), Fold(names[i]), Fold(names[j])); }
    BeforeNot(Fold(names[i]), Fold(names[i]));
    assert i in b && i !in a;
    Smaller(a, b, i);
  }

  lemma RankOrders(names: seq<seq<byte>>, i: nat, j: nat)
    requires i < |names| && j < |names|
    ensures Rank(names, i) < Rank(names, j) <==> Before(Fold(names[i]), Fold(names[j]))
  {
    BeforeNot(Fold(names[i]), Fold(names[j]));
    if Before(Fold(names[i]), Fold(names[j])) { RankGrows(names, i, j); }
    if Before(Fold(names[j]), Fold(names[i])) { RankGrows(names, j, i); }
  }

  // -------------------------------------------------------------- heap order

  ghost predicate Indices(names: seq<seq<byte>>, a: seq<nat>)
  {
    forall i :: 0 <= i < |a| ==> a[i] < |names|
  }

  ghost function Ranks(names: seq<seq<byte>>, a: seq<nat>): (k: seq<nat>)
    requires Indices(names, a)
    ensures |k| == |a| && forall i :: 0 <= i < |a| ==> k[i] == Rank(names, a[i])
  {
    seq<nat>(|a|, i requires 0 <= i < |a| => Rank(names, a[i]))
  }

  function Parent(i: nat): int
  {
    (i - 1) / 2
  }

  /** Entries from `lo` on and below `end` outrank their children. */
  ghost predicate Heap(k: seq<nat>, lo: nat, end: nat)
  {
    end <= |k| && forall i :: 1 <= i < end && lo <= Parent(i) ==> k[Parent(i)] >= k[i]
  }

  /** The same, except that entry `root` may be too small for its place; what is
      above it outranks what is below it. */
  ghost predicate Sinking(k: seq<nat>, lo: nat, end: nat, root: nat)
  {
    && lo <= root < |k| && end <= |k|
    && (forall i :: 1 <= i < end && lo <= Parent(i) && Parent(i) != root ==> k[Parent(i)] >= k[i])
    && (forall i :: 1 <= i < end && Parent(i) == root && root > 0 && lo <= Parent(root) ==> k[Parent(root)] >= k[i])
  }

  lemma SinkStep(k: seq<nat>, k': seq<nat>, lo: nat, end: nat, root: nat, child: nat)
    requires Sinking(k, lo, end, root) && root < child < end && Parent(child) == root && |k'| == |k|
    requires forall i :: 1 <= i < end && Parent(i) == root ==> k[i] <= k[child]
    requires k[root] < k[child] && k' == k[root := k[child]][child := k[root]]
    ensures Sinking(k', lo, end, child)
  {
  }

  lemma {:induction false} TopIsLargest(k: seq<nat>, end: nat, i: nat)
    requires Heap(k, 0, end) && i < end
    ensures k[0] >= k[i]
    decreases i
  {
    if i == 0 {
    } else {
      TopIsLargest(k, end, Parent(i));
    }
  }

  // --------------------------------------------------------------- heap sort

  ghost predicate SameFiles(a: seq<nat>, b: seq<nat>)
  {
    multiset(a) == multiset(b)
  }

  lemma SwapSame(a: seq<nat>, i: nat, j: nat)
    requires i < |a| && j < |a|
    ensures SameFiles(a[i := a[j]][j := a[i]], a)
  {
  }

  lemma SameIndices(names: seq<seq<byte>>, a: seq<nat>, b: seq<nat>)
    requires SameFiles(a, b) && Indices(names, b)
    ensures |a| == |b| && Indices(names, a)
  {
    assert |multiset(a)| == |a| && |multiset(b)| == |b|;
    forall i | 0 <= i < |a| ensures a[i] < |names| { assert a[i] in multiset(b); }
  }

  /** The larger child. */
  method LargerChild(names: seq<seq<byte>>, a: array<nat>, end: nat, root: nat) returns (child: nat)
    requires Indices(names, a[..]) && end <= a.Length && 2 * root + 1 < end
    ensures root < child < end && Parent(child) == root
    ensures forall i :: 1 <= i < end && Parent(i) == root ==> Ranks(names, a[..])[i] <= Ranks(names, a[..])[child]
  {
    hide Rank, Before;
    child := 2 * root + 1;
    if child + 1 < end {
      RankOrders(names, a[..][child], a[..][child + 1]);
      var less := FilenameLess(names[a[..][child]], names[a[..][child + 1]]);
      if less { child := child + 1; }
    }
  }

  lemma StartSinking(k: seq<nat>, start: nat, end: nat)
    requires start < end && Heap(k, start + 1, end)
    ensures Sinking(k, start, end, start)
  {
  }

  lemma StopSinking(k: seq<nat>, start: nat, end: nat, root: nat)
    requires Sinking(k, start, end, root)
    requires forall i :: 1 <= i < end && Parent(i) == root ==> k[i] <= k[root]
    ensures Heap(k, start, end)
  {
  }

  lemma NoChange(a: seq<nat>)
    ensures SameFiles(a, a)
  {
  }

  lemma SameChain(a: seq<nat>, b: seq<nat>, c: seq<nat>)
    requires SameFiles(a, b) && SameFiles(b, c)
    ensures SameFiles(a, c)
  {
  }

  method SwapEntries(names: seq<seq<byte>>, a: array<nat>, ghost lo: nat, ghost end: nat, root: nat, child: nat)
    requires Indices(names, a[..]) && Sinking(Ranks(names, a[..]), lo, end, root) && root < child < end
      && Parent(child) == root
    requires forall i :: 1 <= i < end && Parent(i) == root ==> Ranks(names, a[..])[i] <= Ranks(names, a[..])[child]
    requires Ranks(names, a[..])[root] < Ranks(names, a[..])[child]
    modifies a
    ensures SameFiles(a[..], old(a[..])) && Indices(names, a[..]) && Sinking(Ranks(names, a[..]), lo, end, child)
    ensures forall i :: 0 <= i < a.Length && i != root && i != child ==> a[i] == old(a[i])
  {
    hide Rank;
    ghost var s := a[..];
    ghost var k := Ranks(names, s);
    a[root], a[child] := a[child], a[root];
    assert a[..] == s[root := s[child]][child := s[root]];
    SwapSame(s, root, child);
    SameIndices(names, a[..], s);
    assert Ranks(names, a[..]) == k[root := k[child]][child := k[root]];
    SinkStep(k, Ranks(names, a[..]), lo, end, root, child);
  }

  /** One of the two sift-down loops. */
  method SiftDown(names: seq<seq<byte>>, a: array<nat>, start: nat, end: nat)
    requires Indices(names, a[..]) && start < end <= a.Length
    requires Heap(Ranks(names, a[..]), start + 1, end)
    modifies a
    ensures SameFiles(a[..], old(a[..])) && Indices(names, a[..])
    ensures Heap(Ranks(names, a[..]), start, end)
    ensures forall i :: end <= i < a.Length ==> a[i] == old(a[i])
  {
    hide Rank, Before, Fold, Heap, Sinking, SameFiles;
    ghost var before := a[..];
    var root := start;
    NoChange(before);
    StartSinking(Ranks(names, before), start, end);
    while 2 * root + 1 < end
      invariant start <= root < end && SameFiles(a[..], before) && Indices(names, a[..])
      invariant Sinking(Ranks(names, a[..]), start, end, root)
      invariant forall i :: end <= i < a.Length ==> a[i] == before[i]
    {
      ghost var s := a[..];
      var child := LargerChild(names, a, end, root);
      RankOrders(names, a[..][root], a[..][child]);
      var less := FilenameLess(names[a[..][root]], names[a[..][child]]);
      if !less { break; }
      SwapEntries(names, a, start, end, root, child);
      SameChain(a[..], s, before);
      root := child;
    }
    StopSinking(Ranks(names, a[..]), start, end, root);
  }

  ghost predicate SortedFrom(k: seq<nat>, end: nat)
  {
    end <= |k| && (forall i, j :: 0 <= i < j < |k| && end <= j ==> k[i] <= k[j])
  }

  lemma NothingSorted(k: seq<nat>)
    ensures SortedFrom(k, |k|)
  {
  }

  lemma AllSorted(k: seq<nat>, end: nat)
    requires SortedFrom(k, end) && end <= 1
    ensures SortedFrom(k, 0)
  {
  }

  lemma LeavesAreHeap(k: seq<nat>, lo: nat)
    requires lo == (|k| - 2) / 2 + 1
    ensures Heap(k, lo, |k|)
  {
  }

  method BuildHeap(names: seq<seq<byte>>, a: array<nat>)
    requires Indices(names, a[..])
    modifies a
    ensures SameFiles(a[..], old(a[..])) && Indices(names, a[..])
    ensures Heap(Ranks(names, a[..]), 0, a.Length)
  {
    hide Rank, Heap;
    ghost var before := a[..];
    var start := (a.Length - 2) / 2;
    LeavesAreHeap(Ranks(names, a[..]), start + 1);
    while start >= 0
      invariant -1 <= start < a.Length && SameFiles(a[..], before) && Indices(names, a[..])
      invariant Heap(Ranks(names, a[..]), start + 1, a.Length)
    {
      SiftDown(names, a, start, a.Length);
      start := start - 1;
    }
  }

  lemma SameLen(a: seq<nat>, b: seq<nat>)
    requires SameFiles(a, b)
    ensures SameFiles(b, a) && |a| == |b|
  {
    assert |multiset(a)| == |a| && |multiset(b)| == |b|;
  }

  lemma LargestTaken(k: seq<nat>, k': seq<nat>, end: nat)
    requires 0 < end < |k| && Heap(k, 0, end + 1) && SortedFrom(k, end + 1) && k' == k[0 := k[end]][end := k[0]]
    ensures Heap(k', 1, end) && SortedFrom(k', end)
  {
    forall i | 0 <= i <= end ensures k[i] <= k[0] { TopIsLargest(k, end + 1, i); }
  }

  lemma FrontSame(s: seq<nat>, t: seq<nat>, end: nat)
    requires |s| == |t| && end <= |s| && s[end..] == t[end..] && SameFiles(s, t)
    ensures SameFiles(s[..end], t[..end])
  {
    assert s == s[..end] + s[end..] && t == t[..end] + t[end..];
    assert multiset(s[..end]) == multiset(s) - multiset(s[end..]);
    assert multiset(t[..end]) == multiset(t) - multiset(t[end..]);
  }

  lemma FrontIndex(s: seq<nat>, t: seq<nat>, end: nat, i: nat) returns (h: nat)
    requires |s| == |t| && end <= |s| && SameFiles(s[..end], t[..end]) && i < end
    ensures h < end && s[h] == t[i]
  {
    assert t[..end][i] in multiset(t[..end]);
    assert t[i] in multiset(s[..end]);
    assert t[i] in s[..end];
    h :| 0 <= h < end && s[..end][h] == t[i];
  }

  /** Rearranging what lies below `end` keeps the rest sorted. */
  lemma StillSorted(names: seq<seq<byte>>, s: seq<nat>, t: seq<nat>, end: nat)
    requires Indices(names, s) && Indices(names, t) && |s| == |t| && end <= |s|
    requires SortedFrom(Ranks(names, s), end) && s[end..] == t[end..] && SameFiles(s, t)
    ensures SortedFrom(Ranks(names, t), end)
  {
    hide Rank;
    FrontSame(s, t, end);
    forall i, j | 0 <= i < j < |t| && end <= j ensures Rank(names, t[i]) <= Rank(names, t[j]) {
      assert t[j] == t[end..][j - end] == s[j];
      if i < end {
        var h := FrontIndex(s, t, end, i);
        assert Ranks(names, s)[h] <= Ranks(names, s)[j];
      } else {
        assert t[i] == t[end..][i - end] == s[i];
        assert Ranks(names, s)[i] <= Ranks(names, s)[j];
      }
    }
  }

  /** The largest entry goes behind the heap. */
  method TakeLargest(names: seq<seq<byte>>, a: array<nat>, end: nat)
    requires Indices(names, a[..]) && 0 < end < a.Length
    requires Heap(Ranks(names, a[..]), 0, end + 1) && SortedFrom(Ranks(names, a[..]), end + 1)
    modifies a
    ensures SameFiles(a[..], old(a[..])) && Indices(names, a[..])
    ensures Heap(Ranks(names, a[..]), 0, end) && SortedFrom(Ranks(names, a[..]), end)
  {
    hide Rank, Heap, SortedFrom, Before, Fold, SameFiles;
    ghost var s := a[..];
    ghost var k := Ranks(names, s);
    a[end], a[0] := a[0], a[end];
    ghost var s1 := a[..];
    assert s1 == s[0 := s[end]][end := s[0]];
    SwapSame(s, 0, end);
    SameIndices(names, s1, s);
    assert Ranks(names, s1) == k[0 := k[end]][end := k[0]];
    LargestTaken(k, Ranks(names, s1), end);
    SiftDown(names, a, 0, end);
    assert a[..][end..] == s1[end..];
    SameChain(a[..], s1, s);
    SameLen(a[..], s1);
    StillSorted(names, s1, a[..], end);
  }

  /** mz_zip_reader_sort_central_dir_offsets_by_filename */
  method Sort(names: seq<seq<byte>>, a: array<nat>)
    requires Indices(names, a[..])
    modifies a
    ensures SameFiles(a[..], old(a[..])) && Indices(names, a[..])
    ensures SortedFrom(Ranks(names, a[..]), 0)
  {
    hide Rank, Heap, SortedFrom;
    ghost var before := a[..];
    BuildHeap(names, a);
    var end := a.Length - 1;
    NothingSorted(Ranks(names, a[..]));
    while end > 0
      invariant -1 <= end < a.Length && SameFiles(a[..], before) && Indices(names, a[..])
      invariant Heap(Ranks(names, a[..]), 0, end + 1) && SortedFrom(Ranks(names, a[..]), end + 1)
    {
      TakeLargest(names, a, end);
      end := end - 1;
    }
    AllSorted(Ranks(names, a[..]), end + 1);
  }

  // ------------------------------------------------------------------ search

  ghost predicate AllNames(names: seq<seq<byte>>)
  {
    forall i :: 0 <= i < |names| ==> |names[i]| <= MAX_NAME
  }

  /** Every file once, in the order of the names. */
  ghost predicate Index(names: seq<seq<byte>>, a: seq<nat>)
  {
    && |a| == |names| && Indices(names, a) && SortedFrom(Ranks(names, a), 0)
    && (forall f: nat :: f < |names| ==> f in a)
  }

  /** The query as the search sees it: its length is held in 32 bits. */
  function Query(q: seq<byte>): (r: seq<byte>)
    ensures |r| == |q| % WORD && r <= q
  {
    q[..|q| % WORD]
  }

  lemma Ordered(names: seq<seq<byte>>, a: seq<nat>, i: nat, j: nat, q: seq<byte>)
    requires Index(names, a) && i <= j < |a|
    ensures a[i] < |names| && a[j] < |names|
    ensures Before(Fold(names[a[j]]), q) ==> Before(Fold(names[a[i]]), q)
    ensures Before(q, Fold(names[a[i]])) ==> Before(q, Fold(names[a[j]]))
  {
    hide Rank, Fold;
    if i < j {
      assert Ranks(names, a)[i] <= Ranks(names, a)[j];
      var x, y := Fold(names[a[i]]), Fold(names[a[j]]);
      RankOrders(names, a[j], a[i]);
      BeforeNot(x, y);
      if Before(x, y) && Before(y, q) { BeforeTransitive(x, y, q); }
      if Before(x, y) && Before(q, x) { BeforeTransitive(q, x, y); }
    }
  }

  lemma NotThere(names: seq<seq<byte>>, a: seq<nat>, q: seq<byte>, l: nat, f: nat)
    requires AllNames(names) && Index(names, a) && f < |names| && l <= |a|
    requires |q| <= MAX_NAME ==> forall i :: 0 <= i < l ==> Before(Fold(names[a[i]]), Fold(q))
    requires |q| <= MAX_NAME ==> forall i :: l <= i < |a| ==> Before(Fold(q), Fold(names[a[i]]))
    ensures Fold(names[f]) != Fold(q)
  {
    hide Before, SortedFrom;
    assert f in a;
    var i :| 0 <= i < |a| && a[i] == f;
    BeforeNot(Fold(q), Fold(q));
    if |q| > MAX_NAME { assert |Fold(names[f])| < |Fold(q)|; }
  }

  /** mz_zip_reader_locate_file_binary_search: -1 exactly when no file has the
      name, case aside, and otherwise a file that has it. */
  method BinarySearch(names: seq<seq<byte>>, a: array<nat>, q0: seq<byte>) returns (file: int)
    requires AllNames(names) && Index(names, a[..])
    ensures file == -1 <==> forall i :: 0 <= i < |names| ==> !SameButCase(names[i], Query(q0))
    ensures file != -1 ==> 0 <= file < |names| && SameButCase(names[file], Query(q0))
  {
    hide Rank, Before, SortedFrom, Fold, SameButCase;
    var q := Query(q0);
    var l, h := 0, a.Length - 1;
    while l <= h
      invariant 0 <= l <= h + 1 <= a.Length
      invariant |q| <= MAX_NAME ==> forall i :: 0 <= i < l ==> Before(Fold(names[a[..][i]]), Fold(q))
      invariant |q| <= MAX_NAME ==> forall i :: h < i < a.Length ==> Before(Fold(q), Fold(names[a[..][i]]))
    {
      var m := (l + h) / 2;
      var f := a[..][m];
      var comp := FilenameCompare(names[f], q);
      if comp == 0 { return f; }
      FoldSame(names[f], q);
      BeforeNot(Fold(names[f]), Fold(q));
      if comp < 0 {
        forall i | 0 <= i <= m ensures |q| <= MAX_NAME ==>
          Before(Fold(names[a[..][i]]), Fold(q)) { Ordered(names, a[..], i, m, Fold(q)); }
        l := m + 1;
      } else {
        forall i | m <= i < a.Length ensures |q| <= MAX_NAME ==>
          Before(Fold(q), Fold(names[a[..][i]])) { Ordered(names, a[..], m, i, Fold(q)); }
        h := m - 1;
      }
    }
    file := -1;
    forall i | 0 <= i < |names| ensures !SameButCase(names[i], q) {
      NotThere(names, a[..], q, l, i);
      FoldSame(names[i], q);
    }
  }

  /** mz_zip_reader_string_equal, case aside or not. */
  method StringEqual(x: seq<byte>, y: seq<byte>, caseSensitive: bool) returns (same: bool)
    requires |x| == |y|
    ensures same <==> if caseSensitive then x == y else SameButCase(x, y)
  {
    hide SameButCase;
    if caseSensitive { return x == y; }
    FoldSame(x, y);
    var i := 0;
    while i < |x|
      invariant 0 <= i <= |x| && Fold(x)[..i] == Fold(y)[..i]
    {
      if Lower(x[i]) != Lower(y[i]) {
        assert Fold(x)[i] != Fold(y)[i];
        return false;
      }
      i := i + 1;
    }
    assert Fold(x)[..i] == Fold(x) && Fold(y)[..i] == Fold(y);
    same := true;
  }

  predicate IsSeparator(c: byte)
  {
    c == '/' as int || c == '\\' as int || c == ':' as int
  }

  /** The part of a path behind the last slash, backslash or colon. */
  ghost predicate IsBase(name: seq<byte>, base: seq<byte>)
  {
    && |base| <= |name| && base == name[|name| - |base|..]
    && (forall i :: |name| - |base| <= i < |name| ==> name[i] != 47 && name[i] != 92 && name[i] != 58)
    && (|base| < |name| ==> var c := name[|name| - |base| - 1]; c == 47 || c == 92 || c == 58)
  }

  lemma BaseUnique(name: seq<byte>, a: seq<byte>, b: seq<byte>)
    requires IsBase(name, a) && IsBase(name, b)
    ensures a == b
  {
  }

  method BaseName(name: seq<byte>) returns (base: seq<byte>)
    ensures IsBase(name, base)
  {
    if name == [] { return []; }
    var ofs := |name| - 1;
    while ofs >= 0 && !IsSeparator(name[ofs])
      invariant -1 <= ofs < |name| && forall i :: ofs < i < |name| ==> !IsSeparator(name[i])
    {
      ofs := ofs - 1;
    }
    base := name[ofs + 1..];
  }

  /** What the linear scan looks for. */
  ghost predicate Matches(name: seq<byte>, q: seq<byte>, caseSensitive: bool, ignorePath: bool)
  {
    && |q| <= MAX_NAME
    && exists base :: (if ignorePath then IsBase(name, base) else base == name)
                      && if caseSensitive then base == q else SameButCase(base, q)
  }

  lemma ShortName(name: seq<byte>, q: seq<byte>, caseSensitive: bool, ignorePath: bool)
    requires |name| < |q|
    ensures !Matches(name, q, caseSensitive, ignorePath)
  {
  }

  lemma OneBase(name: seq<byte>, q: seq<byte>, caseSensitive: bool, ignorePath: bool, base: seq<byte>)
    requires |q| <= MAX_NAME && if ignorePath then IsBase(name, base) else base == name
    ensures Matches(name, q, caseSensitive, ignorePath) <==> if caseSensitive then base == q else SameButCase(base, q)
    ensures Matches(name, q, caseSensitive, ignorePath) ==> |base| == |q|
  {
    hide IsBase, SameButCase;
    if SameButCase(base, q) { SameLength(base, q); }
    if Matches(name, q, caseSensitive, ignorePath) && ignorePath {
      var b :| IsBase(name, b) && if caseSensitive then b == q else SameButCase(b, q);
      BaseUnique(name, base, b);
    }
  }

  method FileMatches(name: seq<byte>, q: seq<byte>, caseSensitive: bool, ignorePath: bool) returns (hit: bool)
    requires |q| <= MAX_NAME
    ensures hit == Matches(name, q, caseSensitive, ignorePath)
  {
    hide SameButCase, IsBase;
    if |name| < |q| {
      ShortName(name, q, caseSensitive, ignorePath);
      return false;
    }
    var base := name;
    if ignorePath { base := BaseName(name); }
    hit := false;
    if |base| == |q| { hit := StringEqual(q, base, caseSensitive); }
    SameBothWays(q, base);
    OneBase(name, q, caseSensitive, ignorePath, base);
  }

  /** The loop of mz_zip_reader_locate_file: the first file that matches. */
  method LinearScan(names: seq<seq<byte>>, q: seq<byte>, caseSensitive: bool, ignorePath: bool) returns (file: int)
    ensures file == -1 <==> forall i :: 0 <= i < |names| ==> !Matches(names[i], q, caseSensitive, ignorePath)
    ensures file != -1 ==> 0 <= file < |names| && Matches(names[file], q, caseSensitive, ignorePath)
                           && forall i :: 0 <= i < file ==> !Matches(names[i], q, caseSensitive, ignorePath)
  {
    if |q| > MAX_NAME { return -1; }
    hide Fold, Matches;
    file := 0;
    while file < |names|
      invariant 0 <= file <= |names| && forall i :: 0 <= i < file ==> !Matches(names[i], q, caseSensitive, ignorePath)
    {
      var hit := FileMatches(names[file], q, caseSensitive, ignorePath);
      if hit { return; }
      file := file + 1;
    }
    file := -1;
  }

  lemma DefaultMatch(name: seq<byte>, q: seq<byte>)
    ensures Matches(name, q, false, false) <==> |q| <= MAX_NAME && SameButCase(name, q)
  {
    if |q| <= MAX_NAME && SameButCase(name, q) { assert Matches(name, q, false, false); }
  }

  // --------------------------------------------------- the two ways agree

  /** The sorted index of an archive, as it is made when the archive is opened. */
  method MakeIndex(names: seq<seq<byte>>) returns (a: array<nat>)
    ensures fresh(a) && Index(names, a[..])
  {
    hide SortedFrom, Rank;
    a := new nat[|names|](i => i);
    ghost var s := a[..];
    assert Indices(names, s);
    Sort(names, a);
    forall f: nat | f < |names| ensures f in a[..] {
      assert s[f] == f && f in s;
      assert f in multiset(s);
      assert f in multiset(a[..]);
    }
  }

  lemma MatchIsShort(name: seq<byte>, q: seq<byte>, caseSensitive: bool, ignorePath: bool)
    requires Matches(name, q, caseSensitive, ignorePath)
    ensures |q| <= MAX_NAME
  {
  }

  /** mz_zip_reader_locate_file without a comment. With the default flags it finds
      a file exactly if there is one; for queries of 4 GB and more see
      `LongQuery`. */
  method LocateFile(names: seq<seq<byte>>, a: array<nat>, q: seq<byte>, caseSensitive: bool,
          ignorePath: bool)
    returns (file: int)
    requires AllNames(names) && (a.Length > 0 ==> Index(names, a[..]))
    ensures |q| < WORD ==>
      (file == -1 <==> forall i :: 0 <= i < |names| ==> !Matches(names[i], q, caseSensitive, ignorePath))
    ensures file != -1 ==> 0 <= file < |names| && (|q| < WORD ==> Matches(names[file], q, caseSensitive, ignorePath))
    ensures |q| >= WORD && file != -1 ==> !caseSensitive && !ignorePath && SameButCase(names[file], Query(q))
  {
    hide Matches, Index, SameButCase;
    if !caseSensitive && !ignorePath && a.Length > 0 {
      file := BinarySearch(names, a, q);
      if |q| < WORD {
        assert Query(q) == q;
        forall i | 0 <= i < |names|
          ensures Matches(names[i], q, false, false) <==> SameButCase(names[i], q)
        {
          DefaultMatch(names[i], q);
          if SameButCase(names[i], q) { SameLength(names[i], q); }
        }
      }
    } else {
      file := LinearScan(names, q, caseSensitive, ignorePath);
      if file != -1 { MatchIsShort(names[file], q, caseSensitive, ignorePath); }
    }
  }

  /** The search and the scan agree on whether a file is there, unless the query is
      so long that its 32-bit length is that of a shorter name in the archive. */
  lemma Agreement(names: seq<seq<byte>>, q: seq<byte>)
    requires AllNames(names)
    ensures (forall i :: 0 <= i < |names| ==> (SameButCase(names[i], Query(q))
      <==> Matches(names[i], q, false, false)))
       <==> |q| < WORD || forall i :: 0 <= i < |names| ==> !SameButCase(names[i], Query(q))
  {
    hide SameButCase, Matches;
    if |q| < WORD { assert Query(q) == q; }
    forall i | 0 <= i < |names|
      ensures Matches(names[i], q, false, false) <==> |q| <= MAX_NAME && SameButCase(names[i], q)
      ensures SameButCase(names[i], q) ==> |q| <= MAX_NAME
    {
      DefaultMatch(names[i], q);
      if SameButCase(names[i], q) { SameLength(names[i], q); }
    }
  }

  /** A query of 2^32 bytes is taken for the empty name. */
  lemma LongQuery(q: seq<byte>)
    requires |q| == WORD
    ensures SameButCase([], Query(q)) && !Matches([], q, false, false)
  {
    assert Query(q) == [];
  }
}
