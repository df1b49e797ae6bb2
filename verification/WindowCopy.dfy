/**
  The output buffer as the inflater's dictionary: flat, or wrapping at a power of
  two. The unrolled copies of a match leave it as a copy byte by byte would.
 */
module WindowCopy {
  import opened Bits
  import opened Deflate
  import opened Blocks

  /** (i & mask): the index wraps, or there is no mask. */
  function Mask(i: int, end: nat, wrap: bool): int
  {
    if wrap && end > 0 then i % end else i
  }

  /** The place of the byte `d` before the cursor. */
  function Back(cur: nat, d: nat, end: nat): int
  {
    if d <= cur then cur - d else cur + end - d
  }

  /** The buffer shows the output: every byte a match may refer to. */
  ghost predicate Shows(buf: seq<byte>, end: nat, cur: nat, out: seq<byte>)
  {
    && cur <= end <= |buf|
    && forall d ::
      1 <= d <= |out| && d <= WINDOW ==> 0 <= Back(cur, d, end) < end && buf[Back(cur, d, end)] == out[|out| - d]
  }

  /** A wrapping buffer holds a whole window; a flat one holds all the output. */
  ghost predicate Roomy(wrap: bool, end: nat, cur: nat, out: seq<byte>)
  {
    if wrap then end >= WINDOW else cur == |out|
  }

  lemma ModNegative(i: int, n: int)
    requires -n <= i < 0
    ensures i % n == i + n
  {
  }

  lemma BackInside(buf: seq<byte>, end: nat, cur: nat, out: seq<byte>, d: nat)
    requires Shows(buf, end, cur, out) && 1 <= d <= |out| && d <= WINDOW
    ensures 0 <= Back(cur, d, end) < end
  {
  }

  lemma SmallMod(i: nat, n: nat)
    requires i < n
    ensures i % n == i
  {
  }

  lemma MaskIsBack(cur: nat, d: nat, end: nat, wrap: bool, out: seq<byte>, buf: seq<byte>)
    requires Shows(buf, end, cur, out) && Roomy(wrap, end, cur, out) && 1 <= d <= |out| && d <= WINDOW
    ensures Mask(cur - d, end, wrap) == Back(cur, d, end)
  {
    hide Shows;
    BackInside(buf, end, cur, out, d);
    if wrap {
      if d > cur { ModNegative(cur - d, end); } else { SmallMod(cur - d, end); }
    }
  }

  /** Writing a byte at the cursor. */
  lemma PutOne(buf: seq<byte>, end: nat, cur: nat, out: seq<byte>, wrap: bool, c: byte)
    requires Shows(buf, end, cur, out) && Roomy(wrap, end, cur, out) && cur < end
    ensures Shows(buf[cur := c], end, cur + 1, out + [c]) && Roomy(wrap, end, cur + 1, out + [c])
  {
    var buf', out', next := buf[cur := c], out + [c], cur + 1;
    forall d | 1 <= d <= |out'| && d <= WINDOW
      ensures 0 <= Back(next, d, end) < end && buf'[Back(next, d, end)] == out'[|out'| - d]
    {
      if d > 1 {
        assert 0 <= Back(cur, d - 1, end) < end && buf[Back(cur, d - 1, end)] == out[|out| - (d - 1)];
        assert Back(next, d, end) == Back(cur, d - 1, end);
      }
    }
  }

  /** At the end of a wrapping buffer the next call starts at its beginning. */
  lemma WrapAround(buf: seq<byte>, end: nat, out: seq<byte>)
    requires Shows(buf, end, end, out) && end >= WINDOW
    ensures Shows(buf, end, 0, out)
  {
    forall d | 1 <= d <= |out| && d <= WINDOW ensures 0 <= Back(0, d, end) < end
      && buf[Back(0, d, end)] == out[|out| - d] {
      assert buf[Back(end, d, end)] == out[|out| - d];
    }
  }

  // ------------------------------------------------------------ the copies

  /** In the middle of a copy: the source runs `d` before the cursor and does not
      wrap, and `left` bytes are still to come. */
  ghost predicate Copying(buf: seq<byte>, end: nat, wrap: bool, cur: nat, src: nat, out: seq<byte>, d: nat, left: nat,
          goal: seq<byte>)
  {
    && Shows(buf, end, cur, out) && Roomy(wrap, end, cur, out) && 1 <= d <= |out| && d <= WINDOW
    && cur + left <= end && src + left <= end && (left > 0 ==> src == Back(cur, d, end))
    && CopyOut(out, left, d) == goal
  }

  lemma CopyOneMore(buf: seq<byte>, end: nat, wrap: bool, cur: nat, src: nat, out: seq<byte>, d: nat, left: nat,
          goal: seq<byte>)
    requires Copying(buf, end, wrap, cur, src, out, d, left, goal) && left > 0
    ensures buf[src] == out[|out| - d]
    ensures Copying(buf[cur := buf[src]], end, wrap, cur + 1, src + 1, out + [buf[src]], d, left - 1, goal)
  {
    PutOne(buf, end, cur, out, wrap, buf[src]);
  }

  /** One byte. */
  method CopyByte(buf: array<byte>, cur: nat, src: nat, end: nat, ghost wrap: bool, ghost out: seq<byte>, ghost d: nat,
          ghost left: nat, ghost goal: seq<byte>)
    returns (ghost out': seq<byte>)
    requires Copying(buf[..], end, wrap, cur, src, out, d, left, goal) && left > 0
    modifies buf
    ensures out <= out' && Copying(buf[..], end, wrap, cur + 1, src + 1, out', d, left - 1, goal)
    ensures forall i :: 0 <= i < buf.Length && i != cur ==> buf[i] == old(buf[i])
  {
    CopyOneMore(buf[..], end, wrap, cur, src, out, d, left, goal);
    buf[cur] := buf[src];
    assert buf[..] == old(buf[..])[cur := old(buf[src])];
    out' := out + [buf[cur]];
  }

  lemma WordBounds(buf: seq<byte>, end: nat, wrap: bool, cur: nat, src: nat, out: seq<byte>, d: nat, left: nat,
          goal: seq<byte>)
    requires Copying(buf, end, wrap, cur, src, out, d, left, goal) && left >= 4 && d >= 4
    ensures cur + 4 <= |buf| && src + 4 <= |buf| && (src + 4 <= cur || src >= cur)
  {
  }

  /** A 32-bit load and store: the same as four bytes, since the source is at
      least four bytes behind. */
  method CopyWord(buf: array<byte>, cur: nat, src: nat, end: nat, ghost wrap: bool, ghost out: seq<byte>, ghost d: nat,
          ghost left: nat, ghost goal: seq<byte>)
    returns (ghost out': seq<byte>)
    requires Copying(buf[..], end, wrap, cur, src, out, d, left, goal) && left >= 4 && d >= 4
    modifies buf
    ensures out <= out' && Copying(buf[..], end, wrap, cur + 4, src + 4, out', d, left - 4, goal)
    ensures forall i :: 0 <= i < buf.Length && !(cur <= i < cur + 4) ==> buf[i] == old(buf[i])
  {
    hide Copying;
    WordBounds(buf[..], end, wrap, cur, src, out, d, left, goal);
    var w := buf[src..src + 4];
    ghost var b0 := buf[..];
    ghost var o0 := out;
    CopyOneMore(b0, end, wrap, cur, src, o0, d, left, goal);
    ghost var b1, o1 := b0[cur := b0[src]], o0 + [b0[src]];
    CopyOneMore(b1, end, wrap, cur + 1, src + 1, o1, d, left - 1, goal);
    ghost var b2, o2 := b1[cur + 1 := b1[src + 1]], o1 + [b1[src + 1]];
    CopyOneMore(b2, end, wrap, cur + 2, src + 2, o2, d, left - 2, goal);
    ghost var b3, o3 := b2[cur + 2 := b2[src + 2]], o2 + [b2[src + 2]];
    CopyOneMore(b3, end, wrap, cur + 3, src + 3, o3, d, left - 3, goal);
    ghost var b4, o4 := b3[cur + 3 := b3[src + 3]], o3 + [b3[src + 3]];
    buf[cur], buf[cur + 1], buf[cur + 2], buf[cur + 3] := w[0], w[1], w[2], w[3];
    assert buf[..] == b4;
    out' := o4;
  }

  /** Whole words while eight bytes or more are left. */
  method CopyWords(buf: array<byte>, cur0: nat, src0: nat, end: nat, ghost wrap: bool, ghost out: seq<byte>,
          ghost d: nat, len: nat, ghost goal: seq<byte>)
    returns (cur: nat, src: nat, ghost out': seq<byte>)
    requires Copying(buf[..], end, wrap, cur0, src0, out, d, len, goal) && 9 <= len <= d
    modifies buf
    ensures cur == cur0 + (len - len % 8) && src == src0 + (len - len % 8)
    ensures out <= out' && Copying(buf[..], end, wrap, cur, src, out', d, len % 8, goal)
    ensures forall i :: 0 <= i < buf.Length && !(cur0 <= i < cur0 + len) ==> buf[i] == old(buf[i])
  {
    hide Copying;
    cur, src, out' := cur0, src0, out;
    var srcEnd := src + (len - len % 8);
    while true
      invariant src < srcEnd && (srcEnd - src) % 8 == 0 && cur - cur0 == src - src0 >= 0
      invariant out <= out' && Copying(buf[..], end, wrap, cur, src, out', d, srcEnd - src + len % 8, goal)
      invariant forall i :: 0 <= i < buf.Length && !(cur0 <= i < cur0 + len) ==> buf[i] == old(buf[i])
      decreases srcEnd - src
    {
      ghost var left := srcEnd - src + len % 8;
      out' := CopyWord(buf, cur, src, end, wrap, out', d, left, goal);
      out' := CopyWord(buf, cur + 4, src + 4, end, wrap, out', d, left - 4, goal);
      cur, src := cur + 8, src + 8;
      if src >= srcEnd { break; }
    }
  }

  /** One or two bytes. */
  method CopyRest(buf: array<byte>, cur0: nat, src: nat, end: nat, ghost wrap: bool, ghost out: seq<byte>,
          ghost d: nat, n: nat, ghost goal: seq<byte>)
    returns (cur: nat, ghost out': seq<byte>)
    requires Copying(buf[..], end, wrap, cur0, src, out, d, n, goal) && n <= 2
    modifies buf
    ensures cur == cur0 + n && out <= out' && Copying(buf[..], end, wrap, cur, src + n, out', d, 0, goal)
    ensures forall i :: 0 <= i < buf.Length && !(cur0 <= i < cur0 + n) ==> buf[i] == old(buf[i])
  {
    hide Copying;
    out' := out;
    if n > 0 {
      out' := CopyByte(buf, cur0, src, end, wrap, out', d, n, goal);
      if n > 1 { out' := CopyByte(buf, cur0 + 1, src + 1, end, wrap, out', d, n - 1, goal); }
    }
    cur := cur0 + n;
  }

  /** Three bytes at a time. */
  method CopyTriples(buf: array<byte>, cur0: nat, src0: nat, end: nat, ghost wrap: bool, ghost out: seq<byte>,
          ghost d: nat, len: nat, ghost goal: seq<byte>)
    returns (cur: nat, src: nat, left: nat, ghost out': seq<byte>)
    requires Copying(buf[..], end, wrap, cur0, src0, out, d, len, goal) && len >= 3
    modifies buf
    ensures left <= 2 && cur == cur0 + (len - left) && src == src0 + (len - left)
    ensures out <= out' && Copying(buf[..], end, wrap, cur, src, out', d, left, goal)
    ensures forall i :: 0 <= i < buf.Length && !(cur0 <= i < cur0 + len) ==> buf[i] == old(buf[i])
  {
    hide Copying;
    cur, src, left, out' := cur0, src0, len, out;
    while true
      invariant 3 <= left <= len && cur == cur0 + (len - left) && src == src0 + (len - left)
      invariant out <= out' && Copying(buf[..], end, wrap, cur, src, out', d, left, goal)
      invariant forall i :: 0 <= i < buf.Length && !(cur0 <= i < cur0 + len) ==> buf[i] == old(buf[i])
      decreases left
    {
      out' := CopyByte(buf, cur, src, end, wrap, out', d, left, goal);
      out' := CopyByte(buf, cur + 1, src + 1, end, wrap, out', d, left - 1, goal);
      out' := CopyByte(buf, cur + 2, src + 2, end, wrap, out', d, left - 2, goal);
      cur, src, left := cur + 3, src + 3, left - 3;
      if left <= 2 { break; }
    }
  }

  lemma Copied(buf: seq<byte>, end: nat, wrap: bool, cur: nat, src: nat, out: seq<byte>, d: nat, goal: seq<byte>)
    requires Copying(buf, end, wrap, cur, src, out, d, 0, goal)
    ensures Shows(buf, end, cur, goal) && Roomy(wrap, end, cur, goal)
  {
  }

  /** The fast path for a match that does not reach the end of the buffer. */
  method CopyMatch(buf: array<byte>, cur0: nat, src0: nat, end: nat, words: bool, dist: nat, len: nat,
          ghost wrap: bool, ghost out: seq<byte>)
    returns (cur: nat)
    requires Copying(buf[..], end, wrap, cur0, src0, out, dist, len, CopyOut(out, len, dist))
      && MIN_MATCH <= len <= MAX_MATCH
    modifies buf
    ensures cur == cur0 + len && Shows(buf[..], end, cur, CopyOut(out, len, dist))
    ensures Roomy(wrap, end, cur, CopyOut(out, len, dist))
    ensures forall i :: 0 <= i < buf.Length && !(cur0 <= i < cur0 + len) ==> buf[i] == old(buf[i])
  {
    hide Copying, CopyOut;
    ghost var goal := CopyOut(out, len, dist);
    var src, left := src0, len;
    cur := cur0;
    ghost var o := out;
    if words && len >= 9 && len <= dist {
      cur, src, o := CopyWords(buf, cur, src, end, wrap, o, dist, len, goal);
      left := len % 8;
    }
    if left >= 3 {
      cur, src, left, o := CopyTriples(buf, cur, src, end, wrap, o, dist, left, goal);
    }
    cur, o := CopyRest(buf, cur, src, end, wrap, o, dist, left, goal);
    Copied(buf[..], end, wrap, cur, src + left, o, dist, goal);
  }
}
