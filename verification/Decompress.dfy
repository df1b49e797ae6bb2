/**
  Driving the inflater: through a window of 32768 bytes that wraps, and through a
  flat buffer with input and room cut into any pieces. Both give the same bytes of
  a valid stream, and what comes before the fault of a refused one.
 */
module Decompress {
  import opened Bits
  import opened Canonical
  import opened Deflate
  import opened DecodeTable
  import opened BitReader
  import opened WindowCopy
  import opened Adler
  import I = Inflater

  /** tinfl_init. */
  method NewInflater(ghost stream: seq<byte>, zlib: bool, ghost room: Room, words: bool,
          checksum: bool)
    returns (inf: I.Inflater)
    requires !Ends(zlib, stream, room).Unclear?
    ensures fresh(inf) && fresh(inf.r) && fresh(inf.lenCodes) && fresh(inf.t0) && fresh(inf.t1) && fresh(inf.t2)
    ensures fresh(inf.t0.size) && fresh(inf.t0.look) && fresh(inf.t0.tree)
    ensures fresh(inf.t1.size) && fresh(inf.t1.look) && fresh(inf.t1.tree)
    ensures fresh(inf.t2.size) && fresh(inf.t2.look) && fresh(inf.t2.tree)
    ensures inf.Idle() && inf.zlib == zlib && inf.room == room && inf.checksum == checksum && inf.r.stream == stream
      && inf.cfg.out == [] && inf.r.pos + inf.r.at == 0
    ensures !inf.state.CopyRoom? && !inf.state.Broken?
  {
    hide I.Inflater.Valid, Ends, Reader.Valid, Adler32;
    var r := new Reader(stream);
    var t0 := new Table();
    var t1 := new Table();
    var t2 := new Table();
    var lenCodes := new nat[I.LEN_CODES](_ => 0);
    inf := new I.Inflater(zlib, room, r, t0, t1, t2, lenCodes, words, checksum);
    AdlerConcat(1, [], []);
  }

  /** What an inflater shows of its output in a buffer. */
  ghost predicate Shown(inf: I.Inflater, b: array<byte>, next: nat, end: nat, flat: bool)
    reads inf, b
  {
    && Shows(b[..], end, next, inf.cfg.out) && Roomy(!flat, end, next, inf.cfg.out)
    && (inf.state.CopyRoom? ==> if !flat then inf.distFrom % end == next % end else inf.distFrom == next)
  }

  lemma NothingShown(inf: I.Inflater, b: array<byte>, flat: bool)
    requires inf.cfg.out == [] && !inf.state.CopyRoom? && (!flat ==> b.Length >= WINDOW)
    ensures Shown(inf, b, 0, b.Length, flat)
  {
  }

  /** After a call the buffer shows the output up to the new cursor. */
  lemma StillShown(inf: I.Inflater)
    requires inf.Idle()
    ensures inf.end > 0 || !inf.wrap ==> Shown(inf, inf.buf, inf.cur, inf.end, !inf.wrap)
  {
    hide FateOf, Shows, Reader.Valid, I.Inflater.At, Adler32;
  }

  /** At the end of a wrapping buffer the next call starts at its beginning. */
  lemma ShownAgain(inf: I.Inflater, b: array<byte>, end: nat)
    requires Shown(inf, b, end, end, false)
    ensures Shown(inf, b, 0, end, false)
  {
    hide Shows;
    WrapAround(b[..], end, inf.cfg.out);
  }

  /** What is asked of a buffer in the end: a stream that completes, with the
      checksum that it carries. */
  ghost predicate Sound(zlib: bool, f: Fate)
  {
    f.Completes? && f.end.ph.Done? && (zlib ==> Adler32(1, f.end.out) == f.end.ph.z)
  }

  lemma PowerOf32K()
    ensures I.PowerOfTwo(32768)
  {
    assert I.PowerOfTwo(1);
    assert I.PowerOfTwo(8) && I.PowerOfTwo(64) && I.PowerOfTwo(512) && I.PowerOfTwo(4096);
  }

  /** The output is always a prefix of the result. */
  lemma OutputBound(inf: I.Inflater)
    requires inf.Idle()
    ensures !Ends(inf.zlib, inf.r.stream, inf.room).Unclear?
    ensures inf.cfg.out <= Ends(inf.zlib, inf.r.stream, inf.room).end.out
    ensures FateOf(inf.cfg) == Ends(inf.zlib, inf.r.stream, inf.room)
    ensures Ends(inf.zlib, inf.r.stream, inf.room).Completes? ==> Ends(inf.zlib, inf.r.stream, inf.room).end.ph.Done?
  {
    hide FateOf, Ends, Shows, Reader.Valid, I.Inflater.At, Adler32;
    FateExtends(inf.cfg);
  }

  lemma Continuing(inf: I.Inflater, piece: seq<byte>, b: array<byte>, next: nat, size: nat, src: seq<byte>, at: nat)
    requires inf.Idle() && inf.r.stream == src && at == inf.r.pos + inf.r.at <= |src| && piece == src[at..]
    requires Shown(inf, b, next, next + size, false) && !inf.room.Plain?
    ensures inf.r.Valid() && inf.Continues(piece, false, b, next, size, false)
  {
    hide FateOf, Shows, I.Inflater.At, Adler32;
  }

  /** tinfl_decompress_mem_to_callback: the whole input at once, the output through
      a wrapping window. */
  method ToCallback(src: seq<byte>, zlib: bool, words: bool) returns (done: bool, produced: seq<byte>)
    requires !Ends(zlib, src, Wrapping).Unclear?
    ensures produced == Ends(zlib, src, Wrapping).end.out
    ensures done <==> Sound(zlib, Ends(zlib, src, Wrapping))
  {
    hide Ends, FateOf, I.Inflater.Idle, I.Inflater.Valid, Reader.Valid, Shown, Adler32;
    var dict := new byte[32768](_ => 0);
    var inf := NewInflater(src, zlib, Wrapping, words, false);
    NothingShown(inf, dict, false);
    OutputBound(inf);
    var inOfs: nat, dictOfs: nat := 0, 0;
    produced, done := [], false;
    while true
      invariant inf.Idle() && dictOfs < 32768 && Shown(inf, dict, dictOfs, 32768, false)
      invariant produced == inf.cfg.out && inOfs == inf.r.pos + inf.r.at <= |src|
      invariant |produced| <= |Ends(zlib, src, Wrapping).end.out|
      decreases |Ends(zlib, src, Wrapping).end.out| - |produced|
    {
      Continuing(inf, src[inOfs..], dict, dictOfs, 32768 - dictOfs, src, inOfs);
      PowerOf32K();
      var st, used, made := inf.Decompress(src[inOfs..], false, dict, dictOfs, 32768 - dictOfs, false);
      inOfs := inOfs + used;
      produced := produced + dict[dictOfs..dictOfs + made];
      OutputBound(inf);
      StillShown(inf);
      if st != I.HasMoreOutput {
        done := st == I.Finished;
        return;
      }
      dictOfs := (dictOfs + made) % 32768;
      ShownAgain(inf, dict, 32768);
    }
  }

  /** A flat buffer holds exactly the output. */
  ghost predicate Held(inf: I.Inflater, b: array<byte>, next: nat)
    reads inf, b
  {
    next <= b.Length && b[..next] == inf.cfg.out && (inf.state.CopyRoom? ==> inf.distFrom == next)
  }

  lemma FlatContinues(inf: I.Inflater, piece: seq<byte>, more: bool, b: array<byte>, next: nat, size: nat,
          src: seq<byte>, at: nat)
    requires inf.Idle() && inf.r.stream == src && at == inf.r.pos + inf.r.at && at + |piece| <= |src|
    requires piece == src[at..at + |piece|] && (!more ==> at + |piece| == |src|)
    requires Held(inf, b, next) && next + size <= b.Length && !inf.room.Wrapping?
    ensures inf.r.Valid() && inf.Continues(piece, more, b, next, size, true)
  {
    hide FateOf, I.Inflater.At, Adler32;
  }

  lemma FlatHeld(inf: I.Inflater, b: array<byte>, was: seq<byte>, before: seq<byte>, next: nat, made: nat)
    requires inf.Idle() && !inf.wrap && inf.cur == next + made <= b.Length
    requires |was| == b.Length && was[..next] == before && inf.cfg.out == before + b[next..next + made]
    requires forall i :: 0 <= i < next ==> b[i] == was[i]
    ensures Held(inf, b, next + made)
  {
    hide FateOf, Shows, Reader.Valid, I.Inflater.At, Adler32;
    assert b[..next + made] == was[..next] + b[next..next + made];
  }

  lemma SumKept(inf: I.Inflater)
    requires inf.Idle()
    ensures (inf.zlib || inf.checksum) && !inf.state.Broken? ==> inf.checkAdler == Adler32(1, inf.cfg.out)
  {
    hide FateOf, Ends, Shows, Reader.Valid, I.Inflater.At, Adler32;
  }

  predicate NonEmpty(cuts: seq<(nat, nat)>)
  {
    forall c :: c in cuts ==> c.0 > 0 && c.1 > 0
  }

  function Least(a: nat, b: nat): nat
  {
    if a < b then a else b
  }

  /** One call on a flat buffer that holds the output so far. */
  method FlatCall(inf: I.Inflater, src: seq<byte>, piece: seq<byte>, more: bool, b: array<byte>, made: nat, room: nat)
    returns (st: I.Status, used: nat, got: nat)
    requires inf.Idle() && inf.room.Plain? && inf.r.stream == src && Held(inf, b, made) && made + room <= b.Length
    requires var at := inf.r.pos + inf.r.at;
             at + |piece| <= |src| && piece == src[at..at + |piece|] && (!more ==> at + |piece| == |src|)
    modifies inf, inf.r, inf.lenCodes, inf.t0, inf.t0.size, inf.t0.look, inf.t0.tree, inf.t1, inf.t1.size, inf.t1.look
    modifies inf.t1.tree
    modifies inf.t2, inf.t2.size, inf.t2.look, inf.t2.tree, b
    ensures inf.Idle() && Held(inf, b, made + got) && used <= |piece| && got <= room
    ensures inf.r.pos + inf.r.at == old(inf.r.pos + inf.r.at) + used
    ensures forall i :: 0 <= i < b.Length && !(made <= i < made + got) ==> b[i] == old(b[i])
    ensures st in {I.NeedsMoreInput, I.HasMoreOutput, I.Finished, I.Mismatch, I.Failed}
    ensures st == I.NeedsMoreInput ==> more && used == |piece| && inf.r.pos + inf.r.at < |src|
    ensures var f := Ends(inf.zlib, src, Plain);
            && inf.cfg.out <= f.end.out
            && (st == I.HasMoreOutput ==> got == room && |inf.cfg.out| < |f.end.out|)
            && (st in {I.Finished, I.Mismatch, I.Failed} ==> inf.cfg.out == f.end.out)
            && (st == I.Failed ==> f.Fails?) && (st == I.Finished ==> Sound(inf.zlib, f))
            && (st == I.Mismatch ==> f.Completes? && !Sound(inf.zlib, f))
    ensures (inf.zlib || inf.checksum) && st != I.Failed ==> inf.checkAdler == Adler32(1, inf.cfg.out)
  {
    hide Ends, FateOf, I.Inflater.Idle, I.Inflater.Valid, I.Inflater.Continues, Reader.Valid, Adler32;
    ghost var was, before, at := b[..], inf.cfg.out, inf.r.pos + inf.r.at;
    FlatContinues(inf, piece, more, b, made, room, src, at);
    st, used, got := inf.Decompress(piece, more, b, made, room, true);
    OutputBound(inf);
    SumKept(inf);
    FlatHeld(inf, b, was, before, made, got);
  }

  /** tinfl_decompress on a flat buffer, the input arriving in pieces and the room in
      portions of any sizes; the caller stops at the end of the stream. Whatever the
      cuts, the buffer holds the start of the one result, all of it at the end, and
      enough nonempty cuts reach the end. A refused stream is refused, at its fault. */
  method InPieces(src: seq<byte>, zlib: bool, words: bool, checksum: bool, cuts: seq<(nat, nat)>, b: array<byte>)
    returns (st: I.Status, made: nat, adler: nat)
    requires !Ends(zlib, src, Plain).Unclear?
    modifies b
    ensures made <= b.Length && b[..made] <= Ends(zlib, src, Plain).end.out
    ensures (zlib || checksum) && st != I.Failed ==> adler == Adler32(1, b[..made])
    ensures forall i :: made <= i < b.Length ==> b[i] == old(b[i])
    ensures st in {I.Finished, I.Mismatch, I.Failed} ==> b[..made] == Ends(zlib, src, Plain).end.out
    ensures st == I.Failed ==> Ends(zlib, src, Plain).Fails?
    ensures st == I.Finished ==> Sound(zlib, Ends(zlib, src, Plain))
    ensures st == I.Mismatch ==> Ends(zlib, src, Plain).Completes? && !Sound(zlib, Ends(zlib, src, Plain))
    ensures |src| + b.Length < |cuts| && |Ends(zlib, src, Plain).end.out| <= b.Length && NonEmpty(cuts)
      ==> st in {I.Finished, I.Mismatch, I.Failed}
  {
    hide Ends, FateOf, I.Inflater.Idle, I.Inflater.Valid, I.Inflater.Continues, Reader.Valid, Adler32;
    var inf := NewInflater(src, zlib, Plain, words, checksum);
    ghost var whole := Ends(zlib, src, Plain).end.out;
    var inOfs: nat, i := 0, 0;
    st, made, adler := I.NeedsMoreInput, 0, inf.checkAdler;
    OutputBound(inf);
    SumKept(inf);
    while i < |cuts|
      invariant inf.Idle() && Held(inf, b, made)
      invariant i <= |cuts| && inOfs == inf.r.pos + inf.r.at <= |src|
      invariant inf.cfg.out <= whole
      invariant zlib || checksum ==> adler == Adler32(1, inf.cfg.out)
      invariant forall k :: made <= k < b.Length ==> b[k] == old(b[k])
      invariant |whole| <= b.Length && NonEmpty(cuts) ==> i <= inOfs + made
      invariant st in {I.NeedsMoreInput, I.HasMoreOutput}
    {
      var piece := src[inOfs..Least(inOfs + cuts[i].0, |src|)];
      var more := inOfs + |piece| < |src|;
      var room := Least(made + cuts[i].1, b.Length) - made;
      assert cuts[i] in cuts;
      var used, got;
      st, used, got := FlatCall(inf, src, piece, more, b, made, room);
      inOfs, made, i, adler := inOfs + used, made + got, i + 1, inf.checkAdler;
      if st !in {I.NeedsMoreInput, I.HasMoreOutput} { return; }
    }
  }

  /** tinfl_decompress_mem_to_mem: one call. It succeeds exactly when the stream is
      sound and the result fits. */
  method ToMem(b: array<byte>, src: seq<byte>, zlib: bool, words: bool) returns (made: Option<nat>)
    requires !Ends(zlib, src, Plain).Unclear?
    modifies b
    ensures var f := Ends(zlib, src, Plain); made.Some? <==> |f.end.out| <= b.Length && Sound(zlib, f)
    ensures made.Some? ==>
      made.value == |Ends(zlib, src, Plain).end.out| && b[..made.value] == Ends(zlib, src, Plain).end.out
  {
    hide Ends, FateOf, I.Inflater.Idle, I.Inflater.Valid, I.Inflater.Continues, Reader.Valid, Adler32;
    var inf := NewInflater(src, zlib, Plain, words, false);
    var st, used, got := FlatCall(inf, src, src, false, b, 0, b.Length);
    made := if st == I.Finished then Some(got) else None;
  }

  /** Twice the room, and never under 128 bytes. */
  method Grown(ghost inf: I.Inflater, b: array<byte>, ghost len: nat) returns (c: array<byte>)
    requires Held(inf, b, len)
    ensures fresh(c) && c.Length > b.Length && Held(inf, c, len)
  {
    c := new byte[if b.Length * 2 < 128 then 128 else b.Length * 2](_ => 0);
    forall i | 0 <= i < b.Length {
      c[i] := b[i];
    }
    assert c[..len] == b[..len];
  }

  /** tinfl_decompress_mem_to_heap: a flat buffer that grows. */
  method ToHeap(src: seq<byte>, zlib: bool, words: bool) returns (b: array<byte>, made: Option<nat>)
    requires !Ends(zlib, src, Plain).Unclear?
    ensures made.Some? <==> Sound(zlib, Ends(zlib, src, Plain))
    ensures made.Some? ==> made.value <= b.Length && b[..made.value] == Ends(zlib, src, Plain).end.out
  {
    hide Ends, FateOf, I.Inflater.Idle, I.Inflater.Valid, I.Inflater.Continues, Reader.Valid, Adler32;
    b := new byte[0];
    var inf := NewInflater(src, zlib, Plain, words, false);
    OutputBound(inf);
    var inOfs: nat, len: nat := 0, 0;
    while true
      invariant fresh(b) && inf.Idle() && Held(inf, b, len) && len <= b.Length
      invariant inOfs == inf.r.pos + inf.r.at <= |src| && len <= |Ends(zlib, src, Plain).end.out|
      decreases |Ends(zlib, src, Plain).end.out| - b.Length
    {
      var st, used, got := FlatCall(inf, src, src[inOfs..], false, b, len, b.Length - len);
      inOfs, len := inOfs + used, len + got;
      if st == I.Mismatch || st == I.Failed {
        return b, None;
      }
      if st == I.Finished {
        return b, Some(len);
      }
      b := Grown(inf, b, len);
    }
  }
}
