/**
  The inflater's bit register and its view of the input. The whole compressed
  stream is known to the specification only; each call brings a piece of it, and
  loading bytes into the register never changes the bits that are still to come.
 */
module BitReader {
  import opened Bits
  import opened Canonical
  import opened Deflate
  import opened DecodeTable

  const MAX_BITS: nat := 61

  lemma LoadBits(v: nat, n: nat, stream: seq<byte>, p: nat, c: byte)
    requires v < Pow2(n) && p < |stream| && c == stream[p]
    ensures Or(v, Shl(c, n)) < Pow2(n + 8)
    ensures ToBits(Or(v, Shl(c, n)), n + 8) + BytesBits(stream[p + 1..]) == ToBits(v, n) + BytesBits(stream[p..])
  {
    hide Or, Shl, ToBits, Pow2;
    Pow2Small();
    OrShl(v, n, c, 8);
    assert stream[p..][1..] == stream[p + 1..];
    var a, b, d := ToBits(v, n), ToBits(c, 8), BytesBits(stream[p + 1..]);
    assert a + b + d == a + (b + d);
  }

  lemma DropBits(v: nat, n: nat, k: nat, rest: seq<bool>)
    requires v < Pow2(n) && k <= n
    ensures Shr(v, k) < Pow2(n - k)
    ensures ToBits(Shr(v, k), n - k) + rest == (ToBits(v, n) + rest)[k..]
    ensures ToBits(v, k) == (ToBits(v, n) + rest)[..k]
  {
    hide ToBits, Pow2, Shr;
    ToBitsSplit(v, k, n - k);
    assert k + (n - k) == n;
    ShrBound(v, k, n - k);
  }

  lemma ByteBits(stream: seq<byte>, p: nat, v: nat)
    requires p < |stream| && v == stream[p]
    ensures v == Nat(([] + BytesBits(stream[p..]))[..8])
    ensures [] + BytesBits(stream[p + 1..]) == ([] + BytesBits(stream[p..]))[8..]
  {
    hide ToBits, Nat;
    assert stream[p..][1..] == stream[p + 1..];
    var b, d := ToBits(v, 8), BytesBits(stream[p + 1..]);
    assert [] + BytesBits(stream[p..]) == b + d;
    assert (b + d)[..8] == b && (b + d)[8..] == d;
    NatToBits(v, 8);
    Pow2Small();
    LowId(v, 8);
    assert [] + d == d;
  }

  class Reader {
    var bitBuf: nat
    var numBits: nat
    var src: seq<byte>
    var at: nat
    /** TINFL_FLAG_HAS_MORE_INPUT */
    var more: bool
    ghost const stream: seq<byte>
    /** How much of the stream earlier calls have taken. */
    ghost var pos: nat

    ghost predicate Valid()
      reads this
    {
      && numBits <= MAX_BITS && bitBuf < Pow2(numBits) && at <= |src|
      && pos + |src| <= |stream| && src == stream[pos..pos + |src|]
      && (!more ==> pos + |src| == |stream|)
    }

    /** The bits that have not been used yet, in the register and beyond. */
    ghost function Bits(): seq<bool>
      requires pos + at <= |stream|
      reads this
    {
      ToBits(bitBuf, numBits) + BytesBits(stream[pos + at..])
    }

    constructor (ghost stream: seq<byte>)
      ensures Valid() && this.stream == stream && pos == 0 && at == 0 && src == [] && numBits == 0
        && Bits() == BytesBits(stream)
    {
      this.stream := stream;
      bitBuf, numBits, src, at, more, pos := 0, 0, [], 0, true, 0;
      new;
      assert stream[0..] == stream;
      assert BytesBits(stream) == [] + BytesBits(stream);
    }

    /** A new call with the next piece of the stream. */
    method Feed(piece: seq<byte>, more: bool)
      requires Valid() && pos + at + |piece| <= |stream| && piece == stream[pos + at..pos + at + |piece|]
      requires !more ==> pos + at + |piece| == |stream|
      modifies this`src, this`at, this`more, this`pos
      ensures Valid() && Bits() == old(Bits()) && src == piece && at == 0 && this.more == more && pos == old(pos + at)
    {
      pos := pos + at;
      src, at, this.more := piece, 0, more;
    }

    /** bit_buf |= c << num_bits */
    method LoadByte()
      requires Valid() && at < |src| && numBits + 8 <= MAX_BITS
      modifies this`bitBuf, this`numBits, this`at
      ensures Valid() && Bits() == old(Bits()) && numBits == old(numBits) + 8 && at == old(at) + 1
    {
      hide Or, Shl, ToBits, BytesBits, Pow2;
      var c := src[at];
      LoadBits(bitBuf, numBits, stream, pos + at, c);
      bitBuf := Or(bitBuf, Shl(c, numBits));
      numBits := numBits + 8;
      at := at + 1;
    }

    /** If the register does not hold enough, the stream goes on. */
    lemma Beyond(n: nat)
      requires Valid() && numBits < n <= |Bits()|
      ensures pos + at < |stream| && at <= |src| && (at == |src| ==> more)
    {
    }

    /** TINFL_NEED_BITS: false if the input has to be continued first. */
    method Need(n: nat) returns (ok: bool)
      requires Valid() && n <= 16 && n <= |Bits()|
      modifies this`bitBuf, this`numBits, this`at
      ensures Valid() && Bits() == old(Bits()) && at >= old(at)
      ensures ok ==> numBits >= n
      ensures !ok ==> more && at == |src| && pos + at < |stream|
    {
      hide ToBits, BytesBits, Pow2;
      while numBits < n
        invariant Valid() && Bits() == old(Bits()) && at >= old(at)
        decreases n - numBits
      {
        Beyond(n);
        if at >= |src| {
          if more { return false; }
          assert false;
        }
        LoadByte();
      }
      ok := true;
    }

    /** bit_buf >>= n */
    method Drop(n: nat)
      requires Valid() && n <= numBits
      modifies this`bitBuf, this`numBits
      ensures Valid() && Bits() == old(Bits())[n..] && numBits == old(numBits) - n
      ensures ToBits(old(bitBuf), n) == old(Bits())[..n]
    {
      hide ToBits, BytesBits, Pow2, Shr;
      DropBits(bitBuf, numBits, n, BytesBits(stream[pos + at..]));
      bitBuf := Shr(bitBuf, n);
      numBits := numBits - n;
    }

    /** TINFL_GET_BITS. */
    method Get(n: nat) returns (ok: bool, v: nat)
      requires Valid() && n <= 16 && n <= |Bits()|
      modifies this`bitBuf, this`numBits, this`at
      ensures Valid() && at >= old(at)
      ensures ok ==> Bits() == old(Bits())[n..] && v == Nat(old(Bits())[..n])
      ensures !ok ==> Bits() == old(Bits()) && more && at == |src| && pos + at < |stream|
    {
      hide ToBits, BytesBits, Pow2, Shr, Low, Nat;
      v := 0;
      ok := Need(n);
      if ok {
        v := Low(bitBuf, n);
        NatToBits(bitBuf, n);
        Drop(n);
      }
    }

    /** Extra bits, of which there may be none. */
    method GetExtra(n: nat) returns (ok: bool, v: nat)
      requires Valid() && n <= 16 && n <= |Bits()|
      modifies this`bitBuf, this`numBits, this`at
      ensures Valid() && at >= old(at)
      ensures ok ==> Bits() == old(Bits())[n..] && v == Nat(old(Bits())[..n])
      ensures !ok ==> Bits() == old(Bits()) && more && at == |src| && pos + at < |stream|
    {
      hide ToBits, BytesBits, Pow2;
      ok, v := true, 0;
      if n != 0 { ok, v := Get(n); }
    }

    /** TINFL_GET_BYTE with an empty register. */
    method GetByte() returns (ok: bool, v: nat)
      requires Valid() && numBits == 0 && 8 <= |Bits()|
      modifies this`at
      ensures Valid() && at >= old(at) && numBits == 0
      ensures ok ==> Bits() == old(Bits())[8..] && v == Nat(old(Bits())[..8]) && v < 256 && at == old(at) + 1
      ensures !ok ==> Bits() == old(Bits()) && more && at == |src| && pos + at < |stream|
    {
      hide BytesBits, Pow2, Nat;
      v := 0;
      Beyond(8);
      if at >= |src| {
        if more { return false, 0; }
        assert false;
      }
      v := src[at];
      ByteBits(stream, pos + at, v);
      at := at + 1;
      ok := true;
    }

    /** A byte of the input wherever it stands, as the headers are read. */
    method NextByte() returns (ok: bool, v: nat)
      requires Valid() && 8 <= |Bits()|
      modifies this`bitBuf, this`numBits, this`at
      ensures Valid() && at >= old(at)
      ensures ok ==> Bits() == old(Bits())[8..] && v == Nat(old(Bits())[..8]) && v < 256
      ensures !ok ==> Bits() == old(Bits()) && more && at == |src| && pos + at < |stream|
    {
      hide ToBits, BytesBits, Nat;
      Pow2Small();
      if numBits > 0 {
        ok, v := Get(8);
      } else {
        ok, v := GetByte();
      }
    }

    /** TINFL_SKIP_BITS(num_bits & 7): to the next byte boundary of the stream. */
    method SkipToByte()
      requires Valid()
      modifies this`bitBuf, this`numBits
      ensures Valid() && Bits() == Align(old(Bits()))
    {
      hide ToBits, BytesBits, Pow2;
      assert |Bits()| % 8 == numBits % 8;
      Drop(numBits % 8);
    }
  }

  // ---------------------------------------------------------- Huffman codes

  /** The register holds the whole code word of `s`. */
  lemma WordInRegister(t: Table, v: nat, n: nat, rest: seq<bool>, s: nat)
    requires v < Pow2(n) && IsCode(t.lens, s, ToBits(v, n) + rest) && t.lens[s] <= n && t.lens[s] <= MAX_LEN
    ensures IsCode(t.lens, s, ToBits(v, MAX_LEN))
  {
    hide ToBits, CodeBits, Pow2;
    var l := t.lens[s];
    ToBitsSplit(v, l, n - l);
    assert l + (n - l) == n;
    ToBitsSplit(v, l, MAX_LEN - l);
    assert l + (MAX_LEN - l) == MAX_LEN;
    assert CodeBits(t.lens, s) == (ToBits(v, n) + rest)[..l] == ToBits(v, l);
  }

  /** A code word found in the register is the one the stream begins with. */
  lemma RegisterWord(t: Table, v: nat, n: nat, rest: seq<bool>, s: nat)
    requires ValidCode(t.lens) && n <= MAX_LEN && IsCode(t.lens, s, ToBits(v, n) + rest) && t.Suffices(v, n)
    ensures t.lens[s] <= n
  {
    hide ToBits, CodeBits, ValidCode;
    var u: nat :| IsCode(t.lens, u, ToBits(v, MAX_LEN)) && t.lens[u] <= n;
    ToBitsSplit(v, n, MAX_LEN - n);
    assert n + (MAX_LEN - n) == MAX_LEN;
    assert CodeBits(t.lens, u) <= ToBits(v, n);
    PrefixFree(t.lens, s, u, ToBits(v, n) + rest);
  }

  lemma {:induction false} ZeroBits(n: nat)
    ensures forall i :: 0 <= i < n ==> !ToBits(0, n)[i] && !MsbBits(0, n)[i]
  {
    if n == 0 {
    } else {
      ZeroBits(n - 1);
      assert ToBits(0, n) == [false] + ToBits(0, n - 1);
      assert MsbBits(0, n) == MsbBits(0, n - 1) + [false];
    }
  }

  /** The register beyond its bits is zero, and so is the code word of a code with a
      single symbol: the table always finds its way. */
  lemma SomeWord(t: Table, v: nat, n: nat, rest: seq<bool>, s: nat)
    requires ValidCode(t.lens) && v < Pow2(n) && n <= MAX_LEN && IsCode(t.lens, s, ToBits(v, n) + rest)
    ensures Complete(t.lens) || t.Suffices(v, MAX_LEN)
  {
    hide ToBits, Pow2, Complete, MsbBits, Shr;
    if !Complete(t.lens) {
      var l := t.lens[s];
      LoneCode(t.lens, s);
      ZeroBits(l);
      ToBitsSplit(v, n, MAX_LEN - n);
      ShrBound(v, n, 0);
      Pow2Small();
      ZeroBits(MAX_LEN - n);
      assert n + (MAX_LEN - n) == MAX_LEN;
      assert CodeBits(t.lens, s) == MsbBits(0, l);
      forall i | 0 <= i < l ensures CodeBits(t.lens, s)[i] == ToBits(v, MAX_LEN)[i] {
        if i < n { assert CodeBits(t.lens, s)[i] == (ToBits(v, n) + rest)[i]; }
      }
      assert IsCode(t.lens, s, ToBits(v, MAX_LEN));
    }
  }

  lemma CodeLen(t: Table, s: nat, bits: seq<bool>)
    requires ValidCode(t.lens) && IsCode(t.lens, s, bits)
    ensures 1 <= t.lens[s] <= MAX_LEN && t.lens[s] <= |bits|
  {
    ValidLens(t.lens, s);
  }

  lemma TableValid(t: Table)
    requires t.Decodes(t.lens)
    ensures ValidCode(t.lens)
  {
  }

  /** If the register does not hold a whole code word, the stream goes on. */
  lemma NotFound(r: Reader, t: Table, s: nat)
    requires r.Valid() && r.numBits < 15 && t.Decodes(t.lens) && IsCode(t.lens, s, r.Bits())
      && !t.Suffices(r.bitBuf, r.numBits)
    ensures r.pos + r.at < |r.stream| && (r.at == |r.src| ==> r.more)
  {
    hide ToBits, BytesBits, Pow2, CodeBits, t.Decodes;
    TableValid(t);
    CodeLen(t, s, r.Bits());
    if t.lens[s] <= r.numBits {
      WordInRegister(t, r.bitBuf, r.numBits, BytesBits(r.stream[r.pos + r.at..]), s);
    }
  }

  /** TINFL_HUFF_BITBUF_FILL: byte by byte, until the code word is complete. */
  method FillHuff(r: Reader, t: Table, ghost s: nat) returns (ok: bool)
    requires r.Valid() && r.numBits < 15 && t.Decodes(t.lens) && IsCode(t.lens, s, r.Bits())
    modifies r`bitBuf, r`numBits, r`at
    ensures r.Valid() && r.Bits() == old(r.Bits()) && r.at >= old(r.at)
    ensures ok ==> t.lens[s] <= r.numBits
    ensures !ok ==> r.more && r.at == |r.src| && r.pos + r.at < |r.stream|
  {
    hide ToBits, BytesBits, Pow2, CodeBits, ValidCode, t.Decodes;
    TableValid(t);
    CodeLen(t, s, r.Bits());
    while r.numBits < 15
      invariant r.Valid() && r.Bits() == old(r.Bits()) && r.at >= old(r.at)
      decreases 15 - r.numBits
    {
      SomeWord(t, r.bitBuf, r.numBits, BytesBits(r.stream[r.pos + r.at..]), s);
      var found := t.Peek(r.bitBuf, r.numBits);
      if found {
        RegisterWord(t, r.bitBuf, r.numBits, BytesBits(r.stream[r.pos + r.at..]), s);
        return true;
      }
      NotFound(r, t, s);
      if r.at >= |r.src| {
        if r.more { return false; }
        assert false;
      }
      r.LoadByte();
    }
    ok := true;
  }

  /** TINFL_HUFF_DECODE: the symbol the stream begins with, or a suspension at the
      end of the input with nothing lost. */
  method HuffDecode(r: Reader, t: Table, ghost s: nat) returns (ok: bool, sym: nat)
    requires r.Valid() && t.Decodes(t.lens) && IsCode(t.lens, s, r.Bits())
    modifies r`bitBuf, r`numBits, r`at
    ensures r.Valid() && r.at >= old(r.at)
    ensures ok ==> sym == s < MAX_SYMS && r.Bits() == old(r.Bits())[t.lens[s]..]
    ensures !ok ==> r.Bits() == old(r.Bits()) && r.more && r.at == |r.src| && r.pos + r.at < |r.stream|
  {
    hide ToBits, BytesBits, Pow2, CodeBits, ValidCode, t.Decodes, IsCode;
    TableValid(t);
    CodeLen(t, s, r.Bits());
    sym := 0;
    if r.numBits < 15 {
      if |r.src| - r.at < 2 {
        ok := FillHuff(r, t, s);
        if !ok { return; }
      } else {
        r.LoadByte();
        r.LoadByte();
      }
    }
    WordInRegister(t, r.bitBuf, r.numBits, BytesBits(r.stream[r.pos + r.at..]), s);
    var raw, len := t.Decode(r.bitBuf, s);
    sym := raw % 512;
    r.Drop(len);
    ok := true;
  }

  /** The register filled four bytes at a time: two symbols surely fit. */
  method Fill32(r: Reader)
    requires r.Valid() && |r.src| - r.at >= 4
    modifies r`bitBuf, r`numBits, r`at
    ensures r.Valid() && r.Bits() == old(r.Bits()) && r.at >= old(r.at) && r.numBits >= 30
  {
    hide ToBits, BytesBits, Pow2;
    if r.numBits < 30 {
      r.LoadByte();
      r.LoadByte();
      r.LoadByte();
      r.LoadByte();
    }
  }

  /** A lookup without any check of the register: the caller made sure of 15 bits. */
  method FastDecode(r: Reader, t: Table, ghost s: nat) returns (raw: nat)
    requires r.Valid() && r.numBits >= 15 && t.Decodes(t.lens) && IsCode(t.lens, s, r.Bits())
    modifies r`bitBuf, r`numBits
    ensures r.Valid() && raw % 512 == s < MAX_SYMS && r.Bits() == old(r.Bits())[t.lens[s]..]
      && r.numBits >= old(r.numBits) - 15
    ensures r.numBits < old(r.numBits)
  {
    hide ToBits, BytesBits, Pow2, CodeBits, ValidCode, t.Decodes, IsCode;
    TableValid(t);
    CodeLen(t, s, r.Bits());
    WordInRegister(t, r.bitBuf, r.numBits, BytesBits(r.stream[r.pos + r.at..]), s);
    var len;
    raw, len := t.Decode(r.bitBuf, s);
    r.Drop(len);
  }
}
