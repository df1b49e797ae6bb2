/**
  The records of a .3dscan file, byte by byte: how each structure is laid out and
  that reading it back gives its fields.
 */
module ScanRecords {
  import opened Bits

  const WORD: nat := 0x1_0000_0000
  const HALF: nat := 0x8000_0000

  type Name = seq<byte>

  const NAME_SIZE: nat := 32

  // ------------------------------------------------------------------- fields

  function Le32(n: nat): (r: seq<byte>)
    requires n < WORD
    ensures |r| == 4
  {
    [n % 256, n / 256 % 256, n / 65536 % 256, n / 16777216]
  }

  function De32(b: seq<byte>): (n: nat)
    requires |b| == 4
    ensures n < WORD
  {
    b[0] as int + 256 * (b[1] as int) + 65536 * (b[2] as int) + 16777216 * (b[3] as int)
  }

  lemma LowByte(n: nat)
    ensures n == n % 256 + 256 * (n / 256)
  {
  }

  lemma Quarters(n: nat)
    ensures n / 256 / 256 == n / 65536 && n / 65536 / 256 == n / 16777216
  {
  }

  lemma Le32Back(n: nat)
    requires n < WORD
    ensures De32(Le32(n)) == n
  {
    Quarters(n);
    LowByte(n);
    LowByte(n / 256);
    LowByte(n / 65536);
  }

  function Signed(n: nat): int
    requires n < WORD
  {
    if n < HALF then n else n - WORD
  }

  predicate Fits32(i: int)
  {
    -(HALF as int) <= i < HALF
  }

  function LeS(i: int): (r: seq<byte>)
    requires Fits32(i)
    ensures |r| == 4
  {
    Le32(if i < 0 then i + WORD else i)
  }

  lemma LeSBack(i: int)
    requires Fits32(i)
    ensures Signed(De32(LeS(i))) == i
  {
    Le32Back(if i < 0 then i + WORD else i);
  }

  function Zeros(n: nat): (r: seq<byte>)
    ensures |r| == n && forall i :: 0 <= i < n ==> r[i] == 0
  {
    seq<byte>(n, i => 0)
  }

  /** A C string: what stands before the first NUL. */
  function CStr(b: seq<byte>): (r: Name)
    ensures |r| <= |b|
  {
    if b == [] || b[0] == 0 then [] else [b[0]] + CStr(b[1..])
  }

  /** strncpy into a field of 32 bytes. */
  function Field(s: Name): (r: seq<byte>)
    ensures |r| == NAME_SIZE
  {
    var t := CStr(s);
    if |t| >= NAME_SIZE then t[..NAME_SIZE] else t + Zeros(NAME_SIZE - |t|)
  }

  predicate Short(s: Name)
  {
    |s| < NAME_SIZE && forall i :: 0 <= i < |s| ==> s[i] != 0
  }

  lemma {:induction false} CStrOf(s: Name, n: nat)
    requires forall i :: 0 <= i < |s| ==> s[i] != 0
    ensures CStr(s) == s && CStr(s + Zeros(n)) == s
  {
    if s == [] {
      assert s + Zeros(n) == Zeros(n);
    } else {
      CStrOf(s[1..], n);
      assert (s + Zeros(n))[1..] == s[1..] + Zeros(n);
    }
  }

  /** A short name comes back from its field. */
  lemma FieldBack(s: Name)
    requires Short(s)
    ensures CStr(Field(s)) == s
  {
    CStrOf(s, NAME_SIZE - |s|);
  }

  lemma Split(a: seq<byte>, rest: seq<byte>)
    ensures (a + rest)[..|a|] == a && (a + rest)[|a|..] == rest
  {
  }

  // ------------------------------------------------------------------ headers

  const SCAN_SIGN: seq<byte> := [83, 69, 89, 69, 68, 79, 70, 32, 51, 68, 32, 70, 79, 82, 77, 65, 84]
  const PART_SIGN: seq<byte> := [80, 65, 82, 84]
  const SUBSET_SIGN: seq<byte> := [83, 85, 66, 83, 69, 84]
  const MATERIAL_SIGN: seq<byte> := [77, 65, 84, 69, 82, 73, 65, 76]
  const TEX_SIGN: seq<byte> := [84, 69, 88]
  const VERSION: nat := 65536
  const HEADER_SIZE: nat := 46
  const PART_SIZE: nat := 44
  const SUBSET_SIZE: nat := 76
  const MATERIAL_SIZE: nat := 320
  const TEXTURE_SIZE: nat := 76

  datatype FileHdr = FileHdr(sign: seq<byte>, version: nat, tris: nat, part: int, mat: int, tex: int)

  predicate ValidFileHdr(h: FileHdr)
  {
    |h.sign| == 17 && h.version < WORD && h.tris < WORD && Fits32(h.part) && Fits32(h.mat) && Fits32(h.tex)
  }

  function EncodeFile(h: FileHdr): (r: seq<byte>)
    requires ValidFileHdr(h)
    ensures |r| == HEADER_SIZE
  {
    h.sign + (Le32(h.version) + (Le32(h.tris) + (LeS(h.part) + (LeS(h.mat) + (LeS(h.tex) + (Le32(0) + Zeros(5)))))))
  }

  function DecodeFile(b: seq<byte>): FileHdr
    requires |b| == HEADER_SIZE
  {
    var r0 := b[17..];
    var r1 := r0[4..];
    var r2 := r1[4..];
    var r3 := r2[4..];
    var r4 := r3[4..];
    FileHdr(b[..17], De32(r0[..4]), De32(r1[..4]), Signed(De32(r2[..4])), Signed(De32(r3[..4])), Signed(De32(r4[..4])))
  }

  lemma FileBack(h: FileHdr)
    requires ValidFileHdr(h)
    ensures DecodeFile(EncodeFile(h)) == h
  {
    hide Le32, De32, LeS, Signed;
    var s5 := Le32(0) + Zeros(5);
    var s4 := LeS(h.tex) + s5;
    var s3 := LeS(h.mat) + s4;
    var s2 := LeS(h.part) + s3;
    var s1 := Le32(h.tris) + s2;
    var s0 := Le32(h.version) + s1;
    Split(h.sign, s0);
    Split(Le32(h.version), s1);
    Split(Le32(h.tris), s2);
    Split(LeS(h.part), s3);
    Split(LeS(h.mat), s4);
    Split(LeS(h.tex), s5);
    Le32Back(h.version);
    Le32Back(h.tris);
    LeSBack(h.part);
    LeSBack(h.mat);
    LeSBack(h.tex);
  }

  datatype PartHdr = PartHdr(sign: seq<byte>, name: Name, next: int, first: int)

  predicate ValidPartHdr(h: PartHdr)
  {
    |h.sign| == 4 && Short(h.name) && Fits32(h.next) && Fits32(h.first)
  }

  function EncodePart(h: PartHdr): (r: seq<byte>)
    requires ValidPartHdr(h)
    ensures |r| == PART_SIZE
  {
    h.sign + (Field(h.name) + (LeS(h.next) + LeS(h.first)))
  }

  function DecodePart(b: seq<byte>): PartHdr
    requires |b| == PART_SIZE
  {
    var r0 := b[4..];
    var r1 := r0[32..];
    PartHdr(b[..4], CStr(r0[..32]), Signed(De32(r1[..4])), Signed(De32(r1[4..])))
  }

  lemma PartBack(h: PartHdr)
    requires ValidPartHdr(h)
    ensures DecodePart(EncodePart(h)) == h
  {
    hide De32, LeS, Signed, CStr, Field;
    var s1 := LeS(h.next) + LeS(h.first);
    var s0 := Field(h.name) + s1;
    Split(h.sign, s0);
    Split(Field(h.name), s1);
    Split(LeS(h.next), LeS(h.first));
    FieldBack(h.name);
    LeSBack(h.next);
    LeSBack(h.first);
  }

  datatype SubHdr = SubHdr(sign: seq<byte>, next: int, mat: Name, verts: nat, tris: nat, fmt: nat, size: nat,
    packed: nat, flags: nat)

  predicate ValidSubHdr(h: SubHdr)
  {
    && |h.sign| == 6 && Fits32(h.next) && Short(h.mat) && h.verts < WORD && h.tris < WORD && h.fmt < WORD
    && h.size < WORD && h.packed < WORD && h.flags < WORD
  }

  function EncodeSub(h: SubHdr): (r: seq<byte>)
    requires ValidSubHdr(h)
    ensures |r| == SUBSET_SIZE
  {
    h.sign + (LeS(h.next) + (Field(h.mat) + (Le32(h.verts)
      + (Le32(h.tris) + (Le32(h.fmt) + (Le32(h.size) + (Le32(h.packed)
      + (Le32(h.flags) + Zeros(10)))))))))
  }

  function DecodeSub(b: seq<byte>): SubHdr
    requires |b| == SUBSET_SIZE
  {
    var r0 := b[6..];
    var r1 := r0[4..];
    var r2 := r1[32..];
    var r3 := r2[4..];
    var r4 := r3[4..];
    var r5 := r4[4..];
    var r6 := r5[4..];
    var r7 := r6[4..];
    SubHdr(b[..6], Signed(De32(r0[..4])), CStr(r1[..32]), De32(r2[..4]), De32(r3[..4]), De32(r4[..4]), De32(r5[..4]),
           De32(r6[..4]), De32(r7[..4]))
  }

  lemma SubBack(h: SubHdr)
    requires ValidSubHdr(h)
    ensures DecodeSub(EncodeSub(h)) == h
  {
    hide De32, Le32, LeS, Signed, CStr, Field;
    var s7 := Le32(h.flags) + Zeros(10);
    var s6 := Le32(h.packed) + s7;
    var s5 := Le32(h.size) + s6;
    var s4 := Le32(h.fmt) + s5;
    var s3 := Le32(h.tris) + s4;
    var s2 := Le32(h.verts) + s3;
    var s1 := Field(h.mat) + s2;
    var s0 := LeS(h.next) + s1;
    Split(h.sign, s0);
    Split(LeS(h.next), s1);
    Split(Field(h.mat), s2);
    Split(Le32(h.verts), s3);
    Split(Le32(h.tris), s4);
    Split(Le32(h.fmt), s5);
    Split(Le32(h.size), s6);
    Split(Le32(h.packed), s7);
    Split(Le32(h.flags), Zeros(10));
    LeSBack(h.next);
    FieldBack(h.mat);
    Le32Back(h.verts);
    Le32Back(h.tris);
    Le32Back(h.fmt);
    Le32Back(h.size);
    Le32Back(h.packed);
    Le32Back(h.flags);
  }

  /** A material as it is stored; colours and factors are bit patterns. */
  datatype Material = Material(name: Name, diffuse: seq<byte>, ambient: seq<byte>, gloss: nat, spec: nat, alpha: nat,
    refl: nat,
                               diffuseTex: Name, alphaTex: Name, reflTex: Name, specTex: Name, normalTex: Name)

  predicate ValidMaterial(m: Material)
  {
    && Short(m.name) && |m.diffuse| == 16 && |m.ambient| == 16
    && m.gloss < WORD && m.spec < WORD && m.alpha < WORD && m.refl < WORD
    && Short(m.diffuseTex) && Short(m.alphaTex) && Short(m.reflTex) && Short(m.specTex) && Short(m.normalTex)
  }

  function EncodeLook(m: Material): (r: seq<byte>)
    requires ValidMaterial(m)
    ensures |r| == 52
  {
    m.diffuse + (m.ambient + (Le32(m.gloss) + (Le32(m.spec) + (Le32(m.alpha) + (Le32(m.refl) + Le32(0))))))
  }

  function EncodeMaps(m: Material): (r: seq<byte>)
    ensures |r| == 160
  {
    Field(m.diffuseTex) + (Field(m.alphaTex) + (Field(m.reflTex) + (Field(m.specTex) + Field(m.normalTex))))
  }

  function EncodeMaterial(m: Material, next: int): (r: seq<byte>)
    requires ValidMaterial(m) && Fits32(next)
    ensures |r| == MATERIAL_SIZE
  {
    MATERIAL_SIGN + (Field(m.name) + (LeS(next) + (EncodeLook(m) + (EncodeMaps(m) + Zeros(64)))))
  }

  /** Signature, material, link. */
  function DecodeMaterial(b: seq<byte>): (seq<byte>, Material, int)
    requires |b| == MATERIAL_SIZE
  {
    var r0 := b[8..];
    var r1 := r0[32..];
    var r2 := r1[4..];
    var look := r2[..52];
    var l1 := look[16..];
    var l2 := l1[16..];
    var l3 := l2[4..];
    var l4 := l3[4..];
    var l5 := l4[4..];
    var maps := r2[52..][..160];
    var m1 := maps[32..];
    var m2 := m1[32..];
    var m3 := m2[32..];
    (b[..8],
     Material(CStr(r0[..32]), look[..16], l1[..16], De32(l2[..4]), De32(l3[..4]), De32(l4[..4]), De32(l5[..4]),
              CStr(maps[..32]), CStr(m1[..32]), CStr(m2[..32]), CStr(m3[..32]), CStr(m3[32..])),
     Signed(De32(r1[..4])))
  }

  lemma LookBack(m: Material)
    requires ValidMaterial(m)
    ensures var look := EncodeLook(m);
            var l1 := look[16..]; var l2 := l1[16..]; var l3 := l2[4..]; var l4 := l3[4..]; var l5 := l4[4..];
            look[..16] == m.diffuse && l1[..16] == m.ambient && De32(l2[..4]) == m.gloss && De32(l3[..4]) == m.spec
            && De32(l4[..4]) == m.alpha && De32(l5[..4]) == m.refl
  {
    hide De32, Le32;
    var s5 := Le32(m.refl) + Le32(0);
    var s4 := Le32(m.alpha) + s5;
    var s3 := Le32(m.spec) + s4;
    var s2 := Le32(m.gloss) + s3;
    var s1 := m.ambient + s2;
    Split(m.diffuse, s1);
    Split(m.ambient, s2);
    Split(Le32(m.gloss), s3);
    Split(Le32(m.spec), s4);
    Split(Le32(m.alpha), s5);
    Split(Le32(m.refl), Le32(0));
    Le32Back(m.gloss);
    Le32Back(m.spec);
    Le32Back(m.alpha);
    Le32Back(m.refl);
  }

  lemma MapsBack(m: Material)
    requires ValidMaterial(m)
    ensures var maps := EncodeMaps(m);
            var m1 := maps[32..]; var m2 := m1[32..]; var m3 := m2[32..];
            CStr(maps[..32]) == m.diffuseTex && CStr(m1[..32]) == m.alphaTex && CStr(m2[..32]) == m.reflTex
            && CStr(m3[..32]) == m.specTex && CStr(m3[32..]) == m.normalTex
  {
    hide CStr, Field;
    var s3 := Field(m.specTex) + Field(m.normalTex);
    var s2 := Field(m.reflTex) + s3;
    var s1 := Field(m.alphaTex) + s2;
    Split(Field(m.diffuseTex), s1);
    Split(Field(m.alphaTex), s2);
    Split(Field(m.reflTex), s3);
    Split(Field(m.specTex), Field(m.normalTex));
    FieldBack(m.diffuseTex);
    FieldBack(m.alphaTex);
    FieldBack(m.reflTex);
    FieldBack(m.specTex);
    FieldBack(m.normalTex);
  }

  lemma MaterialBack(m: Material, next: int)
    requires ValidMaterial(m) && Fits32(next)
    ensures DecodeMaterial(EncodeMaterial(m, next)) == (MATERIAL_SIGN, m, next)
  {
    hide De32, LeS, Signed, CStr, Field, EncodeLook, EncodeMaps;
    var s3 := EncodeMaps(m) + Zeros(64);
    var s2 := EncodeLook(m) + s3;
    var s1 := LeS(next) + s2;
    var s0 := Field(m.name) + s1;
    Split(MATERIAL_SIGN, s0);
    Split(Field(m.name), s1);
    Split(LeS(next), s2);
    Split(EncodeLook(m), s3);
    Split(EncodeMaps(m), Zeros(64));
    FieldBack(m.name);
    LeSBack(next);
    LookBack(m);
    MapsBack(m);
  }

  datatype TexHdr = TexHdr(sign: seq<byte>, name: Name, next: int, fmt: nat, size: nat, packed: nat, flags: nat,
    color: seq<byte>)

  predicate ValidTexHdr(h: TexHdr)
  {
    && |h.sign| == 3 && Short(h.name) && Fits32(h.next) && h.fmt < WORD && h.size < WORD && h.packed < WORD
    && h.flags < WORD && |h.color| == 16
  }

  function EncodeTex(h: TexHdr): (r: seq<byte>)
    requires ValidTexHdr(h)
    ensures |r| == TEXTURE_SIZE
  {
    h.sign + (Field(h.name) + (LeS(h.next) + (Le32(h.fmt)
      + (Le32(h.size) + (Le32(h.packed) + (Le32(h.flags) + (h.color + Zeros(5))))))))
  }

  function DecodeTex(b: seq<byte>): TexHdr
    requires |b| == TEXTURE_SIZE
  {
    var r0 := b[3..];
    var r1 := r0[32..];
    var r2 := r1[4..];
    var r3 := r2[4..];
    var r4 := r3[4..];
    var r5 := r4[4..];
    var r6 := r5[4..];
    TexHdr(b[..3], CStr(r0[..32]), Signed(De32(r1[..4])), De32(r2[..4]), De32(r3[..4]), De32(r4[..4]), De32(r5[..4]),
      r6[..16])
  }

  lemma TexBack(h: TexHdr)
    requires ValidTexHdr(h)
    ensures DecodeTex(EncodeTex(h)) == h
  {
    hide De32, Le32, LeS, Signed, CStr, Field;
    var s6 := h.color + Zeros(5);
    var s5 := Le32(h.flags) + s6;
    var s4 := Le32(h.packed) + s5;
    var s3 := Le32(h.size) + s4;
    var s2 := Le32(h.fmt) + s3;
    var s1 := LeS(h.next) + s2;
    var s0 := Field(h.name) + s1;
    Split(h.sign, s0);
    Split(Field(h.name), s1);
    Split(LeS(h.next), s2);
    Split(Le32(h.fmt), s3);
    Split(Le32(h.size), s4);
    Split(Le32(h.packed), s5);
    Split(Le32(h.flags), s6);
    Split(h.color, Zeros(5));
    FieldBack(h.name);
    LeSBack(h.next);
    Le32Back(h.fmt);
    Le32Back(h.size);
    Le32Back(h.packed);
    Le32Back(h.flags);
  }
}
