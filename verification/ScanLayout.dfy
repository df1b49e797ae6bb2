/**
  Where every field of a .3dscan record stands in the file: the packed structures of
  the format, with their offsets written out and numbers least significant byte first.
 */
module ScanLayout {
  import opened Bits
  import opened ScanRecords
  import opened ScanFile

  // ------------------------------------------------------------------- fields

  /** The bytes `p` stand at `at`. */
  ghost predicate At(b: seq<byte>, at: nat, p: seq<byte>)
  {
    at + |p| <= |b| && b[at..at + |p|] == p
  }

  /** An unsigned 32-bit number, least significant byte first. */
  ghost predicate Unsigned(b: seq<byte>, at: nat, n: int)
  {
    && at + 4 <= |b|
    && b[at] as int + 256 * b[at + 1] as int + 65536 * b[at + 2] as int + 16777216 * b[at + 3] as int == n
  }

  /** A signed one, in two's complement. */
  ghost predicate TwosComplement(b: seq<byte>, at: nat, i: int)
  {
    Unsigned(b, at, if i < 0 then 0x1_0000_0000 + i else i)
  }

  /** A name in a field of 32 bytes, filled up with zeros. */
  ghost predicate Named(b: seq<byte>, at: nat, s: Name)
  {
    && at + 32 <= |b| && |s| < 32
    && forall i :: 0 <= i < 32 ==> b[at + i] as int == if i < |s| then s[i] as int else 0
  }

  lemma AtSplit(b: seq<byte>, at: nat, p: seq<byte>, rest: seq<byte>)
    requires At(b, at, p + rest)
    ensures At(b, at, p) && At(b, at + |p|, rest)
  {
    assert b[at..at + |p|] == (p + rest)[..|p|];
    assert b[at + |p|..at + |p| + |rest|] == (p + rest)[|p|..];
  }

  lemma UnsignedAt(b: seq<byte>, at: nat, n: nat)
    requires n < WORD && At(b, at, Le32(n))
    ensures Unsigned(b, at, n)
  {
    hide Le32;
    Le32Back(n);
    var p := b[at..at + 4];
    assert p[0] == b[at] && p[1] == b[at + 1] && p[2] == b[at + 2] && p[3] == b[at + 3];
  }

  lemma SignedAt(b: seq<byte>, at: nat, i: int)
    requires Fits32(i) && At(b, at, LeS(i))
    ensures TwosComplement(b, at, i)
  {
    hide Le32, At;
    UnsignedAt(b, at, if i < 0 then i + WORD else i);
  }

  lemma NamedAt(b: seq<byte>, at: nat, s: Name)
    requires Short(s) && At(b, at, Field(s))
    ensures Named(b, at, s)
  {
    CStrOf(s, 0);
    var f := Field(s);
    forall i | 0 <= i < 32 ensures b[at + i] as int == if i < |s| then s[i] as int else 0 {
      assert b[at..at + 32][i] == f[i];
    }
  }

  lemma Whole(b: seq<byte>)
    ensures At(b, 0, b)
  {
  }

  // ------------------------------------------------------------------ records

  /** The signatures, as text. */
  lemma Signatures()
    ensures |SCAN_SIGN| == 17 && forall i :: 0 <= i < 17 ==> SCAN_SIGN[i] as int == "SEYEDOF 3D FORMAT"[i] as int
    ensures |PART_SIGN| == 4 && forall i :: 0 <= i < 4 ==> PART_SIGN[i] as int == "PART"[i] as int
    ensures |SUBSET_SIGN| == 6 && forall i :: 0 <= i < 6 ==> SUBSET_SIGN[i] as int == "SUBSET"[i] as int
    ensures |MATERIAL_SIGN| == 8 && forall i :: 0 <= i < 8 ==> MATERIAL_SIGN[i] as int == "MATERIAL"[i] as int
    ensures |TEX_SIGN| == 3 && forall i :: 0 <= i < 3 ==> TEX_SIGN[i] as int == "TEX"[i] as int
  {
  }

  lemma FileLayout(h: FileHdr)
    requires ValidFileHdr(h)
    ensures var b := EncodeFile(h);
            && |b| == 46 && At(b, 0, h.sign) && Unsigned(b, 17, h.version) && Unsigned(b, 21, h.tris)
            && TwosComplement(b, 25, h.part) && TwosComplement(b, 29, h.mat) && TwosComplement(b, 33, h.tex)
            && Unsigned(b, 37, 0)
  {
    hide At, Le32, LeS, Unsigned, TwosComplement;
    var b := EncodeFile(h);
    var s5 := Le32(0) + Zeros(5);
    var s4 := LeS(h.tex) + s5;
    var s3 := LeS(h.mat) + s4;
    var s2 := LeS(h.part) + s3;
    var s1 := Le32(h.tris) + s2;
    var s0 := Le32(h.version) + s1;
    Whole(b);
    AtSplit(b, 0, h.sign, s0);
    AtSplit(b, 17, Le32(h.version), s1);
    AtSplit(b, 21, Le32(h.tris), s2);
    AtSplit(b, 25, LeS(h.part), s3);
    AtSplit(b, 29, LeS(h.mat), s4);
    AtSplit(b, 33, LeS(h.tex), s5);
    AtSplit(b, 37, Le32(0), Zeros(5));
    UnsignedAt(b, 17, h.version);
    UnsignedAt(b, 21, h.tris);
    SignedAt(b, 25, h.part);
    SignedAt(b, 29, h.mat);
    SignedAt(b, 33, h.tex);
    UnsignedAt(b, 37, 0);
  }

  lemma PartLayout(h: PartHdr)
    requires ValidPartHdr(h)
    ensures var b := EncodePart(h);
            && |b| == 44 && At(b, 0, h.sign) && Named(b, 4, h.name)
            && TwosComplement(b, 36, h.next) && TwosComplement(b, 40, h.first)
  {
    hide At, LeS, Field, Named, TwosComplement;
    var b := EncodePart(h);
    var s1 := LeS(h.next) + LeS(h.first);
    Whole(b);
    AtSplit(b, 0, h.sign, Field(h.name) + s1);
    AtSplit(b, 4, Field(h.name), s1);
    AtSplit(b, 36, LeS(h.next), LeS(h.first));
    NamedAt(b, 4, h.name);
    SignedAt(b, 36, h.next);
    SignedAt(b, 40, h.first);
  }

  lemma SubsetLayout(h: SubHdr)
    requires ValidSubHdr(h)
    ensures var b := EncodeSub(h);
            && |b| == 76 && At(b, 0, h.sign) && TwosComplement(b, 6, h.next) && Named(b, 10, h.mat)
            && Unsigned(b, 42, h.verts) && Unsigned(b, 46, h.tris) && Unsigned(b, 50, h.fmt)
            && Unsigned(b, 54, h.size) && Unsigned(b, 58, h.packed) && Unsigned(b, 62, h.flags)
  {
    hide At, Le32, LeS, Field, Named, Unsigned, TwosComplement;
    var b := EncodeSub(h);
    var s7 := Le32(h.flags) + Zeros(10);
    var s6 := Le32(h.packed) + s7;
    var s5 := Le32(h.size) + s6;
    var s4 := Le32(h.fmt) + s5;
    var s3 := Le32(h.tris) + s4;
    var s2 := Le32(h.verts) + s3;
    var s1 := Field(h.mat) + s2;
    Whole(b);
    AtSplit(b, 0, h.sign, LeS(h.next) + s1);
    AtSplit(b, 6, LeS(h.next), s1);
    AtSplit(b, 10, Field(h.mat), s2);
    AtSplit(b, 42, Le32(h.verts), s3);
    AtSplit(b, 46, Le32(h.tris), s4);
    AtSplit(b, 50, Le32(h.fmt), s5);
    AtSplit(b, 54, Le32(h.size), s6);
    AtSplit(b, 58, Le32(h.packed), s7);
    AtSplit(b, 62, Le32(h.flags), Zeros(10));
    SignedAt(b, 6, h.next);
    NamedAt(b, 10, h.mat);
    UnsignedAt(b, 42, h.verts);
    UnsignedAt(b, 46, h.tris);
    UnsignedAt(b, 50, h.fmt);
    UnsignedAt(b, 54, h.size);
    UnsignedAt(b, 58, h.packed);
    UnsignedAt(b, 62, h.flags);
  }

  lemma TextureLayout(h: TexHdr)
    requires ValidTexHdr(h)
    ensures var b := EncodeTex(h);
            && |b| == 76 && At(b, 0, h.sign) && Named(b, 3, h.name) && TwosComplement(b, 35, h.next)
            && Unsigned(b, 39, h.fmt) && Unsigned(b, 43, h.size) && Unsigned(b, 47, h.packed)
            && Unsigned(b, 51, h.flags) && At(b, 55, h.color)
  {
    hide At, Le32, LeS, Field, Named, Unsigned, TwosComplement;
    var b := EncodeTex(h);
    var s6 := h.color + Zeros(5);
    var s5 := Le32(h.flags) + s6;
    var s4 := Le32(h.packed) + s5;
    var s3 := Le32(h.size) + s4;
    var s2 := Le32(h.fmt) + s3;
    var s1 := LeS(h.next) + s2;
    Whole(b);
    AtSplit(b, 0, h.sign, Field(h.name) + s1);
    AtSplit(b, 3, Field(h.name), s1);
    AtSplit(b, 35, LeS(h.next), s2);
    AtSplit(b, 39, Le32(h.fmt), s3);
    AtSplit(b, 43, Le32(h.size), s4);
    AtSplit(b, 47, Le32(h.packed), s5);
    AtSplit(b, 51, Le32(h.flags), s6);
    AtSplit(b, 55, h.color, Zeros(5));
    NamedAt(b, 3, h.name);
    SignedAt(b, 35, h.next);
    UnsignedAt(b, 39, h.fmt);
    UnsignedAt(b, 43, h.size);
    UnsignedAt(b, 47, h.packed);
    UnsignedAt(b, 51, h.flags);
  }

  lemma LookLayout(b: seq<byte>, at: nat, m: Material)
    requires ValidMaterial(m) && At(b, at, EncodeLook(m))
    ensures At(b, at, m.diffuse) && At(b, at + 16, m.ambient) && Unsigned(b, at + 32, m.gloss)
    ensures Unsigned(b, at + 36, m.spec) && Unsigned(b, at + 40, m.alpha) && Unsigned(b, at + 44, m.refl)
    ensures Unsigned(b, at + 48, 0)
  {
    hide At, Le32, Unsigned;
    var s3 := Le32(m.refl) + Le32(0);
    var s2 := Le32(m.alpha) + s3;
    var s1 := Le32(m.spec) + s2;
    var s0 := Le32(m.gloss) + s1;
    AtSplit(b, at, m.diffuse, m.ambient + s0);
    AtSplit(b, at + 16, m.ambient, s0);
    AtSplit(b, at + 32, Le32(m.gloss), s1);
    AtSplit(b, at + 36, Le32(m.spec), s2);
    AtSplit(b, at + 40, Le32(m.alpha), s3);
    AtSplit(b, at + 44, Le32(m.refl), Le32(0));
    UnsignedAt(b, at + 32, m.gloss);
    UnsignedAt(b, at + 36, m.spec);
    UnsignedAt(b, at + 40, m.alpha);
    UnsignedAt(b, at + 44, m.refl);
    UnsignedAt(b, at + 48, 0);
  }

  lemma MapsLayout(b: seq<byte>, at: nat, m: Material)
    requires ValidMaterial(m) && At(b, at, EncodeMaps(m))
    ensures Named(b, at, m.diffuseTex) && Named(b, at + 32, m.alphaTex) && Named(b, at + 64, m.reflTex)
    ensures Named(b, at + 96, m.specTex) && Named(b, at + 128, m.normalTex)
  {
    hide At, Field, Named;
    var s2 := Field(m.specTex) + Field(m.normalTex);
    var s1 := Field(m.reflTex) + s2;
    AtSplit(b, at, Field(m.diffuseTex), Field(m.alphaTex) + s1);
    AtSplit(b, at + 32, Field(m.alphaTex), s1);
    AtSplit(b, at + 64, Field(m.reflTex), s2);
    AtSplit(b, at + 96, Field(m.specTex), Field(m.normalTex));
    NamedAt(b, at, m.diffuseTex);
    NamedAt(b, at + 32, m.alphaTex);
    NamedAt(b, at + 64, m.reflTex);
    NamedAt(b, at + 96, m.specTex);
    NamedAt(b, at + 128, m.normalTex);
  }

  lemma MaterialLayout(m: Material, next: int)
    requires ValidMaterial(m) && Fits32(next)
    ensures var b := EncodeMaterial(m, next);
            && |b| == 320 && At(b, 0, MATERIAL_SIGN) && Named(b, 8, m.name) && TwosComplement(b, 40, next)
            && At(b, 44, m.diffuse) && At(b, 60, m.ambient) && Unsigned(b, 76, m.gloss) && Unsigned(b, 80, m.spec)
            && Unsigned(b, 84, m.alpha) && Unsigned(b, 88, m.refl) && Unsigned(b, 92, 0)
            && Named(b, 96, m.diffuseTex) && Named(b, 128, m.alphaTex) && Named(b, 160, m.reflTex)
            && Named(b, 192, m.specTex) && Named(b, 224, m.normalTex)
  {
    hide At, LeS, Field, Named, Unsigned, TwosComplement, EncodeLook, EncodeMaps;
    var b := EncodeMaterial(m, next);
    var s2 := EncodeMaps(m) + Zeros(64);
    var s1 := EncodeLook(m) + s2;
    Whole(b);
    AtSplit(b, 0, MATERIAL_SIGN, Field(m.name) + (LeS(next) + s1));
    AtSplit(b, 8, Field(m.name), LeS(next) + s1);
    AtSplit(b, 40, LeS(next), s1);
    AtSplit(b, 44, EncodeLook(m), s2);
    AtSplit(b, 96, EncodeMaps(m), Zeros(64));
    NamedAt(b, 8, m.name);
    SignedAt(b, 40, next);
    LookLayout(b, 44, m);
    MapsLayout(b, 96, m);
  }

  // -------------------------------------------------------------- whole files

  lemma UnsignedFront(b: seq<byte>, file: seq<byte>, at: nat, n: int)
    requires Holds(file, 0, b) && Unsigned(b, at, n)
    ensures Unsigned(file, at, n)
  {
    forall i | 0 <= i < |b| ensures b[i] == file[i] { assert file[0..|b|][i] == b[i]; }
  }

  /** The header of a saved file: version 1.0, the number of triangles of all subsets
      of all parts (as far as 32 bits hold it), and where the records begin. */
  lemma HeaderOfSaved(file: seq<byte>, z: Packer, ps: seq<Part>, ms: seq<Material>, ts: seq<Texture>)
    requires Saved(file, z, ps, ms, ts)
    ensures Unsigned(file, 17, 65536) && Unsigned(file, 21, PartTris(ps) % 0x1_0000_0000)
    ensures TwosComplement(file, 25, 46)
    ensures TwosComplement(file, 29, if ms == [] then -1 else PartOfs(z, ps, |ps|))
    ensures TwosComplement(file, 33, if ts == [] then -1 else PartOfs(z, ps, |ps|) + 320 * |ms|)
  {
    hide PartAt, MatAt, TexAt, PartOfs, TexOfs, EncodeFile, Holds, Unsigned, At, PartTris;
    var mat := PartOfs(z, ps, |ps|);
    var h := FileHdrOf(PartTris(ps) % WORD, Link(|ms| > 0, mat), Link(|ts| > 0, mat + MATERIAL_SIZE * |ms|));
    var b := EncodeFile(h);
    FileLayout(h);
    UnsignedFront(b, file, 17, 65536);
    UnsignedFront(b, file, 21, PartTris(ps) % WORD);
    UnsignedFront(b, file, 25, 46);
    UnsignedFront(b, file, 29, if h.mat < 0 then WORD + h.mat else h.mat);
    UnsignedFront(b, file, 33, if h.tex < 0 then WORD + h.tex else h.tex);
  }
}
