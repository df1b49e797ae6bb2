/**
  The .3dscan writer and reader. The writer appends records and goes back to patch
  the links in their headers; the reader follows the links. What was written comes
  back, whatever was compressed.
 */
module ScanFile {
  import opened Bits
  import opened ScanRecords

  // -------------------------------------------------------------------- model

  datatype Float3 = Float3(x: real, y: real, z: real)

  /** Vertices and indices are byte strings: `verts` vertices of the size that the
      format gives, three 32-bit indices for each triangle. */
  datatype Subset = Subset(vb: seq<byte>, ib: seq<byte>, verts: nat, tris: nat, mat: Name, fmt: nat)

  datatype Part = Part(name: Name, subsets: seq<Subset>)

  datatype Texture = Texture(name: Name, color: seq<byte>, fmt: nat, data: seq<byte>)

  datatype Model = Model(parts: seq<Part>, materials: map<Name, Material>, textures: map<Name, Texture>)

  /** C3DScanFileUtils::GetVertexSize: position 1, normal 2, texture position 4. */
  function VertexSize(fmt: nat): (n: nat)
    ensures n <= 32
  {
    (if fmt % 2 == 1 then 12 else 0) + (if fmt / 2 % 2 == 1 then 12 else 0) + (if fmt / 4 % 2 == 1 then 8 else 0)
  }

  predicate ValidSubset(s: Subset)
  {
    && Short(s.mat) && s.fmt < WORD
    && |s.vb| == VertexSize(s.fmt) * s.verts && |s.ib| == 12 * s.tris
    && s.verts < WORD && s.tris < WORD && |s.vb + s.ib| < HALF
  }

  predicate ValidPart(p: Part)
  {
    Short(p.name) && forall j :: 0 <= j < |p.subsets| ==> ValidSubset(p.subsets[j])
  }

  predicate ValidTexture(t: Texture)
  {
    Short(t.name) && |t.color| == 16 && t.fmt < WORD && |t.data| < HALF
  }

  ghost predicate ValidModel(m: Model)
  {
    && (forall k :: 0 <= k < |m.parts| ==> ValidPart(m.parts[k]))
    && (forall n :: n in m.materials ==> ValidMaterial(m.materials[n]) && m.materials[n].name == n)
    && (forall n :: n in m.textures ==> ValidTexture(m.textures[n]) && m.textures[n].name == n)
  }

  // -------------------------------------------------------------- compression

  /** LZ4 and the flag that turns it off. */
  datatype Packer = Packer(compress: seq<byte> -> seq<byte>, decompress: (seq<byte>, nat) -> seq<byte>, plain: bool)

  /** All that is assumed of LZ4. */
  ghost predicate Undoes(z: Packer)
  {
    && (forall s :: z.decompress(z.compress(s), |s|) == s)
    && (forall s, n :: |z.decompress(s, n)| == n)
  }

  /** size * 8 / 10 in 32 bits, as the processor calculates it: the product may wrap,
      the division rounds toward zero. */
  function EightTenths(size: nat): (r: int)
    ensures r <= size
  {
    var w := Signed(size * 8 % WORD);
    if w >= 0 then w / 10 else -(-w / 10)
  }

  /** Below 256 MB it is four fifths, rounded down; beyond, the product wraps. */
  lemma FourFifths(size: nat)
    requires size < 0x1000_0000
    ensures 5 * EightTenths(size) <= 4 * size < 5 * EightTenths(size) + 5
  {
  }

  predicate Shrinks(z: Packer, data: seq<byte>)
  {
    !z.plain && |z.compress(data)| < EightTenths(|data|)
  }

  function Packed(z: Packer, data: seq<byte>): (r: seq<byte>)
    ensures |r| <= |data|
  {
    if Shrinks(z, data) then z.compress(data) else data
  }

  function Flags(z: Packer, data: seq<byte>): nat
  {
    if Shrinks(z, data) then 1 else 0
  }

  /** Data is compressed, and marked so, exactly if that takes less than four fifths. */
  lemma PackedMeans(z: Packer, data: seq<byte>)
    requires |data| < 0x1000_0000
    ensures var smaller := !z.plain && 5 * |z.compress(data)| + 5 <= 4 * |data|;
            && Packed(z, data) == (if smaller then z.compress(data) else data)
            && Flags(z, data) == (if smaller then 1 else 0)
  {
    FourFifths(|data|);
  }

  // ------------------------------------------------------------------- layout

  function SubLen(z: Packer, s: Subset): nat
  {
    SUBSET_SIZE + |Packed(z, s.vb + s.ib)|
  }

  /** The bytes of the first `j` subsets. */
  function SubsLen(z: Packer, ss: seq<Subset>, j: nat): nat
    requires j <= |ss|
  {
    if j == 0 then 0 else SubsLen(z, ss, j - 1) + SubLen(z, ss[j - 1])
  }

  function PartLen(z: Packer, p: Part): nat
  {
    PART_SIZE + SubsLen(z, p.subsets, |p.subsets|)
  }

  function PartOfs(z: Packer, ps: seq<Part>, k: nat): nat
    requires k <= |ps|
  {
    if k == 0 then HEADER_SIZE else PartOfs(z, ps, k - 1) + PartLen(z, ps[k - 1])
  }

  function TexOfs(z: Packer, base: nat, ts: seq<Texture>, i: nat): nat
    requires i <= |ts|
  {
    if i == 0 then base else TexOfs(z, base, ts, i - 1) + TEXTURE_SIZE + |Packed(z, ts[i - 1].data)|
  }

  /** The link to the next record, -1 behind the last. */
  function Link(more: bool, ofs: nat): int
  {
    if more then ofs else -1
  }

  function SubHdrOf(z: Packer, base: nat, ss: seq<Subset>, j: nat): SubHdr
    requires j < |ss|
  {
    var s := ss[j];
    var data := s.vb + s.ib;
    SubHdr(SUBSET_SIGN, Link(j + 1 < |ss|, base + SubsLen(z, ss, j + 1)), s.mat, s.verts, s.tris, s.fmt, |data|,
           |Packed(z, data)|, Flags(z, data))
  }

  function PartHdrOf(z: Packer, ps: seq<Part>, k: nat): PartHdr
    requires k < |ps|
  {
    PartHdr(PART_SIGN, ps[k].name, Link(k + 1 < |ps|, PartOfs(z, ps, k + 1)), PartOfs(z, ps, k) + PART_SIZE)
  }

  function TexHdrOf(z: Packer, base: nat, ts: seq<Texture>, i: nat): TexHdr
    requires i < |ts|
  {
    var t := ts[i];
    TexHdr(TEX_SIGN, t.name, Link(i + 1 < |ts|, TexOfs(z, base, ts, i + 1)), t.fmt, |t.data|, |Packed(z, t.data)|,
      Flags(z, t.data), t.color)
  }

  ghost predicate Holds(file: seq<byte>, ofs: nat, b: seq<byte>)
  {
    ofs + |b| <= |file| && file[ofs..ofs + |b|] == b
  }

  lemma HoldsMore(file: seq<byte>, more: seq<byte>, ofs: nat, b: seq<byte>)
    requires Holds(file, ofs, b)
    ensures Holds(file + more, ofs, b)
  {
    assert (file + more)[ofs..ofs + |b|] == file[ofs..ofs + |b|];
  }

  lemma HoldsNew(file: seq<byte>, b: seq<byte>)
    ensures Holds(file + b, |file|, b)
  {
  }

  /** fseek and fwrite inside the file. */
  function Patch(file: seq<byte>, at: nat, b: seq<byte>): (r: seq<byte>)
    requires at + |b| <= |file|
    ensures |r| == |file| && Holds(r, at, b)
    ensures forall i :: 0 <= i < |r| && !(at <= i < at + |b|) ==> r[i] == file[i]
  {
    file[..at] + b + file[at + |b|..]
  }

  lemma HoldsBeside(file: seq<byte>, at: nat, p: seq<byte>, ofs: nat, b: seq<byte>)
    requires at + |p| <= |file| && Holds(file, ofs, b) && (ofs + |b| <= at || at + |p| <= ofs)
    ensures Holds(Patch(file, at, p), ofs, b)
  {
    var f := Patch(file, at, p);
    assert forall i :: ofs <= i < ofs + |b| ==> f[i] == file[i];
  }

  /** Header and data of subset `j`. */
  ghost predicate SubAt(file: seq<byte>, z: Packer, base: nat, ss: seq<Subset>, j: nat)
    requires j < |ss|
  {
    && ValidSubHdr(SubHdrOf(z, base, ss, j))
    && Holds(file, base + SubsLen(z, ss, j), EncodeSub(SubHdrOf(z, base, ss, j)))
    && Holds(file, base + SubsLen(z, ss, j) + SUBSET_SIZE, Packed(z, ss[j].vb + ss[j].ib))
  }

  ghost predicate SubsAt(file: seq<byte>, z: Packer, base: nat, ss: seq<Subset>)
  {
    forall j :: 0 <= j < |ss| ==> SubAt(file, z, base, ss, j)
  }

  ghost predicate PartAt(file: seq<byte>, z: Packer, ps: seq<Part>, k: nat)
    requires k < |ps|
  {
    && ValidPartHdr(PartHdrOf(z, ps, k))
    && Holds(file, PartOfs(z, ps, k), EncodePart(PartHdrOf(z, ps, k)))
    && SubsAt(file, z, PartOfs(z, ps, k) + PART_SIZE, ps[k].subsets)
  }

  function FileHdrOf(tris: nat, mat: int, tex: int): FileHdr
  {
    FileHdr(SCAN_SIGN, VERSION, tris, HEADER_SIZE, mat, tex)
  }

  /** The file header, whatever number of triangles it gives. */
  ghost predicate HeaderAt(file: seq<byte>, tris: nat, mat: int, tex: int)
  {
    ValidFileHdr(FileHdrOf(tris, mat, tex)) && Holds(file, 0, EncodeFile(FileHdrOf(tris, mat, tex)))
  }

  /** All triangles of some subsets, and of some parts. */
  ghost function SubsetTris(ss: seq<Subset>): nat
  {
    if ss == [] then 0 else SubsetTris(ss[..|ss| - 1]) + ss[|ss| - 1].tris
  }

  ghost function PartTris(ps: seq<Part>): nat
  {
    if ps == [] then 0 else PartTris(ps[..|ps| - 1]) + SubsetTris(ps[|ps| - 1].subsets)
  }

  lemma OneMoreSubset(ss: seq<Subset>, j: nat)
    requires j < |ss|
    ensures SubsetTris(ss[..j + 1]) == SubsetTris(ss[..j]) + ss[j].tris
  {
    assert ss[..j + 1][..j] == ss[..j];
  }

  lemma OneMorePart(ps: seq<Part>, k: nat)
    requires k < |ps|
    ensures PartTris(ps[..k + 1]) == PartTris(ps[..k]) + SubsetTris(ps[k].subsets)
  {
    hide SubsetTris;
    assert ps[..k + 1][..k] == ps[..k];
  }

  lemma WrapSum(a: nat, b: nat)
    ensures (a % WORD + b) % WORD == (a + b) % WORD
  {
  }

  ghost predicate MatAt(file: seq<byte>, base: nat, ms: seq<Material>, i: nat)
    requires i < |ms|
  {
    var next := Link(i + 1 < |ms|, base + MATERIAL_SIZE * (i + 1));
    ValidMaterial(ms[i]) && Fits32(next) && Holds(file, base + MATERIAL_SIZE * i, EncodeMaterial(ms[i], next))
  }

  ghost predicate TexAt(file: seq<byte>, z: Packer, base: nat, ts: seq<Texture>, i: nat)
    requires i < |ts|
  {
    && ValidTexHdr(TexHdrOf(z, base, ts, i))
    && Holds(file, TexOfs(z, base, ts, i), EncodeTex(TexHdrOf(z, base, ts, i)))
    && Holds(file, TexOfs(z, base, ts, i) + TEXTURE_SIZE, Packed(z, ts[i].data))
  }

  /** A whole file: every record where the links lead. */
  ghost predicate Saved(file: seq<byte>, z: Packer, ps: seq<Part>, ms: seq<Material>, ts: seq<Texture>)
  {
    var mat := PartOfs(z, ps, |ps|);
    var tex := mat + MATERIAL_SIZE * |ms|;
    && |file| == TexOfs(z, tex, ts, |ts|) < HALF
    && HeaderAt(file, PartTris(ps) % WORD, Link(|ms| > 0, mat), Link(|ts| > 0, tex))
    && (forall k :: 0 <= k < |ps| ==> PartAt(file, z, ps, k))
    && (forall i :: 0 <= i < |ms| ==> MatAt(file, mat, ms, i))
    && (forall i :: 0 <= i < |ts| ==> TexAt(file, z, tex, ts, i))
  }

  // ------------------------------------------------------------------ offsets

  lemma {:induction false} SubsGrow(z: Packer, ss: seq<Subset>, i: nat, j: nat)
    requires i <= j <= |ss|
    ensures SubsLen(z, ss, i) + SUBSET_SIZE * (j - i) <= SubsLen(z, ss, j)
    decreases j - i
  {
    hide Packed;
    if i == j {
    } else {
      SubsGrow(z, ss, i, j - 1);
    }
  }

  lemma {:induction false} PartsGrow(z: Packer, ps: seq<Part>, i: nat, j: nat)
    requires i <= j <= |ps|
    ensures PartOfs(z, ps, i) + PART_SIZE * (j - i) <= PartOfs(z, ps, j)
    decreases j - i
  {
    hide SubsLen;
    if i == j {
    } else {
      PartsGrow(z, ps, i, j - 1);
    }
  }

  lemma {:induction false} TexGrow(z: Packer, base: nat, ts: seq<Texture>, i: nat, j: nat)
    requires i <= j <= |ts|
    ensures TexOfs(z, base, ts, i) + TEXTURE_SIZE * (j - i) <= TexOfs(z, base, ts, j)
    decreases j - i
  {
    hide Packed;
    if i == j {
    } else {
      TexGrow(z, base, ts, i, j - 1);
    }
  }

  /** The records of one kind stand in the order of the file, without overlap. */
  lemma LinksIncrease(z: Packer, ps: seq<Part>, k: nat, j: nat)
    requires k < |ps| && j < |ps[k].subsets|
    ensures PartOfs(z, ps, k) < PartOfs(z, ps, k) + PART_SIZE + SubsLen(z, ps[k].subsets, j)
         <  PartOfs(z, ps, k) + PART_SIZE + SubsLen(z, ps[k].subsets, j + 1) <= PartOfs(z, ps, k + 1)
  {
    hide Packed;
    SubsGrow(z, ps[k].subsets, j + 1, |ps[k].subsets|);
    SubsGrow(z, ps[k].subsets, j, j + 1);
  }

  // -------------------------------------------------------------------- saver

  method SaveSubset(z: Packer, file0: seq<byte>, ss: seq<Subset>, j: nat, ghost base: nat) returns (file: seq<byte>)
    requires j < |ss| && |file0| == base + SubsLen(z, ss, j) && ValidSubset(ss[j])
    requires base + SubsLen(z, ss, j + 1) < HALF
    ensures file0 <= file && |file| == base + SubsLen(z, ss, j + 1) && SubAt(file, z, base, ss, j)
  {
    hide EncodeSub, VertexSize, Holds, Signed;
    var s := ss[j];
    var src := s.vb + s.ib;
    var small := if z.plain then [] else z.compress(src);
    var useSmall := |small| < EightTenths(|src|);
    if z.plain { useSmall := false; }
    var packed := if useSmall then |small| else |src|;
    var next := if j < |ss| - 1 then |file0| + packed + SUBSET_SIZE else -1;
    assert packed == |Packed(z, src)|;
    var hdr := SubHdr(SUBSET_SIGN, next, s.mat, s.verts, s.tris, s.fmt, |src|, packed, if useSmall then 1 else 0);
    assert hdr == SubHdrOf(z, base, ss, j);
    file := file0 + EncodeSub(hdr);
    HoldsNew(file0, EncodeSub(hdr));
    ghost var file1 := file;
    if useSmall {
      file := file + small;
    } else {
      file := file + s.vb + s.ib;
      assert file == file1 + src;
    }
    HoldsNew(file1, Packed(z, src));
    HoldsMore(file1, Packed(z, src), |file0|, EncodeSub(hdr));
  }

  lemma SubStays(file: seq<byte>, file': seq<byte>, z: Packer, base: nat, ss: seq<Subset>, j: nat)
    requires j < |ss| && SubAt(file, z, base, ss, j) && file <= file'
    ensures SubAt(file', z, base, ss, j)
  {
    hide Packed, EncodeSub;
    var more := file'[|file|..];
    assert file' == file + more;
    HoldsMore(file, more, base + SubsLen(z, ss, j), EncodeSub(SubHdrOf(z, base, ss, j)));
    HoldsMore(file, more, base + SubsLen(z, ss, j) + SUBSET_SIZE, Packed(z, ss[j].vb + ss[j].ib));
  }

  lemma SubBeside(file: seq<byte>, at: nat, p: seq<byte>, z: Packer, base: nat, ss: seq<Subset>, j: nat)
    requires j < |ss| && SubAt(file, z, base, ss, j) && at + |p| <= base && at + |p| <= |file|
    ensures SubAt(Patch(file, at, p), z, base, ss, j)
  {
    hide Packed, EncodeSub, Patch;
    HoldsBeside(file, at, p, base + SubsLen(z, ss, j), EncodeSub(SubHdrOf(z, base, ss, j)));
    HoldsBeside(file, at, p, base + SubsLen(z, ss, j) + SUBSET_SIZE, Packed(z, ss[j].vb + ss[j].ib));
  }

  method SaveSubsets(z: Packer, file0: seq<byte>, ss: seq<Subset>) returns (file: seq<byte>, tris: nat)
    requires (forall j :: 0 <= j < |ss| ==> ValidSubset(ss[j])) && |file0| + SubsLen(z, ss, |ss|) < HALF
    ensures file0 <= file && |file| == |file0| + SubsLen(z, ss, |ss|)
    ensures SubsAt(file, z, |file0|, ss) && tris == SubsetTris(ss)
  {
    hide SubAt, ValidSubset, Packed;
    file, tris := file0, 0;
    var j := 0;
    while j < |ss|
      invariant 0 <= j <= |ss| && file0 <= file && |file| == |file0| + SubsLen(z, ss, j)
      invariant tris == SubsetTris(ss[..j]) && forall i :: 0 <= i < j ==> SubAt(file, z, |file0|, ss, i)
    {
      SubsGrow(z, ss, j + 1, |ss|);
      ghost var before := file;
      file := SaveSubset(z, file, ss, j, |file0|);
      forall i | 0 <= i < j ensures SubAt(file, z, |file0|, ss, i) { SubStays(before, file, z, |file0|, ss, i); }
      OneMoreSubset(ss, j);
      tris := tris + ss[j].tris;
      j := j + 1;
    }
    assert ss[..j] == ss;
  }

  /** A part: its header without a link, its subsets, and the header again. */
  method SavePart(z: Packer, file0: seq<byte>, ps: seq<Part>, k: nat) returns (file: seq<byte>, tris: nat)
    requires k < |ps| && |file0| == PartOfs(z, ps, k) && ValidPart(ps[k]) && PartOfs(z, ps, k + 1) < HALF
    ensures file0 <= file && |file| == PartOfs(z, ps, k + 1) && PartAt(file, z, ps, k)
    ensures tris == SubsetTris(ps[k].subsets)
  {
    hide SubAt, ValidSubset, Packed, SubsetTris;
    var hdr := PartHdr(PART_SIGN, ps[k].name, -1, |file0| + PART_SIZE);
    file := file0 + EncodePart(hdr);
    ghost var file1 := file;
    file, tris := SaveSubsets(z, file, ps[k].subsets);
    hdr := hdr.(next := if k < |ps| - 1 then |file| else -1);
    ghost var file2 := file;
    file := Patch(file, |file0|, EncodePart(hdr));
    assert hdr == PartHdrOf(z, ps, k);
    assert file0 == file[..|file0|] by { assert file0 == file1[..|file0|] == file2[..|file0|]; }
    forall j | 0 <= j < |ps[k].subsets| ensures SubAt(file, z, |file1|, ps[k].subsets, j) {
      SubBeside(file2, |file0|, EncodePart(hdr), z, |file1|, ps[k].subsets, j);
    }
  }

  lemma PartStays(file: seq<byte>, file': seq<byte>, z: Packer, ps: seq<Part>, k: nat)
    requires k < |ps| && PartAt(file, z, ps, k) && file <= file'
    ensures PartAt(file', z, ps, k)
  {
    hide SubAt, EncodePart;
    var ss, base := ps[k].subsets, PartOfs(z, ps, k) + PART_SIZE;
    assert file' == file + file'[|file|..];
    HoldsMore(file, file'[|file|..], PartOfs(z, ps, k), EncodePart(PartHdrOf(z, ps, k)));
    forall j | 0 <= j < |ss| ensures SubAt(file', z, base, ss, j) { SubStays(file, file', z, base, ss, j); }
  }

  lemma PartBeside(file: seq<byte>, p: seq<byte>, z: Packer, ps: seq<Part>, k: nat)
    requires k < |ps| && PartAt(file, z, ps, k) && |p| <= HEADER_SIZE && |p| <= |file|
    ensures PartAt(Patch(file, 0, p), z, ps, k)
  {
    hide SubAt, EncodePart, Patch;
    var ss, base := ps[k].subsets, PartOfs(z, ps, k) + PART_SIZE;
    PartsGrow(z, ps, 0, k);
    HoldsBeside(file, 0, p, PartOfs(z, ps, k), EncodePart(PartHdrOf(z, ps, k)));
    forall j | 0 <= j < |ss| ensures SubAt(Patch(file, 0, p), z, base, ss, j) { SubBeside(file, 0, p, z, base, ss, j); }
  }

  method SaveParts(z: Packer, file0: seq<byte>, ps: seq<Part>) returns (file: seq<byte>, tris: nat)
    requires |file0| == HEADER_SIZE && (forall k :: 0 <= k < |ps| ==> ValidPart(ps[k])) && PartOfs(z, ps, |ps|) < HALF
    ensures file0 <= file && |file| == PartOfs(z, ps, |ps|) && tris == PartTris(ps) % WORD
    ensures forall k :: 0 <= k < |ps| ==> PartAt(file, z, ps, k)
  {
    hide PartAt, ValidPart, PartLen, SubsetTris;
    file, tris := file0, 0;
    var k := 0;
    while k < |ps|
      invariant 0 <= k <= |ps| && file0 <= file && |file| == PartOfs(z, ps, k)
      invariant tris == PartTris(ps[..k]) % WORD
      invariant forall i :: 0 <= i < k ==> PartAt(file, z, ps, i)
    {
      PartsGrow(z, ps, k + 1, |ps|);
      ghost var before := file;
      var n;
      file, n := SavePart(z, file, ps, k);
      forall i | 0 <= i < k ensures PartAt(file, z, ps, i) { PartStays(before, file, z, ps, i); }
      OneMorePart(ps, k);
      WrapSum(PartTris(ps[..k]), n);
      tris := (tris + n) % WORD;
      k := k + 1;
    }
    assert ps[..k] == ps;
  }

  lemma MatNew(file: seq<byte>, base: nat, ms: seq<Material>, i: nat)
    requires i < |ms| && |file| == base + MATERIAL_SIZE * i && ValidMaterial(ms[i])
      && base + MATERIAL_SIZE * (i + 1) < HALF
    ensures var next := if i < |ms| - 1 then |file| + MATERIAL_SIZE else -1;
            MatAt(file + EncodeMaterial(ms[i], next), base, ms, i)
  {
    hide EncodeMaterial, ValidMaterial;
    HoldsNew(file, EncodeMaterial(ms[i], if i < |ms| - 1 then |file| + MATERIAL_SIZE else -1));
  }

  lemma MatStays(file: seq<byte>, more: seq<byte>, base: nat, ms: seq<Material>, i: nat)
    requires i < |ms| && MatAt(file, base, ms, i)
    ensures MatAt(file + more, base, ms, i)
  {
    hide EncodeMaterial, ValidMaterial;
    HoldsMore(file, more, base + MATERIAL_SIZE * i,
      EncodeMaterial(ms[i], Link(i + 1 < |ms|, base + MATERIAL_SIZE * (i + 1))));
  }

  method SaveMaterials(file0: seq<byte>, ms: seq<Material>) returns (file: seq<byte>)
    requires (forall i :: 0 <= i < |ms| ==> ValidMaterial(ms[i])) && |file0| + MATERIAL_SIZE * |ms| < HALF
    ensures file0 <= file && |file| == |file0| + MATERIAL_SIZE * |ms|
    ensures forall i :: 0 <= i < |ms| ==> MatAt(file, |file0|, ms, i)
  {
    hide MatAt, ValidMaterial, EncodeMaterial;
    file := file0;
    var i := 0;
    while i < |ms|
      invariant 0 <= i <= |ms| && file0 <= file && |file| == |file0| + MATERIAL_SIZE * i
      invariant forall h :: 0 <= h < i ==> MatAt(file, |file0|, ms, h)
    {
      var next := if i < |ms| - 1 then |file| + MATERIAL_SIZE else -1;
      ghost var before := file;
      file := file + EncodeMaterial(ms[i], next);
      forall h | 0 <= h < i ensures MatAt(file, |file0|, ms,
        h) { MatStays(before, EncodeMaterial(ms[i], next), |file0|, ms, h); }
      MatNew(before, |file0|, ms, i);
      i := i + 1;
    }
  }

  method SaveTexture(z: Packer, file0: seq<byte>, ts: seq<Texture>, i: nat, ghost base: nat) returns (file: seq<byte>)
    requires i < |ts| && |file0| == TexOfs(z, base, ts, i) && ValidTexture(ts[i]) && TexOfs(z, base, ts, i + 1) < HALF
    ensures file0 <= file && |file| == TexOfs(z, base, ts, i + 1) && TexAt(file, z, base, ts, i)
  {
    hide EncodeTex, Holds, EightTenths;
    var t := ts[i];
    var small := if z.plain then [] else z.compress(t.data);
    var useSmall := |small| < EightTenths(|t.data|);
    if z.plain { useSmall := false; }
    var packed := if useSmall then |small| else |t.data|;
    var next := if i < |ts| - 1 then |file0| + TEXTURE_SIZE + packed else -1;
    assert Packed(z, t.data) == if useSmall then small else t.data;
    var hdr := TexHdr(TEX_SIGN, t.name, next, t.fmt, |t.data|, packed, if useSmall then 1 else 0, t.color);
    assert hdr == TexHdrOf(z, base, ts, i);
    file := file0 + EncodeTex(hdr);
    HoldsNew(file0, EncodeTex(hdr));
    ghost var file1 := file;
    file := file + (if useSmall then small else t.data);
    HoldsNew(file1, Packed(z, t.data));
    HoldsMore(file1, Packed(z, t.data), |file0|, EncodeTex(hdr));
  }

  lemma TexStays(file: seq<byte>, file': seq<byte>, z: Packer, base: nat, ts: seq<Texture>, i: nat)
    requires i < |ts| && TexAt(file, z, base, ts, i) && file <= file'
    ensures TexAt(file', z, base, ts, i)
  {
    hide Packed, EncodeTex;
    var more := file'[|file|..];
    assert file' == file + more;
    HoldsMore(file, more, TexOfs(z, base, ts, i), EncodeTex(TexHdrOf(z, base, ts, i)));
    HoldsMore(file, more, TexOfs(z, base, ts, i) + TEXTURE_SIZE, Packed(z, ts[i].data));
  }

  method SaveTextures(z: Packer, file0: seq<byte>, ts: seq<Texture>) returns (file: seq<byte>)
    requires (forall i :: 0 <= i < |ts| ==> ValidTexture(ts[i])) && TexOfs(z, |file0|, ts, |ts|) < HALF
    ensures file0 <= file && |file| == TexOfs(z, |file0|, ts, |ts|)
    ensures forall i :: 0 <= i < |ts| ==> TexAt(file, z, |file0|, ts, i)
  {
    hide TexAt, ValidTexture, Packed;
    file := file0;
    var i := 0;
    while i < |ts|
      invariant 0 <= i <= |ts| && file0 <= file && |file| == TexOfs(z, |file0|, ts, i)
      invariant forall h :: 0 <= h < i ==> TexAt(file, z, |file0|, ts, h)
    {
      TexGrow(z, |file0|, ts, i + 1, |ts|);
      ghost var before := file;
      file := SaveTexture(z, file, ts, i, |file0|);
      forall h | 0 <= h < i ensures TexAt(file, z, |file0|, ts, h) { TexStays(before, file, z, |file0|, ts, h); }
      i := i + 1;
    }
  }

  // The materials and textures are saved in the order in which the maps list them.

  ghost predicate Lists<T>(names: seq<Name>, m: map<Name, T>)
  {
    && (forall i, j :: 0 <= i < j < |names| ==> names[i] != names[j])
    && (forall i :: 0 <= i < |names| ==> names[i] in m)
    && (forall n :: n in m ==> n in names)
  }

  function Listed<T>(names: seq<Name>, m: map<Name, T>): (r: seq<T>)
    requires forall i :: 0 <= i < |names| ==> names[i] in m
    ensures |r| == |names|
  {
    seq(|names|, i requires 0 <= i < |names| => m[names[i]])
  }

  function FileLen(z: Packer, ps: seq<Part>, ms: seq<Material>, ts: seq<Texture>): nat
  {
    TexOfs(z, PartOfs(z, ps, |ps|) + MATERIAL_SIZE * |ms|, ts, |ts|)
  }

  lemma Lengths(z: Packer, ps: seq<Part>, ms: seq<Material>, ts: seq<Texture>)
    ensures HEADER_SIZE <= PartOfs(z, ps, |ps|) <= PartOfs(z, ps, |ps|) + MATERIAL_SIZE * |ms| <= FileLen(z, ps, ms, ts)
  {
    hide PartLen;
    PartsGrow(z, ps, 0, |ps|);
    TexGrow(z, PartOfs(z, ps, |ps|) + MATERIAL_SIZE * |ms|, ts, 0, |ts|);
  }

  lemma PatchedHeader(file: seq<byte>, tris: nat, mat: int, tex: int)
    requires |file| >= HEADER_SIZE && ValidFileHdr(FileHdrOf(tris, mat, tex))
    ensures HeaderAt(Patch(file, 0, EncodeFile(FileHdrOf(tris, mat, tex))), tris, mat, tex)
  {
    hide EncodeFile, Patch;
  }

  lemma IsSaved(file: seq<byte>, z: Packer, ps: seq<Part>, ms: seq<Material>, ts: seq<Texture>)
    requires |file| == FileLen(z, ps, ms, ts) < HALF
    requires var mat := PartOfs(z, ps, |ps|); var tex := mat + MATERIAL_SIZE * |ms|;
             && HeaderAt(file, PartTris(ps) % WORD, Link(|ms| > 0, mat), Link(|ts| > 0, tex))
             && (forall i :: 0 <= i < |ms| ==> MatAt(file, mat, ms, i))
             && (forall i :: 0 <= i < |ts| ==> TexAt(file, z, tex, ts, i))
    requires forall k :: 0 <= k < |ps| ==> PartAt(file, z, ps, k)
    ensures Saved(file, z, ps, ms, ts)
  {
    hide PartAt, MatAt, TexAt, PartLen, HeaderAt;
  }

  lemma MatBeside(file: seq<byte>, p: seq<byte>, base: nat, ms: seq<Material>, i: nat)
    requires i < |ms| && MatAt(file, base, ms, i) && |p| <= base && |p| <= |file|
    ensures MatAt(Patch(file, 0, p), base, ms, i)
  {
    hide EncodeMaterial, ValidMaterial, Patch;
    HoldsBeside(file, 0, p, base + MATERIAL_SIZE * i,
      EncodeMaterial(ms[i], Link(i + 1 < |ms|, base + MATERIAL_SIZE * (i + 1))));
  }

  lemma TexBeside(file: seq<byte>, p: seq<byte>, z: Packer, base: nat, ts: seq<Texture>, i: nat)
    requires i < |ts| && TexAt(file, z, base, ts, i) && |p| <= base && |p| <= |file|
    ensures TexAt(Patch(file, 0, p), z, base, ts, i)
  {
    hide EncodeTex, Packed, Patch;
    TexGrow(z, base, ts, 0, i);
    HoldsBeside(file, 0, p, TexOfs(z, base, ts, i), EncodeTex(TexHdrOf(z, base, ts, i)));
    HoldsBeside(file, 0, p, TexOfs(z, base, ts, i) + TEXTURE_SIZE, Packed(z, ts[i].data));
  }

  lemma AllStay(file1: seq<byte>, file2: seq<byte>, file3: seq<byte>, hdr: seq<byte>, z: Packer, ps: seq<Part>,
          ms: seq<Material>, ts: seq<Texture>)
    requires file1 <= file2 <= file3 && |hdr| == HEADER_SIZE && |file1| == PartOfs(z, ps, |ps|)
    requires |file2| == |file1| + MATERIAL_SIZE * |ms|
    requires forall k :: 0 <= k < |ps| ==> PartAt(file1, z, ps, k)
    requires forall i :: 0 <= i < |ms| ==> MatAt(file2, |file1|, ms, i)
    requires forall i :: 0 <= i < |ts| ==> TexAt(file3, z, |file2|, ts, i)
    ensures |file1| >= HEADER_SIZE
    ensures forall k :: 0 <= k < |ps| ==> PartAt(Patch(file3, 0, hdr), z, ps, k)
    ensures forall i :: 0 <= i < |ms| ==> MatAt(Patch(file3, 0, hdr), |file1|, ms, i)
    ensures forall i :: 0 <= i < |ts| ==> TexAt(Patch(file3, 0, hdr), z, |file2|, ts, i)
  {
    hide PartAt, MatAt, TexAt, PartLen, Patch;
    PartsGrow(z, ps, 0, |ps|);
    var f := Patch(file3, 0, hdr);
    forall k | 0 <= k < |ps| ensures PartAt(f, z, ps, k) {
      PartStays(file1, file3, z, ps, k);
      PartBeside(file3, hdr, z, ps, k);
    }
    assert file3 == file2 + file3[|file2|..];
    forall i | 0 <= i < |ms| ensures MatAt(f, |file1|, ms, i) {
      MatStays(file2, file3[|file2|..], |file1|, ms, i);
      MatBeside(file3, hdr, |file1|, ms, i);
    }
    forall i | 0 <= i < |ts| ensures TexAt(f, z, |file2|, ts, i) { TexBeside(file3, hdr, z, |file2|, ts, i); }
  }

  /** Save3DScanModel */
  method Save(z: Packer, m: Model, matNames: seq<Name>, texNames: seq<Name>) returns (file: seq<byte>)
    requires ValidModel(m) && Lists(matNames, m.materials) && Lists(texNames, m.textures)
    requires FileLen(z, m.parts, Listed(matNames, m.materials), Listed(texNames, m.textures)) < HALF
    ensures Saved(file, z, m.parts, Listed(matNames, m.materials), Listed(texNames, m.textures))
  {
    hide PartAt, MatAt, TexAt, PartLen, ValidPart, ValidMaterial, ValidTexture, EncodeFile, TexOfs, PartOfs, Saved,
         Patch;
    var ms, ts := Listed(matNames, m.materials), Listed(texNames, m.textures);
    Lengths(z, m.parts, ms, ts);
    var hdr := FileHdr(SCAN_SIGN, VERSION, 0, HEADER_SIZE, 0, 0);
    file := EncodeFile(hdr);
    var tris;
    file, tris := SaveParts(z, file, m.parts);
    var mat := |file|;
    ghost var file1 := file;
    file := SaveMaterials(file, ms);
    var tex := |file|;
    ghost var file2 := file;
    file := SaveTextures(z, file, ts);
    hdr := FileHdr(SCAN_SIGN, VERSION, tris, HEADER_SIZE, if |ms| > 0 then mat else -1, if |ts| > 0 then tex else -1);
    ghost var file3 := file;
    file := Patch(file, 0, EncodeFile(hdr));
    AllStay(file1, file2, file3, EncodeFile(hdr), z, m.parts, ms, ts);
    PatchedHeader(file3, tris, Link(|ms| > 0, mat), Link(|ts| > 0, tex));
    IsSaved(file, z, m.parts, ms, ts);
  }
}
