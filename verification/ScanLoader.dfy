/**
  The .3dscan reader, and the theorem that it brings back what was saved. Links
  that do not lead forward are not followed here: on such a file the program may
  run in circles.
 */
module ScanLoader {
  import opened Bits
  import opened ScanRecords
  import opened ScanFile

  /** `Rejected` is the program's error return; `Backward` a link that does not lead
      forward; `Outside` a read of bytes that are not there. */
  datatype Outcome<+T> = Loaded(value: T) | Rejected | Backward | Outside

  // ------------------------------------------------------------- bounding box

  datatype Box = Box(lo: Float3, hi: Float3)

  const FLT_MAX: real := 340282346638528859811704183484516925440.0

  function EmptyBox(): Box
  {
    Box(Float3(FLT_MAX, FLT_MAX, FLT_MAX), Float3(-FLT_MAX, -FLT_MAX, -FLT_MAX))
  }

  function Less(a: real, b: real): real
  {
    if a < b then a else b
  }

  function More(a: real, b: real): real
  {
    if a > b then a else b
  }

  function Grow(b: Box, p: Float3): Box
  {
    Box(Float3(Less(p.x, b.lo.x), Less(p.y, b.lo.y), Less(p.z, b.lo.z)),
        Float3(More(p.x, b.hi.x), More(p.y, b.hi.y), More(p.z, b.hi.z)))
  }

  lemma VertexInside(size: nat, i: nat, n: nat)
    requires i < n
    ensures size * i + size <= size * n
  {
    assert size * (i + 1) <= size * n;
  }

  /** The position of vertex `i`; `value` reads four bytes as a number. */
  function Position(value: seq<byte> -> real, s: Subset, i: nat): Float3
    requires VertexSize(s.fmt) >= 12 && |s.vb| == VertexSize(s.fmt) * s.verts && i < s.verts
  {
    VertexInside(VertexSize(s.fmt), i, s.verts);
    var at := VertexSize(s.fmt) * i;
    Float3(value(s.vb[at..at + 4]), value(s.vb[at + 4..at + 8]), value(s.vb[at + 8..at + 12]))
  }

  predicate HasPositions(s: Subset)
  {
    s.verts > 0 ==> VertexSize(s.fmt) >= 12 && |s.vb| == VertexSize(s.fmt) * s.verts
  }

  ghost function BoxVertices(value: seq<byte> -> real, b: Box, s: Subset, n: nat): Box
    requires HasPositions(s) && n <= s.verts
  {
    if n == 0 then b else Grow(BoxVertices(value, b, s, n - 1), Position(value, s, n - 1))
  }

  ghost predicate AllPositions(ss: seq<Subset>)
  {
    forall j :: 0 <= j < |ss| ==> HasPositions(ss[j])
  }

  ghost function BoxSubsets(value: seq<byte> -> real, b: Box, ss: seq<Subset>): Box
    requires AllPositions(ss)
  {
    if ss == [] then b
    else
      var n := |ss| - 1;
      BoxVertices(value, BoxSubsets(value, b, ss[..n]), ss[n], ss[n].verts)
  }

  ghost predicate PartsPositions(ps: seq<Part>)
  {
    forall k :: 0 <= k < |ps| ==> AllPositions(ps[k].subsets)
  }

  ghost function BoxParts(value: seq<byte> -> real, b: Box, ps: seq<Part>): Box
    requires PartsPositions(ps)
  {
    if ps == [] then b
    else BoxSubsets(value, BoxParts(value, b, ps[..|ps| - 1]), ps[|ps| - 1].subsets)
  }

  // ------------------------------------------------------ what a reader finds

  /** The data behind a header: read as it is, or unpacked. */
  function ReadData(z: Packer, file: seq<byte>, at: nat, small: bool, packed: nat, size: nat): (r: seq<byte>)
    requires Undoes(z) && at + (if small then packed else size) <= |file|
    ensures |r| == size
  {
    if small then z.decompress(file[at..at + packed], size) else file[at..at + size]
  }

  predicate SizesAgree(h: SubHdr)
  {
    h.size == VertexSize(h.fmt) * h.verts + h.tris * 12
  }

  /** Vertices too narrow to hold a position. */
  predicate TooNarrow(h: SubHdr)
  {
    h.verts > 0 && VertexSize(h.fmt) < 12
  }

  function SubsetOf(h: SubHdr, data: seq<byte>): (r: Subset)
    requires SizesAgree(h) && |data| == h.size && !TooNarrow(h)
    ensures HasPositions(r)
  {
    var n := VertexSize(h.fmt) * h.verts;
    Subset(data[..n], data[n..], h.verts, h.tris, h.mat, h.fmt)
  }

  function ReadSubset(z: Packer, file: seq<byte>, ofs: nat): (r: Outcome<(Subset, int)>)
    requires Undoes(z)
    ensures r.Loaded? ==> HasPositions(r.value.0) && ofs < |file|
  {
    hide Undoes, DecodeSub, SizesAgree, TooNarrow, HasPositions, SubsetOf, ReadData;
    if ofs + SUBSET_SIZE > |file| then Outside
    else
      var h := DecodeSub(file[ofs..ofs + SUBSET_SIZE]);
      var small := h.flags % 2 == 1;
      if h.sign != SUBSET_SIGN || !SizesAgree(h) then Rejected
      else if ofs + SUBSET_SIZE + (if small then h.packed else h.size) > |file| then Outside
      else if TooNarrow(h) then Outside
      else Loaded((SubsetOf(h, ReadData(z, file, ofs + SUBSET_SIZE, small, h.packed, h.size)), h.next))
  }

  function Rest(file: seq<byte>, ofs: int): nat
  {
    if ofs <= 0 || ofs > |file| then 0 else |file| - ofs + 1
  }

  ghost function ReadSubsets(z: Packer, file: seq<byte>, ofs: int, got: seq<Subset>): Outcome<seq<Subset>>
    requires Undoes(z)
    decreases Rest(file, ofs)
  {
    if ofs <= 0 then Loaded(got)
    else
      match ReadSubset(z, file, ofs)
      case Loaded((s, next)) => if 0 < next <= ofs then Backward else ReadSubsets(z, file, next, got + [s])
      case Rejected => Rejected
      case Backward => Backward
      case Outside => Outside
  }

  ghost function ReadPart(z: Packer, file: seq<byte>, ofs: nat): (r: Outcome<(Part, int)>)
    requires Undoes(z)
    ensures r.Loaded? ==> ofs < |file|
  {
    if ofs + PART_SIZE > |file| then Outside
    else
      var h := DecodePart(file[ofs..ofs + PART_SIZE]);
      if h.sign != PART_SIGN then Rejected
      else if 0 < h.first <= ofs then Backward
      else
        match ReadSubsets(z, file, h.first, [])
        case Loaded(ss) => Loaded((Part(h.name, ss), h.next))
        case Rejected => Rejected
        case Backward => Backward
        case Outside => Outside
  }

  ghost function ReadParts(z: Packer, file: seq<byte>, ofs: int, got: seq<Part>): Outcome<seq<Part>>
    requires Undoes(z)
    decreases Rest(file, ofs)
  {
    if ofs <= 0 then Loaded(got)
    else
      match ReadPart(z, file, ofs)
      case Loaded((p, next)) => if 0 < next <= ofs then Backward else ReadParts(z, file, next, got + [p])
      case Rejected => Rejected
      case Backward => Backward
      case Outside => Outside
  }

  function ReadMaterial(file: seq<byte>, ofs: nat): (r: Outcome<(Material, int)>)
    ensures r.Loaded? ==> ofs < |file|
  {
    if ofs + MATERIAL_SIZE > |file| then Outside
    else
      var (sign, m, next) := DecodeMaterial(file[ofs..ofs + MATERIAL_SIZE]);
      if sign != MATERIAL_SIGN then Rejected else Loaded((m, next))
  }

  ghost function ReadMaterials(file: seq<byte>, ofs: int, got: map<Name, Material>): Outcome<map<Name, Material>>
    decreases Rest(file, ofs)
  {
    if ofs <= 0 then Loaded(got)
    else
      match ReadMaterial(file, ofs)
      case Loaded((m, next)) => if 0 < next <= ofs then Backward else ReadMaterials(file, next, got[m.name := m])
      case Rejected => Rejected
      case Backward => Backward
      case Outside => Outside
  }

  function ReadTexture(z: Packer, file: seq<byte>, ofs: nat): (r: Outcome<(Texture, int)>)
    requires Undoes(z)
    ensures r.Loaded? ==> ofs < |file|
  {
    if ofs + TEXTURE_SIZE > |file| then Outside
    else
      var h := DecodeTex(file[ofs..ofs + TEXTURE_SIZE]);
      var at := ofs + TEXTURE_SIZE;
      if h.sign != TEX_SIGN then Rejected
      else if at + (if h.flags == 1 then h.packed else h.size) > |file| then Outside
      else
        var data := ReadData(z, file, at, h.flags == 1, h.packed, h.size);
        Loaded((Texture(h.name, h.color, h.fmt, data), h.next))
  }

  ghost function ReadTextures(z: Packer, file: seq<byte>, ofs: int, got: map<Name, Texture>): Outcome<map<Name,
          Texture>>
    requires Undoes(z)
    decreases Rest(file, ofs)
  {
    if ofs <= 0 then Loaded(got)
    else
      match ReadTexture(z, file, ofs)
      case Loaded((t, next)) => if 0 < next <= ofs then Backward else ReadTextures(z, file, next, got[t.name := t])
      case Rejected => Rejected
      case Backward => Backward
      case Outside => Outside
  }

  ghost function ReadModel(z: Packer, file: seq<byte>): Outcome<Model>
    requires Undoes(z)
  {
    if HEADER_SIZE > |file| then Outside
    else
      var h := DecodeFile(file[..HEADER_SIZE]);
      if h.sign != SCAN_SIGN || h.version != VERSION then Rejected
      else
        match ReadParts(z, file, h.part, [])
        case Rejected => Rejected
        case Backward => Backward
        case Outside => Outside
        case Loaded(ps) =>
          match ReadMaterials(file, h.mat, map[])
          case Rejected => Rejected
          case Backward => Backward
          case Outside => Outside
          case Loaded(ms) =>
            match ReadTextures(z, file, h.tex, map[])
            case Rejected => Rejected
            case Backward => Backward
            case Outside => Outside
            case Loaded(ts) => Loaded(Model(ps, ms, ts))
  }

  // --------------------------------------------------------------- the loops

  method LoadSubset(z: Packer, value: seq<byte> -> real, file: seq<byte>, ofs: nat, box0: Box)
    returns (r: Outcome<(Subset, int)>, box: Box)
    requires Undoes(z)
    ensures r == ReadSubset(z, file, ofs)
    ensures r.Loaded? ==> box == BoxVertices(value, box0, r.value.0, r.value.0.verts)
  {
    hide ReadSubset, Position;
    r, box := ReadSubset(z, file, ofs), box0;
    if r.Loaded? {
      var s := r.value.0;
      var i := 0;
      while i < s.verts
        invariant 0 <= i <= s.verts && box == BoxVertices(value, box0, s, i)
      {
        box := Grow(box, Position(value, s, i));
        i := i + 1;
      }
    }
  }

  method LoadSubsets(z: Packer, value: seq<byte> -> real, file: seq<byte>, first: int, box0: Box)
    returns (r: Outcome<seq<Subset>>, box: Box)
    requires Undoes(z)
    ensures r == ReadSubsets(z, file, first, [])
    ensures r.Loaded? ==> AllPositions(r.value) && box == BoxSubsets(value, box0, r.value)
  {
    hide ReadSubset, Undoes, BoxVertices;
    var ofs, got := first, [];
    box := box0;
    while ofs > 0
      invariant AllPositions(got) && box == BoxSubsets(value, box0, got)
      invariant ReadSubsets(z, file, first, []) == ReadSubsets(z, file, ofs, got)
      decreases Rest(file, ofs)
    {
      var one;
      one, box := LoadSubset(z, value, file, ofs, box);
      match one {
        case Rejected => return Rejected, box;
        case Backward => return Backward, box;
        case Outside => return Outside, box;
        case Loaded(v) =>
          if 0 < v.1 <= ofs { return Backward, box; }
          assert (got + [v.0])[..|got|] == got;
          got, ofs := got + [v.0], v.1;
      }
    }
    r := Loaded(got);
  }

  method LoadParts(z: Packer, value: seq<byte> -> real, file: seq<byte>, first: int)
    returns (r: Outcome<seq<Part>>, box: Box)
    requires Undoes(z)
    ensures r == ReadParts(z, file, first, [])
    ensures r.Loaded? ==> PartsPositions(r.value) && box == BoxParts(value, EmptyBox(), r.value)
  {
    hide Undoes, BoxSubsets, AllPositions, DecodePart, ReadSubsets;
    var ofs, got := first, [];
    box := EmptyBox();
    while ofs > 0
      invariant PartsPositions(got) && box == BoxParts(value, EmptyBox(), got)
      invariant ReadParts(z, file, first, []) == ReadParts(z, file, ofs, got)
      decreases Rest(file, ofs)
    {
      if ofs + PART_SIZE > |file| { return Outside, box; }
      var h := DecodePart(file[ofs..ofs + PART_SIZE]);
      if h.sign != PART_SIGN { return Rejected, box; }
      if 0 < h.first <= ofs { return Backward, box; }
      var ss;
      ss, box := LoadSubsets(z, value, file, h.first, box);
      match ss {
        case Rejected => return Rejected, box;
        case Backward => return Backward, box;
        case Outside => return Outside, box;
        case Loaded(v) =>
          if 0 < h.next <= ofs { return Backward, box; }
          assert (got + [Part(h.name, v)])[..|got|] == got;
          got, ofs := got + [Part(h.name, v)], h.next;
      }
    }
    r := Loaded(got);
  }

  method LoadMaterials(file: seq<byte>, first: int) returns (r: Outcome<map<Name, Material>>)
    ensures r == ReadMaterials(file, first, map[])
  {
    hide ReadMaterial;
    var ofs, got := first, map[];
    while ofs > 0
      invariant ReadMaterials(file, first, map[]) == ReadMaterials(file, ofs, got)
      decreases Rest(file, ofs)
    {
      match ReadMaterial(file, ofs) {
        case Rejected => return Rejected;
        case Backward => return Backward;
        case Outside => return Outside;
        case Loaded(v) =>
          if 0 < v.1 <= ofs { return Backward; }
          got, ofs := got[v.0.name := v.0], v.1;
      }
    }
    r := Loaded(got);
  }

  method LoadTextures(z: Packer, file: seq<byte>, first: int) returns (r: Outcome<map<Name, Texture>>)
    requires Undoes(z)
    ensures r == ReadTextures(z, file, first, map[])
  {
    hide ReadTexture, Undoes;
    var ofs, got := first, map[];
    while ofs > 0
      invariant ReadTextures(z, file, first, map[]) == ReadTextures(z, file, ofs, got)
      decreases Rest(file, ofs)
    {
      match ReadTexture(z, file, ofs) {
        case Rejected => return Rejected;
        case Backward => return Backward;
        case Outside => return Outside;
        case Loaded(v) =>
          if 0 < v.1 <= ofs { return Backward; }
          got, ofs := got[v.0.name := v.0], v.1;
      }
    }
    r := Loaded(got);
  }

  /** Load3DScanModel */
  method Load(z: Packer, value: seq<byte> -> real, file: seq<byte>) returns (r: Outcome<Model>, box: Box)
    requires Undoes(z)
    ensures r == ReadModel(z, file)
    ensures r.Loaded? ==> PartsPositions(r.value.parts) && box == BoxParts(value, EmptyBox(), r.value.parts)
  {
    hide Undoes, BoxParts, PartsPositions, DecodeFile, ReadParts, ReadMaterials, ReadTextures;
    box := EmptyBox();
    if HEADER_SIZE > |file| { return Outside, box; }
    var h := DecodeFile(file[..HEADER_SIZE]);
    if h.sign != SCAN_SIGN || h.version != VERSION { return Rejected, box; }
    var ps;
    ps, box := LoadParts(z, value, file, h.part);
    var ms := LoadMaterials(file, h.mat);
    var ts := LoadTextures(z, file, h.tex);
    r := match ps
      case Rejected => Rejected
      case Backward => Backward
      case Outside => Outside
      case Loaded(p) =>
        match ms
        case Rejected => Rejected
        case Backward => Backward
        case Outside => Outside
        case Loaded(m) =>
          match ts
          case Rejected => Rejected
          case Backward => Backward
          case Outside => Outside
          case Loaded(t) => Loaded(Model(p, m, t));
  }

  // ------------------------------------------------------ saved comes back

  lemma Slice(file: seq<byte>, ofs: nat, b: seq<byte>)
    requires Holds(file, ofs, b)
    ensures ofs + |b| <= |file| && file[ofs..ofs + |b|] == b
  {
  }

  lemma DataBack(z: Packer, file: seq<byte>, at: nat, data: seq<byte>)
    requires Undoes(z) && Holds(file, at, Packed(z, data))
    ensures at + (if Shrinks(z, data) then |Packed(z, data)| else |data|) <= |file|
    ensures ReadData(z, file, at, Shrinks(z, data), |Packed(z, data)|, |data|) == data
  {
  }

  lemma SubsetParts(h: SubHdr, s: Subset)
    requires ValidSubset(s) && HasPositions(s) && h.verts == s.verts && h.tris == s.tris && h.fmt == s.fmt
      && h.mat == s.mat && h.size == |s.vb + s.ib|
    ensures SizesAgree(h) && !TooNarrow(h) && SubsetOf(h, s.vb + s.ib) == s
  {
    assert (s.vb + s.ib)[..|s.vb|] == s.vb && (s.vb + s.ib)[|s.vb|..] == s.ib;
  }

  lemma SubsetBack(z: Packer, file: seq<byte>, base: nat, ss: seq<Subset>, j: nat)
    requires Undoes(z) && j < |ss| && ValidSubset(ss[j]) && HasPositions(ss[j]) && SubAt(file, z, base, ss, j)
    ensures ReadSubset(z, file, base + SubsLen(z, ss, j))
      == Loaded((ss[j], Link(j + 1 < |ss|, base + SubsLen(z, ss, j + 1))))
  {
    hide Undoes, EncodeSub, DecodeSub, ReadData, SubsLen, ValidSubset;
    var s, h, ofs := ss[j], SubHdrOf(z, base, ss, j), base + SubsLen(z, ss, j);
    Slice(file, ofs, EncodeSub(h));
    SubBack(h);
    DataBack(z, file, ofs + SUBSET_SIZE, s.vb + s.ib);
    SubsetParts(h, s);
  }

  lemma {:induction false} SubsetsBack(z: Packer, file: seq<byte>, base: nat, ss: seq<Subset>, j: nat)
    requires Undoes(z) && base > 0 && j < |ss| && SubsAt(file, z, base, ss)
    requires AllPositions(ss) && forall i :: 0 <= i < |ss| ==> ValidSubset(ss[i])
    ensures ReadSubsets(z, file, base + SubsLen(z, ss, j), ss[..j]) == Loaded(ss)
    decreases |ss| - j
  {
    hide Undoes, ReadSubset, SubAt, ValidSubset, SubsLen, HasPositions;
    SubsetBack(z, file, base, ss, j);
    SubsGrow(z, ss, j, j + 1);
    assert ss[..j] + [ss[j]] == ss[..j + 1];
    if j + 1 < |ss| {
      SubsetsBack(z, file, base, ss, j + 1);
    } else {
      assert ss[..j + 1] == ss;
    }
  }

  /** A part with subsets, all of whose vertices have room for a position. */
  ghost predicate Filled(p: Part)
  {
    p.subsets != [] && AllPositions(p.subsets)
  }

  lemma PartComesBack(z: Packer, file: seq<byte>, ps: seq<Part>, k: nat)
    requires Undoes(z) && k < |ps| && ValidPart(ps[k]) && PartAt(file, z, ps, k) && Filled(ps[k])
    ensures ReadPart(z, file, PartOfs(z, ps, k)) == Loaded((ps[k], Link(k + 1 < |ps|, PartOfs(z, ps, k + 1))))
  {
    hide Undoes, EncodePart, DecodePart, ReadSubsets, SubsAt, PartOfs, AllPositions;
    var h, ofs, ss := PartHdrOf(z, ps, k), PartOfs(z, ps, k), ps[k].subsets;
    Slice(file, ofs, EncodePart(h));
    PartBack(h);
    SubsetsBack(z, file, ofs + PART_SIZE, ss, 0);
    assert SubsLen(z, ss, 0) == 0 && ss[..0] == [];
  }

  /** At least one part, and nothing missing in any. */
  ghost predicate HasParts(ps: seq<Part>)
  {
    ps != [] && forall k :: 0 <= k < |ps| ==> Filled(ps[k])
  }

  lemma FirstOfs(z: Packer, ps: seq<Part>, k: nat)
    requires k <= |ps|
    ensures PartOfs(z, ps, k) >= HEADER_SIZE && PartOfs(z, ps, 0) == HEADER_SIZE
  {
    PartsGrow(z, ps, 0, k);
  }

  lemma {:induction false} PartsBack(z: Packer, file: seq<byte>, ps: seq<Part>, k: nat)
    requires Undoes(z) && k < |ps| && HasParts(ps)
    requires forall i :: 0 <= i < |ps| ==> ValidPart(ps[i]) && PartAt(file, z, ps, i)
    ensures ReadParts(z, file, PartOfs(z, ps, k), ps[..k]) == Loaded(ps)
    decreases |ps| - k
  {
    hide Undoes, ReadPart, PartAt, ValidPart, PartOfs, Filled;
    PartComesBack(z, file, ps, k);
    PartsGrow(z, ps, k, k + 1);
    FirstOfs(z, ps, k);
    assert ps[..k] + [ps[k]] == ps[..k + 1];
    if k + 1 < |ps| {
      PartsBack(z, file, ps, k + 1);
    } else {
      assert ps[..k + 1] == ps;
    }
  }

  /** The first `i` entries of a map. */
  ghost function Entries<T>(names: seq<Name>, m: map<Name, T>, i: nat): (r: map<Name, T>)
    requires (forall k :: 0 <= k < |names| ==> names[k] in m) && i <= |names|
  {
    if i == 0 then map[] else Entries(names, m, i - 1)[names[i - 1] := m[names[i - 1]]]
  }

  lemma {:induction false} EntriesAre<T>(names: seq<Name>, m: map<Name, T>, i: nat)
    requires (forall k :: 0 <= k < |names| ==> names[k] in m) && i <= |names|
    ensures forall n :: n in Entries(names, m, i) <==> n in names[..i]
    ensures forall n :: n in Entries(names, m, i) ==> n in m && Entries(names, m, i)[n] == m[n]
  {
    if i == 0 {
    } else {
      EntriesAre(names, m, i - 1);
      assert names[..i] == names[..i - 1] + [names[i - 1]];
    }
  }

  lemma AllEntries<T>(names: seq<Name>, m: map<Name, T>)
    requires Lists(names, m)
    ensures Entries(names, m, |names|) == m
  {
    EntriesAre(names, m, |names|);
    assert names[..|names|] == names;
  }

  lemma OneMaterialBack(file: seq<byte>, base: nat, ms: seq<Material>, i: nat)
    requires i < |ms| && MatAt(file, base, ms, i)
    ensures ReadMaterial(file, base + MATERIAL_SIZE * i)
      == Loaded((ms[i], Link(i + 1 < |ms|, base + MATERIAL_SIZE * (i + 1))))
  {
    hide EncodeMaterial, DecodeMaterial, ValidMaterial;
    var next := Link(i + 1 < |ms|, base + MATERIAL_SIZE * (i + 1));
    Slice(file, base + MATERIAL_SIZE * i, EncodeMaterial(ms[i], next));
    MaterialBack(ms[i], next);
  }

  lemma {:induction false} MaterialsBack(file: seq<byte>, base: nat, names: seq<Name>, m: map<Name, Material>, i: nat)
    requires base > 0 && i < |names| && Lists(names, m) && forall n :: n in m ==> ValidMaterial(m[n]) && m[n].name == n
    requires forall k :: 0 <= k < |names| ==> MatAt(file, base, Listed(names, m), k)
    ensures ReadMaterials(file, base + MATERIAL_SIZE * i, Entries(names, m, i)) == Loaded(m)
    decreases |names| - i
  {
    hide ReadMaterial, MatAt, ValidMaterial;
    OneMaterialBack(file, base, Listed(names, m), i);
    if i + 1 < |names| {
      MaterialsBack(file, base, names, m, i + 1);
    } else {
      AllEntries(names, m);
    }
  }

  lemma OneTextureBack(z: Packer, file: seq<byte>, base: nat, ts: seq<Texture>, i: nat)
    requires Undoes(z) && i < |ts| && TexAt(file, z, base, ts, i)
    ensures ReadTexture(z, file, TexOfs(z, base, ts, i))
      == Loaded((ts[i], Link(i + 1 < |ts|, TexOfs(z, base, ts, i + 1))))
  {
    hide Undoes, EncodeTex, DecodeTex, ReadData, TexOfs;
    var h, ofs := TexHdrOf(z, base, ts, i), TexOfs(z, base, ts, i);
    Slice(file, ofs, EncodeTex(h));
    TexBack(h);
    DataBack(z, file, ofs + TEXTURE_SIZE, ts[i].data);
  }

  lemma TexStart(z: Packer, base: nat, ts: seq<Texture>)
    ensures TexOfs(z, base, ts, 0) == base
  {
  }

  lemma {:induction false} TexturesBack(z: Packer, file: seq<byte>, base: nat, names: seq<Name>, m: map<Name, Texture>,
          i: nat)
    requires Undoes(z) && base > 0 && i < |names| && Lists(names, m) && forall n :: n in m ==> m[n].name == n
    requires forall k :: 0 <= k < |names| ==> TexAt(file, z, base, Listed(names, m), k)
    ensures ReadTextures(z, file, TexOfs(z, base, Listed(names, m), i), Entries(names, m, i)) == Loaded(m)
    decreases |names| - i
  {
    hide Undoes, ReadTexture, TexAt, TexOfs;
    var ts := Listed(names, m);
    OneTextureBack(z, file, base, ts, i);
    TexGrow(z, base, ts, 0, i);
    TexGrow(z, base, ts, i, i + 1);
    TexStart(z, base, ts);
    if i + 1 < |names| {
      TexturesBack(z, file, base, names, m, i + 1);
    } else {
      AllEntries(names, m);
    }
  }

  lemma Nowhere(z: Packer, file: seq<byte>)
    requires Undoes(z)
    ensures ReadMaterials(file, -1, map[]) == Loaded(map[]) && ReadTextures(z, file, -1, map[]) == Loaded(map[])
  {
  }

  lemma HeaderBack(file: seq<byte>, tris: nat, mat: int, tex: int)
    requires HeaderAt(file, tris, mat, tex)
    ensures HEADER_SIZE <= |file|
    ensures var h := DecodeFile(file[..HEADER_SIZE]);
            && h.sign == SCAN_SIGN && h.version == VERSION && h.tris == tris
            && h.part == HEADER_SIZE && h.mat == mat && h.tex == tex
  {
    hide EncodeFile, DecodeFile;
    FileBack(FileHdrOf(tris, mat, tex));
  }

  /** Loading what was saved brings back the model: parts, subsets, buffers,
      materials and textures. */
  lemma SavedLoads(z: Packer, m: Model, matNames: seq<Name>, texNames: seq<Name>, file: seq<byte>)
    requires Undoes(z) && ValidModel(m) && Lists(matNames, m.materials) && Lists(texNames, m.textures)
    requires Saved(file, z, m.parts, Listed(matNames, m.materials), Listed(texNames, m.textures))
    requires HasParts(m.parts)
    ensures ReadModel(z, file) == Loaded(m)
  {
    hide Undoes, PartAt, MatAt, TexAt, ValidPart, ValidMaterial, ValidTexture, ReadParts, ReadMaterials, ReadTextures,
         PartOfs, TexOfs, DecodeFile, HeaderAt;
    var ms, ts := Listed(matNames, m.materials), Listed(texNames, m.textures);
    var mat := PartOfs(z, m.parts, |m.parts|);
    var tex := mat + MATERIAL_SIZE * |ms|;
    FirstOfs(z, m.parts, |m.parts|);
    HeaderBack(file, PartTris(m.parts) % WORD, Link(|ms| > 0, mat), Link(|ts| > 0, tex));
    PartsBack(z, file, m.parts, 0);
    assert m.parts[..0] == [];
    if |ms| > 0 { MaterialsBack(file, mat, matNames, m.materials, 0); } else { AllEntries(matNames, m.materials); }
    TexStart(z, tex, ts);
    if |ts| > 0 { TexturesBack(z, file, tex, texNames, m.textures, 0); } else { AllEntries(texNames, m.textures); }
    Nowhere(z, file);
  }

  // --------------------------------------------------- and what does not

  /** What stands at `ofs` does not begin like a part or a subset. */
  ghost predicate Strange(file: seq<byte>, ofs: nat)
  {
    ofs <= |file| && (|file| - ofs >= 6 ==> file[ofs..ofs + 6] != SUBSET_SIGN)
  }

  lemma StrangeSubset(z: Packer, file: seq<byte>, ofs: nat)
    requires Undoes(z) && Strange(file, ofs)
    ensures !ReadSubset(z, file, ofs).Loaded?
  {
    hide Undoes;
    if ofs + SUBSET_SIZE <= |file| {
      assert file[ofs..ofs + SUBSET_SIZE][..6] == file[ofs..ofs + 6];
    }
  }

  lemma BeginsWith(file: seq<byte>, ofs: nat, b: seq<byte>, n: nat)
    requires Holds(file, ofs, b) && n <= |b|
    ensures ofs + n <= |file| && file[ofs..ofs + n] == b[..n]
  {
    assert file[ofs..ofs + |b|][..n] == file[ofs..ofs + n];
  }

  lemma FourDiffer(file: seq<byte>, ofs: nat, a: seq<byte>, b: seq<byte>)
    requires ofs + 6 <= |file| && |a| == 4 && |b| == 6 && file[ofs..ofs + 4] == a && a[0] != b[0]
    ensures file[ofs..ofs + 6] != b
  {
    assert file[ofs..ofs + 4][0] == file[ofs] == file[ofs..ofs + 6][0];
  }

  lemma FirstDiffers(file: seq<byte>, ofs: nat)
    requires ofs < |file| && file[ofs] != 80 && file[ofs] != 83
    ensures Strange(file, ofs)
    ensures ofs + 4 <= |file| ==> file[ofs..ofs + 4] != PART_SIGN
  {
    if ofs + 4 <= |file| { assert file[ofs..ofs + 4][0] == file[ofs]; }
    if ofs + 6 <= |file| { assert file[ofs..ofs + 6][0] == file[ofs]; }
  }

  /** Behind the subsets of a part comes a part, a material, a texture or the end,
      never a subset. */
  lemma StrangeBehind(z: Packer, file: seq<byte>, ps: seq<Part>, ms: seq<Material>, ts: seq<Texture>, k: nat)
    requires Saved(file, z, ps, ms, ts) && k <= |ps|
    ensures Strange(file, PartOfs(z, ps, k))
    ensures k == |ps| ==>
      PartOfs(z, ps, k) + 4 <= |file| ==> file[PartOfs(z, ps, k)..PartOfs(z, ps, k) + 4] != PART_SIGN
  {
    hide PartOfs, TexOfs, Packed, HeaderAt, Field, SubsAt;
    var ofs := PartOfs(z, ps, k);
    if k < |ps| {
      assert PartAt(file, z, ps, k);
      var b := EncodePart(PartHdrOf(z, ps, k));
      BeginsWith(file, ofs, b, 4);
      if |file| - ofs >= 6 { FourDiffer(file, ofs, PART_SIGN, SUBSET_SIGN); }
    } else if |ms| > 0 {
      assert MatAt(file, ofs, ms, 0);
      var b := EncodeMaterial(ms[0], Link(1 < |ms|, ofs + MATERIAL_SIZE));
      BeginsWith(file, ofs, b, 8);
      assert b[..8] == MATERIAL_SIGN;
      assert file[ofs] == file[ofs..ofs + 8][0] == 77;
      FirstDiffers(file, ofs);
    } else if |ts| > 0 {
      TexStart(z, ofs, ts);
      assert TexAt(file, z, ofs, ts, 0);
      var b := EncodeTex(TexHdrOf(z, ofs, ts, 0));
      BeginsWith(file, ofs, b, 3);
      assert b[..3] == TEX_SIGN;
      assert file[ofs] == file[ofs..ofs + 3][0] == 84;
      FirstDiffers(file, ofs);
    } else {
      TexStart(z, ofs, ts);
    }
  }

  lemma EmptyPartLen(z: Packer, ps: seq<Part>, k: nat)
    requires k < |ps| && ps[k].subsets == []
    ensures PartOfs(z, ps, k + 1) == PartOfs(z, ps, k) + PART_SIZE
  {
  }

  lemma NotASubset(z: Packer, file: seq<byte>, ofs: nat)
    requires Undoes(z) && ofs > 0 && !ReadSubset(z, file, ofs).Loaded?
    ensures !ReadSubsets(z, file, ofs, []).Loaded?
  {
    hide Undoes, ReadSubset;
  }

  lemma SavedParts(file: seq<byte>, z: Packer, ps: seq<Part>, ms: seq<Material>, ts: seq<Texture>)
    requires Saved(file, z, ps, ms, ts)
    ensures forall k :: 0 <= k < |ps| ==> PartAt(file, z, ps, k)
  {
  }

  /** A part without subsets is not read. */
  lemma EmptyPartFails(z: Packer, file: seq<byte>, ps: seq<Part>, ms: seq<Material>, ts: seq<Texture>, k: nat)
    requires Undoes(z) && Saved(file, z, ps, ms, ts) && k < |ps| && ps[k].subsets == []
    ensures !ReadPart(z, file, PartOfs(z, ps, k)).Loaded?
  {
    hide Undoes, DecodePart, EncodePart, ReadSubset, Strange, Saved, PartOfs, SubsAt, ReadSubsets;
    var h, ofs := PartHdrOf(z, ps, k), PartOfs(z, ps, k);
    SavedParts(file, z, ps, ms, ts);
    assert PartAt(file, z, ps, k);
    Slice(file, ofs, EncodePart(h));
    PartBack(h);
    StrangeBehind(z, file, ps, ms, ts, k + 1);
    EmptyPartLen(z, ps, k);
    StrangeSubset(z, file, ofs + PART_SIZE);
    NotASubset(z, file, ofs + PART_SIZE);
  }

  /** Neither is a subset whose vertices have no room for a position. */
  lemma NarrowFails(z: Packer, file: seq<byte>, base: nat, ss: seq<Subset>, j: nat)
    requires Undoes(z) && j < |ss| && ValidSubset(ss[j]) && !HasPositions(ss[j]) && SubAt(file, z, base, ss, j)
    ensures !ReadSubset(z, file, base + SubsLen(z, ss, j)).Loaded?
  {
    hide Undoes, EncodeSub, DecodeSub, ReadData, SubsLen;
    var h, ofs := SubHdrOf(z, base, ss, j), base + SubsLen(z, ss, j);
    Slice(file, ofs, EncodeSub(h));
    SubBack(h);
  }

  lemma {:induction false} NarrowStops(z: Packer, file: seq<byte>, base: nat, ss: seq<Subset>, j: nat)
    requires Undoes(z) && base > 0 && j < |ss| && SubsAt(file, z, base, ss)
    requires !AllPositions(ss[j..]) && forall i :: 0 <= i < |ss| ==> ValidSubset(ss[i])
    ensures !ReadSubsets(z, file, base + SubsLen(z, ss, j), ss[..j]).Loaded?
    decreases |ss| - j
  {
    hide Undoes, ReadSubset, SubAt, ValidSubset, SubsLen, HasPositions;
    if HasPositions(ss[j]) {
      SubsetBack(z, file, base, ss, j);
      SubsGrow(z, ss, j, j + 1);
      assert ss[..j] + [ss[j]] == ss[..j + 1];
      assert ss[j..] == [ss[j]] + ss[j + 1..];
      NarrowStops(z, file, base, ss, j + 1);
    } else {
      NarrowFails(z, file, base, ss, j);
    }
  }

  lemma NarrowPartFails(z: Packer, file: seq<byte>, ps: seq<Part>, k: nat)
    requires Undoes(z) && k < |ps| && ValidPart(ps[k]) && PartAt(file, z, ps, k) && ps[k].subsets != []
      && !AllPositions(ps[k].subsets)
    ensures !ReadPart(z, file, PartOfs(z, ps, k)).Loaded?
  {
    hide Undoes, EncodePart, DecodePart, ReadSubsets, SubsAt, PartOfs, AllPositions;
    var h, ofs, ss := PartHdrOf(z, ps, k), PartOfs(z, ps, k), ps[k].subsets;
    Slice(file, ofs, EncodePart(h));
    PartBack(h);
    assert SubsLen(z, ss, 0) == 0 && ss[..0] == [] && ss[0..] == ss;
    NarrowStops(z, file, ofs + PART_SIZE, ss, 0);
  }

  /** The parts are read up to the first that is not complete. */
  lemma {:induction false} StopsAt(z: Packer, file: seq<byte>, ps: seq<Part>, ms: seq<Material>, ts: seq<Texture>,
          k: nat)
    requires Undoes(z) && Saved(file, z, ps, ms, ts) && k < |ps| && !HasParts(ps[k..])
    requires forall i :: 0 <= i < |ps| ==> ValidPart(ps[i])
    ensures !ReadParts(z, file, PartOfs(z, ps, k), ps[..k]).Loaded?
    decreases |ps| - k
  {
    hide Undoes, ReadPart, PartAt, ValidPart, PartOfs, Saved, AllPositions;
    SavedParts(file, z, ps, ms, ts);
    FirstOfs(z, ps, k);
    if ps[k].subsets == [] {
      EmptyPartFails(z, file, ps, ms, ts, k);
    } else if !AllPositions(ps[k].subsets) {
      NarrowPartFails(z, file, ps, k);
    } else {
      PartComesBack(z, file, ps, k);
      PartsGrow(z, ps, k, k + 1);
      assert ps[..k] + [ps[k]] == ps[..k + 1];
      assert ps[k..] == [ps[k]] + ps[k + 1..];
      StopsAt(z, file, ps, ms, ts, k + 1);
    }
  }

  lemma SignOf(file: seq<byte>, ofs: nat)
    requires ofs + PART_SIZE <= |file|
    ensures DecodePart(file[ofs..ofs + PART_SIZE]).sign == file[ofs..ofs + 4]
  {
    assert file[ofs..ofs + PART_SIZE][..4] == file[ofs..ofs + 4];
  }

  lemma EmptyModelFails(z: Packer, file: seq<byte>, ms: seq<Material>, ts: seq<Texture>)
    requires Undoes(z) && Saved(file, z, [], ms, ts)
    ensures !ReadParts(z, file, HEADER_SIZE, []).Loaded?
  {
    hide Undoes, DecodePart, Strange, Saved;
    StrangeBehind(z, file, [], ms, ts, 0);
    var ofs := HEADER_SIZE;
    assert PartOfs(z, [], 0) == ofs;
    if ofs + PART_SIZE <= |file| { SignOf(file, ofs); }
  }

  lemma SavedHeader(z: Packer, file: seq<byte>, ps: seq<Part>, ms: seq<Material>, ts: seq<Texture>)
    requires Saved(file, z, ps, ms, ts)
    ensures HEADER_SIZE <= |file| && DecodeFile(file[..HEADER_SIZE]).part == HEADER_SIZE
  {
    hide PartOfs, TexOfs, PartAt, MatAt, TexAt, HeaderAt, DecodeFile;
    var mat := PartOfs(z, ps, |ps|);
    HeaderBack(file, PartTris(ps) % WORD, Link(|ms| > 0, mat), Link(|ts| > 0, mat + MATERIAL_SIZE * |ms|));
  }

  /** A saved model comes back exactly if it has a part, every part a subset, and
      every vertex room for a position. Otherwise the load fails, or reads beyond the
      end of what there is. */
  lemma LoadsExactlyIf(z: Packer, m: Model, matNames: seq<Name>, texNames: seq<Name>, file: seq<byte>)
    requires Undoes(z) && ValidModel(m) && Lists(matNames, m.materials) && Lists(texNames, m.textures)
    requires Saved(file, z, m.parts, Listed(matNames, m.materials), Listed(texNames, m.textures))
    ensures ReadModel(z, file) == Loaded(m) <==> HasParts(m.parts)
    ensures !HasParts(m.parts) ==> !ReadModel(z, file).Loaded?
  {
    hide Undoes, Saved, ReadParts, ReadMaterials, ReadTextures, DecodeFile, ValidPart, ValidMaterial, ValidTexture;
    var ms, ts := Listed(matNames, m.materials), Listed(texNames, m.textures);
    SavedHeader(z, file, m.parts, ms, ts);
    if HasParts(m.parts) {
      SavedLoads(z, m, matNames, texNames, file);
    } else if m.parts == [] {
      EmptyModelFails(z, file, ms, ts);
    } else {
      assert m.parts[..0] == [] && m.parts[0..] == m.parts;
      StopsAt(z, file, m.parts, ms, ts, 0);
      FirstOfs(z, m.parts, 0);
    }
  }

  /** Saved and loaded again: the same model and the box of its positions, exactly
      if nothing is missing. */
  method SaveThenLoad(z: Packer, value: seq<byte> -> real, m: Model, matNames: seq<Name>, texNames: seq<Name>)
    returns (r: Outcome<Model>, box: Box)
    requires Undoes(z) && ValidModel(m) && Lists(matNames, m.materials) && Lists(texNames, m.textures)
    requires FileLen(z, m.parts, Listed(matNames, m.materials), Listed(texNames, m.textures)) < HALF
    ensures r == Loaded(m) <==> HasParts(m.parts)
    ensures !HasParts(m.parts) ==> !r.Loaded?
    ensures HasParts(m.parts) ==> PartsPositions(m.parts) && box == BoxParts(value, EmptyBox(), m.parts)
  {
    hide Undoes, ValidModel, Saved, ReadModel, BoxParts, PartsPositions;
    var file := Save(z, m, matNames, texNames);
    LoadsExactlyIf(z, m, matNames, texNames, file);
    r, box := Load(z, value, file);
  }

  // ------------------------------------------------------- the box is tight

  ghost predicate Inside(p: Float3, b: Box)
  {
    b.lo.x <= p.x <= b.hi.x && b.lo.y <= p.y <= b.hi.y && b.lo.z <= p.z <= b.hi.z
  }

  ghost predicate Covers(b: Box, c: Box)
  {
    && b.lo.x <= c.lo.x && b.lo.y <= c.lo.y && b.lo.z <= c.lo.z
    && c.hi.x <= b.hi.x && c.hi.y <= b.hi.y && c.hi.z <= b.hi.z
  }

  lemma {:induction false} VerticesInside(value: seq<byte> -> real, b: Box, s: Subset, n: nat)
    requires HasPositions(s) && n <= s.verts
    ensures Covers(BoxVertices(value, b, s, n), b)
    ensures forall i :: 0 <= i < n ==> Inside(Position(value, s, i), BoxVertices(value, b, s, n))
  {
    hide Position;
    if n == 0 {
    } else {
      VerticesInside(value, b, s, n - 1);
    }
  }

  lemma {:induction false} SubsetsInside(value: seq<byte> -> real, b: Box, ss: seq<Subset>)
    requires AllPositions(ss)
    ensures Covers(BoxSubsets(value, b, ss), b)
    ensures forall j, i ::
      0 <= j < |ss| && 0 <= i < ss[j].verts ==> Inside(Position(value, ss[j], i), BoxSubsets(value, b, ss))
  {
    hide Position, BoxVertices;
    if ss == [] {
    } else {
      var n := |ss| - 1;
      SubsetsInside(value, b, ss[..n]);
      VerticesInside(value, BoxSubsets(value, b, ss[..n]), ss[n], ss[n].verts);
    }
  }

  /** Every position lies in the box. */
  lemma {:induction false} PartsInside(value: seq<byte> -> real, b: Box, ps: seq<Part>)
    requires PartsPositions(ps)
    ensures Covers(BoxParts(value, b, ps), b)
    ensures forall k, j, i :: 0 <= k < |ps| && 0 <= j < |ps[k].subsets| && 0 <= i < ps[k].subsets[j].verts
                              ==> Inside(Position(value, ps[k].subsets[j], i), BoxParts(value, b, ps))
  {
    hide Position, BoxSubsets;
    if ps == [] {
    } else {
      var n := |ps| - 1;
      PartsInside(value, b, ps[..n]);
      SubsetsInside(value, BoxParts(value, b, ps[..n]), ps[n].subsets);
    }
  }

  lemma {:induction false} VerticesTight(value: seq<byte> -> real, b: Box, s: Subset, n: nat, c: Box)
    requires HasPositions(s) && n <= s.verts && Covers(c, b)
    requires forall i :: 0 <= i < n ==> Inside(Position(value, s, i), c)
    ensures Covers(c, BoxVertices(value, b, s, n))
  {
    hide Position;
    if n == 0 {
    } else {
      VerticesTight(value, b, s, n - 1, c);
    }
  }

  lemma {:induction false} SubsetsTight(value: seq<byte> -> real, b: Box, ss: seq<Subset>, c: Box)
    requires AllPositions(ss) && Covers(c, b)
    requires forall j, i :: 0 <= j < |ss| && 0 <= i < ss[j].verts ==> Inside(Position(value, ss[j], i), c)
    ensures Covers(c, BoxSubsets(value, b, ss))
  {
    hide Position, BoxVertices, Inside, Covers;
    if ss == [] {
    } else {
      var n := |ss| - 1;
      SubsetsTight(value, b, ss[..n], c);
      VerticesTight(value, BoxSubsets(value, b, ss[..n]), ss[n], ss[n].verts, c);
    }
  }

  /** And the box is the least that holds them. */
  lemma {:induction false} PartsTight(value: seq<byte> -> real, b: Box, ps: seq<Part>, c: Box)
    requires PartsPositions(ps) && Covers(c, b)
    requires forall k, j, i :: 0 <= k < |ps| && 0 <= j < |ps[k].subsets| && 0 <= i < ps[k].subsets[j].verts
                               ==> Inside(Position(value, ps[k].subsets[j], i), c)
    ensures Covers(c, BoxParts(value, b, ps))
  {
    hide Position, BoxSubsets, Inside, Covers;
    if ps == [] {
    } else {
      var n := |ps| - 1;
      PartsTight(value, b, ps[..n], c);
      SubsetsTight(value, BoxParts(value, b, ps[..n]), ps[n].subsets, c);
    }
  }
}
