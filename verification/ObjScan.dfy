/**
  From polygons to a file and back: what the conversion makes can be saved, and
  loading it again brings back the same fans.
 */
module ObjScan {
  import opened Bits
  import opened ScanRecords
  import opened ScanFile
  import opened ScanLoader
  import opened ObjModel

  /** Names fit their fields, buffers a signed 32-bit size. */
  ghost predicate Modest(b: Batch)
  {
    Short(b.mat) && 12 * (Stride(b) + 1) * Tris(b.faces, |b.faces|) < HALF
  }

  ghost predicate ModestPart(p: ObjPart)
  {
    Short(p.name) && forall j :: 0 <= j < |p.batches| ==> Modest(p.batches[j])
  }

  ghost predicate ModestObj(obj: Obj, textures: map<Name, Texture>)
  {
    && (forall i :: 0 <= i < |obj.parts| ==> ModestPart(obj.parts[i]))
    && (forall i :: 0 <= i < |obj.materials| ==> ValidMaterial(obj.materials[i]))
    && (forall n :: n in textures ==> ValidTexture(textures[n]) && textures[n].name == n)
  }

  lemma SizeOf(s: nat, t: nat)
    ensures 4 * (3 * s * t) == 4 * s * (3 * t) && 4 * (3 * s * t) + 12 * t == 12 * (s + 1) * t
  {
  }

  lemma SubsetValid(store: real -> seq<byte>, obj: Obj, b: Batch, s: Subset)
    requires IsSubset(store, obj, b, s) && Modest(b)
    ensures ValidSubset(s) && HasPositions(s)
  {
    hide GoodBatch, BatchFloats, Stride, Stores, Stored, Tris;
    StrideIsSize(b);
    SizeOf(Stride(b), s.tris);
  }

  lemma {:induction false} DrawnAre(bs: seq<Batch>)
    ensures forall b :: b in Drawn(bs) ==> b in bs
  {
    if bs == [] {
    } else {
      DrawnAre(bs[..|bs| - 1]);
    }
  }

  lemma {:induction false} DrawnPartsAre(ps: seq<ObjPart>)
    ensures forall p :: p in DrawnParts(ps) ==> p in ps
  {
    hide Drawn;
    if ps == [] {
    } else {
      DrawnPartsAre(ps[..|ps| - 1]);
    }
  }

  lemma PartValid(store: real -> seq<byte>, obj: Obj, op: ObjPart, p: Part)
    requires ModestPart(op) && p.name == op.name && p.subsets != []
      && AreSubsets(store, obj, Drawn(op.batches), p.subsets)
    ensures ValidPart(p) && Filled(p)
  {
    hide IsSubset, Modest, ValidSubset, HasPositions;
    var bs := Drawn(op.batches);
    DrawnAre(op.batches);
    forall j | 0 <= j < |p.subsets| ensures ValidSubset(p.subsets[j]) && HasPositions(p.subsets[j]) {
      assert bs[j] in op.batches;
      SubsetValid(store, obj, bs[j], p.subsets[j]);
    }
  }

  /** What the conversion makes can be saved, and comes back if anything is drawn. */
  lemma ConvertedIsValid(store: real -> seq<byte>, obj: Obj, m: Model)
    requires ModestObj(obj, m.textures) && AreParts(store, obj, DrawnParts(obj.parts), m.parts)
    requires Kept(m.parts, obj.materials, |obj.materials|, m.materials)
    ensures ValidModel(m) && (HasParts(m.parts) <==> DrawnParts(obj.parts) != [])
  {
    hide AreSubsets, ModestPart, ValidPart, Filled, ValidMaterial, ValidTexture, Uses;
    var ops := DrawnParts(obj.parts);
    DrawnPartsAre(obj.parts);
    forall k | 0 <= k < |m.parts| ensures ValidPart(m.parts[k]) && Filled(m.parts[k]) {
      assert ops[k] in obj.parts;
      PartValid(store, obj, ops[k], m.parts[k]);
    }
  }

  /** The keys of a map, in some order. */
  method Keys<T>(m: map<Name, T>) returns (names: seq<Name>)
    ensures Lists(names, m)
  {
    names := [];
    var left := m.Keys;
    while left != {}
      invariant left <= m.Keys && forall n :: n in m ==> (n in left <==> n !in names)
      invariant forall i :: 0 <= i < |names| ==> names[i] in m
      invariant forall i, j :: 0 <= i < j < |names| ==> names[i] != names[j]
      decreases left
    {
      var n :| n in left;
      names, left := names + [n], left - {n};
    }
  }

  /** A polygon model through a file: converted, saved and loaded, it is the converted
      model, and the box is that of its positions. */
  method ConvertSaveLoad(z: Packer, store: real -> seq<byte>, value: seq<byte> -> real, obj: Obj,
          textures: map<Name, Texture>)
    returns (m: Model, fits: bool, r: Outcome<Model>, box: Box)
    requires Undoes(z) && Stores(store) && GoodObj(obj) && ModestObj(obj, textures)
    ensures AreParts(store, obj, DrawnParts(obj.parts), m.parts)
      && Kept(m.parts, obj.materials, |obj.materials|, m.materials)
    ensures fits ==> (r == Loaded(m) <==> DrawnParts(obj.parts) != [])
    ensures fits && DrawnParts(obj.parts) != [] ==>
      PartsPositions(m.parts) && box == BoxParts(value, EmptyBox(), m.parts)
  {
    hide Undoes, Stores, GoodObj, ModestObj, AreParts, Kept, ValidModel, HasParts, PartsPositions, BoxParts;
    m := Convert(store, obj, textures);
    ConvertedIsValid(store, obj, m);
    var matNames := Keys(m.materials);
    var texNames := Keys(m.textures);
    fits := FileLen(z, m.parts, Listed(matNames, m.materials), Listed(texNames, m.textures)) < HALF;
    r, box := Rejected, EmptyBox();
    if fits {
      r, box := SaveThenLoad(z, value, m, matNames, texNames);
    }
  }

  // -------------------------------------------- where the vertices come from

  lemma {:induction false} StoredAt(store: real -> seq<byte>, v: seq<real>, i: nat)
    requires Stores(store) && i < |v|
    ensures Stored(store, v)[4 * i..4 * i + 4] == store(v[i])
  {
    var n := |v| - 1;
    var x := v[n];
    assert |store(x)| == 4;
    var s := Stored(store, v[..n]);
    if i == n {
      assert (s + store(x))[4 * i..4 * i + 4] == store(x);
    } else {
      StoredAt(store, v[..n], i);
      assert (s + store(x))[4 * i..4 * i + 4] == s[4 * i..4 * i + 4];
    }
  }

  lemma CornerAt(b: Batch, n: nat, c: nat)
    requires c < 3
    ensures VertexSize(Format(b)) * (3 * n + c) == 4 * (Ofs(b, n) + CornerOfs(b, c))
  {
    StrideIsSize(b);
    var s := Stride(b);
    assert 4 * s * (3 * n + c) == 4 * (3 * s * n) + 4 * s * c;
  }

  lemma TrianglesInside(b: Batch, k: nat, t: nat)
    requires k < |b.faces| && t + 2 < |b.faces[k].vert|
    ensures Tris(b.faces, k) + t < Tris(b.faces, |b.faces|)
  {
    TrisGrow(b.faces, k + 1, |b.faces|);
  }

  /** Number `j` of a vertex, as it stands in the buffer. */
  function Number(value: seq<byte> -> real, s: Subset, i: nat, j: nat): real
    requires VertexSize(s.fmt) * i + 4 * j + 4 <= |s.vb|
  {
    var at := VertexSize(s.fmt) * i + 4 * j;
    value(s.vb[at..at + 4])
  }

  lemma CornerNumbers(obj: Obj, b: Batch, f: Face, c: nat)
    requires GoodFace(obj, b, f) && c < |f.vert|
    ensures Stride(b) == 3 + (if b.hasNormal then 3 else 0) + (if b.hasUv then 2 else 0)
    ensures var p := obj.vertices[f.vert[c]];
            var r := Corner(obj, b, f, c);
            && r[0] == -p.x && r[1] == p.y && r[2] == p.z
            && (b.hasNormal ==> var m := obj.normals[f.normal[c]]; r[3] == -m.x && r[4] == m.y && r[5] == m.z)
            && (b.hasUv ==> var j := if b.hasNormal then 6 else 3;
                            r[j] == obj.uvs[f.uv[c]].u && r[j + 1] == obj.uvs[f.uv[c]].v)
  {
  }

  lemma FormatBits(b: Batch)
    ensures Format(b) % 2 == 1 && (Format(b) / 2 % 2 == 1 <==> b.hasNormal) && (Format(b) / 4 % 2 == 1 <==> b.hasUv)
    ensures Format(b) < 8
  {
  }

  /** All numbers of a corner, read back from the buffer. */
  lemma NumbersOfCorner(store: real -> seq<byte>, value: seq<byte> -> real, obj: Obj, b: Batch, s: Subset, k: nat,
          t: nat, c: nat, j: nat)
    requires IsSubset(store, obj, b, s) && forall x :: value(store(x)) == x
    requires k < |b.faces| && t + 2 < |b.faces[k].vert| && c < 3 && j < Stride(b)
    ensures GoodFace(obj, b, b.faces[k])
    ensures var i := 3 * (Tris(b.faces, k) + t) + c;
            && i < s.verts && VertexSize(s.fmt) * i + 4 * j + 4 <= |s.vb|
            && Number(value, s, i, j) == Corner(obj, b, b.faces[k], FanCorner(t, c))[j]
  {
    hide BatchFloats, Stores, Stored, Tris, VertexSize, Ofs, CornerOfs, Stride, GoodBatch, Format, Corner, CountsUp;
    var v, n := BatchFloats(obj, b, |b.faces|), Tris(b.faces, k) + t;
    var at := Ofs(b, n) + CornerOfs(b, c);
    GoodOne(obj, b, k);
    TrianglesInside(b, k, t);
    CornerInPlace(obj, b, k, t, c);
    CornerAt(b, n, c);
    assert v[at..at + Stride(b)][j] == v[at + j];
    StoredAt(store, v, at + j);
  }

  /** The corner of each fan that an entry of the index buffer selects, read back:
      position and normal of the polygon's vertex mirrored in x, and its texture
      position. Triangle `t` of a fan has the corners 0, `t` + 1 and `t` + 2. */
  lemma CornerReadBack(store: real -> seq<byte>, value: seq<byte> -> real, obj: Obj, b: Batch, s: Subset, k: nat,
          t: nat, c: nat)
    requires IsSubset(store, obj, b, s) && forall x :: value(store(x)) == x
    requires k < |b.faces| && t + 2 < |b.faces[k].vert| && c < 3
    ensures GoodFace(obj, b, b.faces[k]) && 12 * (Tris(b.faces, k) + t) + 4 * c + 4 <= |s.ib|
    ensures s.fmt % 2 == 1 && (s.fmt / 2 % 2 == 1 <==> b.hasNormal) && (s.fmt / 4 % 2 == 1 <==> b.hasUv)
    ensures var f, x := b.faces[k], if c == 0 then 0 else if c == 1 then t + 1 else t + 2;
            var i := IndexAt(s.ib, 3 * (Tris(b.faces, k) + t) + c);
            var p := obj.vertices[f.vert[x]];
            && i < s.verts && VertexSize(s.fmt) * i + 4 * Stride(b) <= |s.vb|
            && Number(value, s, i, 0) == -p.x && Number(value, s, i, 1) == p.y && Number(value, s, i, 2) == p.z
            && (b.hasNormal ==>
                  var m := obj.normals[f.normal[x]];
                  Number(value, s, i, 3) == -m.x && Number(value, s, i, 4) == m.y && Number(value, s, i, 5) == m.z)
            && (b.hasUv ==>
                  var j := if b.hasNormal then 6 else 3;
                  Number(value, s, i, j) == obj.uvs[f.uv[x]].u && Number(value, s, i, j + 1) == obj.uvs[f.uv[x]].v)
  {
    hide BatchFloats, Stores, Stored, Tris, VertexSize, Ofs, CornerOfs, GoodBatch, Format, Corner, Number, Stride;
    FormatBits(b);
    TrianglesInside(b, k, t);
    NumbersOfCorner(store, value, obj, b, s, k, t, c, 0);
    CornerNumbers(obj, b, b.faces[k], FanCorner(t, c));
    forall j: nat | j < Stride(b)
      ensures var i := 3 * (Tris(b.faces, k) + t) + c;
              && VertexSize(s.fmt) * i + 4 * j + 4 <= |s.vb|
              && Number(value, s, i, j) == Corner(obj, b, b.faces[k], FanCorner(t, c))[j]
    {
      NumbersOfCorner(store, value, obj, b, s, k, t, c, j);
    }
  }

  lemma SizeTwelve(b: Batch)
    ensures VertexSize(Format(b)) == 4 * Stride(b) && Stride(b) >= 3
  {
    StrideIsSize(b);
  }

  /** So the position that the reader sees there is that of the polygon's vertex. */
  lemma PositionOfCorner(store: real -> seq<byte>, value: seq<byte> -> real, obj: Obj, b: Batch, s: Subset, k: nat,
          t: nat, c: nat)
    requires IsSubset(store, obj, b, s) && HasPositions(s) && forall x :: value(store(x)) == x
    requires k < |b.faces| && t + 2 < |b.faces[k].vert| && c < 3
    ensures GoodFace(obj, b, b.faces[k]) && 12 * (Tris(b.faces, k) + t) + 4 * c + 4 <= |s.ib|
    ensures var p := obj.vertices[b.faces[k].vert[if c == 0 then 0 else if c == 1 then t + 1 else t + 2]];
            var i := IndexAt(s.ib, 3 * (Tris(b.faces, k) + t) + c);
            i < s.verts && Position(value, s, i) == Float3(-p.x, p.y, p.z)
  {
    hide BatchFloats, Stores, Stored, Tris, VertexSize, GoodBatch, Format, Stride;
    CornerReadBack(store, value, obj, b, s, k, t, c);
    SizeTwelve(b);
  }
}
