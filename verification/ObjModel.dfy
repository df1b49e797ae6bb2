/**
  OBJ polygons into triangles: each face becomes a fan around its first vertex, the
  corners go one after the other into an interleaved buffer, mirrored in x.
 */
module ObjModel {
  import opened Bits
  import opened ScanRecords
  import opened ScanFile

  datatype Float2 = Float2(u: real, v: real)

  datatype Face = Face(vert: seq<nat>, normal: seq<nat>, uv: seq<nat>)

  datatype Batch = Batch(faces: seq<Face>, mat: Name, hasNormal: bool, hasUv: bool)

  datatype ObjPart = ObjPart(name: Name, batches: seq<Batch>)

  /** A polygon model; of its materials only the names matter here. */
  datatype Obj = Obj(parts: seq<ObjPart>, vertices: seq<Float3>, normals: seq<Float3>, uvs: seq<Float2>,
    materials: seq<Material>)

  // ------------------------------------------------------------- one vertex

  /** The indices of a face lead somewhere. */
  predicate GoodFace(obj: Obj, b: Batch, f: Face)
  {
    && (forall i :: 0 <= i < |f.vert| ==> f.vert[i] < |obj.vertices|)
    && (b.hasNormal ==> |f.vert| <= |f.normal| && forall i :: 0 <= i < |f.vert| ==> f.normal[i] < |obj.normals|)
    && (b.hasUv ==> |f.vert| <= |f.uv| && forall i :: 0 <= i < |f.vert| ==> f.uv[i] < |obj.uvs|)
  }

  function Format(b: Batch): nat
  {
    1 + (if b.hasNormal then 2 else 0) + (if b.hasUv then 4 else 0)
  }

  /** Numbers for a vertex. */
  function Stride(b: Batch): (n: nat)
    ensures 3 <= n <= 8
  {
    3 + (if b.hasNormal then 3 else 0) + (if b.hasUv then 2 else 0)
  }

  lemma StrideIsSize(b: Batch)
    ensures VertexSize(Format(b)) == 4 * Stride(b)
  {
  }

  function Mirrored(p: Float3): seq<real>
  {
    [-p.x, p.y, p.z]
  }

  /** Position, normal, texture position of one corner. */
  function Corner(obj: Obj, b: Batch, f: Face, c: nat): (r: seq<real>)
    requires GoodFace(obj, b, f) && c < |f.vert|
    ensures |r| == Stride(b)
  {
    Mirrored(obj.vertices[f.vert[c]])
    + (if b.hasNormal then Mirrored(obj.normals[f.normal[c]]) else [])
    + (if b.hasUv then [obj.uvs[f.uv[c]].u, obj.uvs[f.uv[c]].v] else [])
  }

  // ---------------------------------------------------------------- the fan

  function Fan(n: nat): nat
  {
    if n < 2 then 0 else n - 2
  }

  /** The numbers of `n` triangles. */
  function Ofs(b: Batch, n: nat): nat
  {
    3 * Stride(b) * n
  }

  lemma OfsAdd(b: Batch, a: nat, n: nat)
    ensures Ofs(b, a + n) == Ofs(b, a) + Ofs(b, n)
  {
    assert 3 * Stride(b) * (a + n) == 3 * Stride(b) * a + 3 * Stride(b) * n;
  }

  lemma OfsOne(b: Batch)
    ensures Ofs(b, 0) == 0 && Ofs(b, 1) == 3 * Stride(b)
  {
  }

  ghost function Triangle(obj: Obj, b: Batch, f: Face, i: nat): (r: seq<real>)
    requires GoodFace(obj, b, f) && 2 <= i < |f.vert|
    ensures |r| == 3 * Stride(b)
  {
    Corner(obj, b, f, 0) + Corner(obj, b, f, i - 1) + Corner(obj, b, f, i)
  }

  /** The triangles of a face up to corner `i`. */
  ghost function FaceFloats(obj: Obj, b: Batch, f: Face, i: nat): (r: seq<real>)
    requires GoodFace(obj, b, f) && (i == 2 || 2 <= i <= |f.vert|)
    ensures |r| == Ofs(b, i - 2)
  {
    if i == 2 then OfsOne(b); []
    else
      OfsOne(b);
      OfsAdd(b, i - 3, 1);
      FaceFloats(obj, b, f, i - 1) + Triangle(obj, b, f, i - 1)
  }

  ghost predicate GoodBatch(obj: Obj, b: Batch)
  {
    forall k :: 0 <= k < |b.faces| ==> GoodFace(obj, b, b.faces[k]) && |b.faces[k].vert| >= 2
  }

  /** The triangles of the first `k` faces. */
  function Tris(fs: seq<Face>, k: nat): nat
    requires k <= |fs|
  {
    if k == 0 then 0 else Tris(fs, k - 1) + Fan(|fs[k - 1].vert|)
  }

  ghost function BatchFloats(obj: Obj, b: Batch, k: nat): (r: seq<real>)
    requires GoodBatch(obj, b) && k <= |b.faces|
    ensures |r| == Ofs(b, Tris(b.faces, k))
  {
    if k == 0 then OfsOne(b); []
    else
      OfsAdd(b, Tris(b.faces, k - 1), |b.faces[k - 1].vert| - 2);
      BatchFloats(obj, b, k - 1) + FaceFloats(obj, b, b.faces[k - 1], |b.faces[k - 1].vert|)
  }

  // ------------------------------------------------------------- the counting

  /** What the program adds up, before it is cut to 32 bits. */
  function Counted(fs: seq<Face>, k: nat): int
    requires k <= |fs|
  {
    if k == 0 then 0 else Counted(fs, k - 1) + |fs[k - 1].vert| - 2
  }

  /** The count is that of the triangles exactly if no face has fewer than two
      vertices. */
  lemma {:induction false} CountedExactlyIf(fs: seq<Face>, k: nat)
    requires k <= |fs|
    ensures Counted(fs, k) <= Tris(fs, k)
    ensures Counted(fs, k) == Tris(fs, k) <==> forall i :: 0 <= i < k ==> |fs[i].vert| >= 2
  {
    if k == 0 {
    } else {
      CountedExactlyIf(fs, k - 1);
    }
  }

  method CountTriangles(fs: seq<Face>) returns (tris: nat)
    ensures tris == Counted(fs, |fs|) % WORD
  {
    tris := 0;
    var k := 0;
    while k < |fs|
      invariant 0 <= k <= |fs| && tris == Counted(fs, k) % WORD
    {
      tris := (tris + |fs[k].vert| - 2) % WORD;
      k := k + 1;
    }
  }

  // ------------------------------------------------------------ filling the buffer

  method PutVector(p: Float3, vb: array<real>, at: nat)
    requires at + 3 <= vb.Length
    modifies vb
    ensures vb[..at + 3] == old(vb[..at]) + Mirrored(p)
  {
    vb[at], vb[at + 1], vb[at + 2] := -p.x, p.y, p.z;
  }

  method PutCorner(obj: Obj, b: Batch, f: Face, c: nat, vb: array<real>, at: nat) returns (next: nat)
    requires GoodFace(obj, b, f) && c < |f.vert| && at + Stride(b) <= vb.Length
    modifies vb
    ensures next == at + Stride(b) && vb[..next] == old(vb[..at]) + Corner(obj, b, f, c)
  {
    hide Mirrored;
    next := at;
    PutVector(obj.vertices[f.vert[c]], vb, next);
    next := next + 3;
    if b.hasNormal {
      PutVector(obj.normals[f.normal[c]], vb, next);
      next := next + 3;
    }
    if b.hasUv {
      var t := obj.uvs[f.uv[c]];
      ghost var before := vb[..next];
      vb[next], vb[next + 1] := t.u, t.v;
      next := next + 2;
      assert vb[..next] == before + [t.u, t.v];
    }
  }

  lemma FaceStart(obj: Obj, b: Batch, f: Face)
    requires GoodFace(obj, b, f)
    ensures FaceFloats(obj, b, f, 2) == []
  {
  }

  lemma FaceStep(obj: Obj, b: Batch, f: Face, i: nat, before: seq<real>)
    requires GoodFace(obj, b, f) && 2 <= i < |f.vert|
    ensures before + FaceFloats(obj, b, f, i + 1)
         == before + FaceFloats(obj, b, f, i) + (Corner(obj, b, f, 0) + Corner(obj, b, f, i - 1) + Corner(obj, b, f, i))
  {
    hide Corner, GoodFace;
    assert FaceFloats(obj, b, f, i + 1) == FaceFloats(obj, b, f, i) + Triangle(obj, b, f, i);
  }

  lemma Chain(x: seq<real>, a: seq<real>, b: seq<real>, c: seq<real>)
    ensures x + a + b + c == x + (a + b + c)
  {
  }

  method PutFace(obj: Obj, b: Batch, f: Face, vb: array<real>, at: nat) returns (next: nat)
    requires GoodFace(obj, b, f) && |f.vert| >= 2 && at + Ofs(b, |f.vert| - 2) <= vb.Length
    modifies vb
    ensures next == at + Ofs(b, |f.vert| - 2)
    ensures vb[..next] == old(vb[..at]) + FaceFloats(obj, b, f, |f.vert|)
  {
    hide Corner, Stride, Ofs, FaceFloats, Triangle, GoodFace;
    next := at;
    OfsOne(b);
    FaceStart(obj, b, f);
    assert vb[..at] + [] == vb[..at];
    var i := 2;
    while i < |f.vert|
      invariant 2 <= i <= |f.vert| && next == at + Ofs(b, i - 2) <= vb.Length
      invariant vb[..next] == old(vb[..at]) + FaceFloats(obj, b, f, i)
    {
      ghost var before := vb[..next];
      OfsAdd(b, i - 2, 1);
      OfsAdd(b, i - 1, |f.vert| - 1 - i);
      next := PutCorner(obj, b, f, 0, vb, next);
      next := PutCorner(obj, b, f, i - 1, vb, next);
      next := PutCorner(obj, b, f, i, vb, next);
      FaceStep(obj, b, f, i, old(vb[..at]));
      Chain(before, Corner(obj, b, f, 0), Corner(obj, b, f, i - 1), Corner(obj, b, f, i));
      i := i + 1;
    }
  }

  lemma {:induction false} TrisGrow(fs: seq<Face>, i: nat, j: nat)
    requires i <= j <= |fs|
    ensures Tris(fs, i) <= Tris(fs, j)
    decreases j - i
  {
    if i == j {
    } else {
      TrisGrow(fs, i, j - 1);
    }
  }

  /** The vertex buffer of a subset: filled exactly, with the fans in the order of
      the faces. */
  method FillBuffer(obj: Obj, b: Batch, tris: nat) returns (vb: array<real>)
    requires GoodBatch(obj, b) && tris == Tris(b.faces, |b.faces|)
    ensures fresh(vb) && vb.Length == Ofs(b, tris) && vb[..] == BatchFloats(obj, b, |b.faces|)
  {
    hide FaceFloats, GoodFace, Stride, Ofs;
    vb := new real[Ofs(b, tris)](_ => 0.0);
    OfsOne(b);
    var at, k := 0, 0;
    while k < |b.faces|
      invariant 0 <= k <= |b.faces| && at == Ofs(b, Tris(b.faces, k)) <= vb.Length
      invariant vb[..at] == BatchFloats(obj, b, k)
    {
      TrisGrow(b.faces, k + 1, |b.faces|);
      OfsAdd(b, Tris(b.faces, k), |b.faces[k].vert| - 2);
      OfsAdd(b, Tris(b.faces, k + 1), tris - Tris(b.faces, k + 1));
      at := PutFace(obj, b, b.faces[k], vb, at);
      k := k + 1;
    }
    assert vb[..at] == vb[..];
  }

  // -------------------------------------------------- where a corner stands

  /** Corner `c` of triangle `t` of face `k`: the first vertex of the face, or one
      of the two behind each other. */
  function FanCorner(t: nat, c: nat): nat
    requires c < 3
  {
    if c == 0 then 0 else t + c
  }

  lemma SliceLeft(x: seq<real>, y: seq<real>, at: nat, n: nat)
    requires at + n <= |x|
    ensures (x + y)[at..at + n] == x[at..at + n]
  {
  }

  lemma SliceRight(x: seq<real>, y: seq<real>, at: nat, n: nat)
    requires at + n <= |y|
    ensures (x + y)[|x| + at..|x| + at + n] == y[at..at + n]
  {
  }

  lemma SliceSlice(v: seq<real>, base: nat, m: nat, at: nat, n: nat)
    requires base + m <= |v| && at + n <= m
    ensures v[base..base + m][at..at + n] == v[base + at..base + at + n]
  {
    var x, y := v[base..base + m][at..at + n], v[base + at..base + at + n];
    forall i | 0 <= i < n ensures x[i] == y[i] {}
  }

  function CornerOfs(b: Batch, c: nat): (n: nat)
    requires c < 3
    ensures n + Stride(b) <= 3 * Stride(b)
  {
    if c == 0 then 0 else if c == 1 then Stride(b) else Stride(b) + Stride(b)
  }

  lemma TriangleCorner(obj: Obj, b: Batch, f: Face, t: nat, c: nat)
    requires GoodFace(obj, b, f) && t + 2 < |f.vert| && c < 3
    ensures Triangle(obj, b, f, t + 2)[CornerOfs(b, c)..CornerOfs(b, c) + Stride(b)]
      == Corner(obj, b, f, FanCorner(t, c))
  {
    hide Corner, Stride;
  }

  lemma {:induction false} FaceTriangle(obj: Obj, b: Batch, f: Face, i: nat, t: nat)
    requires GoodFace(obj, b, f) && 2 <= i <= |f.vert| && t + 2 < i
    ensures Ofs(b, t) + 3 * Stride(b) <= |FaceFloats(obj, b, f, i)|
    ensures FaceFloats(obj, b, f, i)[Ofs(b, t)..Ofs(b, t) + 3 * Stride(b)] == Triangle(obj, b, f, t + 2)
  {
    hide Triangle, Stride, Ofs;
    OfsOne(b);
    var x, y := FaceFloats(obj, b, f, i - 1), Triangle(obj, b, f, i - 1);
    if t + 3 < i {
      FaceTriangle(obj, b, f, i - 1, t);
      SliceLeft(x, y, Ofs(b, t), 3 * Stride(b));
    } else {
      SliceRight(x, y, 0, 3 * Stride(b));
      assert y[0..|y|] == y;
    }
  }

  lemma {:induction false} BatchTriangle(obj: Obj, b: Batch, n: nat, k: nat, t: nat)
    requires GoodBatch(obj, b) && k < n <= |b.faces| && t + 2 < |b.faces[k].vert|
    ensures var at := Ofs(b, Tris(b.faces, k) + t);
            at + 3 * Stride(b) <= |BatchFloats(obj, b, n)|
            && BatchFloats(obj, b, n)[at..at + 3 * Stride(b)] == Triangle(obj, b, b.faces[k], t + 2)
    decreases n
  {
    hide Triangle, Stride, FaceFloats, GoodFace, Ofs;
    var f, s := b.faces[n - 1], 3 * Stride(b);
    var x, y := BatchFloats(obj, b, n - 1), FaceFloats(obj, b, f, |f.vert|);
    if k == n - 1 {
      FaceTriangle(obj, b, f, |f.vert|, t);
      OfsAdd(b, Tris(b.faces, k), t);
      SliceRight(x, y, Ofs(b, t), s);
    } else {
      BatchTriangle(obj, b, n - 1, k, t);
      SliceLeft(x, y, Ofs(b, Tris(b.faces, k) + t), s);
    }
  }

  lemma GoodOne(obj: Obj, b: Batch, k: nat)
    requires GoodBatch(obj, b) && k < |b.faces|
    ensures GoodFace(obj, b, b.faces[k])
  {
  }

  /** Every corner of every fan stands in its place of the buffer. */
  lemma CornerInPlace(obj: Obj, b: Batch, k: nat, t: nat, c: nat)
    requires GoodBatch(obj, b) && k < |b.faces| && t + 2 < |b.faces[k].vert| && c < 3
    ensures var at := Ofs(b, Tris(b.faces, k) + t) + CornerOfs(b, c);
            at + Stride(b) <= |BatchFloats(obj, b, |b.faces|)|
            && BatchFloats(obj, b, |b.faces|)[at..at + Stride(b)] == Corner(obj, b, b.faces[k], FanCorner(t, c))
  {
    hide Triangle, Stride, BatchFloats, Corner, GoodFace, Ofs, CornerOfs;
    BatchTriangle(obj, b, |b.faces|, k, t);
    GoodOne(obj, b, k);
    TriangleCorner(obj, b, b.faces[k], t, c);
    SliceSlice(BatchFloats(obj, b, |b.faces|), Ofs(b, Tris(b.faces, k) + t), 3 * Stride(b), CornerOfs(b, c), Stride(b));
  }

  // ----------------------------------------------------------- parts and materials

  /** A batch whose buffers have a size of 32 bits. */
  ghost predicate FitBatch(obj: Obj, b: Batch)
  {
    GoodBatch(obj, b) && 12 * Stride(b) * Tris(b.faces, |b.faces|) < WORD
  }

  ghost predicate FitPart(obj: Obj, p: ObjPart)
  {
    forall j :: 0 <= j < |p.batches| ==> FitBatch(obj, p.batches[j])
  }

  ghost predicate GoodObj(obj: Obj)
  {
    forall i :: 0 <= i < |obj.parts| ==> FitPart(obj, obj.parts[i])
  }

  /** `store` says how a number stands in memory: in four bytes. */
  ghost predicate Stores(store: real -> seq<byte>)
  {
    forall x :: |store(x)| == 4
  }

  function Stored(store: real -> seq<byte>, v: seq<real>): (r: seq<byte>)
    requires Stores(store)
    ensures |r| == 4 * |v|
  {
    if v == [] then []
    else
      var x := v[|v| - 1];
      assert |store(x)| == 4;
      Stored(store, v[..|v| - 1]) + store(x)
  }

  /** The indices below `n`, in memory. */
  /** Entry `i` of an index buffer. */
  function IndexAt(ib: seq<byte>, i: nat): nat
    requires 4 * i + 4 <= |ib|
  {
    De32(ib[4 * i..4 * i + 4])
  }

  /** Every vertex is used once, in its place. */
  ghost predicate CountsUp(ib: seq<byte>, n: nat)
  {
    |ib| == 4 * n && forall i :: 0 <= i < n ==> IndexAt(ib, i) == i
  }

  lemma OneMoreIndex(ib: seq<byte>, n: nat)
    requires CountsUp(ib, n) && n < WORD
    ensures CountsUp(ib + Le32(n), n + 1)
  {
    hide De32, Le32;
    var r := ib + Le32(n);
    forall i | 0 <= i < n + 1 ensures IndexAt(r, i) == i {
      if i < n {
        assert IndexAt(ib, i) == i;
        assert r[4 * i..4 * i + 4] == ib[4 * i..4 * i + 4];
      } else {
        assert r[4 * i..4 * i + 4] == Le32(n);
        Le32Back(n);
      }
    }
  }

  /** A subset made from a batch. */
  ghost predicate IsSubset(store: real -> seq<byte>, obj: Obj, b: Batch, s: Subset)
  {
    && Stores(store) && FitBatch(obj, b)
    && s.tris == Tris(b.faces, |b.faces|) && s.verts == 3 * s.tris < WORD && s.mat == b.mat && s.fmt == Format(b)
    && s.vb == Stored(store, BatchFloats(obj, b, |b.faces|)) && CountsUp(s.ib, s.verts)
  }

  lemma Modest(s: nat, t: nat)
    requires 3 <= s && 12 * s * t < WORD
    ensures 36 * t < WORD
  {
    assert 12 * s * t >= 36 * t;
  }

  method ConvertBatch(store: real -> seq<byte>, obj: Obj, b: Batch) returns (s: Subset)
    requires Stores(store) && FitBatch(obj, b)
    ensures IsSubset(store, obj, b, s)
  {
    hide GoodFace, BatchFloats, Stride, Ofs, Le32, De32, IndexAt;
    var tris := CountTriangles(b.faces);
    CountedExactlyIf(b.faces, |b.faces|);
    Modest(Stride(b), Tris(b.faces, |b.faces|));
    var vb := FillBuffer(obj, b, tris);
    var data := Stored(store, vb[..]);
    var ib: seq<byte>, i := [], 0;
    while i < tris * 3
      invariant 0 <= i <= tris * 3 && CountsUp(ib, i)
    {
      OneMoreIndex(ib, i);
      ib := ib + Le32(i);
      i := i + 1;
    }
    s := Subset(data, ib, tris * 3, tris, b.mat, Format(b));
  }

  /** The batches of a part that have faces. */
  ghost function Drawn(bs: seq<Batch>): seq<Batch>
  {
    if bs == [] then []
    else Drawn(bs[..|bs| - 1]) + (if bs[|bs| - 1].faces != [] then [bs[|bs| - 1]] else [])
  }

  ghost predicate AreSubsets(store: real -> seq<byte>, obj: Obj, bs: seq<Batch>, ss: seq<Subset>)
  {
    |ss| == |bs| && forall j :: 0 <= j < |ss| ==> IsSubset(store, obj, bs[j], ss[j])
  }

  method ConvertPart(store: real -> seq<byte>, obj: Obj, p: ObjPart) returns (ss: seq<Subset>)
    requires Stores(store) && FitPart(obj, p)
    ensures AreSubsets(store, obj, Drawn(p.batches), ss)
  {
    hide FitBatch, IsSubset, Stores;
    ss := [];
    var j := 0;
    assert p.batches[..0] == [];
    while j < |p.batches|
      invariant 0 <= j <= |p.batches| && AreSubsets(store, obj, Drawn(p.batches[..j]), ss)
    {
      assert p.batches[..j + 1][..j] == p.batches[..j];
      if p.batches[j].faces != [] {
        var s := ConvertBatch(store, obj, p.batches[j]);
        ss := ss + [s];
      }
      j := j + 1;
    }
    assert p.batches[..j] == p.batches;
  }

  /** The parts that have something to draw. */
  ghost function DrawnParts(ps: seq<ObjPart>): seq<ObjPart>
  {
    if ps == [] then []
    else DrawnParts(ps[..|ps| - 1]) + (if Drawn(ps[|ps| - 1].batches) != [] then [ps[|ps| - 1]] else [])
  }

  ghost predicate AreParts(store: real -> seq<byte>, obj: Obj, ops: seq<ObjPart>, ps: seq<Part>)
  {
    |ps| == |ops| && forall k :: 0 <= k < |ps| ==>
      ps[k].name == ops[k].name && ps[k].subsets != [] && AreSubsets(store, obj, Drawn(ops[k].batches), ps[k].subsets)
  }

  lemma NoParts(store: real -> seq<byte>, obj: Obj)
    ensures AreParts(store, obj, DrawnParts([]), [])
  {
  }

  lemma MoreParts(store: real -> seq<byte>, obj: Obj, ops: seq<ObjPart>, ps: seq<Part>, op: ObjPart, p: Part)
    requires AreParts(store, obj, ops, ps) && p.name == op.name && p.subsets != []
    requires AreSubsets(store, obj, Drawn(op.batches), p.subsets)
    ensures AreParts(store, obj, ops + [op], ps + [p])
  {
    hide AreSubsets, Drawn;
  }

  lemma DrawnNext(ps: seq<ObjPart>, i: nat)
    requires i < |ps|
    ensures DrawnParts(ps[..i + 1])
         == if Drawn(ps[i].batches) != [] then DrawnParts(ps[..i]) + [ps[i]] else DrawnParts(ps[..i])
  {
    assert ps[..i + 1][..i] == ps[..i];
    hide Drawn;
  }

  method ConvertParts(store: real -> seq<byte>, obj: Obj) returns (ps: seq<Part>)
    requires Stores(store) && GoodObj(obj)
    ensures AreParts(store, obj, DrawnParts(obj.parts), ps)
  {
    hide IsSubset, FitPart, Stores, AreParts, DrawnParts;
    NoParts(store, obj);
    ps := [];
    var i := 0;
    assert obj.parts[..0] == [];
    while i < |obj.parts|
      invariant 0 <= i <= |obj.parts| && AreParts(store, obj, DrawnParts(obj.parts[..i]), ps)
    {
      DrawnNext(obj.parts, i);
      var p := obj.parts[i];
      if p.batches != [] {
        var ss := ConvertPart(store, obj, p);
        if ss != [] {
          MoreParts(store, obj, DrawnParts(obj.parts[..i]), ps, p, Part(p.name, ss));
          ps := ps + [Part(p.name, ss)];
        }
      }
      i := i + 1;
    }
    assert obj.parts[..i] == obj.parts;
  }

  ghost predicate Uses(ps: seq<Part>, name: Name)
  {
    exists k, j :: 0 <= k < |ps| && 0 <= j < |ps[k].subsets| && ps[k].subsets[j].mat == name
  }

  method IsUsed(ps: seq<Part>, name: Name) returns (found: bool)
    ensures found == Uses(ps, name)
  {
    found := false;
    var k := 0;
    while k < |ps|
      invariant 0 <= k <= |ps| && found == Uses(ps[..k], name)
    {
      var j := 0;
      ghost var before := found;
      while j < |ps[k].subsets|
        invariant 0 <= j <= |ps[k].subsets| && found == before == false
        invariant forall h :: 0 <= h < j ==> ps[k].subsets[h].mat != name
      {
        if ps[k].subsets[j].mat == name {
          return true;
        }
        j := j + 1;
      }
      k := k + 1;
    }
    assert ps[..k] == ps;
  }

  /** The last of the first `n` definitions of a material. */
  ghost predicate LastOf(ms: seq<Material>, n: nat, name: Name, m: Material)
    requires n <= |ms|
  {
    exists i :: 0 <= i < n && ms[i].name == name && ms[i] == m && forall h :: i < h < n ==> ms[h].name != name
  }

  ghost predicate Kept(ps: seq<Part>, ms: seq<Material>, n: nat, got: map<Name, Material>)
    requires n <= |ms|
  {
    && (forall name :: name in got <==> Uses(ps, name) && exists i :: 0 <= i < n && ms[i].name == name)
    && (forall name :: name in got ==> LastOf(ms, n, name, got[name]))
  }

  lemma KeepOne(ps: seq<Part>, ms: seq<Material>, n: nat, got: map<Name, Material>)
    requires n < |ms| && Kept(ps, ms, n, got)
    ensures Kept(ps, ms, n + 1, if Uses(ps, ms[n].name) then got[ms[n].name := ms[n]] else got)
  {
    hide Uses;
    var m := ms[n];
    var next := if Uses(ps, m.name) then got[m.name := m] else got;
    forall name | name in next ensures LastOf(ms, n + 1, name, next[name]) {
      if name == m.name {
        assert Uses(ps, m.name) && ms[n].name == name && ms[n] == next[name];
      } else {
        var i :| 0 <= i < n && ms[i].name == name && ms[i] == got[name] && forall h :: i < h < n ==> ms[h].name != name;
        assert forall h :: i < h < n + 1 ==> ms[h].name != name;
      }
    }
    forall name ensures name in next <==> Uses(ps, name) && exists i :: 0 <= i < n + 1 && ms[i].name == name {
      if name == m.name { assert ms[n].name == name; }
    }
  }

  /** A material is kept exactly if some subset names it; the last definition wins. */
  method KeepMaterials(ps: seq<Part>, ms: seq<Material>) returns (got: map<Name, Material>)
    ensures Kept(ps, ms, |ms|, got)
  {
    hide Uses;
    got := map[];
    var n := 0;
    while n < |ms|
      invariant 0 <= n <= |ms| && Kept(ps, ms, n, got)
    {
      var used := IsUsed(ps, ms[n].name);
      KeepOne(ps, ms, n, got);
      if used { got := got[ms[n].name := ms[n]]; }
      n := n + 1;
    }
  }

  /** ConvertObjTo3DModel; the texture files are read elsewhere. */
  method Convert(store: real -> seq<byte>, obj: Obj, textures: map<Name, Texture>) returns (m: Model)
    requires Stores(store) && GoodObj(obj)
    ensures AreParts(store, obj, DrawnParts(obj.parts), m.parts)
      && Kept(m.parts, obj.materials, |obj.materials|, m.materials)
    ensures m.textures == textures
  {
    hide Stores, GoodObj, AreParts, Kept;
    var ps := ConvertParts(store, obj);
    var ms := KeepMaterials(ps, obj.materials);
    m := Model(ps, ms, textures);
  }
}
