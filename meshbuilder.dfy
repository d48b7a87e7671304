/** The wall mesh accumulator (MeshBuilder.cs): four parallel lists that only
    grow, one quad (4 vertices, 2 triangles) at a time. */
module Meshes {
  import opened Grid

  /** A texture coordinate (Vector2). */
  datatype UV = UV(u: real, v: real)

  /** The texture coordinates of every quad's four corners, in corner order. */
  const QuadUVs: seq<UV> := [UV(0.0, 0.0), UV(1.0, 0.0), UV(1.0, 1.0), UV(0.0, 1.0)]

  function Sub(a: Vec3, b: Vec3): Vec3
  {
    Vec3(a.x - b.x, a.y - b.y, a.z - b.z)
  }

  function Cross(a: Vec3, b: Vec3): Vec3
  {
    Vec3(a.y * b.z - a.z * b.y, a.z * b.x - a.x * b.z, a.x * b.y - a.y * b.x)
  }

  function Dot(a: Vec3, b: Vec3): real
  {
    a.x * b.x + a.y * b.y + a.z * b.z
  }

  /** The face normal of the quad a b c d, up to length: perpendicular to
      both edges leaving a. */
  function FaceNormal(a: Vec3, b: Vec3, c: Vec3): (n: Vec3)
    ensures Dot(n, Sub(b, a)) == 0.0 && Dot(n, Sub(c, a)) == 0.0
  {
    Cross(Sub(b, a), Sub(c, a))
  }

  /** The two triangles (i, i+1, i+2) and (i, i+2, i+3) of a quad whose first
      corner is vertex i. */
  function QuadIndices(i: int): (r: seq<int>)
    ensures |r| == 6
    ensures forall k :: 0 <= k < 6 ==> i <= r[k] < i + 4
    ensures r[0] == r[3] == i && r[2] == r[4]
  {
    [i, i + 1, i + 2, i, i + 2, i + 3]
  }

  class MeshBuilder {
    var v: seq<Vec3>
    var n: seq<Vec3>
    var uv: seq<UV>
    var idx: seq<int>

    /** The buffer invariant: the per-vertex lists stay parallel and made of
        whole quads, there are six indices per quad, every index of quad q
        names one of quad q's own four vertices, and every quad carries the
        fixed texture coordinates. */
    ghost predicate Valid()
      reads this
    {
      && |n| == |v| && |uv| == |v|
      && |v| % 4 == 0 && |idx| == |v| / 4 * 6
      && (forall k :: 0 <= k < |idx| ==> 4 * (k / 6) <= idx[k] < 4 * (k / 6) + 4)
      && (forall k :: 0 <= k < |uv| ==> uv[k] == QuadUVs[k % 4])
    }

    constructor ()
      ensures Valid() && v == [] && n == [] && uv == [] && idx == []
    {
      v, n, uv, idx := [], [], [], [];
    }

    /** Appends one quad; nothing already in the lists changes. */
    method Quad(a: Vec3, b: Vec3, c: Vec3, d: Vec3)
      requires Valid()
      modifies this
      ensures Valid()
      ensures v == old(v) + [a, b, c, d]
      ensures n == old(n) + [FaceNormal(a, b, c), FaceNormal(a, b, c), FaceNormal(a, b, c), FaceNormal(a, b, c)]
      ensures uv == old(uv) + QuadUVs
      ensures idx == old(idx) + QuadIndices(|old(v)|)
    {
      var i := |v|;
      ghost var q := |v| / 4;
      v := v + [a, b, c, d];
      var normal := FaceNormal(a, b, c);
      n := n + [normal, normal, normal, normal];
      uv := uv + QuadUVs;
      var fresh6 := QuadIndices(i);
      assert i == 4 * q;
      forall k | |idx| <= k < |idx| + 6
        ensures k / 6 == q
      {
        DivBand(k, |idx|, q);
      }
      idx := idx + fresh6;
      forall k | |uv| - 4 <= k < |uv|
        ensures uv[k] == QuadUVs[k % 4]
      {
        ModBand(k, |uv| - 4);
      }
    }
  }

  lemma DivBand(k: int, base: int, q: int)
    requires base == 6 * q && base <= k < base + 6
    ensures k / 6 == q
  {
  }

  lemma ModBand(k: int, base: int)
    requires base % 4 == 0 && 0 <= base <= k < base + 4
    ensures k % 4 == k - base
  {
  }

  /** In a valid buffer every index names an existing vertex. */
  lemma IndicesInRange(m: MeshBuilder)
    requires m.Valid()
    ensures forall k :: 0 <= k < |m.idx| ==> 0 <= m.idx[k] < |m.v|
    ensures |m.idx| * 4 == |m.v| * 6
  {
    forall k | 0 <= k < |m.idx|
      ensures 0 <= m.idx[k] < |m.v|
    {
      assert 4 * (k / 6) + 4 <= 4 * (|m.v| / 4);
    }
  }
}
