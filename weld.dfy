/** `transform` of `libviewer/stl_loader.hpp`: the loops that weld the
    triangle soup of a parsed STL file into a mesh, proved against `WeldSpec`. */
module Weld {
  import opened Mesh
  import opened StlLoader
  import opened WeldSpec

  /** One pass of the corner loop of `transform`: a position not in the index
      gets the next vertex, with the corner's normal; a known one adds the
      corner's normal to its vertex. Returns the corner's vertex index. */
  method WeldCorner(mesh: Model, positionIndex: map<Vec3, nat>, p: Vec3, n: Vec3,
                    add: (Vec3, Vec3) -> Vec3, ghost prior: seq<Vertex>, ghost cs: seq<Vec3>,
                    ghost ns: seq<Vec3>, ghost c: nat, ghost ds: seq<Vec3>)
    returns (index: nat, positionIndex': map<Vec3, nat>)
    requires ds == FirstAppearance(cs)
    requires WeldState(mesh.vertices, prior, positionIndex, cs, ns, c, ds, add)
    requires c < |cs| && cs[c] == p && ns[c] == n
    modifies mesh
    ensures mesh.faces == old(mesh.faces)
    ensures index == |prior| + IndexOf(ds, p)
    ensures WeldState(mesh.vertices, prior, positionIndex', cs, ns, c + 1, ds, add)
  {
    if p !in positionIndex {
      WeldNew(mesh.vertices, prior, positionIndex, cs, ns, c, ds, add);
      index := |mesh.vertices|;
      positionIndex' := positionIndex[p := index];
      mesh.vertices := mesh.vertices + [Vertex(p, n)];
    } else {
      WeldReuse(mesh.vertices, prior, positionIndex, cs, ns, c, ds, add);
      index := positionIndex[p];
      positionIndex' := positionIndex;
      var v := mesh.vertices[index];
      mesh.vertices := mesh.vertices[index := Vertex(v.position, add(v.normal, n))];
    }
  }

  /** The last loop of `transform`: every normal of the mesh is normalised. */
  method NormalizeNormals(mesh: Model, normalize: Vec3 -> Vec3)
    modifies mesh
    ensures mesh.vertices == Normalized(old(mesh.vertices), normalize)
    ensures mesh.faces == old(mesh.faces)
  {
    for k := 0 to |mesh.vertices|
      invariant |mesh.vertices| == |old(mesh.vertices)|
      invariant forall m :: 0 <= m < k ==>
        mesh.vertices[m] == Vertex(old(mesh.vertices)[m].position, normalize(old(mesh.vertices)[m].normal))
      invariant forall m :: k <= m < |mesh.vertices| ==> mesh.vertices[m] == old(mesh.vertices)[m]
      invariant mesh.faces == old(mesh.faces)
    {
      var v := mesh.vertices[k];
      mesh.vertices := mesh.vertices[k := Vertex(v.position, normalize(v.normal))];
    }
  }

  /** One pass of the triangle loop of `transform`: welds the three corners
      of triangle i in winding order and appends their face to the mesh. */
  method WeldTriangle(mesh: Model, positionIndex: map<Vec3, nat>, ts: seq<Triangle>, i: nat,
                      ops: NormalOps, ghost prior: seq<Vertex>, ghost cs: seq<Vec3>,
                      ghost ns: seq<Vec3>, ghost ds: seq<Vec3>, ghost c0: nat)
    returns (positionIndex': map<Vec3, nat>)
    requires i < |ts| && cs == Corners(ts) && ns == CornerNormals(ts, ops) && ds == FirstAppearance(cs)
    requires c0 == 3 * i
    requires WeldState(mesh.vertices, prior, positionIndex, cs, ns, c0, ds, ops.add)
    modifies mesh
    ensures mesh.faces == old(mesh.faces) + [WeldFace(ts[i], ds, |prior|)]
    ensures WeldState(mesh.vertices, prior, positionIndex', cs, ns, c0 + 3, ds, ops.add)
  {
    var t := ts[i];
    var face: seq<nat> := [0, 0, 0];
    positionIndex' := positionIndex;
    ghost var c := c0;
    ghost var w := WeldFace(t, ds, |prior|);
    for j := 0 to 3
      invariant |face| == 3 && c == c0 + j
      invariant WeldState(mesh.vertices, prior, positionIndex', cs, ns, c, ds, ops.add)
      invariant face[..j] == w[..j]
      invariant mesh.faces == old(mesh.faces)
    {
      CornerOf(ts, ops, i, j, cs, ns, c);
      var index;
      index, positionIndex' := WeldCorner(mesh, positionIndex', t.Vertex(j), CornerNormal(t, ops, j),
                                          ops.add, prior, cs, ns, c, ds);
      WeldFaceAt(t, ds, |prior|, j);
      FaceStep(face, w, j, index);
      face := face[j := index];
      c := c + 1;
    }
    assert face == face[..3] && w == w[..3];
    mesh.faces := mesh.faces + [face];
  }

  /** `transform`: welds the corners of every triangle into the mesh, one
      vertex per distinct position, and appends one face per triangle. */
  method Transform(stl: StlBinaryFormat, mesh: Model, ops: NormalOps)
    modifies mesh
    ensures mesh.vertices == TransformedVertices(old(mesh.vertices), stl.triangles, ops)
    ensures mesh.faces == TransformedFaces(old(mesh.faces), |old(mesh.vertices)|, stl.triangles)
    ensures old(mesh.Valid()) ==> mesh.Valid()
  {
    var ts := stl.triangles;
    ghost var cs, ns := Corners(ts), CornerNormals(ts, ops);
    ghost var ds := FirstAppearance(cs);
    ghost var prior := mesh.vertices;
    TransformKeepsValid(mesh.faces, prior, ts, ops);
    var positionIndex: map<Vec3, nat> := map[];
    WeldStart(mesh.vertices, cs, ns, ops.add);
    var i := 0;
    ghost var c := 0;
    while i < |ts|
      invariant 0 <= i <= |ts| && c == 3 * i
      invariant WeldState(mesh.vertices, prior, positionIndex, cs, ns, c, ds, ops.add)
      invariant mesh.faces == old(mesh.faces) + WeldFaces(ts[..i], ds, |prior|)
    {
      positionIndex := WeldTriangle(mesh, positionIndex, ts, i, ops, prior, cs, ns, ds, c);
      WeldFacesSnoc(old(mesh.faces), ts, i, ds, |prior|);
      i := i + 1;
      c := c + 3;
    }
    assert ts[..i] == ts;
    WeldDone(mesh.vertices, prior, positionIndex, cs, ns, ds, ops.add);
    NormalizeNormals(mesh, ops.normalize);
    assert mesh.Valid() == FacesInRange(mesh.faces, |mesh.vertices|);
  }
}
