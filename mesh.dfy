/** The mesh data of `libviewer/model.hpp`: vertices with a position and a
    normal, and triangular faces as three vertex indices. */
module Mesh {

  type U32 = n: int | 0 <= n < 0x1_0000_0000

  /** A `vec3` as the loader sees it: the IEEE-754 single-precision bit
      patterns of its three coordinates. Positions are only ever compared for
      equality, and normals only passed to arithmetic the model leaves
      uninterpreted. */
  datatype Vec3 = Vec3(x: U32, y: U32, z: U32)

  /** `model::vertex` */
  datatype Vertex = Vertex(position: Vec3, normal: Vec3)

  /** `model::face`, an `array<uint32_t, 3>`: vertex indices in winding order. */
  type Face = f: seq<nat> | |f| == 3 witness [0, 0, 0]

  /** Every index of every face is below n. */
  predicate FacesInRange(faces: seq<Face>, n: nat) {
    forall i, j :: 0 <= i < |faces| && 0 <= j < 3 ==> faces[i][j] < n
  }

  /** `model`: the vertex and face vectors; the GL handles are not modelled. */
  class Model {
    var vertices: seq<Vertex>
    var faces: seq<Face>

    constructor ()
      ensures vertices == [] && faces == []
      ensures Valid()
    {
      vertices := [];
      faces := [];
    }

    /** Every face index names a vertex of the mesh. */
    ghost predicate Valid()
      reads this
    {
      FacesInRange(faces, |vertices|)
    }
  }
}
