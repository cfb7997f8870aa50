# Mesh loading, picking and the command-line client of libviewer, in Dafny

This project models four pieces of the libviewer mesh viewer and proves what
they compute.

- **The binary STL reader** (`stl_binary_format` in `libviewer/stl_loader.hpp`).
  It skips the 80-byte header and reads the 32-bit triangle count. It then
  reads each 48-byte triangle record and skips its 2 attribute bytes.
  - The model is a class whose constructor takes the file's bytes and runs
    the same loop. It is proved equal to a pure `Decode`.
  - `Decode` is proved to invert a writer (`Encode`), whatever the header
    and attribute bytes are.
  - A short file is read the way the C++ reads it. A record that runs past
    the end keeps zero bytes for what it could not read.
- **`transform`** (same file). It welds the triangle soup into an indexed
  mesh (`model` in `libviewer/model.hpp`).
  - Each corner position gets one vertex, on first appearance. A repeated
    position reuses that vertex and adds its corner normal.
  - Every triangle appends one face of three vertex indices.
  - At the end, every normal of the mesh is normalised.
  - The model is a `Model` class with `vertices` and `faces` fields. The
    nested loops are methods over it, proved against value-level functions
    in `WeldSpec`. The lemmas there state what the mesh then satisfies.
- **`intersect` and `voronoi_snap`** (`libviewer/intersection.hpp`).
  - `intersect` is the Möller–Trumbore ray/triangle test, over exact reals.
    When the determinant is non-zero (the ray is not parallel to the
    triangle's plane), it is proved to solve the ray/plane system. It is
    proved to report a hit exactly when the determinant is non-zero and the
    ray meets the closed triangle strictly in front of its origin. A ray
    lying in the triangle's plane never hits.
  - `voronoi_snap` is the nearest-corner choice, ties going to the lower
    index.
- **The client's message** (`client/main.cpp`). It joins `argv[1..]` with
  single spaces.

Modules:
- `Mesh`: vertex, face, and the `Model` class.
- `StlLoader`: the STL reader.
- `WeldSpec`: `transform` on values.
- `Weld`: the `transform` loops.
- `Intersection`: `intersect` and `voronoi_snap`.
- `Client`: the message.

## Model

| member | source | states |
|---|---|---|
| Mesh.Model.constructor | libviewer/model.hpp:65-66 | A new mesh has no vertices and no faces, so every face index names a vertex. |
| StlLoader.DecodeLayout | libviewer/stl_loader.hpp:13-44 | In a complete file, there are as many triangles as the 32-bit count at byte 80. Triangle i is read from byte 84 + 50·i: the normal at offset 0, then corner j at offset 12 + 12·j. |
| StlLoader.StlBinaryFormat.constructor | libviewer/stl_loader.hpp:25 | A default-constructed reader holds no triangles. |
| StlLoader.StlBinaryFormat.FromBytes | libviewer/stl_loader.hpp:27-49 | The loop that resizes and then reads each record leaves exactly `Decode(bytes)` in `triangles`. |
| StlLoader.DecodeIgnoresHeaderAndAttributes | libviewer/stl_loader.hpp:31-47 | Two files that agree on the count and on every record's 48 data bytes decode alike. The header and the attribute byte counts are never looked at. |
| StlLoader.DecodePastEnd | libviewer/stl_loader.hpp:42-44 | In a short file, a record that lies wholly past the end stays the zero triangle that `resize` created. |
| StlLoader.DecodePadded | libviewer/stl_loader.hpp:42-48 | Reading a short file gives the same triangles as reading it padded with zero bytes. |
| StlLoader.DecodeEncode | libviewer/stl_loader.hpp:27-49 | Reading a written file returns exactly the triangles written, for any header and any attribute bytes. |
| WeldSpec.CornersAt | libviewer/stl_loader.hpp:63-73 | Corner 3·i + j of the flattened soup is vertex j of triangle i. Its normal is computed from that corner and corners (j+1) mod 3 and (j+2) mod 3. |
| WeldSpec.IndexOf | libviewer/stl_loader.hpp:75-87 | The value the position index holds for p is the first occurrence of p. It is below the length exactly when p occurs, and p does not occur before it. |
| WeldSpec.FirstAppearanceMembers | libviewer/stl_loader.hpp:75-83 | A position gets a vertex if and only if some corner has that position. |
| WeldSpec.FirstAppearanceDistinct | libviewer/stl_loader.hpp:75-83 | The positions that get new vertices are pairwise distinct. |
| WeldSpec.FirstAppearanceOrder | libviewer/stl_loader.hpp:76-82 | New vertices come in the order in which their positions first occur. |
| WeldSpec.FirstAppearanceBound | libviewer/stl_loader.hpp:63-83 | There are no more new vertices than corners. |
| WeldSpec.OccurrencesCount | libviewer/stl_loader.hpp:86-90 | A vertex gathers one corner normal per corner at its position. |
| WeldSpec.WeldedNormal | libviewer/stl_loader.hpp:73-90 | Before normalisation, a welded vertex's normal is the first corner normal at its position, with the later ones added with `+=` in input order. There are as many as the position occurs. |
| WeldSpec.WeldNew | libviewer/stl_loader.hpp:76-83 | Appending a vertex for a position not in the index keeps the loop invariant, and the vertex's index is the next free one. |
| WeldSpec.WeldReuse | libviewer/stl_loader.hpp:86-90 | A known position maps to the vertex at that position. Adding the corner's normal to it keeps the loop invariant. |
| WeldSpec.WeldDone | libviewer/stl_loader.hpp:63-94 | After the last corner, the vertices are the prior ones followed by the welded vertices. |
| WeldSpec.TransformVertexCount | libviewer/stl_loader.hpp:76-82 | `transform` adds one vertex per distinct corner position. |
| WeldSpec.TransformOldVertex | libviewer/stl_loader.hpp:96-98 | A vertex already in the mesh keeps its position and gets its normal normalised. |
| WeldSpec.TransformNewVertex | libviewer/stl_loader.hpp:76-82 | New vertex k has the k-th distinct corner position in order of first appearance. |
| WeldSpec.TransformOldFace | libviewer/stl_loader.hpp:93 | Faces already in the mesh stay in place, unchanged, and one face is appended per triangle. |
| WeldSpec.TransformNewFace | libviewer/stl_loader.hpp:75-93 | Corner j of triangle i's face is the number of old vertices plus the first-appearance index of that corner's position. |
| WeldSpec.TransformFaceNew | libviewer/stl_loader.hpp:77-87 | Every index in a new face names a vertex the call added. Old vertices are never reused. |
| WeldSpec.TransformFacePosition | libviewer/stl_loader.hpp:67-93 | The vertex that corner j of a new face names sits at corner j of its triangle, so winding order is kept. |
| WeldSpec.TransformSharesIff | libviewer/stl_loader.hpp:75-87 | Two corners get the same vertex index if and only if they have the same position. |
| WeldSpec.WeldFacesInRange | libviewer/stl_loader.hpp:75-93 | The faces welded from the triangles index only the vertices welded from them. |
| WeldSpec.TransformKeepsValid | libviewer/stl_loader.hpp:54-99 | If every face index was below the vertex count before the call, the same holds after it. |
| WeldSpec.TransformBound | libviewer/stl_loader.hpp:63-83 | The call adds at most three vertices per triangle. |
| Weld.WeldCorner | libviewer/stl_loader.hpp:75-90 | One pass of the corner loop. A new position appends a vertex carrying the corner normal; a known one adds the normal to its vertex. Either way it returns the vertex index and keeps the loop invariant. |
| Weld.WeldTriangle | libviewer/stl_loader.hpp:64-93 | One pass of the triangle loop welds the three corners in winding order. It appends the face of their indices and keeps the loop invariant. |
| Weld.NormalizeNormals | libviewer/stl_loader.hpp:96-98 | Every vertex normal is replaced by its normalisation, and nothing else changes. |
| Weld.Transform | libviewer/stl_loader.hpp:54-99 | The mesh's vertices and faces become exactly `TransformedVertices` and `TransformedFaces` of the old mesh and the triangles. If every face index named a vertex before, it still does. |
| Intersection.Intersect | libviewer/intersection.hpp:21-38 | Hit if and only if the determinant is non-zero and (u, v, t) is in the closed triangle with t > 0. A zero determinant leaves non-finite values in `uvt`. |
| Intersection.IntersectSolves | libviewer/intersection.hpp:24-34 | With a non-zero determinant, the written (u, v, t) satisfies origin + t·direction = v0 + u·edge1 + v·edge2. |
| Intersection.IntersectUnique | libviewer/intersection.hpp:24-34 | With a non-zero determinant, that system has no other solution. |
| Intersection.HitIffRayMeetsTriangle | libviewer/intersection.hpp:21-38 | `intersect` reports a hit if and only if the ray is not parallel to the plane and meets the closed triangle strictly in front of its origin. |
| Intersection.VoronoiSnap | libviewer/intersection.hpp:40-45 | The returned index is below 3. Its corner is a nearest one to x, and no lower-indexed corner is as near. |
| Intersection.VoronoiSnapUnique | libviewer/intersection.hpp:40-45 | Those two properties determine the returned corner. |
| Client.ComposeMessage | client/main.cpp:9-15 | With no argument there is no message. Otherwise the message is the arguments joined by single spaces, with length equal to their total length plus argc − 2. With one argument the message is `argv[1]`. |
| Client.JoinLength | client/main.cpp:11-15 | The joined message is as long as the arguments together plus one per gap. |
| Client.JoinLayout | client/main.cpp:11-15 | Argument k sits at its offset, right after a single space unless it is the first, and the message ends with the last argument. So the arguments appear in order, one space apart, with no space added before the first argument or after the last. |
| Client.SplitJoin | client/main.cpp:11-15 | When no argument holds a space, splitting the message at its spaces gives the arguments back. |

## Left out

- Positions are compared as IEEE-754 bit patterns. The C++ map compares them with float `==` and hashes their bit patterns, so +0 and −0 and NaN coordinates behave differently there. This is not modelled.
- The corner normal formula (cross and dot products, divisions), the `+=` on normals and `normalize` are floating-point arithmetic. They are passed in as the uninterpreted functions of `NormalOps`. The order in which they are applied is modelled.
- The hash function of the position index is not modelled. Only the index's lookups and insertions matter to the result, and those are modelled by position equality.
- `reserve` only sets the index's capacity, so it is not modelled.
- Vertex indices are unbounded naturals. The narrowing through `int` and the `uint32_t` face entries would only wrap for more than 2^31 vertices.
- StlLoader.StlBinaryFormat.FromBytes requires the 84 bytes of header and count. With fewer, the C++ reads an uninitialised count.
- The reader's own failure to open a file (a `runtime_error`) is not modelled. Memory exhaustion on a huge count is not modelled either. The reader works on the file's bytes, in little-endian order.
- `intersect` and `voronoi_snap` are modelled over exact reals. Rounding, and the infinities and NaNs of `1.0f / 0` beyond "non-finite", are not modelled.
- A concrete check of `intersect` on one given ray and triangle is not stated. Evaluating the division form on literals is beyond the solver's budget here. The general lemmas cover such cases.
- The socket the client writes its message to is not modelled (`client/main.cpp:17-18`), and neither is its return code.
- `main` reading `argv[1]` when `argc` is 0 is undefined behaviour, so Client.ComposeMessage requires at least `argv[0]`.
- Rendering, shaders, windows, the camera, the Assimp loader, sockets, async console I/O and the dynamic function registry are not modelled. They are I/O or GPU work outside this model.
