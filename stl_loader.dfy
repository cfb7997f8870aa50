/** The binary STL reader (`stl_binary_format`) of
    `libviewer/stl_loader.hpp`; its `transform` is in `WeldSpec` and `Weld`. */
module StlLoader {
  import opened Mesh

  type Byte = b: int | 0 <= b < 0x100
  type U16 = n: int | 0 <= n < 0x1_0000

  // The layout of a binary STL file.
  const HeaderSize: nat := 80
  const CountSize: nat := 4
  const TriangleSize: nat := 48
  const AttributeSize: nat := 2
  const RecordSize: nat := TriangleSize + AttributeSize
  const FirstRecord: nat := HeaderSize + CountSize

  // Offsets inside one 48-byte triangle record.
  const Vec3Size: nat := 12
  const NormalOffset: nat := 0
  const VertexOffset: nat := 12

  /** `stl_binary_format::triangle`: a facet normal and three corners. */
  datatype Triangle = Triangle(normal: Vec3, v0: Vec3, v1: Vec3, v2: Vec3) {
    /** `vertex[j]` */
    function Vertex(j: nat): Vec3
      requires j < 3
    {
      if j == 0 then v0 else if j == 1 then v1 else v2
    }

    function Positions(): seq<Vec3> { [v0, v1, v2] }
  }

  /** The value a resized `vector<triangle>` holds before it is read into. */
  const ZeroTriangle := Triangle(Vec3(0, 0, 0), Vec3(0, 0, 0), Vec3(0, 0, 0), Vec3(0, 0, 0))

  /** Byte k of the file as a read into zero-initialised memory sees it:
      a read that runs past the end of the file stores what it could extract
      and leaves the rest of the destination as it was, zero. */
  function ByteAt(b: seq<Byte>, k: nat): Byte {
    if k < |b| then b[k] else 0
  }

  /** A 32-bit little-endian value at `off`. */
  function U32At(b: seq<Byte>, off: nat): U32 {
    ByteAt(b, off) + 0x100 * ByteAt(b, off + 1) + 0x1_0000 * ByteAt(b, off + 2) + 0x100_0000 * ByteAt(b, off + 3)
  }

  function Vec3At(b: seq<Byte>, off: nat): Vec3 {
    Vec3(U32At(b, off), U32At(b, off + 4), U32At(b, off + 8))
  }

  /** The triangle record whose 48 data bytes start at `off`. */
  function TriangleAt(b: seq<Byte>, off: nat): Triangle {
    Triangle(Vec3At(b, off + NormalOffset),
             Vec3At(b, off + VertexOffset),
             Vec3At(b, off + VertexOffset + Vec3Size),
             Vec3At(b, off + VertexOffset + 2 * Vec3Size))
  }

  /** The triangle count stored right after the header. */
  function Count(b: seq<Byte>): U32
    requires |b| >= FirstRecord
  {
    U32At(b, HeaderSize)
  }

  /** Where record i starts. */
  function RecordOffset(i: nat): nat {
    84 + 50 * i
  }

  /** The file holds the header, the count and every record's 48 data bytes;
      only the last record's attribute bytes may be cut off. */
  predicate WellSized(b: seq<Byte>) {
    |b| >= FirstRecord && RecordOffset(Count(b)) <= |b| + AttributeSize
  }

  /** The triangles read from a file that holds at least the header and the
      count: as many as the count says, record i read from offset 84 + 50·i. */
  function Decode(b: seq<Byte>): seq<Triangle>
    requires |b| >= FirstRecord
  {
    seq(Count(b), i requires 0 <= i < Count(b) && |b| >= FirstRecord => TriangleAt(b, RecordOffset(i)))
  }

  /** Triangle i of a file is read from the 48 bytes at 84 + 50·i: the normal
      first, then the three corners 12 bytes apart. */
  lemma DecodeLayout(b: seq<Byte>, i: nat, j: nat)
    requires WellSized(b) && i < Count(b) && j < 3
    ensures |Decode(b)| == U32At(b, 80)
    ensures RecordOffset(i) + 48 <= |b|
    ensures Decode(b)[i].normal == Vec3At(b, 84 + 50 * i)
    ensures Decode(b)[i].Vertex(j) == Vec3At(b, 84 + 50 * i + 12 + 12 * j)
  {
  }

  /** A record that lies wholly past the end of a short file is read as the
      zero triangle `resize` put there. */
  lemma DecodePastEnd(b: seq<Byte>, i: nat)
    requires |b| >= FirstRecord && i < Count(b) && RecordOffset(i) >= |b|
    ensures Decode(b)[i] == ZeroTriangle
  {
  }

  /** Reading a short file is reading it padded with zero bytes: whatever a
      record is missing reads as zero. */
  lemma DecodePadded(b: seq<Byte>, n: nat)
    requires |b| >= FirstRecord
    ensures var padded := b + seq(n, _ => 0 as Byte);
      |padded| >= FirstRecord && Decode(padded) == Decode(b)
  {
    var padded := b + seq(n, _ => 0 as Byte);
    forall k: nat
      ensures ByteAt(padded, k) == ByteAt(b, k)
    {
      if k < |b| {
        assert padded[k] == b[k];
      } else if k < |padded| {
        assert padded[k] == 0;
      }
    }
    assert Count(padded) == Count(b);
  }

  /** `stl_binary_format`: the triangles read from a binary STL file. */
  class StlBinaryFormat {
    var triangles: seq<Triangle>

    /** `stl_binary_format() = default` */
    constructor ()
      ensures triangles == []
    {
      triangles := [];
    }

    /** `stl_binary_format(file_path)` over the file's bytes: skip the header,
        read the count, resize, then read each record's 48 data bytes and skip
        its 2 attribute bytes. */
    constructor FromBytes(bytes: seq<Byte>)
      requires |bytes| >= FirstRecord
      ensures triangles == Decode(bytes)
    {
      var position := HeaderSize;
      var size := U32At(bytes, position);
      position := position + CountSize;
      var read := seq(size, _ => ZeroTriangle);
      var i := 0;
      while i < size
        invariant 0 <= i <= size && |read| == size
        invariant position == RecordOffset(i)
        invariant forall k :: 0 <= k < i ==> read[k] == TriangleAt(bytes, RecordOffset(k))
      {
        read := read[i := TriangleAt(bytes, position)];
        position := position + TriangleSize + AttributeSize;
        i := i + 1;
      }
      triangles := read;
    }
  }

  /** Two files that agree on the count and on every record's 48 data bytes
      decode to the same triangles: the header and the attribute byte counts
      do not matter. */
  lemma {:induction false} DecodeIgnoresHeaderAndAttributes(b1: seq<Byte>, b2: seq<Byte>)
    requires WellSized(b1) && |b1| == |b2|
    requires b1[HeaderSize..FirstRecord] == b2[HeaderSize..FirstRecord]
    requires forall i :: 0 <= i < Count(b1) ==>
      RecordOffset(i) + TriangleSize <= |b1| &&
      b1[RecordOffset(i)..RecordOffset(i) + TriangleSize] == b2[RecordOffset(i)..RecordOffset(i) + TriangleSize]
    ensures WellSized(b2) && Decode(b1) == Decode(b2)
  {
    U32AtSlices(b1, b2, HeaderSize);
    forall i | 0 <= i < Count(b1)
      ensures TriangleAt(b1, RecordOffset(i)) == TriangleAt(b2, RecordOffset(i))
    {
      TriangleAtSlices(b1, b2, RecordOffset(i));
    }
  }

  lemma U32AtSlices(b1: seq<Byte>, b2: seq<Byte>, off: nat)
    requires off + 4 <= |b1| && off + 4 <= |b2|
    requires b1[off..off + 4] == b2[off..off + 4]
    ensures U32At(b1, off) == U32At(b2, off)
  {
    Pointwise(b1, b2, off, 4);
  }

  lemma TriangleAtSlices(b1: seq<Byte>, b2: seq<Byte>, off: nat)
    requires off + TriangleSize <= |b1| && off + TriangleSize <= |b2|
    requires b1[off..off + TriangleSize] == b2[off..off + TriangleSize]
    ensures TriangleAt(b1, off) == TriangleAt(b2, off)
  {
    Pointwise(b1, b2, off, TriangleSize);
  }

  /** Equal slices agree at every position they cover. */
  lemma Pointwise<T>(b1: seq<T>, b2: seq<T>, off: nat, n: nat)
    requires off + n <= |b1| && off + n <= |b2|
    requires b1[off..off + n] == b2[off..off + n]
    ensures forall k :: off <= k < off + n ==> b1[k] == b2[k]
  {
    forall k | off <= k < off + n
      ensures b1[k] == b2[k]
    {
      assert b1[k] == b1[off..off + n][k - off];
      assert b2[k] == b2[off..off + n][k - off];
    }
  }

  /** A slice of a slice is a slice. */
  lemma SubSlice<T>(b: seq<T>, lo: nat, hi: nat, i: nat, j: nat)
    requires lo <= hi <= |b| && i <= j <= hi - lo
    ensures b[lo..hi][i..j] == b[lo + i..lo + j]
  {
    forall k | 0 <= k < j - i
      ensures b[lo..hi][i..j][k] == b[lo + i..lo + j][k]
    {
    }
  }

  /** A slice inside the left operand of a concatenation. */
  lemma AppendSliceLeft<T>(a: seq<T>, c: seq<T>, lo: nat, hi: nat)
    requires lo <= hi <= |a|
    ensures (a + c)[lo..hi] == a[lo..hi]
  {
    forall k | 0 <= k < hi - lo
      ensures (a + c)[lo..hi][k] == a[lo..hi][k]
    {
    }
  }

  /** A slice inside the right operand of a concatenation. */
  lemma AppendSliceRight<T>(a: seq<T>, c: seq<T>, lo: nat, hi: nat)
    requires lo <= hi <= |c|
    ensures (a + c)[|a| + lo..|a| + hi] == c[lo..hi]
  {
    forall k | 0 <= k < hi - lo
      ensures (a + c)[|a| + lo..|a| + hi][k] == c[lo..hi][k]
    {
    }
  }

  // ---------------------------------------------------------------------
  // Writing a file, to state that reading inverts it.

  /** x in four little-endian bytes. */
  function U32Bytes(x: U32): (b: seq<Byte>)
    ensures |b| == 4
  {
    var q1 := x / 0x100;
    var q2 := q1 / 0x100;
    [x % 0x100, q1 % 0x100, q2 % 0x100, q2 / 0x100]
  }

  function U16Bytes(a: U16): (b: seq<Byte>)
    ensures |b| == AttributeSize
  {
    [a % 0x100, a / 0x100]
  }

  function Vec3Bytes(v: Vec3): (b: seq<Byte>)
    ensures |b| == Vec3Size
  {
    U32Bytes(v.x) + U32Bytes(v.y) + U32Bytes(v.z)
  }

  function TriangleBytes(t: Triangle): (b: seq<Byte>)
    ensures |b| == TriangleSize
  {
    Vec3Bytes(t.normal) + Vec3Bytes(t.v0) + Vec3Bytes(t.v1) + Vec3Bytes(t.v2)
  }

  /** The records of the given triangles with the given attribute byte counts. */
  function Records(ts: seq<Triangle>, attributes: seq<U16>): seq<Byte>
    requires |ts| == |attributes|
    decreases |ts|
  {
    if ts == [] then []
    else
      var n := |ts| - 1;
      Records(ts[..n], attributes[..n]) + TriangleBytes(ts[n]) + U16Bytes(attributes[n])
  }

  /** A binary STL file with the given header, triangles and attribute byte counts. */
  function Encode(header: seq<Byte>, ts: seq<Triangle>, attributes: seq<U16>): seq<Byte>
    requires |header| == HeaderSize && |ts| == |attributes| && |ts| < 0x1_0000_0000
  {
    header + U32Bytes(|ts|) + Records(ts, attributes)
  }

  lemma U32RoundTrip(x: U32)
    ensures U32At(U32Bytes(x), 0) == x
  {
    var q1 := x / 0x100;
    var q2 := q1 / 0x100;
    assert x == x % 0x100 + 0x100 * q1;
    assert q1 == q1 % 0x100 + 0x100 * q2;
    assert q2 == q2 % 0x100 + 0x100 * (q2 / 0x100);
  }

  lemma U32AtEncoded(b: seq<Byte>, off: nat, x: U32)
    requires off + 4 <= |b| && b[off..off + 4] == U32Bytes(x)
    ensures U32At(b, off) == x
  {
    forall k | 0 <= k < 4
      ensures b[off + k] == U32Bytes(x)[k]
    {
      assert b[off + k] == b[off..off + 4][k];
    }
    U32RoundTrip(x);
  }

  lemma Vec3AtEncoded(b: seq<Byte>, off: nat, v: Vec3)
    requires off + Vec3Size <= |b| && b[off..off + Vec3Size] == Vec3Bytes(v)
    ensures Vec3At(b, off) == v
  {
    SubSlice(b, off, off + Vec3Size, 0, 4);
    SubSlice(b, off, off + Vec3Size, 4, 8);
    SubSlice(b, off, off + Vec3Size, 8, 12);
    U32AtEncoded(b, off, v.x);
    U32AtEncoded(b, off + 4, v.y);
    U32AtEncoded(b, off + 8, v.z);
  }

  lemma TriangleAtEncoded(b: seq<Byte>, off: nat, t: Triangle)
    requires off + TriangleSize <= |b| && b[off..off + TriangleSize] == TriangleBytes(t)
    ensures TriangleAt(b, off) == t
  {
    var r := b[off..off + TriangleSize];
    SubSlice(b, off, off + TriangleSize, 0, 12);
    SubSlice(b, off, off + TriangleSize, 12, 24);
    SubSlice(b, off, off + TriangleSize, 24, 36);
    SubSlice(b, off, off + TriangleSize, 36, 48);
    assert r[0..12] == Vec3Bytes(t.normal);
    assert r[12..24] == Vec3Bytes(t.v0);
    assert r[24..36] == Vec3Bytes(t.v1);
    assert r[36..48] == Vec3Bytes(t.v2);
    Vec3AtEncoded(b, off, t.normal);
    Vec3AtEncoded(b, off + 12, t.v0);
    Vec3AtEncoded(b, off + 24, t.v1);
    Vec3AtEncoded(b, off + 36, t.v2);
  }

  lemma {:induction false} RecordsLength(ts: seq<Triangle>, attributes: seq<U16>)
    requires |ts| == |attributes|
    ensures |Records(ts, attributes)| == 50 * |ts|
    decreases |ts|
  {
    if ts != [] {
      var n := |ts| - 1;
      RecordsLength(ts[..n], attributes[..n]);
    }
  }

  /** Record i of the written records sits at 50·i and holds triangle i. */
  lemma {:induction false} RecordsLayout(ts: seq<Triangle>, attributes: seq<U16>, i: nat)
    requires |ts| == |attributes| && i < |ts|
    ensures |Records(ts, attributes)| == 50 * |ts|
    ensures Records(ts, attributes)[50 * i..50 * i + 48] == TriangleBytes(ts[i])
    decreases |ts|
  {
    RecordsLength(ts, attributes);
    var n := |ts| - 1;
    var front := Records(ts[..n], attributes[..n]);
    var last := TriangleBytes(ts[n]);
    RecordsLength(ts[..n], attributes[..n]);
    assert Records(ts, attributes) == (front + last) + U16Bytes(attributes[n]);
    AppendSliceLeft(front + last, U16Bytes(attributes[n]), 50 * i, 50 * i + 48);
    if i < n {
      RecordsLayout(ts[..n], attributes[..n], i);
      AppendSliceLeft(front, last, 50 * i, 50 * i + 48);
    } else {
      AppendSliceRight(front, last, 0, 48);
    }
  }

  /** Reading a written file gives back exactly the triangles written,
      whatever the header and the attribute byte counts. */
  lemma {:induction false} DecodeEncode(header: seq<Byte>, ts: seq<Triangle>, attributes: seq<U16>)
    requires |header| == HeaderSize && |ts| == |attributes| && |ts| < 0x1_0000_0000
    ensures WellSized(Encode(header, ts, attributes))
    ensures Decode(Encode(header, ts, attributes)) == ts
  {
    var b := Encode(header, ts, attributes);
    var front := header + U32Bytes(|ts|);
    var records := Records(ts, attributes);
    assert b == front + records;
    RecordsLength(ts, attributes);
    AppendSliceLeft(front, records, 80, 84);
    AppendSliceRight(header, U32Bytes(|ts|), 0, 4);
    U32AtEncoded(b, 80, |ts|);
    assert |b| == RecordOffset(|ts|);
    forall i | 0 <= i < |ts|
      ensures TriangleAt(b, RecordOffset(i)) == ts[i]
    {
      RecordsLayout(ts, attributes, i);
      AppendSliceRight(front, records, 50 * i, 50 * i + 48);
      TriangleAtEncoded(b, RecordOffset(i), ts[i]);
    }
  }
}
