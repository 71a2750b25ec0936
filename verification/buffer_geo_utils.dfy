/**
 Addressing of a triangle mesh stored as flat attribute streams (the
 `BufferGeoUtils` class of index.js).

 A buffer geometry holds a position stream of 3 components per vertex and,
 optionally, normal and uv streams and an index stream whose entries name
 vertices, three per face. Coordinates are an opaque type `C`: only their
 offsets in the stream matter here.

 The library divides with JavaScript's `/`, which is real division, so the
 face and vertex counts are `real`s: a position stream of 12 components holds
 4/3 non-indexed faces. Reading a typed array past its end yields `undefined`,
 modelled as `None`.
 */
module BufferGeoUtils {
  import opened Wrappers

  /** The errors the accessors throw, one per distinct message. */
  datatype GeoError = NotBufferGeometry | NoNormal | NoUV | NoIndex | IndexOutOfRange
  {
    /** The message of the `Error` the library throws. */
    function Message(): string {
      match this
      case NotBufferGeometry => "Not a buffer geometry"
      case NoNormal => "No normal attribute found"
      case NoUV => "No uv attribute found"
      case NoIndex => "No index attribute found"
      case IndexOutOfRange => "Index out of range"
    }
  }

  /** The five errors are told apart by their messages alone. */
  lemma ErrorMessagesDistinct(e1: GeoError, e2: GeoError)
    ensures e1.Message() == e2.Message() <==> e1 == e2
  {
  }

  /** Attribute streams of a geometry; the position stream is always present. */
  datatype BufferGeometry<C> = BufferGeometry(
    position: seq<C>,
    normal: Option<seq<C>>,
    uv: Option<seq<C>>,
    index: Option<seq<nat>>)

  /** Any value handed to an accessor: a buffer geometry or something else. */
  datatype Input<C> = NotBuffer | Buffer(geometry: BufferGeometry<C>)

  /** A vertex index produced by face addressing; `None` is JavaScript's
      `undefined`, read past the end of the index stream. */
  type VertexRef = Option<nat>

  /** A point built from three stream entries; a component is `None` when
      nothing is stored at its offset (the point then holds the vector's
      default coordinate instead). */
  datatype Point<C> = Point(x: Option<C>, y: Option<C>, z: Option<C>)

  /** A typed-array read: `undefined` past the end. */
  function Read<X>(s: seq<X>, k: nat): Option<X> {
    if k < |s| then Some(s[k]) else None
  }

  /** The vertex count of a position stream of the given length, with its
      fractional part when the length is not a multiple of 3. */
  function VertexCount(positionLength: nat): real {
    positionLength as real / 3.0
  }

  /** All three components of vertex `v` lie inside a position stream of
      length `n`. */
  predicate FullyStored(n: nat, v: nat) {
    3 * v + 3 <= n
  }

  predicate IsBufferGeometry<C>(g: Input<C>) {
    g.Buffer?
  }

  // ---------------------------------------------------------------------
  // Stream accessors

  function GetPositionArray<C>(g: Input<C>): (r: Result<seq<C>, GeoError>)
    ensures r.Success? <==> IsBufferGeometry(g)
    ensures r.Failure? ==> r.error == NotBufferGeometry
    ensures r.Success? ==> r.value == g.geometry.position
  {
    if !IsBufferGeometry(g) then Failure(NotBufferGeometry)
    else Success(g.geometry.position)
  }

  function GetNormalArray<C>(g: Input<C>): (r: Result<seq<C>, GeoError>)
    ensures !IsBufferGeometry(g) ==> r == Failure(NotBufferGeometry)
    ensures IsBufferGeometry(g) ==> (r.Success? <==> g.geometry.normal.Some?)
    ensures IsBufferGeometry(g) && r.Failure? ==> r.error == NoNormal
    ensures r.Success? ==> g.geometry.normal == Some(r.value)
  {
    if !IsBufferGeometry(g) then Failure(NotBufferGeometry)
    else match g.geometry.normal
      case None => Failure(NoNormal)
      case Some(normal) => Success(normal)
  }

  function GetUVArray<C>(g: Input<C>): (r: Result<seq<C>, GeoError>)
    ensures !IsBufferGeometry(g) ==> r == Failure(NotBufferGeometry)
    ensures IsBufferGeometry(g) ==> (r.Success? <==> g.geometry.uv.Some?)
    ensures IsBufferGeometry(g) && r.Failure? ==> r.error == NoUV
    ensures r.Success? ==> g.geometry.uv == Some(r.value)
  {
    if !IsBufferGeometry(g) then Failure(NotBufferGeometry)
    else match g.geometry.uv
      case None => Failure(NoUV)
      case Some(uv) => Success(uv)
  }

  function GetIndicesArray<C>(g: Input<C>): (r: Result<seq<nat>, GeoError>)
    ensures !IsBufferGeometry(g) ==> r == Failure(NotBufferGeometry)
    ensures IsBufferGeometry(g) ==> (r.Success? <==> g.geometry.index.Some?)
    ensures IsBufferGeometry(g) && r.Failure? ==> r.error == NoIndex
    ensures r.Success? ==> g.geometry.index == Some(r.value)
  {
    if !IsBufferGeometry(g) then Failure(NotBufferGeometry)
    else match g.geometry.index
      case None => Failure(NoIndex)
      case Some(index) => Success(index)
  }

  /** Nothing is lost by the accessors: the geometry is rebuilt from what
      they return, with a missing-attribute error read as an absent stream. */
  lemma AccessorsReconstructGeometry<C>(g: Input<C>)
    requires IsBufferGeometry(g)
    ensures Buffer(BufferGeometry(
              GetPositionArray(g).value,
              GetNormalArray(g).ToOption(),
              GetUVArray(g).ToOption(),
              GetIndicesArray(g).ToOption())) == g
  {
  }

  // ---------------------------------------------------------------------
  // Counts

  function GetNumberOfFaces<C>(g: Input<C>): (r: Result<real, GeoError>)
    ensures r.Success? <==> IsBufferGeometry(g)
    ensures r.Failure? ==> r.error == NotBufferGeometry
    ensures r.Success? && g.geometry.index.Some? ==>
              3.0 * r.value == |g.geometry.index.value| as real
    ensures r.Success? && g.geometry.index.None? ==>
              9.0 * r.value == |g.geometry.position| as real
  {
    if !IsBufferGeometry(g) then Failure(NotBufferGeometry)
    else match g.geometry.index
      case None =>
        var position := GetPositionArray(g).value;
        Success(|position| as real / 9.0)
      case Some(index) => Success(|index| as real / 3.0)
  }

  function GetNumberOfVertices<C>(g: Input<C>): (r: Result<real, GeoError>)
    ensures r.Success? <==> IsBufferGeometry(g)
    ensures r.Failure? ==> r.error == NotBufferGeometry
    ensures r.Success? ==> 3.0 * r.value == |g.geometry.position| as real
  {
    if !IsBufferGeometry(g) then Failure(NotBufferGeometry)
    else
      var position := GetPositionArray(g).value;
      Success(VertexCount(|position|))
  }

  /** The face count of indexed geometry depends on the index stream's
      length alone, not on the position stream or the index entries. */
  lemma IndexedFaceCountIgnoresPosition<C>(g1: Input<C>, g2: Input<C>)
    requires IsBufferGeometry(g1) && IsBufferGeometry(g2)
    requires g1.geometry.index.Some? && g2.geometry.index.Some?
    requires |g1.geometry.index.value| == |g2.geometry.index.value|
    ensures GetNumberOfFaces(g1) == GetNumberOfFaces(g2)
  {
  }

  /** Well-formed non-indexed geometry of `k` faces has `3k` vertices. */
  lemma NonIndexedCounts<C>(g: Input<C>, k: nat)
    requires IsBufferGeometry(g) && g.geometry.index.None?
    requires |g.geometry.position| == 9 * k
    ensures GetNumberOfFaces(g) == Success(k as real)
    ensures GetNumberOfVertices(g) == Success((3 * k) as real)
  {
  }

  // ---------------------------------------------------------------------
  // Points

  function GetPoint<C>(g: Input<C>, index: int): (r: Result<Point<C>, GeoError>)
    ensures !IsBufferGeometry(g) ==> r == Failure(NotBufferGeometry)
    ensures IsBufferGeometry(g) ==>
              (r.Success? <==> 0 <= index && 3 * index < |g.geometry.position|)
    ensures IsBufferGeometry(g) && r.Failure? ==> r.error == IndexOutOfRange
    ensures r.Success? ==> r.value.x == Some(g.geometry.position[3 * index])
    ensures r.Success? ==>
              && (r.value.y.Some? <==> 3 * index + 1 < |g.geometry.position|)
              && (r.value.z.Some? <==> FullyStored(|g.geometry.position|, index))
    ensures r.Success? && 3 * index + 1 < |g.geometry.position| ==>
              r.value.y == Some(g.geometry.position[3 * index + 1])
    ensures r.Success? && FullyStored(|g.geometry.position|, index) ==>
              r.value == Point(Some(g.geometry.position[3 * index]),
                               Some(g.geometry.position[3 * index + 1]),
                               Some(g.geometry.position[3 * index + 2]))
  {
    if !IsBufferGeometry(g) then Failure(NotBufferGeometry)
    else
      var position := g.geometry.position;
      if index as real >= VertexCount(|position|) || index < 0 then Failure(IndexOutOfRange)
      else Success(Point(Read(position, 3 * index),
                         Read(position, 3 * index + 1),
                         Read(position, 3 * index + 2)))
  }

  /** `getPoint` applied to a vertex reference that may be `undefined`. An
      undefined index passes the range check (every comparison with NaN is
      false) and reads nothing. */
  function GetPointAt<C>(g: Input<C>, ref: VertexRef): (r: Result<Point<C>, GeoError>)
    ensures ref.Some? ==> r == GetPoint(g, ref.value)
    ensures ref.None? && !IsBufferGeometry(g) ==> r == Failure(NotBufferGeometry)
    ensures ref.None? && IsBufferGeometry(g) ==> r == Success(Point(None, None, None))
  {
    match ref
    case Some(v) => GetPoint(g, v)
    case None =>
      if !IsBufferGeometry(g) then Failure(NotBufferGeometry)
      else Success(Point(None, None, None))
  }

  /** The component of `p` at offset `k` within its vertex. */
  function Component<C>(p: Point<C>, k: nat): Option<C>
    requires k < 3
  {
    if k == 0 then p.x else if k == 1 then p.y else p.z
  }

  /** The range check of `getPoint` admits exactly the vertices below the
      vertex count: -1 and the count itself are rejected. */
  lemma GetPointBoundaries<C>(g: Input<C>)
    requires IsBufferGeometry(g)
    requires |g.geometry.position| % 3 == 0
    ensures GetPoint(g, -1) == Failure(IndexOutOfRange)
    ensures GetPoint(g, |g.geometry.position| / 3) == Failure(IndexOutOfRange)
    ensures |g.geometry.position| > 0 ==> GetPoint(g, |g.geometry.position| / 3 - 1).Success?
    ensures forall i :: GetPoint(g, i).Success? <==>
              0 <= i && i as real < GetNumberOfVertices(g).value
  {
  }

  /** The points tile the position stream: entry `k` is component `k % 3`
      of point `k / 3`, for every entry of the stream. */
  lemma {:induction false} PointsTilePositionStream<C>(g: Input<C>)
    requires IsBufferGeometry(g)
    ensures forall k :: 0 <= k < |g.geometry.position| ==>
              GetPoint(g, k / 3).Success? &&
              Component(GetPoint(g, k / 3).value, k % 3) == Some(g.geometry.position[k])
  {
    var position := g.geometry.position;
    forall k | 0 <= k < |position|
      ensures GetPoint(g, k / 3).Success?
      ensures Component(GetPoint(g, k / 3).value, k % 3) == Some(position[k])
    {
      var v := k / 3;
      assert 3 * v + k % 3 == k;
    }
  }

  // ---------------------------------------------------------------------
  // Faces

  /** The face index lies in `[0, numberOfFaces)`. */
  predicate InFaceRange<C>(g: Input<C>, faceIndex: int) {
    IsBufferGeometry(g) && 0 <= faceIndex && faceIndex as real < GetNumberOfFaces(g).value
  }

  function GetFacePointIndices<C>(g: Input<C>, faceIndex: int): (r: Result<seq<VertexRef>, GeoError>)
    ensures !IsBufferGeometry(g) ==> r == Failure(NotBufferGeometry)
    ensures IsBufferGeometry(g) ==>
              (r.Success? <==>
                 && 0 <= faceIndex
                 && if g.geometry.index.Some?
                    then 3 * faceIndex < |g.geometry.index.value|
                    else 9 * faceIndex < |g.geometry.position|)
    ensures IsBufferGeometry(g) && r.Failure? ==> r.error == IndexOutOfRange
    ensures r.Success? ==> |r.value| == 3
    ensures r.Success? && g.geometry.index.None? ==>
              r.value == [Some(3 * faceIndex), Some(3 * faceIndex + 1), Some(3 * faceIndex + 2)]
    ensures r.Success? && g.geometry.index.Some? ==>
              forall k :: 0 <= k < 3 ==>
                (r.value[k].Some? <==> 3 * faceIndex + k < |g.geometry.index.value|) &&
                (r.value[k].Some? ==> r.value[k].value == g.geometry.index.value[3 * faceIndex + k])
  {
    if !IsBufferGeometry(g) then Failure(NotBufferGeometry)
    else
      var faces := GetNumberOfFaces(g).value;
      if faceIndex as real >= faces || faceIndex < 0 then Failure(IndexOutOfRange)
      else match g.geometry.index
        case None =>
          Success([Some(3 * faceIndex), Some(3 * faceIndex + 1), Some(3 * faceIndex + 2)])
        case Some(index) =>
          Success([Read(index, 3 * faceIndex), Read(index, 3 * faceIndex + 1), Read(index, 3 * faceIndex + 2)])
  }

  /** The face range check agrees with the face count, on both addressing
      paths. */
  lemma FaceRangeMatchesFaceCount<C>(g: Input<C>, faceIndex: int)
    ensures GetFacePointIndices(g, faceIndex).Success? <==> InFaceRange(g, faceIndex)
  {
  }

  /** The range check reads only the length of the index stream, never its
      entries: two index streams of equal length accept the same faces. */
  lemma RangeCheckPrecedesLookup<C>(g1: Input<C>, g2: Input<C>, faceIndex: int)
    requires IsBufferGeometry(g1) && IsBufferGeometry(g2)
    requires g1.geometry.index.Some? && g2.geometry.index.Some?
    requires |g1.geometry.index.value| == |g2.geometry.index.value|
    ensures GetFacePointIndices(g1, faceIndex).Success? <==> GetFacePointIndices(g2, faceIndex).Success?
  {
  }

  /** Non-indexed faces tile the vertices of a well-formed geometry: vertex
      `v` is corner `v % 3` of face `v / 3`. */
  lemma {:induction false} NonIndexedFacesCoverVertices<C>(g: Input<C>)
    requires IsBufferGeometry(g) && g.geometry.index.None?
    requires |g.geometry.position| % 9 == 0
    ensures forall v :: 0 <= v && v as real < GetNumberOfVertices(g).value ==>
              GetFacePointIndices(g, v / 3).Success? &&
              GetFacePointIndices(g, v / 3).value[v % 3] == Some(v)
  {
    var n := |g.geometry.position|;
    forall v | 0 <= v && v as real < GetNumberOfVertices(g).value
      ensures GetFacePointIndices(g, v / 3).Success?
      ensures GetFacePointIndices(g, v / 3).value[v % 3] == Some(v)
    {
      var f := v / 3;
      assert 3 * f + v % 3 == v;
      assert 3 * v < n;
      assert 9 * f < n;
    }
  }

  /** A vertex reference names a vertex all three of whose components are
      stored. */
  predicate Resolves<C>(g: Input<C>, ref: VertexRef) {
    && ref.Some?
    && var p := GetPoint(g, ref.value);
    && p.Success? && p.value.x.Some? && p.value.y.Some? && p.value.z.Some?
  }

  /** Every corner of the face resolves to a fully stored vertex. */
  predicate FaceResolves<C>(g: Input<C>, faceIndex: int) {
    && GetFacePointIndices(g, faceIndex).Success?
    && forall k :: 0 <= k < 3 ==> Resolves(g, GetFacePointIndices(g, faceIndex).value[k])
  }

  lemma ResolvesIffFullyStored<C>(g: Input<C>, v: nat)
    requires IsBufferGeometry(g)
    ensures Resolves(g, Some(v)) <==> FullyStored(|g.geometry.position|, v)
  {
  }

  /** Non-indexed addressing agrees with the face count exactly when the
      position stream holds whole faces: every face that passes the range
      check resolves to fully stored vertices if and only if the stream's
      length is a multiple of 9. */
  lemma {:induction false} NonIndexedFacesResolveIff<C>(g: Input<C>)
    requires IsBufferGeometry(g) && g.geometry.index.None?
    ensures (forall f :: InFaceRange(g, f) ==> FaceResolves(g, f))
            <==> |g.geometry.position| % 9 == 0
  {
    var n := |g.geometry.position|;
    if n % 9 == 0 {
      forall f | InFaceRange(g, f)
        ensures FaceResolves(g, f)
      {
        FaceRangeMatchesFaceCount(g, f);
        assert 9 * f < n;
        assert 9 * f + 9 <= n;
        var ids := GetFacePointIndices(g, f).value;
        forall k | 0 <= k < 3
          ensures Resolves(g, ids[k])
        {
          ResolvesIffFullyStored(g, 3 * f + k);
        }
      }
    } else {
      var f := n / 9;
      assert 9 * f < n;
      FaceRangeMatchesFaceCount(g, f);
      var ids := GetFacePointIndices(g, f).value;
      assert ids[2] == Some(3 * f + 2);
      ResolvesIffFullyStored(g, 3 * f + 2);
      assert !Resolves(g, ids[2]);
      assert InFaceRange(g, f) && !FaceResolves(g, f);
    }
  }

  /** An index stream is well formed for a position stream of length `n`
      when it holds whole faces and every entry names a fully stored vertex. */
  predicate ValidIndexStream(index: seq<nat>, n: nat) {
    && |index| % 3 == 0
    && forall j :: 0 <= j < |index| ==> FullyStored(n, index[j])
  }

  /** Indexed addressing agrees with the face count exactly when the index
      stream is well formed. */
  lemma {:induction false} IndexedFacesResolveIff<C>(g: Input<C>)
    requires IsBufferGeometry(g) && g.geometry.index.Some?
    ensures (forall f :: InFaceRange(g, f) ==> FaceResolves(g, f))
            <==> ValidIndexStream(g.geometry.index.value, |g.geometry.position|)
  {
    var n := |g.geometry.position|;
    var index := g.geometry.index.value;
    if ValidIndexStream(index, n) {
      forall f | InFaceRange(g, f)
        ensures FaceResolves(g, f)
      {
        FaceRangeMatchesFaceCount(g, f);
        assert 3 * f + 3 <= |index|;
        var ids := GetFacePointIndices(g, f).value;
        forall k | 0 <= k < 3
          ensures Resolves(g, ids[k])
        {
          ResolvesIffFullyStored(g, index[3 * f + k]);
        }
      }
    } else if |index| % 3 != 0 {
      var f := |index| / 3;
      FaceRangeMatchesFaceCount(g, f);
      var ids := GetFacePointIndices(g, f).value;
      assert ids[2].None?;
      assert InFaceRange(g, f) && !FaceResolves(g, f);
    } else {
      var j :| 0 <= j < |index| && !FullyStored(n, index[j]);
      var f := j / 3;
      assert 3 * f + j % 3 == j;
      FaceRangeMatchesFaceCount(g, f);
      var ids := GetFacePointIndices(g, f).value;
      assert ids[j % 3] == Some(index[j]);
      ResolvesIffFullyStored(g, index[j]);
      assert InFaceRange(g, f) && !FaceResolves(g, f);
    }
  }

  /** `getFacePoints`: resolves the face's vertex indices, then fetches each
      point in storage order, failing at the first index out of range. */
  method GetFacePoints<C>(g: Input<C>, faceIndex: int) returns (r: Result<seq<Point<C>>, GeoError>)
    ensures !IsBufferGeometry(g) ==> r == Failure(NotBufferGeometry)
    ensures GetFacePointIndices(g, faceIndex).Failure? ==>
              r == Failure(GetFacePointIndices(g, faceIndex).error)
    ensures GetFacePointIndices(g, faceIndex).Success? ==>
              var ids := GetFacePointIndices(g, faceIndex).value;
              && (r.Success? <==> forall k :: 0 <= k < 3 ==> GetPointAt(g, ids[k]).Success?)
              && (r.Failure? ==> r.error == IndexOutOfRange)
    ensures r.Success? ==>
              && |r.value| == 3
              && forall k :: 0 <= k < 3 ==>
                   GetPointAt(g, GetFacePointIndices(g, faceIndex).value[k]) == Success(r.value[k])
  {
    if !IsBufferGeometry(g) {
      return Failure(NotBufferGeometry);
    }
    var ids :- GetFacePointIndices(g, faceIndex);
    var points: seq<Point<C>> := [];
    var i := 0;
    while i < |ids|
      invariant 0 <= i <= |ids|
      invariant |points| == i
      invariant forall j :: 0 <= j < i ==> GetPointAt(g, ids[j]) == Success(points[j])
    {
      var p :- GetPointAt(g, ids[i]);
      points := points + [p];
      i := i + 1;
    }
    return Success(points);
  }

  /** Every face point reproduces the position stream at its vertex index,
      on both addressing paths. */
  lemma FacePointsMatchPositionStream<C>(g: Input<C>, faceIndex: int, k: nat)
    requires FaceResolves(g, faceIndex)
    requires k < 3
    ensures var v := GetFacePointIndices(g, faceIndex).value[k].value;
            GetPointAt(g, Some(v)).value ==
              Point(Some(g.geometry.position[3 * v]),
                    Some(g.geometry.position[3 * v + 1]),
                    Some(g.geometry.position[3 * v + 2]))
  {
    var v := GetFacePointIndices(g, faceIndex).value[k].value;
    assert Resolves(g, Some(v));
  }

  // ---------------------------------------------------------------------
  // Behaviour on streams that do not hold whole faces

  /** A non-indexed position stream of 12 entries counts 4/3 faces; face 1
      passes the range check but its second vertex is out of range. */
  lemma FractionalFaceCountExample()
    ensures var g: Input<int> := Buffer(BufferGeometry(seq(12, i => i), None, None, None));
            && GetNumberOfFaces(g) == Success(4.0 / 3.0)
            && GetFacePointIndices(g, 1) == Success([Some(3), Some(4), Some(5)])
            && GetPoint(g, 3).Success?
            && GetPoint(g, 4) == Failure(IndexOutOfRange)
  {
  }

  /** A non-indexed position stream of 16 entries counts 16/9 faces; face 1
      passes the range check and every one of its vertices passes `getPoint`'s
      range check, yet vertex 5 has only its first component stored, so
      `getFacePoints` returns a point whose other two components are missing
      instead of failing. */
  lemma PartialLastVertexExample()
    ensures var g: Input<int> := Buffer(BufferGeometry(seq(16, i => i), None, None, None));
            && GetNumberOfFaces(g) == Success(16.0 / 9.0)
            && GetFacePointIndices(g, 1) == Success([Some(3), Some(4), Some(5)])
            && GetPoint(g, 3).Success?
            && GetPoint(g, 4).Success?
            && GetPoint(g, 5) == Success(Point(Some(15), None, None))
  {
  }

  /** An index stream of 4 entries counts 4/3 faces; face 1 reads two
      `undefined` indices, and `getPoint` accepts them without reading
      anything. */
  lemma ShortIndexStreamExample()
    ensures var g: Input<int> := Buffer(BufferGeometry(seq(9, i => i), None, None, Some([0, 1, 2, 0])));
            && GetFacePointIndices(g, 1) == Success([Some(0), None, None])
            && GetPointAt(g, None) == Success(Point(None, None, None))
  {
  }
}
