/**
 The per-sample stroke builder of `ModalDrawOperator`: `create_circle`, which
 appends one closed ring of vertices and edges, and `add_vertex`, which takes
 one pointer sample, filters it by distance, builds its ring, bridges it to the
 previous ring, and once per stroke reorients the first ring.

 The operator's fields `count`, `atleast_one`, `prev`, `prev_verts` and
 `prev_edges` are the immutable `Stroke` record; each call is the pure
 transition `AddVertex` from one (stroke, mesh) pair to the next.
 */
module Sketch3D {
  import opened Vectors
  import opened BMesh

  datatype Option<T> = None | Some(value: T)

  /** The operator's `segments` property range, 2..128. */
  type SegmentCount = s: int | 2 <= s <= 128 witness 8

  /** The operator properties `add_vertex` reads. */
  datatype Config = Config(
    radius: real,
    strength: real,
    segments: SegmentCount,
    minDistance: real,
    penPressure: bool,
    offset: bool)

  /** The bounds the property declarations put on radius, strength and min_distance. */
  predicate InRange(cfg: Config) {
    cfg.radius >= 0.0 && 0.0 <= cfg.strength <= 1.0 && cfg.minDistance >= 0.0
  }

  /**
   One call's arguments: the 3D location, the tablet pressure, whether the
   placement is SURFACE, and the surface normal the ray cast returned.
   */
  datatype Sample = Sample(loc: Vec3, pressure: real, surface: bool, normal: Vec3)

  /**
   The operator state carried between calls. `prev`, `prevVerts` and
   `prevEdges` are unset in the source until the first ring exists; here they
   hold placeholders that `Inv` shows are never read before being set.
   */
  datatype Stroke = Stroke(
    count: nat,
    atleastOne: bool,
    prev: Vec3,
    prevVerts: seq<nat>,
    prevEdges: seq<nat>)

  /** The state `invoke` starts a stroke with. */
  const Init: Stroke := Stroke(0, false, Origin, [], [])

  datatype Step = Step(stroke: Stroke, mesh: Mesh)

  /** A location paired with an optional rotation: `Translation(loc) @ q.to_matrix()`. */
  datatype Frame = Frame(origin: Vec3, rotation: Option<Quat>)

  /** The vertices and edges `create_circle` returns, with the mesh it grew. */
  datatype Circle = Circle(mesh: Mesh, verts: seq<nat>, edges: seq<nat>)

  /** A sample that passed the distance filter, at its final location and radius. */
  datatype Candidate = Candidate(loc: Vec3, radius: real)

  const Up: Vec3 := Vec3(0.0, 0.0, 1.0)
  const Down: Vec3 := Vec3(0.0, 0.0, -1.0)

  // ---------------------------------------------------------------------------
  // create_circle

  /** The angle of ring position k: `2*pi/segments*k`. */
  function Angle(segments: SegmentCount, k: nat): real {
    2.0 * Pi / (segments as real) * (k as real)
  }

  /** Ring position k before the frame is applied: `(r sin a, r cos a, 0)`. */
  function RingPoint(n: Numerics, segments: SegmentCount, radius: real, k: nat): Vec3 {
    var a := Angle(segments, k);
    Vec3(radius * n.sin(a), radius * n.cos(a), 0.0)
  }

  /** `matrix @ Vector(p)` for a translation optionally composed with a rotation. */
  function Transform(n: Numerics, frame: Frame, p: Vec3): Vec3 {
    match frame.rotation
    case None => Add(frame.origin, p)
    case Some(q) => Add(frame.origin, n.rotate(q, p))
  }

  /** The ring's vertex positions, in the order `create_circle` creates them. */
  function RingPositions(n: Numerics, segments: SegmentCount, radius: real, frame: Frame): (ps: seq<Vec3>)
    ensures |ps| == segments
    ensures forall k :: 0 <= k < segments ==> ps[k] == Transform(n, frame, RingPoint(n, segments, radius, k))
  {
    seq(segments, k requires 0 <= k < segments => Transform(n, frame, RingPoint(n, segments, radius, k)))
  }

  /** The ring's edges over vertices base..base+s-1: s-1 consecutive pairs, then (first, last). */
  function RingEdges(base: nat, segments: SegmentCount): (es: seq<Edge>)
    ensures |es| == segments
    ensures forall k :: 0 <= k < segments - 1 ==> es[k] == Edge(base + k, base + k + 1)
    ensures es[segments - 1] == Edge(base, base + segments - 1)
  {
    seq(segments - 1, k requires 0 <= k < segments - 1 => Edge(base + k, base + k + 1))
      + [Edge(base, base + segments - 1)]
  }

  /**
   Appends `segments` vertices, one per ring position, then the edges
   (v0,v1), ..., (v[s-2],v[s-1]) and the closing edge (v0, v[s-1]). Nothing
   already in the mesh changes.
   */
  function CreateCircle(n: Numerics, m: Mesh, segments: SegmentCount, radius: real, frame: Frame): (c: Circle)
    ensures c.verts == Range(|m.verts|, segments)
    ensures c.edges == Range(|m.edges|, segments)
    ensures c.mesh.verts == m.verts + RingPositions(n, segments, radius, frame)
    ensures |c.mesh.edges| == |m.edges| + segments && c.mesh.edges[..|m.edges|] == m.edges
    ensures c.mesh.bridges == m.bridges
    ensures forall k {:trigger c.edges[k]} :: 0 <= k < segments - 1 ==>
              c.mesh.edges[c.edges[k]] == Edge(c.verts[k], c.verts[k + 1])
    ensures c.mesh.edges[c.edges[segments - 1]] == Edge(c.verts[0], c.verts[segments - 1])
  {
    var ps := RingPositions(n, segments, radius, frame);
    var es := RingEdges(|m.verts|, segments);
    var vs := Range(|m.verts|, segments);
    var eis := Range(|m.edges|, segments);
    var mesh := Mesh(m.verts + ps, m.edges + es, m.bridges);
    Circle(mesh, vs, eis)
  }

  /**
   The ring `create_circle` returns is one closed cycle through fresh,
   distinct vertices: edge k joins ring vertex k to ring vertex k+1, and the
   last edge closes the cycle back to vertex 0.
   */
  lemma {:induction false} CircleIsRing(n: Numerics, m: Mesh, segments: SegmentCount, radius: real, frame: Frame)
    ensures var c := CreateCircle(n, m, segments, radius, frame);
      && IsRing(c.mesh, c.verts, c.edges, segments)
      && (forall k :: 0 <= k < segments ==> c.verts[k] >= |m.verts|)
      && (forall a, b :: 0 <= a < b < segments ==> c.verts[a] != c.verts[b])
  {
    var c := CreateCircle(n, m, segments, radius, frame);
    ChainClosedIsRing(c.mesh, c.verts, c.edges, segments);
  }

  /** With three or more segments, every vertex of the new ring has exactly two ring edges. */
  lemma {:induction false} CircleDegreeTwo(n: Numerics, m: Mesh, segments: SegmentCount, radius: real, frame: Frame, j: nat)
    requires segments >= 3 && j < segments
    ensures var c := CreateCircle(n, m, segments, radius, frame);
      IncidentEdges(c.mesh, c.edges, c.verts[j]) == {j, Pred(j, segments)} && |IncidentEdges(c.mesh, c.edges, c.verts[j])| == 2
  {
    var c := CreateCircle(n, m, segments, radius, frame);
    CircleIsRing(n, m, segments, radius, frame);
    RingDegreeTwo(c.mesh, c.verts, c.edges, segments, j);
  }

  /**
   Given the library's sin^2 + cos^2 == 1 at the ring's angles and
   length-preserving rotations, every vertex of a ring lies exactly `radius`
   (squared: radius*radius) away from the frame's origin.
   */
  lemma {:induction false} RingVertexOnCircle(n: Numerics, segments: SegmentCount, radius: real, frame: Frame, k: nat)
    requires PythagoreanAt(n, Angle(segments, k))
    requires frame.rotation.Some? ==> RotationsKeepLength(n)
    ensures LengthSq(Sub(Transform(n, frame, RingPoint(n, segments, radius, k)), frame.origin)) == radius * radius
  {
    var p := RingPoint(n, segments, radius, k);
    var a := Angle(segments, k);
    calc {
      LengthSq(p);
      (radius * n.sin(a)) * (radius * n.sin(a)) + (radius * n.cos(a)) * (radius * n.cos(a)) + 0.0 * 0.0;
      radius * radius * (n.sin(a) * n.sin(a) + n.cos(a) * n.cos(a));
      radius * radius;
    }
    match frame.rotation
    case None =>
      assert Sub(Transform(n, frame, p), frame.origin) == p;
    case Some(q) =>
      assert Sub(Transform(n, frame, p), frame.origin) == n.rotate(q, p);
  }

  // ---------------------------------------------------------------------------
  // The sample filter

  /** Pressure scales the radius only when pen pressure is enabled; otherwise it counts as 1. */
  function EffectiveRadius(cfg: Config, pressure: real): (r: real)
    ensures cfg.penPressure ==> r == cfg.radius * cfg.strength * pressure
    ensures !cfg.penPressure ==> r == cfg.radius * cfg.strength
  {
    var p := if cfg.penPressure then pressure else 1.0;
    cfg.radius * cfg.strength * p
  }

  /** With pen pressure off, any two pressures give the same radius, radius*strength. */
  lemma {:induction false} PressureIgnoredWithoutPen(cfg: Config, p: real, q: real)
    requires !cfg.penPressure
    ensures EffectiveRadius(cfg, p) == EffectiveRadius(cfg, q) == cfg.radius * cfg.strength
  {
  }

  /** Multiplying by a non-negative factor keeps the order. */
  lemma MulMono(a: real, b: real, c: real)
    requires a >= 0.0 && b <= c
    ensures a * b <= a * c
  {
    assert a * c - a * b == a * (c - b);
  }

  /** Squaring is strictly increasing on the non-negative reals. */
  lemma SquareStrict(a: real, b: real)
    requires 0.0 <= a < b
    ensures a * a < b * b
  {
    var ab := a * b;
    assert a * a <= ab by { assert ab - a * a == a * (b - a); }
    assert ab < b * b by { assert b * b - ab == b * (b - a); }
  }

  /** Squaring is increasing on the non-negative reals. */
  lemma SquareMono(a: real, b: real)
    requires 0.0 <= a <= b
    ensures a * a <= b * b
  {
    var ab := a * b;
    assert a * a <= ab by { assert ab - a * a == a * (b - a); }
    assert ab <= b * b by { assert b * b - ab == b * (b - a); }
  }

  /** A product with a factor in [0, 1] lies between 0 and the other factor. */
  lemma MulBounds(a: real, b: real)
    requires a >= 0.0 && 0.0 <= b <= 1.0
    ensures 0.0 <= a * b <= a
  {
    MulMono(a, 0.0, b);
    assert a * 0.0 == 0.0;
    MulMono(a, b, 1.0);
    assert a * 1.0 == a;
  }

  /** A non-negative value scaled by two factors in [0, 1] stays between 0 and itself. */
  lemma ProductBounds(r: real, a: real, b: real, x: real)
    requires r >= 0.0 && 0.0 <= a <= 1.0 && 0.0 <= b <= 1.0
    requires x == r * a * b
    ensures 0.0 <= x <= r
  {
    var ra := r * a;
    MulBounds(r, a);
    MulBounds(ra, b);
    assert x == ra * b;
  }

  /** With properties and pressure in range, the effective radius lies in [0, radius]. */
  lemma {:induction false} EffectiveRadiusBounds(cfg: Config, pressure: real)
    requires InRange(cfg)
    requires 0.0 <= pressure <= 1.0
    ensures 0.0 <= EffectiveRadius(cfg, pressure) <= cfg.radius
  {
    var p := if cfg.penPressure then pressure else 1.0;
    ProductBounds(cfg.radius, cfg.strength, p, EffectiveRadius(cfg, pressure));
  }

  /** The location is pushed along the normal by the radius only for a SURFACE sample with offset on. */
  function Placed(cfg: Config, s: Sample, radius: real): (r: Vec3)
    ensures s.surface && cfg.offset ==> r == Add(s.loc, Scale(radius, s.normal))
    ensures !(s.surface && cfg.offset) ==> r == s.loc
  {
    if s.surface && cfg.offset then Add(s.loc, Scale(radius, s.normal)) else s.loc
  }

  /** An offset sample on a unit normal ends up exactly `radius` off the surface point. */
  lemma {:induction false} OffsetMovesByRadius(cfg: Config, s: Sample, radius: real)
    requires s.surface && cfg.offset
    requires LengthSq(s.normal) == 1.0
    ensures LengthSq(Sub(Placed(cfg, s, radius), s.loc)) == radius * radius
  {
    assert Sub(Placed(cfg, s, radius), s.loc) == Scale(radius, s.normal);
    ScaleLengthSq(radius, s.normal);
  }

  /**
   `d.length < minDistance`, stated on squares: a length is never negative,
   so it is below a non-positive bound never and below a positive one exactly
   when its square is below the bound's square.
   */
  predicate TooClose(d: Vec3, minDistance: real) {
    minDistance > 0.0 && LengthSq(d) < minDistance * minDistance
  }

  /** For L the Euclidean length of d, `TooClose` is the source's `L < minDistance`. */
  lemma {:induction false} TooCloseIsLengthBelow(d: Vec3, len: real, minDistance: real)
    requires len >= 0.0 && len * len == LengthSq(d)
    ensures TooClose(d, minDistance) <==> len < minDistance
  {
    if minDistance > 0.0 {
      if len < minDistance {
        SquareStrict(len, minDistance);
      } else {
        SquareMono(minDistance, len);
      }
    }
  }

  /**
   Radius, optional offset, and the distance check of `add_vertex`. Only once
   a ring exists can a sample be dropped, and then exactly when its final
   location is closer than `minDistance` to `prev`.
   */
  function Filter(cfg: Config, st: Stroke, s: Sample): (r: Option<Candidate>)
    ensures r.Some? ==> r.value == Candidate(Placed(cfg, s, EffectiveRadius(cfg, s.pressure)), EffectiveRadius(cfg, s.pressure))
  {
    var radius := EffectiveRadius(cfg, s.pressure);
    var loc := Placed(cfg, s, radius);
    if st.atleastOne && TooClose(Sub(loc, st.prev), cfg.minDistance) then None
    else Some(Candidate(loc, radius))
  }

  /**
   The filter in the source's terms: with L the length of the displacement
   from `prev`, a sample is dropped if and only if a ring exists and
   L < minDistance; the first sample is never dropped.
   */
  lemma {:induction false} FilterDropsExactlyNearSamples(cfg: Config, st: Stroke, s: Sample, len: real)
    requires len >= 0.0
    requires len * len == LengthSq(Sub(Placed(cfg, s, EffectiveRadius(cfg, s.pressure)), st.prev))
    ensures Filter(cfg, st, s).None? <==> st.atleastOne && len < cfg.minDistance
    ensures !st.atleastOne ==> Filter(cfg, st, s).Some?
  {
    TooCloseIsLengthBelow(Sub(Placed(cfg, s, EffectiveRadius(cfg, s.pressure)), st.prev), len, cfg.minDistance);
  }

  // ---------------------------------------------------------------------------
  // First-ring reorientation

  /** `Translation(c) @ q.to_matrix() @ Translation(c).inverted() @ v`. */
  function RotateAbout(n: Numerics, centre: Vec3, q: Quat, v: Vec3): Vec3 {
    Add(centre, n.rotate(q, Sub(v, centre)))
  }

  /** With length-preserving rotations, rotating about a centre keeps the distance to it. */
  lemma {:induction false} RotateAboutKeepsDistance(n: Numerics, centre: Vec3, q: Quat, v: Vec3)
    requires RotationsKeepLength(n)
    ensures LengthSq(Sub(RotateAbout(n, centre, q, v), centre)) == LengthSq(Sub(v, centre))
  {
    assert Sub(RotateAbout(n, centre, q, v), centre) == n.rotate(q, Sub(v, centre));
  }

  /**
   The correction rotation: the shortest arc from (0,0,-1) to the direction
   from the un-offset new location back to the first ring's centre.
   */
  function FirstRingRotation(n: Numerics, prev: Vec3, loc: Vec3): Quat {
    n.rotationDifference(Down, Sub(prev, loc))
  }

  /** The orientation of every later ring: the shortest arc from (0,0,1) to the direction of travel. */
  function TravelRotation(n: Numerics, prev: Vec3, loc: Vec3): Quat {
    n.rotationDifference(Up, Sub(loc, prev))
  }

  /**
   Rewrites, one after another, the vertices listed in `ring` by rotating them
   about `centre`; every vertex not listed keeps its position.
   */
  function Reorient(n: Numerics, verts: seq<Vec3>, ring: seq<nat>, centre: Vec3, q: Quat): (r: seq<Vec3>)
    requires forall k :: 0 <= k < |ring| ==> ring[k] < |verts|
    requires forall a, b :: 0 <= a < b < |ring| ==> ring[a] != ring[b]
    ensures |r| == |verts|
    ensures forall i :: 0 <= i < |verts| && i in ring ==> r[i] == RotateAbout(n, centre, q, verts[i])
    ensures forall i :: 0 <= i < |verts| && i !in ring ==> r[i] == verts[i]
    decreases |ring|
  {
    if ring == [] then verts
    else
      var init := ring[..|ring| - 1];
      var v := ring[|ring| - 1];
      var rest := Reorient(n, verts, init, centre, q);
      assert v !in init;
      rest[v := RotateAbout(n, centre, q, rest[v])]
  }

  // ---------------------------------------------------------------------------
  // add_vertex

  /**
   What holds of every reachable (stroke, mesh) pair: `atleastOne` is set
   exactly from the first call on, and from then on `prevVerts`/`prevEdges`
   are the last `segments` vertices and edges of the mesh.
   */
  predicate Inv(cfg: Config, st: Stroke, m: Mesh) {
    && (st.atleastOne <==> st.count >= 1)
    && (st.atleastOne ==>
          && |m.verts| >= cfg.segments
          && |m.edges| >= cfg.segments
          && st.prevVerts == Range(|m.verts| - cfg.segments, cfg.segments)
          && st.prevEdges == Range(|m.edges| - cfg.segments, cfg.segments))
  }

  /** Any mesh the stroke starts on, with the state `invoke` sets, satisfies `Inv`. */
  lemma InitInv(cfg: Config, m: Mesh)
    ensures Inv(cfg, Init, m)
  {
  }

  /** The mesh after the correction step at the start of `add_vertex`. */
  function Corrected(n: Numerics, cfg: Config, st: Stroke, m: Mesh, s: Sample): (r: Mesh)
    requires Inv(cfg, st, m)
    ensures Inv(cfg, st, r)
    ensures |r.verts| == |m.verts| && r.edges == m.edges && r.bridges == m.bridges
    ensures st.count + 1 != 2 ==> r == m
    ensures st.count + 1 == 2 ==> forall i :: 0 <= i < |m.verts| ==>
              r.verts[i] == if i in st.prevVerts then RotateAbout(n, st.prev, FirstRingRotation(n, st.prev, s.loc), m.verts[i])
                            else m.verts[i]
  {
    if st.count + 1 == 2 then
      m.(verts := Reorient(n, m.verts, st.prevVerts, st.prev, FirstRingRotation(n, st.prev, s.loc)))
    else m
  }

  /** The frame of a kept sample's ring: bare translation for the first ring, travel-aligned after. */
  function RingFrame(n: Numerics, st: Stroke, loc: Vec3): Frame {
    Frame(loc, if st.atleastOne then Some(TravelRotation(n, st.prev, loc)) else None)
  }

  /**
   The kept-sample half of `add_vertex`: a ring around the candidate's
   location is appended, bridged to the previous ring when there is one, and
   becomes the previous ring.
   */
  function Commit(n: Numerics, cfg: Config, st: Stroke, m: Mesh, c: Candidate): (r: Step)
    requires Inv(cfg, st, m)
    ensures Inv(cfg, r.stroke, r.mesh)
    ensures r.stroke == Stroke(st.count + 1, true, c.loc, Range(|m.verts|, cfg.segments), Range(|m.edges|, cfg.segments))
    ensures r.mesh.verts == m.verts + RingPositions(n, cfg.segments, c.radius, RingFrame(n, st, c.loc))
    ensures |r.mesh.edges| == |m.edges| + cfg.segments && r.mesh.edges[..|m.edges|] == m.edges
    ensures r.mesh.bridges == m.bridges + (if st.atleastOne then [r.stroke.prevEdges + st.prevEdges] else [])
  {
    var ring := CreateCircle(n, m, cfg.segments, c.radius, RingFrame(n, st, c.loc));
    var bridged :=
      if st.atleastOne then ring.mesh.(bridges := ring.mesh.bridges + [ring.edges + st.prevEdges])
      else ring.mesh;
    Step(Stroke(st.count + 1, true, c.loc, ring.verts, ring.edges), bridged)
  }

  /**
   One call of `add_vertex`. `count` is bumped first; on the call that makes
   it 2 the first ring is reoriented (using the sample's un-offset location)
   whether or not the sample survives the filter. A dropped sample changes
   nothing else. A kept one appends a ring around its location, oriented along
   the direction of travel once a ring exists, bridges the new ring's edges
   with the previous ring's edges, and becomes `prev`.
   */
  function AddVertex(n: Numerics, cfg: Config, st: Stroke, m: Mesh, s: Sample): (r: Step)
    requires Inv(cfg, st, m)
    ensures Inv(cfg, r.stroke, r.mesh)
    ensures r.stroke.count == st.count + 1
    ensures |r.mesh.verts| >= |m.verts|
    ensures |r.mesh.edges| >= |m.edges| && r.mesh.edges[..|m.edges|] == m.edges
    ensures Filter(cfg, st, s).None? ==>
              && r.stroke == st.(count := st.count + 1)
              && (st.count != 1 ==> r.mesh == m)
              && |r.mesh.verts| == |m.verts|
              && r.mesh.edges == m.edges
              && r.mesh.bridges == m.bridges
    ensures Filter(cfg, st, s).Some? ==>
              && r.stroke.atleastOne
              && r.stroke.prev == Filter(cfg, st, s).value.loc
              && |r.mesh.verts| == |m.verts| + cfg.segments
              && |r.mesh.edges| == |m.edges| + cfg.segments
              && r.mesh.bridges == m.bridges + (if st.atleastOne then [r.stroke.prevEdges + st.prevEdges] else [])
  {
    var fixed := Corrected(n, cfg, st, m, s);
    match Filter(cfg, st, s)
    case None => Step(st.(count := st.count + 1), fixed)
    case Some(c) => Commit(n, cfg, st, fixed, c)
  }

  /**
   The only rewrite of existing vertices `add_vertex` makes is the
   correction: on the call that makes `count` 2 (whether or not its sample
   is kept) the vertices of `prevVerts` are rotated about `prev` by the
   correction rotation, which is computed from the sample's un-offset
   location; every other existing vertex, and on every other call all of
   them, keep their positions.
   */
  lemma {:induction false} AddVertexRewrites(n: Numerics, cfg: Config, st: Stroke, m: Mesh, s: Sample)
    requires Inv(cfg, st, m)
    ensures var r := AddVertex(n, cfg, st, m, s);
      && |r.mesh.verts| >= |m.verts|
      && (st.count != 1 ==> r.mesh.verts[..|m.verts|] == m.verts)
      && (st.count == 1 ==> forall i :: 0 <= i < |m.verts| ==>
            r.mesh.verts[i] == if i in st.prevVerts then RotateAbout(n, st.prev, FirstRingRotation(n, st.prev, s.loc), m.verts[i])
                               else m.verts[i])
  {
    var r := AddVertex(n, cfg, st, m, s);
    var fixed := Corrected(n, cfg, st, m, s);
    assert r.mesh.verts[..|m.verts|] == fixed.verts by {
      match Filter(cfg, st, s)
      case None =>
      case Some(c) =>
        assert r == Commit(n, cfg, st, fixed, c);
    }
    if st.count == 1 {
      forall i | 0 <= i < |m.verts|
        ensures r.mesh.verts[i] == fixed.verts[i]
      {
        assert r.mesh.verts[..|m.verts|][i] == r.mesh.verts[i];
      }
    }
  }

  /**
   A kept sample leaves `prevVerts`/`prevEdges` naming one closed ring of
   fresh, distinct vertices in the new mesh.
   */
  lemma {:induction false} AddVertexMakesRing(n: Numerics, cfg: Config, st: Stroke, m: Mesh, s: Sample)
    requires Inv(cfg, st, m)
    requires Filter(cfg, st, s).Some?
    ensures var r := AddVertex(n, cfg, st, m, s);
      && IsRing(r.mesh, r.stroke.prevVerts, r.stroke.prevEdges, cfg.segments)
      && (forall k :: 0 <= k < cfg.segments ==> r.stroke.prevVerts[k] >= |m.verts|)
      && (forall a, b :: 0 <= a < b < cfg.segments ==> r.stroke.prevVerts[a] != r.stroke.prevVerts[b])
  {
    var fixed := Corrected(n, cfg, st, m, s);
    var c := Filter(cfg, st, s).value;
    var frame := RingFrame(n, st, c.loc);
    var ring := CreateCircle(n, fixed, cfg.segments, c.radius, frame);
    CircleIsRing(n, fixed, cfg.segments, c.radius, frame);
    var r := AddVertex(n, cfg, st, m, s);
    assert r.mesh.edges == ring.mesh.edges;
    assert r.mesh.verts == ring.mesh.verts;
    assert r.stroke.prevVerts == ring.verts && r.stroke.prevEdges == ring.edges;
  }

  /**
   A kept sample's ring lies where `create_circle` puts it: vertex k of the
   new ring is ring point k under the ring's frame (a bare translation to the
   candidate's location for the first ring, travel-aligned after).
   */
  lemma {:induction false} AddVertexPlacesRing(n: Numerics, cfg: Config, st: Stroke, m: Mesh, s: Sample)
    requires Inv(cfg, st, m)
    requires Filter(cfg, st, s).Some?
    ensures var r := AddVertex(n, cfg, st, m, s);
      var c := Filter(cfg, st, s).value;
      && |r.mesh.verts| == |m.verts| + cfg.segments
      && forall k :: 0 <= k < cfg.segments ==>
           r.mesh.verts[|m.verts| + k] == Transform(n, RingFrame(n, st, c.loc), RingPoint(n, cfg.segments, c.radius, k))
  {
    var fixed := Corrected(n, cfg, st, m, s);
    var c := Filter(cfg, st, s).value;
    var r := AddVertex(n, cfg, st, m, s);
    var ps := RingPositions(n, cfg.segments, c.radius, RingFrame(n, st, c.loc));
    assert r.mesh.verts == fixed.verts + ps;
    forall k | 0 <= k < cfg.segments
      ensures r.mesh.verts[|m.verts| + k] == ps[k]
    {
    }
  }
}
