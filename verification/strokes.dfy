/**
 Whole strokes: the state `invoke` sets, followed by one `add_vertex` call per
 pointer sample. The lemmas here relate a stroke's samples to the rings,
 bridge calls and first-ring correction it leaves in the mesh.
 */
module Strokes {
  import opened Vectors
  import opened BMesh
  import opened Sketch3D

  /** One stroke: the library numerics, the operator's properties, the mesh it starts on, and its samples in arrival order. */
  datatype Session = Session(n: Numerics, cfg: Config, m0: Mesh, samples: seq<Sample>)

  /** `a * b` by repeated addition, which keeps the block arithmetic linear for the solver. */
  function Blocks(a: nat, b: nat): nat {
    if a == 0 then 0 else Blocks(a - 1, b) + b
  }

  lemma {:induction false} BlocksIsProduct(a: nat, b: nat)
    ensures Blocks(a, b) == a * b
  {
    if a > 0 {
      BlocksIsProduct(a - 1, b);
    }
  }

  /** Vertex indices of ring j of a stroke started on a mesh with `base` vertices. */
  function RingVerts(base: nat, s: SegmentCount, j: nat): seq<nat> {
    Range(base + Blocks(j, s), s)
  }

  /** Edge indices of ring j of a stroke started on a mesh with `base` edges. */
  function RingEdgeIds(base: nat, s: SegmentCount, j: nat): seq<nat> {
    Range(base + Blocks(j, s), s)
  }

  /** Ring j occupies the s consecutive indices base + j*s, ..., base + j*s + s - 1. */
  lemma {:induction false} RingIndices(base: nat, s: SegmentCount, j: nat, k: nat)
    requires k < s
    ensures RingVerts(base, s, j)[k] == base + j * s + k
    ensures RingEdgeIds(base, s, j)[k] == base + j * s + k
  {
    BlocksIsProduct(j, s);
  }

  /** The bridge log of a stroke with k+1 rings: call j bridges ring j+1's edges with ring j's. */
  function BridgeLog(base: nat, s: SegmentCount, k: nat): (log: seq<seq<nat>>)
    ensures |log| == k
  {
    if k == 0 then [] else BridgeLog(base, s, k - 1) + [RingEdgeIds(base, s, k) + RingEdgeIds(base, s, k - 1)]
  }

  /** Bridge call j of a stroke joins ring j+1 (its edges first) to ring j. */
  lemma {:induction false} BridgeLogCall(base: nat, s: SegmentCount, k: nat, j: nat)
    requires j < k
    ensures BridgeLog(base, s, k)[j] == RingEdgeIds(base, s, j + 1) + RingEdgeIds(base, s, j)
  {
    if j < k - 1 {
      BridgeLogCall(base, s, k - 1, j);
    }
  }

  // ---------------------------------------------------------------------------
  // Rings

  /** Growing the vertex list and appending edges keeps an existing ring a ring. */
  lemma {:induction false} RingSurvivesGrowth(m: Mesh, m': Mesh, vs: seq<nat>, es: seq<nat>, s: nat)
    requires IsRing(m, vs, es, s)
    requires |m'.verts| >= |m.verts|
    requires |m'.edges| >= |m.edges| && m'.edges[..|m.edges|] == m.edges
    ensures IsRing(m', vs, es, s)
  {
    forall k | 0 <= k < s
      ensures m'.edges[es[k]] == m.edges[es[k]]
    {
      assert m'.edges[..|m.edges|][es[k]] == m.edges[es[k]];
    }
  }

  /** Consecutive ring centres are never closer than `minDistance`. */
  ghost predicate Spaced(rings: seq<Candidate>, minDistance: real) {
    forall i :: 0 < i < |rings| ==> !TooClose(Sub(rings[i].loc, rings[i - 1].loc), minDistance)
  }

  /**
   In the source's terms: for L the length of the step between two
   consecutive ring centres of a spaced stroke, L >= min_distance.
   */
  lemma {:induction false} SpacedMeansAtLeastMinDistance(rings: seq<Candidate>, minDistance: real, i: nat, len: real)
    requires Spaced(rings, minDistance)
    requires 0 < i < |rings|
    requires len >= 0.0 && len * len == LengthSq(Sub(rings[i].loc, rings[i - 1].loc))
    ensures len >= minDistance
  {
    TooCloseIsLengthBelow(Sub(rings[i].loc, rings[i - 1].loc), len, minDistance);
  }

  // ---------------------------------------------------------------------------
  // One call at a time

  /** The rings after a call: one more exactly when the filter kept the sample. */
  function Grow(cfg: Config, st: Stroke, rings: seq<Candidate>, smp: Sample): (r: seq<Candidate>)
    ensures Filter(cfg, st, smp).None? ==> r == rings
    ensures Filter(cfg, st, smp).Some? ==> r == rings + [Filter(cfg, st, smp).value]
  {
    match Filter(cfg, st, smp)
    case None => rings
    case Some(c) => rings + [c]
  }

  /** The ring the first sample of a stroke always makes. */
  function FirstRing(t: Session): Candidate
    requires |t.samples| > 0
  {
    var radius := EffectiveRadius(t.cfg, t.samples[0].pressure);
    Candidate(Placed(t.cfg, t.samples[0], radius), radius)
  }

  /**
   The bookkeeping after i calls that made the given rings: `Inv`, `count`
   equal to the number of calls, at least one ring once a call was made,
   `segments` fresh vertices and edges per ring, and `prev`, `prevVerts`,
   `prevEdges` naming the newest ring.
   */
  ghost predicate Shape(t: Session, r: Step, rings: seq<Candidate>, i: nat) {
    var s := t.cfg.segments;
    && i <= |t.samples|
    && Inv(t.cfg, r.stroke, r.mesh)
    && r.stroke.count == i
    && |rings| <= i
    && (|rings| == 0 <==> i == 0)
    && |r.mesh.verts| == |t.m0.verts| + Blocks(|rings|, s)
    && |r.mesh.edges| == |t.m0.edges| + Blocks(|rings|, s)
    && (i > 0 ==>
          && rings[0] == FirstRing(t)
          && r.stroke.prev == rings[|rings| - 1].loc
          && r.stroke.prevVerts == RingVerts(|t.m0.verts|, s, |rings| - 1)
          && r.stroke.prevEdges == RingEdgeIds(|t.m0.edges|, s, |rings| - 1))
  }

  /** Each call keeps the bookkeeping of `Shape`, one call further on. */
  lemma {:induction false} ShapeStep(t: Session, r: Step, rings: seq<Candidate>, i: nat)
    requires i < |t.samples| && Shape(t, r, rings, i)
    ensures Shape(t, AddVertex(t.n, t.cfg, r.stroke, r.mesh, t.samples[i]),
                  Grow(t.cfg, r.stroke, rings, t.samples[i]), i + 1)
  {
    var s := t.cfg.segments;
    if Filter(t.cfg, r.stroke, t.samples[i]).Some? {
      assert Blocks(|rings| + 1, s) == Blocks(|rings|, s) + s;
    }
  }

  /** A ring is only added when its centre is not too close to the newest one, so spacing is kept. */
  lemma {:induction false} SpacedStep(t: Session, r: Step, rings: seq<Candidate>, i: nat)
    requires i < |t.samples| && Shape(t, r, rings, i)
    requires Spaced(rings, t.cfg.minDistance)
    ensures Spaced(Grow(t.cfg, r.stroke, rings, t.samples[i]), t.cfg.minDistance)
  {
  }

  /** The mesh's own vertices and edges, those it had before the stroke, are untouched. */
  ghost predicate BaseKept(t: Session, m: Mesh) {
    && |m.verts| >= |t.m0.verts|
    && |m.edges| >= |t.m0.edges|
    && (forall x :: 0 <= x < |t.m0.verts| ==> m.verts[x] == t.m0.verts[x])
    && (forall x :: 0 <= x < |t.m0.edges| ==> m.edges[x] == t.m0.edges[x])
  }

  /** No call moves a vertex or edge of the mesh the stroke started on. */
  lemma {:induction false} BaseStep(t: Session, r: Step, rings: seq<Candidate>, i: nat)
    requires i < |t.samples| && Shape(t, r, rings, i)
    requires BaseKept(t, r.mesh)
    ensures BaseKept(t, AddVertex(t.n, t.cfg, r.stroke, r.mesh, t.samples[i]).mesh)
  {
    var next := AddVertex(t.n, t.cfg, r.stroke, r.mesh, t.samples[i]);
    AddVertexRewrites(t.n, t.cfg, r.stroke, r.mesh, t.samples[i]);
    forall x | 0 <= x < |t.m0.verts|
      ensures next.mesh.verts[x] == t.m0.verts[x]
    {
      if r.stroke.count == 1 {
        // the corrected vertices are the first ring's, all made by the stroke
        assert x !in r.stroke.prevVerts;
      } else {
        assert next.mesh.verts[..|r.mesh.verts|][x] == next.mesh.verts[x];
      }
    }
    forall x | 0 <= x < |t.m0.edges|
      ensures next.mesh.edges[x] == t.m0.edges[x]
    {
      assert next.mesh.edges[..|r.mesh.edges|][x] == next.mesh.edges[x];
    }
  }

  /** Rings 0..count-1 of the stroke are closed rings in m. */
  ghost predicate AllRings(t: Session, m: Mesh, count: nat) {
    forall j :: 0 <= j < count ==>
      IsRing(m, RingVerts(|t.m0.verts|, t.cfg.segments, j), RingEdgeIds(|t.m0.edges|, t.cfg.segments, j), t.cfg.segments)
  }

  /** Each call keeps every ring a ring and, when it keeps its sample, adds one more. */
  lemma {:induction false} RingsStep(t: Session, r: Step, rings: seq<Candidate>, i: nat)
    requires i < |t.samples| && Shape(t, r, rings, i)
    requires AllRings(t, r.mesh, |rings|)
    ensures AllRings(t, AddVertex(t.n, t.cfg, r.stroke, r.mesh, t.samples[i]).mesh,
                     |Grow(t.cfg, r.stroke, rings, t.samples[i])|)
  {
    var next := AddVertex(t.n, t.cfg, r.stroke, r.mesh, t.samples[i]);
    OldRingsStayRings(t, r, rings, i);
    if Filter(t.cfg, r.stroke, t.samples[i]).Some? {
      NewRingIsRing(t, r, rings, i);
      assert forall j :: 0 <= j < |rings| + 1 ==>
        IsRing(next.mesh, RingVerts(|t.m0.verts|, t.cfg.segments, j), RingEdgeIds(|t.m0.edges|, t.cfg.segments, j), t.cfg.segments);
    }
  }

  /** A call never breaks a ring the stroke already made. */
  lemma {:induction false} OldRingsStayRings(t: Session, r: Step, rings: seq<Candidate>, i: nat)
    requires i < |t.samples| && Shape(t, r, rings, i)
    requires AllRings(t, r.mesh, |rings|)
    ensures AllRings(t, AddVertex(t.n, t.cfg, r.stroke, r.mesh, t.samples[i]).mesh, |rings|)
  {
    var s := t.cfg.segments;
    var next := AddVertex(t.n, t.cfg, r.stroke, r.mesh, t.samples[i]);
    forall j | 0 <= j < |rings|
      ensures IsRing(next.mesh, RingVerts(|t.m0.verts|, s, j), RingEdgeIds(|t.m0.edges|, s, j), s)
    {
      RingSurvivesGrowth(r.mesh, next.mesh, RingVerts(|t.m0.verts|, s, j), RingEdgeIds(|t.m0.edges|, s, j), s);
    }
  }

  /** A kept sample's ring is ring number |rings| of the stroke. */
  lemma {:induction false} NewRingIsRing(t: Session, r: Step, rings: seq<Candidate>, i: nat)
    requires i < |t.samples| && Shape(t, r, rings, i)
    requires Filter(t.cfg, r.stroke, t.samples[i]).Some?
    ensures IsRing(AddVertex(t.n, t.cfg, r.stroke, r.mesh, t.samples[i]).mesh,
                   RingVerts(|t.m0.verts|, t.cfg.segments, |rings|), RingEdgeIds(|t.m0.edges|, t.cfg.segments, |rings|), t.cfg.segments)
  {
    AddVertexMakesRing(t.n, t.cfg, r.stroke, r.mesh, t.samples[i]);
    ShapeStep(t, r, rings, i);
  }

  /** The bridge log holds exactly one call per ring after the first. */
  ghost predicate Bridged(t: Session, m: Mesh, count: nat) {
    m.bridges == t.m0.bridges + BridgeLog(|t.m0.edges|, t.cfg.segments, if count == 0 then 0 else count - 1)
  }

  /** Each kept sample after the first adds exactly its bridge call to the log; a dropped one adds none. */
  lemma {:induction false} BridgesStep(t: Session, r: Step, rings: seq<Candidate>, i: nat)
    requires i < |t.samples| && Shape(t, r, rings, i)
    requires Bridged(t, r.mesh, |rings|)
    ensures Bridged(t, AddVertex(t.n, t.cfg, r.stroke, r.mesh, t.samples[i]).mesh,
                    |Grow(t.cfg, r.stroke, rings, t.samples[i])|)
  {
    if Filter(t.cfg, r.stroke, t.samples[i]).Some? && i > 0 {
      ShapeStep(t, r, rings, i);
    }
  }

  /**
   The first i samples of a stroke thinned by distance, independently of any
   mesh or operator state: a sample is kept unless some centre was kept
   before it and its own centre lies closer than `minDistance` to the last
   kept one.
   */
  function Kept(cfg: Config, samples: seq<Sample>, i: nat): (r: seq<Candidate>)
    requires i <= |samples|
    ensures |r| <= i
    ensures i > 0 ==> |r| > 0
  {
    if i == 0 then []
    else
      var prior := Kept(cfg, samples, i - 1);
      var radius := EffectiveRadius(cfg, samples[i - 1].pressure);
      var loc := Placed(cfg, samples[i - 1], radius);
      if prior != [] && TooClose(Sub(loc, prior[|prior| - 1].loc), cfg.minDistance) then prior
      else prior + [Candidate(loc, radius)]
  }

  /** The rings a call leaves are the thinning of one more sample. */
  lemma {:induction false} KeptStep(t: Session, r: Step, rings: seq<Candidate>, i: nat)
    requires i < |t.samples| && Shape(t, r, rings, i)
    requires rings == Kept(t.cfg, t.samples, i)
    ensures Grow(t.cfg, r.stroke, rings, t.samples[i]) == Kept(t.cfg, t.samples, i + 1)
  {
  }

  /** The frame ring j of a stroke was created in. */
  function FrameOf(t: Session, rings: seq<Candidate>, j: nat): Frame
    requires j < |rings|
  {
    if j == 0 then Frame(rings[0].loc, None)
    else Frame(rings[j].loc, Some(TravelRotation(t.n, rings[j - 1].loc, rings[j].loc)))
  }

  /** Where `create_circle` put vertex k of ring j. */
  function Made(t: Session, rings: seq<Candidate>, j: nat, k: nat): Vec3
    requires j < |rings|
  {
    Transform(t.n, FrameOf(t, rings, j), RingPoint(t.n, t.cfg.segments, rings[j].radius, k))
  }

  /** The correction the second call of the stroke applies to the first ring, from its sample's un-offset location. */
  function Correction(t: Session, rings: seq<Candidate>): Quat
    requires |rings| > 0 && |t.samples| >= 2
  {
    FirstRingRotation(t.n, rings[0].loc, t.samples[1].loc)
  }

  /** The index of vertex k of ring j. */
  function VertexOf(t: Session, j: nat, k: nat): nat {
    |t.m0.verts| + Blocks(j, t.cfg.segments) + k
  }

  /** Every ring after the first is where `create_circle` put it. */
  ghost predicate LaterRingsPlaced(t: Session, m: Mesh, rings: seq<Candidate>) {
    forall j, k | 1 <= j < |rings| && 0 <= k < t.cfg.segments ::
      VertexOf(t, j, k) < |m.verts| && m.verts[VertexOf(t, j, k)] == Made(t, rings, j, k)
  }

  /**
   The first ring after i calls: where `create_circle` put it after one
   call, and from the second call on rotated about its centre by the
   correction, once.
   */
  ghost predicate FirstRingPlaced(t: Session, m: Mesh, rings: seq<Candidate>, i: nat) {
    && (i == 1 && |rings| > 0 ==> forall k | 0 <= k < t.cfg.segments ::
          VertexOf(t, 0, k) < |m.verts| && m.verts[VertexOf(t, 0, k)] == Made(t, rings, 0, k))
    && (i >= 2 && |rings| > 0 && |t.samples| >= 2 ==> forall k | 0 <= k < t.cfg.segments ::
          VertexOf(t, 0, k) < |m.verts|
          && m.verts[VertexOf(t, 0, k)] == RotateAbout(t.n, rings[0].loc, Correction(t, rings), Made(t, rings, 0, k)))
  }

  /** Each call keeps `FirstRingPlaced`, one call further on. */
  lemma {:induction false} FirstRingStep(t: Session, r: Step, rings: seq<Candidate>, i: nat)
    requires i < |t.samples| && Shape(t, r, rings, i)
    requires FirstRingPlaced(t, r.mesh, rings, i)
    ensures FirstRingPlaced(t, AddVertex(t.n, t.cfg, r.stroke, r.mesh, t.samples[i]).mesh,
                            Grow(t.cfg, r.stroke, rings, t.samples[i]), i + 1)
  {
    if i == 0 {
      FirstRingMade(t, r, rings);
    } else if i == 1 {
      FirstRingCorrected(t, r, rings);
    } else {
      FirstRingKept(t, r, rings, i);
    }
  }

  /** The first call makes ring 0 around the first sample's location, unrotated. */
  lemma {:induction false} FirstRingMade(t: Session, r: Step, rings: seq<Candidate>)
    requires 0 < |t.samples| && Shape(t, r, rings, 0)
    ensures var next := AddVertex(t.n, t.cfg, r.stroke, r.mesh, t.samples[0]);
      var rings' := Grow(t.cfg, r.stroke, rings, t.samples[0]);
      |rings'| == 1 &&
      forall k | 0 <= k < t.cfg.segments ::
        VertexOf(t, 0, k) < |next.mesh.verts| && next.mesh.verts[VertexOf(t, 0, k)] == Made(t, rings', 0, k)
  {
    var smp := t.samples[0];
    var next := AddVertex(t.n, t.cfg, r.stroke, r.mesh, smp);
    var rings' := Grow(t.cfg, r.stroke, rings, smp);
    AddVertexPlacesRing(t.n, t.cfg, r.stroke, r.mesh, smp);
    assert rings' == [Filter(t.cfg, r.stroke, smp).value];
    forall k | 0 <= k < t.cfg.segments
      ensures VertexOf(t, 0, k) < |next.mesh.verts| && next.mesh.verts[VertexOf(t, 0, k)] == Made(t, rings', 0, k)
    {
      assert VertexOf(t, 0, k) == |r.mesh.verts| + k;
    }
  }

  /** The second call, kept or dropped, rotates ring 0 about its centre by the correction. */
  lemma {:induction false} FirstRingCorrected(t: Session, r: Step, rings: seq<Candidate>)
    requires 1 < |t.samples| && Shape(t, r, rings, 1)
    requires FirstRingPlaced(t, r.mesh, rings, 1)
    ensures var next := AddVertex(t.n, t.cfg, r.stroke, r.mesh, t.samples[1]);
      var rings' := Grow(t.cfg, r.stroke, rings, t.samples[1]);
      |rings'| > 0 &&
      forall k | 0 <= k < t.cfg.segments ::
        VertexOf(t, 0, k) < |next.mesh.verts|
        && next.mesh.verts[VertexOf(t, 0, k)] == RotateAbout(t.n, rings'[0].loc, Correction(t, rings'), Made(t, rings', 0, k))
  {
    var smp := t.samples[1];
    var next := AddVertex(t.n, t.cfg, r.stroke, r.mesh, smp);
    var rings' := Grow(t.cfg, r.stroke, rings, smp);
    assert rings'[0] == rings[0];
    AddVertexRewrites(t.n, t.cfg, r.stroke, r.mesh, smp);
    forall k | 0 <= k < t.cfg.segments
      ensures VertexOf(t, 0, k) < |next.mesh.verts|
        && next.mesh.verts[VertexOf(t, 0, k)] == RotateAbout(t.n, rings'[0].loc, Correction(t, rings'), Made(t, rings', 0, k))
    {
      assert r.stroke.prevVerts[k] == VertexOf(t, 0, k);
    }
  }

  /** From the third call on, ring 0 stays where the correction left it. */
  lemma {:induction false} FirstRingKept(t: Session, r: Step, rings: seq<Candidate>, i: nat)
    requires 2 <= i < |t.samples| && Shape(t, r, rings, i)
    requires FirstRingPlaced(t, r.mesh, rings, i)
    ensures var next := AddVertex(t.n, t.cfg, r.stroke, r.mesh, t.samples[i]);
      var rings' := Grow(t.cfg, r.stroke, rings, t.samples[i]);
      |rings'| > 0 &&
      forall k | 0 <= k < t.cfg.segments ::
        VertexOf(t, 0, k) < |next.mesh.verts|
        && next.mesh.verts[VertexOf(t, 0, k)] == RotateAbout(t.n, rings'[0].loc, Correction(t, rings'), Made(t, rings', 0, k))
  {
    var smp := t.samples[i];
    var next := AddVertex(t.n, t.cfg, r.stroke, r.mesh, smp);
    var rings' := Grow(t.cfg, r.stroke, rings, smp);
    assert rings'[0] == rings[0];
    AddVertexRewrites(t.n, t.cfg, r.stroke, r.mesh, smp);
    forall k | 0 <= k < t.cfg.segments
      ensures VertexOf(t, 0, k) < |next.mesh.verts|
        && next.mesh.verts[VertexOf(t, 0, k)] == RotateAbout(t.n, rings'[0].loc, Correction(t, rings'), Made(t, rings', 0, k))
    {
      assert next.mesh.verts[..|r.mesh.verts|][VertexOf(t, 0, k)] == next.mesh.verts[VertexOf(t, 0, k)];
    }
  }

  /** Each call keeps `LaterRingsPlaced` for the rings it leaves. */
  lemma {:induction false} LaterRingsStep(t: Session, r: Step, rings: seq<Candidate>, i: nat)
    requires i < |t.samples| && Shape(t, r, rings, i)
    requires LaterRingsPlaced(t, r.mesh, rings)
    ensures LaterRingsPlaced(t, AddVertex(t.n, t.cfg, r.stroke, r.mesh, t.samples[i]).mesh,
                             Grow(t.cfg, r.stroke, rings, t.samples[i]))
  {
    var s := t.cfg.segments;
    var smp := t.samples[i];
    var next := AddVertex(t.n, t.cfg, r.stroke, r.mesh, smp);
    var rings' := Grow(t.cfg, r.stroke, rings, smp);
    if |rings| >= 2 {
      OldRingsKept(t, r, rings, i);
    }
    if Filter(t.cfg, r.stroke, smp).Some? && i > 0 {
      NewRingPlaced(t, r, rings, i);
    }
  }

  /** Rings after the first that exist already are not moved by the next call. */
  lemma {:induction false} OldRingsKept(t: Session, r: Step, rings: seq<Candidate>, i: nat)
    requires i < |t.samples| && Shape(t, r, rings, i) && |rings| >= 2
    requires LaterRingsPlaced(t, r.mesh, rings)
    ensures var next := AddVertex(t.n, t.cfg, r.stroke, r.mesh, t.samples[i]);
      var rings' := Grow(t.cfg, r.stroke, rings, t.samples[i]);
      forall j, k | 1 <= j < |rings| && 0 <= k < t.cfg.segments ::
        VertexOf(t, j, k) < |next.mesh.verts| && next.mesh.verts[VertexOf(t, j, k)] == Made(t, rings', j, k)
  {
    var smp := t.samples[i];
    var next := AddVertex(t.n, t.cfg, r.stroke, r.mesh, smp);
    var rings' := Grow(t.cfg, r.stroke, rings, smp);
    AddVertexRewrites(t.n, t.cfg, r.stroke, r.mesh, smp);
    forall j, k | 1 <= j < |rings| && 0 <= k < t.cfg.segments
      ensures VertexOf(t, j, k) < |next.mesh.verts| && next.mesh.verts[VertexOf(t, j, k)] == Made(t, rings', j, k)
    {
      assert rings'[j] == rings[j] && rings'[j - 1] == rings[j - 1];
      assert next.mesh.verts[..|r.mesh.verts|][VertexOf(t, j, k)] == next.mesh.verts[VertexOf(t, j, k)];
    }
  }

  /** A kept sample after the first makes ring number |rings|, aligned with the step from the previous centre. */
  lemma {:induction false} NewRingPlaced(t: Session, r: Step, rings: seq<Candidate>, i: nat)
    requires i < |t.samples| && Shape(t, r, rings, i) && i > 0
    requires Filter(t.cfg, r.stroke, t.samples[i]).Some?
    ensures var next := AddVertex(t.n, t.cfg, r.stroke, r.mesh, t.samples[i]);
      var rings' := Grow(t.cfg, r.stroke, rings, t.samples[i]);
      forall k | 0 <= k < t.cfg.segments ::
        VertexOf(t, |rings|, k) < |next.mesh.verts| && next.mesh.verts[VertexOf(t, |rings|, k)] == Made(t, rings', |rings|, k)
  {
    var smp := t.samples[i];
    AddVertexPlacesRing(t.n, t.cfg, r.stroke, r.mesh, smp);
    var rings' := Grow(t.cfg, r.stroke, rings, smp);
    assert rings'[|rings| - 1] == rings[|rings| - 1];
    assert FrameOf(t, rings', |rings|) == RingFrame(t.n, r.stroke, rings'[|rings|].loc);
  }

  // ---------------------------------------------------------------------------
  // A whole stroke

  /** Everything that holds after the first i calls of a stroke that made the given rings. */
  ghost predicate Drawn(t: Session, r: Step, rings: seq<Candidate>, i: nat) {
    && Shape(t, r, rings, i)
    && rings == Kept(t.cfg, t.samples, i)
    && Spaced(rings, t.cfg.minDistance)
    && BaseKept(t, r.mesh)
    && AllRings(t, r.mesh, |rings|)
    && Bridged(t, r.mesh, |rings|)
    && FirstRingPlaced(t, r.mesh, rings, i)
    && LaterRingsPlaced(t, r.mesh, rings)
  }

  /** `invoke`'s state, before any call, starts a stroke. */
  lemma {:induction false} DrawnInit(t: Session)
    ensures Drawn(t, Step(Init, t.m0), [], 0)
  {
    InitInv(t.cfg, t.m0);
  }

  /** Each call keeps everything `Drawn` states, for the rings `Grow` adds to. */
  lemma {:induction false} DrawnStep(t: Session, r: Step, rings: seq<Candidate>, i: nat)
    requires i < |t.samples| && Drawn(t, r, rings, i)
    ensures Drawn(t, AddVertex(t.n, t.cfg, r.stroke, r.mesh, t.samples[i]), Grow(t.cfg, r.stroke, rings, t.samples[i]), i + 1)
  {
    ShapeStep(t, r, rings, i);
    KeptStep(t, r, rings, i);
    SpacedStep(t, r, rings, i);
    BaseStep(t, r, rings, i);
    RingsStep(t, r, rings, i);
    BridgesStep(t, r, rings, i);
    FirstRingStep(t, r, rings, i);
    LaterRingsStep(t, r, rings, i);
  }

  /**
   A whole stroke: `invoke`'s initial state, then one `add_vertex` call per
   sample. Returns the final state and mesh and, oldest first, the ring made
   for each kept sample (its centre and radius): exactly the stroke's samples
   thinned by distance, spaced at least `minDistance` apart, each a closed ring
   in the mesh, bridged in order, where `create_circle` put them except for
   the first ring's one correction, and leaving the mesh's own geometry alone.
   */
  method DrawStroke(t: Session) returns (r: Step, rings: seq<Candidate>)
    ensures Drawn(t, r, rings, |t.samples|)
  {
    DrawnInit(t);
    r := Step(Init, t.m0);
    rings := [];
    var i := 0;
    while i < |t.samples|
      invariant i <= |t.samples|
      invariant Drawn(t, r, rings, i)
    {
      var smp := t.samples[i];
      DrawnStep(t, r, rings, i);
      r, rings := AddVertex(t.n, t.cfg, r.stroke, r.mesh, smp), Grow(t.cfg, r.stroke, rings, smp);
      i := i + 1;
    }
    assert i == |t.samples|;
  }
}
