/**
 Concrete strokes, worked through `add_vertex` call by call: four segments,
 radius 1, full strength, no pen pressure, min distance 0.01, samples placed
 in VIEW mode along the negative z axis.
 */
module Scenarios {
  import opened Vectors
  import opened BMesh
  import opened Sketch3D

  const Cfg: Config := Config(1.0, 1.0, 4, 0.01, false, false)

  function At(z: real): Sample {
    Sample(Vec3(0.0, 0.0, z), 0.5, false, Origin)
  }

  /**
   A second sample two units from the first is kept: its ring is the
   second of four vertices and edges, and the first bridge call joins its
   edges to the first ring's.
   */
  lemma {:induction false} SecondSampleKept(n: Numerics, m0: Mesh)
    ensures var r1 := AddVertex(n, Cfg, Init, m0, At(0.0));
      var r2 := AddVertex(n, Cfg, r1.stroke, r1.mesh, At(-2.0));
      && Inv(Cfg, r2.stroke, r2.mesh)
      && r2.stroke.atleastOne
      && r2.stroke.count == 2
      && r2.stroke.prev == Vec3(0.0, 0.0, -2.0)
      && |r2.mesh.verts| == |m0.verts| + 8
      && |r2.mesh.edges| == |m0.edges| + 8
      && r2.stroke.prevEdges == Range(|m0.edges| + 4, 4)
      && r2.mesh.bridges == m0.bridges + [Range(|m0.edges| + 4, 4) + Range(|m0.edges|, 4)]
  {
    FirstCallAtOrigin(n, m0);
    var r1 := AddVertex(n, Cfg, Init, m0, At(0.0));
    assert Placed(Cfg, At(-2.0), EffectiveRadius(Cfg, 0.5)) == Vec3(0.0, 0.0, -2.0);
    assert LengthSq(Sub(Vec3(0.0, 0.0, -2.0), Origin)) == 4.0;
    assert Filter(Cfg, r1.stroke, At(-2.0)).Some?;
  }

  /**
   Three samples two units apart make three rings of four vertices and
   edges each, two bridge calls (ring 2 with ring 1, ring 3 with ring 2), and
   leave `prev` at the last sample.
   */
  lemma {:induction false} ThreeSpacedSamples(n: Numerics, m0: Mesh)
    ensures var r1 := AddVertex(n, Cfg, Init, m0, At(0.0));
      var r2 := AddVertex(n, Cfg, r1.stroke, r1.mesh, At(-2.0));
      var r3 := AddVertex(n, Cfg, r2.stroke, r2.mesh, At(-4.0));
      && r3.stroke.count == 3
      && r3.stroke.prev == Vec3(0.0, 0.0, -4.0)
      && |r3.mesh.verts| == |m0.verts| + 12
      && |r3.mesh.edges| == |m0.edges| + 12
      && r3.mesh.bridges == m0.bridges + [Range(|m0.edges| + 4, 4) + Range(|m0.edges|, 4),
                                          Range(|m0.edges| + 8, 4) + Range(|m0.edges| + 4, 4)]
  {
    SecondSampleKept(n, m0);
    var r1 := AddVertex(n, Cfg, Init, m0, At(0.0));
    var r2 := AddVertex(n, Cfg, r1.stroke, r1.mesh, At(-2.0));
    assert Placed(Cfg, At(-4.0), EffectiveRadius(Cfg, 0.5)) == Vec3(0.0, 0.0, -4.0);
    assert LengthSq(Sub(Vec3(0.0, 0.0, -4.0), Vec3(0.0, 0.0, -2.0))) == 4.0;
    assert Filter(Cfg, r2.stroke, At(-4.0)).Some?;
  }

  /** The first call keeps its sample and puts the first ring's centre at the origin. */
  lemma {:induction false} FirstCallAtOrigin(n: Numerics, m0: Mesh)
    ensures var r1 := AddVertex(n, Cfg, Init, m0, At(0.0));
      && Inv(Cfg, r1.stroke, r1.mesh)
      && r1.stroke.atleastOne
      && r1.stroke.count == 1
      && r1.stroke.prev == Origin
  {
    InitInv(Cfg, m0);
    assert Filter(Cfg, Init, At(0.0)) == Some(Candidate(Origin, 1.0));
  }

  /** After a ring at the origin, a sample 0.001 away (squared: 0.000001 < 0.01 * 0.01) is dropped. */
  lemma {:induction false} NearSampleDropped(n: Numerics, m0: Mesh)
    ensures var r1 := AddVertex(n, Cfg, Init, m0, At(0.0));
      && r1.stroke.prev == Origin
      && Filter(Cfg, r1.stroke, At(-0.001)).None?
  {
    FirstCallAtOrigin(n, m0);
    var r1 := AddVertex(n, Cfg, Init, m0, At(0.0));
    assert Placed(Cfg, At(-0.001), EffectiveRadius(Cfg, 0.5)) == Vec3(0.0, 0.0, -0.001);
    assert LengthSq(Sub(Vec3(0.0, 0.0, -0.001), Origin)) == 0.000001;
  }

  /**
   A second sample a thousandth of a unit from the first is dropped, yet it
   still counts as the second call: `count` is 2, no ring, edge or bridge is
   added, and the first ring is rotated about its centre by the correction
   computed from the dropped sample.
   */
  lemma {:induction false} DroppedSecondSample(n: Numerics, m0: Mesh)
    ensures var r1 := AddVertex(n, Cfg, Init, m0, At(0.0));
      var r2 := AddVertex(n, Cfg, r1.stroke, r1.mesh, At(-0.001));
      && r2.stroke.count == 2
      && r2.stroke.prevVerts == r1.stroke.prevVerts
      && |r2.mesh.verts| == |m0.verts| + 4
      && r2.mesh.edges == r1.mesh.edges
      && r2.mesh.bridges == m0.bridges
      && (forall k :: 0 <= k < 4 ==>
            r2.mesh.verts[r1.stroke.prevVerts[k]]
              == RotateAbout(n, Origin, FirstRingRotation(n, Origin, Vec3(0.0, 0.0, -0.001)), r1.mesh.verts[r1.stroke.prevVerts[k]]))
  {
    InitInv(Cfg, m0);
    var r1 := AddVertex(n, Cfg, Init, m0, At(0.0));
    NearSampleDropped(n, m0);
    AddVertexRewrites(n, Cfg, r1.stroke, r1.mesh, At(-0.001));
  }

  /** After the dropped second sample, a sample far enough away gets a ring bridged to the first ring. */
  lemma {:induction false} RingAfterDroppedSample(n: Numerics, m0: Mesh)
    ensures var r1 := AddVertex(n, Cfg, Init, m0, At(0.0));
      var r2 := AddVertex(n, Cfg, r1.stroke, r1.mesh, At(-0.001));
      var r3 := AddVertex(n, Cfg, r2.stroke, r2.mesh, At(-1.0));
      && r3.stroke.count == 3
      && |r3.mesh.verts| == |m0.verts| + 8
      && r3.mesh.bridges == m0.bridges + [Range(|m0.edges| + 4, 4) + Range(|m0.edges|, 4)]
  {
    InitInv(Cfg, m0);
    var r1 := AddVertex(n, Cfg, Init, m0, At(0.0));
    NearSampleDropped(n, m0);
    var r2 := AddVertex(n, Cfg, r1.stroke, r1.mesh, At(-0.001));
    assert r2.stroke.prev == Origin;
    assert Placed(Cfg, At(-1.0), EffectiveRadius(Cfg, 0.5)) == Vec3(0.0, 0.0, -1.0);
    assert LengthSq(Sub(Vec3(0.0, 0.0, -1.0), Origin)) == 1.0;
    assert Filter(Cfg, r2.stroke, At(-1.0)).Some?;
  }
}
