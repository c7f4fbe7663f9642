# Sketch3D stroke builder, modelled in Dafny

Sketch3D is a Blender add-on that turns a pen stroke into a tube mesh. While
the pointer moves, the operator `ModalDrawOperator` calls `add_vertex` once per
sample. Each call computes an effective radius from pen pressure and may push
the sample off a surface along its normal. Once a ring exists, it drops samples
closer than `min_distance` to the last ring's centre. For a kept sample it calls
`create_circle` to add a closed ring of `segments` vertices and edges, and asks
`bmesh.ops.bridge_loops` to join that ring to the previous one. On the second
call of a stroke it also rotates the first ring, which was made before any
direction of travel was known.

This project models that per-sample state machine as pure functions:

- `vectors.dfy` (module `Vectors`): 3-vectors over the reals. The library
  numerics (sin, cos, `rotation_difference`, quaternion rotation) are
  uninterpreted function values of a `Numerics` record.
- `bmesh.dfy` (module `BMesh`): the edit mesh, abstracted as vertex positions
  in creation order, edges as pairs of vertex indices, and a log of the edge
  lists handed to `bridge_loops`. Its edge list holds the ring edges
  `create_circle` makes, not the edges `bridge_loops` adds between rings. The module also defines when a vertex list
  and an edge list form a closed ring.
- `sketch3d.dfy` (module `Sketch3D`): the operator properties, the state
  `invoke` sets, `create_circle`, and `add_vertex` with its parts: the
  effective radius, the offset, the distance filter, the first-ring
  correction, and appending and bridging the ring.
- `strokes.dfy` (module `Strokes`): whole strokes. `DrawStroke` feeds a
  sequence of samples through `add_vertex`. The lemmas prove what holds after
  every call:
  - the rings are the stroke's samples thinned by distance;
  - consecutive centres are at least `min_distance` apart;
  - there are n rings and n-1 bridge calls, and every ring stays a closed ring;
  - every vertex is where `create_circle` put it, except the first ring, which
    is rotated exactly once;
  - the mesh the stroke started on is never touched.
- `scenarios.dfy` (module `Scenarios`): concrete strokes worked through call by
  call. One is three samples two units apart. The other has a second sample
  0.001 away that is dropped.

Points where the order of operations in `add_vertex` matters; the model
follows it:

- `count` is bumped at the start of every call, before the filter. It counts
  calls, not accepted samples.
- The first-ring correction therefore fires on the second call even when that
  sample is dropped. It is computed from the sample's location before the
  surface offset is applied.
- A dropped sample does change the operator's state: `count` grows, and on the
  second call the first ring is rotated.
- The correction happens at the start of `add_vertex`, before the new ring is
  created, not after it.

## Model

| member | source | states |
|---|---|---|
| `Sketch3D.CreateCircle` | sketch_3d.py:48-60 | appends exactly `segments` vertices, one per ring position, and `segments` edges; edge k joins ring vertices k and k+1, the last edge joins vertex 0 and vertex segments-1; earlier vertices, edges and bridge log are unchanged; returns the new vertices' and edges' indices |
| `Sketch3D.CircleIsRing` | sketch_3d.py:57-59 | the ring `create_circle` returns is one closed cycle through `segments` distinct, newly created vertices |
| `Sketch3D.CircleDegreeTwo` | sketch_3d.py:57-59 | for segments >= 3 every ring vertex is touched by exactly two ring edges, its own and its predecessor's |
| `Sketch3D.RingVertexOnCircle` | sketch_3d.py:51-54 | if sin^2 + cos^2 = 1 at the ring angle and rotations keep lengths, each ring vertex is exactly `radius` from the frame's origin |
| `Sketch3D.EffectiveRadius` | sketch_3d.py:76-78 | the radius is radius*strength*pressure with pen pressure on, and radius*strength whatever the pressure with it off |
| `Sketch3D.PressureIgnoredWithoutPen` | sketch_3d.py:76-78 | with pen pressure off, the pressure passed in has no effect: any two pressures give the same radius, radius*strength |
| `Sketch3D.EffectiveRadiusBounds` | sketch_3d.py:76-78 | with the properties in their declared ranges and pressure in [0, 1], the effective radius lies in [0, radius] |
| `Sketch3D.Placed` | sketch_3d.py:79-80 | the location moves by radius*normal exactly when the placement is SURFACE and offset is on; otherwise it is unchanged |
| `Sketch3D.OffsetMovesByRadius` | sketch_3d.py:79-80 | an offset sample with a unit normal ends up exactly `radius` from the location it was given, which is the surface point when the ray cast hit |
| `Sketch3D.TooCloseIsLengthBelow` | sketch_3d.py:85-86 | the squared-length test used by the model is exactly the source's `dir.length < min_distance`, for any min_distance |
| `Sketch3D.Filter` | sketch_3d.py:76-87 | a kept sample becomes a ring at its (possibly offset) location with the effective radius |
| `Sketch3D.FilterDropsExactlyNearSamples` | sketch_3d.py:84-87 | a sample is dropped if and only if a ring exists and its distance from `prev` is below `min_distance`; the first sample is never dropped |
| `Sketch3D.RotateAboutKeepsDistance` | sketch_3d.py:70-74 | rotating a vertex about `prev`, with length-preserving rotations, keeps its distance to `prev` |
| `Sketch3D.Reorient` | sketch_3d.py:72-74 | every vertex listed in `prev_verts` is rotated about the centre; every other vertex keeps its position |
| `Sketch3D.Corrected` | sketch_3d.py:63-74 | the correction changes the mesh only on the call that makes `count` 2, and then rotates exactly the `prev_verts` about `prev` by the rotation from (0,0,-1) to prev - loc, with loc the un-offset sample location |
| `Sketch3D.InitInv` | sketch_3d.py:160-161 | the state `invoke` sets (`count` 0, `atleast_one` false) satisfies the model's state invariant on any mesh |
| `Sketch3D.Commit` | sketch_3d.py:88-105 | a kept sample appends its ring, travel-aligned once a ring exists, bridges the new ring's edges with the previous ring's exactly when a ring existed, and becomes `prev`/`prev_verts`/`prev_edges` |
| `Sketch3D.AddVertex` | sketch_3d.py:62-106 | `count` grows by one on every call; a dropped sample changes no other state, adds no vertex, edge or bridge, and leaves the mesh untouched except for the second call's correction; a kept one adds `segments` vertices and `segments` ring edges, and one bridge call after the first ring; existing edges are never changed |
| `Sketch3D.AddVertexRewrites` | sketch_3d.py:63-74 | the only change to existing vertices is the correction on the call that makes `count` 2, kept or dropped, applied to `prev_verts` alone |
| `Sketch3D.AddVertexMakesRing` | sketch_3d.py:96-104 | after a kept sample, `prev_verts`/`prev_edges` form a closed ring of fresh, distinct vertices |
| `Sketch3D.AddVertexPlacesRing` | sketch_3d.py:82-96 | the new ring's vertex k is ring point k under a bare translation for the first ring, and under translation composed with the travel rotation after |
| `Strokes.RingIndices` | sketch_3d.py:51-59 | ring j of a stroke holds the s consecutive vertex and edge indices from base + j*s on, because every ring appends exactly s of each |
| `Strokes.BridgeLogCall` | sketch_3d.py:99-101 | bridge call j of a stroke joins ring j+1's edges, listed first, with ring j's |
| `Strokes.RingSurvivesGrowth` | sketch_3d.py:55-59 | appending vertices and edges never breaks an existing ring |
| `Strokes.SpacedMeansAtLeastMinDistance` | sketch_3d.py:84-87 | in a spaced ring sequence, consecutive centres are at least `min_distance` apart in Euclidean length |
| `Strokes.Kept` | sketch_3d.py:84-87 | thinning i > 0 samples by distance keeps between 1 and i of them |
| `Strokes.KeptStep` | sketch_3d.py:84-98 | the rings a call leaves are the distance thinning of one more sample |
| `Strokes.ShapeStep` | sketch_3d.py:62-105 | after each call, `count` equals the number of calls, there is at least one ring once a call was made, each ring owns `segments` vertices and edges, and `prev`/`prev_verts`/`prev_edges` name the newest ring |
| `Strokes.SpacedStep` | sketch_3d.py:84-98 | each call keeps consecutive ring centres at least `min_distance` apart |
| `Strokes.BaseStep` | sketch_3d.py:62-106 | no call moves a vertex or edge of the mesh the stroke started on |
| `Strokes.RingsStep` | sketch_3d.py:96-104 | after each call, every ring of the stroke so far is a closed ring in the mesh |
| `Strokes.OldRingsStayRings` | sketch_3d.py:55-59 | a call never breaks a ring the stroke already made |
| `Strokes.NewRingIsRing` | sketch_3d.py:96-104 | a kept sample's ring becomes the stroke's next numbered ring |
| `Strokes.BridgesStep` | sketch_3d.py:99-101 | after each call the bridge log holds one call per ring after the first, in order |
| `Strokes.FirstRingStep` | sketch_3d.py:63-74 | after each call the first ring is where `create_circle` put it, unrotated after one call and rotated once by the correction from the second call on |
| `Strokes.FirstRingMade` | sketch_3d.py:88-96 | the first call makes ring 0 around the first sample, translated but not rotated |
| `Strokes.FirstRingCorrected` | sketch_3d.py:63-74 | the second call, kept or dropped, rotates ring 0 about its centre by the correction computed from the second sample's un-offset location |
| `Strokes.FirstRingKept` | sketch_3d.py:63-74 | from the third call on the first ring does not move |
| `Strokes.LaterRingsStep` | sketch_3d.py:88-96 | every ring after the first stays where `create_circle` put it, aligned with the step from the previous centre |
| `Strokes.OldRingsKept` | sketch_3d.py:63-74 | a call does not move any existing ring after the first |
| `Strokes.NewRingPlaced` | sketch_3d.py:88-96 | a kept sample after the first makes its ring around its centre, rotated from (0,0,1) to the step from the previous centre |
| `Strokes.DrawnInit` | sketch_3d.py:160-161 | `invoke`'s state on the starting mesh satisfies every stroke invariant with no rings |
| `Strokes.DrawnStep` | sketch_3d.py:62-106 | one `add_vertex` call keeps every stroke invariant |
| `Strokes.DrawStroke` | sketch_3d.py:62-106 | after a whole stroke: `count` is the number of samples; the rings are the samples thinned by distance, consecutive centres at least `min_distance` apart; each ring is closed; there are n-1 bridge calls for n rings, joining consecutive rings; every ring is where `create_circle` put it except the first, rotated once by the correction; the starting mesh is untouched |
| `Scenarios.FirstCallAtOrigin` | sketch_3d.py:88-105 | the scenario's first call, a sample at the origin, is kept and becomes `prev` |
| `Scenarios.SecondSampleKept` | sketch_3d.py:84-105 | with 4 segments, a second sample 2 units away is kept: 8 vertices and 8 ring edges, one bridge call joining ring 2's edges with ring 1's |
| `Scenarios.ThreeSpacedSamples` | sketch_3d.py:62-106 | three samples 2 units apart make 12 vertices and 12 ring edges and two bridge calls, and leave `prev` at the last sample |
| `Scenarios.NearSampleDropped` | sketch_3d.py:84-87 | a sample 0.001 from the first ring's centre is dropped when `min_distance` is 0.01 |
| `Scenarios.DroppedSecondSample` | sketch_3d.py:63-87 | that dropped second sample still makes `count` 2, adds no vertex, edge or bridge, and rotates the first ring by the correction computed from it |
| `Scenarios.RingAfterDroppedSample` | sketch_3d.py:84-105 | after the dropped sample, a sample 1 unit away makes the second ring and the first bridge call |

## Left out

- The `modal` event loop, the projection from screen to 3D and the scene ray
  cast (sketch_3d.py:112-148) are calls into Blender. Their results are the
  model's input: each sample carries a location, a pressure, whether the placement
  is SURFACE (sketch_3d.py:136), and the normal the ray cast returned.
- Tool definition, keymaps and register/unregister (sketch_3d.py:168-272) are
  host UI registration.
- `Sketch3D.RingVertexOnCircle`: sin, cos, `rotation_difference` and
  quaternion rotation are uninterpreted floating-point library functions.
  Vertex positions are stated in terms of them, and distances only under the
  stated assumptions (sin^2 + cos^2 = 1, rotations keep lengths). The claim
  that the corrected first ring lies in a plane perpendicular to the direction
  of travel is not proved.
- What `bmesh.ops.bridge_loops` builds is a foreign call. The model records
  each call and its edge list, not the faces it makes. `bridge_loops` also
  creates the edges between the two rings; the model's edge list holds only
  the edges `create_circle` makes, and every edge count and edge index in the
  rows above (`Sketch3D.AddVertex`, `Strokes.RingIndices`,
  `Scenarios.SecondSampleKept`, `Scenarios.ThreeSpacedSamples` and the rest)
  counts those alone.
- `Sketch3D.CircleDegreeTwo`: holds only for segments >= 3. With 2 segments
  the source asks `bm.edges.new` twice for the same vertex pair. For
  segments == 2 the model assumes `bm.edges.new` accepts the duplicate pair
  and returns a new edge. Every ring, count and bridge claim for
  segments == 2 (`Sketch3D.CreateCircle`, `Sketch3D.CircleIsRing`,
  `Sketch3D.AddVertex`, `Strokes.DrawStroke` and the rest) rests on that.
  If the library refuses the pair instead, the call stops after two vertices
  and one edge, and nothing after the second `bm.edges.new` runs.
- `bmesh.update_edit_mesh`, `tag_redraw`, the no-op `interpolate_stroke`, and
  undo and cancel handling belong to the host.
- Floating-point arithmetic is modelled as exact real arithmetic. The source's
  `dir.length` is a square root; the model compares squared lengths, which
  agrees with the source's test over the reals but not with every rounding.
- `Sketch3D.EffectiveRadiusBounds`: assumes the pressure lies in [0, 1], which
  tablets report but the source does not check.
- `Sketch3D.OffsetMovesByRadius`: assumes the normal has unit length, which
  holds for the normal of a ray-cast hit. With placement SURFACE the flag is
  set even when the ray cast at sketch_3d.py:128 misses; the location is then
  the view-projected fallback of sketch_3d.py:131-132, and sketch_3d.py:80
  still adds `radius * normal` with whatever normal the missed cast returned.
  The model applies the offset the same way (`Sketch3D.Placed`), but promises
  nothing about the distance in that case.
