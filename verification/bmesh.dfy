/**
 An abstract edit-mesh: vertex positions in creation order, edges as pairs of
 vertex indices in creation order, and a log of the edge lists handed to
 `bmesh.ops.bridge_loops`. A vertex or edge reference is its index. The edges
 `bridge_loops` itself creates between two rings are not recorded.
 */
module BMesh {
  import opened Vectors

  datatype Edge = Edge(a: nat, b: nat)

  datatype Mesh = Mesh(verts: seq<Vec3>, edges: seq<Edge>, bridges: seq<seq<nat>>)

  /** Edge e connects u and v, in either order. */
  predicate Joins(e: Edge, u: nat, v: nat) {
    (e.a == u && e.b == v) || (e.a == v && e.b == u)
  }

  predicate Touches(e: Edge, u: nat) {
    e.a == u || e.b == u
  }

  /** The indices base, base+1, ..., base+len-1. */
  function Range(base: nat, len: nat): (r: seq<nat>)
    ensures |r| == len
    ensures forall k :: 0 <= k < len ==> r[k] == base + k
  {
    seq(len, k requires 0 <= k < len => base + k)
  }

  /** The position after k going round a ring of s positions. */
  function Succ(k: nat, s: nat): nat {
    if k + 1 == s then 0 else k + 1
  }

  /** The position before j going round a ring of s positions. */
  function Pred(j: nat, s: nat): nat
    requires s >= 1
  {
    if j == 0 then s - 1 else j - 1
  }

  /**
   vs and es form one closed ring of s vertices: edge es[k] joins vs[k] to the
   next vertex round the ring, vs[Succ(k, s)].
   */
  predicate IsRing(m: Mesh, vs: seq<nat>, es: seq<nat>, s: nat) {
    && |vs| == s
    && |es| == s
    && (forall k :: 0 <= k < s ==> vs[k] < |m.verts|)
    && (forall k :: 0 <= k < s ==> es[k] < |m.edges|)
    && (forall k {:trigger es[k]} :: 0 <= k < s ==> Joins(m.edges[es[k]], vs[k], vs[Succ(k, s)]))
  }

  /**
   The edges (v0,v1), ..., (v[s-2],v[s-1]) followed by the closing edge
   (v0, v[s-1]) form a ring.
   */
  lemma {:induction false} ChainClosedIsRing(m: Mesh, vs: seq<nat>, es: seq<nat>, s: nat)
    requires s >= 1 && |vs| == s && |es| == s
    requires forall k :: 0 <= k < s ==> vs[k] < |m.verts|
    requires forall k :: 0 <= k < s ==> es[k] < |m.edges|
    requires forall k {:trigger es[k]} :: 0 <= k < s - 1 ==> m.edges[es[k]] == Edge(vs[k], vs[k + 1])
    requires m.edges[es[s - 1]] == Edge(vs[0], vs[s - 1])
    ensures IsRing(m, vs, es, s)
  {
    forall k | 0 <= k < s
      ensures Joins(m.edges[es[k]], vs[k], vs[Succ(k, s)])
    {
      if k < s - 1 {
        assert m.edges[es[k]] == Edge(vs[k], vs[k + 1]);
      }
    }
  }

  /** Indices into es of the ring edges that touch vertex v. */
  function IncidentEdges(m: Mesh, es: seq<nat>, v: nat): set<int>
    requires forall k :: 0 <= k < |es| ==> es[k] < |m.edges|
  {
    set k | 0 <= k < |es| && Touches(m.edges[es[k]], v)
  }

  /**
   In a ring of at least three distinct vertices, each ring vertex vs[j] is
   touched by exactly two ring edges: its own edge to its successor and its
   predecessor's edge.
   */
  lemma {:induction false} RingDegreeTwo(m: Mesh, vs: seq<nat>, es: seq<nat>, s: nat, j: nat)
    requires s >= 3
    requires IsRing(m, vs, es, s)
    requires forall a, b :: 0 <= a < b < s ==> vs[a] != vs[b]
    requires j < s
    ensures IncidentEdges(m, es, vs[j]) == {j, Pred(j, s)}
    ensures |IncidentEdges(m, es, vs[j])| == 2
  {
    var pred := Pred(j, s);
    forall k | 0 <= k < s
      ensures Touches(m.edges[es[k]], vs[j]) <==> (k == j || k == pred)
    {
      assert Joins(m.edges[es[k]], vs[k], vs[Succ(k, s)]);
      if Touches(m.edges[es[k]], vs[j]) {
        // vs is injective, so vs[j] is vs[k] or vs[Succ(k, s)]
        if vs[j] != vs[k] {
          assert vs[j] == vs[Succ(k, s)];
          assert j == Succ(k, s);
        }
      }
    }
    assert IncidentEdges(m, es, vs[j]) == {j, pred};
  }
}
