/** The graph object and its two greedy colourers. The adjacency table is
    updated in place by `AddEdge`; each colourer fills a fresh result array
    vertex by vertex, using a boolean buffer of "taken" marks that it sets
    for the conflicting neighbours of the current vertex and clears again
    before moving on. */
module GraphModel {
  import opened GreedySpec

  class Graph {
    /** The number of vertices; vertices are `0 .. vertices-1`. */
    const vertices: nat
    /** `adj[u]` is the ordered list of neighbours stored for vertex `u`. */
    var adj: seq<seq<nat>>
    /** Set by the first directed edge and never cleared. */
    var directed: bool

    /** The adjacency table has one list per vertex, every stored id is a
        vertex, and as long as no directed edge was added every edge is
        stored in both directions. */
    ghost predicate Valid()
      reads this
    {
      && |adj| == vertices
      && WellFormed(adj)
      && (!directed ==> Symmetric(adj))
    }

    /** A graph with `vertices` vertices, no edges, and undirected. */
    constructor (vertices: nat)
      ensures Valid()
      ensures this.vertices == vertices
      ensures |adj| == vertices && forall u | 0 <= u < vertices :: adj[u] == []
      ensures !directed
    {
      this.vertices := vertices;
      adj := seq(vertices, _ => []);
      directed := false;
    }

    /** Appends `v` to the list of `u` and, for an undirected edge, `u` to
        the list of `v` (for a self-loop `u == v` both land on one list).
        A directed edge sets the sticky flag; an undirected one leaves it. */
    method AddEdge(u: nat, v: nat, directed: bool)
      requires Valid() && u < vertices && v < vertices
      modifies this
      ensures Valid()
      ensures var once := old(adj)[u := old(adj)[u] + [v]];
              adj == if directed then once else once[v := once[v] + [u]]
      ensures forall w | 0 <= w < vertices && w != u && w != v :: adj[w] == old(adj[w])
      ensures this.directed == (old(this.directed) || directed)
    {
      adj := adj[u := adj[u] + [v]];
      if !directed {
        adj := adj[v := adj[v] + [u]];
      } else {
        this.directed := true;
      }
      assert !this.directed ==> Symmetric(adj) by {
        if !this.directed {
          forall a, b | 0 <= a < |adj| && 0 <= b < |adj|
            ensures Adjacent(adj, a, b) <==> Adjacent(adj, b, a)
          {
            var before := old(adj);
            assert Adjacent(before, a, b) <==> Adjacent(before, b, a);
            assert b in adj[a] <==> b in before[a] || (a == u && b == v) || (a == v && b == u);
            assert a in adj[b] <==> a in before[b] || (b == u && a == v) || (b == v && a == u);
          }
        }
      }
    }

    /** Marks, for vertex `u`, the colour of every already coloured vertex
        that conflicts with it: its stored neighbours and, in shadow mode,
        every vertex whose list holds `u`. Only `0 .. u-1` are coloured. */
    method MarkConflicts(res: array<int>, available: array<bool>, u: nat, shadow: bool)
      requires Valid() && 1 <= u < vertices
      requires res.Length == vertices && available.Length == vertices
      requires res[..u] == GreedyPrefix(adj, u, shadow)
      requires forall k | u <= k < vertices :: res[k] == Uncolored
      requires forall col | 0 <= col < vertices :: !available[col]
      modifies available
      ensures forall col | 0 <= col < vertices ::
                available[col] <==> col in Blocked(adj, res[..u], u, shadow)
    {
      ghost var p := res[..u];
      var nbrs := adj[u];
      for j := 0 to |nbrs|
        invariant forall col | 0 <= col < vertices ::
                    available[col] <==> exists k | 0 <= k < j && nbrs[k] < u :: p[nbrs[k]] == col
      {
        var n := nbrs[j];
        if res[n] != Uncolored {
          assert n < u && res[n] == p[n];
          available[res[n]] := true;
        }
      }
      if shadow {
        for w := 0 to vertices
          invariant forall col | 0 <= col < vertices ::
                      available[col] <==> (exists k | 0 <= k < |nbrs| && nbrs[k] < u :: p[nbrs[k]] == col)
                                          || (exists x | 0 <= x < w && x < u && u in adj[x] :: p[x] == col)
        {
          if u in adj[w] && res[w] != Uncolored {
            assert w < u && res[w] == p[w];
            available[res[w]] := true;
          }
        }
      }
      forall col | 0 <= col < vertices
        ensures available[col] <==> col in Blocked(adj, p, u, shadow)
      {
        BlockedMember(adj, p, u, shadow, col);
        if col in Blocked(adj, p, u, shadow) {
          var w :| 0 <= w < u && Conflict(adj, u, w, shadow) && p[w] == col;
          if w in nbrs {
            var k :| 0 <= k < |nbrs| && nbrs[k] == w;
          }
        }
      }
    }

    /** Clears, for vertex `u` (now coloured), the mark of every coloured
        vertex that conflicts with it, found the same way as when marking.
        Afterwards no colour is marked. */
    method ClearConflicts(res: array<int>, available: array<bool>, u: nat, shadow: bool)
      requires Valid() && 1 <= u < vertices
      requires res.Length == vertices && available.Length == vertices
      requires forall k | 0 <= k <= u :: 0 <= res[k] < vertices
      requires forall k | u < k < vertices :: res[k] == Uncolored
      requires forall col | 0 <= col < vertices && available[col] ::
                 col in Blocked(adj, res[..u], u, shadow)
      modifies available
      ensures forall col | 0 <= col < vertices :: !available[col]
    {
      ghost var p := res[..u];
      var nbrs := adj[u];
      forall col | 0 <= col < vertices && available[col]
        ensures (exists k | 0 <= k < |nbrs| && nbrs[k] < u :: res[nbrs[k]] == col)
                || (shadow && exists x | 0 <= x < u && u in adj[x] :: res[x] == col)
      {
        BlockedMember(adj, p, u, shadow, col);
        var w :| 0 <= w < u && Conflict(adj, u, w, shadow) && p[w] == col;
        assert res[w] == col;
        if w in nbrs {
          var k :| 0 <= k < |nbrs| && nbrs[k] == w;
        }
      }
      for j := 0 to |nbrs|
        invariant forall col | 0 <= col < vertices && available[col] ::
                    (exists k | j <= k < |nbrs| && nbrs[k] < u :: res[nbrs[k]] == col)
                    || (shadow && exists x | 0 <= x < u && u in adj[x] :: res[x] == col)
      {
        var n := nbrs[j];
        if res[n] != Uncolored {
          available[res[n]] := false;
        }
      }
      if shadow {
        for w := 0 to vertices
          invariant forall col | 0 <= col < vertices && available[col] ::
                      exists x | w <= x < u && u in adj[x] :: res[x] == col
        {
          if u in adj[w] && res[w] != Uncolored {
            available[res[w]] := false;
          }
        }
      }
    }

    /** One pass of the colourers' loop: colours vertex `u` with the first
        colour not marked for its conflicting neighbours, and leaves the
        buffer all clear again. */
    method ColorVertex(res: array<int>, available: array<bool>, u: nat, shadow: bool)
      requires Valid() && 1 <= u < vertices
      requires res.Length == vertices && available.Length == vertices
      requires res[..u] == GreedyPrefix(adj, u, shadow)
      requires forall k | u <= k < vertices :: res[k] == Uncolored
      requires forall col | 0 <= col < vertices :: !available[col]
      modifies res, available
      ensures res[..u + 1] == GreedyPrefix(adj, u + 1, shadow)
      ensures forall k | u < k < vertices :: res[k] == Uncolored
      ensures forall col | 0 <= col < vertices :: !available[col]
    {
      ghost var p := res[..u];
      ghost var taken := Blocked(adj, p, u, shadow);
      MarkConflicts(res, available, u, shadow);
      var color := PickColor(available);
      ghost var f := FirstFree(taken, 0, vertices);
      assert GreedyPrefix(adj, u + 1, shadow) == p + [f];
      assert GreedyPrefix(adj, u + 1, shadow)[u] == f;
      assert 0 <= f < vertices && !available[f];
      assert color == f;
      res[u] := color;
      assert res[..u] == p;
      assert res[..u + 1] == p + [f];
      ClearConflicts(res, available, u, shadow);
    }

    /** The undirected greedy colouring: vertex 0 gets colour 0 and each
        later vertex, in increasing order, the first colour its already
        coloured neighbours do not hold. Every vertex is coloured, with a
        colour no larger than its id or its number of stored neighbours,
        and differs from every earlier neighbour; on an undirected graph the
        colouring is proper. */
    method GreedyColoring() returns (result: seq<int>)
      requires Valid() && 1 <= vertices
      ensures result == Greedy(adj, false)
      ensures |result| == vertices && result[0] == 0
      ensures forall u | 0 <= u < vertices :: 0 <= result[u] <= u && result[u] <= |adj[u]|
      ensures IsFirstFit(adj, result, false)
      ensures forall u, v | 0 <= v < u < vertices && v in adj[u] :: result[u] != result[v]
      ensures !directed ==>
                forall u, v | 0 <= u < vertices && 0 <= v < vertices && u != v && v in adj[u] ::
                  result[u] != result[v]
    {
      var res := new int[vertices](_ => Uncolored);
      res[0] := 0;
      var available := new bool[vertices](_ => false);
      assert res[..1] == GreedyPrefix(adj, 1, false);
      for u := 1 to vertices
        invariant res[..u] == GreedyPrefix(adj, u, false)
        invariant forall k | u <= k < vertices :: res[k] == Uncolored
        invariant forall col | 0 <= col < vertices :: !available[col]
      {
        ColorVertex(res, available, u, false);
      }
      assert res[..] == res[..vertices];
      result := res[..];
      GreedyIsFirstFit(adj, false);
      GreedyDegreeBound(adj);
      GreedyEarlierConflictsDiffer(adj, false);
      forall u, v | 0 <= v < u < vertices && v in adj[u] ensures result[u] != result[v] {
        assert Conflict(adj, u, v, false);
      }
      if !directed {
        GreedyProperOnSymmetric(adj);
      }
    }

    /** The directed greedy colouring: without any directed edge it is the
        undirected colouring; otherwise a vertex also avoids the colours of
        the earlier vertices whose lists hold it. Either way it is the
        shadow colouring, and two distinct vertices joined by a stored edge
        in either direction never share a colour. */
    method GreedyColoringDirected() returns (result: seq<int>)
      requires Valid() && 1 <= vertices
      ensures !directed ==> result == Greedy(adj, false)
      ensures result == Greedy(adj, true)
      ensures |result| == vertices && result[0] == 0
      ensures forall u | 0 <= u < vertices :: 0 <= result[u] <= u
      ensures IsFirstFit(adj, result, true)
      ensures forall u | 0 <= u < vertices :: result[u] <= |adj[u]| + |InNeighbours(adj, u)|
      ensures forall a, b | 0 <= a < vertices && 0 <= b < vertices && a != b && b in adj[a] ::
                result[a] != result[b]
    {
      if !directed {
        result := GreedyColoring();
        ShadowIrrelevantWhenSymmetric(adj, vertices);
        GreedyIsFirstFit(adj, true);
        GreedyShadowProper(adj);
        GreedyShadowDegreeBound(adj);
        return;
      }
      var res := new int[vertices](_ => Uncolored);
      res[0] := 0;
      var available := new bool[vertices](_ => false);
      assert res[..1] == GreedyPrefix(adj, 1, true);
      for u := 1 to vertices
        invariant res[..u] == GreedyPrefix(adj, u, true)
        invariant forall k | u <= k < vertices :: res[k] == Uncolored
        invariant forall col | 0 <= col < vertices :: !available[col]
      {
        ColorVertex(res, available, u, true);
      }
      assert res[..] == res[..vertices];
      result := res[..];
      GreedyIsFirstFit(adj, true);
      GreedyShadowProper(adj);
      GreedyShadowDegreeBound(adj);
    }

    /** Colouring does not change the graph, so colouring twice gives the
        same colours both times, for either colourer. */
    method ColorTwice() returns (first: seq<int>, second: seq<int>, firstDirected: seq<int>, secondDirected: seq<int>)
      requires Valid() && 1 <= vertices
      ensures first == second && firstDirected == secondDirected
    {
      first := GreedyColoring();
      firstDirected := GreedyColoringDirected();
      second := GreedyColoring();
      secondDirected := GreedyColoringDirected();
    }
  }

  /** The first colour whose mark is clear, scanning `0, 1, 2, ...`;
      `Uncolored` when every colour is marked. */
  method PickColor(available: array<bool>) returns (color: int)
    ensures color == Uncolored ==> forall col | 0 <= col < available.Length :: available[col]
    ensures color != Uncolored ==> 0 <= color < available.Length && !available[color]
    ensures color != Uncolored ==> forall col | 0 <= col < color :: available[col]
  {
    color := Uncolored;
    for c := 0 to available.Length
      invariant forall col | 0 <= col < c :: available[col]
    {
      if !available[c] {
        color := c;
        return;
      }
    }
  }
}
