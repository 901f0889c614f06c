/** The graphs of the repository's unit tests and of the directed example in
    the documentation of the directed colourer, with the colourings the
    greedy passes give them. Each colouring is shown to be first-fit, which
    by `FirstFitDeterminesColoring` makes it the greedy colouring. */
module Scenarios {
  import opened GreedySpec
  import opened GraphModel

  /** Undirected 5-cycle 0-1-2-3-4-0 with the chord 1-4. */
  lemma CycleWithChord()
    ensures Greedy([[1, 4], [0, 2, 4], [1, 3], [2, 4], [3, 0, 1]], false) == [0, 1, 0, 1, 2]
  {
    var adj: seq<seq<nat>> := [[1, 4], [0, 2, 4], [1, 3], [2, 4], [3, 0, 1]];
    var c := [0, 1, 0, 1, 2];
    forall u | 1 <= u < |c| ensures FirstFitAt(adj, c, u, false) {
      assert u == 1 || u == 2 || u == 3 || u == 4;
      forall col | 0 <= col < c[u] ensures HeldBefore(adj, c, u, false, col) {
        if u == 4 && col == 1 {
          assert Conflict(adj, 4, 1, false) && c[1] == 1;
        } else if u == 4 {
          assert Conflict(adj, 4, 0, false) && c[0] == 0;
        } else {
          assert Conflict(adj, u, u - 1, false) && c[u - 1] == col;
        }
      }
    }
    FirstFitDeterminesColoring(adj, c, false);
  }

  /** Six vertices, undirected edges 0-1 and 2-3 only. */
  lemma TwoUndirectedEdges()
    ensures Greedy([[1], [0], [3], [2], [], []], false) == [0, 1, 0, 1, 0, 0]
  {
    var adj: seq<seq<nat>> := [[1], [0], [3], [2], [], []];
    var c := [0, 1, 0, 1, 0, 0];
    forall u | 1 <= u < |c| ensures FirstFitAt(adj, c, u, false) {
      assert u == 1 || u == 2 || u == 3 || u == 4 || u == 5;
      forall col | 0 <= col < c[u] ensures HeldBefore(adj, c, u, false, col) {
        assert Conflict(adj, u, u - 1, false) && c[u - 1] == col;
      }
    }
    FirstFitDeterminesColoring(adj, c, false);
  }

  /** Directed 5-cycle 0->1->2->3->4->0, coloured against its shadow. */
  lemma DirectedFiveCycle()
    ensures Greedy([[1], [2], [3], [4], [0]], true) == [0, 1, 0, 1, 2]
  {
    var adj: seq<seq<nat>> := [[1], [2], [3], [4], [0]];
    var c := [0, 1, 0, 1, 2];
    forall u | 1 <= u < |c| ensures FirstFitAt(adj, c, u, true) {
      assert u == 1 || u == 2 || u == 3 || u == 4;
      forall w | 0 <= w < u ensures Conflict(adj, u, w, true) ==> c[w] != c[u] {
        assert w == 0 || w == 1 || w == 2 || w == 3;
      }
      forall col | 0 <= col < c[u] ensures HeldBefore(adj, c, u, true, col) {
        if u == 4 && col == 0 {
          assert Conflict(adj, 4, 0, true) && c[0] == 0;
        } else {
          assert Conflict(adj, u, u - 1, true) && c[u - 1] == col;
        }
      }
    }
    FirstFitDeterminesColoring(adj, c, true);
  }

  /** Six vertices, directed edges 0->1 and 2->3 only. */
  lemma TwoDirectedEdges()
    ensures Greedy([[1], [], [3], [], [], []], true) == [0, 1, 0, 1, 0, 0]
  {
    var adj: seq<seq<nat>> := [[1], [], [3], [], [], []];
    var c := [0, 1, 0, 1, 0, 0];
    forall u | 1 <= u < |c| ensures FirstFitAt(adj, c, u, true) {
      assert u == 1 || u == 2 || u == 3 || u == 4 || u == 5;
      forall w | 0 <= w < u ensures Conflict(adj, u, w, true) ==> c[w] != c[u] {
        assert w == 0 || w == 1 || w == 2 || w == 3 || w == 4;
      }
      forall col | 0 <= col < c[u] ensures HeldBefore(adj, c, u, true, col) {
        assert Conflict(adj, u, u - 1, true) && c[u - 1] == col;
      }
    }
    FirstFitDeterminesColoring(adj, c, true);
  }

  /** Undirected 6-cycle 0-1-2-3-4-5-0. */
  lemma EvenCycle()
    ensures Greedy([[1, 5], [0, 2], [1, 3], [2, 4], [3, 5], [4, 0]], false) == [0, 1, 0, 1, 0, 1]
  {
    var adj: seq<seq<nat>> := [[1, 5], [0, 2], [1, 3], [2, 4], [3, 5], [4, 0]];
    var c := [0, 1, 0, 1, 0, 1];
    forall u | 1 <= u < |c| ensures FirstFitAt(adj, c, u, false) {
      assert u == 1 || u == 2 || u == 3 || u == 4 || u == 5;
      forall col | 0 <= col < c[u] ensures HeldBefore(adj, c, u, false, col) {
        assert Conflict(adj, u, u - 1, false) && c[u - 1] == col;
      }
    }
    FirstFitDeterminesColoring(adj, c, false);
  }

  /** Undirected path 0-1-2-3. */
  lemma PathOfFour()
    ensures Greedy([[1], [0, 2], [1, 3], [2]], false) == [0, 1, 0, 1]
  {
    var adj: seq<seq<nat>> := [[1], [0, 2], [1, 3], [2]];
    var c := [0, 1, 0, 1];
    forall u | 1 <= u < |c| ensures FirstFitAt(adj, c, u, false) {
      assert u == 1 || u == 2 || u == 3;
      forall col | 0 <= col < c[u] ensures HeldBefore(adj, c, u, false, col) {
        assert Conflict(adj, u, u - 1, false) && c[u - 1] == col;
      }
    }
    FirstFitDeterminesColoring(adj, c, false);
  }

  /** Directed chain 0->1->2->3->4: each vertex sees only its predecessor,
      so the colours alternate rather than increase. */
  lemma DirectedChain()
    ensures Greedy([[1], [2], [3], [4], []], true) == [0, 1, 0, 1, 0]
    ensures Greedy([[1], [2], [3], [4], []], true) != [0, 1, 2, 3, 4]
  {
    var adj: seq<seq<nat>> := [[1], [2], [3], [4], []];
    var c := [0, 1, 0, 1, 0];
    forall u | 1 <= u < |c| ensures FirstFitAt(adj, c, u, true) {
      assert u == 1 || u == 2 || u == 3 || u == 4;
      forall w | 0 <= w < u ensures Conflict(adj, u, w, true) ==> c[w] != c[u] {
        assert w == 0 || w == 1 || w == 2 || w == 3;
      }
      forall col | 0 <= col < c[u] ensures HeldBefore(adj, c, u, true, col) {
        assert Conflict(adj, u, u - 1, true) && c[u - 1] == col;
      }
    }
    FirstFitDeterminesColoring(adj, c, true);
    assert c[2] != 2;
  }

  /** The first unit test: builds the chorded 5-cycle with `AddEdge` and
      calls the undirected colourer on it. */
  method TestUndirectedColoring() returns (result: seq<int>)
    ensures result == [0, 1, 0, 1, 2]
  {
    var g := new Graph(5);
    g.AddEdge(0, 1, false);
    assert g.adj[0] == [1] && g.adj[1] == [0];
    g.AddEdge(1, 2, false);
    assert g.adj[1] == [0, 2] && g.adj[2] == [1];
    g.AddEdge(2, 3, false);
    assert g.adj[2] == [1, 3] && g.adj[3] == [2];
    g.AddEdge(3, 4, false);
    assert g.adj[3] == [2, 4] && g.adj[4] == [3];
    g.AddEdge(4, 0, false);
    assert g.adj[4] == [3, 0] && g.adj[0] == [1, 4];
    g.AddEdge(1, 4, false);
    assert g.adj[1] == [0, 2, 4] && g.adj[4] == [3, 0, 1];
    assert |g.adj| == 5 && g.adj[0] == [1, 4] && g.adj[1] == [0, 2, 4] && g.adj[2] == [1, 3] && g.adj[3] == [2, 4] && g.adj[4] == [3, 0, 1];
    assert g.adj == [[1, 4], [0, 2, 4], [1, 3], [2, 4], [3, 0, 1]];
    result := g.GreedyColoring();
    CycleWithChord();
  }

  /** The directed-cycle unit test: builds the directed 5-cycle with
      `AddEdge` and calls the directed colourer on it. */
  method TestDirectedColoring() returns (result: seq<int>)
    ensures result == [0, 1, 0, 1, 2]
  {
    var g := new Graph(5);
    g.AddEdge(0, 1, true);
    assert g.adj[0] == [1];
    g.AddEdge(1, 2, true);
    assert g.adj[1] == [2];
    g.AddEdge(2, 3, true);
    assert g.adj[2] == [3];
    g.AddEdge(3, 4, true);
    assert g.adj[3] == [4];
    g.AddEdge(4, 0, true);
    assert g.adj[4] == [0];
    assert |g.adj| == 5 && g.adj[0] == [1] && g.adj[1] == [2] && g.adj[2] == [3] && g.adj[3] == [4] && g.adj[4] == [0];
    assert g.adj == [[1], [2], [3], [4], [0]];
    assert g.directed;
    result := g.GreedyColoringDirected();
    DirectedFiveCycle();
  }
}
