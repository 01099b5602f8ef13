/**
 * What the engine answers on particular families of graphs: the graph
 * with no edges, the complete graph (the triangle among them) and the
 * 4-cycle.  Each is stated once about the mathematics and once end to
 * end, by generating the graph from a fixed sequence of draws and
 * running the search on it, as the two buttons of the window do.
 */
module Scenarios {
  import opened Coloring
  import opened RandomPairs
  import opened GraphColoring

  predicate NoEdges(G: Matrix) {
    forall a, b :: 0 <= a < |G| && 0 <= b < |G| ==> !Adjacent(G, a, b)
  }

  predicate IsComplete(G: Matrix) {
    forall a, b :: 0 <= a < |G| && 0 <= b < |G| && a != b ==> Adjacent(G, a, b)
  }

  /** Pairwise distinct values drawn from 1..k number at most k (pigeonhole). */
  lemma {:induction false} DistinctColorsBound(c: seq<int>, k: int)
    requires 0 <= k
    requires forall i, j :: 0 <= i < j < |c| ==> c[i] != c[j]
    requires ColorsInRange(c, 0, k)
    ensures |c| <= k
    decreases |c|
  {
    if |c| > 0 {
      var last := c[|c| - 1];
      // Drop the last value and move whoever held colour k onto it.
      var rest := seq(|c| - 1, i requires 0 <= i < |c| - 1 => if c[i] == k then last else c[i]);
      forall i, j | 0 <= i < j < |rest|
        ensures rest[i] != rest[j]
      {
        assert c[i] != c[j] && c[i] != last && c[j] != last;
      }
      forall i | 0 <= i < |rest|
        ensures 1 <= rest[i] <= k - 1
      {
        assert c[i] != last;
      }
      DistinctColorsBound(rest, k - 1);
    }
  }

  /**
   * Without edges one colour suffices, so a minimal budget is 1 and the
   * only colouring with it gives every vertex colour 1.
   */
  lemma EdgelessGraphNeedsOneColor(G: Matrix, c: seq<int>, k: int)
    requires |G| >= 1 && NoEdges(G)
    requires IsColoring(G, c, k) && !Colorable(G, k - 1)
    ensures k == 1 && c == seq(|G|, _ => 1)
  {
    var ones := seq(|G|, _ => 1);
    assert 1 <= c[0] <= k;
    assert IsColoring(G, ones, 1);
    if k >= 2 {
      ColorableMonotone(G, 1, k - 1);
    }
    assert forall i :: 0 <= i < |G| ==> c[i] == ones[i];
  }

  /**
   * In a complete graph every vertex needs its own colour: a minimal
   * budget is |G| and the least colouring numbers the vertices 1..|G| in
   * index order.
   */
  lemma CompleteGraphNeedsAllColors(G: Matrix, c: seq<int>, k: int)
    requires WellFormed(G) && |G| >= 1 && IsComplete(G)
    requires FirstColoring(G, c, k) && !Colorable(G, k - 1)
    ensures k == |G|
    ensures c == seq(|G|, i => i + 1)
  {
    var n := |G|;
    assert 1 <= c[0] <= k;
    forall i, j | 0 <= i < j < n
      ensures c[i] != c[j]
    {
      assert Adjacent(G, i, j);
    }
    DistinctColorsBound(c, k);
    if k > n {
      DistinctColorsSuffice(G, k - 1);
    }
    var id := seq(n, i => i + 1);
    assert IsColoring(G, id, k);
    if c != id {
      // The first difference would give vertex i a colour 1..i that an
      // earlier, adjacent vertex already holds.
      var i :| 0 <= i < n && c[..i] == id[..i] && c[i] < id[i];
      SamePrefixAt(c, id, i, c[i] - 1);
    }
  }

  /** The 4-cycle 0-1-2-3-0 needs two colours and is first coloured 1, 2, 1, 2. */
  lemma FourCycleFirstColoring(G: Matrix, c: seq<int>, k: int)
    requires WellFormed(G) && |G| == 4
    requires G[0][1] == 1 && G[1][2] == 1 && G[2][3] == 1 && G[0][3] == 1
    requires G[0][2] == 0 && G[1][3] == 0
    requires FirstColoring(G, c, k) && !Colorable(G, k - 1)
    ensures k == 2 && c == [1, 2, 1, 2]
  {
    var alt := [1, 2, 1, 2];
    forall a, b | 0 <= a < 4 && 0 <= b < 4 && Adjacent(G, a, b)
      ensures alt[a] != alt[b]
    {
      assert G[a][b] == G[b][a];
    }
    assert IsColoring(G, alt, 2);
    assert Adjacent(G, 0, 1);
    if k > 2 {
      ColorableMonotone(G, 2, k - 1);
    }
    assert LexLeq(c, alt);
  }

  /** Every draw 0 gives the graph without edges. */
  method EdgelessScenario(n: int) returns (minColors: int, coloring: seq<int>)
    requires n >= 1
    ensures minColors == 1 && coloring == seq(n, _ => 1)
  {
    var w := new MainWindow();
    var draws := seq(PairCount(n), _ => 0);
    var _ := w.GenerateRandomGraph(n, draws);
    forall a, b | 0 <= a < n && 0 <= b < n
      ensures !Adjacent(w.Adjacency, a, b)
    {
      if a < b {
        PairIndexInRange(n, a, b);
      } else if b < a {
        PairIndexInRange(n, b, a);
      }
      assert w.graph[a, b] == DrawnEntry(draws, n, a, b);
    }
    minColors := w.FindMinColors();
    coloring := w.colors[..];
    EdgelessGraphNeedsOneColor(w.Adjacency, coloring, minColors);
  }

  /** Every draw 1 gives the complete graph; n == 3 is the triangle. */
  method CompleteScenario(n: int) returns (minColors: int, coloring: seq<int>)
    requires n >= 1
    ensures minColors == n && coloring == seq(n, i => i + 1)
  {
    var w := new MainWindow();
    var draws := seq(PairCount(n), _ => 1);
    var _ := w.GenerateRandomGraph(n, draws);
    forall a, b | 0 <= a < n && 0 <= b < n && a != b
      ensures Adjacent(w.Adjacency, a, b)
    {
      if a < b {
        PairIndexInRange(n, a, b);
      } else if b < a {
        PairIndexInRange(n, b, a);
      }
      assert w.graph[a, b] == DrawnEntry(draws, n, a, b);
    }
    minColors := w.FindMinColors();
    coloring := w.colors[..];
    CompleteGraphNeedsAllColors(w.Adjacency, coloring, minColors);
  }

  /** Draws for pairs (0,1), (0,2), (0,3), (1,2), (1,3), (2,3): the 4-cycle. */
  method FourCycleScenario() returns (minColors: int, coloring: seq<int>)
    ensures minColors == 2 && coloring == [1, 2, 1, 2]
  {
    var w := new MainWindow();
    var _ := w.GenerateRandomGraph(4, [1, 0, 1, 1, 0, 1]);
    minColors := w.FindMinColors();
    coloring := w.colors[..];
    assert w.graph[0, 1] == 1 && w.graph[1, 2] == 1 && w.graph[2, 3] == 1 && w.graph[0, 3] == 1;
    assert w.graph[0, 2] == 0 && w.graph[1, 3] == 0;
    FourCycleFirstColoring(w.Adjacency, coloring, minColors);
  }
}
