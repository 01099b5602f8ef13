/**
 * The graph-colouring engine of the GraphColoring window: the adjacency
 * matrix and colour array it keeps as fields, random graph generation,
 * the safety check, the backtracking search for a fixed colour budget
 * and the iterative deepening that finds the chromatic number.
 */
module GraphColoring {
  import opened Coloring
  import opened RandomPairs

  /**
   * The window's engine state.  Widgets, drawing and the event handlers
   * that call these methods are not modelled.
   */
  class MainWindow {
    /** The adjacency matrix; graph[i, j] == 1 joins vertices i and j. */
    var graph: array2<int>
    /** The colour of each vertex; 0 means not coloured yet. */
    var colors: array<int>
    var verticesCount: int
    /** The contents of `graph` as a value. */
    ghost var Adjacency: Matrix

    /**
     * The engine invariant: both arrays are sized by verticesCount, `graph`
     * holds Adjacency, and Adjacency is an undirected simple graph with
     * 0/1 entries.
     */
    ghost predicate Valid()
      reads this, graph
    {
      && graph.Length0 == verticesCount
      && graph.Length1 == verticesCount
      && colors.Length == verticesCount
      && |Adjacency| == verticesCount
      && WellFormed(Adjacency)
      && forall a, b :: 0 <= a < verticesCount && 0 <= b < verticesCount ==> graph[a, b] == Adjacency[a][b]
    }

    /** Before the first generation the engine holds the empty graph. */
    constructor ()
      ensures Valid() && verticesCount == 0
    {
      graph := new int[0, 0];
      colors := new int[0];
      verticesCount := 0;
      Adjacency := [];
    }

    /**
     * Builds a fresh count-vertex graph whose pair {i, j}, i < j, is
     * joined exactly when the draw at that pair's row-major position is 1,
     * and clears every colour.  `draws` stands for the successive results
     * of `random.Next(0, 2)`; `used` is how many of them it consumes.
     */
    method GenerateRandomGraph(count: int, draws: seq<Bit>) returns (used: nat)
      requires count >= 0
      requires PairCount(count) <= |draws|
      modifies this
      ensures used == PairCount(count)
      ensures Valid()
      ensures verticesCount == count && fresh(graph) && fresh(colors)
      ensures forall a, b :: 0 <= a < count && 0 <= b < count ==>
                graph[a, b] == DrawnEntry(draws, count, a, b)
      ensures forall v :: 0 <= v < count ==> colors[v] == 0
    {
      graph := new int[count, count]((_, _) => 0);
      colors := new int[count](_ => 0);
      verticesCount := count;
      var next := 0;
      for i := 0 to count
        modifies graph
        invariant next == RowStart(count, i)
        invariant forall a, b :: 0 <= a < count && 0 <= b < count ==>
                    graph[a, b] == (if a < i || b < i then DrawnEntry(draws, count, a, b) else 0)
      {
        for j := i + 1 to count
          modifies graph
          invariant next == RowStart(count, i) + (j - i - 1)
          invariant forall a, b :: 0 <= a < count && 0 <= b < count ==>
                      graph[a, b] == (if a < i || b < i || (a == i && b < j) || (b == i && a < j)
                                      then DrawnEntry(draws, count, a, b) else 0)
        {
          PairIndexInRange(count, i, j);
          var bit := draws[next];
          next := next + 1;
          graph[j, i] := bit;
          graph[i, j] := bit;
        }
      }
      assert next == PairCount(count);
      used := next;
      Adjacency := seq(count, a requires 0 <= a < count =>
        seq(count, b requires 0 <= b < count => DrawnEntry(draws, count, a, b)));
    }

    /** Whether no neighbour of vertex already holds color. */
    method IsSafe(vertex: int, color: int) returns (safe: bool)
      requires Valid() && 0 <= vertex < verticesCount
      ensures safe <==> forall i :: 0 <= i < verticesCount ==> !(graph[vertex, i] == 1 && colors[i] == color)
    {
      var i := 0;
      while i < verticesCount
        invariant 0 <= i <= verticesCount
        invariant forall u :: 0 <= u < i ==> !(graph[vertex, u] == 1 && colors[u] == color)
      {
        if graph[vertex, i] == 1 && colors[i] == color {
          return false;
        }
        i := i + 1;
      }
      return true;
    }

    /**
     * Backtracking search with colours 1..maxColors from vertex on.  The
     * colours of vertices before `vertex` must be proper among themselves
     * and every later vertex must still be uncoloured (0), because IsSafe
     * looks at all vertices, not only the earlier ones.  The search
     * succeeds exactly when the given prefix can be completed, leaves the
     * lexicographically least completion in `colors` when it does, and
     * restores `colors` entirely when it does not.
     */
    method ColorGraph(vertex: int, maxColors: int) returns (found: bool)
      requires Valid()
      requires 0 <= vertex <= verticesCount
      requires ProperUpTo(Adjacency, colors[..], vertex)
      requires forall v :: vertex <= v < verticesCount ==> colors[v] == 0
      modifies colors
      ensures Valid()
      ensures found == Extendable(Adjacency, old(colors[..vertex]), maxColors)
      ensures found ==> FirstExtension(Adjacency, colors[..], old(colors[..vertex]), maxColors)
      ensures !found ==> colors[..] == old(colors[..])
      decreases verticesCount - vertex
    {
      if vertex == verticesCount {
        assert colors[..vertex] == colors[..];
        CompleteIsFirst(Adjacency, colors[..], maxColors);
        return true;
      }
      ghost var G := Adjacency;
      ghost var p := colors[..vertex];
      var color := 1;
      while color <= maxColors
        invariant 1 <= color
        invariant colors[..] == old(colors[..])
        invariant forall smaller :: 1 <= smaller < color ==> !Extendable(G, p + [smaller], maxColors)
        decreases maxColors - color
      {
        var safe := IsSafe(vertex, color);
        if safe {
          ghost var before := colors[..];
          assert ProperUpTo(G, before[vertex := color], vertex + 1) by {
            forall i | 0 <= i < |G|
              ensures !(Adjacent(G, vertex, i) && before[i] == color)
            {
              assert G[vertex][i] == graph[vertex, i];
            }
            SafeColorKeepsProper(G, before, vertex, color);
          }
          colors[vertex] := color;
          assert colors[..] == before[vertex := color];
          assert colors[..vertex + 1] == p + [color];
          var ok := ColorGraph(vertex + 1, maxColors);
          if ok {
            ghost var c := colors[..];
            assert FirstExtension(G, c, p, maxColors) && Extendable(G, p, maxColors) by {
              assert FirstExtension(G, c, p + [color], maxColors);
              FirstExtensionStep(G, c, p, color, maxColors);
            }
            return true;
          }
          assert !Extendable(G, p + [color], maxColors);
          colors[vertex] := 0;
          assert colors[..] == before;
        } else {
          assert !Extendable(G, p + [color], maxColors) by {
            ghost var i :| 0 <= i < verticesCount && graph[vertex, i] == 1 && colors[i] == color;
            assert G[vertex][i] == graph[vertex, i];
            ConflictBlocksColor(G, p, color, i, maxColors);
          }
        }
        color := color + 1;
      }
      NoColorNoExtension(G, p, maxColors);
      return false;
    }

    /**
     * Iterative deepening over the colour budget: tries budgets 1, 2, ...
     * until the search succeeds.  The result is the chromatic number (for
     * a graph with at least one vertex), and `colors` holds the
     * lexicographically least proper colouring with that many colours.
     * Every colour must be 0 on entry, as after generation.
     */
    method FindMinColors() returns (minColors: int)
      requires Valid()
      requires forall v :: 0 <= v < verticesCount ==> colors[v] == 0
      modifies colors
      ensures Valid()
      ensures 1 <= minColors
      ensures verticesCount >= 1 ==> minColors <= verticesCount && !Colorable(Adjacency, minColors - 1)
      ensures verticesCount == 0 ==> minColors == 1
      ensures FirstColoring(Adjacency, colors[..], minColors)
    {
      var colorCount := 1;
      if verticesCount >= 1 {
        NoColoringWithoutColors(Adjacency);
      }
      while true
        invariant 1 <= colorCount && (colorCount == 1 || colorCount <= verticesCount)
        invariant forall v :: 0 <= v < verticesCount ==> colors[v] == 0
        invariant verticesCount >= 1 ==> !Colorable(Adjacency, colorCount - 1)
        decreases verticesCount + 1 - colorCount
      {
        var found := ColorGraph(0, colorCount);
        assert old(colors[..0]) == [];
        if found {
          return colorCount;
        }
        if colorCount >= verticesCount {
          DistinctColorsSuffice(Adjacency, colorCount);
        }
        colorCount := colorCount + 1;
      }
    }
  }
}
