/**
 * The mathematics behind the colouring engine of MainWindow: adjacency
 * matrices, proper colourings, partial colourings that can be completed,
 * and the lexicographic order in which the backtracking search meets
 * complete colourings.  Everything here is a value; the engine in
 * engine.dfy is specified in these terms.
 */
module Coloring {

  /** An adjacency matrix: row a, column b holds 1 when a and b are joined. */
  type Matrix = seq<seq<int>>

  predicate IsSquare(G: Matrix) {
    forall a :: 0 <= a < |G| ==> |G[a]| == |G|
  }

  /** a and b are vertices of G and the matrix joins them. */
  predicate Adjacent(G: Matrix, a: int, b: int) {
    0 <= a < |G| && 0 <= b < |G[a]| && G[a][b] == 1
  }

  /**
   * The shape every generated graph has: a square 0/1 matrix that is
   * symmetric and has no self-loops (an undirected simple graph).
   */
  predicate WellFormed(G: Matrix) {
    && IsSquare(G)
    && (forall a, b :: 0 <= a < |G| && 0 <= b < |G| ==> G[a][b] == G[b][a])
    && (forall a :: 0 <= a < |G| ==> G[a][a] == 0)
    && (forall a, b :: 0 <= a < |G| && 0 <= b < |G| ==> G[a][b] == 0 || G[a][b] == 1)
  }

  /** No edge between two of the first v vertices joins two equal colours. */
  predicate ProperUpTo(G: Matrix, c: seq<int>, v: int) {
    && 0 <= v <= |c|
    && forall a, b :: 0 <= a < v && 0 <= b < v && Adjacent(G, a, b) ==> c[a] != c[b]
  }

  /** c gives every vertex a value and no edge joins two equal values. */
  predicate Proper(G: Matrix, c: seq<int>) {
    |c| == |G| && ProperUpTo(G, c, |G|)
  }

  /** Every entry of c from index `from` on is one of the colours 1..k. */
  predicate ColorsInRange(c: seq<int>, from: int, k: int) {
    forall i :: 0 <= from <= i < |c| ==> 1 <= c[i] <= k
  }

  /**
   * d completes the partial colouring p (the colours of vertices
   * 0..|p|-1) into a proper colouring that uses only colours 1..k on the
   * remaining vertices.
   */
  predicate IsExtension(G: Matrix, d: seq<int>, p: seq<int>, k: int) {
    && |p| <= |d| == |G|
    && d[..|p|] == p
    && Proper(G, d)
    && ColorsInRange(d, |p|, k)
  }

  /** Some proper completion of p with colours 1..k exists. */
  ghost predicate Extendable(G: Matrix, p: seq<int>, k: int) {
    exists d :: IsExtension(G, d, p, k)
  }

  /** A proper k-colouring is a completion of the empty partial colouring. */
  predicate IsColoring(G: Matrix, c: seq<int>, k: int) {
    IsExtension(G, c, [], k)
  }

  /** G has a proper colouring with colours 1..k. */
  ghost predicate Colorable(G: Matrix, k: int) {
    Extendable(G, [], k)
  }

  /** Lexicographic order on colour sequences. */
  predicate LexLeq(a: seq<int>, b: seq<int>) {
    a == b || exists i :: 0 <= i < |a| && i < |b| && a[..i] == b[..i] && a[i] < b[i]
  }

  /** Sequences that agree on their first i entries agree at every j < i. */
  lemma SamePrefixAt(s: seq<int>, t: seq<int>, i: int, j: int)
    requires 0 <= j < i <= |s| && i <= |t| && s[..i] == t[..i]
    ensures s[j] == t[j]
  {
  }

  /**
   * c is the lexicographically least completion of p: the one a search
   * that visits vertices in index order and tries colours in ascending
   * order meets first.
   */
  ghost predicate FirstExtension(G: Matrix, c: seq<int>, p: seq<int>, k: int) {
    IsExtension(G, c, p, k) && forall d :: IsExtension(G, d, p, k) ==> LexLeq(c, d)
  }

  /** A prefix has at most one least completion, so "the" least completion is well defined. */
  lemma FirstExtensionUnique(G: Matrix, c: seq<int>, d: seq<int>, p: seq<int>, k: int)
    requires FirstExtension(G, c, p, k) && FirstExtension(G, d, p, k)
    ensures c == d
  {
  }

  /** c is the lexicographically least proper k-colouring of G. */
  ghost predicate FirstColoring(G: Matrix, c: seq<int>, k: int) {
    FirstExtension(G, c, [], k)
  }

  /** Giving vertex v a colour no neighbour holds keeps the colouring proper on 0..v. */
  lemma SafeColorKeepsProper(G: Matrix, c: seq<int>, v: int, color: int)
    requires WellFormed(G) && |c| == |G| && 0 <= v < |G|
    requires ProperUpTo(G, c, v)
    requires forall i :: 0 <= i < |G| ==> !(Adjacent(G, v, i) && c[i] == color)
    ensures ProperUpTo(G, c[v := color], v + 1)
  {
  }

  /** A colour that a neighbour among the first |p| vertices already holds cannot be completed. */
  lemma ConflictBlocksColor(G: Matrix, p: seq<int>, color: int, i: int, k: int)
    requires 0 <= i < |p| < |G|
    requires Adjacent(G, |p|, i) && p[i] == color
    ensures !Extendable(G, p + [color], k)
  {
  }

  /**
   * If no colour 1..k for vertex |p| can be completed, p cannot be
   * completed either: every completion gives vertex |p| one of them.
   */
  lemma NoColorNoExtension(G: Matrix, p: seq<int>, k: int)
    requires |p| < |G|
    requires forall color :: 1 <= color <= k ==> !Extendable(G, p + [color], k)
    ensures !Extendable(G, p, k)
  {
    if d :| IsExtension(G, d, p, k) {
      var color := d[|p|];
      assert d[..|p| + 1] == p + [color];
      assert IsExtension(G, d, p + [color], k);
    }
  }

  /**
   * The least completion of p + [color], when every smaller colour at
   * vertex |p| is a dead end, is the least completion of p.
   */
  lemma FirstExtensionStep(G: Matrix, c: seq<int>, p: seq<int>, color: int, k: int)
    requires FirstExtension(G, c, p + [color], k)
    requires 1 <= color <= k
    requires forall smaller :: 1 <= smaller < color ==> !Extendable(G, p + [smaller], k)
    ensures FirstExtension(G, c, p, k)
  {
    var v := |p|;
    assert c[..v] == c[..v + 1][..v];
    assert IsExtension(G, c, p, k);
    forall e | IsExtension(G, e, p, k)
      ensures LexLeq(c, e)
    {
      assert e[..v + 1] == p + [e[v]];
      if e[v] < color {
        assert IsExtension(G, e, p + [e[v]], k);
        assert false;
      } else if e[v] == color {
        assert IsExtension(G, e, p + [color], k);
      } else {
        assert c[..v] == e[..v] && c[v] < e[v];
      }
    }
  }

  /** A complete proper colouring is its own (and only) completion. */
  lemma CompleteIsFirst(G: Matrix, c: seq<int>, k: int)
    requires Proper(G, c)
    ensures FirstExtension(G, c, c, k)
  {
  }

  /** Giving every vertex its own colour is proper, so |G| colours always suffice. */
  lemma DistinctColorsSuffice(G: Matrix, k: int)
    requires WellFormed(G) && |G| <= k
    ensures Colorable(G, k)
  {
    var d := seq(|G|, i => i + 1);
    assert IsExtension(G, d, [], k);
  }

  /** A colouring with j colours is also one with any k >= j colours. */
  lemma ColorableMonotone(G: Matrix, j: int, k: int)
    requires j <= k && Colorable(G, j)
    ensures Colorable(G, k)
  {
    var d :| IsExtension(G, d, [], j);
    assert IsExtension(G, d, [], k);
  }

  /** A graph with at least one vertex has no colouring without colours. */
  lemma NoColoringWithoutColors(G: Matrix)
    requires |G| >= 1
    ensures !Colorable(G, 0)
  {
    forall d | |d| == |G|
      ensures !ColorsInRange(d, 0, 0)
    {
      assert !(1 <= d[0] <= 0);
    }
  }

  /**
   * A budget k that suffices while k - 1 does not is the chromatic
   * number: exactly the budgets below k fail.
   */
  lemma LeastBudget(G: Matrix, k: int)
    requires Colorable(G, k) && !Colorable(G, k - 1)
    ensures forall j :: Colorable(G, j) <==> k <= j
  {
    forall j
      ensures Colorable(G, j) <==> k <= j
    {
      if k <= j {
        ColorableMonotone(G, k, j);
      } else if Colorable(G, j) {
        ColorableMonotone(G, j, k - 1);
      }
    }
  }
}
