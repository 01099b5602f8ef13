/**
 * The random source of graph generation as a value.  The generator draws
 * one bit (`random.Next(0, 2)`) per pair of vertices i < j, walking the
 * pairs row by row: (0,1), (0,2), ..., (0,n-1), (1,2), ...  This module
 * numbers the pairs in that order and says which draw decides which
 * matrix entry.
 */
module RandomPairs {

  /** One outcome of `random.Next(0, 2)`. */
  type Bit = x: int | 0 <= x <= 1

  /** The number of pairs (r, s), r < s < n, in rows r < i: the draws made before row i. */
  function RowStart(n: nat, i: nat): nat
    requires i <= n
  {
    if i == 0 then 0 else RowStart(n, i - 1) + (n - i)
  }

  lemma {:induction false} RowStartFormula(n: nat, i: nat)
    requires i <= n
    ensures 2 * RowStart(n, i) == i * (2 * n - i - 1)
  {
    if i > 0 {
      RowStartFormula(n, i - 1);
      calc {
        2 * RowStart(n, i);
        2 * RowStart(n, i - 1) + 2 * (n - i);
        (i - 1) * (2 * n - i) + 2 * (n - i);
        i * (2 * n - i - 1);
      }
    }
  }

  /** The number of draws one generation of an n-vertex graph makes. */
  function PairCount(n: nat): (count: nat)
    ensures 2 * count == n * (n - 1)
  {
    RowStartFormula(n, n);
    RowStart(n, n)
  }

  /** The position, in draw order, of the draw for pair (i, j). */
  function PairIndex(n: nat, i: nat, j: nat): nat
    requires i < j < n
  {
    RowStart(n, i) + (j - i - 1)
  }

  /** Row i and everything before it is used up before row j starts. */
  lemma {:induction false} RowStartGrows(n: nat, i: nat, j: nat)
    requires i < j <= n
    ensures RowStart(n, i) + (n - i - 1) <= RowStart(n, j)
  {
    if j > i + 1 {
      RowStartGrows(n, i, j - 1);
    }
  }

  /** Every pair's draw is one of the PairCount(n) draws the generator makes. */
  lemma PairIndexInRange(n: nat, i: nat, j: nat)
    requires i < j < n
    ensures PairIndex(n, i, j) < PairCount(n)
  {
    RowStartGrows(n, i, n);
  }

  /** The last pair (n-2, n-1) takes the last of the PairCount(n) draws, so every draw is used. */
  lemma LastPairIndex(n: nat)
    requires n >= 2
    ensures PairIndex(n, n - 2, n - 1) == PairCount(n) - 1
  {
    assert RowStart(n, n) == RowStart(n, n - 1);
    assert RowStart(n, n - 1) == RowStart(n, n - 2) + 1;
  }

  /**
   * Draw positions follow the row-major order of the pairs, so distinct
   * pairs get distinct draws.
   */
  lemma PairIndexOrder(n: nat, i: nat, j: nat, i': nat, j': nat)
    requires i < j < n && i' < j' < n
    requires i < i' || (i == i' && j < j')
    ensures PairIndex(n, i, j) < PairIndex(n, i', j')
  {
    if i < i' {
      RowStartGrows(n, i, i');
    }
  }

  /**
   * The value generation stores at row a, column b of an n-vertex graph
   * when the random source yields `draws`: the draw for the pair {a, b},
   * and 0 on the diagonal.
   */
  function DrawnEntry(draws: seq<Bit>, n: nat, a: nat, b: nat): Bit
    requires a < n && b < n && PairCount(n) <= |draws|
  {
    if a < b then
      PairIndexInRange(n, a, b);
      draws[PairIndex(n, a, b)]
    else if b < a then
      PairIndexInRange(n, b, a);
      draws[PairIndex(n, b, a)]
    else
      0
  }
}
