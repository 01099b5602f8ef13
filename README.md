# Graph colouring engine of the GraphColoring window, in Dafny

The GraphColoring application draws a random undirected graph and finds its chromatic number. That is the least number of colours that gives every vertex a colour with no edge joining two equal colours. This project models the engine behind the window (`MainWindow.xaml.cs`) and proves what it computes:

- `GenerateRandomGraph` fills an `n×n` adjacency matrix. It draws one bit per pair `i < j` in row-major order and clears the colour array.
- `IsSafe` checks whether any neighbour of a vertex already holds a given colour.
- `ColorGraph` is the backtracking search for a fixed budget `maxColors`. It visits vertices in index order and tries colours in ascending order. It assigns a colour in place, recurses, and undoes the assignment when the recursion fails.
- `FindMinColors` raises the budget from 1 until `ColorGraph(0, k)` succeeds.

Files:

- `coloring.dfy`, module `Coloring`: the mathematics as values. It covers adjacency matrices, proper colourings, completions of a partial colouring (`IsExtension`, `Extendable`), the lexicographic order, and the least completion (`FirstExtension`). The lemmas that carry the search's correctness are here.
- `pairs.dfy`, module `RandomPairs`: the random source as a sequence of bits. It numbers the pairs in the order the generator draws for them.
- `engine.dfy`, module `GraphColoring`: class `MainWindow`. Its fields are `graph: array2<int>`, `colors: array<int>` and `verticesCount`, plus the ghost value `Adjacency` that `Valid()` ties to `graph`. Its methods are the four operations, written as the loops and the recursion of the source.
- `scenarios.dfy`, module `Scenarios`: the graph with no edges, the complete graph (the triangle is `n = 3`) and the 4-cycle. Each is stated once as a lemma and once end to end: a graph is generated from fixed draws and then searched.

What is proved:

- After generation the matrix is square, symmetric, has a zero diagonal and holds only 0/1 entries.
- Entry `(i, j)`, `i < j`, is the draw at that pair's row-major position, so generation is deterministic in the draws.
- The search succeeds exactly when the current prefix can be completed with colours `1..maxColors`, so it is sound and complete.
- On success, `colors` holds the lexicographically least completion. That is the first colouring that ascending colours in index order meet.
- On failure, `colors` is exactly as it was on entry.
- `FindMinColors` terminates, because budget `n` always succeeds. Its result `k` satisfies `1 ≤ k ≤ n`, no proper colouring with `k - 1` colours exists, and `colors` holds the least proper `k`-colouring.

The search is only correct when every vertex from `vertex` on is still uncoloured (0), because `IsSafe` scans all vertices, not just the earlier ones. `ColorGraph` and `FindMinColors` state this as a precondition.

In three places the code behaves in a way a reader might not expect; the model follows the code:

- The adjacency relation is an `int` matrix of 0/1, not a boolean one.
- Generation accepts `count = 0` and produces the empty graph. Only the window's input handler rejects counts below 1.
- On the empty graph `FindMinColors` returns 1, not 0, because `ColorGraph(0, 1)` reaches its base case at once. The bound `k ≤ n` and minimality are therefore stated for `n ≥ 1`.

## Model

| member | source | states |
|---|---|---|
| `GraphColoring.MainWindow.constructor` | MainWindow.xaml.cs:12-22 | before any generation the engine holds an empty, valid graph with no vertices |
| `GraphColoring.MainWindow.GenerateRandomGraph` | MainWindow.xaml.cs:71-84 | fresh `count×count` matrix and colour array; entry (a, b) is the draw for pair {a, b} at its row-major position and 0 on the diagonal; the matrix is symmetric with 0/1 entries; every colour is 0; exactly n(n-1)/2 draws are consumed |
| `GraphColoring.MainWindow.IsSafe` | MainWindow.xaml.cs:184-192 | returns true iff no vertex i has `graph[vertex, i] == 1` and `colors[i] == color`; changes nothing |
| `GraphColoring.MainWindow.ColorGraph` | MainWindow.xaml.cs:163-182 | given a proper prefix and an all-zero suffix: succeeds iff the prefix can be properly completed with colours 1..maxColors; on success `colors` is the lexicographically least such completion (prefix unchanged); on failure `colors` is exactly as on entry; the engine invariant is kept |
| `GraphColoring.MainWindow.FindMinColors` | MainWindow.xaml.cs:152-161 | terminates with 1 ≤ k, k ≤ n and no proper (k-1)-colouring when n ≥ 1, k = 1 when n = 0; `colors` holds the least proper k-colouring; the engine invariant is kept |
| `Coloring.SafeColorKeepsProper` | MainWindow.xaml.cs:170-172 | giving vertex v a colour no neighbour holds keeps the colouring of vertices 0..v proper |
| `Coloring.ConflictBlocksColor` | MainWindow.xaml.cs:186-189 | a colour already held by an earlier neighbour of vertex v cannot be completed to a proper colouring |
| `Coloring.NoColorNoExtension` | MainWindow.xaml.cs:168-181 | if none of colours 1..k at vertex v can be completed, neither can the prefix before v (completeness of the colour loop) |
| `Coloring.FirstExtensionStep` | MainWindow.xaml.cs:168-175 | the least completion after the first completable colour at v is the least completion of the prefix |
| `Coloring.FirstExtensionUnique` | MainWindow.xaml.cs:163-182 | two least completions of the same prefix are equal, so the colouring the search leaves is determined by the graph, the prefix and the budget |
| `Coloring.CompleteIsFirst` | MainWindow.xaml.cs:165-166 | when every vertex is coloured properly, the colouring is its own and only completion |
| `Coloring.DistinctColorsSuffice` | MainWindow.xaml.cs:155-160 | with a budget of at least n colours a proper colouring always exists, which bounds the deepening loop |
| `Coloring.ColorableMonotone` | MainWindow.xaml.cs:155-160 | a graph colourable with j colours is colourable with any k ≥ j |
| `Coloring.NoColoringWithoutColors` | MainWindow.xaml.cs:154 | a graph with a vertex has no colouring with 0 colours, so the loop may start at 1 |
| `Coloring.LeastBudget` | MainWindow.xaml.cs:152-161 | a budget that succeeds while the one below fails is the chromatic number: exactly the budgets below it fail |
| `RandomPairs.RowStartFormula` | MainWindow.xaml.cs:77-81 | before row i the generator has drawn i(2n-i-1)/2 bits |
| `RandomPairs.PairCount` | MainWindow.xaml.cs:77-81 | one generation draws exactly n(n-1)/2 bits |
| `RandomPairs.LastPairIndex` | MainWindow.xaml.cs:77-81 | the last pair (n-2, n-1) takes the last of the n(n-1)/2 draws, so none is skipped |
| `RandomPairs.RowStartGrows` | MainWindow.xaml.cs:77-81 | every draw of row i comes before the first draw of any later row |
| `RandomPairs.PairIndexInRange` | MainWindow.xaml.cs:77-81 | every pair's draw is one of the n(n-1)/2 draws |
| `RandomPairs.PairIndexOrder` | MainWindow.xaml.cs:77-81 | draw positions strictly follow the row-major order of pairs, so distinct pairs use distinct draws |
| `Scenarios.DistinctColorsBound` | MainWindow.xaml.cs:168 | pairwise distinct colours from 1..k number at most k |
| `Scenarios.EdgelessGraphNeedsOneColor` | MainWindow.xaml.cs:152-161 | on a graph with no edges a minimal budget is 1 and every vertex gets colour 1 |
| `Scenarios.CompleteGraphNeedsAllColors` | MainWindow.xaml.cs:152-161 | on a complete graph a minimal budget is n and the least colouring is 1, 2, ..., n |
| `Scenarios.FourCycleFirstColoring` | MainWindow.xaml.cs:152-161 | on the 4-cycle 0-1-2-3-0 a minimal budget is 2 and the least colouring is 1, 2, 1, 2 |
| `Scenarios.EdgelessScenario` | MainWindow.xaml.cs:71-84 | generating with all draws 0, then searching, answers 1 with every colour 1 |
| `Scenarios.CompleteScenario` | MainWindow.xaml.cs:71-84 | generating with all draws 1, then searching, answers n with colours 1..n (the triangle: 3 and 1, 2, 3) |
| `Scenarios.FourCycleScenario` | MainWindow.xaml.cs:71-84 | generating from draws 1,0,1,1,0,1 (the 4-cycle), then searching, answers 2 with colours 1, 2, 1, 2 |

## Left out

- The window's event handlers, focus handlers, `MessageBox` and button state (MainWindow.xaml.cs:24-62) are user-interface plumbing and are not modelled.
- `DrawGraph`, `ResetGraph` and `GetColorBrush` (MainWindow.xaml.cs:64-69, 86-150, 194-210) are canvas layout and colour brushes, with floating-point geometry. They are not modelled.
- `System.Random` is not modelled. The sequence `draws` stands for its successive `Next(0, 2)` results, and nothing is said about their distribution.
- Input parsing with `int.TryParse` (line 26) is not modelled. It is replaced by the precondition `count >= 0`, which array allocation needs. The window itself rejects counts below 1.
- GraphColoring.MainWindow.GenerateRandomGraph: it sets `verticesCount` itself. In the source, the click handler does this at line 26, before calling it. Line 26 also overwrites `verticesCount` on invalid input while keeping the old arrays. The model does not capture that mismatch, because `Valid()` ties `verticesCount` to the array sizes.
- Before the first generation, the source's `graph` and `colors` are null. The model starts from empty arrays instead.
- GraphColoring.MainWindow.FindMinColors: a second press of the colour button on the same graph starts with `colors` fully assigned. That call is outside the all-zero precondition, so the model says nothing about it.
- C#'s 32-bit `int` is not modelled. Every colour and budget stays between 0 and `n`, so wrap-around cannot occur for any allocatable matrix.
- Running time, which is exponential, and stack depth, which is `n` recursive calls, are not modelled.
