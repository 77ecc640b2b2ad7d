# Dominating Induced Matching engine, modelled in Dafny

The engine decides whether a simple undirected graph, given as a 0/1
adjacency matrix, has a Dominating Induced Matching (DIM): a set of edges
that is a matching (no shared vertex), induced (no graph edge runs between
two of its edges) and dominating (every other edge touches exactly one of
its edges). If it has one, the engine returns the first one it finds.

The model follows `dim.py` function by function, as imperative Dafny proved
against specification predicates:

- `Graphs` — the edge list (`get_edges`): the method `GetEdges` runs the
  source's outer loop over rows, and `ScanRow` runs its inner loop over the
  columns of one row. The inner loop is a method of its own so that each
  loop is proved on its own. Together they are proved equal to the function
  `Edges`.
  Lemmas then show what that list is: exactly the pairs `(i, j)` with
  `i < j` and entry 1, in strictly increasing order, read from the upper
  triangle only.
- `Validators` — the three tests. `CheckMatching` keeps the set of used
  vertices, `CheckInduced` checks the four cross entries of every pair, and
  `CheckDominating` counts the touches of every edge outside the candidate.
  Each is proved equal to a predicate (`IsMatching`, `IsInduced`,
  `IsDominating`). Lemmas tie those predicates to their textbook meaning.
- `Combinations` — the order of `itertools.combinations(edges, r)`, written
  out over index tuples. The first tuple is `(0, …, r-1)`. Each step bumps
  the rightmost index that is not yet at its maximum. Every tuple is proved
  to be the lexicographic successor of the one before it, and the generator
  is proved to stop exactly after the greatest tuple.
- `Search` — `has_DIM`. `HasDim` tries sizes `r = 1 … m` and, for each size,
  the tuples in generator order. Its outcome is proved to be the
  lexicographically first passing subset of the smallest size, or "none" when
  no non-empty subset passes.
- `GraphRules` — `enforce_graph_rules` from the demo page, as a method that
  changes a 2-D array in place.

The engine reads the matrix as an immutable `seq<seq<int>>`. It never
changes it, and a list of lists and a numpy array read alike. The demo's
correction step works on an `array2<int>`, because it overwrites entries.
Matrix entries are unbounded integers. As in the source, only an entry equal
to 1 counts as an edge.

Two behaviours of the source are kept as written:

- `has_DIM` starts at `r = 1` (dim.py:96). A graph with no edges therefore
  gets `(False, None)`, although the empty candidate passes all three tests
  (`Search.EdgelessGraphHasNoDim`).
- The engine does not validate its input: a non-symmetric matrix is
  processed as it is, and `get_edges` reads only its upper triangle
  (`Graphs.EdgesReadUpperTriangleOnly`).

## Model

| member | source | states |
|---|---|---|
| `Graphs.GetEdges` | dim.py:6-13 | the nested loops build exactly the edge list `Edges(adj)`, row by row over the upper triangle |
| `Graphs.ScanRow` | dim.py:10-12 | the inner loop appends to what was collected before exactly the edges `(i, j)` of row `i` with `j > i` and entry 1, by increasing `j` |
| `Graphs.Edges` | dim.py:6-13 | every listed edge `(u, v)` has `u < v < n` |
| `Graphs.EdgesMembership` | dim.py:9-12 | `(u, v)` is listed iff `u < v < n` and `adj[u][v] == 1`; any other entry value is no edge, and `n = 0` gives no edges |
| `Graphs.EdgesSorted` | dim.py:9-12 | the list is strictly increasing in lexicographic `(u, v)` order, so it holds no duplicates |
| `Graphs.EdgesReadUpperTriangleOnly` | dim.py:10-11 | two matrices that agree strictly above the diagonal give the same edge list: the diagonal and lower triangle are never read |
| `Graphs.SortedUnique` | dim.py:9-12 | two strictly increasing edge lists with the same elements are the same list, so the edge list is fixed by which edges it holds |
| `Validators.Endpoints` | dim.py:21-27 | the set of used vertices holds exactly the endpoints of the edges scanned so far |
| `Validators.CheckMatching` | dim.py:20-29 | returns true iff no two positions of the candidate share a vertex (`IsMatching`); loop invariant: the used set is the endpoints of the prefix |
| `Validators.MatchingExtend` | dim.py:23-27 | appending an edge keeps a matching iff neither endpoint is already used: the loop's test and update |
| `Validators.MatchingPrefix` | dim.py:23-25 | every prefix of a matching is a matching, so returning false at the first reused vertex is correct |
| `Validators.SmallCandidates` | dim.py:20-56 | a candidate of at most one edge passes both the matching and the induced test |
| `Validators.CheckInduced` | dim.py:37-56 | returns true iff for no pair `i < j` is any of `adj[u1][u2]`, `adj[u1][v2]`, `adj[v1][u2]`, `adj[v1][v2]` equal to 1 (`IsInduced`) |
| `Validators.InducedMeaning` | dim.py:37-56 | for a symmetric matrix and a matching of graph edges, the test holds iff the matching's endpoints span no graph edge besides the matching's own |
| `Validators.CheckDominating` | dim.py:64-85 | returns true iff every listed edge is in the candidate (either orientation) or shares a vertex with exactly one candidate position (`IsDominating`); the inner loop's counter equals `TouchCount` over the prefix |
| `Validators.NoTouch` | dim.py:74-83 | the count is 0 iff no candidate edge touches the edge |
| `Validators.ExactlyOneTouch` | dim.py:74-83 | the count is 1 iff exactly one candidate position touches the edge, so none and two or more both fail |
| `Combinations.FirstCombIsLeast` | dim.py:97 | `FirstComb(r)`, the generator's first tuple `(0, …, r-1)`, is an r-subset and lexicographically precedes every other r-subset of the edge indices |
| `Combinations.NextCombIsSuccessor` | dim.py:97 | the generator's step `NextComb` returns an r-subset greater than the current one with none strictly between; it stops exactly when no r-subset is greater |
| `Combinations.LexTotal` | dim.py:97 | two index tuples of one length are equal or ordered, so the generator order is a total order |
| `Combinations.LexAsymmetric` | dim.py:97 | the lexicographic order is asymmetric and irreflexive |
| `Combinations.CombLength` | dim.py:96 | a subset of `m` edge indices has at most `m` elements, so sizes above `m` contribute nothing |
| `Combinations.ValueBound` | dim.py:97 | an index tuple read as a base-`m` numeral stays below `m^r`, which bounds the number of steps of the generator |
| `Combinations.LexValue` | dim.py:97 | lexicographically later tuples have larger base-`m` values, so the generator terminates |
| `Search.BelowNext` | dim.py:97-108 | every r-subset the generator has not yet yielded lies at or after the current tuple |
| `Search.HasDim` | dim.py:91-110 | the outcome is `(true, Some(W))` with `W` the candidate of the first admissible index tuple (smallest size, then lexicographically first), or `(false, None)` when no non-empty subset of the edge list passes all three tests |
| `Search.FirstAdmissibleUnique` | dim.py:96-108 | at most one index tuple passes with nothing tried before it passing |
| `Search.SearchOutcomeDeterministic` | dim.py:91-110 | two outcomes allowed for the same matrix are equal: the result is a function of the graph |
| `Search.WitnessPasses` | dim.py:99-108 | a witness is non-empty, an order-preserving selection `Select` (the tuple `pool[i] for i in indices`) from the edge list, and passes `is_matching`, `is_induced` and `is_dominating` when rechecked |
| `Search.WitnessIsDominatingInducedMatching` | dim.py:99-108 | on a symmetric matrix a witness is a dominating induced matching of the graph in the textbook sense |
| `Search.EdgelessGraphHasNoDim` | dim.py:96-110 | a graph without edges yields `(false, None)` although the empty candidate passes all three tests |
| `Search.SingleEdgeGraph` | dim.py:96-108 | a graph with exactly one edge yields `(true, Some([that edge]))` |
| `GraphRules.EnforceGraphRules` | 1_Interactive_DIM_Demo.py:37-51 | changes the matrix in place and returns the same array; afterwards the diagonal is 0 and each off-diagonal entry is the maximum of it and its mirror before the call |
| `GraphRules.NormaliseIsSimple` | 1_Interactive_DIM_Demo.py:41-49 | the corrected matrix has a zero diagonal and equals its transpose |
| `GraphRules.NormaliseKeepsSimple` | 1_Interactive_DIM_Demo.py:41-49 | a matrix that is already symmetric with a zero diagonal is left unchanged |
| `GraphRules.NormaliseIdempotent` | 1_Interactive_DIM_Demo.py:41-49 | applying the correction twice gives the same matrix as applying it once |

## Left out

- Streamlit page setup, sidebar, session state, buttons and the data editor of the demo page: user-interface plumbing.
- The networkx graph, its drawing and the edge colouring on the demo page: calls into foreign plotting libraries.
- `random_graph` and `generate_until_dim`: they depend on `np.random`, so no result is determined.
- The density line of the demo page: floating-point display arithmetic.
- pages/2_What_is_DIM.py: explanatory text with no logic.
- `itertools.combinations` is not part of the repository. Its order is modelled on the index-tuple algorithm the Python documentation gives for it.
- Shapes other than n-by-n: the model requires n rows of n entries, for the engine and for the correction alike. The source itself reads only the top-left n-by-n block, where n is the number of rows, and raises `IndexError` only when it reads an entry that is missing. Longer rows are accepted, and a short row can go unread: `[[0, 1], []]` gives the edge list `[(0, 1)]` and the witness `[(0, 1)]`. The correction likewise reads only the first n columns of a wider-than-tall array. These shapes are outside the model.
- Python's negative indexing: vertices are natural numbers, so it cannot arise.
- Fixed-width numpy integers: entries are unbounded, and the code only compares them and takes maxima, so overflow plays no part.
- Running time: the search can try all `2^m - 1` non-empty subsets, and no contract speaks of cost.
