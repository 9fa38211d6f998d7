# 2D site percolation: lattice generation and largest-cluster search

This project is a Dafny model of the core of a 2D site-percolation study
(`cpp/main.cpp`). For each occupation probability `p` the program does three things:

- It fills a `height` x `width` single-channel 8-bit matrix. Each site is
  occupied (pixel 255) when its uniform draw in [0, 1) is below `p`, and empty
  (pixel 150) otherwise.
- It finds the largest 4-connected cluster of occupied sites. A row-major scan
  flood-fills from every occupied site not yet claimed by an earlier cluster.
- It renders a copy of the matrix with that cluster's sites set to 0.

The model keeps the source's imperative form:

- The matrix is an `array2<Byte>`, where `Byte` is 0..255.
- Clusters and visited sets are `set<Cell>`.
- The flood fill's FIFO queue is a `seq<Cell>`.
- `GetCluster`, `GetBiggestCluster`, `GenerateMatrix` and `DrawCluster` are
  methods with the source's loops. Each one is proved against a specification:
  - `Component(g, seed)`: the set of cells reachable from `seed` by a path of
    4-adjacent occupied cells.
  - `IsBiggestCluster(g, b)`: the largest cluster, with ties going to the
    cluster whose seed comes first in row-major order.
  - `Generated(m, p, draws)`: the matrix the generator writes.
- No method that takes a matrix in has a `modifies` clause, so none of them
  changes its input.

Modules:

- `Lattice`: cells, bounds, adjacency, row-major order, and the neighbour
  order of the flood fill.
- `Connectivity`: paths, reachability, clusters, and the facts about them.
- `ClusterFinder`: the flood fill.
- `ScanInvariants` and `Scanner`: the largest-cluster scan.
- `Generation`: matrix generation.
- `Render`: cluster drawing.
- `Percolation`: one step of the probability sweep, and how the generation
  rule compares at two thresholds applied to the same draws.
- `Scenarios`: a worked example.

Three details of the program that the model keeps as written:

- The flood fill pushes all in-bounds neighbours of a cell as soon as it
  inserts the cell, and tests the visited set only when a cell is dequeued,
  so a cell can sit in the queue several times. `GetCluster` does the same.
- Coordinates are (row, column) pairs, as in the program's
  `std::set<std::pair<int, int>>`.
- The highlight value is 0 and the empty value is 150, as the assignments at
  lines 37 and 92 write them.

## Model

| member | source | states |
|---|---|---|
| Lattice.Neighbours | cpp/main.cpp:57-60 | the cells pushed after a dequeue are exactly the in-bounds 4-neighbours of the cell, at most four of them |
| ClusterFinder.GetCluster | cpp/main.cpp:44-67 | the breadth-first fill from `seed` terminates and returns exactly the set of cells reachable from `seed` over 4-adjacent 255 cells; it returns the empty set when the seed is not 255 |
| ClusterFinder.FillStepGrows | cpp/main.cpp:54-62 | dequeuing a new 255 cell, inserting it, pushing its neighbours and marking it visited keeps the fill invariant: visited cells are in the seed's cluster, queued 255 cells are in it, and every 255 neighbour of a visited cell is visited or queued |
| ClusterFinder.FillStepSkips | cpp/main.cpp:52-54 | dequeuing a cell that is not 255 or is already visited and dropping it keeps the fill invariant |
| ClusterFinder.UnvisitedShrinks | cpp/main.cpp:54-62 | each insertion leaves strictly fewer 255 cells unvisited, which is the fill's termination measure |
| ClusterFinder.FillDone | cpp/main.cpp:51-66 | when the queue runs empty, the visited set, which equals the returned cluster, is exactly the seed's cluster |
| Connectivity.ComponentOccupied | cpp/main.cpp:54-55 | every member of a cluster is on the grid and holds 255 |
| Connectivity.ComponentHasSeed | cpp/main.cpp:54 | the seed belongs to its own cluster iff it holds 255; otherwise the cluster is empty |
| Connectivity.ComponentClosed | cpp/main.cpp:57-60 | a cluster is maximal: every 255 4-neighbour of a member is a member |
| Connectivity.ComponentLeast | cpp/main.cpp:51-64 | a cluster is contained in every set that holds the seed and is closed under 255 adjacency |
| Connectivity.ComponentOfMember | cpp/main.cpp:76-78 | any member of a cluster has that same cluster, so a cell claimed through an earlier seed needs no new fill |
| Connectivity.ComponentsDisjointOrEqual | cpp/main.cpp:76-78 | two clusters are equal or disjoint, which is why the scan can merge them into one visited set |
| Connectivity.BiggestClusterUnique | cpp/main.cpp:79-81 | the strict `>` tie-break leaves no choice: a grid has exactly one largest cluster in the scan's sense |
| Connectivity.FullGridOneCluster | cpp/main.cpp:44-67 | when every cell holds 255, the cluster of any cell is the whole grid |
| ScanInvariants.ScanStepSkips | cpp/main.cpp:76 | passing a cell that is not 255 or is already visited keeps the scan invariant |
| ScanInvariants.ScanStepDiscovers | cpp/main.cpp:76-81 | filling from an unvisited 255 cell, merging its cluster into visited and replacing the best only on a strictly greater size keeps the scan invariant: visited cells are 255 with clusters no larger than the best, passed 255 cells are visited, and the best is the first strictly largest cluster so far |
| ScanInvariants.ScanStep | cpp/main.cpp:75-82 | one inner-loop step, in either branch, carries the scan invariant from the cells before `(i, j)` to the cells up to and including `(i, j)` |
| ScanInvariants.PrecedingNext | cpp/main.cpp:75 | the inner loop passes cells in row-major order: one step adds exactly `(i, j)` to the passed cells |
| ScanInvariants.ScanDone | cpp/main.cpp:69-87 | after the last cell, the retained cluster is the largest one (first among equals) and visited equals the set of all 255 cells |
| Scanner.GetBiggestCluster | cpp/main.cpp:69-87 | the result is empty iff no cell holds 255, is no smaller than any cluster, and is the cluster of a 255 cell whose predecessors in row-major order all have strictly smaller clusters; the final visited set is every 255 cell |
| Generation.SiteValue | cpp/main.cpp:34-37 | a site's pixel is 255 iff its draw is below `p`, and 150 otherwise |
| Generation.GenerateMatrix | cpp/main.cpp:21-42 | a fresh `height` x `width` matrix in which every cell is 255 or 150, and cell `(i, j)` is 255 iff the draw consumed at `(i, j)` is below `p` |
| Generation.GeneratedOccupied | cpp/main.cpp:31-38 | in a generated matrix, a cell is occupied iff it is on the grid and its draw is below `p` |
| Generation.OccupiedMonotone | cpp/main.cpp:34 | the cell rule applied to the same draws: every site occupied at `p` is occupied at any larger `p` |
| Generation.ClusterMonotone | cpp/main.cpp:34 | the cell rule applied to the same draws: a site's cluster at `p` is contained in its cluster at any larger `p` |
| Generation.NoneOccupiedAtZero | cpp/main.cpp:28-37 | with draws in [0, 1) and `p` <= 0, no site is occupied |
| Generation.AllOccupiedAtOne | cpp/main.cpp:28-37 | with draws in [0, 1) and `p` >= 1, every site is occupied |
| Render.DrawCluster | cpp/main.cpp:89-95 | a fresh copy with the input's dimensions that holds 0 on every cell of the cluster and the input's value on every other cell; the input matrix is not modified |
| Percolation.Frame | cpp/main.cpp:111-113 | one sweep step returns a matrix generated at `p`, its largest cluster, and an image that holds 0 exactly on that cluster and the generated value elsewhere |
| Percolation.BiggestInBounds | cpp/main.cpp:77-80 | the largest cluster consists of 255 cells on the grid, so drawing it stays in bounds |
| Percolation.BiggestMonotone | cpp/main.cpp:34 | the cell rule applied to the same draws: the largest cluster at `p` is no larger than the one at any larger `p` (not a claim about successive sweep steps, which redraw) |
| Percolation.BiggestAtZero | cpp/main.cpp:110-113 | with `p` <= 0 the largest cluster is empty |
| Percolation.BiggestAtOne | cpp/main.cpp:110-113 | with `p` >= 1 the largest cluster is the whole lattice |
| Scenarios.SplitRowClusters | cpp/main.cpp:44-67 | in the row [255, 150, 255, 255] the clusters are {(0,0)} and {(0,2), (0,3)} |
| Scenarios.SplitRowBiggest | cpp/main.cpp:74-81 | in the row [255, 150, 255, 255] the largest cluster is {(0,2), (0,3)} |

## Left out

- The random source (`std::random_device`, `std::mt19937`, `std::uniform_real_distribution`, lines 26-28) is not modelled. The draws are an input, one per site, in the order the nested loops consume them. Their range [0, 1) is a hypothesis (`UnitDraws`) of the lemmas that need it.
- Draws and `p` are modelled as exact reals. Comparing two doubles is exact, but the floating-point accumulation `p += step` of the sweep (line 123) is not modelled. So whether the sweep actually reaches `p = 1.0` is outside the model.
- The sweep loop in `main` (lines 99-128) is not modelled as a loop. Its constants, the image file name, `cv::imwrite` and the console messages are I/O. One iteration of the loop is `Percolation.Frame`.
- The sweep draws a new grid at every step: `generateMatrix` seeds a new `std::random_device` and `std::mt19937` on each call (lines 26-27). Two steps of the sweep therefore share no draws, and the largest cluster can shrink from one `p` to the next. `OccupiedMonotone`, `ClusterMonotone` and `BiggestMonotone` compare the cell rule of line 34 at two thresholds over the same draws. They say nothing about the sweep as run.
- Generation.GenerateMatrix takes `width` and `height` as natural numbers. The source takes `int`s, and negative sizes are not modelled: `cv::Mat::zeros` rejects them.
- `printProgressBar` (lines 6-18) only writes progress text to the console.
- `pc` (line 106) is an unused constant.
- OpenCV's matrix sharing is not modelled. A `cv::Mat` passed by value shares its pixel buffer. The model passes the `array2` itself, and the methods that read it have no `modifies` clause. `clone()` is modelled as a fresh array initialised from the input.
- `getCluster` with an out-of-bounds seed, and `drawCluster` with out-of-bounds cells, read or write outside the matrix. The model requires in-bounds coordinates; every caller in the source meets this.
- The amount of work the flood fill does is not modelled. This includes how often a cell enters the queue. Only its result and its termination are proved.
- `std::set`'s ordered iteration in `drawCluster` is not modelled. Every write stores the same value, so the order cannot change the result.
