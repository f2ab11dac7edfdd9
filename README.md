# Percolation engine in Dafny

This project models the connectivity engine of a percolation simulator. An
n-by-n grid of sites, each blocked or open, is addressed by 1-indexed
`(row, col)` coordinates. Each cell maps to the linear id `n*(row-1)+col`.
The engine holds a union-find partition over `n*n+3` elements:

- index 0, which is never opened and never an argument of a union (the bitmap entry 0 is read, and is always blocked);
- the sites `1 .. n*n`;
- a virtual top node `n*n+1`;
- a virtual bottom node `n*n+2`.

`open` marks a site open, bumps a counter, and unions the site with three
kinds of partner:

- each neighbour id `i-n`, `i+n`, `i-1`, `i+1` that lies in `0 .. n*n`, is open, and shares a row or a column with `i`;
- the top node, when `i <= n`;
- the bottom node, when `i >= n*n - n`.

`isFull` asks whether a site shares a class with the top node. `percolates`
asks whether the bottom node does.

The project has three files:

- `UnionFind.dfy` holds a quick-find stand-in for the library union-find, as a class over an `array<int>` of labels.
  - `Merged` is the pure specification of one union.
  - `MergedClasses` states that a union joins exactly the two classes of its arguments.
- `Grid.dfy` holds the pure side: the coordinate mapping and the inline row/column recovery, the neighbour test of `open`, and the graph of open sites.
  - In that graph, adjacent open sites are linked.
  - So is every open site with `i <= n` to the top node, and every open site with `i >= n*n - n` to the bottom node.
  - It also holds the lemmas showing that the unions performed by `open` keep the partition equal to the connected components of that graph.
- `Percolation.dfy` holds the engine as a class.
  - It has the source's fields: the bitmap is an `array<bool>`, the counter a mutable field.
  - Its invariant `Valid()` ties the counter to the bitmap and the partition to reachability.

Two behaviours of the code are reproduced as written, not corrected:

- The bottom test `i >= n*n - n` also links site `(n-1, n)` to the bottom node. On a 2-by-2 grid, opening `(1, 2)` alone makes the system percolate (`Grid.CornerPercolates`).
- A site can be full through the virtual bottom node without any open path through sites. This is the "backwash" effect of a single partition with two virtual nodes (`Grid.BottomBackwash`).

`isFull` is therefore specified as reachability from the top node in the graph
that contains both virtual links.

Some comments in the source disagree with the code next to them, and the model
follows the code:

- The comments at Percolation.java:37-38 place the virtual top at `n^2` and the bottom at `n^2 + 1`. Lines 52-53 use `n*n + 1` and `n*n + 2`.
- The comment at Percolation.java:41 speaks of `n^n` items. The bitmap at line 42 has `n*n + 1` entries.
- The comment at Percolation.java:115 describes a bottom-row test. The test at line 116 is `i >= n*n - n`.

## Model

| member | source | states |
|---|---|---|
| `UnionFind.QuickFindUF.constructor` | Percolation.java:39 | `count` singleton classes: two elements share a label exactly when they are equal; the labels are canonical |
| `UnionFind.QuickFindUF.Find` | Percolation.java:139 | returns a canonical member of the class of `p` (it labels itself), and an element is in `p`'s class exactly when its label is that member |
| `UnionFind.QuickFindUF.Union` | Percolation.java:103 | the in-place relabelling loop leaves exactly `Merged(old labels, p, q)`, and the labels stay canonical |
| `UnionFind.MergedClasses` | Percolation.java:103 | after a union, two elements share a class exactly when they did before or one was in each of the two merged classes |
| `UnionFind.MergedCanonical` | Percolation.java:103 | a union keeps every label a self-labelled element |
| `Grid.XyTo1D` | Percolation.java:170-181 | fails with `IndexOutOfBounds` exactly when row or col lies outside `1 .. n`; otherwise returns a site id in `1 .. n*n` whose recovered row and column are the inputs |
| `Grid.CellToSite` | Percolation.java:94-97 | for an in-range cell, `n*(row-1)+col` lies in `1 .. n*n`, and the inline recovery `(id+n-1)/n`, `id-n*(row-1)` gives back `row` and `col` |
| `Grid.SiteToCell` | Percolation.java:94-97 | for every site id, the recovered row and column are in range and map back to the same id |
| `Grid.IndexInjective` | Percolation.java:180 | two in-range cells with the same linear id are the same cell |
| `Grid.CellHasOneSite` | Percolation.java:180 | the only site whose recovered cell is `(row, col)` is that cell's id |
| `Grid.RowOf` | Percolation.java:94 | the inline row recovery `(id+n-1)/n`; `Grid.SiteToCell` proves it lands in `1 .. n` for every site |
| `Grid.ColOf` | Percolation.java:95 | the inline column recovery `id-n*(row-1)`; `Grid.SiteToCell` proves it lands in `1 .. n` for every site |
| `Grid.Joined` | Percolation.java:83-102 | the test one candidate passes: within `0 .. n*n`, open, and sharing a row or a column with `i`; `Grid.JoinedIsAdjacent` proves it equals "open adjacent site" |
| `Grid.JoinedNeighbours` | Percolation.java:82-106 | the candidates the loop accepts, in visiting order; every one lies in `0 .. n*n` and indexes the bitmap |
| `Grid.Partners` | Percolation.java:79-118 | the union arguments of `open`: the accepted neighbours, then the top node when `i <= n`, then the bottom node when `i >= n*n - n`; every one lies in the universe |
| `Grid.JoinedUp` | Percolation.java:83-102 | candidate `i-n` passes the test of `open` exactly when it is an open site adjacent to `i` |
| `Grid.JoinedDown` | Percolation.java:83-102 | candidate `i+n` passes the test exactly when it is an open site adjacent to `i` |
| `Grid.JoinedLeft` | Percolation.java:83-102 | candidate `i-1` passes the test exactly when it is an open site adjacent to `i` (no step back to the previous row) |
| `Grid.JoinedRight` | Percolation.java:83-102 | candidate `i+1` passes the test exactly when it is an open site adjacent to `i` (no step on to the next row) |
| `Grid.JoinedIsAdjacent` | Percolation.java:79-105 | for any of the four candidates, the test holds exactly when the candidate is an open adjacent site; index 0 never passes |
| `Grid.JoinedNeighboursMembers` | Percolation.java:82-106 | the ids the loop joins are exactly the candidates that pass the test |
| `Grid.AdjacentIsCandidate` | Percolation.java:79 | every site adjacent to `i` is one of `i-n`, `i+n`, `i-1`, `i+1` |
| `Grid.CellsAdjacent` | Percolation.java:79 | two in-range cells that share a side have adjacent site ids |
| `Grid.NoWrapAround` | Percolation.java:94-102 | the last site of row `r` and the first of row `r+1` are not adjacent, and the neighbour test of lines 83-104 accepts neither as a candidate of the other |
| `Grid.TopJoinCells` | Percolation.java:109-113 | for a site, `i <= n` holds exactly in row 1 |
| `Grid.BottomJoinCells` | Percolation.java:116-118 | for a site, `i >= n*n - n` holds exactly in row n and at `(n-1, n)` |
| `Grid.PartnersAreEdges` | Percolation.java:79-118 | once `i` is open, the ids `open` unions it with are exactly its neighbours in the open-site graph |
| `Grid.UnionAllGroups` | Percolation.java:103-117 | the successive unions of `open` merge the class of `i` with the classes of its partners and leave every other class alone |
| `Grid.OpenKeepsPartition` | Percolation.java:67-118 | if the classes were the components before `open`, they are the components of the new graph after its unions |
| `Grid.InitialPartition` | Percolation.java:39-49 | with every site blocked, the singleton partition is the component partition |
| `Grid.BlockedAlone` | Percolation.java:83-105 | index 0 and every blocked site sit alone in their class: no union ever took them as an argument |
| `Grid.BlockedNeverFull` | Percolation.java:134-146 | a blocked site is never reachable from the top node |
| `Grid.CountOpenNone` | Percolation.java:47-49 | an all-blocked bitmap counts zero open sites |
| `Grid.CountOpenSet` | Percolation.java:121 | marking entry `i` open raises the count by one exactly when it was blocked |
| `Grid.ColumnReach` | Percolation.java:134-146 | the top reaches every site of an open stretch of a column that starts in row 1 |
| `Grid.OpenColumnPercolates` | Percolation.java:154-163 | a column whose every site is open makes the system percolate |
| `Grid.SingleSite` | Percolation.java:154-163 | on a 1-by-1 grid, the system percolates exactly when the single site is open |
| `Grid.CornerPercolates` | Percolation.java:116 | on a 2-by-2 grid with only `(1, 2)` open, the top reaches the bottom |
| `Grid.DiagonalDoesNotPercolate` | Percolation.java:154-163 | on a 2-by-2 grid with only the diagonal `(1, 1)`, `(2, 2)` open, the system does not percolate |
| `Grid.BottomBackwash` | Percolation.java:134-146 | on a 3-by-3 grid with column 1 and `(3, 3)` open, `(3, 3)` has no open neighbour yet is reachable from the top |
| `Percolation.Percolation.constructor` | Percolation.java:31-56 | every entry of the bitmap is blocked, the counter is 0, the ids are `n*n+1` and `n*n+2`, the partition is all singletons, and the invariant holds |
| `Percolation.Percolation.New` | Percolation.java:32-34 | fails with `IllegalArgument` exactly when `n <= 0`; otherwise returns a fresh engine in the initial state |
| `Percolation.Percolation.Open` | Percolation.java:59-123 | fails with `IndexOutOfBounds`, changing nothing, exactly outside the grid; otherwise it sets bit `i` open and nothing else, raises the counter exactly when the site was blocked, and performs exactly the unions of `Partners`; the invariant is kept |
| `Percolation.Percolation.JoinPartners` | Percolation.java:79-118 | the partition becomes the old one merged with every partner of `i`, in the order `open` visits them |
| `Percolation.Percolation.JoinCandidates` | Percolation.java:79-106 | the neighbour loop unions `i` with exactly the candidates that pass the test, in visiting order |
| `Percolation.Percolation.JoinNeighbour` | Percolation.java:83-104 | one pass of the loop unions `i` with `nb` exactly when `nb` passes the test, and changes nothing otherwise |
| `Percolation.Percolation.IsOpen` | Percolation.java:126-131 | fails with `IndexOutOfBounds` exactly outside the grid; otherwise returns the bitmap entry at the cell's id `n*(row-1)+col`, which lies in `1 .. n*n` |
| `Percolation.Percolation.IsFull` | Percolation.java:134-146 | fails exactly outside the grid; otherwise true exactly when the top node reaches the site in the open-site graph; a full site is open |
| `Percolation.Percolation.NumberOfOpenSites` | Percolation.java:149-151 | the counter equals the number of open entries in the bitmap |
| `Percolation.Percolation.Percolates` | Percolation.java:154-163 | true exactly when the top node reaches the bottom node in the open-site graph |

## Left out

- The class of the library union-find (weighted quick-union) is not part of this model. A quick-find stand-in with the same observable contract replaces it: `find` names the class, and `union` merges exactly two classes. Weighting and tree shape are not modelled.
- The library union-find's out-of-range exceptions are preconditions of `Find` and `Union`. The engine only ever passes ids inside its universe.
- Java `int` overflow of `n*n`, `n*n+1`, `n*n+3` and `n*(row-1)+col` is not modelled. Integers are unbounded.
- Thrown exceptions become results. `New` returns `Failure(IllegalArgument)`. `Open` returns `Fail(IndexOutOfBounds)`. `IsOpen` and `IsFull` return `Failure(IndexOutOfBounds)`. The constructor itself requires `n >= 1`, and `New` models the rejecting path.
- `main` is driver glue (argument parsing, a fixed demonstration sequence, console output) and is left out.
- `isInBoundary`, `TOP_LEFT_ID` and `siteBoundary` are never used by the engine and are left out.
- The commented-out debug output and the commented-out `Arrays.fill` have no effect and are left out.
- The zero-initialisation of a Java `boolean[]` is written out. A Dafny array's initial contents are unknown, so the model writes entry 0 false before running the source's loop over `1 .. n*n`.
