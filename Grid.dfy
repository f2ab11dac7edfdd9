/**
 * The pure side of the percolation engine: the 1-indexed n-by-n grid, the
 * mapping of a cell onto a linear site id, the inline recovery of row and
 * column from an id, the neighbour filter that `open` applies, and the graph
 * of open sites (with the virtual top and bottom nodes) whose connected
 * components the union-find partition has to track.
 */
module Grid {
  import UnionFind

  /** The two failure conditions of the engine. */
  datatype Error = IllegalArgument | IndexOutOfBounds

  datatype Result<T> = Success(value: T) | Failure(error: Error)

  datatype Outcome = Pass | Fail(error: Error)

  // ---------------------------------------------------------------------------
  // Coordinates and linear ids
  // ---------------------------------------------------------------------------

  predicate InRange(n: int, row: int, col: int)
  {
    1 <= row <= n && 1 <= col <= n
  }

  /** The linear id of the cell in row `row` and column `col`. */
  function Index(n: int, row: int, col: int): int
  {
    n * (row - 1) + col
  }

  /** Row of a non-negative id, with the division the engine uses inline. */
  function RowOf(n: int, id: int): int
    requires n >= 1 && id >= 0
  {
    (id + n - 1) / n
  }

  /** Column of a non-negative id, given its row. */
  function ColOf(n: int, id: int): int
    requires n >= 1 && id >= 0
  {
    id - n * (RowOf(n, id) - 1)
  }

  predicate IsSite(n: int, id: int)
  {
    1 <= id <= n * n
  }

  /** Every element of the union-find universe: index 0, the sites, top and bottom. */
  predicate InUniverse(n: int, x: int)
  {
    0 <= x < n * n + 3
  }

  function Top(n: int): int
  {
    n * n + 1
  }

  function Bottom(n: int): int
  {
    n * n + 2
  }

  lemma MulMono(n: int, a: int, b: int)
    requires n >= 0 && a <= b
    ensures n * a <= n * b
  {
  }

  lemma DivExact(n: int, q: int, m: int)
    requires n >= 1 && 0 <= m < n
    ensures (n * q + m) / n == q
  {
    var a := n * q + m;
    var d := a / n;
    var rem := a % n;
    assert n * d + rem == n * q + m;
    assert n * (d - q) == m - rem;
    if d > q {
      MulMono(n, 1, d - q);
    } else if d < q {
      MulMono(n, 1, q - d);
    }
  }

  /** The id of an in-range cell is a site whose row and column are that cell's. */
  lemma CellToSite(n: int, row: int, col: int)
    requires n >= 1 && InRange(n, row, col)
    ensures IsSite(n, Index(n, row, col))
    ensures RowOf(n, Index(n, row, col)) == row
    ensures ColOf(n, Index(n, row, col)) == col
  {
    MulMono(n, 0, row - 1);
    MulMono(n, row - 1, n - 1);
    assert n * (n - 1) + n == n * n;
    assert Index(n, row, col) + n - 1 == n * row + (col - 1);
    DivExact(n, row, col - 1);
  }

  /** Row and column recovered from a site form an in-range cell that maps back to it. */
  lemma SiteToCell(n: int, id: int)
    requires n >= 1 && IsSite(n, id)
    ensures InRange(n, RowOf(n, id), ColOf(n, id))
    ensures Index(n, RowOf(n, id), ColOf(n, id)) == id
  {
    var a := id + n - 1;
    var r := a / n;
    var m := a % n;
    assert n * r + m == a;
    assert ColOf(n, id) == m + 1;
    if r < 1 {
      MulMono(n, r, 0);
    }
    if r > n {
      MulMono(n, n + 1, r);
    }
  }

  /** Two in-range cells with the same id are the same cell. */
  lemma IndexInjective(n: int, r1: int, c1: int, r2: int, c2: int)
    requires n >= 1 && InRange(n, r1, c1) && InRange(n, r2, c2)
    requires Index(n, r1, c1) == Index(n, r2, c2)
    ensures r1 == r2 && c1 == c2
  {
    CellToSite(n, r1, c1);
    CellToSite(n, r2, c2);
  }

  /** The only site whose recovered row and column are an in-range cell is that cell's id. */
  lemma CellHasOneSite(n: int, row: int, col: int)
    requires n >= 1 && InRange(n, row, col)
    ensures forall k :: IsSite(n, k) && RowOf(n, k) == row && ColOf(n, k) == col ==> k == Index(n, row, col)
  {
    forall k | IsSite(n, k) && RowOf(n, k) == row && ColOf(n, k) == col
      ensures k == Index(n, row, col)
    {
      SiteToCell(n, k);
    }
  }

  /** The id of a cell, failing on any coordinate outside `1 .. n`. */
  function XyTo1D(n: int, row: int, col: int): (r: Result<int>)
    requires n >= 1
    ensures r.Failure? <==> !InRange(n, row, col)
    ensures r.Failure? ==> r.error == IndexOutOfBounds
    ensures r.Success? ==> IsSite(n, r.value) && RowOf(n, r.value) == row && ColOf(n, r.value) == col
  {
    if (row <= 0 || row > n) || (col <= 0 || col > n) then
      Failure(IndexOutOfBounds)
    else
      CellToSite(n, row, col);
      Success(Index(n, row, col))
  }

  // ---------------------------------------------------------------------------
  // Adjacency and the neighbour filter of `open`
  // ---------------------------------------------------------------------------

  /** Two cells that share a side. */
  predicate Touching(ra: int, ca: int, rb: int, cb: int)
  {
    (ra == rb && (ca - cb == 1 || cb - ca == 1)) ||
    (ca == cb && (ra - rb == 1 || rb - ra == 1))
  }

  /** Two sites whose cells share a side. */
  predicate Adjacent(n: int, a: int, b: int)
  {
    n >= 1 && 1 <= a <= n * n && 1 <= b <= n * n &&
    Touching(RowOf(n, a), ColOf(n, a), RowOf(n, b), ColOf(n, b))
  }

  /** The four ids `open` considers: up, down, left, right. */
  function Candidates(n: int, i: int): seq<int>
  {
    [i - n, i + n, i - 1, i + 1]
  }

  /**
   * The test `open` applies to a candidate `nb` of site `i`: within
   * `0 .. n*n`, open, and sharing a row or a column with `i`.
   */
  predicate Joined(n: int, openedSites: seq<bool>, i: int, nb: int)
  {
    n >= 1 && i >= 0 && 0 <= nb <= n * n && nb < |openedSites| && openedSites[nb] &&
    (RowOf(n, i) == RowOf(n, nb) || ColOf(n, i) == ColOf(n, nb))
  }

  /** The candidates that pass the test, in the order `open` visits them. */
  function JoinedNeighbours(n: int, openedSites: seq<bool>, i: int, cands: seq<int>): (ps: seq<int>)
    ensures forall k :: 0 <= k < |ps| ==> 0 <= ps[k] <= n * n && ps[k] < |openedSites|
    decreases |cands|
  {
    if cands == [] then []
    else
      var front := cands[..|cands| - 1];
      var last := cands[|cands| - 1];
      JoinedNeighbours(n, openedSites, i, front) + (if Joined(n, openedSites, i, last) then [last] else [])
  }

  /** The accepted candidates are exactly the candidates that pass the test. */
  lemma {:induction false} JoinedNeighboursMembers(n: int, openedSites: seq<bool>, i: int, cands: seq<int>)
    ensures forall x :: x in JoinedNeighbours(n, openedSites, i, cands) <==> x in cands && Joined(n, openedSites, i, x)
    decreases |cands|
  {
    if cands != [] {
      var front := cands[..|cands| - 1];
      var last := cands[|cands| - 1];
      assert cands == front + [last];
      JoinedNeighboursMembers(n, openedSites, i, front);
    }
  }

  /** Candidate `i - n`: the site above, or nothing in row 1. */
  lemma JoinedUp(n: int, openedSites: seq<bool>, i: int)
    requires n >= 1 && IsSite(n, i) && |openedSites| == n * n + 1 && !openedSites[0]
    ensures Joined(n, openedSites, i, i - n) <==> Adjacent(n, i, i - n) && openedSites[i - n]
  {
    SiteToCell(n, i);
    var r, c := RowOf(n, i), ColOf(n, i);
    if r > 1 {
      assert n * (r - 1) == n * (r - 2) + n;
      assert i - n == Index(n, r - 1, c);
      CellToSite(n, r - 1, c);
    } else {
      assert i - n <= 0;
    }
  }

  /** Candidate `i + n`: the site below, or beyond `n*n` in row n. */
  lemma JoinedDown(n: int, openedSites: seq<bool>, i: int)
    requires n >= 1 && IsSite(n, i) && |openedSites| == n * n + 1 && !openedSites[0]
    ensures Joined(n, openedSites, i, i + n) <==> Adjacent(n, i, i + n) && openedSites[i + n]
  {
    SiteToCell(n, i);
    var r, c := RowOf(n, i), ColOf(n, i);
    if r < n {
      assert n * r == n * (r - 1) + n;
      assert i + n == Index(n, r + 1, c);
      CellToSite(n, r + 1, c);
    } else {
      assert n * (n - 1) + n == n * n;
      assert i + n > n * n;
    }
  }

  /** Candidate `i - 1`: the site to the left, or the last site of the row above. */
  lemma JoinedLeft(n: int, openedSites: seq<bool>, i: int)
    requires n >= 1 && IsSite(n, i) && |openedSites| == n * n + 1 && !openedSites[0]
    ensures Joined(n, openedSites, i, i - 1) <==> Adjacent(n, i, i - 1) && openedSites[i - 1]
  {
    SiteToCell(n, i);
    var r, c := RowOf(n, i), ColOf(n, i);
    if c > 1 {
      assert i - 1 == Index(n, r, c - 1);
      CellToSite(n, r, c - 1);
    } else if r == 1 {
      assert i - 1 == 0;
    } else {
      assert n * (r - 1) == n * (r - 2) + n;
      assert i - 1 == Index(n, r - 1, n);
      CellToSite(n, r - 1, n);
    }
  }

  /** Candidate `i + 1`: the site to the right, or the first site of the row below. */
  lemma JoinedRight(n: int, openedSites: seq<bool>, i: int)
    requires n >= 1 && IsSite(n, i) && |openedSites| == n * n + 1 && !openedSites[0]
    ensures Joined(n, openedSites, i, i + 1) <==> Adjacent(n, i, i + 1) && openedSites[i + 1]
  {
    SiteToCell(n, i);
    var r, c := RowOf(n, i), ColOf(n, i);
    if c < n {
      assert i + 1 == Index(n, r, c + 1);
      CellToSite(n, r, c + 1);
    } else if r == n {
      assert n * (n - 1) + n == n * n;
      assert i + 1 > n * n;
    } else {
      assert n * r == n * (r - 1) + n;
      assert i + 1 == Index(n, r + 1, 1);
      CellToSite(n, r + 1, 1);
    }
  }

  lemma JoinedNeighboursSnoc(n: int, openedSites: seq<bool>, i: int, cands: seq<int>, x: int)
    ensures JoinedNeighbours(n, openedSites, i, cands + [x])
         == JoinedNeighbours(n, openedSites, i, cands) + (if Joined(n, openedSites, i, x) then [x] else [])
  {
    assert (cands + [x])[..|cands|] == cands;
  }

  /**
   * For a candidate of a site, the test of `open` holds exactly when the
   * candidate is an open site adjacent to it: the row and column comparison
   * rules out the step from the end of a row to the start of the next.
   */
  lemma JoinedIsAdjacent(n: int, openedSites: seq<bool>, i: int, nb: int)
    requires n >= 1 && IsSite(n, i) && |openedSites| == n * n + 1 && !openedSites[0]
    requires nb in Candidates(n, i)
    ensures Joined(n, openedSites, i, nb) <==> Adjacent(n, i, nb) && openedSites[nb]
  {
    if nb == i - n {
      JoinedUp(n, openedSites, i);
    } else if nb == i + n {
      JoinedDown(n, openedSites, i);
    } else if nb == i - 1 {
      JoinedLeft(n, openedSites, i);
    } else {
      JoinedRight(n, openedSites, i);
    }
  }

  /** Every site adjacent to `i` is one of the four candidates of `i`. */
  lemma AdjacentIsCandidate(n: int, i: int, b: int)
    requires Adjacent(n, i, b)
    ensures b in Candidates(n, i)
  {
    SiteToCell(n, i);
    SiteToCell(n, b);
    TouchingIsCandidate(n, RowOf(n, i), ColOf(n, i), RowOf(n, b), ColOf(n, b));
  }

  /** The cell beside a cell has one of the four candidate ids. */
  lemma TouchingIsCandidate(n: int, r: int, c: int, rb: int, cb: int)
    requires Touching(r, c, rb, cb)
    ensures Index(n, rb, cb) in Candidates(n, Index(n, r, c))
  {
    if rb == r + 1 {
      assert n * (rb - 1) == n * (r - 1) + n;
    } else if r == rb + 1 {
      assert n * (r - 1) == n * (rb - 1) + n;
    }
  }

  /** Two in-range cells that share a side have adjacent ids. */
  lemma CellsAdjacent(n: int, r1: int, c1: int, r2: int, c2: int)
    requires n >= 1 && InRange(n, r1, c1) && InRange(n, r2, c2) && Touching(r1, c1, r2, c2)
    ensures Adjacent(n, Index(n, r1, c1), Index(n, r2, c2))
  {
    CellToSite(n, r1, c1);
    CellToSite(n, r2, c2);
  }

  /**
   * The last site of a row and the first site of the next are not adjacent,
   * and the neighbour test of `open` accepts neither as a candidate of the
   * other. (Both can still meet through the bottom node when `r == n - 1`.)
   */
  lemma NoWrapAround(n: int, openedSites: seq<bool>, r: int)
    requires 1 <= r < n
    ensures !Adjacent(n, Index(n, r, n), Index(n, r + 1, 1))
    ensures !Joined(n, openedSites, Index(n, r, n), Index(n, r + 1, 1))
    ensures !Joined(n, openedSites, Index(n, r + 1, 1), Index(n, r, n))
  {
    CellToSite(n, r, n);
    CellToSite(n, r + 1, 1);
  }

  /** The top test `i <= n` of `open` selects exactly the sites of row 1. */
  lemma TopJoinCells(n: int, s: int)
    requires n >= 1 && IsSite(n, s)
    ensures s <= n <==> RowOf(n, s) == 1
  {
    SiteToCell(n, s);
    var r, c := RowOf(n, s), ColOf(n, s);
    if r >= 2 {
      MulMono(n, 1, r - 1);
    }
  }

  /**
   * The bottom test `i >= n*n - n` of `open` selects the sites of row n and
   * also the last site of row n - 1.
   */
  lemma BottomJoinCells(n: int, s: int)
    requires n >= 1 && IsSite(n, s)
    ensures s >= n * n - n <==> RowOf(n, s) == n || (RowOf(n, s) == n - 1 && ColOf(n, s) == n)
  {
    SiteToCell(n, s);
    var r, c := RowOf(n, s), ColOf(n, s);
    assert s == n * (r - 1) + c;
    assert n * n - n == n * (n - 1);
    if r <= n - 2 {
      MulMono(n, r - 1, n - 3);
      assert n * (n - 3) + n == n * (n - 1) - n;
    } else if r == n - 1 {
      assert n * (r - 1) + n == n * (n - 1);
    } else {
      assert r == n;
    }
  }

  // ---------------------------------------------------------------------------
  // The graph of open sites and its reachability relation
  // ---------------------------------------------------------------------------

  /** The join of open site `s` to virtual node `v` that `open` performs. */
  predicate VirtualJoin(n: int, openedSites: seq<bool>, s: int, v: int)
  {
    IsSite(n, s) && s < |openedSites| && openedSites[s] &&
    ((v == Top(n) && s <= n) || (v == Bottom(n) && s >= n * n - n))
  }

  /** An edge between two elements of the universe under the bitmap `openedSites`. */
  predicate Edge(n: int, openedSites: seq<bool>, a: int, b: int)
  {
    n >= 1 && |openedSites| == n * n + 1 &&
    ((Adjacent(n, a, b) && openedSites[a] && openedSites[b])
     || VirtualJoin(n, openedSites, a, b)
     || VirtualJoin(n, openedSites, b, a))
  }

  ghost predicate IsPath(n: int, openedSites: seq<bool>, p: seq<int>)
  {
    |p| >= 1 &&
    (forall k :: 0 <= k < |p| ==> InUniverse(n, p[k])) &&
    (forall k :: 0 <= k < |p| - 1 ==> Edge(n, openedSites, p[k], p[k + 1]))
  }

  /** `y` can be reached from `x` along edges of the open-site graph. */
  ghost predicate Reach(n: int, openedSites: seq<bool>, x: int, y: int)
  {
    exists p :: IsPath(n, openedSites, p) && p[0] == x && p[|p| - 1] == y
  }

  lemma EdgeSymmetric(n: int, openedSites: seq<bool>, a: int, b: int)
    requires Edge(n, openedSites, a, b)
    ensures Edge(n, openedSites, b, a)
  {
  }

  lemma EdgeInUniverse(n: int, openedSites: seq<bool>, a: int, b: int)
    requires Edge(n, openedSites, a, b)
    ensures InUniverse(n, a) && InUniverse(n, b)
  {
  }

  lemma ReachRefl(n: int, openedSites: seq<bool>, x: int)
    requires InUniverse(n, x)
    ensures Reach(n, openedSites, x, x)
  {
    assert IsPath(n, openedSites, [x]);
  }

  lemma ReachEdge(n: int, openedSites: seq<bool>, x: int, y: int, z: int)
    requires Reach(n, openedSites, x, y) && Edge(n, openedSites, y, z)
    ensures Reach(n, openedSites, x, z)
  {
    var p :| IsPath(n, openedSites, p) && p[0] == x && p[|p| - 1] == y;
    EdgeInUniverse(n, openedSites, y, z);
    var q := p + [z];
    assert IsPath(n, openedSites, q);
  }

  lemma ReachTrans(n: int, openedSites: seq<bool>, x: int, y: int, z: int)
    requires Reach(n, openedSites, x, y) && Reach(n, openedSites, y, z)
    ensures Reach(n, openedSites, x, z)
  {
    var p :| IsPath(n, openedSites, p) && p[0] == x && p[|p| - 1] == y;
    var q :| IsPath(n, openedSites, q) && q[0] == y && q[|q| - 1] == z;
    var pq := p + q[1..];
    forall k | 0 <= k < |pq| - 1
      ensures Edge(n, openedSites, pq[k], pq[k + 1])
    {
      if k < |p| - 1 {
        assert pq[k] == p[k] && pq[k + 1] == p[k + 1];
      } else {
        assert pq[k] == q[k - |p| + 1] && pq[k + 1] == q[k - |p| + 2];
      }
    }
    assert IsPath(n, openedSites, pq);
  }

  lemma ReachSym(n: int, openedSites: seq<bool>, x: int, y: int)
    requires Reach(n, openedSites, x, y)
    ensures Reach(n, openedSites, y, x)
  {
    var p :| IsPath(n, openedSites, p) && p[0] == x && p[|p| - 1] == y;
    var q := seq(|p|, k requires 0 <= k < |p| => p[|p| - 1 - k]);
    forall k | 0 <= k < |q| - 1
      ensures Edge(n, openedSites, q[k], q[k + 1])
    {
      EdgeSymmetric(n, openedSites, p[|p| - 2 - k], p[|p| - 1 - k]);
    }
    assert IsPath(n, openedSites, q);
  }

  /** Opening more sites keeps every path a path. */
  lemma ReachMono(n: int, openedSites: seq<bool>, openedSites': seq<bool>, x: int, y: int)
    requires |openedSites| == |openedSites'|
    requires forall k :: 0 <= k < |openedSites| && openedSites[k] ==> openedSites'[k]
    requires Reach(n, openedSites, x, y)
    ensures Reach(n, openedSites', x, y)
  {
    var p :| IsPath(n, openedSites, p) && p[0] == x && p[|p| - 1] == y;
    assert forall k :: 0 <= k < |p| - 1 ==> Edge(n, openedSites', p[k], p[k + 1]);
    assert IsPath(n, openedSites', p);
  }

  /** A path that starts inside a set closed under edges stays inside it. */
  lemma {:induction false} PathClosed(n: int, openedSites: seq<bool>, p: seq<int>, s: set<int>)
    requires IsPath(n, openedSites, p) && p[0] in s
    requires forall u, v :: u in s && Edge(n, openedSites, u, v) ==> v in s
    ensures p[|p| - 1] in s
    decreases |p|
  {
    if |p| > 1 {
      var front := p[..|p| - 1];
      assert IsPath(n, openedSites, front) by {
        forall k | 0 <= k < |front| - 1
          ensures Edge(n, openedSites, front[k], front[k + 1])
        {
          assert front[k] == p[k] && front[k + 1] == p[k + 1];
        }
      }
      PathClosed(n, openedSites, front, s);
      assert Edge(n, openedSites, p[|p| - 2], p[|p| - 1]);
    }
  }

  lemma ReachClosed(n: int, openedSites: seq<bool>, x: int, y: int, s: set<int>)
    requires Reach(n, openedSites, x, y) && x in s
    requires forall u, v :: u in s && Edge(n, openedSites, u, v) ==> v in s
    ensures y in s
  {
    var p :| IsPath(n, openedSites, p) && p[0] == x && p[|p| - 1] == y;
    PathClosed(n, openedSites, p, s);
  }

  /** Index 0 and every blocked site have no edges at all. */
  lemma BlockedHasNoEdge(n: int, openedSites: seq<bool>, s: int, v: int)
    requires n >= 1 && |openedSites| == n * n + 1 && !openedSites[0]
    requires 0 <= s <= n * n && !openedSites[s]
    ensures !Edge(n, openedSites, s, v) && !Edge(n, openedSites, v, s)
  {
  }

  /** Index 0 and a blocked site reach nothing but themselves. */
  lemma BlockedIsolated(n: int, openedSites: seq<bool>, s: int, y: int)
    requires n >= 1 && |openedSites| == n * n + 1 && !openedSites[0]
    requires 0 <= s <= n * n && !openedSites[s]
    requires Reach(n, openedSites, s, y) || Reach(n, openedSites, y, s)
    ensures y == s
  {
    forall v
      ensures !Edge(n, openedSites, s, v)
    {
      BlockedHasNoEdge(n, openedSites, s, v);
    }
    if Reach(n, openedSites, y, s) {
      ReachSym(n, openedSites, y, s);
    }
    ReachClosed(n, openedSites, s, y, {s});
  }

  /** A blocked site is never reachable from the virtual top. */
  lemma BlockedNeverFull(n: int, openedSites: seq<bool>, i: int)
    requires n >= 1 && |openedSites| == n * n + 1 && !openedSites[0] && IsSite(n, i)
    ensures !openedSites[i] ==> !Reach(n, openedSites, Top(n), i)
  {
    if !openedSites[i] && Reach(n, openedSites, Top(n), i) {
      BlockedIsolated(n, openedSites, i, Top(n));
    }
  }

  /** With every site blocked, nothing is reachable from anything else. */
  lemma AllBlockedIsolated(n: int, openedSites: seq<bool>, x: int, y: int)
    requires n >= 1 && |openedSites| == n * n + 1
    requires forall k :: 0 <= k < |openedSites| ==> !openedSites[k]
    ensures Reach(n, openedSites, x, y) <==> InUniverse(n, x) && x == y
  {
    if InUniverse(n, x) && x == y {
      ReachRefl(n, openedSites, x);
    }
    if Reach(n, openedSites, x, y) {
      assert forall v :: !Edge(n, openedSites, x, v);
      ReachClosed(n, openedSites, x, y, {x});
      var p :| IsPath(n, openedSites, p) && p[0] == x && p[|p| - 1] == y;
      assert InUniverse(n, p[0]);
    }
  }

  // ---------------------------------------------------------------------------
  // The partition: its invariant and the unions of `open`
  // ---------------------------------------------------------------------------

  /** The union-find classes are exactly the connected components. */
  ghost predicate PartitionIsReach(n: int, openedSites: seq<bool>, labels: seq<int>)
  {
    n >= 1 && |openedSites| == n * n + 1 && |labels| == n * n + 3 &&
    forall x, y {:trigger Reach(n, openedSites, x, y)} :: 0 <= x < |labels| && 0 <= y < |labels| ==>
      (labels[x] == labels[y] <==> Reach(n, openedSites, x, y))
  }

  /**
   * Index 0 and every blocked site form a class of their own: no union has
   * ever taken them as an argument.
   */
  lemma BlockedAlone(n: int, openedSites: seq<bool>, labels: seq<int>, x: int)
    requires PartitionIsReach(n, openedSites, labels) && !openedSites[0]
    requires 0 <= x <= n * n && !openedSites[x]
    ensures forall y :: 0 <= y < |labels| && y != x ==> labels[y] != labels[x]
  {
    forall y | 0 <= y < |labels| && labels[y] == labels[x]
      ensures y == x
    {
      assert Reach(n, openedSites, x, y);
      BlockedIsolated(n, openedSites, x, y);
    }
  }

  /** The singleton partition is the component partition while every site is blocked. */
  lemma InitialPartition(n: int, openedSites: seq<bool>, labels: seq<int>)
    requires n >= 1 && |openedSites| == n * n + 1 && |labels| == n * n + 3
    requires forall k :: 0 <= k < |openedSites| ==> !openedSites[k]
    requires forall x, y :: 0 <= x < |labels| && 0 <= y < |labels| ==> (labels[x] == labels[y] <==> x == y)
    ensures PartitionIsReach(n, openedSites, labels)
  {
    forall x, y | 0 <= x < |labels| && 0 <= y < |labels|
      ensures labels[x] == labels[y] <==> Reach(n, openedSites, x, y)
    {
      AllBlockedIsolated(n, openedSites, x, y);
    }
  }

  /** The labelling after `open` unions `i` with each of `ps` in turn. */
  function UnionAll(labels: seq<int>, i: int, ps: seq<int>): (r: seq<int>)
    requires 0 <= i < |labels|
    requires forall k :: 0 <= k < |ps| ==> 0 <= ps[k] < |labels|
    ensures |r| == |labels|
    decreases |ps|
  {
    if ps == [] then labels
    else UnionFind.Merged(UnionAll(labels, i, ps[..|ps| - 1]), i, ps[|ps| - 1])
  }

  lemma UnionAllSnoc(labels: seq<int>, i: int, ps: seq<int>, x: int)
    requires 0 <= i < |labels| && 0 <= x < |labels|
    requires forall k :: 0 <= k < |ps| ==> 0 <= ps[k] < |labels|
    ensures UnionAll(labels, i, ps + [x]) == UnionFind.Merged(UnionAll(labels, i, ps), i, x)
  {
    assert (ps + [x])[..|ps|] == ps;
  }

  /** `z` lies in the class of `i` or in the class of one of `ps`. */
  ghost predicate InGroup(labels: seq<int>, i: int, ps: seq<int>, z: int)
    requires 0 <= i < |labels| && 0 <= z < |labels|
    requires forall k :: 0 <= k < |ps| ==> 0 <= ps[k] < |labels|
  {
    labels[z] == labels[i] || exists k :: 0 <= k < |ps| && labels[z] == labels[ps[k]]
  }

  /** The group of `ps` is the group of its front plus the class of its last element. */
  lemma InGroupSnoc(labels: seq<int>, i: int, ps: seq<int>, z: int)
    requires 0 <= i < |labels| && 0 <= z < |labels| && ps != []
    requires forall k :: 0 <= k < |ps| ==> 0 <= ps[k] < |labels|
    ensures InGroup(labels, i, ps, z) <==>
      InGroup(labels, i, ps[..|ps| - 1], z) || labels[z] == labels[ps[|ps| - 1]]
  {
    var front := ps[..|ps| - 1];
    if InGroup(labels, i, ps, z) && labels[z] != labels[i] {
      var k :| 0 <= k < |ps| && labels[z] == labels[ps[k]];
      if k < |front| {
        assert front[k] == ps[k];
      }
    }
    if InGroup(labels, i, front, z) && labels[z] != labels[i] {
      var k :| 0 <= k < |front| && labels[z] == labels[front[k]];
      assert ps[k] == front[k];
    }
  }

  /**
   * Unioning `i` with each of `ps` merges exactly the class of `i` and the
   * classes of `ps` into one, and leaves every other class as it was.
   */
  lemma {:induction false} UnionAllGroups(labels: seq<int>, i: int, ps: seq<int>)
    requires 0 <= i < |labels|
    requires forall k :: 0 <= k < |ps| ==> 0 <= ps[k] < |labels|
    ensures forall x, y :: 0 <= x < |labels| && 0 <= y < |labels| ==>
      (UnionAll(labels, i, ps)[x] == UnionAll(labels, i, ps)[y] <==>
        labels[x] == labels[y] || (InGroup(labels, i, ps, x) && InGroup(labels, i, ps, y)))
    decreases |ps|
  {
    if ps != [] {
      var front := ps[..|ps| - 1];
      var a := ps[|ps| - 1];
      UnionAllGroups(labels, i, front);
      var m := UnionAll(labels, i, front);
      assert UnionAll(labels, i, ps) == UnionFind.Merged(m, i, a);
      UnionFind.MergedClasses(m, i, a);
      assert InGroup(labels, i, front, i);
      forall x, y | 0 <= x < |labels| && 0 <= y < |labels|
        ensures UnionFind.Merged(m, i, a)[x] == UnionFind.Merged(m, i, a)[y] <==>
          labels[x] == labels[y] || (InGroup(labels, i, ps, x) && InGroup(labels, i, ps, y))
      {
        InGroupSnoc(labels, i, ps, x);
        InGroupSnoc(labels, i, ps, y);
      }
    }
  }

  /** Every element `open` unions site `i` with, in the order it does so. */
  function Partners(n: int, openedSites: seq<bool>, i: int): (ps: seq<int>)
    requires n >= 1
    ensures forall k :: 0 <= k < |ps| ==> InUniverse(n, ps[k])
  {
    JoinedNeighbours(n, openedSites, i, Candidates(n, i))
    + (if i <= n then [Top(n)] else [])
    + (if i >= n * n - n then [Bottom(n)] else [])
  }

  /** Once `i` is open, `open` unions it with exactly the ends of its edges. */
  lemma PartnersAreEdges(n: int, openedSites: seq<bool>, i: int)
    requires n >= 1 && |openedSites| == n * n + 1 && !openedSites[0]
    requires IsSite(n, i) && openedSites[i]
    ensures forall a :: a in Partners(n, openedSites, i) <==> Edge(n, openedSites, i, a)
  {
    var ps := Partners(n, openedSites, i);
    var cands := Candidates(n, i);
    JoinedNeighboursMembers(n, openedSites, i, cands);
    forall a
      ensures a in ps <==> Edge(n, openedSites, i, a)
    {
      if a in cands {
        JoinedIsAdjacent(n, openedSites, i, a);
      }
      if Adjacent(n, i, a) {
        AdjacentIsCandidate(n, i, a);
        JoinedIsAdjacent(n, openedSites, i, a);
      }
      if a in JoinedNeighbours(n, openedSites, i, cands) {
        assert !IsSite(n, a) || a != Top(n);
      }
    }
  }

  /** The edges away from a newly opened site are the edges there were before. */
  lemma EdgeAwayFrom(n: int, openedSites: seq<bool>, i: int, u: int, v: int)
    requires 0 <= i < |openedSites| && u != i && v != i
    ensures Edge(n, openedSites[i := true], u, v) <==> Edge(n, openedSites, u, v)
  {
  }

  /**
   * Opening a blocked site and performing the unions of `open` keeps the
   * partition equal to the connected components of the open-site graph.
   */
  lemma OpenKeepsPartition(n: int, openedSites: seq<bool>, labels: seq<int>, i: int)
    requires PartitionIsReach(n, openedSites, labels)
    requires !openedSites[0] && IsSite(n, i) && !openedSites[i]
    ensures PartitionIsReach(n, openedSites[i := true],
                             UnionAll(labels, i, Partners(n, openedSites[i := true], i)))
  {
    var openedSites' := openedSites[i := true];
    GroupReachesOpened(n, openedSites, openedSites', labels, i);
    NewEdgesInsideClasses(n, openedSites, openedSites', labels, i);
    MergedIsReach(n, openedSites, openedSites', labels, i, Partners(n, openedSites', i));
  }

  /**
   * Merging the class of `i` with the classes of `ps` yields the components of
   * the new graph, provided the whole merged group reaches `i` and every edge
   * of the new graph stays inside one merged class.
   */
  lemma MergedIsReach(n: int, openedSites: seq<bool>, openedSites': seq<bool>, labels: seq<int>, i: int, ps: seq<int>)
    requires PartitionIsReach(n, openedSites, labels)
    requires IsSite(n, i) && openedSites' == openedSites[i := true]
    requires forall k :: 0 <= k < |ps| ==> 0 <= ps[k] < |labels|
    requires forall z :: 0 <= z < |labels| && InGroup(labels, i, ps, z) ==> Reach(n, openedSites', z, i)
    requires forall u, v :: Edge(n, openedSites', u, v) ==>
      0 <= u < |labels| && 0 <= v < |labels| && UnionAll(labels, i, ps)[u] == UnionAll(labels, i, ps)[v]
    ensures PartitionIsReach(n, openedSites', UnionAll(labels, i, ps))
  {
    var labels' := UnionAll(labels, i, ps);
    UnionAllGroups(labels, i, ps);
    assert forall k :: 0 <= k < |openedSites| && openedSites[k] ==> openedSites'[k];
    forall x, y | 0 <= x < |labels| && 0 <= y < |labels|
      ensures labels'[x] == labels'[y] <==> Reach(n, openedSites', x, y)
    {
      if labels'[x] == labels'[y] {
        if labels[x] == labels[y] {
          ReachMono(n, openedSites, openedSites', x, y);
        } else {
          ReachSym(n, openedSites', y, i);
          ReachTrans(n, openedSites', x, i, y);
        }
      }
      if Reach(n, openedSites', x, y) {
        var s := set w | 0 <= w < |labels| && labels'[w] == labels'[x];
        ReachClosed(n, openedSites', x, y, s);
      }
    }
  }

  /** After opening `i`, every member of the group merged into its class reaches it. */
  lemma GroupReachesOpened(n: int, openedSites: seq<bool>, openedSites': seq<bool>, labels: seq<int>, i: int)
    requires PartitionIsReach(n, openedSites, labels)
    requires !openedSites[0] && IsSite(n, i) && !openedSites[i] && openedSites' == openedSites[i := true]
    ensures forall z :: 0 <= z < |labels| && InGroup(labels, i, Partners(n, openedSites', i), z) ==>
      Reach(n, openedSites', z, i)
  {
    var ps := Partners(n, openedSites', i);
    PartnersAreEdges(n, openedSites', i);
    assert forall k :: 0 <= k < |openedSites| && openedSites[k] ==> openedSites'[k];
    forall z | 0 <= z < |labels| && InGroup(labels, i, ps, z)
      ensures Reach(n, openedSites', z, i)
    {
      if labels[z] == labels[i] {
        ReachMono(n, openedSites, openedSites', z, i);
      } else {
        var k :| 0 <= k < |ps| && labels[z] == labels[ps[k]];
        ReachMono(n, openedSites, openedSites', z, ps[k]);
        assert ps[k] in ps;
        EdgeSymmetric(n, openedSites', i, ps[k]);
        ReachEdge(n, openedSites', z, ps[k], i);
      }
    }
  }

  /** After opening `i`, both ends of every edge share a class of the merged partition. */
  lemma NewEdgesInsideClasses(n: int, openedSites: seq<bool>, openedSites': seq<bool>, labels: seq<int>, i: int)
    requires PartitionIsReach(n, openedSites, labels)
    requires !openedSites[0] && IsSite(n, i) && !openedSites[i] && openedSites' == openedSites[i := true]
    ensures forall u, v :: Edge(n, openedSites', u, v) ==>
      0 <= u < |labels| && 0 <= v < |labels| &&
      UnionAll(labels, i, Partners(n, openedSites', i))[u] ==
      UnionAll(labels, i, Partners(n, openedSites', i))[v]
  {
    var ps := Partners(n, openedSites', i);
    PartnersAreEdges(n, openedSites', i);
    forall u, v | Edge(n, openedSites', u, v)
      ensures 0 <= u < |labels| && 0 <= v < |labels| && UnionAll(labels, i, ps)[u] == UnionAll(labels, i, ps)[v]
    {
      EdgeInUniverse(n, openedSites', u, v);
      if u == i {
        assert v in ps;
        GroupMemberJoins(labels, i, ps, v);
      } else if v == i {
        EdgeSymmetric(n, openedSites', u, v);
        assert u in ps;
        GroupMemberJoins(labels, i, ps, u);
      } else {
        EdgeAwayFromOpened(n, openedSites, openedSites', labels, i, ps, u, v);
      }
    }
  }

  /** Every element of `ps` ends up in the class of `i`. */
  lemma GroupMemberJoins(labels: seq<int>, i: int, ps: seq<int>, v: int)
    requires 0 <= i < |labels|
    requires forall k :: 0 <= k < |ps| ==> 0 <= ps[k] < |labels|
    requires v in ps
    ensures 0 <= v < |labels| && UnionAll(labels, i, ps)[i] == UnionAll(labels, i, ps)[v]
  {
    var k :| 0 <= k < |ps| && ps[k] == v;
    assert InGroup(labels, i, ps, v);
    assert InGroup(labels, i, ps, i);
    UnionAllGroups(labels, i, ps);
  }

  /** An edge away from the opened site already joined its ends before, so they stay in one class. */
  lemma EdgeAwayFromOpened(n: int, openedSites: seq<bool>, openedSites': seq<bool>, labels: seq<int>, i: int,
                           ps: seq<int>, u: int, v: int)
    requires PartitionIsReach(n, openedSites, labels)
    requires IsSite(n, i) && openedSites' == openedSites[i := true]
    requires forall k :: 0 <= k < |ps| ==> 0 <= ps[k] < |labels|
    requires Edge(n, openedSites', u, v) && u != i && v != i
    ensures 0 <= u < |labels| && 0 <= v < |labels|
    ensures UnionAll(labels, i, ps)[u] == UnionAll(labels, i, ps)[v]
  {
    EdgeAwayFrom(n, openedSites, i, u, v);
    EdgeInUniverse(n, openedSites, u, v);
    ReachRefl(n, openedSites, u);
    ReachEdge(n, openedSites, u, u, v);
    assert labels[u] == labels[v];
    UnionAllGroups(labels, i, ps);
  }

  // ---------------------------------------------------------------------------
  // The number of open sites
  // ---------------------------------------------------------------------------

  /** The number of `true` entries of a bitmap. */
  function CountOpen(s: seq<bool>): nat
  {
    if s == [] then 0 else (if s[0] then 1 else 0) + CountOpen(s[1..])
  }

  lemma {:induction false} CountOpenNone(s: seq<bool>)
    requires forall k :: 0 <= k < |s| ==> !s[k]
    ensures CountOpen(s) == 0
  {
    if s != [] {
      CountOpenNone(s[1..]);
    }
  }

  /** Setting one entry raises the count by one if it was false and by nothing otherwise. */
  lemma {:induction false} CountOpenSet(s: seq<bool>, i: int)
    requires 0 <= i < |s|
    ensures CountOpen(s[i := true]) == CountOpen(s) + (if s[i] then 0 else 1)
  {
    if i > 0 {
      assert s[i := true][1..] == s[1..][i - 1 := true];
      CountOpenSet(s[1..], i - 1);
    } else {
      assert s[i := true][1..] == s[1..];
    }
  }

  /**
   * A set is closed under the edges when it holds the open candidates of its
   * sites and the virtual joins of its elements.
   */
  lemma ClosedByCandidates(n: int, openedSites: seq<bool>, s: set<int>)
    requires forall u, c :: u in s && IsSite(n, u) && c in Candidates(n, u) && 0 <= c < |openedSites| && openedSites[c] ==> c in s
    requires forall u, v :: u in s && VirtualJoin(n, openedSites, u, v) ==> v in s
    requires forall u, v :: u in s && VirtualJoin(n, openedSites, v, u) ==> v in s
    ensures forall u, v :: u in s && Edge(n, openedSites, u, v) ==> v in s
  {
    forall u, v | u in s && Edge(n, openedSites, u, v)
      ensures v in s
    {
      if Adjacent(n, u, v) && openedSites[u] && openedSites[v] {
        AdjacentIsCandidate(n, u, v);
      }
    }
  }

  /** A site none of whose candidates is open has no open adjacent site. */
  lemma NoOpenNeighbour(n: int, openedSites: seq<bool>, i: int)
    requires forall c :: c in Candidates(n, i) && 0 <= c < |openedSites| ==> !openedSites[c]
    ensures forall b :: Adjacent(n, i, b) && 0 <= b < |openedSites| ==> !openedSites[b]
  {
    forall b | Adjacent(n, i, b) && 0 <= b < |openedSites|
      ensures !openedSites[b]
    {
      AdjacentIsCandidate(n, i, b);
    }
  }

  // ---------------------------------------------------------------------------
  // Small grids
  // ---------------------------------------------------------------------------

  /** The bitmap of an n-by-n grid in which exactly the sites `ids` are open. */
  ghost predicate OpenExactly(n: int, openedSites: seq<bool>, ids: set<int>)
  {
    |openedSites| == n * n + 1 &&
    forall k :: 0 <= k < |openedSites| ==> (openedSites[k] <==> k in ids)
  }

  /** On a 1-by-1 grid the system percolates exactly when its one site is open. */
  lemma SingleSite(openedSites: seq<bool>)
    requires |openedSites| == 2 && !openedSites[0]
    ensures Reach(1, openedSites, Top(1), Bottom(1)) <==> openedSites[1]
  {
    if openedSites[1] {
      assert Edge(1, openedSites, Top(1), 1);
      assert Edge(1, openedSites, 1, Bottom(1));
      ReachRefl(1, openedSites, Top(1));
      ReachEdge(1, openedSites, Top(1), Top(1), 1);
      ReachEdge(1, openedSites, Top(1), 1, Bottom(1));
    } else if Reach(1, openedSites, Top(1), Bottom(1)) {
      AllBlockedIsolated(1, openedSites, Top(1), Bottom(1));
    }
  }

  /**
   * On a 2-by-2 grid, opening the site in row 1, column 2 alone makes the
   * top reach the bottom, although no site of row 2 is open.
   */
  lemma CornerPercolates(openedSites: seq<bool>)
    requires OpenExactly(2, openedSites, {2})
    ensures Reach(2, openedSites, Top(2), Bottom(2))
  {
    assert openedSites[2];
    assert Edge(2, openedSites, Top(2), 2);
    assert Edge(2, openedSites, 2, Bottom(2));
    ReachRefl(2, openedSites, Top(2));
    ReachEdge(2, openedSites, Top(2), Top(2), 2);
    ReachEdge(2, openedSites, Top(2), 2, Bottom(2));
  }

  /** On a 2-by-2 grid, the two diagonal sites (1, 1) and (2, 2) do not connect top and bottom. */
  lemma DiagonalDoesNotPercolate(openedSites: seq<bool>)
    requires OpenExactly(2, openedSites, {1, 4})
    ensures !Reach(2, openedSites, Top(2), Bottom(2))
  {
    var s := {Top(2), 1};
    assert Candidates(2, 1) == [-1, 3, 0, 2];
    ClosedByCandidates(2, openedSites, s);
    if Reach(2, openedSites, Top(2), Bottom(2)) {
      ReachClosed(2, openedSites, Top(2), Bottom(2), s);
    }
  }

  /**
   * On a 3-by-3 grid with column 1 and the site (3, 3) open, site (3, 3) is
   * reachable from the top through the virtual bottom, though none of its
   * neighbours is open.
   */
  lemma BottomBackwash(openedSites: seq<bool>)
    requires OpenExactly(3, openedSites, {1, 4, 7, 9})
    ensures forall b :: Adjacent(3, 9, b) && 0 <= b < |openedSites| ==> !openedSites[b]
    ensures Reach(3, openedSites, Top(3), 9)
  {
    assert !openedSites[6] && !openedSites[8];
    BackwashIsolated(openedSites);
    BackwashReach(openedSites);
  }

  lemma BackwashIsolated(openedSites: seq<bool>)
    requires |openedSites| == 10 && !openedSites[6] && !openedSites[8]
    ensures forall b :: Adjacent(3, 9, b) && 0 <= b < |openedSites| ==> !openedSites[b]
  {
    assert Candidates(3, 9) == [6, 12, 8, 10];
    NoOpenNeighbour(3, openedSites, 9);
  }

  lemma BackwashReach(openedSites: seq<bool>)
    requires |openedSites| == 10
    requires openedSites[1] && openedSites[4] && openedSites[7] && openedSites[9]
    ensures Reach(3, openedSites, Top(3), 9)
  {
    assert IsOpenSite(openedSites, Index(3, 1, 1)) && IsOpenSite(openedSites, Index(3, 2, 1));
    assert IsOpenSite(openedSites, Index(3, 3, 1));
    OpenColumnPercolates(3, openedSites, 1);
    BottomEdges(3, openedSites, 9);
    ReachEdge(3, openedSites, Top(3), Bottom(3), 9);
  }

  /** `x` indexes an open entry of the bitmap. */
  predicate IsOpenSite(openedSites: seq<bool>, x: int)
  {
    0 <= x < |openedSites| && openedSites[x]
  }

  /** The top reaches every site down an open stretch of column `c` that starts in row 1. */
  lemma {:induction false} ColumnReach(n: int, openedSites: seq<bool>, c: int, r: int)
    requires n >= 1 && |openedSites| == n * n + 1 && 1 <= c <= n && 1 <= r <= n
    requires forall k :: 1 <= k <= r ==> IsOpenSite(openedSites, Index(n, k, c))
    ensures Reach(n, openedSites, Top(n), Index(n, r, c))
  {
    CellToSite(n, r, c);
    if r == 1 {
      TopEdge(n, openedSites, Index(n, 1, c));
      ReachRefl(n, openedSites, Top(n));
      ReachEdge(n, openedSites, Top(n), Top(n), Index(n, 1, c));
    } else {
      ColumnReach(n, openedSites, c, r - 1);
      CellsAdjacent(n, r - 1, c, r, c);
      AdjacentEdge(n, openedSites, Index(n, r - 1, c), Index(n, r, c));
      ReachEdge(n, openedSites, Top(n), Index(n, r - 1, c), Index(n, r, c));
    }
  }

  /** A column whose every site is open makes the system percolate. */
  lemma OpenColumnPercolates(n: int, openedSites: seq<bool>, c: int)
    requires n >= 1 && |openedSites| == n * n + 1 && 1 <= c <= n
    requires forall k :: 1 <= k <= n ==> IsOpenSite(openedSites, Index(n, k, c))
    ensures Reach(n, openedSites, Top(n), Bottom(n))
  {
    ColumnReach(n, openedSites, c, n);
    CellToSite(n, n, c);
    assert n * (n - 1) == n * n - n;
    BottomEdges(n, openedSites, Index(n, n, c));
    ReachEdge(n, openedSites, Top(n), Index(n, n, c), Bottom(n));
  }

  lemma AdjacentEdge(n: int, openedSites: seq<bool>, a: int, b: int)
    requires |openedSites| == n * n + 1 && Adjacent(n, a, b) && openedSites[a] && openedSites[b]
    ensures Edge(n, openedSites, a, b)
  {
  }

  lemma TopEdge(n: int, openedSites: seq<bool>, a: int)
    requires n >= 1 && |openedSites| == n * n + 1 && IsSite(n, a) && a <= n && openedSites[a]
    ensures Edge(n, openedSites, Top(n), a)
  {
  }

  lemma BottomEdges(n: int, openedSites: seq<bool>, a: int)
    requires n >= 1 && |openedSites| == n * n + 1 && IsSite(n, a) && a >= n * n - n && openedSites[a]
    ensures Edge(n, openedSites, a, Bottom(n)) && Edge(n, openedSites, Bottom(n), a)
  {
  }
}
