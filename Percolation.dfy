/**
 * The percolation engine: an n-by-n grid of sites, each blocked or open,
 * and a union-find partition over the sites plus a virtual top node and a
 * virtual bottom node. Opening a site joins it with its open neighbours and,
 * in the first row, with the top node and, from id `n*n - n` on, with the
 * bottom node; the system percolates when top and bottom share a class.
 */
module Percolation {
  import opened Grid
  import UnionFind

  class Percolation {
    /** The side length of the grid. */
    const n: int

    /** The partition over index 0, the sites `1 .. n*n`, the top and the bottom node. */
    const sites: UnionFind.QuickFindUF

    /** Whether each site `1 .. n*n` is open; entry 0 is never set. */
    const openedSites: array<bool>

    const MAXIMUM_NEIGHBOURS: int := 4

    const virtualTopID: int

    const virtualBtmID: int

    var numOpenSites: int

    /**
     * The object invariant: the sizes and node ids fixed at construction, the
     * counter in step with the bitmap, and the classes of the partition
     * exactly the connected components of the open-site graph.
     */
    ghost predicate Valid()
      reads this, openedSites, sites, sites.id
    {
      n >= 1 &&
      openedSites.Length == n * n + 1 &&
      sites.id.Length == n * n + 3 &&
      virtualTopID == Top(n) && virtualBtmID == Bottom(n) &&
      sites.Valid() &&
      !openedSites[0] &&
      numOpenSites == CountOpen(openedSites[..]) &&
      PartitionIsReach(n, openedSites[..], sites.Labels())
    }

    /** A grid with every site blocked; `New` rejects a non-positive `n`. */
    constructor (n: int)
      requires n >= 1
      ensures Valid()
      ensures fresh(openedSites) && fresh(sites) && fresh(sites.id)
      ensures this.n == n && numOpenSites == 0
      ensures virtualTopID == n * n + 1 && virtualBtmID == n * n + 2
      ensures forall k :: 0 <= k < openedSites.Length ==> !openedSites[k]
      ensures forall x, y :: 0 <= x < n * n + 3 && 0 <= y < n * n + 3 ==>
        (sites.Labels()[x] == sites.Labels()[y] <==> x == y)
    {
      var uf := new UnionFind.QuickFindUF(n * n + 3);
      var marks := new bool[n * n + 1];
      // A Java boolean array starts out all false; entry 0 is never written again.
      marks[0] := false;
      var i := 1;
      while i <= n * n
        invariant 1 <= i <= n * n + 1
        invariant forall k :: 0 <= k < i ==> !marks[k]
        modifies marks
      {
        marks[i] := false;
        i := i + 1;
      }
      this.sites := uf;
      this.openedSites := marks;
      this.n := n;
      this.virtualTopID := n * n + 1;
      this.virtualBtmID := n * n + 2;
      this.numOpenSites := 0;
      new;
      CountOpenNone(openedSites[..]);
      InitialPartition(n, openedSites[..], sites.Labels());
    }

    /** Creates the engine, failing with `IllegalArgument` when `n <= 0`. */
    static method New(n: int) returns (r: Result<Percolation>)
      ensures r.Failure? <==> n <= 0
      ensures r.Failure? ==> r.error == IllegalArgument
      ensures r.Success? ==>
        && fresh(r.value) && fresh(r.value.openedSites) && fresh(r.value.sites) && fresh(r.value.sites.id)
        && r.value.Valid() && r.value.n == n && r.value.numOpenSites == 0
        && (forall k :: 0 <= k < r.value.openedSites.Length ==> !r.value.openedSites[k])
    {
      if n <= 0 {
        return Failure(IllegalArgument);
      }
      var p := new Percolation(n);
      return Success(p);
    }

    /**
     * Opens the site at (row, col) if it is blocked. Fails with
     * `IndexOutOfBounds`, changing nothing, outside the grid; re-opening an
     * open site changes nothing.
     */
    method Open(row: int, col: int) returns (r: Outcome)
      requires Valid()
      modifies this, openedSites, sites.id
      ensures Valid()
      ensures r.Fail? <==> !InRange(n, row, col)
      ensures r.Fail? ==> r.error == IndexOutOfBounds
      ensures r.Fail? ==> unchanged(this, openedSites, sites.id)
      ensures r.Pass? ==>
        var i := Index(n, row, col);
        && 1 <= i < openedSites.Length
        && openedSites[..] == old(openedSites[..])[i := true]
        && numOpenSites == old(numOpenSites) + (if old(openedSites[i]) then 0 else 1)
        && sites.Labels() == (if old(openedSites[i]) then old(sites.Labels())
                              else UnionAll(old(sites.Labels()), i, Partners(n, openedSites[..], i)))
    {
      var res := XyTo1D(n, row, col);
      if res.Failure? {
        return Fail(res.error);
      }
      var i := res.value;
      assert i == Index(n, row, col);
      CellToSite(n, row, col);
      if openedSites[i] {
        assert openedSites[..] == openedSites[..][i := true];
      } else {
        ghost var labels0 := sites.Labels();
        ghost var before := openedSites[..];
        openedSites[i] := true;
        assert openedSites[..] == before[i := true];
        JoinPartners(i);
        numOpenSites := numOpenSites + 1;
        CountOpenSet(before, i);
        OpenKeepsPartition(n, before, labels0, i);
      }
      return Pass;
    }

    /**
     * The unions `open` performs for the freshly opened site `i`: with each
     * open neighbour the row/column test accepts, then with the top node in
     * the first row and with the bottom node from id `n*n - n` on.
     */
    method JoinPartners(i: int)
      requires n >= 1 && openedSites.Length == n * n + 1 && sites.id.Length == n * n + 3
      requires virtualTopID == Top(n) && virtualBtmID == Bottom(n)
      requires sites.Valid() && IsSite(n, i)
      modifies sites.id
      ensures sites.Valid()
      ensures sites.Labels() == UnionAll(old(sites.Labels()), i, Partners(n, openedSites[..], i))
    {
      ghost var labels0 := sites.Labels();
      ghost var bits := openedSites[..];
      ghost var ps := JoinCandidates(i);
      ghost var nbs := ps;
      assert nbs == JoinedNeighbours(n, bits, i, Candidates(n, i));
      if i <= n {
        UnionAllSnoc(labels0, i, ps, virtualTopID);
        sites.Union(i, virtualTopID);
        ps := ps + [virtualTopID];
      }
      if i >= n * n - n {
        UnionAllSnoc(labels0, i, ps, virtualBtmID);
        sites.Union(i, virtualBtmID);
        ps := ps + [virtualBtmID];
      }
      assert openedSites[..] == bits;
      assert ps == nbs + (if i <= n then [Top(n)] else []) + (if i >= n * n - n then [Bottom(n)] else []);
      assert ps == Partners(n, bits, i);
    }

    /**
     * The neighbour loop of `open`: visits the ids above, below, left of and
     * right of `i` in that order, joining `i` with those the test accepts.
     * Returns, as a ghost, the accepted ids in visiting order.
     */
    method JoinCandidates(i: int) returns (ghost ps: seq<int>)
      requires n >= 1 && openedSites.Length == n * n + 1 && sites.id.Length == n * n + 3
      requires sites.Valid() && IsSite(n, i)
      modifies sites.id
      ensures ps == JoinedNeighbours(n, openedSites[..], i, Candidates(n, i))
      ensures forall k :: 0 <= k < |ps| ==> 0 <= ps[k] < sites.id.Length
      ensures sites.Valid()
      ensures sites.Labels() == UnionAll(old(sites.Labels()), i, ps)
    {
      ghost var labels0 := sites.Labels();
      ghost var after := openedSites[..];
      var posNeighbours := new int[] [i - n, i + n, i - 1, i + 1];
      ps := [];
      for j := 0 to MAXIMUM_NEIGHBOURS
        invariant sites.Valid()
        invariant ps == JoinedNeighbours(n, after, i, posNeighbours[..j])
        invariant sites.Labels() == UnionAll(labels0, i, ps)
        modifies sites.id
      {
        assert posNeighbours[..j + 1] == posNeighbours[..j] + [posNeighbours[j]];
        JoinedNeighboursSnoc(n, after, i, posNeighbours[..j], posNeighbours[j]);
        ps := JoinNeighbour(i, posNeighbours[j], labels0, ps);
      }
      assert posNeighbours[..MAXIMUM_NEIGHBOURS] == Candidates(n, i);
    }

    /**
     * One pass of the neighbour loop of `open`: skips a candidate id outside
     * `0 .. n*n` or blocked, and otherwise unions it with `i` when the two
     * share a row or a column. The ghost `ps` lists the ids joined so far.
     */
    method JoinNeighbour(i: int, nb: int, ghost labels0: seq<int>, ghost ps: seq<int>) returns (ghost ps': seq<int>)
      requires n >= 1 && openedSites.Length == n * n + 1 && sites.id.Length == n * n + 3
      requires sites.Valid() && IsSite(n, i) && |labels0| == n * n + 3
      requires forall k :: 0 <= k < |ps| ==> 0 <= ps[k] < |labels0|
      requires sites.Labels() == UnionAll(labels0, i, ps)
      modifies sites.id
      ensures ps' == ps + (if Joined(n, openedSites[..], i, nb) then [nb] else [])
      ensures sites.Valid()
      ensures sites.Labels() == UnionAll(labels0, i, ps')
    {
      ps' := ps;
      if nb < 0 {
        return;
      }
      if nb > n * n {
        return;
      }
      if openedSites[nb] {
        var tmpRow := ((i + n) - 1) / n;
        var tmpCol := i - n * (tmpRow - 1);
        var neighbourRow := ((nb + n) - 1) / n;
        var neighbourCol := nb - n * (neighbourRow - 1);
        assert tmpRow == RowOf(n, i) && tmpCol == ColOf(n, i);
        assert neighbourRow == RowOf(n, nb) && neighbourCol == ColOf(n, nb);
        if tmpRow == neighbourRow || tmpCol == neighbourCol {
          UnionAllSnoc(labels0, i, ps, nb);
          sites.Union(i, nb);
          ps' := ps + [nb];
        }
      }
    }

    /** Whether the site at (row, col) is open; `IndexOutOfBounds` outside the grid. */
    function IsOpen(row: int, col: int): (r: Result<bool>)
      reads this, openedSites, sites, sites.id
      requires Valid()
      ensures r.Failure? <==> !InRange(n, row, col)
      ensures r.Failure? ==> r.error == IndexOutOfBounds
      ensures r.Success? ==> 1 <= Index(n, row, col) < openedSites.Length && r.value == openedSites[Index(n, row, col)]
    {
      match XyTo1D(n, row, col)
      case Failure(e) => Failure(e)
      case Success(i) =>
        CellToSite(n, row, col);
        Success(openedSites[i])
    }

    /**
     * Whether the site at (row, col) shares a class with the virtual top,
     * that is, whether the top reaches it in the open-site graph; a blocked
     * site is never full.
     */
    function IsFull(row: int, col: int): (r: Result<bool>)
      reads this, openedSites, sites, sites.id
      requires Valid()
      ensures r.Failure? <==> !InRange(n, row, col)
      ensures r.Failure? ==> r.error == IndexOutOfBounds
      ensures r.Success? ==> (r.value <==> Reach(n, openedSites[..], Top(n), Index(n, row, col)))
      ensures r.Success? && r.value ==> openedSites[Index(n, row, col)]
    {
      match XyTo1D(n, row, col)
      case Failure(e) => Failure(e)
      case Success(i) =>
        BlockedNeverFull(n, openedSites[..], i);
        Success(sites.Find(i) == sites.Find(virtualTopID))
    }

    /** The number of open sites in the bitmap. */
    function NumberOfOpenSites(): (r: int)
      reads this, openedSites, sites, sites.id
      requires Valid()
      ensures r == CountOpen(openedSites[..])
    {
      numOpenSites
    }

    /** Whether the virtual top reaches the virtual bottom in the open-site graph. */
    function Percolates(): (r: bool)
      reads this, openedSites, sites, sites.id
      requires Valid()
      ensures r <==> Reach(n, openedSites[..], Top(n), Bottom(n))
    {
      sites.Find(virtualBtmID) == sites.Find(virtualTopID)
    }
  }
}
