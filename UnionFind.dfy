/**
 * A quick-find disjoint-set structure standing in for the library union-find
 * that the percolation engine uses. Each element carries the label of its
 * class in `id`; two elements are in the same class exactly when their labels
 * agree. Only the observable contract of the library is modelled: `Find`
 * yields a canonical member of a class and `Union` merges exactly two classes.
 */
module UnionFind {

  /** Labels are canonical: every label is an element that labels itself. */
  ghost predicate Canonical(labels: seq<int>)
  {
    forall k :: 0 <= k < |labels| ==> 0 <= labels[k] < |labels| && labels[labels[k]] == labels[k]
  }

  /** The labelling after merging the class of `p` into the class of `q`. */
  function Merged(labels: seq<int>, p: int, q: int): (r: seq<int>)
    requires 0 <= p < |labels| && 0 <= q < |labels|
    ensures |r| == |labels|
  {
    seq(|labels|, k requires 0 <= k < |labels| => if labels[k] == labels[p] then labels[q] else labels[k])
  }

  /**
   * Merging joins exactly the class of `p` with the class of `q`: two
   * elements share a class afterwards exactly when they shared one before or
   * one lay in each of the two merged classes.
   */
  lemma MergedClasses(labels: seq<int>, p: int, q: int)
    requires 0 <= p < |labels| && 0 <= q < |labels|
    ensures forall x, y :: 0 <= x < |labels| && 0 <= y < |labels| ==>
      (Merged(labels, p, q)[x] == Merged(labels, p, q)[y] <==>
        labels[x] == labels[y]
        || (labels[x] == labels[p] && labels[y] == labels[q])
        || (labels[x] == labels[q] && labels[y] == labels[p]))
  {
  }

  /** Merging two classes keeps the labels canonical. */
  lemma MergedCanonical(labels: seq<int>, p: int, q: int)
    requires 0 <= p < |labels| && 0 <= q < |labels|
    requires Canonical(labels)
    ensures Canonical(Merged(labels, p, q))
  {
    var r := Merged(labels, p, q);
    forall k | 0 <= k < |r|
      ensures 0 <= r[k] < |r| && r[r[k]] == r[k]
    {
      var lp, lq := labels[p], labels[q];
      if labels[k] == lp {
        assert r[k] == lq;
        assert labels[lq] == lq;
        if lq == lp {
          assert r[lq] == lq;
        } else {
          assert r[lq] == labels[lq];
        }
      } else {
        assert r[k] == labels[k];
        assert labels[labels[k]] == labels[k];
        assert r[labels[k]] == labels[k];
      }
    }
  }

  class QuickFindUF {
    /** The class label of every element of the universe `0 .. id.Length - 1`. */
    const id: array<int>

    ghost predicate Valid()
      reads this, id
    {
      Canonical(id[..])
    }

    /** The partition as a sequence of labels. */
    ghost function Labels(): (s: seq<int>)
      reads this, id
      ensures |s| == id.Length
    {
      id[..]
    }

    /** `count` singleton classes `0 .. count - 1`. */
    constructor (count: int)
      requires count >= 0
      ensures Valid() && fresh(id)
      ensures id.Length == count
      ensures forall x, y :: 0 <= x < count && 0 <= y < count ==> (Labels()[x] == Labels()[y] <==> x == y)
    {
      var a := new int[count];
      var i := 0;
      while i < count
        invariant 0 <= i <= count
        invariant forall k :: 0 <= k < i ==> a[k] == k
      {
        a[i] := i;
        i := i + 1;
      }
      id := a;
    }

    /** A canonical member of the class of `p`, shared by the whole class. */
    function Find(p: int): (r: int)
      reads this, id
      requires Valid()
      requires 0 <= p < id.Length
      ensures 0 <= r < id.Length
      ensures Labels()[r] == r
      ensures forall q :: 0 <= q < id.Length ==> (Labels()[q] == Labels()[p] <==> Labels()[q] == r)
    {
      id[p]
    }

    /** Merges the classes of `p` and `q`; nothing else changes. */
    method Union(p: int, q: int)
      requires Valid()
      requires 0 <= p < id.Length && 0 <= q < id.Length
      modifies id
      ensures Valid()
      ensures Labels() == Merged(old(Labels()), p, q)
    {
      ghost var before := id[..];
      var pid := id[p];
      var qid := id[q];
      var i := 0;
      while i < id.Length
        invariant 0 <= i <= id.Length
        invariant forall k :: 0 <= k < i ==> id[k] == Merged(before, p, q)[k]
        invariant forall k :: i <= k < id.Length ==> id[k] == before[k]
      {
        if id[i] == pid {
          id[i] := qid;
        }
        i := i + 1;
      }
      assert id[..] == Merged(before, p, q);
      MergedCanonical(before, p, q);
    }
  }
}
