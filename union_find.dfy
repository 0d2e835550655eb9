/**
 * DkUnionFind: a disjoint-set structure over the elements 0..elementCount-1,
 * with union by rank and recursive path compression. The arrays are updated
 * in place; the ghost `bound` stays at least every rank and is the
 * termination measure of the recursive Find.
 */
module UnionFind {
  import opened Forest

  class UnionFind {
    const elementCount: nat
    const parent: array<int>
    const rank: array<int>
    ghost var bound: int

    ghost predicate Valid()
      reads this, parent, rank
    {
      && parent != rank
      && parent.Length == elementCount && rank.Length == elementCount
      && ValidForest(parent[..], rank[..], bound)
    }

    /** The representative of v's set: the root Find would return. */
    ghost function RootOf(v: int): int
      reads this, parent, rank
      requires Valid() && 0 <= v < elementCount
    {
      Root(parent[..], rank[..], bound, v)
    }

    /** Every element starts as the root of a set of its own, with rank 0. */
    constructor (elementCount: nat)
      ensures Valid() && fresh(parent) && fresh(rank)
      ensures this.elementCount == elementCount
      ensures Singletons(parent[..])
      ensures forall i :: 0 <= i < elementCount ==> rank[i] == 0
      ensures forall v :: 0 <= v < elementCount ==> RootOf(v) == v
    {
      var p := new int[elementCount];
      for v := 0 to elementCount
        invariant forall j :: 0 <= j < v ==> p[j] == j
      {
        p[v] := v;
      }
      this.elementCount := elementCount;
      parent := p;
      rank := new int[elementCount](_ => 0);
      bound := 0;
    }

    /**
     * The root of v's set. Every node on the path from v is re-pointed at
     * that root (Compress); no element's root changes.
     */
    method Find(v: int) returns (r: int)
      requires Valid() && 0 <= v < elementCount
      modifies parent
      ensures Valid()
      ensures r == old(RootOf(v)) && parent[r] == r && parent[v] == r
      ensures parent[..] == Compress(old(parent[..]), rank[..], bound, v)
      ensures forall w :: 0 <= w < elementCount ==> RootOf(w) == old(RootOf(w))
      ensures forall w :: 0 <= w < elementCount ==> (parent[w] == w <==> old(parent[w]) == w)
      decreases bound - rank[v]
    {
      CompressKeepsRoots(parent[..], rank[..], bound, v);
      if parent[v] == v {
        return v;
      }
      r := Find(parent[v]);
      parent[v] := r;
    }

    /**
     * Merges the sets of u and v; false when they already share a root.
     * The root of lower rank is hung under the other one, whose rank grows
     * only on a tie.
     */
    method Union(u: int, v: int) returns (merged: bool)
      requires Valid() && 0 <= u < elementCount && 0 <= v < elementCount
      modifies this, parent, rank
      ensures Valid()
      ensures merged <==> old(RootOf(u) != RootOf(v))
      ensures !merged ==> rank[..] == old(rank[..]) && bound == old(bound)
      ensures !merged ==>
        parent[..] == old(Compress(Compress(parent[..], rank[..], bound, u), rank[..], bound, v))
      ensures merged ==>
        var ru, rv := old(RootOf(u)), old(RootOf(v));
        var (x, y) := if old(rank[ru] > rank[rv]) then (rv, ru) else (ru, rv);
        && old(rank[x] <= rank[y])
        && parent[..] == old(Compress(Compress(parent[..], rank[..], bound, u), rank[..], bound, v))[x := y]
        && rank[..] == LinkRank(old(rank[..]), x, y)
      ensures MergedSets(old(parent[..]), old(rank[..]), old(bound), parent[..], rank[..], bound, u, v)
    {
      ghost var p0, r0, b0 := parent[..], rank[..], bound;
      var pu := Find(u);
      ghost var p1 := parent[..];
      var pv := Find(v);
      ghost var p2 := parent[..];
      assert p2 == Compress(Compress(p0, r0, b0, u), r0, b0, v) by {
        assert p1 == Compress(p0, r0, b0, u);
      }
      if pu == pv {
        SameRootsMerged(p0, r0, b0, p2, u, v);
        return false;
      }
      if rank[pu] > rank[pv] {
        pu, pv := pv, pu;
      }
      LinkMerges(p0, r0, b0, p2, u, v, pu, pv);
      Link(pu, pv);
      return true;
    }

    /**
     * Union's link step on two distinct roots: x is hung under y, and y's
     * rank grows when the ranks tie.
     */
    method Link(x: int, y: int)
      requires Valid() && 0 <= x < elementCount && 0 <= y < elementCount && x != y
      requires parent[x] == x && parent[y] == y && rank[x] <= rank[y]
      modifies this, parent, rank
      ensures parent[..] == old(parent[..])[x := y]
      ensures rank[..] == LinkRank(old(rank[..]), x, y)
      ensures bound == Max(old(bound), rank[y])
      ensures Valid()
    {
      LinkPreservesForest(parent[..], rank[..], bound, x, y);
      parent[x] := y;
      if rank[y] == rank[x] {
        rank[y] := rank[y] + 1;
      }
      bound := Max(bound, rank[y]);
    }

    /**
     * One turn of CountRoots' loop: Find on the parent value at index i,
     * counting it when that value is its own root.
     */
    method CountRootsStep(i: int, count: int, ghost total: int) returns (next: int)
      requires Valid() && 0 <= i < elementCount
      requires count + CountRootsFrom(parent[..], rank[..], bound, i) == total
      modifies parent
      ensures Valid()
      ensures next + CountRootsFrom(parent[..], rank[..], bound, i + 1) == total
      ensures forall w :: 0 <= w < elementCount ==> RootOf(w) == old(RootOf(w))
    {
      ghost var before := parent[..];
      var v := parent[i];
      var r := Find(v);
      assert parent[..] == Compress(before, rank[..], bound, v);
      next := if v == r then count + 1 else count;
    }

    /**
     * CountRoots as written: it walks the parent VALUES, asks Find for each
     * and counts the values that are their own root.
     */
    method CountRoots() returns (count: int)
      requires Valid()
      modifies parent
      ensures Valid()
      ensures count == CountRootsFrom(old(parent[..]), rank[..], bound, 0)
      ensures |RootSet(old(parent[..]))| <= count <= elementCount
      ensures forall w :: 0 <= w < elementCount ==> RootOf(w) == old(RootOf(w))
    {
      CountRootsBounds(parent[..], rank[..], bound);
      ghost var total := CountRootsFrom(parent[..], rank[..], bound, 0);
      count := 0;
      var i := 0;
      while i < elementCount
        invariant 0 <= i <= elementCount
        invariant Valid()
        invariant count + CountRootsFrom(parent[..], rank[..], bound, i) == total
        invariant forall w :: 0 <= w < elementCount ==> RootOf(w) == old(RootOf(w))
      {
        count := CountRootsStep(i, count, total);
        i := i + 1;
      }
    }

    /** The number of sets: the elements that are their own root. */
    method CountSets() returns (count: int)
      requires Valid()
      modifies parent
      ensures Valid()
      ensures count == |RootSet(old(parent[..]))|
      ensures count == |old(Representatives(parent[..], rank[..], bound))|
      ensures forall w :: 0 <= w < elementCount ==> RootOf(w) == old(RootOf(w))
      ensures forall w :: 0 <= w < elementCount ==> (parent[w] == w <==> old(parent[w]) == w)
    {
      RootSetIsRepresentatives(parent[..], rank[..], bound);
      count := 0;
      var i := 0;
      while i < elementCount
        invariant 0 <= i <= elementCount
        invariant Valid()
        invariant forall w :: 0 <= w < elementCount ==> (parent[w] == w <==> old(parent[w]) == w)
        invariant count == |RootsBelow(old(parent[..]), i)|
        invariant forall w :: 0 <= w < elementCount ==> RootOf(w) == old(RootOf(w))
      {
        RootsBelowStep(old(parent[..]), i);
        var r := Find(i);
        if r == i {
          count := count + 1;
        }
        i := i + 1;
      }
      assert RootsBelow(old(parent[..]), i) == RootSet(old(parent[..]));
    }
  }

  /**
   * Two elements joined by one Union form one set, yet CountRoots reports
   * two: both parent values are the root 1. CountSets reports the one set.
   */
  method CountAfterOneUnion() returns (count: int, sets: int)
    ensures count == 2 && sets == 1
  {
    var uf := new UnionFind(2);
    var merged := uf.Union(0, 1);
    assert uf.parent[..] == [1, 1] by {
      assert Compress([0, 1], [0, 0], 0, 0) == [0, 1];
      assert Compress([0, 1], [0, 0], 0, 1) == [0, 1];
    }
    sets := uf.CountSets();
    assert uf.parent[..] == [1, 1] by {
      assert uf.parent[1] == 1 && uf.parent[0] != 0;
    }
    CountRootsAfterOneUnion(uf.rank[..], uf.bound);
    count := uf.CountRoots();
  }
}
