/**
 * DkDisjoinSet: the same disjoint-set algorithm as DkUnionFind under other
 * names (the parent array is called `set` in the source, `sets` here since
 * `set` is a Dafny keyword), with a MergeSets that returns nothing and no
 * root count.
 */
module DisjoinSet {
  import opened Forest

  class DisjoinSet {
    const elementCount: nat
    const sets: array<int>
    const rank: array<int>
    ghost var bound: int

    ghost predicate Valid()
      reads this, sets, rank
    {
      && sets != rank
      && sets.Length == elementCount && rank.Length == elementCount
      && ValidForest(sets[..], rank[..], bound)
    }

    /** The representative of v's set: the root FindSet would return. */
    ghost function RootOf(v: int): int
      reads this, sets, rank
      requires Valid() && 0 <= v < elementCount
    {
      Root(sets[..], rank[..], bound, v)
    }

    /** Every element starts as the root of a set of its own, with rank 0. */
    constructor (elementCount: nat)
      ensures Valid() && fresh(sets) && fresh(rank)
      ensures this.elementCount == elementCount
      ensures Singletons(sets[..])
      ensures forall i :: 0 <= i < elementCount ==> rank[i] == 0
      ensures forall v :: 0 <= v < elementCount ==> RootOf(v) == v
    {
      this.elementCount := elementCount;
      var s := new int[elementCount];
      sets := s;
      rank := new int[elementCount](_ => 0);
      bound := 0;
      new;
      for v := 0 to elementCount
        invariant forall j :: 0 <= j < v ==> s[j] == j
        invariant forall j :: 0 <= j < elementCount ==> rank[j] == 0
        invariant bound == 0
      {
        s[v] := v;
      }
    }

    /**
     * The root of v's set, re-pointing every node on the path from v at that
     * root (Compress); no element's root changes.
     */
    method FindSet(v: int) returns (r: int)
      requires Valid() && 0 <= v < elementCount
      modifies sets
      ensures Valid()
      ensures r == old(RootOf(v)) && sets[r] == r && sets[v] == r
      ensures sets[..] == Compress(old(sets[..]), rank[..], bound, v)
      ensures forall w :: 0 <= w < elementCount ==> RootOf(w) == old(RootOf(w))
      decreases bound - rank[v]
    {
      if sets[v] == v {
        return v;
      }
      r := FindSet(sets[v]);
      sets[v] := r;
    }

    /**
     * Merges the sets of u and v; nothing but path compression happens when
     * they already share a root. The root of lower rank is hung under the
     * other one, whose rank grows only on a tie.
     */
    method MergeSets(u: int, v: int)
      requires Valid() && 0 <= u < elementCount && 0 <= v < elementCount
      modifies this, sets, rank
      ensures Valid()
      ensures old(RootOf(u) == RootOf(v)) ==>
        && rank[..] == old(rank[..]) && bound == old(bound)
        && sets[..] == old(Compress(Compress(sets[..], rank[..], bound, u), rank[..], bound, v))
        && forall w :: 0 <= w < elementCount ==> RootOf(w) == old(RootOf(w))
      ensures old(RootOf(u) != RootOf(v)) ==>
        var ru, rv := old(RootOf(u)), old(RootOf(v));
        var (x, y) := if old(rank[ru] > rank[rv]) then (rv, ru) else (ru, rv);
        && old(rank[x] <= rank[y])
        && sets[..] == old(Compress(Compress(sets[..], rank[..], bound, u), rank[..], bound, v))[x := y]
        && rank[..] == LinkRank(old(rank[..]), x, y)
      ensures MergedSets(old(sets[..]), old(rank[..]), old(bound), sets[..], rank[..], bound, u, v)
    {
      ghost var p0, r0, b0 := sets[..], rank[..], bound;
      var pu := FindSet(u);
      ghost var p1 := sets[..];
      var pv := FindSet(v);
      ghost var p2 := sets[..];
      assert p2 == Compress(Compress(p0, r0, b0, u), r0, b0, v) by {
        assert p1 == Compress(p0, r0, b0, u);
      }
      if pu != pv {
        if rank[pu] > rank[pv] {
          pu, pv := pv, pu;
        }
        LinkMerges(p0, r0, b0, p2, u, v, pu, pv);
        Link(pu, pv);
      } else {
        SameRootsMerged(p0, r0, b0, p2, u, v);
      }
    }

    /**
     * MergeSets' link step on two distinct roots: x is hung under y, and
     * y's rank grows when the ranks tie.
     */
    method Link(x: int, y: int)
      requires Valid() && 0 <= x < elementCount && 0 <= y < elementCount && x != y
      requires sets[x] == x && sets[y] == y && rank[x] <= rank[y]
      modifies this, sets, rank
      ensures sets[..] == old(sets[..])[x := y]
      ensures rank[..] == LinkRank(old(rank[..]), x, y)
      ensures bound == Max(old(bound), rank[y])
      ensures Valid()
    {
      LinkPreservesForest(sets[..], rank[..], bound, x, y);
      sets[x] := y;
      if rank[y] == rank[x] {
        rank[y] := rank[y] + 1;
      }
      bound := Max(bound, rank[y]);
    }
  }
}
