/**
 * The theory shared by the two union-find classes (DkUnionFind and
 * DkDisjoinSet): a parent array and a rank array seen as sequences.
 *
 * A node whose parent is itself is a root. Every other node has a parent of
 * strictly higher rank, which is what makes following parent links terminate;
 * `bound` is any number at least as large as every rank and only serves as
 * the termination measure `bound - rank[v]`.
 */
module Forest {

  ghost predicate ValidForest(parent: seq<int>, rank: seq<int>, bound: int) {
    && |parent| == |rank|
    && (forall i :: 0 <= i < |parent| ==> 0 <= parent[i] < |parent|)
    && (forall i :: 0 <= i < |rank| ==> 0 <= rank[i] <= bound)
    && (forall i :: 0 <= i < |parent| && parent[i] != i ==> rank[i] < rank[parent[i]])
  }

  /** The root reached from `v` by following parent links. */
  ghost function Root(parent: seq<int>, rank: seq<int>, bound: int, v: int): (r: int)
    requires ValidForest(parent, rank, bound) && 0 <= v < |parent|
    ensures 0 <= r < |parent| && parent[r] == r
    ensures r == v || rank[v] < rank[r]
    ensures r == v <==> parent[v] == v
    decreases bound - rank[v]
  {
    if parent[v] == v then v else Root(parent, rank, bound, parent[v])
  }

  ghost predicate SameSet(parent: seq<int>, rank: seq<int>, bound: int, u: int, v: int)
    requires ValidForest(parent, rank, bound) && 0 <= u < |parent| && 0 <= v < |parent|
  {
    Root(parent, rank, bound, u) == Root(parent, rank, bound, v)
  }

  /** The forest in which every element is a root of its own, as the constructors build it. */
  ghost predicate Singletons(parent: seq<int>) {
    forall i :: 0 <= i < |parent| ==> parent[i] == i
  }

  /**
   * Every node either keeps its parent or points straight at its root: the
   * shape of every change path compression makes.
   */
  ghost predicate Shortcut(parent: seq<int>, rank: seq<int>, bound: int, p: seq<int>)
    requires ValidForest(parent, rank, bound)
  {
    && |p| == |parent|
    && forall w :: 0 <= w < |p| ==> p[w] == parent[w] || p[w] == Root(parent, rank, bound, w)
  }

  lemma {:induction false} ShortcutRoot(parent: seq<int>, rank: seq<int>, bound: int, p: seq<int>, w: int)
    requires ValidForest(parent, rank, bound) && Shortcut(parent, rank, bound, p)
    requires ValidForest(p, rank, bound)
    requires 0 <= w < |p|
    ensures Root(p, rank, bound, w) == Root(parent, rank, bound, w)
    decreases bound - rank[w]
  {
    if p[w] != w {
      if p[w] == parent[w] {
        ShortcutRoot(parent, rank, bound, p, parent[w]);
      } else {
        var r := Root(parent, rank, bound, w);
        assert p[r] == r;
      }
    }
  }

  /** Redirecting nodes straight to their roots keeps a forest and every node's root. */
  lemma ShortcutPreservesRoots(parent: seq<int>, rank: seq<int>, bound: int, p: seq<int>)
    requires ValidForest(parent, rank, bound) && Shortcut(parent, rank, bound, p)
    ensures ValidForest(p, rank, bound)
    ensures forall w :: 0 <= w < |p| ==> Root(p, rank, bound, w) == Root(parent, rank, bound, w)
  {
    forall w | 0 <= w < |p|
      ensures Root(p, rank, bound, w) == Root(parent, rank, bound, w)
    {
      ShortcutRoot(parent, rank, bound, p, w);
    }
  }

  /**
   * The parent sequence after the recursive path compression of Find/FindSet
   * on `v`: the path above `v` is compressed first, then `v` itself is made
   * to point at its root.
   */
  ghost function Compress(parent: seq<int>, rank: seq<int>, bound: int, v: int): (p: seq<int>)
    requires ValidForest(parent, rank, bound) && 0 <= v < |parent|
    ensures Shortcut(parent, rank, bound, p)
    ensures p[v] == Root(parent, rank, bound, v)
    ensures ValidForest(p, rank, bound)
    ensures forall w :: 0 <= w < |p| ==> Root(p, rank, bound, w) == Root(parent, rank, bound, w)
    decreases bound - rank[v]
  {
    if parent[v] == v then
      parent
    else
      var p := Compress(parent, rank, bound, parent[v])[v := Root(parent, rank, bound, v)];
      ShortcutPreservesRoots(parent, rank, bound, p);
      p
  }

  /** Roots stay roots and non-roots stay non-roots under compression. */
  lemma CompressKeepsRoots(parent: seq<int>, rank: seq<int>, bound: int, v: int)
    requires ValidForest(parent, rank, bound) && 0 <= v < |parent|
    ensures var p := Compress(parent, rank, bound, v);
      forall w :: 0 <= w < |p| ==> (p[w] == w <==> parent[w] == w)
  {
    var p := Compress(parent, rank, bound, v);
    forall w | 0 <= w < |p|
      ensures p[w] == w <==> parent[w] == w
    {
      assert Root(p, rank, bound, w) == Root(parent, rank, bound, w);
    }
  }

  /** The ranks after hanging root `x` under root `y`: `y` grows only on a tie. */
  function LinkRank(rank: seq<int>, x: int, y: int): seq<int>
    requires 0 <= x < |rank| && 0 <= y < |rank|
  {
    if rank[x] == rank[y] then rank[y := rank[y] + 1] else rank
  }

  function Max(a: int, b: int): int {
    if a < b then b else a
  }

  lemma {:induction false} LinkRoot(parent: seq<int>, rank: seq<int>, bound: int, x: int, y: int, bound': int, w: int)
    requires ValidForest(parent, rank, bound)
    requires 0 <= x < |parent| && 0 <= y < |parent| && x != y
    requires parent[x] == x && parent[y] == y && rank[x] <= rank[y]
    requires ValidForest(parent[x := y], LinkRank(rank, x, y), bound')
    requires 0 <= w < |parent|
    ensures Root(parent[x := y], LinkRank(rank, x, y), bound', w)
         == if Root(parent, rank, bound, w) == x then y else Root(parent, rank, bound, w)
    decreases bound - rank[w]
  {
    if parent[w] != w {
      LinkRoot(parent, rank, bound, x, y, bound', parent[w]);
    } else if w == x {
      assert parent[x := y][y] == y;
    }
  }

  /**
   * Hanging root `x` under root `y` (the lower rank under the higher, `y`
   * growing on a tie) keeps a forest, sends every member of x's set to `y`
   * and leaves every other element's root alone.
   */
  lemma LinkPreservesForest(parent: seq<int>, rank: seq<int>, bound: int, x: int, y: int)
    requires ValidForest(parent, rank, bound)
    requires 0 <= x < |parent| && 0 <= y < |parent| && x != y
    requires parent[x] == x && parent[y] == y && rank[x] <= rank[y]
    ensures var rank' := LinkRank(rank, x, y);
      ValidForest(parent[x := y], rank', Max(bound, rank'[y]))
    ensures var rank' := LinkRank(rank, x, y);
      forall w :: 0 <= w < |parent| ==>
        Root(parent[x := y], rank', Max(bound, rank'[y]), w)
        == if Root(parent, rank, bound, w) == x then y else Root(parent, rank, bound, w)
  {
    var rank' := LinkRank(rank, x, y);
    var bound' := Max(bound, rank'[y]);
    var p := parent[x := y];
    forall i | 0 <= i < |p| && p[i] != i
      ensures rank'[i] < rank'[p[i]]
    {
      if i != x {
        assert parent[i] != i && i != y;
      }
    }
    assert ValidForest(p, rank', bound');
    forall w | 0 <= w < |parent|
      ensures Root(p, rank', bound', w)
           == if Root(parent, rank, bound, w) == x then y else Root(parent, rank, bound, w)
    {
      LinkRoot(parent, rank, bound, x, y, bound', w);
    }
  }

  /**
   * The partition of (p1, r1, b1) is that of (p0, r0, b0) with the sets of
   * `u` and `v` merged: two elements are together iff they were together
   * already, or one was with `u` and the other with `v`.
   */
  ghost predicate MergedSets(p0: seq<int>, r0: seq<int>, b0: int, p1: seq<int>, r1: seq<int>, b1: int, u: int, v: int)
    requires ValidForest(p0, r0, b0) && ValidForest(p1, r1, b1) && |p1| == |p0|
    requires 0 <= u < |p0| && 0 <= v < |p0|
  {
    && SameSet(p1, r1, b1, u, v)
    && forall a, c :: 0 <= a < |p0| && 0 <= c < |p0| ==>
      (SameSet(p1, r1, b1, a, c) <==>
        || SameSet(p0, r0, b0, a, c)
        || (SameSet(p0, r0, b0, a, u) && SameSet(p0, r0, b0, c, v))
        || (SameSet(p0, r0, b0, a, v) && SameSet(p0, r0, b0, c, u)))
  }

  /** When u and v already share a root, a forest with the same roots is the merged partition. */
  lemma SameRootsMerged(p0: seq<int>, r0: seq<int>, b0: int, p1: seq<int>, u: int, v: int)
    requires ValidForest(p0, r0, b0) && ValidForest(p1, r0, b0) && |p1| == |p0|
    requires forall w :: 0 <= w < |p0| ==> Root(p1, r0, b0, w) == Root(p0, r0, b0, w)
    requires 0 <= u < |p0| && 0 <= v < |p0| && SameSet(p0, r0, b0, u, v)
    ensures MergedSets(p0, r0, b0, p1, r0, b0, u, v)
  {
  }

  /**
   * Union's link step: in a forest `p2` with the same roots as `p0`, hanging
   * the root `x` of one of u, v under the root `y` of the other (x of no
   * higher rank) keeps a forest and merges exactly the sets of u and v.
   */
  lemma LinkMerges(p0: seq<int>, r0: seq<int>, b0: int, p2: seq<int>, u: int, v: int, x: int, y: int)
    requires ValidForest(p0, r0, b0) && ValidForest(p2, r0, b0) && |p2| == |p0|
    requires forall w :: 0 <= w < |p0| ==> Root(p2, r0, b0, w) == Root(p0, r0, b0, w)
    requires 0 <= u < |p0| && 0 <= v < |p0|
    requires var ru, rv := Root(p0, r0, b0, u), Root(p0, r0, b0, v);
      ru != rv && ((x, y) == (ru, rv) || (x, y) == (rv, ru))
    requires r0[x] <= r0[y]
    ensures var r1 := LinkRank(r0, x, y);
      && ValidForest(p2[x := y], r1, Max(b0, r1[y]))
      && MergedSets(p0, r0, b0, p2[x := y], r1, Max(b0, r1[y]), u, v)
  {
    assert p2[x] == x && p2[y] == y by {
      assert Root(p2, r0, b0, x) == x && Root(p2, r0, b0, y) == y;
    }
    LinkPreservesForest(p2, r0, b0, x, y);
    var r1 := LinkRank(r0, x, y);
    var p1, b1 := p2[x := y], Max(b0, r1[y]);
    forall w | 0 <= w < |p0|
      ensures Root(p1, r1, b1, w) == if Root(p0, r0, b0, w) == x then y else Root(p0, r0, b0, w)
    {
      assert Root(p2, r0, b0, w) == Root(p0, r0, b0, w);
    }
    forall a, c | 0 <= a < |p0| && 0 <= c < |p0|
      ensures SameSet(p1, r1, b1, a, c) <==>
        || SameSet(p0, r0, b0, a, c)
        || (SameSet(p0, r0, b0, a, u) && SameSet(p0, r0, b0, c, v))
        || (SameSet(p0, r0, b0, a, v) && SameSet(p0, r0, b0, c, u))
    {
      var ra, rc := Root(p0, r0, b0, a), Root(p0, r0, b0, c);
      assert Root(p1, r1, b1, a) == if ra == x then y else ra;
      assert Root(p1, r1, b1, c) == if rc == x then y else rc;
    }
    assert Root(p1, r1, b1, u) == y == Root(p1, r1, b1, v);
  }

  /** The roots, one per set. */
  ghost function RootSet(parent: seq<int>): set<int> {
    set j | 0 <= j < |parent| && parent[j] == j
  }

  /** The roots among the first `k` elements. */
  ghost function RootsBelow(parent: seq<int>, k: int): set<int> {
    set j | 0 <= j < k && j < |parent| && parent[j] == j
  }

  /** The representatives `Root(w)` of the elements: one per set. */
  ghost function Representatives(parent: seq<int>, rank: seq<int>, bound: int): set<int>
    requires ValidForest(parent, rank, bound)
  {
    set w | 0 <= w < |parent| :: Root(parent, rank, bound, w)
  }

  /** The roots are exactly the representatives of the elements. */
  lemma RootSetIsRepresentatives(parent: seq<int>, rank: seq<int>, bound: int)
    requires ValidForest(parent, rank, bound)
    ensures RootSet(parent) == Representatives(parent, rank, bound)
  {
    var reps := Representatives(parent, rank, bound);
    forall j | j in RootSet(parent) ensures j in reps {
      assert Root(parent, rank, bound, j) == j;
    }
    forall r | r in reps ensures r in RootSet(parent) {
      var w :| 0 <= w < |parent| && Root(parent, rank, bound, w) == r;
    }
    assert RootSet(parent) == reps;
  }

  lemma {:induction false} RootsBelowStep(parent: seq<int>, k: int)
    requires 0 <= k < |parent|
    ensures |RootsBelow(parent, k + 1)| == |RootsBelow(parent, k)| + (if parent[k] == k then 1 else 0)
  {
    if parent[k] == k {
      assert RootsBelow(parent, k + 1) == RootsBelow(parent, k) + {k};
    } else {
      assert RootsBelow(parent, k + 1) == RootsBelow(parent, k);
    }
  }

  lemma {:induction false} RootsBelowBound(parent: seq<int>, k: nat)
    requires k <= |parent|
    ensures |RootsBelow(parent, k)| <= k
  {
    if k > 0 {
      RootsBelowBound(parent, k - 1);
      RootsBelowStep(parent, k - 1);
    }
  }

  /**
   * What DkUnionFind.CountRoots computes from index `i` on: it reads the
   * parent VALUE at `i`, asks for that value's root (which compresses the
   * path) and counts one when the value is its own root.
   */
  ghost function CountRootsFrom(parent: seq<int>, rank: seq<int>, bound: int, i: nat): nat
    requires ValidForest(parent, rank, bound) && i <= |parent|
    decreases |parent| - i
  {
    if i == |parent| then 0
    else
      var v := parent[i];
      (if Root(parent, rank, bound, v) == v then 1 else 0)
        + CountRootsFrom(Compress(parent, rank, bound, v), rank, bound, i + 1)
  }

  lemma {:induction false} CountRootsFromBounds(parent: seq<int>, rank: seq<int>, bound: int, i: nat)
    requires ValidForest(parent, rank, bound) && i <= |parent|
    ensures |RootSet(parent)| <= CountRootsFrom(parent, rank, bound, i) + |RootsBelow(parent, i)|
    ensures CountRootsFrom(parent, rank, bound, i) <= |parent| - i
    decreases |parent| - i
  {
    if i == |parent| {
      assert RootSet(parent) == RootsBelow(parent, i);
    } else {
      var v := parent[i];
      var p := Compress(parent, rank, bound, v);
      CountRootsFromBounds(p, rank, bound, i + 1);
      CompressKeepsRoots(parent, rank, bound, v);
      assert RootSet(p) == RootSet(parent);
      assert RootsBelow(p, i + 1) == RootsBelow(parent, i + 1);
      RootsBelowStep(parent, i);
      if parent[i] == i {
        assert Root(parent, rank, bound, v) == v;
      }
    }
  }

  /**
   * CountRoots as written lies between the number of sets and the number of
   * elements.
   */
  lemma CountRootsBounds(parent: seq<int>, rank: seq<int>, bound: int)
    requires ValidForest(parent, rank, bound)
    ensures |RootSet(parent)| <= CountRootsFrom(parent, rank, bound, 0) <= |parent|
  {
    CountRootsFromBounds(parent, rank, bound, 0);
    assert RootsBelow(parent, 0) == {};
  }

  lemma {:induction false} CountRootsFromSingletons(parent: seq<int>, rank: seq<int>, bound: int, i: nat)
    requires ValidForest(parent, rank, bound) && Singletons(parent) && i <= |parent|
    ensures CountRootsFrom(parent, rank, bound, i) == |parent| - i
    decreases |parent| - i
  {
    if i < |parent| {
      CountRootsFromSingletons(parent, rank, bound, i + 1);
    }
  }

  /** On a fresh structure CountRoots gives the number of elements. */
  lemma CountRootsOfSingletons(parent: seq<int>, rank: seq<int>, bound: int)
    requires ValidForest(parent, rank, bound) && Singletons(parent)
    ensures CountRootsFrom(parent, rank, bound, 0) == |parent| == |RootSet(parent)|
  {
    CountRootsFromSingletons(parent, rank, bound, 0);
    assert RootSet(parent) == RootsBelow(parent, |parent|);
    RootsBelowSingletons(parent, |parent|);
  }

  lemma {:induction false} RootsBelowSingletons(parent: seq<int>, k: nat)
    requires Singletons(parent) && k <= |parent|
    ensures |RootsBelow(parent, k)| == k
  {
    if k > 0 {
      RootsBelowSingletons(parent, k - 1);
      RootsBelowStep(parent, k - 1);
    }
  }

  /**
   * After Union(0, 1) on two elements the parent array is [1, 1] with ranks
   * [0, 1]: one set, yet CountRoots as written reports two, because both
   * parent values are the root 1.
   */
  lemma CountRootsAfterOneUnion(rk: seq<int>, b: int)
    requires ValidForest([1, 1], rk, b)
    ensures |RootSet([1, 1])| == 1
    ensures CountRootsFrom([1, 1], rk, b, 0) == 2
  {
    var p := [1, 1];
    assert RootSet(p) == {1} by {
      forall j | j in RootSet(p) ensures j == 1 {}
    }
    assert Compress(p, rk, b, 1) == p;
    assert CountRootsFrom(p, rk, b, 1) == 1 + CountRootsFrom(p, rk, b, 2);
  }
}
