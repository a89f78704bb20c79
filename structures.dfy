/** The disjoint-set forest of `bigger.structures`: a `parent` and a `rank` dictionary that
    `find`, `union2` and iteration update in place.

    Two details of the source are kept as written. `union2` compares the ranks of the items
    it was given, not of their roots, so ranks need not grow toward the roots and cannot
    bound the walk in `find`; a ghost `height` map does instead (following a parent link
    always goes strictly up). And the compression loop of `find` uses Python's left-to-right
    tuple assignment, so it repoints the parent of `x`'s parent, not every node on the path,
    and runs at most once.

    The groups are tracked by a ghost map `rootOf` from each item to the root of its group;
    `GroupIsWalk` shows it is exactly the root reached by following parent links. */
module Structures {

  /** The shape `parent` keeps: every link stays inside its group, each group's name is a
      root of the forest, every root names its own group, and links go strictly up in
      `height`, up to the root, which is highest of its group. The conditions on one node
      are `Linked`; proofs name the nodes they need. */
  ghost predicate Forest<X>(parent: map<X, X>, rootOf: map<X, X>, height: map<X, nat>) {
    && parent.Keys == rootOf.Keys == height.Keys
    && parent.Values <= parent.Keys
    && rootOf.Values <= parent.Keys
    && forall x {:trigger Linked(parent, rootOf, height, x)} :: x in parent ==> Linked(parent, rootOf, height, x)
  }

  ghost predicate Linked<X>(parent: map<X, X>, rootOf: map<X, X>, height: map<X, nat>, x: X) {
    && x in parent && x in rootOf && x in height
    && parent[x] in rootOf && parent[x] in height && rootOf[x] in parent && rootOf[x] in height
    && rootOf[parent[x]] == rootOf[x]
    && parent[rootOf[x]] == rootOf[x]
    && (parent[x] == x ==> rootOf[x] == x)
    && (parent[x] != x ==> height[x] < height[parent[x]] && height[x] < height[rootOf[x]])
  }

  /** The nodes strictly higher than `x`: walking up from `x` shrinks this set. */
  ghost function Above<X>(height: map<X, nat>, x: X): set<X>
    requires x in height
  {
    set z | z in height && height[z] > height[x]
  }

  lemma AboveShrinks<X>(parent: map<X, X>, rootOf: map<X, X>, height: map<X, nat>, x: X)
    requires Forest(parent, rootOf, height) && x in parent && parent[x] != x
    ensures Above(height, parent[x]) < Above(height, x)
  {
    assert Linked(parent, rootOf, height, x);
    assert parent[x] in Above(height, x) - Above(height, parent[x]);
  }

  /** The root reached from `x` by following parent links: what `find` computes. */
  ghost function Root<X>(parent: map<X, X>, rootOf: map<X, X>, height: map<X, nat>, x: X): X
    requires Forest(parent, rootOf, height) && x in parent
    decreases Above(height, x)
  {
    if parent[x] == x then x
    else
      AboveShrinks(parent, rootOf, height, x);
      Root(parent, rootOf, height, parent[x])
  }

  /** The ghost group name of every item is the root reached from it. */
  lemma {:induction false} GroupIsWalk<X>(parent: map<X, X>, rootOf: map<X, X>, height: map<X, nat>, x: X)
    requires Forest(parent, rootOf, height) && x in parent
    ensures rootOf[x] == Root(parent, rootOf, height, x)
    decreases Above(height, x)
  {
    assert Linked(parent, rootOf, height, x);
    if parent[x] != x {
      AboveShrinks(parent, rootOf, height, x);
      GroupIsWalk(parent, rootOf, height, parent[x]);
    }
  }

  /** The items that are their own parent: one per group. */
  ghost function Roots<X>(parent: map<X, X>): set<X> {
    set x | x in parent && parent[x] == x
  }

  /** The names of the groups. */
  ghost function Groups<X>(rootOf: map<X, X>): set<X> {
    set x | x in rootOf :: rootOf[x]
  }

  /** There are exactly as many roots as groups. */
  lemma RootsAreGroups<X>(parent: map<X, X>, rootOf: map<X, X>, height: map<X, nat>)
    requires Forest(parent, rootOf, height)
    ensures Roots(parent) == Groups(rootOf)
  {
    forall r | r in Roots(parent)
      ensures r in Groups(rootOf)
    {
      assert Linked(parent, rootOf, height, r);
    }
    forall g | g in Groups(rootOf)
      ensures g in Roots(parent)
    {
      var z :| z in rootOf && rootOf[z] == g;
      assert Linked(parent, rootOf, height, z);
    }
  }

  /** `height` after attaching the root `lo` under the root `hi`. */
  ghost function Raised<X>(height: map<X, nat>, lo: X, hi: X): map<X, nat>
    requires lo in height && hi in height
  {
    height[hi := if height[hi] > height[lo] then height[hi] else height[lo] + 1]
  }

  /** The group names after the group `lo` is merged into the group `hi`. */
  ghost function Relabelled<X>(rootOf: map<X, X>, lo: X, hi: X): (r: map<X, X>)
    ensures r.Keys == rootOf.Keys
  {
    map z | z in rootOf :: if rootOf[z] == lo then hi else rootOf[z]
  }

  /** Attaching one root under another keeps the shape, the group of `lo` becoming part of
      the group of `hi`. */
  lemma LinkForest<X>(parent: map<X, X>, rootOf: map<X, X>, height: map<X, nat>, lo: X, hi: X)
    requires Forest(parent, rootOf, height) && lo in parent && hi in parent
    requires parent[lo] == lo && parent[hi] == hi && lo != hi
    ensures Forest(parent[lo := hi], Relabelled(rootOf, lo, hi), Raised(height, lo, hi))
  {
    var p, r, h := parent[lo := hi], Relabelled(rootOf, lo, hi), Raised(height, lo, hi);
    forall x | x in p
      ensures Linked(p, r, h, x)
    {
      LinkNode(parent, rootOf, height, lo, hi, x);
    }
  }

  lemma LinkNode<X>(parent: map<X, X>, rootOf: map<X, X>, height: map<X, nat>, lo: X, hi: X, x: X)
    requires Forest(parent, rootOf, height) && lo in parent && hi in parent && x in parent
    requires parent[lo] == lo && parent[hi] == hi && lo != hi
    ensures Linked(parent[lo := hi], Relabelled(rootOf, lo, hi), Raised(height, lo, hi), x)
  {
    assert Linked(parent, rootOf, height, x);
    assert Linked(parent, rootOf, height, lo);
    assert Linked(parent, rootOf, height, hi);
  }

  /** Pointing `y` straight at the root of its group keeps the shape and the groups. */
  lemma RedirectForest<X>(parent: map<X, X>, rootOf: map<X, X>, height: map<X, nat>, y: X)
    requires Forest(parent, rootOf, height) && y in parent
    ensures Forest(parent[y := rootOf[y]], rootOf, height)
  {
    var p := parent[y := rootOf[y]];
    assert Linked(parent, rootOf, height, y);
    forall x | x in p
      ensures Linked(p, rootOf, height, x)
    {
      assert Linked(parent, rootOf, height, x);
      assert Linked(parent, rootOf, height, rootOf[y]);
    }
  }

  function Flatten<X>(groups: seq<seq<X>>): seq<X> {
    if groups == [] then [] else groups[0] + Flatten(groups[1..])
  }

  lemma {:induction false} FlattenAppend<X>(a: seq<seq<X>>, b: seq<seq<X>>)
    ensures Flatten(a + b) == Flatten(a) + Flatten(b)
  {
    if a != [] {
      assert (a + b)[1..] == a[1..] + b;
      FlattenAppend(a[1..], b);
      calc {
        Flatten(a + b);
        (a + b)[0] + Flatten((a + b)[1..]);
        a[0] + (Flatten(a[1..]) + Flatten(b));
        (a[0] + Flatten(a[1..])) + Flatten(b);
      }
    } else {
      assert a + b == b;
    }
  }

  /** The lists of `members` concatenated in the order of `order`. */
  function Collect<X(==)>(order: seq<X>, members: map<X, seq<X>>): seq<X>
    requires forall k :: k in order ==> k in members
  {
    if order == [] then [] else members[order[0]] + Collect(order[1..], members)
  }

  lemma {:induction false} CollectOther<X>(order: seq<X>, members: map<X, seq<X>>, r: X, v: seq<X>)
    requires (forall k :: k in order ==> k in members) && r !in order
    ensures Collect(order, members[r := v]) == Collect(order, members)
  {
    if order != [] {
      CollectOther(order[1..], members, r, v);
    }
  }

  lemma {:induction false} CollectSnoc<X>(order: seq<X>, members: map<X, seq<X>>, r: X)
    requires (forall k :: k in order ==> k in members) && r in members
    ensures Collect(order + [r], members) == Collect(order, members) + members[r]
  {
    if order == [] {
      assert order + [r] == [r];
    } else {
      assert (order + [r])[1..] == order[1..] + [r];
      CollectSnoc(order[1..], members, r);
    }
  }

  /** Appending `x` to the list of a key already present adds `x` once overall. */
  lemma {:induction false} CollectGrow<X>(order: seq<X>, members: map<X, seq<X>>, r: X, x: X)
    requires (forall k :: k in order ==> k in members) && Distinct(order) && r in order
    ensures multiset(Collect(order, members[r := members[r] + [x]])) == multiset(Collect(order, members)) + multiset{x}
  {
    if order[0] == r {
      assert r !in order[1..];
      CollectOther(order[1..], members, r, members[r] + [x]);
    } else {
      CollectGrow(order[1..], members, r, x);
    }
  }

  /** A key never seen before starts a new list at the end. */
  lemma CollectNew<X>(order: seq<X>, members: map<X, seq<X>>, r: X, x: X)
    requires (forall k :: k in order ==> k in members) && r !in order
    ensures Collect(order + [r], members[r := [x]]) == Collect(order, members) + [x]
  {
    CollectSnoc(order, members[r := [x]], r);
    CollectOther(order, members, r, [x]);
  }

  lemma {:induction false} FlattenLookup<X>(order: seq<X>, members: map<X, seq<X>>)
    requires forall k :: k in order ==> k in members
    ensures Flatten(Lookup(order, members)) == Collect(order, members)
  {
    if order != [] {
      assert Lookup(order, members)[1..] == Lookup(order[1..], members);
      FlattenLookup(order[1..], members);
    }
  }

  predicate Distinct<X(==)>(s: seq<X>) {
    forall i, j :: 0 <= i < j < |s| ==> s[i] != s[j]
  }

  function Lookup<X(==)>(order: seq<X>, members: map<X, seq<X>>): (r: seq<seq<X>>)
    requires forall k :: k in order ==> k in members
    ensures |r| == |order| && forall j :: 0 <= j < |order| ==> r[j] == members[order[j]]
  {
    seq(|order|, j requires 0 <= j < |order| => members[order[j]])
  }

  /** The state of the `defaultdict` built by iteration: `order` lists its keys once each,
      in insertion order, and every list is nonempty and holds items of the group its key
      names. */
  ghost predicate Collected<X>(rootOf: map<X, X>, order: seq<X>, members: map<X, seq<X>>) {
    && Distinct(order)
    && (forall k :: k in members ==> k in order)
    && (forall k :: k in order ==> k in members)
    && (forall k :: k in members ==> |members[k]| > 0)
    && (forall k, y :: k in members && y in members[k] ==> y in rootOf && rootOf[y] == k)
  }

  lemma CollectedAppend<X>(rootOf: map<X, X>, order: seq<X>, members: map<X, seq<X>>, r: X, x: X)
    requires Collected(rootOf, order, members) && x in rootOf && rootOf[x] == r
    ensures r in members ==> Collected(rootOf, order, members[r := members[r] + [x]])
    ensures r !in members ==> Collected(rootOf, order + [r], members[r := [x]])
  {
  }

  /** The dictionary `groups[rootOf[v]].append(v)` builds over `vals` in order: the keys in
      insertion order and the list under each key. */
  function Buckets<X>(rootOf: map<X, X>, vals: seq<X>): (b: (seq<X>, map<X, seq<X>>))
    requires forall v :: v in vals ==> v in rootOf
    ensures forall k :: k in b.0 ==> k in b.1
  {
    if vals == [] then ([], map[])
    else
      var x := vals[|vals| - 1];
      AddTo(Buckets(rootOf, vals[..|vals| - 1]), rootOf[x], x)
  }

  /** `groups[r].append(x)` on a `defaultdict(list)`, kept as its keys in insertion order and
      its lists. */
  function AddTo<X>(b: (seq<X>, map<X, seq<X>>), r: X, x: X): (seq<X>, map<X, seq<X>>) {
    var (order, members) := b;
    if r in members then (order, members[r := members[r] + [x]])
    else (order + [r], members[r := [x]])
  }

  lemma BucketsSnoc<X>(rootOf: map<X, X>, vals: seq<X>, i: nat)
    requires forall v :: v in vals ==> v in rootOf
    requires i < |vals|
    ensures Buckets(rootOf, vals[..i + 1]) == AddTo(Buckets(rootOf, vals[..i]), rootOf[vals[i]], vals[i])
  {
    assert vals[..i + 1][..i] == vals[..i];
  }

  /** The dictionary built is a partition of the values into their groups. */
  lemma {:induction false} BucketsCollected<X>(rootOf: map<X, X>, vals: seq<X>)
    requires forall v :: v in vals ==> v in rootOf
    ensures Collected(rootOf, Buckets(rootOf, vals).0, Buckets(rootOf, vals).1)
    ensures multiset(Collect(Buckets(rootOf, vals).0, Buckets(rootOf, vals).1)) == multiset(vals)
  {
    if vals != [] {
      var n := |vals| - 1;
      var (order, members) := Buckets(rootOf, vals[..n]);
      assert vals[..n] == vals[..|vals| - 1];
      BucketsCollected(rootOf, vals[..n]);
      var x := vals[n];
      CollectedAppend(rootOf, order, members, rootOf[x], x);
      assert vals == vals[..n] + [x];
      if rootOf[x] in members {
        CollectGrow(order, members, rootOf[x], x);
      } else {
        CollectNew(order, members, rootOf[x], x);
      }
    }
  }

  /** The dictionary's values, in insertion order, partition the values into their groups. */
  lemma BucketsPartition<X>(rootOf: map<X, X>, vals: seq<X>)
    requires forall v :: v in vals ==> v in rootOf
    ensures Partition(rootOf, Lookup(Buckets(rootOf, vals).0, Buckets(rootOf, vals).1))
    ensures multiset(Flatten(Lookup(Buckets(rootOf, vals).0, Buckets(rootOf, vals).1))) == multiset(vals)
  {
    var (order, members) := Buckets(rootOf, vals);
    BucketsCollected(rootOf, vals);
    FlattenLookup(order, members);
    CollectedPartition(rootOf, order, members);
  }

  lemma CollectedPartition<X>(rootOf: map<X, X>, order: seq<X>, members: map<X, seq<X>>)
    requires Collected(rootOf, order, members)
    ensures Partition(rootOf, Lookup(order, members))
  {
    var groups := Lookup(order, members);
    forall i | 0 <= i < |groups|
      ensures groups[i][0] in members[order[i]]
    {
    }
  }

  /** Is `z` in the group of one of `args`? */
  ghost predicate Joined<X>(rootOf: map<X, X>, z: X, args: seq<X>)
    requires z in rootOf && forall a :: a in args ==> a in rootOf
  {
    exists k :: 0 <= k < |args| && rootOf[args[k]] == rootOf[z]
  }

  /** Every item grouped with one of `args` has joined the group of `args[0]`; every other
      item kept its group, which is not that one. */
  ghost predicate JoinedInto<X>(r0: map<X, X>, r1: map<X, X>, args: seq<X>)
    requires r0.Keys == r1.Keys && forall a :: a in args ==> a in r0
  {
    && (forall z :: z in r1 && Joined(r0, z, args) ==> |args| > 0 && r1[z] == r1[args[0]])
    && (forall z :: z in r1 && !Joined(r0, z, args) ==> r1[z] == r0[z])
    && (|args| > 0 ==> forall z :: z in r1 && !Joined(r0, z, args) ==> r1[z] != r1[args[0]])
  }

  /** The groups of `x` and `y` have become one, named by one of their old names, and no
      other item changed group. */
  ghost predicate Merged<X>(r0: map<X, X>, r1: map<X, X>, x: X, y: X)
    requires r0.Keys == r1.Keys && x in r0 && y in r0
  {
    && r1[y] == r1[x]
    && (r1[x] == r0[x] || r1[x] == r0[y])
    && forall z :: z in r1 ==> r1[z] == if r0[z] == r0[x] || r0[z] == r0[y] then r1[x] else r0[z]
  }

  /** Renaming the group `lo` to `hi`, where these are the groups of `x` and `y`, merges
      exactly the groups of `x` and `y`. */
  lemma RelabelMerges<X>(r0: map<X, X>, lo: X, hi: X, x: X, y: X)
    requires x in r0 && y in r0
    requires (lo == r0[x] && hi == r0[y]) || (lo == r0[y] && hi == r0[x])
    ensures Merged(r0, Relabelled(r0, lo, hi), x, y)
  {
  }

  /** Merging two different groups leaves one group fewer. */
  lemma MergedGroups<X>(r0: map<X, X>, r1: map<X, X>, x: X, y: X)
    requires r0.Keys == r1.Keys && x in r0 && y in r0 && Merged(r0, r1, x, y)
    ensures |Groups(r1)| == |Groups(r0)| - (if r0[x] != r0[y] then 1 else 0)
  {
    var gone := if r1[x] == r0[x] then r0[y] else r0[x];
    assert r0[x] in Groups(r0) && r0[y] in Groups(r0);
    forall g | g in Groups(r1)
      ensures g in Groups(r0) && (r0[x] != r0[y] ==> g != gone)
    {
      var z :| z in r1 && r1[z] == g;
    }
    forall g | g in Groups(r0) && (r0[x] != r0[y] ==> g != gone)
      ensures g in Groups(r1)
    {
      var z :| z in r0 && r0[z] == g;
      if r0[z] == r0[x] || r0[z] == r0[y] {
        assert r1[x] in Groups(r1);
      }
    }
    if r0[x] != r0[y] {
      assert Groups(r1) == Groups(r0) - {gone};
    } else {
      assert Groups(r1) == Groups(r0);
    }
  }

  /** Two items already grouped together stay merged when nothing changes. */
  lemma MergedAlready<X>(r0: map<X, X>, x: X, y: X)
    requires x in r0 && y in r0 && r0[x] == r0[y]
    ensures Merged(r0, r0, x, y)
  {
  }

  /** `union` one step further: merging the group of `args[0]` with that of `args[i]`. */
  lemma JoinedIntoStep<X>(r0: map<X, X>, r1: map<X, X>, r2: map<X, X>, args: seq<X>, i: nat)
    requires r0.Keys == r1.Keys == r2.Keys && i < |args| && forall a :: a in args ==> a in r0
    requires JoinedInto(r0, r1, args[..i]) && Merged(r1, r2, args[0], args[i])
    ensures JoinedInto(r0, r2, args[..i + 1])
  {
    var pre, post := args[..i], args[..i + 1];
    assert post == pre + [args[i]];
    forall z | z in r2
      ensures Joined(r0, z, post) <==> Joined(r0, z, pre) || r0[args[i]] == r0[z]
    {
      if Joined(r0, z, post) {
        var k :| 0 <= k < |post| && r0[post[k]] == r0[z];
        if k < i {
          assert pre[k] == post[k];
        }
      }
      if r0[args[i]] == r0[z] {
        assert post[i] == args[i];
      }
      if Joined(r0, z, pre) {
        var k :| 0 <= k < |pre| && r0[pre[k]] == r0[z];
        assert post[k] == pre[k];
      }
    }
    assert Joined(r0, args[0], post) by {
      assert post[0] == args[0];
    }
    if i > 0 {
      assert Joined(r0, args[0], pre) by {
        assert pre[0] == args[0];
      }
    }
    forall z | z in r2 && Joined(r0, z, post)
      ensures r2[z] == r2[args[0]]
    {
      if r0[args[i]] == r0[z] && Joined(r0, args[i], pre) {
        assert Joined(r0, z, pre);
      }
    }
  }

  /** After `union(*args)` all of `args` are in one group. */
  lemma UnionJoinsArgs<X>(r0: map<X, X>, r1: map<X, X>, args: seq<X>)
    requires r0.Keys == r1.Keys && forall a :: a in args ==> a in r0
    requires JoinedInto(r0, r1, args)
    ensures forall k :: 0 <= k < |args| ==> r1[args[k]] == r1[args[0]]
  {
    forall k | 0 <= k < |args|
      ensures r1[args[k]] == r1[args[0]]
    {
      assert Joined(r0, args[k], args);
    }
  }

  /** The groups as listed by iteration: none empty, each within one group, no group twice. */
  ghost predicate Partition<X>(rootOf: map<X, X>, groups: seq<seq<X>>) {
    && (forall i :: 0 <= i < |groups| ==> |groups[i]| > 0 && forall y :: y in groups[i] ==> y in rootOf)
    && (forall i, y :: 0 <= i < |groups| && y in groups[i] && groups[i][0] in rootOf && y in rootOf ==> rootOf[y] == rootOf[groups[i][0]])
    && (forall i, j :: 0 <= i < j < |groups| && groups[i][0] in rootOf && groups[j][0] in rootOf ==> rootOf[groups[i][0]] != rootOf[groups[j][0]])
  }

  /** The ranks after `union2(x, y)` with roots `rx` and `ry`: only linking two roots of
      items of equal rank raises a rank, that of `rx`. */
  ghost function RankAfter<X>(rank: map<X, nat>, x: X, y: X, rx: X, ry: X): map<X, nat>
    requires x in rank && y in rank && rx in rank
  {
    if rank[x] == rank[y] && rx != ry then rank[rx := rank[rx] + 1] else rank
  }

  class UnionFind<X(==)> {
    var items: seq<X>
    var parent: map<X, X>
    var rank: map<X, nat>
    /** Not in the source: the root of each item's group. */
    ghost var rootOf: map<X, X>
    /** Not in the source: proves that `find` terminates. */
    ghost var height: map<X, nat>

    ghost predicate Valid()
      reads this
    {
      && parent.Keys == rank.Keys == (set x | x in items)
      && Forest(parent, rootOf, height)
    }

    /** `UnionFind.__init__`: every item is its own parent, with rank 0. */
    constructor (items: seq<X>)
      ensures Valid() && this.items == items
      ensures forall x :: x in items ==> parent[x] == x && rootOf[x] == x && rank[x] == 0
      ensures Len() == |set x | x in items|
    {
      this.items := items;
      parent := map x | x in items :: x;
      rank := map x | x in items :: 0;
      rootOf := map x | x in items :: x;
      height := map x | x in items :: 0;
      new;
      assert Roots(parent) == set x | x in items;
    }

    /** `UnionFind.__len__`: the number of items that are their own parent, which is the
        number of groups. */
    function Len(): (n: nat)
      reads this
      requires Valid()
      ensures n == |Groups(rootOf)|
    {
      RootsAreGroups(parent, rootOf, height);
      assert Roots(parent) == set x | x in parent && parent[x] == x;
      |set x | x in parent && parent[x] == x|
    }

    /** `UnionFind.__call__` (find): returns the root of `x`'s group and repoints the
        parent of `x`'s parent at it, leaving every group as it was. */
    method Find(x: X) returns (root: X)
      requires Valid() && x in parent
      modifies this
      ensures Valid() && items == old(items) && rank == old(rank)
      ensures rootOf == old(rootOf) && height == old(height)
      ensures root == rootOf[x] && root == Root(old(parent), old(rootOf), old(height), x)
      ensures root in parent && parent[root] == root
      ensures parent == old(parent)[old(parent)[x] := root]
    {
      GroupIsWalk(parent, rootOf, height, x);
      root := x;
      while parent[root] != root
        invariant unchanged(this) && root in parent && rootOf[root] == rootOf[x]
        decreases Above(height, root)
      {
        assert Linked(parent, rootOf, height, root);
        AboveShrinks(parent, rootOf, height, root);
        root := parent[root];
      }
      assert Linked(parent, rootOf, height, root);
      assert Linked(parent, rootOf, height, x);
      ghost var p0 := parent;
      if p0[x] == root {
        assert p0[p0[x] := root] == p0;
      }
      var y := x;
      while parent[y] != root
        invariant Valid() && y in parent
        invariant items == old(items) && rank == old(rank) && rootOf == old(rootOf) && height == old(height)
        invariant y == x || parent[y] == root
        invariant y == x ==> parent == p0
        invariant y != x ==> y == p0[x] && parent == p0[p0[x] := root]
        decreases if parent[y] == root then 0 else 1
      {
        y := parent[y];
        RedirectForest(parent, rootOf, height, y);
        parent := parent[y := root];
      }
    }

    /** Attaches the root `lo` under the root `hi`: the assignment `parent[lo] = hi` of
        `union2`, which changes nothing when the two roots coincide. */
    method Link(lo: X, hi: X)
      requires Valid() && lo in parent && hi in parent && parent[lo] == lo && parent[hi] == hi
      modifies this
      ensures Valid() && items == old(items) && rank == old(rank)
      ensures parent == old(parent)[lo := hi]
      ensures rootOf == Relabelled(old(rootOf), lo, hi)
    {
      if lo != hi {
        LinkForest(parent, rootOf, height, lo, hi);
        height := Raised(height, lo, hi);
        rootOf := Relabelled(rootOf, lo, hi);
      } else {
        assert parent[lo := hi] == parent;
        assert Relabelled(rootOf, lo, hi) == rootOf;
      }
      parent := parent[lo := hi];
    }

    /** `rank[r] += 1`. */
    method BumpRank(r: X)
      requires Valid() && r in rank
      modifies this
      ensures Valid() && items == old(items) && parent == old(parent) && rootOf == old(rootOf)
      ensures rank == old(rank)[r := old(rank)[r] + 1]
    {
      assert rank[r := rank[r] + 1].Keys == rank.Keys;
      rank := rank[r := rank[r] + 1];
    }

    /** `UnionFind.union2`: merges the groups of `x` and `y`. Which root goes under which
        is decided by the ranks of `x` and `y` themselves. */
    method Union2(x: X, y: X)
      requires Valid() && x in parent && y in parent
      modifies this
      ensures Valid() && items == old(items)
      ensures Merged(old(rootOf), rootOf, x, y)
      ensures |Groups(rootOf)| == |Groups(old(rootOf))| - (if old(rootOf)[x] != old(rootOf)[y] then 1 else 0)
      ensures rank == RankAfter(old(rank), x, y, old(rootOf)[x], old(rootOf)[y])
      ensures rootOf[x] == if old(rank)[x] < old(rank)[y] then old(rootOf)[y] else old(rootOf)[x]
      ensures
        var rx, ry := old(rootOf)[x], old(rootOf)[y];
        var found := old(parent)[old(parent)[x] := rx];
        var bothFound := found[found[y] := ry];
        parent == if old(rank)[x] < old(rank)[y] then bothFound[rx := ry] else bothFound[ry := rx]
    {
      var rx := Find(x);
      var ry := Find(y);
      LinkByRank(x, y, rx, ry);
      MergedGroups(old(rootOf), rootOf, x, y);
    }

    /** The rank comparison of `union2`, after both roots are found: on unequal ranks the
        root of the item with the smaller rank goes under the other root; on equal ranks
        and different roots `ry` goes under `rx`, which gains a rank. */
    method LinkByRank(x: X, y: X, rx: X, ry: X)
      requires Valid() && x in parent && y in parent && rx == rootOf[x] && ry == rootOf[y]
      modifies this
      ensures Valid() && items == old(items)
      ensures Merged(old(rootOf), rootOf, x, y)
      ensures rank == RankAfter(old(rank), x, y, rx, ry)
      ensures rootOf[x] == if old(rank)[x] < old(rank)[y] then ry else rx
      ensures parent == if old(rank)[x] < old(rank)[y] then old(parent)[rx := ry] else old(parent)[ry := rx]
    {
      ghost var r0 := rootOf;
      assert Linked(parent, rootOf, height, x) && Linked(parent, rootOf, height, y);
      if rank[x] > rank[y] {
        Link(ry, rx);
        RelabelMerges(r0, ry, rx, x, y);
      } else if rank[x] < rank[y] {
        Link(rx, ry);
        RelabelMerges(r0, rx, ry, x, y);
      } else if rx != ry {
        Link(ry, rx);
        RelabelMerges(r0, ry, rx, x, y);
        BumpRank(rx);
      } else {
        MergedAlready(r0, x, y);
        assert parent[ry := rx] == parent;
      }
    }

    /** `UnionFind.union(*args)`: `union2(args[0], item)` for every item in turn. */
    method Union(args: seq<X>)
      requires Valid() && forall a :: a in args ==> a in parent
      modifies this
      ensures Valid() && items == old(items)
      ensures JoinedInto(old(rootOf), rootOf, args)
    {
      assert args[..0] == [];
      var i := 0;
      while i < |args|
        invariant 0 <= i <= |args|
        invariant Valid() && items == old(items)
        invariant JoinedInto(old(rootOf), rootOf, args[..i])
      {
        ghost var r1 := rootOf;
        Union2(args[0], args[i]);
        JoinedIntoStep(old(rootOf), r1, rootOf, args, i);
        i := i + 1;
      }
      assert args[..i] == args;
    }

    /** `UnionFind.__iter__`: groups the items by the root `find` gives them, groups listed
        in the order their roots were first met. Every item appears exactly once overall. */
    method Iterate() returns (groups: seq<seq<X>>)
      requires Valid()
      modifies this
      ensures Valid() && items == old(items) && rootOf == old(rootOf) && rank == old(rank)
      ensures Partition(rootOf, groups)
      ensures multiset(Flatten(groups)) == multiset(items)
    {
      var order: seq<X> := [];
      var members: map<X, seq<X>> := map[];
      ghost var r0 := rootOf;
      ghost var rank0 := rank;
      var xs := items;
      assert forall v :: v in xs ==> v in r0;
      var i := 0;
      while i < |xs|
        invariant 0 <= i <= |xs|
        invariant Valid() && items == xs && rootOf == r0 && rank == rank0
        invariant (order, members) == Buckets(r0, xs[..i])
      {
        var x := xs[i];
        var r := Find(x);
        BucketsSnoc(r0, xs, i);
        if r in members {
          members := members[r := members[r] + [x]];
        } else {
          order := order + [r];
          members := members[r := [x]];
        }
        i := i + 1;
      }
      assert xs[..i] == xs;
      groups := Lookup(order, members);
      BucketsPartition(r0, xs);
    }
  }
}
