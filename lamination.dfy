/** Finitely supported laminations of `bigger.lamination`: equality, complexity, `is_short`,
    the greedy `shorten` loop and the Dehn twist `encode_twist`.

    Iterating over a Python set visits its elements in an order the program does not choose;
    that order is a parameter here: a sequence listing the set, or a function giving such a
    listing for every set. */
module Laminations {
  import opened Types
  import opened Encodings
  import Triangulations

  /** `order` visits every edge of `edges` exactly once. */
  ghost predicate Lists<E(!new)>(order: seq<E>, edges: set<E>) {
    && (forall i, j :: 0 <= i < j < |order| ==> order[i] != order[j])
    && (forall x :: x in order ==> x in edges)
    && (forall x :: x in edges ==> x in order)
  }

  /** A listing without repeats holds each of its elements once. */
  lemma {:induction false} ListedOnce<E>(order: seq<E>)
    requires forall i, j :: 0 <= i < j < |order| ==> order[i] != order[j]
    ensures forall x :: multiset(order)[x] == if x in order then 1 else 0
  {
    if order != [] {
      ListedOnce(order[1..]);
      assert order == [order[0]] + order[1..];
      assert order[0] !in order[1..];
    }
  }

  /** Two listings of the same set hold the same edges the same number of times. */
  lemma SameListing<E(!new)>(o1: seq<E>, o2: seq<E>, edges: set<E>)
    requires Lists(o1, edges) && Lists(o2, edges)
    ensures multiset(o1) == multiset(o2)
  {
    ListedOnce(o1);
    ListedOnce(o2);
  }

  // ---------------------------------------------------------------------------------------
  // Complexity

  /** `sum(max(self(edge), 0) for edge in order)`: the clamped weights added up in order, or
      the exception of the first weight that raises. */
  function ClampedSum<E>(lamination: Lamination<E>, order: seq<E>): (r: Result<int>)
    ensures r.Ok? <==> forall i :: 0 <= i < |order| ==> lamination.weight(order[i]).Ok?
    ensures r.Ok? ==> r.value >= 0
  {
    if order == [] then Ok(0)
    else
      var w :- lamination.weight(order[0]);
      var rest :- ClampedSum(lamination, order[1..]);
      Ok(Triangulations.Clamp(w) + rest)
  }

  /** Adding up a concatenation adds up the two parts. */
  lemma {:induction false} ClampedSumAppend<E>(lamination: Lamination<E>, p: seq<E>, q: seq<E>)
    requires ClampedSum(lamination, p + q).Ok?
    ensures ClampedSum(lamination, p).Ok? && ClampedSum(lamination, q).Ok?
    ensures ClampedSum(lamination, p + q).value == ClampedSum(lamination, p).value + ClampedSum(lamination, q).value
  {
    assert forall i :: 0 <= i < |p| ==> p[i] == (p + q)[i];
    assert forall i :: 0 <= i < |q| ==> q[i] == (p + q)[|p| + i];
    if p == [] {
      assert p + q == q;
    } else {
      assert (p + q)[1..] == p[1..] + q;
      ClampedSumAppend(lamination, p[1..], q);
    }
  }

  /** Taking one term out of the middle of a sum. */
  lemma ClampedSumRemove<E>(lamination: Lamination<E>, o: seq<E>, k: nat)
    requires k < |o| && ClampedSum(lamination, o).Ok?
    ensures var rest := o[..k] + o[k + 1..];
      && ClampedSum(lamination, rest).Ok?
      && ClampedSum(lamination, o).value ==
           Triangulations.Clamp(lamination.weight(o[k]).value) + ClampedSum(lamination, rest).value
  {
    var x := o[k];
    assert o == o[..k] + ([x] + o[k + 1..]);
    ClampedSumAppend(lamination, o[..k], [x] + o[k + 1..]);
    assert ([x] + o[k + 1..])[1..] == o[k + 1..];
    var rest := o[..k] + o[k + 1..];
    assert forall i :: 0 <= i < |rest| ==> lamination.weight(rest[i]).Ok? by {
      forall i | 0 <= i < |rest|
        ensures lamination.weight(rest[i]).Ok?
      {
        if i < k {
          assert rest[i] == o[i];
        } else {
          assert rest[i] == o[i + 1];
        }
      }
    }
    ClampedSumAppend(lamination, o[..k], o[k + 1..]);
  }

  /** Taking the same element out of two equal multisets leaves equal multisets. */
  lemma MultisetCancel<T>(a: multiset<T>, b: multiset<T>, x: T)
    requires a + multiset{x} == b + multiset{x}
    ensures a == b
  {
    assert a == (a + multiset{x}) - multiset{x};
    assert b == (b + multiset{x}) - multiset{x};
  }

  /** Rearranging the terms keeps every weight readable. */
  lemma SameTermsOk<E>(lamination: Lamination<E>, o1: seq<E>, o2: seq<E>)
    requires multiset(o1) == multiset(o2)
    requires ClampedSum(lamination, o1).Ok?
    ensures ClampedSum(lamination, o2).Ok?
  {
    forall i | 0 <= i < |o2|
      ensures lamination.weight(o2[i]).Ok?
    {
      assert o2[i] in multiset(o1);
    }
  }

  /** Where the first term of `o1` sits in a rearrangement `o2`, and what is left of `o2`
      without it is a rearrangement of the rest of `o1`. */
  lemma MatchFirst<T>(o1: seq<T>, o2: seq<T>) returns (k: nat)
    requires o1 != [] && multiset(o1) == multiset(o2)
    ensures k < |o2| && o2[k] == o1[0]
    ensures multiset(o1[1..]) == multiset(o2[..k] + o2[k + 1..])
  {
    var x := o1[0];
    assert o1 == [x] + o1[1..];
    assert x in multiset(o2);
    k :| 0 <= k < |o2| && o2[k] == x;
    assert o2 == o2[..k] + [x] + o2[k + 1..];
    assert multiset(o1) == multiset(o1[1..]) + multiset{x};
    assert multiset(o2) == multiset(o2[..k] + o2[k + 1..]) + multiset{x};
    MultisetCancel(multiset(o1[1..]), multiset(o2[..k] + o2[k + 1..]), x);
  }

  /** The sum does not depend on the order of the terms. */
  lemma {:induction false} ClampedSumPermutation<E>(lamination: Lamination<E>, o1: seq<E>, o2: seq<E>)
    requires multiset(o1) == multiset(o2)
    requires ClampedSum(lamination, o1).Ok?
    ensures ClampedSum(lamination, o2) == ClampedSum(lamination, o1)
    decreases |o1|
  {
    if o1 != [] {
      var k := MatchFirst(o1, o2);
      SameTermsOk(lamination, o1, o2);
      ClampedSumRemove(lamination, o2, k);
      ClampedSumPermutation(lamination, o1[1..], o2[..k] + o2[k + 1..]);
    }
  }

  /** Equal weights along the listing give equal sums. */
  lemma {:induction false} ClampedSumCongruent<E>(l1: Lamination<E>, l2: Lamination<E>, order: seq<E>)
    requires forall i :: 0 <= i < |order| ==> l1.weight(order[i]) == l2.weight(order[i])
    ensures ClampedSum(l1, order) == ClampedSum(l2, order)
  {
    if order != [] {
      ClampedSumCongruent(l1, l2, order[1..]);
    }
  }

  /** Each clamped term is at most the sum, and a positive sum has a positive term. */
  lemma {:induction false} ClampedSumBounds<E>(lamination: Lamination<E>, order: seq<E>)
    requires ClampedSum(lamination, order).Ok?
    ensures forall i :: 0 <= i < |order| ==>
      Triangulations.Clamp(lamination.weight(order[i]).value) <= ClampedSum(lamination, order).value
    ensures ClampedSum(lamination, order).value > 0 ==>
      exists i :: 0 <= i < |order| && lamination.weight(order[i]).value > 0
  {
    if order != [] {
      ClampedSumBounds(lamination, order[1..]);
      forall i | 1 <= i < |order|
        ensures Triangulations.Clamp(lamination.weight(order[i]).value) <= ClampedSum(lamination, order).value
      {
        assert order[i] == order[1..][i - 1];
      }
      if ClampedSum(lamination, order).value > 0 && lamination.weight(order[0]).value <= 0 {
        var i :| 0 <= i < |order[1..]| && lamination.weight(order[1..][i]).value > 0;
        assert order[i + 1] == order[1..][i];
      }
    }
  }

  /** `complexity`: the clamped weights of the support added up in iteration order; it fails
      exactly when some weight of the support raises, and is never negative. */
  function Complexity<E(!new)>(lamination: Lamination<E>, order: seq<E>): (r: Result<int>)
    requires lamination.support.Finite? && Lists(order, lamination.support.edges)
    ensures r.Ok? <==> forall x :: x in lamination.support.edges ==> lamination.weight(x).Ok?
    ensures r.Ok? ==> r.value >= 0
  {
    assert forall i :: 0 <= i < |order| ==> order[i] in lamination.support.edges;
    ClampedSum(lamination, order)
  }

  /** When no weight raises, every iteration order gives the same complexity. */
  lemma ComplexityOrderFree<E(!new)>(lamination: Lamination<E>, o1: seq<E>, o2: seq<E>)
    requires lamination.support.Finite?
    requires Lists(o1, lamination.support.edges) && Lists(o2, lamination.support.edges)
    requires Complexity(lamination, o1).Ok?
    ensures Complexity(lamination, o2) == Complexity(lamination, o1)
  {
    SameListing(o1, o2, lamination.support.edges);
    ClampedSumPermutation(lamination, o1, o2);
  }

  /** Laminations with the same support and the same weights have the same complexity. */
  lemma ComplexityCongruent<E(!new)>(l1: Lamination<E>, l2: Lamination<E>, order: seq<E>)
    requires l1.support.Finite? && l1.support == l2.support
    requires Lists(order, l1.support.edges)
    requires forall x :: l1.weight(x) == l2.weight(x)
    ensures Complexity(l1, order) == Complexity(l2, order)
  {
    ClampedSumCongruent(l1, l2, order);
  }

  /** `is_short`: the complexity is exactly two. A short lamination weighs every edge of its
      support at most two and some edge of it positively. */
  function IsShort<E(!new)>(lamination: Lamination<E>, order: seq<E>): (r: Result<bool>)
    requires lamination.support.Finite? && Lists(order, lamination.support.edges)
    ensures r.Ok? <==> Complexity(lamination, order).Ok?
    ensures r == Ok(true) <==> Complexity(lamination, order) == Ok(2)
    ensures r == Ok(true) ==>
      && (forall x :: x in lamination.support.edges ==> lamination.weight(x).value <= 2)
      && (exists x :: x in lamination.support.edges && lamination.weight(x).value > 0)
  {
    var complexity :- Complexity(lamination, order);
    if complexity != 2 then Ok(false)
    else
      ClampedSumBounds(lamination, order);
      assert forall x :: x in lamination.support.edges ==> exists i :: 0 <= i < |order| && order[i] == x;
      Ok(true)
  }

  // ---------------------------------------------------------------------------------------
  // Equality

  /** What a lamination can be compared with: another lamination, a dictionary of weights,
      or anything else. */
  datatype Other<!E> = OtherLamination(lamination: Lamination<E>) | OtherDict(dict: map<E, int>) | OtherValue

  /** `all(self(edge) == other(edge) for edge in order)`: stops at the first edge where the
      two weights differ; a weight read before then that raises propagates, ours first. */
  function Agree<E>(lamination: Lamination<E>, other: E -> Result<int>, order: seq<E>): (r: Result<bool>)
    ensures r == Ok(true) <==> forall i :: 0 <= i < |order| ==>
      lamination.weight(order[i]).Ok? && lamination.weight(order[i]) == other(order[i])
    ensures (forall i :: 0 <= i < |order| ==> lamination.weight(order[i]).Ok? && other(order[i]).Ok?) ==> r.Ok?
  {
    if order == [] then Ok(true)
    else
      var mine :- lamination.weight(order[0]);
      var theirs :- other(order[0]);
      if mine != theirs then Ok(false) else Agree(lamination, other, order[1..])
  }

  /** When no weight raises, agreement does not depend on which side asks. */
  lemma {:induction false} AgreeSymmetric<E>(l1: Lamination<E>, l2: Lamination<E>, order: seq<E>)
    requires forall i :: 0 <= i < |order| ==> l1.weight(order[i]).Ok? && l2.weight(order[i]).Ok?
    ensures Agree(l1, l2.weight, order) == Agree(l2, l1.weight, order)
  {
    if order != [] {
      AgreeSymmetric(l1, l2, order[1..]);
    }
  }

  /** `FinitelySupportedLamination.__eq__`. Against a finitely supported lamination: the same
      support, then the same weights over it. Against a dictionary: its keys are the support,
      then its values are the weights. Anything else, an infinitely supported lamination
      included, declines the comparison, and Python then compares identities: false. */
  function Equals<E(!new)>(lamination: Lamination<E>, other: Other<E>, order: seq<E>): (r: Result<bool>)
    requires lamination.support.Finite? && Lists(order, lamination.support.edges)
    ensures r == Ok(true) <==>
      || (&& other.OtherLamination?
          && other.lamination.support == lamination.support
          && forall x :: x in lamination.support.edges ==>
               lamination.weight(x).Ok? && lamination.weight(x) == other.lamination.weight(x))
      || (&& other.OtherDict?
          && other.dict.Keys == lamination.support.edges
          && forall x :: x in lamination.support.edges ==> lamination.weight(x) == Ok(other.dict[x]))
    ensures ((forall x :: x in lamination.support.edges ==> lamination.weight(x).Ok?) &&
      (other.OtherLamination? ==> forall x :: x in lamination.support.edges ==> other.lamination.weight(x).Ok?)) ==> r.Ok?
  {
    var edges := lamination.support.edges;
    assert forall i :: 0 <= i < |order| ==> order[i] in edges;
    match other
    case OtherLamination(m) =>
      if !m.support.Finite? || m.support.edges != edges then Ok(false)
      else Agree(lamination, m.weight, order)
    case OtherDict(dict) =>
      if dict.Keys != edges then Ok(false)
      else Agree(lamination, e => Ok(if e in dict then dict[e] else 0), order)
    case OtherValue => Ok(false)
  }

  /** A lamination whose weights can all be read equals itself. */
  lemma EqualsReflexive<E(!new)>(lamination: Lamination<E>, order: seq<E>)
    requires lamination.support.Finite? && Lists(order, lamination.support.edges)
    requires forall x :: x in lamination.support.edges ==> lamination.weight(x).Ok?
    ensures Equals(lamination, OtherLamination(lamination), order) == Ok(true)
  {
  }

  /** Between laminations whose weights can all be read, equality is symmetric (listing the
      common support the same way on both sides). */
  lemma EqualsSymmetric<E(!new)>(l1: Lamination<E>, l2: Lamination<E>, order: seq<E>)
    requires l1.support.Finite? && l2.support == l1.support && Lists(order, l1.support.edges)
    requires forall x :: x in l1.support.edges ==> l1.weight(x).Ok? && l2.weight(x).Ok?
    ensures Equals(l1, OtherLamination(l2), order) == Equals(l2, OtherLamination(l1), order)
  {
    assert forall i :: 0 <= i < |order| ==> order[i] in l1.support.edges;
    AgreeSymmetric(l1, l2, order);
  }

  /** A lamination made from a dictionary equals that dictionary exactly when the dictionary
      has no zero entries, which the construction drops. */
  lemma EqualsOwnDict<E(!new)>(t: Triangulation<E>, dict: map<E, int>, order: seq<E>)
    requires Lists(order, Triangulations.Call(t, Triangulations.WeightDict(dict), None).value.support.edges)
    ensures var l := Triangulations.Call(t, Triangulations.WeightDict(dict), None).value;
      Equals(l, OtherDict(dict), order) == Ok(forall e :: e in dict ==> dict[e] != 0)
  {
    var l := Triangulations.Call(t, Triangulations.WeightDict(dict), None).value;
    if forall e :: e in dict ==> dict[e] != 0 {
      assert dict.Keys == l.support.edges;
    } else {
      var e :| e in dict && dict[e] == 0;
      assert e !in l.support.edges;
    }
  }

  // ---------------------------------------------------------------------------------------
  // Shortening

  /** `order` lists every set of edges it is given. */
  ghost predicate Listing<E(!new)>(order: set<E> -> seq<E>) {
    forall s :: Lists(order(s), s)
  }

  /** Only the empty listing lists the empty set. */
  lemma ListsEmpty<E(!new)>(order: seq<E>, edges: set<E>)
    requires Lists(order, edges)
    ensures edges == {} <==> order == []
  {
    if order != [] {
      assert order[0] in order;
    }
  }

  /** `lamination.triangulation.encode_flip({edge})`: a candidate move of `shorten`. */
  function FlipCandidate<E(==,!new)>(t: Triangulation<E>, edge: E): (r: Encoding<E>)
    ensures Valid(r) && |r.sequence| == 1 && Source(r) == t
  {
    Triangulations.EncodeFlipSet(t, {edge})
  }

  ghost predicate IsFlipCandidate<E(!new)>(h: Encoding<E>) {
    exists t: Triangulation<E>, edge: E :: h == FlipCandidate(t, edge)
  }

  /** Flipping one edge carries a finitely supported lamination to one on the target of the
      flip that is finitely supported again. */
  lemma FlipKeepsFinite<E(!new)>(h: Encoding<E>, lamination: Lamination<E>)
    requires IsFlipCandidate(h) && lamination.support.Finite?
    requires ApplySeq(h.sequence, lamination).Ok?
    ensures var image := ApplySeq(h.sequence, lamination).value;
      image.support.Finite? && image.triangulation == Target(h)
  {
    var t, edge :| h == FlipCandidate(t, edge);
    var flipped := Triangulations.Selector({edge});
    var target := Triangulations.FlipTarget(t, flipped);
    ApplySingle(h.sequence[0], lamination);
    Triangulations.EncodeFlipActions(t, flipped, lamination);
    Triangulations.FlipTransported(t, target, flipped, lamination);
  }

  /** `encode_flip({edge})(lamination).complexity()`: how complex the lamination becomes when
      `edge` alone is flipped, or the exception that raises on the way. */
  function CandidateComplexity<E(==,!new)>(lamination: Lamination<E>, order: set<E> -> seq<E>, edge: E): (r: Result<int>)
    requires lamination.support.Finite? && Listing(order)
    ensures r.Ok? ==> r.value >= 0
  {
    var h := FlipCandidate(lamination.triangulation, edge);
    var image :- ApplySeq(h.sequence, lamination);
    assert IsFlipCandidate(h);
    FlipKeepsFinite(h, lamination);
    Complexity(image, order(image.support.edges))
  }

  /** The state of the inner loop of `shorten`: the best complexity so far, the move that
      achieves it, and the last candidate built (the variable `h`, which outlives the loop). */
  datatype Choice<!E> = Choice(best: int, bestH: Encoding<E>, last: Option<Encoding<E>>)

  /** The inner loop of `shorten` over `edges`: every candidate flip is applied and measured,
      and one at most as complex as the best so far replaces it, so ties go to the later edge;
      `last` ends as the final candidate. The best never grows. */
  function Pick<E(==,!new)>(lamination: Lamination<E>, order: set<E> -> seq<E>, edges: seq<E>, acc: Choice<E>): (r: Result<Choice<E>>)
    requires lamination.support.Finite? && Listing(order)
    ensures r.Ok? ==> r.value.best <= acc.best
  {
    if edges == [] then Ok(acc)
    else
      var c :- CandidateComplexity(lamination, order, edges[0]);
      var h := FlipCandidate(lamination.triangulation, edges[0]);
      Pick(lamination, order, edges[1..], if c <= acc.best then Choice(c, h, Some(h)) else acc.(last := Some(h)))
  }

  /** The round fails exactly when some candidate fails. */
  lemma {:induction false} PickOk<E(!new)>(lamination: Lamination<E>, order: set<E> -> seq<E>, edges: seq<E>, acc: Choice<E>)
    requires lamination.support.Finite? && Listing(order)
    ensures Pick(lamination, order, edges, acc).Ok? <==>
      forall i :: 0 <= i < |edges| ==> CandidateComplexity(lamination, order, edges[i]).Ok?
  {
    if edges != [] {
      var c := CandidateComplexity(lamination, order, edges[0]);
      if c.Ok? {
        var h := FlipCandidate(lamination.triangulation, edges[0]);
        var next := if c.value <= acc.best then Choice(c.value, h, Some(h)) else acc.(last := Some(h));
        PickOk(lamination, order, edges[1..], next);
        assert forall i :: 1 <= i < |edges| ==> edges[i] == edges[1..][i - 1];
      }
    }
  }

  /** A round's best is at most the complexity of every candidate, and never negative when
      the start is not. */
  lemma {:induction false} PickBelow<E(!new)>(lamination: Lamination<E>, order: set<E> -> seq<E>, edges: seq<E>, acc: Choice<E>)
    requires lamination.support.Finite? && Listing(order)
    requires Pick(lamination, order, edges, acc).Ok?
    requires forall i :: 0 <= i < |edges| ==> CandidateComplexity(lamination, order, edges[i]).Ok?
    ensures var r := Pick(lamination, order, edges, acc).value;
      && (acc.best >= 0 ==> r.best >= 0)
      && forall i :: 0 <= i < |edges| ==> r.best <= CandidateComplexity(lamination, order, edges[i]).value
  {
    if edges != [] {
      var c := CandidateComplexity(lamination, order, edges[0]).value;
      var h := FlipCandidate(lamination.triangulation, edges[0]);
      var next := if c <= acc.best then Choice(c, h, Some(h)) else acc.(last := Some(h));
      assert forall i :: 1 <= i < |edges| ==> edges[i] == edges[1..][i - 1];
      PickBelow(lamination, order, edges[1..], next);
    }
  }

  /** The round fails exactly when some candidate fails; otherwise its best is at most the
      complexity of every candidate, and never negative when the start is not. */
  lemma PickMinimal<E(!new)>(lamination: Lamination<E>, order: set<E> -> seq<E>, edges: seq<E>, acc: Choice<E>)
    requires lamination.support.Finite? && Listing(order)
    ensures var r := Pick(lamination, order, edges, acc);
      && (r.Ok? <==> forall i :: 0 <= i < |edges| ==> CandidateComplexity(lamination, order, edges[i]).Ok?)
      && (r.Ok? && acc.best >= 0 ==> r.value.best >= 0)
      && (r.Ok? ==> forall i :: 0 <= i < |edges| ==>
            r.value.best <= CandidateComplexity(lamination, order, edges[i]).value)
  {
    PickOk(lamination, order, edges, acc);
    if Pick(lamination, order, edges, acc).Ok? {
      PickBelow(lamination, order, edges, acc);
    }
  }

  /** The best of a round is achieved by its move: either nothing beat the start, or the move
      is the flip of an edge whose candidate has exactly that complexity. */
  lemma {:induction false} PickAchieved<E(!new)>(lamination: Lamination<E>, order: set<E> -> seq<E>, edges: seq<E>, acc: Choice<E>)
    requires lamination.support.Finite? && Listing(order)
    requires Pick(lamination, order, edges, acc).Ok?
    ensures var r := Pick(lamination, order, edges, acc).value;
      || (r.best == acc.best && r.bestH == acc.bestH)
      || exists i :: (&& 0 <= i < |edges|
                      && r.bestH == FlipCandidate(lamination.triangulation, edges[i])
                      && CandidateComplexity(lamination, order, edges[i]) == Ok(r.best))
  {
    if edges != [] {
      var c := CandidateComplexity(lamination, order, edges[0]).value;
      var h := FlipCandidate(lamination.triangulation, edges[0]);
      var next := if c <= acc.best then Choice(c, h, Some(h)) else acc.(last := Some(h));
      PickAchieved(lamination, order, edges[1..], next);
      var r := Pick(lamination, order, edges, acc).value;
      if !(r.best == next.best && r.bestH == next.bestH) {
        var i :| && 0 <= i < |edges[1..]|
                 && r.bestH == FlipCandidate(lamination.triangulation, edges[1..][i])
                 && CandidateComplexity(lamination, order, edges[1..][i]) == Ok(r.best);
        assert edges[1..][i] == edges[i + 1];
      }
    }
  }

  /** After a round, `h` is the candidate of the last edge, or what it was if there were none. */
  lemma {:induction false} PickLast<E(!new)>(lamination: Lamination<E>, order: set<E> -> seq<E>, edges: seq<E>, acc: Choice<E>)
    requires lamination.support.Finite? && Listing(order)
    requires Pick(lamination, order, edges, acc).Ok?
    ensures Pick(lamination, order, edges, acc).value.last ==
      (if edges == [] then acc.last else Some(FlipCandidate(lamination.triangulation, edges[|edges| - 1])))
  {
    if edges != [] {
      var c := CandidateComplexity(lamination, order, edges[0]).value;
      var h := FlipCandidate(lamination.triangulation, edges[0]);
      var next := if c <= acc.best then Choice(c, h, Some(h)) else acc.(last := Some(h));
      PickLast(lamination, order, edges[1..], next);
    }
  }

  /** The inner loop of `shorten` (the `for edge in lamination.support` loop), starting from
      the current complexity, the identity, and the `h` left by the previous round. */
  method BestFlip<E(==,!new)>(lamination: Lamination<E>, order: set<E> -> seq<E>, complexity: int, h: Option<Encoding<E>>)
    returns (r: Result<Choice<E>>)
    requires lamination.support.Finite? && Listing(order)
    ensures r == Pick(lamination, order, order(lamination.support.edges),
      Choice(complexity, Triangulations.EncodeIdentity(lamination.triangulation), h))
  {
    var edges := order(lamination.support.edges);
    var acc := Choice(complexity, Triangulations.EncodeIdentity(lamination.triangulation), h);
    var i := 0;
    while i < |edges|
      invariant 0 <= i <= |edges|
      invariant Pick(lamination, order, edges, Choice(complexity, Triangulations.EncodeIdentity(lamination.triangulation), h))
        == Pick(lamination, order, edges[i..], acc)
    {
      assert edges[i..][1..] == edges[i + 1..];
      var candidate := FlipCandidate(lamination.triangulation, edges[i]);
      var image := Apply(candidate, lamination);
      if image.Err? {
        return Err(image.error);
      }
      assert IsFlipCandidate(candidate);
      FlipKeepsFinite(candidate, lamination);
      var c := Complexity(image.value, order(image.value.support.edges));
      if c.Err? {
        return Err(c.error);
      }
      if c.value <= acc.best {
        acc := Choice(c.value, candidate, Some(candidate));
      } else {
        acc := acc.(last := Some(candidate));
      }
      i := i + 1;
    }
    assert edges[i..] == [];
    return Ok(acc);
  }

  /** What a round of `shorten` as written relies on: the recorded move has at least one
      move, `h` is a single flip if anything, the best stays between zero and the start, and
      without edges `h` is left as it was. */
  lemma PickKeeps<E(!new)>(lamination: Lamination<E>, order: set<E> -> seq<E>, edges: seq<E>, acc: Choice<E>)
    requires lamination.support.Finite? && Listing(order)
    requires Pick(lamination, order, edges, acc).Ok?
    requires Valid(acc.bestH) && acc.best >= 0
    requires acc.last.Some? ==> IsFlipCandidate(acc.last.value)
    ensures var r := Pick(lamination, order, edges, acc).value;
      && Valid(r.bestH)
      && 0 <= r.best <= acc.best
      && (r.last.Some? ==> IsFlipCandidate(r.last.value))
      && (edges == [] ==> r.last == acc.last)
  {
    PickMinimal(lamination, order, edges, acc);
    PickAchieved(lamination, order, edges, acc);
    PickLast(lamination, order, edges, acc);
    var r := Pick(lamination, order, edges, acc).value;
    if edges != [] {
      assert r.last.value == FlipCandidate(lamination.triangulation, edges[|edges| - 1]);
    }
  }

  /** Applying a candidate that achieved complexity `c` gives a finitely supported
      lamination of complexity `c` on the target of the flip. */
  lemma CandidateStep<E(!new)>(lamination: Lamination<E>, order: set<E> -> seq<E>, edge: E, c: int)
    requires lamination.support.Finite? && Listing(order)
    requires CandidateComplexity(lamination, order, edge) == Ok(c)
    ensures var h := FlipCandidate(lamination.triangulation, edge);
      var next := ApplySeq(h.sequence, lamination);
      && next.Ok?
      && next.value.support.Finite?
      && next.value.triangulation == Target(h)
      && Complexity(next.value, order(next.value.support.edges)) == Ok(c)
  {
    var h := FlipCandidate(lamination.triangulation, edge);
    assert IsFlipCandidate(h);
    FlipKeepsFinite(h, lamination);
  }

  /** Applying the identity keeps the support and the complexity. */
  lemma IdentityStep<E(!new)>(lamination: Lamination<E>, order: set<E> -> seq<E>)
    requires lamination.support.Finite? && Listing(order)
    ensures var id := Triangulations.EncodeIdentity(lamination.triangulation);
      var next := ApplySeq(id.sequence, lamination);
      && next.Ok?
      && next.value.support == lamination.support
      && next.value.triangulation == Target(id)
      && Complexity(next.value, order(next.value.support.edges)) == Complexity(lamination, order(lamination.support.edges))
  {
    var t := lamination.triangulation;
    var id := Triangulations.EncodeIdentity(t);
    ApplySingle(id.sequence[0], lamination);
    Triangulations.IdentityChangesNothing(t, lamination);
    var next := ApplySeq(id.sequence, lamination).value;
    ComplexityCongruent(lamination, next, order(lamination.support.edges));
  }

  /** One round of `shorten` applying the best move: that move never raises, keeps the
      support finite, and leaves the lamination exactly as complex as the round found; when
      there is nothing to flip it is the identity and the support stays empty. */
  lemma ShortenStep<E(!new)>(lamination: Lamination<E>, order: set<E> -> seq<E>, complexity: int, h: Option<Encoding<E>>, choice: Choice<E>)
    requires lamination.support.Finite? && Listing(order)
    requires Complexity(lamination, order(lamination.support.edges)) == Ok(complexity)
    requires Pick(lamination, order, order(lamination.support.edges),
      Choice(complexity, Triangulations.EncodeIdentity(lamination.triangulation), h)) == Ok(choice)
    ensures Valid(choice.bestH)
    ensures var next := ApplySeq(choice.bestH.sequence, lamination);
      && next.Ok?
      && next.value.support.Finite?
      && next.value.triangulation == Target(choice.bestH)
      && Complexity(next.value, order(next.value.support.edges)) == Ok(choice.best)
      && (lamination.support.edges == {} ==> next.value.support == lamination.support)
  {
    var edges := order(lamination.support.edges);
    var t := lamination.triangulation;
    var acc := Choice(complexity, Triangulations.EncodeIdentity(t), h);
    PickAchieved(lamination, order, edges, acc);
    ListsEmpty(edges, lamination.support.edges);
    if choice.best == complexity && choice.bestH == acc.bestH {
      IdentityStep(lamination, order);
    } else {
      var i :| && 0 <= i < |edges|
               && choice.bestH == FlipCandidate(t, edges[i])
               && CandidateComplexity(lamination, order, edges[i]) == Ok(choice.best);
      CandidateStep(lamination, order, edges[i], choice.best);
    }
  }

  /** `shorten` as written: the round measures every candidate but then applies `h`, the last
      candidate built, rather than `best_h`, the one it recorded; with nothing to flip in the
      first round `h` was never bound and the name lookup raises. Whatever it returns is short,
      and the conjugator starts at this lamination's triangulation. */
  method ShortenAsWritten<E(==,!new)>(self: Lamination<E>, order: set<E> -> seq<E>)
    returns (r: Result<(Lamination<E>, Encoding<E>)>)
    requires self.support.Finite? && Listing(order)
    ensures r.Ok? ==> r.value.0.support.Finite? && IsShort(r.value.0, order(r.value.0.support.edges)) == Ok(true)
    ensures r.Ok? ==> Valid(r.value.1) && Source(r.value.1) == self.triangulation
    ensures self.support.edges == {} ==> r == Err(NameError)
  {
    var lamination := self;
    var complexity :- Complexity(lamination, order(lamination.support.edges));
    var conjugator := Triangulations.EncodeIdentity(lamination.triangulation);
    var time := 0;
    var h: Option<Encoding<E>> := None;
    while true
      invariant lamination.support.Finite?
      invariant complexity >= 0 && 0 <= time <= 3
      invariant Valid(conjugator) && Source(conjugator) == self.triangulation
      invariant h.Some? ==> IsFlipCandidate(h.value)
      invariant self.support.edges == {} ==> lamination == self && h.None?
      decreases complexity, 3 - time
    {
      ListsEmpty(order(lamination.support.edges), lamination.support.edges);
      var short :- IsShort(lamination, order(lamination.support.edges));
      if short {
        return Ok((lamination, conjugator));
      }
      time := time + 1;
      var choice :- BestFlip(lamination, order, complexity, h);
      PickKeeps(lamination, order, order(lamination.support.edges),
        Choice(complexity, Triangulations.EncodeIdentity(lamination.triangulation), h));
      h := choice.last;
      if choice.best < complexity {
        time := 0;
      }
      MulEnds(choice.bestH, conjugator);
      conjugator := Mul(choice.bestH, conjugator);
      if h.None? {
        return Err(NameError);
      }
      var next :- Apply(h.value, lamination);
      FlipKeepsFinite(h.value, lamination);
      lamination := next;
      complexity := choice.best;
      if time > 3 {
        return Err(ValueError);
      }
    }
  }

  /** What holds of the corrected `shorten` between rounds: the lamination is finitely
      supported with complexity `complexity`, and the conjugator is the moves `prefix`, which
      carry the starting lamination `self` to it, followed by the identity on `self`'s
      triangulation. */
  ghost predicate Shortening<E(!new)>(self: Lamination<E>, order: set<E> -> seq<E>, lamination: Lamination<E>, complexity: int,
                                       conjugator: Encoding<E>, prefix: seq<Move<E>>)
    requires Listing(order)
  {
    && lamination.support.Finite?
    && Complexity(lamination, order(lamination.support.edges)) == Ok(complexity)
    && Valid(conjugator) && Source(conjugator) == self.triangulation
    && conjugator.sequence == prefix + [Triangulations.EncodeIdentity(self.triangulation).sequence[0]]
    && ApplySeq(prefix, self) == Ok(lamination)
    && (prefix != [] ==> lamination.triangulation == Target(conjugator))
  }

  /** A round of the corrected `shorten` keeps `Shortening`, with the round's best as the new
      complexity; with an empty support it changes nothing that matters. */
  lemma ShorteningRound<E(!new)>(self: Lamination<E>, order: set<E> -> seq<E>, lamination: Lamination<E>, complexity: int,
                                 conjugator: Encoding<E>, prefix: seq<Move<E>>, choice: Choice<E>)
    requires Listing(order) && Shortening(self, order, lamination, complexity, conjugator, prefix)
    requires Pick(lamination, order, order(lamination.support.edges),
      Choice(complexity, Triangulations.EncodeIdentity(lamination.triangulation), None)) == Ok(choice)
    ensures ApplySeq(choice.bestH.sequence, lamination).Ok?
    ensures var next := ApplySeq(choice.bestH.sequence, lamination).value;
      && Shortening(self, order, next, choice.best, Mul(choice.bestH, conjugator), choice.bestH.sequence + prefix)
      && 0 <= choice.best <= complexity
      && (lamination.support.edges == {} ==> next.support.edges == {})
  {
    var acc := Choice(complexity, Triangulations.EncodeIdentity(lamination.triangulation), None);
    PickMinimal(lamination, order, order(lamination.support.edges), acc);
    ShortenStep(lamination, order, complexity, None, choice);
    MulEnds(choice.bestH, conjugator);
    ApplyConcat(choice.bestH.sequence, prefix, self);
    Regroup(choice.bestH.sequence, prefix, [Triangulations.EncodeIdentity(self.triangulation).sequence[0]]);
  }

  lemma Regroup<T>(a: seq<T>, b: seq<T>, c: seq<T>)
    ensures a + (b + c) == (a + b) + c
  {
  }

  /** `shorten` applying the move it chose, `best_h`. Each round lands on a lamination whose
      complexity is the best the round found, so the complexity never grows and the move never
      raises; a round without strict progress counts towards the limit of four, which is also
      how a lamination with empty support ends, with ValueError. What it returns is short, no
      more complex than this lamination, and the conjugator's moves, all but its final identity,
      carry this lamination to it. */
  method Shorten<E(==,!new)>(self: Lamination<E>, order: set<E> -> seq<E>)
    returns (r: Result<(Lamination<E>, Encoding<E>)>)
    requires self.support.Finite? && Listing(order)
    ensures r.Ok? ==> r.value.0.support.Finite? && IsShort(r.value.0, order(r.value.0.support.edges)) == Ok(true)
    ensures r.Ok? ==> Complexity(self, order(self.support.edges)).Ok? && Complexity(self, order(self.support.edges)).value >= 2
    ensures r.Ok? ==>
      var conjugator := r.value.1;
      var n := |conjugator.sequence|;
      && Valid(conjugator) && Source(conjugator) == self.triangulation
      && conjugator.sequence[n - 1] == Triangulations.EncodeIdentity(self.triangulation).sequence[0]
      && ApplySeq(conjugator.sequence[..n - 1], self) == Ok(r.value.0)
      && (n > 1 ==> r.value.0.triangulation == Target(conjugator))
    ensures self.support.edges == {} ==> r == Err(ValueError)
  {
    var lamination := self;
    var complexity :- Complexity(lamination, order(lamination.support.edges));
    ghost var start := complexity;
    var conjugator := Triangulations.EncodeIdentity(lamination.triangulation);
    ghost var prefix: seq<Move<E>> := [];
    var time := 0;
    ListsEmpty(order(lamination.support.edges), lamination.support.edges);
    while true
      invariant Shortening(self, order, lamination, complexity, conjugator, prefix)
      invariant 0 <= complexity <= start && 0 <= time <= 3
      invariant self.support.edges == {} ==> lamination.support.edges == {} && complexity == 0
      decreases complexity, 3 - time
    {
      ListsEmpty(order(lamination.support.edges), lamination.support.edges);
      var short := IsShort(lamination, order(lamination.support.edges));
      if short.value {
        ghost var identity := Triangulations.EncodeIdentity(self.triangulation).sequence[0];
        assert conjugator.sequence == prefix + [identity];
        assert conjugator.sequence[..|conjugator.sequence| - 1] == prefix;
        return Ok((lamination, conjugator));
      }
      time := time + 1;
      var choice :- BestFlip(lamination, order, complexity, None);
      ShorteningRound(self, order, lamination, complexity, conjugator, prefix, choice);
      if choice.best < complexity {
        time := 0;
      }
      conjugator := Mul(choice.bestH, conjugator);
      var next := Apply(choice.bestH, lamination);
      prefix := choice.bestH.sequence + prefix;
      lamination := next.value;
      complexity := choice.best;
      if time > 3 {
        return Err(ValueError);
      }
    }
  }

  // ---------------------------------------------------------------------------------------
  // Dehn twists

  /** A listing is as long as the set it lists. */
  lemma {:induction false} ListedSize<E(!new)>(order: seq<E>, edges: set<E>)
    requires Lists(order, edges)
    ensures |order| == |edges|
    decreases |order|
  {
    ListsEmpty(order, edges);
    if order != [] {
      var x := order[0];
      var rest := order[1..];
      forall y | y in rest
        ensures y in edges - {x}
      {
        var i :| 0 <= i < |rest| && rest[i] == y;
        assert order[i + 1] == y;
      }
      forall y | y in edges - {x}
        ensures y in rest
      {
        var i :| 0 <= i < |order| && order[i] == y;
        assert rest[i - 1] == y;
      }
      assert forall i, j :: 0 <= i < j < |rest| ==> rest[i] == order[i + 1] && rest[j] == order[j + 1];
      ListedSize(rest, edges - {x});
    }
  }

  /** The dictionary literal `{e: x, x: e}`: one item when the two are the same edge. */
  function SwapDict<E(==,!new)>(e: E, x: E): (r: seq<(E, E)>)
    ensures Triangulations.DistinctKeys(r)
  {
    if e == x then [(e, e)] else [(e, x), (x, e)]
  }

  /** As a relabelling, `{e: x, x: e}` swaps `e` and `x` and fixes every other edge. */
  lemma SwapDictSwaps<E(!new)>(e: E, x: E, y: E)
    ensures Triangulations.DictMap(SwapDict(e, x))(y) == if y == e then x else if y == x then e else y
  {
    var d := SwapDict(e, x);
    assert Triangulations.DictMap(d)(y) == Triangulations.Get(d, y, y);
    if e != x {
      assert d[..1] == [(e, x)];
      if y != x {
        assert Triangulations.Get(d, y, y) == Triangulations.Get([(e, x)], y, y);
      }
    }
  }

  /** The twist of `encode_twist` on the short lamination: `short.triangulation.encode` of
      the swap of `e` with `x` after the flip of `e`. */
  function TwistMove<E(==,!new)>(short: Lamination<E>, e: E, x: E): (r: Encoding<E>)
    ensures Valid(r) && Source(r) == short.triangulation && |r.sequence| == 3
  {
    Triangulations.EncodeSpec(short.triangulation, [Triangulations.Relabel(SwapDict(e, x)), Triangulations.FlipSet({e})])
  }

  /** The end of `encode_twist` once the lamination is short: its support must have exactly
      two edges, `e` being the first listed. With `a, b, c, d` the square of `e`, when `b`
      has weight one the twist swaps `e` with `b`, which must be `d`; otherwise it swaps `e`
      with `a`, which must be `c`. The twist is conjugated back by the conjugator, so it
      starts and ends where the conjugator starts. */
  function TwistOf<E(==,!new)>(short: Lamination<E>, conjugator: Encoding<E>, order: seq<E>): (r: Result<Encoding<E>>)
    requires short.support.Finite? && Lists(order, short.support.edges)
    ensures |short.support.edges| != 2 ==> r == Err(ValueError)
    ensures |short.support.edges| == 2 ==>
      var e := order[0];
      var s := short.triangulation.link(e);
      var wb := short.weight(s.b);
      && (wb.Err? ==> r == Err(wb.error))
      && (wb.Ok? ==> (r.Ok? <==> if wb.value == 1 then s.b == s.d else s.a == s.c))
      && (wb.Ok? && r.Err? ==> r.error == AssertionError)
      && (r.Ok? ==> r.value == Mul(Mul(Inverse(conjugator), TwistMove(short, e, if wb.value == 1 then s.b else s.a)), conjugator))
    ensures r.Ok? && Valid(conjugator) ==>
      && Valid(r.value)
      && Source(r.value) == Source(conjugator)
      && Target(r.value) == Source(conjugator)
      && |r.value.sequence| == 2 * |conjugator.sequence| + 3
  {
    ListedSize(order, short.support.edges);
    if |order| != 2 then Err(ValueError)
    else
      var e := order[0];
      var s := short.triangulation.link(e);
      var wb :- short.weight(s.b);
      if wb == 1 && s.b != s.d then Err(AssertionError)
      else if wb != 1 && s.a != s.c then Err(AssertionError)
      else
        var twist := TwistMove(short, e, if wb == 1 then s.b else s.a);
        var r := Mul(Mul(Inverse(conjugator), twist), conjugator);
        if Valid(conjugator) then
          InverseEnds(conjugator);
          MulEnds(Inverse(conjugator), twist);
          MulEnds(Mul(Inverse(conjugator), twist), conjugator);
          Ok(r)
        else Ok(r)
  }

  /** `encode_twist` as written: it calls `shorten` as written, so a lamination with empty
      support raises the NameError of the unbound `h`, and the twist is taken about the
      lamination that `shorten` holds, which after a stale candidate is not the image of the
      start under the conjugator's moves. The conjugated twist still runs from and to this
      lamination's triangulation. */
  method EncodeTwistAsWritten<E(==,!new)>(self: Lamination<E>, order: set<E> -> seq<E>) returns (r: Result<Encoding<E>>)
    requires self.support.Finite? && Listing(order)
    ensures r.Ok? ==> Valid(r.value) && Source(r.value) == self.triangulation && Target(r.value) == self.triangulation
    ensures self.support.edges == {} ==> r == Err(NameError)
  {
    var shortened :- ShortenAsWritten(self, order);
    var short, conjugator := shortened.0, shortened.1;
    r := TwistOf(short, conjugator, order(short.support.edges));
  }

  /** `encode_twist` over the corrected shortening: shorten, then twist about the short
      lamination and conjugate back. The result, when there is one, is a mapping class of
      this lamination's triangulation; a lamination with empty support is refused with the
      ValueError of a lamination that cannot be shortened. */
  method EncodeTwist<E(==,!new)>(self: Lamination<E>, order: set<E> -> seq<E>) returns (r: Result<Encoding<E>>)
    requires self.support.Finite? && Listing(order)
    ensures r.Ok? ==> Valid(r.value) && Source(r.value) == self.triangulation && Target(r.value) == self.triangulation
    ensures self.support.edges == {} ==> r == Err(ValueError)
  {
    var shortened :- Shorten(self, order);
    var short, conjugator := shortened.0, shortened.1;
    r := TwistOf(short, conjugator, order(short.support.edges));
  }

  // ---------------------------------------------------------------------------------------
  // A round where the last candidate is not the best

  /** Every edge of this triangulation has the square of edge `-1` on all four sides. */
  function Loops(): Triangulation<int> {
    Triangulation(x => Square(-1, -1, -1, -1))
  }

  /** Weight 3 on edge 0, weight 2 on edge 10, and nothing elsewhere. */
  function TwoArcs(): Lamination<int> {
    Lamination(Loops(), x => Ok(if x == 0 then 3 else if x == 10 then 2 else 0), Finite({0, 10}))
  }

  /** On a triangulation where every square is made of edge `-1`, the edges looked at around
      `{0, 10}` are `-1`, `0` and `10`; with `-1` weighing zero and the other two not, the
      support is found again. */
  lemma TwoArcsSupport(target: Triangulation<int>, weight: int -> Result<int>)
    requires forall x :: target.link(x) == Square(-1, -1, -1, -1)
    requires forall x :: weight(x).Ok?
    requires weight(-1) == Ok(0) && weight(0).value != 0 && weight(10).value != 0
    ensures Triangulations.FlipSupport(target, weight, Finite({0, 10})) == Ok(Finite({0, 10}))
  {
    var near := Triangulations.Neighbours(target, {0, 10});
    assert Triangulations.Star(target, 0) == [-1, -1, -1, -1, 0];
    assert Triangulations.Star(target, 10) == [-1, -1, -1, -1, 10];
    assert forall x :: x in near ==> x == -1 || x == 0 || x == 10;
    assert 0 in near && 10 in near;
    var support := Triangulations.FlipSupport(target, weight, Finite({0, 10}));
    assert support.value.edges == {0, 10};
  }

  /** Applying the candidate for `edge` is the flip transport of that single edge. */
  lemma CandidateTransport<E(!new)>(t: Triangulation<E>, edge: E, lamination: Lamination<E>)
    ensures var flipped := Triangulations.Selector({edge});
      ApplySeq(FlipCandidate(t, edge).sequence, lamination)
        == Triangulations.FlipTransport(t, Triangulations.FlipTarget(t, flipped), flipped, lamination)
  {
    var flipped := Triangulations.Selector({edge});
    var h := FlipCandidate(t, edge);
    assert h == Triangulations.EncodeFlip(t, flipped);
    assert h.sequence == Single(h.sequence[0]).sequence;
    ApplySingle(h.sequence[0], lamination);
    Triangulations.EncodeFlipActions(t, flipped, lamination);
  }

  /** The flip transport of edge 0 or edge 10 of `TwoArcs` negates that edge's weight and
      keeps the support. */
  lemma TwoArcsTransport(p: int)
    requires p == 0 || p == 10
    ensures var flipped := Triangulations.Selector({p});
      var image := Triangulations.FlipTransport(Loops(), Triangulations.FlipTarget(Loops(), flipped), flipped, TwoArcs());
      && image.Ok?
      && image.value.support == Finite({0, 10})
      && image.value.weight(p) == Ok(if p == 0 then -3 else -2)
      && image.value.weight(10 - p) == TwoArcs().weight(10 - p)
  {
    var t, l := Loops(), TwoArcs();
    var flipped := Triangulations.Selector({p});
    var target := Triangulations.FlipTarget(t, flipped);
    var weight := e => Triangulations.FlipWeight(t, flipped, l, e);
    LoopsStayLoops(flipped);
    TwoArcsWeights(p);
    TwoArcsSupport(target, weight);
    Triangulations.FlipTransported(t, target, flipped, l);
  }

  /** Flipping edge 0 or edge 10 of `TwoArcs` negates that edge's weight and keeps the
      support. */
  lemma TwoArcsFlip(p: int)
    requires p == 0 || p == 10
    ensures var image := ApplySeq(FlipCandidate(Loops(), p).sequence, TwoArcs());
      && image.Ok?
      && image.value.support == Finite({0, 10})
      && image.value.weight(p) == Ok(if p == 0 then -3 else -2)
      && image.value.weight(10 - p) == TwoArcs().weight(10 - p)
  {
    CandidateTransport(Loops(), p, TwoArcs());
    TwoArcsTransport(p);
  }

  /** Flipping any edges of `Loops` gives the same squares again. */
  lemma LoopsStayLoops(flipped: int -> bool)
    ensures forall x :: Triangulations.FlipTarget(Loops(), flipped).link(x) == Square(-1, -1, -1, -1)
  {
  }

  /** The flip weights of `TwoArcs` when `p` is flipped: the weight of `p` is negated, every
      other weight is kept. */
  lemma TwoArcsWeights(p: int)
    requires p == 0 || p == 10
    ensures forall x :: (Triangulations.FlipWeight(Loops(), Triangulations.Selector({p}), TwoArcs(), x) ==
      if x == p then Ok(if p == 0 then -3 else -2) else TwoArcs().weight(x))
  {
    assert Triangulations.FlipRule(3, 0, 0, 0, 0) == Ok(-3);
    assert Triangulations.FlipRule(2, 0, 0, 0, 0) == Ok(-2);
  }

  /** The complexity of a lamination supported on `{0, 10}`, whatever the listing. */
  lemma TwoEdgeComplexity(lamination: Lamination<int>, order: set<int> -> seq<int>)
    requires Listing(order) && lamination.support == Finite({0, 10})
    requires lamination.weight(0).Ok? && lamination.weight(10).Ok?
    ensures Complexity(lamination, order({0, 10})) ==
      Ok(Triangulations.Clamp(lamination.weight(0).value) + Triangulations.Clamp(lamination.weight(10).value))
  {
    var listed := [0, 10];
    assert Lists(listed, {0, 10});
    assert listed[1..] == [10] && listed[1..][1..] == [];
    var w0, w10 := lamination.weight(0).value, lamination.weight(10).value;
    assert ClampedSum(lamination, [10]) == Ok(Triangulations.Clamp(w10));
    assert ClampedSum(lamination, listed) == Ok(Triangulations.Clamp(w0) + Triangulations.Clamp(w10));
    ComplexityOrderFree(lamination, listed, order({0, 10}));
  }

  /** After flipping edge 0 of `TwoArcs` only edge 10 counts, and after flipping edge 10
      only edge 0 does. */
  lemma TwoArcsCandidate(order: set<int> -> seq<int>, p: int)
    requires Listing(order) && (p == 0 || p == 10)
    ensures CandidateComplexity(TwoArcs(), order, p) == Ok(if p == 0 then 2 else 3)
  {
    TwoArcsFlip(p);
    var image := ApplySeq(FlipCandidate(Loops(), p).sequence, TwoArcs()).value;
    CandidateUnfold(TwoArcs(), order, p);
    TwoEdgeComplexity(image, order);
  }

  /** When the candidate flip succeeds, its complexity is that of the image, listed by
      `order`. */
  lemma CandidateUnfold<E(!new)>(lamination: Lamination<E>, order: set<E> -> seq<E>, edge: E)
    requires lamination.support.Finite? && Listing(order)
    requires ApplySeq(FlipCandidate(lamination.triangulation, edge).sequence, lamination).Ok?
    ensures var image := ApplySeq(FlipCandidate(lamination.triangulation, edge).sequence, lamination).value;
      && image.support.Finite?
      && CandidateComplexity(lamination, order, edge) == Complexity(image, order(image.support.edges))
  {
    var h := FlipCandidate(lamination.triangulation, edge);
    assert IsFlipCandidate(h);
    FlipKeepsFinite(h, lamination);
  }

  /** `shorten` as written, on `TwoArcs` (complexity 5) listed as edge 0 then edge 10: the
      round records the flip of edge 0 with complexity 2 as the best, but `h` is left at the
      flip of edge 10, whose image has complexity 3, and that is the move applied. */
  lemma StaleCandidate(order: set<int> -> seq<int>)
    requires Listing(order) && order({0, 10}) == [0, 10]
    ensures Complexity(TwoArcs(), order({0, 10})) == Ok(5)
    ensures CandidateComplexity(TwoArcs(), order, 0) == Ok(2)
    ensures CandidateComplexity(TwoArcs(), order, 10) == Ok(3)
    ensures Pick(TwoArcs(), order, order({0, 10}), Choice(5, Triangulations.EncodeIdentity(Loops()), None))
      == Ok(Choice(2, FlipCandidate(Loops(), 0), Some(FlipCandidate(Loops(), 10))))
  {
    TwoEdgeComplexity(TwoArcs(), order);
    TwoArcsCandidate(order, 0);
    TwoArcsCandidate(order, 10);
    PickTwo(TwoArcs(), order, 0, 10, Choice(5, Triangulations.EncodeIdentity(Loops()), None));
  }

  /** A round over two edges where the first candidate beats the start and the second does
      not beat the first: the first is recorded, the second is left in `h`. */
  lemma PickTwo<E(!new)>(lamination: Lamination<E>, order: set<E> -> seq<E>, x: E, y: E, acc: Choice<E>)
    requires lamination.support.Finite? && Listing(order)
    requires CandidateComplexity(lamination, order, x).Ok? && CandidateComplexity(lamination, order, y).Ok?
    requires CandidateComplexity(lamination, order, x).value <= acc.best
    requires CandidateComplexity(lamination, order, x).value < CandidateComplexity(lamination, order, y).value
    ensures Pick(lamination, order, [x, y], acc) == Ok(Choice(CandidateComplexity(lamination, order, x).value,
      FlipCandidate(lamination.triangulation, x), Some(FlipCandidate(lamination.triangulation, y))))
  {
    var cx := CandidateComplexity(lamination, order, x).value;
    var hx := FlipCandidate(lamination.triangulation, x);
    var hy := FlipCandidate(lamination.triangulation, y);
    assert [x, y][1..] == [y] && [y][1..] == [];
    assert Pick(lamination, order, [x, y], acc) == Pick(lamination, order, [y], Choice(cx, hx, Some(hx)));
    assert Pick(lamination, order, [y], Choice(cx, hx, Some(hx))) == Pick(lamination, order, [], Choice(cx, hx, Some(hy)));
  }
}
