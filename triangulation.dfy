/** Triangulations of `bigger.triangulation`, given by their link function: the simultaneous
    flip of a set of edges with its nine-case weight rule, relabelling isometries (from a pair
    of functions or from a dictionary), the identity, the builder `encode`, and the
    construction of laminations from a weight dictionary or a weight function. */
module Triangulations {
  import opened Types
  import opened Encodings
  import Utilities

  /** `Triangulation.star`: the link of `edge` followed by `edge` itself. */
  function Star<E>(t: Triangulation<E>, edge: E): (r: seq<E>)
    ensures |r| == 5 && r[4] == edge
    ensures r[..4] == [t.link(edge).a, t.link(edge).b, t.link(edge).c, t.link(edge).d]
  {
    var s := t.link(edge);
    [s.a, s.b, s.c, s.d, edge]
  }

  /** A set given to `encode_flip` is replaced by its membership test. */
  function Selector<E(==,!new)>(edges: set<E>): (r: E -> bool)
    ensures forall e :: r(e) <==> e in edges
  {
    e => e in edges
  }

  // ---------------------------------------------------------------------------------------
  // The flipped triangulation

  /** The square of a flipped neighbour, turned so that its `d` side is `edge`, as the link
      of `a` and of `c` is read. */
  function FacingD<E(==,!new)>(s: Square<E>, edge: E): Square<E> {
    if s.d != edge then s.Rotated() else s
  }

  /** The square of a flipped neighbour, turned so that its `c` side is `edge`, as the link
      of `b` and of `d` is read. */
  function FacingC<E(==,!new)>(s: Square<E>, edge: E): Square<E> {
    if s.c != edge then s.Rotated() else s
  }

  /** The link of `edge` after flipping every edge where `flipped` holds: a flipped edge turns
      its square a quarter, and a side that was flipped is replaced by the side of the
      neighbouring square that now faces `edge`. */
  function FlipLink<E(==,!new)>(t: Triangulation<E>, flipped: E -> bool, edge: E): Square<E> {
    var s := t.link(edge);
    if flipped(edge) then Square(s.b, s.c, s.d, s.a)
    else
      var wx :=
        if flipped(s.a) then (FacingD(t.link(s.a), edge).a, s.a)
        else if flipped(s.b) then (s.b, FacingC(t.link(s.b), edge).b)
        else (s.a, s.b);
      var yz :=
        if flipped(s.c) then (FacingD(t.link(s.c), edge).a, s.c)
        else if flipped(s.d) then (s.d, FacingC(t.link(s.d), edge).b)
        else (s.c, s.d);
      Square(wx.0, wx.1, yz.0, yz.1)
  }

  /** The triangulation after the flip. */
  function FlipTarget<E(==,!new)>(t: Triangulation<E>, flipped: E -> bool): Triangulation<E> {
    Triangulation(e => FlipLink(t, flipped, e))
  }

  /** A flipped edge with square `(a, b, c, d)` gets the square `(b, c, d, a)`. */
  lemma FlippedLink<E(!new)>(t: Triangulation<E>, flipped: E -> bool, edge: E)
    requires flipped(edge)
    ensures var s := t.link(edge);
      FlipTarget(t, flipped).link(edge) == Square(s.b, s.c, s.d, s.a)
  {
  }

  /** An edge whose square has nothing flipped keeps its square. */
  lemma UntouchedLink<E(!new)>(t: Triangulation<E>, flipped: E -> bool, edge: E)
    requires var s := t.link(edge);
      !flipped(edge) && !flipped(s.a) && !flipped(s.b) && !flipped(s.c) && !flipped(s.d)
    ensures FlipTarget(t, flipped).link(edge) == t.link(edge)
  {
  }

  /** Flipping the same edges twice turns the square of a flipped edge by 180 degrees: the
      same square, read from the opposite corner. */
  lemma FlipTwice<E(!new)>(t: Triangulation<E>, flipped: E -> bool, edge: E)
    requires flipped(edge)
    ensures FlipTarget(FlipTarget(t, flipped), flipped).link(edge) == t.link(edge).Rotated()
  {
    FlippedLink(t, flipped, edge);
    FlippedLink(FlipTarget(t, flipped), flipped, edge);
  }

  // ---------------------------------------------------------------------------------------
  // The weight rule

  /** The nine cases of the flip rule, in the order they are tested. */
  datatype FlipCase = Aab | Acd | Dad | Dbc | Nad | Nbc | Nab | Ncd | Otherwise

  function Order(k: FlipCase): nat {
    match k
    case Aab => 0
    case Acd => 1
    case Dad => 2
    case Dbc => 3
    case Nad => 4
    case Nbc => 5
    case Nab => 6
    case Ncd => 7
    case Otherwise => 8
  }

  /** The condition of each case on the weight `e` of the flipped edge and the clamped
      weights `a, b, c, d` of its square. */
  predicate Guard(k: FlipCase, e: int, a: int, b: int, c: int, d: int) {
    match k
    case Aab => e >= a + b && a >= d && b >= c
    case Acd => e >= c + d && d >= a && c >= b
    case Dad => e <= 0 && a >= b && d >= c
    case Dbc => e <= 0 && b >= a && c >= d
    case Nad => e >= 0 && a >= b + e && d >= c + e
    case Nbc => e >= 0 && b >= a + e && c >= d + e
    case Nab => a + b >= e && b + e >= 2 * c + a && a + e >= 2 * d + b
    case Ncd => c + d >= e && d + e >= 2 * a + c && c + e >= 2 * b + d
    case Otherwise => true
  }

  /** The case the `if`/`elif` chain takes: the first whose condition holds. */
  function Case(e: int, a: int, b: int, c: int, d: int): (k: FlipCase)
    ensures Guard(k, e, a, b, c, d)
    ensures forall j :: Order(j) < Order(k) ==> !Guard(j, e, a, b, c, d)
  {
    if Guard(Aab, e, a, b, c, d) then Aab
    else if Guard(Acd, e, a, b, c, d) then Acd
    else if Guard(Dad, e, a, b, c, d) then Dad
    else if Guard(Dbc, e, a, b, c, d) then Dbc
    else if Guard(Nad, e, a, b, c, d) then Nad
    else if Guard(Nbc, e, a, b, c, d) then Nbc
    else if Guard(Nab, e, a, b, c, d) then Nab
    else if Guard(Ncd, e, a, b, c, d) then Ncd
    else Otherwise
  }

  function Max(x: int, y: int): int {
    if x >= y then x else y
  }

  /** The new weight each case returns; the two N cases halve exactly. */
  function CaseWeight(k: FlipCase, e: int, a: int, b: int, c: int, d: int): Result<int> {
    match k
    case Aab => Ok(a + b - e)
    case Acd => Ok(c + d - e)
    case Dad => Ok(a + d - e)
    case Dbc => Ok(b + c - e)
    case Nad => Ok(a + d - 2 * e)
    case Nbc => Ok(b + c - 2 * e)
    case Nab => Utilities.HalfInt(a + b - e)
    case Ncd => Utilities.HalfInt(c + d - e)
    case Otherwise => Ok(Max(a + c, b + d) - e)
  }

  /** The weight of a flipped edge of weight `e` in the square of clamped weights
      `a, b, c, d`. */
  function FlipRule(e: int, a: int, b: int, c: int, d: int): Result<int> {
    CaseWeight(Case(e, a, b, c, d), e, a, b, c, d)
  }

  /** The rule fails exactly in the two halving cases on an odd dividend, with ValueError. */
  lemma FlipRuleFails(e: int, a: int, b: int, c: int, d: int)
    ensures var k := Case(e, a, b, c, d);
      FlipRule(e, a, b, c, d).Err? <==>
        (k == Nab && (a + b - e) % 2 != 0) || (k == Ncd && (c + d - e) % 2 != 0)
    ensures FlipRule(e, a, b, c, d).Err? ==> FlipRule(e, a, b, c, d).error == ValueError
  {
  }

  /** Reading the square from the opposite corner does not change the new weight: the rule
      is well defined on squares, which are only determined up to that rotation. */
  lemma FlipRuleRotation(e: int, a: int, b: int, c: int, d: int)
    ensures FlipRule(e, c, d, a, b) == FlipRule(e, a, b, c, d)
  {
    var k := Case(e, a, b, c, d);
    if k == Aab && Guard(Acd, e, a, b, c, d) {
      assert a == d && b == c;
    }
    if k == Dad && Guard(Dbc, e, a, b, c, d) {
      assert a == b && c == d;
    }
  }

  /** Swapping the two triangles' roles (`a` with `b`, `c` with `d`) does not change the new
      weight either. */
  lemma FlipRuleMirror(e: int, a: int, b: int, c: int, d: int)
    ensures FlipRule(e, b, a, d, c) == FlipRule(e, a, b, c, d)
  {
    var k := Case(e, a, b, c, d);
    if k == Aab && Guard(Acd, e, a, b, c, d) {
      assert a == d && b == c;
    }
    if k == Dad && Guard(Dbc, e, a, b, c, d) {
      assert a == b && c == d;
    }
  }

  function Clamp(w: int): nat {
    if w > 0 then w else 0
  }

  /** The weight of `edge` after the flip, read from `lamination` on `source`: unchanged off
      the flipped edges; on a flipped edge, the rule applied to its weight and the clamped
      weights of its square, each weight query raising as it would. */
  function FlipWeight<E(==,!new)>(source: Triangulation<E>, flipped: E -> bool, lamination: Lamination<E>, edge: E): (r: Result<int>)
    ensures !flipped(edge) ==> r == lamination.weight(edge)
  {
    if !flipped(edge) then lamination.weight(edge)
    else
      var e :- lamination.weight(edge);
      var s := source.link(edge);
      var a :- lamination.weight(s.a);
      var b :- lamination.weight(s.b);
      var c :- lamination.weight(s.c);
      var d :- lamination.weight(s.d);
      FlipRule(e, Clamp(a), Clamp(b), Clamp(c), Clamp(d))
  }

  /** On a flipped edge whose square's weights can all be read, the new weight is the rule. */
  lemma FlipWeightRule<E(!new)>(source: Triangulation<E>, flipped: E -> bool, lamination: Lamination<E>, edge: E)
    requires flipped(edge)
    requires var s, w := source.link(edge), lamination.weight;
      w(edge).Ok? && w(s.a).Ok? && w(s.b).Ok? && w(s.c).Ok? && w(s.d).Ok?
    ensures var s, w := source.link(edge), lamination.weight;
      FlipWeight(source, flipped, lamination, edge) ==
        FlipRule(w(edge).value, Clamp(w(s.a).value), Clamp(w(s.b).value), Clamp(w(s.c).value), Clamp(w(s.d).value))
  {
  }

  // ---------------------------------------------------------------------------------------
  // The support after a flip

  /** The edges in the star, in `target`, of some edge of `support`: where the new support
      is looked for. */
  function Neighbours<E(==,!new)>(target: Triangulation<E>, support: set<E>): (r: set<E>)
    ensures forall x :: x in r <==> exists arc :: arc in support && x in Star(target, arc)
  {
    set arc, x | arc in support && x in Star(target, arc) :: x
  }

  /** The support after a flip: an unbounded support stays unbounded (its generator is not
      run); a finite one becomes the edges in the stars of its edges whose new weight is not
      zero, which evaluates those weights now. */
  function FlipSupport<E(==,!new)>(target: Triangulation<E>, weight: E -> Result<int>, support: Support<E>): (r: Result<Support<E>>)
    ensures support.Infinite? ==> r == Ok(Infinite)
    ensures support.Finite? ==>
      (r.Err? <==> exists x :: x in Neighbours(target, support.edges) && weight(x).Err?)
    ensures r.Err? ==> r.error == ValueError
    ensures support.Finite? && r.Ok? ==> (r.value.Finite? &&
      forall x :: x in r.value.edges <==> x in Neighbours(target, support.edges) && weight(x).Ok? && weight(x).value != 0)
  {
    match support
    case Infinite => Ok(Infinite)
    case Finite(edges) =>
      var near := Neighbours(target, edges);
      if exists x :: x in near && weight(x).Err? then Err(ValueError)
      else Ok(Finite(set x | x in near && weight(x).Ok? && weight(x).value != 0))
  }

  /** The transport of `encode_flip` from `source` to `target` (the inner `helper`). */
  function FlipTransport<E(==,!new)>(source: Triangulation<E>, target: Triangulation<E>, flipped: E -> bool, lamination: Lamination<E>): Result<Lamination<E>> {
    var weight := e => FlipWeight(source, flipped, lamination, e);
    var support :- FlipSupport(target, weight, lamination.support);
    Call(target, WeightFunction(weight), Some(support))
  }

  /** What a flip does to a lamination: it lands on `target`; every weight is the flip weight;
      the support is the recomputed one, finite iff it was; and the transport fails exactly
      when the recomputation meets a weight that raises. */
  lemma FlipTransported<E(!new)>(source: Triangulation<E>, target: Triangulation<E>, flipped: E -> bool, lamination: Lamination<E>)
    ensures var weight := e => FlipWeight(source, flipped, lamination, e);
      var r := FlipTransport(source, target, flipped, lamination);
      && (r.Ok? <==> FlipSupport(target, weight, lamination.support).Ok?)
      && (r.Ok? ==>
        && r.value.triangulation == target
        && r.value.support == FlipSupport(target, weight, lamination.support).value
        && r.value.IsFinitelySupported() == lamination.IsFinitelySupported()
        && forall e :: r.value.weight(e) == FlipWeight(source, flipped, lamination, e))
  {
  }

  /** `Triangulation.encode_flip`: one move flipping every edge where `flipped` holds, with
      the same transport in both directions between the two triangulations. */
  function EncodeFlip<E(==,!new)>(t: Triangulation<E>, flipped: E -> bool): (r: Encoding<E>)
    ensures Valid(r) && |r.sequence| == 1
    ensures Source(r) == t && Target(r) == FlipTarget(t, flipped)
  {
    var target := FlipTarget(t, flipped);
    Single(Move(t, target, l => FlipTransport(t, target, flipped, l), l => FlipTransport(target, t, flipped, l)))
  }

  /** The move of `encode_flip` transports forwards from the source and backwards from the
      target. */
  lemma EncodeFlipActions<E(!new)>(t: Triangulation<E>, flipped: E -> bool, lamination: Lamination<E>)
    ensures var m, target := EncodeFlip(t, flipped).sequence[0], FlipTarget(t, flipped);
      && m.action(lamination) == FlipTransport(t, target, flipped, lamination)
      && m.invAction(lamination) == FlipTransport(target, t, flipped, lamination)
  {
  }

  /** `encode_flip` given a set: the same as flipping by its membership test. */
  function EncodeFlipSet<E(==,!new)>(t: Triangulation<E>, edges: set<E>): (r: Encoding<E>)
    ensures r == EncodeFlip(t, Selector(edges))
  {
    EncodeFlip(t, Selector(edges))
  }

  // ---------------------------------------------------------------------------------------
  // Isometries

  function MapSquare<E>(f: E -> E, s: Square<E>): Square<E> {
    Square(f(s.a), f(s.b), f(s.c), f(s.d))
  }

  /** The relabelled triangulation: the link of `e` is the image of the link of
      `inv_isom(e)`. */
  function IsometryTarget<E>(t: Triangulation<E>, isom: E -> E, invIsom: E -> E): Triangulation<E> {
    Triangulation(e => MapSquare(isom, t.link(invIsom(e))))
  }

  /** The transport of an isometry onto `onto`: the weight of `e` is the old weight of
      `back(e)`, and a finite support is carried forward by `along`. */
  function IsometryTransport<E(==,!new)>(onto: Triangulation<E>, along: E -> E, back: E -> E, lamination: Lamination<E>): Result<Lamination<E>> {
    var weight := e => lamination.weight(back(e));
    var support := match lamination.support
      case Infinite => Infinite
      case Finite(edges) => Finite(set a | a in edges :: along(a));
    Call(onto, WeightFunction(weight), Some(support))
  }

  /** `Triangulation.encode_isometry`: one move relabelling edges by `isom`, whose inverse
      transport relabels by `inv_isom`. */
  function EncodeIsometry<E(==,!new)>(t: Triangulation<E>, isom: E -> E, invIsom: E -> E): (r: Encoding<E>)
    ensures Valid(r) && |r.sequence| == 1
    ensures Source(r) == t && Target(r) == IsometryTarget(t, isom, invIsom)
  {
    var target := IsometryTarget(t, isom, invIsom);
    Single(Move(t, target, l => IsometryTransport(target, isom, invIsom, l), l => IsometryTransport(t, invIsom, isom, l)))
  }

  /** The forward transport reads `L(inv_isom(e))`, the inverse transport `L(isom(e))`, and
      neither fails. */
  lemma IsometryActions<E(!new)>(t: Triangulation<E>, isom: E -> E, invIsom: E -> E, lamination: Lamination<E>)
    ensures var m := EncodeIsometry(t, isom, invIsom).sequence[0];
      && m.action(lamination).Ok? && m.invAction(lamination).Ok?
      && m.action(lamination).value.triangulation == IsometryTarget(t, isom, invIsom)
      && m.invAction(lamination).value.triangulation == t
      && (forall e :: m.action(lamination).value.weight(e) == lamination.weight(invIsom(e)))
      && (forall e :: m.invAction(lamination).value.weight(e) == lamination.weight(isom(e)))
  {
  }

  /** When `inv_isom` undoes `isom`, the inverse transport undoes the transport: the
      lamination comes back on `t` with the same weights and the same support. */
  lemma IsometryRoundTrip<E(!new)>(t: Triangulation<E>, isom: E -> E, invIsom: E -> E, lamination: Lamination<E>)
    requires forall x :: invIsom(isom(x)) == x
    ensures var m := EncodeIsometry(t, isom, invIsom).sequence[0];
      var back := m.invAction(m.action(lamination).value);
      && back.Ok?
      && back.value.triangulation == t
      && back.value.support == lamination.support
      && forall e :: back.value.weight(e) == lamination.weight(e)
  {
    var m := EncodeIsometry(t, isom, invIsom).sequence[0];
    var image := m.action(lamination).value;
    var back := m.invAction(image).value;
    if lamination.support.Finite? {
      var edges := lamination.support.edges;
      assert back.support.edges == edges by {
        forall x | x in edges
          ensures x in back.support.edges
        {
          assert isom(x) in image.support.edges;
        }
      }
    }
  }

  // ---------------------------------------------------------------------------------------
  // Isometries from dictionaries

  /** A Python dictionary as its items in insertion order; keys are distinct. */
  predicate DistinctKeys<K(==), V>(d: seq<(K, V)>) {
    forall i, j :: 0 <= i < j < |d| ==> d[i].0 != d[j].0
  }

  predicate DistinctValues<K, V(==)>(d: seq<(K, V)>) {
    forall i, j :: 0 <= i < j < |d| ==> d[i].1 != d[j].1
  }

  /** `dict.get(key, default)` over items where a later item overrides an earlier one, as
      when a dictionary is built from a sequence of pairs. */
  function Get<K(==,!new), V>(d: seq<(K, V)>, key: K, dflt: V): (r: V)
    ensures (forall i :: 0 <= i < |d| ==> d[i].0 != key) ==> r == dflt
  {
    if d == [] then dflt
    else if d[|d| - 1].0 == key then d[|d| - 1].1
    else Get(d[..|d| - 1], key, dflt)
  }

  /** The value under a key is that of its last item. */
  lemma {:induction false} GetLast<K(!new), V>(d: seq<(K, V)>, key: K, dflt: V, i: nat)
    requires i < |d| && d[i].0 == key
    requires forall j :: i < j < |d| ==> d[j].0 != key
    ensures Get(d, key, dflt) == d[i].1
    decreases |d|
  {
    if i < |d| - 1 {
      GetLast(d[..|d| - 1], key, dflt, i);
    }
  }

  /** `dict((value, key) for key, value in d.items())`. */
  function Swap<K, V>(d: seq<(K, V)>): (r: seq<(V, K)>)
    ensures |r| == |d| && forall i :: 0 <= i < |d| ==> r[i] == (d[i].1, d[i].0)
  {
    seq(|d|, i requires 0 <= i < |d| => (d[i].1, d[i].0))
  }

  /** The relabelling a dictionary gives: listed edges go to their value, others stay. */
  function DictMap<E(==,!new)>(d: seq<(E, E)>): (r: E -> E) {
    e => Get(d, e, e)
  }

  /** `Triangulation.encode_isometry_from_dict`. */
  function EncodeIsometryFromDict<E(==,!new)>(t: Triangulation<E>, d: seq<(E, E)>): (r: Encoding<E>)
    requires DistinctKeys(d)
    ensures Valid(r) && Source(r) == t
    ensures Target(r) == IsometryTarget(t, DictMap(d), DictMap(Swap(d)))
  {
    EncodeIsometry(t, DictMap(d), DictMap(Swap(d)))
  }

  /** An edge that is not a key is fixed; a key goes to its value. */
  lemma DictMapValues<E(!new)>(d: seq<(E, E)>, e: E)
    requires DistinctKeys(d)
    ensures (forall i :: 0 <= i < |d| ==> d[i].0 != e) ==> DictMap(d)(e) == e
    ensures forall i :: 0 <= i < |d| && d[i].0 == e ==> DictMap(d)(e) == d[i].1
  {
    forall i | 0 <= i < |d| && d[i].0 == e
      ensures DictMap(d)(e) == d[i].1
    {
      GetLast(d, e, e, i);
    }
  }

  ghost function KeySet<K, V>(d: seq<(K, V)>): set<K> {
    set i | 0 <= i < |d| :: d[i].0
  }

  ghost function ValueSet<K, V>(d: seq<(K, V)>): set<V> {
    set i | 0 <= i < |d| :: d[i].1
  }

  /** When keys and values are the same set, each value is also some item's key. */
  lemma ValueIsKey<E>(d: seq<(E, E)>, i: nat) returns (j: nat)
    requires KeySet(d) == ValueSet(d)
    requires i < |d|
    ensures j < |d| && d[j].0 == d[i].1
  {
    assert d[i].1 in ValueSet(d);
    j :| 0 <= j < |d| && d[j].0 == d[i].1;
  }

  /** A dictionary permuting its keys (distinct values, the same set of keys and values)
      gives an inverse dictionary that undoes it. */
  lemma DictInverse<E(!new)>(d: seq<(E, E)>, x: E)
    requires DistinctKeys(d) && DistinctValues(d)
    requires KeySet(d) == ValueSet(d)
    ensures DictMap(Swap(d))(DictMap(d)(x)) == x
  {
    var s := Swap(d);
    DictMapValues(d, x);
    if i :| 0 <= i < |d| && d[i].0 == x {
      GetLast(s, d[i].1, d[i].1, i);
    } else {
      forall i | 0 <= i < |s|
        ensures s[i].0 != x
      {
        var j := ValueIsKey(d, i);
      }
    }
  }

  /** `Triangulation.encode_identity`: the relabelling by the empty dictionary. */
  function EncodeIdentity<E(==,!new)>(t: Triangulation<E>): (r: Encoding<E>)
    ensures Valid(r) && |r.sequence| == 1 && Source(r) == t
  {
    EncodeIsometryFromDict(t, [])
  }

  /** The identity changes nothing: the target has the same links, and a lamination comes
      out with the same weights and support. */
  lemma IdentityChangesNothing<E(!new)>(t: Triangulation<E>, lamination: Lamination<E>)
    ensures forall e :: Target(EncodeIdentity(t)).link(e) == t.link(e)
    ensures var image := EncodeIdentity(t).sequence[0].action(lamination);
      && image.Ok?
      && image.value.triangulation == Target(EncodeIdentity(t))
      && image.value.support == lamination.support
      && forall e :: image.value.weight(e) == lamination.weight(e)
  {
    var image := EncodeIdentity(t).sequence[0].action(lamination);
    if lamination.support.Finite? {
      assert image.value.support.edges == lamination.support.edges;
    }
  }

  // ---------------------------------------------------------------------------------------
  // The builder

  /** One item of the list given to `Triangulation.encode`: a membership test or a set of
      edges to flip, a relabelling dictionary, a pair of relabelling functions, or a single
      edge to flip. */
  datatype Term<!E> =
    | FlipBy(flipped: E -> bool)
    | FlipSet(edges: set<E>)
    | Relabel(dict: seq<(E, E)>)
    | Relabelling(isom: E -> E, invIsom: E -> E)
    | FlipEdge(edge: E)

  predicate WellFormed<E>(term: Term<E>) {
    term.Relabel? ==> DistinctKeys(term.dict)
  }

  /** The encoding one item stands for, built on `t`. */
  function TermEncoding<E(==,!new)>(t: Triangulation<E>, term: Term<E>): (r: Encoding<E>)
    requires WellFormed(term)
    ensures Valid(r) && |r.sequence| == 1 && Source(r) == t
  {
    match term
    case FlipBy(flipped) => EncodeFlip(t, flipped)
    case FlipSet(edges) => EncodeFlipSet(t, edges)
    case Relabel(dict) => EncodeIsometryFromDict(t, dict)
    case Relabelling(isom, invIsom) => EncodeIsometry(t, isom, invIsom)
    case FlipEdge(edge) => EncodeFlipSet(t, {edge})
  }

  /** What `encode` builds: the identity on `t`, then each item from the last to the first
      built on the target so far and multiplied on the left. */
  function EncodeSpec<E(==,!new)>(t: Triangulation<E>, terms: seq<Term<E>>): (r: Encoding<E>)
    requires forall i :: 0 <= i < |terms| ==> WellFormed(terms[i])
    ensures Valid(r) && Source(r) == t && |r.sequence| == |terms| + 1
  {
    if terms == [] then EncodeIdentity(t)
    else
      var h := EncodeSpec(t, terms[1..]);
      MulEnds(TermEncoding(Target(h), terms[0]), h);
      Mul(TermEncoding(Target(h), terms[0]), h)
  }

  /** Item `i` of the list becomes move `i` of the encoding, built on the target of the
      encoding of the items after it; the identity comes last, applied first. */
  lemma {:induction false} EncodeMoves<E(!new)>(t: Triangulation<E>, terms: seq<Term<E>>, i: nat)
    requires forall i :: 0 <= i < |terms| ==> WellFormed(terms[i])
    requires i < |terms|
    ensures EncodeSpec(t, terms).sequence[i] == TermEncoding(Target(EncodeSpec(t, terms[i + 1..])), terms[i]).sequence[0]
    ensures EncodeSpec(t, terms).sequence[|terms|] == EncodeIdentity(t).sequence[0]
    decreases |terms|
  {
    var h := EncodeSpec(t, terms[1..]);
    var first := TermEncoding(Target(h), terms[0]);
    var whole := EncodeSpec(t, terms);
    assert whole == Mul(first, h);
    assert whole.sequence == first.sequence + h.sequence;
    if i > 0 {
      EncodeMoves(t, terms[1..], i - 1);
      assert terms[1..][i..] == terms[i + 1..];
      assert whole.sequence[i] == h.sequence[i - 1];
    } else {
      assert whole.sequence[0] == first.sequence[0];
      if |terms| > 1 {
        EncodeMoves(t, terms[1..], 0);
      } else {
        assert terms[1..] == [];
        assert h == EncodeIdentity(t);
      }
    }
    assert whole.sequence[|terms|] == h.sequence[|terms| - 1];
  }

  /** `Triangulation.encode`: the loop over the reversed list, `h = move * h`. */
  method Encode<E(==,!new)>(t: Triangulation<E>, terms: seq<Term<E>>) returns (h: Encoding<E>)
    requires forall i :: 0 <= i < |terms| ==> WellFormed(terms[i])
    ensures h == EncodeSpec(t, terms)
  {
    h := EncodeIdentity(t);
    var i := |terms|;
    assert terms[i..] == [];
    while i > 0
      invariant 0 <= i <= |terms|
      invariant h == EncodeSpec(t, terms[i..])
    {
      i := i - 1;
      assert terms[i..][1..] == terms[i + 1..];
      var move := TermEncoding(Target(h), terms[i]);
      h := Mul(move, h);
    }
  }

  // ---------------------------------------------------------------------------------------
  // Laminations from weights

  /** The weights `Triangulation.__call__` accepts: a dictionary, or a function. */
  datatype Weights<!E> = WeightDict(dict: map<E, int>) | WeightFunction(f: E -> Result<int>)

  /** `Triangulation.__call__`: a dictionary drops its zero entries, weighs unlisted edges 0
      and is supported on its remaining keys; a function needs a support, or ValueError. */
  function Call<E(==,!new)>(t: Triangulation<E>, weights: Weights<E>, support: Option<Support<E>>): (r: Result<Lamination<E>>)
    ensures weights.WeightDict? ==>
      && r.Ok?
      && r.value.triangulation == t
      && r.value.support == Finite(set e | e in weights.dict && weights.dict[e] != 0)
      && forall e :: r.value.weight(e) == Ok(if e in weights.dict then weights.dict[e] else 0)
    ensures weights.WeightFunction? ==>
      && (r.Ok? <==> support.Some?)
      && (r.Err? ==> r.error == ValueError)
      && (r.Ok? ==> r.value == Lamination(t, weights.f, support.value))
  {
    match weights
    case WeightDict(dict) =>
      var kept := map e | e in dict && dict[e] != 0 :: dict[e];
      Ok(Lamination(t, e => Ok(if e in kept then kept[e] else 0), Finite(kept.Keys)))
    case WeightFunction(f) =>
      if support.None? then Err(ValueError) else Ok(Lamination(t, f, support.value))
  }

  /** A lamination made from a dictionary weighs exactly its support nonzero. */
  lemma DictSupport<E(!new)>(t: Triangulation<E>, dict: map<E, int>, e: E)
    ensures var l := Call(t, WeightDict(dict), None).value;
      e in l.support.edges <==> l.weight(e) != Ok(0)
  {
  }
}
