/** The concrete single moves of `bigger.moves`: the flip of one edge and a relabelling
    isometry, each with its inverse, its action on laminations and its one-move encoding. */
module Moves {
  import opened Types
  import opened Encodings
  import Triangulations

  /** `EdgeFlip` flips `edge` of `source`; `Isometry` relabels edges by `isom`, whose inverse
      is `invIsom`. */
  datatype SingleMove<!E> =
    | EdgeFlip(source: Triangulation<E>, target: Triangulation<E>, edge: E)
    | Isometry(source: Triangulation<E>, target: Triangulation<E>, isom: E -> E, invIsom: E -> E)

  /** `__invert__`: the same edge flipped back, or the relabelling by the inverse map. */
  function Invert<E>(m: SingleMove<E>): (r: SingleMove<E>)
    ensures r.source == m.target && r.target == m.source
    ensures r.EdgeFlip? == m.EdgeFlip?
    ensures m.EdgeFlip? ==> r.edge == m.edge
    ensures m.Isometry? ==> r.isom == m.invIsom && r.invIsom == m.isom
  {
    match m
    case EdgeFlip(source, target, edge) => EdgeFlip(target, source, edge)
    case Isometry(source, target, isom, invIsom) => Isometry(target, source, invIsom, isom)
  }

  lemma InvertInvolutive<E>(m: SingleMove<E>)
    ensures Invert(Invert(m)) == m
  {
  }

  /** The weight of `x` after the flip: the flip rule of a simultaneous flip of the single
      edge `m.edge`, read through the star of that edge in the source. */
  function FlipWeight<E(==,!new)>(m: SingleMove<E>, lamination: Lamination<E>, x: E): (r: Result<int>)
    requires m.EdgeFlip?
    ensures x != m.edge ==> r == lamination.weight(x)
  {
    Triangulations.FlipWeight(m.source, e => e == m.edge, lamination, x)
  }

  /** The support after flipping one edge: the old support without the edge, with the edge
      back exactly when its new weight is nonzero; nothing for an unbounded support. The new
      weight of the edge is evaluated here, so it raises here. */
  function FlipSupport<E(==,!new)>(m: SingleMove<E>, lamination: Lamination<E>): (r: Result<Option<Support<E>>>)
    requires m.EdgeFlip?
    ensures lamination.support.Infinite? ==> r == Ok(None)
    ensures lamination.support.Finite? ==>
      && (r.Ok? <==> FlipWeight(m, lamination, m.edge).Ok?)
      && (r.Err? ==> r.error == FlipWeight(m, lamination, m.edge).error)
      && (r.Ok? ==> (r.value.Some? && r.value.value.Finite? &&
          forall x :: x in r.value.value.edges <==>
            (x in lamination.support.edges && x != m.edge) ||
            (x == m.edge && FlipWeight(m, lamination, m.edge).value != 0)))
  {
    match lamination.support
    case Infinite => Ok(None)
    case Finite(edges) =>
      var w :- FlipWeight(m, lamination, m.edge);
      Ok(Some(Finite(edges - {m.edge} + (if w != 0 then {m.edge} else {}))))
  }

  /** The image of a finite support under a relabelling; nothing for an unbounded one. */
  function ImageSupport<E(==,!new)>(isom: E -> E, support: Support<E>): (r: Option<Support<E>>)
    ensures support.Infinite? <==> r.None?
    ensures support.Finite? ==> (r.value.Finite? &&
      forall x :: x in r.value.edges <==> exists a :: a in support.edges && isom(a) == x)
  {
    match support
    case Infinite => None
    case Finite(edges) => Some(Finite(set a | a in edges :: isom(a)))
  }

  /** `__call__`: the new lamination on `target`, built by calling the target triangulation
      with the new weight function and support. An unbounded support reaches that call as
      `None`, which raises ValueError. */
  function Apply<E(==,!new)>(m: SingleMove<E>, lamination: Lamination<E>): Result<Lamination<E>> {
    match m
    case EdgeFlip(_, target, _) =>
      var support :- FlipSupport(m, lamination);
      Triangulations.Call(target, Triangulations.WeightFunction(x => FlipWeight(m, lamination, x)), support)
    case Isometry(_, target, isom, invIsom) =>
      Triangulations.Call(target, Triangulations.WeightFunction(x => lamination.weight(invIsom(x))), ImageSupport(isom, lamination.support))
  }

  /** What flipping one edge does: ValueError on an unbounded support; otherwise it fails
      exactly when the new weight of the edge raises, and lands on the target with every other
      weight unchanged, the flip rule on the edge, and the support updated at the edge only. */
  lemma EdgeFlipApplied<E(!new)>(m: SingleMove<E>, lamination: Lamination<E>)
    requires m.EdgeFlip?
    ensures lamination.support.Infinite? ==> Apply(m, lamination) == Err(ValueError)
    ensures lamination.support.Finite? ==>
      var r, w := Apply(m, lamination), FlipWeight(m, lamination, m.edge);
      && (r.Ok? <==> w.Ok?)
      && (r.Err? ==> r.error == w.error)
      && (r.Ok? ==>
        && r.value.triangulation == m.target
        && r.value.weight(m.edge) == w
        && (forall x :: x != m.edge ==> r.value.weight(x) == lamination.weight(x))
        && r.value.support.Finite?
        && forall x :: x in r.value.support.edges <==>
          (x in lamination.support.edges && x != m.edge) || (x == m.edge && w.value != 0))
  {
  }

  /** On the flipped edge, once the weights of its star can be read, the new weight is the
      first matching case of the flip rule on the clamped weights of the source square. */
  lemma EdgeFlipRule<E(!new)>(m: SingleMove<E>, lamination: Lamination<E>)
    requires m.EdgeFlip?
    requires var s, w := Triangulations.Star(m.source, m.edge), lamination.weight;
      w(s[0]).Ok? && w(s[1]).Ok? && w(s[2]).Ok? && w(s[3]).Ok? && w(s[4]).Ok?
    ensures var s, w := Triangulations.Star(m.source, m.edge), lamination.weight;
      var a, b, c, d := Triangulations.Clamp(w(s[0]).value), Triangulations.Clamp(w(s[1]).value),
        Triangulations.Clamp(w(s[2]).value), Triangulations.Clamp(w(s[3]).value);
      FlipWeight(m, lamination, m.edge) == Triangulations.FlipRule(w(m.edge).value, a, b, c, d)
  {
    Triangulations.FlipWeightRule(m.source, e => e == m.edge, lamination, m.edge);
  }

  /** Flipping one edge computes the same weights as the simultaneous flip of the set holding
      only that edge. */
  lemma EdgeFlipAgreesWithFlipSet<E(!new)>(t: Triangulation<E>, edge: E, lamination: Lamination<E>, x: E)
    ensures FlipWeight(EdgeFlip(t, Triangulations.FlipTarget(t, Triangulations.Selector({edge})), edge), lamination, x)
      == Triangulations.FlipWeight(t, Triangulations.Selector({edge}), lamination, x)
  {
  }

  /** What relabelling does: ValueError on an unbounded support; otherwise it lands on the
      target, reads the weight of `e` at `inv_isom(e)`, and carries the support by `isom`. */
  lemma IsometryApplied<E(!new)>(m: SingleMove<E>, lamination: Lamination<E>)
    requires m.Isometry?
    ensures lamination.support.Infinite? ==> Apply(m, lamination) == Err(ValueError)
    ensures lamination.support.Finite? ==>
      var r := Apply(m, lamination);
      && r.Ok?
      && r.value.triangulation == m.target
      && (forall x :: r.value.weight(x) == lamination.weight(m.invIsom(x)))
      && r.value.support.Finite?
      && forall x :: x in r.value.support.edges <==> exists a :: a in lamination.support.edges && m.isom(a) == x
  {
  }

  /** When `inv_isom` undoes `isom`, the inverse relabelling brings a finitely supported
      lamination back to the source with the same weights and support. */
  lemma IsometryRoundTrip<E(!new)>(m: SingleMove<E>, lamination: Lamination<E>)
    requires m.Isometry? && lamination.support.Finite?
    requires forall x :: m.invIsom(m.isom(x)) == x
    ensures Apply(m, lamination).Ok?
    ensures var back := Apply(Invert(m), Apply(m, lamination).value);
      && back.Ok?
      && back.value.triangulation == m.source
      && back.value.support == lamination.support
      && forall x :: back.value.weight(x) == lamination.weight(x)
  {
    var image := Apply(m, lamination).value;
    var back := Apply(Invert(m), image).value;
    var edges := lamination.support.edges;
    assert back.support.edges == edges by {
      forall x | x in edges
        ensures x in back.support.edges
      {
        assert m.isom(x) in image.support.edges;
      }
    }
  }

  /** `Move.encode`: the move as a one-move encoding, whose inverse transport is the inverse
      move's action. */
  function Encode<E(==,!new)>(m: SingleMove<E>): (r: Encoding<E>)
    ensures Valid(r) && |r.sequence| == 1
    ensures Source(r) == m.source && Target(r) == m.target
  {
    Single(Move(m.source, m.target, l => Apply(m, l), l => Apply(Invert(m), l)))
  }

  /** Inverting the encoding of a move agrees with encoding the inverse move: the same ends,
      and the same transport in each direction. */
  lemma EncodeInverse<E(!new)>(m: SingleMove<E>, lamination: Lamination<E>)
    ensures var lhs, rhs := Inverse(Encode(m)), Encode(Invert(m));
      && |lhs.sequence| == 1
      && lhs.sequence[0].source == rhs.sequence[0].source
      && lhs.sequence[0].target == rhs.sequence[0].target
      && lhs.sequence[0].action(lamination) == rhs.sequence[0].action(lamination)
      && lhs.sequence[0].invAction(lamination) == rhs.sequence[0].invAction(lamination)
  {
    InvertInvolutive(m);
  }
}
