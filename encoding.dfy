/** Moves and encodings of `bigger.encoding`: a move carries its source and target
    triangulations and the transport of laminations in both directions; an encoding is a
    nonempty list of moves, `sequence[0]` applied last. Concatenation, inversion, indexing,
    slicing and application are modelled here; powers need the identity encoding of a
    triangulation and live in module `Powers`. */
module Encodings {
  import opened Types

  /** `Move.__invert__`: the move read backwards. */
  function Invert<E>(m: Move<E>): (r: Move<E>)
    ensures r.source == m.target && r.target == m.source
    ensures r.action == m.invAction && r.invAction == m.action
  {
    Move(m.target, m.source, m.invAction, m.action)
  }

  lemma InvertInvolutive<E>(m: Move<E>)
    ensures Invert(Invert(m)) == m
  {
  }

  /** `Move.__call__`: transport a lamination along the move. */
  function ApplyMove<E>(m: Move<E>, lamination: Lamination<E>): Result<Lamination<E>> {
    m.action(lamination)
  }

  /** Applying the inverted move runs the inverse transport. */
  lemma ApplyInvert<E>(m: Move<E>, lamination: Lamination<E>)
    ensures ApplyMove(Invert(m), lamination) == m.invAction(lamination)
    ensures ApplyMove(Invert(Invert(m)), lamination) == ApplyMove(m, lamination)
  {
  }

  /** `Move.encode`: the encoding made of this move alone. */
  function Single<E>(m: Move<E>): (r: Encoding<E>)
    ensures Valid(r) && Source(r) == m.source && Target(r) == m.target
  {
    Encoding([m])
  }

  /** Only a nonempty list of moves makes an encoding: the constructor reads
      `sequence[-1]` and `sequence[0]`. */
  predicate Valid<E>(e: Encoding<E>) {
    |e.sequence| > 0
  }

  /** `Encoding.__init__`: an empty list raises IndexError. */
  function NewEncoding<E>(sequence: seq<Move<E>>): (r: Result<Encoding<E>>)
    ensures r.Ok? <==> |sequence| > 0
    ensures r.Ok? ==> Valid(r.value) && r.value.sequence == sequence
    ensures r.Err? ==> r.error == IndexError
  {
    if |sequence| == 0 then Err(IndexError) else Ok(Encoding(sequence))
  }

  /** The triangulation the encoding starts from: that of the move applied first. */
  function Source<E>(e: Encoding<E>): Triangulation<E>
    requires Valid(e)
  {
    e.sequence[|e.sequence| - 1].source
  }

  /** The triangulation the encoding ends on: that of the move applied last. */
  function Target<E>(e: Encoding<E>): Triangulation<E>
    requires Valid(e)
  {
    e.sequence[0].target
  }

  /** `Encoding.__iter__`: the moves in application order, last listed first. */
  function Moves<E>(e: Encoding<E>): (r: seq<Move<E>>)
    ensures |r| == |e.sequence|
    ensures forall i :: 0 <= i < |r| ==> r[i] == e.sequence[|e.sequence| - 1 - i]
  {
    seq(|e.sequence|, i requires 0 <= i < |e.sequence| => e.sequence[|e.sequence| - 1 - i])
  }

  /** `Encoding.__mul__`: `a * b` applies `b` first, then `a`. Source and target are not
      checked to match. */
  function Mul<E>(a: Encoding<E>, b: Encoding<E>): (r: Encoding<E>)
    ensures r.sequence == a.sequence + b.sequence
  {
    Encoding(a.sequence + b.sequence)
  }

  lemma MulEnds<E>(a: Encoding<E>, b: Encoding<E>)
    requires Valid(a) && Valid(b)
    ensures Valid(Mul(a, b))
    ensures Source(Mul(a, b)) == Source(b) && Target(Mul(a, b)) == Target(a)
  {
  }

  lemma MulAssociative<E>(a: Encoding<E>, b: Encoding<E>, c: Encoding<E>)
    ensures Mul(Mul(a, b), c) == Mul(a, Mul(b, c))
  {
    assert (a.sequence + b.sequence) + c.sequence == a.sequence + (b.sequence + c.sequence);
  }

  /** `Encoding.__invert__`: every move inverted, in application order, so that the first
      move applied becomes the last. */
  function Inverse<E>(e: Encoding<E>): (r: Encoding<E>)
    ensures |r.sequence| == |e.sequence|
    ensures forall i :: 0 <= i < |e.sequence| ==> r.sequence[i] == Invert(e.sequence[|e.sequence| - 1 - i])
  {
    var moves := Moves(e);
    Encoding(seq(|moves|, i requires 0 <= i < |moves| => Invert(moves[i])))
  }

  lemma InverseEnds<E>(e: Encoding<E>)
    requires Valid(e)
    ensures Valid(Inverse(e))
    ensures Source(Inverse(e)) == Target(e) && Target(Inverse(e)) == Source(e)
  {
  }

  lemma InverseInvolutive<E>(e: Encoding<E>)
    ensures Inverse(Inverse(e)) == e
  {
    var n := |e.sequence|;
    var twice := Inverse(Inverse(e)).sequence;
    forall i | 0 <= i < n
      ensures twice[i] == e.sequence[i]
    {
      InvertInvolutive(e.sequence[i]);
    }
    assert twice == e.sequence;
  }

  /** `~(a * b) == ~b * ~a`. */
  lemma InverseMul<E>(a: Encoding<E>, b: Encoding<E>)
    ensures Inverse(Mul(a, b)) == Mul(Inverse(b), Inverse(a))
  {
    var lhs, rhs := Inverse(Mul(a, b)).sequence, Mul(Inverse(b), Inverse(a)).sequence;
    assert |lhs| == |rhs|;
    forall i | 0 <= i < |lhs|
      ensures lhs[i] == rhs[i]
    {
      if i < |b.sequence| {
        assert rhs[i] == Inverse(b).sequence[i];
      } else {
        assert rhs[i] == Inverse(a).sequence[i - |b.sequence|];
      }
    }
    assert lhs == rhs;
  }

  /** Python's reading of an index into a list of length `n`: negative indices count from the
      end; anything outside `-n .. n-1` is out of range. */
  function Position(n: nat, index: int): (r: Option<nat>)
    ensures r.Some? <==> -(n as int) <= index < n
    ensures r.Some? ==> r.value < n && (index < 0 ==> r.value == n + index) && (index >= 0 ==> r.value == index)
  {
    if index < -(n as int) || index >= n then None
    else if index < 0 then Some(n + index)
    else Some(index)
  }

  /** `Encoding.__getitem__` with an integer: the move at that position, IndexError out of
      range. */
  function GetItem<E>(e: Encoding<E>, index: int): (r: Result<Move<E>>)
    ensures r.Ok? <==> -|e.sequence| <= index < |e.sequence|
    ensures r.Ok? ==> r.value == e.sequence[Position(|e.sequence|, index).value]
    ensures r.Err? ==> r.error == IndexError
  {
    match Position(|e.sequence|, index)
    case None => Err(IndexError)
    case Some(i) => Ok(e.sequence[i])
  }

  /** One end of a Python slice with step 1, clamped into `0 .. n`: missing means `dflt`,
      negative counts from the end. */
  function SliceBound(n: nat, bound: Option<int>, dflt: nat): (r: nat)
    requires dflt <= n
    ensures r <= n
    ensures bound.None? ==> r == dflt
    ensures bound.Some? && 0 <= bound.value <= n ==> r == bound.value
    ensures bound.Some? && -(n as int) <= bound.value < 0 ==> r == n + bound.value
    ensures bound.Some? && bound.value > n ==> r == n
    ensures bound.Some? && bound.value < -(n as int) ==> r == 0
  {
    match bound
    case None => dflt
    case Some(k) =>
      if k < 0 then (if k + n < 0 then 0 else k + n)
      else if k > n then n
      else k
  }

  /** `Encoding.__getitem__` with a slice `start:stop`: the encoding of the moves in that
      range; an empty range raises IndexError in the constructor. */
  function Slice<E>(e: Encoding<E>, start: Option<int>, stop: Option<int>): (r: Result<Encoding<E>>)
    ensures var n := |e.sequence|;
      var lo, hi := SliceBound(n, start, 0), SliceBound(n, stop, n);
      && (r.Ok? <==> lo < hi)
      && (r.Ok? ==> r.value.sequence == e.sequence[lo..hi])
      && (r.Err? ==> r.error == IndexError)
  {
    var n := |e.sequence|;
    var lo, hi := SliceBound(n, start, 0), SliceBound(n, stop, n);
    NewEncoding(if lo < hi then e.sequence[lo..hi] else [])
  }

  /** Cutting an encoding at any inner position and multiplying the pieces gives it back. */
  lemma SliceConcat<E>(e: Encoding<E>, k: int)
    requires 0 < k < |e.sequence|
    ensures Slice(e, None, Some(k)).Ok? && Slice(e, Some(k), None).Ok?
    ensures Mul(Slice(e, None, Some(k)).value, Slice(e, Some(k), None).value) == e
  {
    assert e.sequence[0..k] + e.sequence[k..|e.sequence|] == e.sequence;
  }

  /** What `Encoding.__call__` computes: the moves applied from the last listed to the first,
      stopping at the first move that raises. */
  function ApplySeq<E>(moves: seq<Move<E>>, lamination: Lamination<E>): Result<Lamination<E>> {
    if moves == [] then Ok(lamination)
    else
      var image :- ApplySeq(moves[1..], lamination);
      moves[0].action(image)
  }

  /** Applying `a + b` is applying `b`, then `a`. */
  lemma {:induction false} ApplyConcat<E>(a: seq<Move<E>>, b: seq<Move<E>>, lamination: Lamination<E>)
    ensures ApplySeq(a + b, lamination) ==
      match ApplySeq(b, lamination)
      case Err(error) => Err(error)
      case Ok(image) => ApplySeq(a, image)
  {
    if a == [] {
      assert a + b == b;
      match ApplySeq(b, lamination)
      case Err(_) =>
      case Ok(_) =>
    } else {
      assert (a + b)[1..] == a[1..] + b;
      ApplyConcat(a[1..], b, lamination);
    }
  }

  /** `(a * b)(L) == a(b(L))`. */
  lemma ApplyMul<E>(a: Encoding<E>, b: Encoding<E>, lamination: Lamination<E>)
    ensures ApplySeq(Mul(a, b).sequence, lamination) ==
      match ApplySeq(b.sequence, lamination)
      case Err(error) => Err(error)
      case Ok(image) => ApplySeq(a.sequence, image)
  {
    ApplyConcat(a.sequence, b.sequence, lamination);
  }

  /** A one-move encoding applies its move's transport. */
  lemma ApplySingle<E>(m: Move<E>, lamination: Lamination<E>)
    ensures ApplySeq(Single(m).sequence, lamination) == m.action(lamination)
  {
    assert Single(m).sequence[1..] == [];
  }

  /** Each move's inverse transport undoes its transport. */
  ghost predicate Undoes<E(!new)>(m: Move<E>) {
    forall l: Lamination<E>, image: Lamination<E> :: m.action(l) == Ok(image) ==> m.invAction(image) == Ok(l)
  }

  /** When every move's inverse transport undoes it, `~e` undoes `e`. */
  lemma {:induction false} ApplyInverse<E(!new)>(e: Encoding<E>, lamination: Lamination<E>)
    requires forall i :: 0 <= i < |e.sequence| ==> Undoes(e.sequence[i])
    requires ApplySeq(e.sequence, lamination).Ok?
    ensures ApplySeq(Inverse(e).sequence, ApplySeq(e.sequence, lamination).value) == Ok(lamination)
    decreases |e.sequence|
  {
    var s := e.sequence;
    if s != [] {
      var rest := Encoding(s[1..]);
      var mid := ApplySeq(s[1..], lamination).value;
      var image := ApplySeq(s, lamination).value;
      assert s[0].action(mid) == Ok(image);
      assert s[0].invAction(image) == Ok(mid);
      assert Inverse(e).sequence == Inverse(rest).sequence + [Invert(s[0])];
      ApplyConcat(Inverse(rest).sequence, [Invert(s[0])], image);
      assert ApplySeq([Invert(s[0])], image) == Ok(mid);
      ApplyInverse(rest, lamination);
    }
  }

  /** `Encoding.__call__`: the loop rebinding `lamination` move by move, in application
      order. */
  method Apply<E>(e: Encoding<E>, lamination: Lamination<E>) returns (r: Result<Lamination<E>>)
    ensures r == ApplySeq(e.sequence, lamination)
  {
    var s := e.sequence;
    var current := lamination;
    var i := |s|;
    assert s[..i] == s;
    while i > 0
      invariant 0 <= i <= |s|
      invariant ApplySeq(s, lamination) == ApplySeq(s[..i], current)
    {
      var step := s[i - 1].action(current);
      assert s[..i] == s[..i - 1] + [s[i - 1]];
      ApplyConcat(s[..i - 1], [s[i - 1]], current);
      assert ApplySeq([s[i - 1]], current) == step;
      if step.Err? {
        return Err(step.error);
      }
      current := step.value;
      i := i - 1;
    }
    return Ok(current);
  }
}
