/** The values the engine passes around: the exceptions it raises, triangulations given by
    their link function, laminations, moves and encodings. Edges are an opaque type
    parameter `E`; nothing about an edge is used except equality. */
module Types {

  /** The Python exceptions raised by the core, without their messages. */
  datatype Error =
    | ValueError      // odd halving, missing support, infinite support, failed shortening, bad unpacking
    | IndexError      // an empty Encoding, an index out of range
    | AssertionError  // a failed `assert` in `encode_twist`
    | NameError       // reading a loop variable that was never bound
    | TypeError       // unhashable arguments reaching the memoization cache

  /** A value or the exception that was raised instead. */
  datatype Result<+T> = Ok(value: T) | Err(error: Error) {
    predicate IsFailure() { Err? }

    function PropagateFailure<U>(): Result<U>
      requires Err?
    {
      Err(error)
    }

    function Extract(): T
      requires Ok?
    {
      value
    }
  }

  datatype Option<+T> = None | Some(value: T)

  /** The edges a lamination may weigh nonzero: an explicit finite set, or an unbounded
      producer (the lamination is then infinitely supported). */
  datatype Support<E> = Finite(edges: set<E>) | Infinite

  /** The link of an edge: the four sides `a, b, c, d` of the square whose diagonal it is.
      A square is only determined up to a rotation by 180 degrees. */
  datatype Square<E> = Square(a: E, b: E, c: E, d: E) {
    /** The same square read from the opposite corner. */
    function Rotated(): Square<E> {
      Square(c, d, a, b)
    }
  }

  /** A triangulation is never materialised: it is its link function. */
  datatype Triangulation<!E> = Triangulation(link: E -> Square<E>)

  /** A transversal measure on a triangulation: a weight query, which may raise, and a
      description of its support. */
  datatype Lamination<!E> = Lamination(triangulation: Triangulation<E>, weight: E -> Result<int>, support: Support<E>) {
    predicate IsFinitelySupported() { support.Finite? }
  }

  /** One rewrite from `source` to `target`, with the transport of laminations in both
      directions. */
  datatype Move<!E> = Move(
    source: Triangulation<E>,
    target: Triangulation<E>,
    action: Lamination<E> -> Result<Lamination<E>>,
    invAction: Lamination<E> -> Result<Lamination<E>>)

  /** Moves listed in reverse application order: `sequence[0]` is applied last. */
  datatype Encoding<!E> = Encoding(sequence: seq<Move<E>>)
}
