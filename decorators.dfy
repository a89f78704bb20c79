/** The two decorators of `bigger.decorators`: `memoize`, which keeps a dictionary `_cache` on
    an object and fills it in place, and `finite`, which refuses laminations that are not
    finitely supported.

    The wrapped function is code this model cannot see, so what one call of it does is a
    parameter (`computed`), and whether the arguments can be hashed is a pair of flags. */
module Decorators {
  import opened Types

  /** What one call of the wrapped function did: returned a value, raised an `Exception`, or
      raised a `BaseException` that is not an `Exception` (`KeyboardInterrupt`, `SystemExit`),
      which `except Exception` does not catch. */
  datatype Outcome<V> = Returned(value: V) | Raised(error: Error) | Interrupted

  /** The cache key `(function.__name__, arguments, frozenset(kwargs.items()))`. */
  datatype Key<A, W> = Key(name: string, args: seq<A>, kwargs: set<W>)

  /** The arguments that go into the key: the positional arguments without the receiver when
      the decorated function is a method (the receiver holds the cache), all of them
      otherwise. A method called without a receiver fails on `args[0]`. */
  function KeyArguments<A>(isMethod: bool, args: seq<A>): (r: Result<seq<A>>)
    ensures r.Err? <==> isMethod && |args| == 0
    ensures r.Err? ==> r.error == IndexError
    ensures r.Ok? && isMethod ==> args == [args[0]] + r.value
    ensures r.Ok? && !isMethod ==> r.value == args
  {
    if !isMethod then Ok(args)
    else if |args| == 0 then Err(IndexError)
    else Ok(args[1..])
  }

  /** A cache never holds an escaping `BaseException`: only values and `Exception`s are
      stored. */
  ghost predicate Storable<K, V>(entries: map<K, Outcome<V>>) {
    forall k :: k in entries ==> !entries[k].Interrupted?
  }

  /** The cache after a call with a hashable key: a miss stores what the function did,
      unless it escaped; a hit changes nothing. */
  function Stored<K, V>(entries: map<K, Outcome<V>>, key: K, computed: Outcome<V>): (r: map<K, Outcome<V>>)
    ensures r.Keys == if key in entries || computed.Interrupted? then entries.Keys else entries.Keys + {key}
    ensures forall k :: k in entries ==> k in r && r[k] == entries[k]
    ensures key in r <==> key in entries || !computed.Interrupted?
  {
    if key in entries || computed.Interrupted? then entries else entries[key := computed]
  }

  /** What a call with a hashable key returns or raises: the stored outcome on a hit, what
      the function did on a miss. */
  function Reply<K, V>(entries: map<K, Outcome<V>>, key: K, computed: Outcome<V>): (r: Outcome<V>)
    ensures key in entries ==> r == entries[key]
    ensures key !in entries ==> r == computed
  {
    if key in entries then entries[key] else computed
  }

  /** Storing keeps the cache free of escaping exceptions. */
  lemma StoredStorable<K, V>(entries: map<K, Outcome<V>>, key: K, computed: Outcome<V>)
    requires Storable(entries)
    ensures Storable(Stored(entries, key, computed))
  {
  }

  /** Once a call has stored its outcome, every later call with the same key returns that
      outcome (re-raising a stored exception), whatever the function would now do, and leaves
      the cache as it is: the function runs at most once per key. */
  lemma RepeatHits<K, V>(entries: map<K, Outcome<V>>, key: K, first: Outcome<V>, later: Outcome<V>)
    requires !first.Interrupted?
    ensures var after := Stored(entries, key, first);
      && key in after
      && Reply(after, key, later) == Reply(entries, key, first)
      && Stored(after, key, later) == after
  {
  }

  /** For a function that always does the same thing on the same key, the cache is
      invisible: every call returns what the function does, and the cache keeps agreeing
      with the function. */
  lemma Transparent<K, V>(entries: map<K, Outcome<V>>, f: K -> Outcome<V>, key: K)
    requires forall k :: k in entries ==> entries[k] == f(k)
    ensures Reply(entries, key, f(key)) == f(key)
    ensures forall k :: k in Stored(entries, key, f(key)) ==> Stored(entries, key, f(key))[k] == f(k)
  {
  }

  /** The object that holds `_cache`: the receiver of a memoized method, or the function
      itself when `is_method` is false. */
  class Memo<A(==), W(==), V> {
    /** `None` until the first call creates the attribute. */
    var cache: Option<map<Key<A, W>, Outcome<V>>>

    ghost predicate Valid()
      reads this
    {
      cache.Some? ==> Storable(cache.value)
    }

    /** The entries of the cache, none before it exists. */
    function Entries(): map<Key<A, W>, Outcome<V>>
      reads this
    {
      if cache.Some? then cache.value else map[]
    }

    constructor ()
      ensures cache == None && Valid()
    {
      cache := None;
    }

    /** One call of the memoized function `name` with the key arguments `args` and the keyword
        arguments `kwargs`; `computed` is what the function does if it runs. Returns the
        outcome of the call and whether the function ran. */
    method Call(name: string, args: seq<A>, kwargs: set<W>, argsHashable: bool, kwargsHashable: bool, computed: Outcome<V>)
      returns (result: Outcome<V>, ran: bool)
      requires Valid()
      modifies this
      ensures Valid() && cache.Some?
      ensures !kwargsHashable ==> Entries() == old(Entries()) && ran && result == computed
      ensures kwargsHashable && !argsHashable ==> Entries() == old(Entries()) && !ran && result == Raised(TypeError)
      ensures kwargsHashable && argsHashable ==>
        var key := Key(name, args, kwargs);
        && ran == (key !in old(Entries()))
        && Entries() == Stored(old(Entries()), key, computed)
        && result == Reply(old(Entries()), key, computed)
    {
      if cache.None? {
        cache := Some(map[]);
      }
      if !kwargsHashable {
        // `frozenset(kwargs.items())` fails: call through, bypassing the cache.
        return computed, true;
      }
      var key := Key(name, args, kwargs);
      if !argsHashable {
        // `key not in self._cache` hashes the positional arguments and fails.
        return Raised(TypeError), false;
      }
      ran := key !in cache.value;
      if ran {
        if computed.Interrupted? {
          return computed, ran;
        }
        cache := Some(cache.value[key := computed]);
      }
      result := cache.value[key];
    }
  }

  /** `finite`: the wrapped method `body` runs only on a finitely supported lamination;
      otherwise the call raises `ValueError`. */
  function Finite<E, T>(body: Lamination<E> -> Result<T>, lamination: Lamination<E>): (r: Result<T>)
    ensures !lamination.IsFinitelySupported() ==> r == Err(ValueError)
    ensures lamination.IsFinitelySupported() ==> r == body(lamination)
  {
    if !lamination.IsFinitelySupported() then Err(ValueError) else body(lamination)
  }
}
