/** `MappingClassGroup.__call__`: a dotted word of generator names becomes the encoding
    whose moves are those of each named generator, in the order the names are written. */
module MappingClassGroups {
  import opened Types
  import opened Encodings
  import Triangulations

  const Dot: char := '.'

  /** The inverse of `str.split`: the pieces with the separator between neighbours. */
  function Join(pieces: seq<string>, sep: char): string
    requires |pieces| >= 1
  {
    if |pieces| == 1 then pieces[0]
    else Join(pieces[..|pieces| - 1], sep) + [sep] + pieces[|pieces| - 1]
  }

  /** Joining two runs of pieces puts one separator between their joins. */
  lemma {:induction false} JoinAppend(p: seq<string>, q: seq<string>, sep: char)
    requires |p| >= 1 && |q| >= 1
    ensures Join(p + q, sep) == Join(p, sep) + [sep] + Join(q, sep)
    decreases |q|
  {
    var n := |q|;
    if n == 1 {
      assert (p + q)[..|p + q| - 1] == p;
    } else {
      assert (p + q)[..|p + q| - 1] == p + q[..n - 1];
      JoinAppend(p, q[..n - 1], sep);
    }
  }

  /** The pieces with one more character on the end of the last. */
  function ExtendLast(pieces: seq<string>, c: char): (r: seq<string>)
    requires |pieces| >= 1
    ensures |r| == |pieces|
  {
    pieces[..|pieces| - 1] + [pieces[|pieces| - 1] + [c]]
  }

  lemma ExtendLastAppend(p: seq<string>, q: seq<string>, c: char)
    requires |q| >= 1
    ensures ExtendLast(p + q, c) == p + ExtendLast(q, c)
  {
    assert (p + q)[..|p + q| - 1] == p + q[..|q| - 1];
  }

  /** `str.split(sep)`: always at least one piece, and no piece holds the separator. Each
      character either starts a new piece, if it is the separator, or extends the last one. */
  function Split(s: string, sep: char): (r: seq<string>)
    ensures |r| >= 1
    ensures forall i :: 0 <= i < |r| ==> sep !in r[i]
  {
    if s == [] then [[]]
    else
      var rest := Split(s[..|s| - 1], sep);
      var last := s[|s| - 1];
      if last == sep then rest + [[]] else ExtendLast(rest, last)
  }

  /** One step of `Split`: the last character of `f + [c]`. */
  lemma SplitSnoc(f: string, c: char, sep: char)
    ensures Split(f + [c], sep) == if c == sep then Split(f, sep) + [[]] else ExtendLast(Split(f, sep), c)
  {
    assert (f + [c])[..|f|] == f;
  }

  /** Joining the pieces of a split gives the string back. */
  lemma {:induction false} JoinSplit(s: string, sep: char)
    ensures Join(Split(s, sep), sep) == s
    decreases |s|
  {
    if s != [] {
      var front := s[..|s| - 1];
      var last := s[|s| - 1];
      var rest := Split(front, sep);
      JoinSplit(front, sep);
      assert s == front + [last];
      var k := |rest| - 1;
      if last == sep {
        assert (rest + [[]])[..|rest|] == rest;
      } else {
        var r := ExtendLast(rest, last);
        assert r[..k] == rest[..k];
        if k > 0 {
          assert rest[..k][..k - 1] == rest[..k - 1];
          assert Join(rest, sep) == Join(rest[..k], sep) + [sep] + rest[k];
        }
      }
    }
  }

  /** A string without the separator is a single piece. */
  lemma {:induction false} SplitNoSep(s: string, sep: char)
    requires sep !in s
    ensures Split(s, sep) == [s]
    decreases |s|
  {
    if s != [] {
      var front := s[..|s| - 1];
      assert front + [s[|s| - 1]] == s;
      assert forall j :: 0 <= j < |front| ==> front[j] == s[j];
      SplitNoSep(front, sep);
      SplitSnoc(front, s[|s| - 1], sep);
    }
  }

  /** Splitting at a separator between `u` and `v` splits each side on its own. */
  lemma {:induction false} SplitAppend(u: string, v: string, sep: char)
    ensures Split(u + [sep] + v, sep) == Split(u, sep) + Split(v, sep)
    decreases |v|
  {
    if v == [] {
      assert u + [sep] + v == u + [sep];
      SplitSnoc(u, sep, sep);
    } else {
      var front := v[..|v| - 1];
      var c := v[|v| - 1];
      assert u + [sep] + v == (u + [sep] + front) + [c];
      assert front + [c] == v;
      SplitAppend(u, front, sep);
      SplitSnoc(u + [sep] + front, c, sep);
      SplitSnoc(front, c, sep);
      if c != sep {
        ExtendLastAppend(Split(u, sep), Split(front, sep), c);
      }
    }
  }

  /** Joining one more piece adds a separator and that piece. */
  lemma JoinSnoc(front: seq<string>, last: string, sep: char)
    requires |front| >= 1
    ensures Join(front + [last], sep) == Join(front, sep) + [sep] + last
  {
    assert (front + [last])[..|front|] == front;
  }

  /** One step of `SplitJoin`: a separator-free piece added to pieces that split back. */
  lemma SplitJoinSnoc(front: seq<string>, last: string, sep: char)
    requires |front| >= 1 && sep !in last
    requires Split(Join(front, sep), sep) == front
    ensures Split(Join(front + [last], sep), sep) == front + [last]
  {
    JoinSnoc(front, last, sep);
    SplitAppend(Join(front, sep), last, sep);
    SplitNoSep(last, sep);
  }

  /** Splitting undoes joining pieces that hold no separator. */
  lemma {:induction false} SplitJoin(pieces: seq<string>, sep: char)
    requires |pieces| >= 1
    requires forall i :: 0 <= i < |pieces| ==> sep !in pieces[i]
    ensures Split(Join(pieces, sep), sep) == pieces
    decreases |pieces|
  {
    var n := |pieces|;
    if n == 1 {
      SplitNoSep(pieces[0], sep);
    } else {
      var front := pieces[..n - 1];
      SplitJoin(front, sep);
      SplitJoinSnoc(front, pieces[n - 1], sep);
      assert front + [pieces[n - 1]] == pieces;
    }
  }

  /** The moves of each generated encoding in the order of the names, or the exception of
      the first name the generator refuses. */
  function Generated<E>(generator: string -> Result<Encoding<E>>, names: seq<string>): (r: Result<seq<Move<E>>>)
    ensures r.Ok? <==> forall i :: 0 <= i < |names| ==> generator(names[i]).Ok?
    ensures r.Err? ==> exists i :: (0 <= i < |names| && generator(names[i]) == Err(r.error) &&
      forall j :: 0 <= j < i ==> generator(names[j]).Ok?)
  {
    if names == [] then Ok([])
    else
      var first :- generator(names[0]);
      var rest :- Generated(generator, names[1..]);
      Ok(first.sequence + rest)
  }

  /** Generating two runs of names concatenates their moves; the first refusal wins. */
  lemma {:induction false} GeneratedAppend<E>(generator: string -> Result<Encoding<E>>, a: seq<string>, b: seq<string>)
    ensures Generated(generator, a + b) ==
      match Generated(generator, a)
      case Err(error) => Err(error)
      case Ok(front) =>
        match Generated(generator, b)
        case Err(error) => Err(error)
        case Ok(back) => Ok(front + back)
  {
    if a == [] {
      assert a + b == b;
      match Generated(generator, b)
      case Err(_) =>
      case Ok(back) =>
        assert [] + back == back;
    } else {
      assert (a + b)[1..] == a[1..] + b;
      GeneratedAppend(generator, a[1..], b);
      if generator(a[0]).Ok? {
        var first := generator(a[0]).value.sequence;
        match Generated(generator, a[1..])
        case Err(_) =>
        case Ok(rest) =>
          match Generated(generator, b)
          case Err(_) =>
          case Ok(back) =>
            assert first + (rest + back) == (first + rest) + back;
      }
    }
  }

  /** Every encoding the generator makes has at least one move. */
  ghost predicate MakesEncodings<E(!new)>(generator: string -> Result<Encoding<E>>) {
    forall name :: generator(name).Ok? ==> Valid(generator(name).value)
  }

  /** Generated moves are empty only when there are no names. */
  lemma {:induction false} GeneratedNonEmpty<E(!new)>(generator: string -> Result<Encoding<E>>, names: seq<string>)
    requires MakesEncodings(generator)
    requires Generated(generator, names).Ok?
    ensures Generated(generator, names).value == [] <==> names == []
  {
    if names != [] {
      assert Valid(generator(names[0]).value);
    }
  }

  /** `__call__`: the moves generated for the names between the dots, as one encoding, or
      the identity on the triangulation when there are none; a refused name raises. */
  function Call<E(==,!new)>(t: Triangulation<E>, generator: string -> Result<Encoding<E>>, word: string): (r: Result<Encoding<E>>)
    ensures r.Ok? <==> Generated(generator, Split(word, Dot)).Ok?
    ensures r.Err? ==> r.error == Generated(generator, Split(word, Dot)).error
    ensures r.Ok? ==> Valid(r.value)
  {
    var sequence :- Generated(generator, Split(word, Dot));
    if sequence != [] then Ok(Encoding(sequence)) else Ok(Triangulations.EncodeIdentity(t))
  }

  /** A word of one name is that generator's encoding; the identity fallback is never taken
      when the generator makes genuine encodings, since every word has at least one name. */
  lemma OneName<E(!new)>(t: Triangulation<E>, generator: string -> Result<Encoding<E>>, name: string)
    requires MakesEncodings(generator)
    requires Dot !in name
    ensures Call(t, generator, name) == generator(name)
  {
    SplitNoSep(name, Dot);
    assert [name][1..] == [];
    if generator(name).Ok? {
      var e := generator(name).value;
      assert Valid(e);
      assert e.sequence + [] == e.sequence;
      assert Generated(generator, [name]) == Ok(e.sequence);
      assert Encoding(e.sequence) == e;
    }
  }

  /** Dotted words multiply: the word `u.v` is the product of the words `u` and `v`, the
      encoding of `u` being applied last; a refusal in `u` takes precedence over one in `v`. */
  lemma WordProduct<E(!new)>(t: Triangulation<E>, generator: string -> Result<Encoding<E>>, u: string, v: string)
    requires MakesEncodings(generator)
    ensures Call(t, generator, u + [Dot] + v) ==
      match Call(t, generator, u)
      case Err(error) => Err(error)
      case Ok(a) =>
        match Call(t, generator, v)
        case Err(error) => Err(error)
        case Ok(b) => Ok(Mul(a, b))
  {
    var p, q := Split(u, Dot), Split(v, Dot);
    SplitAppend(u, v, Dot);
    GeneratedAppend(generator, p, q);
    if Generated(generator, p).Ok? {
      GeneratedNonEmpty(generator, p);
      if Generated(generator, q).Ok? {
        GeneratedNonEmpty(generator, q);
      }
    }
  }
}
