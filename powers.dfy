/** `Encoding.__pow__`: integer powers of an encoding, with the identity of the source
    triangulation as the zeroth power. */
module Powers {
  import opened Types
  import opened Encodings
  import Triangulations

  /** Python's list repetition `s * n`. */
  function Repeat<T>(s: seq<T>, n: nat): (r: seq<T>)
    ensures |r| == |s| * n
  {
    if n == 0 then [] else s + Repeat(s, n - 1)
  }

  /** Copy `k` of the repetition holds `s` again: item `k * |s| + j` is `s[j]`. */
  lemma {:induction false} RepeatIndex<T>(s: seq<T>, n: nat, k: nat, j: nat)
    requires k < n && j < |s|
    ensures k * |s| + j < |Repeat(s, n)| && Repeat(s, n)[k * |s| + j] == s[j]
  {
    if k > 0 {
      RepeatIndex(s, n - 1, k - 1, j);
      assert k * |s| == |s| + (k - 1) * |s|;
    }
  }

  /** `s * (m + n) == s * m + s * n`. */
  lemma {:induction false} RepeatAdd<T>(s: seq<T>, m: nat, n: nat)
    ensures Repeat(s, m + n) == Repeat(s, m) + Repeat(s, n)
  {
    if m > 0 {
      RepeatAdd(s, m - 1, n);
      assert Repeat(s, m + n) == s + Repeat(s, m - 1 + n);
    }
  }

  /** `__pow__`: the identity on the source for the zeroth power, the moves repeated for a
      positive power, and the inverse of the repetition for a negative one. */
  function Pow<E(==,!new)>(e: Encoding<E>, power: int): (r: Encoding<E>)
    requires Valid(e)
    ensures Valid(r)
    ensures power != 0 ==> |r.sequence| == |e.sequence| * if power > 0 then power else -power
  {
    if power == 0 then Triangulations.EncodeIdentity(Source(e))
    else
      var absPower := Encoding(Repeat(e.sequence, if power > 0 then power else -power));
      if power > 0 then absPower else Inverse(absPower)
  }

  /** The ends of a power: the zeroth power starts at the source, a positive power runs from
      the source to the target, a negative one from the target back to the source. */
  lemma PowEnds<E(!new)>(e: Encoding<E>, power: int)
    requires Valid(e)
    ensures Source(Pow(e, power)) == if power < 0 then Target(e) else Source(e)
    ensures power != 0 ==> Target(Pow(e, power)) == if power > 0 then Target(e) else Source(e)
  {
    var n := if power > 0 then power else -power;
    if power != 0 {
      var absPower := Encoding(Repeat(e.sequence, n));
      var k := |e.sequence|;
      RepeatIndex(e.sequence, n, 0, 0);
      RepeatIndex(e.sequence, n, n - 1, k - 1);
      assert (n - 1) * k + (k - 1) == k * n - 1;
      if power < 0 {
        InverseEnds(absPower);
      }
    }
  }

  /** `e ** 1` has the moves of `e`. */
  lemma PowOne<E(!new)>(e: Encoding<E>)
    requires Valid(e)
    ensures Pow(e, 1) == e
  {
    assert Repeat(e.sequence, 1) == e.sequence + [];
  }

  /** Positive powers add: `e ** (m + n) == (e ** m) * (e ** n)`, so applying it applies
      `e ** n` and then `e ** m`. */
  lemma PowAdd<E(!new)>(e: Encoding<E>, m: nat, n: nat)
    requires Valid(e) && m > 0 && n > 0
    ensures Pow(e, m + n) == Mul(Pow(e, m), Pow(e, n))
  {
    RepeatAdd(e.sequence, m, n);
  }

  /** Inverting a repetition repeats the inverse. */
  lemma {:induction false} InverseRepeat<E>(e: Encoding<E>, n: nat)
    ensures Inverse(Encoding(Repeat(e.sequence, n))) == Encoding(Repeat(Inverse(e).sequence, n))
  {
    if n > 0 {
      var rest := Encoding(Repeat(e.sequence, n - 1));
      calc {
        Inverse(Encoding(Repeat(e.sequence, n)));
        { assert Encoding(Repeat(e.sequence, n)) == Mul(e, rest); }
        Inverse(Mul(e, rest));
        { InverseMul(e, rest); }
        Mul(Inverse(rest), Inverse(e));
        { InverseRepeat(e, n - 1); }
        Encoding(Repeat(Inverse(e).sequence, n - 1) + Inverse(e).sequence);
        { RepeatAdd(Inverse(e).sequence, n - 1, 1);
          assert Repeat(Inverse(e).sequence, 1) == Inverse(e).sequence + []; }
        Encoding(Repeat(Inverse(e).sequence, n));
      }
    }
  }

  /** A negative power is the positive power of the inverse: `e ** -n == (~e) ** n`. */
  lemma PowNegative<E(!new)>(e: Encoding<E>, n: nat)
    requires Valid(e) && n > 0
    ensures Valid(Inverse(e))
    ensures Pow(e, -(n as int)) == Inverse(Pow(e, n)) == Pow(Inverse(e), n)
  {
    InverseEnds(e);
    InverseRepeat(e, n);
  }
}
