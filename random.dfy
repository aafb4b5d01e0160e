/**
 * The pseudo-random generators (`std::mt19937`) of the walk engine, as an
 * explicit oracle. A source is an arbitrary stream of raw draws together with
 * the number already consumed; every property proved for every stream holds
 * for whatever the real generator produces.
 */
module Random {

  datatype Rng = Rng(draw: nat -> nat, used: nat)

  /** One uniform choice of an index below `n`; consumes one draw. */
  function Below(r: Rng, n: nat): (res: (nat, Rng))
    requires n > 0
    ensures res.0 < n
    ensures res.1.used == r.used + 1
  {
    (r.draw(r.used) % n, Rng(r.draw, r.used + 1))
  }

  /**
   * `std::shuffle`: the Fisher-Yates shuffle driven by the oracle. Whatever
   * the draws are, the result is a permutation of the input.
   */
  method Shuffle<T>(s: seq<T>, rng: Rng) returns (t: seq<T>, rng': Rng)
    ensures multiset(t) == multiset(s)
    ensures |t| == |s|
    ensures rng'.used >= rng.used
  {
    t, rng' := s, rng;
    var i := |t|;
    while i > 1
      invariant 0 <= i <= |t| == |s|
      invariant multiset(t) == multiset(s)
      invariant rng'.used >= rng.used
    {
      var pick := Below(rng', i);
      var j := pick.0;
      rng' := pick.1;
      var a, b := t[i - 1], t[j];
      t := t[i - 1 := b][j := a];
      i := i - 1;
    }
  }
}
