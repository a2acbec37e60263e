/**
 * Unity's `Random.Range(int lo, int hi)`, as an injected source of numbers.
 * `raw(k)` is what the engine answers at its k-th call; callers thread the
 * count of calls so far. An answer outside [lo, hi) is read as `lo`, so every
 * sequence of in-range answers is the behaviour of some `raw`, and a property
 * proved for every `raw` holds whatever the engine answers.
 */
module UnityRandom {

  type Raw = nat -> int

  /** The answer to the k-th call; `lo` itself when the range is empty. */
  function Range(raw: Raw, k: nat, lo: int, hi: int): (r: int)
    ensures lo < hi ==> lo <= r < hi
    ensures hi <= lo ==> r == lo
    ensures lo <= raw(k) < hi ==> r == raw(k)
  {
    if lo <= raw(k) < hi then raw(k) else lo
  }

  /** Some call at or after the k-th answers t. */
  ghost predicate Hits(raw: Raw, k: nat, t: int)
  {
    exists j: nat :: k <= j && raw(j) == t
  }

  /** The source keeps producing every natural number: the reroll loops of the
      generator end for such a source, and for no other can they be guaranteed to end. */
  ghost predicate Fair(raw: Raw)
  {
    forall k: nat, t: nat :: Hits(raw, k, t)
  }

  /** The exponent of 2 in m: 0, 1, 0, 2, 0, 1, 0, 3, ... for m = 1, 2, 3, ... */
  function TwoAdic(m: nat): nat
    decreases m
  {
    if m == 0 || m % 2 == 1 then 0 else 1 + TwoAdic(m / 2)
  }

  function Pow2(t: nat): (p: nat)
    ensures p >= 1
  {
    if t == 0 then 1 else 2 * Pow2(t - 1)
  }

  lemma {:induction false} TwoAdicOf(t: nat, q: nat)
    ensures TwoAdic(Pow2(t) * (2 * q + 1)) == t
  {
    if t > 0 {
      var m := Pow2(t) * (2 * q + 1);
      var h := Pow2(t - 1) * (2 * q + 1);
      assert m == 2 * h;
      TwoAdicOf(t - 1, q);
    }
  }

  /** Fair sources exist: the ruler sequence k => TwoAdic(k + 1) is one. */
  lemma RulerIsFair()
    ensures Fair((k: nat) => TwoAdic(k + 1))
  {
    var raw: Raw := (k: nat) => TwoAdic(k + 1);
    forall k: nat, t: nat
      ensures Hits(raw, k, t)
    {
      var m := Pow2(t) * (2 * k + 1);
      assert m >= 2 * k + 1 by {
        assert m == (Pow2(t) - 1) * (2 * k + 1) + (2 * k + 1);
      }
      TwoAdicOf(t, k);
      var j: nat := m - 1;
      assert raw(j) == t;
    }
  }
}
