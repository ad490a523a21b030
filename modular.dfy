/** Facts about Euclidean division by a positive divisor, used where the
    model reasons about Python's `k % len(seq)` and `floor(k / len(seq))`. */
module Modular {

  lemma MulAtLeast(d: int, f: int)
    requires f > 0 && d >= 1
    ensures d * f >= f
  {
  }

  /** The only multiple of f strictly between -f and f is 0. */
  lemma SmallMultiple(d: int, f: int)
    requires f > 0 && -f < d * f < f
    ensures d == 0
  {
    if d >= 1 {
      MulAtLeast(d, f);
    } else if d <= -1 {
      MulAtLeast(-d, f);
    }
  }

  lemma SmallMod(a: nat, f: nat)
    requires a < f
    ensures a % f == a
  {
  }

  lemma DivMod(k: nat, f: nat)
    requires f > 0
    ensures k == (k / f) * f + k % f && 0 <= k % f < f
  {
  }

  /** Adding the divisor leaves the remainder unchanged. */
  lemma ModShift(a: nat, f: nat)
    requires f > 0
    ensures (a + f) % f == a % f
  {
    var q, r := a / f, a % f;
    var q2, r2 := (a + f) / f, (a + f) % f;
    assert (q + 1 - q2) * f == r2 - r;
    SmallMultiple(q + 1 - q2, f);
  }

  /** Adding a multiple of the divisor leaves the remainder unchanged. */
  lemma {:induction false} ModAddMultiple(q: nat, f: nat, t: nat)
    requires f > 0
    ensures (q * f + t) % f == t % f
  {
    if q > 0 {
      ModAddMultiple(q - 1, f, t);
      assert q * f + t == ((q - 1) * f + t) + f;
      ModShift((q - 1) * f + t, f);
    }
  }
}
