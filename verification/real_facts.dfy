/** Small facts about the exact rationals that stand for Decimal values:
    multiplying and dividing by a positive scale, and the floor. Each is
    stated on its own so that the larger proofs can combine them without
    searching for them. */
module RealFacts {

  lemma {:induction false} MulDivCancel(f: real, p: real)
    requires p > 0.0
    ensures (f / p) * p == f && (f * p) / p == f
  {
  }

  lemma {:induction false} DivLe(a: real, b: real, p: real)
    requires p > 0.0 && a <= b
    ensures a / p <= b / p
  {
  }

  lemma {:induction false} DivLt(a: real, b: real, p: real)
    requires p > 0.0 && a < b
    ensures a / p < b / p
  {
  }

  lemma {:induction false} MulLe(a: real, b: real, p: real)
    requires p > 0.0 && a <= b
    ensures a * p <= b * p
  {
  }

  lemma {:induction false} MulLt(a: real, b: real, p: real)
    requires p > 0.0 && a < b
    ensures a * p < b * p
  {
  }

  lemma {:induction false} DivAdd(a: real, b: real, p: real)
    requires p > 0.0
    ensures (a + b) / p == a / p + b / p
  {
  }

  lemma {:induction false} MulAdd(a: real, b: real, p: real)
    ensures (a + b) * p == a * p + b * p
  {
  }

  lemma {:induction false} MulAssoc(a: real, b: real, c: real)
    ensures a * (b * c) == (a * b) * c
  {
  }

  lemma {:induction false} DivNeg(a: real, p: real)
    requires p > 0.0
    ensures (-a) / p == -(a / p)
  {
  }

  lemma {:induction false} MulNeg(a: real, p: real)
    ensures (-a) * p == -(a * p)
  {
  }

  lemma {:induction false} CastLe(a: int, b: int)
    requires a <= b
    ensures a as real <= b as real
  {
  }

  lemma {:induction false} CastAdd(a: int, b: int)
    ensures (a + b) as real == a as real + b as real
  {
  }

  lemma {:induction false} CastMul(a: int, b: int)
    ensures (a * b) as real == a as real * b as real
  {
  }

  /** Two integers less than one apart are equal. */
  lemma {:induction false} CastClose(a: int, b: int)
    requires -0.5 <= a as real - b as real <= 0.5
    ensures a == b
  {
  }

  lemma {:induction false} FloorBounds(a: real)
    ensures a.Floor as real <= a < a.Floor as real + 1.0
  {
  }

  lemma {:induction false} FloorMono(a: real, b: real)
    requires a <= b
    ensures a.Floor <= b.Floor
  {
  }

  lemma {:induction false} FloorOfInt(k: int)
    ensures (k as real).Floor == k
  {
  }

  lemma {:induction false} FloorChar(a: real, k: int)
    requires k as real <= a < k as real + 1.0
    ensures a.Floor == k
  {
  }
}
