/** When the square-and-shift logarithm is exact: for every word whose final mantissa is not among the
    topmost, and in general exactly when every round takes the branch that exact arithmetic would. */
module NegLog2Exact {
  import opened Arith
  import opened NegLog2

  /** After `n` rounds the result is the true logarithm, cut to `n` fractional bits. */
  ghost predicate Exact(x: nat, k: nat, n: nat)
  {
    Pow(2, LogAfter(x, k, n)) <= Pow(x, Pow(2, n)) < Pow(2, LogAfter(x, k, n) + 1)
  }

  // ---- a sufficient condition on the final mantissa ----

  /** An error of at most (1 + 1/N)^e cannot carry a mantissa below 2(N - e) past 2N. */
  lemma BelowTwice(X: nat, A: nat, m: nat, e: nat, N: nat)
    requires e < N && m < 2 * (N - e) && A > 0
    requires X * N * Pow(N, e) <= m * A * Pow(N + 1, e)
    ensures X < 2 * A
  {
    var P, R, d := Pow(N, e), Pow(N + 1, e), N - e;
    Bernoulli(N, e);
    ScaledBracket(X, A, m, N, P, R, d);
    MulCancel(X * d, m * A, N * P);
    MulMono(m + 1, 2 * d, A);
    TwiceShuffle(X, A, m, d);
    MulCancelStrict(X, 2 * A, d);
  }

  lemma TwiceShuffle(X: nat, A: nat, m: nat, d: nat)
    ensures (2 * A) * d == (2 * d) * A && (m + 1) * A == m * A + A
  {
  }

  lemma ScaledBracket(X: nat, A: nat, m: nat, N: nat, P: nat, R: nat, d: nat)
    requires X * N * P <= m * A * R && R * d <= P * N
    ensures (X * d) * (N * P) <= (m * A) * (N * P)
  {
    var B := m * A;
    MulMono(X * N * P, B * R, d);
    MulMono(R * d, P * N, B);
    assert (X * N * P) * d == (X * d) * (N * P) by { FourFactors(X, N, P, d); }
    assert (B * R) * d == (R * d) * B by { Rotate(B, R, d); }
    assert (P * N) * B == B * (N * P);
  }

  lemma FourFactors(a: nat, b: nat, c: nat, d: nat)
    ensures (a * b * c) * d == (a * d) * (b * c)
  {
    MulAssoc(a, b, c);
    Rotate(a, b * c, d);
  }

  lemma ExactAfter(x: nat, k: nat, n: nat)
    requires Pow(2, k) <= x < Pow(2, k + 1) && ErrorExponent(n) < TWO32
    requires Rounds(Mantissa(x, k), n).m < 2 * (TWO32 - ErrorExponent(n))
    ensures Exact(x, k, n)
  {
    var s, e := Rounds(Mantissa(x, k), n), ErrorExponent(n);
    var X, A := Squared(x, n), Pow(2, LogAfter(x, k, n));
    LowerHalf(x, k, n);
    BracketsAll(x, k, n);
    SquaredIsPow(x, n);
    BelowTwice(X, A, s.m, e, TWO32);
    assert Pow(2, LogAfter(x, k, n) + 1) == 2 * A;
  }

  /** The loop never overshoots. */
  lemma LowerHalf(x: nat, k: nat, n: nat)
    requires Pow(2, k) <= x < Pow(2, k + 1)
    ensures Pow(2, LogAfter(x, k, n)) <= Squared(x, n)
  {
    var m, A := Rounds(Mantissa(x, k), n).m, Pow(2, LogAfter(x, k, n));
    MantissaRange(x, k);
    RoundsRange(Mantissa(x, k), n);
    BracketsAll(x, k, n);
    MulMono(TWO32, m, A);
    MulCancel(A, Squared(x, n), TWO32);
  }

  /** The mantissa left after all sixteen rounds. */
  function FinalMantissa(x: nat): nat
    requires x > 0
  {
    Rounds(Mantissa(x, FloorLog2(x)), 16).m
  }

  /** The final mantissas that leave the last bit open: the 262142 topmost of 2^32. */
  const OPEN_FROM: nat := 2 * (TWO32 - 131071)

  /** For every other word the logarithm is exact to the last bit. */
  lemma ExactWhen(x: nat)
    requires x > 0 && FinalMantissa(x) < OPEN_FROM
    ensures Pow(2, Log2Q16(x)) <= Pow(x, Pow(2, 16)) < Pow(2, Log2Q16(x) + 1)
  {
    ErrorExponentValue();
    ExactAfter(x, FloorLog2(x), 16);
  }

  /** How many final mantissas stay open. */
  lemma OpenMantissas(x: nat)
    requires x > 0
    ensures OPEN_FROM + 262142 == TWO33 && FinalMantissa(x) < OPEN_FROM + 262142
  {
    MantissaRange(x, FloorLog2(x));
    RoundsRange(Mantissa(x, FloorLog2(x)), 16);
  }

  // ---- the exact condition ----

  /** Round `i` takes the branch that exact arithmetic takes: its truncated square reaches 2 exactly
      when the true power does. */
  ghost predicate Decides(x: nat, k: nat, i: nat)
  {
    var m := Rounds(Mantissa(x, k), i).m;
    m * m >= TWO65 <==> Squared(x, i + 1) >= Pow(2, 2 * LogAfter(x, k, i) + 1)
  }

  ghost predicate ExactSquare(x: nat, k: nat, n: nat)
  {
    Pow(2, LogAfter(x, k, n)) <= Squared(x, n) < 2 * Pow(2, LogAfter(x, k, n))
  }

  lemma ExactIsSquare(x: nat, k: nat, n: nat)
    ensures Exact(x, k, n) <==> ExactSquare(x, k, n)
  {
    SquaredIsPow(x, n);
  }

  lemma NextLog(x: nat, k: nat, i: nat)
    ensures var m := Rounds(Mantissa(x, k), i).m;
            LogAfter(x, k, i + 1) == 2 * LogAfter(x, k, i) + (if m * m >= TWO65 then 1 else 0)
  {
    var s := Rounds(Mantissa(x, k), i);
    assert Rounds(Mantissa(x, k), i + 1) == Round(s);
    assert Pow(2, i + 1) == 2 * Pow(2, i);
    assert k * (2 * Pow(2, i)) == 2 * (k * Pow(2, i));
  }

  /** One more round stays exact exactly when it was exact before and decides right. */
  lemma ExactNext(x: nat, k: nat, i: nat)
    requires Pow(2, k) <= x < Pow(2, k + 1)
    ensures ExactSquare(x, k, i + 1) <==> ExactSquare(x, k, i) && Decides(x, k, i)
  {
    var E, X := LogAfter(x, k, i), Squared(x, i);
    var A := Pow(2, E);
    LowerHalf(x, k, i);
    LowerHalf(x, k, i + 1);
    NextLog(x, k, i);
    PowAdd(2, E, E);
    assert Pow(2, 2 * E + 1) == 2 * Pow(2, 2 * E);
    SquareCompare(X, A);
  }

  lemma SquareCompare(X: nat, A: nat)
    requires A <= X
    ensures X < 2 * A ==> X * X < 4 * (A * A)
    ensures X >= 2 * A ==> X * X >= 4 * (A * A)
  {
    if X < 2 * A {
      MulMono2(X, 2 * A - 1, X, 2 * A - 1);
      assert (2 * A - 1) * (2 * A - 1) == 4 * (A * A) - 4 * A + 1;
    } else {
      MulMono2(2 * A, X, 2 * A, X);
    }
  }

  /** The first `n` rounds all decide right. */
  ghost predicate AllDecide(x: nat, k: nat, n: nat)
  {
    forall i: nat :: i < n ==> Decides(x, k, i)
  }

  lemma ExactIffDecides(x: nat, k: nat, n: nat)
    requires Pow(2, k) <= x < Pow(2, k + 1)
    ensures Exact(x, k, n) <==> AllDecide(x, k, n)
  {
    assert ExactSquare(x, k, 0) by {
      assert LogAfter(x, k, 0) == k && Pow(2, k + 1) == 2 * Pow(2, k);
    }
    var j := 0;
    while j < n
      invariant 0 <= j <= n
      invariant ExactSquare(x, k, j) <==> AllDecide(x, k, j)
    {
      ExactNext(x, k, j);
      j := j + 1;
    }
    ExactIsSquare(x, k, n);
  }

  /** "Exact to the last bit" holds for a word if and only if each of its sixteen rounds takes the
      branch that exact arithmetic takes. */
  lemma ExactIff(x: nat)
    requires x > 0
    ensures Pow(2, Log2Q16(x)) <= Pow(x, Pow(2, 16)) < Pow(2, Log2Q16(x) + 1) <==> AllDecide(x, FloorLog2(x), 16)
  {
    ExactIffDecides(x, FloorLog2(x), 16);
  }

  // ---- powers of two ----

  lemma {:induction false} FloorOfPower(j: nat)
    ensures FloorLog2(Pow(2, j)) == j
  {
    if j > 0 {
      FloorOfPower(j - 1);
      assert Pow(2, j) / 2 == Pow(2, j - 1);
    }
  }

  lemma PowerMantissa(j: nat)
    ensures Mantissa(Pow(2, j), j) == TWO32
  {
    PowOfTwo();
    if j >= 32 {
      PowAdd(2, 32, j - 32);
      DivExact(TWO32, Pow(2, j - 32));
    } else {
      PowAdd(2, j, 32 - j);
    }
  }

  lemma DivExact(a: nat, d: nat)
    requires d > 0
    ensures (a * d) / d == a
  {
    DivBounds(a * d, d);
    var q := (a * d) / d;
    MulCancelStrict(a, q + 1, d);
    MulCancel(q, a, d);
  }

  lemma {:induction false} OneStaysOne(n: nat)
    ensures Rounds(TWO32, n) == Log(TWO32, 0)
  {
    if n > 0 {
      OneStaysOne(n - 1);
    }
  }

  /** The logarithm of a power of two is exact without remainder. */
  lemma PowerOfTwoExact(j: nat)
    ensures Pow(2, Log2Q16(Pow(2, j))) == Pow(Pow(2, j), Pow(2, 16))
    ensures Log2Q16(Pow(2, j)) == j * Pow(2, 16) && FinalMantissa(Pow(2, j)) == TWO32
  {
    FloorOfPower(j);
    PowerMantissa(j);
    OneStaysOne(16);
    PowMul(2, j, Pow(2, 16));
  }

  // ---- the scored value ----

  /** Exactness of the scored value. */
  ghost predicate ExactScore(h: nat)
    requires h < TWO64 && NegLog2.NegLog2(h) <= 64 * TWO16
  {
    var L := 64 * TWO16 - NegLog2.NegLog2(h);
    Pow(2, L) <= Pow(h + 1, Pow(2, 16)) < Pow(2, L + 1)
  }

  lemma TopScore(L: nat)
    requires L == 64 * TWO16
    ensures Pow(2, L) == Pow(TWO64, Pow(2, 16))
  {
    Log2OfTwo64();
    assert 64 * Pow(2, 16) == L by { PowOfTwo(); }
  }

  /** `neg_log2_q16(h)` is exact to the last bit if and only if h is the greatest word or every round
      decides right; in particular whenever the final mantissa is not among the 262142 topmost.
      Otherwise it is off by exactly one unit. */
  lemma NegLog2ExactIff(h: nat)
    requires h < TWO64
    ensures NegLog2.NegLog2(h) <= 64 * TWO16
    ensures ExactScore(h) <==> h + 1 == TWO64 || AllDecide(h + 1, FloorLog2(h + 1), 16)
    ensures FinalMantissa(h + 1) < OPEN_FROM ==> ExactScore(h)
    ensures var L := 64 * TWO16 - NegLog2.NegLog2(h);
            !ExactScore(h) ==> Pow(2, L + 1) <= Pow(h + 1, Pow(2, 16)) < Pow(2, L + 2)
  {
    NegLog2Bound(h);
    var L := Complement(h);
    if h + 1 == TWO64 {
      TopScore(L);
      assert Pow(2, L + 1) == 2 * Pow(2, L);
    } else {
      ExactIff(h + 1);
      if FinalMantissa(h + 1) < OPEN_FROM {
        ExactWhen(h + 1);
      }
    }
  }
}
