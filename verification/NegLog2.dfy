/** The Q16 fixed-point `-log2` that scores disks: sixteen rounds of
    square-and-shift on a Q32 mantissa. */
module NegLog2 {
  import opened Arith

  const TWO16: nat := 0x1_0000
  const TWO32: nat := 0x1_0000_0000
  const TWO33: nat := 0x2_0000_0000
  const TWO64: nat := 0x1_0000_0000_0000_0000
  const TWO65: nat := 0x2_0000_0000_0000_0000
  const TWO128: nat := 0x1_0000_0000_0000_0000_0000_0000_0000_0000

  /** `63 - leading_zeros(x)` for a non-zero word. */
  function FloorLog2(x: nat): (k: nat)
    requires x > 0
    ensures Pow(2, k) <= x < Pow(2, k + 1)
  {
    if x == 1 then 0 else 1 + FloorLog2(x / 2)
  }

  /** The normalised mantissa: `x` shifted so that it lies in [2^32, 2^33). */
  function Mantissa(x: nat, k: nat): nat
  {
    if k >= 32 then x / Pow(2, k - 32) else x * Pow(2, 32 - k)
  }

  datatype Log = Log(m: nat, frac: nat)

  /** One round: square, emit one bit, renormalise by truncation. */
  function Round(s: Log): Log
  {
    var sq := s.m * s.m;
    if sq >= TWO65 then Log(sq / TWO33, 2 * s.frac + 1) else Log(sq / TWO32, 2 * s.frac)
  }

  function Rounds(m: nat, n: nat): Log
  {
    if n == 0 then Log(m, 0) else Round(Rounds(m, n - 1))
  }

  /** log2(x) with n fractional bits, k being the integer part. */
  function LogAfter(x: nat, k: nat, n: nat): nat
  {
    k * Pow(2, n) + Rounds(Mantissa(x, k), n).frac
  }

  /** The integer the code subtracts from `64 << 16`. */
  function Log2Q16(x: nat): nat
    requires x > 0
  {
    LogAfter(x, FloorLog2(x), 16)
  }

  // ---- ranges ----

  ghost predicate Normalised(x: nat, k: nat, m: nat)
  {
    && TWO32 <= m < TWO33
    && m * Pow(2, k) <= x * TWO32
    && x * TWO32 < (m + 1) * Pow(2, k)
  }

  lemma ShiftRight(x: nat, p: nat, m: nat)
    requires p > 0 && m == x / p
    requires TWO32 * p <= x < TWO33 * p
    ensures TWO32 <= m < TWO33
    ensures m * (TWO32 * p) <= x * TWO32 < (m + 1) * (TWO32 * p)
  {
    DivBounds(x, p);
    MulCancelStrict(TWO32, m + 1, p);
    MulCancelStrict(m, TWO33, p);
    MulMono(m * p, x, TWO32);
    MulMono(x + 1, (m + 1) * p, TWO32);
    assert m * (TWO32 * p) == (m * p) * TWO32;
    assert (m + 1) * (TWO32 * p) == ((m + 1) * p) * TWO32;
  }

  lemma ShiftLeft(x: nat, p: nat, q: nat)
    requires q * p == TWO32 && q > 0
    requires q <= x < 2 * q
    ensures TWO32 <= x * p < TWO33
    ensures (x * p) * q == x * TWO32 < (x * p + 1) * q
  {
    MulMono(q, x, p);
    MulMono(x + 1, 2 * q, p);
    assert (2 * q) * p == 2 * (q * p);
    assert p > 0;
    assert (x + 1) * p == x * p + p;
    assert (x * p) * q == x * (q * p);
    assert (x * p + 1) * q == (x * p) * q + q;
  }

  lemma MantissaRange(x: nat, k: nat)
    requires Pow(2, k) <= x < Pow(2, k + 1)
    ensures Normalised(x, k, Mantissa(x, k))
  {
    PowOfTwo();
    if k >= 32 {
      PowAdd(2, 32, k - 32);
      PowAdd(2, 33, k - 32);
      ShiftRight(x, Pow(2, k - 32), Mantissa(x, k));
    } else {
      PowAdd(2, k, 32 - k);
      ShiftLeft(x, Pow(2, 32 - k), Pow(2, k));
    }
  }

  lemma DivBounds(a: nat, d: nat)
    requires d > 0
    ensures (a / d) * d <= a < (a / d + 1) * d
  {
    assert a == (a / d) * d + a % d;
    assert (a / d + 1) * d == (a / d) * d + d;
  }

  lemma RoundRange(s: Log)
    requires TWO32 <= s.m < TWO33
    ensures TWO32 <= Round(s).m < TWO33
    ensures s.m * s.m < TWO128
  {
    MulMono2(TWO32, s.m, TWO32, s.m);
    MulMono2(s.m, TWO33 - 1, s.m, TWO33 - 1);
  }

  lemma {:induction false} RoundsRange(m: nat, n: nat)
    requires TWO32 <= m < TWO33
    ensures TWO32 <= Rounds(m, n).m < TWO33
    ensures Rounds(m, n).frac < Pow(2, n)
  {
    if n > 0 {
      RoundsRange(m, n - 1);
      RoundRange(Rounds(m, n - 1));
    }
  }

  // ---- the error bound ----

  /** x^(2^n) by repeated squaring. */
  function Squared(x: nat, n: nat): nat
  {
    if n == 0 then x else Squared(x, n - 1) * Squared(x, n - 1)
  }

  lemma {:induction false} SquaredIsPow(x: nat, n: nat)
    ensures Squared(x, n) == Pow(x, Pow(2, n))
  {
    if n == 0 {
      assert Pow(x, 1) == x;
    } else {
      SquaredIsPow(x, n - 1);
      PowAdd(x, Pow(2, n - 1), Pow(2, n - 1));
    }
  }

  /** Truncation only loses: `m * A <= X * N` survives one round. */
  lemma LowStep(m: nat, m': nat, two: nat, A: nat, X: nat)
    requires m * A <= X * TWO32
    requires m' * (TWO32 * two) <= m * m
    ensures m' * (A * A * two) <= (X * X) * TWO32
  {
    MulMono2(m * A, X * TWO32, m * A, X * TWO32);
    MulMono(m' * (TWO32 * two), m * m, A * A);
    calc {
      (m' * (A * A * two)) * TWO32;
      (m' * (TWO32 * two)) * (A * A);
    <=
      (m * m) * (A * A);
      (m * A) * (m * A);
    <=
      (X * TWO32) * (X * TWO32);
      ((X * X) * TWO32) * TWO32;
    }
    MulCancel(m' * (A * A * two), (X * X) * TWO32, TWO32);
  }

  /** The relative error is at most (1 + 2^-32)^k; one round doubles k and adds one. */
  lemma HighStep(m: nat, m': nat, two: nat, A: nat, X: nat, P: nat, R: nat)
    requires X * TWO32 * P <= m * A * R
    requires m' >= TWO32
    requires m * m <= (m' + 1) * (TWO32 * two)
    ensures (X * X) * TWO32 * (P * P * TWO32) <= m' * (A * A * two) * (R * R * (TWO32 + 1))
  {
    HighStepIn(m, m', two, A, X, P, R, TWO32);
  }

  lemma HighStepIn(m: nat, m': nat, two: nat, A: nat, X: nat, P: nat, R: nat, N: nat)
    requires X * N * P <= m * A * R && 0 < N <= m' && m * m <= (m' + 1) * (N * two)
    ensures (X * X) * N * (P * P * N) <= m' * (A * A * two) * (R * R * (N + 1))
  {
    HighSquare(m, A, X, P, R, N);
    HighShift(m, m', two, A, R, N);
    MulCancel((X * X) * N * (P * P * N), m' * (A * A * two) * (R * R * (N + 1)), N);
  }

  /** Squaring the bound. */
  lemma HighSquare(m: nat, A: nat, X: nat, P: nat, R: nat, N: nat)
    requires X * N * P <= m * A * R
    ensures ((X * X) * N * (P * P * N)) * N <= (m * m) * (N * ((A * A) * (R * R)))
  {
    var lo, hi := X * N * P, m * A * R;
    Shuffle1(X, N, P);
    Shuffle2(m, A, R, N);
    MulMono2(lo, hi, lo, hi);
    MulMono(lo * lo, hi * hi, N);
  }

  /** Shifting back loses less than one unit. */
  lemma HighShift(m: nat, m': nat, two: nat, A: nat, R: nat, N: nat)
    requires m' >= N && m * m <= (m' + 1) * (N * two)
    ensures (m * m) * (N * ((A * A) * (R * R))) <= (m' * (A * A * two) * (R * R * (N + 1))) * N
  {
    var W := (A * A) * (R * R);
    MulMono(m * m, (m' + 1) * (N * two), N * W);
    Shuffle3(m' + 1, N, two, W);
    Shuffle4(m', N, two, A, R);
    OneUnit(m', N);
    MulMono((m' + 1) * N, m' * (N + 1), two * N * W);
  }

  lemma OneUnit(m: nat, N: nat)
    requires m >= N
    ensures (m + 1) * N <= m * (N + 1)
  {
  }

  lemma Shuffle1(X: nat, N: nat, P: nat)
    ensures ((X * X) * N * (P * P * N)) * N == ((X * N * P) * (X * N * P)) * N
  {
  }

  lemma Shuffle2(m: nat, A: nat, R: nat, N: nat)
    ensures ((m * A * R) * (m * A * R)) * N == (m * m) * (N * ((A * A) * (R * R)))
  {
  }

  lemma Shuffle3(a: nat, N: nat, two: nat, W: nat)
    ensures (a * (N * two)) * (N * W) == (a * N) * (two * N * W)
  {
  }

  lemma Shuffle4(m: nat, N: nat, two: nat, A: nat, R: nat)
    ensures (m * (N + 1)) * (two * N * ((A * A) * (R * R))) == (m * (A * A * two) * (R * R * (N + 1))) * N
  {
    var n1 := N + 1;
    assert (m * n1) * (two * N * ((A * A) * (R * R))) == (m * (A * A * two) * (R * R * n1)) * N;
  }

  lemma BernoulliStep(N: nat, j: nat, P: nat, R: nat)
    requires j < N
    requires P * (N - j) <= R * N
    ensures ((N + 1) * P) * (N - j - 1) <= (N * R) * N
  {
    var d := N - j - 1;
    var a, b := (N + 1) * d, N * (d + 1);
    assert a == b + d - N;
    MulMono(a, b, P);
    MulMono(P * (d + 1), R * N, N);
    assert ((N + 1) * P) * d == a * P by { Rotate(N + 1, P, d); }
    assert b * P == (P * (d + 1)) * N by { Rotate(N, P, d + 1); }
    assert (R * N) * N == (N * R) * N;
  }

  lemma Rotate(x: nat, y: nat, z: nat)
    ensures (x * y) * z == (x * z) * y == (y * z) * x
  {
  }

  /** (1 + 1/N)^k <= 1 / (1 - k/N), without the division. */
  lemma {:induction false} Bernoulli(N: nat, k: nat)
    requires k <= N
    ensures Pow(N + 1, k) * (N - k) <= Pow(N, k) * N
  {
    if k > 0 {
      Bernoulli(N, k - 1);
      BernoulliStep(N, k - 1, Pow(N + 1, k - 1), Pow(N, k - 1));
    }
  }

  function ErrorExponent(n: nat): nat
  {
    if n == 0 then 1 else 2 * ErrorExponent(n - 1) + 1
  }

  /** X is at least m * A / 2^32, and exceeds it by a factor of at most (1 + 2^-32)^e. */
  ghost predicate Bracketed(X: nat, A: nat, m: nat, e: nat)
  {
    && m * A <= X * TWO32
    && X * TWO32 * Pow(TWO32, e) <= m * A * Pow(TWO32 + 1, e)
  }

  /** Both halves of the loop's error invariant after `n` rounds. */
  ghost predicate Brackets(x: nat, k: nat, s: Log, n: nat)
  {
    var A := Pow(2, k * Pow(2, n) + s.frac);
    Bracketed(Squared(x, n), A, s.m, ErrorExponent(n))
  }

  lemma HighStart(X: nat, m: nat, A: nat)
    requires m >= TWO32
    requires X <= (m + 1) * A
    ensures X * TWO32 <= m * A * (TWO32 + 1)
  {
    MulMono(X, (m + 1) * A, TWO32);
    MulMono((m + 1) * TWO32, m * (TWO32 + 1), A);
    assert ((m + 1) * A) * TWO32 == ((m + 1) * TWO32) * A;
    assert (m * (TWO32 + 1)) * A == m * A * (TWO32 + 1);
  }

  lemma BracketsStart(x: nat, k: nat)
    requires Pow(2, k) <= x < Pow(2, k + 1)
    ensures Brackets(x, k, Log(Mantissa(x, k), 0), 0)
  {
    MantissaRange(x, k);
    assert k * Pow(2, 0) + 0 == k;
    HighStart(x * TWO32, Mantissa(x, k), Pow(2, k));
    OddPow(TWO32, 0);
    OddPow(TWO32 + 1, 0);
  }

  lemma BracketsStep(x: nat, k: nat, s: Log, n: nat)
    requires TWO32 <= s.m < TWO33
    requires Brackets(x, k, s, n)
    ensures Brackets(x, k, Round(s), n + 1)
  {
    RoundRange(s);
    var s' := Round(s);
    var b := s'.frac - 2 * s.frac;
    var two := Pow(2, b);
    assert Pow(2, 1) == 2 && two == 1 + b;
    var E := k * Pow(2, n) + s.frac;
    var A := Pow(2, E);
    assert k * Pow(2, n + 1) + s'.frac == E + E + b by {
      assert Pow(2, n + 1) == 2 * Pow(2, n);
      assert k * (2 * Pow(2, n)) == 2 * (k * Pow(2, n));
    }
    PowAdd(2, E + E, b);
    PowAdd(2, E, E);
    var e := ErrorExponent(n);
    DivBounds(s.m * s.m, TWO32 * two);
    LowStep(s.m, s'.m, two, A, Squared(x, n));
    HighStep(s.m, s'.m, two, A, Squared(x, n), Pow(TWO32, e), Pow(TWO32 + 1, e));
    OddPow(TWO32, e);
    OddPow(TWO32 + 1, e);
  }

  lemma OddPow(b: nat, e: nat)
    ensures Pow(b, 2 * e + 1) == Pow(b, e) * Pow(b, e) * b
  {
    PowAdd(b, e, e);
    assert Pow(b, 2 * e + 1) == b * Pow(b, e + e);
  }

  lemma {:induction false} BracketsAll(x: nat, k: nat, n: nat)
    requires Pow(2, k) <= x < Pow(2, k + 1)
    ensures Brackets(x, k, Rounds(Mantissa(x, k), n), n)
  {
    MantissaRange(x, k);
    if n == 0 {
      BracketsStart(x, k);
    } else {
      BracketsAll(x, k, n - 1);
      RoundsRange(Mantissa(x, k), n - 1);
      BracketsStep(x, k, Rounds(Mantissa(x, k), n - 1), n - 1);
    }
  }

  lemma BracketEnds(X: nat, A: nat, m: nat, e: nat)
    requires TWO32 <= m < TWO33 && A > 0 && 2 * e <= TWO32
    requires Bracketed(X, A, m, e)
    ensures A <= X < 4 * A
  {
    MulMono(TWO32, m, A);
    MulCancel(A, X, TWO32);
    LogBoundHigh(X, A, m, e);
  }

  lemma PowPlusTwo(n: nat)
    ensures Pow(2, n + 2) == 4 * Pow(2, n)
  {
    assert Pow(2, n + 2) == 2 * Pow(2, n + 1);
  }

  /** The bracket at the end of `n` rounds, as long as the accumulated error stays below a factor two. */
  lemma RoundsBound(x: nat, k: nat, n: nat)
    requires Pow(2, k) <= x < Pow(2, k + 1)
    requires 2 * ErrorExponent(n) <= TWO32
    ensures Pow(2, LogAfter(x, k, n)) <= Pow(x, Pow(2, n)) < Pow(2, LogAfter(x, k, n) + 2)
  {
    var s := Rounds(Mantissa(x, k), n);
    MantissaRange(x, k);
    RoundsRange(Mantissa(x, k), n);
    BracketsAll(x, k, n);
    SquaredIsPow(x, n);
    var X, A := Squared(x, n), Pow(2, LogAfter(x, k, n));
    BracketEnds(X, A, s.m, ErrorExponent(n));
    PowPlusTwo(LogAfter(x, k, n));
  }

  /** The truncating loop never overshoots log2(x) and is less than two Q16 units short of it:
      with L = Log2Q16(x), 2^L <= x^(2^16) < 2^(L+2). */
  lemma LogBound(x: nat)
    requires x > 0
    ensures Pow(2, Log2Q16(x)) <= Pow(x, Pow(2, 16)) < Pow(2, Log2Q16(x) + 2)
  {
    ErrorExponentValue();
    RoundsBound(x, FloorLog2(x), 16);
  }

  lemma ErrorExponentValue()
    ensures ErrorExponent(16) == 131071
  {
    assert ErrorExponent(4) == 31;
    assert ErrorExponent(8) == 511;
    assert ErrorExponent(12) == 8191;
  }

  lemma LogBoundHigh(X: nat, A: nat, m: nat, e: nat)
    requires m < TWO33
    requires 2 * e <= TWO32
    requires X * TWO32 * Pow(TWO32, e) <= m * A * Pow(TWO32 + 1, e)
    requires A > 0
    ensures X < 4 * A
  {
    var N := TWO32;
    var P, R := Pow(N, e), Pow(N + 1, e);
    Bernoulli(N, e);
    assert R * N <= 2 * (R * (N - e)) by {
      MulMono(N, 2 * (N - e), R);
      assert R * (2 * (N - e)) == 2 * (R * (N - e));
    }
    assert R * N <= 2 * (P * N);
    assert 2 * (P * N) == (2 * P) * N;
    MulCancel(R, 2 * P, N);
    MulMono(R, 2 * P, m * A);
    assert (m * A) * (2 * P) == (2 * m * A) * P;
    MulCancel(X * N, 2 * m * A, P);
    MulMono(m + 1, 2 * N, 2 * A);
    assert (2 * N) * (2 * A) == (4 * A) * N;
    assert (m + 1) * (2 * A) == 2 * m * A + 2 * A;
    MulCancelStrict(X, 4 * A, N);
  }

  // ---- the scored value ----

  /** What `neg_log2_q16(h)` returns: -log2((h + 1) / 2^64) in Q16. */
  function NegLog2(h: nat): nat
    requires h < TWO64
  {
    if h + 1 == TWO64 then 0 else LogRange(h + 1); 64 * TWO16 - Log2Q16(h + 1)
  }

  lemma LogRange(x: nat)
    requires 0 < x < TWO64
    ensures FloorLog2(x) <= 63
    ensures Log2Q16(x) < (FloorLog2(x) + 1) * TWO16 <= 64 * TWO16
  {
    var k := FloorLog2(x);
    PowOfTwo();
    PowAdd(2, 32, 32);
    if k >= 64 {
      PowMono(2, 64, k);
    }
    MantissaRange(x, k);
    RoundsRange(Mantissa(x, k), 16);
  }

  lemma Log2OfTwo64()
    ensures Pow(2, 64 * Pow(2, 16)) == Pow(TWO64, Pow(2, 16))
  {
    assert Pow(2, 64) == TWO64 by {
      PowOfTwo();
      PowAdd(2, 32, 32);
    }
    PowMul(2, 64, Pow(2, 16));
  }

  /** The greatest hash stands for 1, whose logarithm is exact. */
  lemma TopBound(L: nat)
    requires L == 64 * TWO16
    ensures Pow(2, L) <= Pow(TWO64, Pow(2, 16)) < Pow(2, L + 2)
  {
    Log2OfTwo64();
    assert 64 * Pow(2, 16) == L by { PowOfTwo(); }
    PowPlusTwo(L);
  }

  lemma LowerBound(x: nat, L: nat)
    requires 0 < x && L == Log2Q16(x)
    ensures Pow(2, L) <= Pow(x, Pow(2, 16)) < Pow(2, L + 2)
  {
    LogBound(x);
  }

  /** The logarithm that the scored value stands for. */
  lemma Complement(h: nat) returns (L: nat)
    requires h < TWO64
    ensures NegLog2(h) + L == 64 * TWO16
    ensures if h + 1 == TWO64 then L == 64 * TWO16 else L == Log2Q16(h + 1)
  {
    if h + 1 == TWO64 {
      L := 64 * TWO16;
    } else {
      LogRange(h + 1);
      L := Log2Q16(h + 1);
    }
  }

  /** The error bound of the scored value: with L = 64 * 2^16 - NegLog2(h),
      2^L <= (h + 1)^(2^16) < 2^(L + 2). */
  lemma NegLog2Bound(h: nat)
    requires h < TWO64
    ensures NegLog2(h) <= 64 * TWO16
    ensures var L := 64 * TWO16 - NegLog2(h);
            Pow(2, L) <= Pow(h + 1, Pow(2, 16)) < Pow(2, L + 2)
  {
    var L := Complement(h);
    if h + 1 == TWO64 {
      TopBound(L);
    } else {
      LowerBound(h + 1, L);
    }
  }

  /** The square-and-shift loop: `rounds` fractional bits from a normalised mantissa, every
      intermediate within its Rust type (a 33-bit mantissa, a square below 2^128). */
  method FractionBits(mantissa: nat, rounds: nat) returns (frac: nat)
    requires TWO32 <= mantissa < TWO33
    ensures frac == Rounds(mantissa, rounds).frac < Pow(2, rounds)
  {
    var m := mantissa;
    frac := 0;
    var i := 0;
    while i < rounds
      invariant 0 <= i <= rounds
      invariant TWO32 <= m < TWO33
      invariant Log(m, frac) == Rounds(mantissa, i)
    {
      RoundRange(Log(m, frac));
      var sq := m * m;
      assert sq < TWO128;
      frac := 2 * frac;
      if sq >= TWO65 {
        frac := frac + 1;
        m := sq / TWO33;
      } else {
        m := sq / TWO32;
      }
      i := i + 1;
    }
    RoundsRange(mantissa, rounds);
  }

  /** `neg_log2_q16`: no overflow on `h + 1`, no underflow in the final subtraction. */
  method NegLog2Q16(h: nat) returns (r: nat)
    requires h < TWO64
    ensures r == NegLog2(h) <= 64 * TWO16
  {
    if h + 1 == TWO64 {
      return 0;
    }
    var intPart := FloorLog2(h + 1);
    MantissaRange(h + 1, intPart);
    LogRange(h + 1);
    var frac := FractionBits(Mantissa(h + 1, intPart), 16);
    assert Pow(2, 16) == TWO16 by { PowOfTwo(); }
    r := 64 * TWO16 - (intPart * TWO16 + frac);
  }

  // ---- monotonicity ----

  lemma RoundMono(s: Log, t: Log)
    requires TWO32 <= s.m < TWO33 && TWO32 <= t.m < TWO33
    requires s.frac < t.frac || (s.frac == t.frac && s.m <= t.m)
    ensures Round(s).frac < Round(t).frac || (Round(s).frac == Round(t).frac && Round(s).m <= Round(t).m)
  {
    if s.frac == t.frac {
      MulMono2(s.m, t.m, s.m, t.m);
    }
  }

  lemma {:induction false} RoundsMono(a: nat, b: nat, n: nat)
    requires TWO32 <= a <= b < TWO33
    ensures Rounds(a, n).frac < Rounds(b, n).frac
            || (Rounds(a, n).frac == Rounds(b, n).frac && Rounds(a, n).m <= Rounds(b, n).m)
  {
    if n > 0 {
      RoundsMono(a, b, n - 1);
      RoundsRange(a, n - 1);
      RoundsRange(b, n - 1);
      RoundMono(Rounds(a, n - 1), Rounds(b, n - 1));
    }
  }

  lemma DivMono(a: nat, b: nat, d: nat)
    requires a <= b && d > 0
    ensures a / d <= b / d
  {
    var p, q := a / d, b / d;
    DivBounds(a, d);
    DivBounds(b, d);
    MulCancelStrict(p, q + 1, d);
  }

  lemma FloorLog2Mono(x: nat, y: nat)
    requires 0 < x <= y
    ensures FloorLog2(x) <= FloorLog2(y)
  {
    if FloorLog2(x) > FloorLog2(y) {
      PowMono(2, FloorLog2(y) + 1, FloorLog2(x));
    }
  }

  lemma MantissaMono(x: nat, y: nat, k: nat)
    requires x <= y
    ensures Mantissa(x, k) <= Mantissa(y, k)
  {
    if k >= 32 {
      DivMono(x, y, Pow(2, k - 32));
    } else {
      MulMono(x, y, Pow(2, 32 - k));
    }
  }

  lemma LowerOctave(k: nat, l: nat, p: nat, f: nat, g: nat)
    requires k < l && f < p
    ensures k * p + f <= l * p + g
  {
    MulMono(k + 1, l, p);
    assert (k + 1) * p == k * p + p;
  }

  lemma LogAfterMono(x: nat, y: nat, n: nat)
    requires 0 < x <= y
    ensures LogAfter(x, FloorLog2(x), n) <= LogAfter(y, FloorLog2(y), n)
  {
    var k, l := FloorLog2(x), FloorLog2(y);
    var f, g := Rounds(Mantissa(x, k), n).frac, Rounds(Mantissa(y, l), n).frac;
    FloorLog2Mono(x, y);
    MantissaRange(x, k);
    if k < l {
      RoundsRange(Mantissa(x, k), n);
      LowerOctave(k, l, Pow(2, n), f, g);
    } else {
      MantissaRange(y, k);
      MantissaMono(x, y, k);
      RoundsMono(Mantissa(x, k), Mantissa(y, k), n);
    }
  }

  /** A larger hash never has a larger `-log2`. */
  lemma NegLog2Mono(g: nat, h: nat)
    requires g <= h < TWO64
    ensures NegLog2(g) >= NegLog2(h)
  {
    if h + 1 < TWO64 {
      LogAfterMono(g + 1, h + 1, 16);
    }
  }

  // ---- the last bit is not always right ----

  lemma {:induction false} FirstBitZero(m: nat, n: nat)
    requires TWO32 <= m < TWO33 && m * m < TWO65
    ensures Rounds(m, n + 1).frac < Pow(2, n)
  {
    if n > 0 {
      FirstBitZero(m, n - 1);
      assert Rounds(m, n + 1) == Round(Rounds(m, n));
    } else {
      assert Rounds(m, 1) == Round(Rounds(m, 0));
    }
  }

  lemma {:induction false} PowBaseMono(a: nat, b: nat, n: nat)
    requires a <= b
    ensures Pow(a, n) <= Pow(b, n)
  {
    if n > 0 {
      PowBaseMono(a, b, n - 1);
      MulMono2(a, b, Pow(a, n - 1), Pow(b, n - 1));
    }
  }

  /** 64-bit words at or just above sqrt(2) * 2^63 whose Q32 truncation falls below it. */
  predicate JustAboveRootTwo(x: nat)
  {
    && 0x8000_0000_0000_0000 <= x < TWO64
    && x * x >= 0x8000_0000_0000_0000_0000_0000_0000_0000
    && (x / 0x8000_0000) * (x / 0x8000_0000) < TWO65
  }

  /** On such words the loop loses the first fractional bit: the result is at least one Q16 unit
      further from zero than the true value. */
  lemma LosesABit(x: nat)
    requires JustAboveRootTwo(x)
    ensures Pow(2, (64 * TWO16 - NegLog2(x - 1)) + 1) <= Pow(x, Pow(2, 16))
  {
    LogRange(x);
    var n := 15;
    BelowRootTwo(x, n);
    PowMono(2, Log2Q16(x) + 1, 127 * Pow(2, n));
    AboveRootTwo(x, Pow(2, n));
  }

  /** So the loop is not "exact to the last bit". */
  lemma LastBitCanBeWrong() returns (h: nat)
    ensures h < TWO64
    ensures Pow(2, (64 * TWO16 - NegLog2(h)) + 1) <= Pow(h + 1, Pow(2, 16))
  {
    var x := RootTwoWord();
    LosesABit(x);
    h := x - 1;
  }

  /** The first word above 2^63 times the square root of 2. */
  lemma RootTwoWord() returns (x: nat)
    ensures JustAboveRootTwo(x)
  {
    x := 0xb504f333f9de6485;
  }

  lemma BelowRootTwo(x: nat, n: nat)
    requires JustAboveRootTwo(x)
    ensures LogAfter(x, FloorLog2(x), n + 1) < 127 * Pow(2, n)
  {
    TopBitSet(x);
    PowOfTwo();
    assert Pow(2, 32) == 2 * Pow(2, 31);
    MantissaRange(x, 63);
    FirstBitZero(Mantissa(x, 63), n);
    assert Pow(2, n + 1) == 2 * Pow(2, n);
  }

  lemma TopBitSet(x: nat)
    requires 0x8000_0000_0000_0000 <= x < TWO64
    ensures FloorLog2(x) == 63
  {
    PowOfTwo();
    PowAdd(2, 32, 32);
    assert Pow(2, 64) == 2 * Pow(2, 63);
    LogRange(x);
    if FloorLog2(x) <= 62 {
      PowMono(2, FloorLog2(x) + 1, 63);
    }
  }

  lemma AboveRootTwo(x: nat, half: nat)
    requires JustAboveRootTwo(x)
    ensures Pow(2, 127 * half) <= Pow(x, 2 * half)
  {
    PowOfTwo();
    PowAdd(2, 32, 32);
    PowAdd(2, 64, 64);
    assert Pow(2, 128) == 2 * Pow(2, 127);
    assert Pow(x, 2) == x * x by { OddPow(x, 0); }
    PowMul(x, 2, half);
    PowMul(2, 127, half);
    PowBaseMono(Pow(2, 127), Pow(x, 2), half);
  }
}
