/** The arithmetic of one step of the long division: `n` is a dividend, `d` a divisor of
    `words` words whose highest bit is set, `j` the position of the quotient digit. */
module KnuthDigit {
  import opened Words

  /** Word `j` of a number, and the quotient and remainder of what is left of it without its lowest `j` words. */
  function WordOf(n: nat, j: nat): nat {
    (n / Pow(j)) % 0x1_0000_0000
  }

  function Quotient(n: nat, d: nat, j: nat): nat
    requires d > 0
  {
    DivNonNegative(n, Pow(j));
    DivNonNegative(n / Pow(j), d);
    (n / Pow(j)) / d
  }

  function Remainder(n: nat, d: nat, j: nat): nat
    requires d > 0
  {
    (n / Pow(j)) % d
  }

  lemma QuotientAll(n: nat, d: nat)
    requires d > 0
    ensures Quotient(n, d, 0) == n / d && Remainder(n, d, 0) == n % d
  {
    PowZero();
    DivByOne(n);
  }

  /** The digit `j` of the quotient. */
  function TrueDigit(n: nat, d: nat, j: nat): nat
    requires d > 0
  {
    DivNonNegative(Window(n, d, j), d);
    Window(n, d, j) / d
  }

  /** The part of the dividend that yields digit `j`: the remainder so far with one more word. */
  function Window(n: nat, d: nat, j: nat): nat
    requires d > 0
  {
    0x1_0000_0000 * ((n / Pow(j + 1)) % d) + (n / Pow(j)) % 0x1_0000_0000
  }

  function Capped(u: nat, v: nat): (q: nat)
    requires v > 0
    ensures q < 0x1_0000_0000 && q <= u / v
  {
    DivNonNegative(u, v);
    if u / v < 0xFFFF_FFFF then u / v else 0xFFFF_FFFF
  }

  /** The refined estimate: the quotient of the top three words by the top two, at most a word. */
  function Estimate(w: nat, d: nat, words: nat): (q: nat)
    requires words >= 2 && d >= Pow(words - 2)
    ensures q < 0x1_0000_0000
  {
    TopNotZero(d, Pow(words - 2));
    DivNonNegative(w, Pow(words - 2));
    Capped(w / Pow(words - 2), d / Pow(words - 2))
  }

  lemma TopNotZero(d: nat, p: nat)
    requires d >= p >= 1
    ensures d / p >= 1
  {
    DivMod(d, p);
    hide Mul;
    if d / p <= 0 {
      MulMono(p, d / p, 0);
      MulUnit(p);
    }
  }

  predicate Normalized(d: nat, words: nat) {
    words >= 2 && d < Pow(words) && Pow(words) <= 2 * d
  }

  lemma NormalizedTop(d: nat, words: nat)
    requires Normalized(d, words)
    ensures Pow(words) == 0x1_0000_0000_0000_0000 * Pow(words - 2) && d >= 0x8000_0000_0000_0000 * Pow(words - 2)
    ensures d / Pow(words - 2) >= 0x8000_0000_0000_0000 && d > 0
  {
    var p := Pow(words - 2);
    assert Pow(words) == 0x1_0000_0000 * Pow(words - 1);
    DivMod(d, p);
    hide Mul;
    if d / p < 0x8000_0000_0000_0000 {
      MulStrict(p, d / p, 0x8000_0000_0000_0000);
      MulComm(p, 0x8000_0000_0000_0000);
      ConstMul(0x8000_0000_0000_0000, p);
    }
  }

  lemma ConstMul(c: int, p: int)
    ensures Mul(c, p) == c * p
  {
  }

  /** The estimate is the true digit or one more, and fits a word; for a divisor of two words
      it is the true digit. */
  lemma EstimateBounds(w: nat, d: nat, words: nat)
    requires Normalized(d, words) && w < 0x1_0000_0000 * d
    ensures d > 0 && d >= Pow(words - 2)
    ensures w / d <= Estimate(w, d, words) <= w / d + 1 && Estimate(w, d, words) < 0x1_0000_0000
    ensures words == 2 ==> Estimate(w, d, words) == w / d
  {
    hide Mul, Pow, Capped;
    NormalizedTop(d, words);
    CappedBounds(w, d, Pow(words - 2));
    if words == 2 {
      PowZero();
      DivByOne(w);
      DivByOne(d);
    }
  }

  lemma CappedBounds(w: nat, d: nat, p: nat)
    requires p >= 1 && d / p >= 0x8000_0000_0000_0000 && d > 0 && w < 0x1_0000_0000 * d && w / p >= 0
    ensures w / d <= Capped(w / p, d / p) <= w / d + 1
    ensures p == 1 ==> Capped(w / p, d / p) == w / d
  {
    var u, v, q, e := w / p, d / p, w / d, Capped(w / p, d / p);
    DivNonNegative(w, d);
    AtLeast(d, p);
    QuotientBelow(w, d, q);
    TruncatedLow(w, d, p);
    assert q <= e;
    if e >= 1 {
      TruncatedHigh(w, d, p, e);
    }
    if p == 1 {
      DivByOne(w);
      DivByOne(d);
    }
  }

  lemma AtLeast(d: nat, p: nat)
    requires p >= 1 && d / p >= 1
    ensures d >= p
  {
  }

  lemma PowZero()
    ensures Pow(0) == 1
  {
  }

  lemma DivByOne(w: int)
    ensures w / 1 == w
  {
  }

  lemma DivNonNegative(w: nat, d: nat)
    requires d > 0
    ensures w / d >= 0
  {
  }

  lemma QuotientBelow(w: nat, d: nat, q: nat)
    requires d > 0 && w < 0x1_0000_0000 * d && q == w / d
    ensures q < 0x1_0000_0000
  {
    DivMod(w, d);
    hide Mul;
    if q >= 0x1_0000_0000 {
      MulMono(d, 0x1_0000_0000, q);
      MulBase(d, 1);
      MulUnit(d);
    }
  }

  /** Cutting off low words of both numbers does not make the quotient smaller. */
  lemma TruncatedLow(w: nat, d: nat, p: nat)
    requires p >= 1 && d >= p
    ensures d / p >= 1 && d > 0 && w / d <= (w / p) / (d / p)
  {
    TopNotZero(d, p);
    var u, v, q := w / p, d / p, w / d;
    DivMod(w, p);
    DivMod(d, p);
    DivMod(w, d);
    DivNonNegative(w, d);
    hide Mul;
    // q * v * p <= q * d <= w < (u + 1) * p
    MulMono(q, Mul(p, v), d);
    MulComm(q, d);
    MulAssoc(q, p, v);
    MulComm(q, p);
    MulAssoc(p, q, v);
    var x := Mul(q, v);
    if x > u {
      MulStrict(p, u, x);
    }
    AtMostQuotient(q, v, u);
  }

  lemma AtMostQuotient(q: int, v: int, u: int)
    requires v > 0 && Mul(q, v) <= u
    ensures q <= u / v
  {
    DivMod(u, v);
    hide Mul;
    if q > u / v {
      MulStrict(v, u / v, q);
      MulComm(q, v);
    }
  }

  /** ... and makes it greater by one at most, when the divisor keeps 64 bits of which the
      highest is set. */
  lemma TruncatedHigh(w: nat, d: nat, p: nat, e: nat)
    requires p >= 1 && d / p >= 0x8000_0000_0000_0000 && d > 0
    requires 1 <= e <= 0xFFFF_FFFF && e <= (w / p) / (d / p)
    ensures e - 1 <= w / d
  {
    var u, v := w / p, d / p;
    DivMod(w, p);
    DivMod(d, p);
    DivMod(u, v);
    hide Mul;
    // e * d < e * v * p + e * p <= u * p + v * p <= w + d
    MulMono(v, e, u / v);
    MulComm(v, e);
    var x := Mul(e, v);
    MulStrict(e, d - Mul(p, v), p);
    MulAdd(e, d, Mul(p, v));
    MulAssoc(e, p, v);
    MulComm(e, p);
    MulAssoc(p, e, v);
    MulMono(p, x, u);
    MulMono(p, e, v);
    assert Mul(e, d) < w + d;
    MulAdd(d, e, 1);
    MulUnit(d);
    MulComm(e, d);
    MulComm(e - 1, d);
    AtMostQuotient(e - 1, d, w);
  }

  /** Going down one digit: quotient and remainder of the next prefix of the dividend. */
  lemma NextDigit(n: nat, d: nat, j: nat)
    requires d > 0
    ensures Window(n, d, j) < 0x1_0000_0000 * d
    ensures Quotient(n, d, j) == 0x1_0000_0000 * Quotient(n, d, j + 1) + TrueDigit(n, d, j) && TrueDigit(n, d, j) < 0x1_0000_0000
    ensures Remainder(n, d, j) == Window(n, d, j) % d < d
    ensures Window(n, d, j) == Mul(TrueDigit(n, d, j), d) + Remainder(n, d, j)
    ensures Window(n, d, j) == 0x1_0000_0000 * Remainder(n, d, j + 1) + WordOf(n, j)
  {
    var a, b := n / Pow(j), n / Pow(j + 1);
    var w := Window(n, d, j);
    assert Pow(j + 1) == 0x1_0000_0000 * Pow(j);
    PrefixDigit(n, Pow(j));
    assert a == 0x1_0000_0000 * b + a % 0x1_0000_0000;
    hide Pow;
    DivMod(b, d);
    DivMod(w, d);
    hide Mul;
    var q := 0x1_0000_0000 * (b / d) + w / d;
    MulBase(d, b / d);
    MulAdd(d, 0x1_0000_0000 * (b / d), w / d);
    assert a == Mul(d, q) + w % d;
    DivModUnique(a, d, q, w % d);
    QuotientBelow(w, d, w / d);
    MulComm(d, w / d);
  }

  lemma PrefixDigit(n: nat, p: nat)
    requires p >= 1
    ensures n / p == 0x1_0000_0000 * (n / (0x1_0000_0000 * p)) + (n / p) % 0x1_0000_0000
  {
    var a := n / p;
    var b, c := a / 0x1_0000_0000, a % 0x1_0000_0000;
    DivMod(n, p);
    hide Mul;
    MulBase(p, b);
    MulAdd(p, 0x1_0000_0000 * b, c);
    MulMono(p, c + 1, 0x1_0000_0000);
    MulAdd(p, c, 1);
    MulUnit(p);
    MulBase(p, 1);
    MulMono(p, 0, c);
    DivModUnique(n, 0x1_0000_0000 * p, b, Mul(p, c) + n % p);
  }

  // ---- when the estimates of a whole division are exact

  /** The estimate of digit `j` does not overshoot. */
  predicate StepExact(n: nat, d: nat, words: nat, j: nat)
    requires Normalized(d, words)
  {
    NormalizedTop(d, words);
    Mul(Estimate(Window(n, d, j), d, words), d) <= Window(n, d, j)
  }

  /** ... of no digit from `low` up to `high`. */
  predicate RunExact(n: nat, d: nat, words: nat, low: nat, high: nat)
    requires Normalized(d, words)
  {
    forall j | low <= j < high :: StepExact(n, d, words, j)
  }

  lemma ExactDigit(n: nat, d: nat, words: nat, j: nat)
    requires Normalized(d, words)
    ensures d > 0 && d >= Pow(words - 2)
    ensures var e, q := Estimate(Window(n, d, j), d, words), TrueDigit(n, d, j);
      (StepExact(n, d, words, j) <==> e == q) && (!StepExact(n, d, words, j) ==> e == q + 1)
  {
    hide Mul, Pow;
    NormalizedTop(d, words);
    NextDigit(n, d, j);
    var w := Window(n, d, j);
    EstimateBounds(w, d, words);
    var e, q := Estimate(w, d, words), w / d;
    DivMod(w, d);
    MulComm(d, q);
    if Mul(e, d) <= w {
      AtMostQuotient(e, d, w);
    }
  }

  /** With a divisor of two words no estimate overshoots. */
  lemma TwoWordsExact(n: nat, d: nat, j: nat)
    requires Normalized(d, 2)
    ensures StepExact(n, d, 2, j)
  {
    hide Mul, Pow;
    NormalizedTop(d, 2);
    NextDigit(n, d, j);
    EstimateBounds(Window(n, d, j), d, 2);
    ExactDigit(n, d, 2, j);
  }
}
