/** Long division. */
module BigNumDivide {
  import opened Words
  import opened Bits
  import opened BigNumBasic
  import opened BigNumShift
  import opened BigNumMultiply
  import opened KnuthDigit

  // ---- one digit

  /** A high and a low word as one number. */
  function Pair(hi: nat, lo: nat): nat {
    0x1_0000_0000 * hi + lo
  }

  /** The refinement loop: `u2 u1 u0` are the top words of the window, `h1 h2` those of the divisor. */
  method EstimateDigit(u2: Word, u1: Word, u0: Word, h1: Word, h2: Word) returns (qhat: nat)
    requires h1 >= 0x8000_0000
    ensures u2 <= h1 ==> qhat == Capped(Pair(Pair(u2, u1), u0), Pair(h1, h2))
  {
    hide Mul, Capped;
    var p: int := 0x1_0000_0000 * u2 + u1;
    ghost var u, v := 0x1_0000_0000 * p + u0, 0x1_0000_0000 * h1 + h2;
    var rhat: int;
    qhat, rhat := p / h1, p % h1;
    DivMod(p, h1);
    MulComm(h1, qhat);
    StartsHigh(p, u0, h1, h2);
    while true
      invariant Mul(qhat, h1) + rhat == p && 0 <= rhat < 0x1_0000_0000
      invariant Capped(u, v) <= qhat
      decreases 0x1_0000_0000 - rhat
    {
      var limit := 0x1_0000_0000 * rhat + u0;
      TestIsExact(p, u0, h1, h2, qhat, rhat);
      ProductPositive(qhat, h2);
      if qhat >= 0x1_0000_0000 || qhat * h2 > limit {
        if qhat < 0x1_0000_0000 {
          AboveQuotient(qhat, u, v);
        }
        StepDown(qhat, h1);
        qhat := qhat - 1;
        rhat := rhat + h1;
        if rhat < 0x1_0000_0000 {
          continue;
        }
        if u2 <= h1 {
          StopsLow(p, u0, h1, h2, qhat, rhat);
        }
      }
      break;
    }
    if u2 <= h1 {
      IsCapped(qhat, u, v);
    }
  }

  lemma StartsHigh(p: int, u0: Word, h1: Word, h2: Word)
    requires p >= 0 && h1 > 0
    ensures p / h1 >= 0 && Capped(0x1_0000_0000 * p + u0, 0x1_0000_0000 * h1 + h2) <= p / h1
  {
    var u, v := 0x1_0000_0000 * p + u0, 0x1_0000_0000 * h1 + h2;
    var q := u / v;
    DivMod(u, v);
    DivNonNegative(u, v);
    DivNonNegative(p, h1);
    hide Mul;
    MulComm(v, q);
    MulAdd(q, 0x1_0000_0000 * h1, h2);
    MulBase(q, h1);
    MulMono(q, 0, h2);
    MulUnit(q);
    AtMostQuotient(q, h1, p);
  }

  lemma TestIsExact(p: int, u0: Word, h1: Word, h2: Word, qhat: int, rhat: int)
    requires Mul(qhat, h1) + rhat == p
    ensures Mul(qhat, 0x1_0000_0000 * h1 + h2) - (0x1_0000_0000 * p + u0) == Mul(qhat, h2) - (0x1_0000_0000 * rhat + u0)
  {
    hide Mul;
    MulAdd(qhat, 0x1_0000_0000 * h1, h2);
    MulBase(qhat, h1);
  }

  lemma ProductPositive(qhat: nat, h2: Word)
    ensures qhat * h2 == Mul(qhat, h2) >= 0 && (qhat == 0 ==> Mul(qhat, h2) == 0)
  {
  }

  lemma AboveQuotient(qhat: nat, u: nat, v: nat)
    requires v > 0 && Mul(qhat, v) > u
    ensures Capped(u, v) < qhat
  {
    DivMod(u, v);
    hide Mul;
    if qhat <= u / v {
      MulMono(v, qhat, u / v);
      MulComm(v, qhat);
    }
  }

  lemma StepDown(qhat: int, h1: int)
    ensures Mul(qhat - 1, h1) == Mul(qhat, h1) - h1
  {
  }

  lemma StopsLow(p: int, u0: Word, h1: Word, h2: Word, qhat: nat, rhat: int)
    requires Mul(qhat, h1) + rhat == p && p < 0x1_0000_0000 * h1 + 0x1_0000_0000 && rhat >= 0x1_0000_0000 && h1 > 0
    ensures qhat < 0x1_0000_0000 && Mul(qhat, 0x1_0000_0000 * h1 + h2) <= 0x1_0000_0000 * p + u0
  {
    TestIsExact(p, u0, h1, h2, qhat, rhat);
    hide Mul;
    if qhat >= 0x1_0000_0000 {
      MulMono(h1, 0x1_0000_0000, qhat);
      MulComm(h1, qhat);
      MulBase(1, h1);
      MulComm(h1, 0x1_0000_0000);
      MulUnit(h1);
    }
    MulMono(qhat, h2, 0x1_0000_0000);
    MulBase(qhat, 1);
    MulUnit(qhat);
  }

  lemma IsCapped(qhat: nat, u: nat, v: nat)
    requires v > 0 && qhat < 0x1_0000_0000 && Mul(qhat, v) <= u && Capped(u, v) <= qhat
    ensures qhat == Capped(u, v)
  {
    hide Mul;
    AtMostQuotient(qhat, v, u);
  }

  /** One turn of the loop below, with its 64-bit product, its signed difference and its 32-bit
      borrow: the new word of the dividend and the new borrow. */
  function SubtractWord(u: Word, k: Word, qhat: nat, d: Word): (Word, Word) {
    var p := Product64(qhat, d);
    var t := u as int - k - p % 0x1_0000_0000;
    assert -0x8000_0000_0000_0000 <= t < 0x8000_0000_0000_0000;
    (t % 0x1_0000_0000, (p / 0x1_0000_0000 - t / 0x1_0000_0000) % 0x1_0000_0000)
  }

  /** A product cut to 64 bits. */
  function Product64(qhat: nat, d: Word): (p: int)
    ensures 0 <= p < 0x1_0000_0000_0000_0000
  {
    (qhat * d) % 0x1_0000_0000_0000_0000
  }

  lemma Product64Exact(qhat: Word, d: Word)
    ensures Product64(qhat, d) == Mul(qhat, d) <= 0xFFFF_FFFE_0000_0001
  {
    var p := Product(qhat, d);
    assert Product64(qhat, d) == p % 0x1_0000_0000_0000_0000;
  }

  lemma SubtractWordExact(u: Word, k: Word, qhat: Word, d: Word)
    ensures var r := SubtractWord(u, k, qhat, d); r.0 + Mul(qhat, d) + k == u + 0x1_0000_0000 * r.1
  {
    hide Mul, Product64;
    Product64Exact(qhat, d);
    BorrowFits(Product64(qhat, d), u, k);
  }

  /** The borrow is below 2^32 before it is cut to 32 bits. */
  lemma BorrowFits(p: int, u: Word, k: Word)
    requires 0 <= p <= 0xFFFF_FFFE_0000_0001
    ensures var t := u as int - k - p % 0x1_0000_0000;
      && 0 <= p / 0x1_0000_0000 - t / 0x1_0000_0000 < 0x1_0000_0000
      && t % 0x1_0000_0000 + p + k == u + 0x1_0000_0000 * (p / 0x1_0000_0000 - t / 0x1_0000_0000)
  {
  }

  /** The multiply-and-subtract loop on words `j` to `j + n` of the dividend; the 32-bit borrow
      `k` carries the high word of the product as well and never overflows. */
  method MultiplySubtract(dividend: array<Word>, j: nat, divisor: array<Word>, qhat: nat) returns (k: Word)
    requires j + divisor.Length < dividend.Length && dividend != divisor
    modifies dividend
    ensures forall i | 0 <= i < dividend.Length && !(j <= i < j + divisor.Length) :: dividend[i] == old(dividend[i])
    ensures qhat < 0x1_0000_0000 ==>
      Val(dividend[j..j + divisor.Length]) + Mul(qhat, Val(divisor[..])) == Val(old(dividend[j..j + divisor.Length])) + Mul(Pow(divisor.Length), k)
  {
    hide Mul, Val, Pow, SubtractWord;
    ghost var was := dividend[..];
    k := 0;
    var i := 0;
    ValOne(0);
    MulUnit(qhat);
    MulUnit(Pow(0));
    assert dividend[j..j] == was[j..j] == divisor[..0] == [];
    while i < divisor.Length
      invariant 0 <= i <= divisor.Length
      invariant forall m | 0 <= m < dividend.Length && !(j <= m < j + i) :: dividend[m] == was[m]
      invariant qhat < 0x1_0000_0000 ==>
        Val(dividend[j..j + i]) + Mul(qhat, Val(divisor[..i])) == Val(was[j..j + i]) + Mul(Pow(i), k)
    {
      ghost var low, c := dividend[j..j + i], k;
      var step := SubtractWord(dividend[i + j], k, qhat, divisor[i]);
      dividend[i + j], k := step.0, step.1;
      if qhat < 0x1_0000_0000 {
        SubtractWordExact(was[i + j], c, qhat, divisor[i]);
        assert forall m | 0 <= m < i :: dividend[j..j + divisor.Length][m] == low[m];
        assert dividend[j..j + divisor.Length][..i] == low;
        assert dividend[j..j + divisor.Length][..i + 1] == dividend[j..j + i + 1];
        assert was[j..j + divisor.Length][..i] == was[j..j + i] && was[j..j + divisor.Length][..i + 1] == was[j..j + i + 1];
        SubtractRow(dividend[j..j + divisor.Length], was[j..j + divisor.Length], divisor[..], i, qhat, low, c, k);
      }
      i := i + 1;
    }
    assert divisor[..i] == divisor[..];
  }

  lemma SubtractRow(s: seq<Word>, was: seq<Word>, d: seq<Word>, i: nat, qhat: Word, low: seq<Word>, c: int, c': int)
    requires i < |s| == |was| == |d| && low == s[..i]
    requires s[i] + Mul(qhat, d[i]) + c == was[i] + 0x1_0000_0000 * c'
    requires Val(low) + Mul(qhat, Val(d[..i])) == Val(was[..i]) + Mul(Pow(i), c)
    ensures Val(s[..i + 1]) + Mul(qhat, Val(d[..i + 1])) == Val(was[..i + 1]) + Mul(Pow(i + 1), c')
  {
    var p := Pow(i);
    assert Pow(i + 1) == 0x1_0000_0000 * p;
    hide Mul, Pow, Val;
    ValUpTo(s, i);
    ValUpTo(was, i);
    ValUpTo(d, i);
    Balance(p, was[i], c', s[i], Mul(qhat, d[i]), c);
    MulAdd(qhat, Val(d[..i]), Mul(p, d[i]));
    MulAssoc(qhat, p, d[i]);
    MulComm(qhat, p);
    MulAssoc(p, qhat, d[i]);
  }

  // ---- all digits

  /** A number below `Pow(k)` keeps it all in its `k` low words. */
  lemma LowWords(s: seq<Word>, k: nat)
    requires k <= |s| && Val(s) < Pow(k)
    ensures Val(s[..k]) == Val(s) && Val(s[k..]) == 0
  {
    hide Mul, Val, Pow;
    ValSplit(s, k);
    if Val(s[k..]) > 0 {
      MulMono(Pow(k), 1, Val(s[k..]));
    }
    MulUnit(Pow(k));
  }

  lemma ValCons(s: seq<Word>, i: nat)
    requires i < |s|
    ensures Val(s[i..]) == s[i] + 0x1_0000_0000 * Val(s[i + 1..])
  {
    assert s[i..][1..] == s[i + 1..];
  }

  /** Before digit `j = i - 1`: the words of the dividend from `i` on hold the remainder so far,
      the digits from `i` on the quotient so far. */
  ghost predicate SoFar(n: nat, d: nat, rest: seq<Word>, digits: seq<Word>, i: nat)
    requires d > 0
  {
    Val(digits) == Quotient(n, d, i) && Val(rest) == Remainder(n, d, i)
  }

  /** The window of digit `j` lies in the words from `j` up, and so do the top words of the estimate. */
  lemma WindowWords(n: nat, s: seq<Word>, d: seq<Word>, j: nat)
    requires |d| >= 2 && Normalized(Val(d), |d|) && j + |d| < |s|
    requires s[j] == WordOf(n, j)
    requires Val(s[j + 1..]) == Remainder(n, Val(d), j + 1)
    ensures Val(s[j..j + |d| + 1]) == Val(s[j..]) == Window(n, Val(d), j)
    ensures Val(s[j + |d| + 1..]) == 0
  {
    hide Mul, Val, Pow, Quotient, Remainder, WordOf, TrueDigit, Window;
    var w := s[j..];
    NextDigit(n, Val(d), j);
    ValCons(s, j);
    PowNext(|d|);
    LowWords(w, |d| + 1);
    assert w[..|d| + 1] == s[j..j + |d| + 1] && w[|d| + 1..] == s[j + |d| + 1..];
  }

  lemma PowNext(n: nat)
    ensures Pow(n + 1) == 0x1_0000_0000 * Pow(n)
  {
  }

  /** The three top words of the window and the two top words of the divisor give the estimate. */
  lemma EstimateFromWords(w: seq<Word>, d: seq<Word>)
    requires |d| >= 2 && |w| == |d| + 1 && Normalized(Val(d), |d|)
    ensures Val(d) >= Pow(|d| - 2) && Pair(d[|d| - 1], d[|d| - 2]) > 0
    ensures Estimate(Val(w), Val(d), |d|) == Capped(Pair(Pair(w[|d|], w[|d| - 1]), w[|d| - 2]), Pair(d[|d| - 1], d[|d| - 2]))
  {
    hide Mul, Pow, Capped, Val;
    var n := |d|;
    NormalizedTop(Val(d), n);
    ValDivMod(w, n - 2);
    ValDivMod(d, n - 2);
    ThreeWords(w[n - 2..]);
    TwoWords(d[n - 2..]);
  }

  lemma TopWords(w: seq<Word>, d: seq<Word>)
    requires |d| >= 2 && |w| == |d| + 1 && Normalized(Val(d), |d|) && Val(w) < 0x1_0000_0000 * Val(d)
    ensures d[|d| - 1] >= 0x8000_0000 && w[|d|] <= d[|d| - 1]
  {
    hide Mul, Pow, Capped, Val;
    var n := |d|;
    var p, x, y := Pow(n - 1), w[n], d[n - 1];
    ValUpTo(w, n);
    assert w[..n + 1] == w;
    ValUpTo(d, n - 1);
    assert d[..n] == d;
    ValBound(d[..n - 1]);
    PowNext(n - 1);
    MulBase(p, x);
    if x > y {
      MulStrict(p, y, x);
    }
    if y < 0x8000_0000 {
      MulMono(p, y + 1, 0x8000_0000);
      MulAdd(p, y, 1);
      MulUnit(p);
      MulComm(p, 0x8000_0000);
      ConstMul(0x8000_0000, p);
    }
  }

  lemma TopWordOf(s: seq<Word>)
    requires |s| == 1
    ensures Val(s) == s[0]
  {
    assert s[1..] == [];
  }

  lemma TwoWords(s: seq<Word>)
    requires |s| == 2
    ensures Val(s) == Pair(s[1], s[0])
  {
    TopWordOf(s[1..]);
  }

  lemma ThreeWords(s: seq<Word>)
    requires |s| == 3
    ensures Val(s) == Pair(Pair(s[2], s[1]), s[0])
  {
    TwoWords(s[1..]);
  }

  /** The words of the window without the last, and the last. */
  lemma Front(s: seq<Word>, j: nat, n: nat)
    requires j + n < |s|
    ensures s[j..j + n + 1][..n] == s[j..j + n] && s[j..j + n + 1][n] == s[j + n]
  {
  }

  /** The window after the subtraction: where nothing had to be borrowed the difference, else the
      difference and `Pow` of the window's length. */
  lemma WindowAfter(w: seq<Word>, v: seq<Word>, n: nat, k: Word, x: nat)
    requires |w| == |v| == n + 1
    requires Val(v[..n]) + x == Val(w[..n]) + Mul(Pow(n), k)
    requires v[n] == (w[n] as int - k as int) % 0x1_0000_0000
    requires x < Pow(n + 1)
    ensures x <= Val(w) <==> w[n] >= k
    ensures Val(v) == if x <= Val(w) then Val(w) - x else Val(w) - x + Pow(n + 1)
  {
    hide Mul, Val, Pow;
    var p, a, b := Pow(n), w[n], k;
    ValUpTo(w, n);
    ValUpTo(v, n);
    assert w[..n + 1] == w && v[..n + 1] == v;
    ValBound(v[..n]);
    MulAdd(p, a, b);
    PowNext(n);
    MulUnit(p);
    if a >= b {
      MulMono(p, b, a);
    } else {
      MulStrict(p, a, b);
      MulAdd(p, a as int - b as int, 0x1_0000_0000);
      MulBase(p, 1);
    }
  }

  /** ... where the digit subtracted is the digit `q` of the quotient or one more. */
  lemma SubtractedWindow(w: seq<Word>, v: seq<Word>, n: nat, d: nat, q: Word, r: nat, qhat: Word, k: Word)
    requires |w| == |v| == n + 1 && r < d < Pow(n)
    requires Val(w) == Mul(q, d) + r && q <= qhat <= q + 1
    requires Val(v[..n]) + Mul(qhat, d) == Val(w[..n]) + Mul(Pow(n), k)
    requires v[n] == (w[n] as int - k as int) % 0x1_0000_0000
    ensures if w[n] >= k then qhat == q && Val(v) == r else qhat == q + 1 && Val(v) == r - d + Pow(n + 1)
  {
    hide Mul, Val, Pow;
    DigitTimes(qhat, d, n);
    MulAdd(d, q, 1);
    MulUnit(d);
    MulComm(q, d);
    MulComm(q + 1, d);
    WindowAfter(w, v, n, k, Mul(qhat, d));
  }

  lemma DigitTimes(q: Word, d: nat, n: nat)
    requires d < Pow(n)
    ensures 0 <= Mul(q, d) < Pow(n + 1)
  {
    hide Mul, Pow;
    PowNext(n);
    MulComm(q, d);
    MulMono(d, 0, q);
    MulMono(d, q, 0xFFFF_FFFF);
    MulComm(d, 0xFFFF_FFFF);
    ConstMul(0xFFFF_FFFF, d);
    MulUnit(d);
  }

  /** The digit at `j` of the dividend is the word at `j`. */
  lemma DigitWord(s: seq<Word>, j: nat)
    requires j < |s|
    ensures WordOf(Val(s), j) == s[j]
  {
    hide Val, Pow;
    ValDivMod(s, j);
    ValCons(s, j);
    LowWord(s[j], Val(s[j + 1..]));
  }

  lemma LowWord(x: Word, y: nat)
    ensures (x + 0x1_0000_0000 * y) % 0x1_0000_0000 == x
  {
  }

  /** One exact step keeps the account of quotient and remainder. */
  lemma ExactStep(n: nat, s: seq<Word>, s': seq<Word>, d: seq<Word>, digits: seq<Word>, j: nat, qhat: Word, k: Word)
    requires |d| >= 2 && Normalized(Val(d), |d|) && j + |d| < |s| == |s'|
    requires s[j] == WordOf(n, j) && Val(d) > 0
    requires SoFar(n, Val(d), s[j + 1..], digits, j + 1)
    requires Val(s'[j..j + |d|]) + Mul(qhat, Val(d)) == Val(s[j..j + |d|]) + Mul(Pow(|d|), k)
    requires s'[j + |d|] == (s[j + |d|] as int - k as int) % 0x1_0000_0000
    requires s'[j + |d| + 1..] == s[j + |d| + 1..]
    requires qhat == TrueDigit(n, Val(d), j)
    ensures SoFar(n, Val(d), s'[j..], [qhat] + digits, j)
  {
    hide Mul, Val, Pow, Quotient, Remainder, WordOf, TrueDigit, Window, Normalized;
    var m := |d|;
    Subtracted(n, s, s', d, digits, j, qhat, k);
    RepairedStep(n, s', d, s[j + 1..], digits, j, qhat);
  }

  /** A digit too great, now or earlier, makes the quotient too great for good. */
  lemma TooGreat(n: nat, d: nat, digits: seq<Word>, j: nat, q: Word)
    requires d > 0
    requires Val(digits) > Quotient(n, d, j + 1) || (Val(digits) == Quotient(n, d, j + 1) && q > TrueDigit(n, d, j))
    ensures Val([q] + digits) > Quotient(n, d, j)
  {
    hide *;
    NextDigit(n, d, j);
    ValCons([q] + digits, 0);
    assert ([q] + digits)[0..] == [q] + digits && ([q] + digits)[1..] == digits;
  }

  lemma RunStep(n: nat, d: nat, words: nat, j: nat, m: nat)
    requires Normalized(d, words) && j < m
    ensures RunExact(n, d, words, j, m) <==> RunExact(n, d, words, j + 1, m) && StepExact(n, d, words, j)
  {
    hide StepExact, Normalized;
  }

  lemma EmptySoFar(s: seq<Word>, d: nat, m: nat)
    requires m <= |s| && Val(s[m..]) < d
    ensures SoFar(Val(s), d, s[m..], [], m)
  {
    hide Mul, Pow;
    ValDivMod(s, m);
    MulUnit(d);
    DivModUnique(Val(s[m..]), d, 0, Val(s[m..]));
  }

  lemma DivisorTop(d: seq<Word>)
    requires |d| >= 2 && Normalized(Val(d), |d|)
    ensures d[|d| - 1] >= 0x8000_0000
  {
    hide Mul, Pow, Val;
    NormalizedTop(Val(d), |d|);
    Padded([], seq(|d| + 1, _ => 0));
    ValOne(0);
    TopWords(seq(|d| + 1, _ => 0), d);
  }

  /** The C loop as it stands.  It makes as many digits as the dividend has words more than the divisor
      and leaves the rest of the quotient alone; the dividend begins below the divisor where its
      highest words, as many as the divisor has, are below it.  The difference `t` of line 717 is computed
      on 32 bits before it is widened, so it is never negative and the add-back of lines 720-732 never
      happens. */
  method DivideHelper(dividend: array<Word>, divisor: array<Word>, quotient: array<Word>)
    requires divisor.Length >= 2 && Normalized(Val(divisor[..]), divisor.Length) && Val(divisor[..]) > 0
    requires divisor.Length <= dividend.Length <= quotient.Length + divisor.Length
    requires dividend != divisor && dividend != quotient && divisor != quotient
    modifies dividend, quotient
    ensures quotient[dividend.Length - divisor.Length..] == old(quotient[dividend.Length - divisor.Length..])
    ensures var m, n, d := dividend.Length - divisor.Length, Val(old(dividend[..])), Val(divisor[..]);
      Val(old(dividend[dividend.Length - divisor.Length..])) < d ==>
        if RunExact(n, d, divisor.Length, 0, m) then
          Val(quotient[..m]) == n / d && Val(dividend[..]) == n % d
        else
          Val(quotient[..m]) > n / d
    ensures dividend.Length == divisor.Length ==> dividend[..] == old(dividend[..])
  {
    hide *;
    var words, m := divisor.Length, dividend.Length - divisor.Length;
    ghost var was, ds, above := dividend[..], divisor[..], quotient[m..];
    ghost var n, d := Val(was), Val(ds);
    ghost var fits := Val(was[m..]) < d;
    DivisorTop(ds);
    var h1, h2 := divisor[words - 1], divisor[words - 2];
    if fits {
      EmptySoFar(was, d, m);
      NoRun(n, d, words, m);
    }
    var j := m;
    assert quotient[m..m] == [];
    while j > 0
      invariant 0 <= j <= m && divisor[..] == ds && quotient[m..] == above
      invariant forall k | 0 <= k < j :: dividend[k] == was[k]
      invariant m == 0 ==> dividend[..] == was
      invariant fits && RunExact(n, d, words, j, m) ==> SoFar(n, d, dividend[j..], quotient[j..m], j)
      invariant fits && !RunExact(n, d, words, j, m) ==> Val(quotient[j..m]) > Quotient(n, d, j)
    {
      j := j - 1;
      ghost var s, digits := dividend[..], quotient[j + 1..m];
      assert s[j + 1..] == dividend[j + 1..];
      var qhat := EstimateDigit(dividend[j + words], dividend[j + words - 1], dividend[j + words - 2], h1, h2);
      var k := MultiplySubtract(dividend, j, divisor, qhat);
      var t := (dividend[j + words] as int - k as int) % 0x1_0000_0000;
      dividend[j + words] := t;
      assert t >= 0;
      quotient[j] := qhat % 0x1_0000_0000;
      assert quotient[j + 1..m] == digits && quotient[m..] == above;
      assert quotient[j..m] == [quotient[j]] + digits;
      DigitWord(was, j);
      if fits {
        HelperStep(n, s, dividend[..], ds, digits, j, m, qhat, k);
      }
    }
    assert dividend[0..] == dividend[..] && quotient[0..m] == quotient[..m];
    QuotientAll(n, d);
    FromSoFar(n, d, dividend[..], quotient[..m]);
  }

  lemma NoRun(n: nat, d: nat, words: nat, m: nat)
    requires Normalized(d, words)
    ensures RunExact(n, d, words, m, m)
  {
  }

  lemma FromSoFar(n: nat, d: nat, rest: seq<Word>, digits: seq<Word>)
    requires d > 0
    ensures SoFar(n, d, rest, digits, 0) ==> Val(digits) == n / d && Val(rest) == n % d
  {
    QuotientAll(n, d);
  }

  lemma HelperStep(n: nat, s: seq<Word>, s': seq<Word>, d: seq<Word>, digits: seq<Word>, j: nat, m: nat, qhat: nat, k: Word)
    requires |d| >= 2 && Normalized(Val(d), |d|) && j + |d| < |s| == |s'| && j < m && Val(d) > 0
    requires s[j] == WordOf(n, j) && d[|d| - 1] >= 0x8000_0000
    requires s[j + |d|] <= d[|d| - 1] ==> qhat == Capped(Pair(Pair(s[j + |d|], s[j + |d| - 1]), s[j + |d| - 2]), Pair(d[|d| - 1], d[|d| - 2]))
    requires qhat < 0x1_0000_0000 ==> Val(s'[j..j + |d|]) + Mul(qhat, Val(d)) == Val(s[j..j + |d|]) + Mul(Pow(|d|), k)
    requires s'[j + |d|] == (s[j + |d|] as int - k as int) % 0x1_0000_0000
    requires s'[j + |d| + 1..] == s[j + |d| + 1..]
    requires if RunExact(n, Val(d), |d|, j + 1, m) then SoFar(n, Val(d), s[j + 1..], digits, j + 1) else Val(digits) > Quotient(n, Val(d), j + 1)
    ensures if RunExact(n, Val(d), |d|, j, m) then SoFar(n, Val(d), s'[j..], [qhat % 0x1_0000_0000] + digits, j) else Val([qhat % 0x1_0000_0000] + digits) > Quotient(n, Val(d), j)
  {
    hide *;
    RunStep(n, Val(d), |d|, j, m);
    if RunExact(n, Val(d), |d|, j + 1, m) {
      IsEstimate(n, s, d, digits, j, qhat);
      ExactDigit(n, Val(d), |d|, j);
      if StepExact(n, Val(d), |d|, j) {
        ExactStep(n, s, s', d, digits, j, qhat, k);
      } else {
        SoFarDigits(n, Val(d), s[j + 1..], digits, j + 1);
        TooGreat(n, Val(d), digits, j, qhat);
      }
    } else {
      TooGreat(n, Val(d), digits, j, qhat % 0x1_0000_0000);
    }
  }

  lemma SoFarDigits(n: nat, d: nat, rest: seq<Word>, digits: seq<Word>, i: nat)
    requires d > 0 && SoFar(n, d, rest, digits, i)
    ensures Val(digits) == Quotient(n, d, i) && Val(rest) == Remainder(n, d, i)
  {
  }

  lemma PairPositive(hi: nat, lo: nat)
    requires hi > 0
    ensures Pair(hi, lo) > 0
  {
  }

  lemma TopOfWindow(n: nat, s: seq<Word>, d: seq<Word>, digits: seq<Word>, j: nat)
    requires |d| >= 2 && Normalized(Val(d), |d|) && j + |d| < |s| && Val(d) > 0
    requires s[j] == WordOf(n, j) && SoFar(n, Val(d), s[j + 1..], digits, j + 1)
    ensures s[j + |d|] <= d[|d| - 1]
  {
    hide Mul, Val, Pow, Quotient, Remainder, WordOf, TrueDigit, Window;
    NextDigit(n, Val(d), j);
    WindowWords(n, s, d, j);
    TopWords(s[j..j + |d| + 1], d);
  }

  lemma IsEstimate(n: nat, s: seq<Word>, d: seq<Word>, digits: seq<Word>, j: nat, qhat: nat)
    requires |d| >= 2 && Normalized(Val(d), |d|) && j + |d| < |s| && Val(d) > 0
    requires s[j] == WordOf(n, j) && d[|d| - 1] >= 0x8000_0000
    requires s[j + |d|] <= d[|d| - 1] ==> qhat == Capped(Pair(Pair(s[j + |d|], s[j + |d| - 1]), s[j + |d| - 2]), Pair(d[|d| - 1], d[|d| - 2]))
    requires SoFar(n, Val(d), s[j + 1..], digits, j + 1)
    ensures Val(d) >= Pow(|d| - 2) && qhat == Estimate(Window(n, Val(d), j), Val(d), |d|)
  {
    hide Mul, Val, Pow, Capped, Quotient, Remainder, WordOf, TrueDigit, Window, Estimate;
    TopOfWindow(n, s, d, digits, j);
    WindowWords(n, s, d, j);
    EstimateFromWords(s[j..j + |d| + 1], d);
  }

  // ---- the step the comment of the C code describes

  /** The add-back loop with the carry added, not subtracted. */
  method AddBack(dividend: array<Word>, j: nat, divisor: array<Word>) returns (k: Word)
    requires j + divisor.Length < dividend.Length && dividend != divisor
    modifies dividend
    ensures k <= 1
    ensures forall i | 0 <= i < dividend.Length && !(j <= i < j + divisor.Length) :: dividend[i] == old(dividend[i])
    ensures Val(dividend[j..j + divisor.Length]) + Mul(Pow(divisor.Length), k) == Val(old(dividend[j..j + divisor.Length])) + Val(divisor[..])
  {
    hide Mul, Val, Pow;
    ghost var was := dividend[..];
    k := 0;
    var i := 0;
    ValOne(0);
    MulUnit(Pow(0));
    assert dividend[j..j] == was[j..j] == divisor[..0] == [];
    while i < divisor.Length
      invariant 0 <= i <= divisor.Length && k <= 1
      invariant forall m | 0 <= m < dividend.Length && !(j <= m < j + i) :: dividend[m] == was[m]
      invariant Val(dividend[j..j + i]) + Mul(Pow(i), k) == Val(was[j..j + i]) + Val(divisor[..i])
    {
      ghost var low, c := dividend[j..j + i], k;
      var t: int := dividend[i + j];
      t := t + divisor[i] + k;
      dividend[i + j] := t % 0x1_0000_0000;
      k := t / 0x1_0000_0000;
      assert forall m | 0 <= m < i :: dividend[j..j + divisor.Length][m] == low[m];
      assert dividend[j..j + divisor.Length][..i] == low;
      assert dividend[j..j + divisor.Length][..i + 1] == dividend[j..j + i + 1];
      assert was[j..j + divisor.Length][..i] == was[j..j + i] && was[j..j + divisor.Length][..i + 1] == was[j..j + i + 1];
      AddStep(dividend[j..j + divisor.Length], divisor[..], was[j..j + divisor.Length], i, low, c, k);
      i := i + 1;
    }
    assert divisor[..i] == divisor[..];
  }

  /** One turn of the repaired loop: digit `j`, and its remainder left in the dividend. */
  method RepairedDigit(dividend: array<Word>, divisor: array<Word>, j: nat, ghost n: nat, ghost digits: seq<Word>) returns (q: Word)
    requires divisor.Length >= 2 && Normalized(Val(divisor[..]), divisor.Length) && Val(divisor[..]) > 0
    requires j + divisor.Length < dividend.Length && dividend != divisor
    requires dividend[j] == WordOf(n, j)
    requires SoFar(n, Val(divisor[..]), dividend[j + 1..], digits, j + 1)
    modifies dividend
    ensures forall i | 0 <= i < j :: dividend[i] == old(dividend[i])
    ensures SoFar(n, Val(divisor[..]), dividend[j..], [q] + digits, j)
  {
    hide *;
    var words := divisor.Length;
    ghost var s, d := dividend[..], divisor[..];
    DivisorTop(d);
    assert s[j + 1..] == dividend[j + 1..];
    EstimateInWindow(n, s, d, digits, j);
    var qhat := EstimateDigit(dividend[j + words], dividend[j + words - 1], dividend[j + words - 2], divisor[words - 1], divisor[words - 2]);
    var k := MultiplySubtract(dividend, j, divisor, qhat);
    var t := dividend[j + words] as int - k as int;
    dividend[j + words] := t % 0x1_0000_0000;
    ghost var s1 := dividend[..];
    Subtracted(n, s, s1, d, digits, j, qhat, k);
    if t < 0 {
      qhat := qhat - 1;
      var c := AddBack(dividend, j, divisor);
      dividend[j + words] := (dividend[j + words] as int + c as int) % 0x1_0000_0000;
      ghost var s2 := dividend[..];
      assert s2[j + words + 1..] == s1[j + words + 1..];
      AddedBack(n, s1, s2, d, j, c);
    }
    q := qhat;
    RepairedStep(n, dividend[..], d, s[j + 1..], digits, j, q);
    assert dividend[j..] == dividend[..][j..];
  }

  /** The loop with a signed difference and the carry added back: right for every dividend. */
  method DivideHelperRepaired(dividend: array<Word>, divisor: array<Word>, quotient: array<Word>)
    requires divisor.Length >= 2 && Normalized(Val(divisor[..]), divisor.Length) && Val(divisor[..]) > 0
    requires dividend.Length == quotient.Length + divisor.Length
    requires dividend != divisor && dividend != quotient && divisor != quotient
    requires Val(dividend[quotient.Length..]) < Val(divisor[..])
    modifies dividend, quotient
    ensures var n, d := Val(old(dividend[..])), Val(divisor[..]); Val(quotient[..]) == n / d && Val(dividend[..]) == n % d
  {
    hide Mul, Val, Pow, Normalized, SoFar, Quotient, Remainder, WordOf, TrueDigit;
    ghost var was, ds := dividend[..], divisor[..];
    ghost var n, d := Val(was), Val(ds);
    var j := quotient.Length;
    EmptySoFar(was, d, j);
    assert quotient[j..] == [];
    while j > 0
      invariant 0 <= j <= quotient.Length && divisor[..] == ds
      invariant forall k | 0 <= k < j :: dividend[k] == was[k]
      invariant SoFar(n, d, dividend[j..], quotient[j..], j)
    {
      j := j - 1;
      ghost var digits := quotient[j + 1..];
      DigitWord(was, j);
      var q := RepairedDigit(dividend, divisor, j, n, digits);
      quotient[j] := q;
      assert quotient[j..] == [q] + digits;
    }
    assert dividend[0..] == dividend[..] && quotient[0..] == quotient[..];
    FromSoFar(n, d, dividend[..], quotient[..]);
  }

  lemma EstimateInWindow(n: nat, s: seq<Word>, d: seq<Word>, digits: seq<Word>, j: nat)
    requires |d| >= 2 && Normalized(Val(d), |d|) && j + |d| < |s| && Val(d) > 0
    requires s[j] == WordOf(n, j) && SoFar(n, Val(d), s[j + 1..], digits, j + 1)
    ensures s[j + |d|] <= d[|d| - 1] && Pair(d[|d| - 1], d[|d| - 2]) > 0
    ensures var q := TrueDigit(n, Val(d), j);
      q <= Capped(Pair(Pair(s[j + |d|], s[j + |d| - 1]), s[j + |d| - 2]), Pair(d[|d| - 1], d[|d| - 2])) <= q + 1
  {
    hide *;
    DivisorTop(d);
    PairPositive(d[|d| - 1], d[|d| - 2]);
    TopOfWindow(n, s, d, digits, j);
    IsEstimate(n, s, d, digits, j, Capped(Pair(Pair(s[j + |d|], s[j + |d| - 1]), s[j + |d| - 2]), Pair(d[|d| - 1], d[|d| - 2])));
    ExactDigit(n, Val(d), |d|, j);
  }

  /** After the subtraction the window holds the remainder of its division, or, when the estimate
      was one too high, that remainder less the divisor, modulo `Pow` of its length. */
  lemma Subtracted(n: nat, s: seq<Word>, s': seq<Word>, d: seq<Word>, digits: seq<Word>, j: nat, qhat: Word, k: Word)
    requires |d| >= 2 && Normalized(Val(d), |d|) && j + |d| < |s| == |s'| && Val(d) > 0
    requires s[j] == WordOf(n, j) && SoFar(n, Val(d), s[j + 1..], digits, j + 1)
    requires var q := TrueDigit(n, Val(d), j); q <= qhat <= q + 1
    requires Val(s'[j..j + |d|]) + Mul(qhat, Val(d)) == Val(s[j..j + |d|]) + Mul(Pow(|d|), k)
    requires s'[j + |d|] == (s[j + |d|] as int - k as int) % 0x1_0000_0000
    requires s'[j + |d| + 1..] == s[j + |d| + 1..]
    ensures Val(s'[j + |d| + 1..]) == 0
    ensures var q, r := TrueDigit(n, Val(d), j), Remainder(n, Val(d), j);
      r < Val(d) && if s[j + |d|] >= k then
        qhat == q && Val(s'[j..j + |d| + 1]) == r
      else
        qhat == q + 1 && Val(s'[j..j + |d| + 1]) == r - Val(d) + Pow(|d| + 1)
  {
    hide *;
    var m := |d|;
    var v, w, w' := Val(d), s[j..j + m + 1], s'[j..j + m + 1];
    var q, r := TrueDigit(n, v, j), Remainder(n, v, j);
    SoFarDigits(n, v, s[j + 1..], digits, j + 1);
    WindowWords(n, s, d, j);
    WindowParts(n, v, j);
    Front(s, j, m);
    Front(s', j, m);
    ValBound(d);
    assert Val(w) == Mul(q, v) + r && r < v < Pow(m);
    assert Val(w'[..m]) + Mul(qhat, v) == Val(w[..m]) + Mul(Pow(m), k);
    SubtractedWindow(w, w', m, v, q, r, qhat, k);
  }

  lemma WindowParts(n: nat, d: nat, j: nat)
    requires d > 0
    ensures Window(n, d, j) == Mul(TrueDigit(n, d, j), d) + Remainder(n, d, j) && Remainder(n, d, j) < d && TrueDigit(n, d, j) < 0x1_0000_0000
  {
    hide *;
    NextDigit(n, d, j);
  }

  lemma AddedBack(n: nat, s: seq<Word>, s': seq<Word>, d: seq<Word>, j: nat, c: Word)
    requires |d| >= 2 && Normalized(Val(d), |d|) && j + |d| < |s| == |s'| && Val(d) > 0 && c <= 1
    requires Val(s'[j..j + |d|]) + Mul(Pow(|d|), c) == Val(s[j..j + |d|]) + Val(d)
    requires s'[j + |d|] == (s[j + |d|] as int + c as int) % 0x1_0000_0000
    requires s'[j + |d| + 1..] == s[j + |d| + 1..] && Val(s[j + |d| + 1..]) == 0
    requires Remainder(n, Val(d), j) < Val(d)
    requires Val(s[j..j + |d| + 1]) == Remainder(n, Val(d), j) - Val(d) + Pow(|d| + 1)
    ensures Val(s'[j..j + |d| + 1]) == Remainder(n, Val(d), j) && Val(s'[j + |d| + 1..]) == 0
  {
    hide *;
    var m := |d|;
    Front(s, j, m);
    Front(s', j, m);
    Restored(s[j..j + m + 1], s'[j..j + m + 1], m, Val(d), Remainder(n, Val(d), j), c);
  }

  lemma Restored(v: seq<Word>, v': seq<Word>, m: nat, d: nat, r: nat, c: Word)
    requires |v| == |v'| == m + 1 && c <= 1
    requires Val(v'[..m]) + Mul(Pow(m), c) == Val(v[..m]) + d
    requires v'[m] == (v[m] as int + c as int) % 0x1_0000_0000
    requires Val(v) == r - d + Pow(m + 1) && r < d
    ensures Val(v') == r
  {
    hide Mul, Val, Pow;
    ValUpTo(v, m);
    ValUpTo(v', m);
    assert v[..m + 1] == v && v'[..m + 1] == v';
    PowNext(m);
    var p, x := Pow(m), v[m] as int + c as int;
    MulAdd(p, v[m], c);
    ValBound(v');
    assert Val(v'[..m]) + Mul(p, x) == r + 0x1_0000_0000 * p;
    if x >= 0x1_0000_0000 {
      MulAdd(p, x, 0x1_0000_0000);
      MulBase(p, 1);
      MulUnit(p);
    }
  }

  lemma RepairedStep(n: nat, s: seq<Word>, d: seq<Word>, rest: seq<Word>, digits: seq<Word>, j: nat, q: Word)
    requires Val(d) > 0 && j + |d| < |s|
    requires Val(s[j..j + |d| + 1]) == Remainder(n, Val(d), j) && Val(s[j + |d| + 1..]) == 0
    requires q == TrueDigit(n, Val(d), j) && SoFar(n, Val(d), rest, digits, j + 1)
    ensures SoFar(n, Val(d), s[j..], [q] + digits, j)
  {
    hide Mul, Val, Pow, Quotient, Remainder, WordOf, TrueDigit, Window;
    NextDigit(n, Val(d), j);
    var r, m := s[j..], |d| + 1;
    ValSplit(r, m);
    assert r[..m] == s[j..j + m] && r[m..] == s[j + m..];
    MulUnit(Pow(m));
    ValCons([q] + digits, 0);
    assert ([q] + digits)[0..] == [q] + digits && ([q] + digits)[1..] == digits;
  }
}
