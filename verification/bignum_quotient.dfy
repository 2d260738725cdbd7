/** `BigNum_Divide`: the cases around the long division, and the shift that normalizes it. */
module BigNumQuotient {
  import opened Words
  import opened Bits
  import opened BigNumBasic
  import opened BigNumShift
  import opened BigNumMultiply
  import opened KnuthDigit
  import opened BigNumDivide

  // ---- the shift, as a function of the divisor

  /** The words a number needs. */
  function WordCount(v: nat): nat {
    if v == 0 then 0 else 1 + WordCount(v / 0x1_0000_0000)
  }

  lemma {:induction false} WordCountIs(v: nat, k: nat)
    requires v < Pow(k) && (k > 0 ==> Pow(k - 1) <= v)
    ensures WordCount(v) == k
  {
    if k > 0 {
      assert Pow(k) == 0x1_0000_0000 * Pow(k - 1);
      if k > 1 {
        assert Pow(k - 1) == 0x1_0000_0000 * Pow(k - 2);
      }
      WordCountIs(v / 0x1_0000_0000, k - 1);
    }
  }

  lemma {:induction false} WordCountBounds(v: nat)
    ensures v < Pow(WordCount(v)) && (v > 0 ==> Pow(WordCount(v) - 1) <= v)
  {
    if v > 0 {
      WordCountBounds(v / 0x1_0000_0000);
    }
  }

  /** How often `d` is doubled until it reaches half of `limit`. */
  function NormalShift(d: nat, limit: nat): nat
    requires d > 0
    decreases limit - d
  {
    if 2 * d >= limit then 0 else 1 + NormalShift(2 * d, limit)
  }

  lemma MulTwo(d: int, p: int)
    ensures Mul(d, 2 * p) == Mul(2 * d, p) == 2 * Mul(d, p)
  {
  }

  lemma {:induction false} NormalShiftIs(d: nat, limit: nat, s: nat)
    requires d > 0 && Mul(d, Pow2(s)) < limit <= 2 * Mul(d, Pow2(s))
    ensures NormalShift(d, limit) == s
    decreases s
  {
    hide Mul;
    MulUnit(d);
    if s > 0 {
      assert Pow2(s) == 2 * Pow2(s - 1);
      MulTwo(d, Pow2(s - 1));
      NormalShiftIs(2 * d, limit, s - 1);
      MulMono(2 * d, 1, Pow2(s - 1));
      MulUnit(2 * d);
    } else {
      assert Pow2(0) == 1;
    }
  }

  lemma {:induction false} NormalShiftBounds(d: nat, limit: nat)
    requires 0 < d < limit
    ensures Mul(d, Pow2(NormalShift(d, limit))) < limit <= 2 * Mul(d, Pow2(NormalShift(d, limit)))
    decreases limit - d
  {
    hide Mul;
    MulUnit(d);
    if 2 * d < limit {
      NormalShiftBounds(2 * d, limit);
      MulTwo(d, Pow2(NormalShift(2 * d, limit)));
    } else {
      assert Pow2(0) == 1;
    }
  }

  /** A number times the power of two that normalizes `d`. */
  function Scaled(v: nat, d: nat): nat
    requires d > 0
  {
    ScaledNatural(v, Pow2(NormalShift(d, Pow(WordCount(d)))));
    Mul(v, Pow2(NormalShift(d, Pow(WordCount(d)))))
  }

  lemma ScaledNatural(v: nat, p: nat)
    ensures Mul(v, p) >= 0
  {
  }

  lemma ScaledNormalized(d: nat)
    requires d >= 0x1_0000_0000
    ensures WordCount(d) >= 2 && Normalized(Scaled(d, d), WordCount(d))
  {
    hide Mul;
    WordCountBounds(d);
    PowOne();
    NormalShiftBounds(d, Pow(WordCount(d)));
    if WordCount(d) < 2 {
      PowMono(WordCount(d), 1);
    }
  }

  /** Whether the division of `n` by `d` comes out right for a dividend of `len` words: no estimate of
      the long division, run on both numbers times the normalizing power of two, overshoots. */
  predicate DivideExactFor(n: nat, d: nat, len: nat)
    requires d > 0 && len >= WordCount(n)
  {
    n <= d || d < 0x1_0000_0000 || LongExact(n, d, len)
  }

  predicate LongExact(n: nat, d: nat, len: nat)
    requires n > d >= 0x1_0000_0000 && len >= WordCount(n)
  {
    ScaledNormalized(d);
    WordCountMono(d, n);
    RunExact(Scaled(n, d), Scaled(d, d), WordCount(d), 0, len + 1 - WordCount(d))
  }

  /** ... for a dividend without leading zero words. */
  predicate DivideExact(n: nat, d: nat)
    requires d > 0
  {
    DivideExactFor(n, d, WordCount(n))
  }

  /** Whether the shifted dividend has at least the words the dividend had.  That is so without leading
      zero words, and with one that the shift fills. */
  predicate LengthOk(n: nat, d: nat, len: nat)
    requires d > 0
  {
    n <= d || d < 0x1_0000_0000 || WordCount(Scaled(n, d)) >= len
  }

  /** How many digits the loop makes: one for each word of the quotient, whose length is reckoned from
      the dividend, but fewer where the shifted dividend is shorter than that. */
  function Made(n: nat, d: nat, len: nat): (k: nat)
    requires n > d >= 0x1_0000_0000 && len >= WordCount(n)
    ensures k <= len + 1 - WordCount(d)
  {
    WordCountMono(d, n);
    ScaledCount(n, d);
    (if LengthOk(n, d, len) then len + 1 else WordCount(Scaled(n, d))) - WordCount(d)
  }

  /** What the memory for the quotient held in the words `low` up to `high`. */
  function HeldWords(held: nat -> Word, low: nat, high: nat): (s: seq<Word>)
    requires low <= high
    ensures |s| == high - low
  {
    seq(high - low, i requires 0 <= i => held(low + i))
  }

  /** What the long division gives: digits in the low words, above them what the memory held.  The digits
      are those of the quotient where that has no more and no estimate overshoots. */
  predicate LongResult(n: nat, d: nat, len: nat, held: nat -> Word, q: nat, r: nat)
    requires n > d >= 0x1_0000_0000 && len >= WordCount(n)
  {
    ScaledNormalized(d);
    var k := Made(n, d, len);
    && q / Pow(k) == Val(HeldWords(held, k, len + 1 - WordCount(d)))
    && (n / d < Pow(k) ==>
          if RunExact(Scaled(n, d), Scaled(d, d), WordCount(d), 0, k) then q % Pow(k) == n / d && r == n % d
          else q % Pow(k) > n / d)
    && (k == 0 ==> r == n)
  }

  /** What `BigNum_Divide` gives for a dividend of `len` words. */
  predicate DivideResult(n: nat, d: nat, len: nat, held: nat -> Word, q: nat, r: nat)
    requires d > 0 && len >= WordCount(n)
  {
    if n <= d || d < 0x1_0000_0000 then q == n / d && r == n % d else LongResult(n, d, len, held, q, r)
  }

  lemma WordCountMono(d: nat, n: nat)
    requires d <= n
    ensures WordCount(d) <= WordCount(n)
  {
    hide WordCount, Pow;
    WordCountBounds(d);
    WordCountBounds(n);
    if WordCount(n) < WordCount(d) {
      PowMono(WordCount(n), WordCount(d) - 1);
      WordCountZero(d);
    }
  }

  lemma WordCountZero(v: nat)
    ensures WordCount(v) == 0 <==> v == 0
  {
  }

  /** No estimate overshoots with a divisor below 2^64. */
  lemma SmallDivisorExact(n: nat, d: nat, len: nat)
    requires 0 < d < 0x1_0000_0000_0000_0000 && len >= WordCount(n)
    ensures DivideExactFor(n, d, len)
  {
    hide StepExact, Normalized, Scaled;
    if n > d && d >= 0x1_0000_0000 {
      ScaledNormalized(d);
      PowOne();
      PowNext(1);
      WordCountIs(d, 2);
      WordCountMono(d, n);
      forall j | 0 <= j < len + 1 - WordCount(d)
        ensures StepExact(Scaled(n, d), Scaled(d, d), 2, j)
      {
        TwoWordsExact(Scaled(n, d), Scaled(d, d), j);
      }
    }
  }

  // ---- the method

  /** The test of one bit of a word, `x` being the mask. */
  predicate BitSet(w: Word, x: nat)
    requires x > 0
  {
    (w / x) % 2 == 1
  }

  /** The leading zero bits of a word, found by moving a mask down. */
  method LeadingZeros(w: Word) returns (shift: nat)
    requires w != 0
    ensures shift < 32 && 0x8000_0000 <= Mul(w, Pow2(shift)) && Mul(w as int + 1, Pow2(shift)) <= 0x1_0000_0000
  {
    hide Mul, Pow2, BitSet;
    var x: nat := 0x8000_0000;
    shift := 0;
    MulUnit(x);
    HighBit();
    while !BitSet(w, x)
      invariant x > 0 && shift < 32 && w < 2 * x && Mul(x, Pow2(shift)) == 0x8000_0000
      invariant x == Pow2(31 - shift)
      decreases x
    {
      HalfMask(x, w, shift);
      x := x / 2;
      shift := shift + 1;
    }
    MaskFound(x, w, Pow2(shift));
  }

  lemma MaskFound(x: nat, w: Word, p: nat)
    requires x > 0 && w < 2 * x && BitSet(w, x) && Mul(x, p) == 0x8000_0000
    ensures 0x8000_0000 <= Mul(w, p) && Mul(w as int + 1, p) <= 0x1_0000_0000
  {
    if w < x {
      DivModUnique(w, x, 0, w) by {
        MulUnit(x);
      }
    }
    hide Mul, BitSet;
    MulMono(p, x, w);
    MulMono(p, w as int + 1, 2 * x);
    MulTwo(x, p);
    MulComm(p, x);
    MulComm(p, w);
    MulComm(p, w as int + 1);
    MulComm(p, 2 * x);
  }

  lemma HighBit()
    ensures Pow2(31) == 0x8000_0000 && Pow2(0) == 1
  {
    Pow2Words(1);
    PowOne();
    assert Pow2(32) == 2 * Pow2(31);
  }

  lemma HalfMask(x: nat, w: Word, shift: nat)
    requires w != 0 && 0 < x && w < 2 * x && !BitSet(w, x) && shift < 32 && x == Pow2(31 - shift)
    requires Mul(x, Pow2(shift)) == 0x8000_0000
    ensures shift < 31 && 0 < x / 2 < x && x / 2 == Pow2(30 - shift) && w < 2 * (x / 2)
    ensures Mul(x / 2, Pow2(shift + 1)) == 0x8000_0000
  {
    assert Pow2(0) == 1;
    NotSet(w, x);
    hide BitSet;
    assert x == 2 * Pow2(30 - shift);
    assert Pow2(shift + 1) == 2 * Pow2(shift);
    MulTwo(x / 2, Pow2(shift));
  }

  lemma NotSet(w: Word, x: nat)
    requires w < 2 * x && 0 < x && !BitSet(w, x)
    ensures w < x
  {
    if w >= x {
      MulUnit(x);
      DivModUnique(w, x, 1, w - x);
    }
  }

  /** With the top word's leading zero bits shifted out the divisor is normalized. */
  lemma ShiftNormalizes(d: seq<Word>, shift: nat)
    requires |d| >= 2 && 0x8000_0000 <= Mul(d[|d| - 1], Pow2(shift)) && Mul(d[|d| - 1] as int + 1, Pow2(shift)) <= 0x1_0000_0000
    ensures Normalized(Mul(Val(d), Pow2(shift)), |d|)
    ensures Mul(Pow(|d| - 1), Pow2(shift)) <= Mul(Val(d), Pow2(shift))
  {
    hide Mul, Val, Pow, Pow2;
    var k, w: int, p := |d| - 1, d[|d| - 1], Pow2(shift);
    ValUpTo(d, k);
    assert d[..k + 1] == d;
    ValBound(d[..k]);
    PowNext(k);
    MulComm(Pow(k), w);
    MulComm(Pow(k), w + 1);
    MulAdd(Pow(k), w, 1);
    MulUnit(Pow(k));
    MulUnit(p);
    if w == 0 {
      assert false;
    }
    MulMono(Pow(k), 1, w);
    ScaleWord(Pow(k), w, p, Val(d));
  }

  lemma ScaleWord(b: nat, w: nat, p: nat, v: nat)
    requires b >= 1 && p >= 1 && w >= 1 && Mul(b, w) <= v < Mul(b, w + 1)
    requires 0x8000_0000 <= Mul(w, p) && Mul(w + 1, p) <= 0x1_0000_0000
    ensures 0x8000_0000 * b <= Mul(v, p) < 0x1_0000_0000 * b && Mul(b, p) <= Mul(v, p)
  {
    hide Mul;
    MulMono(p, Mul(b, w), v);
    MulStrict(p, v, Mul(b, w + 1));
    MulComm(p, v);
    MulComm(p, Mul(b, w));
    MulComm(p, Mul(b, w + 1));
    MulAssoc(b, w, p);
    MulAssoc(b, w + 1, p);
    MulMono(b, 0x8000_0000, Mul(w, p));
    MulMono(b, Mul(w + 1, p), 0x1_0000_0000);
    MulBase(b, 1);
    MulUnit(b);
    MulComm(b, 0x8000_0000);
    ConstMul(0x8000_0000, b);
    MulMono(b, 1, w);
    MulMono(p, b, v);
    MulComm(p, b);
  }

  /** The length of a number without leading zero words. */
  lemma LengthIs(s: seq<Word>, k: nat)
    requires Stripped(s) && k >= 1 && Val(s) < Pow(k) && Pow(k - 1) <= Val(s)
    ensures |s| == k
  {
    hide Val, Pow;
    if |s| > k {
      TopWord(s);
      PowMono(k, |s| - 1);
    } else if |s| < k {
      ValBound(s);
      PowMono(|s|, k - 1);
    }
  }

  /** The shifted dividend needs no more than one word more. */
  lemma ShiftedDividend(n: seq<Word>, shift: nat, t: seq<Word>)
    requires Stripped(t) && Val(t) == Mul(Val(n), Pow2(shift)) && shift < 32
    ensures |t| <= |n| + 1
  {
    hide Mul, Val, Pow, Pow2;
    var p, l := Pow2(shift), |n|;
    ValBound(n);
    MulStrict(p, Val(n), Pow(l));
    MulComm(p, Val(n));
    MulComm(p, Pow(l));
    Pow2Below(shift);
    MulMono(Pow(l), p, 0x1_0000_0000);
    MulBase(Pow(l), 1);
    MulUnit(Pow(l));
    PowNext(l);
    if |t| > l + 1 {
      TopWord(t);
      PowMono(l + 1, |t| - 1);
    }
  }

  lemma Pow2Below(shift: nat)
    requires shift < 32
    ensures Pow2(shift) <= 0x1_0000_0000
  {
    hide Mul;
    Pow2Split(shift);
    MulMono(Pow2(shift), 1, Pow2(32 - shift));
    MulUnit(Pow2(shift));
  }

  /** A number is below a product when dividing by one factor gives less than the other. */
  lemma QuotientLess(n: nat, p: nat, d: nat)
    requires p >= 1
    ensures n / p < d <==> n < Mul(p, d)
  {
    DivMod(n, p);
    hide Mul;
    if n / p >= d {
      MulMono(p, d, n / p);
    } else {
      MulMono(p, n / p + 1, d);
      MulAdd(p, n / p, 1);
      MulUnit(p);
    }
  }

  lemma QuotientBound(n: nat, d: nat, a: nat, b: nat)
    requires n < Pow(a) && d >= Pow(b) && b <= a
    ensures n / d < Pow(a - b)
  {
    hide Mul, Pow;
    PowAdd(a - b, b);
    MulMono(Pow(a - b), Pow(b), d);
    MulComm(d, Pow(a - b));
    QuotientLess(n, d, Pow(a - b));
  }

  /** The words from `k` up are below the divisor just when the quotient needs no more than `k` words. */
  lemma FitsIs(t: seq<Word>, k: nat, d: nat)
    requires k <= |t| && d > 0
    ensures Val(t[k..]) < d <==> Val(t) / d < Pow(k)
  {
    hide Mul, Pow, Val;
    ValDivMod(t, k);
    QuotientLess(Val(t), Pow(k), d);
    QuotientLess(Val(t), d, Pow(k));
    MulComm(d, Pow(k));
  }

  /** Scaling both numbers keeps the quotient and scales the remainder. */
  lemma ScaleDivMod(n: nat, d: nat, p: nat)
    requires d > 0 && p > 0
    ensures Mul(d, p) > 0 && Mul(n, p) >= 0 && Mul(n, p) / Mul(d, p) == n / d && Mul(n, p) % Mul(d, p) == Mul(n % d, p)
    ensures Mul(n % d, p) / p == n % d
  {
    var q, r := n / d, n % d;
    DivMod(n, d);
    hide Mul;
    MulStrict(p, 0, d);
    MulUnit(p);
    MulMono(p, 0, n);
    MulAdd(p, Mul(d, q), r);
    MulAssoc(p, d, q);
    MulComm(p, d);
    MulComm(p, n);
    MulComm(p, r);
    MulMono(p, 0, r);
    MulStrict(p, r, d);
    DivModUnique(Mul(n, p), Mul(d, p), q, Mul(r, p));
    DivModUnique(Mul(r, p), p, r, 0);
  }

  /** The condition of `DivideHelper` is the condition on the numbers. */
  lemma ConditionIs(n: seq<Word>, d: nat, words: nat, shift: nat)
    requires Val(n) > d >= 0x1_0000_0000 && words >= 2
    requires Pow(words - 1) <= d < Pow(words) && Normalized(Mul(d, Pow2(shift)), words)
    ensures WordCount(d) == words <= WordCount(Val(n)) <= |n|
    ensures Scaled(Val(n), d) == Mul(Val(n), Pow2(shift)) && Scaled(d, d) == Mul(d, Pow2(shift))
    ensures LongExact(Val(n), d, |n|) == RunExact(Mul(Val(n), Pow2(shift)), Mul(d, Pow2(shift)), words, 0, |n| + 1 - words)
  {
    hide Mul, Pow, Pow2, Val, RunExact;
    WordCountIs(d, words);
    NormalShiftIs(d, Pow(words), shift);
    WordCountMono(d, Val(n));
    ValFits(n);
  }

  lemma ValFits(s: seq<Word>)
    ensures WordCount(Val(s)) <= |s|
  {
    hide WordCount, Pow, Val;
    ValBound(s);
    WordCountBounds(Val(s));
    WordCountZero(Val(s));
    if WordCount(Val(s)) > |s| {
      PowMono(|s|, WordCount(Val(s)) - 1);
    }
  }

  lemma StrippedCount(s: seq<Word>)
    requires Stripped(s) && Val(s) > 0
    ensures WordCount(Val(s)) == |s|
  {
    if |s| == 1 {
      assert s[1..] == [];
    }
    hide WordCount, Pow, Val;
    ValBound(s);
    PowOne();
    TopWord(s);
    WordCountIs(Val(s), |s|);
  }

  /** Scaling never takes words away. */
  lemma ScaledCount(n: nat, d: nat)
    requires d > 0
    ensures WordCount(Scaled(n, d)) >= WordCount(n)
  {
    hide WordCount, Mul, NormalShift;
    var p := Pow2(NormalShift(d, Pow(WordCount(d))));
    MulMono(n, 1, p);
    MulUnit(n);
    WordCountMono(n, Scaled(n, d));
  }

  /** ... and adds one at most, so that with two or more leading zero words the shifted dividend is
      shorter. */
  lemma TooManyZeros(n: nat, d: nat, len: nat)
    requires n > d >= 0x1_0000_0000 && len >= WordCount(n) + 2
    ensures !LengthOk(n, d, len)
  {
    hide WordCount, Mul, NormalShift, Pow;
    var w, p, x := WordCount(n), Pow2(NormalShift(d, Pow(WordCount(d)))), Scaled(n, d);
    ShiftBelowWord(d);
    WordCountBounds(n);
    WordCountBounds(x);
    MulMono(n, p, 0x1_0000_0000);
    MulBase(n, 1);
    MulUnit(n);
    PowNext(w);
    if WordCount(x) >= w + 2 {
      PowMono(w + 1, WordCount(x) - 1);
      WordCountZero(x);
    }
  }

  lemma ShiftBelowWord(d: nat)
    requires d > 0
    ensures Pow2(NormalShift(d, Pow(WordCount(d)))) < 0x1_0000_0000
  {
    hide WordCount, Mul, NormalShift, Pow, Pow2;
    var k, p := WordCount(d), Pow2(NormalShift(d, Pow(WordCount(d))));
    WordCountBounds(d);
    WordCountZero(d);
    NormalShiftBounds(d, Pow(k));
    PowNext(k - 1);
    if p >= 0x1_0000_0000 {
      MulMono(Pow(k - 1), 0x1_0000_0000, p);
      MulBase(Pow(k - 1), 1);
      MulUnit(Pow(k - 1));
      MulMono(p, Pow(k - 1), d);
      MulComm(p, d);
      MulComm(p, Pow(k - 1));
    }
  }

  /** Without leading zero words it is not, and the condition is the plain one. */
  lemma StrippedLengthOk(s: seq<Word>, d: nat)
    requires Stripped(s) && d > 0
    ensures |s| >= WordCount(Val(s)) && LengthOk(Val(s), d, |s|) && DivideExactFor(Val(s), d, |s|) == DivideExact(Val(s), d)
  {
    hide WordCount, Val, Stripped, LongExact, Scaled;
    ValFits(s);
    ScaledCount(Val(s), d);
    if Val(s) > d {
      StrippedCount(s);
    }
  }

  /** `LengthOk` compares the lengths of the dividend and of the shifted dividend. */
  lemma LengthOkIs(n: seq<Word>, d: nat, t: seq<Word>)
    requires Val(n) > d >= 0x1_0000_0000 && Stripped(t) && Val(t) == Scaled(Val(n), d)
    ensures LengthOk(Val(n), d, |n|) <==> |n| <= |t|
  {
    hide WordCount, Val, Scaled, Stripped;
    ScaledCount(Val(n), d);
    WordCountZero(Val(n));
    WordCountZero(Val(t));
    StrippedCount(t);
  }

  /** `held` is what was in the memory that the pool gives for the quotient. */
  method Divide(dividend: array<Word>, divisor: array<Word>, held: nat -> Word) returns (quotient: array<Word>, remainder: array<Word>)
    requires dividend.Length >= 1 && divisor.Length >= 1 && Val(divisor[..]) > 0
    ensures fresh(quotient) && fresh(remainder) && Stripped(quotient[..]) && Stripped(remainder[..])
    ensures dividend.Length >= WordCount(Val(dividend[..]))
    ensures DivideResult(Val(dividend[..]), Val(divisor[..]), dividend.Length, held, Val(quotient[..]), Val(remainder[..]))
  {
    hide Mul, Val, Pow, Pow2, Strip, Stripped, LongExact, LongResult, WordCount, Scaled;
    ghost var n, d := Val(dividend[..]), Val(divisor[..]);
    ValFits(dividend[..]);
    ValOne(0);
    ValOne(1);
    var x := Compare(divisor, dividend);
    SmallQuotient(n, d);
    if x == 1 {
      quotient := CreateFromInteger(0);
      remainder := CreateFromBigNum(dividend);
      OneWordStripped(quotient[..]);
    } else if x == 0 {
      quotient := CreateFromInteger(1);
      remainder := CreateFromInteger(0);
      OneWordStripped(quotient[..]);
      OneWordStripped(remainder[..]);
    } else {
      var index := Significant(divisor, 1);
      if index == 1 {
        var r;
        assert divisor[..1] == [divisor[0]];
        ValOne(divisor[0]);
        quotient, r := DivideByInteger(dividend, divisor[0]);
        remainder := CreateFromInteger(r);
        OneWordStripped(remainder[..]);
        ValOne(r);
      } else {
        quotient, remainder := DivideLong(dividend, divisor, index, held);
      }
    }
  }

  lemma AtLeastOneWord(s: seq<Word>)
    requires Stripped(s)
    ensures |s| >= 1
  {
  }

  lemma OneWordStripped(s: seq<Word>)
    requires |s| == 1
    ensures Stripped(s)
  {
  }

  lemma SmallQuotient(n: nat, d: nat)
    requires d > 0
    ensures n < d ==> n / d == 0 && n % d == n
    ensures n == d ==> n / d == 1 && n % d == 0
  {
    MulUnit(d);
    if n < d {
      DivModUnique(n, d, 0, n);
    } else if n == d {
      DivModUnique(n, d, 1, 0);
    }
  }

  /** `BigNum_Divide` from line 831 on; `index` is the length of the divisor without leading
      zero words. */
  method DivideLong(dividend: array<Word>, divisor: array<Word>, index: nat, held: nat -> Word) returns (quotient: array<Word>, remainder: array<Word>)
    requires dividend.Length >= 1 && 2 <= index <= divisor.Length && divisor[index - 1] != 0
    requires 0 < Val(divisor[..index]) == Val(divisor[..]) < Val(dividend[..])
    ensures fresh(quotient) && fresh(remainder) && Stripped(quotient[..]) && Stripped(remainder[..])
    ensures Val(divisor[..]) >= 0x1_0000_0000 && dividend.Length >= WordCount(Val(dividend[..]))
    ensures LongResult(Val(dividend[..]), Val(divisor[..]), dividend.Length, held, Val(quotient[..]), Val(remainder[..]))
  {
    hide *;
    ghost var n, d := Val(dividend[..]), Val(divisor[..]);
    var shift := LeadingZeros(divisor[index - 1]);
    ghost var p := Pow2(shift);
    var divisor2 := ShiftLeft(divisor, shift, 0);
    var temp := ShiftLeft(dividend, shift, 0);
    ShiftedSum(n, shift, 0);
    ShiftedSum(d, shift, 0);
    DivisorPrepared(divisor[..index], shift, divisor2[..]);
    DividendPrepared(dividend[..], d, index, shift, Val(divisor2[..]), temp[..]);
    var dividend2 := temp;
    if temp.Length == dividend.Length {
      dividend2 := PaddedCopy(temp, temp.Length + 1);
      Padded(temp[..], dividend2[..]);
    }
    var words := dividend.Length + 1 - divisor2.Length;
    var digits := MakeDigits(dividend2, divisor2, words, held);
    quotient := CreateFromBigNum(digits);
    remainder := ShiftRight(dividend2, shift);
    ScaleDivMod(n, d, p);
    ScaledBack(n, p);
    IsLongResult(n, d, dividend.Length, held, Val(quotient[..]), Val(remainder[..]));
  }

  /** The space for the quotient, and the digits made in it. */
  method MakeDigits(dividend: array<Word>, divisor: array<Word>, words: nat, held: nat -> Word) returns (digits: array<Word>)
    requires divisor.Length >= 2 && Normalized(Val(divisor[..]), divisor.Length) && Val(divisor[..]) > 0
    requires divisor.Length <= dividend.Length <= words + divisor.Length && dividend != divisor
    modifies dividend
    ensures fresh(digits) && digits.Length == words
    ensures var k, n, d, q := dividend.Length - divisor.Length, Val(old(dividend[..])), Val(divisor[..]), Val(digits[..]);
      && q / Pow(k) == Val(HeldWords(held, k, words))
      && (n / d < Pow(k) ==>
            if RunExact(n, d, divisor.Length, 0, k) then q % Pow(k) == n / d && Val(dividend[..]) == n % d
            else q % Pow(k) > n / d)
      && (k == 0 ==> Val(dividend[..]) == n)
  {
    hide *;
    digits := new Word[words](i requires 0 <= i < words => held(i));
    ghost var k, was, d := dividend.Length - divisor.Length, dividend[..], Val(divisor[..]);
    assert dividend[k..] == was[k..];
    HeldAbove(digits[..], held, k);
    assert digits[k..] == digits[..][k..];
    FitsIs(was, k, d);
    DivideHelper(dividend, divisor, digits);
    assert digits[k..] == digits[..][k..] && digits[..k] == digits[..][..k];
    ValDivMod(digits[..], k);
  }

  lemma HeldAbove(s: seq<Word>, held: nat -> Word, k: nat)
    requires k <= |s| && forall i | 0 <= i < |s| :: s[i] == held(i)
    ensures s[k..] == HeldWords(held, k, |s|)
  {
  }

  lemma ScaledBack(n: nat, p: nat)
    requires p > 0
    ensures Mul(n, p) / p == n
  {
    hide Mul;
    MulComm(n, p);
    DivModUnique(Mul(n, p), p, n, 0);
  }

  lemma IsLongResult(n: nat, d: nat, len: nat, held: nat -> Word, q: nat, r: nat)
    requires n > d >= 0x1_0000_0000 && len >= WordCount(n) && Normalized(Scaled(d, d), WordCount(d))
    requires var k := Made(n, d, len);
      && q / Pow(k) == Val(HeldWords(held, k, len + 1 - WordCount(d)))
      && (n / d < Pow(k) ==>
            if RunExact(Scaled(n, d), Scaled(d, d), WordCount(d), 0, k) then q % Pow(k) == n / d && r == n % d
            else q % Pow(k) > n / d)
      && (k == 0 ==> r == n)
    ensures LongResult(n, d, len, held, q, r)
  {
    hide Made, HeldWords, WordCount, Scaled, RunExact, Normalized, Pow, Val;
  }

  /** What the long division asks of the divisor, after the shift. */
  lemma DivisorPrepared(d: seq<Word>, shift: nat, d2: seq<Word>)
    requires |d| >= 2 && Stripped(d2) && Val(d2) == Mul(Val(d), Pow2(shift))
    requires 0x8000_0000 <= Mul(d[|d| - 1], Pow2(shift)) && Mul(d[|d| - 1] as int + 1, Pow2(shift)) <= 0x1_0000_0000
    ensures |d2| == |d| && Normalized(Val(d2), |d|) && Val(d2) > 0
    ensures 0x1_0000_0000 <= Val(d) && Pow(|d| - 1) <= Val(d) < Pow(|d|)
    ensures Mul(Pow(|d| - 1), Pow2(shift)) <= Val(d2)
  {
    hide Mul, Val, Pow, Pow2, Stripped, Normalized;
    ShiftNormalizes(d, shift);
    NormalizedTop(Val(d2), |d|);
    MulUnit(Pow2(shift));
    LongDivisor(d);
    HalfPow(d2, |d|);
  }

  /** ... and of the dividend. */
  lemma DividendPrepared(n: seq<Word>, d: nat, words: nat, shift: nat, d2: nat, t: seq<Word>)
    requires words >= 2 && shift < 32 && 0x1_0000_0000 <= d < Val(n)
    requires Pow(words - 1) <= d < Pow(words)
    requires d2 == Mul(d, Pow2(shift)) && Normalized(d2, words)
    requires Stripped(t) && Val(t) == Mul(Val(n), Pow2(shift))
    ensures words == WordCount(d) <= |t| <= |n| + 1 && words <= |n| && WordCount(Val(n)) <= |n|
    ensures Scaled(Val(n), d) == Val(t) && Scaled(d, d) == d2
    ensures Made(Val(n), d, |n|) == (if |n| <= |t| then |n| + 1 else |t|) - words
  {
    hide Mul, Val, Pow, Pow2, Stripped, LongExact, RunExact, Normalized, WordCount, Scaled, LengthOk;
    ConditionIs(n, d, words, shift);
    LengthOkIs(n, d, t);
    ShiftedDividend(n, shift, t);
    ScaledCount(Val(n), d);
    WordCountZero(Val(n));
    WordCountZero(Val(t));
    StrippedCount(t);
  }

  lemma LongDivisor(d: seq<Word>)
    requires |d| >= 2 && d[|d| - 1] != 0
    ensures 0x1_0000_0000 <= Val(d) && Pow(|d| - 1) <= Val(d) < Pow(|d|)
  {
    hide Val, Pow;
    TopWord(d);
    ValBound(d);
    PowOne();
    PowMono(1, |d| - 1);
  }

  lemma HalfPow(s: seq<Word>, k: nat)
    requires Stripped(s) && Normalized(Val(s), k)
    ensures |s| == k
  {
    hide Val;
    PowNext(k - 1);
    LengthIs(s, k);
  }

  // ---- when the result is right, whatever the memory held

  /** With the length right the quotient needs no word that the loop does not make, and there is none. */
  lemma NothingHeld(n: nat, d: nat, len: nat, held: nat -> Word)
    requires n > d >= 0x1_0000_0000 && len >= WordCount(n) && LengthOk(n, d, len)
    ensures Made(n, d, len) == len + 1 - WordCount(d) && n / d < Pow(Made(n, d, len))
    ensures HeldWords(held, Made(n, d, len), len + 1 - WordCount(d)) == []
  {
    hide WordCount, Scaled, Pow;
    WordCountMono(d, n);
    WordCountBounds(n);
    WordCountBounds(d);
    WordCountZero(d);
    PowMono(WordCount(n), len);
    QuotientBound(n, d, len, WordCount(d) - 1);
  }

  /** A result with the length right is right where no estimate overshoots, and else too great. */
  lemma LengthOkResult(n: nat, d: nat, len: nat, held: nat -> Word, q: nat, r: nat)
    requires d > 0 && len >= WordCount(n) && LengthOk(n, d, len) && DivideResult(n, d, len, held, q, r)
    ensures if DivideExactFor(n, d, len) then q == n / d && r == n % d else q > n / d
  {
    hide WordCount, Scaled, LengthOk, Made, HeldWords, Normalized, RunExact, Pow;
    if n > d && d >= 0x1_0000_0000 {
      NothingHeld(n, d, len, held);
      var k := Made(n, d, len);
      DivMod(q, Pow(k));
      MulUnit(Pow(k));
      hide Mul;
      assert Val([]) == 0;
    }
  }

  /** In general: where the quotient needs no more words than the loop makes, the result is right if and only if the
      memory held zeros above them and no estimate overshoots. */
  lemma HeldDecides(n: nat, d: nat, len: nat, held: nat -> Word, q: nat, r: nat)
    requires n > d >= 0x1_0000_0000 && len >= WordCount(n) && LongResult(n, d, len, held, q, r)
    requires n / d < Pow(Made(n, d, len))
    ensures WordCount(d) >= 2 && Normalized(Scaled(d, d), WordCount(d))
    ensures q == n / d && r == n % d <==>
      && RunExact(Scaled(n, d), Scaled(d, d), WordCount(d), 0, Made(n, d, len))
      && forall i | Made(n, d, len) <= i < len + 1 - WordCount(d) :: held(i) == 0
  {
    hide WordCount, Scaled, LengthOk, Made, HeldWords, Normalized, RunExact, Pow, Val;
    ScaledNormalized(d);
    var k, above := Made(n, d, len), len + 1 - WordCount(d);
    DivMod(q, Pow(k));
    MulUnit(Pow(k));
    hide Mul;
    ZeroHeld(held, k, above);
    if q == n / d {
      SmallQuotientOf(q, Pow(k));
    }
  }

  lemma SmallQuotientOf(q: nat, p: nat)
    requires q < p
    ensures q / p == 0 && q % p == q
  {
    MulUnit(p);
    DivModUnique(q, p, 0, q);
  }

  lemma ZeroHeld(held: nat -> Word, low: nat, high: nat)
    requires low <= high
    ensures Val(HeldWords(held, low, high)) == 0 <==> forall i | low <= i < high :: held(i) == 0
  {
    hide Val;
    var s := HeldWords(held, low, high);
    ZeroWords(s);
    forall i | low <= i < high
      ensures s[i - low] == held(i)
    {
    }
    forall i | 0 <= i < |s|
      ensures s[i] == held(low + i)
    {
    }
  }

  lemma {:induction false} ZeroWords(s: seq<Word>)
    ensures Val(s) == 0 <==> forall i | 0 <= i < |s| :: s[i] == 0
  {
    if s != [] {
      ZeroWords(s[1..]);
      assert forall i | 1 <= i < |s| :: s[i] == s[1..][i - 1];
      assert forall i | 0 <= i < |s[1..]| :: s[1..][i] == s[i + 1];
    }
  }

  /** A shifted dividend that is shorter leaves two words at least as they were, and with ones in them every
      result is wrong. */
  lemma OnesAreWrong(n: nat, d: nat, len: nat, q: nat, r: nat)
    requires d > 0 && len >= WordCount(n) && !LengthOk(n, d, len) && DivideResult(n, d, len, _ => 1, q, r)
    ensures q > n / d
  {
    hide Scaled, WordCount, Pow, RunExact, Normalized, Val, HeldWords, Mul;
    var k, above, t := Made(n, d, len), len + 1 - WordCount(d), WordCount(Scaled(n, d));
    WordCountMono(d, n);
    ScaledCount(n, d);
    ScaledRatio(n, d);
    WordCountBounds(Scaled(n, d));
    WordCountBounds(d);
    WordCountZero(d);
    QuotientBound(Scaled(n, d), Scaled(d, d), t, WordCount(d) - 1);
    var v := Val(HeldWords(_ => 1, k, above));
    TwoOnes(k, above);
    DivMod(q, Pow(k));
    MulMono(Pow(k), 0x1_0000_0000, v);
    MulBase(Pow(k), 1);
    MulUnit(Pow(k));
    PowNext(k);
  }

  lemma TwoOnes(low: nat, high: nat)
    requires low + 2 <= high
    ensures Val(HeldWords(_ => 1, low, high)) >= 0x1_0000_0000
  {
    var s := HeldWords(_ => 1, low, high);
    assert s[0] == 1 && s[1..][0] == 1;
  }

  lemma ScaledRatio(n: nat, d: nat)
    requires d > 0
    ensures Scaled(d, d) >= d && Scaled(n, d) / Scaled(d, d) == n / d
  {
    hide Mul, WordCount, NormalShift;
    var p := Pow2(NormalShift(d, Pow(WordCount(d))));
    MulMono(d, 1, p);
    MulUnit(d);
    ScaleDivMod(n, d, p);
  }

  /** A quotient of as many words as the loop makes, all of them the greatest there are, comes out right. */
  lemma {:induction false} GreatestDigits(n: nat, d: nat, words: nat, j: nat, k: nat)
    requires Normalized(d, words) && j <= k && d > 0 && Quotient(n, d, j) == Pow(k - j) - 1
    ensures RunExact(n, d, words, j, k)
    decreases k - j
  {
    hide StepExact, Quotient, TrueDigit, Window, Remainder, WordOf, Estimate, Normalized;
    if j < k {
      assert Pow(k - j) == 0x1_0000_0000 * Pow(k - j - 1);
      NextDigit(n, d, j);
      GreatestDigits(n, d, words, j + 1, k);
      ExactDigit(n, d, words, j);
    }
  }

  /** There is a result, whatever the memory held, and a wrong one where an estimate overshoots. */
  lemma SomeResult(n: nat, d: nat, len: nat, held: nat -> Word) returns (q: nat, r: nat)
    requires d > 0 && len >= WordCount(n)
    ensures DivideResult(n, d, len, held, q, r)
  {
    hide Scaled, WordCount, Pow, RunExact, Normalized, Made, HeldWords, Val, Mul;
    DivNonNegative(n, d);
    q, r := n / d, n % d;
    if n > d && d >= 0x1_0000_0000 {
      ScaledNormalized(d);
      var k := Made(n, d, len);
      NextFits(n, d, k);
      var low := if n / d >= Pow(k) then 0 else if RunExact(Scaled(n, d), Scaled(d, d), WordCount(d), 0, k) then n / d else n / d + 1;
      var v := Val(HeldWords(held, k, len + 1 - WordCount(d)));
      MulMono(Pow(k), 0, v);
      MulUnit(Pow(k));
      q := Mul(Pow(k), v) + low;
      DivModUnique(q, Pow(k), v, low);
      r := if k == 0 then n else n % d;
      if k == 0 {
        NoRun(Scaled(n, d), Scaled(d, d), WordCount(d), 0);
        OnePart(n, d);
      }
    }
  }

  lemma OnePart(n: nat, d: nat)
    requires n > d > 0
    ensures n / d >= Pow(0)
  {
    PowZero();
    TopNotZero(n, d);
  }

  lemma NextFits(n: nat, d: nat, k: nat)
    requires n > d >= 0x1_0000_0000
    ensures WordCount(d) >= 2 && Normalized(Scaled(d, d), WordCount(d))
    ensures n / d < Pow(k) && !RunExact(Scaled(n, d), Scaled(d, d), WordCount(d), 0, k) ==> n / d + 1 < Pow(k)
  {
    hide Scaled, WordCount, Pow, RunExact, Normalized;
    ScaledNormalized(d);
    ScaledRatio(n, d);
    QuotientAll(Scaled(n, d), Scaled(d, d));
    if n / d + 1 == Pow(k) {
      GreatestDigits(Scaled(n, d), Scaled(d, d), WordCount(d), 0, k);
    }
  }

  /** The result is right for all that the memory can hold if and only if the length is right and no
      estimate overshoots. */
  lemma DivideRightExactly(n: nat, d: nat, len: nat)
    requires d > 0 && len >= WordCount(n)
    ensures (forall held: nat -> Word, q: nat, r: nat | DivideResult(n, d, len, held, q, r) :: q == n / d && r == n % d)
      <==> LengthOk(n, d, len) && DivideExactFor(n, d, len)
  {
    hide DivideResult, LengthOk, DivideExactFor, WordCount;
    if LengthOk(n, d, len) {
      forall held: nat -> Word, q: nat, r: nat | DivideResult(n, d, len, held, q, r)
        ensures if DivideExactFor(n, d, len) then q == n / d && r == n % d else q > n / d
      {
        LengthOkResult(n, d, len, held, q, r);
      }
      var q, r := SomeResult(n, d, len, _ => 0);
    } else {
      var q, r := SomeResult(n, d, len, _ => 1);
      OnesAreWrong(n, d, len, q, r);
    }
  }

  /** The words 0, 3, 0, 0 divided by 0, 1: the digit made is 3, and the two words above it are as they were. */
  lemma ShortExample(held: nat -> Word, q: nat, r: nat)
    ensures Val([0, 3, 0, 0]) == 0x3_0000_0000 && Val([0, 1]) == 0x1_0000_0000 && WordCount(0x3_0000_0000) <= 4
    ensures !LengthOk(0x3_0000_0000, 0x1_0000_0000, 4)
    ensures DivideResult(0x3_0000_0000, 0x1_0000_0000, 4, held, q, r) ==>
      (q == 3 && r == 0 <==> held(1) == 0 && held(2) == 0)
  {
    hide Mul, NormalShift, RunExact, StepExact, Normalized, LongResult, Scaled;
    var n, d := 0x3_0000_0000, 0x1_0000_0000;
    PowThree();
    FourWords();
    WordCountIs(n, 2);
    WordCountIs(d, 2);
    ShortScaled();
    WordCountIs(3 * 0x8000_0000_0000_0000, 3);
    TwoWordsRun(n, d, 1);
    if DivideResult(n, d, 4, held, q, r) {
      HeldDecides(n, d, 4, held, q, r);
    }
  }

  lemma FourWords()
    ensures Val([0, 3, 0, 0]) == 0x3_0000_0000 && Val([0, 1]) == 0x1_0000_0000
  {
    var s: seq<Word>, t: seq<Word> := [0, 3, 0, 0], [0, 1];
    assert s[1..] == [3, 0, 0] && s[1..][1..] == [0, 0] && s[1..][1..][1..] == [0] && s[1..][1..][1..][1..] == [];
    assert t[1..] == [1] && t[1..][1..] == [];
  }

  lemma ShortScaled()
    ensures Scaled(0x3_0000_0000, 0x1_0000_0000) == 3 * 0x8000_0000_0000_0000
  {
    hide Mul, NormalShift;
    PowThree();
    WordCountIs(0x1_0000_0000, 2);
    HighBit();
    ConstMul(0x1_0000_0000, 0x8000_0000);
    ConstMul(0x3_0000_0000, 0x8000_0000);
    NormalShiftIs(0x1_0000_0000, Pow(2), 31);
  }

  lemma TwoWordsRun(n: nat, d: nat, k: nat)
    requires d >= 0x1_0000_0000 && WordCount(d) == 2
    ensures Normalized(Scaled(d, d), 2) && RunExact(Scaled(n, d), Scaled(d, d), 2, 0, k)
  {
    hide StepExact, Scaled, Normalized, WordCount;
    ScaledNormalized(d);
    forall j | 0 <= j < k
      ensures StepExact(Scaled(n, d), Scaled(d, d), 2, j)
    {
      TwoWordsExact(Scaled(n, d), Scaled(d, d), j);
    }
  }

  // ---- a division that goes wrong

  const DIVIDEND := 0x80000000_00000000_00000003
  const DIVISOR := 0x20000000_00000000_00000001

  /** 2^95 + 3 divided by 2^93 + 1: the only estimate is 4, the digit is 3, so that the
      quotient `DivideHelper` leaves is greater than the true one. */
  lemma OvershootExample()
    ensures !DivideExact(DIVIDEND, DIVISOR) && DIVIDEND / DIVISOR == 3
  {
    hide Mul, WordCount, NormalShift, RunExact, StepExact, Normalized;
    PowThree();
    WordCountIs(DIVIDEND, 3);
    WordCountIs(DIVISOR, 3);
    assert Pow2(2) == 4 by {
      assert Pow2(1) == 2 && Pow2(0) == 1;
    }
    ConstMul(DIVISOR, 4);
    ConstMul(DIVIDEND, 4);
    NormalShiftIs(DIVISOR, Pow(3), 2);
    ScaledNormalized(DIVISOR);
    var n, d := 4 * DIVIDEND, 4 * DIVISOR;
    assert Scaled(DIVIDEND, DIVISOR) == n && Scaled(DIVISOR, DIVISOR) == d;
    ExampleStep(n, d);
    if RunExact(n, d, 3, 0, 1) {
      StepOfRun(n, d, 3, 1);
    }
  }

  lemma PowThree()
    ensures Pow(0) == 1 && Pow(1) == 0x1_0000_0000 && Pow(2) == 0x1_0000_0000_0000_0000 && Pow(3) == 0x1_0000_0000_0000_0000_0000_0000
  {
    PowOne();
    PowNext(1);
    PowNext(2);
  }

  lemma StepOfRun(n: nat, d: nat, words: nat, high: nat)
    requires Normalized(d, words) && high >= 1 && RunExact(n, d, words, 0, high)
    ensures StepExact(n, d, words, 0)
  {
    hide StepExact, Normalized;
  }

  lemma ExampleStep(n: nat, d: nat)
    requires n == 4 * DIVIDEND && d == 4 * DIVISOR && Normalized(d, 3)
    ensures !StepExact(n, d, 3, 0)
  {
    PowThree();
    hide Mul, Normalized, Pow;
    NormalizedTop(d, 3);
    assert n / 1 == n && (n / 0x1_0000_0000) % d == n / 0x1_0000_0000;
    assert Window(n, d, 0) == n;
    assert Estimate(n, d, 3) == 4;
    ConstMul(4, d);
  }
}
