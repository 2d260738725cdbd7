/** `BigNum_ModPow`: exponentiation by squaring. */
module BigNumModPow {
  import opened Words
  import opened Bits
  import opened BigNumBasic
  import opened BigNumShift
  import opened BigNumMultiply
  import opened BigNumQuotient

  function Power(b: nat, e: nat): (p: nat)
    ensures b >= 1 ==> p >= 1
  {
    if e == 0 then 1
    else
      var p := Power(b, e - 1);
      MulNatural(b, p);
      Mul(b, p)
  }

  lemma MulNatural(a: nat, b: nat)
    ensures Mul(a, b) >= 0 && (a >= 1 && b >= 1 ==> Mul(a, b) >= 1)
  {
    hide Mul;
    MulMono(a, 0, b);
    MulUnit(a);
    if a >= 1 && b >= 1 {
      MulMono(a, 1, b);
    }
  }

  /** Whether every division whose remainder is used comes out right, the numbers being the true ones.
      The square of the last round is thrown away. */
  predicate ModPowExact(base: nat, exp: nat, m: nat, result: nat)
    requires m > 0
    decreases exp
  {
    exp == 0 ||
    (MulNatural(base, base);
     MulNatural(result, base);
     && (exp % 2 == 1 ==> DivideExact(Mul(result, base), m))
     && (exp / 2 > 0 ==> DivideExact(Mul(base, base), m))
     && ModPowExact(Mul(base, base) % m, exp / 2, m, if exp % 2 == 1 then Mul(result, base) % m else result))
  }

  /** Every division comes out right when the modulus is below 2^64. */
  lemma {:induction false} SmallModulusExact(base: nat, exp: nat, m: nat, result: nat)
    requires 0 < m < 0x1_0000_0000_0000_0000
    ensures ModPowExact(base, exp, m, result)
    decreases exp
  {
    hide Mul, DivideExactFor, WordCount;
    if exp > 0 {
      MulNatural(base, base);
      MulNatural(result, base);
      SmallDivisorExact(Mul(base, base), m, WordCount(Mul(base, base)));
      SmallDivisorExact(Mul(result, base), m, WordCount(Mul(result, base)));
      SmallModulusExact(Mul(base, base) % m, exp / 2, m, if exp % 2 == 1 then Mul(result, base) % m else result);
    }
  }

  // ---- powers and remainders

  lemma {:induction false} SquareHalves(b: nat, h: nat)
    ensures Mul(b, b) >= 0 && Power(Mul(b, b), h) == Power(b, 2 * h)
  {
    hide Mul;
    MulNatural(b, b);
    if h > 0 {
      SquareHalves(b, h - 1);
      MulAssoc(b, b, Power(b, 2 * h - 2));
      assert Power(b, 2 * h) == Mul(b, Power(b, 2 * h - 1));
      assert Power(b, 2 * h - 1) == Mul(b, Power(b, 2 * h - 2));
    }
  }

  /** A factor may be reduced first. */
  lemma MulModLeft(a: nat, b: nat, m: nat)
    requires m > 0
    ensures Mul(a, b) >= 0 && Mul(a % m, b) >= 0 && Mul(a, b) % m == Mul(a % m, b) % m
  {
    var q, r := a / m, a % m;
    DivMod(a, m);
    hide Mul;
    MulNatural(a, b);
    MulNatural(r, b);
    MulAdd(b, Mul(m, q), r);
    MulAssoc(m, q, b);
    AddMultiple(Mul(r, b), Mul(q, b), m);
  }

  lemma AddMultiple(x: nat, k: int, m: nat)
    requires m > 0
    ensures (Mul(m, k) + x) % m == x % m
  {
    DivMod(x, m);
    hide Mul;
    MulAdd(m, k, x / m);
    DivModUnique(Mul(m, k) + x, m, k + x / m, x % m);
  }

  lemma MulModRight(a: nat, b: nat, b': nat, m: nat)
    requires m > 0 && b % m == b' % m
    ensures Mul(a, b) >= 0 && Mul(a, b') >= 0 && Mul(a, b) % m == Mul(a, b') % m
  {
    hide Mul;
    MulComm(a, b);
    MulComm(a, b');
    MulModLeft(b, a, m);
    MulModLeft(b', a, m);
  }

  lemma {:induction false} PowerMod(b: nat, e: nat, m: nat)
    requires m > 0
    ensures b % m >= 0 && Power(b % m, e) % m == Power(b, e) % m
  {
    hide Mul;
    DivMod(b, m);
    if e > 0 {
      var r := b % m;
      PowerMod(b, e - 1, m);
      MulModLeft(b, Power(b, e - 1), m);
      MulModRight(r, Power(b, e - 1), Power(r, e - 1), m);
    }
  }

  /** One turn keeps `result * base ^ exp` modulo `m`. */
  lemma SquareStep(base: nat, exp: nat, m: nat, result: nat)
    requires m > 0 && exp > 0
    ensures Mul(base, base) >= 0 && Mul(result, base) >= 0 && Mul(base, base) % m >= 0 && Mul(result, base) % m >= 0
    ensures var r' := if exp % 2 == 1 then Mul(result, base) % m else result;
      Mul(r', Power(Mul(base, base) % m, exp / 2)) % m == Mul(result, Power(base, exp)) % m
  {
    hide Mul, Power;
    MulNatural(base, base);
    MulNatural(result, base);
    DivMod(Mul(base, base), m);
    DivMod(Mul(result, base), m);
    var h := exp / 2;
    var p := Power(base, 2 * h);
    SquareHalves(base, h);
    PowerMod(Mul(base, base), h, m);
    var p' := Power(Mul(base, base) % m, h);
    if exp % 2 == 1 {
      var x := Mul(result, base);
      PowerNext(base, 2 * h);
      MulAssoc(result, base, p);
      MulModLeft(x, p, m);
      MulModRight(x % m, p', p, m);
    } else {
      MulModRight(result, p', p, m);
    }
  }

  lemma PowerNext(b: nat, e: nat)
    ensures Power(b, e + 1) == Mul(b, Power(b, e))
  {
  }

  lemma Parity(s: seq<Word>)
    requires |s| >= 1
    ensures Val(s) % 2 == s[0] % 2
  {
  }

  lemma ZeroIs(s: seq<Word>)
    requires Stripped(s)
    ensures Val(s) == 0 <==> |s| == 1 && s[0] == 0
  {
    if |s| == 1 {
      TopWordIs(s);
    } else {
      hide Val, Pow;
      TopWord(s);
    }
  }

  lemma TopWordIs(s: seq<Word>)
    requires |s| == 1
    ensures Val(s) == s[0]
  {
    assert s[1..] == [];
  }

  /** The part of the condition one turn needs, and the part it leaves. */
  lemma ExactTurn(base: nat, exp: nat, m: nat, result: nat)
    requires m > 0 && exp > 0 && ModPowExact(base, exp, m, result)
    ensures Mul(base, base) >= 0 && Mul(result, base) >= 0 && Mul(base, base) % m >= 0 && Mul(result, base) % m >= 0
    ensures exp % 2 == 1 ==> DivideExact(Mul(result, base), m)
    ensures exp / 2 > 0 ==> DivideExact(Mul(base, base), m)
    ensures ModPowExact(Mul(base, base) % m, exp / 2, m, if exp % 2 == 1 then Mul(result, base) % m else result)
  {
    hide DivideExact;
    MulNatural(base, base);
    MulNatural(result, base);
    hide Mul;
  }

  /** What holds before each turn of the run from `b0 ^ e0`. */
  ghost predicate Run(b0: nat, e0: nat, m: nat, base: nat, exp: nat, result: nat)
    requires m > 0
  {
    && ModPowExact(base, exp, m, result)
    && Mul(result, Power(base, exp)) % m == Power(b0, e0) % m
    && (result < m || (result == 1 && m == 1 && (e0 > 0 ==> exp > 0)))
    && (e0 == 0 ==> exp == 0 && result == 1)
  }

  lemma RunStarts(b0: nat, e0: nat, m: nat)
    requires m > 0
    ensures Run(b0, e0, m, b0, e0, 1) == ModPowExact(b0, e0, m, 1)
  {
    hide ModPowExact;
    MulUnit(Power(b0, e0));
  }

  lemma RunTurn(b0: nat, e0: nat, m: nat, base: nat, exp: nat, result: nat)
    requires m > 0 && exp > 0 && Run(b0, e0, m, base, exp, result)
    ensures Mul(base, base) >= 0 && Mul(result, base) >= 0 && Mul(base, base) % m >= 0 && Mul(result, base) % m >= 0
    ensures exp % 2 == 1 ==> DivideExact(Mul(result, base), m)
    ensures exp / 2 > 0 ==> DivideExact(Mul(base, base), m)
    ensures Run(b0, e0, m, Mul(base, base) % m, exp / 2, if exp % 2 == 1 then Mul(result, base) % m else result)
  {
    hide ModPowExact, DivideExact, Mul, Power;
    ExactTurn(base, exp, m, result);
    SquareStep(base, exp, m, result);
    DivMod(Mul(result, base), m);
  }

  /** The base does not matter any more when the exponent is used up. */
  lemma AnyBase(b0: nat, e0: nat, m: nat, base: nat, other: nat, result: nat)
    requires m > 0 && Run(b0, e0, m, base, 0, result)
    ensures Run(b0, e0, m, other, 0, result)
  {
    assert Power(base, 0) == Power(other, 0) == 1;
  }

  lemma RunEnds(b0: nat, e0: nat, m: nat, base: nat, result: nat)
    requires m > 0 && Run(b0, e0, m, base, 0, result)
    ensures result == if e0 > 0 || m > 1 then Power(b0, e0) % m else 1
  {
    hide ModPowExact;
    MulUnit(result);
    assert Power(base, 0) == 1;
    SmallMod(result, m);
  }

  lemma SmallMod(x: nat, m: nat)
    requires m > 0
    ensures x < m ==> x % m == x
  {
    if x < m {
      MulUnit(m);
      DivModUnique(x, m, 0, x);
    }
  }

  /** The power modulo `modulus`; for exponent zero and modulus one the C code gives 1, not 0.
      `held` is what was in the memory for the quotients. */
  method ModPow(base: array<Word>, exponent: array<Word>, modulus: array<Word>, held: nat -> Word) returns (result: array<Word>)
    requires base.Length >= 1 && exponent.Length >= 1 && modulus.Length >= 1 && Val(modulus[..]) > 0
    ensures fresh(result) && Stripped(result[..])
    ensures var b, e, m := Val(base[..]), Val(exponent[..]), Val(modulus[..]);
      ModPowExact(b, e, m, 1) ==> Val(result[..]) == if e > 0 || m > 1 then Power(b, e) % m else 1
  {
    hide Mul, Val, Power, Run, ModPowExact, DivideExact, DivideExactFor, DivideResult, LengthOk, WordCount, Strip, Stripped, Pow2;
    ghost var b0, e0, m := Val(base[..]), Val(exponent[..]), Val(modulus[..]);
    var bas := CreateFromBigNum(base);
    var exp := CreateFromBigNum(exponent);
    result := CreateFromInteger(1);
    OneWordStripped(result[..]);
    ValOne(1);
    RunStarts(b0, e0, m);
    ZeroIs(exp[..]);
    while !(exp.Length == 1 && exp[0] == 0)
      invariant fresh(bas) && fresh(exp) && fresh(result)
      invariant Stripped(bas[..]) && Stripped(exp[..]) && Stripped(result[..])
      invariant Val(exp[..]) == 0 <==> exp.Length == 1 && exp[0] == 0
      invariant ModPowExact(b0, e0, m, 1) ==> Run(b0, e0, m, Val(bas[..]), Val(exp[..]), Val(result[..]))
      decreases Val(exp[..])
    {
      ghost var b, e, r := Val(bas[..]), Val(exp[..]), Val(result[..]);
      AtLeastOneWord(bas[..]);
      AtLeastOneWord(exp[..]);
      AtLeastOneWord(result[..]);
      if ModPowExact(b0, e0, m, 1) {
        RunTurn(b0, e0, m, b, e, r);
      }
      Parity(exp[..]);
      var temp;
      if exp[0] % 2 == 1 {
        temp := Multiply(result, bas);
        AtLeastOneWord(temp[..]);
        StrippedLengthOk(temp[..], m);
        var quotient, reduced := Divide(temp, modulus, held);
        LengthOkResult(Val(temp[..]), m, temp.Length, held, Val(quotient[..]), Val(reduced[..]));
        result := reduced;
      }
      exp := ShiftRight(exp, 1);
      Halves(e);
      ZeroIs(exp[..]);
      temp := Multiply(bas, bas);
      AtLeastOneWord(temp[..]);
      StrippedLengthOk(temp[..], m);
      var quotient, square := Divide(temp, modulus, held);
      LengthOkResult(Val(temp[..]), m, temp.Length, held, Val(quotient[..]), Val(square[..]));
      bas := square;
      if ModPowExact(b0, e0, m, 1) && e / 2 == 0 {
        AnyBase(b0, e0, m, Mul(b, b) % m, Val(bas[..]), Val(result[..]));
      }
    }
    if ModPowExact(b0, e0, m, 1) {
      RunEnds(b0, e0, m, Val(bas[..]), Val(result[..]));
    }
  }

  lemma Halves(e: nat)
    ensures Pow2(1) == 2 && (e > 0 ==> e / 2 < e)
  {
    assert Pow2(0) == 1;
  }
}
