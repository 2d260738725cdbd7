/** Little-endian sequences of 32-bit words and the natural numbers they stand for. */
module Words {

  /** A `ULONG`, and how many of them there are. */
  type Word = x: int | 0 <= x < 0x1_0000_0000

  const BASE: int := 0x1_0000_0000

  /** The product under a name of its own: most proofs below hide its definition and use only
      the laws that follow, which keeps them linear. */
  function Mul(a: int, b: int): int {
    a * b
  }

  lemma MulAdd(a: int, b: int, c: int)
    ensures Mul(a, b + c) == Mul(a, b) + Mul(a, c)
    ensures Mul(a, b - c) == Mul(a, b) - Mul(a, c)
    ensures Mul(b + c, a) == Mul(b, a) + Mul(c, a)
    ensures Mul(b - c, a) == Mul(b, a) - Mul(c, a)
  {
  }

  lemma MulAssoc(a: int, b: int, c: int)
    ensures Mul(a, Mul(b, c)) == Mul(Mul(a, b), c)
  {
  }

  lemma MulComm(a: int, b: int)
    ensures Mul(a, b) == Mul(b, a)
  {
  }

  lemma MulUnit(a: int)
    ensures Mul(a, 0) == 0 == Mul(0, a) && Mul(a, 1) == a == Mul(1, a)
  {
  }

  lemma MulBase(a: int, b: int)
    ensures Mul(0x1_0000_0000 * a, b) == 0x1_0000_0000 * Mul(a, b) == Mul(a, 0x1_0000_0000 * b)
  {
  }

  lemma MulMono(d: int, a: int, b: int)
    requires d >= 0 && a <= b
    ensures Mul(d, a) <= Mul(d, b)
  {
    assert d * (b - a) >= 0;
  }

  lemma MulStrict(d: int, a: int, b: int)
    requires d > 0 && a < b
    ensures Mul(d, a) + d <= Mul(d, b)
  {
    MulMono(d, a + 1, b);
  }

  lemma DivModUnique(n: int, d: int, q: int, r: int)
    requires d > 0 && n == Mul(d, q) + r && 0 <= r < d
    ensures n / d == q && n % d == r
  {
    var q', r' := n / d, n % d;
    assert n == Mul(d, q') + r';
    hide Mul;
    if q > q' {
      MulStrict(d, q', q);
    } else if q < q' {
      MulStrict(d, q, q');
    }
  }

  lemma DivMod(n: int, d: int)
    requires d > 0
    ensures n == Mul(d, n / d) + n % d && 0 <= n % d < d
  {
  }

  // ---- words

  function Pow(n: nat): (p: nat)
    ensures p >= 1
  {
    if n == 0 then 1 else 0x1_0000_0000 * Pow(n - 1)
  }

  function Val(s: seq<Word>): nat {
    if s == [] then 0 else s[0] + 0x1_0000_0000 * Val(s[1..])
  }

  lemma {:induction false} PowAdd(m: nat, n: nat)
    ensures Pow(m + n) == Mul(Pow(m), Pow(n))
  {
    hide Mul;
    if m > 0 {
      PowAdd(m - 1, n);
      MulBase(Pow(m - 1), Pow(n));
    } else {
      MulUnit(Pow(n));
    }
  }

  lemma {:induction false} PowMono(m: nat, n: nat)
    requires m <= n
    ensures Pow(m) <= Pow(n)
  {
    if m < n {
      PowMono(m, n - 1);
    }
  }

  lemma {:induction false} ValAppend(s: seq<Word>, t: seq<Word>)
    ensures Val(s + t) == Val(s) + Mul(Pow(|s|), Val(t))
  {
    hide Mul;
    if s == [] {
      assert s + t == t;
      MulUnit(Val(t));
    } else {
      ValAppend(s[1..], t);
      assert (s + t)[1..] == s[1..] + t;
      MulBase(Pow(|s| - 1), Val(t));
    }
  }

  lemma ValOne(x: Word)
    ensures Val([]) == 0 && Val([x]) == x
  {
    assert [x][1..] == [];
  }

  /** `s` lies one word below `t`, whose last word is `x`. */
  lemma ValSnoc(s: seq<Word>, x: Word)
    ensures Val(s + [x]) == Val(s) + Mul(Pow(|s|), x)
  {
    hide Mul, Pow, Val;
    ValAppend(s, [x]);
    ValOne(x);
  }

  lemma ValUpTo(s: seq<Word>, k: nat)
    requires k < |s|
    ensures Val(s[..k + 1]) == Val(s[..k]) + Mul(Pow(k), s[k])
  {
    hide Mul, Pow, Val;
    assert s[..k + 1] == s[..k] + [s[k]];
    ValSnoc(s[..k], s[k]);
  }

  lemma ValSplit(s: seq<Word>, k: nat)
    requires k <= |s|
    ensures Val(s) == Val(s[..k]) + Mul(Pow(k), Val(s[k..]))
  {
    hide Mul, Pow, Val;
    assert s == s[..k] + s[k..];
    ValAppend(s[..k], s[k..]);
  }

  lemma {:induction false} ValBound(s: seq<Word>)
    ensures Val(s) < Pow(|s|)
  {
    if s != [] {
      ValBound(s[1..]);
    }
  }

  /** The words below index `k` are the remainder modulo `Pow(k)`, the others the quotient. */
  lemma ValDivMod(s: seq<Word>, k: nat)
    requires k <= |s|
    ensures Val(s) / Pow(k) == Val(s[k..]) && Val(s) % Pow(k) == Val(s[..k])
  {
    hide Mul, Pow, Val;
    ValSplit(s, k);
    ValBound(s[..k]);
    DivModUnique(Val(s), Pow(k), Val(s[k..]), Val(s[..k]));
  }

  /** Filling up with zero words does not change the number. */
  lemma {:induction false} Padded(s: seq<Word>, t: seq<Word>)
    requires |s| <= |t| && forall k | 0 <= k < |t| :: t[k] == if k < |s| then s[k] else 0
    ensures Val(t) == Val(s)
  {
    if t != [] {
      Padded(if s == [] then [] else s[1..], t[1..]);
    }
  }

  // ---- leading zero words

  /** At least one word, and no zero word at the high end but for the number zero. */
  predicate Stripped(s: seq<Word>) {
    |s| >= 1 && (|s| > 1 ==> s[|s| - 1] != 0)
  }

  function Strip(s: seq<Word>): (r: seq<Word>)
    requires |s| >= 1
    ensures Stripped(r) && |r| <= |s| && r == s[..|r|] && Val(r) == Val(s)
  {
    if |s| > 1 && s[|s| - 1] == 0 then
      ZeroOnTop(s);
      Strip(s[..|s| - 1])
    else
      s
  }

  lemma ZeroOnTop(s: seq<Word>)
    requires |s| >= 1 && s[|s| - 1] == 0
    ensures Val(s[..|s| - 1]) == Val(s)
  {
    hide Mul, Val, Pow;
    var k := |s| - 1;
    ValUpTo(s, k);
    assert s[..k + 1] == s;
    MulUnit(Pow(k));
  }

  lemma TopWord(s: seq<Word>)
    requires |s| >= 1 && s[|s| - 1] != 0
    ensures Pow(|s| - 1) <= Val(s)
  {
    hide Mul, Val, Pow;
    var k := |s| - 1;
    ValUpTo(s, k);
    assert s[..k + 1] == s;
    MulUnit(Pow(k));
    MulMono(Pow(k), 1, s[k]);
  }

  lemma Longer(s: seq<Word>, t: seq<Word>)
    requires |s| > |t| && s[|s| - 1] != 0
    ensures Val(s) > Val(t)
  {
    hide Val, Pow;
    TopWord(s);
    ValBound(t);
    PowMono(|t|, |s| - 1);
  }

  /** A number has only one form without leading zero words. */
  lemma StrippedUnique(s: seq<Word>, t: seq<Word>)
    requires Stripped(s) && Stripped(t) && Val(s) == Val(t)
    ensures s == t
  {
    if |s| > |t| {
      Longer(s, t);
    } else if |t| > |s| {
      Longer(t, s);
    } else {
      SameLengthUnique(s, t);
    }
  }

  lemma {:induction false} SameLengthUnique(s: seq<Word>, t: seq<Word>)
    requires |s| == |t| && Val(s) == Val(t)
    ensures s == t
  {
    if s != [] {
      SameLengthUnique(s[1..], t[1..]);
      assert s == [s[0]] + s[1..] && t == [t[0]] + t[1..];
    }
  }

  /** The highest word in which two numbers of equal length differ decides. */
  lemma Below(s: seq<Word>, t: seq<Word>, k: nat)
    requires k < |s| == |t| && s[k + 1..] == t[k + 1..] && s[k] < t[k]
    ensures Val(s) < Val(t)
  {
    hide Mul, Val, Pow;
    ValSplit(s, k + 1);
    ValSplit(t, k + 1);
    ValUpTo(s, k);
    ValUpTo(t, k);
    ValBound(s[..k]);
    MulStrict(Pow(k), s[k], t[k]);
  }
}
