/** Multiplication, and division by a single word. */
module BigNumMultiply {
  import opened Words
  import opened Bits
  import opened BigNumBasic
  import opened BigNumShift

  /** The inner loop: adds `x` times `b` to the words of `n` from index `at` on, with the final
      carry in the word above, which is still zero.  The 64-bit product never overflows. */
  method MultiplyRow(n: array<Word>, at: nat, x: Word, b: array<Word>)
    requires at + b.Length < n.Length && n != b && n[at + b.Length] == 0
    modifies n
    ensures forall k | 0 <= k < n.Length && !(at <= k <= at + b.Length) :: n[k] == old(n[k])
    ensures Val(n[at..at + b.Length + 1]) == Val(old(n[at..at + b.Length])) + Mul(x, Val(b[..]))
  {
    hide Mul, Val, Pow;
    ghost var was := n[..];
    var carry: Word := 0;
    var j := 0;
    ValOne(0);
    MulUnit(x);
    MulUnit(Pow(0));
    assert n[at..at] == was[at..at] == b[..0] == [];
    while j < b.Length
      invariant 0 <= j <= b.Length
      invariant forall k | 0 <= k < n.Length && !(at <= k < at + j) :: n[k] == was[k]
      invariant Val(n[at..at + j]) + Mul(Pow(j), carry) == Val(was[at..at + j]) + Mul(x, Val(b[..j]))
    {
      var product: int := Product(x, b[j]);
      product := product + n[at + j] + carry;
      assert product < 0x1_0000_0000_0000_0000;
      ghost var low, c := n[at..at + j], carry;
      n[at + j] := product % 0x1_0000_0000;
      carry := product / 0x1_0000_0000;
      assert forall k | 0 <= k < j :: n[at..at + b.Length][k] == low[k];
      assert n[at..at + b.Length][..j] == low;
      assert was[at..at + b.Length][..j] == was[at..at + j];
      RowStep(n[at..at + b.Length], was[at..at + b.Length], b[..], j, x, low, c, carry);
      assert n[at..at + b.Length][..j + 1] == n[at..at + j + 1];
      assert was[at..at + b.Length][..j + 1] == was[at..at + j + 1];
      j := j + 1;
    }
    assert b[..j] == b[..];
    n[at + j] := n[at + j] + carry;
    ghost var row := n[at..at + j + 1];
    ValUpTo(row, j);
    assert row[..j + 1] == row && row[..j] == n[at..at + j];
  }

  /** A 64-bit product of two words leaves room for two more words. */
  function Product(x: Word, y: Word): (p: int)
    ensures 0 <= p <= 0xFFFF_FFFE_0000_0001 && p == Mul(x, y)
  {
    MulMono(x, 0, y);
    MulMono(x, y, 0xFFFF_FFFF);
    MulComm(x, 0xFFFF_FFFF);
    MulMono(0xFFFF_FFFF, x, 0xFFFF_FFFF);
    MulUnit(x);
    x as int * y as int
  }

  lemma RowStep(n: seq<Word>, was: seq<Word>, b: seq<Word>, j: nat, x: Word, low: seq<Word>, c: int, c': int)
    requires j < |n| == |was| == |b| && low == n[..j]
    requires n[j] + 0x1_0000_0000 * c' == Mul(x, b[j]) + was[j] + c
    requires Val(low) + Mul(Pow(j), c) == Val(was[..j]) + Mul(x, Val(b[..j]))
    ensures Val(n[..j + 1]) + Mul(Pow(j + 1), c') == Val(was[..j + 1]) + Mul(x, Val(b[..j + 1]))
  {
    var p := Pow(j);
    assert Pow(j + 1) == 0x1_0000_0000 * p;
    hide Mul, Pow, Val;
    ValUpTo(n, j);
    ValUpTo(was, j);
    ValUpTo(b, j);
    Balance(p, n[j], c', Mul(x, b[j]), was[j], c);
    MulAdd(x, Val(b[..j]), Mul(p, b[j]));
    MulAssoc(x, p, b[j]);
    MulComm(x, p);
    MulAssoc(p, x, b[j]);
  }

  method Multiply(a: array<Word>, b: array<Word>) returns (r: array<Word>)
    requires a.Length >= 1 && b.Length >= 1
    ensures fresh(r) && Stripped(r[..]) && Val(r[..]) == Mul(Val(a[..]), Val(b[..]))
  {
    hide Mul, Val, Pow, Strip;
    var words := a.Length + b.Length;
    var n := new Word[words];
    var i := 0;
    while i < words
      invariant 0 <= i <= words
      invariant forall k | 0 <= k < i :: n[k] == 0
    {
      n[i] := 0;
      i := i + 1;
    }
    i := 0;
    ValOne(0);
    MulUnit(Val(b[..]));
    assert a[..0] == [];
    Padded([], n[..b.Length]);
    while i < a.Length
      invariant 0 <= i <= a.Length
      invariant forall k | i + b.Length <= k < words :: n[k] == 0
      invariant Val(n[..i + b.Length]) == Mul(Val(a[..i]), Val(b[..]))
    {
      ghost var was := n[..];
      MultiplyRow(n, i, a[i], b);
      RowsSum(n[..], was, a[..], Val(b[..]), i, i + b.Length);
      i := i + 1;
    }
    assert n[..i + b.Length] == n[..] && a[..i] == a[..];
    r := CreateFromBigNum(n);
  }

  lemma RowsSum(n: seq<Word>, was: seq<Word>, a: seq<Word>, b: nat, i: nat, m: nat)
    requires i <= m < |n| == |was| && i < |a| && n[..i] == was[..i]
    requires Val(n[i..m + 1]) == Val(was[i..m]) + Mul(a[i], b)
    requires Val(was[..m]) == Mul(Val(a[..i]), b)
    ensures Val(n[..m + 1]) == Mul(Val(a[..i + 1]), b)
  {
    hide Mul, Val, Pow;
    ValSplit(n[..m + 1], i);
    assert n[..m + 1][..i] == n[..i] && n[..m + 1][i..] == n[i..m + 1];
    ValSplit(was[..m], i);
    assert was[..m][..i] == was[..i] && was[..m][i..] == was[i..m];
    ValUpTo(a, i);
    MulAdd(Pow(i), Val(was[i..m]), Mul(a[i], b));
    MulAssoc(Pow(i), a[i], b);
    MulAdd(b, Val(a[..i]), Mul(Pow(i), a[i]));
  }

  // ---- division by an integer

  lemma Shift32(v: nat, x: Word)
    ensures Shifted(v, 32, x) == 0x1_0000_0000 * v + x
  {
    hide Mul, Shifted, Pow2, Pow;
    Pow2Words(1);
    assert Pow(1) == 0x1_0000_0000 by { PowOne(); }
    ShiftedSum(v, 32, x);
    MulBase(v, 1);
    MulUnit(v);
  }

  lemma PowOne()
    ensures Pow(1) == 0x1_0000_0000
  {
    assert Pow(0) == 1;
  }

  /** Collects the quotient of one step; only the first can need two words. */
  method AppendDigit(n: array<Word>, q: int) returns (r: array<Word>)
    requires n.Length >= 1 && 0 <= q < 0x1_0000_0000_0000_0000
    requires q >= 0x1_0000_0000 ==> Val(n[..]) == 0
    ensures fresh(r) && r.Length >= 1 && Stripped(r[..]) && Val(r[..]) == 0x1_0000_0000 * Val(n[..]) + q
  {
    hide Val, Shifted;
    var high, low := q / 0x1_0000_0000, q % 0x1_0000_0000;
    r := n;
    if high != 0 {
      r := ShiftLeft(r, 32, high);
      Shift32(Val(n[..]), high);
    }
    Shift32(Val(r[..]), low);
    r := ShiftLeft(r, 32, low);
  }

  /** Long division by one word. */
  method DivideByInteger(a: array<Word>, divisor: Word) returns (quotient: array<Word>, remainder: Word)
    requires a.Length >= 1 && divisor != 0
    ensures fresh(quotient) && Stripped(quotient[..])
    ensures Val(quotient[..]) == Val(a[..]) / divisor && remainder == Val(a[..]) % divisor
  {
    hide *;
    quotient, remainder := DivideWords(a, divisor);
    DivModUnique(Val(a[..]), divisor, Val(quotient[..]), remainder);
  }

  /** The loop of the division; the running dividend stays below 64 bits. */
  method DivideWords(a: array<Word>, divisor: Word) returns (quotient: array<Word>, remainder: Word)
    requires a.Length >= 1 && divisor != 0
    ensures fresh(quotient) && Stripped(quotient[..])
    ensures Val(a[..]) == Mul(divisor, Val(quotient[..])) + remainder && remainder < divisor
  {
    hide *;
    quotient := CreateFromInteger(0);
    ValOne(0);
    var i := Significant(a, 1);
    ghost var s := a[..i];
    var dividend: int := a[i - 1];
    ValOne(a[i - 1]);
    MulUnit(divisor);
    assert s[i - 1..] == [a[i - 1]];
    while true
      invariant 1 <= i <= |s| <= a.Length
      invariant 0 <= dividend < 0x1_0000_0000 && (dividend >= divisor ==> Val(quotient[..]) == 0)
      invariant i == 1 ==> Val(quotient[..]) == 0
      invariant Val(s[i - 1..]) == Mul(divisor, Val(quotient[..])) + dividend
      invariant fresh(quotient) && quotient.Length >= 1
      decreases i
    {
      ghost var k, was, v := i, dividend, Val(quotient[..]);
      if i > 1 {
        dividend := 0x1_0000_0000 * dividend;
        i := i - 1;
        dividend := dividend + a[i - 1];
      }
      BringDown(s, k, divisor, v, was);
      var q, rest := DivideWord(dividend, divisor, was);
      quotient := AppendDigit(quotient, q);
      remainder := rest;
      Collected(Val(s[i - 1..]), divisor, v, dividend, q, rest);
      if i == 1 {
        break;
      }
      dividend := rest;
    }
    assert s[0..] == s;
  }

  /** One division of 64 by 32 bits. */
  method DivideWord(dividend: int, divisor: Word, ghost was: int) returns (q: int, rest: int)
    requires divisor != 0 && 0 <= was < 0x1_0000_0000 && 0 <= dividend < 0x1_0000_0000 * was + 0x1_0000_0000
    ensures dividend == Mul(divisor, q) + rest && 0 <= rest < divisor
    ensures 0 <= q < 0x1_0000_0000_0000_0000 && (was < divisor ==> q < 0x1_0000_0000)
  {
    hide Mul;
    q, rest := dividend / divisor, dividend % divisor;
    DivMod(dividend, divisor);
    if q < 0 {
      MulStrict(divisor, q, 0);
      MulUnit(divisor);
    }
    MulMono(q, 1, divisor);
    MulUnit(q);
    MulComm(q, divisor);
    if was < divisor && q >= 0x1_0000_0000 {
      MulMono(divisor, 0x1_0000_0000, q);
      MulBase(divisor, 1);
      MulUnit(divisor);
    }
  }

  /** One more word of the dividend, the quotient so far moving up by a word. */
  lemma BringDown(s: seq<Word>, k: nat, divisor: Word, v: nat, dividend: int)
    requires 1 <= k <= |s| && Val(s[k - 1..]) == Mul(divisor, v) + dividend
    ensures k > 1 ==> Val(s[k - 2..]) == Mul(divisor, 0x1_0000_0000 * v) + (0x1_0000_0000 * dividend + s[k - 2])
    ensures k == 1 && v == 0 ==> Val(s[k - 1..]) == Mul(divisor, 0x1_0000_0000 * v) + dividend
  {
    MulBase(divisor, v);
    if k > 1 {
      assert s[k - 2..][1..] == s[k - 1..];
      assert Val(s[k - 2..]) == s[k - 2] + 0x1_0000_0000 * Val(s[k - 1..]);
    }
  }

  lemma Collected(t: nat, divisor: Word, v: nat, dividend: nat, q: int, rest: int)
    requires t == Mul(divisor, 0x1_0000_0000 * v) + dividend && dividend == Mul(divisor, q) + rest
    ensures t == Mul(divisor, 0x1_0000_0000 * v + q) + rest
  {
    hide Mul;
    MulAdd(divisor, 0x1_0000_0000 * v, q);
  }
}
