/** bignum.c up to multiplication.  A bignum is an array of words, the low word first; the
    leading count word of the C layout is the length of the array. */
module BigNumBasic {
  import opened Words

  method CreateFromInteger(value: Word) returns (r: array<Word>)
    ensures fresh(r) && r[..] == [value]
  {
    r := new Word[1];
    r[0] := value;
  }

  method CreateFromBigNum(value: array<Word>) returns (r: array<Word>)
    requires value.Length >= 1
    ensures fresh(r) && r[..] == Strip(value[..])
  {
    hide Val;
    var words := value.Length;
    assert value[..words] == value[..];
    while words > 1 && value[words - 1] == 0
      invariant 1 <= words <= value.Length
      invariant Strip(value[..words]) == Strip(value[..])
    {
      assert value[..words][..words - 1] == value[..words - 1];
      words := words - 1;
    }
    r := new Word[words];
    var i := 0;
    while i < words
      invariant 0 <= i <= words
      invariant r[..i] == value[..i]
    {
      r[i] := value[i];
      i := i + 1;
    }
    assert r[..] == value[..words];
  }

  /** The index past the highest nonzero word, but at least `least`. */
  method Significant(a: array<Word>, least: nat) returns (words: nat)
    requires least <= a.Length
    ensures least <= words <= a.Length && Val(a[..words]) == Val(a[..])
    ensures words > least ==> a[words - 1] != 0
  {
    hide Val, Pow;
    words := a.Length;
    assert a[..words] == a[..];
    while words > least && a[words - 1] == 0
      invariant least <= words <= a.Length
      invariant Val(a[..words]) == Val(a[..])
    {
      ZeroOnTop(a[..words]);
      assert a[..words][..words - 1] == a[..words - 1];
      words := words - 1;
    }
  }

  function Sign(x: int): int {
    if x > 0 then 1 else if x < 0 then -1 else 0
  }

  /** Compares the numbers, whatever leading zero words they carry. */
  method Compare(a: array<Word>, b: array<Word>) returns (result: int)
    requires a.Length >= 1 && b.Length >= 1
    ensures result == Sign(Val(a[..]) - Val(b[..]))
  {
    hide Val, Pow, Mul, Stripped, Strip;
    var words1 := Significant(a, 1);
    var words2 := Significant(b, 1);
    if words1 > words2 {
      Longer(a[..words1], b[..words2]);
      result := 1;
    } else if words2 > words1 {
      Longer(b[..words2], a[..words1]);
      result := -1;
    } else {
      result := CompareWords(a, b, words1);
    }
  }

  /** The loop over the words of two numbers of one length, from the highest word down. */
  method CompareWords(a: array<Word>, b: array<Word>, words: nat) returns (result: int)
    requires words <= a.Length && words <= b.Length
    ensures result == Sign(Val(a[..words]) - Val(b[..words]))
  {
    hide Val, Pow, Mul, Stripped, Strip;
    ghost var s, t := a[..words], b[..words];
    var w := words;
    while w > 0
      invariant 0 <= w <= words
      invariant s[w..] == t[w..]
    {
      assert s[w - 1] == a[w - 1] && t[w - 1] == b[w - 1];
      if a[w - 1] != b[w - 1] {
        Decides(s, t, w - 1);
      }
      if a[w - 1] > b[w - 1] {
        return 1;
      }
      if b[w - 1] > a[w - 1] {
        return -1;
      }
      FromBelow(s, w);
      FromBelow(t, w);
      w := w - 1;
    }
    assert s[0..] == s && t[0..] == t;
    return 0;
  }

  lemma FromBelow(s: seq<Word>, w: nat)
    requires 0 < w <= |s|
    ensures s[w - 1..] == [s[w - 1]] + s[w..]
  {
  }

  /** The highest word in which two numbers of equal length differ decides. */
  lemma Decides(s: seq<Word>, t: seq<Word>, k: nat)
    requires k < |s| == |t| && s[k + 1..] == t[k + 1..] && s[k] != t[k]
    ensures Sign(Val(s) - Val(t)) == Sign(s[k] as int - t[k] as int)
  {
    if s[k] < t[k] {
      Below(s, t, k);
    } else {
      Below(t, s, k);
    }
  }

  // ---- addition and subtraction

  /** The result space of both operations, filled with the words of `b` and zeros above. */
  method PaddedCopy(b: array<Word>, words: nat) returns (n: array<Word>)
    ensures fresh(n) && n.Length == words
    ensures forall k | 0 <= k < words :: n[k] == if k < b.Length then b[k] else 0
  {
    n := new Word[words];
    var i := 0;
    while i < words
      invariant 0 <= i <= words
      invariant forall k | 0 <= k < i :: n[k] == if k < b.Length then b[k] else 0
    {
      n[i] := if i < b.Length then b[i] else 0;
      i := i + 1;
    }
  }

  method Add(a: array<Word>, b: array<Word>) returns (r: array<Word>)
    requires a.Length >= 1 && b.Length >= 1
    ensures fresh(r) && Stripped(r[..]) && Val(r[..]) == Val(a[..]) + Val(b[..])
  {
    if b.Length > a.Length {
      r := AddShorter(b, a);
    } else {
      r := AddShorter(a, b);
    }
  }

  method AddShorter(a: array<Word>, b: array<Word>) returns (r: array<Word>)
    requires a.Length >= b.Length >= 1
    ensures fresh(r) && Stripped(r[..]) && Val(r[..]) == Val(a[..]) + Val(b[..])
  {
    hide Val, Pow, Strip, Mul;
    ValOne(0);
    MulUnit(Pow(0));
    var n := PaddedCopy(b, a.Length + 1);
    ghost var v := n[..];
    Padded(b[..], v);
    var carry: Word := 0;
    var i := 0;
    assert n[..0] == a[..0] == v[..0] == [];
    while i < a.Length
      invariant 0 <= i <= a.Length && carry <= 1
      invariant forall k | i <= k < n.Length :: n[k] == v[k]
      invariant Val(n[..i]) + Mul(Pow(i), carry) == Val(a[..i]) + Val(v[..i])
    {
      var product := n[i] + a[i] + carry;
      ghost var low, c := n[..i], carry;
      n[i] := product % 0x1_0000_0000;
      carry := product / 0x1_0000_0000;
      AddStep(n[..], a[..], v, i, low, c, carry);
      i := i + 1;
    }
    assert v[i] == 0 && v[..i + 1] == v;
    n[i] := n[i] + carry;
    assert n[..i + 1] == n[..];
    ValUpTo(n[..], i);
    ValUpTo(v, i);
    MulUnit(Pow(i));
    assert a[..i] == a[..];
    r := CreateFromBigNum(n);
  }

  lemma AddStep(n: seq<Word>, a: seq<Word>, v: seq<Word>, i: nat, low: seq<Word>, c: int, c': int)
    requires i < |n| == |v| && i < |a| && low == n[..i]
    requires n[i] + 0x1_0000_0000 * c' == a[i] + v[i] + c
    requires Val(low) + Mul(Pow(i), c) == Val(a[..i]) + Val(v[..i])
    ensures Val(n[..i + 1]) + Mul(Pow(i + 1), c') == Val(a[..i + 1]) + Val(v[..i + 1])
  {
    var p := Pow(i);
    assert Pow(i + 1) == 0x1_0000_0000 * p;
    ValUpTo(n, i);
    ValUpTo(a, i);
    ValUpTo(v, i);
    Balance(p, n[i], c', a[i], v[i], c);
  }

  lemma Balance(p: int, x: int, c': int, a: int, b: int, c: int)
    requires x + 0x1_0000_0000 * c' == a + b + c
    ensures Mul(p, x) + Mul(0x1_0000_0000 * p, c') == Mul(p, a) + Mul(p, b) + Mul(p, c)
  {
    hide Mul;
    MulBase(p, c');
    MulAdd(p, x, 0x1_0000_0000 * c');
    MulAdd(p, a, b);
    MulAdd(p, a + b, c);
  }

  /** Zero when `b` is the greater number. */
  method Subtract(a: array<Word>, b: array<Word>) returns (r: array<Word>)
    requires a.Length >= 1 && b.Length >= 1
    ensures fresh(r) && Stripped(r[..])
    ensures Val(r[..]) == if Val(a[..]) <= Val(b[..]) then 0 else Val(a[..]) - Val(b[..])
  {
    hide Val, Pow, Strip, Mul;
    ValOne(0);
    var result := Compare(a, b);
    if result <= 0 {
      r := CreateFromInteger(0);
      return;
    }
    MulUnit(Pow(0));
    var n := PaddedCopy(b, a.Length + 1);
    ghost var v := n[..];
    PaddedOrCut(b[..], a[..], v);
    var carry: Word := 0;
    var i := 0;
    assert n[..0] == a[..0] == v[..0] == [];
    while i < a.Length
      invariant 0 <= i <= a.Length && carry <= 1
      invariant forall k | i <= k < n.Length :: n[k] == v[k]
      invariant Val(n[..i]) + Val(v[..i]) == Val(a[..i]) + Mul(Pow(i), carry)
    {
      ghost var low, c := n[..i], carry;
      var product := a[i] as int - n[i] as int;
      if carry != 0 {
        product := product - 1;
        carry := 0;
      }
      n[i] := product % 0x1_0000_0000;
      if product < 0 {
        carry := 1;
      }
      SubtractStep(n[..], a[..], v, i, low, c, carry);
      i := i + 1;
    }
    SubtractEnd(n[..], a[..], v, i, carry);
    assert a[..i] == a[..];
    r := CreateFromBigNum(n);
  }

  /** The copy holds the whole of `b`: where `b` is longer, its extra words are zero. */
  lemma PaddedOrCut(b: seq<Word>, a: seq<Word>, v: seq<Word>)
    requires |v| == |a| + 1 && forall k | 0 <= k < |v| :: v[k] == if k < |b| then b[k] else 0
    requires Val(b) < Val(a)
    ensures Val(v) == Val(b) && v[|a|] == 0
  {
    if |b| <= |v| {
      Padded(b, v);
    } else {
      assert v == b[..|v|];
      AllZero(b, |v|, a);
      Padded(b[..|v|], b);
    }
    if v[|a|] != 0 {
      Longer(v, a);
    }
  }

  lemma {:induction false} AllZero(b: seq<Word>, k: nat, a: seq<Word>)
    requires Val(b) < Val(a) && |a| <= k <= |b|
    ensures forall i | k <= i < |b| :: b[i] == 0
    decreases |b|
  {
    if k < |b| {
      if b[|b| - 1] != 0 {
        Longer(b, a);
      }
      ZeroOnTop(b);
      AllZero(b[..|b| - 1], k, a);
    }
  }

  lemma SubtractStep(n: seq<Word>, a: seq<Word>, v: seq<Word>, i: nat, low: seq<Word>, c: int, c': int)
    requires i < |n| == |v| && i < |a| && low == n[..i]
    requires n[i] + v[i] + c == a[i] + 0x1_0000_0000 * c'
    requires Val(low) + Val(v[..i]) == Val(a[..i]) + Mul(Pow(i), c)
    ensures Val(n[..i + 1]) + Val(v[..i + 1]) == Val(a[..i + 1]) + Mul(Pow(i + 1), c')
  {
    var p := Pow(i);
    assert Pow(i + 1) == 0x1_0000_0000 * p;
    ValUpTo(n, i);
    ValUpTo(a, i);
    ValUpTo(v, i);
    Balance(p, a[i], c', n[i], v[i], c);
  }

  /** The last borrow is zero because the difference is not negative. */
  lemma SubtractEnd(n: seq<Word>, a: seq<Word>, v: seq<Word>, i: nat, c: int)
    requires |n| == |v| == i + 1 && |a| == i && n[i] == v[i] == 0 && 0 <= c <= 1
    requires Val(n[..i]) + Val(v[..i]) == Val(a[..i]) + Mul(Pow(i), c)
    requires Val(v) < Val(a)
    ensures Val(n) == Val(a) - Val(v)
  {
    hide *;
    assert Val(n[..i]) == Val(n) by { ZeroOnTop(n); }
    assert Val(v[..i]) == Val(v) by { ZeroOnTop(v); }
    assert a[..i] == a;
    assert Val(n) < Pow(i) by { ValBound(n[..i]); }
    NoBorrow(Val(n), Pow(i), c);
  }

  lemma NoBorrow(x: int, p: int, c: int)
    requires 0 <= c <= 1 && x < p && x - Mul(p, c) > 0
    ensures Mul(p, c) == 0
  {
    hide Mul;
    MulUnit(p);
  }
}
