/** The shifts of bignum.c. */
module BigNumShift {
  import opened Words
  import opened Bits
  import opened BigNumBasic

  /** 32 bits are a word. */
  lemma {:induction false} Pow2Words(n: nat)
    ensures Pow2(32 * n) == Pow(n)
  {
    hide Mul;
    if n > 0 {
      Pow2Words(n - 1);
      Pow2Add(32, 32 * (n - 1));
      Pow2Word();
      MulBase(1, Pow(n - 1));
      MulUnit(Pow(n - 1));
    }
  }

  lemma Pow2Word()
    ensures Pow2(32) == 0x1_0000_0000
  {
    Pow2Add(16, 16);
    Pow2Add(8, 8);
    assert Pow2(8) == 256;
  }

  lemma Pow2Split(bits: nat)
    ensures Pow2(bits) == Mul(Pow(bits / 32), Pow2(bits % 32))
    ensures Mul(Pow2(bits % 32), Pow2(32 - bits % 32)) == 0x1_0000_0000
  {
    hide Mul, Pow2;
    Pow2Words(bits / 32);
    Pow2Add(32 * (bits / 32), bits % 32);
    Pow2Words(1);
    assert Pow(1) == 0x1_0000_0000 * Pow(0);
    Pow2Add(bits % 32, 32 - bits % 32);
  }

  // ---- shifting right

  /** The low word of a pair of words shifted right by the bits of `p`. */
  function RightWord(hi: Word, lo: Word, p: int): Word
    requires p > 0
  {
    ((0x1_0000_0000 * hi + lo) / p) % 0x1_0000_0000
  }

  lemma RightWordSplit(hi: Word, lo: Word, p: int, q: int)
    requires p > 0 && q > 0 && Mul(p, q) == 0x1_0000_0000
    ensures Mul(p, RightWord(hi, lo, p)) + lo % p == lo + 0x1_0000_0000 * (hi % p)
  {
    hide Mul;
    DivMod(lo, p);
    DivMod(hi, p);
    var a, r, c, d := lo / p, lo % p, hi / p, hi % p;
    var x := Mul(d, q) + a;
    PairSplit(hi, lo, p, q, a, r, c, d);
    PairBound(lo, p, q, a, r, d);
    DivModUnique(0x1_0000_0000 * hi + lo, p, 0x1_0000_0000 * c + x, r);
    LowOf(c, x);
    MulAdd(p, Mul(d, q), a);
    MulAssoc(p, d, q);
    MulComm(p, d);
    MulAssoc(d, p, q);
    assert Mul(p, Mul(d, q)) == Mul(d, 0x1_0000_0000);
    MulBase(d, 1);
    MulUnit(d);
  }

  lemma LowOf(c: int, x: Word)
    ensures (0x1_0000_0000 * c + x) % 0x1_0000_0000 == x
  {
  }

  lemma PairSplit(hi: int, lo: int, p: int, q: int, a: int, r: int, c: int, d: int)
    requires Mul(p, q) == 0x1_0000_0000 && lo == Mul(p, a) + r && hi == Mul(p, c) + d
    ensures 0x1_0000_0000 * hi + lo == Mul(p, 0x1_0000_0000 * c + (Mul(d, q) + a)) + r
  {
    hide Mul;
    MulBase(p, c);
    MulAdd(p, 0x1_0000_0000 * c, Mul(d, q) + a);
    MulAdd(p, Mul(d, q), a);
    MulAssoc(p, d, q);
    MulComm(p, d);
    MulAssoc(d, p, q);
    MulBase(d, 1);
    MulUnit(d);
  }

  lemma PairBound(lo: Word, p: int, q: int, a: int, r: int, d: int)
    requires p > 0 && q > 0 && Mul(p, q) == 0x1_0000_0000 && lo == Mul(p, a) + r && 0 <= r < p && 0 <= d < p
    ensures 0 <= a < q && 0 <= Mul(d, q) + a < 0x1_0000_0000
  {
    hide Mul;
    if a < 0 {
      MulStrict(p, a, 0);
      MulUnit(p);
    }
    if a >= q {
      MulMono(p, q, a);
    }
    MulMono(q, d + 1, p);
    MulComm(p, q);
    MulComm(d + 1, q);
    MulAdd(q, d, 1);
    MulUnit(q);
    MulComm(d, q);
    MulMono(q, 0, d);
  }

  /** The word after `w[i]`, zero past the end. */
  function Above(w: seq<Word>, i: nat): Word {
    if i < |w| then w[i] else 0
  }

  lemma {:induction false} RightValue(w: seq<Word>, s: seq<Word>, p: int, q: int, i: nat)
    requires p > 0 && q > 0 && Mul(p, q) == 0x1_0000_0000
    requires |s| == |w| >= i && forall k | 0 <= k < |w| :: s[k] == RightWord(Above(w, k + 1), w[k], p)
    ensures Mul(p, Val(s[..i])) + Above(w, 0) % p == Val(w[..i]) + Mul(Pow(i), Above(w, i) % p)
  {
    hide Mul, RightWord, Val;
    if i == 0 {
      ValOne(0);
      MulUnit(p);
      MulUnit(Above(w, 0) % p);
    } else {
      var k := i - 1;
      RightValue(w, s, p, q, k);
      RightWordSplit(Above(w, i), w[k], p, q);
      ValUpTo(s, k);
      ValUpTo(w, k);
      RightSum(p, Val(s[..k]), Pow(k), s[k], w[k] % p, w[k], Above(w, i) % p);
    }
  }

  lemma RightSum(p: int, v: int, b: int, x: int, r: int, y: int, z: int)
    requires Mul(p, x) + r == y + 0x1_0000_0000 * z
    ensures Mul(p, v + Mul(b, x)) + Mul(b, r) == Mul(p, v) + Mul(b, y) + Mul(0x1_0000_0000 * b, z)
  {
    hide Mul;
    MulAdd(p, v, Mul(b, x));
    MulAssoc(p, b, x);
    MulComm(p, b);
    MulAssoc(b, p, x);
    MulAdd(b, Mul(p, x), r);
    MulAdd(b, y, 0x1_0000_0000 * z);
    MulBase(b, z);
  }

  /** The loop of the shift: words `skip` to `skip + words` of `a`, moved down by `shiftBits`. */
  method ShiftRightWords(a: array<Word>, skip: nat, words: nat, shiftBits: nat) returns (b: array<Word>)
    requires 1 <= words && skip + words <= a.Length && shiftBits < 32
    ensures fresh(b) && b.Length == words && Val(b[..]) == Val(a[skip..skip + words]) / Pow2(shiftBits)
  {
    hide Mul, Val, Pow, Pow2;
    ghost var w := a[skip..skip + words];
    var p := Pow2(shiftBits);
    b := new Word[words];
    var i := 0;
    while i < words
      invariant 0 <= i <= words
      invariant forall k | 0 <= k < i :: b[k] == RightWord(Above(w, k + 1), w[k], p)
    {
      var twoWords: int := if i + 1 < words then a[i + skip + 1] else 0;
      twoWords := 0x1_0000_0000 * twoWords + a[i + skip];
      b[i] := (twoWords / p) % 0x1_0000_0000;
      assert b[i] == RightWord(Above(w, i + 1), w[i], p);
      i := i + 1;
    }
    hide RightWord, Above;
    Pow2Split(shiftBits);
    RightWhole(w, b[..], p, Pow2(32 - shiftBits));
  }

  method ShiftRight(a: array<Word>, bits: nat) returns (r: array<Word>)
    requires a.Length >= 1
    ensures fresh(r) && Stripped(r[..]) && Val(r[..]) == Val(a[..]) / Pow2(bits)
  {
    hide Mul, Val, Pow, Pow2, Strip;
    var words := Significant(a, 0);
    var shiftBits, skip := bits % 32, bits / 32;
    ghost var top := words;
    if words > skip {
      words := words - skip;
    } else {
      words := 0;
    }
    ghost var w := if words == 0 then [] else a[skip..top];
    Skipped(a[..], top, bits, w);
    if words <= 1 {
      var x: Word;
      if words == 0 || skip >= a.Length {
        x := 0;
      } else {
        x := a[skip];
      }
      ValOne(x);
      assert words == 1 ==> w == [x];
      x := ShiftedWord(x, Pow2(shiftBits));
      ValOne(x);
      r := CreateFromInteger(x);
    } else {
      var b := ShiftRightWords(a, skip, words, shiftBits);
      if b[words - 1] == 0 {
        r := CreateFromBigNum(b);
      } else {
        r := b;
      }
    }
  }

  function ShiftedWord(x: Word, p: nat): (r: Word)
    requires p >= 1
    ensures r == x / p
  {
    QuotientSmall(x, p);
    x / p
  }

  lemma QuotientSmall(x: Word, p: nat)
    requires p >= 1
    ensures 0 <= x / p < 0x1_0000_0000
  {
  }

  /** Words below `bits / 32` do not reach the result. */
  lemma Skipped(a: seq<Word>, top: nat, bits: nat, w: seq<Word>)
    requires top <= |a| && Val(a[..top]) == Val(a)
    requires w == if top > bits / 32 then a[bits / 32..top] else []
    ensures Val(a) / Pow2(bits) == Val(w) / Pow2(bits % 32)
  {
    hide Mul, Val, Pow, Pow2;
    var skip := bits / 32;
    Pow2Split(bits);
    if top > skip {
      ValDivMod(a[..top], skip);
      assert a[..top][skip..] == w;
    } else {
      ValBound(a[..top]);
      PowMono(top, skip);
      ValOne(0);
      MulUnit(Pow(skip));
      DivModUnique(Val(a), Pow(skip), 0, Val(a));
    }
    DivTwice(Val(a), Pow(skip), Pow2(bits % 32));
  }

  lemma DivTwice(n: nat, c: nat, d: nat)
    requires c >= 1 && d >= 1
    ensures Mul(c, d) >= 1 && n / Mul(c, d) == (n / c) / d
  {
    var q, r := n / c, n % c;
    var s, t := q / d, q % d;
    DivMod(n, c);
    DivMod(q, d);
    hide Mul;
    MulAdd(c, Mul(d, s), t);
    MulAssoc(c, d, s);
    MulMono(c, 1, d);
    MulUnit(c);
    MulMono(c, t + 1, d);
    MulAdd(c, t, 1);
    MulMono(c, 0, t);
    DivModUnique(n, Mul(c, d), s, Mul(c, t) + r);
  }

  lemma RightWhole(w: seq<Word>, s: seq<Word>, p: nat, q: nat)
    requires p >= 1 && q >= 1 && Mul(p, q) == 0x1_0000_0000
    requires |s| == |w| >= 1 && forall k | 0 <= k < |w| :: s[k] == RightWord(Above(w, k + 1), w[k], p)
    ensures Val(s) == Val(w) / p
  {
    hide Mul, Val, Pow;
    RightValue(w, s, p, q, |w|);
    assert s[..|w|] == s && w[..|w|] == w;
    MulUnit(Pow(|w|));
    assert 0 % p == 0;
    DivMod(w[0], p);
    DivModUnique(Val(w), p, Val(s), w[0] % p);
  }

  // ---- shifting left

  /** The high word of a pair of words shifted left by the bits of `p`, within 64 bits. */
  function LeftWord(hi: Word, lo: Word, p: int): Word
    requires p > 0
  {
    ((0x1_0000_0000 * hi + lo) * p % 0x1_0000_0000_0000_0000) / 0x1_0000_0000
  }

  lemma LeftWordSplit(hi: Word, lo: Word, p: int, q: int)
    requires p > 0 && q > 0 && Mul(p, q) == 0x1_0000_0000
    ensures LeftWord(hi, lo, p) == Mul(p, hi % q) + lo / q && lo / q < p
  {
    var c, d, a, r := hi / q, hi % q, lo / q, lo % q;
    DivMod(hi, q);
    DivMod(lo, q);
    LeftBound(lo, p, q, a, r, d);
    var x := Mul(p, d) + a;
    var z := Mul(p, r);
    assert (0x1_0000_0000 * hi + lo) * p == 0x1_0000_0000_0000_0000 * c + (0x1_0000_0000 * x + z) by {
      LeftProduct(hi, lo, p, q, a, r, c, d);
    }
    Low64(c, x, z);
  }

  lemma LeftProduct(hi: int, lo: int, p: int, q: int, a: int, r: int, c: int, d: int)
    requires Mul(p, q) == 0x1_0000_0000 && lo == Mul(q, a) + r && hi == Mul(q, c) + d
    ensures (0x1_0000_0000 * hi + lo) * p == 0x1_0000_0000_0000_0000 * c + (0x1_0000_0000 * (Mul(p, d) + a) + Mul(p, r))
  {
    assert (0x1_0000_0000 * hi + lo) * p == Mul(p, 0x1_0000_0000 * hi + lo);
    hide Mul;
    MulAdd(p, 0x1_0000_0000 * hi, lo);
    MulBase(p, hi);
    MulAdd(p, Mul(q, c), d);
    MulAdd(p, Mul(q, a), r);
    MulAssoc(p, q, c);
    MulAssoc(p, q, a);
    MulBase(1, c);
    MulBase(1, a);
    MulUnit(c);
    MulUnit(a);
  }

  lemma Low64(c: int, x: int, z: int)
    requires 0 <= x < 0x1_0000_0000 && 0 <= z < 0x1_0000_0000
    ensures ((0x1_0000_0000_0000_0000 * c + (0x1_0000_0000 * x + z)) % 0x1_0000_0000_0000_0000) / 0x1_0000_0000 == x
  {
    assert 0 <= 0x1_0000_0000 * x + z < 0x1_0000_0000_0000_0000;
    assert (0x1_0000_0000_0000_0000 * c + (0x1_0000_0000 * x + z)) % 0x1_0000_0000_0000_0000 == 0x1_0000_0000 * x + z;
  }

  lemma LeftBound(lo: Word, p: int, q: int, a: int, r: int, d: int)
    requires p > 0 && q > 0 && Mul(p, q) == 0x1_0000_0000 && lo == Mul(q, a) + r && 0 <= r < q && 0 <= d < q
    ensures 0 <= a < p && 0 <= Mul(p, d) + a < 0x1_0000_0000 && 0 <= Mul(p, r) < 0x1_0000_0000
  {
    hide Mul;
    MulComm(p, q);
    if a < 0 {
      MulStrict(q, a, 0);
      MulUnit(q);
    }
    if a >= p {
      MulMono(q, p, a);
    }
    MulStrict(p, d, q);
    MulStrict(p, r, q);
    MulMono(p, 0, d);
    MulMono(p, 0, r);
    MulUnit(p);
  }

  /** The word below `w[i]`, zero below the lowest. */
  function BelowWord(w: seq<Word>, i: nat): Word {
    if 1 <= i <= |w| then w[i - 1] else 0
  }

  lemma {:induction false} LeftValue(w: seq<Word>, s: seq<Word>, p: int, q: int, i: nat)
    requires p > 0 && q > 0 && Mul(p, q) == 0x1_0000_0000
    requires i <= |s| == |w| + 1 && forall k | 0 <= k < |s| :: s[k] == LeftWord(Above(w, k), BelowWord(w, k), p)
    ensures i <= |w| ==> Mul(p, Val(w[..i])) == Val(s[..i]) + Mul(Pow(i), BelowWord(w, i) / q)
    ensures i == |s| ==> Mul(p, Val(w)) == Val(s)
  {
    if i == 0 {
      hide Mul, LeftWord, Val;
      ValOne(0);
      MulUnit(p);
      assert 0 / q == 0;
      MulUnit(Pow(0));
    } else {
      var k := i - 1;
      LeftValue(w, s, p, q, k);
      LeftWordSplit(Above(w, k), BelowWord(w, k), p, q);
      assert Pow(i) == 0x1_0000_0000 * Pow(k);
      hide Mul, LeftWord, Val, Pow;
      ValUpTo(s, k);
      if i <= |w| {
        ValUpTo(w, k);
        DivMod(w[k], q);
        LeftSum(p, q, Val(w[..k]), Pow(k), w[k], s[k], BelowWord(w, k) / q);
      } else {
        assert w[..k] == w && s[..i] == s;
        assert 0 % q == 0;
        MulUnit(p);
      }
    }
  }

  lemma LeftSum(p: int, q: int, v: int, b: int, y: int, x: int, a: int)
    requires q > 0 && Mul(p, q) == 0x1_0000_0000 && x == Mul(p, y % q) + a && y == Mul(q, y / q) + y % q
    ensures Mul(p, v + Mul(b, y)) == Mul(p, v) - Mul(b, a) + Mul(b, x) + Mul(0x1_0000_0000 * b, y / q)
  {
    hide Mul;
    var c, d := y / q, y % q;
    MulAdd(p, v, Mul(b, y));
    MulAssoc(p, b, y);
    MulComm(p, b);
    MulAssoc(b, p, y);
    MulAdd(p, Mul(q, c), d);
    MulAssoc(p, q, c);
    MulBase(1, c);
    MulUnit(c);
    MulAdd(b, 0x1_0000_0000 * c, Mul(p, d));
    MulAdd(b, Mul(p, d), a);
    MulBase(b, c);
  }

  // ---- the bits of a second number put into the low word

  /** The value after a shift left, before and after the low word takes in `orValue`. */
  function Shifted(v: nat, bits: nat, orValue: Word): nat {
    var n := Mul(v, Pow2(bits));
    n - n % 0x1_0000_0000 + BitOr(n % 0x1_0000_0000, orValue)
  }

  /** One turn of the loop below: the high half of the two words of `a` that meet in word `j` of the result. */
  method ShiftTwoWords(a: array<Word>, words: nat, skip: nat, j: nat, p: nat, ghost w: seq<Word>) returns (x: Word)
    requires |w| <= a.Length && w == a[..|w|] && words == |w| + skip + 1 && j < words && p > 0
    ensures x == if j < skip then 0 else LeftWord(Above(w, j - skip), BelowWord(w, j - skip), p)
  {
    var twoWords: int := 0;
    if j >= skip {
      if j < words - 1 {
        twoWords := a[j - skip];
        twoWords := 0x1_0000_0000 * twoWords;
      }
      if j > skip {
        twoWords := twoWords + a[j - skip - 1];
      }
    }
    x := (twoWords * p % 0x1_0000_0000_0000_0000) / 0x1_0000_0000;
  }

  method ShiftLeft(a: array<Word>, bits: nat, orValue: Word) returns (r: array<Word>)
    requires a.Length >= 1
    ensures fresh(r) && Stripped(r[..]) && Val(r[..]) == Shifted(Val(a[..]), bits, orValue)
  {
    hide Mul, Val, Pow, Pow2, Strip, BitOr, Shifted, LeftWord, Above, BelowWord;
    var words := Significant(a, 0);
    ghost var w := a[..words];
    if words == 0 {
      ValOne(orValue);
      ShiftedZero(bits, orValue);
      r := CreateFromInteger(orValue);
    } else {
      var shiftBits, skip := bits % 32, bits / 32;
      words := words + skip + 1;
      var p := Pow2(shiftBits);
      var b := new Word[words];
      var j := words;
      while j > 0
        invariant 0 <= j <= words
        invariant forall k | j <= k < words :: b[k] == if k < skip then 0 else LeftWord(Above(w, k - skip), BelowWord(w, k - skip), p)
      {
        j := j - 1;
        b[j] := ShiftTwoWords(a, words, skip, j, p, w);
      }
      LeftWhole(w, b[..], skip, bits);
      ghost var s := b[..];
      OrWord(s[0], orValue);
      b[0] := BitOr(b[0], orValue);
      OrValueIn(s, b[..], orValue);
      ShiftedIs(Val(w), bits, orValue, s);
      if b[words - 1] == 0 {
        r := CreateFromBigNum(b);
      } else {
        r := b;
      }
    }
  }

  lemma ShiftedZero(bits: nat, orValue: Word)
    ensures Shifted(0, bits, orValue) == orValue
  {
    BitOrZero(orValue);
  }

  lemma OrWord(x: Word, y: Word)
    ensures BitOr(x, y) < 0x1_0000_0000
  {
    Pow2Words(1);
    assert Pow(1) == 0x1_0000_0000 * Pow(0);
    BitOrBound(x, y, 32);
  }

  /** The words of the loop, zeros below `skip`, are the shifted number. */
  lemma LeftWhole(w: seq<Word>, b: seq<Word>, skip: nat, bits: nat)
    requires skip == bits / 32 && |b| == |w| + skip + 1
    requires forall k | 0 <= k < |b| :: b[k] == if k < skip then 0 else LeftWord(Above(w, k - skip), BelowWord(w, k - skip), Pow2(bits % 32))
    ensures Val(b) == Mul(Val(w), Pow2(bits))
  {
    hide Mul, Val, Pow, Pow2, LeftWord;
    var p, s := Pow2(bits % 32), b[skip..];
    Pow2Split(bits);
    LeftValue(w, s, p, Pow2(32 - bits % 32), |s|);
    ValSplit(b, skip);
    Padded([], b[..skip]);
    ValOne(0);
    MulAssoc(Pow(skip), p, Val(w));
    MulComm(Pow2(bits), Val(w));
  }

  lemma OrValueIn(s: seq<Word>, t: seq<Word>, orValue: Word)
    requires |s| >= 1 && BitOr(s[0], orValue) < 0x1_0000_0000 && t == s[0 := BitOr(s[0], orValue)]
    ensures Val(t) == Val(s) - s[0] + BitOr(s[0], orValue) && Val(s) % 0x1_0000_0000 == s[0]
  {
    assert s[1..] == t[1..];
  }

  lemma ShiftedIs(v: nat, bits: nat, orValue: Word, s: seq<Word>)
    requires |s| >= 1 && Val(s) == Mul(v, Pow2(bits)) && Val(s) % 0x1_0000_0000 == s[0]
    ensures Shifted(v, bits, orValue) == Val(s) - s[0] + BitOr(s[0], orValue)
  {
    hide Val, Pow2, BitOr;
  }

  /** What the callers use: the second number fits below the shifted bits. */
  lemma ShiftedSum(v: nat, bits: nat, orValue: Word)
    requires orValue < Pow2(bits)
    ensures Shifted(v, bits, orValue) == Mul(v, Pow2(bits)) + orValue
  {
    hide Mul, Pow2, BitOr;
    if bits >= 32 {
      LowZero(v, bits);
      BitOrZero(orValue);
    } else {
      LowPart(v, bits);
      LowOr(v % Pow2(32 - bits), orValue, bits);
    }
  }

  lemma LowZero(v: nat, bits: nat)
    requires bits >= 32
    ensures Mul(v, Pow2(bits)) % 0x1_0000_0000 == 0
  {
    hide Mul, Pow2;
    Pow2Split(bits);
    var p := Pow(bits / 32 - 1);
    assert Pow(bits / 32) == 0x1_0000_0000 * p;
    MulBase(p, Pow2(bits % 32));
    MulBase(v, Mul(p, Pow2(bits % 32)));
  }

  lemma LowPart(v: nat, bits: nat)
    requires bits < 32
    ensures Mul(v, Pow2(bits)) % 0x1_0000_0000 == Mul(v % Pow2(32 - bits), Pow2(bits))
  {
    Pow2Split(bits);
    PartSum(v, Pow2(bits), Pow2(32 - bits));
  }

  lemma PartSum(v: nat, p: nat, q: nat)
    requires p >= 1 && q >= 1 && Mul(p, q) == 0x1_0000_0000
    ensures Mul(v, p) % 0x1_0000_0000 == Mul(v % q, p)
  {
    hide Mul;
    var c, d := v / q, v % q;
    DivMod(v, q);
    MulComm(v, p);
    MulAdd(p, Mul(q, c), d);
    MulAssoc(p, q, c);
    MulComm(p, d);
    MulStrict(p, d, q);
    MulMono(p, 0, d);
    MulUnit(p);
    DivModUnique(Mul(v, p), 0x1_0000_0000, c, Mul(d, p));
  }

  lemma LowOr(x: nat, y: nat, n: nat)
    requires y < Pow2(n)
    ensures BitOr(Mul(x, Pow2(n)), y) == Mul(x, Pow2(n)) + y
  {
    BitOrSum(x, y, n);
  }
}
