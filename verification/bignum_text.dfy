/** Bignums from text and to text. */
module BigNumText {
  import opened Words
  import opened BigNumBasic
  import opened BigNumMultiply
  import opened BigNumQuotient
  import opened BigNumModPow

  /** The value of a character; whatever is no digit and no letter counts as zero. */
  function DigitOf(c: char): (d: Word)
    ensures d < 36
  {
    if '0' <= c <= '9' then c as int - '0' as int
    else if 'A' <= c <= 'Z' then c as int - 'A' as int + 10
    else if 'a' <= c <= 'z' then c as int - 'a' as int + 10
    else 0
  }

  function DigitChar(d: nat): (c: char)
    requires d < 36
    ensures DigitOf(c) == d
  {
    if d <= 9 then (d + '0' as int) as char else (d - 10 + 'A' as int) as char
  }

  const DIGITS := "0123456789AB" + "CDEFGHIJKLMN" + "OPQRSTUVWXYZ"

  /** The characters of the digits, one by one. */
  lemma DigitTable(d: nat)
    requires d < 36
    ensures |DIGITS| == 36 && DigitChar(d) == DIGITS[d] && DigitOf(DIGITS[d]) == d
  {
    match d
    case 0 => case 1 => case 2 => case 3 => case 4 => case 5 => case 6 => case 7 => case 8 =>
    case 9 => case 10 => case 11 => case 12 => case 13 => case 14 => case 15 => case 16 => case 17 =>
    case 18 => case 19 => case 20 => case 21 => case 22 => case 23 => case 24 => case 25 => case 26 =>
    case 27 => case 28 => case 29 => case 30 => case 31 => case 32 => case 33 => case 34 => case 35 =>
  }

  /** A lower-case letter has the value of its upper-case one. */
  lemma LowerIsUpper(k: nat)
    requires k < 26
    ensures DigitOf(('a' as int + k) as char) == DigitOf(('A' as int + k) as char) == 10 + k
  {
  }

  /** Any character that is no digit, no upper-case and no lower-case letter counts as zero. */
  lemma OtherIsZero(c: char)
    ensures DigitOf(c) > 0 ==> c in DIGITS || 'a' <= c <= 'z'
  {
    var d := DigitOf(c);
    DigitTable(d);
    hide DIGITS;
    if d > 0 && !('a' <= c <= 'z') {
      assert DigitChar(d) == c;
    }
  }

  /** The same character, or the lower-case letter of an upper-case one. */
  predicate SameDigit(c: char, e: char) {
    c == e || ('A' <= c <= 'Z' && e as int == c as int + 'a' as int - 'A' as int)
  }

  /** Cases do not matter in a text. */
  lemma {:induction false} CasesDoNotMatter(s: string, t: string, base: nat)
    requires |s| == |t| && forall i | 0 <= i < |s| :: SameDigit(s[i], t[i])
    ensures Parsed(s, base) == Parsed(t, base)
  {
    if s != [] {
      var k := |s| - 1;
      CasesDoNotMatter(s[..k], t[..k], base);
      assert SameDigit(s[k], t[k]);
      assert DigitOf(s[k]) == DigitOf(t[k]);
      hide Mul;
    }
  }

  /** The number a text stands for, its first digit the highest. */
  function Parsed(s: string, base: nat): nat {
    if s == [] then 0
    else
      var v := Parsed(s[..|s| - 1], base);
      MulNatural(v, base);
      Mul(v, base) + DigitOf(s[|s| - 1])
  }

  /** The digits of a number, none for zero. */
  function Digits(n: nat, base: nat): string
    requires 2 <= base <= 36
  {
    if n == 0 then []
    else
      Smaller(n, base);
      Digits(n / base, base) + [DigitChar(n % base)]
  }

  function Text(n: nat, base: nat): string
    requires 2 <= base <= 36
  {
    if n == 0 then "0" else Digits(n, base)
  }

  lemma Smaller(n: nat, base: nat)
    requires base >= 2
    ensures 0 <= n / base && (n > 0 ==> n / base < n) && 0 <= n % base < base
  {
    DivMod(n, base);
    hide Mul;
    var q := n / base;
    if q < 0 {
      MulStrict(base, q, 0);
      MulUnit(base);
    }
    if q >= 1 {
      MulMono(q, 2, base);
      MulComm(q, base);
      MulTwo(q, 1);
      MulUnit(q);
    }
  }

  lemma EmptyParsed(base: nat)
    ensures Parsed([], base) == 0
  {
  }

  lemma ParsedNext(s: string, i: nat, base: nat)
    requires i < |s|
    ensures Parsed(s[..i + 1], base) == Mul(Parsed(s[..i], base), base) + DigitOf(s[i])
  {
    hide Mul, DigitOf;
    assert s[..i + 1][..i] == s[..i] && s[..i + 1][i] == s[i];
  }

  method CreateFromString(value: string, base: Word) returns (result: array<Word>)
    ensures fresh(result) && Stripped(result[..]) && Val(result[..]) == Parsed(value, base)
  {
    hide Mul, Val, Stripped, Parsed;
    assert value[..0] == [] && Parsed([], base) == 0 by {
      EmptyParsed(base);
    }
    var bigBase := CreateFromInteger(base);
    result := CreateFromInteger(0);
    ValOne(base);
    ValOne(0);
    OneWordStripped(result[..]);
    var i := 0;
    while i < |value|
      invariant 0 <= i <= |value| && bigBase[..] == [base]
      invariant fresh(result) && Stripped(result[..]) && Val(result[..]) == Parsed(value[..i], base)
    {
      var digit: Word;
      if '0' <= value[i] <= '9' {
        digit := value[i] as int - '0' as int;
      } else if 'A' <= value[i] <= 'Z' {
        digit := value[i] as int - 'A' as int + 10;
      } else if 'a' <= value[i] <= 'z' {
        digit := value[i] as int - 'a' as int + 10;
      } else {
        digit := 0;
      }
      assert digit == DigitOf(value[i]);
      AtLeastOneWord(result[..]);
      var temp1 := Multiply(result, bigBase);
      AtLeastOneWord(temp1[..]);
      var temp2 := CreateFromInteger(digit);
      ValOne(digit);
      result := Add(temp1, temp2);
      ParsedNext(value, i, base);
      i := i + 1;
    }
    assert value[..i] == value;
  }

  /** The counting pass. */
  method CountDigits(a: array<Word>, base: Word) returns (digits: nat)
    requires a.Length >= 1 && 2 <= base <= 36
    ensures digits == |Digits(Val(a[..]), base)|
  {
    hide Mul, Val, Stripped, Strip;
    digits := 0;
    var temp := CreateFromBigNum(a);
    ZeroIs(temp[..]);
    while !(temp.Length == 1 && temp[0] == 0)
      invariant fresh(temp) && Stripped(temp[..])
      invariant Val(temp[..]) == 0 <==> temp.Length == 1 && temp[0] == 0
      invariant digits + |Digits(Val(temp[..]), base)| == |Digits(Val(a[..]), base)|
      decreases Val(temp[..])
    {
      Smaller(Val(temp[..]), base);
      AtLeastOneWord(temp[..]);
      var rest;
      temp, rest := DivideByInteger(temp, base);
      ZeroIs(temp[..]);
      digits := digits + 1;
    }
  }

  /** The writing pass, from the last digit to the first: it meets the start of the space
      exactly, so that both passes run equally often. */
  method ConvertToString(a: array<Word>, base: Word) returns (text: array<char>)
    requires a.Length >= 1 && 2 <= base <= 36
    ensures fresh(text) && text.Length >= 2 && text[text.Length - 1] == '\0'
    ensures text[..text.Length - 1] == Text(Val(a[..]), base)
  {
    hide *;
    var digits := CountDigits(a, base);
    NoDigits(Val(a[..]), base);
    TextIs(Val(a[..]), base);
    if digits == 0 {
      text := new char[2];
      text[0] := '0';
      text[1] := '\0';
      return;
    }
    text := new char[digits + 1];
    var i := digits;
    text[i] := '\0';
    i := i - 1;
    var temp := CreateFromBigNum(a);
    ZeroIs(temp[..]);
    ghost var all := Digits(Val(a[..]), base);
    assert all[..i + 1] == all && all[i + 1..] == [] == text[i + 1..digits];
    while !(temp.Length == 1 && temp[0] == 0)
      invariant -1 <= i < digits == |all| && text.Length == digits + 1 && text[digits] == '\0'
      invariant fresh(temp) && fresh(text) && Stripped(temp[..])
      invariant Val(temp[..]) == 0 <==> temp.Length == 1 && temp[0] == 0
      invariant Digits(Val(temp[..]), base) == all[..i + 1] && text[i + 1..digits] == all[i + 1..]
      decreases Val(temp[..])
    {
      ghost var n := Val(temp[..]);
      Smaller(n, base);
      DigitsNext(n, base, all, i);
      AtLeastOneWord(temp[..]);
      ghost var done := text[i + 1..digits];
      var digit;
      temp, digit := DivideByInteger(temp, base);
      ZeroIs(temp[..]);
      if digit <= 9 {
        text[i] := (digit + '0' as int) as char;
      } else {
        text[i] := (digit - 10 + 'A' as int) as char;
      }
      CharIs(digit);
      assert text[i + 1..digits] == done;
      assert text[i..digits] == [text[i]] + done;
      i := i - 1;
    }
    NoDigits(0, base);
  }

  lemma CharIs(digit: Word)
    requires digit < 36
    ensures DigitChar(digit) == if digit <= 9 then (digit + '0' as int) as char else (digit - 10 + 'A' as int) as char
  {
  }

  lemma TextIs(n: nat, base: nat)
    requires 2 <= base <= 36
    ensures Text(n, base) == if n == 0 then "0" else Digits(n, base)
  {
  }

  lemma NoDigits(n: nat, base: nat)
    requires 2 <= base <= 36
    ensures Digits(n, base) == [] <==> n == 0
  {
  }

  /** What is left to write, before and after one digit. */
  lemma DigitsNext(n: nat, base: nat, all: string, i: int)
    requires 2 <= base <= 36 && n > 0 && -1 <= i < |all| && Digits(n, base) == all[..i + 1]
    ensures i >= 0 && 0 <= n / base && 0 <= n % base < 36
    ensures Digits(n / base, base) == all[..i] && all[i..] == [DigitChar(n % base)] + all[i + 1..]
  {
    hide DigitChar;
    Smaller(n, base);
    NoDigits(n, base);
    var t := Digits(n / base, base);
    assert Digits(n, base) == t + [DigitChar(n % base)];
    assert all[..i + 1][..i] == t == all[..i];
    assert all[..i + 1][i] == all[i];
  }

  // ---- round trips

  lemma {:induction false} ParsedDigits(n: nat, base: nat)
    requires 2 <= base <= 36
    ensures Parsed(Digits(n, base), base) == n
  {
    hide Mul;
    if n > 0 {
      Smaller(n, base);
      ParsedDigits(n / base, base);
      var s := Digits(n, base);
      assert s[..|s| - 1] == Digits(n / base, base);
      DivMod(n, base);
      MulComm(base, n / base);
    }
  }

  /** Reading what was written gives the number back. */
  lemma ParseOfText(n: nat, base: nat)
    requires 2 <= base <= 36
    ensures Parsed(Text(n, base), base) == n
  {
    ParsedDigits(n, base);
    if n == 0 {
      assert "0"[..0] == [];
      assert Parsed("0", base) == Mul(0, base);
    }
  }

  /** Upper-case digits of the base, the first not zero unless there is just one. */
  predicate Canonical(s: string, base: nat) {
    && s != []
    && (forall c | c in s :: DigitOf(c) < base && c == DigitChar(DigitOf(c)))
    && (|s| > 1 ==> s[0] != '0')
  }

  lemma {:induction false} DigitsOfParsed(s: string, base: nat)
    requires 2 <= base <= 36 && s != [] && s[0] != '0'
    requires forall c | c in s :: DigitOf(c) < base && c == DigitChar(DigitOf(c))
    ensures Parsed(s, base) > 0 && Digits(Parsed(s, base), base) == s
  {
    hide Mul, DigitOf, DigitChar;
    var t, d := s[..|s| - 1], DigitOf(s[|s| - 1]);
    var v := Parsed(t, base);
    assert s[|s| - 1] in s;
    assert s == t + [s[|s| - 1]];
    if t == [] {
      assert v == 0;
      MulUnit(base);
      NonZeroDigit(s[0]);
    } else {
      DigitsOfParsed(t, base);
      MulStrict(base, 0, v);
      MulUnit(base);
    }
    MulComm(v, base);
    DivModUnique(Parsed(s, base), base, v, d);
  }

  lemma NonZeroDigit(c: char)
    requires c == DigitChar(DigitOf(c)) && c != '0'
    ensures DigitOf(c) != 0
  {
  }

  /** Writing what was read gives every canonical text back. */
  lemma TextOfParsed(s: string, base: nat)
    requires 2 <= base <= 36 && Canonical(s, base)
    ensures Text(Parsed(s, base), base) == s
  {
    if s[0] == '0' {
      assert s == "0" && s[..0] == [];
      assert Parsed(s, base) == Mul(0, base);
    } else {
      DigitsOfParsed(s, base);
    }
  }
}
