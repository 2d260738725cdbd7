/** Powers of two and bitwise operations on natural numbers. */
module Bits {
  import opened Words

  function Pow2(n: nat): (p: nat)
    ensures p >= 1
  {
    if n == 0 then 1 else 2 * Pow2(n - 1)
  }

  lemma {:induction false} Pow2Add(m: nat, n: nat)
    ensures Pow2(m + n) == Mul(Pow2(m), Pow2(n))
  {
    if m > 0 {
      Pow2Add(m - 1, n);
      assert Mul(2 * Pow2(m - 1), Pow2(n)) == 2 * Mul(Pow2(m - 1), Pow2(n)) by {
        MulAdd(Pow2(n), Pow2(m - 1), Pow2(m - 1));
      }
      hide Mul;
    }
  }

  /** Bitwise or. */
  function BitOr(x: nat, y: nat): nat {
    if x == 0 && y == 0 then 0
    else (if x % 2 == 1 || y % 2 == 1 then 1 else 0) + 2 * BitOr(x / 2, y / 2)
  }

  lemma {:induction false} BitOrBound(x: nat, y: nat, n: nat)
    requires x < Pow2(n) && y < Pow2(n)
    ensures BitOr(x, y) < Pow2(n)
  {
    if x != 0 || y != 0 {
      assert Pow2(n) == 2 * Pow2(n - 1);
      BitOrBound(x / 2, y / 2, n - 1);
    }
  }

  lemma {:induction false} BitOrZero(y: nat)
    ensures BitOr(0, y) == y
  {
    if y != 0 {
      BitOrZero(y / 2);
    }
  }

  /** Where the first number has no bits, or-ing is adding. */
  lemma {:induction false} BitOrSum(x: nat, y: nat, n: nat)
    requires y < Pow2(n)
    ensures BitOr(x * Pow2(n), y) == x * Pow2(n) + y
  {
    if n == 0 {
      BitOrLeft(x);
    } else {
      var p := Pow2(n - 1);
      assert x * Pow2(n) == 2 * (x * p);
      BitOrSum(x, y / 2, n - 1);
      assert (2 * (x * p)) / 2 == x * p;
    }
  }

  lemma {:induction false} BitOrLeft(x: nat)
    ensures BitOr(x, 0) == x
  {
    if x != 0 {
      BitOrLeft(x / 2);
    }
  }

  /** Bitwise and. */
  function BitAnd(x: nat, y: nat): nat {
    if x == 0 || y == 0 then 0 else (if x % 2 == 1 && y % 2 == 1 then 1 else 0) + 2 * BitAnd(x / 2, y / 2)
  }

  /** The mask of the `k` low bits takes a remainder. */
  lemma {:induction false} MaskIsRemainder(x: nat, k: nat)
    ensures BitAnd(x, Pow2(k) - 1) == x % Pow2(k)
  {
    if k == 0 {
      assert Pow2(k) == 1;
      RemainderByOne(x);
    } else if x == 0 {
      MulUnit(Pow2(k));
      DivModUnique(0, Pow2(k), 0, 0);
    } else {
      var p := Pow2(k - 1);
      MaskIsRemainder(x / 2, k - 1);
      HalfRemainder(x, p);
      Odd(p);
      assert Pow2(k) == 2 * p;
    }
  }

  lemma RemainderByOne(x: int)
    ensures x % 1 == 0
  {
  }

  lemma Odd(p: nat)
    requires p >= 1
    ensures (2 * p - 1) % 2 == 1 && (2 * p - 1) / 2 == p - 1
  {
  }

  lemma HalfRemainder(x: nat, p: nat)
    requires p >= 1
    ensures x % (2 * p) == x % 2 + 2 * ((x / 2) % p)
  {
    var h, b := x / 2, x % 2;
    DivMod(h, p);
    assert x == 2 * h + b;
    hide Mul;
    var q, r := h / p, h % p;
    assert Mul(2 * p, q) == 2 * Mul(p, q) by {
      MulComm(2 * p, q);
      MulComm(p, q);
      MulAdd(q, p, p);
    }
    DivModUnique(x, 2 * p, q, b + 2 * r);
  }
}
