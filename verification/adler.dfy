/** `CRC_Adler32` of crc.c. */
module Adler {
  import opened Common
  import Words

  type Word = Words.Word

  const MOD_ADLER: int := 65521

  // ---- the checksum as section 2.2 of RFC 1950 defines it, byte by byte

  function S1(data: seq<Byte>): (s: nat)
    ensures s < MOD_ADLER
  {
    if data == [] then 1 else (S1(data[..|data| - 1]) + data[|data| - 1]) % MOD_ADLER
  }

  function S2(data: seq<Byte>): (s: nat)
    ensures s < MOD_ADLER
  {
    if data == [] then 0 else (S2(data[..|data| - 1]) + S1(data)) % MOD_ADLER
  }

  function Checksum(data: seq<Byte>): Word {
    S2(data) * 65536 + S1(data)
  }

  // ---- bounds

  const A_START: int := 65865
  const B_START: int := 1048560
  const CHUNK: int := 5550

  /** How far `b` can have grown after `t` bytes of a chunk. */
  function Growth(t: nat): nat {
    if t == 0 then 0 else Growth(t - 1) + A_START + 255 * t
  }

  lemma {:induction false} GrowthIs(t: nat)
    ensures 2 * Growth(t) == 2 * A_START * t + 255 * (t * (t + 1))
  {
    if t > 0 {
      GrowthIs(t - 1);
      assert t * (t + 1) == (t - 1) * t + 2 * t;
    }
  }

  lemma {:induction false} GrowthMono(t: nat, u: nat)
    requires t <= u
    ensures Growth(t) <= Growth(u)
  {
    if t < u {
      GrowthMono(t, u - 1);
    }
  }

  /** In a chunk of 5550 bytes `b` just fits a word. */
  lemma ChunkFits(t: nat)
    requires t <= CHUNK
    ensures B_START + Growth(t) <= 4294625685 < 0x1_0000_0000
  {
    GrowthMono(t, CHUNK);
    GrowthIs(CHUNK);
  }

  /** The partial reduction: 65536 is 15 more than the modulus. */
  function Reduce(x: Word): Word {
    x % 65536 + x / 65536 * 15
  }

  lemma ReduceKeeps(x: Word)
    ensures Reduce(x) % MOD_ADLER == x % MOD_ADLER
    ensures Reduce(x) <= B_START && (x <= A_START + 255 * CHUNK ==> Reduce(x) <= A_START) && (x <= B_START ==> Reduce(x) <= 65760)
  {
    var q := x / 65536;
    assert x == Reduce(x) + MOD_ADLER * q;
    Multiple(Reduce(x), q);
  }

  lemma Multiple(x: int, q: int)
    ensures (x + MOD_ADLER * q) % MOD_ADLER == x % MOD_ADLER
  {
  }

  lemma SumMod(x: int, y: int, d: int)
    requires x % MOD_ADLER == y
    ensures (x + d) % MOD_ADLER == (y + d) % MOD_ADLER
  {
    Multiple(y + d, x / MOD_ADLER);
  }

  lemma SumMod2(x: int, y: int, u: int, v: int)
    requires x % MOD_ADLER == y && u % MOD_ADLER == v
    ensures (x + u) % MOD_ADLER == (y + v) % MOD_ADLER
  {
    SumMod(x, y, u);
    SumMod(u, v, y);
  }

  /** The accumulators stand for the two sums, and one byte more. */
  lemma NextByte(data: seq<Byte>, i: nat, a: nat, b: nat)
    requires i < |data| && a % MOD_ADLER == S1(data[..i]) && b % MOD_ADLER == S2(data[..i])
    ensures (a + data[i]) % MOD_ADLER == S1(data[..i + 1])
    ensures (b + (a + data[i])) % MOD_ADLER == S2(data[..i + 1])
  {
    assert data[..i + 1][..i] == data[..i];
    SumMod(a, S1(data[..i]), data[i]);
    SumMod2(b, S2(data[..i]), a + data[i], S1(data[..i + 1]));
  }

  /** The inner loop: `tlen` bytes from `start` on. */
  method Chunk(data: seq<Byte>, start: nat, tlen: nat, a0: Word, b0: Word) returns (a: Word, b: Word)
    requires 0 < tlen <= CHUNK && start + tlen <= |data| && a0 <= A_START && b0 <= B_START
    requires a0 % MOD_ADLER == S1(data[..start]) && b0 % MOD_ADLER == S2(data[..start])
    ensures a <= A_START + 255 * CHUNK
    ensures a % MOD_ADLER == S1(data[..start + tlen]) && b % MOD_ADLER == S2(data[..start + tlen])
  {
    hide S1, S2, Growth;
    a, b := a0, b0;
    var left, i := tlen, start;
    ghost var t: nat := 0;
    NoGrowth();
    while true
      invariant 0 < left && left + t == tlen && i == start + t
      invariant a <= A_START + 255 * t && b <= B_START + Growth(t)
      invariant a % MOD_ADLER == S1(data[..i]) && b % MOD_ADLER == S2(data[..i])
      decreases left
    {
      NextByte(data, i, a, b);
      OneMore(t);
      ChunkFits(t + 1);
      assert a + data[i] < 0x1_0000_0000 && b + (a + data[i]) < 0x1_0000_0000;
      a := (a + data[i]) % 0x1_0000_0000;
      b := (b + a) % 0x1_0000_0000;
      i := i + 1;
      t := t + 1;
      left := left - 1;
      if left == 0 {
        break;
      }
    }
  }

  /** The checksum of RFC 1950 for every string of bytes; neither accumulator ever wraps. */
  method Adler32(data: seq<Byte>) returns (r: Word)
    ensures r == Checksum(data)
  {
    hide S1, S2, Reduce;
    var a: Word, b: Word := 1, 0;
    var len, i := |data|, 0;
    EmptySums();
    assert data[..0] == [];
    while len != 0
      invariant 0 <= len && i + len == |data|
      invariant a <= A_START && b <= B_START && a % MOD_ADLER == S1(data[..i]) && b % MOD_ADLER == S2(data[..i])
    {
      var tlen := if len > 5550 then 5550 else len;
      len := len - tlen;
      a, b := Chunk(data, i, tlen, a, b);
      i := i + tlen;
      ReduceKeeps(a);
      ReduceKeeps(b);
      a := Reduce(a);
      b := Reduce(b);
    }
    assert data[..i] == data;
    Subtract(a);
    if a >= MOD_ADLER {
      a := a - MOD_ADLER;
    }
    ReduceKeeps(b);
    b := Reduce(b);
    Subtract(b);
    if b >= MOD_ADLER {
      b := b - MOD_ADLER;
    }
    r := b * 65536 + a;
  }

  lemma EmptySums()
    ensures S1([]) == 1 && S2([]) == 0
  {
  }

  lemma NoGrowth()
    ensures Growth(0) == 0
  {
  }

  lemma OneMore(t: nat)
    ensures Growth(t + 1) == Growth(t) + A_START + 255 * (t + 1)
  {
  }

  lemma Subtract(x: nat)
    requires x < 2 * MOD_ADLER
    ensures x % MOD_ADLER == if x >= MOD_ADLER then x - MOD_ADLER else x
  {
  }

  // ---- the two sums at once

  function Sum(data: seq<Byte>): nat {
    if data == [] then 0 else data[0] + Sum(data[1..])
  }

  /** Each byte as often as there are bytes from it on. */
  function Weighted(data: seq<Byte>): nat {
    if data == [] then 0 else Times(|data|, data[0]) + Weighted(data[1..])
  }

  function Times(n: nat, x: nat): nat {
    if n == 0 then 0 else x + Times(n - 1, x)
  }

  lemma {:induction false} SumSnoc(data: seq<Byte>, x: Byte)
    ensures Sum(data + [x]) == Sum(data) + x && Weighted(data + [x]) == Weighted(data) + Sum(data) + x
  {
    var all := data + [x];
    if data == [] {
      assert all == [x] && [x][1..] == [];
      assert Times(1, x) == x + Times(0, x);
    } else {
      SumSnoc(data[1..], x);
      assert all[1..] == data[1..] + [x] && all[0] == data[0];
      hide Times;
      OneMoreTime(|data|, data[0]);
    }
  }

  lemma OneMoreTime(n: nat, x: nat)
    ensures Times(n + 1, x) == x + Times(n, x)
  {
  }

  /** The low half is one more than the sum of the bytes, the high half the number of bytes and each byte as often as there are
      bytes from it on, both modulo 65521. */
  lemma {:induction false} ChecksumIs(data: seq<Byte>)
    ensures S1(data) == (1 + Sum(data)) % 65521 && S2(data) == (|data| + Weighted(data)) % 65521
    ensures Checksum(data) == (|data| + Weighted(data)) % 65521 * 65536 + (1 + Sum(data)) % 65521
  {
    if data != [] {
      var rest, x := data[..|data| - 1], data[|data| - 1];
      assert data == rest + [x];
      ChecksumIs(rest);
      SumSnoc(rest, x);
      hide Sum, Weighted;
      SumMod(1 + Sum(rest), S1(rest), x);
      SumMod2(|rest| + Weighted(rest), S2(rest), 1 + Sum(rest) + x, S1(data));
    }
  }
}
