/** base64.c. */
module Base64 {
  import opened Common
  import Words

  // ---- the alphabet, table 1 of RFC 4648

  function CharOf(k: nat): (c: char)
    requires k < 64
  {
    if k < 26 then ('A' as int + k) as char
    else if k < 52 then ('a' as int + k - 26) as char
    else if k < 62 then ('0' as int + k - 52) as char
    else if k == 62 then '+' else '/'
  }

  /** The inverse table; -1 for a character outside the alphabet. */
  function ValueOf(c: char): (v: int)
    ensures -1 <= v < 64
  {
    if 'A' <= c <= 'Z' then c as int - 'A' as int
    else if 'a' <= c <= 'z' then c as int - 'a' as int + 26
    else if '0' <= c <= '9' then c as int - '0' as int + 52
    else if c == '+' then 62 else if c == '/' then 63 else -1
  }

  lemma ValueOfChar(k: nat)
    requires k < 64
    ensures ValueOf(CharOf(k)) == k && CharOf(k) != '='
  {
  }

  /** The table as the RFC prints it. */
  const ALPHABET := "ABCDEFGHIJKLMNOP" + "QRSTUVWXYZabcdef" + "ghijklmnopqrstuv" + "wxyz0123456789+/"

  /** The characters of the encoding are those of the table. */
  lemma TableIs(k: nat)
    requires k < 64
    ensures |ALPHABET| == 64 && CharOf(k) == ALPHABET[k]
  {
    match k
    case 0 => case 1 => case 2 => case 3 => case 4 => case 5 => case 6 => case 7 =>
    case 8 => case 9 => case 10 => case 11 => case 12 => case 13 => case 14 => case 15 =>
    case 16 => case 17 => case 18 => case 19 => case 20 => case 21 => case 22 => case 23 =>
    case 24 => case 25 => case 26 => case 27 => case 28 => case 29 => case 30 => case 31 =>
    case 32 => case 33 => case 34 => case 35 => case 36 => case 37 => case 38 => case 39 =>
    case 40 => case 41 => case 42 => case 43 => case 44 => case 45 => case 46 => case 47 =>
    case 48 => case 49 => case 50 => case 51 => case 52 => case 53 => case 54 => case 55 =>
    case 56 => case 57 => case 58 => case 59 => case 60 => case 61 => case 62 => case 63 =>
  }

  /** The inverse table finds the place of a character there, and nothing else. */
  lemma InverseIs(c: char)
    ensures ValueOf(c) == -1 <==> c !in ALPHABET
    ensures ValueOf(c) >= 0 ==> |ALPHABET| == 64 && ALPHABET[ValueOf(c)] == c
  {
    if ValueOf(c) >= 0 {
      TableIs(ValueOf(c));
    }
    if k :| 0 <= k < |ALPHABET| && ALPHABET[k] == c {
      TableIs(k);
      ValueOfChar(k);
    }
  }

  // ---- the encoding of section 4 of RFC 4648: groups of 24 bits, four characters of 6 bits each

  function Encoded(s: seq<Byte>): string {
    if s == [] then ""
    else if |s| == 1 then
      [CharOf(s[0] / 4), CharOf(s[0] % 4 * 16), '=', '=']
    else if |s| == 2 then
      [CharOf(s[0] / 4), CharOf(s[0] % 4 * 16 + s[1] / 16), CharOf(s[1] % 16 * 4), '=']
    else
      [CharOf(s[0] / 4), CharOf(s[0] % 4 * 16 + s[1] / 16), CharOf(s[1] % 16 * 4 + s[2] / 64), CharOf(s[2] % 64)] + Encoded(s[3..])
  }

  function EncodedSize(n: nat): nat {
    (if n % 3 != 0 then n + (3 - n % 3) else n) / 3 * 4
  }

  /** The size function is exact. */
  lemma {:induction false} EncodedSizeIs(s: seq<Byte>)
    ensures |Encoded(s)| == EncodedSize(|s|)
  {
    SizeNext(|s|);
    if |s| >= 3 {
      EncodedSizeIs(s[3..]);
      hide EncodedSize, CharOf;
    } else {
      hide EncodedSize, CharOf;
    }
  }

  lemma SizeNext(n: nat)
    ensures n >= 3 ==> EncodedSize(n) == 4 + EncodedSize(n - 3)
    ensures EncodedSize(0) == 0 && EncodedSize(1) == 4 == EncodedSize(2)
  {
    if n >= 3 {
      SizeParts(n / 3, n % 3);
      SizeParts(n / 3 - 1, n % 3);
    }
  }

  lemma SizeParts(q: nat, r: nat)
    requires r < 3
    ensures EncodedSize(3 * q + r) == if r == 0 then 4 * q else 4 * q + 4
  {
    assert (3 * q + r) % 3 == r;
  }

  /** Four characters from a group of bytes put together to 24 bits. */
  function Group(v: nat, bytes: nat): string
    requires v < 0x100_0000
  {
    [CharOf(v / 0x4_0000 % 64), CharOf(v / 0x1000 % 64),
     if bytes >= 2 then CharOf(v / 64 % 64) else '=', if bytes >= 3 then CharOf(v % 64) else '=']
  }

  function Bits(s: seq<Byte>, i: nat): (v: nat)
    requires i < |s|
    ensures v < 0x100_0000
  {
    0x1_0000 * (s[i] as int) + (if i + 1 < |s| then 256 * (s[i + 1] as int) else 0) + if i + 2 < |s| then s[i + 2] as int else 0
  }

  lemma GroupIs(a: Byte, b: Byte, c: Byte)
    ensures var v := Joined(a, b, c);
      && v / 0x4_0000 % 64 == a / 4 && v / 0x1000 % 64 == a % 4 * 16 + b / 16
      && v / 64 % 64 == b % 16 * 4 + c / 64 && v % 64 == c % 64
  {
    var v := Joined(a, b, c);
    Shares(v, 0x4_0000, a / 4, a % 4 * 0x1_0000 + 256 * b + c);
    Shares(v, 0x1000, 16 * a + b / 16, b % 16 * 256 + c);
    Shares(v, 64, 1024 * a + 4 * b + c / 64, c % 64);
    Shares(16 * a + b / 16, 64, a / 4, a % 4 * 16 + b / 16);
    Shares(1024 * a + 4 * b + c / 64, 64, 16 * a + b / 16, b % 16 * 4 + c / 64);
    Shares(v, 64, v / 64, c % 64);
  }

  lemma Shares(v: nat, d: nat, q: nat, r: nat)
    requires r < d && v == q * d + r
    ensures v / d == q && v % d == r
  {
    Words.DivModUnique(v, d, q, r);
  }

  lemma EncodedHead(s: seq<Byte>)
    requires s != []
    ensures Encoded(s) == Group(Bits(s, 0), |s|) + Encoded(if |s| >= 3 then s[3..] else [])
  {
    hide CharOf, Group, Encoded;
    if |s| == 1 {
      HeadOfOne(s);
    } else if |s| == 2 {
      HeadOfTwo(s);
    } else {
      HeadOfMore(s);
    }
    NothingEncoded();
    assert Group(Bits(s, 0), |s|) + "" == Group(Bits(s, 0), |s|);
  }

  /** The characters of up to three bytes, the missing ones being zero. */
  function Quad(a: Byte, b: Byte, c: Byte, bytes: nat): string {
    [CharOf(a / 4), CharOf(a % 4 * 16 + b / 16), if bytes >= 2 then CharOf(b % 16 * 4 + c / 64) else '=', if bytes >= 3 then CharOf(c % 64) else '=']
  }

  /** Three bytes as 24 bits. */
  function Joined(a: Byte, b: Byte, c: Byte): (v: nat)
    ensures v < 0x100_0000
  {
    0x1_0000 * (a as int) + 256 * (b as int) + (c as int)
  }

  lemma BitsFirst(s: seq<Byte>)
    requires s != []
    ensures Bits(s, 0) == Joined(s[0], if |s| >= 2 then s[1] else 0, if |s| >= 3 then s[2] else 0)
  {
  }

  lemma QuadFirst(s: seq<Byte>)
    requires |s| >= 3
    ensures Encoded(s) == Quad(s[0], s[1], s[2], |s|) + Encoded(s[3..])
  {
    hide CharOf;
  }

  lemma QuadLast(s: seq<Byte>)
    requires 1 <= |s| <= 2
    ensures Encoded(s) == Quad(s[0], if |s| == 2 then s[1] else 0, 0, |s|)
  {
    hide CharOf;
  }

  lemma HeadOfOne(s: seq<Byte>)
    requires |s| == 1
    ensures Encoded(s) == Group(Bits(s, 0), 1)
  {
    hide *;
    BitsFirst(s);
    QuadLast(s);
    GroupText(s[0], 0, 0, 1);
  }

  lemma HeadOfTwo(s: seq<Byte>)
    requires |s| == 2
    ensures Encoded(s) == Group(Bits(s, 0), 2)
  {
    hide *;
    BitsFirst(s);
    QuadLast(s);
    GroupText(s[0], s[1], 0, 2);
  }

  lemma HeadOfMore(s: seq<Byte>)
    requires |s| >= 3
    ensures Encoded(s) == Group(Bits(s, 0), |s|) + Encoded(s[3..])
  {
    hide *;
    BitsFirst(s);
    QuadFirst(s);
    GroupText(s[0], s[1], s[2], |s|);
  }

  lemma GroupText(a: Byte, b: Byte, c: Byte, bytes: nat)
    ensures Group(Joined(a, b, c), bytes) == Quad(a, b, c, bytes)
  {
    hide Joined, Group, Quad;
    GroupIs(a, b, c);
    var w, x, y, z := a / 4, a % 4 * 16 + b / 16, b % 16 * 4 + c / 64, c % 64;
    GroupOf(Joined(a, b, c), bytes, w, x, y, z);
    QuadOf(a, b, c, bytes, w, x, y, z);
  }

  /** The characters of four numbers below 64. */
  function Chars(w: nat, x: nat, y: nat, z: nat, bytes: nat): string
    requires w < 64 && x < 64 && y < 64 && z < 64
  {
    [CharOf(w), CharOf(x), if bytes >= 2 then CharOf(y) else '=', if bytes >= 3 then CharOf(z) else '=']
  }

  lemma GroupOf(v: nat, bytes: nat, w: nat, x: nat, y: nat, z: nat)
    requires v < 0x100_0000 && w < 64 && x < 64 && y < 64 && z < 64
    requires w == v / 0x4_0000 % 64 && x == v / 0x1000 % 64 && y == v / 64 % 64 && z == v % 64
    ensures Group(v, bytes) == Chars(w, x, y, z, bytes)
  {
    hide CharOf;
  }

  lemma QuadOf(a: Byte, b: Byte, c: Byte, bytes: nat, w: nat, x: nat, y: nat, z: nat)
    requires w < 64 && x < 64 && y < 64 && z < 64
    requires w == a / 4 && x == a % 4 * 16 + b / 16 && y == b % 16 * 4 + c / 64 && z == c % 64
    ensures Quad(a, b, c, bytes) == Chars(w, x, y, z, bytes)
  {
    hide CharOf;
  }

  lemma EncodedNext(s: seq<Byte>, i: nat)
    requires i < |s|
    ensures Encoded(s[i..]) == Group(Bits(s, i), |s| - i) + Encoded(s[if i + 3 <= |s| then i + 3 else |s|..])
  {
    hide Encoded, Group;
    EncodedHead(s[i..]);
    assert Bits(s[i..], 0) == Bits(s, i);
    hide Bits;
    if i + 3 <= |s| {
      assert s[i..][3..] == s[i + 3..];
    } else {
      assert s[|s|..] == [];
    }
  }

  /** The four assignments of the loop. */
  method WriteGroup(out: array<char>, j: nat, v: nat, bytes: nat)
    requires j + 4 <= out.Length && v < 0x100_0000
    modifies out
    ensures out[..j + 4] == old(out[..j]) + Group(v, bytes) && out[j + 4..] == old(out[j + 4..])
  {
    hide CharOf;
    out[j] := CharOf(v / 0x4_0000 % 64);
    out[j + 1] := CharOf(v / 0x1000 % 64);
    out[j + 2] := if bytes >= 2 then CharOf(v / 64 % 64) else '=';
    out[j + 3] := if bytes >= 3 then CharOf(v % 64) else '=';
    assert out[..j + 4] == out[..j] + [out[j], out[j + 1], out[j + 2], out[j + 3]];
  }

  lemma Lengths(front: string, group: string, rest: string, all: string)
    requires front + (group + rest) == all
    ensures (front + group) + rest == all && |front| + |group| <= |all|
  {
  }

  /** Nothing is encoded for no bytes; the caller provides the room the size function reckons. */
  method Encode(s: seq<Byte>, out: array<char>) returns (ok: bool)
    requires out.Length >= EncodedSize(|s|)
    modifies out
    ensures ok <==> s != []
    ensures out[..EncodedSize(|s|)] == Encoded(s) && out[EncodedSize(|s|)..] == old(out[EncodedSize(|s|)..])
  {
    hide Encoded, CharOf, EncodedSize, Group, Bits;
    EncodedSizeIs(s);
    if s == [] {
      NothingEncoded();
      return false;
    }
    ghost var was := out[..];
    var i, j := 0, 0;
    assert s[0..] == s && out[..] == "" + was;
    assert "" + Encoded(s) == Encoded(s);
    while i < |s|
      invariant 0 <= j <= |Encoded(s)| <= out.Length == |was| && 0 <= i
      invariant out[..j] + Encoded(s[if i <= |s| then i else |s|..]) == Encoded(s)
      invariant out[j..] == was[j..]
    {
      EncodedNext(s, i);
      GroupLength(Bits(s, i), |s| - i);
      var v := Shifted(s, i);
      ghost var front, rest := out[..j], Encoded(s[if i + 3 <= |s| then i + 3 else |s|..]);
      Lengths(front, Group(v, |s| - i), rest, Encoded(s));
      WriteGroup(out, j, v, |s| - i);
      i := i + 3;
      j := j + 4;
    }
    AllEncoded(s, out[..j]);
    ok := true;
  }

  /** The three bytes put together by shifting. */
  function Shifted(s: seq<Byte>, i: nat): (v: nat)
    requires i < |s|
    ensures v == Bits(s, i) < 0x100_0000
  {
    var v := s[i] as int;
    var w := if i + 1 < |s| then v * 256 + s[i + 1] else v * 256;
    if i + 2 < |s| then w * 256 + s[i + 2] else w * 256
  }

  lemma GroupLength(v: nat, bytes: nat)
    requires v < 0x100_0000
    ensures |Group(v, bytes)| == 4
  {
  }

  lemma NothingEncoded()
    ensures Encoded([]) == ""
  {
  }

  lemma AllEncoded(s: seq<Byte>, t: string)
    requires t + Encoded(s[|s|..]) == Encoded(s)
    ensures t == Encoded(s)
  {
    assert s[|s|..] == [] && t + "" == t;
  }

  // ---- decoding

  predicate ValidChar(c: char) {
    '0' <= c <= '9' || 'A' <= c <= 'Z' || 'a' <= c <= 'z' || c == '+' || c == '/' || c == '='
  }

  /** How many `=` a text ends in. */
  function Padding(t: string): (n: nat)
    ensures n <= |t|
  {
    if t != "" && t[|t| - 1] == '=' then 1 + Padding(t[..|t| - 1]) else 0
  }

  /** `b64_decoded_size`, on the 64 bits of a `size_t`. */
  method DecodedSize(t: string) returns (ret: nat)
    requires |t| < 0x1_0000_0000_0000_0000
    ensures ret == SizeTold(t)
  {
    var n := |t| / 4 * 3;
    var i := |t|;
    assert t[..|t|] == t;
    ghost var k := 0;
    ret := n;
    while i > 0
      invariant 0 <= i <= |t| && Padding(t) == k + Padding(t[..i]) && k >= 0
      invariant ret == (n - k) % 0x1_0000_0000_0000_0000
    {
      i := i - 1;
      assert t[..i + 1][..i] == t[..i];
      if t[i] == '=' {
        MinusOne(n - k);
        ret := (ret - 1) % 0x1_0000_0000_0000_0000;
        k := k + 1;
      } else {
        break;
      }
    }
  }

  lemma MinusOne(x: int)
    ensures (x % 0x1_0000_0000_0000_0000 - 1) % 0x1_0000_0000_0000_0000 == (x - 1) % 0x1_0000_0000_0000_0000
  {
  }

  /** `(v << 6) | x`, also for the -1 of the table. */
  function Or6(v: int, x: int): int
    requires -1 <= x < 64
  {
    if x == -1 then -1 else 64 * v + x
  }

  /** The 24 bits of four characters. */
  function GroupValue(a: char, b: char, c: char, d: char): int {
    var v := Or6(ValueOf(a), ValueOf(b));
    var w := if c == '=' then 64 * v else Or6(v, ValueOf(c));
    if d == '=' then 64 * w else Or6(w, ValueOf(d))
  }

  function ByteAt(v: int, k: nat): Byte
    requires k < 3
  {
    if k == 0 then v / 0x1_0000 % 256 else if k == 1 then v / 256 % 256 else v % 256
  }

  /** The bytes group `g` of the text puts out; none for an `=` in the third or fourth place. */
  predicate GroupOut(t: string, g: nat, out: seq<Byte>)
    requires 4 * g + 4 <= |t|
  {
    var v := GroupValue(t[4 * g], t[4 * g + 1], t[4 * g + 2], t[4 * g + 3]);
    && 3 * g < |out| && out[3 * g] == ByteAt(v, 0)
    && (t[4 * g + 2] != '=' ==> 3 * g + 1 < |out| && out[3 * g + 1] == ByteAt(v, 1))
    && (t[4 * g + 3] != '=' ==> 3 * g + 2 < |out| && out[3 * g + 2] == ByteAt(v, 2))
  }

  // ---- where the decoder writes

  /** The size `b64_decoded_size` tells. */
  function SizeTold(t: string): nat {
    (|t| / 4 * 3 - Padding(t)) % 0x1_0000_0000_0000_0000
  }

  /** The texts `b64_decode` accepts for a room of `outlen` bytes. */
  predicate Accepted(t: string, outlen: nat) {
    outlen >= SizeTold(t) && |t| % 4 == 0 && forall i | 0 <= i < |t| :: ValidChar(t[i])
  }

  /** Only the characters of the table and the equals sign are valid. */
  lemma ValidIs(c: char)
    ensures ValidChar(c) <==> c == '=' || c in ALPHABET
  {
    InverseIs(c);
  }

  /** What is accepted, said of the characters of the table. */
  lemma AcceptedIs(t: string, outlen: nat)
    ensures Accepted(t, outlen) <==>
      && outlen >= (|t| / 4 * 3 - Padding(t)) % 0x1_0000_0000_0000_0000 && |t| % 4 == 0
      && forall i | 0 <= i < |t| :: t[i] == '=' || t[i] in ALPHABET
  {
    hide ValidChar, Padding, ALPHABET;
    forall i | 0 <= i < |t|
      ensures ValidChar(t[i]) <==> t[i] == '=' || t[i] in ALPHABET
    {
      ValidIs(t[i]);
    }
  }

  /** `Padding` counts the equals signs at the end. */
  lemma {:induction false} PaddingCounts(t: string)
    ensures Padding(t) <= |t| && (forall i | |t| - Padding(t) <= i < |t| :: t[i] == '=')
    ensures Padding(t) < |t| ==> t[|t| - Padding(t) - 1] != '='
  {
    if t != "" && t[|t| - 1] == '=' {
      PaddingCounts(t[..|t| - 1]);
    }
  }

  /** The bytes of any group of characters at places `i`, `j`, `k`, `l` of the table. */
  lemma GroupBytes(i: nat, j: nat, k: nat, l: nat)
    requires i < 64 && j < 64 && k < 64 && l < 64
    ensures |ALPHABET| == 64
    ensures var v := GroupValue(ALPHABET[i], ALPHABET[j], ALPHABET[k], ALPHABET[l]);
      ByteAt(v, 0) == 4 * i + j / 16 && ByteAt(v, 1) == j % 16 * 16 + k / 4 && ByteAt(v, 2) == k % 4 * 64 + l
    ensures var v := GroupValue(ALPHABET[i], ALPHABET[j], ALPHABET[k], '=');
      ByteAt(v, 0) == 4 * i + j / 16 && ByteAt(v, 1) == j % 16 * 16 + k / 4
    ensures var v := GroupValue(ALPHABET[i], ALPHABET[j], '=', '='); ByteAt(v, 0) == 4 * i + j / 16
  {
    FromTable(i);
    FromTable(j);
    FromTable(k);
    FromTable(l);
    hide ALPHABET, ValueOf, CharOf;
    ThreeBytes(i, j, k, l);
    ThreeBytes(i, j, k, 0);
    ThreeBytes(i, j, 0, 0);
    hide ByteAt;
  }

  lemma FromTable(k: nat)
    requires k < 64
    ensures |ALPHABET| == 64 && ValueOf(ALPHABET[k]) == k && ALPHABET[k] != '='
  {
    TableIs(k);
    ValueOfChar(k);
    hide ALPHABET;
  }

  lemma ThreeBytes(i: nat, j: nat, k: nat, l: nat)
    requires i < 64 && j < 64 && k < 64 && l < 64
    ensures var v := 0x4_0000 * i + 0x1000 * j + 64 * k + l;
      ByteAt(v, 0) == 4 * i + j / 16 && ByteAt(v, 1) == j % 16 * 16 + k / 4 && ByteAt(v, 2) == k % 4 * 64 + l
  {
    var v := 0x4_0000 * i + 0x1000 * j + 64 * k + l;
    Shares(v, 0x1_0000, 4 * i + j / 16, j % 16 * 0x1000 + 64 * k + l);
    Shares(v, 0x100, 0x400 * i + 16 * j + k / 4, k % 4 * 64 + l);
    Shares(0x400 * i + 16 * j + k / 4, 0x100, 4 * i + j / 16, j % 16 * 16 + k / 4);
    Shares(4 * i + j / 16, 0x100, 0, 4 * i + j / 16);
  }

  /** One past the highest byte written: the last group puts out its third byte, or else its second,
      or else just its first. */
  function WriteEnd(t: string): (n: nat)
    requires |t| % 4 == 0
  {
    if t == "" then 0
    else |t| / 4 * 3 - if t[|t| - 1] != '=' then 0 else if t[|t| - 2] != '=' then 1 else 2
  }

  /** The bytes that are written: one, two or three of each group. */
  predicate Written(t: string, k: nat) {
    var n, m := k / 3 * 4, k % 3;
    n + 4 <= |t| && (m == 1 ==> t[n + 2] != '=') && (m == 2 ==> t[n + 3] != '=')
  }

  lemma WrittenOf(t: string, g: nat)
    requires 4 * g + 4 <= |t|
    ensures Written(t, 3 * g) && (Written(t, 3 * g + 1) <==> t[4 * g + 2] != '=') && (Written(t, 3 * g + 2) <==> t[4 * g + 3] != '=')
  {
  }

  /** The highest of them is the one below `WriteEnd`. */
  lemma WrittenBelowEnd(t: string)
    requires |t| % 4 == 0
    ensures (forall k: nat | Written(t, k) :: k < WriteEnd(t)) && (t != "" ==> WriteEnd(t) > 0 && Written(t, WriteEnd(t) - 1))
  {
    forall k: nat | Written(t, k)
      ensures k < WriteEnd(t)
    {
      WrittenOf(t, k / 3);
      GroupInside(t, k / 3);
    }
    if t != "" {
      WrittenOf(t, |t| / 4 - 1);
    }
  }

  lemma GroupInside(t: string, g: nat)
    requires |t| % 4 == 0 && 4 * g + 4 <= |t|
    ensures 3 * g < WriteEnd(t) <= |t| / 4 * 3
    ensures (t[4 * g + 2] != '=' ==> 3 * g + 1 < WriteEnd(t)) && (t[4 * g + 3] != '=' ==> 3 * g + 2 < WriteEnd(t))
  {
    if 4 * g + 4 < |t| {
      assert 4 * (g + 1) + 4 <= |t|;
    }
  }

  /** The highest byte is really written, whatever was there. */
  lemma EndIsWritten(t: string, out: seq<Byte>)
    requires |t| % 4 == 0 && t != "" && forall g | 0 <= g < |t| / 4 :: GroupOut(t, g, out)
    ensures var n, v := |t| - 4, GroupValue(t[|t| - 4], t[|t| - 3], t[|t| - 2], t[|t| - 1]);
      0 < WriteEnd(t) <= |out| && out[WriteEnd(t) - 1] == ByteAt(v, WriteEnd(t) - n / 4 * 3 - 1)
  {
    var g := |t| / 4 - 1;
    hide GroupValue, ByteAt;
    assert GroupOut(t, g, out);
    assert 4 * g == |t| - 4;
  }

  lemma PaddingEnds(t: string)
    ensures Padding(t) >= 1 <==> t != "" && t[|t| - 1] == '='
    ensures Padding(t) >= 2 <==> |t| >= 2 && t[|t| - 1] == '=' == t[|t| - 2]
  {
    if t != "" {
      var u := t[..|t| - 1];
      assert u != "" ==> u[|u| - 1] == t[|t| - 2];
    }
  }

  /** A room that passes the test of `b64_decode` is enough just when the text does not end in three or
      more `=`, or the room is greater than the size told by what these were counted too many. */
  lemma RoomIsEnough(t: string, outlen: nat)
    requires Accepted(t, outlen) && |t| < 0x1_0000_0000_0000_0000
    ensures WriteEnd(t) <= outlen <==> Padding(t) <= 2 || outlen >= |t| / 4 * 3 - 2
  {
    PaddingEnds(t);
    SizeIsSmall(t);
    hide Padding, SizeTold;
  }

  lemma SizeIsSmall(t: string)
    requires |t| < 0x1_0000_0000_0000_0000
    ensures var n := |t| / 4 * 3 - Padding(t); SizeTold(t) == if n >= 0 then n else n + 0x1_0000_0000_0000_0000
  {
    Wrapped(|t| / 4 * 3 - Padding(t));
  }

  lemma Wrapped(x: int)
    requires -0x1_0000_0000_0000_0000 < x < 0x1_0000_0000_0000_0000
    ensures x % 0x1_0000_0000_0000_0000 == if x >= 0 then x else x + 0x1_0000_0000_0000_0000
  {
  }

  /** A buffer of just the size told is enough if and only if the text does not end in three or more
      `=`; the other case is a text of so many `=` that the size wraps to about 2^64 bytes. */
  lemma ExactSizeIsEnough(t: string)
    requires |t| % 4 == 0 && |t| < 0x1_0000_0000_0000_0000
    ensures WriteEnd(t) <= SizeTold(t) <==> Padding(t) <= 2 || Padding(t) > |t| / 4 * 3
    ensures Padding(t) > |t| / 4 * 3 ==> SizeTold(t) >= 0xC000_0000_0000_0000
  {
    PaddingEnds(t);
    SizeIsSmall(t);
    hide Padding, SizeTold;
  }

  /** `A===` is accepted with no room at all, and its byte is written behind the end. */
  lemma OverrunExample()
    ensures SizeTold("A===") == 0 && Accepted("A===", 0) && WriteEnd("A===") == 1
  {
    var t := "A===";
    assert t == ['A', '=', '=', '='];
    PadFour('A', '=', '=', '=');
  }

  /** `outlen` is what the caller says of the room.  The code needs an accepted text not to be written
      past the end of its buffer, which it does not see to itself: `RoomIsEnough`. */
  method Decode(t: string, out: array<Byte>, outlen: nat) returns (ok: bool)
    requires |t| < 0x1_0000_0000_0000_0000 && (Accepted(t, outlen) ==> WriteEnd(t) <= out.Length)
    modifies out
    ensures ok <==> Accepted(t, outlen)
    ensures ok <==>
      && outlen >= (|t| / 4 * 3 - Padding(t)) % 0x1_0000_0000_0000_0000 && |t| % 4 == 0
      && forall i | 0 <= i < |t| :: t[i] == '=' || t[i] in ALPHABET
    ensures !ok ==> out[..] == old(out[..])
    ensures ok ==> forall g | 0 <= g < |t| / 4 :: GroupOut(t, g, out[..])
    ensures ok ==> forall k | 0 <= k < out.Length && !Written(t, k) :: out[k] == old(out[k])
  {
    hide GroupOut, GroupValue, ByteAt, WriteEnd, Written, ALPHABET;
    AcceptedIs(t, outlen);
    var size := DecodedSize(t);
    if outlen < size || |t| % 4 != 0 {
      return false;
    }
    var n := 0;
    while n < |t|
      invariant 0 <= n <= |t| && forall i | 0 <= i < n :: ValidChar(t[i])
    {
      if !ValidChar(t[n]) {
        return false;
      }
      n := n + 1;
    }
    var i, j := 0, 0;
    ghost var g := 0;
    while i < |t|
      invariant i == 4 * g && j == 3 * g && 0 <= i <= |t|
      invariant forall h | 0 <= h < g :: GroupOut(t, h, out[..])
      invariant forall k | 0 <= k < out.Length && !Written(t, k) :: out[k] == old(out[k])
    {
      ghost var was := out[..];
      GroupInside(t, g);
      WrittenOf(t, g);
      var v := GroupValue(t[i], t[i + 1], t[i + 2], t[i + 3]);
      out[j] := ByteAt(v, 0);
      if t[i + 2] != '=' {
        out[j + 1] := ByteAt(v, 1);
      }
      if t[i + 3] != '=' {
        out[j + 2] := ByteAt(v, 2);
      }
      GroupsStay(t, g, was, out[..]);
      i := i + 4;
      j := j + 3;
      g := g + 1;
    }
    ok := true;
  }

  /** The way the callers decode: a buffer of the size told.  They are safe with every text that is not
      accepted or does not end in three or more `=`. */
  method DecodeExactly(t: string) returns (ok: bool, bytes: seq<Byte>)
    requires |t| < 0x1_0000_0000_0000_0000 && (Accepted(t, SizeTold(t)) ==> Padding(t) <= 2)
    ensures ok <==> Accepted(t, SizeTold(t))
    ensures ok <==> |t| % 4 == 0 && forall i | 0 <= i < |t| :: t[i] == '=' || t[i] in ALPHABET
    ensures |bytes| == SizeTold(t) && (ok ==> forall g | 0 <= g < |t| / 4 :: GroupOut(t, g, bytes))
  {
    hide GroupOut, WriteEnd, Padding, ValidChar, ALPHABET;
    AcceptedIs(t, SizeTold(t));
    var size := DecodedSize(t);
    if Accepted(t, size) {
      ExactSizeIsEnough(t);
    }
    hide Accepted, SizeTold;
    var out := new Byte[size];
    ok := Decode(t, out, size);
    bytes := out[..];
  }

  lemma GroupsStay(t: string, g: nat, was: seq<Byte>, now: seq<Byte>)
    requires 4 * g + 4 <= |t| && |was| == |now| && 3 * g < |now|
    requires forall h | 0 <= h < g :: GroupOut(t, h, was)
    requires forall k | 0 <= k < 3 * g :: now[k] == was[k]
    requires var v := GroupValue(t[4 * g], t[4 * g + 1], t[4 * g + 2], t[4 * g + 3]);
      && now[3 * g] == ByteAt(v, 0)
      && (t[4 * g + 2] != '=' ==> 3 * g + 1 < |now| && now[3 * g + 1] == ByteAt(v, 1))
      && (t[4 * g + 3] != '=' ==> 3 * g + 2 < |now| && now[3 * g + 2] == ByteAt(v, 2))
    ensures forall h | 0 <= h <= g :: GroupOut(t, h, now)
  {
    hide GroupValue, ByteAt;
    forall h | 0 <= h < g
      ensures GroupOut(t, h, now)
    {
      assert GroupOut(t, h, was);
    }
  }

  // ---- decoding what was encoded

  /** Group `g` of an encoding. */
  lemma {:induction false} EncodedGroup(s: seq<Byte>, g: nat)
    requires 3 * g < |s|
    ensures 4 * g + 4 <= |Encoded(s)| && Encoded(s)[4 * g..4 * g + 4] == Group(Bits(s, 3 * g), |s| - 3 * g)
  {
    hide Encoded, Group, Bits;
    EncodedHead(s);
    GroupLength(Bits(s, 0), |s|);
    if g > 0 {
      EncodedGroup(s[3..], g - 1);
      BitsBehind(s, 3 * g);
      SliceBehind(Group(Bits(s, 0), |s|), Encoded(s[3..]), 4 * g);
    } else {
      SliceFront(Group(Bits(s, 0), |s|), Encoded(if |s| >= 3 then s[3..] else []));
    }
  }

  lemma BitsBehind(s: seq<Byte>, i: nat)
    requires 3 <= i < |s|
    ensures Bits(s[3..], i - 3) == Bits(s, i)
  {
  }

  lemma SliceBehind(a: string, b: string, i: nat)
    requires |a| == 4 <= i && i <= |b|
    ensures i + 4 <= |a + b| && (a + b)[i..i + 4] == b[i - 4..i]
  {
  }

  lemma SliceFront(a: string, b: string)
    requires |a| == 4
    ensures |a + b| >= 4 && (a + b)[0..4] == a
  {
  }

  /** The value read from a group is the one it was made of. */
  lemma GroupBack(s: seq<Byte>, i: nat, t: string)
    requires i < |s| && t == Group(Bits(s, i), |s| - i)
    ensures |t| == 4 && (t[2] != '=' <==> i + 1 < |s|) && (t[3] != '=' <==> i + 2 < |s|)
    ensures var v := GroupValue(t[0], t[1], t[2], t[3]);
      && ByteAt(v, 0) == s[i]
      && (i + 1 < |s| ==> ByteAt(v, 1) == s[i + 1])
      && (i + 2 < |s| ==> ByteAt(v, 2) == s[i + 2])
  {
    var a := s[i];
    var b: Byte := if i + 1 < |s| then s[i + 1] else 0;
    var c: Byte := if i + 2 < |s| then s[i + 2] else 0;
    assert Bits(s, i) == 0x1_0000 * a + 256 * b + c;
    GroupIs(a, b, c);
    CharsBack(t[0], t[1], t[2], t[3], a, b, c, |s| - i);
    hide CharOf, ValueOf, Bits, GroupValue, ByteAt;
    BytesBack(a, b, c);
  }

  /** Characters of the alphabet for the first two, and for the others as far as there are bytes. */
  lemma CharsBack(x: char, y: char, z: char, w: char, a: Byte, b: Byte, c: Byte, bytes: nat)
    requires x == CharOf(a / 4) && y == CharOf(a % 4 * 16 + b / 16)
    requires z == if bytes >= 2 then CharOf(b % 16 * 4 + c / 64) else '='
    requires w == if bytes >= 3 then CharOf(c % 64) else '='
    requires (bytes < 2 ==> b == 0) && (bytes < 3 ==> c == 0)
    ensures (z != '=' <==> bytes >= 2) && (w != '=' <==> bytes >= 3)
    ensures GroupValue(x, y, z, w) == 0x1_0000 * a + 256 * b + c
  {
    ValueOfChar(a / 4);
    ValueOfChar(a % 4 * 16 + b / 16);
    ValueOfChar(b % 16 * 4 + c / 64);
    ValueOfChar(c % 64);
    hide CharOf, ValueOf;
    Together(a, b, c);
  }

  lemma Together(a: Byte, b: Byte, c: Byte)
    ensures 64 * (64 * (64 * (a / 4) + (a % 4 * 16 + b / 16)) + (b % 16 * 4 + c / 64)) + c % 64 == 0x1_0000 * a + 256 * b + c
  {
  }

  lemma BytesBack(a: Byte, b: Byte, c: Byte)
    ensures var v := 0x1_0000 * a + 256 * b + c; ByteAt(v, 0) == a && ByteAt(v, 1) == b && ByteAt(v, 2) == c
  {
  }

  /** What decoding an encoding puts out begins with the bytes that were encoded. */
  lemma DecodedBack(s: seq<Byte>, out: seq<Byte>)
    requires |out| >= |s|
    requires forall g | 0 <= g < |Encoded(s)| / 4 :: GroupOut(Encoded(s), g, out)
    ensures out[..|s|] == s
  {
    var t := Encoded(s);
    EncodedSizeIs(s);
    SizesFit(|s|);
    hide Encoded, GroupValue, Group, Bits, ByteAt, GroupOut, EncodedSize;
    forall k | 0 <= k < |s|
      ensures out[k] == s[k]
    {
      assert GroupOut(t, k / 3, out);
      DecodedAt(s, out, k / 3, k);
    }
  }

  lemma DecodedAt(s: seq<Byte>, out: seq<Byte>, g: nat, k: nat)
    requires 3 * g <= k < |s| <= |out| && k < 3 * g + 3 && 4 * g + 4 <= |Encoded(s)| && GroupOut(Encoded(s), g, out)
    ensures out[k] == s[k]
  {
    hide Encoded, GroupValue, Group, Bits, ByteAt;
    var t := Encoded(s);
    EncodedGroup(s, g);
    var u := t[4 * g..4 * g + 4];
    assert u[0] == t[4 * g] && u[1] == t[4 * g + 1] && u[2] == t[4 * g + 2] && u[3] == t[4 * g + 3];
    GroupBack(s, 3 * g, u);
  }

  lemma SizesFit(n: nat)
    ensures EncodedSize(n) % 4 == 0 && n <= EncodedSize(n) / 4 * 3
    ensures EncodedSize(n) / 4 * 3 - n == if n % 3 == 0 then 0 else 3 - n % 3
    ensures forall k | 0 <= k < n :: k / 3 < EncodedSize(n) / 4
  {
    var q, r := n / 3, n % 3;
    SizeParts(q, r);
    assert n == 3 * q + r;
    hide EncodedSize;
  }

  /** The size function for decoding is exact as well. */
  lemma DecodedSizeIs(s: seq<Byte>)
    ensures |Encoded(s)| / 4 * 3 - Padding(Encoded(s)) == |s|
  {
    EncodedSizeIs(s);
    SizesFit(|s|);
    PaddingIs(s);
  }

  lemma {:induction false} PaddingIs(s: seq<Byte>)
    ensures Padding(Encoded(s)) == if |s| % 3 == 0 then 0 else 3 - |s| % 3
  {
    hide Encoded, Group, Padding, Bits;
    if s == [] {
      NoPadding();
    } else {
      var v, rest := Bits(s, 0), if |s| >= 3 then s[3..] else [];
      EncodedHead(s);
      LastOfGroup(v, |s|);
      if |s| > 3 {
        PaddingIs(rest);
        FirstChar(rest);
        PaddingTail(Group(v, |s|), Encoded(rest));
        assert |rest| % 3 == |s| % 3;
      } else {
        NothingEncoded();
        assert rest == [] && Group(v, |s|) + "" == Group(v, |s|);
      }
    }
  }

  lemma NoPadding()
    ensures Padding(Encoded([])) == 0
  {
  }

  lemma LastOfGroup(v: nat, bytes: nat)
    requires v < 0x100_0000 && bytes > 0
    ensures Padding(Group(v, bytes)) == if bytes >= 3 then 0 else 3 - bytes
  {
    ValueOfChar(v / 0x1000 % 64);
    ValueOfChar(v / 64 % 64);
    ValueOfChar(v % 64);
    hide CharOf;
    var g := Group(v, bytes);
    PadFour(g[0], g[1], g[2], g[3]);
    assert g == [g[0], g[1], g[2], g[3]];
  }

  lemma FirstChar(s: seq<Byte>)
    requires s != []
    ensures Encoded(s) != "" && Encoded(s)[0] != '='
  {
    ValueOfChar(s[0] / 4);
  }

  lemma PadFour(x: char, y: char, z: char, w: char)
    ensures Padding([x, y, z, w]) ==
      if w != '=' then 0 else if z != '=' then 1 else if y != '=' then 2 else if x != '=' then 3 else 4
  {
    assert [x, y, z, w][..3] == [x, y, z] && [x, y, z][..2] == [x, y] && [x, y][..1] == [x] && [x][..0] == [];
    assert Padding([x]) == if x != '=' then 0 else 1;
    assert Padding([x, y]) == if y != '=' then 0 else 1 + Padding([x]);
    assert Padding([x, y, z]) == if z != '=' then 0 else 1 + Padding([x, y]);
  }

  lemma {:induction false} PaddingTail(a: string, b: string)
    ensures b != "" && (exists i :: 0 <= i < |b| && b[i] != '=') ==> Padding(a + b) == Padding(b)
  {
    if b != "" && b[|b| - 1] == '=' {
      PaddingTail(a, b[..|b| - 1]);
      assert (a + b)[..|a + b| - 1] == a + b[..|b| - 1];
    }
  }

  /** The size told is enough room for an encoding. */
  lemma EncodingFits(s: seq<Byte>)
    requires EncodedSize(|s|) < 0x1_0000_0000_0000_0000
    ensures |Encoded(s)| % 4 == 0 && SizeTold(Encoded(s)) == |s| && Padding(Encoded(s)) <= 2
  {
    hide Encoded, EncodedSize;
    EncodedSizeIs(s);
    SizesFit(|s|);
    DecodedSizeIs(s);
    PaddingIs(s);
  }

  /** Encoding and decoding again, into a buffer of just the size told: accepted, and the bytes come
      back. */
  method RoundTrip(s: seq<Byte>) returns (ok: bool, bytes: seq<Byte>)
    requires s != [] && EncodedSize(|s|) < 0x1_0000_0000_0000_0000
    ensures ok && bytes == s
  {
    hide Encoded, EncodedSize, SizeTold, WriteEnd, GroupOut;
    var text := new char[EncodedSize(|s|)];
    var _ := Encode(s, text);
    EncodedSizeIs(s);
    EncodingFits(s);
    var t := text[..];
    assert t == Encoded(s);
    AllValid(s);
    ok, bytes := DecodeExactly(t);
    DecodedBack(s, bytes);
    assert bytes[..|s|] == bytes;
  }

  lemma {:induction false} AllValid(s: seq<Byte>)
    ensures forall i | 0 <= i < |Encoded(s)| :: ValidChar(Encoded(s)[i])
  {
    if |s| >= 3 {
      AllValid(s[3..]);
    }
  }
}
