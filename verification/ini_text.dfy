/** The text of an ini file: reading it line by line, and writing it.  Text is without its
    terminating null; at the end of it the code reads the null. */
module IniText {
  import opened Common

  datatype Entry = Entry(name: string, value: string)

  datatype Section = Section(name: string, entries: seq<Entry>)

  const NUL: char := '\0'

  function At(t: string, i: nat): char {
    if i < |t| then t[i] else NUL
  }

  predicate NoNul(t: string) {
    forall i | 0 <= i < |t| :: t[i] != NUL
  }

  predicate Blank(c: char) {
    c == ' ' || c == '\t' || c == '\r'
  }

  predicate Space(c: char) {
    c == ' ' || c == '\t'
  }

  // ---- lines

  function FirstLine(t: string): (l: string)
    ensures l <= t
  {
    if t == "" || t[0] == '\n' then "" else [t[0]] + FirstLine(t[1..])
  }

  function AfterLine(t: string): (r: string)
    ensures t != "" ==> |r| < |t|
    ensures t == "" ==> r == ""
  {
    if t == "" then "" else if t[0] == '\n' then t[1..] else AfterLine(t[1..])
  }

  function TrimStart(s: string): string {
    if s != "" && Blank(s[0]) then TrimStart(s[1..]) else s
  }

  function TrimEnd(s: string): (r: string)
    ensures r <= s
  {
    if s != "" && Blank(s[|s| - 1]) then TrimEnd(s[..|s| - 1]) else s
  }

  /** The first line, trimmed. */
  function Line(t: string): string {
    TrimEnd(TrimStart(FirstLine(t)))
  }

  /** The character behind the trimmed line, as far as it is part of the line. */
  function Behind(t: string): char {
    var s := TrimStart(FirstLine(t));
    var l := TrimEnd(s);
    if |l| < |s| then s[|l|] else '\n'
  }

  lemma Sub(t: string, i: nat, j: nat, a: nat, b: nat)
    requires i <= j <= |t| && a <= b <= j - i
    ensures t[i..j][a..b] == t[i + a..i + b]
  {
    var u, v := t[i..j][a..b], t[i + a..i + b];
    assert |u| == |v|;
    forall k | 0 <= k < |u|
      ensures u[k] == v[k]
    {
      assert u[k] == t[i..j][a + k] == t[i + (a + k)];
    }
  }

  /** Up to the first line ending. */
  lemma {:induction false} LineAt(t: string, i: nat, nl: nat)
    requires i <= nl <= |t| && (forall k | i <= k < nl :: t[k] != '\n') && (nl < |t| ==> t[nl] == '\n')
    ensures FirstLine(t[i..]) == t[i..nl] && AfterLine(t[i..]) == if nl < |t| then t[nl + 1..] else ""
    decreases nl - i
  {
    if i < nl {
      LineAt(t, i + 1, nl);
      assert t[i..][1..] == t[i + 1..] && t[i..nl] == [t[i]] + t[i + 1..nl];
    } else if nl < |t| {
      assert t[i..][1..] == t[i + 1..];
    }
  }

  lemma {:induction false} TrimStartAt(t: string, i: nat, n: nat, e: nat)
    requires i <= n <= e <= |t| && (forall k | i <= k < n :: Blank(t[k])) && (n < e ==> !Blank(t[n]))
    ensures TrimStart(t[i..e]) == t[n..e]
    decreases n - i
  {
    if i < n {
      TrimStartAt(t, i + 1, n, e);
      assert t[i..e][1..] == t[i + 1..e];
    }
  }

  lemma {:induction false} TrimEndAt(t: string, i: nat, n: nat, e: nat)
    requires i <= n <= e <= |t| && (forall k | n <= k < e :: Blank(t[k])) && (n > i ==> !Blank(t[n - 1]))
    ensures TrimEnd(t[i..e]) == t[i..n]
    decreases e - n
  {
    if n == e {
      assert n > i ==> t[i..e][e - i - 1] == t[e - 1];
    } else {
      TrimEndAt(t, i, n, e - 1);
      assert t[i..e][e - i - 1] == t[e - 1] && Blank(t[e - 1]);
      assert t[i..e][..e - i - 1] == t[i..e - 1];
    }
  }

  /** `PrepLine`: where the trimmed line starts and ends, and where the next one starts. */
  method PrepLine(t: string, i: nat) returns (next: nat, line: nat, end: nat)
    requires i <= |t| && NoNul(t)
    ensures i <= line <= end <= next <= |t| && t[line..end] == Line(t[i..]) && t[next..] == AfterLine(t[i..])
    ensures i < |t| ==> next > i
    ensures At(t, line) == '[' <==> line < end && t[line] == '['
    ensures At(t, line) == '#' <==> line < end && t[line] == '#'
    ensures Space(At(t, end)) <==> Space(Behind(t[i..]))
    ensures (line < end ==> !Blank(t[end - 1])) && At(t, end) != '='
  {
    hide Line, Behind, AfterLine, Blank;
    line := i;
    while line < |t| && Blank(t[line])
      invariant i <= line <= |t| && forall k | i <= k < line :: Blank(t[k])
    {
      line := line + 1;
    }
    end := line;
    while end < |t| && t[end] != '\n'
      invariant line <= end <= |t| && forall k | line <= k < end :: t[k] != '\n'
    {
      end := end + 1;
    }
    ghost var nl := end;
    next := if end == |t| then end else end + 1;
    while end > line && Blank(t[end - 1])
      invariant line <= end <= nl && forall k | end <= k < nl :: Blank(t[k])
    {
      end := end - 1;
    }
    PrepLineIs(t, i, line, end, nl);
    FirstChar(t, line, end, nl);
  }

  /** Where the trimmed line is empty, a line ending or the end of the text is behind it. */
  lemma FirstChar(t: string, line: nat, end: nat, nl: nat)
    requires line <= end <= nl <= |t| && (line < |t| ==> !Blank(t[line]))
    requires (forall k | end <= k < nl :: Blank(t[k])) && (nl < |t| ==> t[nl] == '\n')
    ensures line == end ==> nl == end
    ensures Space(At(t, end)) <==> end < nl && Space(t[end])
    ensures At(t, end) != '='
  {
  }

  lemma PrepLineIs(t: string, i: nat, line: nat, end: nat, nl: nat)
    requires i <= line <= end <= nl <= |t|
    requires forall k | i <= k < line :: Blank(t[k])
    requires line < |t| ==> !Blank(t[line])
    requires (forall k | line <= k < nl :: t[k] != '\n') && (nl < |t| ==> t[nl] == '\n')
    requires (forall k | end <= k < nl :: Blank(t[k])) && (end > line ==> !Blank(t[end - 1]))
    ensures t[line..end] == Line(t[i..]) && AfterLine(t[i..]) == if nl < |t| then t[nl + 1..] else ""
    ensures Behind(t[i..]) == if end < nl then t[end] else '\n'
  {
    hide FirstLine, AfterLine, TrimStart, TrimEnd;
    LineAt(t, i, nl);
    TrimStartAt(t, i, line, nl);
    TrimEndAt(t, line, end, nl);
  }

  // ---- entries

  function Index(s: string, c: char): (k: nat)
    ensures k <= |s| && (k < |s| ==> s[k] == c) && forall i | 0 <= i < k :: s[i] != c
  {
    if s == "" || s[0] == c then 0 else 1 + Index(s[1..], c)
  }

  function TrimSpaceEnd(s: string): (r: string)
    ensures r <= s
  {
    if s != "" && Space(s[|s| - 1]) then TrimSpaceEnd(s[..|s| - 1]) else s
  }

  function TrimSpaceStart(s: string): string {
    if s != "" && Space(s[0]) then TrimSpaceStart(s[1..]) else s
  }

  /** What a trimmed line says.  With nothing behind the `=` but spaces that were trimmed off, the
      code builds a string of negative length, which throws. */
  function EntryOf(line: string, behind: char): Option<Entry> {
    if line != "" && line[0] == '#' then Some(Entry("", line))
    else
      var k := Index(line, '=');
      if k == |line| then Some(Entry("", line))
      else if k + 1 == |line| && Space(behind) then None
      else Some(Entry(TrimSpaceEnd(line[..k]), TrimSpaceStart(line[k + 1..])))
  }

  lemma {:induction false} IndexAt(t: string, i: nat, e: nat, c: char, k: nat)
    requires i <= k <= e <= |t| && (k < e ==> t[k] == c) && forall j | i <= j < k :: t[j] != c
    ensures Index(t[i..e], c) == k - i
    decreases k - i
  {
    if i < k {
      IndexAt(t, i + 1, e, c, k);
      assert t[i..e][1..] == t[i + 1..e];
    }
  }

  lemma {:induction false} TrimSpaceStartAt(t: string, i: nat, n: nat, e: nat)
    requires i <= n <= e <= |t| && (forall k | i <= k < n :: Space(t[k])) && (n < e ==> !Space(t[n]))
    ensures TrimSpaceStart(t[i..e]) == t[n..e]
    decreases n - i
  {
    if i < n {
      TrimSpaceStartAt(t, i + 1, n, e);
      assert t[i..e][1..] == t[i + 1..e];
    }
  }

  lemma {:induction false} TrimSpaceEndAt(t: string, i: nat, n: nat, e: nat)
    requires i <= n <= e <= |t| && (forall k | n <= k < e :: Space(t[k])) && (n > i ==> !Space(t[n - 1]))
    ensures TrimSpaceEnd(t[i..e]) == t[i..n]
    decreases e - n
  {
    if n == e {
      assert n > i ==> t[i..e][e - i - 1] == t[e - 1];
    } else {
      TrimSpaceEndAt(t, i, n, e - 1);
      assert t[i..e][e - i - 1] == t[e - 1] && Space(t[e - 1]);
      assert t[i..e][..e - i - 1] == t[i..e - 1];
    }
  }

  /** `ReadEntry`; None for the exception. */
  method ReadEntry(t: string, line: nat, end: nat) returns (e: Option<Entry>)
    requires line <= end <= |t| && NoNul(t) && (line < end ==> !Blank(t[end - 1]))
    requires At(t, line) == '#' ==> line < end
    requires At(t, end) != '='
    ensures e == EntryOf(t[line..end], At(t, end))
  {
    if At(t, line) == '#' {
      return Some(Entry("", t[line..end]));
    }
    var separator := line;
    while separator < |t| && t[separator] != '='
      invariant line <= separator <= |t| && forall k | line <= k < separator :: t[k] != '='
    {
      separator := separator + 1;
    }
    if separator > end || separator == |t| {
      NoSeparator(t, line, end);
      return Some(Entry("", t[line..end]));
    }
    var nameEnd := separator;
    while nameEnd > line && Space(t[nameEnd - 1])
      invariant line <= nameEnd <= separator && forall k | nameEnd <= k < separator :: Space(t[k])
    {
      nameEnd := nameEnd - 1;
    }
    var valueStart := separator + 1;
    while Space(At(t, valueStart))
      invariant separator < valueStart <= |t| && forall k | separator < k < valueStart :: Space(t[k])
      decreases |t| - valueStart
    {
      valueStart := valueStart + 1;
    }
    SeparatorFound(t, line, end, separator, nameEnd, valueStart);
    if valueStart > end {
      return None;
    }
    return Some(Entry(t[line..nameEnd], t[valueStart..end]));
  }

  lemma NoSeparator(t: string, line: nat, end: nat)
    requires line <= end <= |t| && At(t, line) != '#' && forall k | line <= k < end :: t[k] != '='
    ensures EntryOf(t[line..end], At(t, end)) == Some(Entry("", t[line..end]))
  {
    IndexAt(t, line, end, '=', end);
  }

  lemma Sides(t: string, line: nat, end: nat, k: nat)
    requires line <= k < end <= |t|
    ensures t[line..end][..k - line] == t[line..k] && t[line..end][k - line + 1..] == t[k + 1..end]
  {
  }

  lemma SeparatorFound(t: string, line: nat, end: nat, separator: nat, nameEnd: nat, valueStart: nat)
    requires line <= nameEnd <= separator < end <= |t| && separator < valueStart <= |t|
    requires At(t, line) != '#' && !Blank(t[end - 1])
    requires t[separator] == '=' && forall k | line <= k < separator :: t[k] != '='
    requires (forall k | nameEnd <= k < separator :: Space(t[k])) && (nameEnd > line ==> !Space(t[nameEnd - 1]))
    requires (forall k | separator < k < valueStart :: Space(t[k])) && !Space(At(t, valueStart))
    ensures EntryOf(t[line..end], At(t, end)) == if valueStart > end then None else Some(Entry(t[line..nameEnd], t[valueStart..end]))
  {
    hide Index, TrimSpaceStart, TrimSpaceEnd;
    var l, k := t[line..end], separator - line;
    IndexAt(t, line, end, '=', separator);
    if valueStart > end {
      assert separator < end - 1 ==> Space(t[end - 1]);
    }
    Sides(t, line, end, separator);
    TrimSpaceEndAt(t, line, nameEnd, separator);
    if valueStart <= end {
      TrimSpaceStartAt(t, separator + 1, valueStart, end);
    }
  }
}
