/** What is read from a line, a header and a section, said of the characters. */
module IniReading {
  import opened Common
  import opened IniText
  import opened IniParse

  predicate AllBlank(s: string) {
    forall i | 0 <= i < |s| :: s[i] == ' ' || s[i] == '\t' || s[i] == '\r'
  }

  predicate AllSpace(s: string) {
    forall i | 0 <= i < |s| :: s[i] == ' ' || s[i] == '\t'
  }

  /** A text is its first line and what follows the line feed. */
  lemma {:induction false} FirstLineSplits(t: string)
    ensures '\n' !in FirstLine(t)
    ensures if '\n' in t then t == FirstLine(t) + "\n" + AfterLine(t) else t == FirstLine(t) && AfterLine(t) == ""
  {
    if t != "" {
      if t[0] == '\n' {
        assert t == "" + "\n" + t[1..];
      } else {
        FirstLineSplits(t[1..]);
        assert t == [t[0]] + t[1..];
        InFront(t[0], FirstLine(t[1..]), "\n", AfterLine(t[1..]));
      }
    }
  }

  lemma InFront(c: char, a: string, b: string, d: string)
    ensures [c] + (a + b + d) == [c] + a + b + d
  {
  }

  lemma HeadFirst(c: char, a: string, b: string)
    ensures [c] + (a + b) == [c] + a + b
  {
  }

  lemma TailLast(a: string, b: string, c: char)
    ensures a + b + [c] == a + (b + [c])
  {
  }

  lemma {:induction false} TrimStartSplits(s: string) returns (a: string)
    ensures AllBlank(a) && s == a + TrimStart(s) && (TrimStart(s) != "" ==> !Blank(TrimStart(s)[0]))
  {
    if s != "" && Blank(s[0]) {
      var rest := TrimStartSplits(s[1..]);
      a := [s[0]] + rest;
      HeadFirst(s[0], rest, TrimStart(s[1..]));
      assert TrimStart(s) == TrimStart(s[1..]) && s == [s[0]] + s[1..];
    } else {
      a := "";
    }
  }

  lemma {:induction false} TrimEndSplits(s: string) returns (b: string)
    ensures AllBlank(b) && s == TrimEnd(s) + b && (TrimEnd(s) != "" ==> !Blank(TrimEnd(s)[|TrimEnd(s)| - 1]))
  {
    if s != "" && Blank(s[|s| - 1]) {
      var rest := TrimEndSplits(s[..|s| - 1]);
      b := rest + [s[|s| - 1]];
      TailLast(TrimEnd(s[..|s| - 1]), rest, s[|s| - 1]);
      assert TrimEnd(s) == TrimEnd(s[..|s| - 1]);
      assert s == s[..|s| - 1] + [s[|s| - 1]];
    } else {
      b := "";
    }
  }

  /** A line is trimmed of blanks on both sides and of nothing else; the character behind it is the first blank trimmed off
      there. */
  lemma LineReads(t: string) returns (a: string, b: string)
    ensures AllBlank(a) && AllBlank(b) && FirstLine(t) == a + Line(t) + b
    ensures Line(t) != "" ==> !Blank(Line(t)[0]) && !Blank(Line(t)[|Line(t)| - 1])
    ensures Behind(t) == if b == "" then '\n' else b[0]
  {
    a := TrimStartSplits(FirstLine(t));
    var s := TrimStart(FirstLine(t));
    b := TrimEndSplits(s);
    hide TrimStart, TrimEnd, FirstLine, AllBlank, Blank;
    assert a + (Line(t) + b) == a + Line(t) + b;
    if Line(t) != "" {
      assert Line(t)[0] == s[0];
    }
    if b != "" {
      assert s[|Line(t)|] == b[0];
    }
  }

  lemma {:induction false} SpaceEndSplits(s: string) returns (b: string)
    ensures AllSpace(b) && s == TrimSpaceEnd(s) + b && (TrimSpaceEnd(s) != "" ==> !Space(TrimSpaceEnd(s)[|TrimSpaceEnd(s)| - 1]))
  {
    if s != "" && Space(s[|s| - 1]) {
      var rest := SpaceEndSplits(s[..|s| - 1]);
      b := rest + [s[|s| - 1]];
      TailLast(TrimSpaceEnd(s[..|s| - 1]), rest, s[|s| - 1]);
      assert TrimSpaceEnd(s) == TrimSpaceEnd(s[..|s| - 1]);
      assert s == s[..|s| - 1] + [s[|s| - 1]];
    } else {
      b := "";
    }
  }

  lemma {:induction false} SpaceStartSplits(s: string) returns (a: string)
    ensures AllSpace(a) && s == a + TrimSpaceStart(s) && (TrimSpaceStart(s) != "" ==> !Space(TrimSpaceStart(s)[0]))
  {
    if s != "" && Space(s[0]) {
      var rest := SpaceStartSplits(s[1..]);
      a := [s[0]] + rest;
      HeadFirst(s[0], rest, TrimSpaceStart(s[1..]));
      assert TrimSpaceStart(s) == TrimSpaceStart(s[1..]) && s == [s[0]] + s[1..];
    } else {
      a := "";
    }
  }

  /** A comment and a line without `=` are nameless; any other line is cut at its first `=`, the name trimmed behind and the
      value in front, and throws where nothing is left of the value but what was trimmed off the line. */
  lemma EntryReads(line: string, behind: char, k: nat) returns (a: string, b: string)
    ensures (line != "" && line[0] == '#') || (forall i | 0 <= i < |line| :: line[i] != '=') ==> EntryOf(line, behind) == Some(Entry("", line))
    ensures k < |line| && line[k] == '=' && line[0] != '#' && (forall i | 0 <= i < k :: line[i] != '=') ==>
      if k + 1 == |line| && (behind == ' ' || behind == '\t') then EntryOf(line, behind) == None
      else
        && EntryOf(line, behind).Some? && AllSpace(a) && AllSpace(b)
        && var e := EntryOf(line, behind).value;
          && line[..k] == e.name + a && line[k + 1..] == b + e.value
          && (e.name != "" ==> e.name[|e.name| - 1] != ' ' && e.name[|e.name| - 1] != '\t')
          && (e.value != "" ==> e.value[0] != ' ' && e.value[0] != '\t')
  {
    hide Index, TrimSpaceEnd, TrimSpaceStart;
    a, b := "", "";
    if forall i | 0 <= i < |line| :: line[i] != '=' {
      IndexIs(line, '=', |line|);
    }
    if k < |line| && line[k] == '=' && line[0] != '#' && forall i | 0 <= i < k :: line[i] != '=' {
      IndexIs(line, '=', k);
      a := SpaceEndSplits(line[..k]);
      b := SpaceStartSplits(line[k + 1..]);
    }
  }

  lemma IndexIs(s: string, c: char, k: nat)
    requires k <= |s| && (k < |s| ==> s[k] == c) && forall i | 0 <= i < k :: s[i] != c
    ensures Index(s, c) == k
  {
    IndexAt(s, 0, |s|, c, k);
    assert s[0..|s|] == s;
    hide Index;
  }

  /** The name of a section ends at the first closing bracket, or with the line. */
  lemma HeaderReads(line: string, j: nat)
    requires 1 <= j <= |line| && line[0] == '[' && (forall i | 1 <= i < j :: line[i] != ']') && (j < |line| ==> line[j] == ']')
    ensures HeaderName(line) == line[1..j]
  {
    IndexIs(line, ']', j);
    hide Index;
  }

  /** Just the blank entries at the end of a section are dropped. */
  lemma {:induction false} DropBlankSplits(entries: seq<Entry>) returns (blanks: seq<Entry>)
    ensures entries == DropBlank(entries) + blanks && forall i | 0 <= i < |blanks| :: blanks[i] == Entry("", "")
    ensures DropBlank(entries) != [] ==> DropBlank(entries)[|DropBlank(entries)| - 1] != Entry("", "")
  {
    if entries != [] && BlankEntry(entries[|entries| - 1]) {
      var rest := DropBlankSplits(entries[..|entries| - 1]);
      blanks := rest + [entries[|entries| - 1]];
      assert entries == entries[..|entries| - 1] + [entries[|entries| - 1]];
    } else {
      blanks := [];
    }
  }
}
