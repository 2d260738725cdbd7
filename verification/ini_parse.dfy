/** Sections of an ini file: the parser and the printer undo one another. */
module IniParse {
  import opened Common
  import opened IniText

  // ---- reading

  datatype Parsed = Parsed(entries: seq<Entry>, rest: string)

  predicate IsHeader(t: string) {
    Line(t) != "" && Line(t)[0] == '['
  }

  /** The entries up to a header or the end; None where reading one throws. */
  function Entries(t: string): (r: Option<Parsed>)
    ensures r.Some? ==> |r.value.rest| <= |t| && (r.value.rest != "" ==> IsHeader(r.value.rest))
    decreases |t|
  {
    if t == "" then Some(Parsed([], ""))
    else if IsHeader(t) then Some(Parsed([], t))
    else
      var e := EntryOf(Line(t), Behind(t));
      if e.None? then None
      else
        var p := Entries(AfterLine(t));
        if p.None? then None else Some(Parsed([e.value] + p.value.entries, p.value.rest))
  }

  /** The entries in front of the one that throws. */
  function EntriesSoFar(t: string): seq<Entry>
    decreases |t|
  {
    if t == "" || IsHeader(t) then []
    else
      var e := EntryOf(Line(t), Behind(t));
      if e.None? then [] else [e.value] + EntriesSoFar(AfterLine(t))
  }

  predicate BlankEntry(e: Entry) {
    e.name == "" && e.value == ""
  }

  function DropBlank(entries: seq<Entry>): (r: seq<Entry>)
    ensures r <= entries && (r != [] ==> !BlankEntry(r[|r| - 1]))
  {
    if entries != [] && BlankEntry(entries[|entries| - 1]) then DropBlank(entries[..|entries| - 1]) else entries
  }

  /** The name between the brackets; without a closing one the rest of the line. */
  function HeaderName(line: string): string
    requires line != "" && line[0] == '['
  {
    line[1..Index(line, ']')]
  }

  /** The sections from the entries of one called `name` on. */
  function Sections(t: string, name: string): Option<seq<Section>>
    decreases |t|
  {
    var p := Entries(t);
    if p.None? then None
    else
      var s := Section(name, DropBlank(p.value.entries));
      if p.value.rest == "" then Some([s])
      else
        var more := Sections(AfterLine(p.value.rest), HeaderName(Line(p.value.rest)));
        if more.None? then None else Some([s] + more.value)
  }

  /** What has been read where reading throws: blank entries at the end are dropped only later. */
  function SectionsSoFar(t: string, name: string): seq<Section>
    decreases |t|
  {
    var p := Entries(t);
    if p.None? then [Section(name, EntriesSoFar(t))]
    else
      var s := Section(name, DropBlank(p.value.entries));
      if p.value.rest == "" then [s] else [s] + SectionsSoFar(AfterLine(p.value.rest), HeaderName(Line(p.value.rest)))
  }

  /** Entries read before the others. */
  function Prefixed(entries: seq<Entry>, p: Option<Parsed>): Option<Parsed> {
    if p.None? then None else Some(Parsed(entries + p.value.entries, p.value.rest))
  }

  lemma EntriesNext(t: string)
    requires t != ""
    ensures Entries(t) == if IsHeader(t) then Some(Parsed([], t))
      else if EntryOf(Line(t), Behind(t)).None? then None
      else Prefixed([EntryOf(Line(t), Behind(t)).value], Entries(AfterLine(t)))
  {
    hide Line, Behind, AfterLine, EntryOf;
  }

  lemma PrefixedTwice(a: seq<Entry>, b: seq<Entry>, p: Option<Parsed>)
    ensures Prefixed(a, Prefixed(b, p)) == Prefixed(a + b, p)
  {
    if p.Some? {
      assert a + (b + p.value.entries) == (a + b) + p.value.entries;
    }
  }

  lemma PrefixedNone(p: Option<Parsed>)
    ensures Prefixed([], p) == p
  {
    if p.Some? {
      assert [] + p.value.entries == p.value.entries;
    }
  }

  lemma SpaceBehind(line: string, c: char, d: char)
    requires Space(c) <==> Space(d)
    ensures EntryOf(line, c) == EntryOf(line, d)
  {
    hide Index, TrimSpaceEnd, TrimSpaceStart;
  }

  lemma DropOne(entries: seq<Entry>)
    requires entries != []
    ensures DropBlank(entries) == if BlankEntry(entries[|entries| - 1]) then DropBlank(entries[..|entries| - 1]) else entries
  {
  }

  lemma EntriesEnd(t: string)
    requires t == "" || IsHeader(t)
    ensures Entries(t) == Some(Parsed([], t))
  {
  }

  /** `ReadSection`, from position `i` on. */
  method ReadSection(t: string, i: nat) returns (ok: bool, entries: seq<Entry>, j: nat)
    requires i <= |t| && NoNul(t)
    ensures i <= j <= |t|
    ensures var p := Entries(t[i..]); ok == p.Some? && (ok ==> entries == DropBlank(p.value.entries) && t[j..] == p.value.rest)
    ensures !ok ==> entries == EntriesSoFar(t[i..])
  {
    hide Line, Behind, AfterLine, EntryOf, DropBlank, Blank, Space, Entries, Prefixed, EntriesSoFar;
    entries := [];
    j := i;
    PrefixedNone(Entries(t[i..]));
    while j < |t|
      invariant i <= j <= |t| && Entries(t[i..]) == Prefixed(entries, Entries(t[j..]))
      invariant EntriesSoFar(t[i..]) == entries + EntriesSoFar(t[j..])
    {
      var next, line, end := PrepLine(t, j);
      EntriesNext(t[j..]);
      if At(t, line) == '[' {
        break;
      }
      SoFarNext(t[j..], entries);
      var e := ReadEntry(t, line, end);
      SpaceBehind(t[line..end], At(t, end), Behind(t[j..]));
      if e.None? {
        ThrowsHere(entries);
        return false, entries, j;
      }
      PrefixedTwice(entries, [e.value], Entries(t[next..]));
      entries := entries + [e.value];
      j := next;
    }
    EntriesEnd(t[j..]);
    AllRead(entries, t[j..]);
    while entries != [] && BlankEntry(entries[|entries| - 1])
      invariant DropBlank(Entries(t[i..]).value.entries) == DropBlank(entries)
    {
      DropOne(entries);
      entries := entries[..|entries| - 1];
    }
    DropNone(entries);
    ok := true;
  }

  lemma SoFarNext(t: string, entries: seq<Entry>)
    requires t != "" && !IsHeader(t)
    ensures var e := EntryOf(Line(t), Behind(t));
      entries + EntriesSoFar(t) == if e.None? then entries else entries + [e.value] + EntriesSoFar(AfterLine(t))
  {
    hide Line, Behind, AfterLine, EntryOf, IsHeader;
    var e := EntryOf(Line(t), Behind(t));
    if e.Some? {
      Regroup(entries, e.value, EntriesSoFar(AfterLine(t)));
    } else {
      NothingBehind(entries);
    }
  }

  lemma Regroup(a: seq<Entry>, e: Entry, b: seq<Entry>)
    ensures a + ([e] + b) == a + [e] + b
  {
  }

  lemma NothingBehind(a: seq<Entry>)
    ensures a + [] == a
  {
  }

  lemma ThrowsHere(entries: seq<Entry>)
    ensures Prefixed(entries, None) == None
  {
  }

  lemma AllRead(entries: seq<Entry>, rest: string)
    ensures Prefixed(entries, Some(Parsed([], rest))) == Some(Parsed(entries, rest))
  {
    assert entries + [] == entries;
  }

  lemma DropNone(entries: seq<Entry>)
    requires entries != [] ==> !BlankEntry(entries[|entries| - 1])
    ensures DropBlank(entries) == entries
  {
  }

  /** `ReadHeader`: the name, and where the next line starts. */
  method ReadHeader(t: string, i: nat) returns (name: string, j: nat)
    requires i <= |t| && NoNul(t) && IsHeader(t[i..])
    ensures i <= j <= |t| && name == HeaderName(Line(t[i..])) && t[j..] == AfterLine(t[i..]) && (i < |t| ==> j > i)
  {
    hide Line, AfterLine, Behind;
    var next, line, end := PrepLine(t, i);
    j := next;
    var stop := line;
    while stop < |t| && t[stop] != ']'
      invariant line <= stop <= |t| && forall k | line <= k < stop :: t[k] != ']'
    {
      stop := stop + 1;
    }
    if stop == |t| || stop > end {
      stop := end;
    }
    if stop < end {
      IndexAt(t, line, end, ']', stop);
    } else {
      IndexAt(t, line, end, ']', end);
    }
    name := t[line + 1..stop];
    Sub(t, line, end, 1, stop - line);
  }

  // ---- writing

  const CRLF: string := "\r\n"

  function EntryText(e: Entry): string {
    if e.value == "" then "" else (if e.name == "" then "" else e.name + "=") + e.value
  }

  function EntriesText(entries: seq<Entry>): string {
    if entries == [] then "" else EntryText(entries[0]) + CRLF + EntriesText(entries[1..])
  }

  function SectionText(s: Section): string {
    (if s.name == "" then "" else "[" + s.name + "]" + CRLF) + EntriesText(s.entries) + CRLF
  }

  /** The text `SaveIni` builds. */
  function Text(sections: seq<Section>): string {
    if sections == [] then "" else SectionText(sections[0]) + Text(sections[1..])
  }

  // ---- what can be written and read again

  predicate OneLine(s: string) {
    forall i | 0 <= i < |s| :: s[i] != '\n' && s[i] != NUL
  }

  predicate Trimmed(s: string) {
    s != "" && !Blank(s[0]) && !Blank(s[|s| - 1])
  }

  /** A blank line; a line that is a comment or has no `=`; or a name and a value. */
  predicate EntryOk(e: Entry) {
    && OneLine(e.name) && OneLine(e.value)
    && (if e.name == "" then
          e.value == "" || (Trimmed(e.value) && e.value[0] != '[' && (e.value[0] == '#' || '=' !in e.value))
        else
          && e.value != "" && !Space(e.value[0]) && !Blank(e.value[|e.value| - 1])
          && !Blank(e.name[0]) && !Space(e.name[|e.name| - 1]) && '=' !in e.name && e.name[0] != '[' && e.name[0] != '#')
  }

  predicate EntriesOk(entries: seq<Entry>) {
    && (forall i | 0 <= i < |entries| :: EntryOk(entries[i]))
    && (entries != [] ==> !BlankEntry(entries[|entries| - 1]))
  }

  predicate NameOk(name: string) {
    name != "" && OneLine(name) && ']' !in name
  }

  /** Only the first section has no name. */
  predicate SectionsOk(sections: seq<Section>) {
    && sections != [] && sections[0].name == ""
    && (forall i | 0 <= i < |sections| :: EntriesOk(sections[i].entries))
    && (forall i | 1 <= i < |sections| :: NameOk(sections[i].name))
  }

  /** The first line of a text whose first line is known. */
  lemma PrintedLine(l: string, rest: string)
    requires OneLine(l) && (l == "" || Trimmed(l))
    ensures var t := l + CRLF + rest; t != "" && Line(t) == l && AfterLine(t) == rest && !Space(Behind(t))
  {
    var t := l + CRLF + rest;
    var n := |l|;
    assert t[n] == '\r' && t[n + 1] == '\n' && t[..n] == l && t[n + 2..] == rest;
    forall k | 0 <= k < n
      ensures t[k] != '\n' && t[k] == l[k]
    {
    }
    assert t[0..] == t;
    if l == "" {
      PrepLineIs(t, 0, n + 1, n + 1, n + 1);
      assert t[n + 1..n + 1] == "";
    } else {
      PrepLineIs(t, 0, 0, n, n + 1);
      assert t[0..n] == l;
    }
  }

  /** A printed entry is read again. */
  lemma PrintedEntry(e: Entry, c: char)
    requires EntryOk(e) && !Space(c)
    ensures var l := EntryText(e);
      OneLine(l) && (l == "" || Trimmed(l)) && (l != "" ==> l[0] != '[') && EntryOf(l, c) == Some(e)
  {
    if e.name != "" {
      NamedEntry(e, c);
    } else {
      var l := e.value;
      assert "" + l == l && l[0..|l|] == l;
      if '=' !in l {
        IndexAt(l, 0, |l|, '=', |l|);
      }
    }
  }

  lemma NamedEntry(e: Entry, c: char)
    requires EntryOk(e) && e.name != ""
    ensures var l := EntryText(e); OneLine(l) && Trimmed(l) && l[0] != '[' && EntryOf(l, c) == Some(e)
  {
    hide Index, TrimSpaceEnd, TrimSpaceStart;
    var l, k := EntryText(e), |e.name|;
    assert l == e.name + ['='] + e.value;
    assert l[k] == '=' && l[..k] == e.name && l[k + 1..] == e.value && l[0..] == l;
    forall i | 0 <= i < |l|
      ensures l[i] == if i < k then e.name[i] else if i == k then '=' else e.value[i - k - 1]
    {
    }
    IndexAt(l, 0, |l|, '=', k);
    assert l[0..|l|] == l;
    KeptName(e.name);
    KeptValue(e.value);
  }

  lemma KeptName(s: string)
    requires s != "" && !Space(s[|s| - 1])
    ensures TrimSpaceEnd(s) == s
  {
  }

  lemma KeptValue(s: string)
    requires s != "" && !Space(s[0])
    ensures TrimSpaceStart(s) == s
  {
  }

  lemma {:induction false} PrintedEntries(entries: seq<Entry>, rest: string)
    requires forall i | 0 <= i < |entries| :: EntryOk(entries[i])
    ensures Entries(EntriesText(entries) + rest) == Prefixed(entries, Entries(rest))
  {
    hide EntryOk, Line, Behind, AfterLine, EntryOf, EntryText;
    if entries == [] {
      assert "" + rest == rest;
      PrefixedNone(Entries(rest));
    } else {
      var e, more := entries[0], EntriesText(entries[1..]) + rest;
      var l := EntryText(e);
      assert EntriesText(entries) + rest == l + CRLF + more;
      IsOneLine(e);
      PrintedLine(l, more);
      PrintedEntry(e, Behind(l + CRLF + more));
      EntriesNext(l + CRLF + more);
      PrintedEntries(entries[1..], rest);
      PrefixedTwice([e], entries[1..], Entries(rest));
      assert [e] + entries[1..] == entries;
    }
  }

  lemma IsOneLine(e: Entry)
    requires EntryOk(e)
    ensures OneLine(EntryText(e)) && (EntryText(e) == "" || Trimmed(EntryText(e)))
  {
    PrintedEntry(e, 'x');
    hide EntryOf;
  }

  /** The empty line behind a section is dropped again. */
  lemma PrintedSection(entries: seq<Entry>, rest: string)
    requires EntriesOk(entries) && (rest == "" || IsHeader(rest))
    ensures var p := Entries(EntriesText(entries) + CRLF + rest);
      p.Some? && DropBlank(p.value.entries) == entries && p.value.rest == rest
  {
    hide EntryOk, Line, Behind, AfterLine, EntryOf, EntryText;
    var blank := Entry("", "");
    assert EntriesText(entries) + CRLF + rest == EntriesText(entries) + (CRLF + rest);
    PrintedEntries(entries, CRLF + rest);
    assert "" + CRLF + rest == CRLF + rest;
    PrintedLine("", rest);
    EntriesNext(CRLF + rest);
    BlankLine(Behind(CRLF + rest));
    EntriesEnd(rest);
    AllRead([blank], rest);
    var all := entries + [blank];
    assert all[..|all| - 1] == entries;
    DropOne(all);
    DropNone(entries);
  }

  lemma BlankLine(c: char)
    ensures EntryOf("", c) == Some(Entry("", ""))
  {
  }

  /** A header is read again. */
  lemma PrintedHeader(name: string, rest: string)
    requires NameOk(name)
    ensures var t := "[" + name + "]" + CRLF + rest; IsHeader(t) && HeaderName(Line(t)) == name && AfterLine(t) == rest && t != ""
  {
    var l := "[" + name + "]";
    var n := |name|;
    assert l[0] == '[' && l[n + 1] == ']' && l[1..n + 1] == name && |l| == n + 2;
    forall i | 0 <= i < |l|
      ensures l[i] == if i == 0 then '[' else if i == n + 1 then ']' else name[i - 1]
    {
    }
    assert OneLine(l);
    PrintedLine(l, rest);
    assert l[0..|l|] == l;
    IndexAt(l, 0, |l|, ']', n + 1);
    hide Line, AfterLine, Index;
  }

  /** What is written for sections that can be written, is read as the same sections. */
  lemma {:induction false} PrintedSections(sections: seq<Section>)
    requires sections != [] && forall i | 0 <= i < |sections| :: EntriesOk(sections[i].entries) && (i > 0 ==> NameOk(sections[i].name))
    ensures Sections(EntriesText(sections[0].entries) + CRLF + Text(sections[1..]), sections[0].name) == Some(sections)
    decreases |sections|
  {
    hide EntriesOk, NameOk, Line, AfterLine, EntriesText, Entries, DropBlank;
    var s, rest := sections[0], Text(sections[1..]);
    assert EntriesOk(s.entries);
    if |sections| == 1 {
      assert rest == "";
      PrintedSection(s.entries, rest);
      assert [s] == sections;
    } else {
      var n := sections[1];
      var more := EntriesText(n.entries) + CRLF + Text(sections[1..][1..]);
      assert NameOk(n.name);
      HeaderText(sections[1..]);
      PrintedHeader(n.name, more);
      PrintedSection(s.entries, rest);
      PrintedSections(sections[1..]);
      SectionsNext(EntriesText(s.entries) + CRLF + rest, s, rest, n.name, more, sections[1..]);
      assert [s] + sections[1..] == sections;
    }
  }

  lemma HeaderText(sections: seq<Section>)
    requires sections != [] && NameOk(sections[0].name)
    ensures Text(sections) == "[" + sections[0].name + "]" + CRLF + (EntriesText(sections[0].entries) + CRLF + Text(sections[1..]))
  {
    hide EntriesText;
  }

  lemma SectionsNext(t: string, s: Section, rest: string, name: string, more: string, others: seq<Section>)
    requires var p := Entries(t); p.Some? && DropBlank(p.value.entries) == s.entries && p.value.rest == rest
    requires rest != "" && IsHeader(rest) && HeaderName(Line(rest)) == name && AfterLine(rest) == more
    requires Sections(more, name) == Some(others)
    ensures Sections(t, s.name) == Some([s] + others)
  {
    hide Entries, DropBlank, Line, AfterLine, HeaderName;
  }

  /** Parsing the text of a well-formed list of sections gives the list back. */
  lemma RoundTrip(sections: seq<Section>)
    requires SectionsOk(sections)
    ensures Sections(Text(sections), "") == Some(sections)
  {
    hide EntriesOk, NameOk, Sections, Text, EntriesText;
    PrintedSections(sections);
    NamelessText(sections);
  }

  lemma NamelessText(sections: seq<Section>)
    requires sections != [] && sections[0].name == ""
    ensures Text(sections) == EntriesText(sections[0].entries) + CRLF + Text(sections[1..])
  {
    hide EntriesText;
    var e := EntriesText(sections[0].entries);
    assert "" + e + CRLF == e + CRLF;
  }
}
