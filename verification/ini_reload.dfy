/** Loading a text, saving what was read and loading that again. */
module IniReload {
  import opened Common
  import opened IniText
  import opened IniParse

  // ---- what a line can be read as

  /** What an entry that was read looks like. */
  predicate Readable(e: Entry) {
    && OneLine(e.name) && OneLine(e.value)
    && (e.name != "" ==>
          && !Blank(e.name[0]) && e.name[0] != '[' && e.name[0] != '#'
          && !Space(e.name[|e.name| - 1]) && '=' !in e.name)
    && (e.value != "" ==> !Space(e.value[0]) && !Blank(e.value[|e.value| - 1]))
  }

  /** What of that is the same after saving and loading: not a name without a value, and not a nameless
      value that reads as a name and a value, as a header or with less in front. */
  predicate Survives(e: Entry) {
    if e.name != "" then e.value != ""
    else e.value == "" || (!Blank(e.value[0]) && e.value[0] != '[' && (e.value[0] == '#' || '=' !in e.value))
  }

  lemma SurvivesIs(e: Entry)
    requires Readable(e)
    ensures EntryOk(e) <==> Survives(e)
  {
  }

  lemma {:induction false} FirstLineIs(t: string)
    ensures forall c | c in FirstLine(t) :: c != '\n' && c in t
    ensures forall c | c in AfterLine(t) :: c in t
  {
    if t != "" && t[0] != '\n' {
      FirstLineIs(t[1..]);
    }
  }

  lemma {:induction false} TrimStartIs(s: string)
    ensures forall c | c in TrimStart(s) :: c in s
    ensures TrimStart(s) != "" ==> !Blank(TrimStart(s)[0]) && TrimStart(s)[|TrimStart(s)| - 1] == s[|s| - 1]
    ensures |TrimStart(s)| <= |s| && (s != "" && Blank(s[0]) ==> |TrimStart(s)| < |s|)
  {
    hide Blank;
    if s != "" && Blank(s[0]) {
      TrimStartIs(s[1..]);
    }
  }

  lemma {:induction false} TrimEndIs(s: string)
    ensures TrimEnd(s) != "" ==> !Blank(TrimEnd(s)[|TrimEnd(s)| - 1]) && TrimEnd(s)[0] == s[0]
    ensures |TrimEnd(s)| <= |s| && (s != "" && Blank(s[|s| - 1]) ==> |TrimEnd(s)| < |s|)
  {
    hide Blank;
    if s != "" && Blank(s[|s| - 1]) {
      TrimEndIs(s[..|s| - 1]);
    }
  }

  lemma LineIs(t: string)
    requires NoNul(t)
    ensures OneLine(Line(t)) && (Line(t) == "" || Trimmed(Line(t))) && NoNul(AfterLine(t))
  {
    hide Blank, TrimStart, TrimEnd, FirstLine, AfterLine;
    var f := FirstLine(t);
    FirstLineIs(t);
    TrimStartIs(f);
    TrimEndIs(TrimStart(f));
    forall i | 0 <= i < |Line(t)|
      ensures Line(t)[i] != '\n' && Line(t)[i] != NUL
    {
      assert Line(t)[i] == TrimStart(f)[i];
      assert TrimStart(f)[i] in TrimStart(f);
    }
    forall i | 0 <= i < |AfterLine(t)|
      ensures AfterLine(t)[i] != NUL
    {
      assert AfterLine(t)[i] in t;
    }
  }

  lemma {:induction false} TrimSpaceEndIs(s: string)
    ensures TrimSpaceEnd(s) != "" ==> !Space(TrimSpaceEnd(s)[|TrimSpaceEnd(s)| - 1])
  {
    hide Space;
    if s != "" && Space(s[|s| - 1]) {
      TrimSpaceEndIs(s[..|s| - 1]);
    }
  }

  lemma {:induction false} TrimSpaceStartIs(s: string)
    ensures var r := TrimSpaceStart(s); |r| <= |s| && r == s[|s| - |r|..] && (r != "" ==> !Space(r[0]))
  {
    hide Space;
    if s != "" && Space(s[0]) {
      TrimSpaceStartIs(s[1..]);
    }
  }

  /** What is read from a line is `Readable`. */
  lemma EntryIsReadable(line: string, c: char)
    requires OneLine(line) && (line == "" || Trimmed(line)) && (line != "" ==> line[0] != '[')
    ensures var e := EntryOf(line, c); e.Some? ==> Readable(e.value)
  {
    hide TrimSpaceEnd, TrimSpaceStart, Index;
    var k := Index(line, '=');
    if k < |line| && line[0] != '#' {
      var name, value := TrimSpaceEnd(line[..k]), TrimSpaceStart(line[k + 1..]);
      TrimSpaceEndIs(line[..k]);
      TrimSpaceStartIs(line[k + 1..]);
      NameReadable(line, k, name);
      ValueReadable(line, k, value);
    }
  }

  lemma NameReadable(line: string, k: nat, name: string)
    requires OneLine(line) && k < |line| && name <= line[..k] && forall i | 0 <= i < k :: line[i] != '='
    ensures OneLine(name) && '=' !in name && (name != "" ==> name[0] == line[0])
  {
    forall i | 0 <= i < |name|
      ensures name[i] == line[i] && name[i] != '='
    {
      assert line[..k][i] == line[i];
    }
  }

  lemma ValueReadable(line: string, k: nat, value: string)
    requires OneLine(line) && k < |line| && |value| <= |line| - k - 1 && value == line[k + 1..][|line| - k - 1 - |value|..]
    ensures OneLine(value) && (value != "" ==> value[|value| - 1] == line[|line| - 1])
  {
    forall i | 0 <= i < |value|
      ensures value[i] == line[|line| - |value| + i]
    {
    }
  }

  /** What a line yields is no longer than the line, and shorter if it is split. */
  function Content(e: Entry): nat {
    |e.name| + |e.value|
  }

  lemma EntryContent(line: string, c: char)
    ensures var e := EntryOf(line, c); e.Some? ==> Content(e.value) <= |line|
    ensures var e := EntryOf(line, c); e.Some? && '=' in line && line[0] != '#' ==> Content(e.value) < |line|
  {
    var k := Index(line, '=');
    if k < |line| {
      TrimSpaceStartIs(line[k + 1..]);
      hide TrimSpaceEnd, TrimSpaceStart;
    }
    hide Index;
  }

  // ---- what a text yields

  function LineYield(t: string): nat
    requires t != ""
  {
    if IsHeader(t) then |HeaderName(Line(t))|
    else
      var e := EntryOf(Line(t), Behind(t));
      if e.None? then 0 else Content(e.value)
  }

  function Yield(t: string): nat
    decreases |t|
  {
    if t == "" then 0 else LineYield(t) + Yield(AfterLine(t))
  }

  function Headers(t: string): nat
    decreases |t|
  {
    if t == "" then 0 else (if IsHeader(t) then 1 else 0) + Headers(AfterLine(t))
  }

  function ContentOf(entries: seq<Entry>): nat {
    if entries == [] then 0 else Content(entries[0]) + ContentOf(entries[1..])
  }

  function SectionsContent(sections: seq<Section>): nat {
    if sections == [] then 0 else |sections[0].name| + ContentOf(sections[0].entries) + SectionsContent(sections[1..])
  }

  /** Everything a text yields is in the sections read from it, and each header makes a section. */
  lemma {:induction false} EntriesYield(t: string)
    requires Entries(t).Some?
    ensures var p := Entries(t).value; Yield(t) == ContentOf(p.entries) + Yield(p.rest) && Headers(t) == Headers(p.rest)
    decreases |t|
  {
    if t != "" && !IsHeader(t) {
      hide Line, Behind, EntryOf;
      EntriesYield(AfterLine(t));
      var e, more := EntryOf(Line(t), Behind(t)).value, Entries(AfterLine(t)).value;
      assert ([e] + more.entries)[1..] == more.entries;
    }
  }

  lemma {:induction false} DropContent(entries: seq<Entry>)
    ensures ContentOf(DropBlank(entries)) == ContentOf(entries)
  {
    if entries != [] && BlankEntry(entries[|entries| - 1]) {
      var front := entries[..|entries| - 1];
      DropContent(front);
      ContentSnoc(front, entries[|entries| - 1]);
      assert front + [entries[|entries| - 1]] == entries;
    }
  }

  lemma {:induction false} ContentSnoc(entries: seq<Entry>, e: Entry)
    ensures ContentOf(entries + [e]) == ContentOf(entries) + Content(e)
  {
    if entries == [] {
      assert entries + [e] == [e] && [e][1..] == [];
    } else {
      ContentSnoc(entries[1..], e);
      assert (entries + [e])[1..] == entries[1..] + [e];
    }
  }

  lemma {:induction false} SectionsYield(t: string, name: string)
    requires Sections(t, name).Some?
    ensures var r := Sections(t, name).value; SectionsContent(r) == |name| + Yield(t) && |r| == 1 + Headers(t) && r[0].name == name
    decreases |t|
  {
    hide DropBlank, ContentOf;
    EntriesYield(t);
    var p := Entries(t).value;
    DropContent(p.entries);
    var s := Section(name, DropBlank(p.entries));
    if p.rest == "" {
      assert [s][1..] == [];
    } else {
      hide Line, AfterLine, HeaderName, Entries;
      var next, more := HeaderName(Line(p.rest)), AfterLine(p.rest);
      SectionsYield(more, next);
      var others := Sections(more, next).value;
      assert ([s] + others)[1..] == others;
    }
  }

  // ---- what was read can be printed

  lemma {:induction false} EntriesReadable(t: string)
    requires NoNul(t) && Entries(t).Some?
    ensures NoNul(Entries(t).value.rest) && forall i | 0 <= i < |Entries(t).value.entries| :: Readable(Entries(t).value.entries[i])
    decreases |t|
  {
    hide Line, Behind, EntryOf, AfterLine, Readable, NoNul;
    if t != "" {
      LineIs(t);
      if !IsHeader(t) {
        EntryIsReadable(Line(t), Behind(t));
        EntriesReadable(AfterLine(t));
      }
    }
  }

  /** A section name as it was read. */
  predicate HeaderNameOk(name: string) {
    OneLine(name) && ']' !in name
  }

  predicate SectionReadable(s: Section) {
    && (forall i | 0 <= i < |s.entries| :: Readable(s.entries[i]))
    && (s.entries != [] ==> !BlankEntry(s.entries[|s.entries| - 1]))
    && HeaderNameOk(s.name)
  }

  lemma {:induction false} SectionsReadable(t: string, name: string)
    requires NoNul(t) && Sections(t, name).Some? && HeaderNameOk(name)
    ensures forall i | 0 <= i < |Sections(t, name).value| :: SectionReadable(Sections(t, name).value[i])
    decreases |t|
  {
    hide DropBlank, Line, AfterLine, Entries, Readable, NoNul, HeaderName, HeaderNameOk;
    EntriesReadable(t);
    var p := Entries(t).value;
    assert DropBlank(p.entries) <= p.entries;
    if p.rest != "" {
      LineIs(p.rest);
      HeaderReadable(Line(p.rest));
      SectionsReadable(AfterLine(p.rest), HeaderName(Line(p.rest)));
    }
  }

  lemma HeaderReadable(line: string)
    requires OneLine(line) && line != "" && line[0] == '['
    ensures HeaderNameOk(HeaderName(line)) && |HeaderName(line)| < |line|
  {
    var k := Index(line, ']');
    assert k >= 1;
    forall i | 0 <= i < |HeaderName(line)|
      ensures HeaderName(line)[i] == line[i + 1]
    {
    }
  }

  // ---- what the printed text yields

  /** The first line of a printed text is no longer than what was printed, and shorter if that began
      with a blank. */
  lemma PrintedLength(l: string, rest: string)
    requires OneLine(l)
    ensures var t := l + CRLF + rest;
      t != "" && AfterLine(t) == rest && |Line(t)| <= |l| && (l != "" && Blank(l[0]) ==> |Line(t)| < |l|)
  {
    var t, n := l + CRLF + rest, |l| + 1;
    assert t[n] == '\n' && t[n + 1..] == rest && t[0..] == t && t[n - 1] == '\r';
    forall k | 0 <= k < n
      ensures t[k] != '\n'
    {
      assert t[k] == if k < |l| then l[k] else '\r';
    }
    LineAt(t, 0, n);
    var f := FirstLine(t);
    assert f == t[0..n] && f[|f| - 1] == '\r' && (l != "" ==> f[0] == l[0]);
    TrimStartIs(f);
    TrimEndIs(TrimStart(f));
    hide FirstLine, TrimStart, TrimEnd, AfterLine;
  }

  lemma LineYieldBound(t: string)
    requires t != ""
    ensures LineYield(t) <= |Line(t)| && (IsHeader(t) ==> LineYield(t) < |Line(t)|)
    ensures !IsHeader(t) && '=' in Line(t) && Line(t)[0] != '#' ==> LineYield(t) < |Line(t)|
  {
    hide Line, Behind, EntryOf;
    EntryContent(Line(t), Behind(t));
  }

  /** A printed entry yields all it was made of just when it survives. */
  lemma PrintedYield(e: Entry, rest: string)
    requires Readable(e)
    ensures var t := EntryText(e) + CRLF + rest;
      && t != "" && AfterLine(t) == rest && LineYield(t) <= Content(e)
      && (LineYield(t) == Content(e) <==> Survives(e)) && (Survives(e) ==> !IsHeader(t))
  {
    if Survives(e) {
      SurvivingYield(e, rest);
    } else {
      LostYield(e, rest);
    }
  }

  lemma SurvivingYield(e: Entry, rest: string)
    requires Readable(e) && Survives(e)
    ensures var t := EntryText(e) + CRLF + rest; t != "" && AfterLine(t) == rest && LineYield(t) == Content(e) && !IsHeader(t)
  {
    var l := EntryText(e);
    var t := l + CRLF + rest;
    SurvivesIs(e);
    PrintedEntry(e, 'x');
    PrintedLine(l, rest);
    PrintedEntry(e, Behind(t));
    hide Line, Behind, AfterLine, EntryOf, EntryText, Readable, Survives, EntryOk, OneLine, Trimmed;
  }

  lemma LostYield(e: Entry, rest: string)
    requires Readable(e) && !Survives(e)
    ensures var t := EntryText(e) + CRLF + rest; t != "" && AfterLine(t) == rest && LineYield(t) < Content(e)
  {
    hide Line, Behind, AfterLine, EntryOf, LineYield, EntryText, Space, Blank, CRLF, OneLine;
    var l := e.value;
    LostText(e);
    PrintedLength(l, rest);
    if l == "" {
      LineYieldBound(l + CRLF + rest);
    } else {
      LostLine(l, rest);
    }
  }

  lemma LostText(e: Entry)
    requires !Survives(e)
    ensures EntryText(e) == e.value
  {
  }

  lemma LostLine(l: string, rest: string)
    requires OneLine(l) && l != "" && !Blank(l[|l| - 1]) && (Blank(l[0]) || l[0] == '[' || (l[0] != '#' && '=' in l))
    ensures var t := l + CRLF + rest; t != "" && LineYield(t) < |l|
  {
    hide Line, Behind, AfterLine, EntryOf, LineYield, Blank;
    PrintedLength(l, rest);
    LineYieldBound(l + CRLF + rest);
    if !Blank(l[0]) {
      PrintedLine(l, rest);
    }
  }

  predicate AllSurvive(entries: seq<Entry>) {
    forall i | 0 <= i < |entries| :: Survives(entries[i])
  }

  lemma {:induction false} EntriesTextYield(entries: seq<Entry>, rest: string)
    requires forall i | 0 <= i < |entries| :: Readable(entries[i])
    ensures var t := EntriesText(entries) + rest;
      && Yield(t) <= ContentOf(entries) + Yield(rest)
      && (Yield(t) == ContentOf(entries) + Yield(rest) ==> AllSurvive(entries))
      && (AllSurvive(entries) ==> Headers(t) == Headers(rest))
  {
    hide Readable, Survives, EntryText, LineYield, IsHeader, AfterLine, Content;
    if entries == [] {
      assert "" + rest == rest;
    } else {
      var more := EntriesText(entries[1..]) + rest;
      assert EntriesText(entries) + rest == EntryText(entries[0]) + CRLF + more;
      PrintedYield(entries[0], more);
      EntriesTextYield(entries[1..], rest);
      assert AllSurvive(entries) <==> Survives(entries[0]) && AllSurvive(entries[1..]) by { SurviveCons(entries); }
    }
  }

  lemma SurviveCons(entries: seq<Entry>)
    requires entries != []
    ensures AllSurvive(entries) <==> Survives(entries[0]) && AllSurvive(entries[1..])
  {
    hide Survives;
    assert entries == [entries[0]] + entries[1..];
  }

  function Named(sections: seq<Section>): nat {
    if sections == [] then 0 else (if sections[0].name == "" then 0 else 1) + Named(sections[1..])
  }

  lemma BlankYield(rest: string)
    ensures var t := CRLF + rest; t != "" && Yield(t) == Yield(rest) && Headers(t) == Headers(rest)
  {
    var t := CRLF + rest;
    assert "" + CRLF + rest == t;
    PrintedLine("", rest);
    BlankLine(Behind(t));
    hide Line, Behind, AfterLine, EntryOf;
  }

  lemma HeaderYield(name: string, rest: string)
    requires HeaderNameOk(name) && name != ""
    ensures var t := "[" + name + "]" + CRLF + rest; t != "" && Yield(t) == |name| + Yield(rest) && Headers(t) == 1 + Headers(rest)
  {
    PrintedHeader(name, rest);
    hide Line, Behind, AfterLine, EntryOf, HeaderName;
  }

  lemma SectionTextYield(s: Section, rest: string)
    requires SectionReadable(s)
    ensures var t := SectionText(s) + rest;
      && Yield(t) <= |s.name| + ContentOf(s.entries) + Yield(rest)
      && (Yield(t) == |s.name| + ContentOf(s.entries) + Yield(rest) ==> AllSurvive(s.entries))
      && (AllSurvive(s.entries) ==> Headers(t) == (if s.name == "" then 0 else 1) + Headers(rest))
  {
    hide Readable, Survives, EntriesText, Yield, Headers, ContentOf, AllSurvive, HeaderNameOk;
    EntriesTextYield(s.entries, CRLF + rest);
    BlankYield(rest);
    var body := EntriesText(s.entries) + (CRLF + rest);
    if s.name == "" {
      assert SectionText(s) + rest == body;
    } else {
      HeaderYield(s.name, body);
      assert SectionText(s) + rest == "[" + s.name + "]" + CRLF + body;
    }
  }

  lemma {:induction false} TextYield(sections: seq<Section>)
    requires forall i | 0 <= i < |sections| :: SectionReadable(sections[i])
    ensures Yield(Text(sections)) <= SectionsContent(sections)
    ensures Yield(Text(sections)) == SectionsContent(sections) ==> forall i | 0 <= i < |sections| :: AllSurvive(sections[i].entries)
    ensures (forall i | 0 <= i < |sections| :: AllSurvive(sections[i].entries)) ==> Headers(Text(sections)) == Named(sections)
  {
    hide SectionReadable, SectionText, AllSurvive, ContentOf;
    if sections != [] {
      SectionTextYield(sections[0], Text(sections[1..]));
      TextYield(sections[1..]);
      assert sections == [sections[0]] + sections[1..];
      hide Yield, Headers;
    }
  }

  // ---- loading, saving and loading

  /** What is left as it was by saving and loading: sections with a name, but for the first, of entries
      that survive. */
  predicate Reloads(sections: seq<Section>) {
    && (forall i | 1 <= i < |sections| :: sections[i].name != "")
    && (forall i | 0 <= i < |sections| :: AllSurvive(sections[i].entries))
  }

  lemma {:induction false} NamedBound(sections: seq<Section>)
    ensures Named(sections) <= |sections|
    ensures Named(sections) == |sections| ==> forall i | 0 <= i < |sections| :: sections[i].name != ""
  {
    if sections != [] {
      NamedBound(sections[1..]);
      assert sections == [sections[0]] + sections[1..];
    }
  }

  lemma ReloadsIs(sections: seq<Section>)
    requires sections != [] && sections[0].name == "" && forall i | 0 <= i < |sections| :: SectionReadable(sections[i])
    ensures Reloads(sections) <==> SectionsOk(sections)
  {
    forall i, j | 0 <= i < |sections| && 0 <= j < |sections[i].entries|
      ensures EntryOk(sections[i].entries[j]) <==> Survives(sections[i].entries[j])
    {
      assert SectionReadable(sections[i]);
      SurvivesIs(sections[i].entries[j]);
    }
    hide EntryOk, Survives, Readable, OneLine;
    forall i | 0 <= i < |sections|
      ensures EntriesOk(sections[i].entries) <==> AllSurvive(sections[i].entries)
      ensures NameOk(sections[i].name) <==> sections[i].name != ""
    {
      assert SectionReadable(sections[i]);
    }
  }

  /** What was loaded from a text is loaded again from what is saved if and only if it `Reloads`. */
  lemma LoadSaveLoad(t: string)
    requires NoNul(t) && Sections(t, "").Some?
    ensures var s := Sections(t, "").value; Sections(Text(s), "") == Some(s) <==> Reloads(s)
  {
    hide Sections, Text, Reloads, SectionReadable, SectionsOk, Headers, Yield, SectionsContent, AllSurvive;
    var s := Sections(t, "").value;
    SectionsReadable(t, "");
    SectionsYield(t, "");
    ReloadsIs(s);
    if Reloads(s) {
      RoundTrip(s);
    }
    if Sections(Text(s), "") == Some(s) {
      SectionsYield(Text(s), "");
      TextYield(s);
      NamedRest(s);
      AllReload(s);
    }
  }

  lemma NamedRest(sections: seq<Section>)
    requires sections != [] && sections[0].name == ""
    ensures 1 + Named(sections) == |sections| ==> forall i | 1 <= i < |sections| :: sections[i].name != ""
  {
    NamedBound(sections[1..]);
    assert sections == [sections[0]] + sections[1..];
  }

  lemma AllReload(sections: seq<Section>)
    requires (forall i | 1 <= i < |sections| :: sections[i].name != "") && forall i | 0 <= i < |sections| :: AllSurvive(sections[i].entries)
    ensures Reloads(sections)
  {
  }

  lemma OneLineText(l: string, e: Entry)
    requires OneLine(l) && Trimmed(l) && l[0] != '[' && EntryOf(l, '\n') == Some(e) && !BlankEntry(e)
    ensures Sections(l, "") == Some([Section("", [e])])
  {
    assert l[0..|l|] == l && l[0..] == l;
    PrepLineIs(l, 0, 0, |l|, |l|);
    hide Line, Behind, AfterLine, EntryOf;
    EntriesNext(l);
    EntriesEnd("");
    AllRead([e], "");
    DropNone([e]);
  }

  /** `=a=b` is read as the nameless value `a=b`, and that, once saved, as the value `b` of `a`. */
  lemma SplitOnReload()
    ensures Sections("=a=b", "") == Some([Section("", [Entry("", "a=b")])])
    ensures Sections(Text([Section("", [Entry("", "a=b")])]), "") == Some([Section("", [Entry("a", "b")])])
  {
    var l, e, f := "=a=b", Entry("", "a=b"), Entry("a", "b");
    IndexAt(l, 0, 4, '=', 0);
    KeptValue("a=b");
    assert l[0..4] == l && l[..0] == "" && l[1..] == "a=b";
    hide TrimSpaceStart, Index, Sections, Text;
    OneLineText(l, e);
    SameText(e, f);
    SplitOk(f);
    RoundTrip([Section("", [f])]);
  }

  /** `a=` is read as a name without a value, and that, once saved, as nothing. */
  lemma NameLost()
    ensures Sections("a=", "") == Some([Section("", [Entry("a", "")])])
    ensures Sections(Text([Section("", [Entry("a", "")])]), "") == Some([Section("", [])])
  {
    var l, e, blank := "a=", Entry("a", ""), Entry("", "");
    IndexAt(l, 0, 2, '=', 1);
    KeptName("a");
    assert l[0..2] == l && l[..1] == "a" && l[2..] == "";
    assert EntryOf(l, '\n') == Some(e);
    hide TrimSpaceStart, TrimSpaceEnd, Index, Sections, Text, EntryOf;
    OneLineText(l, e);
    TwoBlanks(e);
    PrintedEntries([blank, blank], "");
    assert EntriesText([blank, blank]) + "" == EntriesText([blank, blank]);
    BlanksDropped();
    BlankSections(EntriesText([blank, blank]));
  }

  lemma TwoBlanks(e: Entry)
    requires e == Entry("a", "")
    ensures Text([Section("", [e])]) == EntriesText([Entry("", ""), Entry("", "")])
    ensures EntryOk(Entry("", ""))
  {
    var blank := Entry("", "");
    assert EntryText(e) == EntryText(blank) == "";
    hide EntryText;
    assert [e][1..] == [] && [blank, blank][1..] == [blank] && [blank][1..] == [];
    assert EntriesText([e]) == "" + CRLF + "";
    assert EntriesText([blank]) == "" + CRLF + "";
    hide EntriesText;
    var s := Section("", [e]);
    assert [s][1..] == [];
    assert SectionText(s) == CRLF + CRLF;
  }

  lemma BlanksDropped()
    ensures DropBlank([Entry("", ""), Entry("", "")]) == []
    ensures Prefixed([Entry("", ""), Entry("", "")], Entries("")) == Some(Parsed([Entry("", ""), Entry("", "")], ""))
  {
    var blank := Entry("", "");
    assert [blank, blank][..1] == [blank] && [blank][..0] == [];
    DropOne([blank, blank]);
    DropOne([blank]);
    assert [blank, blank] + [] == [blank, blank];
  }

  lemma BlankSections(t: string)
    requires Entries(t) == Some(Parsed([Entry("", ""), Entry("", "")], "")) && DropBlank([Entry("", ""), Entry("", "")]) == []
    ensures Sections(t, "") == Some([Section("", [])])
  {
    hide Entries, DropBlank;
  }

  /** A value of nothing but white space throws. */
  lemma BlankValueThrows()
    ensures Sections("a= ", "") == None
  {
    var t := "a= ";
    assert t[0..] == t && t[0..2] == "a=";
    PrepLineIs(t, 0, 0, 2, 3);
    IndexAt("a=", 0, 2, '=', 1);
    assert "a="[0..2] == "a=";
    assert EntryOf("a=", ' ') == None;
    hide Line, Behind, AfterLine, EntryOf;
    EntriesNext(t);
  }

  lemma SplitOk(f: Entry)
    requires f == Entry("a", "b")
    ensures SectionsOk([Section("", [f])])
  {
  }

  lemma SameText(e: Entry, f: Entry)
    requires e == Entry("", "a=b") && f == Entry("a", "b")
    ensures Text([Section("", [e])]) == Text([Section("", [f])])
  {
    assert "a" + "=" + "b" == "a=b" == "" + "a=b";
    assert EntryText(e) == EntryText(f);
    hide EntryText;
    assert [e][1..] == [] == [f][1..];
    assert EntriesText([e]) == EntriesText([f]);
    hide EntriesText;
    var s, u := Section("", [e]), Section("", [f]);
    assert SectionText(s) == SectionText(u);
    assert [s][1..] == [] == [u][1..];
  }
}
