/** The `CIniFile` class of ini.cpp, without the file around the text. */
module IniFile {
  import opened Common
  import opened IniText
  import opened IniParse

  const CONF_LINE_LEN: nat := 2000

  datatype NtStatus = Success | NameNotFound | InvalidParameter | Thrown

  /** `_wcsicmp(a, b) == 0`; `fold` is the folding of cases. */
  predicate Same(fold: string -> string, a: string, b: string) {
    fold(a) == fold(b)
  }

  // ---- values of a setting

  /** What `GetValue` collects: the values one by one, with line feeds between. */
  function Joined(value: string, piece: string): string {
    (if value == "" then "" else value + "\n") + piece
  }

  function ValueOf(fold: string -> string, entries: seq<Entry>, setting: string): string {
    if entries == [] then ""
    else
      var last := entries[|entries| - 1];
      var value := ValueOf(fold, entries[..|entries| - 1], setting);
      if Same(fold, last.name, setting) then Joined(value, last.value) else value
  }

  /** All entries, as `GetValue` lists them for an empty setting. */
  function Listing(entries: seq<Entry>): string {
    if entries == [] then ""
    else
      var last := entries[|entries| - 1];
      Listing(entries[..|entries| - 1]) + (if last.name == "" then "" else last.name + "=") + last.value + CRLF
  }

  /** The place of a section; the number of sections when it is missing. */
  function Find(fold: string -> string, sections: seq<Section>, section: string): (i: nat)
    ensures i <= |sections| && (i < |sections| ==> Same(fold, sections[i].name, section))
    ensures forall j | 0 <= j < i :: !Same(fold, sections[j].name, section)
  {
    if sections == [] || Same(fold, sections[0].name, section) then 0 else 1 + Find(fold, sections[1..], section)
  }

  function EntriesOf(fold: string -> string, sections: seq<Section>, section: string): Option<seq<Entry>> {
    var i := Find(fold, sections, section);
    if i < |sections| then Some(sections[i].entries) else None
  }

  /** The sections with this one among them, empty and at the end if it is new. */
  function WithSection(fold: string -> string, sections: seq<Section>, section: string): (r: seq<Section>)
    ensures Find(fold, sections, section) < |r|
  {
    if Find(fold, sections, section) < |sections| then sections else sections + [Section(section, [])]
  }

  // ---- replacing the values of a setting

  function Cut(value: string, n: nat): string
    requires n <= |value|
  {
    value[..if n > CONF_LINE_LEN then CONF_LINE_LEN else n]
  }

  function RestBehind(value: string, n: nat): string {
    if n < |value| then value[n + 1..] else ""
  }

  /** The pieces between line feeds, each cut to the line length; none behind a last line feed. */
  function Pieces(value: string): seq<string>
    decreases |value|
  {
    if value == "" then [] else [Cut(value, Index(value, '\n'))] + Pieces(RestBehind(value, Index(value, '\n')))
  }

  function Others(fold: string -> string, entries: seq<Entry>, setting: string): seq<Entry> {
    if entries == [] then []
    else
      var last := entries[|entries| - 1];
      Others(fold, entries[..|entries| - 1], setting) + if Same(fold, last.name, setting) then [] else [last]
  }

  /** Where the new values go: behind the entries kept in front of the last one removed. */
  function Place(fold: string -> string, entries: seq<Entry>, setting: string): (k: nat)
    ensures k <= |Others(fold, entries, setting)|
  {
    if entries == [] then 0
    else
      var last, rest := entries[|entries| - 1], entries[..|entries| - 1];
      if Same(fold, last.name, setting) then |Others(fold, rest, setting)|
      else if HasSetting(fold, rest, setting) then Place(fold, rest, setting)
      else |Others(fold, rest, setting)| + 1
  }

  predicate HasSetting(fold: string -> string, entries: seq<Entry>, setting: string) {
    exists i :: 0 <= i < |entries| && Same(fold, entries[i].name, setting)
  }

  function Named(setting: string, pieces: seq<string>): seq<Entry> {
    seq(|pieces|, i requires 0 <= i < |pieces| => Entry(setting, pieces[i]))
  }

  /** The entries of the section after `SetValue`. */
  function Replaced(fold: string -> string, entries: seq<Entry>, setting: string, value: string): seq<Entry> {
    var others, k := Others(fold, entries, setting), Place(fold, entries, setting);
    others[..k] + Named(setting, Pieces(value)) + others[k..]
  }

  /** The entries in two parts: up to the last one of the setting, and behind it. */
  ghost predicate Parts(fold: string -> string, entries: seq<Entry>, setting: string, front: seq<Entry>, back: seq<Entry>) {
    && entries == front + back && (forall i | 0 <= i < |back| :: !Same(fold, back[i].name, setting))
    && (front != [] ==> Same(fold, front[|front| - 1].name, setting))
  }

  /** `now` is `was` with all entries of the setting taken out and `added` put in their stead: where the last of them was,
      or at the end where there was none. */
  ghost predicate PutIn(fold: string -> string, was: seq<Entry>, now: seq<Entry>, setting: string, added: seq<Entry>) {
    exists front, back :: Parts(fold, was, setting, front, back) &&
      now == if front == [] then back + added else Others(fold, front, setting) + added + back
  }

  /** One entry for each line of the value, or for none where the length given is zero. */
  ghost predicate EntriesFor(added: seq<Entry>, setting: string, value: string, valueLen: Option<nat>) {
    if valueLen == Some(0) then added == []
    else |added| == |Pieces(value)| && forall i | 0 <= i < |added| :: added[i] == Entry(setting, Pieces(value)[i])
  }

  predicate HasLineBreak(s: string) {
    exists i :: 0 <= i < |s| && (s[i] == '\r' || s[i] == '\n')
  }

  class CIniFile {
    const fold: string -> string
    var sections: seq<Section>

    constructor (fold: string -> string)
      ensures sections == [] && this.fold == fold
    {
      this.fold := fold;
      sections := [];
    }

    /** The parsing of `LoadIni`; where it throws, what was read up to there is left in the object. */
    method Load(t: string) returns (status: NtStatus)
      requires NoNul(t)
      modifies `sections
      ensures var p := Sections(t, "");
        if p.None? then status == Thrown && sections == SectionsSoFar(t, "") else status == Success && sections == p.value
    {
      hide Entries, EntriesSoFar, DropBlank, Line, AfterLine, HeaderName, NoNul;
      sections := [Section("", [])];
      var i, name := 0, "";
      ghost var done: seq<Section> := [];
      assert t[0..] == t;
      LoadStart(Sections(t, ""));
      while i < |t|
        invariant 0 <= i <= |t| && sections == done + [Section(name, [])]
        invariant Sections(t, "") == After(done, Sections(t[i..], name))
        invariant SectionsSoFar(t, "") == done + SectionsSoFar(t[i..], name)
        decreases |t| - i
      {
        var ok, entries, j := ReadSection(t, i);
        sections := sections[|sections| - 1 := Section(name, entries)];
        if !ok {
          return Thrown;
        }
        ghost var s := Section(name, entries);
        assert sections == done + [s];
        LoadStep(done, t[i..], s, t[j..]);
        if j == |t| {
          i := j;
          return Success;
        }
        var next, k := ReadHeader(t, j);
        done := done + [s];
        name := next;
        sections := sections + [Section(name, [])];
        i := k;
      }
      LoadEnd(done, name);
      assert t[i..] == "";
      return Success;
    }

    /** The rebuild loop of `SaveIni`. */
    method Save() returns (t: string)
      ensures t == Text(sections)
    {
      hide EntryText, EntriesText, SectionText, Text, CRLF;
      t := "";
      var i := 0;
      assert sections[0..] == sections && "" + Text(sections) == Text(sections);
      while i < |sections|
        invariant 0 <= i <= |sections| && t + Text(sections[i..]) == Text(sections)
      {
        var s := sections[i];
        ghost var start := t;
        if s.name != "" {
          t := t + "[" + s.name + "]" + CRLF;
        }
        ghost var head := t;
        var j := 0;
        assert s.entries[0..] == s.entries;
        while j < |s.entries|
          invariant 0 <= j <= |s.entries| && t + EntriesText(s.entries[j..]) == head + EntriesText(s.entries)
        {
          var e := s.entries[j];
          ghost var was := t;
          if e.value != "" {
            if e.name != "" {
              t := t + e.name + "=";
            }
            t := t + e.value;
          }
          t := t + CRLF;
          SavedEntry(was, e, t, s.entries, j);
          j := j + 1;
        }
        assert s.entries[j..] == [];
        NothingLeft(t);
        t := t + CRLF;
        SavedSection(start, s, head, t, sections, i);
        i := i + 1;
      }
      assert sections[i..] == [];
      NothingLeft(t);
    }

    /** `GetSection` where it may add: the place of the section, at the end if it is new. */
    method GetSection(section: string) returns (i: nat)
      modifies `sections
      ensures i < |sections| && Same(fold, sections[i].name, section) && i == Find(fold, sections, section)
      ensures sections == WithSection(fold, old(sections), section)
      ensures i == Find(fold, old(sections), section)
    {
      i := FindSection(section);
      if i == |sections| {
        FindAppended(fold, sections, section);
        sections := sections + [Section(section, [])];
      }
    }

    method FindSection(section: string) returns (i: nat)
      ensures i == Find(fold, sections, section)
    {
      i := 0;
      assert sections[0..] == sections;
      while i < |sections|
        invariant 0 <= i <= |sections| && Find(fold, sections, section) == i + Find(fold, sections[i..], section)
      {
        if Same(fold, sections[i].name, section) {
          return;
        }
        assert sections[i..][1..] == sections[i + 1..];
        i := i + 1;
      }
    }

    /** The value a caller gets that passes an empty string to collect it in. */
    method GetValue(section: string, setting: string) returns (status: NtStatus, value: string)
      ensures var e := EntriesOf(fold, sections, section);
        if e.None? then status == NameNotFound && value == ""
        else status == Success && value == if setting == "" then Listing(e.value) else ValueOf(fold, e.value, setting)
    {
      hide Listing, ValueOf, Find, Joined;
      value := "";
      var i := FindSection(section);
      if i == |sections| {
        return NameNotFound, "";
      }
      var entries, j := sections[i].entries, 0;
      NothingRead(fold, setting);
      assert entries[..0] == [];
      while j < |entries|
        invariant 0 <= j <= |entries|
        invariant value == if setting == "" then Listing(entries[..j]) else ValueOf(fold, entries[..j], setting)
      {
        ghost var was := value;
        if setting == "" {
          if entries[j].name != "" {
            value := value + entries[j].name + "=";
          }
          value := value + entries[j].value + CRLF;
          ListingStep(entries, j);
        } else if Same(fold, entries[j].name, setting) {
          if value != "" {
            value := value + "\n";
          }
          value := value + entries[j].value;
          JoinedIs(was, entries[j].value);
        }
        ValueStep(fold, entries, setting, j);
        j := j + 1;
      }
      assert entries[..j] == entries;
      status := Success;
    }

    /** The erasing loop of `SetValue`. */
    method Erase(entries: seq<Entry>, setting: string) returns (kept: seq<Entry>, pos: nat)
      ensures kept == Others(fold, entries, setting) && pos == Place(fold, entries, setting) && pos <= |kept|
      ensures forall added :: PutIn(fold, entries, kept[..pos] + added + kept[pos..], setting, added)
    {
      kept, pos := [], 0;
      var any, j := false, 0;
      while j < |entries|
        invariant 0 <= j <= |entries| && kept == Others(fold, entries[..j], setting)
        invariant any <==> HasSetting(fold, entries[..j], setting)
        invariant pos == Place(fold, entries[..j], setting)
      {
        assert entries[..j + 1][..j] == entries[..j];
        HasNext(fold, entries, setting, j);
        if Same(fold, entries[j].name, setting) {
          any, pos := true, |kept|;
        } else {
          kept := kept + [entries[j]];
          if !any {
            pos := |kept|;
          }
        }
        j := j + 1;
      }
      assert entries[..j] == entries;
      forall added
        ensures PutIn(fold, entries, kept[..pos] + added + kept[pos..], setting, added)
      {
        PlaceIsBehind(fold, entries, setting, added);
      }
    }

    /** The inserting loop. */
    method Insert(kept: seq<Entry>, at: nat, setting: string, value: string) returns (entries: seq<Entry>)
      requires at <= |kept| && NoNul(value)
      ensures entries == kept[..at] + Named(setting, Pieces(value)) + kept[at..]
    {
      hide *;
      var i := 0;
      var pieces: seq<string> := [];
      NoPieces();
      assert value[0..] == value && pieces + Pieces(value) == Pieces(value);
      entries := kept;
      assert kept == kept[..at] + Named(setting, pieces) + kept[at..];
      while i < |value|
        invariant 0 <= i <= |value| && pieces + Pieces(value[i..]) == Pieces(value)
        invariant entries == kept[..at] + Named(setting, pieces) + kept[at..]
      {
        var cr := i;
        while cr < |value| && value[cr] != '\n'
          invariant i <= cr <= |value| && forall k | i <= k < cr :: value[k] != '\n'
        {
          cr := cr + 1;
        }
        var cpylen := cr - i;
        var skiplen := if cr < |value| then cpylen + 1 else cpylen;
        if cpylen > CONF_LINE_LEN {
          cpylen := CONF_LINE_LEN;
        }
        NextPiece(value, i, cr);
        var piece := value[i..i + cpylen];
        InsertOne(kept, at, setting, pieces, piece, entries);
        var pos := at + |pieces|;
        entries := entries[..pos] + [Entry(setting, piece)] + entries[pos..];
        StringsJoined(pieces, piece, Pieces(value[i + skiplen..]));
        pieces := pieces + [piece];
        i := i + skiplen;
      }
      assert value[i..] == "";
      NoPieces();
      assert pieces + [] == pieces;
    }

    /** A setting name with a line break is refused.  Otherwise the section is there afterwards, new at
        the end if it was missing: with an empty setting it takes the entries read from the value,
        which must not hold another section, and else the values of the one setting are replaced.  Of
        a given length only matters whether it is zero; without one it is that of the value. */
    method SetValue(section: string, setting: string, value: string, valueLen: Option<nat>) returns (status: NtStatus)
      requires NoNul(value)
      modifies `sections
      ensures HasLineBreak(setting) ==> status == InvalidParameter && sections == old(sections)
      ensures !HasLineBreak(setting) ==>
        var base, i := WithSection(fold, old(sections), section), Find(fold, old(sections), section);
        if setting != "" || valueLen == Some(0) || (valueLen == None && value == "") then
          && status == Success
          && sections == base[i := base[i].(entries := Replaced(fold, base[i].entries, setting, if valueLen == Some(0) then "" else value))]
        else
          var p := Entries(value);
          if p.None? then status == Thrown && sections == base
          else if p.value.rest != "" then status == InvalidParameter && sections == base
          else status == Success && sections == base[i := base[i].(entries := DropBlank(p.value.entries))]
      ensures !HasLineBreak(setting) && (setting != "" || valueLen == Some(0) || (valueLen == None && value == "")) ==>
        && EntriesOf(fold, sections, section).Some?
        && var was, now := Or(EntriesOf(fold, old(sections), section)), EntriesOf(fold, sections, section).value;
          && (exists added :: EntriesFor(added, setting, value, valueLen) && PutIn(fold, was, now, setting, added))
          && (valueLen == Some(0) ==> ValueOf(fold, now, setting) == "")
          && (forall pieces | valueLen != Some(0) && value == Lines(pieces) && AllOk(pieces) :: ValueOf(fold, now, setting) == value)
          && (forall other | !Same(fold, setting, other) :: ValueOf(fold, now, other) == ValueOf(fold, was, other))
      ensures forall other :: !Same(fold, other, section) ==> EntriesOf(fold, sections, other) == EntriesOf(fold, old(sections), other)
    {
      hide Pieces, Others, Place, Entries, DropBlank, Find, HasLineBreak, PutIn, EntriesFor, ValueOf, Replaced, Lines, AllOk;
      var bad := ContainsCRLF(setting);
      if bad {
        return InvalidParameter;
      }
      var i := GetSection(section);
      ghost var added := sections;
      forall other | !Same(fold, other, section)
        ensures EntriesOf(fold, added, other) == EntriesOf(fold, old(sections), other)
      {
        OtherSection(fold, old(sections), section, other);
      }
      NewSection(fold, old(sections), section);
      var length := if valueLen.None? then |value| else valueLen.value;
      var haveValue := length != 0;
      if setting == "" && haveValue {
        var ok, entries, j := ReadSection(value, 0);
        assert value[0..] == value;
        if !ok {
          return Thrown;
        }
        if j != |value| {
          return InvalidParameter;
        }
        assert value[j..] == "";
        sections := sections[i := sections[i].(entries := entries)];
        EntriesSet(fold, added, section, i, entries);
        return Success;
      }
      ghost var was := sections[i].entries;
      var kept, pos := Erase(sections[i].entries, setting);
      NoPieces();
      var entries := kept;
      if haveValue {
        entries := Insert(kept, pos, setting, value);
      } else {
        assert kept == kept[..pos] + Named(setting, []) + kept[pos..];
      }
      ghost var text := if valueLen == Some(0) then "" else value;
      ReplacedIs(fold, was, setting, text);
      AreEntriesFor(setting, value, valueLen);
      ReadBack(fold, was, setting, text);
      sections := sections[i := sections[i].(entries := entries)];
      EntriesSet(fold, added, section, i, entries);
      return Success;
    }
  }

  method ContainsCRLF(s: string) returns (r: bool)
    ensures r == HasLineBreak(s)
  {
    var p := 0;
    while p < |s|
      invariant 0 <= p <= |s| && forall i | 0 <= i < p :: s[i] != '\r' && s[i] != '\n'
    {
      if s[p] == '\r' || s[p] == '\n' {
        return true;
      }
      p := p + 1;
    }
    return false;
  }

  function Or(e: Option<seq<Entry>>): seq<Entry> {
    if e.None? then [] else e.value
  }

  lemma NothingRead(fold: string -> string, setting: string)
    ensures Listing([]) == "" == ValueOf(fold, [], setting)
  {
  }

  /** The listing of a section, set as the section, gives its entries back. */
  lemma ListedAndSet(entries: seq<Entry>)
    requires EntriesOk(entries)
    ensures var p := Entries(Listing(entries)); p.Some? && p.value.rest == "" && DropBlank(p.value.entries) == entries
  {
    hide EntryOk, Entries, Listing, EntriesText, DropBlank;
    ListingIs(entries);
    PrintedEntries(entries, "");
    assert EntriesText(entries) + "" == EntriesText(entries);
    EntriesEnd("");
    AllRead(entries, "");
    DropNone(entries);
  }

  lemma {:induction false} ListingIs(entries: seq<Entry>)
    requires forall i | 0 <= i < |entries| :: EntryOk(entries[i])
    ensures Listing(entries) == EntriesText(entries)
  {
    hide EntryOk, Listing, EntriesText, EntryText, CRLF;
    if entries != [] {
      var last, rest := entries[|entries| - 1], entries[..|entries| - 1];
      ListingIs(rest);
      LastText(rest, last);
      LastListed(entries);
      assert rest + [last] == entries;
    } else {
      NothingListed();
    }
  }

  lemma NothingListed()
    ensures Listing([]) == EntriesText([])
  {
  }

  lemma LastListed(entries: seq<Entry>)
    requires entries != [] && EntryOk(entries[|entries| - 1])
    ensures Listing(entries) == Listing(entries[..|entries| - 1]) + (EntryText(entries[|entries| - 1]) + CRLF)
  {
    var last := entries[|entries| - 1];
    var l, n := Listing(entries[..|entries| - 1]), if last.name == "" then "" else last.name + "=";
    PrintedAs(last, n);
    hide EntryOk, EntryText, CRLF;
    Chained(l, n, last.value, CRLF);
  }

  lemma PrintedAs(e: Entry, n: string)
    requires EntryOk(e) && n == if e.name == "" then "" else e.name + "="
    ensures EntryText(e) == n + e.value
  {
    assert "" + e.value == e.value;
  }

  lemma Chained(a: string, b: string, c: string, d: string)
    ensures a + b + c + d == a + (b + c + d)
  {
  }

  lemma {:induction false} LastText(rest: seq<Entry>, last: Entry)
    ensures EntriesText(rest + [last]) == EntriesText(rest) + (EntryText(last) + CRLF)
  {
    hide EntryText, CRLF;
    if rest == [] {
      assert rest + [last] == [last] && [last][1..] == [];
    } else {
      LastText(rest[1..], last);
      assert (rest + [last])[1..] == rest[1..] + [last];
    }
  }

  lemma ListingStep(entries: seq<Entry>, j: nat)
    requires j < |entries|
    ensures Listing(entries[..j + 1]) ==
      (if entries[j].name == "" then Listing(entries[..j]) else Listing(entries[..j]) + entries[j].name + "=") + entries[j].value + CRLF
  {
    assert entries[..j + 1][..j] == entries[..j];
    var l, n := Listing(entries[..j]), entries[j].name;
    assert l + "" == l && l + (n + "=") == l + n + "=";
  }

  lemma ValueStep(fold: string -> string, entries: seq<Entry>, setting: string, j: nat)
    requires j < |entries|
    ensures var v := ValueOf(fold, entries[..j], setting);
      ValueOf(fold, entries[..j + 1], setting) == if Same(fold, entries[j].name, setting) then Joined(v, entries[j].value) else v
  {
    hide Joined, Same;
    assert entries[..j + 1][..j] == entries[..j];
  }

  lemma JoinedIs(value: string, piece: string)
    ensures Joined(value, piece) == (if value != "" then value + "\n" else value) + piece
  {
  }

  // ---- loading and saving

  function After(done: seq<Section>, p: Option<seq<Section>>): Option<seq<Section>> {
    if p.None? then None else Some(done + p.value)
  }

  lemma LoadStart(p: Option<seq<Section>>)
    ensures After([], p) == p && forall s: Section :: [] + [s] == [s]
  {
    if p.Some? {
      assert [] + p.value == p.value;
    }
  }

  /** A section read, and the header behind it. */
  lemma LoadStep(done: seq<Section>, t: string, s: Section, rest: string)
    requires var p := Entries(t); p.Some? && s.entries == DropBlank(p.value.entries) && p.value.rest == rest
    ensures rest == "" ==> After(done, Sections(t, s.name)) == Some(done + [s])
    ensures rest != "" ==> IsHeader(rest) && After(done, Sections(t, s.name)) == After(done + [s], Sections(AfterLine(rest), HeaderName(Line(rest))))
    ensures rest != "" ==> done + SectionsSoFar(t, s.name) == done + [s] + SectionsSoFar(AfterLine(rest), HeaderName(Line(rest)))
  {
    hide Entries, DropBlank, Line, AfterLine, HeaderName;
    if rest != "" {
      var soFar := SectionsSoFar(AfterLine(rest), HeaderName(Line(rest)));
      assert done + ([s] + soFar) == done + [s] + soFar;
      var more := Sections(AfterLine(rest), HeaderName(Line(rest)));
      if more.Some? {
        assert done + ([s] + more.value) == (done + [s]) + more.value;
      }
    }
  }

  lemma LoadEnd(done: seq<Section>, name: string)
    ensures After(done, Sections("", name)) == Some(done + [Section(name, [])])
  {
  }

  lemma SavedEntry(was: string, e: Entry, now: string, entries: seq<Entry>, j: nat)
    requires j < |entries| && entries[j] == e
    requires now == (if e.value != "" then (if e.name != "" then was + e.name + "=" else was) + e.value else was) + CRLF
    ensures now + EntriesText(entries[j + 1..]) == was + EntriesText(entries[j..])
  {
    hide CRLF;
    var rest := EntriesText(entries[j + 1..]);
    assert entries[j..][1..] == entries[j + 1..];
    assert now == was + EntryText(e) + CRLF;
    assert was + (EntryText(e) + CRLF + rest) == (was + EntryText(e) + CRLF) + rest;
  }

  lemma SavedSection(start: string, s: Section, head: string, now: string, sections: seq<Section>, i: nat)
    requires i < |sections| && sections[i] == s
    requires head == if s.name != "" then start + "[" + s.name + "]" + CRLF else start
    requires now == head + EntriesText(s.entries) + CRLF
    ensures now + Text(sections[i + 1..]) == start + Text(sections[i..])
  {
    hide Text, SectionText;
    TextFrom(sections, i);
    SectionAdded(start, s, head, now);
    Assoc(start, SectionText(s), Text(sections[i + 1..]));
  }

  lemma NothingLeft(t: string)
    ensures t + EntriesText([]) == t && t + Text([]) == t
  {
  }

  lemma TextFrom(sections: seq<Section>, i: nat)
    requires i < |sections|
    ensures Text(sections[i..]) == SectionText(sections[i]) + Text(sections[i + 1..])
  {
    hide SectionText;
    assert sections[i..][1..] == sections[i + 1..];
  }

  lemma Assoc(a: string, b: string, c: string)
    ensures (a + b) + c == a + (b + c)
  {
  }

  lemma SectionAdded(start: string, s: Section, head: string, now: string)
    requires head == if s.name != "" then start + "[" + s.name + "]" + CRLF else start
    requires now == head + EntriesText(s.entries) + CRLF
    ensures now == start + SectionText(s)
  {
    hide EntriesText;
    var h := if s.name == "" then "" else "[" + s.name + "]" + CRLF;
    assert head == start + h;
    Assoc(start, h, EntriesText(s.entries));
    Assoc(start, h + EntriesText(s.entries), CRLF);
  }

  // ---- sections

  lemma {:induction false} FindIs(fold: string -> string, sections: seq<Section>, section: string, i: nat)
    requires i <= |sections| && (i < |sections| ==> Same(fold, sections[i].name, section))
    requires forall j | 0 <= j < i :: !Same(fold, sections[j].name, section)
    ensures Find(fold, sections, section) == i
  {
  }

  lemma FindAppended(fold: string -> string, sections: seq<Section>, section: string)
    requires Find(fold, sections, section) == |sections|
    ensures Find(fold, sections + [Section(section, [])], section) == |sections|
  {
    hide Find;
    FindIs(fold, sections + [Section(section, [])], section, |sections|);
  }

  lemma OtherSection(fold: string -> string, sections: seq<Section>, section: string, other: string)
    requires !Same(fold, other, section)
    ensures EntriesOf(fold, sections + [Section(section, [])], other) == EntriesOf(fold, sections, other)
  {
    hide Find;
    var i := Find(fold, sections, other);
    FindIs(fold, sections + [Section(section, [])], other, if i < |sections| then i else |sections| + 1);
  }

  lemma NewSection(fold: string -> string, sections: seq<Section>, section: string)
    ensures Find(fold, sections, section) == |sections| ==> EntriesOf(fold, sections, section) == None
  {
  }

  /** Changing the entries of a section, by its place. */
  lemma EntriesSet(fold: string -> string, sections: seq<Section>, section: string, i: nat, entries: seq<Entry>)
    requires i < |sections| && i == Find(fold, sections, section)
    ensures var now := sections[i := sections[i].(entries := entries)];
      && EntriesOf(fold, now, section) == Some(entries)
      && forall other :: !Same(fold, other, section) ==> EntriesOf(fold, now, other) == EntriesOf(fold, sections, other)
  {
    hide Find;
    var now := sections[i := sections[i].(entries := entries)];
    FindIs(fold, now, section, i);
    forall other | !Same(fold, other, section)
      ensures EntriesOf(fold, now, other) == EntriesOf(fold, sections, other)
    {
      FindIs(fold, now, other, Find(fold, sections, other));
    }
  }

  // ---- entries

  lemma HasNext(fold: string -> string, entries: seq<Entry>, setting: string, j: nat)
    requires j < |entries|
    ensures HasSetting(fold, entries[..j + 1], setting) <==> HasSetting(fold, entries[..j], setting) || Same(fold, entries[j].name, setting)
  {
    var s, t := entries[..j], entries[..j + 1];
    if i :| 0 <= i < |s| && Same(fold, s[i].name, setting) {
      assert t[i] == s[i];
    }
    if Same(fold, entries[j].name, setting) {
      assert t[j] == entries[j];
    }
    if i :| 0 <= i < |t| && Same(fold, t[i].name, setting) {
      assert i < j ==> s[i] == t[i];
    }
  }

  lemma NextPiece(value: string, i: nat, cr: nat)
    requires i <= cr <= |value| && i < |value| && (forall k | i <= k < cr :: value[k] != '\n') && (cr < |value| ==> value[cr] == '\n')
    ensures var n := if cr - i > CONF_LINE_LEN then CONF_LINE_LEN else cr - i;
      Pieces(value[i..]) == [value[i..i + n]] + Pieces(value[if cr < |value| then cr + 1 else cr..])
  {
    hide Index, Cut, RestBehind, Pieces;
    BreakAt(value, i, cr);
    PiecesNext(value[i..]);
    CutAt(value, i, cr);
  }

  lemma BreakAt(value: string, i: nat, cr: nat)
    requires i <= cr <= |value| && i < |value| && (forall k | i <= k < cr :: value[k] != '\n') && (cr < |value| ==> value[cr] == '\n')
    ensures value[i..] != "" && Index(value[i..], '\n') == cr - i
  {
    IndexAt(value, i, |value|, '\n', cr);
    hide Index;
    assert value[i..|value|] == value[i..];
  }

  lemma PiecesNext(value: string)
    requires value != ""
    ensures Pieces(value) == [Cut(value, Index(value, '\n'))] + Pieces(RestBehind(value, Index(value, '\n')))
  {
    hide Index, Cut, RestBehind;
  }

  lemma CutAt(value: string, i: nat, cr: nat)
    requires i <= cr <= |value|
    ensures Cut(value[i..], cr - i) == value[i..i + if cr - i > CONF_LINE_LEN then CONF_LINE_LEN else cr - i]
    ensures RestBehind(value[i..], cr - i) == value[if cr < |value| then cr + 1 else cr..]
  {
    var n := if cr - i > CONF_LINE_LEN then CONF_LINE_LEN else cr - i;
    Sub(value, i, |value|, 0, n);
    assert value[i..|value|] == value[i..];
    if cr < |value| {
      Sub(value, i, |value|, cr - i + 1, |value| - i);
      assert value[i..][cr - i + 1..|value| - i] == value[i..][cr - i + 1..];
      assert value[cr + 1..|value|] == value[cr + 1..];
    }
  }

  lemma ReplacedIs(fold: string -> string, entries: seq<Entry>, setting: string, value: string)
    ensures var o, k := Others(fold, entries, setting), Place(fold, entries, setting);
      Replaced(fold, entries, setting, value) == o[..k] + Named(setting, Pieces(value)) + o[k..]
  {
  }

  lemma AreEntriesFor(setting: string, value: string, valueLen: Option<nat>)
    ensures EntriesFor(Named(setting, Pieces(if valueLen == Some(0) then "" else value)), setting, value, valueLen)
  {
    NoPieces();
    hide Pieces;
  }

  /** Leaving out the entries of a setting, entry by entry. */
  lemma {:induction false} OthersIs(fold: string -> string, a: seq<Entry>, b: seq<Entry>, e: Entry, setting: string)
    ensures Others(fold, a + b, setting) == Others(fold, a, setting) + Others(fold, b, setting)
    ensures Others(fold, [], setting) == [] && Others(fold, [e], setting) == if Same(fold, e.name, setting) then [] else [e]
  {
    hide Same, Others;
    OthersLast(fold, [e], setting);
    NoOthers(fold, setting);
    assert [e][..0] == [];
    if b == [] {
      assert a + b == a && Others(fold, a, setting) + [] == Others(fold, a, setting);
    } else {
      var rest, last := b[..|b| - 1], if Same(fold, b[|b| - 1].name, setting) then [] else [b[|b| - 1]];
      OthersIs(fold, a, rest, e, setting);
      OthersLast(fold, b, setting);
      OthersLast(fold, a + b, setting);
      assert (a + b)[..|a + b| - 1] == a + rest && (a + b)[|a + b| - 1] == b[|b| - 1];
      InOrder(Others(fold, a, setting), Others(fold, rest, setting), last);
    }
  }

  lemma InOrder(a: seq<Entry>, b: seq<Entry>, c: seq<Entry>)
    ensures a + b + c == a + (b + c)
  {
  }

  lemma NoOthers(fold: string -> string, setting: string)
    ensures Others(fold, [], setting) == []
  {
  }

  lemma OthersLast(fold: string -> string, s: seq<Entry>, setting: string)
    requires s != []
    ensures Others(fold, s, setting) == Others(fold, s[..|s| - 1], setting) + if Same(fold, s[|s| - 1].name, setting) then [] else [s[|s| - 1]]
  {
  }

  lemma {:induction false} NoneTaken(fold: string -> string, back: seq<Entry>, setting: string)
    requires forall i | 0 <= i < |back| :: !Same(fold, back[i].name, setting)
    ensures Others(fold, back, setting) == back && !HasSetting(fold, back, setting) && Place(fold, back, setting) == |back|
  {
    hide Same;
    if back != [] {
      NoneTaken(fold, back[..|back| - 1], setting);
      assert back[..|back| - 1] + [back[|back| - 1]] == back;
    }
  }

  lemma {:induction false} PlaceBehind(fold: string -> string, front: seq<Entry>, back: seq<Entry>, setting: string)
    requires front != [] && Same(fold, front[|front| - 1].name, setting) && forall i | 0 <= i < |back| :: !Same(fold, back[i].name, setting)
    ensures Place(fold, front + back, setting) == |Others(fold, front, setting)| && HasSetting(fold, front + back, setting)
    ensures Others(fold, front + back, setting) == Others(fold, front, setting) + back
  {
    hide Same, Others;
    assert (front + back)[|front| - 1] == front[|front| - 1];
    OthersIs(fold, front, back, front[0], setting);
    NoneTaken(fold, back, setting);
    if back == [] {
      assert front + back == front;
      OthersLast(fold, front, setting);
    } else {
      PlaceBehind(fold, front, back[..|back| - 1], setting);
      assert (front + back)[..|front + back| - 1] == front + back[..|back| - 1];
    }
  }

  lemma {:induction false} PartsOf(fold: string -> string, entries: seq<Entry>, setting: string) returns (front: seq<Entry>, back: seq<Entry>)
    ensures Parts(fold, entries, setting, front, back)
  {
    hide Same;
    if entries == [] || Same(fold, entries[|entries| - 1].name, setting) {
      front, back := entries, [];
    } else {
      front, back := PartsOf(fold, entries[..|entries| - 1], setting);
      back := back + [entries[|entries| - 1]];
    }
  }

  lemma PlaceIsBehind(fold: string -> string, entries: seq<Entry>, setting: string, added: seq<Entry>)
    ensures var o, k := Others(fold, entries, setting), Place(fold, entries, setting); PutIn(fold, entries, o[..k] + added + o[k..], setting, added)
  {
    var front, back := PartsOf(fold, entries, setting);
    hide Same, Others, Place, HasSetting;
    var o, k := Others(fold, entries, setting), Place(fold, entries, setting);
    if front == [] {
      assert entries == back;
      NoneTaken(fold, back, setting);
      assert o[..k] == back && o[k..] == [] && back + added + [] == back + added;
    } else {
      PlaceBehind(fold, front, back, setting);
      assert o[..k] == Others(fold, front, setting) && o[k..] == back;
    }
  }

  /** What reading gives after a setting was replaced. */
  lemma ReadBack(fold: string -> string, was: seq<Entry>, setting: string, value: string)
    ensures value == "" ==> ValueOf(fold, Replaced(fold, was, setting, value), setting) == ""
    ensures forall pieces | value == Lines(pieces) && AllOk(pieces) :: ValueOf(fold, Replaced(fold, was, setting, value), setting) == value
    ensures forall other | !Same(fold, setting, other) :: ValueOf(fold, Replaced(fold, was, setting, value), other) == ValueOf(fold, was, other)
  {
    hide Replaced, ValueOf, Lines, Same, AllOk;
    forall other | !Same(fold, setting, other)
      ensures ValueOf(fold, Replaced(fold, was, setting, value), other) == ValueOf(fold, was, other)
    {
      SetKeepsOthers(fold, was, setting, value, other);
    }
    if value == "" {
      NothingSet(fold, was, setting);
    }
    forall pieces | value == Lines(pieces) && AllOk(pieces)
      ensures ValueOf(fold, Replaced(fold, was, setting, value), setting) == value
    {
      if pieces != [] {
        SetThenGet(fold, was, setting, pieces, setting);
      } else {
        NoLines();
      }
    }
  }

  lemma NoLines()
    ensures Lines([]) == ""
  {
  }

  lemma NothingSet(fold: string -> string, entries: seq<Entry>, setting: string)
    ensures ValueOf(fold, Replaced(fold, entries, setting, ""), setting) == ""
  {
    NoPieces();
    hide Pieces, Others, Place, ValueOf, Same;
    var o, k := Others(fold, entries, setting), Place(fold, entries, setting);
    assert o[..k] + Named(setting, []) + o[k..] == o;
    OthersAre(fold, entries, setting);
    NothingOf(fold, o, setting);
  }

  lemma SetKeepsOthers(fold: string -> string, entries: seq<Entry>, setting: string, value: string, other: string)
    ensures !Same(fold, setting, other) ==> ValueOf(fold, Replaced(fold, entries, setting, value), other) == ValueOf(fold, entries, other)
  {
    hide Pieces, Others, Place, ValueOf, Same;
    var o, k := Others(fold, entries, setting), Place(fold, entries, setting);
    if !Same(fold, setting, other) {
      InsertedValue(fold, o[..k], Named(setting, Pieces(value)), o[k..], setting, other);
      assert o[..k] + o[k..] == o;
      OthersValue(fold, entries, setting, other);
    }
  }

  lemma NoPieces()
    ensures Pieces("") == [] && forall setting :: Named(setting, []) == []
  {
  }

  lemma StringsJoined(a: seq<string>, x: string, b: seq<string>)
    ensures a + ([x] + b) == a + [x] + b
  {
  }

  lemma InsertOne(kept: seq<Entry>, at: nat, setting: string, pieces: seq<string>, piece: string, entries: seq<Entry>)
    requires at <= |kept| && entries == kept[..at] + Named(setting, pieces) + kept[at..]
    ensures at + |pieces| <= |entries|
    ensures entries[..at + |pieces|] + [Entry(setting, piece)] + entries[at + |pieces|..] == kept[..at] + Named(setting, pieces + [piece]) + kept[at..]
  {
    var pos := at + |pieces|;
    assert entries[..pos] == kept[..at] + Named(setting, pieces) && entries[pos..] == kept[at..];
    assert Named(setting, pieces + [piece]) == Named(setting, pieces) + [Entry(setting, piece)];
  }

  // ---- what was set is what is read

  /** The pieces with line feeds between, as a caller passes them. */
  function Lines(pieces: seq<string>): string {
    if pieces == [] then "" else if |pieces| == 1 then pieces[0] else pieces[0] + "\n" + Lines(pieces[1..])
  }

  predicate PieceOk(s: string) {
    s != "" && |s| <= CONF_LINE_LEN && '\n' !in s
  }

  predicate AllOk(pieces: seq<string>) {
    forall i | 0 <= i < |pieces| :: PieceOk(pieces[i])
  }

  lemma {:induction false} PiecesOfLines(pieces: seq<string>)
    requires forall i | 0 <= i < |pieces| :: PieceOk(pieces[i])
    ensures Pieces(Lines(pieces)) == pieces
  {
    hide Pieces;
    if pieces == [] {
      NoPieces();
    } else {
      var p, rest := pieces[0], Lines(pieces[1..]);
      var all := Lines(pieces);
      assert PieceOk(p) && all[..|p|] == p && all != "";
      PiecesOfLines(pieces[1..]);
      assert all[0..] == all && all[0..|p|] == p;
      if |pieces| == 1 {
        NextPiece(all, 0, |p|);
        NoPieces();
        assert all[|p|..] == "";
      } else {
        assert all[|p|] == '\n' && all[|p| + 1..] == rest;
        NextPiece(all, 0, |p|);
      }
      assert [p] + pieces[1..] == pieces;
    }
  }

  /** Collecting a value, then more values. */
  function JoinedAll(value: string, pieces: seq<string>): string {
    if pieces == [] then value else Joined(JoinedAll(value, pieces[..|pieces| - 1]), pieces[|pieces| - 1])
  }

  lemma {:induction false} ValueOfAppend(fold: string -> string, a: seq<Entry>, b: seq<Entry>, setting: string)
    ensures (forall i | 0 <= i < |b| :: !Same(fold, b[i].name, setting)) ==> ValueOf(fold, a + b, setting) == ValueOf(fold, a, setting)
    ensures (forall i | 0 <= i < |a| :: !Same(fold, a[i].name, setting)) ==> ValueOf(fold, a + b, setting) == ValueOf(fold, b, setting)
  {
    hide Same;
    if b == [] {
      assert a + b == a;
      NothingOf(fold, a, setting);
    } else {
      var rest := b[..|b| - 1];
      ValueOfAppend(fold, a, rest, setting);
      assert (a + b)[..|a + b| - 1] == a + rest;
    }
  }

  lemma {:induction false} NothingOf(fold: string -> string, entries: seq<Entry>, setting: string)
    ensures (forall i | 0 <= i < |entries| :: !Same(fold, entries[i].name, setting)) ==> ValueOf(fold, entries, setting) == ""
  {
    hide Same;
    if entries != [] {
      NothingOf(fold, entries[..|entries| - 1], setting);
    }
  }

  lemma {:induction false} NamedValue(fold: string -> string, setting: string, pieces: seq<string>)
    requires forall i | 0 <= i < |pieces| :: pieces[i] != ""
    ensures ValueOf(fold, Named(setting, pieces), setting) == Lines(pieces)
  {
    hide Joined;
    if pieces == [] {
    } else {
      var n := |pieces| - 1;
      var all := Named(setting, pieces);
      NamedValue(fold, setting, pieces[..n]);
      assert all[..n] == Named(setting, pieces[..n]);
      LinesSnoc(pieces[..n], pieces[n]);
      assert pieces[..n] + [pieces[n]] == pieces;
    }
  }

  lemma {:induction false} LinesSnoc(pieces: seq<string>, p: string)
    requires forall i | 0 <= i < |pieces| :: pieces[i] != ""
    ensures Lines(pieces + [p]) == Joined(Lines(pieces), p)
    ensures Lines(pieces) == "" <==> pieces == []
  {
    var all := pieces + [p];
    if pieces == [] {
      assert all == [p] && "" + p == p;
    } else {
      LinesSnoc(pieces[1..], p);
      assert all[1..] == pieces[1..] + [p];
      if |pieces| == 1 {
        assert pieces[1..] == [] && [p] == all[1..];
        assert pieces[0] + "\n" + p == (pieces[0] + "\n") + p;
      } else {
        assert pieces[0] + "\n" + (Lines(pieces[1..]) + "\n" + p) == (pieces[0] + "\n" + Lines(pieces[1..])) + "\n" + p;
      }
    }
  }

  lemma {:induction false} OthersAre(fold: string -> string, entries: seq<Entry>, setting: string)
    ensures forall i | 0 <= i < |Others(fold, entries, setting)| :: !Same(fold, Others(fold, entries, setting)[i].name, setting)
  {
    hide Same;
    if entries != [] {
      OthersAre(fold, entries[..|entries| - 1], setting);
    }
  }

  /** Leaving out the entries of one setting does not change another. */
  lemma {:induction false} OthersValue(fold: string -> string, entries: seq<Entry>, setting: string, other: string)
    requires !Same(fold, setting, other)
    ensures ValueOf(fold, Others(fold, entries, setting), other) == ValueOf(fold, entries, other)
  {
    if entries != [] {
      var rest := entries[..|entries| - 1];
      OthersValue(fold, rest, setting, other);
      var o := Others(fold, rest, setting);
      assert (o + [entries[|entries| - 1]])[..|o|] == o && o + [] == o;
      hide Joined;
    }
  }

  /** After setting newline-joined pieces, the setting reads as that text and every other setting of
      the section as before. */
  lemma SetThenGet(fold: string -> string, entries: seq<Entry>, setting: string, pieces: seq<string>, other: string)
    requires pieces != [] && AllOk(pieces)
    ensures var now := Replaced(fold, entries, setting, Lines(pieces));
      && ValueOf(fold, now, setting) == Lines(pieces)
      && (!Same(fold, setting, other) ==> ValueOf(fold, now, other) == ValueOf(fold, entries, other))
  {
    hide Pieces, Others, Place, ValueOf, Lines, Same;
    PiecesOfLines(pieces);
    var o, k := Others(fold, entries, setting), Place(fold, entries, setting);
    var inserted := Named(setting, pieces);
    OthersAre(fold, entries, setting);
    forall i | 0 <= i < |pieces|
      ensures pieces[i] != ""
    {
      assert PieceOk(pieces[i]);
    }
    NamedValue(fold, setting, pieces);
    ValueOfAppend(fold, o[..k], inserted, setting);
    ValueOfAppend(fold, o[..k] + inserted, o[k..], setting);
    SetKeepsOthers(fold, entries, setting, Lines(pieces), other);
  }

  lemma {:induction false} InsertedValue(fold: string -> string, a: seq<Entry>, inserted: seq<Entry>, b: seq<Entry>, setting: string, other: string)
    requires !Same(fold, setting, other) && forall i | 0 <= i < |inserted| :: inserted[i].name == setting
    ensures ValueOf(fold, a + inserted + b, other) == ValueOf(fold, a + b, other)
  {
    if b == [] {
      assert a + inserted + b == a + inserted && a + b == a;
      ValueOfAppend(fold, a, inserted, other);
    } else {
      var rest := b[..|b| - 1];
      InsertedValue(fold, a, inserted, rest, setting, other);
      assert (a + inserted + b)[..|a + inserted + b| - 1] == a + inserted + rest;
      assert (a + b)[..|a + b| - 1] == a + rest;
      hide Joined, Same;
    }
  }
}
