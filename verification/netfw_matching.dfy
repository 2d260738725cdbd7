/** What a rule matches, which of two rules wins and which rules are merged, said of their ranges and protocols
    alone. */
module FirewallMatching {
  import opened Common
  import opened FirewallRanges
  import opened FirewallRules

  predicate Covers(r: Range, p: nat) {
    r.lo <= p <= r.hi
  }

  /** No ranges stand for every number, and otherwise one of them has to contain it. */
  predicate Admits(m: seq<Range>, p: nat) {
    m == [] || exists r :: r in m && Covers(r, p)
  }

  predicate RangesOk(m: seq<Range>) {
    MapOk(m) && Disjoint(m)
  }

  predicate RuleIsOk(r: Rule) {
    RuleOk(r) && Disjoint(r.ports) && Disjoint(r.ips)
  }

  lemma ApartInMap(m: seq<Range>, r: Range, q: Range, p: nat)
    requires RangesOk(m) && r in m && q in m && Covers(r, p) && q.lo <= p
    ensures q == r || q.hi < r.lo
  {
    var i :| 0 <= i < |m| && m[i] == r;
    var j :| 0 <= j < |m| && m[j] == q;
    assert j < i ==> m[j].hi < m[i].lo;
  }

  /** A lookup in disjoint ranges: 0 where none contains the number, 1 without ranges, and else 4 for the range of just that
      number and 3 for any other. */
  lemma MatchIs(m: seq<Range>, p: nat)
    requires RangesOk(m)
    ensures Match(m, p) != 0 <==> Admits(m, p)
    ensures m == [] ==> Match(m, p) == 1
    ensures forall r :: r in m && Covers(r, p) ==> Match(m, p) == if r.lo == r.hi then 4 else 3
  {
    FindIs(m, p);
    hide FindLessEqual, MapOk, Disjoint;
    var f := FindLessEqual(m, p);
    forall r | r in m && Covers(r, p)
      ensures f == Some(r)
    {
      ApartInMap(m, r, f.value, p);
    }
    if f.Some? && Covers(f.value, p) {
      assert Admits(m, p);
    }
  }

  /** A rule matches a packet if and only if its ports, its addresses and its protocol, 256 being any, admit it. */
  lemma MatchesExactly(r: Rule, p: Packet)
    requires RuleIsOk(r)
    ensures MatchRule(r, p).Some? <==> Admits(r.ports, p.port) && Admits(r.ips, p.ip) && (r.protocol == 256 || r.protocol == p.protocol)
  {
    hide Match, Admits, MapOk, Disjoint;
    MatchIs(r.ports, p.port);
    MatchIs(r.ips, p.ip);
  }

  /** ... and then with these levels. */
  lemma MatchHas(r: Rule, p: Packet)
    requires RuleIsOk(r) && MatchRule(r, p).Some?
    ensures var m := MatchRule(r, p).value;
      && m.byProg == r.level && m.block == r.block
      && (r.ports == [] ==> m.byPort == 1) && (forall x :: x in r.ports && Covers(x, p.port) ==> m.byPort == if x.lo == x.hi then 4 else 3)
      && (r.ips == [] ==> m.byAddress == 1) && (forall x :: x in r.ips && Covers(x, p.ip) ==> m.byAddress == if x.lo == x.hi then 4 else 3)
      && (r.ports == [] || r.ips == [] ==> m.byEndPoint == 0)
      && (r.ports != [] && r.ips != [] ==> m.byEndPoint == if m.byPort > m.byAddress then m.byPort else m.byAddress)
      && m.byProtocol == (if r.protocol == 256 then 1 else 4)
    ensures Admits(r.ports, p.port) && Admits(r.ips, p.ip)
  {
    MatchesExactly(r, p);
    MatchIs(r.ports, p.port);
    MatchIs(r.ips, p.ip);
    hide Match, MapOk, Disjoint;
  }

  // ---- which of two rules wins

  /** The first rule decides, in either order. */
  predicate Wins(r: Rule, q: Rule, p: Packet) {
    Decision([r, q], p) == r.block && Decision([q, r], p) == r.block
  }

  lemma BetterWins(r: Rule, q: Rule, p: Packet)
    requires MatchRule(r, p).Some? && MatchRule(q, p).Some? && MatchRule(r, p).value.block == r.block
    requires IsBetter(MatchRule(r, p).value, MatchRule(q, p).value) && !IsBetter(MatchRule(q, p).value, MatchRule(r, p).value)
    ensures Wins(r, q, p)
  {
    hide MatchRule, IsBetter;
    TwoBest(r, q, p);
    TwoBest(q, r, p);
  }

  /** Both rules match the packet. */
  predicate BothMatch(r: Rule, q: Rule, p: Packet) {
    RuleIsOk(r) && RuleIsOk(q) && MatchRule(r, p).Some? && MatchRule(q, p).Some?
  }

  /** A rule for the program wins over one for more programs. */
  lemma ProgramWins(r: Rule, q: Rule, p: Packet)
    requires BothMatch(r, q, p) && r.level > q.level
    ensures Wins(r, q, p)
  {
    hide MatchRule, RuleIsOk, Wins;
    MatchHas(r, p);
    MatchHas(q, p);
    BetterWins(r, q, p);
  }

  /** With the same level, ports and addresses together win over only one of them or none. */
  lemma EndPointWins(r: Rule, q: Rule, p: Packet)
    requires BothMatch(r, q, p) && r.level == q.level && r.ports != [] && r.ips != [] && (q.ports == [] || q.ips == [])
    ensures Wins(r, q, p)
  {
    hide MatchRule, RuleIsOk, Wins;
    MatchHas(r, p);
    MatchHas(q, p);
    LevelAtLeast(r.ports, p.port);
    LevelAtLeast(r.ips, p.ip);
    BetterWins(r, q, p);
  }

  lemma LevelAtLeast(m: seq<Range>, p: nat)
    requires m != [] && Admits(m, p)
    ensures exists x :: x in m && Covers(x, p)
  {
  }

  /** Rules of ports only, or of addresses only: some ports win over none and one port over a range of them, and then
      the same goes for addresses. */
  lemma PortWins(r: Rule, q: Rule, p: Packet, x: Range)
    requires BothMatch(r, q, p) && r.level == q.level && r.ips == [] && x in r.ports && Covers(x, p.port)
    requires q.ports != [] ==> q.ips == [] && x.lo == x.hi && forall y :: y in q.ports && Covers(y, p.port) ==> y.lo < y.hi
    ensures Wins(r, q, p)
  {
    hide MatchRule, RuleIsOk, Wins;
    MatchHas(r, p);
    MatchHas(q, p);
    if q.ports != [] {
      LevelAtLeast(q.ports, p.port);
    }
    BetterWins(r, q, p);
  }

  lemma AddressWins(r: Rule, q: Rule, p: Packet, x: Range)
    requires BothMatch(r, q, p) && r.level == q.level && r.ports == [] == q.ports && x in r.ips && Covers(x, p.ip)
    requires q.ips != [] ==> x.lo == x.hi && forall y :: y in q.ips && Covers(y, p.ip) ==> y.lo < y.hi
    ensures Wins(r, q, p)
  {
    hide MatchRule, RuleIsOk, Wins;
    MatchHas(r, p);
    MatchHas(q, p);
    if q.ips != [] {
      LevelAtLeast(q.ips, p.ip);
    }
    BetterWins(r, q, p);
  }

  /** Of two rules with the same ranges, level and protocol the blocking one wins. */
  lemma BlockWins(r: Rule, q: Rule, p: Packet)
    requires BothMatch(r, q, p) && r == q.(block := true)
    ensures Wins(r, q, p)
  {
    if q.block {
      TwoBest(r, r, p);
      MatchHas(r, p);
      hide MatchRule;
    } else {
      assert MatchRule(r, p).value == MatchRule(q, p).value.(block := true) by { hide Match; }
      hide MatchRule, RuleIsOk, Wins;
      BetterWins(r, q, p);
    }
  }

  /** A rule that names the protocol is better than the same rule for any protocol, and not the other way round. */
  lemma ProtocolWins(r: Rule, q: Rule, p: Packet)
    requires BothMatch(r, q, p) && r.protocol != 256 && q == r.(protocol := 256)
    ensures IsBetter(MatchRule(r, p).value, MatchRule(q, p).value) && !IsBetter(MatchRule(q, p).value, MatchRule(r, p).value)
  {
    MatchHas(r, p);
    MatchHas(q, p);
    assert MatchRule(q, p).value == MatchRule(r, p).value.(byProtocol := MatchRule(q, p).value.byProtocol) by { hide Match; }
    hide MatchRule, RuleIsOk;
  }

  // ---- which rules are merged

  /** No range begins between `d` and `p`. */
  predicate BeginsLast(m: seq<Range>, d: Range, p: nat) {
    d.lo <= p && forall e | e in m && e.lo <= p :: e.lo <= d.lo
  }

  /** No range of `src` lies inside the range of `dst` that begins last at or before it. */
  ghost predicate Enters(dst: seq<Range>, src: seq<Range>) {
    forall s, d | s in src && d in dst && BeginsLast(dst, d, s.lo) :: d.hi < s.hi
  }

  lemma EntersIs(dst: seq<Range>, src: seq<Range>)
    requires MapOk(dst)
    ensures Enters(dst, src) <==> !Refuses(dst, src)
  {
    hide Overlaps, MapOk, BeginsLast;
    forall s | s in src
      ensures Overlaps(dst, s) <==> exists d :: d in dst && BeginsLast(dst, d, s.lo) && d.hi >= s.hi
    {
      OverlapsIs(dst, s);
    }
  }

  lemma OverlapsIs(dst: seq<Range>, s: Range)
    requires MapOk(dst)
    ensures Overlaps(dst, s) <==> exists d :: d in dst && BeginsLast(dst, d, s.lo) && d.hi >= s.hi
  {
    FindIs(dst, s.lo);
    hide FindLessEqual, MapOk;
    var f := FindLessEqual(dst, s.lo);
    if d :| d in dst && BeginsLast(dst, d, s.lo) && d.hi >= s.hi {
      LastBegin(dst, d, f.value);
    }
  }

  lemma LastBegin(m: seq<Range>, r: Range, q: Range)
    requires MapOk(m) && r in m && q in m && r.lo <= q.lo && q.lo <= r.lo
    ensures r == q
  {
    SameBegin(m, r, q);
  }

  /** What a merge of ranges has: those of `dst`, and those of `src` that begin where none of `dst` does. */
  ghost predicate Union(m: seq<Range>, dst: seq<Range>, src: seq<Range>) {
    MapOk(m) && forall x :: x in m <==> x in dst || (x in src && forall d | d in dst :: d.lo != x.lo)
  }

  /** A new rule goes into another if and only if level, action, protocol and shape are the same and the ranges enter: those of
      ports where the addresses are the same and the ports are not, and the other way round; rules with both the same
      go together as well, and so do rules without any. */
  lemma MergesExactly(a: Rule, b: Rule)
    requires RuleOk(a) && RuleOk(b)
    ensures TryMerge(a, b).Some? <==>
      && a.level == b.level && a.block == b.block && a.protocol == b.protocol && (a.ports == [] <==> b.ports == []) && (a.ips == [] <==> b.ips == [])
      && (|| (a.ports == b.ports && a.ips == b.ips && (a.ports == [] <==> a.ips == []))
          || (a.ports != [] && a.ips == b.ips && (a.ips == [] || a.ports != b.ports) && Enters(a.ports, b.ports))
          || (a.ips != [] && a.ports == b.ports && (a.ports == [] || a.ips != b.ips) && Enters(a.ips, b.ips)))
  {
    EntersIs(a.ports, b.ports);
    EntersIs(a.ips, b.ips);
    hide Enters, Refuses, AllInserted, RuleOk;
  }

  /** ... and the merged rule has the ranges of both. */
  lemma MergedHas(a: Rule, b: Rule)
    requires RuleOk(a) && RuleOk(b) && TryMerge(a, b).Some?
    ensures var m := TryMerge(a, b).value;
      && m == a.(ports := m.ports, ips := m.ips)
      && (a.ips != b.ips || a.ports == [] ==> m.ports == a.ports) && (a.ports != b.ports || a.ips == [] ==> m.ips == a.ips)
      && Union(m.ports, a.ports, b.ports) && Union(m.ips, a.ips, b.ips)
  {
    IsUnion(a.ports, b.ports);
    IsUnion(a.ips, b.ips);
    SelfUnion(a.ports);
    SelfUnion(a.ips);
    hide Refuses, AllInserted, MapOk, Union;
  }

  lemma IsUnion(dst: seq<Range>, src: seq<Range>)
    requires MapOk(dst) && MapOk(src)
    ensures Union(AllInserted(dst, src), dst, src)
  {
    AllInsertedIs(dst, src);
    hide AllInserted, MapOk;
  }

  lemma SelfUnion(m: seq<Range>)
    requires MapOk(m)
    ensures Union(m, m, m)
  {
    hide MapOk;
  }

  /** A rule joins a list at the first rule it goes into, and at the end where there is none. */
  lemma JoinsFirst(list: seq<Rule>, newRule: Rule)
    ensures (forall r | r in list :: TryMerge(r, newRule).None?) ==> Added(list, newRule) == list + [newRule]
    ensures forall i :: 0 <= i < |list| && TryMerge(list[i], newRule).Some? && (forall k | 0 <= k < i :: TryMerge(list[k], newRule).None?) ==>
      Added(list, newRule) == list[..i] + [TryMerge(list[i], newRule).value] + list[i + 1..]
  {
    hide TryMerge, Added;
    if forall r | r in list :: TryMerge(r, newRule).None? {
      AddedAt(list, newRule, |list|);
    }
    forall i | 0 <= i < |list| && TryMerge(list[i], newRule).Some? && forall k | 0 <= k < i :: TryMerge(list[k], newRule).None?
      ensures Added(list, newRule) == list[..i] + [TryMerge(list[i], newRule).value] + list[i + 1..]
    {
      AddedAt(list, newRule, i);
    }
  }
}
