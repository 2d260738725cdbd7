/** Merged rules decide like the plain ones: one rule, a whole configuration, and where not. */
module FirewallMerging {
  import opened Common
  import opened FirewallRanges
  import opened FirewallRules
  import opened FirewallDecisions

  // ---- one rule

  /** Merging the maps of the two rules would lose nothing. */
  predicate Keeps(rule: Rule, newRule: Rule) {
    !Loses(rule.ports, newRule.ports) && !Loses(rule.ips, newRule.ips)
  }

  /** What a merge can be: of the ports, of the addresses, or of nothing. */
  lemma MergeKinds(rule: Rule, newRule: Rule)
    requires TryMerge(rule, newRule).Some?
    ensures rule.level == newRule.level && rule.block == newRule.block && rule.protocol == newRule.protocol
    ensures var m := TryMerge(rule, newRule).value;
      || (m == rule.(ports := AllInserted(rule.ports, newRule.ports)) && rule.ips == newRule.ips && rule.ports != [] && newRule.ports != [] && !Refuses(rule.ports, newRule.ports))
      || (m == rule.(ips := AllInserted(rule.ips, newRule.ips)) && rule.ports == newRule.ports && rule.ips != [] && newRule.ips != [] && !Refuses(rule.ips, newRule.ips))
      || (m == rule == newRule)
  {
    hide AllInserted, Refuses;
  }

  /** The merged rule matches like the better of the two it was made of. */
  lemma MergedMatches(rule: Rule, newRule: Rule, p: Packet)
    requires RuleOk(rule) && RuleOk(newRule) && Keeps(rule, newRule) && TryMerge(rule, newRule).Some?
    ensures var m, x, y := MatchRule(TryMerge(rule, newRule).value, p), MatchRule(rule, p), MatchRule(newRule, p); IsBetterOf(m, x, y)
    ensures RuleOk(TryMerge(rule, newRule).value) && TryMerge(rule, newRule).value.protocol == rule.protocol == newRule.protocol
  {
    MergeKinds(rule, newRule);
    var m := TryMerge(rule, newRule).value;
    hide TryMerge, MapOk, AllInserted, Overlaps, Loses, IsBetterOf, MatchRule;
    if m == rule == newRule {
      Itself(MatchRule(rule, p));
    } else if m == rule.(ports := AllInserted(rule.ports, newRule.ports)) && rule.ips == newRule.ips {
      AllInsertedIs(rule.ports, newRule.ports);
      MergeKeepsLookup(rule.ports, newRule.ports, p.port);
      PortsMerged(rule, newRule, m, p);
    } else {
      AllInsertedIs(rule.ips, newRule.ips);
      MergeKeepsLookup(rule.ips, newRule.ips, p.ip);
      IpsMerged(rule, newRule, m, p);
    }
  }

  predicate IsBetterOf(m: Option<RuleMatch>, x: Option<RuleMatch>, y: Option<RuleMatch>) {
    (m == x || m == y) && forall block :: RankOf(m, block) == Max(RankOf(x, block), RankOf(y, block))
  }

  lemma Itself(m: Option<RuleMatch>)
    ensures IsBetterOf(m, m, m)
  {
  }

  lemma PortsMerged(rule: Rule, newRule: Rule, merged: Rule, p: Packet)
    requires rule.ports != [] && newRule.ports != [] && merged == newRule.(ports := merged.ports) == rule.(ports := merged.ports)
    requires Match(merged.ports, p.port) == Max(Match(rule.ports, p.port), Match(newRule.ports, p.port))
    ensures IsBetterOf(MatchRule(merged, p), MatchRule(rule, p), MatchRule(newRule, p))
  {
    MatchOfRanges(rule.ports, p.port);
    MatchOfRanges(newRule.ports, p.port);
    hide Match, MatchProtocol;
  }

  lemma IpsMerged(rule: Rule, newRule: Rule, merged: Rule, p: Packet)
    requires rule.ips != [] && newRule.ips != [] && merged == newRule.(ips := merged.ips) == rule.(ips := merged.ips)
    requires Match(merged.ips, p.ip) == Max(Match(rule.ips, p.ip), Match(newRule.ips, p.ip))
    ensures IsBetterOf(MatchRule(merged, p), MatchRule(rule, p), MatchRule(newRule, p))
  {
    MatchOfRanges(rule.ips, p.ip);
    MatchOfRanges(newRule.ips, p.ip);
    hide Match, MatchProtocol;
  }

  lemma MatchOfRanges(m: seq<Range>, p: nat)
    requires m != []
    ensures Match(m, p) == MATCH_NONE || Match(m, p) == MATCH_RANGE || Match(m, p) == MATCH_EXACT
  {
    hide FindLessEqual;
  }

  /** Whatever takes the new rule in keeps its ranges. */
  predicate KeepsAll(list: seq<Rule>, newRule: Rule) {
    forall r | r in list && TryMerge(r, newRule).Some? :: Keeps(r, newRule)
  }

  /** The highest ranks of a list with a rule added, wherever it went. */
  lemma {:induction false} AddedHighest(list: seq<Rule>, newRule: Rule, p: Packet, block: bool)
    requires RulesOk(list) && RuleOk(newRule) && KeepsAll(list, newRule)
    ensures Highest(Added(list, newRule), p, block) == Max(Highest(list, p, block), RankOf(MatchRule(newRule, p), block))
  {
    hide RuleOk, Keeps, TryMerge, MatchRule, RankOf;
    if list == [] {
      HighestSplit([], [newRule], p, block);
      HighestOne(newRule, p, block);
    } else {
      var r, rest := list[0], list[1..];
      assert list == [r] + rest;
      HighestSplit([r], rest, p, block);
      HighestOne(r, p, block);
      if TryMerge(r, newRule).Some? {
        var m := TryMerge(r, newRule).value;
        MergedMatches(r, newRule, p);
        HighestSplit([m], rest, p, block);
        HighestOne(m, p, block);
      } else {
        AddedHighest(rest, newRule, p, block);
        HighestSplit([r], Added(rest, newRule), p, block);
      }
    }
  }

  lemma HighestOne(r: Rule, p: Packet, block: bool)
    ensures Highest([r], p, block) == RankOf(MatchRule(r, p), block)
  {
    hide MatchRule;
    assert [r][..0] == [];
  }

  lemma {:induction false} HighestSplit(list: seq<Rule>, more: seq<Rule>, p: Packet, block: bool)
    ensures Highest(list + more, p, block) == Max(Highest(list, p, block), Highest(more, p, block))
  {
    hide MatchRule, RankOf;
    if more == [] {
      assert list + more == list;
    } else {
      var rest := more[..|more| - 1];
      HighestSplit(list, rest, p, block);
      assert (list + more)[..|list + more| - 1] == list + rest;
    }
  }

  /** What a rule of the new list is: one of the old list, the new one, or a merge of the two. */
  lemma {:induction false} AddedHas(list: seq<Rule>, newRule: Rule, r: Rule)
    requires r in Added(list, newRule)
    ensures r in list || r == newRule || exists q | q in list :: TryMerge(q, newRule) == Some(r)
  {
    hide TryMerge;
    if list != [] {
      assert list == [list[0]] + list[1..];
      if TryMerge(list[0], newRule).None? && r != list[0] {
        AddedHas(list[1..], newRule, r);
      }
    }
  }

  lemma AddedOk(list: seq<Rule>, newRule: Rule)
    requires RulesOk(list) && RuleOk(newRule) && KeepsAll(list, newRule)
    ensures RulesOk(Added(list, newRule)) && RulesOk(list + [newRule])
  {
    hide TryMerge, Keeps, RuleOk, Added;
    forall r | r in Added(list, newRule)
      ensures RuleOk(r)
    {
      AddedHas(list, newRule, r);
      if r !in list && r != newRule {
        var q :| q in list && TryMerge(q, newRule) == Some(r);
        MergedMatches(q, newRule, Packet(0, 0, 0));
      }
    }
  }

  /** A packet that is not contested is decided alike by the merged list and by the plain list with the rule at
      its end. */
  lemma AddKeepsDecision(list: seq<Rule>, newRule: Rule, p: Packet)
    requires RulesOk(list) && RuleOk(newRule) && KeepsAll(list, newRule) && !Contested(list + [newRule], p)
    ensures Decision(Added(list, newRule), p) == Decision(list + [newRule], p)
  {
    hide MatchRule, RuleOk, Keeps, KeepsAll, Added, RankOf, Decision;
    AddedOk(list, newRule);
    forall block
      ensures Highest(Added(list, newRule), p, block) == Highest(list + [newRule], p, block)
    {
      AddedHighest(list, newRule, p, block);
      HighestSplit(list, [newRule], p, block);
      HighestOne(newRule, p, block);
    }
    assert !Contested(Added(list, newRule), p);
    HighestDecides(Added(list, newRule), p);
    HighestDecides(list + [newRule], p);
  }

  // ---- a whole configuration

  /** The list after adding rules one after the other. */
  function Built(news: seq<Rule>): seq<Rule> {
    if news == [] then [] else Added(Built(news[..|news| - 1]), news[|news| - 1])
  }

  /** No rule on the way loses a range to the rule that takes it in. */
  predicate NeverLoses(news: seq<Rule>) {
    news == [] ||
    (NeverLoses(news[..|news| - 1]) && KeepsAll(Built(news[..|news| - 1]), news[|news| - 1]))
  }

  lemma {:induction false} BuiltHighest(news: seq<Rule>, p: Packet, block: bool)
    requires RulesOk(news) && NeverLoses(news)
    ensures RulesOk(Built(news)) && Highest(Built(news), p, block) == Highest(news, p, block)
  {
    hide RuleOk, KeepsAll, Added, MatchRule, RankOf;
    if news != [] {
      var newRule, rest := news[|news| - 1], news[..|news| - 1];
      BuiltHighest(rest, p, block);
      AddedOk(Built(rest), newRule);
      AddedHighest(Built(rest), newRule, p, block);
    }
  }

  /** A packet that is not contested is decided by a whole configuration as by its rules unmerged and in any
      order: by the highest rank. */
  lemma BuiltDecides(news: seq<Rule>, other: seq<Rule>, p: Packet)
    requires RulesOk(news) && NeverLoses(news) && SameRules(news, other) && !Contested(news, p)
    ensures Decision(Built(news), p) == Decision(news, p) == Decision(other, p)
    ensures Decision(Built(news), p) <==> Highest(news, p, true) > 0 && Highest(news, p, true) >= Highest(news, p, false)
  {
    hide RuleOk, MatchRule, RankOf, Added, KeepsAll, NeverLoses, Decision, Highest, Built;
    BuiltHighest(news, p, true);
    BuiltHighest(news, p, false);
    HighestDecides(Built(news), p);
    HighestDecides(news, p);
    OrderShowsExactly(news, p);
  }

  /** Rules of one protocol are never contested. */
  lemma OneProtocolDecides(news: seq<Rule>, other: seq<Rule>, protocol: int, p: Packet)
    requires RulesOk(news) && NeverLoses(news) && SameRules(news, other) && forall r | r in news :: r.protocol == protocol
    ensures Decision(Built(news), p) == Decision(news, p) == Decision(other, p) == Blocked(news, p)
  {
    hide RuleOk, NeverLoses, Decision, Built, Blocked;
    OneProtocol(news, protocol, p);
    NoConflictIsEnough(news, p);
    BuiltDecides(news, other, p);
    DecisionIs(news, p);
  }

  // ---- which configurations lose nothing

  predicate RuleDisjoint(r: Rule) {
    RuleOk(r) && Disjoint(r.ports) && Disjoint(r.ips)
  }

  predicate RulesApart(a: Rule, b: Rule) {
    ApartOrInside(a.ports, b.ports) && ApartOrInside(a.ips, b.ips)
  }

  /** Only rules that have all this in common can be merged. */
  predicate SameKind(a: Rule, b: Rule) {
    && a.level == b.level && a.block == b.block && a.protocol == b.protocol
    && (a.ports == [] <==> b.ports == []) && (a.ips == [] <==> b.ips == [])
  }

  /** The ranges of each rule are disjoint, and those of a later rule are apart from, or inside,
      those of an earlier one of its kind. */
  predicate Configured(news: seq<Rule>) {
    && (forall i | 0 <= i < |news| :: RuleDisjoint(news[i]))
    && (forall i, j | 0 <= i < j < |news| && SameKind(news[i], news[j]) :: RulesApart(news[i], news[j]))
  }

  predicate AllPortsIn(m: seq<Range>, kind: Rule, news: seq<Rule>) {
    forall r | r in m :: exists i | 0 <= i < |news| :: SameKind(news[i], kind) && r in news[i].ports
  }

  predicate AllIpsIn(m: seq<Range>, kind: Rule, news: seq<Rule>) {
    forall r | r in m :: exists i | 0 <= i < |news| :: SameKind(news[i], kind) && r in news[i].ips
  }

  /** Every rule of the merged list has disjoint ranges that come from the rules of its kind. */
  predicate Composed(r: Rule, news: seq<Rule>) {
    RuleDisjoint(r) && AllPortsIn(r.ports, r, news) && AllIpsIn(r.ips, r, news)
  }

  lemma MergeSameKind(q: Rule, newRule: Rule)
    requires TryMerge(q, newRule).Some?
    ensures SameKind(q, newRule)
  {
    hide MergedPorts, MergedIps;
  }

  lemma StillApart(r: Rule, news: seq<Rule>, newRule: Rule)
    requires Composed(r, news) && SameKind(r, newRule)
    requires forall i | 0 <= i < |news| && SameKind(news[i], newRule) :: RulesApart(news[i], newRule)
    ensures RulesApart(r, newRule)
  {
    hide RuleDisjoint;
    forall s, d | s in newRule.ports && d in r.ports
      ensures s.hi < d.lo || d.hi < s.lo || (d.lo <= s.lo && s.hi <= d.hi)
    {
      var i :| 0 <= i < |news| && SameKind(news[i], r) && d in news[i].ports;
      assert RulesApart(news[i], newRule);
    }
    forall s, d | s in newRule.ips && d in r.ips
      ensures s.hi < d.lo || d.hi < s.lo || (d.lo <= s.lo && s.hi <= d.hi)
    {
      var i :| 0 <= i < |news| && SameKind(news[i], r) && d in news[i].ips;
      assert RulesApart(news[i], newRule);
    }
  }

  lemma ApartKeeps(r: Rule, newRule: Rule)
    requires RuleDisjoint(r) && RuleDisjoint(newRule) && RulesApart(r, newRule)
    ensures Keeps(r, newRule)
  {
    ApartOrInsideMerges(r.ports, newRule.ports);
    ApartOrInsideMerges(r.ips, newRule.ips);
  }

  lemma MoreRules(r: Rule, kind: Rule, news: seq<Rule>, newRule: Rule)
    requires AllPortsIn(r.ports, kind, news) && AllIpsIn(r.ips, kind, news)
    ensures AllPortsIn(r.ports, kind, news + [newRule]) && AllIpsIn(r.ips, kind, news + [newRule])
  {
    hide SameKind;
    var all := news + [newRule];
    forall x | x in r.ports
      ensures exists i | 0 <= i < |all| :: SameKind(all[i], kind) && x in all[i].ports
    {
      var i :| 0 <= i < |news| && SameKind(news[i], kind) && x in news[i].ports;
      assert all[i] == news[i];
    }
    forall x | x in r.ips
      ensures exists i | 0 <= i < |all| :: SameKind(all[i], kind) && x in all[i].ips
    {
      var i :| 0 <= i < |news| && SameKind(news[i], kind) && x in news[i].ips;
      assert all[i] == news[i];
    }
  }

  lemma NewRules(news: seq<Rule>, newRule: Rule, kind: Rule)
    requires SameKind(newRule, kind)
    ensures AllPortsIn(newRule.ports, kind, news + [newRule]) && AllIpsIn(newRule.ips, kind, news + [newRule])
  {
    hide SameKind;
    assert (news + [newRule])[|news|] == newRule;
  }

  lemma MergeComposed(q: Rule, news: seq<Rule>, newRule: Rule)
    requires Composed(q, news) && RuleDisjoint(newRule) && RulesApart(q, newRule) && TryMerge(q, newRule).Some?
    ensures Composed(TryMerge(q, newRule).value, news + [newRule])
  {
    hide AllInserted, MapOk, Disjoint, Overlaps, Loses, ApartOrInside, RuleDisjoint, TryMerge, Refuses, RulesApart, AllPortsIn, AllIpsIn, SameKind;
    MergeKinds(q, newRule);
    MergeSameKind(q, newRule);
    MergedRanges(q, newRule);
    var m := TryMerge(q, newRule).value;
    SameKinds(q, newRule, m);
    KindOf(q, m, news);
    MoreRules(q, m, news, newRule);
    NewRules(news, newRule, m);
    InEither(m, q, newRule, news + [newRule]);
  }

  lemma SameKinds(q: Rule, newRule: Rule, m: Rule)
    requires SameKind(q, newRule)
    requires m == q || (q.ports != [] && m.ports != [] && m == q.(ports := m.ports)) || (q.ips != [] && m.ips != [] && m == q.(ips := m.ips))
    ensures SameKind(q, m) && SameKind(newRule, m)
  {
  }

  /** The kind is all that counts. */
  lemma KindOf(q: Rule, m: Rule, news: seq<Rule>)
    requires SameKind(q, m) && AllPortsIn(q.ports, q, news) && AllIpsIn(q.ips, q, news)
    ensures AllPortsIn(q.ports, m, news) && AllIpsIn(q.ips, m, news)
  {
    assert forall r :: SameKind(r, q) ==> SameKind(r, m);
    hide SameKind;
    forall x | x in q.ports
      ensures exists i | 0 <= i < |news| :: SameKind(news[i], m) && x in news[i].ports
    {
      var i :| 0 <= i < |news| && SameKind(news[i], q) && x in news[i].ports;
    }
    forall x | x in q.ips
      ensures exists i | 0 <= i < |news| :: SameKind(news[i], m) && x in news[i].ips
    {
      var i :| 0 <= i < |news| && SameKind(news[i], q) && x in news[i].ips;
    }
  }

  lemma InEither(m: Rule, q: Rule, newRule: Rule, news: seq<Rule>)
    requires AllPortsIn(q.ports, m, news) && AllIpsIn(q.ips, m, news) && AllPortsIn(newRule.ports, m, news) && AllIpsIn(newRule.ips, m, news)
    requires forall x | x in m.ports :: x in q.ports || x in newRule.ports
    requires forall x | x in m.ips :: x in q.ips || x in newRule.ips
    ensures AllPortsIn(m.ports, m, news) && AllIpsIn(m.ips, m, news)
  {
    hide SameKind;
  }

  lemma MergedRanges(q: Rule, newRule: Rule)
    requires RuleDisjoint(q) && RuleDisjoint(newRule) && RulesApart(q, newRule)
    ensures !Refuses(q.ports, newRule.ports) ==> RuleDisjoint(q.(ports := AllInserted(q.ports, newRule.ports)))
    ensures !Refuses(q.ips, newRule.ips) ==> RuleDisjoint(q.(ips := AllInserted(q.ips, newRule.ips)))
    ensures forall x :: x in AllInserted(q.ports, newRule.ports) ==> x in q.ports || x in newRule.ports
    ensures forall x :: x in AllInserted(q.ips, newRule.ips) ==> x in q.ips || x in newRule.ips
    ensures q.ports != [] ==> AllInserted(q.ports, newRule.ports) != []
    ensures q.ips != [] ==> AllInserted(q.ips, newRule.ips) != []
  {
    hide AllInserted, MapOk, Disjoint, Overlaps, Loses, ApartOrInside;
    ApartOrInsideMerges(q.ports, newRule.ports);
    ApartOrInsideMerges(q.ips, newRule.ips);
    AllInsertedIs(q.ports, newRule.ports);
    AllInsertedIs(q.ips, newRule.ips);
    if q.ports != [] {
      assert q.ports[0] in AllInserted(q.ports, newRule.ports);
    }
    if q.ips != [] {
      assert q.ips[0] in AllInserted(q.ips, newRule.ips);
    }
  }

  /** Nothing is lost by a configuration whose rules of a kind are apart or inside one another. */
  lemma {:induction false} ConfiguredKeeps(news: seq<Rule>)
    requires Configured(news)
    ensures RulesOk(news) && NeverLoses(news)
    ensures forall r | r in Built(news) :: Composed(r, news)
  {
    hide RuleDisjoint, RulesApart, Composed, TryMerge, Added, Keeps, SameKind, RuleOk;
    if news != [] {
      var newRule, rest := news[|news| - 1], news[..|news| - 1];
      assert news == rest + [newRule];
      ConfiguredKeeps(rest);
      DisjointIs(newRule);
      forall r | r in Built(rest) && TryMerge(r, newRule).Some?
        ensures RulesApart(r, newRule) && Keeps(r, newRule)
      {
        MergeSameKind(r, newRule);
        StillApart(r, rest, newRule);
        ComposedIs(r, rest);
        ApartKeeps(r, newRule);
      }
      forall r | r in Built(news)
        ensures Composed(r, news)
      {
        AddedHas(Built(rest), newRule, r);
        if r in Built(rest) {
          MoreComposed(r, rest, newRule);
        } else if r == newRule {
          NewComposed(rest, newRule);
        } else {
          var q :| q in Built(rest) && TryMerge(q, newRule) == Some(r);
          MergeComposed(q, rest, newRule);
        }
      }
    }
  }

  lemma MoreComposed(r: Rule, news: seq<Rule>, newRule: Rule)
    requires Composed(r, news)
    ensures Composed(r, news + [newRule])
  {
    hide RuleDisjoint, AllPortsIn, AllIpsIn, SameKind;
    MoreRules(r, r, news, newRule);
  }

  lemma NewComposed(news: seq<Rule>, newRule: Rule)
    requires RuleDisjoint(newRule)
    ensures Composed(newRule, news + [newRule])
  {
    hide RuleDisjoint, AllPortsIn, AllIpsIn;
    NewRules(news, newRule, newRule);
  }

  lemma ComposedIs(r: Rule, news: seq<Rule>)
    requires Composed(r, news)
    ensures RuleDisjoint(r)
  {
  }

  lemma DisjointIs(r: Rule)
    requires RuleDisjoint(r)
    ensures RuleOk(r)
  {
  }

  // ---- when the merge of two rules shows

  /** A rule that blocks all traffic of the programs of one level. */
  function Blanket(rule: Rule): Rule {
    Rule(rule.level, true, [], [], IPPROTO_ANY)
  }

  /** The rules a merged rule is looked at with: what is not blocked is allowed, so that an allowing rule
      only shows in front of a blocking one. */
  function Front(rule: Rule): seq<Rule> {
    if rule.block then [] else [Blanket(rule)]
  }

  predicate RangesDisjoint(r: Rule) {
    Disjoint(r.ports) && Disjoint(r.ips)
  }

  lemma {:induction false} FrontAdded(rule: Rule, newRule: Rule)
    requires TryMerge(rule, newRule).Some?
    ensures Added(Front(rule) + [rule], newRule) == Front(rule) + [TryMerge(rule, newRule).value]
  {
    MergeKinds(rule, newRule);
    var merged := TryMerge(rule, newRule).value;
    var one := [rule];
    assert one[1..] == [] && [merged] + [] == [merged];
    assert Added(one, newRule) == [merged];
    if !rule.block {
      var two := [Blanket(rule)] + one;
      assert two[1..] == one && two[0] == Blanket(rule) && TryMerge(two[0], newRule).None?;
    }
    hide TryMerge;
  }

  lemma SomethingMatches(m: seq<Range>) returns (p: nat)
    requires MapOk(m)
    ensures Match(m, p) != MATCH_NONE
  {
    p := 0;
    if m != [] {
      p := m[|m| - 1].lo;
    }
  }

  /** Disjoint ranges do not swallow one another. */
  lemma SelfKeeps(m: seq<Range>)
    requires MapOk(m) && Disjoint(m)
    ensures !Loses(m, m)
  {
    forall s, d | s in m && d in m
      ensures !Swallowed(m, s, d)
    {
      var i :| 0 <= i < |m| && m[i] == s;
      var j :| 0 <= j < |m| && m[j] == d;
      assert i < j ==> m[i].hi < m[j].lo;
      assert j < i ==> m[j].lo < m[i].lo;
    }
  }

  /** A match on ranges is more specific than the one of the blanket rule. */
  lemma BlanketBelow(r: Rule, p: Packet)
    requires r.ports != [] || r.ips != []
    ensures MatchRule(Blanket(r), p).Some? && MatchRule(Blanket(r), p).value.block
    ensures MatchRule(r, p).Some? ==> Specificity(MatchRule(r, p).value) > Specificity(MatchRule(Blanket(r), p).value)
  {
    if r.ports != [] {
      MatchOfRanges(r.ports, p.port);
    }
    if r.ips != [] {
      MatchOfRanges(r.ips, p.ip);
    }
    MatchAny(p);
    hide Match;
  }

  lemma MatchAny(p: Packet)
    ensures Match([], p.port) == Match([], p.ip) == MATCH_GLOBAL
  {
  }

  /** A packet that the new rule matches and neither the old nor the merged one. */
  predicate Lost(rule: Rule, newRule: Rule, merged: Rule, p: Packet) {
    MatchRule(rule, p).None? && MatchRule(merged, p).None? && MatchRule(newRule, p).Some?
  }

  lemma LostPacket(rule: Rule, newRule: Rule) returns (p: Packet)
    requires RuleOk(rule) && RuleOk(newRule) && RangesDisjoint(rule) && RangesDisjoint(newRule)
    requires TryMerge(rule, newRule).Some? && !Keeps(rule, newRule)
    ensures Lost(rule, newRule, TryMerge(rule, newRule).value, p)
  {
    hide TryMerge, Loses, MapOk, Disjoint, AllInserted, Match, MatchRule, Lost;
    MergeKinds(rule, newRule);
    SelfKeeps(rule.ports);
    SelfKeeps(rule.ips);
    if Loses(rule.ports, newRule.ports) {
      var port := LossShows(rule.ports, newRule.ports);
      var ip := SomethingMatches(newRule.ips);
      p := Packet(port, ip, newRule.protocol);
      IsLost(rule, newRule, TryMerge(rule, newRule).value, p);
    } else {
      var ip := LossShows(rule.ips, newRule.ips);
      var port := SomethingMatches(newRule.ports);
      p := Packet(port, ip, newRule.protocol);
      IsLost(rule, newRule, TryMerge(rule, newRule).value, p);
    }
  }

  lemma IsLost(rule: Rule, newRule: Rule, merged: Rule, p: Packet)
    requires p.protocol == newRule.protocol && Match(newRule.ports, p.port) != MATCH_NONE && Match(newRule.ips, p.ip) != MATCH_NONE
    requires (Match(rule.ports, p.port) == Match(merged.ports, p.port) == MATCH_NONE) || (Match(rule.ips, p.ip) == Match(merged.ips, p.ip) == MATCH_NONE)
    ensures Lost(rule, newRule, merged, p)
  {
    hide Match;
  }

  /** Where merging loses something a decision shows it. */
  lemma LostShows(rule: Rule, newRule: Rule, merged: Rule, p: Packet)
    requires Lost(rule, newRule, merged, p) && RuleOk(newRule)
    requires rule.level == newRule.level && rule.block == newRule.block && (newRule.ports != [] || newRule.ips != [])
    ensures Decision(Front(rule) + [merged], p) != Decision(Front(rule) + [rule] + [newRule], p)
  {
    var f := Front(rule);
    AtEnd(f, merged, p);
    AtEnd(f, rule, p);
    AtEnd(f + [rule], newRule, p);
    BlanketBelow(newRule, p);
    MatchLevels(newRule, p);
    assert Blanket(rule) == Blanket(newRule);
    if !rule.block {
      OneBest(Blanket(rule), p);
      MatchLevels(Blanket(rule), p);
      BetterIs(MatchRule(newRule, p).value, MatchRule(Blanket(rule), p).value);
    }
    hide IsBetter, MatchRule, RuleOk, Specificity;
  }

  lemma NothingContested(rule: Rule, newRule: Rule, p: Packet)
    requires rule.level == newRule.level && rule.block == newRule.block && rule.protocol == newRule.protocol
    requires (rule.ports != [] || rule.ips != []) && (newRule.ports != [] || newRule.ips != [])
    ensures NoConflict(Front(rule) + [rule] + [newRule], p)
  {
    var list := Front(rule) + [rule] + [newRule];
    BlanketBelow(rule, p);
    BlanketBelow(newRule, p);
    assert Blanket(rule) == Blanket(newRule);
    forall a, b | a in list && b in list && MatchRule(a, p).Some? && MatchRule(b, p).Some?
      ensures !Conflict(MatchRule(a, p).value, MatchRule(b, p).value)
    {
      assert a in [Blanket(rule), rule, newRule] && b in [Blanket(rule), rule, newRule];
      ByRule(a, p);
      ByRule(b, p);
      hide MatchRule, Specificity;
    }
  }

  lemma ByRule(r: Rule, p: Packet)
    ensures var m := MatchRule(r, p); m.Some? ==> m.value.block == r.block && m.value.byProtocol == MatchProtocol(r.protocol, p.protocol)
  {
    hide Match;
  }

  /** Two rules that merge decide alike merged and unmerged, packet by packet, if and only if merging their
      maps loses nothing. */
  lemma MergeShowsExactly(rule: Rule, newRule: Rule)
    requires RuleOk(rule) && RuleOk(newRule) && RangesDisjoint(rule) && RangesDisjoint(newRule)
    requires TryMerge(rule, newRule).Some? && (rule.ports != [] || rule.ips != [])
    ensures (forall p: Packet :: Decision(Added(Front(rule) + [rule], newRule), p) == Decision(Front(rule) + [rule] + [newRule], p))
      <==> Keeps(rule, newRule)
  {
    var list, merged := Front(rule) + [rule], TryMerge(rule, newRule).value;
    MergeKinds(rule, newRule);
    FrontAdded(rule, newRule);
    SameShape(rule, newRule);
    hide TryMerge, Decision, Added, MatchRule, RangesDisjoint;
    if Keeps(rule, newRule) {
      forall p: Packet
        ensures Decision(Added(list, newRule), p) == Decision(list + [newRule], p)
      {
        NothingContested(rule, newRule, p);
        FrontOk(rule, newRule);
        NoConflictIsEnough(list + [newRule], p);
        AddKeepsDecision(list, newRule, p);
      }
    } else {
      var p := LostPacket(rule, newRule);
      LostShows(rule, newRule, merged, p);
    }
  }

  lemma SameShape(rule: Rule, newRule: Rule)
    requires TryMerge(rule, newRule).Some?
    ensures (rule.ports != []) == (newRule.ports != []) && (rule.ips != []) == (newRule.ips != [])
  {
    hide MergedPorts, MergedIps;
  }

  lemma FrontOk(rule: Rule, newRule: Rule)
    requires RuleOk(rule) && RuleOk(newRule) && Keeps(rule, newRule)
    ensures RulesOk(Front(rule) + [rule] + [newRule]) && RulesOk(Front(rule) + [rule]) && KeepsAll(Front(rule) + [rule], newRule)
  {
    assert Keeps(Blanket(rule), newRule);
    assert RuleOk(Blanket(rule));
    hide Keeps, RuleOk;
  }

  // ---- where merging changes a decision

  /** A port blocked by a rule of one port and then by a rule of a range around it: merged, the rest
      of the range behind the port is no longer blocked. */
  lemma LostRange(ip: nat)
    ensures var one, range := Rule(1, true, [Range(5, 5)], [], IPPROTO_ANY), Rule(1, true, [Range(1, 10)], [], IPPROTO_ANY);
      && Decision([one, range], Packet(7, ip, 6))
      && !Decision(Added([one], range), Packet(7, ip, 6))
  {
    var one, range := Rule(1, true, [Range(5, 5)], [], IPPROTO_ANY), Rule(1, true, [Range(1, 10)], [], IPPROTO_ANY);
    var p := Packet(7, ip, 6);
    SmallMaps();
    TwoBest(one, range, p);
    assert MatchRule(one, p) == None && MatchRule(range, p).Some?;
    var m := TryMerge(one, range);
    assert m == Some(one.(ports := [Range(1, 10), Range(5, 5)]));
    assert Added([one], range) == [m.value];
    assert MatchRule(m.value, p) == None;
    OneBest(m.value, p);
  }

  lemma SmallMaps()
    ensures AllInserted([Range(5, 5)], [Range(1, 10)]) == [Range(1, 10), Range(5, 5)]
    ensures !Refuses([Range(5, 5)], [Range(1, 10)])
    ensures FindLessEqual([Range(5, 5)], 7) == Some(Range(5, 5)) && FindLessEqual([Range(1, 10)], 7) == Some(Range(1, 10))
    ensures FindLessEqual([Range(1, 10), Range(5, 5)], 7) == Some(Range(5, 5))
  {
    assert [Range(1, 10)][..0] == [] && [Range(5, 5)][..0] == [];
    assert FindLessEqual([Range(5, 5)], 1) == None;
    assert AllInserted([Range(5, 5)], []) == [Range(5, 5)];
    assert Inserted([Range(5, 5)], Range(1, 10)) == Inserted([], Range(1, 10)) + [Range(5, 5)];
  }
}
