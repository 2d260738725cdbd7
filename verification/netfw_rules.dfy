/** The rules of netfw.c: matching, the choice of the best rule, and merging a new rule into a
    list. */
module FirewallRules {
  import opened Common
  import opened FirewallRanges

  const IPPROTO_ANY: int := 256

  datatype Rule = Rule(level: nat, block: bool, ports: seq<Range>, ips: seq<Range>, protocol: int)

  datatype Packet = Packet(port: nat, ip: nat, protocol: int)

  datatype RuleMatch = RuleMatch(byProg: nat, byPort: nat, byAddress: nat, byEndPoint: nat, byProtocol: nat, block: bool)

  predicate RuleOk(r: Rule) {
    r.level <= MATCH_EXACT && MapOk(r.ports) && MapOk(r.ips)
  }

  predicate RulesOk(list: seq<Rule>) {
    forall r | r in list :: RuleOk(r)
  }

  function MatchProtocol(protocol: int, toTest: int): nat {
    if protocol == IPPROTO_ANY then MATCH_GLOBAL
    else if protocol == toTest then MATCH_EXACT
    else MATCH_NONE
  }

  /** `NetFw_MatchRule`; None where it returns FALSE. */
  function MatchRule(r: Rule, p: Packet): Option<RuleMatch> {
    var byPort, byAddress, byProtocol := Match(r.ports, p.port), Match(r.ips, p.ip), MatchProtocol(r.protocol, p.protocol);
    if byPort == MATCH_NONE || byAddress == MATCH_NONE || byProtocol == MATCH_NONE then None
    else Some(RuleMatch(r.level, byPort, byAddress, EndPoint(byPort, byAddress), byProtocol, r.block))
  }

  function EndPoint(byPort: nat, byAddress: nat): nat {
    if byAddress > MATCH_GLOBAL && byPort > MATCH_GLOBAL then Max(byAddress, byPort) else 0
  }

  /** `NetFw_IsBetterMatch`. */
  predicate IsBetter(my: RuleMatch, other: RuleMatch) {
    if my.byProg != other.byProg then my.byProg > other.byProg
    else if my.byEndPoint != other.byEndPoint then my.byEndPoint > other.byEndPoint
    else if my.byPort != other.byPort then my.byPort > other.byPort
    else if my.byAddress != other.byAddress then my.byAddress > other.byAddress
    else if my.block && !other.block then true
    else if my.byProtocol != other.byProtocol then my.byProtocol > other.byProtocol
    else false
  }

  /** The best match the walk over the list has at its end. */
  function Best(list: seq<Rule>, p: Packet): Option<RuleMatch> {
    if list == [] then None
    else
      var best, m := Best(list[..|list| - 1], p), MatchRule(list[|list| - 1], p);
      if m.Some? && (best.None? || IsBetter(m.value, best.value)) then m else best
  }

  predicate Decision(list: seq<Rule>, p: Packet) {
    var best := Best(list, p);
    best.Some? && best.value.block
  }

  method BlockTraffic(list: seq<Rule>, p: Packet) returns (blocked: bool)
    ensures blocked == Decision(list, p)
  {
    var found, bestRule, bestMatch := false, 0, RuleMatch(0, 0, 0, 0, 0, false);
    var i := 0;
    while i < |list|
      invariant 0 <= i <= |list|
      invariant Best(list[..i], p) == if found then Some(bestMatch) else None
      invariant found ==> 0 <= bestRule < i && list[bestRule].block == bestMatch.block
    {
      var m := MatchRule(list[i], p);
      if m.Some? {
        if !found || IsBetter(m.value, bestMatch) {
          found, bestRule, bestMatch := true, i, m.value;
        }
      }
      assert list[..i + 1][..i] == list[..i];
      i := i + 1;
    }
    assert list[..i] == list;
    blocked := found && list[bestRule].block;
  }

  // ---- what the walk decides

  /** How specific a match is before the action and the protocol come in. */
  function Specificity(m: RuleMatch): nat {
    512 * m.byProg + 64 * m.byEndPoint + 8 * m.byPort + m.byAddress
  }

  predicate LevelsOk(m: RuleMatch) {
    m.byProg < 8 && m.byEndPoint < 8 && m.byPort < 8 && m.byAddress < 8
  }

  lemma MatchLevels(r: Rule, p: Packet)
    requires RuleOk(r)
    ensures var m := MatchRule(r, p); m.Some? ==> LevelsOk(m.value) && m.value.block == r.block
  {
    hide FindLessEqual, MapOk;
  }

  lemma BetterIs(x: RuleMatch, y: RuleMatch)
    requires LevelsOk(x) && LevelsOk(y)
    ensures IsBetter(x, y) <==>
      (Specificity(x) > Specificity(y) || (Specificity(x) == Specificity(y) && ((x.block && !y.block) || x.byProtocol > y.byProtocol)))
    ensures Specificity(x) == Specificity(y) <==>
      x.byProg == y.byProg && x.byEndPoint == y.byEndPoint && x.byPort == y.byPort && x.byAddress == y.byAddress
  {
  }

  /** An allowing match that is as specific as a blocking one but names its protocol better: each
      of the two is better than the other. */
  predicate Conflict(x: RuleMatch, y: RuleMatch) {
    !x.block && y.block && Specificity(x) == Specificity(y) && x.byProtocol > y.byProtocol
  }

  predicate NoConflict(list: seq<Rule>, p: Packet) {
    forall a, b | a in list && b in list && MatchRule(a, p).Some? && MatchRule(b, p).Some? ::
      !Conflict(MatchRule(a, p).value, MatchRule(b, p).value)
  }

  /** One more than the greatest specificity among the matching rules with an action; zero when
      none matches. */
  function Top(list: seq<Rule>, p: Packet, block: bool): nat {
    if list == [] then 0
    else Max(Top(list[..|list| - 1], p, block), TopOf(MatchRule(list[|list| - 1], p), block))
  }

  function TopOf(m: Option<RuleMatch>, block: bool): nat {
    if m.Some? && m.value.block == block then Specificity(m.value) + 1 else 0
  }

  /** Traffic is blocked when the most specific blocking rule is as specific as any allowing one. */
  predicate Blocked(list: seq<Rule>, p: Packet) {
    Top(list, p, true) > 0 && Top(list, p, true) >= Top(list, p, false)
  }

  /** What the best match tells of the greatest specificities on either side. */
  predicate Tells(best: Option<RuleMatch>, topBlock: nat, topAllow: nat) {
    if best.None? then topBlock == 0 == topAllow
    else Specificity(best.value) + 1 == Max(topBlock, topAllow) && (best.value.block <==> topBlock >= topAllow)
  }

  lemma TellsNext(best: Option<RuleMatch>, m: Option<RuleMatch>, topBlock: nat, topAllow: nat)
    requires Tells(best, topBlock, topAllow) && (best.Some? ==> LevelsOk(best.value)) && (m.Some? ==> LevelsOk(m.value))
    requires best.Some? && m.Some? ==> !Conflict(best.value, m.value) && !Conflict(m.value, best.value)
    ensures var next := if m.Some? && (best.None? || IsBetter(m.value, best.value)) then m else best;
      Tells(next, Max(topBlock, TopOf(m, true)), Max(topAllow, TopOf(m, false)))
  {
    if best.Some? && m.Some? {
      BetterIs(m.value, best.value);
    }
    hide IsBetter, Specificity, LevelsOk;
  }

  lemma {:induction false} BestTells(list: seq<Rule>, p: Packet)
    requires RulesOk(list) && NoConflict(list, p)
    ensures Tells(Best(list, p), Top(list, p, true), Top(list, p, false))
    ensures Best(list, p).Some? ==> exists r | r in list :: MatchRule(r, p) == Best(list, p)
  {
    if list != [] {
      hide MatchRule, RuleOk, IsBetter, LevelsOk, Conflict, Specificity;
      var r, rest := list[|list| - 1], list[..|list| - 1];
      assert list == rest + [r] && r in list;
      BestTells(rest, p);
      BestLevels(rest, p);
      MatchLevels(r, p);
      var b, m := Best(rest, p), MatchRule(r, p);
      if b.Some? && m.Some? {
        var q :| q in rest && MatchRule(q, p) == b;
        assert q in list;
      }
      TellsNext(b, m, Top(rest, p, true), Top(rest, p, false));
      hide Tells;
    }
  }

  /** Where no two matches conflict the walk decides just that. */
  lemma DecisionIs(list: seq<Rule>, p: Packet)
    requires RulesOk(list) && NoConflict(list, p)
    ensures Decision(list, p) <==> Blocked(list, p)
  {
    BestTells(list, p);
  }

  lemma {:induction false} BestLevels(list: seq<Rule>, p: Packet)
    requires RulesOk(list)
    ensures Best(list, p).Some? ==> LevelsOk(Best(list, p).value)
  {
    hide RuleOk, MatchRule, IsBetter, LevelsOk;
    if list != [] {
      BestLevels(list[..|list| - 1], p);
      MatchLevels(list[|list| - 1], p);
    }
  }

  // ---- the order of the list

  lemma {:induction false} TopHas(list: seq<Rule>, p: Packet, block: bool, r: Rule)
    requires r in list
    ensures Top(list, p, block) >= TopOf(MatchRule(r, p), block)
  {
    hide MatchRule, TopOf;
    var l, rest := list[|list| - 1], list[..|list| - 1];
    assert list == rest + [l];
    if r in rest {
      TopHas(rest, p, block, r);
    }
  }

  lemma {:induction false} TopMono(list: seq<Rule>, other: seq<Rule>, p: Packet, block: bool)
    requires forall r | r in list :: r in other
    ensures Top(list, p, block) <= Top(other, p, block)
  {
    hide MatchRule, TopOf;
    if list != [] {
      var l, rest := list[|list| - 1], list[..|list| - 1];
      assert list == rest + [l];
      TopMono(rest, other, p, block);
      TopHas(other, p, block, l);
    }
  }

  /** Without conflicts the decision does not depend on the order, nor on repetitions. */
  lemma OrderDoesNotMatter(list: seq<Rule>, other: seq<Rule>, p: Packet)
    requires RulesOk(list) && NoConflict(list, p) && forall r :: r in list <==> r in other
    ensures Decision(list, p) == Decision(other, p)
  {
    assert RulesOk(other) && NoConflict(other, p) by {
      hide MatchRule, RuleOk, Conflict;
    }
    DecisionIs(list, p);
    DecisionIs(other, p);
    TopMono(list, other, p, true);
    TopMono(list, other, p, false);
    TopMono(other, list, p, true);
    TopMono(other, list, p, false);
  }

  /** Two rules decide alike in both orders just when they do not conflict. */
  lemma PairOrder(a: Rule, b: Rule, p: Packet)
    requires RuleOk(a) && RuleOk(b)
    ensures Decision([a, b], p) == Decision([b, a], p) <==> NoConflict([a, b], p)
  {
    MatchLevels(a, p);
    MatchLevels(b, p);
    TwoBest(a, b, p);
    TwoBest(b, a, p);
    var m, n := MatchRule(a, p), MatchRule(b, p);
    if m.Some? && n.Some? {
      BetterIs(m.value, n.value);
      BetterIs(n.value, m.value);
    }
    hide MatchRule, IsBetter, Specificity, LevelsOk, RuleOk;
    PairConflicts(a, b, p);
  }

  lemma OneBest(r: Rule, p: Packet)
    ensures Best([r], p) == MatchRule(r, p)
  {
    hide MatchRule, IsBetter;
    assert [r][..0] == [];
  }

  lemma TwoBest(a: Rule, b: Rule, p: Packet)
    ensures Best([a, b], p) == (var m, n := MatchRule(a, p), MatchRule(b, p);
      if n.Some? && (m.None? || IsBetter(n.value, m.value)) then n else m)
  {
    hide MatchRule, IsBetter;
    assert [a, b][..1] == [a];
    OneBest(a, p);
  }

  lemma PairConflicts(a: Rule, b: Rule, p: Packet)
    ensures NoConflict([a, b], p) <==>
      (MatchRule(a, p).Some? && MatchRule(b, p).Some? ==>
         !Conflict(MatchRule(a, p).value, MatchRule(b, p).value) && !Conflict(MatchRule(b, p).value, MatchRule(a, p).value))
  {
    hide MatchRule;
    assert a in [a, b] && b in [a, b];
  }

  /** With one protocol in all rules nothing conflicts. */
  lemma OneProtocol(list: seq<Rule>, protocol: int, p: Packet)
    requires forall r | r in list :: r.protocol == protocol
    ensures NoConflict(list, p)
  {
    forall a, b | a in list && b in list && MatchRule(a, p).Some? && MatchRule(b, p).Some?
      ensures !Conflict(MatchRule(a, p).value, MatchRule(b, p).value)
    {
      assert MatchRule(a, p).value.byProtocol == MatchProtocol(protocol, p.protocol) == MatchRule(b, p).value.byProtocol;
    }
  }

  // ---- NetFw_AddRule

  predicate Refuses(dst: seq<Range>, src: seq<Range>) {
    exists s :: s in src && Overlaps(dst, s)
  }

  /** What one rule of the list makes of the new one; None where the walk goes on. */
  function TryMerge(rule: Rule, newRule: Rule): Option<Rule> {
    if rule.level != newRule.level || rule.block != newRule.block then None
    else if (rule.ports != []) != (newRule.ports != []) then None
    else if (rule.ips != []) != (newRule.ips != []) then None
    else if rule.protocol != newRule.protocol then None
    else if rule.ports != [] && rule.ips != [] then
      if rule.ports != newRule.ports && rule.ips != newRule.ips then None
      else if rule.ports != newRule.ports then MergedPorts(rule, newRule)
      else if rule.ips != newRule.ips then MergedIps(rule, newRule)
      else Some(rule)
    else if rule.ports != [] then MergedPorts(rule, newRule)
    else if rule.ips != [] then MergedIps(rule, newRule)
    else Some(rule)
  }

  function MergedPorts(rule: Rule, newRule: Rule): Option<Rule> {
    if Refuses(rule.ports, newRule.ports) then None else Some(rule.(ports := AllInserted(rule.ports, newRule.ports)))
  }

  function MergedIps(rule: Rule, newRule: Rule): Option<Rule> {
    if Refuses(rule.ips, newRule.ips) then None else Some(rule.(ips := AllInserted(rule.ips, newRule.ips)))
  }

  /** The list after the walk: changed at the first rule that takes the new one in, or longer. */
  function Added(list: seq<Rule>, newRule: Rule): seq<Rule> {
    if list == [] then [newRule]
    else if TryMerge(list[0], newRule).Some? then [TryMerge(list[0], newRule).value] + list[1..]
    else [list[0]] + Added(list[1..], newRule)
  }

  lemma {:induction false} AddedAt(list: seq<Rule>, newRule: Rule, i: nat)
    requires i <= |list| && forall k | 0 <= k < i :: TryMerge(list[k], newRule).None?
    ensures i == |list| ==> Added(list, newRule) == list + [newRule]
    ensures i < |list| && TryMerge(list[i], newRule).Some? ==> Added(list, newRule) == list[i := TryMerge(list[i], newRule).value]
  {
    hide TryMerge;
    if i > 0 {
      AddedAt(list[1..], newRule, i - 1);
      assert list == [list[0]] + list[1..];
    }
  }

  class RuleList {
    var rules: seq<Rule>

    constructor ()
      ensures rules == []
    {
      rules := [];
    }

    method AddRule(newRule: Rule)
      requires RulesOk(rules) && RuleOk(newRule)
      modifies this
      ensures rules == Added(old(rules), newRule)
    {
      hide MapOk, AllInserted, Overlaps;
      var i := 0;
      while i < |rules|
        invariant 0 <= i <= |rules| && rules == old(rules)
        invariant forall k | 0 <= k < i :: TryMerge(rules[k], newRule).None?
      {
        assert RuleOk(rules[i]) by { hide RuleOk; }
        var taken := Merge(i, newRule);
        if taken {
          AddedAt(old(rules), newRule, i);
          return;
        }
        i := i + 1;
      }
      AddedAt(old(rules), newRule, i);
      rules := rules + [newRule];
    }

    /** One turn of the walk. */
    method Merge(i: nat, newRule: Rule) returns (taken: bool)
      requires i < |rules| && RuleOk(rules[i]) && RuleOk(newRule)
      modifies this
      ensures var m := TryMerge(old(rules[i]), newRule);
        taken == m.Some? && rules == if taken then old(rules)[i := m.value] else old(rules)
    {
      hide MapOk, AllInserted, Overlaps;
      var rule := rules[i];
      taken := false;
      if rule.level != newRule.level || rule.block != newRule.block {
        return;
      }
      if (rule.ports != []) != (newRule.ports != []) {
        return;
      }
      if (rule.ips != []) != (newRule.ips != []) {
        return;
      }
      if rule.protocol != newRule.protocol {
        return;
      }
      if rule.ports != [] && rule.ips != [] {
        var samePorts := SameMaps(rule.ports, newRule.ports);
        var sameIps := SameMaps(rule.ips, newRule.ips);
        if !samePorts && !sameIps {
          return;
        } else if !samePorts {
          var merged, ok := MergeMaps(rule.ports, newRule.ports);
          if !ok {
            return;
          }
          rules := rules[i := rule.(ports := merged)];
        } else if !sameIps {
          var merged, ok := MergeMaps(rule.ips, newRule.ips);
          if !ok {
            return;
          }
          rules := rules[i := rule.(ips := merged)];
        }
      } else if rule.ports != [] {
        var merged, ok := MergeMaps(rule.ports, newRule.ports);
        if !ok {
          return;
        }
        rules := rules[i := rule.(ports := merged)];
      } else if rule.ips != [] {
        var merged, ok := MergeMaps(rule.ips, newRule.ips);
        if !ok {
          return;
        }
        rules := rules[i := rule.(ips := merged)];
      }
      taken := true;
    }
  }

  /** `NetFw_MatchPortMaps` and `NetFw_MatchIPMaps`: both trees are walked in step. */
  method SameMaps(l: seq<Range>, r: seq<Range>) returns (same: bool)
    ensures same == (l == r)
  {
    var i := 0;
    while true
      invariant 0 <= i <= |l| && i <= |r| && l[..i] == r[..i]
      decreases |l| - i
    {
      if (i < |l|) != (i < |r|) {
        break;
      }
      if i == |l| && i == |r| {
        return true;
      }
      if l[i].lo != r[i].lo || l[i].hi != r[i].hi {
        break;
      }
      i := i + 1;
    }
    return false;
  }
}
