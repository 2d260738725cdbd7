/** When the order of the rules shows in a decision. */
module FirewallDecisions {
  import opened Common
  import opened FirewallRanges
  import opened FirewallRules

  // ---- the order

  /** How high a match ranks among those with the same action: by specificity, then by protocol. */
  function Rank(m: RuleMatch): (n: nat)
    ensures n >= 8
  {
    8 * (Specificity(m) + 1) + m.byProtocol
  }

  function RankOf(m: Option<RuleMatch>, block: bool): nat {
    if m.Some? && m.value.block == block then Rank(m.value) else 0
  }

  /** The highest rank among the matches with an action; zero when none matches. */
  function Highest(list: seq<Rule>, p: Packet, block: bool): nat {
    if list == [] then 0
    else Max(Highest(list[..|list| - 1], p, block), RankOf(MatchRule(list[|list| - 1], p), block))
  }

  /** The highest match allows and names its protocol better than the highest that blocks, but is only as
      specific: each of the two is better than the other. */
  predicate Contested(list: seq<Rule>, p: Packet) {
    var b, a := Highest(list, p, true), Highest(list, p, false);
    a > b && a / 8 == b / 8
  }

  predicate MatchOk(m: RuleMatch) {
    LevelsOk(m) && m.byProtocol < 8
  }

  lemma MatchIsOk(r: Rule, p: Packet)
    requires RuleOk(r)
    ensures MatchRule(r, p).Some? ==> MatchOk(MatchRule(r, p).value)
  {
    MatchLevels(r, p);
    hide Match, RuleOk, LevelsOk;
  }

  /** What the best match is, by the highest ranks: it is as specific as the higher of them, blocks if
      the blocking one is not lower, and allows if that is less specific. */
  predicate BestIs(best: Option<RuleMatch>, b: nat, a: nat) {
    if best.None? then b == 0 == a
    else
      && MatchOk(best.value)
      && Rank(best.value) / 8 == Max(b, a) / 8 && Rank(best.value) <= (if best.value.block then b else a)
      && (b >= a ==> best.value.block && Rank(best.value) == b)
      && (a / 8 > b / 8 ==> !best.value.block && Rank(best.value) == a)
  }

  lemma RankParts(m: RuleMatch)
    requires m.byProtocol < 8
    ensures Rank(m) / 8 == Specificity(m) + 1 && Rank(m) == 8 * (Specificity(m) + 1) + m.byProtocol
  {
    hide Specificity;
  }

  /** `IsBetter` by ranks. */
  lemma BetterRank(x: RuleMatch, y: RuleMatch)
    requires MatchOk(x) && MatchOk(y)
    ensures IsBetter(x, y) <==>
      (Rank(x) / 8 > Rank(y) / 8 || (Rank(x) / 8 == Rank(y) / 8 && ((x.block && !y.block) || Rank(x) > Rank(y))))
  {
    hide IsBetter, LevelsOk, Specificity, Rank;
    BetterIs(x, y);
    RankParts(x);
    RankParts(y);
  }

  lemma BestNext(best: Option<RuleMatch>, m: Option<RuleMatch>, b: nat, a: nat)
    requires BestIs(best, b, a) && (m.Some? ==> MatchOk(m.value))
    ensures var next := if m.Some? && (best.None? || IsBetter(m.value, best.value)) then m else best;
      BestIs(next, Max(b, RankOf(m, true)), Max(a, RankOf(m, false)))
  {
    hide IsBetter, Rank, MatchOk;
    if best.Some? && m.Some? {
      BetterRank(m.value, best.value);
    }
  }

  lemma {:induction false} BestIsHighest(list: seq<Rule>, p: Packet)
    requires RulesOk(list)
    ensures BestIs(Best(list, p), Highest(list, p, true), Highest(list, p, false))
  {
    hide MatchRule, RuleOk, IsBetter, Rank, MatchOk;
    if list != [] {
      var r, rest := list[|list| - 1], list[..|list| - 1];
      BestIsHighest(rest, p);
      MatchIsOk(r, p);
      BestNext(Best(rest, p), MatchRule(r, p), Highest(rest, p, true), Highest(rest, p, false));
      hide BestIs;
    }
  }

  lemma {:induction false} HighestHas(list: seq<Rule>, p: Packet, block: bool, r: Rule)
    requires r in list
    ensures Highest(list, p, block) >= RankOf(MatchRule(r, p), block)
  {
    hide MatchRule, RankOf;
    var l, rest := list[|list| - 1], list[..|list| - 1];
    assert list == rest + [l];
    if r in rest {
      HighestHas(rest, p, block, r);
    }
  }

  lemma {:induction false} HighestMono(list: seq<Rule>, other: seq<Rule>, p: Packet, block: bool)
    requires forall r | r in list :: r in other
    ensures Highest(list, p, block) <= Highest(other, p, block)
  {
    hide MatchRule, RankOf;
    if list != [] {
      var l, rest := list[|list| - 1], list[..|list| - 1];
      assert list == rest + [l];
      HighestMono(rest, other, p, block);
      HighestHas(other, p, block, l);
    }
  }

  lemma {:induction false} HighestFrom(list: seq<Rule>, p: Packet, block: bool) returns (r: Rule)
    requires Highest(list, p, block) > 0
    ensures r in list && RankOf(MatchRule(r, p), block) == Highest(list, p, block)
  {
    hide MatchRule, RankOf;
    var l, rest := list[|list| - 1], list[..|list| - 1];
    assert list == rest + [l];
    if RankOf(MatchRule(l, p), block) == Highest(list, p, block) {
      r := l;
    } else {
      r := HighestFrom(rest, p, block);
    }
  }

  predicate SameRules(list: seq<Rule>, other: seq<Rule>) {
    (forall r | r in list :: r in other) && (forall r | r in other :: r in list)
  }

  /** Where nothing is contested the highest rank decides. */
  lemma HighestDecides(list: seq<Rule>, p: Packet)
    requires RulesOk(list) && !Contested(list, p)
    ensures var b, a := Highest(list, p, true), Highest(list, p, false); Decision(list, p) <==> b > 0 && b >= a
  {
    hide RuleOk, Rank, MatchOk;
    BestIsHighest(list, p);
  }

  lemma SameHighest(list: seq<Rule>, other: seq<Rule>, p: Packet, block: bool)
    requires SameRules(list, other)
    ensures Highest(list, p, block) == Highest(other, p, block)
  {
    HighestMono(list, other, p, block);
    HighestMono(other, list, p, block);
  }

  lemma AtEnd(list: seq<Rule>, r: Rule, p: Packet)
    ensures Best(list + [r], p) == (var best, m := Best(list, p), MatchRule(r, p);
      if m.Some? && (best.None? || IsBetter(m.value, best.value)) then m else best)
    ensures r in list ==> SameRules(list, list + [r])
  {
    hide MatchRule, IsBetter;
    assert (list + [r])[..|list|] == list;
  }

  /** Where it is contested, one of the two rules put last wins against the other. */
  lemma LastWins(list: seq<Rule>, p: Packet) returns (x: Rule, y: Rule)
    requires RulesOk(list) && Contested(list, p)
    ensures x in list && y in list && Decision(list + [x], p) && !Decision(list + [y], p)
  {
    hide MatchRule, IsBetter, RuleOk, MatchOk;
    BestIsHighest(list, p);
    x := HighestFrom(list, p, true);
    y := HighestFrom(list, p, false);
    MatchIsOk(x, p);
    MatchIsOk(y, p);
    AtEnd(list, x, p);
    AtEnd(list, y, p);
    var best := Best(list, p).value;
    hide Best;
    BetterRank(MatchRule(x, p).value, best);
    BetterRank(MatchRule(y, p).value, best);
    hide Rank;
  }

  /** The decision is the same in every order, and with every repetition, if and only if it is not
      contested. */
  lemma OrderShowsExactly(list: seq<Rule>, p: Packet)
    requires RulesOk(list)
    ensures (forall other | SameRules(list, other) :: Decision(other, p) == Decision(list, p)) <==> !Contested(list, p)
  {
    hide RuleOk, Decision, Highest;
    if Contested(list, p) {
      var x, y := LastWins(list, p);
      AtEnd(list, x, p);
      AtEnd(list, y, p);
    } else {
      forall other | SameRules(list, other)
        ensures Decision(other, p) == Decision(list, p)
      {
        SameHighest(list, other, p, true);
        SameHighest(list, other, p, false);
        HighestDecides(list, p);
        HighestDecides(other, p);
      }
    }
  }

  /** Rules that do not conflict are not contested. */
  lemma NoConflictIsEnough(list: seq<Rule>, p: Packet)
    requires RulesOk(list) && NoConflict(list, p)
    ensures !Contested(list, p)
  {
    hide MatchRule, RuleOk, MatchOk, LevelsOk, Specificity, Rank;
    if Contested(list, p) {
      var x := HighestFrom(list, p, false);
      var y := HighestFrom(list, p, true);
      MatchIsOk(x, p);
      MatchIsOk(y, p);
      ByProtocolBelow(MatchRule(x, p).value);
      ByProtocolBelow(MatchRule(y, p).value);
      RankParts(MatchRule(x, p).value);
      RankParts(MatchRule(y, p).value);
    }
  }

  lemma ByProtocolBelow(m: RuleMatch)
    requires MatchOk(m)
    ensures m.byProtocol < 8
  {
  }
}
