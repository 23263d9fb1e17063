/**
  Backward chaining over pattern rules (`backchain_to_goal_tree`) and the
  rule sets defined beside it. Only the zookeeper rules are given to the
  builder; the transitive and family rules feed `forward_chain`, which is
  not part of this model.

  The recursion of the original has no cycle guard; here every call carries
  a `fuel` depth bound. With fuel 0 no rule is tried, and the hypothesis is
  its own goal tree.
 */
module Inference {
  import opened Wrappers
  import opened Text
  import opened Production

  // ---------------------------------------------------------------------------
  // rule data

  /** `transitive_rule()`: x beats y and y beats z give x beats z. */
  function TransitiveRule(): Rule {
    Rule(And([Leaf("(?x) beats (?y)"), Leaf("(?y) beats (?z)")]), ["(?x) beats (?z)"])
  }

  /** `family_rules()`: self, child, sibling, grandparent, grandchild, cousin. */
  function FamilyRules(): seq<Rule> {
    [ Rule(Leaf("person (?x)"), ["self (?x) (?x)"]),
      Rule(Leaf("parent (?x) (?y)"), ["child (?y) (?x)"]),
      Rule(And([Leaf("parent (?p) (?x)"), Leaf("parent (?p) (?y)"), Not(Leaf("self (?x) (?y)"))]),
           ["sibling (?x) (?y)"]),
      Rule(And([Leaf("parent (?x) (?z)"), Leaf("parent (?z) (?y)")]),
           ["grandparent (?x) (?y)"]),
      Rule(Leaf("grandparent (?x) (?y)"), ["grandchild (?y) (?x)"]),
      Rule(And([Leaf("parent (?px) (?x)"), Leaf("parent (?py) (?y)"),
                Leaf("sibling (?px) (?py)"), Not(Leaf("sibling (?x) (?y)"))]),
           ["cousin (?x) (?y)"]) ]
  }

  /** `zookeeper_rules`. */
  function ZookeeperRules(): seq<Rule> {
    [ Rule(Leaf("(?x) is a bird"), ["(?x) is a vertebrate"]),
      Rule(Leaf("(?x) has feathers"), ["(?x) is a bird"]),
      Rule(And([Leaf("(?x) flies"), Leaf("(?x) lays eggs")]), ["(?x) is a bird"]),
      Rule(And([Leaf("(?x) is a bird"), Leaf("(?x) does not fly"), Leaf("(?x) swims"),
                Leaf("(?x) has black and white color")]),
           ["(?x) is a penguin"]) ]
  }

  // ---------------------------------------------------------------------------
  // well-formedness of the rule data
  //
  // Each pattern's variables are worked out once, by a lemma that takes the
  // pattern as a parameter equal to the literal; each rule is then checked
  // in two halves: its consequent is bound, and its NOT clauses are bound.

  lemma XBeatsY(p: string)
    requires p == "(?x) beats (?y)"
    ensures PatternVars(p) == {"x", "y"}
  {
    InfixPattern(p, "beats", "x", "y");
  }

  lemma YBeatsZ(p: string)
    requires p == "(?y) beats (?z)"
    ensures PatternVars(p) == {"y", "z"}
  {
    InfixPattern(p, "beats", "y", "z");
  }

  lemma XBeatsZ(p: string)
    requires p == "(?x) beats (?z)"
    ensures PatternVars(p) == {"x", "z"}
  {
    InfixPattern(p, "beats", "x", "z");
  }

  lemma XToken()
    ensures TokenVars(["(?x)"]) == {"x"}
  {
    assert IsVariable("(?x)") && VarName("(?x)") == "x";
    assert ["(?x)"][1..] == [];
  }

  /** The variables of a zookeeper pattern `(?x) ...`: just `x`. */
  lemma XPattern(p: string, rest: seq<string>)
    requires p == Join(["(?x)"] + rest, " ")
    requires forall i :: 0 <= i < |rest| ==> ' ' !in rest[i] && !IsVariable(rest[i])
    ensures PatternVars(p) == {"x"}
  {
    var ts := ["(?x)"] + rest;
    assert forall i :: 0 <= i < |ts| ==> ' ' !in ts[i] by {
      forall i | 0 <= i < |ts| ensures ' ' !in ts[i] {
        if i > 0 { assert ts[i] == rest[i - 1]; }
      }
    }
    PatternVarsOfTokens(p, ts);
    TokenVarsConcat(["(?x)"], rest);
    NoVariableTokens(rest);
    XToken();
  }

  lemma IsABird(p: string)
    requires p == "(?x) is a bird"
    ensures PatternVars(p) == {"x"}
  {
    XPattern(p, ["is", "a", "bird"]);
  }

  lemma IsAVertebrate(p: string)
    requires p == "(?x) is a vertebrate"
    ensures PatternVars(p) == {"x"}
  {
    XPattern(p, ["is", "a", "vertebrate"]);
  }

  lemma HasFeathers(p: string)
    requires p == "(?x) has feathers"
    ensures PatternVars(p) == {"x"}
  {
    XPattern(p, ["has", "feathers"]);
  }

  lemma Flies(p: string)
    requires p == "(?x) flies"
    ensures PatternVars(p) == {"x"}
  {
    XPattern(p, ["flies"]);
  }

  lemma IsAPenguin(p: string)
    requires p == "(?x) is a penguin"
    ensures PatternVars(p) == {"x"}
  {
    XPattern(p, ["is", "a", "penguin"]);
  }

  lemma TransitiveConsequentBound()
    ensures PatternVars(TransitiveRule().actions[0]) <= BoundVars(TransitiveRule().antecedent)
    ensures PatternVars(TransitiveRule().actions[0]) == {"x", "z"}
  {
    var rule := TransitiveRule();
    var cs := rule.antecedent.children;
    XBeatsY(cs[0].pattern);
    YBeatsZ(cs[1].pattern);
    XBeatsZ(rule.actions[0]);
    BoundInUnion(cs, 0);
    BoundInUnion(cs, 1);
  }

  lemma TransitiveNoNegation()
    ensures NoNegation(TransitiveRule().antecedent)
  {
    var cs := TransitiveRule().antecedent.children;
    assert forall j :: 0 <= j < |cs| ==> NoNegation(cs[j]);
  }

  lemma TransitiveNegationsBound()
    ensures NegationsBound(TransitiveRule().antecedent, {})
  {
    TransitiveNoNegation();
    NoNegationBound(TransitiveRule().antecedent, {});
  }

  /** `transitive_rule()` is well formed: its consequent `(?x) beats (?z)`
      uses only variables its two clauses bind, and it has no NOT. */
  lemma TransitiveRuleWellFormed()
    ensures WellFormed(TransitiveRule())
    ensures PatternVars(TransitiveRule().actions[0]) == {"x", "z"}
    ensures NoNegation(TransitiveRule().antecedent)
  {
    TransitiveConsequentBound();
    TransitiveNoNegation();
    TransitiveNegationsBound();
    SingleActionWellFormed(TransitiveRule());
  }

  lemma ZookeeperConsequentBound(i: nat)
    requires i < |ZookeeperRules()|
    ensures |ZookeeperRules()[i].actions| == 1
    ensures PatternVars(ZookeeperRules()[i].actions[0]) == {"x"}
    ensures PatternVars(ZookeeperRules()[i].actions[0]) <= BoundVars(ZookeeperRules()[i].antecedent)
  {
    var rule := ZookeeperRules()[i];
    if i == 0 {
      IsABird(rule.antecedent.pattern);
      IsAVertebrate(rule.actions[0]);
    } else if i == 1 {
      HasFeathers(rule.antecedent.pattern);
      IsABird(rule.actions[0]);
    } else if i == 2 {
      Flies(rule.antecedent.children[0].pattern);
      IsABird(rule.actions[0]);
      BoundInUnion(rule.antecedent.children, 0);
    } else {
      IsABird(rule.antecedent.children[0].pattern);
      IsAPenguin(rule.actions[0]);
      BoundInUnion(rule.antecedent.children, 0);
    }
  }

  lemma ZookeeperNoNegation(i: nat)
    requires i < |ZookeeperRules()|
    ensures NoNegation(ZookeeperRules()[i].antecedent)
  {
    var a := ZookeeperRules()[i].antecedent;
    if a.And? {
      assert forall j :: 0 <= j < |a.children| ==> NoNegation(a.children[j]);
    }
  }

  lemma ZookeeperNegationsBound(i: nat)
    requires i < |ZookeeperRules()|
    ensures NegationsBound(ZookeeperRules()[i].antecedent, {})
  {
    ZookeeperNoNegation(i);
    NoNegationBound(ZookeeperRules()[i].antecedent, {});
  }

  /** Every zookeeper rule is well formed: each consequent's one variable
      `x` is bound by its antecedent, and there is no NOT. */
  lemma ZookeeperRulesWellFormed()
    ensures forall i :: 0 <= i < |ZookeeperRules()| ==> WellFormed(ZookeeperRules()[i])
    ensures forall i :: 0 <= i < |ZookeeperRules()| ==> NoNegation(ZookeeperRules()[i].antecedent)
  {
    forall i | 0 <= i < |ZookeeperRules()|
      ensures WellFormed(ZookeeperRules()[i])
      ensures NoNegation(ZookeeperRules()[i].antecedent)
    {
      ZookeeperConsequentBound(i);
      ZookeeperNoNegation(i);
      ZookeeperNegationsBound(i);
      SingleActionWellFormed(ZookeeperRules()[i]);
    }
  }

  // ---------------------------------------------------------------------------
  // the goal tree, as functions

  /** The `alternatives` list: the hypothesis itself, then what each rule
      contributes, in rule order. */
  function Alternatives(rules: seq<Rule>, hypothesis: string, fuel: nat): seq<Expr>
    decreases fuel, 3
  {
    [Leaf(hypothesis)] + (if fuel == 0 then [] else Contributions(rules, rules, hypothesis, fuel))
  }

  /** What the rules `rs` contribute, one after the other. */
  function Contributions(rules: seq<Rule>, rs: seq<Rule>, hypothesis: string, fuel: nat): seq<Expr>
    requires fuel > 0
    decreases fuel, 2
  {
    Flatten(EachContribution(rules, rs, hypothesis, fuel))
  }

  /** What each rule of `rs` contributes, rule by rule. */
  function EachContribution(rules: seq<Rule>, rs: seq<Rule>, hypothesis: string, fuel: nat): (cs: seq<seq<Expr>>)
    requires fuel > 0
    ensures |cs| == |rs|
    decreases fuel, 1
  {
    seq(|rs|, i requires 0 <= i < |rs| => Contribution(rules, rs[i], hypothesis, fuel))
  }

  /** The lists `xss` one after the other. */
  function Flatten<T>(xss: seq<seq<T>>): seq<T> {
    if xss == [] then [] else Flatten(xss[..|xss| - 1]) + xss[|xss| - 1]
  }

  /** What one rule contributes: nothing unless its first action matches the
      hypothesis; then the goal tree of its populated antecedent when that is
      a pattern, an AND (OR) of the goal trees of its populated conditions
      when it is an AND (OR), and nothing for any other antecedent. */
  function Contribution(rules: seq<Rule>, rule: Rule, hypothesis: string, fuel: nat): seq<Expr>
    requires fuel > 0
    decreases fuel, 0
  {
    match Consequent(rule)
    case None => []
    case Some(consequent) =>
      match Match(consequent, hypothesis)
      case None => []
      case Some(b) =>
        if rule.antecedent.Leaf? then
          [GoalTree(rules, Populate(rule.antecedent.pattern, b), fuel - 1)]
        else
          match PopulateExpr(rule.antecedent, b)
          case And(cs) => [And(SubgoalTrees(rules, cs, fuel - 1))]
          case Or(cs) => [Or(SubgoalTrees(rules, cs, fuel - 1))]
          case _ => []
  }

  /** The `subgoals` list: the goal tree of each condition, in order. */
  function SubgoalTrees(rules: seq<Rule>, conditions: seq<Expr>, fuel: nat): seq<Expr>
    decreases fuel, 6, |conditions|
  {
    if conditions == [] then []
    else SubgoalTrees(rules, conditions[..|conditions| - 1], fuel)
         + [GoalOf(rules, conditions[|conditions| - 1], fuel)]
  }

  /** The goal tree of a condition. A pattern is backchained on; any other
      condition (a NOT, say) has no rule consequent matching it, so it is
      its own only alternative. */
  function GoalOf(rules: seq<Rule>, condition: Expr, fuel: nat): Expr
    decreases fuel, 5
  {
    if condition.Leaf? then GoalTree(rules, condition.pattern, fuel)
    else Simplify(Or([condition]))
  }

  /** `backchain_to_goal_tree(rules, hypothesis)`: the simplified OR of the
      alternatives. */
  function GoalTree(rules: seq<Rule>, hypothesis: string, fuel: nat): Expr
    decreases fuel, 4
  {
    Simplify(Or(Alternatives(rules, hypothesis, fuel)))
  }

  // ---------------------------------------------------------------------------
  // the goal tree, as the original builds it

  /** `backchain_to_goal_tree`: grows `alternatives` rule by rule and, for a
      connective antecedent, `subgoals` condition by condition. */
  method BackchainToGoalTree(rules: seq<Rule>, hypothesis: string, fuel: nat) returns (tree: Expr)
    ensures tree == GoalTree(rules, hypothesis, fuel)
    decreases fuel, 2
  {
    var alternatives := [Leaf(hypothesis)];
    if fuel > 0 {
      for i := 0 to |rules|
        invariant alternatives == [Leaf(hypothesis)] + Contributions(rules, rules[..i], hypothesis, fuel)
      {
        var rule := rules[i];
        assert rules[..i + 1] == rules[..i] + [rule];
        ContributionsSnoc(rules, rules[..i], rule, hypothesis, fuel);
        var added := RuleAlternative(rules, rule, hypothesis, fuel);
        alternatives := alternatives + added;
      }
      assert rules[..|rules|] == rules;
    } else {
      assert alternatives == [Leaf(hypothesis)] + [];
    }
    assert alternatives == Alternatives(rules, hypothesis, fuel);
    tree := Simplify(Or(alternatives));
  }

  /** The body of the rule loop: what one rule adds to `alternatives` --
      nothing unless its first action matches the hypothesis, otherwise the
      goal tree of the instantiated antecedent (a condition, or an AND / OR
      of the goal trees of its conditions). */
  method RuleAlternative(rules: seq<Rule>, rule: Rule, hypothesis: string, fuel: nat) returns (added: seq<Expr>)
    requires fuel > 0
    ensures added == Contribution(rules, rule, hypothesis, fuel)
    ensures |added| <= 1
    decreases fuel, 1
  {
    added := [];
    var consequent := Consequent(rule);
    var bindings := if consequent.Some? then Match(consequent.value, hypothesis) else None;
    if bindings.Some? {
      if rule.antecedent.Leaf? {
        var instantiated := Populate(rule.antecedent.pattern, bindings.value);
        var subtree := BackchainToGoalTree(rules, instantiated, fuel - 1);
        added := [subtree];
      } else {
        var instantiatedAnt := PopulateExpr(rule.antecedent, bindings.value);
        if instantiatedAnt.And? {
          var subgoals := Subgoals(rules, instantiatedAnt.children, fuel - 1);
          added := [And(subgoals)];
        } else if instantiatedAnt.Or? {
          var subgoals := Subgoals(rules, instantiatedAnt.children, fuel - 1);
          added := [Or(subgoals)];
        }
      }
    }
  }

  /** The `subgoals` loop of a connective antecedent: the goal tree of each
      condition, in order. */
  method Subgoals(rules: seq<Rule>, conditions: seq<Expr>, fuel: nat) returns (subgoals: seq<Expr>)
    ensures subgoals == SubgoalTrees(rules, conditions, fuel)
    decreases fuel, 3
  {
    subgoals := [];
    for j := 0 to |conditions|
      invariant subgoals == SubgoalTrees(rules, conditions[..j], fuel)
    {
      assert conditions[..j + 1][..j] == conditions[..j];
      var condition := conditions[j];
      var subgoal;
      if condition.Leaf? {
        subgoal := BackchainToGoalTree(rules, condition.pattern, fuel);
      } else {
        subgoal := Simplify(Or([condition]));
      }
      subgoals := subgoals + [subgoal];
    }
    assert conditions[..|conditions|] == conditions;
  }

  // ---------------------------------------------------------------------------
  // properties

  /** The hypothesis itself is always the first alternative. */
  lemma HypothesisFirst(rules: seq<Rule>, hypothesis: string, fuel: nat)
    ensures Alternatives(rules, hypothesis, fuel)[0] == Leaf(hypothesis)
  {
  }

  /** Each rule adds at most one alternative. */
  lemma ContributionAtMostOne(rules: seq<Rule>, rule: Rule, hypothesis: string, fuel: nat)
    requires fuel > 0
    ensures |Contribution(rules, rule, hypothesis, fuel)| <= 1
  {
  }

  /** A rule without actions, or whose first action does not match the
      hypothesis, adds nothing. */
  lemma NonMatchingRuleAddsNothing(rules: seq<Rule>, rule: Rule, hypothesis: string, fuel: nat)
    requires fuel > 0
    requires rule.actions == [] || Match(rule.actions[0], hypothesis).None?
    ensures Contribution(rules, rule, hypothesis, fuel) == []
  {
  }

  /** Only the first action of a rule takes part: two rules with the same
      antecedent and first action contribute the same. */
  lemma OnlyFirstActionMatters(rules: seq<Rule>, r1: Rule, r2: Rule, hypothesis: string, fuel: nat)
    requires fuel > 0
    requires r1.antecedent == r2.antecedent
    requires |r1.actions| > 0 && |r2.actions| > 0 && r1.actions[0] == r2.actions[0]
    ensures Contribution(rules, r1, hypothesis, fuel) == Contribution(rules, r2, hypothesis, fuel)
  {
  }

  /** A matching rule whose antecedent is a pattern adds exactly the goal
      tree of the populated pattern. */
  lemma PatternAntecedentContribution(rules: seq<Rule>, rule: Rule, hypothesis: string, fuel: nat, b: Bindings)
    requires fuel > 0
    requires rule.actions != [] && Match(rule.actions[0], hypothesis) == Some(b)
    requires rule.antecedent.Leaf?
    ensures Contribution(rules, rule, hypothesis, fuel)
            == [GoalTree(rules, Populate(rule.antecedent.pattern, b), fuel - 1)]
  {
  }

  /** The subgoals are the goal trees of the conditions, one each, in order. */
  lemma {:induction false} SubgoalTreesPointwise(rules: seq<Rule>, conditions: seq<Expr>, fuel: nat)
    ensures |SubgoalTrees(rules, conditions, fuel)| == |conditions|
    ensures forall i :: 0 <= i < |conditions| ==>
              SubgoalTrees(rules, conditions, fuel)[i] == GoalOf(rules, conditions[i], fuel)
  {
    if conditions != [] {
      var init := conditions[..|conditions| - 1];
      SubgoalTreesPointwise(rules, init, fuel);
      forall i | 0 <= i < |init| ensures init[i] == conditions[i] { }
    }
  }

  /** A matching rule whose antecedent is an AND (an OR) adds one AND (OR)
      holding, for each populated condition in order, its goal tree. */
  lemma ConnectiveAntecedentContribution(rules: seq<Rule>, rule: Rule, hypothesis: string, fuel: nat, b: Bindings)
    requires fuel > 0
    requires rule.actions != [] && Match(rule.actions[0], hypothesis) == Some(b)
    requires rule.antecedent.And? || rule.antecedent.Or?
    ensures |Contribution(rules, rule, hypothesis, fuel)| == 1
    ensures var t := Contribution(rules, rule, hypothesis, fuel)[0];
            && t.And? == rule.antecedent.And?
            && t.Or? == rule.antecedent.Or?
            && |t.children| == |rule.antecedent.children|
            && forall i :: 0 <= i < |t.children| ==>
                 t.children[i] == GoalOf(rules, PopulateExpr(rule.antecedent.children[i], b), fuel - 1)
  {
    var cs := PopulateExpr(rule.antecedent, b).children;
    SubgoalTreesPointwise(rules, cs, fuel - 1);
  }

  /** A matching rule whose antecedent is neither a pattern, an AND nor an
      OR (a NOT) adds nothing. */
  lemma NegatedAntecedentAddsNothing(rules: seq<Rule>, rule: Rule, hypothesis: string, fuel: nat)
    requires fuel > 0
    requires rule.antecedent.Not?
    ensures Contribution(rules, rule, hypothesis, fuel) == []
  {
  }

  lemma FlattenFour<T>(a: seq<T>, b: seq<T>, c: seq<T>, d: seq<T>)
    ensures Flatten([a, b, c, d]) == a + b + c + d
  {
    assert [a][..0] == [];
    assert Flatten([a]) == a;
    assert [a, b][..1] == [a];
    assert Flatten([a, b]) == a + b;
    assert [a, b, c][..2] == [a, b];
    assert Flatten([a, b, c]) == a + b + c;
    assert [a, b, c, d][..3] == [a, b, c];
  }

  lemma {:induction false} FlattenConcat<T>(xss: seq<seq<T>>, yss: seq<seq<T>>)
    ensures Flatten(xss + yss) == Flatten(xss) + Flatten(yss)
    decreases |yss|
  {
    if yss == [] {
      assert xss + yss == xss;
    } else {
      var init := yss[..|yss| - 1];
      FlattenConcat(xss, init);
      assert (xss + yss)[..|xss + yss| - 1] == xss + init;
    }
  }

  lemma {:induction false} FlattenBound<T>(xss: seq<seq<T>>)
    requires forall i :: 0 <= i < |xss| ==> |xss[i]| <= 1
    ensures |Flatten(xss)| <= |xss|
  {
    if xss != [] {
      FlattenBound(xss[..|xss| - 1]);
    }
  }

  lemma {:induction false} FlattenEmpty<T>(xss: seq<seq<T>>)
    requires forall i :: 0 <= i < |xss| ==> xss[i] == []
    ensures Flatten(xss) == []
  {
    if xss != [] {
      FlattenEmpty(xss[..|xss| - 1]);
    }
  }

  /** Rules are tried in list order: the contributions of `rs + more` are
      those of `rs` followed by those of `more`. */
  lemma ContributionsInOrder(rules: seq<Rule>, rs: seq<Rule>, more: seq<Rule>, hypothesis: string, fuel: nat)
    requires fuel > 0
    ensures Contributions(rules, rs + more, hypothesis, fuel)
            == Contributions(rules, rs, hypothesis, fuel) + Contributions(rules, more, hypothesis, fuel)
  {
    var xs, ys := EachContribution(rules, rs, hypothesis, fuel), EachContribution(rules, more, hypothesis, fuel);
    assert EachContribution(rules, rs + more, hypothesis, fuel) == xs + ys;
    FlattenConcat(xs, ys);
  }

  /** The contributions of `rs` and then one more rule. */
  lemma ContributionsSnoc(rules: seq<Rule>, rs: seq<Rule>, rule: Rule, hypothesis: string, fuel: nat)
    requires fuel > 0
    ensures Contributions(rules, rs + [rule], hypothesis, fuel)
            == Contributions(rules, rs, hypothesis, fuel) + Contribution(rules, rule, hypothesis, fuel)
  {
    var xs := EachContribution(rules, rs, hypothesis, fuel);
    var all := EachContribution(rules, rs + [rule], hypothesis, fuel);
    assert all == xs + [Contribution(rules, rule, hypothesis, fuel)];
    assert all[..|all| - 1] == xs;
  }

  /** Each rule adds at most one alternative. */
  lemma ContributionsBound(rules: seq<Rule>, rs: seq<Rule>, hypothesis: string, fuel: nat)
    requires fuel > 0
    ensures |Contributions(rules, rs, hypothesis, fuel)| <= |rs|
  {
    var xs := EachContribution(rules, rs, hypothesis, fuel);
    forall i | 0 <= i < |xs| ensures |xs[i]| <= 1 {
      ContributionAtMostOne(rules, rs[i], hypothesis, fuel);
    }
    FlattenBound(xs);
  }

  /** There are between 1 and 1 + |rules| alternatives. */
  lemma AlternativesBound(rules: seq<Rule>, hypothesis: string, fuel: nat)
    ensures 1 <= |Alternatives(rules, hypothesis, fuel)| <= 1 + |rules|
  {
    if fuel > 0 {
      ContributionsBound(rules, rules, hypothesis, fuel);
    }
  }

  /** No rule matches: nothing is contributed. */
  lemma NothingContributed(rules: seq<Rule>, rs: seq<Rule>, hypothesis: string, fuel: nat)
    requires fuel > 0
    requires forall i :: 0 <= i < |rs| ==> Consequent(rs[i]).None? || Match(Consequent(rs[i]).value, hypothesis).None?
    ensures Contributions(rules, rs, hypothesis, fuel) == []
  {
    var xs := EachContribution(rules, rs, hypothesis, fuel);
    forall i | 0 <= i < |xs| ensures xs[i] == [] {
      NonMatchingRuleAddsNothing(rules, rs[i], hypothesis, fuel);
    }
    FlattenEmpty(xs);
  }

  /** If no rule's consequent matches, the goal tree is the hypothesis alone:
      `simplify(OR([hypothesis]))`. */
  lemma NoMatchingRule(rules: seq<Rule>, hypothesis: string, fuel: nat)
    requires forall i :: 0 <= i < |rules| ==> Consequent(rules[i]).None? || Match(Consequent(rules[i]).value, hypothesis).None?
    ensures Alternatives(rules, hypothesis, fuel) == [Leaf(hypothesis)]
    ensures GoalTree(rules, hypothesis, fuel) == Leaf(hypothesis)
  {
    if fuel > 0 {
      NothingContributed(rules, rules, hypothesis, fuel);
    }
    var alternatives := [Leaf(hypothesis)];
    assert Alternatives(rules, hypothesis, fuel) == alternatives;
    var ss := seq(|alternatives|, i requires 0 <= i < |alternatives| => Simplify(alternatives[i]));
    assert ss == alternatives;
    assert Splice(false, ss) == ss;
  }

  /** The goal tree is in the normal form `simplify` produces. */
  lemma GoalTreeSimplified(rules: seq<Rule>, hypothesis: string, fuel: nat)
    ensures Simplified(GoalTree(rules, hypothesis, fuel))
    ensures Simplify(GoalTree(rules, hypothesis, fuel)) == GoalTree(rules, hypothesis, fuel)
  {
    SimplifyFixesSimplified(GoalTree(rules, hypothesis, fuel));
  }

  /** Assuming the hypothesis is enough to satisfy its goal tree, whatever
      the rules are. */
  lemma HypothesisSatisfiesGoalTree(rules: seq<Rule>, hypothesis: string, fuel: nat, facts: set<string>)
    requires hypothesis in facts
    ensures Holds(GoalTree(rules, hypothesis, fuel), facts)
  {
    var alternatives := Alternatives(rules, hypothesis, fuel);
    SimplifyPreservesHolds(Or(alternatives), facts);
    assert Holds(alternatives[0], facts);
  }

  // ---------------------------------------------------------------------------
  // patterns with one variable
  //
  // A fact `e w1 ... wn` has the tokens `e`, `w1`, ..., `wn`, and the
  // zookeeper patterns are all `(?x) w1 ... wn` with literal words.

  /** The tokens of a fact `e w1 ... wn`. */
  lemma FactTokens(f: string, ws: seq<string>)
    requires |ws| >= 1 && forall i :: 0 <= i < |ws| ==> ' ' !in ws[i]
    requires f == Join(ws, " ")
    ensures Tokens(f) == ws
  {
    SplitJoin(ws, ' ');
  }

  /** The tokens of a pattern `(?x) w1 ... wn` with literal words. */
  lemma XTokens(p: string, words: seq<string>)
    requires forall i :: 0 <= i < |words| ==> ' ' !in words[i] && !IsVariable(words[i])
    requires p == Join(["(?x)"] + words, " ")
    ensures Tokens(p) == ["(?x)"] + words
  {
    var ts := ["(?x)"] + words;
    forall i | 0 <= i < |ts| ensures ' ' !in ts[i] {
      if i > 0 { assert ts[i] == words[i - 1]; }
    }
    FactTokens(p, ts);
  }

  /** A pattern of literal tokens matches exactly the equal tokens, and
      binds nothing more. */
  lemma {:induction false} MatchLiterals(ps: seq<string>, fs: seq<string>, b: Bindings)
    requires |ps| == |fs|
    requires forall i :: 0 <= i < |ps| ==> !IsVariable(ps[i])
    ensures MatchTokens(ps, fs, b) == if ps == fs then Some(b) else None
  {
    if ps != [] {
      MatchLiterals(ps[1..], fs[1..], b);
      assert ps == [ps[0]] + ps[1..] && fs == [fs[0]] + fs[1..];
    }
  }

  /** The tokens `(?x) w1 ... wn` match fact tokens exactly when those
      after the first are `w1 ... wn`; x is then bound to the first. */
  lemma MatchXTokens(words: seq<string>, fs: seq<string>)
    requires forall i :: 0 <= i < |words| ==> !IsVariable(words[i])
    requires |fs| == 1 + |words|
    ensures MatchTokens(["(?x)"] + words, fs, map[])
            == if fs[1..] == words then Some(map["x" := fs[0]]) else None
  {
    var ps := ["(?x)"] + words;
    assert IsVariable(ps[0]) && VarName(ps[0]) == "x";
    assert ps[1..] == words;
    MatchLiterals(words, fs[1..], map["x" := fs[0]]);
  }

  /** `(?x) w1 ... wn` matches a fact exactly when the fact's tokens after
      the first are `w1 ... wn`; x is then bound to the first token. */
  lemma MatchX(p: string, words: seq<string>, f: string)
    requires forall i :: 0 <= i < |words| ==> ' ' !in words[i] && !IsVariable(words[i])
    requires p == Join(["(?x)"] + words, " ")
    ensures Match(p, f) == if |Tokens(f)| == 1 + |words| && Tokens(f)[1..] == words
                           then Some(map["x" := Tokens(f)[0]]) else None
  {
    XTokens(p, words);
    var fs := Tokens(f);
    if |fs| == 1 + |words| {
      MatchXTokens(words, fs);
    }
  }

  /** Substituting `e` for x in `(?x) w1 ... wn` gives `e w1 ... wn`. */
  lemma SubstX(words: seq<string>, e: string)
    requires forall i :: 0 <= i < |words| ==> !IsVariable(words[i])
    ensures SubstTokens(["(?x)"] + words, map["x" := e]) == [e] + words
  {
    var ts, b := ["(?x)"] + words, map["x" := e];
    assert IsVariable(ts[0]) && VarName(ts[0]) == "x";
    var qs := SubstTokens(ts, b);
    forall i | 0 <= i < |qs| ensures qs[i] == ([e] + words)[i] {
      if i > 0 { assert ts[i] == words[i - 1]; }
    }
  }

  /** Populating `(?x) w1 ... wn` with x bound to `e` gives `e w1 ... wn`. */
  lemma PopulateX(p: string, words: seq<string>, e: string)
    requires |words| >= 1
    requires forall i :: 0 <= i < |words| ==> ' ' !in words[i] && !IsVariable(words[i])
    requires p == "(?x) " + Join(words, " ")
    ensures Populate(p, map["x" := e]) == Join([e] + words, " ")
  {
    XSpace();
    JoinFront("(?x)", words);
    XTokens(p, words);
    SubstX(words, e);
  }

  lemma XSpace()
    ensures "(?x)" + " " == "(?x) "
  {
  }

  /** Joining a word in front of at least one more. */
  lemma JoinFront(w: string, words: seq<string>)
    requires |words| >= 1
    ensures Join([w] + words, " ") == w + " " + Join(words, " ")
  {
    assert ([w] + words)[1..] == words;
  }

  /** Which zookeeper rules a fact matches. Consequent i is
      `(?x) is a <kind>`, so it matches the facts that read `e is a <kind>`
      in four tokens, binding x to e. (The rules are a parameter equal to
      the rule list, so that its patterns are not unfolded as literals.) */
  lemma ZookeeperMatch(rules: seq<Rule>, i: nat, f: string)
    requires rules == ZookeeperRules() && i < |rules|
    ensures var kind := ["vertebrate", "bird", "bird", "penguin"][i];
            Match(rules[i].actions[0], f)
            == if |Tokens(f)| == 4 && Tokens(f)[1..] == ["is", "a", kind]
               then Some(map["x" := Tokens(f)[0]]) else None
  {
    var p := rules[i].actions[0];
    var kind := ["vertebrate", "bird", "bird", "penguin"][i];
    if i == 0 {
      IsAKind(p, "vertebrate");
    } else if i == 3 {
      IsAKind(p, "penguin");
    } else {
      IsAKind(p, "bird");
    }
    MatchX(p, ["is", "a", kind], f);
  }

  /** `(?x) is a <kind>` as a list of tokens. */
  lemma IsAKind(p: string, kind: string)
    requires p == "(?x) is a " + kind
    ensures p == Join(["(?x)"] + ["is", "a", kind], " ")
  {
    var ws := ["(?x)", "is", "a", kind];
    assert ws[1..][1..][1..] == [kind];
    assert Join(ws[1..][1..], " ") == "a " + kind;
    assert Join(ws[1..], " ") == "is " + ("a " + kind);
    assert Join(ws, " ") == "(?x) " + ("is " + ("a " + kind));
    assert ["(?x)"] + ["is", "a", kind] == ws;
  }

  /** With no fuel left, the hypothesis is its own goal tree. */
  lemma OutOfFuel(rules: seq<Rule>, hypothesis: string)
    ensures GoalTree(rules, hypothesis, 0) == Leaf(hypothesis)
  {
    var alternatives := [Leaf(hypothesis)];
    assert Alternatives(rules, hypothesis, 0) == alternatives;
    var ss := seq(|alternatives|, i requires 0 <= i < |alternatives| => Simplify(alternatives[i]));
    assert ss == alternatives;
    assert Splice(false, ss) == ss;
  }

  /** The alternatives under four rules: the hypothesis, then what each
      rule contributes. */
  lemma FourRules(rules: seq<Rule>, hypothesis: string, fuel: nat,
                  c0: seq<Expr>, c1: seq<Expr>, c2: seq<Expr>, c3: seq<Expr>)
    requires fuel > 0
    requires EachContribution(rules, rules, hypothesis, fuel) == [c0, c1, c2, c3]
    ensures Alternatives(rules, hypothesis, fuel) == [Leaf(hypothesis)] + c0 + c1 + c2 + c3
  {
    FlattenFour(c0, c1, c2, c3);
  }

  lemma FourContributions(rules: seq<Rule>, hypothesis: string, fuel: nat)
    requires |rules| == 4 && fuel > 0
    ensures EachContribution(rules, rules, hypothesis, fuel)
            == [Contribution(rules, rules[0], hypothesis, fuel),
                Contribution(rules, rules[1], hypothesis, fuel),
                Contribution(rules, rules[2], hypothesis, fuel),
                Contribution(rules, rules[3], hypothesis, fuel)]
  {
  }

  /** Over four rules whose alternatives already form a simplified OR, the
      goal tree is that OR. */
  lemma FourRuleTree(rules: seq<Rule>, hypothesis: string, fuel: nat, tree: Expr)
    requires |rules| == 4 && fuel > 0
    requires tree.Or? && Simplified(tree)
    requires tree.children
             == [Leaf(hypothesis)] + Contribution(rules, rules[0], hypothesis, fuel)
                + Contribution(rules, rules[1], hypothesis, fuel)
                + Contribution(rules, rules[2], hypothesis, fuel)
                + Contribution(rules, rules[3], hypothesis, fuel)
    ensures GoalTree(rules, hypothesis, fuel) == tree
  {
    FourContributions(rules, hypothesis, fuel);
    FourRules(rules, hypothesis, fuel,
              Contribution(rules, rules[0], hypothesis, fuel),
              Contribution(rules, rules[1], hypothesis, fuel),
              Contribution(rules, rules[2], hypothesis, fuel),
              Contribution(rules, rules[3], hypothesis, fuel));
    assert Or(Alternatives(rules, hypothesis, fuel)) == tree;
    SimplifyFixesSimplified(tree);
  }

  /** The fact `e phrase` about the animal e. */
  function Fact(e: string, phrase: string): string {
    e + " " + phrase
  }

  /** The tokens of `e w1 ... wn`, given `w1 ... wn` as one phrase. */
  lemma EntityFact(e: string, words: seq<string>, phrase: string)
    requires ' ' !in e && |words| >= 1 && forall i :: 0 <= i < |words| ==> ' ' !in words[i]
    requires phrase == Join(words, " ")
    ensures Join([e] + words, " ") == Fact(e, phrase)
    ensures Tokens(Fact(e, phrase)) == [e] + words
  {
    var ws := [e] + words;
    assert ws[1..] == words;
    forall i | 0 <= i < |ws| ensures ' ' !in ws[i] {
      if i > 0 { assert ws[i] == words[i - 1]; }
    }
    FactTokens(Fact(e, phrase), ws);
  }

  /** Populating the condition `(?x) phrase` for the animal e gives the
      fact `e phrase`. */
  lemma PopulatesTo(p: string, words: seq<string>, phrase: string, e: string)
    requires |words| >= 1
    requires forall i :: 0 <= i < |words| ==> ' ' !in words[i] && !IsVariable(words[i])
    requires ' ' !in e
    requires phrase == Join(words, " ") && p == "(?x) " + phrase
    ensures Populate(p, map["x" := e]) == Fact(e, phrase)
  {
    PopulateX(p, words, e);
    EntityFact(e, words, phrase);
  }

  // ---------------------------------------------------------------------------
  // what the zookeeper rules do
  //
  // The goal trees below are worked out from what `zookeeper_rules` does,
  // not from its text: which facts each consequent matches and what each
  // condition populates to. The rule list is shown to behave so once, and
  // the goal-tree lemmas rely on that behaviour alone.

  /** The kind of animal consequent i concludes. */
  function ZookeeperKind(i: nat): string
    requires i < 4
  {
    ["vertebrate", "bird", "bird", "penguin"][i]
  }

  /** What `(?x) is a <kind>` matches: the four-token facts `e is a <kind>`,
      binding x to e. */
  function IsAMatch(f: string, kind: string): Option<Bindings> {
    var ts := Tokens(f);
    if |ts| == 4 && ts[1..] == ["is", "a", kind] then Some(map["x" := ts[0]]) else None
  }

  /** The bindings of a one-variable match: x is bound to e. */
  function XBinding(e: string): Bindings {
    map["x" := e]
  }

  /** A condition `(?x) phrase`: for any one-token animal e it populates to
      `e phrase`. */
  ghost predicate ConditionFor(c: Expr, phrase: string) {
    c.Leaf? &&
    forall e {:trigger Populate(c.pattern, XBinding(e))} ::
      ' ' !in e ==> Populate(c.pattern, XBinding(e)) == Fact(e, phrase)
  }

  /** What the consequent of rule i matches in the fact f. */
  function ConsequentMatch(rules: seq<Rule>, i: nat, f: string): Option<Bindings>
    requires i < |rules| && rules[i].actions != []
  {
    Match(rules[i].actions[0], f)
  }

  /** Four rules, each with an action, and rule i concludes
      `(?x) is a <kind i>`. */
  ghost predicate ConsequentsAreKinds(rules: seq<Rule>) {
    && |rules| == 4
    && (forall i :: 0 <= i < 4 ==> rules[i].actions != [])
    && (forall i, f {:trigger ConsequentMatch(rules, i, f)} ::
          0 <= i < 4 ==> ConsequentMatch(rules, i, f) == IsAMatch(f, ZookeeperKind(i)))
  }

  /** The bird rules ask `(?x) has feathers`, and `(?x) flies` AND
      `(?x) lays eggs`. */
  ghost predicate BirdConditions(rules: seq<Rule>) {
    && |rules| == 4
    && ConditionFor(rules[1].antecedent, "has feathers")
    && rules[2].antecedent.And? && |rules[2].antecedent.children| == 2
    && ConditionFor(rules[2].antecedent.children[0], "flies")
    && ConditionFor(rules[2].antecedent.children[1], "lays eggs")
  }

  /** The penguin rule asks `(?x) is a bird`, `(?x) does not fly`,
      `(?x) swims` AND `(?x) has black and white color`. */
  ghost predicate PenguinConditions(rules: seq<Rule>) {
    && |rules| == 4
    && rules[3].antecedent.And? && |rules[3].antecedent.children| == 4
    && ConditionFor(rules[3].antecedent.children[0], "is a bird")
    && ConditionFor(rules[3].antecedent.children[1], "does not fly")
    && ConditionFor(rules[3].antecedent.children[2], "swims")
    && ConditionFor(rules[3].antecedent.children[3], "has black and white color")
  }

  // The phrases of the zookeeper rules as lists of words, each worked out
  // on its own so that no other fact is in scope while its characters are
  // compared.

  lemma BirdPhrase()
    ensures Join(["is", "a", "bird"], " ") == "is a bird"
    ensures "is a " + "bird" == "is a bird"
    ensures "(?x) " + "is a bird" == "(?x) is a bird"
  {
  }

  lemma PenguinPhrase()
    ensures "is a " + "penguin" == "is a penguin"
  {
  }

  lemma FeathersPhrase()
    ensures Join(["has", "feathers"], " ") == "has feathers"
    ensures "(?x) " + "has feathers" == "(?x) has feathers"
  {
  }

  lemma FliesPhrase()
    ensures Join(["flies"], " ") == "flies"
    ensures "(?x) " + "flies" == "(?x) flies"
  {
  }

  lemma LaysEggsPhrase()
    ensures Join(["lays", "eggs"], " ") == "lays eggs"
    ensures "(?x) " + "lays eggs" == "(?x) lays eggs"
  {
  }

  lemma DoesNotFlyPhrase()
    ensures Join(["does", "not", "fly"], " ") == "does not fly"
    ensures "(?x) " + "does not fly" == "(?x) does not fly"
  {
  }

  lemma SwimsPhrase()
    ensures Join(["swims"], " ") == "swims"
    ensures "(?x) " + "swims" == "(?x) swims"
  {
  }

  lemma ColorPhrase()
    ensures Join(["has", "black", "and", "white", "color"], " ") == "has black and white color"
  {
  }

  lemma ColorPattern()
    ensures "(?x) " + "has black and white color" == "(?x) has black and white color"
  {
  }

  /** A literal condition `(?x) w1 ... wn` is a condition for `w1 ... wn`. */
  lemma XCondition(c: Expr, words: seq<string>, phrase: string)
    requires |words| >= 1
    requires forall i :: 0 <= i < |words| ==> ' ' !in words[i] && !IsVariable(words[i])
    requires phrase == Join(words, " ")
    requires c.Leaf? && c.pattern == "(?x) " + phrase
    ensures ConditionFor(c, phrase)
  {
    forall e | ' ' !in e ensures Populate(c.pattern, XBinding(e)) == Fact(e, phrase) {
      PopulatesTo(c.pattern, words, phrase, e);
    }
  }

  /** Every zookeeper consequent is `(?x) is a <kind>`. */
  lemma ZookeeperConsequents(rules: seq<Rule>)
    requires rules == ZookeeperRules()
    ensures ConsequentsAreKinds(rules)
  {
    forall i, f | 0 <= i < 4 ensures ConsequentMatch(rules, i, f) == IsAMatch(f, ZookeeperKind(i)) {
      ZookeeperMatch(rules, i, f);
    }
  }

  lemma HasFeathersCondition(rules: seq<Rule>)
    requires rules == ZookeeperRules()
    ensures ConditionFor(rules[1].antecedent, "has feathers")
  {
    FeathersPhrase();
    XCondition(rules[1].antecedent, ["has", "feathers"], "has feathers");
  }

  lemma FliesCondition(rules: seq<Rule>)
    requires rules == ZookeeperRules()
    ensures ConditionFor(rules[2].antecedent.children[0], "flies")
  {
    FliesPhrase();
    XCondition(rules[2].antecedent.children[0], ["flies"], "flies");
  }

  lemma LaysEggsCondition(rules: seq<Rule>)
    requires rules == ZookeeperRules()
    ensures ConditionFor(rules[2].antecedent.children[1], "lays eggs")
  {
    LaysEggsPhrase();
    XCondition(rules[2].antecedent.children[1], ["lays", "eggs"], "lays eggs");
  }

  lemma IsABirdCondition(rules: seq<Rule>)
    requires rules == ZookeeperRules()
    ensures ConditionFor(rules[3].antecedent.children[0], "is a bird")
  {
    BirdPhrase();
    XCondition(rules[3].antecedent.children[0], ["is", "a", "bird"], "is a bird");
  }

  lemma DoesNotFlyCondition(rules: seq<Rule>)
    requires rules == ZookeeperRules()
    ensures ConditionFor(rules[3].antecedent.children[1], "does not fly")
  {
    DoesNotFlyPhrase();
    XCondition(rules[3].antecedent.children[1], ["does", "not", "fly"], "does not fly");
  }

  lemma SwimsCondition(rules: seq<Rule>)
    requires rules == ZookeeperRules()
    ensures ConditionFor(rules[3].antecedent.children[2], "swims")
  {
    SwimsPhrase();
    XCondition(rules[3].antecedent.children[2], ["swims"], "swims");
  }

  lemma ColorCondition(rules: seq<Rule>)
    requires rules == ZookeeperRules()
    ensures ConditionFor(rules[3].antecedent.children[3], "has black and white color")
  {
    ColorPhrase();
    ColorPattern();
    XCondition(rules[3].antecedent.children[3], ["has", "black", "and", "white", "color"],
               "has black and white color");
  }

  /** The conditions of the two bird rules. */
  lemma ZookeeperBirdConditions(rules: seq<Rule>)
    requires rules == ZookeeperRules()
    ensures BirdConditions(rules)
  {
    HasFeathersCondition(rules);
    FliesCondition(rules);
    LaysEggsCondition(rules);
  }

  /** The conditions of the penguin rule. */
  lemma ZookeeperPenguinConditions(rules: seq<Rule>)
    requires rules == ZookeeperRules()
    ensures PenguinConditions(rules)
  {
    IsABirdCondition(rules);
    DoesNotFlyCondition(rules);
    SwimsCondition(rules);
    ColorCondition(rules);
  }

  // ---------------------------------------------------------------------------
  // the zookeeper goal trees
  //
  // The goal trees the original builds from `zookeeper_rules`, worked out
  // for any one-token animal name e and any depth that lets the rules be
  // tried.

  /** A fact that does not read `e is ...` in four tokens is its own goal
      tree: no zookeeper rule concludes it. */
  lemma NotAnIsAFact(rules: seq<Rule>, f: string, fuel: nat)
    requires ConsequentsAreKinds(rules)
    requires |Tokens(f)| != 4 || Tokens(f)[1] != "is"
    ensures GoalTree(rules, f, fuel) == Leaf(f)
  {
    forall i | 0 <= i < |rules|
      ensures Consequent(rules[i]).None? || Match(Consequent(rules[i]).value, f).None?
    {
      assert ConsequentMatch(rules, i, f) == IsAMatch(f, ZookeeperKind(i));
      var ts := Tokens(f);
      assert |ts| == 4 ==> ts[1..][0] == ts[1];
    }
    NoMatchingRule(rules, f, fuel);
  }

  /** A fact `e phrase` whose phrase does not read `is ...` in three words
      is a leaf of the zookeeper goal tree. */
  lemma FactIsLeaf(rules: seq<Rule>, words: seq<string>, phrase: string, e: string, fuel: nat)
    requires ConsequentsAreKinds(rules)
    requires |words| >= 1 && forall i :: 0 <= i < |words| ==> ' ' !in words[i]
    requires ' ' !in e
    requires phrase == Join(words, " ")
    requires |words| != 3 || words[0] != "is"
    ensures GoalTree(rules, Fact(e, phrase), fuel) == Leaf(Fact(e, phrase))
  {
    EntityFact(e, words, phrase);
    assert |words| == 3 ==> ([e] + words)[1] == words[0];
    NotAnIsAFact(rules, Fact(e, phrase), fuel);
  }

  // the conditions no zookeeper rule concludes stay leaves

  lemma FeathersLeaf(rules: seq<Rule>, e: string, fuel: nat)
    requires ConsequentsAreKinds(rules) && ' ' !in e
    ensures GoalTree(rules, Fact(e, "has feathers"), fuel) == Leaf(Fact(e, "has feathers"))
  {
    FeathersPhrase();
    FactIsLeaf(rules, ["has", "feathers"], "has feathers", e, fuel);
  }

  lemma FliesLeaf(rules: seq<Rule>, e: string, fuel: nat)
    requires ConsequentsAreKinds(rules) && ' ' !in e
    ensures GoalTree(rules, Fact(e, "flies"), fuel) == Leaf(Fact(e, "flies"))
  {
    FliesPhrase();
    FactIsLeaf(rules, ["flies"], "flies", e, fuel);
  }

  lemma LaysEggsLeaf(rules: seq<Rule>, e: string, fuel: nat)
    requires ConsequentsAreKinds(rules) && ' ' !in e
    ensures GoalTree(rules, Fact(e, "lays eggs"), fuel) == Leaf(Fact(e, "lays eggs"))
  {
    LaysEggsPhrase();
    FactIsLeaf(rules, ["lays", "eggs"], "lays eggs", e, fuel);
  }

  lemma DoesNotFlyLeaf(rules: seq<Rule>, e: string, fuel: nat)
    requires ConsequentsAreKinds(rules) && ' ' !in e
    ensures GoalTree(rules, Fact(e, "does not fly"), fuel) == Leaf(Fact(e, "does not fly"))
  {
    DoesNotFlyPhrase();
    FactIsLeaf(rules, ["does", "not", "fly"], "does not fly", e, fuel);
  }

  lemma SwimsLeaf(rules: seq<Rule>, e: string, fuel: nat)
    requires ConsequentsAreKinds(rules) && ' ' !in e
    ensures GoalTree(rules, Fact(e, "swims"), fuel) == Leaf(Fact(e, "swims"))
  {
    SwimsPhrase();
    FactIsLeaf(rules, ["swims"], "swims", e, fuel);
  }

  lemma ColorLeaf(rules: seq<Rule>, e: string, fuel: nat)
    requires ConsequentsAreKinds(rules) && ' ' !in e
    ensures GoalTree(rules, Fact(e, "has black and white color"), fuel) == Leaf(Fact(e, "has black and white color"))
  {
    ColorPhrase();
    FactIsLeaf(rules, ["has", "black", "and", "white", "color"], "has black and white color", e, fuel);
  }

  /** The phrase `is a <kind>` as a list of words. */
  lemma IsAWords(kind: string)
    ensures Join(["is", "a", kind], " ") == "is a " + kind
  {
    var ws := ["is", "a", kind];
    assert ws[1..][1..] == [kind];
    assert Join(ws[1..], " ") == "a " + kind;
    assert "is a " + kind == "is " + ("a " + kind);
  }

  /** Rule i matches `e is a <kind i>`, binding x to e, and no rule for
      another kind matches it. */
  lemma KindMatches(rules: seq<Rule>, i: nat, e: string, kind: string, phrase: string)
    requires ConsequentsAreKinds(rules) && i < 4
    requires ' ' !in e && ' ' !in kind
    requires phrase == "is a " + kind
    ensures Match(rules[i].actions[0], Fact(e, phrase))
            == if kind == ZookeeperKind(i) then Some(map["x" := e]) else None
  {
    IsAWords(kind);
    EntityFact(e, ["is", "a", kind], phrase);
    assert ConsequentMatch(rules, i, Fact(e, phrase)) == IsAMatch(Fact(e, phrase), ZookeeperKind(i));
    assert ([e] + ["is", "a", kind])[1..] == ["is", "a", kind];
  }

  /** The goal tree of `e is a bird`: it holds outright, or because e has
      feathers, or because e flies and lays eggs. */
  function BirdTree(e: string): Expr {
    Or([Leaf(Fact(e, "is a bird")),
        Leaf(Fact(e, "has feathers")),
        And([Leaf(Fact(e, "flies")), Leaf(Fact(e, "lays eggs"))])])
  }

  lemma BirdTreeSimplified(e: string)
    ensures BirdTree(e).Or? && Simplified(BirdTree(e))
  {
    var t := BirdTree(e);
    assert Simplified(t.children[2]);
  }

  /** The vertebrate and penguin rules add nothing to `e is a bird`. */
  lemma OtherRulesAddNothing(rules: seq<Rule>, e: string, fuel: nat)
    requires ConsequentsAreKinds(rules)
    requires ' ' !in e && fuel >= 1
    ensures Contribution(rules, rules[0], Fact(e, "is a bird"), fuel) == []
    ensures Contribution(rules, rules[3], Fact(e, "is a bird"), fuel) == []
  {
    var h := Fact(e, "is a bird");
    BirdPhrase();
    KindMatches(rules, 0, e, "bird", "is a bird");
    KindMatches(rules, 3, e, "bird", "is a bird");
    NonMatchingRuleAddsNothing(rules, rules[0], h, fuel);
    NonMatchingRuleAddsNothing(rules, rules[3], h, fuel);
  }

  /** `(?x) has feathers` gives `e is a bird` the alternative `e has feathers`. */
  lemma FeathersAlternative(rules: seq<Rule>, e: string, fuel: nat)
    requires ConsequentsAreKinds(rules) && ConditionFor(rules[1].antecedent, "has feathers")
    requires ' ' !in e && fuel >= 1
    ensures Contribution(rules, rules[1], Fact(e, "is a bird"), fuel) == [Leaf(Fact(e, "has feathers"))]
  {
    var b := XBinding(e);
    BirdPhrase();
    KindMatches(rules, 1, e, "bird", "is a bird");
    PatternAntecedentContribution(rules, rules[1], Fact(e, "is a bird"), fuel, b);
    FeathersLeaf(rules, e, fuel - 1);
  }

  /** `(?x) flies` and `(?x) lays eggs` give `e is a bird` the alternative
      AND(`e flies`, `e lays eggs`). */
  lemma FliesAndLaysEggsAlternative(rules: seq<Rule>, e: string, fuel: nat)
    requires ConsequentsAreKinds(rules)
    requires rules[2].antecedent.And? && |rules[2].antecedent.children| == 2
    requires ConditionFor(rules[2].antecedent.children[0], "flies")
    requires ConditionFor(rules[2].antecedent.children[1], "lays eggs")
    requires ' ' !in e && fuel >= 1
    ensures Contribution(rules, rules[2], Fact(e, "is a bird"), fuel)
            == [And([Leaf(Fact(e, "flies")), Leaf(Fact(e, "lays eggs"))])]
  {
    var b := XBinding(e);
    var cs := rules[2].antecedent.children;
    BirdPhrase();
    KindMatches(rules, 2, e, "bird", "is a bird");
    ConnectiveAntecedentContribution(rules, rules[2], Fact(e, "is a bird"), fuel, b);
    assert PopulateExpr(cs[0], b) == Leaf(Fact(e, "flies"));
    assert PopulateExpr(cs[1], b) == Leaf(Fact(e, "lays eggs"));
    FliesLeaf(rules, e, fuel - 1);
    LaysEggsLeaf(rules, e, fuel - 1);
    var t := Contribution(rules, rules[2], Fact(e, "is a bird"), fuel)[0];
    assert t.children == [Leaf(Fact(e, "flies")), Leaf(Fact(e, "lays eggs"))];
  }

  /** The alternatives of `e is a bird`, rule by rule. */
  lemma BirdAlternatives(rules: seq<Rule>, e: string, fuel: nat)
    requires ConsequentsAreKinds(rules) && BirdConditions(rules)
    requires ' ' !in e && fuel >= 1
    ensures BirdTree(e).children
            == [Leaf(Fact(e, "is a bird"))]
               + Contribution(rules, rules[0], Fact(e, "is a bird"), fuel)
               + Contribution(rules, rules[1], Fact(e, "is a bird"), fuel)
               + Contribution(rules, rules[2], Fact(e, "is a bird"), fuel)
               + Contribution(rules, rules[3], Fact(e, "is a bird"), fuel)
  {
    OtherRulesAddNothing(rules, e, fuel);
    FeathersAlternative(rules, e, fuel);
    FliesAndLaysEggsAlternative(rules, e, fuel);
  }

  /** `backchain_to_goal_tree(zookeeper_rules, e + ' is a bird')` for any
      one-token animal name e, at any depth that lets a rule be tried. */
  lemma BirdGoalTree(rules: seq<Rule>, e: string, fuel: nat)
    requires ConsequentsAreKinds(rules) && BirdConditions(rules)
    requires ' ' !in e && fuel >= 1
    ensures GoalTree(rules, Fact(e, "is a bird"), fuel) == BirdTree(e)
  {
    BirdAlternatives(rules, e, fuel);
    BirdTreeSimplified(e);
    FourRuleTree(rules, Fact(e, "is a bird"), fuel, BirdTree(e));
  }

  /** The goal tree of `e is a penguin`, around the goal tree `bird` of
      `e is a bird` one level down. */
  function PenguinTree(e: string, bird: Expr): Expr {
    Or([Leaf(Fact(e, "is a penguin")),
        And([bird,
             Leaf(Fact(e, "does not fly")),
             Leaf(Fact(e, "swims")),
             Leaf(Fact(e, "has black and white color"))])])
  }

  lemma PenguinTreeSimplified(e: string, bird: Expr)
    requires Simplified(bird) && !bird.And?
    ensures PenguinTree(e, bird).Or? && Simplified(PenguinTree(e, bird))
  {
    var t := PenguinTree(e, bird);
    assert Simplified(t.children[1]);
  }

  /** The vertebrate and bird rules add nothing to `e is a penguin`. */
  lemma NonPenguinRulesAddNothing(rules: seq<Rule>, e: string, fuel: nat)
    requires ConsequentsAreKinds(rules)
    requires ' ' !in e && fuel >= 1
    ensures Contribution(rules, rules[0], Fact(e, "is a penguin"), fuel) == []
    ensures Contribution(rules, rules[1], Fact(e, "is a penguin"), fuel) == []
    ensures Contribution(rules, rules[2], Fact(e, "is a penguin"), fuel) == []
  {
    var h := Fact(e, "is a penguin");
    PenguinPhrase();
    KindMatches(rules, 0, e, "penguin", "is a penguin");
    KindMatches(rules, 1, e, "penguin", "is a penguin");
    KindMatches(rules, 2, e, "penguin", "is a penguin");
    NonMatchingRuleAddsNothing(rules, rules[0], h, fuel);
    NonMatchingRuleAddsNothing(rules, rules[1], h, fuel);
    NonMatchingRuleAddsNothing(rules, rules[2], h, fuel);
  }

  /** A single AND with the four given children. */
  lemma SingleAnd(ts: seq<Expr>, g0: Expr, g1: Expr, g2: Expr, g3: Expr)
    requires |ts| == 1 && ts[0].And? && |ts[0].children| == 4
    requires ts[0].children[0] == g0 && ts[0].children[1] == g1
    requires ts[0].children[2] == g2 && ts[0].children[3] == g3
    ensures ts == [And([g0, g1, g2, g3])]
  {
    assert ts[0].children == [g0, g1, g2, g3];
  }

  /** The penguin rule matches `e is a penguin` and contributes the AND of
      the goal trees of its four populated conditions. */
  lemma PenguinContribution(rules: seq<Rule>, e: string, fuel: nat)
    requires ConsequentsAreKinds(rules)
    requires rules[3].antecedent.And? && |rules[3].antecedent.children| == 4
    requires ConditionFor(rules[3].antecedent.children[0], "is a bird")
    requires ConditionFor(rules[3].antecedent.children[1], "does not fly")
    requires ConditionFor(rules[3].antecedent.children[2], "swims")
    requires ConditionFor(rules[3].antecedent.children[3], "has black and white color")
    requires ' ' !in e && fuel >= 1
    ensures |Contribution(rules, rules[3], Fact(e, "is a penguin"), fuel)| == 1
    ensures var t := Contribution(rules, rules[3], Fact(e, "is a penguin"), fuel)[0];
            && t.And? && |t.children| == 4
            && t.children[0] == GoalTree(rules, Fact(e, "is a bird"), fuel - 1)
            && t.children[1] == GoalTree(rules, Fact(e, "does not fly"), fuel - 1)
            && t.children[2] == GoalTree(rules, Fact(e, "swims"), fuel - 1)
            && t.children[3] == GoalTree(rules, Fact(e, "has black and white color"), fuel - 1)
  {
    var b := XBinding(e);
    var cs := rules[3].antecedent.children;
    PenguinPhrase();
    KindMatches(rules, 3, e, "penguin", "is a penguin");
    ConnectiveAntecedentContribution(rules, rules[3], Fact(e, "is a penguin"), fuel, b);
    assert PopulateExpr(cs[0], b) == Leaf(Fact(e, "is a bird"));
    assert PopulateExpr(cs[1], b) == Leaf(Fact(e, "does not fly"));
    assert PopulateExpr(cs[2], b) == Leaf(Fact(e, "swims"));
    assert PopulateExpr(cs[3], b) == Leaf(Fact(e, "has black and white color"));
  }

  /** The last three penguin conditions are leaves. */
  lemma PenguinLeaves(rules: seq<Rule>, e: string, fuel: nat, t: Expr)
    requires ConsequentsAreKinds(rules)
    requires ' ' !in e && fuel >= 1
    requires t.And? && |t.children| == 4
    requires t.children[1] == GoalTree(rules, Fact(e, "does not fly"), fuel - 1)
    requires t.children[2] == GoalTree(rules, Fact(e, "swims"), fuel - 1)
    requires t.children[3] == GoalTree(rules, Fact(e, "has black and white color"), fuel - 1)
    ensures t.children[1] == Leaf(Fact(e, "does not fly"))
    ensures t.children[2] == Leaf(Fact(e, "swims"))
    ensures t.children[3] == Leaf(Fact(e, "has black and white color"))
  {
    DoesNotFlyLeaf(rules, e, fuel - 1);
    SwimsLeaf(rules, e, fuel - 1);
    ColorLeaf(rules, e, fuel - 1);
  }

  /** The penguin rule gives `e is a penguin` the alternative AND(goal tree
      of `e is a bird`, `e does not fly`, `e swims`, `e has black and white
      color`). */
  lemma PenguinAlternative(rules: seq<Rule>, e: string, fuel: nat)
    requires ConsequentsAreKinds(rules)
    requires rules[3].antecedent.And? && |rules[3].antecedent.children| == 4
    requires ConditionFor(rules[3].antecedent.children[0], "is a bird")
    requires ConditionFor(rules[3].antecedent.children[1], "does not fly")
    requires ConditionFor(rules[3].antecedent.children[2], "swims")
    requires ConditionFor(rules[3].antecedent.children[3], "has black and white color")
    requires ' ' !in e && fuel >= 1
    ensures Contribution(rules, rules[3], Fact(e, "is a penguin"), fuel)
            == [And([GoalTree(rules, Fact(e, "is a bird"), fuel - 1),
                     Leaf(Fact(e, "does not fly")),
                     Leaf(Fact(e, "swims")),
                     Leaf(Fact(e, "has black and white color"))])]
  {
    PenguinContribution(rules, e, fuel);
    PenguinLeaves(rules, e, fuel, Contribution(rules, rules[3], Fact(e, "is a penguin"), fuel)[0]);
    SingleAnd(Contribution(rules, rules[3], Fact(e, "is a penguin"), fuel),
              GoalTree(rules, Fact(e, "is a bird"), fuel - 1),
              Leaf(Fact(e, "does not fly")), Leaf(Fact(e, "swims")),
              Leaf(Fact(e, "has black and white color")));
  }

  /** The alternatives of `e is a penguin`, rule by rule. */
  lemma PenguinAlternatives(rules: seq<Rule>, e: string, fuel: nat, bird: Expr)
    requires ConsequentsAreKinds(rules)
    requires rules[3].antecedent.And? && |rules[3].antecedent.children| == 4
    requires ConditionFor(rules[3].antecedent.children[0], "is a bird")
    requires ConditionFor(rules[3].antecedent.children[1], "does not fly")
    requires ConditionFor(rules[3].antecedent.children[2], "swims")
    requires ConditionFor(rules[3].antecedent.children[3], "has black and white color")
    requires ' ' !in e && fuel >= 1
    requires GoalTree(rules, Fact(e, "is a bird"), fuel - 1) == bird
    ensures PenguinTree(e, bird).children
            == [Leaf(Fact(e, "is a penguin"))]
               + Contribution(rules, rules[0], Fact(e, "is a penguin"), fuel)
               + Contribution(rules, rules[1], Fact(e, "is a penguin"), fuel)
               + Contribution(rules, rules[2], Fact(e, "is a penguin"), fuel)
               + Contribution(rules, rules[3], Fact(e, "is a penguin"), fuel)
  {
    NonPenguinRulesAddNothing(rules, e, fuel);
    PenguinAlternative(rules, e, fuel);
  }

  /** The goal tree of `e is a penguin`, given the goal tree `bird` of
      `e is a bird` one level down. */
  lemma PenguinGoalTreeAround(rules: seq<Rule>, e: string, fuel: nat, bird: Expr)
    requires ConsequentsAreKinds(rules)
    requires rules[3].antecedent.And? && |rules[3].antecedent.children| == 4
    requires ConditionFor(rules[3].antecedent.children[0], "is a bird")
    requires ConditionFor(rules[3].antecedent.children[1], "does not fly")
    requires ConditionFor(rules[3].antecedent.children[2], "swims")
    requires ConditionFor(rules[3].antecedent.children[3], "has black and white color")
    requires ' ' !in e && fuel >= 1
    requires GoalTree(rules, Fact(e, "is a bird"), fuel - 1) == bird
    requires Simplified(bird) && !bird.And?
    ensures GoalTree(rules, Fact(e, "is a penguin"), fuel) == PenguinTree(e, bird)
  {
    PenguinAlternatives(rules, e, fuel, bird);
    PenguinTreeSimplified(e, bird);
    FourRuleTree(rules, Fact(e, "is a penguin"), fuel, PenguinTree(e, bird));
  }

  /** `backchain_to_goal_tree(zookeeper_rules, e + ' is a penguin')` for any
      one-token e: the penguin rule's AND, whose first condition expands to
      the bird tree when there is depth left for it. */
  lemma PenguinGoalTree(rules: seq<Rule>, e: string, fuel: nat)
    requires ConsequentsAreKinds(rules) && BirdConditions(rules) && PenguinConditions(rules)
    requires ' ' !in e && fuel >= 1
    ensures GoalTree(rules, Fact(e, "is a penguin"), fuel)
            == PenguinTree(e, if fuel >= 2 then BirdTree(e) else Leaf(Fact(e, "is a bird")))
  {
    if fuel >= 2 {
      BirdGoalTree(rules, e, fuel - 1);
      BirdTreeSimplified(e);
      PenguinGoalTreeAround(rules, e, fuel, BirdTree(e));
    } else {
      OutOfFuel(rules, Fact(e, "is a bird"));
      PenguinGoalTreeAround(rules, e, fuel, Leaf(Fact(e, "is a bird")));
    }
  }

  // ---------------------------------------------------------------------------
  // opus

  lemma OpusBirdFacts()
    ensures Fact("opus", "is a bird") == "opus is a bird"
    ensures Fact("opus", "has feathers") == "opus has feathers"
    ensures Fact("opus", "flies") == "opus flies"
    ensures Fact("opus", "lays eggs") == "opus lays eggs"
  {
  }

  lemma OpusPenguinFacts()
    ensures Fact("opus", "is a penguin") == "opus is a penguin"
    ensures Fact("opus", "does not fly") == "opus does not fly"
    ensures Fact("opus", "swims") == "opus swims"
  {
  }

  lemma OpusColorFact()
    ensures Fact("opus", "has black and white color") == "opus has black and white color"
  {
  }

  /** `backchain_to_goal_tree(zookeeper_rules, 'opus is a bird')`. */
  lemma OpusIsABird(fuel: nat)
    requires fuel >= 1
    ensures GoalTree(ZookeeperRules(), "opus is a bird", fuel)
            == Or([Leaf("opus is a bird"),
                   Leaf("opus has feathers"),
                   And([Leaf("opus flies"), Leaf("opus lays eggs")])])
  {
    var rules := ZookeeperRules();
    ZookeeperConsequents(rules);
    ZookeeperBirdConditions(rules);
    BirdGoalTree(rules, "opus", fuel);
    OpusBirdFacts();
  }

  /** `backchain_to_goal_tree(zookeeper_rules, 'opus is a penguin')`, the
      query the rule file ends with: the penguin rule's four conditions, the
      first of them expanded by the two bird rules. */
  lemma OpusIsAPenguin(fuel: nat)
    requires fuel >= 2
    ensures GoalTree(ZookeeperRules(), "opus is a penguin", fuel)
            == Or([Leaf("opus is a penguin"),
                   And([Or([Leaf("opus is a bird"),
                            Leaf("opus has feathers"),
                            And([Leaf("opus flies"), Leaf("opus lays eggs")])]),
                        Leaf("opus does not fly"),
                        Leaf("opus swims"),
                        Leaf("opus has black and white color")])])
  {
    var rules := ZookeeperRules();
    ZookeeperConsequents(rules);
    ZookeeperBirdConditions(rules);
    ZookeeperPenguinConditions(rules);
    PenguinGoalTree(rules, "opus", fuel);
    OpusBirdFacts();
    OpusPenguinFacts();
    OpusColorFact();
  }
}
