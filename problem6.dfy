/**
  The second copy of `backchain_to_goal_tree` (Problem6.py). It is written
  out again, loop for loop, and proved to build the same goal tree as the
  specification in the Inference module, so the two copies agree on every
  rule list and hypothesis.
 */
module Problem6 {
  import opened Wrappers
  import opened Production
  import Inference

  /** `backchain_to_goal_tree`: the hypothesis first, then one alternative
      per matching rule in rule order, and `simplify(OR(alternatives))`. */
  method BackchainToGoalTree(rules: seq<Rule>, hypothesis: string, fuel: nat) returns (tree: Expr)
    ensures tree == Inference.GoalTree(rules, hypothesis, fuel)
    decreases fuel, 2
  {
    var alternatives := [Leaf(hypothesis)];
    if fuel > 0 {
      for i := 0 to |rules|
        invariant alternatives == [Leaf(hypothesis)] + Inference.Contributions(rules, rules[..i], hypothesis, fuel)
      {
        var rule := rules[i];
        assert rules[..i + 1] == rules[..i] + [rule];
        Inference.ContributionsSnoc(rules, rules[..i], rule, hypothesis, fuel);
        var added := RuleAlternative(rules, rule, hypothesis, fuel);
        alternatives := alternatives + added;
      }
      assert rules[..|rules|] == rules;
    } else {
      assert alternatives == [Leaf(hypothesis)] + [];
    }
    assert alternatives == Inference.Alternatives(rules, hypothesis, fuel);
    tree := Simplify(Or(alternatives));
  }

  /** The body of the rule loop: what one rule adds to `alternatives` --
      nothing unless its first action matches the hypothesis, otherwise the
      goal tree of the instantiated antecedent (a condition, or an AND / OR
      of the goal trees of its conditions). */
  method RuleAlternative(rules: seq<Rule>, rule: Rule, hypothesis: string, fuel: nat) returns (added: seq<Expr>)
    requires fuel > 0
    ensures added == Inference.Contribution(rules, rule, hypothesis, fuel)
    ensures |added| <= 1
    decreases fuel, 1
  {
    added := [];
    var consequent := Consequent(rule);
    var bindings := if consequent.Some? then Match(consequent.value, hypothesis) else None;
    if bindings.Some? {
      if rule.antecedent.Leaf? {
        var instantiated := Populate(rule.antecedent.pattern, bindings.value);
        var subtree := BackchainToGoalTree(rules, instantiated, fuel - 1);
        added := [subtree];
      } else {
        var instantiatedAnt := PopulateExpr(rule.antecedent, bindings.value);
        if instantiatedAnt.And? {
          var subgoals := Subgoals(rules, instantiatedAnt.children, fuel - 1);
          added := [And(subgoals)];
        } else if instantiatedAnt.Or? {
          var subgoals := Subgoals(rules, instantiatedAnt.children, fuel - 1);
          added := [Or(subgoals)];
        }
      }
    }
  }

  /** The `subgoals` loop: one goal tree per condition, in order. */
  method Subgoals(rules: seq<Rule>, conditions: seq<Expr>, fuel: nat) returns (subgoals: seq<Expr>)
    ensures subgoals == Inference.SubgoalTrees(rules, conditions, fuel)
    decreases fuel, 3
  {
    subgoals := [];
    for j := 0 to |conditions|
      invariant subgoals == Inference.SubgoalTrees(rules, conditions[..j], fuel)
    {
      assert conditions[..j + 1][..j] == conditions[..j];
      var condition := conditions[j];
      var subgoal;
      if condition.Leaf? {
        subgoal := BackchainToGoalTree(rules, condition.pattern, fuel);
      } else {
        subgoal := Simplify(Or([condition]));
      }
      subgoals := subgoals + [subgoal];
    }
    assert conditions[..|conditions|] == conditions;
  }

  /** Both copies compute the same goal tree. */
  method SameAsInference(rules: seq<Rule>, hypothesis: string, fuel: nat) returns (same: bool)
    ensures same
  {
    var mine := BackchainToGoalTree(rules, hypothesis, fuel);
    var theirs := Inference.BackchainToGoalTree(rules, hypothesis, fuel);
    same := mine == theirs;
  }
}
