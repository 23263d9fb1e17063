/**
  The family rule set as a module of its own (`family_rules` in
  Problem5.py), with the checks a rule author would run on it: the
  consequents and the NOT clauses use bound variables only, and the rules
  fit together as the names suggest.
 */
module Problem5 {
  import opened Text
  import opened Production
  import Inference

  /** `family_rules()`. */
  function FamilyRules(): seq<Rule> {
    [ Rule(Leaf("person (?x)"), ["self (?x) (?x)"]),
      Rule(Leaf("parent (?x) (?y)"), ["child (?y) (?x)"]),
      Rule(And([Leaf("parent (?p) (?x)"), Leaf("parent (?p) (?y)"), Not(Leaf("self (?x) (?y)"))]),
           ["sibling (?x) (?y)"]),
      Rule(And([Leaf("parent (?x) (?z)"), Leaf("parent (?z) (?y)")]),
           ["grandparent (?x) (?y)"]),
      Rule(Leaf("grandparent (?x) (?y)"), ["grandchild (?y) (?x)"]),
      Rule(And([Leaf("parent (?px) (?x)"), Leaf("parent (?py) (?y)"),
                Leaf("sibling (?px) (?py)"), Not(Leaf("sibling (?x) (?y)"))]),
           ["cousin (?x) (?y)"]) ]
  }

  /** The same list as the one defined beside the goal-tree builder. */
  lemma SameAsInference()
    ensures FamilyRules() == Inference.FamilyRules()
  {
  }

  /** The relation each rule concludes, in list order. */
  function Relations(): seq<string> {
    ["self", "child", "sibling", "grandparent", "grandchild", "cousin"]
  }

  // ---------------------------------------------------------------------------
  // the patterns
  //
  // Every pattern of the list has the shape `rel (?a) (?b)` or `rel (?a)`;
  // each lemma reads off the relation and the variables of one of them.

  lemma PersonX(p: string)
    requires p == "person (?x)"
    ensures PatternVars(p) == {"x"}
  {
    UnaryPattern(p, "person", "x");
  }

  lemma SelfXX(p: string)
    requires p == "self (?x) (?x)"
    ensures PatternVars(p) == {"x"}
  {
    BinaryPattern(p, "self", "x", "x");
  }

  lemma ParentXY(p: string)
    requires p == "parent (?x) (?y)"
    ensures PatternVars(p) == {"x", "y"}
  {
    BinaryPattern(p, "parent", "x", "y");
  }

  lemma ChildYX(p: string)
    requires p == "child (?y) (?x)"
    ensures PatternVars(p) == {"x", "y"}
  {
    BinaryPattern(p, "child", "y", "x");
  }

  lemma ParentPX(p: string)
    requires p == "parent (?p) (?x)"
    ensures PatternVars(p) == {"p", "x"}
  {
    BinaryPattern(p, "parent", "p", "x");
  }

  lemma ParentPY(p: string)
    requires p == "parent (?p) (?y)"
    ensures PatternVars(p) == {"p", "y"}
  {
    BinaryPattern(p, "parent", "p", "y");
  }

  lemma SelfXY(p: string)
    requires p == "self (?x) (?y)"
    ensures PatternVars(p) == {"x", "y"}
  {
    BinaryPattern(p, "self", "x", "y");
  }

  lemma SiblingXY(p: string)
    requires p == "sibling (?x) (?y)"
    ensures PatternVars(p) == {"x", "y"}
  {
    BinaryPattern(p, "sibling", "x", "y");
  }

  lemma ParentXZ(p: string)
    requires p == "parent (?x) (?z)"
    ensures PatternVars(p) == {"x", "z"}
  {
    BinaryPattern(p, "parent", "x", "z");
  }

  lemma ParentZY(p: string)
    requires p == "parent (?z) (?y)"
    ensures PatternVars(p) == {"y", "z"}
  {
    BinaryPattern(p, "parent", "z", "y");
  }

  lemma GrandparentXY(p: string)
    requires p == "grandparent (?x) (?y)"
    ensures PatternVars(p) == {"x", "y"}
  {
    BinaryPattern(p, "grandparent", "x", "y");
  }

  lemma GrandchildYX(p: string)
    requires p == "grandchild (?y) (?x)"
    ensures PatternVars(p) == {"x", "y"}
  {
    BinaryPattern(p, "grandchild", "y", "x");
  }

  lemma ParentPxX(p: string)
    requires p == "parent (?px) (?x)"
    ensures PatternVars(p) == {"px", "x"}
  {
    BinaryPattern(p, "parent", "px", "x");
  }

  lemma ParentPyY(p: string)
    requires p == "parent (?py) (?y)"
    ensures PatternVars(p) == {"py", "y"}
  {
    BinaryPattern(p, "parent", "py", "y");
  }

  lemma CousinXY(p: string)
    requires p == "cousin (?x) (?y)"
    ensures PatternVars(p) == {"x", "y"}
  {
    BinaryPattern(p, "cousin", "x", "y");
  }

  // ---------------------------------------------------------------------------
  // well-formedness

  /** Six rules, one action each, concluding self, child, sibling,
      grandparent, grandchild and cousin, in that order. */
  lemma RuleOrder()
    ensures |FamilyRules()| == |Relations()| == 6
    ensures forall i :: 0 <= i < 6 ==>
              |FamilyRules()[i].actions| == 1 && StartsWith(FamilyRules()[i].actions[0], Relations()[i] + " ")
  {
  }

  /** Each consequent uses only variables its antecedent binds. */
  lemma ConsequentBound(i: nat)
    requires i < |FamilyRules()|
    ensures |FamilyRules()[i].actions| == 1
    ensures PatternVars(FamilyRules()[i].actions[0]) <= BoundVars(FamilyRules()[i].antecedent)
  {
    if i == 0 {
      SelfBound();
    } else if i == 1 {
      ChildBound();
    } else if i == 2 {
      SiblingBound();
    } else if i == 3 {
      GrandparentBound();
    } else if i == 4 {
      GrandchildBound();
    } else {
      CousinBound();
    }
  }

  lemma SelfBound()
    ensures PatternVars(FamilyRules()[0].actions[0]) <= BoundVars(FamilyRules()[0].antecedent)
  {
    var rule := FamilyRules()[0];
    PersonX(rule.antecedent.pattern);
    SelfXX(rule.actions[0]);
  }

  lemma ChildBound()
    ensures PatternVars(FamilyRules()[1].actions[0]) <= BoundVars(FamilyRules()[1].antecedent)
  {
    var rule := FamilyRules()[1];
    ParentXY(rule.antecedent.pattern);
    ChildYX(rule.actions[0]);
  }

  lemma SiblingBound()
    ensures PatternVars(FamilyRules()[2].actions[0]) <= BoundVars(FamilyRules()[2].antecedent)
  {
    var rule := FamilyRules()[2];
    var cs := rule.antecedent.children;
    ParentPX(cs[0].pattern);
    ParentPY(cs[1].pattern);
    SiblingXY(rule.actions[0]);
    BoundInUnion(cs, 0);
    BoundInUnion(cs, 1);
  }

  lemma GrandparentBound()
    ensures PatternVars(FamilyRules()[3].actions[0]) <= BoundVars(FamilyRules()[3].antecedent)
  {
    var rule := FamilyRules()[3];
    var cs := rule.antecedent.children;
    ParentXZ(cs[0].pattern);
    ParentZY(cs[1].pattern);
    GrandparentXY(rule.actions[0]);
    BoundInUnion(cs, 0);
    BoundInUnion(cs, 1);
  }

  lemma GrandchildBound()
    ensures PatternVars(FamilyRules()[4].actions[0]) <= BoundVars(FamilyRules()[4].antecedent)
  {
    var rule := FamilyRules()[4];
    GrandparentXY(rule.antecedent.pattern);
    GrandchildYX(rule.actions[0]);
  }

  lemma CousinBound()
    ensures PatternVars(FamilyRules()[5].actions[0]) <= BoundVars(FamilyRules()[5].antecedent)
  {
    var rule := FamilyRules()[5];
    var cs := rule.antecedent.children;
    ParentPxX(cs[0].pattern);
    ParentPyY(cs[1].pattern);
    CousinXY(rule.actions[0]);
    BoundInUnion(cs, 0);
    BoundInUnion(cs, 1);
  }

  /** The sibling rule's `NOT('self (?x) (?y)')` uses x and y, which the
      two `parent` clauses before it bind. */
  lemma SiblingGuardBound()
    ensures NegationsBound(FamilyRules()[2].antecedent, {})
  {
    SiblingGuard(FamilyRules()[2].antecedent.children, "parent (?p) (?x)", "parent (?p) (?y)", "self (?x) (?y)");
  }

  lemma SiblingGuard(cs: seq<Expr>, p1: string, p2: string, q: string)
    requires p1 == "parent (?p) (?x)" && p2 == "parent (?p) (?y)" && q == "self (?x) (?y)"
    requires cs == [Leaf(p1), Leaf(p2), Not(Leaf(q))]
    ensures ClausesNegationsBound(cs, {})
  {
    ParentPX(p1);
    ParentPY(p2);
    SelfXY(q);
    GuardAfterTwo(cs, p1, p2, q);
  }

  /** The cousin rule's `NOT('sibling (?x) (?y)')` uses x and y, which the
      two `parent` clauses before it bind. */
  lemma CousinGuardBound()
    ensures NegationsBound(FamilyRules()[5].antecedent, {})
  {
    CousinGuard(FamilyRules()[5].antecedent.children,
                "parent (?px) (?x)", "parent (?py) (?y)", "sibling (?px) (?py)", "sibling (?x) (?y)");
  }

  lemma CousinGuard(cs: seq<Expr>, p1: string, p2: string, p3: string, q: string)
    requires p1 == "parent (?px) (?x)" && p2 == "parent (?py) (?y)" && q == "sibling (?x) (?y)"
    requires cs == [Leaf(p1), Leaf(p2), Leaf(p3), Not(Leaf(q))]
    ensures ClausesNegationsBound(cs, {})
  {
    ParentPxX(p1);
    ParentPyY(p2);
    SiblingXY(q);
    GuardAfterThree(cs, p1, p2, p3, q);
  }

  /** Every variable in a NOT clause is bound by a positive clause before
      it; the rules without a NOT satisfy this trivially. */
  lemma NegationsBoundAt(i: nat)
    requires i < |FamilyRules()|
    ensures NegationsBound(FamilyRules()[i].antecedent, {})
  {
    var rule := FamilyRules()[i];
    if i == 2 {
      SiblingGuardBound();
    } else if i == 5 {
      CousinGuardBound();
    } else if rule.antecedent.And? {
      ClausesNegationsBoundAt(rule.antecedent.children, {});
    }
  }

  /** Every family rule is well formed, in this list and in the one the
      goal-tree module uses. */
  lemma FamilyRulesWellFormed()
    ensures forall i :: 0 <= i < |FamilyRules()| ==> WellFormed(FamilyRules()[i])
    ensures forall i :: 0 <= i < |Inference.FamilyRules()| ==> WellFormed(Inference.FamilyRules()[i])
  {
    forall i | 0 <= i < |FamilyRules()|
      ensures WellFormed(FamilyRules()[i])
    {
      ConsequentBound(i);
      NegationsBoundAt(i);
      SingleActionWellFormed(FamilyRules()[i]);
    }
    SameAsInference();
  }

  // ---------------------------------------------------------------------------
  // how the rules fit together

  /** With x and y bound to the same person, the sibling rule's guard
      `self (?x) (?y)` populates to the same fact as the self rule's
      consequent `self (?x) (?x)`, so the guard rules out a person being
      their own sibling. */
  lemma SiblingGuardIsSelf(b: Bindings)
    requires "x" in b && "y" in b && b["x"] == b["y"]
    ensures Populate(FamilyRules()[2].antecedent.children[2].negated.pattern, b)
            == Populate(FamilyRules()[0].actions[0], b)
  {
    SameSelfFact(FamilyRules()[2].antecedent.children[2].negated.pattern, FamilyRules()[0].actions[0], b);
  }

  lemma SameSelfFact(guard: string, self: string, b: Bindings)
    requires guard == "self (?x) (?y)" && self == "self (?x) (?x)"
    requires "x" in b && "y" in b && b["x"] == b["y"]
    ensures Populate(guard, b) == Populate(self, b)
  {
    assert guard == "self" + " (?" + "x" + ") (?" + "y" + ")";
    assert self == "self" + " (?" + "x" + ") (?" + "x" + ")";
    SameValueSamePopulation("self", "x", "y", b);
  }

  /** The grandchild rule's antecedent is the grandparent rule's consequent,
      so whatever single-token people it is populated with, the grandparent
      rule's consequent matches it: backchaining on a grandchild fact
      always reaches the grandparent rule. */
  lemma GrandchildReachesGrandparent(c: Bindings)
    requires "x" in c && "y" in c && TokenValued(c)
    ensures FamilyRules()[4].antecedent == Leaf(FamilyRules()[3].actions[0])
    ensures Match(FamilyRules()[3].actions[0], Populate(FamilyRules()[4].antecedent.pattern, c)).Some?
  {
    var p := FamilyRules()[3].actions[0];
    GrandparentXY(p);
    MatchComplete(p, Populate(p, c), c);
  }
}
