/**
  The pattern language the rule data is written in, and the three helpers
  the goal-tree builder imports from the `production` module: `match`,
  `populate` and `simplify`. That module is not part of this model, so the
  definitions here are self-contained reconstructions that follow the
  syntax visible in the rule data: a pattern is a string of tokens
  separated by single spaces, and a token written `(?name)` is a variable.
 */
module Production {
  import opened Wrappers
  import opened Text

  /** A condition, a goal tree, or a rule antecedent: a pattern string, or
      an AND, OR or NOT connective over further conditions. */
  datatype Expr =
    | Leaf(pattern: string)
    | And(children: seq<Expr>)
    | Or(children: seq<Expr>)
    | Not(negated: Expr)

  /** `IF(antecedent, THEN(actions...))`. */
  datatype Rule = Rule(antecedent: Expr, actions: seq<string>)

  /** `rule.action()[0] if rule.action() else None`. */
  function Consequent(rule: Rule): Option<string> {
    if rule.actions == [] then None else Some(rule.actions[0])
  }

  /** Variable name to the token it stands for. */
  type Bindings = map<string, string>

  // ---------------------------------------------------------------------------
  // tokens and variables

  function Tokens(pattern: string): seq<string> {
    Split(pattern, ' ')
  }

  /** A token of the form `(?name)` with a non-empty name. */
  predicate IsVariable(token: string) {
    |token| >= 4 && token[0] == '(' && token[1] == '?' && token[|token| - 1] == ')'
  }

  function VarName(token: string): string
    requires IsVariable(token)
  {
    token[2..|token| - 1]
  }

  /** The names of the variables among some tokens. */
  function TokenVars(tokens: seq<string>): set<string> {
    if tokens == [] then {}
    else (if IsVariable(tokens[0]) then {VarName(tokens[0])} else {}) + TokenVars(tokens[1..])
  }

  /** The names of the variables a pattern mentions. */
  function PatternVars(pattern: string): set<string> {
    TokenVars(Tokens(pattern))
  }

  lemma {:induction false} TokenVarsConcat(xs: seq<string>, ys: seq<string>)
    ensures TokenVars(xs + ys) == TokenVars(xs) + TokenVars(ys)
  {
    if xs != [] {
      TokenVarsConcat(xs[1..], ys);
      assert (xs + ys)[1..] == xs[1..] + ys;
    } else {
      assert xs + ys == ys;
    }
  }

  // ---------------------------------------------------------------------------
  // populate

  /** A variable with a binding is replaced by it; any other token, including
      a variable without a binding, is kept. */
  function SubstToken(token: string, b: Bindings): string {
    if IsVariable(token) && VarName(token) in b then b[VarName(token)] else token
  }

  function SubstTokens(tokens: seq<string>, b: Bindings): seq<string> {
    seq(|tokens|, i requires 0 <= i < |tokens| => SubstToken(tokens[i], b))
  }

  /** `populate` on a pattern string. */
  function Populate(pattern: string, b: Bindings): string {
    Join(SubstTokens(Tokens(pattern), b), " ")
  }

  /** `populate` on a condition: the same connectives, in the same order,
      with every pattern populated. */
  function PopulateExpr(e: Expr, b: Bindings): (r: Expr)
    ensures e.Leaf? <==> r.Leaf?
    ensures e.And? <==> r.And?
    ensures e.Or? <==> r.Or?
    ensures (e.And? || e.Or?) ==> |r.children| == |e.children|
    ensures e.Leaf? ==> r.pattern == Populate(e.pattern, b)
    ensures e.Not? ==> r.negated == PopulateExpr(e.negated, b)
    ensures (e.And? || e.Or?) ==>
              forall i :: 0 <= i < |e.children| ==> r.children[i] == PopulateExpr(e.children[i], b)
  {
    match e
    case Leaf(p) => Leaf(Populate(p, b))
    case And(cs) => And(seq(|cs|, i requires 0 <= i < |cs| => PopulateExpr(cs[i], b)))
    case Or(cs) => Or(seq(|cs|, i requires 0 <= i < |cs| => PopulateExpr(cs[i], b)))
    case Not(c) => Not(PopulateExpr(c, b))
  }

  // ---------------------------------------------------------------------------
  // match

  /** Walks pattern and fact tokens pairwise: a literal must be equal, a
      variable binds to the fact token unless already bound to another. */
  function MatchTokens(ps: seq<string>, fs: seq<string>, b: Bindings): Option<Bindings>
    requires |ps| == |fs|
  {
    if ps == [] then Some(b)
    else if IsVariable(ps[0]) then
      var v := VarName(ps[0]);
      if v in b && b[v] != fs[0] then None
      else MatchTokens(ps[1..], fs[1..], b[v := fs[0]])
    else if ps[0] == fs[0] then MatchTokens(ps[1..], fs[1..], b)
    else None
  }

  /** `match(pattern, fact)`: the bindings that turn the pattern into the
      fact, or None. */
  function Match(pattern: string, fact: string): Option<Bindings> {
    var ps, fs := Tokens(pattern), Tokens(fact);
    if |ps| != |fs| then None else MatchTokens(ps, fs, map[])
  }

  /** A successful token walk keeps the bindings it started from, binds
      exactly the pattern's variables besides, and makes every pattern token
      equal to its fact token. */
  lemma {:induction false} MatchTokensSound(ps: seq<string>, fs: seq<string>, b: Bindings, r: Bindings)
    requires |ps| == |fs|
    requires MatchTokens(ps, fs, b) == Some(r)
    ensures r.Keys == b.Keys + TokenVars(ps)
    ensures forall v :: v in b ==> r[v] == b[v]
    ensures forall i :: 0 <= i < |ps| ==> SubstToken(ps[i], r) == fs[i]
  {
    if ps != [] {
      if IsVariable(ps[0]) {
        var v := VarName(ps[0]);
        MatchTokensSound(ps[1..], fs[1..], b[v := fs[0]], r);
      } else {
        MatchTokensSound(ps[1..], fs[1..], b, r);
      }
      forall i | 0 <= i < |ps|
        ensures SubstToken(ps[i], r) == fs[i]
      {
        if i > 0 { assert ps[i] == ps[1..][i - 1]; }
      }
    }
  }

  /** A successful match binds exactly the pattern's variables, and
      populating the pattern with its bindings gives back the fact. */
  lemma MatchRoundTrip(pattern: string, fact: string)
    requires Match(pattern, fact).Some?
    ensures Match(pattern, fact).value.Keys == PatternVars(pattern)
    ensures Populate(pattern, Match(pattern, fact).value) == fact
  {
    var ps, fs := Tokens(pattern), Tokens(fact);
    var r := Match(pattern, fact).value;
    MatchTokensSound(ps, fs, map[], r);
    assert SubstTokens(ps, r) == fs;
    JoinSplit(fact, ' ');
  }

  /** If some bindings `c` that agree with `b` and cover the pattern's
      variables turn the pattern tokens into the fact tokens, the token walk
      succeeds, and with bindings that `c` agrees with. */
  lemma {:induction false} MatchTokensComplete(ps: seq<string>, fs: seq<string>, b: Bindings, c: Bindings)
    requires |ps| == |fs|
    requires TokenVars(ps) <= c.Keys
    requires forall v :: v in b ==> v in c && c[v] == b[v]
    requires forall i :: 0 <= i < |ps| ==> SubstToken(ps[i], c) == fs[i]
    ensures MatchTokens(ps, fs, b).Some?
    ensures forall v :: v in MatchTokens(ps, fs, b).value ==> v in c && c[v] == MatchTokens(ps, fs, b).value[v]
  {
    if ps != [] {
      forall i | 0 <= i < |ps[1..]|
        ensures SubstToken(ps[1..][i], c) == fs[1..][i]
      {
        assert ps[1..][i] == ps[i + 1];
      }
      if IsVariable(ps[0]) {
        var v := VarName(ps[0]);
        assert SubstToken(ps[0], c) == fs[0];
        MatchTokensComplete(ps[1..], fs[1..], b[v := fs[0]], c);
      } else {
        MatchTokensComplete(ps[1..], fs[1..], b, c);
      }
    }
  }

  /** Bindings whose values are single tokens. */
  predicate TokenValued(c: Bindings) {
    forall v :: v in c ==> ' ' !in c[v]
  }

  /** Matching succeeds whenever populating the pattern with some bindings
      of single tokens that cover its variables yields the fact. */
  lemma MatchComplete(pattern: string, fact: string, c: Bindings)
    requires PatternVars(pattern) <= c.Keys
    requires TokenValued(c)
    requires Populate(pattern, c) == fact
    ensures Match(pattern, fact).Some?
  {
    var ps := Tokens(pattern);
    var qs := SubstTokens(ps, c);
    forall i | 0 <= i < |qs|
      ensures ' ' !in qs[i]
    {
    }
    SplitJoin(qs, ' ');
    assert Tokens(fact) == qs;
    MatchTokensComplete(ps, qs, map[], c);
  }

  /** A pattern without variables matches exactly itself. */
  lemma MatchGround(pattern: string, fact: string)
    requires PatternVars(pattern) == {}
    ensures Match(pattern, fact).Some? <==> pattern == fact
  {
    var ps := Tokens(pattern);
    assert SubstTokens(ps, map[]) == ps;
    JoinSplit(pattern, ' ');
    if Match(pattern, fact).Some? {
      MatchRoundTrip(pattern, fact);
      var r := Match(pattern, fact).value;
      assert r.Keys == {};
      assert r == map[];
    }
    if pattern == fact {
      MatchComplete(pattern, fact, map[]);
    }
  }

  // ---------------------------------------------------------------------------
  // simplify

  /** The children of same-kind nested connectives spliced into their
      parent's list (`isAnd` tells which kind the parent is). */
  function Splice(isAnd: bool, cs: seq<Expr>): seq<Expr> {
    if cs == [] then []
    else
      (if (isAnd && cs[0].And?) || (!isAnd && cs[0].Or?) then cs[0].children else [cs[0]])
      + Splice(isAnd, cs[1..])
  }

  /** A connective with one child is that child. */
  function Collapse(isAnd: bool, cs: seq<Expr>): Expr {
    if |cs| == 1 then cs[0] else if isAnd then And(cs) else Or(cs)
  }

  /** `simplify`: children first, then same-kind nesting flattened and a
      single-child AND or OR replaced by its child. NOT is kept. */
  function Simplify(e: Expr): (r: Expr)
    ensures Simplified(r)
  {
    match e
    case Leaf(_) => e
    case Not(c) => Not(Simplify(c))
    case And(cs) =>
      var ss := seq(|cs|, i requires 0 <= i < |cs| => Simplify(cs[i]));
      SpliceSimplified(true, ss);
      Collapse(true, Splice(true, ss))
    case Or(cs) =>
      var ss := seq(|cs|, i requires 0 <= i < |cs| => Simplify(cs[i]));
      SpliceSimplified(false, ss);
      Collapse(false, Splice(false, ss))
  }

  /** The normal form `simplify` produces: no AND or OR with exactly one
      child, no AND directly under an AND, no OR directly under an OR. */
  predicate Simplified(e: Expr) {
    match e
    case Leaf(_) => true
    case Not(c) => Simplified(c)
    case And(cs) => |cs| != 1 && forall i :: 0 <= i < |cs| ==> !cs[i].And? && Simplified(cs[i])
    case Or(cs) => |cs| != 1 && forall i :: 0 <= i < |cs| ==> !cs[i].Or? && Simplified(cs[i])
  }

  /** Splicing simplified children leaves simplified children none of which
      has the parent's kind. */
  lemma {:induction false} SpliceSimplified(isAnd: bool, cs: seq<Expr>)
    requires forall i :: 0 <= i < |cs| ==> Simplified(cs[i])
    ensures forall i :: 0 <= i < |Splice(isAnd, cs)| ==>
              Simplified(Splice(isAnd, cs)[i])
              && (if isAnd then !Splice(isAnd, cs)[i].And? else !Splice(isAnd, cs)[i].Or?)
  {
    if cs != [] {
      SpliceSimplified(isAnd, cs[1..]);
    }
  }

  /** Splicing a list with no child of the parent's kind changes nothing. */
  lemma {:induction false} SpliceNothing(isAnd: bool, cs: seq<Expr>)
    requires forall i :: 0 <= i < |cs| ==> if isAnd then !cs[i].And? else !cs[i].Or?
    ensures Splice(isAnd, cs) == cs
  {
    if cs != [] {
      SpliceNothing(isAnd, cs[1..]);
    }
  }

  /** A tree already in normal form is left unchanged by `simplify`. */
  lemma {:induction false} SimplifyFixesSimplified(e: Expr)
    requires Simplified(e)
    ensures Simplify(e) == e
  {
    match e
    case Leaf(_) =>
    case Not(c) => SimplifyFixesSimplified(c);
    case And(cs) =>
      forall i | 0 <= i < |cs| ensures Simplify(cs[i]) == cs[i] { SimplifyFixesSimplified(cs[i]); }
      var ss := seq(|cs|, i requires 0 <= i < |cs| => Simplify(cs[i]));
      assert ss == cs;
      SpliceNothing(true, cs);
    case Or(cs) =>
      forall i | 0 <= i < |cs| ensures Simplify(cs[i]) == cs[i] { SimplifyFixesSimplified(cs[i]); }
      var ss := seq(|cs|, i requires 0 <= i < |cs| => Simplify(cs[i]));
      assert ss == cs;
      SpliceNothing(false, cs);
  }

  /** `simplify` is idempotent. */
  lemma SimplifyIdempotent(e: Expr)
    ensures Simplify(Simplify(e)) == Simplify(e)
  {
    SimplifyFixesSimplified(Simplify(e));
  }

  // ---------------------------------------------------------------------------
  // meaning of a tree

  /** Whether a tree holds when exactly the patterns in `facts` are true:
      AND needs every child, OR some child, NOT the negation of its child. */
  predicate Holds(e: Expr, facts: set<string>) {
    match e
    case Leaf(p) => p in facts
    case Not(c) => !Holds(c, facts)
    case And(cs) => forall i :: 0 <= i < |cs| ==> Holds(cs[i], facts)
    case Or(cs) => exists i :: 0 <= i < |cs| && Holds(cs[i], facts)
  }

  predicate AllHold(cs: seq<Expr>, facts: set<string>) {
    forall i :: 0 <= i < |cs| ==> Holds(cs[i], facts)
  }

  predicate SomeHolds(cs: seq<Expr>, facts: set<string>) {
    exists i :: 0 <= i < |cs| && Holds(cs[i], facts)
  }

  lemma HoldsConcat(xs: seq<Expr>, ys: seq<Expr>, facts: set<string>)
    ensures AllHold(xs + ys, facts) <==> AllHold(xs, facts) && AllHold(ys, facts)
    ensures SomeHolds(xs + ys, facts) <==> SomeHolds(xs, facts) || SomeHolds(ys, facts)
  {
    var zs := xs + ys;
    forall i | 0 <= i < |ys| ensures zs[|xs| + i] == ys[i] { }
    if AllHold(zs, facts) {
      forall i | 0 <= i < |xs| ensures Holds(xs[i], facts) { assert zs[i] == xs[i]; }
      forall i | 0 <= i < |ys| ensures Holds(ys[i], facts) { assert zs[|xs| + i] == ys[i]; }
    }
    if AllHold(xs, facts) && AllHold(ys, facts) {
      forall i | 0 <= i < |zs| ensures Holds(zs[i], facts) {
        if i >= |xs| { assert zs[i] == ys[i - |xs|]; }
      }
    }
    if SomeHolds(zs, facts) {
      var i :| 0 <= i < |zs| && Holds(zs[i], facts);
      if i >= |xs| { assert zs[i] == ys[i - |xs|]; }
    }
    if SomeHolds(xs, facts) {
      var i :| 0 <= i < |xs| && Holds(xs[i], facts);
      assert zs[i] == xs[i];
    }
    if SomeHolds(ys, facts) {
      var i :| 0 <= i < |ys| && Holds(ys[i], facts);
      assert zs[|xs| + i] == ys[i];
    }
  }

  /** Splicing preserves the conjunction (for AND) or the disjunction (for
      OR) of the children. */
  lemma {:induction false} SpliceHolds(isAnd: bool, cs: seq<Expr>, facts: set<string>)
    ensures isAnd ==> (AllHold(Splice(isAnd, cs), facts) <==> AllHold(cs, facts))
    ensures !isAnd ==> (SomeHolds(Splice(isAnd, cs), facts) <==> SomeHolds(cs, facts))
  {
    if cs != [] {
      SpliceHolds(isAnd, cs[1..], facts);
      var spliced := (isAnd && cs[0].And?) || (!isAnd && cs[0].Or?);
      var head := if spliced then cs[0].children else [cs[0]];
      var tail := Splice(isAnd, cs[1..]);
      assert Splice(isAnd, cs) == head + tail;
      HoldsConcat(head, tail, facts);
      assert cs == [cs[0]] + cs[1..];
      HoldsConcat([cs[0]], cs[1..], facts);
      if spliced {
        assert isAnd ==> (AllHold(head, facts) <==> Holds(cs[0], facts));
        assert !isAnd ==> (SomeHolds(head, facts) <==> Holds(cs[0], facts));
      }
    }
  }

  /** `simplify` never changes what a tree means. */
  lemma {:induction false} SimplifyPreservesHolds(e: Expr, facts: set<string>)
    ensures Holds(Simplify(e), facts) == Holds(e, facts)
  {
    match e
    case Leaf(_) =>
    case Not(c) => SimplifyPreservesHolds(c, facts);
    case And(cs) =>
      var ss := seq(|cs|, i requires 0 <= i < |cs| => Simplify(cs[i]));
      SimplifiedChildrenHold(cs, ss, facts);
      SpliceHolds(true, ss, facts);
      CollapseHolds(true, Splice(true, ss), facts);
      assert Holds(e, facts) == AllHold(cs, facts);
    case Or(cs) =>
      var ss := seq(|cs|, i requires 0 <= i < |cs| => Simplify(cs[i]));
      SimplifiedChildrenHold(cs, ss, facts);
      SpliceHolds(false, ss, facts);
      CollapseHolds(false, Splice(false, ss), facts);
      assert Holds(e, facts) == SomeHolds(cs, facts);
  }

  /** Collapsing a single-child connective does not change what it means. */
  lemma CollapseHolds(isAnd: bool, cs: seq<Expr>, facts: set<string>)
    ensures Holds(Collapse(isAnd, cs), facts) == if isAnd then AllHold(cs, facts) else SomeHolds(cs, facts)
  {
    if |cs| == 1 {
      assert isAnd ==> (AllHold(cs, facts) <==> Holds(cs[0], facts));
      assert !isAnd ==> (SomeHolds(cs, facts) <==> Holds(cs[0], facts));
    }
  }

  lemma {:induction false} SimplifiedChildrenHold(cs: seq<Expr>, ss: seq<Expr>, facts: set<string>)
    requires |ss| == |cs|
    requires forall i :: 0 <= i < |cs| ==> ss[i] == Simplify(cs[i])
    ensures AllHold(ss, facts) == AllHold(cs, facts)
    ensures SomeHolds(ss, facts) == SomeHolds(cs, facts)
    decreases cs, 0
  {
    forall i | 0 <= i < |cs| ensures Holds(ss[i], facts) == Holds(cs[i], facts) {
      SimplifyPreservesHolds(cs[i], facts);
    }
    if SomeHolds(cs, facts) {
      var i :| 0 <= i < |cs| && Holds(cs[i], facts);
      assert Holds(ss[i], facts);
    }
    if SomeHolds(ss, facts) {
      var i :| 0 <= i < |ss| && Holds(ss[i], facts);
      assert Holds(cs[i], facts);
    }
  }

  // ---------------------------------------------------------------------------
  // well-formed rules

  /** The variables every satisfying binding of a condition must bind:
      those of a pattern, the union over an AND, the ones common to all
      branches of an OR, none for a NOT. */
  function BoundVars(e: Expr): set<string> {
    match e
    case Leaf(p) => PatternVars(p)
    case Not(_) => {}
    case And(cs) => UnionBound(cs)
    case Or(cs) => if cs == [] then {} else CommonBound(cs)
  }

  function UnionBound(cs: seq<Expr>): set<string>
    decreases cs
  {
    if cs == [] then {} else BoundVars(cs[0]) + UnionBound(cs[1..])
  }

  function CommonBound(cs: seq<Expr>): set<string>
    requires cs != []
    decreases cs
  {
    if |cs| == 1 then BoundVars(cs[0]) else BoundVars(cs[0]) * CommonBound(cs[1..])
  }

  /** Every variable of every pattern in a condition, negated or not. */
  function AllVars(e: Expr): set<string> {
    match e
    case Leaf(p) => PatternVars(p)
    case Not(c) => AllVars(c)
    case And(cs) => AllVarsOf(cs)
    case Or(cs) => AllVarsOf(cs)
  }

  function AllVarsOf(cs: seq<Expr>): set<string>
    decreases cs
  {
    if cs == [] then {} else AllVars(cs[0]) + AllVarsOf(cs[1..])
  }

  /** Every variable inside a NOT is bound by `bound` or by a positive
      clause that comes earlier in the same AND. */
  predicate NegationsBound(e: Expr, bound: set<string>) {
    match e
    case Leaf(_) => true
    case Not(c) => AllVars(c) <= bound
    case And(cs) => ClausesNegationsBound(cs, bound)
    case Or(cs) => forall i :: 0 <= i < |cs| ==> NegationsBound(cs[i], bound)
  }

  predicate ClausesNegationsBound(cs: seq<Expr>, bound: set<string>)
    decreases cs
  {
    cs == [] || (NegationsBound(cs[0], bound) && ClausesNegationsBound(cs[1..], bound + BoundVars(cs[0])))
  }

  /** A rule-authoring check: each consequent mentions only variables the
      antecedent binds, and each NOT clause only variables bound before it. */
  predicate WellFormed(rule: Rule) {
    && (forall i :: 0 <= i < |rule.actions| ==> PatternVars(rule.actions[i]) <= BoundVars(rule.antecedent))
    && NegationsBound(rule.antecedent, {})
  }

  /** A rule with one action is well formed when that action's variables
      are bound and its NOT clauses are. */
  lemma SingleActionWellFormed(rule: Rule)
    requires |rule.actions| == 1
    requires PatternVars(rule.actions[0]) <= BoundVars(rule.antecedent)
    requires NegationsBound(rule.antecedent, {})
    ensures WellFormed(rule)
  {
  }

  /** The variables of a pattern are those of its space-separated tokens. */
  lemma PatternVarsOfTokens(p: string, ts: seq<string>)
    requires |ts| >= 1 && forall i :: 0 <= i < |ts| ==> ' ' !in ts[i]
    requires p == Join(ts, " ")
    ensures PatternVars(p) == TokenVars(ts)
  {
    SplitJoin(ts, ' ');
  }

  /** The tokens and variables of a relation over two variables,
      `rel (?a) (?b)`. */
  lemma BinaryPattern(p: string, rel: string, a: string, b: string)
    requires ' ' !in rel && !IsVariable(rel)
    requires a != [] && ' ' !in a && b != [] && ' ' !in b
    requires p == rel + " (?" + a + ") (?" + b + ")"
    ensures Tokens(p) == [rel, "(?" + a + ")", "(?" + b + ")"]
    ensures PatternVars(p) == {a, b}
  {
    var ta, tb := "(?" + a + ")", "(?" + b + ")";
    var ts := [rel, ta, tb];
    assert ts[1..] == [ta, tb] && ts[1..][1..] == [tb];
    assert Join(ts[1..], " ") == ta + " " + tb;
    assert p == rel + " " + (ta + " " + tb);
    assert p == Join(ts, " ");
    VariableToken(a);
    VariableToken(b);
    SplitJoin(ts, ' ');
    assert ts[1..][1..] == [tb] && [tb][1..] == [];
    assert TokenVars([tb]) == {b};
    assert TokenVars(ts[1..]) == {a} + TokenVars([tb]);
  }

  /** The variables of an infix relation over two variables,
      `(?a) rel (?b)`. */
  lemma InfixPattern(p: string, rel: string, a: string, b: string)
    requires ' ' !in rel && !IsVariable(rel)
    requires a != [] && ' ' !in a && b != [] && ' ' !in b
    requires p == "(?" + a + ") " + rel + " (?" + b + ")"
    ensures PatternVars(p) == {a, b}
  {
    var ta, tb := "(?" + a + ")", "(?" + b + ")";
    var ts := [ta, rel, tb];
    assert ts[1..] == [rel, tb] && ts[1..][1..] == [tb];
    assert Join(ts[1..], " ") == rel + " " + tb;
    assert p == ta + " " + (rel + " " + tb);
    assert p == Join(ts, " ");
    VariableToken(a);
    VariableToken(b);
    SplitJoin(ts, ' ');
    assert [tb][1..] == [];
    assert TokenVars([tb]) == {b};
    assert TokenVars(ts[1..]) == TokenVars([tb]);
  }

  /** The tokens and variables of a relation over one variable, `rel (?a)`. */
  lemma UnaryPattern(p: string, rel: string, a: string)
    requires ' ' !in rel && !IsVariable(rel)
    requires a != [] && ' ' !in a
    requires p == rel + " (?" + a + ")"
    ensures Tokens(p) == [rel, "(?" + a + ")"]
    ensures PatternVars(p) == {a}
  {
    var ta := "(?" + a + ")";
    assert p == Join([rel, ta], " ");
    VariableToken(a);
    var ts := [rel, ta];
    SplitJoin(ts, ' ');
    assert ts[1..] == [ta] && [ta][1..] == [];
    assert TokenVars([ta]) == {a};
  }

  /** In `rel (?a) (?b)`, bindings that give a and b the same value
      populate the pattern as they populate `rel (?a) (?a)`. */
  lemma SameValueSamePopulation(rel: string, a: string, b: string, bs: Bindings)
    requires ' ' !in rel && !IsVariable(rel)
    requires a != [] && ' ' !in a && b != [] && ' ' !in b
    requires a in bs && b in bs && bs[a] == bs[b]
    ensures Populate(rel + " (?" + a + ") (?" + b + ")", bs) == Populate(rel + " (?" + a + ") (?" + a + ")", bs)
  {
    var p, q := rel + " (?" + a + ") (?" + b + ")", rel + " (?" + a + ") (?" + a + ")";
    BinaryPattern(p, rel, a, b);
    BinaryPattern(q, rel, a, a);
    VariableToken(a);
    VariableToken(b);
    assert SubstTokens(Tokens(p), bs) == SubstTokens(Tokens(q), bs);
  }

  /** `(?name)` is a variable token named `name`, without spaces. */
  lemma VariableToken(name: string)
    requires name != [] && ' ' !in name
    ensures IsVariable("(?" + name + ")") && VarName("(?" + name + ")") == name
    ensures ' ' !in "(?" + name + ")"
  {
    var t := "(?" + name + ")";
    assert t == ['(', '?'] + name + [')'];
    assert t[2..|t| - 1] == name;
  }

  /** A clause of an AND binds no more than the AND does. */
  lemma {:induction false} BoundInUnion(cs: seq<Expr>, k: nat)
    requires k < |cs|
    ensures BoundVars(cs[k]) <= UnionBound(cs)
  {
    if k > 0 {
      BoundInUnion(cs[1..], k - 1);
    }
  }

  lemma UnionBoundPrefix(cs: seq<Expr>, k: nat)
    requires k < |cs|
    ensures UnionBound(cs[..k + 1]) == BoundVars(cs[0]) + UnionBound(cs[1..][..k])
  {
    assert cs[..k + 1][1..] == cs[1..][..k];
  }

  /** The clauses of an AND have their negations bound when each clause has
      them bound by `bound` together with the clauses before it. */
  lemma {:induction false} ClausesNegationsBoundAt(cs: seq<Expr>, bound: set<string>)
    requires forall k :: 0 <= k < |cs| ==> NegationsBound(cs[k], bound + UnionBound(cs[..k]))
    ensures ClausesNegationsBound(cs, bound)
  {
    if cs != [] {
      assert cs[..0] == [];
      assert bound + UnionBound(cs[..0]) == bound;
      var bound' := bound + BoundVars(cs[0]);
      forall k | 0 <= k < |cs[1..]|
        ensures NegationsBound(cs[1..][k], bound' + UnionBound(cs[1..][..k]))
      {
        UnionBoundPrefix(cs, k);
        assert NegationsBound(cs[k + 1], bound + UnionBound(cs[..k + 1]));
        assert bound + UnionBound(cs[..k + 1]) == bound' + UnionBound(cs[1..][..k]);
      }
      ClausesNegationsBoundAt(cs[1..], bound');
    }
  }

  /** A condition with no NOT anywhere in it. */
  predicate NoNegation(e: Expr) {
    match e
    case Leaf(_) => true
    case Not(_) => false
    case And(cs) => forall i :: 0 <= i < |cs| ==> NoNegation(cs[i])
    case Or(cs) => forall i :: 0 <= i < |cs| ==> NoNegation(cs[i])
  }

  /** A condition without a NOT has its negations bound by any set. */
  lemma {:induction false} NoNegationBound(e: Expr, bound: set<string>)
    requires NoNegation(e)
    ensures NegationsBound(e, bound)
    decreases e, 1
  {
    if e.And? {
      NoNegationClausesBound(e.children, bound);
    } else if e.Or? {
      forall i | 0 <= i < |e.children| ensures NegationsBound(e.children[i], bound) {
        NoNegationBound(e.children[i], bound);
      }
    }
  }

  lemma {:induction false} NoNegationClausesBound(cs: seq<Expr>, bound: set<string>)
    requires forall i :: 0 <= i < |cs| ==> NoNegation(cs[i])
    ensures ClausesNegationsBound(cs, bound)
    decreases cs, 0
  {
    if cs != [] {
      NoNegationBound(cs[0], bound);
      NoNegationClausesBound(cs[1..], bound + BoundVars(cs[0]));
    }
  }

  /** An AND of two patterns and then a NOT of a pattern has its negation
      bound when the two patterns bind the NOT's variables. */
  lemma GuardAfterTwo(cs: seq<Expr>, p1: string, p2: string, q: string)
    requires cs == [Leaf(p1), Leaf(p2), Not(Leaf(q))]
    requires PatternVars(q) <= PatternVars(p1) + PatternVars(p2)
    ensures ClausesNegationsBound(cs, {})
  {
    var rest := [Not(Leaf(q))];
    var b1 := {} + BoundVars(Leaf(p1));
    var b2 := b1 + BoundVars(Leaf(p2));
    assert rest[1..] == [];
    assert AllVars(Not(Leaf(q))) <= b2;
    assert ClausesNegationsBound(rest, b2);
    assert cs[1..] == [Leaf(p2)] + rest && cs[1..][1..] == rest;
    assert ClausesNegationsBound(cs[1..], b1);
  }

  /** An AND of three patterns and then a NOT of a pattern has its negation
      bound when the three patterns bind the NOT's variables. */
  lemma GuardAfterThree(cs: seq<Expr>, p1: string, p2: string, p3: string, q: string)
    requires cs == [Leaf(p1), Leaf(p2), Leaf(p3), Not(Leaf(q))]
    requires PatternVars(q) <= PatternVars(p1) + PatternVars(p2)
    ensures ClausesNegationsBound(cs, {})
  {
    var rest := [Not(Leaf(q))];
    var b1 := {} + BoundVars(Leaf(p1));
    var b2 := b1 + BoundVars(Leaf(p2));
    var b3 := b2 + BoundVars(Leaf(p3));
    assert rest[1..] == [];
    assert AllVars(Not(Leaf(q))) <= b3;
    assert ClausesNegationsBound(rest, b3);
    assert cs[1..] == [Leaf(p2), Leaf(p3)] + rest && cs[1..][1..] == [Leaf(p3)] + rest;
    assert cs[1..][1..][1..] == rest;
    assert ClausesNegationsBound(cs[1..][1..], b2);
    assert ClausesNegationsBound(cs[1..], b1);
  }

  /** Populating a pattern with bindings for all its variables, each a
      single literal token, leaves no variable in it. */
  lemma PopulateGround(pattern: string, b: Bindings)
    requires PatternVars(pattern) <= b.Keys
    requires TokenValued(b)
    requires forall v :: v in b ==> !IsVariable(b[v])
    ensures PatternVars(Populate(pattern, b)) == {}
  {
    var ps := Tokens(pattern);
    var qs := SubstTokens(ps, b);
    TokenVarsIn(ps);
    forall i | 0 <= i < |qs|
      ensures ' ' !in qs[i] && !IsVariable(qs[i])
    {
      assert IsVariable(ps[i]) ==> VarName(ps[i]) in TokenVars(ps);
    }
    SplitJoin(qs, ' ');
    NoVariableTokens(qs);
  }

  /** Populating a condition with bindings for all its variables, each a
      single literal token, leaves no variable anywhere in it. */
  lemma {:induction false} PopulateExprGround(e: Expr, b: Bindings)
    requires AllVars(e) <= b.Keys
    requires TokenValued(b)
    requires forall v :: v in b ==> !IsVariable(b[v])
    ensures AllVars(PopulateExpr(e, b)) == {}
    decreases e, 1
  {
    match e
    case Leaf(p) => PopulateGround(p, b);
    case Not(c) => PopulateExprGround(c, b);
    case And(cs) => ChildrenGround(cs, PopulateExpr(e, b).children, b);
    case Or(cs) => ChildrenGround(cs, PopulateExpr(e, b).children, b);
  }

  lemma {:induction false} ChildrenGround(cs: seq<Expr>, rs: seq<Expr>, b: Bindings)
    requires AllVarsOf(cs) <= b.Keys
    requires TokenValued(b)
    requires forall v :: v in b ==> !IsVariable(b[v])
    requires |rs| == |cs| && forall i :: 0 <= i < |cs| ==> rs[i] == PopulateExpr(cs[i], b)
    ensures AllVarsOf(rs) == {}
    decreases cs, 0
  {
    if cs != [] {
      PopulateExprGround(cs[0], b);
      ChildrenGround(cs[1..], rs[1..], b);
    }
  }

  lemma {:induction false} TokenVarsIn(ts: seq<string>)
    ensures forall i :: 0 <= i < |ts| && IsVariable(ts[i]) ==> VarName(ts[i]) in TokenVars(ts)
  {
    if ts != [] {
      TokenVarsIn(ts[1..]);
      forall i | 1 <= i < |ts| ensures ts[i] == ts[1..][i - 1] { }
    }
  }

  lemma {:induction false} NoVariableTokens(ts: seq<string>)
    requires forall i :: 0 <= i < |ts| ==> !IsVariable(ts[i])
    ensures TokenVars(ts) == {}
  {
    if ts != [] {
      NoVariableTokens(ts[1..]);
    }
  }
}
