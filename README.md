# Backward chaining and knowledge-base queries, modelled in Dafny

This project models the symbolic core of the AIEA-Audit repository:

- the backward-chaining goal-tree builder `backchain_to_goal_tree`. It appears twice, in `Task-7/Inference.py` and as a verbatim copy in `Task-7/Problem6.py`.
- the rule data defined beside it: `transitive_rule`, `family_rules` (also in `Task-7/Problem5.py`) and `zookeeper_rules`. Only `zookeeper_rules` is given to the builder; the other two feed `forward_chain`, which is not modelled.
- the string-level query checkers that sit beside the language-model code:
  - `simple_fact_check` (Task-8);
  - `extract_logic_query` and `execute_logic_query` (Task-9).

Modules, in dependency order:

| module | file | what it holds |
|---|---|---|
| `Wrappers` | `wrappers.dfy` | `Option` |
| `Text` | `text.dfy` | Python's `split`, `join`, `strip`, `in`, `replace` of one character, and `startswith`, on `seq<char>` |
| `Production` | `production.dfy` | the pattern language, and `match`, `populate`, `simplify` |
| `Inference` | `inference.dfy` | the rule constants, the goal tree as functions, and `BackchainToGoalTree` as a loop-based method |
| `Problem5` | `problem5.dfy` | the family rule list and its well-formedness |
| `Problem6` | `problem6.dfy` | the second copy of the builder, proved equal to the first |
| `Knowledge` | `knowledge.dfy` | the knowledge base, the base query, the entity of a fact, and the entity-collecting loop |
| `FactCheck` | `fact_check.dfy` | `simple_fact_check` |
| `LogicQuery` | `logic_query.dfy` | `extract_logic_query` and `execute_logic_query` |

`Production` needs a word of warning. The builder imports `match`, `populate` and `simplify` from a `production` module (`Task-7/Inference.py:1`), but that module is not part of this model. The three definitions in `Production` are therefore modelling assumptions, not transcriptions. They follow the pattern syntax visible in the rule data:
- a pattern is a string of tokens separated by single spaces;
- a token `(?name)` is a variable;
- `match` walks the tokens pairwise with consistent bindings;
- `populate` substitutes the bound variables, recursing through connectives;
- `simplify` simplifies children first, splices same-kind nesting, and replaces a one-child AND or OR by its child.

The builder is modelled in two forms:
- as specification functions: `GoalTree`, `Alternatives`, `Contribution` and `SubgoalTrees`;
- as methods that keep the original's loops: `BackchainToGoalTree` appends to `alternatives` rule by rule, `RuleAlternative` is the body of that loop for one rule, and `Subgoals` appends to `subgoals` condition by condition.

Each method's postcondition ties its result to the specification function. The lemmas then state the original's behaviour about those functions.

Two behaviours of the shown code are kept as they are:
- No rule is checked before use. Well-formedness is a predicate (`Production.WellFormed`), proved about the rule data; it is not a run-time check.
- A `NOT` condition of an AND is handed to the recursive call as it is. The model gives such a condition the goal tree `simplify(OR([condition]))`: no rule consequent matches it, so it stays a leaf.

The zookeeper goal trees are proved in two steps. First, `zookeeper_rules` is shown to behave in a certain way: consequent i matches exactly the facts `e is a <kind i>`, and each condition `(?x) phrase` populates to `e phrase`. The goal-tree lemmas then rely on that behaviour alone, for any one-token animal e.

## Model

| member | source | states |
|---|---|---|
| Inference.BackchainToGoalTree | Task-7/Inference.py:25-48 | The loop over the rules builds `alternatives` as the hypothesis followed by each rule's contribution in rule order. The result is `simplify(OR(alternatives))`, equal to `GoalTree` for every rule list, hypothesis and depth. |
| Inference.RuleAlternative | Task-7/Inference.py:29-46 | One pass of the rule loop adds exactly `Contribution` for that rule: nothing when the first action does not match the hypothesis or the antecedent is a NOT, otherwise one goal tree. It never adds more than one alternative. |
| Inference.Subgoals | Task-7/Inference.py:37-46 | The `subgoals` loop of an AND or an OR antecedent yields one goal tree per populated condition, in condition order. |
| Inference.HypothesisFirst | Task-7/Inference.py:26 | The first alternative is always the hypothesis itself, as a leaf. |
| Inference.NonMatchingRuleAddsNothing | Task-7/Inference.py:29-31 | A rule without actions, or whose first action does not match the hypothesis, adds no alternative. |
| Inference.OnlyFirstActionMatters | Task-7/Inference.py:29 | Only the first action of a rule is matched. Two rules with the same antecedent and the same first action contribute the same. |
| Inference.ContributionAtMostOne | Task-7/Inference.py:31-46 | One rule adds at most one alternative. |
| Inference.ContributionsInOrder | Task-7/Inference.py:28-46 | Rules are tried in list order: the contributions of `rs + more` are those of `rs` followed by those of `more`. |
| Inference.ContributionsBound | Task-7/Inference.py:28-46 | A list of rules contributes at most one alternative per rule. |
| Inference.AlternativesBound | Task-7/Inference.py:26-46 | There are between 1 and 1 + \|rules\| alternatives. |
| Inference.PatternAntecedentContribution | Task-7/Inference.py:32-34 | A matching rule whose antecedent is a pattern adds exactly the goal tree of `populate(antecedent, bindings)`. |
| Inference.ConnectiveAntecedentContribution | Task-7/Inference.py:36-46 | A matching rule whose antecedent is an AND (an OR) adds exactly one AND (OR) node. Its i-th child is the goal tree of the i-th populated condition. |
| Inference.SubgoalTreesPointwise | Task-7/Inference.py:38-40 | The subgoal list has one entry per condition, and entry i is the goal tree of condition i. |
| Inference.NegatedAntecedentAddsNothing | Task-7/Inference.py:36-46 | A matching rule whose antecedent is a NOT, neither pattern nor AND nor OR, adds nothing. |
| Inference.NothingContributed | Task-7/Inference.py:28-31 | If no rule's consequent matches the hypothesis, the rules contribute nothing. |
| Inference.NoMatchingRule | Task-7/Inference.py:26-48 | If no rule matches, the only alternative is the hypothesis, and the goal tree is the hypothesis leaf, which is `simplify(OR([hypothesis]))`. |
| Inference.GoalTreeSimplified | Task-7/Inference.py:48 | The goal tree is in `simplify`'s normal form, so simplifying it again changes nothing. |
| Inference.HypothesisSatisfiesGoalTree | Task-7/Inference.py:26-48 | Whatever the rules, the goal tree holds in every fact set that contains the hypothesis. |
| Inference.TransitiveRuleWellFormed | Task-7/Inference.py:3-8 | The consequent `(?x) beats (?z)` has exactly the variables x and z. Both are bound by the two antecedent clauses, and the rule has no NOT, so it is well formed. |
| Inference.ZookeeperConsequentBound | Task-7/Inference.py:78-84 | Each zookeeper rule has one action, whose only variable x is bound by the antecedent. |
| Inference.ZookeeperRulesWellFormed | Task-7/Inference.py:78-84 | Every zookeeper rule is well formed and has no NOT. |
| Inference.ZookeeperConsequents | Task-7/Inference.py:78-84 | Consequent i of `zookeeper_rules` matches a fact exactly when it reads `e is a <kind>` in four tokens, kind i being vertebrate, bird, bird and penguin. The match binds x to e. |
| Inference.ZookeeperBirdConditions | Task-7/Inference.py:80-81 | For every one-token e, the bird rules' conditions populate to `e has feathers`, and to `e flies` AND `e lays eggs`. |
| Inference.ZookeeperPenguinConditions | Task-7/Inference.py:82-83 | For every one-token e, the penguin rule's four conditions populate to `e is a bird`, `e does not fly`, `e swims` and `e has black and white color`, in that order. |
| Inference.NotAnIsAFact | Task-7/Inference.py:26-48 | Under these rules, a fact that is not four tokens with `is` second matches no consequent. Its goal tree is the fact alone, at any depth. |
| Inference.KindMatches | Task-7/Inference.py:29-30 | Consequent i matches `e is a <kind>` exactly when kind is kind i, and then binds x to e. |
| Inference.FeathersAlternative | Task-7/Inference.py:29-34 | The feathers rule (line 80) gives `e is a bird` exactly the alternative `e has feathers`, a leaf. |
| Inference.FliesAndLaysEggsAlternative | Task-7/Inference.py:29-41 | The flies-and-lays-eggs rule (line 81) gives `e is a bird` exactly the alternative AND(`e flies`, `e lays eggs`), both leaves. |
| Inference.BirdGoalTree | Task-7/Inference.py:25-48 | Under the zookeeper rules, the goal tree of `e is a bird` is OR(`e is a bird`, `e has feathers`, AND(`e flies`, `e lays eggs`)) at every depth of at least one. |
| Inference.PenguinAlternative | Task-7/Inference.py:29-41 | The penguin rule (lines 82-83) gives `e is a penguin` exactly one alternative: AND(goal tree of `e is a bird`, `e does not fly`, `e swims`, `e has black and white color`). |
| Inference.PenguinGoalTree | Task-7/Inference.py:25-48 | Under the zookeeper rules, the goal tree of `e is a penguin` is OR(`e is a penguin`, that AND). Its first condition is the bird tree at every depth of at least two, and the leaf `e is a bird` at depth one. |
| Inference.OpusIsABird | Task-7/Inference.py:78-84 | For `opus is a bird`: OR(`opus is a bird`, `opus has feathers`, AND(`opus flies`, `opus lays eggs`)). |
| Inference.OpusIsAPenguin | Task-7/Inference.py:96 | The query the file ends with, `opus is a penguin`, gives OR(`opus is a penguin`, AND(OR(`opus is a bird`, `opus has feathers`, AND(`opus flies`, `opus lays eggs`)), `opus does not fly`, `opus swims`, `opus has black and white color`)) at every depth of at least two. |
| Problem6.BackchainToGoalTree | Task-7/Problem6.py:1-24 | The second copy builds the same goal tree as `Inference.GoalTree`, on every input. |
| Problem6.RuleAlternative | Task-7/Problem6.py:5-22 | One pass of the second copy's rule loop adds the same alternatives as `Inference.Contribution`, and at most one. |
| Problem6.Subgoals | Task-7/Problem6.py:13-22 | Its `subgoals` loops yield the same subgoal list as `Inference.SubgoalTrees`. |
| Problem6.SameAsInference | Task-7/Problem6.py:1-24 | Both copies of `backchain_to_goal_tree` return equal trees for all rules, hypotheses and depths. |
| Problem5.SameAsInference | Task-7/Problem5.py:1-14 | The list equals `family_rules` in `Task-7/Inference.py`. |
| Problem5.RuleOrder | Task-7/Problem5.py:2-13 | There are exactly six rules with one action each. Their consequents start with self, child, sibling, grandparent, grandchild and cousin, in that order. |
| Problem5.ConsequentBound | Task-7/Problem5.py:3-12 | Every variable of each consequent is bound by a positive clause of its antecedent. |
| Problem5.NegationsBoundAt | Task-7/Problem5.py:5-11 | Every variable of each NOT clause is bound by a positive clause before it in the same AND. |
| Problem5.FamilyRulesWellFormed | Task-7/Problem5.py:2-13 | Every family rule, in this list and in the `Inference` list, is well formed. |
| Problem5.SiblingGuardIsSelf | Task-7/Problem5.py:3-6 | With x and y bound to the same value, the sibling guard `self (?x) (?y)` populates to the same fact as the self consequent `self (?x) (?x)`. |
| Problem5.GrandchildReachesGrandparent | Task-7/Problem5.py:7-9 | The grandchild antecedent is the grandparent consequent. Populated with any single-token values for x and y, it is matched by the grandparent consequent. |
| Production.MatchRoundTrip | Task-7/Inference.py:30 | A successful `match` binds exactly the pattern's variables. Populating the pattern with those bindings gives back the matched string. |
| Production.MatchComplete | Task-7/Inference.py:30 | `match` succeeds whenever some single-token bindings of the pattern's variables populate it to the string. |
| Production.MatchGround | Task-7/Inference.py:30 | A pattern without variables matches a string exactly when the two are equal. |
| Production.PopulateExpr | Task-7/Inference.py:36 | `populate` on a condition keeps the connective kind and the number of children. It populates a pattern, the operand of a NOT and each child in place. |
| Production.PopulateExprGround | Task-7/Inference.py:36 | Populating a condition with bindings for all its variables, each a single non-variable token, leaves no variable anywhere in it. |
| Production.PopulateGround | Task-7/Inference.py:33 | Populating a pattern with bindings for all its variables, each a single non-variable token, leaves no variable. |
| Production.Simplify | Task-7/Inference.py:48 | The result of `simplify` is in normal form. No AND or OR node has exactly one child, no AND sits directly under an AND, and no OR directly under an OR. |
| Production.SimplifyFixesSimplified | Task-7/Inference.py:48 | `simplify` leaves a tree already in normal form unchanged. |
| Production.SimplifyIdempotent | Task-7/Inference.py:48 | `simplify(simplify(t)) == simplify(t)`. |
| Production.SimplifyPreservesHolds | Task-7/Inference.py:48 | `simplify` never changes whether a tree holds in a fact set. |
| Text.Split | Task-8/LangChain.py:47 | `split(sep)` returns at least one piece, and no piece contains the separator. There is one piece exactly when the separator does not occur. |
| Text.JoinSplit | Task-9/LangChain.py:68 | Joining the pieces of a split with the separator gives back the string. |
| Text.SplitAtFirst | Task-8/LangChain.py:47 | The first piece of a split runs up to the first separator. The remaining pieces are the split of what follows it. |
| Text.ContainsAt | Task-8/LangChain.py:46 | `sub in s` holds exactly when `sub` starts at some position of `s`. |
| Text.RemoveChar | Task-8/LangChain.py:46 | `replace(c, '')` leaves no `c`, keeps every other character that was present, and adds none. Every other character keeps its number of occurrences. |
| Text.RemoveCharConcat | Task-8/LangChain.py:46 | Removing a character from `x + y` is removing it from x, then from y, and joining the results. |
| Text.Strip | Task-9/LangChain.py:69 | `strip()` leaves no whitespace at either end. |
| Text.StripPiece | Task-9/LangChain.py:69 | The result of `strip()` is the contiguous piece of the string with only whitespace before and after it. |
| Text.StripTrimmed | Task-9/LangChain.py:70 | Stripping a string without whitespace at either end changes nothing. |
| Knowledge.BaseQuery | Task-8/LangChain.py:46 | The base query has no `X`, `?`, `(` or `)`. Every other character is kept with its number of occurrences, and none is added. |
| Knowledge.BaseQueryConcat | Task-8/LangChain.py:46 | The base query of `x + y` is the base query of x followed by that of y. |
| Knowledge.BaseQueryOfCall | Task-8/LangChain.py:46 | For a predicate name free of `X`, `?`, `(` and `)`, the base query of `name(X)` is the name. |
| Knowledge.CanSwimBase | Task-8/LangChain.py:33 | The prompt's example query `can_swim(X)` has the base query `can_swim` once line 46 strips it. |
| Knowledge.EntityAfterParen | Task-8/LangChain.py:47 | The entity is the text right after the fact's first `(`, up to the next `(` or `)` or the end of the fact. |
| Knowledge.CollectEntities | Task-9/LangChain.py:84-89 | The loop, which `simple_fact_check` runs too, collects the entities of the facts that contain the base query, in knowledge-base order. |
| Knowledge.MatchingInOrder | Task-8/LangChain.py:45-48 | Facts are scanned in order: the entities of `xs + ys` are those of `xs` followed by those of `ys`. |
| Knowledge.MatchingBound | Task-8/LangChain.py:45-48 | There is at most one entity per fact. |
| Knowledge.MatchingSound | Task-8/LangChain.py:45-48 | Every listed entity is the entity of some fact containing the base query. |
| Knowledge.MatchingComplete | Task-8/LangChain.py:45-48 | The entity of every fact containing the base query is listed. |
| Knowledge.EmptyBaseMatchesAll | Task-8/LangChain.py:46 | An empty base query matches every fact. The list then has one entry per fact, and entry i is the entity of fact i. |
| Knowledge.NoMatches | Task-9/LangChain.py:90-93 | The entity list is empty exactly when no fact contains the base query. |
| Knowledge.KnowledgeBaseEntitiesDefined | Task-8/LangChain.py:7-15 | Every fact of the knowledge base contains `(`, so an entity can be read for every query. |
| FactCheck.SimpleFactCheck | Task-8/LangChain.py:42-51 | A query with `X` or `?` gets the list of matching entities. Any other query gets the answer to whether it is a fact of the knowledge base. The answer is a list exactly when the query has a wildcard. |
| FactCheck.WildcardAnswerSize | Task-8/LangChain.py:44-49 | A wildcard query lists at most \|knowledge base\| entities. When its base query is empty, it lists exactly that many. |
| FactCheck.KnowledgeBaseAnswers | Task-8/LangChain.py:7-15 | On the original knowledge base, every wildcard query can be answered. |
| LogicQuery.ExtractLogicQuery | Task-9/LangChain.py:65-72 | The extracted query is the one of the first line that starts with `QUERY:` once stripped, or "" when there is none. |
| LogicQuery.NoQueryLine | Task-9/LangChain.py:67-72 | With no `QUERY:` line, the query is "". |
| LogicQuery.FirstQueryLineWins | Task-9/LangChain.py:68-71 | The first `QUERY:` line decides. The query is what follows its six-character prefix, stripped, and later lines are ignored. |
| LogicQuery.FirstQueryTrimmed | Task-9/LangChain.py:70 | The extracted query has no whitespace at either end. |
| LogicQuery.ExecuteLogicQuery | Task-9/LangChain.py:74-95 | It answers each case with its own message:<br>- an empty query: "No query extracted";<br>- a query that is a fact: "True - fact found in knowledge base", even when it has a wildcard;<br>- a wildcard query: "Results: " followed by the entities joined with ", ", or "No matches found" when there are none;<br>- anything else: "False - not found in knowledge base".<br>The result is never empty. |
| LogicQuery.WildcardOutcome | Task-9/LangChain.py:83-93 | A wildcard query gets "No matches found" exactly when no fact contains its base query. Each fact that does contain it contributes its entity. |

## Left out

- The language-model, embedding, vector-store and graph code is foreign calls and network I/O, so it is not modelled. This covers `setup_vector_store`, `convert_nl_to_logic`, `get_context_for_query`, `run_logical_inference`, `retrieve_context`, `chain_of_thought`, the `StateGraph` wiring and `build_animal_graph` apart from its two query steps.
- The `main` functions, the environment setup and all printing are I/O. The `forward_chain` calls and the printed counts at the end of `Task-7/Inference.py` are left out for the same reason. The goal tree built there is the one `Inference.OpusIsAPenguin` states; only its printing is left out.
- The `production` module is not part of this model. `Production.Match`, `Production.Populate`, `Production.PopulateExpr` and `Production.Simplify` are assumed reconstructions, so their contracts describe the reconstructions, not unseen code. `forward_chain` is not modelled at all.
- Inference.BackchainToGoalTree: the recursion of the original has no depth bound and no cycle guard, and does not terminate on cyclic rule sets. The model carries a `fuel` depth. With fuel 0 no rule is tried and the hypothesis alone is the goal tree. Trees deeper than the fuel are not modelled.
- Problem6.BackchainToGoalTree: it carries the same `fuel` bound as the first copy.
- Inference.OpusIsAPenguin: it requires a depth of at least two, because the unbounded recursion of the original goes two rules deep on this query. Every such depth gives the same tree, and `Inference.PenguinGoalTree` also states the depth-one tree.
- Inference.Subgoals: one method serves the two identical `subgoals` loops, the AND one and the OR one.
- A rule with no actions gets no consequent (`None`). A condition that is not a string, such as a NOT inside an AND, is given to the recursive call. In both cases the original passes a non-string to the unseen `match`. The model treats both as matching nothing: the rule adds no alternative, and the condition's goal tree is `simplify(OR([condition]))`.
- FactCheck.SimpleFactCheck: Python recomputes the base query for every fact; the model computes it once and runs the shared loop `Knowledge.CollectEntities`. The value is the same on every iteration.
- FactCheck.SimpleFactCheck: Python returns a `bool` or a `list` from the same function. The two kinds of answer are the two cases of the `Answer` datatype.
- FactCheck.SimpleFactCheck and LogicQuery.ExecuteLogicQuery: the knowledge base is a parameter rather than the module-level list, which is `Knowledge.KnowledgeBase`. A matched fact without `(` raises `IndexError` in Python. The model requires such facts to have a `(`, and the given knowledge base does.
- LogicQuery.ExtractLogicQuery and LogicQuery.ExecuteLogicQuery take and return plain strings, not the graph-state dictionaries.
- Strings are sequences of characters. Whitespace for `strip()` is the set `str.isspace` accepts. There is no encoding and no Unicode normalisation.
