/**
  The fact list the two query checkers read, and the string work they
  share: stripping the wildcard and parentheses from a query, and reading
  the entity out of a fact `predicate(entity)`.
 */
module Knowledge {
  import opened Text

  /** `knowledge_base`: the same nineteen facts in both query checkers. */
  function KnowledgeBase(): seq<string> {
    [ "bird(robin)", "bird(penguin)", "bird(eagle)",
      "mammal(dog)", "mammal(cat)", "mammal(whale)",
      "fish(salmon)", "fish(shark)",
      "can_fly(robin)", "can_fly(eagle)",
      "can_swim(penguin)", "can_swim(whale)", "can_swim(salmon)",
      "has_feathers(robin)", "has_feathers(penguin)", "has_feathers(eagle)",
      "warm_blooded(robin)", "warm_blooded(penguin)", "warm_blooded(dog)" ]
  }

  /** A query asks for entities when it has an `X` or a `?`. */
  predicate IsWildcard(query: string) {
    'X' in query || '?' in query
  }

  /** `query.replace('X', '').replace('?', '').replace('(', '').replace(')', '')`:
      the query without its wildcard and parentheses, everything else kept. */
  function BaseQuery(query: string): (base: string)
    ensures 'X' !in base && '?' !in base && '(' !in base && ')' !in base
    ensures forall c :: c !in "X?()" ==> (c in base <==> c in query)
    ensures |base| <= |query|
    ensures multiset(base) == multiset(query)['X' := 0]['?' := 0]['(' := 0][')' := 0]
  {
    RemoveChar(RemoveChar(RemoveChar(RemoveChar(query, 'X'), '?'), '('), ')')
  }

  /** The base query is taken piece by piece: the characters it keeps stay
      in their order. */
  lemma BaseQueryConcat(x: string, y: string)
    ensures BaseQuery(x + y) == BaseQuery(x) + BaseQuery(y)
  {
    RemoveCharConcat(x, y, 'X');
    var x1, y1 := RemoveChar(x, 'X'), RemoveChar(y, 'X');
    RemoveCharConcat(x1, y1, '?');
    var x2, y2 := RemoveChar(x1, '?'), RemoveChar(y1, '?');
    RemoveCharConcat(x2, y2, '(');
    var x3, y3 := RemoveChar(x2, '('), RemoveChar(y2, '(');
    RemoveCharConcat(x3, y3, ')');
  }

  /** A query `name(X)` asks about the facts that contain `name`. */
  lemma BaseQueryOfCall(name: string)
    requires 'X' !in name && '?' !in name && '(' !in name && ')' !in name
    ensures BaseQuery(name + "(X)") == name
  {
    var args := "(X)";
    BaseQueryConcat(name, args);
    assert multiset(BaseQuery(args)) == multiset{};
  }

  /** `can_swim(X)` asks about the facts containing `can_swim`. */
  lemma CanSwimBase(query: string)
    requires query == "can_swim(X)"
    ensures BaseQuery(query) == "can_swim"
  {
    var name := "can_swim";
    assert query == name + "(X)";
    BaseQueryOfCall(name);
  }

  /** `fact.split('(')[1].split(')')[0]`. Python raises an IndexError for a
      fact without '('; this is only defined for facts that have one. */
  function Entity(fact: string): string
    requires '(' in fact
  {
    Split(Split(fact, '(')[1], ')')[0]
  }

  /** The entity is the text right after the first '(' of the fact, up to
      the next '(' or ')' or the end of the fact. */
  lemma EntityAfterParen(fact: string)
    requires '(' in fact
    ensures var rest := fact[IndexOf(fact, '(') + 1..];
            && StartsWith(rest, Entity(fact))
            && '(' !in Entity(fact) && ')' !in Entity(fact)
            && (|Entity(fact)| == |rest| || rest[|Entity(fact)|] in "()")
  {
    var rest := fact[IndexOf(fact, '(') + 1..];
    SplitAtFirst(fact, '(');
    var inner := Split(rest, '(')[0];
    FirstPiece(rest, '(');
    FirstPiece(inner, ')');
    PrefixOfPrefix(rest, inner, Split(inner, ')')[0]);
  }

  /** The first piece of a split is a prefix of the string, ended by the
      separator or by the end of the string. */
  lemma FirstPiece(s: string, sep: char)
    ensures StartsWith(s, Split(s, sep)[0])
    ensures |Split(s, sep)[0]| == |s| || s[|Split(s, sep)[0]|] == sep
  {
    if sep in s {
      SplitAtFirst(s, sep);
    } else {
      SplitNoSeparator(s, sep);
    }
  }

  lemma PrefixOfPrefix(rest: string, inner: string, e: string)
    requires StartsWith(rest, inner) && (|inner| == |rest| || rest[|inner|] == '(')
    requires StartsWith(inner, e) && (|e| == |inner| || inner[|e|] == ')')
    requires '(' !in inner && ')' !in e
    ensures StartsWith(rest, e) && '(' !in e && ')' !in e
    ensures |e| == |rest| || rest[|e|] in "()"
  {
    assert e == inner[..|e|] == rest[..|e|];
    if |e| < |inner| {
      assert rest[|e|] == inner[|e|];
    }
    assert forall k :: 0 <= k < |e| ==> e[k] == inner[k];
  }

  /** Every fact a query matches has a '(' to read the entity after. */
  predicate EntitiesDefined(kb: seq<string>, base: string) {
    forall i :: 0 <= i < |kb| && Contains(kb[i], base) ==> '(' in kb[i]
  }

  /** The entities of the facts that contain `base`, in fact order. */
  function MatchingEntities(kb: seq<string>, base: string): seq<string>
    requires EntitiesDefined(kb, base)
  {
    if kb == [] then []
    else
      var last := kb[|kb| - 1];
      MatchingEntities(kb[..|kb| - 1], base) + (if Contains(last, base) then [Entity(last)] else [])
  }

  /** The loop both checkers run: `results.append(entity)` for each fact
      containing the base query. */
  method CollectEntities(kb: seq<string>, base: string) returns (results: seq<string>)
    requires EntitiesDefined(kb, base)
    ensures results == MatchingEntities(kb, base)
  {
    results := [];
    for i := 0 to |kb|
      invariant results == MatchingEntities(kb[..i], base)
    {
      assert kb[..i + 1][..i] == kb[..i];
      var fact := kb[i];
      if Contains(fact, base) {
        var entity := Entity(fact);
        results := results + [entity];
      }
    }
    assert kb[..|kb|] == kb;
  }

  // ---------------------------------------------------------------------------
  // properties of the matching entities

  /** Facts are scanned in order: the entities of `xs + ys` are those of
      `xs` followed by those of `ys`. */
  lemma {:induction false} MatchingInOrder(xs: seq<string>, ys: seq<string>, base: string)
    requires EntitiesDefined(xs + ys, base)
    ensures EntitiesDefined(xs, base) && EntitiesDefined(ys, base)
    ensures MatchingEntities(xs + ys, base) == MatchingEntities(xs, base) + MatchingEntities(ys, base)
    decreases |ys|
  {
    assert forall i :: 0 <= i < |xs| ==> (xs + ys)[i] == xs[i];
    assert forall i :: 0 <= i < |ys| ==> (xs + ys)[|xs| + i] == ys[i];
    if ys == [] {
      assert xs + ys == xs;
    } else {
      var init := ys[..|ys| - 1];
      assert (xs + ys)[..|xs + ys| - 1] == xs + init;
      assert EntitiesDefined(xs + init, base) by {
        forall i | 0 <= i < |xs + init| ensures (xs + init)[i] == (xs + ys)[i] { }
      }
      MatchingInOrder(xs, init, base);
    }
  }

  /** At most one entity per fact. */
  lemma {:induction false} MatchingBound(kb: seq<string>, base: string)
    requires EntitiesDefined(kb, base)
    ensures |MatchingEntities(kb, base)| <= |kb|
  {
    if kb != [] {
      MatchingBound(kb[..|kb| - 1], base);
    }
  }

  /** An empty base query (the query was only `X`, `?` and parentheses)
      matches every fact: one entity per fact, in order. */
  lemma {:induction false} EmptyBaseMatchesAll(kb: seq<string>)
    requires EntitiesDefined(kb, "")
    ensures |MatchingEntities(kb, "")| == |kb|
    ensures forall i :: 0 <= i < |kb| ==> MatchingEntities(kb, "")[i] == Entity(kb[i])
  {
    if kb != [] {
      var init := kb[..|kb| - 1];
      EmptyBaseMatchesAll(init);
      ContainsEmpty(kb[|kb| - 1]);
    }
  }

  /** Every entity comes from a fact containing the base query. */
  lemma {:induction false} MatchingSound(kb: seq<string>, base: string, e: string)
    requires EntitiesDefined(kb, base)
    requires e in MatchingEntities(kb, base)
    ensures exists i :: 0 <= i < |kb| && Contains(kb[i], base) && e == Entity(kb[i])
  {
    var init := kb[..|kb| - 1];
    if e in MatchingEntities(init, base) {
      MatchingSound(init, base, e);
      var i :| 0 <= i < |init| && Contains(init[i], base) && e == Entity(init[i]);
      assert kb[i] == init[i];
    } else {
      assert Contains(kb[|kb| - 1], base) && e == Entity(kb[|kb| - 1]);
    }
  }

  /** Every fact containing the base query gives its entity. */
  lemma {:induction false} MatchingComplete(kb: seq<string>, base: string, i: nat)
    requires EntitiesDefined(kb, base)
    requires i < |kb| && Contains(kb[i], base)
    ensures Entity(kb[i]) in MatchingEntities(kb, base)
  {
    var init := kb[..|kb| - 1];
    if i < |init| {
      assert init[i] == kb[i];
      MatchingComplete(init, base, i);
    }
  }

  /** There are no entities exactly when no fact contains the base query. */
  lemma NoMatches(kb: seq<string>, base: string)
    requires EntitiesDefined(kb, base)
    ensures MatchingEntities(kb, base) == [] <==> forall i :: 0 <= i < |kb| ==> !Contains(kb[i], base)
  {
    if MatchingEntities(kb, base) != [] {
      MatchingSound(kb, base, MatchingEntities(kb, base)[0]);
    } else {
      forall i | 0 <= i < |kb| ensures !Contains(kb[i], base) {
        if Contains(kb[i], base) {
          MatchingComplete(kb, base, i);
        }
      }
    }
  }

  /** Every fact of the knowledge base has a '(', so entities can be read
      for any query. */
  lemma KnowledgeBaseEntitiesDefined(base: string)
    ensures forall i :: 0 <= i < |KnowledgeBase()| ==> '(' in KnowledgeBase()[i]
    ensures EntitiesDefined(KnowledgeBase(), base)
  {
    KnowledgeBaseParens(KnowledgeBase());
  }

  lemma KnowledgeBaseParens(kb: seq<string>)
    requires kb == KnowledgeBase()
    ensures forall i :: 0 <= i < |kb| ==> '(' in kb[i]
  {
  }
}
