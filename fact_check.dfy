/**
  `simple_fact_check` (Task-8): a query with a wildcard lists the entities
  of the facts containing its base; any other query is looked up as a
  whole fact. The knowledge base is a parameter here; the original reads
  the module-level list, which `Knowledge.KnowledgeBase` holds.
 */
module FactCheck {
  import opened Text
  import opened Knowledge

  /** Python returns a bool for a plain query and a list for a wildcard
      query; the two kinds of answer are the two cases here. */
  datatype Answer = Membership(found: bool) | Entities(entities: seq<string>)

  /** `simple_fact_check(logic_query)`. */
  method SimpleFactCheck(kb: seq<string>, query: string) returns (answer: Answer)
    requires IsWildcard(query) ==> EntitiesDefined(kb, BaseQuery(query))
    ensures answer.Entities? <==> IsWildcard(query)
    ensures !IsWildcard(query) ==> answer == Membership(query in kb)
    ensures IsWildcard(query) ==> answer == Entities(MatchingEntities(kb, BaseQuery(query)))
  {
    if 'X' in query || '?' in query {
      var results := CollectEntities(kb, BaseQuery(query));
      answer := Entities(results);
    } else {
      answer := Membership(query in kb);
    }
  }

  /** A wildcard query lists at most one entity per fact, and, when its
      base is empty (the query is `X` or `(X)`, say), exactly one per fact. */
  lemma WildcardAnswerSize(kb: seq<string>, query: string)
    requires IsWildcard(query) && EntitiesDefined(kb, BaseQuery(query))
    ensures |MatchingEntities(kb, BaseQuery(query))| <= |kb|
    ensures BaseQuery(query) == "" ==> |MatchingEntities(kb, BaseQuery(query))| == |kb|
  {
    MatchingBound(kb, BaseQuery(query));
    if BaseQuery(query) == "" {
      EmptyBaseMatchesAll(kb);
    }
  }

  /** On the knowledge base of the original every query can be answered:
      every fact has a '(' to read an entity after. */
  lemma KnowledgeBaseAnswers(query: string)
    ensures IsWildcard(query) ==> EntitiesDefined(KnowledgeBase(), BaseQuery(query))
  {
    KnowledgeBaseEntitiesDefined(BaseQuery(query));
  }
}
