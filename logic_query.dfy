/**
  The two string steps of the animal question graph (Task-9):
  `extract_logic_query` picks the query out of the model's reasoning, and
  `execute_logic_query` answers it against the knowledge base. The
  reasoning text and the knowledge base are parameters; the graph state
  they come from is not part of this model.
 */
module LogicQuery {
  import opened Text
  import opened Knowledge

  /** A line announcing the query once stripped. */
  predicate IsQueryLine(line: string) {
    StartsWith(Strip(line), "QUERY:")
  }

  /** `line.strip()[6:].strip()`: what follows `QUERY:`, stripped. */
  function QueryOf(line: string): string
    requires IsQueryLine(line)
  {
    Strip(Strip(line)[6..])
  }

  /** The query of the first query line, or "" when there is none. */
  function FirstQuery(lines: seq<string>): string {
    if lines == [] then ""
    else if IsQueryLine(lines[0]) then QueryOf(lines[0])
    else FirstQuery(lines[1..])
  }

  /** `extract_logic_query`: scans the lines of the reasoning and stops at
      the first query line. */
  method ExtractLogicQuery(reasoning: string) returns (query: string)
    ensures query == FirstQuery(Split(reasoning, '\n'))
  {
    var lines := Split(reasoning, '\n');
    query := "";
    var i := 0;
    assert lines[0..] == lines;
    while i < |lines|
      invariant 0 <= i <= |lines|
      invariant FirstQuery(lines) == FirstQuery(lines[i..])
      invariant query == ""
    {
      var line := lines[i];
      FirstQueryStep(lines, i);
      if IsQueryLine(line) {
        query := QueryOf(line);
        break;
      }
      i := i + 1;
    }
    if i == |lines| {
      assert lines[i..] == [];
    }
  }

  lemma FirstQueryStep(lines: seq<string>, i: nat)
    requires i < |lines|
    ensures FirstQuery(lines[i..])
            == if IsQueryLine(lines[i]) then QueryOf(lines[i]) else FirstQuery(lines[i + 1..])
  {
    assert lines[i..][0] == lines[i];
    assert lines[i..][1..] == lines[i + 1..];
  }

  /** Lines that are not query lines are skipped. */
  lemma {:induction false} SkipNonQueryLines(lines: seq<string>, j: nat, k: nat)
    requires j <= k <= |lines|
    requires forall i :: j <= i < k ==> !IsQueryLine(lines[i])
    ensures FirstQuery(lines[j..]) == FirstQuery(lines[k..])
    decreases k - j
  {
    if j < k {
      FirstQueryStep(lines, j);
      SkipNonQueryLines(lines, j + 1, k);
    }
  }

  /** With no query line the query is empty. */
  lemma NoQueryLine(lines: seq<string>)
    requires forall i :: 0 <= i < |lines| ==> !IsQueryLine(lines[i])
    ensures FirstQuery(lines) == ""
  {
    SkipNonQueryLines(lines, 0, |lines|);
    assert lines[0..] == lines && lines[|lines|..] == [];
  }

  /** The first query line decides: later ones are ignored. */
  lemma FirstQueryLineWins(lines: seq<string>, k: nat)
    requires k < |lines| && IsQueryLine(lines[k])
    requires forall i :: 0 <= i < k ==> !IsQueryLine(lines[i])
    ensures FirstQuery(lines) == QueryOf(lines[k])
  {
    SkipNonQueryLines(lines, 0, k);
    FirstQueryStep(lines, k);
    assert lines[0..] == lines;
  }

  /** The extracted query has no whitespace at either end. */
  lemma {:induction false} FirstQueryTrimmed(lines: seq<string>)
    ensures IsTrimmed(FirstQuery(lines))
  {
    if lines != [] && !IsQueryLine(lines[0]) {
      FirstQueryTrimmed(lines[1..]);
    }
  }

  const NoQueryMessage := "No query extracted"
  const FoundMessage := "True - fact found in knowledge base"
  const NoMatchesMessage := "No matches found"
  const NotFoundMessage := "False - not found in knowledge base"

  /** `execute_logic_query`: empty query, then exact membership, then the
      wildcard listing, and otherwise not found. */
  method ExecuteLogicQuery(kb: seq<string>, query: string) returns (result: string)
    requires query != "" && query !in kb && IsWildcard(query) ==> EntitiesDefined(kb, BaseQuery(query))
    ensures query == "" ==> result == NoQueryMessage
    ensures query != "" && query in kb ==> result == FoundMessage
    ensures query != "" && query !in kb && IsWildcard(query) ==>
              var es := MatchingEntities(kb, BaseQuery(query));
              result == if es != [] then "Results: " + Join(es, ", ") else NoMatchesMessage
    ensures query != "" && query !in kb && !IsWildcard(query) ==> result == NotFoundMessage
    ensures result != []
  {
    if query == "" {
      return NoQueryMessage;
    }
    if query in kb {
      return FoundMessage;
    }
    if 'X' in query || '?' in query {
      var baseQuery := BaseQuery(query);
      var results := CollectEntities(kb, baseQuery);
      if results != [] {
        return "Results: " + Join(results, ", ");
      } else {
        return NoMatchesMessage;
      }
    }
    return NotFoundMessage;
  }

  /** A wildcard query that no fact matches is answered "No matches
      found", and one that some fact matches lists that fact's entity. */
  lemma WildcardOutcome(kb: seq<string>, query: string)
    requires query != "" && query !in kb && IsWildcard(query)
    requires EntitiesDefined(kb, BaseQuery(query))
    ensures MatchingEntities(kb, BaseQuery(query)) == [] <==>
            forall i :: 0 <= i < |kb| ==> !Contains(kb[i], BaseQuery(query))
    ensures forall i :: 0 <= i < |kb| && Contains(kb[i], BaseQuery(query)) ==>
              Entity(kb[i]) in MatchingEntities(kb, BaseQuery(query))
  {
    NoMatches(kb, BaseQuery(query));
    forall i | 0 <= i < |kb| && Contains(kb[i], BaseQuery(query))
      ensures Entity(kb[i]) in MatchingEntities(kb, BaseQuery(query))
    {
      MatchingComplete(kb, BaseQuery(query), i);
    }
  }
}
