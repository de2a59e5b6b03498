/** The sidebar's search: a stored query and the topics it lets through. */
module Sidebar {
  import opened Optional
  import opened Catalog
  import opened Text
  import GuideTopics

  /** A topic matches an already lower-cased query when its lower-cased title or
      lower-cased Spring equivalent includes the query. */
  predicate MatchesLowered(t: Topic, query: string)
  {
    Includes(Lower(t.title), query) || Includes(Lower(t.springEquivalent), query)
  }

  /** A topic matches the raw query typed by the user, case-insensitively. */
  predicate Matches(t: Topic, searchQuery: string)
    ensures searchQuery == "" ==> Matches(t, searchQuery)
    ensures Matches(t, searchQuery) ==>
              |searchQuery| <= |t.title| || |searchQuery| <= |t.springEquivalent|
  {
    MatchesLowered(t, Lower(searchQuery))
  }

  /** `a` is `b` with some elements dropped, the rest kept in their order. */
  predicate IsSubsequence(a: seq<Topic>, b: seq<Topic>)
    decreases |b|
  {
    if |a| == 0 then true
    else if |b| == 0 then false
    else if a[0] == b[0] then IsSubsequence(a[1..], b[1..])
    else IsSubsequence(a, b[1..])
  }

  /** A subsequence is no longer than the sequence it was taken from. */
  lemma {:induction false} SubsequenceNoLonger(a: seq<Topic>, b: seq<Topic>)
    requires IsSubsequence(a, b)
    ensures |a| <= |b|
    decreases |b|
  {
    if |a| > 0 {
      if a[0] == b[0] {
        SubsequenceNoLonger(a[1..], b[1..]);
      } else {
        SubsequenceNoLonger(a, b[1..]);
      }
    }
  }

  /** `topics.filter(...)` with the lower-cased query: the matching topics, in order. */
  function FilterMatching(topics: seq<Topic>, query: string): (r: seq<Topic>)
    ensures IsSubsequence(r, topics)
    ensures forall t :: t in r ==> MatchesLowered(t, query)
    ensures forall t :: t in topics && MatchesLowered(t, query) ==> t in r
    ensures forall t :: multiset(r)[t] == if MatchesLowered(t, query) then multiset(topics)[t] else 0
  {
    if |topics| == 0 then []
    else
      var rest := FilterMatching(topics[1..], query);
      assert forall t :: t in topics ==> t == topics[0] || t in topics[1..];
      assert topics == [topics[0]] + topics[1..];
      if MatchesLowered(topics[0], query) then [topics[0]] + rest else rest
  }

  /** The `filteredTopics` computation: an empty query returns the list itself,
      any other query keeps the topics that match it. */
  function FilterTopics(topics: seq<Topic>, searchQuery: string): (r: seq<Topic>)
    ensures searchQuery == "" ==> r == topics
    ensures IsSubsequence(r, topics) && |r| <= |topics|
    ensures forall t :: t in r ==> Matches(t, searchQuery)
    ensures forall t :: t in topics && Matches(t, searchQuery) ==> t in r
    ensures forall t :: multiset(r)[t] == if Matches(t, searchQuery) then multiset(topics)[t] else 0
  {
    var query := Lower(searchQuery);
    if query == "" then
      SubsequenceOfItself(topics);
      forall t: Topic ensures Matches(t, searchQuery) { IncludesEmpty(Lower(t.title)); }
      topics
    else
      var r := FilterMatching(topics, query);
      SubsequenceNoLonger(r, topics);
      r
  }

  /** Every sequence is a subsequence of itself. */
  lemma {:induction false} SubsequenceOfItself(a: seq<Topic>)
    ensures IsSubsequence(a, a)
    decreases |a|
  {
    if |a| > 0 {
      SubsequenceOfItself(a[1..]);
    }
  }

  /** The empty-query shortcut changes nothing: filtering by the empty query would
      keep every topic anyway, since every string includes "". */
  lemma {:induction false} EmptyQueryFilterKeepsAll(topics: seq<Topic>)
    ensures FilterMatching(topics, "") == topics
    decreases |topics|
  {
    if |topics| > 0 {
      IncludesEmpty(Lower(topics[0].title));
      EmptyQueryFilterKeepsAll(topics[1..]);
    }
  }

  /** Letter case in the query does not matter: the query and its lower-cased form
      give the same list. */
  lemma QueryCaseIrrelevant(topics: seq<Topic>, searchQuery: string)
    ensures FilterTopics(topics, searchQuery) == FilterTopics(topics, Lower(searchQuery))
  {
    LowerIdempotent(searchQuery);
  }

  /** A query made only of whitespace is not treated as empty: it is a real
      substring search, and a topic whose title and Spring equivalent hold no
      such character is dropped. */
  lemma WhitespaceQueryIsSearched(topics: seq<Topic>, searchQuery: string)
    requires |searchQuery| > 0
    requires forall i :: 0 <= i < |searchQuery| ==> searchQuery[i] in {' ', '\t', '\n'}
    requires |topics| > 0
    requires forall i :: 0 <= i < |topics[0].title| ==> topics[0].title[i] !in {' ', '\t', '\n'}
    requires forall i :: 0 <= i < |topics[0].springEquivalent| ==>
               topics[0].springEquivalent[i] !in {' ', '\t', '\n'}
    ensures FilterTopics(topics, searchQuery) == FilterMatching(topics, Lower(searchQuery))
    ensures !Matches(topics[0], searchQuery)
  {
    var q := Lower(searchQuery);
    assert q[0] == searchQuery[0];
    assert q != "";
    MissingCharExcludes(Lower(topics[0].title), q);
    MissingCharExcludes(Lower(topics[0].springEquivalent), q);
  }

  /** Two topics, "Alpha" (Spring equivalent "X") and "Beta" ("Y"): "alp" finds the
      first by its title, "x" finds it by its Spring equivalent, and " " finds neither. */
  lemma SearchScenario()
    ensures var a := Topic("a", "Alpha", "X", "", "", None);
            var b := Topic("b", "Beta", "Y", "", "", None);
            && FilterTopics([a, b], "alp") == [a]
            && FilterTopics([a, b], "x") == [a]
            && FilterTopics([a, b], " ") == []
  {
    var a := Topic("a", "Alpha", "X", "", "", None);
    var b := Topic("b", "Beta", "Y", "", "", None);
    ScenarioTitleQuery(a, b);
    KeepsFirstOfTwo(a, b, "alp");
    ScenarioSpringQuery(a, b);
    KeepsFirstOfTwo(a, b, "x");
    ScenarioBlankQuery(a, b);
    KeepsNoneOfTwo(a, b, " ");
  }

  /** In the search scenario "alp" matches the first title and nothing of the second topic. */
  lemma ScenarioTitleQuery(a: Topic, b: Topic)
    requires a.title == "Alpha" && a.springEquivalent == "X"
    requires b.title == "Beta" && b.springEquivalent == "Y"
    ensures Lower("alp") == "alp"
    ensures MatchesLowered(a, "alp") && !MatchesLowered(b, "alp")
  {
    LowerLiterals();
    assert Includes("alpha", "alp");
    assert !Includes("beta", "alp");
    MissingCharExcludes("y", "alp");
  }

  /** In the search scenario "x" matches the first Spring equivalent only. */
  lemma ScenarioSpringQuery(a: Topic, b: Topic)
    requires a.title == "Alpha" && a.springEquivalent == "X"
    requires b.title == "Beta" && b.springEquivalent == "Y"
    ensures Lower("x") == "x"
    ensures MatchesLowered(a, "x") && !MatchesLowered(b, "x")
  {
    LowerLiterals();
    assert Includes("x", "x");
    MissingCharExcludes("beta", "x");
    MissingCharExcludes("y", "x");
  }

  /** In the search scenario " " matches neither topic. */
  lemma ScenarioBlankQuery(a: Topic, b: Topic)
    requires a.title == "Alpha" && a.springEquivalent == "X"
    requires b.title == "Beta" && b.springEquivalent == "Y"
    ensures Lower(" ") == " "
    ensures !MatchesLowered(a, " ") && !MatchesLowered(b, " ")
  {
    LowerLiterals();
    MissingCharExcludes("alpha", " ");
    MissingCharExcludes("x", " ");
    MissingCharExcludes("beta", " ");
    MissingCharExcludes("y", " ");
  }

  /** The lower-cased strings of the search scenario. */
  lemma LowerLiterals()
    ensures Lower("Alpha") == "alpha" && Lower("Beta") == "beta"
    ensures Lower("X") == "x" && Lower("Y") == "y"
    ensures Lower("alp") == "alp" && Lower("x") == "x" && Lower(" ") == " "
  {
  }

  /** Filtering two topics of which only the first matches. */
  lemma KeepsFirstOfTwo(a: Topic, b: Topic, q: string)
    requires Lower(q) == q && q != ""
    requires MatchesLowered(a, q) && !MatchesLowered(b, q)
    ensures FilterTopics([a, b], q) == [a]
  {
    assert [a, b][1..] == [b] && [b][1..] == [];
    assert FilterMatching([b], q) == [];
    assert FilterMatching([a, b], q) == [a];
  }

  /** Filtering two topics of which neither matches. */
  lemma KeepsNoneOfTwo(a: Topic, b: Topic, q: string)
    requires Lower(q) == q && q != ""
    requires !MatchesLowered(a, q) && !MatchesLowered(b, q)
    ensures FilterTopics([a, b], q) == []
  {
    assert [a, b][1..] == [b] && [b][1..] == [];
    assert FilterMatching([b], q) == [];
    assert FilterMatching([a, b], q) == [];
  }

  class Sidebar {
    const guideTopics: GuideTopics.GuideTopicsService
    /** The `searchQuery` signal. */
    var searchQuery: string

    constructor (service: GuideTopics.GuideTopicsService)
      ensures guideTopics == service && searchQuery == ""
    {
      guideTopics := service;
      searchQuery := "";
    }

    /** The `filteredTopics` signal, over the service's current topics. */
    function FilteredTopics(): (r: seq<Topic>)
      reads this, guideTopics
      ensures searchQuery == "" ==> r == guideTopics.allTopics
      ensures IsSubsequence(r, guideTopics.allTopics)
      ensures forall t :: t in guideTopics.allTopics ==> (t in r <==> Matches(t, searchQuery))
      ensures forall t :: multiset(r)[t] ==
                if Matches(t, searchQuery) then multiset(guideTopics.allTopics)[t] else 0
    {
      FilterTopics(guideTopics.Topics(), searchQuery)
    }

    /** Stores the input element's value as the query, exactly as typed. */
    method UpdateSearch(value: string)
      modifies this`searchQuery
      ensures searchQuery == value
    {
      searchQuery := value;
    }
  }
}
