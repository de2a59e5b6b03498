/** The topic catalog: the record every view reads and the one lookup they share.
    The catalog itself (the constant TRANSITION_TOPICS) is static prose; it is
    passed around here as an opaque sequence of topics. */
module Catalog {
  import opened Optional

  /** One interview question of a topic. */
  datatype Question = Question(question: string, answer: string)

  /** A TransitionTopic; `questions` is an optional field of the source record. */
  datatype Topic = Topic(
    id: string,
    title: string,
    springEquivalent: string,
    description: string,
    snippet: string,
    questions: Option<seq<Question>>)

  /** `i` is the position of the first topic, in list order, whose id is `id`. */
  predicate IsFirstWithId(topics: seq<Topic>, id: string, i: int)
  {
    && 0 <= i < |topics|
    && topics[i].id == id
    && forall j :: 0 <= j < i ==> topics[j].id != id
  }

  /** Some topic of the list has the id `id`. */
  predicate HasId(topics: seq<Topic>, id: string)
  {
    exists i :: 0 <= i < |topics| && topics[i].id == id
  }

  /** `topics.find(t => t.id === id)`: the first topic with that id, or nothing
      (JavaScript's `undefined`) when no topic has it. */
  function Find(topics: seq<Topic>, id: string): (r: Option<Topic>)
    ensures r.None? <==> !HasId(topics, id)
    ensures r.Some? ==> exists i :: IsFirstWithId(topics, id, i) && topics[i] == r.value
  {
    if |topics| == 0 then None
    else if topics[0].id == id then
      assert IsFirstWithId(topics, id, 0);
      Some(topics[0])
    else
      var rest := Find(topics[1..], id);
      if rest.Some? then
        var k :| IsFirstWithId(topics[1..], id, k) && topics[1..][k] == rest.value;
        assert IsFirstWithId(topics, id, k + 1);
        rest
      else
        assert forall i :: 1 <= i < |topics| ==> topics[1..][i - 1] == topics[i];
        rest
  }

  /** The first topic with a given id is unique, so "the" topic Find returns is well defined. */
  lemma FirstWithIdUnique(topics: seq<Topic>, id: string, i: int, j: int)
    requires IsFirstWithId(topics, id, i) && IsFirstWithId(topics, id, j)
    ensures i == j
  {
  }

  /** When the first topic with `id` sits at position `i`, Find returns exactly that topic. */
  lemma FindReturnsFirst(topics: seq<Topic>, id: string, i: int)
    requires IsFirstWithId(topics, id, i)
    ensures Find(topics, id) == Some(topics[i])
  {
    var r := Find(topics, id);
    assert r.Some?;
    var k :| IsFirstWithId(topics, id, k) && topics[k] == r.value;
    FirstWithIdUnique(topics, id, i, k);
  }
}
