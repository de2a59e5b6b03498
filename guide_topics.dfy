/** GuideTopicsService: the catalog, the stored active topic id, and the
    selection derived from them. */
module GuideTopics {
  import opened Optional
  import opened Catalog

  /** The `selectedTopic` computation: the first topic whose id is the stored
      id, else the first topic, else null (None). */
  function Selected(topics: seq<Topic>, activeId: string): (r: Option<Topic>)
    ensures r.None? <==> |topics| == 0
    ensures r.Some? ==> r.value in topics
    ensures HasId(topics, activeId) ==> r.Some? && r.value.id == activeId
    ensures !HasId(topics, activeId) && |topics| > 0 ==> r == Some(topics[0])
  {
    var found := Find(topics, activeId);
    if found.Some? then found
    else if |topics| > 0 then Some(topics[0])
    else None
  }

  /** A stored id that some topic carries selects the first such topic in list order. */
  lemma SelectedIsFirstMatch(topics: seq<Topic>, activeId: string, i: int)
    requires IsFirstWithId(topics, activeId, i)
    ensures Selected(topics, activeId) == Some(topics[i])
  {
    FindReturnsFirst(topics, activeId, i);
  }

  /** `isActive` compares with the stored id, not with the selected topic: after an
      unknown id is stored, the first topic is shown as selected yet is not active,
      although `find` by the same id finds no topic. */
  lemma UnknownIdSelectsFirstButActivatesNone(topics: seq<Topic>, activeId: string)
    requires |topics| > 0 && !HasId(topics, activeId)
    ensures Selected(topics, activeId) == Some(topics[0])
    ensures topics[0].id != activeId
    ensures Find(topics, activeId) == None
  {
    assert topics[0].id != activeId;
  }

  /** Two topics "a" and "b": the stored id "b" selects "b"; the unknown id "z"
      selects "a", which is then not active. */
  lemma SelectionScenario()
    ensures var a := Topic("a", "Alpha", "X", "", "", None);
            var b := Topic("b", "Beta", "Y", "", "", None);
            && Selected([a, b], "b") == Some(b)
            && Selected([a, b], "z") == Some(a)
            && a.id != "z"
  {
    var a := Topic("a", "Alpha", "X", "", "", None);
    var b := Topic("b", "Beta", "Y", "", "", None);
    SelectedIsFirstMatch([a, b], "b", 1);
    assert !HasId([a, b], "z");
  }

  class GuideTopicsService {
    /** The `allTopics` signal; nothing ever sets it after construction. */
    var allTopics: seq<Topic>
    /** The `activeTopicId` signal. */
    var activeTopicId: string

    constructor (catalog: seq<Topic>)
      ensures allTopics == catalog
      ensures activeTopicId == if |catalog| > 0 then catalog[0].id else ""
    {
      allTopics := catalog;
      activeTopicId := if |catalog| > 0 then catalog[0].id else "";
    }

    /** The `topics` signal: the catalog, unchanged. */
    function Topics(): (r: seq<Topic>)
      reads this
      ensures r == allTopics
    {
      allTopics
    }

    /** The `selectedTopic` signal. */
    function SelectedTopic(): (r: Option<Topic>)
      reads this
      ensures r.None? <==> |allTopics| == 0
      ensures r.Some? ==> r.value in allTopics
      ensures HasId(allTopics, activeTopicId) ==> r.Some? && r.value.id == activeTopicId
    {
      Selected(allTopics, activeTopicId)
    }

    /** Stores any id, known or not; the catalog is untouched. */
    method SelectTopic(topicId: string)
      modifies this`activeTopicId
      ensures activeTopicId == topicId
      ensures allTopics == old(allTopics)
      ensures IsActive(topicId) && forall x :: x != topicId ==> !IsActive(x)
    {
      activeTopicId := topicId;
    }

    /** True exactly for the stored id, whether or not a topic carries it; it
        does not look at the selected topic. */
    function IsActive(topicId: string): (b: bool)
      reads this
      ensures b <==> activeTopicId == topicId
      ensures b && |allTopics| > 0 && !HasId(allTopics, activeTopicId) ==>
                SelectedTopic() != None && SelectedTopic().value.id != topicId
    {
      activeTopicId == topicId
    }
  }

  /** Selecting an unknown id in a non-empty catalog leaves the first topic
      selected while neither it nor any other topic is active. */
  method SelectUnknownTopic(svc: GuideTopicsService, topicId: string)
    requires |svc.allTopics| > 0 && !HasId(svc.allTopics, topicId)
    modifies svc
    ensures svc.allTopics == old(svc.allTopics)
    ensures svc.activeTopicId == topicId && svc.IsActive(topicId)
    ensures svc.SelectedTopic() == Some(svc.allTopics[0])
    ensures forall i :: 0 <= i < |svc.allTopics| ==> !svc.IsActive(svc.allTopics[i].id)
  {
    svc.SelectTopic(topicId);
    UnknownIdSelectsFirstButActivatesNone(svc.allTopics, topicId);
  }
}
