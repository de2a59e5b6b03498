/** The root component: it forwards topic selection to the service and carries a
    second copy of the playground's counter. */
module App {
  import opened Optional
  import opened Catalog
  import GuideTopics
  import Counter

  class App {
    const guideTopics: GuideTopics.GuideTopicsService
    /** The root component's own `counter` signal. */
    var counter: int

    constructor (service: GuideTopics.GuideTopicsService)
      ensures guideTopics == service && counter == 0
    {
      guideTopics := service;
      counter := 0;
    }

    /** `topics`, re-exported from the service. */
    function Topics(): (r: seq<Topic>)
      reads this, guideTopics
      ensures r == guideTopics.allTopics
    {
      guideTopics.Topics()
    }

    /** `selectedTopic`, re-exported from the service. */
    function SelectedTopic(): (r: Option<Topic>)
      reads this, guideTopics
      ensures r == GuideTopics.Selected(guideTopics.allTopics, guideTopics.activeTopicId)
    {
      guideTopics.SelectedTopic()
    }

    function DoubledCounter(): (d: int)
      reads this
      ensures d == 2 * counter
    {
      Counter.Doubled(counter)
    }

    function CounterStatus(): (s: string)
      reads this
      ensures s == "Baseline" <==> counter == 0
      ensures s == "Positive Trend" <==> counter > 0
      ensures s == "Negative Trend" <==> counter < 0
    {
      Counter.Status(counter)
    }

    /** Has exactly the service's effect: the id is stored, the catalog and this
        component's counter are untouched. */
    method SelectTopic(topicId: string)
      modifies guideTopics`activeTopicId
      ensures guideTopics.activeTopicId == topicId
      ensures guideTopics.allTopics == old(guideTopics.allTopics)
      ensures counter == old(counter)
    {
      guideTopics.SelectTopic(topicId);
    }

    /** The service's answer, unchanged: the stored id compared with `topicId`. */
    function IsActive(topicId: string): (b: bool)
      reads this, guideTopics
      ensures b <==> guideTopics.activeTopicId == topicId
    {
      guideTopics.IsActive(topicId)
    }

    method IncrementCounter()
      modifies this
      ensures counter == old(counter) + 1
    {
      counter := counter + 1;
    }

    method DecrementCounter()
      modifies this
      ensures counter == old(counter) - 1
    {
      counter := counter - 1;
    }

    method ResetCounter()
      modifies this
      ensures counter == 0
    {
      counter := 0;
    }
  }
}
