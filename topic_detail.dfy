/** The topic page: the topic named by the route's `id` parameter, and which
    parts of the page its template shows. */
module TopicDetail {
  import opened Optional
  import opened Catalog
  import GuideTopics

  /** The value of the `topic` signal: JavaScript's `null` when the route has no
      (or an empty) id, `undefined` when no topic has the id, else the topic. */
  datatype RouteTopic = NoRouteId | NotFound | Found(topic: Topic)

  /** The `topic` computation: `id ? topics.find(t => t.id === id) : null`. */
  function TopicForRoute(routeId: Option<string>, topics: seq<Topic>): (r: RouteTopic)
    ensures r.NoRouteId? <==> routeId.None? || routeId.value == ""
    ensures r.NotFound? <==> routeId.Some? && routeId.value != "" && !HasId(topics, routeId.value)
    ensures r.Found? ==> r.topic in topics && routeId.Some? && r.topic.id == routeId.value
  {
    if routeId.None? || routeId.value == "" then NoRouteId
    else
      match Find(topics, routeId.value)
      case None => NotFound
      case Some(t) => Found(t)
  }

  /** What the template renders. */
  datatype Page =
    | TopicNotFound
    | TopicSection(topic: Topic, showsQuestions: bool, showsPlayground: bool)

  /** The template: "Topic not found." for null and for undefined alike; otherwise
      the topic's section, its Q&A part when it has questions, and the signals
      playground on the topic whose id is "signals". */
  function Render(r: RouteTopic): (p: Page)
    ensures p.TopicNotFound? <==> !r.Found?
    ensures p.TopicSection? ==> p.topic == r.topic
    ensures p.TopicSection? ==> (p.showsQuestions <==> r.topic.questions.Some? && r.topic.questions.value != [])
    ensures p.TopicSection? ==> (p.showsPlayground <==> r.topic.id == "signals")
  {
    match r
    case Found(t) => TopicSection(t, t.questions.Some? && |t.questions.value| > 0, t.id == "signals")
    case _ => TopicNotFound
  }

  /** The page for a route id, start to finish. */
  function PageForRoute(routeId: Option<string>, topics: seq<Topic>): (p: Page)
    ensures p.TopicNotFound? <==>
              routeId.None? || routeId.value == "" || !HasId(topics, routeId.value)
    ensures p.TopicSection? ==> p.topic in topics && p.topic.id == routeId.value
  {
    Render(TopicForRoute(routeId, topics))
  }

  /** A non-empty route id some topic carries shows the first such topic, the same
      one the service selects for that id. (A topic whose id is "" can be selected
      through the service but never reached through a route.) */
  lemma KnownRouteAgreesWithService(topics: seq<Topic>, id: string, i: int)
    requires IsFirstWithId(topics, id, i) && id != ""
    ensures TopicForRoute(Some(id), topics) == Found(topics[i])
    ensures GuideTopics.Selected(topics, id) == Some(topics[i])
  {
    FindReturnsFirst(topics, id, i);
  }

  /** Unlike the service, the page has no fallback: an unknown id shows "Topic not
      found." where the service would select the first topic. */
  lemma UnknownRouteHasNoFallback(topics: seq<Topic>, id: string)
    requires |topics| > 0 && id != "" && !HasId(topics, id)
    ensures PageForRoute(Some(id), topics) == TopicNotFound
    ensures GuideTopics.Selected(topics, id) == Some(topics[0])
  {
  }

  /** An empty id is treated like a missing one, and neither falls back either. */
  lemma EmptyRouteIdIsNull(topics: seq<Topic>)
    ensures TopicForRoute(Some(""), topics) == TopicForRoute(None, topics) == NoRouteId
    ensures PageForRoute(None, topics) == TopicNotFound
  {
  }
}
