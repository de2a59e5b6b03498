# Spring-to-Angular transition guide: navigation and presentation state in Dafny

This project models the logic of an Angular reference guide that maps Spring
concepts to Angular ones. The guide shows a catalog of topics. A sidebar filters
them by a search query, and a detail page shows the topic named in the route. A
root service remembers which topic is selected, and two components each hold a
small demonstration counter. A one-off Node script rewrites markdown-style
emphasis in the topic descriptions into HTML.

The catalog is static prose. Here it is an opaque sequence of `Topic` records
(`id`, `title`, `springEquivalent`, `description`, `snippet`, optional
`questions`).

Angular's signals are modelled by what they hold and what they compute:

- A writable signal is a class field. Its `set`/`update` calls are methods with
  `modifies` clauses: `activeTopicId`, `searchQuery` and both `counter`s.
- A `computed` signal is a pure function of the fields it reads: `Selected`,
  `FilterTopics`, `TopicForRoute`, `Doubled` and `Status`. The classes expose
  these functions over their current fields.

Modules, one per source file or shared concern:

- `Optional`: the `Option` type (`optional.dfy`).
- `Catalog`: the `Topic` record and `Array.prototype.find` by id (`catalog.dfy`).
- `Text`: ASCII `toLowerCase`, `String.prototype.includes`, and the line
  terminators that a regular expression's `.` refuses (`text.dfy`).
- `GuideTopics`: `GuideTopicsService`, the selection with its fallback to the
  first topic, and `isActive` (`guide_topics.dfy`).
- `Sidebar`: the search filter and the stored query (`sidebar.dfy`).
- `TopicDetail`: the route-id lookup, which has no fallback, and the page's
  conditional sections (`topic_detail.dfy`).
- `Counter`: the signals playground's counter and its two derived values
  (`counter.dfy`).
- `App`: the root component. It delegates to the service and holds its own copy
  of the counter (`app.dfy`).
- `Fix`: the two global regular-expression replacements of `fix.js`, as string
  functions (`fix.dfy`).

`Fix.Rewrite` follows JavaScript's `String.prototype.replace` with a global regular
expression of the form `D(.*?)D`. The scan goes left to right. At each position it
tries the lazy match: the opening delimiter, then the shortest run of characters
that are not line terminators, then the closing delimiter. A match is replaced and
the scan resumes after it. Where no match starts, one character is kept and the
scan moves on by one.

## Behaviour worth knowing

- Only the empty query returns the whole list. A whitespace-only query is
  searched for like any other text (`Sidebar.WhitespaceQueryIsSearched`).
- `isActive(id)` compares `id` with the stored `activeTopicId`, not with the id of
  the selected topic. After an unknown id is selected, the first topic is shown
  but no topic is active (`GuideTopics.UnknownIdSelectsFirstButActivatesNone`).
- The topic page has no fallback. An empty or unknown route id shows
  "Topic not found.", where the service selects the first topic
  (`TopicDetail.UnknownRouteHasNoFallback`).
- Nothing checks the catalog for duplicate ids. Every lookup returns the first
  topic with the id (`Catalog.FindReturnsFirst`).
- The code block keeps no generation counter, so it does not suppress stale
  renders, and it has no fallback when the highlighter fails. It is left out
  (see below).
- `fix.js` runs its two replacements one after the other, so a backquoted span
  that starts inside a bold span can close outside it
  (`Fix.CodeSpanCanCrossStrongTag`).

## Model

| member | source | states |
|---|---|---|
| `Catalog.Find` | src/app/guide-topics.service.ts:12 | `find` by id returns nothing exactly when no topic has the id; otherwise it returns the topic at the first position holding that id |
| `Catalog.FindReturnsFirst` | src/app/components/topic-detail/topic-detail.ts:69 | when the first topic with the id is at position i, `find` returns exactly `topics[i]` |
| `Text.Lower` | src/app/components/sidebar/sidebar.ts:53 | `toLowerCase` keeps the length and lowers each character (ASCII letters only) |
| `Text.LowerIdempotent` | src/app/components/sidebar/sidebar.ts:53 | lower-casing a lower-cased string changes nothing |
| `Text.Includes` | src/app/components/sidebar/sidebar.ts:59-60 | `includes(q)` holds only when `q` is no longer than the string |
| `Text.IncludesIffOccurs` | src/app/components/sidebar/sidebar.ts:59-60 | `includes(q)` holds exactly when `q` occurs at some position of the string |
| `GuideTopics.Selected` | src/app/guide-topics.service.ts:10-15 | the selection is null only for an empty catalog and is always a catalog member; a known id selects a topic with that id; an unknown id in a non-empty catalog selects `topics[0]` |
| `GuideTopics.SelectedIsFirstMatch` | src/app/guide-topics.service.ts:10-12 | with duplicate ids, the first topic in list order with the stored id is selected |
| `GuideTopics.UnknownIdSelectsFirstButActivatesNone` | src/app/guide-topics.service.ts:10-23 | after an unknown id is stored, `find` by that id finds nothing, yet `topics[0]` is selected, and its id is not the active one |
| `GuideTopics.SelectionScenario` | src/app/guide-topics.service.ts:10-15 | in the catalog [a, b], the id "b" selects b, and the unknown id "z" selects a |
| `GuideTopics.GuideTopicsService.constructor` | src/app/guide-topics.service.ts:6-7 | the catalog is stored; the active id starts as the first topic's id, or "" for an empty catalog |
| `GuideTopics.GuideTopicsService.Topics` | src/app/guide-topics.service.ts:9 | `topics` is always the stored catalog |
| `GuideTopics.GuideTopicsService.SelectedTopic` | src/app/guide-topics.service.ts:10-15 | the selection is null only for an empty catalog, is a catalog member, and matches the stored id when a topic has it |
| `GuideTopics.GuideTopicsService.SelectTopic` | src/app/guide-topics.service.ts:17-19 | any id, even an unknown one, is stored unchanged; afterwards it is the only active id; the catalog is not changed |
| `GuideTopics.GuideTopicsService.IsActive` | src/app/guide-topics.service.ts:21-23 | true exactly for the stored id; an active id may differ from the selected topic's id |
| `GuideTopics.SelectUnknownTopic` | src/app/guide-topics.service.ts:13-23 | selecting an unknown id stores it and makes it the active id; the catalog is kept, `topics[0]` is selected, and no catalog topic is active |
| `Sidebar.Matches` | src/app/components/sidebar/sidebar.ts:53-60 | the empty query matches every topic; a query longer than both the title and the Spring equivalent matches none |
| `Sidebar.FilterMatching` | src/app/components/sidebar/sidebar.ts:58-61 | `filter` keeps exactly the topics whose lower-cased title or Spring equivalent includes the query, as an order-preserving subsequence; each matching topic appears as many times as in the input, every other topic not at all |
| `Sidebar.FilterTopics` | src/app/components/sidebar/sidebar.ts:52-62 | an empty query returns the list unchanged; otherwise the result is a subsequence no longer than the list; every result matches case-insensitively (sound); every matching topic is kept (complete), with its multiplicity in the input |
| `Sidebar.SubsequenceNoLonger` | src/app/components/sidebar/sidebar.ts:58 | a filtered list is never longer than the list it came from |
| `Sidebar.EmptyQueryFilterKeepsAll` | src/app/components/sidebar/sidebar.ts:56-61 | the empty-query shortcut changes nothing: filtering by "" would keep every topic, since every string includes "" |
| `Sidebar.QueryCaseIrrelevant` | src/app/components/sidebar/sidebar.ts:53 | a query and its lower-cased form give the same result |
| `Sidebar.WhitespaceQueryIsSearched` | src/app/components/sidebar/sidebar.ts:53-61 | a whitespace-only query is not treated as empty; a topic with no whitespace in its title or Spring equivalent is dropped |
| `Sidebar.SearchScenario` | src/app/components/sidebar/sidebar.ts:52-62 | over [Alpha/X, Beta/Y], "alp" finds Alpha by its title, "x" finds it by its Spring equivalent, and " " finds nothing |
| `Sidebar.Sidebar.constructor` | src/app/components/sidebar/sidebar.ts:48-50 | the query starts empty |
| `Sidebar.Sidebar.FilteredTopics` | src/app/components/sidebar/sidebar.ts:52-62 | over the service's topics: the whole list for an empty query, else an order-preserving subsequence holding exactly the matching topics, each as many times as in the list |
| `Sidebar.Sidebar.UpdateSearch` | src/app/components/sidebar/sidebar.ts:64-67 | the query becomes exactly the input's value |
| `TopicDetail.TopicForRoute` | src/app/components/topic-detail/topic-detail.ts:67-70 | an absent or empty route id gives null; an id no topic has gives undefined (not found); otherwise the result is a catalog topic with that id |
| `TopicDetail.Render` | src/app/components/topic-detail/topic-detail.ts:12-57 | "Topic not found." for null and undefined alike; the Q&A section only when `questions` is present and non-empty; the playground exactly when the id is "signals" |
| `TopicDetail.PageForRoute` | src/app/components/topic-detail/topic-detail.ts:12-70 | the page is "Topic not found." exactly when the route id is absent, empty or unknown; otherwise it shows a catalog topic with that id |
| `TopicDetail.KnownRouteAgreesWithService` | src/app/components/topic-detail/topic-detail.ts:67-70 | a non-empty id that some topic has shows the first such topic, the same one the service selects |
| `TopicDetail.UnknownRouteHasNoFallback` | src/app/components/topic-detail/topic-detail.ts:56-70 | an unknown non-empty id shows "Topic not found."; for the same id the service selects `topics[0]` |
| `TopicDetail.EmptyRouteIdIsNull` | src/app/components/topic-detail/topic-detail.ts:68-69 | an empty id is treated like a missing one and shows "Topic not found." |
| `Counter.Doubled` | src/app/components/signals-playground/signals-playground.ts:57 | the doubled counter is even, and half of it is the counter |
| `Counter.Status` | src/app/components/signals-playground/signals-playground.ts:58-64 | "Baseline" iff the counter is 0, "Positive Trend" iff it is above 0, "Negative Trend" iff it is below 0 |
| `Counter.DoubledKeepsStatus` | src/app/components/signals-playground/signals-playground.ts:57-64 | the doubled counter has the same status as the counter |
| `Counter.Apply` | src/app/components/signals-playground/signals-playground.ts:66-76 | a reset click sets the counter to 0; any other click moves it by its increments minus its decrements |
| `Counter.Run` | src/app/components/signals-playground/signals-playground.ts:66-72 | with no reset, a run of clicks moves the counter by the number of increments minus the number of decrements, in any order |
| `Counter.ResetForgetsHistory` | src/app/components/signals-playground/signals-playground.ts:74-76 | after a reset, the outcome depends only on the clicks that follow it, whatever came before |
| `Counter.IncrementDecrementCancel` | src/app/components/signals-playground/signals-playground.ts:66-72 | increment then decrement, or the other order, restores the counter |
| `Counter.SignalsPlayground.constructor` | src/app/components/signals-playground/signals-playground.ts:56 | the counter starts at 0 |
| `Counter.SignalsPlayground.DoubledCounter` | src/app/components/signals-playground/signals-playground.ts:57 | always twice the counter |
| `Counter.SignalsPlayground.CounterStatus` | src/app/components/signals-playground/signals-playground.ts:58-64 | the three-way status, each case an if-and-only-if |
| `Counter.SignalsPlayground.IncrementCounter` | src/app/components/signals-playground/signals-playground.ts:66-68 | adds exactly 1 |
| `Counter.SignalsPlayground.DecrementCounter` | src/app/components/signals-playground/signals-playground.ts:70-72 | subtracts exactly 1 |
| `Counter.SignalsPlayground.ResetCounter` | src/app/components/signals-playground/signals-playground.ts:74-76 | sets the counter to 0 from any state |
| `App.App.constructor` | src/app/app.ts:10-15 | the service is injected and the counter starts at 0 |
| `App.App.Topics` | src/app/app.ts:12 | the service's `topics` |
| `App.App.SelectedTopic` | src/app/app.ts:13 | the service's `selectedTopic`, for its catalog and stored id |
| `App.App.DoubledCounter` | src/app/app.ts:16 | always twice the counter |
| `App.App.CounterStatus` | src/app/app.ts:17-23 | the same zero/positive/negative rule as the playground |
| `App.App.SelectTopic` | src/app/app.ts:25-27 | the service's effect exactly: the id is stored, and the catalog and the counter are unchanged |
| `App.App.IsActive` | src/app/app.ts:29-31 | the service's answer: the stored id compared with the argument |
| `App.App.IncrementCounter` | src/app/app.ts:33-35 | adds exactly 1 |
| `App.App.DecrementCounter` | src/app/app.ts:37-39 | subtracts exactly 1 |
| `App.App.ResetCounter` | src/app/app.ts:41-43 | sets the counter to 0 |
| `Fix.CloseAt` | fix.js:7-8 | where the lazy group `(.*?)` closes, it closes at an occurrence of the delimiter at or after the scan position, with no earlier occurrence and no line terminator before it |
| `Fix.CloseAtFindsFirst` | fix.js:7-8 | the lazy group closes at the first occurrence of the delimiter when no line terminator comes before it: the shortest match wins |
| `Fix.Rewrite` | fix.js:7-8 | the global replace writes only characters of its input and of the two tags |
| `Fix.MatchAt` | fix.js:7-8 | a match at the front of the text opens with the delimiter and closes at the first later occurrence of it, with no line terminator in between |
| `Fix.RewriteFrom` | fix.js:7-8 | each step of the scan, a replaced match or one kept character, writes only characters of the text and of the two tags |
| `Fix.Bold` | fix.js:7 | on text without `<`, turning `<strong>` and `</strong>` back into `**` recovers the input; the output holds only input and tag characters |
| `Fix.Code` | fix.js:8 | on text without `<`, turning the code tags back into backquotes recovers the input; the output holds only input and tag characters |
| `Fix.FixDescriptions` | fix.js:7-8 | the two passes together add only characters of the four tags |
| `Fix.PlainPrefixKept` | fix.js:7-8 | text in which the delimiter does not start is copied unchanged, and the scan carries on after it |
| `Fix.UnmatchedPrefixKept` | fix.js:7-8 | text at none of whose positions a whole match starts is copied unchanged, even where the delimiter starts, and the scan carries on after it |
| `Fix.NoDelimiterUnchanged` | fix.js:7-8 | text in which the delimiter never occurs is left unchanged |
| `Fix.BoldWithoutDelimiterUnchanged` | fix.js:7 | text without `**` is unchanged by the bold pass |
| `Fix.CodeWithoutDelimiterUnchanged` | fix.js:8 | text without a backquote is unchanged by the code pass |
| `Fix.PairRewritten` | fix.js:7-8 | at the leftmost match, delimiter + shortest one-line text + delimiter becomes open tag + text + close tag, and the scan resumes after the match (global, non-overlapping) |
| `Fix.BoldPairRewritten` | fix.js:7 | `**x**` becomes `<strong>x</strong>` when x is on one line and has no `*` |
| `Fix.CodePairRewritten` | fix.js:8 | a backquoted span on one line becomes the styled `<code>` element around the same text |
| `Fix.NoCloseBeforeLineEnd` | fix.js:7-8 | the lazy group gives up at a line terminator when no closing delimiter comes before it |
| `Fix.UnclosedOpenerKept` | fix.js:7-8 | an opening delimiter followed by a line terminator before any closing one is left in place, with the rest of that line |
| `Fix.BoldUnclosedKept` | fix.js:7 | `**` followed by a line break before any closing `**` is kept as is |
| `Fix.CodeUnclosedKept` | fix.js:8 | a backquote followed by a line break before any partner is kept as is |
| `Fix.UnclosedAtEndKept` | fix.js:7-8 | an opening delimiter with no closing one before the end of the text is left in place, with everything after it |
| `Fix.BoldUnclosedAtEndKept` | fix.js:7 | `**` followed by text without `*` up to the end is kept as is |
| `Fix.CodeUnclosedAtEndKept` | fix.js:8 | a backquote with no partner up to the end of the text is kept as is |
| `Fix.RestoreRewrite` | fix.js:7-8 | on text without `<`, turning each tag back into the delimiter recovers the input: the rewrite is lossless |
| `Fix.FixWithoutBackquoteIsBold` | fix.js:7-8 | the bold pass writes no backquote, so text without one leaves the code pass nothing to do |
| `Fix.FixWithoutBoldIsCode` | fix.js:7-8 | text without `**` is changed only by the code pass |
| `Fix.CodeSpanCanCrossStrongTag` | fix.js:7-8 | the passes run one after the other: for "**`y**z`" the code element opens inside the strong element and closes after `</strong>` |

## Left out

- src/app/components/code-block/code-block.ts (syntax highlighting) is not part of this model. It schedules a DOM update with `setTimeout` and calls the Prism library. The code keeps no generation counter, checks nothing for staleness and has no fallback when Prism fails, so no such property is stated.
- The topic texts in src/app/transition-topics.ts are an opaque sequence here. The code checks nothing at load time (no duplicate-id error), so none is modelled. The test that expects 22 topics is not used: the list holds 24.
- Routing (src/app/app.routes.ts) belongs to the Angular router. The route parameter reaches `TopicDetail.TopicForRoute` as an optional string. The router's redirect target, `components-templates`, is the first topic's id.
- Page transition animations (src/app/animations.ts), the test harness (src/app/app.spec.ts), template styling and markup are left out.
- The file read, file write and console message of fix.js are left out; only the content transformation is modelled.
- Signals, `computed`, `effect`, `toSignal` and `inject` are left out as machinery. Each derived value is a function of the fields it reads, so it is always up to date.
- Text.Lower: lower-cases ASCII letters only, because JavaScript's Unicode case mapping is not modelled.
- Sidebar.Sidebar.UpdateSearch: takes the input element's value, because the DOM event that carries it is not modelled.
- Counter.SignalsPlayground.IncrementCounter: the counter is an unbounded integer, because JavaScript's loss of precision past 2^53 is not modelled. The same holds for the other counter methods and for the `App` copy.
- App.App.SelectTopic: states the effect on the service, because the reactive propagation to the views that read the service is not modelled.
