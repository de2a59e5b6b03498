/** The signals playground: a writable `counter` and the two values computed from it. */
module Counter {

  /** The `doubledCounter` computation: the counter times two. */
  function Doubled(value: int): (d: int)
    ensures d % 2 == 0 && d / 2 == value
  {
    value * 2
  }

  /** The `counterStatus` computation. */
  function Status(value: int): (s: string)
    ensures s == "Baseline" <==> value == 0
    ensures s == "Positive Trend" <==> value > 0
    ensures s == "Negative Trend" <==> value < 0
  {
    if value == 0 then "Baseline"
    else if value > 0 then "Positive Trend"
    else "Negative Trend"
  }

  /** The doubled counter always carries the same status as the counter itself. */
  lemma DoubledKeepsStatus(value: int)
    ensures Status(Doubled(value)) == Status(value)
  {
  }

  /** The three buttons. */
  datatype Click = Increment | Decrement | Reset

  /** One click: `update(v => v + 1)`, `update(v => v - 1)` or `set(0)`. */
  function Apply(value: int, click: Click): (r: int)
    ensures click == Reset ==> r == 0
    ensures click != Reset ==> r == value + Count([click], Increment) - Count([click], Decrement)
  {
    match click
    case Increment => value + 1
    case Decrement => value - 1
    case Reset => 0
  }

  /** A sequence of clicks, applied in order. */
  function Run(value: int, clicks: seq<Click>): (r: int)
    ensures Reset !in clicks ==> r == value + Count(clicks, Increment) - Count(clicks, Decrement)
    decreases |clicks|
  {
    if |clicks| == 0 then value
    else
      assert forall c :: c in clicks[1..] ==> c in clicks;
      Run(Apply(value, clicks[0]), clicks[1..])
  }

  /** How many times `c` occurs in `clicks`. */
  function Count(clicks: seq<Click>, c: Click): nat
  {
    if |clicks| == 0 then 0
    else (if clicks[0] == c then 1 else 0) + Count(clicks[1..], c)
  }

  /** A reset forgets everything before it: the outcome depends only on the
      clicks that follow it. */
  lemma {:induction false} ResetForgetsHistory(value: int, before: seq<Click>, after: seq<Click>)
    ensures Run(value, before + [Reset] + after) == Run(0, after)
    decreases |before|
  {
    if |before| == 0 {
      assert before + [Reset] + after == [Reset] + after;
    } else {
      assert (before + [Reset] + after)[1..] == before[1..] + [Reset] + after;
      ResetForgetsHistory(Apply(value, before[0]), before[1..], after);
    }
  }

  /** Increment then decrement, or decrement then increment, restores the counter. */
  lemma IncrementDecrementCancel(value: int)
    ensures Run(value, [Increment, Decrement]) == value
    ensures Run(value, [Decrement, Increment]) == value
  {
  }

  class SignalsPlayground {
    /** The `counter` signal. */
    var counter: int

    constructor ()
      ensures counter == 0
    {
      counter := 0;
    }

    function DoubledCounter(): (d: int)
      reads this
      ensures d == 2 * counter
    {
      Doubled(counter)
    }

    function CounterStatus(): (s: string)
      reads this
      ensures s == "Baseline" <==> counter == 0
      ensures s == "Positive Trend" <==> counter > 0
      ensures s == "Negative Trend" <==> counter < 0
    {
      Status(counter)
    }

    method IncrementCounter()
      modifies this
      ensures counter == old(counter) + 1 == Apply(old(counter), Increment)
    {
      counter := counter + 1;
    }

    method DecrementCounter()
      modifies this
      ensures counter == old(counter) - 1 == Apply(old(counter), Decrement)
    {
      counter := counter - 1;
    }

    method ResetCounter()
      modifies this
      ensures counter == 0 == Apply(old(counter), Reset)
    {
      counter := 0;
    }
  }
}
