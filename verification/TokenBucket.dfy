/** TokenBucket: a steady-rate limiter with a burst budget.  Tokens, rates and times are reals (seconds); the clock
    reading of each call is a parameter. */
module TokenBuckets {
  import opened Bytes

  datatype Rate = Rate(capacity: real, perSecond: real)

  datatype Level = Level(tokens: real, lastFill: real)

  datatype Request = Request(now: real, count: real)

  function Lesser(a: real, b: real): real {
    if a < b then a else b
  }

  // ---- refill ----

  function Gain(rate: Rate, start: real, end: real): real {
    (end - start) * rate.perSecond
  }

  lemma GainIsPositive(rate: Rate, start: real, end: real)
    requires start <= end && rate.perSecond > 0.0
    ensures Gain(rate, start, end) >= 0.0
  {
  }

  lemma GainSplits(rate: Rate, start: real, middle: real, end: real)
    ensures Gain(rate, start, middle) + Gain(rate, middle, end) == Gain(rate, start, end)
  {
  }

  // ---- one take ----

  function Refilled(rate: Rate, level: Level, now: real): real {
    Lesser(rate.capacity, level.tokens + Gain(rate, level.lastFill, now))
  }

  predicate Admits(rate: Rate, level: Level, request: Request) {
    Refilled(rate, level, request.now) >= request.count
  }

  /** What an admitted request takes; a refused one takes nothing. */
  function Taken(rate: Rate, level: Level, request: Request): real {
    if Admits(rate, level, request) then request.count else 0.0
  }

  function After(rate: Rate, level: Level, request: Request): Level {
    Level(Refilled(rate, level, request.now) - Taken(rate, level, request), request.now)
  }

  /** Seconds from a refusal until the refill covers the count; none where nothing refills and the code divides by
      zero. */
  function Wait(rate: Rate, level: Level, request: Request): Option<real> {
    if Admits(rate, level, request) then Some(0.0)
    else if rate.perSecond == 0.0 then None
    else Some((request.count - Refilled(rate, level, request.now)) / rate.perSecond)
  }

  /** One take in full: the bucket first gains what the time since its last fill brings, up to its capacity; the count
      is taken if that covers it; nothing else changes the tokens. */
  lemma TakeInFull(rate: Rate, level: Level, request: Request)
    ensures var gained := level.tokens + (request.now - level.lastFill) * rate.perSecond;
      var held := if gained < rate.capacity then gained else rate.capacity;
      && (Admits(rate, level, request) <==> request.count <= held)
      && After(rate, level, request) == Level(if request.count <= held then held - request.count else held, request.now)
      && Wait(rate, level, request) == if request.count <= held then Some(0.0)
                                       else if rate.perSecond == 0.0 then None
                                       else Some((request.count - held) / rate.perSecond)
  {
    var gained := level.tokens + (request.now - level.lastFill) * rate.perSecond;
    assert Gain(rate, level.lastFill, request.now) == (request.now - level.lastFill) * rate.perSecond;
    assert Refilled(rate, level, request.now) == if gained < rate.capacity then gained else rate.capacity;
    hide Refilled;
  }

  // ---- runs ----

  function Run(rate: Rate, level: Level, requests: seq<Request>): Level
    decreases |requests|
  {
    if requests == [] then level else Run(rate, After(rate, level, requests[0]), requests[1..])
  }

  /** The clock never goes back and no count is negative. */
  ghost predicate Orderly(start: real, requests: seq<Request>)
    decreases |requests|
  {
    requests == [] || (requests[0].now >= start && requests[0].count >= 0.0 && Orderly(requests[0].now, requests[1..]))
  }

  ghost predicate Filled(rate: Rate, level: Level) {
    0.0 <= level.tokens <= rate.capacity
  }

  ghost predicate Refills(rate: Rate) {
    rate.capacity >= 0.0 && rate.perSecond > 0.0
  }

  /** The total admitted by the requests whose clock reading lies in [from, to]. */
  function Admitted(rate: Rate, level: Level, requests: seq<Request>, from: real, to: real): real
    decreases |requests|
  {
    if requests == [] then 0.0
    else
      (if from <= requests[0].now <= to && Admits(rate, level, requests[0]) then requests[0].count else 0.0)
      + Admitted(rate, After(rate, level, requests[0]), requests[1..], from, to)
  }

  lemma TakeStaysFilled(rate: Rate, level: Level, request: Request)
    requires Refills(rate) && Filled(rate, level) && request.now >= level.lastFill && request.count >= 0.0
    ensures Filled(rate, After(rate, level, request))
    ensures After(rate, level, request).tokens + Taken(rate, level, request) <= rate.capacity
    ensures After(rate, level, request).tokens + Taken(rate, level, request)
         <= level.tokens + Gain(rate, level.lastFill, request.now)
  {
    hide Gain;
    GainIsPositive(rate, level.lastFill, request.now);
  }

  lemma {:induction false} RunStaysFilled(rate: Rate, level: Level, requests: seq<Request>)
    requires Refills(rate) && Filled(rate, level) && Orderly(level.lastFill, requests)
    ensures Filled(rate, Run(rate, level, requests))
    decreases |requests|
  {
    if requests != [] {
      TakeStaysFilled(rate, level, requests[0]);
      RunStaysFilled(rate, After(rate, level, requests[0]), requests[1..]);
    }
  }

  lemma {:induction false} NothingAfterWindow(rate: Rate, level: Level, requests: seq<Request>, from: real, to: real)
    requires Orderly(level.lastFill, requests) && level.lastFill > to
    ensures Admitted(rate, level, requests, from, to) == 0.0
    decreases |requests|
  {
    if requests != [] {
      NothingAfterWindow(rate, After(rate, level, requests[0]), requests[1..], from, to);
    }
  }

  /** From any level inside the window, the rest of the window admits at most the tokens in hand and the refill. */
  lemma {:induction false} RestOfWindow(rate: Rate, level: Level, requests: seq<Request>, from: real, to: real)
    requires Refills(rate) && Filled(rate, level) && Orderly(level.lastFill, requests)
    requires from <= level.lastFill <= to
    ensures Admitted(rate, level, requests, from, to) <= level.tokens + Gain(rate, level.lastFill, to)
    decreases |requests|
  {
    hide Gain;
    GainIsPositive(rate, level.lastFill, to);
    if requests == [] {
    } else if requests[0].now <= to {
      var request := requests[0];
      TakeStaysFilled(rate, level, request);
      RestOfWindow(rate, After(rate, level, request), requests[1..], from, to);
      GainSplits(rate, level.lastFill, request.now, to);
    } else {
      NothingAfterWindow(rate, After(rate, level, requests[0]), requests[1..], from, to);
    }
  }

  /** Over every run, any window of time admits at most one burst and the refill of the window. */
  lemma {:induction false} WindowIsBounded(rate: Rate, level: Level, requests: seq<Request>, from: real, to: real)
    requires Refills(rate) && Filled(rate, level) && Orderly(level.lastFill, requests) && from <= to
    ensures Admitted(rate, level, requests, from, to) <= rate.capacity + Gain(rate, from, to)
    decreases |requests|
  {
    hide Gain;
    GainIsPositive(rate, from, to);
    if requests != [] {
      var request := requests[0];
      var next := After(rate, level, request);
      TakeStaysFilled(rate, level, request);
      if request.now < from {
        WindowIsBounded(rate, next, requests[1..], from, to);
      } else if request.now <= to {
        RestOfWindow(rate, next, requests[1..], from, to);
        GainIsPositive(rate, from, request.now);
        GainSplits(rate, from, request.now, to);
      } else {
        NothingAfterWindow(rate, next, requests[1..], from, to);
      }
    }
  }

  /** The bound is met: a full burst as the window opens, and its refill as it closes. */
  lemma WindowBoundIsReached(rate: Rate, from: real, to: real)
    requires Refills(rate) && from <= to && Gain(rate, from, to) <= rate.capacity
    ensures var requests := [Request(from, rate.capacity), Request(to, Gain(rate, from, to))];
            && Orderly(from, requests)
            && Admitted(rate, Level(rate.capacity, from), requests, from, to) == rate.capacity + Gain(rate, from, to)
  {
    var burst, refill := Request(from, rate.capacity), Request(to, Gain(rate, from, to));
    var full := Level(rate.capacity, from);
    hide Gain;
    GainIsPositive(rate, from, to);
    GainSplits(rate, from, from, from);
    assert After(rate, full, burst) == Level(0.0, from);
    assert [burst, refill][1..] == [refill] && [refill][1..] == [];
    assert Orderly(from, [refill]);
    assert Admitted(rate, Level(0.0, from), [refill], from, to) == refill.count;
  }

  // ---- waiting ----

  ghost predicate AllRefused(rate: Rate, level: Level, requests: seq<Request>)
    decreases |requests|
  {
    requests == [] || (!Admits(rate, level, requests[0]) && AllRefused(rate, After(rate, level, requests[0]), requests[1..]))
  }

  /** Refused requests leave the bucket where one refill at the later time would. */
  lemma {:induction false} RefusalsCostNothing(rate: Rate, level: Level, requests: seq<Request>, later: real)
    requires rate.perSecond > 0.0 && Orderly(level.lastFill, requests) && AllRefused(rate, level, requests)
    requires later >= Run(rate, level, requests).lastFill
    ensures Refilled(rate, Run(rate, level, requests), later) == Refilled(rate, level, later)
    decreases |requests|
  {
    if requests != [] {
      hide Gain;
      var next := After(rate, level, requests[0]);
      RefusalsCostNothing(rate, next, requests[1..], later);
      ClockAdvances(rate, next, requests[1..]);
      GainIsPositive(rate, next.lastFill, later);
      GainSplits(rate, level.lastFill, next.lastFill, later);
    }
  }

  lemma {:induction false} ClockAdvances(rate: Rate, level: Level, requests: seq<Request>)
    requires Orderly(level.lastFill, requests)
    ensures Run(rate, level, requests).lastFill >= level.lastFill
    decreases |requests|
  {
    if requests != [] {
      ClockAdvances(rate, After(rate, level, requests[0]), requests[1..]);
    }
  }

  lemma CoversIff(rate: Rate, deficit: real, start: real, end: real)
    requires rate.perSecond > 0.0
    ensures Gain(rate, start, end) >= deficit <==> end - start >= deficit / rate.perSecond
  {
    var wait := deficit / rate.perSecond;
    var over := end - start - wait;
    assert wait * rate.perSecond == deficit;
    assert over * rate.perSecond == Gain(rate, start, end) - deficit;
    assert over >= 0.0 ==> over * rate.perSecond >= 0.0;
    assert over < 0.0 ==> over * rate.perSecond < 0.0;
  }

  /** A refused request that fits the burst goes through once exactly the returned wait has passed and not before,
      whatever other requests were refused meanwhile. */
  lemma WaitIsExact(rate: Rate, level: Level, refused: Request, meanwhile: seq<Request>, later: real)
    requires Refills(rate) && !Admits(rate, level, refused) && refused.count <= rate.capacity
    requires Orderly(refused.now, meanwhile) && AllRefused(rate, After(rate, level, refused), meanwhile)
    requires later >= Run(rate, After(rate, level, refused), meanwhile).lastFill
    ensures Wait(rate, level, refused).Some? && Wait(rate, level, refused).value > 0.0
    ensures Admits(rate, Run(rate, After(rate, level, refused), meanwhile), Request(later, refused.count))
       <==> later >= refused.now + Wait(rate, level, refused).value
  {
    var next := After(rate, level, refused);
    RefusalsCostNothing(rate, next, meanwhile, later);
    CoversIff(rate, refused.count - next.tokens, next.lastFill, later);
    CoversIff(rate, refused.count - next.tokens, 0.0, 0.0);
    assert Gain(rate, 0.0, 0.0) == 0.0;
  }

  // ---- the bucket ----

  class TokenBucket {
    const capacity: real
    const refillRate: real
    var tokens: real
    var lastFill: real

    function Shape(): Rate {
      Rate(capacity, refillRate)
    }

    function Current(): Level
      reads this
    {
      Level(tokens, lastFill)
    }

    /** The bucket starts full. */
    constructor (capacity: real, refillRatePerSec: real, now: real)
      ensures Shape() == Rate(capacity, refillRatePerSec)
      ensures Current() == Level(capacity, now)
      ensures capacity >= 0.0 ==> Filled(Shape(), Current())
    {
      this.capacity := capacity;
      this.refillRate := refillRatePerSec;
      this.tokens := capacity;
      this.lastFill := now;
    }

    method TryTakeN(count: real, now: real) returns (admitted: bool, wait: Option<real>)
      modifies this`tokens, this`lastFill
      ensures admitted == Admits(Shape(), old(Current()), Request(now, count))
      ensures wait == Wait(Shape(), old(Current()), Request(now, count))
      ensures Current() == After(Shape(), old(Current()), Request(now, count))
      ensures count > capacity ==> !admitted
      ensures refillRate > 0.0 && capacity >= 0.0 && old(Filled(Shape(), Current())) && now >= old(lastFill) && count >= 0.0 ==>
                Filled(Shape(), Current())
    {
      ghost var before, request := Current(), Request(now, count);
      if refillRate > 0.0 && capacity >= 0.0 && Filled(Shape(), before) && now >= lastFill && count >= 0.0 {
        TakeStaysFilled(Shape(), before, request);
      }
      var elapsed := now - lastFill;
      tokens := Lesser(capacity, tokens + elapsed * refillRate);
      lastFill := now;
      assert tokens == Refilled(Shape(), before, now);
      hide Refilled, Gain, Filled;
      if tokens >= count {
        tokens := tokens - count;
        return true, Some(0.0);
      }
      var deficit := count - tokens;
      return false, if refillRate == 0.0 then None else Some(deficit / refillRate);
    }

    /** A prefill below zero is taken as it is. */
    method Reset(prefill: real, now: real)
      modifies this`tokens, this`lastFill
      ensures Current() == Level(Lesser(prefill, capacity), now)
      ensures capacity >= 0.0 ==> (Filled(Shape(), Current()) <==> prefill >= 0.0)
    {
      tokens := if prefill > capacity then capacity else prefill;
      lastFill := now;
    }
  }
}
