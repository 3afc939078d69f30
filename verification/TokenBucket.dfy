/** The gateway's rate limiter: a bucket of fractional tokens, refilled by the time that has passed.
    Time is an input, in milliseconds, and tokens are real numbers without rounding. */
module TokenBucket {
  import opened Arithmetic

  datatype Config = Config(capacity: int, rate: int)
  datatype State = State(tokens: real, last: int)
  datatype Call = Call(count: int, now: int)

  /** Tokens that `ms` milliseconds add. */
  function Added(c: Config, ms: int): real {
    (ms * c.rate) as real / 1000.0
  }

  function Least(a: real, b: real): real {
    if a > b then b else a
  }

  function Refilled(c: Config, s: State, now: int): State {
    if now - s.last > 0 then State(Least(s.tokens + Added(c, now - s.last), c.capacity as real), now) else s
  }

  /** token_bucket_consume: the new state and the verdict. */
  function Consumed(c: Config, s: State, call: Call): (State, bool) {
    var r := Refilled(c, s, call.now);
    if r.tokens >= call.count as real then (r.(tokens := r.tokens - call.count as real), true) else (r, false)
  }

  function After(c: Config, s: State, calls: seq<Call>): State
    decreases |calls|
  {
    if calls == [] then s else After(c, Consumed(c, s, calls[0]).0, calls[1..])
  }

  /** Tokens handed out over some calls. */
  function Granted(c: Config, s: State, calls: seq<Call>): real
    decreases |calls|
  {
    if calls == [] then 0.0
    else
      var (s', ok) := Consumed(c, s, calls[0]);
      (if ok then calls[0].count as real else 0.0) + Granted(c, s', calls[1..])
  }

  // ---------- how much gets through ----------

  predicate Sensible(c: Config) {
    c.capacity >= 0 && c.rate >= 0
  }

  predicate NotNegative(calls: seq<Call>) {
    forall call <- calls :: call.count >= 0
  }

  lemma AddedSums(c: Config, a: int, b: int)
    ensures Added(c, a) + Added(c, b) == Added(c, a + b)
    ensures c.rate >= 0 && a >= 0 ==> Added(c, a) >= 0.0
  {
    assert a * c.rate + b * c.rate == (a + b) * c.rate;
    if c.rate >= 0 {
      MulMono(0, a, c.rate);
    }
  }

  lemma RefillBound(c: Config, s: State, now: int)
    requires Sensible(c) && s.tokens <= c.capacity as real
    ensures var r := Refilled(c, s, now);
            r.last >= s.last && r.tokens <= c.capacity as real && r.tokens <= s.tokens + Added(c, r.last - s.last)
    ensures s.tokens >= 0.0 ==> Refilled(c, s, now).tokens >= 0.0
  {
    AddedSums(c, now - s.last, 0);
    AddedSums(c, 0, 0);
  }

  /** From any state: no more than is in the bucket and what the elapsed time adds. */
  lemma {:induction false} GrantedAtMost(c: Config, s: State, calls: seq<Call>)
    requires Sensible(c) && NotNegative(calls) && 0.0 <= s.tokens <= c.capacity as real
    ensures var e := After(c, s, calls);
            && 0.0 <= e.tokens <= c.capacity as real && e.last >= s.last
            && Granted(c, s, calls) + e.tokens <= s.tokens + Added(c, e.last - s.last)
    decreases |calls|
  {
    if calls == [] {
      AddedSums(c, 0, 0);
    } else {
      assert calls[0] in calls;
      var s' := Consumed(c, s, calls[0]).0;
      RefillBound(c, s, calls[0].now);
      GrantedAtMost(c, s', calls[1..]);
      AddedSums(c, s'.last - s.last, After(c, s', calls[1..]).last - s'.last);
    }
  }

  lemma RefillOnce(c: Config, s: State, now: int)
    ensures Refilled(c, Refilled(c, s, now), now) == Refilled(c, s, now)
  {
  }

  /** Over any window of calls, whatever came before: at most the capacity and what the rate allows
      from the first call of the window on. */
  lemma WindowBound(c: Config, s: State, calls: seq<Call>)
    requires Sensible(c) && NotNegative(calls) && 0.0 <= s.tokens <= c.capacity as real
    requires calls != []
    ensures var e := After(c, s, calls);
            Granted(c, s, calls) <= c.capacity as real + Added(c, e.last - Refilled(c, s, calls[0].now).last)
  {
    var r := Refilled(c, s, calls[0].now);
    RefillOnce(c, s, calls[0].now);
    RefillBound(c, s, calls[0].now);
    GrantedAtMost(c, r, calls);
  }

  predicate Monotonic(from: int, calls: seq<Call>) {
    forall i | 0 <= i < |calls| :: from <= calls[i].now && (i > 0 ==> calls[i - 1].now <= calls[i].now)
  }

  /** With a clock that does not go back, that is the time from the first call to the last. */
  lemma {:induction false} LastIsNow(c: Config, s: State, calls: seq<Call>)
    requires calls != [] && Monotonic(s.last, calls)
    ensures After(c, s, calls).last == calls[|calls| - 1].now
    ensures Refilled(c, s, calls[0].now).last == calls[0].now
    decreases |calls|
  {
    var s' := Consumed(c, s, calls[0]).0;
    if |calls| > 1 {
      assert forall i | 0 < i < |calls| :: calls[1..][i - 1] == calls[i];
      NowsGrow(s.last, calls);
      LastIsNow(c, s', calls[1..]);
    }
  }

  lemma {:induction false} NowsGrow(from: int, calls: seq<Call>)
    requires |calls| > 1 && Monotonic(from, calls)
    ensures Monotonic(calls[0].now, calls[1..])
  {
    var rest := calls[1..];
    assert rest[0] == calls[1];
    if |rest| > 1 {
      NowsGrow(from, rest);
      forall i | 0 <= i < |rest|
        ensures calls[0].now <= rest[i].now
      {
        if i > 0 {
          assert rest[1..][i - 1] == rest[i];
        }
      }
    }
  }

  /** On such a clock: capacity + rate * elapsed / 1000 over every window. */
  lemma WindowBoundByClock(c: Config, s: State, calls: seq<Call>)
    requires Sensible(c) && NotNegative(calls) && 0.0 <= s.tokens <= c.capacity as real
    requires calls != [] && Monotonic(s.last, calls)
    ensures Granted(c, s, calls) <=
            c.capacity as real + ((calls[|calls| - 1].now - calls[0].now) * c.rate) as real / 1000.0
  {
    WindowBound(c, s, calls);
    LastIsNow(c, s, calls);
  }

  // ---------- how much is promised ----------

  /** What a refill loses over the brim. */
  function SpilledAt(c: Config, s: State, now: int): (r: real)
    ensures r >= 0.0
    ensures r > 0.0 ==> now > s.last && Refilled(c, s, now).tokens == c.capacity as real
  {
    var level := s.tokens + ((now - s.last) * c.rate) as real / 1000.0;
    if now <= s.last || level <= c.capacity as real then 0.0 else level - c.capacity as real
  }

  function Spilled(c: Config, s: State, calls: seq<Call>): real
    decreases |calls|
  {
    if calls == [] then 0.0
    else SpilledAt(c, s, calls[0].now) + Spilled(c, Consumed(c, s, calls[0]).0, calls[1..])
  }

  /** The exact balance, from any state, over any calls and any clock: what was handed out, what is left
      and what went over the brim add up to what there was and `rate` tokens for every second. */
  lemma {:induction false} Balance(c: Config, s: State, calls: seq<Call>)
    ensures var e := After(c, s, calls);
            && e.last >= s.last
            && Granted(c, s, calls) + e.tokens + Spilled(c, s, calls)
               == s.tokens + ((e.last - s.last) * c.rate) as real / 1000.0
    decreases |calls|
  {
    if calls != [] {
      var s' := Consumed(c, s, calls[0]).0;
      var e := After(c, s', calls[1..]);
      Balance(c, s', calls[1..]);
      assert (s'.last - s.last) * c.rate + (e.last - s'.last) * c.rate == (e.last - s.last) * c.rate;
    }
  }

  /** A call is granted exactly when it asks for no more than the capacity and no more than what is
      left and what has been added since; only then tokens leave the bucket. */
  lemma GrantedExactly(c: Config, s: State, call: Call)
    requires s.tokens <= c.capacity as real
    ensures var elapsed := if call.now > s.last then call.now - s.last else 0;
            var level := s.tokens + (elapsed * c.rate) as real / 1000.0;
            var (s', ok) := Consumed(c, s, call);
            && (ok <==> call.count <= c.capacity && call.count as real <= level)
            && s'.tokens == (if level <= c.capacity as real then level else c.capacity as real)
                            - (if ok then call.count as real else 0.0)
            && s'.last == s.last + elapsed
  {
    assert 0 * c.rate == 0;
    assert c.capacity as real >= call.count as real <==> c.capacity >= call.count;
  }

  /** So waiting pays: whatever was called before, after `count * 1000 / rate` milliseconds without a
      call `count` tokens are to be had, up to the capacity. */
  lemma WaitingPays(c: Config, s: State, calls: seq<Call>, call: Call)
    requires Sensible(c) && NotNegative(calls) && 0.0 <= s.tokens <= c.capacity as real
    requires 0 <= call.count <= c.capacity
    requires call.count * 1000 <= (call.now - After(c, s, calls).last) * c.rate
    ensures Consumed(c, After(c, s, calls), call).1
  {
    var e := After(c, s, calls);
    GrantedAtMost(c, s, calls);
    GrantedExactly(c, e, call);
    hide After, Granted, Consumed, Added;
    var elapsed := if call.now > e.last then call.now - e.last else 0;
    MulMono(call.now - e.last, elapsed, c.rate);
    Thousandths(call.count, elapsed * c.rate);
  }

  lemma Thousandths(count: int, thousandths: int)
    requires count * 1000 <= thousandths
    ensures count as real <= thousandths as real / 1000.0
  {
    assert (count * 1000) as real == count as real * 1000.0;
  }

  // ---------- refused calls leave no trace ----------

  /** Refilling on the way makes no difference to refilling at the end. */
  lemma RefillInBetween(c: Config, s: State, mid: int, now: int)
    requires Sensible(c) && s.tokens <= c.capacity as real && mid <= now
    ensures Refilled(c, Refilled(c, s, mid), now) == Refilled(c, s, now)
  {
    if mid > s.last {
      AddedSums(c, mid - s.last, now - mid);
      AddedSums(c, now - mid, 0);
    }
  }

  /** From `t` on the two states cannot be told apart. */
  predicate SameFrom(c: Config, s: State, u: State, t: int) {
    Refilled(c, s, t) == Refilled(c, u, t)
  }

  /** The calls that were granted. */
  function Kept(c: Config, s: State, calls: seq<Call>): seq<Call>
    decreases |calls|
  {
    if calls == [] then []
    else
      var (s', ok) := Consumed(c, s, calls[0]);
      (if ok then [calls[0]] else []) + Kept(c, s', calls[1..])
  }

  function Verdicts(c: Config, s: State, calls: seq<Call>): seq<bool>
    decreases |calls|
  {
    if calls == [] then []
    else
      var (s', ok) := Consumed(c, s, calls[0]);
      [ok] + Verdicts(c, s', calls[1..])
  }

  lemma ConsumedSame(c: Config, s: State, u: State, t: int, call: Call)
    requires Sensible(c) && s.tokens <= c.capacity as real && u.tokens <= c.capacity as real
    requires SameFrom(c, s, u, t) && t <= call.now
    ensures Consumed(c, s, call) == Consumed(c, u, call)
  {
    RefillInBetween(c, s, t, call.now);
    RefillInBetween(c, u, t, call.now);
  }

  lemma RefusalIsIdle(c: Config, s: State, call: Call)
    requires Sensible(c) && s.tokens <= c.capacity as real
    ensures !Consumed(c, s, call).1 ==> SameFrom(c, Consumed(c, s, call).0, s, call.now)
  {
    RefillInBetween(c, s, call.now, call.now);
  }

  /** On a clock that does not go back, the granted calls alone are all granted again, and leave the
      bucket in a state that no later call can tell from the one with the refused calls. */
  lemma {:induction false} RefusalsLeaveNoTrace(c: Config, s: State, u: State, t: int, calls: seq<Call>)
    requires Sensible(c) && NotNegative(calls)
    requires s.tokens <= c.capacity as real && u.tokens <= c.capacity as real
    requires SameFrom(c, s, u, t) && Monotonic(t, calls)
    ensures forall ok <- Verdicts(c, u, Kept(c, s, calls)) :: ok
    ensures var t' := if calls == [] then t else calls[|calls| - 1].now;
            SameFrom(c, After(c, s, calls), After(c, u, Kept(c, s, calls)), t')
    decreases |calls|
  {
    if calls != [] {
      var call, rest := calls[0], calls[1..];
      assert call in calls;
      ConsumedSame(c, s, u, t, call);
      RefillBound(c, s, call.now);
      RefillBound(c, u, call.now);
      var (s', ok) := Consumed(c, s, call);
      if |rest| > 0 {
        NowsGrow(t, calls);
      }
      if ok {
        RefusalsLeaveNoTrace(c, s', s', call.now, rest);
        var kept := Kept(c, s', rest);
        assert ([call] + kept)[1..] == kept;
      } else {
        RefusalIsIdle(c, s, call);
        RefillInBetween(c, s, t, call.now);
        RefillInBetween(c, u, t, call.now);
        RefusalsLeaveNoTrace(c, s', u, call.now, rest);
        assert [] + Kept(c, s', rest) == Kept(c, s', rest);
      }
    }
  }

  /** The refused call does not change the verdict of the later one. */
  predicate Unseen(c: Config, s: State, refused: Call, later: Call) {
    !Consumed(c, s, refused).1 ==> Consumed(c, Consumed(c, s, refused).0, later).1 == Consumed(c, s, later).1
  }

  /** When the clock steps back a refused call does leave a trace: its refill has been booked. */
  lemma ClockStepsBack(before: int, after: int) returns (c: Config, s: State, refused: Call, later: Call)
    requires after < before
    ensures Sensible(c) && s.tokens == 0.0 && refused.now == before && later.now == after
    ensures !Unseen(c, s, refused, later)
  {
    var ms := before - after;
    c, s := Config(ms + 1, 1000), State(0.0, after);
    refused, later := Call(ms + 1, before), Call(1, after);
    assert Added(c, ms) == ms as real;
  }

  /** So a refused call is never noticed exactly when the clock has not gone back since. */
  lemma UnseenExactly(before: int, after: int)
    ensures (forall c, s: State, n, k | Sensible(c) && s.tokens <= c.capacity as real ::
               Unseen(c, s, Call(n, before), Call(k, after))) <==> before <= after
  {
    if before <= after {
      forall c, s: State, n, k | Sensible(c) && s.tokens <= c.capacity as real
        ensures Unseen(c, s, Call(n, before), Call(k, after))
      {
        RefillInBetween(c, s, before, after);
      }
    } else {
      var c, s, refused, later := ClockStepsBack(before, after);
      assert !Unseen(c, s, Call(refused.count, before), Call(later.count, after));
    }
  }

  // ---------- the routines ----------

  class Bucket {
    var config: Config
    var state: State

    constructor (capacity: int, rate: int, now: int)
      ensures config == Config(capacity, rate) && state == State(capacity as real, now)
    {
      config, state := Config(capacity, rate), State(capacity as real, now);
    }

    method Consume(count: int, now: int) returns (allowed: int)
      modifies this`state
      ensures (state, allowed == 1) == Consumed(config, old(state), Call(count, now))
      ensures allowed == 0 || allowed == 1
      ensures old(state).tokens <= config.capacity as real ==>
                var elapsed := if now > old(state).last then now - old(state).last else 0;
                allowed == 1 <==>
                  count <= config.capacity && count as real <= old(state).tokens + (elapsed * config.rate) as real / 1000.0
    {
      var elapsedMs := now - state.last;
      if elapsedMs > 0 {
        var tokens := state.tokens + (elapsedMs * config.rate) as real / 1000.0;
        if tokens > config.capacity as real {
          tokens := config.capacity as real;
        }
        state := State(tokens, now);
      }
      ghost var before := old(state);
      if before.tokens <= config.capacity as real {
        GrantedExactly(config, before, Call(count, now));
      }
      allowed := 0;
      if state.tokens >= count as real {
        state := state.(tokens := state.tokens - count as real);
        allowed := 1;
      }
    }
  }
}
