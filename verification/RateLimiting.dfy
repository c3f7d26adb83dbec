/** Two rate limiters (token_bucket.py, TokenBucket.java, sliding_window_log.py, SlidingWindowLog.java). */
module RateLimiting {

  // ---------- token bucket ----------

  /** A call to the limiter, and the tokens it was granted. */
  datatype Call = Call(time: real, granted: real)

  function Granted(calls: seq<Call>): real {
    if calls == [] then 0.0 else calls[0].granted + Granted(calls[1..])
  }

  /** A bucket full at `created`, and what has been asked of it since. */
  datatype Bucket = Bucket(capacity: real, fillRate: real, created: real, calls: seq<Call>) {

    /** The instant of call `k`, or of the creation for k == -1. */
    function Since(k: int): real
      requires -1 <= k < |calls|
    {
      if k == -1 then created else calls[k].time
    }

    function GrantedSince(k: int): real
      requires -1 <= k < |calls|
    {
      Granted(calls[if k == -1 then 0 else k..])
    }

    /** What flows in between two instants. */
    function Inflow(start: real, end: real): real {
      fillRate * (end - start)
    }

    /** What is left at `now` of a full bucket at `Since(k)`, filled at the rate and without overflow. */
    function Left(k: int, now: real): real
      requires -1 <= k < |calls|
    {
      capacity + Inflow(Since(k), now) - GrantedSince(k)
    }

    /** A request for `n` tokens stays within the bound from every earlier instant and from now. */
    ghost predicate Allows(now: real, n: real) {
      n <= capacity && forall k :: -1 <= k < |calls| ==> n <= Left(k, now)
    }

    /** Every grant was allowed when it was made. */
    ghost predicate Honest() {
      forall j :: 0 <= j < |calls| && calls[j].granted != 0.0 ==>
        this.(calls := calls[..j]).Allows(calls[j].time, calls[j].granted)
    }

    /** `tokens` is the least that is left at `now`, counting from the creation or from any call. */
    ghost predicate Holds(tokens: real, now: real) {
      && (forall k :: -1 <= k < |calls| ==> tokens <= Left(k, now))
      && (exists k :: -1 <= k < |calls| && tokens == Left(k, now))
    }

    function After(call: Call): Bucket {
      this.(calls := calls + [call])
    }
  }

  /** A bucket with `tokens` at `last`, filled up to `now`. */
  function Refilled(tokens: real, last: real, now: real, capacity: real, fillRate: real): real {
    var refilled := tokens + (now - last) * fillRate;
    if refilled < capacity then refilled else capacity
  }

  lemma {:induction false} GrantedMore(calls: seq<Call>, call: Call)
    ensures Granted(calls + [call]) == Granted(calls) + call.granted
  {
    if calls == [] {
      assert [call][1..] == [];
    } else {
      GrantedMore(calls[1..], call);
      assert (calls + [call])[1..] == calls[1..] + [call];
    }
  }

  lemma InflowMoves(b: Bucket, start: real, last: real, now: real)
    ensures b.Inflow(start, now) == b.Inflow(start, last) + b.Inflow(last, now)
  {
    assert b.fillRate * (now - start) == b.fillRate * (last - start) + b.fillRate * (now - last);
  }

  lemma NoInflow(b: Bucket, t: real)
    ensures b.Inflow(t, t) == 0.0
  {
    assert t - t == 0.0;
  }

  lemma InflowGrows(b: Bucket, start: real, before: real, now: real)
    requires b.fillRate >= 0.0 && before <= now
    ensures b.Inflow(start, before) <= b.Inflow(start, now)
  {
    InflowMoves(b, start, before, now);
    NotLess(b.fillRate, now - before);
  }

  lemma NotLess(a: real, b: real)
    requires a >= 0.0 && b >= 0.0
    ensures a * b >= 0.0
  {
  }

  lemma LeftMoves(b: Bucket, k: int, last: real, now: real)
    requires -1 <= k < |b.calls|
    ensures b.Left(k, now) == b.Left(k, last) + b.Inflow(last, now)
  {
    hide Bucket.Inflow, Bucket.GrantedSince;
    InflowMoves(b, b.Since(k), last, now);
  }

  /** Filling up is letting flow in and overflow. */
  lemma RefilledIs(b: Bucket, tokens: real, last: real, now: real)
    ensures Refilled(tokens, last, now, b.capacity, b.fillRate) ==
      var refilled := tokens + b.Inflow(last, now); if refilled < b.capacity then refilled else b.capacity
  {
  }

  lemma LeftAfter(b: Bucket, call: Call, k: int, now: real)
    requires -1 <= k < |b.calls|
    ensures b.After(call).Left(k, now) == b.Left(k, now) - call.granted
  {
    hide Bucket.Inflow, Bucket.GrantedSince, Bucket.Since;
    SinceAfter(b, call, k, now);
  }

  lemma SinceAfter(b: Bucket, call: Call, k: int, now: real)
    requires -1 <= k < |b.calls|
    ensures b.After(call).Since(k) == b.Since(k)
    ensures b.After(call).Inflow(b.Since(k), now) == b.Inflow(b.Since(k), now)
    ensures b.After(call).GrantedSince(k) == b.GrantedSince(k) + call.granted
  {
    var from := if k == -1 then 0 else k;
    GrantedMore(b.calls[from..], call);
    assert (b.calls + [call])[from..] == b.calls[from..] + [call];
  }

  lemma LeftOfLast(b: Bucket, call: Call)
    ensures b.After(call).Left(|b.calls|, call.time) == b.capacity - call.granted
  {
    hide Bucket.Inflow;
    NoInflow(b.After(call), call.time);
    assert (b.calls + [call])[|b.calls|..] == [call] && [call][1..] == [];
    assert Granted([call]) == call.granted + Granted([]);
  }

  /** Refilling up to the capacity and taking the grant keeps the least that is left. */
  lemma HoldsAfter(b: Bucket, tokens: real, last: real, call: Call)
    requires b.Holds(tokens, last)
    ensures b.After(call).Holds(
      Refilled(tokens, last, call.time, b.capacity, b.fillRate) - call.granted, call.time)
  {
    hide Bucket.Left, Bucket.Inflow, Refilled;
    RefilledIs(b, tokens, last, call.time);
    var after, now := b.After(call), call.time;
    var refilled := tokens + b.Inflow(last, now);
    var left := Refilled(tokens, last, now, b.capacity, b.fillRate) - call.granted;
    var tight :| -1 <= tight < |b.calls| && tokens == b.Left(tight, last);
    LeftOfLast(b, call);
    LeftMoves(b, tight, last, now);
    LeftAfter(b, call, tight, now);
    var tightest := if refilled < b.capacity then tight else |b.calls|;
    assert -1 <= tightest < |after.calls| && left == after.Left(tightest, now);
    forall k | -1 <= k < |after.calls|
      ensures left <= after.Left(k, now)
    {
      if k < |b.calls| {
        LeftMoves(b, k, last, now);
        LeftAfter(b, call, k, now);
      }
    }
  }

  lemma AllowsIffEnough(b: Bucket, tokens: real, last: real, now: real, n: real)
    requires b.Holds(tokens, last)
    ensures b.Allows(now, n) <==> n <= Refilled(tokens, last, now, b.capacity, b.fillRate)
  {
    hide Bucket.Left, Bucket.Inflow, Refilled;
    RefilledIs(b, tokens, last, now);
    forall k | -1 <= k < |b.calls|
      ensures b.Left(k, now) == b.Left(k, last) + b.Inflow(last, now)
    {
      LeftMoves(b, k, last, now);
    }
    var tight :| -1 <= tight < |b.calls| && tokens == b.Left(tight, last);
    assert b.Left(tight, now) == tokens + b.Inflow(last, now);
  }

  class TokenBucket {
    const capacity: real
    const fillRate: real
    var tokens: real
    var lastTime: real
    ghost var bucket: Bucket

    ghost predicate Valid()
      reads this
    {
      && bucket.capacity == capacity && bucket.fillRate == fillRate
      && bucket.Holds(tokens, lastTime) && bucket.Honest()
    }

    constructor (capacity: real, fillRate: real, now: real)
      ensures Valid() && bucket == Bucket(capacity, fillRate, now, [])
    {
      this.capacity, this.fillRate, tokens, lastTime := capacity, fillRate, capacity, now;
      bucket := Bucket(capacity, fillRate, now, []);
      new;
      NoInflow(bucket, now);
      assert bucket.Left(-1, now) == capacity;
    }

    /** Grants a request exactly when it stays within the bound from every earlier instant. */
    method AllowRequest(now: real, n: real) returns (ok: bool)
      requires Valid()
      modifies this
      ensures Valid()
      ensures ok <==> old(bucket).Allows(now, n)
      ensures bucket == old(bucket).After(Call(now, if ok then n else 0.0))
    {
      hide Bucket.Holds, Bucket.Allows, Bucket.Honest, Refilled;
      AllowsIffEnough(bucket, tokens, lastTime, now, n);
      Refill(now);
      ok := tokens >= n;
      if ok {
        tokens := tokens - n;
      }
      ghost var call := Call(now, if ok then n else 0.0);
      HoldsAfter(bucket, old(tokens), old(lastTime), call);
      HonestAfter(bucket, call);
      bucket := bucket.After(call);
    }

    method Refill(now: real)
      modifies this`tokens, this`lastTime
      ensures lastTime == now
      ensures tokens == Refilled(old(tokens), old(lastTime), now, capacity, fillRate)
    {
      var refilled := tokens + (now - lastTime) * fillRate;
      tokens := if refilled < capacity then refilled else capacity;
      lastTime := now;
    }
  }

  lemma HonestAfter(b: Bucket, call: Call)
    requires b.Honest() && (call.granted != 0.0 ==> b.Allows(call.time, call.granted))
    ensures b.After(call).Honest()
  {
    var after := b.After(call);
    forall j | 0 <= j < |after.calls| && after.calls[j].granted != 0.0
      ensures after.(calls := after.calls[..j]).Allows(after.calls[j].time, after.calls[j].granted)
    {
      if j < |b.calls| {
        assert after.calls[..j] == b.calls[..j];
      } else {
        assert after.calls[..j] == b.calls;
      }
    }
  }

  /** No stretch of a run is granted more than one full bucket and what flows in meanwhile. */
  lemma {:induction false} StretchBounded(b: Bucket, i: nat, j: nat)
    requires b.Honest() && b.capacity >= 0.0 && b.fillRate >= 0.0
    requires forall k, m :: 0 <= k < m < |b.calls| ==> b.calls[k].time <= b.calls[m].time
    requires i <= j < |b.calls|
    ensures Granted(b.calls[i..j+1]) <= b.capacity + b.Inflow(b.calls[i].time, b.calls[j].time)
    decreases j
  {
    hide Granted, Bucket.Honest, Bucket.Inflow;
    var call := b.calls[j];
    assert b.calls[i..j+1] == b.calls[i..j] + [call];
    GrantedMore(b.calls[i..j], call);
    if call.granted != 0.0 {
      GrantBounded(b, i, j);
    } else if i < j {
      StretchBounded(b, i, j - 1);
      InflowGrows(b, b.calls[i].time, b.calls[j-1].time, call.time);
    } else {
      NothingGranted(b.calls[i..j]);
      NoInflow(b, call.time);
    }
  }

  /** A grant stays within the bound from every earlier call. */
  lemma GrantBounded(b: Bucket, i: nat, j: nat)
    requires b.Honest() && i <= j < |b.calls| && b.calls[j].granted != 0.0
    ensures Granted(b.calls[i..j]) + b.calls[j].granted <= b.capacity + b.Inflow(b.calls[i].time, b.calls[j].time)
  {
    hide Granted, Bucket.Inflow;
    var before, call := b.(calls := b.calls[..j]), b.calls[j];
    assert before.Allows(call.time, call.granted);
    if i < j {
      assert before.calls[i..] == b.calls[i..j];
      assert call.granted <= before.Left(i, call.time);
      SameInflow(before, b, b.calls[i].time, call.time);
    } else {
      NothingGranted(b.calls[i..j]);
      NoInflow(b, call.time);
    }
  }

  lemma SameInflow(a: Bucket, b: Bucket, start: real, end: real)
    requires a.fillRate == b.fillRate
    ensures a.Inflow(start, end) == b.Inflow(start, end)
  {
  }

  lemma NothingGranted(calls: seq<Call>)
    requires calls == []
    ensures Granted(calls) == 0.0
  {
  }

  // ---------- sliding window log ----------

  /** The instants less than a window before `now`. */
  function Recent(accepted: seq<real>, now: real, window: real): seq<real> {
    if accepted == [] then []
    else
      var before, last := Recent(accepted[..|accepted|-1], now, window), accepted[|accepted|-1];
      if now - last < window then before + [last] else before
  }

  /** The instants in the half-open interval of one window that starts at `from`. */
  function Within(accepted: seq<real>, from: real, window: real): seq<real> {
    if accepted == [] then []
    else
      var before, last := Within(accepted[..|accepted|-1], from, window), accepted[|accepted|-1];
      if from <= last < from + window then before + [last] else before
  }

  class SlidingWindowLog {
    const windowSize: real
    const maxRequests: int
    var requestLog: seq<real>

    // All instants accepted so far, and the last instant seen.
    ghost var accepted: seq<real>
    ghost var clock: real

    /** The log can be relied on from the last instant on; it can as long as the clock has not run back. */
    ghost predicate Steady()
      reads this
    {
      && Ordered(accepted) && (accepted != [] ==> accepted[|accepted|-1] <= clock)
      && Ordered(requestLog) && Stands(requestLog, accepted, clock, windowSize)
      && NeverTooMany(accepted, windowSize, maxRequests)
    }

    /** With a limit of one, or none, the log is the last request accepted. */
    ghost predicate Spaced()
      reads this
    {
      && (maxRequests <= 0 ==> accepted == [])
      && requestLog == (if accepted == [] then [] else [accepted[|accepted|-1]])
      && Apart(accepted, windowSize)
    }

    constructor (windowSize: real, maxRequests: int, now: real)
      ensures Steady() && Spaced() && this.windowSize == windowSize && this.maxRequests == maxRequests
      ensures requestLog == accepted == [] && clock == now
    {
      this.windowSize, this.maxRequests, requestLog := windowSize, maxRequests, [];
      accepted, clock := [], now;
    }

    /**
      Accepts a request if there is room after the eviction. While the clock does not run back, that is
      exactly when the window that ends now still has room, and the log is that window.
     */
    method AllowRequest(now: real) returns (ok: bool)
      modifies this
      ensures ok <==> |Evicted(old(requestLog), now, windowSize)| < maxRequests
      ensures requestLog == Evicted(old(requestLog), now, windowSize) + if ok then [now] else []
      ensures accepted == (if ok then old(accepted) + [now] else old(accepted)) && clock == now
      ensures old(Steady()) && now >= old(clock) ==>
        Steady() && Evicted(old(requestLog), now, windowSize) == Recent(old(accepted), now, windowSize)
      ensures maxRequests <= 1 && old(Spaced()) ==> Spaced()
    {
      hide Recent, Stands, NeverTooMany, Ordered;
      while |requestLog| != 0 && now - requestLog[0] >= windowSize
        invariant accepted == old(accepted) && clock == old(clock)
        invariant Evicted(requestLog, now, windowSize) == Evicted(old(requestLog), now, windowSize)
        decreases |requestLog|
      {
        requestLog := requestLog[1..];
      }
      ok := |requestLog| < maxRequests;
      if ok {
        requestLog := requestLog + [now];
        accepted := accepted + [now];
      }
      clock := now;
      if old(Steady()) && now >= old(clock) {
        StaysSteady(old(requestLog), old(accepted), old(clock), now, ok);
      }
    }

    /** What one call keeps while the clock does not run back. */
    lemma StaysSteady(log: seq<real>, before: seq<real>, last: real, now: real, ok: bool)
      requires now >= last && clock == now
      requires Ordered(before) && (before != [] ==> before[|before|-1] <= last)
      requires Ordered(log) && Stands(log, before, last, windowSize) && NeverTooMany(before, windowSize, maxRequests)
      requires ok ==> |Evicted(log, now, windowSize)| < maxRequests
      requires requestLog == Evicted(log, now, windowSize) + if ok then [now] else []
      requires accepted == if ok then before + [now] else before
      ensures Steady() && Evicted(log, now, windowSize) == Recent(before, now, windowSize)
    {
      hide Recent, Stands, NeverTooMany, Ordered;
      StandsLater(log, before, last, now, windowSize);
      EvictedStands(log, before, now, windowSize);
      var window := Evicted(log, now, windowSize);
      AllRecent(window, now, windowSize);
      StandsNow(window, before, now, windowSize);
      if ok {
        LogMore(window, before, now, windowSize, maxRequests);
      } else {
        assert requestLog == window;
      }
    }
  }

  /** The log without the instants at its front that have left the window. */
  function Evicted(log: seq<real>, now: real, window: real): (r: seq<real>)
    ensures r != [] ==> now - r[0] < window
  {
    if log != [] && now - log[0] >= window then Evicted(log[1..], now, window) else log
  }

  lemma {:induction false} EvictedStands(log: seq<real>, accepted: seq<real>, now: real, window: real)
    requires Ordered(log) && Stands(log, accepted, now, window)
    ensures Ordered(Evicted(log, now, window)) && Stands(Evicted(log, now, window), accepted, now, window)
  {
    hide Stands;
    if log != [] && now - log[0] >= window {
      DropFirst(log, accepted, now, window);
      EvictedStands(log[1..], accepted, now, window);
    }
  }

  // ---------- clocks that run back ----------

  function Copies(t: real, n: nat): seq<real> {
    seq(n, _ => t)
  }

  lemma {:induction false} CopiesStay(t: real, n: nat, now: real, window: real)
    ensures Evicted(Copies(t, n), now, window) == if now - t >= window then [] else Copies(t, n)
  {
    if n > 0 {
      assert Copies(t, n)[0] == t && Copies(t, n)[1..] == Copies(t, n - 1);
      CopiesStay(t, n - 1, now, window);
    }
  }

  lemma {:induction false} CopiesWithin(t: real, n: nat, window: real)
    requires window > 0.0
    ensures Within(Copies(t, n), t, window) == Copies(t, n)
  {
    if n > 0 {
      assert Copies(t, n)[..n-1] == Copies(t, n - 1);
      CopiesWithin(t, n - 1, window);
      assert Copies(t, n) == Copies(t, n - 1) + [t];
    }
  }

  lemma WithinMore(times: seq<real>, last: real, start: real, window: real)
    ensures Within(times + [last], start, window) ==
      Within(times, start, window) + if start <= last < start + window then [last] else []
  {
    assert (times + [last])[..|times|] == times;
  }

  /**
    Whatever a clock steps back, from `last` to `now`, makes the log forget: this run steps back only there,
    and more requests than allowed are accepted within one window. The limit is any of at least two.
   */
  method ClockRunsBack(window: real, last: real, now: real, max: nat) returns (l: SlidingWindowLog, start: real)
    requires window > 0.0 && now < last && max >= 2
    ensures l.windowSize == window && l.maxRequests == max && start <= last
    ensures l.accepted == Copies(start, max) + [last, now]
    ensures |Within(l.accepted, start, window)| == max + 1
  {
    hide Evicted, Within, Recent, SlidingWindowLog.Steady, SlidingWindowLog.Spaced;
    start := if now <= last - window then now else last - window;
    l := new SlidingWindowLog(window, max, start);
    for i := 0 to max
      invariant l.windowSize == window && l.maxRequests == max && fresh(l)
      invariant l.requestLog == Copies(start, i) && l.accepted == Copies(start, i)
    {
      CopiesStay(start, i, start, window);
      var ok := l.AllowRequest(start);
      assert Copies(start, i + 1) == Copies(start, i) + [start];
    }
    CopiesStay(start, max, last, window);
    var ok := l.AllowRequest(last);
    assert l.requestLog == Copies(last, 1);
    CopiesStay(last, 1, now, window);
    ok := l.AllowRequest(now);
    assert Copies(start, max) + [last] + [now] == Copies(start, max) + [last, now];
    CopiesWithin(start, max, window);
    WithinMore(Copies(start, max), last, start, window);
    WithinMore(Copies(start, max) + [last], now, start, window);
  }

  /** Each instant is at least a window after the one before. */
  ghost predicate Apart(accepted: seq<real>, window: real) {
    forall i :: 0 < i < |accepted| ==> accepted[i] - accepted[i-1] >= window
  }

  lemma {:induction false} ApartBelow(accepted: seq<real>, window: real)
    requires Apart(accepted, window) && window >= 0.0 && accepted != []
    ensures forall i :: 0 <= i < |accepted| - 1 ==> accepted[i] <= accepted[|accepted|-1] - window
  {
    if |accepted| > 1 {
      ApartBelow(accepted[..|accepted|-1], window);
    }
  }

  lemma {:induction false} NoneWithin(accepted: seq<real>, start: real, window: real)
    requires forall i :: 0 <= i < |accepted| ==> !(start <= accepted[i] < start + window)
    ensures Within(accepted, start, window) == []
  {
    if accepted != [] {
      NoneWithin(accepted[..|accepted|-1], start, window);
    }
  }

  /** A limit of one is kept whatever the clock does. */
  lemma {:induction false} ApartBounded(accepted: seq<real>, start: real, window: real)
    requires Apart(accepted, window)
    ensures |Within(accepted, start, window)| <= 1
  {
    if window <= 0.0 {
      NoneWithin(accepted, start, window);
    } else if accepted != [] {
      var before, last := accepted[..|accepted|-1], accepted[|accepted|-1];
      if start <= last < start + window {
        ApartBelow(accepted, window);
        NoneWithin(before, start, window);
      } else {
        ApartBounded(before, start, window);
      }
    }
  }

  // ---------- clocks that read whole seconds ----------

  /** The instants that a clock of whole seconds reads. */
  ghost predicate AreFloors(read: seq<real>, times: seq<real>) {
    |read| == |times| && forall i :: 0 <= i < |times| ==> read[i] == times[i].Floor as real
  }

  lemma {:induction false} WithinFloors(read: seq<real>, times: seq<real>, start: real, window: real)
    requires AreFloors(read, times)
    ensures |Within(times, start, window - 1.0)| <= |Within(read, start - 1.0, window)|
  {
    if times != [] {
      WithinFloors(read[..|times|-1], times[..|times|-1], start, window);
    }
  }

  /** In real time the limit holds for intervals that are a second shorter than the window. */
  lemma WholeSecondsBounded(read: seq<real>, times: seq<real>, start: real, window: real, max: int)
    requires AreFloors(read, times) && Ordered(read) && NeverTooMany(read, window, max)
    ensures |Within(times, start, window - 1.0)| <= if max > 0 then max else 0
  {
    WithinFloors(read, times, start, window);
    IntervalBounded(read, start - 1.0, window, max);
  }

  /** In intervals as long as the window it does not: requests at 0.99 and at 60 are both accepted. */
  method WholeSecondsExceeded() returns (l: SlidingWindowLog)
    ensures l.windowSize == 60.0 && l.maxRequests == 1 && AreFloors(l.accepted, [0.99, 60.0])
    ensures |Within([0.99, 60.0], 0.99, l.windowSize)| == 2
  {
    hide Evicted, Within, Recent, SlidingWindowLog.Steady, SlidingWindowLog.Spaced;
    l := new SlidingWindowLog(60.0, 1, 0.0);
    CopiesStay(0.0, 0, 0.0, 60.0);
    assert Copies(0.0, 0) == [];
    var ok := l.AllowRequest(0.0);
    CopiesStay(0.0, 1, 60.0, 60.0);
    assert l.requestLog == Copies(0.0, 1);
    ok := l.AllowRequest(60.0);
    assert l.accepted == [0.0, 60.0];
    assert 0.99.Floor == 0 && 60.0.Floor == 60;
    NoneWithin([], 0.99, 60.0);
    WithinMore([], 0.99, 0.99, 60.0);
    WithinMore([0.99], 60.0, 0.99, 60.0);
    assert [] + [0.99] == [0.99] && [0.99] + [60.0] == [0.99, 60.0];
  }

  ghost predicate Ordered(times: seq<real>) {
    forall i, j :: 0 <= i < j < |times| ==> times[i] <= times[j]
  }

  /** From `clock` on, the log tells the same recent instants as all those accepted. */
  ghost predicate Stands(log: seq<real>, accepted: seq<real>, clock: real, window: real) {
    forall t: real :: t >= clock ==> Recent(log, t, window) == Recent(accepted, t, window)
  }

  /** Every instant was accepted while its window had room. */
  ghost predicate NeverTooMany(accepted: seq<real>, window: real, max: int) {
    forall j :: 0 <= j < |accepted| ==> |Recent(accepted[..j], accepted[j], window)| < max
  }

  lemma StandsLater(log: seq<real>, accepted: seq<real>, clock: real, now: real, window: real)
    requires Stands(log, accepted, clock, window) && now >= clock
    ensures Stands(log, accepted, now, window)
  {
  }

  lemma StandsNow(log: seq<real>, accepted: seq<real>, now: real, window: real)
    requires Stands(log, accepted, now, window)
    ensures Recent(log, now, window) == Recent(accepted, now, window)
  {
  }

  lemma RecentMore(accepted: seq<real>, last: real, now: real, window: real)
    ensures Recent(accepted + [last], now, window) ==
      Recent(accepted, now, window) + if now - last < window then [last] else []
  {
    assert (accepted + [last])[..|accepted|] == accepted;
  }

  /** An instant that has left the window stays out of it. */
  lemma {:induction false} RecentWithoutFirst(log: seq<real>, now: real, window: real)
    requires log != [] && now - log[0] >= window
    ensures Recent(log[1..], now, window) == Recent(log, now, window)
  {
    if |log| == 1 {
      assert log[..0] == [];
    } else {
      RecentWithoutFirst(log[..|log|-1], now, window);
      assert log[..|log|-1][1..] == log[1..][..|log|-2];
    }
  }

  lemma DropFirst(log: seq<real>, accepted: seq<real>, now: real, window: real)
    requires log != [] && now - log[0] >= window && Ordered(log) && Stands(log, accepted, now, window)
    ensures Ordered(log[1..]) && Stands(log[1..], accepted, now, window)
  {
    forall t: real | t >= now
      ensures Recent(log[1..], t, window) == Recent(accepted, t, window)
    {
      RecentWithoutFirst(log, t, window);
    }
  }

  lemma {:induction false} AllRecent(log: seq<real>, now: real, window: real)
    requires Ordered(log) && (log != [] ==> now - log[0] < window)
    ensures Recent(log, now, window) == log
  {
    if log != [] {
      AllRecent(log[..|log|-1], now, window);
    }
  }

  lemma {:induction false} RecentAmong(accepted: seq<real>, now: real, window: real)
    ensures forall t :: t in Recent(accepted, now, window) ==> t in accepted
  {
    if accepted != [] {
      RecentAmong(accepted[..|accepted|-1], now, window);
    }
  }

  lemma StandsMore(log: seq<real>, accepted: seq<real>, now: real, window: real)
    requires Stands(log, accepted, now, window)
    ensures Stands(log + [now], accepted + [now], now, window)
  {
    hide Recent;
    forall t: real | t >= now
      ensures Recent(log + [now], t, window) == Recent(accepted + [now], t, window)
    {
      RecentMore(log, now, t, window);
      RecentMore(accepted, now, t, window);
    }
  }

  lemma OrderedMore(times: seq<real>, now: real)
    requires Ordered(times) && forall t :: t in times ==> t <= now
    ensures Ordered(times + [now])
  {
    assert forall i :: 0 <= i < |times| ==> times[i] in times;
  }

  lemma LogMore(log: seq<real>, accepted: seq<real>, now: real, window: real, max: int)
    requires Stands(log, accepted, now, window) && NeverTooMany(accepted, window, max)
    requires log == Recent(accepted, now, window) && |log| < max && Ordered(log)
    requires Ordered(accepted) && (accepted != [] ==> accepted[|accepted|-1] <= now)
    ensures Stands(log + [now], accepted + [now], now, window)
    ensures NeverTooMany(accepted + [now], window, max)
    ensures Ordered(log + [now]) && Ordered(accepted + [now])
  {
    hide Recent, Stands;
    RecentAmong(accepted, now, window);
    OrderedMore(log, now);
    OrderedMore(accepted, now);
    StandsMore(log, accepted, now, window);
    var more := accepted + [now];
    forall j | 0 <= j < |more|
      ensures |Recent(more[..j], more[j], window)| < max
    {
      assert more[..j] == if j < |accepted| then accepted[..j] else accepted;
    }
  }

  /** An interval that ends with its last instant lies in the window of that instant. */
  lemma {:induction false} WithinIsRecent(accepted: seq<real>, from: real, last: real, window: real)
    requires from <= last < from + window
    requires forall i :: 0 <= i < |accepted| ==> accepted[i] <= last
    ensures |Within(accepted, from, window)| <= |Recent(accepted, last, window)|
  {
    if accepted != [] {
      WithinIsRecent(accepted[..|accepted|-1], from, last, window);
    }
  }

  /** No interval of the length of the window ever holds more requests than allowed. */
  lemma {:induction false} IntervalBounded(accepted: seq<real>, from: real, window: real, max: int)
    requires Ordered(accepted) && NeverTooMany(accepted, window, max)
    ensures |Within(accepted, from, window)| <= if max > 0 then max else 0
  {
    if accepted != [] {
      var n := |accepted|;
      var before, last := accepted[..n-1], accepted[n-1];
      if from <= last < from + window {
        assert |Recent(accepted[..n-1], accepted[n-1], window)| < max;
        WithinIsRecent(before, from, last, window);
      } else {
        forall j | 0 <= j < |before|
          ensures |Recent(before[..j], before[j], window)| < max
        {
          assert before[..j] == accepted[..j] && |Recent(accepted[..j], accepted[j], window)| < max;
        }
        IntervalBounded(before, from, window, max);
      }
    }
  }
}
