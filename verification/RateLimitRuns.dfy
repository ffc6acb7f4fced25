/** Whole runs of the rate limiter: what a run admits, against a log that forgets nothing. */
module RateLimitRuns {
  import opened Arithmetic
  import opened RateLimit

  datatype Request = Request(key: Key, time: int)

  /** The requests of a run in the order in which they took the limiter's lock. */
  function Serve(c: Windows, limit: int, requests: seq<Request>): (r: (Windows, seq<Result>))
    requires c.length > 0
    ensures r.0.length == c.length && |r.1| == |requests|
  {
    if requests == [] then (c, [])
    else
      var (d, results) := Serve(c, limit, requests[..|requests| - 1]);
      var last := requests[|requests| - 1];
      var (e, result) := Check(d, limit, last.key, last.time);
      (e, results + [result])
  }

  /** The requests that a run let through. */
  function Admitted(requests: seq<Request>, results: seq<Result>): seq<Request>
    requires |requests| == |results|
  {
    if requests == [] then []
    else
      var n := |requests| - 1;
      Admitted(requests[..n], results[..n]) + if results[n].allowed then [requests[n]] else []
  }

  function Served(length: int, limit: int, start: int, requests: seq<Request>): seq<Request>
    requires length > 0
  {
    Admitted(requests, Serve(Fresh(length, start), limit, requests).1)
  }

  /** The clock is read under the lock, so lock order is clock order. */
  ghost predicate Clocked(start: int, requests: seq<Request>) {
    && (forall i | 0 <= i < |requests| :: start <= requests[i].time)
    && (forall i, j | 0 <= i <= j < |requests| :: requests[i].time <= requests[j].time)
  }

  // -------------------------------------------- the reference: a complete log

  function CountIn(log: seq<Request>, key: Key, from: int, until: int): nat {
    if log == [] then 0
    else
      var last := log[|log| - 1];
      CountIn(log[..|log| - 1], key, from, until) + if last.key == key && from <= last.time < until then 1 else 0
  }

  /** Is the weighted rate of everything admitted so far low enough for one more? */
  predicate Allows(log: seq<Request>, length: int, limit: int, r: Request)
    requires length > 0
  {
    var w := Truncate(r.time, length);
    CountIn(log, r.key, w - length, w) * (length - r.time % length)
      + CountIn(log, r.key, w, w + length) * length + length <= limit * length
  }

  /** The answer that the complete log gives. */
  function Answer(log: seq<Request>, length: int, limit: int, r: Request): Result
    requires length > 0
  {
    var w := Truncate(r.time, length);
    Decide(CountIn(log, r.key, w, w + length), CountIn(log, r.key, w - length, w), limit, length, r.time)
  }

  function Admissions(length: int, limit: int, requests: seq<Request>): seq<Request>
    requires length > 0
  {
    if requests == [] then []
    else
      var n := |requests| - 1;
      var log := Admissions(length, limit, requests[..n]);
      if Allows(log, length, limit, requests[n]) then log + [requests[n]] else log
  }

  function Entries(length: int, log: seq<Request>): seq<Entry>
    requires length > 0
  {
    seq(|log|, i requires 0 <= i < |log| => Entry(log[i].key, Truncate(log[i].time, length), 1))
  }

  lemma InWindow(time: int, window: int, length: int)
    requires length > 0 && window % length == 0
    ensures Truncate(time, length) == window <==> window <= time < window + length
  {
    var d := time / length - window / length;
    assert time == length * (time / length) + time % length && window == length * (window / length);
    assert time - window == d * length + time % length;
    if d >= 1 { MulLe(1, d, length); }
    if d <= -1 { MulLe(d, -1, length); }
  }

  lemma {:induction false} SumIsCount(length: int, log: seq<Request>, key: Key, window: int)
    requires length > 0 && window % length == 0
    ensures Sum(Entries(length, log), key, window) == CountIn(log, key, window, window + length)
  {
    if log != [] {
      var n := |log| - 1;
      SumIsCount(length, log[..n], key, window);
      assert Entries(length, log)[..n] == Entries(length, log[..n]);
      InWindow(log[n].time, window, length);
    }
  }

  // ------------------------------------------------- the counter refines the log

  ghost predicate Refines(c: Windows, log: seq<Request>) {
    && c.length > 0
    && c.tracked % c.length == 0
    && Agrees(c, Entries(c.length, log))
  }

  lemma AnswerRefines(d: Windows, log: seq<Request>, limit: int, r: Request)
    requires Refines(d, log) && d.tracked == Truncate(r.time, d.length)
    ensures Decide(At(d.current, r.key), At(d.previous, r.key), limit, d.length, r.time) == Answer(log, d.length,
                limit, r)
  {
    SameRemainder(d.tracked, d.length, d.length);
    SumIsCount(d.length, log, r.key, d.tracked);
    SumIsCount(d.length, log, r.key, d.tracked - d.length);
  }

  lemma EvictionRefines(c: Windows, log: seq<Request>, time: int)
    requires Refines(c, log) && Truncate(time, c.length) >= c.tracked
    ensures Refines(Evicted(c, Truncate(time, c.length)), log)
  {
    var w := Truncate(time, c.length);
    Aligned(time, c.length);
    SameRemainder(w, c.tracked, c.length);
    EvictionAgrees(c, Entries(c.length, log), w);
  }

  lemma RecordingRefines(d: Windows, log: seq<Request>, r: Request)
    requires Refines(d, log) && d.tracked == Truncate(r.time, d.length)
    ensures Refines(Recorded(d, r.key, 1), log + [r])
  {
    RecordingAgrees(d, Entries(d.length, log), r.key, 1);
    assert Entries(d.length, log + [r]) == Entries(d.length, log) + [Entry(r.key, d.tracked, 1)];
  }

  lemma AnswerAllows(log: seq<Request>, length: int, limit: int, r: Request)
    requires length > 0
    ensures Answer(log, length, limit, r).allowed <==> Allows(log, length, limit, r)
  {}

  /** One check, made on the two-window counter, answers and decides as the complete log would. */
  lemma CheckRefines(c: Windows, log: seq<Request>, limit: int, r: Request)
    requires Refines(c, log) && Truncate(r.time, c.length) >= c.tracked
    ensures var (d, result) := Check(c, limit, r.key, r.time);
            && result == Answer(log, c.length, limit, r)
            && (result.allowed <==> Allows(log, c.length, limit, r))
            && Refines(d, if result.allowed then log + [r] else log)
  {
    EvictionRefines(c, log, r.time);
    var d := Evicted(c, Truncate(r.time, c.length));
    AnswerRefines(d, log, limit, r);
    AnswerAllows(log, c.length, limit, r);
    if Allows(log, c.length, limit, r) { RecordingRefines(d, log, r); }
  }

  lemma Aligned(time: int, length: int)
    requires length > 0
    ensures Truncate(time, length) % length == 0
  {
    SameRemainder(time, time % length, length);
  }

  /** Over every run with a nondecreasing clock the two-window counter is the complete log:
      it lets exactly the same requests through, and its maps say what the log says. */
  lemma {:induction false} RunRefines(length: int, limit: int, start: int, requests: seq<Request>)
    requires length > 0 && Clocked(start, requests)
    ensures Served(length, limit, start, requests) == Admissions(length, limit, requests)
    ensures Refines(Serve(Fresh(length, start), limit, requests).0, Admissions(length, limit, requests))
    ensures Serve(Fresh(length, start), limit, requests).0.tracked
            == Truncate(if requests == [] then start else requests[|requests| - 1].time, length)
  {
    if requests == [] {
      Aligned(start, length);
    } else {
      var n := |requests| - 1;
      var front := requests[..n];
      RunRefines(length, limit, start, front);
      var (d, results) := Serve(Fresh(length, start), limit, front);
      var before := if front == [] then start else front[n - 1].time;
      TruncateMonotone(before, requests[n].time, length);
      CheckRefines(d, Admissions(length, limit, front), limit, requests[n]);
      var all := Serve(Fresh(length, start), limit, requests).1;
      assert all[..n] == results;
    }
  }

  lemma TruncateMonotone(a: int, b: int, length: int)
    requires length > 0 && a <= b
    ensures Truncate(a, length) <= Truncate(b, length)
  {
    assert a == length * (a / length) + a % length && b == length * (b / length) + b % length;
    if b / length < a / length { MulLess(b / length, a / length, length); }
    MulLe(a / length, b / length, length);
  }

  // ----------------------------------------------------------- the sliding bound

  lemma {:induction false} CountAdds(log: seq<Request>, key: Key, a: int, b: int, c: int)
    requires a <= b <= c
    ensures CountIn(log, key, a, c) == CountIn(log, key, a, b) + CountIn(log, key, b, c)
  {
    if log != [] { CountAdds(log[..|log| - 1], key, a, b, c); }
  }

  /** Nothing admitted is later than the last request. */
  lemma {:induction false} NothingLater(length: int, limit: int, requests: seq<Request>, key: Key, from: int,
                                        until: int)
    requires length > 0
    requires forall i | 0 <= i < |requests| :: requests[i].time < from
    ensures CountIn(Admissions(length, limit, requests), key, from, until) == 0
  {
    if requests != [] {
      var n := |requests| - 1;
      NothingLater(length, limit, requests[..n], key, from, until);
      CountSnoc(Admissions(length, limit, requests[..n]), requests[n], key, from, until);
    }
  }

  lemma CountSnoc(log: seq<Request>, r: Request, key: Key, from: int, until: int)
    ensures CountIn(log + [r], key, from, until)
            == CountIn(log, key, from, until) + if r.key == key && from <= r.time < until then 1 else 0
  {
    assert (log + [r])[..|log|] == log;
  }

  /** The admitted requests of `key` in the window that starts at `window`. */
  function InAligned(log: seq<Request>, key: Key, window: int, length: int): nat {
    CountIn(log, key, window, window + length)
  }

  /** The admitted requests of `key` in the interval of one window length that starts `offset` later. */
  function InShifted(log: seq<Request>, key: Key, window: int, offset: int, length: int): nat {
    CountIn(log, key, window + offset, window + offset + length)
  }

  /** What `Allows` leaves room for: the arithmetic of one admission in the following window. */
  lemma LateAdmission(p: int, a: int, b: int, cur: int, e: int, m: int, limit: int, length: int)
    requires length > 0 && 0 <= a <= p && 0 <= b <= cur && 0 <= e <= m
    requires p * (length - e) + cur * length + length <= limit * length
    ensures (a + b + 1) * length <= limit * length + p * m
  {
    MulLe(a + b + 1, p + cur + 1, length);
    MulLe(e, m, p);
    assert p * (length - e) == p * length - e * p;
    assert (p + cur + 1) * length == p * length + cur * length + length;
    assert m * p == p * m;
  }

  lemma EarlyAdmission(p: int, prev: int, e: int, limit: int, length: int)
    requires length > 0 && 0 <= prev && 0 <= e < length
    requires prev * (length - e) + p * length + length <= limit * length
    ensures p + 1 <= limit
  {
    MulNonneg(prev, length - e);
    assert (p + 1) * length == p * length + length;
    MulCancel(p + 1, limit, length);
  }

  /** `Allows` in terms of the two counts and the time since the window began. */
  lemma AllowsMeans(log: seq<Request>, length: int, limit: int, r: Request, w: int)
    requires length > 0 && Truncate(r.time, length) == w
    ensures 0 <= r.time - w < length
    ensures Allows(log, length, limit, r)
            <==> CountIn(log, r.key, w - length, w) * (length - (r.time - w))
                 + CountIn(log, r.key, w, w + length) * length + length <= limit * length
  {
    assert r.time % length == r.time - w;
  }

  lemma RoomLeft(log: seq<Request>, length: int, limit: int, r: Request, w: int)
    requires length > 0 && Truncate(r.time, length) == w && Allows(log, length, limit, r)
    ensures InAligned(log, r.key, w, length) + 1 <= limit
  {
    AllowsMeans(log, length, limit, r, w);
    EarlyAdmission(CountIn(log, r.key, w, w + length), CountIn(log, r.key, w - length, w), r.time - w, limit, length);
  }

  lemma LateRoomLeft(log: seq<Request>, length: int, limit: int, r: Request, w: int, a: int, b: int, m: int)
    requires length > 0 && Truncate(r.time, length) == w && Allows(log, length, limit, r) && r.time - w <= m
    requires 0 <= a <= CountIn(log, r.key, w - length, w) && 0 <= b <= CountIn(log, r.key, w, w + length)
    ensures (a + b + 1) * length <= limit * length + CountIn(log, r.key, w - length, w) * m
  {
    AllowsMeans(log, length, limit, r, w);
    LateAdmission(CountIn(log, r.key, w - length, w), a, b, CountIn(log, r.key, w, w + length), r.time - w, m,
                  limit, length);
  }

  lemma EarlyCounts(before: seq<Request>, r: Request, window: int, offset: int, length: int)
    requires 0 <= offset && window + offset <= r.time < window + length
    requires CountIn(before, r.key, window + length, window + length + offset) == 0
    ensures InAligned(before + [r], r.key, window, length) == InAligned(before, r.key, window, length) + 1
    ensures InShifted(before + [r], r.key, window, offset, length) <= InAligned(before + [r], r.key, window, length)
  {
    var log, next := before + [r], window + length;
    CountAdds(log, r.key, window, window + offset, next);
    CountAdds(log, r.key, window + offset, next, next + offset);
    CountSnoc(before, r, r.key, window, next);
    CountSnoc(before, r, r.key, next, next + offset);
  }

  /** An admission inside the window itself: at most `limit` of them. */
  lemma EarlyKeepsBound(length: int, limit: int, front: seq<Request>, r: Request, window: int, offset: int)
    requires length > 0 && Truncate(r.time, length) == window && 0 <= offset
    requires window + offset <= r.time < window + length
    requires forall i | 0 <= i < |front| :: front[i].time <= r.time
    requires Allows(Admissions(length, limit, front), length, limit, r)
    ensures var log := Admissions(length, limit, front) + [r];
            InShifted(log, r.key, window, offset, length) <= InAligned(log, r.key, window, length) <= limit
  {
    var before, next := Admissions(length, limit, front), window + length;
    NothingLater(length, limit, front, r.key, next, next + offset);
    EarlyCounts(before, r, window, offset, length);
    RoomLeft(before, length, limit, r, window);
  }

  /** The interval that starts `offset` into a window, split where the next window begins. */
  lemma LateCounts(before: seq<Request>, r: Request, window: int, offset: int, length: int)
    requires 0 <= offset <= length && window + length <= r.time < window + offset + length
    ensures var next := window + length;
            var a, b := CountIn(before, r.key, window + offset, next), CountIn(before, r.key, next, next + offset);
            && InShifted(before + [r], r.key, window, offset, length) == a + b + 1
            && InAligned(before + [r], r.key, window, length) == CountIn(before, r.key, window, next)
            && a <= CountIn(before, r.key, window, next) && b <= CountIn(before, r.key, next, next + length)
  {
    var next := window + length;
    CountAdds(before, r.key, window, window + offset, next);
    CountAdds(before, r.key, window + offset, next, next + offset);
    CountAdds(before, r.key, next, next + offset, next + length);
    CountSnoc(before, r, r.key, window, next);
    CountSnoc(before, r, r.key, window + offset, next + offset);
  }

  /** An admission in the following window: the earlier ones still weigh. */
  lemma LateKeepsBound(length: int, limit: int, before: seq<Request>, r: Request, window: int, offset: int)
    requires length > 0 && Truncate(r.time, length) == window + length && 0 <= offset < length
    requires window + length <= r.time < window + offset + length
    requires Allows(before, length, limit, r)
    ensures var log := before + [r];
            InShifted(log, r.key, window, offset, length) * length
            <= limit * length + InAligned(log, r.key, window, length) * (offset - 1)
  {
    var next := window + length;
    LateCounts(before, r, window, offset, length);
    LateRoomLeft(before, length, limit, r, next, CountIn(before, r.key, window + offset, next),
                 CountIn(before, r.key, next, next + offset), offset - 1);
  }

  /** (n * length) stays under a bound that only grows. */
  lemma BoundGrows(n: int, p: nat, q: nat, m: nat, limit: int, length: int)
    requires n * length <= Max(limit, 0) * length + p * m && p <= q
    ensures n * length <= Max(limit, 0) * length + q * m
  {
    MulLe(p, q, m);
  }

  lemma UnderLimit(n: int, p: nat, m: nat, limit: int, length: int)
    requires length > 0 && n <= Max(limit, 0)
    ensures n * length <= Max(limit, 0) * length + p * m
  {
    MulLe(n, Max(limit, 0), length);
    MulNonneg(p, m);
  }

  lemma OverLimit(n: int, p: nat, offset: int, limit: int, length: int)
    requires length > 0 && offset >= 1 && n * length <= limit * length + p * (offset - 1)
    ensures n * length <= Max(limit, 0) * length + p * Max(offset - 1, 0)
  {
    MulLe(limit, Max(limit, 0), length);
  }

  /** What is promised of an interval that starts `offset` into a window. */
  predicate Within(log: seq<Request>, key: Key, window: int, offset: int, limit: int, length: int) {
    InShifted(log, key, window, offset, length) * length
    <= Max(limit, 0) * length + InAligned(log, key, window, length) * Max(offset - 1, 0)
  }

  lemma EarlyIsWithin(length: int, limit: int, front: seq<Request>, r: Request, window: int, offset: int)
    requires length > 0 && window % length == 0 && 0 <= offset
    requires forall i | 0 <= i < |front| :: front[i].time <= r.time
    requires Allows(Admissions(length, limit, front), length, limit, r)
    requires window + offset <= r.time < window + length
    ensures Within(Admissions(length, limit, front) + [r], r.key, window, offset, limit, length)
  {
    var log := Admissions(length, limit, front) + [r];
    InWindow(r.time, window, length);
    EarlyKeepsBound(length, limit, front, r, window, offset);
    UnderLimit(InShifted(log, r.key, window, offset, length), InAligned(log, r.key, window, length),
               Max(offset - 1, 0), limit, length);
  }

  lemma NextAligned(window: int, length: int)
    requires length > 0 && window % length == 0
    ensures (window + length) % length == 0
  {
    Multiple(1, length);
    SumOfMultiples(window, length, length);
  }

  lemma LateIsWithin(length: int, limit: int, before: seq<Request>, r: Request, window: int, offset: int)
    requires length > 0 && window % length == 0 && 0 <= offset < length
    requires Allows(before, length, limit, r)
    requires window + length <= r.time < window + offset + length
    ensures Within(before + [r], r.key, window, offset, limit, length)
  {
    NextAligned(window, length);
    InWindow(r.time, window + length, length);
    LateKeepsBound(length, limit, before, r, window, offset);
    OverLimit(InShifted(before + [r], r.key, window, offset, length), InAligned(before + [r], r.key, window, length),
              offset, limit, length);
  }

  lemma AdmissionKeepsBound(length: int, limit: int, front: seq<Request>, r: Request, window: int, offset: int)
    requires length > 0 && window % length == 0 && 0 <= offset < length
    requires forall i | 0 <= i < |front| :: front[i].time <= r.time
    requires Allows(Admissions(length, limit, front), length, limit, r)
    requires window + offset <= r.time < window + offset + length
    ensures Within(Admissions(length, limit, front) + [r], r.key, window, offset, limit, length)
  {
    if r.time < window + length {
      EarlyIsWithin(length, limit, front, r, window, offset);
    } else {
      LateIsWithin(length, limit, Admissions(length, limit, front), r, window, offset);
    }
  }

  lemma {:induction false} AdmissionsBounded(length: int, limit: int, start: int, requests: seq<Request>, key: Key,
                                             window: int, offset: int)
    requires length > 0 && Clocked(start, requests) && window % length == 0 && 0 <= offset < length
    ensures Within(Admissions(length, limit, requests), key, window, offset, limit, length)
  {
    if requests == [] {
      UnderLimit(0, 0, Max(offset - 1, 0), limit, length);
    } else {
      var n := |requests| - 1;
      var front, r := requests[..n], requests[n];
      var before := Admissions(length, limit, front);
      AdmissionsBounded(length, limit, start, front, key, window, offset);
      if Allows(before, length, limit, r) {
        if r.key == key && window + offset <= r.time < window + offset + length {
          AdmissionKeepsBound(length, limit, front, r, window, offset);
        } else {
          CountSnoc(before, r, key, window, window + length);
          CountSnoc(before, r, key, window + offset, window + offset + length);
          BoundGrows(InShifted(before, key, window, offset, length), InAligned(before, key, window, length),
                     InAligned(before + [r], key, window, length), Max(offset - 1, 0), limit, length);
        }
      }
    }
  }

  /** For every run, key and interval of one window length: never more than the limit in an
      aligned window, and in one that starts `offset` into a window with p admissions at most
      limit + p * (offset - 1) / length, hence fewer than twice the limit. */
  lemma SlidingBound(length: int, limit: int, start: int, requests: seq<Request>, key: Key, window: int, offset: int)
    requires length > 0 && Clocked(start, requests) && window % length == 0 && 0 <= offset < length
    ensures var log := Served(length, limit, start, requests);
            && InAligned(log, key, window, length) <= Max(limit, 0)
            && InShifted(log, key, window, offset, length) * length
               <= Max(limit, 0) * length + InAligned(log, key, window, length) * Max(offset - 1, 0)
            && (limit >= 1 ==> InShifted(log, key, window, offset, length) < 2 * limit)
  {
    RunRefines(length, limit, start, requests);
    AdmissionsBounded(length, limit, start, requests, key, window, 0);
    AdmissionsBounded(length, limit, start, requests, key, window, offset);
    var log := Admissions(length, limit, requests);
    var n, p := InShifted(log, key, window, offset, length), InAligned(log, key, window, length);
    MulCancel(p, Max(limit, 0), length);
    if limit >= 1 { FewerThanTwice(n, p, Max(offset - 1, 0), limit, length); }
  }

  lemma FewerThanTwice(n: nat, p: nat, m: int, limit: int, length: int)
    requires limit >= 1 && p <= limit && 0 <= m < length
    requires n * length <= limit * length + p * m
    ensures n < 2 * limit
  {
    MulLe(p, limit, m);
    MulLess(m, length, limit);
    assert m * limit == limit * m && length * limit == limit * length;
    assert (2 * limit) * length == limit * length + limit * length;
    MulCancelLess(n, 2 * limit, length);
  }

  // ----------------------------- where the limit holds in every interval, exactly

  /** No run admits more than `limit` requests of a key in an interval of one window length
      that starts `offset` into a window. */
  ghost predicate LimitHeldAt(length: int, limit: int, offset: int)
    requires length > 0
  {
    forall start, requests, key, window :: HeldInRun(length, limit, offset, start, requests, key, window)
  }

  ghost predicate HeldInRun(length: int, limit: int, offset: int, start: int, requests: seq<Request>, key: Key,
                            window: int)
    requires length > 0
  {
    Clocked(start, requests) && window % length == 0 ==>
      InShifted(Served(length, limit, start, requests), key, window, offset, length) <= limit
  }

  function Burst(key: Key, n: nat, time: int): (r: seq<Request>)
    ensures |r| == n && forall i | 0 <= i < n :: r[i] == Request(key, time)
  {
    seq(n, i => Request(key, time))
  }

  /** The late burst: everything at the end of one window, one more early in the next. */
  function LateBurst(key: Key, length: int, limit: nat, offset: int): seq<Request> {
    Burst(key, limit, length - 1) + [Request(key, length + offset - 1)]
  }

  lemma {:induction false} BurstCount(key: Key, n: nat, time: int, from: int, until: int)
    ensures CountIn(Burst(key, n, time), key, from, until) == if from <= time < until then n else 0
  {
    if n > 0 {
      assert Burst(key, n, time)[..n - 1] == Burst(key, n - 1, time);
      BurstCount(key, n - 1, time, from, until);
    }
  }

  lemma {:induction false} BurstAdmitted(key: Key, n: nat, length: int, limit: int)
    requires length > 0 && n <= limit
    ensures Admissions(length, limit, Burst(key, n, length - 1)) == Burst(key, n, length - 1)
  {
    if n > 0 {
      var front := Burst(key, n - 1, length - 1);
      assert front + [Request(key, length - 1)] == Burst(key, n, length - 1);
      AdmissionsSnoc(length, limit, front, Request(key, length - 1));
      BurstAdmitted(key, n - 1, length, limit);
      BurstRoom(key, n - 1, length, limit);
    }
  }

  lemma BurstRoom(key: Key, n: nat, length: int, limit: int)
    requires length > 0 && n < limit
    ensures Allows(Burst(key, n, length - 1), length, limit, Request(key, length - 1))
  {
    BurstCount(key, n, length - 1, -length, 0);
    BurstCount(key, n, length - 1, 0, length);
    RoomInWindow(Burst(key, n, length - 1), length, limit, Request(key, length - 1), 0);
  }

  /** With nothing in the previous window, a request is admitted while the window has room. */
  lemma RoomInWindow(log: seq<Request>, length: int, limit: int, r: Request, window: int)
    requires length > 0 && window % length == 0 && window <= r.time < window + length
    requires CountIn(log, r.key, window - length, window) == 0
    requires CountIn(log, r.key, window, window + length) < limit
    ensures Allows(log, length, limit, r)
  {
    InWindow(r.time, window, length);
    AllowsMeans(log, length, limit, r, window);
    MulLess(CountIn(log, r.key, window, window + length), limit, length);
  }

  lemma LateBurstAdmitted(key: Key, length: int, limit: nat, offset: int)
    requires 1 <= offset < length && limit * (offset - 1) >= length
    ensures Admissions(length, limit, LateBurst(key, length, limit, offset)) == LateBurst(key, length, limit, offset)
  {
    BurstAdmitted(key, limit, length, limit);
    LateRoom(key, length, limit, offset);
    AdmissionsSnoc(length, limit, Burst(key, limit, length - 1), Request(key, length + offset - 1));
  }

  lemma LateRoom(key: Key, length: int, limit: nat, offset: int)
    requires 1 <= offset < length && limit * (offset - 1) >= length
    ensures Allows(Burst(key, limit, length - 1), length, limit, Request(key, length + offset - 1))
  {
    Multiple(1, length);
    InWindow(length + offset - 1, length, length);
    BurstCount(key, limit, length - 1, 0, length);
    BurstCount(key, limit, length - 1, length, 2 * length);
    LateRoomArithmetic(length, limit, offset);
    AllowsWith(Burst(key, limit, length - 1), length, limit, Request(key, length
        + offset - 1), length, limit, 0, offset - 1);
  }

  lemma LateRoomArithmetic(length: int, limit: int, offset: int)
    requires limit * (offset - 1) >= length
    ensures limit * (length - (offset - 1)) + 0 * length + length <= limit * length
  {
    assert limit * (length - (offset - 1)) == limit * length - limit * (offset - 1);
    assert 0 * length == 0;
  }

  lemma AllowsWith(log: seq<Request>, length: int, limit: int, r: Request, w: int, previous: nat, current: nat,
                   elapsed: int)
    requires length > 0 && Truncate(r.time, length) == w && elapsed == r.time - w
    requires previous == CountIn(log, r.key, w - length, w) && current == CountIn(log, r.key, w, w + length)
    requires previous * (length - elapsed) + current * length + length <= limit * length
    ensures Allows(log, length, limit, r)
  {
    AllowsMeans(log, length, limit, r, w);
  }

  /** The documented promise, at most `limit` requests in any window length, holds for the
      intervals at an offset if and only if limit * (offset - 1) < length. */
  lemma LimitHeldExactly(length: int, limit: int, offset: int)
    requires length > 0 && limit >= 1 && 0 <= offset < length
    ensures LimitHeldAt(length, limit, offset) <==> limit * (offset - 1) < length
  {
    if limit * (offset - 1) >= length {
      LateBurstExceeds(length, limit, offset);
    } else {
      forall start, requests, key, window ensures HeldInRun(length, limit, offset, start, requests, key, window) {
        if Clocked(start, requests) && window % length == 0 {
          SlidingBound(length, limit, start, requests, key, window, offset);
          var log := Served(length, limit, start, requests);
          NoneOver(InShifted(log, key, window, offset, length), InAligned(log, key, window, length), offset, limit,
              length);
        }
      }
    }
  }

  lemma LateOffset(length: int, limit: int, offset: int)
    requires length > 0 && limit >= 1 && limit * (offset - 1) >= length
    ensures offset >= 1
  {
    if offset < 1 { MulLe(offset - 1, -1, limit); }
  }

  lemma LateBurstCount(key: Key, length: int, limit: nat, offset: int)
    requires 1 <= offset < length
    ensures Clocked(0, LateBurst(key, length, limit, offset))
    ensures InShifted(LateBurst(key, length, limit, offset), key, 0, offset, length) == limit + 1
  {
    BurstCount(key, limit, length - 1, offset, offset + length);
    CountSnoc(Burst(key, limit, length - 1), Request(key, length + offset - 1), key, offset, offset + length);
  }

  lemma LateBurstExceeds(length: int, limit: int, offset: int)
    requires length > 0 && limit >= 1 && 0 <= offset < length && limit * (offset - 1) >= length
    ensures !LimitHeldAt(length, limit, offset)
  {
    LateOffset(length, limit, offset);
    var requests := LateBurst("k", length, limit, offset);
    LateBurstCount("k", length, limit, offset);
    RunRefines(length, limit, 0, requests);
    LateBurstAdmitted("k", length, limit, offset);
    assert 0 % length == 0;
    assert !HeldInRun(length, limit, offset, 0, requests, "k", 0);
  }

  lemma NoneOver(n: nat, p: nat, offset: int, limit: int, length: int)
    requires limit >= 1 && p <= limit && 0 <= offset < length && limit * (offset - 1) < length
    requires n * length <= limit * length + p * Max(offset - 1, 0)
    ensures n <= limit
  {
    var m := Max(offset - 1, 0);
    MulLe(p, limit, m);
    assert limit * 0 == 0;
    assert limit * m < length;
    if n > limit { MulLess(limit, n, length); }
  }

  /** The promise as the documentation makes it: in no run, and in no interval of one window length. */
  ghost predicate LimitHeld(length: int, limit: int)
    requires length > 0
  {
    forall start, requests, key, from :: HeldFrom(length, limit, start, requests, key, from)
  }

  ghost predicate HeldFrom(length: int, limit: int, start: int, requests: seq<Request>, key: Key, from: int)
    requires length > 0
  {
    Clocked(start, requests) ==> CountIn(Served(length, limit, start, requests), key, from, from + length) <= limit
  }

  lemma HeldAtEveryOffset(length: int, limit: int)
    requires length > 0
    ensures LimitHeld(length, limit) <==> forall offset | 0 <= offset < length :: LimitHeldAt(length, limit, offset)
  {
    if forall offset | 0 <= offset < length :: LimitHeldAt(length, limit, offset) {
      forall start, requests, key, from ensures HeldFrom(length, limit, start, requests, key, from) {
        Aligned(from, length);
        assert LimitHeldAt(length, limit, from % length);
        assert HeldInRun(length, limit, from % length, start, requests, key, Truncate(from, length));
      }
    }
    if LimitHeld(length, limit) {
      forall offset, start, requests, key, window | 0 <= offset < length
        ensures HeldInRun(length, limit, offset, start, requests, key, window)
      {
        assert HeldFrom(length, limit, start, requests, key, window + offset);
      }
    }
  }

  lemma HeldBelowLast(length: int, limit: int, offset: int)
    requires length > 0 && limit >= 1 && 0 <= offset < length && limit * (length - 2) < length
    ensures LimitHeldAt(length, limit, offset)
  {
    MulLe(offset - 1, length - 2, limit);
    assert (offset - 1) * limit == limit * (offset - 1) && (length - 2) * limit == limit * (length - 2);
    LimitHeldExactly(length, limit, offset);
  }

  lemma OnlyLimitOne(length: int, limit: int)
    requires length >= 4 && limit >= 1
    ensures limit * (length - 2) < length <==> limit == 1
  {
    if limit >= 2 { MulLe(2, limit, length - 2); }
  }

  /** It is kept if and only if limit * (length - 2) < length: for windows of four ticks or more,
      exactly for a limit of one. */
  lemma LimitHeldOverall(length: int, limit: int)
    requires length > 0 && limit >= 1
    ensures LimitHeld(length, limit) <==> limit * (length - 2) < length
    ensures length >= 4 ==> (LimitHeld(length, limit) <==> limit == 1)
  {
    HeldAtEveryOffset(length, limit);
    if limit * (length - 2) < length {
      forall offset | 0 <= offset < length ensures LimitHeldAt(length, limit, offset) {
        HeldBelowLast(length, limit, offset);
      }
    } else {
      LimitHeldExactly(length, limit, length - 1);
    }
    if length >= 4 { OnlyLimitOne(length, limit); }
  }

  // ------------------------------------------------------- one key at a time

  function Of(requests: seq<Request>, key: Key): seq<Request> {
    if requests == [] then []
    else
      var n := |requests| - 1;
      if requests[n].key == key then Of(requests[..n], key) + [requests[n]] else Of(requests[..n], key)
  }

  lemma {:induction false} CountOf(log: seq<Request>, key: Key, from: int, until: int)
    ensures CountIn(Of(log, key), key, from, until) == CountIn(log, key, from, until)
  {
    if log != [] {
      var n := |log| - 1;
      CountOf(log[..n], key, from, until);
      CountSnoc(Of(log[..n], key), log[n], key, from, until);
    }
  }

  lemma AllowsOf(log: seq<Request>, length: int, limit: int, r: Request)
    requires length > 0
    ensures Allows(Of(log, r.key), length, limit, r) == Allows(log, length, limit, r)
  {
    var w := Truncate(r.time, length);
    CountOf(log, r.key, w - length, w);
    CountOf(log, r.key, w, w + length);
  }

  lemma OfSnoc(log: seq<Request>, r: Request, key: Key)
    ensures Of(log + [r], key) == if r.key == key then Of(log, key) + [r] else Of(log, key)
  {
    assert (log + [r])[..|log|] == log;
  }

  lemma {:induction false} AdmissionsOf(length: int, limit: int, requests: seq<Request>, key: Key)
    requires length > 0
    ensures Of(Admissions(length, limit, requests), key) == Admissions(length, limit, Of(requests, key))
  {
    if requests != [] {
      var n := |requests| - 1;
      var front, r := requests[..n], requests[n];
      AdmissionsOf(length, limit, front, key);
      var log := Admissions(length, limit, front);
      OfSnoc(log, r, key);
      if r.key == key {
        AllowsOf(log, length, limit, r);
        AdmissionsSnoc(length, limit, Of(front, key), r);
      }
    }
  }

  lemma AdmissionsSnoc(length: int, limit: int, requests: seq<Request>, r: Request)
    requires length > 0
    ensures var log := Admissions(length, limit, requests);
            Admissions(length, limit, requests + [r]) == if Allows(log, length, limit, r) then log + [r] else log
  {
    assert (requests + [r])[..|requests|] == requests;
  }

  lemma {:induction false} ClockedOf(start: int, requests: seq<Request>, key: Key)
    requires Clocked(start, requests)
    ensures Clocked(start, Of(requests, key))
    ensures requests != [] ==> forall r | r in Of(requests, key) :: start <= r.time <= requests[|requests| - 1].time
  {
    if requests != [] { ClockedOf(start, requests[..|requests| - 1], key); }
  }

  /** The answer that the counter gives after a run. */
  function NextAnswer(length: int, limit: int, start: int, requests: seq<Request>, r: Request): Result
    requires length > 0
  {
    Check(Serve(Fresh(length, start), limit, requests).0, limit, r.key, r.time).1
  }

  /** After any run, what the two maps answer is what the complete log answers. */
  lemma AnswerFromLog(length: int, limit: int, start: int, requests: seq<Request>, r: Request)
    requires length > 0 && Clocked(start, requests) && start <= r.time
    requires requests != [] ==> requests[|requests| - 1].time <= r.time
    ensures NextAnswer(length, limit, start, requests, r) == Answer(Admissions(length, limit, requests), length,
                limit, r)
  {
    RunRefines(length, limit, start, requests);
    var last := if requests == [] then start else requests[|requests| - 1].time;
    TruncateMonotone(last, r.time, length);
    var c := Serve(Fresh(length, start), limit, requests).0;
    CheckRefines(c, Admissions(length, limit, requests), limit, r);
  }

  /** Striking every other key's requests out of a run changes nothing for this key: not one
      decision, count or reported remainder, although those requests also drive eviction. */
  lemma KeysDoNotInterfere(length: int, limit: int, start: int, requests: seq<Request>, r: Request)
    requires length > 0 && Clocked(start, requests) && start <= r.time
    requires requests != [] ==> requests[|requests| - 1].time <= r.time
    ensures Of(Served(length, limit, start, requests), r.key) == Served(length, limit, start, Of(requests, r.key))
    ensures NextAnswer(length, limit, start, requests, r) == NextAnswer(length, limit, start, Of(requests, r.key), r)
  {
    var mine := Of(requests, r.key);
    ClockedOf(start, requests, r.key);
    assert mine != [] ==> mine[|mine| - 1] in mine;
    AdmissionsOf(length, limit, requests, r.key);
    RunRefines(length, limit, start, requests);
    RunRefines(length, limit, start, mine);
    AnswerFromLog(length, limit, start, requests, r);
    AnswerFromLog(length, limit, start, mine, r);
    var w, log := Truncate(r.time, length), Admissions(length, limit, requests);
    CountOf(log, r.key, w, w + length);
    CountOf(log, r.key, w - length, w);
  }

  lemma {:induction false} NoRequestNoCount(length: int, limit: int, requests: seq<Request>, key: Key, from: int,
                                            until: int)
    requires length > 0
    requires forall i | 0 <= i < |requests| && requests[i].key == key :: !(from <= requests[i].time < until)
    ensures CountIn(Admissions(length, limit, requests), key, from, until) == 0
  {
    if requests != [] {
      var n := |requests| - 1;
      NoRequestNoCount(length, limit, requests[..n], key, from, until);
      CountSnoc(Admissions(length, limit, requests[..n]), requests[n], key, from, until);
    }
  }

  /** A key that has been idle since the start of the previous window is admitted, whatever
      the others did, exactly when the limit is at least one. */
  lemma IdleKeyAdmitted(length: int, limit: int, start: int, requests: seq<Request>, r: Request)
    requires length > 0 && Clocked(start, requests) && start <= r.time
    requires requests != [] ==> requests[|requests| - 1].time <= r.time
    requires forall i | 0 <= i < |requests| && requests[i].key == r.key ::
               requests[i].time < Truncate(r.time, length) - length
    ensures NextAnswer(length, limit, start, requests, r).allowed <==> limit >= 1
  {
    var w := Truncate(r.time, length);
    AnswerFromLog(length, limit, start, requests, r);
    NoRequestNoCount(length, limit, requests, r.key, w, w + length);
    NoRequestNoCount(length, limit, requests, r.key, w - length, w);
    IdleDecision(limit, length, r.time);
  }

  lemma IdleDecision(limit: int, length: int, now: int)
    requires length > 0
    ensures Decide(0, 0, limit, length, now).allowed <==> limit >= 1
  {
    assert 0 * (length - now % length) == 0;
    if limit >= 1 { MulLe(1, limit, length); } else { MulLe(limit, 0, length); }
  }

  // ------------------------------------------------- the reset and the remaining headers

  /** X-RateLimit-Reset is the first later instant that belongs to another window. */
  lemma ResetIsNextWindow(current: int, previous: int, limit: int, length: int, now: int, t: int)
    requires length > 0 && now <= t
    ensures var resetAt := Decide(current, previous, limit, length, now).resetAt;
            && now < resetAt <= now + length
            && (t < resetAt <==> Truncate(t, length) == Truncate(now, length))
  {
    Aligned(now, length);
    InWindow(t, Truncate(now, length), length);
  }

  /** How many further requests of the key, made at the same instant, would be admitted. */
  function Capacity(current: int, previous: int, limit: int, length: int, now: int): nat
    requires length > 0
  {
    Max((limit * length - Load(current, previous, length, now)) / length, 0)
  }

  lemma LoadGrows(current: int, n: int, previous: int, length: int, now: int)
    requires length > 0
    ensures Load(current + n, previous, length, now) == Load(current, previous, length, now) + n * length
  {}

  lemma LoadIsNatural(current: nat, previous: nat, length: int, now: int)
    requires length > 0
    ensures Load(current, previous, length, now) >= 0
  {
    MulNonneg(previous, length - now % length);
    MulNonneg(current, length);
  }

  /** Counting up: after n more admissions at this instant the next is allowed exactly while n
      is below the capacity. */
  lemma CapacityIsReached(current: int, previous: int, limit: int, length: int, now: int, n: nat)
    requires length > 0
    ensures Decide(current + n, previous, limit, length, now).allowed
            <==> n < Capacity(current, previous, limit, length, now)
  {
    var load := Load(current, previous, length, now);
    LoadGrows(current, n, previous, length, now);
    BelowQuotient(n, limit * length - load, length);
  }

  /** The X-RateLimit-Remaining of an admitted request is what really remains at that instant
      when the fraction of the effective rate is zero or at least one half, and one too many
      otherwise, because the code rounds the rate to the nearest integer. */
  lemma RemainingHeaderExactly(current: nat, previous: nat, limit: int, length: int, now: int)
    requires length > 0
    requires Decide(current, previous, limit, length, now).allowed
    ensures var remaining := Decide(current, previous, limit, length, now).remaining;
            var capacity := Capacity(current + 1, previous, limit, length, now);
            var fraction := Load(current, previous, length, now) % length;
            remaining == if fraction == 0 || 2 * fraction >= length then capacity else capacity + 1
  {
    LoadIsNatural(current, previous, length, now);
    LoadGrows(current, 1, previous, length, now);
    RemainingOfLoad(Load(current, previous, length, now), limit, length, now);
  }

  /** A refused request is told that nothing remains, unless the rate lies less than half a request
      above one below the limit: then the rounding promises one more. */
  lemma RefusedRemainingExactly(current: nat, previous: nat, limit: int, length: int, now: int)
    requires length > 0
    requires !Decide(current, previous, limit, length, now).allowed
    ensures Decide(current, previous, limit, length, now).remaining
            == if 2 * Load(current, previous, length, now) < (2 * limit - 1) * length then 1 else 0
  {
    LoadIsNatural(current, previous, length, now);
    RefusedOfLoad(Load(current, previous, length, now), limit, length, now);
  }

  lemma RefusedQuotient(load: nat, limit: int, length: int)
    requires length > 0 && load + length > limit * length
    ensures load / length >= limit - 1
  {
    var q := load / length;
    assert load == q * length + load % length;
    assert (q + 2) * length == q * length + 2 * length;
    if q + 2 <= limit { MulLe(q + 2, limit, length); }
  }

  lemma TwiceBelow(load: nat, limit: int, length: int)
    requires length > 0 && load / length >= limit - 1
    ensures 2 * load < (2 * limit - 1) * length <==> load / length == limit - 1 && 2 * (load % length) < length
  {
    var q := load / length;
    assert load == q * length + load % length;
    assert (2 * limit - 1) * length == 2 * (limit * length) - length;
    if q >= limit {
      MulLe(limit, q, length);
    } else {
      assert (limit - 1) * length == limit * length - length;
    }
  }

  lemma RefusedOfLoad(load: nat, limit: int, length: int, now: int)
    requires length > 0 && load + length > limit * length
    ensures DecideLoad(load, limit, length, now).remaining == if 2 * load < (2 * limit - 1) * length then 1 else 0
  {
    RoundedRate(load, length);
    RefusedQuotient(load, limit, length);
    TwiceBelow(load, limit, length);
  }

  lemma RemainingOfLoad(load: nat, limit: int, length: int, now: int)
    requires length > 0 && load + length <= limit * length
    ensures DecideLoad(load, limit, length, now).remaining
            == Max((limit * length - (load + length)) / length, 0)
               + if load % length == 0 || 2 * (load % length) >= length then 0 else 1
  {
    RoundedRate(load, length);
    RemainingRoom(load, limit, length);
  }

  lemma RoundedRate(load: nat, length: int)
    requires length > 0
    ensures Round(load, length) == load / length + if 2 * (load % length) >= length then 1 else 0
  {
    var q, f := load / length, load % length;
    assert load == q * length + f;
    var up := if 2 * f >= length then 1 else 0;
    assert (q + up) * (2 * length) == 2 * (q * length) + 2 * (up * length);
    Quotient(2 * load + length, 2 * length, q + up, 2 * f + length - 2 * (up * length));
  }

  lemma RemainingRoom(load: nat, limit: int, length: int)
    requires length > 0 && load + length <= limit * length
    ensures (limit * length - (load + length)) / length
            == limit - 1 - load / length - if load % length == 0 then 0 else 1
    ensures limit - 1 - load / length - (if load % length == 0 then 0 else 1) >= 0
  {
    var q, f := load / length, load % length;
    var carry := if f == 0 then 0 else 1;
    var left := limit - 1 - q - carry;
    assert load == q * length + f;
    assert left * length == limit * length - length - q * length - carry * length;
    Quotient(limit * length - (load + length), length, left, carry * length - f);
    if left < 0 { MulLe(left, -1, length); }
  }
}
