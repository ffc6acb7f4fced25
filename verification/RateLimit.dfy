/** The sliding-window rate limiter: an in-memory counter that keeps two windows per key,
    and the check that blends them. Time is an integer tick; the weight of the previous
    window is an exact rational, so every comparison is multiplied out by the window length. */
module RateLimit {
  import opened Arithmetic

  type Key = string

  /** A Go map read: a missing key counts zero. */
  function At(counts: map<Key, int>, key: Key): int {
    if key in counts then counts[key] else 0
  }

  function Max(a: int, b: int): int {
    if a < b then b else a
  }

  /** time.Truncate: the start of the window that holds `now`. */
  function Truncate(now: int, length: int): int
    requires length > 0
  {
    now - now % length
  }

  // ------------------------------------------------------- the counter as a value

  datatype Windows = Windows(length: int, tracked: int, current: map<Key, int>, previous: map<Key, int>)

  function Fresh(length: int, now: int): Windows
    requires length > 0
  {
    Windows(length, Truncate(now, length), map[], map[])
  }

  function Evicted(c: Windows, window: int): Windows {
    if c.tracked == window then c
    else if c.tracked == window - c.length then c.(tracked := window, current := map[], previous := c.current)
    else c.(tracked := window, current := map[], previous := map[])
  }

  function Recorded(c: Windows, key: Key, amount: int): Windows {
    c.(current := c.current[key := At(c.current, key) + amount])
  }

  // ------------------------------------------------ the full log and what it says

  /** One call of IncrementBy. */
  datatype Entry = Entry(key: Key, window: int, amount: int)

  function Sum(log: seq<Entry>, key: Key, window: int): int {
    if log == [] then 0
    else
      var last := log[|log| - 1];
      Sum(log[..|log| - 1], key, window) + if last.key == key && last.window == window then last.amount else 0
  }

  function KeysAt(log: seq<Entry>, window: int): set<Key> {
    set e | e in log && e.window == window :: e.key
  }

  /** The two maps say exactly what the whole log says about the tracked window and the
      one before it, and hold no other key. */
  ghost predicate Agrees(c: Windows, log: seq<Entry>) {
    && c.length > 0
    && (forall e | e in log :: e.window <= c.tracked && (c.tracked - e.window) % c.length == 0)
    && (forall k :: At(c.current, k) == Sum(log, k, c.tracked))
    && (forall k :: At(c.previous, k) == Sum(log, k, c.tracked - c.length))
    && c.current.Keys == KeysAt(log, c.tracked)
    && c.previous.Keys == KeysAt(log, c.tracked - c.length)
  }

  /** The clock has not stepped back and the window is one of this length. */
  predicate Onward(c: Windows, window: int) {
    c.length > 0 && window >= c.tracked && (window - c.tracked) % c.length == 0
  }

  lemma {:induction false} SumAbsent(log: seq<Entry>, key: Key, window: int)
    requires forall e | e in log :: e.window != window
    ensures Sum(log, key, window) == 0
  {
    if log != [] {
      assert log[|log| - 1] in log;
      SumAbsent(log[..|log| - 1], key, window);
    }
  }

  lemma SilentWindow(log: seq<Entry>, window: int)
    requires forall e | e in log :: e.window != window
    ensures forall k :: Sum(log, k, window) == 0
    ensures KeysAt(log, window) == {}
  {
    forall k ensures Sum(log, k, window) == 0 { SumAbsent(log, k, window); }
  }

  /** Eviction keeps the agreement, over gaps of any number of windows. */
  lemma EvictionAgrees(c: Windows, log: seq<Entry>, window: int)
    requires Agrees(c, log) && Onward(c, window)
    ensures Agrees(Evicted(c, window), log)
  {
    var gap := window - c.tracked;
    forall e | e in log ensures (window - e.window) % c.length == 0 {
      SumOfMultiples(gap, c.tracked - e.window, c.length);
    }
    if gap != 0 {
      MultipleAtLeast(gap, c.length);
      SilentWindow(log, window);
      if gap != c.length {
        SilentWindow(log, window - c.length);
      }
    }
  }

  lemma SumSnoc(log: seq<Entry>, e: Entry)
    ensures forall k, w :: Sum(log + [e], k, w) == Sum(log, k, w) + if e.key == k && e.window == w then e.amount else 0
  {
    assert (log + [e])[..|log|] == log;
  }

  lemma KeysSnoc(log: seq<Entry>, e: Entry)
    ensures forall w :: KeysAt(log + [e], w) == if e.window == w then KeysAt(log, w) + {e.key} else KeysAt(log, w)
  {
    assert e in log + [e];
    assert forall x :: x in log + [e] <==> x in log || x == e;
  }

  lemma RecordingAgrees(c: Windows, log: seq<Entry>, key: Key, amount: int)
    requires Agrees(c, log)
    ensures Agrees(Recorded(c, key, amount), log + [Entry(key, c.tracked, amount)])
  {
    var e := Entry(key, c.tracked, amount);
    SumSnoc(log, e);
    KeysSnoc(log, e);
    assert forall x | x in log + [e] :: x in log || x == e;
    assert 0 % c.length == 0;
    assert Recorded(c, key, amount).current.Keys == c.current.Keys + {key};
  }

  /** An increment, with the eviction before it, keeps the agreement. */
  lemma IncrementAgrees(c: Windows, log: seq<Entry>, key: Key, window: int, amount: int)
    ensures Agrees(c, log) && Onward(c, window) ==>
              Agrees(Recorded(Evicted(c, window), key, amount), log + [Entry(key, window, amount)])
  {
    if Agrees(c, log) && Onward(c, window) {
      EvictionAgrees(c, log, window);
      RecordingAgrees(Evicted(c, window), log, key, amount);
    }
  }

  // ------------------------------------------------------------------ the counter

  /** A Go map on the heap: the counter holds two of them and exchanges the references. */
  class CountMap {
    var counts: map<Key, int>

    constructor ()
      ensures counts == map[]
    {
      counts := map[];
    }
  }

  class LocalLimitCounter {
    var windowLength: int
    var trackedWindow: int
    var currentCounts: CountMap
    var previousCounts: CountMap
    /** Every increment ever made; the code keeps no such thing. */
    ghost var log: seq<Entry>

    /** The two maps are two objects, whatever has been swapped. */
    ghost predicate Valid()
      reads this
    {
      currentCounts != previousCounts
    }

    ghost function Value(): Windows
      reads this, currentCounts, previousCounts
    {
      Windows(windowLength, trackedWindow, currentCounts.counts, previousCounts.counts)
    }

    constructor (length: int, now: int)
      requires length > 0
      ensures Valid() && fresh(currentCounts) && fresh(previousCounts)
      ensures Value() == Fresh(length, now) && log == []
      ensures Agrees(Value(), log)
    {
      windowLength := length;
      trackedWindow := Truncate(now, length);
      var current := new CountMap();
      var previous := new CountMap();
      currentCounts, previousCounts := current, previous;
      log := [];
    }

    method Config(limit: int, length: int)
      requires Valid()
      modifies this`windowLength
      ensures Valid() && Value() == old(Value()).(length := length)
    {
      windowLength := length;
    }

    method Evict(window: int)
      requires Valid()
      modifies this`trackedWindow, this`currentCounts, this`previousCounts, currentCounts, previousCounts
      ensures Valid() && {currentCounts, previousCounts} == old({currentCounts, previousCounts})
      ensures Value() == Evicted(old(Value()), window)
    {
      if trackedWindow == window {
        return;
      }
      if trackedWindow == window - windowLength {
        previousCounts.counts := map[];
        currentCounts, previousCounts := previousCounts, currentCounts;
        trackedWindow := window;
        return;
      }
      currentCounts.counts := map[];
      previousCounts.counts := map[];
      trackedWindow := window;
    }

    method IncrementBy(key: Key, window: int, amount: int)
      requires Valid()
      modifies this, currentCounts, previousCounts
      ensures Valid() && {currentCounts, previousCounts} == old({currentCounts, previousCounts})
      ensures Value() == Recorded(Evicted(old(Value()), window), key, amount)
      ensures log == old(log) + [Entry(key, window, amount)]
      ensures old(Agrees(Value(), log) && Onward(Value(), window)) ==> Agrees(Value(), log)
    {
      ghost var before, logged := Value(), log;
      Evict(window);
      currentCounts.counts := currentCounts.counts[key := At(currentCounts.counts, key) + amount];
      log := log + [Entry(key, window, amount)];
      assert Value() == Recorded(Evicted(before, window), key, amount);
      IncrementAgrees(before, logged, key, window, amount);
    }

    method Increment(key: Key, window: int)
      requires Valid()
      modifies this, currentCounts, previousCounts
      ensures Valid() && {currentCounts, previousCounts} == old({currentCounts, previousCounts})
      ensures Value() == Recorded(Evicted(old(Value()), window), key, 1)
      ensures log == old(log) + [Entry(key, window, 1)]
      ensures old(Agrees(Value(), log) && Onward(Value(), window)) ==> Agrees(Value(), log)
    {
      IncrementBy(key, window, 1);
    }

    /** With a clock that only moves on, the answer is what the complete log says. */
    method Get(key: Key, window: int, previousWindow: int) returns (current: int, previous: int)
      requires Valid()
      modifies this`trackedWindow, this`currentCounts, this`previousCounts, currentCounts, previousCounts
      ensures Valid() && {currentCounts, previousCounts} == old({currentCounts, previousCounts})
      ensures Value() == Evicted(old(Value()), window)
      ensures current == At(Value().current, key) && previous == At(Value().previous, key)
      ensures old(Agrees(Value(), log) && Onward(Value(), window)) ==>
                && Agrees(Value(), log)
                && current == Sum(log, key, window)
                && previous == Sum(log, key, window - windowLength)
    {
      ghost var before := Value();
      Evict(window);
      current, previous := At(currentCounts.counts, key), At(previousCounts.counts, key);
      if Agrees(before, log) && Onward(before, window) {
        EvictionAgrees(before, log, window);
      }
    }
  }

  /** A clock that steps back loses nothing exactly when the whole log lies before the window that
      precedes the one it steps back to; otherwise the maps no longer say what the log says. */
  lemma BackwardStepExactly(c: Windows, log: seq<Entry>, window: int)
    requires Agrees(c, log) && window < c.tracked && (c.tracked - window) % c.length == 0
    ensures Agrees(Evicted(c, window), log) <==> forall e | e in log :: e.window < window - c.length
  {
    var d := Evicted(c, window);
    if forall e | e in log :: e.window < window - c.length {
      SilentWindow(log, window);
      SilentWindow(log, window - c.length);
      forall e | e in log ensures (window - e.window) % c.length == 0 {
        SameRemainder(c.tracked - e.window, c.tracked - window, c.length);
      }
    } else {
      var e :| e in log && e.window >= window - c.length;
      if Agrees(d, log) { EntryIsKept(d, log, e); }
    }
  }

  /** An entry of the two windows has its key in one of the maps. */
  lemma EntryIsKept(c: Windows, log: seq<Entry>, e: Entry)
    requires Agrees(c, log) && e in log && e.window >= c.tracked - c.length
    ensures e.key in c.current || e.key in c.previous
  {
    var gap := c.tracked - e.window;
    if gap != 0 { MultipleAtLeast(gap, c.length); }
    assert e.key in KeysAt(log, e.window);
  }

  /** For instance three increments of window 20, after a look at window 10. */
  lemma BackwardClockForgets()
    ensures
      var c := Evicted(Recorded(Fresh(10, 25), "k", 3), 10);
      !Onward(Fresh(10, 25), 10) && At(Evicted(c, 20).current, "k") == 0 && Sum([Entry("k", 20, 3)], "k", 20) == 3
  {
    assert Sum([Entry("k", 20, 3)][..0], "k", 20) == 0;
  }

  // -------------------------------------------------------------------- the check

  datatype Result = Result(allowed: bool, remaining: int, resetAt: int)

  /** The effective rate times the window length. */
  function Load(current: int, previous: int, length: int, now: int): int
    requires length > 0
  {
    previous * (length - now % length) + current * length
  }

  /** math.Round of num/den: halves away from zero. */
  function Round(num: int, den: int): int
    requires den > 0
  {
    if num >= 0 then (2 * num + den) / (2 * den) else -((-2 * num + den) / (2 * den))
  }

  function Decide(current: int, previous: int, limit: int, length: int, now: int): Result
    requires length > 0
  {
    DecideLoad(Load(current, previous, length, now), limit, length, now)
  }

  function DecideLoad(load: int, limit: int, length: int, now: int): Result
    requires length > 0
  {
    var remaining := Max(limit - Round(load, length), 0);
    var resetAt := Truncate(now, length) + length;
    if load + length > limit * length then Result(false, remaining, resetAt)
    else Result(true, Max(remaining - 1, 0), resetAt)
  }

  function Check(c: Windows, limit: int, key: Key, now: int): (r: (Windows, Result))
    requires c.length > 0
    ensures r.0.length == c.length && r.0.tracked == Truncate(now, c.length)
  {
    var d := Evicted(c, Truncate(now, c.length));
    var result := Decide(At(d.current, key), At(d.previous, key), limit, d.length, now);
    (if result.allowed then Recorded(d, key, 1) else d, result)
  }

  /** checkRateLimit against the in-memory counter; `now` is the clock read under the lock. */
  method CheckRateLimit(counter: LocalLimitCounter, key: Key, limit: int, length: int, now: int)
    returns (result: Result)
    requires counter.Valid() && counter.windowLength == length && length > 0
    modifies counter, counter.currentCounts, counter.previousCounts
    ensures counter.Valid()
    ensures (counter.Value(), result) == Check(old(counter.Value()), limit, key, now)
    ensures counter.log == old(counter.log) + if result.allowed then [Entry(key, Truncate(now, length), 1)] else []
  {
    var currentWindow := Truncate(now, length);
    var previousWindow := currentWindow - length;
    var resetAt := currentWindow + length;
    var currentCount, previousCount := counter.Get(key, currentWindow, previousWindow);
    var elapsed := now - currentWindow;
    var rate := previousCount * (length - elapsed) + currentCount * length;
    var remaining := Max(limit - Round(rate, length), 0);
    if rate + length > limit * length {
      return Result(false, remaining, resetAt);
    }
    counter.IncrementBy(key, currentWindow, 1);
    remaining := Max(remaining - 1, 0);
    return Result(true, remaining, resetAt);
  }
}
