// The sliding-window limiter: the pruned list of timestamps decides as the full history would.
module RateLimiter {
  // The events less than `window` ago.
  function Recent(events: seq<int>, now: int, window: int): (r: seq<int>)
    ensures |r| <= |events|
  {
    if events == [] then []
    else
      var n := |events| - 1;
      Recent(events[..n], now, window) + if now - events[n] < window then [events[n]] else []
  }

  lemma {:induction false} RecentMeans(events: seq<int>, now: int, window: int)
    ensures |Recent(events, now, window)| == |set i: int | 0 <= i < |events| && now - events[i] < window|
    ensures forall t :: t in Recent(events, now, window) <==> t in events && now - t < window
  {
    var places := set i: int | 0 <= i < |events| && now - events[i] < window;
    if events == [] {
      assert places == {};
    } else {
      var n := |events| - 1;
      RecentMeans(events[..n], now, window);
      RecentPlaces(events, now, window);
      assert events == events[..n] + [events[n]];
    }
  }

  // The places in a list are those in it without its last item, and the last if that is recent.
  lemma RecentPlaces(events: seq<int>, now: int, window: int)
    requires events != []
    ensures var n := |events| - 1;
            && |set i: int | 0 <= i < |events| && now - events[i] < window| ==
               |set i: int | 0 <= i < |events[..n]| && now - events[..n][i] < window| + (if now - events[n] < window then 1 else 0)
  {
    var n := |events| - 1;
    var before := set i: int | 0 <= i < |events[..n]| && now - events[..n][i] < window;
    assert (set i: int | 0 <= i < |events| && now - events[i] < window) == before + (if now - events[n] < window then {n} else {});
  }

  lemma {:induction false} CountInMeans(events: seq<int>, from: int, to: int)
    ensures CountIn(events, from, to) == |set i: int | 0 <= i < |events| && from <= events[i] < to|
  {
    var places := set i: int | 0 <= i < |events| && from <= events[i] < to;
    if events == [] {
      assert places == {};
    } else {
      var n := |events| - 1;
      CountInMeans(events[..n], from, to);
      assert places == (set i: int | 0 <= i < n && from <= events[..n][i] < to) + (if from <= events[n] < to then {n} else {});
    }
  }

  // Every accepted event had fewer than `max` accepted events less than `window` before it.
  ghost predicate Admissible(accepted: seq<int>, max: nat, window: int) {
    forall n :: 0 <= n < |accepted| ==> |Recent(accepted[..n], accepted[n], window)| < max
  }

  // The events in the half-open interval [from, to).
  function CountIn(events: seq<int>, from: int, to: int): nat {
    if events == [] then 0
    else CountIn(events[..|events| - 1], from, to) + if from <= events[|events| - 1] < to then 1 else 0
  }

  // Later on, pruning once more makes no difference.
  lemma {:induction false} PrunedTwice(events: seq<int>, now: int, later: int, window: int)
    requires now <= later
    ensures Recent(Recent(events, now, window), later, window) == Recent(events, later, window)
  {
    if events != [] {
      var n := |events| - 1;
      PrunedTwice(events[..n], now, later, window);
      if now - events[n] < window {
        RecentAppend(Recent(events[..n], now, window), events[n], later, window);
      } else {
        assert Recent(events, now, window) == Recent(events[..n], now, window);
      }
    }
  }

  lemma RecentAppend(events: seq<int>, e: int, now: int, window: int)
    ensures Recent(events + [e], now, window) == Recent(events, now, window) + if now - e < window then [e] else []
  {
    assert (events + [e])[..|events|] == events;
  }

  lemma {:induction false} RecentCounts(events: seq<int>, from: int, to: int, now: int, window: int)
    requires now - window < from
    ensures CountIn(events, from, to) <= |Recent(events, now, window)|
  {
    if events != [] {
      RecentCounts(events[..|events| - 1], from, to, now, window);
    }
  }

  /** No half-open interval as long as the window holds more than `max` accepted events. */
  lemma {:induction false} WindowBound(accepted: seq<int>, max: nat, window: int, from: int)
    requires Admissible(accepted, max, window)
    ensures CountIn(accepted, from, from + window) <= max
  {
    hide Recent;
    if accepted != [] {
      var n := |accepted| - 1;
      forall m | 0 <= m < n ensures |Recent(accepted[..n][..m], accepted[..n][m], window)| < max {
        assert accepted[..n][..m] == accepted[..m];
      }
      WindowBound(accepted[..n], max, window, from);
      if from <= accepted[n] < from + window {
        RecentCounts(accepted[..n], from, from + window, accepted[n], window);
      }
    }
  }

  // From `clock` on, the stored list decides as the full history does, and it stays within the limit.
  ghost predicate Represents(stored: seq<int>, full: seq<int>, clock: int, max: nat, window: int) {
    && (forall t :: clock <= t ==> Recent(stored, t, window) == Recent(full, t, window))
    && |stored| <= max
    && Admissible(full, max, window)
  }

  lemma RepresentsLater(stored: seq<int>, full: seq<int>, clock: int, now: int, max: nat, window: int)
    requires Represents(stored, full, clock, max, window) && clock <= now
    ensures Represents(stored, full, now, max, window)
  {
  }

  lemma NothingRepresents(clock: int, max: nat, window: int)
    ensures Represents([], [], clock, max, window)
  {
  }

  lemma PrunedRepresents(stored: seq<int>, full: seq<int>, clock: int, now: int, max: nat, window: int)
    requires Represents(stored, full, clock, max, window) && clock <= now
    ensures Recent(stored, now, window) == Recent(full, now, window)
    ensures Represents(Recent(stored, now, window), full, now, max, window)
  {
    forall t | now <= t ensures Recent(Recent(full, now, window), t, window) == Recent(full, t, window) {
      PrunedTwice(full, now, t, window);
    }
  }

  lemma AcceptedRepresents(stored: seq<int>, full: seq<int>, now: int, max: nat, window: int)
    requires Represents(stored, full, now, max, window) && |stored| < max && |Recent(full, now, window)| < max
    ensures Represents(stored + [now], full + [now], now, max, window)
  {
    forall t | now <= t ensures Recent(stored + [now], t, window) == Recent(full + [now], t, window) {
      RecentAppend(stored, now, t, window);
      RecentAppend(full, now, t, window);
    }
    AdmissibleAppend(full, now, max, window);
  }

  lemma RepresentedIsBounded(stored: seq<int>, full: seq<int>, clock: int, max: nat, window: int)
    requires Represents(stored, full, clock, max, window)
    ensures forall from, to :: to == from + window ==> CountIn(full, from, to) <= max
  {
    forall from, to | to == from + window ensures CountIn(full, from, to) <= max {
      WindowBound(full, max, window, from);
    }
  }

  class WsRateLimiter {
    const maxEvents: nat
    const windowMs: int
    var hits: map<string, seq<int>>

    // All accepted events of a key since its last reset, and the latest time seen.
    ghost var history: map<string, seq<int>>
    ghost var clock: int

    constructor (maxEvents: nat, windowMs: int)
      ensures Valid() && history == map[] && this.maxEvents == maxEvents && this.windowMs == windowMs
    {
      this.maxEvents, this.windowMs := maxEvents, windowMs;
      hits, history, clock := map[], map[], 0;
      new;
      NothingRepresents(clock, maxEvents, windowMs);
    }

    function HitsOf(key: string): seq<int>
      reads this
    {
      if key in hits then hits[key] else []
    }

    ghost function HistoryOf(key: string): seq<int>
      reads this
    {
      if key in history then history[key] else []
    }

    ghost predicate Valid()
      reads this
    {
      forall key :: Represents(HitsOf(key), HistoryOf(key), clock, maxEvents, windowMs)
    }

    /** Refuses exactly when `maxEvents` events were accepted less than the window ago; other keys are untouched. */
    method TryConsume(key: string, now: int) returns (accepted: bool)
      requires Valid() && clock <= now
      modifies this
      ensures Valid() && clock == now && |HitsOf(key)| <= maxEvents
      ensures var full := old(HistoryOf(key));
              accepted <==> |set i: int | 0 <= i < |full| && now - full[i] < windowMs| < maxEvents
      ensures HistoryOf(key) == if accepted then old(HistoryOf(key)) + [now] else old(HistoryOf(key))
      ensures HitsOf(key) == Recent(old(HistoryOf(key)), now, windowMs) + if accepted then [now] else []
      ensures forall t :: t in HitsOf(key) <==> (t in old(HistoryOf(key)) && now - t < windowMs) || (accepted && t == now)
      ensures forall from, to :: to == from + windowMs ==> CountIn(HistoryOf(key), from, to) <= maxEvents
      ensures forall other :: other != key ==> HitsOf(other) == old(HitsOf(other)) && HistoryOf(other) == old(HistoryOf(other))
    {
      hide Represents, Recent;
      ghost var full := HistoryOf(key);
      RecentMeans(full, now, windowMs);
      PrunedRepresents(HitsOf(key), full, clock, now, maxEvents, windowMs);
      forall other ensures Represents(HitsOf(other), HistoryOf(other), now, maxEvents, windowMs) {
        RepresentsLater(HitsOf(other), HistoryOf(other), clock, now, maxEvents, windowMs);
      }
      clock := now;
      var recent := Recent(HitsOf(key), now, windowMs);
      if |recent| >= maxEvents {
        hits := hits[key := recent];
        assert forall other :: other != key ==> HitsOf(other) == old(HitsOf(other)) && HistoryOf(other) == old(HistoryOf(other));
        assert HitsOf(key) == recent && HistoryOf(key) == full;
        RepresentedIsBounded(recent, full, now, maxEvents, windowMs);
        return false;
      }
      AcceptedRepresents(recent, full, now, maxEvents, windowMs);
      RepresentedIsBounded(recent + [now], full + [now], now, maxEvents, windowMs);
      hits, history := hits[key := recent + [now]], history[key := full + [now]];
      assert forall other :: other != key ==> HitsOf(other) == old(HitsOf(other)) && HistoryOf(other) == old(HistoryOf(other));
      return true;
    }

    method Reset(key: string)
      requires Valid()
      modifies this
      ensures Valid() && clock == old(clock) && HistoryOf(key) == [] && HitsOf(key) == []
      ensures forall other :: other != key ==> HitsOf(other) == old(HitsOf(other)) && HistoryOf(other) == old(HistoryOf(other))
    {
      hide Represents;
      NothingRepresents(clock, maxEvents, windowMs);
      hits, history := hits - {key}, history - {key};
      assert forall other :: other != key ==> HitsOf(other) == old(HitsOf(other)) && HistoryOf(other) == old(HistoryOf(other));
      assert HitsOf(key) == [] && HistoryOf(key) == [];
    }
  }

  lemma AdmissibleAppend(accepted: seq<int>, now: int, max: nat, window: int)
    requires Admissible(accepted, max, window) && |Recent(accepted, now, window)| < max
    ensures Admissible(accepted + [now], max, window)
  {
    var longer := accepted + [now];
    forall n | 0 <= n < |longer| ensures |Recent(longer[..n], longer[n], window)| < max {
      if n < |accepted| {
        assert longer[..n] == accepted[..n];
      } else {
        assert longer[..n] == accepted;
      }
    }
  }
}
