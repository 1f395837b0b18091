/**
 * checkRateLimit (php/contact.php:302-334): a per-address counter kept in a
 * map, with a fixed window and eviction of stale entries on every call.
 * The stored file is the map passed in and the map returned; the clock
 * reading `now` and the client address `ip` are parameters.
 */
module RateLimiter {
  /** One decoded entry of the rate-limit file: {count, first_request}. */
  datatype Entry = Entry(count: int, firstRequest: int)

  type Limits = map<string, Entry>

  const MaxSubmissions: int := 5
  const TimeWindow: int := 3600

  /** The window of `e` has passed: `$now - first_request > $timeWindow`. */
  predicate Expired(e: Entry, now: int) {
    now - e.firstRequest > TimeWindow
  }

  /**
   * The caller's entry after the call: one more request in the current
   * window, or the first request of a new window.
   */
  function CallerEntry(limits: Limits, ip: string, now: int): (e: Entry)
    ensures ip in limits && !Expired(limits[ip], now) ==>
              e == Entry(limits[ip].count + 1, limits[ip].firstRequest)
    ensures ip !in limits || Expired(limits[ip], now) ==> e == Entry(1, now)
    ensures !Expired(e, now)
  {
    var current := if ip in limits then limits[ip] else Entry(0, now);
    var base := if Expired(current, now) then Entry(0, now) else current;
    Entry(base.count + 1, base.firstRequest)
  }

  /** The entries whose window has not passed. */
  function Evict(limits: Limits, now: int): (r: Limits)
    ensures forall k :: k in r <==> k in limits && !Expired(limits[k], now)
    ensures forall k :: k in r ==> r[k] == limits[k]
  {
    map k | k in limits && !Expired(limits[k], now) :: limits[k]
  }

  /** The loop's progress: stale entries among those already visited are gone. */
  function EvictOutside(limits: Limits, pending: set<string>, now: int): Limits {
    map k | k in limits && (k in pending || !Expired(limits[k], now)) :: limits[k]
  }

  lemma EvictNone(limits: Limits, now: int)
    ensures EvictOutside(limits, limits.Keys, now) == limits
  {
  }

  lemma EvictOneMore(limits: Limits, pending: set<string>, k: string, now: int)
    requires k in pending && k in limits
    ensures Expired(limits[k], now) ==>
              EvictOutside(limits, pending, now) - {k} == EvictOutside(limits, pending - {k}, now)
    ensures !Expired(limits[k], now) ==>
              EvictOutside(limits, pending, now) == EvictOutside(limits, pending - {k}, now)
  {
  }

  lemma EvictAll(limits: Limits, now: int)
    ensures EvictOutside(limits, {}, now) == Evict(limits, now)
  {
  }

  /** The file after the call, and whether the request is allowed. */
  function RateLimitStep(limits: Limits, ip: string, now: int): (Limits, bool) {
    var e := CallerEntry(limits, ip, now);
    (Evict(limits[ip := e], now), e.count <= MaxSubmissions)
  }

  /**
   * The call itself: reset a stale entry, increment, store, then remove every
   * entry (the caller's included) whose window has passed.
   */
  method CheckRateLimit(limits: Limits, ip: string, now: int) returns (next: Limits, allowed: bool)
    ensures (next, allowed) == RateLimitStep(limits, ip, now)
    ensures ip in next && next[ip] == CallerEntry(limits, ip, now)
    ensures allowed <==> next[ip].count <= MaxSubmissions
    ensures forall k :: k in next ==> !Expired(next[k], now)
    ensures forall k :: k in limits && k != ip && !Expired(limits[k], now) ==>
              k in next && next[k] == limits[k]
    ensures forall k :: k in next ==> k == ip || (k in limits && next[k] == limits[k])
  {
    var ipData := if ip in limits then limits[ip] else Entry(0, now);
    if now - ipData.firstRequest > TimeWindow {
      ipData := Entry(0, now);
    }
    ipData := ipData.(count := ipData.count + 1);
    var rateLimits := limits[ip := ipData];

    // foreach iterates over a copy of the map taken before the loop.
    var snapshot := rateLimits;
    var pending := rateLimits.Keys;
    EvictNone(snapshot, now);
    while pending != {}
      invariant pending <= snapshot.Keys
      invariant rateLimits == EvictOutside(snapshot, pending, now)
      decreases |pending|
    {
      var checkIp :| checkIp in pending;
      var data := snapshot[checkIp];
      EvictOneMore(snapshot, pending, checkIp, now);
      if now - data.firstRequest > TimeWindow {
        rateLimits := rateLimits - {checkIp};
      }
      pending := pending - {checkIp};
    }
    EvictAll(snapshot, now);
    assert ipData == CallerEntry(limits, ip, now);
    next := rateLimits;
    allowed := ipData.count <= MaxSubmissions;
  }

  /** Calling repeatedly from one address at the given clock readings: the answers. */
  function Calls(limits: Limits, ip: string, times: seq<int>): (r: (Limits, seq<bool>))
    ensures |r.1| == |times|
    decreases |times|
  {
    if times == [] then (limits, [])
    else
      var (after, allowed) := RateLimitStep(limits, ip, times[0]);
      var rest := Calls(after, ip, times[1..]);
      (rest.0, [allowed] + rest.1)
  }

  /**
   * Inside one window opened at `first`, the address's count goes up by one
   * per call, and a call is allowed while the count stays at most five.
   */
  lemma {:induction false} CallsInWindow(limits: Limits, ip: string, count: int, first: int, times: seq<int>)
    requires ip in limits && limits[ip] == Entry(count, first)
    requires forall j :: 0 <= j < |times| ==> times[j] - first <= TimeWindow
    ensures ip in Calls(limits, ip, times).0
    ensures Calls(limits, ip, times).0[ip] == Entry(count + |times|, first)
    ensures forall j :: 0 <= j < |times| ==>
              (Calls(limits, ip, times).1[j] <==> count + j + 1 <= MaxSubmissions)
    decreases |times|
  {
    if times != [] {
      var after := RateLimitStep(limits, ip, times[0]).0;
      assert ip in after && after[ip] == Entry(count + 1, first);
      CallsInWindow(after, ip, count + 1, first, times[1..]);
      var rest := Calls(after, ip, times[1..]);
      assert Calls(limits, ip, times).1 == [count + 1 <= MaxSubmissions] + rest.1;
      forall j | 1 <= j < |times|
        ensures Calls(limits, ip, times).1[j] <==> count + j + 1 <= MaxSubmissions
      {
        assert Calls(limits, ip, times).1[j] == rest.1[j - 1];
        assert times[1..][j - 1] == times[j];
      }
    }
  }

  /**
   * From an address with no live entry, the first five calls within an hour
   * of the first one are allowed and every later one in that hour is refused.
   */
  lemma SixthCallRefused(limits: Limits, ip: string, times: seq<int>)
    requires |times| >= 1
    requires ip !in limits || Expired(limits[ip], times[0])
    requires forall j :: 0 <= j < |times| ==> times[j] - times[0] <= TimeWindow
    ensures forall j :: 0 <= j < |times| ==> (Calls(limits, ip, times).1[j] <==> j < MaxSubmissions)
  {
    var after := RateLimitStep(limits, ip, times[0]).0;
    assert ip in after && after[ip] == Entry(1, times[0]);
    CallsInWindow(after, ip, 1, times[0], times[1..]);
    var rest := Calls(after, ip, times[1..]);
    assert Calls(limits, ip, times).1 == [true] + rest.1;
    forall j | 1 <= j < |times|
      ensures Calls(limits, ip, times).1[j] <==> j < MaxSubmissions
    {
      assert Calls(limits, ip, times).1[j] == rest.1[j - 1];
    }
  }

  /** A stale entry is forgotten: the next call opens a new window with count one. */
  lemma ExpiredEntryResets(limits: Limits, ip: string, now: int)
    requires ip in limits && Expired(limits[ip], now)
    ensures RateLimitStep(limits, ip, now).0[ip] == Entry(1, now)
    ensures RateLimitStep(limits, ip, now).1
  {
  }
}
