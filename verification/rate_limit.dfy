/** The per-client request counter of the form endpoint: a map from client address to
    the number of requests seen in the current window and the time that window began.
    The clock is an explicit parameter (milliseconds, as `Date.now()` returns them). */
module RateLimit {

  /** Length of one rate-limit window in milliseconds. */
  const WindowMs: int := 60000

  /** Requests a client may make within one window before being refused. */
  const MaxRequestsPerWindow: int := 10

  /** The counter kept for one client: requests so far and the start of its window. */
  datatype Entry = Entry(count: int, time: int)

  /** Counters keyed by client address. */
  type Table = map<string, Entry>

  /** An entry whose window began strictly more than one window before `now`.
      At exactly one window's age the entry is still live. */
  predicate Expired(e: Entry, now: int) {
    e.time < now - WindowMs
  }

  /** Every counter is at least one and no window starts in the future. */
  ghost predicate Valid(t: Table, now: int) {
    forall ip :: ip in t ==> 1 <= t[ip].count && t[ip].time <= now
  }

  /** The update made for every incoming request from `ip` at time `now`, before any
      other check: a missing or expired entry restarts at one, a live one counts up. */
  function Touch(t: Table, ip: string, now: int): (r: Table)
    ensures r.Keys == t.Keys + {ip}
    ensures ip !in t || Expired(t[ip], now) ==> r[ip] == Entry(1, now)
    ensures ip in t && !Expired(t[ip], now) ==> r[ip].count == t[ip].count + 1 && r[ip].time == t[ip].time
    ensures forall other :: other in t && other != ip ==> r[other] == t[other]
  {
    if ip !in t || Expired(t[ip], now) then t[ip := Entry(1, now)]
    else t[ip := t[ip].(count := t[ip].count + 1)]
  }

  /** The request that produced `t[ip]` is refused with 429. */
  predicate Limited(t: Table, ip: string)
    requires ip in t
  {
    t[ip].count > MaxRequestsPerWindow
  }

  /** One run of the periodic cleanup at time `now`: drops every expired entry. */
  function Sweep(t: Table, now: int): (r: Table)
    ensures forall ip :: ip in r <==> ip in t && !Expired(t[ip], now)
    ensures forall ip :: ip in r ==> r[ip] == t[ip]
  {
    map ip | ip in t && !Expired(t[ip], now) :: t[ip]
  }

  /** The decisions (true = admitted) for a run of requests from one client at the
      given times, together with the table left behind. */
  function Replay(t: Table, ip: string, times: seq<int>): (r: (Table, seq<bool>))
    ensures |r.1| == |times|
    ensures ip in t || |times| > 0 ==> ip in r.0
    decreases |times|
  {
    if |times| == 0 then (t, [])
    else
      var t1 := Touch(t, ip, times[0]);
      var rest := Replay(t1, ip, times[1..]);
      (rest.0, [!Limited(t1, ip)] + rest.1)
  }

  /** Touch keeps the table valid as long as the clock does not run backwards. */
  lemma TouchPreservesValid(t: Table, ip: string, before: int, now: int)
    requires Valid(t, before) && before <= now
    ensures Valid(Touch(t, ip, now), now)
  {
  }

  /** Sweep keeps the table valid, and leaves only entries whose window is live. */
  lemma SweepPreservesValid(t: Table, now: int)
    requires Valid(t, now)
    ensures Valid(Sweep(t, now), now)
    ensures forall ip :: ip in Sweep(t, now) ==> now - WindowMs <= Sweep(t, now)[ip].time <= now
    ensures |Sweep(t, now)| <= |t|
  {
    assert Sweep(t, now).Keys <= t.Keys;
    SubsetCard(Sweep(t, now).Keys, t.Keys);
  }

  lemma SubsetCard(a: set<string>, b: set<string>)
    requires a <= b
    ensures |a| <= |b|
  {
    assert b == a + (b - a);
  }

  /** A sweep is never observable by a later request: whether the entry of `ip` was
      swept at an earlier time `s` or not, the next request at `now` leaves the same
      entry behind, and so gets the same decision. */
  lemma {:induction false} SweepUnobservable(t: Table, ip: string, s: int, now: int)
    requires s <= now
    ensures ip in Touch(Sweep(t, s), ip, now) && ip in Touch(t, ip, now)
    ensures Touch(Sweep(t, s), ip, now)[ip] == Touch(t, ip, now)[ip]
  {
    if ip in t && Expired(t[ip], s) {
      assert Expired(t[ip], now);
    }
  }

  /** Once a whole window has passed since the entry's window began, the client is
      admitted again with a fresh count, however many requests it made before. */
  lemma ResetAfterWindow(t: Table, ip: string, now: int)
    requires ip in t && now > t[ip].time + WindowMs
    ensures Touch(t, ip, now)[ip] == Entry(1, now)
    ensures !Limited(Touch(t, ip, now), ip)
  {
  }

  /** At exactly one window's age the entry is not reset: the request still counts
      against the old window. */
  lemma NoResetAtBoundary(t: Table, ip: string, now: int)
    requires ip in t && now == t[ip].time + WindowMs
    ensures Touch(t, ip, now)[ip] == Entry(t[ip].count + 1, t[ip].time)
  {
  }

  /** Replay from a live entry `Entry(c, start)`: request i is admitted exactly when
      c + i + 1 is within the limit, and the entry ends at c + |times| with the same start. */
  lemma {:induction false} ReplayLive(t: Table, ip: string, times: seq<int>, c: int, start: int)
    requires ip in t && t[ip] == Entry(c, start)
    requires forall i :: 0 <= i < |times| ==> times[i] <= start + WindowMs
    ensures ip in Replay(t, ip, times).0
    ensures Replay(t, ip, times).0[ip] == Entry(c + |times|, start)
    ensures forall i :: 0 <= i < |times| ==>
              (Replay(t, ip, times).1[i] <==> c + i + 1 <= MaxRequestsPerWindow)
    decreases |times|
  {
    if |times| > 0 {
      var t1 := Touch(t, ip, times[0]);
      assert !Expired(t[ip], times[0]);
      assert t1[ip] == Entry(c + 1, start);
      ReplayLive(t1, ip, times[1..], c + 1, start);
      var r := Replay(t, ip, times);
      assert r.1 == [!Limited(t1, ip)] + Replay(t1, ip, times[1..]).1;
      forall i | 0 <= i < |times|
        ensures r.1[i] <==> c + i + 1 <= MaxRequestsPerWindow
      {
        if i > 0 {
          assert r.1[i] == Replay(t1, ip, times[1..]).1[i - 1];
        }
      }
    }
  }

  /** The threshold: a client with no live entry that sends requests all within one
      window of the first gets its first ten admitted and every later one refused,
      because refused requests keep counting. */
  lemma {:induction false} WindowThreshold(t: Table, ip: string, times: seq<int>)
    requires |times| > 0
    requires ip !in t || Expired(t[ip], times[0])
    requires forall i :: 0 <= i < |times| ==> times[i] <= times[0] + WindowMs
    ensures forall i :: 0 <= i < |times| ==>
              (Replay(t, ip, times).1[i] <==> i < MaxRequestsPerWindow)
    ensures Replay(t, ip, times).0[ip] == Entry(|times|, times[0])
  {
    var t1 := Touch(t, ip, times[0]);
    assert t1[ip] == Entry(1, times[0]);
    ReplayLive(t1, ip, times[1..], 1, times[0]);
    var r := Replay(t, ip, times);
    assert r.1 == [!Limited(t1, ip)] + Replay(t1, ip, times[1..]).1;
    forall i | 0 <= i < |times|
      ensures r.1[i] <==> i < MaxRequestsPerWindow
    {
      if i > 0 {
        assert r.1[i] == Replay(t1, ip, times[1..]).1[i - 1];
      }
    }
  }
}
