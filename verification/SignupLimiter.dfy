/** At most ten accounts an hour from one address, whatever else is going on. */
module SignupLimiter {
  const SIGNUP_MAX_PER_IP := 10
  const SIGNUP_WINDOW_MS := 60 * 60 * 1000

  /** An account creation that was let through. */
  datatype Admission = Admission(ip: string, at: int)

  /** The times less than an hour before `now`. */
  function Recent(times: seq<int>, now: int): seq<int> {
    if times == [] then []
    else
      var before := Recent(times[..|times| - 1], now);
      var last := times[|times| - 1];
      if now - last < SIGNUP_WINDOW_MS then before + [last] else before
  }

  /** The admission times of one address, oldest first. */
  ghost function Times(log: seq<Admission>, ip: string): seq<int> {
    if log == [] then []
    else
      var before := Times(log[..|log| - 1], ip);
      var last := log[|log| - 1];
      if last.ip == ip then before + [last.at] else before
  }

  function Get(attempts: map<string, seq<int>>, ip: string): seq<int> {
    if ip in attempts then attempts[ip] else []
  }

  lemma RecentSnoc(times: seq<int>, t: int, now: int)
    ensures Recent(times + [t], now) == Recent(times, now) + if now - t < SIGNUP_WINDOW_MS then [t] else []
  {
  }

  /** Dropping what is old now loses nothing that will count later. */
  lemma {:induction false} RecentTwice(times: seq<int>, now: int, later: int)
    requires now <= later
    ensures Recent(Recent(times, now), later) == Recent(times, later)
  {
    if times != [] {
      var front, last := times[..|times| - 1], times[|times| - 1];
      RecentTwice(front, now, later);
      RecentSnoc(Recent(front, now), last, later);
    }
  }

  lemma TimesSnoc(log: seq<Admission>, a: Admission, ip: string)
    ensures Times(log + [a], ip) == Times(log, ip) + if a.ip == ip then [a.at] else []
  {
  }

  /** The `filter` of the program. */
  method KeepRecent(times: seq<int>, now: int) returns (recent: seq<int>)
    ensures recent == Recent(times, now)
  {
    recent := [];
    for i := 0 to |times|
      invariant recent == Recent(times[..i], now)
    {
      assert times[..i + 1][..i] == times[..i];
      if now - times[i] < SIGNUP_WINDOW_MS {
        recent := recent + [times[i]];
      }
    }
    assert times[..|times|] == times;
  }

  /** `b` serves as well as `a` from `now` on. */
  ghost predicate Equivalent(a: map<string, seq<int>>, b: map<string, seq<int>>, now: int) {
    forall ip, later | now <= later :: Recent(Get(a, ip), later) == Recent(Get(b, ip), later)
  }

  class Limiter {
    var attempts: map<string, seq<int>>
    ghost var log: seq<Admission>
    ghost var clock: int

    /** What is remembered of an address is, for now and later, what was admitted. */
    ghost predicate Valid()
      reads this
    {
      && (forall ip, later | clock <= later :: Recent(Get(attempts, ip), later) == Recent(Times(log, ip), later))
      && (forall a <- log :: a.at <= clock)
      && Limited(log)
    }

    constructor (now: int)
      ensures Valid() && log == [] && clock == now
    {
      attempts, log, clock := map[], [], now;
    }

    /**
     * Admits a creation, unless ten were admitted from the address in the hour before;
     * without an address there is no limit.
     */
    method AssertSignupAllowed(ip: string, now: int) returns (allowed: bool)
      requires Valid() && clock <= now
      modifies this
      ensures Valid() && (ip != "" ==> clock == now)
      ensures allowed <==> ip == "" || |Recent(Times(old(log), ip), now)| < SIGNUP_MAX_PER_IP
      ensures log == if allowed && ip != "" then old(log) + [Admission(ip, now)] else old(log)
    {
      if ip == "" {
        return true;
      }
      clock := now;
      var recent := KeepRecent(Get(attempts, ip), now);
      assert recent == Recent(Times(log, ip), now);
      if |recent| >= SIGNUP_MAX_PER_IP {
        return false;
      }
      AdmitKeepsLimit(log, ip, now);
      ghost var before := attempts;
      attempts := attempts[ip := recent + [now]];
      log := log + [Admission(ip, now)];
      forall x, later | now <= later
        ensures Recent(Get(attempts, x), later) == Recent(Times(log, x), later)
      {
        assert Recent(Get(before, x), later) == Recent(Times(old(log), x), later);
        TimesSnoc(old(log), Admission(ip, now), x);
        RecentSnoc(Times(old(log), ip), now, later);
        RecentSnoc(recent, now, later);
        RecentTwice(Get(before, ip), now, later);
      }
      if |attempts| > 1000 {
        var cleaned := CleanUp(attempts, now);
        attempts := cleaned;
      }
      allowed := true;
    }
  }

  /** Forgets the times that are over, and the addresses with none left. */
  method CleanUp(attempts: map<string, seq<int>>, now: int) returns (r: map<string, seq<int>>)
    ensures Equivalent(r, attempts, now)
    ensures forall ip :: ip in r <==> ip in attempts && Recent(attempts[ip], now) != []
  {
    r := attempts;
    var left := attempts.Keys;
    while left != {}
      invariant left <= attempts.Keys
      invariant forall ip :: ip in r <==> ip in attempts && (ip in left || Recent(attempts[ip], now) != [])
      invariant forall ip <- r :: r[ip] == if ip in left then attempts[ip] else Recent(attempts[ip], now)
      decreases left
    {
      var ip :| ip in left;
      left := left - {ip};
      var alive := KeepRecent(attempts[ip], now);
      if |alive| == 0 {
        r := r - {ip};
      } else {
        r := r[ip := alive];
      }
    }
    forall ip, later | now <= later
      ensures Recent(Get(r, ip), later) == Recent(Get(attempts, ip), later)
    {
      RecentTwice(Get(attempts, ip), now, later);
    }
  }

  // ------------------------------------------------------------------ any one hour

  /** How many creations of the address were admitted after `from`, up to `to`. */
  ghost function CountBetween(log: seq<Admission>, ip: string, from: int, to: int): nat {
    if log == [] then 0
    else
      var a := log[|log| - 1];
      CountBetween(log[..|log| - 1], ip, from, to) + if a.ip == ip && from < a.at <= to then 1 else 0
  }

  predicate TimeOrdered(log: seq<Admission>) {
    forall i, j :: 0 <= i < j < |log| ==> log[i].at <= log[j].at
  }

  /** At admission `i`, at most ten in the hour up to it. */
  ghost predicate LimitedAt(log: seq<Admission>, i: nat)
    requires i < |log|
  {
    CountBetween(log[..i + 1], log[i].ip, log[i].at - SIGNUP_WINDOW_MS, log[i].at) <= SIGNUP_MAX_PER_IP
  }

  ghost predicate Limited(log: seq<Admission>) {
    TimeOrdered(log) && forall i :: 0 <= i < |log| ==> LimitedAt(log, i)
  }

  lemma {:induction false} CountIsRecent(log: seq<Admission>, ip: string, now: int)
    requires forall a <- log :: a.at <= now
    ensures CountBetween(log, ip, now - SIGNUP_WINDOW_MS, now) == |Recent(Times(log, ip), now)|
  {
    if log != [] {
      var front, last := log[..|log| - 1], log[|log| - 1];
      assert last in log && forall a <- front :: a in log;
      CountIsRecent(front, ip, now);
      RecentSnoc(Times(front, ip), last.at, now);
    }
  }

  lemma AdmitKeepsLimit(log: seq<Admission>, ip: string, now: int)
    requires Limited(log) && forall a <- log :: a.at <= now
    requires |Recent(Times(log, ip), now)| < SIGNUP_MAX_PER_IP
    ensures Limited(log + [Admission(ip, now)])
  {
    var log' := log + [Admission(ip, now)];
    CountIsRecent(log, ip, now);
    LaterIsOrdered(log, Admission(ip, now));
    forall i | 0 <= i < |log'|
      ensures LimitedAt(log', i)
    {
      if i < |log| {
        assert LimitedAt(log, i);
        LimitedAtFront(log, Admission(ip, now), i);
      } else {
        LastLimited(log, ip, now);
      }
    }
  }

  lemma LaterIsOrdered(log: seq<Admission>, a: Admission)
    requires TimeOrdered(log) && forall b <- log :: b.at <= a.at
    ensures TimeOrdered(log + [a])
  {
    assert forall j :: 0 <= j < |log| ==> log[j] in log;
  }

  lemma LimitedAtFront(log: seq<Admission>, a: Admission, i: nat)
    requires i < |log| && LimitedAt(log, i)
    ensures LimitedAt(log + [a], i)
  {
    assert (log + [a])[..i + 1] == log[..i + 1];
  }

  lemma LastLimited(log: seq<Admission>, ip: string, now: int)
    requires CountBetween(log, ip, now - SIGNUP_WINDOW_MS, now) < SIGNUP_MAX_PER_IP
    ensures LimitedAt(log + [Admission(ip, now)], |log|)
  {
    CountSnoc(log, Admission(ip, now), ip, now - SIGNUP_WINDOW_MS, now);
    LimitedAtEnd(log + [Admission(ip, now)], ip, now);
  }

  lemma LimitedAtEnd(log: seq<Admission>, ip: string, now: int)
    requires log != [] && log[|log| - 1] == Admission(ip, now)
    requires CountBetween(log, ip, now - SIGNUP_WINDOW_MS, now) <= SIGNUP_MAX_PER_IP
    ensures LimitedAt(log, |log| - 1)
  {
    assert log[..|log| - 1 + 1] == log;
  }

  lemma CountSnoc(log: seq<Admission>, a: Admission, ip: string, from: int, to: int)
    ensures CountBetween(log + [a], ip, from, to)
            == CountBetween(log, ip, from, to) + if a.ip == ip && from < a.at <= to then 1 else 0
  {
    assert (log + [a])[..|log|] == log;
  }

  lemma {:induction false} CountMonotone(log: seq<Admission>, ip: string, from: int, to: int, from': int, to': int)
    requires from' <= from && (to <= to' || forall a <- log :: a.at <= to')
    ensures CountBetween(log, ip, from, to) <= CountBetween(log, ip, from', to')
  {
    if log != [] {
      assert log[|log| - 1] in log && forall a <- log[..|log| - 1] :: a in log;
      CountMonotone(log[..|log| - 1], ip, from, to, from', to');
    }
  }

  /** No hour, wherever it begins, holds more than ten admissions of one address. */
  lemma {:induction false} AnyHourIsLimited(log: seq<Admission>, ip: string, from: int)
    requires Limited(log)
    ensures CountBetween(log, ip, from, from + SIGNUP_WINDOW_MS) <= SIGNUP_MAX_PER_IP
  {
    if log != [] {
      var i := |log| - 1;
      var front, last := log[..i], log[i];
      assert log[..i + 1] == log;
      if last.ip == ip && from < last.at <= from + SIGNUP_WINDOW_MS {
        assert LimitedAt(log, i);
        forall a | a in log ensures a.at <= last.at {
          var j :| 0 <= j < |log| && log[j] == a;
        }
        CountMonotone(log, ip, from, from + SIGNUP_WINDOW_MS, last.at - SIGNUP_WINDOW_MS, last.at);
      } else {
        forall j | 0 <= j < |front|
          ensures LimitedAt(front, j)
        {
          assert LimitedAt(log, j) && front[..j + 1] == log[..j + 1];
        }
        AnyHourIsLimited(front, ip, from);
      }
    }
  }

  /** The admissions of the address after `from`, up to `to`, by their place in the log. */
  ghost function Within(log: seq<Admission>, ip: string, from: int, to: int): set<nat> {
    set i | 0 <= i < |log| && log[i].ip == ip && from < log[i].at <= to
  }

  lemma {:induction false} CountIsSize(log: seq<Admission>, ip: string, from: int, to: int)
    ensures CountBetween(log, ip, from, to) == |Within(log, ip, from, to)|
  {
    if log != [] {
      var n := |log| - 1;
      CountIsSize(log[..n], ip, from, to);
      var before := Within(log[..n], ip, from, to);
      assert Within(log, ip, from, to) == before + if log[n].ip == ip && from < log[n].at <= to then {n} else {};
    }
  }

  /** What is counted against an address is what it was let through with in the hour before, however it is kept. */
  lemma RecentAreWithinTheHour(log: seq<Admission>, ip: string, now: int)
    requires forall a <- log :: a.at <= now
    ensures |Recent(Times(log, ip), now)| == |Within(log, ip, now - 3600000, now)|
  {
    CountIsRecent(log, ip, now);
    CountIsSize(log, ip, now - SIGNUP_WINDOW_MS, now);
  }

  /** Ten an hour: no more admissions of one address lie within any hour. */
  lemma TenAnHour(log: seq<Admission>, ip: string, from: int)
    requires Limited(log)
    ensures |Within(log, ip, from, from + 3600000)| <= 10
  {
    AnyHourIsLimited(log, ip, from);
    CountIsSize(log, ip, from, from + SIGNUP_WINDOW_MS);
  }
}
