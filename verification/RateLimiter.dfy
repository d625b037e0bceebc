// The login rate limiter: a pruned list of accepted attempts per address,
// against a reference that remembers every accepted attempt.

module RateLimiter {

  /** At most `max` attempts in any `window`; times and window share one unit. */
  datatype Config = Config(max: int, window: int)

  /** One attempt: where it came from, and the steady clock at that moment. */
  datatype Call = Call(ip: string, now: int)

  /** The attempts no older than the window, oldest first. */
  function Keep(ts: seq<int>, now: int, window: int): (r: seq<int>)
    ensures |r| <= |ts| && forall t :: t in r ==> t in ts && now - t <= window
  {
    if ts == [] then []
    else
      var rest, t := Keep(ts[..|ts| - 1], now, window), ts[|ts| - 1];
      if now - t > window then rest else rest + [t]
  }

  // ---- The reference: a verdict from the full history ----

  /** The times of every accepted attempt from one address. */
  function Accepted(calls: seq<Call>, ip: string, cfg: Config): seq<int>
    decreases calls
  {
    if calls == [] then []
    else
      var before, c := Accepted(calls[..|calls| - 1], ip, cfg), calls[|calls| - 1];
      if c.ip == ip && |Keep(before, c.now, cfg.window)| < cfg.max then before + [c.now] else before
  }

  /** Whether one more attempt is refused after these calls. */
  predicate Refused(calls: seq<Call>, c: Call, cfg: Config) {
    |Keep(Accepted(calls, c.ip, cfg), c.now, cfg.window)| >= cfg.max
  }

  predicate ClockRuns(calls: seq<Call>) {
    forall i, j :: 0 <= i < j < |calls| ==> calls[i].now <= calls[j].now
  }

  // ---- The limiter's own list ----

  /** What the map holds for an address after these calls. */
  function Stored(calls: seq<Call>, ip: string, cfg: Config): seq<int>
    decreases calls
  {
    if calls == [] then []
    else
      var before, c := Stored(calls[..|calls| - 1], ip, cfg), calls[|calls| - 1];
      if c.ip != ip then before
      else
        var kept := Keep(before, c.now, cfg.window);
        if |kept| >= cfg.max then kept else kept + [c.now]
  }

  lemma {:induction false} KeepAgain(ts: seq<int>, early: int, late: int, window: int)
    requires early <= late
    ensures Keep(Keep(ts, early, window), late, window) == Keep(ts, late, window)
    decreases ts
  {
    if ts != [] {
      var rest, t := ts[..|ts| - 1], ts[|ts| - 1];
      KeepAgain(rest, early, late, window);
      if early - t <= window {
        KeepSnoc(Keep(rest, early, window), t, late, window);
      }
    }
  }

  lemma KeepSnoc(ts: seq<int>, t: int, now: int, window: int)
    ensures Keep(ts + [t], now, window) ==
            if now - t > window then Keep(ts, now, window) else Keep(ts, now, window) + [t]
  {
    assert (ts + [t])[..|ts|] == ts;
  }

  /** Pruning forgets nothing that matters: both lists look the same from now on. */
  lemma {:induction false} StoredIsEnough(calls: seq<Call>, ip: string, now: int, cfg: Config)
    requires ClockRuns(calls) && (calls != [] ==> calls[|calls| - 1].now <= now)
    ensures Keep(Stored(calls, ip, cfg), now, cfg.window) == Keep(Accepted(calls, ip, cfg), now, cfg.window)
    decreases calls
  {
    if calls != [] {
      var front, c := calls[..|calls| - 1], calls[|calls| - 1];
      assert front != [] ==> front[|front| - 1].now <= c.now;
      StoredIsEnough(front, ip, c.now, cfg);
      StoredIsEnough(front, ip, now, cfg);
      if c.ip == ip {
        var kept := Keep(Stored(front, ip, cfg), c.now, cfg.window);
        KeepAgain(Stored(front, ip, cfg), c.now, now, cfg.window);
        KeepSnoc(kept, c.now, now, cfg.window);
        KeepSnoc(Accepted(front, ip, cfg), c.now, now, cfg.window);
      }
    }
  }

  // ---- What the limiter guarantees ----

  /** How many of the times lie in the closed window that starts at `a`. */
  function CountWithin(ts: seq<int>, a: int, window: int): nat {
    if ts == [] then 0
    else CountWithin(ts[..|ts| - 1], a, window) + if a <= ts[|ts| - 1] <= a + window then 1 else 0
  }

  /** Attempts in a window that reaches up to now are still remembered now. */
  lemma {:induction false} WithinIsRecent(ts: seq<int>, a: int, now: int, window: int)
    requires a <= now <= a + window
    ensures CountWithin(ts, a, window) <= |Keep(ts, now, window)|
    decreases ts
  {
    if ts != [] {
      WithinIsRecent(ts[..|ts| - 1], a, now, window);
    }
  }

  /** No closed window holds more accepted attempts from one address than the limit. */
  lemma {:induction false} WindowBound(calls: seq<Call>, ip: string, a: int, cfg: Config)
    ensures CountWithin(Accepted(calls, ip, cfg), a, cfg.window) <= if cfg.max < 0 then 0 else cfg.max
    decreases calls
  {
    if calls != [] {
      var front, c := calls[..|calls| - 1], calls[|calls| - 1];
      WindowBound(front, ip, a, cfg);
      var before := Accepted(front, ip, cfg);
      if c.ip == ip && |Keep(before, c.now, cfg.window)| < cfg.max {
        assert (before + [c.now])[..|before|] == before;
        if a <= c.now <= a + cfg.window {
          WithinIsRecent(before, a, c.now, cfg.window);
        }
      }
    }
  }

  lemma {:induction false} RecentCounted(ts: seq<int>, now: int, window: int)
    requires forall i :: 0 <= i < |ts| ==> ts[i] <= now
    ensures |Keep(ts, now, window)| == CountWithin(ts, now - window, window)
    decreases ts
  {
    if ts != [] {
      RecentCounted(ts[..|ts| - 1], now, window);
    }
  }

  lemma {:induction false} AcceptedBefore(calls: seq<Call>, ip: string, now: int, cfg: Config)
    requires forall i :: 0 <= i < |calls| ==> calls[i].now <= now
    ensures forall i :: 0 <= i < |Accepted(calls, ip, cfg)| ==> Accepted(calls, ip, cfg)[i] <= now
    decreases calls
  {
    if calls != [] {
      AcceptedBefore(calls[..|calls| - 1], ip, now, cfg);
    }
  }

  /** An attempt is refused exactly when the closed window that ends with it is full already. */
  lemma RefusedIff(calls: seq<Call>, c: Call, cfg: Config)
    requires forall i :: 0 <= i < |calls| ==> calls[i].now <= c.now
    ensures Refused(calls, c, cfg) <==>
            CountWithin(Accepted(calls, c.ip, cfg), c.now - cfg.window, cfg.window) >= cfg.max
  {
    AcceptedBefore(calls, c.ip, c.now, cfg);
    RecentCounted(Accepted(calls, c.ip, cfg), c.now, cfg.window);
  }

  /** A refused attempt leaves no trace: no later verdict for anyone depends on it. */
  lemma {:induction false} RefusalLeavesNoTrace(pre: seq<Call>, c: Call, post: seq<Call>, ip: string, cfg: Config)
    requires Refused(pre, c, cfg)
    ensures Accepted(pre + [c] + post, ip, cfg) == Accepted(pre + post, ip, cfg)
    decreases post
  {
    if post == [] {
      assert pre + [c] + post == pre + [c] && pre + post == pre && (pre + [c])[..|pre|] == pre;
    } else {
      var n := |post| - 1;
      RefusalLeavesNoTrace(pre, c, post[..n], ip, cfg);
      assert (pre + [c] + post)[..|pre| + 1 + n] == pre + [c] + post[..n];
      assert (pre + post)[..|pre| + n] == pre + post[..n];
    }
  }

  /** The calls from one address. */
  function From(calls: seq<Call>, ip: string): seq<Call> {
    if calls == [] then []
    else
      var rest, c := From(calls[..|calls| - 1], ip), calls[|calls| - 1];
      if c.ip == ip then rest + [c] else rest
  }

  /** Addresses do not affect each other. */
  lemma {:induction false} AddressesIndependent(calls: seq<Call>, ip: string, cfg: Config)
    ensures Accepted(calls, ip, cfg) == Accepted(From(calls, ip), ip, cfg)
    decreases calls
  {
    if calls != [] {
      var front, c := calls[..|calls| - 1], calls[|calls| - 1];
      AddressesIndependent(front, ip, cfg);
      if c.ip == ip {
        assert From(calls, ip)[..|From(calls, ip)| - 1] == From(front, ip);
      }
    }
  }

  // ---- The limiter ----

  class Limiter {
    const cfg: Config
    var attempts: map<string, seq<int>>
    ghost var calls: seq<Call>

    /** The map holds the stored list of every address that has called, and of no other. */
    ghost predicate Valid()
      reads this
    {
      && ClockRuns(calls)
      && forall ip :: (if ip in attempts then attempts[ip] else []) == Stored(calls, ip, cfg)
    }

    constructor (cfg: Config)
      ensures Valid() && calls == [] && this.cfg == cfg
    {
      this.cfg := cfg;
      attempts := map[];
      calls := [];
    }

    /** Prunes, then refuses or records. The verdict is the one the full history gives. */
    method RateLimited(ip: string, now: int) returns (limited: bool)
      requires Valid() && (calls != [] ==> calls[|calls| - 1].now <= now)
      modifies this
      ensures Valid() && calls == old(calls) + [Call(ip, now)]
      ensures limited <==> Refused(old(calls), Call(ip, now), cfg)
      ensures Accepted(calls, ip, cfg) == Accepted(old(calls), ip, cfg) + if limited then [] else [now]
      ensures ip in attempts && attempts == old(attempts)[ip := attempts[ip]]
    {
      hide Accepted, Keep, Stored, ClockRuns, Refused;
      StoredIsEnough(calls, ip, now, cfg);
      OneMoreCall(calls, Call(ip, now), cfg);
      ClockGoesOn(calls, Call(ip, now));
      calls := calls + [Call(ip, now)];
      var list := if ip in attempts then attempts[ip] else [];
      list := Keep(list, now, cfg.window);
      attempts := attempts[ip := list];
      if |list| >= cfg.max {
        return true;
      }
      attempts := attempts[ip := list + [now]];
      return false;
    }
  }

  lemma OneMoreCall(calls: seq<Call>, c: Call, cfg: Config)
    ensures Accepted(calls + [c], c.ip, cfg) ==
            Accepted(calls, c.ip, cfg) + if Refused(calls, c, cfg) then [] else [c.now]
    ensures Refused(calls, c, cfg) <==> |Keep(Accepted(calls, c.ip, cfg), c.now, cfg.window)| >= cfg.max
    ensures var kept := Keep(Stored(calls, c.ip, cfg), c.now, cfg.window);
            Stored(calls + [c], c.ip, cfg) == if |kept| >= cfg.max then kept else kept + [c.now]
    ensures forall other :: other != c.ip ==> Stored(calls + [c], other, cfg) == Stored(calls, other, cfg)
  {
    assert (calls + [c])[..|calls|] == calls;
  }

  lemma ClockGoesOn(calls: seq<Call>, c: Call)
    requires ClockRuns(calls) && (calls != [] ==> calls[|calls| - 1].now <= c.now)
    ensures ClockRuns(calls + [c])
  {
  }
}
