/**
 The login-attempt rate limiter (RateLimitService): a fixed window of
 attempts per address, and a timed block for an address that exceeds the
 allowed number of attempts in one window. Its state is separate from the
 anti-DDoS engine's. Every operation is a pure transition that takes the
 clock reading `now` (milliseconds).
 */
module RateLimit {

  /** The `rate-limit.*` settings. */
  datatype Config = Config(enabled: bool, maxAttempts: int, timeWindowSeconds: int, blockDurationMinutes: int)

  /** The values used when the configuration file leaves a key out. */
  const DefaultConfig: Config := Config(true, 5, 60, 30)

  /** The attempts of one address within its current window. */
  datatype ConnectionAttempt = ConnectionAttempt(windowStart: int, count: int)

  datatype State = State(attempts: map<string, ConnectionAttempt>, blockedIPs: map<string, int>)

  const Empty: State := State(map[], map[])

  function WindowMillis(cfg: Config): int {
    cfg.timeWindowSeconds * 1000
  }

  function BlockMillis(cfg: Config): int {
    cfg.blockDurationMinutes * 60 * 1000
  }

  /** Every stored attempt count lies between 1 and `maxAttempts`. */
  predicate CountsInRange(cfg: Config, s: State) {
    forall ip :: ip in s.attempts ==> 1 <= s.attempts[ip].count <= cfg.maxAttempts
  }

  /** `isRateLimited(ip)` at `now`: true exactly when the address holds a
      block that has not expired; an expired block is dropped on the way. */
  function IsRateLimited(cfg: Config, s: State, ip: string, now: int): (r: (bool, State))
    ensures !cfg.enabled ==> r == (false, s)
    ensures cfg.enabled ==> (r.0 <==> ip in s.blockedIPs && now < s.blockedIPs[ip])
    ensures r.0 ==> r.1 == s
    ensures r.1.attempts == s.attempts
    ensures cfg.enabled && !r.0 ==> ip !in r.1.blockedIPs
    ensures r.1.blockedIPs - {ip} == s.blockedIPs - {ip}
  {
    if !cfg.enabled then (false, s)
    else if ip in s.blockedIPs then
      if now < s.blockedIPs[ip] then (true, s)
      else (false, s.(blockedIPs := s.blockedIPs - {ip}))
    else (false, s)
  }

  /** The address has no window that is still open at `now`. */
  predicate IsStale(cfg: Config, s: State, ip: string, now: int) {
    ip !in s.attempts || s.attempts[ip].windowStart < now - WindowMillis(cfg)
  }

  /** `recordAttempt(ip)` at `now`: a missing or stale window restarts at
      one attempt, otherwise the attempt is counted; passing `maxAttempts`
      blocks the address for the block duration, forgets its window and
      reports true. */
  function RecordAttempt(cfg: Config, s: State, ip: string, now: int): (r: (bool, State))
    ensures !cfg.enabled ==> r == (false, s)
    ensures cfg.enabled ==>
      var restart := IsStale(cfg, s, ip, now);
      var count := if restart then 1 else s.attempts[ip].count + 1;
      && (r.0 <==> count > cfg.maxAttempts)
      && (r.0 ==> ip !in r.1.attempts && ip in r.1.blockedIPs && r.1.blockedIPs[ip] == now + BlockMillis(cfg))
      && (!r.0 ==> ip in r.1.attempts && r.1.attempts[ip].count == count && r.1.blockedIPs == s.blockedIPs)
      && (!r.0 && restart ==> r.1.attempts[ip] == ConnectionAttempt(now, 1))
      && (!r.0 && !restart ==> r.1.attempts[ip].windowStart == s.attempts[ip].windowStart)
    ensures r.1.attempts - {ip} == s.attempts - {ip}
    ensures r.1.blockedIPs - {ip} == s.blockedIPs - {ip}
  {
    if !cfg.enabled then (false, s)
    else
      var windowStart := now - WindowMillis(cfg);
      var attempt :=
        if ip !in s.attempts || s.attempts[ip].windowStart < windowStart then ConnectionAttempt(now, 1)
        else s.attempts[ip].(count := s.attempts[ip].count + 1);
      if attempt.count > cfg.maxAttempts then
        (true, State(s.attempts - {ip}, s.blockedIPs[ip := now + BlockMillis(cfg)]))
      else
        (false, s.(attempts := s.attempts[ip := attempt]))
  }

  /** `recordAttempt` never looks at the blocks: two states that agree on
      the attempts give the same answer and the same attempts. */
  lemma RecordAttemptIgnoresBlocks(cfg: Config, s: State, t: State, ip: string, now: int)
    requires s.attempts == t.attempts
    ensures RecordAttempt(cfg, s, ip, now).0 == RecordAttempt(cfg, t, ip, now).0
    ensures RecordAttempt(cfg, s, ip, now).1.attempts == RecordAttempt(cfg, t, ip, now).1.attempts
  {
  }

  /** `cleanup` at `now`: forgets every window that started before the
      current window and every block whose expiry time has passed. */
  function Cleanup(cfg: Config, s: State, now: int): (r: State)
    ensures forall ip :: ip in r.attempts <==>
      ip in s.attempts && s.attempts[ip].windowStart >= now - WindowMillis(cfg)
    ensures forall ip :: ip in r.attempts ==> r.attempts[ip] == s.attempts[ip]
    ensures forall ip :: ip in r.blockedIPs <==> ip in s.blockedIPs && s.blockedIPs[ip] >= now
    ensures forall ip :: ip in r.blockedIPs ==> r.blockedIPs[ip] == s.blockedIPs[ip]
  {
    var windowStart := now - WindowMillis(cfg);
    State(map ip | ip in s.attempts && s.attempts[ip].windowStart >= windowStart :: s.attempts[ip],
          map ip | ip in s.blockedIPs && s.blockedIPs[ip] >= now :: s.blockedIPs[ip])
  }

  /** Two sweeps at the same instant leave what one sweep leaves. */
  lemma CleanupIdempotent(cfg: Config, s: State, now: int)
    ensures Cleanup(cfg, Cleanup(cfg, s, now), now) == Cleanup(cfg, s, now)
  {
  }

  /** The sweep is invisible to both operations from its sweep time on: it
      only drops blocks `isRateLimited` treats as expired and windows
      `recordAttempt` would restart anyway. */
  lemma CleanupIsInvisible(cfg: Config, s: State, swept: int, now: int, ip: string)
    requires swept <= now
    ensures IsRateLimited(cfg, Cleanup(cfg, s, swept), ip, now).0 == IsRateLimited(cfg, s, ip, now).0
    ensures RecordAttempt(cfg, Cleanup(cfg, s, swept), ip, now).0 == RecordAttempt(cfg, s, ip, now).0
  {
  }

  /** Every operation keeps the stored attempt counts between 1 and
      `maxAttempts`. */
  lemma OperationsKeepCountsInRange(cfg: Config, s: State, ip: string, now: int)
    requires CountsInRange(cfg, s)
    ensures CountsInRange(cfg, RecordAttempt(cfg, s, ip, now).1)
    ensures CountsInRange(cfg, IsRateLimited(cfg, s, ip, now).1)
    ensures CountsInRange(cfg, Cleanup(cfg, s, now))
  {
  }

  /** The freshly built service satisfies the count invariant. */
  lemma EmptyCountsInRange(cfg: Config)
    ensures CountsInRange(cfg, Empty)
  {
  }

  // ---------------------------------------------------------------------------
  // Runs of attempts.
  // ---------------------------------------------------------------------------

  /** Records attempts from `ip` at the given times in turn, with no sweep in
      between; returns each answer and the final state. */
  function RecordAll(cfg: Config, s: State, ip: string, times: seq<int>): (r: (seq<bool>, State))
    ensures |r.0| == |times|
    decreases |times|
  {
    if |times| == 0 then ([], s)
    else
      var (blocked, next) := RecordAttempt(cfg, s, ip, times[0]);
      var rest := RecordAll(cfg, next, ip, times[1..]);
      ([blocked] + rest.0, rest.1)
  }

  /** Up to `maxAttempts + 1` attempts from an address with no window, none
      later than one window after the first: the first `maxAttempts` answer false
      and the next one answers true, blocks the address for the block
      duration and forgets its window. Fewer attempts are all counted. */
  lemma BlockOnAttemptLimitPlusOne(cfg: Config, s: State, ip: string, times: seq<int>)
    requires cfg.enabled && cfg.maxAttempts >= 0
    requires ip !in s.attempts
    requires |times| <= cfg.maxAttempts + 1
    requires forall i :: 0 <= i < |times| ==> times[i] <= times[0] + WindowMillis(cfg)
    ensures forall i :: 0 <= i < |times| ==> (RecordAll(cfg, s, ip, times).0[i] <==> i == cfg.maxAttempts)
    ensures |times| == cfg.maxAttempts + 1 ==>
      var final := RecordAll(cfg, s, ip, times).1;
      ip !in final.attempts && ip in final.blockedIPs && final.blockedIPs[ip] == times[|times| - 1] + BlockMillis(cfg)
    ensures 0 < |times| <= cfg.maxAttempts ==>
      var final := RecordAll(cfg, s, ip, times).1;
      ip in final.attempts && final.attempts[ip].count == |times|
  {
    if |times| > 0 {
      RunWithinWindow(cfg, s, ip, times, times[0], 0);
    }
  }

  /** With the default settings (5 attempts per 60-second window, 30-minute
      block), a fresh service answers false to five attempts one millisecond
      apart and true to the sixth, which blocks the address for 30 minutes. */
  lemma DefaultSixthAttemptBlocks(ip: string, t: int)
    ensures
      var (answers, final) := RecordAll(DefaultConfig, Empty, ip, [t, t + 1, t + 2, t + 3, t + 4, t + 5]);
      && answers == [false, false, false, false, false, true]
      && ip !in final.attempts
      && ip in final.blockedIPs && final.blockedIPs[ip] == t + 5 + 1_800_000
  {
    var times := [t, t + 1, t + 2, t + 3, t + 4, t + 5];
    BlockOnAttemptLimitPlusOne(DefaultConfig, Empty, ip, times);
    var answers := RecordAll(DefaultConfig, Empty, ip, times).0;
    assert |answers| == 6;
    assert answers == [false, false, false, false, false, true] by {
      assert !answers[0] && !answers[1] && !answers[2] && !answers[3] && !answers[4] && answers[5];
    }
  }

  /** The induction behind `BlockOnAttemptLimitPlusOne`: the address has made
      `made` attempts in a window that started at `start`, and every
      remaining attempt falls at most one window after `start`. */
  lemma {:induction false} RunWithinWindow(cfg: Config, s: State, ip: string, times: seq<int>, start: int, made: int)
    requires cfg.enabled && 0 <= made <= cfg.maxAttempts
    requires made + |times| <= cfg.maxAttempts + 1
    requires made == 0 ==> ip !in s.attempts
    requires made > 0 ==> ip in s.attempts && s.attempts[ip] == ConnectionAttempt(start, made)
    requires made == 0 && |times| > 0 ==> start <= times[0]
    requires forall i :: 0 <= i < |times| ==> times[i] <= start + WindowMillis(cfg)
    ensures forall i :: 0 <= i < |times| ==> (RecordAll(cfg, s, ip, times).0[i] <==> made + i == cfg.maxAttempts)
    ensures made + |times| == cfg.maxAttempts + 1 ==>
      var final := RecordAll(cfg, s, ip, times).1;
      ip !in final.attempts && ip in final.blockedIPs && final.blockedIPs[ip] == times[|times| - 1] + BlockMillis(cfg)
    ensures 0 < made + |times| <= cfg.maxAttempts ==>
      var final := RecordAll(cfg, s, ip, times).1;
      ip in final.attempts && final.attempts[ip].count == made + |times|
    decreases |times|
  {
    if |times| > 0 {
      var (blocked, next) := RecordAttempt(cfg, s, ip, times[0]);
      var tail := times[1..];
      assert forall i :: 0 <= i < |tail| ==> tail[i] == times[i + 1];
      var answers := RecordAll(cfg, s, ip, times).0;
      var rest := RecordAll(cfg, next, ip, tail);
      assert answers == [blocked] + rest.0;
      assert RecordAll(cfg, s, ip, times).1 == rest.1;
      if made == cfg.maxAttempts {
        assert blocked && ip !in next.attempts;
        assert |tail| == 0;
      } else {
        assert !blocked;
        RunWithinWindow(cfg, next, ip, tail, if made == 0 then times[0] else start, made + 1);
        forall i | 0 <= i < |times|
          ensures answers[i] <==> made + i == cfg.maxAttempts
        {
          if i > 0 {
            assert answers[i] == rest.0[i - 1];
          }
        }
        if |tail| > 0 {
          assert times[|times| - 1] == tail[|tail| - 1];
        }
      }
    }
  }
}
