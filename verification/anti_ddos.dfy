/**
 The anti-DDoS admission engine (AntiDDoSService): a permanent blacklist, a
 temporary blacklist with expiry times, a global per-second connection
 counter, per-address connection counters, and the escalation from repeated
 temporary blocks to a permanent one. Every operation is a pure transition
 on an immutable `State` and takes the clock reading `now` (milliseconds)
 as a parameter.
 */
module AntiDDoS {
  import opened Wrappers
  import BlacklistFile

  /** The `anti-ddos.*` settings, read once when the service is built. */
  datatype Config = Config(
    enabled: bool,
    maxConnectionsPerSecond: int,
    maxConnectionsPerIP: int,
    ipTimeWindowSeconds: int,
    tempBlockMinutes: int,
    permBlockThreshold: int,
    ddosThreshold: int)

  /** The values used when the configuration file leaves a key out. */
  const DefaultConfig: Config := Config(true, 50, 3, 10, 60, 5, 100)

  /** Per-address tracking: connections seen, time of the latest one, and how
      many times the address has been temporarily blocked. */
  datatype ConnectionInfo = ConnectionInfo(connectionCount: int, lastConnection: int, tempBlockCount: int)

  datatype State = State(
    connectionsPerSecond: int,
    lastSecondReset: int,
    ipConnections: map<string, ConnectionInfo>,
    tempBlacklist: map<string, int>,
    permBlacklist: set<string>)

  /** Why `checkConnection` refused a connection; `None` means admitted. */
  datatype DenyReason = PermanentBlacklist | TemporaryBlacklist | ServerOverloaded | TooManyConnections {
    /** The reason string the Java method returns. */
    function Text(): string {
      match this
      case PermanentBlacklist => "Permanent blacklist"
      case TemporaryBlacklist => "Temporary blacklist"
      case ServerOverloaded => "Server overloaded"
      case TooManyConnections => "Too many connections"
    }
  }

  /** The result of one admission check: the verdict, the next state, and
      the connection count of the previous second when it reached the DDoS
      alarm threshold (the service only logs it). */
  datatype Outcome = Outcome(reason: Option<DenyReason>, state: State, ddosAlarm: Option<int>)

  const MillisPerSecond: int := 1000

  /** How long a temporary block lasts. */
  function TempBlockMillis(cfg: Config): int {
    cfg.tempBlockMinutes * 60 * 1000
  }

  /** How long a per-address entry survives without a new connection. */
  function WindowMillis(cfg: Config): int {
    cfg.ipTimeWindowSeconds * 1000
  }

  /** The state of a freshly built service: counters at zero, the global
      window starting at construction time, and the loaded blacklist. */
  function Init(startTime: int, loaded: set<string>): (s: State)
    ensures s.permBlacklist == loaded
    ensures s.ipConnections == map[] && s.tempBlacklist == map[]
    ensures s.connectionsPerSecond == 0 && s.lastSecondReset == startTime
  {
    State(0, startTime, map[], map[], loaded)
  }

  /** The escalation count of `ip`; an address without an entry has none. */
  function TempBlockCount(s: State, ip: string): int {
    if ip in s.ipConnections then s.ipConnections[ip].tempBlockCount else 0
  }

  /** `ip` holds a temporary block that has not yet expired at `now`. */
  predicate IsTempBlocked(s: State, ip: string, now: int) {
    ip in s.tempBlacklist && now < s.tempBlacklist[ip]
  }

  // ---------------------------------------------------------------------------
  // Permanent and temporary blocks.
  // ---------------------------------------------------------------------------

  /** `addPermBlock`: the address joins the permanent blacklist and loses any
      temporary block; everything else is untouched. */
  function AddPermBlock(s: State, ip: string): (r: State)
    ensures r.permBlacklist == s.permBlacklist + {ip}
    ensures ip !in r.tempBlacklist
    ensures forall x :: x != ip ==> (x in r.tempBlacklist <==> x in s.tempBlacklist)
    ensures forall x :: x != ip && x in r.tempBlacklist ==> r.tempBlacklist[x] == s.tempBlacklist[x]
    ensures r.ipConnections == s.ipConnections
    ensures r.connectionsPerSecond == s.connectionsPerSecond && r.lastSecondReset == s.lastSecondReset
  {
    s.(permBlacklist := s.permBlacklist + {ip}, tempBlacklist := s.tempBlacklist - {ip})
  }

  /** `addPermBlock` twice is `addPermBlock` once. */
  lemma AddPermBlockIdempotent(s: State, ip: string)
    ensures AddPermBlock(AddPermBlock(s, ip), ip) == AddPermBlock(s, ip)
  {
  }

  /** `removePermBlock`: reports whether the address was blacklisted (and the
      file is rewritten only then); afterwards it is not. */
  function RemovePermBlock(s: State, ip: string): (r: (bool, State))
    ensures r.0 <==> ip in s.permBlacklist
    ensures r.1.permBlacklist == s.permBlacklist - {ip}
    ensures r.1.tempBlacklist == s.tempBlacklist && r.1.ipConnections == s.ipConnections
    ensures r.1.connectionsPerSecond == s.connectionsPerSecond && r.1.lastSecondReset == s.lastSecondReset
  {
    (ip in s.permBlacklist, s.(permBlacklist := s.permBlacklist - {ip}))
  }

  /** Removing right after adding restores the blacklist when the address
      was not on it before. */
  lemma AddThenRemovePermBlock(s: State, ip: string)
    requires ip !in s.permBlacklist
    ensures RemovePermBlock(AddPermBlock(s, ip), ip).0
    ensures RemovePermBlock(AddPermBlock(s, ip), ip).1.permBlacklist == s.permBlacklist
  {
  }

  /** `removeTempBlock`: drops the address's temporary block, if any. */
  function RemoveTempBlock(s: State, ip: string): (r: State)
    ensures ip !in r.tempBlacklist
    ensures forall x :: x != ip ==> (x in r.tempBlacklist <==> x in s.tempBlacklist)
    ensures forall x :: x in r.tempBlacklist ==> r.tempBlacklist[x] == s.tempBlacklist[x]
    ensures r.permBlacklist == s.permBlacklist && r.ipConnections == s.ipConnections
    ensures r.connectionsPerSecond == s.connectionsPerSecond && r.lastSecondReset == s.lastSecondReset
  {
    s.(tempBlacklist := s.tempBlacklist - {ip})
  }

  /** `removeTempBlock` undoes `addTempBlock`'s temporary entry: for an
      address that had none, the temporary blacklist is back as it was, and
      after the removal the check never answers "Temporary blacklist" for
      the address. */
  lemma RemoveTempBlockUndoesAdd(cfg: Config, s: State, ip: string, now: int, later: int)
    requires ip !in s.tempBlacklist
    ensures RemoveTempBlock(AddTempBlock(cfg, s, ip, now), ip).tempBlacklist == s.tempBlacklist
    ensures CheckConnection(cfg, RemoveTempBlock(AddTempBlock(cfg, s, ip, now), ip), ip, later).reason
         != Some(TemporaryBlacklist)
  {
    var r := RemoveTempBlock(AddTempBlock(cfg, s, ip, now), ip);
    assert r.tempBlacklist == AddTempBlock(cfg, s, ip, now).tempBlacklist - {ip};
    assert r.tempBlacklist == s.tempBlacklist - {ip};
  }

  /** `addTempBlock`: blocks the address until `now` plus the block duration
      and, when it is tracked, counts one more escalation; reaching the
      threshold turns the block permanent. */
  function AddTempBlock(cfg: Config, s: State, ip: string, now: int): (r: State)
    ensures ip in s.ipConnections ==>
      && ip in r.ipConnections
      && r.ipConnections[ip] == s.ipConnections[ip].(tempBlockCount := s.ipConnections[ip].tempBlockCount + 1)
    ensures ip !in s.ipConnections ==> r.ipConnections == s.ipConnections
    ensures forall x :: x != ip ==> (x in r.ipConnections <==> x in s.ipConnections)
    ensures forall x :: x != ip && x in r.ipConnections ==> r.ipConnections[x] == s.ipConnections[x]
    ensures ip in r.permBlacklist <==>
      ip in s.permBlacklist
      || (ip in s.ipConnections && s.ipConnections[ip].tempBlockCount + 1 >= cfg.permBlockThreshold)
    ensures ip !in r.permBlacklist ==> ip in r.tempBlacklist && r.tempBlacklist[ip] == now + TempBlockMillis(cfg)
    ensures ip in r.permBlacklist && ip !in s.permBlacklist ==> ip !in r.tempBlacklist
    ensures r.permBlacklist - {ip} == s.permBlacklist - {ip}
    ensures r.tempBlacklist - {ip} == s.tempBlacklist - {ip}
    ensures r.connectionsPerSecond == s.connectionsPerSecond && r.lastSecondReset == s.lastSecondReset
  {
    var blocked := s.(tempBlacklist := s.tempBlacklist[ip := now + TempBlockMillis(cfg)]);
    if ip in blocked.ipConnections then
      var info := blocked.ipConnections[ip];
      var counted := info.(tempBlockCount := info.tempBlockCount + 1);
      var tracked := blocked.(ipConnections := blocked.ipConnections[ip := counted]);
      if counted.tempBlockCount >= cfg.permBlockThreshold then AddPermBlock(tracked, ip) else tracked
    else
      blocked
  }

  // ---------------------------------------------------------------------------
  // The admission check.
  // ---------------------------------------------------------------------------

  /** The global counter after counting one more connection at `now`: it
      first restarts from zero when a full second has passed since the last
      restart. Returns the new counter, the new restart time and the count
      the finished second reached, when it was finished now. */
  function TickGlobal(s: State, now: int): (int, int, Option<int>) {
    if now - s.lastSecondReset >= MillisPerSecond then (1, now, Some(s.connectionsPerSecond))
    else (s.connectionsPerSecond + 1, s.lastSecondReset, None)
  }

  /** The per-address entry after one more connection at `now`. */
  function Track(conns: map<string, ConnectionInfo>, ip: string, now: int): (r: map<string, ConnectionInfo>)
    ensures ip in r && r[ip].lastConnection == now
    ensures ip !in conns ==> r[ip] == ConnectionInfo(1, now, 0)
    ensures ip in conns ==>
      r[ip].connectionCount == conns[ip].connectionCount + 1 && r[ip].tempBlockCount == conns[ip].tempBlockCount
    ensures r - {ip} == conns - {ip}
  {
    if ip !in conns then conns[ip := ConnectionInfo(1, now, 0)]
    else
      var e := conns[ip];
      conns[ip := e.(connectionCount := e.connectionCount + 1, lastConnection := now)]
  }

  /** `checkConnection(ip)` at time `now`. The stages run in a fixed order
      and the first that refuses decides: permanent blacklist, temporary
      blacklist (an expired entry is dropped and the check goes on), global
      rate, per-address rate. */
  function CheckConnection(cfg: Config, s: State, ip: string, now: int): (o: Outcome)
    // disabled: admit, change nothing
    ensures !cfg.enabled ==> o == Outcome(None, s, None)
    // permanent blacklist first, with no counter touched
    ensures cfg.enabled && ip in s.permBlacklist ==> o == Outcome(Some(PermanentBlacklist), s, None)
    // an unexpired temporary block next, with no counter touched
    ensures cfg.enabled && ip !in s.permBlacklist && IsTempBlocked(s, ip, now) ==>
      o == Outcome(Some(TemporaryBlacklist), s, None)
    // every other connection is counted globally, and an expired block is gone
    ensures cfg.enabled && ip !in s.permBlacklist && !IsTempBlocked(s, ip, now) ==>
      var count := o.state.connectionsPerSecond;
      // a full second after the last restart the counter restarts at one and
      // the finished second's count raises the alarm when it reached the
      // threshold; within the second the counter goes up by one
      && (now - s.lastSecondReset >= MillisPerSecond ==>
            && count == 1 && o.state.lastSecondReset == now
            && (o.ddosAlarm.Some? <==> s.connectionsPerSecond >= cfg.ddosThreshold)
            && (o.ddosAlarm.Some? ==> o.ddosAlarm == Some(s.connectionsPerSecond)))
      && (now - s.lastSecondReset < MillisPerSecond ==>
            && count == s.connectionsPerSecond + 1 && o.state.lastSecondReset == s.lastSecondReset
            && o.ddosAlarm.None?)
      && (o.reason == Some(ServerOverloaded) <==> count > cfg.maxConnectionsPerSecond)
      && (count > cfg.maxConnectionsPerSecond ==>
            && o.state.ipConnections == s.ipConnections
            && o.state.tempBlacklist == s.tempBlacklist - {ip}
            && o.state.permBlacklist == s.permBlacklist)
      && (count <= cfg.maxConnectionsPerSecond ==>
            && ip in o.state.ipConnections
            && o.state.ipConnections[ip].lastConnection == now
            && o.state.ipConnections[ip].connectionCount
               == (if ip in s.ipConnections then s.ipConnections[ip].connectionCount + 1 else 1)
            && (o.reason == Some(TooManyConnections) <==>
                  o.state.ipConnections[ip].connectionCount > cfg.maxConnectionsPerIP)
            && (o.reason.None? <==> o.state.ipConnections[ip].connectionCount <= cfg.maxConnectionsPerIP))
    // escalation: exactly one more temporary block per refusal for too many connections
    ensures TempBlockCount(o.state, ip)
         == TempBlockCount(s, ip) + (if o.reason == Some(TooManyConnections) then 1 else 0)
    ensures o.reason == Some(TooManyConnections) ==>
      if TempBlockCount(o.state, ip) >= cfg.permBlockThreshold
      then ip in o.state.permBlacklist && ip !in o.state.tempBlacklist
      else ip in o.state.tempBlacklist && o.state.tempBlacklist[ip] == now + TempBlockMillis(cfg)
    // such a refusal blocks permanently exactly when the count reaches the threshold
    ensures o.reason == Some(TooManyConnections) ==>
      (ip in o.state.permBlacklist <==> TempBlockCount(o.state, ip) >= cfg.permBlockThreshold)
    // only such a refusal can add the address to the permanent blacklist
    ensures ip !in s.permBlacklist && ip in o.state.permBlacklist ==> o.reason == Some(TooManyConnections)
    // an admitted or overloaded connection leaves no temporary block behind
    // and adds no permanent one
    ensures cfg.enabled && (o.reason.None? || o.reason == Some(ServerOverloaded)) ==>
      ip !in o.state.tempBlacklist && o.state.permBlacklist == s.permBlacklist
    // a check never lifts a permanent block
    ensures s.permBlacklist <= o.state.permBlacklist
    // nothing about any other address changes
    ensures o.state.permBlacklist - {ip} == s.permBlacklist - {ip}
    ensures o.state.tempBlacklist - {ip} == s.tempBlacklist - {ip}
    ensures o.state.ipConnections - {ip} == s.ipConnections - {ip}
  {
    if !cfg.enabled then Outcome(None, s, None)
    else if ip in s.permBlacklist then Outcome(Some(PermanentBlacklist), s, None)
    else if IsTempBlocked(s, ip, now) then Outcome(Some(TemporaryBlacklist), s, None)
    else
      var unblocked := s.(tempBlacklist := s.tempBlacklist - {ip});
      var (count, reset, finished) := TickGlobal(s, now);
      var alarm := if finished.Some? && finished.value >= cfg.ddosThreshold then finished else None;
      var counted := unblocked.(connectionsPerSecond := count, lastSecondReset := reset);
      if count > cfg.maxConnectionsPerSecond then
        Outcome(Some(ServerOverloaded), counted, alarm)
      else
        var tracked := counted.(ipConnections := Track(counted.ipConnections, ip, now));
        if tracked.ipConnections[ip].connectionCount > cfg.maxConnectionsPerIP then
          Outcome(Some(TooManyConnections), AddTempBlock(cfg, tracked, ip, now), alarm)
        else
          Outcome(None, tracked, alarm)
  }

  /** The per-address count is never reset by the check itself: once it has
      passed `maxConnectionsPerIP`, the next connection that reaches the
      per-address stage is refused again, however much time has passed,
      unless a sweep forgot the entry first. */
  lemma CountIsNotResetByCheck(cfg: Config, s: State, ip: string, now: int)
    requires cfg.enabled && ip !in s.permBlacklist && !IsTempBlocked(s, ip, now)
    requires TickGlobal(s, now).0 <= cfg.maxConnectionsPerSecond
    requires ip in s.ipConnections && s.ipConnections[ip].connectionCount >= cfg.maxConnectionsPerIP
    ensures CheckConnection(cfg, s, ip, now).reason == Some(TooManyConnections)
  {
  }

  // ---------------------------------------------------------------------------
  // Persistence across restarts.
  // ---------------------------------------------------------------------------

  /** A permanent block survives a restart: after `addPermBlock` rewrites the
      file (in any iteration order), a service built from that file blocks
      the address, as long as every blocked address is storable. */
  lemma AddPermBlockSurvivesRestart(
    s: State, ip: string, order: seq<string>, sep: BlacklistFile.LineSeparator, startTime: int)
    requires BlacklistFile.IsEnumeration(order, AddPermBlock(s, ip).permBlacklist)
    requires forall x :: x in AddPermBlock(s, ip).permBlacklist ==> BlacklistFile.IsStorable(x)
    ensures
      var restarted := Init(startTime, BlacklistFile.LoadBlacklist(Some(BlacklistFile.SaveBlacklist(order, sep))));
      restarted.permBlacklist == AddPermBlock(s, ip).permBlacklist && ip in restarted.permBlacklist
  {
    BlacklistFile.SaveLoadRoundTrip(AddPermBlock(s, ip).permBlacklist, order, sep);
  }

  /** A lifted permanent block stays lifted across a restart. */
  lemma RemovePermBlockSurvivesRestart(
    s: State, ip: string, order: seq<string>, sep: BlacklistFile.LineSeparator, startTime: int)
    requires BlacklistFile.IsEnumeration(order, RemovePermBlock(s, ip).1.permBlacklist)
    requires forall x :: x in s.permBlacklist ==> BlacklistFile.IsStorable(x)
    ensures
      var restarted := Init(startTime, BlacklistFile.LoadBlacklist(Some(BlacklistFile.SaveBlacklist(order, sep))));
      restarted.permBlacklist == s.permBlacklist - {ip} && ip !in restarted.permBlacklist
  {
    BlacklistFile.SaveLoadRoundTrip(RemovePermBlock(s, ip).1.permBlacklist, order, sep);
  }

  // ---------------------------------------------------------------------------
  // The reaper.
  // ---------------------------------------------------------------------------

  /** `cleanup` at `now`: forgets every address whose latest connection is
      older than the per-address window, and every temporary block whose
      expiry time has passed. Nothing else changes. */
  function Cleanup(cfg: Config, s: State, now: int): (r: State)
    ensures forall ip :: ip in r.ipConnections <==>
      ip in s.ipConnections && s.ipConnections[ip].lastConnection >= now - WindowMillis(cfg)
    ensures forall ip :: ip in r.ipConnections ==> r.ipConnections[ip] == s.ipConnections[ip]
    ensures forall ip :: ip in r.tempBlacklist <==> ip in s.tempBlacklist && s.tempBlacklist[ip] >= now
    ensures forall ip :: ip in r.tempBlacklist ==> r.tempBlacklist[ip] == s.tempBlacklist[ip]
    ensures r.permBlacklist == s.permBlacklist
    ensures r.connectionsPerSecond == s.connectionsPerSecond && r.lastSecondReset == s.lastSecondReset
  {
    var windowStart := now - WindowMillis(cfg);
    s.(ipConnections := map ip | ip in s.ipConnections && s.ipConnections[ip].lastConnection >= windowStart
                           :: s.ipConnections[ip],
       tempBlacklist := map ip | ip in s.tempBlacklist && s.tempBlacklist[ip] >= now :: s.tempBlacklist[ip])
  }

  /** Two sweeps at the same instant leave what one sweep leaves. */
  lemma CleanupIdempotent(cfg: Config, s: State, now: int)
    ensures Cleanup(cfg, Cleanup(cfg, s, now), now) == Cleanup(cfg, s, now)
  {
  }

  /** The reaper never changes a temporary-block verdict from its sweep time
      on: it only drops blocks the check already treats as expired. */
  lemma CleanupKeepsTempVerdict(cfg: Config, s: State, swept: int, now: int, ip: string)
    requires swept <= now
    ensures IsTempBlocked(Cleanup(cfg, s, swept), ip, now) <==> IsTempBlocked(s, ip, now)
  {
  }

  /** The escalation count lives in the per-address entry, and a temporary
      block stops the entry from being refreshed: a sweep that falls after
      the per-address window but before the block expires forgets the count
      while the block stays in force. */
  lemma CleanupForgetsEscalationDuringBlock(cfg: Config, s: State, ip: string, now: int, swept: int)
    requires CheckConnection(cfg, s, ip, now).reason == Some(TooManyConnections)
    requires ip !in CheckConnection(cfg, s, ip, now).state.permBlacklist
    requires now + WindowMillis(cfg) < swept <= now + TempBlockMillis(cfg)
    ensures var after := Cleanup(cfg, CheckConnection(cfg, s, ip, now).state, swept);
      && ip !in after.ipConnections
      && TempBlockCount(after, ip) == 0
      && ip in after.tempBlacklist
  {
  }

  /** With the default settings (10-second window, 60-minute block) every
      sweep between ten seconds and one hour after a refusal for too many
      connections that did not block permanently forgets the escalation count
      while the block stays. */
  lemma DefaultSweepForgetsEscalation(s: State, ip: string, now: int)
    requires CheckConnection(DefaultConfig, s, ip, now).reason == Some(TooManyConnections)
    requires ip !in CheckConnection(DefaultConfig, s, ip, now).state.permBlacklist
    ensures forall swept :: now + 10_000 < swept <= now + 3_600_000 ==>
      var after := Cleanup(DefaultConfig, CheckConnection(DefaultConfig, s, ip, now).state, swept);
      TempBlockCount(after, ip) == 0 && ip in after.tempBlacklist
  {
    forall swept | now + 10_000 < swept <= now + 3_600_000
      ensures var after := Cleanup(DefaultConfig, CheckConnection(DefaultConfig, s, ip, now).state, swept);
        TempBlockCount(after, ip) == 0 && ip in after.tempBlacklist
    {
      CleanupForgetsEscalationDuringBlock(DefaultConfig, s, ip, now, swept);
    }
  }

  // ---------------------------------------------------------------------------
  // Runs of connections.
  // ---------------------------------------------------------------------------

  /** One incoming connection: the address and the clock reading. */
  datatype Request = Request(ip: string, now: int)

  /** Checks the connections in turn, with no sweep in between; returns each
      verdict and the final state. */
  function Serve(cfg: Config, s: State, reqs: seq<Request>): (r: (seq<Option<DenyReason>>, State))
    ensures |r.0| == |reqs|
    decreases |reqs|
  {
    if |reqs| == 0 then ([], s)
    else
      var o := CheckConnection(cfg, s, reqs[0].ip, reqs[0].now);
      var rest := Serve(cfg, o.state, reqs[1..]);
      ([o.reason] + rest.0, rest.1)
  }

  /** How many verdicts in `reasons` are refusals for too many connections. */
  function CountTooMany(reasons: seq<Option<DenyReason>>): nat {
    if |reasons| == 0 then 0
    else (if reasons[0] == Some(TooManyConnections) then 1 else 0) + CountTooMany(reasons[1..])
  }

  /** All requests come from `ip`. */
  predicate AllFrom(reqs: seq<Request>, ip: string) {
    forall i :: 0 <= i < |reqs| ==> reqs[i].ip == ip
  }

  /** A run never lifts a permanent block. */
  lemma {:induction false} ServeKeepsPermBlocks(cfg: Config, s: State, reqs: seq<Request>)
    ensures s.permBlacklist <= Serve(cfg, s, reqs).1.permBlacklist
    decreases |reqs|
  {
    if |reqs| > 0 {
      var o := CheckConnection(cfg, s, reqs[0].ip, reqs[0].now);
      ServeKeepsPermBlocks(cfg, o.state, reqs[1..]);
    }
  }

  /** A permanently blocked address is refused with "Permanent blacklist"
      on every later connection, whatever its temporary blocks did. */
  lemma {:induction false} PermBlockIsFinal(cfg: Config, s: State, reqs: seq<Request>, ip: string)
    requires cfg.enabled && ip in s.permBlacklist
    ensures forall i :: 0 <= i < |reqs| && reqs[i].ip == ip ==>
      Serve(cfg, s, reqs).0[i] == Some(PermanentBlacklist)
    ensures ip in Serve(cfg, s, reqs).1.permBlacklist
    decreases |reqs|
  {
    if |reqs| > 0 {
      var o := CheckConnection(cfg, s, reqs[0].ip, reqs[0].now);
      PermBlockIsFinal(cfg, o.state, reqs[1..], ip);
      var r := Serve(cfg, s, reqs);
      assert forall i :: 1 <= i < |reqs| ==> r.0[i] == Serve(cfg, o.state, reqs[1..]).0[i - 1];
      assert forall i :: 1 <= i < |reqs| ==> reqs[i] == reqs[1..][i - 1];
    }
  }

  /** Escalation over a run of connections from one address: its count grows
      by exactly the number of refusals for too many connections, and once a
      refusal has happened and the count has reached the threshold, the
      address is permanently blocked. */
  lemma {:induction false} EscalationCount(cfg: Config, s: State, reqs: seq<Request>, ip: string)
    requires AllFrom(reqs, ip)
    ensures var (reasons, final) := Serve(cfg, s, reqs);
      TempBlockCount(final, ip) == TempBlockCount(s, ip) + CountTooMany(reasons)
    ensures var (reasons, final) := Serve(cfg, s, reqs);
      CountTooMany(reasons) > 0 && TempBlockCount(final, ip) >= cfg.permBlockThreshold ==>
        ip in final.permBlacklist
    ensures var final := Serve(cfg, s, reqs).1;
      ip !in s.permBlacklist && TempBlockCount(final, ip) < cfg.permBlockThreshold ==>
        ip !in final.permBlacklist
    decreases |reqs|
  {
    if |reqs| > 0 {
      var o := CheckConnection(cfg, s, ip, reqs[0].now);
      assert reqs[0].ip == ip;
      var tail := reqs[1..];
      assert AllFrom(tail, ip) by {
        forall i | 0 <= i < |tail| ensures tail[i].ip == ip {
          assert tail[i] == reqs[i + 1];
        }
      }
      EscalationCount(cfg, o.state, tail, ip);
      ServeKeepsPermBlocks(cfg, o.state, tail);
      var (reasons, final) := Serve(cfg, s, reqs);
      var rest := Serve(cfg, o.state, tail);
      assert reasons == [o.reason] + rest.0;
      assert reasons[1..] == rest.0;
      assert final == rest.1;
      // the count never goes down along the run, so a permanent block added
      // on the first connection would leave the final count at the threshold
      assert TempBlockCount(o.state, ip) <= TempBlockCount(final, ip);
    }
  }

  /** The global counter over one second: connections from fresh addresses
      within a second of the last restart are counted one by one, and the
      one that takes the count past `maxConnectionsPerSecond` (and every one
      after it) is refused with "Server overloaded". */
  lemma {:induction false} GlobalLimitWithinSecond(cfg: Config, s: State, reqs: seq<Request>)
    requires cfg.enabled
    requires forall i :: 0 <= i < |reqs| ==> reqs[i].now - s.lastSecondReset < MillisPerSecond
    requires forall i :: 0 <= i < |reqs| ==>
      reqs[i].ip !in s.permBlacklist && reqs[i].ip !in s.tempBlacklist
    requires forall i, j :: 0 <= i < j < |reqs| ==> reqs[i].ip != reqs[j].ip
    ensures var (reasons, final) := Serve(cfg, s, reqs);
      && final.connectionsPerSecond == s.connectionsPerSecond + |reqs|
      && final.lastSecondReset == s.lastSecondReset
      && forall i :: 0 <= i < |reqs| ==>
           (reasons[i] == Some(ServerOverloaded) <==>
              s.connectionsPerSecond + i + 1 > cfg.maxConnectionsPerSecond)
    decreases |reqs|
  {
    if |reqs| > 0 {
      var o := CheckConnection(cfg, s, reqs[0].ip, reqs[0].now);
      var tail := reqs[1..];
      assert forall i :: 0 <= i < |tail| ==> tail[i] == reqs[i + 1];
      forall i | 0 <= i < |tail|
        ensures tail[i].ip !in o.state.permBlacklist && tail[i].ip !in o.state.tempBlacklist
      {
        assert tail[i].ip != reqs[0].ip;
        assert tail[i].ip !in o.state.permBlacklist - {reqs[0].ip};
        assert tail[i].ip !in o.state.tempBlacklist - {reqs[0].ip};
      }
      GlobalLimitWithinSecond(cfg, o.state, tail);
      var (reasons, final) := Serve(cfg, s, reqs);
      var rest := Serve(cfg, o.state, tail);
      assert reasons == [o.reason] + rest.0;
      assert forall i :: 1 <= i < |reqs| ==> reasons[i] == rest.0[i - 1];
    }
  }
}
