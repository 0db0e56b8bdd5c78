/**
 The pre-login decision (PlayerLoginListener.onPlayerPreLogin): the stages a
 joining player's address passes, in order, each able to end the decision
 — address whitelist, local address, anti-DDoS check, login rate limit,
 GeoIP availability, unknown country, country mode. The GeoIP lookup and
 the JDK's address classification are inputs; the two services are the
 pure models of their own modules.
 */
module LoginListener {
  import opened Wrappers
  import opened JavaStrings
  import AntiDDoS
  import RateLimit

  /** The plugin-wide settings the listener reads; `mode` is already lower-case. */
  datatype Settings = Settings(
    whitelistedIPs: set<string>,
    allowLocal: bool,
    allowUnknownCountry: bool,
    mode: string,
    countries: set<string>)

  /** The joining address: its textual form and what `InetAddress` reports
      about it. */
  datatype Address = Address(host: string, isLoopback: bool, isSiteLocal: bool, isLinkLocal: bool)

  /** What the GeoIP service offers for the address: whether its database is
      loaded, and the country code it finds (`None` for `null`). */
  datatype GeoIP = GeoIP(available: bool, countryCode: Option<string>)

  /** The message keys a refused player is kicked with. */
  datatype KickKey = KickBlacklist | KickDdos | KickRateLimit | KickUnknown | KickCountry {
    function Key(): string {
      match this
      case KickBlacklist => "kick-blacklist"
      case KickDdos => "kick-ddos"
      case KickRateLimit => "kick-ratelimit"
      case KickUnknown => "kick-unknown"
      case KickCountry => "kick-country"
    }
  }

  /** Each refusal has its own message key. */
  lemma KickKeysDistinct(a: KickKey, b: KickKey)
    requires a != b
    ensures a.Key() != b.Key()
  {
    assert a.Key()[6] != b.Key()[6] || |a.Key()| != |b.Key()|;
  }

  datatype Verdict = Allow | Kick(key: KickKey)

  /** The verdict together with the two services' next states. */
  datatype Decision = Decision(verdict: Verdict, ddos: AntiDDoS.State, rate: RateLimit.State)

  // ---------------------------------------------------------------------------
  // The pieces of the decision.
  // ---------------------------------------------------------------------------

  /** `isLocalAddress`: the JDK's loopback, site-local and link-local checks,
      or a host string with one of three private-range prefixes. */
  predicate IsLocalAddress(addr: Address) {
    || addr.isLoopback
    || addr.isSiteLocal
    || addr.isLinkLocal
    || StartsWith(addr.host, "192.168.")
    || StartsWith(addr.host, "10.")
    || StartsWith(addr.host, "172.")
  }

  /** The prefix check counts every "172." host as local, not only the private
      block 172.16.0.0/12: 172.217.0.1 is admitted as local whatever the JDK
      says about it. */
  lemma WholeOf172IsLocal(addr: Address)
    requires StartsWith(addr.host, "172.")
    ensures IsLocalAddress(addr)
  {
  }

  /** A concrete public address the prefix check admits as local. */
  lemma PublicAddressIn172IsLocal()
    ensures IsLocalAddress(Address("172.217.0.1", false, false, false))
  {
    WholeOf172IsLocal(Address("172.217.0.1", false, false, false));
  }

  /** The kick key for an anti-DDoS refusal: the blacklist message when the
      reason text mentions "blacklist", the DDoS message otherwise. */
  function DdosKickKey(reason: AntiDDoS.DenyReason): (k: KickKey)
    ensures k == KickBlacklist <==> reason.PermanentBlacklist? || reason.TemporaryBlacklist?
    ensures k == KickDdos <==> reason.ServerOverloaded? || reason.TooManyConnections?
  {
    ReasonMentionsBlacklist(reason);
    if Contains(reason.Text(), "blacklist") then KickBlacklist else KickDdos
  }

  /** Exactly the two blacklist reasons mention "blacklist". */
  lemma ReasonMentionsBlacklist(reason: AntiDDoS.DenyReason)
    ensures Contains(reason.Text(), "blacklist") <==> reason.PermanentBlacklist? || reason.TemporaryBlacklist?
  {
    match reason
    case PermanentBlacklist =>
      assert OccursAt(reason.Text(), "blacklist", 10);
    case TemporaryBlacklist =>
      assert OccursAt(reason.Text(), "blacklist", 10);
    case ServerOverloaded =>
      LacksFirstUnit(reason.Text(), "blacklist");
    case TooManyConnections =>
      LacksFirstUnit(reason.Text(), "blacklist");
  }

  /** A string without the first unit of `sub` does not contain `sub`. */
  lemma LacksFirstUnit(s: string, sub: string)
    requires |sub| > 0 && forall i :: 0 <= i < |s| ==> s[i] != sub[0]
    ensures !Contains(s, sub)
  {
    forall i | 0 <= i && i + |sub| <= |s| ensures !OccursAt(s, sub, i) {
      assert s[i..i + |sub|][0] == s[i];
    }
  }

  /** The country rule: in "whitelist" mode only the listed countries are
      allowed; in any other mode the listed countries are refused. */
  function CountryAllowed(mode: string, countries: set<string>, code: string): (allowed: bool) {
    if mode == "whitelist" then code in countries else code !in countries
  }

  /** For the same code and list, "whitelist" mode and any other mode give
      opposite verdicts. */
  lemma ModesAreOpposite(mode: string, countries: set<string>, code: string)
    requires mode != "whitelist"
    ensures CountryAllowed(mode, countries, code) == !CountryAllowed("whitelist", countries, code)
    ensures CountryAllowed(mode, countries, code) == CountryAllowed("blacklist", countries, code)
  {
  }

  /** The GeoIP stages: the lookup is skipped when the database is missing,
      an unknown country follows `allowUnknownCountry`, and a known one
      follows the country rule. */
  function CountryVerdict(settings: Settings, geo: GeoIP): (v: Verdict)
    ensures !geo.available ==> v == Allow
    ensures geo.available && geo.countryCode.None? ==>
      (v == Kick(KickUnknown) <==> !settings.allowUnknownCountry) && (v == Allow <==> settings.allowUnknownCountry)
    ensures geo.available && geo.countryCode.Some? ==>
      (v == Allow <==> CountryAllowed(settings.mode, settings.countries, geo.countryCode.value))
      && (v != Allow ==> v == Kick(KickCountry))
  {
    if !geo.available then Allow
    else match geo.countryCode
      case None => if settings.allowUnknownCountry then Allow else Kick(KickUnknown)
      case Some(code) =>
        if CountryAllowed(settings.mode, settings.countries, code) then Allow else Kick(KickCountry)
  }

  // ---------------------------------------------------------------------------
  // The whole decision.
  // ---------------------------------------------------------------------------

  /** `onPlayerPreLogin` for one address at time `now`. */
  function OnPlayerPreLogin(
    settings: Settings,
    ddosConfig: AntiDDoS.Config, ddos: AntiDDoS.State,
    rateConfig: RateLimit.Config, rate: RateLimit.State,
    addr: Address, geo: GeoIP, now: int): (d: Decision)
    // an IP whitelist entry is admitted before any service runs
    ensures addr.host in settings.whitelistedIPs ==> d == Decision(Allow, ddos, rate)
    // so is a local address when local addresses are allowed
    ensures addr.host !in settings.whitelistedIPs && settings.allowLocal && IsLocalAddress(addr) ==>
      d == Decision(Allow, ddos, rate)
    // otherwise the anti-DDoS check runs exactly once
    ensures PassesAddressStages(settings, addr) ==>
      d.ddos == AntiDDoS.CheckConnection(ddosConfig, ddos, addr.host, now).state
    // an anti-DDoS refusal ends the decision, leaving the rate limiter alone
    ensures PassesAddressStages(settings, addr) ==>
      var check := AntiDDoS.CheckConnection(ddosConfig, ddos, addr.host, now);
      check.reason.Some? ==> d == Decision(Kick(DdosKickKey(check.reason.value)), check.state, rate)
    // a rate-limited address is refused without recording an attempt
    ensures PassesAddressStages(settings, addr) && PassesDdos(ddosConfig, ddos, addr, now) ==>
      var (limited, checked) := RateLimit.IsRateLimited(rateConfig, rate, addr.host, now);
      && (limited ==> d.verdict == Kick(KickRateLimit) && d.rate == rate)
      // otherwise exactly one attempt is recorded, whatever it answers
      && (!limited ==>
            && d.rate == RateLimit.RecordAttempt(rateConfig, checked, addr.host, now).1
            && d.verdict == CountryVerdict(settings, geo))
  {
    if addr.host in settings.whitelistedIPs then Decision(Allow, ddos, rate)
    else if settings.allowLocal && IsLocalAddress(addr) then Decision(Allow, ddos, rate)
    else
      var check := AntiDDoS.CheckConnection(ddosConfig, ddos, addr.host, now);
      if check.reason.Some? then Decision(Kick(DdosKickKey(check.reason.value)), check.state, rate)
      else
        var (limited, checked) := RateLimit.IsRateLimited(rateConfig, rate, addr.host, now);
        if limited then Decision(Kick(KickRateLimit), check.state, checked)
        else
          var (_, recorded) := RateLimit.RecordAttempt(rateConfig, checked, addr.host, now);
          Decision(CountryVerdict(settings, geo), check.state, recorded)
  }

  /** Neither the IP whitelist nor the local-address rule admits the address. */
  predicate PassesAddressStages(settings: Settings, addr: Address) {
    addr.host !in settings.whitelistedIPs && !(settings.allowLocal && IsLocalAddress(addr))
  }

  /** The anti-DDoS check admits the address at `now`. */
  predicate PassesDdos(cfg: AntiDDoS.Config, s: AntiDDoS.State, addr: Address, now: int) {
    AntiDDoS.CheckConnection(cfg, s, addr.host, now).reason.None?
  }

  /** The attempt that makes the rate limiter block an address is not itself
      refused by the rate-limit stage: its verdict is the GeoIP verdict, and
      the next login from that address while the block lasts, if it gets
      past the anti-DDoS check, is kicked for the rate limit. */
  lemma BlockingAttemptIsNotRefused(
    settings: Settings,
    ddosConfig: AntiDDoS.Config, ddos: AntiDDoS.State,
    rateConfig: RateLimit.Config, rate: RateLimit.State,
    addr: Address, geo: GeoIP, now: int, later: int, geoLater: GeoIP)
    requires PassesAddressStages(settings, addr) && PassesDdos(ddosConfig, ddos, addr, now)
    requires !RateLimit.IsRateLimited(rateConfig, rate, addr.host, now).0
    requires
      var checked := RateLimit.IsRateLimited(rateConfig, rate, addr.host, now).1;
      RateLimit.RecordAttempt(rateConfig, checked, addr.host, now).0
    requires now <= later < now + RateLimit.BlockMillis(rateConfig)
    ensures
      var d := OnPlayerPreLogin(settings, ddosConfig, ddos, rateConfig, rate, addr, geo, now);
      && d.verdict == CountryVerdict(settings, geo)
      && (PassesDdos(ddosConfig, d.ddos, addr, later) ==>
            OnPlayerPreLogin(settings, ddosConfig, d.ddos, rateConfig, d.rate, addr, geoLater, later).verdict
              == Kick(KickRateLimit))
  {
  }

  /** The country examples: a "whitelist" of {"VN"} admits "VN", refuses
      "US", and refuses an unknown country unless unknown countries are
      allowed. */
  lemma CountryExamples(whitelisted: set<string>, allowLocal: bool)
    ensures CountryVerdict(Settings(whitelisted, allowLocal, false, "whitelist", {"VN"}), GeoIP(true, Some("VN"))) == Allow
    ensures CountryVerdict(Settings(whitelisted, allowLocal, false, "whitelist", {"VN"}), GeoIP(true, Some("US"))) == Kick(KickCountry)
    ensures CountryVerdict(Settings(whitelisted, allowLocal, false, "whitelist", {"VN"}), GeoIP(true, None)) == Kick(KickUnknown)
    ensures CountryVerdict(Settings(whitelisted, allowLocal, true, "whitelist", {"VN"}), GeoIP(true, None)) == Allow
  {
  }
}
