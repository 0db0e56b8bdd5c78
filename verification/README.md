# IPBlock admission control in Dafny

This project models the admission-control core of the IPBlock Minecraft
plugin. That core decides, for each joining player's IP address, whether the
login may go ahead. The model has four parts:

- **Anti-DDoS engine** (`AntiDDoSService`), modelled in module `AntiDDoS`
  (`anti_ddos.dfy`). It holds:
  - a permanent blacklist;
  - a temporary blacklist with expiry times;
  - a global connections-per-second counter;
  - per-address connection counters;
  - an escalation counter that turns repeated temporary blocks into a
    permanent block;
  - a reaper (`cleanup`) that evicts stale entries.
- **Permanent blacklist file** (`blacklist.txt`), modelled in module
  `BlacklistFile` (`blacklist_file.dfy`). It is a two-line `#` header
  followed by one address per line. The model covers the text itself:
  - `println` with an LF or CRLF separator;
  - `BufferedReader.readLine`, which splits on `\n`, `\r` and `\r\n`;
  - Java's `String.trim` (module `JavaStrings`, `java_strings.dfy`).
- **Login-attempt rate limiter** (`RateLimitService`), modelled in module
  `RateLimit` (`rate_limit.dfy`). It counts attempts per address in a fixed
  window and sets a timed block when an address goes over the limit. It has
  its own reaper.
- **Pre-login decision** (`PlayerLoginListener.onPlayerPreLogin`), modelled
  in module `LoginListener` (`login_listener.dfy`). It runs these stages in
  order:
  1. IP whitelist;
  2. local address;
  3. anti-DDoS check;
  4. rate limit;
  5. GeoIP availability;
  6. unknown country;
  7. country whitelist/blacklist mode.

  A refusal becomes one of the kick-message keys `kick-blacklist`,
  `kick-ddos`, `kick-ratelimit`, `kick-unknown` or `kick-country`.

Every operation is a pure function from an immutable state record to the
next one. The clock reading `now` (milliseconds) is an explicit parameter.
The GeoIP lookup and the JDK's `InetAddress` classification are inputs.

Some documented behaviour of the code is kept as it is and proved as a
property:

- The per-address connection count is never reset by the check itself. Only
  the reaper resets it (`AntiDDoS.CountIsNotResetByCheck`).
- The escalation count lives in the per-address entry. A temporary block
  stops that entry from being refreshed, so a sweep that runs while the
  block lasts discards the count (`AntiDDoS.CleanupForgetsEscalationDuringBlock`,
  and `AntiDDoS.DefaultSweepForgetsEscalation` at the default settings).
  With the default settings (10-second window, 60-minute block) the count
  therefore only reaches the permanent-block threshold if no sweep runs in
  between.
- The local-address prefix check accepts every host that starts with
  `172.`, not only the private block 172.16.0.0/12
  (`LoginListener.PublicAddressIn172IsLocal`).
- The global counter restarts when at least 1000 ms have passed since its
  last restart, and only when the next connection that gets past both
  blacklists arrives. It does not restart on whole-second clock boundaries.
  The model follows the code here.
- When the GeoIP database is not loaded, the login is admitted even if
  unknown countries are not allowed: the GeoIP stages are skipped
  entirely (`LoginListener.CountryVerdict`).
- A temporary block whose expiry equals `now` already counts as expired
  for the check, but a sweep at `now` keeps it, because the sweep removes
  only expiry times strictly before `now`. The model keeps both
  comparisons as written.

## Model

| member | source | states |
|---|---|---|
| `JavaStrings.Trim` | src/main/java/com/chiraitori/ipblock/service/AntiDDoSService.java:184 | The trimmed line is the piece of the input that starts right after its leading trimmable units, and it has nothing trimmable at either end. |
| `JavaStrings.TrimOnlyStrips` | src/main/java/com/chiraitori/ipblock/service/AntiDDoSService.java:184 | Every unit of the input before or after the trimmed piece is trimmable (at most U+0020), so `trim` removes nothing else. |
| `JavaStrings.TrimFixedPoint` | src/main/java/com/chiraitori/ipblock/service/AntiDDoSService.java:184-186 | `trim` leaves a string unchanged exactly when it has no trimmable unit at either end. |
| `JavaStrings.Contains` | src/main/java/com/chiraitori/ipblock/listener/PlayerLoginListener.java:38 | `contains` is true exactly when the substring occurs at some offset. |
| `BlacklistFile.ReadLines` | src/main/java/com/chiraitori/ipblock/service/AntiDDoSService.java:181-183 | Each line `readLine` returns holds no line break. |
| `BlacklistFile.ReadOneLine` | src/main/java/com/chiraitori/ipblock/service/AntiDDoSService.java:181-183 | A single line followed by LF or CRLF is returned whole, and reading goes on after the separator. |
| `BlacklistFile.ReadLastLine` | src/main/java/com/chiraitori/ipblock/service/AntiDDoSService.java:181-183 | A last line with no line break after it is still returned, whole. |
| `BlacklistFile.ReadAfterLoneCR` | src/main/java/com/chiraitori/ipblock/service/AntiDDoSService.java:181-183 | A carriage return not followed by a line feed ends the line by itself, and reading goes on with the very next unit. |
| `BlacklistFile.ReadWriteLines` | src/main/java/com/chiraitori/ipblock/service/AntiDDoSService.java:196-200 | Reading back the lines `println` wrote, with LF or CRLF, gives the same lines if none of them holds a line break. |
| `BlacklistFile.ParseEntriesMembers` | src/main/java/com/chiraitori/ipblock/service/AntiDDoSService.java:183-188 | An address is loaded exactly when some line, once trimmed, equals it and is neither empty nor a `#` comment. |
| `BlacklistFile.LoadBlacklist` | src/main/java/com/chiraitori/ipblock/service/AntiDDoSService.java:176-193 | A missing file loads nothing. Otherwise an address is loaded exactly when some line `readLine` returns, once trimmed, equals it and is neither empty nor a `#` comment. |
| `BlacklistFile.HeaderIsComment` | src/main/java/com/chiraitori/ipblock/service/AntiDDoSService.java:197-198 | Both header lines are skipped by the loader. |
| `BlacklistFile.BlacklistLines` | src/main/java/com/chiraitori/ipblock/service/AntiDDoSService.java:195-201 | The saved file is two comment lines followed by the addresses in iteration order. |
| `BlacklistFile.ParseSkipsComments` | src/main/java/com/chiraitori/ipblock/service/AntiDDoSService.java:185-186 | Blank and `#` lines in front of the entries add nothing to the loaded set. |
| `BlacklistFile.ParseEnumeration` | src/main/java/com/chiraitori/ipblock/service/AntiDDoSService.java:183-188 | Parsing one line per element of a set loads the trimmed form of every element that is not blank or a comment. |
| `BlacklistFile.LoadAfterSave` | src/main/java/com/chiraitori/ipblock/service/AntiDDoSService.java:176-205 | Whatever the set holds, save then load gives the trimmed form of every entry that is not blank or a comment. |
| `BlacklistFile.SaveLoadRoundTrip` | src/main/java/com/chiraitori/ipblock/service/AntiDDoSService.java:176-205 | For storable addresses (non-empty, trimmed, no leading `#`, no line break), load after save gives back exactly the set, in any iteration order. |
| `AntiDDoS.Init` | src/main/java/com/chiraitori/ipblock/service/AntiDDoSService.java:15-26 | A new service has zero counters, empty tables, its global window starting at construction time, and the loaded blacklist. |
| `AntiDDoS.AddPermBlock` | src/main/java/com/chiraitori/ipblock/service/AntiDDoSService.java:145-150 | The address joins the permanent blacklist and loses its temporary block. Nothing else changes. |
| `AntiDDoS.AddPermBlockIdempotent` | src/main/java/com/chiraitori/ipblock/service/AntiDDoSService.java:145-150 | Adding a permanent block twice is the same as adding it once. |
| `AntiDDoS.RemovePermBlock` | src/main/java/com/chiraitori/ipblock/service/AntiDDoSService.java:152-158 | Returns true exactly when the address was blacklisted, which is also when the file is rewritten. Afterwards the address is absent. |
| `AntiDDoS.AddThenRemovePermBlock` | src/main/java/com/chiraitori/ipblock/service/AntiDDoSService.java:145-158 | Removing right after adding reports success and restores the previous blacklist. |
| `AntiDDoS.RemoveTempBlock` | src/main/java/com/chiraitori/ipblock/service/AntiDDoSService.java:160-162 | The address's temporary block is gone; other blocks keep their expiry times; the permanent blacklist, the per-address table and the global counter are untouched. |
| `AntiDDoS.RemoveTempBlockUndoesAdd` | src/main/java/com/chiraitori/ipblock/service/AntiDDoSService.java:127-162 | Removing right after adding a temporary block restores the temporary blacklist of an address that had none, and the check then never answers "Temporary blacklist" for it. |
| `AntiDDoS.AddTempBlock` | src/main/java/com/chiraitori/ipblock/service/AntiDDoSService.java:127-143 | The address is blocked until `now` plus the block duration. A tracked address gets exactly one more escalation, and reaching the threshold makes the block permanent. |
| `AntiDDoS.Track` | src/main/java/com/chiraitori/ipblock/service/AntiDDoSService.java:110-116 | A new entry starts at one connection; an existing one goes up by one with its escalation count kept. Either way the last-seen time is `now`, and other addresses are untouched. |
| `AntiDDoS.CheckConnection` | src/main/java/com/chiraitori/ipblock/service/AntiDDoSService.java:69-125 | The stages run in order. Disabled: admit, nothing changes. Permanent block, or unexpired temporary block: refuse, nothing changes. Otherwise an expired block is dropped, and the global counter restarts at one after at least 1000 ms (reporting the finished second's count when it reached the DDoS threshold) or else goes up by one. Global counter past the limit: "Server overloaded", per-address table untouched. Per-address count past the limit: "Too many connections", one more escalation, and a permanent block exactly when the escalation count has reached the threshold. No other verdict adds a permanent block. Other addresses never change. |
| `AntiDDoS.CountIsNotResetByCheck` | src/main/java/com/chiraitori/ipblock/service/AntiDDoSService.java:110-122 | Once an address's count has reached the per-address limit, its next connection past the global stage is refused again, however much later it arrives. |
| `AntiDDoS.AddPermBlockSurvivesRestart` | src/main/java/com/chiraitori/ipblock/service/AntiDDoSService.java:145-150 | After `addPermBlock` rewrites the file, a service built from that file blocks the address. |
| `AntiDDoS.RemovePermBlockSurvivesRestart` | src/main/java/com/chiraitori/ipblock/service/AntiDDoSService.java:152-158 | After `removePermBlock` rewrites the file, a service built from that file does not block the address. |
| `AntiDDoS.Cleanup` | src/main/java/com/chiraitori/ipblock/service/AntiDDoSService.java:164-174 | Removes exactly the entries last seen before the window and the blocks that expired before `now`. Everything else is kept. |
| `AntiDDoS.CleanupIdempotent` | src/main/java/com/chiraitori/ipblock/service/AntiDDoSService.java:164-174 | Two sweeps at the same instant are the same as one. |
| `AntiDDoS.CleanupKeepsTempVerdict` | src/main/java/com/chiraitori/ipblock/service/AntiDDoSService.java:172-173 | A sweep never changes whether an address is temporarily blocked at any later time. |
| `AntiDDoS.CleanupForgetsEscalationDuringBlock` | src/main/java/com/chiraitori/ipblock/service/AntiDDoSService.java:127-140 | A sweep after the per-address window but before the temporary block expires discards the escalation count, while the block stays. |
| `AntiDDoS.ServeKeepsPermBlocks` | src/main/java/com/chiraitori/ipblock/service/AntiDDoSService.java:74-77 | No sequence of connection checks ever lifts a permanent block. |
| `AntiDDoS.PermBlockIsFinal` | src/main/java/com/chiraitori/ipblock/service/AntiDDoSService.java:74-77 | A permanently blocked address gets "Permanent blacklist" on every later connection. |
| `AntiDDoS.DefaultSweepForgetsEscalation` | src/main/java/com/chiraitori/ipblock/service/AntiDDoSService.java:127-174 | With the default settings (10-second window, 60-minute block), every sweep between ten seconds and one hour after a refusal that did not block permanently forgets the escalation count while the block stays. |
| `AntiDDoS.EscalationCount` | src/main/java/com/chiraitori/ipblock/service/AntiDDoSService.java:131-140 | Over connections from one address, the escalation count grows by exactly the number of "Too many connections" refusals. Once such a refusal has happened and the count has reached the threshold, the address is permanently blocked. Conversely, an address not blocked at the start whose final count is below the threshold is not permanently blocked. |
| `AntiDDoS.GlobalLimitWithinSecond` | src/main/java/com/chiraitori/ipblock/service/AntiDDoSService.java:89-107 | Within one second of the last restart, connections from unblocked distinct addresses are counted one by one. The i-th is "Server overloaded" exactly when the count passes the limit. |
| `RateLimit.IsRateLimited` | src/main/java/com/chiraitori/ipblock/service/RateLimitService.java:40-56 | True exactly when enabled and an unexpired block exists. An expired block is dropped. The attempts are never touched. |
| `RateLimit.RecordAttempt` | src/main/java/com/chiraitori/ipblock/service/RateLimitService.java:62-88 | A missing or stale window restarts at one attempt; otherwise the attempt is counted. Passing `maxAttempts` blocks the address for the block duration, drops its window and returns true. Disabled: false, nothing changes. |
| `RateLimit.RecordAttemptIgnoresBlocks` | src/main/java/com/chiraitori/ipblock/service/RateLimitService.java:62-88 | `recordAttempt` never reads the block table. |
| `RateLimit.Cleanup` | src/main/java/com/chiraitori/ipblock/service/RateLimitService.java:90-99 | Removes exactly the windows that started before the current window and the blocks that expired before `now`. |
| `RateLimit.CleanupIdempotent` | src/main/java/com/chiraitori/ipblock/service/RateLimitService.java:90-99 | Two sweeps at the same instant are the same as one. |
| `RateLimit.CleanupIsInvisible` | src/main/java/com/chiraitori/ipblock/service/RateLimitService.java:90-99 | From its sweep time on, a sweep changes neither operation's answer. |
| `RateLimit.OperationsKeepCountsInRange` | src/main/java/com/chiraitori/ipblock/service/RateLimitService.java:70-87 | Every stored attempt count stays between 1 and `maxAttempts`. |
| `RateLimit.EmptyCountsInRange` | src/main/java/com/chiraitori/ipblock/service/RateLimitService.java:14-15 | The freshly built service, with no windows, satisfies the count invariant. |
| `RateLimit.DefaultSixthAttemptBlocks` | src/main/java/com/chiraitori/ipblock/service/RateLimitService.java:62-88 | With the default settings (5 attempts, 60-second window, 30-minute block), a fresh service answers false to five attempts in a row and true to the sixth, which blocks the address until 30 minutes after it. |
| `RateLimit.BlockOnAttemptLimitPlusOne` | src/main/java/com/chiraitori/ipblock/service/RateLimitService.java:62-88 | From no window, attempts within one window answer false `maxAttempts` times. Until then none is lost from the count. The next attempt answers true, blocks the address and drops its window. |
| `RateLimit.RunWithinWindow` | src/main/java/com/chiraitori/ipblock/service/RateLimitService.java:70-85 | Inductive form of the above, for a window already holding `made` attempts. |
| `LoginListener.WholeOf172IsLocal` | src/main/java/com/chiraitori/ipblock/listener/PlayerLoginListener.java:96-103 | Every host that starts with "172." counts as local. |
| `LoginListener.PublicAddressIn172IsLocal` | src/main/java/com/chiraitori/ipblock/listener/PlayerLoginListener.java:102 | The public address 172.217.0.1 counts as local even when the JDK does not call it local. |
| `LoginListener.ReasonMentionsBlacklist` | src/main/java/com/chiraitori/ipblock/listener/PlayerLoginListener.java:38 | Of the four anti-DDoS reason texts, exactly the two blacklist ones contain "blacklist". |
| `LoginListener.KickKeysDistinct` | src/main/java/com/chiraitori/ipblock/listener/PlayerLoginListener.java:39-78 | The five refusals use five different message keys. |
| `LoginListener.DdosKickKey` | src/main/java/com/chiraitori/ipblock/listener/PlayerLoginListener.java:36-44 | Blacklist reasons map to `kick-blacklist`; overload and too-many-connections map to `kick-ddos`. |
| `LoginListener.ModesAreOpposite` | src/main/java/com/chiraitori/ipblock/listener/PlayerLoginListener.java:69-74 | For a fixed code and country list, any mode other than "whitelist" gives the opposite verdict, which is the "blacklist" verdict. |
| `LoginListener.CountryVerdict` | src/main/java/com/chiraitori/ipblock/listener/PlayerLoginListener.java:53-79 | No GeoIP database: admit. Unknown country: `kick-unknown` exactly when unknown countries are not allowed. Known country: admit exactly when the country rule allows it, else `kick-country`. |
| `LoginListener.CountryExamples` | src/main/java/com/chiraitori/ipblock/listener/PlayerLoginListener.java:61-79 | Whitelist {"VN"}: "VN" is admitted and "US" is refused. An unknown country is refused unless allowed. |
| `LoginListener.OnPlayerPreLogin` | src/main/java/com/chiraitori/ipblock/listener/PlayerLoginListener.java:20-84 | Whitelisted and allowed local addresses are admitted before any service runs. Otherwise the anti-DDoS check runs once, and its refusal ends the decision with the rate limiter untouched. A rate-limited address is kicked without a recorded attempt. Otherwise one attempt is recorded and the GeoIP stages decide. |
| `LoginListener.BlockingAttemptIsNotRefused` | src/main/java/com/chiraitori/ipblock/listener/PlayerLoginListener.java:47-51 | The attempt that triggers the rate-limit block is judged by the GeoIP stages alone. The next login while the block lasts gets `kick-ratelimit`, if it passes the anti-DDoS check. |

## Left out

- Logging: console warnings, `LoggingService` and the log line built for each kick. The DDoS-detected warning appears only as `Outcome.ddosAlarm`.
- Webhook notifications to Discord and Telegram: these are network side effects.
- The GeoIP database, its download, and `getCountryName`. The lookup result is the `GeoIP` input record.
- `InetAddress` classification (loopback, site-local, link-local): these are input flags of `Address`, because the JDK code is not part of this model.
- Java strings that are not well-formed UTF-16 (an unpaired surrogate) cannot be represented: a Dafny `char` is a Unicode scalar value. For well-formed text `trim`, `startsWith` and `contains` agree with Java's.
- The file system: whether `blacklist.txt` exists is the `Option` given to `LoadBlacklist`. Read and write `IOException`s are not modelled. The JVM's line separator is a parameter.
- Concurrency: the `ConcurrentHashMap` atomicity, the separate `getAndSet` and `set` on the global counter, and the scheduled cleanup threads. The model is one sequential state, and sweeps happen only when `Cleanup` is called.
- Clock reads: the Java code reads `System.currentTimeMillis()` several times within one check. The model uses one `now` per call.
- Configuration loading, message lookup and the admin commands. `IPBlockCommand.checkIP` repeats the country rule in `CountryAllowed`. The `mode` string is taken as already lower-cased.
- The statistics getters and `close`: they only read fields or stop the scheduler.
- AntiDDoS.CheckConnection: counters and times are unbounded integers, so Java's `int` wrap-around after 2^31 connections is not modelled.
- AntiDDoS.AddTempBlock: the block duration `tempBlockMinutes * 60 * 1000` is exact. The Java code computes `tempBlockMinutes * 60` in `int` first, which overflows only for settings over about 35 million minutes.
- RateLimit.RecordAttempt: the same holds for `blockDurationMinutes * 60 * 1000` and for the `int` attempt count.
