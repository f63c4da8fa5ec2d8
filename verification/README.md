# Verified model of the protocols behind the service

The program is the back end of a web service: HTTP handlers over MySQL and Redis. Most of it moves data.
This project models the parts that keep state under interleaving, expiry and failure, and proves what
they promise over every run. Each module follows one part of the program:

| module | what it models |
|---|---|
| `RateLimiter` | the token buckets of the HTTP layer and the sweeper that deletes the idle ones |
| `LeaseLock` | the lease lock on a Redis key, with command latency and lost replies |
| `AppConfig` | the encrypted settings table: writing, reading, soft migration, change of the master key |
| `RefreshTokens` | rotation of refresh tokens, the blacklist and its grace period |
| `OneTimeCredentials` | the one-time registration key and the pending session between two login factors |
| `PasswordTransport` | key derivation, CBC and padding of a password on its way from the browser |
| `Quota` | the ledger of used and reserved bytes, on 64-bit integers |
| `StorageConfig` | saving, loading and cutting over a user's storage configuration |
| `ConfigCache` | the five-minute cache of that configuration |
| `StorageKeys` | object keys, their owners, and deleting all objects of one user |
| `EmailMigration` | the lazy move from plain e-mails to ciphertexts with a keyed hash |
| `MasterKeys` | the life of a user's master key in the database, in memory and in Redis |
| `EncryptPasses` | the passes that encrypt a user's stored fields in place |

`Sealing` is encryption as a term algebra: what was sealed opens under the same key and cipher only, and
nothing has to be assumed about ciphers. `Rows` is a SELECT in any order; `Wrappers` has Option and Result.

How the modules are built. Code that changes state is a class whose methods are proved equal to a
specification step (`Next`, `After…`); runs are sequences of such steps, and the main results are about
every run. Time is a natural number. Clock readings, random bytes and the outcome of calls to the database
or to Redis are parameters, so a method's promise holds for every pattern of failures; the modules that
still leave failures out are named below. A transaction is a copy of the table that is assigned back on
commit.

Where a promise does not hold of the code, the lemma gives the exact condition under which it does:

- The sweeper is invisible as long as an `Allow` call pauses for at most 59 minutes 59.8 seconds and one
  nanosecond between its two clock readings, and no longer (`RateLimiter.SweepUnobservable`).
- A renewal of less than a millisecond reports success and deletes the lock (`LeaseLock.RenewedFor`). The
  leases are backed exactly as long as no release is executed inside a lease of its own sender
  (`LeaseLock.BackedIffReleasesMiss`); giving each attempt its own token is enough for that.
- A value that looks encrypted when it is set does not come back (`AppConfig.SetThenGet`); a change of the
  master key loses values only that are encrypted under keys that are not sensitive
  (`AppConfig.RekeyPreservesReads`). The soft migration selects outside its transaction: it loses exactly the
  writes that change a selected secret in between (`AppConfig.DisturbedMigration`).
- The comments speak of 10 seconds of grace after a rotation. Every accepted refresh writes the timestamp
  anew, so the grace period slides (`RefreshTokens.SuccessiveAcceptances`, `RefreshTokens.GraceSlides`), and
  every mark opens it again, by a logout or by a refresh that checked the token long before
  (`RefreshTokens.MarkReopensGrace`, `RefreshTokens.RejectionIsFinalIff`). A refresh in the second in which the token was
  issued hands out the very string that it blacklists (`RefreshTokens.HandedOutTokenWorks`).
- The registration key is deleted when `DecryptPassword` returns. It is used at most as often as it was put
  exactly when the calls for one client do not overlap (`OneTimeCredentials.UsesBoundedIff`).
- A registration does not look its address up. It succeeds beside an unmigrated row with that address
  (`EmailMigration.CreationKeepsUnique`), and lookups stay right exactly in the runs where that does not
  happen (`EmailMigration.LookupsKeptIff`); otherwise the old row can never be migrated
  (`EmailMigration.CreationBlocks`, `EmailMigration.TakenAddressBlocks`).
- Only a login that migrates a user, and learns of it, starts the check that makes the hash column NOT NULL.
  If the last check fails, the process restarts before it ran, or the last user is deleted, the column stays
  nullable for good (`EmailMigration.GetsStuckIff`, `EmailMigration.StuckForGood`).
- A failed save, a reset, or a rewrap with a key other than the user's own leaves memory, Redis and the
  database in disagreement or loses the key (`MasterKeys.StepKeepsIffLegal`). With callers that avoid all of
  these it takes two overlapping creations for one user (`MasterKeys.OneKeyIffCreationsApart`).
- With quota 0 the handler advertises nothing and reservations are unlimited
  (`Quota.UnlimitedAdvertisesNothing`).
- Source and target of a storage migration are found only by a stale hit, and then are the same store: a hit
  has no credentials, and no endpoint passes both the check and the client (`ConfigCache.NothingDials`,
  `ConfigCache.PairResolvesIffStale`).
- A pass that encrypts a field loses what others wrote to it since the pass read it, and nothing else
  (`EncryptPasses.DisturbedPassInvisibleIff`).
- A load of the configuration that pauses between the database and the cache extends the staleness by its
  pause (`ConfigCache.BoundedStaleness`, `ConfigCache.StalenessIsSharp`).

## Model

| member | source | states |
|---|---|---|
| RateLimiter.Limiter.Allow | internal/delivery/http/server.go:277-292 | one call creates a missing bucket, stamps it and asks it; the map and the answer are those of the specification step |
| RateLimiter.Limiter.CleanupLimiter | internal/delivery/http/server.go:264-271 | one tick deletes exactly the clients not seen for more than an hour |
| RateLimiter.RunSimulates | internal/delivery/http/server.go:258-292 | every decision of the sweeping limiter equals that of a limiter that never deletes, from any pair of states in simulation |
| RateLimiter.SweepUnobservable | internal/delivery/http/server.go:258-292 | deletion is unobservable over all runs if and only if the two clock readings of a call are at most MAX_STALL apart |
| RateLimiter.StalledRunIsObserved | internal/delivery/http/server.go:290-291 | the run that shows the difference when a call pauses one nanosecond longer |
| RateLimiter.BurstAtOnce | internal/delivery/http/server.go:277-292 | the n-th of n calls at one instant passes exactly when the bucket held n requests' worth |
| RateLimiter.WindowBound | internal/config/config.go:36-41 | what passes in a window never exceeds a full bucket and the refill of the window, from any state |
| RateLimiter.TrafficBound | internal/delivery/http/server.go:258-292 | in any window of T seconds of any run at most 10 + 5 T calls of one client pass, deletions included |
| RateLimiter.LevelIsLeastAllowance | internal/delivery/http/server.go:277-292 | the level of a bucket is the least of what all windows that end now allow, and some window attains it |
| RateLimiter.PassesIffNoWindowIsFull | internal/delivery/http/server.go:277-292 | a call passes if and only if no window that ends with it is full: the limiter is exactly the sliding-window rule |
| RateLimiter.KeptIffSeen | internal/delivery/http/server.go:264-290 | over any run the map holds exactly the clients that no sweep found unseen for more than an hour |
| LeaseLock.RedisClient.TryLock | internal/infrastructure/redis/client.go:20-26 | acquires a lock that is not live for at least a millisecond, refuses one that is, rejects bad arguments |
| LeaseLock.RedisClient.RenewLock | internal/infrastructure/redis/client.go:39-52 | extends the owner's lock by the truncated time, which may be none; an error for everybody else |
| LeaseLock.RedisClient.Unlock | internal/infrastructure/redis/client.go:29-36 | deletes the lock if and only if the caller's token holds it |
| LeaseLock.AcquiresIff | internal/infrastructure/redis/client.go:20-26 | an attempt is granted exactly if the lock is free, and the lock is then live for the time asked for in whole milliseconds, at least one |
| LeaseLock.RenewsIff | internal/infrastructure/redis/client.go:39-52 | a renewal is granted exactly to the owner, for the time asked for in whole milliseconds, possibly none |
| LeaseLock.ReleasesIff | internal/infrastructure/redis/client.go:29-36 | a release deletes exactly the owner's live lock and nothing else |
| LeaseLock.RenewedFor | internal/infrastructure/redis/client.go:39-52 | a renewal leaves exactly the requested time if and only if that is whole milliseconds, and the lock live if and only if it is at least one |
| LeaseLock.CountsOnLease | internal/infrastructure/redis/client.go:18-52 | how long a worker counts on a lease that was granted and answered |
| LeaseLock.StepBackedIff | internal/infrastructure/redis/client.go:18-52 | a step leaves every lease that a worker counts on backed by Redis if and only if it is no release that hits a lease of its own sender |
| LeaseLock.BackedIffReleasesMiss | internal/infrastructure/redis/client.go:18-52 | all leases are backed all through a run, with lost replies, delays and foreign commands, if and only if no release is executed while its own lock and token are inside a lease |
| LeaseLock.MutualExclusion | internal/infrastructure/redis/client.go:18-52 | at most one worker is inside its lease of a lock, in every state of every run whose releases hit no lease |
| LeaseLock.HitLeaseLetsOthersIn | internal/infrastructure/redis/client.go:28-36 | the first release that hits its own lease lets anybody else in beside its sender |
| LeaseLock.FreshTokensSuffice | internal/infrastructure/redis/client.go:18-52 | if each attempt to acquire a lock has its own token, no release hits a lease |
| LeaseLock.ReusedTokenHitsLease | internal/infrastructure/redis/client.go:28-36 | a run in which a delayed release does, under a token used again |
| LeaseLock.HeldLockIsSafe | internal/infrastructure/redis/client.go:28-52 | no command under another token or for another key changes a held lock |
| LeaseLock.LeaseExcludes | internal/infrastructure/redis/client.go:20-26 | while one worker is inside its lease every other attempt is refused and changes nothing |
| LeaseLock.LockComesFree | internal/infrastructure/redis/client.go:20-26 | in any run a lock is free, and the next attempt gets it, at most the longest time to live, in whole milliseconds, after the last attempt to acquire or renew it |
| AppConfig.Repository.SetAppConfig | internal/repository/mysql/app_config.go:13-30 | writes the prepared value of one key, or fails and changes nothing |
| AppConfig.Repository.GetAppConfig | internal/repository/mysql/app_config.go:34-52 | the decoded value, the empty text for a missing key, an error for what cannot be decoded |
| AppConfig.Repository.GetAllAppConfig | internal/repository/mysql/app_config.go:55-78 | every key with its decoded value; an error only if one cannot be decoded or the database fails |
| AppConfig.Repository.EncryptAppConfigSensitiveValues | internal/repository/mysql/app_config_crypto.go:53-111 | the plain secrets that it selected are encrypted at once, over whatever others wrote since; on an error at any step, none |
| AppConfig.Repository.RekeyAppConfigSensitiveValues | internal/repository/mysql/app_config_crypto.go:145-264 | re-encrypts and reports exactly the non-empty sensitive values; any error and any dry run leave the table identical; it fails only for a bad environment, a value that does not open, or a failing call |
| AppConfig.CollectPlaintext | internal/repository/mysql/app_config_crypto.go:71-88 | collects each plain secret of the rows read, encrypted, in order |
| AppConfig.OverwriteCollected | internal/repository/mysql/app_config_crypto.go:99-105 | every collected row that still exists gets its new value, and no other row changes |
| AppConfig.CollectRekeyItems | internal/repository/mysql/app_config_crypto.go:169-199 | collects each sensitive value of the rows read, decrypted under the old key and encrypted under the new one |
| AppConfig.ApplyRekeyItems | internal/repository/mysql/app_config_crypto.go:231-257 | writes every item and touches nothing else; the read-back never rejects what was written |
| AppConfig.SensitiveIff | internal/repository/mysql/app_config_crypto.go:21-29 | which keys are sensitive |
| AppConfig.RekeyRefusedIff | internal/repository/mysql/app_config_crypto.go:114-133 | a rekey is refused exactly if a key is missing or the two are one core with blanks around it |
| AppConfig.GetIff | internal/repository/mysql/app_config_crypto.go:283-295 | exactly what each stored value reads as, a missing key as the empty text |
| AppConfig.SetThenGet | internal/repository/mysql/app_config_crypto.go:266-295 | set then get returns the value if and only if it does not start with the prefix; other keys read the same |
| AppConfig.SoftMigration | internal/repository/mysql/app_config_crypto.go:53-111 | undisturbed, no reader sees the migration, every sensitive value that is not empty is encrypted, and a second one changes nothing |
| AppConfig.DisturbedMigration | internal/repository/mysql/app_config_crypto.go:65-105 | with writes of others after the SELECT, no reader sees the migration if and only if no selected secret was given another value |
| AppConfig.RekeyPreservesReads | internal/repository/mysql/app_config_crypto.go:145-264 | every key reads under the new master key as under the old one if and only if no value either key opens sits under a key that is not sensitive |
| AppConfig.RekeySealsAll | internal/repository/mysql/app_config_crypto.go:169-194 | after a committed rekey every sensitive value that is not empty is sealed with the new master key, around what it was |
| AppConfig.TableRefinesPlainSettings | internal/repository/mysql/app_config.go:13-78 | from any table of settings, in the clear or not, over any run of writes, first master keys, soft migrations and rekeys the table reads as a plain map of the values last written |
| AppConfig.SecretsStaySealed | internal/repository/mysql/app_config_crypto.go:266-281 | with a master key configured and every sensitive value encrypted or empty, every run leaves it so |
| AppConfig.MigrationSealsForGood | internal/repository/mysql/app_config_crypto.go:53-111 | that is the case for ever from the first undisturbed soft migration on |
| RefreshTokens.Exam.CheckBlacklist | internal/infrastructure/security/exam.go:272-293 | blacklisted from the tenth second after the stamp until the mark expires |
| RefreshTokens.Exam.GenerateAccessToken | internal/infrastructure/security/exam.go:177-215 | a short and a long token with claims in whole seconds: the same strings for one user and client within a second |
| RefreshTokens.Exam.CheckRefresh | internal/delivery/http/auth.go:369-387 | passes if and only if the token is not blacklisted and verifies |
| RefreshTokens.Exam.ExchangeToken | internal/delivery/http/auth.go:389-400 | issues the new pair and marks the old token, whatever has happened since the checks |
| RefreshTokens.Exam.RefreshToken | internal/delivery/http/auth.go:361-400 | an uninterrupted refresh is its two steps; a rejected token changes nothing |
| RefreshTokens.Exam.Logout | internal/delivery/http/auth.go:594-599 | marks whatever token it is given, without any check |
| RefreshTokens.RunInv | internal/delivery/http/auth.go:383-393 | in every run a mark on a genuine token outlives the token's expiry, although strings can be issued twice |
| RefreshTokens.AcceptsIssuedOnly | internal/delivery/http/auth.go:369-387 | only tokens that were handed out and have not expired are accepted, and without a mark they are |
| RefreshTokens.NewTokenClaims | internal/infrastructure/security/exam.go:177-199 | the claims of the long and the short token, a week and half an hour |
| RefreshTokens.StepHandsOut | internal/delivery/http/auth.go:383-394 | which tokens a step hands out and marks, and for how long |
| RefreshTokens.RejectedIffDead | internal/infrastructure/security/exam.go:272-293 | which tokens are rejected now: those that expired or were marked ten seconds ago by a mark that outlives them |
| RefreshTokens.RevivedIffMarked | internal/delivery/http/auth.go:389-394 | a rejected token becomes acceptable again if and only if it is marked anew, by a logout or a slow refresh, before it expires |
| RefreshTokens.RejectedForever | internal/delivery/http/auth.go:361-400 | in every run a token that was rejected once is rejected for ever, unless it is marked anew in between |
| RefreshTokens.RejectionIsFinal | internal/delivery/http/auth.go:361-400 | in every run, with calls that overlap, a rejection is final if nobody logs out with the token and no refresh of it was under way |
| RefreshTokens.RejectionIsFinalIff | internal/delivery/http/auth.go:361-400 | a rejection is final in all continuations without a logout if and only if no refresh of the token is under way or it has expired |
| RefreshTokens.SlowRefreshRevives | internal/delivery/http/auth.go:389-394 | the continuation in which a refresh that checked in time marks late |
| RefreshTokens.MarkReopensGrace | internal/delivery/http/auth.go:594-599 | after a mark at any point of any run the unexpired token is accepted at once |
| RefreshTokens.AcceptedByMark | internal/infrastructure/security/exam.go:272-293 | an unmarked token is accepted if and only if it has not expired and a mark that it had before is within its grace period |
| RefreshTokens.SuccessiveAcceptances | internal/infrastructure/security/exam.go:287-290 | an exchanged token is accepted again if and only if it has not expired and the tenth full second after the exchange has not begun, so less than 10 seconds later |
| RefreshTokens.GraceSlides | internal/delivery/http/auth.go:391-394 | each refresh opens the grace period in full again, for exactly the instants stated |
| RefreshTokens.HandedOutTokenWorks | internal/delivery/http/auth.go:383-394 | the new token works until it expires, unless exchanged or logged out with, if and only if it is another string than the old one and was not marked in that second |
| RefreshTokens.SameStringIff | internal/infrastructure/security/exam.go:188-196 | the new token is the old string exactly if that is a refresh token of the same second |
| OneTimeCredentials.Exam.AddRegUser | internal/infrastructure/security/exam.go:154-174 | stores a key for the client, replacing an earlier one, as one put of the protocol |
| OneTimeCredentials.Exam.ReadRegKey | internal/infrastructure/security/exam.go:315-327 | yields the stored key if and only if it is there and at most 30 seconds old |
| OneTimeCredentials.Exam.DropRegKey | internal/infrastructure/security/exam.go:317-318 | removes the client's key and no other, as one deletion of the protocol |
| OneTimeCredentials.Exam.DecryptPassword | internal/infrastructure/security/exam.go:313-331 | uninterrupted: the password opens only with a key in time, and the key is gone in any case |
| OneTimeCredentials.UsedAtMostAsOftenAsPut | internal/infrastructure/security/exam.go:153-331 | uses never exceed puts over any run without overlapping readers, with deletions at any moment |
| OneTimeCredentials.UsesBoundedIff | internal/infrastructure/security/exam.go:312-331 | uses never exceed puts in all runs with at most a given number of calls for one client at a time, if and only if that number is at most 1 |
| OneTimeCredentials.OverlappingReadersUseTwice | internal/infrastructure/security/exam.go:317-330 | two overlapping readers use one key twice, after any run |
| OneTimeCredentials.UsedInTime | internal/infrastructure/security/exam.go:324-327 | every use comes at most the time to live after a put of the same credential |
| OneTimeCredentials.UsableUntilExpiry | internal/infrastructure/security/exam.go:313-331 | a credential put, and neither put again nor removed, is usable exactly until its time to live ends |
| OneTimeCredentials.TimesToLive | internal/infrastructure/security/exam.go:324-327 | 30 seconds for a registration key, five minutes for a pending session |
| OneTimeCredentials.TotpStore.StoreTotpPending | internal/delivery/http/totp.go:41-46 | stores a pending session that expires in five minutes, as one put of the protocol |
| OneTimeCredentials.TotpStore.LoadAndDeleteTotpPending | internal/delivery/http/totp.go:49-59 | removes the session in any case and yields it if and only if it has not expired |
| OneTimeCredentials.TotpStore.CleanupTotpPending | internal/delivery/http/totp.go:71-77 | removes exactly the expired sessions; no session that can still be used is lost |
| OneTimeCredentials.TakenAtMostOnce | internal/delivery/http/totp.go:289-306 | a pending token lets at most as many codes be checked as it was stored times |
| PasswordTransport.Append | internal/infrastructure/security/exam.go:379-387 | Go's append: in place when there is room, else into a new array; what lies before and behind is untouched |
| PasswordTransport.NextData | internal/infrastructure/security/exam.go:386-387 | the data of the next round is hash, password and salt in an array of its own; the password is intact |
| PasswordTransport.DeriveKeyAndIV | internal/infrastructure/security/exam.go:374-395 | exactly the 48 bytes D1 D2 D3 of the MD5 chain, whatever room the password's array has, and the password is intact |
| PasswordTransport.MaterialOfThree | internal/infrastructure/security/exam.go:374-395 | the three digests of key and initial vector spelled out |
| PasswordTransport.DecryptAESPassword | internal/infrastructure/security/exam.go:334-371 | its outcome, an error, a panic or a password, is that of the receiver's specification |
| PasswordTransport.BlocksRoundTrip | internal/infrastructure/security/exam.go:359-362 | CBC decryption inverts CBC encryption for every data and initial vector |
| PasswordTransport.CipherBlock | internal/infrastructure/security/exam.go:359-362 | each ciphertext block is the cipher of the plain block added to the one before it, as in section 6.2 of NIST SP 800-38A |
| PasswordTransport.PadRoundTrip | internal/infrastructure/security/exam.go:364-368 | removing the padding inverts adding it, for every length |
| PasswordTransport.PadsByCount | internal/infrastructure/security/exam.go:364-368 | between 1 and 16 bytes of padding, each of which is their number, as in section 6.3 of RFC 5652 |
| PasswordTransport.UnpadsByCount | internal/infrastructure/security/exam.go:364-368 | as many bytes are taken off as the last one says, if that is between 1 and 16 |
| PasswordTransport.TransportRoundTrip | internal/infrastructure/security/exam.go:334-371 | every password that the browser sends is received unchanged under the same passphrase |
| PasswordTransport.ReceivedAs | internal/infrastructure/security/exam.go:336-365 | exactly which messages are refused and which make the decryption panic |
| Quota.AdvertisedIsAccepted | internal/delivery/http/storage.go:147-153 | a reservation is accepted exactly when it fits the advertised space, and exactly when used + reserved + size <= quota without overflow |
| Quota.UnlimitedAdvertisesNothing | internal/repository/mysql/storage.go:134-136 | with quota 0 every size passes the test while the advertised space is 0 |
| Quota.SucceedsIff | internal/repository/mysql/storage.go:115-179 | for a limited user a reservation succeeds exactly if it fits the advertised space, a commit or release exactly if that much is reserved |
| Quota.SucceedsOtherwise | internal/repository/mysql/storage.go:105-226 | when operations succeed for everybody else |
| Quota.StepMoves | internal/repository/mysql/storage.go:105-226 | which bytes an operation moves; no operation changes a quota or another user's row |
| Quota.Repository.EnsureStorageQuota | internal/repository/mysql/storage.go:105-113 | creates a missing row and leaves an existing one as it is; a failed statement changes nothing, an unreported one is done all the same |
| Quota.Repository.ReserveStorage | internal/repository/mysql/storage.go:115-143 | adds to the reserved bytes if and only if the row exists and the quota allows it; a failed statement changes nothing, an unreported one is done all the same |
| Quota.Repository.CommitStorage | internal/repository/mysql/storage.go:145-161 | moves bytes from reserved to used if and only if that many are reserved; a failed statement changes nothing, an unreported one is done all the same |
| Quota.Repository.ReleaseStorage | internal/repository/mysql/storage.go:163-179 | takes bytes off the reservation if and only if that many are reserved; a failed statement changes nothing, an unreported one is done all the same |
| Quota.Repository.ResetStorageQuota | internal/repository/mysql/storage.go:181-187 | clears both counters of one user and keeps the quota; a failed statement changes nothing, an unreported one is done all the same |
| Quota.Repository.ReleaseAllReservedStorage | internal/repository/mysql/storage.go:220-226 | clears the reserved bytes of one user and keeps the used ones; a failed statement changes nothing, an unreported one is done all the same |
| Quota.StaysWithinQuota | internal/repository/mysql/storage.go:115-226 | no sequence of operations takes a limited user over the quota; a row already over it never grows |
| Quota.NoWrap | internal/repository/mysql/storage.go:134-168 | within the quota no operation meets a value out of 64 bits |
| Quota.UsedSinceReset | internal/repository/mysql/storage.go:145-187 | over any run the used bytes are those committed since the last reset, whatever other users do |
| Quota.ReservedSinceClearing | internal/repository/mysql/storage.go:115-226 | over any run the reserved bytes are those reserved and neither committed nor released since the last reset or release of everything |
| StorageConfig.Repository.StorageConfig | internal/repository/mysql/storage.go:16-55 | the stored configuration with open credentials, the internal default without a row, an error when the key is locked or the query fails |
| StorageConfig.Repository.SaveStorageConfig | internal/repository/mysql/storage.go:57-89 | writes one user's row, external credentials encrypted when the key is at hand, for each outcome of the statement |
| StorageConfig.Repository.Cutover | internal/app/storage.go:100-120 | reads the configuration and saves it with the type flipped, for each way to fail |
| StorageConfig.DecryptsIff | internal/repository/mysql/storage.go:98-103 | exactly what a stored credential reads as |
| StorageConfig.LoadsIff | internal/repository/mysql/storage.go:16-55 | exactly which configuration loads, the default without a row included |
| StorageConfig.SavesSealed | internal/repository/mysql/storage.go:57-96 | what a save keeps, drops and seals |
| StorageConfig.SaveThenLoad | internal/repository/mysql/storage.go:16-103 | an external configuration loads as it was saved if and only if no credential looked encrypted |
| StorageConfig.SavedLocked | internal/repository/mysql/storage.go:68-84 | saved without the key, it cannot be loaded without it and loads unchanged with it |
| StorageConfig.CredentialRoundTrip | internal/repository/mysql/storage.go:91-103 | encrypting changes nothing that a reader sees; reading twice is reading once unless the plain text looks encrypted |
| StorageConfig.OneCutover | internal/app/storage.go:100-120 | what one cutover keeps, flips and drops; the credentials read the same if and only if the configuration was internal or none was encrypted twice |
| StorageConfig.CutoversKeepCredentials | internal/app/storage.go:100-120 | over any run of cutovers, failing ones included, endpoint, bucket and readable credentials never change, the type alternates, and other users keep their rows |
| StorageConfig.CutoverTakesEffect | internal/app/storage.go:100-104 | with credentials that open, a run of cutovers never gets stuck on its own output |
| ConfigCache.StorageFactory.LoadCachedConfig | internal/infrastructure/storage/cache.go:48-61 | the live entry of the user, nothing without a cache |
| ConfigCache.StorageFactory.CachedBackendConfig | internal/infrastructure/storage/cache.go:29-45 | caches the part that is not secret for five minutes, or reports an error and changes nothing |
| ConfigCache.StorageFactory.LoadConfig | internal/infrastructure/storage/factory.go:55-76 | a hit without credentials, else the loaded configuration, which is cached; an error if a step fails |
| ConfigCache.MissLoadsStored | internal/infrastructure/storage/factory.go:66-75 | on a miss a load fails exactly if the database does, the configuration does not load or the cache refuses it; else it answers the stored configuration, and loads of the next five minutes hit it |
| ConfigCache.LoadIsBeginFinish | internal/infrastructure/storage/factory.go:55-76 | an uninterrupted load is the two steps of the protocol, or the first alone on a hit or an error, with the same answer and cache |
| ConfigCache.StorageFactory.Resolve | internal/infrastructure/storage/factory.go:36-53 | the backend of the configured type, and the cache that the load leaves |
| ConfigCache.StorageFactory.ResolveByType | internal/infrastructure/storage/factory.go:80-98 | the internal store, or an external one only if its credentials came with the configuration or a hit says external |
| ConfigCache.ResolvesIff | internal/infrastructure/storage/factory.go:36-98 | a load resolves to the internal store exactly if it answers that type, and to an external one never |
| ConfigCache.StorageFactory.ResolvePair | internal/app/storage.go:78-98 | finds source and target exactly under the stated condition on hit, stored type and endpoint |
| ConfigCache.NothingDials | internal/infrastructure/storage/factory.go:100-113 | the check demands an https URL of an endpoint that the client takes only without a scheme |
| ConfigCache.PairResolvesIffStale | internal/app/storage.go:78-98 | so source and target are found if and only if a stale hit says internal of a configuration that became external |
| ConfigCache.SaveIsSave | internal/repository/mysql/storage.go:57-89 | a save of the repository is the protocol's save of what is not secret, without the region of an internal store |
| ConfigCache.BoundedStaleness | internal/infrastructure/storage/factory.go:55-76 | every answer was in the database within the last five minutes plus the longest pause of a load, over any run of interleaved loads and saves |
| ConfigCache.CurrentUnlessSaved | internal/infrastructure/storage/factory.go:55-76 | it is the current one if nothing was saved for the user in that time |
| ConfigCache.StalenessIsSharp | internal/infrastructure/storage/factory.go:66-71 | for every pause, a run whose answer was replaced in the database that long ago |
| StorageKeys.DecimalRoundTrip | internal/delivery/http/storage.go:295 | printing a number is injective and never prints a slash |
| StorageKeys.DecimalDigits | internal/delivery/http/storage.go:295 | numbers are printed digit by digit |
| StorageKeys.ValidKeyIff | internal/delivery/http/storage.go:294-307 | the valid keys are exactly the paths of parts that are not empty, "." or "..", under the user's directory, without backslashes and control characters |
| StorageKeys.KeySpacesDisjoint | internal/delivery/http/storage.go:294-307 | no key lies under the prefixes of two users |
| StorageKeys.AcceptsIff | internal/delivery/http/storage.go:337-344 | exactly which file names are accepted |
| StorageKeys.UploadKeyIsValid | internal/delivery/http/storage.go:337-380 | every key built for an upload that passed the checks is valid for its owner |
| StorageKeys.UploadKeyInjective | internal/delivery/http/storage.go:374-380 | a key determines the user, the object and the file name |
| StorageKeys.Backend.DeleteAllStorageObjects | internal/delivery/http/storage.go:617-632 | deletes exactly the listed valid keys up to the first refusal and counts them; no object under another user's prefix is touched |
| StorageKeys.CountsValidKeys | internal/delivery/http/storage.go:617-629 | the reported number is that of the listed valid keys passed |
| StorageKeys.OnlyOwnObjectsDeleted | internal/delivery/http/storage.go:617-632 | nothing of anybody else is deleted, and a complete run leaves no listed valid key |
| EmailMigration.Repository.CheckEmail | internal/repository/mysql/auth.go:14-43 | a user that the address finds, 0 exactly when there is none, an error exactly when the query fails |
| EmailMigration.Repository.GetAuthData | internal/repository/mysql/security.go:23-56 | password hash and flags of a user that the address finds, and whether that user is still to be migrated |
| EmailMigration.Repository.MigrateUserSecurity | internal/repository/mysql/security.go:61-87 | rewrites the row only if it is unmigrated and the hash is free, and starts the final check exactly if it learns of it |
| EmailMigration.Repository.CheckAndFinalizeMigration | internal/repository/mysql/security.go:91-123 | one started check runs: it makes the column NOT NULL only when nobody is left, nothing fails and the flag is not set |
| EmailMigration.Repository.InsertUser | internal/repository/mysql/auth.go:45-163 | adds one migrated row, or rolls back: on a failing statement, or when another row has the hash |
| EmailMigration.Repository.DeleteAllUserData | internal/repository/mysql/user.go:215-239 | takes the user's row out, or nothing |
| EmailMigration.Repository.MarkConfirmed | internal/repository/mysql/auth.go:212-243 | confirms the matching users; an error when all of them were confirmed, none matches or the statement is not reported |
| EmailMigration.Repository.ChangePassword | internal/repository/mysql/auth.go:245-276 | sets the hash of exactly the matching users; an error when none matches or the statement is not reported |
| EmailMigration.FindsByAddress | internal/repository/mysql/auth.go:20-23 | a lookup finds exactly the one user of the address, plain or hashed, up to case |
| EmailMigration.LowerIff | internal/infrastructure/security/exam.go:482-489 | addresses are the same in lower case exactly if they differ in the case of letters only |
| EmailMigration.StoredIsLastGiven | internal/repository/mysql/auth.go:45-276 | after any run a user's hash is the last one that a registration, a migration or a change of password gave it, and it is confirmed exactly if a confirmation reached it since it registered |
| EmailMigration.ChangeReachesFound | internal/repository/mysql/auth.go:245-276 | a change of password reaches exactly the users that the address finds, who go on being found |
| EmailMigration.MigrationKeepsLookups | internal/repository/mysql/security.go:69-71 | a migration leaves every lookup as it was if and only if it was given the user's own address |
| EmailMigration.CreationKeepsUnique | internal/usecase/auth/auth.go:64-91 | a registration is accepted exactly if it finds only unmigrated users, and then keeps addresses unique exactly if it finds nobody |
| EmailMigration.LookupsKeptIff | internal/repository/mysql/security.go:61-87 | all through a run addresses stay unique and in place if and only if each effective migration had the user's own address and each accepted registration found nobody |
| EmailMigration.RunKeepsLookups | internal/repository/mysql/security.go:61-87 | over every such run, rejected registrations included, each address keeps finding the same single user until that is deleted |
| EmailMigration.RunMigrates | internal/repository/mysql/security.go:66-84 | over every run whatever the users left are those at the start without the ones migrated or deleted since |
| EmailMigration.UnmigratedFall | internal/repository/mysql/security.go:66-84 | over every run whatever their number never rises and falls by one with each of them |
| EmailMigration.MigrationFinishes | internal/repository/mysql/security.go:61-87 | once every old user has logged in nobody is left, beside any registrations that are rejected or find nobody |
| EmailMigration.SchemaChangesOnce | internal/repository/mysql/security.go:91-123 | over every run the schema changes at most once more often than the program took a change for failed, and no row without a hash is there afterwards |
| EmailMigration.ColumnClosesIff | internal/repository/mysql/security.go:81-123 | the column becomes NOT NULL if and only if a check that was started runs without failing when nobody is left |
| EmailMigration.LastLoginStartsCheck | internal/repository/mysql/security.go:69-84 | an effective migration starts a check if and only if it is reported, and that check closes the column if and only if the user was the last |
| EmailMigration.GetsStuckIff | internal/repository/mysql/security.go:69-119 | the migration gets stuck if and only if, with nobody left, the process restarts or its last check fails, or, with no check under way, the last user is deleted or migrated unreported |
| EmailMigration.StuckForGood | internal/repository/mysql/security.go:81-84 | nobody left, nullable and no check under way is preserved by every run: no later login starts a check |
| EmailMigration.CreationBlocks | internal/repository/mysql/auth.go:104-118 | a creation that is accepted although its address finds a user takes the hash of that user's address |
| EmailMigration.StaysBlockedIff | internal/repository/mysql/auth.go:104-118 | a user whose hash another row has taken stays blocked if and only if neither of the two is deleted |
| EmailMigration.TakenAddressBlocks | internal/repository/mysql/auth.go:104-118 | so, unless one of them is deleted, that user is never migrated and the migration never finishes |
| MasterKeys.Service.GenerateAndWrapMasterKey | internal/infrastructure/security/exam.go:688-711 | wraps the new key with the password and unlocks it, whether or not Redis takes it |
| MasterKeys.Service.LoadMasterKey | internal/infrastructure/security/exam.go:729-779 | unlocks the wrapped key if and only if the password is the one it was wrapped with |
| MasterKeys.Service.CheckCreation | internal/usecase/masterkey/masterkey.go:27-49 | passes if and only if the user exists, has no key and gave the right password |
| MasterKeys.Service.FinishCreation | internal/usecase/masterkey/masterkey.go:51-106 | a key in memory and Redis, in the database if the save succeeds, over whatever is there by then; returned only if the passes succeed |
| MasterKeys.Service.CreateMasterKey | internal/usecase/masterkey/masterkey.go:26-106 | an uninterrupted creation is the check step and the finish step |
| MasterKeys.Service.RewrapOrReset | internal/usecase/masterkey/masterkey.go:128-157 | rewraps the given key or clears the wrap, and leaves memory and Redis alone |
| MasterKeys.Service.LoadAllMasterKeysFromRedis | internal/infrastructure/security/exam.go:896-934 | memory after a restart holds exactly the live entries sealed with the current application key |
| MasterKeys.CreatesIff | internal/usecase/masterkey/masterkey.go:27-74 | a creation makes a key exactly for an existing user without one who gave the account's password, wrapped under that password; else it changes nothing |
| MasterKeys.RewrapsIff | internal/usecase/masterkey/masterkey.go:128-157 | which wrap a rewrap or reset leaves, and that it touches nothing else |
| MasterKeys.LogInIff | internal/delivery/http/totp.go:350-357 | a login puts the key into memory exactly under the password of the wrap |
| MasterKeys.SurvivesRestart | internal/infrastructure/security/exam.go:854-934 | for how long Redis keeps a key, and which restarts bring it back |
| MasterKeys.WrapsCheckedPassword | internal/usecase/masterkey/masterkey.go:36-74 | in every run a creation saves a wrap only under the password that the row held when it was begun |
| MasterKeys.AccountPasswordOpensKey | internal/usecase/masterkey/masterkey.go:36-74 | from a creation on the account's password, and no other, opens the key, until it is changed or the key rewrapped |
| MasterKeys.PasswordIsLastSet | internal/repository/mysql/auth.go:245-276 | the account's password is the one last set |
| MasterKeys.StepKeepsIffLegal | internal/usecase/masterkey/masterkey.go:26-157 | a step keeps everybody's key and the three places in agreement if and only if it is no failed save, no second creation, no reset of a key and no rewrap with another key |
| MasterKeys.OneKeyForLife | internal/infrastructure/security/exam.go:688-934 | over any legal run, restarts included, the wrap opens with the latest password to the first key, and memory and Redis hold that key or nothing |
| MasterKeys.OverlappingCreationsReplaceKey | internal/usecase/masterkey/masterkey.go:27-74 | of two overlapping creations for one user the second to finish replaces the key of the first, in any state |
| MasterKeys.OneKeyIffCreationsApart | internal/usecase/masterkey/masterkey.go:26-157 | with careful callers everybody keeps one key for life in all runs with at most a given number of creations of one user at a time, if and only if that number is at most 1 |
| EncryptPasses.Repository.EncryptCell | internal/repository/mysql/security.go:436-447 | one field is encrypted and written, or skipped if either call fails |
| EncryptPasses.Repository.EncryptCollected | internal/repository/mysql/api_keys.go:60-76 | of the collected fields exactly those stay plain whose own calls failed; every intermediate table is mere progress |
| EncryptPasses.Repository.Collect | internal/repository/mysql/api_keys.go:36-50 | all eligible fields of the user, each once |
| EncryptPasses.Repository.EncryptRows | internal/repository/mysql/api_keys.go:19-81 | the pass over API keys, and over dialogs: exact outcome field by field, and no write when nothing is eligible |
| EncryptPasses.Repository.EncryptColumns | internal/repository/mysql/security.go:361-380 | of the six columns exactly those eligible ones stay plain whose own calls failed |
| EncryptPasses.Repository.EncryptChannels | internal/repository/mysql/security.go:330-392 | the same for the user's row, which may be missing |
| EncryptPasses.Repository.EncryptGoogleToken | internal/repository/mysql/security.go:459-516 | both tokens in one write; a token whose encryption fails stays as it is, a failing write changes neither |
| EncryptPasses.Repository.EncryptUserData | internal/usecase/masterkey/masterkey.go:76-88 | the four passes in order: every intermediate table is mere progress, nothing eligible is left without failures, and a second round writes nothing |
| EncryptPasses.ReadsIff | internal/repository/mysql/security.go:299-326 | exactly what a stored field reads as |
| EncryptPasses.ClearedMeansEncrypted | internal/repository/mysql/security.go:330-516 | what a pass without failures achieves, kind by kind of field |
| EncryptPasses.ProgressIsTheUsers | internal/repository/mysql/security.go:330-516 | only the user's own fields change, and only those that the pass is about |
| EncryptPasses.ProgressIsInvisible | internal/repository/mysql/security.go:299-326 | whatever fields were reached, every field reads as before through decrypt-if-prefixed |
| EncryptPasses.ProgressTransitive | internal/repository/mysql/security.go:326-516 | progress after progress is progress: no field is encrypted twice |
| EncryptPasses.PassIsInvisible | internal/repository/mysql/security.go:326-516 | after each single write of a pass every field reads as it did at the start |
| EncryptPasses.InvisibleIffKeyHeld | internal/repository/mysql/security.go:299-326 | to a reader with whatever key a pass is invisible if and only if it is the key of the pass, or nothing was written |
| EncryptPasses.DisturbedPassInvisibleIff | internal/repository/mysql/security.go:396-447 | beside edits by others a pass is invisible all the time if and only if each of its writes meets a field that still reads as the pass read it |

## Left out

- RateLimiter.Limiter.Allow: `rate.Limiter` of golang.org/x/time is not part of the repository; it computes with floating point, the model exactly.
- RateLimiter: the map holds client entries as values, not pointers; the ticker loop is any sequence of single ticks; its cancellation is left out.
- LeaseLock: a key is live strictly before its expiry; rounding of the expiry by the Redis client library is taken from that library's behaviour; the check for a missing client and commands that never reach Redis are left out.
- AppConfig.SetThenGet: keys are compared byte for byte, while the column's collation (migrations/air.sql:24-28) makes keys that differ in case one row.
- AppConfig: the kinds of error are one Failure; the blanks around a key are the ASCII ones; where the keys come from is a parameter; a failed commit counts as not applied; a value that has the prefix but is no ciphertext opens under no key.
- RefreshTokens: the clock readings of one step coincide (`GenerateAccessToken` reads it four times); Redis is up; the token is its claims, while the blacklist's key is the string, of which the parser may accept other spellings; the handler answers 401 and goes on when the time to live of the master key cannot be refreshed, but response codes are not modelled; the rotation of the session key is left out.
- OneTimeCredentials: simultaneous access to the unguarded Go map is not modelled, only interleaving; the random tokens need not be unique for what is proved; a pending session holds only the fields that matter here.
- PasswordTransport: base64 is a parameter, MD5 and the block cipher are abstract functions.
- Quota: `StorageQuota` and `ListReservedUsers` only read.
- StorageConfig: the type of a configuration is internal or external, so that the error for an empty type is left out; so are the random generator's errors, which act as a failed write.
- ConfigCache: how a URL is parsed is taken from Go's library; of the check of an endpoint only the scheme is modelled, the rest of it is a parameter; so are entries that are not JSON, as missing ones; the callback on locked storage is left out.
- StorageKeys: characters stand for bytes; blanks beyond ASCII in a file name are accepted by the model and refused by the handler when nothing else is in it; the listing is a parameter.
- EmailMigration: one row of user_auth for each user; the collation is modelled as ignoring case in ASCII; ciphertexts of addresses do not collide with addresses or each other; the other tables of `CreateUser` and `DeleteAllUserData` are present as possible failures; a new password hash differs from the stored one, so that rows found are rows changed.
- MasterKeys: each use case is one step, and a creation two; generating, unlocking and saving a new key are one of them, so that the key that a creation reads back from memory is its own; a reset password is `SetPassword` followed by a rewrap or a reset; base64 is left out; a failed read of Redis at the start acts as an expired entry; errors of the database before the first write act as early exits.
- EncryptPasses: the passes over vector documents, CRM, storage configuration and bots, which depend on a library that is not part of the repository; its prefixes are those the comments name; progress messages; the methods of the passes run without edits by others, which only the lemmas about steps have.
- The storage migration worker and `ReservationService`: their claims are about other use cases.
- HTTP routing, gRPC, SMTP, Telegram, Google, metrics and the rest of the input and output: no state with an invariant.
