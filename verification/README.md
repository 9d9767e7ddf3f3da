# A verified model of keylatch's stateful core

keylatch is a credential broker: it keeps secrets in an encrypted vault, hands out short-lived tokens, and
records what it does in a tamper-evident audit log. This project models six pieces of it in Dafny and proves
what their code is for. `dafny verify dfyconfig.toml` checks everything.

- **The audit log chain** (`Lines`, `ChainFormat`, `Chain`, `ChainFacts`, `AuditVerify`, `Archive`,
  `ArchiveRuns`, `AuditLog`, `AuditRuns`).
  A file of `base64(header) ' ' base64(sealed)` lines (base64 as in section 4 of RFC 4648), each header naming
  its position and the MAC of the line before. The writer is a `Logger` object over a `Disk` on which every
  open, rename, removal, write and fsync may fail. `Chain.VerifyChain` accepts a file exactly when every line is in
  its place and, in full mode, opens; `ChainFacts.RearrangementReported` and `ChainFacts.AlterationReported` say where
  a file that was tampered with is found out. `AuditRuns.Run` is the main result, over every sequence of calls:
  what was written is, in order, in the files on disk and those that rotations dropped, each of which was
  generation `retain`; files stay linked; all of them pass `VerifyChain` in full exactly when they did at the start
  and no line was added behind one whose fsync had failed, and there are no more such lines than failed fsyncs; an
  event whose Log call succeeded stays on disk until more than `retain` rotations follow it; and on good files a
  call on an open log fails only when an operation does.
- **The token broker** (`CacheKeys`, `TokenCache`, `Broker`, `Revocation`, `BrokerRuns`). A bounded, expiring
  cache of byte arrays on the heap. `BrokerRuns.Client.Run` covers every sequence of calls by a caller that
  keeps and zeroes results: no array is ever shared between cache and caller, every array that has left the cache
  is zero, the delivery events on record are, one for one, those of the requests whose results were handed out, and
  every hit shows the bytes last stored for its own request. `Broker.BrokerImpl.Exchange` says when there is a hit,
  and that a hit calls no provider.
- **Exchange against vault lock** (`VaultLock`). A transition system of calls interleaved with lock, flush and
  unlock. `OnVaultLock` does not by itself keep the cache empty; `VaultLock.StaysEmptyIff` says exactly when
  it does, and `VaultLock.CachedAfterLock` shows a reachable state in which it did not. `VaultLock.CallAlone` says
  that a call nothing comes between does what Exchange does.
- **Cipher migration** (`Vault`, `Migrate`). A rewrite of many files with backups and rollback:
  `Migrate.Store.MigrateCipher` and `Migrate.MeaningPreserved`.
- **Budget counter** (`Budget`, `BudgetCounter`). Fixed windows opened on demand: `BudgetCounter.Counter.Run`
  gives every answer by the policy's own fields and the answers before it, bounds what was accepted in any interval
  of one window length, and evictions change no answer.
- **Edit distance and memory scan** (`EditDistance`, `CanaryScan`). Two space-saving dynamic programs for one
  function, proved to be the least number of edits; an overlapping chunk scan proved to find what a search of
  the whole region finds.

MAC, AEAD, JSON, base64 and the identifier hash are arbitrary tables (`Codec`, `Tables`, `Hasher`). What is
assumed of them is a hypothesis of the theorems that need it (`Codec.Sound`, `Tables.Sound`, MAC injectivity on
two files, hash injectivity on the live keys), never a global assumption. Clocks are parameters. Failures are
nondeterministic choices that a ghost counter (`faults`) keeps count of, so that a contract can say that an
operation fails only when something it calls does.

Results that go against what the code's comments promise:

- A failed fsync leaves the line in the file while the logger's chain state is rolled back, so the next line
  written on that handle is bad (`AuditRuns.WriteTwice`, `AuditRuns.SameHeaderTwice`). `AuditLog.Logger.WriteEvent`
  gives the exact condition, and `AuditRuns.Run` carries it over whole runs by the outcomes of their fsyncs.
- `OnVaultLock` promises a flushed cache, but a call already past its lock check stores afterwards.
- A budget amount that opens a window is not compared with the limit: `Budget.OverLimitIff` gives the exact
  condition under which a window is over its limit, `Budget.WindowOverLimit` such a window, and
  `Budget.TwiceTheLimitAttained` shows that the sliding bound cannot be improved.
- `revokeAllForActor` goes by hashed actors and truncated token IDs: `Revocation.ActorIsRevokedIff` says exactly
  when every run removes the actor's own live entries and no others, and `Revocation.OtherActorRevoked` with
  `Revocation.CollisionExists` shows a cache in which another actor's entry can go instead.

## Model

| member | source | states |
|---|---|---|
| Lines.SplitUnlines | internal/audit/log.go:417-453 | a file of newline-terminated lines splits back into exactly those lines |
| Lines.UnlinesSplit | internal/audit/log.go:417-453 | joining the split of newline-terminated data restores the data |
| Lines.LineScanner.Scan | internal/audit/log.go:429-453 | yields the next line of the newline split of everything not yet handed out, and ends exactly when nothing is left, for any chunking |
| Lines.ScanAll | internal/audit/log.go:417-453 | draining the scanner gives the newline split plus a non-empty unterminated tail, whatever the chunks and wherever the error comes |
| Lines.ReadLastLine | internal/audit/log.go:206-241 | the backward chunked read returns the suffix that starts at the last non-empty line, and fails exactly when it meets an offset that cannot be read before it holds that suffix |
| Lines.LastLineInTail | internal/audit/log.go:206-241 | a tail that holds a newline before its last non-empty line determines the answer for the whole file |
| Lines.LastLineIsLastNonBlank | internal/audit/log.go:166-203 | what the backward read returns, newlines trimmed, is the last non-blank line a forward scan sees |
| ChainFormat.OpenSealed | internal/audit/chain.go:157-165 | the plaintext under the first key that opens the body, and none exactly when no key does |
| ChainFormat.RenderRoundTrip | internal/audit/log.go:95-130 | a written line has no newline, parses to its header, and opens to its event under any key list that holds its key |
| Chain.ReportSnoc | internal/audit/chain.go:46-154 | one more line changes no earlier verdict and adds exactly its own to the report |
| Chain.FirstBad | internal/audit/chain.go:59-84 | zero exactly when no line is bad, otherwise the 1-based number of the first bad one |
| Chain.AcceptedIffAllCounted | internal/audit/chain.go:46-154 | no bad line, every line verified and acceptance of each line are the same |
| Chain.AcceptedHeaders | internal/audit/chain.go:87-118 | in an accepted file line k has sequence number k+1 and names its predecessor's MAC, or 32 zeros |
| Chain.FullModeVerdict | internal/audit/chain.go:122-142 | full mode finds a line good exactly when header-only mode does and the text after the first space decodes to at least 24 bytes that one of the keys opens; otherwise the reason says which of the two fails |
| Chain.UnreadableHeader | internal/audit/chain.go:56-85 | which of the three reasons an unreadable header is reported with: no space, no base64, no JSON |
| Chain.AcceptedIffGenuine | internal/audit/chain.go:46-154 | a file is accepted exactly when every line is where its header says it is and, in full mode, is authentic |
| Chain.VerifiedIsCount | internal/audit/chain.go:144-146 | the Verified count is the number of lines whose header is good where it stands and that, in full mode, are authentic |
| Chain.CheckLine | internal/audit/chain.go:62-150 | the checks on one line, with running state, give the verdict the line has behind all lines seen |
| Chain.VerifyChain | internal/audit/chain.go:31-154 | for any chunking the report is the total, the good lines, the first bad line and its reason over the non-blank lines; the first bad line is 0 exactly when every line has its own number, names the MAC of the line before and, in full mode, has a body that one of the keys opens with the header as associated data |
| ChainFacts.SameLastLineSameChain | internal/audit/chain.go:48-151 | with a MAC injective on their lines, two accepted files with the same last line are identical line for line |
| ChainFacts.SelectionVerified | internal/audit/tail.go:172-205 | on lines of an accepted file, removed, repeated or reordered in any way, Verified is the number of lines that stand right behind their original predecessor, plus line 1 if it stands first |
| ChainFacts.SelectionAcceptedIffPrefix | internal/audit/tail.go:172-205 | removing, repeating or reordering lines leaves an accepted file exactly when only a tail was removed |
| ChainFacts.RearrangementReported | internal/audit/chain.go:87-120 | any rearrangement of an accepted file is reported at the first line that is out of place, as a gap or as a first line that is not number 1 |
| ChainFacts.AlterationReported | internal/audit/chain.go:87-151 | a line replaced by one with another MAC is reported at that line or, if it was made to fit, as a broken link at the next |
| ChainFacts.PruneThenLog | internal/audit/tail.go:172-268 | on a subsequence of an accepted file extended by lines good where they stand, Verified is the still-linked kept lines plus every new line; with nothing kept the new lines are an accepted chain |
| ChainFacts.AcceptedSnoc | internal/audit/chain.go:46-154 | a file with one more line is accepted exactly when the file was and the line is good behind it |
| AuditVerify.CheckToken | internal/auditverify/verify.go:62-116 | passes exactly the lines VerifyChain finds good, with the sentinel of the bad line otherwise |
| AuditVerify.RearrangementNamed | internal/auditverify/verify.go:82-107 | of a rearrangement of an accepted file Verify names what it meets first: a jump ahead is deletion, an earlier or the same number is reordering, a first line that is not number 1 is corruption |
| AuditVerify.AlterationNamed | internal/auditverify/verify.go:82-107 | a line replaced by one with another MAC is never passed; one that fits is corruption, found at the next line, one whose header cannot be read truncation |
| AuditVerify.Verify | internal/auditverify/verify.go:49-120 | returns the sentinel of the first bad line, or truncation when a line is too long for the scanner, else nil |
| AuditVerify.VerifyAgreesWithVerifyChain | internal/auditverify/verify.go:49-120 | on lines without trailing CR that fit the scanner, Verify returns nil exactly when header-only VerifyChain reports no bad line, and truncation exactly when that line's header does not parse |
| Archive.ShiftKeepsGenerations | internal/audit/log.go:408-413 | renaming a generation into the free slot above keeps every file and their order |
| Archive.RemoveOldestGeneration | internal/audit/log.go:405-407 | removing the last slot drops exactly the oldest file |
| Archive.RotateInKeepsArchive | internal/audit/log.go:353-355 | moving the live file to the free slot 1 leaves the archive as it was |
| Archive.ReportOnFile | internal/audit/chain.go:46-154 | VerifyChain on the bytes of a file of well-formed lines reports on exactly those lines |
| Archive.RenderedLineLands | internal/audit/log.go:83-130 | a written line is good behind a file exactly when its header is the one the file asks for |
| Archive.SeedFromLastLine | internal/audit/log.go:166-203 | the last line's own header and MAC are all it takes to continue the chain |
| Archive.RotateConserves | internal/audit/log.go:330-381 | the lines before a rotation and its sentinels are, in order, those of the dropped oldest file and of the files after it |
| Archive.RotateLinks | internal/audit/log.go:325-381 | a rotation keeps every opening sentinel naming the last line of the next older surviving file |
| AuditLog.ReadChainTail | internal/audit/log.go:166-203 | for a file of any bytes, the sequence number and MAC of its last non-blank line; corrupt exactly when that line's header does not parse, unavailable exactly when the backward read fails |
| AuditLog.SelectKept | internal/audit/tail.go:180-203 | the kept lines are exactly those that do not decode to an event before the cutoff, in order |
| AuditLog.WrittenLineExpires | internal/audit/tail.go:180-203 | a line the logger wrote is dropped exactly when its event is older than the cutoff |
| AuditLog.Logger.SeedChainState | internal/audit/log.go:166-203 | restores the chain state the live file asks for; fails without touching it exactly when Stat or a read fails or the last line is corrupt |
| AuditLog.Logger.EnsureFile | internal/audit/log.go:55-73 | a reopened file is in sync with the chain state; adds no line, keeps an open handle as it is, reports a closed logger, and on a log that can be continued fails exactly when an operation fails |
| AuditLog.Logger.AppendLine | internal/audit/log.go:82-151 | appends one line that decodes to the event, with the next sequence number and the event's time in its header, good exactly when the logger was not stale; on a failed fsync the line is in the file, the chain state is not advanced and the logger is stale; fails exactly when an operation fails |
| AuditLog.Logger.WriteEvent | internal/audit/log.go:77-163 | at most one line lands, decodes to the event and is fsynced once; it is good behind whatever the file held exactly when the last fsync on this handle did not fail, and the outcome of its own decides for the next; on a usable logger it fails exactly when an operation fails |
| AuditLog.Logger.ShiftGenerations | internal/audit/log.go:401-415 | every rename goes to a free slot; at any failure only generation `retain` is lost, and the others keep their order and move by at most one slot; it fails exactly when an operation fails |
| AuditLog.Logger.KeepCurrent | internal/audit/log.go:386-393 | reopens the current file with nothing changed on disk, or leaves no file |
| AuditLog.Logger.SwapInNewFile | internal/audit/log.go:346-368 | whichever step fails, the archive is the old one less at most its oldest file, and the live file is back or the new one is open and empty; one failure never leaves the logger without a file |
| AuditLog.Logger.RotateLocked | internal/audit/log.go:330-381 | the archive afterwards is one of the shapes a rotation may leave, the second sentinel carries the MAC of the first, files move by at most one slot, success means both sentinels are in and synced, and the logger is left stale exactly as the last fsync says |
| AuditLog.Logger.Rotate | internal/audit/audit.go:441-445 | adds only sentinels, drops at most generation `retain`, keeps links, and adds a bad line exactly when the logger was stale and a sentinel landed; one fsync per sentinel, and the logger is left stale exactly when the last one failed, or was and none was done; on an open file it fails exactly when an operation fails, and it takes two failures to leave no file |
| AuditLog.Logger.RotateIfDue | internal/audit/log.go:40-51 | nothing happens when Stat fails, below the size cap or before the retry time; otherwise the rotation completes with both sentinels in sync, which only a failure prevents, or the next attempt is put off by the retry interval; an error only when no file is left |
| AuditLog.Logger.Log | internal/audit/log.go:36-52 | success means the event's line was written; it is good behind whatever the file held unless the last fsync had failed, and still on disk. Behind a synced event a rotation is due exactly when Stat succeeds, the file with that line is past the size cap and the retry time has come: it completes, or is put off by the retry interval; otherwise the event's line is all that lands and the retry time stays. On a usable logger without failures Log succeeds, and so does a rotation that is due; an error after the event landed means a failed fsync, or two failures that left no file |
| AuditLog.Logger.Prune | internal/audit/tail.go:172-268 | the live file is unchanged or holds exactly the lines that do not decode to an event before the cutoff; on success, also with nothing to remove, it holds those, the count is right and the chain state is in sync with the last kept line, or fresh if none; on an open file without failures it fails only when the chain cannot be continued from the last kept line |
| AuditLog.Logger.Ready | internal/audit/audit.go:395-400 | success means that a file is open, in sync if it was just reopened; adds no line, leaves a stale logger stale and no other, reports a closed logger, and on a usable one fails exactly when an operation fails |
| AuditLog.Logger.Close | internal/audit/audit.go:380-391 | closed, with no file, also when closing the file fails, which is reported |
| AuditLog.OpenLog | internal/audit/audit.go:338-372 | a logger in sync with the live file, with no line added; fails exactly when an operation fails or the last line is corrupt, and says the latter only then |
| ArchiveRuns.RotateBad | internal/audit/log.go:330-381 | a rotation adds to the bad lines of all files, the dropped one included, at most its first sentinel, and that only if it is bad where it lands |
| ArchiveRuns.IntactIffNoneBad | internal/audit/chain.go:46-154 | every file passes exactly when no line of any file is bad |
| ArchiveRuns.IntactFilesVerify | internal/audit/chain.go:46-154 | in an intact archive VerifyChain reports, for every file, first bad line 0 and Verified equal to the total |
| ArchiveRuns.AgedTrans | internal/audit/log.go:401-415 | slots moved by successive rotations add up |
| ArchiveRuns.HeldAges | internal/audit/log.go:401-415 | a line survives as long as its file has a slot to move to |
| ArchiveRuns.RotateAdvances | internal/audit/log.go:330-381 | one rotation attempt: lines conserved, bad lines counted, links kept, files aged by at most one |
| ArchiveRuns.AdvancedTrans | internal/audit/log.go:36-203 | the effects of two calls compose |
| AuditRuns.HistoryAdvances | internal/audit/log.go:36-203 | over a whole run, what was written is in the dropped files and the archive in order, and each line landed while stale is exactly one bad line |
| AuditRuns.LandingsBounded | internal/audit/log.go:132-151 | the lines landed while stale are exactly those added behind one whose fsync had failed, and there are no more of them than failed fsyncs |
| AuditRuns.IntactIffNoneUnsynced | internal/audit/log.go:132-151 | all files, dropped ones included, pass exactly when they did at the start and no line was added behind one whose fsync had failed |
| AuditRuns.DroppedAtRetain | internal/audit/log.go:405-407 | every file dropped in a run was generation `retain` when it went |
| AuditRuns.Retained | internal/audit/log.go:330-415 | a logged line is on disk as long as at most `retain` rotation markers were written since |
| AuditRuns.StaysContinuable | internal/audit/log.go:166-203 | good files with no line landed behind an unsynced one can always be reopened |
| AuditRuns.Run | internal/audit/log.go:36-203 | over every run, whatever fails: lines conserved, only generation `retain` ever dropped, links kept, one fsync per line; all files accepted exactly when they were at the start and no line was added behind one whose fsync had failed, of which there are no more than failed fsyncs; acknowledged events on disk until more than `retain` rotations, or calls, follow; Log, Rotate and Ready succeed only on a log that was opened and not closed, and every call on one succeeds if the files were good and nothing fails |
| AuditRuns.HistoryExtends | internal/audit/log.go:36-203 | without rotation and stale landings a run extends the live file by lines that are each good where they stand |
| AuditRuns.PruneThenCalls | internal/audit/tail.go:172-268 | after a successful prune of an accepted file and any calls, closing and reopening included, the bad lines are exactly the kept ones that lost their predecessor and those added behind a failed fsync, no more than fsyncs failed; without the latter the unrotated file verifies its still-linked lines plus every line added, or all of it if nothing was kept |
| AuditRuns.WriteTwice | internal/audit/log.go:132-151 | a write after a failed fsync leaves a file that is not accepted; after a successful one it is accepted exactly if it was |
| AuditRuns.SameHeaderTwice | internal/audit/log.go:132-151 | two lines with the header of one chain state: the first is good, the second a sequence gap |
| CacheKeys.SplitJoin | internal/broker/client.go:230-241 | splitting a key gives back NUL-free parts |
| CacheKeys.JoinSplit | internal/broker/client.go:230-241 | every key is the join of its parts, and the parts are NUL-free |
| CacheKeys.KeyRoundTrip | internal/broker/broker.go:268-273 | for NUL-free fields splitKey inverts cacheKey, so distinct requests have distinct keys |
| CacheKeys.KeysCollideWithNul | internal/broker/broker.go:268-273 | with NULs in the fields two requests can share a key |
| CacheKeys.SplitKey | internal/broker/client.go:230-241 | the loop computes the split at every NUL |
| CacheKeys.ExtractProviderFromKey | internal/broker/client.go:210-217 | the first part of the key |
| CacheKeys.MarkerMeansMiddlePart | internal/broker/cache.go:207-220 | the NUL-bracketed ID occurs in a key exactly when it is one of the inner parts |
| CacheKeys.SessionMatch | internal/broker/cache.go:207-220 | deleteBySession's test holds exactly when the ID is the capability, the actor or the session |
| TokenCache.ZeroBytes | internal/broker/cache.go:237-241 | every byte of the array is zero |
| TokenCache.Cache.constructor | internal/broker/cache.go:56-66 | an empty cache whose bound falls back to the default when not positive |
| TokenCache.Cache.EvictExpired | internal/broker/cache.go:83-96 | exactly the expired entries go, each zeroed, each callback run exactly once |
| TokenCache.Cache.Flush | internal/broker/cache.go:193-203 | every entry goes, each zeroed, each callback run exactly once |
| TokenCache.Cache.Delete | internal/broker/cache.go:179-189 | the entry goes, zeroed, its callback run once; others untouched |
| TokenCache.Cache.EvictOldest | internal/broker/cache.go:129-148 | an entry with the least insertedAt goes, zeroed; all other bytes unchanged |
| TokenCache.Cache.Set | internal/broker/cache.go:104-124 | stores the entry; an overwrite zeroes the old bytes without a callback; only a new key in a full cache evicts an oldest entry; the count stays within the bound; no two entries share an array |
| TokenCache.Cache.Get | internal/broker/cache.go:153-176 | a hit is a fresh copy of unexpired bytes and changes nothing; an expired entry is zeroed and deleted |
| TokenCache.Cache.Lookup | internal/broker/cache.go:153-176 | a hit is what was last stored under the key, before its deadline, and removes nothing; on a miss only an expired entry of that key goes, zeroed and with its callback; the cache stays a sub-map of what was stored |
| TokenCache.Cache.StoreCopy | internal/broker/broker.go:172-181 | the cache keeps its own copy, with the deadline and the insertion time it was given, zeroes the token it replaces or evicts, and stays a sub-map of what was last stored under each key; every other entry stays but for an oldest one when a new key meets a full cache, and only that one has its callback run |
| TokenCache.MissThenStore | internal/broker/broker.go:138-181 | a miss and the store after it together dismiss at most one entry: the expired one of the key, or an oldest one of a full cache, with its callback |
| Broker.NewExchangeResult | internal/broker/broker.go:63-77 | the result owns a copy and the source buffer is cleared |
| Broker.RememberOthers | internal/broker/broker.go:138-181 | storing for one request leaves what is stored for any other NUL-free request |
| Broker.DeliveryEventTells | internal/broker/broker.go:196-265 | two delivery events are equal exactly when they are of the same kind, for the same provider and capability, and the hashes of actor and session agree (for a fresh token, the namespace too) |
| Broker.NoKeyTellsNothing | internal/broker/broker.go:256-266 | without a key all IDs hash to the same placeholder |
| Broker.BrokerImpl.DeliverHit | internal/broker/broker.go:142-156 | a hit is handed out with its event on record, or zeroed with nothing on record |
| Broker.BrokerImpl.DeliverFresh | internal/broker/broker.go:183-187 | a fresh token is handed out with its event on record, or zeroed with nothing on record |
| Broker.BrokerImpl.Exchange | internal/broker/broker.go:129-188 | refused exactly when locked, without touching cache or provider; with an entry under the key whose deadline has not passed, the cache and the provider are left alone and the result is a hit; without one the strategy is called once, for these fields, and what it minted is cached as it is and handed out as fresh; one event of the right kind per result and none per error; an error without a failure means that the vault is locked, no emitter is there or the provider has no strategy; an unaudited token is zeroed, and so is every token that leaves the cache; the result owns its bytes; every other entry stays but for an oldest one of a full cache, and callbacks run exactly for an entry that expired or was evicted |
| Broker.BrokerImpl.Revoke | internal/broker/broker.go:191-194 | exactly the entries whose key brackets the session ID go, each zeroed, each callback run once |
| Broker.BrokerImpl.OnVaultLock | internal/broker/vault_lock.go:7-10 | with no call in flight: locked, cache empty, every token zeroed, every callback run once |
| Broker.BrokerImpl.OnVaultUnlock | internal/broker/vault_lock.go:13-15 | no longer locked |
| Broker.SessionKeysAreTheSession | internal/broker/cache.go:207-220 | among NUL-free keys the entries removed are those whose capability, actor or session is the ID |
| Revocation.ListGrants | internal/broker/client.go:136-158 | as many grants as live entries, one for each of them and none for anything else, with provider, actor hash, token ID and times |
| Revocation.FindToken | internal/broker/revoke.go:42-60 | some live key with the ID, or none if there is none |
| Revocation.GrantTells | internal/broker/client.go:136-158 | a grant shows the provider, the hash of the actor and the two times of its entry, and as its ID the first 12 digits of the hash of the whole key |
| Revocation.RevokeByTokenID | internal/broker/revoke.go:40-119 | not found exactly when no live entry has the ID; otherwise one such entry is zeroed and removed, its callback run once, with its own event on record exactly when there is an emitter and it does not fail |
| Revocation.StillOwed | internal/broker/revoke.go:152-163 | when an entry is removed early, one with the same ID takes its place among those still owed |
| Revocation.RevokeAll | internal/broker/revoke.go:130-165 | a run of the scans over the targets' IDs: as many live entries are zeroed and removed as there are targets, and the count says so |
| Revocation.PicksAreMatches | internal/broker/revoke.go:152-163 | the possible runs over the targets' IDs are exactly the removals of distinct live entries with those IDs in turn |
| Revocation.RemovesTheTargetsIff | internal/broker/revoke.go:130-165 | every run removes exactly the targets, whichever entry each scan meets first, if and only if no live entry outside them shares a token ID with one |
| Revocation.EveryoneIsTargeted | internal/broker/revoke.go:137-142 | RevokeAll("") removes exactly the live entries and counts them, even when IDs collide |
| Revocation.ActorIsRevokedIff | internal/broker/revoke.go:143-163 | every run removes exactly the actor's live entries if and only if no other live actor hashes alike and no other actor's live entry shares a token ID with one of them |
| Revocation.OtherActorRevoked | internal/broker/revoke.go:130-165 | with two live entries whose IDs collide, revoking one actor can remove the other's entry |
| Revocation.CollisionExists | internal/broker/client.go:247-249 | a hash table under which that happens |
| BrokerRuns.Client.DoExchange | internal/broker/broker.go:129-188 | a result joins those held with the event of its own request, and shares no array with another result or with anything ever cached; none is served while the vault is locked and, with an emitter and a strategy, only a failure keeps one from being served otherwise |
| BrokerRuns.Client.DoZero | internal/broker/broker.go:54-58 | zeroing a result changes that result, no other and nothing that is or was cached |
| BrokerRuns.Client.Run | internal/broker/broker.go:129-254 | over every sequence of calls, the requests whose results are held are the Exchange calls that were served, in order; none is served while the vault is locked and, with an emitter, a strategy and no failure, every other one is; the delivery events on record are those of these results; a hit shows the bytes last stored for its fields when it was asked for, a fresh result those just stored; no held array was ever cached; a held result shows its bytes until the caller zeroes it, and zeroes from then on; every array that has left the cache is zero |
| VaultLock.CallAlone | internal/broker/broker.go:129-188 | a call that no other step comes between ends as Exchange does: refused if locked, failed if the log is not ready, a hit that leaves the cache as it is, or a miss that drops the expired entry and, if the strategy mints, caches it at the cost of the victim alone; it returns exactly when its event is recorded |
| VaultLock.VaultAlone | internal/broker/vault_lock.go:7-15 | locking and flushing, unlocking and evicting are possible at any time, do what they say and change no call |
| VaultLock.InvStep | internal/broker/broker.go:129-188 | every step keeps: while locked, whoever passed the lock check did so before the latest lock, and what is cached after the flush was stored after it |
| VaultLock.InvRun | internal/broker/broker.go:129-188 | and so does every run, from any state that has it |
| VaultLock.LockedEntries | internal/broker/vault_lock.go:7-15 | in every reachable locked state each entry was stored by a call that read unlocked before the latest lock, and calls begun since that lock have not touched the cache |
| VaultLock.QuietRun | internal/broker/vault_lock.go:7-15 | with nothing cached and no call armed, the cache stays empty on every run without unlock |
| VaultLock.ArmedCallStores | internal/broker/broker.go:131-181 | any call past its lock check and before its store has a run that fills the cache of the locked vault |
| VaultLock.StaysEmptyIff | internal/broker/vault_lock.go:7-10 | after a flush the cache stays empty until unlock, whatever happens, exactly when no call is between its lock check and its store |
| VaultLock.CachedAfterLock | internal/broker/vault_lock.go:5-10 | a state with a cached token is reachable after OnVaultLock has returned |
| Vault.RestoreElsewhere | internal/cli/migrate_cmd.go:328-345 | putting backups back touches only the slots they are of |
| Vault.BackupKeepsWayBack | internal/cli/migrate_cmd.go:307-321 | a backup taken of an untouched slot keeps the way back to the original files |
| Vault.WriteKeepsWayBack | internal/cli/migrate_cmd.go:180-188 | rewriting files of a slot that is backed up, in any way, keeps the way back |
| Vault.RestoreMetasWrite | internal/cli/migrate_cmd.go:346-352 | a record with no backup yet is restored to whatever it is now |
| Migrate.Store.ReadVersionBinding | internal/cli/migrate_cmd.go:283-296 | the sidecar's binding, or the metadata copy when there is no sidecar |
| Migrate.Store.ReadStoredVersions | internal/cli/migrate_cmd.go:231-279 | every version that is not destroyed and has a ciphertext, once and in order, with its binding and plaintext; else an error |
| Migrate.ItemsAreStored | internal/cli/migrate_cmd.go:231-279 | as many versions are read as the records and the ciphertexts on disk have |
| Migrate.ReadableAsListed | internal/cli/migrate_cmd.go:102-122 | what holds of the listed records holds of the records on disk: none are listed only if there are none, and a version cannot be read exactly when one on disk cannot |
| Migrate.Store.SnapshotVersion | internal/cli/migrate_cmd.go:307-321 | the backup holds exactly the slot's files, the sidecar's absence included |
| Migrate.Store.MigrateItem | internal/cli/migrate_cmd.go:150-190 | on success the slot decrypts under the new binding, which its sidecar states; in any case only that slot changed, after it was backed up |
| Migrate.Store.Reencrypt | internal/cli/migrate_cmd.go:144-190 | wherever it stops, the backups lead back to the original files; if it finishes, every version is rewritten and every binding updated |
| Migrate.Store.UpdateMetas | internal/cli/migrate_cmd.go:192-203 | wherever it stops, the backups lead back to the original records; if it finishes, every record is in place |
| Migrate.Store.Rollback | internal/cli/migrate_cmd.go:325-357 | all but as many slots and records as failures were counted are those the backups lead back to, and every one counted is an operation that failed; with zero failures all are |
| Migrate.Store.MigrateCipher | internal/cli/migrate_cmd.go:65-211 | on success the vault is migrated, with as many versions counted as are stored, except that nothing was to be done exactly when the algorithm was the target already and no values are reported only for a vault without records; on failure all but as many slots and records as rollback failures were counted, each of them a failed operation, are the original ones, so with zero all are; a version that cannot be decrypted stops it before anything is written, and otherwise only a failing operation does; old terms keep their keys |
| Migrate.Complete | internal/cli/migrate_cmd.go:144-207 | re-encryption and the record update together migrate every stored version and leave every other version and file alone |
| Migrate.MeaningPreserved | internal/cli/migrate_cmd.go:58-64 | every version readable before gives the same plaintext after; stored ones decrypt under the new term and algorithm, with sidecar and metadata bindings that agree |
| Budget.TotalIsSum | internal/budget/counter.go:130-144 | a window's total is the sum of what was recorded since it opened |
| Budget.WindowTotal | internal/budget/counter.go:104-112 | a window's total is at most the limit, or the amount that opened it if that is more |
| Budget.OverLimitIff | internal/budget/counter.go:104-112 | without negative amounts, a window is over its limit exactly when the amount that opened it was |
| Budget.WindowOverLimit | internal/budget/counter.go:104-112 | for every limit, an amount above it passes the check when it opens a window |
| Budget.QuietBeforeWindow | internal/budget/counter.go:130-144 | at most the limit was recorded within one window length before the current window opened |
| Budget.TwiceTheLimit | internal/budget/counter.go:98-144 | checked records in clock order, each within the limit, come to at most twice the limit in any closed interval of one window length |
| Budget.TwiceTheLimitAttained | internal/budget/counter.go:98-144 | for every limit and window some such history reaches twice the limit |
| BudgetCounter.RelevantKeys | internal/budget/counter.go:154-215 | one key per limit the policy configures, with the field's own amount and its window of an hour or a day, no key twice and no other |
| BudgetCounter.AllowedIffNotRefused | internal/budget/counter.go:104-112 | the history allows an amount exactly when no window opened by one of the policy's limits, summed from the calls and their answers, would go past that limit |
| BudgetCounter.AnsweredByPolicy | internal/budget/counter.go:76-127 | the answer to a call follows from the calls and answers before it and the policy's own fields |
| BudgetCounter.DecisionFromHistory | internal/budget/counter.go:104-112 | the stored windows decide as the whole history does |
| BudgetCounter.RecordConsistent | internal/budget/counter.go:130-144 | recording keeps the stored windows equal to the tracked ones, or expired and evicted |
| BudgetCounter.Counter.CheckAll | internal/budget/counter.go:83-92 | passes exactly when every relevant limit is fresh or has room for the amount |
| BudgetCounter.Counter.RecordLocked | internal/budget/counter.go:130-144 | every relevant window is bumped or reopened, every other is as it was |
| BudgetCounter.Counter.EvictExpired | internal/budget/counter.go:65-74 | exactly the elapsed windows go |
| BudgetCounter.Counter.Perform | internal/budget/counter.go:76-127 | one call answers and records as if windows were never evicted, and an eviction removes exactly the elapsed ones |
| BudgetCounter.Counter.Run | internal/budget/counter.go:65-127 | over every run in clock order each answer is no exactly when a window that one of the policy's fields opened, of an hour or a day as the field says, is still open and the amounts accepted in it since, by the answers, leave no room; and the accepted amounts of an actor and capability whose own amounts are checked and within a field of the policy are at most twice that field in any closed interval of its window |
| BudgetCounter.EvictionChangesNothing | internal/budget/counter.go:65-74 | two counters given the same calls, with evictions at whatever times in between, give the same answers |
| BudgetCounter.RecordedIsAccepted | internal/budget/counter.go:95-117 | what is on record for an actor and capability is what the answers accepted |
| BudgetCounter.BudgetHolds | internal/budget/counter.go:95-117 | over every clock-ordered run and for every field of the policy, the amounts accepted by the answers for an actor and capability within it come to at most twice the field in any interval of its window |
| EditDistance.Symmetric | internal/cmderr/levenshtein.go:18-22 | the distance is the same with the arguments swapped |
| EditDistance.Triangle | internal/cmderr/levenshtein.go:31-44 | the recurrence satisfies the triangle inequality |
| EditDistance.NoShorterScript | internal/cmderr/levenshtein.go:3-5 | no script of insertions, deletions and substitutions is shorter than the distance |
| EditDistance.BestScript | internal/cmderr/levenshtein.go:3-5 | some script is exactly as long as the distance |
| EditDistance.DistIsLeast | internal/cmderr/levenshtein.go:3-5 | the distance is the least number of edits |
| EditDistance.MatchShortcut | internal/cli/guard_runtime.go:99-103 | on equal last symbols the diagonal entry is the minimum |
| EditDistance.TableIsTable | internal/cmderr/levenshtein.go:24-46 | the distances of all prefixes obey the recurrence and the shortcut, with the distance in the last cell |
| EditDistance.MinOfThree | internal/cmderr/levenshtein.go:49-60 | the least of the three |
| EditDistance.Distance | internal/cmderr/levenshtein.go:5-47 | the two-row program, with its swap, returns the edit distance |
| EditDistance.NextRow | internal/cmderr/levenshtein.go:32-42 | fills one row of the table from the one before |
| EditDistance.Levenshtein | internal/cli/guard_runtime.go:81-107 | the one-row program, with its match shortcut, returns the same edit distance |
| EditDistance.UpdateRow | internal/cli/guard_runtime.go:94-104 | turns one row of the table into the next in place |
| EditDistance.SuggestProvider | internal/cmderr/suggest.go:6-22 | the first slug at the least distance within the threshold; nothing if none is, or if the input is itself a slug |
| EditDistance.SuggestMode | internal/cli/guard_runtime.go:67-78 | the first mode at the least distance below four; nothing if none is |
| CanaryScan.MaxCanaryLen | cmd/keylatchd/heapdump_check_linux.go:132-140 | the length of a longest canary |
| CanaryScan.PrefixOrPiece | cmd/keylatchd/heapdump_check_linux.go:194-201 | with an overlap of all but one symbol, a match across a chunk boundary lies in the part covered or in the next chunk |
| CanaryScan.CoverNext | cmd/keylatchd/heapdump_check_linux.go:182-188 | the canaries up to the end of the next chunk are those found before and those in the chunk |
| CanaryScan.LookInChunk | cmd/keylatchd/heapdump_check_linux.go:184-188 | adds exactly the canaries that occur in the chunk |
| CanaryScan.NextOffset | cmd/keylatchd/heapdump_check_linux.go:194-201 | moves by the chunk less the overlap, by a whole chunk if that is zero, and past any region if it wraps |
| CanaryScan.ScanRegionForCanaries | cmd/keylatchd/heapdump_check_linux.go:146-205 | never counts more than the canaries that occur up to the cap; counts exactly those when all fit a chunk and reads are full, matches across chunk boundaries included; stops short of the cap only for a read that fails or an address no read takes; a canary longer than a chunk is never found |

## Left out

- Cryptographic primitives, JSON, base64 and `fields.Redact`: arbitrary tables with the round trips the theorems name as hypotheses.
- Sequence numbers are unbounded integers; `int64` overflow is not modelled.
- Several processes on one audit file, power loss in the middle of a write, and following a file across rotation (`Tail`).
- Ordinary events never carry the two rotation markers' own action fields: an event body is either a payload or a marker.
- `Summarize`, `Scan`, the SIEM exporter and the directory permission checks of the audit package: they read the log or guard its opening and would only add easy members.
- Chain.VerifyChain: drains the line scanner before its loop instead of interleaving the two; the lines are the same.
- AuditVerify.Verify: bufio.Scanner is modelled by the split it delivers, with its CR trimming and its token limit.
- AuditVerify.VerifyAgreesWithVerifyChain: is for lines without a trailing CR that fit the scanner; on others the two programs read different lines.
- AuditLog.OpenLog: files are lists of newline-terminated, non-blank lines; an unterminated last line or blank lines are covered where the file is read as bytes (AuditLog.ReadChainTail, Chain.VerifyChain), not in the logger.
- AuditLog.SelectKept: the branch that skips blank lines is not modelled, for the same reason.
- AuditRuns.Run: does not include Prune, which breaks the chain on purpose when it removes an inner line; AuditRuns.PruneThenCalls covers a prune and the calls after it.
- AuditLog.Logger.Log: the log's mutex makes calls take effect one at a time; the timestamps are parameters, one for the retry check and the retry time set from it, and so is the outcome of Stat.
- AuditLog.Logger.Prune: reads the live file to its end; a read error in the middle of the scan, which the line scanner takes for the end of the file, is not modelled.
- Broker.BrokerImpl.Exchange: the event's TTL, cache age and strategy name are not in the modelled event, and a result's CacheAge is not modelled.
- Broker.BrokerImpl.OnVaultLock: is the sequential case; the interleaved one is the VaultLock module.
- Revocation.RevokeByTokenID: requires a non-empty hash key, since the 11-character placeholder of an empty key cannot be cut to 12 characters.
- Revocation.RevokeAll: the clock stands still during the call.
- Broker process singletons, `DryRunExchange`, `size` and the out-of-process handle: one-line members.
- VaultLock.InvStep: tokens, deadlines and events are abstracted to keys and times; expiry and eviction are arbitrary removals.
- Migrate.Store.MigrateCipher: requires each record to be filed under its own path and each version number once per record; assumes that a failed write or SetMeta changes nothing and that old key terms stay readable; zeroing the plaintext buffers and the GCM nonce counter file are not modelled, and a new key term may remain after a failure.
- Budget amounts are reals, so floating-point rounding is not modelled; calls take effect in clock order, although the clock is read before the mutex.
- EditDistance.Distance: works on symbol sequences; the conversion of a string to runes (or bytes, in `levenshtein`) is outside the model.
- CanaryScan.ScanRegionForCanaries: parsing `/proc/self/maps` and choosing the regions is outside the model.
- Command-line plumbing, provider clients, the gateway, approval, policy and team packages.
