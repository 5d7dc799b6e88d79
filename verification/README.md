# Verified model of the elvish mail back end

This project models the parts of the server whose correctness is hardest to see by reading: the
outbox lease machine, protected one-time links and their blobs, DKIM signing, the key resolver and
its two caches, account deletion across several stores, the request-signing and mail encoders, and
three pieces of in-process state (content cache, SRP challenges, compressing writer).

How the pieces are modelled:

* A SQL statement is one atomic step on a map of rows; time is one monotone clock in microseconds.
  Classes hold the state that the source changes in place, and each method's contract gives the whole
  new state through a function. The `*Runs` modules reuse the same functions as the steps of a
  transition system and prove what holds in every interleaving.
* Blob store, Valkey, Scylla, key servers, clocks, random draws and cryptography are parameters or
  abstract functions. A call may fail before or after taking effect where the source can observe it.
* Every loop of the source is a loop here, with invariants; every main function is tied to an
  independent definition: an inverse, a declarative form from the RFC, a history, or a run without
  the optimisation.

| module | models |
|---|---|
| `Outbox`, `OutboxRuns` | the mail_outbox statements; all interleavings of workers, recovery and retry |
| `Links`, `LinkRuns`, `LinkBlobs`, `LinkFetches` | the protected-link statements; opens against purges; rows against blobs; fetches against sweeps |
| `DkimBody`, `DkimBodyLaws`, `DkimTags`, `DkimHeaders`, `DkimHeaderLaws`, `DkimReading`, `DkimSign`, `DkimRecompute`, `DkimTagReading` | DKIM signing, reading messages back, and what a verifier can rebuild and read from the signed message |
| `KeyResolver`, `KeyCacheRuns` | lookup through the source chain, and concurrent lookups over both caches |
| `AccountPurge` | the multi-store account deletion with failures and retries |
| `SigV4`, `SigV4Query`, `Sorting` | percent-encoding, canonical path, canonical query |
| `MailWire`, `Base64` | dot-stuffing and wrapped base64 |
| `SrpChallenges`, `GzipWriter`, `ContentCache`, `ContentRuns` | in-process state |
| `Common`, `Text` | shared types and the Go string functions the code calls |

## Where the code and its promises differ

Where a promise fails on some inputs, a lemma below gives the exact condition under which it holds, or a
run on which it fails.

* Outbox marking carries no status guard. If workers may act up to a window after leasing and recovery
  waits a certain age, rows are held exclusively, and sent rows stay sent, exactly when the age is at
  least the window (`OutboxRuns.SafeIffRecoveryWaits`); otherwise a late worker turns a sent row back to
  pending (`OutboxRuns.LateWorkerUnsends`).
* If Create inserts the row and its read-back fails, the cleanup deletes the blob under an openable
  link. A link's blob is missing exactly in the runs where that happened (`LinkBlobs.LinkHasBlobUnlessStripped`).
* An open consumes its view before it fetches the ciphertext. A sweep in between can delete the blob of a
  link whose last view was just won (`LinkFetches.LastViewCanBeLost`); a won open finds its blob exactly
  when no sweep deleted it since and the link was not stripped (`LinkFetches.WonOpenFindsBlob`).
* The meta endpoint and opening disagree at exactly the instant `expires_at`.
* The hashed body equals section 3.4.4 of RFC 6376 exactly when the last raw line with ink does not end in
  a bare CR; canonicalizing is idempotent exactly when cutting trailing CRs off the raw lines uncovers no blank.
* A header value equals section 3.4.2 of RFC 6376 exactly when, inside its outer spaces and tabs, it
  neither starts nor ends in another Unicode space, which Go's TrimSpace removes as well.
* The signer digests its own header line with the trailing CRLF, which section 3.7 of RFC 6376 leaves
  off. The verifier modelled here follows the code, and no agreement with section 3.7 is claimed.
* A signed message whose original opens with CRLF splits in the wrong place. Listing dkim-signature in
  h= when the message carried none makes the rebuilt string differ, and only then.
* A query key with an empty value list cannot be read back when there is more than one key.
* Flushing before the first header or write can send a compressed body without Content-Encoding: exactly
  when compression then starts and the flushed headers did not announce it.
* An invalidation of the content cache takes effect exactly when no load in flight has read older content.
* Account deletion leaves staged sent-copy blobs behind.

## Model

| member | source | states |
|---|---|---|
| `Outbox.OutboxStore.Insert` | internal/mailmeta/outbox.go:74-101 | a new pending row with no attempts, due now, that keeps owner, source, payload, recipients and staging reference; an empty kind becomes pgp |
| `Outbox.OutboxStore.LeasePending` | internal/mailmeta/outbox.go:105-151 | leases distinct due unlocked pending rows, earliest first, at most the limit (1 to 50, else 10); exactly these become sending now, and below the limit no such row is left; the returned rows are the rows before the update |
| `Outbox.OutboxStore.MarkSent` | internal/mailmeta/outbox.go:154-159 | sets sent whatever the status was, and changes no other row |
| `Outbox.OutboxStore.RecordSentCopy` | internal/mailmeta/outbox.go:162-175 | records the copy and clears the staging reference, leaving status and schedule alone |
| `Outbox.OutboxStore.MarkFailed` | internal/mailmeta/outbox.go:178-191 | a permanent failure sets failed; a transient one sets pending and postpones by the SQL backoff of the old attempts count |
| `Outbox.OutboxStore.RecoverStuck` | internal/mailmeta/outbox.go:193-202 | exactly the sending rows untouched for longer than the age (15 minutes by default) return to pending, and nothing else of them changes |
| `Outbox.OutboxStore.Retry` | internal/mailmeta/outbox.go:462-475 | succeeds exactly on a failed row, which becomes pending with no attempts and no error, due now; other rows stay |
| `Outbox.OutboxStore.Stats` | internal/mailmeta/outbox.go:362-381 | the four counts are the sizes of the four status sets and add up to the table size |
| `Outbox.CopyGroups` | internal/mailmeta/outbox.go:371-379 | statuses without a group keep zero, every group's count is copied |
| `Outbox.StatusesPartition` | internal/mailmeta/outbox.go:361-381 | the four statuses partition the rows |
| `Outbox.Backoff` | internal/mailmeta/outbox.go:350-359 | the doubling loop equals min(3600, 60·2^min(n,8)) seconds, for negative n too |
| `Outbox.BackoffAgainstSql` | internal/mailmeta/outbox.go:178-190 | the Go delay never exceeds the SQL delay and equals it exactly when n ≤ 5 |
| `OutboxRuns.StepKeepsInv` | internal/mailmeta/outbox.go:104-202 | every statement keeps: live leases exclusive and sending, counts conserved, failures paced |
| `OutboxRuns.HoldersAreExclusive` | internal/mailmeta/outbox.go:104-202 | in every state of every run each row has at most one live holder, a held row is sending, and the four status counts sum to the number of inserts |
| `OutboxRuns.TerminalStatuses` | internal/mailmeta/outbox.go:154-202 | sent is absorbing over every run; failed is left only by an admin retry of that row |
| `OutboxRuns.SentOnce` | internal/mailmeta/outbox.go:105-191 | after a sent mark no later step marks, fails or leases that row |
| `OutboxRuns.SentConserved` | internal/mailmeta/outbox.go:154-159 | the number of sent rows equals the number of sent marks in the run |
| `OutboxRuns.LeaseWaitsForBackoff` | internal/mailmeta/outbox.go:117-122 | a row leased after k transient failures waited 60·2^min(k−1,8) s since the last one and the sum of all k delays since the first |
| `OutboxRuns.TotalDelayClosed` | internal/mailmeta/outbox.go:178-190 | that sum in closed form: 60·(2^k − 1) s up to nine failures, 15360 s more for each further one |
| `OutboxRuns.SafeIffRecoveryWaits` | internal/mailmeta/outbox.go:154-202 | over all runs, rows have one live holder if and only if recovery waits at least the worker window, and sent rows stay sent under the same condition |
| `OutboxRuns.EarlyRecoverySharesRow` | internal/mailmeta/outbox.go:193-202 | for every recovery age below the window, a run in which two workers hold one row |
| `OutboxRuns.LateWorkerUnsends` | internal/mailmeta/outbox.go:154-202 | for every such age, a run in which a sent row becomes pending again |
| `OutboxRuns.StoreInserts` | internal/mailmeta/outbox.go:74-101 | an insert of the store is the runs' inserting step |
| `OutboxRuns.StoreLeases` | internal/mailmeta/outbox.go:105-151 | a lease of the store is an enabled lease step of the runs |
| `OutboxRuns.StoreMarks` | internal/mailmeta/outbox.go:154-191 | the store's two marks are the marking steps of the runs |
| `OutboxRuns.StoreMaintains` | internal/mailmeta/outbox.go:162-202 | the store's recovery, retry and sent-copy record are the steps of the runs |
| `Links.ValidateToken` | internal/maillinks/links.go:81-96 | the scan accepts exactly the strings of the right length over the URL-safe alphabet |
| `Links.NewTokenIsValid` | internal/maillinks/links.go:72-96 | the encoding of any 32 random bytes is a valid token |
| `Links.LinkStore.Create` | internal/maillinks/links.go:101-136 | succeeds exactly on acceptable input (a ttl up to 30 days) and a new token, and then the link keeps the caller's blob, key material, recipients and view limit, is unviewed, openable and expires after the ttl; otherwise nothing changes |
| `Links.LinkStore.Get` | internal/maillinks/links.go:139-163 | finds exactly the valid trimmed token's row |
| `Links.LinkStore.ConsumeView` | internal/maillinks/links.go:177-226 | not-found, burned and success cases exactly, the new row, views remaining and the burned flag |
| `Links.LinkStore.Delete` | internal/maillinks/links.go:229-235 | removes this row and no other |
| `Links.LinkStore.PurgeExpired` | internal/maillinks/links.go:247-274 | removes only rows past expires_at or out of views, at most the limit (1 to 1000, else 100); below the limit no such row is left |
| `Links.MetaAgreesExceptAtExpiry` | internal/httpserver/api_protected_links.go:272-272 | for a consistent row, meta's expired flag is the negation of openable except exactly at expires_at |
| `LinkRuns.PurgedStep` | internal/maillinks/links.go:177-274 | one step keeps the simulation between a purged table and an unpurged one |
| `LinkRuns.PurgingRefines` | internal/maillinks/links.go:177-274 | every answer of a run with purges agrees with the run without them, or misses a row that was dead |
| `LinkRuns.PurgeIsInvisibleToOpens` | internal/maillinks/links.go:177-226 | purges anywhere leave every successful open and its result unchanged and can only turn burned into not-found |
| `LinkRuns.ViewsAreCounted` | internal/maillinks/links.go:177-226 | in any interleaving the wins carry views v+1, v+2, …, before expiry and within max_views, burning exactly at the bound; the counter equals their number |
| `LinkRuns.RemainingCountsDown` | internal/maillinks/links.go:216-224 | from creation on the remaining views are max−1, max−2, … without repeat |
| `LinkRuns.ExactlyTheBoundSucceed` | internal/maillinks/links.go:187-199 | before expiry and without deletion exactly min(attempts, views left) opens succeed |
| `LinkRuns.MetaExpiredIsFinal` | internal/httpserver/api_protected_links.go:262-292 | once meta reports expired no later open succeeds |
| `LinkRuns.DeletedNeverOpens` | internal/maillinks/links.go:229-235 | a deleted link is never opened again |
| `LinkRuns.StoreOpens` | internal/maillinks/links.go:177-226 | an open of the store is the runs' consuming step and, if refused, a lookup that tells burned from not-found |
| `LinkRuns.StoreCreates` | internal/maillinks/links.go:101-136 | a creation of the store is the runs' creating step, or changes nothing |
| `LinkRuns.StoreRemoves` | internal/maillinks/links.go:229-235 | a deletion of the store is the runs' deleting step |
| `LinkRuns.StorePurges` | internal/maillinks/links.go:247-274 | a purge of the store is an enabled purge step of the runs |
| `LinkBlobs.StrippedIff` | internal/httpserver/api_protected_links.go:124-142 | a link is stripped exactly when the run holds its failing creation after the insert and later that request's blob deletion |
| `LinkBlobs.LinkHasBlobUnlessStripped` | internal/httpserver/api_protected_links.go:113-142 | in every interleaving of create, open and sweep the blob of a row in the table is missing if and only if the run holds such a creation and deletion |
| `LinkBlobs.OpenableLinkHasBlob` | cmd/elvishserver/protected_link_sweeper.go:49-61 | if insert and read-back succeed or fail together, every openable link has its blob |
| `LinkBlobs.ReadBackFailureStripsLink` | internal/httpserver/api_protected_links.go:120-142 | a failed read-back leaves an openable link without ciphertext |
| `LinkFetches.WonOpenFindsBlob` | internal/httpserver/api_protected_links.go:294-312 | in every run a won open finds its ciphertext if and only if no sweep has deleted it since the view was consumed and the link was not stripped |
| `LinkFetches.OnlyDeadLinksAreSwept` | cmd/elvishserver/protected_link_sweeper.go:49-61 | a sweep deletes a blob only after taking its row, whose views were used up or which had expired by then |
| `LinkFetches.LostOnlyWhenDead` | internal/httpserver/api_protected_links.go:294-312 | a won open that misses its ciphertext lost it to such a sweep |
| `LinkFetches.DeadLinkIsSwept` | cmd/elvishserver/protected_link_sweeper.go:49-61 | a link that is expired or out of views is taken by any sweep below its limit, and after that sweep's blob deletion neither row nor blob ever comes back |
| `LinkFetches.LastViewCanBeLost` | internal/httpserver/api_protected_links.go:295-311 | for every single-view link, a run in which the view is consumed and the ciphertext is gone before the fetch |
| `DkimBody.CanonRelaxedBodyLine` | internal/dkim/sign.go:291-306 | the prevWS loop is the collapse function followed by the trim |
| `DkimBody.CanonicalBody` | internal/dkim/sign.go:273-286 | the in-place line loop yields the specified hashed string |
| `DkimBody.NormalizeFixesBareLf` | internal/dkim/sign.go:274-275 | the two replacements together turn bare LF into CRLF and change nothing else |
| `DkimBodyLaws.CanonLineIsRelaxedLine` | internal/dkim/sign.go:291-306 | a canonical line is its words one space apart, with one leading space if it was indented |
| `DkimBodyLaws.HashedIsRelaxedIff` | internal/dkim/sign.go:273-289 | the hashed string is the RFC's canonical body if and only if the last raw line that is not all blanks does not end, before its blanks, in a bare CR |
| `DkimBodyLaws.ConformantBody` | internal/dkim/sign.go:273-289 | where CR occurs only before LF the code meets section 3.4.4 |
| `DkimBodyLaws.IdempotentIff` | internal/dkim/sign.go:273-306 | canonicalizing twice is canonicalizing once if and only if the last raw line with a core (the line less trailing blanks, then less trailing CRs) has a core not ending in a blank |
| `DkimBodyLaws.TrimmedEnd` | internal/dkim/sign.go:277-283 | the trimmed text ends as the core of the last raw line that has one |
| `DkimBodyLaws.ConformantIsIdempotent` | internal/dkim/sign.go:273-306 | idempotent on every body not ending in a bare CR |
| `DkimBodyLaws.BareCrBreaksIdempotence` | internal/dkim/sign.go:283-286 | a three-character body on which the second pass differs |
| `DkimBodyLaws.TrailingBlanksIgnored` | internal/dkim/sign.go:276-280 | blanks before any line break never change the hash |
| `DkimBodyLaws.TrailingLinesIgnored` | internal/dkim/sign.go:282-286 | blank lines added at the end never change the hash |
| `DkimTags.TagBuilder.Set` | internal/dkim/sign.go:316-321 | a new key goes to the end of the order, a known key keeps its place and takes the value |
| `DkimTags.TagBuilder.Print` | internal/dkim/sign.go:323-347 | prints the stably rank-sorted keys, each with its name, an equals sign and its value, separated by semicolon and space |
| `DkimTags.StableSortSorts` | internal/dkim/sign.go:324-336 | the printed key order is ranked and a permutation of the keys set |
| `DkimTags.StableSortIsStable` | internal/dkim/sign.go:325-336 | keys of one rank keep their order of insertion |
| `DkimTagReading.OthersPrintLast` | internal/dkim/sign.go:326-335 | tags of no known rank print after all others |
| `DkimTags.SignatureIsAppended` | internal/dkim/sign.go:308-347 | whatever the insertion order, setting b= appends its value to the text printed with b= blank |
| `DkimHeaders.FallbackSeparator` | internal/dkim/sign.go:196-206 | after the LF fallback the CRLF separator is always found |
| `DkimReading.WrittenMessageReads` | internal/dkim/sign.go:196-223 | round trip: a message written with any proper fields, folded over any number of lines, splits into exactly those fields, in order, and its body |
| `DkimReading.FieldReads` | internal/dkim/sign.go:209-222 | a folded field is read as one field, its lines joined by single spaces |
| `DkimReading.LfMessageReads` | internal/dkim/sign.go:198-206 | the same for a message with LF line ends, whose body comes out with CRLF |
| `DkimReading.NoSeparatorIff` | internal/dkim/sign.go:197-202 | the separator error exactly when neither separator occurs |
| `DkimReading.BadFieldIsRefused` | internal/dkim/sign.go:211-215 | a bad name or a control character in the value is refused |
| `DkimReading.TokenChars` | internal/dkim/sign.go:211-215 | name characters are visible ASCII less the delimiters of section 5.6.2 of RFC 9110 |
| `DkimReading.CanonCaseAt` | internal/dkim/sign.go:211-217 | stored names are capitalised at the start and after each hyphen |
| `DkimHeaders.CanonRelaxedValue` | internal/dkim/sign.go:253-270 | the prevWS loop over the unfolded value is the collapse function, trimmed, with CRLF |
| `DkimHeaderLaws.CanonValueIsRelaxedIff` | internal/dkim/sign.go:253-270 | the value is the words one space apart, as section 3.4.2 asks, if and only if it has no other Unicode space at its inner ends |
| `DkimHeaderLaws.AsciiValueConforms` | internal/dkim/sign.go:253-270 | every ASCII value the header reader accepts meets section 3.4.2 |
| `DkimHeaderLaws.NoBreakSpaceDiffers` | internal/dkim/sign.go:268-268 | a no-break space on which they differ |
| `DkimHeaders.CanonHeadersRelaxed` | internal/dkim/sign.go:232-250 | emits, for each listed name, its last value, in the order listed |
| `DkimHeaders.OrderIsIrrelevant` | internal/dkim/sign.go:216-237 | a listed name without spaces finds the same values in the same order for every map iteration order |
| `DkimHeaders.CanonHeadersOrder` | internal/dkim/sign.go:216-250 | the canonical header block does not depend on map order |
| `DkimSign.IterateMap` | internal/dkim/sign.go:216-221 | yields every key once in some order, each with its values in document order |
| `DkimSign.BuildTags` | internal/dkim/sign.go:149-161 | a builder holding exactly the prescribed tags, with b= blank and x= only for a positive lifetime |
| `DkimSign.SignFields` | internal/dkim/sign.go:142-179 | errors for an unknown algorithm or a failing key; otherwise the printed tags with the signature over the specified digest input |
| `DkimSign.Sign` | internal/dkim/sign.go:124-180 | every error case in order, else a signature over the fields in some map order |
| `DkimTagReading.SignedHeaderReads` | internal/dkim/sign.go:124-180 | every header Sign returns names version, algorithm, canonicalization, domain, selector and time under v=, a=, c=, d=, s= and t= |
| `DkimTagReading.IdentityTags` | internal/dkim/sign.go:150-154 | d= is the domain, s= the selector, a= the algorithm in force |
| `DkimTagReading.TimeTags` | internal/dkim/sign.go:155-158 | t= and x= read as decimal numbers are the unix seconds; x= is there exactly for a positive lifetime |
| `DkimTagReading.ContentTags` | internal/dkim/sign.go:138-161 | h= splits into the caller's list or the default five; bh= and b= decode to the body hash and the signature |
| `DkimTagReading.DecimalRead` | internal/dkim/sign.go:155-157 | reading a printed number gives the number |
| `DkimTagReading.KnownAlgorithms` | internal/dkim/sign.go:167-177 | exactly rsa-sha256 and ed25519-sha256 are accepted |
| `DkimSign.SignAndPrepend` | internal/dkim/sign.go:183-194 | the message with the signature line in front, or the signing error |
| `DkimRecompute.SignedSplits` | internal/dkim/sign.go:183-223 | splitting the signed message gives the signature field, then the original fields and body |
| `DkimRecompute.VerifierRebuildsDigestInput` | internal/dkim/sign.go:124-250 | from the signed bytes alone a verifier recovers body, body hash and signature and rebuilds exactly the digested string, for every map order, if and only if dkim-signature is not listed or was already present |
| `DkimRecompute.LeadingBreakBreaksBody` | internal/dkim/sign.go:183-223 | a message opening with CRLF yields a signed message with a different body |
| `KeyResolver.Cache.Get` | internal/keyserver/cache.go:46-74 | a hit exactly when an unexpired row of the address exists, with that row's fields and the latest fetch time; else a miss exactly while a negative entry lives; else nothing; for every combination of absent and failing backends |
| `KeyResolver.Cache.Put` | internal/keyserver/cache.go:77-102 | upserts by address and fingerprint, keeping the hit's fields, fetched now, with the default lifetime if none is given, and clears the negative entry |
| `KeyResolver.Cache.PutMiss` | internal/keyserver/cache.go:105-111 | writes a negative entry that lapses after NegTTL |
| `KeyResolver.PromoteProton` | internal/keyserver/resolver.go:107-124 | returns the non-nil sources with the first Proton source in front and the others in order |
| `KeyResolver.PromotedIsPermutation` | internal/keyserver/resolver.go:107-124 | promotion loses and duplicates no source |
| `KeyResolver.PromotedAnswer` | internal/keyserver/resolver.go:71-104 | a promoted chain yields Proton's answer if it has one, otherwise the first success in declared order |
| `KeyResolver.ProtonChain` | internal/keyserver/types.go:33-40 | the Proton source is promoted exactly when boosting is on and the part after the last @ is one of the four Proton domains, with something on both sides of that @ |
| `KeyResolver.NoAtNoProton` | internal/keyserver/types.go:35-38 | an address without @ keeps the declared chain |
| `Text.LowerTrimIgnores` | internal/keyserver/resolver.go:45-45 | spaces around an address do not matter |
| `Text.LowerTrimForm` | internal/keyserver/resolver.go:45-45 | a normal address has no capital letter and no outer space, and keeps every other character |
| `Text.LowerIsAscii` | internal/keyserver/resolver.go:45-45 | A to Z become a to z, and other characters stay |
| `KeyResolver.ProtonAnswersFirst` | internal/keyserver/resolver.go:71-105 | an uncached lookup of a Proton address gives Proton's answer if it has one, and every other lookup the first success in declared order |
| `KeyResolver.Resolver.AskChain` | internal/keyserver/resolver.go:71-104 | the first answer of the chain, recorded in the positive or the negative cache |
| `KeyResolver.Resolver.Lookup` | internal/keyserver/resolver.go:41-105 | local identity first, with its key for a week, then the cache, then the chain, with exactly these cache writes |
| `KeyCacheRuns.InvKept` | internal/keyserver/cache.go:46-111 | every step keeps each cache entry traceable to one pass of the chain |
| `KeyCacheRuns.CacheAnswersAreJustified` | internal/keyserver/cache.go:46-111 | with changing sources, a cached hit repeats an earlier pass for that address before its recorded expiry, and a cached miss repeats one that found nothing, written back less than NegTTL ago |
| `KeyCacheRuns.CachingIsTransparent` | internal/keyserver/resolver.go:41-105 | if every pass for an address has the same key, fingerprint, source, UID match and KT state or the same not-found, whatever its time stamps, then any interleaving from empty caches, with expiry, refetches and concurrent misses, gives that outcome, as a resolver without cache does |
| `KeyCacheRuns.WrittenHitIsServed` | internal/keyserver/cache.go:77-102 | a hit written back answers every lookup of its address until it expires |
| `KeyCacheRuns.WrittenMissIsServed` | internal/keyserver/cache.go:105-111 | a miss written back keeps the chain from being asked for NegTTL |
| `KeyCacheRuns.BustForgets` | internal/mailmeta/contacts.go:61-70 | busting an address forgets its keys and no other's |
| `AccountPurge.ProgressTrans` | internal/httpserver/account_delete.go:216-271 | what one step or attempt guarantees composes over later ones |
| `AccountPurge.NamedShrinks` | internal/httpserver/account_delete.go:216-290 | rows removed so far name only blobs already gone |
| `AccountPurge.UserStep` | internal/httpserver/account_delete.go:270-270 | removing the user row is sound once every named blob is gone and everything owned is reserved |
| `AccountPurge.FinalReservations` | internal/httpserver/account_delete.go:216-271 | once the user row is gone every address and domain it owned, unless blank, is reserved trimmed and in lower case, and exactly the named blobs are gone |
| `AccountPurge.StagedCopiesSurvive` | internal/httpserver/account_delete.go:247-251 | a finished purge leaves exactly the staged sent-copy blobs that no link, payload or ledger row names |
| `AccountPurge.Purger.ReserveOwned` | internal/httpserver/account_delete.go:220-231 | on success every owned address and domain that is not blank is reserved, trimmed and in lower case; nothing else changes |
| `AccountPurge.Purger.DeleteBlobIfPresent` | internal/httpserver/account_delete.go:356-368 | on success the named blob is gone; without failing calls it succeeds exactly when the reference is blank or a blob store is configured |
| `Text.TrimSpaceIsInner` | internal/httpserver/account_delete.go:357-357 | trimming takes all spaces off both ends of a reference and nothing else |
| `AccountPurge.Purger.DeleteProtectedLinks` | internal/httpserver/account_delete.go:273-290 | each link row goes only after its blob; on success none is left |
| `AccountPurge.Purger.DeleteOutboxPayloads` | internal/httpserver/account_delete.go:243-251 | on success no outbox payload blob is left, the rows stay |
| `AccountPurge.Purger.DeleteOwnedDomains` | internal/httpserver/account_delete.go:252-260 | removes only domains already reserved, and on success every listed domain in its normal form |
| `AccountPurge.Purger.DeletePartitions` | internal/httpserver/account_delete.go:314-354 | on success flags, events, opt-in data and the five fixed folders are gone, even if the folder list cannot be read; without failing calls the user's own folders too |
| `AccountPurge.Purger.DeleteMailboxData` | internal/httpserver/account_delete.go:292-329 | on success every ledger body and manifest is gone; ledger rows without Scylla are an error |
| `AccountPurge.Purger.PurgeUserAccount` | internal/httpserver/account_delete.go:216-271 | on success the user row is gone, exactly the named blobs were deleted and every owned name that is not blank is reserved; only owned names are ever reserved; from any partly purged state and without failing calls it succeeds exactly when the user is there, a blob store is configured or nothing is named, and Scylla is configured or the ledger is empty; after an error the user row is missing only if its own deletion failed after taking effect |
| `AccountPurge.ReadyKept` | internal/httpserver/account_delete.go:216-329 | an attempt never makes a later one impossible |
| `AccountPurge.Purger.PurgeWithRetries` | internal/httpserver/account_delete.go:371-445 | across any failures and retries nothing owned disappears unreserved and the user row goes last; if failures stop after n calls, more than n attempts remove the user |
| `SigV4.UriEncode` | internal/blobstore/sigv4.go:182-198 | the byte loop is the percent-encoding function |
| `SigV4.EncodedForm` | internal/blobstore/sigv4.go:186-195 | exactly the unreserved bytes of section 2.3 of RFC 3986, and slashes where they stay, are written as themselves; every other byte as % and two upper-case hex digits |
| `SigV4.DecodeUndoesEncode` | internal/blobstore/sigv4.go:182-198 | percent-decoding undoes it for every byte string in both slash modes |
| `SigV4.CanonicalUriPath` | internal/blobstore/sigv4.go:93-107 | the segment loop yields the encoded path, made absolute |
| `SigV4.SegmentsAreWholePath` | internal/blobstore/sigv4.go:97-101 | encoding segment by segment is encoding the whole path and keeping its slashes |
| `SigV4.PathDecodes` | internal/blobstore/sigv4.go:93-107 | the canonical path decodes to the path, made absolute |
| `SigV4Query.CanonicalQuery` | internal/blobstore/sigv4.go:109-138 | the result is the text of the sorted key list, whatever order the map yields |
| `Sorting.LexMeans` | internal/blobstore/sigv4.go:117-126 | the order of keys and values is byte order: a prefix first, otherwise the first difference decides |
| `SigV4Query.QueryParsesIff` | internal/blobstore/sigv4.go:109-138 | splitting and decoding gives all pairs sorted by raw key, then value, if and only if every key has a value or there is at most one key |
| `SigV4Query.SameTextIffSamePairs` | internal/blobstore/sigv4.go:109-138 | two queries have the same text if and only if they have the same multiset of pairs |
| `MailWire.WriteBodyLines` | internal/httpserver/api_outbox_plain.go:375-383 | the loop writes the stuffed lines, each ended by CRLF |
| `MailWire.LinesAreTheText` | internal/httpserver/api_outbox_plain.go:376-376 | the lines joined by LF are the text with CRLF read as LF, and none contains one |
| `MailWire.CrlfEndsLine` | internal/httpserver/api_outbox_plain.go:376-376 | every CRLF of the text ends a line |
| `MailWire.BodySurvivesSmtp` | internal/httpserver/api_outbox_plain.go:375-383 | an SMTP receiver recovers exactly the lines of the text, and no line sent is a lone dot |
| `MailWire.WriteBase64Lines` | internal/httpserver/api_outbox_plain.go:385-399 | the loop writes the encoding in lines |
| `MailWire.Base64LinesDecode` | internal/httpserver/api_outbox_plain.go:385-399 | lines of 76 characters, the last of 1 to 76, whose joined contents decode to the data |
| `Base64.RoundTrip` | internal/httpserver/api_outbox_plain.go:386-386 | decoding undoes base64 encoding for every byte string |
| `Base64.SymbolTable` | internal/httpserver/api_outbox_plain.go:386-386 | the alphabet is table 1 of RFC 4648 |
| `Base64.QuadBits` | internal/httpserver/api_outbox_plain.go:386-386 | four symbols hold the 24 bits of three bytes, most significant first |
| `Base64.UrlFormOfBase64` | internal/maillinks/links.go:72-78 | the token form is base64 with - and _ for + and /, without padding |
| `SrpChallenges.ChallengeTable.Issue` | internal/httpserver/auth_srp.go:54-76 | prunes exactly the expired challenges and adds the new one |
| `SrpChallenges.ChallengeTable.Take` | internal/httpserver/auth_srp.go:95-109 | always removes the id; accepts exactly a known challenge of the purpose asked for, if any, at most five minutes old |
| `SrpChallenges.TableIsOutstanding` | internal/httpserver/auth_srp.go:54-109 | over every run the table holds what was issued and not taken, save expired ones |
| `SrpChallenges.PruningIsInvisible` | internal/httpserver/auth_srp.go:54-109 | every take is answered as if nothing were ever pruned |
| `SrpChallenges.AcceptedAtMostOnce` | internal/httpserver/auth_srp.go:78-109 | after one take of an id no later take succeeds unless it is issued again |
| `SrpChallenges.AcceptedInTime` | internal/httpserver/auth_srp.go:95-109 | an accepted challenge is the last one issued under its id, for the purpose asked for, at most five minutes before |
| `GzipWriter.Writer.MaybeStartGzip` | internal/httpserver/gzip.go:74-100 | starts exactly for an uncommitted 200 response to a request other than HEAD of a compressible, unencoded type, announcing gzip before the header goes out |
| `GzipWriter.Writer.DoWriteHeader` | internal/httpserver/gzip.go:62-72 | commits once; a second call changes nothing |
| `GzipWriter.Writer.DoWrite` | internal/httpserver/gzip.go:102-120 | commits if needed and sends the bytes one way only |
| `GzipWriter.Writer.DoFlush` | internal/httpserver/gzip.go:132-139 | an early flush sends the headers set so far |
| `GzipWriter.Serve` | internal/httpserver/gzip.go:37-129 | for every handler run: at most one header call, the body through one way only and decoding to all writes, compression exactly when asked for, announced exactly when no early flush lost it; the status is that of the first header call or 200, and the headers sent are those asked for |
| `GzipWriter.CompressibleIff` | internal/httpserver/gzip.go:17-34 | a bare media type is compressed exactly if it is textual or one of the six listed application types |
| `GzipWriter.ParametersDoNotMatter` | internal/httpserver/gzip.go:18-18 | what follows the first semicolon does not matter |
| `GzipWriter.LateFlushIsSafe` | internal/httpserver/gzip.go:62-139 | without a flush before the first header or write the announcement is never lost |
| `GzipWriter.EarlyFlushLosesEncoding` | internal/httpserver/gzip.go:132-139 | for every compressible type an early flush loses it |
| `GzipWriter.HtmlFlushLosesEncoding` | internal/httpserver/gzip.go:17-34 | text/html is such a type |
| `ContentCache.CloneHomeForRender` | internal/httpserver/contentcache.go:47-54 | an equal home with a navigation array of its own |
| `ContentCache.ClearNavInactive` | internal/httpserver/contentcache.go:39-43 | clears every active flag and nothing else |
| `ContentCache.SetNavActive` | internal/httpserver/pages.go:27-31 | sets each flag by its id and changes nothing else |
| `ContentCache.Server.LoadHome` | internal/httpserver/load.go:43-66 | serves the cached value before expiry, else the load's; returns a home that shares no array with the cache or any earlier request |
| `ContentCache.Server.LoadPosts` | internal/httpserver/load.go:104-128 | the same for posts; an empty list is never cached |
| `ContentCache.Server.InvalidateContentCache` | internal/httpserver/contentcache.go:30-37 | both caches are empty afterwards |
| `ContentCache.Server.Activate` | internal/httpserver/pages.go:27-31 | marking one request's home changes no other request's home and not the cached one |
| `ContentRuns.StepKeepsInv` | internal/httpserver/load.go:43-128 | every step keeps cached and in-flight content within its own load's time span |
| `ContentRuns.ServedIsRecent` | internal/httpserver/load.go:43-66 | in every run, content served at t was read no earlier than t − TTL − the load's duration |
| `ContentRuns.ServedIsTraced` | internal/httpserver/load.go:43-66 | whatever is served was begun at a Begin step of the run and read piece by piece at its Read steps, with their versions and times |
| `ContentRuns.InvalidateTakesEffect` | internal/httpserver/contentcache.go:29-37 | with no load in flight every later answer was read after the mutation |
| `ContentRuns.InvalidateTakesEffectIff` | internal/httpserver/contentcache.go:29-37 | it takes effect on every continuation if and only if no load in flight has read older content |
| `ContentRuns.StaleLoadRefillsCache` | internal/httpserver/load.go:54-64 | a load in flight at the invalidation refills the cache and is served for the whole lifetime |

## Left out

- OutboxRuns.HoldersAreExclusive: is about runs on one clock in which recovery waits at least the worker window; OutboxRuns.SafeIffRecoveryWaits shows no smaller age will do; row deletion by the account cascade is not a step.
- LinkBlobs.OpenableLinkHasBlob: assumes blob keys and tokens are never drawn twice and no account purge runs; the case where insert and read-back differ is LinkBlobs.LinkHasBlobUnlessStripped.
- DkimHeaderLaws.CanonValueIsRelaxedIff: unfolding removes every CRLF, as the code does; a field value holds none that is not followed by a blank.
- DkimRecompute.VerifierRebuildsDigestInput: covers messages with a CRLF blank line that do not open with CRLF, tag values without control characters or semicolons, and listed names made of header-name characters; header names with inner spaces are read by Go in map order.
- DkimHeaders.CanonRelaxedValue: text is a sequence of code points, so the replacement of invalid UTF-8 is not modelled; header reading follows the documented behaviour of Go's textproto.
- KeyResolver.Resolver.Lookup: lower-casing is ASCII; a source is assumed to answer for the address it was asked; the AddressKeysVerified flag is dropped by the cache and not compared.
- AccountPurge.Purger.PurgeWithRetries: the sweep's list of due users, its seen set, telemetry and the expiry of reservations are not modelled, and no new rows of the user appear between attempts; references held in stores that are not configured are not counted as named.
- SigV4Query.CanonicalQuery: sorts raw names as the code does, which is not always the order of encoded names; the in-place sort of the caller's value lists is on values here.
- GzipWriter.Serve: the inner writer supports flushing; informational status codes, pool reuse, the Accept-Encoding and Range gate and compression errors are not modelled.
- ContentCache.Server.LoadHome: fields other than the navigation are one immutable value; parsing of the TTL setting is a parameter.
- SrpChallenges.ChallengeTable.Take: the session-backed path is not modelled; challenge ids are random draws.
- canonicalHeadersAndSigned, collapseWhitespace and SignRequest of the S3 signer: header canonicalization, easy next to the query.
- partitionRecipientsByLocality and the construction of plain mail around the body lines: list filtering.
- HTTP routing, JSON, cookies, templates, MFA flows, network key fetches, DNS checks, and all cryptography.
