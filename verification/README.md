# PMIRI, modelled and proved in Dafny

PMIRI is a fail-closed evidence store with an authorization boundary in front of
it. This project models its stateful core and proves what the design relies on,
for every input, every run and every interleaving of steps.

`dafny verify dfyconfig.toml` checks everything.

| module | part of the program |
|---|---|
| `Ordering` | Python's string and tuple order, stable sorting by key, and why a sorted result is unique |
| `Fingerprints` | requests, and `sha256_json` as an injective function of the record it is taken of |
| `PathNormalization` | percent-encoding and dot-segment passes of the URL path |
| `RateLimiter`, `Replay` | the limiters and replay guards, in memory and over SQLite |
| `Authorization`, `Registry`, `Service` | principals, bindings, evaluate and revalidate; the registries and the policy epoch; the service over them |
| `Store`, `Listing`, `StoreCrash` | the two content-addressed stores, migration, what listings promise, and crashes between any two write steps |
| `Evidence`, `Retrieval`, `Context` | ranked search and bounded context packing |
| `ReadProjection`, `ReadProtocol` | the authenticated read as one call, and as steps interleaved with everything else |
| `Lifecycle`, `ConnectionBinding`, `EmissionFence` | lifecycle histories, the two address and TLS cascades, the epoch-fenced emission |
| `Sealing` | sealing a directory and verifying the seal |

How the program is represented:

- Objects whose methods update fields are classes (`LocalStore`, `SQLiteStore`,
  `ReplayGuard`, the SQLite control-plane tables, `RequestAuthorizationService`,
  `ReadProjectionService`, `EnforcedTransportRuntime`). Each method is proved equal
  to a step function on values, and runs are sequences of those steps.
- A SQLite `BEGIN IMMEDIATE` block is one atomic step.
- Fingerprints in the control plane and the fence are injective. The store's
  content hash is an arbitrary function; only the lemmas that say so ask for
  injectivity.
- Timestamps are integers; the limiter's clock is `real`. An exception is an
  `Err` or `None`.

## What the code does beyond, or against, its promises

- A fixed window admits at most `2 * max_requests - 1` calls per key in any sliding
  window, one fewer than twice the limit. The bound is attained, and it needs a
  clock that never steps back (`SlidingWindowBound`, `BoundIsAttained`,
  `ClockMustNotStepBack`).
- "One ALLOW per request id" fails. A request that reaches the replay guard is
  refused if and only if some earlier ALLOW of its id is still live, that is, if no
  attempt that reached the guard since, itself included, came at or after the end of
  that ALLOW's binding (`ReplayDecisionExact`). Since `now` is the caller's, a later
  time on another request purges the entry and an earlier time then passes: an id is
  allowed at 50 and again at 60 under a binding that ends at 100 (`AllowedTwice`).
  With times that never step back, a repeat is allowed exactly from the end of its
  earlier bindings on (`RepeatUnderSteadyTime`), the end itself included although
  the binding is still valid then (`RepeatIsRefusedBeforeExpiryOnly`).
- The in-memory guard purges from the head of its queue only, so an id that has ended
  is still refused behind one that has not (`StuckBehindALiveId`); it is admitted
  exactly when everything queued up to it has ended (`AdmitsExactly`). Where ids end
  in the order they came the guard is exact (`MemoryReplayExact`).
- `integrity_valid` does not cover a binding's id and its copy of the purpose
  (`IntactBindings`); revalidation compares both.
- An envelope that is constrained on the trust side only does not pass the fence it
  was built for, because its action is then not the network decision's
  (`FreshEnvelopeExact`).
- `migrate_from_local_store` raises on some names both stores accept: those whose
  backslashes, once stored as slashes, make an absolute path or a `..` segment
  (`MigrationExact`, `BackslashNameDoesNotMigrate`).
- `ContextCompiler.compile` marks a conflict group as handled even when the group
  is not listed, so the later items of an unlisted group appear nowhere
  (`ConservationExact`, `UnlistedGroupLosesAnItem`). A search always lists them, so
  no query is affected (`QueryLosesNothing`). The loop also counts one separator too
  many: nothing is omitted if and only if the whole text fits, with one character to
  spare as soon as there is more than one unit (`NothingOmittedIff`), and two units
  of exactly the bound's length lose the second (`ExactFitIsOmitted`).
- `build_connection_binding` raises on an empty address list, and when a mismatched
  identity is expected under the name `identity://mismatch` (`BuildExact`).
  `evaluate_network` on a valid URL without addresses raises as well, because its
  own reason is outside the reason vocabulary (`NetworkDecisionExact`).
- `validate_transition_history` accepts histories `validate_lifecycle` refuses
  (`ConnectedIsNotLegal`); the other direction holds.
- Four branches of `_remove_dot_segments` can never run: the input buffer always
  starts with a slash. They are in the model, proved dead.

## Model

| member | source | states |
|---|---|---|
| `PathNormalization.CanonicalizePercentEncoding` | pmiri/network.py:323-341 | the index loop returns the one canonical spelling of the text's meaning, or the source's error for a malformed triplet or an encoded slash or backslash |
| `PathNormalization.ParseSpell` | pmiri/network.py:323-341 | round trip: reading the canonical spelling of any legal meaning gives that meaning back |
| `PathNormalization.PercentPassIsCanonical` | pmiri/network.py:323-341 | the pass keeps the meaning, two accepted texts get one spelling if and only if they mean the same, and a second pass changes nothing |
| `PathNormalization.PercentFixpoint` | pmiri/network.py:323-341 | a text is returned unchanged if and only if every percent sign starts an upper-case triplet that must stay encoded |
| `PathNormalization.AcceptedExactly` | pmiri/network.py:323-341 | a text is accepted if and only if every percent sign starts a two-digit triplet that stands for neither slash nor backslash |
| `PathNormalization.FirstFaultDecides` | pmiri/network.py:323-341 | otherwise the first percent sign that does not decides which of the two errors is raised |
| `PathNormalization.OctetsKept` | pmiri/network.py:323-341 | decoding the result gives the octets decoding the input gives |
| `PathNormalization.UnreservedCharacters` | pmiri/network.py:315-341 | the characters that lose their encoding are letters, digits and four marks, ranges checked at both ends |
| `PathNormalization.HexDigits` | pmiri/network.py:323-341 | digit values and their upper-case spelling, both cases read alike |
| `PathNormalization.RemoveDotSegments` | pmiri/network.py:344-376 | the list-and-pop loop equals the string-buffer algorithm of section 5.2.4 of RFC 3986 on every path, rooted first where needed; the result starts with a slash |
| `PathNormalization.EmittedSegments` | pmiri/network.py:346-374 | the input buffer strictly shrinks and stays empty or slash-led; the segments left are never none, hold one slash each and are no dot segments |
| `PathNormalization.DotFixpoint` | pmiri/network.py:344-376 | the dot pass always yields a rooted path without dot segments, and changes nothing exactly on those |
| `PathNormalization.DotsAreWalked` | pmiri/network.py:344-376 | the dot pass equals walking the names of the path on a stack: "." stays, ".." goes up and stops at the root, and either at the end leaves a trailing slash |
| `PathNormalization.Normalize` | pmiri/network.py:422-422 | both passes in the order `normalize_url` applies them, the empty path standing for "/" |
| `PathNormalization.NormalizationIdempotent` | pmiri/network.py:323-376 | every accepted path's normal form is accepted unchanged by each pass and by both, and has no dot segment even where dots were encoded |
| `PathNormalization.NormalForms` | pmiri/network.py:323-376 | a path is its own normal form if and only if it is percent-canonical, rooted and free of dot segments |
| `RateLimiter.FixedWindowRateLimiter.Consume` | pmiri/request_auth.py:295-305 | answer and new window table are those of the limiter step |
| `RateLimiter.SQLiteRateLimiter.Consume` | pmiri/control_plane.py:255-274 | the same answer and the same table as the in-memory limiter, call by call |
| `RateLimiter.SlidingWindowBound` | pmiri/request_auth.py:295-305 | under a nondecreasing clock no half-open interval one window long holds more than 2 * max_requests - 1 accepted calls of a key |
| `RateLimiter.AdmittedBelowTheLimit` | pmiri/request_auth.py:295-305 | nobody is refused below the limit: with fewer than max_requests calls of its own key accepted less than a window ago a call is admitted, whatever other keys do |
| `RateLimiter.BoundIsAttained` | pmiri/request_auth.py:295-305 | for every policy and key some run reaches that bound |
| `RateLimiter.ClockMustNotStepBack` | pmiri/request_auth.py:295-305 | a run whose clock steps back exceeds the bound |
| `Replay.AdvanceValid` | pmiri/request_auth.py:267-281 | every call keeps the queue duplicate-free, equal as a set to the map's keys, and within max_entries |
| `Replay.ReplayGuard.Consume` | pmiri/request_auth.py:267-281 | purge, test, evict and push: answer and new queue and map are those of the guard step, and the invariant is kept |
| `Replay.NoReplay` | pmiri/request_auth.py:267-281 | in every run an accepted id is refused again while every time since is before its expiry and fewer than max_entries ids were accepted in between |
| `Replay.AdmitsExactly` | pmiri/request_auth.py:271-275 | in every state a call is admitted if and only if its id is not held, or it and every id queued before it have expired |
| `Replay.HeadIsLive` | pmiri/request_auth.py:271-281 | after a refused call the head of the queue is still to expire; after an accepted one the call's id is last, with its expiry |
| `Replay.ForgottenAfterExpiry` | pmiri/request_auth.py:271-273 | an id whose entry has ended is accepted again, whatever the capacity |
| `Replay.StuckBehindALiveId` | pmiri/request_auth.py:271-273 | an ended id queued behind a live one is refused all the same |
| `Replay.MemoryReplayExact` | pmiri/request_auth.py:267-281 | over every run whose accepted ids expire in order, a call is refused if and only if an earlier accepted call of its id is outlived by no time since and is among the last max_entries accepted |
| `Replay.CapacityIsExact` | pmiri/request_auth.py:267-281 | with no expiry in play an id is refused if and only if it is among the last max_entries accepted ids |
| `Replay.SQLiteReplayGuard.Consume` | pmiri/control_plane.py:218-236 | delete expired rows, then insert unless present: answer and new table |
| `Replay.SqlReplayExact` | pmiri/control_plane.py:218-236 | over all runs a call is accepted if and only if every earlier accepted call with its id has been outlived by some time seen since; no capacity condition |
| `Authorization.GenuineRebuilds` | pmiri/request_auth.py:71-215 | a principal built by `verified` from an attestation built by `issue` is rebuilt identically from its own fields |
| `Authorization.IssuedExactly` | pmiri/request_auth.py:71-107 | `issue` accepts exactly a fully named, ACTIVE attestation with evidence and a forward interval, and keeps what it was given, evidence as a sorted set |
| `Authorization.VerifiedExactly` | pmiri/request_auth.py:141-215 | `verified` accepts exactly full names, some of each authority and no empty one, an epoch, ACTIVE, an attestation of the same principal and a forward interval; lists become sorted sets, all else is kept |
| `Authorization.GenuineMeans` | pmiri/request_auth.py:71-215 | what every principal built that way therefore has |
| `Authorization.StoredRoundTrip` | pmiri/control_plane.py:54-127 | decoding the encoded payload of such a principal returns that principal |
| `Authorization.DecodedIsGenuine` | pmiri/control_plane.py:88-127 | whatever payload decodes gives a principal that `verified` and `issue` would build, under the stored fingerprint and reference |
| `Authorization.FingerprintDecides` | pmiri/request_auth.py:141-215 | two such principals with one fingerprint are equal, so a payload altered under an issued fingerprint cannot decode to anyone else |
| `Authorization.AuthorityIsTheIntersection` | pmiri/security.py:54-62 | a key survives if and only if every scope has it, and a value under it if and only if every scope lists it; the result is sorted without repeats |
| `Authorization.EffectiveAuthority` | pmiri/request_auth.py:436-456 | the effective authority is exactly the singleton project, operation and purpose if and only if the principal grants all three |
| `Authorization.IssuedBinding` | pmiri/request_auth.py:495-531 | every ALLOW issues a binding that passes its integrity test for the request, is valid now, belongs to the resolved principal and grants the singleton authority |
| `Authorization.BindingSays` | pmiri/request_auth.py:422-493 | every field of a built binding: request, principal, zone, policy and end, and what its purpose and subject fingerprints are taken of |
| `Authorization.IntactBindings` | pmiri/request_auth.py:342-366 | two intact bindings with one fingerprint are for one request and agree in every field but the id and the copied purpose |
| `Authorization.AlteredBindingIsRefused` | pmiri/request_auth.py:342-366 | an intact binding altered in any other field, or presented for another request, is not intact |
| `Authorization.RevalidationExact` | pmiri/request_auth.py:535-563 | an issued binding revalidates if and only if the reference resolves to a principal that rebuilds the same binding, the epoch is unchanged and the time lies in the binding's, the principal's and the attestation's intervals |
| `Authorization.RevalidationOfSamePrincipal` | pmiri/request_auth.py:535-563 | while the same principal is registered this comes down to the epoch and the time |
| `Registry.SQLiteAuthenticationRegistry.Register` | pmiri/control_plane.py:152-174 | new row, idempotent repeat, or refusal of a changed or revoked reference leaving the table alone |
| `Registry.SQLiteAuthenticationRegistry.Resolve` | pmiri/control_plane.py:176-190 | the decoded payload, unless missing, revoked or not matching its stored fingerprint |
| `Registry.SQLiteAuthenticationRegistry.Revoke` | pmiri/control_plane.py:192-200 | marks the row; reports true if and only if an unrevoked row was there |
| `Registry.SQLitePolicyEpoch.Advance` | pmiri/control_plane.py:301-314 | moves if and only if the new epoch is nonnegative and not lower |
| `Registry.SQLitePolicyEpoch.Bump` | pmiri/control_plane.py:316-327 | raises the epoch by one and returns it |
| `Registry.RowIsFirstRegistration` | pmiri/control_plane.py:152-200 | over every run the row of a reference is its first registration for ever, revoked exactly when a revocation followed |
| `Registry.ResolvesOnlyToTheFirst` | pmiri/control_plane.py:152-200 | over every run a reference resolves only to its first principal, and to nothing once revoked or if never registered |
| `Registry.RegistersExactly` | pmiri/control_plane.py:152-174 | over every run a registration is accepted under a new reference or as a repeat of a standing one, refused as rebound when its fingerprint is not the first one's, and as revoked when it is |
| `Registry.RevokedNeverRegisters` | pmiri/control_plane.py:152-200 | after a revocation no registration under that reference succeeds |
| `Registry.AuthenticationRegistry.Register` | pmiri/request_auth.py:242-247 | the in-memory registration, refusing a changed principal |
| `Registry.AuthenticationRegistry.Resolve` | pmiri/request_auth.py:249-253 | the in-memory lookup, missing or empty references included |
| `Registry.RegisterBoth` | pmiri/control_plane.py:152-174 | both registries accept the same registrations and stay equal |
| `Registry.RegistriesAgree` | pmiri/request_auth.py:242-253 | after every sequence of genuine registrations both resolve every reference alike |
| `Service.RequestAuthorizationService.Evaluate` | pmiri/request_auth.py:495-533 | over the SQLite adapters: screening, limiter, binding, replay in that order; decision and both tables equal the evaluation step |
| `Service.InMemoryAuthorizationService.Evaluate` | pmiri/request_auth.py:495-533 | the same method in its default wiring, over the in-memory registry, limiter and replay guard |
| `Service.InMemoryAuthorizationService.AdvancePolicyEpoch` | pmiri/request_auth.py:405-414 | without an epoch store the epoch moves if and only if it does not go backwards |
| `Service.RequestAuthorizationService.Revalidate` | pmiri/request_auth.py:535-563 | equals the revalidation predicate and changes nothing |
| `Service.AskedExactly` | pmiri/request_auth.py:495-523 | an attempt of a genuine principal brings its binding to the replay guard if and only if the request is proper, the reference resolves, principal and attestation are in force, project, operation and purpose are among those allowed and the limiter admits; otherwise the first of these that fails decides the reason |
| `Service.EvaluateExactly` | pmiri/request_auth.py:495-533 | every decision of every run: that verdict, and REQUEST_REPLAY or ALLOW after it |
| `Service.SecondProjectIsAllowed` | pmiri/request_auth.py:511-512 | a request for the second of two allowed projects is allowed |
| `Service.AllowsPerPrincipalBounded` | pmiri/request_auth.py:517-521 | whatever projects, registrations and epochs a run sees, one principal gets at most 2 * max_requests - 1 ALLOWs in any interval one window long |
| `Service.ReplayDecisionExact` | pmiri/request_auth.py:495-533 | the decision on every attempt of every run: the refusal of screening, limiter or binding if there is one; otherwise REQUEST_REPLAY if and only if an earlier ALLOW of the id is still live, and ALLOW if not |
| `Service.AllowedOnce` | pmiri/request_auth.py:524-530 | in every run a request id allowed once is not allowed again while every time since is before the binding's end |
| `Service.RepeatUnderSteadyTime` | pmiri/request_auth.py:524-530 | with times that never step back a repeat is allowed if and only if every earlier allowed binding of its id has ended |
| `Service.AllowedTwice` | pmiri/request_auth.py:524-530 | a concrete run in which one id is allowed twice before the end of its first binding |
| `Service.AllowedOnceInMemory` | pmiri/request_auth.py:267-281 | over the in-memory guard an allowed id is denied while its ALLOW is live and fewer than max_entries attempts were allowed in between |
| `Service.MemoryDecisionExact` | pmiri/request_auth.py:495-533 | over every run from an empty in-memory guard whose allowed bindings end in order of issue, every decision: the verdict on the facts, and REQUEST_REPLAY exactly when such an ALLOW exists |
| `Service.RepeatIsRefusedBeforeExpiryOnly` | pmiri/request_auth.py:524-530 | the edge in one instant: the same attempt repeated at once is refused before the binding's end and allowed at it |
| `Store.NormalizeTextIdempotent` | pmiri/canonical.py:45-48 | the normalized text has no carriage return and normalizes to itself |
| `Store.NormalizedInPieces` | pmiri/canonical.py:45-48 | normalizing two pieces and joining them is normalizing the whole, unless a "\r\n" is cut in two |
| `Store.LineBreaks` | pmiri/canonical.py:45-48 | each of the three line breaks becomes one "\n" |
| `Store.MadeRecord` | pmiri/store.py:124-141 | a record has the registration's project, time and metadata, its name with backslashes turned, its normalized text, and ids and fingerprint made of these |
| `Store.RefusedExactly` | pmiri/store.py:124-127 | a registration is refused if and only if project or name is empty, the name starts with a slash or has a ".." part, or the bytes do not decode |
| `Store.LocalStore.RegisterBytes` | pmiri/store.py:115-153 | whatever the state of the blobs: refusals change nothing; otherwise index and blobs become those of the local step; the index stays sorted, and a sound store stays sound |
| `Store.LocalStore.ListSources` | pmiri/store.py:179-194 | filter, latest version per source, order and blob loading, missing and damaged blobs included |
| `Store.RegistrationRepairs` | pmiri/store.py:146-149 | registering a version not yet indexed leaves its blob sound, a missing or damaged one written anew, and no other blob touched |
| `Store.LoadFailsExactly` | pmiri/store.py:202-221 | loading fails if and only if some selected entry's blob is missing or does not have its hash, and the first such entry decides the error |
| `Store.SelectRows` | pmiri/store.py:185-193 | the dictionary loop and the sort leave exactly the rows no other version of the same source is newer than, in key order |
| `Store.FilledIsLatest` | pmiri/store.py:186-191 | the dictionary the loop fills holds each source once, in order of appearance, with a row no other of that source is newer than |
| `Store.FillTable` | pmiri/store.py:186-191 | the loop computes that dictionary |
| `Store.SQLiteStore.RegisterBytes` | pmiri/store.py:325-370 | refusals change nothing; otherwise both tables become those of the SQL step |
| `Store.SQLiteStore.ListSources` | pmiri/store.py:417-427 | the same selection over the ordered rows |
| `Store.SQLiteStore.MigrateFrom` | pmiri/store.py:439-454 | an existing target is refused and left alone; a source that does not load leaves no target; otherwise every version is registered in turn up to the first refusal, and the tables hold exactly what was copied |
| `Store.LocalAddInv` | pmiri/store.py:142-153 | every registration keeps the index sorted, its versions distinct and each blob correctly hashed |
| `Store.StoresMirror` | pmiri/store.py:115-153 | after every registration sequence the local index is the sorted SQL table and the blobs agree |
| `Store.StoresAgree` | pmiri/store.py:417-437 | for every registration sequence both stores list the same sources, current or with history, one project or all, and have one canonical payload |
| `Store.MigrationExact` | pmiri/store.py:439-454 | migrating any reachable local store succeeds if and only if every indexed name is still a valid identity, and then payload and every listing are the source's |
| `Store.BackslashNameDoesNotMigrate` | pmiri/store.py:319-323 | the name "\\a" is registered by the local store and refused by the migration |
| `Store.RegistrationOrderFree` | pmiri/store.py:142-152 | registering the same pairwise distinct versions in any order leaves the same index |
| `Store.ListingOrderFree` | pmiri/store.py:179-194 | and, for an injective content hash, the same listings |
| `Listing.SelectedEntry` | pmiri/store.py:179-194 | an entry is selected if and only if it is indexed, in scope and, without history, superseded by no entry of its source in capture time, then version id |
| `Listing.Listed` | pmiri/store.py:179-221 | on a sound store every listing succeeds and shows each selected entry with the text its fingerprint was taken of |
| `Listing.CurrentIsNewest` | pmiri/store.py:185-192 | a currently listed version was captured no earlier than any indexed version of its source, and among equals has the highest version id |
| `Listing.EverySourceOnce` | pmiri/store.py:185-192 | every source in scope is currently listed, in exactly one version |
| `Listing.HistoryIsComplete` | pmiri/store.py:179-194 | a listing with history has exactly the indexed entries in scope |
| `Listing.ListingInOrder` | pmiri/store.py:193-194 | listings are in order of project, source id and version id |
| `Listing.NothingRegisteredIsLost` | pmiri/store.py:142-153 | after every registration sequence the history shows each accepted registration's source, version and normalized text |
| `Listing.LaterCaptureIsListed` | pmiri/store.py:185-192 | of two versions of one source, registered in either order, the later captured is what the project currently lists |
| `Listing.FebruaryIsCurrent` | pmiri/store.py:190-190 | with the two dates written out |
| `StoreCrash.StepKeeps` | pmiri/store.py:84-109 | every step, a crash included, keeps the disk invariant and only adds entries and blobs |
| `StoreCrash.CrashSafe` | pmiri/store.py:84-153 | in every reachable state each index entry has a correctly hashed blob, and the index is that of the atomic store after the committed records |
| `StoreCrash.CommittedForever` | pmiri/store.py:142-153 | whatever follows, committed entries and their blobs are never changed or dropped |
| `StoreCrash.CrashIsInvisible` | pmiri/store.py:84-153 | a crash anywhere leaves every listing as it was, and listings never fail |
| `StoreCrash.CallCommits` | pmiri/store.py:142-153 | an undisturbed run through the steps does what the atomic registration does |
| `Retrieval.MatchingSpans` | pmiri/retrieval.py:43-52 | the line loop returns the matching spans of the content |
| `Retrieval.ItemsForSpans` | pmiri/retrieval.py:72-95 | one item per span of a source, with its score, anchor and conflict group |
| `Retrieval.ScoreSources` | pmiri/retrieval.py:64-95 | the nested loops collect the items of all sources |
| `Retrieval.SearchStore` | pmiri/retrieval.py:59-109 | a search of a store object, its request and token errors included, is the search function of its contents |
| `Retrieval.ItemsAreTheHits` | pmiri/retrieval.py:64-95 | an item is scored if and only if it stands for a matching line of some listed source |
| `Retrieval.ItemsAreTheLines` | pmiri/retrieval.py:43-95 | an item is scored if and only if some source line has a query token; its score is their number and its fields are the source's and the line's |
| `Retrieval.HitsHaveDistinctKeys` | pmiri/retrieval.py:96-98 | over distinct sources no two items share a sort key, so the ranking has no ties |
| `Retrieval.SearchIsTopK` | pmiri/retrieval.py:96-109 | highest score first, ties by source, version and anchor; min(max_results, hits) items; no hit left out ranks before one returned; the groups listed are exactly the nonempty ones of the items; coverage tells whether there was a source |
| `Retrieval.BetterLineWins` | pmiri/retrieval.py:96-97 | of two lines, one matching one query word and one matching both, the latter is the one result |
| `Retrieval.SearchIgnoresListingOrder` | pmiri/retrieval.py:96-98 | any order of the same sources gives the same items |
| `Retrieval.SearchOnReachableStore` | pmiri/retrieval.py:59-109 | on every reachable store a search with tokens succeeds, in rank order, within max_results and in the requested project |
| `Retrieval.SearchIgnoresRegistrationOrder` | pmiri/store.py:142-152 | registering the same distinct versions in another order changes no search result |
| `Context.Compile` | pmiri/context.py:14-54 | the packing loop's text, references, citations, ledger and disposition are those of the greedy packing of units |
| `Context.RenderSnoc` | pmiri/context.py:37-38 | the text, item by item: reference, anchor and the item's own text, joined by line ends |
| `Context.CompiledContract` | pmiri/context.py:14-54 | text within max_chars, references and citations line up with the rendered items, one ledger entry per omitted unit, DEGRADED exactly when something was omitted and otherwise the evidence's own disposition; coverage, lineage and bound passed on |
| `Context.NothingThatFitsIsOmitted` | pmiri/context.py:26-33 | no omitted unit could be added to the finished text with a character to spare |
| `Evidence.DispositionTable` | pmiri/models.py:105-112 | the disposition the compiler starts from: empty, conflicted, uncertain or supported |
| `Context.ConservationExact` | pmiri/context.py:14-54 | selected items and omitted units together are exactly the evidence, at every bound, if and only if every repeated conflict group is listed |
| `Context.UnlistedGroupLosesAnItem` | pmiri/context.py:21-35 | two items of an unlisted group: the second is neither selected nor in the ledger |
| `Context.GroupsAllOrNothing` | pmiri/context.py:21-35 | where repeated groups are listed, each conflict group is wholly selected, or in the ledger and wholly left out |
| `Context.NothingOmittedIff` | pmiri/context.py:26-33 | nothing is omitted if and only if the whole text fits, with one character to spare when there is more than one unit; then everything is selected in order |
| `Context.ExactFitIsOmitted` | pmiri/context.py:26-33 | two ungrouped items whose text is exactly as long as the bound: the second is omitted and in the ledger |
| `ReadProjection.ReadProjectionService.HandleAuthenticated` | pmiri/read_projection.py:128-156 | evaluate, query, revalidate, disclose on the stateful service: response, decision and counters |
| `ReadProjection.NonInterference` | pmiri/read_projection.py:108-156 | a denied read, one that fails revalidation and an allowed one that finds nothing all get the same response, field by field, whatever two sound stores hold |
| `ReadProjection.EvidenceShownExactly` | pmiri/disclosure.py:44-60 | evidence is shown if and only if the read was allowed, revalidated and found something; then every item in order with all but its text, its references, the compiled context, and the search's coverage and disposition |
| `ReadProjection.SilentAnswer` | pmiri/disclosure.py:19-41 | field by field, the answer of every other read: empty, unknown, and derived from request and bound alone |
| `ReadProjection.QueryFailsOnlyForTheRequest` | pmiri/read_projection.py:128-156 | on a sound store a query fails only for its own request, so an error tells nothing about contents |
| `ReadProjection.QueryLosesNothing` | pmiri/runtime.py:17-27 | search then packing, for every source list, request and bound: every item found is in the context once or in an omitted unit, groups are all or nothing, the bound holds |
| `ReadProjection.SearchListsItsGroups` | pmiri/retrieval.py:98-98 | a search lists every conflict group of its items, the condition conservation needs |
| `ReadProjection.EvaluationIsIssuedFor` | pmiri/request_auth.py:331-337 | every decision's public lineage is that of the request at hand |
| `ReadProtocol.AuthorizedWasRevalidated` | pmiri/read_projection.py:119-156 | in every interleaving a read is authorized only by its own earlier revalidation step |
| `ReadProtocol.CheckedExactly` | pmiri/read_projection.py:119-156 | a checked read is authorized if and only if, at an earlier revalidation step of its own, it had been allowed and its binding revalidated |
| `ReadProtocol.ReadSteps` | pmiri/read_projection.py:119-156 | what each of the four steps does to a read: evaluation and revalidation on the state of their own moment, and evidence shown exactly if authorized |
| `ReadProtocol.EvidenceWasRevalidated` | pmiri/read_projection.py:119-156 | in every interleaving an evidence-bearing response was preceded by a revalidation at which the principal was registered and unrevoked and the binding's epoch was current |
| `ReadProtocol.EpochsNeverFall` | pmiri/control_plane.py:301-327 | the policy epoch never falls in a run |
| `ReadProtocol.PassedEpochIsFinal` | pmiri/request_auth.py:535-563 | once the epoch has passed a binding's epoch the binding never revalidates again |
| `ReadProtocol.RowsOnlyGetRevoked` | pmiri/control_plane.py:152-200 | a registered row never changes but for being revoked, and stays revoked |
| `ReadProtocol.RevalidationDuringRun` | pmiri/request_auth.py:535-563 | from the step that allowed a read on, its binding revalidates if and only if its reference is unrevoked, the epoch unchanged and the time between issue and the earlier end of principal and attestation |
| `Lifecycle.ValidateLifecycle` | pmiri/decisions.py:132-241 | the loop over transitions accepts exactly the records with a sound header and a legal history ending in the terminal state |
| `Lifecycle.RankGrows` | pmiri/decisions.py:15-23 | every legal transition climbs a rank of at most three, so histories are acyclic |
| `Lifecycle.LegalHistoriesFollowTheEight` | pmiri/decisions.py:15-23 | every legal history goes along one of eight state sequences |
| `Lifecycle.TheEightAreLegal` | pmiri/decisions.py:15-23 | and each of the eight is legal at any times in order |
| `Lifecycle.LegalExactly` | pmiri/decisions.py:211-237 | a history is legal if and only if its states are one of the eight traces, its times are in order, and numbers, states and events follow from these |
| `Lifecycle.EventTable` | pmiri/decisions.py:15-23 | the event of each of the seven legal moves |
| `Lifecycle.AcceptedExactly` | pmiri/decisions.py:132-241 | the validator's verdict from the fields alone: seal, names, vocabulary, guards, trace, terminal state, and visibility, predicate and typed data as that state asks |
| `Lifecycle.ValidateTransitionHistory` | pmiri/policy.py:289-296 | the loop accepts exactly the nonempty connected histories ending in the terminal state |
| `Lifecycle.AcceptedLifecycle` | pmiri/decisions.py:132-241 | at most three transitions, empty exactly when the terminal state is NOT_APPLICABLE, TYPED_DATA_ONLY exactly after quarantine then admission, and a nonempty history also passes the transition-history check |
| `Lifecycle.ConnectedIsNotLegal` | pmiri/policy.py:289-296 | the converse fails: an admission without quarantine passes only the weaker check |
| `ConnectionBinding.ValidateConnectionBinding` | pmiri/network.py:200-312 | the entry loop, the selection cascade and the event loop with its running time and three epoch rules accept exactly the valid records |
| `ConnectionBinding.EventsExactly` | pmiri/network.py:282-306 | events pass if and only if they are numbered, begin with the initial resolution, move the epochs as their kind says and never go back in time |
| `ConnectionBinding.ValidExactly` | pmiri/network.py:200-312 | the validator's verdict from the fields alone: fingerprint, addresses as the library reads them, set status, selection, proxy, host name and identities, events, epochs and the conditions of VALIDATED |
| `ConnectionBinding.BuildConnectionBinding` | pmiri/network.py:78-197 | the record assembled from the classified addresses and the status cascade equals the specified one, and is returned if and only if the validator accepts it |
| `ConnectionBinding.BuildExact` | pmiri/network.py:78-312 | with legal arguments the built record passes the validator if and only if there is an address and a mismatch is not expected under its own name |
| `ConnectionBinding.BuiltRecord` | pmiri/network.py:94-197 | a built record has each observed address in its place and the rest as observed |
| `ConnectionBinding.BuiltStatus` | pmiri/network.py:123-157 | its selection, status and event result are what the first failing condition gives |
| `ConnectionBinding.EvaluateResolution` | pmiri/policy.py:61-78 | the loop's entries, set status and selected address |
| `ConnectionBinding.CascadesAgree` | pmiri/gate_d.py:506-523 | both cascades give the same set status, selected address and binding status, and ALLOW exactly when the binding is VALIDATED |
| `ConnectionBinding.CascadeTable` | pmiri/gate_d.py:506-523 | action, status and reason of the decision cascade, case by case |
| `EmissionFence.NetworkDecisionExact` | pmiri/gate_d.py:470-622 | a provider-call decision exists if and only if the URL is refused or has an address and its binding builds; a refused URL is denied; ALLOW exactly when the built binding is VALIDATED; its other fields are the request's and the binding's |
| `EmissionFence.AcceptanceAlwaysMeans` | pmiri/gate_d.py:720-783 | acceptance of any envelope means its reference resolves now to an unrevoked, genuine principal that grants the request and rebuilds the same binding under exactly the requested authority, and engine, service, envelope and binding are at one epoch |
| `EmissionFence.AcceptedNetworkAllows` | pmiri/decisions.py:244-350 | and the network decision allows, on an all-public VALIDATED binding with matching TLS and final revalidation |
| `EmissionFence.AcceptedEnvelopeIsTied` | pmiri/gate_d.py:733-783 | acceptance ties the envelope to the presented network decision (reference, fingerprint, connection, destination, operation, purpose, action), to the binding, to the states of the other decisions and, for content operations, to the accepted lifecycle |
| `EmissionFence.OtherDestinationIsRefused` | pmiri/gate_d.py:781-782 | an envelope asked for one destination is refused with a decision for another |
| `EmissionFence.RedirectedEmissionIsRefused` | pmiri/gate_d.py:781-782 | the accepted example, asked for another destination, is built and refused |
| `EmissionFence.FreshEnvelopeExact` | pmiri/gate_d.py:624-783 | build then authorize: the engine's envelope for a provider call, presented with what it was built from, is accepted if and only if all three decisions allow, trust constraints are also on the network side, the binding is the request's, current and in force, no other destination is named and the service revalidates |
| `EmissionFence.ActionTable` | pmiri/gate_d.py:640-663 | the action an envelope carries, case by case |
| `EmissionFence.TrustTable` | pmiri/decisions.py:63-99 | which trust state may carry which action |
| `EmissionFence.CapabilityTable` | pmiri/decisions.py:102-129 | which capability state may carry which action, and when observations may be missing |
| `EmissionFence.OutboundTable` | pmiri/decisions.py:244-289 | which network decisions are valid, by operation, lifecycle and action |
| `EmissionFence.AcceptedEmission` | pmiri/gate_d.py:624-783 | an envelope the engine builds for a registered principal's request is accepted: a concrete engine, service, envelope and evidence |
| `EmissionFence.AcceptanceDuringRun` | pmiri/gate_d.py:720-783 | an accepted emission presented again after any steps is accepted if and only if its reference was not revoked, both epochs are unchanged and the time lies in the binding's, principal's and attestation's intervals |
| `EmissionFence.RevocationIsFinal` | pmiri/gate_d.py:770-772 | after a registered reference is revoked no envelope authorized under it is ever accepted, however it was made and whatever is presented |
| `EmissionFence.RowsOnlyGetRevoked` | pmiri/control_plane.py:152-200 | over the fence's runs a row stays as it is but for the revocation mark, set exactly by a revoke step |
| `EmissionFence.AcceptedEngineEnvelope` | pmiri/gate_d.py:624-783 | for an engine-built envelope acceptance also means an allowing trust state, FRESH capability, the same request and binding fingerprint, an unchanged epoch and, where the network decision it was built with is valid and carries its fingerprint, that very decision presented |
| `EmissionFence.EpochsNeverFall` | pmiri/gate_d.py:333-343 | the engine's and the service's epochs never fall and an invalidation raises the engine's |
| `EmissionFence.InvalidationIsFinal` | pmiri/gate_d.py:333-343 | after an invalidation no envelope built before it is ever accepted, whatever is presented with it |
| `EmissionFence.EnforcedTransportRuntime.Invalidate` | pmiri/gate_d.py:333-343 | the engine moves to the next epoch and returns it |
| `EmissionFence.EnforcedTransportRuntime.AuthorizeEmission` | pmiri/gate_d.py:720-783 | the fence check by check, asking the live authorization service, accepts exactly what the fence predicate says; without a service it refuses |
| `EmissionFence.EnforcedTransportRuntime.ExecuteProvider` | pmiri/gate_d.py:802-828 | the transport is called once with the payload exactly when the receipt says so, and that is exactly when the fence accepts without a lifecycle, a permitted transport is present and all six fields it is bound to match; BLOCKED and DENIED are told apart |
| `EmissionFence.ProviderNeverSendsContent` | pmiri/gate_d.py:817-821 | a content operation is never accepted on the provider path, which passes no lifecycle |
| `Sealing.SealDirectory` | pmiri/sealing.py:107-162 | the file and role loops fill in the manifest of the evidence files |
| `Sealing.VerifySeal` | pmiri/sealing.py:165-222 | manifest fingerprint, inventory, then entries: the verdict |
| `Sealing.VerifyEntries` | pmiri/sealing.py:209-222 | the entry loop stops at the first entry that does not match its file |
| `Sealing.SealedEntries` | pmiri/sealing.py:107-162 | the entries are sorted and describe exactly the evidence files |
| `Sealing.ManifestSays` | pmiri/sealing.py:113-152 | entry by entry: every evidence file with role, length and bytes, every required role no file has with a reason, and complete exactly when there is none of those |
| `Sealing.EntriesInOrder` | pmiri/sealing.py:141-141 | entries are in order of path, absent ones first, then role |
| `Sealing.VerifiesExactly` | pmiri/sealing.py:183-222 | any manifest, sealed or not, verifies if and only if both digests are of its own contents, ids and paths are unique, the required roles are the program's, its present entries are exactly the current evidence and its absent ones give a reason |
| `Sealing.ManifestVerdicts` | pmiri/sealing.py:183-198 | the first of the four checks on the manifest itself that fails gives the verdict |
| `Sealing.SealExact` | pmiri/sealing.py:165-222 | a seal verifies if and only if the current evidence files, paths and bytes, are the sealed ones |
| `Sealing.RefusalNamesADifference` | pmiri/sealing.py:165-222 | a refusal of an untouched manifest names a path that really differs |
| `Sealing.SealIgnoresWalkOrder` | pmiri/sealing.py:107-162 | the manifest does not depend on the order of the directory walk |

## Left out

- URL parsing beyond the path: scheme, host, authority, IDNA and the `ipaddress` classification are parameters of the model.
- Hash functions, signatures and encryption; the shape test of hexadecimal digests; JSON text; timestamp parsing and its failures.
- Dynamic type tests (`isinstance`, booleans passed as integers): the types rule those values out. The same holds for TLS and revalidation words outside the vocabulary.
- Registry.SQLitePolicyEpoch.Advance: the error for a control plane whose epoch row was never written is not modelled.
- ConnectionBinding.ValidateConnectionBinding, Lifecycle.ValidateLifecycle and the fence's validators: acceptance only, not which error code comes first.
- EmissionFence.NetworkDecisionExact: the provider call only; content operations differ in the lifecycle fields attached to the record.
- EmissionFence.EnforcedTransportRuntime.ExecuteProvider: `execute_connector` is the same fence with a fetch instead of a send and is not repeated.
- The bodies of `evaluate_trust` and `evaluate_capability`: the fence is proved for every trust and capability decision that passes its validator.
- Registry.SQLitePolicyEpoch.Bump: likewise without the error for a missing epoch row.
- Sealing.VerifySeal: the manifest path inside the root and entries resolving outside it are not modelled.
- Retrieval.MatchingSpans: tokens, lines and frontmatter are parameters; anchors are required to tell line ranges apart where ranking ties matter.
- Store.SQLiteStore.RegisterBytes: blob encryption, `register_file`, directory ingestion, backup and restore; names follow POSIX path rules; the capture time is explicit instead of defaulting to the clock, and metadata is a string map by type.
- StoreCrash.CallCommits: readers that open files while a writer holds the lock see either the old or the new file, as moves are atomic; file-system reordering of synced writes is not modelled.
- Sealing.SealDirectory: symbolic links, the role table itself (a parameter), and a root read from the manifest instead of given.
- ReadProjection.ReadProjectionService.HandleAuthenticated: parsing of the raw request mapping, its cursor and its own authorization reference; the unauthenticated handlers.
- HTTP server, command line, transports, audit log, readiness and acceptance reports, schema validation, redaction, credentials and egress helpers.
