# Licence panel: verified model

A Dafny model of the stateful algorithms behind the RADIUS licence panel, with the properties the panel
relies on proved for every input and every run. `dafny verify dfyconfig.toml` checks it.

| File | What it models |
|---|---|
| `ReplayCache.dfy` | the nonce cache and token check of the proxy API |
| `RateLimiter.dfy` | the fixed-window limiter in front of login, payment and licence-check requests |
| `CanonicalJson.dfy`, `LicenseSigning.dfy` | compact sorted-key JSON, a reader for it, and the bridge-response signature over it |
| `SchemaHeal.dfy` | the boot-time schema heal on a database of tables, columns and rows |
| `AdminRoster.dfy`, `FreshNames.dfy` | administrators, first boot and restarts; the loops for a free username and a free plan slug |
| `CapacityLedger.dfy` | bandwidth allocations on fleet nodes |
| `LandingOrder.dfy` | ordering of landing-page blocks |
| `RoutingTable.dfy` | address derivation and the published allow lists |
| `TierForm.dfy`, `ServiceRequests.dfy` | the bulk tier form; request time stamps and SMS credit |
| `Pagination.dfy`, `SectionVisibility.dfy` | audit-log paging; section lookup and hiding |
| `Sorting.dfy`, `Counting.dfy`, `Decimal.dfy`, `AsciiText.dfy`, `Options.dfy` | Python's `sorted`, counting, `str(int)`, string helpers |

Code that changes state is a class or a method with loops, specified by a function of the old state; the
lemmas then prove what the program promises about that function over whole runs. What one call stores and
answers is also stated without that function, in the terms of the form, the table or the wire (`AcceptsIff`,
`LetThroughIff`, `DumpsInKeyOrder`, `HealedColumns`, `SavedIff`, `PostedRowExact` and their like). In four places the code
does not do what one would expect of it, and the exact condition is proved instead:

- A window of the rate limiter opens with its first call, so two full windows never fit in one window
  length: the sharp bound is 2·max − 1, not 2·max (`SlidingBound`, `CeilingAttained`). Waiting exactly
  Retry-After is enough only when the rest of the window is whole or under a second (`RetryAfterSufficesIff`).
  A rejected call leaves the window's start alone unless the maximum is zero or less and the window is over
  (`RejectionKeepsStartIff`).
- Status changes and edits of an allocation do not check the capacity (`ResumingOversubscribes`). A node is
  never oversubscribed in a run if and only if each of them would have passed the check a create makes
  (`NeverOversubscribedIff`).
- The nonce cache keeps a token out only while it remembers it. Up to 1502 insertions in twice the time to
  live are safe (`NoReplay`) and 1503 are not (`BoundIsSharp`), and every timely token counts as an
  insertion, rightly signed or not (`SignaturesDoNotMatter`).
- A landing-page move swaps two neighbours if and only if they fit (`MoveTransposes`); tied sort orders make it
  do nothing (`TiedNeighboursStay`) or more than asked (`TieJumpsTwo`). The pages never make a tie
  (`PostsKeepTidy`, `AddedSectionsTidy`), so every move they can come to is a swap (`ReachableMovesTranspose`).
  Up and then down is the identity if and only if the row was not first, or was alone (`UpThenDown`).

## Model

| member | source | states |
|---|---|---|
| ReplayCache.TokenGate.VerifyProxyToken | app/api/proxy_api.py:40-86 | one request: what it stores, and whether it is accepted, refused or makes the comparison raise; the cache stays the queue of the newest insertions and never exceeds 2000 keys |
| ReplayCache.AcceptsIff | app/api/proxy_api.py:40-86 | a request is accepted if and only if there is a secret, the stripped header splits into a time, a nonce and a signature, the time is within the TTL either way, `time:nonce` is not remembered, and the signature in lower case is the HMAC of it; the key is stored under all of these but the last |
| ReplayCache.AcceptedAtIff | app/api/proxy_api.py:40-86 | the same at every place of every run |
| ReplayCache.ForgedNeverAccepted | app/api/proxy_api.py:84-86 | a token with any other signature is accepted at no place of any run |
| ReplayCache.RaisesIff | app/api/proxy_api.py:84-86 | the comparison raises exactly on a timely fresh token with a signature, given or due, that is not ASCII |
| ReplayCache.TrimDropsOldest | app/api/proxy_api.py:79-82 | sorting by stored time and popping 500 keys drops exactly the 500 inserted first |
| ReplayCache.RememberExtendsQueue | app/api/proxy_api.py:74-82 | storing a key keeps the cache equal to the newest insertions of the log, whose number is given in closed form |
| ReplayCache.KeyLifetime | app/api/proxy_api.py:74-82 | a key survives at least 1500 later insertions, and 1501 can remove it |
| ReplayCache.CacheKeyInjective | app/api/proxy_api.py:75 | the cache key determines the time stamp and the nonce |
| ReplayCache.RunKeepsQueue | app/api/proxy_api.py:69-86 | after any run the cache is the newest part of a time-ordered log of all insertions |
| ReplayCache.TwiceAcceptedIsCrowded | app/api/proxy_api.py:69-86 | accepting the same pair twice takes at least 1503 insertions within 2·TTL seconds |
| ReplayCache.NoReplay | app/api/proxy_api.py:69-86 | with at most 1502 insertions in any 2·TTL seconds no time stamp and nonce are ever accepted twice |
| ReplayCache.ForgottenAfter | app/api/proxy_api.py:74-82 | after any 2001 fresh tokens exactly the first 500 are forgotten |
| ReplayCache.SignaturesDoNotMatter | app/api/proxy_api.py:74-86 | runs that differ in signatures only leave the same cache and log: a key is stored before its signature is checked |
| ReplayCache.BurstReplays | app/api/proxy_api.py:69-86 | a rightly signed token among the first 500 of any 2001 fresh ones is accepted, and accepted again when repeated in time |
| ReplayCache.BoundIsSharp | app/api/proxy_api.py:69-86 | for every TTL and secret a run with at most 1503 insertions in any 2·TTL seconds accepts one token twice, whatever the other signatures |
| RateLimiter.Limiter.RetryAfterFor | app/__init__.py:461-470 | one limiter call: the new buckets and the answer |
| RateLimiter.Limiter.CheckRateLimit | app/__init__.py:487-532 | one request: which limiter calls it makes, in order, and what it is answered |
| RateLimiter.LetThroughIff | app/__init__.py:487-532 | a request is let through if and only if limits are off or none of the buckets its endpoint owes is full, with their keys and knobs written out |
| RateLimiter.RequestBumps | app/__init__.py:461-532 | the buckets after a request: each owed one counts one more or starts anew, that of a license only if its address passed, and no other moves |
| RateLimiter.OtherKeysLeaveBucket | app/__init__.py:461-470 | any number of calls on other keys leave a bucket as it was |
| RateLimiter.PrefixesDisjoint | app/__init__.py:496-527 | the four limiters never share a key, whatever the address or licence |
| RateLimiter.RetryAfterRange | app/__init__.py:470 | Retry-After is at least 1 and at most the window |
| RateLimiter.RejectionKeepsStartIff | app/__init__.py:461-470 | a rejected call leaves the start of a stored bucket alone exactly while its window is open or starts at that instant; otherwise the maximum is zero or less |
| RateLimiter.RejectionKeepsStart | app/__init__.py:461-470 | with a positive maximum a rejected call leaves the start of its bucket alone |
| RateLimiter.AdmittedAgainIff | app/__init__.py:461-470 | after a rejection the next call of the key is admitted exactly when the window has ended |
| RateLimiter.RetryAfterPlusOneSuffices | app/__init__.py:461-470 | Retry-After plus one second always suffices |
| RateLimiter.RetryAfterSufficesIff | app/__init__.py:461-470 | Retry-After alone suffices exactly when the rest of the window is whole or at most a second |
| RateLimiter.SlidingBound | app/__init__.py:461-470 | any half-open stretch of one window admits at most 2·max − 1 calls of a key, over every run with fixed knobs |
| RateLimiter.CeilingAttained | app/__init__.py:461-470 | a run that admits 2·max − 1 calls in one window, for every maximum and window |
| RateLimiter.RequestSlidingBound | app/__init__.py:487-532 | the same bound for each of the four limiters over every run of requests |
| RateLimiter.LoginsBounded | app/__init__.py:495-502 | with limits on, any window sees at most 2·max − 1 logins of one address let through, counted by their own answers, in every run |
| RateLimiter.PaymentRequestsBounded | app/__init__.py:506-513 | the same for payment requests of one address, with 20 and 300 in place of zero knobs |
| RateLimiter.ChecksFromBounded | app/__init__.py:514-522 | the same for license checks from one address |
| RateLimiter.ChecksOfBounded | app/__init__.py:523-531 | the same for license checks of one license key, from any addresses |
| RateLimiter.LimitsOff | app/__init__.py:493-494 | with limits off every request is let through and no bucket appears |
| CanonicalJson.ParseEscaped | app/license_signing.py:82-89 | reading an escaped string gives the string back (escapes of section 7 of RFC 8259) |
| CanonicalJson.ParseRendered | app/license_signing.py:89 | reading the compact text of any nested value gives its meaning back and stops where the text ends |
| CanonicalJson.SortKeysMeaning | app/license_signing.py:89 | sorting the keys of a value, at every depth, does not change its meaning |
| CanonicalJson.SameMeaningSameSorted | app/license_signing.py:89 | values equal as JSON values, where true is not 1, have the same sorted form, whatever their insertion orders |
| CanonicalJson.DumpsRoundTrip | app/license_signing.py:89 | the canonical text reads back as the value, with nothing left over |
| CanonicalJson.DumpsFaithful | app/license_signing.py:89 | two values have the same canonical text if and only if they are equal as JSON values |
| CanonicalJson.DumpsInKeyOrder | app/license_signing.py:89 | the text is that of an equal value whose keys ascend in every dict at every depth, by their first differing character |
| CanonicalJson.RenderExact | app/license_signing.py:89 | the compact text of each kind of value, with nothing but commas and colons between |
| CanonicalJson.EscapeExact | app/license_signing.py:89 | a character prints as itself unless it is a quote, a backslash or a control character, and how those print |
| LicenseSigning.Payload.AttachBridgeSignature | app/license_signing.py:100-108 | the payload after attaching; the signed message is unchanged and the receiver's check passes |
| LicenseSigning.AttachedVerifies | app/license_signing.py:87-108 | attaching never changes the signed message |
| LicenseSigning.AttachExact | app/license_signing.py:87-108 | the signed payload: every other field as it was, and the HMAC of their canonical text under the normalised key; without a key nothing changes |
| LicenseSigning.SameFieldsSameText | app/license_signing.py:87-89 | the order of a payload's fields never shows in its text |
| LicenseSigning.AttachIdempotent | app/license_signing.py:100-108 | attaching twice with one key equals attaching once |
| LicenseSigning.MessageFaithful | app/license_signing.py:87-89 | two payloads have the same message if and only if they are equal apart from the signature field |
| LicenseSigning.AcceptedIsSent | app/license_signing.py:71-97 | a receiver accepts a genuine signature exactly on the content that was sent, unless HMAC collides |
| SchemaHeal.Database.AddColumnsIfMissing | app/__init__.py:1045-1052 | the table after the loop over the wanted columns |
| SchemaHeal.Database.EnsureSchemaCompatibility | app/__init__.py:600-1042 | the database after the whole heal |
| SchemaHeal.HealIdempotent | app/__init__.py:600-1042 | for every database, healing twice equals healing once |
| SchemaHeal.HealLeavesNoWork | app/__init__.py:600-1042 | after the heal every step finds nothing to do: columns present, floor and port corrected, legacy removed, unmatched tunnels only |
| SchemaHeal.HealKeepsData | app/__init__.py:600-1042 | every row, table and column is kept but the named legacy ones, and each cell holds exactly its corrected value: a raised floor, a corrected port, the node at the row's host, or what it held |
| SchemaHeal.HealFillsDefaults | app/__init__.py:600-1052 | every added column is a planned one and every row holds its default, corrected in the same way |
| SchemaHeal.HealStampsNodes | app/__init__.py:1010-1038 | each tunnel and peer with no node before, and with a host, points at the node the healed registry has at that host; every other one points where it did |
| SchemaHeal.HealFindsNode | app/__init__.py:1010-1038 | that is the id of the one node with the address, or NULL when there is none |
| SchemaHeal.ApplyKeepsNodes | app/__init__.py:600-1042 | no step of the heal changes which node is found at an address |
| SchemaHeal.HealedColumns | app/__init__.py:600-1052 | the columns of every table after the heal, against a schema written out by table: all it had but a legacy one, all the panel asks for, and each new one starts with the value asked for |
| SchemaHeal.HealedTables | app/__init__.py:986-1008 | exactly the tables before the heal, less the two legacy ones where the engine drops tables |
| SchemaHeal.LegacyGone | app/__init__.py:946-1008 | the legacy tables and columns are gone as far as the engine can drop them |
| SchemaHeal.FloorAndPort | app/__init__.py:720-896 | after the heal no license is below three fingerprints and no node has the old API port |
| SchemaHeal.HealMovesNode | app/__init__.py:946-968 | on service_allocations the whole heal is the move of the node column |
| SchemaHeal.NoLegacyNodeIds | app/__init__.py:946-968 | no allocation keeps an id copied from the legacy column, and ids already in the new one stay |
| SchemaHeal.NodeAtExact | app/__init__.py:1010-1038 | a host address is matched to the id of the one node that has it, else to NULL |
| FreshNames.FreshUsername | app/admin/routes.py:3704-3710 | the suffix loop ends on every finite table, with the base or the least free suffix |
| FreshNames.NumberedFree | app/admin/routes.py:3704-3710 | among the first suffixes, one more than there are names, one is free |
| FreshNames.GeneratedSlug | app/admin/routes.py:2668-2676 | the slug loop ends with the base or the least free suffix whenever some suffix is free |
| FreshNames.SlugAvailableIff | app/admin/routes.py:2673-2675 | some suffix is free exactly when one that survives the cut to 80 characters is |
| FreshNames.SmallTableLeavesSlug | app/admin/routes.py:2668-2675 | a table of fewer than 10^19 − 2 slugs leaves a suffix free |
| FreshNames.PlanSlug | app/admin/routes.py:2662-2676 | the posted slug, else the plan's own, else a generated one nobody has |
| FreshNames.TwoWordSlug | app/admin/routes.py:2668-2669 | two lower-case words with anything but letters and digits between give the slug with one dash |
| FreshNames.PostedSlugKept | app/admin/routes.py:2663-2665 | a posted slug of allowed characters is taken as it is |
| AdminRoster.AdminPanel.SettingsAdminsPost | app/admin/routes.py:3674-3836 | every branch of the admin form: the outcome and the table after it |
| AdminRoster.SavedIff | app/admin/routes.py:3674-3836 | a form is saved if and only if an active super admin posts it and it is right in itself, with every condition written out |
| AdminRoster.CreateWrites | app/admin/routes.py:3711-3717 | a saved create adds one active row with the trimmed name, the lower-cased address and a new username, super exactly for the role super_admin |
| AdminRoster.EditWrites | app/admin/routes.py:3764-3766 | a saved edit writes name, address and tier of the named row and nothing else |
| AdminRoster.SetActiveWrites | app/admin/routes.py:3793 | enabling and disabling write that one field of the named row |
| AdminRoster.DeleteWrites | app/admin/routes.py:3806-3832 | a saved delete takes out the named row and keeps the order of the others |
| AdminRoster.PlainLocalPart | app/admin/routes.py:3663-3671 | an address with a plain local part names its own user |
| AdminRoster.UsernameChars | app/admin/routes.py:3663-3671 | any derived username has 1 to 60 lower-case letters, digits, dots, dashes and underscores |
| AdminRoster.AdminPanel.Boot | app/bootstrap.py:27-53 | a start of the panel: whether it boots, and the table after it |
| AdminRoster.BootWrites | app/__init__.py:1055-1071 | a start creates the configured admin on an empty table, and otherwise makes exactly the row of the configured name, or the first, super |
| AdminRoster.PostSound | app/admin/routes.py:3674-3836 | no post by anyone removes the last active super admin or repeats a username or email |
| AdminRoster.BootSound | app/__init__.py:1055-1071 | nor does a restart; a first boot makes its admin a super admin |
| AdminRoster.RosterStaysSound | app/admin/routes.py:3674-3836 | from a first boot, every run of posts and restarts keeps an active super admin, and usernames and lower-cased emails distinct |
| AdminRoster.SomeoneCanAdminister | app/auth/routes.py:36-62 | after any such run somebody passes the super-admin gate |
| AdminRoster.SuperOnlyByGrant | app/admin/routes.py:3674-3836 | no escalation: over every run an admin is super if and only if a start, or a role posted for it by an active super admin, made it so and no other role was posted for it since |
| AdminRoster.OthersUntouched | app/admin/routes.py:3674-3836 | a post leaves every row but its target alone, and only an active super admin changes any |
| AdminRoster.DeleteGuardIsRedundant | app/admin/routes.py:3806-3823 | the guard on deleting the last active super admin can never fire |
| CapacityLedger.AllocationPages.ServiceAllocationCreate | app/admin/infra_routes.py:376-436 | the checks in order, and the new row |
| CapacityLedger.AllocationPages.ServiceAllocationSetStatus | app/admin/infra_routes.py:439-457 | the row's new status, with no capacity check |
| CapacityLedger.AllocationPages.ServiceAllocationEdit | app/admin/infra_routes.py:460-480 | the row's new speed, with no capacity check |
| CapacityLedger.SavedIff | app/admin/infra_routes.py:380-480 | which posts are saved, with types, node and room written out |
| CapacityLedger.PostWrites | app/admin/infra_routes.py:408-465 | a saved create adds a pending row with the posted speed; a status change or edit writes that one field |
| CapacityLedger.ReservedIsLive | app/admin/infra_routes.py:70-80 | what is reserved is the speed of the pending and active allocations on the node; the others take nothing |
| CapacityLedger.StatusMoves | app/admin/infra_routes.py:439-449 | a status change frees or takes exactly the row's speed on its node when it leaves or joins those, and touches no other node |
| CapacityLedger.PostDelta | app/admin/infra_routes.py:70-80 | a post moves every node's reservation by exactly the delta of the one row it writes |
| CapacityLedger.ReservationConserved | app/admin/infra_routes.py:70-80 | over any run the reservation is the starting one plus all deltas |
| CapacityLedger.OversubscriptionBound | app/admin/infra_routes.py:394-480 | over any run a node exceeds its capacity, or its start, by no more than status changes and edits added |
| CapacityLedger.NeverOversubscribed | app/admin/infra_routes.py:394-480 | with no such additions it never exceeds its capacity |
| CapacityLedger.WithinIff | app/admin/infra_routes.py:394-480 | a post leaves a node within capacity if and only if it is a create or its row has room there by the check a create makes |
| CapacityLedger.NeverOversubscribedIff | app/admin/infra_routes.py:394-480 | a node stays within capacity throughout a run if and only if every saved status change and edit has room when posted |
| CapacityLedger.ResumingOversubscribes | app/admin/infra_routes.py:439-457 | suspend, create, resume reserves twice the capacity |
| LandingOrder.Section.Move | app/admin/landing_routes.py:77-87 | the rows after a move |
| LandingOrder.Section.Create | app/admin/landing_routes.py:249-260 | the rows after a create |
| LandingOrder.Section.Delete | app/admin/landing_routes.py:300-309 | the rows after a delete |
| LandingOrder.CreateAppends | app/admin/landing_routes.py:249-260 | a new item is shown last, and sort orders stay distinct |
| LandingOrder.RemovedRows | app/admin/landing_routes.py:300-309 | a delete keeps ids and sort orders distinct |
| LandingOrder.MoveTransposes | app/admin/landing_routes.py:77-87 | a move at the end does nothing; any other shows exactly two neighbours swapped if and only if they fit |
| LandingOrder.DistinctOrdersFit | app/admin/landing_routes.py:77-87 | with distinct sort orders every pair of neighbours fits |
| LandingOrder.MoveShows | app/admin/landing_routes.py:77-87 | with distinct orders a move up trades places with the row above, a move down with the row below |
| LandingOrder.DeleteShows | app/admin/landing_routes.py:300-309 | a delete takes the row out of the list and keeps the order of the others |
| LandingOrder.MoveConserves | app/admin/landing_routes.py:77-87 | a move keeps the ids, the multiset of sort orders and their distinctness |
| LandingOrder.UpThenDown | app/admin/landing_routes.py:77-87 | up and then down restores every row if and only if the row was not first, or was alone |
| LandingOrder.TiedNeighboursStay | app/admin/landing_routes.py:77-87 | a move between two rows with one sort order changes nothing |
| LandingOrder.TieJumpsTwo | app/admin/landing_routes.py:77-87 | with a tie beyond, one move can pass two rows |
| LandingOrder.PostsKeepTidy | app/admin/landing_routes.py:249-309 | every run of create, move and delete keeps ids and sort orders distinct |
| LandingOrder.ReachableMovesTranspose | app/admin/landing_routes.py:77-87 | after any such run a move swaps exactly two neighbours of the list, or does nothing at its ends |
| LandingOrder.AddedSectionsTidy | app/services/landing_cms.py:360-391 | the two sections a start adds never tie with a seeded one, however the page was reordered |
| LandingOrder.EveryOrderReachable | app/admin/landing_routes.py:291-297 | every permutation of the list is reached by finitely many moves |
| RoutingTable.DeriveInjective | app/api/proxy_api.py:116-134 | an address outside the management pool derives none, and distinct addresses in it derive distinct ones |
| RoutingTable.DeriveExact | app/api/proxy_api.py:116-134 | the data address is the management one with 10.98 for 10.99 |
| RoutingTable.RouteAllowList | app/api/proxy_api.py:249-262 | one route's allow list: the duplicate-free list of its nodes' addresses |
| RoutingTable.BuildRoutingTable | app/api/proxy_api.py:198-272 | the published routes with their targets, secrets and allow lists |
| RoutingTable.DedupExact | app/api/proxy_api.py:252-255 | each address once, no empty one, in the order of first occurrences |
| RoutingTable.AllowedIff | app/api/proxy_api.py:217-262 | an address is allowed exactly when an eligible node on the list has it |
| RoutingTable.AllowListExact | app/api/proxy_api.py:217-262 | an allow list holds each address of its nodes, public before data, once and in the order of its first place in the list of nodes |
| RoutingTable.LosingANode | app/api/proxy_api.py:217-262 | a node that stops being eligible takes exactly the addresses no other eligible node on the list has |
| RoutingTable.PublishedExactly | app/api/proxy_api.py:198-272 | exactly the active routes are published, each with its own target, secret and allow list, in strict realm order |
| RoutingTable.TableExact | app/api/proxy_api.py:198-272 | exactly the routes with status active are published, each with its stored realm, customer, address and ports, its resolved secret and its allow list, by ascending realm |
| Pagination.PageTokens | app/admin/routes.py:3387-3407 | for any requested page: the numbers are exactly the two first, two last and three around the page shown, increasing, with an ellipsis exactly at gaps, at most nine tokens |
| Pagination.PagesCoverLog | app/admin/routes.py:3386-3415 | the pages one after the other are the whole log, and for any requested page "from" and "to" name the rows shown |
| Pagination.PagesOfFifty | app/admin/routes.py:3386-3395 | every page but the last has fifty rows, and the last has what is left |
| Pagination.CurrentPageNearest | app/admin/routes.py:3388 | a requested page that exists is the one shown, and otherwise the nearest one |
| TierForm.TierPage.CustomerServiceTiersSave | app/admin/routes.py:5577-5671 | the whole form: the new rows and the count of changes, or no change at all |
| TierForm.TierPage.SaveService | app/admin/routes.py:5586-5650 | one posted service |
| TierForm.RefusedIff | app/admin/routes.py:5587-5614 | the form is refused exactly when a posted service has a key outside the accepted form, or is limited-free with a limit that is not a whole number from zero up |
| TierForm.OtherRowsKept | app/admin/routes.py:5581-5585 | a service that is not posted keeps its row |
| TierForm.PostedServiceState | app/admin/routes.py:5616-5650 | a suspended service is off, a free one that is not is active and on, and the row has the posted tier and visibility |
| TierForm.PostedRowExact | app/admin/routes.py:5586-5650 | every posted row: it is on if and only if it is not posted as suspended and is free, or was on and not suspended; its status, visibility and tier |
| TierForm.PaidRowKept | app/admin/routes.py:5616-5650 | a paid service neither suspended nor posted as suspended keeps status and switch |
| TierForm.ChangesCounted | app/admin/routes.py:5626-5650 | the count is the number of posted tiers, visibilities and suspensions that differ from the rows before |
| TierForm.PostedLimits | app/admin/routes.py:5599-5614 | a limited-free service takes over the posted limits and keeps the others |
| TierForm.NoChangeCountedIff | app/admin/routes.py:5626-5650 | no change is counted exactly when tier, hiding and suspending agree with every posted row |
| TierForm.RepostChangesNothing | app/admin/routes.py:5577-5671 | posting a saved form again changes no row and counts 0 |
| ServiceRequests.Ticket.MarkServiceRequest | app/admin/routes.py:514-543 | the request after a mark |
| ServiceRequests.MarkExact | app/admin/routes.py:514-534 | a mark with a known status writes it, trimmed and in lower case, and sets each stamp that was empty and that the status as passed calls for |
| ServiceRequests.StatusIsLast | app/admin/routes.py:522 | after any run a request has the status of the last accepted mark, as long as only marks follow it |
| ServiceRequests.ReviewExact | app/admin/routes.py:1114-1212 | a reply moves a pending request to review, a confirmed payment also one that waits for it |
| ServiceRequests.StampIsFirst | app/admin/routes.py:525-534 | over any marks a stamp is the time of the first mark that sets it, and never changes |
| ServiceRequests.ActivationFirst | app/admin/routes.py:525-532 | an approval or completion time comes with an activation time that is no later |
| ServiceRequests.UnstampedIff | app/admin/routes.py:523-534 | a mark leaves a stamp of its new status unset exactly when it was unset and the status was not passed in its clean spelling |
| ServiceRequests.StatusAlwaysStamped | app/admin/routes.py:514-543 | over any cleanly spelled marks, replies and confirmed payments a request has every stamp its status calls for |
| ServiceRequests.PanelRunStamped | app/admin/routes.py:1114-1304 | whatever the pages do to a new request, an approved or trial one has its approval and activation times, a rejected one its rejection time, and none is completed |
| ServiceRequests.SmsEntitlement.ApplySmsRequest | app/admin/routes.py:475-493 | the limits after one application |
| ServiceRequests.AppliedExact | app/admin/routes.py:475-493 | one application, field by field: the given value, or for credits the old one plus a positive package; posted limits displace all desired ones |
| ServiceRequests.BalanceConserved | app/admin/routes.py:475-493 | over any run the credit is the last value given outright, or the start, plus the packages since |
| ServiceRequests.CapsAreLastGiven | app/admin/routes.py:490-493 | over any run the daily and monthly caps are the last ones given |
| SectionVisibility.IsEndpointHidden | app/admin/section_visibility.py:182-200 | the loop over dotted prefixes decides whether the section or an ancestor is hidden |
| SectionVisibility.SectionIsLongestMatch | app/admin/section_visibility.py:165-179 | an endpoint's section is that of the longest matching prefix, and none exactly when nothing matches |
| SectionVisibility.TableOrderIrrelevant | app/admin/section_visibility.py:175-178 | the order of the table does not matter |
| SectionVisibility.PanelTableOrderIrrelevant | app/admin/section_visibility.py:131-179 | no two entries of the panel's own table share a prefix, so any order of it gives the same sections |
| SectionVisibility.HiddenMonotone | app/admin/section_visibility.py:182-200 | hiding more sections never reveals an endpoint |
| SectionVisibility.HiddenDownward | app/admin/section_visibility.py:182-200 | hiding a section hides every endpoint at or below it |
| SectionVisibility.VisibilityStore.SaveVisibility | app/admin/section_visibility.py:63-81 | the settings after a save |
| SectionVisibility.LastChoiceWins | app/admin/section_visibility.py:63-81 | after any saves a known key has the last value chosen, and nothing else changed |
| SectionVisibility.BlockedIff | app/admin/section_visibility.py:165-200 | after any saves an endpoint is blocked exactly when it is not always visible and the section of its longest prefix, or an ancestor, was last chosen hidden |
| SectionVisibility.AlwaysVisibleIff | app/admin/section_visibility.py:99-124 | which endpoints are always visible, by name and by prefix |
| SectionVisibility.AlwaysVisibleNeverHidden | app/admin/section_visibility.py:99-124 | whatever is saved, the always-visible endpoints are never hidden |

## Left out

- ReplayCache.TokenGate.VerifyProxyToken: takes a clock that does not run backwards between requests; `strip`, `int`, `lower` and HMAC-SHA256 are parameters of the model.
- ReplayCache.NoReplay: says nothing about a changed TTL or a restarted process, which empties the cache.
- RateLimiter.SlidingBound: models the monotonic clock as a real number, without floating-point rounding, and knobs that stay fixed during the run.
- CanonicalJson.ParseRendered: covers null, booleans, integers, strings, lists and string-keyed dicts; no floats, and strings without lone surrogates.
- LicenseSigning.AcceptedIsSent: HMAC-SHA256, UTF-8 encoding and the trimming of the licence key are parameters.
- SchemaHeal.HealIdempotent: takes an engine whose ability to drop columns and tables does not change between the two runs; SQL errors other than a missing column or a refused drop are not modelled.
- SchemaHeal.Database.EnsureSchemaCompatibility: the guarded blocks are held as one list of steps in source order; the two best-effort back-fills of public keys and portal users are not part of this model.
- SchemaHeal.HealFindsNode: takes a registry whose public addresses are unique, as its own lookup presumes.
- FreshNames.PlanSlug: asks for a table of fewer than 10^19 − 2 slugs; with more the source's loop need not end, as `SlugAvailableIff` says exactly.
- AdminRoster.AdminPanel.SettingsAdminsPost: case and white space are folded for ASCII only; password hashes, audit rows and messages are not modelled, and a new id is one above the largest, as SQLite assigns it.
- AdminRoster.AdminPanel.Boot: the list of weak passwords is a flag of the configuration; plan and catalog seeding are not modelled.
- CapacityLedger.OversubscriptionBound: takes the fleet's link speeds as fixed during the run; the expiry sweep, which only lowers reservations, and the other columns of an allocation are not modelled.
- LandingOrder.Section.Move: the row objects are entries of one list per section, so sharing of row objects between lists is not captured.
- RoutingTable.BuildRoutingTable: the vault is a parameter, the node list beside the routes is not modelled, and a missing address is the empty string.
- ServiceRequests.SmsEntitlement.ApplySmsRequest: limits are integers; `limits_json` can carry any JSON value, and a credit that is not a number makes the next package raise. The package size comes already parsed, zero when it cannot be; the other fields of the entitlement are not modelled.
- Pagination.PagesCoverLog: takes a requested page that is a number; other text makes `int` raise before anything is shown.
- TierForm.RefusedIff: a catalog key that is only in the accepted form after trimming and lower-casing counts as refused here.
- TierForm.TierPage.SaveService: prices, licence links and the audit row are not modelled; a limit comes as blank, not a number, or an integer.
- Concurrent requests: each request is one atomic step.
- The fleet brain, health machine, CoA queue, payments, WhatsApp, vault and update feed: separate services the modelled routes only call.
- Canonical licence payloads (app/license_signing.py:45-67): utility code with no live caller, and the same printer.
- Social links, contact methods and section toggles of the landing page: they repeat the ordering or set one flag.
