# Runbound, verified core

Runbound is a DNS resolver. This Dafny project models the parts of it where an error would be silent,
and proves what they are for:

- **DNSSEC denial and chain of trust.** NSEC and NSEC3 checks are proved sound and complete against a zone
  model: a finite tree of names with the lookup of section 3.3.1 of RFC 4592. The signer's own chain is
  proved honest, so signer and validator are also proved against each other through the wire format. The
  chain walk with its key cache and prefetch pool is proved equal to the plain walk from the root; verdicts
  are proved to rest on validated links, and, when only a zone's owner can sign, to be true: of the zone
  whose keys were used, and, for denials whose records speak for the name's side of every zone cut, of the
  zone the name belongs to. Where the code can be misled over honest signatures (expanded NSEC records,
  wildcards denied or expanded at the wrong ancestor, opt-out intervals, records of the other side of a
  zone cut, stripped DS and NS answers) there is a network that shows it and the exact condition under which it cannot happen.
- **Replication.** Master and slave are a two-party step system in which full syncs are not atomic, events
  are replayed over snapshots that contain them, and feeds are refreshed on either side at any time;
  convergence is proved over every interleaving, for feeds up to their refresh data, and when those agree
  too. The signature replay cache is a second step system.
- **The cache double buffer.** Writers and publisher interleave freely; no update is lost.
- **Query log.** Sixteen rings are proved to act as one history, and the date arithmetic to be the
  Gregorian calendar, with text order equal to time order.
- **Glob matcher, alert accounting, ICMP echo responder.** Each against an independent reference.

Layout: `Prelude`, `Arithmetic`, `Maps`, `Order`, `Ring` and `Bits` are shared mathematics. `Names`,
`TypeBitmap`, `Base32Hex`, `Denial`, `Zones`, `DenialProofs`, `NsecProofs`, `NsecLookup`, `ExpandedDenial`
are denial of existence; `ZoneSigner` and `NegativeAnswers` add the signing side; `Messages`, `KeyCache`, `ChainOfTrust`,
`Verdicts` are the chain of trust. `ZoneTree` has the zones together and which of them
a name belongs to. `HonestNet` says what honest signatures give; `ReferenceNet`, `Families` and `EndToEnd`
build networks that have them; `VerdictLimits`, `HashedLimits`, `AnswerLimits`, `InsecureCuts`, `InsecureLimits` and
`VerdictExamples` say where verdicts stop being true. `SyncJournal`, `Replication`, `FeedData` and
`JournalOrder` are the replication. The other modules are named after what they model.
Operations that the source performs by updating things in place are methods and classes proved against
specification functions; the theorems are lemmas about those functions. Hashes, signature checks, the
message codec, the network and clocks are arbitrary functions or parameters. Hash collisions are excluded
only among the names that matter for a statement, and only where it needs it.

Where code and comments differ the code is followed. `burst` in `ebpf/dns_xdp.c` is commented as not yet
used, and is used. The comment on the alert window calls it sliding; it is a window that restarts.

## Model

| member | source | states |
|---|---|---|
| `TypeBitmap.TypeInBitmap` | src/dns/dnssec_denial.rs:26-42 | the loop over window blocks answers exactly whether the first block of the type's window has its bit, malformed blocks ending the search |
| `TypeBitmap.Membership` | src/dns/dnssec_denial.rs:26-42 | for every set of 16-bit types in the windowed encoding of section 4.1.2 of RFC 4034, the reader finds precisely the members |
| `TypeBitmap.Encode` | src/dns/dnssec_sign.rs:278-302 | the signer's in-place bit setting, for types in any order and with repetitions, yields that encoding |
| `Base32Hex.Encode` | src/dns/dnssec_denial.rs:147-164 | the never masked 64-bit accumulator still yields the regrouping of the input bits into quintets |
| `Base32Hex.Decode` | src/dns/dnssec_denial.rs:125-145 | decoding regroups the digit bits into octets, drops the remainder, and fails exactly on a foreign character |
| `Base32Hex.RoundTrip` | src/dns/dnssec_denial.rs:125-164 | decoding an encoding returns every octet string of every length |
| `Base32Hex.DecodedIgnoresCase` | src/dns/dnssec_denial.rs:125-145 | texts differing only in letter case decode alike (section 7 of RFC 4648) |
| `Names.IsInZone` | src/dns/wire/name.rs:139-153 | the walk over parents answers whether the zone is a suffix of the name, ignoring case |
| `Names.SameNameIsWireEquality` | src/dns/wire/name.rs:155-172 | comparing folded wire forms is comparing names label by label, ignoring case |
| `Names.NameLessTotal` | src/dns/wire/name.rs:124-137 | the canonical order of section 6.1 of RFC 4034 is a strict total order on folded names |
| `Denial.AncestorChain` | src/dns/dnssec_denial.rs:293-305 | the chain is the query name and its ancestors down to the zone, and empty outside the zone |
| `Denial.Nsec3ProvesNxdomain` | src/dns/dnssec_denial.rs:293-319 | true exactly if the closest matched ancestor has its next closer name and its wildcard covered |
| `Denial.Nsec3ProvesNameNonexistent` | src/dns/dnssec_denial.rs:329-350 | true exactly if the closest matched ancestor has its next closer name covered |
| `Denial.NsecProvesNxdomain` | src/dns/dnssec_denial.rs:356-376 | true exactly if the name is covered and the wildcard at some ancestor within the zone is covered |
| `DenialProofs.CoveredExactlyOnce` | src/dns/dnssec_denial.rs:234-249 | a hash outside an honest chain lies in exactly one interval, wrap-around and single-record chains included |
| `DenialProofs.CoverMeansAbsent` | src/dns/dnssec_denial.rs:219-249 | a name covered by a record without the opt-out flag does not exist, whatever the hash does |
| `DenialProofs.NameAbsentSound` | src/dns/dnssec_denial.rs:329-350 | after an accepted no-exact-match proof, opt-out records included, the name exists exactly if it is an opted-out delegation |
| `DenialProofs.NxdomainSound` | src/dns/dnssec_denial.rs:219-319 | from any part of an honest chain, opt-out records included: the matched ancestor is the true closest encloser and lookup gives no such name if and only if neither the next closer name nor the wildcard is an opted-out delegation |
| `DenialProofs.ExpansionMatched` | src/dns/dnssec_denial.rs:329-350 | for an accepted no-exact-match proof that hides no opted-out delegation: a wildcard answers the name if and only if it stands at the matched ancestor |
| `DenialProofs.FlagClearMeansNothingHidden` | src/dns/dnssec_denial.rs:234-249 | records without the opt-out flag meet that condition |
| `DenialProofs.NxdomainComplete` | src/dns/dnssec_denial.rs:234-319 | with the whole chain every name for which lookup gives no such name is provably absent |
| `DenialProofs.NxdomainExact` | src/dns/dnssec_denial.rs:293-319 | for every name under the apex the check on the whole chain agrees with lookup |
| `DenialProofs.NodataSound` | src/dns/dnssec_denial.rs:251-261 | an accepted NODATA proof means the name exists with neither the type nor an alias |
| `DenialProofs.NodataExact` | src/dns/dnssec_denial.rs:251-261 | with the whole chain the check agrees with the zone in both directions |
| `DenialProofs.NoDsSound` | src/dns/dnssec_denial.rs:263-272 | a no-DS proof, by match or by opt-out interval, never hides a DS record |
| `DenialProofs.NoDsComplete` | src/dns/dnssec_denial.rs:263-272 | every unsigned delegation, listed or opted out, has a no-DS proof |
| `NsecProofs.NonexistenceExact` | src/dns/dnssec_denial.rs:63-121 | with the whole NSEC chain a name is covered exactly if it owns nothing |
| `NsecProofs.NsecNxdomainSound` | src/dns/dnssec_denial.rs:356-376 | the name owns nothing, and neither does the wildcard at some ancestor within the zone |
| `NsecProofs.NsecNodataSound` | src/dns/dnssec_denial.rs:77-85 | the name owns records, not of the type, and no alias |
| `NsecProofs.NsecNoDsSound` | src/dns/dnssec_denial.rs:274-282 | the name is a delegation that owns no DS record |
| `NsecLookup.EncloserRead` | src/dns/dnssec_denial.rs:63-121 | in an honest chain a record that covers a name shows its closest encloser: the longest ancestor that is also one of an end of the interval |
| `NsecLookup.LookupRead` | src/dns/dnssec_denial.rs:356-376 | for any covering record: lookup gives no such name if and only if the record shows nothing below the name and the wildcard at that encloser does not exist |
| `NsecLookup.ExpansionRead` | src/dns/dnssec_denial.rs:63-121 | for any covering record: a wildcard answers the name if and only if it stands at the encloser the record shows and nothing is shown below the name |
| `NsecLookup.AcceptedExactly` | src/dns/dnssec_denial.rs:356-376 | the check on the whole chain accepts exactly the names that own nothing and have an ancestor in the zone whose wildcard owns nothing |
| `NsecLookup.NxdomainTrueIffDenied` | src/dns/dnssec_denial.rs:356-376 | every absent name is accepted, and an accepted name is absent if and only if the records deny the wildcard at the closest encloser and show nothing below either name |
| `NsecLookup.WildcardOverlooked` | src/dns/dnssec_denial.rs:356-376 | for every wildcard and every missing sibling of it with room for a child, one record makes the check deny a name that the wildcard answers |
| `ExpandedDenial.NxdomainTrueIffNoWildcard` | src/dns/dnssec_chain.rs:350-366 | records that validate as they stand or as wildcard expansions never deny a name that owns records if and only if the zone has no wildcard |
| `ExpandedDenial.NodataTrueIffWildcardsAdmit` | src/dns/dnssec_verify.rs:418-455 | such records never deny a type that a name owns if and only if every wildcard has all types found below its parent, or an alias |
| `ExpandedDenial.NoDsTrueIff` | src/dns/dnssec_chain.rs:325-366 | such records never deny an existing DS if and only if no name with a DS lies below the parent of an unsigned wildcard delegation |
| `ZoneTree.AuthoritativeIsDeepest` | src/dns/dnssec_chain.rs:383-394 | a name with no delegation of a zone at or above it belongs to that zone, in every tree of zones delegated from one another |
| `ZoneTree.CoverMeansOwn` | src/dns/dnssec_denial.rs:356-376 | a covering NSEC record that is not that of a delegation above the name: the name belongs to the zone (section 4.1 of RFC 6840) |
| `ZoneTree.HashCoverMeansOwn` | src/dns/dnssec_denial.rs:293-350 | a covered next closer name under a matched encloser that is no delegation: the name belongs to the zone, or an opted-out delegation hides there |
| `ZoneTree.UnlistedIsAbsent` | src/dns/dnssec_denial.rs:77-85 | what a zone does not list at a name is not there, unless the record is that of the other side of a cut |
| `ZoneTree.CutCovers` | src/dns/dnssec_denial.rs:63-75 | in an honest chain the record of a delegation covers every name below it |
| `ZoneSigner.AddEntry` | src/dns/zone_signer.rs:539-552 | every missing ancestor down to the apex appears with no types, and the entry's own types are merged |
| `ZoneSigner.ZoneOwners` | src/dns/zone_signer.rs:523-557 | the owner set holds exactly the names and types of the apex and of the entries inside the zone, and is a proper tree |
| `ZoneSigner.BuildNodesAscending` | src/dns/zone_signer.rs:571-582 | sorting and merging leaves strictly ascending hashes |
| `ZoneSigner.SignerChainHonest` | src/dns/zone_signer.rs:571-597 | what the signer builds from its owner set is an honest chain of the published zone |
| `NegativeAnswers.WireRoundTrip` | src/dns/dnssec_sign.rs:304-323 | every NSEC3 record survives serialisation and the validator's parser |
| `NegativeAnswers.SelectNodes` | src/dns/zone_signer.rs:486-517 | the selection holds a match of the closest encloser and covers of the next closer name and the wildcard whenever the ring has them |
| `NegativeAnswers.SelectionDecides` | src/dns/zone_signer.rs:486-517 | the at most three selected records already decide the name exactly as lookup does |
| `NegativeAnswers.Serialise` | src/dns/zone_signer.rs:454-474 | all picked records are written, and writing a record fails exactly if the hashed owner name does not fit |
| `NegativeAnswers.DenyName` | src/dns/zone_signer.rs:486-517 | signer's answer, wire form, parser and validator together accept exactly the names for which lookup in the published zone gives no such name, provided hashed owner names fit; otherwise nothing is accepted |
| `NegativeAnswers.DenyType` | src/dns/zone_signer.rs:477-482 | the same exchange for a type is accepted exactly if hashed owner names fit and the name exists with neither the type nor an alias |
| `KeyCache.KeyCache.Get` | src/dns/infra_cache.rs:101-115 | a fresh value or none; only the expired entry itself goes, no other key set changes |
| `KeyCache.KeyCache.Learn` | src/dns/infra_cache.rs:117-124 | the set is stored with its clamped lifetime, an empty one is ignored, the cap holds and at most one other entry is given up |
| `KeyCache.KeyCache.Victim` | src/dns/infra_cache.rs:135-150 | the victim is expired, or the least recently used of a fully fresh bounded sample |
| `ChainOfTrust.DelegationPath` | src/dns/dnssec_chain.rs:105-122 | the suffixes of the zone name from the top label down |
| `ChainOfTrust.TakeOrFetch` | src/dns/dnssec_chain.rs:126-138 | the result is what a fetch would give, and the pool stays faithful |
| `ChainOfTrust.Prefetch` | src/dns/dnssec_chain.rs:162-180 | the pool holds only true answers, and the cache stays sound |
| `ChainOfTrust.CrossCut` | src/dns/dnssec_chain.rs:223-307 | one level below trusted keys gives the plain walk's verdict, and what is learned keeps the cache sound |
| `ChainOfTrust.TrustedKeysFor` | src/dns/dnssec_chain.rs:140-310 | with any sound cache, verdict and keys are those of the walk without cache and pool, and the cache stays sound |
| `ChainOfTrust.LifetimeBounded` | src/dns/dnssec_chain.rs:79-94 | a cached key set outlives none of its signatures by more than the cache's 60-second floor |
| `Verdicts.SecureIsEarned` | src/dns/dnssec_chain.rs:140-310 | whatever the network answers, trusted keys are linked to the root anchor by validated steps at every label |
| `Verdicts.InsecureIsEarned` | src/dns/dnssec_chain.rs:231-322 | insecure rests on a real cut above whose missing DS is proven under chained keys |
| `Verdicts.ProvesNoExactMatch` | src/dns/dnssec_chain.rs:424-438 | true exactly if validated NSEC records cover the name or validated NSEC3 records prove it absent |
| `Verdicts.ValidateDenial` | src/dns/dnssec_chain.rs:441-464 | true exactly if the validated records prove the denial that the response code claims |
| `Verdicts.ValidateFull` | src/dns/dnssec_chain.rs:487-582 | the verdict and the served authority are those of the cache-free specification, and the cache stays sound |
| `HonestNet.TrustedIsGenuine` | src/dns/dnssec_chain.rs:140-310 | if only owners can sign, trusted keys are the true keys of a zone at or above the name |
| `HonestNet.SecureNxdomainIsTrue` | src/dns/dnssec_chain.rs:441-582 | a secure NXDOMAIN whose NSEC sets are not expanded, or whose zone has no wildcard: a name that owns records in the zone whose keys were used is an opted-out delegation; if no record at or above the name is that of a delegation, a name that owns records in the zone it belongs to is at or below one |
| `HonestNet.SecureNsecNxdomainIsTrue` | src/dns/dnssec_chain.rs:441-582 | proven by NSEC alone under that guard, lookup in that zone gives no such name if and only if the covering record shows nothing below the name and the wildcard at the encloser it shows does not exist; if no record is that of a delegation above the name, it is the zone the name belongs to, and nothing is there |
| `HonestNet.SecureNsec3NxdomainIsTrue` | src/dns/dnssec_chain.rs:441-582 | proven by NSEC3 alone, lookup in that zone gives no such name, wildcards included, if and only if nothing opted out hides in the covered names, which clear opt-out flags guarantee; if besides no matched encloser is a delegation, it is the zone the name belongs to, and nothing is there |
| `HonestNet.SecureNodataIsTrue` | src/dns/dnssec_chain.rs:441-582 | a secure NODATA under the same guard: the name exists in the zone whose keys were used and the type does not; if the record is that of the right side of a cut at the name, the zone that the type belongs to does not have it either |
| `HonestNet.SecureAnswerIsTrue` | src/dns/dnssec_chain.rs:424-582 | a secure answer has exactly record data published at that name by the zone it belongs to or by the zone above a cut there, or those of a wildcard above; the expanded name is absent or opted out, in the zone it belongs to if no record is that of a delegation above it; NSEC3 data come from the chain |
| `HonestNet.SecureExpansionIsTrue` | src/dns/dnssec_chain.rs:424-582 | a secure expanded answer is what lookup in the zone whose keys were used gives if and only if its wildcard stands at the closest encloser that the covering NSEC record shows or the NSEC3 proof matched |
| `HonestNet.OwnRecordsSpeak` | src/dns/dnssec_denial.rs:251-376 | over the name's own zone every genuine message meets that guard, so it refuses no true denial |
| `HonestNet.InsecureIsTrue` | src/dns/dnssec_chain.rs:231-322 | insecure under the same guard: at some cut above, the zone whose keys were used has no DS record |
| `HonestNet.ServedSoaIsValidated` | src/dns/dnssec_chain.rs:599-645 | authority served with validated keys is in the zone, and an SOA in it validated |
| `EndToEnd.VerdictOfRecords` | src/dns/dnssec_chain.rs:441-582 | the verdict on a signed NXDOMAIN message is that of the records it carries |
| `EndToEnd.SignedDenialIsJudgedRight` | src/dns/dnssec_chain.rs:487-582 | the signer's selected records, delivered under trusted keys, are judged secure if and only if the name is absent from the published zone |
| `EndToEnd.ChainIsJudged` | src/dns/dnssec_chain.rs:487-582 | over any family of linked zones the verdict on a message with a zone's whole NSEC3 chain is the verdict of the chain |
| `EndToEnd.HonestNetworksExist` | src/dns/dnssec_chain.rs:487-582 | for every family of linked zones and every zone of it signed by the signer there is an honest network, with a secure NXDOMAIN for exactly the absent names |
| `ReferenceNet.ReferenceIsHonest` | src/dns/dnssec_chain.rs:140-310 | a network whose checks accept exactly what linked zones publish, and wildcard expansions of it, is honest whatever is fetched |
| `ReferenceNet.WalkArrives` | src/dns/dnssec_chain.rs:140-310 | with true DS and DNSKEY answers the walk reaches every name with the keys of the deepest signed zone above it |
| `Families.NsecChainExists` | src/dns/dnssec_denial.rs:63-121 | every zone has an honest NSEC chain |
| `Families.NetworkExists` | src/dns/dnssec_chain.rs:140-310 | every family of zones, signed with NSEC or NSEC3 and linked by DS, has an honest network in which every zone is reached and every NSEC record, expanded or not, can be delivered |
| `VerdictLimits.MessageVerdict` | src/dns/dnssec_chain.rs:441-582 | a message with one validated NSEC record is secure if that record makes the denial |
| `VerdictLimits.NxdomainsTrueIff` | src/dns/dnssec_chain.rs:350-582 | every secure NXDOMAIN of a reached NSEC zone is true of the zones the names belong to if and only if the zone has no wildcard and no zone below it owns a name that it does not own itself |
| `VerdictLimits.NodatasTrueIff` | src/dns/dnssec_chain.rs:350-582 | for each type, every secure NODATA of such a zone is true of the zones the names belong to if and only if, at every name below the apex that has the type, the zone's own record and those of the wildcards above show it or an alias |
| `VerdictLimits.ChildMisjudged` | src/dns/dnssec_denial.rs:356-376 | for every delegation of such a zone and every name below it, a message with the delegation's own record is a secure NXDOMAIN |
| `AnswerLimits.ExpansionsTrueIff` | src/dns/dnssec_chain.rs:424-582 | every secure expanded answer of a reached NSEC zone, with denial records as signed, is the answer of the zone the name belongs to if and only if every wildcard is the answer for all names below its parent that own nothing |
| `HashedLimits.HashedNxdomainsTrueIff` | src/dns/dnssec_chain.rs:366-582 | every secure NXDOMAIN of a reached NSEC3 zone is true if and only if every name below the apex that owns records is signed there, or the wildcard at its closest signed ancestor is |
| `HashedLimits.HashedNodatasTrueIff` | src/dns/dnssec_chain.rs:366-582 | for each type, every secure NODATA of such a zone is true if and only if the record of every signed name below the apex that has the type shows it or an alias |
| `HashedLimits.BelowCutIsDenied` | src/dns/dnssec_denial.rs:293-319 | every name below a signed delegation is one such a zone denies |
| `HashedLimits.FamilyIsHashed` | src/dns/dnssec_chain.rs:140-310 | every NSEC3 zone of every family is reached so over some honest network |
| `VerdictLimits.AnswerMisjudged` | src/dns/dnssec_denial.rs:356-376 | in every reached NSEC zone with a wildcard and a missing sibling with room for a child, such a message exists for a name that the wildcard answers |
| `VerdictLimits.FamilyIsReached` | src/dns/dnssec_chain.rs:140-310 | every NSEC zone of every family is reached over some honest network, so the two theorems apply to it |
| `VerdictExamples.ExpansionsMislead` | src/dns/dnssec_verify.rs:418-455 | an honest network with a secure NXDOMAIN for an existing name and a secure NODATA for an existing type |
| `VerdictExamples.ParentsMislead` | src/dns/dnssec_denial.rs:356-376 | an honest network, no wildcard in the zone, in which its record of a signed delegation as it was signed gives a secure NXDOMAIN and a secure NODATA for what the delegated zone has |
| `VerdictExamples.ChildrenMislead` | src/dns/dnssec_denial.rs:77-85 | an honest network in which a zone's record of its own apex gives a secure NODATA for the DS that the zone above has |
| `VerdictExamples.WildcardsMislead` | src/dns/dnssec_chain.rs:424-438 | an honest network in which a wildcard's data are a secure answer for a name that does not exist |
| `VerdictExamples.AncestorsMislead` | src/dns/dnssec_denial.rs:356-376 | an honest network with a secure NXDOMAIN, by one record as it was signed, for a name that a wildcard answers |
| `VerdictExamples.OptOutMisleads` | src/dns/dnssec_denial.rs:234-319 | an honest network with a secure NXDOMAIN for an existing unsigned delegation |
| `VerdictExamples.StrippingMisleads` | src/dns/dnssec_chain.rs:231-268 | an honest network in which a name of a signed zone is judged insecure, the DS and NS answers of that zone being empty |
| `InsecureCuts.InsecureIsEarnedInside` | src/dns/dnssec_chain.rs:231-268 | if no signed zone on the walked path has both answers empty, a query is judged insecure only below an unsigned delegation, or a name its chain does not list, in the deepest signed zone above the query, whichever ancestor the message names |
| `InsecureCuts.InsecureIffWalk` | src/dns/dnssec_chain.rs:487-513 | some message is judged insecure exactly if the walk to the query name itself ends so |
| `InsecureLimits.InsecureIffDenied` | src/dns/dnssec_chain.rs:231-513 | some answers and some message bring a query to insecure if and only if some zone above a name on its path can prove that name to have no DS |
| `SyncJournal.Journal.Push` | src/sync.rs:429-444 | the operation joins the history under the next number; the queue is the last 1000 of it |
| `SyncJournal.Journal.DeltaSince` | src/sync.rs:448-459 | exactly the history from the given number on, or nothing once that has left the last 1000 events |
| `SyncJournal.Replica.ApplyEvent` | src/sync.rs:1515-1580 | one event changes exactly one store: adds an unknown id, removes a deleted one, or gives a feed the data of the slave's own download |
| `SyncJournal.Replica.ApplyAll` | src/sync.rs:1506-1511 | the stores after a reply are the events run in order, with what each refresh found |
| `SyncJournal.VisibleWrite` | src/feeds/mod.rs:792-829 | with the refresh data of feeds masked, what an operation does to a store does not depend on the download |
| `Replication.ReplayIdempotent` | src/sync.rs:1515-1575 | replaying a stretch of history over a store that already contains it changes nothing |
| `Replication.ReplayForward` | src/sync.rs:1515-1575 | replaying past the moment of the snapshot gives the later store |
| `Replication.ReplayBehind` | src/sync.rs:1515-1575 | over a snapshot one change ahead of the journal the replay ends just before or just after that change |
| `Replication.NextKeeps` | src/sync.rs:1193-1219 | every step of master or slave keeps the invariant |
| `Replication.Converges` | src/sync.rs:1276-1575 | over every interleaving, refreshes of either side included, after a full sync each store of the slave, feeds without their refresh data, is the master's at some moment not before the slave's position |
| `Replication.CaughtUp` | src/sync.rs:1276-1575 | a slave positioned at the end of the log holds exactly the master's dns and blacklist, and its feeds up to refresh data |
| `Replication.QuietTick` | src/sync.rs:1457-1513 | one tick against a quiet master ends in that state, unless the slave is more than 1000 events behind |
| `FeedData.UnrefreshedAgree` | src/feeds/mod.rs:792-829 | over every interleaving, a feed that neither side has refreshed since the slave's snapshot read it is the same on both, data included |
| `FeedData.OneRefreshSuffices` | src/feeds/mod.rs:745-789 | from every reachable state a single refresh can make the two entries of a feed differ |
| `FeedData.RefreshDecides` | src/feeds/mod.rs:792-829 | after a refresh the entries agree if and only if it brought what the other side had |
| `FeedData.RefreshDiverges` | src/api/mod.rs:2627-2650 | a run with one refresh on the master and its replay that ends caught up with different entries |
| `JournalOrder.ReplayExactIffOrderKept` | src/api/mod.rs:2009-2079 | for a journal that has the changes in another order than the stores took them, the replay gives the master's stores if and only if the order is kept for every id |
| `JournalOrder.RelayExactIffDeletedLast` | src/sync.rs:1746-1835 | a slave that is also sent the changes directly, in any order and any number, ends with the master's stores if and only if for every deleted entry the last thing applied is a deletion |
| `JournalOrder.RelayedAdditionStays` | src/api/mod.rs:1962-1965 | an addition relayed after the tick applied its deletion leaves the entry on the slave |
| `JournalOrder.LateAdditionStays` | src/api/mod.rs:1951-1965 | an addition pushed after the deletion of its entry leaves the entry on the slave |
| `ReplayCache.Cache.CheckAndRecord` | src/sync.rs:117-140 | prunes, refuses a recorded signature, otherwise records it, giving up an oldest entry at the cap, which is never exceeded |
| `ReplayCache.Cache.Verify` | src/sync.rs:145-167 | late or wrong signatures change nothing; others go to the cache |
| `ReplayCache.ReplayExact` | src/sync.rs:109-167 | a signature presented again in its window is accepted if and only if the cap evicted it in between |
| `ReplayCache.AcceptedTwiceMeansEvicted` | src/sync.rs:109-167 | over any run, a second acceptance of a signature and timestamp has an eviction of it in between |
| `ReplayCache.AcceptedOnce` | src/sync.rs:109-167 | below the cap every signature is accepted at most once |
| `ReplayCache.Bounded` | src/sync.rs:112-140 | over any run the cache never exceeds its cap |
| `SnapshotCache.LiveCache.Insert` | src/dns/cache_snapshot.rs:171-192 | only an expired entry is ever given up, no other entry changes, the size stays within old size and cap, and the generation moves exactly with the map |
| `SnapshotCache.LiveCache.InsertLocal` | src/dns/cache_snapshot.rs:198-206 | local data always replaces its key |
| `SnapshotCache.LiveCache.EvictOldest` | src/dns/cache_snapshot.rs:226-260 | removes exactly min(excess, non-sentinels) entries, each expiring no later than any kept non-sentinel, never a sentinel, and bumps the generation exactly then |
| `Publisher.NextKeeps` | src/dns/cache_snapshot.rs:424-454 | every step of writers, clock and publisher keeps the invariant that an unpublished write still shows |
| `Publisher.NoLostUpdate` | src/dns/cache_snapshot.rs:424-454 | over every interleaving, an idle publisher at the current generation with no writer in between serves the live map's unexpired entries |
| `Calendar.CivilSteps` | src/logbuffer.rs:377-387 | every day count gives a valid date, and the next count its calendar successor |
| `Calendar.CivilIsGregorian` | src/logbuffer.rs:369-390 | day 0 is 1 January 1970 and day n is the n-th day after it |
| `Calendar.EarlierIsSmaller` | src/logbuffer.rs:369-390 | between years of equal width an earlier instant has the smaller text |
| `Calendar.TextOrderIsTimeOrder` | src/logbuffer.rs:343-343 | through the year 9999 texts compare exactly as instants |
| `Calendar.OrderBreaksAtYear10000` | src/logbuffer.rs:389-389 | the first second of the year 10000 sorts before the last of 9999 |
| `LogRing.LogBuffer.Push` | src/logbuffer.rs:181-190 | the ring then holds the last `capacity` entries of the history |
| `LogRing.LogBuffer.PushQuery` | src/logbuffer.rs:194-209 | the client address is stored, or the redaction mark where addresses are not logged |
| `LogRing.LogBuffer.Clear` | src/logbuffer.rs:212-220 | empties the history and reports how many entries were held |
| `LogRing.LogBuffer.RunQuery` | src/logbuffer.rs:224-273 | the requested page of the matching entries among the last `capacity`, newest first, and their total |
| `LogRing.PagesAreWhole` | src/logbuffer.rs:269-272 | concatenating pages gives the whole result, nothing twice and nothing missed |
| `ShardedLog.LastOfShare` | src/logbuffer.rs:311-325 | a shard's last k entries are its share of the last 16k overall |
| `ShardedLog.RingsActAsOne` | src/logbuffer.rs:292-325 | the sixteen rings together hold exactly the last 16k entries pushed since the last clear |
| `ShardedLog.AnswerIsExact` | src/logbuffer.rs:328-348 | the merged answer is exactly the matching part of those entries, ordered by time text, whichever sort is used |
| `ShardedLog.AnswerNewestFirst` | src/logbuffer.rs:343-343 | before the year 10000 that order is newest first |
| `ShardedLog.PagesShowAll` | src/logbuffer.rs:344-347 | turning pages shows every matching entry exactly once |
| `ShardedLog.ShardedLogBuffer.PushQuery` | src/logbuffer.rs:311-325 | whichever shard the wrapping counter selects, the entry joins the common history, with the client address or the redaction mark as the setting says |
| `ShardedLog.ShardedLogBuffer.RunQuery` | src/logbuffer.rs:328-348 | the requested page of the merged answer, and its size, for any sort by time text |
| `ShardedLog.ShardedLogBuffer.Clear` | src/logbuffer.rs:351-357 | empties all shards and reports min(pushed, 16k) |
| `Glob.GlobMatch` | src/config/parser.rs:623-648 | never accepts wrongly, and equals the meaning of the pattern unless both strings contain a star |
| `Glob.ScanComplete` | src/config/parser.rs:628-643 | remembering only the last star loses no match |
| `Glob.ExactOnNames` | src/config/parser.rs:623-648 | the matcher gives every pattern its meaning on a name if and only if the name has no star |
| `Glob.MissedIsMissed` | src/config/parser.rs:629-629 | for every name with a star, a pattern that fits and is turned down |
| `Alerts.AlertTracker.IsBlocked` | src/alerts.rs:158-171 | true exactly for a ban in force; an expired one is dropped |
| `Alerts.AlertTracker.IsTarpitted` | src/alerts.rs:183-195 | the same for delays |
| `Alerts.AlertTracker.Trigger` | src/alerts.rs:274-346 | the rule's action and the recent list, with caps and exempt addresses |
| `Alerts.AlertTracker.Count` | src/alerts.rs:238-260 | the loop yields the bucket after all rules and the rules that cross their threshold |
| `Alerts.AlertTracker.Record` | src/alerts.rs:205-272 | verdict and whole new state are those of the collecting specification |
| `AlertProofs.CollectionIsInvisible` | src/alerts.rs:225-231 | over any run with an ordered clock, verdict, fired rules, bans, alerts and notifications equal those of a tracker that never collects |
| `AlertProofs.FiresExactly` | src/alerts.rs:238-260 | a rule fires at a query exactly if it is the counted query number threshold + 1 of its window, whatever the other rules |
| `AlertProofs.OncePerWindow` | src/alerts.rs:246-258 | over any run, if a rule fires at two queries of one client, the window of the later one opened after the earlier query |
| `AlertProofs.AlwaysBounded` | src/alerts.rs:274-346 | bans, delays and recent alerts stay within their caps, and loopback and unspecified addresses are never banned |
| `IcmpLimiter.Responder.Handle` | ebpf/dns_xdp.c:405-468 | answers exactly what the limiter admits, counts every request and every reply once, and a refused request leaves every entry as it was |
| `IcmpLimiter.RepliesBounded` | ebpf/dns_xdp.c:430-468 | over any run, replies within T nanoseconds stay within max(1, burst) + (T / 10^9 + 1) * max(rate, 1) |
| `IcmpLimiter.BurstIsServed` | ebpf/dns_xdp.c:435-465 | the burst is answered in full and leaves the first window's count untouched |
| `EchoReply.CsumAddMeans` | ebpf/dns_xdp.c:187-191 | the sum modulo 65535, zero only for zeros (section 3 of RFC 1624) |
| `EchoReply.PatchAdds0800` | ebpf/dns_xdp.c:484-485 | on hosts of either byte order the checksum field grows by 0x0800 modulo 65535 |
| `EchoReply.Rewrite` | ebpf/dns_xdp.c:470-486 | the request becomes the reply in place |
| `EchoPath.Process` | ebpf/dns_xdp.c:392-491 | recognition, ban, limiter and rewriting together: the packet becomes the reply exactly if the limiter admits its source, and is untouched otherwise; only echo requests are counted |
| `EchoReply.ReplyChecksum` | ebpf/dns_xdp.c:480-485 | for every message length the reply's checksum is good if and only if the request's was |
| `EchoReply.ReplyHeaderSum` | ebpf/dns_xdp.c:476-479 | exchanging the addresses keeps the header sum |

## Left out

- HMAC, SHA-1, RRSIG and DNSKEY checks, the message codec, the fetcher and sockets: arbitrary functions with stated assumptions.
- DNAME: lookup does not follow it, and the checks do not read its bit at the closest encloser.
- ZoneTree.AuthoritativeIsDeepest: for trees in which a zone lists nothing below its delegations, SOA stands at the apex alone and every zone is delegated from the one above it.
- NsecProofs.NsecNxdomainSound: gives only that some ancestor's wildcard owns nothing, because the source accepts a covered wildcard at any ancestor; NsecLookup.NxdomainTrueIffDenied is exact.
- NsecLookup.NxdomainTrueIffDenied: for zones in which an empty name has an owner below it, which is what makes it exist.
- HonestNet.SecureNxdomainIsTrue: gives truth only for messages that meet two guards, because the source accepts the others too: no expanded NSEC sets or no wildcards in the zone, and for the zone the name belongs to no record that is that of a delegation above it. VerdictLimits and HashedLimits have the exact conditions. The first guard also stands in SecureNsecNxdomainIsTrue, SecureNodataIsTrue, SecureAnswerIsTrue and InsecureIsTrue, the second in the first three and in SecureNsec3NxdomainIsTrue.
- ExpandedDenial.NxdomainTrueIffNoWildcard: for zones whose apex owns records and is not itself a wildcard name; VerdictLimits.NxdomainsTrueIff is also for an apex that is not a wildcard name.
- VerdictLimits.NxdomainsTrueIff: true means here that the name owns no records in the zone it belongs to; whether a wildcard would have answered is the matter of NsecLookup. The same holds for HashedLimits.HashedNxdomainsTrueIff, which with HashedNodatasTrueIff is about queries whose hashes do not collide with those of the zone.
- AnswerLimits.ExpansionsTrueIff: for messages without expanded NSEC sets, types other than NSEC3 and RRSIG, and an apex that is not a wildcard name.
- InsecureCuts.InsecureIsEarnedInside: one direction, because a path with empty answers may still end well; InsecureLimits.InsecureIffDenied is exact over all answers.
- The presentation-form round trip inside wildcard_of: modelled as putting a label in front, refused where the name would be too long.
- Writers that save in one order and push in another: in Replication a change and its push are steps of one writer at a time; JournalOrder has the exact condition on the order.
- Changes sent to registered slaves beside the journal: no step of Replication, whose theorems are for slaves that follow the journal; JournalOrder has the exact condition.
- Feed lists changed while a feed downloads: a refresh is one step, so the loss of such a change when the list is saved is not modelled.
- Replication of upstreams and bans, failed writes on the slave, master restart and the 64-bit limit of journal numbers: not modelled.
- A poisoned lock in the replay cache and the log shards: not modelled.
- Wrap-around of the 64-bit cache generation counter: the counter is unbounded in the model.
- Several clock readings inside one cache operation: each operation of the live cache takes one reading.
- Fixed-size text buffers of log entries and overflow of page times limit: not modelled.
- Case folding beyond ASCII, paths and directory reading around the glob matcher: not modelled.
- Relaxed atomics of the cache generation and its flags: Publisher's steps are sequentially consistent.
- Several processors handling packets of one source at once: IcmpLimiter takes one packet at a time per source, so lost updates of its entry are not modelled.
- Persistence of bans, delivery of webhooks, manual and bot bans, rule reloads: not modelled.
- Eviction of limiter entries by the kernel's least-recently-used map: the bound is for a source that stays tracked.
- Configuration parsing and rendering, upstream probing, statistics, REST handlers, TLS, ACME and the XDP cache lookup: I/O plumbing or thin wrappers.
