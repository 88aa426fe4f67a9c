# Verified models of the DNS server's stateful kernels

This Dafny project models the parts of the server that keep state or decide
something subtle, and proves what they are for. Routines that the server writes
as loops over fields and maps are classes and methods with loops here; each is
proved against a specification function, and the promises are proved about that
function as lemmas. `dafny verify dfyconfig.toml` checks everything.

## Catalog zones (RFC 9432)

`CatalogModel`, `CatalogPlan` and `CatalogPlanner` hold the planner. A round
reads the last accepted catalogs, the new ones, the ownership, the catalog order
and the reserved zones. `CatalogPlan.IsPlan` says declaratively which actions
are due and in which order; `CatalogPlanner.Plan` is the code's three loops
(transfer, retain or remove, add or conflict) and is proved to return exactly
the plan. From that: at most one action besides conflict reports for each zone,
ownership after a round is exactly what is published, not reserved and not
removed in this round, it moves only by the owner's own change-of-ownership
property, and new zones go to the earliest publisher. A zone removed in a round
keeps its old claim for that round, so another publisher gets a conflict now and
an Add only next time; the statements say so. `CatalogOutcomes` says in the
fields of the catalogs when each of the six kinds of action is due, that the
kinds follow each other in one order, that exactly the zones whose label changes
are reset, and that approval counts exactly the owned zones that lose their
data.

`CatalogGraph` is the acyclicity check, accepted exactly when for no zone a
chain of catalogs, each naming the next, closes. `CatalogConvergence` repeats
rounds over fixed catalogs: accepted catalogs reach a plan of conflict reports
only after at most one more round than there are catalogs, a chain through any
list of catalogs attains the bound, and without the check a zone settles from
every start if and only if every walk of hand-offs ends. `CatalogBudget` is the
token budget over real numbers, with the bound on what any time window can
commit. `CatalogRuntime` is the reconciler with its checks, charge, refund,
commit and rollback: a plan is admitted exactly when every check passes, an
admitted plan is committed exactly when tokens, masters, data, state file and
publication all hold, and each failure occurs exactly when its own cause is the
first that is missing. `CatalogRuns` takes its contract to whole runs: any
series of reconciliations, successful or not, commits at most the burst plus
what accrues; and since plans ignore serials, a runtime whose catalogs change
nothing but their serials settles within the same bound, counted in
reconciliations that succeed, however many fail in between. `CatalogPages` is
the bounded page and the listing made of pages.

## Cache

`CacheQueue` is the indexed heap, `CacheEntries` the sizes, lifetimes and the
shortest eviction, `CacheShards` one shard and `CacheSharded` the whole cache.
After every operation heap, index, entry map, byte counter and both capacity
bounds agree. An insertion gives up exactly the shortest run of first entries,
in order of removal time and hash, that makes room. Cleanup drops exactly the
due entries and changes no later lookup, unless stale serving is on with a
negative stale limit: then an entry may be due while it would still be served,
and the if-and-only-if lemma says so. When a configured minimum lifetime exceeds
the maximum, neither bound is kept in general: what is left of a life is either
cut to the maximum or, if it was no longer than that, raised to the minimum. The
bounds for negative answers mean nothing to others, nor theirs to negative ones.
Two lemmas say exactly when each bound holds and one gives lives that break each
of them. A zero quarantine or a zero maximum for negative answers asks for its
default, so only a negative setting turns it off.

## Trust anchors (RFC 5011)

`TrustAnchors` is the five-state machine, with signature checks as given facts.
The loop over the known keys reads states that it is changing; the result is
proved not to depend on the order, because no pending key ever rests on another
pending key, and a lemma shows that the order would matter otherwise. A key
becomes usable only after its hold-down, the longer of thirty days and the time
to live it was first seen with, and every observed response of that time carried
it unrevoked; for a key that the state file already had pending, the hold-down
is the file's and every observed response since the start carried it. A key
loses trust only by its own proven revocation, and is then never trusted again
while the server runs. "Observed" responses are those that are authenticated and
not cut short: when the write that follows a revocation fails, the server stops
before it looks at the other keys, so such a response proves nothing about them.

`AnchorRestarts` runs the machine with restarts as events. Whatever the file
holds can be read back and leads to a sound state. A revocation outlives a
restart if and only if the file already had it or a write has reached the file
since, and a revoked key stays revoked whatever happens if and only if the file
has the revocation; one whose write fails is undone by a restart before the next
write. Restarts at which the file holds what the server knew change nothing. The
hold-down of an untrusted key is kept across a restart, whatever responses
follow, if and only if the file has the key neither trusted nor, with a usable
key left that vouched for it, pending with an earlier end than the server knows;
and it is kept over every run whose restarts are all of this kind. Otherwise it
is not: a key missing from an observed response whose write fails comes back at
a restart with its old first sighting, and a lemma gives a run in which it is
then trusted. `AnchorTurns` tells in the fields of the records what one response
does to a key in each state and to the file, and that over every run, with
restarts or without, a key can only become known from a response signed by a
trusted key that carries it as an unrevoked secure entry point of a usable
algorithm.

## Outbound NOTIFY and hedged queries

`NotifyProtocol` is the coalescer as a state machine whose steps are the
critical sections and channel operations; `NotifyNotifier` is the class whose
methods are proved to be those steps. In every reachable state a zone is queued
or in delivery at most once, so sends made under the lock never block and two
deliveries of one zone never overlap; while open nothing pending is stranded,
and an idle zone's last SOA handed to the sender is the last one announced.
`NotifyRuns` says so of the steps alone: the last Notify for an idle zone was
followed by a delivery, and the last delivery was given just that SOA; every
delivery begun while open is given the SOA last announced; and a delivery during
which its zone is not announced again leaves it idle.

`HedgedQuery` is the launch, result and hedge loop over a script of outside
events: servers are tried once each in list order, the width is never exceeded,
the channel absorbs every attempt in flight, total failure means that all
failed, and an undecided query always has something that will wake it. Results
are read in the order in which attempts complete; the first good one read is the
answer, and the failures are exactly the bad ones.

## Response policy zones

`RpzPrefixes` has the per-length tables, proved to answer like a linear scan
over everything ever inserted; `RpzAnswers` the choice of one address rule over
a set of answers; `RpzPolicy` the meaning of zones and of the three evaluation
stages; `RpzZones` the classes; `RpzPrecedence` says in lengths, addresses and
labels which rule wins. A decision made from the request alone always equals the
full evaluation. A decision of the response stage equals it if and only if it
comes from no zone, or from an enabled zone and a rule with an action: that
stage also reports response-address rules of disabled zones and rules whose
action is none, which the full evaluation passes over. The three stages
therefore give the full result if and only if no zone awaits the response or no
zone misleads the second stage, both conditions on the zones, the query and the
response. The address rule picked does not depend on the order of the records,
except when an IPv4 and an IPv6 rule for the same 128-bit prefix tie with
different contents; any such pair of rules makes the order of two records
matter.

## Zone transfer (RFC 1995)

`ZoneRecords` is the zone object, `ZoneTransfer` the application of a reply,
`ZoneVersions` what deltas mean, `ZoneUndo` how one is taken back, and
`ZoneJournal` the primary's journal and replies. Reading a reply inverts writing
it; an incremental reply is accepted exactly when it is a chain of deltas from
the current serial to its own; and a chain carries a zone from its first version
to exactly its last.

`ZoneSync` puts the two ends together: whichever reply the primary chooses, a
secondary with the records of the version it asked from ends at the primary's
version, if that version has records besides the SOA and a greater serial, no
earlier version in the journal has the requested serial and none in between has
the newest one's. Serials repeat once a history spans the serial circle: the
range that is sent is the whole rest of the history exactly under that condition
on serials, and a history of five versions is given whose reply stops at the
second.

`ZoneShift` takes a secondary whose serial is an earlier version's but whose
records are not. With one time to live for each record set throughout, deltas
apply to it exactly when they touch none of the difference, which they then
keep; so every reply brings it up to date if and only if the newest version has
records besides the SOA and each first range to its serial leaves the difference
alone and makes up for it. A history of six versions is given whose reply such a
secondary refuses.

In a zone with one time to live for each record set, swapping the additions and
deletions of an accepted delta takes it back if and only if its deletions name
the stored records with their times to live and its additions share the time to
live of the records that stay beside them; acceptance asks for neither, and a
delta that is not taken back is given, while the difference of two versions
always is. Deletion compares whole records after giving the request the time to
live of the first record of the set. Where one set mixes times to live, a
deletion can therefore pass the presence check and still remove nothing: the
exact condition and an accepted reply that leaves a deleted record are both
given.

## Names

`CanonicalNames` has three routines that order names from the root down as
section 6.1 of RFC 4034 does, each over its own labels: the validator over
octets, the policy engine over labels in presentation format, the cache over the
text split at its dots. Presentation format escapes the space, the dot and seven
more characters with a backslash, and unprintable octets with three digits, so
the last two do not order every pair of names canonically, although the cache's
documentation says that its comparison does. `EscapedNames` proves that the
cache's order is nevertheless a strict total order that puts a name before the
names below it, and says exactly when each of the two agrees with canonical
order, by the first labels that differ, their parts between dots and the octets
of those. Where labels hold no dots, the first octets in which two names differ
decide; on names without escaped octets all three agree.

`NsecDenial` proves what follows for synthesis from cached NSEC records. No name
that owns records is ever denied if and only if the text of the zone's owner
names keeps their order; with a complete chain and more than one owner name,
exactly the names without records are denied if and only if it does. In a zone
`e.` whose other names are `0.e.` and one whose first label is a space and a z,
an owner name is denied. The validator never covers an owner name; when it
agrees with a denial is given exactly, for every record. A chain of the apex
alone denies nothing.

`NameDecoding` reads compressed names by recursion on section 4.1.4 of RFC 1035,
by the parser's loop and by the C decompressor's loop. Both loops end on every
input; what each accepts is given exactly, where both accept they agree, and the
C buffer of 256 octets is never exceeded. The C code also accepts a name that
runs off the end of the packet without a final zero; the specification marks
such readings. `NameWriting` lays names out octet by octet, with and without a
pointer, and proves that they are read as the labels written, and that the text
splits into the labels again.

`ByteOrder`, `SerialNumbers`, `Sequences` and `Wrappers` are shared.

## Model

| member | source | states |
|---|---|---|
| ByteOrder.SortedUnique | internal/catalog/planner.go:271-313 | a sorted list is determined by its elements, so sorting hides map iteration order |
| ByteOrder.SortedKeys | internal/catalog/planner.go:294-313 | ranging over a set of names in any order and sorting gives the one sorted list of it |
| ByteOrder.LessIff | internal/catalog/planner.go:294-313 | strings are ordered by the first octet that differs, and before their continuations |
| CatalogPlan.BeforeIsStrictOrder | internal/catalog/planner.go:315-345 | the action order is a strict total order up to actions with equal kind, zone and catalog |
| CatalogPlan.PlannedKeysDistinct | internal/catalog/planner.go:315-345 | two planned actions never tie, so the sort leaves nothing to chance |
| CatalogPlan.PlanUnique | internal/catalog/planner.go:315-345 | two lists in action order with the same actions are equal |
| CatalogPlan.PlanIsDeterministic | internal/catalog/planner.go:42-186 | the whole plan is a function of the inputs, whatever order the maps are ranged in |
| CatalogPlan.OneActionPerZone | internal/catalog/planner.go:65-184 | each zone gets at most one action besides conflict reports |
| CatalogPlan.PlanGivesNextOwner | internal/catalog/runtime.go:695-735 | applying the actions one by one gives every zone the owner its own decision names |
| CatalogPlan.OwnersPublishAfter | internal/catalog/runtime.go:695-735 | after a round every owned zone is published by its owner under the recorded label, from any ownership before |
| CatalogPlan.OwnedIffPublished | internal/catalog/planner.go:102-182 | owned zones are exactly the published, unreserved zones not removed in this plan |
| CatalogPlan.OwnershipMovesOnlyByConsent | internal/catalog/planner.go:71-98 | a zone leaves its owner only if the owner stopped publishing it or named the new owner, which publishes it too |
| CatalogPlan.FirstPublisherIsListed | internal/catalog/planner.go:151-182 | the first publisher is a catalog in the order, and there is none only if no listed catalog publishes the zone |
| CatalogPlan.FirstPublisherIsEarliest | internal/catalog/planner.go:151-182 | no publisher comes before the first publisher in the order |
| CatalogPlan.NewZonesGoToEarliest | internal/catalog/planner.go:151-182 | a newly owned zone belongs to the earliest catalog that publishes it |
| CatalogPlan.EveryPublisherIsAnswered | internal/catalog/planner.go:151-182 | each publisher owns the zone, gets a conflict report, offers it to its claimant, or has just handed it over |
| CatalogOutcomes.TransferDueIff | internal/catalog/planner.go:71-98 | a transfer is planned for exactly the zones whose owner names another catalog that publishes them too; it resets the zone exactly if the label changes |
| CatalogOutcomes.RemoveDueIff | internal/catalog/planner.go:111-119 | a removal is planned for exactly the zones that their owner no longer publishes |
| CatalogOutcomes.RecreateDueIff | internal/catalog/planner.go:121-129 | a recreation is planned for exactly the zones that stay with their owner under another label |
| CatalogOutcomes.ReconfigureDueIff | internal/catalog/planner.go:130-137 | a reconfiguration is planned for exactly the zones that stay with their owner under their label and whose earlier member differs from the new one in more than the change of ownership |
| CatalogOutcomes.AddDueIff | internal/catalog/planner.go:151-182 | an addition is planned for exactly the unowned, unreserved zones, by the first catalog in the order to publish them |
| CatalogOutcomes.ConflictDueIff | internal/catalog/planner.go:153-171 | a conflict is reported to exactly the catalogs that publish a zone another has a claim to, unless they own it or name the claimant |
| CatalogOutcomes.KindsFollowEachOther | internal/catalog/planner.go:315-345 | transfers, removals, recreations, reconfigurations, additions and conflict reports follow each other |
| CatalogOutcomes.ZonesAscendWithinKinds | internal/catalog/planner.go:315-345 | within a kind zones ascend, and conflicts on one zone follow the catalog order |
| CatalogOutcomes.ResetIffLabelChanges | internal/catalog/runtime.go:695-735 | the change asked for discards a zone exactly if the zone was owned under another label |
| CatalogOutcomes.BatchIs | internal/catalog/runtime.go:695-735 | the batch asks for exactly the changes of the actions that are not conflict reports |
| CatalogOutcomes.DestructiveCountsLosses | internal/catalog/runtime.go:752-765 | the actions that need approval are as many as the owned zones that are no longer owned or are owned under another label |
| CatalogPlanner.OrderedCatalogNames | internal/catalog/planner.go:271-292 | succeeds exactly without duplicates, with configured catalogs first and the others by name |
| CatalogPlanner.CatalogOrderIs | internal/catalog/planner.go:271-292 | configured catalogs stand as configured, before all others, which ascend by name |
| CatalogPlanner.CatalogOrderNoDuplicates | internal/catalog/planner.go:271-292 | that order names each catalog once |
| CatalogPlanner.SortActions | internal/catalog/planner.go:315-345 | the same actions, in action order |
| CatalogPlanner.TransferPass | internal/catalog/planner.go:71-98 | the first loop records exactly the planned transfers, moved owners and handled zones |
| CatalogPlanner.RetainPass | internal/catalog/planner.go:102-140 | the second loop adds exactly the planned removals, reconfigurations and recreations |
| CatalogPlanner.VisitMember | internal/catalog/planner.go:153-181 | one published member adds exactly the Add or conflict due for it, given the members visited before |
| CatalogPlanner.AddPass | internal/catalog/planner.go:142-182 | after the third loop the actions are exactly the planned ones, with distinct keys |
| CatalogPlanner.Plan | internal/catalog/planner.go:42-186 | fails exactly on a duplicate in the order or an owned reserved zone, and otherwise returns the plan |
| CatalogGraph.WalkFrom | internal/catalog/runtime.go:971-981 | reports a revisited catalog exactly when the walk from the start revisits one |
| CatalogGraph.CollectEdges | internal/catalog/runtime.go:956-970 | the change-of-ownership edges of a zone, or a catalog that names itself |
| CatalogGraph.ValidateCatalogGraph | internal/catalog/runtime.go:949-984 | accepts exactly when no zone has a self-directed or cyclic change of ownership |
| CatalogGraph.GraphOkIff | internal/catalog/runtime.go:949-984 | catalogs are accepted exactly when for no zone a chain of catalogs, each naming the next, closes |
| CatalogConvergence.CommittedIsNextOwners | internal/catalog/runtime.go:695-735 | committing the actions one by one equals deciding every zone at once |
| CatalogConvergence.ZonesEvolveAlone | internal/catalog/planner.go:65-184 | over any number of rounds each zone evolves by its own decisions alone |
| CatalogConvergence.StaysSettled | internal/catalog/planner.go:65-184 | a zone without an action in one round has none in any later round and keeps its owner |
| CatalogConvergence.WalkLengthBounded | internal/catalog/runtime.go:971-981 | a walk that never revisits has one catalog for each step, so fewer steps than catalogs |
| CatalogConvergence.HandoffsThatEndNeverRevisit | internal/catalog/planner.go:71-98 | a chain of hand-offs that ends passes no catalog twice |
| CatalogConvergence.TransfersEnd | internal/catalog/planner.go:71-98 | a zone on an ending chain is settled once the rest of the chain is used up |
| CatalogConvergence.UnownedSettles | internal/catalog/planner.go:142-182 | an unowned zone settles within as many rounds as there are catalogs |
| CatalogConvergence.OwnedSettles | internal/catalog/planner.go:65-184 | an owned zone settles within one round more than there are catalogs |
| CatalogConvergence.SettlesIffHandoffsEnd | internal/catalog/runtime.go:949-984 | a zone settles in that many rounds from every ownership and every earlier snapshot if and only if all its hand-offs end |
| CatalogConvergence.EndlessHandoffsNeverSettle | internal/catalog/planner.go:71-98 | a zone whose hand-offs do not end keeps moving along them for ever |
| CatalogConvergence.GraphOkHandoffsEnd | internal/catalog/runtime.go:949-984 | catalogs that pass the acyclicity check have ending hand-offs |
| CatalogConvergence.AcceptedCatalogsConverge | internal/catalog/runtime.go:949-984 | with accepted catalogs every plan after that many rounds is conflict reports only, and ownership no longer changes |
| CatalogConvergence.BoundIsTight | internal/catalog/planner.go:42-186 | for every list of catalogs, accepted catalogs and an ownership for which a zone is unsettled after as many rounds as catalogs, and settled one round later |
| CatalogConvergence.PlanIgnoresSerials | internal/catalog/planner.go:42-186 | rounds whose catalogs differ only in serials have the same plan |
| CatalogRuns.RunAsAttempts | internal/catalog/runtime.go:672-693 | a run of reconciliations is, for each budget, a series of attempts that charges exactly what the run commits |
| CatalogRuns.RunIsBounded | internal/catalog/runtime.go:820-849 | reconciliations of a catalog in any time window, successful or not, commit at most the burst plus the rate times its length |
| CatalogRuns.RefreshIsRound | internal/catalog/runtime.go:607-749 | each success of a run whose catalogs keep their members is, up to serials, a round over fixed catalogs; failures count for nothing |
| CatalogRuns.RefreshesConverge | internal/catalog/runtime.go:607-749 | such a run settles, however many reconciliations fail: every success after one more than there are catalogs only reports conflicts, charges nothing and leaves ownership |
| CatalogBudget.RefundIsComplete | internal/catalog/runtime.go:820-849 | tokens stay within zero and the burst, and a refund after a grant undoes the charge completely |
| CatalogBudget.TakeIff | internal/catalog/runtime.go:820-840 | actions are granted exactly if the tokens with what has accrued cover them, up to the burst, and cost one token each |
| CatalogBudget.RefillAccrues | internal/catalog/runtime.go:820-840 | tokens accrue at the rate while time passes, up to the burst |
| CatalogBudget.AttemptPays | internal/catalog/runtime.go:672-693 | what an attempt commits is paid for out of the credit left before the end of a window |
| CatalogBudget.RunPays | internal/catalog/runtime.go:672-693 | a run of attempts commits at most the credit it started with |
| CatalogBudget.WindowBound | internal/catalog/runtime.go:820-849 | the actions committed in any time window are at most the burst plus the rate times its length |
| CatalogRuntime.BatchNamesZonesOnce | internal/catalog/runtime.go:695-735 | a plan never asks the transfer manager to change one zone twice in a batch |
| CatalogRuntime.ValidateMemberScope | internal/catalog/runtime.go:925-947 | accepts exactly a known source, a member count within limits and members in scope that are not catalogs; each refusal has its own cause |
| CatalogRuntime.CountPlan | internal/catalog/runtime.go:672-677 | the number of actions besides conflicts, and of destructive ones |
| CatalogRuntime.CountIs | internal/catalog/runtime.go:672-677 | the count that is charged is the number of actions that are not conflict reports |
| CatalogRuntime.MembersAfterAt | internal/catalog/runtime.go:870-881 | after a plan a zone has no data if it was removed, the fetched data if it was configured, else its old data |
| CatalogRuntime.FurnishedIff | internal/catalog/runtime.go:882-887 | every final owner has member data exactly when it had some before or the plan configures it and it was fetched |
| CatalogRuntime.Runtime.CommitReconciliation | internal/catalog/runtime.go:851-923 | commits everything and bumps the generation exactly if every final owner has data and both writing and publication succeed; each failure has exactly its own cause and restores the state before |
| CatalogRuntime.Runtime.BuildBatch | internal/catalog/runtime.go:695-735 | the zone changes of the plan and the ownership they lead to; fails exactly when a member it configures has no masters |
| CatalogRuntime.Runtime.Prepare | internal/catalog/runtime.go:607-671 | admits the plan exactly when every check before the budget passes; a refusal names a check that fails |
| CatalogRuntime.Runtime.TakeReconcileBudget | internal/catalog/runtime.go:820-840 | grants and charges by the budget rule, keeping every budget in bounds |
| CatalogRuntime.Runtime.RefundReconcileBudget | internal/catalog/runtime.go:842-849 | leaves the budget as if nothing had been spent |
| CatalogRuntime.Runtime.ApplyPlan | internal/catalog/runtime.go:695-745 | applies the batch and commits the fetched member data exactly if members have masters, data is there for all and writing and publication succeed; each failure has exactly its own cause; never a duplicate change |
| CatalogRuntime.Runtime.ChargeAndApply | internal/catalog/runtime.go:678-748 | fails for want of tokens exactly when they do not cover the actions, and else as applying does; a plan that is not committed costs nothing |
| CatalogRuntime.Runtime.Reconcile | internal/catalog/runtime.go:607-749 | success commits the plan of an advancing, acyclic snapshot and restores the ownership invariant, failure changes nothing but the refill of the budget; it succeeds exactly if a plan was admitted, covered by tokens, all masters and data were there, and it could be written and published; each failure has exactly its own cause |
| CatalogRuntime.CommitRestoresOwnership | internal/catalog/runtime.go:695-735 | the committed ownership owns exactly the published zones |
| CatalogPages.PageGrows | internal/catalog/runtime.go:1201-1224 | how one more name changes the page of the least names above the cursor |
| CatalogPages.BoundedMemberPage | internal/catalog/runtime.go:1201-1224 | the limit least names above the cursor, in order, whatever the iteration order |
| CatalogPages.CatalogMembers | internal/catalog/runtime.go:451-542 | refuses exactly a bad limit, an unknown catalog, another serial or a page with a member without masters, in that order, and otherwise gives the page, the next cursor and the total |
| CatalogPages.ListingIsComplete | internal/catalog/runtime.go:487-540 | paging from any cursor lists every later member exactly once, in order, and ends |
| CatalogPages.WholeListing | internal/catalog/runtime.go:487-540 | paging from the empty cursor lists the whole snapshot |
| CacheQueue.RootIsFirst | internal/cache/sharded.go:213-218 | no item of an ordered heap comes before its root |
| CacheQueue.ExpiryQueue.Swap | internal/cache/sharded.go:160-164 | swaps two items and their indices; the contents stay |
| CacheQueue.ExpiryQueue.Up | internal/cache/sharded.go:166-175 | restores heap order from a place that may be too far down |
| CacheQueue.ExpiryQueue.Down | internal/cache/sharded.go:177-194 | restores heap order from a place that may be too far up |
| CacheQueue.ExpiryQueue.Set | internal/cache/sharded.go:196-211 | queues a key or moves it, keeping heap and index valid |
| CacheQueue.ExpiryQueue.Peek | internal/cache/sharded.go:213-218 | an item that no other comes before |
| CacheQueue.ExpiryQueue.Pop | internal/cache/sharded.go:220-227 | takes out an item that no other comes before, and nothing else |
| CacheQueue.ExpiryQueue.Remove | internal/cache/sharded.go:229-250 | takes out exactly the key, and reports whether it was there |
| CacheEntries.TotalSizeWithout | internal/cache/sharded.go:772-785 | the byte total does not depend on the order entries are taken out in |
| CacheEntries.SizeIs | internal/cache/sharded.go:87-117 | an entry counts its octets, sixteen more for each category and a fixed overhead |
| CacheEntries.CleanupUnnoticedIff | internal/cache/sharded.go:826-862 | no due entry could be served later, if and only if stale serving is off or its limit is not negative |
| CacheEntries.ApplyTTLPolicy | internal/cache/sharded.go:648-673 | gives an entry the life its kind is granted: the quarantine to bogus ones, and what is left within the bounds for negative answers or those for others, whatever their order |
| CacheEntries.BoundsAreApart | internal/cache/sharded.go:658-673 | the bounds for negative answers mean nothing to others, nor theirs to negative answers |
| CacheEntries.MaximumKeptIff | internal/cache/sharded.go:658-673 | the clamped life is within the maximum exactly when the minimum is no larger or the life was longer than the maximum |
| CacheEntries.MinimumKeptIff | internal/cache/sharded.go:658-673 | the clamped life reaches the minimum exactly when no maximum is smaller, or the life was within it |
| CacheEntries.InvertedBoundsBreakEither | internal/cache/sharded.go:658-673 | with a minimum of 10 and a maximum of 5, a life of 3 ends above the maximum and a life of 20 below the minimum |
| CacheEntries.ShortestEvictionUnique | internal/cache/sharded.go:719-728 | there is only one shortest eviction |
| CacheEntries.EvictedExpireFirst | internal/cache/sharded.go:764-785 | what is given up expires before what is kept, or with it and has the smaller hash |
| CacheEntries.RoomEvictsNothing | internal/cache/sharded.go:719-728 | if there is room already nothing is given up |
| CacheEntries.SmallerReplacementEvictsNothing | internal/cache/sharded.go:676-742 | replacing a key by an entry no larger evicts nothing |
| CacheEntries.EvictFirst | internal/cache/sharded.go:772-785 | giving up the first entry keeps the loop on the way to the shortest eviction |
| CacheShards.Shard.Discard | internal/cache/sharded.go:711-717 | drops one key from map, queue and byte counter together |
| CacheShards.Shard.TakeFirst | internal/cache/sharded.go:772-785 | takes out an entry that no other comes before |
| CacheShards.Shard.MakeRoom | internal/cache/sharded.go:719-728 | gives up exactly the shortest eviction that makes room |
| CacheShards.Shard.Set | internal/cache/sharded.go:676-742 | an oversized entry changes nothing; any other is stored after the shortest eviction, within both bounds |
| CacheShards.Shard.Delete | internal/cache/sharded.go:745-761 | drops exactly the key |
| CacheShards.Shard.Flush | internal/cache/sharded.go:788-806 | an empty shard on a new queue |
| CacheShards.Shard.Cleanup | internal/cache/sharded.go:826-862 | drops every due entry and no other |
| CacheShards.Shard.Get | internal/cache/sharded.go:527-594 | the entry, if it is served at that moment |
| CacheSharded.RoundUp | internal/cache/sharded.go:420-428 | the least power of two that is not smaller |
| CacheSharded.RoundUpUnique | internal/cache/sharded.go:420-428 | there is only one such power |
| CacheSharded.Validate | internal/cache/sharded.go:373-406 | accepts exactly the acceptable configurations |
| CacheSharded.ShapeOf | internal/cache/sharded.go:409-495 | each shard can hold an entry, a memory limit never becomes no limit, and the shards together stay within the totals and waste less than one entry and octet each |
| CacheSharded.NewShardedCache | internal/cache/sharded.go:409-502 | an empty valid cache of the rounded number of shards, each with its share of entries and memory, with the defaults for a zero quarantine and a zero negative maximum |
| CacheSharded.ShardedCache.Get | internal/cache/sharded.go:511-594 | the entry for the key exactly while it lives or within the stale window |
| CacheSharded.ShardedCache.Set | internal/cache/sharded.go:676-742 | stores the entry, with the life its kind is granted, in its shard after the shortest eviction; refuses unvalidated entries when enforcing, and oversized ones; other shards stay |
| CacheSharded.ShardedCache.Delete | internal/cache/sharded.go:745-761 | no lookup finds the key, every other lookup is as before |
| CacheSharded.ShardedCache.PerformCleanup | internal/cache/sharded.go:826-862 | drops exactly the due entries, and no later lookup can tell unless the stale limit is negative |
| CacheSharded.ShardedCache.Flush | internal/cache/sharded.go:788-806 | nothing is found afterwards |
| TrustAnchors.TurnsDoNotInterfere | internal/dnssec/rfc5011.go:261-291 | turns already taken in the loop over keys cannot change a later one |
| TrustAnchors.SweepIsOrderIndependent | internal/dnssec/rfc5011.go:261-291 | each key ends as it would have from the initial states, whatever the order |
| TrustAnchors.SweepIsAdvanceAll | internal/dnssec/rfc5011.go:261-291 | the pass over all keys has one result for every order |
| TrustAnchors.OrderMattersIfPendingRestsOnPending | internal/dnssec/rfc5011.go:425-433 | were a pending key to rest on a pending one, two orders would differ |
| TrustAnchors.AnchorManager.Start | internal/dnssec/rfc5011.go:80-148 | starts from the state file exactly if its keys are root SEP keys and its pending ones have a hold-down of 30 days and a voucher, else exactly from configured anchors that are all root SEP keys and could be written; sound when what was saved was |
| TrustAnchors.AnchorManager.Persist | internal/dnssec/rfc5011.go:340-387 | saves the key states, leaves the file, or replaces it and still reports a failure |
| TrustAnchors.AnchorManager.PublishAnchors | internal/dnssec/rfc5011.go:321-338 | publishes exactly the usable keys |
| TrustAnchors.AnchorManager.RevokeKeys | internal/dnssec/rfc5011.go:220-236 | revokes exactly the usable keys the response proves revoked |
| TrustAnchors.AnchorManager.AdvanceKeys | internal/dnssec/rfc5011.go:261-291 | advances every known key, in an arbitrary order |
| TrustAnchors.AnchorManager.LearnKeys | internal/dnssec/rfc5011.go:293-313 | adds exactly the unknown acceptable keys, as pending |
| TrustAnchors.AnchorManager.Process | internal/dnssec/rfc5011.go:203-319 | one response is one step of the state machine and keeps it sound; success means saved and published |
| TrustAnchors.StepStaysSound | internal/dnssec/rfc5011.go:203-319 | validators of pending keys are never pending, the keys could be saved and read back, only usable keys are published |
| TrustAnchors.TrustLostOnlyByRevocation | internal/dnssec/rfc5011.go:220-253 | a usable key stays usable exactly unless it proves its own revocation, which takes effect at once |
| TrustAnchors.UnauthenticatedOnlyRevokes | internal/dnssec/rfc5011.go:247-259 | a response no current anchor signed changes nothing but what it proves revoked |
| TrustAnchors.RunStaysSound | internal/dnssec/rfc5011.go:203-319 | soundness over every run |
| TrustAnchors.RevokedForever | internal/dnssec/rfc5011.go:285-289 | a revoked key is never trusted again in any continuation |
| TrustAnchors.PendingHistory | internal/dnssec/rfc5011.go:264-274 | a pending key was first seen in some response, whose time to live sets its hold-down, or was pending at the start; it has been in every observed response since |
| TrustAnchors.Graduates | internal/dnssec/rfc5011.go:264-274 | a key becomes usable only from pending, after its own hold-down, in a response that carries it unrevoked, while a key that vouched for it is still usable |
| TrustAnchors.TrustNeedsHoldDown | internal/dnssec/rfc5011.go:203-319 | from any sound start, a key that was not trusted and now is was carried unrevoked by every observed response of its hold-down, the longer of 30 days and the time to live it was first seen with, or, if pending at the start, by every one since, until its recorded hold-down had passed |
| AnchorRestarts.SystemStaysSound | internal/dnssec/rfc5011.go:80-128 | over every run with restarts, whatever the file holds can be read back and leads to a sound state |
| AnchorRestarts.RevocationSurvivesIff | internal/dnssec/rfc5011.go:236-253 | a revocation outlives a restart after any number of responses exactly when the file had it or one of their writes reached the file |
| AnchorRestarts.UnsavedRevocationIsUndone | internal/dnssec/rfc5011.go:236-253 | a revocation takes effect whether or not it is saved; after a restart the key is trusted again exactly when the write did not reach the file and the file has it usable |
| AnchorRestarts.RevokedForeverIff | internal/dnssec/rfc5011.go:285-289 | with restarts at any time, a revoked key stays revoked in every continuation exactly when the file has the revocation |
| AnchorRestarts.HarmlessRestarts | internal/dnssec/rfc5011.go:80-128 | restarts at which the file holds what the server knew leave the keys as the responses alone would |
| AnchorRestarts.NothingLostIsHarmless | internal/dnssec/rfc5011.go:80-128 | such restarts meet the condition below for every key |
| AnchorRestarts.TrustNeedsHoldDownAcrossRestarts | internal/dnssec/rfc5011.go:203-319 | trust still needs the whole hold-down across restarts at which the file has an untrusted key neither trusted nor, with a voucher left, pending with an earlier end than the server knows |
| AnchorRestarts.RestartKeepsHoldDownIff | internal/dnssec/rfc5011.go:80-128 | that condition on the one key is exact: only after such a restart do all later responses leave the hold-down of an untrusted key kept |
| AnchorRestarts.RestartForgetsAbsence | internal/dnssec/rfc5011.go:293-319 | a key that an observed response left out is trusted at the end of its first hold-down, because the write failed and a restart brought it back |
| AnchorTurns.HeededIff | internal/dnssec/rfc5011.go:203-259 | a response counts when a trusted key signed it and what it retracts was saved |
| AnchorTurns.UnknownKeyTurn | internal/dnssec/rfc5011.go:293-313 | an unknown key becomes pending exactly by such a response whose last record of it is an unrevoked root SEP key of a usable algorithm, for the longer of 30 days and its time to live |
| AnchorTurns.PendingKeyTurn | internal/dnssec/rfc5011.go:264-274 | a pending key stays while carried unrevoked with a voucher left, becomes valid when its hold-down is over, and is else forgotten |
| AnchorTurns.TrustedKeyTurn | internal/dnssec/rfc5011.go:220-284 | a trusted key is revoked exactly by its own signed revocation, and is else valid or missing as the response carries it or not |
| AnchorTurns.RevokedKeyTurn | internal/dnssec/rfc5011.go:285-290 | a revoked key is removed exactly by a response without it 30 days later, and is never anything else again |
| AnchorTurns.LiveAnchors | internal/dnssec/rfc5011.go:314-319 | after a saved response the live anchors are exactly the trusted keys |
| AnchorTurns.FileAfter | internal/dnssec/rfc5011.go:236-319 | what the state file holds after a response, by which writes reached it |
| AnchorTurns.KnownWasLearned | internal/dnssec/rfc5011.go:293-313 | a key known now and not at the start was carried as a fit record by a response that counted |
| AnchorTurns.KnownWasLearnedAcrossRestarts | internal/dnssec/rfc5011.go:293-313 | the same across restarts, for keys neither known nor on file at the start |
| AnchorTurns.KnownKeysAreEntryPoints | internal/dnssec/rfc5011.go:111-113 | a file written in any run holds root SEP keys only, as reading it back asks |
| NotifyProtocol.StepKeepsInvariant | internal/primarynotify/notifier.go:222-398 | every step keeps the protocol invariant |
| NotifyProtocol.SendsNeverBlock | internal/primarynotify/notifier.go:183-190 | a send made under the lock always finds room in its queue |
| NotifyProtocol.DeliveriesNeverOverlap | internal/primarynotify/notifier.go:281-337 | no zone is in two deliveries, nor delivered and queued |
| NotifyProtocol.PendingIsNeverStranded | internal/primarynotify/notifier.go:242-269 | a pending zone is queued or in delivery at its worker |
| NotifyProtocol.IdleZoneIsUpToDate | internal/primarynotify/notifier.go:293-363 | while open, an idle zone was handed over with the SOA last recorded for it |
| NotifyProtocol.DeliveryTakesNewest | internal/primarynotify/notifier.go:293-300 | a delivery begun while open hands over the SOA last recorded for its zone |
| NotifyRuns.LatestIsAnnounced | internal/primarynotify/notifier.go:256-264 | while open, the SOA recorded for a configured zone is that of the last call of Notify |
| NotifyRuns.IdleZoneGotLastAnnounced | internal/primarynotify/notifier.go:293-363 | while open, the last call of Notify for an idle zone was followed by a delivery, and the last delivery was given just that SOA |
| NotifyRuns.DeliveryGotLastAnnounced | internal/primarynotify/notifier.go:293-300 | a delivery begun while open is given the SOA of the last call of Notify, and there was one |
| NotifyRuns.UndisturbedDeliveryEnds | internal/primarynotify/notifier.go:351-363 | a delivery during which its zone is not announced again leaves the zone idle |
| NotifyNotifier.CountRoutes | internal/primarynotify/notifier.go:183-186 | for each worker, the number of zones routed to it |
| NotifyNotifier.Notifier.constructor | internal/primarynotify/notifier.go:101-199 | the initial protocol state, with queues that hold all their zones |
| NotifyNotifier.Notifier.Start | internal/primarynotify/notifier.go:222-238 | one protocol step, refused exactly when started or closed |
| NotifyNotifier.Notifier.Notify | internal/primarynotify/notifier.go:242-269 | one protocol step that records the SOA of a configured zone while open and nothing else; an error exactly for a known zone after close |
| NotifyNotifier.Notifier.Receive | internal/primarynotify/notifier.go:281-291 | one protocol step: the next zone off the worker's queue |
| NotifyNotifier.Notifier.Take | internal/primarynotify/notifier.go:293-300 | one protocol step: the SOA to send, no longer pending |
| NotifyNotifier.Notifier.FinishDelivery | internal/primarynotify/notifier.go:351-363 | one protocol step: the zone is queued again exactly if it changed meanwhile |
| NotifyNotifier.Notifier.Close | internal/primarynotify/notifier.go:384-398 | one protocol step: closed, with nothing pending |
| NotifyNotifier.Notifier.ExitWorker | internal/primarynotify/notifier.go:281-291 | one protocol step: an idle worker returns once its context ended |
| HedgedQuery.PlayKeepsInvariant | internal/resolver/hedge.go:20-121 | the invariant holds after every sequence of outside events |
| HedgedQuery.EachServerTriedOnceInOrder | internal/resolver/hedge.go:35-51 | a server has been tried at most once, and exactly if it comes before the next one in the list |
| HedgedQuery.ChannelAbsorbsAll | internal/resolver/hedge.go:30-51 | attempts in flight and unread results together fit the channel and the parallelism |
| HedgedQuery.AllFailedMeansAllFailed | internal/resolver/hedge.go:86-121 | total failure is reported only once every server has failed |
| HedgedQuery.NeverStalls | internal/resolver/hedge.go:56-115 | an undecided query has something in flight, and spare width is on a timer |
| HedgedQuery.AnswerIsGenuine | internal/resolver/hedge.go:91-95 | an answer is the first good result read, and it stands |
| HedgedQuery.ResultsInOrder | internal/resolver/hedge.go:86-90 | results are read in the order in which attempts complete |
| HedgedQuery.ResultsDecide | internal/resolver/hedge.go:86-103 | the answer is the first good result read, at once, and the failures are exactly the servers of the bad results read |
| HedgedQuery.CancelledOnlyByCancel | internal/resolver/hedge.go:88-113 | only a cancelled context ends a query in cancellation |
| HedgedQuery.NextServerJoins | internal/resolver/hedge.go:98-113 | a failure and a hedge timer each bring in the next server, and without a delay all that fit |
| HedgedQuery.Hedger.OnRead | internal/resolver/hedge.go:91-103 | reading a result is one step of the state machine |
| HedgedQuery.Hedger.OnHedge | internal/resolver/hedge.go:104-113 | a hedge timer is one step of the state machine |
| HedgedQuery.QueryNameservers | internal/resolver/hedge.go:20-121 | the outcome is the one the state machine gives for the same events |
| RpzPrefixes.ScanIsLongestMatch | internal/engine/rpz.go:666-686 | the linear scan finds exactly the longest prefix over the address, with the rule last inserted for it |
| RpzPrefixes.FamilyAfterInsertion | internal/engine/rpz.go:160-178 | inserting into the table of one length, and listing the length, keeps the family's tables exact |
| RpzPrefixes.InsertStaysDescending | internal/engine/rpz.go:169-173 | the length list stays strictly descending |
| RpzPrefixes.PrefixTables.Add | internal/engine/rpz.go:136-180 | rejects exactly prefixes of no bits or too many, else records the masked prefix; the counter counts prefixes |
| RpzPrefixes.PrefixTables.Insert | internal/engine/rpz.go:160-178 | the tables of one family after an insertion, and whether the prefix is new |
| RpzPrefixes.PrefixTables.Match | internal/engine/rpz.go:666-686 | the tables answer like the linear scan over every insertion |
| RpzAnswers.Unmap | internal/engine/rpz.go:444-449 | turns an IPv4-mapped address into IPv4 and leaves any other |
| RpzAnswers.BetterIsStrictOrder | internal/engine/rpz.go:560-574 | precedence between prefix keys is a strict total order |
| RpzAnswers.BestIsFirstTop | internal/engine/rpz.go:523-577 | the hit chosen is the first among those no other is better than |
| RpzAnswers.BestRule | internal/engine/rpz.go:523-577 | the loop over the records picks that hit's rule |
| RpzAnswers.WinningKeyIgnoresOrder | internal/engine/rpz.go:523-577 | the winning length and address depend only on which records there are |
| RpzAnswers.ChoiceIgnoresOrderIff | internal/engine/rpz.go:523-577 | the chosen rule survives every reordering exactly when no two different rules tie for best |
| RpzAnswers.AmbiguityNeedsBothFamilies | internal/engine/rpz.go:560-574 | such a tie needs an IPv4 and an IPv6 rule for one 128-bit prefix with different contents |
| RpzAnswers.BothFamiliesMakeAmbiguity | internal/engine/rpz.go:560-574 | any such pair of rules makes the choice depend on the order of two records |
| RpzPrecedence.LatestIsLast | internal/engine/rpz.go:160-178 | the rule of a prefix is the one inserted last |
| RpzPrecedence.AddressOfIs | internal/engine/rpz.go:531-546 | an A record counts as IPv4 in either form, an AAAA record by its length |
| RpzPrecedence.LongestPrefixWins | internal/engine/rpz.go:560-574 | of all matches the longest prefix wins, counted in 128 bits, and of equals the lowest address |
| RpzPrecedence.LongestNameWins | internal/engine/rpz.go:579-624 | exact nameserver rules come before wildcards, then more labels before fewer, then the last name |
| RpzPrecedence.TriggersInOrder | internal/engine/rpz.go:477-508 | client address, name, response addresses, nameserver names and nameserver addresses, in that order |
| RpzPrecedence.WaitsFor | internal/engine/rpz.go:430-442 | which rules make a zone need the response or nameserver data |
| RpzPolicy.NamePrecedence | internal/engine/rpz.go:395-423 | an exact rule, else the wildcard of the longest suffix it may apply to, else the first matching pattern |
| RpzPolicy.FirstPatternIsFirst | internal/engine/rpz.go:416-423 | the pattern chosen is the first that matches |
| RpzPolicy.BestNameOutranksAll | internal/engine/rpz.go:579-606 | the nameserver hit chosen outranks the hit of every other name |
| RpzPolicy.NameserverNamesIgnoreOrder | internal/engine/rpz.go:579-606 | the nameserver rule depends only on which names there are |
| RpzPolicy.FullIsFirstZone | internal/engine/rpz.go:972-990 | the full evaluation answers with the first zone that decides anything |
| RpzPolicy.RequestMatchIsFinal | internal/engine/rpz.go:884-912 | a request match is final for its zone, which is enabled, and its rule acts |
| RpzPolicy.NoDataNeeded | internal/engine/rpz.go:430-442 | a zone without nameserver rules and without a response match decides from the request |
| RpzPolicy.RequestDecisionIsFinal | internal/engine/rpz.go:884-912 | a decision of the request stage holds for every response and all nameserver data |
| RpzPolicy.RequestWaitsIff | internal/engine/rpz.go:884-912 | the request stage waits exactly when a zone that depends on the response precedes every request match |
| RpzPolicy.ResponseDecisionIsFinalIff | internal/engine/rpz.go:940-969 | a decision of the response stage holds for all nameserver data exactly when it comes from no zone, or from an enabled zone and an acting rule |
| RpzPolicy.ResponseWaitsIff | internal/engine/rpz.go:940-969 | the response stage waits exactly when nameserver data is needed before anything else matches |
| RpzPolicy.DecidesUnsoundlyIff | internal/engine/rpz.go:940-969 | the response stage decides unsoundly exactly when the first zone to match does so by an address rule that is disabled or without an action, and no zone before it waits for nameserver data |
| RpzPolicy.StagedIsFullIff | internal/server/server.go:1567-1620 | the three stages give the full result exactly when no zone awaits the response or no zone misleads the response stage |
| RpzPolicy.StagedIsFull | internal/server/server.go:1567-1620 | with enabled zones and acting response-address rules the three stages always give the full result |
| RpzPolicy.DisabledZoneStillAnswers | internal/engine/rpz.go:955-963 | a disabled zone above an enabled one makes the two differ |
| RpzZones.PolicyZone.AddRule | internal/engine/rpz.go:346-375 | sets the exact or wildcard rule of a name and nothing else |
| RpzZones.PolicyZone.AddNSDNameRule | internal/engine/rpz.go:230-261 | sets a nameserver-name rule and keeps the counter right |
| RpzZones.PolicyZone.AddClientIPRule | internal/engine/rpz.go:183-227 | appends exactly one insertion to the client tables, or rejects |
| RpzZones.PolicyZone.AddResponseIPRule | internal/engine/rpz.go:136-180 | appends exactly one insertion to the response tables, or rejects |
| RpzZones.PolicyZone.AddNSIPRule | internal/engine/rpz.go:264-308 | appends exactly one insertion to the nameserver tables, or rejects |
| RpzZones.PolicyZone.CheckName | internal/engine/rpz.go:383-426 | the name rule of the zone's meaning |
| RpzZones.PolicyZone.CheckClientIP | internal/engine/rpz.go:444-468 | the client rule of the zone's meaning |
| RpzZones.PolicyZone.MatchResponseIP | internal/engine/rpz.go:510-521 | the response-address rule of the zone's meaning, enabled or not |
| RpzZones.PolicyZone.MatchNSDName | internal/engine/rpz.go:579-606 | the rule of the best nameserver name |
| RpzZones.PolicyZone.MatchNSIP | internal/engine/rpz.go:639-664 | the rule chosen over the valid nameserver addresses |
| RpzZones.PolicyZone.CheckResponseWithNameservers | internal/engine/rpz.go:477-508 | name, response address, nameserver name, nameserver address, in that order |
| RpzZones.PolicyZone.HasResponseDependentRules | internal/engine/rpz.go:430-435 | exactly whether the zone depends on the response |
| RpzZones.PolicyZone.NameserverRequirements | internal/engine/rpz.go:438-442 | exactly whether the zone needs nameserver data, and which kind |
| RpzZones.PolicyAggregate.AddZone | internal/engine/rpz.go:856-860 | the new zone comes last |
| RpzZones.PolicyAggregate.CheckRequestShortcut | internal/engine/rpz.go:884-912 | the loop computes the request stage |
| RpzZones.PolicyAggregate.CheckRequestResponseShortcut | internal/engine/rpz.go:940-969 | the loop computes the response stage |
| RpzZones.PolicyAggregate.CheckRequestResponseWithNameservers | internal/engine/rpz.go:972-990 | the loop computes the full evaluation |
| RpzZones.PolicyAggregate.Answer | internal/server/server.go:1567-1620 | the recursive path gives the staged result, hence the full one when no response decision can be unsound |
| SerialNumbers.SerialOrder | internal/zone/journal.go:164-166 | two serials are ordered one way, except when equal or exactly opposite |
| SerialNumbers.SerialAhead | internal/zone/journal.go:164-166 | exactly the serials of the next half of the circle are greater |
| ZoneRecords.Zone.Clone | internal/zone/zone.go:492-520 | a new object with the same contents |
| ZoneRecords.Zone.AddRecord | internal/zone/zone.go:109-140 | appends exactly when the owner is in the zone, and keeps the SOA field |
| ZoneRecords.Zone.DeleteRecord | internal/zone/zone.go:148-214 | removes the first stored record equal to the request with the set's first time to live |
| ZoneRecords.Zone.DeleteRRSet | internal/zone/zone.go:220-238 | removes exactly one record set |
| ZoneRecords.Zone.Has | internal/secondary/ixfr.go:143-159 | whether a record equal up to time to live is stored |
| ZoneRecords.SameRecordIff | internal/secondary/ixfr.go:153-159 | records are the same when they differ in nothing but time to live |
| ZoneRecords.TidyIff | internal/zone/zone.go:148-214 | no record set mixes times to live exactly when no two contents of one set do |
| ZoneRecords.DeletionWorksIff | internal/zone/zone.go:148-214 | a deletion of a present record takes it out exactly when its time to live is the first one's |
| ZoneRecords.DeleteOne | internal/zone/zone.go:148-214 | in a tidy zone deletion takes out the one matching record and keeps the zone tidy |
| ZoneRecords.AddOne | internal/zone/zone.go:109-140 | adding an absent record adds just it |
| ZoneRecords.NewApex | internal/secondary/ixfr.go:115-121 | replacing the apex SOA leaves the other records alone |
| ZoneTransfer.FlattenOfDeltas | internal/secondary/ixfr.go:75-106 | what is read as deltas is what was there |
| ZoneTransfer.DeltasOfFlatten | internal/server/axfr.go:225-238 | reading inverts writing, for every list of deltas |
| ZoneTransfer.DeleteRecords | internal/secondary/ixfr.go:107-114 | deletes all, or stops at the first absent record |
| ZoneTransfer.AddRecords | internal/secondary/ixfr.go:122-129 | adds all, or stops at the first present or foreign record |
| ZoneTransfer.ApplyChange | internal/secondary/ixfr.go:107-129 | deletions, the new SOA, additions |
| ZoneTransfer.ReadPlain | internal/secondary/ixfr.go:82-106 | the records before the next SOA |
| ZoneTransfer.ApplyNext | internal/secondary/ixfr.go:76-129 | one delta is read and applied as the specification does |
| ZoneTransfer.ApplyDeltas | internal/secondary/ixfr.go:73-130 | the whole walk over the deltas |
| ZoneTransfer.ZoneFromAxfr | internal/secondary/transfer.go:170-195 | a full copy builds its zone or fails |
| ZoneTransfer.ApplyTransfer | internal/secondary/ixfr.go:49-141 | the zone a reply leads to, always a new object, and whether the reply was incremental; the current zone is only read |
| ZoneTransfer.SingleSoaReply | internal/secondary/ixfr.go:57-62 | a single SOA keeps the zone exactly if it has the zone's serial |
| ZoneTransfer.UnboundedReplyIsRefused | internal/secondary/ixfr.go:50-69 | a reply that does not stand between two SOAs of one serial is refused |
| ZoneTransfer.FullCopyIff | internal/secondary/transfer.go:170-195 | a full copy is accepted exactly if it is bounded so, its records are in the zone and what it builds is valid |
| ZoneVersions.AppliedIsLinked | internal/secondary/ixfr.go:75-130 | applied deltas continue each other from the current serial, always forward |
| ZoneVersions.AcceptedIff | internal/secondary/ixfr.go:66-141 | an incremental reply is accepted exactly when it is a chain of deltas from the current serial to its own that applies and validates |
| ZoneVersions.ChangeMeaning | internal/secondary/ixfr.go:107-129 | in a zone with one time to live for each record set, an applied delta removes what it deletes, adds what it adds and touches nothing else |
| ZoneVersions.ChangeSucceeds | internal/secondary/ixfr.go:107-129 | deletions that are present and additions that are absent always apply, and give the expected version |
| ZoneVersions.DiffMovesVersion | internal/secondary/ixfr.go:75-130 | the difference of two versions carries a zone from one to the other |
| ZoneVersions.ChainMovesVersion | internal/secondary/ixfr.go:73-130 | a chain of deltas turns the first version into exactly the last |
| ZoneVersions.ReplyMovesVersion | internal/secondary/ixfr.go:49-141 | the whole reply does so through every check of the transfer |
| ZoneUndo.UndoneBySwappingIff | internal/secondary/ixfr.go:107-129 | in a tidy zone swapping an accepted delta's additions and deletions takes it back exactly when the deletions are the stored records and the additions share the time to live of what stays beside them |
| ZoneUndo.DiffIsUndone | internal/secondary/ixfr.go:107-129 | the difference of two versions can always be taken back |
| ZoneUndo.SwappingMayFail | internal/secondary/ixfr.go:143-159 | an accepted delta that swapping does not take back: it deletes a record under another time to live |
| ZoneVersions.DeletedRecordMaySurvive | internal/secondary/ixfr.go:49-141 | with mixed times to live an accepted reply can leave a deleted record in place |
| ZoneJournal.Diff | internal/zone/journal.go:104-145 | the set difference of two versions, each record once |
| ZoneJournal.HistoryStaysContiguous | internal/zone/journal.go:51-61 | a recorded history stays contiguous, bounded and ends with the new delta |
| ZoneJournal.HistoryIsMostRecent | internal/zone/journal.go:38-62 | over any run of successive versions the journal holds exactly the most recent deltas |
| ZoneJournal.Journal.constructor | internal/zone/journal.go:26-34 | an empty journal of the given or default limit |
| ZoneJournal.Journal.Reset | internal/zone/journal.go:98-102 | forgets exactly one zone |
| ZoneJournal.Journal.Record | internal/zone/journal.go:38-62 | records the difference of two successive versions, or forgets the zone when they do not follow each other |
| ZoneJournal.Journal.Changes | internal/zone/journal.go:65-96 | the deltas between the first of each serial, or none exactly when there are none |
| ZoneJournal.Answer | internal/server/axfr.go:117-151 | one SOA, a range of the journal when smaller than a full copy or when none is allowed, else a full copy, which is every stored list as it stands; refused when only a forbidden full copy would do, and exactly malformed requests get a format error |
| ZoneJournal.CopyIsFull | internal/server/axfr.go:215-223 | in a zone that repeats no record a full copy lists each record of the version once |
| ZoneSync.FullBuildsVersion | internal/secondary/transfer.go:170-195 | a full copy builds exactly the version it lists |
| ZoneSync.RangeMovesVersion | internal/server/axfr.go:225-238 | a range of the journal carries the records of its first version to the version its last delta names |
| ZoneSync.RangeIsWhole | internal/zone/journal.go:65-96 | every range from a version's serial to the newest one's is the rest of the history exactly when no earlier version has the first serial and none in between the second |
| ZoneSync.AnswerBringsUpToDate | internal/server/axfr.go:117-151 | whichever reply the primary chooses, a secondary with the records of the first version of the requested serial ends at the newest version, if that has records besides the SOA and a greater serial that none in between has |
| ZoneSync.SentReachesIff | internal/server/axfr.go:117-151 | what the primary does send brings such a secondary up to date exactly when, for a full copy, it lists a record, and for a range, the next version with the newest serial is the newest |
| ZoneSync.SentBringsUpToDate | internal/server/axfr.go:117-151 | under both conditions everything it may send does, whatever sizes it compares |
| ZoneSync.NothingNewerToSend | internal/server/axfr.go:117-151 | a secondary with the primary's serial keeps its zone, and one that is ahead refuses the reply |
| ZoneSync.UpToDateIff | internal/server/axfr.go:117-151 | from the records of the first version of the requested serial, every reply leads to the newest version, whose serial is greater, exactly when that version has records besides the SOA and the next version with its serial is the same |
| ZoneSync.ReplyMayStopEarly | internal/zone/journal.go:84-93 | a history round the serial circle whose reply leaves the secondary at the second of five versions |
| ZoneShift.ChainShifts | internal/secondary/ixfr.go:73-130 | with one time to live for each record set, the same in the secondary and in every version, a chain of deltas applies to other records under the same serial exactly when it touches none of the difference, and then leaves the same difference |
| ZoneShift.UpToDateAnywayIff | internal/server/axfr.go:117-151 | with one time to live for each record set, the same in the secondary and in every version, every reply to a secondary with an earlier serial and any records leads to the newest version exactly when that has records besides the SOA and each first range to its serial avoids the difference and makes up for it |
| ZoneShift.ReplyMayBeRefused | internal/zone/journal.go:65-96 | a secondary at the later of two versions with one serial is sent deltas from the earlier one, which it refuses |
| CanonicalNames.NameLessIsStrictTotalOrder | internal/cache/nsec.go:312-335 | canonical order is a strict total order on names |
| CanonicalNames.AncestorFirst | internal/cache/nsec.go:312-335 | a name comes after every name it is below |
| CanonicalNames.CanonicalNameCompare | internal/dnssec/validator.go:524-542 | the sign of the result is the canonical order, zero exactly for equal names; text order decides when a name cannot be packed |
| CanonicalNames.RpzCanonicalNameLess | internal/engine/rpz.go:628-637 | the loop orders lists of labels in presentation format from the root down |
| CanonicalNames.ReverseLabels | internal/cache/nsec.go:337-341 | reverses the array in place |
| CanonicalNames.CanonicalLess | internal/cache/nsec.go:312-335 | the loop orders texts by their lower-cased parts between dots, from the root down |
| CanonicalNames.CanonicalLabels | internal/dnssec/validator.go:544-565 | the loop reads the labels of the octets, or fails on a name cut short |
| CanonicalNames.LabelsOfIff | internal/dnssec/validator.go:544-565 | exactly the names whose wire format the octets start with are read |
| EscapedNames.OctetsKeptIff | internal/cache/nsec.go:312-335 | which pairs of octets are presented in their own order |
| EscapedNames.PieceLessIs | internal/cache/nsec.go:312-335 | the order of two pieces of split text, by the octets between the dots |
| EscapedNames.SplitEscaped | internal/cache/nsec.go:316-320 | splitting the text of a label at its dots, escaped ones included, gives its parts in presentation format |
| EscapedNames.EscapedOrderIff | internal/engine/rpz.go:628-637 | comparing labels in presentation format is the canonical order of two names exactly when the first octets that differ are presented in their own order |
| EscapedNames.TextLessIsStrictTotalOrder | internal/cache/nsec.go:312-335 | the comparison on text is a strict total order on names |
| EscapedNames.TextAncestorFirst | internal/cache/nsec.go:312-335 | on text, too, a name comes after every name it is below |
| EscapedNames.PiecesOfDotFree | internal/cache/nsec.go:312-320 | where no label holds a dot, splitting the text of a name gives its labels in presentation format |
| EscapedNames.TextOrderIff | internal/cache/nsec.go:312-335 | the comparison on text is the canonical order of two names exactly when the first labels that differ, from the root, are ordered as their last differing parts between dots are, or, where one label is a dot and the other at its end, as the part before that dot and the next label are |
| EscapedNames.DotFreeKeepsOrderIff | internal/cache/nsec.go:312-335 | where no label holds a dot, the cache and the policy engine keep canonical order for the same pairs of names |
| EscapedNames.OrdinaryNamesKeepOrder | internal/cache/nsec.go:312-335 | on names without escaped octets all three comparisons agree |
| NsecDenial.CoversExactly | internal/dnssec/validator.go:509-522 | the validator covers exactly what synthesis would deny in canonical order, the other names of a lone owner, and the names before the first owner at the end of the chain |
| NsecDenial.NeverDeniesOwner | internal/cache/nsec.go:146-182 | a record that links neighbouring owners never denies an owner, if text keeps the order of the owner names |
| NsecDenial.DeniesNoOwnerIff | internal/cache/nsec.go:146-182 | the records of a zone deny none of its owner names exactly when text keeps the order of the owner names |
| NsecDenial.NsecCache.StoreOne | internal/cache/nsec.go:80-91 | replaces the record of the same owner or adds one |
| NsecDenial.NsecCache.Store | internal/cache/nsec.go:63-92 | the last record of a response for an owner is the one kept, other owners stay |
| NsecDenial.LastForIs | internal/cache/nsec.go:63-92 | the last record for an owner counts, and expires when its time to live is over |
| NsecDenial.NsecCache.SynthesizeNXDOMAIN | internal/cache/nsec.go:154-179 | the first unexpired record of an enclosing zone whose text denies the name, or none exactly when there is none |
| NsecDenial.SynthesisIsSound | internal/cache/nsec.go:146-182 | no name is denied that owns records in a zone whose owner names keep their order as text |
| NsecDenial.ValidatorAgreesIff | internal/dnssec/validator.go:509-522 | whatever the record, the validator covers a denied name exactly when the name follows the owner in canonical order too and precedes the next name, of which one is enough after the last owner |
| NsecDenial.ValidatorSparesOwners | internal/dnssec/validator.go:509-522 | the validator never covers a name that owns records |
| NsecDenial.CompleteChainDeniesExactlyIff | internal/cache/nsec.go:146-182 | with a complete chain and more than one owner name, exactly the names without records are denied, if and only if text keeps the order of the owner names |
| NsecDenial.LoneApexDeniesNothing | internal/cache/nsec.go:146-182 | a chain of the apex alone denies nothing |
| NsecDenial.SpaceMisleads | internal/cache/nsec.go:168-179 | in a zone with the names of a space and a z and of a zero, an owner name is denied that the validator does not cover |
| NameDecoding.MoreHops | internal/packet/parser.go:265-330 | allowing more pointer hops never changes what is read |
| NameDecoding.EquallyLong | dnsasm/src/dnsasm.c:132-141 | text and uncompressed octets of a name are equally long |
| NameDecoding.OctetsSpellLabels | dnsasm/src/dnsasm.c:66-154 | the uncompressed octets of a reading spell its labels |
| NameDecoding.CircleHasNoName | internal/packet/parser.go:294-298 | a pointer back to where its own path came from leads to no name, so the visited check rejects no readable name |
| NameDecoding.Parser.ParseName | internal/packet/parser.go:265-362 | accepts exactly a complete name of at most 20 hops, all before the name, and 255 characters; gives its text and moves past it |
| NameDecoding.Parser.ReadLabels | internal/packet/parser.go:274-339 | the loop ends on every message with the labels of the recursive reading |
| NameDecoding.Parser.CheckPointer | internal/packet/parser.go:291-303 | a rejected pointer means that the name is not acceptable |
| NameDecoding.DecompressName | dnsasm/src/dnsasm.c:66-154 | accepts exactly readings of at most 127 hops, each leading back, and 255 octets; writes them and reports the octets used, never past octet 256 |
| NameDecoding.FollowPointer | dnsasm/src/dnsasm.c:79-109 | a rejected pointer means that the name is not acceptable |
| NameDecoding.CopyLabel | dnsasm/src/dnsasm.c:120-147 | a label is checked and copied after what the buffer holds |
| NameDecoding.DecodersAgree | dnsasm/src/dnsasm.c:66-154 | both read a name of the parser alike, and the C code accepts it exactly when each pointer leads back |
| NameDecoding.ParserAcceptsIff | internal/packet/parser.go:265-362 | the parser accepts a name of the C code exactly when it is complete, takes at most 20 hops and points before itself |
| NameDecoding.DecodeBoth | dnsasm/src/dnsasm.c:66-154 | where both accept, text and octets are of the same labels and the same number of octets is consumed |
| NameDecoding.ReadWritten | internal/packet/parser.go:265-362 | a name written without compression is read back as it was |
| NameDecoding.DecompressedReadsBack | dnsasm/src/dnsasm.c:66-154 | reading what the C code wrote gives the same labels without any pointer |
| NameWriting.ZeroEndsName | internal/packet/parser.go:265-339 | labels after their lengths and a zero octet are read as those labels |
| NameWriting.PointerGoesOn | internal/packet/parser.go:285-310 | labels and a pointer are read as those labels and the name at the offset in its fourteen bits, and take up two octets more |
| NameWriting.BrokenLabelFails | internal/packet/parser.go:311-339 | reserved lengths, labels cut short and pointers cut short are not read |
| NameWriting.TextSplits | internal/packet/parser.go:341-362 | the text of dot-free labels splits into just those labels, in order |

## Left out

- Names are taken as normalised (lower case, fully qualified); normalisation itself is not modelled. Escapes in presentation format are modelled where names are compared (EscapedNames, NsecDenial); elsewhere names are strings or lists of labels that are only compared for equality, or label texts as they come.
- CatalogPages.CatalogMembers: normalising the names given, the retry when the generation changes while a page is built, and the status fields of a page, are not part of the model.
- CatalogRuntime.Runtime.Reconcile: attempt bookkeeping, audit events, metrics and pending-plan records are left out; Plan's errors cannot occur in a valid runtime and have no branch; the member suffix policy and the masters of a group are given predicates.
- CatalogRuntime.Runtime.ApplyPlan: the transfer manager's batch is a sequence of outcomes (refused, fetch failed, fetched) rather than its code; loading persisted state at start-up is not modelled.
- Durations and clocks are integers or reals passed in; floating-point rounding of tokens is not modelled.
- CacheSharded.NewShardedCache: the defaults of settings that are not modelled (prefetch ratio, rebinding guard, enrichment), and the clean-up goroutine it starts, are left out.
- CacheSharded.RouteOf: the hash mask is written as a remainder, which is the same for the power-of-two shard counts that the constructor builds.
- Cache statistics, hit counters, prefetch, threat enrichment and event broadcasting are left out; an entry is immutable and keeps its size once stored.
- TrustAnchors.AnchorManager.Process: signature verification, key identifiers and key text are given facts of a response; the state file is one value that a write replaces or leaves; the refresh timer is not modelled.
- TrustAnchors.AnchorManager.Start: the permissions, encoding, version and timestamps of the state file, and key texts that do not match their identity, are not modelled.
- NotifyNotifier.Notifier.Take: the sends between the two critical sections (targets, retries, backoff, TCP fallback, error callbacks) are not modelled; the step hands the SOA over.
- HedgedQuery.QueryNameservers: the exchange with a server is an outside event; the error texts that are joined on failure are not modelled.
- RpzZones.PolicyZone.AddPattern: a regular expression is known only by the names it matches; compiling it, and the rewrite-target checks, are left out.
- Policy rules carry no formatted prefix or reason text, hit counters are left out, and a rule's identity in an aggregate is its zone's position and its contents.
- RpzZones.PolicyAggregate.Answer: the authoritative path, which gives up when the response stage cannot decide, and the rewriting of responses by an action are not modelled.
- ZoneJournal.Diff: records are listed in any order instead of by their text, which no later step depends on.
- ZoneTransfer.ApplyTransfer: the reasons of a refusal are not told apart; record classes are taken as IN; the checks of zone validation beyond an apex SOA are a given predicate; fetching, retries over masters and transfer limits are left out.
- ZoneShift.UpToDateAnywayIff: a history in which a record set changes its time to live is covered only for a secondary with the records of the version it asked from (ZoneSync.UpToDateIff), because deltas can then mix times to live within a set and later deletions miss records.
- ZoneShift.ChainShifts: for the same reason, one time to live for each record set throughout.
- ZoneJournal.Answer: access control, message framing and the wire size of records (a given measure) are left out.
- NsecDenial.NsecCache.SynthesizeNXDOMAIN: NSEC3, wildcard proofs, the record types bitmap and the built message are left out, and empty non-terminals and delegations are not considered by the code either, so soundness is about owner names.
- NsecDenial.NsecCache.Store: which responses are eligible is decided before; the records of a message arrive as a list; NSEC3 records are left out.
- CanonicalNames.CanonicalNameCompare: packing a name into wire format is a given fact: its labels, or none.
- NameDecoding.Parser.ParseName: the kind of error and the offset left after a failure are not specified.
- Blocklists, response rate limiting, cookies, reputation, query minimisation, scripting, the kernel module and the assembly versions are not modelled: their invariants are easy or repeat those here, or depend on the network.
