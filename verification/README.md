# hbservice: a verified model

This project models the data structures and protocols of hbservice, a service
framework written in Go, and proves what they promise. `dafny verify
dfyconfig.toml` checks all of it.

**The sorted set** (`src/util/zset.go`). `Skiplist` is the skip list with its
in-place updates: forward links, spans, backward links, `tail`, `length` and
`level`. Its ghost field `all` lists the header and the nodes at the bottom
level. `Valid()` says that this list is in (score, member) order and that
every link of every level is the one the heights determine: it leads to the
next node tall enough, its span is the distance, and header levels not in use
lead nowhere. `SortedSet` couples the skip list with the dictionary. Both
are described by one finite map from members to scores, `View()`, and by that
map's only ordered listing, `Listing`. `SetRuns.Run` shows that any sequence of
operations, whatever heights the coins give the nodes, is answered as that map
determines.

**Its two clients.** `UserNodeCache` (`user_node_cache.go`) and `UserConnMgr`
(`user_conn_mgr.go`) keep a second map in step with a sorted set. They are
proved against the sorted set's contract, never its pointers, and then over
whole runs: which user is evicted, who times out and when.

**Single flight** (`merge_search.go`) is a transition system over any number
of calls and keys, with an inductive invariant, exactly-one delivery by the
round a waiter registered in, freedom from deadlock and a bound on the length
of runs.

**Framing** (`packet.go`, `net_util.go`) covers the length-prefixed packets under
reads of any chunking, **Naming** (`naming.go`) the printing, parsing and prefix
search of service keys, and **ClientTable**, **ClientEvents**, **ClientRuns** and
**ObjectProxy** (`obj_client_proxy.go`) the table of clients a proxy keeps: the
reconnect tick, the order behind hash routing, and all events of its loop.

## How it is organised

| file | content |
|---|---|
| `Order.dfy` | elements, their order, the ordered listing of a map |
| `Borders.dfy`, `Ranges.dfy` | score borders; the elements in a range as a slice |
| `Shape.dfy` | where links of a skip list lead, before and after a change |
| `Skiplist.dfy` | the skip list and its methods |
| `Visits.dfy` | what the traversals of a sorted set visit |
| `SortedSet.dfy`, `SetRuns.dfy` | the sorted set, and whole runs of it |
| `EmptyMember.dfy` | the rank of the empty member |
| `UserNodeCache.dfy`, `CacheRuns.dfy` | the node cache, and whole runs of it |
| `UserConnMgr.dfy`, `ConnRuns.dfy` | the connection table, and whole runs of it |
| `MergeSearch.dfy` | the single-flight protocol |
| `Framing.dfy`, `Naming.dfy` | packets on a stream; service keys |
| `ClientTable.dfy`, `ClientEvents.dfy` | a proxy's clients: their order, and what each event does to them |
| `ClientRuns.dfy` | whole runs of events beside the registered services |
| `ObjectProxy.dfy` | the proxy's methods |
| `Outcomes.dfy`, `MapSizes.dfy` | results of calls; sizes of maps |

## Where the code departs from its documentation

The model follows the code. These departures are theorems of the project.

- A range query rejects a mixed pair such as `-inf` and a negative border,
  because its guard compares the value of an infinite border
  (`GuardMissesMixedRange`). `GuardExactForAllSets` says exactly for which
  borders this matters.
- `offset` may step out of the range, which is not looked at again
  (`OffsetLeavesRange`). `ScoreRangeExact` gives the exact condition.
- The header carries the empty member, so `getRank` may miss a present empty
  member (`EmptyMemberMisranked`). `FoundExactly` says for which heights it is
  found, `RankedForAllCoins` for which sets it is found whatever the heights.
- `SortedSet.Add` reports false for a present member, though it moves its score.
  So `RefreshUserConn` never succeeds (its contract says `!ok`), and a refreshed
  connection keeps its old `ExpireTs` while living by the new one.
- A connection is filed under the time it was added, not the time its record
  promises: without a refresh the next elimination takes it
  (`AddedGoesAtOnce`).
- Keys whose last part has fewer than two underscores stop the parser
  (`ParserPanics`). `Register` checks nothing, so one service with such a host makes
  every look-up that selects its key panic (`RegisteredStopsFind`).
- A body of 2^31 bytes or more is announced by a wrong length
  (`LongBodyPanics`, `RoundTrip`); an empty body reads as a closed connection.
- `remove_active_client_by_index` removes nothing for any index of the list, and
  the retry time of a client is only ever set in a copy (`TickTriesAll`).
- A close event enters its client a second time if it finds it connected
  (`CloseDuplicates`). While addresses keep their ids that is the only way the table
  ceases to be the registered services (`EventTracksExactly`, `RunTracksExactly`).
- An address registered again under a new id keeps its old client. A deletion by the
  new id then takes out neither, and one without an id, as a watch delivers it, takes
  out the old one and leaves the new (`StaleClientStays`). `PutReplaces` says exactly when
  a put leaves one id at its address, and `RunExact` exactly which runs keep the
  table right, whatever ids they use. Stale clients apart, no run ever loses a
  registered service (`NeverMissing`).
- A request that finds no client and is no longer recorded leaves the proxy locked
  (`DoSendByHash`).

## Model

| member | source | states |
|---|---|---|
| Skiplists.Skiplist.constructor | src/util/zset.go:142-147 | a new list satisfies the whole invariant and is empty |
| Skiplists.Skiplist.Descend | src/util/zset.go:166-182 | the search leaves on every level the last node before the cut and its exact rank |
| Skiplists.Skiplist.LinkMeans | src/util/zset.go:109-126 | in a valid list a link leads to the next node tall enough, over exactly its span, or to none when there is none and spans the rest of the list |
| Skiplists.Skiplist.Insert | src/util/zset.go:160-224 | for every height, inserting an absent pair keeps the whole invariant and puts exactly that pair at its place in the order |
| Skiplists.Skiplist.RemoveNode | src/util/zset.go:230-248 | unlinking the node after the path keeps the whole invariant, takes exactly that element out, and leaves the same `update` array usable for the next removal |
| Skiplists.Skiplist.Remove | src/util/zset.go:253-276 | finds and removes exactly the pair asked for, or reports its absence and changes nothing |
| Skiplists.Skiplist.GetRank | src/util/zset.go:281-299 | the 1-based rank of a present pair; for the empty member only when a node at or before it reaches the top level |
| Skiplists.Skiplist.GetByRank | src/util/zset.go:304-318 | the node at a rank, the header at 0, nil outside 0..length |
| Skiplists.Skiplist.HasInRange | src/util/zset.go:320-336 | true exactly when the guard lets the borders through and neither end of the list lies beyond a border |
| Skiplists.Skiplist.GetFirstInScoreRange | src/util/zset.go:338-356 | the first node in range, nil when there is none or the guard rejects; the step past the search never meets nil |
| Skiplists.Skiplist.GetLastInScoreRange | src/util/zset.go:358-373 | the last node in range, likewise |
| Skiplists.Skiplist.RemoveRangeByScore | src/util/zset.go:378-411 | for all borders and limits, removes exactly the first elements in range, returns them in order, keeps the whole invariant |
| Skiplists.Skiplist.RemoveRangeByRank | src/util/zset.go:414-442 | removes exactly the slice of ranks, for every start and stop, and returns it in order |
| Shape.InsertComposed | src/util/zset.go:195-204 | a list with a node of any allowed height put in is still a list of distinct, tall enough nodes |
| Shape.InsertSplits | src/util/zset.go:197-204 | a link that crosses the new node splits into two, with these spans |
| Shape.InsertStretches | src/util/zset.go:206-209 | a link above the new node grows by one |
| Shape.InsertElsewhere | src/util/zset.go:195-209 | every other link is unchanged |
| Shape.RemoveOnPath | src/util/zset.go:231-238 | which of the two updates of a removal applies, and that it gives the link of the shorter list |
| Shape.RemoveElsewhere | src/util/zset.go:231-238 | every link not on the path is unchanged by a removal |
| Borders.EmptyRangeExact | src/util/zset.go:34-56 | which borders admit no score at all |
| Borders.InRangeExact | src/util/zset.go:34-56 | the scores between two borders: ends belong to the range unless excluded, infinite ends do not bound it or leave nothing |
| Borders.GuardSound | src/util/zset.go:322-324 | for finite borders the guard rejects exactly the empty ranges; it never rejects the full one |
| Ranges.MatchingIsSlice | src/util/zset.go:393-409 | the elements in range are one slice of the order, between two cuts |
| Order.BeforeIsTotalOrder | src/util/zset.go:174-176 | (score, member) order is a strict total order |
| Order.StringLessExact | src/util/zset.go:174-176 | a member is less than another exactly if it is a proper prefix of it, or has the lesser character where they first differ |
| Order.ListingUnique | src/util/zset.go:448-451 | a map has only one listing in that order |
| Order.PutLists | src/util/zset.go:475-476 | putting a new pair at its place lists the map with that pair |
| Order.IndexIsSmallerCount | src/util/zset.go:280-299 | an element's place in the listing is the number of smaller pairs of the map |
| SortedSets.RandomLevel | src/util/zset.go:149-158 | any height from 1 to 16 |
| SortedSets.SortedSet.constructor | src/util/zset.go:454-459 | an empty map |
| SortedSets.SortedSet.Add | src/util/zset.go:462-477 | the map with the score set; true exactly for a new member |
| SortedSets.SortedSet.Len | src/util/zset.go:480-482 | the size of the map, equal to the list's length |
| SortedSets.SortedSet.Get | src/util/zset.go:485-491 | the pair of a present member |
| SortedSets.SortedSet.Remove | src/util/zset.go:494-502 | the map without the member; true exactly if it was there |
| SortedSets.SortedSet.GetRank | src/util/zset.go:505-517 | the number of smaller, or in the other direction larger, pairs |
| SortedSets.SortedSet.ForEach | src/util/zset.go:520-554 | which arguments panic; otherwise the consumer is fed exactly the slice of the listing, in either direction |
| SortedSets.SortedSet.Range | src/util/zset.go:557-567 | which arguments panic; otherwise exactly that slice |
| SortedSets.SortedSet.Count | src/util/zset.go:570-589 | the number of elements in range; a panic on the empty set |
| SortedSets.SortedSet.ForEachByScore | src/util/zset.go:592-628 | exactly which elements are visited, for all borders, offsets and limits |
| SortedSets.SortedSet.RangeByScore | src/util/zset.go:632-642 | its answer, and that it is the wanted one exactly when `RangeIsExact` |
| SortedSets.SortedSet.RemoveByScore | src/util/zset.go:645-651 | keeps exactly the members outside the range; returns how many were inside |
| SortedSets.SortedSet.PopMin | src/util/zset.go:653-667 | pops the first members tied at the least score, nil on the empty set |
| SortedSets.SortedSet.RemoveByRank | src/util/zset.go:671-677 | takes out exactly the members of the ranks named |
| SortedSets.PoppedIsLeast | src/util/zset.go:653-667 | what is popped starts the listing, shares the least score, stops at the count or the last tie; a count of one pops the least pair |
| SortedSets.RankRunExact | src/util/zset.go:671-677 | the elements named by two ranks are those whose place lies from the first on and before the second, in order |
| SortedSets.CutoutLists | src/util/zset.go:644-651 | cutting a slice out of the listing lists the map without its members |
| SortedSets.RangeMembers | src/util/zset.go:645-651 | removing what matches leaves exactly what is out of range |
| SortedSets.MemberIndex | src/util/zset.go:505-517 | a member's place in the listing, and that no other place carries it |
| SetRuns.Perform | src/util/zset.go:461-677 | each operation changes the map as `After` says and gives a reply the map allows |
| SetRuns.Run | src/util/zset.go:448-677 | over any sequence of operations and any heights every reply is one the finite map allows |
| SetRuns.RankSelects | src/util/zset.go:505-517 | a member stands at one place of the listing, the number of smaller pairs, and at the mirrored place of the reverse |
| SetRuns.RemovedByRank | src/util/zset.go:671-677 | a removal by rank keeps a member exactly if its rank is outside the run |
| SetRuns.SelectAtRank | src/util/zset.go:281-318 | `getByRank` at what `getRank` returns for a present non-empty member is that member's node |
| SetRuns.RankOfSelected | src/util/zset.go:281-318 | `getRank` of what `getByRank` selects is the rank it was selected by; nil exactly outside 0..length |
| SetRuns.BothRanks | src/util/zset.go:505-517 | the ranks `GetRank` returns in the two directions add up to the size less one |
| SetRuns.MirroredRanges | src/util/zset.go:520-567 | of two calls of `Range`, the descending one is the mirrored ascending one reversed, and when just one of them panics |
| SetRuns.TraversalsAgree | src/util/zset.go:570-651 | for finite borders the count, the unlimited range and the number removed agree |
| EmptyMembers.FoundExactly | src/util/zset.go:281-299 | the empty member is found exactly when a node of the greatest height stands at its place or before |
| EmptyMembers.RankedForAllCoins | src/util/zset.go:145-158 | a present member is found for all heights exactly if it is not empty, or its pair is the greatest |
| EmptyMembers.BuildWith | src/util/zset.go:160-224 | insertions produce any ordered listing with any heights |
| EmptyMembers.RankWith | src/util/zset.go:281-299 | the rank of the empty member for given heights |
| EmptyMembers.EmptyMemberMisranked | src/util/zset.go:293-296 | a concrete list in which a present empty member gets rank 0 |
| Visits.VisitedIsExact | src/util/zset.go:600-627 | skipping and limiting give the page of the range exactly when the offset stays inside it or leaves the set |
| Visits.VisitedBeyond | src/util/zset.go:600-627 | an offset out of the range but within the set visits the one element there; one that is not positive skips nothing |
| Visits.FeedStops | src/util/zset.go:545-547 | a consumer that stops is fed the elements up to the one it stopped at, and no more |
| Visits.ScoreRangeExact | src/util/zset.go:592-642 | a range query returns the page asked for if and only if `RangeIsExact` |
| Visits.FiniteRangeExact | src/util/zset.go:592-642 | it does for finite borders with an offset below the number in range, or none in range |
| Visits.GuardExactForAllSets | src/util/zset.go:320-336 | borders for which every set is searched exactly: those the guard lets through, or that admit nothing |
| Visits.GuardMissesMixedRange | src/util/zset.go:322-324 | borders and a set for which the guard hides an element in range |
| Visits.OffsetLeavesRange | src/util/zset.go:600-607 | an offset that returns an element out of range |
| Visits.FeedCountIn | src/util/zset.go:573-587 | the counting consumer, stopped at the first element past the range, counts the elements in range |
| UserNodeCaches.UserNodeCache.Set | src/server/online/handle/user_node_cache.go:29-43 | evicts the least entry when a new user would exceed the limit; only moves the time of a stored user and reports failure |
| UserNodeCaches.UserNodeCache.Get | src/server/online/handle/user_node_cache.go:45-48 | the stored node of exactly the users with a time |
| UserNodeCaches.UserNodeCache.Del | src/server/online/handle/user_node_cache.go:50-58 | takes the user out of both maps; true exactly if it was there |
| UserNodeCaches.SetConsistent | src/server/online/handle/user_node_cache.go:29-43 | `Set` keeps both maps on the same users, within the limit; an eviction takes one entry |
| UserNodeCaches.SetExact | src/server/online/handle/user_node_cache.go:29-43 | case by case what `Set` leaves; it succeeds exactly for a new user of a cache that may hold any |
| UserNodeCaches.PopLeast | src/server/online/handle/user_node_cache.go:32-33 | `PopMin(1)` takes the (time, uid)-least user |
| CacheRuns.Run | src/server/online/handle/user_node_cache.go:29-58 | any run of the code is the run of the two maps |
| CacheRuns.AlwaysConsistent | src/server/online/handle/user_node_cache.go:29-58 | over any run both maps hold the same users, no more than the limit |
| CacheRuns.ScoreIsLatestSet | src/server/online/handle/user_node_cache.go:38-40 | a cached user is filed under the time of its latest `Set`, failed or not |
| CacheRuns.NodeIsAsEntered | src/server/online/handle/user_node_cache.go:29-48 | the node of a cached user is that of the `Set` that brought it in, after which it has always been cached; later ones do not count |
| CacheRuns.VictimIsLeast | src/server/online/handle/user_node_cache.go:31-37 | the one user evicted has the least latest `Set` time, ties broken by uid |
| CacheRuns.EvictsLeastRecentlySet | src/server/online/handle/user_node_cache.go:14-43 | with increasing times the cache is a bounded list in order of the latest `Set`, evicting from the front |
| UserConnMgrs.UserConnMgr.GetCount | src/server/gateway/handle/user_conn_mgr.go:53-57 | the number of records |
| UserConnMgrs.UserConnMgr.AddUserConn | src/server/gateway/handle/user_conn_mgr.go:59-82 | the two refusals in their order; otherwise a record, filed under the present time |
| UserConnMgrs.UserConnMgr.RemoveUserConn | src/server/gateway/handle/user_conn_mgr.go:84-92 | takes the user out of both maps; true exactly if it was there |
| UserConnMgrs.UserConnMgr.RefreshUserConn | src/server/gateway/handle/user_conn_mgr.go:94-107 | moves the time a user is filed under, leaves its record, and reports failure always |
| UserConnMgrs.UserConnMgr.GetChannelId | src/server/gateway/handle/user_conn_mgr.go:109-116 | the channel of exactly the users filed |
| UserConnMgrs.UserConnMgr.EliminateTimeoutUserConns | src/server/gateway/handle/user_conn_mgr.go:118-132 | every listed user has a record; returns those records in order and takes exactly those users out |
| UserConnMgrs.ExpiredMembers | src/server/gateway/handle/user_conn_mgr.go:122-124 | the users eliminated are those filed between 0 and now; the query used is exact |
| UserConnMgrs.EliminateConsistent | src/server/gateway/handle/user_conn_mgr.go:125-130 | eliminating keeps both maps in step; no user is listed twice |
| UserConnMgrs.AddExact | src/server/gateway/handle/user_conn_mgr.go:59-82 | which refusal an addition gets, and the record and time of one that succeeds, field by field |
| UserConnMgrs.RemoveExact | src/server/gateway/handle/user_conn_mgr.go:84-92 | a removal leaves exactly the other users, as they were |
| UserConnMgrs.RefreshExact | src/server/gateway/handle/user_conn_mgr.go:94-107 | a refresh files a user of the table under now plus the timeout, and changes nothing else |
| ConnRuns.Run | src/server/gateway/handle/user_conn_mgr.go:59-132 | any run of the code is the run of the two maps |
| ConnRuns.AddThenLook | src/server/gateway/handle/user_conn_mgr.go:59-116 | a user just added is found under its channel; the addition succeeds exactly for a new user below the limit |
| ConnRuns.AlwaysConsistent | src/server/gateway/handle/user_conn_mgr.go:59-132 | over any run both maps hold the same users, no more than the limit, each record under its uid |
| ConnRuns.SparedStays | src/server/gateway/handle/user_conn_mgr.go:84-132 | events that neither remove, refresh nor come due leave a user and its time alone |
| ConnRuns.EliminatedWhenDue | src/server/gateway/handle/user_conn_mgr.go:118-132 | a user is eliminated exactly when its time lies between 0 and now |
| ConnRuns.RefreshedLastsUntilTimeout | src/server/gateway/handle/user_conn_mgr.go:94-132 | a user refreshed at t, left alone since, is eliminated at a time exactly if that is t plus the timeout or later |
| ConnRuns.AddedGoesAtOnce | src/server/gateway/handle/user_conn_mgr.go:69-80 | a user only added is eliminated from the moment of adding on, although its record promises the timeout |
| MergeSearch.StepInv | src/util/merge_search.go:30-71 | every step keeps: a key is taken exactly while one call holds it, each waiter stands once in its own leader's queue and nothing else stands in any, served results are their leaders' |
| MergeSearch.AlwaysInv | src/util/merge_search.go:30-71 | so in every state of every interleaving |
| MergeSearch.OneLeaderPerKey | src/util/merge_search.go:33-44 | at most one leader holds a key, and a key with registered waiters has one |
| MergeSearch.ChannelInOnePlace | src/util/merge_search.go:39-63 | across overlapping rounds a waiting channel stands in exactly one queue, at one place |
| MergeSearch.ServedByItsRound | src/util/merge_search.go:46-69 | a served call got what the function returned to the call that held the key when it registered, by exactly one delivery |
| MergeSearch.DeliveredOnce | src/util/merge_search.go:51-53 | no call is delivered to twice |
| MergeSearch.ReturnsOnce | src/util/merge_search.go:37 | the function returns once to each leader |
| MergeSearch.CanStepUntilDone | src/util/merge_search.go:30-71 | a step can be taken exactly while some call has not returned; afterwards both tables are empty |
| MergeSearch.StepsDecrease | src/util/merge_search.go:30-71 | every step decreases a measure |
| MergeSearch.RunsAreShort | src/util/merge_search.go:30-71 | a run of n calls takes at most 5n steps |
| Framing.DecodeEncode | src/mservice/define/packet.go:124-125 | the big-endian length decodes to the length wrapped to 32 bits |
| Framing.EncodeDecode | src/mservice/define/packet.go:101-103 | every four bytes are the encoding of what they decode to |
| Framing.UnsignedWeights | src/mservice/define/packet.go:101-103 | of the four bytes received the first is the most significant |
| Framing.HeaderWeights | src/mservice/define/packet.go:124-130 | a frame starts with the length of the body, modulo 2^32, most significant byte first |
| Framing.ParseBody | src/mservice/define/packet.go:94-117 | a stream gives a body exactly if it begins with the frame of that body, not empty and shorter than 2^31 |
| Framing.ParseOther | src/mservice/define/packet.go:100-116 | which streams panic, which read as a closed connection, and what is left of them |
| Framing.RoundTrip | src/mservice/define/packet.go:94-132 | a body comes back, leaving the rest of the stream, exactly if it is not empty and shorter than 2^31 |
| Framing.LongBodyPanics | src/mservice/define/packet.go:108 | a body of 2^31 to 2^32 - 1 bytes makes the receiver panic |
| Framing.CutStream | src/mservice/define/packet.go:94-117 | of a stream that ends anywhere, the bodies whose frames are complete arrive and every later receive fails |
| Framing.ParseFrames | src/mservice/define/packet.go:94-132 | receiving as often as was sent gives the same list and uses the stream up exactly |
| Framing.FramesUnambiguous | src/mservice/define/packet.go:119-132 | two lists of bodies of one length never share a stream |
| Framing.NetRecvTimeout | src/util/net_util.go:33-52 | for any chunking ends with at least the bytes asked for, in place and in order, or with an error; never takes more than the buffer holds |
| Framing.CommonRecvPacket | src/mservice/define/packet.go:94-117 | whatever the chunking, a receive does what parsing the stream at once would |
| Framing.CommonSendPacket | src/mservice/define/packet.go:119-132 | success exactly when the whole frame was written; otherwise a part of it from the start |
| Framing.Exchange | src/mservice/define/packet.go:94-132 | a list of non-empty bodies shorter than 2^31, sent and received, arrives in order and leaves what followed |
| Namings.AtoiItoa | src/mservice/naming/naming.go:172-184 | a port prints and parses back exactly if it fits 64 bits |
| Namings.AtoiExact | src/mservice/naming/naming.go:172 | what parses as a port: digits with at most one sign, of a value that fits 64 bits |
| Namings.ValueOfFirst | src/mservice/naming/naming.go:172 | the value of the digits is the decimal one |
| Namings.DigitsLead | src/mservice/naming/naming.go:187 | a printed number has no leading zero, unless it is zero |
| Namings.KeyLayout | src/mservice/naming/naming.go:185-193 | the key of a service, part by part |
| Namings.FromKeyExact | src/mservice/naming/naming.go:169-183 | a key parses to a service exactly if its last component is that name, host and a number, joined by underscores with none in name or host |
| Namings.KeyRoundTrip | src/mservice/naming/naming.go:169-189 | printing a service and parsing the key gives it back exactly if name and host have no `_` or `/` and the port fits 64 bits |
| Namings.ParserPanics | src/mservice/naming/naming.go:171-173 | the parser panics exactly on a last component with fewer than two underscores |
| Namings.KeysDistinct | src/mservice/naming/naming.go:185-189 | services that can be printed and differ in name, host or port have different keys |
| Namings.FindSelects | src/mservice/naming/naming.go:69 | for which published names the prefix of a slash-free name selects the key, exactly |
| Namings.SubscribeSelects | src/mservice/naming/naming.go:110 | the same for the watched prefix |
| Namings.PrefixesAgree | src/mservice/naming/naming.go:69-110 | among slash-free names both prefixes select the service's own keys only |
| Namings.Find | src/mservice/naming/naming.go:68-80 | panics exactly if a selected key does; otherwise one entry for each selected key that parses |
| Namings.OwnKeyExact | src/mservice/naming/naming.go:169-189 | the key of any service parses to a service with that key exactly if the service can be printed |
| Namings.PublishedSteps | src/mservice/naming/naming.go:131-143 | registering any service at all leaves a store of printed keys exactly if the service can be printed; expiring always does |
| Namings.OwnKeyPanics | src/mservice/naming/naming.go:169-189 | the services whose own key stops the parser: a `/` in the host and no `_` after the last one |
| Namings.RegisteredStopsFind | src/mservice/naming/naming.go:68-143 | after registering any service, the look-ups that panic are exactly those that select its key, if it stops the parser |
| Namings.FindsOffered | src/mservice/naming/naming.go:68-80 | in such a store a look-up never panics and reports exactly the services offered under the name, each once |
| ClientTables.AddressInjective | src/mservice/obj_client/obj_client_proxy.go:528-529 | two clients have one address string exactly when host and port agree |
| ClientTables.StableSortUnique | src/mservice/obj_client/obj_client_proxy.go:526-535 | the stable sort by address has one result, whatever the algorithm |
| ClientTables.RoutedExact | src/mservice/obj_client/obj_client_proxy.go:321-322 | a hash below the number of clients selects the client of that place, and hashes repeat with that number |
| ClientTables.SameRoute | src/mservice/obj_client/obj_client_proxy.go:321-322 | two ordered lists with the same multiset of addresses send each hash to the same host and port |
| ObjectProxies.SortClients | src/mservice/obj_client/obj_client_proxy.go:526-535 | ordered by address, the clients of one address in the order they had |
| ObjectProxies.FindClientIndex | src/mservice/obj_client/obj_client_proxy.go:442-453 | finds the first client at the address, unless that one has another id |
| ObjectProxies.ObjectProxy.constructor | src/mservice/obj_client/obj_client_proxy.go:245-256 | each service found is tried once and filed by the outcome |
| ObjectProxies.ObjectProxy.TryClients | src/mservice/obj_client/obj_client_proxy.go:263-281 | one pass moves the first client that is due and connects, or none |
| ObjectProxies.ObjectProxy.RetryClientConnect | src/mservice/obj_client/obj_client_proxy.go:259-287 | for every sequence of outcomes it ends, with no client lost or invented and the active ones in address order; added to them are the clients whose own attempt succeeded |
| ObjectProxies.ObjectProxy.RetireActiveClient | src/mservice/obj_client/obj_client_proxy.go:428-439 | what the removal behind the guard would do: one client moves back, the others stay in order; panics exactly for an index out of range |
| ObjectProxies.ObjectProxy.RemoveActiveClientByIndex | src/mservice/obj_client/obj_client_proxy.go:423-440 | with its guard, changes neither list; panics exactly for an index beyond the list |
| ObjectProxies.ObjectProxy.DoClientRemove | src/mservice/obj_client/obj_client_proxy.go:412-421 | takes out one client, of the active list first |
| ObjectProxies.ObjectProxy.DoEventServiceChange | src/mservice/obj_client/obj_client_proxy.go:354-378 | leaves the table `ChangedAll` gives, which `EventExact` compares with the registered services |
| ObjectProxies.ObjectProxy.DoClientClose | src/mservice/obj_client/obj_client_proxy.go:394-399 | enters an active client in the other list too |
| ObjectProxies.ObjectProxy.DoClientTimeout | src/mservice/obj_client/obj_client_proxy.go:401-410 | changes neither list |
| ObjectProxies.ObjectProxy.DoSendByHash | src/mservice/obj_client/obj_client_proxy.go:297-327 | the client chosen; with none active, an error to whoever waits, or a return with the lock held if the request is no longer recorded; changes neither list, sent or not |
| ObjectProxies.ObjectProxy.DoSendByBroadcast | src/mservice/obj_client/obj_client_proxy.go:329-344 | never panics and changes neither list, whoever is not reached |
| ObjectProxies.LoopMain | src/mservice/obj_client/obj_client_proxy.go:212-257 | any run of events has the effect `AfterAll` says; once a tick has passed the active list is ordered |
| ObjectProxies.OpenAndRun | src/mservice/obj_client/obj_client_proxy.go:212-257 | a proxy opened on a store of printed keys does not panic, never misses a service offered at the start or registered since, and without harm ends with exactly those |
| ObjectProxies.ProxiesAgree | src/mservice/obj_client/obj_client_proxy.go:286-322 | any two proxies past a tick with the same addresses route every hash alike |
| ClientEvents.TickConserves | src/mservice/obj_client/obj_client_proxy.go:259-287 | the tick keeps the multiset of clients and every active one; each success moves one client |
| ClientEvents.PassExact | src/mservice/obj_client/obj_client_proxy.go:264-281 | in one pass the attempts go to the due clients in turn, up to the first that succeeds, which is the one moved |
| ClientEvents.ConnectedTried | src/mservice/obj_client/obj_client_proxy.go:259-285 | over a whole tick, the clients made active are those whose own attempt succeeded, in that order, and those left are the last attempted |
| ClientEvents.ReachableConnect | src/mservice/obj_client/obj_client_proxy.go:259-287 | when attempts end as their client can be reached or not, a tick connects exactly the waiting clients that can |
| ClientEvents.InitialChosen | src/mservice/obj_client/obj_client_proxy.go:246-256 | at the start a service is active exactly if its attempt succeeded, each list in the order found |
| ClientEvents.RemovedExact | src/mservice/obj_client/obj_client_proxy.go:412-421 | the connected list is searched first, only the client found goes, and the others keep their order |
| ClientEvents.PutWaits | src/mservice/obj_client/obj_client_proxy.go:356-373 | a put connects nothing: the new client comes last in the waiting list |
| ClientEvents.ConnectedExhausts | src/mservice/obj_client/obj_client_proxy.go:261-285 | it ends only after each client still waiting has just refused in turn |
| ClientEvents.AttemptsBounded | src/mservice/obj_client/obj_client_proxy.go:261-285 | for n waiting clients it makes at most n + (n-1) + ... + 1 attempts |
| ClientEvents.TickTriesAll | src/mservice/obj_client/obj_client_proxy.go:266-269 | in every run no retry time is ever in force, so every tick tries every waiting client |
| ClientEvents.OrderedAfterTick | src/mservice/obj_client/obj_client_proxy.go:259-440 | from the first tick on every handler keeps the active list in address order |
| ClientRuns.NeverMissing | src/mservice/obj_client/obj_client_proxy.go:346-421 | over every run, whatever ids it uses and whatever it closes, no registered service is missing from the table |
| ClientRuns.AnnouncedExact | src/mservice/obj_client/obj_client_proxy.go:354-378 | a service is registered after some changes exactly if the last one that names its address put it, or none did and it was before |
| ClientRuns.EventTracksExactly | src/mservice/obj_client/obj_client_proxy.go:346-421 | where addresses keep their ids, an exact table (every registered service once and nothing else) stays exact at an event if and only if that is no close that finds its client connected |
| ClientRuns.RunTracksExactly | src/mservice/obj_client/obj_client_proxy.go:346-421 | where addresses keep their ids, a run has an exact table at every point if and only if no close event finds its client connected at its time |
| ClientRuns.DeletionThenClose | src/mservice/obj_client/obj_client_proxy.go:412-417 | after a deletion that agrees with what is registered, the close event it causes does no harm when it comes next |
| ClientRuns.InitialExact | src/mservice/obj_client/obj_client_proxy.go:238-256 | a proxy that starts with services at distinct addresses starts exact, whatever their ids |
| ClientRuns.FoundDistinct | src/mservice/obj_client/obj_client_proxy.go:238-246 | what a look-up in a store of printed keys reports stands at distinct addresses |
| ClientRuns.RunFromFound | src/mservice/obj_client/obj_client_proxy.go:232-421 | every run of a proxy started from such a look-up: nothing is ever missing, and the table is exact at every point if and only if every event is harmless at its time |
| ClientRuns.ChangeExact | src/mservice/obj_client/obj_client_proxy.go:354-421 | whatever ids are used, a change leaves an exact table exact if and only if it names no id or the one registered at its address |
| ClientRuns.EventExact | src/mservice/obj_client/obj_client_proxy.go:346-421 | the same for every event, and between the changes of one event |
| ClientRuns.RunExact | src/mservice/obj_client/obj_client_proxy.go:346-421 | any run at all has an exact table at every point if and only if every event is harmless at its time |
| ClientRuns.PutReplaces | src/mservice/obj_client/obj_client_proxy.go:356-373 | a put under a non-empty id leaves its address known under that id only if and only if it already was |
| ClientRuns.PutWithoutId | src/mservice/obj_client/obj_client_proxy.go:356-373 | a put under the empty id does so if and only if all clients there but the one found had it |
| ClientRuns.StaleClientStays | src/mservice/obj_client/obj_client_proxy.go:354-421 | two puts of an address under different ids leave two clients; withdrawing the second by its id takes neither out, withdrawing the address without an id takes out the first, so that a client stays that no service stands behind |
| ClientRuns.CloseDuplicates | src/mservice/obj_client/obj_client_proxy.go:270-277 | after a close that finds its client and a tick, the client is active twice |
| ClientRuns.DeleteDoesNothing | src/mservice/obj_client/obj_client_proxy.go:412-421 | a deletion is lost exactly when in both lists the first client at the address is missing or has another id |

## Left out

- Overflow of 64-bit lengths, ranks, spans, counts and times: they are unbounded
  integers. The 32-bit packet length and the 64-bit port parser are exact.
- Scores are reals: no NaN, no rounding of times to floating point.
- `ParseScoreBorder`: number parsing by a library.
- The distribution of `randomLevel`; its height is an input of `Insert`, drawn
  before the search instead of after it, which the search cannot notice.
- The search loops of the skip list, written out in seven functions of the source, are
  the two methods `Walk` and `Descend` here; long methods are cut into parts.
- Consumers of `ForEach` and `ForEachByScore` are functions on an explicit state
  instead of closures, and do not change the set while it is walked.
- Returned elements, nodes and records are values, not shared pointers.
- Panics of `ForEach` and `Range` are outcomes; the reads that would follow are
  not modelled.
- SetRuns.Run: for a present empty member it allows the rank that says absent beside the
  true one, because the code's answer depends on the heights.
- `GetCount` and `EliminateTimeoutUserConns` release the lock at once; every
  operation is taken as one atomic step, with the time as an input.
- `GetUserConnsInstance` and configuration: the limits are constructor arguments.
- In `Call`, a function that panics or calls `Call` again, and the conversion of
  a nil result to an interface type.
- JSON and mapstructure: packet bodies are byte sequences. Deadlines: a read may
  fail at any time unless the connection is `steady`. `incoming` holds all bytes the peer
  will have sent, so waiting for more of them is not seen.
- A read that gives no byte and no error although there is room.
- Bytes beyond ASCII in names, and the order of bytes against characters in members
  and addresses.
- `Register`, `Subscribe` and `Unsubscribe` keep cancel functions of watches and leases;
  only the keys they use are modelled. The etcd client is not part of this model.
- `TcpClient` as a value: its connection, its queue and its callbacks are the
  outcomes an event carries. Clients equal in host, port and data are not told apart.
- Call records, replies and timeouts of requests in flight in
  `obj_client_proxy.go`: what is recorded of a request to be sent is an input.
- A proxy with 2^32 or more active clients, where the modulus would wrap.
- `lru_cache.go`, the TCP server, the pusher, the timers, HTTP, redis and start-up
  code: library calls and plumbing with few invariants of their own.
