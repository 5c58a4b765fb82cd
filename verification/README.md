# A verified model of go-libp2p-kbucket

This project models the Kademlia routing table of go-libp2p-kbucket in Dafny and proves what the
table, its XOR metric, its random-identifier generators and its diversity filter promise.

The routing table is an array of buckets over a 256-bit XOR key space. Bucket `i` holds the peers
that share exactly `i` leading bits with the local identifier; the last bucket is a wildcard for
all the others. Adding a peer may unfold the wildcard several levels, or evict a replaceable peer;
removing one may collapse the array again. Queries look at a few buckets only and are right because
of where every peer stands.

## How it is organised

The code that changes things in place is modelled by classes and loops (`PeerInfo`, `Bucket`,
`PeerDistanceSorter`, `RoutingTable`, `Filter`, the search for preimages, the key buffers). Each
method is proved equal to a function on values, and the theorems are about those functions.

- `XorKeySpace`, `XorGeometry`: bytes, zero prefixes, order and distance; the ultrametric, the
  metric, and the agreement of the byte-wise order with the integers.
- `GoSort`, `Sorting`, `KeySort`, `SortsAgree`: an in-place sort driven by comparisons and swaps,
  the two sorts by distance, and their agreement.
- `Peers`, `BucketSpec`, `Bucket`: peer records and the list operations of a bucket.
- `TableSpec`, `TableProofs`, `AddProofs`, `TableFacts`, `CapacityProofs`: the bucket array as a
  value; unfolding, collapsing, filling, evicting; sizes and counts; who is taken in, in terms of
  the residents alone.
- `FilterSpec`, `DiversityFilter`: the bookkeeping of the diversity filter.
- `TableMachine`, `MachineProofs`, `AgeProofs`: table, filter and callbacks as one state machine, its
  runs, and the age of the peers it evicts.
- `NearestSpec`, `QueryProofs`: what NearestPeers must answer and why some buckets suffice.
- `RoutingTable`: the table as an object.
- `RefreshSpec`, `RandomKey`, `Preimage`: refresh times, random keys, the preimage table.

Identifiers are byte strings (`seq<bv8>`). ConvertPeerID is any function from peer ids to 32-byte
digests, held in `Config`; injectivity is assumed only where a statement says so. The time, the
latency verdict, the random bytes and the addresses of a peer are inputs of each call.

## Where the code and its comments differ

The model follows the code.

- The comment on TryAddPeer (table.go:182-184) speaks of replacing a peer whose last query is too
  old. The code evicts the last replaceable peer of the bucket, and times play no part. As the
  comment says, the bucket is not the last one: a full last bucket is unfolded before
  (`AddProofs.EvictionIsFromDedicatedBucket`).
- The error of GenRandomKey (table_refresh.go:49-51) speaks of a prefix longer than the key. The
  guard also refuses the last bit of the key, for which keys exist, and it lets through prefix
  lengths of 2^63 - 1 and more, for which `targetCpl+1` wraps around or turns negative as an int; the
  next statement then slices out of range. `RandomKey.WhenRefused`, `RandomKey.WhenRefusedInVain` and
  `RandomKey.WhenOutOfRange` give the exact conditions; `RandomKey.LastBitIsRefused` and
  `RandomKey.LargestIntIsLetThrough` are inputs.
- The comment on `min` (bucket.go:60-63) promises the minimum by a comparison. The comparison that
  addPeer passes looks at its first argument only and is no order. `Bucket.BestIsVictim` proves that
  the scan is still right for its purpose, and `Bucket.BestIsLeast` that it finds a minimum when the
  comparison is by a key.

## Model

| member | source | states |
|---|---|---|
| XorKeySpace.Xor | keyspace/xor.go:62-68 | the loop yields the byte-wise XOR, as long as the first argument |
| XorKeySpace.ZeroPrefixLen | keyspace/xor.go:53-60 | the result is the position of the first one bit, or the bit length if there is none |
| XorKeySpace.ZeroBitsIsFirstOne | keyspace/xor.go:53-60 | every bit before the zero-prefix length is zero and the bit there is set |
| XorKeySpace.CommonPrefixLen | util.go:39-41 | two identifiers agree in every bit before the result and differ at it, or it is their whole length |
| XorKeySpace.SharedBitsAgree | util.go:39-41 | the zero prefix of the XOR ends where the bits of the two identifiers first differ |
| XorGeometry.ZeroBitsOfXor | keyspace/xor.go:53-68 | the zero prefix of an XOR, from those of its arguments: the lesser if they differ, strictly longer if they are equal |
| XorGeometry.SharedBitsUltrametric | util.go:35-41 | shared prefixes form an ultrametric, with equality when two differ and a strict gain when two stop at the same bit |
| XorGeometry.SharedBitsIdentity | util.go:39-41 | sharing every bit is being equal |
| XorGeometry.SharedBitsOfCut | util.go:39-41 | cutting identifiers to n bytes caps the shared prefix at 8n bits and changes nothing below |
| XorGeometry.BytesLessIsIntegerLess | keyspace/xor.go:48-50 | the byte-wise order of equally long strings is the order of their big-endian integers |
| XorGeometry.ZeroBitsBracket | keyspace/xor.go:38-60 | a non-zero string of n bytes with z leading zero bits is an integer in [2^(8n-z-1), 2^(8n-z)); zero bits throughout means zero |
| XorGeometry.DistanceBracket | keyspace/xor.go:38-46 | the distance of two different identifiers lies between the powers of two that their shared prefix names |
| XorGeometry.DistanceIsMetric | keyspace/xor.go:38-46 | distance is zero only between equals, symmetric, obeys the triangle inequality, and no two identifiers are equally far from a third |
| XorGeometry.MoreSharedBitsIsNearer | util.go:35-41 | whoever shares more bits with a key is strictly nearer to it |
| NearestSpec.CloserIsNearer | util.go:56-64 | Closer compares exactly the integer distances of the two hashes from the hash of the key |
| GoSort.Sort | sorting.go:46-48 | comparisons and swaps permute the array in place into ascending order of the keys that the comparison compares |
| GoSort.LiftPermutation | sorting.go:32-48 | a permutation of the entries made for some peers is the list of entries of a permutation of those peers |
| Sorting.LessComparesDistances | sorting.go:27-29 | Less of the sorter compares the entries by their integer distances |
| Sorting.PeerDistanceSorter.AppendPeer | sorting.go:32-37 | one entry is appended, with the XOR of target and DHT id |
| Sorting.PeerDistanceSorter.AppendPeersFromList | sorting.go:40-44 | the entries of all peers of a bucket are appended in order |
| Sorting.PeerDistanceSorter.Sort | sorting.go:46-48 | the entries are permuted into ascending distance |
| Sorting.SortedEntriesAreSortedPeers | sorting.go:32-48 | sorted entries are the entries of the same peers in ascending distance from the target |
| Sorting.SortClosestPeers | sorting.go:51-65 | a new list, a permutation of the given peers, ascending in the distance of their hashes from the target |
| KeySort.SortByDistance | keyspace/keyspace.go:88-97 | a permutation of the given keys in ascending integer distance from the center; a list of one key is not compared, so that key may be of any kind |
| KeySort.AscendingByDistanceIsUnique | keyspace/keyspace.go:79-97 | ascending orders of the same identifiers by distance from a full-length center are equal |
| SortsAgree.TwoSortsAgree | sorting.go:51-65 | for peers and keys with the same 32-byte identifiers, the output of SortClosestPeers and that of SortByDistance list the identifiers in the same order |
| Bucket.Bucket.PushFront | bucket.go:123-125 | the peer becomes the first of the list |
| Bucket.Bucket.GetPeer | bucket.go:102-109 | the first record with the id, or null exactly when there is none |
| Bucket.Bucket.Remove | bucket.go:113-121 | the first record with the id leaves the list; the result says whether there was one |
| Bucket.Bucket.Split | bucket.go:134-152 | peers sharing more than the given number of bits move to the new bucket, the others stay, both in order |
| Bucket.Bucket.UpdateAllWith | bucket.go:83-88 | every record is replaced by its update |
| Bucket.Bucket.Min | bucket.go:64-80 | the winner of the scan with any comparison, or null for an empty bucket |
| Bucket.BestIsVictim | bucket.go:64-80 | with the comparison of addPeer the scan finds the last replaceable peer, if there is any |
| Bucket.BestIsLeast | bucket.go:64-80 | with a comparison by a key the scan finds a peer with the least key |
| Bucket.Bucket.MaxCommonPrefix | bucket.go:156-165 | the longest prefix of any peer of the bucket, 0 for an empty one |
| BucketSpec.LongestInIsMax | bucket.go:156-165 | no peer of the bucket exceeds that prefix and, in a non-empty bucket, some peer has it |
| BucketSpec.WithoutRemovesOne | bucket.go:113-121 | removal takes away exactly one record |
| BucketSpec.SplitPartition | bucket.go:134-152 | the two halves of a split are together the whole bucket |
| BucketSpec.SplitMembers | bucket.go:134-152 | who stays and who leaves is decided by the shared prefix alone |
| TableProofs.NextBucketKeeps | table.go:406-419 | unfolding loses no peer, keeps every peer in place, overfills nothing, stays within 258 buckets and ends with a wildcard that has room |
| TableProofs.NextBucketIsLeast | table.go:406-419 | unfolding goes exactly as far as it must: to the least number of buckets that leaves fewer than bucketsize peers in the wildcard; every other peer of the old wildcard stands in the bucket of its own prefix length, in the old order |
| TableProofs.NextBucketMakesRoom | table.go:248-267 | unfolding a full wildcard makes room for a newcomer if and only if some peer in it shares a different number of bits; otherwise they all stay together and the new wildcard is empty |
| TableProofs.PlaceIsUnique | table.go:555-563 | a well-hashed peer fits exactly one bucket, the one bucketIdForPeer names |
| TableProofs.LookupIsComplete | table.go:555-563 | looking into that one bucket finds a peer if and only if it is anywhere in the table |
| TableSpec.Collapse | table.go:382-397 | the clean-up terminates and leaves one bucket or two non-empty ones at the end |
| TableProofs.CollapseKeeps | table.go:382-397 | the clean-up loses no peer, keeps every peer in place and overfills nothing |
| TableProofs.CollapseDropsOnlyEmpty | table.go:382-397 | the clean-up drops empty buckets at the end of the table and nothing else, and ends with one bucket or two non-empty ones |
| TableProofs.TidyIsUnique | table.go:382-397 | only one table meets that description |
| TableProofs.RemoveKeeps | table.go:375-404 | removal takes away one record and nothing else, and brings a bucket that an eviction overfilled back within capacity |
| TableProofs.RemoveLayout | table.go:375-397 | removal takes one record out of its place, leaves every other where it stood, and tidies the end of the table |
| AddProofs.PlaceKeeps | table.go:234-303 | looking for room keeps the table invariant and adds exactly the new peer, giving up at most one peer, a replaceable one; turning it away changes no contents |
| AddProofs.PlaceLayout | table.go:234-303 | the whole bucket array afterwards: the newcomer at the front of its bucket, the evicted peer taken out, everybody else in place; a full wildcard is unfolded for a newcomer of it, taken in or not, and never otherwise |
| CapacityProofs.PlacementIsByCount | table.go:234-303 | a newcomer is taken in for nobody if and only if fewer than bucketsize residents share exactly as many bits; it replaces one of them if there are bucketsize and some is replaceable; otherwise it is turned away |
| CapacityProofs.UsefulIsByCount | table.go:126-169 | the predictor in the same terms: not resident, and fewer than bucketsize with that prefix length or some of them replaceable |
| AddProofs.EvictionIsFromDedicatedBucket | table.go:248-297 | an eviction takes place in a bucket that is not the last one, so the evicted peer shares exactly as many bits as the newcomer |
| AddProofs.UsefulIffPlaced | table.go:126-169 | the predictor says useful if and only if a peer that is not resident finds a place |
| AddProofs.RejectionLeavesEmptyWildcard | table.go:248-303 | a rejected peer of the wildcard leaves the table unfolded, with an empty last bucket |
| TableFacts.NoPeerTwice | table.go:199-304 | no peer id occurs twice in the whole table |
| TableFacts.SizeIsBounded | table.go:506-515 | at most 258 buckets, and at most bucketsize peers for each of the 257 prefix lengths |
| TableFacts.PeersForCplIsExact | table.go:103-120 | looking at one bucket counts the peers of a prefix length in the whole table, and there are never more than bucketsize |
| TableFacts.LongestPrefixIsMax | table.go:567-577 | the last non-empty bucket holds the longest prefix of all residents; 0 for an empty table |
| MachineProofs.AddPeerMeetsContract | table.go:199-304 | TryAddPeer keeps the table sound and the filter in step; contents, new record, filter state and callbacks afterwards are exactly those of the reported outcome; a newcomer joins below bucketsize residents of its prefix length, replaces one at bucketsize, and is added if and only if predictor, latency and filter agree |
| MachineProofs.AddPeerLayout | table.go:199-304 | the whole bucket array after each outcome of TryAddPeer |
| MachineProofs.FilterIsEnforced | table.go:224-230 | the filter turns down exactly the non-whitelisted peers with no address, or with one that has no IP, no group, or a group that Allow refuses; none of these is added |
| MachineProofs.AddNeverShrinks | table.go:199-304 | the number of residents never decreases on an add |
| MachineProofs.AddKeepsCounts | table.go:234-303 | an add raises the number of residents of the newcomer's prefix length by one until there are bucketsize of them, and changes the number of no other prefix length |
| MachineProofs.RejectionRestoresFilter | table.go:299-303 | an add rejected for lack of room leaves the filter as it was, with all counters balanced |
| MachineProofs.RemovePeerMeetsContract | table.go:375-404 | removal takes away the named peer and nothing else, every other peer staying in order, makes the filter forget that peer and nothing else, reports it once, and drops only empty buckets at the end of the table |
| MachineProofs.MarkAllKeeps | table.go:309-319 | marking keeps every resident and its whole record but for the replaceability, which it withdraws |
| MachineProofs.MarkAllChanges | table.go:309-319 | every record stays at its place and changes in its replaceability only; filter and callbacks stay |
| MachineProofs.SettersChange | table.go:335-363 | each setter changes its one time in the record of its peer, and nothing else in the whole table |
| MachineProofs.RewriteKeeps | table.go:335-363 | updating a record in place changes that record and nothing else |
| MachineProofs.StepKeepsGood | table.go:191-404 | every operation keeps placement, capacity, uniqueness and agreement with the callbacks, and with the filter if it agreed before |
| MachineProofs.RunIsGood | table.go:191-404 | so does every run of operations; replaying the callbacks gives exactly the residents, and none adds a present peer or removes an absent one |
| MachineProofs.StepLeavesOtherGroups | table.go:221-303 | no operation touches the groups that the filter has on record for a peer, unless it adds, removes or evicts that peer |
| MachineProofs.RunKeepsFrame | table.go:65-93 | over a whole run the filter stays, with the same prefix lengths, and its whitelist grows by exactly the peers whitelisted |
| MachineProofs.ReachableIsGood | table.go:65-93 | every table reachable from a new one is good |
| MachineProofs.StepKeepsHeld | table.go:274-297 | an irreplaceable resident survives every operation but its own removal |
| MachineProofs.RunKeepsHeld | table.go:306-319 | an irreplaceable resident survives every run that does not remove it |
| MachineProofs.MarkAllHoldsEveryone | table.go:306-319 | everyone resident when all peers are marked stays through every run that does not remove them |
| MachineProofs.RunOfAddsKeepsSettled | table.go:209-217 | the usefulness bump happens once: afterwards no run of TryAddPeer calls changes the record of that resident, unless one of them evicts it and reports so |
| AgeProofs.RunListsNewestFirst | table.go:234-303 | as long as the clock does not go back, every reachable table lists the peers of each bucket from the newest to the oldest |
| AgeProofs.RunEvictsOldest | table.go:269-297 | in every such table an eviction takes the oldest of the replaceable residents that share as many bits as the newcomer |
| NearestSpec.BucketOrder | table.go:442-488 | peers of the start bucket are no farther from the key than any others, and those of a bucket no farther than those of an earlier bucket before the start |
| NearestSpec.StartBucketSuffices | table.go:462-473 | the start bucket alone can stand for the whole table when it holds count peers |
| NearestSpec.SuffixSuffices | table.go:473-488 | so can everything from some earlier bucket to the end |
| NearestSpec.SortedPoolAnswers | table.go:491-496 | sorting candidates that suffice and cutting them to count gives the nearest residents |
| NearestSpec.NearestIsDetermined | table.go:442-504 | two answers have the same distances throughout, and are equal when no two residents are equally far |
| QueryProofs.AnswerListsResidentsOnce | table.go:498-503 | an answer lists min(count, size) different residents |
| QueryProofs.WalkEqualsFullSort | table.go:442-504 | for a full-length key and distinct DHT ids, the answer is the full sort of all residents cut to count |
| RoutingTable.RoutingTable.constructor | table.go:65-93 | a new table is valid, empty and without callbacks, and in step with its filter if that has nobody on record |
| RoutingTable.RoutingTable.NextBucket | table.go:406-419 | the recursion on the bucket array computes the unfolding of its value |
| RoutingTable.RoutingTable.DoRemovePeer | table.go:375-404 | the in-place removal with its clean-up loop computes the removal step |
| RoutingTable.RoutingTable.RemovePeer | table.go:368-372 | keeps the table valid, performs the removal step, and drops only empty buckets at the end of the table |
| RoutingTable.RoutingTable.DoAddPeer | table.go:199-304 | the in-place addition with unfolding and eviction computes the addition step and its outcome |
| RoutingTable.RoutingTable.TryAddPeer | table.go:191-196 | keeps the table valid, performs the addition step, and has exactly the effect of the outcome it reports |
| RoutingTable.RoutingTable.MarkAllPeersIrreplaceable | table.go:309-319 | keeps the table valid and withdraws the replaceability of every resident through its record, changing nothing else |
| RoutingTable.RoutingTable.UpdateLastUsefulAt | table.go:351-363 | sets that time of a resident and nothing else, and says whether there was one |
| RoutingTable.RoutingTable.UpdateLastSuccessfulOutboundQueryAt | table.go:335-347 | sets that time of a resident and nothing else, and says whether there was one |
| RoutingTable.RoutingTable.UsefulNewPeer | table.go:126-169 | its answer is that of addPeer for every request that latency and filter do not stop, and depends only on the residents with the same prefix length |
| RoutingTable.RoutingTable.NearestPeers | table.go:442-504 | the count residents nearest to the key in ascending distance, for keys of up to 32 bytes and every count that can be allocated for |
| RoutingTable.RoutingTable.CollectNearest | table.go:457-488 | the candidates collected bucket by bucket suffice for the search |
| RoutingTable.RoutingTable.NearestPeer | table.go:431-439 | a resident nearer than or as near as all others, or the empty id for an empty table |
| RoutingTable.RoutingTable.Find | table.go:422-428 | only residents are found, and every resident is unless another resident has the same hash |
| RoutingTable.RoutingTable.Size | table.go:507-515 | the number of residents, within the bound |
| RoutingTable.RoutingTable.ListPeers | table.go:518-527 | every resident id exactly once |
| RoutingTable.RoutingTable.GetPeerInfos | table.go:322-331 | the record of every resident exactly once |
| RoutingTable.RoutingTable.NPeersForCpl | table.go:103-120 | the number of residents with that prefix length, at most bucketsize |
| RoutingTable.RoutingTable.MaxCommonPrefix | table.go:567-577 | the longest prefix of any resident; 0 for an empty table |
| RoutingTable.RoutingTable.GetTrackedCplsForRefresh | table_refresh.go:18-30 | one more slot than the longest prefix of any resident, at most 16, each with its refresh time or never |
| RoutingTable.RoutingTable.ResetCplRefreshedAtForID | table_refresh.go:79-89 | sets the slot of the prefix length of the id, if that is at most 15, and touches nothing else |
| RefreshSpec.SlotHoldsLastReset | table_refresh.go:79-89 | after any resets a slot holds the time of the last one for its prefix length |
| RandomKey.GenRandomKey | table_refresh.go:48-76 | the outcome for every argument: refused, out of range exactly from 2^63 - 1 on, read error, or a key that shares exactly the requested number of bits and is random after the next one |
| RandomKey.KeyForHasCpl | table_refresh.go:48-76 | every generated key shares exactly the requested number of bits with the local identifier |
| RandomKey.KeyForKeepsRandomBits | table_refresh.go:45-75 | every bit of a generated key after the one where it leaves the local identifier is the random one |
| RandomKey.GeneratorIsExact | table_refresh.go:53-75 | a key can be generated if and only if it shares exactly that number of bits |
| RandomKey.WhenRefused | table_refresh.go:49-51 | exactly which prefix lengths the guard refuses, with the wrap-around of uint and int |
| RandomKey.WhenOutOfRange | table_refresh.go:49-57 | the guard lets a prefix length beyond the key through if and only if it is 2^63 - 1 or more |
| RandomKey.WhenRefusedInVain | table_refresh.go:49-51 | a prefix length for which keys exist is refused if and only if it is that of the last bit |
| RandomKey.LastBitIsRefused | table_refresh.go:49-51 | for the one-byte identifier 0 the prefix length 7 is refused, and the key 1 has it |
| RandomKey.LargestIntIsLetThrough | table_refresh.go:49-57 | for that identifier 2^63 - 1 passes the guard and leaves the range |
| Preimage.FillTable | generate/main.go:22-43 | when every prefix has a preimage the search ends with the smallest preimage of each |
| Preimage.SearchStopsIffCovered | generate/main.go:30-43 | the search ends if and only if every 16-bit prefix has a preimage among the uint32 counters |
| Preimage.AfterKeeps | generate/main.go:30-43 | as long as the counter has not wrapped, exactly the prefixes visited are found, each with its smallest counter |
| Preimage.PrefixIsShifted | generate/main.go:37 | dropping 16 of the first 32 bits of the hash leaves its first two bytes |
| Preimage.GenRandPeerIDWithCPL | util.go:68-92 | the error exactly for prefix lengths of 16 and more, the read error, or a peer id; with a finished table its hash shares exactly the requested number of bits with the target |
| Preimage.GeneratedPeerHasCpl | util.go:68-92 | with a finished table, every prefix length below 16 and every random draw give a peer id whose hash shares exactly that many bits with the target |
| Preimage.DrawnIffDifferAt | util.go:73-85 | a 16-bit prefix can be drawn if and only if it first differs from the target at the requested bit |
| Preimage.TargetPrefixKeepsRandomBits | util.go:82-85 | the bits of the drawn prefix after the flipped one are the random ones |
| Preimage.PeerForIsMultihash | util.go:87-91 | a peer id is the multihash header for 32 bytes of SHA2-256, the counter big-endian, and zeros |
| Preimage.CountersAreFourBytes | generate/main.go:30-31 | every four bytes are the big-endian form of some counter, so the search tries them all |
| Preimage.Widths | generate/main.go:13-15 | the table has 2^16 entries, and counters and uint range up to 2^32 and 2^64 |
| FilterSpec.RecordAllKeeps | peerdiversity/filter.go:179-188 | recording the groups of a peer keeps both maps and the counters in step and appends to the record of that peer alone |
| FilterSpec.TryAddRecords | peerdiversity/filter.go:138-191 | what TryAdd adds to each map and each call to the counters, in terms of the addresses; nothing for whitelisted and rejected peers |
| FilterSpec.RemoveKeeps | peerdiversity/filter.go:119-135 | removal keeps both maps in step and takes back exactly what was counted |
| FilterSpec.ListingDetermines | peerdiversity/filter.go:130-134 | a map of prefix lengths without empty entries is determined by what it lists |
| FilterSpec.RejectionRestores | peerdiversity/filter.go:119-191 | adding a peer and removing it again restores every map, and every counter in sum |
| DiversityFilter.FilterRunIsBalanced | peerdiversity/filter.go:119-201 | over any run of additions, removals and whitelistings the counters equal the records and the grouped map is the records regrouped, without empty slots |
| DiversityFilter.Filter.TryAdd | peerdiversity/filter.go:138-191 | it answers true exactly for whitelisted peers and for those with addresses that all have a group Allow accepts; the latter are recorded, entry by entry, in the order of their addresses; all else stays |
| DiversityFilter.Filter.Remove | peerdiversity/filter.go:119-135 | both maps forget the peer and each of its groups is decremented, in order |
| DiversityFilter.Filter.WhitelistPeers | peerdiversity/filter.go:194-201 | the peers join the whitelist |
| DiversityFilter.Filter.GetDiversityStats | peerdiversity/filter.go:238-261 | one entry for each prefix length on record, in strictly ascending order, with a copy of its map |
| DiversityFilter.StatsListRecords | peerdiversity/filter.go:238-261 | the entries list every recorded peer under its own prefix length with its groups, and nobody else |

## Left out

- The constants of bucket_prefixmap.go: they cannot be recomputed without SHA-256; the postcondition of the generator stands for them.
- SHA-256, multihash and the random source: any function and any bytes.
- IPGroupKey, the CIDR trie, ASN lookup and address parsing: each address of a peer comes as an abstract group key, or none, with the verdict of Allow.
- Locks, contexts and Close: each locked operation is one step; callbacks do not re-enter the table.
- Latency metrics and the clock: a verdict and a non-zero time per call.
- Logging, Print, the file output of the generator, and the plain pass-through methods GetDiversityStats and GenRandPeerID of the table.
- Key, Equal and Less of keyspace/keyspace.go beyond what the sort needs; two or more keys that are not of the space of the center, or shorter than it, are excluded by SortByDistance, because the source panics on them.
- container/list is a sequence field of the bucket: list elements and their links are not modelled.
- sort.Sort is an insertion sort by swaps; nothing relies on which of several equally far peers comes first.
- RoutingTable.RoutingTable.constructor: for a filter that already has peers on record, agreement of table and filter is not promised, because then the filter knows peers that are not resident.
- Bucket sizes below one, for which nextBucket would not terminate, and local identifiers that are not 32 bytes long, on which CommonPrefixLen panics in one of its two directions.
- RoutingTable.RoutingTable.NPeersForCpl: prefix lengths of 2^63 and more are excluded, because their conversion to int is negative and the source then indexes out of range.
- RoutingTable.RoutingTable.NearestPeers: keys longer than the local identifier and negative counts are excluded, because the source panics on them; counts for which count + bucketsize overflows int or cannot be allocated, on which the source panics too (table.go:457-460), are answered as if memory were unbounded.
- RoutingTable.RoutingTable.MarkAllPeersIrreplaceable: the update function of updateAllWith is a function on values; updates that keep references to records are not modelled.
