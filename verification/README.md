# A verified model of a delay-tolerant networking node

This project models the algorithmic core of the node in Dafny and proves what it
is for. It has four parts.

**Fragmentation, reassembly, delivery.** `Bundle7` predicts CBOR sizes,
`Fragmentation` cuts a bundle, `RoutePlanning` plans payload shares under a size
budget and splits along the plan. `KnownBundles`, `Reassembly` and
`BundleProcessor` are the receiving side, with `BundleMemory` for which bundles are
read and freed. `Delivery`, `MemorySafety` and `ExactlyOnce` are about whole runs: in
exactly which a freed bundle is used, and that in the others a bundle planned, split
and received in any order, with repetitions and other traffic, is delivered exactly
once with its content. `Bundle7Wire` is the serialiser, `Bundle7Reader` an independent
reader, and `CrcDivision`, `Crc`, `CrcTables` and `CrcStream` are the checksums and
their lookup tables against bit-serial division.

**Contact plan and routing index.** `Contacts` holds contacts and nodes behind
references. `Capacity` is about capacity accounting and routes. `ContactUnion` and
`ContactDifference` merge and filter contact lists, `ContactWindows` is about windows
through a merge. `HashTable` is a chained hash
table. `RoutingTable` specifies the operations, `RoutingOperations` performs them on
lists, memory and table. `RoutingIndex`, `RoutingRuns`, `RoutingUpdates` and
`RoutingHistory` prove when the index agrees with a scan of all nodes after every
run. `ContactManager` is the step that activates contacts.

**Codecs.** `Sdnv`, `Bundle6`, `Bundle6Parser`, `Bundle6RoundTrip`, `Bundle6Cbhe` and
`Bundle6Code` are BPv6; `Config`, `ConfigRoundTrip` and `ConfigCode` the configuration commands
printed in Python and parsed in C; `Aap`, `AapRoundTrip`, `AapCode` and `AapSession`
the application agent protocol.

**Receiving.** `RxTask` is the receive loop. That no octet is lost, doubled or out of
order is proved for any parser; that the meaning of a stream is kept, for any parser
whose streams have one, which may wait for more octets; that complete input is read to
its end, where a full buffer is enough for the parser to go on. `RxBundle6` puts the
BPv6 parser behind it and says what is sent.

Code that updates state in place is a class or a method with loops, proved against a
function of the old state; laws and run invariants are lemmas about these functions.
Strings are sequences of characters or octets, integers are unbounded and their
widths are written out where they matter, time and input are parameters, bundles
handed back for rescheduling are dropped. Contacts and nodes are records in a map
from references, so two lists share a contact by sharing its reference. Memory is
never given out twice.

## What turned out not to hold

- After "original already delivered" a fragment is freed and still linked into the
  reassembly list, since the branch does not return (`FreedButKept`). It is then used in
  the same call, and a run uses a freed bundle in exactly this way (`MisusedExactly`):
  when a fragment arrives for the first time after its original was delivered, or covers
  its whole ADU (`SafeExactly`, `FamilySafeExactly`). From there on a run has no defined
  meaning, so the results about what is delivered are about runs without such an event.
- The position of the reassembly check moves backwards at a nested fragment, so that
  complete coverage can go unnoticed (`NestedFragmentHidesCoverage`); `DeliveredExactly`
  says when.
- The early exit of the known-bundle search can miss an identity listed with another
  deadline (`SearchMissesExactly`, `SearchMisses`).
- The reflected fast path in Python does not reflect the start value, which matters
  for crc16_riello, crc16_tms37157 and crc16_a (`FastAgreesExactly`, `RielloDisagrees`).
- A negative remaining capacity is compared as a large unsigned number, so that an
  overbooked contact has room for every bundle (`FoundRouteFitsExactly`). Routing several
  fragments of a bundle overbooks a contact and leaves it so, because octets that went to
  a contact that is passed over are not counted (`PackingOverbooks`, `PackingExample`;
  fragments are smaller than the contacts where a maximum bundle size is set). A merge at
  a lower rate overbooks too (`MergeOverbooks`), though the routing table takes the
  bundles out again in the same call. Queueing one more bundle in an overbooked contact is
  a failed assertion where assertions are on (router.c:434).
- Taking a bundle out of a contact of infinite capacity reports failure
  (`RemovalReportsExactly`, `RemovalReportsFailure`).
- Merging contact lists without overlaps can make windows that overlap
  (`UnionApartExactly`, `UnionOverlaps`).
- With all places for active contacts taken, an ended contact before one that has not
  ended makes the shift read one place past the array (`RemoveExpiredContacts`,
  `TenContactsReadPast`).
- A bundle that is complete in the buffer behind another one is not parsed before the
  next read, and is lost when the link ends (`BundlesSent`, `OneOfTwoSent`). AAP
  messages wait in the same way (`MessagesHandled`, `SecondMessageWaits`).
- Merging a node retimes listed contacts in place without sorting the lists again. The
  index breaks exactly when they are then out of order (`AddKeepsIndexExactly`), and a
  contact can be listed twice (`ListedTwiceExactly`, `RetimedContactMisplaced`).
- BPv6 fragments without a dictionary are never parsed (`DictionarylessSentExactly`,
  `FragmentRefused`).
- An AAP message with an empty endpoint ID loses its payload (`RoundTripExactly`).
- Rates of 2^32 and more in a configuration command are truncated, and late times refuse
  the whole command (`PrintedComesBackExactly`).
- The predicted BPv7 size is too large where filtering flags shortens their field
  (`SizePredicted`, `FlagsShorten`).
- With a minimum payload of zero a plan can begin with an empty share
  (`PlanSharesPositive`, `EmptyFirstShare`). The minimum is 8 unless the build sets
  FRAGMENT_MIN_PAYLOAD (include/ud3tn/router.h:35).

Rounding a window of almost 2^64 ms would wrap (`InfiniteExactly`), but no window that a
command brings in, or a merge makes of such windows, is that long
(`AcceptedCountsExactly`, `UnionInPlan`).

## Model

| member | source | states |
|---|---|---|
| `Bundle7.Bundle.RecalculatePrimaryLength` | components/bundle7/bundle7.c:95-131 | sets the primary block length to the predicted size of the block, in 16 bits, and nothing else |
| `Bundle7.Bundle.GetSerializedSize` | components/bundle7/bundle7.c:156-171 | is the primary block length plus the sizes of all blocks plus the two framing octets |
| `Bundle7.Bundle.GetFirstFragmentMinSize` | components/bundle7/bundle7.c:192-242 | is the estimated size of a first fragment without payload, over all blocks |
| `Bundle7.Bundle.GetLastFragmentMinSize` | components/bundle7/bundle7.c:245-294 | is the estimated size of a later fragment without payload: replicated blocks only |
| `Bundle7.SizeWithinFirstMin` | components/bundle7/bundle7.c:156-242 | a fragment is never larger than its first-fragment minimum plus its payload |
| `Fragmentation.InitializeFirstFragment` | components/ud3tn/bundle_fragmenter.c:59-94 | fails exactly without a payload block, and otherwise copies the bundle with the fragment flag and its ADU length set |
| `Fragmentation.ReplicateBlocks` | components/bundle7/fragment.c:37-63 | collects exactly the blocks that must be replicated, in order |
| `Fragmentation.FragmentBundle` | components/bundle7/fragment.c:13-129 | the three outcomes: bound too low, cut not needed, or the working bundle shortened in place and a fresh remainder |
| `Fragmentation.SplitPayload` | components/bundle7/fragment.c:30-128 | shortens the working bundle and builds the remainder, both with recalculated lengths |
| `Fragmentation.CutKeepsBound` | components/bundle7/fragment.c:13-129 | a cut at a bound of at least the minimum size succeeds, keeps every payload octet in order, chains the offsets, and its first part serialises within the bound |
| `Fragmentation.FirstFragmentMinSize` | components/ud3tn/bundle_fragmenter.c:59-94 | turning a bundle into its first fragment does not change the estimate it was planned with |
| `Fragmentation.LastMinOfReplicated` | components/bundle7/bundle7.c:245-294 | the estimate for later fragments counts exactly the blocks that are replicated |
| `RoutePlanning.PlanShares` | components/ud3tn/router.c:197-248 | the planning loop computes the plan |
| `RoutePlanning.PlanFills` | components/ud3tn/router.c:221-248 | shares of a plan add up to the payload, all but the last fill their fragment, the last fits, and there are no more than the limit |
| `RoutePlanning.PlanSharesPositive` | components/ud3tn/router.c:197-248 | in a plan of two or more all shares are positive if and only if the maximum exceeds the first minimum size; a positive configured minimum payload implies it |
| `RoutePlanning.EmptyFirstShare` | components/ud3tn/router.c:221-244 | every bundle whose payload is longer than what the first fragment carries more than the others, and at most twice as long, is planned with an empty first share where no payload is demanded and the maximum is the first minimum size |
| `RoutePlanning.EmptyFirstShareExample` | components/ud3tn/router.c:221-244 | such a bundle: one block of eight octets that is not replicated and twelve octets of payload |
| `RoutePlanning.ApplyFragmentation` | components/ud3tn/router_task_legacy.c:83-124 | the splitting loop makes exactly the fragments of the specification, as fresh bundles |
| `RoutePlanning.RecomputedWithinEstimate` | components/ud3tn/router_task_legacy.c:99-124 | the minimum size recomputed for a remainder never exceeds the estimate of the plan |
| `RoutePlanning.FragmentsWithinBudget` | components/ud3tn/router_task_legacy.c:83-124 | for every plan of two or more: splitting yields between two and that many fragments, each within the maximum size, and they partition the payload into non-empty pieces if and only if the first fragment has room for payload |
| `Cbor.HeadRoundTrip` | components/bundle7/bundle7.c:26-47 | every CBOR head of section 3.1 of RFC 8949 is read back, whatever follows it |
| `Bundle7Wire.EidSizePredicted` | components/bundle7/bundle7.c:50-79 | the predicted size of an endpoint ID is the size of its octets, for all three encodings |
| `Bundle7Wire.PrimarySizePredicted` | components/bundle7/bundle7.c:95-131 | the predicted primary block size is the written one, up to the width of the flags that are filtered out |
| `Bundle7Wire.BlockSizePredicted` | components/bundle7/bundle7.c:134-153 | the predicted size of a block is the number of octets written for it |
| `Bundle7Wire.SizePredicted` | components/bundle7/bundle7.c:156-171 | the predicted bundle size is the number of octets written if and only if filtering the flags does not shorten their field; it is never too small |
| `Bundle7Wire.FlagsShorten` | components/bundle7/serializer.c:118-122 | a bundle with a flag that is not BPv7's, which is one octet shorter than predicted |
| `Bundle7Wire.FragmentsOnWireWithinBudget` | components/ud3tn/router_task_legacy.c:83-124 | every fragment of every plan of two or more can be written and is within the maximum size on the wire |
| `Bundle7Wire.WrittenCrcHolds` | components/bundle7/serializer.c:45-79 | every written CRC field passes the check of section 4.2.1 of RFC 9171 |
| `Bundle7Wire.InitCrc` | components/bundle7/serializer.c:101-108 | a fresh stream of the right kind, or none |
| `Bundle7Wire.FeedCrc` | components/bundle7/serializer.c:111-116 | the stream has been fed the buffer too, if there is one |
| `Bundle7Wire.WriteCrc` | components/bundle7/serializer.c:45-79 | appends the CRC of everything fed plus a zero CRC, in network byte order |
| `Bundle7Wire.SerializeBlock` | components/bundle7/serializer.c:216-263 | writes exactly the octets of the block |
| `Bundle7Wire.Serialize` | components/bundle7/serializer.c:124-272 | succeeds exactly for version 7 and endpoint IDs that can be written, and then writes exactly the octets of the bundle |
| `Bundle7Reader.WrittenBundleIsRead` | components/bundle7/serializer.c:124-272 | a reader written from section 4 of RFC 9171 finds every field and every block again, with every CRC correct |
| `CrcDivision.DownOctet` | components/ud3tn/crc.c:69-75 | eight steps of bit-serial division are one shift and one table entry |
| `CrcDivision.DivideMirror` | pyd3tn/pyd3tn/crc.py:137-176 | dividing reflected data upwards is the mirror image of dividing the data downwards |
| `CrcDivision.DivideInjective` | pyd3tn/pyd3tn/crc.py:178-205 | with an odd polynomial different start values never lead to the same register |
| `CrcDivision.DivideWide` | components/ud3tn/crc.c:266-280 | a narrower CRC in a wider register is the same CRC |
| `CrcDivision.DivideChunks` | components/ud3tn/crc.c:298-306 | dividing in chunks is dividing at once |
| `Crc.Reflect` | pyd3tn/pyd3tn/crc.py:48-61 | mirrors the low bits of a word |
| `Crc.CalculateTable` | pyd3tn/pyd3tn/crc.py:207-222 | every entry is the remainder of its index |
| `Crc.CalculateReflectedTable` | pyd3tn/pyd3tn/crc.py:224-244 | every entry is the remainder of its index under the reflected polynomial |
| `Crc.GenericPath` | pyd3tn/pyd3tn/crc.py:137-176 | the generic path computes the checksum of the published model, by bit-serial division |
| `Crc.FastReflected` | pyd3tn/pyd3tn/crc.py:178-205 | refuses exactly the models that are not reflected, and otherwise divides downwards from the unreflected start value |
| `Crc.TableDivide` | components/ud3tn/crc.c:82-95 | the table-driven loop is bit-serial division |
| `Crc.TableStep` | components/ud3tn/crc.c:69-75 | one table step is eight steps of division |
| `Crc.FastAgreesExactly` | pyd3tn/pyd3tn/crc.py:178-205 | for every input and odd polynomial the fast path agrees with the generic path if and only if the start value is its own mirror image |
| `Crc.FastAgreesOnAll` | pyd3tn/pyd3tn/crc.py:178-205 | it agrees on all inputs if and only if the start value is its own mirror image |
| `Crc.RielloDisagrees` | pyd3tn/pyd3tn/crc.py:276-276 | for the model crc16_riello it disagrees on every input |
| `CrcStream.CrcIsModelled` | components/ud3tn/crc.c:69-95 | the checksums of the C code are those of the published X.25 and CRC-32C models |
| `CrcTables.RowsRight` | components/ud3tn/crc.c:33-67 | the words of both literal tables: an entry at an odd place is the one before with entry one added, and one at an even place leads in one step to the entry at half the place |
| `CrcTables.TableCorrect` | components/ud3tn/crc.c:199-264 | each of the 256 entries of the literal tables is the remainder of its index by bit-serial division with the reflected polynomial |
| `CrcTables.WideTableCorrect` | components/ud3tn/crc.c:33-67 | so it is as 32-bit words, which the streams use |
| `CrcTables.ReflectedIsMirrored` | components/ud3tn/crc.c:20-32 | the words the tables divide by are the published polynomials, reflected |
| `CrcStream.OneShot` | components/ud3tn/crc.c:82-95 | the one-shot functions compute the checksum, with the literal tables |
| `CrcStream.Stream.constructor` | components/ud3tn/crc.c:309-329 | a stream starts with nothing fed |
| `CrcStream.Stream.Feed` | components/ud3tn/crc.c:69-75 | one octet more is fed |
| `CrcStream.Stream.FeedBytes` | components/ud3tn/crc.c:298-306 | a buffer more is fed; chunks do not matter |
| `CrcStream.Stream.FeedEof` | components/ud3tn/crc.c:77-80 | the field holds the checksum of everything fed |
| `KnownBundles.SearchKeepsOrder` | components/ud3tn/bundle_processor.c:1324-1366 | searching and recording keeps the list sorted by deadline |
| `KnownBundles.InsertKeepsOrder` | components/ud3tn/bundle_processor.c:1393-1421 | inserting keeps the list sorted by deadline |
| `KnownBundles.SearchAnswers` | components/ud3tn/bundle_processor.c:1324-1366 | where an identity fixes its deadline the early exit misses nothing: "known" exactly for listed entries |
| `KnownBundles.SearchKeeps` | components/ud3tn/bundle_processor.c:1324-1366 | a search adds only the searched entry and drops only expired ones |
| `KnownBundles.SearchMissesExactly` | components/ud3tn/bundle_processor.c:1324-1366 | without that, a listed identity is overlooked if and only if its first entry and the one before are listed with later deadlines |
| `KnownBundles.SearchMisses` | components/ud3tn/bundle_processor.c:1324-1366 | a list on which the search overlooks the identity and lists it again |
| `KnownBundles.ReassembledAnswers` | components/ud3tn/bundle_processor.c:1368-1391 | likewise the search for the original of a fragment |
| `Reassembly.CheckFragments` | components/ud3tn/bundle_processor.c:842-865 | the checking loop computes the check, and how many fragments it reads |
| `Reassembly.CopyFragments` | components/ud3tn/bundle_processor.c:884-912 | the copying loop never leaves the fragment or the buffer and computes the copy |
| `Reassembly.ReassemblySound` | components/ud3tn/bundle_processor.c:835-925 | whenever the check passes, for any overlaps and nesting and any memory content, the copied payload is the ADU |
| `Reassembly.DeliversExactlyWhenCovered` | components/ud3tn/bundle_processor.c:842-865 | without nesting the check passes if and only if every octet has arrived |
| `Reassembly.DeliveredExactly` | components/ud3tn/bundle_processor.c:842-865 | for any overlaps and nesting: the check passes if and only if every octet has arrived and, before one reaches the end, no fragment starts behind the end of the one directly in front of it |
| `Reassembly.NestedFragmentHidesCoverage` | components/ud3tn/bundle_processor.c:842-865 | three fragments that cover an ADU and do not pass the check, because its position moves backwards |
| `BundleProcessor.AddToReassemblyBundleList` | components/ud3tn/bundle_processor.c:803-833 | inserts a fragment by offset, and at which place |
| `BundleProcessor.Processor.RecordAddAndCheckKnown` | components/ud3tn/bundle_processor.c:1324-1366 | answers and updates the known list as specified |
| `BundleProcessor.Processor.ReassembledIsKnown` | components/ud3tn/bundle_processor.c:1368-1391 | answers whether the original of a fragment is listed |
| `BundleProcessor.Processor.AddReassembledAsKnown` | components/ud3tn/bundle_processor.c:1393-1421 | lists the original of a fragment |
| `BundleProcessor.Processor.TryReassembleSlot` | components/ud3tn/bundle_processor.c:835-925 | delivers and empties a complete slot, and changes nothing otherwise; which bundles it reads and frees |
| `BundleProcessor.Processor.SlotFor` | components/ud3tn/bundle_processor.c:946-959 | the first slot that belongs to the bundle, and that it and the first fragment of each slot up to there are read |
| `BundleProcessor.Processor.Link` | components/ud3tn/bundle_processor.c:803-980 | puts the fragment into its slot or a new one |
| `BundleProcessor.Processor.AttemptReassemblyOf` | components/ud3tn/bundle_processor.c:927-980 | the whole step for a fragment: after a delivered original it is freed and linked all the same, since the branch does not return; the state of the lists and of the memory, with every use of a freed bundle |
| `BundleProcessor.Processor.DeliverLocal` | components/ud3tn/bundle_processor.c:707-792 | the whole step for an arriving bundle, lists and memory |
| `Delivery.KnownExactlyWhenRecorded` | components/ud3tn/bundle_processor.c:1324-1421 | over every run: "known" exactly for bundles that expired or whose identity was recorded before |
| `Delivery.WholeBundleDeliveredOnce` | components/ud3tn/bundle_processor.c:707-792 | over every run: an unfragmented bundle is not delivered after an ADU of its identity was |
| `Delivery.BundlesAccounted` | components/ud3tn/bundle_processor.c:927-980 | over every run up to and including the first event at which a freed bundle is linked: each arrival is held once or was freed once, except that bundle, which counts twice |
| `Delivery.DeliveredWasSent` | components/ud3tn/bundle_processor.c:707-980 | over every run in which no freed bundle is linked, with any overlapping, nested, repeated and late fragments: if all arrivals with a key carry the same ADU, everything delivered for the key is this ADU |
| `MemorySafety.MisusedExactly` | components/ud3tn/bundle_processor.c:707-980 | over every run: a bundle is read or freed after it was freed if and only if a freed bundle was linked, and in all other runs each arrival is at exactly one place of the reassembly list or freed, never both and never neither |
| `MemorySafety.RunDenotes` | components/ud3tn/bundle_processor.c:803-833 | over every run: the references in the reassembly list are, place by place, those of the fragments there |
| `MemorySafety.KeptExactly` | components/ud3tn/bundle_processor.c:927-945 | over every run in which identities fix deadlines and the clock does not run backwards: an arrival is freed and linked if and only if it is a fragment in time, not recorded before, whose original was recorded or that is all of its ADU |
| `MemorySafety.SafeExactly` | components/ud3tn/bundle_processor.c:707-980 | so such a run never uses a freed bundle if and only if it has no such arrival |
| `ExactlyOnce.FamilySafeExactly` | components/ud3tn/bundle_processor.c:927-980 | over every run, for the fragments of one ADU among copies of the whole bundle and other traffic that is safe: a freed bundle is used if and only if a fragment arrives for the first time after a copy of the whole bundle |
| `ExactlyOnce.DeliveriesOfAdu` | components/ud3tn/bundle_processor.c:707-980 | over every run in which no freed bundle is linked, interleaved with anything: exactly what is delivered of a fragmented ADU, from a copy of the whole bundle or from the fragments, and never twice |
| `ExactlyOnce.FreedButKept` | components/ud3tn/bundle_processor.c:927-980 | a bundle and then its first fragment: the fragment is freed, is in the reassembly list, and was used there |
| `ExactlyOnce.DeliveredExactlyOnce` | components/ud3tn/bundle_processor.c:794-980 | without whole copies and with safe other traffic no freed bundle is used, and the ADU is delivered exactly once, with its content, in runs where every fragment has arrived, and never in others |
| `ExactlyOnce.PartitionIsFamily` | components/ud3tn/router_task_legacy.c:83-155 | the fragments the router makes cut the payload into consecutive pieces |
| `ExactlyOnce.FragmentedBundleDeliveredOnce` | components/ud3tn/router_task_legacy.c:83-155 | end to end: planned, split, received in any order, repeated, with copies of the whole bundle that no new fragment follows and other traffic that is safe, no freed bundle is used and the payload is delivered exactly once |
| `EndpointList.AddEndpoint` | components/ud3tn/node.c:122-156 | inserts by address unless the string is there |
| `EndpointList.RemoveEndpoint` | components/ud3tn/node.c:158-178 | drops the first entry with the string |
| `EndpointList.UnionEndpoints` | components/ud3tn/node.c:193-204 | adds entry by entry |
| `EndpointList.DifferenceEndpoints` | components/ud3tn/node.c:206-219 | removes entry by entry |
| `EndpointList.UnionMeans` | components/ud3tn/node.c:193-204 | the names are the union of the names; distinctness and order are kept |
| `EndpointList.DifferenceMeans` | components/ud3tn/node.c:206-219 | the names are the difference of the names; distinctness and order are kept |
| `Contacts.Heap.RecalculateContactCapacity` | components/ud3tn/node.c:501-531 | sets total and remaining capacities of this contact as specified, in 32- and 64-bit arithmetic |
| `Contacts.Heap.AddBundleToContact` | components/ud3tn/router.c:425-467 | queues and charges a bundle that is not queued yet |
| `Contacts.Heap.RemoveBundleFromContact` | components/ud3tn/router.c:469-505 | takes a bundle out and gives its size back; in an infinite contact it reports failure |
| `Contacts.Unqueue` | components/ud3tn/router.c:477-504 | the search loop takes out the first entry, or all of them where capacity is infinite |
| `Capacity.CapacityConserved` | components/ud3tn/router.c:425-505 | through every interleaving of queueing, unqueueing and retiming of a finite contact, what remains at each priority is the total without the bundles at and above it, so p0 <= p1 <= p2 |
| `Capacity.RemovalReportsExactly` | components/ud3tn/router.c:469-505 | taking a bundle out takes exactly this bundle out of the queue, and reports success if and only if it was queued and the capacity is finite |
| `Capacity.RemovalReportsFailure` | components/ud3tn/router.c:477-504 | a contact of infinite capacity whose only bundle is taken out and reported as missing |
| `Capacity.DivisionTest` | components/ud3tn/node.c:513-519 | the division test detects exactly the products that wrap |
| `Capacity.InfiniteExactly` | components/ud3tn/node.c:510-525 | capacity counts as infinite exactly when the true product reaches INT32_MAX, if and only if rounding the window does not wrap (or the rate is zero) |
| `Capacity.ScalingDoesNotWrap` | components/ud3tn/node.c:533-557 | for finite windows below 2^33 ms the scaling does not wrap and its result fits |
| `Capacity.RemainingShrinksExactly` | components/ud3tn/node.c:533-557 | what is left never grows with time if and only if the contact is not overbooked |
| `Capacity.CalculateFragmentRoute` | components/ud3tn/router.c:131-178 | the route loop computes the route |
| `Capacity.RouteIsFirstFit` | components/ud3tn/router.c:180-195 | for a whole bundle it is the first usable contact with room, and none exactly if there is none |
| `Capacity.FoundRouteFitsExactly` | components/ud3tn/router.c:153-176 | a found contact has room if and only if it is not overbooked, and then queueing keeps p0 non-negative |
| `Capacity.RouteFragments` | components/ud3tn/router.c:250-275 | the loop over the fragments of a bundle computes their routes, and succeeds if and only if each has one |
| `Capacity.PackingOverbooks` | components/ud3tn/router.c:250-275 | wherever the second of three fragments is passed over the first contact, and the third is taken to fit behind it in the second contact where it does not: both are routed there and queued, the contact is overbooked, and then has room for everything |
| `Capacity.PackingExample` | components/ud3tn/router.c:250-275 | two contacts and three fragments for which this is so |
| `ContactUnion.MergeContacts` | components/ud3tn/node.c:284-302 | merges a candidate into a contact in place and reports a changed capacity |
| `ContactUnion.PlaceEarlier` | components/ud3tn/node.c:327-360 | the first inner loop |
| `ContactUnion.AbsorbOverlapping` | components/ud3tn/node.c:362-387 | the second inner loop |
| `ContactUnion.ContactListUnion` | components/ud3tn/node.c:304-396 | list, contacts in memory and the modified list are those of the specification |
| `ContactUnion.MergeCovers` | components/ud3tn/node.c:284-302 | merging overlapping contacts is open exactly when one was and reaches exactly their endpoints |
| `ContactUnion.UnionLists` | components/ud3tn/node.c:304-396 | the union keeps every contact of the first list, lists nothing else than both lists, and changes no other contact |
| `ContactUnion.UnionSound` | components/ud3tn/node.c:304-396 | of two lists of one node, strictly sorted by start with non-empty windows, it is such a list again |
| `ContactUnion.UnionCovers` | components/ud3tn/node.c:304-396 | it is open exactly when one of the lists is, and reaches exactly their endpoints |
| `ContactUnion.UnionGrows` | components/ud3tn/node.c:304-396 | no contact loses endpoints or changes its node |
| `ContactWindows.UnionRetimesNothing` | components/ud3tn/node.c:304-396 | if every candidate lies inside each contact it overlaps, no window changes |
| `ContactWindows.UnionApartExactly` | components/ud3tn/node.c:304-396 | the windows of the union of two lists without overlaps are free of overlaps if and only if no candidate overlaps two contacts of the first list |
| `ContactWindows.UnionOverlaps` | components/ud3tn/node.c:327-387 | two such lists whose union has overlapping windows |
| `ContactWindows.InfiniteInPlan` | components/ud3tn/node.c:510-525 | for windows a command can bring in, capacity counts as infinite exactly when the true product reaches INT32_MAX |
| `ContactWindows.AcceptedCountsExactly` | components/ud3tn/node.c:510-525 | so it is for every contact of every command the parser hands over, whatever it was sent |
| `ContactWindows.UnionInPlan` | components/ud3tn/node.c:284-396 | merging such contacts makes such contacts |
| `ContactWindows.MergeOverbooks` | components/ud3tn/node.c:294-298 | a booked contact that a merge at a lower rate overbooks, and that then has room for everything |
| `ContactDifference.ContactListDifference` | components/ud3tn/node.c:398-451 | list, contacts in memory, modified and deleted lists are those of the sweep |
| `ContactDifference.DifferenceIsFilter` | components/ud3tn/node.c:398-451 | on strictly sorted lists the sweep is the plain filter: which contacts stay, are deleted or trimmed, in which order, and what they lose |
| `ContactDifference.TrimmedLosesExactly` | components/ud3tn/node.c:432-442 | a trimmed contact keeps its window and loses exactly the endpoints of the candidate |
| `ContactOrder.AddContactToOrderedList` | components/ud3tn/node.c:569-600 | inserts in order unless the contact is met first |
| `ContactOrder.RemoveContactFromList` | components/ud3tn/node.c:602-623 | drops the contact |
| `ContactOrder.InsertMeans` | components/ud3tn/node.c:569-600 | an ordered list without duplicates stays one, with the contact in it |
| `ContactOrder.RemoveMeans` | components/ud3tn/node.c:602-623 | an ordered list without duplicates stays one, without the contact |
| `ContactOrder.InsertedOrder` | components/ud3tn/node.c:569-600 | insertion puts no list in order that is not |
| `ContactOrder.ListedTwiceExactly` | components/ud3tn/node.c:569-600 | adding a listed contact again lists it twice if and only if one in front of it has a greater key, as after retiming in place |
| `HashTable.Htab.constructor` | components/ud3tn/simplehtab.c:19-35 | an empty map, for any hash function |
| `HashTable.Htab.Search` | components/ud3tn/simplehtab.c:87-120 | the position of a key in its chain |
| `HashTable.Htab.Get` | components/ud3tn/simplehtab.c:165-189 | looks up in the map |
| `HashTable.Htab.Add` | components/ud3tn/simplehtab.c:122-163 | adds to the map, refuses a key that is there |
| `HashTable.Htab.Remove` | components/ud3tn/simplehtab.c:217-252 | removes from the map |
| `RoutingOperations.Tables.constructor` | components/ud3tn/routing_table.c:22-31 | empty lists and an empty table |
| `RoutingOperations.Tables.FindNode` | components/ud3tn/routing_table.c:49-72 | finds the node with an endpoint ID |
| `RoutingOperations.Tables.LookupEid` | components/ud3tn/routing_table.c:84-87 | the entry of an endpoint ID |
| `RoutingOperations.Tables.AddContactToNodeInHtab` | components/ud3tn/routing_table.c:367-390 | enters a contact under an endpoint ID and counts it |
| `RoutingOperations.Tables.RemoveContactFromNodeInHtab` | components/ud3tn/routing_table.c:392-413 | takes it out, with the entry when it was the last |
| `RoutingOperations.Tables.EnterNode` | components/ud3tn/routing_table.c:293-319 | enters all contacts of a node in both indexes |
| `RoutingOperations.Tables.LeaveNode` | components/ud3tn/routing_table.c:321-365 | takes them out of both, and lets active ones go when the node is dropped |
| `RoutingOperations.Tables.DrainContact` | components/ud3tn/routing_table.c:502-520 | empties the queue of a contact |
| `RoutingOperations.Tables.MergeInto` | components/ud3tn/routing_table.c:149-188 | merges a node into a listed one |
| `RoutingOperations.Tables.RemoveFrom` | components/ud3tn/routing_table.c:255-280 | removes endpoints and contacts from a listed node |
| `RoutingOperations.Tables.RoutingTableAddNode` | components/ud3tn/routing_table.c:115-193 | the whole new state |
| `RoutingOperations.Tables.RoutingTableReplaceNode` | components/ud3tn/routing_table.c:195-211 | the whole new state |
| `RoutingOperations.Tables.RoutingTableDeleteNodeByEid` | components/ud3tn/routing_table.c:213-231 | the whole new state |
| `RoutingOperations.Tables.RoutingTableDeleteNode` | components/ud3tn/routing_table.c:233-288 | the whole new state |
| `RoutingOperations.Tables.RoutingTableDeleteContact` | components/ud3tn/routing_table.c:426-463 | the whole new state |
| `RoutingOperations.Tables.RoutingTableContactPassed` | components/ud3tn/routing_table.c:465-498 | the whole new state |
| `RoutingIndex.AddContactsMeans` | components/ud3tn/routing_table.c:293-319 | entering contacts adds exactly their pairs of endpoint ID and contact |
| `RoutingIndex.RemoveContactsMeans` | components/ud3tn/routing_table.c:321-365 | taking contacts out removes exactly their pairs |
| `RoutingRuns.EnterKeeps` | components/ud3tn/routing_table.c:293-319 | entering a node completes an index of the others |
| `RoutingRuns.LeaveKeeps` | components/ud3tn/routing_table.c:321-365 | taking a node out leaves the index of the others |
| `RoutingHistory.AddKeepsIndexExactly` | components/ud3tn/routing_table.c:115-193 | adding a node keeps the index equal to the scan if and only if the lists, as they are before the call, are in the order of the windows the merge gives |
| `RoutingHistory.RetimingNothingLeavesOrder` | components/ud3tn/routing_table.c:137-193 | that holds wherever the merge retimes no contact |
| `RoutingHistory.InsideLeavesOrder` | components/ud3tn/routing_table.c:137-193 | it holds wherever every given window lies inside each listed one of the node that it overlaps |
| `RoutingHistory.RetimedContactMisplaced` | components/ud3tn/routing_table.c:137-193 | a run that adds two nodes, and a third one whose addition then breaks the index |
| `RoutingUpdates.MergeKeepsOnly` | components/ud3tn/routing_table.c:293-319 | entering a node puts no list in order that is not |
| `RoutingHistory.ReplaceKeepsIndex` | components/ud3tn/routing_table.c:195-211 | replacing keeps it |
| `RoutingHistory.DeleteByEidKeepsIndex` | components/ud3tn/routing_table.c:213-231 | deleting a node keeps it |
| `RoutingHistory.DeleteKeepsIndex` | components/ud3tn/routing_table.c:233-288 | deleting endpoints and contacts keeps it |
| `RoutingHistory.PassedKeepsIndex` | components/ud3tn/routing_table.c:426-498 | a passed contact keeps it |
| `RoutingHistory.LookupIsScan` | components/ud3tn/routing_table.c:115-463 | after every run whose merges leave the lists in order, an entry holds exactly the contacts a scan of all nodes finds, once each, by end time, with their number as reference count; no entry without contacts |
| `RoutingHistory.ContactListIsScan` | components/ud3tn/routing_table.c:115-463 | after every such run the global list is all contacts of all nodes, once each, by start time |
| `ContactManager.Manager.ShiftLeft` | components/ud3tn/contact_manager.c:78-83 | moves the contacts behind a place up by one |
| `ContactManager.Manager.RemoveExpiredContacts` | components/ud3tn/contact_manager.c:62-88 | keeps exactly the contacts that have not ended, in order, reports the others, and reads past the array if and only if all places are taken, the last contact has not ended and another one has |
| `ContactManager.Manager.CheckUpcoming` | components/ud3tn/contact_manager.c:90-131 | activates a contact that is not active if there is room |
| `ContactManager.Manager.ProcessUpcomingList` | components/ud3tn/contact_manager.c:133-170 | the loop computes active contacts, next time and what was added |
| `ContactManager.Manager.CheckForContacts` | components/ud3tn/contact_manager.c:279-299 | both parts of the step: active contacts, next time, flags in memory, and what to announce |
| `ContactManager.TenContactsReadPast` | components/ud3tn/contact_manager.c:62-88 | ten contacts that all become active in one step, after which ending the first reads past the array |
| `ContactManager.StepAchieves` | components/ud3tn/contact_manager.c:62-170 | after every step: active contacts are distinct and have not ended, active contacts stay until they end, every open contact is active unless all places are taken, and the next time is the earliest future start or end of any listed contact |
| `ContactManager.NextIsLater` | components/ud3tn/contact_manager.c:299-299 | the asserted fact: the next time is in the future |
| `Sdnv.SizeIsGroupCount` | components/bundle6/sdnv.c:105-159 | at every width the size is the number of seven-bit groups |
| `Sdnv.Write` | components/bundle6/sdnv.c:161-204 | fills the buffer with the encoding, from the last octet to the first |
| `Sdnv.RoundTrip` | components/bundle6/sdnv.c:16-204 | at every width reading inverts writing, whatever the field held |
| `Bundle6Code.CalculateDict` | components/bundle6/bundle6.c:121-229 | offsets and length of the dictionary |
| `Bundle6Code.SerializeDictionary` | components/bundle6/bundle6.c:14-74 | writes the dictionary |
| `Bundle6Code.SerializeBlock` | components/bundle6/serializer.c:101-127 | writes the octets of a block |
| `Bundle6Code.Serialize` | components/bundle6/serializer.c:30-133 | writes exactly the octets of the bundle |
| `Bundle6Code.Machine.constructor` | components/bundle6/parser.c:14-68 | the parser at its start |
| `Bundle6Code.Machine.Next` | components/bundle6/parser.c:204-362 | enters a stage |
| `Bundle6Code.Machine.ReadNumber` | components/bundle6/parser.c:370-388 | reads an octet of an SDNV into the field of its stage |
| `Bundle6Code.Machine.Byte` | components/bundle6/parser.c:390-669 | reads an octet |
| `Bundle6Code.Machine.BulkRead` | components/bundle6/parser.c:679-683 | goes on after a bulk read |
| `Bundle6Code.Machine.Read` | components/bundle6/parser.c:671-716 | consumes as much of a buffer as specified |
| `Bundle6Parser.ConsumeSplit` | components/bundle6/parser.c:671-716 | what is left of a buffer, presented again in front of more, gives what one buffer would have given |
| `Bundle6Parser.ChunkingDoesNotMatter` | components/bundle6/parser.c:671-716 | any chunking of a stream leads to the same parser |
| `Bundle6RoundTrip.SdnvRead` | components/bundle6/parser.c:370-388 | a written number is read into its field at every stage, within the octets left of the primary block |
| `Bundle6RoundTrip.EntryRead` | components/bundle6/parser.c:124-151 | the dictionary offsets point at the written strings |
| `Bundle6RoundTrip.SerialisedIsParsed` | components/bundle6/parser.c:204-716 | parsing what was serialised sends the bundle back, for any number of blocks and whatever follows |
| `Bundle6RoundTrip.SerialisedIsParsedInChunks` | components/bundle6/parser.c:671-716 | so it does in any chunks, with bulk reads across them |
| `Bundle6RoundTrip.IdentityExactly` | components/bundle6/serializer.c:48-94 | the bundle itself comes back if and only if it has RFC 5050 flags, endpoint IDs with a scheme, times in full seconds and no stray fragment fields |
| `Bundle6RoundTrip.HeaderOverCounts` | components/bundle6/bundle6.c:231-275 | the recalculated length exceeds what is left of the primary block by exactly version, flags and length field |
| `Bundle6RoundTrip.RecalculatedCovers` | components/bundle6/bundle6.c:231-280 | so it is enough for the parser, unless the sum needs more than 16 bits |
| `Bundle6Cbhe.DictionarylessParsed` | components/bundle6/parser.c:204-716 | octets of a bundle without a dictionary, with any blocks and whatever follows: it is sent with the endpoint IDs its numbers stand for, or it is a fragment and ends in an error with nothing sent |
| `Bundle6Cbhe.DictionarylessSentExactly` | components/bundle6/parser.c:253-294 | such a bundle with a payload is sent if and only if it is not a fragment |
| `Bundle6Cbhe.FragmentRefused` | components/bundle6/parser.c:253-294 | 21 octets of such a fragment, which are refused |
| `ConfigRoundTrip.DigitsMean` | components/agents/config_parser.c:152-182 | a printed number is read back |
| `ConfigRoundTrip.EndpointsRead` | components/agents/config_parser.c:295-323 | any number of reachable endpoints is read in order, reduced to node IDs |
| `ConfigRoundTrip.ContactsRead` | components/agents/config_parser.c:340-396 | any number of contacts is read in order, with times in milliseconds |
| `ConfigRoundTrip.PrintedIsParsed` | python-ud3tn-utils/ud3tn_utils/config.py:94-125 | every permitted message is parsed into exactly one command with the same type, address and lists, times multiplied by 1000, rates in 32 bits and endpoint IDs reduced by get_node_id |
| `ConfigRoundTrip.PrintedIsParsedInChunks` | components/agents/config_parser.c:475-496 | so it is in any chunks |
| `ConfigRoundTrip.LateMessageRefused` | components/agents/config_parser.c:351-382 | a printed message with such a time anywhere is refused as a whole |
| `ConfigRoundTrip.PrintedComesBackExactly` | python-ud3tn-utils/ud3tn_utils/config.py:94-125 | a printed message comes back as it was meant if and only if all times are below UINT64_MAX / 1000 and all rates below 2^32 |
| `ConfigRoundTrip.AcceptedWindows` | components/agents/config_parser.c:351-396 | whatever octets come in, every contact handed over has its times well below 2^64 ms and a rate of 32 bits |
| `ConfigCode.Reader.constructor` | components/agents/config_parser.c:530-544 | the parser at its start |
| `ConfigCode.Reader.Reset` | components/agents/config_parser.c:498-528 | back to the start, with nothing of the command left |
| `ConfigCode.Reader.HeadStep` | components/agents/config_parser.c:203-284 | the stages up to the list of endpoints |
| `ConfigCode.Reader.NodesStep` | components/agents/config_parser.c:285-331 | the stages of the list of endpoints |
| `ConfigCode.Reader.NumbersStep` | components/agents/config_parser.c:351-396 | the stages of the numbers of a contact |
| `ConfigCode.Reader.ContactsStep` | components/agents/config_parser.c:332-451 | the other stages of the list of contacts |
| `ConfigCode.Reader.Byte` | components/agents/config_parser.c:455-473 | reads a character |
| `ConfigCode.Reader.Read` | components/agents/config_parser.c:475-496 | reads a buffer, and resets on an error |
| `RxTask.Input.Read` | components/cla/cla_contact_rx_task.c:361-367 | what a read gives and leaves |
| `RxTask.Task.constructor` | components/cla/cla_contact_rx_task.c:407-412 | an empty buffer and a parser at its start |
| `RxTask.Task.BufferRead` | components/cla/cla_contact_rx_task.c:145-183 | the whole new state: what the parser took, how it ended, and what is left of the buffer |
| `RxTask.Task.BulkRead` | components/cla/cla_contact_rx_task.c:199-344 | the whole new state |
| `RxTask.Task.ChunkRead` | components/cla/cla_contact_rx_task.c:353-405 | the whole new state |
| `RxTask.Task.OneRound` | components/cla/cla_contact_rx_task.c:414-477 | the whole new state, with the parser good and room in the buffer |
| `RxTask.Task.Run` | components/cla/cla_contact_rx_task.c:407-480 | so for any number of rounds |
| `RxTask.RoundKeepsOctets` | components/cla/cla_contact_rx_task.c:414-477 | for every parser, also one that waits for more octets: in a round in which no read fails or comes late and that does not end with a full buffer, the octets handed on, those in the buffer and those to come stay the same sequence, and each octet handed on stays with its parser |
| `RxTask.RoundsKeepOctets` | components/cla/cla_contact_rx_task.c:407-480 | so through any number of such rounds |
| `RxTask.RoundLoses` | components/cla/cla_contact_rx_task.c:249-405 | what exactly each of the other rounds loses: a late chunk what the parser had taken since it was reset, a failed read also the buffer, a bulk read that gives up also what was gathered, a stuck buffer its 64 octets |
| `RxTask.WaitingParserMeans` | components/cla/cla_contact_rx_task.c:171-178 | a parser that takes nothing until two octets are there meets all laws |
| `RxTask.RoundKeepsMeaning` | components/cla/cla_contact_rx_task.c:414-477 | for every parser that reads streams to a meaning, waiting or not: such a round keeps what the stream is read to |
| `RxTask.RoundStartsAnew` | components/cla/cla_contact_rx_task.c:249-405 | in exactly the other rounds the parser starts anew: behind a late chunk with the buffer as it is, otherwise with nothing |
| `RxTask.RoundsKeepMeaning` | components/cla/cla_contact_rx_task.c:407-480 | where a full buffer is always enough for the parser to go on: complete input without failures keeps its meaning through any number of rounds; no read fails and no buffer is stuck |
| `RxTask.AllEndedExactly` | components/cla/cla_contact_rx_task.c:407-480 | for the same parsers: when nothing is left to do, everything was parsed if and only if the buffer is empty |
| `RxBundle6.ParserMeans` | components/cla/cla_contact_rx_task.c:112-139 | the BPv6 parser behind the version choice reads streams as the loop asks of a parser |
| `RxBundle6.WiresMean` | components/cla/cla_contact_rx_task.c:112-183 | a stream of serialised bundles is read to exactly these bundles, in order |
| `RxBundle6.Receive` | components/cla/cla_contact_rx_task.c:407-480 | the loop on a link, for any number of rounds |
| `RxBundle6.BundlesSentInOrder` | components/cla/cla_contact_rx_task.c:407-480 | bundles that come in without failures or late reads, in whatever chunks: at any time the loop has sent the first of them, in order, and nothing else |
| `RxBundle6.BundlesSent` | components/cla/cla_contact_rx_task.c:407-480 | when nothing is left to do, all were parsed if and only if the buffer is empty, and then exactly these bundles were sent, in order |
| `RxBundle6.SecondBundleLost` | components/cla/cla_contact_rx_task.c:160-166 | of two bundles that come in one chunk the second waits for another read, and is lost when the link ends |
| `RxBundle6.OneOfTwoSent` | components/cla/cla_contact_rx_task.c:160-166 | two bundles of 26 octets, one of which is sent |
| `AapCode.WriteToBuffer` | components/aap/aap_serializer.c:104-110 | writes at the position, which moves on |
| `AapCode.PutUint64Means` | components/aap/aap_serializer.c:12-22 | the eight shifts are the big-endian form |
| `AapCode.SerializeInto` | components/aap/aap_serializer.c:56-118 | writes exactly the octets of the message, as many as announced |
| `AapCode.Reader.constructor` | components/aap/aap_parser.c:208-224 | the parser at its start |
| `AapCode.Reader.ParseStage` | components/aap/aap_parser.c:44-205 | the stage functions |
| `AapCode.Reader.Read` | components/aap/aap_parser.c:237-258 | consumes as much of a buffer as specified |
| `AapRoundTrip.ConsumeSplit` | components/aap/aap_parser.c:237-258 | what is left of a buffer, presented again in front of more, gives what one buffer would have given |
| `AapRoundTrip.SerialisedIsParsed` | components/aap/aap_parser.c:44-258 | a valid message is read back and exactly its announced size is consumed |
| `AapRoundTrip.EmptyEidStops` | components/aap/aap_parser.c:84-108 | with an empty endpoint ID the parser stops before the payload |
| `AapRoundTrip.RoundTripExactly` | components/agents/posix/application_agent.c:409-452 | for every chunking a valid message comes back if and only if no empty endpoint ID is followed by a payload |
| `AapSession.ReceiveAllKeeps` | components/agents/posix/application_agent.c:409-452 | any chunks of a stream are read to what the stream is read to, with at most one message per receive |
| `AapSession.MessagesHandled` | components/agents/posix/application_agent.c:409-452 | of messages that come in, in whatever chunks, the first are handled, in order, and all of them if and only if the buffer is empty |
| `AapSession.SecondMessageWaits` | components/agents/posix/application_agent.c:432-451 | two messages in one chunk, the second of which waits for another receive |

## Left out

- Bundle7Wire.Serialize: does not say which octets were handed to the write callback before an endpoint ID was refused; the encoder is modelled by the octets it produces, and checksums are written out as on a little-endian host.
- RoutePlanning.ApplyFragmentation: without scheduling the fragments and undoing it (router_task_legacy.c:126-147). An empty first share is modelled as an empty payload; in the source its buffer is reallocated to size zero, which may end in a failed assertion.
- Delivery.BundlesAccounted: says nothing after a freed bundle was linked, since the source then reads memory that is no longer there; `MisusedExactly` says when that is.
- Delivery.DeliveredWasSent: the same.
- BundleProcessor.Processor.AttemptReassemblyOf: after a freed bundle was linked the lists keep its old content; what the source reads there is not defined. That it is used is recorded.
- ExactlyOnce.FragmentedBundleDeliveredOnce: the same as for `DeliveriesOfAdu`; what a run with a late fragment delivers is not defined.
- ExactlyOnce.DeliveriesOfAdu: is stated for runs in which no freed bundle is linked (`FamilySafeExactly` says which these are), and for one fragmentation whose fragments arrive before their deadline, with arbitrary other bundles; for several fragmentations and late fragments `DeliveredWasSent` says that nothing else is delivered, not when.
- ExactlyOnce.DeliveredExactlyOnce: the same.
- BundleProcessor.Processor.DeliverLocal: without agents that are missing or fail.
- Contacts.Heap.AddBundleToContact: without the assertion that capacity is left (router.c:434).
- ContactManager.Manager.ShiftLeft: has one place more than the source's array, so that the value read past it is arbitrary.
- Capacity.CapacityConserved: is stated while the queued bundles stay below 2^31 octets and no retiming makes the capacity infinite; making it infinite forgets the charges.
- RoutingHistory.LookupIsScan: is stated for runs whose merges leave the lists in order; `AddKeepsIndexExactly` shows that no other merge keeps the index.
- RoutingOperations.Tables.RoutingTableAddNode: wants the new contacts not to be listed already, as they come from freshly parsed memory.
- ContactDifference.ContactListDifference: only with lists for deleted and modified contacts, as the routing table calls it.
- ContactManager.Manager.CheckForContacts: without handing bundles and contacts over to other tasks.
- Capacity.CalculateFragmentRoute: does not count the contacts where preemption would help.
- Bundle6Code.Serialize: is stated for blocks without endpoint references.
- Bundle6RoundTrip.SerialisedIsParsed: is stated for blocks without endpoint references, whose serialisation indexes the wrong entries; the parser's stages for them are modelled.
- Memory exhaustion, reuse of memory, freeing of anything but the bundles in local delivery, logging, semaphores, queues and the bundle store.
- The availability of agents in local delivery, custody, status reports and the text of reports.
- The BPv7 parser and everything else that depends on the CBOR library's iterators.
- The CRC-16 CCITT-FALSE variant and its table.
- The choice of BPv7 in the receive loop, and convergence layers with parsers of their own in front.
- The choice of the fragment size by the router, and reuse of routes.
- BPv6 fragmentation and predicted BPv6 sizes beyond the header length.
- How expiration times are computed: a deadline is part of an arriving bundle.
- Behaviour of `atoi` on numbers that do not fit an int in the unused reliability field.
