# Verified models of the recursor's data structures and codecs

This project models, in Dafny, the hand-written data structures and codecs of the PowerDNS Recursor
whose correctness is not obvious from reading one function, and proves what they are for.

* **NetmaskTree** (`PatriciaTrie`, `PatriciaOrder`, `PatriciaLinks`, `PatriciaErase`, `NetmaskKey`,
  `NetmaskTree`, `Words`, `Netmask`, `NetmaskRuns`). The pointer-based Patricia trie with parent links,
  lazily kept bit counts, a left-most pointer and a size counter is a heap structure here too; every
  operation is proved to be the operation on a plain map from prefixes to values.
* **Name compression** (`DnsName`, `PacketName`, `NameParser`, `NameIndex`, `NameLookup`, `PacketFrame`,
  `PacketWriter`, `PacketWalk`, `WriterTheorems`). The packet writer with its index of name positions,
  and the recursive parser that follows pointers (section 4.1.4 of RFC 1035). Whatever is written after
  whatever, every name reads back at any later time, and no name that a pointer can reach is written
  again where its ending would do.
* **Canonical order and the aggressive NSEC cache** (`CanonicalOrder`, `PositionArrays`, `NsecZone`,
  `NsecOrder`, `NsecCache`, `NsecHistory`, `Trimming`, `HashPrefix`): section 6.1 of RFC 4034, section 5 of RFC 8198.
* **Sharded cache trimming** (`Trimming`, `CacheCleaner`).
* **SuffixMatchTree** (`SuffixTree`, `LabelVisitor`, `SuffixRuns`).
* **Packet ageing** (`PacketWalk`, `PacketAging`, `PacketMangler`, `AgingTheorems`).
* **Base32hex** (`Base32`, `Base32Order`; section 7 of RFC 4648), **name text** (`NameText`,
  `NameTextRoundTrip`, `NameTextLimits`; section 5.1 of RFC 1035) and **TXT text** (`TxtText`, `TxtRoundTrip`; section
  3.3.14 of RFC 1035).

Code that updates state in place is modelled by methods on classes, arrays and loops, each proved
against a specification function; what is promised is then proved about those functions.

## Conventions

* An exception is a result: an error constructor, `ok == false`, `null` or `None`, as the contract says.
* Octets are integers below 256 where the code computes with them; masks and shifts are computed on the
  bits of machine words (`Words`).
* `std::round` and `std::ceil` of quotients are exact integer arithmetic, half rounding up.
* Names are known by their labels as well as by their stored octets; the labels are ghost parameters.
* `dns_tolower` folds ASCII letters.

## Where the code is not what it promises

Each of these is stated as a lemma, with the exact condition where there is one.

* `NetmaskTree::erase` removes exactly its key if and only if the key is stored or nothing at or below it
  is: otherwise it takes another prefix (`EraseExactIff`, `EraseTakesLongerPrefix`).
* A netmask that is a whole IPv6 address compares one octet past the address, the first of its own scope
  id, with zero; its match holds for its own address exactly if that octet is zero (`FitsIsCovers`,
  `ScopedHostMissesItself`).
* The position arrays of the canonical comparison hold eight bits, so of a label that starts past offset
  255 they show another. On any names the comparison is the canonical order of the labels shown
  (`FastIsCanonOfSeen`). It is right for two names when one has 64 labels or more, or when both are read
  right, each label being the one its position shows (`FastIsSlow`). A name that is read wrong is ordered
  wrongly against some name (`ReadRightExactly`), and it is ordered wrongly against a name of at most 255
  octets exactly when what is misread is not hidden from names of that length, by lying too far from the
  end or by having too much in common with what is shown (`RightExactly`). The parser takes names that
  come out wrong out of packets (`LongNameParses`, `LongNamesDiffer`).
* The visitor that lookups in a SuffixMatchTree read a name with keeps eight-bit positions too, and has
  room for 128 labels. A name is looked up rightly after every history exactly when it has at most 128
  labels and is read right (`LookupRightExactly`, `LongNameNotFound`). The NSEC cache finds its zones that
  way: a zone whose name is not read right is made anew with every record, and its entries are lost
  without being taken off the count (`GetZone`); the count stays right exactly when there were none
  (`InsertNSEC`).
* `strncasecmp` stops at a zero octet, so the compression takes some different labels for the same
  (`SameTextIff`, `ZeroOctetHidesTheRest`).
* The header counts for AUTHORITY and QUESTION hold swapped octets and are right exactly for multiples of
  257 that fit; the one for ADDITIONAL is right for no record and one and for no other number
  (`AuthorityField`, `QuestionField`, `AdditionalField`). The comments beside the code claim that all are
  in network byte order.
* `getDNSPacketLength` gives the size of a written packet exactly when the header announces no fewer
  records than there are (`WalkCoversPacket`, `WriteAuthority`).
* `SuffixMatchTree::remove` for a subtree leaves nothing below the name exactly when the name has at most
  one label or nothing was live below it (`RemoveSubtreeClears`, `SubtreeSurvives`).
* An unset name and the root compare as equal in canonical order although `operator==` tells them apart
  (`CanonZeroIsEqual`).
* Text without a backslash may give a name of 256 octets, if there is no dot at its end: the check is on the
  length of the text. Read back without its final dot, a printed name is itself exactly when it has at most
  255 octets, or 256 if nothing had to be escaped (`ReadUndotted`,
  `ReadFailsIff`, `TooLongIsRead`).
* The comment on `pruneMutexCollectionsVector` says that the first pass stops once enough was erased; the
  code does not stop, so the total may end below the maximum, which takes more stale entries than there
  are too many (`PruneMutexCollectionsVector`, `EndsBelowMaximum`).

## Model

| member | source | states |
|---|---|---|
| PatriciaTrie.AttachWf | iputils.hh:1034-1049 | hanging a new leaf keeps all invariants of the trie: longer child prefixes, sides by the next bit, assigned leaves |
| PatriciaTrie.SplitWf | iputils.hh:1052-1098 | so does inserting a node above another |
| PatriciaTrie.ForkWf | iputils.hh:1100-1149 | so does a new branch below a common prefix |
| PatriciaTrie.ForkBound | iputils.hh:1100-1149 | a fork stores exactly one more position, unassigned intermediate nodes not counting |
| PatriciaOrder.LeftmostInsert | iputils.hh:1367-1493 | the node that insert finds to be left-most on its way down really is the first assigned node afterwards |
| PatriciaOrder.NextIsFewer | iputils.hh:1188-1196 | an advancing iterator always has fewer nodes ahead of it |
| PatriciaOrder.VisitAll | iputils.hh:1275-1283 | iteration ends with every stored position visited, once and in order |
| PatriciaLinks.BitsTell | iputils.hh:1410-1460 | the bits of a node's key say whether its prefix is used up on the way to another key |
| PatriciaLinks.BestEnd | iputils.hh:1656-1694 | the last assigned node passed on a finished walk is the longest stored prefix |
| PatriciaErase.EraseExactIff | iputils.hh:1531-1590 | erase removes exactly the key if and only if the key is stored or nothing at or below it is |
| PatriciaErase.EraseTakesLongerPrefix | iputils.hh:1549-1590 | a concrete tree in which erasing an absent key removes a longer prefix |
| PatriciaErase.PruneWf | iputils.hh:1208-1226 | removing an unassigned leaf keeps the invariants |
| PatriciaErase.LeftmostErase | iputils.hh:1576-1590 | moving the left-most pointer on before a removal makes it the first assigned node of what is left |
| NetmaskTree.TreeNode.Split | iputils.hh:1052-1098 | which links change when a node is put above another |
| NetmaskTree.TreeNode.Fork | iputils.hh:1100-1149 | which links change when a branch is added beside a node |
| NetmaskTree.InsertNode | iputils.hh:1367-1493 | the walk of insert ends with the key's node assigned, all other bindings as they were, size and left-most right; the lost left-most error is not reached |
| NetmaskTree.TraverseLnrAssigned | iputils.hh:1151-1196 | the node reached is the next assigned one in order |
| NetmaskTree.Find | iputils.hh:1637-1696 | the walk of lookup finds the longest stored prefix, or null when there is none |
| NetmaskTree.Reach | iputils.hh:1548-1575 | the walk of erase ends at the topmost node at or below the key |
| NetmaskTree.CleanupTree | iputils.hh:1208-1226 | removes the unassigned leaves that a removal leaves, up to the first node still in use |
| NetmaskTree.CopyNodes | iputils.hh:1228-1248 | traversing one tree and inserting into another stores the same bindings |
| NetmaskTree.NetmaskTree.Insert | iputils.hh:1367-1493 | the key is bound, to the default if it was not; every other binding stays |
| NetmaskTree.NetmaskTree.InsertOrAssign | iputils.hh:1495-1498 | the map is updated at the key and nowhere else |
| NetmaskTree.NetmaskTree.Lookup | iputils.hh:1513-1517 | the binding of the longest stored prefix of the key, null exactly when there is none |
| NetmaskTree.NetmaskTree.LookupAddress | iputils.hh:1520-1528 | the same for an address, of which at most max_bits bits count |
| NetmaskTree.NetmaskTree.HasKey | iputils.hh:1506-1510 | whether exactly this key is bound |
| NetmaskTree.NetmaskTree.Erase | iputils.hh:1531-1590 | what is unbound for any key, and that it is just the key exactly under the condition above |
| NetmaskTree.NetmaskTree.Entries | iputils.hh:1251-1359 | iterating visits every binding exactly once, in left-node-right order |
| NetmaskTree.NetmaskTree.CopyTree | iputils.hh:1228-1248 | an empty tree becomes equal to the original as a map |
| NetmaskTree.NetmaskTree.Clear | iputils.hh:1621-1627 | nothing is bound |
| NetmaskKey.CoversIsPrefix | iputils.hh:991-997 | one network encloses another exactly when its place in the tree is on the way to the other's |
| NetmaskRuns.DeleteIfThere | filterpo.cc:477-488 | erasing after has_key removes just the key |
| NetmaskRuns.Replay | iputils.hh:1367-1627 | after any history of stores, guarded erasures and clears the tree holds the map the history amounts to, and its size is that of the map |
| NetmaskWords.GetBitIs | iputils.hh:451-488 | getBit with a negative index reads the bit that many places from the top, for both families |
| NetmaskWords.Netmask.SetBits | iputils.hh:718-747 | the first bits stay, all others are cleared, at most the width of the family |
| NetmaskWords.Netmask.Matches | iputils.hh:788-831 | the masked comparison is equality of the network bits, but for the octet after a whole IPv6 address |
| NetmaskWords.FitsIsCovers | iputils.hh:788-831 | a netmask's own match is that its key covers the address, exactly unless it is a whole IPv6 address with a scope id |
| NetmaskWords.ScopedHostMissesItself | iputils.hh:788-831 | a whole IPv6 address with a scope id whose netmask does not match it |
| NetmaskRuns.IndexCovers | iputils.hh:1610-1613 | looking an address up finds something exactly when a stored netmask covers it |
| NetmaskRuns.ScanCovers | iputils.hh:788-831 | a scan by the netmasks' own match finds an address exactly when one that is not a whole IPv6 address with a scope id covers it |
| NetmaskRuns.MatchIndex | iputils.hh:1610-1613 | the tree's match agrees with that scan, except exactly when the address is covered and only by such netmasks |
| Words.MaskedEqual | iputils.hh:722-732 | words equal under a mask of n bits are those with the same n highest bits |
| PacketName.HopsByLabels | dnswriter.cc:269-330 | a name of n labels in a packet is read with at most n + 1 pointers, n when it starts with a label |
| PacketName.NameFrame | dnswriter.cc:258-366 | a name is still read after changes to octets it is not made of |
| NameParser.NameBuilder.ParsePacketUncompressed | dnsname.cc:128-179 | the loop finds the end of the fragment and puts its labels down over the final zero octet |
| NameParser.NameBuilder.PacketParser | dnsname.cc:182-233 | the recursive parser computes the specified result for any packet; it terminates, and neither abort() nor its second check is reached |
| NameParser.NameBuilder.ParseTyped | dnsname.cc:182-249 | the same when type and class are asked for: they are the octets after the name, or the call fails because the packet ends |
| NameParser.ParseWellFormed | dnsname.cc:128-233 | every successful parse of any octets leaves labels of 1 to 63 octets and one final zero octet, across all redirects |
| NameParser.ParseDecodes | dnsname.cc:182-233 | a name that stands in a packet is found by the parser, which ends where the name ends; where pointers may not be followed, a name without any |
| NameParser.ReadQuestion | dnsname.cc:182-249 | a question is read with its type and class where pointers may not be followed, as the recursor reads it |
| NameParser.PointerRefused | dnsname.cc:139-149 | there, a name whose first fragment ends in a pointer is refused for just that |
| NameIndex.SameTextIff | dnswriter.cc:347 | what strncasecmp decides: equality up to and including the first zero octet |
| NameIndex.SameTextFold | dnswriter.cc:347 | for a label without zero octets that is equality ignoring case |
| NameIndex.ZeroOctetHidesTheRest | dnswriter.cc:347 | two different labels it takes for the same |
| NameIndex.LogWrite | dnswriter.cc:386-421 | putting a name down keeps every name written before readable, and the index right |
| NameIndex.CompressedWritten | dnswriter.cc:386-403 | the first labels and a pointer read back as the name, within 35 pointers, each going back before its fragment |
| NameLookup.NameVector | dnswriter.cc:269-284 | the offsets of a name's labels, nothing for more than 34 |
| NameLookup.PacketVector | dnswriter.cc:305-331 | the offsets of an indexed name's labels, across pointers; each can be pointed at and read from |
| NameLookup.MatchFromEnd | dnswriter.cc:338-363 | the backward comparison covers exactly the longest common ending |
| NameLookup.LookupName | dnswriter.cc:258-366 | the result is the longest ending any indexed name of at most 34 labels offers, at a place where it can be read; none exactly when none is offered |
| PacketFrame.AnswersCounted | dnswriter.cc:556-575 | the ANSWER count is the number of records, up to its width |
| PacketFrame.AuthorityField | dnswriter.cc:576-582 | the AUTHORITY count is right exactly for multiples of 257 that fit in 16 bits |
| PacketFrame.QuestionField | dnswriter.cc:549-555 | so is the QUESTION count, for the questions after the first |
| PacketFrame.AdditionalField | dnswriter.cc:583-597 | of all numbers of records, the ADDITIONAL count is right exactly for zero and one |
| PacketFrame.FrameClosed | dnswriter.cc:533-600 | committing a record leaves every finished record with its own size before it and the counts as specified |
| PacketWriter.LowerWire | dnswriter.cc:414-421 | the lower-case copy of a name is the name with lower-case labels |
| PacketWriter.MarkerWritten | dnswriter.cc:132-135 | the pointer to offset 12 reads back as the record's name |
| PacketWriter.CommitKeeps | dnswriter.cc:533-600 | commit changes no octet that a name is read from |
| PacketWriter.PacketWriter.constructor | dnswriter.cc:51-123 | header with the opcode in its bits and nothing else set, question name in full, type and class; the question can be read |
| PacketWriter.PacketWriter.XfrName | dnswriter.cc:368-423 | what is appended: the labels no indexed name ends with and a pointer to the longest ending, or the whole name; which names enter the index; all names stay readable |
| PacketWriter.PacketWriter.Commit | dnswriter.cc:533-600 | the size of the open record is the octets since its header, its place is counted once, nothing else changes |
| PacketWriter.PacketWriter.StartRecord | dnswriter.cc:126-145 | the previous record is closed, the new one starts with its name, of this size, and its type, class and TTL; every name written before stays readable |
| WriterTheorems.NameReadsBack | dnswriter.cc:258-423 | every name ever written is read back by the parser, up to case, with 35 redirects or fewer and ending where the writer ended |
| WriterTheorems.WriterReadsBack | dnswriter.cc:368-423 | the same for the state of a writer at any time |
| NameIndex.SharedWithCovered | dnswriter.cc:258-366 | what a name shares at its end with one that ends an indexed name, a lookup of it can use |
| NameIndex.RememberedWith | dnswriter.cc:386-411 | a name that is written either enters the index, or ends an indexed name as a whole, or stands where no pointer reaches |
| PacketWriter.MarkerRemembered | dnswriter.cc:132-135 | the marker needs no place in the index, the question's name having one |
| WriterTheorems.SharesWithWritten | dnswriter.cc:258-423 | after any run, a lookup can use at least what a name shares with any name that was written below offset 16384, both of at most 34 labels |
| WriterTheorems.WriteSharing | dnswriter.cc:386-403 | so a name that shares labels with one of those loses at least these labels and gets two octets for them |
| WriterTheorems.RecordSharing | dnswriter.cc:126-145 | so does the name of a record, unless it gets the question's marker |
| WriterTheorems.AnswersFramed | dnswriter.cc:533-600 | after a run of answers, and at most one additional record, the count is right and the pointer-skipping walk covers the packet |
| WriterTheorems.OtherCountsWrong | dnswriter.cc:576-597 | one AUTHORITY record is announced as 256, two ADDITIONAL as 257 |
| PacketWalk.WalkByCount | dnsparser.cc:1198-1205 | a walk over n records ends with the packet, before it or past it as n is the number of records, smaller or larger |
| PacketWalk.WalkCoversPacket | dnsparser.cc:1181-1211 | the length found is that of the packet exactly when no fewer records are announced than there are |
| WriterTheorems.WriteAuthority | dnswriter.cc:576-582 | 256 AUTHORITY records are announced as one, and the length found is less than that of the packet |
| PacketAging.AgeDoes | dnsparser.cc:1095-1129 | ageing any octets changes only TTLs of reachable records that are not OPT, by the seconds, down to zero |
| PacketAging.AgeTwice | dnsparser.cc:1095-1129 | ageing by a and then by b is ageing by a + b |
| PacketAging.MinTtlAged | dnsparser.cc:1136-1179 | the smallest TTL after ageing is the old one less the seconds, down to zero, if any was read |
| AgingTheorems.VisitFinished | dnsparser.cc:1113-1126 | of a record that was written the walk finds the TTL after name, type and class, exactly unless the type is OPT, and the next record after its data |
| AgingTheorems.TtlsWritten | dnsparser.cc:1095-1129 | the TTLs that are found in a finished packet are those of the records the header announces, OPT records apart |
| AgingTheorems.OwnTtl | dnsparser.cc:1113-1126 | no octet of a record is in the TTL of another |
| AgingTheorems.AgeWritten | dnsparser.cc:1095-1129 | ageing a finished packet takes the seconds off the TTLs given to startRecord; types, classes, sizes, data and counts stay, every name is still read |
| AgingTheorems.AgeFinished | dnsparser.cc:1095-1129 | the loop over the packet in place does that |
| AgingTheorems.MinTtlWritten | dnsparser.cc:1136-1179 | the smallest TTL of a finished packet is the least of those given for the announced records before the first OPT record |
| AgingTheorems.MinTtlOfFinished | dnsparser.cc:1136-1179 | the loop finds that |
| PacketMangler.DNSPacketMangler.DecreaseAndSkip32BitInt | dnsparser.hh:622-637 | four octets are replaced by the reduced value, no other changes |
| PacketMangler.DNSPacketMangler.SkipDomainName | dnsparser.hh:572-582 | the cursor moves past a name without following pointers, or the packet ends |
| PacketMangler.AgeDNSPacket | dnsparser.cc:1095-1129 | the loop over the packet in place does what the specification of ageing says, for any octets |
| PacketMangler.GetDNSPacketMinTTL | dnsparser.cc:1136-1179 | the loop finds the smallest TTL before an OPT record |
| PacketMangler.GetDNSPacketLength | dnsparser.cc:1181-1211 | the loop finds where the announced records end, or gives the size of the buffer |
| CanonicalOrder.CompareLabels | misc.hh:388-413 | the loop computes the order of two labels |
| CanonicalOrder.SlowCanonCompare | dnsname.cc:465-491 | the comparison of label vectors from the last label back |
| CanonicalOrder.CanonCompare | dnsname.cc:493-544 | the comparison over position arrays, with the vectors for names of 64 labels or more |
| PositionArrays.FastIsCanonOfSeen | dnsname.cc:493-544 | on any names the comparison is the canonical order of the labels that the positions show, or of the labels when one name has 64 or more |
| PositionArrays.FastIsSlow | dnsname.cc:493-544 | both comparisons agree when one name has 64 labels or more or both are read right |
| PositionArrays.EarlyLabelsReadRight | dnsname.cc:503-515 | a name whose labels all start before offset 256 is read right |
| PositionArrays.ReadRightExactly | dnsname.cc:503-544 | reading a name through its positions orders it rightly against all labels exactly when each label is the one shown, but for case |
| PositionArrays.RightExactly | dnsname.cc:493-544 | the comparison is right against all names of at most 255 octets exactly when the name has 64 labels or more or what is misread is hidden from such names |
| PositionArrays.LongNamesDiffer | dnsname.cc:503-515 | two names, one longer, on which the comparisons do not agree |
| PositionArrays.LongNameParses | dnsname.cc:182-233 | a packet from which the parser takes that longer name |
| CanonicalOrder.CanonicalOrderIsTotal | dnsname.cc:465-491 | a strict total order on names up to case |
| CanonicalOrder.CanonEqual | dnsname.cc:465-491 | its zero result is equality up to case, label by label |
| CanonicalOrder.CanonZeroIsEqual | dnsname.hh:724-738 | zero means operator==, an unset name and the root apart |
| CanonicalOrder.NameEquals | dnsname.hh:724-738 | operator== decides equality of the stored octets up to case, unset only equal to unset |
| NsecZone.OrderedAscending | aggressive_nsec.hh:136-145 | the ordered index lists the entries strictly by canonical owner |
| NsecZone.PredecessorAt | aggressive_nsec.cc:375-401 | where the iterator ends is the greatest owner at or before the name, or the greatest of all when there is none |
| NsecZone.BeforeUnique | aggressive_nsec.cc:375-401 | there is just one such entry |
| NsecOrder.FairPredecessor | aggressive_nsec.hh:136-145 | in the container's own order the search ends at the canonical predecessor when the name and all owners are read right or have 64 labels or more |
| NsecOrder.SeenPredecessor | aggressive_nsec.hh:136-145 | for owners of fewer than 64 labels, read right or not, it ends at the predecessor in the order of the labels read |
| NsecCache.PutUnique | aggressive_nsec.cc:346-364 | inserting or replacing keeps owners unique |
| NsecCache.PutPlaces | aggressive_nsec.cc:346-364 | a new owner becomes the youngest entry, a replaced one keeps its turn, all others stay in place |
| NsecHistory.HistoryJustifies | aggressive_nsec.cc:281-366 | after any history of a zone every entry is that of a record worth keeping, never an opt-out NSEC3 record, and its NSEC3 records have the zone's parameters |
| NsecHistory.OthersBringNothing | aggressive_nsec.cc:132-200 | pruning and lookups bring nothing new into a zone |
| NsecCache.FreshIs | aggressive_nsec.cc:132-150 | of the entries looked at just the expired ones go; all others stay, in their order |
| NsecCache.UnexpiredKeeps | aggressive_nsec.cc:140-148 | every entry that has not expired stays as often as it is there |
| NsecCache.LookAndPrune | aggressive_nsec.cc:368-412 | an expired entry that a lookup met is in no zone after the next pruning, unless another zone had it too |
| NsecCache.ExpiredIsPruned | aggressive_nsec.cc:403-407 | an expired entry moved to the front does not outlive a pruning at that time or later |
| NsecCache.TrimmedToMaximum | aggressive_nsec.cc:163-192 | trimming leaves exactly the maximum, of every zone its most recently used entries |
| NsecCache.AggressiveNSECCache.FindZone | aggressive_nsec.cc:55-66 | the zone of the name when there is one and the name is read right; an exception for more than 128 labels |
| NsecCache.AggressiveNSECCache.GetZone | aggressive_nsec.cc:55-83 | that zone or a new one; a name that is not read right always gets a new one in place of the old |
| NsecCache.AggressiveNSECCache.InsertEntry | aggressive_nsec.cc:345-364 | the count goes up exactly for a new owner, and stays the number of entries |
| NsecCache.AggressiveNSECCache.InsertNSEC | aggressive_nsec.cc:281-366 | which zone becomes what for accepted and refused records, hashes that share too many bits among them; the count stays the number of entries exactly when the name is read right or had no entries |
| NsecCache.AggressiveNSECCache.RemoveZoneInfo | aggressive_nsec.cc:96-124 | the zone goes and the count with its entries, if its name is read right; or what removing a subtree takes goes and the count is taken anew |
| NsecCache.EraseExpired | aggressive_nsec.cc:140-148 | the loop erases and counts the expired ones among the entries it looks at |
| NsecCache.EraseOldest | aggressive_nsec.cc:178-186 | the loop erases and counts a zone's share, oldest first |
| NsecCache.AggressiveNSECCache.Prune | aggressive_nsec.cc:126-200 | expired entries of the oldest tenth go; if the count is still above the maximum it ends at the maximum; the erased entries are taken off after each visit; the inconsistency exception is not reached |
| NsecCache.AggressiveNSECCache.GetNSECBefore | aggressive_nsec.cc:368-412 | cyclic predecessor search that never runs off the beginning and keeps the entries; the one found becomes the youngest, an expired one the oldest, the others keep their order |
| NsecCache.AggressiveNSECCache.GetNSEC3 | aggressive_nsec.cc:414-440 | the entry with just this owner, with its turn changed likewise |
| NsecCache.AggressiveNSECCache.Meet | aggressive_nsec.cc:403-411 | what becomes of the entry that a lookup comes to |
| NsecCache.LookAndKeep | aggressive_nsec.cc:368-412 | an entry that was found and has not expired at the next pruning is still there as long as its zone has any |
| HashPrefix.CommonPrefixIsLong | aggressive_nsec.cc:228-258 | whether the hashes share more leading bits than the bound |
| HashPrefix.IsSmallCoveringNSEC3 | aggressive_nsec.cc:262-270 | a record whose hashes share too many bits, unless it is the only one of its zone |
| Trimming.FairShare | cachecleaner.hh:213-219 | a rounded share is no more than the shard holds or is to go, and what remains to go fits what remains |
| Trimming.RoundIsNearest | cachecleaner.hh:217 | a share is the integer nearest to the quotient, half up |
| Trimming.CeilIsLeast | cachecleaner.hh:160 | what is looked at of a shard is the least integer that is not below the quotient |
| CacheCleaner.LookAt | cachecleaner.hh:139-149 | how many entries are looked at in all: five for each that is too many, at least a tenth |
| Trimming.SharesExactly | cachecleaner.hh:192-219 | the rounded shares of all shards add up to exactly what is to go |
| CacheCleaner.ScannedIs | cachecleaner.hh:57-69 | a scan erases just the stale ones among the entries it looks at, keeps the order, and stops early only at its limit |
| CacheCleaner.NotStaleKeeps | cachecleaner.hh:57-69 | every entry that is not stale stays as often as it is there |
| CacheCleaner.SweptDropsStale | cachecleaner.hh:156-184 | the first pass over all shards takes no more than was stale |
| CacheCleaner.EndsBelowMaximum | cachecleaner.hh:156-188 | a concrete shard that ends below the maximum |
| CacheCleaner.Collection.PruneCollection | cachecleaner.hh:34-77 | one collection above its maximum ends at exactly the maximum, stale entries first, then the oldest |
| CacheCleaner.ShardedCollection.PruneMutexCollectionsVector | cachecleaner.hh:135-237 | the total ends at the maximum, or below it when more was stale than is too many; every shard loses its oldest entries; counters stay the sizes |
| CacheCleaner.TrimmedExactly | cachecleaner.hh:211-234 | the second pass erases exactly what it set out to erase |
| SuffixTree.AddGet | dnsname.hh:465-488 | after an addition the name has the value, every other name what it had |
| SuffixTree.RemoveGet | dnsname.hh:498-534 | after a removal the name is not live, every other name has what it had |
| SuffixTree.RemoveSubtreeGet | dnsname.hh:498-530 | at the root or the first label, removing a subtree takes the names at or below the name and no others |
| SuffixTree.RemoveSubtreeClears | dnsname.hh:498-534 | it leaves nothing live below the name exactly when the name has at most one label or nothing was live below it |
| SuffixTree.SubtreeSurvives | dnsname.hh:532-533 | a tree in which a name below survives it |
| SuffixTree.LookupIsLongest | dnsname.hh:585-608 | a lookup gives the value of the longest live suffix |
| SuffixTree.LongestNone | dnsname.hh:585-608 | and nothing exactly when no suffix is live |
| SuffixRuns.RunGet | dnsname.hh:465-534 | after any history of additions and removals a name has what the last call about it left |
| LabelVisitor.RawLabelsVisitor.Fill | dnsname.cc:753-764 | the visitor takes in at most 128 labels, each the one that its position, cut to eight bits, shows |
| SuffixRuns.LookupAfterRun | dnsname.hh:459-608 | after any such history a lookup of labels gives the value of the longest live suffix, up to case |
| SuffixRuns.LookupRightExactly | dnsname.hh:574-608 | a name is looked up rightly after every history exactly when it has at most 128 labels and is read right |
| SuffixRuns.LongNameNotFound | dnsname.hh:574-608 | a name of 259 octets for which the lookup misses the suffix that is there |
| SuffixRuns.StrCaseCmpIsLex | dnsname.hh:405-408 | for labels without zero octets strcasecmp orders as labels are ordered |
| SuffixRuns.LightLessIsLex | dnsname.hh:418-447 | so does the comparison of lookups, when one of the two labels has none |
| SuffixRuns.SuffixMatchTree.LookupName | dnsname.hh:536-608 | the object's lookup, with its shortcut for a tree without children, answers for the labels that the visitor reads as the history says, and so for the name when it is read right |
| Base32.Extracted | base32.cc:36-54 | five bits extracted from two octets are the five bits of the string at that place |
| Base32.SetOctetBit | base32.cc:57-81 | setting five bits of a block sets those bits and no others |
| Base32.ToBase32Hex | base32.cc:98-127 | the loops produce the specified encoding with its stuffing |
| Base32.FromBase32Hex | base32.cc:130-149 | the loop produces the specified decoding, stopping at stuffing or an error |
| Base32.RoundTrip | base32.cc:98-149 | decoding what was encoded gives back every string of octets |
| Base32.DecodeFolds | base32.cc:84-95 | letters decode alike in either case |
| Base32Order.EncodingKeepsOrder | base32.cc:98-127 | encodings of hashes of equal length, a multiple of five octets, are ordered as the hashes |
| Base32Order.OwnersInHashOrder | aggressive_nsec.cc:673 | so NSEC3 owner names below one zone are in hash order |
| NameText.ToString | dnsname.cc:258-288 | the loop prints the labels with escapes and dots |
| NameText.SegmentDNSNameRaw | dnslabeltext.cc:261-513 | the table-driven loop runs the specified machine |
| NameText.ReadName | dnsname.cc:57-101 | the constructor reads text the fast way or through the machine, with its length checks |
| NameTextRoundTrip.ReadPrinted | dnsname.cc:57-101 | every name of at most 255 octets, whatever its octets, is read back from its text form as it was |
| NameTextLimits.ReadPrintedExactly | dnsname.cc:57-101 | a name of more octets is not read back from its text form |
| NameTextLimits.ReadUndotted | dnsname.cc:57-101 | without its final dot the text form is read back exactly when the name has at most 255 octets, or 256 if nothing in it had to be escaped |
| NameTextLimits.TooLongIsRead | dnsname.cc:66-92 | text of four labels that is read as a name of 256 octets |
| NameTextLimits.ReadFailsIff | dnsname.cc:66-92 | text without a backslash is refused exactly for more than 254 characters, a dot at the start or after a dot, or 64 characters in a row without a dot |
| NameTextLimits.ReadGives | dnsname.cc:66-92 | and what it gives otherwise are the labels between the dots |
| NameTextLimits.PlainPrinted | dnsname.cc:258-288 | labels are printed as they are, a dot after each, exactly when no octet has to be escaped |
| NameTextRoundTrip.PrintInjective | dnsname.cc:258-288 | names that print alike are the same |
| NameTextRoundTrip.LabelRun | dnslabeltext.cc:392-455 | a printed label and its dot make the machine put down the label after its length |
| TxtText.PacketReader.ReadText | dnsparser.cc:645-675 | the loop prints the strings of a record, quoted and escaped |
| TxtText.SegmentDNSText | dnslabeltext.cc:25-258 | the table-driven loop runs the specified machine |
| TxtText.WriteText | dnswriter.cc:230-242 | every segment is appended after its length |
| TxtRoundTrip.SegmentsOfText | dnslabeltext.cc:14-21 | cutting up printed text gives the strings; none of at most 255 octets is split |
| TxtRoundTrip.LongStringSplit | dnslabeltext.cc:14-21 | a quoted string of any length is cut into segments that join to it, all of 255 octets but the last |
| TxtRoundTrip.PlainTextPrinted | dnsparser.cc:622-643 | a string is printed as it is exactly when no octet of it has to be escaped |
| TxtRoundTrip.TextRoundTrip | dnsparser.cc:645-675 | a TXT record of any non-empty list of strings, printed and written again, has the same data |

## Left out

- PacketWriter.XfrName: a name that is entered in the index must end below offset 16384, because the walk over an indexed name stops at the first label past that offset and would then compare labels in the wrong places.
- PacketWriter.XfrName: a name that is compressed has no zero octets in its labels, because of `strncasecmp` (see `SameTextIff`).
- PacketWriter.StartRecord: the packet stays below 65536 octets, because the markers are 16 bits wide.
- NameLookup.LookupName: labels without zero octets, for the same reason.
- NameLookup.MatchFromEnd: labels without zero octets, for the same reason.
- PacketWalk.WalkCoversPacket: no QUESTION records are committed, because a walker reads what the header announces as questions without a size and data.
- SuffixRuns.SuffixMatchTree.AddName: labels without zero octets, because the tree orders children by `strcasecmp` when adding and by length and `strncasecmp` when looking up.
- NsecCache.AggressiveNSECCache.GetZone: zone names have labels without zero octets, for the same reason. Where the tree of zones visits a new zone, and whether it has children at all, are parameters.
- NsecOrder.FairPredecessor: what the container's order is when an owner that is not read right meets one of 64 labels or more, for which the comparison falls back on the labels, is not described.
- Base32Order.EncodingKeepsOrder: hashes of a multiple of five octets, as all NSEC3 hashes in use are; stuffing is not ordered.
- The writer's `rollback` and `truncate`: they keep index entries of names that are gone, so nothing written after them is covered.
- The remaining field writers (48-bit integers, SVCB parameters, node identifiers): they append octets as `XfrBlob` does. `xfrText` without lengths.
- A bound on the length of parsed names: the parser's check is per fragment. A lone pointer octet at the very end of a packet ends a name, as in the code.
- The parser's `len` beyond 16-bit packets. Offsets of the packet mangler do not wrap at 32 bits.
- PacketMangler.GetDNSPacketMinTTL: not the `seenAuthSOA` output, which does not touch the result. `rewindBytes` and `setAndSkip32BitInt` are not modelled.
- NameText.ToString: the usual separator with the trailing dot, and not the exception for an unset name.
- TxtText.PacketReader.ReadText: strings with their lengths only, not the mode without, which prints the rest of a record as one.
- TxtText.WriteText: segments with their lengths only, likewise.
- CanonicalOrder.CanonCompare: a label that is misread and would reach past the storage is cut off there; the source reads on in memory. So too LabelVisitor.
- NsecCache.AggressiveNSECCache.InsertNSEC: the owner of a wildcard-expanded NSEC and the owner name of the next hash are parameters.
- `NetmaskTree::swap`, the move operations, node values with their own side effects, and `NetmaskGroup`.
- The nodes of SuffixMatchTree are values, owned by their sets as in the code; `visit`, `getNodes` and `getBestMatch` (which reads raw labels as text) are not modelled.
- Locks, `try_lock`, atomics and reference counts of the caches: one caller at a time.
- The two indices of a zone's entries are one sequence in least-recently-used order and a view in canonical order; the hashed index is searched as that sequence. The recursor's `matchesNSEC`, `getNSECOwnerName` and the record cache are not part of this model, so the denial proofs are not either.
- The `invalidate` and `preRemoval` hooks of the shards, and `pruneLockedCollectionsVector`.
- Floating point: quotients are exact rationals here. In doubles the number of entries to look at may differ by one, as for a shard of 3 among 17 entries with nothing to be kept, because the factor is rounded before the ceiling is taken.
- Reading addresses and netmasks from text; sockets, logging, cryptography, Lua.
