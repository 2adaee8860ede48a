# Models of three C programs, with proofs

This project models three programs of the repository and proves what they promise.

**The Huffman compressor** (`Huffman Coding/huffman-proj`). The modules follow the program. `HuffmanTree`,
`TreeNodes`, `PQueue` and `Huffman` count characters and build the tree on the heap; `Optimality` is the theory of
the merge loop; `CodeTable` and `CodeLength` are the codes and their length; `BitBytes` and `BitsIO` pack bits seven to a
byte behind a delimiter; `TreeText` prints and scans the tree; `TreeRebuild` rebuilds it through one linked list;
`TreeFormat` says what the printed text is byte by byte and which texts are read as one; `Codec` puts both programs
together, and `CodecExample` works out one whole file. A node of the heap represents a value of the datatype `Tree`
(predicate `Rep`), and the theorems are about these values. The main results: the tree is a cheapest one however equal
weights are ordered, and the round trip through a file succeeds if and only if the text has no byte 0xFF and at least
two different bytes.

**The cache simulator** (`CacheSimulation/cache-sim`). `AddressBits` is the address split, `LruSpec` LRU on tags,
`LruCompetitive` its comparison with any other policy, `LruFetch` one pass over a queue of lines, `LruQueue` that pass
on linked nodes, `CacheRuns` whole traces, `CacheCompetitive` the whole cache against any policy, and `CacheSim` the
cache and the loop that drives it. The class `Cache` keeps each set equal to the run of its own accesses, so every
theorem about runs holds of the heap. `CacheAddresses` and `CacheRecords` say of any trace which addresses hit, miss
cold, and are recorded, with nothing but division of the addresses.

**The bank and its ATMs** (`Bank-Atm Simulation/bank-proj`). `Command` is the message format, `BankServer` the bank,
`AtmClient` one ATM process, `BankProtocol` the processes and pipes as a step relation with its invariant,
`BankSafety` what holds in all reachable states, `BankReplies` what the replies say of the accounts, `BankLiveness`
when every run ends, `BankFunds` when funds never lack, `BankOrder` a trace for which the order matters, and
`BankMethods` the tie between the step relation and the methods. A schedule is a sequence of turns; a turn that a
process cannot take is passed, so all interleavings are schedules.

`Sequences`, `Bytes` and `Options` are shared. `dafny verify dfyconfig.toml` checks everything.

Where code and comments differ, the model follows the code:

- The unlinking in `tree_deserialize` is commented as removing the children from the list. A left child that stands
  directly behind its right sibling stays on it. `Leftovers` says which nodes stay, and lookup by id makes the tree
  right all the same.
- The last loop of `tree_deserialize` is commented as resetting all next pointers. The head keeps its pointer.
- `BALANCE` replies with the balance of the account numbered like the ATM, not of the account in the request.
- A withdrawal from, or balance of, an unknown account is refused with the `to` field of the request.
- After a record `tree_deserialize` pushes back a byte that is not '#'. That fails for 0xFF, which as a signed `char` is EOF,
  and the byte is lost.
- `lru_fetch` decides in one pass. That is right only because unused lines always come last, which is proved.

## Model

| member | source | states |
|---|---|---|
| Optimality.HuffmanIsOptimal | Huffman Coding/huffman-proj/huffman.c:149-163 | Every forest run that takes the two lightest trees, joins them and sorts in any way ends in a tree whose weighted path length is at most that of any binary tree over the same leaf weights |
| Optimality.Exchange | Huffman Coding/huffman-proj/huffman.c:149-163 | Any tree in which a and b are two lightest leaf weights yields one over the merged weights that is cheaper by at least a + b |
| Optimality.MergeDeepest | Huffman Coding/huffman-proj/huffman.c:149-163 | Any tree with an internal root has two sibling leaves at greatest depth; joining them changes the path length by a known amount |
| Optimality.MoveUp | Huffman Coding/huffman-proj/huffman.c:149-163 | Putting a heavier weight in place of a lighter one costs at most the height times the difference |
| Optimality.MergeKeepsExtends | Huffman Coding/huffman-proj/huffman.c:149-163 | If a forest can still be completed at no more than the cost of a rival tree, so can it after one merge |
| Optimality.LastTreeIsCheapest | Huffman Coding/huffman-proj/huffman.c:149-165 | A forest of one tree that can be so completed is itself no dearer than the rival |
| Optimality.MergeRunReaches | Huffman Coding/huffman-proj/huffman.c:149-163 | The merge invariant holds at the end of every run of merges |
| HuffmanTree.PathLengthIsDepthSum | Huffman Coding/huffman-proj/huffman.c:152-158 | Summing path lengths bottom up equals summing weight times depth over the leaves |
| HuffmanTree.PathLengthIsInternalSum | Huffman Coding/huffman-proj/huffman.c:152-158 | In a tree with summed frequencies the root weighs the sum of the leaves and the path length is the sum of the internal frequencies |
| TreeNodes.TreeNew | Huffman Coding/huffman-proj/tree.c:24-34 | A new node takes the next id, is internal, has no links, and the id counter goes up by one |
| TreeNodes.RepUnique | Huffman Coding/huffman-proj/tree.c:15-34 | A node represents at most one tree, so what the heap holds determines the tree |
| TreeNodes.TreeSize | Huffman Coding/huffman-proj/tree.c:40-46 | The size of a node is the number of nodes of the tree it represents |
| PQueue.PriorityQueue.Sort | Huffman Coding/huffman-proj/pqueue.c:40-54 | The queue holds the same trees in some order that is sorted by frequency; ties fall in any way |
| PQueue.ASortExists | Huffman Coding/huffman-proj/pqueue.c:40-54 | Every queue has a sorted permutation, so the choice made by the sort is never empty |
| PQueue.PriorityQueue.Enqueue | Huffman Coding/huffman-proj/pqueue.c:94-111 | The queue stays sorted and gains exactly the new tree; a full queue is unchanged |
| PQueue.PriorityQueue.ShiftLeft | Huffman Coding/huffman-proj/pqueue.c:132-136 | The loop moves slots 1 to count one place to the left and leaves the others; what a full queue reads past its end is not known |
| PQueue.PriorityQueue.Dequeue | Huffman Coding/huffman-proj/pqueue.c:117-142 | A lightest tree is returned and the rest stays, in order; an empty queue gives NULL |
| Huffman.ComputeFreq | Huffman Coding/huffman-proj/huffman.c:59-90 | Entry i counts the occurrences of byte i in the part of the text that is read |
| Huffman.CountedAll | Huffman Coding/huffman-proj/huffman.c:75-88 | The whole text is read exactly when it has no byte 0xFF |
| Huffman.LeafNode | Huffman Coding/huffman-proj/huffman.c:114-120 | The statements that make a leaf |
| Huffman.InternalNode | Huffman Coding/huffman-proj/huffman.c:152-157 | The statements that make a node over two others, whose frequency is their sum |
| Huffman.CreateTreeNodes | Huffman Coding/huffman-proj/huffman.c:100-126 | The queue holds one leaf with a fresh id for each character that occurs, and fewer than the 256 slots it has |
| Huffman.MergeFirstTwo | Huffman Coding/huffman-proj/huffman.c:149-163 | The two lightest trees leave the queue and one new node joins it, with the next id, the lighter on its left; symbols, numbering and optimality are kept |
| Huffman.BuildTree | Huffman Coding/huffman-proj/huffman.c:137-165 | NULL for an empty queue; otherwise a tree over exactly the given entries that no tree over the same weights undercuts, with summed frequencies, the lighter sibling on the left, and its nodes numbered in the order they were made |
| Huffman.HuffmanBuildTree | Huffman Coding/huffman-proj/huffman.c:175-203 | The same from the text on: NULL exactly when nothing is counted; leaves are numbered in the order of their characters, parents after their children |
| Huffman.GrownMerged | Huffman Coding/huffman-proj/huffman.c:149-163 | Because the queue is sorted, joining its first two trees puts the lighter on the left and keeps the numbering |
| Huffman.SmallerCounts | Huffman Coding/huffman-proj/huffman.c:112-123 | The number by which the leaf of a byte is offset is that of the different smaller bytes of the text |
| Huffman.EntriesHave | Huffman Coding/huffman-proj/huffman.c:112-123 | A table entry is among the leaves once if its character occurs and not at all otherwise |
| CodeTable.EncodeTable.constructor | Huffman Coding/huffman-proj/table.c:181-195 | The table holds exactly the codes of the characters of the tree |
| CodeTable.EncodeTable.RecGenTable | Huffman Coding/huffman-proj/table.c:66-137 | Below a node reached by the path b, the entries of its characters become b followed by their paths and the others stay |
| CodeTable.EncodeTable.BitEncode | Huffman Coding/huffman-proj/table.c:149-160 | A code exactly for the characters of the tree, and it is theirs |
| CodeTable.HuffmanFind | Huffman Coding/huffman-proj/huffman.c:215-233 | The loop finds what following the bits in the tree finds |
| CodeTable.CodeLeadsToLeaf | Huffman Coding/huffman-proj/decoder.c:83-98 | A code followed by any bits takes the decoder to a leaf of its character using exactly the code, and huffman_find finds that character |
| CodeTable.WalkFollowsCode | Huffman Coding/huffman-proj/decoder.c:83-98 | Conversely, the bits the decoder consumed are the code of the character it returns |
| CodeTable.CodesPrefixFree | Huffman Coding/huffman-proj/table.c:105-137 | No code is a prefix of another character's code |
| CodeTable.CodesComplete | Huffman Coding/huffman-proj/decoder.c:83-98 | As many bits as the tree is high always suffice to reach a leaf |
| CodeTable.DecodeEncodeText | Huffman Coding/huffman-proj/decoder.c:105-114 | Decoding the concatenated codes of a text without 0xFF gives the text and then stops |
| CodeLength.TreeForCodes | Huffman Coding/huffman-proj/table.c:105-137 | The tree built for a text codes exactly the characters of the text, each by one leaf |
| CodeLength.EncodedLength | Huffman Coding/huffman-proj/encoder.c:92-108 | The bits written for the text number the sum of frequency times depth, and the frequencies add up to the text length |
| CodeLength.EncodedLengthIsInternalSum | Huffman Coding/huffman-proj/huffman.c:152-158 | That number is the sum of the internal frequencies, and the root frequency is the text length |
| CodeLength.ShortestEncoding | Huffman Coding/huffman-proj/encoder.c:92-108 | No other code tree for the text gives a shorter bit string |
| BitBytes.WriteBufferFacts | Huffman Coding/huffman-proj/bits-io.c:300-311 | The write buffer is full exactly with seven bits, is never 0xFF, is 0xFE exactly when empty, and shifting a bit in appends it |
| BitBytes.ReadBufferFacts | Huffman Coding/huffman-proj/bits-io.c:287-293 | The read buffer shows its first bit on top, is 0x80 exactly when empty, and shifting takes the first bit off |
| BitBytes.PayloadOfBuffer | Huffman Coding/huffman-proj/bits-io.c:257-285 | The bits after the first 0 of a written byte are the bits put in |
| BitBytes.PackOneMore | Huffman Coding/huffman-proj/bits-io.c:300-325 | After a multiple of seven bits one more bit adds the byte 252 or 253; otherwise it is shifted into the last byte |
| BitBytes.UnpackPack | Huffman Coding/huffman-proj/bits-io.c:227-325 | n bits take n / 7 bytes rounded up, none of them 0xFF or 0xFE, and the bits in them are the n bits |
| BitsIO.BitsIOFile.WriteBit | Huffman Coding/huffman-proj/bits-io.c:300-325 | File and buffer together hold one more bit; the error branch cannot be taken |
| BitsIO.BitsIOFile.CloseWriter | Huffman Coding/huffman-proj/bits-io.c:227-249 | The file ends in the packed form of all bits written and the count is the number of these bytes |
| BitsIO.BitsIOFile.ReadBit | Huffman Coding/huffman-proj/bits-io.c:257-295 | The next bit is returned and taken, or EOF, again and again, when there is none; the count goes up with the file position |
| BitsIO.BitsIOFile.Align | Huffman Coding/huffman-proj/bits-io.c:262-283 | The shift loop puts the first written bit on top and the marker behind the last |
| BitsIO.AlignStep | Huffman Coding/huffman-proj/bits-io.c:276-283 | What each turn of the shift loop keeps, and when it ends |
| BitsIO.WriteAll | Huffman Coding/huffman-proj/bits-io.c:194-249 | Writing bits one by one and closing appends their packed form and counts its bytes |
| BitsIO.ReadBack | Huffman Coding/huffman-proj/bits-io.c:257-295 | The bits of the file come in order, then only EOF however often one asks, and all bytes are counted |
| BitsIO.WriteThenRead | Huffman Coding/huffman-proj/bits-io.c:194-325 | The bits that were written come back in order, then only EOF however often one asks, and writer and reader count the same bytes |
| TreeText.ScanPrintedInt | Huffman Coding/huffman-proj/tree.c:205-217 | A printed number, negative ones included, reads back and reading stops at the first byte that is no digit |
| TreeText.ScanPrintedRecord | Huffman Coding/huffman-proj/tree.c:109-147 | A printed record reads back and leaves the stream just behind its comma |
| TreeText.ParsePrintedTree | Huffman Coding/huffman-proj/tree.c:156-217 | The text of a tree reads back as its records and leaves the stream at the first byte after the closing # |
| TreeText.SerializeRec | Huffman Coding/huffman-proj/tree.c:109-147 | The records of the tree are appended, children before their parent |
| TreeText.Serialize | Huffman Coding/huffman-proj/tree.c:156-168 | The text form of the tree is appended |
| TreeText.ScanfRecord | Huffman Coding/huffman-proj/tree.c:205-217 | One record is read and the position moves just past it, or reading fails as the scan does |
| TreeFormat.PrintIntIsDecimal | Huffman Coding/huffman-proj/tree.c:115-121 | What is printed for a number is its decimal form and nothing else is: byte 45 first exactly when it is negative, then digits without a leading zero whose value is its magnitude |
| TreeFormat.DigitsUnique | Huffman Coding/huffman-proj/tree.c:115-121 | Digits without a leading zero are determined by their value |
| TreeFormat.RecordTextIs | Huffman Coding/huffman-proj/tree.c:115-121 | A record is printed as its six numbers in order, byte 32 between two and byte 44 after the last |
| TreeFormat.TreeTextIs | Huffman Coding/huffman-proj/tree.c:109-168 | The text of a tree is byte 35, what stands between the two 35s for the left subtree, the same for the right one, the record of the root, and byte 35 |
| TreeFormat.SizeIsNodes | Huffman Coding/huffman-proj/tree.c:40-46 | The size of a tree is the number of its ids and of its records |
| TreeFormat.ScanIntIs | Huffman Coding/huffman-proj/tree.c:205-217 | A number is read exactly when a spelling of it comes first, white space, an optional sign and digits, and no digit follows |
| TreeFormat.ScanRecordIs | Huffman Coding/huffman-proj/tree.c:205-217 | A record is read exactly when six numbers can be read one after the other, and then one comma is passed if it is there |
| TreeFormat.ParseTreeIs | Huffman Coding/huffman-proj/tree.c:175-285 | A file holds given records if and only if it begins with byte 35 and they follow one another, byte 35 behind the last and no other, a byte 0xFF behind another being lost |
| TreeRebuild.Unlink | Huffman Coding/huffman-proj/tree.c:240-267 | The child leaves the list exactly when the node visited before it is itself on the list or there is none |
| TreeRebuild.AttachChildren | Huffman Coding/huffman-proj/tree.c:228-270 | After the walk the list is what Kept says, linked without a cycle, and the new node has the children that were on the list |
| TreeRebuild.AddRecord | Huffman Coding/huffman-proj/tree.c:201-277 | One record adds one node at the head of the list and leaves the children of the others |
| TreeRebuild.ReadRecords | Huffman Coding/huffman-proj/tree.c:198-285 | All records up to the closing # become the graph they describe; a fault gives NULL |
| TreeRebuild.ResetNext | Huffman Coding/huffman-proj/tree.c:287-301 | The last loop is safe exactly when the list has more than one node, and resets all pointers but the head's |
| TreeRebuild.Deserialize | Huffman Coding/huffman-proj/tree.c:175-302 | NULL for a malformed file, a crash for a list of one node, otherwise the last node read with the graph of the records |
| TreeRebuild.UnlinkChildren | Huffman Coding/huffman-proj/tree.c:240-267 | With both children on the list the right one goes, and the left one goes exactly when something stands between them |
| TreeRebuild.ListAfterTree | Huffman Coding/huffman-proj/tree.c:201-277 | After the records of a subtree the list is its root, its leftovers, and what was there before |
| TreeRebuild.GraphIsTree | Huffman Coding/huffman-proj/tree.c:201-277 | The graph described by the records of a tree represents that tree, whatever leftovers are on the list |
| TreeRebuild.TreeUniqueIds | Huffman Coding/huffman-proj/tree.c:109-147 | The records of a tree with distinct ids meet what the reader relies on |
| TreeRebuild.TreeTextHasUniqueIds | Huffman Coding/huffman-proj/tree.c:156-168 | So does the text that was printed for it |
| TreeRebuild.TreeIsRebuilt | Huffman Coding/huffman-proj/tree.c:175-302 | Reading back what was printed gives a tree equal in shape, kind, id and frequency if and only if the root is internal; a single leaf crashes the reader |
| Codec.WriteText | Huffman Coding/huffman-proj/encoder.c:88-110 | The bits of the whole text are written, or encoding stops at the first character without a code, which is named |
| Codec.EncodeWith | Huffman Coding/huffman-proj/encoder.c:68-111 | The file is the text of the tree followed by the packed codes |
| Codec.Compress | Huffman Coding/huffman-proj/huffc.c:12-41 | No tree exactly when nothing is counted, 0xFF without a code exactly when something is and the text has 0xFF, otherwise a file of the text |
| Codec.DecodeOne | Huffman Coding/huffman-proj/decoder.c:76-99 | The loop returns the character the walk reaches and has consumed exactly its code, or EOF when the bits run out |
| Codec.DecodeText | Huffman Coding/huffman-proj/decoder.c:105-114 | Characters are written until the bits run out, with none made from the padding of the last byte |
| Codec.Expand | Huffman Coding/huffman-proj/huffd.c:12-37 | A file that holds a tree with an internal root is decoded bit by bit; a single leaf crashes |
| Codec.ExpandMalformed | Huffman Coding/huffman-proj/decoder.c:29-56 | A file that does not parse gives no tree |
| Codec.RootIsInternal | Huffman Coding/huffman-proj/huffman.c:149-163 | The tree of a text has an internal root exactly when the text has two different bytes |
| Codec.FileHoldsTree | Huffman Coding/huffman-proj/encoder.c:83-111 | The file of a text parses as its tree followed by bits that decode to the text |
| Codec.PayloadSize | Huffman Coding/huffman-proj/bits-io.c:305-311 | After the tree the file has the sum of the internal frequencies divided by 7, rounded up, bytes, and no other code tree needs fewer |
| Codec.CompressThenExpand | Huffman Coding/huffman-proj/huffd.c:12-37 | Compressing and expanding gives the text back if and only if it has no byte 0xFF and at least two different bytes; the other inputs fail in the ways named |
| CodecExample.FileOfAab | Huffman Coding/huffman-proj/huffc.c:12-41 | The file of the text aab, byte by byte: #1 2 1 98 0 0,1 1 2 97 0 0,0 3 3 0 2 1,# and 0xF1 |
| AddressBits.FieldByShifts | CacheSimulation/cache-sim/src/bits.c:5-30 | Shifting the bits above a field out on the left and those below it out on the right is division and remainder |
| AddressBits.FieldsAreDivMod | CacheSimulation/cache-sim/src/bits.c:5-30 | For every 32-bit address the shifts compute byte, set and tag as remainders and quotients, each within its range |
| AddressBits.Recompose | CacheSimulation/cache-sim/src/bits.c:5-30 | The three fields make up the address |
| AddressBits.SameBlock | CacheSimulation/cache-sim/src/cache.c:57-63 | Two addresses share tag and set exactly when they lie in the same block |
| LruSpec.HeldIsRecent | CacheSimulation/cache-sim/src/lru.c:49-97 | Holding k tags with LRU replacement is holding the k most recently used distinct ones, newest first |
| LruSpec.PlaceInRecency | CacheSimulation/cache-sim/src/lru.c:49-97 | A used tag stands behind exactly the tags used since |
| LruSpec.HitIff | CacheSimulation/cache-sim/src/lru.c:49-97 | An access hits exactly when its tag was used before and fewer than k others were used since |
| LruSpec.EveryAccessCounted | CacheSimulation/cache-sim/src/cpu.c:30-40 | Hits and misses of a set add up to its accesses |
| LruSpec.ColdMisses | CacheSimulation/cache-sim/src/lru.c:64-75 | Cold misses number the smaller of k and the distinct tags seen, which is also how many lines are used |
| LruSpec.MoreLinesHoldMore | CacheSimulation/cache-sim/src/lru.c:49-97 | With more lines the tags held with fewer come first |
| LruSpec.MoreLinesMissLess | CacheSimulation/cache-sim/src/lru.c:49-97 | More lines never miss more |
| LruCompetitive.PhiLruStep | CacheSimulation/cache-sim/src/lru.c:76-97 | A conflict miss lowers the potential by at least k - cap + 1 and no access raises it |
| LruCompetitive.PhiPolicyStep | CacheSimulation/cache-sim/src/lru.c:41-99 | A step of the other policy raises potential and size by at most k for a fault and by nothing otherwise |
| LruCompetitive.ConflictsCharged | CacheSimulation/cache-sim/src/lru.c:76-97 | Over a whole run the conflict misses are paid for by the faults of any other policy |
| LruCompetitive.Competitive | CacheSimulation/cache-sim/src/lru.c:41-99 | LRU with k lines misses at most k / (k - cap + 1) times as often as any policy with room for cap tags, up to filling the lines |
| LruCompetitive.KCompetitive | CacheSimulation/cache-sim/src/lru.c:41-99 | At most k times the faults of any policy on k lines that start empty, plus k |
| CacheCompetitive.CacheIsCompetitive | CacheSimulation/cache-sim/src/cpu.c:28-41 | Over any trace the whole cache misses at most line_count times as often as any policy on caches of the same shape faults, plus the number of its lines |
| LruFetch.StopPosition | CacheSimulation/cache-sim/src/lru.c:46-97 | Where the pass stops and with what result, in terms of the tags held |
| LruFetch.TagsAfterFetch | CacheSimulation/cache-sim/src/lru.c:89-95 | The tags after a pass are those after one LRU access, and unused lines stay last |
| LruFetch.FetchIsLruStep | CacheSimulation/cache-sim/src/lru.c:41-99 | One pass decides as LRU does and keeps unused lines last and tags distinct |
| LruFetch.OnePassIsRightIff | CacheSimulation/cache-sim/src/lru.c:46-97 | The single pass tells hits from misses for every tag if and only if unused lines come last |
| LruQueue.Line.constructor | CacheSimulation/cache-sim/src/cache.c:17-31 | A new line is unused, has tag 0 and a block of its own |
| LruQueue.MakeLines | CacheSimulation/cache-sim/src/cache.c:17-31 | Unused lines that share no block |
| LruQueue.InitQueue | CacheSimulation/cache-sim/src/lru.c:6-18 | One node for each line, chained in order |
| LruQueue.CacheSet.constructor | CacheSimulation/cache-sim/src/cache.c:33-46 | A set of unused lines whose queue orders exactly its lines |
| LruQueue.MovedIsLinked | CacheSimulation/cache-sim/src/lru.c:89-91 | The three pointer assignments make the queue with that node first, without losing or repeating one |
| LruQueue.CacheSet.Relink | CacheSimulation/cache-sim/src/lru.c:89-91 | The same for the statements |
| LruQueue.CacheSet.MoveToFront | CacheSimulation/cache-sim/src/lru.c:89-91 | The node comes first and the others keep their order; lines stay as they are |
| LruQueue.CacheSet.Decide | CacheSimulation/cache-sim/src/lru.c:53-87 | What is decided at one line: stop there and with what result, or go on |
| LruQueue.CacheSet.Pass | CacheSimulation/cache-sim/src/lru.c:46-87 | The loop stops at the first line with the tag, the first unused one, or the last |
| LruQueue.CacheSet.Fetch | CacheSimulation/cache-sim/src/lru.c:41-99 | The queue afterwards is the fetched one, its first line is returned, and the result is the decided one |
| CacheRuns.RunHolds | CacheSimulation/cache-sim/src/lru.c:49-97 | After any run from unused lines the used ones are a prefix of the queue and hold the most recent distinct tags, newest first, cut at the number of lines |
| CacheRuns.RunKind | CacheSimulation/cache-sim/src/lru.c:53-87 | The next result of any run is that of LRU, and a conflict happens only when every line is used |
| CacheRuns.RecordsAreExact | CacheSimulation/cache-sim/src/cache.c:102-126 | In every reachable state a used line marks exactly the bytes of its block touched since its last miss |
| CacheRuns.HitsByRecency | CacheSimulation/cache-sim/src/cache.c:102-126 | An access of a trace hits exactly when its tag was used before in its set and fewer than line_count others were used since |
| CacheRuns.CountersAddUp | CacheSimulation/cache-sim/src/cpu.c:30-40 | Hits, cold and conflict misses add up to the accesses |
| CacheRuns.MoreLinesNeverHurt | CacheSimulation/cache-sim/src/cpu.c:30-40 | Over a whole trace more lines in each set give no fewer hits and no more misses |
| CacheRuns.CountersBySet | CacheSimulation/cache-sim/src/cpu.c:30-40 | The counters are the sums of what each set counts when it runs LRU alone |
| CacheAddresses.HitsByAddress | CacheSimulation/cache-sim/src/cache.c:102-126 | Over any trace of words: an access hits exactly when its block was touched before and fewer than line_count other blocks of its set were touched since, blocks and sets given by division of the addresses |
| CacheAddresses.ColdByAddress | CacheSimulation/cache-sim/src/cache.c:102-126 | A miss is cold exactly when the block was never touched and fewer than line_count blocks of its set were; so a conflict finds all lines taken |
| CacheAddresses.LastUse | CacheSimulation/cache-sim/src/lru.c:49-97 | What a set was used for since a block was last touched, by position in the trace |
| CacheAddresses.BytesByAddress | CacheSimulation/cache-sim/src/cache.c:109-125 | The bytes recorded for a block are the remainders of the addresses that touched it from its last miss on |
| CacheRecords.RecordsByAddress | CacheSimulation/cache-sim/src/cache.c:109-125 | After any trace, a used line marks byte b exactly when an address of its block with remainder b came at or after the line's last miss |
| CacheRecords.LinesMarkBytes | CacheSimulation/cache-sim/src/cache.c:109-125 | The same of the arrays on the heap, in every state of a cache |
| CacheSim.SplitAddress | CacheSimulation/cache-sim/src/bits.c:5-30 | The shifts give byte, set and tag as remainder and quotients by the size of a block and the number of sets |
| CacheSim.ClearRecord | CacheSimulation/cache-sim/src/cache.c:115-120 | All bytes of the record become 0 |
| CacheSim.MarkByte | CacheSimulation/cache-sim/src/cache.c:115-123 | Only the first line's record changes: cleared on a miss, then marked |
| CacheSim.AccessSet | CacheSimulation/cache-sim/src/cache.c:109-125 | One access to a set: the fetch, the record, and the result |
| CacheSim.MakeSets | CacheSimulation/cache-sim/src/cache.c:33-46 | Sets of unused lines that share no object |
| CacheSim.Cache.constructor | CacheSimulation/cache-sim/src/cache.c:48-76 | A cache that has seen no access, with 2^set_bits sets |
| CacheSim.Cache.Access | CacheSimulation/cache-sim/src/cache.c:102-126 | The set of the address runs one access further, every other set is undisturbed, and the result is that of LRU on the trace so far |
| CacheSim.Cpu.constructor | CacheSimulation/cache-sim/src/cpu.c:13-22 | All counters are 0, whatever the cache was used for before |
| CacheSim.Cpu.Run | CacheSimulation/cache-sim/src/cpu.c:28-41 | Each counter goes up by the accesses of this run with that result, and the trace by the addresses |
| Command.IntRoundTrip | Bank-Atm Simulation/bank-proj/command.c:24-36 | An int survives packing and unpacking exactly when it fits 32 bits |
| Command.BytesRoundTrip | Bank-Atm Simulation/bank-proj/command.c:24-36 | Any four bytes are the packed form of what they unpack to |
| Command.UnpackPacked | Bank-Atm Simulation/bank-proj/command.c:38-53 | A message survives exactly when its fields fit an int |
| Command.PackUnpacked | Bank-Atm Simulation/bank-proj/command.c:38-53 | Any 17 bytes are the packed form of what they unpack to |
| Command.PackedDigits | Bank-Atm Simulation/bank-proj/command.c:24-29 | The first byte is the most significant: the bytes are the digits to base 256 modulo 2^32, and the first is at least 128 exactly when the int is negative |
| Command.PackedOrder | Bank-Atm Simulation/bank-proj/command.c:24-29 | The order of the bytes is that of the unsigned numbers |
| Command.PackInt | Bank-Atm Simulation/bank-proj/command.c:24-29 | The array holds the packed int |
| Command.Command.Pack | Bank-Atm Simulation/bank-proj/command.c:38-44 | The buffer holds the packed message |
| Command.Command.Unpack | Bank-Atm Simulation/bank-proj/command.c:46-53 | The message is read from the buffer |
| BankServer.Bank.constructor | Bank-Atm Simulation/bank-proj/bank.c:86-94 | All accounts are 0 and all pipes are empty |
| BankServer.Bank.Deposit | Bank-Atm Simulation/bank-proj/bank.c:150-163 | The account is credited, or the reply says that it is unknown |
| BankServer.Bank.Withdraw | Bank-Atm Simulation/bank-proj/bank.c:165-184 | The account is debited, or the reply gives the reason; an unknown account is reported by the to field |
| BankServer.Bank.Transfer | Bank-Atm Simulation/bank-proj/bank.c:187-212 | Both accounts change or none does, with the first reason that applies |
| BankServer.Bank.Balance | Bank-Atm Simulation/bank-proj/bank.c:216-228 | The amount replied is what the array holds for the account with the ATM's number, and the accounts stay |
| BankServer.Bank.Process | Bank-Atm Simulation/bank-proj/bank.c:120-235 | Accounts, ATM count and the one pipe written to are as specified for the message; an unknown ATM or command changes nothing, and only code 2 lowers the count |
| BankServer.Bank.Run | Bank-Atm Simulation/bank-proj/bank.c:243-266 | The loop serves what arrives until every ATM has left, skipping messages of unknown ATMs |
| BankServer.ClosesIff | Bank-Atm Simulation/bank-proj/bank.c:243-266 | The loop ends well exactly when as many EXITs as ATMs arrive before anything the bank cannot answer |
| BankServer.MoneyIsConserved | Bank-Atm Simulation/bank-proj/bank.c:150-212 | A message changes the total by what an accepted deposit brings or an accepted withdrawal takes; transfers leave it |
| BankServer.MovedTotal | Bank-Atm Simulation/bank-proj/bank.c:204-208 | A transfer keeps the total, and one from an account to itself changes nothing |
| BankServer.StaysNonNegative | Bank-Atm Simulation/bank-proj/bank.c:150-212 | A message keeps all balances non-negative, whatever they are, if and only if it is not a deposit or transfer of a negative amount between valid accounts |
| BankServer.RefusalNamesAccount | Bank-Atm Simulation/bank-proj/bank.c:150-228 | A refusal for an unknown account names it, but for a withdrawal or balance request only if both accounts of the message are the same |
| BankServer.BalanceReportsOwnNumber | Bank-Atm Simulation/bank-proj/bank.c:216-228 | A balance request reports the account it names for all balances if and only if that is the ATM's own number |
| BankProtocol.InitOk | Bank-Atm Simulation/bank-proj/banksim.c:36-87 | The processes start in the invariant |
| BankProtocol.AdvanceKeeps | Bank-Atm Simulation/bank-proj/atm.c:117-155 | Skipping, sending, and ending at the trace's end or an unknown command keep the invariant |
| BankProtocol.ReceiveKeeps | Bank-Atm Simulation/bank-proj/atm.c:82-105 | Receiving a reply keeps it |
| BankProtocol.ServeAtms | Bank-Atm Simulation/bank-proj/bank.c:120-235 | Serving a request keeps how every ATM stands to its pipes |
| BankProtocol.ServeBank | Bank-Atm Simulation/bank-proj/bank.c:243-266 | Serving a request keeps accounts, count and replies in step with what was served |
| BankProtocol.StepKeeps | Bank-Atm Simulation/bank-proj/banksim.c:48-87 | Every step of every process keeps the invariant |
| BankProtocol.AlwaysOk | Bank-Atm Simulation/bank-proj/banksim.c:48-87 | It holds in every state that any interleaving reaches |
| BankSafety.OneInFlight | Bank-Atm Simulation/bank-proj/atm.c:77-85 | At most one message of an ATM is in flight, and only while it waits |
| BankSafety.RepliesMatchRequests | Bank-Atm Simulation/bank-proj/atm.c:77-101 | The j-th reply an ATM got is the bank's answer to the ATM's j-th command, for the balances at that time |
| BankSafety.ServedInOrder | Bank-Atm Simulation/bank-proj/bank.c:243-266 | The bank serves what the ATMs send in the order it was sent: served and waiting requests together only grow at the end |
| BankReplies.StatusIsTrue | Bank-Atm Simulation/bank-proj/atm.c:82-101 | The status returned for a command served with any balances: unknown account exactly when a needed one does not exist, no funds exactly when it takes more than an existing account holds, otherwise success; and the accounts change by credit and debit exactly then |
| BankReplies.BalanceIsReceived | Bank-Atm Simulation/bank-proj/bank.c:150-212 | In any log of answers each balance is what the requests answered by OK brought less what they took |
| BankReplies.BalanceTold | Bank-Atm Simulation/bank-proj/bank.c:216-228 | In every reachable state, a balance request got as amount what the account of the ATM's number had received when it was served; without a lack of funds before, the net of all requests served before |
| BankReplies.StatusTold | Bank-Atm Simulation/bank-proj/atm.c:77-101 | In every reachable state, the status of the j-th command of an ATM says what the accounts had received at the place where it was served |
| BankSafety.MoneyInEveryState | Bank-Atm Simulation/bank-proj/bank.c:150-212 | In every reachable state the total is accepted deposits less accepted withdrawals, and balances are non-negative if no command takes by a negative amount |
| BankSafety.FinalBalances | Bank-Atm Simulation/bank-proj/bank.c:150-212 | Once every ATM has ended and funds never lacked, each balance is the net of the credits and debits the ATMs had to send |
| BankSafety.PlannedIsTrace | Bank-Atm Simulation/bank-proj/atm.c:125-155 | When all commands are known and of existing ATMs, that net is over the whole trace |
| BankSafety.OrderDoesNotMatter | Bank-Atm Simulation/bank-proj/banksim.c:48-87 | Any two such runs end with the same accounts |
| BankFunds.FundedIsEnough | Bank-Atm Simulation/bank-proj/bank.c:165-212 | If every command that takes money is funded by what its ATM sent before and by the least that each other ATM can have brought, no run meets a lack of funds |
| BankFunds.RefusingRun | Bank-Atm Simulation/bank-proj/bank.c:165-212 | A command that is not so funded is refused in some run: each ATM is held where it leaves least, and then the command is served |
| BankFunds.NeverRefusedIff | Bank-Atm Simulation/bank-proj/bank.c:165-212 | For a trace that lets every run end, no run ever meets a lack of funds if and only if every command that takes money is so funded, which is decided from the trace alone |
| BankFunds.FundedOrderIsFree | Bank-Atm Simulation/bank-proj/banksim.c:48-87 | For such a trace any two runs to the end of all ATMs leave the same accounts |
| BankFunds.FundedRunsAgree | Bank-Atm Simulation/bank-proj/banksim.c:48-87 | And every run that can go no further is a proper end with each balance the net of what the ATMs had to send |
| BankOrder.RunsAlone | Bank-Atm Simulation/bank-proj/atm.c:117-160 | An ATM can do the rest of its work with nothing in between, and the accounts are those after its commands one by one |
| BankOrder.OrderMatters | Bank-Atm Simulation/bank-proj/bank.c:165-184 | For a trace that lets every run end, two runs to a proper end that leave 0 and 5 in the account, so funds must not lack |
| BankOrder.ContendedIsNotFunded | Bank-Atm Simulation/bank-proj/bank.c:165-184 | The condition on the trace rules that trace out without a run |
| BankMethods.TransactIsSteps | Bank-Atm Simulation/bank-proj/atm.c:54-115 | One call of atm is one step of the ATM that writes the same and, if it wrote, one that takes the same reply and goes on or ends alike |
| BankMethods.AtmIsRun | Bank-Atm Simulation/bank-proj/atm.c:117-160 | In every reachable state an ATM that can take no step has sent what atm_run sends given the same replies |
| BankMethods.BankIsRun | Bank-Atm Simulation/bank-proj/bank.c:243-266 | In every reachable state the bank has the balances, count and replies that run_bank has once it took the same requests in the same order |
| BankLiveness.StepUsesWork | Bank-Atm Simulation/bank-proj/banksim.c:48-87 | Every step lowers a measure |
| BankLiveness.RunsAreBounded | Bank-Atm Simulation/bank-proj/banksim.c:48-87 | A run has at most 3 n + 1 steps for each ATM, where n is the length of the trace |
| BankLiveness.StuckEnds | Bank-Atm Simulation/bank-proj/bank.c:243-266 | If the trace lets every ATM leave, a state without a step is a proper end |
| BankLiveness.HeldCloses | Bank-Atm Simulation/bank-proj/bank.c:243-266 | If an ATM has something to send after its last EXIT, the others can make the bank close before |
| BankLiveness.StaysOpen | Bank-Atm Simulation/bank-proj/atm.c:77-85 | Otherwise some schedule leaves an ATM or the bank waiting for ever |
| BankLiveness.EveryRunEndsIff | Bank-Atm Simulation/bank-proj/banksim.c:48-87 | Every run comes to a proper end if and only if the trace has as many EXITs as ATMs and no ATM sends anything after its last EXIT |
| BankLiveness.ClosesWhenAllServed | Bank-Atm Simulation/bank-proj/bank.c:243-266 | For such a trace, in every reachable state, the bank's loop is over exactly when everything the ATMs had to send was served |
| BankLiveness.NothingIsLeft | Bank-Atm Simulation/bank-proj/banksim.c:48-87 | At a proper end all pipes are empty and every command was served |
| BankLiveness.OneExitEach | Bank-Atm Simulation/bank-proj/twriter.c:116-121 | One EXIT for each ATM, as its last command, is enough |
| AtmClient.AtmProcess.Transact | Bank-Atm Simulation/bank-proj/atm.c:54-115 | What is sent, what is taken from the pipe, and the status; what a status means for the accounts is BankReplies.StatusIsTrue |
| AtmClient.RunEnds | Bank-Atm Simulation/bank-proj/atm.c:117-160 | A run waits in the end exactly when a reply is missing, and ends well exactly when each message got a proper reply and every command of its own is known |
| AtmClient.AtmProcess.Run | Bank-Atm Simulation/bank-proj/atm.c:117-160 | With a proper reply to each, an ATM sends just its commands in order and ends well unless it does not know one; otherwise it stops at the command whose reply it lacks or rejects |

## Left out

- TreeRebuild.Deserialize: requires that the records in the file have unique ids different from 0 and name no child twice; files with repeated ids, which the printer never writes, are not modelled.
- Codec.ExpandMalformed: has the same requirement on the records before the fault.
- BankFunds.NeverRefusedIff: is stated for traces that let every run end; for others the condition is still enough (BankFunds.FundedIsEnough), but the bank may close before the command is served.
- Codec.Expand: takes files whose tree was printed for some tree and whose remaining bytes are neither 0xFE nor 0xFF, as the writer leaves them; on those two bytes the reader behaves differently and they are not modelled.
- TreeRebuild.AttachChildren: requires that the list has no id 0 and the record does not name one node as both children; TreeRebuild.Deserialize says why.
- TreeRebuild.AddRecord: requires that the record's id is new and the like.
- TreeRebuild.ReadRecords: requires the same of all records.
- PQueue.PriorityQueue.ShiftLeft: with 256 entries the loop reads past the array; the value read is arbitrary, and dequeuing does not depend on it. The program never has more than 255.
- CacheSim.Cache.constructor: requires at least one line, set bit and block bit and at most 31 bits together; outside this a shift is by 32 or more, or the result of a fetch is never set.
- BankServer.Bank.Balance: an ATM number past the last account makes the program read outside its array; the value read is an arbitrary parameter.
- BankReplies.BalanceTold: is stated for ATMs whose number is an account; for another the amount is what lies outside the array.
- BankSafety.FinalBalances: amounts and balances are mathematical integers, so overflow beyond 32 bits is not modelled; the same holds for character frequencies, node ids and the cache counters.
- The body of `qsort`: any sorted permutation is allowed, and every result holds for all of them.
- The standard library's `fprintf` and `fscanf` beyond decimal numbers, white space and the comma of a record; the number read is not limited to 32 bits.
- Releasing memory, failing allocation, and file and pipe errors; files are byte sequences and pipes are queues whose operations succeed.
- A pipe that is closed early: `BankServer.Bank.Run` and `AtmClient.AtmProcess.Run` return a read error where input ends, but in the simulation every pipe stays open, because the processes inherit its ends, so a process there waits for ever.
- Printing, dumping and error texts, the hit rate computed in `run_cpu`, the textual format of address traces, and the header of a bank trace with its two counts.
- The temporary file names and command line of `huffc` and `huffd`; both are modelled from text to bytes and back.
- `tableg`, `treeg`, `twriter`, `treader` and the trace generators.
- `WordFrequency`, `JavaSet`, `Client-ServerSimulation`, `HandDigitRecognition` and `count-strings-proj`: they would add only weaker forms of the arguments here or wrap library calls.
