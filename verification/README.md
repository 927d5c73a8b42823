# Squashfuse: verified model

Squashfuse reads SquashFS 4.0 images. It puts fast structures over simple byte streams: block
caches, an index into long block lists, an index into directories, cursors that are filled in
lazily, a traversal without recursion, lookup tables for Huffman codes. This project models those
structures and proves that each agrees with the plain thing it speeds up.

`dafny verify dfyconfig.toml` checks everything. One module per component:

- `Bytes`, `Metadata`: little-endian fields; a chain of metadata blocks read as one flat stream.
- `DataBlocks`, `BlockIndex`, `ReadRange`: a file's list of block sizes, the index that jumps into
  it, and reading a byte range out of blocks, holes and a fragment tail.
- `Stored`: images as a writer lays them out, byte by byte, and that they read back.
- `SharedCache`: the thread-safe block caches, as steps of any number of threads over slots,
  mutexes and reference counts. `SharedLookups`: what their callers get. `FifoCache`: their
  single-threaded counterpart. `CachedRead`: reading the flat stream through either.
- `Directory`, `ReadDir`, `Traverse`, `PathLookup`: directory listings with their index and resumable
  offsets, reading them page by page, the tree walk with its path buffer, and looking up a path.
- `Xattrs`: the extended attribute iterator.
- `HashTable`, `InodeMap`: the doubling hash and the FUSE inode numbering built on it.
- `Huffman`, `MatchCopy`, `Adler32`: decoding tables, match copy and checksum of the inflater.

How to read the contracts:

- Code that updates objects in place is a class or a method over arrays; its contract gives the new
  state as a function of the old, and lemmas say what that function means.
- Images are arbitrary bytes. A decompressor is an arbitrary function from input and output size to
  contents or failure. Reading beyond the image fails. What a C function reports through its error
  code is a result here, never excluded by a precondition.
- In `Xattrs` and `Directory` a ghost flag `full` says whether the metadata concerned can be read to
  its end. If it cannot, calls may fail, but whatever they deliver up to the first call that fails is
  right. Nothing is said about calls after that one.

What the results assume, as explicit predicates:

- Metadata blocks of a block list or a directory, except the last, decode to 8192 bytes
  (`Metadata.FullBlocks`, `DataBlocks.WellFormedList`), and a cursor does not point past the end of
  its block (`Metadata.ValidCursor`).
- The metadata blocks of a block list lie within 32 bits of the inode table, as inode references
  require (`BlockIndex.NearInodeTable`); the block size is not zero, and the fragment table has blocks
  enough for its entries, which lie inside them (`DataBlocks.WellFormedFs`).
- Data blocks, except a file's last, decode to the block size (`ReadRange.WellFormedData`).
- A data header is a function of its position (`SharedCache.Env.headerOf`).
- Entries and headers of a directory are within the widths of their fields, and names have 1 to 256
  bytes (`Directory.AllWellFormed`). Names contain no NUL and ascend in byte order
  (`Directory.Sorted`), needed for lookup only; each index entry describes a real header
  (`Directory.Describes`).
- The space FUSE takes for an entry grows with its name and is the same for "." and ".."
  (`ReadDir.Padded`).
- An out-of-line attribute value has an inline size of eight (`Xattrs.Attr.Inline`).

Places where the code does less than one might expect, and exactly when:

- The block index is also consulted for a read that starts in the fragment of a file, at the block
  number equal to the block count. If then the list ends exactly where a metadata block does, the
  lookup leaves the array that was allocated, and if it ends one to three bytes further, the entry was
  never filled in (`BlockIndex.AccessAllocated`, `BlockIndex.AccessRecorded`, with an input for each).
  Nothing read there is used for the result, so the bytes delivered are right provided the load itself
  is harmless; `ReadRange.Read` reports when it happens.
- A table built for a single symbol, or for none, leaves bits that start with no codeword. They are
  taken for symbol 0, mostly without being consumed (`Huffman.Decode`, `Huffman.MatchCondition`, and
  `Huffman.OneBitCode` for the one-bit distance code).
- A read of zero bytes before the end of a file reports an error; `ReadRange.Read` says so.
- An assertion in the single-threaded cache fails on a key whose fill failed recently and on key
  zero in a cache not yet full, and on nothing else (`FifoCache.SearchFailsExactly`;
  `FifoCache.ZeroFails` and `FifoCache.FailedFillFails` are inputs).
- An attribute iterator does not recover from a failed step over an out-of-line value: it has by then
  forgotten that the value is stored elsewhere (xattr.c:100-103).
- A hash table of capacity zero passes the test for powers of two (`HashTable.PowerTest`,
  `HashTable.ZeroCapacity`).
- Pruning a finished traversal turns the next call into an error; `Traverse.Traversal.Prune`.

## Model

| member | source | states |
|---|---|---|
| Bytes.EncodeRoundTrip | swap.c:27-43 | a little-endian field returns what was stored in it, modulo its width |
| Bytes.LittleEndianSplit | swap.c:27-43 | least significant byte first: the bytes after the first i count 256^i times as much |
| Metadata.MdRead | fs.c:299-325 | n bytes read through a cursor are the next n of the flat stream, or the stream is shorter and the read fails; the cursor left denotes the rest; without a buffer it only skips |
| Metadata.AdvanceConsumes | fs.c:299-325 | the cursor can move n bytes exactly if the stream has them, and then stands before the rest of it |
| Metadata.AdvanceSplit | fs.c:299-325 | reading a bytes and then b bytes leaves the same cursor as reading a + b |
| Metadata.AdvanceByDivision | fs.c:318-321 | in a chain of full blocks, reading forward arrives at the cursor found by dividing by 8192 |
| DataBlocks.FragLookup | file.c:35-45 | the entry of a fragment, whose header is a 32-bit number, if there is one and its block can be read |
| DataBlocks.TableIsFlat | table.c:69-88 | in full blocks the fragment table is a flat array: entry i is its sixteen bytes at 16 * i |
| DataBlocks.DivCeil | fs.c:327-332 | the least number of groups that hold a total |
| DataBlocks.Blocklist.constructor | file.c:79-87 | a new list stands before the first block |
| DataBlocks.Blocklist.Step | file.c:89-111 | one step of the list object is one step of the specification, failing exactly when that does |
| DataBlocks.NextAt | file.c:89-111 | a step before block k succeeds exactly if the block is listed and its size can be read, and then knows what the flat list says about block k: header, stored size, file position, disk position |
| DataBlocks.WalkReadsList | file.c:79-111 | by induction, so do k steps from the start, for every k and wherever the metadata breaks off |
| DataBlocks.SameViewWalks | file.c:89-111 | lists with the same cursor, remaining count and next positions cannot be told apart by any number of steps |
| BlockIndex.EntryPlace | file.c:286-288 | where the k-th four-byte size starts when the list is not aligned to four bytes |
| BlockIndex.SkipBounds | file.c:286-313 | the jump skips at least one block and never past the one wanted, and lands on the first size that starts in its metadata block |
| BlockIndex.WhenIndexed | file.c:279-293 | the index is consulted exactly for files of at least 2048 blocks, at positions whose size lies past the first metadata block of the list |
| BlockIndex.AccessRecorded | file.c:281-312 | the entry looked up was recorded, exactly unless the position is the fragment's and no size starts in its metadata block |
| BlockIndex.AccessAllocated | file.c:244-312 | the entry looked up lies in the array allocated, exactly unless the position is the fragment's and the list ends where a metadata block does |
| BlockIndex.OutsideWitness | file.c:242-312 | that happens: 2048 blocks whose sizes fill one metadata block and a tail of one byte; entry 0 of an array of none is consulted |
| BlockIndex.UnrecordedWitness | file.c:242-312 | with the list one byte into a metadata block, entry 0 exists and is never filled in |
| BlockIndex.ReachBounds | file.c:250-267 | how many sizes the filling loop reads: up to the first of the last metadata block it has an entry for, or all |
| BlockIndex.CursorPlace | file.c:251-260 | a cursor offset below four marks exactly the first size in a new metadata block |
| BlockIndex.BlockMet | file.c:251-260 | the entry recorded then describes that metadata block and the data block to come |
| BlockIndex.LoopCovers | file.c:242-252 | the filling loop records every metadata block in which a size starts, whichever way it ends |
| BlockIndex.Add | file.c:228-271 | the array built describes every such metadata block; it fails exactly if the list cannot be read as far as the loop goes |
| BlockIndex.JumpLands | file.c:308-316 | jumping through a true entry gives a list that cannot be told from one walked there |
| BlockIndex.Jump | file.c:308-316 | the lookup and the jump give such a list, and the lookup leaves the array exactly in the case above |
| BlockIndex.FastForward | file.c:273-321 | with a cached or a new index, the list returned cannot be told from one advanced by the skipped number of single steps, which is at most the block wanted; at the fragment it is exhausted or stands at that place; it fails exactly if an index has to be built and cannot be |
| ReadRange.BlocksCover | file.c:69-77 | listed blocks begin inside the file, and with the fragment tail they cover it exactly |
| ReadRange.Read | file.c:113-194 | for any start and any size above zero, exactly the bytes of the file from start to the smaller of start + size and the end; at the end none; it succeeds exactly if the index, where one has to be built, the list as far as the last block wanted, the blocks that overlap the range, and the fragment with its table entry if the range goes past them, can be read; it says when the index is consulted outside its array |
| ReadRange.ReadBlocks | file.c:141-193 | the loop delivers those bytes, whichever mixture of blocks, holes and tail they come from, under that condition |
| ReadRange.ReadableAll | file.c:113-194 | the condition holds for every range of a file that can be read as a whole |
| ReadRange.HoldsUnique | file.c:113-194 | that determines the bytes |
| ReadRange.HoldsJoin | file.c:113-194 | adjacent ranges join |
| ReadRange.EveryByteExists | file.c:113-194 | every position of a readable file holds a byte |
| ReadRange.HolesAreZero | file.c:171-183 | every position in a listed block of stored size zero holds zero, and the block takes no space |
| ReadRange.CopyOut | extract.c:105-120 | reading a file in pieces of any size gives the whole file |
| Stored.MdReads | fs.c:134-204 | a metadata block stored as a two-byte header and its contents, plain if the top bit is set, is read as those contents, of any size from 1 to 32768 (stored as 0), and takes two bytes more; if compressed, as what its bytes decode to in 8192 bytes of room |
| Stored.MdFails | fs.c:159-170 | a compressed metadata block that does not decode cannot be read |
| Stored.ChainReads | fs.c:299-325 | metadata blocks stored one after the other read as their contents, one after the other |
| Stored.StreamReads | fs.c:294-325 | so does the stream from a cursor into the first of them |
| Stored.DataHeaderReads | fs.c:141-144 | bit 24 of a data header marks plain contents, and the other bits are the size, for every header of 32 bits |
| Stored.PieceReads | fs.c:146-214 | a data block stored plain or compressed, under its header, is read as its contents |
| Stored.FragmentReads | file.c:35-46 | a fragment table entry of eight bytes for the place, four for the header and four unused is looked up as that place and header |
| Stored.CountStored | file.c:62-77 | the file size accounts for exactly the blocks and the tail the file was cut into |
| Stored.LocationStored | file.c:99-105 | each block is looked for where the writer put it, holes taking no space |
| Stored.BlockStored | file.c:160-183 | every block of a stored file, plain, compressed or a hole, reads back as it was |
| Stored.ByteStored | file.c:113-194 | so does every byte, in a block or in the tail at its offset in a fragment |
| Stored.StoredIsReadable | file.c:113-194 | a stored file meets all that reading assumes |
| Stored.ReadStored | file.c:113-194 | a file cut into blocks with a tail in a fragment, all stored in the image: reading any range gives exactly the bytes of the file there, an empty result at the end and an error past it |
| Stored.CopyStored | extract.c:105-120 | copying such a file out in chunks of any size gives the file |
| Stored.SmallFileStored | file.c:35-67 | there are such files: an image of one fragment and its table entry |
| SharedCache.InitialInv | cache_mt.c:58-99 | empty caches and idle threads satisfy the invariant |
| SharedCache.StepHeap | cache_mt.c:123-167 | every step keeps reference counts equal to the references outstanding, and leaves a block with none to exactly one thread that will free it |
| SharedCache.StepRestores | cache_mt.c:123-167 | every step keeps mutexes, slots, blocks and completed lookups consistent |
| SharedCache.IndexSoleOwner | file.c:219-221 | a cached block index belongs to its slot alone, so evicting it may free it outright |
| SharedCache.InvStep | cache_mt.c:123-167 | the invariant is kept by hits, collisions, fills, failed fills, evictions and releases alike |
| SharedCache.RunsAreSafe | fs.c:216-282 | it holds in every reachable state of any number of threads |
| SharedCache.MemorySafe | common.h:81-91 | in every reachable state no pointer held is to freed memory, counts are exact, and no block is freed twice |
| SharedCache.LookupsAreTransparent | fs.c:216-275 | in every interleaving, whatever a lookup was answered with is what a fresh read at the key reported gives, with that block's size on disk |
| SharedCache.FullSlotsAreTrue | cache_mt.c:123-162 | in every reachable state the key of a full slot hashes to it, and its block is what the disk holds |
| SharedCache.HolderOf | file.c:296-318 | whoever holds a mutex another thread waits for is in the middle of a lookup; if it waits in turn, it holds an index slot and waits for a metadata slot |
| SharedCache.NoDeadlock | file.c:296-318 | in every reachable state, while any thread is in the middle of a lookup, some such thread can take its next step, which is a successful read where the disk holds the block |
| SharedCache.QuiescentHeap | cache_mt.c:101-121 | in every reachable state in which all is quiet, what is live is exactly what full slots hold, once each: nothing leaks |
| SharedLookups.RequestsAreKept | cache_mt.c:123-167 | in every interleaving, the request a thread works on is the one it began last and has not finished, from the lock to the unlock, also across the metadata lookups made while a block index is built |
| SharedLookups.LookupAnswered | fs.c:216-275 | the step that takes a reference answers that request once: its key, the contents and size on disk a fresh read there gives, and the caller's variable then points to a live block with that key and contents |
| SharedLookups.LookupsAnswerRequests | fs.c:216-275 | in every interleaving, the j-th answer is for the j-th request answered, as its thread had begun it, and is what a fresh read gives |
| SharedLookups.PointersAnswerRequests | fs.c:216-280 | in every reachable state a thread holds pointers in exactly the variables its finished lookups assigned and it has not released, each to the live block of the key it asked for |
| SharedLookups.LookupFinishes | cache_mt.c:123-167 | a lookup that has the lock, also one that is building an index, is answered after at most five steps of its own thread, if the disk holds the block |
| SharedLookups.ResidentHits | cache_mt.c:123-145 | whoever finds its key resident takes the block, without reading or freeing anything |
| SharedLookups.ResidentStays | cache_mt.c:123-162 | a key stays resident through every step but a lookup of another key with the same slot |
| SharedLookups.AnsweredIsResident | fs.c:216-275 | a lookup that has been answered leaves its key resident |
| FifoCache.FetchRefines | cache.c:104-141 | on every key, and whether or not fills succeed, the slots behave as a queue of the most recent misses |
| FifoCache.RunRefines | cache.c:104-141 | by induction, in every run of lookups the slots do what the queue does: what they hold, what missed, what was evicted, whether an assertion failed |
| FifoCache.RunsKeepDistinct | cache.c:104-141 | in every run no key is queued twice, and with non-zero keys and successful fills no assertion fails |
| FifoCache.SlotsDistinct | cache.c:104-130 | after every run no key is in two slots, save that unused slots all read zero |
| FifoCache.NeverFails | cache.c:109-115 | with non-zero keys and successful fills the assertion in the search never fails |
| FifoCache.FailsExactly | cache.c:109-115 | the queue's verdict: failure exactly on a key among the last misses whose fill failed, or on key zero while a slot is unused |
| FifoCache.SearchFailsExactly | cache.c:109-115 | after every run the assertion in the search over the slots fails in exactly those cases |
| FifoCache.ZeroFails | cache.c:109-115 | it does on the first lookup of a new cache, if that is for key zero |
| FifoCache.FailedFillFails | cache.c:109-115 | it does on the second lookup of a key whose fill failed |
| FifoCache.Lifetime | cache.c:117-129 | an entry stays queued until exactly as many further misses as there are slots; the last of them disposes of it, once |
| FifoCache.SlotLifetime | cache.c:104-130 | so an entry filled in after a miss is a hit in the slots until exactly then, and is evicted once |
| FifoCache.NothingLost | cache.c:117-129 | everything ever filled has been disposed of, in order, or is still queued |
| FifoCache.SlotsNothingLost | cache.c:117-129 | a key has been filled in as often as it has been evicted, and once more if it is in a valid slot |
| FifoCache.Cache.constructor | cache.c:53-73 | a new cache remembers no misses |
| FifoCache.Cache.Get | cache.c:104-130 | the lookup changes the slots as specified |
| FifoCache.Cache.MarkValid | cache.c:137-141 | the fill changes the slots as specified |
| FifoCache.Cache.Fetch | fs.c:216-275 | a block fetched through the cache is the one on disk, or the failure to read it |
| CachedRead.MdRead | fs.c:216-246 | reading metadata through the single-threaded cache is reading the flat stream, or an assertion fails, which it does not in a cache without failed fills |
| CachedRead.LookupsReadImage | fs.c:216-275 | over an image, in every interleaving, the j-th request answered got the metadata block at the position asked with its size on disk, or the data block there |
| CachedRead.LookupsAreFlat | fs.c:299-325 | lookups that each continue where the one before moved to give the flat stream |
| CachedRead.SharedReadsAreFlat | fs.c:216-325 | so requests that each ask for the position the answer before moved to are answered with the flat stream, whatever other threads do in between |
| Directory.EntryReads | dir.c:143-152 | the fields of an entry read back as stored, the name size less one, the inode difference signed |
| Directory.HeaderReads | dir.c:137-140 | so do those of a header, the count less one |
| Directory.Dir.constructor | dir.c:57-78 | a directory just opened has its whole listing to come, also if it is empty |
| Directory.Dir.NextHeader | dir.c:133-141 | passing a header changes nothing but where the next entry seems to start |
| Directory.Dir.NextEntry | dir.c:143-164 | the entry read is the first of those to come, and the rest remains |
| Directory.Dir.Next | dir.c:126-165 | each call returns the next entry of the listing with its inode, number, type, name and offsets, until there is none |
| Directory.ListingIsStored | dir.c:126-165 | the listing is exactly the stored entries, in order, each with its own run's block and inode number |
| Directory.ListingChained | dir.c:130-162 | each entry begins where the one before ended, and the last ends where the directory does |
| Directory.WholeAscends | dir.c:130-162 | no two places to resume at coincide |
| Directory.ReadIndex | dir.c:177-192 | an index entry is read, and halts the search exactly if its offset or name says so |
| Directory.Dir.FastForward | dir.c:168-196 | afterwards the rest of the listing is that from the last header before the first index entry that halts the search |
| Directory.IndexInChain | dir.c:190-194 | in full metadata blocks, an index entry that names a header's block describes it: the offset computed modulo 8192 is where reading on would arrive |
| Directory.ListingSuffix | dir.c:168-196 | the listing from a header on is the end of the whole listing |
| Directory.Dir.FastForwardTo | dir.c:212-228 | an offset is accepted exactly if it is zero or the next offset of an entry, and then exactly the entries after it remain |
| Directory.Open | dir.c:57-78 | opening at such an offset gives exactly the remaining entries, with or without an index; any other offset is an error |
| Directory.Trichotomy | dir.c:250-252 | strncmp over the searched name's length, with the sizes, orders a name before it, after it, or finds it equal, also for prefixes of one another |
| Directory.LessMeans | dir.c:250-252 | the order of names is that of their bytes at the first difference, a prefix coming first |
| Directory.NamesCompared | dir.c:275-282 | one comparison settles whether the name can occur before, at or after an entry |
| Directory.Dir.FindName | dir.c:275-284 | the search loop finds the name if it occurs in what is left, and nothing else |
| Directory.Lookup | dir.c:257-285 | lookup through the index finds an entry exactly if the name occurs in the whole listing, and returns that entry |
| ReadDir.Dots | ll.c:190-205 | "." and ".." come first, at offsets 0 and 1, as far as they fit; the offset that is left is negative exactly if "." does not fit |
| ReadDir.ItemsAre | ll.c:190-236 | "." and "..", then every entry with its own name and all that the listing says of it |
| ReadDir.PageFits | ll.c:190-236 | a page fits the buffer, and with one item more it would not |
| ReadDir.Fill | ll.c:210-236 | the entries from there on follow, as many as fit |
| ReadDir.Read | ll.c:161-243 | from an offset at which an item is read, the reply is exactly the items from it on that fit; it is an error exactly if the offset is none of those, or "." is asked for and does not fit |
| ReadDir.NextIsOffset | ll.c:190-218 | each item carries the offset at which the next one is read |
| ReadDir.OffsetsApart | ll.c:190-218 | no two items are read from the same offset |
| ReadDir.ReadAll | ll.c:161-243 | calls that each continue at the last item's offset give every item of the directory once and in order, whatever the size of the buffer, if it has room for any one of them |
| Traverse.Traversal.constructor | traverse.c:86-115 | what is to come at first is the recursive listing of the root, for whichever directories the caller is going to prune |
| Traverse.Traversal.PathAdd | traverse.c:216-240 | the path grows by the given bytes, reallocated or not, and stays terminated |
| Traverse.Traversal.PathRemove | traverse.c:242-249 | the path loses that many bytes, or becomes empty |
| Traverse.Traversal.GoDown | traverse.c:275-308 | a directory is entered and a slash added, or cannot be read |
| Traverse.Traversal.GoUp | traverse.c:310-322 | the path and the size of its last name are those of the directory left |
| Traverse.EntryTaken | traverse.c:141-162 | taking an entry from the directory on top leaves what the recursive listing has after it |
| Traverse.AfterEntry | traverse.c:169-174 | after a directory comes what is in it, its end marker, and the rest |
| Traverse.Traversal.GetNext | traverse.c:141-152 | choosing the next entry, the end or an error changes nothing that is to come |
| Traverse.Traversal.Next | traverse.c:134-199 | each call returns the next event of the recursive pre-order listing, with its path in the buffer, and terminates; when there is none it says so, or reports the error, from then on |
| Traverse.Traversal.Prune | traverse.c:201-204 | after a directory entry exactly what is in the directory and its end marker are left out, also if the directory cannot be opened or read; at any other event nothing is; after the end the next call fails |
| Traverse.PruneSkipped | traverse.c:201-204 | a caller that prunes the directories it wants to skip stays on course for the listing without them |
| Traverse.SkippedUnseen | traverse.c:201-204 | pruned directories may hold anything, faults included, without a difference to the entries listed or to how the walk ends |
| Traverse.ReachedIsListed | traverse.h:49-67 | every entry outside pruned directories is listed, under the slash-joined names that lead to it |
| Traverse.ListedIsReached | traverse.h:49-67 | nothing else is listed |
| Traverse.MarkersNest | traverse.h:59-67 | every directory entered is ended by exactly one marker, which carries its path, and markers nest |
| Traverse.EndsNormally | traverse.c:134-199 | the walk ends without error exactly if everything outside pruned directories can be read |
| Traverse.List | ls.c:62-70 | a whole run, with any directories pruned, lists the paths of the recursive listing without them and reports an error exactly if that does |
| PathLookup.LookupPath | dir.c:288-330 | a path is resolved by looking up its parts between slashes, one after the other |
| PathLookup.ComponentsOfJoin | dir.c:297-311 | names joined by slashes come apart again |
| PathLookup.SlashesSeparate | dir.c:297-311 | a slash separates; repeated, leading and trailing ones make no difference |
| PathLookup.ReachedResolves | dir.c:288-330 | names that lead to a node resolve to it |
| PathLookup.ListedResolves | traverse.c:134-199 | every path the tree walk shows can be looked up and leads to what was shown |
| PathLookup.SearchMeans | dir.c:257-285 | a name is found if it occurs before the directory breaks off, missing if the directory ends without it, an error otherwise |
| PathLookup.Outcomes | dir.c:288-330 | a path is found exactly if its names lead to an inode that can be read, and then that one; it is not found exactly if some of its first names lead to a directory that can be read to its end and lacks the next name; in all other cases the lookup fails |
| Xattrs.Iterator.constructor | xattr.c:72-92 | a new iterator stands before the first attribute |
| Xattrs.Iterator.Name | xattr.c:125-141 | the current attribute's name, with or without prefix, whatever was called before |
| Xattrs.Iterator.FollowReference | xattr.c:154-167 | the size of a value stored elsewhere, and where the next entry is |
| Xattrs.Iterator.ValueSize | xattr.c:143-173 | the size of the current attribute's value, inline or not, whatever was called before |
| Xattrs.Iterator.Value | xattr.c:175-192 | the current attribute's value, inline or not, whatever was called before |
| Xattrs.Iterator.StepOver | xattr.c:100-104 | passing a value nobody asked for, taking a reference for the value, arrives at the next entry |
| Xattrs.Iterator.ReadEntry | xattr.c:106-118 | the fixed part of the next entry |
| Xattrs.Iterator.Read | xattr.c:94-119 | the k-th read lands on attribute k, for every interleaving of calls in between of which none fails |
| Xattrs.Iterator.Find | xattr.c:207-243 | the first attribute from here on with the full name, or none has it |
| Xattrs.Iterator.Lookup | xattr.c:245-272 | size zero if no attribute has the name, else the size of its value, and the value if the buffer has room |
| Xattrs.FindPrefix | xattr.c:194-204 | the prefix the name starts with, or it starts with none |
| Xattrs.PrefixNames | xattr.c:42-46 | the prefixes are "user.", "trusted." and "security.", in the order of their types |
| Xattrs.NameMatches | xattr.c:220-235 | prefix type and rest of the name determine the full name |
| Xattrs.SlotReads | xattr.c:149-167 | the fields of a value slot read back as stored |
| Xattrs.CursorOfReference | fs.c:294-297 | a reference is a place in the table above its lower sixteen bits, which are an offset |
| Xattrs.HeadReads | xattr.c:106-112 | the type, the bit 256 for a value stored elsewhere, and the size of the name read back as stored |
| HashTable.MaskIsMod | hash.c:32 | masking with the capacity less one is the remainder |
| HashTable.PowerTest | hash.c:72-73 | the test on the capacity accepts exactly powers of two, and zero |
| HashTable.ZeroCapacity | hash.c:72-78 | zero is accepted, and the mask it gives leaves every key as it is |
| HashTable.ShapeAdd | hash.c:36-40 | putting a new key before its chain keeps every key once and in its bucket |
| HashTable.ShapeRemove | hash.c:121-126 | so does taking one out |
| HashTable.Hash.constructor | hash.c:70-82 | a new table is the empty map |
| HashTable.Hash.Locate | hash.c:117-129 | the node of a key and the one before it in its chain, or the key is absent |
| HashTable.Hash.Get | hash.c:97-106 | null exactly if the key is absent, else its node with its value |
| HashTable.Hash.SetValue | ll_inode.c:213-214 | writing through the pointer returned updates the map at that key |
| HashTable.Hash.AddInternal | hash.c:30-43 | the map with one more key |
| HashTable.Hash.Unlink | hash.c:121-126 | relinking a chain removes its node's key |
| HashTable.Hash.Remove | hash.c:117-131 | the map without the key, if it was there |
| HashTable.Hash.CopyChain | hash.c:55-63 | a chain copied over adds exactly its keys |
| HashTable.Hash.CopyAll | hash.c:54-64 | all chains copied over give the old map |
| HashTable.Hash.Double | hash.c:45-68 | twice the buckets, the same map, although every chain is relinked |
| HashTable.Hash.Add | hash.c:108-115 | the map with one more key; afterwards no more keys than buckets |
| InodeMap.Ino64RoundTrip | ll_inode.c:92-110 | the 64-bit numbering can be undone exactly for the root and for references other than 1 and 2, and avoids 0 |
| InodeMap.NumbersAreInverse | ll_inode.c:160-180 | the 32-bit conversions are inverse to each other on all 32-bit numbers |
| InodeMap.ReservedNumbers | ll_inode.c:130-137 | number 1 is the root's alone; 0 is given out exactly for the one inode that would need the 2^32-th number |
| InodeMap.PackKeeps | ll_inode.c:149-158 | packing keeps exactly references of 48 bits |
| InodeMap.Inodes.constructor | ll_inode.c:139-147 | at first no references are in use |
| InodeMap.Inodes.Register | ll_inode.c:208-228 | the table gains a reference, and the kernel gets the inode's number |
| InodeMap.Inodes.Forget | ll_inode.c:230-243 | the table loses references, and the entry once none are left |
| InodeMap.Inodes.Sqfs | ll_inode.c:189-202 | the reference of a FUSE inode as the table has it |
| InodeMap.TableIsExact | ll_inode.c:208-243 | after every run in which the kernel forgets no more than it looked up, the table holds exactly the inodes with references outstanding, with that count and the reference registered |
| InodeMap.KernelFindsInodes | ll_inode.c:189-243 | so each number the kernel still holds maps back to its inode, and a released one to none; none is told from an inode exactly unless that has the reference 1 |
| InodeMap.ReferencesApart | ll_inode.c:86-110 | no inode has reference 1 or 2, since stored inodes take at least twenty bytes, so none is told from every inode and the 64-bit numbering can be undone for all |
| Huffman.ReverseTwice | win/tinfl.c:323 | reversing the bits of a codeword twice gives it back |
| Huffman.MatchUnique | win/tinfl.c:314-323 | the canonical code is prefix-free, for every assignment of lengths |
| Huffman.MatchExists | win/tinfl.c:314-316 | bits below the end of a length start with some codeword |
| Huffman.ExactlyOneMatch | win/tinfl.c:314-316 | lengths that fill the code space: any bits start with exactly one codeword |
| Huffman.CodeFits | win/tinfl.c:315-323 | codewords fit their lengths |
| Huffman.CodeIsSum | win/tinfl.c:314-323 | a codeword is the room that shorter codewords and those of smaller symbols of its length take, the canonical code of section 3.2.2 of RFC 1951 |
| Huffman.CodesAscend | win/tinfl.c:314-323 | codewords of one length ascend with their symbols, and shorter ones come before longer ones |
| Huffman.ExampleCode | win/tinfl.c:314-323 | the codewords of the example in section 3.2.2 of RFC 1951 |
| Huffman.LevelsSum | win/tinfl.c:325-332 | the depths of the trees together have fewer inner nodes than there are long codewords |
| Huffman.InnerNodesFit | win/tinfl.c:106 | the trees never need more than the 576 slots of their array |
| Huffman.CountLengths | win/tinfl.c:313 | symbols per length |
| Huffman.FirstCodes | win/tinfl.c:314-315 | first codewords per length, symbols in use, and the filled code space |
| Huffman.BuildableMeans | win/tinfl.c:314-319 | the filled code space and the number of symbols in use decide what the lengths alone say |
| Huffman.Reverse | win/tinfl.c:323 | the codeword with its bits in stream order |
| Huffman.StoreShort | win/tinfl.c:324 | the first table decodes one more codeword |
| Huffman.StoreLong | win/tinfl.c:325-332 | the trees decode one more codeword, growing by the nodes that were missing |
| Huffman.Build | win/tinfl.c:309-333 | lengths are accepted exactly if 2^(16 - length) over the symbols in use sums to 65536 or no two symbols are in use; then both tables decode every codeword |
| Huffman.StepDown | win/tinfl.c:226 | a step down a tree follows the codeword's next bit, inside the array |
| Huffman.Decode | win/tinfl.c:223-227 | for any lengths the tables were built for and any bits: the one symbol whose codeword of section 3.2.2 of RFC 1951 they start with, and its length; if there is none, symbol 0, after as many bits as the walk took to find out |
| Huffman.StepAstray | win/tinfl.c:226 | without a match too a step down stays inside the array, and the walk ends at an empty slot |
| Huffman.MatchCondition | win/tinfl.c:314-319 | for lengths that are accepted, bits start with a codeword always if the code space is filled, and otherwise exactly if they are zero over the length of the one symbol in use |
| Huffman.OneBitCode | win/tinfl.c:309-333 | one code of one bit: accepted; an even bit buffer is that symbol, an odd one finds an empty slot |
| MatchCopy.CopiedMeaning | win/tinfl.c:421-468 | every byte of a match repeats the byte a distance before it, which may be part of the match, as in section 3.2.3 of RFC 1951, and nothing else changes |
| MatchCopy.CopyUnique | win/tinfl.c:421-468 | that determines the output |
| MatchCopy.CopySplit | win/tinfl.c:425-429 | a match interrupted at the end of the buffer and resumed is the whole match |
| MatchCopy.CopyBytewise | win/tinfl.c:423-431 | the bytewise path copies the match, as far as there is room |
| MatchCopy.CopyEights | win/tinfl.c:433-441 | so does copying words of four, when source and target do not overlap |
| MatchCopy.CopyThrees | win/tinfl.c:455-468 | so does copying three bytes at a time and the rest |
| MatchCopy.Copy | win/tinfl.c:415-469 | the match is the same whichever path is taken |
| Adler32.LateReduction | win/tinfl.c:488-494 | reducing the sums late gives the sums of section 2.2 of RFC 1950 |
| Adler32.ChecksumIs | win/tinfl.c:482-497 | the checksum in closed form: modulo 65521, one more than the sum of the bytes, and the sum in which byte i of n counts n - i times, and n |
| Adler32.UpdateIs | win/tinfl.c:482-497 | the same, continued from any earlier checksum |
| Adler32.FitsWord | win/tinfl.c:485-494 | 5552 bytes from 16-bit halves do not overflow 32 bits |
| Adler32.UpdateJoin | win/tinfl.c:485-496 | the checksum continues across calls |
| Adler32.AddBlock | win/tinfl.c:488-493 | the unrolled loop in 32-bit words adds up a block without wrapping |
| Adler32.Checksum | win/tinfl.c:482-497 | for every buffer, the checksum is the per-byte definition of RFC 1950 continued from the one given |

## Left out

- The rest of the inflater: the resumable coroutine, stored blocks, the code length alphabet, the wrapping output buffer, and the decoding path for the last bytes of the input, which needs fewer than 15 bits in the buffer.
- MatchCopy.Copy: lengths below three, which only invalid length symbols can give, are not modelled, nor is a distance beyond the bytes written, which the inflater rejects before.
- Huffman.Decode: takes a bit buffer that already holds 15 bits; filling the buffer is not modelled.
- Decompressors other than the inflater's tables, the file system calls, opening an image and its superblock, platform shims: an image is a sequence of bytes and a decompressor a function.
- Failure to allocate memory, in every component.
- Decoding of inodes: file and directory inodes are taken as decoded.
- ReadRange.Read: a negative start, which no caller passes, is not modelled; file positions do not wrap.
- BlockIndex.FastForward: the index cache is the parameter `cached`; that a cache returns what was put in is proved in SharedCache and FifoCache. What a load of an entry that was not recorded, or lies outside the array, yields is the parameter `stray`; that such a load may fail is not modelled, only when it happens. Nor is an allocation of no entries that returns a null pointer, which the code takes for an error.
- Metadata.MdRead: reads the disk directly; CachedRead has it through the caches.
- SharedCache.InvStep: the hash function is an arbitrary function; a block index is a block with one reference; on a collision the update of the slot and the decrement of the count are one step, both under the slot's lock; a freed address is not given out again; building an index is a thread that keeps its slot while it does metadata lookups.
- SharedCache.NoDeadlock: says that some thread can step, not that a scheduler is fair.
- Stored.ReadStored: the block list is given by the stream behind the inode; that stored metadata blocks give that stream is Stored.StreamReads.
- Destroying caches and hash tables, apart from what is left to free.
- HashTable.Hash.Add: the key must be absent, which its only caller ensures; with repeated keys doubling would change which one is found.
- InodeMap.KernelFindsInodes: reference counts below 2^32 and 48-bit inode references are assumed of a run; the strategy that uses the export table is not modelled.
- Directory.Open: sizes and offsets are not bounded by their C types, except fields stored in the image; an entry whose stored name size exceeds 256 cannot occur in a well-formed listing.
- Directory.Lookup: the name is any sequence of bytes of the given length.
- ReadDir.Read: a negative offset, which FUSE does not pass, is not modelled; inode number and mode of an item are not computed; the space an item takes is an arbitrary function with the padding FUSE gives it; names contain no NUL, so their size is their length; the build option for hosts with broken offsets is not modelled.
- Traverse.Traversal.constructor: a root that is not a directory, which opening reports as an error, is not modelled. Directories are lists of what is left to read; that reading one gives its listing is proved in Directory.
- Traverse.Traversal.Prune: pruning after an error was reported is not modelled.
- PathLookup.LookupPath: the reference of the inode found is not returned; looking up and fetching an inode is one arbitrary function.
- Xattrs.Iterator.Read: nothing is promised after a call on the iterator has failed; the code itself then forgets that a value is stored elsewhere.
- Xattrs.Iterator.constructor: the table that gives an inode's attributes is taken as read.
- FUSE plumbing, command line tools apart from the loops cited, printing, clocks, signals.
