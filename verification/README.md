# A search engine, modelled and proved

This project models a four-layer search engine and proves what its parts promise
each other.

* **Lists and tables** (`LinkedList`, `Sorting`, `Tables`, `TableRuns`,
  `MappedTables`, `HashTable`, `Fnv`): heap-allocated doubly linked lists with a
  removing iterator and a bubble sort, and a chained hash table that resizes itself.  Classes with
  ghost contents; every method is tied to functions on values, and whole runs of
  operations are shown to behave like a map.
* **The index in memory** (`MemIndex`, `DocTable`, `FileParser`,
  `CrawlFileTree`, `CrawlFiles`):
  an in-place tokenizer, paired tables of document names, the inverted index, a heap
  of hash tables that point to hash tables, and its ranked conjunctive search.
* **The index on disk** (`LayoutStructs`, `IndexFile`, `DiskLayout`, `WriteIndex`,
  `DiskRegions`, `HashTableReader`, `TableReaders`, `RoundTrip`,
  `WriteThenRead`, `FileIndexReader`, `Crc`, `LossyNames`, `TableSizes`): the writer
  fills a growable file by seeking and writing; `DiskLayout` says declaratively what the file should hold;
  the readers find their way by offsets alone.  The header is shown to work as a
  commit record, and the checksum to notice local damage.
* **Queries** (`QueryProcessor`, `QueryAgreement`, `SameNames`, `EndToEnd`,
  `SearchFiles`, `SamePaths`, `SmallFiles`, `LetterCase`, `SampleIndex`): a query over
  files gives what a query over the indexes in memory gives, and that is what the contents
  of the crawled files say (`SearchFiles.Search`).  The case of letters makes no
  difference, and one small index file is worked out down to its bytes.
* **The front end** (`ThreadPool`, `Http`, `HttpUtils`): the thread pool as a system
  of atomic steps under every interleaving, request framing over arbitrary chunks,
  percent-decoding and HTML escaping.

A failed run-time check ends the original program.  Where the source demands
something of its callers this is a precondition; where the check is about data from
outside, such as an index file, it is a result of its own (`None`).

Where the code and its own comments disagree, the model follows the code:

* `hw3/WriteIndex.h` promises the size of the file; `WriteIndex` returns 16 bytes
  more, because the header is counted twice.
* `hw1/HashTable.h` promises a resize when the load factor exceeds 3; the table is
  resized as soon as an insertion finds it at 3.
* `hw2/FileParser.h` promises all words; a word that touches the end of the text is
  not recorded, so all of them are exactly if the text does not end in a letter
  (`AllRecordedIff`).
* The checksum of an index file leaves out the size fields of the header, so wrong
  sizes are accepted exactly when they add up to the right length (`HeaderAcceptedIff`).
* The file has only the ASCII characters of a file name.  If the names of the indexed
  documents still differ, exactly the names that are ASCII and fit come back from a
  query (`SearchSurvivesWriting`); if not, some query goes wrong, even with a document
  that does not exist (`WrittenNamesDecide`, `Phantom`).
* `hw2/DocTable.h` promises the id of the name; a name whose hash is already taken
  gets the id of the other name (`IdThenName`).

## Model

| member | source | states |
|---|---|---|
| `SearchFiles.Search` | hw3/QueryProcessor.cc:85-171 | sets of files with different hashes and different paths on disk are crawled, written, opened and queried: there is no result exactly when the index that the files make, as a function of them, does not fit the format; otherwise it is exactly the matching files of all sets, each once per set with the number of times the words occur in its text, the highest ranks first |
| `SmallFiles.SmallFilesFit` | hw3/WriteIndex.cc:276-325 | paths and words shorter than 32768 bytes, and 38 bytes and the path for each file and 46 times its text within 2^31 - 184, are enough for the index to fit the format, however the tables were resized |
| `SmallFiles.SearchSmallFiles` | hw3/QueryProcessor.cc:85-171 | for such files the search always has a result, and it is the matching files |
| `SmallFiles.WordTableRoom` | hw2/FileParser.c:193-248 | the words of a text need room in proportion to its length |
| `SmallFiles.BuiltRoom` | hw2/CrawlFileTree.c:202-271 | so do the tables of all files so far: every insertion and resize keeps the bound |
| `TableSizes.AddedNeeds` | hw2/MemIndex.c:94-159 | posting a word needs at most so much more room, and no table has more buckets than three for every pair |
| `TableSizes.InsertRoom` | hw1/HashTable.c:172-207 | the same for any insertion by way of a resize |
| `SamePaths.PathsDecide` | hw3/WriteIndex.cc:443-453 | every query without hash collisions over the index file finds exactly the matching files if and only if no two files with words have paths that become the same on disk |
| `SamePaths.MemoryFindsFiles` | hw2/MemIndex.c:161-281 | whatever the paths, the search in memory finds exactly the matching files, each once |
| `SearchFiles.BuildIndex` | hw3/buildfileindex.cc:48-61 | crawling and writing gives the index file of the files, and none exactly when their index does not fit the format |
| `SearchFiles.IndexAnswersFiles` | hw3/QueryProcessor.cc:98-165 | when paths with words differ on disk, one index file answers with exactly the matching files as a multiset of results |
| `SearchFiles.CountsAreMatches` | hw3/QueryProcessor.cc:157-165 | a map of counts by path, pushed entry by entry, is the matching files, each once |
| `SearchFiles.NotTextIgnored` | hw2/FileParser.c:153-160 | a file with a byte above 0x7F in its text changes neither the index file nor the answers |
| `SearchFiles.DeleteIsText` | hw2/FileParser.c:153-160 | 0x7F itself is text |
| `LetterCase.SameIndexFile` | hw2/FileParser.c:229 | files that differ in the case of letters only make the same index file, byte for byte |
| `LetterCase.SameMatches` | hw2/FileParser.c:229 | and they match the same queries with the same counts |
| `LetterCase.SameTable` | hw2/FileParser.c:193-248 | texts that differ in the case of letters only have the same table of words |
| `LetterCase.OnlyLowerCaseFound` | hw3/filesearchshell.cc:155-160 | a query word that is empty or has anything but lower-case letters finds nothing in any files, so queries have to be put in lower case |
| `LetterCase.TheIsFound` | hw2/FileParser.c:229 | a file with the text "The " is found for "the", with rank 1, and not for "The" |
| `LetterCase.CountIsPlaces` | hw2/MemIndex.c:197-199 | the count of a word is the number of places in the text where it starts |
| `LetterCase.CountsAdd` | hw2/MemIndex.c:261-263 | the rank is the sum of the counts of the query words, repeated ones included |
| `SampleIndex.SampleBytes` | hw3/WriteIndex.cc:155-208 | the whole index file of one file "a" with the text "  The the ", as bytes at their offsets: header, two and sixteen and one buckets, records, elements |
| `SampleIndex.SampleBuilt` | hw2/CrawlFileTree.c:202-271 | the tables for that file: id 1 in the second bucket of two, the word in the bucket of its hash, its positions 2 and 6 |
| `SampleIndex.HashOfThe` | hw1/HashTable.c:63-81 | the hash of "the" as a number |
| `SampleIndex.SingleCells` | hw3/WriteIndex.cc:276-325 | the layout of any table of one pair: records of empty buckets point at where the next bucket would start |
| `EndToEnd.SearchFindsFiles` | hw3/QueryProcessor.cc:98-155 | the map of counts of one index, when paths with words differ on disk: exactly the paths on disk of the files that have every query word, each with the number of times the words occur in its text |
| `EndToEnd.NamesApartOnDisk` | hw3/WriteIndex.cc:443-453 | when no two paths become the same on disk, no two documents do |
| `EndToEnd.WriteIndexFile` | hw3/WriteIndex.cc:155-208 | for an index built from texts that fits the format, with different names on disk, WriteIndex never fails and a query over its file counts the words of the texts |
| `CrawlFiles.Crawl` | hw2/CrawlFileTree.c:66-105 | if no check fails on the way, the tables are those that handling the files one after the other makes, exactly, bucket by bucket, whatever the paths and their hashes |
| `CrawlFiles.BuiltCrawled` | hw2/CrawlFileTree.c:202-271 | when no hashes collide, no check fails, and the tables describe exactly the texts of the files that have words, under their paths, each once |
| `CrawlFiles.CrawledMore` | hw2/CrawlFileTree.c:202-220 | one more file with words is one more document; the others stay |
| `CrawlFiles.CrawledSkips` | hw2/CrawlFileTree.c:232-239 | a file without words changes nothing |
| `CrawlFiles.NextPostable` | hw2/MemIndex.c:134-147 | when no hashes collide, every check on the way of the next file passes |
| `HashTable.HashTable.Chains` | hw3/WriteIndex.cc:291-318 | going through the buckets and chains yields the table as a value |
| `MemIndex.MemIndex.Chains` | hw3/WriteIndex.cc:533-537 | going through the chains of the index and of every nested table yields the index as a value |
| `EndToEnd.FileSearchReadsTexts` | hw3/QueryProcessor.cc:98-155 | when the names of the indexed documents differ on disk, searching the finished file of an index built from texts finds exactly the names on disk of the texts with every query word, with the number of times the words occur in the text |
| `QueryAgreement.SearchSurvivesWriting` | hw3/WriteIndex.cc:155-208 | for all tables within the format whose indexed documents have different names on disk and all queries without hash collisions, the file answers with the ranks of the search in memory under the names on disk, with nothing where memory answers NULL, and with the very names exactly when every name found is ASCII and fits |
| `SameNames.WrittenNamesDecide` | hw3/WriteIndex.cc:443-453 | for all tables within the format: every query without hash collisions over the finished file is answered as in memory, under the names on disk, if and only if no two indexed documents have the same name on disk |
| `SameNames.NamesDecide` | hw3/QueryProcessor.cc:113-149 | the same for the tables themselves: two indexed documents with one name make some query of one or two words go wrong |
| `SameNames.Phantom` | hw3/WriteIndex.cc:443-449 | two concrete names that become the same on disk: for the words "p" and "q" of the two documents memory finds nothing, the file a document that does not exist, with rank 2 |
| `QueryAgreement.NamesSurviveIff` | hw3/WriteIndex.cc:443-453 | what is found has the same names on disk exactly when every name found is ASCII and fits |
| `QueryAgreement.QueryOverFiles` | hw3/QueryProcessor.cc:92-166 | a query over many files is the multiset union of the queries over the indexes they were written from, when in each index names differ on disk |
| `QueryAgreement.FileAgreesWithMemory` | hw3/QueryProcessor.cc:98-165 | map intersection over names equals conjunctive search over ids, for every query length |
| `QueryAgreement.AgreesIff` | hw3/IndexTableReader.cc:58-98 | for every query, file and memory agree exactly when memory has found nothing or every query word is the word stored under its hash: the reader compares words, memory only hashes |
| `QueryAgreement.WrittenAgreesIff` | hw3/IndexTableReader.cc:58-98 | the same for the finished file, opened again, when the names of indexed documents differ on disk |
| `QueryAgreement.MissingWordEmpties` | hw3/QueryProcessor.cc:127-149 | one word that the file does not have, wherever it is in the query, empties the answer |
| `QueryAgreement.WrittenIndexOpens` | hw3/FileIndexReader.cc:88-107 | both readers open on the finished file at the offsets where the tables were written |
| `QueryAgreement.AnswerReadBack` | hw3/QueryProcessor.cc:98-155 | on a file that holds the tables, the reader loops compute the answer of the tables |
| `QueryAgreement.IntersectRepresents` | hw3/QueryProcessor.cc:173-185 | intersecting the maps of two words keeps exactly the documents with both and adds their counts |
| `QueryAgreement.CountsOfPairs` | hw3/QueryProcessor.cc:113-118 | the map by name has every document of a word once, with its count, when the names of indexed documents differ |
| `LayoutStructs.SignedRoundTrip` | hw3/LayoutStructs.h:111-133 | a signed field survives the way to disk and back exactly when it fits its width |
| `LayoutStructs.UnsignedRoundTrip` | hw3/LayoutStructs.h:221-231 | an unsigned field survives exactly when it fits its width |
| `LayoutStructs.BigEndianAt` | hw3/LayoutStructs.h:69-74 | each byte of a field is its digit to the base 256, the most significant first |
| `LayoutStructs.FourBytes` | hw3/LayoutStructs.h:111-133 | two numbers and their four bytes, one of them negative |
| `LayoutStructs.SwapLongImage` | hw3/LayoutStructs.h:107-108 | htonl on a little-endian host leaves the big-endian bytes in memory |
| `LayoutStructs.SwapLongLongImage` | hw3/Utils.h:44-47 | the htonll macro leaves the big-endian bytes of all 64 bits, and is its own inverse |
| `LayoutStructs.IndexFileHeaderRoundTrip` | hw3/LayoutStructs.h:52-83 | the bytes of each of the four fields, at its own offset, are worth the field as a number of its width; decoding the header undoes encoding exactly when all four fit |
| `LayoutStructs.BucketRecordRoundTrip` | hw3/LayoutStructs.h:111-133 | the first four bytes are worth the length of the chain and the last four the position; decoding undoes encoding exactly when both fit |
| `LayoutStructs.DoctableElementHeaderRoundTrip` | hw3/LayoutStructs.h:152-173 | the same for doctable elements: a 64-bit id, then a 16-bit name length |
| `LayoutStructs.WordPostingsHeaderRoundTrip` | hw3/LayoutStructs.h:180-198 | the same for word headers: a 16-bit word length, then a 32-bit table size |
| `LayoutStructs.DocIDElementHeaderRoundTrip` | hw3/LayoutStructs.h:203-219 | the same for docID elements: a 64-bit id, then a 32-bit number of positions |
| `IndexFile.File.Write` | hw3/WriteIndex.cc:339-342 | a write patches the bytes at the cursor, zero-fills a hole, moves the cursor and is logged |
| `IndexFile.PatchAdjacent` | hw3/WriteIndex.cc:241-260 | writes that touch end to end amount to one write |
| `IndexFile.PatchCommute` | hw3/WriteIndex.cc:515-565 | writes to disjoint regions commute, so headers may be written after what follows them |
| `WriteIndex.WriteDocidToDocname` | hw3/WriteIndex.cc:419-454 | what is written for a name of any length and any characters: a 16-bit truncated length, the ASCII characters of that many, and a hole for the others |
| `WriteIndex.WriteDocIDToPositionList` | hw3/WriteIndex.cc:459-511 | writes exactly the bytes of the layout in the returned extent, each byte once |
| `WriteIndex.WriteWordToPostings` | hw3/WriteIndex.cc:515-565 | the nested table, header and word, cut to a 16-bit length, together fill the extent without overlap; fails exactly for an empty word |
| `WriteIndex.WriteHTBucketRecord` | hw3/WriteIndex.cc:327-348 | the record lands in its place with the chain length and bucket offset |
| `WriteIndex.WriteHTBucket` | hw3/WriteIndex.cc:350-411 | position records and elements fill the bucket extent; records point at the elements |
| `WriteIndex.WriteHashTable` | hw3/WriteIndex.cc:276-325 | for names with any characters, writes inside [offset, offset + size) exactly the declared layout, each byte once but for the holes of skipped characters; fails exactly for an empty word |
| `WriteIndex.WriteHeader` | hw3/WriteIndex.cc:228-274 | the checksum covers all bytes behind the header, and the header is a single write at 0 |
| `WriteIndex.WriteIndex` | hw3/WriteIndex.cc:155-208 | the file is the header and the two tables, every byte but the holes of skipped characters written once and the header last; deleted exactly on an empty word; the returned size counts the header twice |
| `DiskRegions.WrittenIsHeld` | hw3/WriteIndex.cc:276-325 | written at any offset of any file, a table of ASCII names is held there |
| `DiskRegions.WrittenIsHeldOnDisk` | hw3/WriteIndex.cc:276-325 | written where there were zeros, any table is held there with its names on disk |
| `WriteThenRead.WriteThenOpen` | hw3/HashTableReader.cc:28-37 | a table written at any offset, over anything if its names are ASCII and else over zeros, is found there by a reader, with its names on disk; fails exactly for an empty word |
| `WriteThenRead.WriteThenLookupName` | hw3/DocTableReader.cc:36-76 | writing a doctable so and looking up any id gives the name on disk that the doctable has for it, present or absent |
| `WriteThenRead.WriteThenLookupWord` | hw3/IndexTableReader.cc:36-101 | writing an index anywhere and looking up any word and document gives the positions that the index has, by way of the nested table |
| `LossyNames.NameSurvivesIff` | hw3/WriteIndex.cc:425-453 | the name on disk is the name itself exactly when it is ASCII and shorter than 32768 bytes |
| `LossyNames.TableFilled` | hw3/WriteIndex.cc:276-325 | with zeros in the holes of skipped characters, the layout of any table is the layout of the table with the names on disk, in the same room |
| `LossyNames.OnDiskEncodable` | hw3/WriteIndex.cc:425-453 | the table on disk can always be read again, and is the table itself exactly when all its names are ASCII and all lengths fit |
| `WriteIndex.IndexOnDisk` | hw3/WriteIndex.cc:155-208 | the finished file is the one that the table with the names on disk would give |
| `QueryAgreement.DocTableOnDisk` | hw3/DocTableReader.cc:36-76 | the doctable on disk has the same ids, each with the name on disk |
| `LossyNames.AccentIsLost` | hw3/WriteIndex.cc:443-449 | a concrete name that is not read back |
| `LossyNames.OneCharacter` | hw3/WriteIndex.cc:443-449 | a character is kept exactly up to 0x7F |
| `LossyNames.LongStrings` | hw3/WriteIndex.cc:425-453 | of a string of 32768 to 65535 characters nothing is written, of a longer one as many as its length exceeds 65536 |
| `FileIndexReader.OpenIndex` | hw3/FileIndexReader.cc:27-81 | opens exactly the files with the magic number, the right length and, when asked, the right checksum |
| `FileIndexReader.Checksum` | hw3/FileIndexReader.cc:56-78 | the 512-byte loop checks the CRC of everything behind the header |
| `FileIndexReader.WrittenIndexAccepted` | hw3/FileIndexReader.cc:40-78 | every finished file is accepted |
| `FileIndexReader.CommitRecord` | hw3/WriteIndex.cc:169-203 | after a crash between or inside any two writes, a file whose header is accepted is the finished file |
| `FileIndexReader.DamageNoticed` | hw3/FileIndexReader.cc:40-78 | a change within any four consecutive bytes, header included, is accepted only if nothing changed |
| `FileIndexReader.HeaderAcceptedIff` | hw3/FileIndexReader.cc:40-78 | of all 16-byte headers in front of the tables exactly those are accepted that have the right magic number and checksum and sizes that add up to the right length modulo 2^32 |
| `FileIndexReader.TradedSizesAccepted` | hw3/FileIndexReader.cc:51-54 | an instance: size fields that are off by opposite amounts |
| `HashTableReader.HashTableReader.LookupElementPositions` | hw3/HashTableReader.cc:43-79 | the element offsets that the bucket record leads to, for any file and any bucket count, in 32-bit offsets |
| `HashTableReader.WalkFindsBucket` | hw3/HashTableReader.cc:43-79 | in a written table the walk for any key, present or not, finds that bucket's elements in chain order, each held at its offset |
| `HashTableReader.BucketIsFound` | hw3/HashTableReader.cc:54-76 | the same for any bucket number |
| `DiskRegions.HeldBucket` | hw3/WriteIndex.cc:300-318 | a held table holds every bucket where its record points |
| `DiskRegions.HeldElement` | hw3/WriteIndex.cc:380-408 | a held table holds every element where its position record points |
| `TableReaders.IndexTableReader.LookupWord` | hw3/IndexTableReader.cc:36-101 | the first element of the walk that is for the word, and a reader on its nested table |
| `TableReaders.DocIDTableReader.LookupDocID` | hw3/DocIDTableReader.cc:32-77 | the positions of the first element of the walk that is for the document |
| `TableReaders.DocIDTableReader.GetDocIDList` | hw3/DocIDTableReader.cc:79-132 | the headers of all elements, bucket by bucket |
| `TableReaders.DocTableReader.LookupDocID` | hw3/DocTableReader.cc:33-78 | the name in the first element of the walk that is for the document |
| `RoundTrip.DocNameReadBack` | hw3/DocTableReader.cc:33-78 | looking up an id in a written doctable is looking it up in the doctable, present or absent |
| `RoundTrip.DocPositionsReadBack` | hw3/DocIDTableReader.cc:32-77 | looking up a document in a written table gives its positions in order, or absence |
| `RoundTrip.WordReadBack` | hw3/IndexTableReader.cc:36-101 | a word is found exactly when the index has it, and then its nested table is held where the reader looks |
| `RoundTrip.DocIDListReadBack` | hw3/DocIDTableReader.cc:79-132 | listing a written table gives every document once with its number of positions, in iteration order |
| `QueryProcessor.QueryProcessor.Open` | hw3/QueryProcessor.cc:41-60 | opens all files or stops at the first that fails a check |
| `QueryProcessor.QueryProcessor.ProcessQuery` | hw3/QueryProcessor.cc:85-171 | the results of all indexes together, each entry once, in descending rank |
| `QueryProcessor.QueryIndex` | hw3/QueryProcessor.cc:98-155 | one index: intersect word by word and stop early at a missing word or an empty intersection |
| `QueryProcessor.CountWord` | hw3/QueryProcessor.cc:102-118 | one word: look it up, list its documents, name each of them |
| `QueryProcessor.IntersectMaps` | hw3/QueryProcessor.cc:173-185 | the map of common names with summed counts |
| `QueryProcessor.Sorted` | hw3/QueryProcessor.h:55-60 | operator< orders by descending rank; any such permutation |
| `Crc.Crc32Reflect` | hw3/Utils.cc:31-42 | reverses the c low-order bits |
| `Crc.InitializeTable` | hw3/Utils.cc:71-84 | every entry is eight bitwise steps of section 8 of RFC 1952 from its index; the entry of 0x80 is 0xEDB88320 |
| `Crc.TableEntry` | hw3/Utils.cc:74-83 | reflect, shift left eight times, reflect equals eight reflected steps |
| `Crc.LookupFeedsByte` | hw3/Utils.cc:58-61 | one table lookup is feeding eight message bits to the bit-serial CRC |
| `Crc.Crc32.FoldByteIntoCRC` | hw3/Utils.cc:58-61 | the state is always the bit-serial CRC register of the bytes folded so far |
| `Crc.Crc32.GetFinalCRC` | hw3/Utils.cc:63-69 | the bit-serial CRC-32 of all bytes; asking again gives the same value |
| `Crc.PolynomialValue` | hw3/Utils.cc:72 | the polynomial is 0xEDB88320, which is the 0x04C11DB7 of the program with its bits reversed |
| `Crc.ChecksumValue` | hw3/Utils.cc:44-69 | the checksum of the one byte 0x7F is 0x12B88320 |
| `Crc.BurstDetected` | hw3/Utils.cc:58-69 | messages that differ in a window of at most 32 bits have equal registers exactly when they are equal |
| `Crc.BurstChangesCrc` | hw3/Utils.cc:58-69 | byte strings that differ within four consecutive bytes have the same CRC exactly when they are equal |
| `Crc.FeedBitsInjective` | hw3/Utils.cc:58-61 | the fold is injective in the state |
| `Fnv.FNVHash64` | hw1/HashTable.c:63-81 | FNV-1a over all octets, modulo 2^64 |
| `Fnv.XorOctetExact` | hw1/HashTable.c:74-78 | xor of an octet changes the low byte only |
| `Fnv.OneOctetDiffers` | hw1/HashTable.c:74-79 | words of any length that differ in one octet only have different hashes |
| `Fnv.StepInjective` | hw1/HashTable.c:74-79 | one step from different states, or with different octets, leads to different states: the prime has an inverse modulo 2^64 |
| `Fnv.FnvFromInjective` | hw1/HashTable.c:74-79 | hashing on from two states gives the same result exactly when the states are the same |
| `Fnv.HashOfNothing` | hw1/HashTable.c:67-71 | the hash of the empty word as a number |
| `Fnv.HashValue` | hw1/HashTable.c:63-81 | the hash of "a" as a number |
| `Fnv.DifferentLetters` | hw1/HashTable.c:63-81 | words of one letter have different hashes |
| `LinkedList.LinkedList.Push` | hw1/LinkedList.c:62-87 | a new first node; the others, the links and the payloads stay |
| `LinkedList.LinkedList.Pop` | hw1/LinkedList.c:89-121 | the first payload leaves, or the list was empty |
| `LinkedList.LinkedList.Append` | hw1/LinkedList.c:123-145 | a new last node |
| `LinkedList.LinkedList.Slice` | hw1/LinkedList.c:292-314 | the last payload leaves, or the list was empty |
| `LinkedList.Sort` | hw1/LinkedList.c:147-179 | terminates; the result is ordered in the requested direction and a stable permutation; the nodes keep their places |
| `LinkedList.Pass` | hw1/LinkedList.c:157-177 | a pass with swaps lowers the inversions; a pass without swaps has seen a sorted list |
| `Sorting.SwapStep` | hw1/LinkedList.c:164-173 | swapping neighbours that are out of order removes an inversion and is stable |
| `Sorting.OrderedMeans` | hw1/LinkedList.c:160-164 | ascending means that nothing compares greater than what follows it, descending that nothing compares less |
| `Sorting.QuietPass` | hw1/LinkedList.c:155-178 | neighbours in order means all in order, for every total preorder |
| `LinkedList.LLIterator.Next` | hw1/LinkedList.c:211-222 | one place on, or past the end |
| `LinkedList.LLIterator.Get` | hw1/LinkedList.c:224-230 | the payload at the iterator's place |
| `LinkedList.LLIterator.Remove` | hw1/LinkedList.c:232-286 | unlinks exactly the node; the iterator is on the successor, or steps back at the tail |
| `LinkedList.LLIterator.Unlink` | hw1/LinkedList.c:244-281 | the four cases leave links that skip the node |
| `LinkedList.LLIterator.Rewind` | hw1/LinkedList.c:316-318 | back to the head |
| `Tables.InsertFind` | hw1/HashTable.c:172-207 | an insertion changes what is found for its own key only |
| `Tables.RemoveFind` | hw1/HashTable.c:226-246 | a removal changes what is found for its own key only |
| `Tables.InsertPlaces` | hw1/HashTable.c:172-207 | a new pair goes to the front of the bucket of its remainder, a replaced one leaves its place, and nothing else moves |
| `Tables.RemovePlaces` | hw1/HashTable.c:226-246 | a removed pair leaves its place in the bucket of its remainder, and nothing else moves |
| `Tables.IterationOrder` | hw1/HashTable.c:308-353 | iteration goes from bucket to bucket, and from head to tail in each |
| `Tables.AllPairsAreFound` | hw1/HashTable.c:308-353 | iteration visits a pair exactly when a lookup finds it |
| `Tables.AllPairsDistinct` | hw1/HashTable.c:308-353 | iteration visits no key twice |
| `Tables.RehashSame` | hw1/HashTable.c:378-413 | the resized table has the same pairs and the same size |
| `Tables.ResizedSame` | hw1/HashTable.c:378-413 | MaybeResize always leaves room and keeps every pair |
| `TableRuns.RunRefinesMap` | hw1/HashTable.c:140-246 | for every sequence of operations from an empty table, all answers are those of a map; sizes agree; at most three pairs a bucket |
| `TableRuns.StepHolds` | hw1/HashTable.c:172-246 | every operation keeps table and map in step |
| `TableRuns.NoResizeYet` | hw1/HashTable.c:378-384 | operations that cannot bring a table to 3 pairs per bucket never resize it |
| `TableRuns.ResizeLeavesRoom` | hw1/HashTable.c:378-413 | after a resize of n buckets, any 24n operations leave the number of buckets alone |
| `TableRuns.NextResize` | hw1/HashTable.c:378-413 | and of insertions of new keys the one after the first 24n resizes again |
| `HashTable.FindKey` | hw1/HashTable.c:140-170 | the first pair with the key, with the iterator on it |
| `HashTable.FindAndRemoveKey` | hw1/HashTable.c:140-170 | that pair leaves the chain |
| `HashTable.HashTable.constructor` | hw1/HashTable.c:83-103 | empty buckets, a valid table |
| `HashTable.HashTable.Find` | hw1/HashTable.c:209-224 | the pair with the key, or none |
| `HashTable.HashTable.Insert` | hw1/HashTable.c:172-207 | old pair returned and replaced, after a resize if full; all chains stay well-formed; terminates with MaybeResize |
| `HashTable.HashTable.Replace` | hw1/HashTable.c:178-206 | the part after the resize: old pair out, new pair first in its chain |
| `HashTable.HashTable.Remove` | hw1/HashTable.c:226-246 | the pair leaves its chain and no other chain changes |
| `HashTable.HashTable.MaybeResize` | hw1/HashTable.c:378-413 | does nothing below the limit, else becomes the rehashed table |
| `HashTable.HashTable.CopyInto` | hw1/HashTable.c:394-402 | every pair is inserted once and the new table never resizes in turn |
| `HashTable.HTIterator.constructor` | hw1/HashTable.c:252-282 | stands on the first pair, or is invalid for an empty table |
| `HashTable.HTIterator.IsValid` | hw1/HashTable.c:293-306 | valid exactly while pairs are left |
| `HashTable.HTIterator.Get` | hw1/HashTable.c:340-353 | the pair at the iterator's place in iteration order |
| `HashTable.HTIterator.Next` | hw1/HashTable.c:308-338 | exactly one pair on, across empty buckets |
| `HashTable.HTIterator.Remove` | hw1/HashTable.c:355-376 | returns the pair, and the table loses exactly that pair; the iterator is on the one after it |
| `MemIndex.MemIndex.constructor` | hw2/MemIndex.c:78-84 | an empty index |
| `MemIndex.MemIndex.InsertWord` | hw2/MemIndex.c:106-129 | the index gets a structure for the word that points to a new, empty table |
| `MemIndex.MemIndex.InsertDocument` | hw2/MemIndex.c:149-158 | the table that the structure points to gets the positions; no other table changes |
| `MemIndex.MemIndex.FindPostings` | hw2/MemIndex.c:106 | the structure of a word, whose table is the one of the index as a value |
| `MappedTables.MapInsert` | hw1/HashTable.c:172-207 | insertion goes by keys alone, so it commutes with following the pointers |
| `MappedTables.MapResized` | hw1/HashTable.c:378-413 | and so does resizing |
| `MemIndex.AddPostingList` | hw2/MemIndex.c:94-159 | when the checks pass, the heap tables are the index as a value after the posting, resizes included |
| `MemIndex.AddedKeeps` | hw2/MemIndex.c:94-159 | the positions of this word in this document are recorded, and nothing else changes |
| `MemIndex.Search` | hw2/MemIndex.c:161-281 | NULL or a list that is the answer, sorted by descending rank, stably |
| `MemIndex.NarrowList` | hw2/MemIndex.c:252-271 | the loop that removes while iterating examines every result once and stays inside the list |
| `MemIndex.AppendHits` | hw2/MemIndex.c:181-204 | one result for every document of the first word, in iteration order |
| `MemIndex.SurvivorsMatch` | hw2/MemIndex.c:219-275 | what is left are the documents with every word, each once, ranked by the sum of the counts |
| `MemIndex.SearchIsExact` | hw2/MemIndex.c:161-281 | the sorted list has exactly the matching documents, each once, with their rank |
| `MemIndex.SearchFails` | hw2/MemIndex.c:161-281 | NULL exactly for no words, a missing word, or several words without a common document |
| `DocTable.DocTable.Add` | hw2/DocTable.c:70-112 | a known hash returns its id and changes nothing; else the next id, with name and hash leading to each other |
| `DocTable.DocTable.GetDocID` | hw2/DocTable.c:114-131 | the id under the hash of the name; 0 exactly when there is none |
| `DocTable.DocTable.GetDocName` | hw2/DocTable.c:133-150 | the name of the id |
| `DocTable.DocTable.constructor` | hw2/DocTable.c:45-54 | two empty tables that are inverses |
| `DocTable.NameThenId` | hw2/DocTable.c:114-150 | the name of every id leads back to the id, so no two ids share a name |
| `DocTable.IdThenName` | hw2/DocTable.c:114-150 | the id of a name leads back to the name exactly when the name itself was added, rather than another with its hash |
| `FileParser.ParseIntoWordPositionsTable` | hw2/FileParser.c:138-183 | NULL exactly for no buffer, non-ASCII text or no words; else the table of all words of the text as it was, all of them in lower case |
| `FileParser.InsertContent` | hw2/FileParser.c:193-248 | lower-casing and terminating in place never touch the text ahead; all tokens are recorded |
| `FileParser.AddWordPosition` | hw2/FileParser.c:250-296 | when the check passes, the position is appended to the word's list, new or old |
| `FileParser.WordTableIndexed` | hw2/FileParser.c:193-296 | the table that the parser builds has exactly the words of the text, each with all its positions |
| `FileParser.WordsAreLowerCase` | hw2/FileParser.c:229 | every recorded word is a non-empty sequence of bytes from 0x61 to 0x7A |
| `FileParser.CaseOfLetter` | hw2/FileParser.c:227-229 | the two cases of a letter, and nothing else, become the same byte |
| `FileParser.StartsExact` | hw2/FileParser.c:229-247 | the positions of a word are exactly the starts of its maximal letter runs that a non-letter follows |
| `FileParser.RunRecordedIff` | hw2/FileParser.c:209-247 | a maximal letter run is recorded at its start exactly when it does not touch the end of the text |
| `FileParser.AllRecordedIff` | hw2/FileParser.h:49-55 | all words of a text are recorded exactly when the text is empty or does not end in a letter |
| `FileParser.LastWordIsLost` | hw2/FileParser.c:209-247 | a concrete text whose last word is not recorded |
| `FileParser.StartsAscend` | hw2/FileParser.c:273 | positions ascend |
| `CrawlFileTree.HandleFile` | hw2/CrawlFileTree.c:223-271 | the tables become a function of what they were and of the text alone: every word of the file is posted with all its positions under the file's id, otherwise nothing changes |
| `CrawlFileTree.AfterFileDescribes` | hw2/CrawlFileTree.c:223-271 | the description of the index grows by the text of a file whose name is new |
| `CrawlFileTree.Drain` | hw2/CrawlFileTree.c:245-265 | removing while iterating empties the table of words, and each word is posted once, in iteration order |
| `CrawlFileTree.PostAllDrained` | hw2/CrawlFileTree.c:245-265 | posting the pairs one after the other records each of them and nothing else |
| `CrawlFileTree.NewDocumentPostable` | hw2/MemIndex.c:144-158 | for a new document only hash collisions can fail the checks |
| `CrawlFileTree.DescribesOneMore` | hw2/CrawlFileTree.c:223-271 | the index of n texts becomes the index of n + 1 texts |
| `CrawlFileTree.SearchReadsTexts` | hw2/MemIndex.c:161-281 | documents match exactly when their text has every word; rank is the number of occurrences in the text |
| `CrawlFileTree.NullWithoutMatch` | hw2/MemIndex.c:161-281 | for an index built from texts the search returns NULL exactly when no text has every word |
| `CrawlFileTree.DescribedIsComparable` | hw3/QueryProcessor.cc:113-118 | in an index built from texts every document has a name and no two the same |
| `CrawlFileTree.DescribedHasNoEmptyWord` | hw3/WriteIndex.cc:544-560 | WriteIndex never fails for an index built from texts whose words fit their length field |
| `ThreadPool.StartedInOrder` | hw4/ThreadPool.cc:95-132 | in every reachable state the tasks started, followed by the queue, are the tasks dispatched, in order |
| `ThreadPool.AllRunOnce` | hw4/ThreadPool.cc:60-92 | when the destructor is done every dispatched task has run to its end exactly once |
| `ThreadPool.NoLostWakeup` | hw4/ThreadPool.cc:95-131 | while the pool is open, at least as many workers are out of the wait as tasks are queued, or all are |
| `ThreadPool.HeadCanStart` | hw4/ThreadPool.cc:118-132 | while tasks are queued, some worker can look at the queue next, and whichever does starts just the head |
| `ThreadPool.WorkShrinks` | hw4/ThreadPool.cc:118-132 | while the pool is open, every look at the queue lowers what is left to do |
| `ThreadPool.WorkIsShort` | hw4/ThreadPool.cc:118-132 | over any run of the workers, looks and what is left add up to what there was and the spurious wakeups |
| `ThreadPool.WorkEnds` | hw4/ThreadPool.cc:118-132 | when no worker can look any more, every dispatched task has been run, started in order |
| `ThreadPool.NobodyWaits` | hw4/ThreadPool.cc:60-79 | after the first broadcast no worker waits; the count is the number of live workers and 0 after the last join |
| `ThreadPool.StepsRunOut` | hw4/ThreadPool.cc:60-138 | every step after the destructor has begun lowers what is left to do |
| `ThreadPool.NeverStuck` | hw4/ThreadPool.cc:60-138 | until the destructor is done some step is possible |
| `ThreadPool.ShutdownIsShort` | hw4/ThreadPool.cc:60-138 | every run from there on has at most that many steps |
| `ThreadPool.OnlyOwnerStarts` | hw4/ThreadPool.cc:120-132 | once the destructor has begun a worker that looks at the queue exits and leaves it alone; tasks are started by the owner only, when all workers have exited |
| `ThreadPool.StartsAreDrains` | hw4/ThreadPool.cc:60-132 | over any run from there on, the tasks started are as many from the front of the queue as the owner has drained, none before all workers are joined |
| `ThreadPool.ShutdownEnds` | hw4/ThreadPool.cc:60-138 | a run that cannot go on has reached the end of the destructor |
| `ThreadPool.AlwaysInv` | hw4/ThreadPool.cc:27-138 | the invariant of all interleavings, spurious wakeups and choices of the signal |
| `ThreadPool.ThreadPool.constructor` | hw4/ThreadPool.cc:27-44 | all threads created, none started |
| `ThreadPool.ThreadPool.WakeUpWorker` | hw4/ThreadPool.cc:118 | a wait that returns for no reason |
| `ThreadPool.ThreadPool.OpenPool` | hw4/ThreadPool.cc:47-53 | the constructor is done when all workers are counted |
| `ThreadPool.ThreadPool.StartWorker` | hw4/ThreadPool.cc:112-118 | the step from birth to the first wait |
| `ThreadPool.ThreadPool.TakeTask` | hw4/ThreadPool.cc:120-132 | after termination has begun the worker exits and queue and started tasks stay; else the front task goes to the worker, or it waits |
| `ThreadPool.ThreadPool.ResumeWorker` | hw4/ThreadPool.cc:118-132 | the step after a wait; no task is started after termination has begun |
| `ThreadPool.ThreadPool.FinishTask` | hw4/ThreadPool.cc:127-132 | the step after a task; no other task is started after termination has begun |
| `ThreadPool.ThreadPool.DispatchTask` | hw4/ThreadPool.cc:95-101 | enqueue and signal |
| `ThreadPool.ThreadPool.BeginDestroy` | hw4/ThreadPool.cc:60-73 | the destructor up to the first join |
| `ThreadPool.ThreadPool.JoinOne` | hw4/ThreadPool.cc:68-75 | one join and the next broadcast |
| `ThreadPool.ThreadPool.DrainQueue` | hw4/ThreadPool.cc:86-91 | the remaining tasks are run in order |
| `Http.HttpConnection.GetNextRequest` | hw4/HttpConnection.cc:34-75 | the first block of the stream, whatever the chunks; the rest stays for the next call |
| `Http.HandleClient` | hw4/HttpServer.cc:137-154 | a client's requests are the blocks of its stream in order, up to one that asks to close, which is not answered, or whose response cannot be written |
| `Http.BlocksPartition` | hw4/HttpConnection.cc:51-74 | blocks and rest are the whole stream; no block or rest hides a header end |
| `Http.OneCut` | hw4/HttpConnection.cc:51-74 | there is only one such cut |
| `Http.HeaderEnds` | hw4/HttpConnection.cc:31-32 | a header end is CR LF CR LF |
| `Http.TwoRequests` | hw4/HttpConnection.cc:51-74 | a concrete stream and its cut |
| `HttpUtils.URIDecode` | hw4/HttpUtils.cc:104-163 | the loop decodes escapes of 32 to 127 in either case, and plus signs |
| `HttpUtils.HeadDecoded` | hw4/HttpUtils.cc:113-160 | what becomes of the head of any text: an escape of 32 to 127 is its character, any other percent sign is left alone, a plus sign is a space |
| `HttpUtils.SomeDecoded` | hw4/HttpUtils.cc:113-160 | concrete texts: "%0A" and "%7" stay, "%41+%7e" is decoded |
| `HttpUtils.HexDigits` | hw4/HttpUtils.cc:129-138 | the hex digits and their values, in either case |
| `HttpUtils.DecodingUndoes` | hw4/HttpUtils.cc:104-163 | decoding any admissible encoding of any text gives the text, section 2.1 of RFC 3986 |
| `HttpUtils.EncodeAllEncodes` | hw4/HttpUtils.cc:104-163 | every text has an encoding |
| `HttpUtils.EscapeHtml` | hw4/HttpUtils.cc:82-99 | the five passes replace each character on its own |
| `HttpUtils.FivePasses` | hw4/HttpUtils.cc:92-97 | later passes leave the entities of earlier ones alone |
| `HttpUtils.Entities` | hw4/HttpUtils.cc:93-97 | the five entities as texts |
| `HttpUtils.OthersStay` | hw4/HttpUtils.cc:93-97 | any other character stays |
| `HttpUtils.EscapedIsPlain` | hw4/HttpUtils.cc:82-99 | no angle bracket or quote is left |
| `HttpUtils.UnescapingUndoes` | hw4/HttpUtils.cc:82-99 | reading the entities back gives the text |

## Left out

- WriteIndex.WriteWordToPostings: a word whose length is negative as a number of 16 bits is not modelled: fwrite would read beyond its end. Reading a word back needs fewer than 32768 bytes.
- WriteIndex.WriteHTBucket: a name or word whose length is negative as a number of 16 bits is not modelled: the next element would overwrite this one.
- WriteIndex.WriteHashTable: offsets are assumed to fit in 32 bits, and no length to be negative as a number of 16 bits.
- WriteIndex.WriteIndex: takes the tables as values, which the methods Chains first read out of the chains; failures of the file system, fsync and stdio buffering are absent, and offsets and lengths fit as for WriteHashTable.
- CrawlFiles.Crawl: the directory walk and the reading of files are a parameter, the sequence of paths and contents; the checks that end the program when hashes collide are assumed to pass.
- SearchFiles.Search: hashes are assumed to be different; an index that does not fit the format, which the program does not notice, gives no result.
- SearchFiles.IndexAnswersFiles: paths of files with words are assumed to differ on disk; SamePaths.PathsDecide shows that this is exactly what is needed.
- EndToEnd.SearchFindsFiles: the same assumption on paths.
- EndToEnd.WriteIndexFile: names of indexed documents are assumed to differ on disk.
- EndToEnd.FileSearchReadsTexts: names of indexed documents are assumed to differ on disk.
- QueryAgreement.SearchSurvivesWriting: names of indexed documents are assumed to differ on disk; SameNames.WrittenNamesDecide shows that this is exactly what is needed.
- QueryAgreement.QueryOverFiles: the same assumption on names.
- QueryAgreement.WrittenAgreesIff: the same assumption on names.
- DiskRegions.WrittenIsHeld: names are assumed to be ASCII; other names are for WrittenIsHeldOnDisk.
- WriteThenRead.WriteThenLookupName: what was in the file before shows through the holes of skipped characters, so it is assumed to be zeros when there are any.
- QueryProcessor.QueryProcessor.ProcessQuery: the readers are rebuilt from their offsets for every query; FileDup and the sharing of file positions are absent.
- HashTableReader.HashTableReader.LookupElementPositions: a bucket count of zero, by which the program would divide, is a failed check.
- MemIndex.AddPostingList: position lists are sequences.
- MemIndex.Search: the payloads of the result list are values; writing through a payload pointer is the iterator's Set. Ranks are unbounded integers.
- HashTable.HashTable.Insert: the bucket count is an unbounded integer, so nine-fold growth beyond 32 bits is not modelled.
- DocTable.DocTable.Add: the last 64-bit id is assumed not to be in use.
- FileParser.ParseIntoWordPositionsTable: the text is assumed to fit an int, and no two of its words to have the same hash, which the program checks and aborts on.
- ThreadPool.ThreadPool.DispatchTask: dispatching after termination has begun ends the program and is not modelled; task functions are assumed to return.
- Crc.Crc32.constructor: every object has its own table; the race to fill the shared table once is not modelled.
- Freeing of memory and ownership of buffers, including the free functions of lists and tables.
- Reading files with retries, sockets, static files, path checks and the HTML of the result pages.
- HttpConnection::ParseRequest and everything about a request behind its framing.
- exercises/ex4, including ro_file.c.
- Command line programs, cpplint.py and gtest.
