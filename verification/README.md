# SystrixOS: verified models

A Dafny model of the algorithms of the SystrixOS kernel and browser that have hard
properties, with proofs of those properties. Code that changes things step by step is
modelled by classes and loops over arrays; every such method is proved against a function
on values, and the lemmas say what that function means.

| part | files |
|---|---|
| DEFLATE and zlib | `Bits`, `CanonicalHuffman`, `HuffmanTable`, `DeflateFormat`, `DeflateTables`, `InflateSpec`, `InflateSteps`, `Inflate`, `InflateRoundTrip`, `InflateSoundness` |
| JPEG entropy decoding and inverse transform | `JpegHuffman`, `TwoDecoders`, `Idct`, `IdctTable` |
| FAT32 | `DivFacts`, `FatChains`, `FatContent`, `FatFiles`, `Fat`, `FatRun` |
| Page allocator | `Dyadic`, `FreeLists`, `BuddyModel`, `BuddyBroken`, `BuddyMerge`, `Buddy` |
| Large-object heap | `HeapBlocks`, `Heap` |
| HTML parser | `HtmlSpec`, `HtmlLimits`, `HtmlMarkup`, `HtmlRoundTrip`, `Html` |
| Device rings | `E1000`, `Nvme` |
| PNG | `PngFilter`, `PngRows`, `PngPasses` |
| Line drawing, checksum | `Line`, `Checksum` |
| Shared | `Basics` |

The shape of each main result:

- **DEFLATE.** `DeflateFormat` is an encoder for section 3.2 of RFC 1951: stored, fixed and
  dynamic blocks over any valid tokens. `InflateSpec.Inflate` is the decoder on bit strings,
  error codes and error order included. `Inflate.InflateRaw` is the code, on its bit buffer,
  table arrays and output array, and computes exactly that function. Round trip and
  soundness together (`InflateExact`): a result is returned if and only if the input is the
  encoding of some list of blocks with that expansion.
- **FAT32.** A volume is an abstract map from names to byte strings. Every operation states
  its effect on the whole map, although bytes pass through a sector cache, read-modify-write
  and chains that grow; `FatRun.Run` lifts this to all runs.
- **Page allocator.** A bookkeeping assigns each page to at most one block; the invariant
  ties lists, links and bitmap to it.
- **Heap.** A list of blocks tiles the memory; live allocations are a set, and every call
  states what happens to that set and to all payloads.
- **HTML.** The parser as a function on the remaining input, and a parser class that builds
  linked nodes. `HtmlMarkup` is HTML as an author may write it, with attributes in any of
  their four forms, blanks and capitals anywhere they may stand, void elements, comments,
  scripts and styles; every such document parses to the tree it means, and every tree with a
  plain printed form comes back. `HtmlLimits` says what any parse, of any input, keeps to.
- **Rings.** The device is an environment whose steps may come between any two steps of the
  driver; histories of frames and commands carry the invariants.

A table or formula that both sides of a theorem use says nothing by that theorem alone, so
each of them is also described independently: the tables of DEFLATE by the recurrences and
code words of RFC 1951, the cosine table by its three-term recurrence and its zero, the
numbering of clusters by a blank volume, the passes of a PNG image by grids whose steps halve.

Every lemma carries `{:induction false}`: the induction, where there is any, is written out.

## What the proofs found

Where a property is false of the code, the model keeps the code and the exact condition is
proved.

1. `pmm_free_order` (kernel/pmm.c:165) merges when the bit of the buddy's first page is set.
   The bit does not say that the buddy is one free block of that order. `Buddy.FreeResult`:
   the call leaves memory that fits some bookkeeping if and only if every merge on its path
   meets a whole free block (`BuddyModel.Exact`), in every valid state. `Buddy.GapReached`
   gets to a failure from the start with four pages.
2. `fat32_write_raw` and `fat32_read_raw` move to the next cluster whenever the position is
   a multiple of the cluster size, also when no byte was moved (kernel/kernel.c:1103,
   kernel/kernel.c:1143). `Fat.Volume.Write` and `Fat.Volume.Read` state exactly when the
   cursor is right afterwards. A write that finds no next cluster returns -1 after bytes, position and size
   have moved (kernel/kernel.c:1147); `FatFiles.StaleWrite` shows what a
   further write then does: it overwrites the file one cluster earlier, and the directory
   promises more bytes than the chain holds. A seek repairs the cursor exactly when the chain reaches past
   the end of the file (`Fat.Volume.Seek`).
3. A seek wraps in 32 bits. It goes to the position of the file nearest to its target if and
   only if the target is a 32-bit position, or lies beyond and wraps to no less than the size,
   or lies before the start and wraps to 0 or the file is empty (`FatFiles.SeekLands`);
   `FatFiles.SeekMisses` has a seek of each kind that lands inside the file instead.
4. `block_malloc` rounds the size in 64 bits; the block has room for the request if and only
   if `n + 15` does not wrap (`Heap.RoundWraps`, `Heap.BlockHeap.Malloc`).
5. `pmm_alloc_n` stops at the largest order, so it returns fewer pages than asked for if and
   only if more than 1024 are asked for (`Buddy.PageAllocator.AllocN`).
6. `e1000_send` does not count outstanding frames: with fifteen outstanding, one more makes
   head meet tail, and the full ring looks empty to the adapter (`E1000.TxRing.Send`). The
   same holds of the NVMe submission ring (`Nvme.Queue.Submit`).
7. After a timeout, a late completion at the head of the NVMe completion ring is never taken
   by a later call with another identifier, so it blocks the ring (`Nvme.Queue.Poll`).

Where comments and code disagree the model follows the code: `huff_build` is described as
rejecting incomplete codes (kernel/inflate.c:77, kernel/inflate.c:87) but rejects only
over-subscribed ones; kernel/png.c:313-315 describes a bound on the Adam7 stream that is not the
one the code computes; kernel/jpeg.c:191 puts the peak of the column accumulator near 9e15,
and the bound proved here for 20-bit coefficients is 2^62, which still fits.

## Model

| member | source | states |
|---|---|---|
| CanonicalHuffman.ValidIsSound | kernel/inflate.c:87-95 | a set of lengths passes the Kraft test exactly when every canonical code fits its length, at every length |
| CanonicalHuffman.PrefixFree | kernel/inflate.c:78-107 | no code of a sound set is a prefix of another: a bit string starts with the code of at most one symbol |
| CanonicalHuffman.DecodeCode | kernel/inflate.c:124-139 | decoding the code of a symbol followed by any bits gives that symbol and leaves exactly those bits |
| HuffmanTable.SlotInjective | kernel/inflate.c:98-105 | symbols with codes get different places in the symbol table |
| HuffmanTable.HuffTable.Build | kernel/inflate.c:78-107 | succeeds exactly when the lengths satisfy the Kraft inequality, and then the arrays represent their canonical code |
| Inflate.InflateCtx.Bits | kernel/inflate.c:110-121 | takes the next bits of the input, lowest first, with fewer than eight bits left buffered, or reports the end of the input |
| Inflate.InflateCtx.Decode | kernel/inflate.c:124-139 | the walk over counts returns the symbol whose code the input starts with, or the error the specification gives |
| Inflate.InflateCtx.Emit | kernel/inflate.c:144-154 | appends one byte to the output or refuses when it is full, touching nothing else |
| Inflate.InflateCtx.EmitMatch | kernel/inflate.c:157-169 | the copy from the output buffer is the overlapping copy of the specification, or the error it calls for |
| DeflateFormat.CopyBackPeriodic | kernel/inflate.c:157-169 | an overlapping match repeats the last `dist` bytes periodically |
| DeflateFormat.LengthCoding | kernel/inflate.c:192-197 | every match length from 3 to 258 has a length code and extra bits |
| DeflateFormat.DistanceCoding | kernel/inflate.c:198-204 | every distance from 1 to 32768 has a distance code and extra bits |
| DeflateFormat.LengthSteps | kernel/inflate.c:192-197 | the base lengths leave no gap, each one the one before plus what its extra bits can add, with one more extra bit every four codes |
| DeflateFormat.DistanceSteps | kernel/inflate.c:198-204 | so do the base distances, with one more extra bit every two codes |
| DeflateTables.ClenPlaces | kernel/inflate.c:222-224 | the length of a code length code is the one sent at its place: repeat codes, zero, then from the middle outwards |
| DeflateTables.FixedCodes | kernel/inflate.c:207-214 | the code words of the fixed literal code are those of section 3.2.6 of RFC 1951 |
| DeflateTables.FixedDistances | kernel/inflate.c:216-218 | the fixed distance codes are the five-bit numbers |
| DeflateTables.DeepestCode | kernel/inflate.c:78-95 | next to lengths 1 to 15, one more code of length 15 makes a complete code, and nothing shorter fits |
| InflateRoundTrip.FixedLitValid | kernel/inflate.c:207-215 | the fixed literal/length lengths form a code |
| Inflate.InflateCtx.BuildFixed | kernel/inflate.c:207-219 | leaves the two fixed codes of section 3.2.6 of RFC 1951 in the tables |
| Inflate.InflateCtx.BuildDynamic | kernel/inflate.c:227-286 | reads a dynamic header exactly as the specification does, with its errors in its order |
| Inflate.InflateCtx.InflateStored | kernel/inflate.c:306-321 | dropping the buffered bits is skipping to the byte boundary; length check, then the bytes |
| Inflate.InflateCtx.InflateCodes | kernel/inflate.c:333-359 | the symbol loop terminates and appends what the tokens up to the end-of-block code expand to, or fails as specified |
| Inflate.InflateCtx.InflateBlock | kernel/inflate.c:301-359 | one block of any type |
| Inflate.InflateRaw | kernel/inflate.c:289-363 | for every input and output buffer: terminates, returns the length and writes exactly the specified bytes and no others, or the specified error |
| Inflate.AsInt32Wraps | kernel/inflate.c:362-362 | a returned length is the true one if and only if that is below 2^31, and else differs by a multiple of 2^32 |
| InflateRoundTrip.TokensRoundTrip | kernel/inflate.c:333-359 | decoding the encoding of any valid tokens appends their expansion, or reports a full buffer |
| InflateRoundTrip.HeaderRoundTrip | kernel/inflate.c:227-286 | a dynamic header of any valid lengths, with any use of the repeat codes, decodes to those lengths |
| InflateRoundTrip.StreamRoundTrip | kernel/inflate.c:289-363 | every list of stored, fixed and dynamic blocks, encoded at any bit position, decodes to its expansion and leaves the rest |
| InflateSoundness.StreamSound | kernel/inflate.c:289-363 | whatever is accepted is the encoding of a list of valid blocks with that expansion |
| InflateSoundness.InflateExact | kernel/inflate.c:289-363 | accepted with this result and rest if and only if the input encodes such a list |
| InflateSoundness.InflatePacked | kernel/inflate.c:367-370 | packed into bytes and followed by anything, a stream gives its expansion when the buffer holds it, and the output error otherwise |
| Inflate.ZlibInflate | kernel/inflate.c:381-396 | the header tests, then the raw stream behind the two bytes |
| Inflate.ZlibHeaderFields | kernel/inflate.c:384-388 | the tests accept exactly the headers section 2.2 of RFC 1950 allows without a preset dictionary |
| JpegHuffman.UnstuffStuff | kernel/jpeg.c:38-52 | removing stuffed zero bytes gives back the data up to the marker |
| JpegHuffman.JBits.NextBit | kernel/jpeg.c:38-52 | returns the next bit of the unstuffed data, or -1 at a marker or the end |
| JpegHuffman.JHuff.Build | kernel/jpeg.c:77-90 | the tables hold first and last code and first index of every length |
| JpegHuffman.JHuff.Decode | kernel/jpeg.c:92-109 | for every table, over-subscribed ones included, the walk of figure F.16 of ITU-T T.81; where the table is a code, the value of the symbol the canonical code gives, or -1 when there is none |
| JpegHuffman.WalkDecodes | kernel/jpeg.c:92-109 | with a table that is a code, the walk by largest codes finds the symbol whose code the input starts with and leaves the same bits, or neither finds any |
| JpegHuffman.EveryTable | kernel/jpeg.c:304-318 | every list of counts is the counts of some code lengths; these are a code if and only if the counts call for at most 256 values and use up no more codes than there are |
| JpegHuffman.ThreeOfOne | kernel/jpeg.c:304-318 | three codes of one bit, which the table reader accepts, are no code |
| TwoDecoders.DecodeBoth | kernel/jpeg.c:92-109 | the JPEG decoder and the inflate decoder agree on the same code and bits: same symbol and rest, or both fail |
| Idct.Orthogonal | kernel/jpeg.c:178-187 | the columns of the weight table are orthogonal and of equal length to within its twelve bits, so it inverts a cosine transform |
| IdctTable.Recurrence | kernel/jpeg.c:178-187 | each row of the table holds the cosines of the multiples of one angle: the three-term recurrence holds up to rounding |
| IdctTable.EighthVanishes | kernel/jpeg.c:178-187 | the cosine of eight times that angle vanishes up to rounding |
| IdctTable.AnglesGrow | kernel/jpeg.c:178-187 | the angle grows with the position, and the first cosine is one |
| IdctTable.PassesAreTerms | kernel/jpeg.c:195-217 | the two passes are the sum over all 64 coefficients of coefficient, horizontal weight and vertical weight |
| IdctTable.OneShotNearest | kernel/jpeg.c:217-220 | the one-go sample is that sum divided by 2^50, to the nearest number, clamped |
| IdctTable.ClampNearest | kernel/jpeg.c:219-220 | a sample out of range becomes the nearest byte |
| IdctTable.OneShade | kernel/jpeg.c:195-224 | a block with one coefficient is a flat square of an eighth of it above the middle shade, give or take one |
| Idct.DcOnly | kernel/jpeg.c:197-203 | the short cut for a row with one coefficient equals the general formula |
| Idct.NoOverflow | kernel/jpeg.c:191-217 | with coefficients up to 2^20 every partial sum of both passes fits 64 bits and the final value 32 |
| Idct.SampleClose | kernel/jpeg.c:189-224 | each sample differs by at most one from the transform done in one go and rounded once |
| Idct.Jidct | kernel/jpeg.c:189-224 | writes the 64 samples at their place in the plane and nothing else |
| FatChains.LinksSet | kernel/kernel.c:985-993 | storing a word of the table changes one link and no other |
| FatChains.FreeApart | kernel/kernel.c:784-803 | a cluster whose entry is zero is in no chain |
| FatChains.Extend | kernel/kernel.c:1144-1149 | marking a free cluster as the end and linking it keeps all chains acyclic, ended and pairwise disjoint |
| FatChains.Clear | kernel/kernel.c:1023-1034 | clearing a chain keeps the others and frees exactly its clusters, by number too |
| FatContent.LbaInjective | kernel/kernel.c:711-714 | different sectors of clusters lie at different disk addresses |
| FatContent.ClustersAdjoin | kernel/kernel.c:711-714 | cluster 2 starts the data region, and each cluster follows the one before |
| FatChains.LittleEndian | kernel/kernel.c:717-724 | a stored word has its lowest bits first |
| FatFiles.BlankTable | kernel/kernel.c:784-789 | with a blank table the free clusters are 2 up to the number of clusters plus one, or up to 65535 when that number is not known, and as many are spare |
| FatFiles.EndMarks | kernel/kernel.c:717-724 | links have 28 bits, and the marks of an end are the eight highest of them |
| FatContent.ReadPart | kernel/kernel.c:1094-1098 | the bytes of the sector under a position are those bytes of the file |
| FatContent.WritePart | kernel/kernel.c:1129-1139 | patching one sector overwrites that stretch of the file, extending it past the end |
| FatContent.WriteElsewhere | kernel/kernel.c:1129-1133 | and changes no file on another chain |
| FatFiles.Grown | kernel/kernel.c:1116-1149 | growing a chain keeps the volume consistent and all files as they are, and takes one free cluster |
| FatFiles.Patched | kernel/kernel.c:1129-1139 | patching a sector of a file overwrites that file and no other of the volume |
| FatFiles.Removed | kernel/kernel.c:1023-1034 | clearing a file's chain removes that file only and frees as many clusters as it had |
| FatFiles.Advance | kernel/kernel.c:1101-1104 | a step within a sector leaves the cluster exactly when it ends on a multiple of the cluster size |
| FatFiles.CursorWritten | kernel/kernel.c:1135-1152 | after a write the cursor is right if and only if bytes moved and the next cluster could be had where needed |
| FatFiles.CursorRead | kernel/kernel.c:1099-1104 | after a read only a read of nothing on a cluster boundary spoils the cursor |
| FatFiles.StaleCursor | kernel/kernel.c:1144-1148 | after a failed growth the cursor leads to the sector one cluster earlier in the file |
| FatFiles.StaleWrite | kernel/kernel.c:1123-1139 | a write through that cursor overwrites the file one cluster earlier, changes no other file, and leaves a size the chain cannot hold |
| FatFiles.SeekLands | kernel/kernel.c:1211-1216 | for every offset: a seek goes to the nearest position of the file if and only if its target is a 32-bit position, or wraps past the end, or is negative and wraps to 0 or the file is empty |
| FatFiles.SeekMisses | kernel/kernel.c:1211-1216 | a forward seek that wraps into the middle of the file, and a seek to before the start that lands inside it |
| Fat.Volume.FatReadCached | kernel/kernel.c:672-677 | afterwards the cache holds that sector as it is on the disk |
| Fat.Volume.FatWriteCached | kernel/kernel.c:679-683 | writes the cache through, which stays equal to the disk |
| Fat.Volume.NextCluster | kernel/kernel.c:717-724 | the link of a cluster, whatever the cache held before |
| Fat.Volume.AllocCluster | kernel/kernel.c:784-803 | the first free cluster, marked as an end; NONE exactly when none is free |
| Fat.Volume.FatLink | kernel/kernel.c:985-993 | sets one link, through the cache, and touches no data sector |
| Fat.Volume.Read | kernel/kernel.c:1078-1107 | returns the bytes at the position, up to the end of sector or file, and says exactly when the cursor stays right; nothing at the end of the file, wherever the cursor is |
| Fat.Volume.Write | kernel/kernel.c:1110-1154 | the whole volume changes by one overwrite of this file; fails if and only if fewer clusters are free than the write needs; free clusters plus chain length stay constant; says when the cursor stays right |
| Fat.Volume.Seek | kernel/kernel.c:1204-1229 | walks to the cluster of the target from any cursor; right if and only if the chain reaches past the end of the file |
| Fat.Volume.Delete | kernel/kernel.c:996-1041 | removes the file, terminates, and frees as many clusters as it had |
| Fat.Volume.Create | kernel/kernel.c:871-895 | a new name is an empty file and nothing else changes |
| Fat.Volume.Open | kernel/kernel.c:1057-1069 | the cursor starts on the first byte |
| FatRun.Run | kernel/kernel.c:1078-1229 | every run of writes, reads and seeks that move something agrees with a byte sequence and a cursor, in replies, contents and position, and leaves other files alone; it stops early only with no cluster free, with this file as before the failing write or with that write's bytes in it |
| FreeLists.PushLinked | kernel/pmm.c:46-51 | pushing an unlisted page keeps a list well linked in both directions |
| FreeLists.RemoveLinked | kernel/pmm.c:52-57 | so does unlinking any member, and the list loses exactly that page |
| BuddyModel.AddFree | kernel/pmm.c:46-51 | listing a region with no free block in it keeps partition, lists and links consistent |
| BuddyModel.RemoveFree | kernel/pmm.c:52-57 | unlisting a free block and giving its region to a live one does too |
| BuddyModel.SplitPartition | kernel/pmm.c:140-145 | the halves of a block are aligned blocks again |
| Buddy.PageAllocator.AddRange | kernel/pmm.c:64-75 | cuts any range into aligned disjoint free blocks with exactly that union, each as large as fits; with no free neighbour, nothing is left to merge |
| Buddy.PageAllocator.AllocOrder | kernel/pmm.c:127-150 | returns an aligned block that was free, wiped, with one reference, and changes no other live block and no other reference count; fails only when no listed block is large enough; keeps the invariant |
| Buddy.PageAllocator.AllocN | kernel/pmm.c:153-157 | the same, with enough pages if and only if no more than 1024 are asked for, and no order too many |
| Buddy.AllocCounts | kernel/pmm.c:127-150 | allocation removes exactly 2^order free pages |
| Buddy.PageAllocator.MergeUp | kernel/pmm.c:163-170 | the merge loop terminates by order and takes blocks off the lists while the bit is set |
| Buddy.PageAllocator.FreeOrder | kernel/pmm.c:159-173 | in every valid state, memory fits some bookkeeping afterwards if and only if the merge path is exact; then only the freed block changed hands, and with nothing mergeable before nothing mergeable is left |
| Buddy.FreeCounts | kernel/pmm.c:159-173 | on an exact path freeing adds exactly 2^order free pages |
| BuddyBroken.FirstBroken | kernel/pmm.c:163-170 | the first inexact merge leaves a list that leads into the merged block, or a merged block over a page that was not free |
| BuddyBroken.BrokenStep | kernel/pmm.c:163-170 | and no further merge mends that |
| BuddyBroken.BrokenForGood | kernel/pmm.c:171-172 | nor does listing the merged block: no bookkeeping that keeps the other blocks fits such memory |
| Buddy.InexactBreaks | kernel/pmm.c:159-173 | so freeing along an inexact path breaks the allocator, whether or not anything was mergeable before |
| Buddy.GapExample | kernel/pmm.c:165-165 | four pages on which freeing page 1 swallows the live page 3 |
| Buddy.GapReached | kernel/pmm.c:159-173 | adding four pages, taking them singly and freeing 0 and 2 leads to that state, and freeing page 1 then leaves memory that no bookkeeping fits |
| Buddy.PageAllocator.FreePages | kernel/pmm.c:196-200 | counts the pages whose bit is set |
| HeapBlocks.TakenKeeps | kernel/heap.c:163-181 | taking a large enough free block keeps the tiling, leaves no two free neighbours and adds exactly one allocation |
| HeapBlocks.FreedKeeps | kernel/heap.c:183-213 | merging a freed block with free neighbours on both sides keeps the tiling, leaves no two free neighbours and removes exactly that allocation |
| HeapBlocks.LiveDisjoint | kernel/heap.c:163-181 | live allocations never overlap, headers included |
| HeapBlocks.AllFreeIsOne | kernel/heap.c:183-213 | with nothing allocated the heap is one free block |
| Heap.RoundWraps | kernel/heap.c:164-164 | the rounded size is the least multiple of 16 that covers the request if and only if adding 15 does not wrap |
| Heap.BlockHeap.constructor | kernel/heap.c:152-161 | the heap starts as one free block |
| Heap.BlockHeap.FindFit | kernel/heap.c:165-167 | the walk over headers stops at the first free block that is large enough |
| Heap.BlockHeap.Malloc | kernel/heap.c:163-181 | a new zeroed allocation with room for the request, except when rounding wraps, and for less than 32 bytes more; other payloads unchanged; fails only when every free block is smaller than the rounded size |
| Heap.BlockHeap.Predecessor | kernel/heap.c:194-200 | the walk finds the block before, if there is one |
| Heap.BlockHeap.Free | kernel/heap.c:183-213 | removes exactly that allocation and leaves all other payloads as they were |
| Heap.BlockHeap.Store | kernel/heap.c:163-181 | writing inside a live payload keeps the heap valid: headers lie outside payloads |
| HtmlSpec.ParseNode | browser/html.h:255-371 | every call consumes at least one character, so the mutual recursion terminates |
| HtmlLimits.DocumentFits | browser/html.h:255-395 | for every input: names of at most 31 or 63 small letters, values up to 63, texts up to 4095 and trimmed, at most 16 attributes and 128 children, text only in styles |
| HtmlRoundTrip.QuotedBack | browser/html.h:155-162 | a value ends at the quote it began with, of either kind |
| HtmlRoundTrip.BareBack | browser/html.h:163-170 | a value without quotes ends before a blank or the end of the tag |
| HtmlRoundTrip.AttrsBack | browser/html.h:119-175 | attributes written in any of four forms parse to their names in small letters and their values, up to the limit of sixteen |
| HtmlRoundTrip.TextBack | browser/html.h:209-233 | text with blanks around it parses to the text without them, before a tag or the end |
| HtmlRoundTrip.CommentBack | browser/html.h:236-252 | so does a comment without the end mark in it |
| HtmlRoundTrip.BlankBack | browser/html.h:209-233 | blanks alone give no node |
| HtmlRoundTrip.DoctypeBack | browser/html.h:272-282 | a document type in letters of any case is passed up to its end |
| HtmlRoundTrip.RawBack | browser/html.h:318-346 | scripts and styles end at their closing tag in letters of any case; a style keeps its text and a script none |
| HtmlRoundTrip.NodeBack | browser/html.h:255-371 | whatever is written within the limits, followed by anything, parses to the tree it means, and leaves what follows |
| HtmlRoundTrip.DocumentBack | browser/html.h:376-395 | so does a whole document, up to 128 trees |
| HtmlRoundTrip.TreeBack | browser/html.h:255-371 | every tree within the limits, styles and void elements included, is what its plain printed form parses to |
| Html.AddChildNode | browser/html.h:201-206 | the child is linked to its parent at the end of the family, or dropped at the limit |
| Html.HtmlParser.ReadAtMost | browser/html.h:298-306 | the character loops consume exactly the specified run |
| Html.HtmlParser.ReadAttrs | browser/html.h:119-175 | fills the attributes the specification gives |
| Html.HtmlParser.ReadText | browser/html.h:209-233 | a fresh text node, or none for blank text |
| Html.HtmlParser.ReadComment | browser/html.h:236-252 | a fresh comment node |
| Html.HtmlParser.ReadRaw | browser/html.h:318-346 | passes the content of a script or style up to its closing tag |
| Html.HtmlParser.ReadNode | browser/html.h:255-371 | moves the cursor and returns fresh linked nodes that stand for the specified tree |
| Html.HtmlParser.ReadChildren | browser/html.h:348-368 | terminates; the children stand for the specified trees, point to their parent and share no node |
| Html.ParseHtml | browser/html.h:376-395 | the document node over the specified trees, for every C string |
| Html.ParsePrinted | browser/html.h:376-395 | parsing a document in any way of writing builds the trees it means, with parent links |
| Html.ParsePlain | browser/html.h:376-395 | parsing the plain form of any document within the limits rebuilds it |
| E1000.RxRing.constructor | kernel/e1000.c:330-342 | the ring starts empty with all slots but one given to the adapter |
| E1000.RxRing.Receive | kernel/e1000.c:330-342 | the adapter stores exactly when head has not met tail, never in the slot being read nor in one that waits to be read |
| E1000.RxRing.Poll | kernel/e1000.c:439-446 | the done bit of the next slot is set exactly when a stored frame waits there |
| E1000.RxRing.Pass | kernel/e1000.c:448-453 | delivers the oldest frame if it is complete and not empty |
| E1000.Run | kernel/e1000.c:437-460 | over every interleaving the delivered frames are the acceptable ones that arrived, once each and in order |
| E1000.TxRing.Send | kernel/e1000.c:388-426 | never overwrites a slot the adapter owns; the ring stays in order if and only if fewer than fifteen frames are outstanding |
| E1000.TxRing.Transmit | kernel/e1000.c:388-426 | the adapter sends the oldest frame not yet on the wire, so frames leave once each and in order |
| Nvme.CqPoll | kernel/nvme.c:138-143 | the phase bit matches exactly when an entry has been posted that was not taken; then it is that entry |
| Nvme.CqPost | kernel/nvme.c:144-146 | an entry posted with the bit of its lap keeps this true |
| Nvme.CidsDiffer | kernel/nvme.c:306-310 | commands fewer than 2^16 apart carry different identifiers |
| Nvme.StoredLess | kernel/nvme.c:320-320 | the stored block count is one less, and the largest 32-bit word for no blocks |
| Nvme.Queue.Submit | kernel/nvme.c:306-321 | the command with the next identifier is in the ring; if that fills the ring, it looks empty to the controller, and otherwise, as always without timeouts, all is in order |
| Nvme.Queue.Poll | kernel/nvme.c:138-154 | takes an entry if and only if it is the next one posted and carries this identifier; flips the expected phase on each lap |
| Nvme.Run | kernel/nvme.c:132-163 | over every interleaving without timeouts calls return in order, each with the status of its own command |
| PngFilter.Paeth | kernel/png.c:77-86 | the nearest of left, above and above left to their linear prediction, ties in that order |
| PngFilter.Unfilter | kernel/png.c:89-120 | restores the line in place from the line above, or rejects the filter type and changes nothing |
| PngFilter.RestoreFiltered | kernel/png.c:89-120 | restoring undoes filtering, for every filter, width and pixel size |
| PngFilter.FilterRestored | kernel/png.c:89-120 | and filtering undoes restoring |
| PngFilter.RunningSum | kernel/png.c:94-97 | undoing the first filter is a running sum over the pixels, byte by byte |
| PngFilter.ColumnSum | kernel/png.c:98-100 | undoing the second adds the line above |
| PngFilter.AverageDown | kernel/png.c:102-108 | the third filter predicts the average, rounded down |
| PngRows.RowsStored | kernel/png.c:374-393 | whatever filters were chosen row by row, all scanlines come back and the rest is left |
| PngRows.StoredRows | kernel/png.c:374-393 | whatever is accepted is what an encoder would have stored |
| PngRows.PassRows | kernel/png.c:363-393 | the row loop with its two buffers returns the scanlines, or the first error |
| PngPasses.PixelPlaced | kernel/png.c:169-172 | every pixel has a place in one of the passes |
| PngPasses.PlaceUnique | kernel/png.c:169-172 | and no more than one |
| PngPasses.Partition | kernel/png.c:345-399 | a place exists in the image if and only if its pixel does, so the range guard is never taken |
| PngPasses.PassesGrid | kernel/png.c:169-172 | the passes up to any one carry together a grid, whose steps halve from pass to pass, the horizontal one first |
| PngPasses.LineBytesEnough | kernel/png.c:360-360 | a scanline has the fewest bytes that hold its bits |
| PngPasses.Scatter | kernel/png.c:345-399 | every pixel of the image gets the sample its pass, row and column call for |
| PngPasses.NeedEnough | kernel/png.c:316-331 | the computed buffer size covers the filtered stream of all passes |
| PngPasses.PassesStored | kernel/png.c:345-393 | all passes come back, each starting under a row of zeros |
| PngPasses.PassesEnough | kernel/png.c:379-383 | a stream of at least the total size is never found truncated |
| PngPasses.DecodePasses | kernel/png.c:345-393 | the pass loop returns the scanlines of all passes, skipping empty ones, or the first error |
| Line.DrawLine | kernel/fbdev.c:358-374 | terminates at the second end point after max(dx, dy) + 1 points, all in the bounding box and within half a pixel |
| Line.Round | kernel/fbdev.c:371-373 | one round steps on the longer axis and keeps the half-pixel bound |
| Checksum.FoldOnce | kernel/net.c:160-160 | adding carries back shrinks the sum and keeps its ones' complement value |
| Checksum.WordSumOdd | kernel/net.c:159-159 | an odd last byte counts as if a zero byte followed it |
| Checksum.FoldedWrap | kernel/net.c:157-161 | a 32-bit sum that wraps still gives the right checksum if and only if the carries lost are a multiple of 2^16 - 1 and something is left |
| Checksum.IpChecksum | kernel/net.c:155-162 | for every length, the complement of the ones' complement sum of the words on a 32-bit sum; exact up to 131072 bytes and, beyond, exactly when nothing that counts was lost |
| Checksum.StoredChecksum | kernel/net.c:155-162 | storing it in a zero aligned field makes the checksum zero; only values equal to it modulo 2^16 - 1 do |
| Checksum.TransportChecksum | kernel/net.c:165-182 | equals the IP checksum of pseudo-header bytes followed by the segment, for every length |

## Left out

- The 32 KiB window path of `emit` and `emit_match`: both entry points pass no window.
- Adler-32 is not verified by the code either, and PNG chunk reading, CRCs, colour conversion and transparency are not modelled.
- `zlib_inflate_buf`, `jb_bits`, JPEG marker parsing, upsampling and colour conversion: easy or display work.
- `int` results: output lengths are truncated to 32 bits as the code does (`Inflate.AsInt32`); other machine arithmetic that cannot overflow is on unbounded integers.
- Fat.Volume.Write: requires a cursor that is right (`FatFiles.StaleWrite` is about one that is not), and that the bytes moved end before byte 2^32, the largest size a FAT32 directory entry can hold.
- Fat.Volume.Read: requires, inside the file, a cursor that is right; after a call of no bytes on a cluster boundary it need not be (finding 2).
- Fat.Volume.Create: requires a name that is not there yet; the code does not look and would write a second entry of the same name, which a map cannot hold.
- FatRun.Run: calls that move no byte are excluded, since they spoil the cursor (finding 2); writes end before byte 2^32.
- FAT32 directories are a map from names to start cluster and size; scanning, 8.3 names, timestamps, the BIOS parameter block and the second FAT copy, which the code does not write, are not modelled. The geometry is assumed to put the table before the data region and both on the disk.
- One descriptor per file: a second descriptor of the same file and deletion of an open file are not modelled.
- Buddy.PageAllocator.AllocOrder: `oom_kill` does nothing; pages are indices, and out-of-range addresses, `pmm_ref`, `pmm_unref` and the memory-map parsing of `pmm_init` are not modelled.
- Buddy.PageAllocator.FreeOrder: the invariant is kept only on exact merge paths, because the code's guard is weaker than the algorithm needs (finding 1); no claim is made about calls after an inexact one.
- Heap: memory is an array of 16-byte granules of any length instead of the fixed region; the slab tier and `heap_realloc` are not modelled. Freeing takes the allocation it frees.
- Html.ParseHtml: allocation succeeds, freed nodes are not tracked, recursion depth is unbounded; style fields of nodes are not modelled.
- HtmlMarkup.Ok: names, values and texts are within the sizes of their fields and tags are closed; what the parser makes of longer ones or of broken markup is given by `HtmlSpec`, `Html.ParseHtml` and `HtmlLimits` alone.
- Idct.Jidct: the plane is a two-dimensional array instead of a pointer and a stride.
- PngPasses.Scatter: pixels are values in a two-dimensional array; sample extraction and the flat output index are not modelled.
- Line.DrawLine: coordinates are unbounded integers and plotting is a list of points; clipping by `fb_put_pixel` is not modelled.
- E1000: frames are whole values, waiting loops with timeouts are single looks, and registers are fields. The RTL8139 driver is not modelled.
- Nvme: queue creation, doorbell addresses and data transfer are not modelled.
- Port and memory-mapped I/O, scheduling, the virtual file system, TCP, the journaling file system, user interface and shell: input, output and glue.
