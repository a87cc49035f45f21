# kext_tools: a verified model

The tools in this repository build, compress, list and take apart kernel caches, decide when a cache is out of date, and search
kexts with a small query language. This project models the code that has to be exactly right for that:

- the LZSS coder: the compressor with its 256 binary search trees kept in three arrays, the decompressor with its shift register,
  and the Adler-32 checksum (`Lzss*.dfy`, `Adler32.dfy`);
- the query engine: an incremental builder that gets precedence by moving elements between groups that share them by reference,
  the command-line front end, and the evaluator (`Query*.dfy`);
- the address map of a kernel collection and the two-pass extraction of a kext from it (`Kc*.dfy`);
- the envelope of a compressed kernel and the layout of fat files (`KcEnvelope.dfy`, `FatFile.dfy`, `Bytes.dfy`);
- the choice of the newest kext, the bootstamps, and the freshness of the prelinked kernel (`KextNewest.dfy`, `BootStamps.dfy`, `StampPaths.dfy`,
  `CacheFreshness.dfy`).

Code that works in place is modelled in place: the trees and buffers are arrays, the query elements, files, stamp paths and the kext
array are objects. Each such method is proved against a specification on values, and what the code promises is proved about that.

## How the proofs are built

**LZSS.** `LzssForest` is about three arrays of links. `Forest` says that every node's subtree is a set closed under both children,
that everything to its left is smaller and everything to its right larger, and that parents and children agree; ghost subtree sets
make it local, so that linking a leaf, putting one node in the place of another and splicing a node out each keep it by small lemmas.
`LzssEncodeState` runs `insert_node` and `delete_node` on it. `LzssWindow` follows which strings of the source are in the trees and
which were replaced by an equal later one, and settles what the match length is. `LzssParse` turns that into what the compressor emits.
`LzssFormat` is an independent decoder: it reads a flag byte, then up to eight units, and expands the units over the text so far. The
decompressor is proved equal to it, and the compressor's output is proved to be units that it expands to the source. `LzssNumbers` says what
both do in the numbers of the format: what ring positions hold, spaces at first, and which bits are what.

**The query engine.** `QueryModel` has one function per operation of the builder, on a state of open groups. `QueryParser` runs them on
the grammar by mutual induction. `QueryInvariant` and `QueryMeaning` are about every sequence of calls. `QueryHeap` describes the shapes of
references that the builder makes, each element having one owner, and how each change in place keeps to them; `QueryEngine` is the class
whose methods change the elements and are proved to do what `QueryModel` says. `QueryEvaluation` compares the evaluator, which threads a
recorded error and numbered callback calls, with a three-valued verdict; `QueryErrors` settles when errors survive, by playing scripts of answers
against every tree that is not safe.

**The rest** follows the same plan: a specification function, a method with its loop, and lemmas about the specification, some of which state it again
without its help: byte by byte where a format is fixed, in closed form for the checksum, by stored addresses for the extraction, by what changed
between two checks for the stamps.

## What turned out not to hold

- The longest match is not always found. The first strings of the ring are all spaces; of two equal strings the tree keeps the one inserted
  later, which for these is the older one, so both are gone when that one leaves the window. `LzssWindow.FoundIsBestUnlessMissed` says exactly when a
  match is missed (it is then one byte short), and `LzssWindow.MissedHappens` gives a source. Decompression is not affected.
- An error in an evaluation need not stay. An OR group goes on after an element that fails, and the engine gives the recorded error to each callback
  to assign (QEQuery.h:195-199), so that one may take it back: `QueryErrors.ClientLosesError` is a query that is true, without an error, although
  a predicate failed. Whatever the callbacks do, errors stay exactly if the query is safe: `QueryErrors.QueryErrorsStay`. Safe means that after an
  element of an OR group with a predicate that can fail there is none that reaches one that can take errors back, where of an AND group only
  the first element is reached. Without a failing predicate the answer is right in any case: `QueryEvaluation.QueryAnswers`.
- No callback in this repository takes an error back, so here errors stay: `QueryErrors.UnclearedAnswers`. The callback for `-exec` of kextfind was
  meant to: it records an error at once (kextfind_query.c:1715) and none when the command has been run (kextfind_query.c:1822). It does not get
  there, since kextfind_query.c:1772 clears the pointer to the argument vector instead of the vector, and the first store through it faults
  (kextfind_query.c:1792, or 1801 without arguments).
- A query may end in AND. It is then complete exactly if its last term is a single factor: `QueryParser.TrailingAnd`. NOT before `)` is dropped:
  `QueryWords.NotBeforeCloseIgnored`.
- Groups are counted in 32 bits: a query is accepted exactly when its groups nest less than 2^32 deep (`QueryParser.ParsesGrammar`).
- The address map can answer with an offset that is not that of the address. It does exactly when the file offset plus the distance into the segment
  exceeds 2^64, the segment's addresses end below 2^64, and its file range does too or the address is in its file-backed part:
  `KcMap.LargeSegmentMisleads`, with a segment for which it does in `KcMap.SegmentThatMisleads`. An address in the file-backed part has its offset
  as the answer exactly if both ends of the segment are below 2^64: `KcMap.AddressMap`.
- The address map is allocated with room for a pointer, 8 bytes, in place of its header of 24 (kclist_main.c:1864). When all load commands are segments,
  and only then, the file range of the last entry is written past the end (without any command, part of the header):
  `KcMap.RoomForEntries`. The model's array is large enough and does not follow this.
- Extraction moves a segment without file bytes to offset 0 and leaves its sections where they were (kclist_main.c:833-835), so a section with an offset
  keeps its distance from such a segment only if that was at 0 already: `KcContents.SectionKeepsDistance`, with one that does not in
  `KcContents.EmptySegmentLosesSection`.
- Not always exactly one kext of a bundle identifier stays. One does exactly if the first of those with a version has a positive one, or there is no
  other: `KextNewest.ExactlyOne`; it is then the first of the greatest version. The code tests for positive versions itself. The version parser is
  not part of this repository, and nothing in it says whether it can return 0; `KextNewest.VersionZeroStaysTwice` is the case if it does.
- A stamp holds microseconds, so a source whose change time is finer is out of date for ever, and no other is: `BootStamps.PathConverges`. For the
  same reason a source that changes to exactly the earlier time cut to microseconds is not noticed, and any other change is:
  `BootStamps.SmallChangesOnly`.
- Two sources share a stamp exactly when they differ only in `/` and `:`: `StampPaths.SameStamp`.
- The builder and the check of the prelinked kernel disagree exactly when the kernel is one second newer than the folders, or there is no folder of
  1970 or later and the kernel is not later than the first second of 1970: `CacheFreshness.Agreement`.
- The compressor is told that it has more room than there is behind the header, by the size of the header. `KcEnvelope.OverrunCondition` says exactly
  when the compressed bytes are more than fit: when flag bytes outweigh what pairs save. An image without a match longer than two bytes
  is such a one exactly if it has 1 to 3072 bytes (`KcEnvelope.IncompressibleOverruns`), for instance any single byte
  (`KcEnvelope.OneByteOverruns`).

## Model

| member | source | states |
|---|---|---|
| LzssForest.Acyclic | compression.c:137-158 | In a forest no node is below itself, so following children from any node ends |
| LzssForest.LeafKeepsForest | compression.c:178-195 | Linking a new node where a descent ended keeps all 256 trees ordered search trees |
| LzssForest.RenameKeepsForest | compression.c:206-216 | Putting a node in the place of another whose string fits there keeps the forest |
| LzssForest.SpliceKeepsForest | compression.c:225-248 | Replacing a node that has one child by that child keeps the forest |
| LzssForest.PromoteKeepsForest | compression.c:229-248 | Replacing a node by its detached predecessor keeps the forest |
| LzssForest.DescendShrinks | compression.c:178-205 | Each step of a descent goes to a strictly smaller subtree, so the loop ends |
| LzssForest.PredecessorFits | compression.c:229-234 | The rightmost node of the left subtree fits in the order where the deleted node was |
| LzssEncodeState.EncodeState.constructor | compression.c:146-158 | The initial trees are a forest without nodes, and the ring holds spaces |
| LzssEncodeState.EncodeState.InsertNode | compression.c:168-216 | The string is in the forest, an equal one in its place is out, nothing else changes, and the match is the longest among the strings in the trees, at the position of one that attains it |
| LzssEncodeState.EncodeState.DeleteNode | compression.c:219-249 | Exactly this node leaves the forest; a node that is not in it changes nothing |
| LzssEncodeState.EncodeState.Descend | compression.c:178-205 | The descent reaches a free place for the string or an equal string, and has seen the longest match |
| LzssEncodeState.PassedStep | compression.c:196-204 | What a comparison on the way down says about the strings of the subtree that is passed by |
| LzssWindow.TracksInsert | compression.c:297-348 | Inserting the next position keeps: the trees hold only positions of the live window, with different strings, and every other position of it is covered by an equal later one or was forgotten |
| LzssWindow.TracksDelete | compression.c:331-332 | So does deleting the position that leaves the window |
| LzssWindow.PutByteKeepsKeys | compression.c:333-341 | Writing a source byte to the ring and its mirror changes no string that is in a tree |
| LzssSearch.SearchFinds | compression.c:168-216 | The match found in the trees, cut to the lookahead, is the longest over all positions of the window exactly unless it is the missed case; in both cases it is the one that the source determines, at a position in the window that attains it |
| LzssWindow.FoundIsBestUnlessMissed | compression.c:160-167 | The match found is the longest over all positions of the window, replaced ones included, exactly unless it is the missed case, and then it is one short |
| LzssWindow.MissedHappens | compression.c:160-167 | A source on which the match found is shorter than the longest |
| LzssFormat.CodeReadBack | compression.c:110-131 | Reading the code of any sequence of units gives the units back |
| LzssNumbers.OneUnit | compression.c:306-320 | The bytes of a single unit: 1 and the byte, or 0, the low 8 bits of the position, and its high 4 bits above the length less 3 |
| LzssNumbers.GroupInNumbers | compression.c:306-330 | Bit j of a group's first byte is 1 exactly if its unit j is a byte, and groups of eight follow one another |
| LzssNumbers.UnitInNumbers | compression.c:306-320 | The bytes of the units of a group follow one another behind its flags |
| LzssFormat.CopyUnique | compression.c:125-130 | A copy that may overlap what it produces is determined by its distance and length |
| LzssDecoder.RegisterCountsEight | compression.c:111-114 | The bit that the shift brings to 0x100 is zero exactly after eight units, and the low bit is the flag of the next unit |
| LzssDecoder.NextFlag | compression.c:110-115 | A new flag byte is read exactly when eight units are used up |
| LzssDecoder.CopyMatch | compression.c:122-130 | The pair's bytes come out of the ring as the copy of the text does, as far as the output has room |
| LzssDecoder.DecompressLzss | compression.c:91-135 | For every input, every room and every content of the unset ring bytes the output is the first bytes of what the reference decoder gives, and nothing else in the buffer changes |
| LzssNumbers.DecodedUnit | compression.c:91-135 | After any code, one more byte unit adds that byte, and one more pair adds what the ring holds from its position on, byte by byte as it grows; the ring starts as 4078 spaces and the text at position 4078 |
| LzssNumbers.SpacesDecoded | compression.c:105-130 | A pair at the start of a code that stays below position 4078 stands for that many bytes 32 |
| LzssNumbers.CutShort | compression.c:110-124 | A code without its last byte stands for the units before the last |
| LzssParse.CompressedSizeBound | compression.c:280-282 | No source grows by more than one byte for each eight |
| LzssParse.ParsesMeans | compression.c:298-366 | The units of a source expand to the source, whatever the unset ring bytes are |
| LzssParse.EmittedFits | compression.c:305-368 | The code of the units has exactly the compressed size of the source |
| LzssNumbers.SpacesFound | compression.c:146-166 | The match at the start of a source of up to 18 spaces is all of it |
| LzssNumbers.NothingFound | compression.c:146-166 | At the start of a source that does not begin with a space nothing matches |
| LzssNumbers.SpacesEncoded | compression.c:253-376 | 3 to 18 spaces are sent as one pair, of that length and a position from 4060 to 4077 |
| LzssEncoder.Prime | compression.c:283-304 | After reading the first bytes and inserting the 18 strings of spaces and the first string the trees track the window and the match is found |
| LzssEncoder.StepReading | compression.c:331-349 | One source byte further: the oldest string is deleted, the byte read, the next string inserted, and everything tracked is kept |
| LzssEncoder.StepDraining | compression.c:350-359 | One byte further without a byte to read |
| LzssEncoder.EmitUnit | compression.c:306-320 | The unit sent is the one for the match found, with its flag |
| LzssEncoder.CompressLzss | compression.c:253-376 | Compression succeeds exactly if the source is not empty and its compressed size fits; then the buffer holds the code of units that cut the source, and nothing beyond the limit changes |
| LzssRoundTrip.CodeDecodes | compression.c:91-376 | Every output the compressor can produce decompresses to the source |
| LzssRoundTrip.RoundTrip | compression.c:91-376 | Compressing and decompressing gives the source back, and succeeds whenever there is room for one byte more in eight |
| Adler32.LocalAdler32 | compression.c:28-52 | The checksum is Adler-32 of section 2.2 of RFC 1950, and no 32-bit sum overflows between reductions |
| Adler32.ClosedForm | compression.c:28-52 | The low 16 bits are one more than the sum of the bytes, the high 16 bits the number of bytes more than their sum weighted by distance from the end, both modulo 65521 |
| Adler32.HighBoundFits | compression.c:35-47 | The largest sum after 5000 bytes still fits 32 bits |
| QueryParser.ParsesGrammar | QEQuery.c:669-869 | A query of the grammar is accepted exactly if its groups can be counted; it is then complete, and its tree means what the query means under group, NOT, AND, OR precedence |
| QueryParser.RunTerm | QEQuery.c:670-725 | The factors of a term end up in one implicit AND group, or alone, in the OR group that was open |
| QueryParser.RunParens | QEQuery.c:759-869 | A group in parentheses is closed where it was opened, as its only element or as a group, with its negation |
| QueryParser.PushAndYanks | QEQuery.c:1217-1260 | A new AND group takes over the last element of the OR group, and clears the operator |
| QueryInvariant.CallsKeep | QEQuery.c:669-869 | Every sequence of calls, failing ones included, keeps: the root is an OR group, an AND group sits on an OR group and is not negated, the nesting level is the number of open groups, closed OR groups have two elements and AND groups one |
| QueryInvariant.StepKeeps | QEQuery.c:669-869 | The same for one call |
| QueryInvariant.CompleteIsClosed | QEQuery.c:337-347 | As long as groups can be counted, a query is complete exactly if no operator is pending, no error recorded, and no group open but the root and an implicit AND group |
| QueryInvariant.NestingNeverUnderflows | QEQuery.c:799-869 | As long as groups can be counted, closing one finds the nesting level positive and takes one off |
| QueryInvariant.StepFails | QEQuery.c:669-869 | As long as groups can be counted: which calls fail, with which error, and that others leave the error as it is |
| QueryInvariant.StartWellBuilt | QEQuery.c:137-208 | A new query is well built |
| QueryMeaning.CoalesceMeans | QEQuery.c:1289-1338 | Coalescing a group of one element keeps the meaning of the query, negation included |
| QueryMeaning.OperatorsKeepMeaning | QEQuery.c:701-869 | The calls for AND, OR and `)` never change what the query built so far means |
| QueryParser.TrailingAnd | QEQuery.c:701-725 | AND after any accepted query is accepted; what is left is complete, and a further AND accepted, exactly if the last term is a single factor |
| QueryWords.WordsAreTokens | QEQuery.c:496-617 | Words that spell operators and predicates, themselves or by any synonym of an operator or of a predicate's first word, do what the calls they stand for do, for every sequence |
| QueryWords.ParsesWords | QEQuery.c:496-617 | A query of the grammar spelled in words, synonyms included, is accepted, complete, and means what the query means |
| QueryWords.NotBeforeCloseIgnored | QEQuery.c:563-571 | NOT before `)`, or synonyms of them, uses up a word and does nothing |
| QueryWords.UnusableRefused | QEQuery.c:511-591 | NOT at the end or before AND or OR is a syntax error, and a word without a parse callback is refused, synonyms included; nothing but the error changes, and only NOT is used up |
| QueryWords.FailureUses | QEQuery.c:604-613 | A call that fails, for whatever reason, uses up NOT and no other word |
| QueryWords.CallbackRefuses | QEQuery.c:593-600 | When the parse callback refuses, only its error is recorded |
| QueryEvaluation.EvaluateJudges | QEQuery.c:383-472 | As long as no predicate that is asked fails, evaluation is true for the verdict yes alone, records no error, and asks what the verdict depends on, whatever callbacks do with errors |
| QueryEvaluation.NoCallback | QEQuery.c:445-472 | A predicate without an evaluation callback is false, negated or not, and the error says so |
| QueryEvaluation.JudgeHolds | QEQuery.c:383-472 | Without a failing predicate among those asked the verdict is the Boolean meaning of the tree, whatever the others would do |
| QueryEvaluation.QueryAnswers | QEQuery.c:477-489 | From the grammar to the answer: true exactly if the meaning is, without an error, unless a predicate that is asked fails |
| QueryErrors.SafeKeeps | QEQuery.c:383-472 | In a safe tree an error met makes the result false, and there is an error at the end |
| QueryErrors.ErrorsStay | QEQuery.c:383-472 | An error met stays, whatever callbacks with given traits do, exactly if the tree is safe for those traits |
| QueryErrors.QueryErrorsStay | QEQuery.c:383-489 | The same for every complete query that a sequence of calls builds |
| QueryErrors.SafeUncleared | QEQuery.c:383-472 | A tree in which no predicate takes errors back is safe, whichever can fail |
| QueryErrors.UnclearedAnswers | QEQuery.c:477-489 | With callbacks that leave errors alone, any complete query ends with an error exactly if its verdict is a fault, and is true exactly if it is yes |
| QueryErrors.ClientLosesError | QEQuery.c:383-472 | With a callback that assigns the error as it may, a query whose first predicate fails and whose answer is true without an error |
| QueryHeap.AttachKeeps | QEQuery.c:686-691 | Appending an element to the open group keeps: each open group is the last element of the one below, and each element has one owner |
| QueryHeap.YankKeeps | QEQuery.c:1149-1169 | Taking the last element out keeps it |
| QueryHeap.PushKeeps | QEQuery.c:1242-1248 | A new group on the stack keeps it |
| QueryHeap.PopKeeps | QEQuery.c:1265-1284 | Completing the group on top keeps it |
| QueryHeap.RootShows | QEQuery.c:477-489 | Following references from the root gives the tree of the builder's state |
| QueryEngine.Query.constructor | QEQuery.c:137-208 | A new query is the start state |
| QueryEngine.Query.AppendElement | QEQuery.c:669-696 | An element that is not in the query becomes the last of the group on top, after an implicit AND if no operator precedes it; the groups stay as the specification says and every element keeps one owner |
| QueryEngine.Query.AppendAndOperator | QEQuery.c:701-725 | A second operator is a syntax error; otherwise an OR group on top gets an implicit AND group |
| QueryEngine.Query.AppendOrOperator | QEQuery.c:731-753 | A second operator is a syntax error; otherwise an AND group on top is closed; no element changes |
| QueryEngine.Query.StartGroup | QEQuery.c:769-794 | Without an operator the new group goes into an implicit AND group |
| QueryEngine.Query.EndGroup | QEQuery.c:799-869 | The open group and the AND groups around it are closed and coalesced in place, and each failure leaves the error and state it should |
| QueryEngine.Query.PushGroup | QEQuery.c:1217-1260 | A new group is on top, the last of the one below, and an AND group has taken over that one's last element; OR groups are counted modulo 2^32 |
| QueryEngine.Query.PopGroup | QEQuery.c:1265-1284 | The group on top becomes a complete element of the one below; the root stays |
| QueryEngine.Query.PopGroupAndCoalesce | QEQuery.c:1289-1338 | A group of one element leaves the query and its element takes its place, negated in place if the group was |
| QueryEngine.Query.YankElement | QEQuery.c:1149-1169 | The last element leaves the group on top, and nothing else refers to it |
| QueryEngine.Query.AppendElementFromArgs | QEQuery.c:496-617 | Consumes the words and changes the state as the specification says, error cases and number of words included |
| QueryEngine.Query.EvaluateElement | QEQuery.c:383-472 | Evaluating the elements gives what evaluating the tree they show gives, and changes only the recorded error |
| QueryEngine.Query.EvaluateObject | QEQuery.c:477-489 | A complete query is evaluated from its root; with an open group, a pending operator or an error the answer is false and the error stays |
| QueryFind.ParseArguments | kextfind_main.c:252-254 | Appending until no words are left or a call fails does to the elements what it does to the state |
| QueryFind.Matches | QEQuery.c:383-617 | A query given in words is true of an object exactly if its meaning is, without an error, unless a predicate that is asked fails; then, if it is safe or no callback takes errors back, the answer is false with an error |
| KcMap.KernelMap.constructor | kclist_main.c:1846-1917 | One entry per segment, in the order of the load commands, and the lowest address |
| KcMap.KernelMap.FileOffset | kclist_main.c:1920-1948 | The first entry that contains the address answers |
| KcMap.AddressMap | kclist_main.c:1846-1948 | With disjoint segments, of any size, an answer is the offset at the same distance into the only segment that contains the address, in its file-backed part, exactly unless that segment misleads; where there is such an offset it is the answer exactly if the ends of the segment do not wrap round |
| KcMap.OrderDoesNotMatter | kclist_main.c:1926-1929 | The answer is the same for every order of disjoint segments, of any size |
| KcMap.RoomForEntries | kclist_main.c:1864-1892 | The room allocated is less than header and entries take exactly if every load command is a segment |
| KcMap.LargeSegmentMisleads | kclist_main.c:1932-1944 | For any disjoint segments: when an answer is not the offset at the same distance into the file-backed part, exactly |
| KcMap.SegmentThatMisleads | kclist_main.c:1932-1944 | A segment and an address for which it does |
| KcRebase.PointerRoundTrip | kclist_main.c:444-471 | A pointer comes back from its packed form exactly if bits 43 to 55 repeat bit 42 |
| KcRebase.RebasedPacks | kclist_main.c:461-469 | A rebased value packs to the 51 bits it came from |
| KcRebase.RebasedIsStored | kclist_main.c:444-471 | A stored value is rebased exactly if it stands for an address, and to it: plain, packed in 51 bits, or with bit 63 as a 32-bit distance from the base; never with bit 62 |
| KcExtract.ExtractKext | kclist_main.c:774-1072 | On success the file is the segments one after the other under the rewritten header; otherwise the reason is the first segment that cannot be copied or written completely, or the header, and the file holds what was written |
| KcExtract.CopySegments | kclist_main.c:827-925 | Pass 1: segments are copied, and they and their sections moved, in the order of the commands; the last `__LINKEDIT` is remembered |
| KcExtract.AdjustCommands | kclist_main.c:944-1044 | Pass 2: tables and relocations go with `__LINKEDIT`; without it the commands become void, as does a lone LC_DYSYMTAB |
| KcContents.Tiled | kclist_main.c:852-875 | Segments occupy consecutive intervals: each position belongs to exactly one |
| KcContents.SegmentPreserved | kclist_main.c:852-858 | Past the header each byte of a segment is its byte in the collection |
| KcContents.NothingElse | kclist_main.c:852-858 | Every byte of the file is a byte of the header or of a segment |
| KcContents.SectionKeepsDistance | kclist_main.c:833-875 | Every section with an offset: it keeps its distance from its segment modulo 2^32 exactly if the segment has file bytes or was at a multiple of 2^32, and keeps it exactly if that leaves a 32-bit offset, or the segment is empty and was at 0 |
| KcContents.SectionInSegment | kclist_main.c:864-869 | A section in its segment keeps its distance when the file is smaller than 2^32 bytes |
| KcContents.EmptySegmentLosesSection | kclist_main.c:833-835 | A section whose distance from its empty segment changes from 0 to 8 |
| KcContents.SectionPreserved | kclist_main.c:864-869 | The bytes of a section are where its new offset says |
| KcContents.TableKeepsDistance | kclist_main.c:928-1029 | Every table offset of every rewritten command (LC_SYMTAB, LC_DYSYMTAB, LC_SEGMENT_SPLIT_INFO, relocations of sections) keeps its distance from `__LINKEDIT` |
| KcContents.TablePreserved | kclist_main.c:928-1029 | The bytes of a table are where its new offset says |
| KcContents.SymbolTables | kclist_main.c:973-1043 | Exactly the table commands become void when `__LINKEDIT` is missing or at the start, and the last LC_DYSYMTAB without LC_SYMTAB; the others keep their type |
| KcContents.OnlyOffsetsChange | kclist_main.c:827-1043 | Nothing but file offsets changes in a segment and its sections, 0 stays 0 for offsets that mean none, and other commands stay as they are |
| KcContents.SourceOf | kclist_main.c:838-840 | A segment stored at x past the load address is looked up at x past the source address |
| KcContents.WhyNot | kclist_main.c:838-862 | A segment cannot be copied exactly if its value stands for no address, the map has nothing at its source address, or the collection ends before it |
| KcContents.BytesByAddress | kclist_main.c:840-858 | Past the header each byte of the extracted file, in a segment stored at x past the load address that lies in one segment of the collection, is the collection's byte at the offset that the map gives for x past the source address |
| KcEnvelope.CompressPrelinkedSlice | kernelcache.c:1024-1131 | For images of any length: fails exactly if the image is signed, empty or too large when compressed; the envelope has the checksum, both sizes, the version and the code |
| KcEnvelope.UncompressPrelinkedSlice | kernelcache.c:930-1020 | A text is given only if the signature, type, checksum and size at bytes 0, 4, 8 and 12 are its own, and is given if a part of the code's text from byte 384 on is such |
| KcEnvelope.UncompressDamaged | kernelcache.c:930-1020 | An envelope whose signature, type or checksum is changed to anything else is refused |
| KcEnvelope.EnvelopeLayout | kernelcache.c:1052-1120 | An envelope byte by byte: two words, checksum, size, compressed size, version, zeros up to byte 384, the code |
| KcEnvelope.LargeIsCut | kernelcache.c:1024-1131 | Of images beyond 32 bits a part is compressed, and a part or nothing summed |
| KcEnvelope.OverrunCondition | kernelcache.c:1052-1108 | The compressed bytes are more than fit behind the header exactly if flag bytes outweigh what pairs save, by no more than the header's size |
| KcEnvelope.IncompressibleOverruns | kernelcache.c:1052-1108 | An image without long matches overruns exactly if it has 1 to 3072 bytes, and is not compressed if it has more |
| KcEnvelope.OneByteOverruns | kernelcache.c:1052-1108 | Any image of one byte does |
| KcEnvelope.EnvelopeRoundTrip | kernelcache.c:930-1131 | Uncompressing what was compressed gives the image back |
| KcEnvelope.SizeSurvives | kernelcache.c:984-1004 | A text of 2^31 bytes or more never has the expected size |
| FatFile.WriteToFile | kext_tools_util.c:236-262 | All of the data is written, however the writes are split, or a write failed after a prefix |
| FatFile.WriteSlices | kernelcache.c:131-179 | The file is the header, the places of the slices and the slices |
| FatFile.ReadSlice | kernelcache.c:811-866 | The slice read is that part of the file, however the reads are split |
| FatFile.NextArchIs | kernelcache.c:350-396 | The cursor goes through the entries in order and ends after the last |
| FatFile.ReadSlices | kernelcache.c:617-692 | The slices are those the entries give, in order |
| FatFile.ReadArchs | kernelcache.c:537-588 | The architectures are those the entries give, in order |
| FatFile.FatRoundTrip | kernelcache.c:67-179 | Reading back what was written gives the slices and architectures in order |
| FatFile.LayoutInNumbers | kernelcache.c:131-179 | A fat file byte by byte: the magic bytes, the number, and for each slice 20 bytes with type, subtype, offset, size and 0 |
| FatFile.SwappedReadsSame | kernelcache.c:284-334 | A file whose header words are reversed gives the same slices and architectures |
| FatFile.ThinFile | kernelcache.c:617-692 | A file with neither form of the magic bytes is one slice without architectures |
| FatFile.SlicesDisjoint | kernelcache.c:143-164 | Slices follow the header and each other without a gap or an overlap |
| KextNewest.KextArray.AppendIfNewest | kextcache_main.c:2659-2724 | The array after a call, in all cases |
| KextNewest.KextArray.FirstPass | kextcache_main.c:2446-2514 | The first pass over repository and named kexts, of any versions, skipping what is in the array, gives what the specification gives for both lists |
| KextNewest.AllPicks | kextcache_main.c:2659-2724 | After any sequence of kexts with positive versions the array holds the winners of their bundle identifiers, in order |
| KextNewest.CheckMakesNoDifference | kextcache_main.c:2471-2512 | With positive versions passing over kexts that are in the array changes nothing |
| KextNewest.ExactlyOne | kextcache_main.c:2659-2724 | For any kexts: exactly one of a bundle identifier is left if and only if the first with a version has a positive one or there is no other; then it is of the greatest version, and the first of those |
| KextNewest.KeptVersioned | kextcache_main.c:2659-2675 | Nothing gets into the array but kexts that were given and have a version that can be parsed |
| KextNewest.VersionZeroStaysTwice | kextcache_main.c:2680-2718 | Two kexts of version 0 with one bundle identifier both stay |
| BootStamps.NeedsUpdate | bootcaches.c:1226-1305 | When a path is out of date, and what is captured for it |
| BootStamps.NeedUpdates | bootcaches.c:1341-1413 | Each result is true exactly if a path of its kind is out of date or the volume is marked; all paths are captured, but one in early boot |
| BootStamps.UpdateStamp | bootcaches.c:1448-1470 | The stamp file is removed, and made anew with the captured times |
| BootStamps.UpdateStamps | bootcaches.c:1472-1540 | All paths are stamped in order and the mark is removed, unless the volume is read-only |
| BootStamps.PathConverges | bootcaches.c:1226-1305 | A path stamped with the times of its source is out of date exactly if they are finer than microseconds |
| BootStamps.Convergence | bootcaches.c:1226-1540 | After all paths are checked and stamped, what is out of date is exactly what cannot be kept |
| BootStamps.UpdateVolume | bootcaches.c:1341-1540 | needUpdates, updateStamps, needUpdates: the second check finds something exactly if a source has such a time |
| BootStamps.StampAndChange | bootcaches.c:1226-1470 | needsUpdate, updateStamp, and needsUpdate when the source may have changed: the stamp holds the source's two times, and the second check finds something exactly if the change time, with 1 for a second of 0, is no longer the earlier one cut to microseconds, or the source has come or gone |
| BootStamps.SmallChangesOnly | bootcaches.c:1286-1300 | The only changes of a time that are not noticed: to a whole microsecond, from within the microsecond after it |
| BootStamps.StampAllAndChange | bootcaches.c:1341-1540 | The same for a volume: each result of the second check is true exactly if a path of its kind has changed so |
| StampPaths.Gsub | bootcaches.c:138-145 | Every old character up to the end of the string is replaced |
| StampPaths.MakeCachedPath | bootcaches.c:147-180 | The stamp path, made of directory, UUID and source in that order, or a failure if a path does not fit its buffer; with the tools' directory and a UUID only the source path can be too long |
| StampPaths.SameStamp | bootcaches.c:147-180 | Two sources share a stamp exactly if they differ only in `/` and `:` |
| StampPaths.DistinctSources | bootcaches.c:147-180 | Cached paths with different sources without `:` have different stamps |
| StampPaths.DistinctStamps | bootcaches.c:147-180 | Sources without `:` have stamps of their own |
| CacheFreshness.LatestTime | kext_tools_util.c:1321-1362 | The latest of the folders' times, microseconds included |
| CacheFreshness.ExpectedModTime | kextcache_main.c:3935-4013 | The builder's time, or why there is none |
| CacheFreshness.NeedsRebuild | bootcaches.c:1952-2090 | The check accepts the files whose time is a second after the latest folder, or after a kernel later than that |
| CacheFreshness.Agreement | kextcache_main.c:3953-3999 | For any folders: the check accepts the builder's time exactly if the kernel is not one second newer than the folders, or, without a folder of 1970 or later, if the kernel is later than that second |
| CacheFreshness.BuildAndCheck | kextcache_main.c:3935-4013 | Building and then checking on the same folders and kernel, whatever they are: when there is no time to give, when building fails, and otherwise that the new cache is to be rebuilt exactly if the kernel is one second newer, or from before 1970 without a folder of a later date, or there is an immutable kernel of another second |

## Left out

- Allocation failure, retain and release, logging, printing, option parsing and property lists.
- LZVN compression, OSKext, disk arbitration and other code that is not in the repository. An envelope of another type is refused.
- Masks and shifts of disjoint bits are written as quotients and remainders, except in the decoder's flag register. Pointers into buffers
  are an array and an index; the source of the coder is a sequence. Long functions are split into methods.
- LzssDecoder.DecompressLzss: the ring bytes that are never set are a parameter, over which the theorems quantify.
- QueryEngine.Query.AppendElement: the element must be a new object; appending the same object twice is not modelled, nor is a client
  predicate with one of the engine's reserved names.
- QueryEngine.Query.EvaluateElement: an evaluation callback's answer depends on the number of the call, the predicate and the recorded error, so it may
  differ from call to call; short circuits are on, which is the default. With them off an AND group is always true.
- QueryEngine.Query.AppendElementFromArgs: parse callbacks are functions of the element, the words and the recorded error; they do not change the
  element's negation.
- Rejection of words that are not a query: the engine accepts some, as shown above.
- KcExtract.ExtractKext: 64-bit segments only; the bytes of a header are given by a function of its commands, and header pages are not parsed. A segment
  that runs past the end of the collection counts as not written. How much each write transfers is a parameter. Pass 2 after a failed pass 1 has no result to speak of. File offsets do not overflow.
- KcMap.KernelMap.constructor: LC_SEGMENT entries, which are made in the same way from 32-bit fields, and the writes past an allocation that is too small
  (`KcMap.RoomForEntries` says when).
- KcEnvelope.CompressPrelinkedSlice: what happens when the compressed bytes are more than the buffer behind the header, which the model reports and does
  not follow. An image shorter than a signature counts as not signed.
- KcEnvelope.UncompressPrelinkedSlice: what is read when an image ends inside the header, which the code does not check for; the model says that it is
  out of bounds.
- FatFile.ReadSlice: at the end of the file the code reads again for ever; the model says that it is stuck. Likewise for entries past the header page.
- FatFile.WriteSlices: the temporary file, its permissions and its renaming.
- FatFile.ReadArchs: the architecture of a file that is not fat, and looking architectures up by type.
- StampPaths.MakeCachedPath: the directory of the stamps is a parameter.
- BootStamps.UpdateStamps: failures to make or remove stamp files or their directories, and syncing to disk.
- BootStamps.NeedUpdates: the special paths other than EFILoginLocalizations are ordinary paths here.
- CacheFreshness.NeedsRebuild: paths are not built; each file is given by the result of its stat.
