# Corpus pipeline: crawler store, text tools and boolean search

The repository builds a Russian-language esports news corpus. A Go crawler
fetches articles from hltv.org and cybersport.ru, rejects anti-bot pages and
stores the pages in MongoDB with change detection. Several C++ tools then
process the text:

- a UTF-8 aware tokenizer;
- a Porter-style Russian stemmer;
- a Zipf frequency counter, which uses a chained hash table and a bubble sort;
- a boolean search engine over an inverted index, built on hand-written
  `Vector`, `HashMap` and `PostingList` containers.

This project models those components in Dafny and proves what their code
promises. Each component keeps the form of its source:

- Code that mutates state becomes classes with `modifies` frames and loops
  with invariants. That covers the containers, the index, the query parser,
  the tokenizer and stemmer passes, the frequency table and the document
  store.
- Code that only computes becomes functions and lemmas. That covers the Go
  helpers, URL normalisation, the marker checks and the query evaluator's
  meaning.

The modules, leaves first:

| module | file | models |
|---|---|---|
| `Base` | base.dfy | bytes, ASCII case, C strings, substring search |
| `Vectors` | vector.dfy | `Vector<T>` of search/vector.h over an array |
| `HashMaps` | hashmap.dfy | `HashMap<K,V>` of search/hashmap.h: a pair list with a map view |
| `PostingLists` | posting_list.dfy | `PostingList` of search/posting_list.h and its id-list algorithms |
| `WordRuns` | word_runs.dfy | the maximal-run word scanner shared by the three tokenising loops |
| `BooleanIndexes` | boolean_index.dfy | `BooleanIndex` of search/boolean_index.h |
| `QueryParsers` | query_parser.dfy | `QueryParser` of search/query_parser.h |
| `BooleanSearchers` | boolean_searcher.dfy | `BooleanSearcher` of search/boolean_searcher.h |
| `Tokenizers` | tokenizer.dfy | `Tokenizer` of tokenizer/tokenizer.cpp |
| `Stemmers` | stemmer.dfy | `to_lower_utf8`, `PorterStemmer` and `Processor` of stemmer/stemmer.cpp |
| `Frequencies` | frequency.dfy | `FrequencyCounter` of zipf/frequency.cpp |
| `Downloads` | download.dfy | `IsBlockedHTML` and the URL builders of parser/download.go |
| `ParserUtils` | parser_utils.dfy | parser/utils.go |
| `Documents` | database.dfy | `NormalizeURL` and the document store of parser/database.go |

The model's conventions:

- Strings are byte sequences.
- C strings are NUL-free byte sequences. The buffer the C++ code writes into
  stays an `array<byte>` with its terminator.
- `unsigned int` document ids wrap at 2^32.
- The djb2 hash wraps at 2^64 and adds `char` values as signed bytes, as on
  x86-64. Where `char` is unsigned (aarch64 Linux, for one), every byte of
  0x80 and above adds 256 more. That moves every Cyrillic term to another
  bucket and so can change the order of equal counts in the ranking.
- Go's `time.Duration` arithmetic wraps at 2^63.
- Each of these widths is written out where it matters.

## Model

| member | source | states |
|---|---|---|
| Base.LowerCString | search/boolean_index.h:17-23 | in-place lowercase of a NUL-terminated buffer: the first n bytes become their ASCII-lowercase images, and the terminator and everything after it are untouched |
| Base.ContainsIffOccurs | parser/utils.go:33-39 | substring search holds exactly when the pattern occurs at some offset |
| Vectors.GrownCapacity | search/vector.h:15 | growth is strict: 16 from an empty buffer, twice the capacity otherwise |
| Vectors.Vector.constructor | search/vector.h:26 | an empty vector with no buffer capacity |
| Vectors.Vector.Copy | search/vector.h:35-46 | the copy has the same size, the same capacity and the same contents in a fresh buffer |
| Vectors.Vector.Assign | search/vector.h:48-63 | after assignment the contents, size and capacity equal the source's; self-assignment keeps the buffer |
| Vectors.Vector.Resize | search/vector.h:14-23 | the capacity grows by GrownCapacity and the contents are preserved |
| Vectors.Vector.PushBack | search/vector.h:65-70 | contents become old contents plus the value; the buffer is reallocated exactly when it was full |
| Vectors.Vector.Get | search/vector.h:72-78 | returns the element at the index |
| Vectors.Vector.Set | search/vector.h:72-74 | writing through `operator[]` changes exactly that element |
| Vectors.Vector.GetSize | search/vector.h:80-82 | the number of elements |
| Vectors.Vector.Empty | search/vector.h:84-86 | true exactly when there are no elements |
| Vectors.Vector.Clear | search/vector.h:88-90 | no elements; the capacity and buffer are kept |
| Vectors.PushSeventeen | search/vector.h:65-70 | seventeen pushes into a new vector leave capacity 32 (16, then doubled) |
| HashMaps.MapOfDomain | search/hashmap.h:44-46 | a key is in the map view exactly when some pair carries it |
| HashMaps.MapOfAt | search/hashmap.h:23-30 | with distinct keys, the map view at a pair's key is that pair's value |
| HashMaps.MapOfSize | search/hashmap.h:66-68 | with distinct keys, the map view has one entry per pair |
| HashMaps.MapOfUpdate | search/hashmap.h:35-38 | overwriting a pair's value updates the map view at that key only |
| HashMaps.HashMap.constructor | search/hashmap.h:33 | an empty map |
| HashMaps.HashMap.FindIndex | search/hashmap.h:23-30 | -1 exactly when the key is absent, otherwise the first index holding the key |
| HashMaps.HashMap.Slot | search/hashmap.h:35-42 | `operator[]`: the slot of the key, appending a default-valued pair when it is new; the map gains the default only for a new key |
| HashMaps.HashMap.SetAt | search/hashmap.h:35-38 | assigning through the returned reference updates that key in the map view |
| HashMaps.HashMap.Contains | search/hashmap.h:44-46 | true exactly when the key is in the map |
| HashMaps.HashMap.Get | search/hashmap.h:48-56 | the value for a present key, nothing for an absent one |
| HashMaps.HashMap.Keys | search/hashmap.h:58-64 | the keys in insertion order, each key of the map exactly once |
| HashMaps.HashMap.Size | search/hashmap.h:66-68 | the number of keys |
| HashMaps.HashMap.Empty | search/hashmap.h:70-72 | true exactly when the map is empty |
| HashMaps.HashMap.Clear | search/hashmap.h:74-76 | the map becomes empty |
| PostingLists.Common | search/posting_list.h:40-48 | the intersection keeps exactly the ids in both lists, and an ascending first list gives an ascending result |
| PostingLists.Without | search/posting_list.h:76-84 | the difference keeps exactly the ids of the first list missing from the second, and an ascending first list gives an ascending result |
| PostingLists.Merge | search/posting_list.h:50-74 | the merge holds exactly the ids of either list |
| PostingLists.MergeAscending | search/posting_list.h:50-74 | merging two ascending lists gives an ascending list |
| PostingLists.SortedUnionIsMerge | search/posting_list.h:50-74 | any ascending list holding exactly the union equals the merge, so the union is unique |
| PostingLists.AscendingUnique | search/posting_list.h:87-97 | two ascending lists with the same ids are equal |
| PostingLists.SortedDistinctIsAscending | search/posting_list.h:87-97 | a sorted list without duplicates is strictly ascending |
| PostingLists.DistinctPermutation | search/posting_list.h:87-97 | a permutation of a duplicate-free list is duplicate-free |
| PostingLists.ExchangeSort | search/posting_list.h:87-97 | the exchange sort leaves the array sorted and a permutation of its input, after `size - 1` outer rounds, or 2^64 - 1 idle rounds when the array is empty |
| PostingLists.SortIds | search/posting_list.h:19-20 | sorting distinct ids gives an ascending list of the same ids and length |
| PostingLists.ContainsId | search/posting_list.h:31-38 | true exactly when the id is in the list |
| PostingLists.AddId | search/posting_list.h:13-21 | adding keeps the list ascending and adds the id; a present id changes nothing, a new one lengthens the list by one; the result is the merge of the list with the id |
| PostingLists.IntersectIds | search/posting_list.h:40-48 | the intersect loop computes Common |
| PostingLists.DifferenceIds | search/posting_list.h:76-84 | the difference loop computes Without |
| PostingLists.AppendMissing | search/posting_list.h:51-63 | appending the missing ids keeps the prefix, adds exactly the other list's ids and keeps the list duplicate-free |
| PostingLists.UniteIds | search/posting_list.h:50-74 | the union is ascending and holds exactly the ids of both lists |
| PostingLists.PostingList.constructor | search/posting_list.h:11 | an empty posting list |
| PostingLists.PostingList.AddDoc | search/posting_list.h:13-21 | `add_doc` adds the id, keeps the list ascending, and leaves it unchanged when the id is present |
| PostingLists.PostingList.GetDocs | search/posting_list.h:23-25 | the ids, ascending |
| PostingLists.PostingList.Size | search/posting_list.h:27-29 | the number of ids |
| PostingLists.PostingList.Contains | search/posting_list.h:31-38 | true exactly when the id is listed |
| PostingLists.PostingList.Intersect | search/posting_list.h:40-48 | the ascending intersection with the other list |
| PostingLists.PostingList.Unite | search/posting_list.h:50-74 | an ascending list of exactly the ids of either list |
| PostingLists.PostingList.Difference | search/posting_list.h:76-84 | the ascending difference with the other list |
| PostingLists.AddOrderIrrelevant | search/posting_list.h:13-21 | `add_doc(d)` then `add_doc(e)` leaves the same list as `add_doc(e)` then `add_doc(d)`, where each add is the merge `AddId` ensures |
| WordRuns.Capped | search/boolean_index.h:37-39 | a run kept in the buffer is its first `cap` bytes |
| WordRuns.CappedStep | search/boolean_index.h:37-39 | a byte is stored only while the buffer has room |
| WordRuns.ScanInvariant | tokenizer/tokenizer.cpp:53-68 | after any prefix, the closed runs are non-empty words, together with the open run they are the word bytes read, and their number counts the run starts |
| WordRuns.RunsWellFormed | tokenizer/tokenizer.cpp:53-74 | every emitted run is a non-empty sequence of word bytes |
| WordRuns.RunsConcat | tokenizer/tokenizer.cpp:53-74 | the runs concatenate to exactly the word bytes of the input |
| WordRuns.RunsCount | tokenizer/tokenizer.cpp:53-74 | one run per word start |
| WordRuns.RunsSeparated | tokenizer/tokenizer.cpp:57-67 | a separator byte splits the runs: the runs of `a + [sep] + b` are those of `a` followed by those of `b` |
| WordRuns.SingleRun | tokenizer/tokenizer.cpp:69-74 | input made only of word bytes is a single run, flushed at the end |
| WordRuns.TotalLengthAppend | tokenizer/tokenizer.cpp:63 | the character total of two token lists adds up |
| BooleanIndexes.IndexTermsShape | search/boolean_index.h:25-57 | every indexed term is non-empty, at most 4095 bytes, made of word bytes and free of ASCII capitals |
| BooleanIndexes.AddedToPosting | search/boolean_index.h:45 | `index[token].add_doc(docId)` files the id under the token and keeps every list ascending |
| BooleanIndexes.IndexedStaysBelow | search/boolean_index.h:62-67 | indexing a document id below the bound keeps every posted id below it |
| BooleanIndexes.IndexedAsStep | search/boolean_index.h:41-55 | indexing terms one after another composes |
| BooleanIndexes.AndAllMembers | search/boolean_index.h:86-99 | the AND loop keeps exactly the current ids posted under every later term, and nothing once a term is missing |
| BooleanIndexes.SearchAndMembers | search/boolean_index.h:74-102 | `search_and` returns exactly the ids posted under all terms, and nothing for no terms or for a missing term |
| BooleanIndexes.UnionOfMembers | search/boolean_index.h:104-124 | the OR result holds exactly the ids posted under some term |
| BooleanIndexes.Complement | search/boolean_index.h:139-150 | exactly the ids below `nextDocId` not in the list, ascending |
| BooleanIndexes.NotIsComplementOfAnd | search/boolean_index.h:139-150 | below `nextDocId`, NOT t holds exactly when the single-term AND does not |
| BooleanIndexes.BooleanIndex.constructor | search/boolean_index.h:60 | an empty index with `nextDocId` 0 |
| BooleanIndexes.BooleanIndex.AddPosting | search/boolean_index.h:45 | posts the id under the token and nothing else |
| BooleanIndexes.BooleanIndex.FlushWord | search/boolean_index.h:41-47 | the finished run, capped and lowercased in the buffer, is posted |
| BooleanIndexes.BooleanIndex.TokenizeAndIndex | search/boolean_index.h:25-57 | the document id is posted under exactly the index terms of the text |
| BooleanIndexes.BooleanIndex.AddDocument | search/boolean_index.h:62-67 | returns the old `nextDocId` and increments it modulo 2^32; stores the text and indexes its terms; every id stays below `nextDocId` until the counter wraps |
| BooleanIndexes.BooleanIndex.GetPostingList | search/boolean_index.h:69-72 | the ascending posting list of an indexed term, nothing otherwise |
| BooleanIndexes.BooleanIndex.PostingOrEmpty | search/boolean_index.h:79-84 | the posting list of the term, or empty when it is absent |
| BooleanIndexes.BooleanIndex.SearchAnd | search/boolean_index.h:74-102 | the AND search computes SearchAndSpec, ascending |
| BooleanIndexes.BooleanIndex.SearchOr | search/boolean_index.h:104-137 | an ascending list of exactly the ids posted under some term |
| BooleanIndexes.BooleanIndex.SearchNot | search/boolean_index.h:139-150 | the complement of the term's postings below `nextDocId` |
| BooleanIndexes.BooleanIndex.GetDocumentText | search/boolean_index.h:152-155 | the stored text of a known id, nothing otherwise |
| BooleanIndexes.BooleanIndex.GetTotalDocuments | search/boolean_index.h:157-159 | the next document id |
| BooleanIndexes.BooleanIndex.GetTotalTerms | search/boolean_index.h:161-163 | the number of indexed terms |
| BooleanIndexes.BooleanIndex.Keys | search/boolean_index.h:165-167 | each indexed term exactly once |
| QueryParsers.DropSpaces | search/query_parser.h:29-33 | the result is a suffix of the input and does not start with a space |
| QueryParsers.DropSpacesIdempotent | search/query_parser.h:29-33 | skipping spaces twice is the same as once |
| QueryParsers.DelimiterFreeShape | search/query_parser.h:68 | the counted prefix has no space or parenthesis, and the byte after it is one |
| QueryParsers.WordPrefixShape | search/query_parser.h:76-81 | a word stops at a delimiter, at the end, or at 255 bytes |
| QueryParsers.NextToken | search/query_parser.h:55-97 | each token consumes at least one byte and leaves a suffix of the input |
| QueryParsers.NextTokenWellFormed | search/query_parser.h:55-97 | a token is a parenthesis, a lowercase term of at most 255 bytes, a connective, or a NOT with a lowercase term |
| QueryParsers.LexEmpty | search/query_parser.h:50 | an empty query has no tokens |
| QueryParsers.LexDropSpaces | search/query_parser.h:48-51 | leading spaces do not change the tokens |
| QueryParsers.LexLength | search/query_parser.h:46-101 | a query yields at most one token per byte |
| QueryParsers.LexWellFormed | search/query_parser.h:46-101 | every token of a query is well formed |
| QueryParsers.QueryParser.constructor | search/query_parser.h:44 | the parser starts at position 0 |
| QueryParsers.QueryParser.SkipSpaces | search/query_parser.h:29-33 | the position moves past exactly the leading spaces |
| QueryParsers.QueryParser.ReadWord | search/query_parser.h:76-82 | reads the word prefix, at most 255 bytes, into the buffer and lowercases it |
| QueryParsers.QueryParser.ParseNegation | search/query_parser.h:63-74 | `-`, then spaces, then a word gives a NOT token with that lowercased word |
| QueryParsers.QueryParser.ReadNotTerm | search/query_parser.h:66-73 | the term after `-` is the lowercased word prefix |
| QueryParsers.QueryParser.ParseWord | search/query_parser.h:75-97 | a word becomes AND, OR or NOT when it is one of those keywords, otherwise a term |
| QueryParsers.QueryParser.ParseToken | search/query_parser.h:55-97 | one token, as NextToken describes it |
| QueryParsers.QueryParser.ParseStep | search/query_parser.h:50-98 | one loop round adds the next token of Lex, or stops at the end |
| QueryParsers.QueryParser.Parse | search/query_parser.h:46-101 | the tokens are exactly Lex of the rest of the query |
| BooleanSearchers.Eval | search/boolean_searcher.h:13-47 | evaluation never moves backwards, consumes at least one token when any remain, and yields ascending ids |
| BooleanSearchers.EvalLoop | search/boolean_searcher.h:48-120 | the infix loop stops only at the end or at a `)` token |
| BooleanSearchers.Combine | search/boolean_searcher.h:51-114 | combining ascending lists gives an ascending list |
| BooleanSearchers.CombineElems | search/boolean_searcher.h:51-114 | AND is intersection, OR is union and NOT is difference of the id sets |
| BooleanSearchers.TermOperand | search/boolean_searcher.h:40-46 | a term starts the loop with its posting list |
| BooleanSearchers.InfixStep | search/boolean_searcher.h:51-99 | a connective evaluates its right operand recursively and then combines |
| BooleanSearchers.LoopStops | search/boolean_searcher.h:48-116 | the loop returns its result at the end or at `)` |
| BooleanSearchers.FlatQueryMeaning | search/boolean_searcher.h:40-120 | a query `t0 op1 t1 ... opn tn` of plain terms means the right fold `t0 op1 (t1 op2 (...))`: connectives group to the right with no precedence |
| BooleanSearchers.AndThenOr | search/boolean_searcher.h:48-120 | `a AND b OR c` finds ids in `a` and in `b` or `c` |
| BooleanSearchers.GroupedFlatQuery | search/boolean_searcher.h:22-29 | a parenthesised flat query means the same as the query itself |
| BooleanSearchers.NegationReadsNextTerm | search/boolean_searcher.h:31-38 | a leading NOT token ignores its own term and negates the next term; alone it yields nothing |
| BooleanSearchers.WithoutNothing | search/boolean_searcher.h:97-114 | subtracting an empty list keeps the list |
| BooleanSearchers.TrailingNegationSubtractsNothing | search/boolean_searcher.h:97-114 | `a -b` returns `a`'s postings: the NOT connective's right operand is empty |
| BooleanSearchers.BlankQueryFindsNothing | search/boolean_searcher.h:128-138 | a query of spaces yields no tokens and no ids |
| BooleanSearchers.BooleanSearcher.constructor | search/boolean_searcher.h:126 | the searcher uses the given index |
| BooleanSearchers.BooleanSearcher.EvaluateTokens | search/boolean_searcher.h:13-123 | the recursive evaluator computes Eval over the index |
| BooleanSearchers.BooleanSearcher.EvaluateLoop | search/boolean_searcher.h:48-120 | the infix loop computes EvalLoop |
| BooleanSearchers.BooleanSearcher.CombineIds | search/boolean_searcher.h:51-114 | the nested loops of each connective compute Combine |
| BooleanSearchers.BooleanSearcher.Search | search/boolean_searcher.h:128-138 | the search computes SearchSpec, ascending |
| Tokenizers.LowerUtf8 | tokenizer/tokenizer.cpp:19-42 | lowercasing keeps the byte length |
| Tokenizers.LowerPair | tokenizer/tokenizer.cpp:22-37 | a Cyrillic pair stays a two-byte sequence with a continuation byte second |
| Tokenizers.LowerUtf8Ascii | tokenizer/tokenizer.cpp:38-40 | each ASCII byte becomes its lowercase image |
| Tokenizers.LowerUtf8Unchanged | tokenizer/tokenizer.cpp:19-42 | text without capitals and without D0/D1 lead bytes is unchanged |
| Tokenizers.LowerUtf8Concat | tokenizer/tokenizer.cpp:19-42 | lowercasing distributes over a concatenation whose left part does not end in a lead byte |
| Tokenizers.LowerUtf8NotIdempotent | tokenizer/tokenizer.cpp:22-37 | `ѐ` (D1 90) becomes `Ё` (D0 81), which becomes `ё` (D1 91) on a second pass |
| Tokenizers.LowerAt | tokenizer/tokenizer.cpp:20-41 | one loop round rewrites one byte or one pair as the specification prescribes |
| Tokenizers.ToLowerUtf8 | tokenizer/tokenizer.cpp:19-42 | the in-place pass computes LowerUtf8 of the old contents |
| Tokenizers.LowerAll | tokenizer/tokenizer.cpp:60-74 | every token of a list is lowercased, and the count is kept |
| Tokenizers.LoweredLength | tokenizer/tokenizer.cpp:63 | the lowercased runs have as many bytes as the runs |
| Tokenizers.Tokenizer.constructor | tokenizer/tokenizer.cpp:13-17 | no tokens, counters at zero |
| Tokenizers.Tokenizer.Emit | tokenizer/tokenizer.cpp:60-65 | appends the lowercased word and keeps both counters consistent |
| Tokenizers.Tokenizer.ProcessFile | tokenizer/tokenizer.cpp:49-75 | an unreadable file adds nothing; otherwise the lowercased runs of word bytes are appended in order |
| Tokenizers.Tokenizer.GetTotalTokens | tokenizer/tokenizer.cpp:98 | the number of tokens stored |
| Tokenizers.ProcessedCounts | tokenizer/tokenizer.cpp:60-74 | a file adds one token per word start and exactly its word bytes to the character total |
| Stemmers.LowerWordAscii | stemmer/stemmer.cpp:15-29 | a word without D0 lead bytes is lowercased as ASCII |
| Stemmers.LowerWordNoNul | stemmer/stemmer.cpp:15-29 | lowercasing never writes a NUL into a C string |
| Stemmers.LowerWordCapitals | stemmer/stemmer.cpp:21 | `А`..`П` (D0 90..9F) become D0 B0..BF, but `Р`..`Я` (D0 A0..AF) become D0 C0..CF, which is not `р`..`я` |
| Stemmers.VowelTableQuirks | stemmer/stemmer.cpp:33-46 | the vowel table accepts the consonant с (D1 81) and rejects Ю and Я once `to_lower_utf8` has lowered them (D0 CE, D0 CF) |
| Stemmers.LowerAt | stemmer/stemmer.cpp:16-28 | one loop round rewrites a D0 pair and skips it, or lowercases one byte |
| Stemmers.LowerInPlace | stemmer/stemmer.cpp:15-29 | `to_lower_utf8` computes LowerWord of the C string in place |
| Stemmers.StrLen | stemmer/stemmer.cpp:9-13 | the length is the index of the terminator |
| Stemmers.FindRvShape | stemmer/stemmer.cpp:72-77 | RV starts two bytes after the first vowel pair at an even offset, or is the whole length when there is none |
| Stemmers.Strip | stemmer/stemmer.cpp:59-70 | `replace` succeeds exactly when the suffix ends the word, and then swaps the suffix for the replacement |
| Stemmers.StripFirst | stemmer/stemmer.cpp:89-90 | trying a list stops at the first suffix that matches and never lengthens the word |
| Stemmers.StripFirstPicks | stemmer/stemmer.cpp:89-90 | when the first matching suffix is the k-th, exactly it is removed |
| Stemmers.StripFirstNone | stemmer/stemmer.cpp:89-90 | when no suffix matches, the word is unchanged |
| Stemmers.StripFirstRemoves | stemmer/stemmer.cpp:89-90 | a change removes a listed suffix that ends the word |
| Stemmers.StripEach | stemmer/stemmer.cpp:93-94 | trying every suffix in turn never lengthens the word |
| Stemmers.RussianShortening | stemmer/stemmer.cpp:89-121 | no replacement in the Russian tables is longer than its suffix |
| Stemmers.MainStep | stemmer/stemmer.cpp:88-113 | the perfective, reflexive, adjective, participle, verb and noun step never lengthens RV |
| Stemmers.FinalStep | stemmer/stemmer.cpp:114-121 | the `и`, derivational, `ь`, superlative and `нн` step never lengthens RV |
| Stemmers.DropLoneLead | stemmer/stemmer.cpp:123-132 | a dangling D0/D1 lead byte at the end is cut, nothing else |
| Stemmers.StemShortens | stemmer/stemmer.cpp:80-133 | a stem is never longer than its word and never contains NUL |
| Stemmers.StemLeavesShort | stemmer/stemmer.cpp:80-84 | words under 6 bytes, or without a vowel before the end, are left alone |
| Stemmers.TrimKeepsHead | stemmer/stemmer.cpp:123-132 | cutting the dangling lead byte keeps any prefix that does not end in one |
| Stemmers.StemKeepsPrefix | stemmer/stemmer.cpp:83-133 | the bytes before RV are never touched |
| Stemmers.PerfectiveWins | stemmer/stemmer.cpp:89-92 | a perfective ending ends the main step: only it is removed |
| Stemmers.AdjectiveBeforeVerb | stemmer/stemmer.cpp:93-106 | after an adjective ending, the participle list is tried and never the verb list |
| Stemmers.EndsWithIn | stemmer/stemmer.cpp:50-57 | `ends_with` on the buffer decides EndsWith |
| Stemmers.ReplaceIn | stemmer/stemmer.cpp:59-70 | `replace` on the buffer computes Strip, rewrites the terminator and leaves the bytes before RV alone |
| Stemmers.FirstReplaceIn | stemmer/stemmer.cpp:90 | a first-match loop over a list computes StripFirst |
| Stemmers.EachReplaceIn | stemmer/stemmer.cpp:94 | a loop over every suffix of a list computes StripEach |
| Stemmers.FindRvIn | stemmer/stemmer.cpp:72-77 | `find_rv` computes FindRv |
| Stemmers.PorterStemmer.constructor | stemmer/stemmer.cpp:89-116 | the stemmer uses the Russian suffix tables |
| Stemmers.PorterStemmer.MainStage | stemmer/stemmer.cpp:88-113 | the main step on the buffer computes MainStep on RV |
| Stemmers.PorterStemmer.FinalStage | stemmer/stemmer.cpp:114-121 | the final step on the buffer computes FinalStep on RV |
| Stemmers.PorterStemmer.Stem | stemmer/stemmer.cpp:80-133 | `stem` leaves StemWith of the word as a C string in the buffer |
| Stemmers.PorterStemmer.StemRegion | stemmer/stemmer.cpp:85-133 | stemming RV and cutting a lone lead byte gives StemWith |
| Stemmers.TrimLead | stemmer/stemmer.cpp:124-132 | the terminator is placed per DropLoneLead |
| Stemmers.EmittedSnoc | stemmer/stemmer.cpp:157-168 | a finished word adds its stem as a line only when the stem is non-empty |
| Stemmers.EmittedBounds | stemmer/stemmer.cpp:147-181 | at most one line per word, each non-empty and at most 1023 bytes |
| Stemmers.Processor.constructor | stemmer/stemmer.cpp:136-140 | no lines, counters at zero, Russian tables |
| Stemmers.Processor.StemBuffer | stemmer/stemmer.cpp:158-161 | the buffer holds the stem of the capped, lowercased run |
| Stemmers.Processor.FlushWord | stemmer/stemmer.cpp:157-168 | a finished word appends its non-empty stem and updates both counters |
| Stemmers.Processor.ProcessFile | stemmer/stemmer.cpp:147-181 | an unreadable file adds nothing; otherwise the stems of the runs, each capped at 1023 bytes, are appended in order |
| Stemmers.Processor.GetCount | stemmer/stemmer.cpp:191 | the number of lines written |
| Frequencies.SignedChar | zipf/frequency.cpp:21-22 | `int c = *s` reads a byte as a signed char in -128..127 that agrees with the byte mod 256 |
| Frequencies.Djb2Step | zipf/frequency.cpp:22 | `h * 33 + c` wrapped to 64 bits |
| Frequencies.Bucket | zipf/frequency.cpp:19-24 | the bucket index is below 131072 |
| Frequencies.BucketIsLowHash | zipf/frequency.cpp:19-24 | the bucket depends only on the hash's low 17 bits, so it can be computed without 64-bit wrap-around |
| Frequencies.Hash | zipf/frequency.cpp:19-24 | the hash loop computes Bucket |
| Frequencies.SameTerm | zipf/frequency.cpp:34-37 | `my_strcmp` is true exactly when the two C strings are equal |
| Frequencies.Locate | zipf/frequency.cpp:60-67 | the chain walk finds the first node holding the term, or reports that no node does |
| Frequencies.FlatDistinct | zipf/frequency.cpp:77-85 | the flat list names each term once |
| Frequencies.FlatBuckets | zipf/frequency.cpp:77-85 | each node of the flat list sits in the chain of its own bucket |
| Frequencies.FlatCountSum | zipf/frequency.cpp:58 | the counts of the flat list add up to the token total |
| Frequencies.BubbleSort | zipf/frequency.cpp:87-95 | the bubble sort leaves counts non-increasing and the nodes a permutation of the input |
| Frequencies.BubblePass | zipf/frequency.cpp:88-94 | one pass moves the least count of the unsorted prefix to its end and keeps the sorted suffix |
| Frequencies.FrequencyCounter.constructor | zipf/frequency.cpp:40-42 | every bucket empty, no terms, no tokens |
| Frequencies.FrequencyCounter.Add | zipf/frequency.cpp:56-74 | a null or empty term changes nothing; otherwise the total grows by one and only this term's frequency grows by one; a known term's node is bumped in place, a new term is pushed at the head of its chain and counts as unique |
| Frequencies.FrequencyCounter.Bump | zipf/frequency.cpp:62-64 | `curr->count++` raises that node's count only |
| Frequencies.FrequencyCounter.Push | zipf/frequency.cpp:68-73 | a new node with count 1 becomes the chain head, and the unique count grows by one |
| Frequencies.FrequencyCounter.Collect | zipf/frequency.cpp:77-85 | the flat list is the chains in bucket order, each from head to tail |
| Frequencies.FrequencyCounter.CopyChain | zipf/frequency.cpp:80-84 | copying one chain appends it after the entries copied so far |
| Frequencies.FrequencyCounter.Ranked | zipf/frequency.cpp:76-96 | the ranked list has `unique_count` entries in non-increasing count order and is a permutation of the table's nodes |
| Frequencies.FrequencyCounter.GetUnique | zipf/frequency.cpp:108 | the number of distinct terms stored |
| Frequencies.FrequencyCounter.GetTotal | zipf/frequency.cpp:109 | the sum of all counts |
| Frequencies.EmptyTable | zipf/frequency.cpp:40-42 | an all-empty table is well formed, with no nodes and no tokens |
| Frequencies.BumpFacts | zipf/frequency.cpp:62-64 | bumping keeps the chain well formed and raises only that term's count |
| Frequencies.PushFacts | zipf/frequency.cpp:68-73 | pushing a new term keeps the chain well formed and gives it count 1 |
| Frequencies.FlatIsFrequencies | zipf/frequency.cpp:56-85 | a term has a positive frequency exactly when the flat list holds it, and each flat node carries its term's frequency |
| Downloads.FirstMarker | parser/download.go:21-25 | nothing exactly when the page contains no marker; otherwise a marker the page contains |
| Downloads.FirstMarkerPicks | parser/download.go:21-25 | the reported marker is the earliest one of the list that occurs |
| Downloads.BlockedMessage | parser/download.go:23 | the error text ends with the marker |
| Downloads.IsBlockedHTML | parser/download.go:14-27 | nil exactly when no marker occurs; otherwise the error names the first marker found |
| Downloads.EmptyNeverBlocked | parser/download.go:14-27 | an empty page is not blocked |
| Downloads.Joined | parser/download.go:197-203 | the URL is the prefix, the first part, a slash and the second part, at fixed offsets |
| Downloads.JoinedInjective | parser/download.go:197-203 | with a slash-free first part, the URL determines both parts |
| Downloads.BuildHLTVURL | parser/download.go:197-199 | the URL is `https://www.hltv.org/news/` followed by `id/slug` |
| Downloads.BuildCybersportURL | parser/download.go:201-203 | the URL is `https://www.cybersport.ru/tags/` followed by `tag/slug` |
| Downloads.HLTVURLInjective | parser/download.go:197-199 | different (id, slug) pairs give different URLs |
| Downloads.CybersportURLInjective | parser/download.go:201-203 | different (tag, slug) pairs give different URLs |
| ParserUtils.ReplaceReserved | parser/utils.go:13-14 | each of `<>:"/\|?*` becomes `_`, every other byte is kept |
| ParserUtils.SanitizeShape | parser/utils.go:12-19 | the result is the first 200 bytes of the replaced name |
| ParserUtils.SanitizeClean | parser/utils.go:12-19 | at most 200 bytes, none of them reserved |
| ParserUtils.SanitizeKeepsClean | parser/utils.go:12-19 | a short name without reserved bytes is unchanged |
| ParserUtils.SanitizeIdempotent | parser/utils.go:12-19 | sanitising twice is the same as once |
| ParserUtils.Wrap64 | parser/utils.go:23 | the value is reduced to int64 modulo 2^64 and unchanged when it already fits |
| ParserUtils.ShiftFactor | parser/utils.go:23 | `1 << uint(attempt)` as a Duration: 2^attempt below 63, the sign bit at 63, zero from 64 on and for negative attempts |
| ParserUtils.BackoffDelay | parser/utils.go:22-29 | the wait never exceeds 30 s plus 299 ms and is a valid int64 |
| ParserUtils.DelayExact | parser/utils.go:22-29 | without overflow, the wait is `min(base * 2^attempt, 30 s) + jitter ms` |
| ParserUtils.DelayMonotone | parser/utils.go:22-29 | without overflow, the wait does not decrease as the attempt grows |
| ParserUtils.DelayPositive | parser/utils.go:22-29 | without overflow and with a positive base, the wait is positive |
| ParserUtils.DelayWrapsAtSignBit | parser/utils.go:23-27 | with base 1 ns at attempt 63 the product is negative, so the cap is skipped and the wait is negative |
| ParserUtils.Pow2Grows | parser/utils.go:23 | larger attempts give larger factors |
| ParserUtils.ExtractDomain | parser/utils.go:32-40 | `hltv.org` exactly when the URL contains it, else `cybersport.ru` exactly when it contains that, else empty |
| ParserUtils.HLTVURLDomain | parser/utils.go:32-35 | every built HLTV URL maps to the `hltv.org` domain |
| ParserUtils.TrimLeftShape | parser/utils.go:48-49 | exactly the leading whitespace is removed |
| ParserUtils.TrimRightShape | parser/utils.go:48-49 | exactly the trailing whitespace is removed |
| ParserUtils.TrimSpaceShape | parser/utils.go:48-49 | the trimmed text is the slice of the input between its leading and trailing whitespace and starts and ends with non-space |
| ParserUtils.TrimSpaceIdempotent | parser/utils.go:48-49 | trimming twice is the same as once |
| ParserUtils.CheckArticleAccepts | parser/utils.go:43-73 | an article passes exactly when it exists, its trimmed title is non-empty, its trimmed content has at least 15 bytes and contains no marker |
| ParserUtils.CheckArticleOrder | parser/utils.go:43-73 | nil article, then empty title, then short content, then the first marker found: each error is reported only when the earlier checks pass |
| ParserUtils.TitleNeverScanned | parser/utils.go:59-70 | the markers are looked for in the content only: any non-blank title gives the same verdict |
| Documents.NormalizeURL | parser/database.go:67-85 | a parse failure is an error; otherwise no fragment, scheme `https`, an empty host replaced by `https`, the query kept, and one trailing slash cut exactly when the path is longer than one byte and ends in `/` |
| Documents.NormalizeTwice | parser/database.go:80-82 | normalising a normalised URL changes it exactly when the original path ended in `//` with more than two bytes |
| Documents.NormalizeNotIdempotent | parser/database.go:80-82 | `https://h/a//` normalises to a URL that normalises differently again |
| Documents.Changed | parser/database.go:139-148 | a missing document or an empty page counts as changed; otherwise changed exactly when the digests differ |
| Documents.DocumentStore.constructor | parser/database.go:32-61 | a store over an empty collection that hashes with the given digest |
| Documents.DocumentStore.SaveDocument | parser/database.go:92-110 | the upsert stores the URL's document with the new HTML, the source and digest, and both time stamps set to now; other URLs are untouched |
| Documents.DocumentStore.DocumentExists | parser/database.go:112-119 | true exactly when a document has that URL |
| Documents.DocumentStore.GetDocument | parser/database.go:121-132 | the stored document of the URL, nothing when none |
| Documents.DocumentStore.HasDocumentChanged | parser/database.go:134-149 | decides Changed for the stored document |
| Documents.DocumentStore.UpdateLastChecked | parser/database.go:177-186 | only `lastChecked` of an existing document changes; an unknown URL changes nothing |
| Documents.DocumentStore.GetDocumentsForReCrawl | parser/database.go:151-175 | nothing for a non-positive interval; otherwise exactly the documents last checked before `now - interval`, each once |
| Documents.DocumentStore.GetLastProcessedURL | parser/database.go:188-199 | empty for an empty store; otherwise a stored URL whose crawl time is the latest |
| Documents.SavedIsUnchanged | parser/database.go:92-149 | right after saving a non-empty page, the same page is reported unchanged |
| Documents.LatestSaveIsLast | parser/database.go:92-110 | a page saved later than every stored crawl time is the only candidate for the last processed URL |

## Left out

- Files, directories, streams, standard output and the `main` programs of the C++ tools are not modelled. A file that opens is its byte content, a file that does not is `None`, and written lines are a sequence of tokens.
- `Tokenizer::getAverageLength`, `Processor::get_avg`, `saveResults` and the `log10` columns of `sort_and_save` are not modelled: they use floating point and formatted output. The counters they read are modelled.
- `BooleanIndex::save_index` and `load_index` are file I/O and are not modelled.
- search/string.h is not part of this model. `String` is a byte sequence compared by value.
- The crawler, the HTTP and browser fetch layers, the cookie cache, the worker pool and `SleepWithJitter`'s sleep are not modelled. They are I/O and concurrency. `SaveRawHTML` and `FetchURLHTML` are left out for the same reason.
- The clock is a parameter: `now` in `SaveDocument`, `UpdateLastChecked` and `GetDocumentsForReCrawl`.
- The random jitter is a parameter of `BackoffDelay` below 300.
- The MD5 hex digest is a function value the store is built with.
- MongoDB errors, contexts and object ids are not modelled; every store operation succeeds.
- `NewDatabase` connects to a collection that may already hold documents. The model starts from an empty one, and every later state is reached through the store's operations.
- `url.Parse` and `URL.String` are not modelled. A URL is its parsed parts, and a parse failure is `None`.
- Documents.DocumentStore.GetDocumentsForReCrawl: computes `now - interval` over unbounded integers, not int64.
- ParserUtils.TrimLeftShape, ParserUtils.TrimRightShape, ParserUtils.TrimSpaceShape: `strings.TrimSpace` is modelled on ASCII whitespace (bytes 9-13 and 32) only. Unicode spaces such as U+00A0 are kept.
- Documents.DocumentStore.GetLastProcessedURL: returns some document with the maximal crawl time. It does not say which one MongoDB returns on a tie.
- PostingLists.ExchangeSort: `sort_docs`, `unite`, `search_or` and the evaluator's OR all bound their outer loop by `get_size() - 1` in `size_t`. On an empty vector that wraps to 2^64 - 1, and the loop spins that many rounds that do nothing. `ExchangeSort` runs those rounds and reports them in `rounds`. The callers `UniteIds`, `PostingList.Unite`, `BooleanIndex.SearchOr` and `BooleanSearcher.CombineIds` do not expose this. Their contracts say only what they return, never how long they take. So `SearchOr` over terms none of which is indexed returns an empty list after those idle rounds, unless the compiler removes the empty loop. `AddDoc` never meets the case, because it sorts after a push.
- Frequencies.BubbleSort: the order of equal counts is not stated. The strict `<` of the source swaps only unequal counts, so the sort is stable; the model does not track where each node started, which that statement would need.
- Frequencies.FrequencyCounter.Ranked: requires at least one term. With none, `unique_count - 1` underflows and the pass loop reads past the flat list. The source's own input loop can also overflow its 1024-byte buffer; that is not modelled.
- Frequencies.FrequencyCounter.Add: counters are unbounded. `size_t` overflow is not modelled.
- Tokenizers.Tokenizer.ProcessFile: counters are unbounded. `size_t` overflow is not modelled.
- Stemmers.Processor.ProcessFile: counters are unbounded. `size_t` overflow is not modelled.
- Frequency chains are sequences of node values. Node addresses, `my_strdup` copies and the destructor are not modelled. `Collect` copies node values where the source copies pointers.
- `Vector` is modelled once, as the class over an array. `PostingList`, `HashMap` and `BooleanIndex` hold their contents as sequences and do not embed `Vector` objects.
- The `unsigned int` document ids of `PostingList` are natural numbers. Only `nextDocId` wraps, as in the source.
