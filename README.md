# Boolean search engine over PDF pages

This is a model of a small full-text search engine. When the engine is built it
reads every PDF file in a directory and lowercases the text of each page. It splits
that text into words at every run of non-alphabetic characters, drops empty words
and stop words, and counts how often each remaining word occurs on the page. The
result is an inverted index: each word maps to a list of `PageEntry(pdfName, page,
count)` postings, one per page on which it occurs. An index with no words is an
error.

A search request is tokenized the same way. Stop words are dropped and repeated
terms are removed. The postings of the terms that the index knows are concatenated
and merged by (file, page), adding the counts. The merged entries are sorted by
`PageEntry.compareTo`: more matches first, then the file name, then the page
number.

The model has six modules:

- `Wrappers` holds `Option` and `Result`.
- `Text` does lowercasing and Java's `split("\\P{IsAlphabetic}+")`.
- `PageEntries` holds the `PageEntry` value, `compareTo`, `String.compareTo` and `Integer.compare`.
- `Index` is the index builder. It is stated as functions (`Frequencies`, `AddPage`, `IndexOf`, `Postings`) and implemented by the imperative methods `CountWords`, `AddPostings`, `IndexPage`, `IndexFile` and `Build`. Together they mirror the constructor's nested loops.
- `Search` is the stream pipeline of `search`: `Terms`, `Collect`, `Group`, `SortEntries`, `Rank` and `SearchRequest`. It merges postings into fresh values.
- `AliasedSearch` is the merge step as written, where `setCount` updates the index's own objects (see "## Findings").

## Model

| member | source | states |
|---|---|---|
| PageEntries.PageEntry.SetCount | src/main/java/PageEntry.java:45-47 | the new entry has the given count; file name, page and hence its (file, page) identity are unchanged |
| PageEntries.PageEntry.CompareTo | src/main/java/PageEntry.java:19-31 | a null argument gives -1; otherwise the result is negative exactly when this entry comes first in the order (larger count, then smaller name lexicographically, then smaller page) |
| PageEntries.IntCompare | src/main/java/PageEntry.java:25 | `Integer.compare`: -1, 0 or 1, negative iff x < y, zero iff x == y |
| PageEntries.StringCompare | src/main/java/PageEntry.java:27 | `String.compareTo` is zero exactly for equal strings |
| PageEntries.StringCompareIsLexicographic | src/main/java/PageEntry.java:27 | `String.compareTo` is negative exactly when the first string is a proper prefix of the second or smaller at the first difference |
| PageEntries.StringCompareAntisymmetric | src/main/java/PageEntry.java:27 | swapping the strings negates `String.compareTo` |
| PageEntries.StringCompareTransitive | src/main/java/PageEntry.java:27 | `String.compareTo` is transitive on "less" |
| PageEntries.Compare | src/main/java/PageEntry.java:19-31 | no contract: `compareTo` on two non-null entries; specified by `PageEntries.CompareMatchesTripleOrder` |
| PageEntries.PageEntry.Key | src/main/java/BooleanSearchEngine.java:103 | no contract: the (file, page) identity the merge groups by; `Search.MergeKeyIdentifiesPage` ties it to the `name + ":" + page` key |
| PageEntries.CompareMatchesTripleOrder | src/main/java/PageEntry.java:19-31 | `compareTo` on non-null entries is negative, zero or positive exactly when the first entry precedes, equals or follows the second in the (count descending, name, page) order |
| PageEntries.CompareAntisymmetric | src/main/java/PageEntry.java:19-31 | swapping the entries negates `compareTo` |
| PageEntries.CompareTransitive | src/main/java/PageEntry.java:19-31 | `compareTo` is transitive, strictly so when either step is strict: it is a total order consistent with equality |
| Text.IsAlpha | src/main/java/BooleanSearchEngine.java:49 | no contract: the characters `\p{IsAlphabetic}` matches, the complement of the separator class `\P{IsAlphabetic}`, as a predicate on one character (see "## Left out") |
| Text.Lower | src/main/java/BooleanSearchEngine.java:49 | no contract: the per-character lowercasing of `toLowerCase`; specified by `Text.LowerStringIdempotent` |
| Text.LowerString | src/main/java/BooleanSearchEngine.java:49 | `toLowerCase` keeps the length and lowercases every character in place |
| Text.Split | src/main/java/BooleanSearchEngine.java:49 | the fields of the split are exactly the maximal alphabetic runs (`Words`), possibly preceded by one empty field; every field is empty or a non-empty run of alphabetic characters |
| Text.Tokenize | src/main/java/BooleanSearchEngine.java:49 | the tokens of lowercase-then-split are exactly the words of the lowercased text, possibly preceded by one empty token; every token is empty or a lowercase alphabetic word |
| Text.Words | src/main/java/BooleanSearchEngine.java:49 | every maximal alphabetic run is a non-empty string of alphabetic characters |
| Text.WordsCharsIn | src/main/java/BooleanSearchEngine.java:49 | every character of a word comes from the split text |
| Text.WordsAtSeparator | src/main/java/BooleanSearchEngine.java:49 | splitting a text at a non-alphabetic character splits its word list at that point |
| Text.WordsOfJoin | src/main/java/BooleanSearchEngine.java:49 | round trip: words joined with separators split back into exactly those words |
| Text.LowerStringIdempotent | src/main/java/BooleanSearchEngine.java:88-90 | lowercasing a lowercased string changes nothing |
| Text.TokenizeIgnoresCase | src/main/java/BooleanSearchEngine.java:88-90 | a text and its lowercase form have the same tokens |
| Index.DocPages | src/main/java/BooleanSearchEngine.java:46-48 | the page loop visits exactly `pagesTotal` pages; their numbering and texts are given by `Index.DocPagesAt` |
| Index.CorpusPages | src/main/java/BooleanSearchEngine.java:40-48 | no contract: the pages of all files, file by file in directory order, each file's pages in page order; specified by `Index.CorpusPagesDistinct` |
| Index.DocPagesAt | src/main/java/BooleanSearchEngine.java:46-48 | the pages of a file are numbered from 1 in order, each with its own text |
| Index.Indexable | src/main/java/BooleanSearchEngine.java:53-56 | no contract: the negation of the skip test, which skips a word when `word.isEmpty()` or `stopList.contains(word)`; used by `Index.FrequenciesCount` and `Index.IndexKeys` |
| Index.Frequencies | src/main/java/BooleanSearchEngine.java:51-59 | no contract: the frequency map of a page's tokens; specified by `Index.FrequenciesCount` and computed by `Index.CountWords` |
| Index.FrequenciesCount | src/main/java/BooleanSearchEngine.java:51-59 | the frequency map's keys are exactly the non-empty, non-stop tokens of the page, and each count is that token's number of occurrences (at least 1) |
| Index.CountWords | src/main/java/BooleanSearchEngine.java:51-59 | the counting loop with `merge(word, 1, Integer::sum)` computes exactly the frequency map |
| Index.AddPostings | src/main/java/BooleanSearchEngine.java:60-67 | the loop over the frequency map, in any iteration order, appends one posting (file, page, count) to the list of each counted word and changes nothing else |
| Index.AddPage | src/main/java/BooleanSearchEngine.java:60-67 | no contract: the index after one page's postings are appended; computed by `Index.AddPostings` |
| Index.IndexOf | src/main/java/BooleanSearchEngine.java:46-67 | no contract: the index of a sequence of pages; computed by `Index.IndexFile` and `Index.Build`, specified by `Index.IndexMatchesPostings` and `Index.IndexKeys` |
| Index.IndexPage | src/main/java/BooleanSearchEngine.java:47-67 | the body of the page loop turns the index of the pages so far into the index of those pages plus this one |
| Index.IndexFile | src/main/java/BooleanSearchEngine.java:46-68 | the page loop over one file adds all its pages, numbered from 1, to the index |
| Index.Build | src/main/java/BooleanSearchEngine.java:34-73 | the constructor fails with the empty-index error exactly when the index of all pages is empty, and otherwise yields that index with the stop list |
| Index.IndexMatchesPostings | src/main/java/BooleanSearchEngine.java:46-67 | the list of a word in the built index is the reference list of its postings in page order, and a word is a key iff that list is non-empty |
| Index.PostingsAreOccurrences | src/main/java/BooleanSearchEngine.java:51-66 | every posting of a word names a page on which the word occurs, and its count is that word's number of occurrences there |
| Index.PostingsComplete | src/main/java/BooleanSearchEngine.java:51-66 | every page on which an indexable word occurs has a posting for that word |
| Index.PostingsUnique | src/main/java/BooleanSearchEngine.java:60-67 | when pages are distinct, a word's postings name each page at most once |
| Index.CorpusPagesDistinct | src/main/java/BooleanSearchEngine.java:40-48 | when file names are distinct, the (file, page) pairs of the corpus are distinct, and every page is numbered from 1 and belongs to one of the files |
| Index.BuiltPostingsUnique | src/main/java/BooleanSearchEngine.java:40-67 | in the index built from a directory, each word's list names each (file, page) at most once |
| Index.IndexKeys | src/main/java/BooleanSearchEngine.java:49-57 | a word is a key iff it is indexable and occurs on some page; every key is a non-empty lowercase alphabetic word that is not a stop word |
| Index.IndexEmptyIff | src/main/java/BooleanSearchEngine.java:71-72 | the index is empty iff no page has an indexable token |
| Search.Filter | src/main/java/BooleanSearchEngine.java:91 | the filter keeps exactly the elements satisfying the predicate |
| Search.Distinct | src/main/java/BooleanSearchEngine.java:92 | `distinct()` keeps the same elements, each once |
| Search.Terms | src/main/java/BooleanSearchEngine.java:88-93 | the query terms are exactly the request's tokens that are not stop words, each once |
| Search.FilterDistinct | src/main/java/BooleanSearchEngine.java:91-92 | filtering then removing duplicates equals removing duplicates then filtering |
| Index.Get | src/main/java/BooleanSearchEngine.java:96-97 | no contract: `wordsMap::get` followed by `filter(Objects::nonNull)`, an absent word giving no postings; used by `Search.Collect` |
| Search.Collect | src/main/java/BooleanSearchEngine.java:95-99 | no contract: the postings of the known terms, concatenated; specified by `Search.CollectSpec` |
| Search.CollectSpec | src/main/java/BooleanSearchEngine.java:95-99 | for every page, the concatenated postings sum, over the terms, the term's count for that page; a page appears iff some term has a posting for it |
| Search.CollectKnown | src/main/java/BooleanSearchEngine.java:96-97 | terms that are not in the index contribute nothing to the concatenated postings |
| Search.Accumulate | src/main/java/BooleanSearchEngine.java:101-109 | no contract: one merge step of `toMap`; specified by `Search.AccumulateSpec` |
| Search.Group | src/main/java/BooleanSearchEngine.java:101-109 | no contract: the values of the `toMap` result; specified by `Search.GroupSpec` |
| Search.AccumulateSpec | src/main/java/BooleanSearchEngine.java:105-107 | merging one entry adds its count to the entry already held for its page, or appends it if there is none; every other entry is unchanged |
| Search.GroupSpec | src/main/java/BooleanSearchEngine.java:101-109 | the merge holds one entry per page of its input, with the sum of that page's counts |
| Search.IntToString | src/main/java/BooleanSearchEngine.java:103 | `Integer.toString` of the page in the merge key: never contains ':', is non-empty, and starts with '-' exactly for negative numbers; `Search.IntToStringInjective` proves it injective |
| Search.NatToStringInjective | src/main/java/BooleanSearchEngine.java:103 | distinct page numbers print differently |
| Search.IntToStringInjective | src/main/java/BooleanSearchEngine.java:103 | distinct integers print differently |
| Search.MergeKey | src/main/java/BooleanSearchEngine.java:103 | no contract: the key `name + ":" + page`; specified by `Search.MergeKeyIdentifiesPage` |
| Search.MergeKeyIdentifiesPage | src/main/java/BooleanSearchEngine.java:103 | two entries have the same `name + ":" + page` merge key iff they have the same file and page |
| Search.Insert | src/main/java/BooleanSearchEngine.java:111 | inserting adds exactly one element to the multiset |
| Search.SortEntries | src/main/java/BooleanSearchEngine.java:111 | the sort is a permutation of its input |
| Search.SortEntriesSorted | src/main/java/BooleanSearchEngine.java:111 | the sort's output is ordered by `compareTo` |
| Search.SortedPermutationUnique | src/main/java/BooleanSearchEngine.java:111 | two ordered permutations of the same entries are equal, so the answer does not depend on the map's iteration order |
| Search.Rank | src/main/java/BooleanSearchEngine.java:95-111 | no contract: collect, merge and sort for a list of terms; specified by `Search.SearchResult` and `Search.RankExample` |
| Search.SearchRequest | src/main/java/BooleanSearchEngine.java:86-112 | no contract: `search`; specified by `Search.SearchResult` and the lemmas below it |
| Search.SearchResult | src/main/java/BooleanSearchEngine.java:86-112 | the answer names each page at most once; a page is present iff some query term has a posting for it; each count is the sum over the distinct terms of their posting counts; the answer is a permutation of the merged entries in strictly increasing `compareTo` order |
| Search.SearchIgnoresCase | src/main/java/BooleanSearchEngine.java:88-90 | a request and its lowercase form get the same answer |
| Search.SearchEmptyIff | src/main/java/BooleanSearchEngine.java:95-111 | the answer is empty iff no query term has a posting |
| Search.QueryExtension | src/main/java/BooleanSearchEngine.java:88-97 | appending words that are stop words, unknown to the index or already in the request does not change the answer |
| Search.RepeatedTermsIgnored | src/main/java/BooleanSearchEngine.java:92 | a request repeated twice gets the same answer as the request |
| Search.PostingsSumFor | src/main/java/BooleanSearchEngine.java:51-66 | a word's postings give each page of the corpus the word's number of occurrences on it, if it is indexable |
| Search.TermsSumOfIndex | src/main/java/BooleanSearchEngine.java:51-109 | summed over the query terms, the index's counts for a page equal the occurrences of those terms on the page |
| Search.SearchCountsOccurrences | src/main/java/BooleanSearchEngine.java:86-112 | over an index built from files with distinct names, every hit names a page of the corpus, and its count is the total number of occurrences of the query terms on that page (at least 1) |
| Search.RankExample | src/main/java/BooleanSearchEngine.java:95-111 | with cat twice on a.pdf:1, and dog once on a.pdf:1 and once on b.pdf:1, the terms cat and dog answer a.pdf:1 with 3, then b.pdf:1 with 1 |
| AliasedSearch.FindRep | src/main/java/BooleanSearchEngine.java:101-109 | finds the object already held by the map for a page, or reports that there is none |
| AliasedSearch.Step | src/main/java/BooleanSearchEngine.java:101-109 | one in-place merge step keeps the heap's size, and every map value is an object streamed so far; specified by `AliasedSearch.StepSpec` |
| AliasedSearch.Merge | src/main/java/BooleanSearchEngine.java:101-109 | the in-place merge keeps the heap's size, and every map value is an object of the heap; specified by `AliasedSearch.MergeComputesGroup` |
| AliasedSearch.Values | src/main/java/BooleanSearchEngine.java:111 | `pageEntryMap.values()`: one value per map entry, each the heap object the entry refers to |
| AliasedSearch.WriteBack | src/main/java/BooleanSearchEngine.java:101-109 | no contract: the index seen through the merged heap, as the shared objects make it; used by `AliasedSearch.AliasingCorruptsIndex` |
| AliasedSearch.AliasedRank | src/main/java/BooleanSearchEngine.java:86-112 | no contract: `search` as written, returning the answer and the index it leaves; specified by `AliasedSearch.FirstAnswerCorrect` and `AliasedSearch.AliasingCorruptsIndex` |
| AliasedSearch.StepSpec | src/main/java/BooleanSearchEngine.java:101-109 | one in-place merge step shows, through the map's values, the same effect as the fresh merge, and leaves the objects not yet streamed untouched |
| AliasedSearch.MergeComputesGroup | src/main/java/BooleanSearchEngine.java:101-109 | the whole in-place merge yields, as map values, the fresh merge of the stream |
| AliasedSearch.FirstAnswerCorrect | src/main/java/BooleanSearchEngine.java:101-111 | on an unchanged index, the answer of the code as written equals the fresh-merge answer |
| AliasedSearch.WordsOfThree | src/main/java/BooleanSearchEngine.java:49 | three words joined by spaces split into exactly those three words |
| AliasedSearch.ExampleIndex | src/main/java/BooleanSearchEngine.java:46-67 | the index built from the single page "cat dog cat" of a.pdf maps cat to a.pdf:1 with 2 and dog to a.pdf:1 with 1 |
| AliasedSearch.AliasingCorruptsIndex | src/main/java/BooleanSearchEngine.java:105-107 | on the index that `AliasedSearch.ExampleIndex` builds, the query "cat dog" answers a.pdf:1 with 3 but leaves 3 in the index's entry for cat, so a following query "cat" answers 3 where the original index gives 2 |

## Left out

- Reading PDF files (iText) and walking the directory (BooleanSearchEngine.java:35, 41-48) are not modelled. The corpus is a parameter: a sequence of files, each with a name and its page texts in order.
- Reading `stop-ru.txt` (line 36) is not modelled. The stop list is a parameter. An I/O failure of either read is not modelled; only the empty-index error is.
- Directory entries have distinct file names. The lemmas about the built index assume it (`Index.CorpusPagesDistinct`, `Index.BuiltPostingsUnique`, `Search.SearchCountsOccurrences`).
- `\P{IsAlphabetic}` and `toLowerCase` are modelled per character. Letters are ASCII Latin and the Russian alphabet, Ё/ё included. Other Unicode letters, locale-dependent lowercasing and lowercasing that changes a string's length are not modelled. Strings are sequences of Unicode scalar values, not of UTF-16 code units, so `String.compareTo` (PageEntry.java:27) on file names that contain supplementary characters is not modelled: Java compares their surrogates, which sort before U+E000–U+FFFF.
- HashMap iteration order is not modelled. `Index.AddPostings` takes the words of a page in an arbitrary order, and the result does not depend on it. The values of the `toMap` result are sorted by a total order, so their order is unobservable (`Search.SortedPermutationUnique`).
- Counts and page numbers are unbounded integers. The 32-bit overflow of `Integer::sum` (line 58) and of the summed counts (line 106) is not modelled.
- The built index is a value (`Index.Engine`). `Index.Build` returns it instead of filling the engine's `HashMap` fields in place; the fields are assigned once, in the constructor.
- `PageEntry` is a value. Object identity matters only for the in-place merge of `search`, which `AliasedSearch` models. The main model (`Search`) merges into fresh entries, so every `count` stays the number of occurrences of its word on its page, as the documentation of the field says (PageEntry.java:5).
- A null request is not modelled. `search` calls `request.toLowerCase()` (line 89), which throws `NullPointerException` when `readLine()` has reached the end of the stream (Server.java:30-31, Main.java:20-21); the model's request is always a string.
- AliasedSearch.AliasedRank: requires distinct terms. `search` always passes distinct terms through `distinct()` (line 92); the requirement ensures that each index object is streamed at most once.
- `toString`, the getters and the `SearchEngine` interface are not modelled. `Main.java` and `Server.java`, a socket loop that reads one request line and writes one JSON line, are not part of this model.

## Findings

| source | as written | input that shows it | evidently intended | confidence | as-written member | corrected member |
|---|---|---|---|---|---|---|
| src/main/java/BooleanSearchEngine.java:105-107 | the merge function calls `setCount` on the first entry for a page and returns it; that entry is the object stored in the index, so the index's count is overwritten with the sum | an index with cat on a.pdf page 1 twice and dog on it once; the query "cat dog" answers 3, after which the query "cat" also answers 3 instead of 2 | sum the counts into a fresh entry and leave the index unchanged, so every query answers from the text of the pages | not executed; high | AliasedSearch.AliasingCorruptsIndex | Search.Rank |
