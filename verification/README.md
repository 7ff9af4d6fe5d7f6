# Book text analytics, modelled in Dafny

The repository computes a few statistics of the words of a book, written
four times: in Java, Go, Kotlin and Python. The versions share one
pipeline:

- **Tokenizer.** A text is split into tokens: the maximal runs of word
  characters.
- **Stopword filter.** Tokens are lowercased, and those that are common
  English words (the stopword set) are dropped.
- **Frequency ranking.** The remaining words are counted and the `n` most
  frequent are reported.
- **Longest words.** The `n` longest distinct words are reported, grouped
  by their length. Stopwords are not dropped for this query.
- **Longest palindromes.** The `n` longest distinct non-stopword
  palindromes are reported.

The model keeps each version's own behaviour where the versions differ:

- **Word characters.** Java, Go and Kotlin use the ASCII class `\w` (letters,
  digits and `_`). Python uses `[a-zA-Z0-9]`, without the underscore.
  `Tokenizer.CharClass` records the difference. `UnderscoreDialects` shows
  "a_b" is one token in the first three versions and two in Python.
- **Frequency ties.**
  - Java collects the counts in a `HashMap` and sorts its unordered entry
    stream, so tied counts come out in some order, taken as the parameter
    `hashOrder` of `JavaFrequentWords`.
  - Kotlin's `groupingBy … eachCount` and Python's `Counter` keep
    first-appearance order. `sortedByDescending` and `most_common` are
    stable sorts, so ties stay in first-appearance order
    (`FrequentWords`, `FrequentWordsTies`).
- **Longest-word and palindrome ties.** Java and Kotlin deduplicate an
  ordered stream with `distinct`, so ties keep first-appearance order.
  Python deduplicates with a `set`, so its tie order is the set's iteration
  order. `Text.SetToSeq` models that order as an unconstrained enumeration.
- **Go frequency ranking.** Go's `getFrequentWords` counts its argument
  case-sensitively, without lowercasing or filtering. The loop that builds
  `filteredWords` has no effect on the result: its value is never read.
  `Frequency.GoFrequentWords` keeps that loop and states the result purely
  in terms of the raw argument. The result is a map, so Go's map `range`
  order and `sort.Slice` leave no order in it.

Each ranking is specified by one predicate that the Java, Kotlin and
Python versions satisfy. Go has only the frequency query, and its map is
specified by the ensures of `GoFrequentWords` instead:

| predicate | ranking |
|---|---|
| `IsFrequencyRanking` | frequency |
| `IsLongestGrouping` | longest words grouped by length |
| `IsPalindromeRanking` | longest palindromes |

The deterministic Java and Kotlin pipelines are functions. The Go and
Python operations that work by loops and in-place sorting are methods:

- a `for` loop with `append`;
- a counting loop over a map;
- a `range` over a map or a set;
- `sort.Slice` or `list.sort` on an array, modelled by an in-place insertion
  sort;
- an indexed `topN` loop;
- a `defaultdict` filled by appends.

The methods are specified in three ways. `GetWords`, `FilterWords`,
`SortInPlace`, `SortEntries` and `InsertInto` compute exactly the function
that specifies them; `InsertInto` also leaves the prefix before the inserted
element unchanged. `PyLongestWords` and `PyLongestPalindromes` satisfy the
ranking predicate above. `GoFrequentWords`, `CountWords`, `CollectCounts`,
`TopEntries` and `SetToSeq` state their results as explicit lists of
properties: keys, counts, membership, order and what is kept.

Tie order and a non-positive count differ between the versions:

- Java's `distinct` and Kotlin's `distinct` keep the first-appearance order
  of the longest-word and palindrome ties, and the model proves that. Only
  Python's `set` leaves that order open.
- For the frequency ranking, Java's `HashMap` leaves the order of tied counts
  open. Kotlin's and Python's stable sorts keep first-appearance order.
- Go's `getFrequentWords` returns an empty map when `n <= 0`, because the
  loop guard `i < n` never holds. Python's `get_frequent_words` returns an
  empty list when `n <= 0`, because `most_common` goes through
  `heapq.nlargest`.
  Java's `limit` and Kotlin's `take` throw on a negative count. Python's
  `get_longest_words` and `get_longest_palindromes` slice with `[:n]`, which
  counts from the end for a negative `n`. Those queries take `n: nat` here.

## Model

| member | source | states |
|---|---|---|
| Tokenizer.GetWords | java-book/src/main/java/jorgetovar/book/Book.java:33-41 | the `matcher.find()` loop appends exactly the tokens of the text, in order (`Tokens`) |
| Tokenizer.Tokens | go-book/main.go:42-45 | every token is a non-empty string of word characters |
| Tokenizer.TokensSplit | go-book/main.go:42-45 | the text is the tokens interleaved with delimiter stretches; every token is a non-empty run of word characters; each token is bounded by a non-word character or an end of the text |
| Tokenizer.SplitUnique | kotlin-book/src/main/kotlin/jorgetovar/book/Book.kt:27-29 | any split of the text into maximal word runs and delimiters has exactly the tokens `Tokens` returns, so the tokens are the maximal runs and nothing else |
| Tokenizer.TokensEmpty | java-book/src/main/java/jorgetovar/book/Book.java:36-40 | there are no tokens exactly when the text has no word character, the empty text included |
| Tokenizer.UnderscoreDialects | python-book/app/main.py:14-15 | the Python class splits "a_b" into "a" and "b"; the `\w` class of the other versions keeps "a_b" whole |
| Text.Take | kotlin-book/src/main/kotlin/jorgetovar/book/Book.kt:41 | `take(n)` keeps min(n, length) elements, each the element at the same position of the input |
| Text.Lower | java-book/src/main/java/jorgetovar/book/Book.java:45 | lowercasing keeps the length, maps each character by ASCII lowercasing, and leaves no uppercase letter |
| Text.Distinct | java-book/src/main/java/jorgetovar/book/Book.java:59 | `distinct` yields each element of the input once and nothing else |
| Text.DistinctOrder | kotlin-book/src/main/kotlin/jorgetovar/book/Book.kt:46-48 | `distinct` lists the elements in the order of their first appearance |
| Text.SetToSeq | python-book/app/main.py:41 | iterating over a set visits every element exactly once, in no particular order |
| Stopwords.Qualifying | java-book/src/main/java/jorgetovar/book/Book.java:45-46 | every word left after lowercasing and filtering is lowercase and not a stopword, and there are no more of them than tokens |
| Stopwords.QualifyingCount | python-book/app/main.py:35 | after filtering, a word occurs exactly as often as tokens lowercase to it, or not at all if it is a stopword |
| Stopwords.QualifyingMember | kotlin-book/src/main/kotlin/jorgetovar/book/Book.kt:32-34 | a word survives filtering exactly when some token lowercases to it and it is not a stopword |
| Stopwords.FilterWords | go-book/main.go:47-57 | the loop returns the lowercase non-stopword tokens, in input order (`Qualifying`) |
| Sorting.SortDescSorted | java-book/src/main/java/jorgetovar/book/Book.java:80-82 | sorting by the reversed key comparator gives non-increasing keys and a permutation of the input |
| Sorting.SortStable | kotlin-book/src/main/kotlin/jorgetovar/book/Book.kt:50 | `sortedByDescending` is stable: the elements with any one key keep their input order |
| Sorting.WithKeyTake | kotlin-book/src/main/kotlin/jorgetovar/book/Book.kt:51 | `take(n)` keeps, for each key, a prefix of the elements with that key |
| Sorting.TopByKey | java-book/src/main/java/jorgetovar/book/Book.java:75-76 | sorting distinct elements and taking `n` gives min(n, count) distinct input elements with non-increasing keys; no element left out has a larger key than the last one kept |
| Sorting.SortInPlace | python-book/app/main.py:56 | the in-place sort leaves the array holding the stable descending sort of its old contents |
| Sorting.InsertInto | python-book/app/main.py:56 | one insertion step shifts larger elements left and places the element before the first one whose key is not larger; the prefix is untouched |
| Frequency.RankingOfQualifying | java-book/src/main/java/jorgetovar/book/Book.java:44-53 | counting the qualifying words, listing them in any duplicate-free order, sorting by count and taking `n` yields a frequency ranking (`IsFrequencyRanking`): min(n, distinct qualifying words) entries, distinct lowercase non-stopword keys, exact counts, non-increasing counts, no omitted word counted more often than the last entry |
| Frequency.JavaFrequentWords | java-book/src/main/java/jorgetovar/book/Book.java:43-54 | Java's ranking, whatever the `HashMap` order of ties, is a frequency ranking (`IsFrequencyRanking`) |
| Frequency.FrequentWords | kotlin-book/src/main/kotlin/jorgetovar/book/Book.kt:31-43 | the Kotlin ranking, which keeps first-appearance order among ties, is a frequency ranking |
| Frequency.PyFrequentWords | python-book/app/main.py:34-37 | `most_common(n)` is empty for `n <= 0` and a frequency ranking otherwise |
| Frequency.FrequentWordsTies | python-book/app/main.py:36-37 | among entries of equal count, the ranking lists words in the order they first appear |
| Frequency.GoFrequentWords | go-book/main.go:59-89 | empty when `n <= 0`; min(n, distinct words) keys; each value is the case-sensitive count of its key in the raw argument; a word counted more often than a kept word is kept; when `n` covers every distinct word, all of them are kept |
| Frequency.CountWords | go-book/main.go:67-70 | the counting loop builds a map whose keys are the distinct words and whose values are their exact counts |
| Frequency.CollectCounts | go-book/main.go:75-78 | the `range` loop lists every key of the count map once, with its count, in an unspecified order |
| Frequency.SortEntries | go-book/main.go:79-81 | the entries are sorted by count descending (`SortDesc`) |
| Frequency.TopEntries | go-book/main.go:83-86 | the first min(n, entries) sorted entries become the map; every left-out entry has a count no larger than any kept one |
| Frequency.TopOfCounts | go-book/main.go:83-88 | the `topN` map built from the sorted counts meets the counting and top-n promises in terms of the argument |
| Longest.GroupByLength | java-book/src/main/java/jorgetovar/book/Book.java:62 | `groupingBy(String::length)` files each word under its own length, takes words only from its input, and leaves no list empty |
| Longest.GroupFacts | java-book/src/main/java/jorgetovar/book/Book.java:62 | grouping by length puts each word under its own length, leaves no list empty and loses or adds no word |
| Longest.GroupingOfEnumeration | python-book/app/main.py:41-45 | any order of the distinct lowercase words, sorted by length, cut at `n` and grouped, satisfies `IsLongestGrouping`: min(n, distinct words) words in all, each under its length, lowercase and distinct, and none left out longer than one kept |
| Longest.LongestWords | java-book/src/main/java/jorgetovar/book/Book.java:56-63 | the Java and Kotlin grouping satisfies `IsLongestGrouping`; stopwords are included |
| Longest.LongestWordsOrder | kotlin-book/src/main/kotlin/jorgetovar/book/Book.kt:45-53 | within one length, the words keep the order of their first appearance |
| Longest.GroupAppend | python-book/app/main.py:44-45 | appending a word to its length's list (creating it if absent) gives the grouping of the extended slice |
| Longest.PyLongestWords | python-book/app/main.py:40-46 | the set, sort, slice and append loop produce a grouping satisfying `IsLongestGrouping` |
| Palindromes.Reverse | java-book/src/main/java/jorgetovar/book/Book.java:66 | the reversal has the same length, and its i-th character is the i-th from the end |
| Palindromes.ReverseReverse | python-book/app/main.py:50 | reversing twice gives back the word, so `[::-1]` is its own inverse |
| Palindromes.ReverseAppend | kotlin-book/src/main/kotlin/jorgetovar/book/Book.kt:56 | the reversal of a concatenation is the reversed parts in swapped order |
| Palindromes.IsPalindrome | kotlin-book/src/main/kotlin/jorgetovar/book/Book.kt:55-57 | a word is a palindrome exactly when each character equals its mirror; the empty word and single characters are palindromes |
| Palindromes.PalindromesOfMember | java-book/src/main/java/jorgetovar/book/Book.java:74 | the palindrome filter keeps exactly the palindromes of its input |
| Palindromes.RankingOfEnumeration | python-book/app/main.py:54-57 | any order of the candidate palindromes, sorted by length and cut at `n`, satisfies `IsPalindromeRanking`: min(n, candidates) distinct lowercase non-stopword palindromes with non-increasing length, and none left out longer than the last one kept |
| Palindromes.LongestPalindromes | java-book/src/main/java/jorgetovar/book/Book.java:69-78 | the Java and Kotlin palindrome list satisfies `IsPalindromeRanking` |
| Palindromes.DistinctCandidates | java-book/src/main/java/jorgetovar/book/Book.java:71-74 | lowercasing, filtering, `distinct` and the palindrome filter list each candidate once: exactly the lowercase non-stopword palindromes among the tokens |
| Palindromes.LongestPalindromesTies | kotlin-book/src/main/kotlin/jorgetovar/book/Book.kt:59-68 | palindromes of equal length appear in the order of their first appearance |
| Palindromes.PyLongestPalindromes | python-book/app/main.py:53-57 | the set, comprehension, in-place sort and slice produce a list satisfying `IsPalindromeRanking` |
| Scenarios.ApostropheSplits | java-book/src/main/java/jorgetovar/book/Book.java:35 | with the plain apostrophe outside the class, "Hello, World! It's a test." gives Hello, World, It, s, a, test |
| Scenarios.PalindromeValues | python-book/app/main.py:49-50 | "racecar", "" and "a" are palindromes; "hello" is not |
| Scenarios.CatDogExample | python-book/app/main.py:34-37 | the top 1 of cat, dog, cat, cat, dog with no stopwords is ("cat", 3) |
| Scenarios.RacecarExample | kotlin-book/src/main/kotlin/jorgetovar/book/Book.kt:59-68 | with stopword set {"a"}, the 3 longest palindromes of Bob saw a racecar racecar level test are racecar, level, bob |

## Left out

- The HTTP fetch (`getBook`, `get_book`) is network I/O and is not modelled.
- The `main` functions and their printing are not modelled, nor is the call in Go's `main` that passes already-filtered words.
- `Stopwords.CommonWords` is the constant stopword set of the sources. The queries take the stopword set as a parameter `stop`, so they can be instantiated with it or with any other set.
- Tokenizer.CharClass: the characters the pattern literal adds to the word class are a parameter, `extra`. The literal's bytes decode to U+2019 or to three other characters depending on the source file encoding, which the text alone does not settle.
- The regular-expression engine is not modelled. The tokenizer is a scan for maximal runs over a character predicate, which is what `find`, `findAll`, `FindAllString` and `re.findall` return for a one-class `+` pattern.
- Longest.Len: counts characters (code points), as Python's `len` does. Java's `String::length` and Kotlin's `length` count UTF-16 code units, which differ for characters outside the Basic Multilingual Plane. The two counts agree on every token the tokenizer produces: `\w` is ASCII and the extra characters of the pattern lie in the Basic Multilingual Plane. The queries accept any list of strings, though, and for a word with such a character Java and Kotlin would sort and group it under a larger length.
- Text.Lower: does not model locale- or Unicode-aware lowercasing (`toLowerCase`, `lowercase`, `strings.ToLower`, `str.lower`), because only ASCII letters are mapped. Tokens made of ASCII characters are lowercased the same way, outside locales such as Turkish, where Java's default-locale `toLowerCase()` maps 'I' to a dotless 'ı'.
- Frequency.JavaFrequentWords: the `HashMap` iteration order that decides ties is a parameter `hashOrder`, which may be any duplicate-free listing of the qualifying words.
- Frequency.GoFrequentWords: `sort.Slice` is not stable. The model sorts with the stable insertion sort, which is one of the orders `sort.Slice` may produce. The contract says nothing about tie order.
- The iteration order of the result maps (Java's `groupingBy` `HashMap`, Kotlin's `groupBy` `LinkedHashMap`, which keeps insertion order, Python's `dict`, Go's `map`) is not modelled. The results are Dafny maps.
- Negative `takeN` is not modelled for Java's and Kotlin's queries, which throw, or for Python's `get_longest_words` and `get_longest_palindromes`, which slice from the end. Those queries take `n: nat`. Go's `n <= 0` case and Python's `most_common` with `n <= 0` are modelled.
- Integer overflow of the `int` and `Long` counts is not modelled. Counts are unbounded naturals.
