# Tag cloud core, modelled in Dafny

`TagCloud.java` reads a text file and counts how often each word occurs. It keeps the n
most frequent words, gives each a font size between `fontMin` and `fontMax` by linear
interpolation on its count, and writes the words in alphabetical order as an HTML tag cloud.
This project models the logic between reading the lines and writing the HTML:

- `JavaLang` — the library behaviour the program depends on, restricted to ASCII:
  `String.toLowerCase`, `String.compareTo`, `Integer.compareTo` and truncating `int`
  division.
- `Tokenizer` — `generateElements` and `nextWordOrSeparator`. A line is a sequence of
  maximal runs: words (no separator characters) alternating with separator strings.
- `Counter` — the counting loop of `getWords`. Every token is lower-cased and separator
  strings are skipped. The position advances by the length of the lower-cased token, and
  each word bumps its entry in the word map.
- `Entries` — map entries `(key, value)` and what it means for a list to enumerate a map.
- `Comparators` — `CountComparator` (as written, and corrected; see Findings) and
  `AlphabetComparator`.
- `Sorting` — `Collections.sort` as a stable insertion sort, and `sortWordsCount` (as
  written, and corrected; see Findings).
- `Scaling` — `scaleSize`.
- `Selection` — `sortWordsAlphabet`. It removes the last n entries of the count-sorted
  list, records `countMax` and `countMin`, sorts the selection alphabetically and fills the
  font-size map.
- `Pipeline` — the path `main` takes from the lines of the document to the cloud it hands
  to `outputTagCloud`.

Java's mutable collections become values. A method that updates a map or list returns the
new value, and the caller's object becomes an input/output pair.

Where the documentation and the code disagree, the model follows the code:

- `scaleSize` answers 1 when `countMin == countMax`. That is not a value in
  `[fontMin, fontMax]`.
- `generateElements` adds to the set it is given instead of replacing it. Its one caller
  passes an empty set, so the documented `strSet = entries(str)` holds there.
- `sortWordsCount` is documented as clearing `wordMap` but leaves it alone.
- `main`'s prompt offers the range `[1, maxNumber]` but rejects every number `<= 1`.

## Model

| member | source | states |
|---|---|---|
| JavaLang.ToLower | TagCloud.java:192 | lower-casing keeps the length of the string |
| JavaLang.ToLowerPointwise | TagCloud.java:192 | lower-casing lowers each character on its own and leaves no upper-case letter |
| JavaLang.ToLowerAppend | TagCloud.java:192 | lower-casing a concatenation is the concatenation of the lower-cased parts, so a line may be lowered token by token |
| JavaLang.LowerCaseIsFixed | TagCloud.java:192 | a string without upper-case letters is its own lower-case form |
| JavaLang.CompareStringsZero | TagCloud.java:63 | `String.compareTo` returns zero exactly on equal strings |
| JavaLang.CompareStringsAntisymmetric | TagCloud.java:63 | swapping the operands of `String.compareTo` negates the result |
| JavaLang.CompareStringsTransitive | TagCloud.java:63 | "`compareTo(a, b) <= 0`" is transitive |
| JavaLang.CompareInts | TagCloud.java:43 | `Integer.compareTo` is negative, zero or positive exactly when the first count is smaller, equal or larger |
| JavaLang.JavaDiv | TagCloud.java:266-267 | on a non-negative dividend and a positive divisor, Java's division agrees with Euclidean division |
| JavaLang.JavaDivOdd | TagCloud.java:266-267 | negating either operand negates the quotient (truncation toward zero); with JavaDiv's contract this fixes the quotient on all operands |
| Tokenizer.SeparatorsHaveNoLetters | TagCloud.java:178 | the separator literal holds no ASCII letter |
| Tokenizer.GenerateElements | TagCloud.java:82-93 | the result is the given set plus every character of `str`, and nothing else |
| Tokenizer.RunEnd | TagCloud.java:137-148 | the scan stops at the first character of the other class (separator or not) or at the end of the text, and every character before it is of the starting class |
| Tokenizer.NextToken | TagCloud.java:127-151 | the token is non-empty and fits in the text from `position` on |
| Tokenizer.NextTokenIsMaximalRun | TagCloud.java:110-151 | the token is the text from `position` on, lies wholly in one class, and is followed by the end of the text or a character of the other class |
| Tokenizer.RunEndIsFirstChange | TagCloud.java:137-148 | the first position where the class changes (or the end of the text) is the only place the scan can stop |
| Tokenizer.CharsOfDisjoint | TagCloud.java:111-125 | a string shares no character with the separators exactly when all its characters are non-separators |
| Tokenizer.IsNextTokenByPosition | TagCloud.java:111-125 | the documented postcondition (`entries` and set intersections) is equivalent to "maximal run of one class starting at position" |
| Tokenizer.NextTokenUnique | TagCloud.java:111-125 | exactly one string meets the documented postcondition, and it is `NextToken` |
| Tokenizer.NextWordOrSeparator | TagCloud.java:127-151 | both copy loops return exactly the maximal run at `position` |
| Tokenizer.TokenizeConcat | TagCloud.java:187-204 | the tokens the loop visits, concatenated, are the rest of the line: no gaps, no overlaps |
| Tokenizer.TokenizeShape | TagCloud.java:187-204 | every visited token is non-empty and of one class, and consecutive tokens alternate between words and separator strings |
| Counter.WordsFilter | TagCloud.java:194 | a string is kept exactly when it is a visited token starting with a non-separator, and no more tokens are kept than were visited |
| Counter.LowerKeepsClass | TagCloud.java:192-194 | with a letter-free separator set, lower-casing does not change whether the first character is a separator |
| Counter.LineTokensConcat | TagCloud.java:187-204 | advancing by the lower-cased token's length visits the lower-cased line exactly |
| Counter.LineTokensLowerTokenize | TagCloud.java:187-204 | the lower-cased tokens are those of the original line, each lowered |
| Counter.LineWordsAreClean | TagCloud.java:192-194 | every word a line contributes is non-empty, lower-case and free of separators |
| Counter.DocumentWordsAreClean | TagCloud.java:186-207 | the same holds for every word of the document |
| Counter.IncrementSum | TagCloud.java:196-201 | one map update raises the total of all counts by exactly one |
| Counter.TallyKeys | TagCloud.java:194-201 | after the updates the keys are the old keys plus the fed words |
| Counter.TallyCount | TagCloud.java:194-201 | each word's count grows by its number of occurrences among the fed words |
| Counter.TallySum | TagCloud.java:194-201 | the total of all counts grows by the number of fed words |
| Counter.TallyAppend | TagCloud.java:186-207 | counting two word lists in turn is counting their concatenation, so line-by-line counting equals whole-document counting |
| Counter.CountFromEmpty | TagCloud.java:174-201 | from an empty map: keys are exactly the words, each count is the word's number of occurrences (positive), and the counts sum to the number of words |
| Counter.CountLineStep | TagCloud.java:188-203 | one turn of the inner loop keeps "counting the rest of the line from here gives the final map" |
| Counter.CountLine | TagCloud.java:187-204 | the inner loop adds exactly the words of one line to the map |
| Counter.GetWords | TagCloud.java:171-212 | the map's keys are exactly the document's words, each value is that word's number of occurrences, every key is a clean lower-case word, and the counts sum to the number of word tokens |
| Entries.EntrySetSize | TagCloud.java:230-235 | a map has as many entries as keys |
| Entries.EntrySetStep | TagCloud.java:230-235 | listing one more key adds exactly that key's entry to the listed entries |
| Entries.ListingFacts | TagCloud.java:230-235 | a list with the entry set's multiset lists every entry of the map exactly once, and its keys are exactly the map's keys |
| Entries.SubListingFacts | TagCloud.java:311-320 | a sub-multiset of the entry set holds entries of the map with pairwise distinct keys |
| Comparators.CountCompareIgnoresKeys | TagCloud.java:43-46 | the tie-break as written compares `o1` with itself, so `CountComparator` is exactly `Integer.compareTo` on the counts |
| Comparators.CountCompareIsTotalPreorder | TagCloud.java:37-50 | `CountComparator` as written orders any two entries and is transitive |
| Comparators.CountCompareByKeyZero | TagCloud.java:43-46 | the corrected comparator returns zero exactly when counts and lower-cased keys agree |
| Comparators.CountCompareByKeyRefines | TagCloud.java:43-46 | whatever the corrected comparator puts first, the comparator as written does not put second |
| Comparators.CountCompareByKeyTransitive | TagCloud.java:43-46 | the corrected comparator is transitive |
| Comparators.CountCompareByKeyIsTotalPreorder | TagCloud.java:43-46 | the corrected comparator is a valid sort order |
| Comparators.AlphabetCompareZero | TagCloud.java:61-66 | `AlphabetComparator` returns zero exactly when lower-cased keys and counts agree |
| Comparators.AlphabetCompareAntisymmetric | TagCloud.java:61-66 | swapping the entries reverses the sign |
| Comparators.AlphabetCompareTransitive | TagCloud.java:61-66 | `AlphabetComparator` is transitive |
| Comparators.AlphabetCompareIsTotalPreorder | TagCloud.java:55-69 | `AlphabetComparator` is a valid sort order |
| Sorting.InsertPermutes | TagCloud.java:237 | one insertion step adds exactly the inserted element |
| Sorting.InsertSorted | TagCloud.java:237 | with a valid comparator, inserting into a sorted list keeps it sorted |
| Sorting.SortWithPermutes | TagCloud.java:237 | `Collections.sort` returns a permutation of its input |
| Sorting.SortWithSorted | TagCloud.java:237 | with a valid comparator, `Collections.sort` returns a list sorted by it |
| Sorting.InsertByCountStable | TagCloud.java:237 | inserting by `CountComparator` puts the new entry first among the entries of its count and leaves the order of every count's entries otherwise unchanged |
| Sorting.SortByCountStable | TagCloud.java:237 | `Collections.sort` with `CountComparator` keeps the entries of each count in their input order |
| Sorting.ListEntries | TagCloud.java:229-235 | the list built from `entrySet()` holds every entry of the map exactly once, in some order |
| Sorting.SortWordsCount | TagCloud.java:225-240 | the result is a permutation of the map's entries sorted by `CountComparator` as written: counts non-decreasing, and the entries of each count in the order the `entrySet()` listing gave them |
| Sorting.SortWordsCountByKey | TagCloud.java:43-46 | the corrected sort: a permutation of the map's entries with counts non-decreasing and equal counts in lower-cased key order |
| Sorting.TieOrderExample | TagCloud.java:43-46 | for the listing `("zebra", 3)`, `("apple", 3)` the comparator as written keeps zebra first, and the corrected one puts apple first |
| Scaling.ScaleSize | TagCloud.java:259-270 | equal extremes give 1; otherwise `countMin` maps to `fontMin`, `countMax` to `fontMax`, and counts in between land in `[fontMin, fontMax]` |
| Scaling.ScaleSizeMonotone | TagCloud.java:266-267 | with a proper count range and `fontMin <= fontMax`, a larger count never gets a smaller size |
| Selection.TopOfAscending | TagCloud.java:311-320 | the last n entries of a count-ascending list are the n largest: nothing before them beats them |
| Selection.TakeLast | TagCloud.java:309-320 | the loop removes the last n entries, and the rest of the list is left in place; `countMax` is the last entry's count and `countMin` the n-th from last (0 when n is 1) |
| Selection.ReversedSuffix | TagCloud.java:311-320 | popping the last entries one by one yields, as a multiset, exactly the suffix removed |
| Selection.FillFontSizes | TagCloud.java:324-330 | the map's keys are exactly the selected keys, and each holds the size of the last entry with that key, and of some entry with that key |
| Selection.SelectionIsTop | TagCloud.java:311-320 | every removed entry's count is at least every remaining entry's count, and lies between `countMin` and `countMax` |
| Selection.SizesInRange | TagCloud.java:324-330 | with `countMin < countMax` and `fontMin <= fontMax` every size lies in `[fontMin, fontMax]` |
| Selection.SingleSelection | TagCloud.java:309-330 | for n = 1 with a positive count, the only word gets `fontMax` |
| Selection.SortWordsAlphabet | TagCloud.java:299-333 | the result is the last n entries, sorted alphabetically, and the top n when the input ascends by count; every font size is the scaled size; sizes lie in range, are 1 when all counts are equal, and are `fontMax` for a single word |
| Pipeline.SelectedAreEntries | TagCloud.java:501-503 | the selection has n entries, each an entry of the word map, with no key twice |
| Pipeline.SuffixIsSelected | TagCloud.java:311-320 | every key among the last n entries ends up in the selection |
| Pipeline.UnselectedAreNoMoreFrequent | TagCloud.java:501-503 | a word left out of the cloud occurs no more often than any word in it |
| Pipeline.SizesScaleBetweenExtremes | TagCloud.java:309-330 | `countMin` and `countMax` are the least and greatest selected counts, so each size interpolates between them |
| Pipeline.CloudOfMap | TagCloud.java:501-503 | from a word map counting the document, a count-ascending listing of it, and the selection taken from its end, the result is a valid cloud of the document |
| Pipeline.StrictlyAlphabetical | TagCloud.java:61-66 | a list sorted by `AlphabetComparator` with distinct lower-case keys is in strictly increasing order of the keys themselves |
| Pipeline.CloudIsStrictlyAlphabetical | TagCloud.java:299-333 | the words of a cloud of a document are in strictly increasing alphabetical order |
| Pipeline.TagCloud | TagCloud.java:463-503 | n outside `[2, distinct words]` is rejected. Otherwise the cloud holds n distinct document words, in alphabetical order, each with its number of occurrences; no omitted word occurs more often; each size is `scaleSize` between the least and greatest selected counts; the words are in strictly increasing order |

## Left out

- Reading the file and the console, opening and closing streams, and the `IOException`
  branches of `getWords` and `main` are not modelled. The document is given as its
  sequence of lines.
- `outputTagCloud` and the HTML it writes are left out: templating with no decisions.
- `main` is modelled only as its n check and the calls that follow it. When n is rejected,
  `main` re-prompts without re-parsing the new input (TagCloud.java:484-493). That loop
  never ends; the model answers `None` instead.
- `Integer.parseInt` and its `NumberFormatException` are left out: they are console
  input.
- `String.toLowerCase` and `String.compareTo` are modelled on ASCII only: only `A`-`Z`
  are lowered. Locale-specific and non-ASCII case mappings, and UTF-16 surrogate pairs,
  are left out.
- The iteration order of `HashMap.entrySet()` is left out: `Sorting.ListEntries` lists the
  keys in an unspecified order. That order decides which words the cloud shows when several
  words tie at the cut-off count, because `sortWordsCount` keeps equal counts in listing
  order (`Sorting.SortWordsCount`). The contracts hold for every listing order, but the
  model does not predict which one Java's `HashMap` produces.
- Scaling.ScaleSize: does not model 32-bit `int` overflow of
  `(fontMax - fontMin) * (count - countMin)`. For counts and font sizes that overflow,
  Java's result wraps and the model's does not.
- Counter.GetWords: counts are unbounded integers. A word occurring more than 2^31 - 1
  times would wrap in Java.
- Tokenizer.NextWordOrSeparator: the contract is stated as `word == NextToken(...)`.
  The documented `entries`/intersection form is connected to it by
  `Tokenizer.NextTokenUnique`, not restated on the method.
- Selection.FillFontSizes: takes the size function as a parameter instead of calling
  `scaleSize` itself. `Selection.SortWordsAlphabet` passes `scaleSize` with the selection's
  `countMin` and `countMax`, which is what TagCloud.java:327-328 computes.
- JavaLang.JavaDiv: its contract covers only non-negative dividends with positive
  divisors. Other signs follow from `JavaLang.JavaDivOdd`. `Integer.MIN_VALUE / -1` is
  not modelled.

## Findings

| source | as written | input that shows it | evidently intended | confidence | as-written member | corrected member |
|---|---|---|---|---|---|---|
| TagCloud.java:45-46 | on equal counts `CountComparator` compares `o1`'s lower-cased key with `o1`'s own, which is always 0 | `("apple", 3)` against `("zebra", 3)` compares equal, so sorting the listing `("zebra", 3)`, `("apple", 3)` keeps zebra first (`Sorting.TieOrderExample`) | compare `o1`'s lower-cased key with `o2`'s, so equal counts are ordered alphabetically | high; not executed | Comparators.CountCompareIgnoresKeys | Sorting.SortWordsCountByKey |

`Sorting.SortWordsCount` and the pipeline follow the program as written, with ties in
listing order. `Sorting.SortWordsCountByKey` sorts with the corrected comparator
(`Comparators.CountCompareByKeyZero`: zero only on equal counts and equal lower-cased keys).
Its result also ascends by count. `Pipeline.CloudOfMap` needs nothing more of the count-sorted
list, so the cloud contract would hold with the corrected sort too. Which words are shown
when several tie at the cut-off count would then no longer depend on the `HashMap`.
