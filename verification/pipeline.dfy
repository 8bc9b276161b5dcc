/** The path main of TagCloud.java takes from the document's lines to the cloud it hands
    to outputTagCloud: getWords, the check of the requested number of words, sortWordsCount
    and sortWordsAlphabet. */
module Pipeline {
  import opened JavaLang
  import opened Tokenizer
  import opened Counter
  import opened Entries
  import opened Comparators
  import opened Sorting
  import opened Scaling
  import opened Selection

  datatype Option<T> = None | Some(value: T)

  /** What outputTagCloud receives: the selected entries in alphabetical order and the
      font size of each selected word. */
  datatype Cloud = Cloud(words: seq<Entry>, fontSize: map<string, int>)

  /** The distinct words of the document: the size of this set is main's maxNumber. */
  function Vocabulary(lines: seq<string>): set<string>
  {
    set w | w in DocumentWords(lines, Separators)
  }

  /** v is the smallest count in s. */
  predicate IsLeastCount(s: seq<Entry>, v: int)
  {
    (exists i :: 0 <= i < |s| && s[i].value == v) && forall i :: 0 <= i < |s| ==> v <= s[i].value
  }

  /** v is the largest count in s. */
  predicate IsGreatestCount(s: seq<Entry>, v: int)
  {
    (exists i :: 0 <= i < |s| && s[i].value == v) && forall i :: 0 <= i < |s| ==> s[i].value <= v
  }

  /** c is a tag cloud of n words for a document whose word tokens are words: n distinct
      words of the document in alphabetical order, each with its number of occurrences;
      no word left out occurs more often than a word in the cloud; and each size is
      scaleSize between the least and the greatest count in the cloud. */
  ghost predicate IsCloudOf(words: seq<string>, n: int, fontMax: int, fontMin: int, c: Cloud)
  {
    && |c.words| == n
    && SortedBy(c.words, AlphabetCompare)
    && DistinctKeys(c.words)
    && (forall i :: 0 <= i < |c.words| ==> c.words[i].key in words && c.words[i].value == multiset(words)[c.words[i].key])
    && (forall w, j :: w in words && w !in c.fontSize && 0 <= j < |c.words| ==> multiset(words)[w] <= c.words[j].value)
    && c.fontSize.Keys == KeysOf(c.words)
    && (forall i, lo, hi ::
          0 <= i < |c.words| && IsLeastCount(c.words, lo) && IsGreatestCount(c.words, hi) ==>
          c.fontSize[c.words[i].key] == ScaleSize(fontMax, fontMin, c.words[i].value, lo, hi))
  }

  lemma SuffixSubMultiset(s: seq<Entry>, k: nat)
    requires k <= |s|
    ensures multiset(s[k..]) <= multiset(s)
  {
    assert s == s[..k] + s[k..];
  }

  /** The selected entries are entries of the word map: each once, with its count. */
  lemma SelectedAreEntries(wordMap: map<string, int>, stCount: seq<Entry>, n: nat, stAlphabet: seq<Entry>)
    requires n <= |stCount|
    requires multiset(stCount) == multiset(EntrySet(wordMap))
    requires multiset(stAlphabet) == multiset(stCount[|stCount| - n..])
    ensures |stAlphabet| == n
    ensures forall i :: 0 <= i < |stAlphabet| ==>
              stAlphabet[i].key in wordMap && stAlphabet[i].value == wordMap[stAlphabet[i].key]
    ensures DistinctKeys(stAlphabet)
  {
    assert |stAlphabet| == |multiset(stAlphabet)| == |stCount[|stCount| - n..]|;
    SuffixSubMultiset(stCount, |stCount| - n);
    SubListingFacts(stAlphabet, wordMap);
  }

  /** Every key in the last n entries of stCount is a key of the selection. */
  lemma SuffixIsSelected(stCount: seq<Entry>, n: nat, stAlphabet: seq<Entry>)
    requires n <= |stCount|
    requires multiset(stAlphabet) == multiset(stCount[|stCount| - n..])
    ensures forall a :: |stCount| - n <= a < |stCount| ==> stCount[a].key in KeysOf(stAlphabet)
  {
    forall a | |stCount| - n <= a < |stCount|
      ensures stCount[a].key in KeysOf(stAlphabet)
    {
      assert stCount[|stCount| - n..][a - (|stCount| - n)] == stCount[a];
      assert stCount[a] in multiset(stAlphabet);
      var b :| 0 <= b < |stAlphabet| && stAlphabet[b] == stCount[a];
    }
  }

  /** A word of the map that was not selected occurs no more often than any selected one. */
  lemma UnselectedAreNoMoreFrequent(wordMap: map<string, int>, stCount: seq<Entry>, n: nat,
                                     stAlphabet: seq<Entry>, remaining: seq<Entry>)
    requires n <= |stCount|
    requires forall k :: k in wordMap ==> Entry(k, wordMap[k]) in stCount
    requires remaining == stCount[..|stCount| - n]
    requires multiset(stAlphabet) == multiset(stCount[|stCount| - n..])
    requires forall i, j :: 0 <= i < |remaining| && 0 <= j < |stAlphabet| ==>
               remaining[i].value <= stAlphabet[j].value
    ensures forall w, j :: w in wordMap && w !in KeysOf(stAlphabet) && 0 <= j < |stAlphabet| ==>
              wordMap[w] <= stAlphabet[j].value
  {
    forall w, j | w in wordMap && w !in KeysOf(stAlphabet) && 0 <= j < |stAlphabet|
      ensures wordMap[w] <= stAlphabet[j].value
    {
      var e := Entry(w, wordMap[w]);
      var a :| 0 <= a < |stCount| && stCount[a] == e;
      SuffixIsSelected(stCount, n, stAlphabet);
      assert a < |stCount| - n;
      assert remaining[a] == e;
    }
  }

  /** A count that s attains and that bounds s from below is its only least count. */
  lemma LeastCountIs(s: seq<Entry>, v: int, a: nat)
    requires a < |s| && s[a].value == v
    requires forall j :: 0 <= j < |s| ==> v <= s[j].value
    ensures forall lo :: IsLeastCount(s, lo) <==> lo == v
  {
    forall lo | IsLeastCount(s, lo) ensures lo == v {
      assert lo <= s[a].value;
    }
  }

  /** A count that s attains and that bounds s from above is its only greatest count. */
  lemma GreatestCountIs(s: seq<Entry>, v: int, b: nat)
    requires b < |s| && s[b].value == v
    requires forall j :: 0 <= j < |s| ==> s[j].value <= v
    ensures forall hi :: IsGreatestCount(s, hi) <==> hi == v
  {
    forall hi | IsGreatestCount(s, hi) ensures hi == v {
      assert s[b].value <= hi;
    }
  }

  /** With distinct keys, every entry is the last one with its key. */
  lemma DistinctKeysAreLast(s: seq<Entry>)
    requires DistinctKeys(s)
    ensures forall i :: 0 <= i < |s| ==> LastOfKey(s, i, |s|)
  {
  }

  /** countMin and countMax of sortWordsAlphabet are the least and greatest selected counts,
      so every size is scaleSize between those two. */
  lemma SizesScaleBetweenExtremes(stCount: seq<Entry>, n: nat, stAlphabet: seq<Entry>,
                                  fontSize: map<string, int>, fontMax: int, fontMin: int,
                                  countMin: int, countMax: int)
    requires 2 <= n <= |stCount|
    requires multiset(stAlphabet) == multiset(stCount[|stCount| - n..])
    requires countMax == stCount[|stCount| - 1].value
    requires countMin == stCount[|stCount| - n].value
    requires forall j :: 0 <= j < |stAlphabet| ==> countMin <= stAlphabet[j].value <= countMax
    requires DistinctKeys(stAlphabet)
    requires fontSize.Keys == KeysOf(stAlphabet)
    requires forall i :: 0 <= i < |stAlphabet| && LastOfKey(stAlphabet, i, |stAlphabet|) ==>
               fontSize[stAlphabet[i].key] == ScaleSize(fontMax, fontMin, stAlphabet[i].value, countMin, countMax)
    ensures forall i, lo, hi :: 0 <= i < |stAlphabet| && IsLeastCount(stAlphabet, lo) && IsGreatestCount(stAlphabet, hi) ==>
              fontSize[stAlphabet[i].key] == ScaleSize(fontMax, fontMin, stAlphabet[i].value, lo, hi)
  {
    var suffix := stCount[|stCount| - n..];
    assert suffix[0] == stCount[|stCount| - n] && suffix[n - 1] == stCount[|stCount| - 1];
    assert suffix[0] in multiset(stAlphabet) && suffix[n - 1] in multiset(stAlphabet);
    var a :| 0 <= a < |stAlphabet| && stAlphabet[a] == suffix[0];
    var b :| 0 <= b < |stAlphabet| && stAlphabet[b] == suffix[n - 1];
    LeastCountIs(stAlphabet, countMin, a);
    GreatestCountIs(stAlphabet, countMax, b);
    DistinctKeysAreLast(stAlphabet);
  }

  /** The selection made from a word map that counts words is a cloud of those words. */
  lemma CloudOfMap(words: seq<string>, wordMap: map<string, int>, n: int, fontMax: int, fontMin: int,
                   stCount: seq<Entry>, stAlphabet: seq<Entry>, fontSize: map<string, int>,
                   remaining: seq<Entry>, countMin: int, countMax: int)
    requires forall w :: w in wordMap <==> w in words
    requires forall w :: w in wordMap ==> wordMap[w] == multiset(words)[w]
    requires 2 <= n <= |stCount|
    requires multiset(stCount) == multiset(EntrySet(wordMap))
    requires CountsAscending(stCount)
    requires remaining == stCount[..|stCount| - n]
    requires multiset(stAlphabet) == multiset(stCount[|stCount| - n..])
    requires SortedBy(stAlphabet, AlphabetCompare)
    requires countMax == stCount[|stCount| - 1].value
    requires countMin == stCount[|stCount| - n].value
    requires fontSize.Keys == KeysOf(stAlphabet)
    requires forall i :: 0 <= i < |stAlphabet| && LastOfKey(stAlphabet, i, |stAlphabet|) ==>
               fontSize[stAlphabet[i].key] == ScaleSize(fontMax, fontMin, stAlphabet[i].value, countMin, countMax)
    requires forall i, j :: 0 <= i < |remaining| && 0 <= j < |stAlphabet| ==> remaining[i].value <= stAlphabet[j].value
    requires forall j :: 0 <= j < |stAlphabet| ==> countMin <= stAlphabet[j].value <= countMax
    ensures IsCloudOf(words, n, fontMax, fontMin, Cloud(stAlphabet, fontSize))
  {
    ListingFacts(stCount, wordMap);
    SelectedAreEntries(wordMap, stCount, n, stAlphabet);
    UnselectedAreNoMoreFrequent(wordMap, stCount, n, stAlphabet, remaining);
    SizesScaleBetweenExtremes(stCount, n, stAlphabet, fontSize, fontMax, fontMin, countMin, countMax);
  }

  /** A list sorted by AlphabetComparator whose keys are distinct and already lower-case
      is in strictly increasing order of the keys themselves: re-lowering changes nothing
      and the count never has to break a tie. */
  lemma StrictlyAlphabetical(s: seq<Entry>)
    requires SortedBy(s, AlphabetCompare)
    requires DistinctKeys(s)
    requires forall i :: 0 <= i < |s| ==> IsLowerCase(s[i].key)
    ensures forall i, j :: 0 <= i < j < |s| ==> CompareStrings(s[i].key, s[j].key) < 0
  {
    forall i, j | 0 <= i < j < |s|
      ensures CompareStrings(s[i].key, s[j].key) < 0
    {
      LowerCaseIsFixed(s[i].key);
      LowerCaseIsFixed(s[j].key);
      CompareStringsZero(s[i].key, s[j].key);
      assert AlphabetCompare(s[i], s[j]) <= 0;
    }
  }

  /** The words of a cloud of a document come out in strictly increasing order. */
  lemma CloudIsStrictlyAlphabetical(lines: seq<string>, n: int, fontMax: int, fontMin: int, c: Cloud)
    requires IsCloudOf(DocumentWords(lines, Separators), n, fontMax, fontMin, c)
    ensures forall i, j :: 0 <= i < j < |c.words| ==> CompareStrings(c.words[i].key, c.words[j].key) < 0
  {
    SeparatorsHaveNoLetters();
    DocumentWordsAreClean(lines, Separators);
    StrictlyAlphabetical(c.words);
  }

  /** main from the document's lines onward, with the requested number n given: None
      where main rejects n (it accepts 2 <= n <= maxNumber), otherwise the cloud. */
  method TagCloud(lines: seq<string>, n: int, fontMax: int, fontMin: int) returns (cloud: Option<Cloud>)
    ensures cloud.None? <==> !(2 <= n <= |Vocabulary(lines)|)
    ensures cloud.Some? ==> IsCloudOf(DocumentWords(lines, Separators), n, fontMax, fontMin, cloud.value)
    ensures cloud.Some? ==> forall i, j :: 0 <= i < j < |cloud.value.words| ==>
              CompareStrings(cloud.value.words[i].key, cloud.value.words[j].key) < 0
  {
    var wordMap := GetWords(lines);
    assert wordMap.Keys == Vocabulary(lines);
    var maxNumber := |wordMap|;
    if n <= 1 || n > maxNumber {
      return None;
    }
    var listing, stCount := SortWordsCount(wordMap);
    ListingFacts(stCount, wordMap);
    var stAlphabet, fontSize, remaining, countMin, countMax := SortWordsAlphabet(n, fontMax, fontMin, stCount);
    CloudOfMap(DocumentWords(lines, Separators), wordMap, n, fontMax, fontMin,
               stCount, stAlphabet, fontSize, remaining, countMin, countMax);
    cloud := Some(Cloud(stAlphabet, fontSize));
    CloudIsStrictlyAlphabetical(lines, n, fontMax, fontMin, cloud.value);
  }
}
