/** Collections.sort with a comparator, and sortWordsCount of TagCloud.java. */
module Sorting {
  import opened JavaLang
  import opened Entries
  import opened Comparators

  /** s is in the order cmp asks for. */
  predicate SortedBy(s: seq<Entry>, cmp: (Entry, Entry) -> int)
  {
    forall i, j :: 0 <= i < j < |s| ==> cmp(s[i], s[j]) <= 0
  }

  /** If a entry is no greater than every element of s, it may be put in front of s. */
  lemma PrependSorted(e: Entry, s: seq<Entry>, cmp: (Entry, Entry) -> int)
    requires SortedBy(s, cmp)
    requires forall x :: x in multiset(s) ==> cmp(e, x) <= 0
    ensures SortedBy([e] + s, cmp)
  {
    forall i, j | 0 <= i < j < |[e] + s|
      ensures cmp(([e] + s)[i], ([e] + s)[j]) <= 0
    {
      if i == 0 {
        assert ([e] + s)[j] == s[j - 1];
        assert s[j - 1] in multiset(s);
      } else {
        assert ([e] + s)[i] == s[i - 1] && ([e] + s)[j] == s[j - 1];
      }
    }
  }

  /** An element no greater than the head of a sorted list is no greater than any of it. */
  lemma BelowHead(e: Entry, s: seq<Entry>, cmp: (Entry, Entry) -> int)
    requires TotalPreorder(cmp)
    requires SortedBy(s, cmp)
    requires |s| > 0 && cmp(e, s[0]) <= 0
    ensures forall x :: x in multiset(s) ==> cmp(e, x) <= 0
  {
    forall x | x in multiset(s) ensures cmp(e, x) <= 0 {
      var k :| 0 <= k < |s| && s[k] == x;
      if k > 0 {
        assert cmp(s[0], s[k]) <= 0;
      }
    }
  }

  /** The head of a sorted list stays below the rest of it with e added, when e does not
      go before the head. */
  lemma HeadBelowInserted(e: Entry, s: seq<Entry>, r: seq<Entry>, cmp: (Entry, Entry) -> int)
    requires TotalPreorder(cmp)
    requires SortedBy(s, cmp)
    requires |s| > 0 && !(cmp(e, s[0]) <= 0)
    requires multiset(r) == multiset(s[1..]) + multiset{e}
    ensures forall x :: x in multiset(r) ==> cmp(s[0], x) <= 0
  {
    forall x | x in multiset(r) ensures cmp(s[0], x) <= 0 {
      if x != e {
        assert x in multiset(s[1..]);
        var k :| 0 <= k < |s[1..]| && s[1..][k] == x;
        assert s[k + 1] == x;
      }
    }
  }

  /** One step of insertion sort: e goes in front of the first element it does not
      follow, which keeps the sort stable. */
  function Insert(e: Entry, s: seq<Entry>, cmp: (Entry, Entry) -> int): seq<Entry>
  {
    if |s| == 0 then [e]
    else if cmp(e, s[0]) <= 0 then [e] + s
    else [s[0]] + Insert(e, s[1..], cmp)
  }

  /** Insertion adds exactly e. */
  lemma {:induction false} InsertPermutes(e: Entry, s: seq<Entry>, cmp: (Entry, Entry) -> int)
    ensures multiset(Insert(e, s, cmp)) == multiset(s) + multiset{e}
  {
    if |s| > 0 && !(cmp(e, s[0]) <= 0) {
      InsertPermutes(e, s[1..], cmp);
      assert s == [s[0]] + s[1..];
    }
  }

  lemma SortedTail(s: seq<Entry>, cmp: (Entry, Entry) -> int)
    requires |s| > 0 && SortedBy(s, cmp)
    ensures SortedBy(s[1..], cmp)
  {
    forall i, j | 0 <= i < j < |s[1..]| ensures cmp(s[1..][i], s[1..][j]) <= 0 {
      assert s[1..][i] == s[i + 1] && s[1..][j] == s[j + 1];
    }
  }

  /** Insertion into a sorted list keeps it sorted. */
  lemma {:induction false} InsertSorted(e: Entry, s: seq<Entry>, cmp: (Entry, Entry) -> int)
    requires TotalPreorder(cmp)
    requires SortedBy(s, cmp)
    ensures SortedBy(Insert(e, s, cmp), cmp)
  {
    if |s| == 0 {
    } else if cmp(e, s[0]) <= 0 {
      BelowHead(e, s, cmp);
      PrependSorted(e, s, cmp);
    } else {
      var r := Insert(e, s[1..], cmp);
      SortedTail(s, cmp);
      InsertSorted(e, s[1..], cmp);
      InsertPermutes(e, s[1..], cmp);
      HeadBelowInserted(e, s, r, cmp);
      PrependSorted(s[0], r, cmp);
    }
  }

  /** Collections.sort(list, cmp), as a stable insertion sort. */
  function SortWith(s: seq<Entry>, cmp: (Entry, Entry) -> int): seq<Entry>
  {
    if |s| == 0 then [] else Insert(s[0], SortWith(s[1..], cmp), cmp)
  }

  /** Sorting permutes its input. */
  lemma {:induction false} SortWithPermutes(s: seq<Entry>, cmp: (Entry, Entry) -> int)
    ensures multiset(SortWith(s, cmp)) == multiset(s)
  {
    if |s| > 0 {
      SortWithPermutes(s[1..], cmp);
      InsertPermutes(s[0], SortWith(s[1..], cmp), cmp);
      assert s == [s[0]] + s[1..];
    }
  }

  /** With a valid comparator, the result is sorted. */
  lemma {:induction false} SortWithSorted(s: seq<Entry>, cmp: (Entry, Entry) -> int)
    requires TotalPreorder(cmp)
    ensures SortedBy(SortWith(s, cmp), cmp)
  {
    if |s| > 0 {
      SortWithSorted(s[1..], cmp);
      InsertSorted(s[0], SortWith(s[1..], cmp), cmp);
    }
  }

  /** The entries of s with count v, in the order s has them. */
  function WithCount(s: seq<Entry>, v: int): seq<Entry>
  {
    if |s| == 0 then []
    else (if s[0].value == v then [s[0]] else []) + WithCount(s[1..], v)
  }

  /** Insertion by CountComparator puts e after every entry of smaller count and before
      every entry of equal count, so among the entries of any one count it goes first. */
  lemma {:induction false} InsertByCountStable(e: Entry, s: seq<Entry>, v: int)
    ensures WithCount(Insert(e, s, CountCompare), v) == (if e.value == v then [e] else []) + WithCount(s, v)
  {
    if |s| > 0 {
      CountCompareIgnoresKeys(e, s[0]);
      if !(CountCompare(e, s[0]) <= 0) {
        InsertByCountStable(e, s[1..], v);
        assert Insert(e, s, CountCompare)[1..] == Insert(e, s[1..], CountCompare);
      }
    }
  }

  /** Collections.sort with CountComparator is stable: the entries of each count come out
      in the order they went in. */
  lemma {:induction false} SortByCountStable(s: seq<Entry>, v: int)
    ensures WithCount(SortWith(s, CountCompare), v) == WithCount(s, v)
  {
    if |s| > 0 {
      SortByCountStable(s[1..], v);
      InsertByCountStable(s[0], SortWith(s[1..], CountCompare), v);
    }
  }

  /** The loop of sortWordsCount that copies wordMap.entrySet() into a list, in the map's
      own, unspecified, iteration order. */
  method ListEntries(wordMap: map<string, int>) returns (listing: seq<Entry>)
    ensures multiset(listing) == multiset(EntrySet(wordMap))
  {
    listing := [];
    var rest := wordMap.Keys;
    while rest != {}
      invariant rest <= wordMap.Keys
      invariant multiset(listing) == multiset(EntrySet(wordMap - rest))
      decreases |rest|
    {
      var k :| k in rest;
      var tempEntry := Entry(k, wordMap[k]);
      EntrySetStep(wordMap, rest, k);
      listing := listing + [tempEntry];
      rest := rest - {k};
    }
    assert wordMap - rest == wordMap;
  }

  /** sortWordsCount: lists the entries of wordMap and sorts the listing with
      CountComparator as written. Counts come out ascending, and since the comparator ties
      every pair of equal counts, entries of equal count keep the listing order. */
  method SortWordsCount(wordMap: map<string, int>) returns (listing: seq<Entry>, stCount: seq<Entry>)
    ensures multiset(listing) == multiset(EntrySet(wordMap))
    ensures multiset(stCount) == multiset(listing)
    ensures SortedBy(stCount, CountCompare)
    ensures CountsAscending(stCount)
    ensures forall v :: WithCount(stCount, v) == WithCount(listing, v)
  {
    listing := ListEntries(wordMap);
    CountCompareIsTotalPreorder();
    stCount := SortWith(listing, CountCompare);
    SortWithPermutes(listing, CountCompare);
    SortWithSorted(listing, CountCompare);
    forall i, j | 0 <= i < j < |stCount|
      ensures stCount[i].value <= stCount[j].value
    {
      CountCompareIgnoresKeys(stCount[i], stCount[j]);
    }
    forall v ensures WithCount(stCount, v) == WithCount(listing, v) {
      SortByCountStable(listing, v);
    }
  }

  /** sortWordsCount with the tie-break CountComparator evidently intends: equal counts
      ordered by lower-cased key, whatever the listing order. */
  method SortWordsCountByKey(wordMap: map<string, int>) returns (stCount: seq<Entry>)
    ensures multiset(stCount) == multiset(EntrySet(wordMap))
    ensures SortedBy(stCount, CountCompare)
    ensures CountsAscending(stCount)
    ensures forall i, j :: 0 <= i < j < |stCount| && stCount[i].value == stCount[j].value ==>
              CompareStrings(ToLower(stCount[i].key), ToLower(stCount[j].key)) <= 0
  {
    var listing := ListEntries(wordMap);
    CountCompareByKeyIsTotalPreorder();
    stCount := SortWith(listing, CountCompareByKey);
    SortWithPermutes(listing, CountCompareByKey);
    SortWithSorted(listing, CountCompareByKey);
    forall i, j | 0 <= i < j < |stCount|
      ensures CountCompare(stCount[i], stCount[j]) <= 0
      ensures stCount[i].value <= stCount[j].value
    {
      CountCompareByKeyRefines(stCount[i], stCount[j]);
      CountCompareIgnoresKeys(stCount[i], stCount[j]);
    }
  }

  /** Two words of equal count: CountComparator as written leaves them in listing order,
      the corrected comparator puts them in alphabetical order. */
  lemma TieOrderExample()
    ensures SortWith([Entry("zebra", 3), Entry("apple", 3)], CountCompare)
            == [Entry("zebra", 3), Entry("apple", 3)]
    ensures SortWith([Entry("zebra", 3), Entry("apple", 3)], CountCompareByKey)
            == [Entry("apple", 3), Entry("zebra", 3)]
  {
    var z, a := Entry("zebra", 3), Entry("apple", 3);
    CountCompareIgnoresKeys(z, a);
    assert ToLower("zebra") == "zebra" && ToLower("apple") == "apple" by {
      LowerCaseIsFixed("zebra");
      LowerCaseIsFixed("apple");
    }
    assert SortWith([z, a], CountCompare) == Insert(z, [a], CountCompare) by {
      assert [z, a][1..] == [a];
      assert SortWith([a], CountCompare) == Insert(a, [], CountCompare);
    }
    assert SortWith([z, a], CountCompareByKey) == Insert(z, [a], CountCompareByKey) by {
      assert [z, a][1..] == [a];
      assert SortWith([a], CountCompareByKey) == Insert(a, [], CountCompareByKey);
    }
    assert CompareStrings("zebra", "apple") > 0;
  }
}
