/** sortWordsAlphabet of TagCloud.java: take the n most frequent entries off the end of
    the count-sorted list, sort them alphabetically and give each a font size. */
module Selection {
  import opened Entries
  import opened Comparators
  import opened Sorting
  import opened Scaling

  /** No entry of s after position i (and before position upTo) has the key of s[i]: the
      put of s[i] into the font-size map is the one that stays. */
  predicate LastOfKey(s: seq<Entry>, i: nat, upTo: nat)
    requires i < upTo <= |s|
  {
    forall j :: i < j < upTo ==> s[j].key != s[i].key
  }

  /** In a list ascending by count, the last n entries have the largest counts: none of
      the others beats them, and they lie between the n-th-from-last and the last count. */
  lemma TopOfAscending(s: seq<Entry>, n: nat)
    requires CountsAscending(s)
    requires 1 <= n <= |s|
    ensures forall e, f :: e in multiset(s[|s| - n..]) && f in s[..|s| - n] ==> f.value <= e.value
    ensures forall e :: e in multiset(s[|s| - n..]) ==> s[|s| - n].value <= e.value <= s[|s| - 1].value
  {
    forall e | e in multiset(s[|s| - n..])
      ensures s[|s| - n].value <= e.value <= s[|s| - 1].value
      ensures forall f :: f in s[..|s| - n] ==> f.value <= e.value
    {
      assert e in s[|s| - n..];
      var k :| 0 <= k < n && s[|s| - n..][k] == e;
      assert s[|s| - n + k] == e;
      forall f | f in s[..|s| - n] ensures f.value <= e.value {
        var a :| 0 <= a < |s| - n && s[..|s| - n][a] == f;
        assert s[a] == f;
      }
    }
  }

  /** What the fill loop knows after p entries: origin records, for every key put so far,
      the position of its latest occurrence, whose size the map holds. */
  ghost predicate Filled(s: seq<Entry>, size: int -> int, p: nat, fontSize: map<string, int>, origin: map<string, nat>)
    requires p <= |s|
  {
    && fontSize.Keys == KeysOf(s[..p])
    && origin.Keys == fontSize.Keys
    && (forall k :: k in origin ==> origin[k] < p && s[origin[k]].key == k && fontSize[k] == size(s[origin[k]].value))
    && (forall i :: 0 <= i < p ==> s[i].key in origin && i <= origin[s[i].key])
  }

  /** One turn of the fill loop keeps Filled. */
  lemma FillStep(s: seq<Entry>, size: int -> int, p: nat, fontSize: map<string, int>, origin: map<string, nat>)
    requires p < |s|
    requires Filled(s, size, p, fontSize, origin)
    ensures Filled(s, size, p + 1, fontSize[s[p].key := size(s[p].value)], origin[s[p].key := p])
  {
    assert s[..p + 1] == s[..p] + [s[p]];
    KeysOfSnoc(s[..p], s[p]);
  }

  /** The fill loop of sortWordsAlphabet: puts every entry's key with the size of its
      count (sortWordsAlphabet passes scaleSize with the selection's bounds as size). A key
      that occurs twice keeps the size of its last occurrence. */
  method FillFontSizes(stAlphabet: seq<Entry>, size: int -> int) returns (fontSize: map<string, int>)
    ensures fontSize.Keys == KeysOf(stAlphabet)
    ensures forall i :: 0 <= i < |stAlphabet| && LastOfKey(stAlphabet, i, |stAlphabet|) ==>
      fontSize[stAlphabet[i].key] == size(stAlphabet[i].value)
    ensures forall k :: k in fontSize ==>
              exists i :: 0 <= i < |stAlphabet| && stAlphabet[i].key == k && fontSize[k] == size(stAlphabet[i].value)
  {
    fontSize := map[];
    ghost var origin: map<string, nat> := map[];
    var p := 0;
    while p < |stAlphabet|
      invariant 0 <= p <= |stAlphabet|
      invariant Filled(stAlphabet, size, p, fontSize, origin)
    {
      var tempEntry := stAlphabet[p];
      var scaledSize := size(tempEntry.value);
      FillStep(stAlphabet, size, p, fontSize, origin);
      fontSize := fontSize[tempEntry.key := scaledSize];
      origin := origin[tempEntry.key := p];
      p := p + 1;
    }
    assert stAlphabet[..p] == stAlphabet;
    forall i | 0 <= i < |stAlphabet| && LastOfKey(stAlphabet, i, |stAlphabet|)
      ensures fontSize[stAlphabet[i].key] == size(stAlphabet[i].value)
    {
      assert origin[stAlphabet[i].key] == i;
    }
    forall k | k in fontSize
      ensures exists i :: 0 <= i < |stAlphabet| && stAlphabet[i].key == k && fontSize[k] == size(stAlphabet[i].value)
    {
      var i := origin[k];
      assert stAlphabet[i].key == k;
    }
  }

  /** When stCount ascends by count, the selection holds the largest counts: nothing left
      behind beats a selected entry, and the selected counts lie between the n-th-from-last
      count and countMax. */
  lemma SelectionIsTop(n: int, stCount: seq<Entry>, stAlphabet: seq<Entry>, remaining: seq<Entry>)
    requires 1 <= n <= |stCount|
    requires CountsAscending(stCount)
    requires remaining == stCount[..|stCount| - n]
    requires multiset(stAlphabet) == multiset(stCount[|stCount| - n..])
    ensures forall i, j :: 0 <= i < |remaining| && 0 <= j < |stAlphabet| ==>
              remaining[i].value <= stAlphabet[j].value
    ensures forall j :: 0 <= j < |stAlphabet| ==>
              stCount[|stCount| - n].value <= stAlphabet[j].value <= stCount[|stCount| - 1].value
  {
    TopOfAscending(stCount, n);
    forall j | 0 <= j < |stAlphabet|
      ensures stAlphabet[j] in multiset(stCount[|stCount| - n..])
    {
      assert stAlphabet[j] in multiset(stAlphabet);
    }
    forall i, j | 0 <= i < |remaining| && 0 <= j < |stAlphabet|
      ensures remaining[i].value <= stAlphabet[j].value
    {
      assert remaining[i] in remaining;
    }
  }

  /** Every size in fontSize is ScaleSize of some selected count; with countMin < countMax,
      fontMin <= fontMax and all selected counts in [countMin, countMax], every size lies in
      [fontMin, fontMax]. */
  lemma SizesInRange(stAlphabet: seq<Entry>, fontSize: map<string, int>,
                     fontMax: int, fontMin: int, countMin: int, countMax: int)
    requires countMin < countMax && fontMin <= fontMax
    requires forall j :: 0 <= j < |stAlphabet| ==> countMin <= stAlphabet[j].value <= countMax
    requires forall k :: k in fontSize ==>
               exists i :: 0 <= i < |stAlphabet| && stAlphabet[i].key == k &&
                             fontSize[k] == ScaleSize(fontMax, fontMin, stAlphabet[i].value, countMin, countMax)
    ensures forall k :: k in fontSize ==> fontMin <= fontSize[k] <= fontMax
  {
    forall k | k in fontSize ensures fontMin <= fontSize[k] <= fontMax {
      var i :| 0 <= i < |stAlphabet| && stAlphabet[i].key == k &&
               fontSize[k] == ScaleSize(fontMax, fontMin, stAlphabet[i].value, countMin, countMax);
    }
  }

  /** A selection of one entry: fontSize maps that entry's key to fontMax (scaleSize is
      called with countMin 0, so this needs the count to be positive). */
  lemma SingleSelection(stCount: seq<Entry>, stAlphabet: seq<Entry>, fontSize: map<string, int>,
                        fontMax: int, fontMin: int, countMax: int)
    requires 1 <= |stCount|
    requires multiset(stAlphabet) == multiset(stCount[|stCount| - 1..])
    requires countMax == stCount[|stCount| - 1].value && countMax > 0
    requires fontSize.Keys == KeysOf(stAlphabet)
    requires forall k :: k in fontSize ==>
               exists i :: 0 <= i < |stAlphabet| && stAlphabet[i].key == k &&
                             fontSize[k] == ScaleSize(fontMax, fontMin, stAlphabet[i].value, 0, countMax)
    ensures fontSize == map[stCount[|stCount| - 1].key := fontMax]
  {
    var last := stCount[|stCount| - 1];
    assert stCount[|stCount| - 1..] == [last];
    assert |stAlphabet| == |multiset(stAlphabet)| == 1;
    assert stAlphabet[0] in multiset(stAlphabet);
    assert stAlphabet == [last];
    KeysOfSnoc([], last);
    assert [] + [last] == stAlphabet;
  }

  /** Removing the last element of s[..k] leaves s[..k - 1] and exposes s[k - 1]. */
  lemma PopStep(s: seq<Entry>, k: nat)
    requires 0 < k <= |s|
    ensures s[..k][..k - 1] == s[..k - 1]
    ensures s[..k][k - 1] == s[k - 1]
  {
  }

  /** A list holding the last |r| elements of s in reverse order has the same elements as
      that suffix. */
  lemma {:induction false} ReversedSuffix(r: seq<Entry>, s: seq<Entry>)
    requires |r| <= |s|
    requires forall j :: 0 <= j < |r| ==> r[j] == s[|s| - 1 - j]
    ensures multiset(r) == multiset(s[|s| - |r|..])
  {
    if |r| > 0 {
      var m := |r| - 1;
      var front := r[..m];
      assert forall j :: 0 <= j < m ==> front[j] == r[j];
      ReversedSuffix(front, s);
      assert r == front + [r[m]];
      var k := |s| - |r|;
      assert s[k..] == [s[k]] + s[k + 1..];
      assert r[m] == s[k];
    }
  }

  /** The first loop of sortWordsAlphabet: removes the last entry of stCount n times,
      collecting the removed entries in removal order. countMax is the count of the first
      removed entry; countMin is set only in the "else if" branch, that is at the n-th
      removal when that is not also the first. */
  method TakeLast(n: int, stCount: seq<Entry>)
    returns (popped: seq<Entry>, remaining: seq<Entry>, countMin: int, countMax: int)
    requires 1 <= n <= |stCount|
    ensures remaining == stCount[..|stCount| - n]
    ensures |popped| == n
    ensures forall j :: 0 <= j < n ==> popped[j] == stCount[|stCount| - 1 - j]
    ensures multiset(popped) == multiset(stCount[|stCount| - n..])
    ensures countMax == stCount[|stCount| - 1].value
    ensures countMin == if n == 1 then 0 else stCount[|stCount| - n].value
  {
    remaining := stCount;
    popped := [];
    countMin := 0;
    countMax := 0;
    var i := 0;
    while i < n
      invariant 0 <= i <= n
      invariant remaining == stCount[..|stCount| - i]
      invariant |popped| == i
      invariant forall j :: 0 <= j < i ==> popped[j] == stCount[|stCount| - 1 - j]
      invariant countMax == if i == 0 then 0 else stCount[|stCount| - 1].value
      invariant countMin == if i == n && n > 1 then stCount[|stCount| - n].value else 0
    {
      var last := |remaining| - 1;
      var tempEntry := remaining[last];
      PopStep(stCount, |stCount| - i);
      remaining := remaining[..last];
      if i == 0 {
        countMax := tempEntry.value;
      } else if i == n - 1 {
        countMin := tempEntry.value;
      }
      popped := popped + [tempEntry];
      i := i + 1;
    }
    ReversedSuffix(popped, stCount);
  }

  /** sortWordsAlphabet. Besides the sorted selection and the font sizes it returns the
      rest of stCount (the method removes the selection from it) and its two locals
      countMin and countMax. countMax comes from the first entry taken off; countMin from
      the n-th, but only through the "else if" of the loop, so it stays 0 when n == 1. */
  method SortWordsAlphabet(n: int, fontMax: int, fontMin: int, stCount: seq<Entry>)
    returns (stAlphabet: seq<Entry>, fontSize: map<string, int>, remaining: seq<Entry>,
             countMin: int, countMax: int)
    requires 1 <= n <= |stCount|
    ensures remaining == stCount[..|stCount| - n]
    ensures multiset(stAlphabet) == multiset(stCount[|stCount| - n..])
    ensures SortedBy(stAlphabet, AlphabetCompare)
    ensures countMax == stCount[|stCount| - 1].value
    ensures countMin == if n == 1 then 0 else stCount[|stCount| - n].value
    ensures fontSize.Keys == KeysOf(stAlphabet)
    ensures forall i :: 0 <= i < |stAlphabet| && LastOfKey(stAlphabet, i, |stAlphabet|) ==>
      fontSize[stAlphabet[i].key] == ScaleSize(fontMax, fontMin, stAlphabet[i].value, countMin, countMax)
    ensures forall k :: k in fontSize ==>
              exists i :: 0 <= i < |stAlphabet| && stAlphabet[i].key == k &&
                            fontSize[k] == ScaleSize(fontMax, fontMin, stAlphabet[i].value, countMin, countMax)
    ensures CountsAscending(stCount) ==>
      forall i, j :: 0 <= i < |remaining| && 0 <= j < |stAlphabet| ==> remaining[i].value <= stAlphabet[j].value
    ensures CountsAscending(stCount) ==>
      forall j :: 0 <= j < |stAlphabet| ==> stCount[|stCount| - n].value <= stAlphabet[j].value <= countMax
    ensures CountsAscending(stCount) && 1 < n && countMin < countMax && fontMin <= fontMax ==>
      forall k :: k in fontSize ==> fontMin <= fontSize[k] <= fontMax
    ensures 1 < n && countMin == countMax ==> forall k :: k in fontSize ==> fontSize[k] == 1
    ensures n == 1 && countMax > 0 ==> fontSize == map[stCount[|stCount| - 1].key := fontMax]
  {
    var popped;
    popped, remaining, countMin, countMax := TakeLast(n, stCount);
    ghost var selected := stCount[|stCount| - n..];
    assert multiset(popped) == multiset(selected);
    AlphabetCompareIsTotalPreorder();
    stAlphabet := SortWith(popped, AlphabetCompare);
    SortWithPermutes(popped, AlphabetCompare);
    SortWithSorted(popped, AlphabetCompare);
    assert multiset(stAlphabet) == multiset(selected);
    fontSize := FillFontSizes(stAlphabet, c => ScaleSize(fontMax, fontMin, c, countMin, countMax));
    if CountsAscending(stCount) {
      SelectionIsTop(n, stCount, stAlphabet, remaining);
      if 1 < n && countMin < countMax && fontMin <= fontMax {
        SizesInRange(stAlphabet, fontSize, fontMax, fontMin, countMin, countMax);
      }
    }
    if n == 1 && countMax > 0 {
      SingleSelection(stCount, stAlphabet, fontSize, fontMax, fontMin, countMax);
    }
  }
}
