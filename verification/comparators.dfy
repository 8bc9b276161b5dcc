/** CountComparator and AlphabetComparator of TagCloud.java. */
module Comparators {
  import opened JavaLang
  import opened Entries

  /** CountComparator.compare as written: counts first, and on equal counts o1's
      lower-cased key compared with itself. */
  function CountCompare(o1: Entry, o2: Entry): int
  {
    var result := CompareInts(o1.value, o2.value);
    if result == 0 then CompareStrings(ToLower(o1.key), ToLower(o1.key)) else result
  }

  /** AlphabetComparator.compare: lower-cased keys first, counts on equal keys. */
  function AlphabetCompare(o1: Entry, o2: Entry): int
  {
    var result := CompareStrings(ToLower(o1.key), ToLower(o2.key));
    if result == 0 then CompareInts(o1.value, o2.value) else result
  }

  /** "cmp(a, b) <= 0" orders every pair and is transitive: what Collections.sort needs
      of a comparator. */
  ghost predicate TotalPreorder(cmp: (Entry, Entry) -> int)
  {
    && (forall a, b :: cmp(a, b) <= 0 || cmp(b, a) <= 0)
    && (forall a, b, c :: cmp(a, b) <= 0 && cmp(b, c) <= 0 ==> cmp(a, c) <= 0)
  }

  /** The tie-break of CountComparator never decides anything: the comparator is
      Integer.compareTo on the counts, whatever the keys. */
  lemma CountCompareIgnoresKeys(o1: Entry, o2: Entry)
    ensures CountCompare(o1, o2) == CompareInts(o1.value, o2.value)
  {
    CompareStringsZero(ToLower(o1.key), ToLower(o1.key));
  }

  lemma CountCompareIsTotalPreorder()
    ensures TotalPreorder(CountCompare)
  {
    forall a, b ensures CountCompare(a, b) <= 0 <==> a.value <= b.value {
      CountCompareIgnoresKeys(a, b);
    }
  }

  /** AlphabetComparator returns zero exactly when the lower-cased keys and the counts
      agree. */
  lemma AlphabetCompareZero(o1: Entry, o2: Entry)
    ensures AlphabetCompare(o1, o2) == 0 <==> ToLower(o1.key) == ToLower(o2.key) && o1.value == o2.value
  {
    CompareStringsZero(ToLower(o1.key), ToLower(o2.key));
  }

  /** Swapping the entries reverses the sign of AlphabetComparator. */
  lemma AlphabetCompareAntisymmetric(o1: Entry, o2: Entry)
    ensures AlphabetCompare(o1, o2) < 0 <==> AlphabetCompare(o2, o1) > 0
    ensures AlphabetCompare(o1, o2) == 0 <==> AlphabetCompare(o2, o1) == 0
  {
    CompareStringsAntisymmetric(ToLower(o1.key), ToLower(o2.key));
  }

  /** A strict step followed by a non-strict one is strict for String.compareTo. */
  lemma CompareStringsStrict(a: string, b: string, c: string)
    requires CompareStrings(a, b) < 0 && CompareStrings(b, c) <= 0
    ensures CompareStrings(a, c) < 0
  {
    CompareStringsTransitive(a, b, c);
    CompareStringsZero(a, c);
    if a == c {
      CompareStringsAntisymmetric(a, b);
    }
  }

  lemma AlphabetCompareTransitive(a: Entry, b: Entry, c: Entry)
    requires AlphabetCompare(a, b) <= 0 && AlphabetCompare(b, c) <= 0
    ensures AlphabetCompare(a, c) <= 0
  {
    var la, lb, lc := ToLower(a.key), ToLower(b.key), ToLower(c.key);
    CompareStringsZero(la, lb);
    CompareStringsZero(lb, lc);
    CompareStringsZero(la, lc);
    if CompareStrings(la, lb) < 0 {
      CompareStringsStrict(la, lb, lc);
    } else if CompareStrings(lb, lc) < 0 {
      assert la == lb;
    }
  }

  lemma AlphabetCompareIsTotalPreorder()
    ensures TotalPreorder(AlphabetCompare)
  {
    forall a, b ensures AlphabetCompare(a, b) <= 0 || AlphabetCompare(b, a) <= 0 {
      AlphabetCompareAntisymmetric(a, b);
    }
    forall a, b, c | AlphabetCompare(a, b) <= 0 && AlphabetCompare(b, c) <= 0
      ensures AlphabetCompare(a, c) <= 0
    {
      AlphabetCompareTransitive(a, b, c);
    }
  }

  /** CountComparator with the tie-break it evidently intends: counts first, and on equal
      counts the lower-cased keys of o1 and o2. */
  function CountCompareByKey(o1: Entry, o2: Entry): int
  {
    var result := CompareInts(o1.value, o2.value);
    if result == 0 then CompareStrings(ToLower(o1.key), ToLower(o2.key)) else result
  }

  /** The corrected comparator returns zero exactly when the counts and the lower-cased
      keys agree, so it does decide ties between different words. */
  lemma CountCompareByKeyZero(o1: Entry, o2: Entry)
    ensures CountCompareByKey(o1, o2) == 0 <==> o1.value == o2.value && ToLower(o1.key) == ToLower(o2.key)
  {
    CompareStringsZero(ToLower(o1.key), ToLower(o2.key));
  }

  /** The corrected comparator refines the one as written: whatever it puts first never
      has the larger count. */
  lemma CountCompareByKeyRefines(o1: Entry, o2: Entry)
    ensures CountCompareByKey(o1, o2) <= 0 ==> CountCompare(o1, o2) <= 0
  {
    CountCompareIgnoresKeys(o1, o2);
  }

  lemma CountCompareByKeyTransitive(a: Entry, b: Entry, c: Entry)
    requires CountCompareByKey(a, b) <= 0 && CountCompareByKey(b, c) <= 0
    ensures CountCompareByKey(a, c) <= 0
  {
    var la, lb, lc := ToLower(a.key), ToLower(b.key), ToLower(c.key);
    if a.value == b.value == c.value {
      CompareStringsTransitive(la, lb, lc);
    }
  }

  lemma CountCompareByKeyIsTotalPreorder()
    ensures TotalPreorder(CountCompareByKey)
  {
    forall a, b ensures CountCompareByKey(a, b) <= 0 || CountCompareByKey(b, a) <= 0 {
      CompareStringsAntisymmetric(ToLower(a.key), ToLower(b.key));
    }
    forall a, b, c | CountCompareByKey(a, b) <= 0 && CountCompareByKey(b, c) <= 0
      ensures CountCompareByKey(a, c) <= 0
    {
      CountCompareByKeyTransitive(a, b, c);
    }
  }
}
