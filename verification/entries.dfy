/** Map entries (word, count) as they flow through the two sorts, and what it means for
    a sequence of entries to list a map. */
module Entries {

  /** A Map.Entry<String, Integer>. */
  datatype Entry = Entry(key: string, value: int)

  /** The entry set of a map. */
  function EntrySet(m: map<string, int>): set<Entry>
  {
    set k | k in m :: Entry(k, m[k])
  }

  /** No two positions of s hold the same key. */
  predicate DistinctKeys(s: seq<Entry>)
  {
    forall i, j :: 0 <= i < j < |s| ==> s[i].key != s[j].key
  }

  /** The counts never decrease along s. */
  predicate CountsAscending(s: seq<Entry>)
  {
    forall i, j :: 0 <= i < j < |s| ==> s[i].value <= s[j].value
  }

  /** The set of keys of a sequence of entries. */
  function KeysOf(s: seq<Entry>): set<string>
  {
    set i | 0 <= i < |s| :: s[i].key
  }

  lemma KeysOfSnoc(s: seq<Entry>, e: Entry)
    ensures KeysOf(s + [e]) == KeysOf(s) + {e.key}
  {
    forall k | k in KeysOf(s + [e]) ensures k in KeysOf(s) + {e.key} {
      var i :| 0 <= i < |s + [e]| && (s + [e])[i].key == k;
      if i < |s| {
        assert s[i].key == k;
      }
    }
    forall k | k in KeysOf(s) ensures k in KeysOf(s + [e]) {
      var i :| 0 <= i < |s| && s[i].key == k;
      assert (s + [e])[i].key == k;
    }
    assert (s + [e])[|s|].key == e.key;
  }

  /** A map has as many entries as keys. */
  lemma {:induction false} EntrySetSize(m: map<string, int>)
    ensures |EntrySet(m)| == |m|
    decreases |m|
  {
    if |m| > 0 {
      var k :| k in m;
      var m' := m - {k};
      EntrySetSize(m');
      forall e | e in EntrySet(m) ensures e in EntrySet(m') + {Entry(k, m[k])} {
        var j :| j in m && e == Entry(j, m[j]);
        if j != k {
          assert j in m';
        }
      }
      assert EntrySet(m) == EntrySet(m') + {Entry(k, m[k])};
      assert Entry(k, m[k]) !in EntrySet(m');
    }
  }

  /** Taking one more key k out of rest adds exactly the entry of k to the entries of the
      map outside rest. */
  lemma EntrySetStep(m: map<string, int>, rest: set<string>, k: string)
    requires k in rest && rest <= m.Keys
    ensures multiset(EntrySet(m - (rest - {k}))) == multiset(EntrySet(m - rest)) + multiset{Entry(k, m[k])}
  {
    var e := Entry(k, m[k]);
    forall x | x in EntrySet(m - (rest - {k}))
      ensures x in EntrySet(m - rest) + {e}
    {
      var j :| j in m - (rest - {k}) && x == Entry(j, m[j]);
      if j != k {
        assert j in m - rest;
      }
    }
    assert k in m - (rest - {k});
    forall x | x in EntrySet(m - rest)
      ensures x in EntrySet(m - (rest - {k}))
    {
      var j :| j in m - rest && x == Entry(j, m[j]);
      assert j in m - (rest - {k});
    }
    assert EntrySet(m - (rest - {k})) == EntrySet(m - rest) + {e};
    assert e !in EntrySet(m - rest);
  }

  /** An element at two positions occurs at least twice. */
  lemma TwiceInMultiset(s: seq<Entry>, i: nat, j: nat)
    requires i < j < |s| && s[i] == s[j]
    ensures multiset(s)[s[i]] >= 2
  {
    assert s == s[..j] + [s[j]] + s[j + 1..];
    assert s[..j][i] == s[i];
    assert multiset(s[..j])[s[i]] >= 1;
  }

  /** A sequence whose multiset is the entry set of m lists the entries of m, each once:
      it has |m| elements, every element is an entry of m, every entry of m is in it, and
      its keys are pairwise distinct. */
  lemma ListingFacts(s: seq<Entry>, m: map<string, int>)
    requires multiset(s) == multiset(EntrySet(m))
    ensures |s| == |m|
    ensures forall i :: 0 <= i < |s| ==> s[i].key in m && s[i].value == m[s[i].key]
    ensures forall k :: k in m ==> Entry(k, m[k]) in s
    ensures KeysOf(s) == m.Keys
    ensures DistinctKeys(s)
  {
    EntrySetSize(m);
    assert |s| == |multiset(s)| == |EntrySet(m)|;
    forall i | 0 <= i < |s|
      ensures s[i].key in m && s[i].value == m[s[i].key]
    {
      assert s[i] in multiset(s);
    }
    forall k | k in m
      ensures Entry(k, m[k]) in s
    {
      assert Entry(k, m[k]) in multiset(EntrySet(m));
    }
    forall k | k in m
      ensures k in KeysOf(s)
    {
      assert Entry(k, m[k]) in s;
    }
    forall i, j | 0 <= i < j < |s|
      ensures s[i].key != s[j].key
    {
      if s[i].key == s[j].key {
        TwiceInMultiset(s, i, j);
        assert false;
      }
    }
  }

  /** A sequence whose elements, counted with multiplicity, are among the entries of m
      holds entries of m only, and never the same key twice. */
  lemma SubListingFacts(s: seq<Entry>, m: map<string, int>)
    requires multiset(s) <= multiset(EntrySet(m))
    ensures forall i :: 0 <= i < |s| ==> s[i].key in m && s[i].value == m[s[i].key]
    ensures DistinctKeys(s)
  {
    forall i | 0 <= i < |s|
      ensures s[i].key in m && s[i].value == m[s[i].key]
    {
      assert s[i] in multiset(s);
    }
    forall i, j | 0 <= i < j < |s|
      ensures s[i].key != s[j].key
    {
      if s[i].key == s[j].key {
        TwiceInMultiset(s, i, j);
        assert false;
      }
    }
  }
}
