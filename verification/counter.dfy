/** The counting loop of getWords: every line is scanned token by token, each token is
    lower-cased, separator strings are skipped and every word bumps its entry in the map. */
module Counter {
  import opened JavaLang
  import opened Tokenizer

  /** getWords treats a token as a word when its first character is not a separator. */
  predicate IsWord(token: string, separators: set<char>)
  {
    |token| > 0 && token[0] !in separators
  }

  /** The lower-cased tokens the inner loop of getWords visits on one line, from position
      on. The loop advances by the length of the lower-cased token. */
  function LineTokens(line: string, separators: set<char>, position: nat): seq<string>
    requires position <= |line|
    decreases |line| - position
  {
    if position == |line| then []
    else
      var token := ToLower(NextToken(line, position, separators));
      [token] + LineTokens(line, separators, position + |token|)
  }

  /** The word tokens among tokens, in order. */
  function Words(tokens: seq<string>, separators: set<char>): seq<string>
  {
    if |tokens| == 0 then []
    else (if IsWord(tokens[0], separators) then [tokens[0]] else []) + Words(tokens[1..], separators)
  }

  /** The kept tokens are exactly the word tokens, in order: no word is dropped and no
      separator string is kept. */
  lemma {:induction false} WordsFilter(tokens: seq<string>, separators: set<char>)
    ensures |Words(tokens, separators)| <= |tokens|
    ensures forall w :: w in Words(tokens, separators) <==> w in tokens && IsWord(w, separators)
  {
    if |tokens| > 0 {
      WordsFilter(tokens[1..], separators);
      assert tokens == [tokens[0]] + tokens[1..];
    }
  }

  /** The word tokens of a whole document, line after line. */
  function DocumentWords(lines: seq<string>, separators: set<char>): seq<string>
  {
    if |lines| == 0 then []
    else Words(LineTokens(lines[0], separators, 0), separators) + DocumentWords(lines[1..], separators)
  }

  /** One step of the counting loop: a word already in the map has its count raised by
      one, a new word enters with count 1. */
  function Increment(wordMap: map<string, int>, word: string): map<string, int>
  {
    if word in wordMap then wordMap[word := wordMap[word] + 1] else wordMap[word := 1]
  }

  /** The map the counting loop leaves after feeding words, in order, into wordMap. */
  function Tally(wordMap: map<string, int>, words: seq<string>): map<string, int>
    decreases |words|
  {
    if |words| == 0 then wordMap else Tally(Increment(wordMap, words[0]), words[1..])
  }

  /** The sum of all counts of a map. */
  ghost function SumValues(m: map<string, int>): int
    decreases |m|
  {
    if |m| == 0 then 0
    else
      var k :| k in m;
      m[k] + SumValues(m - {k})
  }

  /** The key SumValues takes out first. */
  lemma SumValuesPick(m: map<string, int>) returns (j: string)
    requires |m| > 0
    ensures j in m && SumValues(m) == m[j] + SumValues(m - {j})
  {
    j :| j in m && SumValues(m) == m[j] + SumValues(m - {j});
  }

  /** Any key may be taken out first when summing. */
  lemma {:induction false} SumValuesRemove(m: map<string, int>, k: string)
    requires k in m
    ensures SumValues(m) == m[k] + SumValues(m - {k})
    decreases |m|
  {
    var j := SumValuesPick(m);
    if j != k {
      SumValuesRemove(m - {j}, k);
      SumValuesRemove(m - {k}, j);
      RemoveCommutes(m, j, k);
    }
  }

  lemma RemoveCommutes(m: map<string, int>, j: string, k: string)
    ensures m - {j} - {k} == m - {k} - {j}
  {
  }

  /** A counting step leaves every other word's entry alone. */
  lemma IncrementOthers(wordMap: map<string, int>, word: string)
    ensures Increment(wordMap, word) - {word} == wordMap - {word}
    ensures word in Increment(wordMap, word)
  {
  }

  /** Each counting step adds one word to the map: the sum of the counts grows by one. */
  lemma IncrementSum(wordMap: map<string, int>, word: string)
    ensures SumValues(Increment(wordMap, word)) == SumValues(wordMap) + 1
  {
    var r := Increment(wordMap, word);
    SumValuesRemove(r, word);
    IncrementOthers(wordMap, word);
    if word in wordMap {
      SumValuesRemove(wordMap, word);
    } else {
      assert wordMap - {word} == wordMap;
    }
  }

  /** The count of word in wordMap, 0 when it is absent (the "get-or-default" of the loop). */
  function CountOf(wordMap: map<string, int>, word: string): int
  {
    if word in wordMap then wordMap[word] else 0
  }

  /** Counting a sequence of words adds exactly the words to the keys. */
  lemma {:induction false} TallyKeys(wordMap: map<string, int>, words: seq<string>)
    ensures forall w :: w in Tally(wordMap, words) <==> w in wordMap || w in words
    decreases |words|
  {
    if |words| > 0 {
      TallyKeys(Increment(wordMap, words[0]), words[1..]);
      forall w ensures w in words <==> w == words[0] || w in words[1..] {
        assert words == [words[0]] + words[1..];
      }
    }
  }

  /** Counting a sequence of words raises the count of each word by its number of
      occurrences. */
  lemma {:induction false} TallyCount(wordMap: map<string, int>, words: seq<string>, w: string)
    ensures CountOf(Tally(wordMap, words), w) == CountOf(wordMap, w) + multiset(words)[w]
    decreases |words|
  {
    if |words| > 0 {
      TallyCount(Increment(wordMap, words[0]), words[1..], w);
      assert words == [words[0]] + words[1..];
      assert multiset(words) == multiset{words[0]} + multiset(words[1..]);
    }
  }

  /** Counting a sequence of words raises the sum of the counts by the number of words. */
  lemma {:induction false} TallySum(wordMap: map<string, int>, words: seq<string>)
    ensures SumValues(Tally(wordMap, words)) == SumValues(wordMap) + |words|
    decreases |words|
  {
    if |words| > 0 {
      TallySum(Increment(wordMap, words[0]), words[1..]);
      IncrementSum(wordMap, words[0]);
    }
  }

  /** Counting a sequence of words into an empty map: the keys are exactly the words, the
      count of each is its number of occurrences, and the counts add up to the number of
      words. */
  lemma CountFromEmpty(words: seq<string>)
    ensures forall w :: w in Tally(map[], words) <==> w in words
    ensures forall w :: w in Tally(map[], words) ==> Tally(map[], words)[w] == multiset(words)[w] > 0
    ensures SumValues(Tally(map[], words)) == |words|
  {
    TallyKeys(map[], words);
    TallySum(map[], words);
    assert SumValues(map[]) == 0;
    forall w | w in Tally(map[], words)
      ensures Tally(map[], words)[w] == multiset(words)[w] > 0
    {
      TallyCount(map[], words, w);
    }
  }

  /** Counting in two stretches is counting in one. */
  lemma {:induction false} TallyAppend(wordMap: map<string, int>, a: seq<string>, b: seq<string>)
    ensures Tally(wordMap, a + b) == Tally(Tally(wordMap, a), b)
    decreases |a|
  {
    if |a| > 0 {
      assert (a + b)[0] == a[0] && (a + b)[1..] == a[1..] + b;
      TallyAppend(Increment(wordMap, a[0]), a[1..], b);
    } else {
      assert a + b == b;
    }
  }

  /** Lower-casing keeps a character on the same side of a letter-free separator set. */
  lemma LowerKeepsClass(c: char, separators: set<char>)
    requires NoLetters(separators)
    ensures (LowerChar(c) in separators) == (c in separators)
  {
    if IsUpper(c) {
      assert IsLetter(c) && IsLetter(LowerChar(c));
    }
  }

  /** The first token of getWords on a line and the ones after it. */
  lemma LineTokensUnfold(line: string, separators: set<char>, position: nat)
    requires position < |line|
    ensures var raw := NextToken(line, position, separators);
      LineTokens(line, separators, position)
      == [ToLower(raw)] + LineTokens(line, separators, position + |raw|)
  {
  }

  /** The tokens of getWords concatenate to the lower-cased line. */
  lemma {:induction false} LineTokensConcat(line: string, separators: set<char>, position: nat)
    requires position <= |line|
    ensures Concat(LineTokens(line, separators, position)) == ToLower(line[position..])
    decreases |line| - position
  {
    if position < |line| {
      var raw := NextToken(line, position, separators);
      var next := position + |raw|;
      LineTokensUnfold(line, separators, position);
      LineTokensConcat(line, separators, next);
      SliceSplit(line, position, next);
      LowerConcatStep(raw, LineTokens(line, separators, next), line[next..]);
    }
  }

  /** If the later tokens spell the lowered tail, prefixing the lowered raw token spells the
      lowered raw token followed by the tail. */
  lemma LowerConcatStep(raw: string, rest: seq<string>, tail: string)
    requires Concat(rest) == ToLower(tail)
    ensures Concat([ToLower(raw)] + rest) == ToLower(raw + tail)
  {
    ConcatCons(ToLower(raw), rest);
    ToLowerAppend(raw, tail);
  }

  /** The tokens of getWords are those of nextWordOrSeparator, lower-cased. */
  lemma {:induction false} LineTokensLowerTokenize(line: string, separators: set<char>, position: nat)
    requires position <= |line|
    ensures |LineTokens(line, separators, position)| == |Tokenize(line, separators, position)|
    ensures forall k :: 0 <= k < |LineTokens(line, separators, position)| ==>
      LineTokens(line, separators, position)[k] == ToLower(Tokenize(line, separators, position)[k])
    decreases |line| - position
  {
    if position < |line| {
      var raw := NextToken(line, position, separators);
      var next := position + |raw|;
      var lowered, raws := LineTokens(line, separators, next), Tokenize(line, separators, next);
      LineTokensLowerTokenize(line, separators, next);
      LineTokensUnfold(line, separators, position);
      assert Tokenize(line, separators, position) == [raw] + raws;
      forall k | 0 < k < 1 + |lowered|
        ensures ([ToLower(raw)] + lowered)[k] == ToLower(([raw] + raws)[k])
      {
        assert ([ToLower(raw)] + lowered)[k] == lowered[k - 1];
        assert ([raw] + raws)[k] == raws[k - 1];
      }
    }
  }

  /** A word as it is stored in the map: non-empty, lower-case, no separator in it. */
  ghost predicate IsCleanWord(w: string, separators: set<char>)
  {
    && |w| > 0
    && IsLowerCase(w)
    && forall i :: 0 <= i < |w| ==> w[i] !in separators
  }

  /** With a letter-free separator set, a token of getWords counts as a word exactly when
      nextWordOrSeparator returned a word (not a separator string), and then it is clean. */
  lemma {:induction false} LineWordsAreClean(line: string, separators: set<char>, position: nat)
    requires NoLetters(separators)
    requires position <= |line|
    ensures forall t :: t in LineTokens(line, separators, position) ==>
      (IsWord(t, separators) ==> IsCleanWord(t, separators))
    decreases |line| - position
  {
    if position < |line| {
      var raw := NextToken(line, position, separators);
      var token := ToLower(raw);
      LineWordsAreClean(line, separators, position + |raw|);
      if IsWord(token, separators) {
        NextTokenIsMaximalRun(line, position, separators);
        ToLowerPointwise(raw);
        LowerKeepsClass(raw[0], separators);
        assert AllOfClass(raw, separators, false);
        forall i | 0 <= i < |token| ensures token[i] !in separators {
          LowerKeepsClass(raw[i], separators);
        }
      }
    }
  }

  lemma {:induction false} DocumentWordsAreClean(lines: seq<string>, separators: set<char>)
    requires NoLetters(separators)
    ensures forall w :: w in DocumentWords(lines, separators) ==> IsCleanWord(w, separators)
  {
    if |lines| > 0 {
      LineWordsAreClean(lines[0], separators, 0);
      WordsFilter(LineTokens(lines[0], separators, 0), separators);
      DocumentWordsAreClean(lines[1..], separators);
    }
  }

  /** One turn of the inner loop of getWords, seen on the remaining words. */
  lemma LineStep(line: string, separators: set<char>, position: nat)
    requires position < |line|
    ensures var token := ToLower(NextToken(line, position, separators));
      Words(LineTokens(line, separators, position), separators)
      == (if IsWord(token, separators) then [token] else [])
         + Words(LineTokens(line, separators, position + |token|), separators)
  {
    var token := ToLower(NextToken(line, position, separators));
    var later := LineTokens(line, separators, position + |token|);
    LineTokensUnfold(line, separators, position);
    assert ([token] + later)[0] == token && ([token] + later)[1..] == later;
  }

  /** One turn of the outer loop of getWords, seen on the remaining words. */
  lemma DocumentStep(lines: seq<string>, separators: set<char>, l: nat)
    requires l < |lines|
    ensures DocumentWords(lines[l..], separators)
            == Words(LineTokens(lines[l], separators, 0), separators) + DocumentWords(lines[l + 1..], separators)
  {
    assert lines[l..][0] == lines[l] && lines[l..][1..] == lines[l + 1..];
  }

  /** One turn of the inner loop of getWords, seen on the count of the remaining words. */
  lemma CountStep(wordMap: map<string, int>, token: string, separators: set<char>, later: seq<string>)
    requires |token| > 0
    ensures Tally(wordMap, (if IsWord(token, separators) then [token] else []) + later)
            == Tally(if token[0] !in separators then Increment(wordMap, token) else wordMap, later)
  {
    var first := if IsWord(token, separators) then [token] else [];
    TallyAppend(wordMap, first, later);
    if IsWord(token, separators) {
      assert Tally(wordMap, first) == Tally(Increment(wordMap, token), []);
    }
  }

  /** Counting the words of line from position on into wordMap gives target. */
  ghost predicate CountsTo(wordMap: map<string, int>, line: string, separators: set<char>, position: nat,
                           target: map<string, int>)
  {
    position <= |line| && Tally(wordMap, Words(LineTokens(line, separators, position), separators)) == target
  }

  /** One turn of the inner loop of getWords keeps CountsTo. */
  lemma CountLineStep(before: map<string, int>, after: map<string, int>, line: string,
                      separators: set<char>, position: nat, token: string, target: map<string, int>)
    requires position < |line|
    requires token == ToLower(NextToken(line, position, separators))
    requires after == if token[0] !in separators then Increment(before, token) else before
    requires CountsTo(before, line, separators, position, target)
    ensures CountsTo(after, line, separators, position + |token|, target)
  {
    LineStep(line, separators, position);
    CountStep(before, token, separators, Words(LineTokens(line, separators, position + |token|), separators));
  }

  /** The inner loop of getWords: counts the words of one line into wordMap. */
  method CountLine(wordMap0: map<string, int>, tempLine: string, separatorSet: set<char>)
    returns (wordMap: map<string, int>)
    ensures wordMap == Tally(wordMap0, Words(LineTokens(tempLine, separatorSet, 0), separatorSet))
  {
    wordMap := wordMap0;
    var position: nat := 0;
    ghost var target := Tally(wordMap0, Words(LineTokens(tempLine, separatorSet, 0), separatorSet));
    while position < |tempLine|
      invariant CountsTo(wordMap, tempLine, separatorSet, position, target)
    {
      var token := NextWordOrSeparator(tempLine, position, separatorSet);
      token := ToLower(token);
      ghost var before := wordMap;
      if token[0] !in separatorSet {
        wordMap := Increment(wordMap, token);
      }
      CountLineStep(before, wordMap, tempLine, separatorSet, position, token, target);
      position := position + |token|;
    }
    assert Words(LineTokens(tempLine, separatorSet, position), separatorSet) == [];
  }

  /** getWords without the reader: counts every word of every line into a fresh map. */
  method GetWords(lines: seq<string>) returns (wordMap: map<string, int>)
    ensures wordMap == Tally(map[], DocumentWords(lines, Separators))
    ensures forall w :: w in wordMap <==> w in DocumentWords(lines, Separators)
    ensures forall w :: w in wordMap ==> wordMap[w] == multiset(DocumentWords(lines, Separators))[w] > 0
    ensures forall w :: w in wordMap ==> IsCleanWord(w, Separators)
    ensures SumValues(wordMap) == |DocumentWords(lines, Separators)|
  {
    wordMap := map[];
    var separatorSet := GenerateElements(SeparatorStr, {});
    assert separatorSet == Separators;
    ghost var all := DocumentWords(lines, Separators);
    var l := 0;
    while l < |lines|
      invariant 0 <= l <= |lines|
      invariant Tally(wordMap, DocumentWords(lines[l..], Separators)) == Tally(map[], all)
    {
      DocumentStep(lines, Separators, l);
      TallyAppend(wordMap, Words(LineTokens(lines[l], Separators, 0), Separators),
                  DocumentWords(lines[l + 1..], Separators));
      wordMap := CountLine(wordMap, lines[l], separatorSet);
      l := l + 1;
    }
    assert DocumentWords(lines[l..], Separators) == [];
    CountFromEmpty(all);
    SeparatorsHaveNoLetters();
    DocumentWordsAreClean(lines, Separators);
  }
}
