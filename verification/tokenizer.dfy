/** Splitting a line into words and separator strings: generateElements and
    nextWordOrSeparator of TagCloud.java. */
module Tokenizer {
  import opened JavaLang

  /** The separator literal of getWords: blanks, punctuation, digits and quotes. */
  const SeparatorStr: string := " \t\n\r,-.!?[]';:/()0123456789_\"*`"

  /** entries(s) of the documentation: the set of characters occurring in s. */
  function CharsOf(s: string): set<char>
  {
    set c | c in s
  }

  /** The separator set getWords builds from SeparatorStr. */
  const Separators: set<char> := CharsOf(SeparatorStr)

  /** True when the set holds no ASCII letter, so lower-casing never moves a character
      into or out of it. */
  ghost predicate NoLetters(separators: set<char>)
  {
    forall c :: c in separators ==> !IsLetter(c)
  }

  lemma SeparatorsHaveNoLetters()
    ensures NoLetters(Separators)
  {
    forall i | 0 <= i < |SeparatorStr|
      ensures !IsLetter(SeparatorStr[i])
    {
    }
  }

  /** generateElements adds every character of str to the set it is given. It never
      clears that set, so its documented "strSet = entries(str)" holds because its one
      caller passes an empty set. */
  method GenerateElements(str: string, strSet0: set<char>) returns (strSet: set<char>)
    ensures strSet == strSet0 + CharsOf(str)
  {
    strSet := strSet0;
    var i := 0;
    while i < |str|
      invariant 0 <= i <= |str|
      invariant strSet == strSet0 + CharsOf(str[..i])
    {
      var temp := str[i];
      assert CharsOf(str[..i + 1]) == CharsOf(str[..i]) + {temp} by {
        assert str[..i + 1] == str[..i] + [temp];
      }
      if temp !in strSet {
        strSet := strSet + {temp};
      }
      i := i + 1;
    }
    assert str[..i] == str;
  }

  /** The end of the run of characters that, like text[from], are (inSeparators) or are
      not (!inSeparators) separators. */
  function RunEnd(text: string, from: nat, separators: set<char>, inSeparators: bool): (e: nat)
    requires from <= |text|
    ensures from <= e <= |text|
    ensures forall i :: from <= i < e ==> (text[i] in separators) == inSeparators
    ensures e == |text| || (text[e] in separators) != inSeparators
    decreases |text| - from
  {
    if from == |text| || (text[from] in separators) != inSeparators then from
    else RunEnd(text, from + 1, separators, inSeparators)
  }

  /** The documented contract of nextWordOrSeparator: the result is the slice of text
      starting at position; when text[position] is not a separator it holds no separator
      and ends at the end of text or before a separator, and otherwise it holds only
      separators and ends at the end of text or before a non-separator. */
  ghost predicate IsNextToken(text: string, position: nat, separators: set<char>, token: string)
    requires position < |text|
  {
    && position + |token| <= |text|
    && token == text[position..position + |token|]
    && if CharsOf(text[position..position + 1]) * separators == {} then
         && CharsOf(token) * separators == {}
         && (position + |token| == |text|
             || CharsOf(text[position..position + |token| + 1]) * separators != {})
       else
         && CharsOf(token) <= separators
         && (position + |token| == |text|
             || !(CharsOf(text[position..position + |token| + 1]) <= separators))
  }

  lemma CharsOfAppend(a: string, b: string)
    ensures CharsOf(a + b) == CharsOf(a) + CharsOf(b)
  {
    forall c | c in CharsOf(a + b) ensures c in CharsOf(a) + CharsOf(b) {
      assert c in a + b;
    }
  }

  lemma CharsOfDisjoint(s: string, separators: set<char>)
    ensures CharsOf(s) * separators == {} <==> AllOfClass(s, separators, false)
  {
    if !AllOfClass(s, separators, false) {
      var i :| 0 <= i < |s| && s[i] in separators;
      assert s[i] in CharsOf(s) * separators;
    }
  }

  lemma CharsOfSubset(s: string, separators: set<char>)
    ensures CharsOf(s) <= separators <==> AllOfClass(s, separators, true)
  {
    if !AllOfClass(s, separators, true) {
      var i :| 0 <= i < |s| && s[i] !in separators;
      assert s[i] in CharsOf(s);
    }
  }

  /** The same contract in terms of positions: the token is a slice starting at position,
      all of it in the class of text[position], followed by the end of text or by a
      character of the other class. */
  ghost predicate IsMaximalRun(text: string, position: nat, separators: set<char>, token: string)
    requires position < |text|
  {
    && position + |token| <= |text|
    && token == text[position..position + |token|]
    && AllOfClass(token, separators, text[position] in separators)
    && (position + |token| == |text|
        || (text[position + |token|] in separators) != (text[position] in separators))
  }

  lemma IsNextTokenByPosition(text: string, position: nat, separators: set<char>, token: string)
    requires position < |text|
    ensures IsNextToken(text, position, separators, token) <==> IsMaximalRun(text, position, separators, token)
  {
    if position + |token| <= |text| && token == text[position..position + |token|] {
      var f := position + |token|;
      assert CharsOf(text[position..position + 1]) == {text[position]} by {
        assert text[position..position + 1] == [text[position]];
      }
      if text[position] in separators {
        assert text[position] in CharsOf(text[position..position + 1]) * separators;
      } else {
        assert CharsOf(text[position..position + 1]) * separators == {};
      }
      CharsOfDisjoint(token, separators);
      CharsOfSubset(token, separators);
      if f < |text| {
        var c := text[f];
        assert text[position..f + 1] == token + [c];
        CharsOfAppend(token, [c]);
        assert CharsOf([c]) == {c};
        var after := CharsOf(text[position..f + 1]);
        assert after == CharsOf(token) + {c};
        if text[position] in separators {
          assert CharsOf(token) <= separators ==> (after <= separators <==> c in separators);
        } else {
          if CharsOf(token) * separators == {} {
            if c in separators {
              assert c in after * separators;
            } else {
              assert after * separators <= CharsOf(token) * separators;
            }
          }
        }
      }
    }
  }

  /** The word or separator string of text starting at position. */
  function NextToken(text: string, position: nat, separators: set<char>): (token: string)
    requires position < |text|
    ensures 0 < |token| && position + |token| <= |text|
  {
    text[position..RunEnd(text, position, separators, text[position] in separators)]
  }

  /** The token is the maximal run of one class starting at position. */
  lemma NextTokenIsMaximalRun(text: string, position: nat, separators: set<char>)
    requires position < |text|
    ensures IsMaximalRun(text, position, separators, NextToken(text, position, separators))
  {
  }

  /** The documented contract determines the token: NextToken is the only string that
      meets it. */
  lemma NextTokenUnique(text: string, position: nat, separators: set<char>, token: string)
    requires position < |text|
    ensures IsNextToken(text, position, separators, token) <==> token == NextToken(text, position, separators)
  {
    IsNextTokenByPosition(text, position, separators, token);
    IsNextTokenByPosition(text, position, separators, NextToken(text, position, separators));
    if IsMaximalRun(text, position, separators, token) {
      var inSep := text[position] in separators;
      var f := position + |token|;
      forall i | position <= i < f
        ensures (text[i] in separators) == inSep
      {
        assert text[i] == token[i - position];
      }
      RunEndIsFirstChange(text, position, separators, inSep, f);
    }
  }

  /** nextWordOrSeparator: collects characters from position while they stay in the class
      (separator or not) of text[position]. */
  method NextWordOrSeparator(text: string, position: nat, separators: set<char>) returns (word: string)
    requires position < |text|
    ensures word == NextToken(text, position, separators)
  {
    word := [];
    if text[position] in separators {
      var stopPosition := position;
      while stopPosition < |text| && text[stopPosition] in separators
        invariant position <= stopPosition <= |text|
        invariant word == text[position..stopPosition]
        invariant forall i :: position <= i < stopPosition ==> text[i] in separators
      {
        word := word + [text[stopPosition]];
        stopPosition := stopPosition + 1;
      }
      assert stopPosition == RunEnd(text, position, separators, true) by {
        RunEndIsFirstChange(text, position, separators, true, stopPosition);
      }
    } else {
      var stopPosition := position;
      while stopPosition < |text| && text[stopPosition] !in separators
        invariant position <= stopPosition <= |text|
        invariant word == text[position..stopPosition]
        invariant forall i :: position <= i < stopPosition ==> text[i] !in separators
      {
        word := word + [text[stopPosition]];
        stopPosition := stopPosition + 1;
      }
      assert stopPosition == RunEnd(text, position, separators, false) by {
        RunEndIsFirstChange(text, position, separators, false, stopPosition);
      }
    }
  }

  /** RunEnd is the first position at which the class changes (or the end of text). */
  lemma RunEndIsFirstChange(text: string, from: nat, separators: set<char>, inSeparators: bool, e: nat)
    requires from <= e <= |text|
    requires forall i :: from <= i < e ==> (text[i] in separators) == inSeparators
    requires e == |text| || (text[e] in separators) != inSeparators
    ensures e == RunEnd(text, from, separators, inSeparators)
  {
  }

  /** True when every character of token is (inSeparators) or is not a separator. */
  predicate AllOfClass(token: string, separators: set<char>, inSeparators: bool)
  {
    forall i :: 0 <= i < |token| ==> (token[i] in separators) == inSeparators
  }

  /** The tokens of text[from..], left to right: each call of nextWordOrSeparator starts
      where the previous token ended. */
  function Tokenize(text: string, separators: set<char>, from: nat): seq<string>
    requires from <= |text|
    decreases |text| - from
  {
    if from == |text| then []
    else
      var token := NextToken(text, from, separators);
      [token] + Tokenize(text, separators, from + |token|)
  }

  function Concat(tokens: seq<string>): string
  {
    if |tokens| == 0 then [] else tokens[0] + Concat(tokens[1..])
  }

  lemma ConcatCons(t: string, ts: seq<string>)
    ensures Concat([t] + ts) == t + Concat(ts)
  {
    assert ([t] + ts)[0] == t && ([t] + ts)[1..] == ts;
  }

  lemma SliceSplit(s: string, i: nat, j: nat)
    requires i <= j <= |s|
    ensures s[i..] == s[i..j] + s[j..]
  {
  }

  lemma {:induction false} ConcatAppend(a: seq<string>, b: seq<string>)
    ensures Concat(a + b) == Concat(a) + Concat(b)
  {
    if |a| > 0 {
      assert (a + b)[0] == a[0] && (a + b)[1..] == a[1..] + b;
      ConcatAppend(a[1..], b);
      calc {
        Concat(a + b);
        a[0] + Concat(a[1..] + b);
        a[0] + (Concat(a[1..]) + Concat(b));
        (a[0] + Concat(a[1..])) + Concat(b);
      }
    } else {
      assert a + b == b;
    }
  }

  /** The tokens cover the rest of the text exactly: no gaps, no overlaps. */
  lemma {:induction false} TokenizeConcat(text: string, separators: set<char>, from: nat)
    requires from <= |text|
    ensures Concat(Tokenize(text, separators, from)) == text[from..]
    decreases |text| - from
  {
    if from < |text| {
      var token := NextToken(text, from, separators);
      TokenizeConcat(text, separators, from + |token|);
      assert text[from..] == token + text[from + |token|..];
    }
  }

  /** Every token is non-empty and lies wholly on one side of the separator set, and
      consecutive tokens lie on opposite sides (each token is maximal). */
  lemma {:induction false} TokenizeShape(text: string, separators: set<char>, from: nat)
    requires from <= |text|
    ensures forall k :: 0 <= k < |Tokenize(text, separators, from)| ==>
      var t := Tokenize(text, separators, from)[k];
      0 < |t| && AllOfClass(t, separators, t[0] in separators)
    ensures forall k :: 0 < k < |Tokenize(text, separators, from)| ==>
      (Tokenize(text, separators, from)[k - 1][0] in separators)
        != (Tokenize(text, separators, from)[k][0] in separators)
    decreases |text| - from
  {
    if from < |text| {
      var token := NextToken(text, from, separators);
      var next := from + |token|;
      var inSep := text[from] in separators;
      assert token == text[from..RunEnd(text, from, separators, inSep)];
      assert AllOfClass(token, separators, token[0] in separators);
      TokenizeShape(text, separators, next);
      var rest := Tokenize(text, separators, next);
      if |rest| > 0 {
        assert rest[0] == NextToken(text, next, separators);
        assert rest[0][0] == text[next];
        assert (text[next] in separators) != inSep;
      }
      assert Tokenize(text, separators, from) == [token] + rest;
    }
  }
}
