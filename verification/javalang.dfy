/** The pieces of the Java library the tag cloud relies on, restricted to ASCII:
    String.toLowerCase, String.compareTo, Integer.compareTo and int division. */
module JavaLang {

  predicate IsUpper(c: char) { 'A' <= c <= 'Z' }

  predicate IsLower(c: char) { 'a' <= c <= 'z' }

  predicate IsLetter(c: char) { IsUpper(c) || IsLower(c) }

  /** Character.toLowerCase on ASCII: upper-case letters move down by 32, nothing else changes. */
  function LowerChar(c: char): char
  {
    if IsUpper(c) then (c as int + 32) as char else c
  }

  /** True when no character of s is an upper-case letter. */
  predicate IsLowerCase(s: string)
  {
    forall i :: 0 <= i < |s| ==> !IsUpper(s[i])
  }

  /** String.toLowerCase on ASCII: each character is lowered on its own. It keeps the
      length, which getWords relies on when it advances its position by the length of the
      lower-cased token. */
  function ToLower(s: string): (r: string)
    ensures |r| == |s|
  {
    seq(|s|, i requires 0 <= i < |s| => LowerChar(s[i]))
  }

  /** Each character is lowered on its own, and no upper-case letter is left. */
  lemma ToLowerPointwise(s: string)
    ensures forall i :: 0 <= i < |s| ==> ToLower(s)[i] == LowerChar(s[i])
    ensures IsLowerCase(ToLower(s))
  {
  }

  /** Lower-casing works character by character, so it distributes over concatenation. */
  lemma ToLowerAppend(a: string, b: string)
    ensures ToLower(a + b) == ToLower(a) + ToLower(b)
  {
  }

  /** A lower-case string is its own lower-case form. */
  lemma LowerCaseIsFixed(s: string)
    requires IsLowerCase(s)
    ensures ToLower(s) == s
  {
  }

  /** String.compareTo: the difference of the first differing characters, or else the
      difference of the lengths. Only the sign is used by the callers. */
  function CompareStrings(s1: string, s2: string): int
  {
    if |s1| == 0 || |s2| == 0 then |s1| - |s2|
    else if s1[0] != s2[0] then s1[0] as int - s2[0] as int
    else CompareStrings(s1[1..], s2[1..])
  }

  /** String.compareTo returns zero exactly on equal strings. */
  lemma {:induction false} CompareStringsZero(a: string, b: string)
    ensures CompareStrings(a, b) == 0 <==> a == b
  {
    if |a| > 0 && |b| > 0 && a[0] == b[0] {
      CompareStringsZero(a[1..], b[1..]);
      if a[1..] == b[1..] {
        assert a == [a[0]] + a[1..] && b == [b[0]] + b[1..];
      }
    }
  }

  /** Swapping the arguments of String.compareTo negates the result. */
  lemma {:induction false} CompareStringsAntisymmetric(a: string, b: string)
    ensures CompareStrings(a, b) == -CompareStrings(b, a)
  {
    if |a| > 0 && |b| > 0 && a[0] == b[0] {
      CompareStringsAntisymmetric(a[1..], b[1..]);
    }
  }

  /** "compareTo(a, b) <= 0" is a transitive relation. */
  lemma {:induction false} CompareStringsTransitive(a: string, b: string, c: string)
    requires CompareStrings(a, b) <= 0 && CompareStrings(b, c) <= 0
    ensures CompareStrings(a, c) <= 0
  {
    if |a| > 0 && |b| > 0 && |c| > 0 && a[0] == b[0] && b[0] == c[0] {
      CompareStringsTransitive(a[1..], b[1..], c[1..]);
    }
  }

  /** Integer.compareTo. */
  function CompareInts(x: int, y: int): (r: int)
    ensures r < 0 <==> x < y
    ensures r == 0 <==> x == y
    ensures r > 0 <==> x > y
  {
    if x < y then -1 else if x == y then 0 else 1
  }

  /** Java int division, which truncates toward zero (Dafny's division is Euclidean). */
  function JavaDiv(a: int, b: int): (q: int)
    requires b != 0
    ensures a >= 0 && b > 0 ==> q == a / b
  {
    if a >= 0 && b > 0 then a / b
    else if a < 0 && b < 0 then (-a) / (-b)
    else if a < 0 then -((-a) / b)
    else -(a / (-b))
  }

  /** Java's quotient truncates toward zero: negating either operand negates it, which
      Euclidean division does not do. With JavaDiv's own contract this fixes JavaDiv on
      every pair of operands. */
  lemma JavaDivOdd(a: int, b: int)
    requires b != 0
    ensures JavaDiv(-a, b) == -JavaDiv(a, b)
    ensures JavaDiv(a, -b) == -JavaDiv(a, b)
  {
    if a == 0 {
      assert 0 / b == 0;
      assert 0 / (-b) == 0;
    }
  }
}
