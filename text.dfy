/** Text and array helpers that stand for the JavaScript built-ins the
    checking pipeline relies on: `String.prototype.toLowerCase` and
    `Array.prototype.findIndex`. */
module Text {

  /** Lower-cases one character. Only the ASCII letters A-Z are mapped;
      every other character is returned unchanged. */
  function LowerChar(c: char): char {
    if 'A' <= c <= 'Z' then (c as int + 32) as char else c
  }

  /** The upper-case partner of an ASCII lower-case letter. */
  function UpperChar(c: char): char
    requires 'a' <= c <= 'z'
  {
    (c as int - 32) as char
  }

  /** A string whose characters are all ASCII lower-case letters, such as
      the column names "target" and "response". */
  predicate IsLowerWord(s: string) {
    forall i :: 0 <= i < |s| ==> 'a' <= s[i] <= 'z'
  }

  /** `s.toLowerCase()`, restricted to ASCII: the result has the same
      length and is lower-cased character by character. */
  function Lower(s: string): (r: string)
    ensures |r| == |s|
    ensures forall i :: 0 <= i < |s| ==> r[i] == LowerChar(s[i])
  {
    seq(|s|, i requires 0 <= i < |s| => LowerChar(s[i]))
  }

  /** A cell lower-cases to a lower-case word exactly when it is that word
      written in any mixture of upper and lower case. */
  lemma {:induction false} LowerMatchesCaseVariants(s: string, word: string)
    requires IsLowerWord(word)
    ensures Lower(s) == word <==>
      |s| == |word| &&
      forall i :: 0 <= i < |s| ==> s[i] == word[i] || s[i] == UpperChar(word[i])
  {
    if Lower(s) == word {
      forall i | 0 <= i < |s|
        ensures s[i] == word[i] || s[i] == UpperChar(word[i])
      {
        assert LowerChar(s[i]) == word[i];
      }
    }
    if |s| == |word| && forall i :: 0 <= i < |s| ==> s[i] == word[i] || s[i] == UpperChar(word[i]) {
      forall i | 0 <= i < |s|
        ensures Lower(s)[i] == word[i]
      {
        assert s[i] == word[i] || s[i] == UpperChar(word[i]);
      }
    }
  }

  /** `s.findIndex(p)`: the lowest index whose element satisfies `p`, or -1
      when no element does. */
  function FindIndex<T>(s: seq<T>, p: T -> bool): (r: int)
    ensures -1 <= r < |s|
    ensures r == -1 <==> forall i :: 0 <= i < |s| ==> !p(s[i])
    ensures 0 <= r ==> p(s[r]) && forall i :: 0 <= i < r ==> !p(s[i])
  {
    if s == [] then -1
    else if p(s[0]) then 0
    else
      var k := FindIndex(s[1..], p);
      if k == -1 then -1 else k + 1
  }
}
