/** A reference definition of the words of a text, independent of how the front end
    computes them: the maximal runs of characters other than `.`, `_`, `-` and space. */
module Tokenizer {

  /** The characters the pattern `/[._-]+/g` matches. */
  predicate IsSeparator(c: char)
  {
    c == '.' || c == '_' || c == '-'
  }

  /** The characters that end a word: the separators, and the space `split(" ")` cuts at. */
  predicate IsDelimiter(c: char)
  {
    IsSeparator(c) || c == ' '
  }

  /** A word: non-empty, and none of `.`, `_`, `-` or space in it. */
  predicate IsWord(w: string)
  {
    w != [] && forall k :: 0 <= k < |w| ==> !IsDelimiter(w[k])
  }

  /** Length of the leading run of non-delimiter characters. */
  function WordLength(s: string): (n: nat)
    ensures n <= |s|
    ensures n < |s| ==> IsDelimiter(s[n])
    ensures s != [] && !IsDelimiter(s[0]) ==> IsWord(s[..n])
  {
    if s == [] || IsDelimiter(s[0]) then 0
    else
      var n := 1 + WordLength(s[1..]);
      assert s[..n] == [s[0]] + s[1..][..n - 1];
      n
  }

  /** `s` without its leading run of delimiters. */
  function SkipDelimiters(s: string): (r: string)
    ensures |r| <= |s|
    ensures r == [] || !IsDelimiter(r[0])
  {
    if s != [] && IsDelimiter(s[0]) then SkipDelimiters(s[1..]) else s
  }

  /** The maximal runs of non-delimiter characters of `s`, left to right. */
  function Tokens(s: string): (words: seq<string>)
    ensures forall i :: 0 <= i < |words| ==> IsWord(words[i])
    decreases |s|
  {
    var t := SkipDelimiters(s);
    if t == [] then []
    else
      var n := WordLength(t);
      [t[..n]] + Tokens(t[n..])
  }

  lemma {:induction false} SkipDelimitersAvoid(s: string, c: char)
    requires c !in s
    ensures c !in SkipDelimiters(s)
  {
    if s != [] && IsDelimiter(s[0]) {
      assert s == [s[0]] + s[1..];
      SkipDelimitersAvoid(s[1..], c);
    }
  }

  /** A character absent from `s` is absent from every token of `s`. */
  lemma {:induction false} TokensAvoid(s: string, c: char)
    requires c !in s
    ensures forall i :: 0 <= i < |Tokens(s)| ==> c !in Tokens(s)[i]
    decreases |s|
  {
    var t := SkipDelimiters(s);
    if t != [] {
      var n := WordLength(t);
      SkipDelimitersAvoid(s, c);
      assert t == t[..n] + t[n..];
      assert c !in t[..n] && c !in t[n..];
      TokensAvoid(t[n..], c);
      var rest := Tokens(t[n..]);
      assert Tokens(s) == [t[..n]] + rest;
      forall i | 0 <= i < |Tokens(s)| ensures c !in Tokens(s)[i] {
        if i > 0 {
          assert Tokens(s)[i] == rest[i - 1];
        }
      }
    }
  }
}
