/** The string built-ins the front end and the server messages rely on, on ASCII text. */
module Strings {

  /** `String.prototype.split(c)` with a one-character separator: the pieces between
      the occurrences of `c`, empty pieces included; the empty string gives one empty piece. */
  function Split(s: string, c: char): (pieces: seq<string>)
    ensures |pieces| >= 1
    ensures forall i :: 0 <= i < |pieces| ==> c !in pieces[i]
    ensures pieces[0] <= s
    ensures |pieces[0]| < |s| ==> s[|pieces[0]|] == c
    ensures c !in s ==> pieces == [s]
    decreases |s|
  {
    if s == [] then [[]]
    else
      var rest := Split(s[1..], c);
      if s[0] == c then [[]] + rest
      else
        assert c !in s ==> c !in s[1..] && rest == [s[1..]] && [s[0]] + s[1..] == s;
        [[s[0]] + rest[0]] + rest[1..]
  }

  /** `Array.prototype.join(c)`: the pieces with one `c` between neighbours. */
  function Join(pieces: seq<string>, c: char): (s: string)
    ensures |pieces| > 0 ==> pieces[0] <= s
  {
    if pieces == [] then []
    else if |pieces| == 1 then pieces[0]
    else pieces[0] + [c] + Join(pieces[1..], c)
  }

  /** Splitting after a separator-free prefix glues that prefix onto the first piece. */
  lemma {:induction false} SplitPrefix(w: string, x: string, c: char)
    requires c !in w
    ensures Split(w + x, c) == [w + Split(x, c)[0]] + Split(x, c)[1..]
    decreases |w|
  {
    if w != [] {
      var sx := Split(x, c);
      assert (w + x)[0] == w[0] != c;
      assert (w + x)[1..] == w[1..] + x;
      SplitPrefix(w[1..], x, c);
      var rest := Split(w[1..] + x, c);
      assert rest == [w[1..] + sx[0]] + sx[1..];
      assert Split(w + x, c) == [[w[0]] + rest[0]] + rest[1..];
      assert [w[0]] + (w[1..] + sx[0]) == w + sx[0];
    } else {
      var sx := Split(x, c);
      assert w + x == x;
      assert w + sx[0] == sx[0];
      assert sx == [sx[0]] + sx[1..];
    }
  }

  /** Joining the pieces of a split gives the original string back. */
  lemma {:induction false} JoinSplit(s: string, c: char)
    ensures Join(Split(s, c), c) == s
    decreases |s|
  {
    if s != [] {
      JoinSplit(s[1..], c);
      var rest := Split(s[1..], c);
      if s[0] == c {
        assert Split(s, c) == [[]] + rest;
        assert ([[]] + rest)[1..] == rest;
        assert s == [c] + s[1..];
      } else if |rest| == 1 {
        assert s == [s[0]] + s[1..];
      } else {
        var pieces := Split(s, c);
        assert pieces[1..] == rest[1..];
        assert s == [s[0]] + s[1..];
      }
    }
  }

  /** Splitting a join of separator-free pieces gives the pieces back. */
  lemma {:induction false} SplitJoin(pieces: seq<string>, c: char)
    requires |pieces| >= 1
    requires forall i :: 0 <= i < |pieces| ==> c !in pieces[i]
    ensures Split(Join(pieces, c), c) == pieces
    decreases |pieces|
  {
    if |pieces| > 1 {
      var tail := Join(pieces[1..], c);
      SplitJoin(pieces[1..], c);
      assert Join(pieces, c) == pieces[0] + ([c] + tail);
      SplitPrefix(pieces[0], [c] + tail, c);
      assert ([c] + tail)[1..] == tail;
      assert Split([c] + tail, c) == [[]] + pieces[1..];
      assert pieces[0] + [] == pieces[0];
      assert pieces == [pieces[0]] + pieces[1..];
    }
  }

  predicate IsLowerLetter(c: char) { 'a' <= c <= 'z' }

  predicate IsUpperLetter(c: char) { 'A' <= c <= 'Z' }

  /** ASCII `toUpperCase` of one character: no lower-case letter remains, others are kept. */
  function UpperChar(c: char): (u: char)
    ensures !IsLowerLetter(u)
    ensures !IsLowerLetter(c) ==> u == c
    ensures IsLowerLetter(c) ==> IsUpperLetter(u)
  {
    if IsLowerLetter(c) then (c as int - 32) as char else c
  }

  /** ASCII `lower()` of one character: no upper-case letter remains, others are kept. */
  function LowerChar(c: char): (l: char)
    ensures !IsUpperLetter(l)
    ensures !IsUpperLetter(c) ==> l == c
    ensures IsUpperLetter(c) ==> IsLowerLetter(l)
  {
    if IsUpperLetter(c) then (c as int + 32) as char else c
  }

  /** Changing the case of a character keeps it the same letter, case-insensitively. */
  lemma CaseFolding(c: char)
    ensures LowerChar(UpperChar(c)) == LowerChar(c)
    ensures UpperChar(LowerChar(c)) == UpperChar(c)
  {
    if IsLowerLetter(c) {
      assert (c as int - 32) as char as int + 32 == c as int;
    } else if IsUpperLetter(c) {
      assert (c as int + 32) as char as int - 32 == c as int;
    }
  }

  /** `toUpperCase` restricted to ASCII letters: same length, no lower-case letter left,
      every other character kept, and equal to the input case-insensitively. */
  function Upper(s: string): (r: string)
    ensures |r| == |s|
    ensures forall i :: 0 <= i < |s| ==> r[i] == UpperChar(s[i])
    ensures forall i :: 0 <= i < |r| ==> !IsLowerLetter(r[i])
    ensures forall i :: 0 <= i < |s| && !IsLowerLetter(s[i]) ==> r[i] == s[i]
    ensures forall i :: 0 <= i < |s| ==> LowerChar(r[i]) == LowerChar(s[i])
  {
    var r := seq(|s|, i requires 0 <= i < |s| => UpperChar(s[i]));
    forall i | 0 <= i < |s| ensures LowerChar(r[i]) == LowerChar(s[i]) {
      CaseFolding(s[i]);
    }
    r
  }

  /** `lower()` restricted to ASCII letters: same length, no upper-case letter left,
      every other character kept, and equal to the input case-insensitively. */
  function Lower(s: string): (r: string)
    ensures |r| == |s|
    ensures forall i :: 0 <= i < |s| ==> r[i] == LowerChar(s[i])
    ensures forall i :: 0 <= i < |r| ==> !IsUpperLetter(r[i])
    ensures forall i :: 0 <= i < |s| && !IsUpperLetter(s[i]) ==> r[i] == s[i]
    ensures forall i :: 0 <= i < |s| ==> UpperChar(r[i]) == UpperChar(s[i])
  {
    var r := seq(|s|, i requires 0 <= i < |s| => LowerChar(s[i]));
    forall i | 0 <= i < |s| ensures UpperChar(r[i]) == UpperChar(s[i]) {
      CaseFolding(s[i]);
    }
    r
  }

  /** Python's `t in s` on strings: `t` occurs in `s` as a contiguous substring. */
  predicate Contains(s: string, t: string)
    decreases |s|
  {
    t <= s || (s != [] && Contains(s[1..], t))
  }

  lemma {:induction false} ContainsMiddle(a: string, t: string, b: string)
    ensures Contains(a + t + b, t)
    decreases |a|
  {
    if a == [] {
      assert a + t + b == t + b;
    } else {
      assert (a + t + b)[1..] == a[1..] + t + b;
      ContainsMiddle(a[1..], t, b);
    }
  }

  /** An occurrence of `t` at position `i` of `s` makes `Contains(s, t)` true. */
  lemma {:induction false} ContainsAt(s: string, t: string, i: nat)
    requires i + |t| <= |s| && s[i..i + |t|] == t
    ensures Contains(s, t)
    decreases i
  {
    if i == 0 {
      assert s[..|t|] == t;
    } else {
      assert s[1..][i - 1..i - 1 + |t|] == s[i..i + |t|];
      ContainsAt(s[1..], t, i - 1);
    }
  }

  /** Where `Contains(s, t)` finds `t`: a position at which `t` occurs in `s`. */
  function ContainsIndex(s: string, t: string): (i: nat)
    requires Contains(s, t)
    ensures i + |t| <= |s| && s[i..i + |t|] == t
    decreases |s|
  {
    if t <= s then
      assert s[0..|t|] == t;
      0
    else
      var j := ContainsIndex(s[1..], t);
      assert s[1..][j..j + |t|] == s[j + 1..j + 1 + |t|];
      j + 1
  }
}
