/** The pure helpers of the activity page: `formatParticipant`, which turns a participant's
    email into a display name and badge initials, and the "spots left" count of a card. */
module ActivityView {
  import opened Strings
  import opened ActivityRegistry
  import opened Tokenizer

  function Min(a: int, b: int): int { if a < b then a else b }

  /** What `formatParticipant` returns. */
  datatype Display = Display(name: string, initials: string)

  /** `s` without its leading run of separators. */
  function SkipSeparators(s: string): (r: string)
    ensures |r| <= |s|
    ensures r == [] || !IsSeparator(r[0])
  {
    if s != [] && IsSeparator(s[0]) then SkipSeparators(s[1..]) else s
  }

  /** `replace(/[._-]+/g, " ")`: each maximal run of separators becomes a single space. */
  function Collapse(s: string): (r: string)
    ensures forall i :: 0 <= i < |r| ==> !IsSeparator(r[i])
    decreases |s|
  {
    if s == [] then []
    else if IsSeparator(s[0]) then " " + Collapse(SkipSeparators(s[1..]))
    else [s[0]] + Collapse(s[1..])
  }

  /** `filter(Boolean)` on strings: keep the non-empty ones, in order. */
  function NonEmpty(pieces: seq<string>): (r: seq<string>)
    ensures forall i :: 0 <= i < |r| ==> r[i] != []
    ensures forall w :: w in r <==> w in pieces && w != []
    ensures |r| <= |pieces|
  {
    if pieces == [] then []
    else if pieces[0] == [] then NonEmpty(pieces[1..])
    else [pieces[0]] + NonEmpty(pieces[1..])
  }

  /** `raw.split("@")[0]`: the text before the first `@`, or all of it when there is none. */
  function LocalPart(raw: string): (local: string)
    ensures local <= raw && '@' !in local
    ensures '@' !in raw ==> local == raw
    ensures '@' in raw ==> |local| < |raw| && raw[|local|] == '@'
  {
    Split(raw, '@')[0]
  }

  /** `replace(/[._-]+/g, " ").split(" ").filter(Boolean)` applied to a local part. */
  function SplitWords(local: string): (words: seq<string>)
    ensures forall i :: 0 <= i < |words| ==> words[i] != [] && ' ' !in words[i]
  {
    var pieces := Split(Collapse(local), ' ');
    var words := NonEmpty(pieces);
    assert forall i :: 0 <= i < |words| ==> words[i] in pieces;
    words
  }

  /** The words `formatParticipant` builds its name and initials from. */
  function Words(raw: string): (words: seq<string>)
    ensures words == Tokens(LocalPart(raw))
  {
    SplitWordsAreTokens(LocalPart(raw));
    SplitWords(LocalPart(raw))
  }

  /** `w[0].toUpperCase() + w.slice(1)`: the same word, case-insensitively, with a first
      character that is not a lower-case letter and every later character kept. */
  function Capitalize(w: string): (c: string)
    requires w != []
    ensures |c| == |w| && c[1..] == w[1..]
    ensures !IsLowerLetter(c[0])
    ensures !IsLowerLetter(w[0]) ==> c == w
    ensures Lower(c) == Lower(w)
  {
    CaseFolding(w[0]);
    assert Lower([UpperChar(w[0])] + w[1..]) == Lower(w) by {
      var c := [UpperChar(w[0])] + w[1..];
      forall k | 0 <= k < |w| ensures Lower(c)[k] == Lower(w)[k] {
        if k > 0 {
          assert c[k] == w[k];
        }
      }
    }
    assert !IsLowerLetter(w[0]) ==> [UpperChar(w[0])] + w[1..] == w;

    [UpperChar(w[0])] + w[1..]
  }

  /** `words.map(capitalize)`: each word keeps everything but the case of its first letter,
      which is no longer lower-case, and a word stays a word. */
  function CapitalizeAll(words: seq<string>): (r: seq<string>)
    requires forall i :: 0 <= i < |words| ==> words[i] != []
    ensures |r| == |words|
    ensures forall i :: 0 <= i < |words| ==> r[i] == Capitalize(words[i])
    ensures forall i :: 0 <= i < |words| ==>
      && |r[i]| == |words[i]| && r[i][0] == UpperChar(words[i][0]) && r[i][1..] == words[i][1..]
      && !IsLowerLetter(r[i][0])
      && Lower(r[i]) == Lower(words[i])
    ensures forall i :: 0 <= i < |words| ==> (IsWord(words[i]) ==> IsWord(r[i]))
  {
    var r := seq(|words|, i requires 0 <= i < |words| => Capitalize(words[i]));
    forall i | 0 <= i < |words| && IsWord(words[i]) ensures IsWord(r[i]) {
      CapitalizeKeepsWord(words[i]);
    }
    r
  }

  /** Capitalising a word does not introduce a delimiter. */
  lemma CapitalizeKeepsWord(w: string)
    requires IsWord(w)
    ensures IsWord(Capitalize(w))
  {
    var c := Capitalize(w);
    forall k | 0 <= k < |c| ensures !IsDelimiter(c[k]) {
      assert !IsDelimiter(w[k]);
      if k > 0 {
        assert c[k] == w[k];
      }
    }
  }

  /** `words.slice(0,2).map(w => w[0].toUpperCase()).join("")`. */
  function InitialsOf(words: seq<string>): (r: string)
    requires forall i :: 0 <= i < |words| ==> words[i] != []
    ensures |r| == Min(2, |words|)
    ensures forall i :: 0 <= i < |r| ==>
      LowerChar(r[i]) == LowerChar(words[i][0]) && !IsLowerLetter(r[i])
  {
    var r := seq(Min(2, |words|), i requires 0 <= i < Min(2, |words|) => UpperChar(words[i][0]));
    forall i | 0 <= i < |r| ensures LowerChar(r[i]) == LowerChar(words[i][0]) {
      CaseFolding(words[i][0]);
    }
    r
  }

  /** `formatParticipant(text)` for a string argument. */
  function FormatParticipant(text: string): (r: Display)
    ensures Words(text) == [] ==> r.name == text && r.initials == Upper(text[..Min(2, |text|)])
    ensures Words(text) != [] ==> Split(r.name, ' ') == CapitalizeAll(Words(text))
    ensures Words(text) != [] ==>
      && |r.initials| == Min(2, |Words(text)|)
      && forall i :: 0 <= i < |r.initials| ==> r.initials[i] == UpperChar(Words(text)[i][0])
    ensures r.name == [] <==> text == []
    ensures r.initials == [] <==> text == []
  {
    var raw := text;
    var words := Words(raw);
    var joined := Join(CapitalizeAll(words), ' ');
    var name := if joined == [] then raw else joined;
    var fromWords := InitialsOf(words);
    var initials := if fromWords == [] then Upper(raw[..Min(2, |raw|)]) else fromWords;
    EmptyHasNoWords(raw);
    WordsShape(raw);
    if words != [] then
      CapitalizedHaveNoSpaces(words);
      SplitJoin(CapitalizeAll(words), ' ');
      Display(name, initials)
    else
      Display(name, initials)
  }

  /** The empty text yields no words. */
  lemma EmptyHasNoWords(raw: string)
    ensures raw == [] ==> Words(raw) == []
  {
    if raw == [] {
      assert LocalPart(raw) == [];
      assert Collapse([]) == [];
      assert Split([], ' ') == [[]];
      assert NonEmpty([[]]) == NonEmpty([]);
    }
  }

  lemma CapitalizedHaveNoSpaces(words: seq<string>)
    requires forall i :: 0 <= i < |words| ==> words[i] != [] && IsWord(words[i])
    ensures forall i :: 0 <= i < |words| ==> ' ' !in CapitalizeAll(words)[i]
  {
    forall i | 0 <= i < |words|
      ensures ' ' !in CapitalizeAll(words)[i]
    {
      var w := words[i];
      var cw := CapitalizeAll(words)[i];
      forall k | 0 <= k < |cw| ensures cw[k] != ' ' {
        assert !IsDelimiter(w[k]);
        if k > 0 {
          assert cw[k] == w[k];
        }
      }
    }
  }

  lemma NonEmptyCons(w: string, pieces: seq<string>)
    ensures NonEmpty([w] + pieces) == if w == [] then NonEmpty(pieces) else [w] + NonEmpty(pieces)
  {
    assert ([w] + pieces)[1..] == pieces;
  }

  /** `filter(Boolean)` distributes over concatenation. */
  lemma {:induction false} NonEmptyAppend(a: seq<string>, b: seq<string>)
    ensures NonEmpty(a + b) == NonEmpty(a) + NonEmpty(b)
    decreases |a|
  {
    if a == [] {
      assert a + b == b;
      assert NonEmpty(a) == [];
    } else {
      var w, t := a[0], a[1..];
      assert a == [w] + t;
      assert a + b == [w] + (t + b);
      NonEmptyCons(w, t + b);
      NonEmptyCons(w, t);
      NonEmptyAppend(t, b);
      if w != [] {
        assert [w] + (NonEmpty(t) + NonEmpty(b)) == ([w] + NonEmpty(t)) + NonEmpty(b);
      }
    }
  }

  /** Collapsing a separator-free prefix leaves it in place. */
  lemma {:induction false} CollapsePrefix(w: string, x: string)
    requires forall i :: 0 <= i < |w| ==> !IsSeparator(w[i])
    ensures Collapse(w + x) == w + Collapse(x)
    decreases |w|
  {
    if w != [] {
      assert (w + x)[0] == w[0];
      assert (w + x)[1..] == w[1..] + x;
      CollapsePrefix(w[1..], x);
      assert w == [w[0]] + w[1..];
    } else {
      assert w + x == x;
    }
  }

  /** Text with no `.`, `_` or `-` is left as it is by the replacement. */
  lemma CollapseSeparatorFree(w: string)
    requires forall i :: 0 <= i < |w| ==> !IsSeparator(w[i])
    ensures Collapse(w) == w
  {
    CollapsePrefix(w, []);
    assert w + [] == w;
  }

  /** `run` consists of separators only. */
  predicate AllSeparators(run: string)
  {
    forall i :: 0 <= i < |run| ==> IsSeparator(run[i])
  }

  /** Skipping a run of separators that is followed by a non-separator lands right after it. */
  lemma {:induction false} SkipSeparatorRun(run: string, x: string)
    requires AllSeparators(run)
    requires x == [] || !IsSeparator(x[0])
    ensures SkipSeparators(run + x) == x
    decreases |run|
  {
    if run == [] {
      assert run + x == x;
    } else {
      assert (run + x)[0] == run[0];
      assert (run + x)[1..] == run[1..] + x;
      assert AllSeparators(run[1..]) by {
        forall i | 0 <= i < |run[1..]| ensures IsSeparator(run[1..][i]) {
          assert run[1..][i] == run[i + 1];
        }
      }
      SkipSeparatorRun(run[1..], x);
    }
  }

  /** A whole run of `.`, `_` and `-` becomes one space, however long it is. */
  lemma CollapseRun(run: string, x: string)
    requires run != [] && AllSeparators(run)
    requires x == [] || !IsSeparator(x[0])
    ensures Collapse(run + x) == " " + Collapse(x)
  {
    assert (run + x)[0] == run[0];
    assert (run + x)[1..] == run[1..] + x;
    assert AllSeparators(run[1..]) by {
      forall i | 0 <= i < |run[1..]| ensures IsSeparator(run[1..][i]) {
        assert run[1..][i] == run[i + 1];
      }
    }
    SkipSeparatorRun(run[1..], x);
  }

  /** A leading delimiter contributes no word. */
  lemma SplitWordsDropDelimiter(s: string)
    requires s != [] && IsDelimiter(s[0])
    ensures SplitWords(s) == SplitWords(s[1..])
  {
    if IsSeparator(s[0]) {
      var u := SkipSeparators(s[1..]);
      var cu := Collapse(u);
      assert Collapse(s) == [' '] + cu;
      assert Split([' '] + cu, ' ') == [[]] + Split(cu, ' ') by {
        assert ([' '] + cu)[1..] == cu;
      }
      NonEmptyCons([], Split(cu, ' '));
      if s[1..] != [] && IsSeparator(s[1]) {
        var v := SkipSeparators(s[2..]);
        assert s[1..][1..] == s[2..];
        assert u == v;
        assert Collapse(s[1..]) == [' '] + cu;
      } else {
        assert u == s[1..];
      }
    } else {
      var c := Collapse(s[1..]);
      assert Collapse(s) == [' '] + c;
      assert ([' '] + c)[1..] == c;
      assert Split([' '] + c, ' ') == [[]] + Split(c, ' ');
      NonEmptyCons([], Split(c, ' '));
    }
  }

  lemma {:induction false} SplitWordsSkipDelimiters(s: string)
    ensures SplitWords(SkipDelimiters(s)) == SplitWords(s)
    decreases |s|
  {
    if s != [] && IsDelimiter(s[0]) {
      SplitWordsDropDelimiter(s);
      SplitWordsSkipDelimiters(s[1..]);
    }
  }

  /** A leading word is the first of the words, and the rest come from what follows it. */
  lemma SplitWordsLeadingWord(s: string)
    requires s != [] && !IsDelimiter(s[0])
    ensures SplitWords(s) == [s[..WordLength(s)]] + SplitWords(s[WordLength(s)..])
  {
    var n := WordLength(s);
    var w, x := s[..n], s[n..];
    assert s == w + x;
    CollapsePrefix(w, x);
    var cx := Collapse(x);
    assert ' ' !in w by {
      forall k | 0 <= k < |w| ensures w[k] != ' ' { }
    }
    SplitPrefix(w, cx, ' ');
    var sx := Split(cx, ' ');
    assert cx == [] || cx[0] == ' ' by {
      if x != [] {
        assert IsDelimiter(x[0]);
      }
    }
    assert sx[0] == [];
    assert w + sx[0] == w;
    assert sx == [[]] + sx[1..];
    NonEmptyCons(w, sx[1..]);
    NonEmptyCons([], sx[1..]);
  }

  /** The replace / split / filter chain yields exactly the maximal delimiter-free runs. */
  lemma {:induction false} SplitWordsAreTokens(s: string)
    ensures SplitWords(s) == Tokens(s)
    decreases |s|
  {
    SplitWordsSkipDelimiters(s);
    var t := SkipDelimiters(s);
    if t == [] {
      assert Collapse([]) == [];
      assert Split([], ' ') == [[]];
      assert NonEmpty([[]]) == NonEmpty([]);
    } else {
      SplitWordsLeadingWord(t);
      SplitWordsAreTokens(t[WordLength(t)..]);
    }
  }

  /** Every word is non-empty and holds no `.`, `_`, `-`, space or `@`. */
  lemma WordsShape(raw: string)
    ensures forall i :: 0 <= i < |Words(raw)| ==> IsWord(Words(raw)[i]) && '@' !in Words(raw)[i]
  {
    SplitWordsAreTokens(LocalPart(raw));
    TokensAvoid(LocalPart(raw), '@');
  }

  /** Only the text before the first `@` matters: changing what follows it changes no word. */
  lemma WordsIgnoreDomain(local: string, domain1: string, domain2: string)
    requires '@' !in local
    ensures Words(local + "@" + domain1) == Words(local + "@" + domain2) == SplitWords(local)
  {
    LocalPartBeforeAt(local, domain1);
    LocalPartBeforeAt(local, domain2);
  }

  lemma LocalPartBeforeAt(local: string, domain: string)
    requires '@' !in local
    ensures LocalPart(local + "@" + domain) == local
  {
    var s := local + "@" + domain;
    var p := LocalPart(s);
    assert s[|local|] == '@';
    assert '@' in s;
    assert p == s[..|p|];
    assert s[..|local|] == local;
  }

  /** `details.max_participants - details.participants.length`, the "spots left" of a card. */
  function SpotsLeft(a: Activity): (spots: int)
    ensures spots <= a.maxParticipants
    ensures spots == a.maxParticipants <==> a.participants == []
    ensures spots <= 0 <==> |a.participants| >= a.maxParticipants
  {
    a.maxParticipants - |a.participants|
  }

  /** A successful signup takes exactly one spot, and a successful unregister frees one. */
  lemma SpotsAfterRequests(m: Activities, name: string, email: string)
    requires name in m
    ensures SignupStep(m, name, email).outcome.Ok? ==>
      SpotsLeft(SignupStep(m, name, email).activities[name]) == SpotsLeft(m[name]) - 1
    ensures UnregisterStep(m, name, email).outcome.Ok? ==>
      SpotsLeft(UnregisterStep(m, name, email).activities[name]) == SpotsLeft(m[name]) + 1
  {
  }

  /** Capacity is not enforced: a full activity still accepts a new email, and its count goes negative. */
  lemma CapacityNotEnforced(m: Activities, name: string, email: string)
    requires name in m && email !in m[name].participants && SpotsLeft(m[name]) <= 0
    ensures SignupStep(m, name, email).outcome.Ok?
    ensures SpotsLeft(SignupStep(m, name, email).activities[name]) < 0
  {
  }
}
