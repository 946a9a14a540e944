/**
 * The text clean-up applied to every new todo: `sanitizeText` trims the
 * string and then replaces every run of whitespace by one space
 * (`text.trim().replace(/\s+/g, " ")`).
 *
 * `SanitizeText` follows that pipeline literally (TrimStart, TrimEnd,
 * Collapse).  `Words`/`JoinWords` give an independent description of the
 * same result -- "the whitespace-separated words, joined by single spaces" --
 * and `SanitizeEqualsJoinedWords` proves that the two agree on every input.
 */
module Text {

  /** The characters matched by the JavaScript class `\s`, which is also the
      set `String.prototype.trim` strips: WhiteSpace and LineTerminator. */
  predicate IsWhitespace(c: char) {
    || c == '\t' || c == '\n' || c == '\U{000B}' || c == '\U{000C}' || c == '\r'
    || c == ' ' || c == '\U{00A0}' || c == '\U{1680}'
    || ('\U{2000}' <= c <= '\U{200A}')
    || c == '\U{2028}' || c == '\U{2029}' || c == '\U{202F}' || c == '\U{205F}'
    || c == '\U{3000}' || c == '\U{FEFF}'
  }

  predicate AllWhitespace(s: string) {
    forall i :: 0 <= i < |s| ==> IsWhitespace(s[i])
  }

  predicate NoWhitespace(s: string) {
    forall i :: 0 <= i < |s| ==> !IsWhitespace(s[i])
  }

  /** Drops the leading whitespace: the result is the longest suffix of `s`
      that does not start with whitespace. */
  function TrimStart(s: string): (r: string)
    ensures |r| <= |s|
  {
    if s != [] && IsWhitespace(s[0]) then TrimStart(s[1..]) else s
  }

  /** Drops the trailing whitespace: the result is the longest prefix of `s`
      that does not end with whitespace. */
  function TrimEnd(s: string): (r: string)
    ensures |r| <= |s|
  {
    if s != [] && IsWhitespace(s[|s| - 1]) then TrimEnd(s[..|s| - 1]) else s
  }

  /** `String.prototype.trim`: the result is the middle part of `s` left
      after removing the whitespace run at each end; it is empty exactly for
      blank input and otherwise starts and ends with non-whitespace. */
  function Trim(s: string): (r: string)
    ensures var k := |s| - |TrimStart(s)|;
      && k + |r| <= |s| && r == s[k..k + |r|]
      && AllWhitespace(s[..k]) && AllWhitespace(s[k + |r|..])
    ensures r == [] <==> AllWhitespace(s)
    ensures r != [] ==> !IsWhitespace(r[0]) && !IsWhitespace(r[|r| - 1])
  {
    TrimPieces(s);
    TrimEnd(TrimStart(s))
  }

  /** `replace(/\s+/g, " ")`: scanning left to right, each maximal run of
      whitespace is replaced by a single space.  Afterwards the only
      whitespace is the plain space, no two whitespace characters are
      adjacent, and the result is empty, starts with whitespace or ends with
      whitespace exactly when the input does. */
  function Collapse(s: string): (r: string)
    ensures forall i :: 0 <= i < |r| && IsWhitespace(r[i]) ==> r[i] == ' '
    ensures forall i :: 0 <= i < |r| - 1 ==> !IsWhitespace(r[i]) || !IsWhitespace(r[i + 1])
    ensures r == [] <==> s == []
    ensures r != [] ==> (IsWhitespace(r[0]) <==> IsWhitespace(s[0]))
    ensures r != [] ==> (IsWhitespace(r[|r| - 1]) <==> IsWhitespace(s[|s| - 1]))
    decreases |s|
  {
    if s == [] then []
    else if IsWhitespace(s[0]) then
      TrimStartSpec(s[1..]);
      " " + Collapse(TrimStart(s[1..]))
    else [s[0]] + Collapse(s[1..])
  }

  /** `sanitizeText`.  The result has the sanitised shape and is empty
      exactly for blank input. */
  function SanitizeText(s: string): (r: string)
    ensures IsSanitized(r)
    ensures r == [] <==> AllWhitespace(s)
  {
    Collapse(Trim(s))
  }

  /** What a sanitised string looks like: no whitespace at either end, the
      only whitespace character is the plain space, and no two whitespace
      characters are adjacent. */
  predicate IsSanitized(t: string) {
    && (|t| > 0 ==> !IsWhitespace(t[0]) && !IsWhitespace(t[|t| - 1]))
    && (forall i :: 0 <= i < |t| && IsWhitespace(t[i]) ==> t[i] == ' ')
    && (forall i :: 0 <= i < |t| - 1 ==> !IsWhitespace(t[i]) || !IsWhitespace(t[i + 1]))
  }

  // ---------------------------------------------------------------------
  // Reference description: the words of the text joined by single spaces.

  /** The longest prefix of `s` without whitespace. */
  function TakeWord(s: string): (w: string)
    ensures |w| <= |s|
    ensures s != [] && !IsWhitespace(s[0]) ==> |w| > 0
  {
    if s != [] && !IsWhitespace(s[0]) then [s[0]] + TakeWord(s[1..]) else []
  }

  /** The maximal non-whitespace runs of `s`, left to right. */
  function Words(s: string): seq<string>
    decreases |s|
  {
    var t := TrimStart(s);
    if t == [] then []
    else
      var w := TakeWord(t);
      [w] + Words(t[|w|..])
  }

  function JoinWords(ws: seq<string>): string {
    if |ws| == 0 then []
    else if |ws| == 1 then ws[0]
    else ws[0] + " " + JoinWords(ws[1..])
  }

  // ---------------------------------------------------------------------
  // What each step of the pipeline removes and keeps.

  /** `TrimStart` removes exactly the leading whitespace run. */
  lemma {:induction false} TrimStartSpec(s: string)
    ensures var r := TrimStart(s);
      && r == s[|s| - |r|..]
      && (r == [] || !IsWhitespace(r[0]))
      && AllWhitespace(s[..|s| - |r|])
    decreases |s|
  {
    if s != [] && IsWhitespace(s[0]) {
      TrimStartSpec(s[1..]);
      var r := TrimStart(s);
      assert s[1..][|s| - 1 - |r|..] == s[|s| - |r|..];
      assert forall i :: 1 <= i < |s| - |r| ==> s[i] == s[1..][..|s| - 1 - |r|][i - 1];
    }
  }

  /** `TrimEnd` removes exactly the trailing whitespace run. */
  lemma {:induction false} TrimEndSpec(s: string)
    ensures var r := TrimEnd(s);
      && r == s[..|r|]
      && (r == [] || !IsWhitespace(r[|r| - 1]))
      && AllWhitespace(s[|r|..])
    decreases |s|
  {
    if s != [] && IsWhitespace(s[|s| - 1]) {
      TrimEndSpec(s[..|s| - 1]);
      var r := TrimEnd(s);
      assert s[..|s| - 1][..|r|] == s[..|r|];
      assert forall i :: |r| <= i < |s| - 1 ==> s[i] == s[..|s| - 1][|r|..][i - |r|];
    }
  }

  /** `TakeWord` takes exactly the leading non-whitespace run. */
  lemma {:induction false} TakeWordSpec(s: string)
    ensures var w := TakeWord(s);
      && w == s[..|w|]
      && NoWhitespace(w)
      && (|w| == |s| || IsWhitespace(s[|w|]))
    decreases |s|
  {
    if s != [] && !IsWhitespace(s[0]) {
      TakeWordSpec(s[1..]);
    }
  }

  /** `TrimEnd(TrimStart(s))` is the middle of `s` between its leading and
      trailing whitespace runs. */
  lemma TrimPieces(s: string)
    ensures var t := TrimStart(s); var r := TrimEnd(t); var k := |s| - |t|;
      && k + |r| <= |s| && r == s[k..k + |r|]
      && AllWhitespace(s[..k]) && AllWhitespace(s[k + |r|..])
      && (r == [] <==> AllWhitespace(s))
      && (r != [] ==> !IsWhitespace(r[0]) && !IsWhitespace(r[|r| - 1]))
  {
    var t := TrimStart(s);
    TrimStartSpec(s);
    TrimEndSpec(t);
    var r := TrimEnd(t);
    var k := |s| - |t|;
    assert s[k..] == t;
    assert s[k..][..|r|] == s[k..k + |r|];
    assert s[k..][|r|..] == s[k + |r|..];
    if r == [] {
      AllWhitespaceConcat(s[..k], s[k..]);
      assert s[..k] + s[k..] == s;
    } else {
      assert s[k] == r[0];
    }
  }

  lemma AllWhitespaceConcat(a: string, b: string)
    requires AllWhitespace(a) && AllWhitespace(b)
    ensures AllWhitespace(a + b)
  {
    assert forall i :: |a| <= i < |a + b| ==> (a + b)[i] == b[i - |a|];
  }

  lemma TrimStartOfTrimmed(s: string)
    requires s == [] || !IsWhitespace(s[0])
    ensures TrimStart(s) == s
  {
  }

  lemma TrimEndOfTrimmed(s: string)
    requires s == [] || !IsWhitespace(s[|s| - 1])
    ensures TrimEnd(s) == s
  {
  }

  lemma {:induction false} TrimEndOfBlank(s: string)
    requires AllWhitespace(s)
    ensures TrimEnd(s) == []
    decreases |s|
  {
    if s != [] {
      TrimEndOfBlank(s[..|s| - 1]);
    }
  }

  lemma TrimEndOfWordStart(s: string)
    requires s != [] && !IsWhitespace(s[0])
    ensures TrimEnd(s) != [] && TrimEnd(s)[0] == s[0]
  {
  }

  lemma WordsEmptyIff(s: string)
    ensures Words(s) == [] <==> AllWhitespace(s)
  {
    TrimStartSpec(s);
    var t := TrimStart(s);
    if t != [] {
      assert s[|s| - |t|..][0] == s[|s| - |t|];
    } else {
      assert s[..|s|] == s;
    }
  }

  lemma {:induction false} TrimStartSkipsRun(run: string, y: string)
    requires AllWhitespace(run)
    requires y == [] || !IsWhitespace(y[0])
    ensures TrimStart(run + y) == y
    decreases |run|
  {
    if run == [] {
      assert run + y == y;
    } else {
      assert (run + y)[1..] == run[1..] + y;
      TrimStartSkipsRun(run[1..], y);
    }
  }

  lemma {:induction false} TrimEndAppend(a: string, b: string)
    ensures TrimEnd(a + b) == if TrimEnd(b) == [] then TrimEnd(a) else a + TrimEnd(b)
    decreases |b|
  {
    if b == [] {
      assert a + b == a;
    } else if IsWhitespace(b[|b| - 1]) {
      assert (a + b)[..|a + b| - 1] == a + b[..|b| - 1];
      TrimEndAppend(a, b[..|b| - 1]);
    }
  }

  lemma {:induction false} CollapseWord(w: string, rest: string)
    requires NoWhitespace(w)
    ensures Collapse(w + rest) == w + Collapse(rest)
    decreases |w|
  {
    if w != [] {
      assert (w + rest)[1..] == w[1..] + rest;
      CollapseWord(w[1..], rest);
      assert [w[0]] + (w[1..] + Collapse(rest)) == w + Collapse(rest);
    } else {
      assert w + rest == rest;
    }
  }

  lemma CollapseRun(run: string, y: string)
    requires run != [] && AllWhitespace(run)
    requires y == [] || !IsWhitespace(y[0])
    ensures Collapse(run + y) == " " + Collapse(y)
  {
    assert (run + y)[1..] == run[1..] + y;
    TrimStartSkipsRun(run[1..], y);
  }

  lemma WordsOfWordFirst(t: string)
    requires t != [] && !IsWhitespace(t[0])
    ensures Words(t) == [TakeWord(t)] + Words(t[|TakeWord(t)|..])
  {
  }

  /** A word followed only by whitespace sanitises to the word. */
  lemma WordThenBlank(w: string, rest: string)
    requires w != [] && NoWhitespace(w) && AllWhitespace(rest)
    ensures Collapse(TrimEnd(w + rest)) == w
  {
    TrimEndAppend(w, rest);
    TrimEndOfBlank(rest);
    TrimEndOfTrimmed(w);
    CollapseWord(w, []);
    assert w + [] == w;
  }

  /** A word, a whitespace run and a text starting with a word: the run
      becomes one space. */
  lemma WordThenRun(w: string, run: string, r2: string)
    requires w != [] && NoWhitespace(w)
    requires run != [] && AllWhitespace(run)
    requires r2 != [] && !IsWhitespace(r2[0])
    ensures Collapse(TrimEnd(w + (run + r2))) == w + " " + Collapse(TrimEnd(r2))
  {
    var y := TrimEnd(r2);
    TrimEndOfWordStart(r2);
    TrimEndAppend(run, r2);
    assert TrimEnd(run + r2) == run + y;
    TrimEndAppend(w, run + r2);
    assert TrimEnd(w + (run + r2)) == w + (run + y);
    CollapseWord(w, run + y);
    CollapseRun(run, y);
  }

  /** The heart of the correspondence, for a text that starts with a word. */
  lemma {:induction false} CollapseTrimEndIsJoin(t: string)
    requires t == [] || !IsWhitespace(t[0])
    ensures Collapse(TrimEnd(t)) == JoinWords(Words(t))
    decreases |t|
  {
    if t != [] {
      var w := TakeWord(t);
      TakeWordSpec(t);
      var rest := t[|w|..];
      assert t == w + rest;
      WordsOfWordFirst(t);
      var r2 := TrimStart(rest);
      TrimStartSpec(rest);
      if r2 == [] {
        assert AllWhitespace(rest) by { assert rest[..|rest|] == rest; }
        WordsEmptyIff(rest);
        WordThenBlank(w, rest);
      } else {
        var run := rest[..|rest| - |r2|];
        assert rest == run + r2;
        assert run != [] by { assert rest[0] == t[|w|]; }
        WordThenRun(w, run, r2);
        CollapseTrimEndIsJoin(r2);
        TrimStartOfTrimmed(r2);
        assert Words(rest) == Words(r2);
        WordsEmptyIff(r2);
        assert Words(r2) != [] by { assert !IsWhitespace(r2[0]); }
        var ws := [w] + Words(r2);
        assert ws[1..] == Words(r2);
        assert JoinWords(ws) == w + " " + JoinWords(Words(r2));
      }
    }
  }

  /** `sanitizeText(s)` is the words of `s` joined by single spaces. */
  lemma SanitizeEqualsJoinedWords(s: string)
    ensures SanitizeText(s) == JoinWords(Words(s))
  {
    var t := TrimStart(s);
    TrimStartSpec(s);
    CollapseTrimEndIsJoin(t);
    TrimStartOfTrimmed(t);
    assert Words(t) == Words(s);
  }

  // ---------------------------------------------------------------------
  // Properties of sanitizeText.

  lemma {:induction false} CollapseOfSanitizedBody(t: string)
    requires forall i :: 0 <= i < |t| && IsWhitespace(t[i]) ==> t[i] == ' '
    requires forall i :: 0 <= i < |t| - 1 ==> !IsWhitespace(t[i]) || !IsWhitespace(t[i + 1])
    ensures Collapse(t) == t
    decreases |t|
  {
    if t != [] {
      if IsWhitespace(t[0]) {
        TrimStartOfTrimmed(t[1..]);
      }
      CollapseOfSanitizedBody(t[1..]);
      assert [t[0]] + t[1..] == t;
    }
  }

  /** Text that is already sanitised is left exactly as it is. */
  lemma SanitizedIsFixpoint(t: string)
    requires IsSanitized(t)
    ensures SanitizeText(t) == t
  {
    TrimStartOfTrimmed(t);
    CollapseOfSanitizedBody(t);
  }

  /** Sanitising twice is the same as sanitising once (the UI sanitises
      before dispatching `add`, and the reducer sanitises again). */
  lemma SanitizeIdempotent(s: string)
    ensures SanitizeText(SanitizeText(s)) == SanitizeText(s)
  {
    SanitizedIsFixpoint(SanitizeText(s));
  }

  /** Two words with whitespace around and between them sanitise to the two
      words separated by one space. */
  lemma SanitizeTwoWords(lead: string, w1: string, run: string, w2: string, trail: string)
    requires AllWhitespace(lead) && AllWhitespace(trail)
    requires run != [] && AllWhitespace(run)
    requires w1 != [] && NoWhitespace(w1) && w2 != [] && NoWhitespace(w2)
    ensures SanitizeText(lead + w1 + run + w2 + trail) == w1 + " " + w2
  {
    TrimTwoWords(lead, w1, run, w2, trail);
    CollapseTwoWords(w1, run, w2);
  }

  lemma TrimTwoWords(lead: string, w1: string, run: string, w2: string, trail: string)
    requires AllWhitespace(lead) && AllWhitespace(trail)
    requires w1 != [] && NoWhitespace(w1) && w2 != [] && NoWhitespace(w2)
    ensures TrimEnd(TrimStart(lead + w1 + run + w2 + trail)) == w1 + (run + w2)
  {
    var s := lead + w1 + run + w2 + trail;
    assert s == lead + (w1 + run + w2 + trail);
    TrimStartSkipsRun(lead, w1 + run + w2 + trail);
    assert w1 + run + w2 + trail == (w1 + run + w2) + trail;
    TrimEndAppend(w1 + run + w2, trail);
    TrimEndOfBlank(trail);
    TrimEndOfTrimmed(w1 + run + w2);
  }

  lemma CollapseTwoWords(w1: string, run: string, w2: string)
    requires run != [] && AllWhitespace(run)
    requires w1 != [] && NoWhitespace(w1) && w2 != [] && NoWhitespace(w2)
    ensures Collapse(w1 + (run + w2)) == w1 + " " + w2
  {
    CollapseWord(w1, run + w2);
    CollapseRun(run, w2);
    CollapseWord(w2, []);
    assert w2 + [] == w2;
  }
}
