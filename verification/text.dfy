/** Prompt text in canonical form: for ASCII, the lowercase words of the text
    joined by single spaces. */
module Text {
  /** The ASCII characters that Python treats as whitespace. */
  predicate IsSpace(c: char) {
    c == ' ' || '\t' <= c <= '\r' || 28 as char <= c <= 31 as char
  }

  function LowerChar(c: char): char {
    if 'A' <= c <= 'Z' then c - 'A' + 'a' else c
  }

  function Lower(s: string): string {
    seq(|s|, i requires 0 <= i < |s| => LowerChar(s[i]))
  }

  function SkipSpaces(s: string): string {
    if s != [] && IsSpace(s[0]) then SkipSpaces(s[1..]) else s
  }

  function DropTrailingSpaces(s: string): string {
    if s != [] && IsSpace(s[|s| - 1]) then DropTrailingSpaces(s[..|s| - 1]) else s
  }

  function Strip(s: string): string {
    DropTrailingSpaces(SkipSpaces(s))
  }

  lemma {:induction false} SkipSpacesShrinks(s: string)
    ensures |SkipSpaces(s)| <= |s|
    ensures SkipSpaces(s) != [] ==> !IsSpace(SkipSpaces(s)[0])
    ensures s != [] && !IsSpace(s[|s| - 1]) ==>
      SkipSpaces(s) != [] && SkipSpaces(s)[|SkipSpaces(s)| - 1] == s[|s| - 1]
  {
    if s != [] && IsSpace(s[0]) {
      SkipSpacesShrinks(s[1..]);
    }
  }

  /** Every run of whitespace becomes one space. */
  function Collapse(s: string): string
    decreases |s|
  {
    if s == [] then []
    else if IsSpace(s[0]) then
      SkipSpacesShrinks(s[1..]);
      " " + Collapse(SkipSpaces(s[1..]))
    else [s[0]] + Collapse(s[1..])
  }

  function Normalize(value: string): string {
    Collapse(Lower(Strip(value)))
  }

  // ---------- Words ----------

  /** The length of the word `s` starts with. */
  function WordEnd(s: string): (n: nat)
    ensures n <= |s|
    ensures s != [] && !IsSpace(s[0]) ==> n > 0
  {
    if s == [] || IsSpace(s[0]) then 0 else 1 + WordEnd(s[1..])
  }

  function Words(s: string): seq<string>
    decreases |s|
  {
    if s == [] then []
    else if IsSpace(s[0]) then Words(s[1..])
    else [s[..WordEnd(s)]] + Words(s[WordEnd(s)..])
  }

  function Join(ws: seq<string>): string {
    if ws == [] then ""
    else if |ws| == 1 then ws[0]
    else ws[0] + " " + Join(ws[1..])
  }

  /** What two texts must share to share a canonical form. */
  function LowerWords(s: string): seq<string> {
    Words(Lower(s))
  }

  predicate IsWord(w: string) {
    w != [] && forall i :: 0 <= i < |w| ==> !IsSpace(w[i])
  }

  ghost predicate AreWords(ws: seq<string>) {
    forall i :: 0 <= i < |ws| ==> IsWord(ws[i])
  }

  lemma {:induction false} WordEndFacts(s: string)
    ensures forall i :: 0 <= i < WordEnd(s) ==> !IsSpace(s[i])
    ensures WordEnd(s) < |s| ==> IsSpace(s[WordEnd(s)])
  {
    if s != [] && !IsSpace(s[0]) {
      WordEndFacts(s[1..]);
    }
  }

  lemma {:induction false} WordsAreWords(s: string)
    ensures AreWords(Words(s))
    decreases |s|
  {
    if s != [] {
      WordEndFacts(s);
      WordsAreWords(if IsSpace(s[0]) then s[1..] else s[WordEnd(s)..]);
    }
  }

  lemma {:induction false} WordsSkipSpaces(s: string)
    ensures Words(SkipSpaces(s)) == Words(s)
  {
    if s != [] && IsSpace(s[0]) {
      WordsSkipSpaces(s[1..]);
    }
  }

  /** A word followed by whitespace is the first word. */
  lemma {:induction false} WordThen(w: string, rest: string)
    requires IsWord(w) && (rest == [] || IsSpace(rest[0]))
    ensures WordEnd(w + rest) == |w| && Words(w + rest) == [w] + Words(rest)
  {
    var s := w + rest;
    assert s[1..] == w[1..] + rest;
    if |w| == 1 {
      assert s[1..] == rest;
    } else {
      assert forall i :: 0 <= i < |w[1..]| ==> w[1..][i] == w[i + 1];
      WordThen(w[1..], rest);
    }
    assert s[..|w|] == w && s[|w|..] == rest;
  }

  lemma {:induction false} WordsDropTrailing(s: string)
    ensures Words(DropTrailingSpaces(s)) == Words(s)
  {
    if s != [] && IsSpace(s[|s| - 1]) {
      WordsDropTrailing(s[..|s| - 1]);
      WordsAppendSpace(s[..|s| - 1], s[|s| - 1]);
      assert s == s[..|s| - 1] + [s[|s| - 1]];
    }
  }

  lemma {:induction false} WordsAppendSpace(s: string, c: char)
    requires IsSpace(c)
    ensures Words(s + [c]) == Words(s)
    decreases |s|
  {
    if s == [] {
      assert s + [c] == [c] && [c][1..] == [];
    } else if IsSpace(s[0]) {
      assert (s + [c])[1..] == s[1..] + [c];
      WordsAppendSpace(s[1..], c);
    } else {
      var n := WordEnd(s);
      WordEndFacts(s);
      assert s == s[..n] + s[n..] && s + [c] == s[..n] + (s[n..] + [c]);
      WordThen(s[..n], s[n..] + [c]);
      WordsAppendSpace(s[n..], c);
    }
  }

  /** Splitting undoes joining. */
  lemma {:induction false} WordsOfJoin(ws: seq<string>)
    requires AreWords(ws)
    ensures Words(Join(ws)) == ws
  {
    if |ws| == 1 {
      WordThen(ws[0], "");
      assert ws[0] + "" == ws[0];
    } else if ws != [] {
      var rest := " " + Join(ws[1..]);
      assert Join(ws) == ws[0] + rest;
      WordThen(ws[0], rest);
      WordsOfJoin(ws[1..]);
      assert rest[1..] == Join(ws[1..]);
    }
  }

  // ---------- Normalization is joining the words ----------

  lemma {:induction false} CollapseWord(w: string, rest: string)
    requires forall i :: 0 <= i < |w| ==> !IsSpace(w[i])
    ensures Collapse(w + rest) == w + Collapse(rest)
  {
    if w == [] {
      assert w + rest == rest;
    } else {
      assert (w + rest)[1..] == w[1..] + rest;
      CollapseWord(w[1..], rest);
      assert w == [w[0]] + w[1..];
    }
  }

  predicate Stripped(s: string) {
    s != [] ==> !IsSpace(s[0]) && !IsSpace(s[|s| - 1])
  }

  lemma {:induction false} CollapseIsJoin(s: string)
    requires Stripped(s)
    ensures Collapse(s) == Join(Words(s))
    decreases |s|
  {
    if s != [] {
      var n := WordEnd(s);
      var w, rest := s[..n], s[n..];
      WordEndFacts(s);
      assert s == w + rest;
      CollapseWord(w, rest);
      WordThen(w, rest);
      if rest == [] {
        assert w + Collapse(rest) == w;
      } else {
        var next := SkipSpaces(rest[1..]);
        assert rest[|rest| - 1] == s[|s| - 1];
        SkipSpacesShrinks(rest[1..]);
        WordsSkipSpaces(rest[1..]);
        CollapseIsJoin(next);
        assert Words(next) != [];
        assert ([w] + Words(next))[1..] == Words(next);
      }
    }
  }

  lemma {:induction false} DropTrailingStrips(s: string)
    requires s != [] ==> !IsSpace(s[0])
    ensures Stripped(DropTrailingSpaces(s))
  {
    if s != [] && IsSpace(s[|s| - 1]) {
      DropTrailingStrips(s[..|s| - 1]);
    }
  }

  lemma LowerSpace(c: char)
    ensures IsSpace(LowerChar(c)) <==> IsSpace(c)
    ensures LowerChar(LowerChar(c)) == LowerChar(c)
  {
  }

  lemma {:induction false} LowerSkips(s: string)
    ensures Lower(SkipSpaces(s)) == SkipSpaces(Lower(s))
  {
    if s != [] {
      LowerSpace(s[0]);
      if IsSpace(s[0]) {
        LowerSkips(s[1..]);
        assert Lower(s)[1..] == Lower(s[1..]);
      }
    }
  }

  lemma {:induction false} LowerDrops(s: string)
    ensures Lower(DropTrailingSpaces(s)) == DropTrailingSpaces(Lower(s))
  {
    if s != [] {
      LowerSpace(s[|s| - 1]);
      if IsSpace(s[|s| - 1]) {
        LowerDrops(s[..|s| - 1]);
        assert Lower(s)[..|s| - 1] == Lower(s[..|s| - 1]);
      }
    }
  }

  /** The canonical form is the lowercase words joined by single spaces. */
  lemma NormalizeIsJoin(s: string)
    ensures Normalize(s) == Join(LowerWords(s))
  {
    LowerDrops(SkipSpaces(s));
    LowerSkips(s);
    var skipped := SkipSpaces(Lower(s));
    SkipSpacesShrinks(Lower(s));
    DropTrailingStrips(skipped);
    CollapseIsJoin(DropTrailingSpaces(skipped));
    WordsDropTrailing(skipped);
    WordsSkipSpaces(Lower(s));
  }

  /** Normalizing keeps the lowercase words. */
  lemma NormalizeKeepsWords(s: string)
    ensures LowerWords(Normalize(s)) == LowerWords(s)
  {
    NormalizeIsJoin(s);
    WordsAreWords(Lower(s));
    assert IsLower(Lower(s)) by {
      forall i | 0 <= i < |s| ensures LowerChar(LowerChar(s[i])) == LowerChar(s[i]) {
        LowerSpace(s[i]);
      }
    }
    LowerWordsAreLower(Lower(s));
    JoinIsLower(LowerWords(s));
    WordsOfJoin(LowerWords(s));
  }

  predicate IsLower(s: string) {
    forall i :: 0 <= i < |s| ==> LowerChar(s[i]) == s[i]
  }

  lemma {:induction false} LowerWordsAreLower(s: string)
    requires IsLower(s)
    ensures forall i :: 0 <= i < |Words(s)| ==> IsLower(Words(s)[i])
    decreases |s|
  {
    if s != [] {
      LowerWordsAreLower(if IsSpace(s[0]) then s[1..] else s[WordEnd(s)..]);
    }
  }

  lemma {:induction false} JoinIsLower(ws: seq<string>)
    requires forall i :: 0 <= i < |ws| ==> IsLower(ws[i])
    ensures IsLower(Join(ws)) && Lower(Join(ws)) == Join(ws)
  {
    if |ws| > 1 {
      JoinIsLower(ws[1..]);
    }
  }

  /** The second normalization changes nothing. */
  lemma NormalizeIdempotent(s: string)
    ensures Normalize(Normalize(s)) == Normalize(s)
  {
    NormalizeIsJoin(s);
    NormalizeIsJoin(Normalize(s));
    NormalizeKeepsWords(s);
  }

  /** Two texts share a canonical form exactly when they have the same
      lowercase words in the same order. */
  lemma NormalizeSeparates(s: string, t: string)
    ensures Normalize(s) == Normalize(t) <==> LowerWords(s) == LowerWords(t)
  {
    NormalizeIsJoin(s);
    NormalizeIsJoin(t);
    NormalizeKeepsWords(s);
    NormalizeKeepsWords(t);
  }

  // ---------- What is compared, without canonical forms ----------

  /** Words before whitespace are followed by those after it. */
  lemma {:induction false} WordsBefore(a: string, tail: string)
    requires tail != [] && IsSpace(tail[0])
    ensures Words(a + tail) == Words(a) + Words(tail)
    decreases |a|
  {
    if a == [] {
      assert a + tail == tail;
    } else if IsSpace(a[0]) {
      assert (a + tail)[1..] == a[1..] + tail;
      WordsBefore(a[1..], tail);
    } else {
      var n := WordEnd(a);
      WordEndFacts(a);
      WordsBefore(a[n..], tail);
      FirstWord(a[..n], a[n..], tail);
      assert a == a[..n] + a[n..];
    }
  }

  lemma FirstWord(w: string, rest: string, tail: string)
    requires IsWord(w) && (rest + tail == [] || IsSpace((rest + tail)[0]))
    ensures Words(w + rest + tail) == [w] + Words(rest + tail)
  {
    WordThen(w, rest + tail);
    assert w + rest + tail == w + (rest + tail);
  }

  /** Words are what whitespace separates. With `WordThen` for a single word, this
      says what the words of any text are. */
  lemma WordsSplit(a: string, c: char, b: string)
    requires IsSpace(c)
    ensures Words(a + [c] + b) == Words(a) + Words(b)
  {
    var tail := [c] + b;
    assert tail[1..] == b && a + [c] + b == a + tail;
    WordsBefore(a, tail);
  }

  /** The same character, or the two cases of one letter. */
  predicate SameLetter(c: char, d: char) {
    || c == d
    || ('A' <= c <= 'Z' && 'a' <= d <= 'z' && c - 'A' == d - 'a')
    || ('a' <= c <= 'z' && 'A' <= d <= 'Z' && c - 'a' == d - 'A')
  }

  predicate SameLetters(s: string, t: string) {
    |s| == |t| && forall i :: 0 <= i < |s| ==> SameLetter(s[i], t[i])
  }

  lemma LowerCompares(s: string, t: string)
    ensures Lower(s) == Lower(t) <==> SameLetters(s, t)
  {
    if Lower(s) == Lower(t) {
      assert |s| == |Lower(s)| == |t|;
      forall i | 0 <= i < |s| ensures SameLetter(s[i], t[i]) {
        assert Lower(s)[i] == LowerChar(s[i]) && Lower(t)[i] == LowerChar(t[i]);
      }
    }
  }

  lemma {:induction false} LowerKeepsWordEnd(s: string)
    ensures WordEnd(Lower(s)) == WordEnd(s)
  {
    if s != [] && !IsSpace(s[0]) {
      LowerKeepsWordEnd(s[1..]);
      assert Lower(s)[1..] == Lower(s[1..]);
    }
  }

  lemma {:induction false} LowerOfWords(s: string)
    ensures |LowerWords(s)| == |Words(s)|
    ensures forall i :: 0 <= i < |Words(s)| ==> LowerWords(s)[i] == Lower(Words(s)[i])
    decreases |s|
  {
    if s != [] {
      LowerSpace(s[0]);
      if IsSpace(s[0]) {
        assert Lower(s)[1..] == Lower(s[1..]);
        LowerOfWords(s[1..]);
      } else {
        var n := WordEnd(s);
        LowerKeepsWordEnd(s);
        assert Lower(s)[n..] == Lower(s[n..]) && Lower(s)[..n] == Lower(s[..n]);
        LowerOfWords(s[n..]);
      }
    }
  }

  /** Two texts share a canonical form exactly if they have as many words, and each
      has the letters of its partner but for their case. */
  lemma NormalizeCompares(s: string, t: string)
    ensures Normalize(s) == Normalize(t) <==>
      |Words(s)| == |Words(t)| && forall i :: 0 <= i < |Words(s)| ==> SameLetters(Words(s)[i], Words(t)[i])
  {
    var v, w := LowerWords(s), LowerWords(t);
    NormalizeSeparates(s, t);
    LowerOfWords(s);
    LowerOfWords(t);
    forall i | 0 <= i < |v| && |v| == |w| ensures v[i] == w[i] <==> SameLetters(Words(s)[i], Words(t)[i]) {
      LowerCompares(Words(s)[i], Words(t)[i]);
    }
    if |v| == |w| && forall i :: 0 <= i < |v| ==> v[i] == w[i] {
      assert v == w;
    }
  }
}
