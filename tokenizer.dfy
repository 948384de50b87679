/** Splitting the pasted text into words: `value.trim().split(/\s+/)`.
    `Trim` models ECMAScript's `String.prototype.trim`, `Split` models
    `split(/\s+/)` on an arbitrary string, and `Tokenize` is their composition. */
module Tokenizer {

  /** The code points that ECMAScript's `\s` matches and that `trim` removes:
      the WhiteSpace production (tab, vertical tab, form feed, space, no-break
      space, the byte order mark and the space separators U+1680, U+2000 to
      U+200A, U+202F, U+205F, U+3000) and the LineTerminator production (line
      feed, carriage return, U+2028, U+2029). */
  const Whitespace: set<char> := {
    '\t', '\n', '\U{000B}', '\U{000C}', '\r', ' ', '\U{00A0}', '\U{1680}',
    '\U{2000}', '\U{2001}', '\U{2002}', '\U{2003}', '\U{2004}', '\U{2005}',
    '\U{2006}', '\U{2007}', '\U{2008}', '\U{2009}', '\U{200A}',
    '\U{2028}', '\U{2029}', '\U{202F}', '\U{205F}', '\U{3000}', '\U{FEFF}'
  }

  predicate IsWhitespace(c: char) {
    c in Whitespace
  }

  predicate AllWhitespace(s: string) {
    forall i :: 0 <= i < |s| ==> IsWhitespace(s[i])
  }

  predicate NoWhitespace(s: string) {
    forall i :: 0 <= i < |s| ==> !IsWhitespace(s[i])
  }

  /** The number of whitespace characters `s` starts with. */
  function Lead(s: string): (n: nat)
    ensures n <= |s|
    ensures forall i :: 0 <= i < n ==> IsWhitespace(s[i])
    ensures n < |s| ==> !IsWhitespace(s[n])
    decreases |s|
  {
    if s != [] && IsWhitespace(s[0]) then 1 + Lead(s[1..]) else 0
  }

  /** The number of whitespace characters `s` ends with. */
  function Trail(s: string): (n: nat)
    ensures n <= |s|
    ensures forall i :: |s| - n <= i < |s| ==> IsWhitespace(s[i])
    ensures n < |s| ==> !IsWhitespace(s[|s| - 1 - n])
    decreases |s|
  {
    if s != [] && IsWhitespace(s[|s| - 1]) then 1 + Trail(s[..|s| - 1]) else 0
  }

  /** `String.prototype.trim`: the result is the slice of `s` that starts
      after its leading whitespace, everything around it is whitespace, and it
      neither starts nor ends with whitespace; it is empty exactly when `s` is
      all whitespace. */
  function Trim(s: string): (r: string)
    ensures Lead(s) + |r| <= |s| && r == s[Lead(s)..Lead(s) + |r|]
    ensures forall i :: 0 <= i < |s| && !(Lead(s) <= i < Lead(s) + |r|) ==> IsWhitespace(s[i])
    ensures r != [] ==> !IsWhitespace(r[0]) && !IsWhitespace(r[|r| - 1])
    ensures r == [] <==> AllWhitespace(s)
  {
    var k := Lead(s);
    var t := s[k..];
    var r := t[..|t| - Trail(t)];
    assert forall i :: k + |r| <= i < |s| ==> s[i] == t[i - k];
    r
  }

  /** `s.split(/\s+/)`: every maximal run of whitespace separates two fields.
      A leading run gives an empty first field, a trailing run an empty last
      field, and the empty string gives the single field `""`. */
  function Split(s: string): (r: seq<string>)
    ensures |r| >= 1
    ensures forall i :: 0 <= i < |r| ==> NoWhitespace(r[i])
    decreases |s|
  {
    if s == [] then [""]
    else if IsWhitespace(s[0]) then [""] + Split(s[Lead(s)..])
    else
      var rest := Split(s[1..]);
      [[s[0]] + rest[0]] + rest[1..]
  }

  /** The separators that `Split` consumed, in order: each one a non-empty
      run of whitespace, one fewer than the fields. */
  function Gaps(s: string): (g: seq<string>)
    ensures |g| == |Split(s)| - 1
    ensures forall i :: 0 <= i < |g| ==> g[i] != [] && AllWhitespace(g[i])
    decreases |s|
  {
    if s == [] then []
    else if IsWhitespace(s[0]) then [s[..Lead(s)]] + Gaps(s[Lead(s)..])
    else Gaps(s[1..])
  }

  /** Interleaves fields and separators: `t0 + g0 + t1 + g1 + ... + tn`. */
  function Weave(tokens: seq<string>, gaps: seq<string>): string
    requires |tokens| == |gaps| + 1
  {
    if gaps == [] then tokens[0] else tokens[0] + gaps[0] + Weave(tokens[1..], gaps[1..])
  }

  /** `handleTextChange`'s word list: `value.trim().split(/\s+/)`. */
  function Tokenize(text: string): (r: seq<string>)
    ensures |r| >= 1
  {
    Split(Trim(text))
  }

  lemma WeavePrepend(x: string, tokens: seq<string>, gaps: seq<string>)
    requires |tokens| == |gaps| + 1
    ensures Weave([x + tokens[0]] + tokens[1..], gaps) == x + Weave(tokens, gaps)
  {
  }

  lemma WeaveLeadingGap(g: string, tokens: seq<string>, gaps: seq<string>)
    requires |tokens| == |gaps| + 1
    ensures Weave([""] + tokens, [g] + gaps) == g + Weave(tokens, gaps)
  {
  }

  /** Round trip: putting the separators back between the fields gives the
      original string, so the fields are the text's non-whitespace runs in
      source order. */
  lemma {:induction false} SplitThenWeave(s: string)
    ensures Weave(Split(s), Gaps(s)) == s
    decreases |s|
  {
    if s == [] {
    } else if IsWhitespace(s[0]) {
      var k := Lead(s);
      var t := s[k..];
      SplitThenWeave(t);
      WeaveLeadingGap(s[..k], Split(t), Gaps(t));
      assert s[..k] + t == s;
    } else {
      SplitThenWeave(s[1..]);
      WeavePrepend([s[0]], Split(s[1..]), Gaps(s[1..]));
      assert [s[0]] + s[1..] == s;
    }
  }

  /** The first field is non-empty exactly when `s` starts with a
      non-whitespace character, and every later field is non-empty when `s`
      does not end with whitespace. */
  lemma {:induction false} SplitFieldsNonEmpty(s: string)
    requires s == [] || !IsWhitespace(s[|s| - 1])
    ensures Split(s)[0] != [] <==> s != [] && !IsWhitespace(s[0])
    ensures forall i :: 1 <= i < |Split(s)| ==> Split(s)[i] != []
    decreases |s|
  {
    if s == [] {
    } else if IsWhitespace(s[0]) {
      var k := Lead(s);
      var t := s[k..];
      assert k < |s|;
      assert t[0] == s[k] && t[|t| - 1] == s[|s| - 1];
      SplitFieldsNonEmpty(t);
    } else {
      if |s| > 1 {
        assert s[1..][|s| - 2] == s[|s| - 1];
      }
      SplitFieldsNonEmpty(s[1..]);
    }
  }

  /** Text with no visible character gives the one-element list `[""]`, and
      only such text does. */
  lemma BlankText(text: string)
    ensures Tokenize(text) == [""] <==> AllWhitespace(text)
  {
    var t := Trim(text);
    if t != [] {
      SplitFieldsNonEmpty(t);
    }
  }

  /** Text with a visible character gives words that are non-empty, hold no
      whitespace, and interleaved with the separators rebuild the trimmed
      text in order. */
  lemma WordsOfText(text: string)
    requires !AllWhitespace(text)
    ensures forall i :: 0 <= i < |Tokenize(text)| ==> Tokenize(text)[i] != [] && NoWhitespace(Tokenize(text)[i])
    ensures Weave(Tokenize(text), Gaps(Trim(text))) == Trim(text)
  {
    SplitFieldsNonEmpty(Trim(text));
    SplitThenWeave(Trim(text));
  }

  /** The number of maximal runs of non-whitespace characters in `s`,
      counted where each run ends. */
  function RunCount(s: string): nat
    decreases |s|
  {
    if s == [] then 0
    else (if !IsWhitespace(s[0]) && (|s| == 1 || IsWhitespace(s[1])) then 1 else 0) + RunCount(s[1..])
  }

  /** Leading whitespace holds no run. */
  lemma {:induction false} RunCountDropWhitespace(s: string, k: nat)
    requires k <= |s|
    requires forall i :: 0 <= i < k ==> IsWhitespace(s[i])
    ensures RunCount(s[k..]) == RunCount(s)
    decreases k
  {
    if k > 0 {
      RunCountDropWhitespace(s[1..], k - 1);
      assert s[1..][k - 1..] == s[k..];
    }
  }

  /** Trailing whitespace holds no run. */
  lemma {:induction false} RunCountAppendWhitespace(t: string, w: string)
    requires AllWhitespace(w)
    ensures RunCount(t + w) == RunCount(t)
    decreases |t| + |w|
  {
    if t == [] {
      assert t + w == w;
      if w != [] {
        RunCountAppendWhitespace([], w[1..]);
        assert [] + w[1..] == w[1..];
      }
    } else {
      assert (t + w)[1..] == t[1..] + w;
      RunCountAppendWhitespace(t[1..], w);
      if |t| == 1 && w != [] {
        assert (t + w)[1] == w[0];
      } else if |t| > 1 {
        assert (t + w)[1] == t[1];
      }
    }
  }

  /** `Split` gives one field per run, plus an empty field for a leading and
      one for a trailing run of whitespace (or for the empty string). */
  lemma {:induction false} SplitCount(s: string)
    ensures |Split(s)| == RunCount(s)
      + (if s == [] || IsWhitespace(s[|s| - 1]) then 1 else 0)
      + (if s != [] && IsWhitespace(s[0]) then 1 else 0)
    decreases |s|
  {
    if s == [] {
    } else if IsWhitespace(s[0]) {
      var k := Lead(s);
      var t := s[k..];
      SplitCount(t);
      RunCountDropWhitespace(s, k);
      if t != [] {
        assert t[|t| - 1] == s[|s| - 1];
      }
    } else {
      SplitCount(s[1..]);
      if |s| > 1 {
        assert s[1..][0] == s[1] && s[1..][|s| - 2] == s[|s| - 1];
      }
    }
  }

  /** Trimming keeps every run. */
  lemma RunCountTrim(text: string)
    ensures RunCount(Trim(text)) == RunCount(text)
  {
    var k := Lead(text);
    var t := text[k..];
    var r := t[..|t| - Trail(t)];
    assert Trim(text) == r;
    RunCountDropWhitespace(text, k);
    assert t == r + t[|r|..];
    RunCountAppendWhitespace(r, t[|r|..]);
  }

  /** Text with a visible character gives exactly one word per maximal run
      of non-whitespace characters. */
  lemma WordCount(text: string)
    requires !AllWhitespace(text)
    ensures |Tokenize(text)| == RunCount(text)
  {
    var r := Trim(text);
    RunCountTrim(text);
    SplitCount(r);
  }
}
