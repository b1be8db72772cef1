/**
 The line splitter of the shell: `std::regex{R"(\s+)"}` driven by a
 `std::sregex_token_iterator` with submatch -1. The regular expression is not
 modelled as an engine; the split is stated directly over characters.

 With submatch -1 the iterator yields, for every (leftmost, greedy) match of
 `\s+`, the text before it; after the last match it yields the remaining text
 only when that text is non-empty; and a line with no match at all is yielded
 whole, even when it is empty. Hence `""` and `"  "` give `[""]`, `" ls"`
 gives `["", "ls"]` and `"ls  "` gives `["ls"]`.
 */
module Tokenizer {

  /**
   The `\s` class of the ECMAScript grammar in the classic locale: space and
   the five control characters tab, line feed, vertical tab, form feed and
   carriage return (codes 9 to 13).
   */
  function IsWhitespace(c: char): (b: bool)
    ensures b <==> c in {' ', '\t', '\n', '\U{000B}', '\U{000C}', '\r'}
  {
    c == ' ' || '\t' <= c <= '\r'
  }

  predicate NoWhitespace(s: string) {
    forall k :: 0 <= k < |s| ==> !IsWhitespace(s[k])
  }

  /** Where the leftmost match of `\s+` at or after `from` starts: the first whitespace position from `from` on, or `|s|` when there is none. */
  function WordEnd(s: string, from: nat): (n: nat)
    requires from <= |s|
    ensures from <= n <= |s|
    ensures forall k :: from <= k < n ==> !IsWhitespace(s[k])
    ensures n < |s| ==> IsWhitespace(s[n])
    decreases |s| - from
  {
    if from == |s| || IsWhitespace(s[from]) then from else WordEnd(s, from + 1)
  }

  /** Where a greedy `\s+` match that starts at `from` ends: the first non-whitespace position from `from` on, or `|s|`. */
  function SpaceEnd(s: string, from: nat): (n: nat)
    requires from <= |s|
    ensures from <= n <= |s|
    ensures forall k :: from <= k < n ==> IsWhitespace(s[k])
    ensures n < |s| ==> !IsWhitespace(s[n])
    decreases |s| - from
  {
    if from == |s| || !IsWhitespace(s[from]) then from else SpaceEnd(s, from + 1)
  }

  /** The shape of every token sequence the splitter produces. */
  predicate WellFormed(tokens: seq<string>) {
    && |tokens| >= 1
    && (forall k :: 0 <= k < |tokens| ==> NoWhitespace(tokens[k]))
    && (forall k :: 1 <= k < |tokens| ==> tokens[k] != [])
  }

  /**
   Mysh::TokenizeCommand. There is always at least one token, so reading
   `tokens[0]` is safe, the empty line included.
   */
  function Tokenize(line: string): (tokens: seq<string>)
    ensures |tokens| >= 1
    decreases |line|
  {
    var i := WordEnd(line, 0);
    if i == |line| then [line]
    else
      var j := SpaceEnd(line, i);
      [line[..i]] + (if j == |line| then [] else Tokenize(line[j..]))
  }

  /** The first token alone: the text before the leftmost match, or the whole line. */
  function FirstToken(line: string): string {
    line[..WordEnd(line, 0)]
  }

  /** FirstToken is the token that `tokens[0]` reads. */
  lemma FirstTokenIsHead(line: string)
    ensures Tokenize(line)[0] == FirstToken(line)
  {
  }

  /** One step of the split: the text before the leftmost match, then the split of what follows the match. */
  lemma TokenizeStep(line: string, i: nat, j: nat)
    requires i == WordEnd(line, 0) < |line|
    requires j == SpaceEnd(line, i)
    ensures i < j <= |line|
    ensures NoWhitespace(line[..i])
    ensures Tokenize(line) == [line[..i]] + (if j == |line| then [] else Tokenize(line[j..]))
  {
  }

  /** The first token is empty exactly when the line is empty or starts with whitespace. */
  lemma FirstTokenEmptyIff(line: string)
    ensures Tokenize(line)[0] == [] <==> (line == [] || IsWhitespace(line[0]))
  {
  }

  /** A line is returned as its only token exactly when it holds no whitespace. */
  lemma SingleTokenIff(line: string)
    ensures Tokenize(line) == [line] <==> NoWhitespace(line)
  {
    var i := WordEnd(line, 0);
    if i < |line| {
      assert |Tokenize(line)[0]| < |line|;
    }
  }

  lemma WellFormedCons(w: string, tail: seq<string>)
    requires NoWhitespace(w) && WellFormed(tail) && tail[0] != []
    ensures WellFormed([w] + tail)
  {
  }

  /** Every split is well formed: no token holds whitespace, and only the first token can be empty. */
  lemma {:induction false} TokenizeWellFormed(line: string)
    ensures WellFormed(Tokenize(line))
    decreases |line|
  {
    var i := WordEnd(line, 0);
    if i == |line| {
      assert NoWhitespace(line);
    } else {
      var j := SpaceEnd(line, i);
      TokenizeStep(line, i, j);
      if j < |line| {
        var rest := line[j..];
        TokenizeWellFormed(rest);
        FirstTokenEmptyIff(rest);
        WellFormedCons(line[..i], Tokenize(rest));
      }
    }
  }

  /** The characters of `s` that are not whitespace, in order. */
  function RemoveWhitespace(s: string): string {
    if s == [] then []
    else if IsWhitespace(s[0]) then RemoveWhitespace(s[1..])
    else [s[0]] + RemoveWhitespace(s[1..])
  }

  /** The tokens laid end to end. */
  function Concat(tokens: seq<string>): string {
    if tokens == [] then [] else tokens[0] + Concat(tokens[1..])
  }

  /** The tokens joined by single spaces: the canonical line for a token sequence. */
  function Join(tokens: seq<string>): string
    requires |tokens| >= 1
  {
    if |tokens| == 1 then tokens[0] else tokens[0] + [' '] + Join(tokens[1..])
  }

  lemma {:induction false} RemoveWhitespaceOfWord(w: string, rest: string)
    requires NoWhitespace(w)
    ensures RemoveWhitespace(w + rest) == w + RemoveWhitespace(rest)
    decreases |w|
  {
    if w != [] {
      assert (w + rest)[0] == w[0];
      assert (w + rest)[1..] == w[1..] + rest;
      RemoveWhitespaceOfWord(w[1..], rest);
    } else {
      assert w + rest == rest;
    }
  }

  lemma {:induction false} RemoveWhitespaceOfSpace(line: string, lo: nat, hi: nat)
    requires lo <= hi <= |line|
    requires forall k :: lo <= k < hi ==> IsWhitespace(line[k])
    ensures RemoveWhitespace(line[lo..]) == RemoveWhitespace(line[hi..])
    decreases hi - lo
  {
    if lo < hi {
      assert line[lo..][1..] == line[lo + 1..];
      RemoveWhitespaceOfSpace(line, lo + 1, hi);
    }
  }

  /** Splitting loses exactly the whitespace: the tokens laid end to end are the line without its whitespace. */
  lemma {:induction false} TokenizeKeepsText(line: string)
    ensures Concat(Tokenize(line)) == RemoveWhitespace(line)
    decreases |line|
  {
    var i := WordEnd(line, 0);
    if i == |line| {
      RemoveWhitespaceOfWord(line, []);
      assert line + [] == line;
      assert Concat([line]) == line + Concat([]);
    } else {
      var j := SpaceEnd(line, i);
      TokenizeStep(line, i, j);
      var w, rest := line[..i], line[j..];
      assert line == w + line[i..];
      RemoveWhitespaceOfWord(w, line[i..]);
      RemoveWhitespaceOfSpace(line, i, j);
      var tail := if j == |line| then [] else Tokenize(rest);
      assert ([w] + tail)[1..] == tail;
      if j < |line| {
        TokenizeKeepsText(rest);
      } else {
        assert rest == [];
      }
    }
  }

  lemma WordEndOf(w: string, rest: string)
    requires NoWhitespace(w)
    requires rest == [] || IsWhitespace(rest[0])
    ensures WordEnd(w + rest, 0) == |w|
  {
    assert forall k :: 0 <= k < |w| ==> (w + rest)[k] == w[k];
    if rest != [] {
      assert (w + rest)[|w|] == rest[0];
    }
  }

  lemma SpaceEndOfOne(w: string, rest: string)
    requires rest != [] && !IsWhitespace(rest[0])
    ensures SpaceEnd(w + ([' '] + rest), |w|) == |w| + 1
  {
  }

  /**
   The line with every run of whitespace that is followed by more text
   replaced by one space, and a run at the end of the line dropped.
   */
  function Collapse(s: string): string
    decreases |s|
  {
    if s == [] then []
    else if !IsWhitespace(s[0]) then [s[0]] + Collapse(s[1..])
    else if forall k :: 0 <= k < |s| ==> IsWhitespace(s[k]) then []
    else if |s| > 1 && IsWhitespace(s[1]) then Collapse(s[1..])
    else [' '] + Collapse(s[1..])
  }

  lemma {:induction false} CollapseOfWord(w: string, rest: string)
    requires NoWhitespace(w)
    ensures Collapse(w + rest) == w + Collapse(rest)
    decreases |w|
  {
    if w != [] {
      assert (w + rest)[0] == w[0];
      assert (w + rest)[1..] == w[1..] + rest;
      CollapseOfWord(w[1..], rest);
    } else {
      assert w + rest == rest;
    }
  }

  lemma {:induction false} CollapseOfSpace(line: string, lo: nat, hi: nat)
    requires lo < hi < |line|
    requires forall k :: lo <= k < hi ==> IsWhitespace(line[k])
    requires !IsWhitespace(line[hi])
    ensures Collapse(line[lo..]) == [' '] + Collapse(line[hi..])
    decreases hi - lo
  {
    var s := line[lo..];
    assert s[hi - lo] == line[hi];
    assert s[1..] == line[lo + 1..];
    if lo + 1 < hi {
      CollapseOfSpace(line, lo + 1, hi);
    }
  }

  /** A run of whitespace at the end of the line collapses to nothing. */
  lemma CollapseOfTrailingSpace(line: string, lo: nat)
    requires lo < |line|
    requires forall k :: lo <= k < |line| ==> IsWhitespace(line[k])
    ensures Collapse(line[lo..]) == []
  {
    var s := line[lo..];
    assert forall k :: 0 <= k < |s| ==> s[k] == line[lo + k];
  }

  lemma JoinCons(w: string, tail: seq<string>)
    requires |tail| >= 1
    ensures Join([w] + tail) == w + [' '] + Join(tail)
  {
    assert ([w] + tail)[1..] == tail;
  }

  /**
   Splitting and then joining with single spaces collapses every inner run
   of whitespace to one space and drops a trailing run: each run of
   whitespace followed by more text is a split point, and nothing else is.
   */
  lemma {:induction false} JoinTokenize(line: string)
    ensures Join(Tokenize(line)) == Collapse(line)
    decreases |line|
  {
    var i := WordEnd(line, 0);
    if i == |line| {
      assert NoWhitespace(line);
      CollapseOfWord(line, []);
      assert line + [] == line;
    } else {
      var j := SpaceEnd(line, i);
      TokenizeStep(line, i, j);
      var w := line[..i];
      assert line == w + line[i..];
      CollapseOfWord(w, line[i..]);
      if j == |line| {
        CollapseOfTrailingSpace(line, i);
        assert w + [] == w;
      } else {
        var rest := line[j..];
        CollapseOfSpace(line, i, j);
        JoinTokenize(rest);
        JoinCons(w, Tokenize(rest));
      }
    }
  }

  lemma {:induction false} JoinStart(tokens: seq<string>)
    requires |tokens| >= 1 && tokens[0] != []
    ensures Join(tokens) != [] && Join(tokens)[0] == tokens[0][0]
  {
  }

  /**
   Splitting undoes joining: every well-formed token sequence is recovered
   from its single-space join, so WellFormed describes the splitter's range exactly.
   */
  lemma {:induction false} TokenizeJoin(tokens: seq<string>)
    requires WellFormed(tokens)
    ensures Tokenize(Join(tokens)) == tokens
    decreases |tokens|
  {
    var w := tokens[0];
    if |tokens| == 1 {
      WordEndOf(w, []);
      assert w + [] == w;
    } else {
      var tail := tokens[1..];
      assert WellFormed(tail) by {
        forall k | 0 <= k < |tail| ensures NoWhitespace(tail[k]) && (k >= 1 ==> tail[k] != []) {
          assert tail[k] == tokens[k + 1];
        }
      }
      var rest := Join(tail);
      JoinStart(tail);
      var line := Join(tokens);
      assert line == w + ([' '] + rest);
      WordEndOf(w, [' '] + rest);
      SpaceEndOfOne(w, rest);
      TokenizeStep(line, |w|, |w| + 1);
      assert line[|w| + 1..] == rest;
      assert line[..|w|] == w;
      TokenizeJoin(tail);
    }
  }
}
