/** Whitespace tokenising of an instruction line, as done by Rust's
    `str::split_whitespace`: the line is cut at every maximal run of
    whitespace, and the non-empty pieces between the runs are the tokens. */
module Tokenizer {

  /** The Unicode White_Space property, which is what Rust's
      `char::is_whitespace` (and so `split_whitespace`) tests. */
  predicate IsWhitespace(c: char) {
    ('\U{0009}' <= c <= '\U{000D}') || c == ' ' || c == '\U{0085}' || c == '\U{00A0}' ||
    c == '\U{1680}' || ('\U{2000}' <= c <= '\U{200A}') || c == '\U{2028}' || c == '\U{2029}' ||
    c == '\U{202F}' || c == '\U{205F}' || c == '\U{3000}'
  }

  /** A token: a non-empty string without whitespace. */
  predicate IsWord(w: string) {
    |w| > 0 && forall i :: 0 <= i < |w| ==> !IsWhitespace(w[i])
  }

  /** Length of the longest whitespace-free prefix of `s`. */
  function WordLength(s: string): (n: nat)
    ensures n <= |s|
    ensures forall i :: 0 <= i < n ==> !IsWhitespace(s[i])
    ensures n < |s| ==> IsWhitespace(s[n])
  {
    if s == [] || IsWhitespace(s[0]) then 0 else 1 + WordLength(s[1..])
  }

  /** The tokens of `s`, in order. */
  function Tokens(s: string): (ts: seq<string>)
    ensures forall k :: 0 <= k < |ts| ==> IsWord(ts[k])
    ensures |ts| <= |s|
    decreases |s|
  {
    if s == [] then []
    else if IsWhitespace(s[0]) then Tokens(s[1..])
    else
      var n := WordLength(s);
      [s[..n]] + Tokens(s[n..])
  }

  /** The tokens joined back together with single spaces. */
  function Join(ts: seq<string>): string
  {
    if |ts| == 0 then ""
    else if |ts| == 1 then ts[0]
    else ts[0] + " " + Join(ts[1..])
  }

  /** A line has no tokens exactly when it is all whitespace (or empty). */
  lemma {:induction false} NoTokensIffBlank(s: string)
    ensures Tokens(s) == [] <==> forall i :: 0 <= i < |s| ==> IsWhitespace(s[i])
    decreases |s|
  {
    if s != [] && IsWhitespace(s[0]) {
      NoTokensIffBlank(s[1..]);
      if Tokens(s) == [] {
        forall i | 0 <= i < |s| ensures IsWhitespace(s[i]) {
          if i > 0 { assert s[i] == s[1..][i - 1]; }
        }
      }
      if forall i :: 0 <= i < |s| ==> IsWhitespace(s[i]) {
        forall i | 0 <= i < |s[1..]| ensures IsWhitespace(s[1..][i]) {
          assert s[1..][i] == s[i + 1];
        }
      }
    }
  }

  /** A whitespace-free prefix stays the first word when more text follows
      a whitespace character. */
  lemma {:induction false} WordLengthOfAppend(a: string, b: string)
    requires |b| > 0 && IsWhitespace(b[0])
    ensures WordLength(a + b) == WordLength(a)
    decreases |a|
  {
    if a != [] && !IsWhitespace(a[0]) {
      assert (a + b)[1..] == a[1..] + b;
      WordLengthOfAppend(a[1..], b);
    }
  }

  /** Cutting a line at one whitespace character splits its tokens there:
      whitespace separates tokens and is never part of one. */
  lemma {:induction false} TokensOfSplit(a: string, c: char, b: string)
    requires IsWhitespace(c)
    ensures Tokens(a + [c] + b) == Tokens(a) + Tokens(b)
    decreases |a|
  {
    var x := a + [c] + b;
    if a == [] {
      assert x[1..] == b;
    } else if IsWhitespace(a[0]) {
      assert x[1..] == a[1..] + [c] + b;
      TokensOfSplit(a[1..], c, b);
    } else {
      WordLengthOfAppend(a, [c] + b);
      assert x == a + ([c] + b);
      var n := WordLength(a);
      assert x[..n] == a[..n];
      assert x[n..] == a[n..] + [c] + b;
      TokensOfSplit(a[n..], c, b);
    }
  }

  /** A single word is its own and only token. */
  lemma WordIsOneToken(w: string)
    requires IsWord(w)
    ensures Tokens(w) == [w]
  {
    assert WordLength(w) == |w|;
    assert w[..|w|] == w && w[|w|..] == [];
  }

  /** Joining words with spaces and tokenising gives the words back. */
  lemma {:induction false} TokensOfJoin(ts: seq<string>)
    requires forall k :: 0 <= k < |ts| ==> IsWord(ts[k])
    ensures Tokens(Join(ts)) == ts
  {
    if |ts| == 1 {
      WordIsOneToken(ts[0]);
    } else if |ts| > 1 {
      assert ts[0] + " " + Join(ts[1..]) == ts[0] + [' '] + Join(ts[1..]);
      TokensOfSplit(ts[0], ' ', Join(ts[1..]));
      WordIsOneToken(ts[0]);
      TokensOfJoin(ts[1..]);
      assert ts == [ts[0]] + ts[1..];
    }
  }
}
