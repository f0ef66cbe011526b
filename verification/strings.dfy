/**
  String literals and their escape sequences (grammar.js:384-416): a string is
  delimited by `"` or `'`, and its body is a run of escape sequences and
  characters that are neither the delimiting quote nor a backslash.
*/
module Strings {
  import opened Chars
  import opened Maybe

  predicate IsQuote(q: char) {
    q == '"' || q == '\''
  }

  /** `[\\'"nrtbf]`: the common escapes. */
  predicate IsCommonEscape(c: char) {
    c == '\\' || c == '\'' || c == '"' || c == 'n' || c == 'r' || c == 't' || c == 'b' || c == 'f'
  }

  /**
    What may follow the backslash of a `string_escape_sequence`: a common
    escape, `u` and four hex digits, `x` and two hex digits, one to three octal
    digits, or any other character but a line feed (the regex `.`).
  */
  predicate EscapeTail(t: string) {
    || (|t| == 1 && IsCommonEscape(t[0]))
    || (|t| == 5 && t[0] == 'u' && forall i :: 1 <= i < 5 ==> IsHexDigit(t[i]))
    || (|t| == 3 && t[0] == 'x' && IsHexDigit(t[1]) && IsHexDigit(t[2]))
    || (1 <= |t| <= 3 && forall i :: 0 <= i < |t| ==> IsOctDigit(t[i]))
    || (|t| == 1 && t[0] != '\n')
  }

  predicate IsEscape(w: string) {
    |w| >= 2 && w[0] == '\\' && EscapeTail(w[1..])
  }

  /** Every escape is a backslash and one to five characters, the first of them not a line feed. */
  lemma EscapeShape(w: string)
    requires IsEscape(w)
    ensures 2 <= |w| <= 6 && w[1] != '\n'
    ensures forall i :: 2 <= i < |w| ==> IsHexDigit(w[i])
  {
  }

  /** A backslash before any character but a line feed is an escape on its own. */
  lemma AnyCharEscapes(c: char)
    requires c != '\n'
    ensures IsEscape(['\\', c])
  {
    assert ['\\', c][1..] == [c];
  }

  /** The string body as the grammar writes it: `repeat(choice(string_escape_sequence, /[^q\\]/))`. */
  predicate Body(b: string, q: char)
    decreases |b|
  {
    if |b| == 0 then true
    else
      || (b[0] != q && b[0] != '\\' && Body(b[1..], q))
      || (exists k :: 2 <= k <= |b| && k <= 6 && IsEscape(b[..k]) && Body(b[k..], q))
  }

  /**
    A reference reading of a body, left to right: a backslash always takes the
    next character (which must not be a line feed), and the quote may not
    appear otherwise.
  */
  predicate EscapesPaired(b: string, q: char)
    decreases |b|
  {
    if |b| == 0 then true
    else if b[0] == '\\' then |b| >= 2 && b[1] != '\n' && EscapesPaired(b[2..], q)
    else b[0] != q && EscapesPaired(b[1..], q)
  }

  /** Characters that are neither the quote nor a backslash can be prepended to a paired body. */
  lemma {:induction false} PlainPrefix(b: string, j: nat, q: char)
    requires j <= |b|
    requires forall i :: 0 <= i < j ==> b[i] != q && b[i] != '\\'
    requires EscapesPaired(b[j..], q)
    ensures EscapesPaired(b, q)
    decreases j
  {
    if j > 0 {
      PlainPrefix(b[1..], j - 1, q);
      assert b[1..][j - 1..] == b[j..];
    }
  }

  /**
    The grammar's body and the left-to-right reading accept the same texts:
    no unescaped quote of the string's own kind, no unescaped backslash, and no
    backslash before a line feed or at the very end.
  */
  lemma {:induction false} BodyIff(b: string, q: char)
    requires IsQuote(q)
    ensures Body(b, q) <==> EscapesPaired(b, q)
    decreases |b|
  {
    if |b| > 0 {
      if b[0] == '\\' {
        if EscapesPaired(b, q) {
          BodyIff(b[2..], q);
          AnyCharEscapes(b[1]);
          assert b[..2] == ['\\', b[1]];
          assert Body(b, q);
        }
        if Body(b, q) {
          var k :| 2 <= k <= |b| && k <= 6 && IsEscape(b[..k]) && Body(b[k..], q);
          EscapeShape(b[..k]);
          BodyIff(b[k..], q);
          var rest := b[2..];
          assert rest[k - 2..] == b[k..];
          assert forall i :: 0 <= i < k - 2 ==> IsHexDigit(rest[i]) by {
            forall i | 0 <= i < k - 2 ensures IsHexDigit(rest[i]) {
              assert rest[i] == b[..k][i + 2];
            }
          }
          PlainPrefix(rest, k - 2, q);
          assert b[1] == b[..k][1];
        }
      } else {
        BodyIff(b[1..], q);
        if Body(b, q) {
          assert !(exists k :: 2 <= k <= |b| && k <= 6 && IsEscape(b[..k]) && Body(b[k..], q)) by {
            forall k | 2 <= k <= |b| && k <= 6 ensures !IsEscape(b[..k]) {
              assert b[..k][0] == b[0];
            }
          }
        }
      }
    }
  }

  /** A complete string literal: matching quotes around a body. */
  predicate IsString(w: string) {
    && |w| >= 2
    && IsQuote(w[0])
    && w[|w| - 1] == w[0]
    && Body(w[1..|w| - 1], w[0])
  }

  /**
    Reading a string body from `j`: the position after the closing quote `q`,
    stepping over each backslash and the character it escapes; `None` when the
    input ends first or a backslash precedes a line feed or the end.
  */
  function CloseFrom(s: string, j: nat, q: char): Option<nat>
    requires j <= |s|
    decreases |s| - j
  {
    if j == |s| then None
    else if s[j] == q then Some(j + 1)
    else if s[j] == '\\' then
      if j + 1 < |s| && s[j + 1] != '\n' then CloseFrom(s, j + 2, q) else None
    else CloseFrom(s, j + 1, q)
  }

  /** `CloseFrom` finds the one and only closing quote that leaves a well-formed body before it. */
  lemma {:induction false} CloseFromCorrect(s: string, j: nat, q: char)
    requires j <= |s| && IsQuote(q)
    ensures var r := CloseFrom(s, j, q);
      r.Some? ==> j < r.value <= |s| && s[r.value - 1] == q && EscapesPaired(s[j..r.value - 1], q)
    ensures forall c :: j <= c < |s| && s[c] == q && EscapesPaired(s[j..c], q) ==>
      CloseFrom(s, j, q) == Some(c + 1)
    decreases |s| - j
  {
    if j < |s| {
      if s[j] == q {
        forall c | j < c <= |s| ensures !EscapesPaired(s[j..c], q) {
          assert s[j..c][0] == q;
        }
      } else if s[j] == '\\' {
        if j + 1 < |s| && s[j + 1] != '\n' {
          CloseFromCorrect(s, j + 2, q);
          forall c | j <= c < |s| && s[c] == q && EscapesPaired(s[j..c], q)
            ensures j + 2 <= c && EscapesPaired(s[j + 2..c], q)
          {
            assert s[j..c][0] == '\\';
            assert s[j..c][2..] == s[j + 2..c];
          }
          var r := CloseFrom(s, j, q);
          if r.Some? {
            assert s[j..r.value - 1] == [s[j], s[j + 1]] + s[j + 2..r.value - 1];
          }
        } else {
          forall c | j < c <= |s| ensures !EscapesPaired(s[j..c], q) {
            assert s[j..c][0] == '\\';
            if j + 1 < c {
              assert s[j..c][1] == s[j + 1];
            }
          }
        }
      } else {
        CloseFromCorrect(s, j + 1, q);
        forall c | j <= c < |s| && s[c] == q && EscapesPaired(s[j..c], q)
          ensures j + 1 <= c && EscapesPaired(s[j + 1..c], q)
        {
          assert s[j..c][0] == s[j];
          assert s[j..c][1..] == s[j + 1..c];
        }
        var r := CloseFrom(s, j, q);
        if r.Some? {
          assert s[j..r.value - 1] == [s[j]] + s[j + 1..r.value - 1];
        }
      }
    }
  }

  /** The end of the string literal that opens at `i`, if it is closed. */
  function StringEnd(s: string, i: nat): Option<nat>
    requires i < |s| && IsQuote(s[i])
  {
    CloseFrom(s, i + 1, s[i])
  }

  /**
    A string literal opening at `i` ends exactly where `StringEnd` says: the
    first unescaped quote of its own kind closes it, and no other end gives a
    literal.
  */
  lemma StringEndIff(s: string, i: nat, e: nat)
    requires i < |s| && IsQuote(s[i]) && i < e <= |s|
    ensures StringEnd(s, i) == Some(e) <==> IsString(s[i..e])
  {
    var q := s[i];
    CloseFromCorrect(s, i + 1, q);
    if e >= i + 2 {
      var w := s[i..e];
      assert forall k :: 0 <= k < |w| ==> w[k] == s[i + k];
      assert w[1..|w| - 1] == s[i + 1..e - 1];
      BodyIff(s[i + 1..e - 1], q);
    }
  }

  /** Escape the delimiting quote and every backslash, leaving all other characters as they are. */
  function EscapeText(t: string, q: char): string {
    if |t| == 0 then []
    else (if t[0] == q || t[0] == '\\' then ['\\', t[0]] else [t[0]]) + EscapeText(t[1..], q)
  }

  function Quote(t: string, q: char): string {
    [q] + EscapeText(t, q) + [q]
  }

  lemma {:induction false} EscapeTextPaired(t: string, q: char)
    requires IsQuote(q)
    ensures EscapesPaired(EscapeText(t, q), q)
  {
    if |t| > 0 {
      EscapeTextPaired(t[1..], q);
      var e := EscapeText(t, q);
      if t[0] == q || t[0] == '\\' {
        assert e[2..] == EscapeText(t[1..], q);
      } else {
        assert e[1..] == EscapeText(t[1..], q);
      }
    }
  }

  /** Any text, quoted with its quote and backslashes escaped, is a string literal. */
  lemma QuoteIsString(t: string, q: char)
    requires IsQuote(q)
    ensures IsString(Quote(t, q))
  {
    var w := Quote(t, q);
    assert w[1..|w| - 1] == EscapeText(t, q);
    EscapeTextPaired(t, q);
    BodyIff(EscapeText(t, q), q);
  }

  /** A quote of the other kind needs no escape; one of the string's own kind does. */
  lemma QuoteKindExamples()
    ensures IsString("\"it's\"")
    ensures !IsString("'it's'")
  {
    var w := "\"it's\"";
    assert w[1..|w| - 1] == "it's";
    BodyIff("it's", '"');
    var v := "'it's'";
    assert v[1..|v| - 1] == "it's";
    BodyIff("it's", '\'');
  }

  /** A `\\u` escape with four hex digits is an escape, and a string holding just it is a literal. */
  lemma UnicodeEscapeString(h: string, q: char)
    requires IsQuote(q) && |h| == 4
    requires forall i :: 0 <= i < 4 ==> IsHexDigit(h[i])
    ensures IsEscape(['\\', 'u'] + h)
    ensures IsString([q] + ['\\', 'u'] + h + [q])
  {
    var e := ['\\', 'u'] + h;
    assert e[1..] == ['u'] + h;
    var body := e;
    assert body[2..] == h;
    assert EscapesPaired(h[4..], q);
    PlainPrefix(h, 4, q);
    assert EscapesPaired(body, q);
    BodyIff(body, q);
    var w := [q] + body + [q];
    assert w[1..|w| - 1] == body && w[0] == q;
    assert w == [q] + ['\\', 'u'] + h + [q];
  }

  /** A backslash right before the closing quote escapes it and leaves the string open. */
  lemma UnclosedExample()
    ensures !IsString("\"a\\\"")
  {
    var v := "\"a\\\"";
    assert v[1..|v| - 1] == "a\\";
    BodyIff("a\\", '"');
  }
}
