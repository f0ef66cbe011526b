/**
  The grammar's `identifier` token `[a-zA-Z_][a-zA-Z0-9_]*` (grammar.js:191),
  which is also the grammar's `word` token used for keyword extraction.
*/
module Identifiers {
  import opened Chars
  import Scanner

  predicate IsIdentifier(w: string) {
    && |w| >= 1
    && IsIdentStart(w[0])
    && forall i :: 1 <= i < |w| ==> IsIdentChar(w[i])
  }

  /** The characters a lexer may place in one identifier are exactly the scanner's identifier characters. */
  lemma IdentifierCharacters(w: string)
    requires IsIdentifier(w)
    ensures forall i :: 0 <= i < |w| ==> IsIdentChar(w[i])
    ensures !IsDigit(w[0])
  {
  }

  /** The end of the run of identifier characters from `i`. */
  function RunEnd(s: string, i: nat): (j: nat)
    requires i <= |s|
    ensures i <= j <= |s|
    ensures forall k :: i <= k < j ==> IsIdentChar(s[k])
    ensures j == |s| || !IsIdentChar(s[j])
    decreases |s| - i
  {
    if i < |s| && IsIdentChar(s[i]) then RunEnd(s, i + 1) else i
  }

  /**
    The longest identifier starting at `i`, as a lexer taking the longest
    match reads it: its end, or `i` itself when no identifier starts there.
  */
  function IdentifierEnd(s: string, i: nat): (j: nat)
    requires i <= |s|
    ensures i <= j <= |s|
    ensures j > i <==> i < |s| && IsIdentStart(s[i])
    ensures j > i ==> IsIdentifier(s[i..j]) && (j == |s| || !IsIdentChar(s[j]))
  {
    if i < |s| && IsIdentStart(s[i]) then RunEnd(s, i + 1) else i
  }

  /** No identifier starting at `i` is longer than the one `IdentifierEnd` reads. */
  lemma IdentifierEndIsLongest(s: string, i: nat, k: nat)
    requires i < k <= |s|
    requires IsIdentifier(s[i..k])
    ensures k <= IdentifierEnd(s, i)
    ensures IsIdentifier(s[i..IdentifierEnd(s, i)])
  {
    var j := IdentifierEnd(s, i);
    assert IsIdentStart(s[i]) by { assert s[i..k][0] == s[i]; }
    assert forall m :: i < m < k ==> IsIdentChar(s[m]) by {
      forall m | i < m < k ensures IsIdentChar(s[m]) {
        assert s[i..k][m - i] == s[m];
      }
    }
  }

  /**
    Every keyword the external scanner produces is a whole identifier word:
    the identifier a lexer would read at the token's start ends exactly where
    the token ends, whatever the keyword's follow rule.
  */
  lemma KeywordIsWholeWord(s: string, pos: nat, valid: set<Scanner.TokenType>)
    requires pos <= |s| && Scanner.Scan(s, pos, valid).Some?
    ensures var t := Scanner.Scan(s, pos, valid).value;
      IdentifierEnd(s, t.start) == t.end && IsIdentifier(s[t.start..t.end])
  {
    var t := Scanner.Scan(s, pos, valid).value;
    var w := s[t.start..t.end];
    Scanner.SpellingIsLetters(t.kind);
    assert w == Scanner.Spelling(t.kind);
    assert IsIdentifier(w);
    assert t.end == |s| || !IsIdentChar(s[t.end]) by {
      if t.end < |s| {
        SpaceIsNotIdentChar(s[t.end]);
      }
    }
    IdentifierEndIsLongest(s, t.start, t.end);
  }
}
