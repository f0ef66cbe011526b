/**
  The external keyword scanner of the Antlers grammar (src/scanner.c).

  Tree-sitter calls the scanner with a lexer positioned somewhere in the
  document and the set of external tokens the parser would accept there. The
  lexer is modelled as the whole input `s` with a cursor `pos`; `advance`,
  `eof` and `mark_end` become index arithmetic. A produced token records where
  it starts (after the skipped whitespace) and where `mark_end` left its end.
*/
module Scanner {
  import opened Maybe
  import opened Chars

  /** The external tokens, in the order of the source's `enum TokenType`. */
  datatype TokenType =
    | CollectionKeyword
    | NavKeyword
    | TaxonomyKeyword
    | FormKeyword
    | IfKeyword
    | UnlessKeyword
    | EntriesKeyword

  /** A produced token: its kind and the half-open span `[start, end)` of the input. */
  datatype Token = Token(kind: TokenType, start: nat, end: nat)

  /** What has to come right after a keyword for the keyword to be produced. */
  datatype Follow =
    | Whitespace  // a whitespace character (if, unless)
    | Colon       // a ':' that is looked at but not consumed (collection, nav, taxonomy, form)
    | Boundary    // end of input or a character that cannot continue an identifier (entries)

  function Spelling(k: TokenType): string {
    match k
    case CollectionKeyword => "collection"
    case NavKeyword => "nav"
    case TaxonomyKeyword => "taxonomy"
    case FormKeyword => "form"
    case IfKeyword => "if"
    case UnlessKeyword => "unless"
    case EntriesKeyword => "entries"
  }

  function FollowOf(k: TokenType): Follow {
    match k
    case IfKeyword => Whitespace
    case UnlessKeyword => Whitespace
    case EntriesKeyword => Boundary
    case _ => Colon
  }

  /**
    The follow check at index `j`, with the two nested tests the source makes
    for `if` and `unless` (not an identifier character, then whitespace).
  */
  predicate FollowOk(f: Follow, s: seq<char>, j: nat)
    requires j <= |s|
  {
    match f
    case Whitespace => (j == |s| || !IsIdentChar(s[j])) && j < |s| && IsSpace(s[j])
    case Colon => j < |s| && s[j] == ':'
    case Boundary => j == |s| || !IsIdentChar(s[j])
  }

  /** The leading whitespace loop: the cursor after every whitespace character from `i` on. */
  function SkipSpace(s: seq<char>, i: nat): (j: nat)
    requires i <= |s|
    ensures i <= j <= |s|
    ensures forall k :: i <= k < j ==> IsSpace(s[k])
    ensures j == |s| || !IsSpace(s[j])
    decreases |s| - i
  {
    if i < |s| && IsSpace(s[i]) then SkipSpace(s, i + 1) else i
  }

  /**
    `scan_keyword`: matches `kw` character by character from `i`, failing at
    end of input or at the first differing character. On success the cursor
    has moved past the keyword.
  */
  function ScanKeyword(s: seq<char>, i: nat, kw: string): (r: Option<nat>)
    requires i <= |s|
    ensures r.Some? <==> i + |kw| <= |s| && s[i..i + |kw|] == kw
    ensures r.Some? ==> r.value == i + |kw|
    decreases |kw|
  {
    if |kw| == 0 then Some(i)
    else if i == |s| || s[i] != kw[0] then None
    else
      var r := ScanKeyword(s, i + 1, kw[1..]);
      assert r.Some? ==> s[i..i + |kw|] == [s[i]] + s[i + 1..i + 1 + |kw[1..]|];
      assert i + |kw| <= |s| && s[i..i + |kw|] == kw ==> s[i + 1..i + 1 + |kw[1..]|] == kw[1..];
      r
  }

  /**
    The branch chosen by the first non-whitespace character: the keywords are
    tried in the source's order, and a keyword whose symbol is not valid is
    skipped.
  */
  function Branch(c: char, valid: set<TokenType>): (r: Option<TokenType>)
    ensures r.Some? ==> r.value in valid && Spelling(r.value)[0] == c
    ensures r.None? ==> forall k :: k in valid ==> Spelling(k)[0] != c
  {
    if c == 'i' && IfKeyword in valid then Some(IfKeyword)
    else if c == 'u' && UnlessKeyword in valid then Some(UnlessKeyword)
    else if c == 'c' && CollectionKeyword in valid then Some(CollectionKeyword)
    else if c == 'n' && NavKeyword in valid then Some(NavKeyword)
    else if c == 't' && TaxonomyKeyword in valid then Some(TaxonomyKeyword)
    else if c == 'f' && FormKeyword in valid then Some(FormKeyword)
    else if c == 'e' && EntriesKeyword in valid then Some(EntriesKeyword)
    else None
  }

  /** No two keywords share their first letter. */
  lemma FirstLettersDistinct(a: TokenType, b: TokenType)
    ensures Spelling(a)[0] == Spelling(b)[0] ==> a == b
  {
  }

  /**
    The declarative meaning of a produced token: after nothing but whitespace
    from the cursor, a valid keyword is spelled out in full and is followed by
    what its rule demands.
  */
  predicate Produces(s: seq<char>, pos: nat, valid: set<TokenType>, t: Token) {
    && pos <= t.start
    && t.kind in valid
    && t.end == t.start + |Spelling(t.kind)| <= |s|
    && (forall k :: pos <= k < t.start ==> IsSpace(s[k]))
    && s[t.start..t.end] == Spelling(t.kind)
    && FollowOk(FollowOf(t.kind), s, t.end)
  }

  /**
    `tree_sitter_antlers_external_scanner_scan`: `None` when it returns false,
    `Some(t)` when it returns true with `result_symbol == t.kind` and the
    token between `t.start` and the position of `mark_end`.
  */
  function Scan(s: seq<char>, pos: nat, valid: set<TokenType>): (r: Option<Token>)
    requires pos <= |s|
    ensures r.Some? ==> Produces(s, pos, valid, r.value)
    ensures r.None? ==> forall t :: !Produces(s, pos, valid, t)
  {
    ProducedAreScanned(s, pos, valid);
    var start := SkipSpace(s, pos);
    if start == |s| then None
    else
      match Branch(s[start], valid)
      case None => None
      case Some(k) =>
        match ScanKeyword(s, start + 1, Spelling(k)[1..])
        case None => None
        case Some(end) =>
          if FollowOk(FollowOf(k), s, end) then
            ScannedIsProduced(s, pos, valid, k, end);
            Some(Token(k, start, end))
          else None
  }

  /** The token the branch chain reaches, when its follow check passes, is one that may be produced. */
  lemma ScannedIsProduced(s: seq<char>, pos: nat, valid: set<TokenType>, k: TokenType, end: nat)
    requires pos <= |s| && SkipSpace(s, pos) < |s|
    requires Branch(s[SkipSpace(s, pos)], valid) == Some(k)
    requires ScanKeyword(s, SkipSpace(s, pos) + 1, Spelling(k)[1..]) == Some(end)
    requires FollowOk(FollowOf(k), s, end)
    ensures Produces(s, pos, valid, Token(k, SkipSpace(s, pos), end))
  {
    SpelledOut(s, SkipSpace(s, pos), end, Spelling(k));
  }

  /** The first character and the rest matched separately spell the whole word. */
  lemma SpelledOut(s: seq<char>, start: nat, end: nat, w: string)
    requires |w| >= 1 && start < |s| && s[start] == w[0]
    requires end == start + |w| <= |s| && s[start + 1..end] == w[1..]
    ensures s[start..end] == w
  {
    assert s[start..end] == [s[start]] + s[start + 1..end];
  }

  /** Once the token starts where the whitespace loop stops, only the keyword and its follow remain to check. */
  lemma ProducesAfterSpace(s: seq<char>, pos: nat, valid: set<TokenType>, t: Token)
    requires pos <= |s| && t.start == SkipSpace(s, pos)
    ensures Produces(s, pos, valid, t) <==>
      && t.kind in valid
      && t.end == t.start + |Spelling(t.kind)| <= |s|
      && s[t.start..t.end] == Spelling(t.kind)
      && FollowOk(FollowOf(t.kind), s, t.end)
  {
  }

  /**
    Every token that may be produced is the one the source's branch chain
    reaches: it starts where the whitespace loop stops, its first letter selects
    its own branch, and `scan_keyword` succeeds on the rest of its spelling.
  */
  lemma ProducedIsScanned(s: seq<char>, pos: nat, valid: set<TokenType>, t: Token)
    requires pos <= |s|
    requires Produces(s, pos, valid, t)
    ensures t.start == SkipSpace(s, pos) < |s|
    ensures Branch(s[t.start], valid) == Some(t.kind)
    ensures ScanKeyword(s, t.start + 1, Spelling(t.kind)[1..]) == Some(t.end)
  {
    var j := SkipSpace(s, pos);
    assert s[t.start] == Spelling(t.kind)[0];
    assert !IsSpace(s[t.start]);
    if j < |s| {
      assert !IsSpace(s[j]);
    }
    FirstLettersDistinct(Branch(s[t.start], valid).value, t.kind);
    assert s[t.start + 1..t.end] == Spelling(t.kind)[1..];
  }

  lemma ProducedAreScanned(s: seq<char>, pos: nat, valid: set<TokenType>)
    requires pos <= |s|
    ensures forall t :: Produces(s, pos, valid, t) ==>
      && t.start == SkipSpace(s, pos) < |s|
      && Branch(s[t.start], valid) == Some(t.kind)
      && ScanKeyword(s, t.start + 1, Spelling(t.kind)[1..]) == Some(t.end)
  {
    forall t | Produces(s, pos, valid, t)
      ensures t.start == SkipSpace(s, pos) < |s|
      ensures Branch(s[t.start], valid) == Some(t.kind)
      ensures ScanKeyword(s, t.start + 1, Spelling(t.kind)[1..]) == Some(t.end)
    {
      ProducedIsScanned(s, pos, valid, t);
    }
  }

  /** At most one token can be produced at a given cursor, whatever the valid symbols. */
  lemma {:induction false} AtMostOneToken(s: seq<char>, pos: nat, valid: set<TokenType>, t1: Token, t2: Token)
    requires pos <= |s|
    requires Produces(s, pos, valid, t1) && Produces(s, pos, valid, t2)
    ensures t1 == t2
  {
    ProducedIsScanned(s, pos, valid, t1);
    ProducedIsScanned(s, pos, valid, t2);
  }

  /**
    The valid symbols only gate: a token produced under one set is produced,
    unchanged, under any other set that still contains its kind. So the
    first non-whitespace character alone decides which keyword can appear.
  */
  lemma ValidSymbolsOnlyGate(s: seq<char>, pos: nat, valid: set<TokenType>, valid': set<TokenType>)
    requires pos <= |s|
    requires Scan(s, pos, valid).Some? && Scan(s, pos, valid).value.kind in valid'
    ensures Scan(s, pos, valid') == Scan(s, pos, valid)
  {
    var t := Scan(s, pos, valid).value;
    assert Produces(s, pos, valid', t);
    AtMostOneToken(s, pos, valid', t, Scan(s, pos, valid').value);
  }

  /** Every keyword is spelled in letters only. */
  lemma SpellingIsLetters(k: TokenType)
    ensures |Spelling(k)| >= 2
    ensures forall j :: 0 <= j < |Spelling(k)| ==> IsLetter(Spelling(k)[j])
  {
    match k
    case CollectionKeyword =>
    case NavKeyword =>
    case TaxonomyKeyword =>
    case FormKeyword =>
    case IfKeyword =>
    case UnlessKeyword =>
    case EntriesKeyword =>
  }

  /** The leading whitespace is skipped and is not part of the token, which holds no whitespace. */
  lemma TokenExcludesWhitespace(s: seq<char>, pos: nat, valid: set<TokenType>)
    requires pos <= |s| && Scan(s, pos, valid).Some?
    ensures var t := Scan(s, pos, valid).value;
      && (forall k :: pos <= k < t.start ==> IsSpace(s[k]))
      && (forall k :: t.start <= k < t.end ==> !IsSpace(s[k]))
  {
    var t := Scan(s, pos, valid).value;
    var w := Spelling(t.kind);
    SpellingIsLetters(t.kind);
    forall k | t.start <= k < t.end ensures !IsSpace(s[k]) {
      assert s[k] == w[k - t.start];
      SpaceIsNotIdentChar(s[k]);
    }
  }

  /** Whitespace up to the end of input yields no token. */
  lemma OnlyWhitespaceYieldsNothing(s: seq<char>, pos: nat, valid: set<TokenType>)
    requires pos <= |s|
    requires forall k :: pos <= k < |s| ==> IsSpace(s[k])
    ensures Scan(s, pos, valid).None?
  {
    assert SkipSpace(s, pos) == |s|;
  }

  /** The scanner's result and the declarative meaning agree on every token. */
  lemma ScanIff(s: seq<char>, pos: nat, valid: set<TokenType>, t: Token)
    requires pos <= |s|
    ensures Scan(s, pos, valid) == Some(t) <==> Produces(s, pos, valid, t)
  {
    if Produces(s, pos, valid, t) {
      AtMostOneToken(s, pos, valid, t, Scan(s, pos, valid).value);
    }
  }

  /**
    `if` and `unless` are produced exactly when their symbol is valid and the
    whole word is followed by a whitespace character, which is not part of the
    token.
  */
  lemma WhitespaceKeywords(s: seq<char>, pos: nat, valid: set<TokenType>, k: TokenType)
    requires pos <= |s| && FollowOf(k) == Whitespace
    ensures k == IfKeyword || k == UnlessKeyword
    ensures var start := SkipSpace(s, pos); var end := start + |Spelling(k)|;
      (Scan(s, pos, valid) == Some(Token(k, start, end))) <==>
        (k in valid && end < |s| && s[start..end] == Spelling(k) && IsSpace(s[end]))
  {
    var start := SkipSpace(s, pos);
    var end := start + |Spelling(k)|;
    KeywordAt(s, pos, valid, Token(k, start, end));
    if end <= |s| {
      WhitespaceFollow(s, end);
    }
  }

  /** A keyword right after the skipped whitespace is scanned exactly when its symbol is valid, it is spelled out and its follow check passes. */
  lemma KeywordAt(s: seq<char>, pos: nat, valid: set<TokenType>, t: Token)
    requires pos <= |s| && t.start == SkipSpace(s, pos) && t.end == t.start + |Spelling(t.kind)|
    ensures Scan(s, pos, valid) == Some(t) <==>
      && t.kind in valid
      && t.end <= |s|
      && s[t.start..t.end] == Spelling(t.kind)
      && FollowOk(FollowOf(t.kind), s, t.end)
  {
    ScanIff(s, pos, valid, t);
    ProducesAfterSpace(s, pos, valid, t);
  }

  /** The two nested tests for `if` and `unless` come down to one: a whitespace character follows. */
  lemma WhitespaceFollow(s: seq<char>, j: nat)
    requires j <= |s|
    ensures FollowOk(Whitespace, s, j) <==> j < |s| && IsSpace(s[j])
  {
    if j < |s| {
      SpaceIsNotIdentChar(s[j]);
    }
  }

  /**
    `collection`, `nav`, `taxonomy` and `form` are produced exactly when the
    word is followed by ':'; the token ends before the colon, which is left for
    the grammar.
  */
  lemma ColonKeywords(s: seq<char>, pos: nat, valid: set<TokenType>, k: TokenType)
    requires pos <= |s| && FollowOf(k) == Colon
    ensures k != IfKeyword && k != UnlessKeyword && k != EntriesKeyword
    ensures var start := SkipSpace(s, pos); var end := start + |Spelling(k)|;
      (Scan(s, pos, valid) == Some(Token(k, start, end))) <==>
        (k in valid && end < |s| && s[start..end] == Spelling(k) && s[end] == ':')
  {
    var start := SkipSpace(s, pos);
    var end := start + |Spelling(k)|;
    KeywordAt(s, pos, valid, Token(k, start, end));
  }

  /**
    `entries` is produced exactly when the word ends the input or is followed
    by a character that cannot continue an identifier.
  */
  lemma EntriesFollowRule(s: seq<char>, pos: nat, valid: set<TokenType>)
    requires pos <= |s|
    ensures var start := SkipSpace(s, pos); var end := start + 7;
      (Scan(s, pos, valid) == Some(Token(EntriesKeyword, start, end))) <==>
        (EntriesKeyword in valid && end <= |s| && s[start..end] == "entries"
          && (end == |s| || !IsIdentChar(s[end])))
  {
    var start := SkipSpace(s, pos);
    KeywordAt(s, pos, valid, Token(EntriesKeyword, start, start + 7));
  }

  /** Every external symbol, as during tree-sitter's error recovery. */
  const AllKeywords: set<TokenType> :=
    {CollectionKeyword, NavKeyword, TaxonomyKeyword, FormKeyword, IfKeyword, UnlessKeyword, EntriesKeyword}

  /** `if` needs whitespace after it: at end of input, inside `iff` or before `(` it is no keyword. */
  lemma IfExamples()
    ensures Scan("  if x", 0, AllKeywords) == Some(Token(IfKeyword, 2, 4))
    ensures Scan("if", 0, AllKeywords).None?
    ensures Scan("iff x", 0, AllKeywords).None?
    ensures Scan("if(x)", 0, AllKeywords).None?
    ensures Scan("if x", 0, AllKeywords - {IfKeyword}).None?
  {
    assert SkipSpace("  if x", 0) == 2;
    assert "  if x"[2..4] == "if";
    ScanIff("  if x", 0, AllKeywords, Token(IfKeyword, 2, 4));
  }

  /**
    The colon keywords stop before the colon; a partial word yields nothing;
    `form:errors` yields the `form` keyword, since the code does not exclude it.
  */
  lemma ColonExamples()
    ensures Scan("collection:blog", 0, AllKeywords) == Some(Token(CollectionKeyword, 0, 10))
    ensures Scan("colle:", 0, AllKeywords).None?
    ensures Scan("form:errors", 0, AllKeywords) == Some(Token(FormKeyword, 0, 4))
  {
    assert "collection:blog"[0..10] == "collection";
    ScanIff("collection:blog", 0, AllKeywords, Token(CollectionKeyword, 0, 10));
    assert "form:errors"[0..4] == "form";
    ScanIff("form:errors", 0, AllKeywords, Token(FormKeyword, 0, 4));
  }

  /** `entries` stands alone or before a non-identifier character. */
  lemma EntriesExamples()
    ensures Scan("entries", 0, AllKeywords) == Some(Token(EntriesKeyword, 0, 7))
    ensures Scan("entries}}", 0, AllKeywords) == Some(Token(EntriesKeyword, 0, 7))
    ensures Scan("entries_x", 0, AllKeywords).None?
  {
    assert "entries"[0..7] == "entries";
    ScanIff("entries", 0, AllKeywords, Token(EntriesKeyword, 0, 7));
    assert "entries}}"[0..7] == "entries";
    ScanIff("entries}}", 0, AllKeywords, Token(EntriesKeyword, 0, 7));
  }

  /**
    The scanner's payload. `create` returns NULL, `serialize` writes nothing
    and `deserialize` reads nothing: there is no state between calls, and
    `Scan` depends only on the input, the cursor and the valid symbols.
  */
  datatype Payload = NoPayload

  function Create(): Payload {
    NoPayload
  }

  function Serialize(p: Payload): seq<bv8> {
    []
  }

  function Deserialize(buffer: seq<bv8>): Payload {
    NoPayload
  }

  lemma Stateless(p: Payload, buffer: seq<bv8>)
    ensures |Serialize(p)| == 0
    ensures Deserialize(buffer) == Create() == p
  {
  }
}
