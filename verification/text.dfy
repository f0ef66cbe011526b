/**
  Template text between Antlers regions (grammar.js:650-655): a `text` node
  is either a plain run `[^{@]+` or an `ignore_symbol`, which is `@`
  followed by everything up to the next `{`. The lexer reads the longest of
  the two matches.
*/
module Text {
  import opened Maybe

  datatype Kind = Plain | Ignore

  /** A text token of the given kind covering `s[start..end]`. */
  datatype Run = Run(kind: Kind, start: nat, end: nat)

  predicate IsPlainText(w: string) {
    |w| >= 1 && forall k :: 0 <= k < |w| ==> w[k] != '{' && w[k] != '@'
  }

  predicate IsIgnoreSymbol(w: string) {
    |w| >= 1 && w[0] == '@' && forall k :: 1 <= k < |w| ==> w[k] != '{'
  }

  predicate IsText(w: string) {
    IsPlainText(w) || IsIgnoreSymbol(w)
  }

  predicate Matches(s: string, r: Run) {
    && r.start < r.end <= |s|
    && (if r.kind == Plain then IsPlainText(s[r.start..r.end]) else IsIgnoreSymbol(s[r.start..r.end]))
  }

  /** The first `{` at or after `i`, or the end of the input. */
  function BraceFrom(s: string, i: nat): (j: nat)
    requires i <= |s|
    ensures i <= j <= |s|
    ensures forall k :: i <= k < j ==> s[k] != '{'
    ensures j == |s| || s[j] == '{'
    decreases |s| - i
  {
    if i == |s| || s[i] == '{' then i else BraceFrom(s, i + 1)
  }

  /** The first `{` or `@` at or after `i`, or the end of the input. */
  function MarkFrom(s: string, i: nat): (j: nat)
    requires i <= |s|
    ensures i <= j <= |s|
    ensures forall k :: i <= k < j ==> s[k] != '{' && s[k] != '@'
    ensures j == |s| || s[j] == '{' || s[j] == '@'
    decreases |s| - i
  {
    if i == |s| || s[i] == '{' || s[i] == '@' then i else MarkFrom(s, i + 1)
  }

  /** The text token the lexer reads at `i`, taking the longest match; none at a `{` or the end. */
  function TextToken(s: string, i: nat): (r: Option<Run>)
    requires i <= |s|
    ensures r.Some? <==> i < |s| && s[i] != '{'
    ensures r.Some? ==> r.value.start == i && Matches(s, r.value)
    ensures r.Some? ==> (r.value.kind == Ignore <==> s[i] == '@')
  {
    if i == |s| || s[i] == '{' then None
    else if s[i] == '@' then
      var e := BraceFrom(s, i + 1);
      assert forall k :: 1 <= k < e - i ==> s[i..e][k] == s[i + k];
      Some(Run(Ignore, i, e))
    else
      var e := MarkFrom(s, i);
      assert forall k :: 0 <= k < e - i ==> s[i..e][k] == s[i + k];
      Some(Run(Plain, i, e))
  }

  /** No text starting at `i` is longer than the token `TextToken` reads there. */
  lemma TextTokenLongest(s: string, i: nat, e: nat)
    requires i < e <= |s| && IsText(s[i..e])
    ensures TextToken(s, i).Some? && e <= TextToken(s, i).value.end
  {
    var w := s[i..e];
    assert forall k :: i <= k < e ==> s[k] == w[k - i];
  }

  /** Runs laid end to end from `i` to `e`, each one a text token. */
  predicate Tiles(s: string, runs: seq<Run>, i: nat, e: nat)
    decreases |runs|
  {
    if |runs| == 0 then i == e
    else runs[0].start == i && Matches(s, runs[0]) && Tiles(s, runs[1..], runs[0].end, e)
  }

  /**
    The text tokens from `i` onwards, up to the next `{` (where an Antlers
    region begins) or the end of the input.
  */
  function TextRuns(s: string, i: nat): (runs: seq<Run>)
    requires i <= |s|
    ensures Tiles(s, runs, i, BraceFrom(s, i))
    decreases |s| - i
  {
    match TextToken(s, i)
    case None => []
    case Some(r) =>
      assert BraceFrom(s, r.end) == BraceFrom(s, i) by {
        BraceFromSkips(s, i, r.end);
      }
      [r] + TextRuns(s, r.end)
  }

  lemma {:induction false} BraceFromSkips(s: string, i: nat, j: nat)
    requires i <= j <= |s|
    requires forall k :: i <= k < j ==> s[k] != '{'
    ensures BraceFrom(s, j) == BraceFrom(s, i)
    decreases j - i
  {
    if i < j {
      BraceFromSkips(s, i + 1, j);
    }
  }

  /**
    Between two Antlers regions the text is at most one plain run followed by
    at most one ignore run: a plain run stops only at `@`, and an ignore run
    swallows everything up to the next `{`.
  */
  lemma {:induction false} TextRunsShape(s: string, i: nat)
    requires i <= |s|
    ensures var runs := TextRuns(s, i);
      && |runs| <= 2
      && (|runs| == 2 ==> runs[0].kind == Plain && runs[1].kind == Ignore)
  {
    var runs := TextRuns(s, i);
    if |runs| > 0 {
      var r := runs[0];
      var rest := TextRuns(s, r.end);
      assert runs[1..] == rest;
      if r.kind == Ignore {
        assert r.end == |s| || s[r.end] == '{';
      } else {
        assert r.end == |s| || s[r.end] == '{' || s[r.end] == '@';
        if |rest| > 0 {
          assert rest[0].kind == Ignore;
          var q := rest[0];
          assert q.end == |s| || s[q.end] == '{';
          assert TextRuns(s, q.end) == [];
        }
      }
    }
  }

  /** The runs spell out exactly the text before the next `{`. */
  lemma {:induction false} TilesSpell(s: string, runs: seq<Run>, i: nat, e: nat)
    requires i <= e <= |s| && Tiles(s, runs, i, e)
    ensures forall k :: 0 <= k < |runs| ==> runs[k].start <= runs[k].end <= |s|
    ensures Spell(s, runs) == s[i..e]
    decreases |runs|
  {
    if |runs| > 0 {
      var r := runs[0];
      TilesEnd(s, runs[1..], r.end, e);
      TilesSpell(s, runs[1..], r.end, e);
      assert forall k :: 1 <= k < |runs| ==> runs[k] == runs[1..][k - 1];
      assert s[i..e] == s[i..r.end] + s[r.end..e];
    }
  }

  lemma {:induction false} TilesEnd(s: string, runs: seq<Run>, i: nat, e: nat)
    requires i <= |s| && Tiles(s, runs, i, e)
    ensures i <= e <= |s|
    decreases |runs|
  {
    if |runs| > 0 {
      TilesEnd(s, runs[1..], runs[0].end, e);
    }
  }

  function Spell(s: string, runs: seq<Run>): string
    requires forall k :: 0 <= k < |runs| ==> runs[k].start <= runs[k].end <= |s|
  {
    if |runs| == 0 then [] else s[runs[0].start..runs[0].end] + Spell(s, runs[1..])
  }

  /** `a@b` reads as the plain run `a` and then the ignore run `@b`. */
  lemma ExampleMixed()
    ensures TextRuns("a@b{", 0) == [Run(Plain, 0, 1), Run(Ignore, 1, 3)]
  {
    var s := "a@b{";
    assert MarkFrom(s, 1) == 1;
    assert BraceFrom(s, 3) == 3;
    assert TextRuns(s, 3) == [];
  }
}
