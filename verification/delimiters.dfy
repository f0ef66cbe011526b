/**
  Spans whose content is never lexed (grammar.js:101-108): the two comment
  forms `{{# ... #}}` and `{{!-- ... --}}`, raw code `{{? ... ?}}` and echo
  code `{{$ ... $}}`. Each is meant to run from its opener to the first
  following occurrence of its closer (`IsSpan`, `SpanEnd`). As written, the
  comment expressions and the longest-match reading of raw and echo code do
  not always end there (`IsCommentAsWritten`, `CodeEndAsWritten`).
*/
module Delimiters {
  import opened Maybe

  datatype Delim = HashComment | DashComment | PhpRaw | PhpEcho

  function Opener(d: Delim): string {
    match d
    case HashComment => "{{#"
    case DashComment => "{{!--"
    case PhpRaw => "{{?"
    case PhpEcho => "{{$"
  }

  function Closer(d: Delim): string {
    match d
    case HashComment => "#}}"
    case DashComment => "--}}"
    case PhpRaw => "?}}"
    case PhpEcho => "$}}"
  }

  predicate OccursAt(s: string, p: string, k: nat) {
    k + |p| <= |s| && s[k..k + |p|] == p
  }

  /** `p` occurs nowhere in `s`. */
  predicate Free(s: string, p: string) {
    forall k: nat | k + |p| <= |s| :: !OccursAt(s, p, k)
  }

  /** A text lacking one of the characters of `p` cannot contain `p`. */
  lemma FreeWithout(s: string, p: string, j: nat)
    requires j < |p|
    requires forall i :: 0 <= i < |s| ==> s[i] != p[j]
    ensures Free(s, p)
  {
    forall k: nat | k + |p| <= |s| ensures !OccursAt(s, p, k) {
      assert s[k..k + |p|][j] == s[k + j];
    }
  }

  /** Opener `o`, content in which `c` does not occur, then `c`. */
  predicate Delimited(o: string, c: string, w: string) {
    && |w| >= |o| + |c|
    && w[..|o|] == o
    && w[|w| - |c|..] == c
    && Free(w[|o|..|w| - |c|], c)
  }

  /**
    A span of kind `d`: its opener, content in which the closer does not occur,
    and its closer. This is what the delimiters promise: the lazy `[\s\S]*?`
    of raw and echo code, and the closers of comments. The tokens as written
    differ: see `IsCommentAsWritten` and `IsCodeAsWritten`.
  */
  predicate IsSpan(d: Delim, w: string) {
    Delimited(Opener(d), Closer(d), w)
  }

  /** No two openers can both start at one position: they differ by their third character. */
  lemma OpenersExclusive(s: string, i: nat, d1: Delim, d2: Delim)
    requires OccursAt(s, Opener(d1), i) && OccursAt(s, Opener(d2), i)
    ensures d1 == d2
  {
    assert s[i + 2] == Opener(d1)[2] == Opener(d2)[2];
  }

  /** No proper suffix of `c` is also a prefix of it, so `c` cannot overlap itself. */
  predicate Borderless(c: string) {
    forall sh :: 0 < sh < |c| ==> c[sh..] != c[..|c| - sh]
  }

  /** Every closer is a run of non-`}` characters followed by `}}`. */
  lemma CloserShape(d: Delim)
    ensures var c := Closer(d);
      && |c| >= 3 && c[|c| - 1] == '}' && c[|c| - 2] == '}'
      && forall j :: 0 <= j < |c| - 2 ==> c[j] != '}'
  {
  }

  /** So no closer overlaps itself: a shifted copy puts a `}` where the closer has none. */
  lemma CloserBorderless(d: Delim)
    ensures Borderless(Closer(d))
  {
    var c := Closer(d);
    CloserShape(d);
    forall sh | 0 < sh < |c| ensures c[sh..] != c[..|c| - sh] {
      if sh <= |c| - 2 {
        assert c[sh..][|c| - sh - 2] == '}';
        assert c[..|c| - sh][|c| - sh - 2] != '}';
      } else {
        assert c[sh..][0] == '}';
        assert c[..|c| - sh][0] != '}';
      }
    }
  }

  /** The first occurrence of `p` at or after `j`. */
  function FindFrom(s: string, j: nat, p: string): (r: Option<nat>)
    requires j <= |s|
    ensures r.Some? ==> j <= r.value && OccursAt(s, p, r.value)
    ensures r.Some? ==> forall k :: j <= k < r.value ==> !OccursAt(s, p, k)
    ensures r.None? ==> forall k :: j <= k ==> !OccursAt(s, p, k)
    decreases |s| - j
  {
    if j + |p| > |s| then None
    else if s[j..j + |p|] == p then Some(j)
    else FindFrom(s, j + 1, p)
  }

  /** The end of the text opened by `o` at `i` and closed by the first `c` after it. */
  function DelimitedEnd(s: string, i: nat, o: string, c: string): Option<nat>
    requires i <= |s|
  {
    if i + |o| <= |s| && s[i..i + |o|] == o then
      match FindFrom(s, i + |o|, c)
      case None => None
      case Some(k) => Some(k + |c|)
    else None
  }

  /**
    The end of the span of kind `d` opening at `i`: `None` when the opener is
    not there or the closer never follows.
  */
  function SpanEnd(s: string, i: nat, d: Delim): Option<nat>
    requires i <= |s|
  {
    DelimitedEnd(s, i, Opener(d), Closer(d))
  }

  /** Two overlapping occurrences of `c` show a suffix of `c` that is also a prefix of it. */
  lemma OverlapIsBorder(s: string, c: string, k1: nat, k2: nat)
    requires OccursAt(s, c, k1) && OccursAt(s, c, k2) && k1 < k2
    ensures k1 + |c| <= k2 || c[k2 - k1..] == c[..|c| - (k2 - k1)]
  {
    if k2 < k1 + |c| {
      var sh := k2 - k1;
      forall m | 0 <= m < |c| - sh ensures c[sh..][m] == c[..|c| - sh][m] {
        assert c[sh + m] == s[k1 + sh + m] == s[k2 + m] == c[m];
      }
    }
  }

  /** Two occurrences of a borderless text never overlap: the later one starts after the earlier one ends. */
  lemma OccurrencesApart(s: string, c: string, k1: nat, k2: nat)
    requires Borderless(c)
    requires OccursAt(s, c, k1) && OccursAt(s, c, k2)
    ensures k2 <= k1 || k1 + |c| <= k2
  {
    if k1 < k2 {
      OverlapIsBorder(s, c, k1, k2);
    }
  }

  lemma SliceOfSlice(s: string, a: nat, b: nat, x: nat, y: nat)
    requires a <= b <= |s| && x <= y <= b - a
    ensures s[a..b][x..y] == s[a + x..a + y]
  {
    assert forall m :: 0 <= m < y - x ==> s[a..b][x..y][m] == s[a + x + m];
  }

  /** What `DelimitedEnd` returns is the end of a delimited text. */
  lemma DelimitedEndSound(s: string, i: nat, o: string, c: string, e: nat)
    requires |c| > 0
    requires i <= e <= |s| && DelimitedEnd(s, i, o, c) == Some(e)
    ensures Delimited(o, c, s[i..e])
  {
    var w := s[i..e];
    var k := FindFrom(s, i + |o|, c).value;
    assert k == e - |c|;
    SliceOfSlice(s, i, e, 0, |o|);
    SliceOfSlice(s, i, e, |w| - |c|, |w|);
    SliceOfSlice(s, i, e, |o|, |w| - |c|);
    var content := w[|o|..|w| - |c|];
    forall m: nat | m + |c| <= |content| ensures !OccursAt(content, c, m) {
      SliceOfSlice(s, i + |o|, k, m, m + |c|);
      assert !OccursAt(s, c, i + |o| + m);
    }
  }

  /** A text free of `c` has no occurrence of `c` wherever it sits inside a larger one. */
  lemma FreeInside(s: string, a: nat, b: nat, c: string)
    requires a <= b <= |s| && Free(s[a..b], c)
    ensures forall j :: a <= j && j + |c| <= b ==> !OccursAt(s, c, j)
  {
    forall j | a <= j && j + |c| <= b ensures !OccursAt(s, c, j) {
      SliceOfSlice(s, a, b, j - a, j - a + |c|);
      assert !OccursAt(s[a..b], c, j - a);
    }
  }

  /** Every delimited text opening at `i` ends where `DelimitedEnd` says, when its closer cannot overlap itself. */
  lemma DelimitedEndComplete(s: string, i: nat, o: string, c: string, e: nat)
    requires Borderless(c)
    requires i <= e <= |s| && Delimited(o, c, s[i..e])
    ensures DelimitedEnd(s, i, o, c) == Some(e)
  {
    var w := s[i..e];
    var k := e - |c|;
    SliceOfSlice(s, i, e, 0, |o|);
    SliceOfSlice(s, i, e, |w| - |c|, |w|);
    SliceOfSlice(s, i, e, |o|, |w| - |c|);
    assert OccursAt(s, c, k);
    FreeInside(s, i + |o|, k, c);
    var first := FindFrom(s, i + |o|, c).value;
    OccurrencesApart(s, c, first, k);
  }

  /**
    A span opening at `i` ends exactly where `SpanEnd` says: at the first
    closer after the opener, and nowhere else.
  */
  lemma SpanEndIff(s: string, i: nat, d: Delim, e: nat)
    requires i <= e <= |s|
    ensures SpanEnd(s, i, d) == Some(e) <==> IsSpan(d, s[i..e])
  {
    if SpanEnd(s, i, d) == Some(e) {
      DelimitedEndSound(s, i, Opener(d), Closer(d), e);
    }
    if IsSpan(d, s[i..e]) {
      CloserBorderless(d);
      DelimitedEndComplete(s, i, Opener(d), Closer(d), e);
    }
  }

  /** A span is its opener, any content that does not contain the closer, and the closer. */
  lemma SpanContent(d: Delim, content: string)
    ensures IsSpan(d, Opener(d) + content + Closer(d)) <==> Free(content, Closer(d))
  {
    var w := Opener(d) + content + Closer(d);
    assert w[..|Opener(d)|] == Opener(d);
    assert w[|w| - |Closer(d)|..] == Closer(d);
    assert w[|Opener(d)|..|w| - |Closer(d)|] == content;
  }

  /**
    A comment's content is not lexed again: a tag inside a comment stays
    inside it, both for the intended span and for the token as written.
  */
  lemma CommentHidesTag()
    ensures SpanEnd("{{# {{ if x }} #}}", 0, HashComment) == Some(18)
    ensures IsCommentAsWritten(HashComment, "{{# {{ if x }} #}}")
    ensures CommentEndAsWritten("{{# {{ if x }} #}}", 0, HashComment) == Some(18)
  {
    TagInCommentSpan();
    TagInCommentToken();
  }

  lemma TagInCommentSpan()
    ensures SpanEnd("{{# {{ if x }} #}}", 0, HashComment) == Some(18)
  {
    var s := "{{# {{ if x }} #}}";
    FreeWithout(" {{ if x }} ", "#}}", 0);
    SpanContent(HashComment, " {{ if x }} ");
    assert s == Opener(HashComment) + " {{ if x }} " + Closer(HashComment);
    assert s[0..18] == s;
    SpanEndIff(s, 0, HashComment, 18);
  }

  lemma TagInCommentToken()
    ensures IsCommentAsWritten(HashComment, "{{# {{ if x }} #}}")
    ensures CommentEndAsWritten("{{# {{ if x }} #}}", 0, HashComment) == Some(18)
  {
    var s := "{{# {{ if x }} #}}";
    assert s[3..15] == " {{ if x }} ";
    HashFreeItems(" {{ if x }} ");
    assert s[0..18] == s;
    assert CommentEndFrom(s, 0, HashComment, 18) == Some(18);
  }

  /**
    `repeat(choice(/[^#]/, /#[^}]/, /#}[^}]/))`: the first two characters
    decide which alternative applies, so one left-to-right reading suffices.
  */
  predicate HashItems(b: string)
    decreases |b|
  {
    if |b| == 0 then true
    else if b[0] != '#' then HashItems(b[1..])
    else if |b| >= 2 && b[1] != '}' then HashItems(b[2..])
    else |b| >= 3 && b[1] == '}' && b[2] != '}' && HashItems(b[3..])
  }

  /** `repeat(choice(/[^-]/, /-[^-]/, /--[^}]/))`, read the same way. */
  predicate DashItems(b: string)
    decreases |b|
  {
    if |b| == 0 then true
    else if b[0] != '-' then DashItems(b[1..])
    else if |b| >= 2 && b[1] != '-' then DashItems(b[2..])
    else |b| >= 3 && b[1] == '-' && b[2] != '}' && DashItems(b[3..])
  }

  /** Content without `#` is read one character at a time. */
  lemma {:induction false} HashFreeItems(b: string)
    requires forall k :: 0 <= k < |b| ==> b[k] != '#'
    ensures HashItems(b)
    decreases |b|
  {
    if |b| > 0 {
      HashFreeItems(b[1..]);
    }
  }

  /** The `antlers_comment` token as its regular expressions are written. */
  predicate IsCommentAsWritten(d: Delim, w: string)
    requires d == HashComment || d == DashComment
  {
    var o := Opener(d);
    var c := Closer(d);
    var content := if |w| >= |o| + |c| then w[|o|..|w| - |c|] else [];
    && |w| >= |o| + |c|
    && w[..|o|] == o
    && w[|w| - |c|..] == c
    && (if d == HashComment then HashItems(content) else DashItems(content))
  }

  /**
    The comment expressions as written reject a comment whose content ends in
    its marker character right before the closer, and accept one whose content
    holds the closer after a doubled marker; the intended spans do the
    opposite.
  */
  lemma CommentAsWrittenDiffers()
    ensures IsSpan(HashComment, "{{# a ##}}") && !IsCommentAsWritten(HashComment, "{{# a ##}}")
    ensures IsSpan(DashComment, "{{!-- a ---}}") && !IsCommentAsWritten(DashComment, "{{!-- a ---}}")
    ensures IsCommentAsWritten(HashComment, "{{# ##}} #}}") && !IsSpan(HashComment, "{{# ##}} #}}")
  {
    HashBeforeCloser();
    DashBeforeCloser();
    CloserAfterDoubledHash();
  }

  lemma HashBeforeCloser()
    ensures IsSpan(HashComment, "{{# a ##}}") && !IsCommentAsWritten(HashComment, "{{# a ##}}")
  {
    var h, content := "{{# a ##}}", " a #";
    assert h == Opener(HashComment) + content + Closer(HashComment);
    FreeWithout(content, "#}}", 2);
    SpanContent(HashComment, content);
    assert h[3..|h| - 3] == content;
    assert content[1..] == "a #" && "a #"[1..] == " #" && " #"[1..] == "#";
    assert !HashItems("#");
  }

  lemma DashBeforeCloser()
    ensures IsSpan(DashComment, "{{!-- a ---}}") && !IsCommentAsWritten(DashComment, "{{!-- a ---}}")
  {
    var m, content := "{{!-- a ---}}", " a -";
    assert m == Opener(DashComment) + content + Closer(DashComment);
    FreeWithout(content, "--}}", 3);
    SpanContent(DashComment, content);
    assert m[5..|m| - 4] == content;
    assert content[1..] == "a -" && "a -"[1..] == " -" && " -"[1..] == "-";
    assert !DashItems("-");
  }

  lemma CloserAfterDoubledHash()
    ensures IsCommentAsWritten(HashComment, "{{# ##}} #}}") && !IsSpan(HashComment, "{{# ##}} #}}")
  {
    var x, content := "{{# ##}} #}}", " ##}} ";
    assert x[..3] == "{{#" && x[|x| - 3..] == "#}}";
    assert x[3..|x| - 3] == content;
    assert content[1..] == "##}} " && "##}} "[2..] == "}} " && "}} "[1..] == "} " && "} "[1..] == " " && " "[1..] == "";
    assert HashItems(" ") && HashItems("} ") && HashItems("}} ") && HashItems("##}} ");
    assert content[2..5] == "#}}";
    assert OccursAt(content, "#}}", 2);
  }

  /**
    `token(seq(opener, /[\s\S]*?/, closer))` as a language: the opener, any
    text at all, the closer. Laziness does not change which texts match.
  */
  predicate IsCodeAsWritten(d: Delim, w: string)
    requires d == PhpRaw || d == PhpEcho
  {
    && |w| >= |Opener(d)| + |Closer(d)|
    && w[..|Opener(d)|] == Opener(d)
    && w[|w| - |Closer(d)|..] == Closer(d)
  }

  /** The last occurrence of `p` at or after `j`. */
  function FindLast(s: string, j: nat, p: string): (r: Option<nat>)
    requires j <= |s|
    ensures r.Some? ==> j <= r.value && OccursAt(s, p, r.value)
    ensures r.Some? ==> forall k :: r.value < k ==> !OccursAt(s, p, k)
    ensures r.None? ==> forall k :: j <= k ==> !OccursAt(s, p, k)
    decreases |s| - j
  {
    if j + |p| > |s| then None
    else
      var later := if j < |s| then FindLast(s, j + 1, p) else None;
      if later.Some? then later
      else if s[j..j + |p|] == p then Some(j)
      else None
  }

  /**
    Where a raw or echo token opening at `i` ends when the lexer keeps the
    longest match: after the last closer in the input.
  */
  function CodeEndAsWritten(s: string, i: nat, d: Delim): Option<nat>
    requires i <= |s|
  {
    var o, c := Opener(d), Closer(d);
    if i + |o| <= |s| && s[i..i + |o|] == o then
      match FindLast(s, i + |o|, c)
      case None => None
      case Some(k) => Some(k + |c|)
    else None
  }

  /**
    The as-written end is the longest match: `s[i..e]` is a raw or echo token
    as written for the end computed, and for no later `e`.
  */
  lemma CodeEndAsWrittenLongest(s: string, i: nat, d: Delim, e: nat)
    requires d == PhpRaw || d == PhpEcho
    requires i <= e <= |s|
    ensures CodeEndAsWritten(s, i, d) == Some(e) ==> IsCodeAsWritten(d, s[i..e])
    ensures IsCodeAsWritten(d, s[i..e]) ==> CodeEndAsWritten(s, i, d).Some? && e <= CodeEndAsWritten(s, i, d).value
  {
    var o, c := Opener(d), Closer(d);
    var w := s[i..e];
    if CodeEndAsWritten(s, i, d) == Some(e) {
      SliceOfSlice(s, i, e, 0, |o|);
      SliceOfSlice(s, i, e, |w| - |c|, |w|);
    }
    if IsCodeAsWritten(d, w) {
      SliceOfSlice(s, i, e, 0, |o|);
      SliceOfSlice(s, i, e, |w| - |c|, |w|);
      assert OccursAt(s, c, e - |c|);
    }
  }

  /**
    Two raw blocks in a row: the intended span ends at the first `?}}`, the
    longest match as written runs on to the second.
  */
  lemma CodeAsWrittenDiffers()
    ensures SpanEnd("{{? a ?}}{{? b ?}}", 0, PhpRaw) == Some(9)
    ensures CodeEndAsWritten("{{? a ?}}{{? b ?}}", 0, PhpRaw) == Some(18)
    ensures IsCodeAsWritten(PhpRaw, "{{? a ?}}{{? b ?}}") && !IsSpan(PhpRaw, "{{? a ?}}{{? b ?}}")
  {
    var s := "{{? a ?}}{{? b ?}}";
    FirstRawEnd(s);
    assert OccursAt(s, "?}}", 15);
    assert s[0..3] == "{{?";
    assert s[6..9] == "?}}";
    SliceOfSlice(s, 3, 15, 3, 6);
    assert OccursAt(s[3..15], "?}}", 3);
  }

  lemma FirstRawEnd(s: string)
    requires s == "{{? a ?}}{{? b ?}}"
    ensures SpanEnd(s, 0, PhpRaw) == Some(9)
  {
    FreeWithout(" a ", "?}}", 0);
    SpanContent(PhpRaw, " a ");
    assert s[0..9] == Opener(PhpRaw) + " a " + Closer(PhpRaw);
    SpanEndIff(s, 0, PhpRaw, 9);
  }

  /**
    The last end at or before `e` at which a comment token as written,
    opening at `i`, can stop.
  */
  function CommentEndFrom(s: string, i: nat, d: Delim, e: nat): (r: Option<nat>)
    requires d == HashComment || d == DashComment
    requires i <= e <= |s|
    ensures r.Some? ==> i <= r.value <= e && IsCommentAsWritten(d, s[i..r.value])
    ensures r.Some? ==> forall f :: r.value < f <= e ==> !IsCommentAsWritten(d, s[i..f])
    ensures r.None? ==> forall f :: i <= f <= e ==> !IsCommentAsWritten(d, s[i..f])
    decreases e - i
  {
    if IsCommentAsWritten(d, s[i..e]) then Some(e)
    else if e == i then None
    else CommentEndFrom(s, i, d, e - 1)
  }

  /**
    Where a comment token as written, opening at `i`, ends when the lexer
    keeps the longest match: the last position at which the comment
    expressions accept the text read so far.
  */
  function CommentEndAsWritten(s: string, i: nat, d: Delim): (r: Option<nat>)
    requires d == HashComment || d == DashComment
    requires i <= |s|
    ensures r.Some? ==> i <= r.value <= |s| && IsCommentAsWritten(d, s[i..r.value])
    ensures r.Some? ==> forall f :: r.value < f <= |s| ==> !IsCommentAsWritten(d, s[i..f])
    ensures r.None? ==> forall f :: i <= f <= |s| ==> !IsCommentAsWritten(d, s[i..f])
  {
    CommentEndFrom(s, i, d, |s|)
  }

  /**
    A comment that holds its closer after a doubled `#`: the intended span
    ends at the first `#}}`, the longest match as written at the second.
  */
  lemma CommentEndsDiffer()
    ensures SpanEnd("{{# ##}} #}}", 0, HashComment) == Some(8)
    ensures CommentEndAsWritten("{{# ##}} #}}", 0, HashComment) == Some(12)
  {
    var s := "{{# ##}} #}}";
    CloserAfterDoubledHash();
    assert s[0..12] == s;
    assert CommentEndFrom(s, 0, HashComment, 12) == Some(12);
    assert Free(" #", "#}}");
    SpanContent(HashComment, " #");
    assert s[0..8] == Opener(HashComment) + " #" + Closer(HashComment);
    SpanEndIff(s, 0, HashComment, 8);
  }
}
