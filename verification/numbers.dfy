/**
  The grammar's `number` token (grammar.js:418-433): five regular forms,
  each with an optional leading '-', built from digit groups in which '_'
  may separate digits.
*/
module Numbers {
  import opened Chars

  datatype Radix = Decimal | Hex | Octal

  predicate IsRadixDigit(r: Radix, c: char) {
    match r
    case Decimal => IsDigit(c)
    case Hex => IsHexDigit(c)
    case Octal => IsOctDigit(c)
  }

  predicate IsSign(c: char) {
    c == '+' || c == '-'
  }

  predicate IsExponentMark(c: char) {
    c == 'e' || c == 'E'
  }

  /** A digit group `d(?:[d_]*d)?`: digits, with underscores allowed only strictly inside. */
  predicate Group(w: string, r: Radix) {
    && |w| >= 1
    && IsRadixDigit(r, w[0])
    && IsRadixDigit(r, w[|w| - 1])
    && forall i :: 0 <= i < |w| ==> IsRadixDigit(r, w[i]) || w[i] == '_'
  }

  /** The literal without its optional leading '-' (`-?` in every form). */
  function Unsigned(w: string): (b: string)
    ensures |b| <= |w|
  {
    if |w| > 0 && w[0] == '-' then w[1..] else w
  }

  /** `(?:D(?:\.D)?|\.D)`: the part of a scientific literal before the exponent mark. */
  predicate Mantissa(m: string) {
    || Group(m, Decimal)
    || (exists k :: 0 < k < |m| && m[k] == '.' && Group(m[..k], Decimal) && Group(m[k + 1..], Decimal))
    || (|m| >= 2 && m[0] == '.' && Group(m[1..], Decimal))
  }

  /** `[+-]?D`: the part of a scientific literal after the exponent mark. */
  predicate Exponent(x: string) {
    || Group(x, Decimal)
    || (|x| >= 2 && IsSign(x[0]) && Group(x[1..], Decimal))
  }

  /** Scientific notation (grammar.js:420). */
  predicate IsScientificLiteral(w: string) {
    var b := Unsigned(w);
    exists k :: 0 < k < |b| && IsExponentMark(b[k]) && Mantissa(b[..k]) && Exponent(b[k + 1..])
  }

  /** Hexadecimal `0x`/`0X` and at least one hex digit (grammar.js:423). */
  predicate IsHexLiteral(w: string) {
    var b := Unsigned(w);
    |b| >= 3 && b[0] == '0' && (b[1] == 'x' || b[1] == 'X') && Group(b[2..], Hex)
  }

  /** Octal: `0` and an octal digit group (grammar.js:426). */
  predicate IsOctalLiteral(w: string) {
    var b := Unsigned(w);
    |b| >= 2 && b[0] == '0' && Group(b[1..], Octal)
  }

  /** `(?:D)?\.?D` (grammar.js:429): an optional group, an optional point, a group. */
  predicate IsFloatLiteral(w: string) {
    var b := Unsigned(w);
    exists k :: 0 <= k < |b| && (k == 0 || Group(b[..k], Decimal))
      && (Group(b[k..], Decimal) || (b[k] == '.' && Group(b[k + 1..], Decimal)))
  }

  /** A plain decimal group (grammar.js:432). */
  predicate IsIntegerLiteral(w: string) {
    Group(Unsigned(w), Decimal)
  }

  /** The `number` token: any of the five forms. */
  predicate IsNumber(w: string) {
    || IsScientificLiteral(w)
    || IsHexLiteral(w)
    || IsOctalLiteral(w)
    || IsFloatLiteral(w)
    || IsIntegerLiteral(w)
  }

  /**
    Character-level shape of a literal in radix `r`: every '_' has a neighbour
    on each side that is a digit or another '_' (so a run of separators is
    always flanked by digits), and a sign past the first position only ever
    follows an exponent mark.
  */
  predicate Tidy(w: string, r: Radix) {
    && (forall i :: 0 <= i < |w| && w[i] == '_' ==>
          && 0 < i < |w| - 1
          && (IsRadixDigit(r, w[i - 1]) || w[i - 1] == '_')
          && (IsRadixDigit(r, w[i + 1]) || w[i + 1] == '_'))
    && (forall i :: 0 < i < |w| && IsSign(w[i]) ==> IsExponentMark(w[i - 1]))
  }

  lemma GroupIsTidy(g: string, r: Radix)
    requires Group(g, r)
    ensures Tidy(g, r) && g[0] != '_' && g[|g| - 1] != '_'
    ensures forall i :: 0 <= i < |g| ==> !IsSign(g[i]) && g[i] != '.'
  {
  }

  lemma OctalGroupIsDecimal(g: string)
    requires Group(g, Octal)
    ensures Group(g, Decimal)
  {
  }

  /** A non-separator in front of a tidy string keeps it tidy when no '_' meets the seam and a sign after it follows an exponent mark. */
  lemma TidyCons(b: string, r: Radix)
    requires |b| >= 2 && Tidy(b[1..], r)
    requires b[0] != '_' && b[1] != '_'
    requires IsSign(b[1]) ==> IsExponentMark(b[0])
    ensures Tidy(b, r)
  {
    var t := b[1..];
    assert forall i :: 1 <= i < |b| ==> b[i] == t[i - 1];
  }

  /** Two tidy pieces joined at `k` make a tidy string under the same seam conditions. */
  lemma TidySplit(b: string, k: nat, r: Radix)
    requires 0 < k < |b| && Tidy(b[..k], r) && Tidy(b[k..], r)
    requires b[k - 1] != '_' && b[k] != '_'
    requires IsSign(b[k]) ==> IsExponentMark(b[k - 1])
    ensures Tidy(b, r)
  {
    var p, t := b[..k], b[k..];
    assert forall i :: 0 <= i < k ==> b[i] == p[i];
    assert forall i :: k <= i < |b| ==> b[i] == t[i - k];
  }

  /** Two tidy pieces around a single non-separator at `k` make a tidy string. */
  lemma TidyAround(b: string, k: nat, r: Radix)
    requires 0 < k < |b| - 1 && Tidy(b[..k], r) && Tidy(b[k + 1..], r)
    requires b[k - 1] != '_' && b[k] != '_' && b[k + 1] != '_'
    requires IsSign(b[k]) ==> IsExponentMark(b[k - 1])
    requires IsSign(b[k + 1]) ==> IsExponentMark(b[k])
    ensures Tidy(b, r)
  {
    var p, t := b[..k], b[k + 1..];
    assert forall i :: 0 <= i < k ==> b[i] == p[i];
    assert forall i :: k < i < |b| ==> b[i] == t[i - k - 1];
  }

  /** The facts every unsigned form shares, with the radix its separators live in. */
  predicate BodyShape(b: string, r: Radix) {
    && |b| >= 1
    && (IsDigit(b[0]) || b[0] == '.')
    && Tidy(b, r)
    && IsRadixDigit(r, b[|b| - 1])
  }

  /** A point followed by a digit group. */
  lemma PointGroupShape(m: string)
    requires |m| >= 2 && m[0] == '.' && Group(m[1..], Decimal)
    ensures BodyShape(m, Decimal)
  {
    GroupIsTidy(m[1..], Decimal);
    assert m[1] == m[1..][0] && m[|m| - 1] == m[1..][|m| - 2];
    TidyCons(m, Decimal);
  }

  lemma MantissaShape(m: string)
    requires Mantissa(m)
    ensures BodyShape(m, Decimal)
  {
    if Group(m, Decimal) {
      GroupIsTidy(m, Decimal);
    } else if k :| 0 < k < |m| && m[k] == '.' && Group(m[..k], Decimal) && Group(m[k + 1..], Decimal) {
      var p, t := m[..k], m[k + 1..];
      GroupIsTidy(p, Decimal);
      GroupIsTidy(t, Decimal);
      assert m[0] == p[0] && m[k - 1] == p[k - 1];
      assert m[k + 1] == t[0] && m[|m| - 1] == t[|t| - 1];
      TidyAround(m, k, Decimal);
    } else {
      PointGroupShape(m);
    }
  }

  lemma ExponentShape(x: string)
    requires Exponent(x)
    ensures Tidy(x, Decimal) && x[0] != '_' && IsDigit(x[|x| - 1])
    ensures IsSign(x[0]) || IsDigit(x[0])
  {
    if Group(x, Decimal) {
      GroupIsTidy(x, Decimal);
    } else {
      var t := x[1..];
      GroupIsTidy(t, Decimal);
      assert x[1] == t[0] && x[|x| - 1] == t[|t| - 1];
      TidyCons(x, Decimal);
    }
  }

  lemma ScientificShape(w: string)
    requires IsScientificLiteral(w)
    ensures BodyShape(Unsigned(w), Decimal)
  {
    var b := Unsigned(w);
    var k :| 0 < k < |b| && IsExponentMark(b[k]) && Mantissa(b[..k]) && Exponent(b[k + 1..]);
    MarkShape(b, k);
  }

  /** A mantissa, an exponent mark at `k` and an exponent. */
  lemma MarkShape(b: string, k: nat)
    requires 0 < k < |b| && IsExponentMark(b[k]) && Mantissa(b[..k]) && Exponent(b[k + 1..])
    ensures BodyShape(b, Decimal)
  {
    var m, x := b[..k], b[k + 1..];
    MantissaShape(m);
    ExponentShape(x);
    assert b[0] == m[0] && b[k - 1] == m[k - 1];
    assert b[k + 1] == x[0] && b[|b| - 1] == x[|x| - 1];
    TidyAround(b, k, Decimal);
  }

  lemma HexShape(w: string)
    requires IsHexLiteral(w)
    ensures BodyShape(Unsigned(w), Hex)
  {
    var b := Unsigned(w);
    var t := b[2..];
    GroupIsTidy(t, Hex);
    assert b[2] == t[0] && b[|b| - 1] == t[|t| - 1];
    assert b[1..][1..] == t;
    TidyCons(b[1..], Hex);
    TidyCons(b, Hex);
  }

  lemma OctalShape(w: string)
    requires IsOctalLiteral(w)
    ensures BodyShape(Unsigned(w), Decimal)
  {
    var b := Unsigned(w);
    var t := b[1..];
    OctalGroupIsDecimal(t);
    GroupIsTidy(t, Decimal);
    assert b[1] == t[0] && b[|b| - 1] == t[|t| - 1];
    TidyCons(b, Decimal);
  }

  /** The part of a float literal from `k` on: a group, or a point and a group. */
  lemma FloatRestShape(b: string, k: nat)
    requires k < |b| && (Group(b[k..], Decimal) || (b[k] == '.' && Group(b[k + 1..], Decimal)))
    ensures BodyShape(b[k..], Decimal)
  {
    var rest := b[k..];
    if Group(rest, Decimal) {
      GroupIsTidy(rest, Decimal);
    } else {
      assert rest[1..] == b[k + 1..];
      PointGroupShape(rest);
    }
  }

  lemma FloatShape(w: string)
    requires IsFloatLiteral(w)
    ensures BodyShape(Unsigned(w), Decimal)
  {
    var b := Unsigned(w);
    var k :| 0 <= k < |b| && (k == 0 || Group(b[..k], Decimal))
      && (Group(b[k..], Decimal) || (b[k] == '.' && Group(b[k + 1..], Decimal)));
    FloatRestShape(b, k);
    var p, t := b[..k], b[k..];
    if k == 0 {
      assert b == t;
    } else {
      GroupIsTidy(p, Decimal);
      assert b[0] == p[0] && b[k - 1] == p[k - 1];
      assert b[k] == t[0] && b[|b| - 1] == t[|t| - 1];
      TidySplit(b, k, Decimal);
    }
  }

  lemma IntegerShape(w: string)
    requires IsIntegerLiteral(w)
    ensures BodyShape(Unsigned(w), Decimal)
  {
    GroupIsTidy(Unsigned(w), Decimal);
  }

  /**
    The shape every number literal has: at most one leading '-' and no other
    sign except right after an exponent mark; after the optional '-' a digit or
    a '.'; the last character a digit (a hex digit for a hex literal); and no
    '_' at the start or end of a digit group, so none next to '.', 'x', an
    exponent mark, a sign or either end.
  */
  lemma NumberShape(w: string)
    requires IsNumber(w)
    ensures |Unsigned(w)| >= 1
    ensures IsDigit(Unsigned(w)[0]) || Unsigned(w)[0] == '.'
    ensures Tidy(w, if IsHexLiteral(w) then Hex else Decimal)
    ensures IsDigit(w[|w| - 1]) || (IsHexLiteral(w) && IsHexDigit(w[|w| - 1]))
  {
    var r := if IsHexLiteral(w) then Hex else Decimal;
    UnsignedShape(w);
    SignedShape(w, r);
  }

  /** The shape of the literal after its optional '-', form by form. */
  lemma UnsignedShape(w: string)
    requires IsNumber(w)
    ensures BodyShape(Unsigned(w), if IsHexLiteral(w) then Hex else Decimal)
  {
    if IsHexLiteral(w) {
      HexShape(w);
    } else if IsScientificLiteral(w) {
      ScientificShape(w);
    } else if IsOctalLiteral(w) {
      OctalShape(w);
    } else if IsFloatLiteral(w) {
      FloatShape(w);
    } else {
      IntegerShape(w);
    }
  }

  /** A leading '-' keeps the shape of what follows it. */
  lemma SignedShape(w: string, r: Radix)
    requires BodyShape(Unsigned(w), r)
    ensures |w| >= 1 && Tidy(w, r) && IsRadixDigit(r, w[|w| - 1])
  {
    var b := Unsigned(w);
    if |w| > 0 && w[0] == '-' {
      assert w[1] == b[0] && w[|w| - 1] == b[|b| - 1];
      TidyCons(w, r);
    }
  }

  /** A literal of each form. */
  lemma NumberExamples()
    ensures IsNumber("1_000") && IsNumber("-0x1F") && IsNumber("017")
    ensures IsNumber(".5") && IsNumber("-2.0")
    ensures IsIntegerLiteral("08") && !IsOctalLiteral("08")
  {
    SeparatedExample();
    HexExample();
    OctalExample();
    PointExample();
    FractionExample();
    LeadingZeroExample();
  }

  lemma SeparatedExample()
    ensures IsNumber("1_000")
  {
    assert IsIntegerLiteral("1_000");
  }

  lemma HexExample()
    ensures IsNumber("-0x1F")
  {
    var b := Unsigned("-0x1F");
    assert b == "0x1F" && b[2..] == "1F";
    assert IsHexLiteral("-0x1F");
  }

  lemma OctalExample()
    ensures IsNumber("017")
  {
    assert "017"[1..] == "17";
    assert IsOctalLiteral("017");
  }

  lemma PointExample()
    ensures IsNumber(".5")
  {
    var b := Unsigned(".5");
    assert b == ".5" && b[1..] == "5" && b[0..] == b;
    assert b[0] == '.' && Group(b[0 + 1..], Decimal);
    assert IsFloatLiteral(".5");
  }

  lemma FractionExample()
    ensures IsNumber("-2.0")
  {
    var b := Unsigned("-2.0");
    assert b == "2.0" && b[..1] == "2" && b[2..] == "0";
    assert Group(b[..1], Decimal) && b[1] == '.' && Group(b[1 + 1..], Decimal);
    assert IsFloatLiteral("-2.0");
  }

  /** A leading zero followed by a non-octal digit is a plain integer, not an octal literal. */
  lemma LeadingZeroExample()
    ensures IsIntegerLiteral("08") && !IsOctalLiteral("08")
  {
    assert "08"[1..] == "8";
    assert !IsOctDigit('8');
  }

  /** Scientific notation with a fraction and a signed exponent. */
  lemma ScientificExample()
    ensures IsNumber("1.5e-3")
  {
    var b := Unsigned("1.5e-3");
    var m := b[..3];
    assert b == "1.5e-3" && m == "1.5";
    assert m[..1] == "1" && m[2..] == "5";
    assert Group(m[..1], Decimal) && m[1] == '.' && Group(m[1 + 1..], Decimal);
    assert Mantissa(m);
    assert b[4..] == "-3" && "-3"[1..] == "3";
    assert Exponent(b[3 + 1..]);
    assert IsExponentMark(b[3]);
  }

  /** No literal ends in anything but a (hex) digit. */
  lemma EndsInDigit(w: string)
    requires |w| > 0 && !IsHexDigit(w[|w| - 1])
    ensures !IsNumber(w)
  {
    if IsNumber(w) {
      NumberShape(w);
    }
  }

  /** Only a hex literal may end in a letter. */
  lemma OnlyHexEndsInLetter(w: string)
    requires |w| > 0 && !IsDigit(w[|w| - 1]) && !IsHexLiteral(w)
    ensures !IsNumber(w)
  {
    if IsNumber(w) {
      NumberShape(w);
    }
  }

  /** After the optional '-' comes a digit or a point. */
  lemma StartsWithDigitOrPoint(w: string)
    requires |Unsigned(w)| > 0 && !IsDigit(Unsigned(w)[0]) && Unsigned(w)[0] != '.'
    ensures !IsNumber(w)
  {
    if IsNumber(w) {
      NumberShape(w);
    }
  }

  /** A '_' never touches a character that is neither a digit nor another '_'. */
  lemma SeparatorBetweenDigits(w: string, i: nat)
    requires i + 1 < |w| && w[i + 1] == '_' && !IsHexDigit(w[i]) && w[i] != '_'
    ensures !IsNumber(w)
  {
    if IsNumber(w) {
      NumberShape(w);
    }
  }

  lemma SeparatorBeforeDigits(w: string, i: nat)
    requires i + 1 < |w| && w[i] == '_' && !IsHexDigit(w[i + 1]) && w[i + 1] != '_'
    ensures !IsNumber(w)
  {
    if IsNumber(w) {
      NumberShape(w);
    }
  }

  /** Look-alikes that no form accepts: each breaks the shape `NumberShape` proves. */
  lemma NotNumberExamples()
    ensures !IsNumber("1_") && !IsNumber("_1") && !IsNumber("0x") && !IsNumber("--1")
    ensures !IsNumber("1.") && !IsNumber("1e") && !IsNumber("1_.5") && !IsNumber("0x_1")
  {
    EndsInDigit("1_");
    EndsInDigit("0x");
    EndsInDigit("1.");
    StartsWithDigitOrPoint("_1");
    StartsWithDigitOrPoint("--1");
    OnlyHexEndsInLetter("1e");
    SeparatorBeforeDigits("1_.5", 1);
    SeparatorBetweenDigits("0x_1", 1);
  }
}
