/**
  Modifiers applied to an expression (grammar.js:195-204, 358-380):
  `expression | name`, `| name:arg` or `| name(arg, ...)`, any number of times,
  after the whole expression. Lexing is taken as done: the model works on the
  token sequence, and whitespace between tokens is gone.
*/
module Modifiers {
  import opened Maybe
  import Precedence

  /**
    The tokens of a modifier list. A nested variable (`a.b`, `a:b`) or an
    indexed one (`a[0]`) is one `PathTok`, its inner structure left opaque; a
    bare identifier is an `Ident`.
  */
  datatype Tok =
    | Pipe | ColonTok | LParen | RParen | Comma
    | Ident(name: string) | PathTok(text: string)
    | NumTok(text: string) | StrTok(text: string) | BoolTok(b: bool)

  /**
    A `modifier_parameters` argument: a string, number, boolean or variable,
    where a variable is a bare identifier (`VarArg`) or a nested or indexed
    one (`PathArg`).
  */
  datatype Arg =
    | StrArg(text: string) | NumArg(text: string) | BoolArg(b: bool)
    | VarArg(name: string) | PathArg(text: string)

  datatype Params = NoParams | ColonParam(arg: Arg) | CallParams(args: seq<Arg>)

  datatype Modifier = Modifier(name: string, params: Params)

  /** After a colon only a bare identifier or a number may follow; nested and indexed variables need parentheses. */
  predicate ColonOk(p: Params) {
    p.ColonParam? ==> p.arg.VarArg? || p.arg.NumArg?
  }

  predicate WellFormed(mods: seq<Modifier>) {
    |mods| == 0 || (ColonOk(mods[0].params) && WellFormed(mods[1..]))
  }

  function ArgTok(a: Arg): Tok {
    match a
    case StrArg(t) => StrTok(t)
    case NumArg(t) => NumTok(t)
    case BoolArg(b) => BoolTok(b)
    case VarArg(n) => Ident(n)
    case PathArg(t) => PathTok(t)
  }

  predicate IsArgTok(t: Tok) {
    t.Ident? || t.PathTok? || t.NumTok? || t.StrTok? || t.BoolTok?
  }

  function TokArg(t: Tok): Arg
    requires IsArgTok(t)
  {
    match t
    case StrTok(s) => StrArg(s)
    case NumTok(s) => NumArg(s)
    case BoolTok(b) => BoolArg(b)
    case Ident(n) => VarArg(n)
    case PathTok(t) => PathArg(t)
  }

  lemma ArgTokRoundTrip(a: Arg)
    ensures IsArgTok(ArgTok(a)) && TokArg(ArgTok(a)) == a
  {
  }

  lemma TokArgRoundTrip(t: Tok)
    requires IsArgTok(t)
    ensures ArgTok(TokArg(t)) == t
  {
  }

  /** `, arg` for each argument after the first. */
  function RenderTail(args: seq<Arg>): seq<Tok> {
    if |args| == 0 then [] else [Comma, ArgTok(args[0])] + RenderTail(args[1..])
  }

  function RenderArgs(args: seq<Arg>): seq<Tok> {
    if |args| == 0 then [] else [ArgTok(args[0])] + RenderTail(args[1..])
  }

  function RenderParams(p: Params): seq<Tok> {
    match p
    case NoParams => []
    case ColonParam(a) => [ColonTok, ArgTok(a)]
    case CallParams(args) => [LParen] + RenderArgs(args) + [RParen]
  }

  /** The tokens of a modifier list, in order. */
  function Render(mods: seq<Modifier>): seq<Tok> {
    if |mods| == 0 then []
    else [Pipe, Ident(mods[0].name)] + RenderParams(mods[0].params) + Render(mods[1..])
  }

  datatype Parsed<X> = Parsed(value: X, rest: seq<Tok>)

  /** The rest of an argument list after its first argument, through the closing parenthesis. */
  function ParseTail(t: seq<Tok>): Option<Parsed<seq<Arg>>>
    decreases |t|
  {
    if |t| >= 1 && t[0] == RParen then Some(Parsed([], t[1..]))
    else if |t| >= 2 && t[0] == Comma && IsArgTok(t[1]) then
      match ParseTail(t[2..])
      case None => None
      case Some(p) => Some(Parsed([TokArg(t[1])] + p.value, p.rest))
    else None
  }

  /** An argument list after `(`, through the closing parenthesis. */
  function ParseArgs(t: seq<Tok>): Option<Parsed<seq<Arg>>> {
    if |t| >= 1 && t[0] == RParen then Some(Parsed([], t[1..]))
    else if |t| >= 1 && IsArgTok(t[0]) then
      match ParseTail(t[1..])
      case None => None
      case Some(p) => Some(Parsed([TokArg(t[0])] + p.value, p.rest))
    else None
  }

  /** The optional parameters after a modifier's name. */
  function ParseParams(t: seq<Tok>): Option<Parsed<Params>> {
    if |t| >= 2 && t[0] == ColonTok && (t[1].Ident? || t[1].NumTok?) then
      Some(Parsed(ColonParam(TokArg(t[1])), t[2..]))
    else if |t| >= 1 && t[0] == LParen then
      match ParseArgs(t[1..])
      case None => None
      case Some(p) => Some(Parsed(CallParams(p.value), p.rest))
    else Some(Parsed(NoParams, t))
  }

  /** The modifiers `t` spells, left to right, or `None` when it is not a modifier list. */
  function ParseMods(t: seq<Tok>): Option<seq<Modifier>>
    decreases |t|
  {
    if |t| == 0 then Some([])
    else if |t| >= 2 && t[0] == Pipe && t[1].Ident? then
      match ParseParams(t[2..])
      case None => None
      case Some(p) =>
        if |p.rest| < |t| then
          match ParseMods(p.rest)
          case None => None
          case Some(ms) => Some([Modifier(t[1].name, p.value)] + ms)
        else None
    else None
  }

  lemma {:induction false} ParseTailRender(args: seq<Arg>, rest: seq<Tok>)
    ensures ParseTail(RenderTail(args) + [RParen] + rest) == Some(Parsed(args, rest))
    decreases |args|
  {
    var t := RenderTail(args) + [RParen] + rest;
    if |args| > 0 {
      ParseTailRender(args[1..], rest);
      ArgTokRoundTrip(args[0]);
      assert t[2..] == RenderTail(args[1..]) + [RParen] + rest;
      assert [args[0]] + args[1..] == args;
    } else {
      assert t[1..] == rest;
    }
  }

  lemma ParseArgsRender(args: seq<Arg>, rest: seq<Tok>)
    ensures ParseArgs(RenderArgs(args) + [RParen] + rest) == Some(Parsed(args, rest))
  {
    var t := RenderArgs(args) + [RParen] + rest;
    if |args| > 0 {
      var a := args[0];
      var u := RenderTail(args[1..]) + [RParen] + rest;
      assert t == [ArgTok(a)] + u;
      assert t[0] == ArgTok(a) && t[1..] == u;
      ParseTailRender(args[1..], rest);
      ArgTokRoundTrip(a);
      assert ParseArgs(t) == Some(Parsed([a] + args[1..], rest));
      assert [a] + args[1..] == args;
    } else {
      assert t == [RParen] + rest;
      assert t[1..] == rest;
    }
  }

  lemma ParseParamsRender(p: Params, rest: seq<Tok>)
    requires ColonOk(p)
    requires |rest| == 0 || rest[0] == Pipe
    ensures ParseParams(RenderParams(p) + rest) == Some(Parsed(p, rest))
  {
    match p
    case NoParams =>
      assert RenderParams(p) + rest == rest;
    case ColonParam(a) =>
      ColonRender(a, rest);
    case CallParams(args) =>
      CallRender(args, rest);
  }

  lemma ColonRender(a: Arg, rest: seq<Tok>)
    requires a.VarArg? || a.NumArg?
    ensures ParseParams([ColonTok, ArgTok(a)] + rest) == Some(Parsed(ColonParam(a), rest))
  {
    var t := [ColonTok, ArgTok(a)] + rest;
    assert t[0] == ColonTok && t[1] == ArgTok(a) && t[2..] == rest;
  }

  lemma CallRender(args: seq<Arg>, rest: seq<Tok>)
    ensures ParseParams([LParen] + RenderArgs(args) + [RParen] + rest) == Some(Parsed(CallParams(args), rest))
  {
    var u := RenderArgs(args) + [RParen] + rest;
    var t := [LParen] + RenderArgs(args) + [RParen] + rest;
    assert t == [LParen] + u;
    assert t[0] == LParen && t[1..] == u;
    ParseArgsRender(args, rest);
  }

  /** One modifier read off the front of a token sequence. */
  lemma ParseModsStep(t: seq<Tok>, n: string, u: seq<Tok>, p: Params, rest: seq<Tok>, ms: seq<Modifier>)
    requires t == [Pipe, Ident(n)] + u
    requires ParseParams(u) == Some(Parsed(p, rest)) && |rest| <= |u|
    requires ParseMods(rest) == Some(ms)
    ensures ParseMods(t) == Some([Modifier(n, p)] + ms)
  {
    assert t[2..] == u;
  }

  lemma RenderStartsWithPipe(mods: seq<Modifier>)
    ensures |Render(mods)| == 0 || Render(mods)[0] == Pipe
  {
  }

  /** A well-formed modifier list is read back from its tokens. */
  lemma {:induction false} ParseRender(mods: seq<Modifier>)
    requires WellFormed(mods)
    ensures ParseMods(Render(mods)) == Some(mods)
    decreases |mods|
  {
    if |mods| > 0 {
      var m := mods[0];
      var rest := mods[1..];
      assert mods == [m] + rest;
      assert ColonOk(m.params) && WellFormed(rest);
      var tail := Render(rest);
      ParseRender(rest);
      RenderStartsWithPipe(rest);
      RenderCons(m, rest);
      var u := RenderParams(m.params) + tail;
      ParseParamsRender(m.params, tail);
      ParseModsStep(Render(mods), m.name, u, m.params, tail, rest);
    }
  }

  lemma {:induction false} ParseTailSound(t: seq<Tok>)
    requires ParseTail(t).Some?
    ensures var p := ParseTail(t).value; t == RenderTail(p.value) + [RParen] + p.rest
    decreases |t|
  {
    var p := ParseTail(t).value;
    if t[0] != RParen {
      var q := ParseTail(t[2..]).value;
      assert p == Parsed([TokArg(t[1])] + q.value, q.rest);
      ParseTailSound(t[2..]);
      TokArgRoundTrip(t[1]);
      assert p.value[1..] == q.value;
      var a := [Comma, t[1]];
      var b := RenderTail(q.value);
      assert RenderTail(p.value) == a + b;
      assert t == a + (b + [RParen] + q.rest);
      assert a + (b + [RParen] + q.rest) == a + b + [RParen] + q.rest;
    } else {
      assert t == [RParen] + t[1..];
    }
  }

  lemma ParseArgsSound(t: seq<Tok>)
    requires ParseArgs(t).Some?
    ensures var p := ParseArgs(t).value; t == RenderArgs(p.value) + [RParen] + p.rest
  {
    var p := ParseArgs(t).value;
    if t[0] != RParen {
      var q := ParseTail(t[1..]).value;
      assert p == Parsed([TokArg(t[0])] + q.value, q.rest);
      ParseTailSound(t[1..]);
      TokArgRoundTrip(t[0]);
      assert p.value[1..] == q.value;
      assert RenderArgs(p.value) == [t[0]] + RenderTail(q.value);
      assert t == [t[0]] + t[1..];
    } else {
      assert p == Parsed([], t[1..]);
      assert t == [RParen] + t[1..];
    }
  }

  lemma ParseParamsSound(t: seq<Tok>)
    requires ParseParams(t).Some?
    ensures var p := ParseParams(t).value;
      && t == RenderParams(p.value) + p.rest
      && ColonOk(p.value)
  {
    if |t| >= 2 && t[0] == ColonTok && (t[1].Ident? || t[1].NumTok?) {
      assert ParseParams(t).value == Parsed(ColonParam(TokArg(t[1])), t[2..]);
      assert t == [t[0], t[1]] + t[2..];
    } else if |t| >= 1 && t[0] == LParen {
      var q := ParseArgs(t[1..]).value;
      assert ParseParams(t).value == Parsed(CallParams(q.value), q.rest);
      CallSound(t);
    }
  }

  /** A parenthesised argument list is spelled by exactly the tokens it was read from. */
  lemma CallSound(t: seq<Tok>)
    requires |t| >= 1 && t[0] == LParen && ParseArgs(t[1..]).Some?
    ensures var q := ParseArgs(t[1..]).value;
      t == RenderParams(CallParams(q.value)) + q.rest
  {
    var q := ParseArgs(t[1..]).value;
    var r := RenderArgs(q.value);
    ParseArgsSound(t[1..]);
    assert t == [LParen] + t[1..];
    assert [LParen] + (r + [RParen] + q.rest) == [LParen] + r + [RParen] + q.rest;
  }

  /** One modifier read off the front: what `ParseMods` does with a non-empty input it accepts. */
  lemma ParseModsFront(t: seq<Tok>)
    requires |t| > 0 && ParseMods(t).Some?
    ensures |t| >= 2 && t[0] == Pipe && t[1].Ident?
    ensures ParseParams(t[2..]).Some?
    ensures var p := ParseParams(t[2..]).value;
      && |p.rest| < |t|
      && ParseMods(p.rest).Some?
      && ParseMods(t).value == [Modifier(t[1].name, p.value)] + ParseMods(p.rest).value
  {
  }

  lemma RenderCons(m: Modifier, tail: seq<Modifier>)
    ensures Render([m] + tail) == [Pipe, Ident(m.name)] + (RenderParams(m.params) + Render(tail))
  {
    assert ([m] + tail)[1..] == tail;
    var a := [Pipe, Ident(m.name)];
    var b := RenderParams(m.params);
    var c := Render(tail);
    assert a + b + c == a + (b + c);
  }

  lemma WellFormedCons(m: Modifier, tail: seq<Modifier>)
    requires ColonOk(m.params) && WellFormed(tail)
    ensures WellFormed([m] + tail)
  {
    assert ([m] + tail)[1..] == tail;
  }

  /** Whatever `ParseMods` reads has exactly the input as its tokens. */
  lemma {:induction false} ParseModsRenders(t: seq<Tok>)
    requires ParseMods(t).Some?
    ensures Render(ParseMods(t).value) == t
    decreases |t|
  {
    if |t| > 0 {
      ParseModsFront(t);
      var u := t[2..];
      var p := ParseParams(u).value;
      var tail := ParseMods(p.rest).value;
      var m := Modifier(t[1].name, p.value);
      ParseParamsSound(u);
      ParseModsRenders(p.rest);
      RenderCons(m, tail);
      assert t == [t[0], t[1]] + u;
    }
  }

  /** Whatever `ParseMods` reads is well formed. */
  lemma {:induction false} ParseModsWellFormed(t: seq<Tok>)
    requires ParseMods(t).Some?
    ensures WellFormed(ParseMods(t).value)
    decreases |t|
  {
    if |t| > 0 {
      ParseModsFront(t);
      var p := ParseParams(t[2..]).value;
      ParseParamsSound(t[2..]);
      ParseModsWellFormed(p.rest);
      WellFormedCons(Modifier(t[1].name, p.value), ParseMods(p.rest).value);
    }
  }

  /** A token sequence reads as a modifier list exactly when it renders one well-formed list. */
  lemma ParseModsIff(t: seq<Tok>, mods: seq<Modifier>)
    ensures ParseMods(t) == Some(mods) <==> WellFormed(mods) && Render(mods) == t
  {
    if ParseMods(t) == Some(mods) {
      ParseModsRenders(t);
      ParseModsWellFormed(t);
    }
    if WellFormed(mods) && Render(mods) == t {
      ParseRender(mods);
    }
  }

  /** An expression with the modifiers applied so far, the earliest innermost. */
  datatype Piped = Base(e: Precedence.Expr) | Applied(inner: Piped, m: Modifier)

  /** Apply modifiers left to right to the whole expression. */
  function Pipeline(e: Precedence.Expr, mods: seq<Modifier>): Piped
    decreases |mods|
  {
    if |mods| == 0 then Base(e) else Applied(Pipeline(e, mods[..|mods| - 1]), mods[|mods| - 1])
  }

  function Expression(p: Piped): Precedence.Expr {
    match p
    case Base(e) => e
    case Applied(inner, _) => Expression(inner)
  }

  /** The modifiers of a pipeline, innermost first. */
  function Stages(p: Piped): seq<Modifier> {
    match p
    case Base(_) => []
    case Applied(inner, m) => Stages(inner) + [m]
  }

  /** Every pipeline is one expression with its modifiers, the first-written applied first. */
  lemma {:induction false} PipelineStages(e: Precedence.Expr, mods: seq<Modifier>)
    ensures Expression(Pipeline(e, mods)) == e && Stages(Pipeline(e, mods)) == mods
    decreases |mods|
  {
    if |mods| > 0 {
      PipelineStages(e, mods[..|mods| - 1]);
      assert mods[..|mods| - 1] + [mods[|mods| - 1]] == mods;
    }
  }

  lemma {:induction false} StagesPipeline(p: Piped)
    ensures Pipeline(Expression(p), Stages(p)) == p
  {
    match p
    case Base(_) =>
    case Applied(inner, m) =>
      StagesPipeline(inner);
      var s := Stages(inner) + [m];
      assert s[..|s| - 1] == Stages(inner);
  }

  /** `x | upper | truncate:20` applies `upper` first and `truncate` to its result. */
  lemma Example(x: Precedence.Expr)
    ensures ParseMods([Pipe, Ident("upper"), Pipe, Ident("truncate"), ColonTok, NumTok("20")])
         == Some([Modifier("upper", NoParams), Modifier("truncate", ColonParam(NumArg("20")))])
    ensures Pipeline(x, [Modifier("upper", NoParams), Modifier("truncate", ColonParam(NumArg("20")))])
         == Applied(Applied(Base(x), Modifier("upper", NoParams)), Modifier("truncate", ColonParam(NumArg("20"))))
  {
    var mods := [Modifier("upper", NoParams), Modifier("truncate", ColonParam(NumArg("20")))];
    assert Render(mods[1..][1..]) == [];
    assert Render(mods[1..]) == [Pipe, Ident("truncate"), ColonTok, NumTok("20")];
    assert Render(mods) == [Pipe, Ident("upper"), Pipe, Ident("truncate"), ColonTok, NumTok("20")];
    ParseModsIff(Render(mods), mods);
    assert mods[..1] == [mods[0]];
  }

  /** A nested variable is an argument in parentheses, but not after a colon. */
  lemma PathExample()
    ensures ParseMods([Pipe, Ident("f"), LParen, PathTok("a.b"), RParen])
         == Some([Modifier("f", CallParams([PathArg("a.b")]))])
    ensures ParseMods([Pipe, Ident("f"), ColonTok, PathTok("a.b")]).None?
  {
    var mods := [Modifier("f", CallParams([PathArg("a.b")]))];
    assert Render(mods[1..]) == [];
    assert Render(mods) == [Pipe, Ident("f"), LParen, PathTok("a.b"), RParen];
    ParseModsIff(Render(mods), mods);
    var t := [Pipe, Ident("f"), ColonTok, PathTok("a.b")];
    assert ParseParams(t[2..]) == Some(Parsed(NoParams, t[2..]));
  }
}
