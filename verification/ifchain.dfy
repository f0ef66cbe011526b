/**
  The shape of an `if` statement (grammar.js:437-449): `{{ if cond }}`, a
  body of nodes, any number of `{{ elseif cond }}` branches, at most one
  `{{ else }}` branch, which comes last, and the closing `{{ /if }}`.

  Conditions and the nodes inside a branch are left abstract (`C` and `N`);
  the statement is read from the sequence of its tags and nodes.
*/
module IfChain {
  import opened Maybe

  datatype IfBody<C, N> =
    | EndIf(nodes: seq<N>)
    | ElseIf(nodes: seq<N>, cond: C, rest: IfBody<C, N>)
    | Else(nodes: seq<N>, elseNodes: seq<N>)

  datatype IfStatement<C, N> = IfStatement(cond: C, body: IfBody<C, N>)

  /** A tag or a node, in the order they appear in the template. */
  datatype Piece<C, N> = OpenIf(c: C) | ElseIfTag(ec: C) | ElseTag | CloseIf | Inner(n: N)

  function Inners<C, N>(ns: seq<N>): (ps: seq<Piece<C, N>>)
    ensures |ps| == |ns| && forall i :: 0 <= i < |ns| ==> ps[i] == Inner(ns[i])
  {
    seq(|ns|, i requires 0 <= i < |ns| => Inner(ns[i]))
  }

  predicate AllInner<C, N>(ps: seq<Piece<C, N>>) {
    forall i :: 0 <= i < |ps| ==> ps[i].Inner?
  }

  function NodesOf<C, N>(ps: seq<Piece<C, N>>): (ns: seq<N>)
    requires AllInner(ps)
    ensures Inners(ns) == ps
  {
    seq(|ps|, i requires 0 <= i < |ps| => ps[i].n)
  }

  function BodyPieces<C, N>(b: IfBody<C, N>): seq<Piece<C, N>> {
    match b
    case EndIf(ns) => Inners(ns) + [CloseIf]
    case ElseIf(ns, c, r) => Inners(ns) + [ElseIfTag(c)] + BodyPieces(r)
    case Else(ns, es) => Inners(ns) + [ElseTag] + Inners(es) + [CloseIf]
  }

  /** The tags and nodes of a statement, in order. */
  function Pieces<C, N>(st: IfStatement<C, N>): seq<Piece<C, N>> {
    [OpenIf(st.cond)] + BodyPieces(st.body)
  }

  /**
    The body's rule stated position by position: it ends with the one
    `/if`, holds no other `if` opener, and after an `else` comes no other
    branch tag.
  */
  predicate BodyOk<C, N>(ps: seq<Piece<C, N>>) {
    && |ps| >= 1
    && ps[|ps| - 1].CloseIf?
    && (forall k :: 0 <= k < |ps| - 1 ==> !ps[k].CloseIf? && !ps[k].OpenIf?)
    && (forall k, j :: 0 <= k < j < |ps| && ps[k].ElseTag? ==> !ps[j].ElseTag? && !ps[j].ElseIfTag?)
  }

  predicate WellFormedChain<C, N>(ps: seq<Piece<C, N>>) {
    |ps| >= 1 && ps[0].OpenIf? && BodyOk(ps[1..])
  }

  /** The first piece that is not a node, or the length when there is none. */
  function FirstTag<C, N>(ps: seq<Piece<C, N>>): (k: nat)
    ensures k <= |ps|
    ensures forall i :: 0 <= i < k ==> ps[i].Inner?
    ensures k < |ps| ==> !ps[k].Inner?
  {
    if |ps| == 0 || !ps[0].Inner? then 0 else 1 + FirstTag(ps[1..])
  }

  /** Reads a body that must use up all of `ps`. */
  function ParseBody<C, N>(ps: seq<Piece<C, N>>): Option<IfBody<C, N>>
    decreases |ps|
  {
    var k := FirstTag(ps);
    if k == |ps| then None
    else
      var ns := NodesOf(ps[..k]);
      match ps[k]
      case CloseIf => if k == |ps| - 1 then Some(EndIf(ns)) else None
      case ElseIfTag(c) =>
        (match ParseBody(ps[k + 1..])
         case None => None
         case Some(r) => Some(ElseIf(ns, c, r)))
      case ElseTag =>
        var rest := ps[k + 1..];
        var j := FirstTag(rest);
        if j == |rest| - 1 && rest[j].CloseIf? then Some(Else(ns, NodesOf(rest[..j]))) else None
      case OpenIf(_) => None
  }

  function Build<C, N>(ps: seq<Piece<C, N>>): Option<IfStatement<C, N>> {
    if |ps| >= 1 && ps[0].OpenIf? then
      match ParseBody(ps[1..])
      case None => None
      case Some(b) => Some(IfStatement(ps[0].c, b))
    else None
  }

  /** Nodes followed by a tag: the tag is the first piece that is not a node. */
  lemma FirstTagAfterNodes<C, N>(ns: seq<N>, rest: seq<Piece<C, N>>)
    requires |rest| > 0 && !rest[0].Inner?
    ensures FirstTag(Inners(ns) + rest) == |ns|
    ensures (Inners(ns) + rest)[..|ns|] == Inners<C, N>(ns)
    ensures (Inners(ns) + rest)[|ns|..] == rest
  {
    var ps := Inners<C, N>(ns) + rest;
    assert forall i :: 0 <= i < |ns| ==> ps[i] == Inner(ns[i]);
    assert ps[|ns|] == rest[0];
  }

  lemma NodesOfInners<C, N>(ns: seq<N>)
    ensures NodesOf(Inners<C, N>(ns)) == ns
  {
  }

  /** Every body is read back from its pieces. */
  lemma {:induction false} ParseBodyPieces<C, N>(b: IfBody<C, N>)
    ensures ParseBody(BodyPieces(b)) == Some(b)
  {
    var ps := BodyPieces(b);
    match b
    case EndIf(ns) =>
      FirstTagAfterNodes<C, N>(ns, [CloseIf]);
      NodesOfInners<C, N>(ns);
    case ElseIf(ns, c, r) =>
      var tail := [ElseIfTag(c)] + BodyPieces(r);
      assert ps == Inners(ns) + tail;
      FirstTagAfterNodes(ns, tail);
      NodesOfInners<C, N>(ns);
      assert ps[|ns| + 1..] == BodyPieces(r);
      ParseBodyPieces(r);
    case Else(ns, es) =>
      var tail := [ElseTag] + Inners(es) + [CloseIf];
      assert ps == Inners(ns) + tail;
      FirstTagAfterNodes(ns, tail);
      NodesOfInners<C, N>(ns);
      var rest := ps[|ns| + 1..];
      assert rest == Inners(es) + [CloseIf];
      FirstTagAfterNodes<C, N>(es, [CloseIf]);
      NodesOfInners<C, N>(es);
  }

  lemma SplitAtTag<C, N>(ps: seq<Piece<C, N>>, k: nat)
    requires k < |ps| && AllInner(ps[..k])
    ensures ps == Inners(NodesOf(ps[..k])) + [ps[k]] + ps[k + 1..]
  {
    assert ps == ps[..k] + [ps[k]] + ps[k + 1..];
  }

  /** Whatever `ParseBody` reads is spelled by exactly the pieces it read. */
  lemma {:induction false} ParseBodySound<C, N>(ps: seq<Piece<C, N>>)
    requires ParseBody(ps).Some?
    ensures BodyPieces(ParseBody(ps).value) == ps
    decreases |ps|
  {
    var k := FirstTag(ps);
    var ns := NodesOf(ps[..k]);
    SplitAtTag(ps, k);
    var b := ParseBody(ps).value;
    match ps[k]
    case CloseIf =>
      assert ps[k + 1..] == [];
      assert b == EndIf(ns);
    case ElseIfTag(c) =>
      ParseBodySound(ps[k + 1..]);
      assert b == ElseIf(ns, c, ParseBody(ps[k + 1..]).value);
    case ElseTag =>
      var rest := ps[k + 1..];
      var j := FirstTag(rest);
      SplitAtTag(rest, j);
      assert rest[j + 1..] == [];
      assert b == Else(ns, NodesOf(rest[..j]));
  }

  /** Every body's pieces satisfy the position-by-position rule. */
  lemma {:induction false} BodyPiecesOk<C, N>(b: IfBody<C, N>)
    ensures BodyOk(BodyPieces(b))
  {
    var ps := BodyPieces(b);
    match b
    case EndIf(ns) =>
      assert forall k :: 0 <= k < |ns| ==> ps[k] == Inner(ns[k]);
    case ElseIf(ns, c, r) =>
      BodyPiecesOk(r);
      var rp := BodyPieces(r);
      var m := |ns|;
      assert forall k :: 0 <= k < m ==> ps[k] == Inner(ns[k]);
      assert ps[m] == ElseIfTag(c);
      assert forall k :: m < k < |ps| ==> ps[k] == rp[k - m - 1];
    case Else(ns, es) =>
      var m := |ns|;
      assert forall k :: 0 <= k < m ==> ps[k] == Inner(ns[k]);
      assert ps[m] == ElseTag;
      assert forall k :: m < k < |ps| - 1 ==> ps[k] == Inner(es[k - m - 1]);
  }

  /** The rule holds of every non-empty suffix. */
  lemma BodyOkSuffix<C, N>(ps: seq<Piece<C, N>>, m: nat)
    requires BodyOk(ps) && m < |ps|
    ensures BodyOk(ps[m..])
  {
    var rest := ps[m..];
    assert forall i :: 0 <= i < |rest| ==> rest[i] == ps[m + i];
  }

  /** Under the rule, everything between an `else` and the closing `/if` is a node. */
  lemma AfterElse<C, N>(ps: seq<Piece<C, N>>, k: nat)
    requires BodyOk(ps) && k < |ps| && ps[k].ElseTag?
    ensures k < |ps| - 1
    ensures forall i :: k < i < |ps| - 1 ==> ps[i].Inner?
  {
  }

  /** Pieces that satisfy the rule always read as a body. */
  lemma {:induction false} BodyOkParses<C, N>(ps: seq<Piece<C, N>>)
    requires BodyOk(ps)
    ensures ParseBody(ps).Some?
    decreases |ps|
  {
    var k := FirstTag(ps);
    assert k < |ps|;
    match ps[k]
    case CloseIf =>
    case ElseIfTag(c) =>
      BodyOkSuffix(ps, k + 1);
      BodyOkParses(ps[k + 1..]);
    case ElseTag =>
      AfterElse(ps, k);
      var rest := ps[k + 1..];
      assert forall i :: 0 <= i < |rest| - 1 ==> rest[i] == ps[k + 1 + i];
      assert rest[|rest| - 1] == ps[|ps| - 1];
      assert FirstTag(rest) == |rest| - 1;
    case OpenIf(_) =>
  }

  /** A sequence of tags and nodes follows the rule exactly when it reads as an `if` statement. */
  lemma BuildIff<C, N>(ps: seq<Piece<C, N>>)
    ensures WellFormedChain(ps) <==> Build(ps).Some?
  {
    if WellFormedChain(ps) {
      BodyOkParses(ps[1..]);
    }
    if Build(ps).Some? {
      ParseBodySound(ps[1..]);
      BodyPiecesOk(ParseBody(ps[1..]).value);
    }
  }

  /** `Build` and `Pieces` are inverse to each other. */
  lemma BuildPieces<C, N>(st: IfStatement<C, N>, ps: seq<Piece<C, N>>)
    ensures Build(ps) == Some(st) <==> Pieces(st) == ps
  {
    if Pieces(st) == ps {
      assert ps[1..] == BodyPieces(st.body);
      ParseBodyPieces(st.body);
    }
    if Build(ps) == Some(st) {
      ParseBodySound(ps[1..]);
      assert ps == [ps[0]] + ps[1..];
    }
  }

  /** A second `else` is rejected, and so is an `elseif` after the `else`. */
  lemma ElseMustBeLast<C, N>(c: C, d: C)
    ensures Build<C, N>([OpenIf(c), ElseTag, ElseTag, CloseIf]).None?
    ensures Build<C, N>([OpenIf(c), ElseTag, ElseIfTag(d), CloseIf]).None?
  {
    var p1: seq<Piece<C, N>> := [OpenIf(c), ElseTag, ElseTag, CloseIf];
    var p2: seq<Piece<C, N>> := [OpenIf(c), ElseTag, ElseIfTag(d), CloseIf];
    BuildIff(p1);
    BuildIff(p2);
    assert p1[1..][0].ElseTag? && p1[1..][1].ElseTag?;
    assert p2[1..][0].ElseTag? && p2[1..][1].ElseIfTag?;
  }
}
