/**
  Operator precedence and associativity of Antlers expressions
  (grammar.js:42-57, 214-220, 257-353). The precedence list runs from the
  tightest-binding level to the loosest; `prec.left` and `prec.right` give
  each binary level its associativity.

  An infix expression is read as a chain of operands separated by infix
  operators; `Parse` builds the one tree the table allows, and `WellPrec`
  says which trees those are.
*/
module Precedence {
  import opened Maybe

  /** The named precedence levels, in the order the grammar lists them. */
  datatype Level =
    | Parentheses | Unary | Exponentiation | Multiplicative | Additive | Comparison
    | Logical | Bitwise | Coalescing | Ternary | Assignment | Modifier

  const Table: seq<Level> := [
    Parentheses, Unary, Exponentiation, Multiplicative, Additive, Comparison,
    Logical, Bitwise, Coalescing, Ternary, Assignment, Modifier
  ]

  /** How tightly a level binds: its distance from the end of the list. */
  function Strength(l: Level): nat {
    match l
    case Parentheses => 12
    case Unary => 11
    case Exponentiation => 10
    case Multiplicative => 9
    case Additive => 8
    case Comparison => 7
    case Logical => 6
    case Bitwise => 5
    case Coalescing => 4
    case Ternary => 3
    case Assignment => 2
    case Modifier => 1
  }

  /** Each level appears once in the list, and an earlier level binds more tightly. */
  lemma StrengthFollowsTable()
    ensures forall l: Level :: l in Table
    ensures forall i, j :: 0 <= i < j < |Table| ==> Strength(Table[i]) > Strength(Table[j])
    ensures forall l1: Level, l2: Level :: Strength(l1) == Strength(l2) ==> l1 == l2
  {
    forall l: Level ensures l in Table {
      assert Table[|Table| - Strength(l)] == l;
    }
  }

  /** `prec.right` levels; every other binary level is `prec.left`. */
  predicate IsRightAssoc(l: Level) {
    l == Exponentiation || l == Unary || l == Ternary || l == Assignment
  }

  datatype BinOp =
    | Pow
    | Mul | Div | Rem
    | Add | Sub
    | StrictEq | StrictNe | Eq | Ne | LtGt | Lt | Gt | Le | Ge
    | AndSym | OrSym | AndWord | OrWord | XorWord
    | Bwa | Bwo | Bxor
    | Coalesce
    | Assign | AddAssign | SubAssign | MulAssign | DivAssign | RemAssign | CoalesceAssign

  function Spelling(b: BinOp): string {
    match b
    case Pow => "**"
    case Mul => "*"
    case Div => "/"
    case Rem => "%"
    case Add => "+"
    case Sub => "-"
    case StrictEq => "==="
    case StrictNe => "!=="
    case Eq => "=="
    case Ne => "!="
    case LtGt => "<>"
    case Lt => "<"
    case Gt => ">"
    case Le => "<="
    case Ge => ">="
    case AndSym => "&&"
    case OrSym => "||"
    case AndWord => "and"
    case OrWord => "or"
    case XorWord => "xor"
    case Bwa => "bwa"
    case Bwo => "bwo"
    case Bxor => "bxor"
    case Coalesce => "??"
    case Assign => "="
    case AddAssign => "+="
    case SubAssign => "-="
    case MulAssign => "*="
    case DivAssign => "/="
    case RemAssign => "%="
    case CoalesceAssign => "?="
  }

  /** The operator a token spells, if any, read by length and then character by character. */
  function OperatorNamed(w: string): Option<BinOp> {
    if |w| == 1 then OneCharOperator(w[0])
    else if |w| == 2 then TwoCharOperator(w[0], w[1])
    else if |w| == 3 then ThreeCharOperator(w[0], w[1], w[2])
    else if w == "bxor" then Some(Bxor)
    else None
  }

  function OneCharOperator(c: char): Option<BinOp> {
    match c
    case '*' => Some(Mul)
    case '/' => Some(Div)
    case '%' => Some(Rem)
    case '+' => Some(Add)
    case '-' => Some(Sub)
    case '<' => Some(Lt)
    case '>' => Some(Gt)
    case '=' => Some(Assign)
    case _ => None
  }

  function TwoCharOperator(a: char, b: char): Option<BinOp> {
    if b == '=' then
      match a
      case '=' => Some(Eq)
      case '!' => Some(Ne)
      case '<' => Some(Le)
      case '>' => Some(Ge)
      case '+' => Some(AddAssign)
      case '-' => Some(SubAssign)
      case '*' => Some(MulAssign)
      case '/' => Some(DivAssign)
      case '%' => Some(RemAssign)
      case '?' => Some(CoalesceAssign)
      case _ => None
    else if a == '*' && b == '*' then Some(Pow)
    else if a == '<' && b == '>' then Some(LtGt)
    else if a == '&' && b == '&' then Some(AndSym)
    else if a == '|' && b == '|' then Some(OrSym)
    else if a == 'o' && b == 'r' then Some(OrWord)
    else if a == '?' && b == '?' then Some(Coalesce)
    else None
  }

  function ThreeCharOperator(a: char, b: char, c: char): Option<BinOp> {
    if b == '=' && c == '=' then
      match a
      case '=' => Some(StrictEq)
      case '!' => Some(StrictNe)
      case _ => None
    else if a == 'a' && b == 'n' && c == 'd' then Some(AndWord)
    else if a == 'x' && b == 'o' && c == 'r' then Some(XorWord)
    else if a == 'b' && b == 'w' && c == 'a' then Some(Bwa)
    else if a == 'b' && b == 'w' && c == 'o' then Some(Bwo)
    else None
  }

  /** Each operator's token names that operator. */
  lemma SpellingRoundTrip(b: BinOp)
    ensures OperatorNamed(Spelling(b)) == Some(b)
  {
    match b
    case Pow =>
    case Mul =>
    case Div =>
    case Rem =>
    case Add =>
    case Sub =>
    case StrictEq =>
    case StrictNe =>
    case Eq =>
    case Ne =>
    case LtGt =>
    case Lt =>
    case Gt =>
    case Le =>
    case Ge =>
    case AndSym =>
    case OrSym =>
    case AndWord =>
    case OrWord =>
    case XorWord =>
    case Bwa =>
    case Bwo =>
    case Bxor =>
    case Coalesce =>
    case Assign =>
    case AddAssign =>
    case SubAssign =>
    case MulAssign =>
    case DivAssign =>
    case RemAssign =>
    case CoalesceAssign =>
  }

  /** No two operators share a spelling. */
  lemma SpellingInjective(b: BinOp, c: BinOp)
    ensures Spelling(c) == Spelling(b) ==> c == b
  {
    SpellingRoundTrip(b);
    SpellingRoundTrip(c);
  }

  function LevelOf(b: BinOp): Level {
    match b
    case Pow => Exponentiation
    case Mul | Div | Rem => Multiplicative
    case Add | Sub => Additive
    case StrictEq | StrictNe | Eq | Ne | LtGt | Lt | Gt | Le | Ge => Comparison
    case AndSym | OrSym | AndWord | OrWord | XorWord => Logical
    case Bwa | Bwo | Bxor => Bitwise
    case Coalesce => Coalescing
    case _ => Assignment
  }

  /** Every binary operator sits strictly between the unary and the ternary levels, except assignment below the ternary. */
  lemma BinaryLevels(b: BinOp)
    ensures Strength(Unary) > Strength(LevelOf(b)) > Strength(Modifier)
    ensures LevelOf(b) != Ternary && LevelOf(b) != Parentheses
    ensures IsRightAssoc(LevelOf(b)) <==> b == Pow || LevelOf(b) == Assignment
    ensures Strength(LevelOf(b)) < Strength(Ternary) <==> LevelOf(b) == Assignment
  {
  }

  datatype UnaryOp = Not | Neg | Plus

  /** The operator between two operands of a chain: a binary operator, or `? mid :` of a ternary. */
  datatype Infix = Bin(b: BinOp) | Cond(mid: Expr)

  datatype Expr = Leaf(p: Primary) | Node(op: Infix, left: Expr, right: Expr)

  /**
    An operand: a primary expression, a unary operator applied to an operand
    (unary binds tighter than every infix level), or a parenthesised
    expression.
  */
  datatype Primary = Atom(name: string) | Prefix(u: UnaryOp, arg: Primary) | Paren(inner: Expr)

  datatype Link = Link(op: Infix, operand: Primary)

  /** An operand followed by operator/operand pairs, as the tokens appear. */
  datatype Chain = Chain(head: Primary, links: seq<Link>)

  function InfixLevel(op: Infix): Level {
    match op
    case Bin(b) => LevelOf(b)
    case Cond(_) => Ternary
  }

  function Str(op: Infix): nat {
    Strength(InfixLevel(op))
  }

  predicate RightAssoc(op: Infix) {
    IsRightAssoc(InfixLevel(op))
  }

  /** Operators of equal strength share a level and so an associativity. */
  lemma SameStrengthSameAssoc(a: Infix, b: Infix)
    ensures Str(a) == Str(b) ==> InfixLevel(a) == InfixLevel(b) && RightAssoc(a) == RightAssoc(b)
  {
    StrengthFollowsTable();
  }

  function Join(a: Chain, op: Infix, b: Chain): Chain {
    Chain(a.head, a.links + [Link(op, b.head)] + b.links)
  }

  /** The operands and operators of a tree, left to right. */
  function Flatten(e: Expr): (c: Chain)
    ensures |c.links| == Size(e)
  {
    match e
    case Leaf(p) => Chain(p, [])
    case Node(op, l, r) => Join(Flatten(l), op, Flatten(r))
  }

  function Size(e: Expr): nat {
    match e
    case Leaf(_) => 0
    case Node(_, l, r) => Size(l) + 1 + Size(r)
  }

  /**
    The trees the table allows: below a node, a left child of equal strength
    only on a left-associative level and a right child of equal strength only
    on a right-associative one, every other child binding strictly tighter.
    Operands are not looked into: a parenthesised expression or a ternary's
    middle is a separate chain.
  */
  predicate WellPrec(e: Expr) {
    match e
    case Leaf(_) => true
    case Node(op, l, r) =>
      && WellPrec(l)
      && WellPrec(r)
      && (l.Node? ==> Str(l.op) > Str(op) || (Str(l.op) == Str(op) && !RightAssoc(op)))
      && (r.Node? ==> Str(r.op) > Str(op) || (Str(r.op) == Str(op) && RightAssoc(op)))
  }

  /**
    `links[k]` is the loosest operator among the first `n` links: every link
    before it binds at least as tightly (strictly, if it is right-associative)
    and every link after it strictly more tightly (or equally, if it is
    right-associative).
  */
  predicate IsRootOf(links: seq<Link>, k: nat, n: nat) {
    && k < n <= |links|
    && var s := Str(links[k].op);
    && (forall j :: 0 <= j < k ==> Str(links[j].op) > s || (Str(links[j].op) == s && !RightAssoc(links[k].op)))
    && (forall j :: k < j < n ==> Str(links[j].op) > s || (Str(links[j].op) == s && RightAssoc(links[k].op)))
  }

  /** At most one link can be the root of a chain. */
  lemma RootUnique(links: seq<Link>, k1: nat, k2: nat, n: nat)
    requires IsRootOf(links, k1, n) && IsRootOf(links, k2, n)
    ensures k1 == k2
  {
    if k1 < k2 {
      SameStrengthSameAssoc(links[k1].op, links[k2].op);
    } else if k2 < k1 {
      SameStrengthSameAssoc(links[k1].op, links[k2].op);
    }
  }

  function RootFrom(links: seq<Link>, j: nat, best: nat): (k: nat)
    requires IsRootOf(links, best, j)
    ensures IsRootOf(links, k, |links|)
    decreases |links| - j
  {
    if j == |links| then best
    else
      var sj := Str(links[j].op);
      var sb := Str(links[best].op);
      if sj < sb || (sj == sb && !RightAssoc(links[j].op)) then
        SameStrengthSameAssoc(links[j].op, links[best].op);
        RootFrom(links, j + 1, j)
      else
        SameStrengthSameAssoc(links[j].op, links[best].op);
        RootFrom(links, j + 1, best)
  }

  /** The link whose operator becomes the root of the chain's tree. */
  function RootIndex(links: seq<Link>): (k: nat)
    requires |links| > 0
    ensures IsRootOf(links, k, |links|)
  {
    RootFrom(links, 1, 0)
  }

  /** The tree the precedence table gives a chain: split at the root operator and parse both sides. */
  function Parse(c: Chain): Expr
    decreases |c.links|
  {
    if |c.links| == 0 then Leaf(c.head)
    else
      var k := RootIndex(c.links);
      Node(c.links[k].op, Parse(Chain(c.head, c.links[..k])), Parse(Chain(c.links[k].operand, c.links[k + 1..])))
  }

  /** Where each link of a joined chain comes from. */
  lemma JoinLinks(a: Chain, op: Infix, b: Chain)
    ensures var links := Join(a, op, b).links;
      && |links| == |a.links| + 1 + |b.links|
      && (forall j :: 0 <= j < |a.links| ==> links[j] == a.links[j])
      && links[|a.links|] == Link(op, b.head)
      && (forall j :: |a.links| < j < |links| ==> links[j] == b.links[j - |a.links| - 1])
  {
  }

  /** Splitting a chain at a link and joining the halves again gives the chain back. */
  lemma JoinSplit(c: Chain, k: nat)
    requires k < |c.links|
    ensures Join(Chain(c.head, c.links[..k]), c.links[k].op, Chain(c.links[k].operand, c.links[k + 1..])) == c
  {
    assert c.links[..k] + [Link(c.links[k].op, c.links[k].operand)] + c.links[k + 1..] == c.links;
  }

  /** Parsing keeps every operand and operator, in order. */
  lemma {:induction false} FlattenParse(c: Chain)
    ensures Flatten(Parse(c)) == c
    decreases |c.links|
  {
    if |c.links| > 0 {
      var k := RootIndex(c.links);
      var left := Chain(c.head, c.links[..k]);
      var right := Chain(c.links[k].operand, c.links[k + 1..]);
      FlattenParse(left);
      FlattenParse(right);
      JoinSplit(c, k);
    }
  }

  /** Every tree `Parse` builds is one the table allows. */
  lemma {:induction false} ParseWellPrec(c: Chain)
    ensures WellPrec(Parse(c))
    decreases |c.links|
  {
    if |c.links| > 0 {
      var k := RootIndex(c.links);
      var op := c.links[k].op;
      var left := Chain(c.head, c.links[..k]);
      var right := Chain(c.links[k].operand, c.links[k + 1..]);
      ParseWellPrec(left);
      ParseWellPrec(right);
      if |left.links| > 0 {
        var j := RootIndex(left.links);
        assert left.links[j] == c.links[j];
        SameStrengthSameAssoc(c.links[j].op, op);
      }
      if |right.links| > 0 {
        var j := RootIndex(right.links);
        assert right.links[j] == c.links[k + 1 + j];
        SameStrengthSameAssoc(c.links[k + 1 + j].op, op);
      }
    }
  }

  /** Below the root of an allowed tree, every operator binds at least as tightly as the root. */
  lemma {:induction false} FlattenBound(e: Expr)
    requires WellPrec(e) && e.Node?
    ensures forall j :: 0 <= j < |Flatten(e).links| ==> Str(Flatten(e).links[j].op) >= Str(e.op)
  {
    var l := e.left;
    var r := e.right;
    var fl := Flatten(l);
    var fr := Flatten(r);
    var links := Flatten(e).links;
    JoinLinks(fl, e.op, fr);
    if l.Node? {
      FlattenBound(l);
    }
    if r.Node? {
      FlattenBound(r);
    }
    forall j | 0 <= j < |links| ensures Str(links[j].op) >= Str(e.op) {
      if j < |fl.links| {
        assert links[j] == fl.links[j];
      } else if j > |fl.links| {
        assert links[j] == fr.links[j - |fl.links| - 1];
      }
    }
  }

  /** In an allowed tree, the operators left of the root bind at least as tightly, and strictly unless the root is left-associative. */
  lemma LeftBinds(e: Expr)
    requires WellPrec(e) && e.Node?
    ensures forall j :: 0 <= j < |Flatten(e.left).links| ==>
      var t := Str(Flatten(e.left).links[j].op);
      t > Str(e.op) || (t == Str(e.op) && !RightAssoc(e.op))
  {
    if e.left.Node? {
      FlattenBound(e.left);
    }
  }

  /** In an allowed tree, the operators right of the root bind at least as tightly, and strictly unless the root is right-associative. */
  lemma RightBinds(e: Expr)
    requires WellPrec(e) && e.Node?
    ensures forall j :: 0 <= j < |Flatten(e.right).links| ==>
      var t := Str(Flatten(e.right).links[j].op);
      t > Str(e.op) || (t == Str(e.op) && RightAssoc(e.op))
  {
    if e.right.Node? {
      FlattenBound(e.right);
    }
  }

  /** The operator of an allowed tree's root is the root of its chain. */
  lemma RootOfFlatten(e: Expr)
    requires WellPrec(e) && e.Node?
    ensures IsRootOf(Flatten(e).links, Size(e.left), |Flatten(e).links|)
  {
    var fl := Flatten(e.left);
    var fr := Flatten(e.right);
    var links := Flatten(e).links;
    var m := |fl.links|;
    var s := Str(e.op);
    JoinLinks(fl, e.op, fr);
    LeftBinds(e);
    RightBinds(e);
    forall j | 0 <= j < m
      ensures Str(links[j].op) > s || (Str(links[j].op) == s && !RightAssoc(e.op))
    {
      assert links[j] == fl.links[j];
    }
    forall j | m < j < |links|
      ensures Str(links[j].op) > s || (Str(links[j].op) == s && RightAssoc(e.op))
    {
      assert links[j] == fr.links[j - m - 1];
    }
    assert links[m].op == e.op;
  }

  /** An allowed tree is the one `Parse` rebuilds from its operands and operators. */
  lemma {:induction false} ParseFlatten(e: Expr)
    requires WellPrec(e)
    ensures Parse(Flatten(e)) == e
  {
    if e.Node? {
      var c := Flatten(e);
      var fl := Flatten(e.left);
      var fr := Flatten(e.right);
      var m := |fl.links|;
      RootOfFlatten(e);
      RootUnique(c.links, RootIndex(c.links), m, |c.links|);
      assert c.links == fl.links + [Link(e.op, fr.head)] + fr.links;
      assert c.links[..m] == fl.links;
      assert c.links[m + 1..] == fr.links;
      ParseFlatten(e.left);
      ParseFlatten(e.right);
    }
  }

  /** A chain parses to a tree exactly when the tree is allowed and spells the chain. */
  lemma ParseIff(c: Chain, e: Expr)
    ensures Parse(c) == e <==> WellPrec(e) && Flatten(e) == c
  {
    if Parse(c) == e {
      ParseWellPrec(c);
      FlattenParse(c);
    }
    if WellPrec(e) && Flatten(e) == c {
      ParseFlatten(e);
    }
  }

  /** A chain of three operands and two operators parses as the allowed tree that spells it. */
  lemma ParseTwo(a: Primary, op1: Infix, b: Primary, op2: Infix, c: Primary, e: Expr)
    requires e == Node(op1, Leaf(a), Node(op2, Leaf(b), Leaf(c))) || e == Node(op2, Node(op1, Leaf(a), Leaf(b)), Leaf(c))
    requires WellPrec(e)
    ensures Parse(Chain(a, [Link(op1, b), Link(op2, c)])) == e
  {
    var links := [Link(op1, b), Link(op2, c)];
    var none: seq<Link> := [];
    assert Flatten(Leaf(a)) == Chain(a, none);
    assert Flatten(Leaf(b)) == Chain(b, none);
    assert Flatten(Leaf(c)) == Chain(c, none);
    assert none + [Link(op2, c)] + none == [Link(op2, c)];
    assert none + [Link(op1, b)] + none == [Link(op1, b)];
    if e == Node(op1, Leaf(a), Node(op2, Leaf(b), Leaf(c))) {
      var r := Flatten(Node(op2, Leaf(b), Leaf(c)));
      assert r == Chain(b, [Link(op2, c)]);
      assert [] + [Link(op1, b)] + r.links == links;
    } else {
      var l := Flatten(Node(op1, Leaf(a), Leaf(b)));
      assert l == Chain(a, [Link(op1, b)]);
      assert l.links + [Link(op2, c)] + [] == links;
    }
    assert Flatten(e) == Chain(a, links);
    ParseFlatten(e);
  }

  /** `a + b * c` groups the product. */
  lemma ProductFirst(a: Primary, b: Primary, c: Primary)
    ensures Parse(Chain(a, [Link(Bin(Add), b), Link(Bin(Mul), c)]))
         == Node(Bin(Add), Leaf(a), Node(Bin(Mul), Leaf(b), Leaf(c)))
  {
    ParseTwo(a, Bin(Add), b, Bin(Mul), c, Node(Bin(Add), Leaf(a), Node(Bin(Mul), Leaf(b), Leaf(c))));
  }

  /** `a - b - c` groups to the left. */
  lemma SubtractionLeft(a: Primary, b: Primary, c: Primary)
    ensures Parse(Chain(a, [Link(Bin(Sub), b), Link(Bin(Sub), c)]))
         == Node(Bin(Sub), Node(Bin(Sub), Leaf(a), Leaf(b)), Leaf(c))
  {
    ParseTwo(a, Bin(Sub), b, Bin(Sub), c, Node(Bin(Sub), Node(Bin(Sub), Leaf(a), Leaf(b)), Leaf(c)));
  }

  /** `a ** b ** c` groups to the right. */
  lemma PowerRight(a: Primary, b: Primary, c: Primary)
    ensures Parse(Chain(a, [Link(Bin(Pow), b), Link(Bin(Pow), c)]))
         == Node(Bin(Pow), Leaf(a), Node(Bin(Pow), Leaf(b), Leaf(c)))
  {
    ParseTwo(a, Bin(Pow), b, Bin(Pow), c, Node(Bin(Pow), Leaf(a), Node(Bin(Pow), Leaf(b), Leaf(c))));
  }

  /** `a = b = c` groups to the right. */
  lemma AssignRight(a: Primary, b: Primary, c: Primary)
    ensures Parse(Chain(a, [Link(Bin(Assign), b), Link(Bin(Assign), c)]))
         == Node(Bin(Assign), Leaf(a), Node(Bin(Assign), Leaf(b), Leaf(c)))
  {
    ParseTwo(a, Bin(Assign), b, Bin(Assign), c, Node(Bin(Assign), Leaf(a), Node(Bin(Assign), Leaf(b), Leaf(c))));
  }

  /** `a ?? b ? m : d` tests the coalesced value: coalescing binds tighter than the ternary. */
  lemma CoalesceBeforeTernary(a: Primary, b: Primary, m: Expr, d: Primary)
    ensures Parse(Chain(a, [Link(Bin(Coalesce), b), Link(Cond(m), d)]))
         == Node(Cond(m), Node(Bin(Coalesce), Leaf(a), Leaf(b)), Leaf(d))
  {
    ParseTwo(a, Bin(Coalesce), b, Cond(m), d, Node(Cond(m), Node(Bin(Coalesce), Leaf(a), Leaf(b)), Leaf(d)));
  }
}
