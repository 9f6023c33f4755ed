/** What the size of a tree counts: its nodes, and the bytes of the names and strings in its text
    (crates/acetone-cypher/src/ast.rs). */
module TreeSize {
  import opened Syntax
  import opened Grammar
  import opened Printer
  import opened SizeBound

  /** The bytes a token carries into the tree: names, parameters and strings, but not keywords. */
  function PayloadOf(k: Token): nat {
    if k.Str? then |k.s| else if k.Parameter? || (k.Ident? && k.word == Plain) then |k.name| else 0
  }

  function Payload(ts: Tokens): nat {
    if ts == [] then 0 else PayloadOf(ts[0]) + Payload(ts[1..])
  }

  lemma {:induction false} PayloadConcat(a: Tokens, b: Tokens)
    ensures Payload(a + b) == Payload(a) + Payload(b)
  {
    if a == [] {
      assert a + b == b;
    } else {
      assert (a + b)[0] == a[0] && (a + b)[1..] == a[1..] + b;
      PayloadConcat(a[1..], b);
    }
  }

  lemma PayloadOne(k: Token)
    ensures Payload([k]) == PayloadOf(k)
  {
    assert [k][1..] == [];
  }

  /** A token without payload in front or behind. */
  lemma PayloadAround(open: Token, ts: Tokens, close: Token)
    ensures Payload([open] + (ts + [close])) == PayloadOf(open) + Payload(ts) + PayloadOf(close)
  {
    PayloadConcat([open], ts + [close]);
    PayloadConcat(ts, [close]);
    PayloadOne(open);
    PayloadOne(close);
  }

  function NodeCount(e: Expr): nat
    decreases e
  {
    1 + match e
        case Prop(b, _) => NodeCount(b)
        case Unary(_, x) => NodeCount(x)
        case Binary(_, l, r) => NodeCount(l) + NodeCount(r)
        case IsNull(x, _) => NodeCount(x)
        case ListLit(items) => NodeCounts(items)
        case Index(b, i) => NodeCount(b) + NodeCount(i)
        case _ => 0
  }

  function NodeCounts(es: seq<Expr>): nat
    decreases es
  {
    if es == [] then 0 else NodeCount(es[0]) + NodeCounts(es[1..])
  }

  ghost predicate Weighs(ts: Tokens, e: Expr) { Payload(ts) + NodeCount(e) == Size(e) }

  lemma GroupWeighs(e: Expr)
    requires Weighs(Print(e, 0), e)
    ensures Weighs(Group(e), e)
  {
    PayloadAround(LParen, Bare(e), RParen);
    PayloadAround(LParen, Wrap(Bare(e)), RParen);
  }

  /** The size of a tree is the number of its nodes and the bytes of the names and strings in its printed text. */
  lemma {:induction false} PrintWeighs(e: Expr, l: nat)
    ensures Weighs(Print(e, l), e)
    decreases e, 2
  {
    BareWeighs(e);
    GroupWeighs(e);
  }

  lemma {:induction false} BareWeighs(e: Expr)
    ensures Weighs(Print(e, 0), e)
    decreases e, 1
  {
    match e
    case Lit(v) => LiteralWeighs(v);
    case Param(name) => PayloadOne(Parameter(name));
    case Var(name) => PayloadOne(Ident(name, Plain));
    case Unary(op, x) =>
      PrintWeighs(x, PrefixLevel(op));
      PayloadConcat([PrefixToken(op)], Print(x, PrefixLevel(op)));
      PayloadOne(PrefixToken(op));
    case ListLit(items) => if items == [] { SilentPair(LBracket, RBracket); } else { ListWeighs(e); }
    case _ =>
      PrintWeighs(Left(e), Slot(e));
      RemainderWeighs(e);
      PayloadConcat(Print(Left(e), Slot(e)), Remainder(e));
  }

  lemma LiteralWeighs(v: Literal)
    ensures Weighs(LiteralTokens(v), Lit(v)) && Print(Lit(v), 0) == LiteralTokens(v)
  {
    var ts := LiteralTokens(v);
    if |ts| == 1 {
      PayloadOne(ts[0]);
      assert ts == [ts[0]];
    } else {
      PayloadAround(MINUS, [], IntegerTooLarge(MIN_MAGNITUDE));
      assert ts == [MINUS] + ([] + [IntegerTooLarge(MIN_MAGNITUDE)]);
    }
  }

  /** Keywords and operators carry nothing. */
  lemma SilentPair(a: Token, b: Token)
    ensures Payload([a, b]) == PayloadOf(a) + PayloadOf(b)
  {
    PayloadAround(a, [], b);
    assert [a, b] == [a] + ([] + [b]);
  }

  lemma OpTokensSilent(op: BinaryOp)
    ensures Payload(OpTokens(op)) == 0
  {
    var ts := OpTokens(op);
    if |ts| == 1 {
      PayloadOne(ts[0]);
      assert ts == [ts[0]];
    } else {
      SilentPair(ts[0], ts[1]);
      assert ts == [ts[0], ts[1]];
    }
  }

  lemma NullTokensSilent(negated: bool)
    ensures Payload(NullTokens(negated)) == 0
  {
    var ts := NullTokens(negated);
    if negated {
      PayloadAround(ts[0], [ts[1]], ts[2]);
      PayloadOne(ts[1]);
      assert ts == [ts[0]] + ([ts[1]] + [ts[2]]);
    } else {
      SilentPair(ts[0], ts[1]);
    }
  }

  /** What follows the first operand weighs what the node adds to it. */
  lemma {:induction false} RemainderWeighs(e: Expr)
    requires LeftForm(e)
    ensures Payload(Remainder(e)) + NodeCount(e) + Size(Left(e)) == Size(e) + NodeCount(Left(e))
    decreases e, 0
  {
    match e
    case Prop(_, key) => SilentPair(Dot, Ident(key, Plain));
    case IsNull(_, negated) => NullTokensSilent(negated);
    case Index(_, x) =>
      PrintWeighs(x, 0);
      PayloadAround(LBracket, Print(x, 0), RBracket);
    case Binary(op, _, r) =>
      PrintWeighs(r, LevelOf(op) + 1);
      OpTokensSilent(op);
      PayloadConcat(OpTokens(op), Print(r, LevelOf(op) + 1));
  }

  lemma {:induction false} RestWeighs(e: Expr, k: nat)
    requires e.ListLit? && k <= |e.items|
    ensures Payload(Rest(e.items, k)) + NodeCounts(e.items[k..]) == Sizes(e.items[k..])
    decreases e, 0, |e.items| - k
  {
    var items := e.items;
    if k == |items| {
      PayloadOne(RBracket);
      assert items[k..] == [];
    } else {
      PrintWeighs(items[k], 0);
      RestWeighs(e, k + 1);
      var p := Print(items[k], 0);
      PayloadConcat([Comma], p + Rest(items, k + 1));
      PayloadConcat(p, Rest(items, k + 1));
      PayloadOne(Comma);
      SizesUncons(items[k..]);
      assert items[k..][1..] == items[k + 1..];
    }
  }

  lemma {:induction false} FirstWeighs(x: Expr)
    requires Weighs(Print(x, 0), x)
    ensures Weighs(FirstItem(x), x)
  {
    GroupWeighs(x);
  }

  lemma {:induction false} ListWeighs(e: Expr)
    requires e.ListLit? && e.items != []
    ensures Weighs(Print(e, 0), e)
    decreases e, 0
  {
    var items := e.items;
    PrintWeighs(items[0], 0);
    FirstWeighs(items[0]);
    RestWeighs(e, 1);
    var f := FirstItem(items[0]);
    PayloadConcat([LBracket], f + Rest(items, 1));
    PayloadConcat(f, Rest(items, 1));
    PayloadOne(LBracket);
    SizesUncons(items);
  }
}
