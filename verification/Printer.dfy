/** Printing an expression back to tokens, parenthesised by precedence. The pair around `NOT $p` is always doubled,
    though one pair would do where no connector follows. */
module Printer {
  import opened Syntax
  import opened Grammar

  /** Every integer is what the lexer and the `i64::MIN` fold can produce: a literal is never negative
      except the smallest integer itself. */
  predicate Producible(e: Expr)
    decreases e
  {
    match e
    case Lit(LInt(n)) => 0 <= n < MIN_MAGNITUDE || n == MIN_INT
    case Prop(b, _) => Producible(b)
    case Unary(_, x) => Producible(x)
    case Binary(_, l, r) => Producible(l) && Producible(r)
    case IsNull(x, _) => Producible(x)
    case ListLit(items) => forall i :: 0 <= i < |items| ==> Producible(items[i])
    case Index(b, x) => Producible(b) && Producible(x)
    case _ => true
  }

  /** An expression the parser can build. */
  type Tree = e: Expr | Producible(e) witness Lit(LNull)

  /** The smallest integer, or postfixes applied to it: such a form begins with its own minus sign. */
  predicate MinHeaded(e: Expr)
    decreases e
  {
    match e
    case Lit(LInt(n)) => n < 0
    case Prop(b, _) => MinHeaded(b)
    case IsNull(b, _) => MinHeaded(b)
    case Index(b, _) => MinHeaded(b)
    case _ => false
  }

  /** The tightest grammar level that reads the bare form. */
  function Tier(e: Expr): (l: nat)
    ensures l <= 10
  {
    match e
    case Binary(op, _, _) => LevelOf(op)
    case Unary(op, _) => PrefixLevel(op)
    case _ => if MinHeaded(e) then 9 else 10
  }

  function OpTokens(op: BinaryOp): (r: Tokens)
    ensures 1 <= |r| <= 2
  {
    match op
    case Or => [Ident("OR", Infix(Or))]
    case Xor => [Ident("XOR", Infix(Xor))]
    case And => [Ident("AND", Infix(And))]
    case In => [Ident("IN", Infix(In))]
    case Contains => [Ident("CONTAINS", Infix(Contains))]
    case StartsWith => [Ident("STARTS", StartsW), Ident("WITH", WithW)]
    case EndsWith => [Ident("ENDS", EndsW), Ident("WITH", WithW)]
    case _ => [Symbol(op)]
  }

  function LiteralTokens(v: Literal): (r: Tokens)
    ensures |r| >= 1
  {
    match v
    case LNull => [Ident("null", NullW)]
    case LBool(b) => [if b then Ident("true", TrueW) else Ident("false", FalseW)]
    case LInt(n) => if n >= 0 then [Integer(n)] else [MINUS, IntegerTooLarge(MIN_MAGNITUDE)]
    case LFloat(x) => [FloatToken(x)]
    case LString(s) => [Str(s)]
  }

  function NullTokens(negated: bool): Tokens {
    if negated then [Ident("IS", IsW), Ident("NOT", NotW), Ident("NULL", NullW)]
    else [Ident("IS", IsW), Ident("NULL", NullW)]
  }

  /** Forms that begin with a printed operand: binary operators and postfixes. */
  predicate LeftForm(e: Expr) { e.Binary? || e.Prop? || e.IsNull? || e.Index? }

  function Left(e: Expr): (r: Expr)
    requires LeftForm(e)
    ensures r < e
  {
    match e
    case Binary(_, l, _) => l
    case IsNull(x, _) => x
    case Prop(b, _) => b
    case Index(b, _) => b
  }

  /** The level that first operand is printed at: comparisons do not nest to the left. */
  function Slot(e: Expr): (l: nat)
    requires LeftForm(e)
    ensures l <= 10
  {
    if e.Binary? then if LevelOf(e.op) == 4 then 5 else LevelOf(e.op)
    else if MinHeaded(Left(e)) then 9 else 10
  }

  /** `(NOT $p)` has the shape of a node pattern, so it gets a second pair. */
  predicate LooksLikeNode(e: Expr) { e.Unary? && e.uop.Not? && e.operand.Param? }

  /** `[x IN …` opens a comprehension. */
  predicate OpensComprehension(ts: Tokens) {
    |ts| >= 2 && ts[0].Ident? && ts[1].Ident? && ts[1].word == Infix(In)
  }

  function Wrap(ts: Tokens): Tokens { [LParen] + (ts + [RParen]) }

  function Group(e: Expr): Tokens
    decreases e, 1
  {
    if LooksLikeNode(e) then Wrap(Wrap(Bare(e))) else Wrap(Bare(e))
  }

  function Print(e: Expr, l: nat): Tokens
    decreases e, 2
  {
    if Tier(e) < l then Group(e) else Bare(e)
  }

  function FirstItem(e: Expr): Tokens
    decreases e, 2
  {
    if OpensComprehension(Bare(e)) then Group(e) else Bare(e)
  }

  function Bare(e: Expr): Tokens
    decreases e, 0
  {
    if LeftForm(e) then Print(Left(e), Slot(e)) + Remainder(e) else
      match e
      case Lit(v) => LiteralTokens(v)
      case Param(name) => [Parameter(name)]
      case Var(name) => [Ident(name, Plain)]
      case Unary(op, x) => [PrefixToken(op)] + Print(x, PrefixLevel(op))
      case ListLit(items) =>
        if items == [] then [LBracket, RBracket] else [LBracket] + (FirstItem(items[0]) + Rest(items, 1))
  }

  function PrefixToken(op: UnaryOp): Token {
    match op case Not => Ident("NOT", NotW) case Neg => MINUS case Pos => PLUS
  }

  function PrefixLevel(op: UnaryOp): nat { if op.Not? then 3 else 9 }

  /** What follows the first operand. */
  function Remainder(e: Expr): (r: Tokens)
    requires LeftForm(e)
    ensures |r| > 0
    decreases e, -1
  {
    match e
    case Prop(_, key) => [Dot, Ident(key, Plain)]
    case IsNull(_, negated) => NullTokens(negated)
    case Index(_, x) => [LBracket] + (Print(x, 0) + [RBracket])
    case Binary(op, _, r) => OpTokens(op) + Print(r, LevelOf(op) + 1)
  }

  /** The items from `k` on, each after a comma, and the closing bracket. */
  function Rest(items: seq<Expr>, k: nat): Tokens
    requires k <= |items|
    decreases items, |items| - k
  {
    if k == |items| then [RBracket] else [Comma] + (Print(items[k], 0) + Rest(items, k + 1))
  }

  // ----- how many nested `expression` calls reading it back takes -----

  function Nest(e: Expr, l: nat): nat
    decreases e, 2
  {
    BareNest(e) + if Tier(e) < l then GroupCost(e) else 0
  }

  function GroupCost(e: Expr): nat { if LooksLikeNode(e) then 2 else 1 }

  function FirstNest(e: Expr): nat
    decreases e, 2
  {
    BareNest(e) + if OpensComprehension(Bare(e)) then GroupCost(e) else 0
  }

  function BareNest(e: Expr): nat
    decreases e, 0
  {
    if LeftForm(e) then Max(Nest(Left(e), Slot(e)), RemainderNest(e)) else
      match e
      case Unary(op, x) => Nest(x, PrefixLevel(op))
      case ListLit(items) => if items == [] then 0 else Max(1 + FirstNest(items[0]), RestNest(items, 1))
      case _ => 0
  }

  function RemainderNest(e: Expr): nat
    requires LeftForm(e)
    decreases e, -1
  {
    match e
    case Index(_, x) => 1 + Nest(x, 0)
    case Binary(op, _, r) => Nest(r, LevelOf(op) + 1)
    case _ => 0
  }

  function RestNest(items: seq<Expr>, k: nat): nat
    requires k <= |items|
    decreases items, |items| - k
  {
    if k == |items| then 0 else Max(1 + Nest(items[k], 0), RestNest(items, k + 1))
  }

  // ----- the leading tokens of a printed form -----

  /** A token that can begin an expression. */
  predicate Opener(k: Token) {
    k.Ident? || k.Integer? || k.FloatToken? || k.Str? || k.Parameter? || k == LParen || k == LBracket || k == MINUS
        || k == PLUS
  }

  /** Neither closes nor continues a node pattern. */
  predicate Mid(k: Token) { k != RParen && k != Colon && k != LBrace }

  /** A node pattern cannot be read off the front. */
  predicate Lead(ts: Tokens) {
    && |ts| >= 1 && Opener(ts[0])
    && (|ts| >= 2 && (ts[0].Ident? || ts[0].Parameter?) ==> Mid(ts[1]))
    && (|ts| >= 3 && ts[0].Ident? && ts[1].Parameter? ==> Mid(ts[2]))
  }

  lemma LeadAppend(a: Tokens, b: Tokens)
    requires Lead(a) && b != [] && Mid(b[0]) && !b[0].Parameter?
    ensures Lead(a + b)
  {
  }

  lemma LeadWrap(ts: Tokens)
    ensures Lead(Wrap(ts))
  {
  }

  /** What the first token says about the level that must read it. */
  predicate Heads(k: Token, tier: nat) {
    && Opener(k)
    && (tier >= 4 ==> !(k.Ident? && k.word == NotW))
    && (tier >= 10 ==> k != MINUS && k != PLUS)
  }

  /** The remainder neither calls, nor closes, nor continues a pattern. */
  lemma RemainderMid(e: Expr)
    requires LeftForm(e)
    ensures var k := Remainder(e)[0]; Mid(k) && !k.Parameter? && k != LParen && (k == Dot ==> e.Prop?)
  {
    if e.Binary? { OpTokensMid(e.op); }
  }

  lemma OpTokensMid(op: BinaryOp)
    ensures var k := OpTokens(op)[0]; Mid(k) && !k.Parameter? && k != LParen && k != Dot
  {
  }

  lemma SlotTier(e: Expr)
    requires LeftForm(e)
    ensures Slot(e) >= Tier(e)
  {
  }

  lemma {:induction false} BareLeads(e: Expr)
    ensures Lead(Bare(e)) && Heads(Bare(e)[0], Tier(e))
    decreases e, 0
  {
    if LeftForm(e) {
      RemainderMid(e);
      SlotTier(e);
      PrintLeads(Left(e), Slot(e));
      LeadAppend(Print(Left(e), Slot(e)), Remainder(e));
    } else if e.Unary? {
      PrintLeads(e.operand, PrefixLevel(e.uop));
      PrefixLeads(e.uop, Print(e.operand, PrefixLevel(e.uop)));
    }
  }

  lemma PrefixLeads(op: UnaryOp, ts: Tokens)
    requires Lead(ts)
    ensures Lead([PrefixToken(op)] + ts) && Heads(PrefixToken(op), PrefixLevel(op))
  {
  }

  lemma {:induction false} PrintLeads(e: Expr, l: nat)
    ensures Lead(Print(e, l)) && (l <= 10 ==> Heads(Print(e, l)[0], l))
    decreases e, 1
  {
    BareLeads(e);
    LeadWrap(Bare(e));
    LeadWrap(Wrap(Bare(e)));
  }
}
