/** What the recursive-descent expression parser computes (crates/acetone-cypher/src/parser.rs).

    Each function reads the token list at an absolute position and returns the expression, the position
    after it and the chain-expansion counter, or the error. Constructs outside the modelled expression
    fragment end in `Outside` at the branch that commits to them. */
module Grammar {
  import opened Wrappers
  import opened Syntax

  const MAX_DEPTH: nat := 64
  const MAX_CHAIN_EXPANSION: nat := 4096
  const USIZE_MAX: nat := 0xFFFF_FFFF_FFFF_FFFF

  type Tokens = seq<Token>

  datatype ParseError = RecursionLimit | Unexpected | OutOfRange | ChainBudget | ReservedWord | MapProjection | Outside

  datatype Parsed = Done(e: Expr, pos: nat, chain: nat) | Fail(error: ParseError)

  /** The lexer ends every stream with `Eof`. */
  ghost predicate Stream(t: Tokens) { |t| > 0 && t[|t| - 1] == Eof }

  /** `peek_at`, clamped to the final token. */
  function Tok(t: Tokens, i: nat): Token
    requires |t| > 0
  {
    if i < |t| then t[i] else t[|t| - 1]
  }

  predicate WordAt(t: Tokens, i: nat, w: Word)
    requires |t| > 0
  {
    Tok(t, i).Ident? && Tok(t, i).word == w
  }

  // ----- binary operators by level -----

  /** An infix operator and how many tokens spell it. */
  datatype Operator = Operator(op: BinaryOp, width: nat)

  function OpAt(t: Tokens, i: nat): (r: Option<Operator>)
    requires |t| > 0
    ensures r.Some? ==> 1 <= r.value.width <= 2
  {
    var k := Tok(t, i);
    if k.Symbol? then Some(Operator(k.op, 1))
    else if !k.Ident? then None
    else if k.word.Infix? then Some(Operator(k.word.op, 1))
    else if k.word == StartsW && WordAt(t, i + 1, WithW) then Some(Operator(StartsWith, 2))
    else if k.word == EndsW && WordAt(t, i + 1, WithW) then Some(Operator(EndsWith, 2))
    else None
  }

  predicate OpAtLevel(t: Tokens, i: nat, level: nat)
    requires |t| > 0
  {
    OpAt(t, i).Some? && LevelOf(OpAt(t, i).value.op) == level
  }

  // ----- pattern or parenthesis? -----

  /** Index of the token closing the group opened at `i`, or `None` if input ends first. */
  function MatchingClose(t: Tokens, i: nat, open: Token, close: Token, depth: nat): (r: Option<nat>)
    requires Stream(t)
    ensures r.Some? ==> i <= r.value < |t| && t[r.value] == close
    decreases if i < |t| then |t| - i else 0
  {
    if i >= |t| then None
    else if t[i] == open then MatchingClose(t, i + 1, open, close, depth + 1)
    else if t[i] == close then
      if depth <= 1 then Some(i) else MatchingClose(t, i + 1, open, close, depth - 1)
    else if t[i] == Eof then None
    else MatchingClose(t, i + 1, open, close, depth)
  }

  predicate ConnectorFollows(t: Tokens, close: nat)
    requires Stream(t)
  {
    var next := Tok(t, close + 1);
    next == LArrow ||
    (next == MINUS &&
     var after := Tok(t, close + 2);
     || after == Arrow
     || (after == MINUS && Tok(t, close + 3) == LParen)
     || (after == LBracket &&
         var b := MatchingClose(t, close + 2, LBracket, RBracket, 0);
         b.Some? && (Tok(t, b.value + 1) == MINUS || Tok(t, b.value + 1) == Arrow)))
  }

  /** Skip `(':' label)*`. */
  function SkipLabels(t: Tokens, i: nat): (r: nat)
    requires |t| > 0
    ensures r >= i
    decreases if i < |t| then |t| - i else 0
  {
    if i < |t| && t[i] == Colon && Tok(t, i + 1).Ident? then SkipLabels(t, i + 2) else i
  }

  /** Do the tokens between `open` and `close` read as `[variable] (':' label)* [properties]`? */
  predicate NodeShaped(t: Tokens, open: nat, close: nat)
    requires Stream(t)
  {
    var i := SkipLabels(t, if Tok(t, open + 1).Ident? then open + 2 else open + 1);
    if Tok(t, i).Parameter? then i + 1 == close
    else if Tok(t, i) == LBrace then
      var b := MatchingClose(t, i, LBrace, RBrace, 0);
      b.Some? && b.value + 1 == close
    else i == close
  }

  predicate GroupStartsPattern(t: Tokens, i: nat)
    requires Stream(t)
  {
    match MatchingClose(t, i, LParen, RParen, 0)
    case None => false
    case Some(close) => ConnectorFollows(t, close) && NodeShaped(t, i, close)
  }

  predicate BracketStartsPatternComprehension(t: Tokens, i: nat)
    requires Stream(t)
  {
    var open := if Tok(t, i).Ident? && Tok(t, i + 1) == EQUALS then i + 2 else i;
    Tok(t, open) == LParen && GroupStartsPattern(t, open)
  }

  /** A dotted name ending in `(`. */
  predicate CallFollows(t: Tokens, i: nat)
    requires |t| > 0
    decreases if i < |t| then |t| - i else 0
  {
    i < |t| && t[i].Ident? &&
    (Tok(t, i + 1) == LParen || (Tok(t, i + 1) == Dot && CallFollows(t, i + 2)))
  }

  // ----- the chained-comparison desugar -----

  function Conjunct(ops: seq<BinaryOp>, operands: seq<Expr>, i: nat): Expr
    requires i < |ops| && |operands| == |ops| + 1
  {
    Binary(ops[i], operands[i], operands[i + 1])
  }

  /** Left fold of the first `n` adjacent comparisons under AND. */
  function Conjoin(ops: seq<BinaryOp>, operands: seq<Expr>, n: nat): Expr
    requires 1 <= n <= |ops| && |operands| == |ops| + 1
  {
    if n == 1 then Conjunct(ops, operands, 0)
    else Binary(And, Conjoin(ops, operands, n - 1), Conjunct(ops, operands, n - 1))
  }

  function SaturatingAdd(a: nat, b: nat): nat {
    if a + b > USIZE_MAX then USIZE_MAX else a + b
  }

  /** The size of the operands a chain duplicates: all but the first and the last. */
  function Duplicated(operands: seq<Expr>): nat {
    if |operands| < 2 then 0 else Sizes(operands[1..|operands| - 1])
  }

  function FinishComparison(ops: seq<BinaryOp>, operands: seq<Expr>, pos: nat, chain: nat): Parsed
    requires |operands| == |ops| + 1
  {
    if |ops| == 0 then Done(operands[0], pos, chain)
    else if |ops| == 1 then Done(Conjunct(ops, operands, 0), pos, chain)
    else
      var grown := SaturatingAdd(chain, Duplicated(operands));
      if grown > MAX_CHAIN_EXPANSION then Fail(ChainBudget) else Done(Conjoin(ops, operands, |ops|), pos, grown)
  }

  /** A successful parse moves forward. */
  predicate Advances(t: Tokens, pos: nat, r: Parsed) { r.Done? ==> pos < r.pos < |t| }

  predicate Keeps(t: Tokens, pos: nat, r: Parsed) { r.Done? ==> pos <= r.pos < |t| }

  // ----- the recursive descent -----

  /** `expression`: the depth-guarded entry. */
  function Expression(t: Tokens, pos: nat, depth: nat, chain: nat): (r: Parsed)
    requires Stream(t) && pos < |t|
    ensures Advances(t, pos, r)
    decreases |t| - pos, 26
  {
    if depth >= MAX_DEPTH then Fail(RecursionLimit) else Level(0, t, pos, depth + 1, chain)
  }

  /** Levels: 0 OR, 1 XOR, 2 AND, 3 NOT, 4 comparison, 5 string/list, 6 additive, 7 multiplicative,
      8 power, 9 prefix sign, 10 postfix. */
  function Level(l: nat, t: Tokens, pos: nat, depth: nat, chain: nat): (r: Parsed)
    requires Stream(t) && pos < |t| && l <= 10
    ensures Advances(t, pos, r)
    decreases |t| - pos, 25 - 2 * l
  {
    if l == 3 then NotLevel(t, pos, depth, chain)
    else if l == 9 then SignLevel(t, pos, depth, chain)
    else if l == 10 then
      match Atom(t, pos, depth, chain)
      case Fail(e) => Fail(e)
      case Done(e, p, c) => Postfix(e, t, p, depth, c)
    else
      match Level(l + 1, t, pos, depth, chain)
      case Fail(e) => Fail(e)
      case Done(e, p, c) =>
        if l == 4 then
          Comparisons([], [e], t, p, depth, c)
        else Fold(l, e, t, p, depth, c)
  }

  /** Prefix `NOT`s. */
  function NotLevel(t: Tokens, pos: nat, depth: nat, chain: nat): (r: Parsed)
    requires Stream(t) && pos < |t|
    ensures Advances(t, pos, r)
    decreases |t| - pos, 18
  {
    if WordAt(t, pos, NotW) then Prefix(Not, NotLevel(t, pos + 1, depth, chain)) else Level(4, t, pos, depth, chain)
  }

  /** Prefix signs; the innermost minus folds into a magnitude of exactly 2^63. */
  function SignLevel(t: Tokens, pos: nat, depth: nat, chain: nat): (r: Parsed)
    requires Stream(t) && pos < |t|
    ensures Advances(t, pos, r)
    decreases |t| - pos, 6
  {
    if t[pos] == MINUS then
      if t[pos + 1] == IntegerTooLarge(MIN_MAGNITUDE) then
        Postfix(Lit(LInt(MIN_INT)), t, pos + 2, depth, chain)
      else Prefix(Neg, SignLevel(t, pos + 1, depth, chain))
    else if t[pos] == PLUS then Prefix(Pos, SignLevel(t, pos + 1, depth, chain))
    else Level(10, t, pos, depth, chain)
  }

  function Prefix(op: UnaryOp, r: Parsed): Parsed {
    match r case Fail(e) => Fail(e) case Done(e, p, c) => Done(Unary(op, e), p, c)
  }

  /** A right operand, parsed at level `l`. */
  function Operand(l: nat, t: Tokens, pos: nat, depth: nat, chain: nat): (r: Parsed)
    requires Stream(t) && pos < |t| && l <= 10
    ensures Advances(t, pos, r)
    decreases |t| - pos, 26
  {
    Level(l, t, pos, depth, chain)
  }

  /** The left-associative operator loop of a level. */
  function Fold(l: nat, lhs: Expr, t: Tokens, pos: nat, depth: nat, chain: nat): (r: Parsed)
    requires Stream(t) && pos < |t| && l <= 8
    ensures Keeps(t, pos, r)
    decreases |t| - pos, 0
  {
    if !OpAtLevel(t, pos, l) then Done(lhs, pos, chain)
    else
      var o := OpAt(t, pos).value;
      assert pos + o.width < |t|;
      match Operand(l + 1, t, pos + o.width, depth, chain)
      case Fail(e) => Fail(e)
      case Done(rhs, p, c) => Fold(l, Binary(o.op, lhs, rhs), t, p, depth, c)
  }

  /** Collect a comparison chain, then desugar it. */
  function Comparisons(ops: seq<BinaryOp>, operands: seq<Expr>, t: Tokens, pos: nat, depth: nat,
      chain: nat): (r: Parsed)
    requires Stream(t) && pos < |t| && |operands| == |ops| + 1
    ensures Keeps(t, pos, r)
    decreases |t| - pos, 0
  {
    if !OpAtLevel(t, pos, 4) then
      FinishComparison(ops, operands, pos, chain)
    else
      match Operand(5, t, pos + 1, depth, chain)
      case Fail(e) => Fail(e)
      case Done(e, p, c) =>
        Comparisons(ops + [OpAt(t, pos).value.op], operands + [e], t, p, depth, c)
  }

  /** What the postfix loop sees after the head `e`: `Extend` consumes `width` tokens. */
  datatype Suffix = NoSuffix | Extend(next: Expr, width: nat) | Subscript | Reject(error: ParseError)

  function SuffixAt(e: Expr, t: Tokens, pos: nat): (r: Suffix)
    requires Stream(t) && pos < |t|
    ensures r.Extend? ==> 0 < r.width && pos + r.width < |t|
    ensures r.Subscript? ==> pos + 1 < |t| && t[pos] == LBracket
  {
    if t[pos] == Dot then
      if Tok(t, pos + 1).Ident? then
        Extend(Prop(e, t[pos + 1].name), 2)
      else Reject(Unexpected)
    else if t[pos] == LBracket then
      if Tok(t, pos + 1) == DotDot then Reject(Outside) else Subscript
    else if t[pos] == Colon then Reject(Outside)
    else if t[pos] == LBrace && e.Var? then Reject(MapProjection)
    else if WordAt(t, pos, IsW) && WordAt(t, pos + 1, NullW) then
      Extend(IsNull(e, false), 2)
    else if WordAt(t, pos, IsW) && WordAt(t, pos + 1, NotW) && WordAt(t, pos + 2, NullW) then
      Extend(IsNull(e, true), 3)
    else NoSuffix
  }

  /** Property access, indexing and `IS [NOT] NULL` after a head expression. */
  function Postfix(e: Expr, t: Tokens, pos: nat, depth: nat, chain: nat): (r: Parsed)
    requires Stream(t) && pos < |t|
    ensures Keeps(t, pos, r)
    decreases |t| - pos, 1
  {
    match SuffixAt(e, t, pos)
    case NoSuffix => Done(e, pos, chain)
    case Reject(x) => Fail(x)
    case Extend(next, width) => Postfix(next, t, pos + width, depth, chain)
    case Subscript => Subscripted(e, t, pos, depth, chain)
  }

  /** `[index]` and whatever postfix follows; slices are outside the fragment. */
  function Subscripted(e: Expr, t: Tokens, pos: nat, depth: nat, chain: nat): (r: Parsed)
    requires Stream(t) && pos + 1 < |t|
    ensures Keeps(t, pos, r)
    decreases |t| - pos, 0
  {
    match Expression(t, pos + 1, depth, chain)
    case Fail(x) => Fail(x)
    case Done(index, p, c) =>
      if t[p] == DotDot then Fail(Outside)
      else if t[p] != RBracket then Fail(Unexpected)
      else Postfix(Index(e, index), t, p + 1, depth, c)
  }

  /** An atom that is a single token. */
  function Leaf(k: Token): Option<Expr> {
    if k.Integer? then Some(Lit(LInt(k.n)))
    else if k.FloatToken? then Some(Lit(LFloat(k.bits)))
    else if k.Str? then Some(Lit(LString(k.s)))
    else if k.Parameter? then Some(Param(k.name))
    else if k.Ident? && k.word == NullW then Some(Lit(LNull))
    else if k.Ident? && k.word == TrueW then Some(Lit(LBool(true)))
    else if k.Ident? && k.word == FalseW then Some(Lit(LBool(false)))
    else None
  }

  function Atom(t: Tokens, pos: nat, depth: nat, chain: nat): (r: Parsed)
    requires Stream(t) && pos < |t|
    ensures Advances(t, pos, r)
    decreases |t| - pos, 1
  {
    var k := t[pos];
    if Leaf(k).Some? then Done(Leaf(k).value, pos + 1, chain)
    else if k.IntegerTooLarge? then Fail(OutOfRange)
    else if k == LBracket then Bracketed(t, pos, depth, chain)
    else if k == LBrace then Fail(Outside)
    else if k == LParen then Parenthesised(t, pos, depth, chain)
    else if k.Ident? then
      if k.word == CaseW || CallFollows(t, pos) then Fail(Outside)
      else if k.word != Plain then Fail(ReservedWord)
      else Done(Var(k.name), pos + 1, chain)
    else Fail(Unexpected)
  }

  /** `(` at atom position: a pattern predicate when a node shape and a connector follow, else a group. */
  function Parenthesised(t: Tokens, pos: nat, depth: nat, chain: nat): (r: Parsed)
    requires Stream(t) && pos + 1 < |t|
    ensures Advances(t, pos, r)
    decreases |t| - pos, 0
  {
    if GroupStartsPattern(t, pos) then Fail(Outside) else
      match Expression(t, pos + 1, depth, chain)
      case Fail(e) => Fail(e)
      case Done(e, p, c) => if t[p] == RParen then Done(e, p + 1, c) else Fail(Unexpected)
  }

  /** `name IN ...` or a pattern: a comprehension, not a list. */
  predicate ComprehensionFollows(t: Tokens, i: nat)
    requires Stream(t)
  {
    (Tok(t, i).Ident? && WordAt(t, i + 1, Infix(In))) || BracketStartsPatternComprehension(t, i)
  }

  /** After seeing `[` at atom position. */
  function Bracketed(t: Tokens, pos: nat, depth: nat, chain: nat): (r: Parsed)
    requires Stream(t) && pos < |t| && t[pos] == LBracket
    ensures Advances(t, pos, r)
    decreases |t| - pos, 0
  {
    if ComprehensionFollows(t, pos + 1) then Fail(Outside) else ListBody(t, pos + 1, depth, chain)
  }

  /** The items after `[`. */
  function ListBody(t: Tokens, pos: nat, depth: nat, chain: nat): (r: Parsed)
    requires Stream(t) && pos < |t|
    ensures Advances(t, pos, r)
    decreases |t| - pos, 28
  {
    if t[pos] == RBracket then Done(ListLit([]), pos + 1, chain) else Items([], t, pos, depth, chain)
  }

  /** Comma-separated expressions up to `]`. */
  function Items(items: seq<Expr>, t: Tokens, pos: nat, depth: nat, chain: nat): (r: Parsed)
    requires Stream(t) && pos < |t|
    ensures Advances(t, pos, r)
    decreases |t| - pos, 27
  {
    match Expression(t, pos, depth, chain)
    case Fail(e) => Fail(e)
    case Done(e, p, c) =>
      if t[p] == Comma then Items(items + [e], t, p + 1, depth, c)
      else if t[p] == RBracket then Done(ListLit(items + [e]), p + 1, c)
      else Fail(Unexpected)
  }
}
