/** The parser itself (crates/acetone-cypher/src/parser.rs): a cursor over the tokens, a recursion-depth
    counter and the chain-expansion counter, advanced by loops. Every method agrees with `Grammar`. */
module Parser {
  import opened Wrappers
  import opened Syntax
  import G = Grammar
  import AstWalk
  import SizeBound

  const MAX_AST_DEPTH: nat := 256

  type Answer = Result<Expr, G.ParseError>

  /** Where `NOT`s or signs already consumed wrap the result still to come, outermost first. */
  function Wrapped(ops: seq<UnaryOp>, r: G.Parsed): G.Parsed {
    if ops == [] then r else G.Prefix(ops[0], Wrapped(ops[1..], r))
  }

  lemma {:induction false} WrappedSnoc(ops: seq<UnaryOp>, op: UnaryOp, r: G.Parsed)
    ensures Wrapped(ops + [op], r) == Wrapped(ops, G.Prefix(op, r))
  {
    if ops == [] {
      assert [op][1..] == [];
      assert ops + [op] == [op];
      assert Wrapped([op], r) == G.Prefix(op, Wrapped([op][1..], r));
    } else {
      assert (ops + [op])[1..] == ops[1..] + [op];
      WrappedSnoc(ops[1..], op, r);
    }
  }

  lemma {:induction false} WrappedFails(ops: seq<UnaryOp>, e: G.ParseError)
    ensures Wrapped(ops, G.Fail(e)) == G.Fail(e)
  {
    if ops != [] { WrappedFails(ops[1..], e); }
  }

  /** Wrap a finished expression, innermost prefix first. */
  method Wrap(ops: seq<UnaryOp>, inner: Expr, ghost pos: nat, ghost chain: nat) returns (e: Expr)
    ensures Wrapped(ops, G.Done(inner, pos, chain)) == G.Done(e, pos, chain)
  {
    e := inner;
    var k := |ops|;
    assert ops[..k] == ops;
    while k > 0
      invariant 0 <= k <= |ops|
      invariant Wrapped(ops, G.Done(inner, pos, chain)) == Wrapped(ops[..k], G.Done(e, pos, chain))
    {
      assert ops[..k] == ops[..k - 1] + [ops[k - 1]];
      WrappedSnoc(ops[..k - 1], ops[k - 1], G.Done(e, pos, chain));
      k := k - 1;
      e := Unary(ops[k], e);
    }
  }

  /** Build the desugared chain. */
  method BuildChain(ops: seq<BinaryOp>, operands: seq<Expr>) returns (e: Expr)
    requires |ops| >= 1 && |operands| == |ops| + 1
    ensures e == G.Conjoin(ops, operands, |ops|)
  {
    e := Binary(ops[0], operands[0], operands[1]);
    for i := 1 to |ops|
      invariant e == G.Conjoin(ops, operands, i)
    {
      e := Binary(And, e, Binary(ops[i], operands[i], operands[i + 1]));
    }
  }

  method DuplicatedSize(operands: seq<Expr>) returns (n: nat)
    requires |operands| >= 2
    ensures n == G.Duplicated(operands)
  {
    n := 0;
    var interior := operands[1..|operands| - 1];
    for i := 0 to |interior|
      invariant n == Sizes(interior[..i])
    {
      assert interior[..i + 1] == interior[..i] + [interior[i]];
      SizesSnoc(interior[..i], interior[i]);
      var size := AstWalk.AllocatedSize(interior[i]);
      n := n + size;
    }
    assert interior[..|interior|] == interior;
  }

  /** What one suffix makes of the postfix loop. */
  lemma TurnOfPostfix(e: Expr, t: G.Tokens, pos: nat, depth: nat, chain: nat)
    requires G.Stream(t) && pos < |t|
    ensures G.Postfix(e, t, pos, depth, chain) ==
              match G.SuffixAt(e, t, pos)
              case NoSuffix => G.Done(e, pos, chain)
              case Reject(x) => G.Fail(x)
              case Extend(next, width) => G.Postfix(next, t, pos + width, depth, chain)
              case Subscript => G.Subscripted(e, t, pos, depth, chain)
  {
  }

  class Cursor {
    const tokens: G.Tokens
    var pos: nat
    var depth: nat
    var chain: nat

    ghost predicate Valid()
      reads this
    {
      G.Stream(tokens) && pos < |tokens| && depth <= G.MAX_DEPTH
    }

    /** The cursor's state and the answer are what the grammar function returned. */
    ghost predicate Agrees(spec: G.Parsed, r: Answer)
      reads this
    {
      match spec
      case Fail(e) => r == Err(e)
      case Done(e, p, c) => r == Ok(e) && pos == p && chain == c
    }

    constructor (tokens: G.Tokens)
      requires G.Stream(tokens)
      ensures Valid() && this.tokens == tokens && pos == 0 && depth == 0 && chain == 0
    {
      this.tokens := tokens;
      pos, depth, chain := 0, 0, 0;
    }

    /** `bump` past a token that is not the final `Eof`. */
    method Bump()
      requires Valid() && tokens[pos] != Eof
      modifies this`pos
      ensures Valid() && pos == old(pos) + 1
    {
      pos := pos + 1;
    }

    method Expression() returns (r: Answer)
      requires Valid()
      modifies this
      ensures Valid() && depth == old(depth)
      ensures Agrees(G.Expression(tokens, old(pos), old(depth), old(chain)), r)
      decreases |tokens| - pos, 26
    {
      if depth >= G.MAX_DEPTH {
        return Err(G.RecursionLimit);
      }
      depth := depth + 1;
      r := Level(0);
      depth := depth - 1;
    }

    method Level(l: nat) returns (r: Answer)
      requires Valid() && l <= 10
      modifies this
      ensures Valid() && depth == old(depth)
      ensures Agrees(G.Level(l, tokens, old(pos), old(depth), old(chain)), r)
      decreases |tokens| - pos, 25 - 2 * l
    {
      if l == 3 {
        r := ExprNot();
      } else if l == 4 {
        r := ExprComparison();
      } else if l == 9 {
        r := ExprUnary();
      } else if l == 10 {
        r := ExprAtom();
        if r.Ok? { r := PostfixFrom(r.value); }
      } else {
        r := OperatorLoop(l);
      }
    }

    /** `expr_or`, `expr_xor`, `expr_and`, `expr_string_list`, `expr_additive`, `expr_multiplicative`
        and `expr_power`: one loop, parametrised by its operator table. */
    method OperatorLoop(l: nat) returns (r: Answer)
      requires Valid() && l <= 8 && l != 3 && l != 4
      modifies this
      ensures Valid() && depth == old(depth)
      ensures Agrees(G.Level(l, tokens, old(pos), old(depth), old(chain)), r)
      decreases |tokens| - pos, 24 - 2 * l
    {
      ghost var spec := G.Level(l, tokens, pos, depth, chain);
      r := Level(l + 1);
      if r.Err? { return; }
      var lhs := r.value;
      while G.OpAtLevel(tokens, pos, l)
        invariant Valid() && depth == old(depth) && pos > old(pos)
        invariant spec == G.Fold(l, lhs, tokens, pos, depth, chain)
        decreases |tokens| - pos
      {
        var op;
        op, r := OperatorAndOperand(l, lhs);
        if r.Err? { return; }
        lhs := Binary(op, lhs, r.value);
      }
      r := Ok(lhs);
    }

    /** One turn of the loop: the operator's tokens, then the right operand one level tighter. */
    method OperatorAndOperand(l: nat, ghost lhs: Expr) returns (op: BinaryOp, r: Answer)
      requires Valid() && l <= 8 && G.OpAtLevel(tokens, pos, l)
      modifies this
      ensures Valid() && depth == old(depth)
      ensures r.Err? ==> G.Fold(l, lhs, tokens, old(pos), old(depth), old(chain)) == G.Fail(r.error)
      ensures r.Ok? ==> pos > old(pos)
      ensures r.Ok? ==>
        G.Fold(l, lhs, tokens, old(pos), old(depth), old(chain)) ==
            G.Fold(l, Binary(op, lhs, r.value), tokens, pos, depth, chain)
      decreases |tokens| - pos, 0
    {
      var o := G.OpAt(tokens, pos).value;
      assert pos + o.width < |tokens|;
      pos := pos + o.width;
      op := o.op;
      r := Level(l + 1);
    }

    method ExprNot() returns (r: Answer)
      requires Valid()
      modifies this
      ensures Valid() && depth == old(depth)
      ensures Agrees(G.NotLevel(tokens, old(pos), old(depth), old(chain)), r)
      decreases |tokens| - pos, 18
    {
      var nots: seq<UnaryOp> := [];
      while G.WordAt(tokens, pos, NotW)
        invariant Valid() && depth == old(depth) && chain == old(chain) && pos >= old(pos)
        invariant G.NotLevel(tokens, old(pos), depth, chain) == Wrapped(nots, G.NotLevel(tokens, pos, depth, chain))
        decreases |tokens| - pos
      {
        WrappedSnoc(nots, Not, G.NotLevel(tokens, pos + 1, depth, chain));
        Bump();
        nots := nots + [Not];
      }
      ghost var inner := G.Level(4, tokens, pos, depth, chain);
      r := Level(4);
      r := WrapAnswer(nots, r, inner);
    }

    /** Wrap the answer for `inner` in the prefixes consumed before it. */
    method WrapAnswer(ops: seq<UnaryOp>, answer: Answer, ghost inner: G.Parsed) returns (r: Answer)
      requires Agrees(inner, answer)
      ensures Agrees(Wrapped(ops, inner), r)
    {
      if answer.Err? {
        WrappedFails(ops, answer.error);
        return answer;
      }
      var e := Wrap(ops, answer.value, pos, chain);
      return Ok(e);
    }

    method ExprComparison() returns (r: Answer)
      requires Valid()
      modifies this
      ensures Valid() && depth == old(depth)
      ensures Agrees(G.Level(4, tokens, old(pos), old(depth), old(chain)), r)
      decreases |tokens| - pos, 16
    {
      ghost var spec := G.Level(4, tokens, pos, depth, chain);
      r := Level(5);
      if r.Err? { return; }
      var operands, ops := [r.value], [];
      while G.OpAtLevel(tokens, pos, 4)
        invariant Valid() && depth == old(depth) && pos > old(pos) && |operands| == |ops| + 1
        invariant spec == G.Comparisons(ops, operands, tokens, pos, depth, chain)
        decreases |tokens| - pos
      {
        var op := G.OpAt(tokens, pos).value.op;
        r := NextOperand(ops, operands);
        if r.Err? { return; }
        ops, operands := ops + [op], operands + [r.value];
      }
      assert spec == G.FinishComparison(ops, operands, pos, chain);
      r := Finish(ops, operands);
    }

    method NextOperand(ghost ops: seq<BinaryOp>, ghost operands: seq<Expr>) returns (r: Answer)
      requires Valid() && G.OpAtLevel(tokens, pos, 4) && |operands| == |ops| + 1
      modifies this
      ensures Valid() && depth == old(depth)
      ensures r.Err? ==> G.Comparisons(ops, operands, tokens, old(pos), old(depth), old(chain)) == G.Fail(r.error)
      ensures r.Ok? ==> pos > old(pos)
      ensures r.Ok? ==>
        G.Comparisons(ops, operands, tokens, old(pos), old(depth), old(chain))
        == G.Comparisons(ops + [G.OpAt(tokens, old(pos)).value.op], operands + [r.value], tokens, pos, depth, chain)
      decreases |tokens| - pos, 0
    {
      Bump();
      r := Level(5);
    }

    /** After the last operand: a lone operand, a plain comparison, or a chain within the budget. */
    method Finish(ops: seq<BinaryOp>, operands: seq<Expr>) returns (r: Answer)
      requires Valid() && |operands| == |ops| + 1
      modifies this`chain
      ensures Valid()
      ensures Agrees(G.FinishComparison(ops, operands, pos, old(chain)), r)
    {
      if |ops| == 0 { return Ok(operands[0]); }
      if |ops| == 1 { return Ok(Binary(ops[0], operands[0], operands[1])); }
      var duplicated := DuplicatedSize(operands);
      chain := G.SaturatingAdd(chain, duplicated);
      if chain > G.MAX_CHAIN_EXPANSION { return Err(G.ChainBudget); }
      var e := BuildChain(ops, operands);
      return Ok(e);
    }

    method ExprUnary() returns (r: Answer)
      requires Valid()
      modifies this
      ensures Valid() && depth == old(depth)
      ensures Agrees(G.SignLevel(tokens, old(pos), old(depth), old(chain)), r)
      decreases |tokens| - pos, 6
    {
      ghost var spec := G.SignLevel(tokens, pos, depth, chain);
      var prefixes := Signs();
      ghost var inner;
      if FoldsMinimum(prefixes) {
        prefixes := prefixes[..|prefixes| - 1];
        inner := G.Postfix(Lit(LInt(MIN_INT)), tokens, pos + 1, depth, chain);
        Bump();
        r := PostfixFrom(Lit(LInt(MIN_INT)));
      } else {
        inner := G.SignLevel(tokens, pos, depth, chain);
        r := Level(10);
      }
      r := WrapAnswer(prefixes, r, inner);
    }

    /** Collect the prefix signs. */
    method Signs() returns (prefixes: seq<UnaryOp>)
      requires Valid()
      modifies this`pos
      ensures Valid() && pos >= old(pos) && (prefixes != [] ==> pos > old(pos))
      ensures tokens[pos] != MINUS && tokens[pos] != PLUS
      ensures G.SignLevel(tokens, old(pos), depth, chain) == SignsSoFar(prefixes)
    {
      prefixes := [];
      ghost var spec := G.SignLevel(tokens, pos, depth, chain);
      while tokens[pos] == MINUS || tokens[pos] == PLUS
        invariant Valid() && pos == old(pos) + |prefixes|
        invariant spec == SignsSoFar(prefixes)
        decreases |tokens| - pos
      {
        var op := if tokens[pos] == MINUS then Neg else Pos;
        SignStep(prefixes, op);
        Bump();
        prefixes := prefixes + [op];
      }
    }

    /** The last prefix is a minus and a magnitude of exactly 2^63 follows. */
    predicate FoldsMinimum(prefixes: seq<UnaryOp>)
      requires Valid()
      reads this
    {
      prefixes != [] && prefixes[|prefixes| - 1] == Neg && tokens[pos] == IntegerTooLarge(MIN_MAGNITUDE)
    }

    ghost function SignsSoFar(prefixes: seq<UnaryOp>): G.Parsed
      requires Valid()
      reads this
    {
      if FoldsMinimum(prefixes)
      then Wrapped(prefixes[..|prefixes| - 1], G.Postfix(Lit(LInt(MIN_INT)), tokens, pos + 1, depth, chain))
      else Wrapped(prefixes, G.SignLevel(tokens, pos, depth, chain))
    }

    /** Consuming one more sign keeps the meaning of what remains. */
    lemma SignStep(prefixes: seq<UnaryOp>, op: UnaryOp)
      requires Valid() && (tokens[pos] == MINUS || tokens[pos] == PLUS)
      requires op == if tokens[pos] == MINUS then Neg else Pos
      ensures SignsSoFar(prefixes) == if op == Neg && tokens[pos + 1] == IntegerTooLarge(MIN_MAGNITUDE)
        then Wrapped(prefixes, G.Postfix(Lit(LInt(MIN_INT)), tokens, pos + 2, depth, chain))
        else Wrapped(prefixes + [op], G.SignLevel(tokens, pos + 1, depth, chain))
    {
      WrappedSnoc(prefixes, op, G.SignLevel(tokens, pos + 1, depth, chain));
    }

    method PostfixFrom(head: Expr) returns (r: Answer)
      requires Valid()
      modifies this
      ensures Valid() && depth == old(depth)
      ensures Agrees(G.Postfix(head, tokens, old(pos), old(depth), old(chain)), r)
      decreases |tokens| - pos, 2
    {
      ghost var spec := G.Postfix(head, tokens, pos, depth, chain);
      var more;
      more, r := OneSuffix(head);
      while more
        invariant Valid() && depth == old(depth)
        invariant if more then r.Ok? && pos > old(pos) && spec == G.Postfix(r.value, tokens, pos, depth, chain)
            else Agrees(spec, r)
        decreases more, |tokens| - pos
      {
        more, r := OneSuffix(r.value);
      }
    }

    /** One turn of the postfix loop: either the final answer, or a longer head and more to come. */
    method OneSuffix(e: Expr) returns (more: bool, r: Answer)
      requires Valid()
      modifies this
      ensures Valid() && depth == old(depth)
      ensures !more ==> Agrees(G.Postfix(e, tokens, old(pos), old(depth), old(chain)), r)
      ensures more ==> r.Ok? && pos > old(pos)
      ensures more ==>
                G.Postfix(e, tokens, old(pos), old(depth), old(chain)) == G.Postfix(r.value, tokens, pos, depth, chain)
      decreases |tokens| - pos, 1
    {
      TurnOfPostfix(e, tokens, pos, depth, chain);
      match G.SuffixAt(e, tokens, pos) {
        case NoSuffix => return false, Ok(e);
        case Reject(x) => return false, Err(x);
        case Extend(next, width) =>
          pos := pos + width;
          return true, Ok(next);
        case Subscript =>
          r := IndexOnly(e);
          return r.Ok?, r;
      }
    }

    /** `[index]`. */
    method IndexOnly(base: Expr) returns (r: Answer)
      requires Valid() && tokens[pos] == LBracket
      modifies this
      ensures Valid() && depth == old(depth)
      ensures r.Err? ==> G.Subscripted(base, tokens, old(pos), old(depth), old(chain)) == G.Fail(r.error)
      ensures r.Ok? ==> pos > old(pos)
      ensures r.Ok? ==>
                G.Subscripted(base, tokens, old(pos), old(depth), old(chain)) ==
                G.Postfix(r.value, tokens, pos, depth, chain)
      decreases |tokens| - pos, 0
    {
      Bump();
      r := Expression();
      if r.Err? { return; }
      if tokens[pos] == DotDot { return Err(G.Outside); }
      if tokens[pos] != RBracket { return Err(G.Unexpected); }
      Bump();
      r := Ok(Index(base, r.value));
    }

    method ExprAtom() returns (r: Answer)
      requires Valid()
      modifies this
      ensures Valid() && depth == old(depth)
      ensures Agrees(G.Atom(tokens, old(pos), old(depth), old(chain)), r)
      decreases |tokens| - pos, 1
    {
      var leaf := G.Leaf(tokens[pos]);
      if leaf.Some? {
        Bump();
        return Ok(leaf.value);
      }
      if tokens[pos].IntegerTooLarge? {
        r := Err(G.OutOfRange);
      } else if tokens[pos] == LBracket {
        r := BracketAtom();
      } else if tokens[pos] == LBrace {
        r := Err(G.Outside);
      } else if tokens[pos] == LParen {
        r := ParenAtom();
      } else if tokens[pos].Ident? {
        r := NameAtom();
      } else {
        r := Err(G.Unexpected);
      }
    }

    method NameAtom() returns (r: Answer)
      requires Valid() && tokens[pos].Ident? && G.Leaf(tokens[pos]).None?
      modifies this`pos
      ensures Valid()
      ensures Agrees(G.Atom(tokens, old(pos), depth, chain), r)
    {
      var name, word := tokens[pos].name, tokens[pos].word;
      if word == CaseW { return Err(G.Outside); }
      var call := LooksLikeCall();
      if call { return Err(G.Outside); }
      if word != Plain { return Err(G.ReservedWord); }
      Bump();
      return Ok(Var(name));
    }

    /** The segment scan of `variable_or_function_call`. */
    method LooksLikeCall() returns (b: bool)
      requires Valid()
      ensures b == G.CallFollows(tokens, pos)
    {
      var i := pos;
      while i < |tokens| && tokens[i].Ident? && G.Tok(tokens, i + 1) == Dot
        invariant i >= pos && G.CallFollows(tokens, pos) == G.CallFollows(tokens, i)
        decreases |tokens| - i
      {
        i := i + 2;
      }
      b := i < |tokens| && tokens[i].Ident? && G.Tok(tokens, i + 1) == LParen;
    }

    method ParenAtom() returns (r: Answer)
      requires Valid() && tokens[pos] == LParen
      modifies this
      ensures Valid() && depth == old(depth)
      ensures Agrees(G.Parenthesised(tokens, old(pos), old(depth), old(chain)), r)
      decreases |tokens| - pos, 0
    {
      var pattern := StartsPattern(pos);
      if pattern { return Err(G.Outside); }
      Bump();
      r := Expression();
      if r.Err? { return; }
      if tokens[pos] != RParen { return Err(G.Unexpected); }
      Bump();
    }

    /** `matching_close`, from an absolute position. */
    method FindClose(from: nat, open: Token, close: Token) returns (r: Option<nat>)
      requires Valid()
      ensures r == G.MatchingClose(tokens, from, open, close, 0)
    {
      var at, nesting := from, 0;
      while at < |tokens|
        invariant at >= from
        invariant G.MatchingClose(tokens, from, open, close, 0) == G.MatchingClose(tokens, at, open, close, nesting)
        decreases |tokens| - at
      {
        if tokens[at] == open {
          nesting := nesting + 1;
        } else if tokens[at] == close {
          if nesting <= 1 { return Some(at); }
          nesting := nesting - 1;
        } else if tokens[at] == Eof {
          return None;
        }
        at := at + 1;
      }
      return None;
    }

    method StartsPattern(from: nat) returns (b: bool)
      requires Valid()
      ensures b == G.GroupStartsPattern(tokens, from)
    {
      var close := FindClose(from, LParen, RParen);
      if close.None? { return false; }
      b := G.ConnectorFollows(tokens, close.value) && G.NodeShaped(tokens, from, close.value);
    }

    method BracketAtom() returns (r: Answer)
      requires Valid() && tokens[pos] == LBracket
      modifies this
      ensures Valid() && depth == old(depth)
      ensures Agrees(G.Bracketed(tokens, old(pos), old(depth), old(chain)), r)
      decreases |tokens| - pos, 0
    {
      if G.ComprehensionFollows(tokens, pos + 1) { return Err(G.Outside); }
      Bump();
      if tokens[pos] == RBracket {
        Bump();
        return Ok(ListLit([]));
      }
      var items: seq<Expr> := [];
      while true
        invariant Valid() && depth == old(depth) && pos > old(pos)
        invariant G.Bracketed(tokens, old(pos), old(depth), old(chain)) == G.Items(items, tokens, pos, depth, chain)
        decreases |tokens| - pos
      {
        r := Expression();
        if r.Err? { return; }
        items := items + [r.value];
        if tokens[pos] == Comma {
          Bump();
        } else {
          if tokens[pos] != RBracket { return Err(G.Unexpected); }
          Bump();
          return Ok(ListLit(items));
        }
      }
    }
  }

  /** Parse one expression and nothing else: `expression`, `expect_end`, then the depth measurement. */
  method ParseExpression(tokens: G.Tokens) returns (r: Answer)
    requires G.Stream(tokens)
    ensures r.Ok? ==> AstWalk.Depth(r.value) <= MAX_AST_DEPTH
    ensures r.Ok? ==> Size(r.value) <= 2 * SizeBound.Before(tokens, |tokens|) + G.MAX_CHAIN_EXPANSION
    ensures var spec := G.Expression(tokens, 0, 0, 0);
            r.Ok? <==> spec.Done? && Ends(tokens, spec.pos) && AstWalk.Depth(spec.e) <= MAX_AST_DEPTH
    ensures r.Ok? ==> r.value == G.Expression(tokens, 0, 0, 0).e
  {
    var cursor := new Cursor(tokens);
    r := cursor.Expression();
    if r.Err? { return; }
    var pos := if tokens[cursor.pos] == Semicolon then cursor.pos + 1 else cursor.pos;
    if tokens[pos] != Eof { return Err(G.Unexpected); }
    var depth := AstWalk.MeasureDepth([r.value]);
    AstWalk.DeepestOne(r.value);
    if depth > MAX_AST_DEPTH { return Err(G.RecursionLimit); }
    SizeBound.ExpressionSound(tokens, 0, 0, 0);
    SizeBound.BeforeGrows(tokens, cursor.pos, |tokens| - cursor.pos);
  }

  /** `expect_end`: an optional `;`, then the end of input. */
  predicate Ends(tokens: G.Tokens, pos: nat)
    requires G.Stream(tokens) && pos < |tokens|
  {
    tokens[if tokens[pos] == Semicolon then pos + 1 else pos] == Eof
  }
}
