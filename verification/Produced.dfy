/** Every tree the expression parser returns can be printed back (crates/acetone-cypher/src/parser.rs, lex.rs). */
module Produced {
  import opened Wrappers
  import opened Syntax
  import opened Grammar
  import opened Printer
  import RoundTrip

  /** The lexer makes an `Integer` only of a literal that fits an i64. */
  ghost predicate Lexed(t: Tokens) {
    Stream(t) && forall i :: 0 <= i < |t| && t[i].Integer? ==> t[i].n < MIN_MAGNITUDE
  }

  ghost predicate Fine(r: Parsed) { r.Done? ==> Producible(r.e) }

  ghost predicate AllProducible(es: seq<Expr>) { forall i :: 0 <= i < |es| ==> Producible(es[i]) }

  lemma {:induction false} ExpressionFine(t: Tokens, pos: nat, depth: nat, chain: nat)
    requires Lexed(t) && pos < |t|
    ensures Fine(Expression(t, pos, depth, chain))
    decreases |t| - pos, 26
  {
    if depth < MAX_DEPTH { LevelFine(0, t, pos, depth + 1, chain); }
  }

  lemma {:induction false} LevelFine(l: nat, t: Tokens, pos: nat, depth: nat, chain: nat)
    requires Lexed(t) && pos < |t| && l <= 10
    ensures Fine(Level(l, t, pos, depth, chain))
    decreases |t| - pos, 25 - 2 * l
  {
    if l == 3 {
      NotFine(t, pos, depth, chain);
    } else if l == 9 {
      SignFine(t, pos, depth, chain);
    } else if l == 10 {
      AtomFine(t, pos, depth, chain);
      var r := Atom(t, pos, depth, chain);
      if r.Done? { PostfixFine(r.e, t, r.pos, depth, r.chain); }
    } else {
      LevelFine(l + 1, t, pos, depth, chain);
      var r := Level(l + 1, t, pos, depth, chain);
      if r.Done? {
        if l == 4 {
          ComparisonsFine([], [r.e], t, r.pos, depth, r.chain);
        } else {
          FoldFine(l, r.e, t, r.pos, depth, r.chain);
        }
      }
    }
  }

  lemma {:induction false} NotFine(t: Tokens, pos: nat, depth: nat, chain: nat)
    requires Lexed(t) && pos < |t|
    ensures Fine(NotLevel(t, pos, depth, chain))
    decreases |t| - pos, 18
  {
    if WordAt(t, pos, NotW) { NotFine(t, pos + 1, depth, chain); } else { LevelFine(4, t, pos, depth, chain); }
  }

  lemma {:induction false} SignFine(t: Tokens, pos: nat, depth: nat, chain: nat)
    requires Lexed(t) && pos < |t|
    ensures Fine(SignLevel(t, pos, depth, chain))
    decreases |t| - pos, 6
  {
    if t[pos] == MINUS && t[pos + 1] == IntegerTooLarge(MIN_MAGNITUDE) {
      PostfixFine(Lit(LInt(MIN_INT)), t, pos + 2, depth, chain);
    } else if t[pos] == MINUS || t[pos] == PLUS {
      SignFine(t, pos + 1, depth, chain);
    } else {
      LevelFine(10, t, pos, depth, chain);
    }
  }

  lemma {:induction false} FoldFine(l: nat, lhs: Expr, t: Tokens, pos: nat, depth: nat, chain: nat)
    requires Lexed(t) && pos < |t| && l <= 8 && Producible(lhs)
    ensures Fine(Fold(l, lhs, t, pos, depth, chain))
    decreases |t| - pos, 0
  {
    if OpAtLevel(t, pos, l) {
      var o := OpAt(t, pos).value;
      assert pos + o.width < |t|;
      LevelFine(l + 1, t, pos + o.width, depth, chain);
      var r := Operand(l + 1, t, pos + o.width, depth, chain);
      if r.Done? { FoldFine(l, Binary(o.op, lhs, r.e), t, r.pos, depth, r.chain); }
    }
  }

  lemma {:induction false} ComparisonsFine(ops: seq<BinaryOp>, operands: seq<Expr>, t: Tokens, pos: nat, depth: nat,
      chain: nat)
    requires Lexed(t) && pos < |t| && |operands| == |ops| + 1 && AllProducible(operands)
    ensures Fine(Comparisons(ops, operands, t, pos, depth, chain))
    decreases |t| - pos, 0
  {
    if OpAtLevel(t, pos, 4) {
      LevelFine(5, t, pos + 1, depth, chain);
      var r := Operand(5, t, pos + 1, depth, chain);
      if r.Done? { ComparisonsFine(ops + [OpAt(t, pos).value.op], operands + [r.e], t, r.pos, depth, r.chain); }
    } else if |ops| >= 1 {
      ConjoinFine(ops, operands, |ops|);
    }
  }

  lemma {:induction false} ConjoinFine(ops: seq<BinaryOp>, operands: seq<Expr>, n: nat)
    requires 1 <= n <= |ops| && |operands| == |ops| + 1 && AllProducible(operands)
    ensures Producible(Conjoin(ops, operands, n))
  {
    if n > 1 { ConjoinFine(ops, operands, n - 1); }
  }

  lemma {:induction false} PostfixFine(e: Expr, t: Tokens, pos: nat, depth: nat, chain: nat)
    requires Lexed(t) && pos < |t| && Producible(e)
    ensures Fine(Postfix(e, t, pos, depth, chain))
    decreases |t| - pos, 1
  {
    var s := SuffixAt(e, t, pos);
    if s.Extend? {
      SuffixFine(e, t, pos);
      PostfixFine(s.next, t, pos + s.width, depth, chain);
    } else if s.Subscript? {
      SubscriptFine(e, t, pos, depth, chain);
    }
  }

  lemma SuffixFine(e: Expr, t: Tokens, pos: nat)
    requires Stream(t) && pos < |t| && Producible(e) && SuffixAt(e, t, pos).Extend?
    ensures Producible(SuffixAt(e, t, pos).next)
  {
  }

  lemma {:induction false} SubscriptFine(e: Expr, t: Tokens, pos: nat, depth: nat, chain: nat)
    requires Lexed(t) && pos + 1 < |t| && Producible(e)
    ensures Fine(Subscripted(e, t, pos, depth, chain))
    decreases |t| - pos, 0
  {
    ExpressionFine(t, pos + 1, depth, chain);
    var r := Expression(t, pos + 1, depth, chain);
    if r.Done? && t[r.pos] == RBracket { PostfixFine(Index(e, r.e), t, r.pos + 1, depth, r.chain); }
  }

  lemma {:induction false} AtomFine(t: Tokens, pos: nat, depth: nat, chain: nat)
    requires Lexed(t) && pos < |t|
    ensures Fine(Atom(t, pos, depth, chain))
    decreases |t| - pos, 1
  {
    if t[pos] == LBracket {
      ListBodyFine(t, pos + 1, depth, chain);
    } else if t[pos] == LParen {
      ExpressionFine(t, pos + 1, depth, chain);
    }
  }

  lemma {:induction false} ListBodyFine(t: Tokens, pos: nat, depth: nat, chain: nat)
    requires Lexed(t) && pos < |t|
    ensures Fine(ListBody(t, pos, depth, chain))
    decreases |t| - pos, 28
  {
    if t[pos] != RBracket { ItemsFine([], t, pos, depth, chain); }
  }

  lemma {:induction false} ItemsFine(items: seq<Expr>, t: Tokens, pos: nat, depth: nat, chain: nat)
    requires Lexed(t) && pos < |t| && AllProducible(items)
    ensures Fine(Items(items, t, pos, depth, chain))
    decreases |t| - pos, 27
  {
    ExpressionFine(t, pos, depth, chain);
    var r := Expression(t, pos, depth, chain);
    if r.Done? {
      assert AllProducible(items + [r.e]);
      if t[r.pos] == Comma { ItemsFine(items + [r.e], t, r.pos + 1, depth, r.chain); }
    }
  }

  /** Whatever text an expression came from, its printed form reads back as the same tree, unless it nests to the limit
      and is refused for exactly that. */
  lemma PrintedFormIsEquivalent(t: Tokens, pos: nat, depth: nat, chain: nat, c: nat)
    requires Lexed(t) && pos < |t|
    ensures var r := Expression(t, pos, depth, chain);
            r.Done? ==> Expression(Print(r.e, 0) + [Eof], 0, 0, c) ==
                          if Nest(r.e, 0) < MAX_DEPTH then Done(r.e, |Print(r.e, 0)|, c) else Fail(RecursionLimit)
  {
    ExpressionFine(t, pos, depth, chain);
    var r := Expression(t, pos, depth, chain);
    if r.Done? { RoundTrip.RoundTrip(r.e, c); }
  }

  /** Why `NOT $p` needs the second pair: with one, `(NOT $p) - [1] - 2` is taken for a pattern. */
  lemma SinglePairIsTakenForPattern(p: string)
    ensures var t := Wrap(Bare(Unary(Not, Param(p)))) + [MINUS, LBracket, Integer(1), RBracket, MINUS, Integer(2), Eof];
            Stream(t) && GroupStartsPattern(t, 0) && Expression(t, 0, 0, 0) == Fail(Outside)
  {
    var e := Unary(Not, Param(p));
    RoundTrip.NodeLikeForm(e);
    var t := Wrap(Bare(e)) + [MINUS, LBracket, Integer(1), RBracket, MINUS, Integer(2), Eof];
    assert t == [LParen, Ident("NOT", NotW), Parameter(p), RParen, MINUS, LBracket, Integer(1), RBracket, MINUS,
        Integer(2), Eof];
    ScanFindsPattern(t, p);
    assert Atom(t, 0, 1, 0) == Fail(Outside);
    assert Level(10, t, 0, 1, 0) == Fail(Outside);
    FailClimbs(t, 0);
  }

  lemma ScanFindsPattern(t: Tokens, p: string)
    requires t == [LParen, Ident("NOT", NotW), Parameter(p), RParen, MINUS, LBracket, Integer(1), RBracket, MINUS,
        Integer(2), Eof]
    ensures GroupStartsPattern(t, 0)
  {
    assert MatchingClose(t, 3, LParen, RParen, 1) == Some(3);
    assert MatchingClose(t, 1, LParen, RParen, 1) == Some(3);
    assert MatchingClose(t, 6, LBracket, RBracket, 1) == Some(7);
  }

  /** A failing atom at a parenthesis fails every level above it. */
  lemma {:induction false} FailClimbs(t: Tokens, l: nat)
    requires Stream(t) && t[0] == LParen && l <= 10 && Level(10, t, 0, 1, 0) == Fail(Outside)
    ensures Level(l, t, 0, 1, 0) == Fail(Outside)
    decreases 10 - l
  {
    if l < 10 { FailClimbs(t, l + 1); }
  }
}
