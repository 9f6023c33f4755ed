/** Whatever the parser accepts is spelled by the tokens it consumed: every tree it returns has a derivation in the
    expression grammar, stated on token positions and without the parser (crates/acetone-cypher/src/parser.rs). */
module Derivation {
  import opened Wrappers
  import opened Syntax
  import opened Grammar

  // ----- the grammar -----

  /** The tokens from `i` to `j` spell `e` at level `l`. A level admits every tighter form; infix operators take a left
      operand of their own level and a tighter right one. */
  ghost predicate Spells(l: nat, e: Expr, t: Tokens, i: nat, j: nat)
    decreases if i < j then j - i else 0, 30 - 2 * l
  {
    i < j <= |t| && l <= 10 &&
    (|| (l < 10 && Spells(l + 1, e, t, i, j))
     || (l == 3 && Negation(e, t, i, j))
     || (l == 4 && exists ops, operands :: IsChain(e, ops, operands) && Chain(ops, operands, t, i, j))
     || (l == 9 && Sign(e, t, i, j))
     || (l >= 9 && Suffixed(l, e, t, i, j))
     || (l <= 8 && l != 3 && l != 4 && exists m: nat, n: nat :: Joined(l, e, t, i, m, n, j)))
  }

  /** `left op right`. */
  ghost predicate Joined(l: nat, e: Expr, t: Tokens, i: nat, m: nat, n: nat, j: nat)
    requires i < j <= |t|
    decreases j - i, 29 - 2 * l
  {
    && i < m < n < j && l <= 8 && e.Binary? && LevelOf(e.op) == l && OpAt(t, m) == Some(Operator(e.op, n - m))
    && Spells(l, e.lhs, t, i, m) && Spells(l + 1, e.rhs, t, n, j)
  }

  /** `NOT operand`. */
  ghost predicate Negation(e: Expr, t: Tokens, i: nat, j: nat)
    requires i < j <= |t|
    decreases j - i, 23
  {
    e.Unary? && e.uop == Not && t[i].Ident? && t[i].word == NotW && Spells(3, e.operand, t, i + 1, j)
  }

  /** A sign and its operand. */
  ghost predicate Sign(e: Expr, t: Tokens, i: nat, j: nat)
    requires i < j <= |t|
    decreases j - i, 11
  {
    && e.Unary? && ((e.uop == Neg && t[i] == MINUS) || (e.uop == Pos && t[i] == PLUS))
    && Spells(9, e.operand, t, i + 1, j)
  }

  /** One or more comparisons, conjoined pair by pair. */
  ghost predicate IsChain(e: Expr, ops: seq<BinaryOp>, operands: seq<Expr>) {
    |ops| >= 1 && |operands| == |ops| + 1 && e == Conjoin(ops, operands, |ops|)
  }

  /** Operands with comparison operators between them. */
  ghost predicate Chain(ops: seq<BinaryOp>, operands: seq<Expr>, t: Tokens, i: nat, j: nat)
    requires i < j <= |t|
    decreases j - i, 21
  {
    |operands| == |ops| + 1 &&
    if ops == [] then Spells(5, operands[0], t, i, j)
    else exists m: nat :: i < m < j - 1 && ChainLink(ops, operands, t, i, m, j)
  }

  ghost predicate ChainLink(ops: seq<BinaryOp>, operands: seq<Expr>, t: Tokens, i: nat, m: nat, j: nat)
    requires i < m < j - 1 < |t| && |operands| == |ops| + 1 && ops != []
    decreases j - i, 20
  {
    var n := |ops| - 1;
    && LevelOf(ops[n]) == 4 && OpAt(t, m) == Some(Operator(ops[n], 1))
    && Chain(ops[..n], operands[..n + 1], t, i, m) && Spells(5, operands[n + 1], t, m + 1, j)
  }

  /** An atom, or at level 9 the smallest integer, and any suffixes. */
  ghost predicate Suffixed(l: nat, e: Expr, t: Tokens, i: nat, j: nat)
    requires i < j <= |t|
    decreases j - i, 9
  {
    || (l == 10 && Atomic(e, t, i, j))
    || (l == 9 && e == Lit(LInt(MIN_INT)) && j == i + 2 && t[i] == MINUS && t[i + 1] == IntegerTooLarge(MIN_MAGNITUDE))
    || KeyAt(l, e, t, i, j)
    || (exists m: nat :: NullAt(l, e, t, i, m, j))
    || (exists m: nat :: IndexAt(l, e, t, i, m, j))
  }

  /** `base.key`. */
  ghost predicate KeyAt(l: nat, e: Expr, t: Tokens, i: nat, j: nat)
    requires i < j <= |t|
    decreases j - i, 8
  {
    e.Prop? && i + 2 < j && t[j - 2] == Dot && t[j - 1].Ident? && t[j - 1].name == e.key
        && Suffixed(l, e.base, t, i, j - 2)
  }

  /** `base IS NULL` or `base IS NOT NULL`. */
  ghost predicate NullAt(l: nat, e: Expr, t: Tokens, i: nat, m: nat, j: nat)
    requires i < j <= |t|
    decreases j - i, 8
  {
    e.IsNull? && i < m < j && NullTest(t, m, j, e.negated) && Suffixed(l, e.operand, t, i, m)
  }

  /** `base[index]`. */
  ghost predicate IndexAt(l: nat, e: Expr, t: Tokens, i: nat, m: nat, j: nat)
    requires i < j <= |t|
    decreases j - i, 8
  {
    && e.Index? && i < m < j - 1 && t[m] == LBracket && t[j - 1] == RBracket
    && Suffixed(l, e.base, t, i, m) && Spells(0, e.index, t, m + 1, j - 1)
  }

  /** `IS NULL` or `IS NOT NULL`. */
  ghost predicate NullTest(t: Tokens, m: nat, j: nat, negated: bool) {
    && j <= |t| && j == m + (if negated then 3 else 2) && t[m].Ident? && t[m].word == IsW
    && t[j - 1].Ident? && t[j - 1].word == NullW && (negated ==> t[m + 1].Ident? && t[m + 1].word == NotW)
  }

  /** A literal, a parameter, a name, a parenthesised expression or a list. */
  ghost predicate Atomic(e: Expr, t: Tokens, i: nat, j: nat)
    requires i < j <= |t|
    decreases j - i, 8
  {
    || (j == i + 1 && OneToken(e, t[i]))
    || (i + 2 < j && t[i] == LParen && t[j - 1] == RParen && Spells(0, e, t, i + 1, j - 1))
    || (e.ListLit? && i + 1 < j && t[i] == LBracket && t[j - 1] == RBracket
        && if e.items == [] then j == i + 2 else i + 2 < j && Listed(e.items, t, i + 1, j - 1))
  }

  /** The token itself says what it stands for. */
  predicate OneToken(e: Expr, k: Token) {
    match k
    case Integer(n) => e == Lit(LInt(n))
    case FloatToken(bits) => e == Lit(LFloat(bits))
    case Str(s) => e == Lit(LString(s))
    case Parameter(name) => e == Param(name)
    case Ident(name, word) =>
      if word == NullW then e == Lit(LNull) else if word == TrueW then e == Lit(LBool(true))
      else if word == FalseW then e == Lit(LBool(false)) else word == Plain && e == Var(name)
    case _ => false
  }

  /** Items with commas between them. */
  ghost predicate Listed(items: seq<Expr>, t: Tokens, i: nat, j: nat)
    requires i < j <= |t|
    decreases j - i, 32
  {
    items != [] && if |items| == 1 then Spells(0, items[0], t, i, j) else exists m: nat :: ListLink(items, t, i, m, j)
  }

  ghost predicate ListLink(items: seq<Expr>, t: Tokens, i: nat, m: nat, j: nat)
    requires i < j <= |t| && |items| > 1
    decreases j - i, 31
  {
    var n := |items| - 1;
    i < m < j - 1 && t[m] == Comma && Listed(items[..n], t, i, m) && Spells(0, items[n], t, m + 1, j)
  }

  // ----- every parse is a derivation -----

  ghost predicate Derived(l: nat, t: Tokens, i: nat, r: Parsed) {
    r.Done? ==> r.pos < |t| && Spells(l, r.e, t, i, r.pos)
  }

  lemma {:induction false} ExpressionDerived(t: Tokens, pos: nat, depth: nat, chain: nat)
    requires Stream(t) && pos < |t|
    ensures Derived(0, t, pos, Expression(t, pos, depth, chain))
    decreases |t| - pos, 26
  {
    if depth < MAX_DEPTH { LevelDerived(0, t, pos, depth + 1, chain); }
  }

  lemma {:induction false} LevelDerived(l: nat, t: Tokens, pos: nat, depth: nat, chain: nat)
    requires Stream(t) && pos < |t| && l <= 10
    ensures Derived(l, t, pos, Level(l, t, pos, depth, chain))
    decreases |t| - pos, 25 - 2 * l
  {
    if l == 3 {
      NotDerived(t, pos, depth, chain);
    } else if l == 9 {
      SignDerived(t, pos, depth, chain);
    } else if l == 10 {
      AtomDerived(t, pos, depth, chain);
      var r := Atom(t, pos, depth, chain);
      if r.Done? { PostfixDerived(10, r.e, t, pos, r.pos, depth, r.chain); }
    } else {
      LevelDerived(l + 1, t, pos, depth, chain);
      var r := Level(l + 1, t, pos, depth, chain);
      if r.Done? {
        Looser(l, r.e, t, pos, r.pos);
        if l == 4 {
          ComparisonsDerived([], [r.e], t, pos, r.pos, depth, r.chain);
        } else {
          FoldDerived(l, r.e, t, pos, r.pos, depth, r.chain);
        }
      }
    }
  }

  lemma {:induction false} NotDerived(t: Tokens, pos: nat, depth: nat, chain: nat)
    requires Stream(t) && pos < |t|
    ensures Derived(3, t, pos, NotLevel(t, pos, depth, chain))
    decreases |t| - pos, 18
  {
    if WordAt(t, pos, NotW) {
      NotDerived(t, pos + 1, depth, chain);
      var r := NotLevel(t, pos + 1, depth, chain);
      if r.Done? { assert Negation(Unary(Not, r.e), t, pos, r.pos); }
    } else {
      LevelDerived(4, t, pos, depth, chain);
      var r := Level(4, t, pos, depth, chain);
      if r.Done? { Looser(3, r.e, t, pos, r.pos); }
    }
  }

  lemma {:induction false} SignDerived(t: Tokens, pos: nat, depth: nat, chain: nat)
    requires Stream(t) && pos < |t|
    ensures Derived(9, t, pos, SignLevel(t, pos, depth, chain))
    decreases |t| - pos, 6
  {
    if t[pos] == MINUS && t[pos + 1] == IntegerTooLarge(MIN_MAGNITUDE) {
      assert Suffixed(9, Lit(LInt(MIN_INT)), t, pos, pos + 2);
      PostfixDerived(9, Lit(LInt(MIN_INT)), t, pos, pos + 2, depth, chain);
    } else if t[pos] == MINUS || t[pos] == PLUS {
      SignDerived(t, pos + 1, depth, chain);
      var r := SignLevel(t, pos + 1, depth, chain);
      if r.Done? { assert Sign(Unary(if t[pos] == MINUS then Neg else Pos, r.e), t, pos, r.pos); }
    } else {
      LevelDerived(10, t, pos, depth, chain);
      var r := Level(10, t, pos, depth, chain);
      if r.Done? { Looser(9, r.e, t, pos, r.pos); }
    }
  }

  lemma {:induction false} FoldDerived(l: nat, lhs: Expr, t: Tokens, i: nat, pos: nat, depth: nat, chain: nat)
    requires Stream(t) && pos < |t| && l <= 8 && l != 3 && l != 4 && Spells(l, lhs, t, i, pos)
    ensures Derived(l, t, i, Fold(l, lhs, t, pos, depth, chain))
    decreases |t| - pos, 0
  {
    if OpAtLevel(t, pos, l) {
      var o := OpAt(t, pos).value;
      assert pos + o.width < |t|;
      LevelDerived(l + 1, t, pos + o.width, depth, chain);
      var r := Operand(l + 1, t, pos + o.width, depth, chain);
      if r.Done? {
        IntroInfix(l, Binary(o.op, lhs, r.e), t, i, pos, pos + o.width, r.pos);
        FoldDerived(l, Binary(o.op, lhs, r.e), t, i, r.pos, depth, r.chain);
      }
    }
  }

  lemma IntroInfix(l: nat, e: Expr, t: Tokens, i: nat, m: nat, n: nat, j: nat)
    requires i < j <= |t| && Joined(l, e, t, i, m, n, j) && l != 3 && l != 4
    ensures Spells(l, e, t, i, j)
  {
  }

  lemma Looser(l: nat, e: Expr, t: Tokens, i: nat, j: nat)
    requires l < 10 && Spells(l + 1, e, t, i, j)
    ensures Spells(l, e, t, i, j)
  {
  }

  lemma {:induction false} ComparisonsDerived(ops: seq<BinaryOp>, operands: seq<Expr>, t: Tokens, i: nat, pos: nat,
      depth: nat, chain: nat)
    requires Stream(t) && i < pos < |t| && Chain(ops, operands, t, i, pos)
    ensures Derived(4, t, i, Comparisons(ops, operands, t, pos, depth, chain))
    decreases |t| - pos, 0
  {
    if OpAtLevel(t, pos, 4) {
      LevelDerived(5, t, pos + 1, depth, chain);
      var r := Operand(5, t, pos + 1, depth, chain);
      if r.Done? {
        var op := OpAt(t, pos).value.op;
        IntroLink(ops, operands, op, r.e, t, i, pos, r.pos);
        ComparisonsDerived(ops + [op], operands + [r.e], t, i, r.pos, depth, r.chain);
      }
    } else {
      FinishDerived(ops, operands, t, i, pos, chain);
    }
  }

  lemma IntroLink(ops: seq<BinaryOp>, operands: seq<Expr>, op: BinaryOp, e: Expr, t: Tokens, i: nat, m: nat, j: nat)
    requires i < m < j - 1 < |t| && Chain(ops, operands, t, i, m) && Spells(5, e, t, m + 1, j)
    requires LevelOf(op) == 4 && OpAt(t, m).Some? && OpAt(t, m).value.op == op
    ensures Chain(ops + [op], operands + [e], t, i, j)
  {
    assert (ops + [op])[..|ops|] == ops && (operands + [e])[..|operands|] == operands;
    assert OpAt(t, m) == Some(Operator(op, 1));
    assert ChainLink(ops + [op], operands + [e], t, i, m, j);
  }

  lemma FinishDerived(ops: seq<BinaryOp>, operands: seq<Expr>, t: Tokens, i: nat, pos: nat, chain: nat)
    requires i < pos < |t| && Chain(ops, operands, t, i, pos)
    ensures Derived(4, t, i, FinishComparison(ops, operands, pos, chain))
  {
    if ops == [] {
      Looser(4, operands[0], t, i, pos);
    } else {
      assert IsChain(Conjoin(ops, operands, |ops|), ops, operands);
      assert Spells(4, Conjoin(ops, operands, |ops|), t, i, pos);
    }
  }

  // ----- suffixes and atoms -----

  lemma IntroSuffixed(l: nat, e: Expr, t: Tokens, i: nat, j: nat)
    requires i < j <= |t| && 9 <= l <= 10 && Suffixed(l, e, t, i, j)
    ensures Spells(l, e, t, i, j)
  {
  }

  lemma ExtensionDerived(l: nat, h: Expr, t: Tokens, i: nat, pos: nat)
    requires Stream(t) && i < pos < |t| && Suffixed(l, h, t, i, pos) && SuffixAt(h, t, pos).Extend?
    ensures var s := SuffixAt(h, t, pos); Suffixed(l, s.next, t, i, pos + s.width)
  {
    var s := SuffixAt(h, t, pos);
    if s.next.IsNull? {
      assert NullAt(l, s.next, t, i, pos, pos + s.width);
    } else {
      assert KeyAt(l, s.next, t, i, pos + s.width);
    }
  }

  lemma {:induction false} PostfixDerived(l: nat, h: Expr, t: Tokens, i: nat, pos: nat, depth: nat, chain: nat)
    requires Stream(t) && i < pos < |t| && 9 <= l <= 10 && Suffixed(l, h, t, i, pos)
    ensures Derived(l, t, i, Postfix(h, t, pos, depth, chain))
    decreases |t| - pos, 1
  {
    var s := SuffixAt(h, t, pos);
    if s.NoSuffix? {
      IntroSuffixed(l, h, t, i, pos);
    } else if s.Extend? {
      ExtensionDerived(l, h, t, i, pos);
      PostfixDerived(l, s.next, t, i, pos + s.width, depth, chain);
    } else if s.Subscript? {
      SubscriptDerived(l, h, t, i, pos, depth, chain);
    }
  }

  lemma {:induction false} SubscriptDerived(l: nat, h: Expr, t: Tokens, i: nat, pos: nat, depth: nat, chain: nat)
    requires Stream(t) && i < pos && pos + 1 < |t| && 9 <= l <= 10 && Suffixed(l, h, t, i, pos) && t[pos] == LBracket
    ensures Derived(l, t, i, Subscripted(h, t, pos, depth, chain))
    decreases |t| - pos, 0
  {
    ExpressionDerived(t, pos + 1, depth, chain);
    var r := Expression(t, pos + 1, depth, chain);
    if r.Done? && t[r.pos] == RBracket {
      IntroIndex(l, h, r.e, t, i, pos, r.pos + 1);
      PostfixDerived(l, Index(h, r.e), t, i, r.pos + 1, depth, r.chain);
    }
  }

  lemma IntroIndex(l: nat, h: Expr, x: Expr, t: Tokens, i: nat, m: nat, j: nat)
    requires i < m < j - 1 < |t| && t[m] == LBracket && t[j - 1] == RBracket
    requires Suffixed(l, h, t, i, m) && Spells(0, x, t, m + 1, j - 1)
    ensures Suffixed(l, Index(h, x), t, i, j)
  {
    assert IndexAt(l, Index(h, x), t, i, m, j);
  }

  lemma {:induction false} AtomDerived(t: Tokens, pos: nat, depth: nat, chain: nat)
    requires Stream(t) && pos < |t|
    ensures var r := Atom(t, pos, depth, chain); r.Done? ==> r.pos < |t| && Atomic(r.e, t, pos, r.pos)
    decreases |t| - pos, 1
  {
    if t[pos] == LBracket {
      ListBodyDerived(t, pos, depth, chain);
    } else if t[pos] == LParen {
      GroupDerived(t, pos, depth, chain);
    } else {
      TokenDerived(t, pos, depth, chain);
    }
  }

  lemma TokenDerived(t: Tokens, pos: nat, depth: nat, chain: nat)
    requires Stream(t) && pos < |t| && t[pos] != LBracket && t[pos] != LParen
    ensures var r := Atom(t, pos, depth, chain); r.Done? ==> r.pos == pos + 1 && OneToken(r.e, t[pos])
  {
  }

  lemma {:induction false} GroupDerived(t: Tokens, pos: nat, depth: nat, chain: nat)
    requires Stream(t) && pos + 1 < |t| && t[pos] == LParen
    ensures var r := Parenthesised(t, pos, depth, chain); r.Done? ==> r.pos < |t| && Atomic(r.e, t, pos, r.pos)
    decreases |t| - pos, 0
  {
    ExpressionDerived(t, pos + 1, depth, chain);
  }

  lemma {:induction false} ListBodyDerived(t: Tokens, pos: nat, depth: nat, chain: nat)
    requires Stream(t) && pos + 1 < |t| && t[pos] == LBracket
    ensures var r := ListBody(t, pos + 1, depth, chain); r.Done? ==> r.pos < |t| && Atomic(r.e, t, pos, r.pos)
    decreases |t| - pos, 0
  {
    if t[pos + 1] != RBracket { ItemsDerived([], t, pos, pos + 1, depth, chain); }
  }

  /** The items read so far, each with its comma. */
  ghost predicate ReadSoFar(items: seq<Expr>, t: Tokens, i: nat, pos: nat) {
    if items == [] then pos == i + 1
    else i + 1 < pos - 1 < |t| && t[pos - 1] == Comma && Listed(items, t, i + 1, pos - 1)
  }

  lemma {:induction false} ItemsDerived(items: seq<Expr>, t: Tokens, i: nat, pos: nat, depth: nat, chain: nat)
    requires Stream(t) && i < pos < |t| && t[i] == LBracket && ReadSoFar(items, t, i, pos)
    ensures var r := Items(items, t, pos, depth, chain); r.Done? ==> r.pos < |t| && Atomic(r.e, t, i, r.pos)
    decreases |t| - pos, 27
  {
    ExpressionDerived(t, pos, depth, chain);
    var r := Expression(t, pos, depth, chain);
    if r.Done? {
      OneMoreItem(items, r.e, t, i, pos, r.pos);
      if t[r.pos] == Comma {
        ItemsDerived(items + [r.e], t, i, r.pos + 1, depth, r.chain);
      }
    }
  }

  lemma OneMoreItem(items: seq<Expr>, e: Expr, t: Tokens, i: nat, pos: nat, j: nat)
    requires i < pos < j < |t| && ReadSoFar(items, t, i, pos) && Spells(0, e, t, pos, j)
    ensures Listed(items + [e], t, i + 1, j)
  {
    if items != [] { IntroItem(items, e, t, i + 1, pos - 1, j); }
  }

  lemma IntroItem(items: seq<Expr>, e: Expr, t: Tokens, i: nat, m: nat, j: nat)
    requires i < m < j - 1 < |t| && items != [] && t[m] == Comma && Listed(items, t, i, m) && Spells(0, e, t, m + 1, j)
    ensures Listed(items + [e], t, i, j)
  {
    assert (items + [e])[..|items|] == items;
    assert ListLink(items + [e], t, i, m, j);
  }
}
