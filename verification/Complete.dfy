/** Whatever the expression grammar spells, the parser reads as exactly that tree, unless it nests too deep,
    outgrows the chain budget or begins a construct outside the fragment (crates/acetone-cypher/src/parser.rs). */
module Complete {
  import opened Wrappers
  import opened Syntax
  import opened Grammar
  import opened ReadSteps
  import opened Derivation

  /** A refusal that is not about the spelling. */
  predicate Refused(r: Parsed) {
    r.Fail? && (r.error == RecursionLimit || r.error == ChainBudget || r.error == Outside)
  }

  // ----- how spelled text begins -----

  /** Begins an operand. */
  predicate Begins(k: Token) { !k.IntegerTooLarge? && k != RBracket && k != DotDot && k != RParen }

  predicate NotWord(k: Token) { k.Ident? && k.word == NotW }

  ghost predicate HeadOk(l: nat, k: Token) {
    Begins(k) && (l >= 4 ==> !NotWord(k)) && (l >= 10 ==> k != MINUS && k != PLUS)
  }

  lemma {:induction false} SpelledHeads(l: nat, e: Expr, t: Tokens, i: nat, j: nat)
    requires Spells(l, e, t, i, j)
    ensures HeadOk(l, t[i])
    decreases j - i, 30 - 2 * l
  {
    if l < 10 && Spells(l + 1, e, t, i, j) {
      SpelledHeads(l + 1, e, t, i, j);
    } else if l == 4 {
      var ops, operands :| IsChain(e, ops, operands) && Chain(ops, operands, t, i, j);
      ChainHeads(ops, operands, t, i, j);
    } else if l >= 9 && Suffixed(l, e, t, i, j) {
      SuffixedHeads(l, e, t, i, j);
    } else if l <= 8 && l != 3 {
      var m: nat, n: nat :| Joined(l, e, t, i, m, n, j);
      SpelledHeads(l, e.lhs, t, i, m);
    }
  }

  lemma {:induction false} ChainHeads(ops: seq<BinaryOp>, operands: seq<Expr>, t: Tokens, i: nat, j: nat)
    requires i < j <= |t| && Chain(ops, operands, t, i, j)
    ensures HeadOk(5, t[i])
    decreases j - i, 21
  {
    if ops == [] {
      SpelledHeads(5, operands[0], t, i, j);
    } else {
      var m: nat :| i < m < j - 1 && ChainLink(ops, operands, t, i, m, j);
      ChainHeads(ops[..|ops| - 1], operands[..|ops|], t, i, m);
    }
  }

  lemma {:induction false} SuffixedHeads(l: nat, e: Expr, t: Tokens, i: nat, j: nat)
    requires i < j <= |t| && 9 <= l <= 10 && Suffixed(l, e, t, i, j)
    ensures HeadOk(l, t[i])
    decreases j - i, 9
  {
    if KeyAt(l, e, t, i, j) {
      SuffixedHeads(l, e.base, t, i, j - 2);
    } else if m: nat :| NullAt(l, e, t, i, m, j) {
      SuffixedHeads(l, e.operand, t, i, m);
    } else if m: nat :| IndexAt(l, e, t, i, m, j) {
      SuffixedHeads(l, e.base, t, i, m);
    }
  }

  // ----- one step of a level -----

  /** The result is as expected, or refused. */
  predicate Gives(r: Parsed, expected: Parsed) { Refused(r) || r == expected }

  lemma RefusedUp(l: nat, t: Tokens, i: nat, depth: nat, chain: nat)
    requires Stream(t) && i < |t| && l < 10 && HeadOk(l + 1, t[i]) && Refused(Level(l + 1, t, i, depth, chain))
    ensures Refused(Level(l, t, i, depth, chain))
  {
  }

  lemma DoneUp(l: nat, e: Expr, t: Tokens, i: nat, j: nat, depth: nat, chain: nat, c: nat)
    requires Stream(t) && i < |t| && l < 10 && HeadOk(l + 1, t[i]) && Follow(l, t, j)
    requires Level(l + 1, t, i, depth, chain) == Done(e, j, c)
    ensures Level(l, t, i, depth, chain) == After(l, e, t, j, depth, c)
  {
    if l == 4 { assert Comparisons([], [e], t, j, depth, c) == FinishComparison([], [e], j, c); }
  }

  lemma Up(l: nat, e: Expr, t: Tokens, i: nat, j: nat, depth: nat, chain: nat, c: nat)
    requires Stream(t) && i < |t| && l < 10 && HeadOk(l + 1, t[i]) && Follow(l, t, j)
    requires Gives(Level(l + 1, t, i, depth, chain), After(l + 1, e, t, j, depth, c))
    ensures Gives(Level(l, t, i, depth, chain), After(l, e, t, j, depth, c))
  {
    FollowTighter(l, t, j);
    if Refused(Level(l + 1, t, i, depth, chain)) {
      RefusedUp(l, t, i, depth, chain);
    } else {
      QuietAfter(l + 1, e, t, j, depth, c);
      DoneUp(l, e, t, i, j, depth, chain, c);
    }
  }

  lemma PrefixGives(op: UnaryOp, r: Parsed, e: Expr, j: nat, c: nat)
    requires Gives(r, Done(e, j, c))
    ensures Gives(Prefix(op, r), Done(Unary(op, e), j, c))
  {
  }

  /** An operator leaves its left operand alone. */
  lemma OpFollows(op: BinaryOp, t: Tokens, m: nat, width: nat)
    requires m < |t| && OpAt(t, m) == Some(Operator(op, width))
    ensures Quiet(t, m, LevelOf(op) + 1)
  {
  }

  lemma FoldGives(l: nat, lhs: Expr, e: Expr, t: Tokens, m: nat, n: nat, j: nat, depth: nat, c1: nat, c2: nat)
    requires Stream(t) && m < n < |t| && j < |t| && l <= 8 && e.Binary? && e.lhs == lhs && LevelOf(e.op) == l
    requires OpAt(t, m) == Some(Operator(e.op, n - m))
    requires Gives(Operand(l + 1, t, n, depth, c1), Done(e.rhs, j, c2))
    ensures Gives(Fold(l, lhs, t, m, depth, c1), Fold(l, e, t, j, depth, c2))
  {
  }

  // ----- every derivation is read -----

  lemma {:induction false} LevelReads(l: nat, e: Expr, t: Tokens, i: nat, j: nat, depth: nat,
      chain: nat) returns (c: nat)
    requires Stream(t) && j < |t| && Spells(l, e, t, i, j) && (l < 10 ==> Follow(l, t, j))
    ensures Gives(Level(l, t, i, depth, chain), After(l, e, t, j, depth, c))
    decreases j - i, 30 - 2 * l
  {
    if l < 10 && Spells(l + 1, e, t, i, j) {
      SpelledHeads(l + 1, e, t, i, j);
      FollowTighter(l, t, j);
      c := LevelReads(l + 1, e, t, i, j, depth, chain);
      Up(l, e, t, i, j, depth, chain, c);
    } else if l == 3 {
      c := NegationReads(e, t, i, j, depth, chain);
    } else if l == 4 {
      c := ComparisonReads(e, t, i, j, depth, chain);
    } else if l == 9 && Sign(e, t, i, j) {
      c := SignReads(e, t, i, j, depth, chain);
    } else if l >= 9 {
      c := SuffixedReads(l, e, t, i, j, depth, chain);
      if l == 9 { QuietAfter(10, e, t, j, depth, c); }
    } else {
      var m: nat, n: nat :| Joined(l, e, t, i, m, n, j);
      c := JoinedReads(l, e, t, i, m, n, j, depth, chain);
    }
  }

  lemma {:induction false} NegationReads(e: Expr, t: Tokens, i: nat, j: nat, depth: nat, chain: nat) returns (c: nat)
    requires Stream(t) && i < j < |t| && Negation(e, t, i, j) && Follow(3, t, j)
    ensures Gives(Level(3, t, i, depth, chain), Done(e, j, c))
    decreases j - i, 23
  {
    c := LevelReads(3, e.operand, t, i + 1, j, depth, chain);
    PrefixGives(Not, NotLevel(t, i + 1, depth, chain), e.operand, j, c);
  }

  lemma {:induction false} SignReads(e: Expr, t: Tokens, i: nat, j: nat, depth: nat, chain: nat) returns (c: nat)
    requires Stream(t) && i < j < |t| && Sign(e, t, i, j) && Follow(9, t, j)
    ensures Gives(Level(9, t, i, depth, chain), Done(e, j, c))
    decreases j - i, 11
  {
    SpelledHeads(9, e.operand, t, i + 1, j);
    c := LevelReads(9, e.operand, t, i + 1, j, depth, chain);
    PrefixGives(e.uop, SignLevel(t, i + 1, depth, chain), e.operand, j, c);
  }

  lemma {:induction false} JoinedReads(l: nat, e: Expr, t: Tokens, i: nat, m: nat, n: nat, j: nat, depth: nat,
      chain: nat) returns (c: nat)
    requires Stream(t) && i < j < |t| && l <= 8 && l != 3 && l != 4 && Joined(l, e, t, i, m, n, j) && Follow(l, t, j)
    ensures Gives(Level(l, t, i, depth, chain), Fold(l, e, t, j, depth, c))
    decreases j - i, 29 - 2 * l
  {
    OpFollows(e.op, t, m, n - m);
    var c1 := LevelReads(l, e.lhs, t, i, m, depth, chain);
    FollowTighter(l, t, j);
    c := LevelReads(l + 1, e.rhs, t, n, j, depth, c1);
    QuietAfter(l + 1, e.rhs, t, j, depth, c);
    FoldGives(l, e.lhs, e, t, m, n, j, depth, c1, c);
  }

  // ----- comparisons -----

  lemma {:induction false} ComparisonReads(e: Expr, t: Tokens, i: nat, j: nat, depth: nat, chain: nat) returns (c: nat)
    requires Stream(t) && i < j < |t| && Follow(4, t, j)
    requires exists ops, operands :: IsChain(e, ops, operands) && Chain(ops, operands, t, i, j)
    ensures Gives(Level(4, t, i, depth, chain), Done(e, j, c))
    decreases j - i, 21, 1
  {
    var ops, operands :| IsChain(e, ops, operands) && Chain(ops, operands, t, i, j);
    var d := ChainReads(ops, operands, t, i, j, depth, chain);
    c := FinishGives(e, ops, operands, t, j, depth, d);
  }

  lemma FinishGives(e: Expr, ops: seq<BinaryOp>, operands: seq<Expr>, t: Tokens, j: nat, depth: nat,
      d: nat) returns (c: nat)
    requires Stream(t) && j < |t| && Quiet(t, j, 4) && IsChain(e, ops, operands)
    ensures Gives(Comparisons(ops, operands, t, j, depth, d), Done(e, j, c))
  {
    assert Comparisons(ops, operands, t, j, depth, d) == FinishComparison(ops, operands, j, d);
    var r := FinishComparison(ops, operands, j, d);
    c := if r.Done? then r.chain else 0;
  }

  lemma {:induction false} ChainReads(ops: seq<BinaryOp>, operands: seq<Expr>, t: Tokens, i: nat, j: nat, depth: nat,
      chain: nat) returns (c: nat)
    requires Stream(t) && i < j < |t| && Chain(ops, operands, t, i, j) && Quiet(t, j, 5)
    ensures Gives(Level(4, t, i, depth, chain), Comparisons(ops, operands, t, j, depth, c))
    decreases j - i, 21, 0
  {
    if ops == [] {
      c := LevelReads(5, operands[0], t, i, j, depth, chain);
      QuietAfter(5, operands[0], t, j, depth, c);
      assert operands == [operands[0]];
      FirstOperand(operands[0], t, i, j, depth, chain, c);
    } else {
      var m: nat :| i < m < j - 1 && ChainLink(ops, operands, t, i, m, j);
      c := LinkReads(ops, operands, t, i, m, j, depth, chain);
    }
  }

  lemma {:induction false} LinkReads(ops: seq<BinaryOp>, operands: seq<Expr>, t: Tokens, i: nat, m: nat, j: nat,
      depth: nat, chain: nat) returns (c: nat)
    requires Stream(t) && i < m < j - 1 < |t| - 1 && |operands| == |ops| + 1 && ops != []
    requires ChainLink(ops, operands, t, i, m, j) && Quiet(t, j, 5)
    ensures Gives(Level(4, t, i, depth, chain), Comparisons(ops, operands, t, j, depth, c))
    decreases j - i, 20
  {
    var n := |ops| - 1;
    OpFollows(ops[n], t, m, 1);
    var c1 := ChainReads(ops[..n], operands[..n + 1], t, i, m, depth, chain);
    c := LevelReads(5, operands[n + 1], t, m + 1, j, depth, c1);
    QuietAfter(5, operands[n + 1], t, j, depth, c);
    NextOperand(ops, operands, t, m, j, depth, c1, c);
  }

  lemma FirstOperand(x: Expr, t: Tokens, i: nat, j: nat, depth: nat, chain: nat, c: nat)
    requires Stream(t) && i < |t| && j < |t| && Gives(Level(5, t, i, depth, chain), Done(x, j, c))
    ensures Gives(Level(4, t, i, depth, chain), Comparisons([], [x], t, j, depth, c))
  {
  }

  lemma NextOperand(ops: seq<BinaryOp>, operands: seq<Expr>, t: Tokens, m: nat, j: nat, depth: nat, c1: nat, c: nat)
    requires Stream(t) && m + 1 < |t| && j < |t| && ops != [] && |operands| == |ops| + 1
    requires LevelOf(ops[|ops| - 1]) == 4 && OpAt(t, m) == Some(Operator(ops[|ops| - 1], 1))
    requires Gives(Level(5, t, m + 1, depth, c1), Done(operands[|ops|], j, c))
    ensures Gives(Comparisons(ops[..|ops| - 1], operands[..|ops|], t, m, depth, c1),
                  Comparisons(ops, operands, t, j, depth, c))
  {
    assert ops[..|ops| - 1] + [ops[|ops| - 1]] == ops && operands[..|ops|] + [operands[|ops|]] == operands;
    assert Gives(Operand(5, t, m + 1, depth, c1), Done(operands[|ops|], j, c));
  }

  // ----- suffixes and atoms -----

  lemma {:induction false} SuffixedReads(l: nat, e: Expr, t: Tokens, i: nat, j: nat, depth: nat,
      chain: nat) returns (c: nat)
    requires Stream(t) && i < j < |t| && 9 <= l <= 10 && Suffixed(l, e, t, i, j)
    ensures Gives(Level(l, t, i, depth, chain), Postfix(e, t, j, depth, c))
    decreases j - i, 9
  {
    if l == 10 && Atomic(e, t, i, j) {
      c := AtomicReads(e, t, i, j, depth, chain);
    } else if KeyAt(l, e, t, i, j) {
      c := SuffixedReads(l, e.base, t, i, j - 2, depth, chain);
      KeyGives(e, t, j, depth, c);
    } else if m: nat :| NullAt(l, e, t, i, m, j) {
      c := SuffixedReads(l, e.operand, t, i, m, depth, chain);
      NullGives(e, t, m, j, depth, c);
    } else if m: nat :| IndexAt(l, e, t, i, m, j) {
      var c1 := SuffixedReads(l, e.base, t, i, m, depth, chain);
      SpelledHeads(0, e.index, t, m + 1, j - 1);
      c := ExpressionReads(e.index, t, m + 1, j - 1, depth, c1);
      IndexGives(e, t, m, j, depth, c1, c);
    } else {
      c := chain;
    }
  }

  lemma KeyGives(e: Expr, t: Tokens, j: nat, depth: nat, c: nat)
    requires Stream(t) && 2 <= j < |t| && e.Prop? && t[j - 2] == Dot && t[j - 1].Ident? && t[j - 1].name == e.key
    ensures Postfix(e.base, t, j - 2, depth, c) == Postfix(e, t, j, depth, c)
  {
    assert SuffixAt(e.base, t, j - 2) == Extend(e, 2);
  }

  lemma NullGives(e: Expr, t: Tokens, m: nat, j: nat, depth: nat, c: nat)
    requires Stream(t) && m < j < |t| && e.IsNull? && NullTest(t, m, j, e.negated)
    ensures Postfix(e.operand, t, m, depth, c) == Postfix(e, t, j, depth, c)
  {
    assert SuffixAt(e.operand, t, m) == Extend(e, j - m);
  }

  lemma IndexGives(e: Expr, t: Tokens, m: nat, j: nat, depth: nat, c1: nat, c: nat)
    requires Stream(t) && m + 1 < j < |t| && e.Index? && t[m] == LBracket && t[m + 1] != DotDot && t[j - 1] == RBracket
    requires Gives(Expression(t, m + 1, depth, c1), Done(e.index, j - 1, c))
    ensures Gives(Postfix(e.base, t, m, depth, c1), Postfix(e, t, j, depth, c))
  {
    assert SuffixAt(e.base, t, m) == Subscript;
    assert Gives(Subscripted(e.base, t, m, depth, c1), Postfix(e, t, j, depth, c));
  }

  lemma {:induction false} ExpressionReads(e: Expr, t: Tokens, i: nat, j: nat, depth: nat, chain: nat) returns (c: nat)
    requires Stream(t) && j < |t| && Spells(0, e, t, i, j) && Closes(t, j)
    ensures Gives(Expression(t, i, depth, chain), Done(e, j, c))
    decreases j - i, 31
  {
    ClosersAreQuiet(t, j);
    c := LevelReads(0, e, t, i, j, depth + 1, chain);
    QuietAfter(0, e, t, j, depth + 1, c);
  }

  lemma {:induction false} AtomicReads(e: Expr, t: Tokens, i: nat, j: nat, depth: nat, chain: nat) returns (c: nat)
    requires Stream(t) && i < j < |t| && Atomic(e, t, i, j)
    ensures Gives(Level(10, t, i, depth, chain), Postfix(e, t, j, depth, c))
    decreases j - i, 8
  {
    if j == i + 1 && OneToken(e, t[i]) {
      c := chain;
      TokenGives(e, t, i, depth, chain);
    } else if t[i] == LParen {
      c := ExpressionReads(e, t, i + 1, j - 1, depth, chain);
      GroupGives(e, t, i, j, depth, chain, c);
    } else {
      c := ListReads(e, t, i, j, depth, chain);
    }
    AtomGives(e, t, i, j, depth, chain, c);
  }

  lemma AtomGives(e: Expr, t: Tokens, i: nat, j: nat, depth: nat, chain: nat, c: nat)
    requires Stream(t) && i < |t| && j < |t| && Gives(Atom(t, i, depth, chain), Done(e, j, c))
    ensures Gives(Level(10, t, i, depth, chain), Postfix(e, t, j, depth, c))
  {
  }

  lemma TokenGives(e: Expr, t: Tokens, i: nat, depth: nat, chain: nat)
    requires Stream(t) && i + 1 < |t| && OneToken(e, t[i])
    ensures Gives(Atom(t, i, depth, chain), Done(e, i + 1, chain))
  {
  }

  lemma GroupGives(e: Expr, t: Tokens, i: nat, j: nat, depth: nat, chain: nat, c: nat)
    requires Stream(t) && i + 1 < j < |t| && t[i] == LParen && t[j - 1] == RParen
    requires Gives(Expression(t, i + 1, depth, chain), Done(e, j - 1, c))
    ensures Gives(Atom(t, i, depth, chain), Done(e, j, c))
  {
    assert Gives(Parenthesised(t, i, depth, chain), Done(e, j, c));
  }

  // ----- lists -----

  lemma {:induction false} ListReads(e: Expr, t: Tokens, i: nat, j: nat, depth: nat, chain: nat) returns (c: nat)
    requires Stream(t) && i + 1 < j < |t| && e.ListLit? && t[i] == LBracket && t[j - 1] == RBracket
    requires if e.items == [] then j == i + 2 else i + 2 < j && Listed(e.items, t, i + 1, j - 1)
    ensures Gives(Atom(t, i, depth, chain), Done(e, j, c))
    decreases j - i, 7
  {
    if e.items == [] {
      c := chain;
    } else {
      ListedHeads(e.items, t, i + 1, j - 1);
      c := ItemsRead(e.items, t, i + 1, j - 1, depth, chain);
    }
    ListGives(e, t, i, j, depth, chain, c);
  }

  lemma ListGives(e: Expr, t: Tokens, i: nat, j: nat, depth: nat, chain: nat, c: nat)
    requires Stream(t) && i + 1 < |t| && j < |t| && e.ListLit? && t[i] == LBracket
    requires Gives(ListBody(t, i + 1, depth, chain), Done(e, j, c))
    ensures Gives(Atom(t, i, depth, chain), Done(e, j, c))
  {
    assert Gives(Bracketed(t, i, depth, chain), Done(e, j, c));
  }

  lemma {:induction false} ListedHeads(items: seq<Expr>, t: Tokens, i: nat, j: nat)
    requires i < j <= |t| && Listed(items, t, i, j)
    ensures Begins(t[i])
    decreases j - i
  {
    if |items| == 1 {
      SpelledHeads(0, items[0], t, i, j);
    } else {
      var m: nat :| ListLink(items, t, i, m, j);
      ListedHeads(items[..|items| - 1], t, i, m);
    }
  }

  /** Where the item loop stands once it has read `items` up to `j`. */
  function Onward(items: seq<Expr>, t: Tokens, j: nat, depth: nat, c: nat): Parsed
    requires Stream(t) && j + 1 < |t|
  {
    if t[j] == Comma then Items(items, t, j + 1, depth, c) else Done(ListLit(items), j + 1, c)
  }

  lemma {:induction false} ItemsRead(items: seq<Expr>, t: Tokens, i: nat, j: nat, depth: nat,
      chain: nat) returns (c: nat)
    requires Stream(t) && i < j && j + 1 < |t| && Listed(items, t, i, j) && (t[j] == Comma || t[j] == RBracket)
    ensures Gives(Items([], t, i, depth, chain), Onward(items, t, j, depth, c))
    decreases j - i, 32
  {
    if |items| == 1 {
      c := ExpressionReads(items[0], t, i, j, depth, chain);
      ItemGives([], items[0], t, i, j, depth, chain, c);
      assert [] + [items[0]] == items;
    } else {
      var m: nat :| ListLink(items, t, i, m, j);
      var n := |items| - 1;
      var c1 := ItemsRead(items[..n], t, i, m, depth, chain);
      c := ExpressionReads(items[n], t, m + 1, j, depth, c1);
      ItemGives(items[..n], items[n], t, m + 1, j, depth, c1, c);
      assert items[..n] + [items[n]] == items;
    }
  }

  lemma ItemGives(before: seq<Expr>, e: Expr, t: Tokens, i: nat, j: nat, depth: nat, chain: nat, c: nat)
    requires Stream(t) && i < |t| && j + 1 < |t| && (t[j] == Comma || t[j] == RBracket)
    requires Gives(Expression(t, i, depth, chain), Done(e, j, c))
    ensures Gives(Items(before, t, i, depth, chain), Onward(before + [e], t, j, depth, c))
  {
  }

  // ----- the whole input -----

  /** Whatever the grammar spells is read as exactly that, or refused for its nesting, its chains or a construct outside
      the fragment; so whenever the input is accepted, the grammar spells one tree only. */
  lemma SpelledIsRead(e: Expr, t: Tokens, chain: nat) returns (c: nat)
    requires Stream(t) && Spells(0, e, t, 0, |t| - 1)
    ensures Gives(Expression(t, 0, 0, chain), Done(e, |t| - 1, c))
  {
    c := ExpressionReads(e, t, 0, |t| - 1, 0, chain);
  }

  /** The parser accepts the whole input as `e` exactly when the grammar spells `e` and nothing is refused. */
  lemma ParsesExactly(e: Expr, t: Tokens, chain: nat)
    requires Stream(t)
    ensures var r := Expression(t, 0, 0, chain);
            r.Done? && r.e == e && r.pos == |t| - 1 <==> Spells(0, e, t, 0, |t| - 1) && !Refused(r)
  {
    ExpressionDerived(t, 0, 0, chain);
    if Spells(0, e, t, 0, |t| - 1) { var c := SpelledIsRead(e, t, chain); }
  }
}
