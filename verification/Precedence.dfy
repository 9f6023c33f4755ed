/** Which operator binds tighter, read off the tokens (crates/acetone-cypher/src/parser.rs). */
module Precedence {
  import opened Wrappers
  import opened Syntax
  import opened Grammar
  import opened Printer
  import opened ReadSteps
  import opened RoundTrip

  /** The infix operators in groups, loosest first: OR, XOR, AND, comparison, string and list, additive,
      multiplicative, power. */
  const GROUPS: seq<set<BinaryOp>> := [
    {Or}, {Xor}, {And}, {EqOp, NeOp, LtOp, LeOp, GtOp, GeOp}, {RegexMatch, In, StartsWith, EndsWith, Contains},
    {Add, Sub}, {Mul, Div, Mod}, {Pow}]

  /** `p` stands in a tighter group than `o`. */
  ghost predicate Tighter(p: BinaryOp, o: BinaryOp) {
    exists i, j :: 0 <= i < j < |GROUPS| && o in GROUPS[i] && p in GROUPS[j]
  }

  /** In the comparison group or a tighter one. */
  ghost predicate AboveNot(o: BinaryOp) { exists i :: 3 <= i < |GROUPS| && o in GROUPS[i] }

  ghost predicate Comparison(o: BinaryOp) { o in GROUPS[3] }

  /** The level a group stands at: NOT has one of its own between AND and comparison. */
  function LevelOfGroup(i: nat): nat { if i < 3 then i else i + 1 }

  lemma GroupLevel(o: BinaryOp, i: nat)
    requires i < |GROUPS|
    ensures o in GROUPS[i] <==> LevelOf(o) == LevelOfGroup(i)
  {
    assert forall x :: x in GROUPS[i] <==> LevelOf(x) == LevelOfGroup(i) by {
      if i == 0 {} else if i == 1 {} else if i == 2 {} else if i == 3 {} else if i == 4 {}
      else if i == 5 {} else if i == 6 {} else { assert i == 7; }
    }
  }

  lemma SomeGroup(o: BinaryOp) returns (i: nat)
    ensures i < |GROUPS| && o in GROUPS[i]
  {
    i := if LevelOf(o) < 3 then LevelOf(o) else LevelOf(o) - 1;
    GroupLevel(o, i);
  }

  lemma TighterLevels(p: BinaryOp, o: BinaryOp)
    ensures Tighter(p, o) <==> LevelOf(o) < LevelOf(p)
  {
    if Tighter(p, o) {
      var i, j :| 0 <= i < j < |GROUPS| && o in GROUPS[i] && p in GROUPS[j];
      GroupLevel(o, i);
      GroupLevel(p, j);
    } else {
      var i := SomeGroup(o);
      var j := SomeGroup(p);
      GroupLevel(o, i);
      GroupLevel(p, j);
    }
  }

  lemma NotLevels(o: BinaryOp)
    ensures AboveNot(o) <==> LevelOf(o) >= 4
    ensures Comparison(o) <==> LevelOf(o) == 4
  {
    GroupLevel(o, 3);
    if AboveNot(o) {
      var i :| 3 <= i < |GROUPS| && o in GROUPS[i];
      GroupLevel(o, i);
    } else {
      var i := SomeGroup(o);
      GroupLevel(o, i);
    }
  }

  // ----- leaves -----

  /** A literal, a parameter or a name. */
  predicate LeafToken(k: Token) { Leaf(k).Some? || (k.Ident? && k.word == Plain) }

  function LeafExpr(k: Token): Expr
    requires LeafToken(k)
  {
    if Leaf(k).Some? then Leaf(k).value else Var(k.name)
  }

  lemma LeafHeads(k: Token)
    requires LeafToken(k)
    ensures Heads(k, 10) && !k.IntegerTooLarge? && k != LParen && k != Dot
  {
  }

  lemma LeafReads(t: Tokens, i: nat, depth: nat)
    requires Stream(t) && i + 1 < |t| && LeafToken(t[i]) && Tail(t, i + 1)
    ensures Reading(true, 10, LeafExpr(t[i]), t, i, i + 1, depth)
  {
    var e := LeafExpr(t[i]);
    forall chain: nat ensures Level(10, t, i, depth, chain) == After(10, e, t, i + 1, depth, chain) {
      assert Atom(t, i, depth, chain) == Done(e, i + 1, chain);
      AtomReads(true, e, t, i, i + 1, depth, chain);
    }
  }

  /** From a tight level down to a looser one that the next token does not continue. */
  lemma {:induction false} LiftDown(from: nat, l: nat, e: Expr, t: Tokens, i: nat, j: nat, depth: nat)
    requires l <= from <= 10 && Reading(true, from, e, t, i, j, depth) && Follow(l, t, j) && Heads(t[i], from)
    ensures Reading(true, l, e, t, i, j, depth)
    decreases from - l
  {
    if l < from {
      FollowTighter(l, t, j);
      LiftDown(from, l + 1, e, t, i, j, depth);
      Lift(true, l, e, t, i, j, depth);
    }
  }

  lemma {:induction false} FollowTail(l: nat, t: Tokens, j: nat)
    requires l <= 10 && Follow(l, t, j)
    ensures Tail(t, j)
    decreases 10 - l
  {
    if l < 10 {
      FollowTighter(l, t, j);
      FollowTail(l + 1, t, j);
    }
  }

  lemma LeafAt(l: nat, t: Tokens, i: nat, depth: nat)
    requires Stream(t) && l <= 10 && i + 1 < |t| && LeafToken(t[i]) && Follow(l, t, i + 1)
    ensures Reading(true, l, LeafExpr(t[i]), t, i, i + 1, depth)
  {
    FollowTail(l, t, i + 1);
    LeafReads(t, i, depth);
    LeafHeads(t[i]);
    LiftDown(10, l, LeafExpr(t[i]), t, i, i + 1, depth);
  }

  /** `x` stands from `i` to `j` and is read whole by every level that the next token does not continue. */
  ghost predicate Solid(x: Expr, t: Tokens, i: nat, j: nat, depth: nat) {
    && Stream(t) && i < j < |t| && Heads(t[i], 9)
    && forall l: nat {:trigger Follow(l, t, j)} :: l <= 9 && Follow(l, t, j) ==> Reading(true, l, x, t, i, j, depth)
  }

  lemma LeafIsSolid(t: Tokens, i: nat, depth: nat)
    requires Stream(t) && i + 1 < |t| && LeafToken(t[i])
    ensures Solid(LeafExpr(t[i]), t, i, i + 1, depth)
  {
    LeafHeads(t[i]);
    var j := i + 1;
    forall l: nat | l <= 9 && Follow(l, t, j) ensures Reading(true, l, LeafExpr(t[i]), t, i, j, depth) {
      LeafAt(l, t, i, depth);
    }
  }

  /** A sign and a leaf bind tighter than any infix operator. */
  lemma SignedLeafIsSolid(op: UnaryOp, t: Tokens, i: nat, depth: nat)
    requires Stream(t) && i + 2 < |t| && (op.Neg? || op.Pos?) && t[i] == PrefixToken(op) && LeafToken(t[i + 1])
    ensures Solid(Unary(op, LeafExpr(t[i + 1])), t, i, i + 2, depth)
  {
    var e := Unary(op, LeafExpr(t[i + 1]));
    LeafHeads(t[i + 1]);
    var j := i + 2;
    forall l: nat | l <= 9 && Follow(l, t, j) ensures Reading(true, l, e, t, i, j, depth) {
      FollowUp(l, 9, t, j);
      LeafAt(9, t, i + 1, depth);
      PrefixReading(true, op, LeafExpr(t[i + 1]), t, i, j, depth);
      LiftDown(9, l, e, t, i, j, depth);
    }
  }

  lemma {:induction false} FollowUp(l: nat, m: nat, t: Tokens, j: nat)
    requires l <= m <= 10 && Follow(l, t, j)
    ensures Follow(m, t, j)
    decreases m - l
  {
    if l < m {
      FollowTighter(l, t, j);
      FollowUp(l + 1, m, t, j);
    }
  }

  // ----- one operator -----

  /** The tokens from `m` to `n` spell the infix operator. */
  ghost predicate Between(op: BinaryOp, t: Tokens, m: nat, n: nat) {
    m < n < |t| && OpAt(t, m) == Some(Operator(op, n - m)) && Stop(t[m])
  }

  /** Whether an operator is left alone by level `l`. */
  predicate Ends(op: BinaryOp, l: nat) { LevelOf(op) < if l == 4 then 4 else l + 1 }

  lemma OpFollows(op: BinaryOp, t: Tokens, m: nat, n: nat, l: nat)
    requires Between(op, t, m, n) && l <= 9 && Ends(op, l)
    ensures Follow(l, t, m)
  {
  }

  lemma EndFollows(t: Tokens, j: nat, l: nat)
    requires j < |t| && t[j] == Eof && l <= 10
    ensures Follow(l, t, j) && Quiet(t, j, 0)
  {
  }

  lemma SlotEnds(e: Expr)
    requires e.Binary?
    ensures Slot(e) <= 9 && Ends(e.op, Slot(e))
  {
  }

  /** Two operands read at the levels the operator asks for. */
  lemma Join(e: Expr, t: Tokens, i: nat, m: nat, n: nat, j: nat, depth: nat)
    requires e.Binary? && Stream(t) && Between(e.op, t, m, n)
    requires Reading(true, Slot(e), e.lhs, t, i, m, depth) && Reading(true, LevelOf(e.op) + 1, e.rhs, t, n, j, depth)
    requires Follow(LevelOf(e.op), t, j)
    ensures Reading(true, LevelOf(e.op), e, t, i, j, depth)
  {
    SlotEnds(e);
    OpFollows(e.op, t, m, n, Slot(e));
    JoinOperands(true, true, e, t, i, m, n, j, depth);
  }

  /** A solid left operand and a right operand already read. */
  lemma SolidThen(e: Expr, t: Tokens, i: nat, m: nat, n: nat, j: nat, depth: nat)
    requires e.Binary? && Between(e.op, t, m, n) && Solid(e.lhs, t, i, m, depth)
    requires Reading(true, LevelOf(e.op) + 1, e.rhs, t, n, j, depth) && Follow(LevelOf(e.op), t, j)
    ensures Reading(true, LevelOf(e.op), e, t, i, j, depth)
  {
    SlotEnds(e);
    OpFollows(e.op, t, m, n, Slot(e));
    Join(e, t, i, m, n, j, depth);
  }

  /** A left operand already read and a solid right operand. */
  lemma ThenSolid(e: Expr, t: Tokens, i: nat, m: nat, n: nat, j: nat, depth: nat)
    requires e.Binary? && Between(e.op, t, m, n) && Solid(e.rhs, t, n, j, depth)
    requires Reading(true, Slot(e), e.lhs, t, i, m, depth) && Follow(LevelOf(e.op), t, j)
    ensures Reading(true, LevelOf(e.op), e, t, i, j, depth)
  {
    FollowTighter(LevelOf(e.op), t, j);
    Join(e, t, i, m, n, j, depth);
  }

  /** Two solid operands and an operator, read at the operator's level or a looser one. */
  lemma PairAt(l: nat, e: Expr, t: Tokens, i: nat, m: nat, n: nat, j: nat, depth: nat)
    requires e.Binary? && Between(e.op, t, m, n) && Solid(e.lhs, t, i, m, depth) && Solid(e.rhs, t, n, j, depth)
    requires l <= LevelOf(e.op) && Follow(l, t, j)
    ensures Reading(true, l, e, t, i, j, depth)
  {
    FollowUp(l, LevelOf(e.op), t, j);
    FollowTighter(LevelOf(e.op), t, j);
    SolidThen(e, t, i, m, n, j, depth);
    LiftDown(LevelOf(e.op), l, e, t, i, j, depth);
  }

  // ----- two operators -----

  /** `x o y p z` up to the end of input at `j`, for solid `x`, `y` and `z`. */
  ghost predicate OnLine(x: Expr, o: BinaryOp, y: Expr, p: BinaryOp, z: Expr, t: Tokens, m: nat, n: nat, q: nat,
      k: nat, j: nat) {
    && Solid(x, t, 0, m, 1) && Between(o, t, m, n) && Solid(y, t, n, q, 1) && Between(p, t, q, k)
    && Solid(z, t, k, j, 1) && t[j] == Eof
  }

  /** A reading at any level of the whole input is what `expression` returns. */
  lemma WholeInput(l: nat, e: Expr, t: Tokens, j: nat, chain: nat)
    requires l <= 9 && Reading(true, l, e, t, 0, j, 1) && t[j] == Eof && Heads(t[0], l)
    ensures Expression(t, 0, 0, chain) == Done(e, j, chain)
  {
    EndFollows(t, j, 0);
    LiftDown(l, 0, e, t, 0, j, 1);
    Enter(true, e, t, 0, j, 0);
  }

  lemma ReadRight(x: Expr, o: BinaryOp, y: Expr, p: BinaryOp, z: Expr, t: Tokens, m: nat, n: nat, q: nat, k: nat,
      j: nat, chain: nat)
    requires OnLine(x, o, y, p, z, t, m, n, q, k, j) && LevelOf(o) < LevelOf(p)
    ensures Expression(t, 0, 0, chain) == Done(Binary(o, x, Binary(p, y, z)), j, chain)
  {
    EndFollows(t, j, LevelOf(o) + 1);
    PairAt(LevelOf(o) + 1, Binary(p, y, z), t, n, q, k, j, 1);
    EndFollows(t, j, LevelOf(o));
    SolidThen(Binary(o, x, Binary(p, y, z)), t, 0, m, n, j, 1);
    WholeInput(LevelOf(o), Binary(o, x, Binary(p, y, z)), t, j, chain);
  }

  lemma ReadLeft(x: Expr, o: BinaryOp, y: Expr, p: BinaryOp, z: Expr, t: Tokens, m: nat, n: nat, q: nat, k: nat,
      j: nat, chain: nat)
    requires OnLine(x, o, y, p, z, t, m, n, q, k, j) && LevelOf(p) <= LevelOf(o)
        && !(LevelOf(o) == 4 && LevelOf(p) == 4)
    ensures Expression(t, 0, 0, chain) == Done(Binary(p, Binary(o, x, y), z), j, chain)
  {
    var e := Binary(p, Binary(o, x, y), z);
    SlotEnds(e);
    OpFollows(p, t, q, k, Slot(e));
    PairAt(Slot(e), e.lhs, t, 0, m, n, q, 1);
    EndFollows(t, j, LevelOf(p));
    ThenSolid(e, t, 0, q, k, j, 1);
    WholeInput(LevelOf(p), e, t, j, chain);
  }

  // ----- two comparisons -----

  /** Climbing from the comparison level to the whole of the input. */
  lemma {:induction false} Climb(l: nat, r: Parsed, t: Tokens, chain: nat)
    requires Stream(t) && l <= 4 && Heads(t[0], 9) && Level(4, t, 0, 1, chain) == r
    requires r.Done? ==> r.pos < |t| && t[r.pos] == Eof
    ensures Level(l, t, 0, 1, chain) == r
    decreases 4 - l
  {
    if l < 4 {
      Climb(l + 1, r, t, chain);
      if r.Fail? { LiftFail(l, r.error, t, 0, 1, chain); } else { ClimbDone(l, r, t, chain); }
    }
  }

  lemma ClimbDone(l: nat, r: Parsed, t: Tokens, chain: nat)
    requires Stream(t) && l < 4 && Heads(t[0], 9) && Level(l + 1, t, 0, 1, chain) == r
    requires r.Done? && r.pos < |t| && t[r.pos] == Eof
    ensures Level(l, t, 0, 1, chain) == r
  {
    if l != 3 { assert Fold(l, r.e, t, r.pos, 1, r.chain) == r; }
  }

  lemma SolidOperand(x: Expr, t: Tokens, i: nat, j: nat, chain: nat)
    requires Solid(x, t, i, j, 1) && Quiet(t, j, 5)
    ensures Level(5, t, i, 1, chain) == Done(x, j, chain)
  {
    assert Follow(5, t, j);
    Finish(true, 5, x, t, i, j, 1);
  }

  /** One comparison operator and its operand, inside a chain. */
  lemma ChainStep(ops: seq<BinaryOp>, operands: seq<Expr>, op: BinaryOp, y: Expr, t: Tokens, m: nat, n: nat, j: nat,
      chain: nat)
    requires Stream(t) && |operands| == |ops| + 1 && LevelOf(op) == 4 && Between(op, t, m, n) && j < |t|
    requires Level(5, t, n, 1, chain) == Done(y, j, chain)
    ensures Comparisons(ops, operands, t, m, 1, chain) == Comparisons(ops + [op], operands + [y], t, j, 1, chain)
  {
    assert n == m + 1;
    assert Operand(5, t, m + 1, 1, chain) == Done(y, j, chain);
  }

  lemma ComparisonQuiet(op: BinaryOp, t: Tokens, m: nat, n: nat)
    requires Between(op, t, m, n) && LevelOf(op) == 4
    ensures Quiet(t, m, 5)
  {
  }

  lemma ReadChain(x: Expr, o: BinaryOp, y: Expr, p: BinaryOp, z: Expr, t: Tokens, m: nat, n: nat, q: nat, k: nat,
      j: nat, chain: nat)
    requires OnLine(x, o, y, p, z, t, m, n, q, k, j) && LevelOf(o) == 4 && LevelOf(p) == 4
    ensures Level(4, t, 0, 1, chain) == FinishComparison([o, p], [x, y, z], j, chain)
  {
    ComparisonQuiet(o, t, m, n);
    ComparisonQuiet(p, t, q, k);
    EndFollows(t, j, 5);
    SolidOperand(x, t, 0, m, chain);
    SolidOperand(y, t, n, q, chain);
    SolidOperand(z, t, k, j, chain);
    CollectTwo(x, o, y, p, z, t, m, n, q, k, j, chain);
  }

  lemma CollectTwo(x: Expr, o: BinaryOp, y: Expr, p: BinaryOp, z: Expr, t: Tokens, m: nat, n: nat, q: nat, k: nat,
      j: nat, chain: nat)
    requires Stream(t) && Between(o, t, m, n) && Between(p, t, q, k) && j < |t| && t[j] == Eof
    requires LevelOf(o) == 4 && LevelOf(p) == 4 && Level(5, t, 0, 1, chain) == Done(x, m, chain)
    requires Level(5, t, n, 1, chain) == Done(y, q, chain) && Level(5, t, k, 1, chain) == Done(z, j, chain)
    ensures Level(4, t, 0, 1, chain) == FinishComparison([o, p], [x, y, z], j, chain)
  {
    LevelFour(true, x, t, 0, m, 1, chain);
    ChainStep([], [x], o, y, t, m, n, q, chain);
    assert [] + [o] == [o] && [x] + [y] == [x, y];
    ChainStep([o], [x, y], p, z, t, q, k, j, chain);
    assert [o] + [p] == [o, p] && [x, y] + [z] == [x, y, z];
    assert Comparisons([o, p], [x, y, z], t, j, 1, chain) == FinishComparison([o, p], [x, y, z], j, chain);
  }

  lemma FinishOfTwo(ops: seq<BinaryOp>, operands: seq<Expr>, pos: nat, chain: nat)
    requires |ops| == 2 && |operands| == 3
    ensures FinishComparison(ops, operands, pos, chain) ==
              if chain + Size(operands[1]) > MAX_CHAIN_EXPANSION then Fail(ChainBudget)
              else Done(Binary(And, Binary(ops[0], operands[0], operands[1]), Binary(ops[1], operands[1], operands[2])),
                        pos, chain + Size(operands[1]))
  {
    assert operands[1..2] == [operands[1]];
    SizesOne(operands[1]);
    assert Conjoin(ops, operands, 1) == Conjunct(ops, operands, 0);
  }

  lemma TwoComparisons(x: Expr, o: BinaryOp, y: Expr, p: BinaryOp, z: Expr, t: Tokens, m: nat, n: nat, q: nat,
      k: nat, j: nat, chain: nat)
    requires OnLine(x, o, y, p, z, t, m, n, q, k, j) && LevelOf(o) == 4 && LevelOf(p) == 4
    ensures Expression(t, 0, 0, chain) ==
              if chain + Size(y) > MAX_CHAIN_EXPANSION then Fail(ChainBudget)
              else Done(Binary(And, Binary(o, x, y), Binary(p, y, z)), j, chain + Size(y))
  {
    ReadChain(x, o, y, p, z, t, m, n, q, k, j, chain);
    FinishOfTwo([o, p], [x, y, z], j, chain);
    Climb(0, FinishComparison([o, p], [x, y, z], j, chain), t, chain);
  }

  // ----- the grouping -----

  /** What `x o y p z` is read as, for any two infix operators: two comparisons chain, sharing the middle operand and
      charging its size to the budget; otherwise the operator of the tighter group takes its operands first, and within
      a group the first one does. */
  ghost function Grouped(x: Expr, o: BinaryOp, y: Expr, p: BinaryOp, z: Expr, end: nat, chain: nat): Parsed {
    if Comparison(o) && Comparison(p) then
      if chain + Size(y) > MAX_CHAIN_EXPANSION then Fail(ChainBudget)
      else Done(Binary(And, Binary(o, x, y), Binary(p, y, z)), end, chain + Size(y))
    else if Tighter(p, o) then Done(Binary(o, x, Binary(p, y, z)), end, chain)
    else Done(Binary(p, Binary(o, x, y), z), end, chain)
  }

  /** The same by level. */
  lemma GroupedByLevel(x: Expr, o: BinaryOp, y: Expr, p: BinaryOp, z: Expr, end: nat, chain: nat)
    ensures Grouped(x, o, y, p, z, end, chain) ==
              if LevelOf(o) == 4 && LevelOf(p) == 4 then
                if chain + Size(y) > MAX_CHAIN_EXPANSION then Fail(ChainBudget)
                else Done(Binary(And, Binary(o, x, y), Binary(p, y, z)), end, chain + Size(y))
              else if LevelOf(o) < LevelOf(p) then Done(Binary(o, x, Binary(p, y, z)), end, chain)
              else Done(Binary(p, Binary(o, x, y), z), end, chain)
  {
    TighterLevels(p, o);
    NotLevels(o);
    NotLevels(p);
  }

  /** Any two infix operators between any three operands that bind tighter than both: leaves, signed leaves. */
  lemma TwoOperators(x: Expr, o: BinaryOp, y: Expr, p: BinaryOp, z: Expr, t: Tokens, m: nat, n: nat, q: nat, k: nat,
      j: nat, chain: nat)
    requires OnLine(x, o, y, p, z, t, m, n, q, k, j)
    ensures Expression(t, 0, 0, chain) == Grouped(x, o, y, p, z, j, chain)
  {
    GroupedByLevel(x, o, y, p, z, j, chain);
    if LevelOf(o) == 4 && LevelOf(p) == 4 { TwoComparisons(x, o, y, p, z, t, m, n, q, k, j, chain); }
    else if LevelOf(o) < LevelOf(p) { ReadRight(x, o, y, p, z, t, m, n, q, k, j, chain); }
    else { ReadLeft(x, o, y, p, z, t, m, n, q, k, j, chain); }
  }

  // ----- NOT -----

  /** `NOT x o y`, read as it stands. */
  ghost predicate NegatedLine(x: Expr, o: BinaryOp, y: Expr, t: Tokens, m: nat, n: nat, j: nat) {
    && |t| > 1 && t[0] == PrefixToken(Not) && Solid(x, t, 1, m, 1) && Between(o, t, m, n) && Solid(y, t, n, j, 1)
    && t[j] == Eof
  }

  /** `x o NOT y`. */
  ghost predicate LineNegated(x: Expr, o: BinaryOp, y: Expr, t: Tokens, m: nat, n: nat, j: nat) {
    && Solid(x, t, 0, m, 1) && Between(o, t, m, n) && t[n] == PrefixToken(Not) && Solid(y, t, n + 1, j, 1)
    && t[j] == Eof
  }

  /** NOT in front of a solid operand. */
  lemma NotSolid(l: nat, x: Expr, t: Tokens, i: nat, j: nat)
    requires i + 1 < |t| && t[i] == PrefixToken(Not) && Solid(x, t, i + 1, j, 1) && l <= 3 && Follow(l, t, j)
    ensures Reading(true, l, Unary(Not, x), t, i, j, 1)
  {
    FollowUp(l, 3, t, j);
    PrefixReading(true, Not, x, t, i, j, 1);
    LiftDown(3, l, Unary(Not, x), t, i, j, 1);
  }

  lemma NotOverOperator(x: Expr, o: BinaryOp, y: Expr, t: Tokens, m: nat, n: nat, j: nat, chain: nat)
    requires NegatedLine(x, o, y, t, m, n, j) && LevelOf(o) >= 4
    ensures Expression(t, 0, 0, chain) == Done(Unary(Not, Binary(o, x, y)), j, chain)
  {
    EndFollows(t, j, 3);
    PairAt(3, Binary(o, x, y), t, 1, m, n, j, 1);
    PrefixReading(true, Not, Binary(o, x, y), t, 0, j, 1);
    WholeInput(3, Unary(Not, Binary(o, x, y)), t, j, chain);
  }

  lemma NotUnderOperator(x: Expr, o: BinaryOp, y: Expr, t: Tokens, m: nat, n: nat, j: nat, chain: nat)
    requires NegatedLine(x, o, y, t, m, n, j) && LevelOf(o) < 3
    ensures Expression(t, 0, 0, chain) == Done(Binary(o, Unary(Not, x), y), j, chain)
  {
    var e := Binary(o, Unary(Not, x), y);
    SlotEnds(e);
    OpFollows(o, t, m, n, Slot(e));
    NotSolid(Slot(e), x, t, 0, m);
    EndFollows(t, j, LevelOf(o));
    ThenSolid(e, t, 0, m, n, j, 1);
    WholeInput(LevelOf(o), e, t, j, chain);
  }

  lemma NotOnTheRight(x: Expr, o: BinaryOp, y: Expr, t: Tokens, m: nat, n: nat, j: nat, chain: nat)
    requires LineNegated(x, o, y, t, m, n, j) && LevelOf(o) < 3
    ensures Expression(t, 0, 0, chain) == Done(Binary(o, x, Unary(Not, y)), j, chain)
  {
    var e := Binary(o, x, Unary(Not, y));
    EndFollows(t, j, LevelOf(o) + 1);
    NotSolid(LevelOf(o) + 1, y, t, n, j);
    EndFollows(t, j, LevelOf(o));
    SolidThen(e, t, 0, m, n, j, 1);
    WholeInput(LevelOf(o), e, t, j, chain);
  }

  /** No level above NOT reads the word itself. */
  lemma {:induction false} NotIsNoOperand(l: nat, t: Tokens, i: nat, chain: nat)
    requires Stream(t) && i + 1 < |t| && t[i] == PrefixToken(Not) && Heads(t[i + 1], 9) && t[i + 1] != LParen
    requires 4 <= l <= 10
    ensures Level(l, t, i, 1, chain) == Fail(ReservedWord)
    decreases 10 - l
  {
    if l == 10 {
      assert !CallFollows(t, i);
      assert Atom(t, i, 1, chain) == Fail(ReservedWord);
    } else {
      NotIsNoOperand(l + 1, t, i, chain);
      NotFails(l, t, i, chain);
    }
  }

  lemma NotFails(l: nat, t: Tokens, i: nat, chain: nat)
    requires Stream(t) && i < |t| && t[i] == PrefixToken(Not) && 4 <= l < 10
    requires Level(l + 1, t, i, 1, chain) == Fail(ReservedWord)
    ensures Level(l, t, i, 1, chain) == Fail(ReservedWord)
  {
  }

  /** A right operand that cannot be read. */
  lemma OperandFails(x: Expr, o: BinaryOp, t: Tokens, m: nat, n: nat, error: ParseError, chain: nat)
    requires Solid(x, t, 0, m, 1) && Between(o, t, m, n) && Level(LevelOf(o) + 1, t, n, 1, chain) == Fail(error)
    ensures Level(LevelOf(o), t, 0, 1, chain) == Fail(error)
  {
    var l := LevelOf(o);
    OpFollows(o, t, m, n, l + 1);
    Finish(true, l + 1, x, t, 0, m, 1);
    assert Level(l + 1, t, 0, 1, chain) == Done(x, m, chain);
    assert Operand(l + 1, t, n, 1, chain) == Fail(error);
    if l == 4 {
      LevelFour(true, x, t, 0, m, 1, chain);
      assert n == m + 1;
    } else {
      LiftLoop(l, x, t, 0, m, 1, chain);
    }
  }

  lemma {:induction false} FailsAbove(from: nat, l: nat, error: ParseError, t: Tokens, chain: nat)
    requires Stream(t) && Heads(t[0], 9) && l <= from <= 9 && Level(from, t, 0, 1, chain) == Fail(error)
    ensures Level(l, t, 0, 1, chain) == Fail(error)
    decreases from - l
  {
    if l < from {
      FailsAbove(from, l + 1, error, t, chain);
      LiftFail(l, error, t, 0, 1, chain);
    }
  }

  lemma NotRefused(x: Expr, o: BinaryOp, y: Expr, t: Tokens, m: nat, n: nat, j: nat, chain: nat)
    requires LineNegated(x, o, y, t, m, n, j) && LevelOf(o) >= 4 && t[n + 1] != LParen
    ensures Expression(t, 0, 0, chain) == Fail(ReservedWord)
  {
    NotIsNoOperand(LevelOf(o) + 1, t, n, chain);
    OperandFails(x, o, t, m, n, ReservedWord, chain);
    FailsAbove(LevelOf(o), 0, ReservedWord, t, chain);
  }

  /** NOT takes in comparisons and every tighter operator, and stands under AND, XOR and OR. */
  lemma NotFirst(x: Expr, o: BinaryOp, y: Expr, t: Tokens, m: nat, n: nat, j: nat, chain: nat)
    requires NegatedLine(x, o, y, t, m, n, j)
    ensures Expression(t, 0, 0, chain) ==
              Done(if AboveNot(o) then Unary(Not, Binary(o, x, y)) else Binary(o, Unary(Not, x), y), j, chain)
  {
    NotLevels(o);
    if AboveNot(o) {
      NotOverOperator(x, o, y, t, m, n, j, chain);
    } else {
      NotUnderOperator(x, o, y, t, m, n, j, chain);
    }
  }

  /** As a right operand NOT stands only under AND, XOR and OR. */
  lemma NotLast(x: Expr, o: BinaryOp, y: Expr, t: Tokens, m: nat, n: nat, j: nat, chain: nat)
    requires LineNegated(x, o, y, t, m, n, j) && t[n + 1] != LParen
    ensures Expression(t, 0, 0, chain) ==
              if AboveNot(o) then Fail(ReservedWord) else Done(Binary(o, x, Unary(Not, y)), j, chain)
  {
    NotLevels(o);
    if AboveNot(o) { NotRefused(x, o, y, t, m, n, j, chain); } else { NotOnTheRight(x, o, y, t, m, n, j, chain); }
  }

  // ----- on the tokens -----

  /** The tokens from `i` to `j` are a leaf, or a sign and a leaf, and spell `x`. */
  ghost predicate PrimaryAt(x: Expr, t: Tokens, i: nat, j: nat) {
    || (j == i + 1 < |t| && LeafToken(t[i]) && x == LeafExpr(t[i]))
    || (j == i + 2 < |t| && t[i] == MINUS && LeafToken(t[i + 1]) && x == Unary(Neg, LeafExpr(t[i + 1])))
    || (j == i + 2 < |t| && t[i] == PLUS && LeafToken(t[i + 1]) && x == Unary(Pos, LeafExpr(t[i + 1])))
  }

  /** The tokens from `m` to `n` spell `op`. */
  ghost predicate SpelledAt(op: BinaryOp, t: Tokens, m: nat, n: nat) { n < |t| && Spans(t, m, n, OpTokens(op)) }

  lemma PrimaryIsSolid(x: Expr, t: Tokens, i: nat, j: nat)
    requires Stream(t) && PrimaryAt(x, t, i, j)
    ensures Solid(x, t, i, j, 1)
  {
    if j == i + 1 { LeafIsSolid(t, i, 1); }
    else if t[i] == MINUS { SignedLeafIsSolid(Neg, t, i, 1); }
    else { SignedLeafIsSolid(Pos, t, i, 1); }
  }

  lemma PrimaryOpens(x: Expr, t: Tokens, i: nat, j: nat)
    requires PrimaryAt(x, t, i, j)
    ensures i < |t| && t[i] != LParen
  {
  }

  lemma SpelledBetween(op: BinaryOp, t: Tokens, m: nat, n: nat)
    requires SpelledAt(op, t, m, n)
    ensures Between(op, t, m, n)
  {
    OpTokensRead(op, t, m, n);
  }

  /** An operand and the operator after it. */
  ghost predicate Begins(x: Expr, o: BinaryOp, t: Tokens, i: nat, m: nat, n: nat) {
    PrimaryAt(x, t, i, m) && SpelledAt(o, t, m, n)
  }

  lemma BeginsSolid(x: Expr, o: BinaryOp, t: Tokens, i: nat, m: nat, n: nat)
    requires Stream(t) && Begins(x, o, t, i, m, n)
    ensures Solid(x, t, i, m, 1) && Between(o, t, m, n)
  {
    PrimaryIsSolid(x, t, i, m);
    SpelledBetween(o, t, m, n);
  }

  /** Any two infix operators between leaves or signed leaves: `x o y p z`. */
  lemma Groups(x: Expr, o: BinaryOp, y: Expr, p: BinaryOp, z: Expr, t: Tokens, m: nat, n: nat, q: nat, k: nat,
      chain: nat)
    requires Stream(t) && Begins(x, o, t, 0, m, n) && Begins(y, p, t, n, q, k) && PrimaryAt(z, t, k, |t| - 1)
    ensures Expression(t, 0, 0, chain) == Grouped(x, o, y, p, z, |t| - 1, chain)
  {
    BeginsSolid(x, o, t, 0, m, n);
    BeginsSolid(y, p, t, n, q, k);
    PrimaryIsSolid(z, t, k, |t| - 1);
    TwoOperators(x, o, y, p, z, t, m, n, q, k, |t| - 1, chain);
  }

  /** `NOT x o y`: NOT takes in comparisons and every tighter operator, and stands under AND, XOR and OR. */
  lemma NotBindsLooser(x: Expr, o: BinaryOp, y: Expr, t: Tokens, m: nat, n: nat, chain: nat)
    requires Stream(t) && t[0] == PrefixToken(Not) && Begins(x, o, t, 1, m, n) && PrimaryAt(y, t, n, |t| - 1)
    ensures Expression(t, 0, 0, chain) ==
            Done(if AboveNot(o) then Unary(Not, Binary(o, x, y)) else Binary(o, Unary(Not, x), y), |t| - 1, chain)
  {
    BeginsSolid(x, o, t, 1, m, n);
    PrimaryIsSolid(y, t, n, |t| - 1);
    NotFirst(x, o, y, t, m, n, |t| - 1, chain);
  }

  /** `x o NOT y`: as a right operand NOT stands only under AND, XOR and OR. */
  lemma NotAsOperand(x: Expr, o: BinaryOp, y: Expr, t: Tokens, m: nat, n: nat, chain: nat)
    requires Stream(t) && Begins(x, o, t, 0, m, n) && t[n] == PrefixToken(Not) && PrimaryAt(y, t, n + 1, |t| - 1)
    ensures Expression(t, 0, 0, chain) ==
            if AboveNot(o) then Fail(ReservedWord) else Done(Binary(o, x, Unary(Not, y)), |t| - 1, chain)
  {
    BeginsSolid(x, o, t, 0, m, n);
    PrimaryIsSolid(y, t, n + 1, |t| - 1);
    PrimaryOpens(y, t, n + 1, |t| - 1);
    NotLast(x, o, y, t, m, n, |t| - 1, chain);
  }
}
