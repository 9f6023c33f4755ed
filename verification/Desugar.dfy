/** The meaning of a chained comparison: `a < b <= c` is `a < b AND b <= c`, in three-valued logic
    (crates/acetone-cypher/src/parser.rs). */
module Desugar {
  import opened Wrappers
  import opened Syntax
  import opened Grammar

  datatype Truth = False | Unknown | True

  /** Any pure interpretation of the operators; only truth values and AND are fixed. */
  datatype Model<!V> = Model(
    literal: Literal -> V, parameter: string -> V, variable: string -> V,
    property: (V, string) -> V, unary: (UnaryOp, V) -> V, binary: (BinaryOp, V, V) -> V,
    compare: (BinaryOp, V, V) -> Truth, isNull: V -> bool, list: seq<V> -> V, index: (V, V) -> V,
    ofTruth: Truth -> V, truth: V -> Truth)

  ghost predicate Faithful<V>(m: Model<V>) { forall v :: m.truth(m.ofTruth(v)) == v }

  /** Kleene conjunction. */
  function Both(a: Truth, b: Truth): Truth {
    match (a, b)
    case (False, _) => False
    case (_, False) => False
    case (True, True) => True
    case _ => Unknown
  }

  function Eval<V>(m: Model<V>, e: Expr): V
    decreases e
  {
    match e
    case Lit(v) => m.literal(v)
    case Param(name) => m.parameter(name)
    case Var(name) => m.variable(name)
    case Prop(b, key) => m.property(Eval(m, b), key)
    case Unary(op, x) => m.unary(op, Eval(m, x))
    case IsNull(x, negated) => m.ofTruth(if m.isNull(Eval(m, x)) != negated then True else False)
    case ListLit(items) => m.list(EvalAll(m, items))
    case Index(b, x) => m.index(Eval(m, b), Eval(m, x))
    case Binary(op, l, r) =>
      if op.And? then m.ofTruth(Both(m.truth(Eval(m, l)), m.truth(Eval(m, r))))
      else if LevelOf(op) == 4 then m.ofTruth(m.compare(op, Eval(m, l), Eval(m, r)))
      else m.binary(op, Eval(m, l), Eval(m, r))
  }

  function EvalAll<V>(m: Model<V>, es: seq<Expr>): seq<V>
    decreases es
  {
    if es == [] then [] else EvalAll(m, es[..|es| - 1]) + [Eval(m, es[|es| - 1])]
  }

  // ----- the reference meaning -----

  /** What the `i`th adjacent pair compares to; each operand has one value, wherever it is used. */
  function Verdict<V>(m: Model<V>, ops: seq<BinaryOp>, operands: seq<Expr>, i: nat): Truth
    requires i < |ops| && |operands| == |ops| + 1
  {
    m.compare(ops[i], Eval(m, operands[i]), Eval(m, operands[i + 1]))
  }

  ghost predicate AnyIs<V>(m: Model<V>, ops: seq<BinaryOp>, operands: seq<Expr>, n: nat, v: Truth)
    requires n <= |ops| && |operands| == |ops| + 1
  {
    exists i :: 0 <= i < n && Verdict(m, ops, operands, i) == v
  }

  /** False as soon as one comparison is false, otherwise unknown as soon as one is unknown, otherwise true. */
  ghost function AllOf<V>(m: Model<V>, ops: seq<BinaryOp>, operands: seq<Expr>, n: nat): Truth
    requires n <= |ops| && |operands| == |ops| + 1
  {
    if AnyIs(m, ops, operands, n, False) then False
    else if AnyIs(m, ops, operands, n, Unknown) then Unknown
    else True
  }

  predicate Comparing(ops: seq<BinaryOp>) { forall i :: 0 <= i < |ops| ==> LevelOf(ops[i]) == 4 }

  lemma SomeGrows<V>(m: Model<V>, ops: seq<BinaryOp>, operands: seq<Expr>, n: nat, v: Truth)
    requires n < |ops| && |operands| == |ops| + 1
    ensures AnyIs(m, ops, operands, n + 1, v) <==> AnyIs(m, ops, operands, n, v) || Verdict(m, ops, operands, n) == v
  {
    if AnyIs(m, ops, operands, n, v) {
      var i :| 0 <= i < n && Verdict(m, ops, operands, i) == v;
      assert 0 <= i < n + 1 && Verdict(m, ops, operands, i) == v;
    }
  }

  lemma AllOfGrows<V>(m: Model<V>, ops: seq<BinaryOp>, operands: seq<Expr>, n: nat)
    requires n < |ops| && |operands| == |ops| + 1
    ensures AllOf(m, ops, operands, n + 1) == Both(AllOf(m, ops, operands, n), Verdict(m, ops, operands, n))
  {
    SomeGrows(m, ops, operands, n, False);
    SomeGrows(m, ops, operands, n, Unknown);
  }

  lemma ConjunctMeans<V>(m: Model<V>, ops: seq<BinaryOp>, operands: seq<Expr>, i: nat)
    requires Faithful(m) && Comparing(ops) && i < |ops| && |operands| == |ops| + 1
    ensures m.truth(Eval(m, Conjunct(ops, operands, i))) == Verdict(m, ops, operands, i)
  {
  }

  /** The built tree means the conjunction of the adjacent comparisons, for every chain length. */
  lemma {:induction false} ChainMeaning<V>(m: Model<V>, ops: seq<BinaryOp>, operands: seq<Expr>, n: nat)
    requires Faithful(m) && Comparing(ops) && 1 <= n <= |ops| && |operands| == |ops| + 1
    ensures m.truth(Eval(m, Conjoin(ops, operands, n))) == AllOf(m, ops, operands, n)
  {
    ConjunctMeans(m, ops, operands, n - 1);
    AllOfGrows(m, ops, operands, n - 1);
    if n > 1 { ChainMeaning(m, ops, operands, n - 1); }
  }

  // ----- from the tokens -----

  /** From `i` to `j` stand the operands, each read at the level below comparison, with the operators between. */
  ghost predicate ChainAt(ops: seq<BinaryOp>, operands: seq<Expr>, t: Tokens, i: nat, j: nat, depth: nat, chain: nat,
      after: nat)
    requires Stream(t) && i < |t| && |operands| == |ops| + 1
    decreases |ops|, 0
  {
    var n := |ops|;
    if n == 0 then Level(5, t, i, depth, chain) == Done(operands[0], j, after)
    else ChainThen(ops[..n - 1], operands[..n], ops[n - 1], operands[n], t, i, j, depth, chain, after)
  }

  ghost predicate ChainThen(ops: seq<BinaryOp>, operands: seq<Expr>, op: BinaryOp, last: Expr, t: Tokens, i: nat,
      j: nat, depth: nat, chain: nat, after: nat)
    requires Stream(t) && i < |t| && |operands| == |ops| + 1
    decreases |ops|, 1
  {
    exists m: nat, c: nat :: ChainAt(ops, operands, t, i, m, depth, chain, c)
        && Linked(op, last, t, m, j, depth, c, after)
  }

  ghost predicate Linked(op: BinaryOp, operand: Expr, t: Tokens, m: nat, j: nat, depth: nat, chain: nat, after: nat)
    requires Stream(t)
  {
    m + 1 < |t| && OpAtLevel(t, m, 4) && OpAt(t, m).value.op == op
        && Operand(5, t, m + 1, depth, chain) == Done(operand, j, after)
  }

  /** A chain that stops at `j`, and what the parser returns for it. */
  ghost predicate Parses(ops: seq<BinaryOp>, operands: seq<Expr>, t: Tokens, i: nat, j: nat, depth: nat, chain: nat,
      after: nat, r: Parsed)
    requires Stream(t) && i < |t| && |operands| == |ops| + 1
  {
    ChainAt(ops, operands, t, i, j, depth, chain, after) && j < |t| && !OpAtLevel(t, j, 4) && Comparing(ops)
    && r == FinishComparison(ops, operands, j, after)
  }

  lemma ChainSnoc(ops: seq<BinaryOp>, operands: seq<Expr>, op: BinaryOp, e: Expr, t: Tokens, i: nat, m: nat, j: nat,
                  depth: nat, chain: nat, c: nat, after: nat)
    requires Stream(t) && i < |t| && |operands| == |ops| + 1
    requires ChainAt(ops, operands, t, i, m, depth, chain, c) && Linked(op, e, t, m, j, depth, c, after)
    ensures ChainAt(ops + [op], operands + [e], t, i, j, depth, chain, after)
  {
    assert ChainThen(ops, operands, op, e, t, i, j, depth, chain, after);
    assert (ops + [op])[..|ops|] == ops && (operands + [e])[..|operands|] == operands;
  }

  /** The collecting loop: it either fails in an operand or ends on a chain. */
  lemma {:induction false} LoopReadsChain(ops: seq<BinaryOp>, operands: seq<Expr>, t: Tokens, i: nat, pos: nat,
      depth: nat, chain: nat, c: nat)
      returns (ops': seq<BinaryOp>, operands': seq<Expr>, j: nat, after: nat)
    requires Stream(t) && i < |t| && pos < |t| && |operands| == |ops| + 1 && Comparing(ops)
    requires ChainAt(ops, operands, t, i, pos, depth, chain, c)
    ensures |operands'| == |ops'| + 1
    ensures var r := Comparisons(ops, operands, t, pos, depth, c);
            r.Done? ==> Parses(ops', operands', t, i, j, depth, chain, after, r)
    decreases |t| - pos
  {
    ops', operands', j, after := ops, operands, pos, c;
    if OpAtLevel(t, pos, 4) {
      var r := Operand(5, t, pos + 1, depth, c);
      if r.Done? {
        var op := OpAt(t, pos).value.op;
        ChainSnoc(ops, operands, op, r.e, t, i, pos, r.pos, depth, chain, c, r.chain);
        ops', operands', j, after := LoopReadsChain(ops + [op], operands + [r.e], t, i, r.pos, depth, chain, r.chain);
      }
    }
  }

  /** Every comparison the parser accepts is a chain of operands in textual order, and its tree means the
      conjunction of their adjacent comparisons; a single operand is returned as it is. */
  lemma ComparisonMeaning<V>(m: Model<V>, t: Tokens, i: nat, depth: nat, chain: nat)
      returns (ops: seq<BinaryOp>, operands: seq<Expr>, j: nat, after: nat)
    requires Faithful(m) && Stream(t) && i < |t|
    ensures |operands| == |ops| + 1
    ensures var r := Level(4, t, i, depth, chain);
            r.Done? ==>
              && r.pos == j < |t| && !OpAtLevel(t, j, 4) && Comparing(ops)
              && ChainAt(ops, operands, t, i, j, depth, chain, after)
              && if ops == [] then r.e == operands[0] else m.truth(Eval(m, r.e)) == AllOf(m, ops, operands, |ops|)
  {
    var first := Level(5, t, i, depth, chain);
    if first.Done? {
      assert ChainAt([], [first.e], t, i, first.pos, depth, chain, first.chain);
      ops, operands, j, after := LoopReadsChain([], [first.e], t, i, first.pos, depth, chain, first.chain);
      FinishMeans(m, ops, operands, j, after);
    } else {
      ops, operands, j, after := [], [Lit(LNull)], 0, 0;
    }
  }

  lemma FinishMeans<V>(m: Model<V>, ops: seq<BinaryOp>, operands: seq<Expr>, pos: nat, chain: nat)
    requires Faithful(m) && |operands| == |ops| + 1
    ensures var r := FinishComparison(ops, operands, pos, chain);
            r.Done? && Comparing(ops) ==>
              && r.pos == pos
              && if ops == [] then r.e == operands[0] else m.truth(Eval(m, r.e)) == AllOf(m, ops, operands, |ops|)
  {
    if ops != [] && Comparing(ops) {
      ChainMeaning(m, ops, operands, |ops|);
      if |ops| == 1 { assert Conjoin(ops, operands, 1) == Conjunct(ops, operands, 0); }
    }
  }
}
