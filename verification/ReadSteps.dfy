/** How each level of the expression grammar reads one printed construct (crates/acetone-cypher/src/parser.rs). */
module ReadSteps {
  import opened Wrappers
  import opened Syntax
  import opened Grammar
  import opened Printer

  /** The stream carries exactly `ts` from `i` to `j`. */
  ghost predicate Spans(t: Tokens, i: nat, j: nat, ts: Tokens) {
    j == i + |ts| <= |t| && forall k :: 0 <= k < |ts| ==> t[i + k] == ts[k]
  }

  lemma SpansAt(t: Tokens, i: nat, j: nat, ts: Tokens, k: nat)
    requires Spans(t, i, j, ts) && k < |ts|
    ensures j == i + |ts| && t[i + k] == ts[k]
  {
  }

  lemma SpansSplit(t: Tokens, i: nat, j: nat, a: Tokens, b: Tokens)
    requires Spans(t, i, j, a + b)
    ensures Spans(t, i, i + |a|, a) && Spans(t, i + |a|, j, b)
  {
    forall k | 0 <= k < |a| ensures t[i + k] == a[k] { assert (a + b)[k] == a[k]; }
    forall k | 0 <= k < |b| ensures t[i + |a| + k] == b[k] { assert (a + b)[|a| + k] == b[k]; }
  }

  lemma SpansCut(t: Tokens, i: nat, j: nat, a: Tokens, b: Tokens)
    requires Spans(t, i, j, a + b) && a != [] && b != []
    ensures Spans(t, i, i + |a|, a) && Spans(t, i + |a|, j, b) && i < i + |a| < j && t[i + |a|] == b[0]
  {
    SpansSplit(t, i, j, a, b);
    SpansAt(t, i + |a|, j, b, 0);
  }

  lemma SpansWrapped(t: Tokens, i: nat, j: nat, open: Token, ts: Tokens, close: Token)
    requires Spans(t, i, j, [open] + (ts + [close]))
    ensures i + 2 <= j && t[i] == open && t[j - 1] == close && Spans(t, i + 1, j - 1, ts)
  {
    SpansAt(t, i, j, [open] + (ts + [close]), 0);
    SpansAt(t, i, j, [open] + (ts + [close]), |ts| + 1);
    SpansSplit(t, i, j, [open], ts + [close]);
    SpansSplit(t, i + 1, j, ts, [close]);
  }

  // ----- tokens that end an expression -----

  /** Continues no postfix, call or pattern. */
  predicate Stop(k: Token) {
    k != Dot && k != LBracket && k != Colon && k != LBrace && k != LParen && k != LArrow && !(k.Ident? && k.word == IsW)
  }

  /** Continues no operator loop of level `l` or tighter. */
  predicate Quiet(t: Tokens, j: nat, l: nat) {
    j < |t| && Stop(t[j]) && (OpAt(t, j).Some? ==> LevelOf(OpAt(t, j).value.op) < l)
  }

  /** Completes no dotted call. */
  predicate Tail(t: Tokens, j: nat) {
    j < |t| && t[j] != LParen && (t[j] == Dot ==> !CallFollows(t, j + 1))
  }

  predicate Follow(l: nat, t: Tokens, j: nat) {
    if l == 10 then Tail(t, j) else Quiet(t, j, if l == 4 then 4 else l + 1)
  }

  lemma FollowTighter(l: nat, t: Tokens, j: nat)
    requires Follow(l, t, j) && l < 10
    ensures Follow(l + 1, t, j) && Quiet(t, j, l + 1)
  {
  }

  predicate Closes(t: Tokens, j: nat) {
    j < |t| && (t[j] == RParen || t[j] == RBracket || t[j] == Comma || t[j] == Eof)
  }

  lemma ClosersAreQuiet(t: Tokens, j: nat)
    requires Closes(t, j)
    ensures Quiet(t, j, 0) && Follow(0, t, j) && Follow(10, t, j)
  {
  }

  // ----- what the grammar reads, for every value of the chain counter -----

  /** What level `l` returns once it has read `e` up to `j`: its loop goes on from there. */
  function After(l: nat, e: Expr, t: Tokens, j: nat, depth: nat, chain: nat): Parsed
    requires Stream(t) && j < |t| && l <= 10
  {
    if l == 10 then Postfix(e, t, j, depth, chain)
    else if l == 3 || l == 4 || l == 9 then Done(e, j, chain)
    else Fold(l, e, t, j, depth, chain)
  }

  /** Success, or the error of nesting `expression` past its limit. */
  function Within(ok: bool, r: Parsed): Parsed { if ok then r else Fail(RecursionLimit) }

  /** Level `l` at `i` reads `e` up to `j` and goes on from there, or nests too deep. */
  ghost predicate Reading(ok: bool, l: nat, e: Expr, t: Tokens, i: nat, j: nat, depth: nat) {
    && Stream(t) && i < |t| && j < |t| && l <= 10
    && forall chain: nat :: Level(l, t, i, depth, chain) == Within(ok, After(l, e, t, j, depth, chain))
  }

  /** Level `l` at `i` returns `e` and stops at `j`, or nests too deep. */
  ghost predicate Whole(ok: bool, l: nat, e: Expr, t: Tokens, i: nat, j: nat, depth: nat) {
    && Stream(t) && i < |t| && j < |t| && l <= 10
    && forall chain: nat :: Level(l, t, i, depth, chain) == Within(ok, Done(e, j, chain))
  }

  /** `expression` at `i` returns `e` and stops at `j`, or nests too deep. */
  ghost predicate Expressed(ok: bool, e: Expr, t: Tokens, i: nat, j: nat, depth: nat) {
    && Stream(t) && i < |t| && j < |t|
    && forall chain: nat :: Expression(t, i, depth, chain) == Within(ok, Done(e, j, chain))
  }

  /** The postfix loop at `m` turns `b` into `e` and goes on from `j`, or nests too deep. */
  ghost predicate Extends(ok: bool, b: Expr, e: Expr, t: Tokens, m: nat, j: nat, depth: nat) {
    && Stream(t) && m < |t| && j < |t|
    && forall chain: nat :: Postfix(b, t, m, depth, chain) == Within(ok, Postfix(e, t, j, depth, chain))
  }

  lemma QuietAfter(l: nat, e: Expr, t: Tokens, j: nat, depth: nat, chain: nat)
    requires Stream(t) && l <= 10 && Quiet(t, j, l)
    ensures After(l, e, t, j, depth, chain) == Done(e, j, chain)
  {
  }

  lemma Finish(ok: bool, l: nat, e: Expr, t: Tokens, i: nat, j: nat, depth: nat)
    requires Reading(ok, l, e, t, i, j, depth) && Quiet(t, j, l)
    ensures Whole(ok, l, e, t, i, j, depth)
  {
    forall chain: nat ensures Level(l, t, i, depth, chain) == Within(ok, Done(e, j, chain)) {
      QuietAfter(l, e, t, j, depth, chain);
    }
  }

  // ----- one level up -----

  lemma LiftSpecial(l: nat, e: Expr, t: Tokens, i: nat, j: nat, depth: nat, chain: nat)
    requires Stream(t) && i < |t| && j < |t| && (l == 3 || l == 4 || l == 9)
    requires Level(l + 1, t, i, depth, chain) == Done(e, j, chain)
    requires Heads(t[i], l + 1) && (l == 4 ==> !OpAtLevel(t, j, 4))
    ensures Level(l, t, i, depth, chain) == Done(e, j, chain)
  {
  }

  lemma LiftLoop(l: nat, e: Expr, t: Tokens, i: nat, j: nat, depth: nat, chain: nat)
    requires Stream(t) && i < |t| && j < |t| && l <= 8 && l != 3 && l != 4
    requires Level(l + 1, t, i, depth, chain) == Done(e, j, chain)
    ensures Level(l, t, i, depth, chain) == Fold(l, e, t, j, depth, chain)
  {
  }

  lemma LiftFail(l: nat, error: ParseError, t: Tokens, i: nat, depth: nat, chain: nat)
    requires Stream(t) && i < |t| && l < 10 && Heads(t[i], l + 1) && Level(l + 1, t, i, depth, chain) == Fail(error)
    ensures Level(l, t, i, depth, chain) == Fail(error)
  {
  }

  lemma Lift(ok: bool, l: nat, e: Expr, t: Tokens, i: nat, j: nat, depth: nat)
    requires l < 10 && Follow(l, t, j) && i < |t| && Heads(t[i], l + 1)
    requires Reading(ok, l + 1, e, t, i, j, depth)
    ensures Reading(ok, l, e, t, i, j, depth)
  {
    FollowTighter(l, t, j);
    Finish(ok, l + 1, e, t, i, j, depth);
    forall chain: nat ensures Level(l, t, i, depth, chain) == Within(ok, After(l, e, t, j, depth, chain)) {
      if !ok { LiftFail(l, RecursionLimit, t, i, depth, chain); }
      else if l == 3 || l == 4 || l == 9 { LiftSpecial(l, e, t, i, j, depth, chain); }
      else { LiftLoop(l, e, t, i, j, depth, chain); }
    }
  }

  /** A complete atom in parentheses, all the way up. */
  lemma {:induction false} LiftParen(ok: bool, l: nat, e: Expr, t: Tokens, i: nat, j: nat, depth: nat)
    requires l <= 10 && i < |t| && t[i] == LParen && Quiet(t, j, 0)
    requires Reading(ok, 10, e, t, i, j, depth)
    ensures Reading(ok, l, e, t, i, j, depth)
    decreases 10 - l
  {
    if l < 10 {
      LiftParen(ok, l + 1, e, t, i, j, depth);
      Lift(ok, l, e, t, i, j, depth);
    }
  }

  lemma Enter(ok: bool, e: Expr, t: Tokens, i: nat, j: nat, depth: nat)
    requires Reading(ok, 0, e, t, i, j, depth + 1) && Quiet(t, j, 0) && depth < MAX_DEPTH
    ensures Expressed(ok, e, t, i, j, depth)
  {
    Finish(ok, 0, e, t, i, j, depth + 1);
    forall chain: nat ensures Expression(t, i, depth, chain) == Within(ok, Done(e, j, chain)) {
      assert Level(0, t, i, depth + 1, chain) == Within(ok, Done(e, j, chain));
    }
  }

  // ----- operators -----

  lemma OpTokensRead(op: BinaryOp, t: Tokens, m: nat, o: nat)
    requires |t| > 0 && Spans(t, m, o, OpTokens(op))
    ensures m < o && OpAt(t, m) == Some(Operator(op, o - m)) && Stop(t[m])
  {
    SpansAt(t, m, o, OpTokens(op), 0);
    if |OpTokens(op)| == 2 { SpansAt(t, m, o, OpTokens(op), 1); }
  }

  lemma FoldStep(ok: bool, op: BinaryOp, lhs: Expr, rhs: Expr, t: Tokens, m: nat, o: nat, j: nat, depth: nat,
      chain: nat)
    requires Stream(t) && m < o < |t| && j < |t| && LevelOf(op) != 4 && OpAt(t, m) == Some(Operator(op, o - m))
    requires Operand(LevelOf(op) + 1, t, o, depth, chain) == Within(ok, Done(rhs, j, chain))
    ensures Fold(LevelOf(op), lhs, t, m, depth, chain) ==
              Within(ok, Fold(LevelOf(op), Binary(op, lhs, rhs), t, j, depth, chain))
  {
  }

  lemma FoldReading(left: bool, right: bool, op: BinaryOp, lhs: Expr, rhs: Expr, t: Tokens, i: nat, m: nat, o: nat,
      j: nat, depth: nat)
    requires LevelOf(op) != 4 && Reading(left, LevelOf(op), lhs, t, i, m, depth)
    requires Whole(right, LevelOf(op) + 1, rhs, t, o, j, depth) && m < o && OpAt(t, m) == Some(Operator(op, o - m))
    ensures Reading(left && right, LevelOf(op), Binary(op, lhs, rhs), t, i, j, depth)
  {
    var l, e := LevelOf(op), Binary(op, lhs, rhs);
    forall chain: nat ensures Level(l, t, i, depth, chain) == Within(left && right, Fold(l, e, t, j, depth, chain)) {
      assert Operand(l + 1, t, o, depth, chain) == Within(right, Done(rhs, j, chain));
      FoldStep(right, op, lhs, rhs, t, m, o, j, depth, chain);
      assert After(l, lhs, t, m, depth, chain) == Fold(l, lhs, t, m, depth, chain);
    }
  }

  lemma ComparisonStep(ok: bool, op: BinaryOp, lhs: Expr, rhs: Expr, t: Tokens, m: nat, j: nat, depth: nat, chain: nat)
    requires Stream(t) && m + 1 < |t| && j < |t| && LevelOf(op) == 4 && OpAt(t, m) == Some(Operator(op, 1))
    requires Operand(5, t, m + 1, depth, chain) == Within(ok, Done(rhs, j, chain)) && !OpAtLevel(t, j, 4)
    ensures Comparisons([], [lhs], t, m, depth, chain) == Within(ok, Done(Binary(op, lhs, rhs), j, chain))
  {
    assert [] + [op] == [op] && [lhs] + [rhs] == [lhs, rhs];
    assert Comparisons([op], [lhs, rhs], t, j, depth, chain) == FinishComparison([op], [lhs, rhs], j, chain);
  }

  lemma LevelFour(left: bool, lhs: Expr, t: Tokens, i: nat, m: nat, depth: nat, chain: nat)
    requires Stream(t) && i < |t| && m < |t| && Level(5, t, i, depth, chain) == Within(left, Done(lhs, m, chain))
    ensures Level(4, t, i, depth, chain) == Within(left, Comparisons([], [lhs], t, m, depth, chain))
  {
  }

  lemma CompareReading(left: bool, right: bool, op: BinaryOp, lhs: Expr, rhs: Expr, t: Tokens, i: nat, m: nat, j: nat,
                       depth: nat)
    requires LevelOf(op) == 4 && Whole(left, 5, lhs, t, i, m, depth)
    requires m + 1 < |t| && Whole(right, 5, rhs, t, m + 1, j, depth)
    requires OpAt(t, m) == Some(Operator(op, 1)) && !OpAtLevel(t, j, 4)
    ensures Reading(left && right, 4, Binary(op, lhs, rhs), t, i, j, depth)
  {
    forall chain: nat ensures Level(4, t, i, depth, chain) ==
        Within(left && right, Done(Binary(op, lhs, rhs), j, chain)) {
      LevelFour(left, lhs, t, i, m, depth, chain);
      assert Operand(5, t, m + 1, depth, chain) == Within(right, Done(rhs, j, chain));
      ComparisonStep(right, op, lhs, rhs, t, m, j, depth, chain);
    }
  }

  lemma PrefixReading(ok: bool, op: UnaryOp, x: Expr, t: Tokens, i: nat, j: nat, depth: nat)
    requires i + 1 < |t| && t[i] == PrefixToken(op) && !t[i + 1].IntegerTooLarge?
    requires Reading(ok, PrefixLevel(op), x, t, i + 1, j, depth)
    ensures Reading(ok, PrefixLevel(op), Unary(op, x), t, i, j, depth)
  {
    var l := PrefixLevel(op);
    forall chain: nat ensures Level(l, t, i, depth, chain) == Within(ok, Done(Unary(op, x), j, chain)) {
      assert Level(l, t, i + 1, depth, chain) == Within(ok, Done(x, j, chain));
    }
  }

  // ----- atoms and parentheses -----

  lemma AtomReads(ok: bool, e: Expr, t: Tokens, i: nat, j: nat, depth: nat, chain: nat)
    requires Stream(t) && i < |t| && j < |t| && Atom(t, i, depth, chain) == Within(ok, Done(e, j, chain))
    ensures Level(10, t, i, depth, chain) == Within(ok, Postfix(e, t, j, depth, chain))
  {
  }

  lemma GroupReads(ok: bool, e: Expr, t: Tokens, i: nat, j: nat, depth: nat, chain: nat)
    requires Stream(t) && i + 1 < |t| && t[i] == LParen && !GroupStartsPattern(t, i)
    requires j + 1 < |t| && t[j] == RParen && Expression(t, i + 1, depth, chain) == Within(ok, Done(e, j, chain))
    ensures Atom(t, i, depth, chain) == Within(ok, Done(e, j + 1, chain))
  {
    assert Parenthesised(t, i, depth, chain) == Within(ok, Done(e, j + 1, chain));
  }

  lemma GroupReading(ok: bool, e: Expr, t: Tokens, i: nat, j: nat, depth: nat)
    requires i + 1 < |t| && t[i] == LParen && Stream(t) && !GroupStartsPattern(t, i)
    requires j + 1 < |t| && t[j] == RParen && Expressed(ok, e, t, i + 1, j, depth)
    ensures Reading(ok, 10, e, t, i, j + 1, depth)
  {
    forall chain: nat ensures Level(10, t, i, depth, chain) == Within(ok, After(10, e, t, j + 1, depth, chain)) {
      GroupReads(ok, e, t, i, j, depth, chain);
      AtomReads(ok, e, t, i, j + 1, depth, chain);
    }
  }

  /** A node pattern cannot be read between `i` and any close parenthesis. */
  lemma NotNodeShaped(ts: Tokens, t: Tokens, i: nat, j: nat, close: nat)
    requires Stream(t) && Lead(ts) && |ts| >= 2 && !(|ts| == 2 && ts[0].Ident? && ts[1].Parameter?)
    requires Spans(t, i, j, ts) && close < |t| && t[close] == RParen && i > 0
    ensures !NodeShaped(t, i - 1, close)
  {
    SpansAt(t, i, j, ts, 0);
    SpansAt(t, i, j, ts, 1);
    if |ts| > 2 { SpansAt(t, i, j, ts, 2); }
  }

  lemma GroupIsNoPattern(ts: Tokens, t: Tokens, i: nat, j: nat)
    requires Stream(t) && Lead(ts) && |ts| >= 2 && !(|ts| == 2 && ts[0].Ident? && ts[1].Parameter?)
    requires Spans(t, i, j, Wrap(ts))
    ensures !GroupStartsPattern(t, i)
  {
    SpansWrapped(t, i, j, LParen, ts, RParen);
    var close := MatchingClose(t, i, LParen, RParen, 0);
    if close.Some? { NotNodeShaped(ts, t, i + 1, j - 1, close.value); }
  }

  /** `(NOT $p)` passes the node-shape scan, so only what follows it decides. */
  lemma NodeLikeGroup(p: string, t: Tokens, i: nat, j: nat)
    requires Stream(t) && Spans(t, i, j, [LParen, Ident("NOT", NotW), Parameter(p), RParen])
    ensures GroupStartsPattern(t, i) <==> ConnectorFollows(t, j - 1)
  {
    var ts := [LParen, Ident("NOT", NotW), Parameter(p), RParen];
    SpansAt(t, i, j, ts, 0);
    SpansAt(t, i, j, ts, 1);
    SpansAt(t, i, j, ts, 2);
    SpansAt(t, i, j, ts, 3);
    assert MatchingClose(t, i + 3, LParen, RParen, 1) == Some(i + 3);
    assert MatchingClose(t, i + 2, LParen, RParen, 1) == Some(i + 3);
    assert MatchingClose(t, i + 1, LParen, RParen, 1) == Some(i + 3);
  }

  // ----- postfixes -----

  lemma KeyStep(b: Expr, key: string, t: Tokens, m: nat, j: nat, depth: nat)
    requires Stream(t) && Spans(t, m, j, [Dot, Ident(key, Plain)]) && j < |t|
    ensures Extends(true, b, Prop(b, key), t, m, j, depth)
  {
    SpansAt(t, m, j, [Dot, Ident(key, Plain)], 0);
    SpansAt(t, m, j, [Dot, Ident(key, Plain)], 1);
    assert SuffixAt(b, t, m) == Extend(Prop(b, key), 2);
  }

  lemma NullSuffix(b: Expr, negated: bool, t: Tokens, m: nat, j: nat)
    requires Stream(t) && Spans(t, m, j, NullTokens(negated)) && j < |t|
    ensures SuffixAt(b, t, m) == Extend(IsNull(b, negated), j - m)
  {
    SpansAt(t, m, j, NullTokens(negated), 0);
    SpansAt(t, m, j, NullTokens(negated), 1);
    if negated { SpansAt(t, m, j, NullTokens(negated), 2); }
  }

  lemma NullStep(b: Expr, negated: bool, t: Tokens, m: nat, j: nat, depth: nat)
    requires Stream(t) && Spans(t, m, j, NullTokens(negated)) && j < |t|
    ensures Extends(true, b, IsNull(b, negated), t, m, j, depth)
  {
    NullSuffix(b, negated, t, m, j);
  }

  lemma IndexStep(ok: bool, b: Expr, x: Expr, t: Tokens, m: nat, j: nat, depth: nat)
    requires m + 1 < |t| && t[m] == LBracket && t[m + 1] != DotDot
    requires j + 1 < |t| && t[j] == RBracket && Expressed(ok, x, t, m + 1, j, depth)
    ensures Extends(ok, b, Index(b, x), t, m, j + 1, depth)
  {
    assert SuffixAt(b, t, m) == Subscript;
    forall chain: nat ensures Postfix(b, t, m, depth, chain) ==
        Within(ok, Postfix(Index(b, x), t, j + 1, depth, chain)) {
      assert Subscripted(b, t, m, depth, chain) == Within(ok, Postfix(Index(b, x), t, j + 1, depth, chain));
    }
  }

  lemma SuffixReading(left: bool, right: bool, b: Expr, e: Expr, t: Tokens, i: nat, m: nat, j: nat, depth: nat)
    requires Reading(left, 10, b, t, i, m, depth) && Extends(right, b, e, t, m, j, depth)
    ensures Reading(left && right, 10, e, t, i, j, depth)
  {
    forall chain: nat ensures Level(10, t, i, depth, chain) == Within(left && right, After(10, e, t, j, depth, chain)) {
      assert After(10, b, t, m, depth, chain) == Postfix(b, t, m, depth, chain);
    }
  }

  lemma ExtendsTwice(left: bool, right: bool, a: Expr, b: Expr, e: Expr, t: Tokens, i: nat, m: nat, j: nat, depth: nat)
    requires Extends(left, a, b, t, i, m, depth) && Extends(right, b, e, t, m, j, depth)
    ensures Extends(left && right, a, e, t, i, j, depth)
  {
    forall chain: nat ensures Postfix(a, t, i, depth, chain) == Within(left && right, Postfix(e, t, j, depth, chain)) {
      assert Postfix(b, t, m, depth, chain) == Within(right, Postfix(e, t, j, depth, chain));
    }
  }

  /** The smallest integer at the head of a sign level. */
  lemma MinReading(ok: bool, e: Expr, t: Tokens, i: nat, j: nat, depth: nat)
    requires i + 2 < |t| && t[i] == MINUS && t[i + 1] == IntegerTooLarge(MIN_MAGNITUDE)
    requires Extends(ok, Lit(LInt(MIN_INT)), e, t, i + 2, j, depth) && Quiet(t, j, 10)
    ensures Reading(ok, 9, e, t, i, j, depth)
  {
    forall chain: nat ensures Level(9, t, i, depth, chain) == Within(ok, After(9, e, t, j, depth, chain)) {
      QuietAfter(10, e, t, j, depth, chain);
      assert SignLevel(t, i, depth, chain) == Postfix(Lit(LInt(MIN_INT)), t, i + 2, depth, chain);
    }
  }

  // ----- lists -----

  /** The item loop at `p`, with the first `k` items read, returns the whole list and stops at `j`, or nests too
      deep. */
  ghost predicate ItemsFrom(ok: bool, items: seq<Expr>, k: nat, t: Tokens, p: nat, j: nat, depth: nat) {
    && Stream(t) && p < |t| && k <= |items|
    && forall chain: nat :: Items(items[..k], t, p, depth, chain) == Within(ok, Done(ListLit(items), j, chain))
  }

  /** What stands at `q`, after the first `k` items: the rest of the list. */
  ghost predicate RestReads(ok: bool, items: seq<Expr>, k: nat, t: Tokens, q: nat, j: nat, depth: nat) {
    q < |t| && if k >= |items| then ok && t[q] == RBracket && j == q + 1
               else t[q] == Comma && ItemsFrom(ok, items, k, t, q + 1, j, depth)
  }

  lemma ItemStep(left: bool, right: bool, items: seq<Expr>, k: nat, t: Tokens, p: nat, q: nat, j: nat, depth: nat)
    requires k < |items| && Expressed(left, items[k], t, p, q, depth) && RestReads(right, items, k + 1, t, q, j, depth)
    ensures ItemsFrom(left && right, items, k, t, p, j, depth)
  {
    assert items[..k] + [items[k]] == items[..k + 1];
    forall chain: nat ensures Items(items[..k], t, p, depth, chain) ==
        Within(left && right, Done(ListLit(items), j, chain)) {
      assert Expression(t, p, depth, chain) == Within(left, Done(items[k], q, chain));
      if k + 1 == |items| { assert items[..k + 1] == items; }
    }
  }

  lemma ListReading(ok: bool, items: seq<Expr>, t: Tokens, i: nat, j: nat, depth: nat)
    requires i + 1 < |t| && t[i] == LBracket && Stream(t) && !ComprehensionFollows(t, i + 1) && j < |t|
    requires items == [] ==> ok && t[i + 1] == RBracket && j == i + 2
    requires items != [] ==> t[i + 1] != RBracket && ItemsFrom(ok, items, 0, t, i + 1, j, depth)
    ensures Reading(ok, 10, ListLit(items), t, i, j, depth)
  {
    forall chain: nat ensures Level(10, t, i, depth, chain) ==
        Within(ok, After(10, ListLit(items), t, j, depth, chain)) {
      ListBodyRead(ok, items, t, i + 1, j, depth, chain);
      assert Bracketed(t, i, depth, chain) == Within(ok, Done(ListLit(items), j, chain));
      assert Atom(t, i, depth, chain) == Bracketed(t, i, depth, chain);
      AtomReads(ok, ListLit(items), t, i, j, depth, chain);
    }
  }

  lemma ListBodyRead(ok: bool, items: seq<Expr>, t: Tokens, i: nat, j: nat, depth: nat, chain: nat)
    requires i < |t| && Stream(t)
    requires items == [] ==> ok && t[i] == RBracket && j == i + 1
    requires items != [] ==> t[i] != RBracket && ItemsFrom(ok, items, 0, t, i, j, depth)
    ensures ListBody(t, i, depth, chain) == Within(ok, Done(ListLit(items), j, chain))
  {
    if items != [] {
      assert items[..0] == [];
      assert Items(items[..0], t, i, depth, chain) == Within(ok, Done(ListLit(items), j, chain));
    }
  }
}
