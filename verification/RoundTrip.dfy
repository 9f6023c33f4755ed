/** Reading back what was printed gives the same tree (crates/acetone-cypher/src/parser.rs). */
module RoundTrip {
  import opened Wrappers
  import opened Syntax
  import opened Grammar
  import opened Printer
  import opened ReadSteps

  // ----- where the parts of a printed form stand -----

  /** The end of the first operand of a form printed from `i` on. */
  function Cut(e: Expr, i: nat): nat
    requires LeftForm(e)
  {
    i + |Print(Left(e), Slot(e))|
  }

  lemma BareParts(e: Expr)
    requires LeftForm(e)
    ensures Bare(e) == Print(Left(e), Slot(e)) + Remainder(e) && Print(Left(e), Slot(e)) != []
  {
    PrintLeads(Left(e), Slot(e));
  }

  lemma SplitLeft(e: Expr, t: Tokens, i: nat, j: nat)
    requires LeftForm(e) && Spans(t, i, j, Bare(e))
    ensures Spans(t, i, Cut(e, i), Print(Left(e), Slot(e))) && Spans(t, Cut(e, i), j, Remainder(e)) && i < Cut(e, i) < j
    ensures t[Cut(e, i)] == Remainder(e)[0]
  {
    BareParts(e);
    SpansCut(t, i, j, Print(Left(e), Slot(e)), Remainder(e));
  }

  lemma SplitUnary(e: Expr, t: Tokens, i: nat, j: nat)
    requires e.Unary? && Spans(t, i, j, Bare(e))
    ensures i + 1 < j && t[i] == PrefixToken(e.uop) && Spans(t, i + 1, j, Print(e.operand, PrefixLevel(e.uop)))
    ensures Heads(t[i + 1], PrefixLevel(e.uop))
  {
    var ts := Print(e.operand, PrefixLevel(e.uop));
    SpansSplit(t, i, j, [PrefixToken(e.uop)], ts);
    SpansAt(t, i, i + 1, [PrefixToken(e.uop)], 0);
    PrintLeads(e.operand, PrefixLevel(e.uop));
    SpansAt(t, i + 1, j, ts, 0);
  }

  lemma GroupOpens(e: Expr, t: Tokens, i: nat, j: nat)
    requires Spans(t, i, j, Group(e))
    ensures i < j && t[i] == LParen
  {
    SpansAt(t, i, j, Group(e), 0);
  }

  // ----- names are not calls -----

  predicate Named(t: Tokens, i: nat) { i < |t| && t[i].Ident? && t[i].word == Plain }

  /** The first operand is not made a call by what follows it. */
  lemma TailAtCut(e: Expr, t: Tokens, i: nat, j: nat)
    requires LeftForm(e) && Spans(t, i, j, Bare(e)) && Tail(t, j)
    ensures Spans(t, i, Cut(e, i), Print(Left(e), Slot(e))) && Tail(t, Cut(e, i))
  {
    SplitLeft(e, t, i, j);
    RemainderMid(e);
    if e.Prop? { SpansAt(t, Cut(e, i), j, Remainder(e), 1); }
  }

  lemma NotNamed(e: Expr)
    requires e.Lit? || e.Param? || e.Unary? || e.ListLit?
    ensures |Bare(e)| >= 1 && !(Bare(e)[0].Ident? && Bare(e)[0].word == Plain)
  {
  }

  lemma {:induction false} NoCall(e: Expr, t: Tokens, i: nat, j: nat)
    requires Stream(t) && Spans(t, i, j, Bare(e)) && Tail(t, j)
    ensures Named(t, i) ==> !CallFollows(t, i)
    decreases e, 0
  {
    if LeftForm(e) {
      TailAtCut(e, t, i, j);
      NoCallPrint(Left(e), Slot(e), t, i, Cut(e, i));
    } else {
      if !e.Var? { NotNamed(e); }
      SpansAt(t, i, j, Bare(e), 0);
    }
  }

  lemma {:induction false} NoCallPrint(e: Expr, l: nat, t: Tokens, i: nat, j: nat)
    requires Stream(t) && Spans(t, i, j, Print(e, l)) && Tail(t, j)
    ensures Named(t, i) ==> !CallFollows(t, i)
    decreases e, 1
  {
    if Tier(e) < l { GroupOpens(e, t, i, j); } else { NoCall(e, t, i, j); }
  }

  // ----- groups are not patterns -----

  /** Where the printer writes parentheses: below a tighter level, or first in a list. */
  predicate NeedsGroup(x: Expr) { Tier(x) < 10 || OpensComprehension(Print(x, 0)) }

  /** A form that gets parentheses has at least two tokens and, unless doubled, not the shape `name $p`. */
  lemma {:induction false} GroupedIsLong(x: Expr)
    requires NeedsGroup(x)
    ensures |Bare(x)| >= 2 && (!LooksLikeNode(x) ==> !(|Bare(x)| == 2 && Bare(x)[0].Ident? && Bare(x)[1].Parameter?))
  {
    if LeftForm(x) {
      PrintLeads(Left(x), Slot(x));
      RemainderMid(x);
      RemainderLong(x);
    } else if x.Unary? {
      var ts := Print(x.operand, PrefixLevel(x.uop));
      PrintLeads(x.operand, PrefixLevel(x.uop));
      if |ts| == 1 && ts[0].Parameter? { OneTokenForm(x.operand, PrefixLevel(x.uop)); }
    }
  }

  lemma RemainderLong(x: Expr)
    requires LeftForm(x)
    ensures |Remainder(x)| >= 2
  {
    if x.Binary? { PrintLeads(x.rhs, LevelOf(x.op) + 1); }
  }

  lemma OneTokenForm(y: Expr, l: nat)
    requires |Print(y, l)| == 1 && Print(y, l)[0].Parameter?
    ensures y.Param?
  {
    if LeftForm(y) { RemainderLong(y); } else if y.Unary? { PrintLeads(y.operand, PrefixLevel(y.uop)); }
  }

  lemma NodeLikeForm(x: Expr)
    requires LooksLikeNode(x)
    ensures Bare(x) == [Ident("NOT", NotW), Parameter(x.operand.name)]
  {
    assert Print(x.operand, 3) == [Parameter(x.operand.name)];
  }

  /** A single pair around a form that needs one is taken for a pattern exactly when it is `(NOT $p)` and a connector
      follows it. */
  lemma SinglePairExactly(x: Expr, t: Tokens, i: nat, j: nat)
    requires Stream(t) && NeedsGroup(x) && Spans(t, i, j, Wrap(Bare(x)))
    ensures j > i && (GroupStartsPattern(t, i) <==> LooksLikeNode(x) && ConnectorFollows(t, j - 1))
  {
    if LooksLikeNode(x) {
      NodeLikeForm(x);
      assert Wrap(Bare(x)) == [LParen, Ident("NOT", NotW), Parameter(x.operand.name), RParen];
      NodeLikeGroup(x.operand.name, t, i, j);
    } else {
      BareLeads(x);
      GroupedIsLong(x);
      GroupIsNoPattern(Bare(x), t, i, j);
    }
  }

  /** Wherever the printer puts a group, the pattern scan does not take it. */
  lemma PrintedGroup(x: Expr, t: Tokens, i: nat, j: nat)
    requires Stream(t) && NeedsGroup(x) && Spans(t, i, j, Group(x))
    ensures i < j && t[i] == LParen && !GroupStartsPattern(t, i)
  {
    SpansAt(t, i, j, Group(x), 0);
    if LooksLikeNode(x) {
      LeadWrap(Bare(x));
      NodeLikeForm(x);
      GroupIsNoPattern(Wrap(Bare(x)), t, i, j);
    } else {
      SinglePairExactly(x, t, i, j);
    }
  }

  ghost predicate PatternAt(t: Tokens, i: nat)
    requires Stream(t)
  {
    i < |t| && t[i] == LParen && GroupStartsPattern(t, i)
  }

  /** A printed form never begins with what reads as a pattern. */
  lemma {:induction false} NoPattern(e: Expr, l: nat, t: Tokens, i: nat, j: nat)
    requires Stream(t) && Spans(t, i, j, Print(e, l)) && l <= 10
    ensures !PatternAt(t, i)
    decreases e
  {
    if Tier(e) < l {
      PrintedGroup(e, t, i, j);
    } else if LeftForm(e) {
      SplitLeft(e, t, i, j);
      NoPattern(Left(e), Slot(e), t, i, Cut(e, i));
    } else {
      SpansAt(t, i, j, Bare(e), 0);
    }
  }

  /** Nor with `name = pattern`. */
  ghost predicate NamedPattern(t: Tokens, i: nat)
    requires Stream(t)
  {
    i + 1 < |t| && t[i].Ident? && t[i + 1] == EQUALS && PatternAt(t, i + 2)
  }

  lemma {:induction false} NoNamedPattern(e: Expr, l: nat, t: Tokens, i: nat, j: nat)
    requires Stream(t) && Spans(t, i, j, Print(e, l)) && i + 1 < j
    ensures !NamedPattern(t, i)
    decreases e
  {
    if Tier(e) < l {
      GroupOpens(e, t, i, j);
    } else if LeftForm(e) {
      SplitLeft(e, t, i, j);
      if i + 1 < Cut(e, i) {
        NoNamedPattern(Left(e), Slot(e), t, i, Cut(e, i));
      } else {
        EqualsAtCut(e, t, i + 1, j);
      }
    } else if e.Unary? {
      SplitUnary(e, t, i, j);
    } else {
      SpansAt(t, i, j, Bare(e), 0);
    }
  }

  lemma EqualsAtCut(e: Expr, t: Tokens, m: nat, j: nat)
    requires Stream(t) && LeftForm(e) && Spans(t, m, j, Remainder(e)) && m < j
    ensures !(t[m] == EQUALS && PatternAt(t, m + 1))
  {
    SpansAt(t, m, j, Remainder(e), 0);
    if e.Binary? && e.op.EqOp? {
      SpansSplit(t, m, j, OpTokens(e.op), Print(e.rhs, 5));
      NoPattern(e.rhs, 5, t, m + 1, j);
    }
  }

  // ----- the induction -----

  /** Whether `n` more nested calls of `expression` stay within the limit. */
  predicate Room(depth: nat, n: nat) { depth + n <= MAX_DEPTH }

  /** `e`, printed for level `l`, stands from `i` to `j` with a token after it that ends it. */
  ghost predicate Ready(e: Tree, l: nat, t: Tokens, i: nat, j: nat) {
    Stream(t) && l <= 10 && Spans(t, i, j, Print(e, l)) && Follow(l, t, j)
  }

  /** At or below its own tier a form is printed bare. */
  lemma AtTier(e: Expr, l: nat)
    requires l <= Tier(e)
    ensures Print(e, l) == Bare(e) && Nest(e, l) == BareNest(e)
  {
  }

  lemma ReadyTighter(e: Tree, l: nat, t: Tokens, i: nat, j: nat)
    requires Ready(e, l, t, i, j) && l < 10 && Tier(e) != l
    ensures Ready(e, l + 1, t, i, j) && Nest(e, l + 1) == Nest(e, l)
  {
    FollowTighter(l, t, j);
  }

  /** The first token of a printed form. */
  lemma ReadyHead(e: Tree, l: nat, t: Tokens, i: nat, j: nat)
    requires Ready(e, l, t, i, j)
    ensures i < j < |t| && Heads(t[i], l) && Follow(l, t, j)
  {
    PrintLeads(e, l);
    SpansAt(t, i, j, Print(e, l), 0);
  }

  lemma LiftPrinted(ok: bool, e: Tree, l: nat, t: Tokens, i: nat, j: nat, depth: nat)
    requires l < 10 && Ready(e, l, t, i, j) && Ready(e, l + 1, t, i, j) && Reading(ok, l + 1, e, t, i, j, depth)
    ensures Reading(ok, l, e, t, i, j, depth)
  {
    ReadyHead(e, l, t, i, j);
    ReadyHead(e, l + 1, t, i, j);
    Lift(ok, l, e, t, i, j, depth);
  }

  /** Any printed form is read back by its level, or its nesting is exactly what passes the limit. */
  lemma {:induction false} Reads(e: Tree, l: nat, t: Tokens, i: nat, j: nat, depth: nat)
    requires Ready(e, l, t, i, j) && depth <= MAX_DEPTH
    ensures Reading(Room(depth, Nest(e, l)), l, e, t, i, j, depth)
    decreases e, 3
  {
    if Tier(e) < l { ReadsGroup(e, l, t, i, j, depth); } else { ReadsBare(e, l, t, i, j, depth); }
  }

  /** A bare form, passed up from its own tier to level `l`. */
  lemma {:induction false} ReadsBare(e: Tree, l: nat, t: Tokens, i: nat, j: nat, depth: nat)
    requires Ready(e, l, t, i, j) && l <= Tier(e) && depth <= MAX_DEPTH
    ensures Reading(Room(depth, Nest(e, l)), l, e, t, i, j, depth)
    decreases e, 2, 0, 10 - l
  {
    if l == Tier(e) { ReadsAtTier(e, t, i, j, depth); } else {
      ReadyTighter(e, l, t, i, j);
      ReadsBare(e, l + 1, t, i, j, depth);
      LiftPrinted(Room(depth, Nest(e, l)), e, l, t, i, j, depth);
    }
  }

  /** A bare form, read by its own tier. */
  lemma {:induction false} ReadsAtTier(e: Tree, t: Tokens, i: nat, j: nat, depth: nat)
    requires Ready(e, Tier(e), t, i, j) && depth <= MAX_DEPTH
    ensures Reading(Room(depth, Nest(e, Tier(e))), Tier(e), e, t, i, j, depth)
    decreases e, 1, 0, 0
  {
    if e.Binary? { ReadsBinary(e, t, i, j, depth); }
    else if e.Unary? { ReadsUnary(e, t, i, j, depth); }
    else if e.ListLit? { ReadsList(e, t, i, j, depth); }
    else if MinHeaded(e) { ReadsMinHeaded(e, t, i, j, depth); }
    else if LeftForm(e) { ReadsPostfix(e, t, i, j, depth); }
    else { ReadsLeaf(e, t, i, j, depth); }
  }

  lemma LeafTokens(e: Tree, t: Tokens, i: nat, j: nat)
    requires Ready(e, 10, t, i, j) && Tier(e) == 10 && (e.Var? || e.Param? || e.Lit?)
    ensures j == i + 1 && Nest(e, 10) == 0
    ensures if e.Var? then t[i] == Ident(e.name, Plain) && !CallFollows(t, i) else Leaf(t[i]) == Some(e)
  {
    AtTier(e, 10);
    SpansAt(t, i, j, Bare(e), 0);
    if e.Var? { NoCall(e, t, i, j); }
  }

  lemma ReadsLeaf(e: Tree, t: Tokens, i: nat, j: nat, depth: nat)
    requires Ready(e, 10, t, i, j) && Tier(e) == 10 && (e.Var? || e.Param? || e.Lit?)
    ensures Nest(e, 10) == 0 && Reading(true, 10, e, t, i, j, depth)
  {
    LeafTokens(e, t, i, j);
    forall chain: nat ensures Level(10, t, i, depth, chain) == After(10, e, t, j, depth, chain) {
      assert Atom(t, i, depth, chain) == Done(e, j, chain);
      AtomReads(true, e, t, i, j, depth, chain);
    }
  }

  lemma UnaryParts(e: Tree, t: Tokens, i: nat, j: nat)
    requires e.Unary? && Ready(e, PrefixLevel(e.uop), t, i, j)
    ensures Producible(e.operand) && i + 1 < j && t[i] == PrefixToken(e.uop) && !t[i + 1].IntegerTooLarge?
    ensures Ready(e.operand, PrefixLevel(e.uop), t, i + 1, j)
    ensures Nest(e, PrefixLevel(e.uop)) == Nest(e.operand, PrefixLevel(e.uop))
  {
    AtTier(e, PrefixLevel(e.uop));
    SplitUnary(e, t, i, j);
  }

  lemma {:induction false} ReadsUnary(e: Tree, t: Tokens, i: nat, j: nat, depth: nat)
    requires e.Unary? && Ready(e, PrefixLevel(e.uop), t, i, j) && depth <= MAX_DEPTH
    ensures Reading(Room(depth, Nest(e, PrefixLevel(e.uop))), PrefixLevel(e.uop), e, t, i, j, depth)
    decreases e, 0, 0, 0
  {
    UnaryParts(e, t, i, j);
    var l := PrefixLevel(e.uop);
    Reads(e.operand, l, t, i + 1, j, depth);
    PrefixReading(Room(depth, Nest(e.operand, l)), e.uop, e.operand, t, i, j, depth);
  }

  // ----- operators -----

  /** Where the operator ends. */
  function OpCut(e: Expr, i: nat): nat
    requires e.Binary?
  {
    Cut(e, i) + |OpTokens(e.op)|
  }

  /** Where the parts of a printed binary expression stand. */
  lemma SplitBinary(e: Expr, t: Tokens, i: nat, j: nat)
    requires Stream(t) && e.Binary? && Spans(t, i, j, Bare(e))
    ensures Spans(t, i, Cut(e, i), Print(e.lhs, Slot(e))) && Spans(t, OpCut(e, i), j, Print(e.rhs, LevelOf(e.op) + 1))
    ensures OpAt(t, Cut(e, i)) == Some(Operator(e.op, OpCut(e, i) - Cut(e, i))) && Follow(Slot(e), t, Cut(e, i))
  {
    SplitLeft(e, t, i, j);
    SpansSplit(t, Cut(e, i), j, OpTokens(e.op), Print(e.rhs, LevelOf(e.op) + 1));
    OpTokensRead(e.op, t, Cut(e, i), OpCut(e, i));
  }

  lemma BinaryParts(e: Tree, t: Tokens, i: nat, j: nat)
    requires e.Binary? && Ready(e, LevelOf(e.op), t, i, j)
    ensures Producible(e.lhs) && Ready(e.lhs, Slot(e), t, i, Cut(e, i))
    ensures Producible(e.rhs) && Ready(e.rhs, LevelOf(e.op) + 1, t, OpCut(e, i), j)
    ensures OpAt(t, Cut(e, i)) == Some(Operator(e.op, OpCut(e, i) - Cut(e, i)))
  {
    AtTier(e, LevelOf(e.op));
    SplitBinary(e, t, i, j);
    FollowTighter(LevelOf(e.op), t, j);
  }

  lemma OperandsRoom(e: Expr, depth: nat)
    requires e.Binary?
    ensures Room(depth, Nest(e, LevelOf(e.op))) <==>
              Room(depth, Nest(e.lhs, Slot(e))) && Room(depth, Nest(e.rhs, LevelOf(e.op) + 1))
  {
    AtTier(e, LevelOf(e.op));
  }

  lemma {:induction false} ReadsBinary(e: Tree, t: Tokens, i: nat, j: nat, depth: nat)
    requires e.Binary? && Ready(e, LevelOf(e.op), t, i, j) && depth <= MAX_DEPTH
    ensures Reading(Room(depth, Nest(e, LevelOf(e.op))), LevelOf(e.op), e, t, i, j, depth)
    decreases e, 0, 0, 0
  {
    BinaryParts(e, t, i, j);
    OperandsRoom(e, depth);
    var m, o, left, right := Cut(e, i), OpCut(e, i), Room(depth, Nest(e.lhs, Slot(e))),
        Room(depth, Nest(e.rhs, LevelOf(e.op) + 1));
    Reads(e.lhs, Slot(e), t, i, m, depth);
    Reads(e.rhs, LevelOf(e.op) + 1, t, o, j, depth);
    JoinOperands(left, right, e, t, i, m, o, j, depth);
  }

  lemma JoinOperands(left: bool, right: bool, e: Expr, t: Tokens, i: nat, m: nat, o: nat, j: nat, depth: nat)
    requires e.Binary? && |t| > 0 && m < o && OpAt(t, m) == Some(Operator(e.op, o - m))
    requires Reading(left, Slot(e), e.lhs, t, i, m, depth) && Reading(right, LevelOf(e.op) + 1, e.rhs, t, o, j, depth)
    requires Follow(Slot(e), t, m) && Follow(LevelOf(e.op), t, j)
    ensures Reading(left && right, LevelOf(e.op), e, t, i, j, depth)
  {
    var l := LevelOf(e.op);
    FollowTighter(l, t, j);
    Finish(right, l + 1, e.rhs, t, o, j, depth);
    if l == 4 {
      JoinComparison(left, right, e, t, i, m, o, j, depth);
    } else {
      FoldReading(left, right, e.op, e.lhs, e.rhs, t, i, m, o, j, depth);
    }
  }

  lemma JoinComparison(left: bool, right: bool, e: Expr, t: Tokens, i: nat, m: nat, o: nat, j: nat, depth: nat)
    requires e.Binary? && LevelOf(e.op) == 4 && m < o && |t| > 0
    requires Reading(left, 5, e.lhs, t, i, m, depth) && Whole(right, 5, e.rhs, t, o, j, depth)
    requires OpAt(t, m) == Some(Operator(e.op, o - m)) && Follow(5, t, m) && Follow(4, t, j)
    ensures Reading(left && right, 4, e, t, i, j, depth)
  {
    assert o == m + 1;
    assert Quiet(t, m, 5);
    Finish(left, 5, e.lhs, t, i, m, depth);
    CompareReading(left, right, e.op, e.lhs, e.rhs, t, i, m, j, depth);
  }

  // ----- groups -----

  /** Entering `expression`, unless it is already nested to the limit. */
  lemma EnterAt(ok: bool, x: Expr, t: Tokens, i: nat, j: nat, depth: nat)
    requires Stream(t) && i < |t| && Quiet(t, j, 0)
    requires if depth < MAX_DEPTH then Reading(ok, 0, x, t, i, j, depth + 1) else !ok
    ensures Expressed(ok, x, t, i, j, depth)
  {
    if depth < MAX_DEPTH { Enter(ok, x, t, i, j, depth); }
  }

  /** `x` stands from `i` to `j`, with a closing token after it. */
  ghost predicate ReadyInside(x: Tree, t: Tokens, i: nat, j: nat) {
    Stream(t) && Spans(t, i, j, Print(x, 0)) && Closes(t, j)
  }

  lemma InsideIsReady(x: Tree, t: Tokens, i: nat, j: nat)
    requires ReadyInside(x, t, i, j)
    ensures Ready(x, 0, t, i, j) && Quiet(t, j, 0) && i < |t|
  {
    ClosersAreQuiet(t, j);
  }

  lemma {:induction false} ReadsExpression(x: Tree, t: Tokens, i: nat, j: nat, depth: nat)
    requires ReadyInside(x, t, i, j) && depth <= MAX_DEPTH
    ensures Expressed(Room(depth, 1 + Nest(x, 0)), x, t, i, j, depth)
    decreases x, 2, 0, 11
  {
    InsideIsReady(x, t, i, j);
    if depth < MAX_DEPTH { ReadsBare(x, 0, t, i, j, depth + 1); }
    EnterAt(Room(depth, 1 + Nest(x, 0)), x, t, i, j, depth);
  }

  lemma InsideSpan(t: Tokens, i: nat, j: nat, open: Token, ts: Tokens, close: Token)
    requires Spans(t, i, j, [open] + (ts + [close])) && Lead(ts) && (close == RParen || close == RBracket)
    ensures i + 2 < j && t[i] == open && Opener(t[i + 1]) && t[j - 1] == close
    ensures Spans(t, i + 1, j - 1, ts) && Closes(t, j - 1)
  {
    SpansWrapped(t, i, j, open, ts, close);
    SpansAt(t, i + 1, j - 1, ts, 0);
  }

  /** What stands between brackets. */
  lemma InsideBrackets(x: Tree, t: Tokens, i: nat, j: nat, open: Token, close: Token)
    requires Stream(t) && Spans(t, i, j, [open] + (Print(x, 0) + [close])) && (close == RParen || close == RBracket)
    ensures i + 2 < j && t[i] == open && Opener(t[i + 1]) && t[j - 1] == close && ReadyInside(x, t, i + 1, j - 1)
  {
    PrintLeads(x, 0);
    InsideSpan(t, i, j, open, Print(x, 0), close);
  }

  lemma {:induction false} ReadsSingle(x: Tree, t: Tokens, i: nat, j: nat, depth: nat)
    requires i + 2 < j < |t| && t[i] == LParen && t[j - 1] == RParen && ReadyInside(x, t, i + 1, j - 1)
    requires Stream(t) && !GroupStartsPattern(t, i) && depth <= MAX_DEPTH
    ensures Reading(Room(depth, 1 + Nest(x, 0)), 10, x, t, i, j, depth)
    decreases x, 2, 0, 13
  {
    ReadsExpression(x, t, i + 1, j - 1, depth);
    GroupReading(Room(depth, 1 + Nest(x, 0)), x, t, i, j - 1, depth);
  }

  /** A group as a whole expression. */
  lemma EnterParen(ok: bool, x: Expr, t: Tokens, i: nat, j: nat, depth: nat)
    requires Stream(t) && i < |t| && t[i] == LParen && Closes(t, j)
    requires if depth < MAX_DEPTH then Reading(ok, 10, x, t, i, j, depth + 1) else !ok
    ensures Expressed(ok, x, t, i, j, depth)
  {
    ClosersAreQuiet(t, j);
    if depth < MAX_DEPTH { LiftParen(ok, 0, x, t, i, j, depth + 1); }
    EnterAt(ok, x, t, i, j, depth);
  }

  lemma DoubledParts(x: Tree, t: Tokens, i: nat, j: nat)
    requires Stream(t) && LooksLikeNode(x) && Spans(t, i, j, Wrap(Wrap(Print(x, 0)))) && j < |t|
    ensures i + 4 < j && t[i] == LParen && t[i + 1] == LParen && t[j - 2] == RParen && t[j - 1] == RParen
    ensures ReadyInside(x, t, i + 2, j - 2) && !GroupStartsPattern(t, i + 1)
  {
    SpansWrapped(t, i, j, LParen, Wrap(Print(x, 0)), RParen);
    InsideBrackets(x, t, i + 1, j - 1, LParen, RParen);
    AtTier(x, 0);
    SinglePairExactly(x, t, i + 1, j - 1);
  }

  lemma {:induction false} ReadsDoubled(x: Tree, t: Tokens, i: nat, j: nat, depth: nat)
    requires Stream(t) && LooksLikeNode(x) && Spans(t, i, j, Wrap(Wrap(Print(x, 0)))) && j < |t|
    requires !GroupStartsPattern(t, i) && depth <= MAX_DEPTH
    ensures Reading(Room(depth, 2 + Nest(x, 0)), 10, x, t, i, j, depth)
    decreases x, 2, 0, 14
  {
    DoubledParts(x, t, i, j);
    if depth < MAX_DEPTH { ReadsSingle(x, t, i + 1, j - 1, depth + 1); }
    EnterParen(Room(depth, 2 + Nest(x, 0)), x, t, i + 1, j - 1, depth);
    GroupReading(Room(depth, 2 + Nest(x, 0)), x, t, i, j - 1, depth);
  }

  lemma GroupForm(x: Expr)
    ensures Group(x) == if LooksLikeNode(x) then Wrap(Wrap(Print(x, 0))) else Wrap(Print(x, 0))
  {
  }

  lemma {:induction false} ReadsAnyGroup(x: Tree, t: Tokens, i: nat, j: nat, depth: nat)
    requires Stream(t) && NeedsGroup(x) && Spans(t, i, j, Group(x)) && j < |t| && depth <= MAX_DEPTH
    ensures i < j && t[i] == LParen && Reading(Room(depth, Nest(x, 0) + GroupCost(x)), 10, x, t, i, j, depth)
    decreases x, 2, 0, 15
  {
    PrintedGroup(x, t, i, j);
    GroupForm(x);
    if LooksLikeNode(x) {
      ReadsDoubled(x, t, i, j, depth);
    } else {
      InsideBrackets(x, t, i, j, LParen, RParen);
      ReadsSingle(x, t, i, j, depth);
    }
  }

  lemma GroupParts(e: Tree, t: Tokens, i: nat, j: nat)
    requires Ready(e, 10, t, i, j) && Tier(e) < 10
    ensures Spans(t, i, j, Group(e)) && j < |t| && Nest(e, 10) == Nest(e, 0) + GroupCost(e)
  {
  }

  /** A group, read as an atom and passed up to level `l`. */
  lemma {:induction false} ReadsGroup(e: Tree, l: nat, t: Tokens, i: nat, j: nat, depth: nat)
    requires Ready(e, l, t, i, j) && Tier(e) < l && depth <= MAX_DEPTH
    ensures Reading(Room(depth, Nest(e, l)), l, e, t, i, j, depth)
    decreases e, 2, 1, 10 - l
  {
    if l == 10 {
      GroupParts(e, t, i, j);
      ReadsAnyGroup(e, t, i, j, depth);
    } else {
      ReadyTighter(e, l, t, i, j);
      ReadsGroup(e, l + 1, t, i, j, depth);
      LiftPrinted(Room(depth, Nest(e, l)), e, l, t, i, j, depth);
    }
  }

  // ----- postfix chains -----

  lemma {:induction false} ReadsSuffix(e: Tree, t: Tokens, m: nat, j: nat, depth: nat)
    requires Stream(t) && LeftForm(e) && !e.Binary? && Spans(t, m, j, Remainder(e)) && j < |t| && depth <= MAX_DEPTH
    ensures Extends(Room(depth, RemainderNest(e)), Left(e), e, t, m, j, depth)
    decreases e, 0, 0, 1
  {
    if e.Prop? { KeyStep(e.base, e.key, t, m, j, depth); }
    else if e.IsNull? { NullStep(e.operand, e.negated, t, m, j, depth); }
    else {
      InsideBrackets(e.index, t, m, j, LBracket, RBracket);
      ReadsIndex(e.base, e.index, t, m, j, depth);
    }
  }

  lemma {:induction false} ReadsIndex(b: Expr, x: Tree, t: Tokens, m: nat, j: nat, depth: nat)
    requires m + 2 < j < |t| && t[m] == LBracket && t[m + 1] != DotDot && t[j - 1] == RBracket
    requires ReadyInside(x, t, m + 1, j - 1) && depth <= MAX_DEPTH
    ensures Extends(Room(depth, 1 + Nest(x, 0)), b, Index(b, x), t, m, j, depth)
    decreases x, 2, 0, 13
  {
    ReadsExpression(x, t, m + 1, j - 1, depth);
    IndexStep(Room(depth, 1 + Nest(x, 0)), b, x, t, m, j - 1, depth);
  }

  /** The parts of a printed postfix form. */
  lemma PostfixParts(e: Tree, t: Tokens, i: nat, j: nat)
    requires Stream(t) && LeftForm(e) && !e.Binary? && Spans(t, i, j, Print(e, Tier(e))) && Tail(t, j)
    ensures Producible(Left(e)) && Spans(t, i, Cut(e, i), Print(Left(e), Slot(e))) && Tail(t, Cut(e, i))
    ensures Spans(t, Cut(e, i), j, Remainder(e))
  {
    AtTier(e, Tier(e));
    SplitLeft(e, t, i, j);
    TailAtCut(e, t, i, j);
  }

  lemma PostfixRoom(e: Expr, depth: nat)
    requires LeftForm(e) && !e.Binary?
    ensures Room(depth, Nest(e, Tier(e))) <==> Room(depth, Nest(Left(e), Slot(e))) && Room(depth, RemainderNest(e))
  {
    AtTier(e, Tier(e));
  }

  lemma {:induction false} ReadsPostfix(e: Tree, t: Tokens, i: nat, j: nat, depth: nat)
    requires LeftForm(e) && !e.Binary? && !MinHeaded(e) && Ready(e, 10, t, i, j) && depth <= MAX_DEPTH
    ensures Reading(Room(depth, Nest(e, 10)), 10, e, t, i, j, depth)
    decreases e, 0, 0, 2
  {
    PostfixParts(e, t, i, j);
    PostfixRoom(e, depth);
    Reads(Left(e), 10, t, i, Cut(e, i), depth);
    ReadsSuffix(e, t, Cut(e, i), j, depth);
    SuffixReading(Room(depth, Nest(Left(e), 10)), Room(depth, RemainderNest(e)), Left(e), e, t, i, Cut(e, i), j, depth);
  }

  lemma MinTokens(e: Tree, t: Tokens, i: nat, j: nat)
    requires MinHeaded(e) && e.Lit? && Spans(t, i, j, Print(e, 9))
    ensures e == Lit(LInt(MIN_INT)) && Nest(e, 9) == 0
    ensures j == i + 2 && t[i] == MINUS && t[i + 1] == IntegerTooLarge(MIN_MAGNITUDE)
  {
    AtTier(e, 9);
    SpansAt(t, i, j, Bare(e), 0);
    SpansAt(t, i, j, Bare(e), 1);
  }

  /** Postfixes on the smallest integer, read from just after its two tokens. */
  lemma {:induction false} ReadsMinSpine(e: Tree, t: Tokens, i: nat, j: nat, depth: nat)
    requires Stream(t) && MinHeaded(e) && Spans(t, i, j, Print(e, 9)) && Tail(t, j) && depth <= MAX_DEPTH
    ensures i + 2 < |t| && t[i] == MINUS && t[i + 1] == IntegerTooLarge(MIN_MAGNITUDE)
    ensures Extends(Room(depth, Nest(e, 9)), Lit(LInt(MIN_INT)), e, t, i + 2, j, depth)
    decreases e, 0, 0, 2
  {
    if e.Lit? {
      MinTokens(e, t, i, j);
    } else {
      PostfixParts(e, t, i, j);
      PostfixRoom(e, depth);
      ReadsMinSpine(Left(e), t, i, Cut(e, i), depth);
      ReadsSuffix(e, t, Cut(e, i), j, depth);
      ExtendsTwice(Room(depth, Nest(Left(e), 9)), Room(depth, RemainderNest(e)),
                   Lit(LInt(MIN_INT)), Left(e), e, t, i + 2, Cut(e, i), j, depth);
    }
  }

  lemma {:induction false} ReadsMinHeaded(e: Tree, t: Tokens, i: nat, j: nat, depth: nat)
    requires MinHeaded(e) && Ready(e, 9, t, i, j) && depth <= MAX_DEPTH
    ensures Reading(Room(depth, Nest(e, 9)), 9, e, t, i, j, depth)
    decreases e, 0, 0, 3
  {
    FollowTighter(9, t, j);
    ReadsMinSpine(e, t, i, j, depth);
    MinReading(Room(depth, Nest(e, 9)), e, t, i, j, depth);
  }

  // ----- lists -----

  lemma SplitRest(items: seq<Expr>, k: nat, t: Tokens, q: nat, j: nat)
    requires k < |items| && Spans(t, q, j, Rest(items, k))
    ensures var p := q + 1 + |Print(items[k], 0)|;
            q < j && t[q] == Comma && Spans(t, q + 1, p, Print(items[k], 0)) && Spans(t, p, j, Rest(items, k + 1))
  {
    var ts := Print(items[k], 0);
    SpansSplit(t, q, j, [Comma], ts + Rest(items, k + 1));
    SpansAt(t, q, q + 1, [Comma], 0);
    SpansSplit(t, q + 1, j, ts, Rest(items, k + 1));
  }

  lemma RestOpens(items: seq<Expr>, k: nat, t: Tokens, q: nat, j: nat)
    requires k <= |items| && Spans(t, q, j, Rest(items, k))
    ensures q < j && t[q] == (if k == |items| then RBracket else Comma) && Closes(t, q)
    ensures k == |items| ==> j == q + 1
  {
    if k < |items| { SplitRest(items, k, t, q, j); } else { SpansAt(t, q, j, [RBracket], 0); }
  }

  lemma RestRoom(items: seq<Expr>, k: nat, depth: nat)
    requires k < |items|
    ensures Room(depth, RestNest(items, k)) <==>
              Room(depth, 1 + Nest(items[k], 0)) && Room(depth, RestNest(items, k + 1))
  {
  }

  lemma {:induction false} ReadsRest(e: Tree, k: nat, t: Tokens, q: nat, j: nat, depth: nat)
    requires Stream(t) && e.ListLit? && 1 <= k <= |e.items| && Spans(t, q, j, Rest(e.items, k)) && depth <= MAX_DEPTH
    ensures RestReads(Room(depth, RestNest(e.items, k)), e.items, k, t, q, j, depth)
    decreases e, 0, 0, 2 * (|e.items| - k)
  {
    if k == |e.items| {
      RestOpens(e.items, k, t, q, j);
    } else {
      SplitRest(e.items, k, t, q, j);
      ReadsItem(e, k, t, q + 1, q + 1 + |Print(e.items[k], 0)|, j, depth);
      RestRoom(e.items, k, depth);
    }
  }

  /** One item and the rest after it. */
  lemma {:induction false} ReadsItem(e: Tree, k: nat, t: Tokens, p: nat, q: nat, j: nat, depth: nat)
    requires Stream(t) && e.ListLit? && 1 <= k < |e.items| && depth <= MAX_DEPTH
    requires Spans(t, p, q, Print(e.items[k], 0)) && Spans(t, q, j, Rest(e.items, k + 1))
    ensures ItemsFrom(Room(depth, 1 + Nest(e.items[k], 0))
        && Room(depth, RestNest(e.items, k + 1)), e.items, k, t, p, j, depth)
    decreases e, 0, 0, 2 * (|e.items| - k) - 1
  {
    RestOpens(e.items, k + 1, t, q, j);
    ReadsRest(e, k + 1, t, q, j, depth);
    ReadsExpression(e.items[k], t, p, q, depth);
    ItemStep(Room(depth, 1 + Nest(e.items[k], 0)), Room(depth, RestNest(e.items, k + 1)), e.items, k, t, p, q, j,
        depth);
  }

  lemma FirstForm(x: Expr)
    ensures OpensComprehension(Print(x, 0)) ==>
              NeedsGroup(x) && FirstItem(x) == Group(x) && FirstNest(x) == Nest(x, 0) + GroupCost(x)
    ensures !OpensComprehension(Print(x, 0)) ==> FirstItem(x) == Print(x, 0) && FirstNest(x) == Nest(x, 0)
  {
    AtTier(x, 0);
  }

  lemma {:induction false} ReadsFirst(x: Tree, t: Tokens, i: nat, j: nat, depth: nat)
    requires Stream(t) && Spans(t, i, j, FirstItem(x)) && Closes(t, j) && depth <= MAX_DEPTH
    ensures Expressed(Room(depth, 1 + FirstNest(x)), x, t, i, j, depth)
    decreases x, 2, 0, 17
  {
    FirstForm(x);
    if OpensComprehension(Print(x, 0)) {
      ReadsFirstGroup(x, t, i, j, depth);
    } else {
      ReadsExpression(x, t, i, j, depth);
    }
  }

  lemma {:induction false} ReadsFirstGroup(x: Tree, t: Tokens, i: nat, j: nat, depth: nat)
    requires Stream(t) && NeedsGroup(x) && Spans(t, i, j, Group(x)) && Closes(t, j) && depth <= MAX_DEPTH
    ensures Expressed(Room(depth, 1 + (Nest(x, 0) + GroupCost(x))), x, t, i, j, depth)
    decreases x, 2, 0, 16
  {
    GroupOpens(x, t, i, j);
    if depth < MAX_DEPTH { ReadsAnyGroup(x, t, i, j, depth + 1); }
    EnterParen(Room(depth, 1 + (Nest(x, 0) + GroupCost(x))), x, t, i, j, depth);
  }

  /** No comprehension is read off the first item of a printed list. */
  lemma NoComprehension(x: Expr, t: Tokens, i: nat, j: nat)
    requires Stream(t) && Spans(t, i, j, FirstItem(x)) && j < |t| && (t[j] == Comma || t[j] == RBracket)
    ensures i < j && t[i] != RBracket && !ComprehensionFollows(t, i)
  {
    FirstForm(x);
    if OpensComprehension(Print(x, 0)) {
      PrintedGroup(x, t, i, j);
    } else {
      FirstTokens(x, t, i, j);
      if i + 1 < j { NoNamedPattern(x, 0, t, i, j); }
      NoPattern(x, 0, t, i, j);
      NotComprehension(t, i);
    }
  }

  lemma FirstTokens(x: Expr, t: Tokens, i: nat, j: nat)
    requires Spans(t, i, j, Print(x, 0)) && !OpensComprehension(Print(x, 0)) && j < |t|
        && (t[j] == Comma || t[j] == RBracket)
    ensures i < j && Opener(t[i]) && !(t[i].Ident? && t[i + 1].Ident? && t[i + 1].word == Infix(In))
  {
    PrintLeads(x, 0);
    SpansAt(t, i, j, Print(x, 0), 0);
    if |Print(x, 0)| > 1 { SpansAt(t, i, j, Print(x, 0), 1); }
  }

  lemma NotComprehension(t: Tokens, i: nat)
    requires Stream(t) && i + 1 < |t| && !NamedPattern(t, i) && !PatternAt(t, i)
    requires !(t[i].Ident? && t[i + 1].Ident? && t[i + 1].word == Infix(In))
    ensures !ComprehensionFollows(t, i)
  {
  }

  lemma ReadsEmptyList(t: Tokens, i: nat, j: nat, depth: nat)
    requires Stream(t) && Spans(t, i, j, [LBracket, RBracket]) && j < |t|
    ensures Reading(true, 10, ListLit([]), t, i, j, depth)
  {
    SpansAt(t, i, j, [LBracket, RBracket], 0);
    SpansAt(t, i, j, [LBracket, RBracket], 1);
    NotComprehension(t, i + 1);
    ListReading(true, [], t, i, j, depth);
  }

  lemma EmptyForm(e: Expr)
    requires e.ListLit? && e.items == []
    ensures Print(e, 10) == [LBracket, RBracket] && Nest(e, 10) == 0
  {
    AtTier(e, 10);
  }

  lemma SplitList(e: Expr, t: Tokens, i: nat, j: nat)
    requires e.ListLit? && e.items != [] && Spans(t, i, j, Print(e, 10))
    ensures var q := i + 1 + |FirstItem(e.items[0])|;
            i < j && t[i] == LBracket && Spans(t, i + 1, q, FirstItem(e.items[0])) && Spans(t, q, j, Rest(e.items, 1))
  {
    AtTier(e, 10);
    var a, b := FirstItem(e.items[0]), Rest(e.items, 1);
    SpansSplit(t, i, j, [LBracket], a + b);
    SpansAt(t, i, i + 1, [LBracket], 0);
    SpansSplit(t, i + 1, j, a, b);
  }

  lemma ListRoom(e: Expr, depth: nat)
    requires e.ListLit? && e.items != []
    ensures Room(depth, Nest(e, 10)) <==> Room(depth, 1 + FirstNest(e.items[0])) && Room(depth, RestNest(e.items, 1))
  {
    AtTier(e, 10);
  }

  lemma {:induction false} ReadsList(e: Tree, t: Tokens, i: nat, j: nat, depth: nat)
    requires e.ListLit? && Ready(e, 10, t, i, j) && depth <= MAX_DEPTH
    ensures Reading(Room(depth, Nest(e, 10)), 10, e, t, i, j, depth)
    decreases e, 0, 1, 0
  {
    if e.items == [] {
      EmptyForm(e);
      ReadsEmptyList(t, i, j, depth);
    } else {
      SplitList(e, t, i, j);
      ListRoom(e, depth);
      ReadsItems(e, t, i, i + 1 + |FirstItem(e.items[0])|, j, depth);
    }
  }

  lemma {:induction false} ReadsItems(e: Tree, t: Tokens, i: nat, q: nat, j: nat, depth: nat)
    requires Stream(t) && e.ListLit? && e.items != [] && i < j < |t| && t[i] == LBracket && depth <= MAX_DEPTH
    requires Spans(t, i + 1, q, FirstItem(e.items[0])) && Spans(t, q, j, Rest(e.items, 1))
    ensures Reading(Room(depth, 1 + FirstNest(e.items[0])) && Room(depth, RestNest(e.items, 1)), 10, e, t, i, j, depth)
    decreases e, 0, 0, 2 * |e.items|
  {
    RestOpens(e.items, 1, t, q, j);
    NoComprehension(e.items[0], t, i + 1, q);
    ReadsRest(e, 1, t, q, j, depth);
    ReadsFirst(e.items[0], t, i + 1, q, depth);
    JoinItems(Room(depth, 1 + FirstNest(e.items[0])), Room(depth, RestNest(e.items, 1)), e.items, t, i, q, j, depth);
  }

  lemma JoinItems(first: bool, rest: bool, items: seq<Expr>, t: Tokens, i: nat, q: nat, j: nat, depth: nat)
    requires items != [] && i + 1 < |t| && t[i] == LBracket && t[i + 1] != RBracket && j < |t|
    requires Stream(t) && !ComprehensionFollows(t, i + 1)
    requires Expressed(first, items[0], t, i + 1, q, depth) && RestReads(rest, items, 1, t, q, j, depth)
    ensures Reading(first && rest, 10, ListLit(items), t, i, j, depth)
  {
    ItemStep(first, rest, items, 0, t, i + 1, q, j, depth);
    ListReading(first && rest, items, t, i, j, depth);
  }

  // ----- the round trip -----

  /** For every expression the parser can build: printing it and parsing the tokens gives it back, consumes exactly
      those tokens and leaves the chain counter alone; or, exactly when the printed form nests to the limit, the
      parser refuses it for its depth. */
  lemma RoundTrip(e: Expr, chain: nat)
    requires Producible(e)
    ensures Expression(Print(e, 0) + [Eof], 0, 0, chain) ==
              if Nest(e, 0) < MAX_DEPTH then Done(e, |Print(e, 0)|, chain) else Fail(RecursionLimit)
  {
    var t, j := Print(e, 0) + [Eof], |Print(e, 0)|;
    ReadsExpression(e, t, 0, j, 0);
  }
}
