/** No query can make the parser build a tree much larger than itself: the size bound behind
    `MAX_CHAIN_EXPANSION` (crates/acetone-cypher/src/parser.rs, ast.rs). */
module SizeBound {
  import opened Wrappers
  import opened Syntax
  import opened Grammar

  /** One for the token, plus the bytes of its payload. */
  function Weight(k: Token): nat {
    1 + if k.Ident? || k.Parameter? then |k.name| else if k.Str? then |k.s| else 0
  }

  /** The weight of the first `i` tokens. */
  function Before(t: Tokens, i: nat): nat
    requires i <= |t|
  {
    if i == 0 then 0 else Before(t, i - 1) + Weight(t[i - 1])
  }

  /** What the parse has to show for the tokens before `pos` and the counter so far. */
  function Room(t: Tokens, pos: nat, chain: nat): nat
    requires pos <= |t|
  {
    2 * Before(t, pos) + chain
  }

  /** The counter only grows, and never past its cap. */
  predicate Capped(chain: nat, after: nat) {
    chain <= after && (chain <= MAX_CHAIN_EXPANSION ==> after <= MAX_CHAIN_EXPANSION)
  }

  /** A tree no larger than twice what it consumed plus what the counter grew. */
  ghost predicate Sound(t: Tokens, pos: nat, chain: nat, r: Parsed)
    requires pos <= |t|
  {
    r.Done? ==> r.pos < |t| && Capped(chain, r.chain) && Size(r.e) + 1 + Room(t, pos, chain) <= Room(t, r.pos, r.chain)
  }

  /** The same for a loop that extends `size` units already built. */
  ghost predicate SoundFrom(size: nat, t: Tokens, pos: nat, chain: nat, r: Parsed)
    requires pos <= |t|
  {
    r.Done? ==>
      && r.pos < |t| && Capped(chain, r.chain)
      && Size(r.e) + Room(t, pos, chain) <= size + Room(t, r.pos, r.chain)
  }

  lemma {:induction false} BeforeGrows(t: Tokens, pos: nat, width: nat)
    requires pos + width <= |t|
    ensures Before(t, pos) + width <= Before(t, pos + width)
  {
    if width > 0 { BeforeGrows(t, pos, width - 1); }
  }

  // ----- the desugared chain stays within the counter -----

  lemma {:induction false} ConjoinSize(ops: seq<BinaryOp>, operands: seq<Expr>, n: nat)
    requires 1 <= n <= |ops| && |operands| == |ops| + 1
    ensures Size(Conjoin(ops, operands, n)) ==
        2 * n - 1 + Sizes(operands[..n]) + Sizes(operands[..n + 1]) - Size(operands[0])
  {
    assert operands[..n + 1][..n] == operands[..n];
    assert operands[..n][..n - 1] == operands[..n - 1];
    if n == 1 {
      assert operands[..0] == [];
    } else {
      ConjoinSize(ops, operands, n - 1);
    }
  }

  lemma {:induction false} SizesUncons(es: seq<Expr>)
    requires es != []
    ensures Sizes(es) == Size(es[0]) + Sizes(es[1..])
  {
    if |es| == 1 {
      assert es[..0] == [] && es[1..] == [];
    } else {
      SizesUncons(es[..|es| - 1]);
      assert es[..|es| - 1][1..] == es[1..][..|es| - 2];
    }
  }

  lemma FinishSize(ops: seq<BinaryOp>, operands: seq<Expr>, pos: nat, chain: nat)
    requires |operands| == |ops| + 1
    ensures var r := FinishComparison(ops, operands, pos, chain);
            r.Done? ==>
              && r.pos == pos && Capped(chain, r.chain)
              && Size(r.e) + chain == Sizes(operands) + (if ops == [] then 0 else 2 * |ops| - 1) + r.chain
  {
    var n := |ops|;
    assert operands[..n + 1] == operands;
    if n == 0 {
      assert operands == [] + [operands[0]];
      SizesSnoc([], operands[0]);
    } else if n == 1 {
      ConjoinSize(ops, operands, 1);
      assert operands[..1] == [] + [operands[0]];
      SizesSnoc([], operands[0]);
    } else {
      ConjoinSize(ops, operands, n);
      SizesUncons(operands[..n]);
      assert operands[..n][1..] == operands[1..n];
    }
  }

  // ----- every parse is sound -----

  lemma {:induction false} ExpressionSound(t: Tokens, pos: nat, depth: nat, chain: nat)
    requires Stream(t) && pos < |t|
    ensures Sound(t, pos, chain, Expression(t, pos, depth, chain))
    decreases |t| - pos, 26
  {
    if depth < MAX_DEPTH { LevelSound(0, t, pos, depth + 1, chain); }
  }

  lemma {:induction false} LevelSound(l: nat, t: Tokens, pos: nat, depth: nat, chain: nat)
    requires Stream(t) && pos < |t| && l <= 10
    ensures Sound(t, pos, chain, Level(l, t, pos, depth, chain))
    decreases |t| - pos, 25 - 2 * l
  {
    if l == 3 {
      NotSound(t, pos, depth, chain);
    } else if l == 9 {
      SignSound(t, pos, depth, chain);
    } else if l == 10 {
      AtomSound(t, pos, depth, chain);
      var r := Atom(t, pos, depth, chain);
      if r.Done? { PostfixSound(r.e, t, r.pos, depth, r.chain); }
    } else {
      LevelSound(l + 1, t, pos, depth, chain);
      var r := Level(l + 1, t, pos, depth, chain);
      if r.Done? {
        if l == 4 {
          SizesOne(r.e);
          ComparisonsSound([], [r.e], t, r.pos, depth, r.chain);
        } else {
          FoldSound(l, r.e, t, r.pos, depth, r.chain);
        }
      }
    }
  }

  lemma {:induction false} NotSound(t: Tokens, pos: nat, depth: nat, chain: nat)
    requires Stream(t) && pos < |t|
    ensures Sound(t, pos, chain, NotLevel(t, pos, depth, chain))
    decreases |t| - pos, 18
  {
    if WordAt(t, pos, NotW) {
      NotSound(t, pos + 1, depth, chain);
      PrefixSound(Not, t, pos, chain, NotLevel(t, pos + 1, depth, chain));
    } else {
      LevelSound(4, t, pos, depth, chain);
    }
  }

  lemma {:induction false} SignSound(t: Tokens, pos: nat, depth: nat, chain: nat)
    requires Stream(t) && pos < |t|
    ensures Sound(t, pos, chain, SignLevel(t, pos, depth, chain))
    decreases |t| - pos, 6
  {
    if t[pos] == MINUS && t[pos + 1] == IntegerTooLarge(MIN_MAGNITUDE) {
      PostfixSound(Lit(LInt(MIN_INT)), t, pos + 2, depth, chain);
      MinimumSound(t, pos, chain, Postfix(Lit(LInt(MIN_INT)), t, pos + 2, depth, chain));
    } else if t[pos] == MINUS || t[pos] == PLUS {
      SignSound(t, pos + 1, depth, chain);
      PrefixSound(if t[pos] == MINUS then Neg else Pos, t, pos, chain, SignLevel(t, pos + 1, depth, chain));
    } else {
      LevelSound(10, t, pos, depth, chain);
    }
  }

  lemma {:induction false} FoldSound(l: nat, lhs: Expr, t: Tokens, pos: nat, depth: nat, chain: nat)
    requires Stream(t) && pos < |t| && l <= 8
    ensures SoundFrom(Size(lhs), t, pos, chain, Fold(l, lhs, t, pos, depth, chain))
    decreases |t| - pos, 0
  {
    if OpAtLevel(t, pos, l) {
      var o := OpAt(t, pos).value;
      assert pos + o.width < |t|;
      BeforeGrows(t, pos, o.width);
      LevelSound(l + 1, t, pos + o.width, depth, chain);
      var r := Operand(l + 1, t, pos + o.width, depth, chain);
      if r.Done? {
        var joined := Binary(o.op, lhs, r.e);
        FoldSound(l, joined, t, r.pos, depth, r.chain);
        Extends(Size(lhs), t, pos, pos + o.width, chain, r, Size(joined), Fold(l, joined, t, r.pos, depth, r.chain));
      }
    }
  }

  /** An operator or bracket, an operand and the rest of a loop make a sound loop. */
  lemma Extends(size: nat, t: Tokens, pos: nat, mid: nat, chain: nat, r: Parsed, size': nat, rest: Parsed)
    requires pos < mid < |t| && Before(t, pos) + 1 <= Before(t, mid)
    requires r.Done? && Sound(t, mid, chain, r) && SoundFrom(size', t, r.pos, r.chain, rest)
    requires size' <= size + 2 + Size(r.e)
    ensures SoundFrom(size, t, pos, chain, rest)
  {
  }

  lemma {:induction false} ComparisonsSound(ops: seq<BinaryOp>, operands: seq<Expr>, t: Tokens, pos: nat, depth: nat,
      chain: nat)
    requires Stream(t) && pos < |t| && |operands| == |ops| + 1
    ensures SoundFrom(Sizes(operands) + 2 * |ops|, t, pos, chain, Comparisons(ops, operands, t, pos, depth, chain))
    decreases |t| - pos, 0
  {
    if OpAtLevel(t, pos, 4) {
      BeforeGrows(t, pos, 1);
      LevelSound(5, t, pos + 1, depth, chain);
      var r := Operand(5, t, pos + 1, depth, chain);
      if r.Done? {
        SizesSnoc(operands, r.e);
        var ops', operands' := ops + [OpAt(t, pos).value.op], operands + [r.e];
        ComparisonsSound(ops', operands', t, r.pos, depth, r.chain);
        Extends(Sizes(operands) + 2 * |ops|, t, pos, pos + 1, chain, r,
                Sizes(operands') + 2 * |ops'|, Comparisons(ops', operands', t, r.pos, depth, r.chain));
      }
    } else {
      FinishSize(ops, operands, pos, chain);
    }
  }

  lemma SuffixCases(e: Expr, t: Tokens, pos: nat)
    requires Stream(t) && pos < |t|
    ensures var s := SuffixAt(e, t, pos);
            s.Extend? ==>
              || (s.width == 2 && t[pos + 1].Ident? && s.next == Prop(e, t[pos + 1].name))
              || (s.width >= 2 && s.next.IsNull? && s.next.operand == e)
  {
  }

  lemma SuffixSound(e: Expr, t: Tokens, pos: nat)
    requires Stream(t) && pos < |t|
    ensures var s := SuffixAt(e, t, pos);
            s.Extend? ==> Size(s.next) + 2 * Before(t, pos) <= Size(e) + 2 * Before(t, pos + s.width)
  {
    SuffixCases(e, t, pos);
    var s := SuffixAt(e, t, pos);
    if s.Extend? { ExtensionFits(e, s.next, t, pos, s.width); }
  }

  lemma ExtensionFits(e: Expr, next: Expr, t: Tokens, pos: nat, width: nat)
    requires width >= 2 && pos + width < |t|
    requires || (width == 2 && t[pos + 1].Ident? && next == Prop(e, t[pos + 1].name))
             || (next.IsNull? && next.operand == e)
    ensures Size(next) + 2 * Before(t, pos) <= Size(e) + 2 * Before(t, pos + width)
  {
    if next.Prop? { TwoTokens(t, pos); } else { BeforeGrows(t, pos, width); }
  }

  lemma TwoTokens(t: Tokens, pos: nat)
    requires pos + 1 < |t|
    ensures Before(t, pos + 2) == Before(t, pos) + Weight(t[pos]) + Weight(t[pos + 1])
  {
    assert Before(t, pos + 1) == Before(t, pos) + Weight(t[pos]);
  }

  lemma {:induction false} PostfixSound(e: Expr, t: Tokens, pos: nat, depth: nat, chain: nat)
    requires Stream(t) && pos < |t|
    ensures SoundFrom(Size(e), t, pos, chain, Postfix(e, t, pos, depth, chain))
    decreases |t| - pos, 1
  {
    var s := SuffixAt(e, t, pos);
    if s.Extend? {
      PostfixSound(s.next, t, pos + s.width, depth, chain);
      SuffixSound(e, t, pos);
      SuffixExtends(e, s.next, t, pos, s.width, chain, Postfix(s.next, t, pos + s.width, depth, chain));
    } else if s.Subscript? {
      SubscriptSound(e, t, pos, depth, chain);
    }
  }

  lemma SuffixExtends(e: Expr, next: Expr, t: Tokens, pos: nat, width: nat, chain: nat, rest: Parsed)
    requires pos + width <= |t| && Size(next) + 2 * Before(t, pos) <= Size(e) + 2 * Before(t, pos + width)
    requires SoundFrom(Size(next), t, pos + width, chain, rest)
    ensures SoundFrom(Size(e), t, pos, chain, rest)
  {
  }

  /** One prefix token and what it wraps. */
  lemma PrefixSound(op: UnaryOp, t: Tokens, pos: nat, chain: nat, r: Parsed)
    requires pos < |t| && Sound(t, pos + 1, chain, r)
    ensures Sound(t, pos, chain, Prefix(op, r))
  {
    BeforeGrows(t, pos, 1);
  }

  lemma MinimumSound(t: Tokens, pos: nat, chain: nat, r: Parsed)
    requires pos + 2 <= |t| && SoundFrom(1, t, pos + 2, chain, r)
    ensures Sound(t, pos, chain, r)
  {
    BeforeGrows(t, pos, 2);
  }

  lemma {:induction false} SubscriptSound(e: Expr, t: Tokens, pos: nat, depth: nat, chain: nat)
    requires Stream(t) && pos + 1 < |t|
    ensures SoundFrom(Size(e), t, pos, chain, Subscripted(e, t, pos, depth, chain))
    decreases |t| - pos, 0
  {
    ExpressionSound(t, pos + 1, depth, chain);
    var r := Expression(t, pos + 1, depth, chain);
    if r.Done? && t[r.pos] == RBracket {
      PostfixSound(Index(e, r.e), t, r.pos + 1, depth, r.chain);
      IndexExtends(e, t, pos, chain, r, Postfix(Index(e, r.e), t, r.pos + 1, depth, r.chain));
    }
  }

  lemma IndexExtends(e: Expr, t: Tokens, pos: nat, chain: nat, r: Parsed, rest: Parsed)
    requires pos + 1 < |t| && r.Done? && Sound(t, pos + 1, chain, r) && r.pos + 1 < |t|
    requires SoundFrom(Size(Index(e, r.e)), t, r.pos + 1, r.chain, rest)
    ensures SoundFrom(Size(e), t, pos, chain, rest)
  {
    BeforeGrows(t, pos, 1);
    BeforeGrows(t, r.pos, 1);
  }

  lemma {:induction false} AtomSound(t: Tokens, pos: nat, depth: nat, chain: nat)
    requires Stream(t) && pos < |t|
    ensures Sound(t, pos, chain, Atom(t, pos, depth, chain))
    decreases |t| - pos, 1
  {
    assert Before(t, pos + 1) == Before(t, pos) + Weight(t[pos]);
    if t[pos] == LBracket {
      ListBodySound(t, pos + 1, depth, chain);
    } else if t[pos] == LParen {
      GroupSound(t, pos, depth, chain);
    }
  }

  lemma {:induction false} GroupSound(t: Tokens, pos: nat, depth: nat, chain: nat)
    requires Stream(t) && pos + 1 < |t|
    ensures Sound(t, pos, chain, Parenthesised(t, pos, depth, chain))
    decreases |t| - pos, 0
  {
    BeforeGrows(t, pos, 1);
    ExpressionSound(t, pos + 1, depth, chain);
    var r := Expression(t, pos + 1, depth, chain);
    if r.Done? && t[r.pos] == RParen { BeforeGrows(t, r.pos, 1); }
  }

  lemma {:induction false} ListBodySound(t: Tokens, pos: nat, depth: nat, chain: nat)
    requires Stream(t) && pos < |t|
    ensures SoundFrom(1, t, pos, chain, ListBody(t, pos, depth, chain))
    decreases |t| - pos, 28
  {
    if t[pos] == RBracket { BeforeGrows(t, pos, 1); } else { ItemsSound([], t, pos, depth, chain); }
  }

  lemma {:induction false} ItemsSound(items: seq<Expr>, t: Tokens, pos: nat, depth: nat, chain: nat)
    requires Stream(t) && pos < |t|
    ensures SoundFrom(Sizes(items) + 1, t, pos, chain, Items(items, t, pos, depth, chain))
    decreases |t| - pos, 27
  {
    ExpressionSound(t, pos, depth, chain);
    var r := Expression(t, pos, depth, chain);
    if r.Done? {
      if t[r.pos] == Comma {
        ItemsSound(items + [r.e], t, r.pos + 1, depth, r.chain);
        ItemExtends(items, t, pos, chain, r, Items(items + [r.e], t, r.pos + 1, depth, r.chain));
      } else if t[r.pos] == RBracket {
        ItemExtends(items, t, pos, chain, r, Done(ListLit(items + [r.e]), r.pos + 1, r.chain));
      }
    }
  }

  /** An item, the comma or bracket after it, and the rest of the list. */
  lemma ItemExtends(items: seq<Expr>, t: Tokens, pos: nat, chain: nat, r: Parsed, rest: Parsed)
    requires pos < |t| && r.Done? && Sound(t, pos, chain, r) && r.pos + 1 < |t|
    requires SoundFrom(Sizes(items + [r.e]) + 1, t, r.pos + 1, r.chain, rest)
    ensures SoundFrom(Sizes(items) + 1, t, pos, chain, rest)
  {
    SizesSnoc(items, r.e);
    BeforeGrows(t, r.pos, 1);
  }
}
