/** Exactly which parenthesised groups the parser commits to as graph patterns
    (crates/acetone-cypher/src/parser.rs). */
module Patterns {
  import opened Wrappers
  import opened Syntax
  import opened Grammar

  // ----- balanced delimiters -----

  /** How many groups a token opens. */
  function Opens(k: Token, open: Token, close: Token): int { if k == open then 1 else if k == close then -1 else 0 }

  /** Reading from `a` up to `b` with `d` groups open, some group stays open, input goes on, and one is open at `b`. */
  ghost predicate Nested(t: Tokens, a: nat, b: nat, open: Token, close: Token, d: int)
    decreases |t| - a
  {
    && a <= b < |t| && d >= 1
    && if a == b then d == 1 else t[a] != Eof && Nested(t, a + 1, b, open, close, d + Opens(t[a], open, close))
  }

  /** What stands between a delimiter before `a` and its partner at `b`. */
  ghost predicate Balanced(t: Tokens, a: nat, b: nat, open: Token, close: Token) { Nested(t, a, b, open, close, 1) }

  /** Opening delimiters less closing ones from `a` up to `b`. */
  function Net(t: Tokens, a: nat, b: nat, open: Token, close: Token): int
    requires b <= |t|
    decreases if a < b then b - a else 0
  {
    if a >= b then 0 else Opens(t[a], open, close) + Net(t, a + 1, b, open, close)
  }

  /** Balanced means what it should: no beginning closes more than it opens, and the whole closes what it opens. */
  lemma {:induction false} NestedCounts(t: Tokens, a: nat, b: nat, open: Token, close: Token, d: int, m: nat)
    requires Nested(t, a, b, open, close, d) && a <= m <= b
    ensures d + Net(t, a, m, open, close) >= 1 && d + Net(t, a, b, open, close) == 1 && (m < b ==> t[m] != Eof)
    decreases b - a
  {
    if a < b { NestedCounts(t, a + 1, b, open, close, d + Opens(t[a], open, close), if a < m then m else a + 1); }
  }

  predicate Delimiters(open: Token, close: Token) { open != close && open != Eof && close != Eof }

  lemma CloseUnrolls(t: Tokens, i: nat, open: Token, close: Token, d: nat)
    requires Stream(t) && Delimiters(open, close) && d >= 1 && i < |t|
    ensures var e := d + Opens(t[i], open, close);
            MatchingClose(t, i, open, close, d) ==
            if t[i] == Eof then None else if e < 1 then Some(i) else MatchingClose(t, i + 1, open, close, e)
    ensures d + Opens(t[i], open, close) < 1 <==> t[i] == close && d == 1
  {
  }

  lemma NestedUnrolls(t: Tokens, i: nat, k: nat, open: Token, close: Token, d: int, e: int)
    requires i < |t| && d >= 1 && e == d + Opens(t[i], open, close)
    ensures Nested(t, i, k, open, close, d) <==>
              k < |t| &&
              if k == i then d == 1 else i < k && t[i] != Eof && e >= 1 && Nested(t, i + 1, k, open, close, e)
  {
  }

  ghost predicate FoundExactly(t: Tokens, i: nat, open: Token, close: Token, d: nat, k: nat)
    requires Stream(t)
  {
    MatchingClose(t, i, open, close, d) == Some(k) <==> Nested(t, i, k, open, close, d) && t[k] == close
  }

  lemma CloseStep(t: Tokens, i: nat, open: Token, close: Token, d: nat, k: nat)
    requires Stream(t) && Delimiters(open, close) && d >= 1 && i < |t|
    requires var e := d + Opens(t[i], open, close); e >= 1 && t[i] != Eof ==> FoundExactly(t, i + 1, open, close, e, k)
    ensures FoundExactly(t, i, open, close, d, k)
  {
    CloseUnrolls(t, i, open, close, d);
    NestedUnrolls(t, i, k, open, close, d, d + Opens(t[i], open, close));
  }

  /** The scan finds the close at `k` exactly when what lies between is balanced. */
  lemma {:induction false} CloseExactly(t: Tokens, i: nat, open: Token, close: Token, d: nat, k: nat)
    requires Stream(t) && Delimiters(open, close) && d >= 1
    ensures FoundExactly(t, i, open, close, d, k)
    decreases if i < |t| then |t| - i else 0
  {
    if i < |t| {
      var e := d + Opens(t[i], open, close);
      if e >= 1 && t[i] != Eof { CloseExactly(t, i + 1, open, close, e, k); }
      CloseStep(t, i, open, close, d, k);
    }
  }

  /** The same from the opening delimiter itself. */
  lemma PartnerExactly(t: Tokens, i: nat, open: Token, close: Token, k: nat)
    requires Stream(t) && Delimiters(open, close) && i < |t| && t[i] == open
    ensures MatchingClose(t, i, open, close, 0) == Some(k) <==>
              Balanced(t, i + 1, k, open, close) && t[k] == close
  {
    CloseExactly(t, i + 1, open, close, 1, k);
    assert FoundExactly(t, i + 1, open, close, 1, k);
  }

  // ----- node patterns -----

  /** `(':' label)*` from `a` to `b`. */
  ghost predicate LabelsAt(t: Tokens, a: nat, b: nat)
    decreases |t| - a
  {
    a <= b < |t| && (a == b || (a + 2 <= b && t[a] == Colon && t[a + 1].Ident? && LabelsAt(t, a + 2, b)))
  }

  lemma {:induction false} SkipsLabels(t: Tokens, a: nat, b: nat)
    requires Stream(t) && LabelsAt(t, a, b) && t[b] != Colon
    ensures SkipLabels(t, a) == b
    decreases b - a
  {
    if a < b { SkipsLabels(t, a + 2, b); }
  }

  lemma {:induction false} SkippedLabels(t: Tokens, a: nat)
    requires Stream(t) && a < |t|
    ensures SkipLabels(t, a) < |t| && LabelsAt(t, a, SkipLabels(t, a))
    decreases |t| - a
  {
    if t[a] == Colon && Tok(t, a + 1).Ident? { SkippedLabels(t, a + 2); }
  }

  /** Nothing, a parameter or a map from `b` to the closing parenthesis. */
  ghost predicate PropertiesAt(t: Tokens, b: nat, close: nat) {
    b <= close < |t| &&
    (b == close || (b + 1 == close && t[b].Parameter?) ||
     (b + 1 < close && t[b] == LBrace && t[close - 1] == RBrace && Balanced(t, b + 1, close - 1, LBrace, RBrace)))
  }

  /** `[variable] (':' label)* [properties]` between the parentheses. */
  ghost predicate NodeAt(t: Tokens, open: nat, close: nat) {
    exists a: nat, b: nat :: VariableAt(t, open + 1, a) && LabelsAt(t, a, b) && PropertiesAt(t, b, close)
  }

  ghost predicate VariableAt(t: Tokens, from: nat, a: nat) {
    a == from || (a == from + 1 < |t| && t[from].Ident?)
  }

  lemma PropertiesExactly(t: Tokens, b: nat, close: nat)
    requires Stream(t) && b < |t| && 0 < close < |t| && t[close] == RParen
    ensures PropertiesAt(t, b, close) <==>
              if t[b].Parameter? then b + 1 == close
              else if t[b] == LBrace then MatchingClose(t, b, LBrace, RBrace, 0) == Some(close - 1)
              else b == close
  {
    if t[b] == LBrace { PartnerExactly(t, b, LBrace, RBrace, close - 1); }
  }

  /** The parser's shape test accepts exactly the node patterns. */
  lemma NodeExactly(t: Tokens, open: nat, close: nat)
    requires Stream(t) && open < close < |t| && t[close] == RParen
    ensures NodeShaped(t, open, close) <==> NodeAt(t, open, close)
  {
    if NodeShaped(t, open, close) {
      var a: nat := if t[open + 1].Ident? then open + 2 else open + 1;
      SkippedLabels(t, a);
      var b := SkipLabels(t, a);
      PropertiesExactly(t, b, close);
      assert VariableAt(t, open + 1, a) && LabelsAt(t, a, b) && PropertiesAt(t, b, close);
    }
    if a: nat, b: nat :| VariableAt(t, open + 1, a) && LabelsAt(t, a, b) && PropertiesAt(t, b, close) {
      SkipsLabels(t, a, b);
      PropertiesExactly(t, b, close);
    }
  }

  // ----- connectors -----

  /** `<-`, `-->`, `--(` or `-[…]` closed by `-` or `->`. */
  ghost predicate ConnectorAt(t: Tokens, c: nat) {
    || (c < |t| && t[c] == LArrow)
    || (c + 1 < |t| && t[c] == MINUS && t[c + 1] == Arrow)
    || (c + 2 < |t| && t[c] == MINUS && t[c + 1] == MINUS && t[c + 2] == LParen)
    || exists b: nat :: BracketAt(t, c, b)
  }

  ghost predicate BracketAt(t: Tokens, c: nat, b: nat) {
    && c + 1 < b && b + 1 < |t| && t[c] == MINUS && t[c + 1] == LBracket && Balanced(t, c + 2, b, LBracket, RBracket)
    && t[b] == RBracket && (t[b + 1] == MINUS || t[b + 1] == Arrow)
  }

  lemma ConnectorExactly(t: Tokens, close: nat)
    requires Stream(t) && close < |t|
    ensures ConnectorFollows(t, close) <==> ConnectorAt(t, close + 1)
  {
    var c := close + 1;
    if c + 1 < |t| && t[c] == MINUS && t[c + 1] == LBracket {
      var found := MatchingClose(t, c + 1, LBracket, RBracket, 0);
      if found.Some? {
        PartnerExactly(t, c + 1, LBracket, RBracket, found.value);
        if ConnectorFollows(t, close) { assert BracketAt(t, c, found.value); }
      }
      if b: nat :| BracketAt(t, c, b) { PartnerExactly(t, c + 1, LBracket, RBracket, b); }
    }
  }

  lemma GroupExactly(t: Tokens, i: nat, close: nat)
    requires Stream(t) && i < close < |t| && t[close] == RParen
    requires MatchingClose(t, i, LParen, RParen, 0) == Some(close)
    ensures GroupStartsPattern(t, i) <==> NodeAt(t, i, close) && ConnectorAt(t, close + 1)
  {
    NodeExactly(t, i, close);
    ConnectorExactly(t, close);
  }

  /** The parser commits to a pattern exactly at a parenthesised node pattern before a relationship connector. */
  lemma PatternExactly(t: Tokens, i: nat)
    requires Stream(t) && i < |t| && t[i] == LParen
    ensures GroupStartsPattern(t, i) <==> PatternFrom(t, i)
  {
    var found := MatchingClose(t, i, LParen, RParen, 0);
    if found.Some? {
      PartnerExactly(t, i, LParen, RParen, found.value);
      GroupExactly(t, i, found.value);
      if GroupStartsPattern(t, i) { assert PatternAt(t, i, found.value); }
    }
    if PatternFrom(t, i) {
      var close: nat :| PatternAt(t, i, close);
      PartnerExactly(t, i, LParen, RParen, close);
    }
  }

  ghost predicate PatternFrom(t: Tokens, i: nat) { exists close: nat :: PatternAt(t, i, close) }

  ghost predicate PatternAt(t: Tokens, i: nat, close: nat) {
    && i < close < |t| && t[close] == RParen && Balanced(t, i + 1, close, LParen, RParen)
    && NodeAt(t, i, close) && ConnectorAt(t, close + 1)
  }

  // ----- comprehensions and calls -----

  /** After `[`: `name IN`, or a pattern with an optional `name =` before it. */
  ghost predicate ComprehensionAt(t: Tokens, i: nat) {
    || (i + 1 < |t| && t[i].Ident? && t[i + 1].Ident? && t[i + 1].word == Infix(In))
    || (i < |t| && t[i] == LParen && PatternFrom(t, i))
    || (i + 2 < |t| && t[i].Ident? && t[i + 1] == EQUALS && t[i + 2] == LParen && PatternFrom(t, i + 2))
  }

  lemma ComprehensionExactly(t: Tokens, i: nat)
    requires Stream(t) && i < |t|
    ensures ComprehensionFollows(t, i) <==> ComprehensionAt(t, i)
  {
    if t[i] == LParen { PatternExactly(t, i); }
    if i + 2 < |t| && t[i].Ident? && t[i + 1] == EQUALS && t[i + 2] == LParen { PatternExactly(t, i + 2); }
  }

  /** A dotted name of `n + 1` parts and an opening parenthesis. */
  ghost predicate CallAt(t: Tokens, i: nat, n: nat)
    decreases n
  {
    i + 1 < |t| && t[i].Ident? && if n == 0 then t[i + 1] == LParen else t[i + 1] == Dot && CallAt(t, i + 2, n - 1)
  }

  ghost predicate CallFrom(t: Tokens, i: nat) { exists n: nat :: CallAt(t, i, n) }

  lemma CallUnrolls(t: Tokens, i: nat)
    requires i + 1 < |t| && t[i].Ident?
    ensures CallFrom(t, i) <==> t[i + 1] == LParen || (t[i + 1] == Dot && CallFrom(t, i + 2))
  {
    var k := i + 2;
    if t[i + 1] == LParen {
      var n: nat := 0;
      assert CallAt(t, i, n);
    }
    if t[i + 1] == Dot && CallFrom(t, k) {
      var n: nat :| CallAt(t, k, n);
      assert CallAt(t, i, n + 1);
    }
    if CallFrom(t, i) {
      var n: nat :| CallAt(t, i, n);
      if n > 0 { assert CallAt(t, k, n - 1); }
    }
  }

  lemma {:induction false} CallExactly(t: Tokens, i: nat)
    requires Stream(t)
    ensures CallFollows(t, i) <==> CallFrom(t, i)
    decreases if i < |t| then |t| - i else 0
  {
    if i + 1 < |t| && t[i].Ident? {
      CallUnrolls(t, i);
      CallExactly(t, i + 2);
    }
  }

  // ----- what is refused, and why -----

  /** The error an operand that begins at `i` is refused with at once, if it is. */
  ghost function Turned(t: Tokens, i: nat): Option<ParseError>
    requires Stream(t) && i < |t|
  {
    match t[i]
    case LParen => if PatternFrom(t, i) then Some(Outside) else None
    case LBracket => if ComprehensionAt(t, i + 1) then Some(Outside) else None
    case LBrace => Some(Outside)
    case IntegerTooLarge(_) => Some(OutOfRange)
    case Ident(_, word) =>
      if word == NullW || word == TrueW || word == FalseW then None
      else if word == CaseW || CallFrom(t, i) then Some(Outside)
      else if word == Plain then None else Some(ReservedWord)
    case Integer(_) => None
    case FloatToken(_) => None
    case Str(_) => None
    case Parameter(_) => None
    case _ => Some(Unexpected)
  }

  lemma AtomTurned(t: Tokens, i: nat, depth: nat, chain: nat)
    requires Stream(t) && i < |t| && Turned(t, i).Some?
    ensures Atom(t, i, depth, chain) == Fail(Turned(t, i).value)
  {
    if t[i] == LParen { PatternExactly(t, i); }
    else if t[i] == LBracket { ComprehensionExactly(t, i + 1); }
    else if t[i].Ident? { CallExactly(t, i); }
  }

  /** No prefix operator stands here. */
  predicate Bare(k: Token) { k != MINUS && k != PLUS && !(k.Ident? && k.word == NotW) }

  lemma FailsUp(l: nat, error: ParseError, t: Tokens, i: nat, depth: nat, chain: nat)
    requires Stream(t) && i < |t| && l < 10 && Bare(t[i]) && Level(l + 1, t, i, depth, chain) == Fail(error)
    ensures Level(l, t, i, depth, chain) == Fail(error)
  {
  }

  /** At every level an operand is refused for what it begins with: a pattern, comprehension, call, map or CASE is
      outside the fragment, a magnitude too large is out of range, a reserved word is one, and anything else that begins
      no expression is unexpected. */
  lemma {:induction false} RefusedForItsHead(l: nat, t: Tokens, i: nat, depth: nat, chain: nat)
    requires Stream(t) && i < |t| && l <= 10 && Bare(t[i]) && Turned(t, i).Some?
    ensures Level(l, t, i, depth, chain) == Fail(Turned(t, i).value)
    decreases 10 - l
  {
    if l == 10 {
      AtomTurned(t, i, depth, chain);
    } else {
      RefusedForItsHead(l + 1, t, i, depth, chain);
      FailsUp(l, Turned(t, i).value, t, i, depth, chain);
    }
  }

  /** A minus sign saves exactly the magnitude of the smallest integer. */
  lemma MagnitudeExactly(t: Tokens, i: nat, depth: nat, chain: nat)
    requires Stream(t) && i + 2 < |t| && t[i] == MINUS && t[i + 1].IntegerTooLarge?
    requires t[i + 2] == Eof || t[i + 2] == RParen || t[i + 2] == Comma
    ensures Level(9, t, i, depth, chain) ==
              if t[i + 1].magnitude == 0x8000_0000_0000_0000 then Done(Lit(LInt(-0x8000_0000_0000_0000)), i + 2, chain)
              else Fail(OutOfRange)
  {
    if t[i + 1].magnitude == MIN_MAGNITUDE {
      assert SuffixAt(Lit(LInt(MIN_INT)), t, i + 2) == NoSuffix;
      assert Postfix(Lit(LInt(MIN_INT)), t, i + 2, depth, chain) == Done(Lit(LInt(MIN_INT)), i + 2, chain);
      assert t[i + 1] == IntegerTooLarge(MIN_MAGNITUDE);
    } else {
      RefusedForItsHead(9, t, i + 1, depth, chain);
      assert SignLevel(t, i + 1, depth, chain) == Fail(OutOfRange);
    }
  }
}
