/** Near-match suggestions (crates/acetone-cypher/src/suggest.rs). */
module Suggest {
  import opened Order
  import opened Wrappers

  /** `char::to_lowercase`: one character may fold to several. */
  type Fold = nat -> seq<nat>

  function Lowered(fold: Fold, s: Text): (r: Text)
  {
    if s == [] then [] else fold(s[0]) + Lowered(fold, s[1..])
  }

  /** Folding is character by character. */
  lemma {:induction false} LoweredConcat(fold: Fold, a: Text, b: Text)
    ensures Lowered(fold, a + b) == Lowered(fold, a) + Lowered(fold, b)
  {
    if a == [] {
      assert a + b == b;
    } else {
      assert (a + b)[0] == a[0] && (a + b)[1..] == a[1..] + b;
      LoweredConcat(fold, a[1..], b);
    }
  }

  lemma LoweredOne(fold: Fold, c: nat)
    ensures Lowered(fold, [c]) == fold(c)
  {
    assert [c][1..] == [];
  }

  // ----- the full-matrix recurrence -----

  function Min(x: nat, y: nat): nat { if x <= y then x else y }

  function Mismatch(a: Text, b: Text, i: nat, j: nat): nat
    requires 0 < i <= |a| && 0 < j <= |b|
  {
    if a[i - 1] != b[j - 1] then 1 else 0
  }

  /** The two prefixes end in the same two characters, exchanged. */
  predicate Crossed(a: Text, b: Text, i: nat, j: nat)
    requires i <= |a| && j <= |b|
  {
    i > 1 && j > 1 && a[i - 1] == b[j - 2] && a[i - 2] == b[j - 1]
  }

  /** Optimal string alignment of the first `i` characters of `a` and the first `j` of `b`. */
  function Osa(a: Text, b: Text, i: nat, j: nat): nat
    requires i <= |a| && j <= |b|
    decreases i + j
  {
    if i == 0 then j
    else if j == 0 then i
    else
      var best := Min(Min(Osa(a, b, i - 1, j) + 1, Osa(a, b, i, j - 1) + 1),
                      Osa(a, b, i - 1, j - 1) + Mismatch(a, b, i, j));
      if Crossed(a, b, i, j) then Min(best, Osa(a, b, i - 2, j - 2) + 1) else best
  }

  function Distance(fold: Fold, a: Text, b: Text): nat {
    var (x, y) := (Lowered(fold, a), Lowered(fold, b));
    Osa(x, y, |x|, |y|)
  }

  // ----- edit scripts: the meaning of the distance -----

  /** One alignment step. `Swap` exchanges two adjacent characters that no other step touches. */
  datatype Edit =
    | Keep(c: nat)
    | Substitute(x: nat, y: nat)
    | Insert(y: nat)
    | Delete(x: nat)
    | Swap(x: nat, y: nat)

  datatype Script = Start | Then(before: Script, edit: Edit)

  function Source(s: Script): Text {
    match s
    case Start => []
    case Then(p, Keep(c)) => Source(p) + [c]
    case Then(p, Substitute(x, _)) => Source(p) + [x]
    case Then(p, Insert(_)) => Source(p)
    case Then(p, Delete(x)) => Source(p) + [x]
    case Then(p, Swap(x, y)) => Source(p) + [x, y]
  }

  function Target(s: Script): Text {
    match s
    case Start => []
    case Then(p, Keep(c)) => Target(p) + [c]
    case Then(p, Substitute(_, y)) => Target(p) + [y]
    case Then(p, Insert(y)) => Target(p) + [y]
    case Then(p, Delete(_)) => Target(p)
    case Then(p, Swap(x, y)) => Target(p) + [y, x]
  }

  function Cost(s: Script): nat {
    match s
    case Start => 0
    case Then(p, Keep(_)) => Cost(p)
    case Then(p, _) => Cost(p) + 1
  }

  ghost predicate Rewrites(s: Script, a: Text, b: Text) {
    Source(s) == a && Target(s) == b
  }

  /** `d` is attained by some script and undercut by none. */
  ghost predicate IsLeastCost(a: Text, b: Text, d: nat) {
    && (exists s :: Rewrites(s, a, b) && Cost(s) == d)
    && (forall s :: Rewrites(s, a, b) ==> d <= Cost(s))
  }

  lemma AfterDelete(p: Script, a: Text, b: Text, i: nat, j: nat)
    requires 0 < i <= |a| && j <= |b| && Rewrites(p, a[..i - 1], b[..j])
    ensures Rewrites(Then(p, Delete(a[i - 1])), a[..i], b[..j])
  {
    assert a[..i] == a[..i - 1] + [a[i - 1]];
  }

  lemma AfterInsert(p: Script, a: Text, b: Text, i: nat, j: nat)
    requires i <= |a| && 0 < j <= |b| && Rewrites(p, a[..i], b[..j - 1])
    ensures Rewrites(Then(p, Insert(b[j - 1])), a[..i], b[..j])
  {
    assert b[..j] == b[..j - 1] + [b[j - 1]];
  }

  lemma AfterPair(p: Script, a: Text, b: Text, i: nat, j: nat) returns (s: Script)
    requires 0 < i <= |a| && 0 < j <= |b| && Rewrites(p, a[..i - 1], b[..j - 1])
    ensures Rewrites(s, a[..i], b[..j]) && Cost(s) == Cost(p) + Mismatch(a, b, i, j)
  {
    assert a[..i] == a[..i - 1] + [a[i - 1]] && b[..j] == b[..j - 1] + [b[j - 1]];
    s := Then(p, if a[i - 1] == b[j - 1] then Keep(a[i - 1]) else Substitute(a[i - 1], b[j - 1]));
  }

  lemma AfterSwap(p: Script, a: Text, b: Text, i: nat, j: nat)
    requires i <= |a| && j <= |b| && Crossed(a, b, i, j) && Rewrites(p, a[..i - 2], b[..j - 2])
    ensures Rewrites(Then(p, Swap(a[i - 2], a[i - 1])), a[..i], b[..j])
  {
    assert a[..i] == a[..i - 2] + [a[i - 2], a[i - 1]];
    assert b[..j] == b[..j - 2] + [b[j - 2], b[j - 1]];
  }

  /** Some script attains the matrix entry. */
  lemma {:induction false} Attained(a: Text, b: Text, i: nat, j: nat) returns (s: Script)
    requires i <= |a| && j <= |b|
    ensures Rewrites(s, a[..i], b[..j]) && Cost(s) == Osa(a, b, i, j)
    decreases i + j
  {
    var d := Osa(a, b, i, j);
    if i == 0 && j == 0 {
      s := Start;
    } else if i > 0 && d == Osa(a, b, i - 1, j) + 1 {
      var p := Attained(a, b, i - 1, j);
      AfterDelete(p, a, b, i, j);
      s := Then(p, Delete(a[i - 1]));
    } else if j > 0 && d == Osa(a, b, i, j - 1) + 1 {
      var p := Attained(a, b, i, j - 1);
      AfterInsert(p, a, b, i, j);
      s := Then(p, Insert(b[j - 1]));
    } else if i > 0 && j > 0 && d == Osa(a, b, i - 1, j - 1) + Mismatch(a, b, i, j) {
      var p := Attained(a, b, i - 1, j - 1);
      s := AfterPair(p, a, b, i, j);
    } else {
      var p := Attained(a, b, i - 2, j - 2);
      AfterSwap(p, a, b, i, j);
      s := Then(p, Swap(a[i - 2], a[i - 1]));
    }
  }

  lemma OsaStep(a: Text, b: Text, i: nat, j: nat)
    requires i <= |a| && j <= |b|
    ensures i > 0 ==> Osa(a, b, i, j) <= Osa(a, b, i - 1, j) + 1
    ensures j > 0 ==> Osa(a, b, i, j) <= Osa(a, b, i, j - 1) + 1
    ensures i > 0 && j > 0 ==> Osa(a, b, i, j) <= Osa(a, b, i - 1, j - 1) + Mismatch(a, b, i, j)
    ensures Crossed(a, b, i, j) ==> Osa(a, b, i, j) <= Osa(a, b, i - 2, j - 2) + 1
  {
  }

  /** How many source and target characters a step consumes. */
  function Span(e: Edit): (nat, nat) {
    match e
    case Keep(_) => (1, 1)
    case Substitute(_, _) => (1, 1)
    case Insert(_) => (0, 1)
    case Delete(_) => (1, 0)
    case Swap(_, _) => (2, 2)
  }

  lemma BeforeLastEdit(p: Script, e: Edit, a: Text, b: Text, i: nat, j: nat)
    requires i <= |a| && j <= |b|
    requires Rewrites(Then(p, e), a[..i], b[..j])
    ensures Span(e).0 <= i && Span(e).1 <= j
    ensures Rewrites(p, a[..i - Span(e).0], b[..j - Span(e).1])
    ensures e.Keep? ==> a[i - 1] == b[j - 1]
    ensures e.Swap? ==> Crossed(a, b, i, j)
  {
    var s := Then(p, e);
    assert |Source(s)| == i && |Target(s)| == j;
    assert Source(p) == Source(s)[..i - Span(e).0];
    assert Target(p) == Target(s)[..j - Span(e).1];
    if i > 0 { assert a[i - 1] == Source(s)[i - 1]; }
    if j > 0 { assert b[j - 1] == Target(s)[j - 1]; }
    if e.Swap? { assert a[i - 2] == Source(s)[i - 2] && b[j - 2] == Target(s)[j - 2]; }
  }

  lemma {:induction false} NoScriptIsCheaper(s: Script, a: Text, b: Text, i: nat, j: nat)
    requires i <= |a| && j <= |b|
    requires Rewrites(s, a[..i], b[..j])
    ensures Osa(a, b, i, j) <= Cost(s)
    decreases s
  {
    match s
    case Start =>
    case Then(p, e) =>
      BeforeLastEdit(p, e, a, b, i, j);
      NoScriptIsCheaper(p, a, b, i - Span(e).0, j - Span(e).1);
      OsaStep(a, b, i, j);
  }

  /** The recurrence computes the least cost over every edit script. */
  lemma OsaIsLeastCost(a: Text, b: Text)
    ensures IsLeastCost(a, b, Osa(a, b, |a|, |b|))
  {
    var best := Attained(a, b, |a|, |b|);
    assert a[..|a|] == a && b[..|b|] == b;
    forall s | Rewrites(s, a, b) ensures Osa(a, b, |a|, |b|) <= Cost(s) {
      NoScriptIsCheaper(s, a, b, |a|, |b|);
    }
  }

  function Undone(e: Edit): Edit {
    match e
    case Keep(c) => Keep(c)
    case Substitute(x, y) => Substitute(y, x)
    case Insert(y) => Delete(y)
    case Delete(x) => Insert(x)
    case Swap(x, y) => Swap(y, x)
  }

  function Reversal(s: Script): Script {
    match s
    case Start => Start
    case Then(p, e) => Then(Reversal(p), Undone(e))
  }

  lemma {:induction false} ReversalRewritesBack(s: Script)
    ensures Source(Reversal(s)) == Target(s) && Target(Reversal(s)) == Source(s)
    ensures Cost(Reversal(s)) == Cost(s)
  {
    match s
    case Start =>
    case Then(p, e) => ReversalRewritesBack(p);
  }

  lemma LeastCostSymmetric(a: Text, b: Text, d: nat, d': nat)
    requires IsLeastCost(a, b, d) && IsLeastCost(b, a, d')
    ensures d == d'
  {
    var s :| Rewrites(s, a, b) && Cost(s) == d;
    var s' :| Rewrites(s', b, a) && Cost(s') == d';
    ReversalRewritesBack(s);
    ReversalRewritesBack(s');
    assert Rewrites(Reversal(s), b, a) && Rewrites(Reversal(s'), a, b);
  }

  lemma {:induction false} FreeScriptCopies(s: Script)
    requires Cost(s) == 0
    ensures Source(s) == Target(s)
  {
    match s
    case Start =>
    case Then(p, e) => FreeScriptCopies(p);
  }

  function Copy(a: Text): Script {
    if a == [] then Start else Then(Copy(a[..|a| - 1]), Keep(a[|a| - 1]))
  }

  lemma {:induction false} CopyRewrites(a: Text)
    ensures Rewrites(Copy(a), a, a) && Cost(Copy(a)) == 0
  {
    if a != [] {
      CopyRewrites(a[..|a| - 1]);
      assert a == a[..|a| - 1] + [a[|a| - 1]];
    }
  }

  /** Symmetric; zero exactly for case-fold-equal names. */
  lemma DistanceIsSemimetric(fold: Fold, a: Text, b: Text)
    ensures Distance(fold, a, b) == Distance(fold, b, a)
    ensures Distance(fold, a, b) == 0 <==> Lowered(fold, a) == Lowered(fold, b)
  {
    var (x, y) := (Lowered(fold, a), Lowered(fold, b));
    OsaIsLeastCost(x, y);
    OsaIsLeastCost(y, x);
    LeastCostSymmetric(x, y, Distance(fold, a, b), Distance(fold, b, a));
    if Distance(fold, a, b) == 0 {
      var s :| Rewrites(s, x, y) && Cost(s) == 0;
      FreeScriptCopies(s);
    }
    if x == y { CopyRewrites(x); }
  }

  // ----- the three rolling rows -----

  ghost predicate IsRow(row: seq<nat>, a: Text, b: Text, i: nat)
  {
    i <= |a| && |row| == |b| + 1 && forall j {:trigger row[j]} :: 0 <= j <= |b| ==> row[j] == Osa(a, b, i, j)
  }

  lemma CellFromRows(a: Text, b: Text, i: nat, j: nat, prev2: seq<nat>, prev: seq<nat>, left: nat, cell: nat)
    requires 0 < i <= |a| && 0 < j <= |b|
    requires IsRow(prev, a, b, i - 1) && (i > 1 ==> IsRow(prev2, a, b, i - 2))
    requires left == Osa(a, b, i, j - 1)
    requires cell == var best := Min(Min(prev[j] + 1, left + 1), prev[j - 1] + Mismatch(a, b, i, j));
                     if Crossed(a, b, i, j) then Min(best, prev2[j - 2] + 1) else best
    ensures cell == Osa(a, b, i, j)
  {
    assert prev[j] == Osa(a, b, i - 1, j) && prev[j - 1] == Osa(a, b, i - 1, j - 1);
  }

  /** Fill row `i` from the two rows above it. */
  method FillRow(a: Text, b: Text, i: nat, prev2: array<nat>, prev: array<nat>, curr: array<nat>)
    requires 0 < i <= |a| && b != []
    requires curr != prev && curr != prev2
    requires prev.Length == prev2.Length == curr.Length == |b| + 1
    requires IsRow(prev[..], a, b, i - 1)
    requires i > 1 ==> IsRow(prev2[..], a, b, i - 2)
    modifies curr
    ensures IsRow(curr[..], a, b, i)
  {
    var m := |b|;
    curr[0] := i;
    for j := 1 to m + 1
      invariant forall k {:trigger curr[k]} :: 0 <= k < j ==> curr[k] == Osa(a, b, i, k)
      invariant IsRow(prev[..], a, b, i - 1)
      invariant i > 1 ==> IsRow(prev2[..], a, b, i - 2)
    {
      var cost := if a[i - 1] != b[j - 1] then 1 else 0;
      var best := Min(Min(prev[j] + 1, curr[j - 1] + 1), prev[j - 1] + cost);
      if i > 1 && j > 1 && a[i - 1] == b[j - 2] && a[i - 2] == b[j - 1] {
        best := Min(best, prev2[j - 2] + 1);
      }
      CellFromRows(a, b, i, j, prev2[..], prev[..], curr[j - 1], best);
      curr[j] := best;
    }
  }

  method ComputeDistance(fold: Fold, a: Text, b: Text) returns (d: nat)
    ensures d == Distance(fold, a, b)
    ensures IsLeastCost(Lowered(fold, a), Lowered(fold, b), d)
  {
    var x, y := Lowered(fold, a), Lowered(fold, b);
    OsaIsLeastCost(x, y);
    var n, m := |x|, |y|;
    if n == 0 { return m; }
    if m == 0 { return n; }
    var prev2 := new nat[m + 1](_ => 0);
    var prev := new nat[m + 1](k => k);
    var curr := new nat[m + 1](_ => 0);
    for i := 1 to n + 1
      invariant prev != curr && curr != prev2 && prev != prev2
      invariant prev.Length == prev2.Length == curr.Length == m + 1
      invariant fresh(prev) && fresh(curr) && fresh(prev2)
      invariant IsRow(prev[..], x, y, i - 1)
      invariant i > 1 ==> IsRow(prev2[..], x, y, i - 2)
    {
      FillRow(x, y, i, prev2, prev, curr);
      prev2, prev := prev, prev2;
      prev, curr := curr, prev;
    }
    assert prev[..][m] == prev[m];
    return prev[m];
  }

  // ----- nearest -----

  function Threshold(target: Text): nat {
    if |target| / 3 > 1 then |target| / 3 else 1
  }

  /** Rank of a candidate: distance first, then byte order. */
  predicate Closer(fold: Fold, target: Text, x: Text, y: Text) {
    Distance(fold, target, x) < Distance(fold, target, y)
    || (Distance(fold, target, x) == Distance(fold, target, y) && Less(x, y))
  }

  ghost predicate Admissible(fold: Fold, target: Text, c: Text) {
    Distance(fold, target, c) <= Threshold(target)
  }

  ghost predicate IsNearest(fold: Fold, target: Text, pool: set<Text>, r: Option<Text>) {
    match r
    case None => forall c :: c in pool ==> !Admissible(fold, target, c)
    case Some(c) =>
      && c in pool && Admissible(fold, target, c)
      && forall o :: o in pool && Admissible(fold, target, o) ==> o == c || Closer(fold, target, c, o)
  }

  function Pool(candidates: seq<Text>): set<Text> {
    set c | c in candidates
  }

  /** Close enough is one edit, or one for every three characters of the target. */
  lemma AdmissibleExactly(fold: Fold, target: Text, c: Text)
    ensures Admissible(fold, target, c) <==>
              Distance(fold, target, c) <= 1 || 3 * Distance(fold, target, c) <= |target|
  {
  }

  lemma NearestMeans(fold: Fold, target: Text, candidates: seq<Text>, r: Option<Text>)
    requires IsNearest(fold, target, Pool(candidates), r)
    ensures r.None? <==> forall c :: c in candidates ==>
              Distance(fold, target, c) > 1 && 3 * Distance(fold, target, c) > |target|
    ensures r.Some? ==>
              && r.value in candidates
              && (forall c :: c in candidates ==> Distance(fold, target, r.value) <= Distance(fold, target, c))
              && (forall c :: c in candidates && Distance(fold, target, r.value) == Distance(fold, target, c) ==>
                    c == r.value || Less(r.value, c))
  {
    forall c ensures Admissible(fold, target, c) <==>
        Distance(fold, target, c) <= 1 || 3 * Distance(fold, target, c) <= |target| {
      AdmissibleExactly(fold, target, c);
    }
    forall c ensures c in Pool(candidates) <==> c in candidates {}
  }

  method Nearest(fold: Fold, target: Text, candidates: seq<Text>) returns (r: Option<Text>)
    ensures IsNearest(fold, target, Pool(candidates), r)
    ensures r.None? <==> forall c :: c in candidates ==>
              Distance(fold, target, c) > 1 && 3 * Distance(fold, target, c) > |target|
    ensures r.Some? ==>
              && r.value in candidates
              && (forall c :: c in candidates ==> Distance(fold, target, r.value) <= Distance(fold, target, c))
              && (forall c :: c in candidates && Distance(fold, target, r.value) == Distance(fold, target, c) ==>
                    c == r.value || Less(r.value, c))
  {
    var best: Option<(nat, Text)> := None;
    for k := 0 to |candidates|
      invariant best.Some? ==> best.value.0 == Distance(fold, target, best.value.1)
      invariant IsNearest(fold, target, Pool(candidates[..k]), if best.None? then None else Some(best.value.1))
    {
      var c := candidates[k];
      assert candidates[..k + 1] == candidates[..k] + [c];
      var d := ComputeDistance(fold, target, c);
      ghost var before := best;
      if d <= Threshold(target) {
        var better := best.None? || d < best.value.0 || (d == best.value.0 && Less(c, best.value.1));
        if better { best := Some((d, c)); }
        if before.Some? {
          Trichotomy(c, before.value.1);
          if better {
            forall o | o in candidates[..k] && Admissible(fold, target, o) && o != c
              ensures Closer(fold, target, c, o)
            {
              if o != before.value.1 { CloserTransitive(fold, target, c, before.value.1, o); }
            }
          }
        }
      }
    }
    assert candidates[..|candidates|] == candidates;
    r := if best.None? then None else Some(best.value.1);
    NearestMeans(fold, target, candidates, r);
  }

  lemma CloserTransitive(fold: Fold, target: Text, x: Text, y: Text, z: Text)
    requires Closer(fold, target, x, y) && Closer(fold, target, y, z)
    ensures Closer(fold, target, x, z)
  {
    if Less(x, y) && Less(y, z) { Transitive(x, y, z); }
  }

  /** The suggestion depends on the candidate set alone, never on iteration order. */
  lemma NearestUnique(fold: Fold, target: Text, pool: set<Text>, r: Option<Text>, r': Option<Text>)
    requires IsNearest(fold, target, pool, r) && IsNearest(fold, target, pool, r')
    ensures r == r'
  {
    if r.Some? && r'.Some? { Trichotomy(r.value, r'.value); }
  }
}
