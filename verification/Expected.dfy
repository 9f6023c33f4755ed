/** The TCK's structural result comparison (tck/src/expected.rs). */
module Expected {
  import opened Wrappers
  import opened Floats

  type Id = string

  datatype Value =
    | Null
    | Bool(b: bool)
    | Int(n: int)
    | FloatV(x: Float)
    | Str(s: string)
    | List(items: seq<Value>)
    | MapV(entries: Props)
    | NodeV(node: Node)
    | RelV(rel: Rel)
    | PathV(path: Path)
    | Stored(carrier: nat)

  /** A `BTreeMap` of property values. */
  datatype Props = Props(m: map<string, Value>)
  datatype Node = Node(id: Id, labels: seq<string>, props: Props)
  datatype Rel = Rel(id: Id, rtype: string, start: Id, end: Id, props: Props)
  datatype Path = Path(nodes: seq<Node>, rels: seq<Rel>)

  type Row = seq<Value>

  // ----- structural matching -----

  predicate ValuesMatch(e: Value, a: Value)
    decreases e
  {
    match (e, a)
    case (Null, Null) => true
    case (Bool(x), Bool(y)) => x == y
    case (Int(x), Int(y)) => x == y
    case (FloatV(x), FloatV(y)) => (x.NaN? && y.NaN?) || FloatEq(x, y)
    case (Str(x), Str(y)) => x == y
    case (List(x), List(y)) => |x| == |y| && forall i :: 0 <= i < |x| ==> ValuesMatch(x[i], y[i])
    case (MapV(x), MapV(y)) => PropsMatch(x, y)
    case (NodeV(x), NodeV(y)) => NodesMatch(x, y)
    case (RelV(x), RelV(y)) => RelsMatch(x, y)
    case (PathV(x), PathV(y)) => PathsMatch(x, y)
    case _ => false
  }

  predicate PropsMatch(e: Props, a: Props)
    decreases e
  {
    |e.m| == |a.m| && forall k :: k in e.m ==> k in a.m && ValuesMatch(e.m[k], a.m[k])
  }

  function LabelSet(labels: seq<string>): set<string> { set l | l in labels }

  predicate NodesMatch(e: Node, a: Node)
    decreases e
  {
    LabelSet(e.labels) == LabelSet(a.labels) && PropsMatch(e.props, a.props)
  }

  predicate RelsMatch(e: Rel, a: Rel)
    decreases e
  {
    e.rtype == a.rtype && PropsMatch(e.props, a.props)
  }

  predicate Forward(p: Path, i: nat)
    requires i < |p.rels|
  {
    i + 1 < |p.nodes| && p.nodes[i].id == p.rels[i].start && p.nodes[i + 1].id == p.rels[i].end
  }

  predicate Backward(p: Path, i: nat)
    requires i < |p.rels|
  {
    i + 1 < |p.nodes| && p.nodes[i + 1].id == p.rels[i].start && p.nodes[i].id == p.rels[i].end
  }

  predicate SameDirection(e: Path, a: Path, i: nat)
    requires i < |e.rels| && i < |a.rels|
  {
    (Forward(e, i) && Forward(a, i)) || (Backward(e, i) && Backward(a, i))
  }

  predicate PathsMatch(e: Path, a: Path)
    decreases e
  {
    && |e.nodes| == |a.nodes| && |e.rels| == |a.rels|
    && (forall i :: 0 <= i < |e.nodes| ==> NodesMatch(e.nodes[i], a.nodes[i]))
    && (forall i :: 0 <= i < |e.rels| ==> RelsMatch(e.rels[i], a.rels[i]) && SameDirection(e, a, i))
  }

  predicate RowsMatch(e: Row, a: Row) {
    |e| == |a| && forall i :: 0 <= i < |e| ==> ValuesMatch(e[i], a[i])
  }

  // ----- the shape of expected values, and loop-free actual values -----

  function Digit(n: nat): char
    requires n < 10
  {
    '0' + n as char
  }

  function Decimal(n: nat): string {
    if n < 10 then [Digit(n)] else Decimal(n / 10) + [Digit(n % 10)]
  }

  /** The placeholder id of the `i`th node of an expected path. */
  function Position(i: nat): Id { "#" + Decimal(i) }

  lemma PositionsDiffer(i: nat)
    ensures Position(i) != Position(i + 1)
  {
    LastDigit(i);
    LastDigit(i + 1);
  }

  lemma LastDigit(n: nat)
    ensures var s := Position(n); s[|s| - 1] == Digit(n % 10)
  {
  }

  ghost predicate PositionalPath(p: Path) {
    && |p.nodes| == |p.rels| + 1
    && (forall i :: 0 <= i < |p.nodes| ==> p.nodes[i].id == Position(i))
    && (forall i :: 0 <= i < |p.rels| ==>
          || (p.rels[i].start == Position(i) && p.rels[i].end == Position(i + 1))
          || (p.rels[i].start == Position(i + 1) && p.rels[i].end == Position(i)))
  }

  /** Every path in the value is positional, as the cell parser builds them. */
  ghost predicate Positional(v: Value)
    decreases v
  {
    match v
    case List(items) => forall i :: 0 <= i < |items| ==> Positional(items[i])
    case MapV(p) => PositionalProps(p)
    case NodeV(n) => PositionalProps(n.props)
    case RelV(r) => PositionalProps(r.props)
    case PathV(p) =>
      && PositionalPath(p)
      && (forall i :: 0 <= i < |p.nodes| ==> PositionalProps(p.nodes[i].props))
      && (forall i :: 0 <= i < |p.rels| ==> PositionalProps(p.rels[i].props))
    case _ => true
  }

  ghost predicate PositionalProps(p: Props)
    decreases p
  {
    forall k :: k in p.m ==> Positional(p.m[k])
  }

  /** No path in the value has a step that starts where it ends. */
  ghost predicate LoopFree(v: Value)
    decreases v
  {
    match v
    case List(items) => forall i :: 0 <= i < |items| ==> LoopFree(items[i])
    case MapV(p) => LoopFreeProps(p)
    case NodeV(n) => LoopFreeProps(n.props)
    case RelV(r) => LoopFreeProps(r.props)
    case PathV(p) =>
      && (forall i :: 0 <= i < |p.rels| ==> p.rels[i].start != p.rels[i].end)
      && (forall i :: 0 <= i < |p.nodes| ==> LoopFreeProps(p.nodes[i].props))
      && (forall i :: 0 <= i < |p.rels| ==> LoopFreeProps(p.rels[i].props))
    case _ => true
  }

  ghost predicate LoopFreeProps(p: Props)
    decreases p
  {
    forall k :: k in p.m ==> LoopFree(p.m[k])
  }

  ghost predicate PositionalRow(r: Row) { forall i :: 0 <= i < |r| ==> Positional(r[i]) }
  ghost predicate LoopFreeRow(r: Row) { forall i :: 0 <= i < |r| ==> LoopFree(r[i]) }

  // ----- the exchange property -----

  lemma {:induction false} SubsetOfSameSize<T>(a: set<T>, b: set<T>)
    requires a <= b && |a| == |b|
    ensures a == b
  {
    if a != b {
      var x :| x in b && x !in a;
      SubsetCardinality(a, b - {x});
    }
  }

  lemma {:induction false} SubsetCardinality<T>(a: set<T>, b: set<T>)
    requires a <= b
    ensures |a| <= |b|
    decreases |a|
  {
    if x :| x in a { SubsetCardinality(a - {x}, b - {x}); }
  }

  lemma MatchingPropsShareKeys(e: Props, a: Props)
    requires PropsMatch(e, a)
    ensures e.m.Keys == a.m.Keys
  {
    assert |e.m.Keys| == |e.m| && |a.m.Keys| == |a.m|;
    SubsetOfSameSize(e.m.Keys, a.m.Keys);
  }

  /** If `e` and `f` both match `a`, whatever else `f` matches `e` matches too. */
  lemma {:induction false} Exchange(e: Value, f: Value, a: Value, b: Value)
    requires ValuesMatch(e, a) && ValuesMatch(f, a) && ValuesMatch(f, b)
    requires Positional(e) && Positional(f) && LoopFree(a)
    ensures ValuesMatch(e, b)
    decreases e
  {
    match e {
      case List(items) =>
        forall i | 0 <= i < |items| ensures ValuesMatch(items[i], b.items[i]) {
          Exchange(items[i], f.items[i], a.items[i], b.items[i]);
        }
      case MapV(p) => ExchangeProps(p, f.entries, a.entries, b.entries);
      case NodeV(n) => ExchangeProps(n.props, f.node.props, a.node.props, b.node.props);
      case RelV(r) => ExchangeProps(r.props, f.rel.props, a.rel.props, b.rel.props);
      case PathV(p) => ExchangePaths(p, f.path, a.path, b.path);
      case _ =>
    }
  }

  lemma {:induction false} ExchangeProps(e: Props, f: Props, a: Props, b: Props)
    requires PropsMatch(e, a) && PropsMatch(f, a) && PropsMatch(f, b)
    requires PositionalProps(e) && PositionalProps(f) && LoopFreeProps(a)
    ensures PropsMatch(e, b)
    decreases e
  {
    MatchingPropsShareKeys(e, a);
    MatchingPropsShareKeys(f, a);
    MatchingPropsShareKeys(f, b);
    forall k | k in e.m ensures k in b.m && ValuesMatch(e.m[k], b.m[k]) {
      assert k in a.m.Keys && k in f.m.Keys && k in b.m.Keys;
      Exchange(e.m[k], f.m[k], a.m[k], b.m[k]);
    }
  }

  lemma ExchangeDirection(e: Path, f: Path, a: Path, b: Path, i: nat)
    requires i < |e.rels| == |f.rels| == |a.rels| == |b.rels|
    requires PositionalPath(e) && PositionalPath(f) && a.rels[i].start != a.rels[i].end
    requires SameDirection(e, a, i) && SameDirection(f, a, i) && SameDirection(f, b, i)
    ensures SameDirection(e, b, i)
  {
    PositionsDiffer(i);
    assert !(Forward(a, i) && Backward(a, i));
    assert f.nodes[i].id == Position(i) && f.nodes[i + 1].id == Position(i + 1);
    assert !(Forward(f, i) && Backward(f, i));
  }

  lemma {:induction false} ExchangePaths(e: Path, f: Path, a: Path, b: Path)
    requires PathsMatch(e, a) && PathsMatch(f, a) && PathsMatch(f, b)
    requires Positional(PathV(e)) && Positional(PathV(f)) && LoopFree(PathV(a))
    ensures PathsMatch(e, b)
    decreases e
  {
    forall i | 0 <= i < |e.nodes| ensures NodesMatch(e.nodes[i], b.nodes[i]) {
      assert NodesMatch(e.nodes[i], a.nodes[i]) && NodesMatch(f.nodes[i], a.nodes[i])
          && NodesMatch(f.nodes[i], b.nodes[i]);
      ExchangeProps(e.nodes[i].props, f.nodes[i].props, a.nodes[i].props, b.nodes[i].props);
    }
    forall i | 0 <= i < |e.rels| ensures RelsMatch(e.rels[i], b.rels[i]) && SameDirection(e, b, i) {
      assert RelsMatch(e.rels[i], a.rels[i]) && RelsMatch(f.rels[i], a.rels[i]) && RelsMatch(f.rels[i], b.rels[i]);
      ExchangeProps(e.rels[i].props, f.rels[i].props, a.rels[i].props, b.rels[i].props);
      ExchangeDirection(e, f, a, b, i);
    }
  }

  lemma ExchangeRows(e: Row, f: Row, a: Row, b: Row)
    requires RowsMatch(e, a) && RowsMatch(f, a) && RowsMatch(f, b)
    requires PositionalRow(e) && PositionalRow(f) && LoopFreeRow(a)
    ensures RowsMatch(e, b)
  {
    forall i | 0 <= i < |e| ensures ValuesMatch(e[i], b[i]) { Exchange(e[i], f[i], a[i], b[i]); }
  }

  // ----- perfect matchings -----

  /** `g` pairs expected row `i` with actual row `g[i]`: a bijection of structural matches. */
  ghost predicate Perfect(es: seq<Row>, rs: seq<Row>, g: seq<nat>) {
    && |g| == |es| == |rs|
    && (forall i :: 0 <= i < |g| ==> g[i] < |rs|)
    && (forall i, j :: 0 <= i < j < |g| ==> g[i] != g[j])
    && (forall i :: 0 <= i < |g| ==> RowsMatch(es[i], rs[g[i]]))
  }

  function Without<T>(s: seq<T>, p: nat): seq<T>
    requires p < |s|
  {
    s[..p] + s[p + 1..]
  }

  /** The first row matching `want` — `Iterator::position`. */
  function FirstMatch(want: Row, rs: seq<Row>): (r: Option<nat>)
    ensures r.Some? ==> r.value < |rs| && RowsMatch(want, rs[r.value])
    ensures r.None? ==> forall i :: 0 <= i < |rs| ==> !RowsMatch(want, rs[i])
  {
    if rs == [] then None
    else if RowsMatch(want, rs[0]) then Some(0)
    else match FirstMatch(want, rs[1..])
      case None => None
      case Some(p) => Some(p + 1)
  }

  /** Greedy consumption: every expected row takes the first remaining match. */
  predicate Greedy(es: seq<Row>, rs: seq<Row>) {
    es == [] ||
    match FirstMatch(es[0], rs)
    case None => false
    case Some(p) => Greedy(es[1..], Without(rs, p))
  }

  /** Where index `v` of a list moves when index `p` is removed, and back. */
  function Shift(v: nat, p: nat): nat
    requires v != p
  {
    if v > p then v - 1 else v
  }

  function Unshift(v: nat, p: nat): nat { if v >= p then v + 1 else v }

  lemma {:induction false} GreedyIsPerfect(es: seq<Row>, rs: seq<Row>) returns (g: seq<nat>)
    requires |es| == |rs| && Greedy(es, rs)
    ensures Perfect(es, rs, g)
    decreases |es|
  {
    if es == [] {
      g := [];
    } else {
      var p := FirstMatch(es[0], rs).value;
      var h := GreedyIsPerfect(es[1..], Without(rs, p));
      g := PrependPair(es, rs, p, h);
    }
  }

  lemma PrependPair(es: seq<Row>, rs: seq<Row>, p: nat, h: seq<nat>) returns (g: seq<nat>)
    requires es != [] && p < |rs| && RowsMatch(es[0], rs[p])
    requires Perfect(es[1..], Without(rs, p), h)
    ensures Perfect(es, rs, g)
  {
    g := [p] + seq(|h|, i requires 0 <= i < |h| => Unshift(h[i], p));
    forall i | 0 < i < |g| ensures g[i] < |rs| && RowsMatch(es[i], rs[g[i]]) {
      assert RowsMatch(es[1..][i - 1], Without(rs, p)[h[i - 1]]);
      assert Without(rs, p)[h[i - 1]] == rs[g[i]];
    }
  }

  /** The exchange step: any perfect matching survives the greedy choice for the first expected row. */
  lemma ExchangeStep(es: seq<Row>, rs: seq<Row>, g: seq<nat>, p: nat) returns (h: seq<nat>)
    requires Perfect(es, rs, g) && es != [] && p < |rs| && RowsMatch(es[0], rs[p])
    requires forall i :: 0 <= i < |es| ==> PositionalRow(es[i])
    requires LoopFreeRow(rs[p])
    ensures Perfect(es[1..], Without(rs, p), h)
  {
    var q := g[0];
    var moved := seq(|g| - 1, i requires 0 <= i < |g| - 1 => if g[i + 1] == p then q else g[i + 1]);
    forall i | 0 <= i < |moved| ensures moved[i] != p && RowsMatch(es[i + 1], rs[moved[i]]) {
      if g[i + 1] == p {
        ExchangeRows(es[i + 1], es[0], rs[p], rs[q]);
        assert g[0] != g[i + 1];
      }
    }
    assert forall i, j :: 0 <= i < j < |moved| ==> moved[i] != moved[j];
    h := seq(|moved|, i requires 0 <= i < |moved| => Shift(moved[i], p));
    ShiftedPerfect(es, rs, moved, p, h);
  }

  lemma ShiftedPerfect(es: seq<Row>, rs: seq<Row>, moved: seq<nat>, p: nat, h: seq<nat>)
    requires es != [] && |es| == |rs| && p < |rs| && |moved| == |es| - 1
    requires forall i :: 0 <= i < |moved| ==> moved[i] < |rs| && moved[i] != p && RowsMatch(es[i + 1], rs[moved[i]])
    requires forall i, j :: 0 <= i < j < |moved| ==> moved[i] != moved[j]
    requires |h| == |moved| && forall i :: 0 <= i < |h| ==> h[i] == Shift(moved[i], p)
    ensures Perfect(es[1..], Without(rs, p), h)
  {
    forall i | 0 <= i < |h| ensures h[i] < |Without(rs, p)| && RowsMatch(es[1..][i], Without(rs, p)[h[i]]) {
      assert Without(rs, p)[h[i]] == rs[moved[i]];
    }
  }

  lemma {:induction false} PerfectIsGreedy(es: seq<Row>, rs: seq<Row>, g: seq<nat>)
    requires Perfect(es, rs, g)
    requires forall i :: 0 <= i < |es| ==> PositionalRow(es[i])
    requires forall i :: 0 <= i < |rs| ==> LoopFreeRow(rs[i])
    ensures Greedy(es, rs)
    decreases |es|
  {
    if es != [] {
      assert RowsMatch(es[0], rs[g[0]]);
      var p := FirstMatch(es[0], rs).value;
      var h := ExchangeStep(es, rs, g, p);
      PerfectIsGreedy(es[1..], Without(rs, p), h);
    }
  }

  // ----- what a match means -----

  /** Which way a path step runs; `Astray` links neither way. */
  datatype Heading = Ahead | Back | Astray

  /** What is left of a value once entity ids, label order and repetition, the sign of a zero and a relationship's own
      endpoints are dropped. A value still in its stored carrier matches nothing, so its form keeps the side it stood
      on. */
  datatype Form =
    | FNull
    | FBool(b: bool)
    | FInt(n: int)
    | FFloat(x: Float)
    | FStr(s: string)
    | FList(items: seq<Form>)
    | FMap(entries: map<string, Form>)
    | FNode(labels: set<string>, props: map<string, Form>)
    | FRel(rtype: string, props: map<string, Form>)
    | FPath(nodes: seq<Form>, rels: seq<Form>, headings: seq<Heading>)
    | FCarrier(expected: bool)

  function HeadingOf(p: Path, i: nat): Heading
    requires i < |p.rels|
  {
    if i + 1 >= |p.nodes| then Astray
    else if p.rels[i].start == p.nodes[i].id && p.rels[i].end == p.nodes[i + 1].id then Ahead
    else if p.rels[i].start == p.nodes[i + 1].id && p.rels[i].end == p.nodes[i].id then Back
    else Astray
  }

  function FormOf(v: Value, expected: bool): Form
    decreases v, 3
  {
    match v
    case Null => FNull
    case Bool(b) => FBool(b)
    case Int(n) => FInt(n)
    case FloatV(x) => FFloat(if x.NegZero? then PosZero else x)
    case Str(s) => FStr(s)
    case List(items) => FList(seq(|items|, i requires 0 <= i < |items| => FormOf(items[i], expected)))
    case MapV(p) => FMap(PropForms(p, expected))
    case NodeV(n) => NodeForm(n, expected)
    case RelV(r) => RelForm(r, expected)
    case PathV(p) => PathForm(p, expected)
    case Stored(_) => FCarrier(expected)
  }

  function PropForms(p: Props, expected: bool): map<string, Form>
    decreases p, 0
  {
    map k | k in p.m :: FormOf(p.m[k], expected)
  }

  function NodeForm(n: Node, expected: bool): Form
    decreases n, 0
  {
    FNode((set l | l in n.labels), PropForms(n.props, expected))
  }

  function RelForm(r: Rel, expected: bool): Form
    decreases r, 0
  {
    FRel(r.rtype, PropForms(r.props, expected))
  }

  function PathForm(p: Path, expected: bool): Form
    decreases p, 2
  {
    FPath(NodeForms(p, expected), RelForms(p, expected), Headings(p))
  }

  function NodeForms(p: Path, expected: bool): seq<Form>
    decreases p, 1
  {
    seq(|p.nodes|, i requires 0 <= i < |p.nodes| => NodeForm(p.nodes[i], expected))
  }

  function RelForms(p: Path, expected: bool): seq<Form>
    decreases p, 1
  {
    seq(|p.rels|, i requires 0 <= i < |p.rels| => RelForm(p.rels[i], expected))
  }

  function Headings(p: Path): seq<Heading> { seq(|p.rels|, i requires 0 <= i < |p.rels| => HeadingOf(p, i)) }

  predicate SameKind(e: Value, a: Value) {
    match e
    case Null => a.Null?
    case Bool(_) => a.Bool?
    case Int(_) => a.Int?
    case FloatV(_) => a.FloatV?
    case Str(_) => a.Str?
    case List(_) => a.List?
    case MapV(_) => a.MapV?
    case NodeV(_) => a.NodeV?
    case RelV(_) => a.RelV?
    case PathV(_) => a.PathV?
    case Stored(_) => a.Stored?
  }

  predicate Scalar(v: Value) { v.Null? || v.Bool? || v.Int? || v.Str? }

  /** Values of different kinds never match, an integer and a float included; scalars match exactly when equal; floats
      when equal, both NaN or both zero; a stored carrier never. */
  lemma KindsExactly(e: Value, a: Value)
    ensures ValuesMatch(e, a) ==> SameKind(e, a) && !e.Stored?
    ensures Scalar(e) ==> (ValuesMatch(e, a) <==> e == a)
    ensures e.FloatV? && a.FloatV? ==>
              (ValuesMatch(e, a) <==>
               e.x == a.x || ((e.x.PosZero? || e.x.NegZero?) && (a.x.PosZero? || a.x.NegZero?)))
  {
  }

  lemma FormKinds(e: Value, a: Value)
    ensures FormOf(e, true) == FormOf(a, false) ==> SameKind(e, a) && !e.Stored?
    ensures Scalar(e) ==> (FormOf(e, true) == FormOf(a, false) <==> e == a)
    ensures e.FloatV? && a.FloatV? ==>
              (FormOf(e, true) == FormOf(a, false) <==>
               e.x == a.x || ((e.x.PosZero? || e.x.NegZero?) && (a.x.PosZero? || a.x.NegZero?)))
  {
    FormKind(e, true);
    FormKind(a, false);
  }

  lemma FormKind(v: Value, expected: bool)
    ensures match FormOf(v, expected)
            case FNull => v.Null?
            case FBool(_) => v.Bool?
            case FInt(_) => v.Int?
            case FFloat(_) => v.FloatV?
            case FStr(_) => v.Str?
            case FList(_) => v.List?
            case FMap(_) => v.MapV?
            case FNode(_, _) => v.NodeV?
            case FRel(_, _) => v.RelV?
            case FPath(_, _, _) => v.PathV?
            case FCarrier(side) => v.Stored? && side == expected
  {
    match v
    case Null => case Bool(_) => case Int(_) => case FloatV(_) => case Str(_) => case List(_) => case MapV(_) =>
    case NodeV(n) => assert NodeForm(n, expected).FNode?;
    case RelV(r) => assert RelForm(r, expected).FRel?;
    case PathV(p) => assert PathForm(p, expected).FPath?;
    case Stored(_) =>
  }

  /** Values match exactly when they have the same form. */
  lemma {:induction false} MatchExactly(e: Value, a: Value)
    requires Positional(e) && LoopFree(a)
    ensures ValuesMatch(e, a) <==> FormOf(e, true) == FormOf(a, false)
    decreases e, 1
  {
    KindsExactly(e, a);
    FormKinds(e, a);
    if SameKind(e, a) {
      match e {
        case List(_) => ListsExactly(e, a);
        case MapV(p) => PropsExactly(p, a.entries);
        case NodeV(n) => PropsExactly(n.props, a.node.props); NodesExactly(n, a.node);
        case RelV(r) => PropsExactly(r.props, a.rel.props); RelsExactly(r, a.rel);
        case PathV(p) => PathsExactly(p, a.path);
        case _ =>
      }
    }
  }

  lemma {:induction false} ListsExactly(e: Value, a: Value)
    requires e.List? && a.List? && Positional(e) && LoopFree(a)
    ensures ValuesMatch(e, a) <==> FormOf(e, true) == FormOf(a, false)
    decreases e, 0
  {
    var x, y := FormOf(e, true).items, FormOf(a, false).items;
    if |x| == |y| {
      forall i | 0 <= i < |x| ensures ValuesMatch(e.items[i], a.items[i]) <==> x[i] == y[i] {
        MatchExactly(e.items[i], a.items[i]);
      }
      assert x == y <==> forall i :: 0 <= i < |x| ==> x[i] == y[i];
    }
  }

  lemma SameForms(e: Props, a: Props)
    ensures PropForms(e, true) == PropForms(a, false) <==>
            e.m.Keys == a.m.Keys && forall k :: k in e.m ==> k in a.m && FormOf(e.m[k], true) == FormOf(a.m[k], false)
  {
    var x, y := PropForms(e, true), PropForms(a, false);
    assert x.Keys == e.m.Keys && y.Keys == a.m.Keys;
    assert forall k :: k in e.m ==> x[k] == FormOf(e.m[k], true);
    assert forall k :: k in a.m ==> y[k] == FormOf(a.m[k], false);
  }

  lemma {:induction false} PropsExactly(e: Props, a: Props)
    requires PositionalProps(e) && LoopFreeProps(a)
    ensures PropsMatch(e, a) <==> PropForms(e, true) == PropForms(a, false)
    decreases e, 0
  {
    SameForms(e, a);
    assert |e.m.Keys| == |e.m| && |a.m.Keys| == |a.m|;
    forall k | k in e.m && k in a.m
      ensures ValuesMatch(e.m[k], a.m[k]) <==> FormOf(e.m[k], true) == FormOf(a.m[k], false) {
      MatchExactly(e.m[k], a.m[k]);
    }
    if PropsMatch(e, a) { MatchingPropsShareKeys(e, a); }
  }

  lemma NodesExactly(e: Node, a: Node)
    requires PropsMatch(e.props, a.props) <==> PropForms(e.props, true) == PropForms(a.props, false)
    ensures NodesMatch(e, a) <==> NodeForm(e, true) == NodeForm(a, false)
  {
    assert NodeForm(e, true).labels == LabelSet(e.labels) && NodeForm(a, false).labels == LabelSet(a.labels);
  }

  lemma RelsExactly(e: Rel, a: Rel)
    requires PropsMatch(e.props, a.props) <==> PropForms(e.props, true) == PropForms(a.props, false)
    ensures RelsMatch(e, a) <==> RelForm(e, true) == RelForm(a, false)
  {
  }

  lemma HeadingsExactly(e: Path, a: Path, i: nat)
    requires PositionalPath(e) && i < |e.rels| == |a.rels| && |e.nodes| == |a.nodes|
    requires a.rels[i].start != a.rels[i].end
    ensures SameDirection(e, a, i) <==> HeadingOf(e, i) == HeadingOf(a, i)
  {
    PositionsDiffer(i);
    assert e.nodes[i].id == Position(i) && e.nodes[i + 1].id == Position(i + 1);
  }

  lemma {:induction false} PathsExactly(e: Path, a: Path)
    requires Positional(PathV(e)) && LoopFree(PathV(a))
    ensures PathsMatch(e, a) <==> PathForm(e, true) == PathForm(a, false)
    decreases e, 0
  {
    assert |NodeForms(e, true)| == |e.nodes| && |RelForms(e, true)| == |e.rels|;
    assert |NodeForms(a, false)| == |a.nodes| && |RelForms(a, false)| == |a.rels|;
    if |e.nodes| == |a.nodes| && |e.rels| == |a.rels| {
      forall i | 0 <= i < |e.nodes|
        ensures NodesMatch(e.nodes[i], a.nodes[i]) <==> NodeForm(e.nodes[i], true) == NodeForm(a.nodes[i], false) {
        PropsExactly(e.nodes[i].props, a.nodes[i].props);
        NodesExactly(e.nodes[i], a.nodes[i]);
      }
      forall i | 0 <= i < |e.rels|
        ensures RelsMatch(e.rels[i], a.rels[i]) <==> RelForm(e.rels[i], true) == RelForm(a.rels[i], false)
        ensures SameDirection(e, a, i) <==> HeadingOf(e, i) == HeadingOf(a, i)
      {
        PropsExactly(e.rels[i].props, a.rels[i].props);
        RelsExactly(e.rels[i], a.rels[i]);
        HeadingsExactly(e, a, i);
      }
      SameNodeForms(e, a);
      SameRelForms(e, a);
      SameHeadings(e, a);
    }
  }

  lemma SameNodeForms(e: Path, a: Path)
    requires |e.nodes| == |a.nodes|
    ensures NodeForms(e, true) == NodeForms(a, false) <==>
            forall i :: 0 <= i < |e.nodes| ==> NodeForm(e.nodes[i], true) == NodeForm(a.nodes[i], false)
  {
    var x, y := NodeForms(e, true), NodeForms(a, false);
    assert forall i :: 0 <= i < |e.nodes| ==> x[i] == NodeForm(e.nodes[i], true) && y[i] == NodeForm(a.nodes[i], false);
  }

  lemma SameRelForms(e: Path, a: Path)
    requires |e.rels| == |a.rels|
    ensures RelForms(e, true) == RelForms(a, false) <==>
            forall i :: 0 <= i < |e.rels| ==> RelForm(e.rels[i], true) == RelForm(a.rels[i], false)
  {
    var x, y := RelForms(e, true), RelForms(a, false);
    assert forall i :: 0 <= i < |e.rels| ==> x[i] == RelForm(e.rels[i], true) && y[i] == RelForm(a.rels[i], false);
  }

  lemma SameHeadings(e: Path, a: Path)
    requires |e.rels| == |a.rels|
    ensures Headings(e) == Headings(a) <==> forall i :: 0 <= i < |e.rels| ==> HeadingOf(e, i) == HeadingOf(a, i)
  {
    var x, y := Headings(e), Headings(a);
    assert forall i :: 0 <= i < |e.rels| ==> x[i] == HeadingOf(e, i) && y[i] == HeadingOf(a, i);
  }

  function RowForm(r: Row, expected: bool): seq<Form> {
    seq(|r|, i requires 0 <= i < |r| => FormOf(r[i], expected))
  }

  lemma RowsExactly(e: Row, a: Row)
    requires PositionalRow(e) && LoopFreeRow(a)
    ensures RowsMatch(e, a) <==> RowForm(e, true) == RowForm(a, false)
  {
    var x, y := RowForm(e, true), RowForm(a, false);
    if |e| == |a| {
      forall i | 0 <= i < |e| ensures ValuesMatch(e[i], a[i]) <==> x[i] == y[i] { MatchExactly(e[i], a[i]); }
      assert x == y <==> forall i :: 0 <= i < |x| ==> x[i] == y[i];
    }
  }

  function RowForms(rows: seq<Row>, expected: bool): seq<seq<Form>> {
    seq(|rows|, i requires 0 <= i < |rows| => RowForm(rows[i], expected))
  }

  ghost predicate Comparable(es: seq<Row>, rs: seq<Row>) {
    && (forall i :: 0 <= i < |es| ==> PositionalRow(es[i]))
    && (forall i :: 0 <= i < |rs| ==> LoopFreeRow(rs[i]))
  }

  lemma TakeOut<T>(s: seq<T>, p: nat)
    requires p < |s|
    ensures multiset(s) == multiset(Without(s, p)) + multiset{s[p]}
  {
    assert s == s[..p] + [s[p]] + s[p + 1..];
  }

  lemma FormsWithout(rs: seq<Row>, p: nat)
    requires p < |rs|
    ensures RowForms(Without(rs, p), false) == Without(RowForms(rs, false), p)
  {
  }

  /** Greedy consumption compares the rows as multisets of forms. */
  lemma {:induction false} GreedyExactly(es: seq<Row>, rs: seq<Row>)
    requires |es| == |rs| && Comparable(es, rs)
    ensures Greedy(es, rs) <==> multiset(RowForms(es, true)) == multiset(RowForms(rs, false))
    decreases |es|
  {
    if es == [] {
      assert RowForms(es, true) == [] && RowForms(rs, false) == [];
    } else {
      match FirstMatch(es[0], rs) {
        case None => NowhereFound(es, rs);
        case Some(p) =>
          GreedyExactly(es[1..], Without(rs, p));
          TakenTogether(es, rs, p);
      }
    }
  }

  /** Taking a matching pair out of both sides keeps the verdict on the multisets. */
  lemma TakenTogether(es: seq<Row>, rs: seq<Row>, p: nat)
    requires es != [] && p < |rs| && PositionalRow(es[0]) && LoopFreeRow(rs[p]) && RowsMatch(es[0], rs[p])
    ensures multiset(RowForms(es, true)) == multiset(RowForms(rs, false)) <==>
            multiset(RowForms(es[1..], true)) == multiset(RowForms(Without(rs, p), false))
  {
    var x, y := RowForms(es, true), RowForms(rs, false);
    RowsExactly(es[0], rs[p]);
    assert x[0] == y[p];
    TakeOut(x, 0);
    assert Without(x, 0) == RowForms(es[1..], true);
    TakeOut(y, p);
    FormsWithout(rs, p);
    Cancel(multiset(Without(x, 0)), multiset(Without(y, p)), x[0]);
  }

  lemma Cancel<T>(a: multiset<T>, b: multiset<T>, x: T)
    ensures a + multiset{x} == b + multiset{x} <==> a == b
  {
    assert (a + multiset{x}) - multiset{x} == a && (b + multiset{x}) - multiset{x} == b;
  }

  lemma NowhereFound(es: seq<Row>, rs: seq<Row>)
    requires es != [] && Comparable(es, rs) && FirstMatch(es[0], rs).None?
    ensures multiset(RowForms(es, true)) != multiset(RowForms(rs, false))
  {
    var x, y := RowForms(es, true), RowForms(rs, false);
    forall i | 0 <= i < |y| ensures y[i] != x[0] { RowsExactly(es[0], rs[i]); }
    assert x[0] in multiset(x) && x[0] !in multiset(y);
  }

  // ----- compare -----

  datatype Table = Table(columns: seq<string>, rows: seq<Row>)

  datatype Verdict =
    | Matches
    | ColumnsDiffer
    | RowCountDiffers
    | RowDiffers(index: nat)
    | RowNotFound(want: Row)

  method Compare(expected: Table, ordered: bool, actual: Table) returns (v: Verdict)
    ensures v == ColumnsDiffer <==> expected.columns != actual.columns
    ensures v == RowCountDiffers <==> expected.columns == actual.columns && |expected.rows| != |actual.rows|
    ensures v == Matches <==>
            && expected.columns == actual.columns && |expected.rows| == |actual.rows|
            && if ordered then forall i :: 0 <= i < |expected.rows| ==> RowsMatch(expected.rows[i], actual.rows[i])
               else Greedy(expected.rows, actual.rows)
    ensures Comparable(expected.rows, actual.rows) ==>
              (v == Matches <==>
               && expected.columns == actual.columns && |expected.rows| == |actual.rows|
               && var x, y := RowForms(expected.rows, true), RowForms(actual.rows, false);
                  if ordered then x == y else multiset(x) == multiset(y))
  {
    if Comparable(expected.rows, actual.rows) && |expected.rows| == |actual.rows| {
      PassExactly(expected, ordered, actual);
    }
    if expected.columns != actual.columns { return ColumnsDiffer; }
    if |expected.rows| != |actual.rows| { return RowCountDiffers; }
    if ordered {
      for i := 0 to |expected.rows|
        invariant forall k :: 0 <= k < i ==> RowsMatch(expected.rows[k], actual.rows[k])
      {
        if !RowsMatch(expected.rows[i], actual.rows[i]) { return RowDiffers(i); }
      }
      return Matches;
    }
    var remaining := actual.rows;
    for i := 0 to |expected.rows|
      invariant Greedy(expected.rows, actual.rows) == Greedy(expected.rows[i..], remaining)
    {
      var want := expected.rows[i];
      assert expected.rows[i..][0] == want && expected.rows[i..][1..] == expected.rows[i + 1..];
      var found := FirstMatch(want, remaining);
      if found.None? { return RowNotFound(want); }
      remaining := Without(remaining, found.value);
    }
    return Matches;
  }

  /** An unordered pass exhibits a perfect matching, and on loop-free actual rows every perfect matching
      is found: greedy choice never produces a false failure. */
  lemma UnorderedPassIsPerfectMatching(es: seq<Row>, rs: seq<Row>)
    requires |es| == |rs|
    requires forall i :: 0 <= i < |es| ==> PositionalRow(es[i])
    ensures Greedy(es, rs) ==> exists g :: Perfect(es, rs, g)
    ensures (forall i :: 0 <= i < |rs| ==> LoopFreeRow(rs[i]))
            ==> (Greedy(es, rs) <==> exists g :: Perfect(es, rs, g))
  {
    if Greedy(es, rs) { var g := GreedyIsPerfect(es, rs); }
    if (exists g :: Perfect(es, rs, g)) && forall i :: 0 <= i < |rs| ==> LoopFreeRow(rs[i]) {
      var g :| Perfect(es, rs, g);
      PerfectIsGreedy(es, rs, g);
    }
  }

  /** Which tables pass, without the matching: the same columns, and the same forms, row by row or as multisets. */
  lemma PassExactly(expected: Table, ordered: bool, actual: Table)
    requires Comparable(expected.rows, actual.rows) && |expected.rows| == |actual.rows|
    ensures (if ordered then forall i :: 0 <= i < |expected.rows| ==> RowsMatch(expected.rows[i], actual.rows[i])
             else Greedy(expected.rows, actual.rows)) <==>
            var x, y := RowForms(expected.rows, true), RowForms(actual.rows, false);
            if ordered then x == y else multiset(x) == multiset(y)
  {
    var x, y := RowForms(expected.rows, true), RowForms(actual.rows, false);
    forall i | 0 <= i < |x| ensures RowsMatch(expected.rows[i], actual.rows[i]) <==> x[i] == y[i] {
      RowsExactly(expected.rows[i], actual.rows[i]);
    }
    assert x == y <==> forall i :: 0 <= i < |x| ==> x[i] == y[i];
    GreedyExactly(expected.rows, actual.rows);
  }

  // ----- the expected side is positional; a self-loop defeats the greedy choice -----

  datatype Opening = LeftArrow | Dash
  datatype Closing = RightArrow | PlainDash | Neither

  /** One step of path notation: `opening [rel] closing (node)`. */
  datatype Step = Step(opening: Opening, rel: Rel, closing: Closing, node: Node)

  datatype PathError = UnsupportedNotation | MalformedCell

  /** `p` is the path of the first `k` steps: the cell's own nodes and relationships, under positional ids, each
      relationship pointing the way its notation says. */
  ghost predicate Built(start: Node, steps: seq<Step>, k: nat, p: Path) {
    && k <= |steps| && |p.rels| == k && |p.nodes| == k + 1 && p.nodes[0] == start.(id := Position(0))
    && forall i :: 0 <= i < k ==>
         Oriented(steps[i]) && p.nodes[i + 1] == steps[i].node.(id := Position(i + 1))
             && p.rels[i] == Aligned(steps[i], i)
  }

  /** The relationship of a step between positions `i` and `i + 1`. */
  function Aligned(s: Step, i: nat): Rel {
    if s.opening.LeftArrow? then s.rel.(start := Position(i + 1), end := Position(i))
    else s.rel.(start := Position(i), end := Position(i + 1))
  }

  /** The first step that is not oriented, and the error it gives. */
  ghost predicate Refused(steps: seq<Step>, k: nat, e: PathError) {
    && k < |steps| && !Oriented(steps[k]) && (forall i :: 0 <= i < k ==> Oriented(steps[i]))
    && e == if steps[k].opening.Dash? && steps[k].closing.PlainDash? then UnsupportedNotation else MalformedCell
  }

  method BuildPath(start: Node, steps: seq<Step>) returns (r: Result<Path, PathError>)
    ensures r.Ok? ==> Built(start, steps, |steps|, r.value)
    ensures r.Err? ==> exists k :: Refused(steps, k, r.error)
  {
    var nodes, rels := [start.(id := Position(0))], [];
    for k := 0 to |steps|
      invariant Built(start, steps, k, Path(nodes, rels))
    {
      var s := steps[k];
      if !Oriented(s) {
        var e := if s.opening.Dash? && s.closing.PlainDash? then UnsupportedNotation else MalformedCell;
        assert Refused(steps, k, e);
        return Err(e);
      }
      var here, there := Position(|nodes| - 1), Position(|nodes|);
      var rel := if s.opening.LeftArrow? then s.rel.(start := there, end := here)
                 else s.rel.(start := here, end := there);
      nodes := nodes + [s.node.(id := there)];
      rels := rels + [rel];
    }
    return Ok(Path(nodes, rels));
  }

  /** A built path is positional, whole value included when its parts are, so the exchange applies to it. */
  lemma BuiltIsPositional(start: Node, steps: seq<Step>, p: Path)
    requires Built(start, steps, |steps|, p)
    ensures PositionalPath(p)
    ensures PositionalProps(start.props) &&
            (forall i :: 0 <= i < |steps| ==>
               PositionalProps(steps[i].node.props) && PositionalProps(steps[i].rel.props)) ==>
              Positional(PathV(p))
  {
    forall i | 0 <= i < |p.nodes| ensures p.nodes[i].id == Position(i)
        && p.nodes[i].props == (if i == 0 then start else steps[i - 1].node).props {
      if i > 0 { assert p.nodes[i - 1 + 1] == steps[i - 1].node.(id := Position(i - 1 + 1)); }
    }
  }

  /** Exactly one arrowhead. */
  predicate Oriented(s: Step) {
    (s.opening.LeftArrow? && s.closing.PlainDash?) || (s.opening.Dash? && s.closing.RightArrow?)
  }

  function Bare(id: Id): Node { Node(id, [], Props(map[])) }
  function Hop(start: Id, end: Id): Rel { Rel("", "T", start, end, Props(map[])) }

  function OneHop(a: Id, b: Id, start: Id, end: Id): Row {
    [PathV(Path([Bare(a), Bare(b)], [Hop(start, end)]))]
  }

  lemma SmallPositions()
    ensures Position(0) == "#0" && Position(1) == "#1"
  {
    assert Decimal(0) == "0" && Decimal(1) == "1";
  }

  lemma HopsArePositional()
    ensures PositionalRow(OneHop("#0", "#1", "#0", "#1")) && PositionalRow(OneHop("#0", "#1", "#1", "#0"))
  {
    SmallPositions();
    var p, q := Path([Bare("#0"), Bare("#1")], [Hop("#0", "#1")]), Path([Bare("#0"), Bare("#1")], [Hop("#1", "#0")]);
    assert PositionalPath(p) && PositionalPath(q);
    assert Positional(PathV(p)) && Positional(PathV(q));
  }

  lemma GreedyPair(e: Row, f: Row, a: Row, b: Row)
    requires RowsMatch(e, a) && !RowsMatch(f, b)
    ensures !Greedy([e, f], [a, b])
  {
    assert FirstMatch(e, [a, b]) == Some(0);
    assert [e, f][1..] == [f] && Without([a, b], 0) == [b];
    assert [b][1..] == [];
    assert FirstMatch(f, [b]).None?;
  }

  /** The self-loop matches both directions, so taking it first strands the other row. */
  lemma SelfLoopFalseFailure()
    ensures var es := [OneHop("#0", "#1", "#0", "#1"), OneHop("#0", "#1", "#1", "#0")];
            var rs := [OneHop("x", "x", "x", "x"), OneHop("x", "y", "x", "y")];
            && PositionalRow(es[0]) && PositionalRow(es[1])
            && Perfect(es, rs, [1, 0]) && !Greedy(es, rs)
  {
    HopsArePositional();
    HopsMatch("#0", "#1", "#0", "#1", "x", "x", "x", "x");
    HopsMatch("#0", "#1", "#0", "#1", "x", "y", "x", "y");
    HopsMatch("#0", "#1", "#1", "#0", "x", "x", "x", "x");
    HopsMatch("#0", "#1", "#1", "#0", "x", "y", "x", "y");
    GreedyPair(OneHop("#0", "#1", "#0", "#1"), OneHop("#0", "#1", "#1", "#0"), OneHop("x", "x", "x", "x"),
        OneHop("x", "y", "x", "y"));
  }

  lemma HopsMatch(a: Id, b: Id, s: Id, t: Id, x: Id, y: Id, u: Id, v: Id)
    ensures RowsMatch(OneHop(a, b, s, t), OneHop(x, y, u, v)) <==>
            (a == s && b == t && x == u && y == v) || (b == s && a == t && y == u && x == v)
  {
    var e := Path([Bare(a), Bare(b)], [Hop(s, t)]);
    var r := Path([Bare(x), Bare(y)], [Hop(u, v)]);
    assert OneHop(a, b, s, t)[0] == PathV(e) && OneHop(x, y, u, v)[0] == PathV(r);
    assert PropsMatch(Props(map[]), Props(map[]));
    assert NodesMatch(e.nodes[0], r.nodes[0]) && NodesMatch(e.nodes[1], r.nodes[1]);
    assert RelsMatch(e.rels[0], r.rels[0]);
    assert PathsMatch(e, r) <==> SameDirection(e, r, 0);
    assert ValuesMatch(PathV(e), PathV(r)) <==> PathsMatch(e, r);
  }
}
