/** The iterative walks over the AST (crates/acetone-cypher/src/ast.rs): each worklist loop against the
    obvious recursion. The stack's end is its top. */
module AstWalk {
  import opened Syntax

  /** Nesting depth: a leaf is one. */
  function Depth(e: Expr): (d: nat)
    ensures d >= 1
    decreases e
  {
    1 + match e
        case Prop(b, _) => Depth(b)
        case Unary(_, x) => Depth(x)
        case Binary(_, l, r) => Max(Depth(l), Depth(r))
        case IsNull(x, _) => Depth(x)
        case ListLit(items) => Deepest(items)
        case Index(b, i) => Max(Depth(b), Depth(i))
        case _ => 0
  }

  function Deepest(es: seq<Expr>): nat
    decreases es
  {
    if es == [] then 0 else Max(Deepest(es[..|es| - 1]), Depth(es[|es| - 1]))
  }

  lemma {:induction false} DeepestAppend(es: seq<Expr>, fs: seq<Expr>)
    ensures Deepest(es + fs) == Max(Deepest(es), Deepest(fs))
    decreases |fs|
  {
    if fs == [] {
      assert es + fs == es;
    } else {
      assert (es + fs)[..|es + fs| - 1] == es + fs[..|fs| - 1];
      DeepestAppend(es, fs[..|fs| - 1]);
    }
  }

  lemma {:induction false} SizesAppend(es: seq<Expr>, fs: seq<Expr>)
    ensures Sizes(es + fs) == Sizes(es) + Sizes(fs)
    decreases |fs|
  {
    if fs == [] {
      assert es + fs == es;
    } else {
      assert (es + fs)[..|es + fs| - 1] == es + fs[..|fs| - 1];
      SizesAppend(es, fs[..|fs| - 1]);
    }
  }

  lemma DepthOfChildren(e: Expr)
    ensures Depth(e) == 1 + Deepest(Children(e))
  {
    match e
    case Binary(_, l, r) => DeepestPair(l, r);
    case Index(b, i) => DeepestPair(b, i);
    case Prop(b, _) => DeepestOne(b);
    case Unary(_, x) => DeepestOne(x);
    case IsNull(x, _) => DeepestOne(x);
    case _ =>
  }

  lemma DeepestOne(x: Expr)
    ensures Deepest([x]) == Depth(x)
  {
    assert [x][..0] == [];
  }

  lemma DeepestPair(x: Expr, y: Expr)
    ensures Deepest([x, y]) == Max(Depth(x), Depth(y))
  {
    assert [x, y][..1] == [x];
    DeepestOne(x);
  }

  lemma SizeOfChildren(e: Expr)
    ensures Size(e) == OwnSize(e) + Sizes(Children(e))
  {
    match e
    case Binary(_, l, r) => SizesPair(l, r);
    case Index(b, i) => SizesPair(b, i);
    case Prop(b, _) => SizesOne(b);
    case Unary(_, x) => SizesOne(x);
    case IsNull(x, _) => SizesOne(x);
    case _ =>
  }

  lemma SizesPair(x: Expr, y: Expr)
    ensures Sizes([x, y]) == Size(x) + Size(y)
  {
    assert [x, y][..1] == [x];
    SizesOne(x);
  }

  /** `allocated_size`. */
  method AllocatedSize(e: Expr) returns (n: nat)
    ensures n == Size(e)
  {
    var stack := [e];
    SizesOne(e);
    n := 0;
    while stack != []
      invariant n + Sizes(stack) == Size(e)
      decreases Sizes(stack)
    {
      var top := stack[|stack| - 1];
      stack := stack[..|stack| - 1];
      SizeOfChildren(top);
      SizesAppend(stack, Children(top));
      n := n + OwnSize(top);
      stack := stack + Children(top);
    }
  }

  /** A worklist entry: an expression and the depth it sits at. */
  datatype Item = Item(e: Expr, depth: nat)

  function At(es: seq<Expr>, depth: nat): seq<Item> {
    if es == [] then [] else At(es[..|es| - 1], depth) + [Item(es[|es| - 1], depth)]
  }

  /** The deepest level any entry reaches. */
  function Reach(items: seq<Item>): nat {
    if items == [] then 0 else Max(Reach(items[..|items| - 1]), Level(items[|items| - 1]))
  }

  function Level(x: Item): nat { x.depth + Depth(x.e) - 1 }

  function Pending(items: seq<Item>): nat {
    if items == [] then 0 else Pending(items[..|items| - 1]) + Size(items[|items| - 1].e)
  }

  lemma PushOne(items: seq<Item>, x: Item)
    ensures Reach(items + [x]) == Max(Reach(items), Level(x))
    ensures Pending(items + [x]) == Pending(items) + Size(x.e)
  {
    assert (items + [x])[..|items|] == items;
  }

  /** How far a node reaches whose children sit at `depth`; nothing if it has none. */
  function ChildReach(es: seq<Expr>, depth: nat): nat
    requires depth > 0
  {
    if es == [] then 0 else depth + Deepest(es) - 1
  }

  lemma {:induction false} PushChildren(items: seq<Item>, es: seq<Expr>, depth: nat)
    requires depth > 0
    ensures Reach(items + At(es, depth)) == Max(Reach(items), ChildReach(es, depth))
    ensures Pending(items + At(es, depth)) == Pending(items) + Sizes(es)
    decreases |es|
  {
    if es == [] {
      assert items + At(es, depth) == items;
    } else {
      var front, x := es[..|es| - 1], Item(es[|es| - 1], depth);
      PushChildren(items, front, depth);
      PushOne(items + At(front, depth), x);
      assert items + At(es, depth) == (items + At(front, depth)) + [x];
    }
  }

  lemma PopAndPush(items: seq<Item>, max: nat)
    requires items != []
    ensures var rest, x := items[..|items| - 1], items[|items| - 1];
            var next := rest + At(Children(x.e), x.depth + 1);
            && Max(Max(max, x.depth), Reach(next)) == Max(max, Reach(items))
            && Pending(next) < Pending(items)
  {
    var rest, x := items[..|items| - 1], items[|items| - 1];
    DepthOfChildren(x.e);
    SizeOfChildren(x.e);
    PushChildren(rest, Children(x.e), x.depth + 1);
    assert Reach(items) == Max(Reach(rest), Level(x));
    assert Level(x) == Max(x.depth, ChildReach(Children(x.e), x.depth + 1));
  }

  /** The depth measurement `parse` and `parse_literal` apply, from any roots. */
  method MeasureDepth(roots: seq<Expr>) returns (max: nat)
    ensures max == Deepest(roots)
  {
    max := 0;
    var stack := At(roots, 1);
    assert stack == [] + At(roots, 1);
    PushChildren([], roots, 1);
    while stack != []
      invariant Max(max, Reach(stack)) == Deepest(roots)
      decreases Pending(stack)
    {
      PopAndPush(stack, max);
      var top := stack[|stack| - 1];
      stack := stack[..|stack| - 1];
      max := Max(max, top.depth);
      stack := stack + At(Children(top.e), top.depth + 1);
    }
  }

  // ----- teardown -----

  const PLACEHOLDER := Lit(LNull)

  /** What `take_children` leaves behind: boxed children become placeholders, child lists become empty. */
  function Emptied(e: Expr): Expr {
    match e
    case Prop(_, k) => Prop(PLACEHOLDER, k)
    case Unary(op, _) => Unary(op, PLACEHOLDER)
    case Binary(op, _, _) => Binary(op, PLACEHOLDER, PLACEHOLDER)
    case IsNull(_, n) => IsNull(PLACEHOLDER, n)
    case ListLit(_) => ListLit([])
    case Index(_, _) => Index(PLACEHOLDER, PLACEHOLDER)
    case _ => e
  }

  /** All nodes of a tree, as a multiset of subtrees. */
  function Nodes(e: Expr): multiset<Expr>
    decreases Size(e), 0
  {
    SizeOfChildren(e);
    multiset{e} + AllNodes(Children(e))
  }

  function AllNodes(es: seq<Expr>): multiset<Expr>
    decreases Sizes(es), 1
  {
    if es == [] then multiset{} else
      assert Size(es[|es| - 1]) >= 1;
      AllNodes(es[..|es| - 1]) + Nodes(es[|es| - 1])
  }

  lemma {:induction false} AllNodesAppend(es: seq<Expr>, fs: seq<Expr>)
    ensures AllNodes(es + fs) == AllNodes(es) + AllNodes(fs)
    decreases |fs|
  {
    if fs == [] {
      assert es + fs == es;
    } else {
      assert (es + fs)[..|es + fs| - 1] == es + fs[..|fs| - 1];
      AllNodesAppend(es, fs[..|fs| - 1]);
    }
  }

  /** An emptied node hides at most placeholders: its own drop recurses no further than one leaf. */
  lemma EmptiedIsShallow(e: Expr)
    ensures forall x :: x in Children(Emptied(e)) ==> x == PLACEHOLDER
    ensures Depth(Emptied(e)) <= 2
  {
    DepthOfChildren(Emptied(e));
    match Emptied(e)
    case Binary(_, l, r) => DeepestPair(l, r);
    case Index(b, i) => DeepestPair(b, i);
    case Prop(b, _) => DeepestOne(b);
    case Unary(_, x) => DeepestOne(x);
    case IsNull(x, _) => DeepestOne(x);
    case _ =>
  }

  /** `take_box`: move a child out and leave a placeholder. */
  method TakeBox(boxed: Expr, out: seq<Expr>) returns (left: Expr, out': seq<Expr>)
    ensures left == PLACEHOLDER && out' == out + [boxed]
  {
    left, out' := PLACEHOLDER, out + [boxed];
  }

  /** `take_children` moves out exactly what `children` lists, in the same order. */
  method TakeChildren(e: Expr, out: seq<Expr>) returns (left: Expr, out': seq<Expr>)
    ensures left == Emptied(e) && out' == out + Children(e)
  {
    left, out' := e, out;
    match e {
      case Prop(b, key) => var x; x, out' := TakeBox(b, out'); left := Prop(x, key);
      case Unary(op, x) => var y; y, out' := TakeBox(x, out'); left := Unary(op, y);
      case Binary(op, l, r) =>
        var x, y;
        x, out' := TakeBox(l, out');
        y, out' := TakeBox(r, out');
        left := Binary(op, x, y);
      case IsNull(x, negated) => var y; y, out' := TakeBox(x, out'); left := IsNull(y, negated);
      case ListLit(items) => left, out' := ListLit([]), out' + items;
      case Index(b, i) =>
        var x, y;
        x, out' := TakeBox(b, out');
        y, out' := TakeBox(i, out');
        left := Index(x, y);
      case _ =>
    }
  }

  lemma DropOne(es: seq<Expr>)
    requires es != []
    ensures var rest, top := es[..|es| - 1], es[|es| - 1];
            && AllNodes(es) == multiset{top} + AllNodes(rest + Children(top))
            && Sizes(rest + Children(top)) < Sizes(es)
  {
    var rest, top := es[..|es| - 1], es[|es| - 1];
    SizeOfChildren(top);
    SizesAppend(rest, Children(top));
    AllNodesAppend(rest, Children(top));
    assert Nodes(top) == multiset{top} + AllNodes(Children(top));
  }

  /** Each torn-down node is left a husk whose own drop goes no deeper than one placeholder. */
  ghost predicate Husks(dropped: seq<Expr>, husks: seq<Expr>) {
    |husks| == |dropped| && forall i :: 0 <= i < |husks| ==> husks[i] == Emptied(dropped[i]) && Depth(husks[i]) <= 2
  }

  lemma HusksSnoc(dropped: seq<Expr>, husks: seq<Expr>, x: Expr)
    requires Husks(dropped, husks)
    ensures Husks(dropped + [x], husks + [Emptied(x)])
  {
    EmptiedIsShallow(x);
  }

  /** Dropped and pending nodes together are the tree. */
  ghost predicate Torn(e: Expr, dropped: seq<Expr>, stack: seq<Expr>) {
    multiset(dropped) + AllNodes(stack) == Nodes(e)
  }

  lemma TearOne(e: Expr, dropped: seq<Expr>, stack: seq<Expr>)
    requires Torn(e, dropped, stack) && stack != []
    ensures var rest, top := stack[..|stack| - 1], stack[|stack| - 1];
            Torn(e, dropped + [top], rest + Children(top)) && Sizes(rest + Children(top)) < Sizes(stack)
  {
    DropOne(stack);
  }

  lemma TearRoot(e: Expr)
    ensures Torn(e, [e], [] + Children(e)) && Husks([e], [Emptied(e)])
  {
    assert [] + Children(e) == Children(e);
    EmptiedIsShallow(e);
  }

  /** `Drop for Expr`: the nodes torn down, in order, and what is left of each. Every node is emptied exactly once. */
  method Teardown(e: Expr) returns (dropped: seq<Expr>, husks: seq<Expr>)
    ensures multiset(dropped) == Nodes(e) && Husks(dropped, husks)
  {
    TearRoot(e);
    var husk, stack := TakeChildren(e, []);
    dropped, husks := [e], [husk];
    while stack != []
      invariant Torn(e, dropped, stack) && Husks(dropped, husks)
      decreases Sizes(stack)
    {
      TearOne(e, dropped, stack);
      var top := stack[|stack| - 1];
      HusksSnoc(dropped, husks, top);
      husk, stack := TakeChildren(top, stack[..|stack| - 1]);
      dropped, husks := dropped + [top], husks + [husk];
    }
  }
}
