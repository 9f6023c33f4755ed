/** Two statements on which the index and the scan disagree (crates/acetone-cypher/src/persist.rs,
    crates/acetone-graph/src/index.rs). */
module UniqueLimits {
  import opened Wrappers
  import opened Values
  import opened Floats
  import opened Replay
  import opened Conservation
  import opened Uniqueness

  /** Label `L`, keyed on `id`, with UNIQUE `tag`; label `M` is keyed on `id` too. */
  function Schema(indexed: bool): Catalogue {
    Catalogue(map["L" := LabelDef(["id"], [], [], ["tag"]), "M" := LabelDef(["id"], [], [], [])], map[],
              if indexed then [IndexDef("tags", "L", ["tag"])] else [])
  }

  /** One stored node that holds `v`. */
  function Stored(k: NodeKey, secondary: set<string>, v: Value): Graph {
    Graph(map[k := NodeRecord(secondary, map["tag" := v])], map[], {"tags"})
  }

  /** `CREATE (:L {id: 2, tag: v})`. */
  function Create(v: Value): Changes {
    Changes([NodeValue(Overlay(0), ["L"], map["id" := RInt(2), "tag" := Expose(v, 0)])], [], [], [], [])
  }

  const NEW_KEY := NodeKey("L", [Int(2)])

  function Outcome(indexed: bool, k: NodeKey, secondary: set<string>, v: Value): Result<Plan, Error> {
    MakePlan(Create(v), Schema(indexed), Stored(k, secondary, v))
  }

  lemma NewProperties(v: Value)
    requires Storable(v)
    ensures var props := Create(v).upserted[0].properties;
            && "id" != "tag" && props.Keys == {"id", "tag"} && Convert(props["id"], 0) == Some(Int(2))
               && Convert(props["tag"], 0) == Some(v)
  {
    WriteBackIsLossless(v, 0);
    assert |"id"| != |"tag"|;
  }

  lemma CreatedKeyed(indexed: bool, v: Value)
    requires Storable(v)
    ensures KeyAndRecord(Create(v).upserted[0], Schema(indexed)) == Ok(Entry(NEW_KEY, NodeRecord({}, map["tag" := v])))
  {
    NewProperties(v);
    var node, cat := Create(v).upserted[0], Schema(indexed);
    assert KeyedLabels(["L"][1..], cat) == [];
    assert KeyedLabels(["L"], cat) == ["L"];
    assert KeyValues(["id"], node.properties, 0) == Ok([]);
    assert [] + [Int(2)] == [Int(2)];
    assert KeyValues(["id"], node.properties, 1) == Ok([Int(2)]);
    assert NormAll([Int(2)]) == [Int(2)];
    assert (set l | l in node.labels && l != "L") == {};
    assert ConvertMap(node.properties, ["id"]).Some?;
    assert ConvertMap(node.properties, ["id"]).value == map["tag" := v];
  }

  lemma WishIsTag(v: Value)
    requires Storable(v)
    ensures Wishes(["tag"], Create(v).upserted[0].properties) == Ok([Wish("tag", v)])
  {
    NewProperties(v);
    assert ["tag"][..0] == [] && [] + [Wish("tag", v)] == [Wish("tag", v)];
    assert Wishes([], Create(v).upserted[0].properties) == Ok([]);
  }

  lemma OneNode(indexed: bool, k: NodeKey, secondary: set<string>, v: Value)
    requires Storable(v) && k != NEW_KEY
    ensures var ks := [Entry(NEW_KEY, NodeRecord({}, map["tag" := v]))];
            KeyNodes(Create(v), Schema(indexed), Stored(k, secondary, v), 1) == Ok(ks) && AllStorable(ks)
                && KeysOf(ks) == {NEW_KEY}
  {
    CreatedKeyed(indexed, v);
    var ks := [Entry(NEW_KEY, NodeRecord({}, map["tag" := v]))];
    assert KeyNodes(Create(v), Schema(indexed), Stored(k, secondary, v), 0) == Ok([]);
    assert [] + ks == ks;
  }

  /** The outcome turns on the stored check alone. */
  lemma Decided(indexed: bool, k: NodeKey, secondary: set<string>, v: Value)
    requires Storable(v) && k != NEW_KEY
    ensures var ks := [Entry(NEW_KEY, NodeRecord({}, map["tag" := v]))];
            var x := ContextOf(Create(v), Schema(indexed), Stored(k, secondary, v), ks);
            Outcome(indexed, k, secondary, v) ==
              if Blocked(x, NEW_KEY, "tag", v) then Err(UniqueViolation("L", "tag")) else Ok(Plan(ks, [], [], [], []))
  {
    OneNode(indexed, k, secondary, v);
    var ks := [Entry(NEW_KEY, NodeRecord({}, map["tag" := v]))];
    var x := ContextOf(Create(v), Schema(indexed), Stored(k, secondary, v), ks);
    OneCheck(x, v);
    assert CheckNodes(x, Create(v).upserted, ks, 0) == Ok({});
  }

  lemma OneCheck(x: Context, v: Value)
    requires Storable(v) && "L" in x.cat.labels && x.cat.labels["L"] == LabelDef(["id"], [], [], ["tag"])
    ensures CheckNode(x, Create(v).upserted[0], NEW_KEY, {}) == CheckValue(x, NEW_KEY, "tag", v, {})
  {
    WishIsTag(v);
    assert CheckWishes(x, NEW_KEY, [Wish("tag", v)], 0, {}) == Ok({});
  }

  // ----- a list nested exactly to the limit escapes the index -----

  function Nested(n: nat): Value { if n == 0 then Int(0) else List([Nested(n - 1)]) }

  lemma {:induction false} NestedFits(n: nat, depth: nat)
    ensures Fits(Nested(n), depth) <==> n + depth <= MAX_DEPTH
    ensures !HasNaN(Nested(n)) && Same(Nested(n), Nested(n))
    decreases n
  {
    if n > 0 {
      NestedFits(n - 1, depth + 1);
      assert Nested(n).items[0] == Nested(n - 1);
    }
  }

  /** Storable and claimable, but one level too deep for the index key: the probe finds nothing and the duplicate is
      admitted. */
  lemma DeepDuplicateIsAdmitted()
    ensures var v, k := Nested(MAX_DEPTH), NodeKey("L", [Int(1)]);
            && Storable(v) && Unique(Schema(true), Stored(k, {}, v).nodes)
            && Outcome(true, k, {}, v).Ok?
            && !Unique(Schema(true), After(Outcome(true, k, {}, v).value, Stored(k, {}, v)).nodes)
            && Outcome(false, k, {}, v) == Err(UniqueViolation("L", "tag"))
  {
    var v, k := Nested(MAX_DEPTH), NodeKey("L", [Int(1)]);
    NestedFits(MAX_DEPTH, 0);
    NestedFits(MAX_DEPTH, 1);
    Decided(true, k, {}, v);
    Decided(false, k, {}, v);
    ScanFinds(k, v);
    DeepClash(k, v);
  }

  lemma ScanFinds(k: NodeKey, v: Value)
    requires Storable(v) && Same(v, v) && k.primary == "L" && k != NEW_KEY
    ensures Blocked(ContextOf(Create(v), Schema(false),
        Stored(k, {}, v), [Entry(NEW_KEY, NodeRecord({}, map["tag" := v]))]), NEW_KEY, "tag", v)
  {
    var x := ContextOf(Create(v), Schema(false), Stored(k, {}, v), [Entry(NEW_KEY, NodeRecord({}, map["tag" := v]))]);
    assert k in Collisions(x, "L", "tag", v);
  }

  lemma DeepClash(k: NodeKey, v: Value)
    requires Storable(v) && !Fits(v, 1) && Same(v, v) && !v.Null? && k.primary == "L" && k != NEW_KEY
    ensures Outcome(true, k, {}, v).Ok? && Unique(Schema(true), Stored(k, {}, v).nodes)
    ensures !Unique(Schema(true), After(Outcome(true, k, {}, v).value, Stored(k, {}, v)).nodes)
  {
    Decided(true, k, {}, v);
    SingleIsUnique(true, k, {}, v);
    SchemaDeclares(true);
    var c, cat, base := Create(v), Schema(true), Stored(k, {}, v);
    var p := Outcome(true, k, {}, v).value;
    DeepIsBlind(k, v, p.nodes);
    SuccessKeepsUnique(c, cat, base, p);
  }

  lemma DeepIsBlind(k: NodeKey, v: Value, ks: seq<Keyed>)
    requires Storable(v) && !Fits(v, 1) && Same(v, v) && !v.Null? && k.primary == "L" && k != NEW_KEY
    requires ks == [Entry(NEW_KEY, NodeRecord({}, map["tag" := v]))]
    ensures BlindClash(Create(v), Schema(true), Stored(k, {}, v), ks, 0, k, "tag")
  {
  }

  lemma SingleIsUnique(indexed: bool, k: NodeKey, secondary: set<string>, v: Value)
    ensures Unique(Schema(indexed), Stored(k, secondary, v).nodes)
  {
  }

  lemma SchemaDeclares(indexed: bool)
    ensures WellDeclared(Schema(indexed))
  {
    assert |"id"| != |"tag"|;
  }

  // ----- a node that bears the label as a secondary one -----

  lemma IndexFinds(k: NodeKey, v: Value)
    requires k == NodeKey("M", [Int(1)]) && v == Int(7)
    ensures Blocked(ContextOf(Create(v), Schema(true),
        Stored(k, {"L"}, v), [Entry(NEW_KEY, NodeRecord({}, map["tag" := v]))]), NEW_KEY, "tag", v)
    ensures !Blocked(ContextOf(Create(v), Schema(false),
        Stored(k, {"L"}, v), [Entry(NEW_KEY, NodeRecord({}, map["tag" := v]))]), NEW_KEY, "tag", v)
  {
    assert |"id"| != |"tag"|;
    var ks := [Entry(NEW_KEY, NodeRecord({}, map["tag" := v]))];
    var x := ContextOf(Create(v), Schema(true), Stored(k, {"L"}, v), ks);
    assert Held(x.cat, k, x.base.nodes[k], "tag") == Some(v);
    assert k in Collisions(x, "L", "tag", v);
  }

  /** The index rejects a value held by a node of another primary label, which the scan, and the declaration over
      primary labels, admit. */
  lemma SecondaryBearerIsRejectedByIndexOnly()
    ensures var k, v := NodeKey("M", [Int(1)]), Int(7);
            && Outcome(true, k, {"L"}, v) == Err(UniqueViolation("L", "tag"))
            && Outcome(false, k, {"L"}, v).Ok?
            && Unique(Schema(false), After(Outcome(false, k, {"L"}, v).value, Stored(k, {"L"}, v)).nodes)
  {
    var k, v := NodeKey("M", [Int(1)]), Int(7);
    IndexFinds(k, v);
    Decided(true, k, {"L"}, v);
    Decided(false, k, {"L"}, v);
    SingleIsUnique(false, k, {"L"}, v);
    SchemaDeclares(false);
    ShallowValuesKeepUnique(Create(v), Schema(false), Stored(k, {"L"}, v), Outcome(false, k, {"L"}, v).value);
  }
}
