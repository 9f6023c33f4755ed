/** What each refusal of a replay means, and what its acceptance guarantees of every record
    (crates/acetone-cypher/src/persist.rs). */
module Refusals {
  import opened Wrappers
  import opened Values
  import opened Replay
  import opened Conservation

  // ----- key refusals -----

  lemma {:induction false} FailingKey(c: Changes, cat: Catalogue, base: Graph, n: nat)
      returns (i: nat, before: seq<Keyed>)
    requires n <= |c.upserted| && KeyNodes(c, cat, base, n).Err?
    ensures i < n && KeyNodes(c, cat, base, i) == Ok(before)
    ensures NextKey(c.upserted[i], c, cat, base, before) == Err(KeyNodes(c, cat, base, n).error)
    decreases n
  {
    if KeyNodes(c, cat, base, n - 1).Err? {
      i, before := FailingKey(c, cat, base, n - 1);
    } else {
      i, before := n - 1, KeyNodes(c, cat, base, n - 1).value;
    }
  }

  /** The identity an upserted node derives. */
  ghost predicate Derives(c: Changes, cat: Catalogue, i: nat, key: NodeKey) {
    i < |c.upserted| && KeyAndRecord(c.upserted[i], cat).Ok? && KeyAndRecord(c.upserted[i], cat).value.key == key
  }

  /** A key refusal is about a real collision: a created node on a stored key that is not freed, a modified node
      whose key would change, or two upserted nodes with one key. */
  lemma KeyRefusalIsReal(c: Changes, cat: Catalogue, base: Graph, e: Error) returns (i: nat, j: nat, key: NodeKey)
    requires KeyNodes(c, cat, base, |c.upserted|) == Err(e) && !OfIdentity(e)
    ensures (e == DuplicateKey || e == KeyImmutable || e == DuplicateKeyInStatement) && Derives(c, cat, i, key)
    ensures e == DuplicateKey ==> IsCreated(c.upserted[i]) && key in base.nodes && NodeId(key) !in c.deletedNodes
    ensures e == KeyImmutable ==> !IsCreated(c.upserted[i]) && c.upserted[i].id != NodeId(key)
    ensures e == DuplicateKeyInStatement ==> j < i && Derives(c, cat, j, key)
  {
    var before;
    i, before := FailingKey(c, cat, base, |c.upserted|);
    var k := KeyAndRecord(c.upserted[i], cat).value;
    key, j := k.key, 0;
    if e == DuplicateKeyInStatement {
      j := RepeatedKey(c.upserted[i], k, c, base, before);
      KeyTaken(c, cat, base, i, before, j);
    }
  }

  lemma RepeatedKey(node: NodeValue, k: Keyed, c: Changes, base: Graph, before: seq<Keyed>) returns (j: nat)
    requires Refusal(node, k.key, c, base, before) == Some(DuplicateKeyInStatement)
    ensures j < |before| && before[j].key == k.key
  {
    j :| 0 <= j < |before| && before[j].key == k.key;
  }

  // ----- duplicate relationships -----

  lemma {:induction false} CreatedKeys(rels: seq<RelValue>, ids: map<EntityId, NodeKey>, cat: Catalogue,
      stored: set<EdgeKey>, n: nat, i: nat)
    requires i < n <= |rels| && CreateEdges(rels, ids, cat, stored, n).Ok?
    ensures CreatedKey(rels[i], ids, cat) == Ok(CreateEdges(rels, ids, cat, stored, n).value[i].key)
    decreases n
  {
    if i < n - 1 { CreatedKeys(rels, ids, cat, stored, n - 1, i); }
  }

  /** A duplicate relationship really has the key of a surviving stored edge or of one created before it. */
  lemma {:induction false} DuplicateEdgeIsReal(rels: seq<RelValue>, ids: map<EntityId, NodeKey>, cat: Catalogue,
      stored: set<EdgeKey>, n: nat)
      returns (i: nat, j: int, key: EdgeKey)
    requires n <= |rels| && CreateEdges(rels, ids, cat, stored, n) == Err(DuplicateEdge)
    ensures i < n && CreatedKey(rels[i], ids, cat) == Ok(key)
    ensures if j < 0 then key in stored else j < i && CreatedKey(rels[j], ids, cat) == Ok(key)
    decreases n
  {
    if CreateEdges(rels, ids, cat, stored, n - 1).Err? {
      i, j, key := DuplicateEdgeIsReal(rels, ids, cat, stored, n - 1);
    } else {
      var before := CreateEdges(rels, ids, cat, stored, n - 1).value;
      i := n - 1;
      key := DuplicateFound(rels[i], ids, cat, stored + KeysOf(before));
      if key in stored {
        j := -1;
      } else {
        j :| 0 <= j < |before| && before[j].key == key;
        CreatedKeys(rels, ids, cat, stored, n - 1, j);
      }
    }
  }

  lemma DuplicateFound(rel: RelValue, ids: map<EntityId, NodeKey>, cat: Catalogue, existing: set<EdgeKey>)
      returns (key: EdgeKey)
    requires CreateEdge(rel, ids, cat, existing) == Err(DuplicateEdge)
    ensures CreatedKey(rel, ids, cat) == Ok(key) && key in existing
  {
    key := CreatedKey(rel, ids, cat).value;
  }

  // ----- required properties and declared types -----

  /** The node carries every required property, and no value contradicts its declared type. */
  ghost predicate Conforms(cat: Catalogue, node: NodeValue, lbl: string) {
    lbl in cat.labels ==>
      && (forall q :: q in cat.labels[lbl].required ==> q in node.properties)
      && (forall i :: 0 <= i < |cat.labels[lbl].types| ==> TypeHolds(cat.labels[lbl].types[i], node.properties))
  }

  predicate TypeHolds(declared: (string, PropertyType), props: Properties) {
    declared.0 in props ==>
      Convert(props[declared.0], 0).Some? && Matches(declared.1, Convert(props[declared.0], 0).value)
  }

  lemma {:induction false} TypesHold(types: Types, props: Properties, i: nat)
    requires TypeError(types, props) == None && i < |types|
    ensures TypeHolds(types[i], props)
    decreases |types|
  {
    var n := |types| - 1;
    if i < n {
      TypesHold(types[..n], props, i);
      assert types[..n][i] == types[i];
    }
  }

  lemma CheckedConforms(x: Context, node: NodeValue, key: NodeKey, claims: set<Claim>)
    requires CheckNode(x, node, key, claims).Ok?
    ensures Conforms(x.cat, node, key.primary)
  {
    if key.primary in x.cat.labels {
      var def := x.cat.labels[key.primary];
      forall i | 0 <= i < |def.types| ensures TypeHolds(def.types[i], node.properties) {
        TypesHold(def.types, node.properties, i);
      }
    }
  }

  lemma {:induction false} AllConform(x: Context, nodes: seq<NodeValue>, ks: seq<Keyed>, n: nat, i: nat)
    requires i < n <= |ks| == |nodes| && CheckNodes(x, nodes, ks, n).Ok?
    ensures Conforms(x.cat, nodes[i], ks[i].key.primary)
    decreases n
  {
    if i == n - 1 {
      CheckedConforms(x, nodes[i], ks[i].key, CheckNodes(x, nodes, ks, n - 1).value);
    } else {
      AllConform(x, nodes, ks, n - 1, i);
    }
  }

  /** After a successful replay every upserted node has its required properties and its declared types, and every record
      it stages can be stored. */
  lemma SuccessConforms(c: Changes, cat: Catalogue, base: Graph, p: Plan, i: nat)
    requires MakePlan(c, cat, base) == Ok(p) && i < |p.nodes|
    ensures |p.nodes| == |c.upserted| && Conforms(cat, c.upserted[i], p.nodes[i].key.primary)
    ensures RecordStorable(p.nodes[i].record.properties)
  {
    PlanParts(c, cat, base, p);
    AllConform(ContextOf(c, cat, base, p.nodes), c.upserted, p.nodes, |p.nodes|, i);
  }

  // ----- declared types -----

  /** The declared type a stored value has by itself. */
  function TypeOf(v: Value): Option<PropertyType> {
    match v
    case Null => None
    case Bool(_) => Some(PBool)
    case Int(_) => Some(PInt)
    case Flt(_) => Some(PFloat)
    case Text(_) => Some(PText)
    case Deferred(kind, _) => Some(PDeferred(kind))
    case List(_) => Some(PList)
  }

  /** Null, of that very type, or an integer where a float is declared. */
  ghost predicate Meets(t: PropertyType, v: Value) {
    v == Null || TypeOf(v) == Some(t) || (t == PFloat && TypeOf(v) == Some(PInt))
  }

  lemma MatchesExactly(t: PropertyType, v: Value)
    ensures Matches(t, v) <==> Meets(t, v)
  {
  }

  /** The relationship holds the value under the property: in its record, or in its key as the discriminator. */
  ghost predicate Carries(put: PutEdge, discriminator: Option<string>, p: string, v: Value) {
    || (p in put.record.properties && v == put.record.properties[p])
    || (discriminator == Some(p) && v == put.key.disc)
  }

  /** No value of the relationship contradicts a declared type. */
  ghost predicate RelConforms(cat: Catalogue, put: PutEdge) {
    put.key.rtype in cat.relTypes ==>
      var def := cat.relTypes[put.key.rtype];
      forall i, v :: 0 <= i < |def.types| && Carries(put, def.discriminator, def.types[i].0, v) ==>
        Meets(def.types[i].1, v)
  }

  lemma PutConforms(edge: EdgeKey, properties: map<string, Value>, cat: Catalogue)
    requires Put(edge, properties, cat).Ok?
    ensures RelConforms(cat, Put(edge, properties, cat).value)
  {
    if edge.rtype in cat.relTypes {
      var def, put := cat.relTypes[edge.rtype], Put(edge, properties, cat).value;
      forall i, v | 0 <= i < |def.types| && Carries(put, def.discriminator, def.types[i].0, v)
        ensures Meets(def.types[i].1, v) {
        MatchesExactly(def.types[i].1, v);
      }
    }
  }

  lemma {:induction false} CreatedConform(rels: seq<RelValue>, ids: map<EntityId, NodeKey>, cat: Catalogue,
      stored: set<EdgeKey>, n: nat, i: nat)
    requires i < n <= |rels| && CreateEdges(rels, ids, cat, stored, n).Ok?
    ensures RelConforms(cat, CreateEdges(rels, ids, cat, stored, n).value[i])
    decreases n
  {
    if i < n - 1 {
      CreatedConform(rels, ids, cat, stored, n - 1, i);
    } else {
      var existing := stored + KeysOf(CreateEdges(rels, ids, cat, stored, n - 1).value);
      OneCreatedConforms(rels[i], ids, cat, existing);
    }
  }

  lemma OneCreatedConforms(rel: RelValue, ids: map<EntityId, NodeKey>, cat: Catalogue, existing: set<EdgeKey>)
    requires CreateEdge(rel, ids, cat, existing).Ok?
    ensures RelConforms(cat, CreateEdge(rel, ids, cat, existing).value)
  {
    var edge := CreatedKey(rel, ids, cat).value;
    PutConforms(edge, Without(ConvertMap(rel.properties, []).value, Discriminator(cat, edge.rtype)), cat);
  }

  lemma OneModifiedConforms(rel: RelValue, ids: map<EntityId, NodeKey>, cat: Catalogue)
    requires ModifyEdge(rel, ids, cat).Ok?
    ensures RelConforms(cat, ModifyEdge(rel, ids, cat).value)
  {
    var edge := BoundKey(rel, ids).value;
    PutConforms(edge, Without(ConvertMap(rel.properties, []).value, Discriminator(cat, edge.rtype)), cat);
  }

  lemma {:induction false} ModifiedConform(rels: seq<RelValue>, ids: map<EntityId, NodeKey>, cat: Catalogue,
      n: nat, i: nat)
    requires i < n <= |rels| && ModifyEdges(rels, ids, cat, n).Ok?
    ensures RelConforms(cat, ModifyEdges(rels, ids, cat, n).value[i])
    decreases n
  {
    if i < n - 1 { ModifiedConform(rels, ids, cat, n - 1, i); } else { OneModifiedConforms(rels[i], ids, cat); }
  }

  /** After a successful replay every relationship it writes, created or modified, has its declared types. */
  lemma RelationshipsConform(c: Changes, cat: Catalogue, base: Graph, p: Plan)
    requires MakePlan(c, cat, base) == Ok(p)
    ensures forall i :: 0 <= i < |p.created| ==> RelConforms(cat, p.created[i])
    ensures forall i :: 0 <= i < |p.modified| ==> RelConforms(cat, p.modified[i])
  {
    PlanParts(c, cat, base, p);
    var ids := EntityKeys(c, p.nodes);
    forall i | 0 <= i < |p.created| ensures RelConforms(cat, p.created[i]) {
      CreatedConform(c.created, ids, cat, Existing(base, p.deletedEdges), |c.created|, i);
    }
    forall i | 0 <= i < |p.modified| ensures RelConforms(cat, p.modified[i]) {
      ModifiedConform(c.modified, ids, cat, |c.modified|, i);
    }
  }
}
