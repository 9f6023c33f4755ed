/** What is read can be written back: identities and records survive a read and an unchanged write, and a created
    relationship is stored as it was asked for (crates/acetone-cypher/src/persist.rs, exec/adapter.rs). */
module WriteBack {
  import opened Wrappers
  import opened Values
  import opened Floats
  import opened Replay
  import opened Conservation

  // ----- nodes -----

  function ExposeAll(properties: map<string, Value>): Properties {
    map p | p in properties :: Expose(properties[p], 0)
  }

  /** `node_value`: key values are exposed under their declared names, unless the record has that name. */
  function ReadNode(k: NodeKey, record: NodeRecord, others: seq<string>, names: seq<string>): NodeValue {
    NodeValue(NodeId(k), [k.primary] + others,
              map p | p in record.properties.Keys + (set n | n in names && Position(names, n) < |k.key|) ::
                Expose(if p in record.properties then record.properties[p] else k.key[Position(names, p)], 0))
  }

  predicate KeyMaterial(v: Value) { KeyScalar(v) && !v.Deferred? && Norm(v) == v }

  /** A node as the store holds it: one keyed label, the key in the key and everything else in the record. */
  ghost predicate WellStored(cat: Catalogue, k: NodeKey, record: NodeRecord) {
    && DeclaresKey(cat, k.primary) && k.primary != ""
    && (forall l :: l in record.secondary ==> !DeclaresKey(cat, l))
    && var names := cat.labels[k.primary].key;
    && |k.key| == |names| && Distinct(names)
       && (forall i :: 0 <= i < |names| ==> names[i] !in record.properties && KeyMaterial(k.key[i]))
    && RecordStorable(record.properties)
  }

  lemma {:induction false} OnlyPrimaryKeyed(labels: seq<string>, cat: Catalogue)
    requires forall l :: l in labels ==> !DeclaresKey(cat, l)
    ensures KeyedLabels(labels, cat) == []
    decreases |labels|
  {
    if labels != [] { OnlyPrimaryKeyed(labels[1..], cat); }
  }

  lemma PositionOf(names: seq<string>, i: nat)
    requires Distinct(names) && i < |names|
    ensures Position(names, names[i]) == i
  {
  }

  lemma {:induction false} KeyValuesBack(names: seq<string>, props: Properties, key: seq<Value>, n: nat)
    requires n <= |names| == |key|
    requires forall i :: 0 <= i < |names| ==>
               names[i] in props && props[names[i]] == Expose(key[i], 0) && KeyMaterial(key[i])
    ensures KeyValues(names, props, n) == Ok(key[..n])
  {
    if n > 0 {
      KeyValuesBack(names, props, key, n - 1);
      WriteBackIsLossless(key[n - 1], 0);
      assert KeyValue(names[n - 1], props) == Ok(key[n - 1]);
      assert key[..n] == key[..n - 1] + [key[n - 1]];
    }
  }

  lemma RecordBack(record: NodeRecord, names: seq<string>, props: Properties)
    requires RecordStorable(record.properties) && forall i :: 0 <= i < |names| ==> names[i] !in record.properties
    requires forall p :: p in record.properties ==> p in props && props[p] == Expose(record.properties[p], 0)
    requires forall p :: p in props ==> p in record.properties || p in names
    ensures ConvertMap(props, names) == Some(record.properties)
  {
    forall p | p in record.properties ensures Convert(props[p], 0) == Some(record.properties[p]) {
      WriteBackIsLossless(record.properties[p], 0);
    }
    assert ConvertMap(props, names).Some?;
    assert ConvertMap(props, names).value == record.properties;
  }

  lemma ReadProperties(k: NodeKey, record: NodeRecord, others: seq<string>, names: seq<string>)
    requires |k.key| == |names| && Distinct(names) && forall i :: 0 <= i < |names| ==> names[i] !in record.properties
    ensures var props := ReadNode(k, record, others, names).properties;
            && (forall i :: 0 <= i < |names| ==> names[i] in props && props[names[i]] == Expose(k.key[i], 0))
            && (forall p :: p in record.properties ==> p in props && props[p] == Expose(record.properties[p], 0))
            && (forall p :: p in props ==> p in record.properties || p in names)
  {
    forall i | 0 <= i < |names| ensures Position(names, names[i]) == i { PositionOf(names, i); }
  }

  /** A stored node read by a query and written back unchanged has the same key and the same record, whatever types
      its properties have. */
  lemma NodeWriteBack(cat: Catalogue, k: NodeKey, record: NodeRecord, others: seq<string>)
    requires WellStored(cat, k, record) && k.primary !in record.secondary && record.secondary == set l | l in others
    ensures KeyAndRecord(ReadNode(k, record, others, cat.labels[k.primary].key), cat) == Ok(Entry(k, record))
  {
    var names := cat.labels[k.primary].key;
    var node := ReadNode(k, record, others, names);
    ReadProperties(k, record, others, names);
    LabelsBack(k.primary, others, cat);
    KeyValuesBack(names, node.properties, k.key, |names|);
    RecordBack(record, names, node.properties);
    Assembled(node, cat, k, record);
  }

  /** The value an index or a uniqueness check finds under a property is the one a query reads there. */
  lemma HeldIsRead(cat: Catalogue, k: NodeKey, record: NodeRecord, others: seq<string>, p: string)
    requires WellStored(cat, k, record)
    ensures var props, held := ReadNode(k, record, others, cat.labels[k.primary].key).properties,
        Held(cat, k, record, p);
            (p in props <==> held.Some?) && (held.Some? ==> props[p] == Expose(held.value, 0))
  {
    ReadProperties(k, record, others, cat.labels[k.primary].key);
  }

  lemma LabelsBack(primary: string, others: seq<string>, cat: Catalogue)
    requires DeclaresKey(cat, primary) && primary !in others && forall l :: l in others ==> !DeclaresKey(cat, l)
    ensures KeyedLabels([primary] + others, cat) == [primary]
    ensures (set l | l in [primary] + others && l != primary) == set l | l in others
  {
    OnlyPrimaryKeyed(others, cat);
    assert ([primary] + others)[1..] == others;
  }

  lemma Assembled(node: NodeValue, cat: Catalogue, k: NodeKey, record: NodeRecord)
    requires KeyedLabels(node.labels, cat) == [k.primary] && k.primary in cat.labels && k.primary != "" && k.key != []
    requires var names := cat.labels[k.primary].key;
             |k.key| == |names| && KeyValues(names, node.properties, |names|) == Ok(k.key[..|names|])
                 && ConvertMap(node.properties, names) == Some(record.properties)
    requires forall i :: 0 <= i < |k.key| ==> KeyMaterial(k.key[i])
    requires record.secondary == set l | l in node.labels && l != k.primary
    ensures KeyAndRecord(node, cat) == Ok(Entry(k, record))
  {
    assert k.key[..|k.key|] == k.key && NormAll(k.key) == k.key;
  }

  // ----- relationships -----

  /** `rel_value`: the discriminator in the key is exposed under its declared name, over any stale record value. */
  function ReadRel(k: EdgeKey, record: EdgeRecord, cat: Catalogue): RelValue {
    var props := ExposeAll(record.properties);
    RelValue(EdgeId(k), k.rtype, NodeId(k.src), NodeId(k.dst),
             match Discriminator(cat, k.rtype) case None => props case Some(name) => props[name := Expose(k.disc, 0)])
  }

  lemma ConvertBack(properties: map<string, Value>)
    requires RecordStorable(properties)
    ensures ConvertMap(ExposeAll(properties), []) == Some(properties)
  {
    forall p | p in properties ensures Convert(ExposeAll(properties)[p], 0) == Some(properties[p]) {
      WriteBackIsLossless(properties[p], 0);
    }
    assert ConvertMap(ExposeAll(properties), []).Some?;
    assert ConvertMap(ExposeAll(properties), []).value == properties;
  }

  /** The discriminator of a stored edge: a scalar other than NaN. */
  predicate StoredDisc(v: Value) { Fits(v, 0) && !v.List? && v != Flt(NaN) }

  /** A stored relationship read and written back unchanged keeps its key, discriminator included, and its record
      without the discriminator's name. */
  lemma RelWriteBack(cat: Catalogue, k: EdgeKey, record: EdgeRecord, ids: map<EntityId, NodeKey>)
    requires RecordStorable(record.properties) && StoredDisc(k.disc)
    requires RelTypesHold(cat, k, EdgeRecord(Without(record.properties, Discriminator(cat, k.rtype))))
    ensures ModifyEdge(ReadRel(k, record, cat), ids, cat) ==
              Ok(Entry(k, EdgeRecord(Without(record.properties, Discriminator(cat, k.rtype)))))
  {
    var rel := ReadRel(k, record, cat);
    match Discriminator(cat, k.rtype)
    case None => ConvertBack(record.properties);
    case Some(name) =>
      var exposed := record.properties[name := k.disc];
      assert rel.properties == ExposeAll(exposed);
      ConvertBack(exposed);
      assert exposed - {name} == record.properties - {name};
  }

  /** The record holds the converted properties, all but those named. */
  ghost predicate Holds(stored: map<string, Value>, props: Properties, except: set<string>) {
    && (forall p :: p in stored <==> p in props && p !in except)
    && (forall p :: p in stored ==> p in props && Convert(props[p], 0) == Some(stored[p]))
  }

  function NameSet(name: Option<string>): set<string> { if name.Some? then {name.value} else {} }

  /** A created relationship is stored between its resolved endpoints, under its type and the declared discriminator,
      and every other property is in the record. */
  lemma CreatedAsAsked(rel: RelValue, ids: map<EntityId, NodeKey>, cat: Catalogue, existing: set<EdgeKey>, put: PutEdge)
    requires CreateEdge(rel, ids, cat, existing) == Ok(put)
    ensures put.key.rtype == rel.rtype && Resolve(rel.start, ids) == Ok(put.key.src)
        && Resolve(rel.end, ids) == Ok(put.key.dst)
    ensures var name := Discriminator(cat, rel.rtype);
            && (if name.Some? then name.value in rel.properties
               && Some(put.key.disc) == NormOf(Convert(rel.properties[name.value], 0))
                else put.key.disc == Null)
            && Holds(put.record.properties, rel.properties, NameSet(name))
  {
    CreatedKeyAsAsked(rel, ids, cat);
  }

  function NormOf(v: Option<Value>): Option<Value> { match v case None => None case Some(w) => Some(Norm(w)) }

  lemma CreatedKeyAsAsked(rel: RelValue, ids: map<EntityId, NodeKey>, cat: Catalogue)
    requires CreatedKey(rel, ids, cat).Ok?
    ensures var key := CreatedKey(rel, ids, cat).value; var name := Discriminator(cat, rel.rtype);
            && key.rtype == rel.rtype && Resolve(rel.start, ids) == Ok(key.src) && Resolve(rel.end, ids) == Ok(key.dst)
            && if name.Some? then name.value in rel.properties
               && Some(key.disc) == NormOf(Convert(rel.properties[name.value], 0))
               else key.disc == Null
  {
  }

  // ----- endpoints -----

  /** The last upserted node with this id. */
  ghost predicate LastWith(c: Changes, id: EntityId, n: nat, count: nat)
    requires count <= |c.upserted|
  {
    n < count && c.upserted[n].id == id && forall m :: n < m < count ==> c.upserted[m].id != id
  }

  lemma {:induction false} ResolvedIds(c: Changes, ks: seq<Keyed>, id: EntityId)
    requires |ks| <= |c.upserted|
    ensures id in EntityKeys(c, ks) <==> exists n: nat :: n < |ks| && c.upserted[n].id == id
    ensures forall n: nat :: LastWith(c, id, n, |ks|) ==> id in EntityKeys(c, ks) && EntityKeys(c, ks)[id] == ks[n].key
    ensures id in EntityKeys(c, ks) ==> exists n: nat :: LastWith(c, id, n, |ks|)
    decreases |ks|
  {
    if ks != [] {
      var last := |ks| - 1;
      ResolvedIds(c, ks[..last], id);
      if c.upserted[last].id == id {
        assert LastWith(c, id, last, |ks|);
      } else {
        assert forall n: nat :: LastWith(c, id, n, |ks|) <==> LastWith(c, id, n, last);
      }
    }
  }

  /** Where an endpoint is stored: a stored node at its own key, an upserted one at the key it was given. */
  ghost predicate EndpointIs(c: Changes, p: Plan, id: EntityId, k: NodeKey) {
    && |p.nodes| == |c.upserted|
    && (id.NodeId? ==> k == id.node)
    && (forall n: nat :: LastWith(c, id, n, |c.upserted|) ==> k == p.nodes[n].key)
    && (id.NodeId? || exists n: nat :: LastWith(c, id, n, |c.upserted|))
  }

  lemma ResolvedEndpoint(c: Changes, base: Graph, p: Plan, id: EntityId, k: NodeKey)
    requires Keying(c, base, p.nodes) && Resolve(id, EntityKeys(c, p.nodes)) == Ok(k)
    ensures EndpointIs(c, p, id, k)
  {
    ResolvedIds(c, p.nodes, id);
    if id in EntityKeys(c, p.nodes) {
      var n: nat :| LastWith(c, id, n, |p.nodes|);
      assert Placed(c, base, p.nodes, n);
    }
  }

  lemma {:induction false} CreatedFrom(rels: seq<RelValue>, ids: map<EntityId, NodeKey>, cat: Catalogue,
      stored: set<EdgeKey>, n: nat, i: nat) returns (existing: set<EdgeKey>)
    requires i < n <= |rels| && CreateEdges(rels, ids, cat, stored, n).Ok?
    ensures CreateEdge(rels[i], ids, cat, existing) == Ok(CreateEdges(rels, ids, cat, stored, n).value[i])
    decreases n
  {
    if i < n - 1 {
      existing := CreatedFrom(rels, ids, cat, stored, n - 1, i);
    } else {
      existing := stored + KeysOf(CreateEdges(rels, ids, cat, stored, n - 1).value);
    }
  }

  /** A relationship created between two nodes is stored between exactly those two, in its direction, under its type. */
  lemma CreatedEndpoints(c: Changes, cat: Catalogue, base: Graph, p: Plan, i: nat)
    requires MakePlan(c, cat, base) == Ok(p) && i < |p.created|
    ensures |p.created| == |c.created| && p.created[i].key.rtype == c.created[i].rtype
    ensures EndpointIs(c, p, c.created[i].start, p.created[i].key.src)
    ensures EndpointIs(c, p, c.created[i].end, p.created[i].key.dst)
  {
    PlanParts(c, cat, base, p);
    KeysAreKeying(c, cat, base, p.nodes);
    var ids := EntityKeys(c, p.nodes);
    var existing := CreatedFrom(c.created, ids, cat, Existing(base, p.deletedEdges), |c.created|, i);
    CreatedAsAsked(c.created[i], ids, cat, existing, p.created[i]);
    ResolvedEndpoint(c, base, p, c.created[i].start, p.created[i].key.src);
    ResolvedEndpoint(c, base, p, c.created[i].end, p.created[i].key.dst);
  }

  // ----- upserted nodes -----

  /** The label at `i` is the only one that declares a key. */
  ghost predicate OnlyKeyed(labels: seq<string>, cat: Catalogue, i: nat) {
    i < |labels| && forall j :: 0 <= j < |labels| ==>
      (labels[j] in cat.labels && cat.labels[labels[j]].key != [] <==> j == i)
  }

  lemma {:induction false} OneKeyed(labels: seq<string>, cat: Catalogue)
    ensures KeyedLabels(labels, cat) == [] <==> forall j :: 0 <= j < |labels| ==> !DeclaresKey(cat, labels[j])
    ensures |KeyedLabels(labels, cat)| == 1 <==> exists i: nat :: OnlyKeyed(labels, cat, i)
    ensures forall i: nat :: OnlyKeyed(labels, cat, i) ==> KeyedLabels(labels, cat) == [labels[i]]
    decreases |labels|
  {
    if labels != [] {
      var rest := labels[1..];
      OneKeyed(rest, cat);
      assert forall j :: 0 <= j < |rest| ==> rest[j] == labels[j + 1];
      if DeclaresKey(cat, labels[0]) {
        if KeyedLabels(rest, cat) == [] { FirstKeyed(labels, cat); assert OnlyKeyed(labels, cat, 0); }
        else { TwoKeyed(labels, cat); }
      } else {
        ShiftKeyed(labels, cat);
      }
    }
  }

  lemma FirstKeyed(labels: seq<string>, cat: Catalogue)
    requires labels != [] && DeclaresKey(cat, labels[0])
    requires forall j :: 0 <= j < |labels[1..]| ==> !DeclaresKey(cat, labels[1..][j])
    ensures forall i: nat :: OnlyKeyed(labels, cat, i) <==> i == 0
  {
    forall j | 0 < j < |labels| ensures !DeclaresKey(cat, labels[j]) { assert labels[j] == labels[1..][j - 1]; }
  }

  lemma TwoKeyed(labels: seq<string>, cat: Catalogue)
    requires labels != [] && DeclaresKey(cat, labels[0])
    requires exists j :: 0 <= j < |labels[1..]| && DeclaresKey(cat, labels[1..][j])
    ensures forall i: nat :: !OnlyKeyed(labels, cat, i)
  {
    var j :| 0 <= j < |labels[1..]| && DeclaresKey(cat, labels[1..][j]);
    assert DeclaresKey(cat, labels[j + 1]);
  }

  lemma ShiftKeyed(labels: seq<string>, cat: Catalogue)
    requires labels != [] && !DeclaresKey(cat, labels[0])
    ensures forall i: nat :: OnlyKeyed(labels, cat, i) ==> i > 0 && OnlyKeyed(labels[1..], cat, i - 1)
    ensures (exists i: nat :: OnlyKeyed(labels[1..], cat, i)) ==> exists i: nat :: OnlyKeyed(labels, cat, i)
  {
    if i: nat :| OnlyKeyed(labels[1..], cat, i) {
      forall j | 0 <= j < |labels| ensures DeclaresKey(cat, labels[j]) <==> j == i + 1 {
        if j > 0 { assert labels[j] == labels[1..][j - 1]; }
      }
      assert OnlyKeyed(labels, cat, i + 1);
    }
  }

  /** A property that can stand in a key: a boolean, an integer, a text or a number. */
  ghost predicate KeyProperty(props: Properties, name: string) {
    name in props && Convert(props[name], 0).Some? &&
    var v := Convert(props[name], 0).value; v.Bool? || v.Int? || v.Text? || (v.Flt? && v.x != NaN)
  }

  /** The label at `i` gives the node its identity, and everything else can be stored. */
  ghost predicate Identifies(node: NodeValue, cat: Catalogue, i: nat) {
    && OnlyKeyed(node.labels, cat, i) && node.labels[i] != ""
    && var names := cat.labels[node.labels[i]].key;
    && (forall j :: 0 <= j < |names| ==> KeyProperty(node.properties, names[j]))
    && (forall p :: p in node.properties && p !in names ==> Convert(node.properties[p], 0).Some?)
  }

  lemma {:induction false} KeyValuesExactly(names: seq<string>, props: Properties, n: nat)
    requires n <= |names|
    ensures KeyValues(names, props, n).Ok? <==> forall j :: 0 <= j < n ==> KeyValue(names[j], props).Ok?
    ensures KeyValues(names, props, n).Ok? ==>
              forall j :: 0 <= j < n ==> KeyValue(names[j], props) == Ok(KeyValues(names, props, n).value[j])
  {
    if n > 0 { KeyValuesExactly(names, props, n - 1); }
  }

  /** The key of the node whose identity the label gives. */
  ghost predicate KeyIs(node: NodeValue, names: seq<string>, key: seq<Value>) {
    |key| == |names| && forall j :: 0 <= j < |names| ==>
      KeyProperty(node.properties, names[j]) && key[j] == Norm(Convert(node.properties[names[j]], 0).value)
  }

  lemma MakeKeyExactly(node: NodeValue, lbl: string, names: seq<string>)
    requires names != []
    ensures var values := KeyValues(names, node.properties, |names|);
            && ((values.Ok? && MakeNodeKey(lbl, values.value).Ok?) <==>
                lbl != "" && forall j :: 0 <= j < |names| ==> KeyProperty(node.properties, names[j]))
            && (values.Ok? && MakeNodeKey(lbl, values.value).Ok? ==>
                var k := MakeNodeKey(lbl, values.value).value; k.primary == lbl && KeyIs(node, names, k.key))
  {
    KeyValuesExactly(names, node.properties, |names|);
    var values := KeyValues(names, node.properties, |names|);
    if values.Err? {
      var j :| 0 <= j < |names| && KeyValue(names[j], node.properties).Err?;
      assert !KeyProperty(node.properties, names[j]);
    } else {
      forall j | 0 <= j < |names| ensures KeyProperty(node.properties, names[j]) <==> KeyScalar(values.value[j]) {
        assert KeyValue(names[j], node.properties) == Ok(values.value[j]);
      }
    }
  }

  /** A node has an identity exactly when one label alone declares a key, the properties it names are there with scalar
      values, and the rest can be stored; then its key is those values in order and its record the rest. */
  lemma NodeAsAsked(node: NodeValue, cat: Catalogue)
    ensures KeyAndRecord(node, cat).Ok? <==> exists i: nat :: Identifies(node, cat, i)
    ensures forall i: nat :: Identifies(node, cat, i) ==>
              var k, names := KeyAndRecord(node, cat).value, cat.labels[node.labels[i]].key;
              && k.key.primary == node.labels[i] && KeyIs(node, names, k.key.key)
              && Holds(k.record.properties, node.properties, set n | n in names)
              && k.record.secondary == set l | l in node.labels && l != node.labels[i]
  {
    OneKeyed(node.labels, cat);
    if i: nat :| OnlyKeyed(node.labels, cat, i) {
      IdentityAt(node, cat, i);
    }
  }

  lemma IdentityAt(node: NodeValue, cat: Catalogue, i: nat)
    requires OnlyKeyed(node.labels, cat, i) && KeyedLabels(node.labels, cat) == [node.labels[i]]
    ensures KeyAndRecord(node, cat).Ok? <==> Identifies(node, cat, i)
    ensures Identifies(node, cat, i) ==>
              var k, names := KeyAndRecord(node, cat).value, cat.labels[node.labels[i]].key;
              && k.key.primary == node.labels[i] && KeyIs(node, names, k.key.key)
              && Holds(k.record.properties, node.properties, set n | n in names)
              && k.record.secondary == set l | l in node.labels && l != node.labels[i]
  {
    MakeKeyExactly(node, node.labels[i], cat.labels[node.labels[i]].key);
  }

  /** Every upserted node has an identity, and is planned under it. */
  lemma UpsertedAsAsked(c: Changes, cat: Catalogue, base: Graph, p: Plan, i: nat)
    requires MakePlan(c, cat, base) == Ok(p) && i < |p.nodes|
    ensures |p.nodes| == |c.upserted| && KeyAndRecord(c.upserted[i], cat) == Ok(p.nodes[i])
    ensures exists j: nat :: Identifies(c.upserted[i], cat, j)
  {
    PlanParts(c, cat, base, p);
    NodeAdmitted(c, cat, base, p.nodes, i);
    NodeAsAsked(c.upserted[i], cat);
  }

  /** A bound relationship that is modified keeps its key, its discriminator property unchanged, and its record is the
      rest of what it now holds. */
  lemma ModifiedAsAsked(rel: RelValue, ids: map<EntityId, NodeKey>, cat: Catalogue)
    requires rel.id.EdgeId? && ModifyEdge(rel, ids, cat).Ok?
    ensures var put, name := ModifyEdge(rel, ids, cat).value, Discriminator(cat, rel.id.edge.rtype);
            && put.key == rel.id.edge && Holds(put.record.properties, rel.properties, NameSet(name))
            && (name.Some? ==> name.value in rel.properties)
            && (name.Some? ==> Convert(rel.properties[name.value], 0).Some?)
            && (name.Some? ==> Same(Convert(rel.properties[name.value], 0).value, put.key.disc))
  {
  }
}
