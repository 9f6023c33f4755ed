/** What replaying a statement's net changes stages, or the error it stops at
    (crates/acetone-cypher/src/persist.rs). */
module Replay {
  import opened Wrappers
  import opened Values
  import opened Floats

  // ----- schema -----

  datatype PropertyType = PBool | PInt | PFloat | PText | PDeferred(kind: Kind) | PList

  /** Null conforms to every declaration, and `float` admits an integer. */
  predicate Matches(t: PropertyType, v: Value) {
    match v
    case Null => true
    case Bool(_) => t.PBool?
    case Int(_) => t.PInt? || t.PFloat?
    case Flt(_) => t.PFloat?
    case Text(_) => t.PText?
    case Deferred(kind, _) => t == PDeferred(kind)
    case List(_) => t.PList?
  }

  type Types = seq<(string, PropertyType)>

  datatype LabelDef = LabelDef(key: seq<string>, required: seq<string>, types: Types, unique: seq<string>)
  datatype RelTypeDef = RelTypeDef(types: Types, discriminator: Option<string>)
  datatype IndexDef = IndexDef(name: string, lbl: string, properties: seq<string>)
  datatype Catalogue = Catalogue(labels: map<string, LabelDef>, relTypes: map<string, RelTypeDef>,
      indexes: seq<IndexDef>)

  // ----- identities and records: encoded keys, up to an injective byte layout -----

  datatype NodeKey = NodeKey(primary: string, key: seq<Value>)
  datatype EdgeKey = EdgeKey(src: NodeKey, rtype: string, dst: NodeKey, disc: Value)
  datatype NodeRecord = NodeRecord(secondary: set<string>, properties: map<string, Value>)
  datatype EdgeRecord = EdgeRecord(properties: map<string, Value>)

  /** A base entity's id is its stored key; an overlay id decodes as neither. */
  datatype EntityId = NodeId(node: NodeKey) | EdgeId(edge: EdgeKey) | Overlay(n: nat)

  type Properties = map<string, RuntimeValue>

  datatype NodeValue = NodeValue(id: EntityId, labels: seq<string>, properties: Properties)
  datatype RelValue = RelValue(id: EntityId, rtype: string, start: EntityId, end: EntityId, properties: Properties)

  datatype Changes = Changes(
    upserted: seq<NodeValue>, deletedNodes: seq<EntityId>,
    created: seq<RelValue>, modified: seq<RelValue>, deletedRels: seq<RelValue>)

  /** `built` names the index maps that exist. */
  datatype Graph = Graph(nodes: map<NodeKey, NodeRecord>, edges: map<EdgeKey, EdgeRecord>, built: set<string>)

  datatype Error =
    | NoIdentity | AmbiguousIdentity | KeyValueType | BadKey | Undecodable | Unstorable | Unencodable
    | DuplicateKey | KeyImmutable | DuplicateKeyInStatement
    | MissingRequired | WrongType | UniqueViolation(lbl: string, property: string)
    | DuplicateEdge | DiscriminatorRequired | DiscriminatorImmutable | RelWrongType

  /** The errors of deriving one node's identity and record. */
  predicate OfIdentity(e: Error) {
    e.NoIdentity? || e.AmbiguousIdentity? || e.KeyValueType? || e.BadKey? || e.Unstorable?
  }

  // ----- node identity -----

  /** A record under its key. */
  datatype Entry<K, V> = Entry(key: K, record: V)

  type Keyed = Entry<NodeKey, NodeRecord>

  predicate DeclaresKey(cat: Catalogue, lbl: string) { lbl in cat.labels && cat.labels[lbl].key != [] }

  function KeyedLabels(labels: seq<string>, cat: Catalogue): (r: seq<string>)
    ensures forall i :: 0 <= i < |r| ==> DeclaresKey(cat, r[i]) && r[i] in labels
  {
    if labels == [] then []
    else (if DeclaresKey(cat, labels[0]) then [labels[0]] else []) + KeyedLabels(labels[1..], cat)
  }

  function KeyValue(name: string, props: Properties): (r: Result<Value, Error>)
    ensures r.Err? ==> OfIdentity(r.error)
  {
    if name !in props then Err(NoIdentity) else
      match Convert(props[name], 0)
      case None => Err(Unstorable)
      case Some(v) => if v.Deferred? then Err(KeyValueType) else Ok(v)
  }

  /** The values of the first `n` key properties. */
  function KeyValues(names: seq<string>, props: Properties, n: nat): (r: Result<seq<Value>, Error>)
    requires n <= |names|
    ensures r.Ok? ==> |r.value| == n
    ensures r.Err? ==> OfIdentity(r.error)
  {
    if n == 0 then Ok([]) else
      var before :- KeyValues(names, props, n - 1);
      var v :- KeyValue(names[n - 1], props);
      Ok(before + [v])
  }

  predicate KeyScalar(v: Value) { !v.Null? && !v.List? && v != Flt(NaN) }

  function NormAll(vs: seq<Value>): (r: seq<Value>)
    ensures |r| == |vs| && forall i :: 0 <= i < |vs| ==> r[i] == Norm(vs[i])
  {
    seq(|vs|, i requires 0 <= i < |vs| => Norm(vs[i]))
  }

  function MakeNodeKey(lbl: string, values: seq<Value>): Result<NodeKey, Error> {
    if lbl == "" || values == [] || exists i :: 0 <= i < |values| && !KeyScalar(values[i]) then Err(BadKey)
    else Ok(NodeKey(lbl, NormAll(values)))
  }

  /** The converted properties other than those in `names`, or `None` if one cannot be stored. */
  function ConvertMap(props: Properties, names: seq<string>): Option<map<string, Value>> {
    if forall p | p in props && p !in names :: Convert(props[p], 0).Some?
    then Some(map p | p in props && p !in names :: Convert(props[p], 0).value)
    else None
  }

  /** `node_key_and_record`: exactly one label must declare a key. */
  function KeyAndRecord(node: NodeValue, cat: Catalogue): (r: Result<Keyed, Error>)
    ensures r.Err? ==> OfIdentity(r.error)
  {
    var keyed := KeyedLabels(node.labels, cat);
    if keyed == [] then Err(NoIdentity)
    else if |keyed| > 1 then Err(AmbiguousIdentity)
    else
      var primary := keyed[0];
      var names := cat.labels[primary].key;
      var values :- KeyValues(names, node.properties, |names|);
      var key :- MakeNodeKey(primary, values);
      match ConvertMap(node.properties, names)
      case None => Err(Unstorable)
      case Some(props) => Ok(Entry(key, NodeRecord((set l | l in node.labels && l != primary), props)))
  }

  /** What stops node `node` from taking the key `key`, given the keys taken before it. */
  function Refusal(node: NodeValue, key: NodeKey, c: Changes, base: Graph, before: seq<Keyed>): (r: Option<Error>)
    ensures r.Some? ==> !r.value.UniqueViolation?
  {
    if !node.id.NodeId? && key in base.nodes && NodeId(key) !in c.deletedNodes then Some(DuplicateKey)
    else if node.id.NodeId? && node.id.node != key then Some(KeyImmutable)
    else if exists i :: 0 <= i < |before| && before[i].key == key then Some(DuplicateKeyInStatement)
    else None
  }

  function NextKey(node: NodeValue, c: Changes, cat: Catalogue, base: Graph,
      before: seq<Keyed>): (r: Result<Keyed, Error>)
    ensures r.Err? ==> !r.error.UniqueViolation?
  {
    var k :- KeyAndRecord(node, cat);
    match Refusal(node, k.key, c, base, before)
    case Some(e) => Err(e)
    case None => Ok(k)
  }

  /** Keys and records of the first `n` upserted nodes. */
  function KeyNodes(c: Changes, cat: Catalogue, base: Graph, n: nat): (r: Result<seq<Keyed>, Error>)
    requires n <= |c.upserted|
    ensures r.Ok? ==> |r.value| == n
    ensures r.Err? ==> !r.error.UniqueViolation?
  {
    if n == 0 then Ok([]) else
      var before :- KeyNodes(c, cat, base, n - 1);
      var k :- NextKey(c.upserted[n - 1], c, cat, base, before);
      Ok(before + [k])
  }

  function KeysOf<K, V(==)>(es: seq<Entry<K, V>>): set<K> { set e | e in es :: e.key }

  /** The ids of the upserted nodes, resolved to their keys. */
  function EntityKeys(c: Changes, ks: seq<Keyed>): map<EntityId, NodeKey>
    requires |ks| <= |c.upserted|
    decreases |ks|
  {
    if ks == [] then map[] else
      var n := |ks| - 1;
      EntityKeys(c, ks[..n])[c.upserted[n].id := ks[n].key]
  }

  // ----- uniqueness -----

  datatype Context = Context(cat: Catalogue, base: Graph, written: set<NodeKey>, deleted: set<EntityId>)

  datatype Claim = Claim(lbl: string, property: string, value: Value)

  /** The first declared index over exactly this property. */
  function IndexOn(indexes: seq<IndexDef>, lbl: string, property: string): (r: Option<IndexDef>)
    ensures r.Some? ==> r.value in indexes && r.value.lbl == lbl && r.value.properties == [property]
  {
    if indexes == [] then None
    else if indexes[0].lbl == lbl && indexes[0].properties == [property] then Some(indexes[0])
    else IndexOn(indexes[1..], lbl, property)
  }

  predicate Bears(k: NodeKey, record: NodeRecord, lbl: string) { k.primary == lbl || lbl in record.secondary }

  function Position(names: seq<string>, name: string): (r: nat)
    requires name in names
    ensures r < |names| && names[r] == name
  {
    if names[0] == name then 0 else 1 + Position(names[1..], name)
  }

  /** A key property lives in the key, any other in the record. */
  function Held(cat: Catalogue, k: NodeKey, record: NodeRecord, property: string): Option<Value> {
    if k.primary in cat.labels && property in cat.labels[k.primary].key then
      var at := Position(cat.labels[k.primary].key, property);
      if at < |k.key| then Some(k.key[at]) else None
    else if property in record.properties then Some(record.properties[property]) else None
  }

  /** The index map holds an entry for this node and this value: null- and NaN-blind. */
  predicate IndexEntry(cat: Catalogue, k: NodeKey, record: NodeRecord, lbl: string, property: string, v: Value) {
    var held := Held(cat, k, record, property);
    Bears(k, record, lbl) && held.Some? && !held.value.Null? && Probeable(held.value) && Norm(held.value) == Norm(v)
  }

  /** `indexed_collisions`: `None` sends the caller to the scan. */
  function IndexedCollisions(x: Context, lbl: string, property: string, v: Value): Option<set<NodeKey>> {
    match IndexOn(x.cat.indexes, lbl, property)
    case None => None
    case Some(def) =>
      if !Probeable(v) then Some({})
      else if def.name !in x.base.built then None
      else Some(set k | k in x.base.nodes && IndexEntry(x.cat, k, x.base.nodes[k], lbl, property, v))
  }

  /** `scanned_collisions`. */
  function ScannedCollisions(x: Context, lbl: string, property: string, v: Value): set<NodeKey> {
    set k | k in x.base.nodes && k.primary == lbl && property in x.base.nodes[k].properties &&
            Same(x.base.nodes[k].properties[property], v)
  }

  function Collisions(x: Context, lbl: string, property: string, v: Value): set<NodeKey> {
    match IndexedCollisions(x, lbl, property, v)
    case Some(keys) => keys
    case None => ScannedCollisions(x, lbl, property, v)
  }

  /** A stored node that this statement neither deletes nor rewrites. */
  predicate Survives(x: Context, k: NodeKey) { k in x.base.nodes && NodeId(k) !in x.deleted && k !in x.written }

  predicate Blocked(x: Context, key: NodeKey, property: string, v: Value) {
    exists k :: k in Collisions(x, key.primary, property, v) && k != key && NodeId(k) !in x.deleted && k !in x.written
  }

  function CheckValue(x: Context, key: NodeKey, property: string, v: Value,
      claims: set<Claim>): Result<set<Claim>, Error> {
    var claim := Claim(key.primary, property, Norm(v));
    if Claimable(v) && claim in claims then Err(UniqueViolation(key.primary, property))
    else if Blocked(x, key, property, v) then Err(UniqueViolation(key.primary, property))
    else Ok(if Claimable(v) then claims + {claim} else claims)
  }

  datatype Wish = Wish(property: string, value: Value)

  /** The unique properties the node carries, converted. */
  function Wishes(unique: seq<string>, props: Properties): (r: Result<seq<Wish>, Error>)
    ensures r.Err? ==> !r.error.UniqueViolation?
  {
    if unique == [] then Ok([]) else
      var n := |unique| - 1;
      var before :- Wishes(unique[..n], props);
      if unique[n] !in props then Ok(before) else
        match Convert(props[unique[n]], 0)
        case None => Err(Unstorable)
        case Some(v) => Ok(before + [Wish(unique[n], v)])
  }

  function CheckWishes(x: Context, key: NodeKey, wishes: seq<Wish>, n: nat,
      claims: set<Claim>): Result<set<Claim>, Error>
    requires n <= |wishes|
  {
    if n == 0 then Ok(claims) else
      var before :- CheckWishes(x, key, wishes, n - 1, claims);
      CheckValue(x, key, wishes[n - 1].property, wishes[n - 1].value, before)
  }

  /** The first declared type a property contradicts. */
  function TypeError(types: Types, props: Properties): (r: Option<Error>)
    ensures r.Some? ==> !r.value.UniqueViolation?
  {
    if types == [] then None else
      var n := |types| - 1;
      match TypeError(types[..n], props)
      case Some(e) => Some(e)
      case None =>
        if types[n].0 !in props then None else
          match Convert(props[types[n].0], 0)
          case None => Some(Unstorable)
          case Some(v) => if Matches(types[n].1, v) then None else Some(WrongType)
  }

  /** `UniqueChecker::check`. */
  function CheckNode(x: Context, node: NodeValue, key: NodeKey, claims: set<Claim>): Result<set<Claim>, Error> {
    if key.primary !in x.cat.labels then Ok(claims) else
      var def := x.cat.labels[key.primary];
      if exists i :: 0 <= i < |def.required| && def.required[i] !in node.properties then Err(MissingRequired)
      else
        match TypeError(def.types, node.properties)
        case Some(e) => Err(e)
        case None =>
          var wishes :- Wishes(def.unique, node.properties);
          CheckWishes(x, key, wishes, |wishes|, claims)
  }

  function CheckNodes(x: Context, nodes: seq<NodeValue>, ks: seq<Keyed>, n: nat): Result<set<Claim>, Error>
    requires n <= |ks| == |nodes|
  {
    if n == 0 then Ok({}) else
      var claims :- CheckNodes(x, nodes, ks, n - 1);
      CheckNode(x, nodes[n - 1], ks[n - 1].key, claims)
  }

  // ----- relationships -----

  function Resolve(id: EntityId, ids: map<EntityId, NodeKey>): Result<NodeKey, Error> {
    if id in ids then Ok(ids[id]) else if id.NodeId? then Ok(id.node) else Err(Undecodable)
  }

  function EdgeKeyOf(rel: RelValue, ids: map<EntityId, NodeKey>): Result<EdgeKey, Error> {
    var src :- Resolve(rel.start, ids);
    var dst :- Resolve(rel.end, ids);
    if rel.rtype == "" then Err(BadKey) else Ok(EdgeKey(src, rel.rtype, dst, Null))
  }

  /** `bound_edge_key`: a base relationship keeps the exact key it was read from. */
  function BoundKey(rel: RelValue, ids: map<EntityId, NodeKey>): Result<EdgeKey, Error> {
    if rel.id.EdgeId? then Ok(rel.id.edge) else EdgeKeyOf(rel, ids)
  }

  function Discriminator(cat: Catalogue, rtype: string): Option<string> {
    if rtype in cat.relTypes then cat.relTypes[rtype].discriminator else None
  }

  function CreatedKey(rel: RelValue, ids: map<EntityId, NodeKey>, cat: Catalogue): Result<EdgeKey, Error> {
    var plain :- EdgeKeyOf(rel, ids);
    match Discriminator(cat, plain.rtype)
    case None => Ok(plain)
    case Some(name) =>
      if name !in rel.properties then Err(DiscriminatorRequired) else
        match Convert(rel.properties[name], 0)
        case None => Err(Unstorable)
        case Some(v) =>
          if v.Null? || v.Deferred? then Err(DiscriminatorRequired)
          else if v.List? || v == Flt(NaN) then Err(BadKey)
          else Ok(plain.(disc := Norm(v)))
  }

  /** The first declared type the record, or the discriminator in the key, contradicts. */
  predicate RelTypesHold(cat: Catalogue, edge: EdgeKey, record: EdgeRecord) {
    edge.rtype in cat.relTypes ==>
      var def := cat.relTypes[edge.rtype];
      forall i :: 0 <= i < |def.types| ==>
        var (p, t) := def.types[i];
        && (p in record.properties ==> Matches(t, record.properties[p]))
        && (def.discriminator == Some(p) ==> Matches(t, edge.disc))
  }

  predicate RecordStorable(properties: map<string, Value>) { forall p | p in properties :: Storable(properties[p]) }

  type PutEdge = Entry<EdgeKey, EdgeRecord>

  /** The tail shared by created and modified relationships: check types, encode. */
  function Put(edge: EdgeKey, properties: map<string, Value>, cat: Catalogue): Result<PutEdge, Error> {
    if !RelTypesHold(cat, edge, EdgeRecord(properties)) then Err(RelWrongType)
    else if !RecordStorable(properties) then Err(Unencodable)
    else Ok(Entry(edge, EdgeRecord(properties)))
  }

  function Without(properties: map<string, Value>, name: Option<string>): map<string, Value> {
    if name.Some? then properties - {name.value} else properties
  }

  function CreateEdge(rel: RelValue, ids: map<EntityId, NodeKey>, cat: Catalogue,
      existing: set<EdgeKey>): (r: Result<PutEdge, Error>)
    ensures r.Err? ==> !r.error.UniqueViolation?
  {
    var edge :- CreatedKey(rel, ids, cat);
    if edge in existing then Err(DuplicateEdge) else
      match ConvertMap(rel.properties, [])
      case None => Err(Unstorable)
      case Some(props) => Put(edge, Without(props, Discriminator(cat, edge.rtype)), cat)
  }

  function CreateEdges(rels: seq<RelValue>, ids: map<EntityId, NodeKey>, cat: Catalogue, existing: set<EdgeKey>,
      n: nat): (r: Result<seq<PutEdge>, Error>)
    requires n <= |rels|
    ensures r.Ok? ==> |r.value| == n
    ensures r.Err? ==> !r.error.UniqueViolation?
  {
    if n == 0 then Ok([]) else
      var before :- CreateEdges(rels, ids, cat, existing, n - 1);
      var put :- CreateEdge(rels[n - 1], ids, cat, existing + KeysOf(before));
      Ok(before + [put])
  }

  function ModifyEdge(rel: RelValue, ids: map<EntityId, NodeKey>, cat: Catalogue): (r: Result<PutEdge, Error>)
    ensures r.Err? ==> !r.error.UniqueViolation?
  {
    var edge :- BoundKey(rel, ids);
    match ConvertMap(rel.properties, [])
    case None => Err(Unstorable)
    case Some(props) =>
      match Discriminator(cat, edge.rtype)
      case None => Put(edge, props, cat)
      case Some(name) =>
        if name !in props || !Same(props[name], edge.disc) then Err(DiscriminatorImmutable)
        else Put(edge, props - {name}, cat)
  }

  function ModifyEdges(rels: seq<RelValue>, ids: map<EntityId, NodeKey>, cat: Catalogue,
      n: nat): (r: Result<seq<PutEdge>, Error>)
    requires n <= |rels|
    ensures r.Ok? ==> |r.value| == n
    ensures r.Err? ==> !r.error.UniqueViolation?
  {
    if n == 0 then Ok([]) else
      var before :- ModifyEdges(rels, ids, cat, n - 1);
      var put :- ModifyEdge(rels[n - 1], ids, cat);
      Ok(before + [put])
  }

  function BoundKeys(rels: seq<RelValue>, ids: map<EntityId, NodeKey>, n: nat): (r: Result<seq<EdgeKey>, Error>)
    requires n <= |rels|
    ensures r.Ok? ==> |r.value| == n
    ensures r.Err? ==> !r.error.UniqueViolation?
  {
    if n == 0 then Ok([]) else
      var before :- BoundKeys(rels, ids, n - 1);
      var key :- BoundKey(rels[n - 1], ids);
      Ok(before + [key])
  }

  function DeletedKeys(ids: seq<EntityId>, n: nat): (r: Result<seq<NodeKey>, Error>)
    requires n <= |ids|
    ensures r.Ok? ==> |r.value| == n
    ensures r.Err? ==> !r.error.UniqueViolation?
  {
    if n == 0 then Ok([]) else
      var before :- DeletedKeys(ids, n - 1);
      if ids[n - 1].NodeId? then Ok(before + [ids[n - 1].node]) else Err(Undecodable)
  }

  // ----- staging -----

  datatype Op<K, V> = Write(key: K, value: V) | Erase(key: K)

  datatype Staged = Staged(nodes: seq<Op<NodeKey, NodeRecord>>, edges: seq<Op<EdgeKey, EdgeRecord>>)

  function Erasures<K, V>(keys: seq<K>): (r: seq<Op<K, V>>)
    ensures |r| == |keys| && forall i :: 0 <= i < |keys| ==> r[i] == Erase(keys[i])
  {
    seq(|keys|, i requires 0 <= i < |keys| => Erase(keys[i]))
  }

  function Writes<K, V>(es: seq<Entry<K, V>>): (r: seq<Op<K, V>>)
    ensures |r| == |es| && forall i :: 0 <= i < |es| ==> r[i] == Write(es[i].key, es[i].record)
  {
    seq(|es|, i requires 0 <= i < |es| => Write(es[i].key, es[i].record))
  }

  function ContextOf(c: Changes, cat: Catalogue, base: Graph, ks: seq<Keyed>): Context {
    Context(cat, base, KeysOf(ks), set id | id in c.deletedNodes)
  }

  /** The stored edges a created one may not collide with. */
  function Existing(base: Graph, deleted: seq<EdgeKey>): set<EdgeKey> { base.edges.Keys - set k | k in deleted }

  predicate AllStorable(ks: seq<Keyed>) { forall i :: 0 <= i < |ks| ==> RecordStorable(ks[i].record.properties) }

  /** Everything a successful replay worked out. */
  datatype Plan = Plan(nodes: seq<Keyed>, deletedEdges: seq<EdgeKey>, deletedNodes: seq<NodeKey>,
      created: seq<PutEdge>, modified: seq<PutEdge>)

  function MakePlan(c: Changes, cat: Catalogue, base: Graph): Result<Plan, Error> {
    var ks :- KeyNodes(c, cat, base, |c.upserted|);
    var _ :- CheckNodes(ContextOf(c, cat, base, ks), c.upserted, ks, |ks|);
    PlanWrites(c, cat, base, ks, EntityKeys(c, ks))
  }

  /** What follows once every key is known and every node is checked. */
  function PlanWrites(c: Changes, cat: Catalogue, base: Graph, ks: seq<Keyed>,
      ids: map<EntityId, NodeKey>): (r: Result<Plan, Error>)
    ensures r.Err? ==> !r.error.UniqueViolation?
  {
    var deletedEdges :- BoundKeys(c.deletedRels, ids, |c.deletedRels|);
    var deletedNodes :- DeletedKeys(c.deletedNodes, |c.deletedNodes|);
    if !AllStorable(ks) then Err(Unencodable) else
      var created :- CreateEdges(c.created, ids, cat, Existing(base, deletedEdges), |c.created|);
      var modified :- ModifyEdges(c.modified, ids, cat, |c.modified|);
      Ok(Plan(ks, deletedEdges, deletedNodes, created, modified))
  }

  /** Deletions are staged before writes. */
  function Stage(p: Plan): Staged {
    Staged(Erasures(p.deletedNodes) + Writes(p.nodes),
           Erasures(p.deletedEdges) + Writes(p.created) + Writes(p.modified))
  }

  /** Staged operations take effect in order. */
  function Apply<K, V>(ops: seq<Op<K, V>>, m: map<K, V>): map<K, V>
    decreases |ops|
  {
    if ops == [] then m else
      var n := |ops| - 1;
      var before := Apply(ops[..n], m);
      if ops[n].Write? then before[ops[n].key := ops[n].value] else before - {ops[n].key}
  }

  function After(p: Plan, base: Graph): Graph {
    base.(nodes := Apply(Stage(p).nodes, base.nodes), edges := Apply(Stage(p).edges, base.edges))
  }
}
