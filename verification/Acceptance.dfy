/** A statement is accepted exactly when a plan of it exists, and that plan is what is staged: the replay's loops
    against a description of the plan that computes nothing (crates/acetone-cypher/src/persist.rs). */
module Acceptance {
  import opened Wrappers
  import opened Values
  import opened Replay
  import opened Conservation
  import opened Uniqueness
  import opened Refusals
  import opened WriteBack

  // ----- nodes -----

  /** The entry is the node's: its only keyed label, the values of that label's key, and the rest. */
  ghost predicate NodePlanned(node: NodeValue, cat: Catalogue, k: Keyed) {
    exists i: nat :: Identifies(node, cat, i) && EntryAt(node, cat, i, k)
  }

  ghost predicate EntryAt(node: NodeValue, cat: Catalogue, i: nat, k: Keyed)
    requires Identifies(node, cat, i)
  {
    var names := cat.labels[node.labels[i]].key;
    && k.key.primary == node.labels[i] && KeyIs(node, names, k.key.key)
    && Holds(k.record.properties, node.properties, set n | n in names)
    && k.record.secondary == set l | l in node.labels && l != node.labels[i]
  }

  lemma HoldsOne(a: map<string, Value>, b: map<string, Value>, props: Properties, except: set<string>)
    requires Holds(a, props, except) && Holds(b, props, except)
    ensures a == b
  {
  }

  lemma EntryIsOne(node: NodeValue, cat: Catalogue, i: nat, a: Keyed, b: Keyed)
    requires Identifies(node, cat, i) && EntryAt(node, cat, i, a) && EntryAt(node, cat, i, b)
    ensures a == b
  {
    assert a.key.key == b.key.key;
    var names := cat.labels[node.labels[i]].key;
    HoldsOne(a.record.properties, b.record.properties, node.properties, set n | n in names);
  }

  lemma PlannedExactly(node: NodeValue, cat: Catalogue, k: Keyed)
    ensures KeyAndRecord(node, cat) == Ok(k) <==> NodePlanned(node, cat, k)
  {
    NodeAsAsked(node, cat);
    if KeyAndRecord(node, cat).Ok? {
      var i: nat :| Identifies(node, cat, i);
      assert EntryAt(node, cat, i, KeyAndRecord(node, cat).value);
    }
    if j: nat :| Identifies(node, cat, j) && EntryAt(node, cat, j, k) {
      EntryIsOne(node, cat, j, KeyAndRecord(node, cat).value, k);
    }
  }

  ghost predicate NodesPlanned(c: Changes, cat: Catalogue, base: Graph, ks: seq<Keyed>) {
    Keying(c, base, ks) && forall i :: 0 <= i < |ks| ==> NodePlanned(c.upserted[i], cat, ks[i])
  }

  ghost predicate TakenAt(c: Changes, cat: Catalogue, base: Graph, ks: seq<Keyed>, i: nat)
    requires i < |ks| == |c.upserted|
  {
    NextKey(c.upserted[i], c, cat, base, ks[..i]) == Ok(ks[i])
  }

  lemma {:induction false} KeyedFrom(c: Changes, cat: Catalogue, base: Graph, ks: seq<Keyed>, n: nat)
    requires n <= |ks| == |c.upserted| && forall i :: 0 <= i < |ks| ==> TakenAt(c, cat, base, ks, i)
    ensures KeyNodes(c, cat, base, n) == Ok(ks[..n])
  {
    if n > 0 {
      KeyedFrom(c, cat, base, ks, n - 1);
      assert TakenAt(c, cat, base, ks, n - 1);
      KeyOneMore(c, cat, base, n, ks[..n - 1], ks[n - 1]);
      assert ks[..n] == ks[..n - 1] + [ks[n - 1]];
    }
  }

  lemma KeyOneMore(c: Changes, cat: Catalogue, base: Graph, n: nat, before: seq<Keyed>, k: Keyed)
    requires 0 < n <= |c.upserted| && KeyNodes(c, cat, base, n - 1) == Ok(before)
    requires NextKey(c.upserted[n - 1], c, cat, base, before) == Ok(k)
    ensures KeyNodes(c, cat, base, n) == Ok(before + [k])
  {
  }

  lemma Unrefused(c: Changes, base: Graph, ks: seq<Keyed>, i: nat)
    requires Keying(c, base, ks) && i < |ks|
    ensures Refusal(c.upserted[i], ks[i].key, c, base, ks[..i]) == None
  {
    assert Placed(c, base, ks, i);
    assert forall j :: 0 <= j < i ==> ks[..i][j].key != ks[i].key;
  }

  lemma KeysExactly(c: Changes, cat: Catalogue, base: Graph, ks: seq<Keyed>)
    ensures KeyNodes(c, cat, base, |c.upserted|) == Ok(ks) <==> NodesPlanned(c, cat, base, ks)
  {
    if KeyNodes(c, cat, base, |c.upserted|) == Ok(ks) {
      KeysAreKeying(c, cat, base, ks);
      forall i | 0 <= i < |ks| ensures NodePlanned(c.upserted[i], cat, ks[i]) {
        NodeAdmitted(c, cat, base, ks, i);
        PlannedExactly(c.upserted[i], cat, ks[i]);
      }
    }
    if NodesPlanned(c, cat, base, ks) {
      forall i | 0 <= i < |ks| ensures TakenAt(c, cat, base, ks, i) {
        PlannedExactly(c.upserted[i], cat, ks[i]);
        Unrefused(c, base, ks, i);
      }
      KeyedFrom(c, cat, base, ks, |ks|);
      assert ks[..|ks|] == ks;
    }
  }

  // ----- checks -----

  lemma {:induction false} NoTypeError(types: Types, props: Properties)
    requires forall i :: 0 <= i < |types| ==> TypeHolds(types[i], props)
    ensures TypeError(types, props) == None
    decreases |types|
  {
    if types != [] {
      var n := |types| - 1;
      assert forall i :: 0 <= i < n ==> types[..n][i] == types[i];
      NoTypeError(types[..n], props);
    }
  }

  lemma {:induction false} WishesConvert(unique: seq<string>, props: Properties)
    requires forall p :: p in props ==> Convert(props[p], 0).Some?
    ensures Wishes(unique, props).Ok?
    decreases |unique|
  {
    if unique != [] { WishesConvert(unique[..|unique| - 1], props); }
  }

  lemma {:induction false} OnlyUniqueFails(x: Context, key: NodeKey, wishes: seq<Wish>, n: nat, claims: set<Claim>)
    requires n <= |wishes|
    ensures var r := CheckWishes(x, key, wishes, n, claims); r.Err? ==> r.error.UniqueViolation?
  {
    if n > 0 { OnlyUniqueFails(x, key, wishes, n - 1, claims); }
  }

  lemma ConformingFailsUnique(x: Context, node: NodeValue, key: NodeKey, claims: set<Claim>)
    requires Conforms(x.cat, node, key.primary) && forall p :: p in node.properties ==>
               Convert(node.properties[p], 0).Some?
    ensures var r := CheckNode(x, node, key, claims); r.Err? ==> r.error.UniqueViolation?
  {
    if key.primary in x.cat.labels {
      var def := x.cat.labels[key.primary];
      NoTypeError(def.types, node.properties);
      WishesConvert(def.unique, node.properties);
      var wishes := Wishes(def.unique, node.properties).value;
      OnlyUniqueFails(x, key, wishes, |wishes|, claims);
    }
  }

  lemma AllConvert(node: NodeValue, cat: Catalogue, k: Keyed)
    requires NodePlanned(node, cat, k)
    ensures forall p :: p in node.properties ==> Convert(node.properties[p], 0).Some?
  {
    var i: nat :| Identifies(node, cat, i) && EntryAt(node, cat, i, k);
    var names := cat.labels[node.labels[i]].key;
    forall p | p in node.properties ensures Convert(node.properties[p], 0).Some? {
      if p in names {
        var j :| 0 <= j < |names| && names[j] == p;
        assert KeyProperty(node.properties, names[j]);
      }
    }
  }

  lemma {:induction false} ConformingNodesFailUnique(c: Changes, x: Context, ks: seq<Keyed>, n: nat)
    requires n <= |ks| == |c.upserted|
    requires forall i :: 0 <= i < |ks| ==> NodePlanned(c.upserted[i], x.cat, ks[i])
    requires forall i :: 0 <= i < |ks| ==> Conforms(x.cat, c.upserted[i], ks[i].key.primary)
    ensures var r := CheckNodes(x, c.upserted, ks, n); r.Err? ==> r.error.UniqueViolation?
  {
    if n > 0 {
      ConformingNodesFailUnique(c, x, ks, n - 1);
      var r := CheckNodes(x, c.upserted, ks, n - 1);
      if r.Ok? {
        AllConvert(c.upserted[n - 1], x.cat, ks[n - 1]);
        ConformingFailsUnique(x, c.upserted[n - 1], ks[n - 1].key, r.value);
      }
    }
  }

  /** Required properties, declared types, and no rival for any UNIQUE value. */
  ghost predicate NodesPass(c: Changes, cat: Catalogue, base: Graph, ks: seq<Keyed>) {
    && |ks| == |c.upserted|
    && (forall i :: 0 <= i < |ks| ==> Conforms(cat, c.upserted[i], ks[i].key.primary))
    && forall i: nat, k, q :: !Rival(c, cat, base, ks, i, k, q)
  }

  lemma ChecksExactly(c: Changes, cat: Catalogue, base: Graph, ks: seq<Keyed>)
    requires NodesPlanned(c, cat, base, ks) && WellDeclared(cat)
    ensures CheckNodes(ContextOf(c, cat, base, ks), c.upserted, ks, |ks|).Ok? <==> NodesPass(c, cat, base, ks)
  {
    var x := ContextOf(c, cat, base, ks);
    KeysExactly(c, cat, base, ks);
    if CheckNodes(x, c.upserted, ks, |ks|).Ok? {
      forall i | 0 <= i < |ks| ensures Conforms(cat, c.upserted[i], ks[i].key.primary) {
        AllConform(x, c.upserted, ks, |ks|, i);
      }
      RefusedExactly(c, cat, base, ks);
    } else if NodesPass(c, cat, base, ks) {
      ConformingNodesFailUnique(c, x, ks, |ks|);
      RefusedExactly(c, cat, base, ks);
    }
  }

  // ----- relationships -----

  lemma EndpointExactly(c: Changes, base: Graph, p: Plan, id: EntityId, k: NodeKey)
    requires Keying(c, base, p.nodes)
    ensures Resolve(id, EntityKeys(c, p.nodes)) == Ok(k) <==> EndpointIs(c, p, id, k)
  {
    if Resolve(id, EntityKeys(c, p.nodes)) == Ok(k) { ResolvedEndpoint(c, base, p, id, k); }
    ResolvedIds(c, p.nodes, id);
    if EndpointIs(c, p, id, k) && id in EntityKeys(c, p.nodes) {
      var n: nat :| LastWith(c, id, n, |p.nodes|);
    }
  }

  /** The key runs between the endpoints, in their order, under the type. */
  ghost predicate Joins(c: Changes, p: Plan, rel: RelValue, key: EdgeKey) {
    && EndpointIs(c, p, rel.start, key.src) && EndpointIs(c, p, rel.end, key.dst)
    && key.rtype == rel.rtype && rel.rtype != ""
  }

  lemma JoinsExactly(c: Changes, base: Graph, p: Plan, rel: RelValue, key: EdgeKey)
    requires Keying(c, base, p.nodes)
    ensures EdgeKeyOf(rel, EntityKeys(c, p.nodes)) == Ok(key) <==> Joins(c, p, rel, key) && key.disc == Null
  {
    var ids := EntityKeys(c, p.nodes);
    EndpointExactly(c, base, p, rel.start, key.src);
    EndpointExactly(c, base, p, rel.end, key.dst);
  }

  /** The type declares this property to discriminate its parallel edges. */
  predicate Discriminates(cat: Catalogue, rtype: string, name: string) {
    rtype in cat.relTypes && cat.relTypes[rtype].discriminator == Some(name)
  }

  lemma DiscriminatesExactly(cat: Catalogue, rtype: string, name: string)
    ensures Discriminates(cat, rtype, name) <==> Discriminator(cat, rtype) == Some(name)
  {
  }

  /** Null without a declared discriminator, else the value of that property, which must be a scalar. */
  ghost predicate DiscIs(cat: Catalogue, rel: RelValue, disc: Value) {
    && ((forall name :: !Discriminates(cat, rel.rtype, name)) ==> disc == Null)
    && forall name :: Discriminates(cat, rel.rtype, name) ==>
         KeyProperty(rel.properties, name) && disc == Norm(Convert(rel.properties[name], 0).value)
  }

  lemma CreatedKeyExactly(c: Changes, cat: Catalogue, base: Graph, p: Plan, rel: RelValue, key: EdgeKey)
    requires Keying(c, base, p.nodes)
    ensures CreatedKey(rel, EntityKeys(c, p.nodes), cat) == Ok(key) <==>
              Joins(c, p, rel, key) && DiscIs(cat, rel, key.disc)
  {
    JoinsExactly(c, base, p, rel, key.(disc := Null));
    assert Joins(c, p, rel, key.(disc := Null)) <==> Joins(c, p, rel, key);
    var plain := EdgeKeyOf(rel, EntityKeys(c, p.nodes));
    if plain.Ok? { JoinsExactly(c, base, p, rel, plain.value); }
    forall name ensures Discriminates(cat, rel.rtype, name) <==> Discriminator(cat, rel.rtype) == Some(name) {
      DiscriminatesExactly(cat, rel.rtype, name);
    }
  }

  /** What every written relationship satisfies: its record is what it holds apart from the discriminator, and meets the
      declared types. */
  ghost predicate WellPut(cat: Catalogue, rel: RelValue, put: PutEdge) {
    && Holds(put.record.properties, rel.properties, set p | p in rel.properties && Discriminates(cat, put.key.rtype, p))
    && RelConforms(cat, put) && RecordStorable(put.record.properties)
  }

  lemma RestExactly(cat: Catalogue, rtype: string, stored: map<string, Value>, props: Properties)
    ensures Holds(stored, props, NameSet(Discriminator(cat, rtype))) <==>
              Holds(stored, props, set p | p in props && Discriminates(cat, rtype, p))
  {
    var named, declared := NameSet(Discriminator(cat, rtype)), set p | p in props && Discriminates(cat, rtype, p);
    forall p | p in props ensures p in named <==> p in declared { DiscriminatesExactly(cat, rtype, p); }
  }

  lemma TypesExactly(cat: Catalogue, put: PutEdge)
    ensures RelTypesHold(cat, put.key, put.record) <==> RelConforms(cat, put)
  {
    if put.key.rtype in cat.relTypes {
      var def := cat.relTypes[put.key.rtype];
      forall i, v | 0 <= i < |def.types| ensures Matches(def.types[i].1, v) <==> Meets(def.types[i].1, v) {
        MatchesExactly(def.types[i].1, v);
      }
      forall i | 0 <= i < |def.types| && def.types[i].0 in put.record.properties
        ensures Carries(put, def.discriminator, def.types[i].0, put.record.properties[def.types[i].0]) {
      }
      forall i | 0 <= i < |def.types| && def.discriminator == Some(def.types[i].0)
        ensures Carries(put, def.discriminator, def.types[i].0, put.key.disc) {
      }
    }
  }

  /** Converting everything and leaving the discriminator out gives exactly the record. */
  lemma RecordExactly(props: Properties, name: Option<string>, record: map<string, Value>)
    requires name.Some? && name.value in props ==> Convert(props[name.value], 0).Some?
    ensures ConvertMap(props, []).Some? && Without(ConvertMap(props, []).value, name) == record <==>
              Holds(record, props, NameSet(name))
  {
    if ConvertMap(props, []).Some? {
      var all := ConvertMap(props, []).value;
      assert Holds(Without(all, name), props, NameSet(name));
      if Holds(record, props, NameSet(name)) { HoldsOne(record, Without(all, name), props, NameSet(name)); }
    }
  }

  /** A created relationship: between its endpoints, under its type and discriminator. */
  ghost predicate CreatedPut(c: Changes, cat: Catalogue, p: Plan, rel: RelValue, put: PutEdge) {
    Joins(c, p, rel, put.key) && DiscIs(cat, rel, put.key.disc) && WellPut(cat, rel, put)
  }

  lemma CreatedExactly(c: Changes, cat: Catalogue, base: Graph, p: Plan, rel: RelValue, existing: set<EdgeKey>,
      put: PutEdge)
    requires Keying(c, base, p.nodes)
    ensures CreateEdge(rel, EntityKeys(c, p.nodes), cat, existing) == Ok(put) <==>
              put.key !in existing && CreatedPut(c, cat, p, rel, put)
  {
    var ids := EntityKeys(c, p.nodes);
    CreatedKeyExactly(c, cat, base, p, rel, put.key);
    if CreatedKey(rel, ids, cat).Ok? {
      var key := CreatedKey(rel, ids, cat).value;
      CreatedKeyExactly(c, cat, base, p, rel, key);
      RecordExactly(rel.properties, Discriminator(cat, rel.rtype), put.record.properties);
      RestExactly(cat, put.key.rtype, put.record.properties, rel.properties);
      TypesExactly(cat, put);
      CreateSteps(rel, ids, cat, existing, put);
    }
  }

  lemma CreateSteps(rel: RelValue, ids: map<EntityId, NodeKey>, cat: Catalogue, existing: set<EdgeKey>, put: PutEdge)
    requires CreatedKey(rel, ids, cat).Ok?
    ensures CreateEdge(rel, ids, cat, existing) == Ok(put) <==>
              && CreatedKey(rel, ids, cat) == Ok(put.key) && put.key !in existing
              && ConvertMap(rel.properties, []).Some?
              && Without(ConvertMap(rel.properties, []).value, Discriminator(cat, rel.rtype)) == put.record.properties
              && RelTypesHold(cat, put.key, put.record) && RecordStorable(put.record.properties)
  {
  }

  /** The key a bound relationship was read from, or the one its endpoints give. */
  ghost predicate BoundAt(c: Changes, p: Plan, rel: RelValue, key: EdgeKey) {
    if rel.id.EdgeId? then key == rel.id.edge else Joins(c, p, rel, key) && key.disc == Null
  }

  lemma BoundExactly(c: Changes, base: Graph, p: Plan, rel: RelValue, key: EdgeKey)
    requires Keying(c, base, p.nodes)
    ensures BoundKey(rel, EntityKeys(c, p.nodes)) == Ok(key) <==> BoundAt(c, p, rel, key)
  {
    if !rel.id.EdgeId? { JoinsExactly(c, base, p, rel, key); }
  }

  /** A modified relationship: at its key, whose discriminator its property still equals. */
  ghost predicate ModifiedPut(c: Changes, cat: Catalogue, p: Plan, rel: RelValue, put: PutEdge) {
    && BoundAt(c, p, rel, put.key) && DiscKept(cat, rel, put.key) && WellPut(cat, rel, put)
  }

  ghost predicate DiscKept(cat: Catalogue, rel: RelValue, key: EdgeKey) {
    forall name :: Discriminates(cat, key.rtype, name) ==>
      name in rel.properties && Convert(rel.properties[name], 0).Some? &&
      Same(Convert(rel.properties[name], 0).value, key.disc)
  }

  lemma ModifiedExactly(c: Changes, cat: Catalogue, base: Graph, p: Plan, rel: RelValue, put: PutEdge)
    requires Keying(c, base, p.nodes)
    ensures ModifyEdge(rel, EntityKeys(c, p.nodes), cat) == Ok(put) <==> ModifiedPut(c, cat, p, rel, put)
  {
    var ids := EntityKeys(c, p.nodes);
    BoundExactly(c, base, p, rel, put.key);
    ModifySteps(rel, ids, cat, put);
    TypesExactly(cat, put);
    RestExactly(cat, put.key.rtype, put.record.properties, rel.properties);
    forall name ensures Discriminates(cat, put.key.rtype, name) <==> Discriminator(cat, put.key.rtype) == Some(name) {
      DiscriminatesExactly(cat, put.key.rtype, name);
    }
    if DiscKept(cat, rel, put.key) {
      RecordExactly(rel.properties, Discriminator(cat, put.key.rtype), put.record.properties);
    }
  }

  lemma ModifySteps(rel: RelValue, ids: map<EntityId, NodeKey>, cat: Catalogue, put: PutEdge)
    ensures ModifyEdge(rel, ids, cat) == Ok(put) <==>
              && BoundKey(rel, ids) == Ok(put.key) && DiscKept(cat, rel, put.key)
              && ConvertMap(rel.properties, []).Some?
              && Without(ConvertMap(rel.properties, []).value, Discriminator(cat, put.key.rtype)) ==
                 put.record.properties
              && RelTypesHold(cat, put.key, put.record) && RecordStorable(put.record.properties)
  {
    forall name ensures Discriminates(cat, put.key.rtype, name) <==> Discriminator(cat, put.key.rtype) == Some(name) {
      DiscriminatesExactly(cat, put.key.rtype, name);
    }
  }

  // ----- the loops -----

  ghost predicate AllCreated(c: Changes, cat: Catalogue, p: Plan, rels: seq<RelValue>, ps: seq<PutEdge>) {
    |ps| == |rels| && forall i :: 0 <= i < |ps| ==> CreatedPut(c, cat, p, rels[i], ps[i])
  }

  lemma {:induction false} CreatesExactly(c: Changes, cat: Catalogue, base: Graph, p: Plan, stored: set<EdgeKey>,
      n: nat, ps: seq<PutEdge>)
    requires Keying(c, base, p.nodes) && n <= |c.created|
    ensures CreateEdges(c.created, EntityKeys(c, p.nodes), cat, stored, n) == Ok(ps) <==>
              AllCreated(c, cat, p, c.created[..n], ps) && FreshPuts(ps, stored)
    decreases n
  {
    if n > 0 && |ps| == n {
      var before, last := ps[..n - 1], ps[n - 1];
      assert ps == before + [last];
      CreatesExactly(c, cat, base, p, stored, n - 1, before);
      CreatedExactly(c, cat, base, p, c.created[n - 1], stored + KeysOf(before), last);
      FreshSnoc(before, last, stored);
      CreatedSnoc(c, cat, p, n, before, last);
      CreateUnrolls(c.created, EntityKeys(c, p.nodes), cat, stored, n, before, last);
    }
  }

  lemma CreateUnrolls(rels: seq<RelValue>, ids: map<EntityId, NodeKey>, cat: Catalogue, stored: set<EdgeKey>, n: nat,
      before: seq<PutEdge>, last: PutEdge)
    requires 0 < n <= |rels| && |before| == n - 1
    ensures CreateEdges(rels, ids, cat, stored, n) == Ok(before + [last]) <==>
              && CreateEdges(rels, ids, cat, stored, n - 1) == Ok(before)
              && CreateEdge(rels[n - 1], ids, cat, stored + KeysOf(before)) == Ok(last)
  {
    var ps := before + [last];
    if CreateEdges(rels, ids, cat, stored, n) == Ok(ps) {
      var first := CreateEdges(rels, ids, cat, stored, n - 1).value;
      assert ps[..n - 1] == first && ps[..n - 1] == before;
      assert ps[n - 1] == last;
    }
  }

  lemma FreshSnoc(before: seq<PutEdge>, last: PutEdge, stored: set<EdgeKey>)
    ensures FreshPuts(before + [last], stored) <==> FreshPuts(before, stored) && last.key !in stored + KeysOf(before)
  {
    var ps := before + [last];
    if FreshPuts(ps, stored) {
      forall i | 0 <= i < |before| ensures before[i].key !in stored && before[i].key != last.key
          && forall j :: 0 <= j < i ==> before[j].key != before[i].key {
        assert ps[i] == before[i] && ps[|before|] == last;
        assert forall j :: 0 <= j < i ==> ps[j] == before[j];
      }
      assert ps[|before|].key !in stored;
    }
    if FreshPuts(before, stored) && last.key !in stored + KeysOf(before) {
      assert forall i :: 0 <= i < |before| ==> before[i] in before && before[i].key in KeysOf(before);
    }
  }

  lemma CreatedSnoc(c: Changes, cat: Catalogue, p: Plan, n: nat, before: seq<PutEdge>, last: PutEdge)
    requires 0 < n <= |c.created| && |before| == n - 1
    ensures AllCreated(c, cat, p, c.created[..n], before + [last]) <==>
              AllCreated(c, cat, p, c.created[..n - 1], before) && CreatedPut(c, cat, p, c.created[n - 1], last)
  {
    var rels, ps := c.created[..n], before + [last];
    assert forall i :: 0 <= i < n - 1 ==> rels[i] == c.created[..n - 1][i] && ps[i] == before[i];
    assert rels[n - 1] == c.created[n - 1] && ps[n - 1] == last;
  }

  lemma {:induction false} ModifyEach(rels: seq<RelValue>, ids: map<EntityId, NodeKey>, cat: Catalogue, n: nat,
      ps: seq<PutEdge>)
    requires n <= |rels|
    ensures ModifyEdges(rels, ids, cat, n) == Ok(ps) <==>
              |ps| == n && forall i :: 0 <= i < n ==> ModifyEdge(rels[i], ids, cat) == Ok(ps[i])
    decreases n
  {
    if n > 0 && |ps| == n {
      ModifyEach(rels, ids, cat, n - 1, ps[..n - 1]);
      assert ps == ps[..n - 1] + [ps[n - 1]];
    }
  }

  lemma {:induction false} BindEach(rels: seq<RelValue>, ids: map<EntityId, NodeKey>, n: nat, keys: seq<EdgeKey>)
    requires n <= |rels|
    ensures BoundKeys(rels, ids, n) == Ok(keys) <==>
              |keys| == n && forall i :: 0 <= i < n ==> BoundKey(rels[i], ids) == Ok(keys[i])
    decreases n
  {
    if n > 0 && |keys| == n {
      BindEach(rels, ids, n - 1, keys[..n - 1]);
      assert keys == keys[..n - 1] + [keys[n - 1]];
    }
  }

  lemma {:induction false} DeleteEach(ids: seq<EntityId>, n: nat, keys: seq<NodeKey>)
    requires n <= |ids|
    ensures DeletedKeys(ids, n) == Ok(keys) <==> |keys| == n && forall i :: 0 <= i < n ==> ids[i] == NodeId(keys[i])
    decreases n
  {
    if n > 0 && |keys| == n {
      DeleteEach(ids, n - 1, keys[..n - 1]);
      assert keys == keys[..n - 1] + [keys[n - 1]];
    }
  }

  /** No created key is that of a surviving stored edge or of another created one. */
  ghost predicate NewKeys(base: Graph, p: Plan) {
    && (forall i :: 0 <= i < |p.created| && p.created[i].key in base.edges ==> p.created[i].key in p.deletedEdges)
    && forall i, j :: 0 <= i < j < |p.created| ==> p.created[i].key != p.created[j].key
  }

  lemma NewExactly(base: Graph, p: Plan)
    ensures FreshPuts(p.created, Existing(base, p.deletedEdges)) <==> NewKeys(base, p)
  {
  }

  /** The relationships of the plan, and the nodes it deletes. */
  ghost predicate EdgesPlanned(c: Changes, cat: Catalogue, base: Graph, p: Plan) {
    && AllCreated(c, cat, p, c.created, p.created) && NewKeys(base, p)
    && |p.modified| == |c.modified|
    && (forall i :: 0 <= i < |p.modified| ==> ModifiedPut(c, cat, p, c.modified[i], p.modified[i]))
    && |p.deletedEdges| == |c.deletedRels|
    && (forall i :: 0 <= i < |p.deletedEdges| ==> BoundAt(c, p, c.deletedRels[i], p.deletedEdges[i]))
    && |p.deletedNodes| == |c.deletedNodes|
    && (forall i :: 0 <= i < |p.deletedNodes| ==> c.deletedNodes[i] == NodeId(p.deletedNodes[i]))
  }

  lemma EdgesExactly(c: Changes, cat: Catalogue, base: Graph, p: Plan)
    requires Keying(c, base, p.nodes)
    ensures EdgesPlanned(c, cat, base, p) <==>
              && EdgeSteps(c, cat, base, p, EntityKeys(c, p.nodes))
              && DeletedKeys(c.deletedNodes, |c.deletedNodes|) == Ok(p.deletedNodes)
  {
    var ids := EntityKeys(c, p.nodes);
    assert c.created[..|c.created|] == c.created;
    NewExactly(base, p);
    CreatesExactly(c, cat, base, p, Existing(base, p.deletedEdges), |c.created|, p.created);
    DeleteEach(c.deletedNodes, |c.deletedNodes|, p.deletedNodes);
    ModifyEach(c.modified, ids, cat, |c.modified|, p.modified);
    BindEach(c.deletedRels, ids, |c.deletedRels|, p.deletedEdges);
    if |p.modified| == |c.modified| {
      forall i | 0 <= i < |p.modified| ensures ModifyEdge(c.modified[i], ids, cat) == Ok(p.modified[i]) <==>
          ModifiedPut(c, cat, p, c.modified[i], p.modified[i]) {
        ModifiedExactly(c, cat, base, p, c.modified[i], p.modified[i]);
      }
    }
    if |p.deletedEdges| == |c.deletedRels| {
      forall i | 0 <= i < |p.deletedEdges| ensures BoundKey(c.deletedRels[i], ids) == Ok(p.deletedEdges[i]) <==>
          BoundAt(c, p, c.deletedRels[i], p.deletedEdges[i]) {
        BoundExactly(c, base, p, c.deletedRels[i], p.deletedEdges[i]);
      }
    }
  }

  // ----- the plan -----

  /** Everything a plan of the statement must be, each part described on its own. */
  ghost predicate IsPlan(c: Changes, cat: Catalogue, base: Graph, p: Plan) {
    && NodesPlanned(c, cat, base, p.nodes) && NodesPass(c, cat, base, p.nodes) && AllStorable(p.nodes)
    && EdgesPlanned(c, cat, base, p)
  }

  lemma WritesExactly(c: Changes, cat: Catalogue, base: Graph, ks: seq<Keyed>, ids: map<EntityId, NodeKey>, p: Plan)
    ensures PlanWrites(c, cat, base, ks, ids) == Ok(p) <==>
              && p.nodes == ks && AllStorable(ks) && EdgeSteps(c, cat, base, p, ids)
              && DeletedKeys(c.deletedNodes, |c.deletedNodes|) == Ok(p.deletedNodes)
  {
  }

  /** The replay makes the plan `p` exactly when `p` is a plan of the statement. */
  lemma PlanExactly(c: Changes, cat: Catalogue, base: Graph, p: Plan)
    requires WellDeclared(cat)
    ensures MakePlan(c, cat, base) == Ok(p) <==> IsPlan(c, cat, base, p)
  {
    KeysExactly(c, cat, base, p.nodes);
    var ks := KeyNodes(c, cat, base, |c.upserted|);
    if ks.Ok? {
      KeysExactly(c, cat, base, ks.value);
      WritesExactly(c, cat, base, ks.value, EntityKeys(c, ks.value), p);
    }
    if NodesPlanned(c, cat, base, p.nodes) {
      ChecksExactly(c, cat, base, p.nodes);
      EdgesExactly(c, cat, base, p);
    }
  }

  /** A statement is accepted exactly when it has a plan, and no statement has two. */
  lemma AcceptedExactly(c: Changes, cat: Catalogue, base: Graph)
    requires WellDeclared(cat)
    ensures MakePlan(c, cat, base).Ok? <==> exists p :: IsPlan(c, cat, base, p)
    ensures forall p, q :: IsPlan(c, cat, base, p) && IsPlan(c, cat, base, q) ==> p == q
  {
    forall p ensures MakePlan(c, cat, base) == Ok(p) <==> IsPlan(c, cat, base, p) { PlanExactly(c, cat, base, p); }
    if MakePlan(c, cat, base).Ok? { assert IsPlan(c, cat, base, MakePlan(c, cat, base).value); }
  }
}
