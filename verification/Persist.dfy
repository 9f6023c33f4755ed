/** The replay as it runs: hash sets, maps and vectors grown in loops, operations staged on a transaction
    (crates/acetone-cypher/src/persist.rs, crates/acetone-graph/src/repo.rs). */
module Persist {
  import opened Wrappers
  import opened Values
  import opened Replay
  import opened Conservation

  // ----- an error met on the way is the error of the whole -----

  lemma {:induction false} KeyValuesStop(names: seq<string>, props: Properties, i: nat, n: nat)
    requires i <= n <= |names| && KeyValues(names, props, i).Err?
    ensures KeyValues(names, props, n) == KeyValues(names, props, i)
    decreases n
  {
    if i < n { KeyValuesStop(names, props, i, n - 1); }
  }

  lemma {:induction false} KeyNodesStop(c: Changes, cat: Catalogue, base: Graph, i: nat, n: nat)
    requires i <= n <= |c.upserted| && KeyNodes(c, cat, base, i).Err?
    ensures KeyNodes(c, cat, base, n) == KeyNodes(c, cat, base, i)
    decreases n
  {
    if i < n { KeyNodesStop(c, cat, base, i, n - 1); }
  }

  lemma {:induction false} TypeErrorStops(types: Types, props: Properties, i: nat)
    requires i <= |types| && TypeError(types[..i], props).Some?
    ensures TypeError(types, props) == TypeError(types[..i], props)
    decreases |types|
  {
    if i < |types| {
      var front := types[..|types| - 1];
      assert front[..i] == types[..i];
      TypeErrorStops(front, props, i);
    } else {
      assert types[..i] == types;
    }
  }

  lemma {:induction false} WishesStop(unique: seq<string>, props: Properties, i: nat)
    requires i <= |unique| && Wishes(unique[..i], props).Err?
    ensures Wishes(unique, props) == Wishes(unique[..i], props)
    decreases |unique|
  {
    if i < |unique| {
      var front := unique[..|unique| - 1];
      assert front[..i] == unique[..i];
      WishesStop(front, props, i);
    } else {
      assert unique[..i] == unique;
    }
  }

  lemma {:induction false} CheckWishesStop(x: Context, key: NodeKey, wishes: seq<Wish>, claims: set<Claim>, i: nat,
      n: nat)
    requires i <= n <= |wishes| && CheckWishes(x, key, wishes, i, claims).Err?
    ensures CheckWishes(x, key, wishes, n, claims) == CheckWishes(x, key, wishes, i, claims)
    decreases n
  {
    if i < n { CheckWishesStop(x, key, wishes, claims, i, n - 1); }
  }

  lemma {:induction false} CheckNodesStop(x: Context, nodes: seq<NodeValue>, ks: seq<Keyed>, i: nat, n: nat)
    requires i <= n <= |ks| == |nodes| && CheckNodes(x, nodes, ks, i).Err?
    ensures CheckNodes(x, nodes, ks, n) == CheckNodes(x, nodes, ks, i)
    decreases n
  {
    if i < n { CheckNodesStop(x, nodes, ks, i, n - 1); }
  }

  lemma {:induction false} BoundKeysStop(rels: seq<RelValue>, ids: map<EntityId, NodeKey>, i: nat, n: nat)
    requires i <= n <= |rels| && BoundKeys(rels, ids, i).Err?
    ensures BoundKeys(rels, ids, n) == BoundKeys(rels, ids, i)
    decreases n
  {
    if i < n { BoundKeysStop(rels, ids, i, n - 1); }
  }

  lemma {:induction false} DeletedKeysStop(ids: seq<EntityId>, i: nat, n: nat)
    requires i <= n <= |ids| && DeletedKeys(ids, i).Err?
    ensures DeletedKeys(ids, n) == DeletedKeys(ids, i)
    decreases n
  {
    if i < n { DeletedKeysStop(ids, i, n - 1); }
  }

  lemma {:induction false} CreateEdgesStop(rels: seq<RelValue>, ids: map<EntityId, NodeKey>, cat: Catalogue,
      existing: set<EdgeKey>, i: nat, n: nat)
    requires i <= n <= |rels| && CreateEdges(rels, ids, cat, existing, i).Err?
    ensures CreateEdges(rels, ids, cat, existing, n) == CreateEdges(rels, ids, cat, existing, i)
    decreases n
  {
    if i < n { CreateEdgesStop(rels, ids, cat, existing, i, n - 1); }
  }

  lemma {:induction false} ModifyEdgesStop(rels: seq<RelValue>, ids: map<EntityId, NodeKey>, cat: Catalogue, i: nat,
      n: nat)
    requires i <= n <= |rels| && ModifyEdges(rels, ids, cat, i).Err?
    ensures ModifyEdges(rels, ids, cat, n) == ModifyEdges(rels, ids, cat, i)
    decreases n
  {
    if i < n { ModifyEdgesStop(rels, ids, cat, i, n - 1); }
  }

  // ----- node identity -----

  method NodeKeyAndRecord(node: NodeValue, cat: Catalogue) returns (r: Result<Keyed, Error>)
    ensures r == KeyAndRecord(node, cat)
  {
    var keyed := KeyedLabels(node.labels, cat);
    if keyed == [] { return Err(NoIdentity); }
    if |keyed| > 1 { return Err(AmbiguousIdentity); }
    var primary := keyed[0];
    var names := cat.labels[primary].key;
    var values: seq<Value> := [];
    for i := 0 to |names|
      invariant KeyValues(names, node.properties, i) == Ok(values)
    {
      var v := KeyValue(names[i], node.properties);
      if v.Err? {
        KeyValuesStop(names, node.properties, i + 1, |names|);
        return Err(v.error);
      }
      values := values + [v.value];
    }
    var key := MakeNodeKey(primary, values);
    if key.Err? { return Err(key.error); }
    match ConvertMap(node.properties, names)
    case None => return Err(Unstorable);
    case Some(props) => return Ok(Entry(key.value, NodeRecord((set l | l in node.labels && l != primary), props)));
  }

  /** The first loop of `persist_changes`: keys, records, and the ids they resolve. */
  method DeriveKeys(c: Changes, cat: Catalogue, base: Graph)
      returns (r: Result<seq<Keyed>, Error>, written: set<NodeKey>, ids: map<EntityId, NodeKey>)
    ensures r == KeyNodes(c, cat, base, |c.upserted|)
    ensures r.Ok? ==> written == KeysOf(r.value) && ids == EntityKeys(c, r.value)
  {
    var ks: seq<Keyed> := [];
    written, ids := {}, map[];
    for i := 0 to |c.upserted|
      invariant KeyNodes(c, cat, base, i) == Ok(ks)
      invariant written == KeysOf(ks) && ids == EntityKeys(c, ks)
    {
      var node := c.upserted[i];
      var k := DeriveKey(node, c, cat, base, ks, written);
      KeyStep(c, cat, base, i, ks);
      if k.Err? {
        KeyNodesStop(c, cat, base, i + 1, |c.upserted|);
        return Err(k.error), written, ids;
      }
      KeysSnoc(c, ks, k.value);
      written, ids, ks := written + {k.value.key}, ids[node.id := k.value.key], ks + [k.value];
    }
    return Ok(ks), written, ids;
  }

  method DeriveKey(node: NodeValue, c: Changes, cat: Catalogue, base: Graph, ghost ks: seq<Keyed>,
      written: set<NodeKey>) returns (r: Result<Keyed, Error>)
    requires written == KeysOf(ks)
    ensures r == NextKey(node, c, cat, base, ks)
  {
    r := NodeKeyAndRecord(node, cat);
    if r.Err? { return; }
    var refusal := Refuse(node, r.value.key, c, base, ks, written);
    if refusal.Some? { return Err(refusal.value); }
  }

  lemma KeyStep(c: Changes, cat: Catalogue, base: Graph, i: nat, ks: seq<Keyed>)
    requires i < |c.upserted| && KeyNodes(c, cat, base, i) == Ok(ks)
    ensures KeyNodes(c, cat, base, i + 1) ==
              match NextKey(c.upserted[i], c, cat, base, ks) case Err(e) => Err(e) case Ok(k) => Ok(ks + [k])
  {
  }

  lemma KeysSnoc(c: Changes, ks: seq<Keyed>, k: Keyed)
    requires |ks| < |c.upserted|
    ensures KeysOf(ks + [k]) == KeysOf(ks) + {k.key}
    ensures EntityKeys(c, ks + [k]) == EntityKeys(c, ks)[c.upserted[|ks|].id := k.key]
  {
    assert (ks + [k])[..|ks|] == ks;
    EntriesSnoc(ks, k);
  }

  method Refuse(node: NodeValue, key: NodeKey, c: Changes, base: Graph, ghost ks: seq<Keyed>, written: set<NodeKey>)
      returns (r: Option<Error>)
    requires written == KeysOf(ks)
    ensures r == Refusal(node, key, c, base, ks)
  {
    if !node.id.NodeId? {
      if key in base.nodes && NodeId(key) !in c.deletedNodes { return Some(DuplicateKey); }
    } else if node.id.node != key {
      return Some(KeyImmutable);
    }
    assert key in written <==> exists i :: 0 <= i < |ks| && ks[i].key == key;
    return if key in written then Some(DuplicateKeyInStatement) else None;
  }

  // ----- uniqueness -----

  class UniqueChecker {
    const x: Context
    var claims: set<Claim>

    constructor (x: Context)
      ensures this.x == x && claims == {}
    {
      this.x := x;
      claims := {};
    }

    /** The label-scan fallback. */
    method Scan(lbl: string, property: string, v: Value) returns (out: set<NodeKey>)
      ensures out == ScannedCollisions(x, lbl, property, v)
    {
      out := {};
      var pending := x.base.nodes.Keys;
      while pending != {}
        invariant pending <= x.base.nodes.Keys
        invariant out == ScannedCollisions(x, lbl, property, v) - pending
        decreases pending
      {
        var k :| k in pending;
        var record := x.base.nodes[k];
        if k.primary == lbl && property in record.properties && Same(record.properties[property], v) {
          out := out + {k};
        }
        pending := pending - {k};
      }
    }

    /** Is a colliding node live? Superseded and deleted ones are skipped. */
    method FindLive(colliding: set<NodeKey>, key: NodeKey) returns (live: bool)
      ensures live <==> exists k :: k in colliding && k != key && NodeId(k) !in x.deleted && k !in x.written
    {
      var pending := colliding;
      while pending != {}
        invariant pending <= colliding
        invariant forall k :: k in colliding && k !in pending ==> k == key || NodeId(k) in x.deleted || k in x.written
        decreases pending
      {
        var k :| k in pending;
        if k != key && NodeId(k) !in x.deleted && k !in x.written { return true; }
        pending := pending - {k};
      }
      return false;
    }

    method CheckOne(key: NodeKey, property: string, v: Value) returns (r: Result<(), Error>)
      modifies this
      ensures match CheckValue(x, key, property, v, old(claims))
              case Ok(next) => r == Ok(()) && claims == next
              case Err(e) => r == Err(e)
    {
      if Claimable(v) {
        var claim := Claim(key.primary, property, Norm(v));
        if claim in claims { return Err(UniqueViolation(key.primary, property)); }
        claims := claims + {claim};
      }
      var colliding;
      var indexed := IndexedCollisions(x, key.primary, property, v);
      if indexed.Some? { colliding := indexed.value; } else { colliding := Scan(key.primary, property, v); }
      var live := FindLive(colliding, key);
      return if live then Err(UniqueViolation(key.primary, property)) else Ok(());
    }

    method CheckAll(key: NodeKey, wishes: seq<Wish>) returns (r: Result<(), Error>)
      modifies this
      ensures match CheckWishes(x, key, wishes, |wishes|, old(claims))
              case Ok(next) => r == Ok(()) && claims == next
              case Err(e) => r == Err(e)
    {
      for i := 0 to |wishes|
        invariant CheckWishes(x, key, wishes, i, old(claims)) == Ok(claims)
      {
        var one := CheckOne(key, wishes[i].property, wishes[i].value);
        if one.Err? {
          CheckWishesStop(x, key, wishes, old(claims), i + 1, |wishes|);
          return one;
        }
      }
      return Ok(());
    }

    /** Existence, declared types, then the unique values. */
    method Check(node: NodeValue, key: NodeKey) returns (r: Result<(), Error>)
      modifies this
      ensures match CheckNode(x, node, key, old(claims))
              case Ok(next) => r == Ok(()) && claims == next
              case Err(e) => r == Err(e)
    {
      if key.primary !in x.cat.labels { return Ok(()); }
      var def := x.cat.labels[key.primary];
      for i := 0 to |def.required|
        invariant forall j :: 0 <= j < i ==> def.required[j] in node.properties
      {
        if def.required[i] !in node.properties { return Err(MissingRequired); }
      }
      var wrong := WrongTypes(def.types, node.properties);
      if wrong.Some? { return Err(wrong.value); }
      var wishes := Wanted(def.unique, node.properties);
      if wishes.Err? { return Err(wishes.error); }
      r := CheckAll(key, wishes.value);
    }
  }

  method WrongTypes(types: Types, props: Properties) returns (r: Option<Error>)
    ensures r == TypeError(types, props)
  {
    for i := 0 to |types|
      invariant TypeError(types[..i], props) == None
    {
      assert types[..i + 1][..i] == types[..i];
      if types[i].0 in props {
        var v := Convert(props[types[i].0], 0);
        if v.None? || !Matches(types[i].1, v.value) {
          TypeErrorStops(types, props, i + 1);
          return Some(if v.None? then Unstorable else WrongType);
        }
      }
    }
    assert types[..|types|] == types;
    return None;
  }

  method Wanted(unique: seq<string>, props: Properties) returns (r: Result<seq<Wish>, Error>)
    ensures r == Wishes(unique, props)
  {
    var out: seq<Wish> := [];
    for i := 0 to |unique|
      invariant Wishes(unique[..i], props) == Ok(out)
    {
      assert unique[..i + 1][..i] == unique[..i];
      if unique[i] in props {
        var v := Convert(props[unique[i]], 0);
        if v.None? {
          WishesStop(unique, props, i + 1);
          return Err(Unstorable);
        }
        out := out + [Wish(unique[i], v.value)];
      }
    }
    assert unique[..|unique|] == unique;
    return Ok(out);
  }

  method RunChecks(x: Context, nodes: seq<NodeValue>, ks: seq<Keyed>) returns (r: Result<(), Error>)
    requires |ks| == |nodes|
    ensures match CheckNodes(x, nodes, ks, |ks|) case Ok(_) => r == Ok(()) case Err(e) => r == Err(e)
  {
    var checker := new UniqueChecker(x);
    for i := 0 to |ks|
      invariant checker.x == x && CheckNodes(x, nodes, ks, i) == Ok(checker.claims)
    {
      var one := checker.Check(nodes[i], ks[i].key);
      if one.Err? {
        CheckNodesStop(x, nodes, ks, i + 1, |ks|);
        return one;
      }
    }
    return Ok(());
  }

  // ----- the transaction -----

  class Transaction {
    var nodes: seq<Op<NodeKey, NodeRecord>>
    var edgesFwd: seq<Op<EdgeKey, EdgeRecord>>
    var edgesRev: seq<Op<EdgeKey, ()>>

    /** The reverse map is staged to mirror the forward one. */
    ghost predicate Valid() reads this { edgesRev == Mirror(edgesFwd) }

    constructor ()
      ensures Valid() && nodes == [] && edgesFwd == []
    {
      nodes, edgesFwd, edgesRev := [], [], [];
    }

    method PutNode(key: NodeKey, record: NodeRecord) returns (ok: bool)
      requires Valid()
      modifies this
      ensures Valid() && edgesFwd == old(edgesFwd) && ok == RecordStorable(record.properties)
      ensures nodes == if ok then old(nodes) + [Write(key, record)] else old(nodes)
    {
      ok := RecordStorable(record.properties);
      if ok { nodes := nodes + [Write(key, record)]; }
    }

    method DeleteNode(key: NodeKey)
      requires Valid()
      modifies this
      ensures Valid() && edgesFwd == old(edgesFwd) && nodes == old(nodes) + [Erase(key)]
    {
      nodes := nodes + [Erase(key)];
    }

    method PutEdge(key: EdgeKey, record: EdgeRecord) returns (ok: bool)
      requires Valid()
      modifies this
      ensures Valid() && nodes == old(nodes) && ok == RecordStorable(record.properties)
      ensures edgesFwd == if ok then old(edgesFwd) + [Write(key, record)] else old(edgesFwd)
    {
      ok := RecordStorable(record.properties);
      if ok {
        edgesFwd := edgesFwd + [Write(key, record)];
        edgesRev := edgesRev + [Write(Flip(key), ())];
      }
    }

    method DeleteEdge(key: EdgeKey)
      requires Valid()
      modifies this
      ensures Valid() && nodes == old(nodes) && edgesFwd == old(edgesFwd) + [Erase(key)]
    {
      edgesFwd := edgesFwd + [Erase(key)];
      edgesRev := edgesRev + [Erase(Flip(key))];
    }
  }

  // ----- staging -----

  method StageDeletedRels(txn: Transaction, rels: seq<RelValue>, ids: map<EntityId, NodeKey>)
      returns (r: Result<seq<EdgeKey>, Error>)
    requires txn.Valid()
    modifies txn
    ensures txn.Valid() && txn.nodes == old(txn.nodes) && r == BoundKeys(rels, ids, |rels|)
    ensures r.Ok? ==> txn.edgesFwd == old(txn.edgesFwd) + Erasures(r.value)
  {
    var keys: seq<EdgeKey> := [];
    for i := 0 to |rels|
      invariant txn.Valid() && txn.nodes == old(txn.nodes) && BoundKeys(rels, ids, i) == Ok(keys)
      invariant txn.edgesFwd == old(txn.edgesFwd) + Erasures(keys)
    {
      var key := BoundKey(rels[i], ids);
      if key.Err? {
        BoundKeysStop(rels, ids, i + 1, |rels|);
        return Err(key.error);
      }
      txn.DeleteEdge(key.value);
      assert Erasures<EdgeKey, EdgeRecord>(keys + [key.value]) == Erasures(keys) + [Erase(key.value)];
      keys := keys + [key.value];
    }
    return Ok(keys);
  }

  method StageDeletedNodes(txn: Transaction, ids: seq<EntityId>) returns (r: Result<seq<NodeKey>, Error>)
    requires txn.Valid()
    modifies txn
    ensures txn.Valid() && txn.edgesFwd == old(txn.edgesFwd) && r == DeletedKeys(ids, |ids|)
    ensures r.Ok? ==> txn.nodes == old(txn.nodes) + Erasures(r.value)
  {
    var keys: seq<NodeKey> := [];
    for i := 0 to |ids|
      invariant txn.Valid() && txn.edgesFwd == old(txn.edgesFwd) && DeletedKeys(ids, i) == Ok(keys)
      invariant txn.nodes == old(txn.nodes) + Erasures(keys)
    {
      if !ids[i].NodeId? {
        DeletedKeysStop(ids, i + 1, |ids|);
        return Err(Undecodable);
      }
      txn.DeleteNode(ids[i].node);
      assert Erasures<NodeKey, NodeRecord>(keys + [ids[i].node]) == Erasures(keys) + [Erase(ids[i].node)];
      keys := keys + [ids[i].node];
    }
    return Ok(keys);
  }

  method StageNodes(txn: Transaction, ks: seq<Keyed>) returns (ok: bool)
    requires txn.Valid()
    modifies txn
    ensures txn.Valid() && txn.edgesFwd == old(txn.edgesFwd) && ok == AllStorable(ks)
    ensures ok ==> txn.nodes == old(txn.nodes) + Writes(ks)
  {
    for i := 0 to |ks|
      invariant txn.Valid() && txn.edgesFwd == old(txn.edgesFwd) && AllStorable(ks[..i])
      invariant txn.nodes == old(txn.nodes) + Writes(ks[..i])
    {
      ok := txn.PutNode(ks[i].key, ks[i].record);
      if !ok { return false; }
      assert Writes(ks[..i + 1]) == Writes(ks[..i]) + [Write(ks[i].key, ks[i].record)];
    }
    assert ks[..|ks|] == ks;
    return true;
  }

  /** The last steps for a created or modified relationship: check types, encode, stage. */
  method StagePut(txn: Transaction, edge: EdgeKey, props: map<string, Value>, cat: Catalogue)
      returns (r: Result<PutEdge, Error>)
    requires txn.Valid()
    modifies txn
    ensures txn.Valid() && txn.nodes == old(txn.nodes) && r == Put(edge, props, cat)
    ensures r.Ok? ==> txn.edgesFwd == old(txn.edgesFwd) + [Write(r.value.key, r.value.record)]
  {
    if !RelTypesHold(cat, edge, EdgeRecord(props)) { return Err(RelWrongType); }
    var ok := txn.PutEdge(edge, EdgeRecord(props));
    return if ok then Ok(Entry(edge, EdgeRecord(props))) else Err(Unencodable);
  }

  method StageCreate(txn: Transaction, rel: RelValue, ids: map<EntityId, NodeKey>, cat: Catalogue,
      existing: set<EdgeKey>) returns (r: Result<PutEdge, Error>)
    requires txn.Valid()
    modifies txn
    ensures txn.Valid() && txn.nodes == old(txn.nodes) && r == CreateEdge(rel, ids, cat, existing)
    ensures r.Ok? ==> txn.edgesFwd == old(txn.edgesFwd) + [Write(r.value.key, r.value.record)]
  {
    var edge := CreatedKey(rel, ids, cat);
    if edge.Err? { return Err(edge.error); }
    if edge.value in existing { return Err(DuplicateEdge); }
    var props := ConvertMap(rel.properties, []);
    if props.None? { return Err(Unstorable); }
    r := StagePut(txn, edge.value, Without(props.value, Discriminator(cat, edge.value.rtype)), cat);
  }

  method StageCreated(txn: Transaction, rels: seq<RelValue>, ids: map<EntityId, NodeKey>, cat: Catalogue,
      stored: set<EdgeKey>) returns (r: Result<seq<PutEdge>, Error>)
    requires txn.Valid()
    modifies txn
    ensures txn.Valid() && txn.nodes == old(txn.nodes) && r == CreateEdges(rels, ids, cat, stored, |rels|)
    ensures r.Ok? ==> txn.edgesFwd == old(txn.edgesFwd) + Writes(r.value)
  {
    var puts: seq<PutEdge> := [];
    var existing := stored;
    for i := 0 to |rels|
      invariant txn.Valid() && txn.nodes == old(txn.nodes) && CreateEdges(rels, ids, cat, stored, i) == Ok(puts)
      invariant existing == stored + KeysOf(puts) && txn.edgesFwd == old(txn.edgesFwd) + Writes(puts)
    {
      var put := StageCreate(txn, rels[i], ids, cat, existing);
      CreateStep(rels, ids, cat, stored, i, puts);
      if put.Err? {
        CreateEdgesStop(rels, ids, cat, stored, i + 1, |rels|);
        return Err(put.error);
      }
      EntriesSnoc(puts, put.value);
      existing, puts := existing + {put.value.key}, puts + [put.value];
    }
    return Ok(puts);
  }

  lemma CreateStep(rels: seq<RelValue>, ids: map<EntityId, NodeKey>, cat: Catalogue, stored: set<EdgeKey>, i: nat,
      puts: seq<PutEdge>)
    requires i < |rels| && CreateEdges(rels, ids, cat, stored, i) == Ok(puts)
    ensures CreateEdges(rels, ids, cat, stored, i + 1) ==
              match CreateEdge(rels[i], ids, cat, stored + KeysOf(puts)) case Err(e) => Err(e)
                  case Ok(put) => Ok(puts + [put])
  {
  }

  lemma EntriesSnoc<K, V>(es: seq<Entry<K, V>>, e: Entry<K, V>)
    ensures KeysOf(es + [e]) == KeysOf(es) + {e.key} && Writes(es + [e]) == Writes(es) + [Write(e.key, e.record)]
  {
    assert forall q :: q in es + [e] <==> q in es || q == e;
  }

  method StageModify(txn: Transaction, rel: RelValue, ids: map<EntityId, NodeKey>, cat: Catalogue)
      returns (r: Result<PutEdge, Error>)
    requires txn.Valid()
    modifies txn
    ensures txn.Valid() && txn.nodes == old(txn.nodes) && r == ModifyEdge(rel, ids, cat)
    ensures r.Ok? ==> txn.edgesFwd == old(txn.edgesFwd) + [Write(r.value.key, r.value.record)]
  {
    var edge := BoundKey(rel, ids);
    if edge.Err? { return Err(edge.error); }
    var converted := ConvertMap(rel.properties, []);
    if converted.None? { return Err(Unstorable); }
    var props := converted.value;
    var name := Discriminator(cat, edge.value.rtype);
    if name.Some? {
      if name.value !in props || !Same(props[name.value], edge.value.disc) { return Err(DiscriminatorImmutable); }
      props := props - {name.value};
    }
    r := StagePut(txn, edge.value, props, cat);
  }

  method StageModified(txn: Transaction, rels: seq<RelValue>, ids: map<EntityId, NodeKey>, cat: Catalogue)
      returns (r: Result<seq<PutEdge>, Error>)
    requires txn.Valid()
    modifies txn
    ensures txn.Valid() && txn.nodes == old(txn.nodes) && r == ModifyEdges(rels, ids, cat, |rels|)
    ensures r.Ok? ==> txn.edgesFwd == old(txn.edgesFwd) + Writes(r.value)
  {
    var puts: seq<PutEdge> := [];
    for i := 0 to |rels|
      invariant txn.Valid() && txn.nodes == old(txn.nodes) && ModifyEdges(rels, ids, cat, i) == Ok(puts)
      invariant txn.edgesFwd == old(txn.edgesFwd) + Writes(puts)
    {
      var put := StageModify(txn, rels[i], ids, cat);
      if put.Err? {
        ModifyEdgesStop(rels, ids, cat, i + 1, |rels|);
        return Err(put.error);
      }
      EntriesSnoc(puts, put.value);
      puts := puts + [put.value];
    }
    return Ok(puts);
  }

  /** `persist_changes`: it fails with the planned error, or stages exactly the plan, deletions before writes. */
  method PersistChanges(c: Changes, txn: Transaction, cat: Catalogue, base: Graph) returns (r: Result<(), Error>)
    requires txn.Valid()
    modifies txn
    ensures txn.Valid()
    ensures match MakePlan(c, cat, base)
            case Err(e) => r == Err(e)
            case Ok(p) =>
              && r == Ok(())
              && txn.nodes == old(txn.nodes) + Stage(p).nodes
              && txn.edgesFwd == old(txn.edgesFwd) + Stage(p).edges
  {
    var keyed, written, ids := DeriveKeys(c, cat, base);
    if keyed.Err? { return Err(keyed.error); }
    var ks := keyed.value;
    r := RunChecks(Context(cat, base, written, set id | id in c.deletedNodes), c.upserted, ks);
    if r.Err? { return; }
    r := StageAll(c, txn, cat, base, ks, ids);
  }

  /** The stages in order make up the plan. */
  lemma StagesJoin(p: Plan, edges: seq<Op<EdgeKey, EdgeRecord>>, nodes: seq<Op<NodeKey, NodeRecord>>)
    ensures edges + Erasures(p.deletedEdges) + Writes(p.created) + Writes(p.modified) == edges + Stage(p).edges
    ensures nodes + Erasures(p.deletedNodes) + Writes(p.nodes) == nodes + Stage(p).nodes
  {
  }

  method StageAll(c: Changes, txn: Transaction, cat: Catalogue, base: Graph, ks: seq<Keyed>,
      ids: map<EntityId, NodeKey>) returns (r: Result<(), Error>)
    requires txn.Valid()
    modifies txn
    ensures txn.Valid()
    ensures match PlanWrites(c, cat, base, ks, ids)
            case Err(e) => r == Err(e)
            case Ok(p) =>
              && r == Ok(())
              && txn.nodes == old(txn.nodes) + Stage(p).nodes
              && txn.edgesFwd == old(txn.edgesFwd) + Stage(p).edges
  {
    var deletedEdges := StageDeletedRels(txn, c.deletedRels, ids);
    if deletedEdges.Err? { return Err(deletedEdges.error); }
    var deletedNodes := StageDeletedNodes(txn, c.deletedNodes);
    if deletedNodes.Err? { return Err(deletedNodes.error); }
    var ok := StageNodes(txn, ks);
    if !ok { return Err(Unencodable); }
    assert txn.nodes == old(txn.nodes) + Erasures(deletedNodes.value) + Writes(ks);
    var created, modified := StageEdges(txn, c, ids, cat, Existing(base, deletedEdges.value));
    if created.Err? { return Err(created.error); }
    if modified.Err? { return Err(modified.error); }
    StagesJoin(Plan(ks, deletedEdges.value, deletedNodes.value, created.value, modified.value), old(txn.edgesFwd),
        old(txn.nodes));
    return Ok(());
  }

  method StageEdges(txn: Transaction, c: Changes, ids: map<EntityId, NodeKey>, cat: Catalogue, stored: set<EdgeKey>)
      returns (created: Result<seq<PutEdge>, Error>, modified: Result<seq<PutEdge>, Error>)
    requires txn.Valid()
    modifies txn
    ensures txn.Valid() && txn.nodes == old(txn.nodes)
    ensures created == CreateEdges(c.created, ids, cat, stored, |c.created|)
    ensures created.Ok? ==> modified == ModifyEdges(c.modified, ids, cat, |c.modified|)
    ensures created.Ok? && modified.Ok? ==>
        txn.edgesFwd == old(txn.edgesFwd) + Writes(created.value) + Writes(modified.value)
  {
    created := StageCreated(txn, c.created, ids, cat, stored);
    modified := Ok([]);
    if created.Ok? { modified := StageModified(txn, c.modified, ids, cat); }
  }
}
