/** A replay loses nothing: what happens to every node and relationship (crates/acetone-cypher/src/persist.rs). */
module Conservation {
  import opened Wrappers
  import opened Values
  import opened Replay

  // ----- applying staged operations -----

  lemma ApplyConcat<K, V>(a: seq<Op<K, V>>, b: seq<Op<K, V>>, m: map<K, V>)
    ensures Apply(a + b, m) == Apply(b, Apply(a, m))
    decreases |b|
  {
    if b == [] {
      assert a + b == a;
    } else {
      var n := |b| - 1;
      assert (a + b)[..|a + b| - 1] == a + b[..n];
      ApplyConcat(a, b[..n], m);
    }
  }

  lemma {:induction false} ApplyErasures<K, V>(keys: seq<K>, m: map<K, V>)
    ensures Apply(Erasures<K, V>(keys), m) == m - set k | k in keys
    decreases |keys|
  {
    if keys != [] {
      var n := |keys| - 1;
      ApplyErasures(keys[..n], m);
      assert Erasures<K, V>(keys)[..n] == Erasures<K, V>(keys[..n]);
      assert keys == keys[..n] + [keys[n]];
      assert (set k | k in keys) == (set k | k in keys[..n]) + {keys[n]};
      assert m - (set k | k in keys) == (m - set k | k in keys[..n]) - {keys[n]};
    }
  }

  predicate Distinct<T(==)>(s: seq<T>) { forall i, j :: 0 <= i < j < |s| ==> s[i] != s[j] }

  /** Writes under distinct keys. */
  predicate WritesOnly<K(==), V>(ops: seq<Op<K, V>>) {
    (forall i :: 0 <= i < |ops| ==> ops[i].Write?) && forall i, j :: 0 <= i < j < |ops| ==> ops[i].key != ops[j].key
  }

  ghost function OpKeys<K, V>(ops: seq<Op<K, V>>): set<K> { set i | 0 <= i < |ops| :: ops[i].key }

  /** What distinct writes leave: their own values, and everything else as it was. */
  ghost predicate Wrote<K, V>(ops: seq<Op<K, V>>, m: map<K, V>, r: map<K, V>)
    requires WritesOnly(ops)
  {
    && r.Keys == m.Keys + OpKeys(ops)
    && (forall i :: 0 <= i < |ops| ==> ops[i].key in r && r[ops[i].key] == ops[i].value)
    && (forall k :: k in m && k !in OpKeys(ops) ==> k in r && r[k] == m[k])
  }

  lemma {:induction false} ApplyWrites<K, V>(ops: seq<Op<K, V>>, m: map<K, V>)
    requires WritesOnly(ops)
    ensures Wrote(ops, m, Apply(ops, m))
    decreases |ops|
  {
    if ops != [] {
      var n := |ops| - 1;
      ApplyWrites(ops[..n], m);
      assert ops == ops[..n] + [ops[n]];
      assert OpKeys(ops) == OpKeys(ops[..n]) + {ops[n].key};
    }
  }

  // ----- cardinalities -----

  lemma SetOfDistinct<T>(s: seq<T>)
    requires Distinct(s)
    ensures |set x | x in s| == |s|
    decreases |s|
  {
    if s != [] {
      var n := |s| - 1;
      SetOfDistinct(s[..n]);
      assert s == s[..n] + [s[n]];
      assert (set x | x in s) == (set x | x in s[..n]) + {s[n]};
    }
  }

  /** Removing `d` and adding `w`, of which `fresh` is new. */
  lemma CountAfter<T>(base: set<T>, d: set<T>, w: set<T>, created: set<T>)
    requires d <= base && created <= w && w - created <= base - d && created !! (base - d)
    ensures |(base - d) + w| == |base| - |d| + |created|
  {
    assert (base - d) + w == (base - d) + created;
    assert |base - d| == |base| - |d| by { assert base == (base - d) + d; }
  }

  // ----- nodes -----

  /** Net changes to nodes: deletions and modifications name distinct stored nodes. */
  ghost predicate NetNodes(c: Changes, base: Graph) {
    && Distinct(c.deletedNodes)
    && (forall i :: 0 <= i < |c.deletedNodes| ==> c.deletedNodes[i].NodeId? && c.deletedNodes[i].node in base.nodes)
    && (forall i :: 0 <= i < |c.upserted| && c.upserted[i].id.NodeId? ==>
          c.upserted[i].id.node in base.nodes && c.upserted[i].id !in c.deletedNodes)
  }

  predicate IsCreated(node: NodeValue) { !node.id.NodeId? }

  function CreatedCount(nodes: seq<NodeValue>): nat {
    if nodes == [] then 0 else CreatedCount(nodes[..|nodes| - 1]) + if IsCreated(nodes[|nodes| - 1]) then 1 else 0
  }

  /** What the keying loop established for one node. */
  ghost predicate Admitted(c: Changes, cat: Catalogue, base: Graph, ks: seq<Keyed>, i: nat)
    requires i < |ks| == |c.upserted|
  {
    && KeyAndRecord(c.upserted[i], cat) == Ok(ks[i])
    && Refusal(c.upserted[i], ks[i].key, c, base, ks[..i]) == None
  }

  lemma {:induction false} KeyTaken(c: Changes, cat: Catalogue, base: Graph, n: nat, ks: seq<Keyed>, i: nat)
    requires n <= |c.upserted| && KeyNodes(c, cat, base, n) == Ok(ks) && i < n
    ensures NextKey(c.upserted[i], c, cat, base, ks[..i]) == Ok(ks[i])
    decreases n
  {
    var before := KeyNodes(c, cat, base, n - 1).value;
    assert ks[..n - 1] == before;
    if i < n - 1 {
      KeyTaken(c, cat, base, n - 1, before, i);
      assert before[..i] == ks[..i];
    }
  }

  lemma NodeAdmitted(c: Changes, cat: Catalogue, base: Graph, ks: seq<Keyed>, i: nat)
    requires KeyNodes(c, cat, base, |c.upserted|) == Ok(ks) && i < |ks|
    ensures Admitted(c, cat, base, ks, i)
  {
    KeyTaken(c, cat, base, |ks|, ks, i);
  }

  predicate DistinctKeys(ks: seq<Keyed>) { forall i, j :: 0 <= i < j < |ks| ==> ks[i].key != ks[j].key }

  /** A created node's key was absent or is freed; a modified node keeps its own. */
  ghost predicate Placed(c: Changes, base: Graph, ks: seq<Keyed>, i: nat)
    requires i < |ks| == |c.upserted|
  {
    if IsCreated(c.upserted[i]) then ks[i].key in base.nodes ==> NodeId(ks[i].key) in c.deletedNodes
    else c.upserted[i].id == NodeId(ks[i].key)
  }

  /** The keying loop as a whole. */
  ghost predicate Keying(c: Changes, base: Graph, ks: seq<Keyed>) {
    |ks| == |c.upserted| && DistinctKeys(ks) && forall i :: 0 <= i < |ks| ==> Placed(c, base, ks, i)
  }

  lemma KeysAreKeying(c: Changes, cat: Catalogue, base: Graph, ks: seq<Keyed>)
    requires KeyNodes(c, cat, base, |c.upserted|) == Ok(ks)
    ensures Keying(c, base, ks)
  {
    forall i | 0 <= i < |ks|
      ensures Placed(c, base, ks, i) && forall j :: 0 <= j < i ==> ks[j].key != ks[i].key
    {
      NodeAdmitted(c, cat, base, ks, i);
      FromRefusal(c, base, ks, i);
    }
  }

  lemma FromRefusal(c: Changes, base: Graph, ks: seq<Keyed>, i: nat)
    requires i < |ks| == |c.upserted| && Refusal(c.upserted[i], ks[i].key, c, base, ks[..i]) == None
    ensures Placed(c, base, ks, i) && forall j :: 0 <= j < i ==> ks[j].key != ks[i].key
  {
    forall j | 0 <= j < i ensures ks[j].key != ks[i].key { assert ks[..i][j] == ks[j]; }
  }

  ghost function CreatedKeys(c: Changes, ks: seq<Keyed>): set<NodeKey>
    requires |ks| <= |c.upserted|
  {
    set i | 0 <= i < |ks| && IsCreated(c.upserted[i]) :: ks[i].key
  }

  lemma {:induction false} CountCreated(c: Changes, ks: seq<Keyed>)
    requires |ks| <= |c.upserted| && DistinctKeys(ks)
    ensures |CreatedKeys(c, ks)| == CreatedCount(c.upserted[..|ks|])
    decreases |ks|
  {
    if ks != [] {
      var n := |ks| - 1;
      CountCreated(c, ks[..n]);
      assert c.upserted[..n + 1][..n] == c.upserted[..n];
      var added := if IsCreated(c.upserted[n]) then {ks[n].key} else {};
      assert CreatedKeys(c, ks) == CreatedKeys(c, ks[..n]) + added;
    }
  }

  lemma {:induction false} DecodedKeys(ids: seq<EntityId>, n: nat)
    requires n <= |ids| && DeletedKeys(ids, n).Ok?
    ensures forall i :: 0 <= i < n ==> ids[i] == NodeId(DeletedKeys(ids, n).value[i])
  {
    if n > 0 { DecodedKeys(ids, n - 1); }
  }

  /** The nodes after the statement: the undeleted stored nodes, overwritten by the upserted ones. */
  ghost predicate NodesBecome(c: Changes, ks: seq<Keyed>, prior: map<NodeKey, NodeRecord>,
      final: map<NodeKey, NodeRecord>) {
    && (forall k :: k in final <==> (k in prior && NodeId(k) !in c.deletedNodes) || k in KeysOf(ks))
    && (forall i :: 0 <= i < |ks| ==> ks[i].key in final && final[ks[i].key] == ks[i].record)
    && (forall k :: k in prior && NodeId(k) !in c.deletedNodes && k !in KeysOf(ks) ==>
          k in final && final[k] == prior[k])
  }

  lemma WrittenKeys<K, V>(es: seq<Entry<K, V>>)
    ensures OpKeys(Writes(es)) == KeysOf(es)
  {
    var ops := Writes(es);
    forall k | k in KeysOf(es) ensures k in OpKeys(ops) {
      var i :| 0 <= i < |es| && es[i].key == k;
      assert ops[i].key == k;
    }
    forall k | k in OpKeys(ops) ensures k in KeysOf(es) {
      var i :| 0 <= i < |ops| && ops[i].key == k;
      assert es[i] in es;
    }
  }

  lemma WritesOfKeyed(ks: seq<Keyed>)
    requires DistinctKeys(ks)
    ensures WritesOnly(Writes(ks)) && OpKeys(Writes(ks)) == KeysOf(ks)
  {
    WrittenKeys(ks);
  }

  lemma PlanParts(c: Changes, cat: Catalogue, base: Graph, p: Plan)
    requires MakePlan(c, cat, base) == Ok(p)
    ensures KeyNodes(c, cat, base, |c.upserted|) == Ok(p.nodes) && |p.nodes| == |c.upserted|
    ensures DeletedKeys(c.deletedNodes, |c.deletedNodes|) == Ok(p.deletedNodes) && AllStorable(p.nodes)
    ensures CheckNodes(ContextOf(c, cat, base, p.nodes), c.upserted, p.nodes, |p.nodes|).Ok?
    ensures EdgeSteps(c, cat, base, p, EntityKeys(c, p.nodes))
  {
    var ks := KeyNodes(c, cat, base, |c.upserted|).value;
    WriteParts(c, cat, base, ks, EntityKeys(c, ks), p);
  }

  /** The relationship steps of a successful replay. */
  ghost predicate EdgeSteps(c: Changes, cat: Catalogue, base: Graph, p: Plan, ids: map<EntityId, NodeKey>) {
    && BoundKeys(c.deletedRels, ids, |c.deletedRels|) == Ok(p.deletedEdges)
    && CreateEdges(c.created, ids, cat, Existing(base, p.deletedEdges), |c.created|) == Ok(p.created)
    && ModifyEdges(c.modified, ids, cat, |c.modified|) == Ok(p.modified)
  }

  lemma WriteParts(c: Changes, cat: Catalogue, base: Graph, ks: seq<Keyed>, ids: map<EntityId, NodeKey>, p: Plan)
    requires PlanWrites(c, cat, base, ks, ids) == Ok(p)
    ensures p.nodes == ks && DeletedKeys(c.deletedNodes, |c.deletedNodes|) == Ok(p.deletedNodes) && AllStorable(ks)
    ensures EdgeSteps(c, cat, base, p, ids)
  {
  }

  lemma NodesAfter(c: Changes, base: Graph, p: Plan)
    requires Keying(c, base, p.nodes) && DeletedKeys(c.deletedNodes, |c.deletedNodes|) == Ok(p.deletedNodes)
    ensures NodesBecome(c, p.nodes, base.nodes, After(p, base).nodes)
  {
    var ks, dead := p.nodes, p.deletedNodes;
    WritesOfKeyed(ks);
    ApplyConcat(Erasures(dead), Writes(ks), base.nodes);
    ApplyErasures<NodeKey, NodeRecord>(dead, base.nodes);
    ApplyWrites(Writes(ks), base.nodes - set k | k in dead);
    DeadIsDeleted(c, dead);
  }

  lemma DeadIsDeleted(c: Changes, dead: seq<NodeKey>)
    requires DeletedKeys(c.deletedNodes, |c.deletedNodes|) == Ok(dead)
    ensures forall k :: k in dead <==> NodeId(k) in c.deletedNodes
  {
    DecodedKeys(c.deletedNodes, |c.deletedNodes|);
    forall k | NodeId(k) in c.deletedNodes ensures k in dead {
      var i :| 0 <= i < |dead| && c.deletedNodes[i] == NodeId(k);
      assert dead[i] == k;
    }
    forall k | k in dead ensures NodeId(k) in c.deletedNodes {
      var i :| 0 <= i < |dead| && dead[i] == k;
    }
  }

  lemma DeadDistinct(c: Changes, base: Graph, dead: seq<NodeKey>)
    requires DeletedKeys(c.deletedNodes, |c.deletedNodes|) == Ok(dead) && NetNodes(c, base)
    ensures Distinct(dead) && (set k | k in dead) <= base.nodes.Keys
  {
    DecodedKeys(c.deletedNodes, |c.deletedNodes|);
    forall i, j | 0 <= i < j < |dead| ensures dead[i] != dead[j] {
      assert c.deletedNodes[i] != c.deletedNodes[j];
    }
  }

  lemma NodeCount(c: Changes, base: Graph, ks: seq<Keyed>, dead: seq<NodeKey>, final: map<NodeKey, NodeRecord>)
    requires Keying(c, base, ks) && NetNodes(c, base) && NodesBecome(c, ks, base.nodes, final)
    requires DeletedKeys(c.deletedNodes, |c.deletedNodes|) == Ok(dead)
    ensures |final| == |base.nodes| - |c.deletedNodes| + CreatedCount(c.upserted)
  {
    CountCreated(c, ks);
    assert c.upserted[..|ks|] == c.upserted;
    DeadIsDeleted(c, dead);
    DeadDistinct(c, base, dead);
    SetOfDistinct(dead);
    var d := set k | k in dead;
    KeysSplit(c, base, ks, d);
    CountAfter(base.nodes.Keys, d, KeysOf(ks), CreatedKeys(c, ks));
    assert final.Keys == (base.nodes.Keys - d) + KeysOf(ks);
  }

  /** No unrelated node is overwritten: undeleted stored nodes survive, nodes outside the statement keep their
      records, a created node takes a key that was absent or freed, and the count adds up. */
  lemma NodesConserved(c: Changes, cat: Catalogue, base: Graph, p: Plan)
    requires MakePlan(c, cat, base) == Ok(p) && NetNodes(c, base)
    ensures NodesBecome(c, p.nodes, base.nodes, After(p, base).nodes)
    ensures Keying(c, base, p.nodes)
    ensures |After(p, base).nodes| == |base.nodes| - |c.deletedNodes| + CreatedCount(c.upserted)
  {
    PlanParts(c, cat, base, p);
    KeysAreKeying(c, cat, base, p.nodes);
    NodesAfter(c, base, p);
    NodeCount(c, base, p.nodes, p.deletedNodes, After(p, base).nodes);
  }

  /** The written keys are the created ones and the kept stored ones. */
  lemma KeysSplit(c: Changes, base: Graph, ks: seq<Keyed>, d: set<NodeKey>)
    requires Keying(c, base, ks) && NetNodes(c, base) && forall k :: k in d <==> NodeId(k) in c.deletedNodes
    ensures CreatedKeys(c, ks) <= KeysOf(ks) && KeysOf(ks) - CreatedKeys(c, ks) <= base.nodes.Keys - d
    ensures CreatedKeys(c, ks) !! (base.nodes.Keys - d)
  {
    forall k | k in KeysOf(ks) - CreatedKeys(c, ks) ensures k in base.nodes.Keys - d {
      var i :| 0 <= i < |ks| && ks[i].key == k;
      assert Placed(c, base, ks, i) && !IsCreated(c.upserted[i]);
    }
    forall k | k in CreatedKeys(c, ks) ensures k !in base.nodes.Keys - d {
      var i :| 0 <= i < |ks| && IsCreated(c.upserted[i]) && ks[i].key == k;
      assert Placed(c, base, ks, i);
    }
  }

  // ----- relationships -----

  /** The bound relationships name distinct stored edges. */
  ghost predicate BoundTo(rels: seq<RelValue>, edges: map<EdgeKey, EdgeRecord>) {
    && (forall i :: 0 <= i < |rels| ==> rels[i].id.EdgeId? && rels[i].id.edge in edges)
    && forall i, j :: 0 <= i < j < |rels| ==> rels[i].id != rels[j].id
  }

  /** Net changes to relationships: nothing is both modified and deleted. */
  ghost predicate NetEdges(c: Changes, base: Graph) {
    && BoundTo(c.deletedRels, base.edges) && BoundTo(c.modified, base.edges)
    && forall i, j :: 0 <= i < |c.modified| && 0 <= j < |c.deletedRels| ==> c.modified[i].id != c.deletedRels[j].id
  }

  ghost predicate AtOwnKeys(rels: seq<RelValue>, keys: seq<EdgeKey>) {
    |keys| == |rels| && forall i :: 0 <= i < |keys| ==> rels[i].id == EdgeId(keys[i])
  }

  function KeysOfPuts(ps: seq<PutEdge>): (r: seq<EdgeKey>)
    ensures |r| == |ps| && forall i :: 0 <= i < |ps| ==> r[i] == ps[i].key
  {
    seq(|ps|, i requires 0 <= i < |ps| => ps[i].key)
  }

  /** A deleted relationship is deleted at exactly the key it was read from. */
  lemma {:induction false} DeletedAtOwnKeys(rels: seq<RelValue>, ids: map<EntityId, NodeKey>, n: nat)
    requires n <= |rels| && (forall i :: 0 <= i < |rels| ==> rels[i].id.EdgeId?) && BoundKeys(rels, ids, n).Ok?
    ensures AtOwnKeys(rels[..n], BoundKeys(rels, ids, n).value)
  {
    if n > 0 { DeletedAtOwnKeys(rels, ids, n - 1); }
  }

  lemma ModifiedKey(rel: RelValue, ids: map<EntityId, NodeKey>, cat: Catalogue)
    requires rel.id.EdgeId? && ModifyEdge(rel, ids, cat).Ok?
    ensures rel.id == EdgeId(ModifyEdge(rel, ids, cat).value.key)
  {
  }

  /** A modified relationship is written at exactly the key it was read from, discriminator included. */
  lemma {:induction false} ModifiedAtOwnKeys(rels: seq<RelValue>, ids: map<EntityId, NodeKey>, cat: Catalogue, n: nat)
    requires n <= |rels| && (forall i :: 0 <= i < |rels| ==> rels[i].id.EdgeId?) && ModifyEdges(rels, ids, cat, n).Ok?
    ensures AtOwnKeys(rels[..n], KeysOfPuts(ModifyEdges(rels, ids, cat, n).value))
  {
    if n > 0 {
      ModifiedAtOwnKeys(rels, ids, cat, n - 1);
      ModifiedKey(rels[n - 1], ids, cat);
    }
  }

  predicate FreshPuts(ps: seq<PutEdge>, existing: set<EdgeKey>) {
    forall i :: 0 <= i < |ps| ==> ps[i].key !in existing && forall j :: 0 <= j < i ==> ps[j].key != ps[i].key
  }

  lemma CreatedIsFresh(rel: RelValue, ids: map<EntityId, NodeKey>, cat: Catalogue, existing: set<EdgeKey>)
    requires CreateEdge(rel, ids, cat, existing).Ok?
    ensures CreateEdge(rel, ids, cat, existing).value.key !in existing
  {
  }

  /** Created relationships collide neither with surviving stored ones nor with each other. */
  lemma {:induction false} CreatedAreFresh(rels: seq<RelValue>, ids: map<EntityId, NodeKey>, cat: Catalogue,
      existing: set<EdgeKey>, n: nat)
    requires n <= |rels| && CreateEdges(rels, ids, cat, existing, n).Ok?
    ensures FreshPuts(CreateEdges(rels, ids, cat, existing, n).value, existing)
  {
    if n > 0 {
      CreatedAreFresh(rels, ids, cat, existing, n - 1);
      var before := CreateEdges(rels, ids, cat, existing, n - 1).value;
      CreatedIsFresh(rels[n - 1], ids, cat, existing + KeysOf(before));
      assert forall j :: 0 <= j < n - 1 ==> before[j] in before && before[j].key in KeysOf(before);
    }
  }

  /** Where the relationships of a plan stand. */
  ghost predicate EdgePlan(c: Changes, base: Graph, p: Plan) {
    && AtOwnKeys(c.deletedRels, p.deletedEdges)
    && AtOwnKeys(c.modified, KeysOfPuts(p.modified))
    && |p.created| == |c.created| && FreshPuts(p.created, Existing(base, p.deletedEdges))
  }

  lemma PlanEdges(c: Changes, cat: Catalogue, base: Graph, p: Plan, ids: map<EntityId, NodeKey>)
    requires EdgeSteps(c, cat, base, p, ids) && NetEdges(c, base)
    ensures EdgePlan(c, base, p)
  {
    assert c.deletedRels[..|c.deletedRels|] == c.deletedRels && c.modified[..|c.modified|] == c.modified;
    DeletedAtOwnKeys(c.deletedRels, ids, |c.deletedRels|);
    ModifiedAtOwnKeys(c.modified, ids, cat, |c.modified|);
    CreatedAreFresh(c.created, ids, cat, Existing(base, p.deletedEdges), |c.created|);
  }

  /** The relationships after the statement. */
  ghost predicate EdgesBecome(p: Plan, prior: map<EdgeKey, EdgeRecord>, final: map<EdgeKey, EdgeRecord>) {
    var written := p.created + p.modified;
    && (forall k :: k in final <==> (k in prior && k !in p.deletedEdges) || k in KeysOf(written))
    && (forall i :: 0 <= i < |written| ==> written[i].key in final && final[written[i].key] == written[i].record)
    && (forall k :: k in prior && k !in p.deletedEdges && k !in KeysOf(written) ==> k in final && final[k] == prior[k])
  }

  lemma OwnKeysStored(rels: seq<RelValue>, keys: seq<EdgeKey>, edges: map<EdgeKey, EdgeRecord>)
    requires BoundTo(rels, edges) && AtOwnKeys(rels, keys)
    ensures Distinct(keys) && forall i :: 0 <= i < |keys| ==> keys[i] in edges
  {
    forall i, j | 0 <= i < j < |keys| ensures keys[i] != keys[j] { assert rels[i].id != rels[j].id; }
  }

  /** Modified edges are stored, distinct and not deleted. */
  lemma ModifiedSurvive(c: Changes, base: Graph, p: Plan)
    requires EdgePlan(c, base, p) && NetEdges(c, base)
    ensures Distinct(KeysOfPuts(p.modified)) && forall i :: 0 <= i < |p.modified| ==>
        p.modified[i].key in Existing(base, p.deletedEdges)
  {
    OwnKeysStored(c.modified, KeysOfPuts(p.modified), base.edges);
    forall i, j | 0 <= i < |p.modified| && 0 <= j < |p.deletedEdges| ensures p.modified[i].key != p.deletedEdges[j] {
      assert c.modified[i].id == EdgeId(KeysOfPuts(p.modified)[i]) && c.modified[i].id != c.deletedRels[j].id;
    }
  }

  lemma WrittenDistinct(created: seq<PutEdge>, modified: seq<PutEdge>, existing: set<EdgeKey>)
    requires FreshPuts(created, existing) && Distinct(KeysOfPuts(modified))
    requires forall i :: 0 <= i < |modified| ==> modified[i].key in existing
    ensures WritesOnly(Writes(created + modified)) && OpKeys(Writes(created + modified)) == KeysOf(created + modified)
  {
    var ps, ks := created + modified, KeysOfPuts(modified);
    forall i, j | 0 <= i < j < |ps| ensures ps[i].key != ps[j].key {
      if i >= |created| { assert ks[i - |created|] != ks[j - |created|]; }
    }
    WrittenKeys(ps);
  }

  lemma EdgesAfter(c: Changes, base: Graph, p: Plan)
    requires EdgePlan(c, base, p) && NetEdges(c, base)
    ensures EdgesBecome(p, base.edges, After(p, base).edges)
  {
    ModifiedSurvive(c, base, p);
    WrittenDistinct(p.created, p.modified, Existing(base, p.deletedEdges));
    var erased, writes := Erasures<EdgeKey, EdgeRecord>(p.deletedEdges), Writes(p.created + p.modified);
    assert Stage(p).edges == erased + writes;
    ApplyConcat(erased, writes, base.edges);
    ApplyErasures<EdgeKey, EdgeRecord>(p.deletedEdges, base.edges);
    ApplyWrites(writes, base.edges - set k | k in p.deletedEdges);
  }

  ghost function PutKeySet(ps: seq<PutEdge>): set<EdgeKey> { set k | k in KeysOfPuts(ps) }

  lemma FreshAreDistinct(ps: seq<PutEdge>, existing: set<EdgeKey>)
    requires FreshPuts(ps, existing)
    ensures |PutKeySet(ps)| == |ps|
  {
    SetOfDistinct(KeysOfPuts(ps));
  }

  lemma EdgeKeySet(p: Plan, prior: map<EdgeKey, EdgeRecord>, final: map<EdgeKey, EdgeRecord>, d: set<EdgeKey>)
    requires EdgesBecome(p, prior, final) && d == set k | k in p.deletedEdges
    ensures final.Keys == (prior.Keys - d) + KeysOf(p.created + p.modified)
  {
  }

  lemma EdgeCount(c: Changes, base: Graph, p: Plan, final: map<EdgeKey, EdgeRecord>)
    requires EdgePlan(c, base, p) && NetEdges(c, base) && EdgesBecome(p, base.edges, final)
    ensures |final| == |base.edges| - |c.deletedRels| + |c.created|
  {
    var d := set k | k in p.deletedEdges;
    EdgeKeySet(p, base.edges, final, d);
    assert |d| == |c.deletedRels| && d <= base.edges.Keys by {
      OwnKeysStored(c.deletedRels, p.deletedEdges, base.edges);
      SetOfDistinct(p.deletedEdges);
    }
    assert forall i :: 0 <= i < |p.modified| ==> p.modified[i].key in Existing(base, p.deletedEdges) by {
      ModifiedSurvive(c, base, p);
    }
    FreshAreDistinct(p.created, Existing(base, p.deletedEdges));
    WrittenSplit(p, Existing(base, p.deletedEdges));
    CountAfter(base.edges.Keys, d, KeysOf(p.created + p.modified), PutKeySet(p.created));
  }

  lemma WrittenSplit(p: Plan, existing: set<EdgeKey>)
    requires FreshPuts(p.created, existing) && forall i :: 0 <= i < |p.modified| ==> p.modified[i].key in existing
    ensures PutKeySet(p.created) <= KeysOf(p.created + p.modified) && PutKeySet(p.created) !! existing
    ensures KeysOf(p.created + p.modified) - PutKeySet(p.created) <= existing
  {
    var ps, keys := p.created + p.modified, KeysOfPuts(p.created);
    forall i | 0 <= i < |p.created| ensures ps[i].key in PutKeySet(p.created) { assert keys[i] in keys; }
    forall k | k in PutKeySet(p.created) ensures k in KeysOf(ps) && k !in existing {
      var i :| 0 <= i < |p.created| && keys[i] == k;
      assert ps[i].key == k && ps[i] in ps;
    }
    forall k | k in KeysOf(ps) - PutKeySet(p.created) ensures k in existing {
      var i :| 0 <= i < |ps| && ps[i].key == k;
      assert p.modified[i - |p.created|].key == k;
    }
  }

  /** No relationship is lost: created ones have keys distinct from every surviving stored edge and from each other,
      bound ones are written or deleted at exactly the key they were read from, and the count adds up. */
  lemma EdgesConserved(c: Changes, cat: Catalogue, base: Graph, p: Plan)
    requires MakePlan(c, cat, base) == Ok(p) && NetEdges(c, base)
    ensures EdgePlan(c, base, p) && EdgesBecome(p, base.edges, After(p, base).edges)
    ensures |After(p, base).edges| == |base.edges| - |c.deletedRels| + |c.created|
  {
    PlanParts(c, cat, base, p);
    PlanEdges(c, cat, base, p, EntityKeys(c, p.nodes));
    EdgesAfter(c, base, p);
    EdgeCount(c, base, p, After(p, base).edges);
  }

  // ----- the reverse map -----

  /** The `edges_rev` key of an edge. */
  function Flip(k: EdgeKey): (r: EdgeKey)
    ensures r.src == k.dst && r.dst == k.src && r.rtype == k.rtype && r.disc == k.disc
  {
    EdgeKey(k.dst, k.rtype, k.src, k.disc)
  }

  function Mirror(ops: seq<Op<EdgeKey, EdgeRecord>>): (r: seq<Op<EdgeKey, ()>>)
    ensures |r| == |ops|
  {
    seq(|ops|, i requires 0 <= i < |ops| => if ops[i].Write? then Write(Flip(ops[i].key), ())
        else Erase(Flip(ops[i].key)))
  }

  ghost predicate Mirrored(fwd: map<EdgeKey, EdgeRecord>, rev: map<EdgeKey, ()>) {
    forall k :: k in fwd <==> Flip(k) in rev
  }

  /** Whatever is staged, the reverse map keeps holding exactly the flipped keys of the forward map. */
  lemma {:induction false} ReverseFollows(ops: seq<Op<EdgeKey, EdgeRecord>>, fwd: map<EdgeKey, EdgeRecord>,
      rev: map<EdgeKey, ()>)
    requires Mirrored(fwd, rev)
    ensures Mirrored(Apply(ops, fwd), Apply(Mirror(ops), rev))
    decreases |ops|
  {
    if ops != [] {
      var n := |ops| - 1;
      ReverseFollows(ops[..n], fwd, rev);
      assert Mirror(ops)[..n] == Mirror(ops[..n]);
      assert forall k :: Flip(k) == Flip(ops[n].key) ==> k == ops[n].key;
    }
  }
}
