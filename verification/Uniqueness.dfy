/** UNIQUE declarations over whole graphs: what a successful replay guarantees, and what a violation means
    (crates/acetone-cypher/src/persist.rs). */
module Uniqueness {
  import opened Wrappers
  import opened Values
  import opened Replay
  import opened Conservation

  /** UNIQUE properties are distinct and are not key properties. */
  ghost predicate WellDeclared(cat: Catalogue) {
    forall l :: l in cat.labels ==>
      Distinct(cat.labels[l].unique) && forall p :: p in cat.labels[l].unique ==> p !in cat.labels[l].key
  }

  predicate Declared(cat: Catalogue, l: string, p: string) { l in cat.labels && p in cat.labels[l].unique }

  /** Two nodes of one primary label with one non-null value for a UNIQUE property. */
  ghost predicate Clash(cat: Catalogue, nodes: map<NodeKey, NodeRecord>, k1: NodeKey, k2: NodeKey, p: string) {
    && k1 != k2 && k1.primary == k2.primary && Declared(cat, k1.primary, p)
    && k1 in nodes && k2 in nodes && p in nodes[k1].properties && p in nodes[k2].properties
    && !nodes[k1].properties[p].Null? && Same(nodes[k1].properties[p], nodes[k2].properties[p])
  }

  ghost predicate Unique(cat: Catalogue, nodes: map<NodeKey, NodeRecord>) {
    forall k1, k2, p :: !Clash(cat, nodes, k1, k2, p)
  }

  lemma ClashSymmetric(cat: Catalogue, nodes: map<NodeKey, NodeRecord>, k1: NodeKey, k2: NodeKey, p: string)
    requires Clash(cat, nodes, k1, k2, p)
    ensures Clash(cat, nodes, k2, k1, p)
  {
    SameSymmetric(nodes[k1].properties[p], nodes[k2].properties[p]);
  }

  // ----- what one node's check establishes -----

  lemma {:induction false} WishListed(unique: seq<string>, props: Properties, p: string)
    requires Wishes(unique, props).Ok? && p in unique && p in props
    ensures Convert(props[p], 0).Some? && Wish(p, Convert(props[p], 0).value) in Wishes(unique, props).value
    decreases |unique|
  {
    var n := |unique| - 1;
    if p in unique[..n] { WishListed(unique[..n], props, p); }
  }

  lemma {:induction false} WishComesFrom(unique: seq<string>, props: Properties, j: nat)
    requires Wishes(unique, props).Ok? && j < |Wishes(unique, props).value|
    ensures var w := Wishes(unique, props).value[j];
            w.property in unique && w.property in props && Convert(props[w.property], 0) == Some(w.value)
    decreases |unique|
  {
    var n := |unique| - 1;
    var before := Wishes(unique[..n], props).value;
    if j < |before| { WishComesFrom(unique[..n], props, j); }
  }

  /** The claim a value makes, if it can make one. */
  function ClaimsOf(key: NodeKey, w: Wish): set<Claim> {
    if Claimable(w.value) then {Claim(key.primary, w.property, Norm(w.value))} else {}
  }

  lemma {:induction false} WishesChecked(x: Context, key: NodeKey, wishes: seq<Wish>, n: nat, claims: set<Claim>,
      j: nat)
    requires n <= |wishes| && CheckWishes(x, key, wishes, n, claims).Ok? && j < n
    ensures var out := CheckWishes(x, key, wishes, n, claims).value;
            && claims <= out && ClaimsOf(key, wishes[j]) <= out && ClaimsOf(key, wishes[j]) !! claims
            && !Blocked(x, key, wishes[j].property, wishes[j].value)
    decreases n
  {
    ClaimsGrow(x, key, wishes, n - 1, claims);
    if j < n - 1 { WishesChecked(x, key, wishes, n - 1, claims, j); }
  }

  lemma {:induction false} ClaimsGrow(x: Context, key: NodeKey, wishes: seq<Wish>, n: nat, claims: set<Claim>)
    requires n <= |wishes| && CheckWishes(x, key, wishes, n, claims).Ok?
    ensures claims <= CheckWishes(x, key, wishes, n, claims).value
    decreases n
  {
    if n > 0 { ClaimsGrow(x, key, wishes, n - 1, claims); }
  }

  /** The node's own value of a declared UNIQUE property. */
  ghost predicate Offers(cat: Catalogue, node: NodeValue, key: NodeKey, p: string, v: Value) {
    Declared(cat, key.primary, p) && p in node.properties && Convert(node.properties[p], 0) == Some(v)
  }

  lemma NodeChecked(x: Context, node: NodeValue, key: NodeKey, claims: set<Claim>, p: string, v: Value)
    requires CheckNode(x, node, key, claims).Ok? && Offers(x.cat, node, key, p, v)
    ensures var out := CheckNode(x, node, key, claims).value; var mine := ClaimsOf(key, Wish(p, v));
            claims <= out && mine <= out && mine !! claims && !Blocked(x, key, p, v)
  {
    var unique := x.cat.labels[key.primary].unique;
    WishListed(unique, node.properties, p);
    var wishes := Wishes(unique, node.properties).value;
    var j :| 0 <= j < |wishes| && wishes[j] == Wish(p, v);
    WishesChecked(x, key, wishes, |wishes|, claims, j);
  }

  lemma NodeClaimsGrow(x: Context, node: NodeValue, key: NodeKey, claims: set<Claim>)
    requires CheckNode(x, node, key, claims).Ok?
    ensures claims <= CheckNode(x, node, key, claims).value
  {
    if key.primary in x.cat.labels {
      var wishes := Wishes(x.cat.labels[key.primary].unique, node.properties).value;
      ClaimsGrow(x, key, wishes, |wishes|, claims);
    }
  }

  // ----- what the checks of the whole statement establish -----

  lemma {:induction false} AllClaimed(x: Context, nodes: seq<NodeValue>, ks: seq<Keyed>, n: nat, i: nat, p: string,
      v: Value)
    requires i < n <= |ks| == |nodes| && CheckNodes(x, nodes, ks, n).Ok? && Offers(x.cat, nodes[i], ks[i].key, p, v)
    ensures ClaimsOf(ks[i].key, Wish(p, v)) <= CheckNodes(x, nodes, ks, n).value && !Blocked(x, ks[i].key, p, v)
    decreases n
  {
    var claims := CheckNodes(x, nodes, ks, n - 1).value;
    if i == n - 1 {
      NodeChecked(x, nodes[i], ks[i].key, claims, p, v);
    } else {
      AllClaimed(x, nodes, ks, n - 1, i, p, v);
      NodeClaimsGrow(x, nodes[n - 1], ks[n - 1].key, claims);
    }
  }

  lemma {:induction false} ClaimsDisjoint(x: Context, nodes: seq<NodeValue>, ks: seq<Keyed>, n: nat, i: nat, j: nat,
      p: string, v: Value, w: Value)
    requires i < j < n <= |ks| == |nodes| && CheckNodes(x, nodes, ks, n).Ok?
    requires Offers(x.cat, nodes[i], ks[i].key, p, v) && Offers(x.cat, nodes[j], ks[j].key, p, w)
    ensures ClaimsOf(ks[i].key, Wish(p, v)) !! ClaimsOf(ks[j].key, Wish(p, w))
    decreases n
  {
    if j == n - 1 {
      AllClaimed(x, nodes, ks, j, i, p, v);
      NodeChecked(x, nodes[j], ks[j].key, CheckNodes(x, nodes, ks, j).value, p, w);
    } else {
      ClaimsDisjoint(x, nodes, ks, n - 1, i, j, p, v, w);
    }
  }

  // ----- records and offers -----

  lemma RecordOffers(cat: Catalogue, node: NodeValue, k: Keyed, p: string)
    requires WellDeclared(cat) && KeyAndRecord(node, cat) == Ok(k) && Declared(cat, k.key.primary, p)
    ensures p in k.record.properties <==> p in node.properties
    ensures p in node.properties ==> Offers(cat, node, k.key, p, k.record.properties[p])
  {
    var primary := KeyedLabels(node.labels, cat)[0];
    assert k.key.primary == primary;
    assert p !in cat.labels[primary].key;
  }

  /** Facts about a keyed statement whose checks passed. */
  ghost predicate Checked(c: Changes, cat: Catalogue, base: Graph, ks: seq<Keyed>) {
    && Derived(c, cat, base, ks)
    && CheckNodes(ContextOf(c, cat, base, ks), c.upserted, ks, |ks|).Ok?
    && AllStorable(ks)
  }

  lemma PlanIsChecked(c: Changes, cat: Catalogue, base: Graph, p: Plan)
    requires MakePlan(c, cat, base) == Ok(p) && WellDeclared(cat)
    ensures Checked(c, cat, base, p.nodes)
  {
    PlanParts(c, cat, base, p);
    KeyedIsDerived(c, cat, base, p.nodes);
  }

  // ----- against stored nodes -----

  /** The one value family the probe cannot see: an index is declared and the value is nested too deep for its key. */
  predicate BlindTo(x: Context, l: string, p: string, v: Value) {
    IndexOn(x.cat.indexes, l, p).Some? && !Probeable(v)
  }

  /** A declared index whose map exists answers the check instead of the scan. */
  predicate IndexAnswers(cat: Catalogue, g: Graph, l: string, p: string) {
    IndexOn(cat.indexes, l, p).Some? && IndexOn(cat.indexes, l, p).value.name in g.built
  }

  /** A node of another primary label that bears `l` as a secondary one and holds an equal value: only an index sees
      it. */
  predicate SecondaryHolder(cat: Catalogue, g: Graph, l: string, p: string, v: Value, k: NodeKey) {
    && IndexAnswers(cat, g, l, p) && !v.Null? && k in g.nodes && k.primary != l && l in g.nodes[k].secondary
    && Held(cat, k, g.nodes[k], p).Some? && Same(Held(cat, k, g.nodes[k], p).value, v)
  }

  /** A node of primary label `l` with an equal value; an index that answers does not see null. */
  predicate PrimaryHolder(cat: Catalogue, g: Graph, l: string, p: string, v: Value, k: NodeKey) {
    && k in g.nodes && k.primary == l && p in g.nodes[k].properties && Same(g.nodes[k].properties[p], v)
    && (v.Null? ==> !IndexAnswers(cat, g, l, p))
  }

  /** Which stored nodes collide, exactly: nothing for a value the probe cannot see, otherwise what the scan finds and,
      under an index, the secondary holders as well. */
  lemma CollisionsExactly(x: Context, l: string, p: string, v: Value, k: NodeKey)
    requires WellDeclared(x.cat) && Declared(x.cat, l, p)
    ensures k in Collisions(x, l, p, v) <==>
              !BlindTo(x, l, p, v) && (PrimaryHolder(x.cat, x.base, l, p, v, k)
                  || SecondaryHolder(x.cat, x.base, l, p, v, k))
  {
    if k in x.base.nodes {
      if k.primary == l { HeldInRecord(x.cat, k, x.base.nodes[k], p); }
      if IndexAnswers(x.cat, x.base, l, p) && Probeable(v) { EntryExactly(x, l, p, v, k); }
    }
  }

  lemma HeldInRecord(cat: Catalogue, k: NodeKey, record: NodeRecord, p: string)
    requires WellDeclared(cat) && Declared(cat, k.primary, p)
    ensures Held(cat, k, record, p) == if p in record.properties then Some(record.properties[p]) else None
  {
    assert p !in cat.labels[k.primary].key;
  }

  lemma EntryExactly(x: Context, l: string, p: string, v: Value, k: NodeKey)
    requires k in x.base.nodes && Probeable(v)
    ensures var held := Held(x.cat, k, x.base.nodes[k], p);
            IndexEntry(x.cat, k, x.base.nodes[k], l, p, v) <==>
              Bears(k, x.base.nodes[k], l) && held.Some? && !v.Null? && Same(held.value, v)
  {
    var held := Held(x.cat, k, x.base.nodes[k], p);
    if held.Some? {
      if Same(held.value, v) { EqualValuesClash(held.value, v); }
      if !HasNaN(held.value) { EncodingIsEquality(held.value, v); }
    }
  }

  /** Index and scan agree on a non-null value the index can probe exactly when no secondary holder exists. */
  lemma IndexAgreesWithScanExactly(x: Context, l: string, p: string, v: Value)
    requires WellDeclared(x.cat) && Declared(x.cat, l, p)
    requires IndexAnswers(x.cat, x.base, l, p) && Probeable(v) && !v.Null?
    ensures Collisions(x, l, p, v) == ScannedCollisions(x, l, p, v) <==>
              forall k :: !SecondaryHolder(x.cat, x.base, l, p, v, k)
  {
    forall k ensures k in Collisions(x, l, p, v) <==>
                       k in ScannedCollisions(x, l, p, v) || SecondaryHolder(x.cat, x.base, l, p, v, k) {
      CollisionsExactly(x, l, p, v, k);
    }
    forall k | SecondaryHolder(x.cat, x.base, l, p, v, k) ensures k !in ScannedCollisions(x, l, p, v) {}
  }

  /** A surviving stored node and an upserted one with equal values, on a value the probe cannot see. */
  ghost predicate BlindClash(c: Changes, cat: Catalogue, base: Graph, ks: seq<Keyed>, i: nat, k: NodeKey, p: string) {
    && i < |ks| && ks[i].key.primary == k.primary && Declared(cat, k.primary, p) && p in ks[i].record.properties
    && BlindTo(ContextOf(c, cat, base, ks), k.primary, p, ks[i].record.properties[p])
    && Survives(ContextOf(c, cat, base, ks), k) && p in base.nodes[k].properties
    && Same(base.nodes[k].properties[p], ks[i].record.properties[p]) && !ks[i].record.properties[p].Null?
  }

  // ----- the whole graph -----

  /** How a node of the final graph came to be there. */
  lemma Origin(c: Changes, ks: seq<Keyed>, prior: map<NodeKey, NodeRecord>, final: map<NodeKey, NodeRecord>,
      k: NodeKey) returns (i: int)
    requires NodesBecome(c, ks, prior, final) && k in final
    ensures if i >= 0 then i < |ks| && ks[i].key == k && final[k] == ks[i].record
            else k in prior && final[k] == prior[k] && NodeId(k) !in c.deletedNodes && k !in KeysOf(ks)
  {
    if k in KeysOf(ks) { i :| 0 <= i < |ks| && ks[i].key == k; } else { i := -1; }
  }

  /** An upserted node and any other. */
  lemma NoClashWith(c: Changes, cat: Catalogue, base: Graph, ks: seq<Keyed>, final: map<NodeKey, NodeRecord>, i: nat,
      k: NodeKey, q: string)
    requires Checked(c, cat, base, ks) && NodesBecome(c, ks, base.nodes, final) && i < |ks|
    requires !BlindClash(c, cat, base, ks, i, k, q)
    ensures !Clash(cat, final, k, ks[i].key, q)
  {
    PassedHasNoRival(c, cat, base, ks, i, k, q);
    if Clash(cat, final, k, ks[i].key, q) { ClashIsRival(c, cat, base, ks, final, i, k, q); }
  }

  /** A clash with an upserted node comes of a rival or of a value the probe cannot see. */
  lemma ClashIsRival(c: Changes, cat: Catalogue, base: Graph, ks: seq<Keyed>, final: map<NodeKey, NodeRecord>,
      i: nat, k: NodeKey, q: string)
    requires AllStorable(ks) && NodesBecome(c, ks, base.nodes, final) && i < |ks| && Clash(cat, final, k, ks[i].key, q)
    ensures Rival(c, cat, base, ks, i, k, q) || BlindClash(c, cat, base, ks, i, k, q)
  {
    assert final[ks[i].key] == ks[i].record && RecordStorable(ks[i].record.properties);
    EqualValuesClash(final[k].properties[q], ks[i].record.properties[q]);
    var j := Origin(c, ks, base.nodes, final, k);
    if j >= 0 { assert UpsertRival(ks, i, k, q); }
  }

  ghost predicate NoBlindClash(c: Changes, cat: Catalogue, base: Graph, ks: seq<Keyed>) {
    forall i, k, q :: !BlindClash(c, cat, base, ks, i, k, q)
  }

  lemma UntouchedPair(cat: Catalogue, prior: map<NodeKey, NodeRecord>, final: map<NodeKey, NodeRecord>, k1: NodeKey,
      k2: NodeKey, q: string)
    requires k1 in prior && k2 in prior && k1 in final && k2 in final && final[k1] == prior[k1]
        && final[k2] == prior[k2]
    requires Unique(cat, prior)
    ensures !Clash(cat, final, k1, k2, q)
  {
    assert !Clash(cat, prior, k1, k2, q);
  }

  lemma NoClash(c: Changes, cat: Catalogue, base: Graph, ks: seq<Keyed>, final: map<NodeKey, NodeRecord>,
      k1: NodeKey, k2: NodeKey, q: string)
    requires Checked(c, cat, base, ks) && NodesBecome(c, ks, base.nodes, final) && NoBlindClash(c, cat, base, ks)
    requires Unique(cat, base.nodes)
    ensures !Clash(cat, final, k1, k2, q)
  {
    if Clash(cat, final, k1, k2, q) {
      ClashSymmetric(cat, final, k1, k2, q);
      var i := Origin(c, ks, base.nodes, final, k1);
      var j := Origin(c, ks, base.nodes, final, k2);
      if i >= 0 { NoClashWith(c, cat, base, ks, final, i, k2, q); }
      else if j >= 0 { NoClashWith(c, cat, base, ks, final, j, k1, q); }
      else { UntouchedPair(cat, base.nodes, final, k1, k2, q); }
    }
  }

  lemma BlindClashIsClash(c: Changes, cat: Catalogue, base: Graph, ks: seq<Keyed>, final: map<NodeKey, NodeRecord>,
      i: nat, k: NodeKey, q: string)
    requires NodesBecome(c, ks, base.nodes, final) && BlindClash(c, cat, base, ks, i, k, q)
    ensures Clash(cat, final, k, ks[i].key, q)
  {
    assert ks[i] in ks && ks[i].key in KeysOf(ks);
  }

  /** The statement keeps every UNIQUE declaration of the whole graph, by index or by scan alike, exactly when it does
      not write a value that is nested too deep for the declared index and already stored. */
  lemma SuccessKeepsUnique(c: Changes, cat: Catalogue, base: Graph, p: Plan)
    requires MakePlan(c, cat, base) == Ok(p) && WellDeclared(cat) && Unique(cat, base.nodes)
    ensures Unique(cat, After(p, base).nodes) <==> NoBlindClash(c, cat, base, p.nodes)
  {
    var ks, final := p.nodes, After(p, base).nodes;
    PlanIsChecked(c, cat, base, p);
    assert NodesBecome(c, ks, base.nodes, final) by { PlanParts(c, cat, base, p); NodesAfter(c, base, p); }
    if NoBlindClash(c, cat, base, ks) {
      forall k1, k2, q ensures !Clash(cat, final, k1, k2, q) { NoClash(c, cat, base, ks, final, k1, k2, q); }
    } else {
      var i, k, q :| BlindClash(c, cat, base, ks, i, k, q);
      BlindClashIsClash(c, cat, base, ks, final, i, k, q);
    }
  }

  /** In particular when the values it gives indexed UNIQUE properties nest below the limit. */
  lemma ShallowValuesKeepUnique(c: Changes, cat: Catalogue, base: Graph, p: Plan)
    requires MakePlan(c, cat, base) == Ok(p) && WellDeclared(cat) && Unique(cat, base.nodes)
    requires forall i, q ::
               && 0 <= i < |p.nodes| && q in p.nodes[i].record.properties
               && IndexOn(cat.indexes, p.nodes[i].key.primary, q).Some? ==>
                              Fits(p.nodes[i].record.properties[q], 1)
    ensures Unique(cat, After(p, base).nodes)
  {
    forall i: nat, k, q ensures !BlindClash(c, cat, base, p.nodes, i, k, q) {
      if BlindClash(c, cat, base, p.nodes, i, k, q) {
        EqualValuesClash(base.nodes[k].properties[q], p.nodes[i].record.properties[q]);
      }
    }
    SuccessKeepsUnique(c, cat, base, p);
  }

  // ----- a reported violation is real -----

  /** What upserted node `i` cannot have beside it: another upserted node of its label with an equal value it can claim,
      or a surviving stored node whose value the check compares. */
  ghost predicate Rival(c: Changes, cat: Catalogue, base: Graph, ks: seq<Keyed>, i: nat, k: NodeKey, q: string) {
    && i < |ks| && k != ks[i].key && Declared(cat, ks[i].key.primary, q) && q in ks[i].record.properties
    && (UpsertRival(ks, i, k, q) || StoredRival(ContextOf(c, cat, base, ks), ks[i], k, q))
  }

  ghost predicate UpsertRival(ks: seq<Keyed>, i: nat, k: NodeKey, q: string)
    requires i < |ks| && q in ks[i].record.properties
  {
    Claimable(ks[i].record.properties[q]) && k.primary == ks[i].key.primary &&
    exists j :: 0 <= j < |ks| && ks[j].key == k && q in ks[j].record.properties &&
                Same(ks[j].record.properties[q], ks[i].record.properties[q])
  }

  ghost predicate StoredRival(x: Context, mine: Keyed, k: NodeKey, q: string)
    requires q in mine.record.properties
  {
    var l, v := mine.key.primary, mine.record.properties[q];
    Survives(x, k) && !BlindTo(x, l, q, v)
        && (PrimaryHolder(x.cat, x.base, l, q, v, k) || SecondaryHolder(x.cat, x.base, l, q, v, k))
  }

  /** The graph the statement asks for. */
  function WouldBe(c: Changes, ks: seq<Keyed>, nodes: map<NodeKey, NodeRecord>): map<NodeKey, NodeRecord> {
    Apply(Writes(ks), map k | k in nodes && NodeId(k) !in c.deletedNodes :: nodes[k])
  }

  lemma WouldBecome(c: Changes, base: Graph, ks: seq<Keyed>)
    requires Keying(c, base, ks)
    ensures NodesBecome(c, ks, base.nodes, WouldBe(c, ks, base.nodes))
  {
    WritesOfKeyed(ks);
    ApplyWrites(Writes(ks), map k | k in base.nodes && NodeId(k) !in c.deletedNodes :: base.nodes[k]);
  }

  lemma {:induction false} FailingNode(x: Context, nodes: seq<NodeValue>, ks: seq<Keyed>, n: nat) returns (i: nat)
    requires n <= |ks| == |nodes| && CheckNodes(x, nodes, ks, n).Err?
    ensures i < n && CheckNodes(x, nodes, ks, i).Ok?
    ensures CheckNode(x, nodes[i], ks[i].key, CheckNodes(x, nodes, ks, i).value) == CheckNodes(x, nodes, ks, n)
    decreases n
  {
    if CheckNodes(x, nodes, ks, n - 1).Err? { i := FailingNode(x, nodes, ks, n - 1); } else { i := n - 1; }
  }

  lemma {:induction false} FailingWish(x: Context, key: NodeKey, wishes: seq<Wish>, n: nat, claims: set<Claim>)
      returns (j: nat)
    requires n <= |wishes| && CheckWishes(x, key, wishes, n, claims).Err?
    ensures j < n && CheckWishes(x, key, wishes, j, claims).Ok?
    ensures CheckValue(x, key, wishes[j].property, wishes[j].value, CheckWishes(x, key, wishes, j, claims).value)
         == CheckWishes(x, key, wishes, n, claims)
    decreases n
  {
    if CheckWishes(x, key, wishes, n - 1, claims).Err? {
      j := FailingWish(x, key, wishes, n - 1, claims);
    } else {
      j := n - 1;
    }
  }

  /** Every claim was made by some wish. */
  lemma {:induction false} ClaimMadeByWish(x: Context, key: NodeKey, wishes: seq<Wish>, n: nat, claims: set<Claim>,
      m: Claim) returns (j: int)
    requires n <= |wishes| && CheckWishes(x, key, wishes, n, claims).Ok?
        && m in CheckWishes(x, key, wishes, n, claims).value
    ensures if j < 0 then m in claims else j < n && m in ClaimsOf(key, wishes[j])
    decreases n
  {
    if n == 0 || m in CheckWishes(x, key, wishes, n - 1, claims).value {
      if n == 0 { j := -1; } else { j := ClaimMadeByWish(x, key, wishes, n - 1, claims, m); }
    } else {
      j := n - 1;
    }
  }

  lemma ClaimMadeByNode(x: Context, node: NodeValue, key: NodeKey, claims: set<Claim>, m: Claim)
      returns (made: bool, v: Value)
    requires CheckNode(x, node, key, claims).Ok? && m in CheckNode(x, node, key, claims).value
    ensures if made then Offers(x.cat, node, key, m.property, v) && m in ClaimsOf(key, Wish(m.property, v))
        else m in claims
  {
    made, v := false, Null;
    if key.primary in x.cat.labels {
      var unique := x.cat.labels[key.primary].unique;
      var wishes := Wishes(unique, node.properties).value;
      var j := ClaimMadeByWish(x, key, wishes, |wishes|, claims, m);
      if j >= 0 {
        WishComesFrom(unique, node.properties, j);
        made, v := true, wishes[j].value;
      }
    }
  }

  lemma {:induction false} Claimant(x: Context, nodes: seq<NodeValue>, ks: seq<Keyed>, n: nat, m: Claim)
      returns (i: nat, v: Value)
    requires n <= |ks| == |nodes| && CheckNodes(x, nodes, ks, n).Ok? && m in CheckNodes(x, nodes, ks, n).value
    ensures i < n && Offers(x.cat, nodes[i], ks[i].key, m.property, v) && m in ClaimsOf(ks[i].key, Wish(m.property, v))
    decreases n
  {
    var made;
    made, v := ClaimMadeByNode(x, nodes[n - 1], ks[n - 1].key, CheckNodes(x, nodes, ks, n - 1).value, m);
    if made { i := n - 1; } else { i, v := Claimant(x, nodes, ks, n - 1, m); }
  }

  lemma {:induction false} WishesDistinct(unique: seq<string>, props: Properties, i: nat, j: nat)
    requires Wishes(unique, props).Ok? && Distinct(unique) && i < j < |Wishes(unique, props).value|
    ensures Wishes(unique, props).value[i].property != Wishes(unique, props).value[j].property
    decreases |unique|
  {
    var n := |unique| - 1;
    var before := Wishes(unique[..n], props).value;
    if j < |before| { WishesDistinct(unique[..n], props, i, j); } else { WishComesFrom(unique[..n], props, i); }
  }

  /** The node and value a violation is about, and the claims made before it by other nodes. */
  lemma FailingValue(x: Context, node: NodeValue, key: NodeKey, claims: set<Claim>, l: string, q: string)
      returns (v: Value)
    requires CheckNode(x, node, key, claims) == Err(UniqueViolation(l, q)) && WellDeclared(x.cat)
    ensures key.primary == l && Offers(x.cat, node, key, q, v)
    ensures (Claimable(v) && Claim(l, q, Norm(v)) in claims) || Blocked(x, key, q, v)
  {
    var unique := x.cat.labels[key.primary].unique;
    var wishes := Wishes(unique, node.properties).value;
    var j := FailingWish(x, key, wishes, |wishes|, claims);
    v := wishes[j].value;
    WishComesFrom(unique, node.properties, j);
    var m := Claim(l, q, Norm(v));
    if m in CheckWishes(x, key, wishes, j, claims).value {
      var i := ClaimMadeByWish(x, key, wishes, j, claims, m);
      if i >= 0 { WishesDistinct(unique, node.properties, i, j); }
    }
  }

  lemma BlockedExactly(x: Context, mine: Keyed, q: string)
    requires WellDeclared(x.cat) && Declared(x.cat, mine.key.primary, q) && q in mine.record.properties
    ensures Blocked(x, mine.key, q, mine.record.properties[q]) <==>
              exists k :: k != mine.key && StoredRival(x, mine, k, q)
  {
    var l, v := mine.key.primary, mine.record.properties[q];
    forall k ensures k in Collisions(x, l, q, v) && NodeId(k) !in x.deleted && k !in x.written <==>
        StoredRival(x, mine, k, q) {
      CollisionsExactly(x, l, q, v, k);
    }
  }

  /** The keys and records of a statement, each derived from its node. */
  ghost predicate Derived(c: Changes, cat: Catalogue, base: Graph, ks: seq<Keyed>) {
    && WellDeclared(cat) && Keying(c, base, ks)
    && forall i :: 0 <= i < |ks| ==> KeyAndRecord(c.upserted[i], cat) == Ok(ks[i])
  }

  lemma KeyedIsDerived(c: Changes, cat: Catalogue, base: Graph, ks: seq<Keyed>)
    requires KeyNodes(c, cat, base, |c.upserted|) == Ok(ks) && WellDeclared(cat)
    ensures Derived(c, cat, base, ks)
  {
    KeysAreKeying(c, cat, base, ks);
    forall i | 0 <= i < |ks| ensures KeyAndRecord(c.upserted[i], cat) == Ok(ks[i]) {
      NodeAdmitted(c, cat, base, ks, i);
    }
  }

  /** A violation names a node, and there is a rival to it. */
  lemma ViolationHasRival(c: Changes, cat: Catalogue, base: Graph, ks: seq<Keyed>, l: string, q: string)
      returns (i: nat, k: NodeKey)
    requires Derived(c, cat, base, ks)
    requires CheckNodes(ContextOf(c, cat, base, ks), c.upserted, ks, |ks|) == Err(UniqueViolation(l, q))
    ensures Rival(c, cat, base, ks, i, k, q) && ks[i].key.primary == l
  {
    var x := ContextOf(c, cat, base, ks);
    i := FailingNode(x, c.upserted, ks, |ks|);
    var claims := CheckNodes(x, c.upserted, ks, i).value;
    var v := FailingValue(x, c.upserted[i], ks[i].key, claims, l, q);
    RecordOffers(cat, c.upserted[i], ks[i], q);
    if Claimable(v) && Claim(l, q, Norm(v)) in claims {
      var j, w := Claimant(x, c.upserted, ks, i, Claim(l, q, Norm(v)));
      RecordOffers(cat, c.upserted[j], ks[j], q);
      EncodingIsEquality(w, v);
      k := ks[j].key;
    } else {
      BlockedExactly(x, ks[i], q);
      k :| k != ks[i].key && StoredRival(x, ks[i], k, q);
    }
  }

  /** Checks that pass leave no rival. */
  lemma PassedHasNoRival(c: Changes, cat: Catalogue, base: Graph, ks: seq<Keyed>, i: nat, k: NodeKey, q: string)
    requires Derived(c, cat, base, ks) && CheckNodes(ContextOf(c, cat, base, ks), c.upserted, ks, |ks|).Ok?
    ensures !Rival(c, cat, base, ks, i, k, q)
  {
    if Rival(c, cat, base, ks, i, k, q) {
      var x, v := ContextOf(c, cat, base, ks), ks[i].record.properties[q];
      RecordOffers(cat, c.upserted[i], ks[i], q);
      if UpsertRival(ks, i, k, q) {
        var j :| 0 <= j < |ks| && ks[j].key == k && q in ks[j].record.properties && Same(ks[j].record.properties[q], v);
        ClaimablePairDiffers(c, cat, base, ks, i, j, q);
      } else {
        AllClaimed(x, c.upserted, ks, |ks|, i, q, v);
        BlockedExactly(x, ks[i], q);
      }
    }
  }

  lemma ClaimablePairDiffers(c: Changes, cat: Catalogue, base: Graph, ks: seq<Keyed>, i: nat, j: nat, q: string)
    requires Derived(c, cat, base, ks) && CheckNodes(ContextOf(c, cat, base, ks), c.upserted, ks, |ks|).Ok?
    requires i < |ks| && j < |ks| && i != j && ks[i].key.primary == ks[j].key.primary
        && Declared(cat, ks[i].key.primary, q)
    requires q in ks[i].record.properties && q in ks[j].record.properties && Claimable(ks[i].record.properties[q])
    ensures !Same(ks[j].record.properties[q], ks[i].record.properties[q])
  {
    var x, v, w := ContextOf(c, cat, base, ks), ks[i].record.properties[q], ks[j].record.properties[q];
    RecordOffers(cat, c.upserted[i], ks[i], q);
    RecordOffers(cat, c.upserted[j], ks[j], q);
    if i < j {
      ClaimsDisjoint(x, c.upserted, ks, |ks|, i, j, q, v, w);
    } else {
      ClaimsDisjoint(x, c.upserted, ks, |ks|, j, i, q, w, v);
    }
    if Same(w, v) { EqualValuesClash(w, v); }
  }

  /** UNIQUE refuses a statement exactly when some upserted node has a rival: in particular every surviving secondary
      holder of a value the index can probe is refused. */
  lemma RefusedExactly(c: Changes, cat: Catalogue, base: Graph, ks: seq<Keyed>)
    requires KeyNodes(c, cat, base, |c.upserted|) == Ok(ks) && WellDeclared(cat)
    requires var r := CheckNodes(ContextOf(c, cat, base, ks), c.upserted, ks, |ks|); r.Err? ==> r.error.UniqueViolation?
    ensures CheckNodes(ContextOf(c, cat, base, ks), c.upserted, ks, |ks|).Err? <==>
              exists i: nat, k, q :: Rival(c, cat, base, ks, i, k, q)
  {
    KeyedIsDerived(c, cat, base, ks);
    var r := CheckNodes(ContextOf(c, cat, base, ks), c.upserted, ks, |ks|);
    if r.Err? {
      var i, k := ViolationHasRival(c, cat, base, ks, r.error.lbl, r.error.property);
    } else {
      forall i: nat, k, q ensures !Rival(c, cat, base, ks, i, k, q) { PassedHasNoRival(c, cat, base, ks, i, k, q); }
    }
  }

  /** Two nodes of one primary label that both hold null. */
  ghost predicate NullPair(cat: Catalogue, nodes: map<NodeKey, NodeRecord>, k1: NodeKey, k2: NodeKey, q: string) {
    && k1 != k2 && k1.primary == k2.primary && Declared(cat, k1.primary, q) && k1 in nodes && k2 in nodes
    && q in nodes[k1].properties && q in nodes[k2].properties && nodes[k1].properties[q].Null?
       && nodes[k2].properties[q].Null?
  }

  /** Where a rival leaves the graph the statement asks for: with a clash, with a pair of nulls, or with a secondary
      holder under an index. */
  lemma RivalIsReal(c: Changes, cat: Catalogue, base: Graph, ks: seq<Keyed>, i: nat, k: NodeKey, q: string,
      final: map<NodeKey, NodeRecord>)
    requires Rival(c, cat, base, ks, i, k, q) && NodesBecome(c, ks, base.nodes, final)
    ensures var mine := ks[i]; var v := mine.record.properties[q];
            if v.Null? then NullPair(cat, final, mine.key, k, q)
            else Clash(cat, final, k, mine.key, q) ||
                 SecondaryHolder(cat, base.(nodes := final), mine.key.primary, q, v, k)
  {
    assert ks[i] in ks && final[ks[i].key] == ks[i].record;
    if UpsertRival(ks, i, k, q) {
      var j :| 0 <= j < |ks| && ks[j].key == k && q in ks[j].record.properties
          && Same(ks[j].record.properties[q], ks[i].record.properties[q]);
      assert ks[j] in ks && final[k] == ks[j].record;
    } else {
      assert final[k] == base.nodes[k];
    }
  }

  /** A violation is reported only when the graph the statement asks for really has a second holder of the value: a
      clash of the declaration, or two nulls, or a holder only the index sees. So value moves, and deleting a claimant
      while creating another, pass. */
  lemma ViolationIsReal(c: Changes, cat: Catalogue, base: Graph, l: string, q: string)
      returns (ks: seq<Keyed>, i: nat, k: NodeKey)
    requires MakePlan(c, cat, base) == Err(UniqueViolation(l, q)) && WellDeclared(cat)
    ensures KeyNodes(c, cat, base, |c.upserted|) == Ok(ks) && NodesBecome(c, ks, base.nodes, WouldBe(c, ks, base.nodes))
    ensures Rival(c, cat, base, ks, i, k, q) && ks[i].key.primary == l
    ensures var final, v := WouldBe(c, ks, base.nodes), ks[i].record.properties[q];
            if v.Null? then NullPair(cat, final, ks[i].key, k, q)
            else Clash(cat, final, k, ks[i].key, q) || SecondaryHolder(cat, base.(nodes := final), l, q, v, k)
  {
    ks := KeyNodes(c, cat, base, |c.upserted|).value;
    KeyedIsDerived(c, cat, base, ks);
    WouldBecome(c, base, ks);
    i, k := ViolationHasRival(c, cat, base, ks, l, q);
    RivalIsReal(c, cat, base, ks, i, k, q, WouldBe(c, ks, base.nodes));
  }
}
