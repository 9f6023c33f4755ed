/** Cell-wise three-way merge of records (crates/acetone-graph/src/cell_merge.rs).

    A property value `V` is compared through its canonical encoding; encoding may fail. */
module CellMerge {
  import opened Order
  import opened Wrappers

  /** `encode_value`: canonical bytes, or `None` for a value the encoding rejects. */
  type Encoder<!V> = V -> Option<Text>

  datatype Conflict<V> = Conflict(property: Text, base: Option<V>, ours: Option<V>, theirs: Option<V>)

  function Get<V>(m: map<Text, V>, n: Text): Option<V> {
    if n in m then Some(m[n]) else None
  }

  /** `opt_eq`: `None` when an encoding fails. */
  function OptEq<V>(enc: Encoder<V>, a: Option<V>, b: Option<V>): Option<bool> {
    match (a, b)
    case (None, None) => Some(true)
    case (Some(x), Some(y)) =>
      if enc(x).None? || enc(y).None? then None else Some(enc(x) == enc(y))
    case _ => Some(false)
  }

  datatype Resolution<V> = Take(value: Option<V>) | Clash | Unencodable

  /** What the merged record holds: a clashing property is omitted. */
  function Chosen<V>(r: Resolution<V>): Option<V> {
    if r.Take? then r.value else None
  }

  /** The decision for one property, in the order the merge tries it. */
  function Resolve<V>(enc: Encoder<V>, b: Option<V>, o: Option<V>, t: Option<V>): Resolution<V> {
    match OptEq(enc, o, t)
    case None => Unencodable
    case Some(true) => Take(o)
    case Some(false) =>
      match OptEq(enc, o, b)
      case None => Unencodable
      case Some(true) => Take(t)
      case Some(false) =>
        match OptEq(enc, t, b)
        case None => Unencodable
        case Some(true) => Take(o)
        case Some(false) => Clash
  }

  function ResolveAt<V>(enc: Encoder<V>, base: map<Text, V>, ours: map<Text, V>, theirs: map<Text, V>,
      n: Text): Resolution<V> {
    Resolve(enc, Get(base, n), Get(ours, n), Get(theirs, n))
  }

  function ConflictAt<V>(base: map<Text, V>, ours: map<Text, V>, theirs: map<Text, V>, n: Text): Conflict<V> {
    Conflict(n, Get(base, n), Get(ours, n), Get(theirs, n))
  }

  /** `merged` and `conflicts` say of every name exactly what the per-name decision says. */
  ghost predicate IsMerge<V(!new)>(
    enc: Encoder<V>, base: map<Text, V>, ours: map<Text, V>, theirs: map<Text, V>,
    merged: map<Text, V>, conflicts: seq<Conflict<V>>)
  {
    && (forall n :: ResolveAt(enc, base, ours, theirs, n) != Unencodable)
    && (forall n :: Get(merged, n) == Chosen(ResolveAt(enc, base, ours, theirs, n)))
    && (forall i, j :: 0 <= i < j < |conflicts| ==> Less(conflicts[i].property, conflicts[j].property))
    && (forall c :: c in conflicts <==>
                    ResolveAt(enc, base, ours, theirs, c.property) == Clash
                    && c == ConflictAt(base, ours, theirs, c.property))
  }

  ghost predicate MergedUpTo<V(!new)>(
    enc: Encoder<V>, base: map<Text, V>, ours: map<Text, V>, theirs: map<Text, V>,
    names: seq<Text>, merged: map<Text, V>, conflicts: seq<Conflict<V>>)
  {
    && (forall n :: n in names ==> ResolveAt(enc, base, ours, theirs, n) != Unencodable)
    && (forall n :: n in names ==> Get(merged, n) == Chosen(ResolveAt(enc, base, ours, theirs, n)))
    && (forall n :: n !in names ==> Get(merged, n) == None)
    && (forall c :: c in conflicts <==>
                    c.property in names && ResolveAt(enc, base, ours, theirs, c.property) == Clash
                    && c == ConflictAt(base, ours, theirs, c.property))
    && (forall i, j :: 0 <= i < j < |conflicts| ==> Less(conflicts[i].property, conflicts[j].property))
  }

  lemma MergeOneMore<V(!new)>(
    enc: Encoder<V>, base: map<Text, V>, ours: map<Text, V>, theirs: map<Text, V>,
    names: seq<Text>, merged: map<Text, V>, conflicts: seq<Conflict<V>>,
    n: Text, merged': map<Text, V>, conflicts': seq<Conflict<V>>)
    requires MergedUpTo(enc, base, ours, theirs, names, merged, conflicts)
    requires n !in names && forall x :: x in names ==> Less(x, n)
    requires ResolveAt(enc, base, ours, theirs, n) != Unencodable
    requires var v := Chosen(ResolveAt(enc, base, ours, theirs, n));
             merged' == if v.Some? then merged[n := v.value] else merged
    requires conflicts' == if ResolveAt(enc, base, ours, theirs, n) == Clash
                           then conflicts + [ConflictAt(base, ours, theirs, n)] else conflicts
    ensures MergedUpTo(enc, base, ours, theirs, names + [n], merged', conflicts')
  {
    assert forall c :: c in conflicts ==> c.property in names;
    assert Get(merged, n) == None;
    assert forall x :: x != n ==> Get(merged', x) == Get(merged, x);
  }

  ghost predicate AnyUnencodable<V(!new)>(enc: Encoder<V>, base: map<Text, V>, ours: map<Text, V>,
      theirs: map<Text, V>) {
    exists n :: ResolveAt(enc, base, ours, theirs, n) == Unencodable
  }

  method MergeProperties<V(!new)>(
    enc: Encoder<V>, base: map<Text, V>, ours: map<Text, V>, theirs: map<Text, V>)
    returns (r: Option<(map<Text, V>, seq<Conflict<V>>)>)
    ensures r.None? <==> AnyUnencodable(enc, base, ours, theirs)
    ensures r.Some? ==> IsMerge(enc, base, ours, theirs, r.value.0, r.value.1)
  {
    NothingMerged(enc, base, ours, theirs);
    var names := Enumerate(base.Keys + ours.Keys + theirs.Keys);
    var merged: map<Text, V> := map[];
    var conflicts: seq<Conflict<V>> := [];
    for k := 0 to |names|
      invariant MergedUpTo(enc, base, ours, theirs, names[..k], merged, conflicts)
    {
      Fresh(names, k);
      var ok;
      ok, merged, conflicts := MergeOne(enc, base, ours, theirs, names[..k], names[k], merged, conflicts);
      if !ok { return None; }
    }
    MergeComplete(enc, base, ours, theirs, names[..|names|], merged, conflicts);
    r := Some((merged, conflicts));
  }

  lemma NothingMerged<V(!new)>(enc: Encoder<V>, base: map<Text, V>, ours: map<Text, V>, theirs: map<Text, V>)
    ensures MergedUpTo(enc, base, ours, theirs, [], map[], [])
  {
  }

  /** One turn of the loop. */
  method MergeOne<V(!new)>(
    enc: Encoder<V>, base: map<Text, V>, ours: map<Text, V>, theirs: map<Text, V>,
    ghost names: seq<Text>, n: Text, merged: map<Text, V>, conflicts: seq<Conflict<V>>)
    returns (ok: bool, merged': map<Text, V>, conflicts': seq<Conflict<V>>)
    requires MergedUpTo(enc, base, ours, theirs, names, merged, conflicts)
    requires n !in names && forall x :: x in names ==> Less(x, n)
    ensures !ok ==> AnyUnencodable(enc, base, ours, theirs)
    ensures ok ==> MergedUpTo(enc, base, ours, theirs, names + [n], merged', conflicts')
  {
    ok, merged', conflicts' := true, merged, conflicts;
    var b, o, t := Get(base, n), Get(ours, n), Get(theirs, n);
    match Resolve(enc, b, o, t) {
      case Unencodable =>
        assert ResolveAt(enc, base, ours, theirs, n) == Unencodable;
        return false, merged, conflicts;
      case Clash =>
        conflicts' := conflicts + [Conflict(n, b, o, t)];
      case Take(v) =>
        if v.Some? { merged' := merged[n := v.value]; }
    }
    MergeOneMore(enc, base, ours, theirs, names, merged, conflicts, n, merged', conflicts');
  }

  lemma MergeComplete<V(!new)>(
    enc: Encoder<V>, base: map<Text, V>, ours: map<Text, V>, theirs: map<Text, V>,
    names: seq<Text>, merged: map<Text, V>, conflicts: seq<Conflict<V>>)
    requires MergedUpTo(enc, base, ours, theirs, names, merged, conflicts)
    requires forall n :: n in base || n in ours || n in theirs ==> n in names
    ensures IsMerge(enc, base, ours, theirs, merged, conflicts) && !AnyUnencodable(enc, base, ours, theirs)
  {
    forall n | n !in names ensures ResolveAt(enc, base, ours, theirs, n) == Take(None) {}
  }

  lemma Fresh(names: seq<Text>, k: nat)
    requires Ascending(names) && k < |names|
    ensures names[k] !in names[..k] && names[..k + 1] == names[..k] + [names[k]]
    ensures forall x :: x in names[..k] ==> Less(x, names[k])
  {
    Trichotomy(names[k], names[k]);
  }

  // ----- what a merge holds, by the encodings themselves -----

  /** Both absent, or both present with the same encoding. */
  ghost predicate Agree<V>(enc: Encoder<V>, a: Option<V>, b: Option<V>) {
    (a.None? && b.None?) || (a.Some? && b.Some? && enc(a.value) == enc(b.value))
  }

  /** Both present, and one of them has no encoding. */
  ghost predicate Incomparable<V>(enc: Encoder<V>, a: Option<V>, b: Option<V>) {
    a.Some? && b.Some? && (enc(a.value).None? || enc(b.value).None?)
  }

  ghost predicate ConflictOn<V>(conflicts: seq<Conflict<V>>, n: Text) {
    exists i :: 0 <= i < |conflicts| && conflicts[i].property == n
  }

  /** Agreement keeps the value, one side's change is taken, and the property is in conflict exactly when base, ours and
      theirs differ pairwise. */
  lemma MergeMeans<V(!new)>(
    enc: Encoder<V>, base: map<Text, V>, ours: map<Text, V>, theirs: map<Text, V>,
    merged: map<Text, V>, conflicts: seq<Conflict<V>>, n: Text)
    requires IsMerge(enc, base, ours, theirs, merged, conflicts)
    ensures var b, o, t, m := Get(base, n), Get(ours, n), Get(theirs, n), Get(merged, n);
            && (Agree(enc, o, t) ==> m == o)
            && (!Agree(enc, o, t) && Agree(enc, o, b) ==> m == t)
            && (!Agree(enc, o, t) && Agree(enc, t, b) ==> m == o)
            && (ConflictOn(conflicts, n) <==> !Agree(enc, o, t) && !Agree(enc, o, b) && !Agree(enc, t, b))
            && (ConflictOn(conflicts, n) ==> m == None && Conflict(n, b, o, t) in conflicts)
  {
    var c := ConflictAt(base, ours, theirs, n);
    assert ResolveAt(enc, base, ours, theirs, n) != Unencodable;
    assert Get(merged, n) == Chosen(ResolveAt(enc, base, ours, theirs, n));
    assert c.property == n;
    if ConflictOn(conflicts, n) {
      var i :| 0 <= i < |conflicts| && conflicts[i].property == n;
      assert conflicts[i] in conflicts;
    } else {
      assert c !in conflicts;
    }
  }

  /** The merge fails exactly when two values it has to compare include one without an encoding: ours and theirs always,
      the base only once they disagree. */
  lemma FailsExactly<V(!new)>(enc: Encoder<V>, base: map<Text, V>, ours: map<Text, V>, theirs: map<Text, V>)
    ensures AnyUnencodable(enc, base, ours, theirs) <==>
            exists n :: var b, o, t := Get(base, n), Get(ours, n), Get(theirs, n);
                        || Incomparable(enc, o, t)
                        || (!Agree(enc, o, t) && Incomparable(enc, o, b))
                        || (!Agree(enc, o, t) && !Agree(enc, o, b) && Incomparable(enc, t, b))
  {
    forall n ensures ResolveAt(enc, base, ours, theirs, n) == Unencodable <==>
        var b, o, t := Get(base, n), Get(ours, n), Get(theirs, n);
        || Incomparable(enc, o, t)
        || (!Agree(enc, o, t) && Incomparable(enc, o, b))
        || (!Agree(enc, o, t) && !Agree(enc, o, b) && Incomparable(enc, t, b)) {
    }
  }

  /** Where every value has its own encoding, no side's change is lost: a property one side left alone is what the other
      side made of it, and only a property that all three hold differently is in conflict. */
  lemma NoChangeIsLost<V(!new)>(
    enc: Encoder<V>, base: map<Text, V>, ours: map<Text, V>, theirs: map<Text, V>,
    merged: map<Text, V>, conflicts: seq<Conflict<V>>, n: Text)
    requires IsMerge(enc, base, ours, theirs, merged, conflicts)
    requires forall x :: enc(x).Some?
    requires forall x, y :: enc(x) == enc(y) ==> x == y
    ensures var b, o, t, m := Get(base, n), Get(ours, n), Get(theirs, n), Get(merged, n);
            && (o == b ==> m == t)
            && (t == b ==> m == o)
            && (o == t ==> m == o)
            && (ConflictOn(conflicts, n) <==> o != t && o != b && t != b)
  {
    MergeMeans(enc, base, ours, theirs, merged, conflicts, n);
    forall a, b: Option<V> ensures Agree(enc, a, b) <==> a == b {}
  }

  // ----- laws -----

  /** Identical, or of equal canonical encoding. */
  ghost predicate Same<V>(enc: Encoder<V>, a: Option<V>, b: Option<V>) {
    a == b || OptEq(enc, a, b) == Some(true)
  }

  ghost predicate SameMap<V>(enc: Encoder<V>, m: map<Text, V>, m': map<Text, V>) {
    forall n :: Same(enc, Get(m, n), Get(m', n))
  }

  /** `onto` with the change from `base` to `side` applied, name by name. */
  function PatchAt<V>(enc: Encoder<V>, onto: map<Text, V>, base: map<Text, V>, side: map<Text, V>, n: Text): Option<V> {
    if OptEq(enc, Get(side, n), Get(base, n)) == Some(true) then Get(onto, n) else Get(side, n)
  }

  ghost predicate IsPatch<V>(enc: Encoder<V>, onto: map<Text, V>, base: map<Text, V>, side: map<Text, V>,
      r: map<Text, V>) {
    forall n :: Same(enc, Get(r, n), PatchAt(enc, onto, base, side, n))
  }

  ghost predicate PatchesCommute<V>(enc: Encoder<V>, base: map<Text, V>, ours: map<Text, V>, theirs: map<Text, V>) {
    forall n :: Same(enc, PatchAt(enc, ours, base, theirs, n), PatchAt(enc, theirs, base, ours, n))
  }

  lemma PatchAtMerge<V(!new)>(
    enc: Encoder<V>, base: map<Text, V>, ours: map<Text, V>, theirs: map<Text, V>, n: Text)
    ensures var r := ResolveAt(enc, base, ours, theirs, n);
            && (r.Take? ==> Same(enc, r.value, PatchAt(enc, ours, base, theirs, n))
                            && Same(enc, r.value, PatchAt(enc, theirs, base, ours, n))
                            && Same(enc, PatchAt(enc, ours, base, theirs, n), PatchAt(enc, theirs, base, ours, n)))
            && (r.Clash? ==> !Same(enc, PatchAt(enc, ours, base, theirs, n), PatchAt(enc, theirs, base, ours, n)))
  {
  }

  /** A merge is clean exactly when the two sides' deltas commute, and then it is their common result. */
  lemma CleanMergeIsBothDeltas<V(!new)>(
    enc: Encoder<V>, base: map<Text, V>, ours: map<Text, V>, theirs: map<Text, V>,
    merged: map<Text, V>, conflicts: seq<Conflict<V>>)
    requires IsMerge(enc, base, ours, theirs, merged, conflicts)
    ensures conflicts == [] <==> PatchesCommute(enc, base, ours, theirs)
    ensures conflicts == [] ==> IsPatch(enc, ours, base, theirs, merged) && IsPatch(enc, theirs, base, ours, merged)
  {
    forall n
      ensures ResolveAt(enc, base, ours, theirs, n) == Clash ==> ConflictAt(base, ours, theirs, n) in conflicts
    {
      assert ConflictAt(base, ours, theirs, n).property == n;
    }
    forall n { PatchAtMerge(enc, base, ours, theirs, n); }
    if conflicts != [] {
      var c := conflicts[0];
      assert c in conflicts;
      PatchAtMerge(enc, base, ours, theirs, c.property);
    }
  }

  function Mirror<V>(c: Conflict<V>): Conflict<V> {
    c.(ours := c.theirs, theirs := c.ours)
  }

  lemma ResolveSwaps<V(!new)>(enc: Encoder<V>, b: Option<V>, o: Option<V>, t: Option<V>)
    ensures Resolve(enc, b, o, t) == Unencodable <==> Resolve(enc, b, t, o) == Unencodable
    ensures Resolve(enc, b, o, t) == Clash <==> Resolve(enc, b, t, o) == Clash
    ensures Resolve(enc, b, o, t).Take? ==> Same(enc, Resolve(enc, b, o, t).value, Resolve(enc, b, t, o).value)
  {
  }

  /** Swapping the sides fails exactly when the merge did. */
  lemma FailureIsSymmetric<V(!new)>(enc: Encoder<V>, base: map<Text, V>, ours: map<Text, V>, theirs: map<Text, V>)
    ensures AnyUnencodable(enc, base, ours, theirs) <==> AnyUnencodable(enc, base, theirs, ours)
  {
    forall n ensures ResolveAt(enc, base, ours, theirs, n) == Unencodable <==>
        ResolveAt(enc, base, theirs, ours, n) == Unencodable {
      ResolveSwaps(enc, Get(base, n), Get(ours, n), Get(theirs, n));
    }
  }

  /** Where a merge succeeds so does the merge with the sides swapped; it gives the same map, up to canonical equality,
      and mirrors the conflict list in place. */
  lemma MergeIsSymmetric<V(!new)>(
    enc: Encoder<V>, base: map<Text, V>, ours: map<Text, V>, theirs: map<Text, V>,
    merged: map<Text, V>, conflicts: seq<Conflict<V>>, merged': map<Text, V>, conflicts': seq<Conflict<V>>)
    requires IsMerge(enc, base, ours, theirs, merged, conflicts)
    ensures !AnyUnencodable(enc, base, theirs, ours)
    ensures IsMerge(enc, base, theirs, ours, merged', conflicts') ==>
              && SameMap(enc, merged, merged') && |conflicts| == |conflicts'|
              && forall i :: 0 <= i < |conflicts| ==> conflicts'[i] == Mirror(conflicts[i])
  {
    FailureIsSymmetric(enc, base, ours, theirs);
    if IsMerge(enc, base, theirs, ours, merged', conflicts') {
      SwappedMap(enc, base, ours, theirs, merged, conflicts, merged', conflicts');
      SwappedConflicts(enc, base, ours, theirs, merged, conflicts, merged', conflicts');
    }
  }

  lemma SwappedMap<V(!new)>(
    enc: Encoder<V>, base: map<Text, V>, ours: map<Text, V>, theirs: map<Text, V>,
    merged: map<Text, V>, conflicts: seq<Conflict<V>>, merged': map<Text, V>, conflicts': seq<Conflict<V>>)
    requires IsMerge(enc, base, ours, theirs, merged, conflicts)
        && IsMerge(enc, base, theirs, ours, merged', conflicts')
    ensures SameMap(enc, merged, merged')
  {
    forall n ensures Same(enc, Get(merged, n), Get(merged', n)) {
      assert ResolveAt(enc, base, ours, theirs, n) != Unencodable
          && ResolveAt(enc, base, theirs, ours, n) != Unencodable;
      ResolveSwaps(enc, Get(base, n), Get(ours, n), Get(theirs, n));
    }
  }

  lemma SwappedConflicts<V(!new)>(
    enc: Encoder<V>, base: map<Text, V>, ours: map<Text, V>, theirs: map<Text, V>,
    merged: map<Text, V>, conflicts: seq<Conflict<V>>, merged': map<Text, V>, conflicts': seq<Conflict<V>>)
    requires IsMerge(enc, base, ours, theirs, merged, conflicts)
        && IsMerge(enc, base, theirs, ours, merged', conflicts')
    ensures |conflicts| == |conflicts'|
    ensures forall i :: 0 <= i < |conflicts| ==> conflicts'[i] == Mirror(conflicts[i])
  {
    var names := seq(|conflicts|, i requires 0 <= i < |conflicts| => conflicts[i].property);
    var names' := seq(|conflicts'|, i requires 0 <= i < |conflicts'| => conflicts'[i].property);
    forall n ensures n in names <==> n in names' {
      ResolveSwaps(enc, Get(base, n), Get(ours, n), Get(theirs, n));
      NamesOfConflicts(enc, base, ours, theirs, merged, conflicts, names, n);
      NamesOfConflicts(enc, base, theirs, ours, merged', conflicts', names', n);
    }
    AscendingUnique(names, names');
    forall i | 0 <= i < |conflicts| ensures conflicts'[i] == Mirror(conflicts[i]) {
      assert conflicts[i] in conflicts && conflicts'[i] in conflicts';
      assert conflicts[i].property == names[i] == names'[i] == conflicts'[i].property;
    }
  }

  lemma NamesOfConflicts<V(!new)>(
    enc: Encoder<V>, base: map<Text, V>, ours: map<Text, V>, theirs: map<Text, V>,
    merged: map<Text, V>, conflicts: seq<Conflict<V>>, names: seq<Text>, n: Text)
    requires IsMerge(enc, base, ours, theirs, merged, conflicts)
    requires |names| == |conflicts| && forall i :: 0 <= i < |names| ==> names[i] == conflicts[i].property
    ensures n in names <==> ResolveAt(enc, base, ours, theirs, n) == Clash
  {
    if n in names {
      var i :| 0 <= i < |names| && names[i] == n;
      assert conflicts[i] in conflicts;
    }
    if ResolveAt(enc, base, ours, theirs, n) == Clash {
      var c := ConflictAt(base, ours, theirs, n);
      assert c.property == n;
      var i :| 0 <= i < |conflicts| && conflicts[i] == c;
      assert names[i] == n;
    }
  }

  // ----- labels -----

  function Elements(s: seq<Text>): set<Text> { set x | x in s }

  /** Both sides have the label, or exactly one does and it was not there before. */
  predicate Kept(b: set<Text>, o: set<Text>, t: set<Text>, l: Text) {
    if l in o <==> l in t then l in o else l !in b
  }

  ghost predicate LabelsUpTo(b: set<Text>, o: set<Text>, t: set<Text>, seen: seq<Text>, r: seq<Text>) {
    Ascending(r) && forall l :: l in r <==> l in seen && Kept(b, o, t, l)
  }

  lemma LabelOneMore(b: set<Text>, o: set<Text>, t: set<Text>, seen: seq<Text>, r: seq<Text>, l: Text)
    requires LabelsUpTo(b, o, t, seen, r)
    requires forall x :: x in seen ==> Less(x, l)
    requires l in b || l in o || l in t
    ensures LabelsUpTo(b, o, t, seen + [l], if Kept(b, o, t, l) then r + [l] else r)
  {
    Trichotomy(l, l);
    assert forall x :: x in r + [l] <==> x in r || x == l;
    assert forall x :: x in seen + [l] <==> x in seen || x == l;
  }

  method MergeLabels(base: seq<Text>, ours: seq<Text>, theirs: seq<Text>) returns (r: seq<Text>)
    ensures Ascending(r)
    ensures forall l :: l in r <==> Kept(Elements(base), Elements(ours), Elements(theirs), l)
  {
    var b, o, t := Elements(base), Elements(ours), Elements(theirs);
    var all := Enumerate(b + o + t);
    r := [];
    for k := 0 to |all|
      invariant LabelsUpTo(b, o, t, all[..k], r)
    {
      var l := all[k];
      assert all[..k + 1] == all[..k] + [l];
      assert l in all;
      Fresh(all, k);
      LabelOneMore(b, o, t, all[..k], r, l);
      var removed := (l in b && l !in o) || (l in b && l !in t);
      var present := l in b || l in o || l in t;
      if present && !removed { r := r + [l]; }
    }
    assert all[..|all|] == all;
  }

  /** A label list as a property map: present labels carry `true`. */
  function Presence(labels: seq<Text>): map<Text, bool> {
    map l | l in labels :: true
  }

  function PresenceEncoding(present: bool): Option<Text> { Some([]) }

  /** Merging labels is merging their presence maps, and that merge never conflicts. */
  lemma LabelsMergeAsPresence(base: seq<Text>, ours: seq<Text>, theirs: seq<Text>, r: seq<Text>,
                              merged: map<Text, bool>, conflicts: seq<Conflict<bool>>)
    requires forall l :: l in r <==> Kept(Elements(base), Elements(ours), Elements(theirs), l)
    requires IsMerge(PresenceEncoding, Presence(base), Presence(ours), Presence(theirs), merged, conflicts)
    ensures conflicts == [] && Presence(r) == merged
  {
    var enc := PresenceEncoding;
    var (b, o, t) := (Presence(base), Presence(ours), Presence(theirs));
    forall n ensures ResolveAt(enc, b, o, t, n) == Take(Get(Presence(r), n)) {
      PresenceResolves(Get(b, n), Get(o, n), Get(t, n));
      assert n in r <==> Kept(Elements(base), Elements(ours), Elements(theirs), n);
    }
    forall n ensures Get(merged, n) == Get(Presence(r), n) {
      assert Get(merged, n) == Chosen(ResolveAt(enc, b, o, t, n));
    }
    SameLookups(merged, Presence(r));
    assert forall c :: c in conflicts ==> ResolveAt(enc, b, o, t, c.property) == Clash;
    assert forall n :: ResolveAt(enc, b, o, t, n) != Clash;
    if conflicts != [] {
      Inhabited(conflicts);
      assert false;
    }
  }

  lemma SameLookups<V(!new)>(m: map<Text, V>, m': map<Text, V>)
    requires forall n :: Get(m, n) == Get(m', n)
    ensures m == m'
  {
    assert forall n :: (n in m <==> Get(m, n).Some?) && (n in m' <==> Get(m', n).Some?);
    assert m.Keys == m'.Keys;
    forall n | n in m ensures m[n] == m'[n] { assert Get(m, n) == Get(m', n); }
  }

  lemma PresenceEq(a: Option<bool>, b: Option<bool>)
    requires a != Some(false) && b != Some(false)
    ensures OptEq(PresenceEncoding, a, b) == Some(a.Some? <==> b.Some?)
  {
    assert PresenceEncoding(true) == Some([]);
  }

  lemma ResolveByPresence(enc: Encoder<bool>, b: Option<bool>, o: Option<bool>, t: Option<bool>)
    requires b != Some(false) && o != Some(false) && t != Some(false)
    requires OptEq(enc, o, t) == Some(o.Some? <==> t.Some?)
    requires OptEq(enc, o, b) == Some(o.Some? <==> b.Some?)
    requires OptEq(enc, t, b) == Some(t.Some? <==> b.Some?)
    ensures Resolve(enc, b, o, t) == Take(if o.Some? <==> t.Some? then o else if b.Some? then None else Some(true))
  {
    if o.Some? { assert o.value; }
    if t.Some? { assert t.value; }
  }

  lemma PresenceResolves(b: Option<bool>, o: Option<bool>, t: Option<bool>)
    requires b != Some(false) && o != Some(false) && t != Some(false)
    ensures Resolve(PresenceEncoding, b, o, t) ==
            Take(if o.Some? <==> t.Some? then o else if b.Some? then None else Some(true))
  {
    PresenceEq(o, t);
    PresenceEq(o, b);
    PresenceEq(t, b);
    ResolveByPresence(PresenceEncoding, b, o, t);
  }
}
