/** Batch deduplication and the two-pointer diff (benches/src/lib.rs). */
module Batch {
  import opened Order
  import opened Wrappers

  datatype Entry<V> = Entry(key: Text, val: V)

  /** A batch operation: `Some` puts the value, `None` deletes the key. */
  type Op = Entry<Option<Text>>

  type Store = map<Text, Text>

  function Effect(op: Op, m: Store): Store {
    match op.val
    case Some(v) => m[op.key := v]
    case None => m - {op.key}
  }

  /** Apply operations in order. */
  function Apply(ops: seq<Op>, m: Store): Store {
    if ops == [] then m else Apply(ops[1..], Effect(ops[0], m))
  }

  /** The last operation on the key decides. */
  lemma {:induction false} LastOpDecides(ops: seq<Op>, m: Store, k: Text, i: nat)
    requires i < |ops| && ops[i].key == k && forall j :: i < j < |ops| ==> ops[j].key != k
    ensures ops[i].val.Some? ==> k in Apply(ops, m) && Apply(ops, m)[k] == ops[i].val.value
    ensures ops[i].val.None? ==> k !in Apply(ops, m)
    decreases |ops|
  {
    if i == 0 {
      assert forall j :: 0 <= j < |ops[1..]| ==> ops[1..][j] == ops[j + 1];
      OthersUntouched(ops[1..], Effect(ops[0], m), k);
    } else {
      LastOpDecides(ops[1..], Effect(ops[0], m), k, i - 1);
    }
  }

  lemma {:induction false} OthersUntouched(ops: seq<Op>, m: Store, k: Text)
    requires forall j :: 0 <= j < |ops| ==> ops[j].key != k
    ensures k in Apply(ops, m) <==> k in m
    ensures k in m ==> Apply(ops, m)[k] == m[k]
    decreases |ops|
  {
    if ops != [] { OthersUntouched(ops[1..], Effect(ops[0], m), k); }
  }

  ghost predicate KeysAscending<V>(s: seq<Entry<V>>) {
    forall i, j :: 0 <= i < j < |s| ==> Less(s[i].key, s[j].key)
  }

  ghost predicate KeysSorted<V>(s: seq<Entry<V>>) {
    forall i, j :: 0 <= i < j < |s| ==> !Less(s[j].key, s[i].key)
  }

  // ----- the stable sort -----

  function Insert<V>(x: Entry<V>, s: seq<Entry<V>>): (r: seq<Entry<V>>)
    ensures multiset(r) == multiset(s) + multiset{x}
  {
    if s == [] || !Less(s[0].key, x.key) then [x] + s
    else
      assert s == [s[0]] + s[1..];
      [s[0]] + Insert(x, s[1..])
  }

  /** `slice::sort_by` on the key: stable. */
  function StableSort<V>(s: seq<Entry<V>>): (r: seq<Entry<V>>)
    ensures multiset(r) == multiset(s)
  {
    if s == [] then [] else
      assert s == [s[0]] + s[1..];
      Insert(s[0], StableSort(s[1..]))
  }

  lemma {:induction false} InsertSorted<V>(x: Entry<V>, s: seq<Entry<V>>)
    requires KeysSorted(s)
    ensures KeysSorted(Insert(x, s))
  {
    if s == [] {
    } else if !Less(s[0].key, x.key) {
      forall j | 0 <= j < |s| ensures !Less(s[j].key, x.key) {
        if Less(s[j].key, x.key) && j > 0 {
          Trichotomy(s[0].key, s[j].key);
          if Less(s[0].key, s[j].key) { Transitive(s[0].key, s[j].key, x.key); }
        }
      }
    } else {
      InsertSorted(x, s[1..]);
      var t := Insert(x, s[1..]);
      forall j | 0 <= j < |t| ensures !Less(t[j].key, s[0].key) {
        assert t[j] in multiset(t);
        if t[j] == x { Trichotomy(s[0].key, x.key); } else { assert t[j] in s[1..]; }
      }
    }
  }

  lemma {:induction false} StableSortSorts<V>(s: seq<Entry<V>>)
    ensures KeysSorted(StableSort(s))
  {
    if s != [] {
      StableSortSorts(s[1..]);
      InsertSorted(s[0], StableSort(s[1..]));
    }
  }

  lemma {:induction false} SortOfAscending<V>(s: seq<Entry<V>>)
    requires KeysAscending(s)
    ensures StableSort(s) == s
  {
    if |s| > 1 {
      SortOfAscending(s[1..]);
      Trichotomy(s[0].key, s[1].key);
    }
  }

  // ----- sorting does not change the meaning of a batch -----

  lemma EffectsCommute(x: Op, y: Op, m: Store)
    requires x.key != y.key
    ensures Effect(x, Effect(y, m)) == Effect(y, Effect(x, m))
  {
  }

  lemma {:induction false} InsertApplies(x: Op, s: seq<Op>, m: Store)
    ensures Apply(Insert(x, s), m) == Apply(s, Effect(x, m))
  {
    if s != [] && Less(s[0].key, x.key) {
      Trichotomy(s[0].key, x.key);
      EffectsCommute(x, s[0], m);
      InsertApplies(x, s[1..], Effect(s[0], m));
    } else {
      assert ([x] + s)[1..] == s;
    }
  }

  lemma {:induction false} SortApplies(s: seq<Op>, m: Store)
    ensures Apply(StableSort(s), m) == Apply(s, m)
  {
    if s != [] {
      InsertApplies(s[0], StableSort(s[1..]), m);
      SortApplies(s[1..], Effect(s[0], m));
    }
  }

  lemma {:induction false} ApplySnoc(s: seq<Op>, x: Op, m: Store)
    ensures Apply(s + [x], m) == Effect(x, Apply(s, m))
  {
    if s == [] {
      assert [x][1..] == [];
      assert s + [x] == [x];
      assert Apply([x], m) == Apply([x][1..], Effect(x, m));
    } else {
      assert (s + [x])[1..] == s[1..] + [x];
      ApplySnoc(s[1..], x, Effect(s[0], m));
    }
  }

  lemma LastWins(s: seq<Op>, x: Op, m: Store)
    requires s != [] && s[|s| - 1].key == x.key
    ensures Apply(s[..|s| - 1] + [x], m) == Apply(s + [x], m)
  {
    var front, last := s[..|s| - 1], s[|s| - 1];
    assert s == front + [last];
    ApplySnoc(front, last, m);
    ApplySnoc(front, x, m);
    ApplySnoc(s, x, m);
    assert Effect(x, Effect(last, Apply(front, m))) == Effect(x, Apply(front, m));
  }

  ghost predicate SameMeaning(s: seq<Op>, t: seq<Op>) {
    forall m :: Apply(s, m) == Apply(t, m)
  }

  lemma AbsorbMeans(out: seq<Op>, op: Op, done: seq<Op>)
    requires SameMeaning(out, done)
    ensures SameMeaning(out + [op], done + [op])
    ensures out != [] && out[|out| - 1].key == op.key ==> SameMeaning(out[..|out| - 1] + [op], done + [op])
  {
    forall m ensures Apply(out + [op], m) == Apply(done + [op], m) {
      ApplySnoc(out, op, m);
      ApplySnoc(done, op, m);
    }
    if out != [] && out[|out| - 1].key == op.key {
      forall m ensures Apply(out[..|out| - 1] + [op], m) == Apply(done + [op], m) { LastWins(out, op, m); }
    }
  }

  method DedupOps(ops: seq<Op>) returns (out: seq<Op>)
    ensures KeysAscending(out)
    ensures SameMeaning(out, ops)
    ensures forall op :: op in out ==> op in ops
  {
    var sorted := StableSort(ops);
    StableSortSorts(ops);
    assert forall op :: op in sorted ==> op in multiset(sorted);
    out := [];
    for k := 0 to |sorted|
      invariant KeysAscending(out)
      invariant |out| > 0 ==> k > 0 && out[|out| - 1].key == sorted[k - 1].key
      invariant k > 0 ==> |out| > 0
      invariant SameMeaning(out, sorted[..k])
      invariant forall op :: op in out ==> op in sorted
    {
      assert sorted[..k + 1] == sorted[..k] + [sorted[k]];
      if k > 0 { Trichotomy(sorted[k - 1].key, sorted[k].key); }
      var op := sorted[k];
      AbsorbMeans(out, op, sorted[..k]);
      if |out| > 0 && out[|out| - 1].key == op.key {
        out := out[..|out| - 1] + [op];
      } else {
        if |out| > 0 { AscendingExtends(out, op); }
        out := out + [op];
      }
    }
    assert sorted[..|sorted|] == sorted;
    forall m ensures Apply(out, m) == Apply(ops, m) { SortApplies(ops, m); }
    forall op | op in out ensures op in ops { assert op in multiset(sorted); }
  }

  lemma AscendingExtends<V>(s: seq<Entry<V>>, x: Entry<V>)
    requires KeysAscending(s) && s != [] && Less(s[|s| - 1].key, x.key)
    ensures KeysAscending(s + [x])
  {
    forall i | 0 <= i < |s| ensures Less(s[i].key, x.key) {
      if i < |s| - 1 { Transitive(s[i].key, s[|s| - 1].key, x.key); }
    }
  }

  // ----- the two-pointer diff -----

  datatype Kind = Removed | Added | Modified

  ghost predicate Has(s: seq<Entry<Text>>, k: Text) {
    exists e :: e in s && e.key == k
  }

  /** What an independent reading of the two maps says about key `k`. */
  ghost predicate Differs(a: seq<Entry<Text>>, b: seq<Entry<Text>>, k: Text, kind: Kind) {
    match kind
    case Removed => Has(a, k) && !Has(b, k)
    case Added => Has(b, k) && !Has(a, k)
    case Modified => exists e, f :: e in a && f in b && e.key == k && f.key == k && e.val != f.val
  }

  /** Every key of `s` precedes every key of `t`. */
  ghost predicate Precedes<V, W>(s: seq<Entry<V>>, t: seq<Entry<W>>) {
    forall e, f :: e in s && f in t ==> Less(e.key, f.key)
  }

  ghost predicate ExactDiff(a: seq<Entry<Text>>, b: seq<Entry<Text>>, out: seq<Entry<Kind>>) {
    forall k, kind :: Entry(k, kind) in out <==> Differs(a, b, k, kind)
  }

  lemma NotAmongSmaller<V, W>(s: seq<Entry<V>>, t: seq<Entry<W>>, f: Entry<W>)
    requires Precedes(s, t) && f in t
    ensures forall e :: e in s ==> e.key != f.key
  {
    Trichotomy(f.key, f.key);
  }

  lemma DiffStepOne(a: seq<Entry<Text>>, b: seq<Entry<Text>>, out: seq<Entry<Kind>>, x: Entry<Text>)
    requires ExactDiff(a, b, out)
    requires !Has(a, x.key) && !Has(b, x.key)
    ensures ExactDiff(a + [x], b, out + [Entry(x.key, Removed)])
    ensures ExactDiff(a, b + [x], out + [Entry(x.key, Added)])
  {
    assert x in a + [x] && x in b + [x];
    assert forall k :: Has(a + [x], k) <==> Has(a, k) || k == x.key;
    assert forall k :: Has(b + [x], k) <==> Has(b, k) || k == x.key;
    assert forall e :: e in b ==> Has(b, e.key);
    assert forall e :: e in a ==> Has(a, e.key);
  }

  lemma DiffersBoth(a: seq<Entry<Text>>, b: seq<Entry<Text>>, x: Entry<Text>, y: Entry<Text>, k: Text, kind: Kind)
    requires x.key == y.key && !Has(a, x.key) && !Has(b, x.key)
    ensures Differs(a + [x], b + [y], k, kind) <==>
              if k == x.key then kind == Modified && x.val != y.val else Differs(a, b, k, kind)
  {
    assert x in a + [x] && y in b + [y];
    assert Has(a + [x], k) <==> Has(a, k) || k == x.key;
    assert Has(b + [y], k) <==> Has(b, k) || k == x.key;
    if k == x.key {
      assert forall e :: e in a + [x] && e.key == k ==> e == x by {
        assert forall e :: e in a ==> Has(a, e.key);
      }
      assert forall f :: f in b + [y] && f.key == k ==> f == y by {
        assert forall f :: f in b ==> Has(b, f.key);
      }
    }
  }

  lemma DiffStepBoth(a: seq<Entry<Text>>, b: seq<Entry<Text>>, out: seq<Entry<Kind>>, x: Entry<Text>, y: Entry<Text>)
    requires ExactDiff(a, b, out)
    requires x.key == y.key && !Has(a, x.key) && !Has(b, x.key)
    ensures ExactDiff(a + [x], b + [y], if x.val != y.val then out + [Entry(x.key, Modified)] else out)
  {
    var next := if x.val != y.val then out + [Entry(x.key, Modified)] else out;
    forall k, kind ensures Entry(k, kind) in next <==> Differs(a + [x], b + [y], k, kind) {
      DiffersBoth(a, b, x, y, k, kind);
      assert Entry(k, kind) in out <==> Differs(a, b, k, kind);
    }
  }

  /** Everything the scan knows with `i` entries of `a` and `j` of `b` behind it. */
  ghost predicate Scanned(a: seq<Entry<Text>>, b: seq<Entry<Text>>, i: nat, j: nat, out: seq<Entry<Kind>>) {
    && i <= |a| && j <= |b|
    && KeysAscending(a) && KeysAscending(b) && KeysAscending(out)
    && Precedes(a[..i], b[j..]) && Precedes(b[..j], a[i..])
    && Precedes(out, a[i..]) && Precedes(out, b[j..])
    && ExactDiff(a[..i], b[..j], out)
  }

  lemma ScanLeft(a: seq<Entry<Text>>, b: seq<Entry<Text>>, i: nat, j: nat, out: seq<Entry<Kind>>)
    requires Scanned(a, b, i, j, out)
    requires i < |a| && (j >= |b| || Less(a[i].key, b[j].key))
    ensures Scanned(a, b, i + 1, j, out + [Entry(a[i].key, Removed)])
  {
    SplitAt(a, i);
    if j < |b| { HeadPrecedes(a[i], b, j); }
    NotAmongSmaller(b[..j], a[i..], a[i]);
    NotAmongSmaller(a[..i], a[i..], a[i]);
    DiffStepOne(a[..i], b[..j], out, a[i]);
    SnocAscending(out, a[i..], Entry(a[i].key, Removed));
  }

  lemma ScanRight(a: seq<Entry<Text>>, b: seq<Entry<Text>>, i: nat, j: nat, out: seq<Entry<Kind>>)
    requires Scanned(a, b, i, j, out)
    requires j < |b| && (i >= |a| || Less(b[j].key, a[i].key))
    ensures Scanned(a, b, i, j + 1, out + [Entry(b[j].key, Added)])
  {
    SplitAt(b, j);
    if i < |a| { HeadPrecedes(b[j], a, i); }
    NotAmongSmaller(a[..i], b[j..], b[j]);
    NotAmongSmaller(b[..j], b[j..], b[j]);
    DiffStepOne(a[..i], b[..j], out, b[j]);
    SnocAscending(out, b[j..], Entry(b[j].key, Added));
  }

  lemma ScanBoth(a: seq<Entry<Text>>, b: seq<Entry<Text>>, i: nat, j: nat, out: seq<Entry<Kind>>)
    requires Scanned(a, b, i, j, out)
    requires i < |a| && j < |b| && a[i].key == b[j].key
    ensures Scanned(a, b, i + 1, j + 1, if a[i].val != b[j].val then out + [Entry(a[i].key, Modified)] else out)
  {
    SplitAt(a, i);
    SplitAt(b, j);
    NotAmongSmaller(b[..j], a[i..], a[i]);
    NotAmongSmaller(a[..i], a[i..], a[i]);
    DiffStepBoth(a[..i], b[..j], out, a[i], b[j]);
    SnocAscending(out, a[i..], Entry(a[i].key, Modified));
  }

  method NaiveScanDiff(a: seq<Entry<Text>>, b: seq<Entry<Text>>) returns (out: seq<Entry<Kind>>)
    requires KeysAscending(a) && KeysAscending(b)
    ensures KeysAscending(out)
    ensures ExactDiff(a, b, out)
  {
    out := [];
    var i, j := 0, 0;
    while i < |a| || j < |b|
      invariant Scanned(a, b, i, j, out)
      decreases |a| - i + |b| - j
    {
      if i < |a| && (j >= |b| || Less(a[i].key, b[j].key)) {
        ScanLeft(a, b, i, j, out);
        out := out + [Entry(a[i].key, Removed)];
        i := i + 1;
      } else if j < |b| && (i >= |a| || Less(b[j].key, a[i].key)) {
        ScanRight(a, b, i, j, out);
        out := out + [Entry(b[j].key, Added)];
        j := j + 1;
      } else {
        Trichotomy(a[i].key, b[j].key);
        ScanBoth(a, b, i, j, out);
        if a[i].val != b[j].val {
          out := out + [Entry(a[i].key, Modified)];
        }
        i := i + 1;
        j := j + 1;
      }
    }
    assert a[..i] == a && b[..j] == b;
    SortOfAscending(out);
    out := StableSort(out);
  }

  /** Cutting an ascending list at `i`. */
  lemma SplitAt<V>(s: seq<Entry<V>>, i: nat)
    requires KeysAscending(s) && i < |s|
    ensures s[..i + 1] == s[..i] + [s[i]] && s[i..] == [s[i]] + s[i + 1..]
    ensures Precedes(s[..i], s[i..]) && Precedes(s[..i + 1], s[i + 1..])
    ensures forall f :: f in s[i + 1..] ==> Less(s[i].key, f.key)
  {
  }

  lemma HeadPrecedes<V, W>(x: Entry<V>, t: seq<Entry<W>>, j: nat)
    requires KeysAscending(t) && j < |t| && Less(x.key, t[j].key)
    ensures forall f :: f in t[j..] ==> Less(x.key, f.key)
  {
    forall f | f in t[j..] ensures Less(x.key, f.key) {
      var k :| j <= k < |t| && t[k] == f;
      if k > j { Transitive(x.key, t[j].key, t[k].key); }
    }
  }

  lemma SnocAscending<V, W>(out: seq<Entry<V>>, t: seq<Entry<W>>, x: Entry<V>)
    requires KeysAscending(out) && t != [] && Precedes(out, t) && x.key == t[0].key
    ensures KeysAscending(out + [x])
  {
    assert t[0] in t;
  }
}
