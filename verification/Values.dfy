/** Stored property values, their equality and their key encoding, and the runtime values they are read into
    (crates/acetone-model/src/keys.rs, values.rs; crates/acetone-cypher/src/persist.rs, exec/adapter.rs). */
module Values {
  import opened Wrappers
  import opened Floats

  /** The types with no native runtime form. */
  datatype Kind = Bytes | Date | Time | DateTime | Duration

  datatype Value =
    | Null | Bool(b: bool) | Int(n: int) | Flt(x: Float) | Text(s: string)
    | Deferred(kind: Kind, fields: seq<int>) | List(items: seq<Value>)

  const MAX_DEPTH: nat := 128
  const MAX_VALUE_DEPTH: nat := 256
  const NANOS_PER_DAY: nat := 86_400_000_000_000
  const MAX_OFFSET_MINUTES: int := 1080

  /** Stored-value equality: type-exact, `-0.0 == 0.0`, NaN equal to nothing. */
  predicate Same(a: Value, b: Value)
    decreases a
  {
    if a.Flt? && b.Flt? then FloatEq(a.x, b.x)
    else if a.List? && b.List? then |a.items| == |b.items| && forall i :: 0 <= i < |a.items| ==>
        Same(a.items[i], b.items[i])
    else !a.List? && !a.Flt? && a == b
  }

  predicate HasNaN(v: Value)
    decreases v
  {
    match v
    case Flt(x) => x == NaN
    case List(items) => exists i :: 0 <= i < |items| && HasNaN(items[i])
    case _ => false
  }

  predicate InRange(kind: Kind, fields: seq<int>) {
    && (kind.Time? ==> |fields| == 1 && 0 <= fields[0] < NANOS_PER_DAY)
    && (kind.DateTime? ==> |fields| == 2 && -MAX_OFFSET_MINUTES <= fields[1] <= MAX_OFFSET_MINUTES)
  }

  /** The encoders accept `v` at list depth `depth`. */
  predicate Fits(v: Value, depth: nat)
    decreases v
  {
    depth <= MAX_DEPTH &&
    match v
    case Deferred(kind, fields) => InRange(kind, fields)
    case List(items) => forall i :: 0 <= i < |items| ==> Fits(items[i], depth + 1)
    case _ => true
  }

  /** A record can hold it. */
  predicate Storable(v: Value) { Fits(v, 0) }

  /** `encode_key` of the value by itself succeeds: it can be claimed. */
  predicate Claimable(v: Value) { Fits(v, 0) && !HasNaN(v) }

  /** The index key, which wraps the value in one more list, can be encoded. */
  predicate Probeable(v: Value) { Fits(v, 1) && !HasNaN(v) }

  /** The encoded form, up to an injective byte layout: zeros lose their sign. */
  function Norm(v: Value): Value
    decreases v
  {
    match v
    case Flt(NegZero) => Flt(PosZero)
    case List(items) => List(seq(|items|, i requires 0 <= i < |items| => Norm(items[i])))
    case _ => v
  }

  // ----- encoding is exactly equality -----

  lemma {:induction false} NaNEqualsNothing(a: Value, b: Value)
    requires HasNaN(a)
    ensures !Same(a, b) && !Same(b, a)
    decreases a
  {
    if a.List? && b.List? && |a.items| == |b.items| {
      var i :| 0 <= i < |a.items| && HasNaN(a.items[i]);
      NaNEqualsNothing(a.items[i], b.items[i]);
    }
  }

  /** On encodable values, equal encodings are equal values and conversely. */
  lemma {:induction false} EncodingIsEquality(a: Value, b: Value)
    requires !HasNaN(a) && !HasNaN(b)
    ensures Norm(a) == Norm(b) <==> Same(a, b)
    decreases a
  {
    if a.List? && b.List? && |a.items| == |b.items| {
      forall i | 0 <= i < |a.items| ensures Norm(a.items[i]) == Norm(b.items[i]) <==> Same(a.items[i], b.items[i]) {
        EncodingIsEquality(a.items[i], b.items[i]);
      }
      ListNorm(a.items, b.items);
    } else if a.List? && b.List? {
      assert |Norm(a).items| == |a.items| && |Norm(b).items| == |b.items|;
    }
  }

  lemma ListNorm(xs: seq<Value>, ys: seq<Value>)
    requires |xs| == |ys|
    ensures Norm(List(xs)) == Norm(List(ys)) <==> forall i :: 0 <= i < |xs| ==> Norm(xs[i]) == Norm(ys[i])
  {
    var a, b := Norm(List(xs)).items, Norm(List(ys)).items;
    assert forall i :: 0 <= i < |xs| ==> a[i] == Norm(xs[i]) && b[i] == Norm(ys[i]);
  }

  /** The encoded form is the value itself, up to the sign of a zero. */
  lemma {:induction false} NormIsSame(v: Value)
    requires !HasNaN(v)
    ensures Same(Norm(v), v)
    decreases v
  {
    if v.List? {
      forall i | 0 <= i < |v.items| ensures Same(Norm(v).items[i], v.items[i]) { NormIsSame(v.items[i]); }
    }
  }

  /** How deep values nest in lists. */
  function Height(v: Value): nat
    decreases v
  {
    if v.List? && v.items != [] then 1 + Highest(v.items) else 0
  }

  function Highest(vs: seq<Value>): nat
    decreases vs
  {
    if vs == [] then 0 else
      var rest := Highest(vs[1..]);
      if Height(vs[0]) > rest then Height(vs[0]) else rest
  }

  lemma {:induction false} HighestBounds(vs: seq<Value>, n: nat)
    ensures Highest(vs) <= n <==> forall i :: 0 <= i < |vs| ==> Height(vs[i]) <= n
  {
    if vs != [] {
      HighestBounds(vs[1..], n);
      assert forall i :: 0 < i < |vs| ==> vs[i] == vs[1..][i - 1];
    }
  }

  /** Times of day and offsets are within their ranges, at every depth. */
  predicate Ranged(v: Value)
    decreases v
  {
    match v
    case Deferred(Time, fields) => |fields| == 1 && 0 <= fields[0] < 86_400_000_000_000
    case Deferred(DateTime, fields) => |fields| == 2 && -1080 <= fields[1] <= 1080
    case List(items) => forall i :: 0 <= i < |items| ==> Ranged(items[i])
    case _ => true
  }

  /** The encoders accept exactly the values nested at most 128 lists deep with temporal fields in range. */
  lemma {:induction false} FitsExactly(v: Value, depth: nat)
    ensures Fits(v, depth) <==> depth + Height(v) <= 128 && Ranged(v)
    decreases v
  {
    if v.List? {
      forall i | 0 <= i < |v.items|
        ensures Fits(v.items[i], depth + 1) <==> depth + 1 + Height(v.items[i]) <= 128 && Ranged(v.items[i]) {
        FitsExactly(v.items[i], depth + 1);
      }
      if v.items != [] {
        assert Fits(v, depth) ==> Fits(v.items[0], depth + 1);
        if depth < 128 { HighestBounds(v.items, 127 - depth); }
      }
    }
  }

  /** Equal values fit equally deep and hold NaN equally. */
  lemma {:induction false} SameFits(a: Value, b: Value, depth: nat)
    requires Same(a, b)
    ensures Fits(a, depth) <==> Fits(b, depth)
    decreases a
  {
    if a.List? && b.List? {
      forall i | 0 <= i < |a.items| ensures Fits(a.items[i], depth + 1) <==> Fits(b.items[i], depth + 1) {
        SameFits(a.items[i], b.items[i], depth + 1);
      }
    }
  }

  /** Two equal values share one encoding, so a claim or a probe of one finds the other. */
  lemma EqualValuesClash(a: Value, b: Value)
    requires Same(a, b)
    ensures !HasNaN(a) && !HasNaN(b) && Norm(a) == Norm(b)
    ensures Claimable(a) == Claimable(b) && Probeable(a) == Probeable(b)
  {
    if HasNaN(a) { NaNEqualsNothing(a, b); }
    if HasNaN(b) { NaNEqualsNothing(b, a); }
    EncodingIsEquality(a, b);
    SameFits(a, b, 0);
    SameFits(a, b, 1);
  }

  lemma {:induction false} SameSymmetric(a: Value, b: Value)
    requires Same(a, b)
    ensures Same(b, a)
    decreases a
  {
    if a.List? && b.List? {
      forall i | 0 <= i < |a.items| ensures Same(b.items[i], a.items[i]) { SameSymmetric(a.items[i], b.items[i]); }
    }
  }

  // ----- runtime values -----

  datatype RuntimeValue =
    | RNull | RBool(b: bool) | RInt(n: int) | RFloat(x: Float) | RText(s: string)
    | Carrier(v: Value) | RList(items: seq<RuntimeValue>) | RMap | RNode | RRelationship | RPath

  /** `convert_value_at`: `None` is the error for a value that cannot be stored. */
  function Convert(v: RuntimeValue, depth: nat): Option<Value>
    decreases v
  {
    if depth >= MAX_VALUE_DEPTH then None else
      match v
      case RNull => Some(Null)
      case RBool(b) => Some(Bool(b))
      case RInt(n) => Some(Int(n))
      case RFloat(x) => Some(Flt(x))
      case RText(s) => Some(Text(s))
      case Carrier(m) => Some(m)
      case RList(items) =>
        if forall i :: 0 <= i < |items| ==> Convert(items[i], depth + 1).Some?
        then Some(List(seq(|items|, i requires 0 <= i < |items| => Convert(items[i], depth + 1).value)))
        else None
      case _ => None
  }

  /** The read adapter: deferred types travel as carriers. */
  function Expose(v: Value, depth: nat): RuntimeValue
    decreases v
  {
    if depth >= MAX_VALUE_DEPTH then RNull else
      match v
      case Null => RNull
      case Bool(b) => RBool(b)
      case Int(n) => RInt(n)
      case Flt(x) => RFloat(x)
      case Text(s) => RText(s)
      case Deferred(_, _) => Carrier(v)
      case List(items) => RList(seq(|items|, i requires 0 <= i < |items| => Expose(items[i], depth + 1)))
  }

  /** A stored value read by a query and written back unchanged is stored unchanged, type included. */
  lemma {:induction false} WriteBackIsLossless(v: Value, depth: nat)
    requires Fits(v, depth)
    ensures Convert(Expose(v, depth), depth) == Some(v)
    decreases v
  {
    if v.List? {
      var r := Expose(v, depth);
      forall i | 0 <= i < |v.items| ensures Convert(r.items[i], depth + 1) == Some(v.items[i]) {
        WriteBackIsLossless(v.items[i], depth + 1);
      }
      assert Convert(r, depth).Some?;
      assert Convert(r, depth).value.items == v.items;
    }
  }

  /** No map or graph entity at any depth, and nesting below the limit. */
  predicate Native(v: RuntimeValue, depth: nat)
    decreases v
  {
    depth < MAX_VALUE_DEPTH && !v.RMap? && !v.RNode? && !v.RRelationship? && !v.RPath? &&
    (v.RList? ==> forall i :: 0 <= i < |v.items| ==> Native(v.items[i], depth + 1))
  }

  /** Carriers hold only the types that need one. */
  predicate Carried(v: RuntimeValue)
    decreases v
  {
    (v.Carrier? ==> v.v.Deferred?) && (v.RList? ==> forall i :: 0 <= i < |v.items| ==> Carried(v.items[i]))
  }

  /** Exactly the native values can be stored, and what is stored reads back as what was written. */
  lemma {:induction false} ConvertExactly(v: RuntimeValue, depth: nat)
    ensures Convert(v, depth).Some? <==> Native(v, depth)
    ensures Native(v, depth) && Carried(v) ==> Expose(Convert(v, depth).value, depth) == v
    decreases v
  {
    if v.RList? && depth < MAX_VALUE_DEPTH {
      forall i | 0 <= i < |v.items|
        ensures Convert(v.items[i], depth + 1).Some? <==> Native(v.items[i], depth + 1)
        ensures Native(v.items[i], depth + 1) && Carried(v.items[i]) ==>
                  Expose(Convert(v.items[i], depth + 1).value, depth + 1) == v.items[i]
      {
        ConvertExactly(v.items[i], depth + 1);
      }
      if Native(v, depth) && Carried(v) {
        var w := Convert(v, depth).value;
        assert forall i :: 0 <= i < |v.items| ==> w.items[i] == Convert(v.items[i], depth + 1).value;
        assert Expose(w, depth).items == v.items;
      }
    }
  }
}
