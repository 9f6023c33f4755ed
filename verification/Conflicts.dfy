/** The workspace conflicts map of a merge in progress (crates/acetone-graph/src/conflicts.rs).

    The map's values are empty, so a map root is the set of its entry keys; scanning it yields
    them in byte order. */
module Conflicts {
  import opened Order
  import opened Wrappers

  type Byte = b: nat | b < 256
  type Bytes = seq<Byte>
  type Root = set<Bytes>

  datatype ConflictMap = Schema | Nodes | Edges
  datatype Endpoint = Src | Dst

  /** The cell conflict's identity; its values are re-derived, never stored. */
  datatype Cell = Cell(kind: ConflictMap, key: Bytes, property: Option<Bytes>)

  /** The fields of each graph violation that its entry key distinguishes. */
  datatype Violation =
    | DanglingEdge(edge: Bytes, role: Endpoint)
    | MissingRequired(node: Bytes, property: Bytes)
    | WrongType(node: Bytes, property: Bytes, declared: Bytes)
    | EdgeWrongType(edge: Bytes, property: Bytes, declared: Bytes)
    | StaleDiscriminator(edge: Bytes, discriminator: Option<Bytes>)
    | UniqueViolation(owner: Bytes, property: Bytes, shared: Bytes)

  datatype MergeConflict = OfCell(cell: Cell) | OfGraph(violation: Violation)

  const KIND_CELL: Byte := 0
  const KIND_GRAPH: Byte := 1
  const U32: nat := 0x1_0000_0000

  // ----- length-prefixed fields -----

  function BigEndian(n: nat): (r: Bytes)
    requires n < U32
    ensures |r| == 4
  {
    [n / 256 / 256 / 256, n / 256 / 256 % 256, n / 256 % 256, n % 256]
  }

  function FromBigEndian(b: Bytes): nat
    requires |b| == 4
  {
    ((b[0] as int * 256 + b[1] as int) * 256 + b[2] as int) * 256 + b[3] as int
  }

  lemma BigEndianRoundTrip(n: nat)
    requires n < U32
    ensures FromBigEndian(BigEndian(n)) == n
  {
  }

  /** The caller's bound: a field's length fits the `u32` prefix. */
  predicate Fits(field: Bytes) { |field| < U32 }

  /** `push_field` on an empty buffer; the length is cast to `u32`. */
  function Field(bytes: Bytes): Bytes {
    BigEndian(|bytes| % U32) + bytes
  }

  function Run(fields: seq<Bytes>): Bytes {
    if fields == [] then [] else Field(fields[0]) + Run(fields[1..])
  }

  /** `read_field`: the field at `pos` and the position after it. */
  function ReadField(bytes: Bytes, pos: nat): Option<(Bytes, nat)> {
    if pos + 4 > |bytes| then None else
      var end := pos + 4 + FromBigEndian(bytes[pos..pos + 4]);
      if end > |bytes| then None else Some((bytes[pos + 4..end], end))
  }

  lemma ReadFieldReads(before: Bytes, field: Bytes, after: Bytes)
    requires Fits(field)
    ensures ReadField(before + Field(field) + after, |before|) == Some((field, |before| + 4 + |field|))
  {
    var all := before + Field(field) + after;
    var pos := |before|;
    assert all[pos..pos + 4] == BigEndian(|field| % U32);
    BigEndianRoundTrip(|field|);
    assert all[pos + 4..pos + 4 + |field|] == field;
  }

  /** Two runs of equally many fields never alias. */
  lemma {:induction false} FieldsDoNotAlias(f: Bytes, rest: Bytes, g: Bytes, rest': Bytes)
    requires Fits(f) && Fits(g)
    requires Field(f) + rest == Field(g) + rest'
    ensures f == g && rest == rest'
  {
    var all := Field(f) + rest;
    ReadFieldReads([], f, rest);
    ReadFieldReads([], g, rest');
    assert [] + Field(f) + rest == all == [] + Field(g) + rest';
    assert rest == all[4 + |f|..] && rest' == all[4 + |g|..];
  }

  lemma {:induction false} RunsDoNotAlias(fs: seq<Bytes>, gs: seq<Bytes>)
    requires forall f :: f in fs ==> Fits(f)
    requires forall g :: g in gs ==> Fits(g)
    requires |fs| == |gs| && Run(fs) == Run(gs)
    ensures fs == gs
    decreases |fs|
  {
    if fs != [] {
      FieldsDoNotAlias(fs[0], Run(fs[1..]), gs[0], Run(gs[1..]));
      RunsDoNotAlias(fs[1..], gs[1..]);
      assert fs == [fs[0]] + fs[1..] && gs == [gs[0]] + gs[1..];
    }
  }

  // ----- entry keys -----

  function MapTag(m: ConflictMap): Byte {
    match m case Schema => 0 case Nodes => 1 case Edges => 2
  }

  function MapFromTag(tag: Byte): Option<ConflictMap> {
    if tag == 0 then Some(Schema) else if tag == 1 then Some(Nodes) else if tag == 2 then Some(Edges) else None
  }

  function CellPrefix(m: ConflictMap, key: Bytes): Bytes {
    [KIND_CELL, MapTag(m)] + Field(key)
  }

  predicate CellFits(c: Cell) {
    Fits(c.key) && (c.property.Some? ==> Fits(c.property.value))
  }

  function CellEntry(c: Cell): Bytes {
    CellPrefix(c.kind, c.key) +
    match c.property { case Some(p) => [1] + Field(p) case None => [0] }
  }

  /** The bytes after the graph kind that are not length-prefixed. */
  function Header(v: Violation): Bytes {
    match v
    case DanglingEdge(_, role) => [0, if role.Src? then 0 else 1]
    case MissingRequired(_, _) => [1]
    case UniqueViolation(_, _, _) => [2]
    case WrongType(_, _, _) => [3]
    case EdgeWrongType(_, _, _) => [4]
    case StaleDiscriminator(_, d) => [5, if d.Some? then 1 else 0]
  }

  function Fields(v: Violation): seq<Bytes> {
    match v
    case DanglingEdge(edge, _) => [edge]
    case MissingRequired(node, property) => [property, node]
    case WrongType(node, property, declared) => [property, declared, node]
    case EdgeWrongType(edge, property, declared) => [property, declared, edge]
    case StaleDiscriminator(edge, Some(name)) => [name, edge]
    case StaleDiscriminator(edge, None) => [edge]
    case UniqueViolation(owner, property, shared) => [owner, property, shared]
  }

  predicate ViolationFits(v: Violation) {
    forall f :: f in Fields(v) ==> Fits(f)
  }

  function ViolationEntry(v: Violation): Bytes {
    [KIND_GRAPH] + Header(v) + Run(Fields(v))
  }

  predicate AllFit(c: MergeConflict) {
    match c case OfCell(cell) => CellFits(cell) case OfGraph(v) => ViolationFits(v)
  }

  function EntryKey(c: MergeConflict): Bytes {
    match c case OfCell(cell) => CellEntry(cell) case OfGraph(v) => ViolationEntry(v)
  }

  lemma PrefixReads(m: ConflictMap, key: Bytes, rest: Bytes)
    requires Fits(key)
    ensures var e := CellPrefix(m, key) + rest;
            && e[0] == KIND_CELL && e[1] == MapTag(m)
            && ReadField(e, 2) == Some((key, 6 + |key|))
            && e[6 + |key|..] == rest
  {
    ReadFieldReads([KIND_CELL, MapTag(m)], key, rest);
  }

  /** A cell entry begins with a written key's prefix exactly when it is about that key. */
  lemma PrefixNamesTheKey(c: Cell, m: ConflictMap, key: Bytes)
    requires CellFits(c) && Fits(key)
    ensures CellPrefix(m, key) <= CellEntry(c) <==> c.kind == m && c.key == key
  {
    var suffix: Bytes := match c.property { case Some(p) => [1] + Field(p) case None => [0] };
    PrefixReads(c.kind, c.key, suffix);
    var e := CellEntry(c);
    assert e == CellPrefix(c.kind, c.key) + suffix;
    if CellPrefix(m, key) <= e {
      var rest := e[|CellPrefix(m, key)|..];
      assert e == CellPrefix(m, key) + rest;
      PrefixReads(m, key, rest);
    }
  }

  lemma GraphEntriesKeepClear(v: Violation, m: ConflictMap, key: Bytes)
    requires ViolationFits(v) && Fits(key)
    ensures !(CellPrefix(m, key) <= ViolationEntry(v))
  {
    assert ViolationEntry(v)[0] == KIND_GRAPH && CellPrefix(m, key)[0] == KIND_CELL;
  }

  lemma CellEntryInjective(c: Cell, d: Cell)
    requires CellFits(c) && CellFits(d) && CellEntry(c) == CellEntry(d)
    ensures c == d
  {
    PrefixNamesTheKey(d, c.kind, c.key);
    var n := |CellPrefix(c.kind, c.key)|;
    assert CellPrefix(c.kind, c.key) <= CellEntry(d);
    var e := CellEntry(c);
    assert e[n] == (if c.property.Some? then 1 else 0) && e[n] == (if d.property.Some? then 1 else 0);
    if c.property.Some? {
      assert e[n + 1..] == Field(c.property.value) + [] && e[n + 1..] == Field(d.property.value) + [];
      FieldsDoNotAlias(c.property.value, [], d.property.value, []);
    }
  }

  lemma HeaderDetermines(v: Violation, w: Violation, rest: Bytes, rest': Bytes)
    requires Header(v) + rest == Header(w) + rest'
    ensures Header(v) == Header(w) && rest == rest'
    ensures |Fields(v)| == |Fields(w)|
  {
    var h := Header(v) + rest;
    assert h[0] == Header(v)[0] == Header(w)[0];
    assert |Header(v)| == |Header(w)|;
    if |Header(v)| == 2 { assert h[1] == Header(v)[1] == Header(w)[1]; }
    assert rest == h[|Header(v)|..] && rest' == h[|Header(w)|..];
  }

  lemma SameTail(kind: Byte, h: Bytes, r: Bytes, h': Bytes, r': Bytes)
    requires [kind] + h + r == [kind] + h' + r'
    ensures h + r == h' + r'
  {
    assert h + r == ([kind] + h + r)[1..] && h' + r' == ([kind] + h' + r')[1..];
  }

  lemma ViolationEntryInjective(v: Violation, w: Violation)
    requires ViolationFits(v) && ViolationFits(w) && ViolationEntry(v) == ViolationEntry(w)
    ensures v == w
  {
    SameTail(KIND_GRAPH, Header(v), Run(Fields(v)), Header(w), Run(Fields(w)));
    HeaderDetermines(v, w, Run(Fields(v)), Run(Fields(w)));
    RunsDoNotAlias(Fields(v), Fields(w));
    HeaderAndFieldsDetermine(v, w);
  }

  lemma HeaderAndFieldsDetermine(v: Violation, w: Violation)
    requires Header(v) == Header(w) && Fields(v) == Fields(w)
    ensures v == w
  {
    var (fs, gs) := (Fields(v), Fields(w));
    assert Header(v)[0] == Header(w)[0];
    match v
    case DanglingEdge(_, _) => assert fs[0] == gs[0] && Header(v)[1] == Header(w)[1];
    case MissingRequired(_, _) => assert fs[0] == gs[0] && fs[1] == gs[1];
    case StaleDiscriminator(_, d) =>
      assert Header(v)[1] == Header(w)[1] && fs[0] == gs[0];
      if d.Some? { assert fs[1] == gs[1]; }
    case _ => assert fs[0] == gs[0] && fs[1] == gs[1] && fs[2] == gs[2];
  }

  /** Distinct conflicts never share an entry key. */
  lemma EntryKeyInjective(c: MergeConflict, d: MergeConflict)
    requires AllFit(c) && AllFit(d) && EntryKey(c) == EntryKey(d)
    ensures c == d
  {
    assert EntryKey(c)[0] == (if c.OfCell? then KIND_CELL else KIND_GRAPH);
    assert EntryKey(d)[0] == (if d.OfCell? then KIND_CELL else KIND_GRAPH);
    if c.OfCell? { CellEntryInjective(c.cell, d.cell); } else { ViolationEntryInjective(c.violation, d.violation); }
  }

  // ----- decoding -----

  /** `String::from_utf8` accepts exactly the well-formed sequences of RFC 3629. */
  predicate ValidUtf8(s: Bytes) {
    if s == [] then true
    else if s[0] < 0x80 then ValidUtf8(s[1..])
    else if 0xC2 <= s[0] <= 0xDF && |s| >= 2 && Continuation(s[1]) then ValidUtf8(s[2..])
    else if 0xE0 <= s[0] <= 0xEF && |s| >= 3 && Continuation(s[1]) && Continuation(s[2])
            && (s[0] == 0xE0 ==> s[1] >= 0xA0) && (s[0] == 0xED ==> s[1] < 0xA0) then ValidUtf8(s[3..])
    else if 0xF0 <= s[0] <= 0xF4 && |s| >= 4 && Continuation(s[1]) && Continuation(s[2]) && Continuation(s[3])
            && (s[0] == 0xF0 ==> s[1] >= 0x90) && (s[0] == 0xF4 ==> s[1] < 0x90) then ValidUtf8(s[4..])
    else false
  }

  predicate Continuation(b: Byte) { 0x80 <= b < 0xC0 }

  datatype Decoded = OneCell(cell: Cell) | Marker | Malformed

  function DecodeEntry(key: Bytes): Decoded {
    if key == [] then Malformed
    else if key[0] == KIND_CELL then
      if |key| < 2 || MapFromTag(key[1]).None? then Malformed else
        match ReadField(key, 2)
        case None => Malformed
        case Some((mapKey, pos)) =>
          if pos >= |key| then Malformed
          else if key[pos] == 0 then OneCell(Cell(MapFromTag(key[1]).value, mapKey, None))
          else if key[pos] == 1 then
            match ReadField(key, pos + 1)
            case None => Malformed
            case Some((name, _)) =>
              if ValidUtf8(name) then OneCell(Cell(MapFromTag(key[1]).value, mapKey, Some(name))) else Malformed
          else Malformed
    else if key[0] == KIND_GRAPH then Marker
    else Malformed
  }

  /** A cell whose property name is a Rust string. */
  predicate CellOk(c: Cell) {
    CellFits(c) && (c.property.Some? ==> ValidUtf8(c.property.value))
  }

  lemma DecodeWholeCell(kind: ConflictMap, key: Bytes)
    requires Fits(key)
    ensures DecodeEntry(CellEntry(Cell(kind, key, None))) == OneCell(Cell(kind, key, None))
  {
    PrefixReads(kind, key, [0]);
    var e := CellEntry(Cell(kind, key, None));
    assert e == CellPrefix(kind, key) + [0];
    assert e[6 + |key|] == 0;
  }

  lemma DecodePropertyCell(kind: ConflictMap, key: Bytes, p: Bytes)
    requires Fits(key) && Fits(p) && ValidUtf8(p)
    ensures DecodeEntry(CellEntry(Cell(kind, key, Some(p)))) == OneCell(Cell(kind, key, Some(p)))
  {
    PrefixReads(kind, key, [1] + Field(p));
    var e := CellEntry(Cell(kind, key, Some(p)));
    assert e == CellPrefix(kind, key) + ([1] + Field(p));
    var before := CellPrefix(kind, key) + [1];
    ReadFieldReads(before, p, []);
    assert e == before + Field(p) + [];
    DecodeFromReads(e, kind, key, 6 + |key|, p);
  }

  lemma DecodeFromReads(e: Bytes, kind: ConflictMap, key: Bytes, pos: nat, p: Bytes)
    requires |e| >= 2 && e[0] == KIND_CELL && e[1] == MapTag(kind)
    requires ReadField(e, 2) == Some((key, pos)) && pos < |e| && e[pos] == 1
    requires ReadField(e, pos + 1).Some? && ReadField(e, pos + 1).value.0 == p && ValidUtf8(p)
    ensures DecodeEntry(e) == OneCell(Cell(kind, key, Some(p)))
  {
  }

  /** Decoding undoes encoding for cells; every violation decodes to a bare marker. */
  lemma DecodeAfterEncode(c: MergeConflict)
    requires AllFit(c) && (c.OfCell? ==> CellOk(c.cell))
    ensures DecodeEntry(EntryKey(c)) == if c.OfCell? then OneCell(c.cell) else Marker
  {
    match c
    case OfCell(Cell(kind, key, None)) => DecodeWholeCell(kind, key);
    case OfCell(Cell(kind, key, Some(p))) => DecodePropertyCell(kind, key, p);
    case OfGraph(_) =>
  }

  // ----- the map and its reduction by writes -----

  datatype Written = Written(kind: ConflictMap, key: Bytes)

  ghost function Entries(conflicts: set<MergeConflict>): Root {
    set c | c in conflicts :: EntryKey(c)
  }

  method BuildConflictsMap(conflicts: seq<MergeConflict>) returns (root: Root)
    ensures root == Entries(set c | c in conflicts)
  {
    root := {};
    for k := 0 to |conflicts|
      invariant root == Entries(set c | c in conflicts[..k])
    {
      assert conflicts[..k + 1] == conflicts[..k] + [conflicts[k]];
      root := root + {EntryKey(conflicts[k])};
    }
    assert conflicts[..|conflicts|] == conflicts;
  }

  predicate Touches(w: Written, e: Bytes) {
    CellPrefix(w.kind, w.key) <= e
  }

  ghost function Reduced(root: Root, written: seq<Written>): Root {
    set e | e in root && forall w :: w in written ==> !Touches(w, e)
  }

  /** `clear_written`: scan, drop every entry under a written key's prefix, report emptiness. */
  method ClearWritten(root: Root, written: seq<Written>) returns (r: Option<Root>)
    ensures r == Shrunk(Reduced(root, written))
  {
    var scanned := Scan(root);
    var reduced := root;
    for k := 0 to |scanned|
      invariant reduced == set e | e in root && !(e in scanned[..k] && exists w :: w in written && Touches(w, e))
    {
      var e := scanned[k];
      assert scanned[..k + 1] == scanned[..k] + [e];
      if exists w | w in written :: Touches(w, e) {
        reduced := reduced - {e};
      }
    }
    assert forall e :: e in root ==> e in scanned[..|scanned|];
    assert reduced == Reduced(root, written);
    r := if reduced == {} then None else Some(reduced);
  }

  function Shrunk(root: Root): Option<Root> {
    if root == {} then None else Some(root)
  }

  /** One save while a merge is in progress: a write batch reduces the map; no writes leave it alone. */
  ghost function Save(root: Option<Root>, written: seq<Written>): Option<Root> {
    if root.Some? && written != [] then Shrunk(Reduced(root.value, written)) else root
  }

  ghost predicate BatchesFit(batches: seq<seq<Written>>) {
    forall b, w :: b in batches && w in b ==> Fits(w.key)
  }

  ghost function Saves(root: Option<Root>, batches: seq<seq<Written>>): Option<Root> {
    if batches == [] then root
    else
      var n := |batches| - 1;
      Save(Saves(root, batches[..n]), batches[n])
  }

  ghost predicate EverWritten(batches: seq<seq<Written>>, w: Written) {
    exists b :: b in batches && w in b
  }

  /** Outstanding: every graph marker, and the cells whose key no batch has written. */
  ghost function Outstanding(conflicts: set<MergeConflict>, batches: seq<seq<Written>>): set<MergeConflict> {
    set c | c in conflicts && (c.OfCell? ==> !EverWritten(batches, Written(c.cell.kind, c.cell.key)))
  }

  lemma TouchesMeansNamed(c: MergeConflict, w: Written)
    requires AllFit(c) && Fits(w.key)
    ensures Touches(w, EntryKey(c)) <==> c.OfCell? && w == Written(c.cell.kind, c.cell.key)
  {
    if c.OfCell? {
      PrefixNamesTheKey(c.cell, w.kind, w.key);
    } else {
      GraphEntriesKeepClear(c.violation, w.kind, w.key);
    }
  }

  lemma ReducedDropsNamed(conflicts: set<MergeConflict>, written: seq<Written>)
    requires forall c :: c in conflicts ==> AllFit(c)
    requires forall w :: w in written ==> Fits(w.key)
    ensures Reduced(Entries(conflicts), written)
         == Entries(set c | c in conflicts && !(c.OfCell? && Written(c.cell.kind, c.cell.key) in written))
  {
    forall c, w | c in conflicts && w in written
      ensures Touches(w, EntryKey(c)) <==> c.OfCell? && w == Written(c.cell.kind, c.cell.key)
    {
      TouchesMeansNamed(c, w);
    }
  }

  lemma EntriesEmpty(conflicts: set<MergeConflict>)
    ensures Entries(conflicts) == {} <==> conflicts == {}
  {
    if c :| c in conflicts { assert EntryKey(c) in Entries(conflicts); }
  }

  /** Over any run of saves, the map holds exactly the outstanding conflicts: the result depends on
      which keys were written, never on their order or batching. */
  lemma {:induction false} RunKeepsOutstanding(conflicts: set<MergeConflict>, batches: seq<seq<Written>>)
    requires forall c :: c in conflicts ==> AllFit(c)
    requires BatchesFit(batches)
    requires conflicts != {}
    ensures Saves(Some(Entries(conflicts)), batches) == Shrunk(Entries(Outstanding(conflicts, batches)))
    decreases |batches|
  {
    if batches == [] {
      assert Outstanding(conflicts, batches) == conflicts;
      EntriesEmpty(conflicts);
    } else {
      var n := |batches| - 1;
      var earlier, last := batches[..n], batches[n];
      assert batches == earlier + [last] && last in batches;
      RunKeepsOutstanding(conflicts, earlier);
      var before := Outstanding(conflicts, earlier);
      var after := Outstanding(conflicts, batches);
      OutstandingGrows(conflicts, earlier, last);
      ReducedDropsNamed(before, last);
      EntriesEmpty(before);
      EntriesEmpty(after);
      if last == [] { assert after == before; }
      assert Reduced(Entries(before), last) == Entries(after);
    }
  }

  lemma OutstandingGrows(conflicts: set<MergeConflict>, earlier: seq<seq<Written>>, last: seq<Written>)
    ensures Outstanding(conflicts, earlier + [last])
         == set c | c in Outstanding(conflicts, earlier) && !(c.OfCell? && Written(c.cell.kind, c.cell.key) in last)
  {
    assert last in earlier + [last];
    assert forall w :: EverWritten(earlier + [last], w) <==> EverWritten(earlier, w) || w in last;
  }

  /** The merge is resolved exactly when every conflicted key has been written and no marker was raised. */
  lemma ResolvedExactly(conflicts: set<MergeConflict>, batches: seq<seq<Written>>)
    requires forall c :: c in conflicts ==> AllFit(c)
    requires BatchesFit(batches)
    requires conflicts != {}
    ensures Saves(Some(Entries(conflicts)), batches).None? <==>
            forall c :: c in conflicts ==> c.OfCell? && EverWritten(batches, Written(c.cell.kind, c.cell.key))
  {
    RunKeepsOutstanding(conflicts, batches);
    EntriesEmpty(Outstanding(conflicts, batches));
    assert forall c :: c in conflicts && (c.OfCell? ==> !EverWritten(batches, Written(c.cell.kind, c.cell.key)))
                       ==> c in Outstanding(conflicts, batches);
  }

  lemma OrderIrrelevant(conflicts: set<MergeConflict>, one: seq<seq<Written>>, other: seq<seq<Written>>)
    requires forall c :: c in conflicts ==> AllFit(c)
    requires BatchesFit(one) && BatchesFit(other) && conflicts != {}
    requires forall w :: EverWritten(one, w) <==> EverWritten(other, w)
    ensures Saves(Some(Entries(conflicts)), one) == Saves(Some(Entries(conflicts)), other)
  {
    RunKeepsOutstanding(conflicts, one);
    RunKeepsOutstanding(conflicts, other);
    assert Outstanding(conflicts, one) == Outstanding(conflicts, other);
  }

  // ----- reading the map back -----

  datatype Persisted = Persisted(cells: seq<Cell>, markers: nat)

  /** Scanning a map yields its keys in byte order. */
  function Scan(root: Root): (r: seq<Bytes>)
    ensures Ascending(r) && |r| == |root|
    ensures forall e :: e in r <==> e in root
  {
    var r := Enumerate(root);
    assert forall i :: 0 <= i < |r| ==> r[i] in r;
    r
  }

  /** Add one decoded entry to what has been read; a malformed one fails the whole read. */
  function Add(p: Persisted, d: Decoded): Option<Persisted> {
    match d
    case OneCell(cell) => Some(p.(cells := p.cells + [cell]))
    case Marker => Some(p.(markers := p.markers + 1))
    case Malformed => None
  }

  function Sift(decode: Bytes -> Decoded, scanned: seq<Bytes>): Option<Persisted> {
    if scanned == [] then Some(Persisted([], 0)) else
      var n := |scanned| - 1;
      match Sift(decode, scanned[..n])
      case None => None
      case Some(p) => Add(p, decode(scanned[n]))
  }

  lemma {:induction false} SiftFails(decode: Bytes -> Decoded, scanned: seq<Bytes>, k: nat)
    requires k < |scanned| && decode(scanned[k]).Malformed?
    ensures Sift(decode, scanned).None?
    decreases |scanned|
  {
    if k < |scanned| - 1 { SiftFails(decode, scanned[..|scanned| - 1], k); }
  }

  lemma SiftSnoc(decode: Bytes -> Decoded, scanned: seq<Bytes>, k: nat)
    requires k < |scanned| && Sift(decode, scanned[..k]).Some?
    ensures Sift(decode, scanned[..k + 1]) == Add(Sift(decode, scanned[..k]).value, decode(scanned[k]))
  {
    assert scanned[..k + 1][..k] == scanned[..k];
  }

  method SiftEach(decode: Bytes -> Decoded, scanned: seq<Bytes>) returns (r: Option<Persisted>)
    ensures r == Sift(decode, scanned)
  {
    var cells, markers := [], 0;
    for k := 0 to |scanned|
      invariant Sift(decode, scanned[..k]) == Some(Persisted(cells, markers))
    {
      SiftSnoc(decode, scanned, k);
      match decode(scanned[k]) {
        case OneCell(cell) => cells := cells + [cell];
        case Marker => markers := markers + 1;
        case Malformed =>
          SiftFails(decode, scanned, k);
          return None;
      }
    }
    assert scanned[..|scanned|] == scanned;
    r := Some(Persisted(cells, markers));
  }

  method ReadEntries(root: Root) returns (r: Option<Persisted>)
    ensures r == Sift(DecodeEntry, Scan(root))
  {
    r := SiftEach(DecodeEntry, Scan(root));
  }

  /** What was stored is read back: the cells themselves, in byte order of their entries and once each,
      and one marker per distinct violation. */
  lemma ReadBack(conflicts: set<MergeConflict>)
    requires forall c :: c in conflicts ==> AllFit(c) && (c.OfCell? ==> CellOk(c.cell))
    ensures var r := Sift(DecodeEntry, Scan(Entries(conflicts)));
            r.Some? && SplitAs(conflicts, r.value.cells, r.value.markers)
  {
    var scanned := Scan(Entries(conflicts));
    forall k | 0 <= k < |scanned| ensures EntryOf(conflicts, scanned[k], DecodeEntry(scanned[k])) {
      assert scanned[k] in scanned;
      EntryDecodes(conflicts, scanned[k]);
    }
    var seen := ReadPrefix(conflicts, DecodeEntry, scanned, |scanned|);
    ReadAll(conflicts, scanned, seen);
    assert scanned[..|scanned|] == scanned;
  }

  ghost predicate Stores(d: Decoded, c: MergeConflict) {
    d == if c.OfCell? then OneCell(c.cell) else Marker
  }

  ghost predicate EntryOf(conflicts: set<MergeConflict>, e: Bytes, d: Decoded) {
    exists c :: c in conflicts && EntryKey(c) == e && Stores(d, c)
  }

  lemma EntryDecodes(conflicts: set<MergeConflict>, e: Bytes)
    requires forall c :: c in conflicts ==> AllFit(c) && (c.OfCell? ==> CellOk(c.cell))
    requires e in Entries(conflicts)
    ensures EntryOf(conflicts, e, DecodeEntry(e))
  {
    var c :| c in conflicts && EntryKey(c) == e;
    DecodeAfterEncode(c);
  }

  lemma ReadStep(conflicts: set<MergeConflict>, scanned: seq<Bytes>, k: nat, seen: set<MergeConflict>,
                 p: Persisted, d: Decoded)
    returns (seen': set<MergeConflict>)
    requires SeenSoFar(conflicts, scanned, k, seen) && SplitAs(seen, p.cells, p.markers)
    requires k < |scanned| && EntryOf(conflicts, scanned[k], d)
    ensures SeenSoFar(conflicts, scanned, k + 1, seen')
    ensures Add(p, d).Some? && SplitAs(seen', Add(p, d).value.cells, Add(p, d).value.markers)
  {
    var c :| c in conflicts && EntryKey(c) == scanned[k] && Stores(d, c);
    seen' := seen + {c};
    SeeOneMore(conflicts, scanned, k, seen, c);
    if c.OfCell? { SplitCell(seen, p.cells, p.markers, c); } else { SplitMarker(seen, p.cells, p.markers, c); }
  }

  lemma {:induction false} ReadPrefix(conflicts: set<MergeConflict>, decode: Bytes -> Decoded, scanned: seq<Bytes>,
      k: nat)
    returns (seen: set<MergeConflict>)
    requires forall c :: c in conflicts ==> AllFit(c)
    requires Ascending(scanned) && k <= |scanned|
    requires forall i :: 0 <= i < |scanned| ==> EntryOf(conflicts, scanned[i], decode(scanned[i]))
    ensures SeenSoFar(conflicts, scanned, k, seen)
    ensures var r := Sift(decode, scanned[..k]); r.Some? && SplitAs(seen, r.value.cells, r.value.markers)
  {
    if k == 0 {
      seen := {};
      assert GraphOnes(seen) == {};
      assert scanned[..k] == [];
    } else {
      var before := ReadPrefix(conflicts, decode, scanned, k - 1);
      var p, d := Sift(decode, scanned[..k - 1]).value, decode(scanned[k - 1]);
      seen := ReadStep(conflicts, scanned, k - 1, before, p, d);
      SiftSnoc(decode, scanned, k - 1);
      assert Sift(decode, scanned[..k]) == Add(p, d);
    }
  }

  ghost function GraphOnes(conflicts: set<MergeConflict>): set<MergeConflict> {
    set c | c in conflicts && c.OfGraph?
  }

  /** The first `k` scanned entries are those of `seen`. */
  ghost predicate SeenSoFar(conflicts: set<MergeConflict>, scanned: seq<Bytes>, k: nat, seen: set<MergeConflict>) {
    && k <= |scanned| && Ascending(scanned)
    && seen <= conflicts && |seen| == k
    && (forall c :: c in conflicts ==> AllFit(c))
    && (forall c :: c in conflicts ==> (c in seen <==> EntryKey(c) in scanned[..k]))
  }

  /** `seen` split into its cells, in scan order, and a count of its markers. */
  ghost predicate SplitAs(seen: set<MergeConflict>, cells: seq<Cell>, markers: nat) {
    && (forall cell :: cell in cells <==> OfCell(cell) in seen)
    && markers == |GraphOnes(seen)|
    && |cells| + markers == |seen|
    && (forall i, j :: 0 <= i < j < |cells| ==> Less(CellEntry(cells[i]), CellEntry(cells[j])))
  }

  lemma SeeOneMore(conflicts: set<MergeConflict>, scanned: seq<Bytes>, k: nat, seen: set<MergeConflict>,
      c: MergeConflict)
    requires SeenSoFar(conflicts, scanned, k, seen)
    requires k < |scanned| && c in conflicts && EntryKey(c) == scanned[k]
    ensures c !in seen && SeenSoFar(conflicts, scanned, k + 1, seen + {c})
    ensures forall d :: d in seen ==> Less(EntryKey(d), EntryKey(c))
  {
    Trichotomy(scanned[k], scanned[k]);
    assert scanned[k] !in scanned[..k];
    assert scanned[..k + 1] == scanned[..k] + [scanned[k]];
    forall d | d in conflicts ensures d in seen + {c} <==> EntryKey(d) in scanned[..k + 1] {
      if EntryKey(d) == EntryKey(c) { EntryKeyInjective(c, d); }
    }
  }

  lemma SplitCell(seen: set<MergeConflict>, cells: seq<Cell>, markers: nat, c: MergeConflict)
    requires SplitAs(seen, cells, markers) && c !in seen && c.OfCell?
    requires forall d :: d in seen ==> Less(EntryKey(d), EntryKey(c))
    ensures SplitAs(seen + {c}, cells + [c.cell], markers)
  {
    assert GraphOnes(seen + {c}) == GraphOnes(seen);
    forall i | 0 <= i < |cells| ensures Less(CellEntry(cells[i]), CellEntry(c.cell)) {
      assert cells[i] in cells;
      assert OfCell(cells[i]) in seen && EntryKey(OfCell(cells[i])) == CellEntry(cells[i]);
    }
    assert forall x :: x in cells + [c.cell] <==> x in cells || x == c.cell;
  }

  lemma SplitMarker(seen: set<MergeConflict>, cells: seq<Cell>, markers: nat, c: MergeConflict)
    requires SplitAs(seen, cells, markers) && c !in seen && c.OfGraph?
    ensures SplitAs(seen + {c}, cells, markers + 1)
  {
    assert GraphOnes(seen + {c}) == GraphOnes(seen) + {c};
  }

  lemma ReadAll(conflicts: set<MergeConflict>, scanned: seq<Bytes>, seen: set<MergeConflict>)
    requires SeenSoFar(conflicts, scanned, |scanned|, seen)
    requires forall c :: c in conflicts ==> EntryKey(c) in scanned
    ensures seen == conflicts
  {
    assert scanned[..|scanned|] == scanned;
  }
}
