/** Values as the program holds them: a type code with the address of a string or of a
    container that is changed in place. */
module Values {
  import opened Entries
  import opened FieldMap
  import opened FieldPairs
  import opened HashSet
  import opened LinkedList
  import opened SetBuckets
  import opened Text

  datatype Value = VString(text: string) | VList(list: List) | VSet(table: Hashset) | VMap(map_: Hashmap)

  /** The container object itself. */
  ghost function Root(v: Value): set<object> {
    match v
    case VString(_) => {}
    case VList(l) => {l}
    case VSet(s) => {s}
    case VMap(m) => {m}
  }

  ghost function ReprOf(v: Value): set<object>
    reads Root(v)
  {
    match v
    case VString(_) => {}
    case VList(l) => l.Repr
    case VSet(s) => s.Repr
    case VMap(m) => m.Repr
  }

  ghost predicate ValidValue(v: Value)
    reads Root(v), ReprOf(v)
    ensures ValidValue(v) ==> Root(v) <= ReprOf(v)
  {
    match v
    case VString(_) => true
    case VList(l) => l.Valid()
    case VSet(s) => s.Valid()
    case VMap(m) => m.Valid()
  }

  ghost function DataOf(v: Value): Data
    reads Root(v)
  {
    match v
    case VString(text) => Str(text)
    case VList(l) => Lst(l.items)
    case VSet(s) => St(s.buckets)
    case VMap(m) => Mp(m.pairs)
  }

  lemma ValidDataOk(v: Value)
    requires ValidValue(v)
    ensures DataOk(DataOf(v))
  {
  }

  twostate lemma ValueStays(v: Value)
    requires old(ValidValue(v)) && unchanged(old(ReprOf(v)))
    ensures ValidValue(v) && ReprOf(v) == old(ReprOf(v)) && DataOf(v) == old(DataOf(v))
  {
  }

  // --------------------------------------------------------------- encoding

  method ListFrom(parts: array<string>) returns (l: List)
    ensures fresh(l) && l.Valid() && fresh(l.Repr) && l.items == parts[..]
  {
    l := new List();
    var i := 0;
    while i < parts.Length
      invariant 0 <= i <= parts.Length
      invariant l.Valid() && fresh(l.Repr) && l.items == parts[..i]
      invariant parts[..] == old(parts[..])
    {
      l.PushBack(parts[i]);
      assert parts[..i + 1] == parts[..i] + [parts[i]];
      i := i + 1;
    }
    assert parts[..i] == parts[..];
  }

  method SetFrom(parts: array<string>) returns (s: Hashset)
    ensures fresh(s) && s.Valid() && fresh(s.Repr) && s.buckets == PushAll(NoBuckets(), parts[..])
  {
    hide Hashset.Valid, Pushed;
    s := new Hashset();
    var i := 0;
    assert parts[0..] == parts[..];
    while i < parts.Length
      invariant 0 <= i <= parts.Length
      invariant s.Valid() && fresh(s.Repr)
      invariant PushAll(s.buckets, parts[i..]) == PushAll(NoBuckets(), parts[..])
      invariant parts[..] == old(parts[..])
    {
      assert parts[i..][0] == parts[i] && parts[i..][1..] == parts[i + 1..];
      s.Push(parts[i]);
      i := i + 1;
    }
  }

  method MapFrom(parts: array<string>) returns (m: Hashmap)
    ensures fresh(m) && m.Valid() && fresh(m.Repr) && m.pairs == PutAll([], parts[..])
  {
    hide Hashmap.Valid, Put;
    m := new Hashmap();
    var i := 0;
    assert parts[0..] == parts[..];
    while i < parts.Length / 2
      invariant 0 <= i <= parts.Length / 2
      invariant m.Valid() && fresh(m.Repr)
      invariant PutAll(m.pairs, parts[2 * i..]) == PutAll([], parts[..])
      invariant parts[..] == old(parts[..])
    {
      var rest := parts[2 * i..];
      assert rest[0] == parts[2 * i] && rest[1] == parts[2 * i + 1] && rest[2..] == parts[2 * (i + 1)..];
      m.SetFv(parts[2 * i], parts[2 * i + 1]);
      i := i + 1;
    }
  }

  /** data_encode: a new value built from text. */
  method DataEncode(text: string, kind: Kind) returns (v: Value)
    ensures ValidValue(v) && DataOf(v) == Encode(text, kind) && fresh(ReprOf(v))
  {
    match kind
    case StringKind =>
      v := VString(text);
    case ListKind =>
      var parts := Split(text, ',');
      var l := ListFrom(parts);
      v := VList(l);
    case SetKind =>
      var parts := Split(text, ',');
      var s := SetFrom(parts);
      v := VSet(s);
    case MapKind =>
      var parts := Split(text, ',');
      var m := MapFrom(parts);
      v := VMap(m);
  }

  /** data_decode: the printed value. */
  method DataDecode(v: Value) returns (text: string)
    requires ValidValue(v)
    ensures text == Decode(DataOf(v))
  {
    match v
    case VString(s) =>
      text := s;
    case VList(l) =>
      text := l.Print();
      if text == "" {
        text := EMPTY;
      }
    case VSet(s) =>
      text := s.Print();
      if text == "" {
        text := EMPTY;
      }
    case VMap(m) =>
      if m.IsEmpty() {
        text := EMPTY;
      } else {
        text := m.Fvs();
      }
  }
}
