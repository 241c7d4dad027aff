/**
 The selective update of internal/pkg/node/update.go: recursiveUpdateFrom copies into
 a node or profile the fields whose command-line flag was changed. Reflection is
 replaced by an explicit schema carrying the tags the code reads, and by value trees.
 */
module Update {
  import opened Text

  /** A Go type; `Plain` is every type the update never looks into. */
  datatype Type = Plain | Struct(fields: seq<Field>) | Pointer(target: Type) | Map(elem: Type)

  datatype Field = Field(exported: bool, lopt: string, comment: string, anonymous: bool, typ: Type)

  datatype Value =
    | Scalar(text: string)
    | Record(fields: seq<Value>)
    | Nil
    | Ref(target: Value)
    | Table(entries: map<string, Value>)

  /** What the update does with a field: the chain of tests on its tags and type. */
  datatype Mode =
    | Keep
    | Copy(lopt: string)
    | Within(fields: seq<Field>)
    | Through(fields: seq<Field>)
    | Each(fields: seq<Field>)

  function ModeOf(f: Field): Mode {
    if !f.exported then Keep
    else if f.lopt != "" && f.comment != "" then Copy(f.lopt)
    else if f.typ.Struct? then Within(f.typ.fields)
    else if f.anonymous then Keep
    else if f.typ.Pointer? && f.typ.target.Struct? then Through(f.typ.target.fields)
    else if f.typ.Map? && f.typ.elem.Pointer? && f.typ.elem.target.Struct? then Each(f.typ.elem.target.fields)
    else Keep
  }

  /** No embedded field that is not a struct, and no map of pointers to anything else: on those reflect panics. */
  ghost predicate GoodSchema(fs: seq<Field>) {
    forall i :: 0 <= i < |fs| ==>
      && (fs[i].exported && ModeOf(fs[i]).Keep? ==> !fs[i].anonymous && !(fs[i].typ.Map? && fs[i].typ.elem.Pointer?))
      && GoodMode(fs[i])
  }

  ghost predicate GoodMode(f: Field)
    decreases f, 0
  {
    match ModeOf(f)
    case Keep => true
    case Copy(_) => true
    case Within(sub) => GoodSchema(sub)
    case Through(sub) => GoodSchema(sub)
    case Each(sub) => GoodSchema(sub)
  }

  // ----- Values of a schema --------------------------------------------------

  ghost predicate Typed(fs: seq<Field>, v: seq<Value>) {
    |v| == |fs| && forall i :: 0 <= i < |fs| ==> TypedField(fs[i], v[i])
  }

  /** A pointer to a struct of the given type, possibly nil. */
  ghost predicate TypedRef(fs: seq<Field>, v: Value) {
    v.Nil? || (v.Ref? && v.target.Record? && Typed(fs, v.target.fields))
  }

  ghost predicate TypedField(f: Field, v: Value) {
    match ModeOf(f)
    case Keep => true
    case Copy(_) => true
    case Within(sub) => v.Record? && Typed(sub, v.fields)
    case Through(sub) => TypedRef(sub, v)
    case Each(sub) => v.Nil? || (v.Table? && forall k :: k in v.entries ==> TypedRef(sub, v.entries[k]))
  }

  function Zero(t: Type): Value {
    match t
    case Plain => Scalar("")
    case Struct(fs) => Record(Zeros(fs))
    case Pointer(_) => Nil
    case Map(_) => Nil
  }

  function Zeros(fs: seq<Field>): (r: seq<Value>)
    ensures |r| == |fs|
  {
    seq(|fs|, i requires 0 <= i < |fs| => Zero(fs[i].typ))
  }

  lemma {:induction false} ZerosTyped(fs: seq<Field>)
    ensures Typed(fs, Zeros(fs))
  {
    forall i | 0 <= i < |fs| ensures TypedField(fs[i], Zeros(fs)[i]) {
      if ModeOf(fs[i]).Within? {
        ZerosTyped(fs[i].typ.fields);
      }
    }
  }

  /** The struct behind a pointer, a missing one read as zero. */
  function Below(fs: seq<Field>, v: Value): (r: seq<Value>)
    requires TypedRef(fs, v)
    ensures Typed(fs, r)
  {
    ZerosTyped(fs);
    if v.Nil? then Zeros(fs) else v.target.fields
  }

  function Entries(v: Value): map<string, Value> {
    if v.Table? then v.entries else map[]
  }

  /** An entry of a possibly nil map, a missing one read as nil. */
  function Entry(v: Value, k: string): Value {
    if k in Entries(v) then Entries(v)[k] else Nil
  }

  // ----- The update ----------------------------------------------------------

  function Updated(fs: seq<Field>, d: seq<Value>, s: seq<Value>, changed: string -> bool): (r: seq<Value>)
    requires Typed(fs, d) && Typed(fs, s)
    ensures Typed(fs, r)
    decreases fs, 0
  {
    seq(|fs|, i requires 0 <= i < |fs| => UpdatedField(fs[i], d[i], s[i], changed))
  }

  function UpdatedRef(fs: seq<Field>, d: Value, s: Value, changed: string -> bool): (r: Value)
    requires TypedRef(fs, d) && TypedRef(fs, s)
    ensures TypedRef(fs, r)
    decreases fs, 1
  {
    if s.Nil? then d else Ref(Record(Updated(fs, Below(fs, d), s.target.fields, changed)))
  }

  function UpdatedField(f: Field, d: Value, s: Value, changed: string -> bool): (r: Value)
    requires TypedField(f, d) && TypedField(f, s)
    ensures TypedField(f, r)
    decreases f
  {
    match ModeOf(f)
    case Keep => d
    case Copy(lopt) => if changed(lopt) then s else d
    case Within(fs) => Record(Updated(fs, d.fields, s.fields, changed))
    case Through(fs) => UpdatedRef(fs, d, s, changed)
    case Each(fs) =>
      if s.Nil? then d
      else Table(map k | k in Entries(d).Keys + s.entries.Keys && (k in Entries(d) || !s.entries[k].Nil?) ::
                   UpdatedRef(fs, Entry(d, k), Entry(s, k), changed))
  }

  /** `recursiveUpdateFrom` on two structs of one type. */
  method RecursiveUpdateFrom(fs: seq<Field>, dst: seq<Value>, src: seq<Value>, changed: string -> bool)
    returns (r: seq<Value>)
    requires GoodSchema(fs) && Typed(fs, dst) && Typed(fs, src)
    ensures r == Updated(fs, dst, src, changed)
    decreases fs, 0
  {
    r := dst;
    for i := 0 to |fs|
      invariant |r| == |fs|
      invariant forall j :: 0 <= j < i ==> r[j] == UpdatedField(fs[j], dst[j], src[j], changed)
      invariant forall j :: i <= j < |fs| ==> r[j] == dst[j]
    {
      var v := UpdateField(fs[i], dst[i], src[i], changed);
      r := r[i := v];
    }
  }

  method UpdateField(f: Field, dst: Value, src: Value, changed: string -> bool) returns (v: Value)
    requires GoodMode(f) && TypedField(f, dst) && TypedField(f, src)
    ensures v == UpdatedField(f, dst, src, changed)
    decreases f
  {
    v := dst;
    match ModeOf(f) {
      case Keep =>
      case Copy(lopt) =>
        if changed(lopt) { v := src; }
      case Within(fs) =>
        var inner := RecursiveUpdateFrom(fs, dst.fields, src.fields, changed);
        v := Record(inner);
      case Through(fs) =>
        if !src.Nil? {
          if dst.Nil? {
            ZerosTyped(fs);
            v := Ref(Record(Zeros(fs)));
          }
          var inner := RecursiveUpdateFrom(fs, v.target.fields, src.target.fields, changed);
          v := Ref(Record(inner));
        }
      case Each(fs) =>
        if !src.Nil? {
          if dst.Nil? {
            v := Table(map[]);
          }
          var entries := UpdateEntries(fs, v.entries, src.entries, changed);
          v := Table(entries);
        }
    }
  }

  /** The loop over the keys of a source map, in any order. */
  method UpdateEntries(fs: seq<Field>, dst: map<string, Value>, src: map<string, Value>, changed: string -> bool)
    returns (m: map<string, Value>)
    requires GoodSchema(fs)
    requires forall k :: k in dst ==> TypedRef(fs, dst[k])
    requires forall k :: k in src ==> TypedRef(fs, src[k])
    ensures forall k :: k in m <==> k in dst || (k in src && !src[k].Nil?)
    ensures forall k :: k in m ==> m[k] == UpdatedRef(fs, Entry(Table(dst), k), Entry(Table(src), k), changed)
    decreases fs, 1
  {
    m := dst;
    var todo := src.Keys;
    while todo != {}
      invariant todo <= src.Keys
      invariant forall k :: k in m <==> k in dst || (k in src && k !in todo && !src[k].Nil?)
      invariant forall k :: k in m && k !in todo ==>
                m[k] == UpdatedRef(fs, Entry(Table(dst), k), Entry(Table(src), k), changed)
      invariant forall k :: k in todo && k in dst ==> m[k] == dst[k]
      decreases |todo|
    {
      var key :| key in todo;
      todo := todo - {key};
      if !src[key].Nil? {
        var entry := Entry(Table(m), key);
        assert entry == Entry(Table(dst), key);
        var inner := RecursiveUpdateFrom(fs, Below(fs, entry), src[key].target.fields, changed);
        m := m[key := Ref(Record(inner))];
      }
    }
  }

  // ----- What the update does, field by field --------------------------------

  /**
   By the schema alone: a field keeps the destination's value if it is unexported, and if it
   has a flag and a comment it takes the source's exactly when the flag was changed. A struct
   is entered. So is a struct behind a pointer, if the source has one; a missing one of the
   destination is created from zeros. In a map of pointers to structs the destination keeps
   its entries and gets those of the source that are not nil; what both have is entered.
   Every other field keeps the destination's value.
   */
  lemma UpdatedBySchema(fs: seq<Field>, d: seq<Value>, s: seq<Value>, changed: string -> bool, i: nat)
    requires Typed(fs, d) && Typed(fs, s) && i < |fs|
    ensures var f, r := fs[i], Updated(fs, d, s, changed)[i];
            if !f.exported then r == d[i]
            else if f.lopt != "" && f.comment != "" then r == if changed(f.lopt) then s[i] else d[i]
            else match f.typ
              case Struct(sub) =>
                && d[i].Record? && s[i].Record? && Typed(sub, d[i].fields) && Typed(sub, s[i].fields)
                && r == Record(Updated(sub, d[i].fields, s[i].fields, changed))
              case Pointer(Struct(sub)) =>
                if f.anonymous || s[i].Nil? then r == d[i]
                else && s[i].Ref? && s[i].target.Record? && Typed(sub, s[i].target.fields)
                     && var was := if d[i].Ref? && d[i].target.Record? then d[i].target.fields else Zeros(sub);
                     && Typed(sub, was) && r == Ref(Record(Updated(sub, was, s[i].target.fields, changed)))
              case Map(Pointer(Struct(sub))) =>
                if f.anonymous || s[i].Nil? then r == d[i]
                else && s[i].Table? && r.Table?
                     && (forall k :: k in r.entries <==>
                                       (d[i].Table? && k in d[i].entries) ||
                                       (k in s[i].entries && s[i].entries[k] != Nil))
                     && forall k :: k in r.entries ==>
                                      if k !in s[i].entries || s[i].entries[k] == Nil
                                      then d[i].Table? && k in d[i].entries && r.entries[k] == d[i].entries[k]
                                      else EntryUpdated(sub, d[i], s[i].entries[k], k, r.entries[k], changed)
              case _ => r == d[i]
  {
    var f := fs[i];
    assert Updated(fs, d, s, changed)[i] == UpdatedField(f, d[i], s[i], changed);
    assert TypedField(f, d[i]) && TypedField(f, s[i]);
    hide Updated, Typed;
    if f.exported && !(f.lopt != "" && f.comment != "") && !f.anonymous {
      match f.typ
      case Pointer(Struct(sub)) => PointerUpdated(f, sub, d[i], s[i], changed);
      case Map(Pointer(Struct(sub))) => MapUpdated(f, sub, d[i], s[i], changed);
      case _ =>
    }
  }

  lemma PointerUpdated(f: Field, sub: seq<Field>, d: Value, s: Value, changed: string -> bool)
    requires f.exported && !(f.lopt != "" && f.comment != "") && !f.anonymous && f.typ == Pointer(Struct(sub))
    requires TypedField(f, d) && TypedField(f, s)
    ensures var r := UpdatedField(f, d, s, changed);
            if s.Nil? then r == d
            else && s.Ref? && s.target.Record? && Typed(sub, s.target.fields)
                 && var was := if d.Ref? && d.target.Record? then d.target.fields else Zeros(sub);
                 && Typed(sub, was) && r == Ref(Record(Updated(sub, was, s.target.fields, changed)))
  {
    hide Typed, Updated;
    assert ModeOf(f) == Through(sub);
    ZerosTyped(sub);
  }

  lemma MapUpdated(f: Field, sub: seq<Field>, d: Value, s: Value, changed: string -> bool)
    requires f.exported && !(f.lopt != "" && f.comment != "") && !f.anonymous && f.typ == Map(Pointer(Struct(sub)))
    requires TypedField(f, d) && TypedField(f, s)
    ensures var r := UpdatedField(f, d, s, changed);
            if s.Nil? then r == d
            else && s.Table? && r.Table?
                 && (forall k :: k in r.entries <==>
                                   (d.Table? && k in d.entries) || (k in s.entries && s.entries[k] != Nil))
                 && forall k :: k in r.entries ==>
                                  if k !in s.entries || s.entries[k] == Nil
                                  then d.Table? && k in d.entries && r.entries[k] == d.entries[k]
                                  else EntryUpdated(sub, d, s.entries[k], k, r.entries[k], changed)
  {
    hide Typed, Updated;
    assert ModeOf(f) == Each(sub);
    ZerosTyped(sub);
  }

  /** The entry of the destination, or a new one, was updated from that of the source. */
  ghost predicate EntryUpdated(fs: seq<Field>, d: Value, s: Value, k: string, r: Value, changed: string -> bool) {
    && s.Ref? && s.target.Record? && Typed(fs, s.target.fields)
    && var was := if d.Table? && k in d.entries && d.entries[k].Ref? && d.entries[k].target.Record?
                  then d.entries[k].target.fields else Zeros(fs);
    && Typed(fs, was) && r == Ref(Record(Updated(fs, was, s.target.fields, changed)))
  }

  /** A created struct holds empty texts, zero structs and nil pointers and maps. */
  lemma ZerosAre(fs: seq<Field>, i: nat)
    requires i < |fs|
    ensures Zeros(fs)[i] == match fs[i].typ
                            case Plain => Scalar("")
                            case Struct(sub) => Record(Zeros(sub))
                            case Pointer(_) => Nil
                            case Map(_) => Nil
  {
  }

  // ----- What the update does, path by path ----------------------------------

  /** One step of a path into a struct: a field, and a key for an entry of a map. */
  datatype Hop = Hop(field: nat, key: Option<string>)

  /** What can be seen at the end of a path: a whole value, or whether a struct or map is there. */
  datatype Seen = Nothing | Whole(value: Value) | Absent | IsNil | There

  function Shape(v: Value): Seen {
    if v.Nil? then IsNil else There
  }

  function EntryShape(v: Value, k: string): Seen {
    if k in Entries(v) then Shape(Entries(v)[k]) else Absent
  }

  /** What is seen at a path, structs that are missing on the way read as zero. */
  function Look(fs: seq<Field>, v: seq<Value>, p: seq<Hop>): Seen
    requires Typed(fs, v)
    decreases |p|, 1
  {
    if p == [] || p[0].field >= |fs| then Nothing else LookField(fs[p[0].field], v[p[0].field], p)
  }

  function LookField(f: Field, v: Value, p: seq<Hop>): Seen
    requires TypedField(f, v) && p != []
    decreases |p|, 0
  {
    var key, rest := p[0].key, p[1..];
    match ModeOf(f)
    case Keep => if rest == [] && key.None? then Whole(v) else Nothing
    case Copy(_) => if rest == [] && key.None? then Whole(v) else Nothing
    case Within(fs) => if key.None? then Look(fs, v.fields, rest) else Nothing
    case Through(fs) => if key.Some? then Nothing else if rest == [] then Shape(v) else Look(fs, Below(fs, v), rest)
    case Each(fs) =>
      if key.None? then if rest == [] then Shape(v) else Nothing
      else if rest == [] then EntryShape(v, key.value)
      else Look(fs, Below(fs, Entry(v, key.value)), rest)
  }

  /**
   Whether a path takes the source's side: a leaf whose flag was changed, or a struct,
   map or entry the source has, below structs and entries the source has.
   */
  predicate Taken(fs: seq<Field>, s: seq<Value>, p: seq<Hop>, changed: string -> bool)
    requires Typed(fs, s)
    decreases |p|, 1
  {
    p != [] && p[0].field < |fs| && TakenField(fs[p[0].field], s[p[0].field], p, changed)
  }

  predicate TakenField(f: Field, s: Value, p: seq<Hop>, changed: string -> bool)
    requires TypedField(f, s) && p != []
    decreases |p|, 0
  {
    var key, rest := p[0].key, p[1..];
    match ModeOf(f)
    case Keep => false
    case Copy(lopt) => changed(lopt)
    case Within(fs) => Taken(fs, s.fields, rest, changed)
    case Through(fs) => !s.Nil? && (rest == [] || Taken(fs, Below(fs, s), rest, changed))
    case Each(fs) =>
      if key.None? then !s.Nil?
      else !Entry(s, key.value).Nil? && (rest == [] || Taken(fs, Below(fs, Entry(s, key.value)), rest, changed))
  }

  /**
   The update is exactly selective: a path that takes the source's side shows what the
   source has there, and every other path shows what the destination had.
   */
  lemma {:induction false} UpdateAt(fs: seq<Field>, d: seq<Value>, s: seq<Value>, changed: string -> bool, p: seq<Hop>)
    requires Typed(fs, d) && Typed(fs, s)
    ensures Look(fs, Updated(fs, d, s, changed), p) == Look(fs, if Taken(fs, s, p, changed) then s else d, p)
    decreases |p|, 1
  {
    if p != [] && p[0].field < |fs| {
      var i := p[0].field;
      UpdateFieldAt(fs[i], d[i], s[i], changed, p);
    }
  }

  lemma {:induction false} UpdateFieldAt(f: Field, d: Value, s: Value, changed: string -> bool, p: seq<Hop>)
    requires TypedField(f, d) && TypedField(f, s) && p != []
    ensures LookField(f, UpdatedField(f, d, s, changed), p) ==
              LookField(f, if TakenField(f, s, p, changed) then s else d, p)
    decreases |p|, 0
  {
    var key, rest := p[0].key, p[1..];
    match ModeOf(f) {
      case Keep =>
      case Copy(_) =>
      case Within(fs) =>
        UpdateAt(fs, d.fields, s.fields, changed, rest);
      case Through(fs) =>
        if !s.Nil? {
          UpdateAt(fs, Below(fs, d), Below(fs, s), changed, rest);
        }
      case Each(fs) =>
        if key.Some? && !Entry(s, key.value).Nil? {
          UpdateAt(fs, Below(fs, Entry(d, key.value)), Below(fs, Entry(s, key.value)), changed, rest);
        }
    }
  }

  // ----- The paths determine the value ---------------------------------------

  ghost predicate SameViews(fs: seq<Field>, a: seq<Value>, b: seq<Value>)
    requires Typed(fs, a) && Typed(fs, b)
  {
    forall p :: Look(fs, a, p) == Look(fs, b, p)
  }

  ghost predicate SameFieldViews(f: Field, a: Value, b: Value)
    requires TypedField(f, a) && TypedField(f, b)
  {
    forall p: seq<Hop> :: p != [] ==> LookField(f, a, p) == LookField(f, b, p)
  }

  /** Two structs that look the same at every path are equal. */
  lemma {:induction false} ViewsDetermine(fs: seq<Field>, a: seq<Value>, b: seq<Value>)
    requires Typed(fs, a) && Typed(fs, b) && SameViews(fs, a, b)
    ensures a == b
    decreases fs, 0
  {
    forall i | 0 <= i < |fs| ensures a[i] == b[i] {
      forall p: seq<Hop> | p != [] ensures LookField(fs[i], a[i], p) == LookField(fs[i], b[i], p) {
        var q := [Hop(i, p[0].key)] + p[1..];
        assert Look(fs, a, q) == Look(fs, b, q);
        FieldOnly(fs[i], a[i], p, q);
        FieldOnly(fs[i], b[i], p, q);
      }
      FieldViewsDetermine(fs[i], a[i], b[i]);
    }
  }

  lemma FieldOnly(f: Field, v: Value, p: seq<Hop>, q: seq<Hop>)
    requires TypedField(f, v) && p != [] && q != [] && p[0].key == q[0].key && p[1..] == q[1..]
    ensures LookField(f, v, p) == LookField(f, v, q)
  {
  }

  /** Views below a hop, from the views of the field. */
  lemma RefViews(f: Field, key: Option<string>, fs: seq<Field>, a: Value, b: Value, x: Value, y: Value)
    requires TypedField(f, a) && TypedField(f, b) && SameFieldViews(f, a, b) && TypedRef(fs, x) && TypedRef(fs, y)
    requires forall rest: seq<Hop> :: rest != [] ==>
      && LookField(f, a, [Hop(0, key)] + rest) == Look(fs, Below(fs, x), rest)
      && LookField(f, b, [Hop(0, key)] + rest) == Look(fs, Below(fs, y), rest)
    ensures SameViews(fs, Below(fs, x), Below(fs, y))
  {
    forall p ensures Look(fs, Below(fs, x), p) == Look(fs, Below(fs, y), p) {
      if p != [] {
        assert LookField(f, a, [Hop(0, key)] + p) == LookField(f, b, [Hop(0, key)] + p);
      }
    }
  }

  lemma RefsDetermine(fs: seq<Field>, x: Value, y: Value)
    requires TypedRef(fs, x) && TypedRef(fs, y) && Shape(x) == Shape(y) && (!x.Nil? ==> Below(fs, x) == Below(fs, y))
    ensures x == y
  {
  }

  lemma {:induction false} FieldViewsDetermine(f: Field, a: Value, b: Value)
    requires TypedField(f, a) && TypedField(f, b) && SameFieldViews(f, a, b)
    ensures a == b
    decreases f
  {
    var here := [Hop(0, None)];
    assert LookField(f, a, here) == LookField(f, b, here);
    match ModeOf(f) {
      case Keep =>
      case Copy(_) =>
      case Within(fs) =>
        forall p ensures Look(fs, a.fields, p) == Look(fs, b.fields, p) {
          assert (here + p)[1..] == p;
          assert LookField(f, a, here + p) == LookField(f, b, here + p);
        }
        ViewsDetermine(fs, a.fields, b.fields);
      case Through(fs) =>
        forall rest: seq<Hop> | rest != []
          ensures LookField(f, a, here + rest) == Look(fs, Below(fs, a), rest)
          ensures LookField(f, b, here + rest) == Look(fs, Below(fs, b), rest)
        {
          assert (here + rest)[1..] == rest;
        }
        RefViews(f, None, fs, a, b, a, b);
        ViewsDetermine(fs, Below(fs, a), Below(fs, b));
        RefsDetermine(fs, a, b);
      case Each(fs) =>
        assert a.Nil? <==> b.Nil?;
        forall k ensures EntryShape(a, k) == EntryShape(b, k) && Entry(a, k) == Entry(b, k) {
          EntriesDetermine(f, fs, a, b, k);
        }
        forall k ensures k in Entries(a) <==> k in Entries(b) {
          assert EntryShape(a, k) == EntryShape(b, k);
        }
        forall k | k in Entries(a) ensures Entries(a)[k] == Entries(b)[k] {
          assert Entry(a, k) == Entry(b, k);
        }
        assert Entries(a) == Entries(b);
    }
  }

  lemma {:induction false} EntriesDetermine(f: Field, fs: seq<Field>, a: Value, b: Value, k: string)
    requires ModeOf(f) == Each(fs) && TypedField(f, a) && TypedField(f, b) && SameFieldViews(f, a, b)
    ensures EntryShape(a, k) == EntryShape(b, k) && Entry(a, k) == Entry(b, k)
    decreases fs, 1
  {
    var here := [Hop(0, Some(k))];
    assert LookField(f, a, here) == LookField(f, b, here);
    forall rest: seq<Hop> | rest != []
      ensures LookField(f, a, here + rest) == Look(fs, Below(fs, Entry(a, k)), rest)
      ensures LookField(f, b, here + rest) == Look(fs, Below(fs, Entry(b, k)), rest)
    {
      assert (here + rest)[1..] == rest;
    }
    RefViews(f, Some(k), fs, a, b, Entry(a, k), Entry(b, k));
    ViewsDetermine(fs, Below(fs, Entry(a, k)), Below(fs, Entry(b, k)));
    RefsDetermine(fs, Entry(a, k), Entry(b, k));
  }

  // ----- Consequences --------------------------------------------------------

  /** The update is the only struct that takes the source's side exactly where it should. */
  lemma UpdateUnique(fs: seq<Field>, d: seq<Value>, s: seq<Value>, changed: string -> bool, r: seq<Value>)
    requires Typed(fs, d) && Typed(fs, s) && Typed(fs, r)
    requires forall p :: Look(fs, r, p) == Look(fs, if Taken(fs, s, p, changed) then s else d, p)
    ensures r == Updated(fs, d, s, changed)
  {
    hide *;
    forall p ensures Look(fs, r, p) == Look(fs, Updated(fs, d, s, changed), p) {
      UpdateAt(fs, d, s, changed, p);
    }
    SameViewsIntro(fs, r, Updated(fs, d, s, changed));
    ViewsDetermine(fs, r, Updated(fs, d, s, changed));
  }

  lemma SameViewsIntro(fs: seq<Field>, a: seq<Value>, b: seq<Value>)
    requires Typed(fs, a) && Typed(fs, b) && forall p :: Look(fs, a, p) == Look(fs, b, p)
    ensures SameViews(fs, a, b)
  {
  }

  /** A path is taken under either of two sets of flags exactly when it is taken under one of them. */
  lemma {:induction false} TakenEither(fs: seq<Field>, s: seq<Value>, p: seq<Hop>, c: string -> bool,
                                       e: string -> bool, either: string -> bool)
    requires Typed(fs, s) && forall x :: either(x) <==> c(x) || e(x)
    ensures Taken(fs, s, p, either) <==> Taken(fs, s, p, c) || Taken(fs, s, p, e)
    decreases |p|, 1
  {
    if p != [] && p[0].field < |fs| {
      TakenFieldEither(fs[p[0].field], s[p[0].field], p, c, e, either);
    }
  }

  lemma {:induction false} TakenFieldEither(f: Field, s: Value, p: seq<Hop>, c: string -> bool, e: string -> bool,
                                            either: string -> bool)
    requires TypedField(f, s) && p != [] && forall x :: either(x) <==> c(x) || e(x)
    ensures TakenField(f, s, p, either) <==> TakenField(f, s, p, c) || TakenField(f, s, p, e)
    decreases |p|, 0
  {
    var key, rest := p[0].key, p[1..];
    match ModeOf(f) {
      case Keep =>
      case Copy(_) =>
      case Within(fs) =>
        TakenEither(fs, s.fields, rest, c, e, either);
      case Through(fs) =>
        TakenEither(fs, Below(fs, s), rest, c, e, either);
      case Each(fs) =>
        if key.Some? {
          TakenEither(fs, Below(fs, Entry(s, key.value)), rest, c, e, either);
        }
    }
  }

  /** Two updates from one source are one update with the flags of both. */
  lemma UpdatesCombine(fs: seq<Field>, d: seq<Value>, s: seq<Value>, c: string -> bool, e: string -> bool,
                       either: string -> bool)
    requires Typed(fs, d) && Typed(fs, s) && forall x :: either(x) <==> c(x) || e(x)
    ensures Updated(fs, Updated(fs, d, s, c), s, e) == Updated(fs, d, s, either)
  {
    hide *;
    var once := Updated(fs, d, s, c);
    var twice := Updated(fs, once, s, e);
    forall p ensures Look(fs, twice, p) == Look(fs, if Taken(fs, s, p, either) then s else d, p) {
      UpdateAt(fs, d, s, c, p);
      UpdateAt(fs, once, s, e, p);
      TakenEither(fs, s, p, c, e, either);
    }
    UpdateUnique(fs, d, s, either, twice);
  }

  /** Updating twice from one source is updating once. */
  lemma UpdateIdempotent(fs: seq<Field>, d: seq<Value>, s: seq<Value>, changed: string -> bool)
    requires Typed(fs, d) && Typed(fs, s)
    ensures Updated(fs, Updated(fs, d, s, changed), s, changed) == Updated(fs, d, s, changed)
  {
    hide *;
    UpdatesCombine(fs, d, s, changed, changed, changed);
  }

  /** A value updated from itself is unchanged, whatever the flags. */
  lemma UpdateFromSelf(fs: seq<Field>, d: seq<Value>, changed: string -> bool)
    requires Typed(fs, d)
    ensures Updated(fs, d, d, changed) == d
  {
    hide *;
    UpdateUnique(fs, d, d, changed, d);
  }
}
