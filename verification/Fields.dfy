/**
 Field paths of internal/pkg/node/fields.go: what listFields prints and what
 getNestedFieldValue reads back. Reflection is replaced by an explicit schema that
 carries the names the code uses, and by value trees.
 */
module Fields {
  import opened Text

  /** The type of a field; `pointer` marks `*T`. Map elements that are not structs count as leaves. */
  datatype Kind =
    | LeafKind(pointer: bool)
    | StructKind(fields: seq<Field>, pointer: bool)
    | MapKind(elem: Kind)

  /** A visible, exported field: its Go name and the name shown to users. */
  datatype Field = Field(name: string, display: string, kind: Kind)

  datatype Value =
    | Scalar(text: string)
    | Record(fields: map<string, Value>)
    | Nil
    | Ref(target: Value)
    | Table(entries: map<string, Value>)

  // ----- Well-formed schemas and values --------------------------------------

  /** A display name that cannot be mistaken for path syntax. */
  predicate PlainName(s: string) {
    s != "" && '.' !in s && '[' !in s && ']' !in s
  }

  ghost predicate GoodNames(fs: seq<Field>) {
    && (forall f :: f in fs ==> PlainName(f.display) && GoodKind(f.kind))
    && (forall i, j :: 0 <= i < j < |fs| ==> fs[i].display != fs[j].display)
  }

  ghost predicate GoodKind(k: Kind) {
    match k
    case LeafKind(_) => true
    case StructKind(fs, _) => GoodNames(fs)
    case MapKind(elem) => GoodKind(elem)
  }

  predicate GoodKey(k: string) {
    k != "" && ']' !in k
  }

  /** A struct value with every field present and well typed. */
  ghost predicate Fits(fs: seq<Field>, v: Value) {
    v.Record? && forall f :: f in fs ==> f.name in v.fields && Typed(f.kind, v.fields[f.name])
  }

  ghost predicate Typed(k: Kind, v: Value) {
    match k
    case LeafKind(_) => true
    case StructKind(fs, pointer) => if pointer then v.Nil? || (v.Ref? && Fits(fs, v.target)) else Fits(fs, v)
    case MapKind(elem) =>
      v.Table? && forall key :: key in v.entries ==> GoodKey(key) && Typed(elem, v.entries[key])
  }

  /** Follow a pointer if there is one; `None` past a nil pointer. */
  function Deref(v: Option<Value>): Option<Value> {
    if v.None? || v.value.Nil? then None
    else if v.value.Ref? then Some(v.value.target)
    else v
  }

  function FieldOf(v: Option<Value>, name: string): Option<Value> {
    if v.Some? && v.value.Record? && name in v.value.fields then Some(v.value.fields[name]) else None
  }

  // ----- Printing ------------------------------------------------------------

  /** All paths below a struct type, given its value if there is one. */
  function ListFields(fs: seq<Field>, v: Option<Value>, prefix: string): seq<string>
    decreases fs
  {
    if fs == [] then []
    else
      var f := fs[0];
      ListField(f.kind, FieldOf(v, f.name), prefix + f.display) + ListFields(fs[1..], v, prefix)
  }

  function ListField(k: Kind, v: Option<Value>, path: string): seq<string>
    decreases k
  {
    match k
    case LeafKind(_) => [path]
    case StructKind(fs, _) => ListFields(fs, Deref(v), path + ".")
    case MapKind(elem) =>
      if v.Some? && v.value.Table? then ListKeys(elem, v.value.entries, SortedKeys(v.value.entries.Keys), path) else []
  }

  /** The keys of a map in increasing order, as `sortValues` leaves them. */
  function SortedKeys(s: set<string>): (r: seq<string>)
    ensures StrictlySorted(r) && forall x :: x in r <==> x in s
  {
    if s == {} then []
    else
      LeastExists(s);
      LeastUnique(s);
      var x :| Least(x, s);
      [x] + SortedKeys(s - {x})
  }

  lemma LeastUnique(s: set<string>)
    ensures forall x, y :: Least(x, s) && Least(y, s) ==> x == y
  {
    forall x: string, y: string ensures StringLe(x, y) && StringLe(y, x) ==> x == y {
      StringLeTotal(x, y);
    }
    hide StringLe;
  }

  function ListKeys(elem: Kind, entries: map<string, Value>, keys: seq<string>, path: string): seq<string>
    decreases elem, |keys|
  {
    if keys == [] then []
    else
      var here := path + "[" + keys[0] + "]";
      var value := if keys[0] in entries then Some(entries[keys[0]]) else None;
      (if elem.StructKind? then ListFields(elem.fields, Deref(value), here + ".") else [here]) +
      ListKeys(elem, entries, keys[1..], path)
  }

  // ----- Routes to leaves ----------------------------------------------------

  /** One step of a route: a field, and a key when the field is a map. */
  datatype Hop = Hop(field: Field, key: Option<string>)

  function Segment(h: Hop): string {
    match h.key
    case None => h.field.display
    case Some(k) => h.field.display + "[" + k + "]"
  }

  function Print(route: seq<Hop>): string {
    if route == [] then ""
    else if |route| == 1 then Segment(route[0])
    else Segment(route[0]) + "." + Print(route[1..])
  }

  /** A route from a struct to one of its leaves, through types where values are missing. */
  ghost predicate Route(fs: seq<Field>, v: Option<Value>, route: seq<Hop>)
    decreases |route|
  {
    && route != [] && route[0].field in fs
    && var f, rest := route[0].field, route[1..];
       var here := FieldOf(v, f.name);
       match f.kind
       case LeafKind(_) => route[0].key.None? && rest == []
       case StructKind(sub, _) => route[0].key.None? && Route(sub, Deref(here), rest)
       case MapKind(elem) =>
         && route[0].key.Some? && here.Some? && here.value.Table? && route[0].key.value in here.value.entries
         && if elem.StructKind? then Route(elem.fields, Deref(Some(here.value.entries[route[0].key.value])), rest)
            else rest == []
  }

  /** The leaf a route leads to, or `None` past a nil pointer. */
  function Locate(v: Option<Value>, route: seq<Hop>): Option<Value>
    decreases |route|
  {
    if route == [] then v
    else
      var here := FieldOf(Deref(v), route[0].field.name);
      match route[0].key
      case None => Locate(here, route[1..])
      case Some(k) =>
        if here.Some? && here.value.Table? && k in here.value.entries
        then Locate(Some(here.value.entries[k]), route[1..]) else None
  }

  // ----- Parsing -------------------------------------------------------------

  /** The parts of the rest of a name, entered with `current` collected. */
  function SplitRest(s: string, current: string, inBracket: bool): seq<string>
    decreases |s|
  {
    if s == [] then if current == "" then [] else [current]
    else if s[0] == '[' then SplitRest(s[1..], current + "[", true)
    else if s[0] == ']' then SplitRest(s[1..], current + "]", false)
    else if s[0] == '.' && !inBracket then [current] + SplitRest(s[1..], "", false)
    else SplitRest(s[1..], current + [s[0]], inBracket)
  }

  function SplitName(s: string): seq<string> {
    SplitRest(s, "", false)
  }

  /** `splitFieldName`. */
  method SplitFieldName(s: string) returns (parts: seq<string>)
    ensures parts == SplitName(s)
  {
    parts := [];
    var current := "";
    var inBracket := false;
    assert s[0..] == s;
    for i := 0 to |s|
      invariant parts + SplitRest(s[i..], current, inBracket) == SplitName(s)
    {
      assert s[i..][1..] == s[i + 1..];
      if s[i] == '[' {
        inBracket := true;
        current := current + [s[i]];
      } else if s[i] == ']' {
        inBracket := false;
        current := current + [s[i]];
      } else if s[i] == '.' {
        if inBracket {
          current := current + [s[i]];
        } else {
          parts := parts + [current];
          current := "";
        }
      } else {
        current := current + [s[i]];
      }
    }
    assert s[|s|..] == [];
    if |current| > 0 {
      parts := parts + [current];
    }
  }

  /** `parseMapField`: what the pattern `^([^[]+)\\[([^\\]]+)\\]$` extracts; no key is the empty string. */
  function ParseMapField(name: string): (string, string) {
    var i := Index(name, '[');
    var n := |name| - 1;
    if 0 < i && i + 1 < n && name[n] == ']' && ']' !in name[i + 1..n] then (name[..i], name[i + 1..n])
    else (name, "")
  }

  /** `findActualFieldName` and `FieldByName`: by display name first, then by Go name. */
  function FindField(fs: seq<Field>, name: string): Option<Field> {
    var shown := FindDisplay(fs, name);
    if shown.Some? then shown else FindGoName(fs, name)
  }

  function FindDisplay(fs: seq<Field>, name: string): Option<Field> {
    if fs == [] then None else if fs[0].display == name then Some(fs[0]) else FindDisplay(fs[1..], name)
  }

  function FindGoName(fs: seq<Field>, name: string): Option<Field> {
    if fs == [] then None else if fs[0].name == name then Some(fs[0]) else FindGoName(fs[1..], name)
  }

  /** What a lookup ends with: a value, the "no value" error, an invalid value, or a panic of reflect. */
  datatype Got = Got(kind: Kind, value: Value) | NoValue | Invalid | Panics

  /** One part of a path, from a typed value. */
  function Lookup(at: Got, part: string): Got {
    if !at.Got? then if at.Invalid? then NoValue else at
    else
      var v := Deref(Some(at.value));
      if v.None? then NoValue
      else if !at.kind.StructKind? || !v.value.Record? then Panics
      else
        var (name, key) := ParseMapField(part);
        var f := FindField(at.kind.fields, name);
        if f.None? || f.value.name !in v.value.fields then if key == "" then Invalid else Panics
        else
          var value := v.value.fields[f.value.name];
          if key == "" then Got(f.value.kind, value)
          else if !f.value.kind.MapKind? || !value.Table? then Panics
          else if key in value.entries then Got(f.value.kind.elem, value.entries[key])
          else NoValue
  }

  function Follow(at: Got, parts: seq<string>): Got
    decreases |parts|
  {
    if parts == [] then at else Follow(Lookup(at, parts[0]), parts[1..])
  }

  /** `getNestedFieldValue`. */
  method GetNestedFieldValue(fs: seq<Field>, obj: Value, name: string) returns (got: Got)
    ensures got == Follow(Got(StructKind(fs, false), obj), SplitName(name))
  {
    var fieldNames := SplitFieldName(name);
    hide Lookup, SplitName;
    got := Got(StructKind(fs, false), obj);
    assert fieldNames[0..] == fieldNames;
    for i := 0 to |fieldNames|
      invariant Follow(got, fieldNames[i..]) == Follow(Got(StructKind(fs, false), obj), fieldNames)
    {
      assert fieldNames[i..][1..] == fieldNames[i + 1..];
      got := Lookup(got, fieldNames[i]);
    }
    assert fieldNames[|fieldNames|..] == [];
  }

  // ----- Reading back what was printed ---------------------------------------

  /** A hop whose names and key are well formed. */
  predicate GoodHop(h: Hop) {
    PlainName(h.field.display) && (h.key.Some? ==> GoodKey(h.key.value))
  }

  lemma {:induction false} SplitPlainText(p: string, rest: string, current: string)
    requires '.' !in p && '[' !in p && ']' !in p
    ensures SplitRest(p + rest, current, false) == SplitRest(rest, current + p, false)
    decreases |p|
  {
    if p == [] {
      assert p + rest == rest && current + p == current;
    } else {
      assert (p + rest)[1..] == p[1..] + rest;
      assert current + [p[0]] + p[1..] == current + p;
      SplitPlainText(p[1..], rest, current + [p[0]]);
    }
  }

  lemma {:induction false} SplitInBracket(k: string, rest: string, current: string)
    requires ']' !in k
    ensures SplitRest(k + rest, current, true) == SplitRest(rest, current + k, true)
    decreases |k|
  {
    if k == [] {
      assert k + rest == rest && current + k == current;
    } else {
      assert (k + rest)[1..] == k[1..] + rest;
      assert current + [k[0]] + k[1..] == current + k;
      SplitInBracket(k[1..], rest, current + [k[0]]);
    }
  }

  /** A segment is collected as one part, dots and opening brackets in its key included. */
  lemma SplitSegment(h: Hop, rest: string)
    requires GoodHop(h)
    ensures SplitRest(Segment(h) + rest, "", false) == SplitRest(rest, Segment(h), false)
  {
    hide SplitRest;
    var d := h.field.display;
    assert "" + d == d;
    if h.key.None? {
      SplitPlainText(d, rest, "");
    } else {
      var k := h.key.value;
      var r2 := "]" + rest;
      var r1 := "[" + (k + r2);
      assert Segment(h) + rest == d + r1;
      SplitPlainText(d, r1, "");
      SplitOpen(k + r2, d);
      SplitInBracket(k, r2, d + "[");
      SplitClose(rest, d + "[" + k);
    }
  }

  lemma SplitOpen(rest: string, current: string)
    ensures SplitRest("[" + rest, current, false) == SplitRest(rest, current + "[", true)
  {
    assert ("[" + rest)[1..] == rest;
  }

  lemma SplitClose(rest: string, current: string)
    ensures SplitRest("]" + rest, current, true) == SplitRest(rest, current + "]", false)
  {
    assert ("]" + rest)[1..] == rest;
  }

  lemma SegmentNonempty(h: Hop)
    requires GoodHop(h)
    ensures Segment(h) != ""
  {
  }

  function Segments(route: seq<Hop>): (r: seq<string>)
    ensures |r| == |route| && forall i :: 0 <= i < |route| ==> r[i] == Segment(route[i])
  {
    seq(|route|, i requires 0 <= i < |route| => Segment(route[i]))
  }

  /** Splitting a printed route gives back its segments. */
  lemma {:induction false} SplitPrinted(route: seq<Hop>)
    requires route != [] && forall h :: h in route ==> GoodHop(h)
    ensures SplitName(Print(route)) == Segments(route)
    decreases |route|
  {
    hide GoodHop, Segment, SplitRest;
    var h := route[0];
    assert h in route;
    SegmentNonempty(h);
    if |route| == 1 {
      SplitSegment(h, "");
      assert Segment(h) + "" == Segment(h);
      SplitEnd(Segment(h));
      assert Segments(route) == [Segment(h)];
    } else {
      var rest := Print(route[1..]);
      assert Print(route) == Segment(h) + ("." + rest);
      SplitSegment(h, "." + rest);
      SplitDot(rest, Segment(h));
      SplitPrinted(route[1..]);
      assert Segments(route) == [Segment(h)] + Segments(route[1..]);
    }
  }

  lemma SplitEnd(current: string)
    requires current != ""
    ensures SplitRest("", current, false) == [current]
  {
  }

  lemma SplitDot(rest: string, current: string)
    ensures SplitRest("." + rest, current, false) == [current] + SplitRest(rest, "", false)
  {
    assert ("." + rest)[1..] == rest;
  }

  /** Parsing a segment gives back its name and key. */
  lemma ParseSegment(h: Hop)
    requires GoodHop(h)
    ensures ParseMapField(Segment(h)) == (h.field.display, if h.key.Some? then h.key.value else "")
  {
    var d, s := h.field.display, Segment(h);
    if h.key.Some? {
      var k := h.key.value;
      assert s[..|d|] == d;
      IndexIs(s, '[', |d|);
      assert s[|d| + 1..|s| - 1] == k;
    }
  }

  lemma {:induction false} FindDisplayed(fs: seq<Field>, f: Field)
    requires f in fs && forall i, j :: 0 <= i < j < |fs| ==> fs[i].display != fs[j].display
    ensures FindDisplay(fs, f.display) == Some(f)
  {
    if fs[0] != f {
      assert f in fs[1..];
      var j :| 0 <= j < |fs[1..]| && fs[1..][j] == f;
      assert fs[j + 1] == f;
      FindDisplayed(fs[1..], f);
    }
  }

  /** The struct type a hop leads into; none for a leaf. */
  function Inner(f: Field): seq<Field> {
    match f.kind
    case LeafKind(_) => []
    case StructKind(fs, _) => fs
    case MapKind(elem) => if elem.StructKind? then elem.fields else []
  }

  /** The struct value a hop leads into. */
  function Into(v: Option<Value>, h: Hop): Option<Value> {
    var here := FieldOf(v, h.field.name);
    match h.key
    case None => Deref(here)
    case Some(k) =>
      if here.Some? && here.value.Table? && k in here.value.entries
      then Deref(Some(here.value.entries[k])) else None
  }

  /** A route goes on through well-formed hops, schemas and values. */
  lemma RouteNext(fs: seq<Field>, v: Option<Value>, route: seq<Hop>)
    requires GoodNames(fs) && (v.Some? ==> Fits(fs, v.value)) && Route(fs, v, route)
    ensures GoodHop(route[0])
    ensures GoodNames(Inner(route[0].field))
    ensures Into(v, route[0]).Some? && |route| > 1 ==> Fits(Inner(route[0].field), Into(v, route[0]).value)
    ensures |route| > 1 ==> Route(Inner(route[0].field), Into(v, route[0]), route[1..])
  {
    var f := route[0].field;
    var here := FieldOf(v, f.name);
    assert PlainName(f.display) && GoodKind(f.kind) && (here.Some? ==> Typed(f.kind, here.value));
    if f.kind.MapKind? {
      assert GoodKind(f.kind.elem);
      assert Typed(f.kind.elem, here.value.entries[route[0].key.value]);
    }
  }

  lemma {:induction false} RouteHops(fs: seq<Field>, v: Option<Value>, route: seq<Hop>)
    requires GoodNames(fs) && (v.Some? ==> Fits(fs, v.value)) && Route(fs, v, route)
    ensures forall h :: h in route ==> GoodHop(h)
    decreases |route|
  {
    RouteNext(fs, v, route);
    hide GoodHop, GoodNames, Fits;
    if |route| > 1 {
      RouteHops(Inner(route[0].field), Into(v, route[0]), route[1..]);
    }
    assert forall h :: h in route <==> h == route[0] || h in route[1..];
  }

  /** What a lookup along a route should report. */
  ghost predicate Reports(got: Got, leaf: Option<Value>) {
    match leaf
    case None => got == NoValue
    case Some(v) => got.Got? && got.value == v
  }

  lemma LookupHop(k: Kind, v: Value, h: Hop)
    requires k.StructKind? && Typed(k, v) && GoodNames(k.fields) && h.field in k.fields && GoodHop(h)
    requires h.key.Some? ==> h.field.kind.MapKind?
    ensures var here := FieldOf(Deref(Some(v)), h.field.name);
            && (here.None? ==> Lookup(Got(k, v), Segment(h)) == NoValue)
            && (here.Some? && h.key.None? ==> Lookup(Got(k, v), Segment(h)) == Got(h.field.kind, here.value))
            && (here.Some? && h.key.Some? && here.value.Table? && h.key.value in here.value.entries ==>
                  Lookup(Got(k, v), Segment(h)) == Got(h.field.kind.elem, here.value.entries[h.key.value]))
  {
    hide Segment, ParseMapField, FindDisplay, FindGoName, GoodHop, Typed;
    ParseSegment(h);
    NeverEmptyKey(h);
    FindDisplayed(k.fields, h.field);
    StructTyped(k, v, h.field);
  }

  lemma NeverEmptyKey(h: Hop)
    requires GoodHop(h)
    ensures h.key.Some? ==> h.key.value != ""
  {
  }

  /** Behind a non-nil pointer, if any, is a record with every field. */
  lemma StructTyped(k: Kind, v: Value, f: Field)
    requires k.StructKind? && Typed(k, v) && f in k.fields
    ensures var r := Deref(Some(v)); r.Some? ==> r.value.Record? && f.name in r.value.fields
  {
  }

  lemma {:induction false} FollowNoValue(parts: seq<string>)
    ensures Follow(NoValue, parts) == NoValue
    decreases |parts|
  {
    if parts != [] {
      FollowNoValue(parts[1..]);
    }
  }

  lemma {:induction false} LocateNone(route: seq<Hop>)
    ensures Locate(None, route) == None
    decreases |route|
  {
    if route != [] {
      LocateNone(route[1..]);
    }
  }

  lemma {:induction false} FollowRoute(k: Kind, v: Value, route: seq<Hop>)
    requires k.StructKind? && Typed(k, v) && GoodNames(k.fields) && Route(k.fields, Deref(Some(v)), route)
    requires forall h :: h in route ==> GoodHop(h)
    ensures Reports(Follow(Got(k, v), Segments(route)), Locate(Some(v), route))
    decreases |route|
  {
    var h, rest := route[0], route[1..];
    var here := FieldOf(Deref(Some(v)), h.field.name);
    assert h in route && Segments(route)[0] == Segment(h) && Segments(route)[1..] == Segments(rest);
    LookupHop(k, v, h);
    assert GoodKind(h.field.kind) && (here.Some? ==> Typed(h.field.kind, here.value));
    hide Lookup, Segment, GoodHop;
    if here.None? {
      FollowNoValue(Segments(rest));
      LocateNone(rest);
    } else {
      match h.field.kind {
        case LeafKind(_) =>
        case StructKind(sub, _) =>
          FollowRoute(h.field.kind, here.value, rest);
        case MapKind(elem) =>
          var entry := here.value.entries[h.key.value];
          assert GoodKind(elem) && Typed(elem, entry);
          if elem.StructKind? { FollowRoute(elem, entry, rest); }
      }
    }
  }

  /**
   Reading back a printed path finds the leaf it was printed for, or reports no
   value when the route crosses a nil pointer.
   */
  lemma PathRoundTrip(fs: seq<Field>, obj: Value, route: seq<Hop>)
    requires GoodNames(fs) && Fits(fs, obj) && Route(fs, Some(obj), route)
    ensures var got := Follow(Got(StructKind(fs, false), obj), SplitName(Print(route)));
            match Locate(Some(obj), route)
            case None => got == NoValue
            case Some(v) => got.Got? && got.value == v
  {
    RouteHops(fs, Some(obj), route);
    SplitPrinted(route);
    assert Deref(Some(obj)) == Some(obj);
    hide SplitName, Print, Route;
    FollowRoute(StructKind(fs, false), obj, route);
  }

  /** Distinct leaves have distinct paths. */
  lemma {:induction false} PathsDistinct(fs: seq<Field>, v: Option<Value>, a: seq<Hop>, b: seq<Hop>)
    requires GoodNames(fs) && (v.Some? ==> Fits(fs, v.value)) && Route(fs, v, a) && Route(fs, v, b)
    requires Print(a) == Print(b)
    ensures a == b
  {
    RouteHops(fs, v, a);
    RouteHops(fs, v, b);
    SplitPrinted(a);
    SplitPrinted(b);
    SegmentsDetermine(fs, v, a, b);
  }

  lemma SameHop(fs: seq<Field>, a: Hop, b: Hop)
    requires GoodNames(fs) && a.field in fs && b.field in fs
    requires GoodHop(a) && GoodHop(b) && Segment(a) == Segment(b)
    ensures a == b
  {
    ParseSegment(a);
    ParseSegment(b);
    FindDisplayed(fs, a.field);
    FindDisplayed(fs, b.field);
    hide Segment, ParseMapField;
  }

  lemma {:induction false} SegmentsDetermine(fs: seq<Field>, v: Option<Value>, a: seq<Hop>, b: seq<Hop>)
    requires GoodNames(fs) && (v.Some? ==> Fits(fs, v.value)) && Route(fs, v, a) && Route(fs, v, b)
    requires Segments(a) == Segments(b)
    ensures a == b
    decreases |a|
  {
    hide GoodHop, GoodNames, Fits, Route, Segment, Inner, Into;
    RouteNonempty(fs, v, a);
    RouteNonempty(fs, v, b);
    assert |a| == |b| && Segments(a)[0] == Segments(b)[0];
    RouteNext(fs, v, a);
    RouteNext(fs, v, b);
    SameHop(fs, a[0], b[0]);
    assert Segments(a[1..]) == Segments(a)[1..] && Segments(b[1..]) == Segments(b)[1..];
    if |a| > 1 {
      SegmentsDetermine(Inner(a[0].field), Into(v, a[0]), a[1..], b[1..]);
    }
    assert a == [a[0]] + a[1..] && b == [b[0]] + b[1..];
  }

  // ----- The printed paths are the routes ------------------------------------

  lemma RouteWeaken(fs: seq<Field>, v: Option<Value>, route: seq<Hop>)
    requires fs != [] && Route(fs[1..], v, route)
    ensures Route(fs, v, route)
  {
  }

  lemma PrintCons(h: Hop, rest: seq<Hop>)
    requires rest != []
    ensures Print([h] + rest) == Segment(h) + "." + Print(rest)
  {
    assert ([h] + rest)[1..] == rest;
  }

  /** A route through a struct field goes on below it. */
  lemma StructRoute(fs: seq<Field>, v: Option<Value>, f: Field, rest: seq<Hop>)
    requires f in fs && f.kind.StructKind?
    ensures Route(fs, v, [Hop(f, None)] + rest) <==> Route(f.kind.fields, Deref(FieldOf(v, f.name)), rest)
  {
    var route := [Hop(f, None)] + rest;
    assert route[1..] == rest && route[0] == Hop(f, None);
  }

  /** A route through a map entry goes on below it when the entries are structs. */
  lemma MapRoute(fs: seq<Field>, v: Option<Value>, f: Field, entries: map<string, Value>, key: string, rest: seq<Hop>)
    requires f in fs && f.kind.MapKind? && FieldOf(v, f.name) == Some(Table(entries)) && key in entries
    ensures Route(fs, v, [Hop(f, Some(key))] + rest) <==>
              if f.kind.elem.StructKind? then Route(f.kind.elem.fields, Deref(Some(entries[key])), rest) else rest == []
  {
    var route := [Hop(f, Some(key))] + rest;
    assert route[1..] == rest && route[0] == Hop(f, Some(key));
  }

  lemma RouteNonempty(fs: seq<Field>, v: Option<Value>, route: seq<Hop>)
    requires Route(fs, v, route)
    ensures route != [] && route[0].field in fs
  {
  }

  /** The path of a map entry, and of what lies below it. */
  function KeyPath(elem: Kind, path: string, key: string, rest: seq<Hop>): string {
    if elem.StructKind? then path + "[" + key + "]" + "." + Print(rest) else path + "[" + key + "]"
  }

  lemma PrintStruct(prefix: string, f: Field, rest: seq<Hop>)
    requires rest != []
    ensures prefix + Print([Hop(f, None)] + rest) == prefix + f.display + "." + Print(rest)
  {
    PrintCons(Hop(f, None), rest);
    hide Print;
  }

  lemma PrintMap(prefix: string, f: Field, elem: Kind, key: string, rest: seq<Hop>)
    requires if elem.StructKind? then rest != [] else rest == []
    ensures prefix + Print([Hop(f, Some(key))] + rest) == KeyPath(elem, prefix + f.display, key, rest)
  {
    var h := Hop(f, Some(key));
    assert Segment(h) == f.display + "[" + key + "]";
    KeyText(prefix, f.display, key);
    if elem.StructKind? {
      PrintCons(h, rest);
      hide Print, Segment;
      assert prefix + (Segment(h) + "." + Print(rest)) == prefix + Segment(h) + "." + Print(rest);
    } else {
      assert [h] + rest == [h] && Print([h]) == Segment(h);
    }
  }

  lemma KeyText(prefix: string, name: string, key: string)
    ensures prefix + (name + "[" + key + "]") == prefix + name + "[" + key + "]"
  {
  }

  lemma ListFieldsStep(fs: seq<Field>, v: Option<Value>, prefix: string, p: string)
    requires fs != []
    ensures p in ListFields(fs, v, prefix) <==>
              || p in ListField(fs[0].kind, FieldOf(v, fs[0].name), prefix + fs[0].display)
              || p in ListFields(fs[1..], v, prefix)
  {
  }

  /** Every listed path is a printed route. */
  lemma {:induction false} ListedIsRoute(fs: seq<Field>, v: Option<Value>, prefix: string, p: string)
    returns (route: seq<Hop>)
    requires p in ListFields(fs, v, prefix)
    ensures Route(fs, v, route) && p == prefix + Print(route)
    decreases fs, 0
  {
    hide Route, Print;
    assert fs != [];
    ListFieldsStep(fs, v, prefix, p);
    hide ListField, ListFields;
    var f := fs[0];
    if p in ListField(f.kind, FieldOf(v, f.name), prefix + f.display) {
      route := ListedBelow(fs, v, prefix, f, p);
    } else {
      route := ListedIsRoute(fs[1..], v, prefix, p);
      RouteWeaken(fs, v, route);
    }
  }

  lemma {:induction false} ListedBelow(fs: seq<Field>, v: Option<Value>, prefix: string, f: Field, p: string)
    returns (route: seq<Hop>)
    requires f in fs && p in ListField(f.kind, FieldOf(v, f.name), prefix + f.display)
    ensures Route(fs, v, route) && p == prefix + Print(route)
    ensures route != [] && route[0].field == f
    decreases f
  {
    hide Route, Print, ListFields, ListKeys;
    var here, path := FieldOf(v, f.name), prefix + f.display;
    match f.kind {
      case LeafKind(_) =>
        route := [Hop(f, None)];
        LeafRoute(fs, v, f);
      case StructKind(sub, _) =>
        var rest := ListedIsRoute(sub, Deref(here), path + ".", p);
        route := [Hop(f, None)] + rest;
        StructRoute(fs, v, f, rest);
        RouteNonempty(sub, Deref(here), rest);
        PrintStruct(prefix, f, rest);
      case MapKind(elem) =>
        var entries := here.value.entries;
        var key, rest := ListedIsKey(elem, entries, SortedKeys(entries.Keys), path, p);
        route := [Hop(f, Some(key))] + rest;
        MapRoute(fs, v, f, entries, key, rest);
        if elem.StructKind? { RouteNonempty(elem.fields, Deref(Some(entries[key])), rest); }
        PrintMap(prefix, f, elem, key, rest);
    }
  }

  lemma LeafRoute(fs: seq<Field>, v: Option<Value>, f: Field)
    requires f in fs && f.kind.LeafKind?
    ensures Route(fs, v, [Hop(f, None)]) && Print([Hop(f, None)]) == f.display
  {
  }

  lemma {:induction false} ListedIsKey(elem: Kind, entries: map<string, Value>, keys: seq<string>, path: string,
                                       p: string)
    returns (key: string, rest: seq<Hop>)
    requires p in ListKeys(elem, entries, keys, path) && forall k :: k in keys ==> k in entries
    ensures key in keys && key in entries && p == KeyPath(elem, path, key, rest)
    ensures if elem.StructKind? then Route(elem.fields, Deref(Some(entries[key])), rest) else rest == []
    decreases elem, |keys|
  {
    hide Route, Print, ListFields;
    key := keys[0];
    var here := path + "[" + key + "]";
    if elem.StructKind? && p in ListFields(elem.fields, Deref(Some(entries[key])), here + ".") {
      rest := ListedIsRoute(elem.fields, Deref(Some(entries[key])), here + ".", p);
    } else if !elem.StructKind? && p == here {
      rest := [];
    } else {
      key, rest := ListedIsKey(elem, entries, keys[1..], path, p);
    }
  }

  /** Every route is listed. */
  lemma {:induction false} RouteIsListed(fs: seq<Field>, v: Option<Value>, prefix: string, route: seq<Hop>)
    requires Route(fs, v, route)
    ensures prefix + Print(route) in ListFields(fs, v, prefix)
    decreases |route|, 1, |fs|
  {
    RouteNonempty(fs, v, route);
    ListFieldsStep(fs, v, prefix, prefix + Print(route));
    assert route[0].field == fs[0] || route[0].field in fs[1..];
    assert route[0].field in fs[1..] ==> Route(fs[1..], v, route);
    hide Route, Print, ListField, ListFields;
    if fs[0] == route[0].field {
      RouteBelow(fs, v, prefix, route);
    } else {
      RouteIsListed(fs[1..], v, prefix, route);
    }
  }

  lemma {:induction false} RouteBelow(fs: seq<Field>, v: Option<Value>, prefix: string, route: seq<Hop>)
    requires Route(fs, v, route)
    ensures var f := route[0].field; prefix + Print(route) in ListField(f.kind, FieldOf(v, f.name), prefix + f.display)
    decreases |route|, 0, 0
  {
    var f, rest := route[0].field, route[1..];
    var here, path := FieldOf(v, f.name), prefix + f.display;
    assert route == [route[0]] + rest && f in fs;
    assert f.kind.MapKind? <==> route[0].key.Some?;
    match f.kind {
      case LeafKind(_) =>
        LeafRoute(fs, v, f);
      case StructKind(sub, _) =>
        hide Print, ListFields, Route;
        StructRoute(fs, v, f, rest);
        RouteNonempty(sub, Deref(here), rest);
        PrintStruct(prefix, f, rest);
        RouteIsListed(sub, Deref(here), path + ".", rest);
      case MapKind(elem) =>
        var entries, key := here.value.entries, route[0].key.value;
        hide Print, ListFields, Route, ListKeys;
        MapRoute(fs, v, f, entries, key, rest);
        if elem.StructKind? { RouteNonempty(elem.fields, Deref(Some(entries[key])), rest); }
        PrintMap(prefix, f, elem, key, rest);
        KeyIsListed(elem, entries, SortedKeys(entries.Keys), path, key, rest);
    }
  }

  lemma {:induction false} KeyIsListed(elem: Kind, entries: map<string, Value>, keys: seq<string>, path: string,
                                       key: string, rest: seq<Hop>)
    requires key in keys && key in entries
    requires elem.StructKind? ==> Route(elem.fields, Deref(Some(entries[key])), rest)
    ensures KeyPath(elem, path, key, rest) in ListKeys(elem, entries, keys, path)
    decreases |rest|, 2, |keys|
  {
    hide Route, Print, ListFields;
    if keys[0] == key {
      if elem.StructKind? {
        RouteIsListed(elem.fields, Deref(Some(entries[key])), path + "[" + key + "]" + ".", rest);
      }
    } else {
      assert key in keys[1..];
      KeyIsListed(elem, entries, keys[1..], path, key, rest);
    }
  }

  // ----- No path is listed twice ---------------------------------------------

  /** The list of paths of a struct has no repetition. */
  lemma {:induction false} ListedOnce(fs: seq<Field>, v: Option<Value>, prefix: string)
    requires GoodNames(fs) && (v.Some? ==> Fits(fs, v.value))
    ensures Distinct(ListFields(fs, v, prefix))
    decreases fs, 1
  {
    if fs != [] {
      var f := fs[0];
      var below := ListField(f.kind, FieldOf(v, f.name), prefix + f.display);
      var others := ListFields(fs[1..], v, prefix);
      hide ListField, ListKeys, Route, Print;
      ListedOnceBelow(f, FieldOf(v, f.name), prefix + f.display);
      ListedOnce(fs[1..], v, prefix);
      forall p | p in below ensures p !in others {
        FieldsApart(fs, v, prefix, p);
      }
      DistinctAppend(below, others);
    }
  }

  lemma FieldsApart(fs: seq<Field>, v: Option<Value>, prefix: string, p: string)
    requires fs != [] && GoodNames(fs) && (v.Some? ==> Fits(fs, v.value))
    requires p in ListField(fs[0].kind, FieldOf(v, fs[0].name), prefix + fs[0].display)
    ensures p !in ListFields(fs[1..], v, prefix)
  {
    hide ListField, ListFields, Route, Print, Fits;
    var a := ListedBelow(fs, v, prefix, fs[0], p);
    assert forall f :: f in fs[1..] ==> f != fs[0];
    hide GoodNames;
    if p in ListFields(fs[1..], v, prefix) {
      var b := ListedIsRoute(fs[1..], v, prefix, p);
      RouteNonempty(fs[1..], v, b);
      RouteWeaken(fs, v, b);
      SamePrefix(prefix, Print(a), Print(b));
      PathsDistinct(fs, v, a, b);
      assert false;
    }
  }

  lemma SamePrefix(prefix: string, a: string, b: string)
    requires prefix + a == prefix + b
    ensures a == b
  {
    assert a == (prefix + a)[|prefix|..] && b == (prefix + b)[|prefix|..];
  }

  lemma {:induction false} ListedOnceBelow(f: Field, here: Option<Value>, path: string)
    requires GoodKind(f.kind) && (here.Some? ==> Typed(f.kind, here.value))
    ensures Distinct(ListField(f.kind, here, path))
    decreases f, 0
  {
    match f.kind {
      case LeafKind(_) =>
      case StructKind(sub, _) =>
        hide ListFields;
        ListedOnce(sub, Deref(here), path + ".");
      case MapKind(elem) =>
        hide ListKeys, StringLe;
        if here.Some? {
          var entries := here.value.entries;
          KeysListedOnce(elem, entries, SortedKeys(entries.Keys), path);
        }
    }
  }

  lemma {:induction false} KeysListedOnce(elem: Kind, entries: map<string, Value>, keys: seq<string>, path: string)
    requires GoodKind(elem) && Distinct(keys)
    requires forall k :: k in keys ==> k in entries && GoodKey(k) && Typed(elem, entries[k])
    ensures Distinct(ListKeys(elem, entries, keys, path))
    decreases elem, |keys|
  {
    if keys != [] {
      var here := path + "[" + keys[0] + "]";
      var value := Some(entries[keys[0]]);
      var first := if elem.StructKind? then ListFields(elem.fields, Deref(value), here + ".") else [here];
      hide ListFields, Print, Route;
      assert keys[0] in keys && keys[0] !in keys[1..] && Typed(elem, entries[keys[0]]);
      if elem.StructKind? { ListedOnce(elem.fields, Deref(value), here + "."); }
      KeysListedOnce(elem, entries, keys[1..], path);
      forall p | p in first ensures p !in ListKeys(elem, entries, keys[1..], path) {
        KeysApart(elem, entries, keys, path, p);
      }
      DistinctAppend(first, ListKeys(elem, entries, keys[1..], path));
    }
  }

  lemma KeysApart(elem: Kind, entries: map<string, Value>, keys: seq<string>, path: string, p: string)
    requires keys != [] && keys[0] !in keys[1..] && forall k :: k in keys ==> k in entries && GoodKey(k)
    requires var here := path + "[" + keys[0] + "]";
             p in (if elem.StructKind? then ListFields(elem.fields, Deref(Some(entries[keys[0]])), here + ".")
                   else [here])
    ensures p !in ListKeys(elem, entries, keys[1..], path)
  {
    hide ListFields, ListKeys, Route, Print;
    assert keys[0] in keys && forall k :: k in keys[1..] ==> k in keys;
    var here := path + "[" + keys[0] + "]";
    var a: seq<Hop> := [];
    if elem.StructKind? { a := ListedIsRoute(elem.fields, Deref(Some(entries[keys[0]])), here + ".", p); }
    if p in ListKeys(elem, entries, keys[1..], path) {
      var key, b := ListedIsKey(elem, entries, keys[1..], path, p);
      KeyPathKey(elem, path, keys[0], a, key, b);
      assert false;
    }
  }

  lemma KeyPathKey(elem: Kind, path: string, k: string, a: seq<Hop>, l: string, b: seq<Hop>)
    requires ']' !in k && ']' !in l && KeyPath(elem, path, k, a) == KeyPath(elem, path, l, b)
    ensures k == l
  {
    hide Print;
    var x := if elem.StructKind? then "]" + "." + Print(a) else "]";
    var y := if elem.StructKind? then "]" + "." + Print(b) else "]";
    assert KeyPath(elem, path, k, a) == path + "[" + (k + x) && KeyPath(elem, path, l, b) == path + "[" + (l + y);
    SamePrefix(path + "[", k + x, l + y);
    IndexShift(k, x, ']');
    IndexShift(l, y, ']');
    assert k == (k + x)[..|k|] && l == (l + y)[..|l|];
  }

  // ----- What listFields does, panics included -------------------------------

  /** The type is `*T`. */
  predicate IsPointer(k: Kind) {
    (k.LeafKind? || k.StructKind?) && k.pointer
  }

  /** `listReflectedFields`; `None` is the panic of `Elem` on a pointer field of a missing struct. */
  function ListReflected(fs: seq<Field>, v: Option<Value>, prefix: string): Option<seq<string>>
    decreases fs
  {
    if fs == [] then Some([])
    else
      var f := fs[0];
      Both(ListReflectedField(f.kind, FieldOf(v, f.name), prefix + f.display), ListReflected(fs[1..], v, prefix))
  }

  function Both(a: Option<seq<string>>, b: Option<seq<string>>): Option<seq<string>> {
    if a.Some? && b.Some? then Some(a.value + b.value) else None
  }

  function ListReflectedField(k: Kind, v: Option<Value>, path: string): Option<seq<string>>
    decreases k
  {
    if IsPointer(k) && v.None? then None
    else
      match k
      case LeafKind(_) => Some([path])
      case StructKind(fs, _) => ListReflected(fs, Deref(v), path + ".")
      case MapKind(elem) =>
        if v.Some? && v.value.Table?
        then ListReflectedKeys(elem, v.value.entries, SortedKeys(v.value.entries.Keys), path) else Some([])
  }

  function ListReflectedKeys(elem: Kind, entries: map<string, Value>, keys: seq<string>,
                             path: string): Option<seq<string>>
    decreases elem, |keys|
  {
    if keys == [] then Some([])
    else
      var here := path + "[" + keys[0] + "]";
      var value := if keys[0] in entries then Some(entries[keys[0]]) else None;
      Both(if elem.StructKind? then ListReflected(elem.fields, Deref(value), here + ".") else Some([here]),
           ListReflectedKeys(elem, entries, keys[1..], path))
  }

  /** No pointer field is met where its struct is missing. */
  ghost predicate Listable(fs: seq<Field>, v: Option<Value>) {
    forall f :: f in fs ==> ListableField(f.kind, FieldOf(v, f.name))
  }

  ghost predicate ListableField(k: Kind, v: Option<Value>) {
    && !(IsPointer(k) && v.None?)
    && match k
       case LeafKind(_) => true
       case StructKind(fs, _) => Listable(fs, Deref(v))
       case MapKind(elem) =>
         v.Some? && v.value.Table? && elem.StructKind? ==>
           forall key :: key in v.value.entries ==> Listable(elem.fields, Deref(Some(v.value.entries[key])))
  }

  lemma ListableCons(fs: seq<Field>, v: Option<Value>)
    requires fs != []
    ensures Listable(fs, v) <==> ListableField(fs[0].kind, FieldOf(v, fs[0].name)) && Listable(fs[1..], v)
  {
    hide ListableField;
    assert forall f :: f in fs <==> f == fs[0] || f in fs[1..];
  }

  /** Listing panics exactly when a pointer field lies in a missing struct, and else gives the paths. */
  lemma {:induction false} ListsUnlessMissing(fs: seq<Field>, v: Option<Value>, prefix: string)
    ensures ListReflected(fs, v, prefix) == if Listable(fs, v) then Some(ListFields(fs, v, prefix)) else None
    decreases fs, 1
  {
    hide ListReflectedField, ListField, ListableField;
    if fs != [] {
      var f := fs[0];
      ListableCons(fs, v);
      FieldListsUnlessMissing(f, FieldOf(v, f.name), prefix + f.display);
      hide Listable;
      ListsUnlessMissing(fs[1..], v, prefix);
    }
  }

  lemma {:induction false} FieldListsUnlessMissing(f: Field, v: Option<Value>, path: string)
    ensures ListReflectedField(f.kind, v, path) ==
              if ListableField(f.kind, v) then Some(ListField(f.kind, v, path)) else None
    decreases f, 0
  {
    hide ListReflected, ListFields, Listable, ListReflectedKeys, ListKeys;
    match f.kind {
      case LeafKind(_) =>
      case StructKind(fs, _) =>
        ListsUnlessMissing(fs, Deref(v), path + ".");
      case MapKind(elem) =>
        if v.Some? && v.value.Table? {
          KeysListUnlessMissing(elem, v.value.entries, SortedKeys(v.value.entries.Keys), path);
        }
    }
  }

  lemma {:induction false} KeysListUnlessMissing(elem: Kind, entries: map<string, Value>, keys: seq<string>,
                                                 path: string)
    requires forall k :: k in keys ==> k in entries
    ensures ListReflectedKeys(elem, entries, keys, path) ==
            if elem.StructKind? ==> forall k :: k in keys ==> Listable(elem.fields, Deref(Some(entries[k])))
            then Some(ListKeys(elem, entries, keys, path)) else None
    decreases elem, |keys|
  {
    hide ListReflected, ListFields, Listable;
    if keys != [] {
      var here := path + "[" + keys[0] + "]";
      assert keys[0] in keys && forall k :: k in keys <==> k == keys[0] || k in keys[1..];
      KeysListUnlessMissing(elem, entries, keys[1..], path);
      if elem.StructKind? { ListsUnlessMissing(elem.fields, Deref(Some(entries[keys[0]])), here + "."); }
    }
  }

  /** No pointer field, directly or in structs held by value. */
  ghost predicate PointerFree(fs: seq<Field>) {
    forall f :: f in fs ==> !IsPointer(f.kind) && (f.kind.StructKind? ==> PointerFree(f.kind.fields))
  }

  /** Structs behind a pointer or in a map have no pointer fields themselves. */
  ghost predicate ShallowPointers(fs: seq<Field>) {
    forall f :: f in fs ==>
      match f.kind
      case LeafKind(_) => true
      case StructKind(sub, pointer) => ShallowPointers(sub) && (pointer ==> PointerFree(sub))
      case MapKind(elem) =>
        elem.StructKind? ==> ShallowPointers(elem.fields) && (elem.pointer ==> PointerFree(elem.fields))
  }

  lemma {:induction false} MissingListable(fs: seq<Field>)
    requires PointerFree(fs)
    ensures Listable(fs, None)
  {
    forall f | f in fs ensures ListableField(f.kind, FieldOf(None, f.name)) {
      if f.kind.StructKind? { MissingListable(f.kind.fields); }
    }
  }

  /** Types of this shape can be listed whatever is nil in the value. */
  lemma {:induction false} ShallowListable(fs: seq<Field>, v: Value)
    requires ShallowPointers(fs) && Fits(fs, v)
    ensures Listable(fs, Some(v))
    decreases fs, 0
  {
    forall f | f in fs ensures ListableField(f.kind, FieldOf(Some(v), f.name)) {
      var here := v.fields[f.name];
      match f.kind {
        case LeafKind(_) =>
        case StructKind(sub, _) =>
          BelowListable(sub, f.kind.pointer, here);
        case MapKind(elem) =>
          if elem.StructKind? {
            forall key | key in here.entries ensures Listable(elem.fields, Deref(Some(here.entries[key]))) {
              assert Typed(elem, here.entries[key]);
              BelowListable(elem.fields, elem.pointer, here.entries[key]);
            }
          }
      }
    }
  }

  lemma {:induction false} BelowListable(sub: seq<Field>, pointer: bool, v: Value)
    requires ShallowPointers(sub) && (pointer ==> PointerFree(sub)) && Typed(StructKind(sub, pointer), v)
    ensures Listable(sub, Deref(Some(v)))
    decreases sub, 1
  {
    if v.Nil? {
      MissingListable(sub);
    } else if pointer {
      ShallowListable(sub, v.target);
    } else {
      ShallowListable(sub, v);
    }
  }

  /** A map of structs with a pointer field, and a nil entry in it: listing panics. */
  lemma NilEntryPanics(field: Field, name: string, display: string, key: string)
    requires IsPointer(field.kind)
    ensures var disks := Field(name, display, MapKind(StructKind([field], true)));
            ListReflected([disks], Some(Record(map[name := Table(map[key := Nil])])), "") == None
  {
    var disks := Field(name, display, MapKind(StructKind([field], true)));
    var table := Table(map[key := Nil]);
    var v := Some(Record(map[name := table]));
    assert field in [field] && !ListableField(field.kind, FieldOf(None, field.name));
    assert !Listable([field], Deref(Some(table.entries[key])));
    assert disks in [disks] && !ListableField(disks.kind, FieldOf(v, name));
    ListsUnlessMissing([disks], v, "");
  }

  /** The printed path of a route to a leaf. */
  ghost predicate IsPath(fs: seq<Field>, v: Option<Value>, p: string) {
    exists route :: Route(fs, v, route) && p == Print(route)
  }

  lemma ListedIsPath(fs: seq<Field>, v: Option<Value>, p: string)
    ensures p in ListFields(fs, v, "") <==> IsPath(fs, v, p)
  {
    hide ListFields, Route, Print;
    if p in ListFields(fs, v, "") {
      var route := ListedIsRoute(fs, v, "", p);
      assert "" + Print(route) == Print(route);
    }
    if IsPath(fs, v, p) {
      var route :| Route(fs, v, route) && p == Print(route);
      RouteIsListed(fs, v, "", route);
      assert "" + Print(route) == Print(route);
    }
  }

  /**
   What listFields prints, when it does not panic: exactly the paths of the routes to
   the leaves, each once.
   */
  lemma ListedExactly(fs: seq<Field>, obj: Value)
    requires GoodNames(fs) && Fits(fs, obj)
    ensures ListReflected(fs, Some(obj), "").Some? <==> Listable(fs, Some(obj))
    ensures ListReflected(fs, Some(obj), "").Some? ==>
              var paths := ListReflected(fs, Some(obj), "").value;
              Distinct(paths) && forall p :: p in paths <==> IsPath(fs, Some(obj), p)
  {
    hide *;
    ListsUnlessMissing(fs, Some(obj), "");
    ListedOnce(fs, Some(obj), "");
    forall p ensures p in ListFields(fs, Some(obj), "") <==> IsPath(fs, Some(obj), p) {
      ListedIsPath(fs, Some(obj), p);
    }
  }

  /** Every path `listFields` prints is read back to the leaf it stands for. */
  lemma ListedPathsRead(fs: seq<Field>, obj: Value, p: string)
    requires GoodNames(fs) && Fits(fs, obj)
    requires ListReflected(fs, Some(obj), "").Some? && p in ListReflected(fs, Some(obj), "").value
    ensures exists route ::
              && Route(fs, Some(obj), route) && p == Print(route)
              && var got := Follow(Got(StructKind(fs, false), obj), SplitName(p));
                 match Locate(Some(obj), route)
                 case None => got == NoValue
                 case Some(v) => got.Got? && got.value == v
  {
    hide ListReflected, Route, Print, Follow, SplitName, Locate, GoodNames, Fits;
    ListedExactly(fs, obj);
    assert IsPath(fs, Some(obj), p);
    var route :| Route(fs, Some(obj), route) && p == Print(route);
    PathRoundTrip(fs, obj, route);
  }
}
