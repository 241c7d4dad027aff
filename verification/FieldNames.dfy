/**
 How field names are read (internal/pkg/node/fields.go), for every text and not only for
 printed paths: where a name is cut, what a key is, which field a name means, and how a
 lookup fails.
 */
module FieldNames {
  import opened Text
  import opened Fields

  // ----- Where a name is cut -------------------------------------------------

  /** The last bracket of the text opens. */
  ghost predicate Open(s: string) {
    exists j :: 0 <= j < |s| && s[j] == '[' && ']' !in s[j..]
  }

  lemma OpenSnoc(s: string, c: char)
    ensures Open(s + [c]) <==> c == '[' || (c != ']' && Open(s))
  {
    var t := s + [c];
    if c == '[' { assert t[|s|] == '[' && ']' !in t[|s|..]; }
    if c != ']' && Open(s) {
      var j :| 0 <= j < |s| && s[j] == '[' && ']' !in s[j..];
      assert t[j] == '[' && t[j..] == s[j..] + [c];
    }
    if Open(t) && c != '[' {
      var j :| 0 <= j < |t| && t[j] == '[' && ']' !in t[j..];
      assert t[j..] == s[j..] + [c] && s[j] == '[' && c in t[j..];
      assert forall x :: x in s[j..] ==> x in t[j..];
    }
  }

  /** Text whose dots are all behind an open bracket is collected as it is. */
  lemma {:induction false} Collected(a: string, rest: string)
    requires forall i :: 0 <= i < |a| && a[i] == '.' ==> Open(a[..i])
    ensures SplitRest(a + rest, "", false) == SplitRest(rest, a, Open(a))
    decreases |a|
  {
    if a == "" {
      assert a + rest == rest;
    } else {
      var n := |a| - 1;
      var b, c := a[..n], a[n];
      assert a == b + [c] && a + rest == b + ([c] + rest);
      forall i | 0 <= i < |b| && b[i] == '.' ensures Open(b[..i]) { assert a[i] == '.' && a[..i] == b[..i]; }
      Collected(b, [c] + rest);
      OpenSnoc(b, c);
      hide Open;
      assert ([c] + rest)[1..] == rest;
    }
  }

  /** A name is cut at the first dot whose nearest bracket before it, if any, is closing. */
  lemma CutAtDot(a: string, b: string)
    requires forall i :: 0 <= i < |a| && a[i] == '.' ==> exists j :: 0 <= j < i && a[j] == '[' && ']' !in a[j..i]
    requires forall j :: 0 <= j < |a| && a[j] == '[' ==> ']' in a[j..]
    ensures SplitName(a + "." + b) == [a] + SplitName(b)
  {
    OpenAt(a);
    assert !Open(a);
    hide Open;
    assert a + "." + b == a + ("." + b) && ("." + b)[1..] == b;
    Collected(a, "." + b);
  }

  /** Without such a dot it is one part, and no part if it is empty. */
  lemma NoCut(a: string)
    requires forall i :: 0 <= i < |a| && a[i] == '.' ==> exists j :: 0 <= j < i && a[j] == '[' && ']' !in a[j..i]
    ensures SplitName(a) == if a == "" then [] else [a]
  {
    OpenAt(a);
    hide Open;
    assert a + "" == a;
    Collected(a, "");
  }

  lemma OpenAt(a: string)
    requires forall i :: 0 <= i < |a| && a[i] == '.' ==> exists j :: 0 <= j < i && a[j] == '[' && ']' !in a[j..i]
    ensures forall i :: 0 <= i < |a| && a[i] == '.' ==> Open(a[..i])
  {
    forall i | 0 <= i < |a| && a[i] == '.' ensures Open(a[..i]) {
      var j :| 0 <= j < i && a[j] == '[' && ']' !in a[j..i];
      assert a[..i][j] == '[' && a[..i][j..] == a[j..i];
    }
  }

  // ----- Keys and fields -----------------------------------------------------

  /** A part has a key if and only if it is a name, "[", the key and "]", the name without "[", the key without "]". */
  lemma KeyIff(part: string, name: string, key: string)
    ensures ParseMapField(part) == (name, key) <==>
            || (part == name + "[" + key + "]" && name != "" && '[' !in name && key != "" && ']' !in key)
            || (&& name == part && key == ""
                && !exists a, k :: part == a + "[" + k + "]" && a != "" && '[' !in a && k != "" && ']' !in k)
  {
    forall a, k | part == a + "[" + k + "]" && a != "" && '[' !in a && k != "" && ']' !in k
      ensures ParseMapField(part) == (a, k)
    {
      KeyRead(part, a, k);
    }
    KeyParsed(part);
    hide ParseMapField;
  }

  lemma KeyParsed(part: string)
    ensures var (a, k) := ParseMapField(part);
            if k == "" then a == part else part == a + "[" + k + "]" && a != "" && '[' !in a && ']' !in k
  {
    var i, n := Index(part, '['), |part| - 1;
    if 0 < i && i + 1 < n && part[n] == ']' && ']' !in part[i + 1..n] {
      assert part == part[..i] + "[" + part[i + 1..n] + "]";
    }
  }

  lemma KeyRead(part: string, a: string, k: string)
    requires part == a + "[" + k + "]" && a != "" && '[' !in a && k != "" && ']' !in k
    ensures ParseMapField(part) == (a, k)
  {
    assert part[..|a|] == a && part[|a|] == '[';
    IndexIs(part, '[', |a|);
    assert part[|a| + 1..|part| - 1] == k;
  }

  /** A name means the first field shown under it, or, if none is, the first whose Go name it is. */
  lemma FieldIff(fs: seq<Field>, name: string, f: Field)
    ensures FindField(fs, name) == Some(f) <==>
            || (exists i :: && 0 <= i < |fs| && fs[i] == f && f.display == name
                            && forall j :: 0 <= j < i ==> fs[j].display != name)
            || (&& (forall j :: 0 <= j < |fs| ==> fs[j].display != name)
                && exists i :: && 0 <= i < |fs| && fs[i] == f && f.name == name
                               && forall j :: 0 <= j < i ==> fs[j].name != name)
  {
    var a := FirstShown(fs, name);
    var b := FirstNamed(fs, name);
  }

  lemma {:induction false} FirstShown(fs: seq<Field>, name: string) returns (i: nat)
    ensures i <= |fs| && forall j :: 0 <= j < i ==> fs[j].display != name
    ensures FindDisplay(fs, name) == if i < |fs| then Some(fs[i]) else None
    ensures i < |fs| ==> fs[i].display == name
  {
    if fs == [] || fs[0].display == name {
      i := 0;
    } else {
      var k := FirstShown(fs[1..], name);
      i := k + 1;
    }
  }

  lemma {:induction false} FirstNamed(fs: seq<Field>, name: string) returns (i: nat)
    ensures i <= |fs| && forall j :: 0 <= j < i ==> fs[j].name != name
    ensures FindGoName(fs, name) == if i < |fs| then Some(fs[i]) else None
    ensures i < |fs| ==> fs[i].name == name
  {
    if fs == [] || fs[0].name == name {
      i := 0;
    } else {
      var k := FirstNamed(fs[1..], name);
      i := k + 1;
    }
  }

  // ----- How a lookup fails --------------------------------------------------

  /**
   In a struct: a name that is no field gives an invalid value, and with a key a panic.
   A key that the map does not have gives no value, and a key of anything but a map a
   panic. Behind a nil pointer, and below an invalid value, there is no value.
   */
  lemma LookupFails(fs: seq<Field>, pointer: bool, record: map<string, Value>, name: string, key: string)
    requires PlainName(name) && GoodKey(key)
    ensures var here := Got(StructKind(fs, pointer), Record(record));
            && (FindField(fs, name).None? ==>
                  Lookup(here, name) == Invalid && Lookup(here, name + "[" + key + "]") == Panics)
            && (FindField(fs, name).Some? && FindField(fs, name).value.name in record ==>
                  var f, v := FindField(fs, name).value, record[FindField(fs, name).value.name];
                  && Lookup(here, name) == Got(f.kind, v)
                  && (Lookup(here, name + "[" + key + "]") == NoValue <==>
                        f.kind.MapKind? && v.Table? && key !in v.entries)
                  && (Lookup(here, name + "[" + key + "]") == Panics <==> !(f.kind.MapKind? && v.Table?)))
            && Lookup(Got(StructKind(fs, pointer), Nil), name) == NoValue
            && Lookup(Invalid, name) == NoValue
  {
    KeyIff(name, name, "");
    KeyIff(name + "[" + key + "]", name, key);
    hide ParseMapField, FindField;
  }

  /** It finds the value of the field, or the entry of its map, in a struct and behind a pointer alike. */
  lemma LookupFinds(fs: seq<Field>, record: map<string, Value>, part: string, name: string, key: string)
    requires PlainName(name) && GoodKey(key) && FindField(fs, name).Some? && FindField(fs, name).value.name in record
    ensures var here, f, v := Got(StructKind(fs, false), Record(record)), FindField(fs, name).value,
                              record[FindField(fs, name).value.name];
            && Lookup(here, name) == Got(f.kind, v)
            && (f.kind.MapKind? && v.Table? && key in v.entries ==>
                  Lookup(here, name + "[" + key + "]") == Got(f.kind.elem, v.entries[key]))
            && Lookup(Got(StructKind(fs, true), Ref(Record(record))), part) == Lookup(here, part)
  {
    KeyIff(name, name, "");
    KeyIff(name + "[" + key + "]", name, key);
    hide ParseMapField, FindField;
  }

  // ----- What listing needs --------------------------------------------------

  /** Fields are listed in their order, and the keys of a map in theirs. */
  lemma {:induction false} ListedInOrder(a: seq<Field>, b: seq<Field>, v: Option<Value>, prefix: string)
    ensures ListReflected(a + b, v, prefix).Some? <==>
            ListReflected(a, v, prefix).Some? && ListReflected(b, v, prefix).Some?
    ensures ListReflected(a + b, v, prefix).Some? ==>
              ListReflected(a + b, v, prefix).value ==
              ListReflected(a, v, prefix).value + ListReflected(b, v, prefix).value
    decreases |a|
  {
    hide ListReflectedField;
    if a == [] {
      assert a + b == b;
    } else {
      assert (a + b)[0] == a[0] && (a + b)[1..] == a[1..] + b;
      ListedInOrder(a[1..], b, v, prefix);
    }
  }

  lemma {:induction false} KeysInOrder(elem: Kind, entries: map<string, Value>, a: seq<string>, b: seq<string>,
                                       path: string)
    ensures ListReflectedKeys(elem, entries, a + b, path) ==
            Both(ListReflectedKeys(elem, entries, a, path), ListReflectedKeys(elem, entries, b, path))
    decreases |a|
  {
    hide ListReflected;
    if a == [] {
      assert a + b == b;
      if ListReflectedKeys(elem, entries, b, path).Some? {
        assert [] + ListReflectedKeys(elem, entries, b, path).value == ListReflectedKeys(elem, entries, b, path).value;
      }
    } else {
      assert (a + b)[0] == a[0] && (a + b)[1..] == a[1..] + b;
      KeysInOrder(elem, entries, a[1..], b, path);
      BothAssoc(ListReflectedKeys(elem, entries, [a[0]], path), ListReflectedKeys(elem, entries, a[1..], path),
                ListReflectedKeys(elem, entries, b, path));
      KeysCons(elem, entries, a, path);
      KeysCons(elem, entries, a + b, path);
    }
  }

  lemma KeysCons(elem: Kind, entries: map<string, Value>, keys: seq<string>, path: string)
    requires keys != []
    ensures ListReflectedKeys(elem, entries, keys, path) ==
            Both(ListReflectedKeys(elem, entries, [keys[0]], path), ListReflectedKeys(elem, entries, keys[1..], path))
  {
    hide ListReflected;
    var one: seq<string> := [keys[0]];
    assert one[1..] == [];
    var here := path + "[" + keys[0] + "]";
    var value := if keys[0] in entries then Some(entries[keys[0]]) else None;
    var own := if elem.StructKind? then ListReflected(elem.fields, Deref(value), here + ".") else Some([here]);
    assert own.Some? ==> own.value + [] == own.value;
  }

  lemma BothAssoc(a: Option<seq<string>>, b: Option<seq<string>>, c: Option<seq<string>>)
    ensures Both(Both(a, b), c) == Both(a, Both(b, c))
  {
    if a.Some? && b.Some? && c.Some? { AppendAssoc(a.value, b.value, c.value); }
  }

  /** Where a struct is missing, it can be listed if neither it nor a struct in it by value has a pointer field. */
  lemma ListableMissing(fs: seq<Field>)
    ensures Listable(fs, None) <==>
            forall f :: f in fs ==>
              match f.kind
              case LeafKind(pointer) => !pointer
              case StructKind(sub, pointer) => !pointer && Listable(sub, None)
              case MapKind(_) => true
  {
  }

  /** Where it is there, it can be listed if the structs in it can, behind pointers and in maps the missing ones too. */
  lemma ListableThere(fs: seq<Field>, record: map<string, Value>)
    requires Fits(fs, Record(record))
    ensures Listable(fs, Some(Record(record))) <==>
            forall f :: f in fs ==>
              match f.kind
              case LeafKind(_) => true
              case StructKind(sub, _) => Listable(sub, Pointee(record[f.name]))
              case MapKind(StructKind(sub, _)) =>
                record[f.name].Table? ==>
                  forall k :: k in record[f.name].entries ==> Listable(sub, Pointee(record[f.name].entries[k]))
              case MapKind(_) => true
  {
    hide Listable;
    assert Listable(fs, Some(Record(record))) <==>
           forall f :: f in fs ==> ListableField(f.kind, Some(record[f.name])) by { ListableFields(fs, record); }
  }

  lemma ListableFields(fs: seq<Field>, record: map<string, Value>)
    requires forall f :: f in fs ==> f.name in record
    ensures Listable(fs, Some(Record(record))) <==>
            forall f :: f in fs ==> ListableField(f.kind, Some(record[f.name]))
  {
    hide ListableField;
  }

  /** What a value stands for: the target of a pointer, nothing for nil. */
  function Pointee(v: Value): (r: Option<Value>)
    ensures v == Nil ==> r == None
    ensures v.Ref? ==> r == Some(v.target)
    ensures v != Nil && !v.Ref? ==> r == Some(v)
  {
    match v
    case Nil => None
    case Ref(target) => Some(target)
    case _ => Some(v)
  }
}
