/**
 Strings as the Go standard library sees them: a `string` here is a sequence of
 bytes, each the character of that value. Loops over runes are modelled byte by byte,
 which is the same for valid UTF-8, as the characters they look for are all ASCII.
 Only the operations the modelled files call are defined.
 */
module Text {

  datatype Option<+T> = None | Some(value: T)

  /** `strings.Index` for a one-byte needle: the first position, or -1. */
  function Index(s: string, c: char): (i: int)
    ensures -1 <= i < |s|
    ensures i == -1 <==> c !in s
    ensures 0 <= i ==> s[i] == c && c !in s[..i]
  {
    if s == [] then -1
    else if s[0] == c then 0
    else
      var k := Index(s[1..], c);
      if k < 0 then -1
      else
        assert s[..k + 1] == [s[0]] + s[1..][..k];
        k + 1
  }

  /** `Index` is the only position with that description. */
  lemma IndexIs(s: string, c: char, i: nat)
    requires i < |s| && s[i] == c && c !in s[..i]
    ensures Index(s, c) == i
  {
  }

  /** A prefix free of `c` only shifts the index. */
  lemma {:induction false} IndexShift(p: string, s: string, c: char)
    requires c !in p
    ensures Index(p + s, c) == if c in s then |p| + Index(s, c) else -1
  {
    if p == [] {
      assert p + s == s;
    } else {
      assert (p + s)[1..] == p[1..] + s;
      IndexShift(p[1..], s, c);
    }
  }

  predicate HasPrefix(s: string, p: string) {
    p <= s
  }

  /** `strings.Split` for a one-byte separator. */
  function Split(s: string, sep: char): (r: seq<string>)
    ensures |r| >= 1
    ensures forall p :: p in r ==> sep !in p
    decreases |s|
  {
    var i := Index(s, sep);
    if i < 0 then [s] else [s[..i]] + Split(s[i + 1..], sep)
  }

  /** `strings.Join`. */
  function Join(parts: seq<string>, sep: string): string {
    if parts == [] then ""
    else if |parts| == 1 then parts[0]
    else parts[0] + sep + Join(parts[1..], sep)
  }

  lemma SplitNone(s: string, sep: char)
    requires sep !in s
    ensures Split(s, sep) == [s]
  {
  }

  lemma SplitCons(p: string, rest: string, sep: char)
    requires sep !in p
    ensures Split(p + [sep] + rest, sep) == [p] + Split(rest, sep)
  {
    var s := p + [sep] + rest;
    assert s[..|p|] == p;
    IndexIs(s, sep, |p|);
    assert s[|p| + 1..] == rest;
  }

  /** Splitting undoes joining when no part holds the separator. */
  lemma {:induction false} SplitJoin(parts: seq<string>, sep: char)
    requires parts != []
    requires forall p :: p in parts ==> sep !in p
    ensures Split(Join(parts, [sep]), sep) == parts
  {
    if |parts| == 1 {
      SplitNone(parts[0], sep);
    } else {
      SplitJoin(parts[1..], sep);
      SplitCons(parts[0], Join(parts[1..], [sep]), sep);
      assert parts == [parts[0]] + parts[1..];
    }
  }

  lemma JoinCons(p: string, rest: seq<string>, sep: string)
    requires rest != []
    ensures Join([p] + rest, sep) == p + sep + Join(rest, sep)
  {
    assert ([p] + rest)[1..] == rest;
  }

  /** And joining undoes splitting. */
  lemma {:induction false} JoinSplit(s: string, sep: char)
    ensures Join(Split(s, sep), [sep]) == s
    decreases |s|
  {
    hide Join;
    var i := Index(s, sep);
    if i >= 0 {
      JoinSplit(s[i + 1..], sep);
      JoinCons(s[..i], Split(s[i + 1..], sep), [sep]);
      assert s == s[..i] + [sep] + s[i + 1..];
    } else {
      JoinOne(s, [sep]);
    }
  }

  lemma JoinOne(p: string, sep: string)
    ensures Join([p], sep) == p
  {
  }

  /** No element occurs twice. */
  ghost predicate Distinct<T>(s: seq<T>) {
    forall i, j :: 0 <= i < j < |s| ==> s[i] != s[j]
  }

  lemma DistinctSnoc<T>(s: seq<T>, x: T)
    requires Distinct(s) && x !in s
    ensures Distinct(s + [x])
  {
    forall i, j | 0 <= i < j < |s + [x]| ensures (s + [x])[i] != (s + [x])[j] {
      assert s[i] in s;
    }
  }

  lemma DistinctAppend<T>(a: seq<T>, b: seq<T>)
    requires Distinct(a) && Distinct(b) && forall x :: x in a ==> x !in b
    ensures Distinct(a + b)
  {
    forall i, j | 0 <= i < j < |a + b| ensures (a + b)[i] != (a + b)[j] {
      if i < |a| <= j {
        assert a[i] in a && b[j - |a|] in b;
      }
    }
  }

  function Elements<T>(s: seq<T>): set<T> {
    set x | x in s
  }

  /** Keep the first occurrence of every element. */
  function Dedupe<T(==)>(s: seq<T>): (r: seq<T>)
    ensures Elements(r) == Elements(s)
    ensures Distinct(r)
  {
    if s == [] then []
    else
      var init := Dedupe(s[..|s| - 1]);
      var x := s[|s| - 1];
      assert s == s[..|s| - 1] + [x];
      assert Elements(s) == Elements(s[..|s| - 1]) + {x};
      assert Elements(init + [x]) == Elements(init) + {x};
      assert x in init <==> x in Elements(init);
      if x in init then init else init + [x]
  }

  lemma DedupeSnoc<T>(s: seq<T>, x: T)
    ensures Dedupe(s + [x]) == if x in s then Dedupe(s) else Dedupe(s) + [x]
  {
    assert (s + [x])[..|s + [x]| - 1] == s;
    assert x in Elements(s) <==> x in Elements(Dedupe(s));
  }

  lemma DedupeMember<T>(s: seq<T>, x: T)
    ensures x in Dedupe(s) <==> x in s
  {
    assert x in Elements(s) <==> x in Elements(Dedupe(s));
  }

  lemma {:induction false} DedupeDistinct<T>(s: seq<T>)
    requires Distinct(s)
    ensures Dedupe(s) == s
  {
    if s != [] {
      DedupeDistinct(s[..|s| - 1]);
    }
  }

  /** `x` occurs, and `y` not before it. */
  ghost predicate Precedes<T>(s: seq<T>, x: T, y: T) {
    exists k :: 0 <= k < |s| && s[k] == x && y !in s[..k + 1]
  }

  lemma PrecedesMore<T>(s: seq<T>, x: T, y: T, last: T)
    ensures Precedes(s, x, y) ==> Precedes(s + [last], x, y)
    ensures x in s && y !in s ==> Precedes(s + [last], x, y)
  {
    if Precedes(s, x, y) || (x in s && y !in s) {
      var k :| 0 <= k < |s| && s[k] == x && y !in s[..k + 1];
      assert (s + [last])[k] == x && (s + [last])[..k + 1] == s[..k + 1];
    }
  }

  /** What is left comes in the order of first appearance. */
  lemma {:induction false} DedupeOrder<T>(s: seq<T>, i: nat, j: nat)
    requires i < j < |Dedupe(s)|
    ensures exists k :: 0 <= k < |s| && s[k] == Dedupe(s)[i] && Dedupe(s)[j] !in s[..k + 1]
  {
    DedupePrecedes(s, i, j);
  }

  lemma {:induction false} DedupePrecedes<T>(s: seq<T>, i: nat, j: nat)
    requires i < j < |Dedupe(s)|
    ensures Precedes(s, Dedupe(s)[i], Dedupe(s)[j])
  {
    var n := |s| - 1;
    var init, r := Dedupe(s[..n]), Dedupe(s);
    assert s == s[..n] + [s[n]] && i < |init|;
    assert init[i] in Elements(init) && init[i] in Elements(s[..n]);
    if j < |init| {
      DedupePrecedes(s[..n], i, j);
    } else {
      assert r[j] !in Elements(init) && r[j] !in Elements(s[..n]);
    }
    PrecedesMore(s[..n], r[i], r[j], s[n]);
  }

  lemma {:induction false} PrecedesDeduped<T>(s: seq<T>, p: T, q: T)
    requires Precedes(s, p, q)
    ensures Precedes(Dedupe(s), p, q)
    decreases |s|
  {
    var n := |s| - 1;
    var k :| 0 <= k < |s| && s[k] == p && q !in s[..k + 1];
    var init, x := s[..n], s[n];
    assert s == init + [x];
    assert x in Elements(init) <==> x in Elements(Dedupe(init));
    if k < n {
      assert init[k] == p && init[..k + 1] == s[..k + 1];
      PrecedesDeduped(init, p, q);
      PrecedesMore(Dedupe(init), p, q, x);
    } else {
      assert s[..k + 1] == s;
      assert q !in Elements(s) && q !in Elements(Dedupe(s)) && p in Elements(s) && p in Elements(Dedupe(s));
      var i :| 0 <= i < |Dedupe(s)| && Dedupe(s)[i] == p;
    }
  }

  /** Byte-wise string order, Go's `<` on strings, made reflexive. */
  predicate StringLe(a: string, b: string) {
    a == [] || (b != [] && (a[0] < b[0] || (a[0] == b[0] && StringLe(a[1..], b[1..]))))
  }

  /** The order of dictionaries: a prefix first, and else by the first byte that differs. */
  lemma StringLeIff(a: string, b: string)
    ensures StringLe(a, b) <==>
            a <= b || exists i :: 0 <= i < |a| && i < |b| && a[..i] == b[..i] && a[i] < b[i]
  {
    if StringLe(a, b) && !(a <= b) { var i := FirstSmaller(a, b); }
    if a <= b { PrefixLe(a, b, |a|); }
    if i :| 0 <= i < |a| && i < |b| && a[..i] == b[..i] && a[i] < b[i] { PrefixLe(a, b, i); }
  }

  lemma {:induction false} FirstSmaller(a: string, b: string) returns (i: nat)
    requires StringLe(a, b) && !(a <= b)
    ensures i < |a| && i < |b| && a[..i] == b[..i] && a[i] < b[i]
  {
    if a[0] < b[0] {
      i := 0;
    } else {
      assert a == [a[0]] + a[1..] && b == [b[0]] + b[1..];
      var j := FirstSmaller(a[1..], b[1..]);
      i := j + 1;
      assert a[..i] == [a[0]] + a[1..][..j] && b[..i] == [b[0]] + b[1..][..j];
    }
  }

  lemma {:induction false} PrefixLe(a: string, b: string, i: nat)
    requires i <= |a| && i <= |b| && a[..i] == b[..i] && (i == |a| || (i < |b| && a[i] < b[i]))
    ensures StringLe(a, b)
    decreases i
  {
    if i > 0 {
      assert a[0] == a[..i][0] == b[..i][0] == b[0];
      assert a[1..][..i - 1] == a[..i][1..] && b[1..][..i - 1] == b[..i][1..];
      PrefixLe(a[1..], b[1..], i - 1);
    }
  }

  lemma StringLeTotal(a: string, b: string)
    ensures StringLe(a, b) || StringLe(b, a)
    ensures StringLe(a, b) && StringLe(b, a) ==> a == b
  {
    if a != [] && b != [] {
      StringLeTotal(a[1..], b[1..]);
      assert a == [a[0]] + a[1..] && b == [b[0]] + b[1..];
    }
  }

  lemma StringLeTransitive(a: string, b: string, c: string)
    requires StringLe(a, b) && StringLe(b, c)
    ensures StringLe(a, c)
  {
    if a != [] && a[0] == b[0] == c[0] {
      StringLeTransitive(a[1..], b[1..], c[1..]);
    }
  }

  /** Strictly increasing: sorted and without repetition. */
  ghost predicate StrictlySorted(s: seq<string>) {
    forall i, j :: 0 <= i < j < |s| ==> s[i] != s[j] && StringLe(s[i], s[j])
  }

  /** The first of a set in string order. */
  predicate Least(x: string, s: set<string>) {
    x in s && forall y :: y in s ==> StringLe(x, y)
  }

  lemma LeastWith(s: set<string>, a: string, b: string)
    requires a in s && Least(b, s - {a})
    ensures Least(if StringLe(a, b) then a else b, s)
  {
    StringLeTotal(a, a);
    StringLeTotal(a, b);
    forall y: string ensures StringLe(a, b) && StringLe(b, y) ==> StringLe(a, y) {
      if StringLe(a, b) && StringLe(b, y) { StringLeTransitive(a, b, y); }
    }
    hide StringLe;
    assert forall y :: y in s ==> y == a || y in s - {a};
  }

  lemma {:induction false} LeastExists(s: set<string>)
    requires s != {}
    ensures exists x :: Least(x, s)
    decreases |s|
  {
    var a :| a in s;
    assert s == {a} + (s - {a});
    if s - {a} == {} {
      StringLeTotal(a, a);
      assert Least(a, s);
    } else {
      hide Least;
      LeastExists(s - {a});
      var b :| Least(b, s - {a});
      LeastWith(s, a, b);
    }
  }

  /** A comparison that sorts: any two elements compare, and comparisons chain. */
  ghost predicate Ordering<T(!new)>(le: (T, T) -> bool) {
    && (forall a, b :: le(a, b) || le(b, a))
    && (forall a, b, c :: le(a, b) && le(b, c) ==> le(a, c))
  }

  function InsertBy<T>(le: (T, T) -> bool, x: T, s: seq<T>): (r: seq<T>)
    ensures multiset(r) == multiset(s) + multiset{x}
  {
    if s == [] then [x]
    else if le(x, s[0]) then [x] + s
    else
      assert s == [s[0]] + s[1..];
      [s[0]] + InsertBy(le, x, s[1..])
  }

  /** `sort.SliceStable`: the sorted permutation, equal elements in their old order. */
  function SortBy<T>(le: (T, T) -> bool, s: seq<T>): (r: seq<T>)
    ensures multiset(r) == multiset(s)
  {
    if s == [] then []
    else
      assert s == [s[0]] + s[1..];
      InsertBy(le, s[0], SortBy(le, s[1..]))
  }

  ghost predicate SortedBy<T>(le: (T, T) -> bool, s: seq<T>) {
    forall i, j :: 0 <= i < j < |s| ==> le(s[i], s[j])
  }

  lemma {:induction false} InsertBySorted<T(!new)>(le: (T, T) -> bool, x: T, s: seq<T>)
    requires Ordering(le) && SortedBy(le, s)
    ensures SortedBy(le, InsertBy(le, x, s))
  {
    if s != [] && !le(x, s[0]) {
      InsertBySorted(le, x, s[1..]);
      var r := InsertBy(le, x, s[1..]);
      forall j | 0 <= j < |r| ensures le(s[0], r[j]) {
        assert r[j] in multiset(r);
        if r[j] != x { assert r[j] in s[1..]; }
      }
    }
  }

  lemma {:induction false} SortBySorted<T(!new)>(le: (T, T) -> bool, s: seq<T>)
    requires Ordering(le)
    ensures SortedBy(le, SortBy(le, s))
  {
    if s != [] {
      SortBySorted(le, s[1..]);
      InsertBySorted(le, s[0], SortBy(le, s[1..]));
    }
  }

  /** A stable sort does not move what is in order. */
  lemma {:induction false} SortByIdentity<T>(le: (T, T) -> bool, s: seq<T>)
    requires SortedBy(le, s)
    ensures SortBy(le, s) == s
  {
    if s != [] {
      SortByIdentity(le, s[1..]);
      assert |s| > 1 ==> le(s[0], s[1]);
      assert s == [s[0]] + s[1..];
    }
  }

  ghost predicate KeysDistinct<T>(key: T -> string, s: seq<T>) {
    forall i, j :: 0 <= i < j < |s| ==> key(s[i]) != key(s[j])
  }

  lemma {:induction false} InsertByDistinct<T>(le: (T, T) -> bool, key: T -> string, x: T, s: seq<T>)
    requires KeysDistinct(key, s) && forall y :: y in s ==> key(y) != key(x)
    ensures KeysDistinct(key, InsertBy(le, x, s))
  {
    if s != [] && !le(x, s[0]) {
      InsertByDistinct(le, key, x, s[1..]);
      var r := InsertBy(le, x, s[1..]);
      forall j | 0 <= j < |r| ensures key(s[0]) != key(r[j]) {
        assert r[j] in multiset(r);
        assert s[0] in s;
        if r[j] != x { assert r[j] in s[1..]; }
      }
    }
  }

  lemma {:induction false} SortByDistinct<T>(le: (T, T) -> bool, key: T -> string, s: seq<T>)
    requires KeysDistinct(key, s)
    ensures KeysDistinct(key, SortBy(le, s))
  {
    if s != [] {
      SortByDistinct(le, key, s[1..]);
      var r := SortBy(le, s[1..]);
      forall y | y in r ensures key(y) != key(s[0]) {
        assert y in multiset(r);
        assert y in s[1..];
      }
      InsertByDistinct(le, key, s[0], r);
    }
  }

  lemma SortByMembers<T>(le: (T, T) -> bool, s: seq<T>, x: T)
    ensures x in SortBy(le, s) <==> x in s
  {
    assert x in SortBy(le, s) <==> x in multiset(SortBy(le, s));
  }

  /** The order of `sort.Strings`. */
  function ByString(): (string, string) -> bool {
    (a: string, b: string) => StringLe(a, b)
  }

  lemma StringOrdering()
    ensures Ordering(ByString())
  {
    forall a, b ensures StringLe(a, b) || StringLe(b, a) {
      StringLeTotal(a, b);
    }
    forall a, b, c | StringLe(a, b) && StringLe(b, c) ensures StringLe(a, c) {
      StringLeTransitive(a, b, c);
    }
  }

  function SortStrings(s: seq<string>): seq<string> {
    SortBy(ByString(), s)
  }

  /** A sort keeps the elements, and makes distinct strings strictly increasing. */
  lemma SortStringsMembers(s: seq<string>)
    requires Distinct(s)
    ensures StrictlySorted(SortStrings(s)) && forall x :: x in SortStrings(s) <==> x in s
  {
    hide SortBy, StringLe;
    var r := SortStrings(s);
    StringOrdering();
    SortBySorted(ByString(), s);
    SortByDistinct(ByString(), (x: string) => x, s);
    assert SortedBy(ByString(), r) && KeysDistinct((x: string) => x, r);
    forall i, j | 0 <= i < j < |r| ensures r[i] != r[j] && StringLe(r[i], r[j]) {
      assert ByString()(r[i], r[j]);
    }
    forall x ensures x in r <==> x in s {
      SortByMembers(ByString(), s, x);
    }
  }

  /** Every finite set can be listed. */
  lemma {:induction false} SetListing(s: set<string>) returns (r: seq<string>)
    ensures forall x :: x in r <==> x in s
    decreases |s|
  {
    if s == {} {
      r := [];
    } else {
      var a :| a in s;
      var rest := SetListing(s - {a});
      r := rest + [a];
    }
  }

  /** The keys of a map, in whatever order the iteration takes. */
  method Listing(s: set<string>) returns (r: seq<string>)
    ensures Distinct(r) && forall x :: x in r <==> x in s
  {
    r := [];
    var todo := s;
    while todo != {}
      invariant Distinct(r) && todo <= s && forall x :: x in r <==> x in s - todo
      decreases |todo|
    {
      var x :| x in todo;
      DistinctSnoc(r, x);
      todo, r := todo - {x}, r + [x];
    }
  }

  /** Append the lists `f` gives for each element, in order. */
  function FlatMap<T, U>(f: T -> seq<U>, s: seq<T>): seq<U> {
    if s == [] then [] else f(s[0]) + FlatMap(f, s[1..])
  }

  lemma {:induction false} FlatMapAppend<T, U>(f: T -> seq<U>, a: seq<T>, b: seq<T>)
    ensures FlatMap(f, a + b) == FlatMap(f, a) + FlatMap(f, b)
  {
    if a == [] {
      assert a + b == b;
    } else {
      FlatMapAppend(f, a[1..], b);
      assert (a + b)[1..] == a[1..] + b && (a + b)[0] == a[0];
      var head, mid, tail := f(a[0]), FlatMap(f, a[1..]), FlatMap(f, b);
      assert head + (mid + tail) == (head + mid) + tail;
    }
  }

  lemma FlatMapOne<T, U>(f: T -> seq<U>, t: T)
    ensures FlatMap(f, [t]) == f(t)
  {
    assert FlatMap(f, [t][1..]) == [];
  }

  lemma {:induction false} FlatMapMembers<T, U>(f: T -> seq<U>, s: seq<T>, x: U)
    ensures x in FlatMap(f, s) <==> exists t :: t in s && x in f(t)
  {
    if s != [] {
      FlatMapMembers(f, s[1..], x);
      assert forall t :: t in s <==> t == s[0] || t in s[1..];
    }
  }

  /** Two functions that agree on the elements give the same list. */
  lemma {:induction false} FlatMapSame<T, U>(f: T -> seq<U>, g: T -> seq<U>, s: seq<T>)
    requires forall t :: t in s ==> f(t) == g(t)
    ensures FlatMap(f, s) == FlatMap(g, s)
  {
    if s != [] {
      FlatMapSame(f, g, s[1..]);
    }
  }

  /** `FlatMap` for a function that may fail; one failure fails the whole. */
  function TryFlatMap<T, U>(f: T -> Option<seq<U>>, s: seq<T>): (r: Option<seq<U>>)
    ensures r.Some? <==> forall t :: t in s ==> f(t).Some?
  {
    if s == [] then Some([])
    else
      var head, tail := f(s[0]), TryFlatMap(f, s[1..]);
      assert forall t | t in s :: t == s[0] || t in s[1..];
      if head.Some? && tail.Some? then Some(head.value + tail.value) else None
  }

  lemma {:induction false} TryFlatMapAppend<T, U>(f: T -> Option<seq<U>>, a: seq<T>, b: seq<T>)
    requires TryFlatMap(f, a).Some? && TryFlatMap(f, b).Some?
    ensures TryFlatMap(f, a + b) == Some(TryFlatMap(f, a).value + TryFlatMap(f, b).value)
  {
    if a == [] {
      assert a + b == b;
      TryFlatMapNone(f, a);
      hide TryFlatMap;
      assert [] + TryFlatMap(f, b).value == TryFlatMap(f, b).value;
    } else {
      assert a[0] in a && forall t :: t in a[1..] ==> t in a;
      TryFlatMapCons(f, a);
      hide TryFlatMap;
      TryFlatMapAppend(f, a[1..], b);
      assert (a + b)[1..] == a[1..] + b && (a + b)[0] == a[0];
      TryFlatMapCons(f, a + b);
      AppendAssoc(f(a[0]).value, TryFlatMap(f, a[1..]).value, TryFlatMap(f, b).value);
    }
  }

  lemma TryFlatMapCons<T, U>(f: T -> Option<seq<U>>, s: seq<T>)
    requires s != [] && f(s[0]).Some? && TryFlatMap(f, s[1..]).Some?
    ensures TryFlatMap(f, s) == Some(f(s[0]).value + TryFlatMap(f, s[1..]).value)
  {
  }

  lemma TryFlatMapNone<T, U>(f: T -> Option<seq<U>>, s: seq<T>)
    requires s == []
    ensures TryFlatMap(f, s) == Some([])
  {
  }

  lemma AppendAssoc<U>(a: seq<U>, b: seq<U>, c: seq<U>)
    ensures a + (b + c) == (a + b) + c
  {
  }

  lemma TryFlatMapOne<T, U>(f: T -> Option<seq<U>>, t: T)
    requires f(t).Some?
    ensures TryFlatMap(f, [t]) == Some(f(t).value)
  {
    var empty: seq<T> := [t][1..];
    assert TryFlatMap(f, empty).value == [];
    assert f(t).value + [] == f(t).value;
  }

  lemma {:induction false} TryFlatMapMembers<T, U>(f: T -> Option<seq<U>>, s: seq<T>, x: U)
    requires TryFlatMap(f, s).Some?
    ensures x in TryFlatMap(f, s).value <==> exists t :: t in s && x in f(t).value
  {
    if s != [] {
      TryFlatMapMembers(f, s[1..], x);
      assert forall t :: t in s <==> t == s[0] || t in s[1..];
    }
  }
}
