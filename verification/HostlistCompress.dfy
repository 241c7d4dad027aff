/**
 Compress of internal/pkg/hostlist/hostlist.go, and the law that makes it the
 inverse of Expand.
 */
module HostlistCompress {
  import opened Text
  import opened Decimal
  import opened HostlistExpand
  import opened Hostlist

  // ----- Names and their group keys ------------------------------------------

  /** Where the trailing digit run of a name starts. */
  function DigitStart(id: string): (i: nat)
    ensures i <= |id| && AllDigits(id[i..])
    ensures i > 0 ==> !IsDigitChar(id[i - 1])
  {
    if id == [] || !IsDigitChar(id[|id| - 1]) then |id|
    else
      var n := |id| - 1;
      var i := DigitStart(id[..n]);
      assert id[i..] == id[..n][i..] + [id[n]];
      i
  }

  /** Names are collected by kind: a plain name, or a prefix and a digit width. */
  datatype Kind = Plain(name: string) | Numbered(prefix: string, width: nat)

  function KindOf(id: string): (k: Kind)
    ensures k.Numbered? ==> k.width > 0
  {
    var i := DigitStart(id);
    if i == |id| then Plain(id) else Numbered(id[..i], |id| - i)
  }

  function DigitsOf(id: string): (s: string)
    ensures AllDigits(s)
  {
    id[DigitStart(id)..]
  }

  /** The map key Compress builds with a NUL byte. */
  function KeyOf(k: Kind): string {
    match k
    case Plain(name) => "\0" + name
    case Numbered(prefix, width) => prefix + "\0" + Itoa(width)
  }

  lemma {:induction false} DigitStartIs(s: string, i: nat)
    requires i <= |s| && AllDigits(s[i..]) && (i > 0 ==> !IsDigitChar(s[i - 1]))
    ensures DigitStart(s) == i
  {
    hide DigitStart, IsDigitChar;
    var k := DigitStart(s);
    assert forall j :: i <= j < |s| ==> s[j] == s[i..][j - i];
    assert forall j :: k <= j < |s| ==> s[j] == s[k..][j - k];
  }

  lemma NumberedKey(id: string)
    requires KindOf(id).Numbered?
    ensures var key := KeyOf(KindOf(id));
            && DigitStart(key) == |KindOf(id).prefix| + 1 < |key|
            && key[DigitStart(key)..] == Itoa(KindOf(id).width)
            && key[..DigitStart(key) - 1] == KindOf(id).prefix
  {
    var k := KindOf(id);
    var key := KeyOf(k);
    var i := |k.prefix| + 1;
    assert key[i..] == Itoa(k.width) && key[i - 1] == '\0';
    DigitStartIs(key, i);
  }

  lemma PlainKey(id: string)
    requires KindOf(id).Plain?
    ensures DigitStart(KeyOf(KindOf(id))) == |KeyOf(KindOf(id))|
  {
    var key := "\0" + id;
    assert key[|key| - 1] == if id == [] then '\0' else id[|id| - 1];
    assert key[|key|..] == [];
    DigitStartIs(key, |key|);
  }

  /** Two names share a key only when they share a kind, NUL bytes in names included. */
  lemma KeyInjective(a: string, b: string)
    requires KeyOf(KindOf(a)) == KeyOf(KindOf(b))
    ensures KindOf(a) == KindOf(b)
  {
    if KindOf(a).Numbered? { NumberedKey(a); } else { PlainKey(a); }
    if KindOf(b).Numbered? { NumberedKey(b); } else { PlainKey(b); }
    if KindOf(a).Numbered? && KindOf(b).Numbered? {
      ToNatOfItoa(KindOf(a).width);
      ToNatOfItoa(KindOf(b).width);
    } else if KindOf(a).Plain? && KindOf(b).Plain? {
      assert KeyOf(KindOf(a))[1..] == a && KeyOf(KindOf(b))[1..] == b;
    }
  }

  // ----- The text of one group -----------------------------------------------

  function RunText(first: nat, last: nat, width: nat): string {
    if first == last then Pad(first, width) else Pad(first, width) + "-" + Pad(last, width)
  }

  /** Consecutive numbers collapse into runs; `first`..`last` is the run being built. */
  function Runs(first: nat, last: nat, rest: seq<nat>, width: nat): (r: seq<string>)
    ensures |r| >= 1
    decreases |rest|
  {
    if rest == [] then [RunText(first, last, width)]
    else if rest[0] == last + 1 then Runs(first, rest[0], rest[1..], width)
    else [RunText(first, last, width)] + Runs(rest[0], rest[0], rest[1..], width)
  }

  function PartText(k: Kind, nums: seq<nat>): string
    requires k.Numbered? ==> nums != []
  {
    match k
    case Plain(name) => name
    case Numbered(prefix, width) =>
      if |nums| == 1 then prefix + Pad(nums[0], width)
      else prefix + "[" + Join(Runs(nums[0], nums[0], nums[1..], width), ",") + "]"
  }

  /** `sort.Ints`. */
  function SortNats(s: seq<nat>): (r: seq<nat>)
    ensures |r| == |s|
  {
    var r := SortBy((a: nat, b: nat) => a <= b, s);
    assert |multiset(r)| == |multiset(s)|;
    r
  }

  /** The numbers collected for one kind, in the order of the names. */
  function NumsOf(ids: seq<string>, k: Kind): seq<nat> {
    if ids == [] then []
    else
      var n := |ids| - 1;
      NumsOf(ids[..n], k) + (if k.Numbered? && KindOf(ids[n]) == k then [ToInt(DigitsOf(ids[n]))] else [])
  }

  lemma {:induction false} NumsOfMembers(ids: seq<string>, k: Kind, x: nat)
    requires k.Numbered?
    ensures x in NumsOf(ids, k) <==> exists id :: id in ids && KindOf(id) == k && ToInt(DigitsOf(id)) == x
  {
    hide KindOf, DigitsOf, ToInt;
    if ids != [] {
      var n := |ids| - 1;
      NumsOfMembers(ids[..n], k, x);
      assert forall id :: id in ids <==> id in ids[..n] || id == ids[n];
    }
  }

  function KindsOf(ids: seq<string>): (r: seq<Kind>)
    ensures |r| == |ids|
    ensures forall i :: 0 <= i < |ids| ==> r[i] == KindOf(ids[i])
  {
    seq(|ids|, i requires 0 <= i < |ids| => KindOf(ids[i]))
  }

  /** The kinds in order of first appearance. */
  function Order(ids: seq<string>): seq<Kind> {
    Dedupe(KindsOf(ids))
  }

  function PartOf(ids: seq<string>, k: Kind): string {
    var nums := SortNats(NumsOf(ids, k));
    if k.Numbered? && nums == [] then "" else PartText(k, nums)
  }

  function Parts(ids: seq<string>): seq<string> {
    var order := Order(ids);
    seq(|order|, i requires 0 <= i < |order| => PartOf(ids, order[i]))
  }

  /** The value of `Compress`. */
  function Compressed(ids: seq<string>): string {
    Join(Parts(ids), ",")
  }

  lemma OrderMembers(ids: seq<string>, k: Kind)
    ensures k in Order(ids) <==> exists id :: id in ids && KindOf(id) == k
  {
    hide KindOf;
    var ks := KindsOf(ids);
    assert k in Order(ids) <==> k in Elements(Order(ids));
    assert k in ks <==> k in Elements(ks);
    if k in ks {
      var i :| 0 <= i < |ks| && ks[i] == k;
      assert ids[i] in ids;
    }
    if id :| id in ids && KindOf(id) == k {
      var i :| 0 <= i < |ids| && ids[i] == id;
      assert ks[i] == k;
    }
  }

  // ----- What a group's text expands to --------------------------------------

  predicate Narrow(n: nat, width: nat) {
    |Pad(n, width)| == width && n < MAX_INT
  }

  lemma {:induction false} NameRangeMembers(first: nat, last: int, width: nat, x: string)
    ensures x in NameRange(first, last, width) <==> exists n: nat :: first <= n <= last && x == Pad(n, width)
    decreases last + 1 - first
  {
    hide Pad;
    if first <= last {
      NameRangeMembers(first + 1, last, width, x);
    }
  }

  lemma RunTextItems(first: nat, last: nat, width: nat)
    requires first <= last && Narrow(first, width) && last < MAX_INT
    ensures RangeItems(RunText(first, last, width)) == Some(NameRange(first, last, width))
    ensures RangeFits(RunText(first, last, width))
    ensures ',' !in RunText(first, last, width) && Bracketless(RunText(first, last, width))
  {
    hide Pad, ToNat, Split;
    var a, b := Pad(first, width), Pad(last, width);
    ToNatOfPad(first, width);
    ToNatOfPad(last, width);
    if first == last {
      SplitNone(a, '-');
      assert NameRange(first, last, width) == [a];
    } else {
      SplitCons(a, b, '-');
      SplitNone(b, '-');
      assert Split(a + "-" + b, '-') == [a, b];
    }
  }

  /** The runs of a number list name exactly the numbers of the list. */
  lemma {:induction false} RunsItems(first: nat, last: nat, rest: seq<nat>, width: nat)
    requires first <= last < MAX_INT && Narrow(first, width)
    requires forall n :: n in rest ==> Narrow(n, width)
    ensures forall r :: r in Runs(first, last, rest, width) ==>
              RangeItems(r).Some? && RangeFits(r) && ',' !in r && Bracketless(r)
    ensures forall x :: x in TryFlatMap(RangeItems, Runs(first, last, rest, width)).value <==>
              exists n: nat :: (first <= n <= last || n in rest) && x == Pad(n, width)
    decreases |rest|
  {
    hide RangeItems, RangeFits, RunText, Pad, Narrow;
    var runs := Runs(first, last, rest, width);
    if rest == [] {
      RunTextItems(first, last, width);
      assert runs == [RunText(first, last, width)];
      TryFlatMapOne(RangeItems, RunText(first, last, width));
      forall x ensures x in TryFlatMap(RangeItems, runs).value <==>
                       exists n: nat :: (first <= n <= last || n in rest) && x == Pad(n, width)
      {
        NameRangeMembers(first, last, width, x);
      }
    } else if rest[0] == last + 1 {
      assert Narrow(rest[0], width) ==> rest[0] < MAX_INT by { NarrowBound(rest[0], width); }
      RunsItems(first, rest[0], rest[1..], width);
      assert forall n: nat :: (first <= n <= last || n in rest) <==> (first <= n <= rest[0] || n in rest[1..]);
    } else {
      RunsStep(first, last, rest, width);
    }
  }

  lemma NarrowBound(n: nat, width: nat)
    requires Narrow(n, width)
    ensures n < MAX_INT
  {
  }

  lemma RunsStep(first: nat, last: nat, rest: seq<nat>, width: nat)
    requires first <= last < MAX_INT && Narrow(first, width) && rest != [] && rest[0] != last + 1
    requires forall n :: n in rest ==> Narrow(n, width)
    ensures forall r :: r in Runs(first, last, rest, width) ==>
              RangeItems(r).Some? && RangeFits(r) && ',' !in r && Bracketless(r)
    ensures forall x :: x in TryFlatMap(RangeItems, Runs(first, last, rest, width)).value <==>
              exists n: nat :: (first <= n <= last || n in rest) && x == Pad(n, width)
    decreases |rest|, 0
  {
    hide RangeItems, RangeFits, RunText, Pad, Narrow;
    var head := RunText(first, last, width);
    var tail := Runs(rest[0], rest[0], rest[1..], width);
    RunTextItems(first, last, width);
    NarrowBound(rest[0], width);
    RunsItems(rest[0], rest[0], rest[1..], width);
    TryFlatMapOne(RangeItems, head);
    TryFlatMapAppend(RangeItems, [head], tail);
    forall x ensures x in TryFlatMap(RangeItems, [head] + tail).value <==>
                     exists n: nat :: (first <= n <= last || n in rest) && x == Pad(n, width)
    {
      NameRangeMembers(first, last, width, x);
      assert forall n: nat :: n in rest <==> (rest[0] <= n <= rest[0] || n in rest[1..]);
    }
  }

  /** Names the law is promised for: no list syntax, and a number the machine holds. */
  predicate Ordinary(id: string) {
    ',' !in id && Bracketless(id) && ToNat(DigitsOf(id)) < MAX_INT
  }

  /** A numbered name is its prefix followed by its padded number. */
  lemma NameRebuilt(id: string)
    requires Ordinary(id) && KindOf(id).Numbered?
    ensures var k, n := KindOf(id), ToInt(DigitsOf(id));
            id == k.prefix + Pad(n, k.width) && Narrow(n, k.width) && ',' !in k.prefix && Bracketless(k.prefix)
  {
    var i := DigitStart(id);
    PadOfToNat(id[i..]);
    assert id == id[..i] + id[i..];
  }

  lemma {:induction false} JoinBracketless(parts: seq<string>)
    requires forall p :: p in parts ==> Bracketless(p)
    ensures Bracketless(Join(parts, ","))
  {
    assert parts == [] || parts[0] in parts;
    if |parts| > 1 {
      JoinBracketless(parts[1..]);
    }
  }

  /** The anatomy of `prefix[content]`. */
  lemma BracketToken(prefix: string, content: string)
    requires Bracketless(prefix) && Bracketless(content)
    ensures var h := prefix + "[" + content + "]";
            Expandable(h) && Before(h) == prefix && Inside(h) == content && After(h) == ""
  {
    hide Index;
    var h := prefix + "[" + content + "]";
    assert h[..|prefix|] == prefix;
    IndexIs(h, '[', |prefix|);
    var j := |prefix| + 1 + |content|;
    assert h[..j] == prefix + "[" + content;
    IndexIs(h, ']', j);
    assert h[|prefix| + 1..j] == content;
  }

  lemma GroupCross(prefix: string, runs: seq<string>)
    requires Bracketless(prefix) && runs != []
    requires forall r :: r in runs ==> RangeItems(r).Some? && RangeFits(r) && ',' !in r && Bracketless(r)
    ensures var h := prefix + "[" + Join(runs, ",") + "]";
            && FirstBad(h).None? && Fits(h)
            && forall x :: x in Cross(h) <==>
                 exists d :: d in TryFlatMap(RangeItems, runs).value && x == prefix + d
  {
    var content := Join(runs, ",");
    var h := prefix + "[" + content + "]";
    hide RangeItems, RangeFits, Join, Split, Before, Inside, After, Expandable;
    JoinBracketless(runs);
    BracketToken(prefix, content);
    SplitJoin(runs, ',');
    var items := TryFlatMap(RangeItems, runs).value;
    EmptyToken();
    assert Items(h) == Some(items);
    forall x ensures x in Cross(h) <==> exists d :: d in items && x == prefix + d {
      ProductMembers(prefix, items, [""], x);
      assert forall d: string :: prefix + d + "" == prefix + d;
      if d :| d in items && x == prefix + d { assert "" in [""]; }
    }
  }

  lemma EmptyToken()
    ensures !Expandable("") && Cross("") == [""] && FirstBad("").None? && Fits("")
  {
  }

  /** A token without brackets stands for itself. */
  lemma PlainToken(h: string)
    requires Bracketless(h)
    ensures Cross(h) == [h] && FirstBad(h).None? && Fits(h)
  {
  }

  lemma SortNatsMembers(s: seq<nat>, x: nat)
    ensures x in SortNats(s) <==> x in s
  {
    SortByMembers((a: nat, b: nat) => a <= b, s, x);
  }

  /** The numbers of one kind, sorted: nonempty, printable, and back to their names. */
  lemma GroupNumbers(ids: seq<string>, k: Kind)
    requires k.Numbered? && k in Order(ids) && forall id :: id in ids ==> Ordinary(id)
    ensures SortNats(NumsOf(ids, k)) != [] && Bracketless(k.prefix) && ',' !in k.prefix
    ensures forall n :: n in SortNats(NumsOf(ids, k)) ==> Narrow(n, k.width)
    ensures forall x :: (x in ids && KindOf(x) == k) <==>
              exists n :: n in SortNats(NumsOf(ids, k)) && x == k.prefix + Pad(n, k.width)
  {
    hide KindOf, Order, SortNats, NumsOf, Pad, Narrow, Ordinary, DigitsOf, ToInt;
    var nums := SortNats(NumsOf(ids, k));
    OrderMembers(ids, k);
    var one :| one in ids && KindOf(one) == k;
    NameRebuilt(one);
    forall x | x in ids && KindOf(x) == k
      ensures ToInt(DigitsOf(x)) in nums && x == k.prefix + Pad(ToInt(DigitsOf(x)), k.width)
    {
      NameRebuilt(x);
      NumsOfMembers(ids, k, ToInt(DigitsOf(x)));
      SortNatsMembers(NumsOf(ids, k), ToInt(DigitsOf(x)));
    }
    forall n | n in nums
      ensures Narrow(n, k.width)
      ensures exists id :: id in ids && KindOf(id) == k && id == k.prefix + Pad(n, k.width)
    {
      SortNatsMembers(NumsOf(ids, k), n);
      NumsOfMembers(ids, k, n);
      var id :| id in ids && KindOf(id) == k && ToInt(DigitsOf(id)) == n;
      NameRebuilt(id);
    }
  }

  /** One part of the compressed text stands for exactly the names of its kind. */
  lemma PartCross(ids: seq<string>, k: Kind)
    requires k in Order(ids) && forall id :: id in ids ==> Ordinary(id)
    ensures FirstBad(PartOf(ids, k)).None? && Fits(PartOf(ids, k))
    ensures forall x :: x in Cross(PartOf(ids, k)) <==> x in ids && KindOf(x) == k
  {
    if k.Plain? {
      PlainPartCross(ids, k);
    } else {
      GroupNumbers(ids, k);
      var nums := SortNats(NumsOf(ids, k));
      if |nums| == 1 {
        SingleNumberCross(ids, k);
      } else {
        RunsCross(ids, k);
      }
    }
  }

  lemma PlainPartCross(ids: seq<string>, k: Kind)
    requires k.Plain? && k in Order(ids) && forall id :: id in ids ==> Ordinary(id)
    ensures FirstBad(PartOf(ids, k)).None? && Fits(PartOf(ids, k))
    ensures forall x :: x in Cross(PartOf(ids, k)) <==> x in ids && KindOf(x) == k
  {
    OrderMembers(ids, k);
    hide Order, Cross, FirstBad, Fits, DigitsOf;
    var one :| one in ids && KindOf(one) == k;
    PlainToken(one);
  }

  lemma SingleNumberCross(ids: seq<string>, k: Kind)
    requires k.Numbered? && k in Order(ids) && forall id :: id in ids ==> Ordinary(id)
    requires |SortNats(NumsOf(ids, k))| == 1
    ensures FirstBad(PartOf(ids, k)).None? && Fits(PartOf(ids, k))
    ensures forall x :: x in Cross(PartOf(ids, k)) <==> x in ids && KindOf(x) == k
  {
    hide *;
    var nums := SortNats(NumsOf(ids, k));
    var name := k.prefix + Pad(nums[0], k.width);
    PartOfSingle(ids, k);
    GroupNumbers(ids, k);
    assert nums == [nums[0]];
    BracketlessName(k.prefix, nums[0], k.width);
    PlainToken(name);
    forall x ensures x in [name] <==> x in ids && KindOf(x) == k {
      if x in ids && KindOf(x) == k {
        var n :| n in nums && x == k.prefix + Pad(n, k.width);
        assert n == nums[0];
      }
      if x == name { assert nums[0] in nums; }
    }
  }

  lemma PartOfSingle(ids: seq<string>, k: Kind)
    requires k.Numbered? && |SortNats(NumsOf(ids, k))| == 1
    ensures PartOf(ids, k) == k.prefix + Pad(SortNats(NumsOf(ids, k))[0], k.width)
  {
    hide SortNats, NumsOf, Pad;
  }

  lemma BracketlessName(prefix: string, n: nat, width: nat)
    requires Bracketless(prefix)
    ensures Bracketless(prefix + Pad(n, width))
  {
    hide Pad;
  }

  /** A bracket group of runs stands for the numbers it was made from. */
  lemma RunsNames(prefix: string, nums: seq<nat>, width: nat)
    requires nums != [] && Bracketless(prefix) && forall n :: n in nums ==> Narrow(n, width)
    ensures var h := prefix + "[" + Join(Runs(nums[0], nums[0], nums[1..], width), ",") + "]";
            && FirstBad(h).None? && Fits(h)
            && forall x :: x in Cross(h) <==> exists n :: n in nums && x == prefix + Pad(n, width)
  {
    hide *;
    var first, rest := nums[0], nums[1..];
    NarrowBound(first, width);
    RunsItems(first, first, rest, width);
    var runs := Runs(first, first, rest, width);
    GroupCross(prefix, runs);
    var h := prefix + "[" + Join(runs, ",") + "]";
    var items := TryFlatMap(RangeItems, runs).value;
    assert forall n: nat :: n in nums <==> (first <= n <= first || n in rest);
    forall x ensures x in Cross(h) <==> exists n :: n in nums && x == prefix + Pad(n, width) {
      if d :| d in items && x == prefix + d {
        var n: nat :| (first <= n <= first || n in rest) && d == Pad(n, width);
        assert n in nums && x == prefix + Pad(n, width);
      }
      if n :| n in nums && x == prefix + Pad(n, width) {
        assert Pad(n, width) in items;
      }
    }
  }

  lemma RunsCross(ids: seq<string>, k: Kind)
    requires k.Numbered? && k in Order(ids) && forall id :: id in ids ==> Ordinary(id)
    requires |SortNats(NumsOf(ids, k))| > 1
    ensures FirstBad(PartOf(ids, k)).None? && Fits(PartOf(ids, k))
    ensures forall x :: x in Cross(PartOf(ids, k)) <==> x in ids && KindOf(x) == k
  {
    GroupNumbers(ids, k);
    hide Order, Cross, FirstBad, Fits, KindOf, Pad, Ordinary, SortNats, NumsOf, Narrow, Runs, Join;
    RunsNames(k.prefix, SortNats(NumsOf(ids, k)), k.width);
  }

  // ----- Splitting the text back into parts ----------------------------------

  /** Bracket-free text is passed over unchanged. */
  lemma {:induction false} SplitPlain(p: string, rest: string, depth: nat)
    requires Bracketless(p) && (depth > 0 || ',' !in p)
    ensures SplitFrom(p + rest, depth) == Attach(p, SplitFrom(rest, depth))
  {
    if p == [] {
      assert p + rest == rest;
      AttachEmpty(SplitFrom(rest, depth));
    } else {
      assert (p + rest)[1..] == p[1..] + rest;
      SplitPlain(p[1..], rest, depth);
      AttachAttach([p[0]], p[1..], SplitFrom(rest, depth));
      assert [p[0]] + p[1..] == p;
    }
  }

  /** A part that ends at bracket depth zero without a comma outside brackets. */
  ghost predicate Closed(p: string) {
    forall rest: string :: SplitFrom(p + rest, 0) == Attach(p, SplitFrom(rest, 0))
  }

  lemma GroupClosed(prefix: string, content: string)
    requires Bracketless(prefix) && ',' !in prefix && Bracketless(content)
    ensures Closed(prefix + "[" + content + "]")
  {
    var p := prefix + "[" + content + "]";
    forall rest: string ensures SplitFrom(p + rest, 0) == Attach(p, SplitFrom(rest, 0)) {
      var r3 := "]" + rest;
      var r2 := content + r3;
      var r1 := "[" + r2;
      assert p + rest == prefix + r1;
      SplitPlain(prefix, r1, 0);
      assert r1[1..] == r2 && r3[1..] == rest;
      SplitPlain(content, r3, 1);
      AttachAttach(content, "]", SplitFrom(rest, 0));
      AttachAttach("[", content + "]", SplitFrom(rest, 0));
      AttachAttach(prefix, "[" + (content + "]"), SplitFrom(rest, 0));
      assert prefix + ("[" + (content + "]")) == p;
    }
  }

  lemma PartClosed(ids: seq<string>, k: Kind)
    requires k in Order(ids) && forall id :: id in ids ==> Ordinary(id)
    ensures Closed(PartOf(ids, k))
  {
    hide Order, KindOf, SortNats, NumsOf, Runs, Join, RangeItems, RangeFits, Narrow, Pad;
    OrderMembers(ids, k);
    if k.Plain? {
      var one :| one in ids && KindOf(one) == k;
      KindPlain(one);
      forall rest: string { SplitPlain(one, rest, 0); }
    } else {
      GroupNumbers(ids, k);
      var nums := SortNats(NumsOf(ids, k));
      if |nums| == 1 {
        forall rest: string { SplitPlain(k.prefix + Pad(nums[0], k.width), rest, 0); }
      } else {
        NarrowBound(nums[0], k.width);
        RunsItems(nums[0], nums[0], nums[1..], k.width);
        JoinBracketless(Runs(nums[0], nums[0], nums[1..], k.width));
        GroupClosed(k.prefix, Join(Runs(nums[0], nums[0], nums[1..], k.width), ","));
      }
    }
  }

  lemma KindPlain(id: string)
    requires KindOf(id).Plain?
    ensures KindOf(id) == Plain(id)
  {
  }

  lemma {:induction false} SplitJoined(parts: seq<string>)
    requires parts != [] && forall p :: p in parts ==> Closed(p)
    ensures TopLevelParts(Join(parts, ",")) == parts
  {
    hide Closed;
    var p := parts[0];
    if |parts| == 1 {
      ClosedUse(p, "");
      assert p + "" == p;
      assert Attach(p, [""]) == [p];
    } else {
      var rest := Join(parts[1..], ",");
      SplitJoined(parts[1..]);
      ClosedUse(p, "," + rest);
      assert p + "," + rest == p + ("," + rest);
      assert ("," + rest)[1..] == rest;
      assert p + "" == p;
    }
  }

  lemma ClosedUse(p: string, rest: string)
    requires Closed(p)
    ensures SplitFrom(p + rest, 0) == Attach(p, SplitFrom(rest, 0))
  {
  }

  // ----- Compress and Expand are inverse -------------------------------------

  lemma PartsSplit(ids: seq<string>)
    requires ids != [] && forall id :: id in ids ==> Ordinary(id)
    ensures PreList([Compressed(ids)]) == Parts(ids)
  {
    hide KindOf, PartOf, Closed, TopLevelParts, Ordinary, Join;
    var parts, order := Parts(ids), Order(ids);
    FlatMapOne(TopLevelParts, Compressed(ids));
    OrderMembers(ids, KindOf(ids[0]));
    assert order != [];
    forall p | p in parts ensures Closed(p) {
      var i :| 0 <= i < |parts| && parts[i] == p;
      PartClosed(ids, order[i]);
    }
    SplitJoined(parts);
  }

  lemma PartsSound(ids: seq<string>, p: string)
    requires p in Parts(ids) && forall id :: id in ids ==> Ordinary(id)
    ensures FirstBad(p).None? && Fits(p)
    ensures forall x :: x in Cross(p) ==> x in ids
  {
    hide PartOf, Order, Ordinary, FirstBad, Fits, Cross;
    var i :| 0 <= i < |Order(ids)| && Parts(ids)[i] == p;
    PartCross(ids, Order(ids)[i]);
  }

  lemma PartsComplete(ids: seq<string>, x: string) returns (p: string)
    requires x in ids && forall id :: id in ids ==> Ordinary(id)
    ensures p in Parts(ids) && x in Cross(p)
  {
    hide PartOf, Order, Ordinary, Cross;
    OrderMembers(ids, KindOf(x));
    var i :| 0 <= i < |Order(ids)| && Order(ids)[i] == KindOf(x);
    PartCross(ids, Order(ids)[i]);
    p := Parts(ids)[i];
  }

  /** The compressed text expands, before group lookup, to exactly the given names. */
  lemma CompressedRounds(ids: seq<string>)
    requires ids != [] && forall id :: id in ids ==> Ordinary(id)
    ensures forall t :: t in PreList([Compressed(ids)]) ==> Fits(t)
    ensures forall x :: x in Rounds(PreList([Compressed(ids)])) <==> x in ids
  {
    hide *;
    PartsSplit(ids);
    var parts := Parts(ids);
    forall p | p in parts ensures FirstBad(p).None? && Fits(p) {
      PartsSound(ids, p);
    }
    WellFormedRounds(parts);
    forall x ensures x in FlatMap(Cross, parts) <==> x in ids {
      FlatMapMembers(Cross, parts, x);
      if p :| p in parts && x in Cross(p) {
        PartsSound(ids, p);
      }
      if x in ids {
        var p := PartsComplete(ids, x);
      }
    }
  }

  /** Plain names are tokens that no round changes. */
  lemma {:induction false} OrdinaryPreList(ids: seq<string>)
    requires forall id :: id in ids ==> Ordinary(id)
    ensures PreList(ids) == ids
  {
    hide TopLevelParts;
    if ids != [] {
      OrdinaryPreList(ids[1..]);
      OrdinaryParts(ids[0]);
      assert ids == [ids[0]] + ids[1..];
    }
  }

  lemma OrdinaryParts(id: string)
    requires Ordinary(id)
    ensures TopLevelParts(id) == [id]
  {
    SplitPlain(id, "", 0);
    assert id + "" == id;
  }

  lemma OrdinaryRounds(ids: seq<string>)
    requires forall id :: id in ids ==> Ordinary(id)
    ensures Rounds(PreList(ids)) == ids
  {
    OrdinaryPreList(ids);
    hide PreList, Load, Expandable;
    forall h | h in ids ensures Load(h) == 0 {
      OrdinaryLoad(h);
    }
  }

  lemma OrdinaryLoad(h: string)
    requires Ordinary(h)
    ensures Load(h) == 0
  {
  }

  lemma SameTokensSameNames(resolver: Resolver, a: seq<string>, b: seq<string>)
    requires forall x :: x in a <==> x in b
    ensures Elements(Dedupe(ResolveAll(resolver, a))) == Elements(Dedupe(ResolveAll(resolver, b)))
  {
    hide ResolveAll, Dedupe;
    forall x ensures x in ResolveAll(resolver, a) <==> x in ResolveAll(resolver, b) {
      ResolveAllMembers(resolver, a, x);
      ResolveAllMembers(resolver, b, x);
    }
  }

  /**
   Compressing a list loses nothing that Expand can see: group references
   included, the compressed text names the same nodes, each once.
   */
  lemma CompressKeepsMeaning(resolver: Resolver, ids: seq<string>)
    requires ids != [] && forall id :: id in ids ==> Ordinary(id)
    ensures Elements(Expanded(resolver, [Compressed(ids)])) == Elements(Expanded(resolver, ids))
    ensures Distinct(Expanded(resolver, [Compressed(ids)]))
  {
    hide Rounds, PreList, Ordinary;
    CompressedRounds(ids);
    OrdinaryRounds(ids);
    SameTokensSameNames(resolver, Rounds(PreList([Compressed(ids)])), Rounds(PreList(ids)));
  }

  /** For node names proper, Expand gives back exactly the set that was compressed. */
  lemma ExpandUndoesCompress(resolver: Resolver, ids: seq<string>)
    requires ids != [] && forall id :: id in ids ==> Ordinary(id)
    requires forall id :: id in ids ==> !HasPrefix(id, GROUP_PREFIX)
    ensures Elements(Expanded(resolver, [Compressed(ids)])) == Elements(ids)
    ensures Distinct(Expanded(resolver, [Compressed(ids)]))
  {
    hide Rounds, PreList, Ordinary;
    CompressKeepsMeaning(resolver, ids);
    OrdinaryRounds(ids);
    forall x ensures x in ResolveAll(resolver, ids) <==> x in ids {
      ResolveAllMembers(resolver, ids, x);
    }
  }

  /** With the default resolver the law holds exactly when no name is a group reference. */
  lemma UndoneExactlyWithoutGroups(ids: seq<string>)
    requires ids != [] && forall id :: id in ids ==> Ordinary(id)
    ensures Elements(Expanded(_ => [], [Compressed(ids)])) == Elements(ids) <==>
            forall id :: id in ids ==> !HasPrefix(id, GROUP_PREFIX)
  {
    hide Rounds, PreList, Ordinary, Compressed;
    var none: Resolver := _ => [];
    CompressKeepsMeaning(none, ids);
    OrdinaryRounds(ids);
    if id :| id in ids && HasPrefix(id, GROUP_PREFIX) {
      ResolveAllMembers(none, ids, id);
      assert id in Elements(ids) && id !in Elements(Expanded(none, ids));
    } else {
      ExpandUndoesCompress(none, ids);
    }
  }

  // ----- The imperative Compress ---------------------------------------------

  /** The record Compress keeps per key. */
  datatype Group = Group(prefix: string, width: nat, nums: seq<nat>, single: string, firstIdx: nat)

  function GroupOf(ids: seq<string>, k: Kind, firstIdx: nat): Group {
    match k
    case Plain(name) => Group("", 0, [], name, firstIdx)
    case Numbered(prefix, width) => Group(prefix, width, NumsOf(ids, k), "", firstIdx)
  }

  function KeysOf(kinds: seq<Kind>): (r: seq<string>)
    ensures |r| == |kinds|
    ensures forall i :: 0 <= i < |kinds| ==> r[i] == KeyOf(kinds[i])
  {
    seq(|kinds|, i requires 0 <= i < |kinds| => KeyOf(kinds[i]))
  }

  /** The map has exactly the listed keys, listed by increasing first index below `n`. */
  ghost predicate Keyed(groups: map<string, Group>, order: seq<string>, n: nat) {
    && (forall key :: key in groups <==> key in order)
    && (forall key :: key in groups ==> groups[key].firstIdx < n)
    && (forall i, j :: 0 <= i < j < |order| ==> groups[order[i]].firstIdx < groups[order[j]].firstIdx)
  }

  /** Every kind seen has its group under its key. */
  ghost predicate Held(ids: seq<string>, groups: map<string, Group>) {
    && (forall k :: k in Order(ids) ==> KeyOf(k) in groups)
    && (forall k :: k in Order(ids) ==> groups[KeyOf(k)] == GroupOf(ids, k, groups[KeyOf(k)].firstIdx))
  }

  /** The map and the key list hold one group per kind seen, in order of appearance. */
  ghost predicate Grouped(ids: seq<string>, groups: map<string, Group>, order: seq<string>) {
    order == KeysOf(Order(ids)) && Keyed(groups, order, |ids|) && Held(ids, groups)
  }

  lemma OrderSnoc(ids: seq<string>, id: string)
    ensures Order(ids + [id]) == if KindOf(id) in Order(ids) then Order(ids) else Order(ids) + [KindOf(id)]
  {
    var ks := KindsOf(ids);
    assert KindsOf(ids + [id]) == ks + [KindOf(id)];
    assert (ks + [KindOf(id)])[..|ks|] == ks;
  }

  lemma NumsOfSnoc(ids: seq<string>, id: string, k: Kind)
    ensures NumsOf(ids + [id], k) ==
            NumsOf(ids, k) + (if k.Numbered? && KindOf(id) == k then [ToInt(DigitsOf(id))] else [])
  {
    assert (ids + [id])[..|ids|] == ids;
  }

  lemma NumsOfUnseen(ids: seq<string>, k: Kind)
    requires k.Numbered? && k !in Order(ids)
    ensures NumsOf(ids, k) == []
  {
    if NumsOf(ids, k) != [] {
      NumsOfMembers(ids, k, NumsOf(ids, k)[0]);
      OrderMembers(ids, k);
    }
  }

  /** Kinds of listed names have distinct keys. */
  lemma KeysDistinct(ids: seq<string>, a: Kind, b: Kind)
    requires a in Order(ids) && b in Order(ids) && KeyOf(a) == KeyOf(b)
    ensures a == b
  {
    OrderMembers(ids, a);
    OrderMembers(ids, b);
    var x :| x in ids && KindOf(x) == a;
    var y :| y in ids && KindOf(y) == b;
    KeyInjective(x, y);
  }

  lemma GroupOfSnoc(ids: seq<string>, id: string, k: Kind, firstIdx: nat)
    ensures KindOf(id) != k ==> GroupOf(ids + [id], k, firstIdx) == GroupOf(ids, k, firstIdx)
    ensures KindOf(id) == k && k.Plain? ==> GroupOf(ids + [id], k, firstIdx) == GroupOf(ids, k, firstIdx)
    ensures KindOf(id) == k && k.Numbered? ==>
              var g := GroupOf(ids, k, firstIdx);
              GroupOf(ids + [id], k, firstIdx) == g.(nums := g.nums + [ToInt(DigitsOf(id))])
  {
    NumsOfSnoc(ids, id, k);
  }

  lemma GroupedOld(ids: seq<string>, groups: map<string, Group>, order: seq<string>, id: string)
    requires Grouped(ids, groups, order) && KindOf(id) in Order(ids)
    ensures KeyOf(KindOf(id)) in groups
    ensures var k := KindOf(id);
            Grouped(ids + [id], groups[KeyOf(k) := GroupOf(ids + [id], k, groups[KeyOf(k)].firstIdx)], order)
  {
    hide KindOf, KeyOf, GroupOf, Order, KeysOf;
    var kind := KindOf(id);
    var key := KeyOf(kind);
    OrderSnoc(ids, id);
    var g := GroupOf(ids + [id], kind, groups[key].firstIdx);
    var groups' := groups[key := g];
    GroupOfFirst(ids + [id], kind, groups[key].firstIdx);
    forall k | k in Order(ids) ensures groups'[KeyOf(k)] == GroupOf(ids + [id], k, groups'[KeyOf(k)].firstIdx) {
      if KeyOf(k) == key {
        KeysDistinct(ids, k, kind);
      } else {
        GroupOfSnoc(ids, id, k, groups[KeyOf(k)].firstIdx);
      }
    }
  }

  lemma GroupOfFirst(ids: seq<string>, k: Kind, firstIdx: nat)
    ensures GroupOf(ids, k, firstIdx).firstIdx == firstIdx
  {
  }

  lemma NewKey(ids: seq<string>, groups: map<string, Group>, order: seq<string>, id: string)
    requires Grouped(ids, groups, order) && KindOf(id) !in Order(ids)
    ensures KeyOf(KindOf(id)) !in groups
  {
    hide KindOf, KeyOf, GroupOf, Order;
    var kind := KindOf(id);
    OrderIn(ids, id, kind);
    if KeyOf(kind) in groups {
      var i :| 0 <= i < |order| && order[i] == KeyOf(kind);
      OrderIn(ids, id, Order(ids)[i]);
      KeysDistinct(ids + [id], Order(ids)[i], kind);
    }
  }

  /** A new key goes last, with an index above all others. */
  lemma KeyedNew(groups: map<string, Group>, order: seq<string>, key: string, g: Group)
    requires Keyed(groups, order, g.firstIdx) && key !in groups
    ensures Keyed(groups[key := g], order + [key], g.firstIdx + 1)
  {
    assert forall i :: 0 <= i < |order| ==> order[i] in groups;
  }

  lemma HeldNew(ids: seq<string>, groups: map<string, Group>, id: string, g: Group)
    requires Held(ids, groups) && KeyOf(KindOf(id)) !in groups && g == GroupOf(ids + [id], KindOf(id), g.firstIdx)
    ensures Held(ids + [id], groups[KeyOf(KindOf(id)) := g])
  {
    hide KindOf, KeyOf, GroupOf, Order;
    var groups' := groups[KeyOf(KindOf(id)) := g];
    forall k | k in Order(ids + [id])
      ensures KeyOf(k) in groups' && groups'[KeyOf(k)] == GroupOf(ids + [id], k, groups'[KeyOf(k)].firstIdx)
    {
      OrderIn(ids, id, k);
      if k != KindOf(id) {
        GroupOfSnoc(ids, id, k, groups[KeyOf(k)].firstIdx);
      }
    }
  }

  lemma GroupedNew(ids: seq<string>, groups: map<string, Group>, order: seq<string>, id: string)
    requires Grouped(ids, groups, order) && KindOf(id) !in Order(ids)
    ensures KeyOf(KindOf(id)) !in groups
    ensures Grouped(ids + [id], groups[KeyOf(KindOf(id)) := GroupOf(ids + [id], KindOf(id), |ids|)],
                    order + [KeyOf(KindOf(id))])
  {
    hide KindOf, KeyOf, GroupOf, Order, Keyed, Held;
    var kind := KindOf(id);
    var g := GroupOf(ids + [id], kind, |ids|);
    NewKey(ids, groups, order, id);
    GroupOfFirst(ids + [id], kind, |ids|);
    KeyedNew(groups, order, KeyOf(kind), g);
    HeldNew(ids, groups, id, g);
    OrderSnoc(ids, id);
    assert KeysOf(Order(ids) + [kind]) == KeysOf(Order(ids)) + [KeyOf(kind)];
  }

  lemma OrderIn(ids: seq<string>, id: string, k: Kind)
    ensures k in Order(ids + [id]) <==> k in Order(ids) || k == KindOf(id)
  {
    OrderSnoc(ids, id);
  }

  lemma GroupedMember(ids: seq<string>, groups: map<string, Group>, order: seq<string>, id: string)
    requires Grouped(ids, groups, order)
    ensures KeyOf(KindOf(id)) in groups <==> KindOf(id) in Order(ids)
    ensures KindOf(id) in Order(ids) ==>
              var g := groups[KeyOf(KindOf(id))];
              g == GroupOf(ids, KindOf(id), g.firstIdx)
  {
    if KindOf(id) !in Order(ids) {
      GroupedNew(ids, groups, order, id);
    }
  }

  /** The backwards scan over the trailing digits of a name. */
  method ScanDigits(id: string) returns (i: nat)
    ensures i == DigitStart(id)
  {
    i := |id|;
    while i > 0 && '0' <= id[i - 1] <= '9'
      invariant i <= |id| && forall j :: i <= j < |id| ==> IsDigitChar(id[j])
    {
      i := i - 1;
    }
    DigitStartIs(id, i);
  }

  /** The first loop of Compress: collect the names under their keys. */
  method Collect(ids: seq<string>) returns (groups: map<string, Group>, order: seq<string>)
    ensures Grouped(ids, groups, order)
  {
    groups, order := map[], [];
    assert Grouped(ids[..0], groups, order);
    for idx := 0 to |ids|
      invariant Grouped(ids[..idx], groups, order)
    {
      hide *;
      assert ids[..idx + 1] == ids[..idx] + [ids[idx]];
      groups, order := CollectOne(ids[..idx], groups, order, ids[idx], idx);
    }
    assert ids[..|ids|] == ids;
  }

  method CollectOne(ghost seen: seq<string>, groups: map<string, Group>, order: seq<string>, id: string,
                    idx: nat)
    returns (groups': map<string, Group>, order': seq<string>)
    requires Grouped(seen, groups, order) && idx == |seen|
    ensures Grouped(seen + [id], groups', order')
  {
    hide Grouped, Order, KeyOf, KeysOf;
    var i := ScanDigits(id);
    var kind := if i == |id| then Plain(id) else Numbered(id[..i], |id| - i);
    var key := KeyOf(kind);
    GroupedMember(seen, groups, order, id);
    groups', order' := groups, order;
    if key !in groups {
      GroupedNew(seen, groups, order, id);
      if kind.Numbered? { NumsOfUnseen(seen, kind); }
      var g := if i == |id| then Group("", 0, [], id, idx) else Group(id[..i], |id| - i, [], "", idx);
      GroupOfSnoc(seen, id, kind, |seen|);
      if g.width > 0 {
        g := g.(nums := g.nums + [ToInt(id[i..])]);
      }
      groups', order' := groups[key := g], order + [key];
    } else {
      GroupedOld(seen, groups, order, id);
      var g := groups[key];
      GroupOfSnoc(seen, id, kind, g.firstIdx);
      if g.width > 0 {
        g := g.(nums := g.nums + [ToInt(id[i..])]);
      }
      groups' := groups[key := g];
    }
  }

  /** The order of `sort.SliceStable` over the keys: by first index. */
  function ByIndex(groups: map<string, Group>): (string, string) -> bool {
    (a: string, b: string) => a in groups && b in groups && groups[a].firstIdx <= groups[b].firstIdx
  }

  /** The run loop with its `flush` closure. */
  method FormatRuns(nums: seq<nat>, width: nat) returns (ranges: seq<string>)
    requires nums != []
    ensures ranges == Runs(nums[0], nums[0], nums[1..], width)
  {
    hide RunText;
    ranges := [];
    var start, prev := nums[0], nums[0];
    for i := 1 to |nums|
      invariant ranges + Runs(start, prev, nums[i..], width) == Runs(nums[0], nums[0], nums[1..], width)
    {
      var v := nums[i];
      assert nums[i..][1..] == nums[i + 1..];
      if v == prev + 1 {
        prev := v;
        continue;
      }
      ranges := ranges + [RunText(start, prev, width)];
      start, prev := v, v;
    }
    assert nums[|nums|..] == [];
    ranges := ranges + [RunText(start, prev, width)];
  }

  /** The text of one collected group. */
  method FormatGroup(g: Group, ghost ids: seq<string>, ghost k: Kind) returns (part: string)
    requires g == GroupOf(ids, k, g.firstIdx) && k in Order(ids)
    ensures part == PartOf(ids, k)
  {
    hide Order, NumsOf, SortNats, Runs;
    if k.Numbered? { OrderNumbered(ids, k); }
    if g.width == 0 {
      part := g.single;
    } else {
      var nums := SortNats(g.nums);
      if |nums| == 1 {
        part := g.prefix + Pad(nums[0], g.width);
      } else {
        var ranges := FormatRuns(nums, g.width);
        part := g.prefix + "[" + Join(ranges, ",") + "]";
      }
    }
  }

  lemma OrderNumbered(ids: seq<string>, k: Kind)
    requires k in Order(ids) && k.Numbered?
    ensures k.width > 0 && NumsOf(ids, k) != []
  {
    OrderMembers(ids, k);
    var id :| id in ids && KindOf(id) == k;
    NumsOfMembers(ids, k, ToInt(DigitsOf(id)));
  }

  lemma GroupedAt(ids: seq<string>, groups: map<string, Group>, order: seq<string>, i: nat)
    requires Grouped(ids, groups, order) && i < |order|
    ensures |order| == |Order(ids)| && order[i] in groups && Order(ids)[i] in Order(ids)
    ensures var g := groups[order[i]]; g == GroupOf(ids, Order(ids)[i], g.firstIdx)
  {
    hide GroupOf, Order, KeyOf;
    assert Order(ids)[i] in Order(ids);
    assert order[i] == KeyOf(Order(ids)[i]);
  }

  /** Keys are met in increasing first index, so the stable sort moves nothing. */
  lemma GroupedSorted(ids: seq<string>, groups: map<string, Group>, order: seq<string>)
    requires Grouped(ids, groups, order)
    ensures |Parts(ids)| == |Order(ids)| == |order|
    ensures SortBy(ByIndex(groups), order) == order
  {
    hide Order, KeyOf, GroupOf;
    assert forall i :: 0 <= i < |order| ==> order[i] in order;
    SortByIdentity(ByIndex(groups), order);
  }

  /** The last loop of Compress: print every group in key order. */
  method Format(ids: seq<string>, groups: map<string, Group>, order: seq<string>) returns (parts: seq<string>)
    requires Grouped(ids, groups, order)
    ensures parts == Parts(ids)
  {
    hide Grouped, PartOf, Order, GroupOf;
    GroupedSorted(ids, groups, order);
    parts := [];
    for i := 0 to |order|
      invariant |parts| == i && forall j :: 0 <= j < i ==> parts[j] == PartOf(ids, Order(ids)[j])
    {
      GroupedAt(ids, groups, order, i);
      var part := FormatGroup(groups[order[i]], ids, Order(ids)[i]);
      parts := parts + [part];
    }
  }

  method Compress(ids: seq<string>) returns (text: string)
    ensures text == Compressed(ids)
  {
    hide Grouped, Parts, SortBy;
    var groups, order := Collect(ids);
    GroupedSorted(ids, groups, order);
    order := SortBy(ByIndex(groups), order);
    var parts := Format(ids, groups, order);
    text := Join(parts, ",");
  }
}
