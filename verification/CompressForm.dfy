/**
 The text that Compress prints (internal/pkg/hostlist/hostlist.go), beyond the law
 that Expand undoes it: a name alone is printed as it is, names with one prefix and
 digit width share one bracket group, the numbers in it are sorted into maximal runs,
 and the parts come in the order in which the names first call for them.
 */
module CompressForm {
  import opened Text
  import opened Decimal
  import opened HostlistExpand
  import opened Hostlist
  import opened HostlistCompress

  // ----- Runs of numbers -----------------------------------------------------

  /** The numbers from `first` to `last`. */
  datatype Run = Run(first: nat, last: nat)

  function Count(first: nat, last: nat): (r: seq<nat>)
    requires first <= last
    ensures |r| == last - first + 1 && forall i :: 0 <= i < |r| ==> r[i] == first + i
  {
    seq(last - first + 1, i requires 0 <= i => first + i)
  }

  ghost predicate Proper(runs: seq<Run>) {
    forall i :: 0 <= i < |runs| ==> runs[i].first <= runs[i].last
  }

  /** The numbers of all runs, one after the other. */
  function Numbers(runs: seq<Run>): seq<nat>
    requires Proper(runs)
  {
    if runs == [] then []
    else
      assert Proper(runs[1..]);
      Count(runs[0].first, runs[0].last) + Numbers(runs[1..])
  }

  /** One run as it is printed. */
  function Printed(run: Run, width: nat): (s: string)
    ensures run.first == run.last ==> s == Pad(run.first, width)
    ensures run.first != run.last ==> s == Pad(run.first, width) + "-" + Pad(run.last, width)
  {
    RunText(run.first, run.last, width)
  }

  lemma CountMore(first: nat, last: nat, rest: seq<nat>)
    requires first <= last
    ensures Count(first, last + 1) + rest == Count(first, last) + ([last + 1] + rest)
  {
    assert Count(first, last + 1) == Count(first, last) + [last + 1];
  }

  /** Any list of numbers is printed as its maximal runs: together they are the list, and none could be longer. */
  lemma {:induction false} RunsMaximal(first: nat, last: nat, rest: seq<nat>, width: nat) returns (runs: seq<Run>)
    requires first <= last
    ensures Proper(runs) && runs != [] && runs[0].first == first && Numbers(runs) == Count(first, last) + rest
    ensures forall i :: 0 <= i < |runs| - 1 ==> runs[i + 1].first != runs[i].last + 1
    ensures |Runs(first, last, rest, width)| == |runs|
    ensures forall i :: 0 <= i < |runs| ==> Runs(first, last, rest, width)[i] == Printed(runs[i], width)
    decreases |rest|
  {
    hide RunText, Numbers, Pad;
    if rest == [] {
      runs := [Run(first, last)];
      NumbersCons(Run(first, last), []);
      assert [Run(first, last)] + [] == runs;
    } else if rest[0] == last + 1 {
      runs := RunsMaximal(first, rest[0], rest[1..], width);
      CountMore(first, last, rest[1..]);
      assert rest == [rest[0]] + rest[1..];
    } else {
      var more := RunsMaximal(rest[0], rest[0], rest[1..], width);
      runs := [Run(first, last)] + more;
      NumbersCons(Run(first, last), more);
      CountOne(rest);
      hide Count;
      forall i | 0 <= i < |runs| - 1 ensures runs[i + 1].first != runs[i].last + 1 {
        if i > 0 { assert more[i - 1 + 1].first != more[i - 1].last + 1; }
      }
    }
  }

  lemma NumbersCons(run: Run, more: seq<Run>)
    requires run.first <= run.last && Proper(more)
    ensures Proper([run] + more) && Numbers([run] + more) == Count(run.first, run.last) + Numbers(more)
    ensures Numbers([]) == []
  {
    assert ([run] + more)[1..] == more;
  }

  // ----- Names of one kind ---------------------------------------------------

  /** Text that a number may follow: it does not end in a digit itself. */
  predicate Stem(prefix: string) {
    prefix == "" || !IsDigitChar(prefix[|prefix| - 1])
  }

  /** A stem and digits behind it make a numbered name. */
  lemma KindIs(prefix: string, digits: string)
    requires Stem(prefix) && digits != "" && AllDigits(digits)
    ensures KindOf(prefix + digits) == Numbered(prefix, |digits|) && DigitsOf(prefix + digits) == digits
  {
    var id := prefix + digits;
    assert id[|prefix|..] == digits && id[..|prefix|] == prefix;
    DigitStartIs(id, |prefix|);
  }

  lemma StemOf(id: string)
    requires KindOf(id).Numbered?
    ensures Stem(KindOf(id).prefix) && DigitsOf(id) != "" && |DigitsOf(id)| == KindOf(id).width
    ensures id == KindOf(id).prefix + DigitsOf(id)
  {
  }

  /** How often an element occurs. */
  function Times<T(==)>(s: seq<T>, x: T): nat {
    if s == [] then 0 else Times(s[..|s| - 1], x) + if s[|s| - 1] == x then 1 else 0
  }

  lemma {:induction false} TimesIs<T>(s: seq<T>, x: T)
    ensures Times(s, x) == multiset(s)[x]
  {
    if s != [] {
      TimesIs(s[..|s| - 1], x);
      assert s == s[..|s| - 1] + [s[|s| - 1]];
    }
  }

  lemma TimesSnoc<T>(s: seq<T>, y: T, x: T)
    ensures Times(s + [y], x) == Times(s, x) + if y == x then 1 else 0
  {
    assert (s + [y])[..|s|] == s;
  }

  /** The collected numbers: one for each time a name of this kind is listed. */
  lemma {:induction false} NumbersCounted(ids: seq<string>, prefix: string, width: nat, n: nat)
    requires Stem(prefix) && Narrow(n, width) && forall id :: id in ids ==> Ordinary(id)
    ensures Times(NumsOf(ids, Numbered(prefix, width)), n) == Times(ids, prefix + Pad(n, width))
    decreases |ids|
  {
    hide KindOf, DigitsOf, ToInt, Pad, Narrow, Ordinary, Stem;
    if ids != [] {
      var init, last := ids[..|ids| - 1], ids[|ids| - 1];
      assert last in ids;
      NumbersCounted(init, prefix, width, n);
      NameCounts(last, prefix, width, n);
      TimesSnoc(NumsOf(init, Numbered(prefix, width)), ToInt(DigitsOf(last)), n);
      var nums := NumsOf(init, Numbered(prefix, width));
      assert nums + [] == nums;
    }
  }

  lemma NameCounts(id: string, prefix: string, width: nat, n: nat)
    requires Stem(prefix) && Narrow(n, width) && Ordinary(id)
    ensures id == prefix + Pad(n, width) <==> KindOf(id) == Numbered(prefix, width) && ToInt(DigitsOf(id)) == n
  {
    ToNatOfPad(n, width);
    hide Pad, ToNat;
    if id == prefix + Pad(n, width) {
      KindIs(prefix, Pad(n, width));
    } else if KindOf(id) == Numbered(prefix, width) {
      NameRebuilt(id);
    }
  }

  lemma SortNatsSorts(s: seq<nat>)
    ensures multiset(SortNats(s)) == multiset(s)
    ensures forall i, j :: 0 <= i < j < |SortNats(s)| ==> SortNats(s)[i] <= SortNats(s)[j]
  {
    var le := (a: nat, b: nat) => a <= b;
    SortBySorted(le, s);
    assert SortedBy(le, SortBy(le, s));
  }

  lemma TwoOfAKind(ids: seq<string>, k: Kind, i: nat, j: nat)
    requires k.Numbered? && i < j < |ids| && KindOf(ids[i]) == k && KindOf(ids[j]) == k
    ensures |NumsOf(ids, k)| >= 2
    decreases |ids|
  {
    hide KindOf, DigitsOf, ToInt;
    var n := |ids| - 1;
    if j < n {
      TwoOfAKind(ids[..n], k, i, j);
    } else {
      NumsOfMembers(ids[..n], k, ToInt(DigitsOf(ids[i])));
      assert ids[..n][i] in ids[..n];
    }
  }

  lemma PartIn(ids: seq<string>, k: Kind)
    requires exists id :: id in ids && KindOf(id) == k
    ensures k in Order(ids) && PartOf(ids, k) in Parts(ids)
  {
    OrderMembers(ids, k);
    hide Order, PartOf, KindOf;
    var i :| 0 <= i < |Order(ids)| && Order(ids)[i] == k;
    assert Parts(ids)[i] == PartOf(ids, k);
  }

  /**
   Two or more names with one stem and one digit width are printed as one bracket group:
   the runs hold each name's number as often as the name is listed, in increasing order,
   and no run could be joined to the next.
   */
  lemma NumberedPart(ids: seq<string>, prefix: string, width: nat, i: nat, j: nat)
    returns (part: string, nums: seq<nat>, runs: seq<Run>, texts: seq<string>)
    requires forall id :: id in ids ==> Ordinary(id)
    requires i < j < |ids| && Stem(prefix) && width > 0
    requires exists a :: |a| == width && AllDigits(a) && ids[i] == prefix + a
    requires exists b :: |b| == width && AllDigits(b) && ids[j] == prefix + b
    ensures part in Parts(ids) && part == prefix + "[" + Join(texts, ",") + "]"
    ensures Proper(runs) && Numbers(runs) == nums
    ensures |texts| == |runs| && forall r :: 0 <= r < |runs| ==> texts[r] == Printed(runs[r], width)
    ensures forall r :: 0 <= r < |runs| - 1 ==> runs[r + 1].first != runs[r].last + 1
    ensures forall a, b :: 0 <= a < b < |nums| ==> nums[a] <= nums[b]
    ensures forall n :: n in nums ==> |Pad(n, width)| == width && n < MAX_INT
    ensures forall n: nat :: |Pad(n, width)| == width && n < MAX_INT ==>
              multiset(nums)[n] == multiset(ids)[prefix + Pad(n, width)]
  {
    hide *;
    var k := Numbered(prefix, width);
    KindAt(ids, prefix, width, i);
    KindAt(ids, prefix, width, j);
    TwoOfAKind(ids, k, i, j);
    PartIn(ids, k);
    nums := SortedNumbers(ids, prefix, width);
    runs := RunsMaximal(nums[0], nums[0], nums[1..], width);
    texts := Runs(nums[0], nums[0], nums[1..], width);
    CountOne(nums);
    part := PartOf(ids, k);
    BracketPart(ids, k);
  }

  lemma CountOne(nums: seq<nat>)
    requires nums != []
    ensures Count(nums[0], nums[0]) + nums[1..] == nums
  {
  }

  /** The numbers of a group, as they are sorted for printing. */
  lemma SortedNumbers(ids: seq<string>, prefix: string, width: nat) returns (nums: seq<nat>)
    requires Stem(prefix) && Numbered(prefix, width) in Order(ids) && forall id :: id in ids ==> Ordinary(id)
    ensures nums == SortNats(NumsOf(ids, Numbered(prefix, width))) && nums != []
    ensures forall a, b :: 0 <= a < b < |nums| ==> nums[a] <= nums[b]
    ensures forall n :: n in nums ==> |Pad(n, width)| == width && n < MAX_INT
    ensures forall n: nat :: |Pad(n, width)| == width && n < MAX_INT ==>
              multiset(nums)[n] == multiset(ids)[prefix + Pad(n, width)]
  {
    hide *;
    var k := Numbered(prefix, width);
    GroupNumbers(ids, k);
    nums := SortNats(NumsOf(ids, k));
    SortNatsSorts(NumsOf(ids, k));
    NarrowIs(nums, width);
    forall n: nat | |Pad(n, width)| == width && n < MAX_INT
      ensures multiset(nums)[n] == multiset(ids)[prefix + Pad(n, width)]
    {
      NarrowIs([n], width);
      assert n in [n];
      NumbersCounted(ids, prefix, width, n);
      TimesIs(NumsOf(ids, k), n);
      TimesIs(ids, prefix + Pad(n, width));
    }
  }

  lemma NarrowIs(nums: seq<nat>, width: nat)
    ensures forall n :: n in nums ==> (Narrow(n, width) <==> |Pad(n, width)| == width && n < MAX_INT)
  {
    hide Pad;
  }

  lemma KindAt(ids: seq<string>, prefix: string, width: nat, i: nat)
    requires i < |ids| && Stem(prefix) && width > 0
    requires exists a :: |a| == width && AllDigits(a) && ids[i] == prefix + a
    ensures KindOf(ids[i]) == Numbered(prefix, width) && ids[i] in ids
  {
    hide KindOf, Stem;
    var a :| |a| == width && AllDigits(a) && ids[i] == prefix + a;
    KindIs(prefix, a);
  }

  lemma BracketPart(ids: seq<string>, k: Kind)
    requires k.Numbered? && |SortNats(NumsOf(ids, k))| >= 2
    ensures var nums := SortNats(NumsOf(ids, k));
            PartOf(ids, k) == k.prefix + "[" + Join(Runs(nums[0], nums[0], nums[1..], k.width), ",") + "]"
  {
    hide SortNats, NumsOf, Runs, Join;
  }

  // ----- A name alone --------------------------------------------------------

  lemma {:induction false} OneOfAKind(ids: seq<string>, k: Kind, i: nat)
    requires k.Numbered? && i < |ids| && KindOf(ids[i]) == k
    requires forall j :: 0 <= j < |ids| && j != i ==> KindOf(ids[j]) != k
    ensures NumsOf(ids, k) == [ToInt(DigitsOf(ids[i]))]
    decreases |ids|
  {
    hide KindOf, DigitsOf, ToInt;
    var n := |ids| - 1;
    if i < n {
      OneOfAKind(ids[..n], k, i);
    } else {
      NoneOfAKind(ids[..n], k);
    }
  }

  lemma {:induction false} NoneOfAKind(ids: seq<string>, k: Kind)
    requires forall j :: 0 <= j < |ids| ==> KindOf(ids[j]) != k
    ensures NumsOf(ids, k) == []
  {
    if ids != [] { NoneOfAKind(ids[..|ids| - 1], k); }
  }

  /** The two names share their stem and digit width. */
  ghost predicate Alike(x: string, y: string) {
    exists prefix, a, b :: && Stem(prefix) && a != "" && |a| == |b| && AllDigits(a) && AllDigits(b)
                           && x == prefix + a && y == prefix + b
  }

  lemma AlikeIff(x: string, y: string)
    ensures KindOf(x) == KindOf(y) <==> x == y || Alike(x, y)
  {
    hide Stem, DigitStart;
    if KindOf(x) == KindOf(y) {
      if KindOf(x).Numbered? {
        StemOf(x);
        StemOf(y);
      }
    } else if Alike(x, y) {
      var prefix, a, b :| && Stem(prefix) && a != "" && |a| == |b| && AllDigits(a) && AllDigits(b)
                          && x == prefix + a && y == prefix + b;
      KindIs(prefix, a);
      KindIs(prefix, b);
    }
  }

  /** A name that no other listed name is like is printed as it is. */
  lemma AloneAsIs(ids: seq<string>, i: nat)
    requires i < |ids| && forall id :: id in ids ==> Ordinary(id)
    requires forall j :: 0 <= j < |ids| && j != i ==> !Alike(ids[i], ids[j])
    ensures ids[i] in Parts(ids)
  {
    hide *;
    var id := ids[i];
    var k := KindOf(id);
    assert id in ids;
    PartIn(ids, k);
    if k.Plain? {
      PlainAsIs(ids, id);
    } else {
      StemOf(id);
      forall j | 0 <= j < |ids| && j != i ensures KindOf(ids[j]) != k {
        AlikeIff(id, ids[j]);
        if ids[j] == id { AlikeSelf(id); }
      }
      OneOfAKind(ids, k, i);
      NumberAsIs(ids, k, id);
    }
  }

  lemma AlikeSelf(id: string)
    requires KindOf(id).Numbered?
    ensures Alike(id, id)
  {
    StemOf(id);
    hide KindOf, DigitsOf, Stem;
  }

  lemma PlainAsIs(ids: seq<string>, id: string)
    requires KindOf(id).Plain?
    ensures PartOf(ids, KindOf(id)) == id
  {
    KindPlain(id);
    hide KindOf;
  }

  lemma NumberAsIs(ids: seq<string>, k: Kind, id: string)
    requires KindOf(id) == k && k.Numbered? && NumsOf(ids, k) == [ToInt(DigitsOf(id))] && Ordinary(id)
    ensures PartOf(ids, k) == id
  {
    hide *;
    NameRebuilt(id);
    SortOne(ToInt(DigitsOf(id)));
    PartOfSingle(ids, k);
  }

  lemma SortOne(n: nat)
    ensures SortNats([n]) == [n]
  {
    assert [n][1..] == [];
  }

  // ----- The order of the parts ----------------------------------------------

  /** Two listed names are printed in one part if and only if they are equal or alike. */
  lemma SamePartIff(ids: seq<string>, x: string, y: string)
    requires x in ids && y in ids && forall id :: id in ids ==> Ordinary(id)
    ensures (exists part :: part in Parts(ids) && x in Cross(part) && y in Cross(part)) <==> x == y || Alike(x, y)
  {
    hide KindOf, Cross, PartOf, Ordinary, Order, FirstBad, Fits, Alike;
    AlikeIff(x, y);
    PartIn(ids, KindOf(x));
    PartCross(ids, KindOf(x));
    if part :| part in Parts(ids) && x in Cross(part) && y in Cross(part) {
      var i :| 0 <= i < |Parts(ids)| && Parts(ids)[i] == part;
      PartCross(ids, Order(ids)[i]);
    }
  }

  /** The parts come in the order in which the list first has a name of theirs. */
  lemma PartsInOrder(ids: seq<string>, i: nat, j: nat)
    requires i < j < |Parts(ids)| && forall id :: id in ids ==> Ordinary(id)
    ensures exists k :: && 0 <= k < |ids| && ids[k] in Cross(Parts(ids)[i])
                        && forall l :: 0 <= l <= k ==> ids[l] !in Cross(Parts(ids)[j])
  {
    hide Cross, PartOf, Ordinary, FirstBad, Fits, KindOf, Dedupe;
    var kinds, order := KindsOf(ids), Order(ids);
    DedupeOrder(kinds, i, j);
    var k :| 0 <= k < |kinds| && kinds[k] == order[i] && order[j] !in kinds[..k + 1];
    PartCross(ids, order[i]);
    PartCross(ids, order[j]);
    assert ids[k] in ids;
    forall l | 0 <= l <= k ensures ids[l] !in Cross(Parts(ids)[j]) {
      assert kinds[..k + 1][l] == KindOf(ids[l]);
    }
  }
}
