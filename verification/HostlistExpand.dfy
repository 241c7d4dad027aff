/**
 Bracket expansion of node patterns (internal/pkg/hostlist/hostlist.go): the
 rounds the code performs, and the cross product of bracket groups they must equal.
 */
module HostlistExpand {
  import opened Text
  import opened Decimal

  // ----- One bracket group ---------------------------------------------------

  /** `toInt` on a digit string: `strconv.Atoi` saturates on overflow. */
  function ToInt(s: string): nat
    requires AllDigits(s)
  {
    if ToNat(s) > MAX_INT then MAX_INT else ToNat(s)
  }

  function NameRange(first: nat, last: int, width: nat): (r: seq<string>)
    ensures forall d :: d in r ==> AllDigits(d)
    decreases last + 1 - first
  {
    if first > last then [] else [Pad(first, width)] + NameRange(first + 1, last, width)
  }

  /** The digit strings one comma-separated piece stands for; `None` aborts the whole round. */
  function RangeItems(rng: string): (r: Option<seq<string>>)
    ensures r.Some? ==> forall d :: d in r.value ==> AllDigits(d)
  {
    var parts := Split(rng, '-');
    if |parts| == 1 then
      if AllDigits(parts[0]) then Some([parts[0]]) else None
    else if |parts| == 2 then
      if AllDigits(parts[0]) && AllDigits(parts[1])
      then Some(NameRange(ToInt(parts[0]), ToInt(parts[1]), |parts[0]|))
      else None
    else Some([])
  }

  function ContentItems(content: string): Option<seq<string>> {
    TryFlatMap(RangeItems, Split(content, ','))
  }

  lemma ContentItemsDigits(content: string)
    requires ContentItems(content).Some?
    ensures forall d :: d in ContentItems(content).value ==> AllDigits(d) && Bracketless(d)
  {
    forall d | d in ContentItems(content).value ensures AllDigits(d) && Bracketless(d) {
      TryFlatMapMembers(RangeItems, Split(content, ','), d);
    }
  }

  // ----- One token -----------------------------------------------------------

  predicate Bracketless(s: string) {
    '[' !in s && ']' !in s
  }

  /** The guard of a round: the first "[" comes before the first "]". */
  predicate Expandable(h: string) {
    0 <= Index(h, '[') < Index(h, ']')
  }

  function Before(h: string): (p: string)
    requires Expandable(h)
    ensures Bracketless(p)
  {
    assert h[..Index(h, '[')] == h[..Index(h, ']')][..Index(h, '[')];
    h[..Index(h, '[')]
  }

  function Inside(h: string): string
    requires Expandable(h)
  {
    h[Index(h, '[') + 1..Index(h, ']')]
  }

  function After(h: string): (s: string)
    requires Expandable(h)
    ensures |s| < |h|
  {
    h[Index(h, ']') + 1..]
  }

  lemma AfterLosesBracket(h: string)
    requires Expandable(h)
    ensures multiset(After(h))['['] < multiset(h)['[']
  {
    var i, j := Index(h, '['), Index(h, ']');
    assert h == h[..i] + [h[i]] + h[i + 1..j + 1] + h[j + 1..];
  }

  function Items(h: string): Option<seq<string>>
    requires Expandable(h)
  {
    ContentItems(Inside(h))
  }

  /** Put `p` in front of every string. */
  function PrefixAll(p: string, tails: seq<string>): (r: seq<string>)
    ensures |r| == |tails|
    ensures forall i :: 0 <= i < |r| ==> r[i] == p + tails[i]
  {
    seq(|tails|, i requires 0 <= i < |tails| => p + tails[i])
  }

  /** Every item followed by every tail, items varying slowest. */
  function Product(p: string, items: seq<string>, tails: seq<string>): seq<string> {
    FlatMap(d => PrefixAll(p + d, tails), items)
  }

  /**
   The reference meaning of a token: the left-to-right cross product of its
   first `k` bracket groups, later text kept verbatim.
   */
  function CrossUpTo(h: string, k: nat): seq<string>
    decreases k
  {
    if k == 0 || !Expandable(h) || Items(h).None? then [h]
    else Product(Before(h), Items(h).value, CrossUpTo(After(h), k - 1))
  }

  function CrossUpToAll(hosts: seq<string>, k: nat): seq<string> {
    FlatMap(h => CrossUpTo(h, k), hosts)
  }

  /** The cross product of all bracket groups of a token. */
  function Cross(h: string): seq<string>
    decreases |h|
  {
    if !Expandable(h) || Items(h).None? then [h]
    else Product(Before(h), Items(h).value, Cross(After(h)))
  }

  /** How many rounds a token survives before its own text aborts the expansion. */
  function FirstBad(h: string): Option<nat>
    decreases |h|
  {
    if !Expandable(h) then None
    else if Items(h).None? then Some(0)
    else if Items(h).value == [] then None
    else
      var rest := FirstBad(After(h));
      if rest.Some? then Some(rest.value + 1) else None
  }

  /** The "[" count of a token that can still be expanded. */
  function Load(h: string): (n: nat)
    ensures Expandable(h) <==> n > 0
  {
    if Expandable(h) then multiset(h)['['] else 0
  }

  function MaxLoad(hosts: seq<string>): (n: nat)
    ensures forall h :: h in hosts ==> Load(h) <= n
    ensures n > 0 ==> exists h :: h in hosts && Load(h) == n
  {
    if hosts == [] then 0
    else
      var rest := MaxLoad(hosts[1..]);
      if Load(hosts[0]) > rest then Load(hosts[0]) else rest
  }

  /** A bracket-free prefix moves past the group structure of a token. */
  lemma Shift(p: string, s: string)
    requires Bracketless(p)
    ensures Expandable(p + s) <==> Expandable(s)
    ensures Expandable(s) ==>
              Before(p + s) == p + Before(s) && Inside(p + s) == Inside(s) && After(p + s) == After(s)
  {
    hide Index;
    IndexShift(p, s, '[');
    IndexShift(p, s, ']');
    if Expandable(s) {
      var i, j := Index(s, '['), Index(s, ']');
      assert (p + s)[..|p| + i] == p + s[..i];
      assert (p + s)[|p| + i + 1..|p| + j] == s[i + 1..j];
      assert (p + s)[|p| + j + 1..] == s[j + 1..];
    }
  }

  lemma ShiftLoad(p: string, s: string)
    requires Bracketless(p)
    ensures Load(p + s) == Load(s)
  {
    Shift(p, s);
    assert multiset(p + s) == multiset(p) + multiset(s);
  }

  lemma ShiftBad(p: string, s: string)
    requires Bracketless(p)
    ensures FirstBad(p + s) == FirstBad(s)
  {
    hide Index, ContentItems, Before, After, Inside, Expandable;
    Shift(p, s);
  }

  lemma ProductCons(p: string, items: seq<string>, tails: seq<string>)
    requires items != []
    ensures Product(p, items, tails) == PrefixAll(p + items[0], tails) + Product(p, items[1..], tails)
  {
  }

  lemma {:induction false} ProductShift(p: string, q: string, items: seq<string>, tails: seq<string>)
    ensures Product(p + q, items, tails) == PrefixAll(p, Product(q, items, tails))
  {
    if items != [] {
      ProductShift(p, q, items[1..], tails);
      ProductCons(p + q, items, tails);
      ProductCons(q, items, tails);
      assert forall t: string :: (p + q + items[0]) + t == p + ((q + items[0]) + t);
    }
  }

  lemma CrossShift(p: string, s: string, k: nat)
    requires Bracketless(p)
    ensures CrossUpTo(p + s, k) == PrefixAll(p, CrossUpTo(s, k))
  {
    Shift(p, s);
    if k > 0 && Expandable(s) && Items(s).Some? {
      ProductShift(p, Before(s), Items(s).value, CrossUpTo(After(s), k - 1));
    }
  }

  lemma ProductMembers(p: string, items: seq<string>, tails: seq<string>, x: string)
    ensures x in Product(p, items, tails) <==>
            exists d, t :: d in items && t in tails && x == p + d + t
  {
    var f := d => PrefixAll(p + d, tails);
    assert Product(p, items, tails) == FlatMap(f, items) by { FlatMapSame(f, d => PrefixAll(p + d, tails), items); }
    FlatMapMembers(f, items, x);
    forall d ensures x in f(d) <==> exists t :: t in tails && x == p + d + t {
      var r := PrefixAll(p + d, tails);
      if t :| t in tails && x == p + d + t {
        var i :| 0 <= i < |tails| && tails[i] == t;
        assert r[i] == x;
      }
    }
  }

  // ----- One round -----------------------------------------------------------

  function ExpandHost(h: string): Option<seq<string>> {
    if !Expandable(h) then Some([h])
    else if Items(h).None? then None
    else Some(Product(Before(h), Items(h).value, [After(h)]))
  }

  /** `expandOnce`: `None` is the abort that returns a count of zero. */
  function Round(hosts: seq<string>): Option<seq<string>> {
    TryFlatMap(ExpandHost, hosts)
  }

  lemma MadeBy(h: string, x: string) returns (d: string)
    requires Expandable(h) && Items(h).Some? && x in Product(Before(h), Items(h).value, [After(h)])
    ensures d in Items(h).value && Bracketless(d) && x == (Before(h) + d) + After(h)
  {
    ProductMembers(Before(h), Items(h).value, [After(h)], x);
    var e, t :| e in Items(h).value && t in [After(h)] && x == Before(h) + e + t;
    d := e;
    ContentItemsDigits(Inside(h));
  }

  /** The token a piece of a round's output came from, and what the round did to it. */
  lemma RoundOrigin(hosts: seq<string>, x: string) returns (h: string)
    requires Round(hosts).Some? && x in Round(hosts).value
    ensures h in hosts && ExpandHost(h).Some?
    ensures Load(x) == 0 || Load(x) < Load(h)
    ensures Expandable(h) ==> Items(h).value != [] && FirstBad(x) == FirstBad(After(h))
    ensures !Expandable(h) ==> x == h
  {
    TryFlatMapMembers(ExpandHost, hosts, x);
    h :| h in hosts && x in ExpandHost(h).value;
    if Expandable(h) {
      var d := MadeBy(h, x);
      AfterLosesBracket(h);
      ShiftLoad(Before(h) + d, After(h));
      ShiftBad(Before(h) + d, After(h));
    }
  }

  /** A valid group of a token leaves a token behind that carries its later groups. */
  lemma RoundKeeps(hosts: seq<string>, h: string) returns (x: string)
    requires Round(hosts).Some? && h in hosts && Expandable(h)
    requires Items(h).Some? && Items(h).value != []
    ensures x in Round(hosts).value && FirstBad(x) == FirstBad(After(h))
  {
    var d := Items(h).value[0];
    x := Before(h) + d + After(h);
    assert After(h) in [After(h)];
    ProductMembers(Before(h), Items(h).value, [After(h)], x);
    TryFlatMapMembers(ExpandHost, hosts, x);
    ContentItemsDigits(Inside(h));
    assert Bracketless(d);
    ShiftBad(Before(h) + d, After(h));
  }

  /** The termination measure: a counted round lowers the largest load. */
  lemma RoundShrinks(hosts: seq<string>)
    requires Round(hosts).Some? && MaxLoad(hosts) > 0
    ensures MaxLoad(Round(hosts).value) < MaxLoad(hosts)
  {
    var next := Round(hosts).value;
    forall x | x in next ensures Load(x) < MaxLoad(hosts) {
      var h := RoundOrigin(hosts, x);
    }
  }

  // ----- All rounds ----------------------------------------------------------

  /** The loop of `Expand`: rounds until one counts nothing or aborts. */
  function Rounds(hosts: seq<string>): seq<string>
    decreases MaxLoad(hosts)
  {
    if MaxLoad(hosts) == 0 || Round(hosts).None? then hosts
    else
      RoundShrinks(hosts);
      Rounds(Round(hosts).value)
  }

  lemma CrossUpToAppend(a: seq<string>, b: seq<string>, k: nat)
    ensures CrossUpToAll(a + b, k) == CrossUpToAll(a, k) + CrossUpToAll(b, k)
  {
    var f := h => CrossUpTo(h, k);
    FlatMapAppend(f, a, b);
    FlatMapSame(f, h => CrossUpTo(h, k), a + b);
    FlatMapSame(f, h => CrossUpTo(h, k), a);
    FlatMapSame(f, h => CrossUpTo(h, k), b);
  }

  lemma CrossUpToOne(h: string, k: nat)
    ensures CrossUpToAll([h], k) == CrossUpTo(h, k)
  {
    FlatMapOne(g => CrossUpTo(g, k), h);
  }

  /** Expanding one group and then `k` more is expanding `k + 1` groups. */
  lemma {:induction false} ProductThenCross(p: string, items: seq<string>, s: string, k: nat)
    requires Bracketless(p) && forall d :: d in items ==> Bracketless(d)
    ensures CrossUpToAll(Product(p, items, [s]), k) == Product(p, items, CrossUpTo(s, k))
  {
    hide CrossUpTo;
    if items != [] {
      hide Product, CrossUpToAll;
      var q := p + items[0];
      assert items[0] in items;
      ProductThenCross(p, items[1..], s, k);
      ProductCons(p, items, [s]);
      ProductCons(p, items, CrossUpTo(s, k));
      assert PrefixAll(q, [s]) == [q + s];
      CrossUpToAppend([q + s], Product(p, items[1..], [s]), k);
      CrossUpToOne(q + s, k);
      CrossShift(q, s, k);
    }
  }

  lemma HostThenCross(h: string, k: nat)
    requires ExpandHost(h).Some?
    ensures CrossUpToAll(ExpandHost(h).value, k) == CrossUpTo(h, k + 1)
  {
    if Expandable(h) {
      ContentItemsDigits(Inside(h));
      ProductThenCross(Before(h), Items(h).value, After(h), k);
    } else {
      CrossUpToOne(h, k);
    }
  }

  lemma {:induction false} RoundThenCross(hosts: seq<string>, k: nat)
    requires Round(hosts).Some?
    ensures CrossUpToAll(Round(hosts).value, k) == CrossUpToAll(hosts, k + 1)
  {
    hide CrossUpTo, ExpandHost;
    if hosts != [] {
      hide CrossUpToAll;
      var h, rest := hosts[0], hosts[1..];
      RoundThenCross(rest, k);
      CrossUpToAppend(ExpandHost(h).value, Round(rest).value, k);
      HostThenCross(h, k);
      assert hosts == [h] + rest;
      CrossUpToAppend([h], rest, k + 1);
      CrossUpToOne(h, k + 1);
    }
  }

  lemma {:induction false} CrossUpToZero(hosts: seq<string>, k: nat)
    requires k == 0 || MaxLoad(hosts) == 0
    ensures CrossUpToAll(hosts, k) == hosts
  {
    if hosts != [] {
      CrossUpToZero(hosts[1..], k);
      assert Load(hosts[0]) <= MaxLoad(hosts);
      assert hosts == [hosts[0]] + hosts[1..];
      CrossUpToAppend([hosts[0]], hosts[1..], k);
      CrossUpToOne(hosts[0], k);
    }
  }

  /** `k` is the round at which the expansion of `hosts` stops. */
  ghost predicate StopsAt(hosts: seq<string>, k: nat) {
    && (forall h :: h in hosts && FirstBad(h).Some? ==> FirstBad(h).value >= k)
    && ((exists h :: h in hosts && FirstBad(h) == Some(k)) || MaxLoad(hosts) <= k)
  }

  lemma StopsNext(hosts: seq<string>, k: nat)
    requires k > 0 && StopsAt(hosts, k) && Round(hosts).Some? && MaxLoad(hosts) > 0
    ensures StopsAt(Round(hosts).value, k - 1)
  {
    hide Round, MaxLoad, Load, Items, Expandable, After;
    var next := Round(hosts).value;
    forall x | x in next && FirstBad(x).Some? ensures FirstBad(x).value >= k - 1 {
      var h := RoundOrigin(hosts, x);
    }
    RoundShrinks(hosts);
    if MaxLoad(hosts) > k {
      var h :| h in hosts && FirstBad(h) == Some(k);
      var x := RoundKeeps(hosts, h);
    }
  }

  lemma RoundStops(hosts: seq<string>)
    ensures Round(hosts).None? <==> exists h :: h in hosts && FirstBad(h) == Some(0)
  {
    assert forall h :: ExpandHost(h).None? <==> FirstBad(h) == Some(0);
  }

  lemma {:induction false} RoundsUpTo(hosts: seq<string>, k: nat)
    requires StopsAt(hosts, k)
    ensures Rounds(hosts) == CrossUpToAll(hosts, k)
    decreases k
  {
    hide CrossUpToAll, Round, MaxLoad, FirstBad;
    RoundStops(hosts);
    if k == 0 || MaxLoad(hosts) == 0 {
      CrossUpToZero(hosts, k);
    } else {
      StopsNext(hosts, k);
      RoundsUpTo(Round(hosts).value, k - 1);
      RoundThenCross(hosts, k - 1);
    }
  }

  /** The earliest round at which some token aborts the expansion, if any does. */
  function FirstAbort(hosts: seq<string>): Option<nat> {
    if hosts == [] then None
    else
      var here, rest := FirstBad(hosts[0]), FirstAbort(hosts[1..]);
      if here.None? || (rest.Some? && rest.value < here.value) then rest else here
  }

  lemma {:induction false} FirstAbortIs(hosts: seq<string>)
    ensures FirstAbort(hosts).None? ==> forall h :: h in hosts ==> FirstBad(h).None?
    ensures FirstAbort(hosts).Some? ==> exists h :: h in hosts && FirstBad(h) == FirstAbort(hosts)
    ensures FirstAbort(hosts).Some? ==>
              forall h :: h in hosts && FirstBad(h).Some? ==> FirstAbort(hosts).value <= FirstBad(h).value
  {
    hide FirstBad;
    if hosts != [] {
      FirstAbortIs(hosts[1..]);
      assert forall h :: h in hosts <==> h == hosts[0] || h in hosts[1..];
      assert hosts[0] in hosts;
    }
  }

  /** The number of rounds that count: up to the first abort, or until nothing is left to expand. */
  function StopRound(hosts: seq<string>): nat {
    var abort := FirstAbort(hosts);
    if abort.Some? then abort.value else MaxLoad(hosts)
  }

  /** Every list stops somewhere. */
  lemma Stops(hosts: seq<string>)
    ensures StopsAt(hosts, StopRound(hosts))
  {
    hide FirstBad, MaxLoad, FirstAbort;
    FirstAbortIs(hosts);
  }

  /**
   For every input: the rounds compute the cross product of the first groups of
   every token, as many as there are rounds before any token is invalid.
   */
  lemma RoundsAreCross(hosts: seq<string>)
    ensures Rounds(hosts) == CrossUpToAll(hosts, StopRound(hosts))
  {
    Stops(hosts);
    hide *;
    RoundsUpTo(hosts, StopRound(hosts));
  }

  lemma {:induction false} CrossIsCrossUpTo(h: string, k: nat)
    requires k >= Load(h)
    ensures CrossUpTo(h, k) == Cross(h)
    decreases |h|
  {
    hide Items, Product, Before, After;
    if Expandable(h) && Items(h).Some? {
      AfterLosesBracket(h);
      CrossIsCrossUpTo(After(h), k - 1);
    }
  }

  /** Without an invalid group anywhere, the rounds give the full cross product, in order. */
  lemma WellFormedRounds(hosts: seq<string>)
    requires forall h :: h in hosts ==> FirstBad(h).None?
    ensures Rounds(hosts) == FlatMap(Cross, hosts)
  {
    hide Rounds, MaxLoad, Cross, CrossUpTo, FirstBad;
    var k := MaxLoad(hosts);
    RoundsUpTo(hosts, k);
    forall h | h in hosts ensures CrossUpTo(h, k) == Cross(h) {
      CrossIsCrossUpTo(h, k);
    }
    FlatMapSame(h => CrossUpTo(h, k), Cross, hosts);
    FlatMapSame(h => CrossUpTo(h, k), h => CrossUpTo(h, k), hosts);
  }

  /** Nothing expandable is left exactly when no token had an invalid reachable group. */
  lemma {:induction false} FullyExpandedIff(hosts: seq<string>)
    ensures MaxLoad(Rounds(hosts)) == 0 <==> forall h :: h in hosts ==> FirstBad(h).None?
    decreases MaxLoad(hosts)
  {
    RoundStops(hosts);
    if MaxLoad(hosts) == 0 {
      assert forall h :: h in hosts ==> Load(h) <= 0;
    } else if Round(hosts).Some? {
      var next := Round(hosts).value;
      RoundShrinks(hosts);
      FullyExpandedIff(next);
      if x :| x in next && FirstBad(x).Some? {
        var h := RoundOrigin(hosts, x);
      }
      if h :| h in hosts && FirstBad(h).Some? {
        var x := RoundKeeps(hosts, h);
      }
    }
  }
}
