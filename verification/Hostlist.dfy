/**
 The imperative side of internal/pkg/hostlist/hostlist.go: the loops of Expand,
 proved to compute the specification functions of `HostlistExpand`.
 */
module Hostlist {
  import opened Text
  import opened Decimal
  import opened HostlistExpand

  const GROUP_PREFIX := "@"

  // ----- Splitting at top-level commas ---------------------------------------

  /** Glue `p` to the first part. */
  function Attach(p: string, parts: seq<string>): (r: seq<string>)
    requires |parts| >= 1
    ensures |r| == |parts|
  {
    [p + parts[0]] + parts[1..]
  }

  function Deeper(c: char, depth: nat): nat {
    if c == '[' then depth + 1 else if c == ']' && depth > 0 then depth - 1 else depth
  }

  /** The parts of the rest of a string entered at bracket depth `depth`. */
  function SplitFrom(s: string, depth: nat): (r: seq<string>)
    ensures |r| >= 1
  {
    if s == [] then [""]
    else if s[0] == ',' && depth == 0 then [""] + SplitFrom(s[1..], 0)
    else Attach([s[0]], SplitFrom(s[1..], Deeper(s[0], depth)))
  }

  function TopLevelParts(s: string): seq<string> {
    SplitFrom(s, 0)
  }

  lemma AttachEmpty(parts: seq<string>)
    requires |parts| >= 1
    ensures Attach("", parts) == parts
  {
    assert "" + parts[0] == parts[0];
    assert parts == [parts[0]] + parts[1..];
  }

  lemma AttachAttach(p: string, q: string, parts: seq<string>)
    requires |parts| >= 1
    ensures Attach(p, Attach(q, parts)) == Attach(p + q, parts)
  {
    assert p + (q + parts[0]) == (p + q) + parts[0];
  }

  /** What the text before position `i`, split so far, adds to the rest. */
  ghost predicate SplitSoFar(s: string, start: nat, i: nat, depth: nat, parts: seq<string>) {
    && start <= i <= |s|
    && parts + Attach(s[start..i], SplitFrom(s[i..], depth)) == TopLevelParts(s)
  }

  lemma SplitAtComma(s: string, start: nat, i: nat, parts: seq<string>)
    requires i < |s| && SplitSoFar(s, start, i, 0, parts) && s[i] == ','
    ensures SplitSoFar(s, i + 1, i + 1, 0, parts + [s[start..i]])
  {
    var part, tail := s[start..i], SplitFrom(s[i + 1..], 0);
    assert s[i..][1..] == s[i + 1..];
    assert part + "" == part;
    assert Attach(part, [""] + tail) == [part] + tail;
    AttachEmpty(tail);
    assert s[i + 1..i + 1] == "";
    assert parts + ([part] + tail) == (parts + [part]) + tail;
  }

  lemma SplitPast(s: string, start: nat, i: nat, depth: nat, parts: seq<string>)
    requires i < |s| && SplitSoFar(s, start, i, depth, parts) && !(s[i] == ',' && depth == 0)
    ensures SplitSoFar(s, start, i + 1, Deeper(s[i], depth), parts)
  {
    var tail := SplitFrom(s[i + 1..], Deeper(s[i], depth));
    assert s[i..][0] == s[i] && s[i..][1..] == s[i + 1..];
    assert SplitFrom(s[i..], depth) == Attach([s[i]], tail);
    AttachAttach(s[start..i], [s[i]], tail);
    assert s[start..i] + [s[i]] == s[start..i + 1];
  }

  lemma SplitStart(s: string)
    ensures SplitSoFar(s, 0, 0, 0, [])
  {
    AttachEmpty(SplitFrom(s, 0));
    assert s[0..] == s && s[0..0] == "";
  }

  lemma SplitEnd(s: string, start: nat, depth: nat, parts: seq<string>)
    requires SplitSoFar(s, start, |s|, depth, parts)
    ensures parts + [s[start..]] == TopLevelParts(s)
  {
    assert s[|s|..] == "" && s[start..|s|] == s[start..] && s[start..] + "" == s[start..];
  }

  method SplitTopLevel(s: string) returns (parts: seq<string>)
    ensures parts == TopLevelParts(s)
  {
    hide *;
    parts := [];
    var depth: nat, start: nat := 0, 0;
    SplitStart(s);
    for i := 0 to |s|
      invariant start <= i && SplitSoFar(s, start, i, depth, parts)
    {
      if s[i] == ',' && depth == 0 {
        SplitAtComma(s, start, i, parts);
        parts := parts + [s[start..i]];
        start := i + 1;
      } else {
        SplitPast(s, start, i, depth, parts);
        depth := Deeper(s[i], depth);
      }
    }
    SplitEnd(s, start, depth, parts);
    parts := parts + [s[start..]];
  }

  // ----- Numbers that fit the machine ----------------------------------------

  /** A range whose end is the largest integer never leaves its counting loop. */
  predicate RangeFits(rng: string) {
    var parts := Split(rng, '-');
    |parts| == 2 && AllDigits(parts[0]) && AllDigits(parts[1]) ==> ToInt(parts[1]) < MAX_INT
  }

  predicate Fits(h: string)
    decreases |h|
  {
    Expandable(h) ==>
      && (forall rng :: rng in Split(Inside(h), ',') ==> RangeFits(rng))
      && Fits(After(h))
  }

  lemma FitsInside(h: string)
    requires Fits(h) && Expandable(h)
    ensures forall rng :: rng in Split(Inside(h), ',') ==> RangeFits(rng)
  {
  }

  lemma ShiftFits(p: string, s: string)
    requires Bracketless(p)
    ensures Fits(p + s) <==> Fits(s)
  {
    Shift(p, s);
  }

  lemma RoundFits(hosts: seq<string>)
    requires Round(hosts).Some? && forall h :: h in hosts ==> Fits(h)
    ensures forall x :: x in Round(hosts).value ==> Fits(x)
  {
    forall x | x in Round(hosts).value ensures Fits(x) {
      TryFlatMapMembers(ExpandHost, hosts, x);
      var h :| h in hosts && x in ExpandHost(h).value;
      if Expandable(h) {
        var d := MadeBy(h, x);
        ShiftFits(Before(h) + d, After(h));
      }
    }
  }

  // ----- One round -----------------------------------------------------------

  lemma NameRangeSnoc(first: nat, last: int, width: nat)
    requires first <= last
    ensures NameRange(first, last, width) == NameRange(first, last - 1, width) + [Pad(last, width)]
    decreases last - first
  {
    if first < last {
      NameRangeSnoc(first + 1, last, width);
    }
  }

  function Around(prefix: string, items: seq<string>, suffix: string): seq<string> {
    Product(prefix, items, [suffix])
  }

  lemma AroundAppend(prefix: string, a: seq<string>, b: seq<string>, suffix: string)
    ensures Around(prefix, a + b, suffix) == Around(prefix, a, suffix) + Around(prefix, b, suffix)
  {
    var f := d => PrefixAll(prefix + d, [suffix]);
    FlatMapAppend(f, a, b);
    FlatMapSame(f, d => PrefixAll(prefix + d, [suffix]), a + b);
    FlatMapSame(f, d => PrefixAll(prefix + d, [suffix]), a);
    FlatMapSame(f, d => PrefixAll(prefix + d, [suffix]), b);
  }

  lemma AroundOne(prefix: string, d: string, suffix: string)
    ensures Around(prefix, [d], suffix) == [prefix + d + suffix]
  {
    ProductCons(prefix, [d], [suffix]);
    assert PrefixAll(prefix + d, [suffix]) == [prefix + d + suffix];
    assert Product(prefix, [d][1..], [suffix]) == [];
  }

  lemma AroundSnoc(prefix: string, first: nat, num: nat, width: nat, suffix: string)
    requires first <= num
    ensures Around(prefix, NameRange(first, num, width), suffix) ==
            Around(prefix, NameRange(first, num - 1, width), suffix) + [prefix + Pad(num, width) + suffix]
  {
    hide Around, Pad;
    NameRangeSnoc(first, num, width);
    AroundAppend(prefix, NameRange(first, num - 1, width), [Pad(num, width)], suffix);
    AroundOne(prefix, Pad(num, width), suffix);
  }

  /** The inner counting loop of a two-part range. */
  method AppendRange(prefix: string, width: nat, first: nat, last: nat, suffix: string, before: seq<string>)
    returns (result: seq<string>)
    requires last < MAX_INT
    ensures result == before + Around(prefix, NameRange(first, last, width), suffix)
  {
    result := before;
    var num := first;
    assert result == before + Around(prefix, NameRange(first, num - 1, width), suffix);
    while num <= last
      invariant first <= num && (num <= last + 1 || num == first)
      invariant result == before + Around(prefix, NameRange(first, num - 1, width), suffix)
    {
      hide *;
      AroundSnoc(prefix, first, num, width, suffix);
      result := result + [prefix + Pad(num, width) + suffix];
      num := num + 1;
    }
  }

  /** One comma-separated piece; `ok` is false when it is invalid. */
  method ExpandRange(prefix: string, rng: string, suffix: string, before: seq<string>)
    returns (result: seq<string>, ok: bool)
    requires RangeFits(rng)
    ensures ok <==> RangeItems(rng).Some?
    ensures ok ==> result == before + Around(prefix, RangeItems(rng).value, suffix)
  {
    result, ok := before, true;
    var parts := Split(rng, '-');
    if |parts| == 1 {
      if !AllDigits(parts[0]) {
        return result, false;
      }
      AroundOne(prefix, parts[0], suffix);
      result := result + [prefix + parts[0] + suffix];
    } else if |parts| == 2 {
      if !AllDigits(parts[0]) || !AllDigits(parts[1]) {
        return result, false;
      }
      result := AppendRange(prefix, |parts[0]|, ToInt(parts[0]), ToInt(parts[1]), suffix, result);
    } else {
      assert Around(prefix, [], suffix) == [];
    }
  }

  /** `result` is `before` followed by the names of the first `i` pieces. */
  ghost predicate GroupSoFar(prefix: string, ranges: seq<string>, i: nat, suffix: string,
                             before: seq<string>, result: seq<string>) {
    && i <= |ranges| && TryFlatMap(RangeItems, ranges[..i]).Some?
    && result == before + Around(prefix, TryFlatMap(RangeItems, ranges[..i]).value, suffix)
  }

  lemma GroupStep(prefix: string, ranges: seq<string>, i: nat, suffix: string, before: seq<string>, result: seq<string>)
    requires GroupSoFar(prefix, ranges, i, suffix, before, result) && i < |ranges| && RangeItems(ranges[i]).Some?
    ensures GroupSoFar(prefix, ranges, i + 1, suffix, before,
                       result + Around(prefix, RangeItems(ranges[i]).value, suffix))
  {
    hide RangeItems, Around;
    var done, items := TryFlatMap(RangeItems, ranges[..i]).value, RangeItems(ranges[i]).value;
    assert ranges[..i + 1] == ranges[..i] + [ranges[i]];
    TryFlatMapOne(RangeItems, ranges[i]);
    TryFlatMapAppend(RangeItems, ranges[..i], [ranges[i]]);
    AroundAppend(prefix, done, items, suffix);
  }

  /** One bracket group; `ok` is false when the content is invalid. */
  method ExpandGroup(prefix: string, content: string, suffix: string, before: seq<string>)
    returns (result: seq<string>, ok: bool)
    requires forall rng :: rng in Split(content, ',') ==> RangeFits(rng)
    ensures ok <==> ContentItems(content).Some?
    ensures ok ==> result == before + Around(prefix, ContentItems(content).value, suffix)
  {
    result, ok := before, true;
    var ranges := Split(content, ',');
    assert GroupSoFar(prefix, ranges, 0, suffix, before, result);
    for i := 0 to |ranges|
      invariant GroupSoFar(prefix, ranges, i, suffix, before, result)
    {
      hide *;
      ghost var sofar := result;
      result, ok := ExpandRange(prefix, ranges[i], suffix, result);
      if !ok {
        return;
      }
      GroupStep(prefix, ranges, i, suffix, before, sofar);
    }
    assert ranges[..|ranges|] == ranges;
  }

  lemma RoundSnoc(hosts: seq<string>, h: string)
    requires Round(hosts).Some? && ExpandHost(h).Some?
    ensures Round(hosts + [h]) == Some(Round(hosts).value + ExpandHost(h).value)
  {
    TryFlatMapOne(ExpandHost, h);
    TryFlatMapAppend(ExpandHost, hosts, [h]);
  }

  lemma RoundEmpty()
    ensures Round([]) == Some([]) && MaxLoad([]) == 0
  {
  }

  lemma RoundAborts(hosts: seq<string>, h: string)
    requires h in hosts && ExpandHost(h).None?
    ensures Round(hosts).None?
  {
    hide ExpandHost;
  }

  lemma {:induction false} MaxLoadSnoc(hosts: seq<string>, h: string)
    ensures MaxLoad(hosts + [h]) == 0 <==> MaxLoad(hosts) == 0 && !Expandable(h)
  {
    hide Load, Expandable;
    var all := hosts + [h];
    assert forall x :: x in all <==> x in hosts || x == h;
    assert Load(h) <= MaxLoad(all);
    forall x | x in hosts ensures Load(x) <= MaxLoad(all) {}
  }

  /** What one token of a round becomes; `ok` is false when it aborts the round. */
  method ExpandToken(host: string) returns (more: seq<string>, ok: bool)
    requires Fits(host)
    ensures ok <==> ExpandHost(host).Some?
    ensures ok ==> more == ExpandHost(host).value
  {
    if Expandable(host) {
      FitsInside(host);
      more, ok := ExpandGroup(Before(host), Inside(host), After(host), []);
    } else {
      more, ok := [host], true;
    }
  }

  /** `expandOnce`: a round's tokens with a positive count, or an abort with count zero. */
  method ExpandOnce(hosts: seq<string>) returns (result: seq<string>, count: nat)
    requires forall h :: h in hosts ==> Fits(h)
    ensures count == 0 <==> MaxLoad(hosts) == 0 || Round(hosts).None?
    ensures count > 0 ==> Some(result) == Round(hosts)
  {
    hide *;
    result, count := [], 0;
    RoundEmpty();
    assert hosts[..0] == [];
    for i := 0 to |hosts|
      invariant Round(hosts[..i]) == Some(result)
      invariant count == 0 <==> MaxLoad(hosts[..i]) == 0
    {
      var host := hosts[i];
      assert hosts[..i + 1] == hosts[..i] + [host];
      MaxLoadSnoc(hosts[..i], host);
      var more, ok := ExpandToken(host);
      if !ok {
        RoundAborts(hosts, host);
        return result, 0;
      }
      RoundSnoc(hosts[..i], host);
      result := result + more;
      count := if Expandable(host) then count + 1 else count;
    }
    assert hosts[..|hosts|] == hosts;
  }

  // ----- Group references ----------------------------------------------------

  type Resolver = string -> seq<string>

  /** What one expanded token contributes. */
  function Resolve(resolver: Resolver, token: string): seq<string> {
    if !HasPrefix(token, GROUP_PREFIX) then [token]
    else if token[1..] == "" then []
    else resolver(token[1..])
  }

  function ResolveAll(resolver: Resolver, tokens: seq<string>): seq<string> {
    FlatMap(t => Resolve(resolver, t), tokens)
  }

  lemma ResolveAllSnoc(resolver: Resolver, tokens: seq<string>, t: string)
    ensures ResolveAll(resolver, tokens + [t]) == ResolveAll(resolver, tokens) + Resolve(resolver, t)
  {
    var f := u => Resolve(resolver, u);
    FlatMapAppend(f, tokens, [t]);
    FlatMapSame(f, u => Resolve(resolver, u), tokens + [t]);
    FlatMapSame(f, u => Resolve(resolver, u), tokens);
    FlatMapOne(f, t);
  }

  lemma ResolveAllMembers(resolver: Resolver, tokens: seq<string>, x: string)
    ensures x in ResolveAll(resolver, tokens) <==> exists t :: t in tokens && x in Resolve(resolver, t)
  {
    var f := t => Resolve(resolver, t);
    FlatMapSame(f, t => Resolve(resolver, t), tokens);
    FlatMapMembers(f, tokens, x);
  }

  /**
   A name comes out of group lookup if and only if it is a token that is no group
   reference, or a member of a group that a token refers to by its name behind "@".
   */
  lemma ResolvedIff(resolver: Resolver, tokens: seq<string>, x: string)
    ensures x in ResolveAll(resolver, tokens) <==>
            || (x in tokens && !("@" <= x))
            || exists g :: g != "" && "@" + g in tokens && x in resolver(g)
  {
    ResolveAllMembers(resolver, tokens, x);
    hide ResolveAll;
    if t :| t in tokens && x in Resolve(resolver, t) {
      if HasPrefix(t, GROUP_PREFIX) { assert t == "@" + t[1..]; }
    }
    if x in tokens && !("@" <= x) { assert x in Resolve(resolver, x); }
    if g :| g != "" && "@" + g in tokens && x in resolver(g) {
      assert ("@" + g)[1..] == g;
      assert x in Resolve(resolver, "@" + g);
    }
  }

  /** `result` lists `all` without repetition, and `seen` is its set. */
  ghost predicate Listed(seen: set<string>, result: seq<string>, all: seq<string>) {
    seen == Elements(all) && result == Dedupe(all)
  }

  lemma ListedSnoc(seen: set<string>, result: seq<string>, all: seq<string>, s: string)
    requires Listed(seen, result, all)
    ensures s in seen ==> Listed(seen, result, all + [s])
    ensures s !in seen ==> Listed(seen + {s}, result + [s], all + [s])
  {
    DedupeSnoc(all, s);
    assert s in all <==> s in Elements(all);
    assert Elements(all + [s]) == Elements(all) + {s};
  }

  /** The closure `add` of `resolveGroups`, applied to a list of names in turn. */
  method AddAll(seen: set<string>, result: seq<string>, names: seq<string>, ghost all: seq<string>)
    returns (seen': set<string>, result': seq<string>)
    requires Listed(seen, result, all)
    ensures Listed(seen', result', all + names)
  {
    hide *;
    seen', result' := seen, result;
    assert all + names[..0] == all;
    for i := 0 to |names|
      invariant Listed(seen', result', all + names[..i])
    {
      ListedSnoc(seen', result', all + names[..i], names[i]);
      assert all + names[..i + 1] == (all + names[..i]) + [names[i]];
      if names[i] !in seen' {
        seen', result' := seen' + {names[i]}, result' + [names[i]];
      }
    }
    assert names[..|names|] == names;
  }

  lemma DedupedNames(resolver: Resolver, tokens: seq<string>)
    ensures forall x :: x in Dedupe(ResolveAll(resolver, tokens)) <==>
              || (x in tokens && !("@" <= x))
              || exists g :: g != "" && "@" + g in tokens && x in resolver(g)
  {
    hide ResolveAll, Dedupe;
    var all := ResolveAll(resolver, tokens);
    forall x ensures x in Dedupe(all) <==>
                     || (x in tokens && !("@" <= x))
                     || exists g :: g != "" && "@" + g in tokens && x in resolver(g)
    {
      ResolvedIff(resolver, tokens, x);
      assert x in Dedupe(all) <==> x in Elements(Dedupe(all));
      assert x in all <==> x in Elements(all);
    }
  }

  method ResolveGroups(resolver: Resolver, tokens: seq<string>) returns (result: seq<string>)
    ensures result == Dedupe(ResolveAll(resolver, tokens))
    ensures Distinct(result)
    ensures forall x :: x in result <==>
              || (x in tokens && !("@" <= x))
              || exists g :: g != "" && "@" + g in tokens && x in resolver(g)
  {
    var seen: set<string> := {};
    result := [];
    for i := 0 to |tokens|
      invariant Listed(seen, result, ResolveAll(resolver, tokens[..i]))
    {
      hide Listed, ResolveAll;
      var tok := tokens[i];
      ghost var all := ResolveAll(resolver, tokens[..i]);
      assert tokens[..i + 1] == tokens[..i] + [tok];
      ResolveAllSnoc(resolver, tokens[..i], tok);
      if !HasPrefix(tok, GROUP_PREFIX) {
        seen, result := AddAll(seen, result, [tok], all);
      } else {
        var name := tok[1..];
        if name == "" {
          assert all + [] == all;
          continue;
        }
        seen, result := AddAll(seen, result, resolver(name), all);
      }
    }
    assert tokens[..|tokens|] == tokens;
    DedupedNames(resolver, tokens);
  }

  // ----- Expand --------------------------------------------------------------

  function PreList(list: seq<string>): seq<string> {
    FlatMap(TopLevelParts, list)
  }

  /** The value of `Expand`. */
  function Expanded(resolver: Resolver, list: seq<string>): (r: seq<string>)
    ensures Distinct(r)
  {
    Dedupe(ResolveAll(resolver, Rounds(PreList(list))))
  }

  method Expand(resolver: Resolver, list: seq<string>) returns (result: seq<string>)
    requires forall t :: t in PreList(list) ==> Fits(t)
    ensures result == Expanded(resolver, list)
  {
    var preList: seq<string> := [];
    for i := 0 to |list|
      invariant preList == PreList(list[..i])
    {
      var parts := SplitTopLevel(list[i]);
      preList := preList + parts;
      assert list[..i + 1] == list[..i] + [list[i]];
      FlatMapAppend(TopLevelParts, list[..i], [list[i]]);
      FlatMapOne(TopLevelParts, list[i]);
    }
    assert list[..|list|] == list;

    var expanded := preList;
    while true
      invariant Rounds(expanded) == Rounds(PreList(list))
      invariant forall h :: h in expanded ==> Fits(h)
      decreases MaxLoad(expanded)
    {
      var onceExpanded, count := ExpandOnce(expanded);
      if count == 0 {
        break;
      }
      RoundFits(expanded);
      RoundShrinks(expanded);
      expanded := onceExpanded;
    }
    assert Rounds(expanded) == expanded;
    result := ResolveGroups(resolver, expanded);
  }
}
