/**
 What a node pattern means, from its text up (internal/pkg/hostlist/hostlist.go):
 where a list is cut, which names a bracket group stands for, what an invalid group
 does to a whole list, and which nodes Expand ends with.
 */
module HostlistMeaning {
  import opened Text
  import opened Decimal
  import opened HostlistExpand
  import opened Hostlist

  // ----- Where a list is cut -------------------------------------------------

  /** The bracket depth after some text. */
  function DepthAfter(s: string, depth: nat): nat {
    if s == [] then depth else DepthAfter(s[1..], Deeper(s[0], depth))
  }

  lemma {:induction false} DepthSnoc(s: string, c: char, depth: nat)
    ensures DepthAfter(s + [c], depth) == Deeper(c, DepthAfter(s, depth))
    decreases |s|
  {
    if s == [] {
      assert DepthAfter([c][1..], Deeper(c, depth)) == Deeper(c, depth);
    } else {
      assert (s + [c])[1..] == s[1..] + [c];
      DepthSnoc(s[1..], c, Deeper(s[0], depth));
    }
  }

  lemma CountSnoc(s: string, c: char, j: nat, x: char)
    requires j <= |s|
    ensures multiset((s + [c])[j..])[x] == multiset(s[j..])[x] + (if x == c then 1 else 0)
  {
    assert (s + [c])[j..] == s[j..] + [c];
  }

  /** No text that ends here has more opening than closing brackets by more than the depth, and some has as many. */
  lemma {:induction false} DepthCounts(s: string)
    ensures forall j :: 0 <= j <= |s| ==> multiset(s[j..])['['] <= multiset(s[j..])[']'] + DepthAfter(s, 0)
    ensures exists j :: 0 <= j <= |s| && multiset(s[j..])['['] == multiset(s[j..])[']'] + DepthAfter(s, 0)
    decreases |s|
  {
    assert s[|s|..] == [];
    if s != [] {
      var n := |s| - 1;
      var t, c := s[..n], s[n];
      assert s == t + [c];
      DepthCounts(t);
      DepthSnoc(t, c, 0);
      hide DepthAfter;
      forall j | 0 <= j <= n
        ensures multiset(s[j..])['['] == multiset(t[j..])['['] + (if '[' == c then 1 else 0)
        ensures multiset(s[j..])[']'] == multiset(t[j..])[']'] + (if ']' == c then 1 else 0)
      {
        CountSnoc(t, c, j, '[');
        CountSnoc(t, c, j, ']');
      }
      var k :| 0 <= k <= |t| && multiset(t[k..])['['] == multiset(t[k..])[']'] + DepthAfter(t, 0);
      if c == ']' && DepthAfter(t, 0) == 0 {
        assert multiset(s[|s|..])['['] == multiset(s[|s|..])[']'] + DepthAfter(s, 0);
      } else {
        assert multiset(s[k..])['['] == multiset(s[k..])[']'] + DepthAfter(s, 0);
      }
    }
  }

  /** The parts of a text, the last of which goes on with the first of more parts. */
  function Onto(parts: seq<string>, more: seq<string>): seq<string>
    requires |parts| >= 1 && |more| >= 1
  {
    parts[..|parts| - 1] + Attach(parts[|parts| - 1], more)
  }

  lemma OntoAttach(p: string, parts: seq<string>, more: seq<string>)
    requires |parts| >= 1 && |more| >= 1
    ensures Attach(p, Onto(parts, more)) == Onto(Attach(p, parts), more)
  {
    var n := |parts| - 1;
    if n == 0 {
      AttachAttach(p, parts[0], more);
      assert parts[..0] == [] && Attach(p, parts)[..0] == [];
    } else {
      assert Attach(p, parts)[..n] == Attach(p, parts[..n]);
    }
  }

  lemma OntoCons(head: string, parts: seq<string>, more: seq<string>)
    requires |parts| >= 1 && |more| >= 1
    ensures [head] + Onto(parts, more) == Onto([head] + parts, more)
  {
    assert ([head] + parts)[..|parts|] == [head] + parts[..|parts| - 1];
  }

  lemma OntoStart(more: seq<string>)
    requires |more| >= 1
    ensures Onto([""], more) == more
  {
    AttachEmpty(more);
  }

  /** Splitting a text that goes on. */
  lemma {:induction false} SplitOn(a: string, rest: string, depth: nat)
    ensures SplitFrom(a + rest, depth) == Onto(SplitFrom(a, depth), SplitFrom(rest, DepthAfter(a, depth)))
    decreases |a|
  {
    hide Onto, Attach, Deeper;
    if a == [] {
      assert a + rest == rest;
      OntoStart(SplitFrom(rest, depth));
    } else {
      assert (a + rest)[0] == a[0] && (a + rest)[1..] == a[1..] + rest;
      var next := if a[0] == ',' && depth == 0 then 0 else Deeper(a[0], depth);
      CommaStays(a[0], depth);
      SplitOn(a[1..], rest, next);
      if a[0] == ',' && depth == 0 {
        OntoCons("", SplitFrom(a[1..], next), SplitFrom(rest, DepthAfter(a, depth)));
      } else {
        OntoAttach([a[0]], SplitFrom(a[1..], next), SplitFrom(rest, DepthAfter(a, depth)));
      }
    }
  }

  lemma CommaStays(c: char, depth: nat)
    ensures c == ',' ==> Deeper(c, depth) == depth
  {
  }

  /** At a comma outside brackets the list is cut. */
  lemma CutOutside(a: string, b: string)
    requires forall j :: 0 <= j <= |a| ==> multiset(a[j..])['['] <= multiset(a[j..])[']']
    ensures TopLevelParts(a + "," + b) == TopLevelParts(a) + TopLevelParts(b)
  {
    DepthCounts(a);
    hide DepthAfter;
    SplitOn(a, "," + b, 0);
    assert a + "," + b == a + ("," + b) && ("," + b)[1..] == b;
    OntoComma(SplitFrom(a, 0), SplitFrom(b, 0));
    hide Onto, Attach;
  }

  lemma OntoComma(parts: seq<string>, more: seq<string>)
    requires |parts| >= 1
    ensures Onto(parts, [""] + more) == parts + more
  {
    var n := |parts| - 1;
    assert parts[n] + "" == parts[n];
    assert parts == parts[..n] + [parts[n]];
  }

  lemma SplitOne(c: char, depth: nat)
    requires c != ',' || depth > 0
    ensures SplitFrom([c], depth) == [[c]]
  {
    assert [c][1..] == [];
    assert [c] + "" == [c];
  }

  /** Nowhere else: a text whose commas are all inside brackets is one part. */
  lemma {:induction false} NoCutInside(s: string)
    requires forall i :: 0 <= i < |s| && s[i] == ',' ==>
               exists j :: 0 <= j <= i && multiset(s[j..i])['['] > multiset(s[j..i])[']']
    ensures TopLevelParts(s) == [s]
    decreases |s|
  {
    if s != [] {
      var n := |s| - 1;
      var t, c := s[..n], s[n];
      assert s == t + [c];
      forall i | 0 <= i < n && t[i] == ','
        ensures exists j :: 0 <= j <= i && multiset(t[j..i])['['] > multiset(t[j..i])[']']
      {
        var j :| 0 <= j <= i && multiset(s[j..i])['['] > multiset(s[j..i])[']'];
        assert t[j..i] == s[j..i];
      }
      NoCutInside(t);
      DepthCounts(t);
      if c == ',' {
        var j :| 0 <= j <= n && multiset(s[j..n])['['] > multiset(s[j..n])[']'];
        assert t[j..] == s[j..n];
      }
      SplitOn(t, [c], 0);
      SplitOne(c, DepthAfter(t, 0));
      assert [t][..0] == [];
    }
  }

  // ----- What one bracket group stands for -----------------------------------

  /** A piece without a dash stands for itself if it is made of digits, and is invalid otherwise. */
  lemma PlainPiece(piece: string)
    requires '-' !in piece
    ensures RangeItems(piece) == if forall c :: c in piece ==> '0' <= c <= '9' then Some([piece]) else None
  {
    SplitNone(piece, '-');
    DigitsAre(piece);
  }

  lemma DigitsAre(s: string)
    ensures AllDigits(s) <==> forall c :: c in s ==> '0' <= c <= '9'
  {
    if AllDigits(s) {
      forall c | c in s ensures '0' <= c <= '9' {
        var i :| 0 <= i < |s| && s[i] == c;
        assert IsDigitChar(s[i]);
      }
    } else {
      var i :| 0 <= i < |s| && !IsDigitChar(s[i]);
      assert s[i] in s;
    }
  }

  lemma {:induction false} RangeAt(first: nat, last: int, width: nat, i: nat)
    requires first + i <= last
    ensures |NameRange(first, last, width)| == last - first + 1
    ensures NameRange(first, last, width)[i] == Pad(first + i, width)
    decreases last - first
  {
    hide Pad;
    if first < last {
      RangeAt(first + 1, last, width, if i > 0 then i - 1 else 0);
    } else {
      assert NameRange(first + 1, last, width) == [];
    }
  }

  lemma DashedRange(a: string, b: string)
    requires '-' !in a && '-' !in b
    ensures RangeItems(a + "-" + b) ==
            if AllDigits(a) && AllDigits(b) then Some(NameRange(ToInt(a), ToInt(b), |a|)) else None
  {
    hide ToInt, Split, AllDigits, NameRange;
    SplitCons(a, b, '-');
    SplitNone(b, '-');
    assert Split(a + "-" + b, '-') == [a, b];
  }

  /** A piece with one dash is invalid if an end is not made of digits. */
  lemma DashedInvalid(a: string, b: string)
    requires '-' !in a && '-' !in b
    ensures RangeItems(a + "-" + b).None? <==> !AllDigits(a) || !AllDigits(b)
  {
    DashedRange(a, b);
    hide RangeItems, AllDigits, NameRange;
  }

  /**
   Otherwise it stands for the numbers from one end to the other, in order, as wide as the
   first end is written.
   */
  lemma DashedItems(a: string, b: string, items: seq<string>, i: nat)
    requires '-' !in a && '-' !in b && AllDigits(a) && AllDigits(b) && ToNat(b) < MAX_INT
    requires RangeItems(a + "-" + b) == Some(items)
    ensures |items| == if ToNat(a) <= ToNat(b) then ToNat(b) - ToNat(a) + 1 else 0
    ensures i < |items| ==> items[i] == Pad(ToNat(a) + i, |a|)
  {
    hide *;
    DashedRange(a, b);
    Ends(a, b);
    if ToNat(a) <= ToNat(b) {
      RangeAt(ToNat(a), ToNat(b), |a|, if i <= ToNat(b) - ToNat(a) then i else 0);
    }
  }

  lemma Ends(a: string, b: string)
    requires AllDigits(a) && AllDigits(b) && ToNat(b) < MAX_INT
    ensures ToInt(b) == ToNat(b)
    ensures ToNat(a) <= ToNat(b) ==> ToInt(a) == ToNat(a)
    ensures ToNat(a) > ToNat(b) ==> NameRange(ToInt(a), ToInt(b), |a|) == []
  {
    hide ToNat, AllDigits;
  }

  /** A piece with more dashes stands for nothing, whatever is between them. */
  lemma ManyDashes(a: string, b: string, rest: string)
    requires '-' !in a && '-' !in b
    ensures RangeItems(a + "-" + (b + "-" + rest)) == Some([])
  {
    hide Split;
    SplitCons(a, b + "-" + rest, '-');
    SplitCons(b, rest, '-');
  }

  /** Pieces are put together in order, and one invalid piece makes the whole content invalid. */
  lemma ContentCons(piece: string, rest: string)
    requires ',' !in piece
    ensures ContentItems(piece) == RangeItems(piece)
    ensures ContentItems(piece + "," + rest) ==
            if RangeItems(piece).Some? && ContentItems(rest).Some?
            then Some(RangeItems(piece).value + ContentItems(rest).value) else None
  {
    SplitNone(piece, ',');
    SplitCons(piece, rest, ',');
    hide Split, RangeItems;
    if RangeItems(piece).Some? {
      TryFlatMapOne(RangeItems, piece);
      if ContentItems(rest).Some? { TryFlatMapAppend(RangeItems, [piece], Split(rest, ',')); }
    } else {
      assert piece in [piece];
    }
    if ContentItems(rest).None? { assert forall t :: t in Split(rest, ',') ==> t in [piece] + Split(rest, ','); }
  }

  /** The anatomy of a token, from its text: a group opens after text without brackets and closes at the next "]". */
  lemma GroupToken(prefix: string, content: string, rest: string)
    requires '[' !in prefix && ']' !in prefix && ']' !in content
    ensures var h := prefix + "[" + content + "]" + rest;
            Expandable(h) && Before(h) == prefix && Inside(h) == content && After(h) == rest
  {
    hide Index;
    var h := prefix + "[" + content + "]" + rest;
    assert h[..|prefix|] == prefix;
    IndexIs(h, '[', |prefix|);
    var j := |prefix| + 1 + |content|;
    assert h[..j] == prefix + "[" + content;
    IndexIs(h, ']', j);
    assert h[|prefix| + 1..j] == content && h[j + 1..] == rest;
  }

  lemma {:induction false} ProductAt(p: string, items: seq<string>, tails: seq<string>, i: nat, j: nat)
    requires i < |items| && j < |tails|
    ensures |Product(p, items, tails)| == |items| * |tails|
    ensures 0 <= i * |tails| + j < |items| * |tails|
    ensures Product(p, items, tails)[i * |tails| + j] == p + items[i] + tails[j]
    decreases i
  {
    ProductSize(p, items, tails);
    Within(i, j, |items|, |tails|);
    ProductCons(p, items, tails);
    hide Product;
    if i > 0 {
      var m := |tails|;
      ProductAt(p, items[1..], tails, i - 1, j);
      assert (i - 1) * m + j == i * m + j - m;
    }
  }

  lemma Within(i: nat, j: nat, n: nat, m: nat)
    requires i < n && j < m
    ensures 0 <= i * m + j < n * m
  {
    assert (i + 1) * m <= n * m;
  }

  lemma {:induction false} ProductSize(p: string, items: seq<string>, tails: seq<string>)
    ensures |Product(p, items, tails)| == |items| * |tails|
  {
    if items != [] {
      ProductSize(p, items[1..], tails);
      ProductCons(p, items, tails);
      hide Product;
      assert (|items| - 1) * |tails| + |tails| == |items| * |tails|;
    }
  }

  lemma CrossIsProduct(prefix: string, content: string, rest: string)
    requires '[' !in prefix && ']' !in prefix && ']' !in content && ContentItems(content).Some?
    ensures Cross(prefix + "[" + content + "]" + rest) == Product(prefix, ContentItems(content).value, Cross(rest))
  {
    GroupToken(prefix, content, rest);
    hide Product, Before, Inside, After, ContentItems, Expandable;
  }

  /**
   A token with a valid group stands for every item of the group with everything the rest
   stands for, the first group varying slowest.
   */
  lemma CrossOf(prefix: string, content: string, rest: string, all: seq<string>, items: seq<string>,
                tails: seq<string>, i: nat, j: nat)
    requires '[' !in prefix && ']' !in prefix && ']' !in content && ContentItems(content) == Some(items)
    requires all == Cross(prefix + "[" + content + "]" + rest) && tails == Cross(rest)
    ensures |all| == |items| * |tails|
    ensures i < |items| && j < |tails| ==>
              0 <= i * |tails| + j < |all| && all[i * |tails| + j] == prefix + items[i] + tails[j]
  {
    hide *;
    CrossIsProduct(prefix, content, rest);
    ProductSize(prefix, items, tails);
    if i < |items| && j < |tails| { ProductAt(prefix, items, tails, i, j); }
  }

  /** A token without a group stands for itself. */
  lemma CrossPlain(h: string)
    requires '[' !in h || ']' !in h
    ensures Cross(h) == [h] && FirstBad(h).None?
  {
  }

  /** A valid group is no obstacle, an invalid one stops the expansion at its round, if it is reached. */
  lemma FirstBadOf(prefix: string, content: string, rest: string, bad: Option<nat>)
    requires '[' !in prefix && ']' !in prefix && ']' !in content
    requires bad == FirstBad(prefix + "[" + content + "]" + rest)
    ensures ContentItems(content).None? ==> bad == Some(0)
    ensures ContentItems(content) == Some([]) ==> bad == None
    ensures ContentItems(content).Some? && ContentItems(content).value != [] ==>
              bad == if FirstBad(rest).None? then None else Some(FirstBad(rest).value + 1)
  {
    hide *;
    GroupToken(prefix, content, rest);
    FirstBadStep(prefix + "[" + content + "]" + rest, content, rest, bad);
  }

  lemma FirstBadStep(h: string, content: string, rest: string, bad: Option<nat>)
    requires Expandable(h) && Inside(h) == content && After(h) == rest && bad == FirstBad(h)
    ensures ContentItems(content).None? ==> bad == Some(0)
    ensures ContentItems(content) == Some([]) ==> bad == None
    ensures ContentItems(content).Some? && ContentItems(content).value != [] ==>
              bad == if FirstBad(rest).None? then None else Some(FirstBad(rest).value + 1)
  {
    hide Before, Inside, After, Expandable, ContentItems;
  }

  /** One token with an invalid first group leaves the whole list as it is: nothing in it is expanded. */
  lemma BadGroupStopsAll(hosts: seq<string>, prefix: string, content: string, rest: string)
    requires '[' !in prefix && ']' !in prefix && ']' !in content && ContentItems(content).None?
    requires prefix + "[" + content + "]" + rest in hosts
    ensures Rounds(hosts) == hosts
  {
    FirstBadOf(prefix, content, rest, FirstBad(prefix + "[" + content + "]" + rest));
    hide FirstBad, Round, MaxLoad, ContentItems;
    RoundStops(hosts);
  }

  // ----- What Expand ends with -----------------------------------------------

  /**
   Where no token has an invalid group: a node is named if and only if the tokens stand
   for its name, or for a reference to a group that has it. No node is named twice.
   */
  lemma ExpandIff(resolver: Resolver, list: seq<string>, x: string)
    requires forall t :: t in PreList(list) ==> FirstBad(t).None?
    ensures Distinct(Expanded(resolver, list))
    ensures x in Expanded(resolver, list) <==>
            || (!("@" <= x) && exists t :: t in PreList(list) && x in Cross(t))
            || exists g, t :: g != "" && t in PreList(list) && "@" + g in Cross(t) && x in resolver(g)
  {
    hide FirstBad, Cross, Rounds, PreList, ResolveAll, Dedupe;
    var tokens := PreList(list);
    WellFormedRounds(tokens);
    DedupedNames(resolver, Rounds(tokens));
    FlatMapMembers(Cross, tokens, x);
    forall g ensures "@" + g in Rounds(tokens) <==> exists t :: t in tokens && "@" + g in Cross(t) {
      FlatMapMembers(Cross, tokens, "@" + g);
    }
    if g :| g != "" && "@" + g in Rounds(tokens) && x in resolver(g) {
      var t :| t in tokens && "@" + g in Cross(t);
    }
  }

  /** Group lookup keeps the place of every token: a name stays, a reference gives way to the members in their order. */
  lemma ResolvedInOrder(resolver: Resolver, tokens: seq<string>, t: string)
    ensures ResolveAll(resolver, []) == []
    ensures !("@" <= t) ==> ResolveAll(resolver, tokens + [t]) == ResolveAll(resolver, tokens) + [t]
    ensures t != "" ==> ResolveAll(resolver, tokens + ["@" + t]) == ResolveAll(resolver, tokens) + resolver(t)
    ensures ResolveAll(resolver, tokens + ["@"]) == ResolveAll(resolver, tokens)
  {
    ResolveAllSnoc(resolver, tokens, t);
    ResolveAllSnoc(resolver, tokens, "@" + t);
    ResolveAllSnoc(resolver, tokens, "@");
    assert ("@" + t)[1..] == t && "@"[1..] == "";
  }

  /** The names come in the order in which what the tokens stand for names them first. */
  lemma ExpandOrder(resolver: Resolver, list: seq<string>, i: nat, j: nat)
    requires forall t :: t in PreList(list) ==> FirstBad(t).None?
    requires i < j < |Expanded(resolver, list)|
    ensures var all := ResolveAll(resolver, FlatMap(Cross, PreList(list)));
            var r := Expanded(resolver, list);
            exists k :: 0 <= k < |all| && all[k] == r[i] && r[j] !in all[..k + 1]
  {
    WellFormedRounds(PreList(list));
    hide FirstBad, Cross, Rounds, PreList, ResolveAll, Dedupe;
    DedupeOrder(ResolveAll(resolver, FlatMap(Cross, PreList(list))), i, j);
  }

  /** The tokens are the parts of the given texts. */
  lemma TokensOf(list: seq<string>, t: string)
    ensures t in PreList(list) <==> exists s :: s in list && t in TopLevelParts(s)
  {
    FlatMapMembers(TopLevelParts, list, t);
  }

  /** In order: the parts of each text follow those of the texts before it. */
  lemma TokensInOrder(list: seq<string>, s: string)
    ensures PreList([]) == [] && PreList(list + [s]) == PreList(list) + TopLevelParts(s)
  {
    FlatMapAppend(TopLevelParts, list, [s]);
    FlatMapOne(TopLevelParts, s);
  }

  lemma {:induction false} PlainList(list: seq<string>)
    requires forall t :: t in list ==> '[' !in t && ']' !in t && ',' !in t
    ensures PreList(list) == list
  {
    hide TopLevelParts;
    if list != [] {
      PlainList(list[1..]);
      assert forall i :: 0 <= i < |list[0]| ==> list[0][i] in list[0];
      NoCutInside(list[0]);
      assert list == [list[0]] + list[1..];
    }
  }

  /** A list of plain names and group references: the plain names, and the members of the groups. */
  lemma ExpandPlainIff(resolver: Resolver, list: seq<string>, x: string)
    requires forall t :: t in list ==> '[' !in t && ']' !in t && ',' !in t
    ensures x in Expanded(resolver, list) <==>
            || (!("@" <= x) && x in list)
            || exists g :: g != "" && "@" + g in list && x in resolver(g)
  {
    PlainList(list);
    hide PreList, Expanded;
    forall t | t in list ensures Cross(t) == [t] && FirstBad(t).None? { CrossPlain(t); }
    hide Cross, FirstBad;
    ExpandIff(resolver, list, x);
    if g :| g != "" && "@" + g in list && x in resolver(g) {
      assert "@" + g in Cross("@" + g);
    }
  }
}
