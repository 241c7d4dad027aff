/**
 The order in which profiles are resolved (internal/pkg/node/mergo.go). MergeNode merges
 the resolved profiles in turn, later ones over earlier ones, so the order decides which
 profile wins. The walk with its shared visited map lists what expanding every mention in
 full would list, each profile at its first place.
 */
module ProfileOrder {
  import opened Text
  import opened Profiles

  // ----- Expanding every mention ---------------------------------------------

  /**
   The list with every profile preceded by its own nested list, expanded in the same way,
   at every place that mentions it; only a profile that is being expanded is left out.
   */
  function Unfold(g: Graph, input: seq<string>, above: set<string>): seq<string>
    decreases |g.Keys - above|, |input|
  {
    if input == [] then []
    else if Negated(input[0]) then [input[0]] + Unfold(g, input[1..], above)
    else UnfoldOne(g, input[0], above) + Unfold(g, input[1..], above)
  }

  function UnfoldOne(g: Graph, id: string, above: set<string>): seq<string>
    decreases |g.Keys - above|, 0
  {
    if id in above then []
    else if id !in g then [id]
    else
      NestedShrinks(g, id, above);
      Unfold(g, g[id], above + {id}) + [id]
  }

  lemma {:induction false} UnfoldAppend(g: Graph, a: seq<string>, b: seq<string>, above: set<string>)
    ensures Unfold(g, a + b, above) == Unfold(g, a, above) + Unfold(g, b, above)
    decreases |a|
  {
    hide UnfoldOne;
    if a == [] {
      assert a + b == b;
    } else {
      assert (a + b)[0] == a[0] && (a + b)[1..] == a[1..] + b;
      UnfoldAppend(g, a[1..], b, above);
    }
  }

  /** Whatever is listed is reachable. */
  lemma {:induction false} UnfoldReachable(g: Graph, input: seq<string>, above: set<string>, q: string)
    requires q in Unfold(g, input, above) && !Negated(q)
    ensures Reachable(g, input, q)
    decreases |g.Keys - above|, |input|, 1
  {
    hide Reaches, UnfoldOne;
    assert input[0] in input;
    if !Negated(input[0]) && q in UnfoldOne(g, input[0], above) {
      UnfoldOneReachable(g, input[0], above, q);
    } else {
      UnfoldReachable(g, input[1..], above, q);
    }
  }

  lemma {:induction false} UnfoldOneReachable(g: Graph, id: string, above: set<string>, q: string)
    requires q in UnfoldOne(g, id, above) && !Negated(q)
    ensures Reaches(g, id, q)
    decreases |g.Keys - above|, 0, 0
  {
    hide Reaches, Unfold;
    ReachesSelf(g, id);
    if q != id {
      NestedShrinks(g, id, above);
      UnfoldReachable(g, g[id], above + {id}, q);
      var r :| r in g[id] && !Negated(r) && Reaches(g, r, q);
      ReachesEdge(g, id, r, q);
    }
  }

  /** A negated token is listed if and only if the list or a listed profile's list holds it. */
  lemma {:induction false} UnfoldNegations(g: Graph, input: seq<string>, above: set<string>, x: string)
    requires Negated(x)
    ensures x in Unfold(g, input, above) <==>
            || (x in input)
            || exists p :: p in Unfold(g, input, above) && !Negated(p) && p in g && x in g[p]
    decreases |g.Keys - above|, |input|, 1
  {
    hide UnfoldOne;
    if input != [] {
      assert forall t :: t in input <==> t == input[0] || t in input[1..];
      UnfoldNegations(g, input[1..], above, x);
      if !Negated(input[0]) {
        UnfoldOneNegations(g, input[0], above, x);
      }
      var u := Unfold(g, input[1..], above);
      var all := Unfold(g, input, above);
      hide Unfold;
      if p :| p in all && !Negated(p) && p in g && x in g[p] {
        assert p in u || (!Negated(input[0]) && p in UnfoldOne(g, input[0], above));
      }
    }
  }

  lemma {:induction false} UnfoldOneNegations(g: Graph, id: string, above: set<string>, x: string)
    requires Negated(x) && !Negated(id)
    ensures x in UnfoldOne(g, id, above) <==>
            exists p :: p in UnfoldOne(g, id, above) && !Negated(p) && p in g && x in g[p]
    decreases |g.Keys - above|, 0, 0
  {
    hide Unfold;
    if id !in above && id in g {
      NestedShrinks(g, id, above);
      UnfoldNegations(g, g[id], above + {id}, x);
      assert id in UnfoldOne(g, id, above);
    }
  }

  // ----- First places --------------------------------------------------------

  /** The profiles of a list that were not seen before, each at its first place. */
  function Fresh(s: seq<string>, seen: set<string>): seq<string> {
    if s == [] then []
    else if Negated(s[0]) || s[0] in seen then Fresh(s[1..], seen)
    else [s[0]] + Fresh(s[1..], seen + {s[0]})
  }

  function Plain(s: seq<string>): set<string> {
    set x | x in s && !Negated(x)
  }

  lemma {:induction false} FreshAppend(a: seq<string>, b: seq<string>, seen: set<string>)
    ensures Fresh(a + b, seen) == Fresh(a, seen) + Fresh(b, seen + Plain(a))
    decreases |a|
  {
    if a == [] {
      assert a + b == b && seen + Plain(a) == seen;
    } else {
      assert (a + b)[0] == a[0] && (a + b)[1..] == a[1..] + b;
      assert forall x :: x in a <==> x == a[0] || x in a[1..];
      if Negated(a[0]) || a[0] in seen {
        FreshAppend(a[1..], b, seen);
        assert seen + Plain(a[1..]) == seen + Plain(a);
      } else {
        FreshAppend(a[1..], b, seen + {a[0]});
        assert seen + {a[0]} + Plain(a[1..]) == seen + Plain(a);
      }
    }
  }

  lemma {:induction false} FreshMembers(s: seq<string>, seen: set<string>)
    ensures Elements(Fresh(s, seen)) == Plain(s) - seen
    decreases |s|
  {
    if s != [] {
      assert forall x :: x in s <==> x == s[0] || x in s[1..];
      if Negated(s[0]) || s[0] in seen {
        FreshMembers(s[1..], seen);
      } else {
        FreshMembers(s[1..], seen + {s[0]});
        assert Elements([s[0]] + Fresh(s[1..], seen + {s[0]})) == {s[0]} + Elements(Fresh(s[1..], seen + {s[0]}));
      }
    }
  }

  lemma FreshSame(s: seq<string>, t: seq<string>, seen: set<string>)
    requires Fresh(s, seen) == Fresh(t, seen)
    ensures seen + Plain(s) == seen + Plain(t)
  {
    hide Fresh, Plain, Elements;
    FreshMembers(s, seen);
    FreshMembers(t, seen);
    assert seen + Plain(s) == seen + (Plain(s) - seen) && seen + Plain(t) == seen + (Plain(t) - seen);
  }

  lemma FreshOne(id: string, seen: set<string>)
    ensures Fresh([id], seen) == if Negated(id) || id in seen then [] else [id]
  {
  }

  // ----- The walk against the expansion --------------------------------------

  /** Every profile that is visited and not being expanded has its nested profiles visited. */
  ghost predicate Finished(g: Graph, visited: set<string>, above: set<string>) {
    forall p, q :: p in visited && p !in above && Edge(g, p, q) ==> q in visited
  }

  /** A finished profile has nothing left to list. */
  lemma {:induction false} NothingLeft(g: Graph, input: seq<string>, visited: set<string>, above: set<string>,
                                       over: set<string>)
    requires above <= over && Finished(g, visited, above)
    requires forall r :: r in input && !Negated(r) ==> r in visited
    ensures Plain(Unfold(g, input, over)) <= visited - above
    decreases |g.Keys - over|, |input|
  {
    if input != [] {
      var id := input[0];
      assert id in input;
      NothingLeft(g, input[1..], visited, above, over);
      if !Negated(id) && id !in over && id in g {
        NestedShrinks(g, id, over);
        forall r | r in g[id] && !Negated(r) ensures r in visited { assert Edge(g, id, r); }
        NothingLeft(g, g[id], visited, above, over + {id});
      }
    }
  }

  /** The walk and the expansion have the same first places. */
  lemma {:induction false} WalkIsUnfold(g: Graph, input: seq<string>, visited: set<string>, above: set<string>)
    requires above <= visited && Finished(g, visited, above)
    ensures Fresh(Dfs(g, input, visited).output, visited - above) == Fresh(Unfold(g, input, above), visited - above)
    decreases |g.Keys - visited|, |input|
  {
    if input != [] {
      var id := input[0];
      if Negated(id) {
        WalkIsUnfold(g, input[1..], visited, above);
      } else if id in visited {
        WalkIsUnfold(g, input[1..], visited, above);
        WalkSkips(g, input, visited, above);
      } else {
        var nested := Nested(g, id, visited);
        if id in g {
          NestedShrinks(g, id, visited);
          WalkIsUnfold(g, g[id], visited + {id}, above + {id});
        }
        Shrinks(g.Keys, visited, nested.visited);
        NestedFinished(g, id, visited, above);
        WalkIsUnfold(g, input[1..], nested.visited, above);
        WalkJoins(g, input, visited, above);
      }
    }
  }

  lemma WalkSkips(g: Graph, input: seq<string>, visited: set<string>, above: set<string>)
    requires above <= visited && Finished(g, visited, above)
    requires input != [] && !Negated(input[0]) && input[0] in visited
    requires Fresh(Dfs(g, input[1..], visited).output, visited - above) ==
             Fresh(Unfold(g, input[1..], above), visited - above)
    ensures Fresh(Dfs(g, input, visited).output, visited - above) == Fresh(Unfold(g, input, above), visited - above)
  {
    var one, rest, seen := UnfoldOne(g, input[0], above), Unfold(g, input[1..], above), visited - above;
    assert Unfold(g, [input[0]], above) == one + [] == one by { hide UnfoldOne; }
    assert Unfold(g, input, above) == one + rest && Dfs(g, input, visited) == Dfs(g, input[1..], visited);
    hide Unfold, UnfoldOne, Dfs, Finished;
    NothingLeft(g, [input[0]], visited, above, above);
    FreshAppend(one, rest, seen);
    FreshMembers(one, seen);
    assert seen + Plain(one) == seen;
    hide Fresh, Plain;
    NoElements(Fresh(one, seen));
  }

  lemma NoElements(s: seq<string>)
    ensures s != [] ==> Elements(s) != {}
  {
    if s != [] { assert s[0] in Elements(s); }
  }

  lemma NestedFinished(g: Graph, id: string, visited: set<string>, above: set<string>)
    requires above <= visited && Finished(g, visited, above) && id !in visited
    ensures Finished(g, Nested(g, id, visited).visited, above)
  {
    if id in g { DfsCloses(g, g[id], visited + {id}); }
  }

  lemma WalkJoins(g: Graph, input: seq<string>, visited: set<string>, above: set<string>)
    requires above <= visited && input != [] && !Negated(input[0]) && input[0] !in visited
    requires input[0] in g ==>
               var seen := visited + {input[0]} - (above + {input[0]});
               Fresh(Dfs(g, g[input[0]], visited + {input[0]}).output, seen) ==
               Fresh(Unfold(g, g[input[0]], above + {input[0]}), seen)
    requires var now := Nested(g, input[0], visited).visited;
             Fresh(Dfs(g, input[1..], now).output, now - above) == Fresh(Unfold(g, input[1..], above), now - above)
    ensures Fresh(Dfs(g, input, visited).output, visited - above) == Fresh(Unfold(g, input, above), visited - above)
  {
    var id, seen := input[0], visited - above;
    var nested := Nested(g, id, visited);
    var rest, later := Dfs(g, input[1..], nested.visited), Unfold(g, input[1..], above);
    var inner := if id in g then Unfold(g, g[id], above + {id}) else [];
    assert Dfs(g, input, visited).output == nested.output + [id] + rest.output;
    assert UnfoldOne(g, id, above) == inner + [id];
    assert Unfold(g, input, above) == inner + [id] + later by { hide UnfoldOne; }
    assert visited + {id} - (above + {id}) == seen;
    assert Fresh(nested.output, seen) == Fresh(inner, seen);
    var now := nested.visited - above;
    NestedSeen(g, id, visited, above);
    hide *;
    FreshThrice(nested.output, id, rest.output, seen);
    FreshThrice(inner, id, later, seen);
    FreshSame(nested.output, inner, seen);
    assert seen + Plain(inner) + {id} == now;
  }

  lemma NestedSeen(g: Graph, id: string, visited: set<string>, above: set<string>)
    requires above <= visited && id !in visited && !Negated(id)
    ensures Nested(g, id, visited).visited - above == visited - above + Plain(Nested(g, id, visited).output) + {id}
  {
    var nested := Nested(g, id, visited);
    forall q ensures q in nested.visited - above <==> q in visited - above + Plain(nested.output) + {id} {
      if !Negated(q) { NestedLists(g, id, visited, q); }
      else if q in nested.visited && q !in visited {
        NestedPlain(g, id, visited, q);
      }
    }
  }

  lemma NestedPlain(g: Graph, id: string, visited: set<string>, q: string)
    requires id !in visited && !Negated(id) && q in Nested(g, id, visited).visited && q !in visited
    ensures !Negated(q)
  {
    if id in g && q != id { VisitedPlain(g, g[id], visited + {id}, q); }
  }

  lemma FreshThrice(a: seq<string>, id: string, b: seq<string>, seen: set<string>)
    requires !Negated(id)
    ensures Fresh(a + [id] + b, seen) ==
            Fresh(a, seen) + Fresh([id], seen + Plain(a)) + Fresh(b, seen + Plain(a) + {id})
  {
    FreshAppend(a + [id], b, seen);
    FreshAppend(a, [id], seen);
    assert seen + Plain(a + [id]) == seen + Plain(a) + {id};
  }

  // ----- The resolved list ---------------------------------------------------

  /** The tokens of a list that survive another. */
  function Kept(list: seq<string>, s: seq<string>): seq<string> {
    if s == [] then [] else Kept(list, s[..|s| - 1]) + (if Survives(list, s[|s| - 1]) then [s[|s| - 1]] else [])
  }

  lemma KeptSnoc(list: seq<string>, s: seq<string>, x: string)
    ensures Kept(list, s + [x]) == Kept(list, s) + if Survives(list, x) then [x] else []
  {
    assert (s + [x])[..|s + [x]| - 1] == s;
  }

  lemma {:induction false} DedupeClean(list: seq<string>, upTo: nat)
    requires upTo <= |list|
    ensures Dedupe(Cleaned(list, upTo)) == Kept(list, Fresh(list[..upTo], {}))
  {
    hide Survives, Dedupe, Kept, Fresh;
    if upTo > 0 {
      var x, before := list[upTo - 1], list[..upTo - 1];
      DedupeClean(list, upTo - 1);
      assert list[..upTo] == before + [x];
      FreshAppend(before, [x], {});
      FreshOne(x, {} + Plain(before));
      KeptSnoc(list, Fresh(before, {}), x);
      DedupeSnoc(Cleaned(list, upTo - 1), x);
      CleanedMembers(list, upTo - 1, x);
      if Survives(list, x) { SurvivesPlain(list, x); }
      assert Fresh(before, {}) + [] == Fresh(before, {});
      assert Cleaned(list, upTo - 1) + [] == Cleaned(list, upTo - 1);
    } else {
      assert list[..0] == [];
      assert Fresh([], {}) == [] && Kept(list, []) == [] && Dedupe<string>([]) == [] by { NoneKept(list); }
    }
  }

  lemma NoneKept(list: seq<string>)
    ensures Fresh([], {}) == [] && Kept(list, []) == [] && Dedupe<string>([]) == []
  {
  }

  /** Lists with the same first places and the same negations clean to the same names. */
  lemma CleanSame(s: seq<string>, t: seq<string>)
    requires Fresh(s, {}) == Fresh(t, {})
    requires forall x :: "~" + x in s <==> "~" + x in t
    ensures Dedupe(CleanList(s)) == Dedupe(CleanList(t))
  {
    hide Fresh, Dedupe, Kept;
    DedupeClean(s, |s|);
    DedupeClean(t, |t|);
    assert s[..|s|] == s && t[..|t|] == t;
    KeptSame(s, t, Fresh(s, {}));
  }

  lemma {:induction false} KeptSame(list: seq<string>, other: seq<string>, s: seq<string>)
    requires forall x :: "~" + x in list <==> "~" + x in other
    ensures Kept(list, s) == Kept(other, s)
  {
    if s != [] { KeptSame(list, other, s[..|s| - 1]); }
  }

  /** The walk and the expansion negate the same profiles. */
  lemma SameNegations(g: Graph, profiles: seq<string>, x: string)
    requires Negated(x) && Fresh(Dfs(g, profiles, {}).output, {}) == Fresh(Unfold(g, profiles, {}), {})
    ensures x in Dfs(g, profiles, {}).output <==> x in Unfold(g, profiles, {})
  {
    hide Dfs, Unfold, Fresh;
    var walked, unfolded := Dfs(g, profiles, {}), Unfold(g, profiles, {});
    DfsNegations(g, profiles, {}, x);
    UnfoldNegations(g, profiles, {}, x);
    FreshSame(walked.output, unfolded, {});
    forall p ensures p in walked.visited - {} <==> p in unfolded && !Negated(p) {
      assert p in unfolded && !Negated(p) <==> p in {} + Plain(unfolded);
      assert p in walked.output && !Negated(p) <==> p in {} + Plain(walked.output);
      if !Negated(p) { DfsLists(g, profiles, {}, p); }
      else if p in walked.visited { VisitedPlain(g, profiles, {}, p); }
    }
  }

  /**
   The resolved list is the full expansion of every mention, cleaned, each profile kept
   at its first place: on any graph, cycles included.
   */
  lemma ResolvedIsUnfolded(g: Graph, profiles: seq<string>)
    ensures NodeProfiles(g, profiles) == Dedupe(CleanList(Unfold(g, profiles, {})))
  {
    var s, t := Dfs(g, profiles, {}).output, Unfold(g, profiles, {});
    WalkIsUnfold(g, profiles, {}, {});
    var none: set<string> := {};
    assert none - none == none;
    forall x ensures "~" + x in s <==> "~" + x in t { SameNegations(g, profiles, "~" + x); }
    hide Dfs, Unfold, Fresh;
    CleanSame(s, t);
    ResolvedProfiles(g, profiles);
    DedupeDistinct(CleanList(s));
  }

  // ----- Who comes first -----------------------------------------------------

  /** A way down the nested lists to a place such that nothing to its left, nor it, leads to `q`. */
  ghost predicate Way(g: Graph, lists: seq<seq<string>>, at: seq<nat>, above: set<string>, q: string) {
    && |lists| == |at| >= 1
    && (forall j :: 0 <= j < |at| ==> at[j] < |lists[j]| && !Negated(lists[j][at[j]]))
    && (forall j :: 0 <= j < |at| - 1 ==> lists[j][at[j]] in g && lists[j + 1] == g[lists[j][at[j]]])
    && (forall j, k :: 0 <= j < k < |at| ==> lists[j][at[j]] != lists[k][at[k]])
    && (forall j :: 0 <= j < |at| ==> lists[j][at[j]] !in above)
    && (forall j :: 0 <= j < |at| ==> !Reachable(g, lists[j][..at[j]], q))
    && !Reaches(g, lists[|at| - 1][at[|at| - 1]], q) && !Negated(q)
  }

  lemma WayDown(g: Graph, lists: seq<seq<string>>, at: seq<nat>, above: set<string>, q: string)
    requires Way(g, lists, at, above, q) && |at| > 1
    ensures lists[0][at[0]] in g && lists[1] == g[lists[0][at[0]]]
    ensures Way(g, lists[1..], at[1..], above + {lists[0][at[0]]}, q)
  {
    hide Reachable, Reaches, Negated;
    var l, a := lists[1..], at[1..];
    assert forall j :: 0 <= j < |a| ==> l[j] == lists[j + 1] && a[j] == at[j + 1];
    assert lists[0 + 1] == g[lists[0][at[0]]];
    forall j | 0 <= j < |a| - 1 ensures l[j][a[j]] in g && l[j + 1] == g[l[j][a[j]]] {
      assert lists[(j + 1) + 1] == g[lists[j + 1][at[j + 1]]];
    }
    forall j | 0 <= j < |a| ensures !Reachable(g, l[j][..a[j]], q) && l[j][a[j]] !in above + {lists[0][at[0]]} {
      assert !Reachable(g, lists[j + 1][..at[j + 1]], q);
    }
  }

  /**
   The expansion reaches a named place with nothing before it but what is reachable from
   the entries to its left. `lists` are the nested lists on the way down and `at` the
   places taken in them.
   */
  lemma {:induction false} UnfoldAt(g: Graph, lists: seq<seq<string>>, at: seq<nat>, above: set<string>, q: string)
    returns (before: seq<string>, after: seq<string>)
    requires Way(g, lists, at, above, q)
    ensures Unfold(g, lists[0], above) == before + [lists[|at| - 1][at[|at| - 1]]] + after && q !in before
    decreases |at|
  {
    var list, i := lists[0], at[0];
    var id := list[i];
    assert !Negated(id) && id !in above && !Negated(q) && !Reachable(g, list[..i], q);
    assert |at| == 1 ==> !Reaches(g, id, q);
    hide *;
    if |at| == 1 {
      var own := UnfoldLast(g, id, above);
      if q in own { UnfoldOneReachable(g, id, above, q); }
      before, after := UnfoldEntry(g, list, i, above, q, own, id, []);
    } else {
      WayDown(g, lists, at, above, q);
      UnfoldInto(g, id, above);
      var b, a := UnfoldAt(g, lists[1..], at[1..], above + {id}, q);
      assert b + [lists[|at| - 1][at[|at| - 1]]] + a + [id] == b + [lists[|at| - 1][at[|at| - 1]]] + (a + [id]);
      before, after := UnfoldEntry(g, list, i, above, q, b, lists[|at| - 1][at[|at| - 1]], a + [id]);
    }
  }

  lemma UnfoldEntry(g: Graph, list: seq<string>, i: nat, above: set<string>, q: string,
                    own: seq<string>, p: string, more: seq<string>)
    returns (before: seq<string>, after: seq<string>)
    requires i < |list| && !Negated(list[i]) && !Negated(q) && !Reachable(g, list[..i], q)
    requires UnfoldOne(g, list[i], above) == own + [p] + more && q !in own
    ensures Unfold(g, list, above) == before + [p] + after && q !in before
  {
    hide *;
    var left, id, right := list[..i], list[i], list[i + 1..];
    assert list == left + ([id] + right);
    UnfoldAppend(g, left, [id] + right, above);
    UnfoldHead(g, id, right, above);
    if q in Unfold(g, left, above) { UnfoldReachable(g, left, above, q); }
    before, after := Unfold(g, left, above) + own, more + Unfold(g, right, above);
    Glue(Unfold(g, left, above), own, p, more, Unfold(g, right, above));
  }

  lemma Glue(left: seq<string>, before: seq<string>, p: string, after: seq<string>, more: seq<string>)
    ensures left + ((before + [p] + after) + more) == (left + before) + [p] + (after + more)
    ensures forall q :: q in left + before <==> q in left || q in before
  {
  }

  lemma UnfoldHead(g: Graph, id: string, right: seq<string>, above: set<string>)
    requires !Negated(id)
    ensures Unfold(g, [id] + right, above) == UnfoldOne(g, id, above) + Unfold(g, right, above)
  {
    hide UnfoldOne;
    assert ([id] + right)[1..] == right;
  }

  lemma UnfoldInto(g: Graph, id: string, above: set<string>)
    requires id !in above && id in g
    ensures UnfoldOne(g, id, above) == Unfold(g, g[id], above + {id}) + [id]
  {
  }

  lemma UnfoldLast(g: Graph, id: string, above: set<string>) returns (own: seq<string>)
    requires id !in above
    ensures UnfoldOne(g, id, above) == own + [id]
  {
    own := if id in g then Unfold(g, g[id], above + {id}) else [];
    assert [] + [id] == [id];
  }

  /** Cleaning and keeping first places do not put one name before another. */
  lemma {:induction false} CleanedPrecedes(list: seq<string>, upTo: nat, k: nat, p: string, q: string)
    requires k < upTo <= |list| && list[k] == p && q !in list[..k] && p != q && Survives(list, p)
    ensures Precedes(Cleaned(list, upTo), p, q)
  {
    hide Survives;
    var x, before := list[upTo - 1], Cleaned(list, upTo - 1);
    CleanedMembers(list, upTo - 1, q);
    if k == upTo - 1 {
      assert (before + [p])[..|before| + 1] == before + [p] && (before + [p])[|before|] == p;
    } else {
      CleanedPrecedes(list, upTo - 1, k, p, q);
      PrecedesMore(before, p, q, x);
      assert before + [] == before;
    }
  }

  /**
   A profile comes before another that nothing up to it leads to. `p` is named in the
   node's list, or in the list of a profile named there, and so on down: `lists` are these
   lists and `at` the places taken in them. If `q` is reachable neither from `p` nor from
   an entry to the left of one of the places, then `p` precedes `q` in the resolved list.
   */
  lemma EarlierFirst(g: Graph, profiles: seq<string>, lists: seq<seq<string>>, at: seq<nat>, q: string)
    requires |lists| == |at| >= 1 && lists[0] == profiles
    requires forall j :: 0 <= j < |at| ==> at[j] < |lists[j]| && !("~" <= lists[j][at[j]])
    requires forall j :: 0 <= j < |at| - 1 ==> lists[j][at[j]] in g && lists[j + 1] == g[lists[j][at[j]]]
    requires forall j, k :: 0 <= j < k < |at| ==> lists[j][at[j]] != lists[k][at[k]]
    requires forall j :: 0 <= j < |at| ==> !Reachable(g, lists[j][..at[j]], q)
    requires !Reaches(g, lists[|at| - 1][at[|at| - 1]], q)
    requires lists[|at| - 1][at[|at| - 1]] in NodeProfiles(g, profiles) && q in NodeProfiles(g, profiles)
    ensures exists a, b :: 0 <= a < b < |NodeProfiles(g, profiles)| &&
                           NodeProfiles(g, profiles)[a] == lists[|at| - 1][at[|at| - 1]] &&
                           NodeProfiles(g, profiles)[b] == q
  {
    hide Unfold, Dedupe, NodeProfiles, Reachable, Survives;
    var p, list, r := lists[|at| - 1][at[|at| - 1]], Unfold(g, profiles, {}), NodeProfiles(g, profiles);
    ResolvedProfiles(g, profiles);
    ResolvedIsUnfolded(g, profiles);
    assert Way(g, lists, at, {}, q);
    var before, after := UnfoldAt(g, lists, at, {}, q);
    DedupeMember(CleanList(list), p);
    CleanedMembers(list, |list|, p);
    ReachesSelf(g, p);
    assert list[|before|] == p && list[..|before|] == before;
    CleanedPrecedes(list, |list|, |before|, p, q);
    PrecedesDeduped(CleanList(list), p, q);
    PrecedesAt(r, p, q);
  }

  lemma PrecedesAt<T>(s: seq<T>, p: T, q: T)
    requires Precedes(s, p, q) && q in s
    ensures exists a, b :: 0 <= a < b < |s| && s[a] == p && s[b] == q
  {
    var k :| 0 <= k < |s| && s[k] == p && q !in s[..k + 1];
    var b :| 0 <= b < |s| && s[b] == q;
    assert forall i :: 0 <= i < k + 1 ==> s[i] == s[..k + 1][i];
  }

  /**
   The entries of the node's own list keep their order: an entry comes before every
   profile that is reachable from no entry up to it.
   */
  lemma EntriesInOrder(g: Graph, profiles: seq<string>, i: nat, q: string)
    requires i < |profiles| && profiles[i] in NodeProfiles(g, profiles) && q in NodeProfiles(g, profiles)
    requires !Reachable(g, profiles[..i + 1], q)
    ensures exists a, b :: 0 <= a < b < |NodeProfiles(g, profiles)| &&
                           NodeProfiles(g, profiles)[a] == profiles[i] && NodeProfiles(g, profiles)[b] == q
  {
    hide NodeProfiles, Reaches;
    ResolvedProfiles(g, profiles);
    assert profiles[..i + 1][i] == profiles[i];
    forall r | r in profiles[..i] ensures r in profiles[..i + 1] { }
    EarlierFirst(g, profiles, [profiles], [i], q);
  }

  /** So do the entries of the list that a profile of the node's list nests. */
  lemma NestedInOrder(g: Graph, profiles: seq<string>, k: nat, i: nat, q: string)
    requires k < |profiles| && profiles[k] in g && i < |g[profiles[k]]| && g[profiles[k]][i] != profiles[k]
    requires !("~" <= profiles[k])
    requires g[profiles[k]][i] in NodeProfiles(g, profiles) && q in NodeProfiles(g, profiles)
    requires !Reachable(g, profiles[..k], q) && !Reachable(g, g[profiles[k]][..i + 1], q)
    ensures exists a, b :: 0 <= a < b < |NodeProfiles(g, profiles)| &&
                           NodeProfiles(g, profiles)[a] == g[profiles[k]][i] && NodeProfiles(g, profiles)[b] == q
  {
    hide NodeProfiles, Reaches;
    var list := g[profiles[k]];
    ResolvedProfiles(g, profiles);
    assert list[..i + 1][i] == list[i];
    forall r | r in list[..i] ensures r in list[..i + 1] { }
    EarlierFirst(g, profiles, [profiles, list], [k, i], q);
  }

  /**
   Where no listed profile nests anything, the resolved list is the plain entries that the
   list does not negate, each once, in the order of first appearance.
   */
  lemma WithoutNesting(g: Graph, profiles: seq<string>)
    requires forall p :: p in profiles && p in g && !("~" <= p) ==> g[p] == []
    ensures forall p :: p in NodeProfiles(g, profiles) <==> p in profiles && !("~" <= p) && "~" + p !in profiles
    ensures forall i, j :: 0 <= i < j < |NodeProfiles(g, profiles)| ==>
              NodeProfiles(g, profiles)[i] != NodeProfiles(g, profiles)[j]
    ensures forall i, j :: 0 <= i < j < |NodeProfiles(g, profiles)| ==>
              exists k :: 0 <= k < |profiles| && profiles[k] == NodeProfiles(g, profiles)[i] &&
                          NodeProfiles(g, profiles)[j] !in profiles[..k + 1]
  {
    var r := NodeProfiles(g, profiles);
    ResolvedProfiles(g, profiles);
    forall i, j | 0 <= i < j < |r| ensures r[i] != r[j] { }
    hide *;
    FlatMembers(g, profiles);
    forall i, j | 0 <= i < j < |r|
      ensures exists k :: 0 <= k < |profiles| && profiles[k] == r[i] && r[j] !in profiles[..k + 1]
    {
      FlatOrder(g, profiles, i, j);
    }
  }

  lemma FlatMembers(g: Graph, profiles: seq<string>)
    requires forall p :: p in profiles && p in g && !("~" <= p) ==> g[p] == []
    ensures NodeProfiles(g, profiles) == Dedupe(CleanList(profiles))
    ensures forall p :: p in NodeProfiles(g, profiles) <==> p in profiles && !("~" <= p) && "~" + p !in profiles
  {
    ResolvedIsUnfolded(g, profiles);
    UnfoldFlat(g, profiles);
    hide Unfold, NodeProfiles, Dedupe;
    forall p ensures p in NodeProfiles(g, profiles) <==> p in profiles && !("~" <= p) && "~" + p !in profiles {
      DedupeMember(CleanList(profiles), p);
      CleanedMembers(profiles, |profiles|, p);
      assert profiles[..|profiles|] == profiles;
    }
  }

  lemma FlatOrder(g: Graph, profiles: seq<string>, i: nat, j: nat)
    requires forall p :: p in profiles && p in g && !("~" <= p) ==> g[p] == []
    requires i < j < |NodeProfiles(g, profiles)|
    ensures exists k :: 0 <= k < |profiles| && profiles[k] == NodeProfiles(g, profiles)[i] &&
                        NodeProfiles(g, profiles)[j] !in profiles[..k + 1]
  {
    hide NodeProfiles, Dedupe, Cleaned;
    var r := NodeProfiles(g, profiles);
    FlatMembers(g, profiles);
    DedupePrecedes(CleanList(profiles), i, j);
    assert r[j] in r;
    assert profiles[..|profiles|] == profiles;
    CleanedFrom(profiles, |profiles|, r[i], r[j]);
  }

  lemma {:induction false} UnfoldFlat(g: Graph, input: seq<string>)
    requires forall p :: p in input && p in g && !Negated(p) ==> g[p] == []
    ensures Unfold(g, input, {}) == input
    decreases |input|
  {
    if input != [] {
      assert input[0] in input && input == [input[0]] + input[1..];
      UnfoldFlat(g, input[1..]);
      var none: set<string> := {};
      if input[0] in g { UnfoldNone(g, none + {input[0]}); }
      assert [] + [input[0]] == [input[0]];
    }
  }

  lemma UnfoldNone(g: Graph, above: set<string>)
    ensures Unfold(g, [], above) == []
  {
  }

  /** What comes first in the cleaned list came first in the list. */
  lemma {:induction false} CleanedFrom(list: seq<string>, upTo: nat, p: string, q: string)
    requires upTo <= |list| && Precedes(Cleaned(list, upTo), p, q) && Survives(list, q)
    ensures Precedes(list[..upTo], p, q)
  {
    hide Survives;
    var s := Cleaned(list, upTo);
    var k :| 0 <= k < |s| && s[k] == p && q !in s[..k + 1];
    var before, x := Cleaned(list, upTo - 1), list[upTo - 1];
    assert list[..upTo] == list[..upTo - 1] + [x];
    if k < |before| {
      assert before[k] == p && before[..k + 1] == s[..k + 1];
      CleanedFrom(list, upTo - 1, p, q);
      PrecedesMore(list[..upTo - 1], p, q, x);
    } else {
      assert s[..k + 1] == s && p == x;
      CleanedMembers(list, upTo, q);
      assert list[..upTo][upTo - 1] == p && list[..upTo][..upTo] == list[..upTo];
    }
  }

  /** `cleanList` keeps exactly the plain tokens that the list does not negate, at their places. */
  lemma CleanedAt(list: seq<string>) returns (places: seq<nat>)
    ensures |places| == |CleanList(list)|
    ensures forall i, j :: 0 <= i < j < |places| ==> places[i] < places[j]
    ensures forall k: nat :: k in places <==> k < |list| && !("~" <= list[k]) && "~" + list[k] !in list
    ensures forall i :: 0 <= i < |places| ==> places[i] < |list| && CleanList(list)[i] == list[places[i]]
  {
    places := CleanedPlaces(list, |list|);
    forall k: nat ensures k in places <==> k < |list| && !("~" <= list[k]) && "~" + list[k] !in list {
      assert k < |list| ==> (Survives(list, list[k]) <==> !("~" <= list[k]) && "~" + list[k] !in list);
    }
    hide Cleaned;
  }

  ghost predicate Places(list: seq<string>, n: nat, kept: seq<string>, places: seq<nat>) {
    && |places| == |kept| && n <= |list|
    && (forall i, j :: 0 <= i < j < |places| ==> places[i] < places[j])
    && (forall k: nat :: k in places <==> k < n && Survives(list, list[k]))
    && (forall i :: 0 <= i < |places| ==> places[i] < n && kept[i] == list[places[i]])
  }

  lemma {:induction false} CleanedPlaces(list: seq<string>, upTo: nat) returns (places: seq<nat>)
    requires upTo <= |list|
    ensures Places(list, upTo, Cleaned(list, upTo), places)
  {
    if upTo == 0 {
      places := [];
    } else {
      hide Survives, Places;
      places := CleanedPlaces(list, upTo - 1);
      var before := Cleaned(list, upTo - 1);
      PlacesSnoc(list, upTo - 1, before, places);
      if Survives(list, list[upTo - 1]) { places := places + [upTo - 1]; }
      assert before + [] == before;
    }
  }

  lemma PlacesSnoc(list: seq<string>, n: nat, kept: seq<string>, places: seq<nat>)
    requires n < |list| && Places(list, n, kept, places)
    ensures if Survives(list, list[n]) then Places(list, n + 1, kept + [list[n]], places + [n])
            else Places(list, n + 1, kept, places)
  {
    hide Survives;
    forall k: nat ensures k in places + [n] <==> k in places || k == n { }
  }

  /** Reachable means: at the end of a chain of plain names, each in the nested list of the one before. */
  lemma ReachableIff(g: Graph, roots: seq<string>, q: string)
    ensures Reachable(g, roots, q) <==>
            exists path: seq<string> ::
              && |path| >= 1 && path[0] in roots && path[|path| - 1] == q
              && (forall i :: 0 <= i < |path| ==> !("~" <= path[i]))
              && (forall i :: 0 <= i < |path| - 1 ==> path[i] in g && path[i + 1] in g[path[i]])
  {
    if Reachable(g, roots, q) {
      var path := ChainTo(g, roots, q);
      assert path[0] in roots;
    }
    if path: seq<string> :|
      && |path| >= 1 && path[0] in roots && path[|path| - 1] == q
      && (forall i :: 0 <= i < |path| ==> !("~" <= path[i]))
      && (forall i :: 0 <= i < |path| - 1 ==> path[i] in g && path[i + 1] in g[path[i]]) {
      hide Reachable;
      ChainReaches(g, roots, path);
    }
  }

  ghost predicate Chain(g: Graph, roots: seq<string>, path: seq<string>) {
    && |path| >= 1 && path[0] in roots
    && (forall i :: 0 <= i < |path| ==> !("~" <= path[i]))
    && (forall i :: 0 <= i < |path| - 1 ==> path[i] in g && path[i + 1] in g[path[i]])
  }

  lemma ChainTo(g: Graph, roots: seq<string>, q: string) returns (path: seq<string>)
    requires Reachable(g, roots, q)
    ensures Chain(g, roots, path) && path[|path| - 1] == q
  {
    var r :| r in roots && !Negated(r) && Reaches(g, r, q);
    path :| Path(g, path, r, q);
    forall i | 0 <= i < |path| ensures !("~" <= path[i]) {
      if i > 0 { assert Edge(g, path[i - 1], path[i - 1 + 1]); }
    }
    forall i | 0 <= i < |path| - 1 ensures path[i] in g && path[i + 1] in g[path[i]] {
      assert Edge(g, path[i], path[i + 1]);
    }
  }

  lemma ChainReaches(g: Graph, roots: seq<string>, path: seq<string>)
    requires Chain(g, roots, path)
    ensures Reachable(g, roots, path[|path| - 1])
  {
    var r := path[0];
    forall i | 0 <= i < |path| - 1 ensures Edge(g, path[i], path[i + 1]) { assert !Negated(path[i + 1]); }
    assert Path(g, path, r, path[|path| - 1]);
    assert Reaches(g, r, path[|path| - 1]) && !Negated(r);
  }
}
