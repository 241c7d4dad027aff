/**
 Profile resolution (internal/pkg/node/mergo.go, internal/pkg/node/methods.go): a
 depth-first walk over a possibly cyclic profile graph with a shared visited map,
 followed by the removal of everything that was negated anywhere.
 */
module Profiles {
  import opened Text

  /** The nested profile list of every defined profile. */
  type Graph = map<string, seq<string>>

  predicate Negated(id: string) {
    HasPrefix(id, "~")
  }

  // ----- The walk ------------------------------------------------------------

  datatype Walked = Walked(output: seq<string>, visited: set<string>)

  /** The value of `getProfilesProfiles`: its output, and the visited map it leaves. */
  function Dfs(g: Graph, input: seq<string>, visited: set<string>): (r: Walked)
    ensures visited <= r.visited
    decreases |g.Keys - visited|, |input|
  {
    if input == [] then Walked([], visited)
    else
      var id := input[0];
      if Negated(id) then
        var rest := Dfs(g, input[1..], visited);
        Walked([id] + rest.output, rest.visited)
      else if id in visited then Dfs(g, input[1..], visited)
      else
        var nested := Nested(g, id, visited);
        Shrinks(g.Keys, visited, nested.visited);
        var rest := Dfs(g, input[1..], nested.visited);
        Walked(nested.output + [id] + rest.output, rest.visited)
  }

  /** What visiting one profile adds before the profile itself. */
  function Nested(g: Graph, id: string, visited: set<string>): (r: Walked)
    requires id !in visited
    ensures visited + {id} <= r.visited
    decreases |g.Keys - visited|, 0
  {
    if id in g then
      assert id in g.Keys - visited && g.Keys - (visited + {id}) == (g.Keys - visited) - {id};
      Dfs(g, g[id], visited + {id})
    else Walked([], visited + {id})
  }

  lemma Shrinks(keys: set<string>, a: set<string>, b: set<string>)
    requires a <= b
    ensures |keys - b| <= |keys - a|
  {
    assert keys - a == (keys - b) + (keys * (b - a));
    assert (keys - b) !! (keys * (b - a));
  }

  /** The visited map, shared by all levels of the recursion. */
  class Visited {
    var ids: set<string>

    constructor ()
      ensures ids == {}
    {
      ids := {};
    }
  }

  /** What is left of the input accounts for the rest of the walk. */
  ghost predicate SoFar(g: Graph, input: seq<string>, i: nat, start: set<string>, visited: set<string>,
                        output: seq<string>) {
    && i <= |input| && start <= visited
    && Dfs(g, input, start) == Walked(output + Dfs(g, input[i..], visited).output, Dfs(g, input[i..], visited).visited)
  }

  lemma SoFarBounds(g: Graph, input: seq<string>, start: set<string>)
    ensures SoFar(g, input, 0, start, start, [])
    ensures forall visited, output :: SoFar(g, input, |input|, start, visited, output) ==>
                                      Dfs(g, input, start) == Walked(output, visited)
  {
    assert input[0..] == input && input[|input|..] == [];
    assert [] + Dfs(g, input, start).output == Dfs(g, input, start).output;
    assert forall output: seq<string> :: output + [] == output;
  }

  lemma SoFarStep(g: Graph, input: seq<string>, i: nat, start: set<string>, visited: set<string>, output: seq<string>)
    requires i < |input| && SoFar(g, input, i, start, visited, output)
    ensures start <= visited
    ensures var id := input[i];
            if Negated(id) then SoFar(g, input, i + 1, start, visited, output + [id])
            else if id in visited then SoFar(g, input, i + 1, start, visited, output)
            else
              var nested := if id in g then Dfs(g, g[id], visited + {id}) else Walked([], visited + {id});
              SoFar(g, input, i + 1, start, nested.visited, output + nested.output + [id])
  {
    var id, rest := input[i], input[i + 1..];
    assert input[i..][1..] == rest;
    var all := Dfs(g, input[i..], visited);
    if Negated(id) {
      assert output + ([id] + Dfs(g, rest, visited).output) == (output + [id]) + Dfs(g, rest, visited).output;
    } else if id !in visited {
      var nested := Nested(g, id, visited);
      var tail := Dfs(g, rest, nested.visited);
      assert all == Walked(nested.output + [id] + tail.output, tail.visited);
      assert output + (nested.output + [id] + tail.output) == (output + nested.output + [id]) + tail.output;
    }
  }

  method GetProfilesProfiles(g: Graph, input: seq<string>, visited: Visited) returns (output: seq<string>)
    modifies visited
    ensures Walked(output, visited.ids) == Dfs(g, input, old(visited.ids))
    decreases |g.Keys - visited.ids|
  {
    hide *;
    output := [];
    ghost var start := visited.ids;
    SoFarBounds(g, input, start);
    for i := 0 to |input|
      invariant SoFar(g, input, i, start, visited.ids, output)
    {
      var id := input[i];
      SoFarStep(g, input, i, start, visited.ids, output);
      if Negated(id) {
        output := output + [id];
      } else if id in visited.ids {
      } else {
        if id in g { Visiting(g, id, start, visited.ids); }
        visited.ids := visited.ids + {id};
        assert output + [] == output;
        if id in g {
          var nested := GetProfilesProfiles(g, g[id], visited);
          output := output + nested;
        }
        output := output + [id];
      }
    }
  }

  lemma Visiting(g: Graph, id: string, start: set<string>, visited: set<string>)
    requires start <= visited && id in g && id !in visited
    ensures |g.Keys - (visited + {id})| < |g.Keys - start|
  {
    Shrinks(g.Keys, start, visited);
    assert g.Keys - (visited + {id}) == (g.Keys - visited) - {id};
  }

  // ----- Reachability --------------------------------------------------------

  /** `p` names `q` as a nested profile. */
  predicate Edge(g: Graph, p: string, q: string) {
    p in g && q in g[p] && !Negated(q)
  }

  ghost predicate Path(g: Graph, path: seq<string>, a: string, b: string) {
    && |path| >= 1 && path[0] == a && path[|path| - 1] == b
    && forall i :: 0 <= i < |path| - 1 ==> Edge(g, path[i], path[i + 1])
  }

  ghost predicate Reaches(g: Graph, a: string, b: string) {
    exists path :: Path(g, path, a, b)
  }

  /** Named by the list or nested, at any depth, below a profile named by it. */
  ghost predicate Reachable(g: Graph, roots: seq<string>, q: string) {
    exists r :: r in roots && !Negated(r) && Reaches(g, r, q)
  }

  lemma ReachesSelf(g: Graph, a: string)
    ensures Reaches(g, a, a)
  {
    assert Path(g, [a], a, a);
  }

  lemma ReachesEdge(g: Graph, a: string, c: string, b: string)
    requires Edge(g, a, c) && Reaches(g, c, b)
    ensures Reaches(g, a, b)
  {
    var path :| Path(g, path, c, b);
    assert Path(g, [a] + path, a, b);
  }

  /** A set that is closed under nesting holds everything reachable from its members. */
  lemma {:induction false} ClosedReaches(g: Graph, s: set<string>, path: seq<string>, a: string, b: string)
    requires forall p, q :: p in s && Edge(g, p, q) ==> q in s
    requires a in s && Path(g, path, a, b)
    ensures b in s
    decreases |path|
  {
    if |path| > 1 {
      assert Edge(g, path[0], path[1]);
      ClosedReaches(g, s, path[1..], path[1], b);
    }
  }

  // ----- What the walk lists -------------------------------------------------

  /** The plain entries are exactly the profiles visited for the first time. */
  lemma {:induction false} DfsLists(g: Graph, input: seq<string>, visited: set<string>, q: string)
    requires !Negated(q)
    ensures q in Dfs(g, input, visited).output <==> q in Dfs(g, input, visited).visited && q !in visited
    decreases |g.Keys - visited|, |input|
  {
    if input != [] {
      var id := input[0];
      if Negated(id) || id in visited {
        DfsLists(g, input[1..], visited, q);
      } else {
        NestedLists(g, id, visited, q);
        var nested := Nested(g, id, visited);
        Shrinks(g.Keys, visited, nested.visited);
        DfsLists(g, input[1..], nested.visited, q);
      }
    }
  }

  lemma {:induction false} NestedLists(g: Graph, id: string, visited: set<string>, q: string)
    requires !Negated(q) && id !in visited
    ensures q in Nested(g, id, visited).output <==> q in Nested(g, id, visited).visited && q !in visited + {id}
    decreases |g.Keys - visited|, 0
  {
    if id in g {
      NestedShrinks(g, id, visited);
      DfsLists(g, g[id], visited + {id}, q);
    }
  }

  lemma NestedShrinks(g: Graph, id: string, visited: set<string>)
    requires id in g && id !in visited
    ensures |g.Keys - (visited + {id})| < |g.Keys - visited|
  {
    assert g.Keys - (visited + {id}) == (g.Keys - visited) - {id};
  }

  /** No plain entry is listed twice. */
  ghost predicate OnceEach(s: seq<string>) {
    forall i, j :: 0 <= i < j < |s| && !Negated(s[i]) ==> s[i] != s[j]
  }

  lemma OnceEachAppend(a: seq<string>, b: seq<string>)
    requires OnceEach(a) && OnceEach(b)
    requires forall q :: q in a && !Negated(q) ==> q !in b
    ensures OnceEach(a + b)
  {
    forall i, j | 0 <= i < j < |a + b| && !Negated((a + b)[i]) ensures (a + b)[i] != (a + b)[j] {
      if i < |a| <= j {
        assert a[i] in a && b[j - |a|] in b;
      }
    }
  }

  lemma {:induction false} DfsOnce(g: Graph, input: seq<string>, visited: set<string>)
    ensures OnceEach(Dfs(g, input, visited).output)
    decreases |g.Keys - visited|, |input|
  {
    if input != [] {
      var id := input[0];
      if Negated(id) {
        DfsOnce(g, input[1..], visited);
        OnceEachAppend([id], Dfs(g, input[1..], visited).output);
      } else if id in visited {
        DfsOnce(g, input[1..], visited);
      } else {
        var nested := Nested(g, id, visited);
        if id in g {
          NestedShrinks(g, id, visited);
          DfsOnce(g, g[id], visited + {id});
        }
        Shrinks(g.Keys, visited, nested.visited);
        DfsOnce(g, input[1..], nested.visited);
        DfsOnceJoin(g, input, visited);
      }
    }
  }

  lemma DfsOnceJoin(g: Graph, input: seq<string>, visited: set<string>)
    requires input != [] && !Negated(input[0]) && input[0] !in visited
    requires OnceEach(Nested(g, input[0], visited).output)
    requires OnceEach(Dfs(g, input[1..], Nested(g, input[0], visited).visited).output)
    ensures OnceEach(Dfs(g, input, visited).output)
  {
    var id := input[0];
    var nested := Nested(g, id, visited);
    var rest := Dfs(g, input[1..], nested.visited);
    assert Dfs(g, input, visited).output == nested.output + [id] + rest.output;
    hide Dfs, Nested;
    forall q | !Negated(q)
      ensures q in nested.output ==> q in nested.visited && q != id && q !in rest.output
      ensures id !in rest.output
    {
      NestedLists(g, id, visited, q);
      DfsLists(g, input[1..], nested.visited, q);
      DfsLists(g, input[1..], nested.visited, id);
    }
    OnceEachAppend(nested.output, [id]);
    OnceEachAppend(nested.output + [id], rest.output);
  }

  /** The roots are visited, and what is newly visited is visited with all it nests. */
  lemma {:induction false} DfsCloses(g: Graph, input: seq<string>, visited: set<string>)
    ensures var now := Dfs(g, input, visited).visited;
            && (forall r :: r in input && !Negated(r) ==> r in now)
            && (forall p, q :: p in now - visited && Edge(g, p, q) ==> q in now)
    decreases |g.Keys - visited|, |input|
  {
    if input != [] {
      var id := input[0];
      assert forall r :: r in input <==> r == id || r in input[1..];
      if Negated(id) || id in visited {
        DfsCloses(g, input[1..], visited);
      } else {
        var nested := Nested(g, id, visited);
        if id in g {
          NestedShrinks(g, id, visited);
          DfsCloses(g, g[id], visited + {id});
        }
        Shrinks(g.Keys, visited, nested.visited);
        DfsCloses(g, input[1..], nested.visited);
      }
    }
  }

  /** Every plain entry is reachable from the list. */
  lemma {:induction false} DfsReachable(g: Graph, input: seq<string>, visited: set<string>, q: string)
    requires q in Dfs(g, input, visited).output && !Negated(q)
    ensures Reachable(g, input, q)
    decreases |g.Keys - visited|, |input|
  {
    hide Reaches;
    var id := input[0];
    assert id in input;
    if Negated(id) || id in visited {
      DfsReachable(g, input[1..], visited, q);
    } else {
      var nested := Nested(g, id, visited);
      if q in nested.output {
        NestedReachable(g, id, visited, q);
      } else if q == id {
        ReachesSelf(g, id);
      } else {
        Shrinks(g.Keys, visited, nested.visited);
        DfsReachable(g, input[1..], nested.visited, q);
      }
    }
  }

  lemma {:induction false} NestedReachable(g: Graph, id: string, visited: set<string>, q: string)
    requires id !in visited && q in Nested(g, id, visited).output && !Negated(q)
    ensures Reaches(g, id, q)
    decreases |g.Keys - visited|, 0
  {
    hide Reaches, Dfs;
    NestedShrinks(g, id, visited);
    DfsReachable(g, g[id], visited + {id}, q);
    var r :| r in g[id] && !Negated(r) && Reaches(g, r, q);
    ReachesEdge(g, id, r, q);
  }

  /** On any graph, cycles included, the plain entries are the reachable profiles, each once. */
  lemma WalkListsReachable(g: Graph, roots: seq<string>)
    ensures var output := Dfs(g, roots, {}).output;
            && OnceEach(output)
            && forall q :: !Negated(q) ==> (q in output <==> Reachable(g, roots, q))
  {
    hide Dfs, Reaches;
    var walked := Dfs(g, roots, {});
    DfsOnce(g, roots, {});
    DfsCloses(g, roots, {});
    forall q | !Negated(q) ensures q in walked.output <==> Reachable(g, roots, q) {
      DfsLists(g, roots, {}, q);
      if q in walked.output {
        DfsReachable(g, roots, {}, q);
      }
      if r :| r in roots && !Negated(r) && Reaches(g, r, q) {
        ReachesIn(g, walked.visited, r, q);
      }
    }
  }

  lemma ReachesIn(g: Graph, s: set<string>, a: string, b: string)
    requires forall p, q :: p in s && Edge(g, p, q) ==> q in s
    requires a in s && Reaches(g, a, b)
    ensures b in s
  {
    var path :| Path(g, path, a, b);
    ClosedReaches(g, s, path, a, b);
  }

  // ----- Negations -----------------------------------------------------------

  /** A negated token is listed exactly when the list or a newly visited profile holds it. */
  lemma {:induction false} DfsNegations(g: Graph, input: seq<string>, visited: set<string>, x: string)
    requires Negated(x)
    ensures var r := Dfs(g, input, visited);
            x in r.output <==> x in input || exists p :: p in r.visited - visited && p in g && x in g[p]
    decreases |g.Keys - visited|, |input|
  {
    if input != [] {
      var id := input[0];
      assert forall t :: t in input <==> t == id || t in input[1..];
      if Negated(id) || id in visited {
        DfsNegations(g, input[1..], visited, x);
      } else {
        var nested := Nested(g, id, visited);
        if id in g {
          NestedShrinks(g, id, visited);
          DfsNegations(g, g[id], visited + {id}, x);
        }
        Shrinks(g.Keys, visited, nested.visited);
        DfsNegations(g, input[1..], nested.visited, x);
        DfsNegationsJoin(g, input, visited, x);
      }
    }
  }

  lemma DfsNegationsJoin(g: Graph, input: seq<string>, visited: set<string>, x: string)
    requires Negated(x) && input != [] && !Negated(input[0]) && input[0] !in visited
    requires input[0] in g ==>
               var n := Dfs(g, g[input[0]], visited + {input[0]});
               x in n.output <==>
                     x in g[input[0]] || exists p :: p in n.visited - (visited + {input[0]}) && p in g && x in g[p]
    requires var seen := Nested(g, input[0], visited).visited;
             var r := Dfs(g, input[1..], seen);
             x in r.output <==> x in input[1..] || exists p :: p in r.visited - seen && p in g && x in g[p]
    ensures var r := Dfs(g, input, visited);
            x in r.output <==> x in input || exists p :: p in r.visited - visited && p in g && x in g[p]
  {
    var id := input[0];
    var nested := Nested(g, id, visited);
    var rest := Dfs(g, input[1..], nested.visited);
    var all := Dfs(g, input, visited);
    assert all == Walked(nested.output + [id] + rest.output, rest.visited);
    assert nested == if id in g then Dfs(g, g[id], visited + {id}) else Walked([], visited + {id});
    hide Dfs, Nested;
    assert x in all.output <==> x in nested.output || x in rest.output;
    if p :| p in all.visited - visited && p in g && x in g[p] {
      assert p == id || p in nested.visited - (visited + {id}) || p in rest.visited - nested.visited;
    }
    if x in nested.output && x !in g[id] {
      var p :| p in nested.visited - (visited + {id}) && p in g && x in g[p];
      assert p in all.visited - visited;
    }
  }

  // ----- Order ---------------------------------------------------------------

  ghost predicate Before(s: seq<string>, q: string, j: nat) {
    exists i :: 0 <= i < j && i < |s| && s[i] == q
  }

  /** At each position: what the profile nests comes earlier, was visited already, or leads back to it. */
  ghost predicate Ordered(g: Graph, s: seq<string>, visited: set<string>) {
    forall j, q :: 0 <= j < |s| && Edge(g, s[j], q) && !Negated(s[j]) ==>
      Before(s, q, j) || q in visited || Reaches(g, q, s[j])
  }

  lemma {:induction false} DfsOrdered(g: Graph, input: seq<string>, visited: set<string>)
    ensures Ordered(g, Dfs(g, input, visited).output, visited)
    decreases |g.Keys - visited|, |input|
  {
    if input != [] {
      var id := input[0];
      if Negated(id) {
        DfsOrdered(g, input[1..], visited);
        OrderedPrepend(g, id, Dfs(g, input[1..], visited).output, visited);
      } else if id in visited {
        DfsOrdered(g, input[1..], visited);
      } else {
        var nested := Nested(g, id, visited);
        if id in g {
          NestedShrinks(g, id, visited);
          DfsOrdered(g, g[id], visited + {id});
        }
        Shrinks(g.Keys, visited, nested.visited);
        DfsOrdered(g, input[1..], nested.visited);
        DfsOrderedJoin(g, input, visited);
      }
    }
  }

  lemma OrderedPrepend(g: Graph, id: string, s: seq<string>, visited: set<string>)
    requires Negated(id) && Ordered(g, s, visited)
    ensures Ordered(g, [id] + s, visited)
  {
    hide Reaches;
    var t := [id] + s;
    forall j, q | 0 <= j < |t| && Edge(g, t[j], q) && !Negated(t[j])
      ensures Before(t, q, j) || q in visited || Reaches(g, q, t[j])
    {
      assert t[j] == s[j - 1];
      if Before(s, q, j - 1) {
        var i :| 0 <= i < j - 1 && i < |s| && s[i] == q;
        assert t[i + 1] == q;
      }
    }
  }

  lemma DfsOrderedJoin(g: Graph, input: seq<string>, visited: set<string>)
    requires input != [] && !Negated(input[0]) && input[0] !in visited
    requires Ordered(g, Nested(g, input[0], visited).output, visited + {input[0]})
    requires var seen := Nested(g, input[0], visited).visited;
             Ordered(g, Dfs(g, input[1..], seen).output, seen)
    ensures Ordered(g, Dfs(g, input, visited).output, visited)
  {
    var id := input[0];
    var nested := Nested(g, id, visited);
    var rest := Dfs(g, input[1..], nested.visited);
    var out := nested.output + [id] + rest.output;
    assert Dfs(g, input, visited).output == out;
    hide *;
    forall j, q | 0 <= j < |out| && Edge(g, out[j], q) && !Negated(out[j])
      ensures Before(out, q, j) || q in visited || Reaches(g, q, out[j])
    {
      EdgePlain(g, out[j], q);
      NestedLists(g, id, visited, q);
      if j < |nested.output| {
        OrderedNested(g, id, visited, j, q);
        if Before(nested.output, q, j) { BeforeIn(nested.output, q, j, out, 0); }
      } else if j == |nested.output| {
        NestedRoots(g, id, visited, q);
        ReachesSelf(g, id);
        if q in nested.output { InBefore(nested.output, q, out, j); }
      } else {
        OrderedRest(g, nested.output, id, rest.output, nested.visited, j, q);
        if q in nested.output { InBefore(nested.output, q, out, j); }
      }
    }
    OrderedIntro(g, out, visited);
  }

  lemma EdgePlain(g: Graph, p: string, q: string)
    requires Edge(g, p, q)
    ensures !Negated(q)
  {
  }

  lemma OrderedIntro(g: Graph, s: seq<string>, visited: set<string>)
    requires forall j, q :: 0 <= j < |s| && Edge(g, s[j], q) && !Negated(s[j]) ==>
               Before(s, q, j) || q in visited || Reaches(g, q, s[j])
    ensures Ordered(g, s, visited)
  {
  }

  lemma OrderedNested(g: Graph, id: string, visited: set<string>, j: nat, q: string)
    requires id !in visited && j < |Nested(g, id, visited).output|
    requires Ordered(g, Nested(g, id, visited).output, visited + {id})
    requires Edge(g, Nested(g, id, visited).output[j], q) && !Negated(Nested(g, id, visited).output[j])
    ensures var s := Nested(g, id, visited).output;
            Before(s, q, j) || q in visited || Reaches(g, q, s[j])
  {
    hide Nested, Reaches, Before;
    NestedReachable(g, id, visited, Nested(g, id, visited).output[j]);
  }

  lemma OrderedRest(g: Graph, a: seq<string>, id: string, b: seq<string>, seen: set<string>, j: nat, q: string)
    requires |a| < j < |a| + 1 + |b| && Ordered(g, b, seen)
    requires Edge(g, (a + [id] + b)[j], q) && !Negated((a + [id] + b)[j])
    ensures Before(a + [id] + b, q, j) || (q in seen && q != id) || Reaches(g, q, (a + [id] + b)[j])
  {
    hide Reaches, Before;
    var out, k := a + [id] + b, j - |a| - 1;
    assert out[j] == b[k];
    if Before(b, q, k) {
      BeforeIn(b, q, k, out, |a| + 1);
    } else if q == id {
      AtBefore(out, id, |a|, j);
    }
  }

  lemma BeforeIn(s: seq<string>, q: string, j: nat, t: seq<string>, shift: nat)
    requires Before(s, q, j) && shift + |s| <= |t| && forall i :: 0 <= i < |s| ==> t[shift + i] == s[i]
    ensures Before(t, q, shift + j)
  {
    var i :| 0 <= i < j && i < |s| && s[i] == q;
    assert t[shift + i] == q;
  }

  lemma InBefore(s: seq<string>, q: string, t: seq<string>, j: nat)
    requires q in s && |s| <= j && s <= t
    ensures Before(t, q, j)
  {
    var i :| 0 <= i < |s| && s[i] == q;
    assert t[i] == q;
  }

  lemma AtBefore(t: seq<string>, q: string, i: nat, j: nat)
    requires i < j && i < |t| && t[i] == q
    ensures Before(t, q, j)
  {
  }

  lemma NestedRoots(g: Graph, id: string, visited: set<string>, q: string)
    requires id !in visited && Edge(g, id, q)
    ensures q in Nested(g, id, visited).visited
  {
    DfsCloses(g, g[id], visited + {id});
  }

  /**
   Nested profiles come first: a profile is listed after every profile it names,
   except where the two lie on a cycle.
   */
  lemma NestedFirst(g: Graph, roots: seq<string>, j: nat, q: string)
    requires j < |Dfs(g, roots, {}).output| && !Negated(Dfs(g, roots, {}).output[j])
    requires Edge(g, Dfs(g, roots, {}).output[j], q) && !Reaches(g, q, Dfs(g, roots, {}).output[j])
    ensures Before(Dfs(g, roots, {}).output, q, j)
  {
    hide Dfs;
    DfsOrdered(g, roots, {});
  }

  // ----- cleanList -----------------------------------------------------------

  /** A token survives when it is not a negation and nothing in the list negates it. */
  predicate Survives(list: seq<string>, tok: string) {
    !Negated(tok) && "~" + tok !in list
  }

  function Cleaned(list: seq<string>, upTo: nat): seq<string>
    requires upTo <= |list|
  {
    if upTo == 0 then []
    else Cleaned(list, upTo - 1) + (if Survives(list, list[upTo - 1]) then [list[upTo - 1]] else [])
  }

  /** The value of `cleanList`. */
  function CleanList(list: seq<string>): seq<string> {
    Cleaned(list, |list|)
  }

  lemma {:induction false} CleanedMembers(list: seq<string>, upTo: nat, x: string)
    requires upTo <= |list|
    ensures x in Cleaned(list, upTo) <==> x in list[..upTo] && Survives(list, x)
  {
    hide Survives;
    if upTo > 0 {
      CleanedMembers(list, upTo - 1, x);
      assert list[..upTo] == list[..upTo - 1] + [list[upTo - 1]];
    }
  }

  lemma {:induction false} CleanedDistinct(list: seq<string>, upTo: nat)
    requires upTo <= |list| && OnceEach(list)
    ensures Distinct(Cleaned(list, upTo))
  {
    if upTo > 0 {
      CleanedDistinct(list, upTo - 1);
      CleanedMembers(list, upTo - 1, list[upTo - 1]);
    }
  }

  /** `negList`: the names behind the negated tokens. */
  method NegList(list: seq<string>) returns (ret: seq<string>)
    ensures forall x :: x in ret <==> "~" + x in list
  {
    ret := [];
    for i := 0 to |list|
      invariant forall x :: x in ret <==> "~" + x in list[..i]
    {
      assert list[..i + 1] == list[..i] + [list[i]];
      if HasPrefix(list[i], "~") {
        ret := ret + [list[i][1..]];
        assert list[i] == "~" + list[i][1..];
      }
      forall x ensures x in ret <==> "~" + x in list[..i + 1] {
        assert ("~" + x)[1..] == x;
      }
    }
    assert list[..|list|] == list;
  }

  method Clean(list: seq<string>) returns (ret: seq<string>)
    ensures ret == CleanList(list)
  {
    var neg := NegList(list);
    ret := [];
    for i := 0 to |list|
      invariant ret == Cleaned(list, i)
    {
      var tok := list[i];
      var notNegate := true;
      for j := 0 to |neg|
        invariant notNegate <==> forall k :: 0 <= k < j ==> tok != neg[k] && tok != "~" + neg[k]
      {
        if tok == neg[j] || tok == "~" + neg[j] {
          notNegate := false;
        }
      }
      SurvivesIff(list, neg, tok);
      if notNegate {
        ret := ret + [tok];
      }
    }
  }

  lemma SurvivesIff(list: seq<string>, neg: seq<string>, tok: string)
    requires tok in list && forall x :: x in neg <==> "~" + x in list
    ensures Survives(list, tok) <==> forall k :: 0 <= k < |neg| ==> tok != neg[k] && tok != "~" + neg[k]
  {
    if Negated(tok) {
      assert tok == "~" + tok[1..];
      assert tok[1..] in neg;
    }
    forall k | 0 <= k < |neg| ensures Negated("~" + neg[k]) && "~" + neg[k] in list {
      assert neg[k] in neg;
    }
  }

  // ----- getNodeProfiles -----------------------------------------------------

  /** The value of `getNodeProfiles` for a node that lists `profiles`. */
  function NodeProfiles(g: Graph, profiles: seq<string>): seq<string> {
    CleanList(Dfs(g, profiles, {}).output)
  }

  method GetNodeProfiles(g: Graph, profiles: seq<string>) returns (result: seq<string>)
    ensures result == NodeProfiles(g, profiles)
  {
    var visited := new Visited();
    var expanded := GetProfilesProfiles(g, profiles, visited);
    result := Clean(expanded);
  }

  /** Some list the resolution reads holds this token: the node's own or a reachable profile's. */
  ghost predicate Mentioned(g: Graph, profiles: seq<string>, x: string) {
    x in profiles || exists p :: Reachable(g, profiles, p) && !Negated(p) && p in g && x in g[p]
  }

  /**
   The resolved profiles are the reachable ones that are negated nowhere, each
   listed once. A negated profile's own nested profiles stay.
   */
  lemma ResolvedProfiles(g: Graph, profiles: seq<string>)
    ensures Distinct(NodeProfiles(g, profiles))
    ensures forall p :: p in NodeProfiles(g, profiles) <==>
              !Negated(p) && Reachable(g, profiles, p) && !Mentioned(g, profiles, "~" + p)
  {
    hide Dfs, Reachable;
    var walked := Dfs(g, profiles, {});
    var output := walked.output;
    WalkListsReachable(g, profiles);
    CleanedDistinct(output, |output|);
    assert output[..|output|] == output;
    forall p ensures p in NodeProfiles(g, profiles) <==>
                     !Negated(p) && Reachable(g, profiles, p) && !Mentioned(g, profiles, "~" + p)
    {
      CleanedMembers(output, |output|, p);
      DfsNegations(g, profiles, {}, "~" + p);
      if q :| q in walked.visited - {} && q in g && "~" + p in g[q] {
        VisitedPlain(g, profiles, {}, q);
        DfsLists(g, profiles, {}, q);
      }
      if q :| Reachable(g, profiles, q) && !Negated(q) && q in g && "~" + p in g[q] {
        DfsLists(g, profiles, {}, q);
        assert q in walked.visited - {};
      }
    }
  }

  lemma {:induction false} VisitedPlain(g: Graph, input: seq<string>, visited: set<string>, q: string)
    requires q in Dfs(g, input, visited).visited && q !in visited
    ensures !Negated(q)
    decreases |g.Keys - visited|, |input|
  {
    if input != [] {
      var id := input[0];
      if Negated(id) || id in visited {
        VisitedPlain(g, input[1..], visited, q);
      } else {
        var nested := Nested(g, id, visited);
        if q in nested.visited {
          if id in g && q != id {
            NestedShrinks(g, id, visited);
            VisitedPlain(g, g[id], visited + {id}, q);
          }
        } else {
          Shrinks(g.Keys, visited, nested.visited);
          VisitedPlain(g, input[1..], nested.visited, q);
        }
      }
    }
  }

  lemma {:induction false} CleanedBefore(list: seq<string>, upTo: nat, i: nat, j: nat) returns (a: nat, b: nat)
    requires i < j < upTo <= |list| && Survives(list, list[i]) && Survives(list, list[j])
    ensures a < b < |Cleaned(list, upTo)|
    ensures Cleaned(list, upTo)[a] == list[i] && Cleaned(list, upTo)[b] == list[j]
  {
    hide Survives;
    if j == upTo - 1 {
      CleanedMembers(list, upTo - 1, list[i]);
      assert list[..upTo - 1][i] == list[i];
      a :| 0 <= a < |Cleaned(list, upTo - 1)| && Cleaned(list, upTo - 1)[a] == list[i];
      b := |Cleaned(list, upTo - 1)|;
    } else {
      a, b := CleanedBefore(list, upTo - 1, i, j);
    }
  }

  /** In the resolved list too, nested profiles precede the profiles that name them, cycles apart. */
  lemma ResolvedOrder(g: Graph, profiles: seq<string>, p: string, q: string)
    requires p in NodeProfiles(g, profiles) && q in NodeProfiles(g, profiles)
    requires Edge(g, p, q) && !Reaches(g, q, p)
    ensures exists a, b :: 0 <= a < b < |NodeProfiles(g, profiles)| &&
                           NodeProfiles(g, profiles)[a] == q && NodeProfiles(g, profiles)[b] == p
  {
    hide Dfs, Reaches, Survives;
    var output := Dfs(g, profiles, {}).output;
    assert output[..|output|] == output;
    CleanedMembers(output, |output|, p);
    CleanedMembers(output, |output|, q);
    var j :| 0 <= j < |output| && output[j] == p;
    SurvivesPlain(output, p);
    NestedFirst(g, profiles, j, q);
    var i :| 0 <= i < j && i < |output| && output[i] == q;
    var a, b := CleanedBefore(output, |output|, i, j);
  }

  lemma SurvivesPlain(list: seq<string>, tok: string)
    requires Survives(list, tok)
    ensures !Negated(tok)
  {
  }
}
