/**
 Node groups (internal/pkg/node/groups.go) on top of profile resolution and the
 list-field part of MergeNode (internal/pkg/node/mergo.go).
 */
module Groups {
  import opened Text
  import opened Profiles
  import opened ProfileOrder

  const ALL_GROUP := "all"

  /** The list fields of a node or a profile that decide group membership. */
  datatype Conf = Conf(profiles: seq<string>, groups: seq<string>)

  datatype Config = Config(nodes: map<string, Conf>, nodeProfiles: map<string, Conf>)

  function ProfileGraph(config: Config): Graph {
    map p | p in config.nodeProfiles :: config.nodeProfiles[p].profiles
  }

  function Resolved(config: Config, id: string): seq<string> {
    if id in config.nodes then NodeProfiles(ProfileGraph(config), config.nodes[id].profiles) else []
  }

  function ProfileGroups(config: Config, profile: string): seq<string> {
    if profile in config.nodeProfiles then config.nodeProfiles[profile].groups else []
  }

  /**
   The `Groups` field of a merged node: resolved profiles append in order, missing
   profiles are skipped, the node's own list comes last, and negations are applied.
   */
  function MergedGroups(config: Config, id: string): seq<string>
    requires id in config.nodes
  {
    CleanList(FlatMap(p => ProfileGroups(config, p), Resolved(config, id)) + config.nodes[id].groups)
  }

  /** The fold of MergeNode over the resolved profiles, for one list field. */
  method MergeGroups(config: Config, id: string) returns (groups: seq<string>)
    requires id in config.nodes
    ensures groups == MergedGroups(config, id)
  {
    var profiles := GetNodeProfiles(ProfileGraph(config), config.nodes[id].profiles);
    hide NodeProfiles, CleanList;
    groups := [];
    for i := 0 to |profiles|
      invariant groups == FlatMap(p => ProfileGroups(config, p), profiles[..i])
    {
      MergeStep(config, profiles, i);
      if profiles[i] in config.nodeProfiles {
        groups := groups + config.nodeProfiles[profiles[i]].groups;
      }
    }
    assert profiles[..|profiles|] == profiles;
    groups := groups + config.nodes[id].groups;
    groups := Clean(groups);
  }

  lemma MergeStep(config: Config, profiles: seq<string>, i: nat)
    requires i < |profiles|
    ensures FlatMap(p => ProfileGroups(config, p), profiles[..i + 1]) ==
            FlatMap(p => ProfileGroups(config, p), profiles[..i]) + ProfileGroups(config, profiles[i])
  {
    var f := p => ProfileGroups(config, p);
    assert profiles[..i + 1] == profiles[..i] + [profiles[i]];
    FlatMapAppend(f, profiles[..i], [profiles[i]]);
    FlatMapOne(f, profiles[i]);
    FlatMapSame(f, p => ProfileGroups(config, p), profiles[..i]);
    FlatMapSame(f, p => ProfileGroups(config, p), profiles[..i + 1]);
  }

  /** The node, or an existing profile it resolves to, carries the token verbatim. */
  ghost predicate Declares(config: Config, id: string, token: string) {
    id in config.nodes &&
    (token in config.nodes[id].groups ||
     exists p :: p in Resolved(config, id) && p in config.nodeProfiles && token in config.nodeProfiles[p].groups)
  }

  /** `hasLiteralGroup`. */
  method HasLiteralGroup(config: Config, id: string, token: string) returns (found: bool)
    ensures found <==> Declares(config, id, token)
  {
    if id !in config.nodes {
      return false;
    }
    if token in config.nodes[id].groups {
      return true;
    }
    var profiles := GetNodeProfiles(ProfileGraph(config), config.nodes[id].profiles);
    hide NodeProfiles;
    for i := 0 to |profiles|
      invariant forall k :: 0 <= k < i && !Negated(profiles[k]) && profiles[k] in config.nodeProfiles ==>
                  token !in config.nodeProfiles[profiles[k]].groups
    {
      if HasPrefix(profiles[i], "~") {
        continue;
      }
      if profiles[i] in config.nodeProfiles && token in config.nodeProfiles[profiles[i]].groups {
        return true;
      }
    }
    ResolvedProfiles(ProfileGraph(config), config.nodes[id].profiles);
    return false;
  }

  lemma MergedGroupsMembers(config: Config, id: string, g: string)
    requires id in config.nodes
    ensures g in MergedGroups(config, id) <==>
            !Negated(g) && Declares(config, id, g) && !Declares(config, id, "~" + g)
  {
    hide Resolved;
    var f := p => ProfileGroups(config, p);
    var inherited := FlatMap(f, Resolved(config, id));
    var all := inherited + config.nodes[id].groups;
    FlatMapSame(f, p => ProfileGroups(config, p), Resolved(config, id));
    CleanedMembers(all, |all|, g);
    assert all[..|all|] == all;
    forall x ensures x in all <==> Declares(config, id, x) {
      FlatMapMembers(f, Resolved(config, id), x);
      assert forall p :: x in f(p) <==> p in config.nodeProfiles && x in config.nodeProfiles[p].groups;
    }
  }

  /** The members of a group, by what the configuration declares. */
  ghost predicate Member(config: Config, g: string, id: string) {
    if g == ALL_GROUP then id in config.nodes && !Declares(config, id, "~" + ALL_GROUP)
    else !Negated(g) && Declares(config, id, g) && !Declares(config, id, "~" + g)
  }

  /** `GroupMembers`: a strictly sorted list of exactly the members. */
  method GroupMembers(config: Config, name: string) returns (result: seq<string>)
    ensures StrictlySorted(result)
    ensures forall id :: id in result <==> Member(config, name, id)
  {
    var ids := Listing(config.nodes.Keys);
    hide Declares, SortStrings, StrictlySorted;
    if name == ALL_GROUP {
      SortStringsMembers(ids);
      result := Unmasked(config, SortStrings(ids));
    } else {
      var members := CollectMembers(config, name, ids);
      SortStringsMembers(members);
      result := SortStrings(members);
    }
  }

  /** The loop for the reserved group: drop the nodes that opt out. */
  method Unmasked(config: Config, all: seq<string>) returns (filtered: seq<string>)
    requires StrictlySorted(all)
    ensures StrictlySorted(filtered)
    ensures forall x :: x in filtered <==> x in all && !Declares(config, x, "~" + ALL_GROUP)
  {
    hide Declares;
    filtered := [];
    for i := 0 to |all|
      invariant forall x :: x in filtered <==> x in all[..i] && !Declares(config, x, "~" + ALL_GROUP)
      invariant StrictlySorted(filtered)
    {
      assert all[..i + 1] == all[..i] + [all[i]];
      var masked := HasLiteralGroup(config, all[i], "~" + ALL_GROUP);
      if masked {
        continue;
      }
      StrictlySortedSnoc(filtered, all, i);
      filtered := filtered + [all[i]];
    }
    assert all[..|all|] == all;
  }

  lemma StrictlySortedSnoc(s: seq<string>, all: seq<string>, i: nat)
    requires i < |all| && StrictlySorted(s) && StrictlySorted(all) && forall x :: x in s ==> x in all[..i]
    ensures StrictlySorted(s + [all[i]])
  {
    forall k | 0 <= k < |s| ensures s[k] != all[i] && StringLe(s[k], all[i]) {
      assert s[k] in all[..i];
      var j :| 0 <= j < i && all[..i][j] == s[k];
    }
  }

  method CollectMembers(config: Config, name: string, ids: seq<string>) returns (members: seq<string>)
    requires name != ALL_GROUP && Distinct(ids) && forall id :: id in ids <==> id in config.nodes
    ensures Distinct(members) && forall id :: id in members <==> Member(config, name, id)
  {
    hide MergedGroups, Declares;
    members := [];
    for i := 0 to |ids|
      invariant Distinct(members)
      invariant forall id :: id in members <==> id in ids[..i] && Member(config, name, id)
    {
      assert ids[..i + 1] == ids[..i] + [ids[i]];
      assert ids[i] in ids;
      var groups := MergeGroups(config, ids[i]);
      MergedGroupsMembers(config, ids[i], name);
      if name in groups {
        DistinctSnoc(members, ids[i]);
        members := members + [ids[i]];
      }
    }
    assert ids[..|ids|] == ids;
    MemberIsNode(config, name);
  }

  lemma MemberIsNode(config: Config, name: string)
    ensures forall id :: Member(config, name, id) ==> id in config.nodes
  {
  }

  // ----- In terms of the configuration ---------------------------------------

  /**
   A profile is resolved for a node if and only if it ends a chain of plain names that
   starts in the node's list and goes down the nested lists of the configuration, and
   neither the node's list nor the list of any profile at the end of such a chain negates it.
   */
  lemma ResolvedIff(config: Config, id: string, p: string)
    ensures p in Resolved(config, id) <==>
            && id in config.nodes
            && (exists path: seq<string> ::
                  && |path| >= 1 && path[0] in config.nodes[id].profiles && path[|path| - 1] == p
                  && (forall i :: 0 <= i < |path| ==> !("~" <= path[i]))
                  && (forall i :: 0 <= i < |path| - 1 ==> path[i] in config.nodeProfiles &&
                                                          path[i + 1] in config.nodeProfiles[path[i]].profiles))
            && "~" + p !in config.nodes[id].profiles
            && (forall path: seq<string> ::
                  && |path| >= 1 && path[0] in config.nodes[id].profiles
                  && (forall i :: 0 <= i < |path| ==> !("~" <= path[i]) && path[i] in config.nodeProfiles)
                  && (forall i :: 0 <= i < |path| - 1 ==> path[i + 1] in config.nodeProfiles[path[i]].profiles)
                  ==> "~" + p !in config.nodeProfiles[path[|path| - 1]].profiles)
  {
    hide Resolved;
    if id in config.nodes {
      ResolvedDown(config, id, p);
      if p in Resolved(config, id) {
        var path :| Down(config, id, path) && path[|path| - 1] == p;
        assert path[0] in config.nodes[id].profiles;
      }
      assert forall path: seq<string> :: Down(config, id, path) <==>
        && |path| >= 1 && path[0] in config.nodes[id].profiles
        && (forall i :: 0 <= i < |path| ==> !("~" <= path[i]))
        && (forall i :: 0 <= i < |path| - 1 ==> path[i] in config.nodeProfiles &&
                                                path[i + 1] in config.nodeProfiles[path[i]].profiles);
    } else {
      NotResolved(config, id, p);
    }
  }

  lemma NotResolved(config: Config, id: string, p: string)
    requires id !in config.nodes
    ensures p !in Resolved(config, id)
  {
  }

  /** A chain of plain names from the node's list down the nested lists. */
  ghost predicate Down(config: Config, id: string, path: seq<string>)
    requires id in config.nodes
  {
    && |path| >= 1 && path[0] in config.nodes[id].profiles
    && (forall i :: 0 <= i < |path| ==> !("~" <= path[i]))
    && (forall i :: 0 <= i < |path| - 1 ==> path[i] in config.nodeProfiles &&
                                            path[i + 1] in config.nodeProfiles[path[i]].profiles)
  }

  lemma DownChain(config: Config, id: string, path: seq<string>)
    requires id in config.nodes
    ensures Down(config, id, path) <==> Chain(ProfileGraph(config), config.nodes[id].profiles, path)
  {
    var g := ProfileGraph(config);
    assert forall q :: q in g <==> q in config.nodeProfiles;
    assert forall q :: q in g ==> g[q] == config.nodeProfiles[q].profiles;
    hide ProfileGraph;
  }

  lemma ResolvedDown(config: Config, id: string, p: string)
    requires id in config.nodes
    ensures p in Resolved(config, id) <==>
            && (exists path :: Down(config, id, path) && path[|path| - 1] == p)
            && "~" + p !in config.nodes[id].profiles
            && forall path :: Down(config, id, path) && path[|path| - 1] in config.nodeProfiles ==>
                                "~" + p !in config.nodeProfiles[path[|path| - 1]].profiles
  {
    var g, list := ProfileGraph(config), config.nodes[id].profiles;
    assert forall q :: q in g <==> q in config.nodeProfiles;
    assert forall q :: q in g ==> g[q] == config.nodeProfiles[q].profiles;
    ResolvedProfiles(g, list);
    assert p in Resolved(config, id) <==> !Negated(p) && Reachable(g, list, p) && !Mentioned(g, list, "~" + p);
    hide ProfileGraph, NodeProfiles, Reachable, Resolved, Chain;
    if Reachable(g, list, p) {
      var path := ChainTo(g, list, p);
      DownChain(config, id, path);
    }
    forall path | Down(config, id, path)
      ensures Reachable(g, list, path[|path| - 1]) && !Negated(path[|path| - 1])
    {
      DownChain(config, id, path);
      ChainReaches(g, list, path);
    }
    if r :| Reachable(g, list, r) && !Negated(r) && r in g && "~" + p in g[r] {
      var path := ChainTo(g, list, r);
      DownChain(config, id, path);
    }
  }

  /**
   A node belongs to a group if and only if it, or an existing profile it resolves to,
   carries the group, and none of them carries its negation; to "all" it belongs unless
   one of them carries "~all".
   */
  lemma MemberIff(config: Config, g: string, id: string)
    ensures Member(config, g, id) <==>
            && id in config.nodes
            && (g == "all" ||
                (!("~" <= g) &&
                 (g in config.nodes[id].groups ||
                  exists p :: && p in Resolved(config, id) && p in config.nodeProfiles
                              && g in config.nodeProfiles[p].groups)))
            && "~" + g !in config.nodes[id].groups
            && forall p :: p in Resolved(config, id) && p in config.nodeProfiles ==>
                             "~" + g !in config.nodeProfiles[p].groups
  {
    hide Resolved;
  }

  /**
   The merged list keeps the order of the merge: the groups of an earlier resolved profile
   come before those of a later one, and the node's own come last. A list is named by its
   place among the resolved profiles, the node's own by the place after them.
   */
  lemma MergedGroupsOrder(config: Config, id: string, i: nat, j: nat, x: string, y: string)
    requires id in config.nodes && i < j <= |Resolved(config, id)|
    requires x in MergedGroups(config, id) && y in MergedGroups(config, id)
    requires Resolved(config, id)[i] in config.nodeProfiles && x in config.nodeProfiles[Resolved(config, id)[i]].groups
    requires if j == |Resolved(config, id)| then y in config.nodes[id].groups
             else && Resolved(config, id)[j] in config.nodeProfiles
                  && y in config.nodeProfiles[Resolved(config, id)[j]].groups
    ensures exists a, b :: 0 <= a < b < |MergedGroups(config, id)| &&
                           MergedGroups(config, id)[a] == x && MergedGroups(config, id)[b] == y
  {
    hide Resolved;
    var ps, own := Resolved(config, id), config.nodes[id].groups;
    var f := p => ProfileGroups(config, p);
    FlatMapSame(f, p => ProfileGroups(config, p), ps);
    assert j < |ps| ==> y in f(ps[j]);
    ListsInOrder(f, ps, own, i, j, x, y);
    hide FlatMap, ProfileGroups;
    CleanedOrder(FlatMap(f, ps) + own, x, y);
  }

  lemma ListsInOrder(f: string -> seq<string>, ps: seq<string>, own: seq<string>, i: nat, j: nat, x: string, y: string)
    requires i < j <= |ps| && x in f(ps[i]) && if j == |ps| then y in own else y in f(ps[j])
    ensures var all := FlatMap(f, ps) + own;
            exists a, b :: 0 <= a < b < |all| && all[a] == x && all[b] == y
  {
    assert ps == ps[..j] + ps[j..];
    FlatMapAppend(f, ps[..j], ps[j..]);
    FlatMapMembers(f, ps[..j], x);
    FlatMapMembers(f, ps[j..], y);
    assert ps[..j][i] == ps[i];
    assert j < |ps| ==> ps[j..][0] == ps[j];
    hide FlatMap;
    var all, left, right := FlatMap(f, ps) + own, FlatMap(f, ps[..j]), FlatMap(f, ps[j..]) + own;
    assert all == left + right && x in left && y in right;
    var a :| 0 <= a < |left| && left[a] == x;
    var b :| 0 <= b < |right| && right[b] == y;
    assert all[a] == x && all[|left| + b] == y;
  }

  lemma CleanedOrder(all: seq<string>, x: string, y: string)
    requires exists a, b :: 0 <= a < b < |all| && all[a] == x && all[b] == y
    requires x in CleanList(all) && y in CleanList(all)
    ensures exists a, b :: 0 <= a < b < |CleanList(all)| && CleanList(all)[a] == x && CleanList(all)[b] == y
  {
    var a, b :| 0 <= a < b < |all| && all[a] == x && all[b] == y;
    hide Survives;
    assert all[..|all|] == all;
    CleanedMembers(all, |all|, x);
    CleanedMembers(all, |all|, y);
    var m, n := CleanedBefore(all, |all|, a, b);
  }
}
