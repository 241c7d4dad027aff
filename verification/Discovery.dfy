/**
 Node discovery (internal/pkg/warewulfd/nodedb.go and FindDiscoverableNode of
 internal/pkg/node/constructors.go): the hardware-address index and the database
 it is rebuilt from, updated one request at a time.
 */
module Discovery {
  import opened Text

  /**
   A node as discovery sees it: its own network devices and those inherited from
   profiles, each with a hardware address that may be empty.
   */
  datatype Node = Node(cluster: string, discoverable: bool, primary: string,
                       own: map<string, string>, inherited: map<string, string>)

  type Db = map<string, Node>

  function LowerChar(c: char): char {
    if 'A' <= c <= 'Z' then (c as int + 32) as char else c
  }

  /** `strings.ToLower`, on the letters of a hardware address. */
  function Lower(s: string): (r: string)
    ensures |r| == |s|
    ensures forall i :: 0 <= i < |s| ==> r[i] == if 'A' <= s[i] <= 'Z' then (s[i] as int + 32) as char else s[i]
  {
    seq(|s|, i requires 0 <= i < |s| => LowerChar(s[i]))
  }

  lemma LowerTwice(s: string)
    ensures Lower(Lower(s)) == Lower(s)
  {
  }

  /** The devices of a merged node: the node's own address wins unless it is empty. */
  function Devs(n: Node): map<string, string> {
    map d | d in n.own.Keys + n.inherited.Keys ::
      if d in n.own && n.own[d] != "" then n.own[d] else if d in n.inherited then n.inherited[d] else ""
  }

  /** `updatePrimaryNetDev`: the configured primary device, or the first by name. */
  ghost predicate IsPrimary(n: Node, d: string) {
    && d in Devs(n)
    && (n.primary in Devs(n) ==> d == n.primary)
    && (n.primary !in Devs(n) ==> forall e :: e in Devs(n) ==> StringLe(d, e))
  }

  // ----- The order of FindAllNodes -------------------------------------------

  function Cluster(db: Db, id: string): string {
    if id in db then db[id].cluster else ""
  }

  /** By cluster name, then by id. */
  function ByCluster(db: Db): (string, string) -> bool {
    (a: string, b: string) =>
      if Cluster(db, a) == Cluster(db, b) then StringLe(a, b) else StringLe(Cluster(db, a), Cluster(db, b))
  }

  lemma ClusterOrdering(db: Db)
    ensures Ordering(ByCluster(db))
    ensures forall a, b :: ByCluster(db)(a, b) && ByCluster(db)(b, a) ==> a == b
  {
    var le := ByCluster(db);
    hide Cluster;
    forall a, b ensures le(a, b) || le(b, a)
      ensures le(a, b) && le(b, a) ==> a == b
    {
      StringLeTotal(a, b);
      StringLeTotal(Cluster(db, a), Cluster(db, b));
    }
    forall a, b, c | le(a, b) && le(b, c) ensures le(a, c) {
      ClusterTransitive(a, b, c, Cluster(db, a), Cluster(db, b), Cluster(db, c));
    }
  }

  lemma ClusterTransitive(a: string, b: string, c: string, x: string, y: string, z: string)
    requires if x == y then StringLe(a, b) else StringLe(x, y)
    requires if y == z then StringLe(b, c) else StringLe(y, z)
    ensures if x == z then StringLe(a, c) else StringLe(x, z)
  {
    hide StringLe;
    if x == y && y == z {
      StringLeTransitive(a, b, c);
    } else if x != y && y != z {
      StringLeTransitive(x, y, z);
      StringLeTotal(x, y);
    }
  }

  // ----- The index -----------------------------------------------------------

  /** A configured node has a device with this address, compared in lower case. */
  ghost predicate Owns(db: Db, id: string, h: string) {
    id in db && !db[id].discoverable && exists d :: d in Devs(db[id]) && Lower(Devs(db[id])[d]) == h
  }

  /** The index built by `loadNodeDB`: the last owner in node order. */
  ghost predicate IsIndex(db: Db, index: map<string, string>) {
    && (forall h :: h in index <==> exists id :: Owns(db, id, h))
    && (forall h :: h in index ==>
          Owns(db, index[h], h) && forall id :: Owns(db, id, h) ==> ByCluster(db)(id, index[h]))
  }

  /** The database determines its index. */
  lemma IndexUnique(db: Db, a: map<string, string>, b: map<string, string>)
    requires IsIndex(db, a) && IsIndex(db, b)
    ensures a == b
  {
    hide Owns;
    ClusterOrdering(db);
    hide ByCluster;
    forall h | h in a ensures h in b && a[h] == b[h] {
      assert Owns(db, a[h], h);
      assert ByCluster(db)(a[h], b[h]) && ByCluster(db)(b[h], a[h]);
    }
    assert a.Keys == b.Keys;
  }

  // ----- Discovery -----------------------------------------------------------

  /** A node that discovery may hand out. */
  predicate Candidate(db: Db, id: string) {
    id in db && db[id].discoverable && Devs(db[id]) != map[]
  }

  /** `FindDiscoverableNode`: the first candidate in node order. */
  ghost predicate FirstCandidate(db: Db, id: string) {
    Candidate(db, id) && forall e :: Candidate(db, e) ==> ByCluster(db)(id, e)
  }

  /** The record after discovery: the address on one device, no longer discoverable. */
  function Bound(n: Node, d: string, hw: string): Node {
    n.(own := n.own[d := hw], discoverable := false)
  }

  /** One discovery of `hw` on device `d` of node `id`. */
  ghost predicate Discovers(db: Db, hw: string, id: string, d: string, db': Db) {
    FirstCandidate(db, id) && IsPrimary(db[id], d) && db' == db[id := Bound(db[id], d, hw)]
  }

  /** Nodes waiting to be discovered have no hardware address yet. */
  ghost predicate Fresh(db: Db) {
    forall id, d :: id in db && db[id].discoverable && d in Devs(db[id]) ==> Devs(db[id])[d] == ""
  }

  predicate LowerCase(hw: string) {
    Lower(hw) == hw
  }

  lemma BoundDevs(n: Node, d: string, hw: string, e: string)
    requires hw != "" && d in Devs(n)
    ensures Devs(Bound(n, d, hw)).Keys == Devs(n).Keys
    ensures e in Devs(n) ==> Devs(Bound(n, d, hw))[e] == if e == d then hw else Devs(n)[e]
  {
  }

  /** What a waiting node owns once it is discovered: the new address, and what its other devices carry. */
  ghost predicate Takes(n: Node, d: string, hw: string, h: string) {
    h == Lower(hw) || exists e :: e in Devs(n) && e != d && Lower(Devs(n)[e]) == h
  }

  /** A discovery adds exactly these owners, and removes none. */
  lemma OwnersAfter(db: Db, hw: string, id: string, d: string, db': Db, x: string, h: string)
    requires Discovers(db, hw, id, d, db') && hw != ""
    ensures Owns(db', x, h) <==> Owns(db, x, h) || (x == id && Takes(db[id], d, hw, h))
  {
    hide IsPrimary, FirstCandidate;
    assert db[id].discoverable && d in Devs(db[id]) by { FirstIs(db, id); PrimaryIs(db[id], d); }
    if x == id {
      forall e ensures Devs(db'[id]).Keys == Devs(db[id]).Keys
        ensures e in Devs(db[id]) ==> Devs(db'[id])[e] == if e == d then hw else Devs(db[id])[e]
      {
        BoundDevs(db[id], d, hw, e);
      }
      hide Devs, Lower;
      assert d in Devs(db'[id]) && Lower(Devs(db'[id])[d]) == Lower(hw);
    }
  }

  lemma FirstIs(db: Db, id: string)
    requires FirstCandidate(db, id)
    ensures Candidate(db, id)
  {
  }

  lemma PrimaryIs(n: Node, d: string)
    requires IsPrimary(n, d)
    ensures d in Devs(n)
  {
  }

  lemma SameOrder(db: Db, id: string, n: Node)
    requires id in db && n.cluster == db[id].cluster
    ensures forall a, b :: ByCluster(db[id := n])(a, b) <==> ByCluster(db)(a, b)
  {
    hide StringLe;
    assert forall a :: Cluster(db[id := n], a) == Cluster(db, a);
  }

  /**
   One discovery, address by address: an indexed address moves to the discovered node
   if that node takes it and comes later in node order, and stays otherwise; the
   addresses that are new in the index are those the node takes. Exactly one waiting
   node is used up, and the new address can be found if and only if it was given in
   lower case.
   */
  lemma DiscoveryStep(db: Db, index: map<string, string>, hw: string, id: string, d: string,
                      db': Db, index': map<string, string>)
    requires IsIndex(db, index) && Discovers(db, hw, id, d, db') && IsIndex(db', index')
    requires hw != "" && hw !in index
    ensures forall h :: h in index' <==> h in index || Takes(db[id], d, hw, h)
    ensures forall h :: h in index ==>
              index'[h] == if Takes(db[id], d, hw, h) && !ByCluster(db)(id, index[h]) then id else index[h]
    ensures forall h :: h in index' && h !in index ==> index'[h] == id
    ensures forall h :: h in index ==> index[h] != id
    ensures forall x :: x in db' && db'[x].discoverable <==> x in db && db[x].discoverable && x != id
    ensures hw in index' <==> LowerCase(hw)
  {
    hide *;
    DiscoversIs(db, hw, id, d, db');
    SameOrder(db, id, Bound(db[id], d, hw));
    forall h
      ensures h in index' <==> h in index || Takes(db[id], d, hw, h)
      ensures h in index ==>
                index'[h] == if Takes(db[id], d, hw, h) && !ByCluster(db)(id, index[h]) then id else index[h]
      ensures h in index' && h !in index ==> index'[h] == id
      ensures h in index ==> index[h] != id
    {
      AddressStep(db, index, hw, id, d, db', index', h);
      if h in index {
        IndexOwns(db, index, h);
        OwnerNotWaiting(db, index[h], h, id);
      }
    }
    KeysAreLower(db', index');
    TakesNew(db[id], d, hw);
  }

  lemma DiscoversIs(db: Db, hw: string, id: string, d: string, db': Db)
    requires Discovers(db, hw, id, d, db')
    ensures id in db && db[id].discoverable && IsPrimary(db[id], d) && db' == db[id := Bound(db[id], d, hw)]
    ensures Bound(db[id], d, hw).cluster == db[id].cluster && !Bound(db[id], d, hw).discoverable
  {
    FirstIs(db, id);
  }

  lemma IndexOwns(db: Db, index: map<string, string>, h: string)
    requires IsIndex(db, index) && h in index
    ensures Owns(db, index[h], h)
  {
  }

  lemma OwnerNotWaiting(db: Db, x: string, h: string, id: string)
    requires Owns(db, x, h) && id in db && db[id].discoverable
    ensures x != id
  {
  }

  lemma TakesNew(n: Node, d: string, hw: string)
    ensures Takes(n, d, hw, Lower(hw)) && (LowerCase(hw) ==> Takes(n, d, hw, hw))
  {
  }

  lemma AddressStep(db: Db, index: map<string, string>, hw: string, id: string, d: string,
                    db': Db, index': map<string, string>, h: string)
    requires IsIndex(db, index) && Discovers(db, hw, id, d, db') && IsIndex(db', index') && hw != ""
    requires forall a, b :: ByCluster(db')(a, b) <==> ByCluster(db)(a, b)
    ensures h in index' <==> h in index || Takes(db[id], d, hw, h)
    ensures h in index ==> index'[h] == if Takes(db[id], d, hw, h) && !ByCluster(db)(id, index[h]) then id else index[h]
    ensures h in index' && h !in index ==> index'[h] == id
  {
    assert id in db by { FirstIs(db, id); }
    hide Owns, Takes, FirstCandidate, IsPrimary, Devs, Lower;
    forall x ensures Owns(db', x, h) <==> Owns(db, x, h) || (x == id && Takes(db[id], d, hw, h)) {
      OwnersAfter(db, hw, id, d, db', x, h);
    }
    ClusterOrdering(db);
    hide ByCluster, Discovers;
    if h in index {
      assert Owns(db', index[h], h);
      assert ByCluster(db)(index[h], index'[h]);
      if Takes(db[id], d, hw, h) {
        assert Owns(db', id, h);
        assert ByCluster(db)(id, index'[h]);
      }
      if Owns(db, index'[h], h) {
        assert ByCluster(db)(index'[h], index[h]);
      }
    } else if Takes(db[id], d, hw, h) {
      assert Owns(db', id, h);
    }
  }

  lemma KeysAreLower(db: Db, index: map<string, string>)
    requires IsIndex(db, index)
    ensures forall h :: h in index ==> LowerCase(h)
  {
    forall h | h in index ensures LowerCase(h) {
      assert Owns(db, index[h], h);
      var d :| d in Devs(db[index[h]]) && Lower(Devs(db[index[h]])[d]) == h;
      LowerTwice(Devs(db[index[h]])[d]);
    }
  }

  // ----- Every run of requests -----------------------------------------------

  datatype Snapshot = Snapshot(db: Db, index: map<string, string>)

  /** What one request may do: nothing, or one discovery followed by a reload. */
  ghost predicate Request(validMac: string -> bool, s: Snapshot, hw: string, t: Snapshot) {
    if hw in s.index || !validMac(hw) || !exists id :: Candidate(s.db, id) then t == s
    else (exists id, d :: Discovers(s.db, hw, id, d, t.db)) && IsIndex(t.db, t.index)
  }

  ghost predicate Requests(validMac: string -> bool, states: seq<Snapshot>, hws: seq<string>) {
    && |states| == |hws| + 1
    && forall i :: 0 <= i < |hws| ==> Request(validMac, states[i], hws[i], states[i + 1])
  }

  ghost predicate Valid(s: Snapshot) {
    IsIndex(s.db, s.index)
  }

  /** Requests as the server makes them: lower-case addresses, and the empty one is no hardware address. */
  ghost predicate Proper(validMac: string -> bool, hw: string) {
    LowerCase(hw) && (validMac(hw) ==> hw != "")
  }

  /**
   A waiting node that comes after the address's node and carries the address on a
   device that is not its primary one.
   */
  ghost predicate Threat(s: Snapshot, h: string, x: string, e: string)
    requires h in s.index
  {
    x in s.db && s.db[x].discoverable && Spare(s.db[x], e, h) && !ByCluster(s.db)(x, s.index[h])
  }

  ghost predicate Secure(s: Snapshot, h: string)
    requires h in s.index
  {
    forall x, e :: !Threat(s, h, x, e)
  }

  /** A device that is not the primary one carries the address. */
  ghost predicate Spare(n: Node, e: string, h: string) {
    e in Devs(n) && !IsPrimary(n, e) && Lower(Devs(n)[e]) == h
  }

  lemma PrimaryUnique(n: Node, d: string, e: string)
    requires IsPrimary(n, d) && IsPrimary(n, e)
    ensures d == e
  {
    hide Devs, StringLe;
    StringLeTotal(d, e);
  }

  /** What a discovered node takes from an indexed address, it carried on another device. */
  lemma SecureFromStep(s: Snapshot, hw: string, id: string, d: string, h: string)
    requires id in s.db && s.db[id].discoverable && IsPrimary(s.db[id], d)
    requires LowerCase(hw) && h in s.index && hw !in s.index
    requires Secure(s, h) && Takes(s.db[id], d, hw, h)
    ensures ByCluster(s.db)(id, s.index[h])
  {
    var n := s.db[id];
    assert h != Lower(hw);
    var e :| e in Devs(n) && e != d && Lower(Devs(n)[e]) == h;
    hide ByCluster, Devs, Lower;
    if IsPrimary(n, e) { PrimaryUnique(n, d, e); }
    assert !Threat(s, h, id, e);
  }

  lemma SecureStays(s: Snapshot, t: Snapshot, id: string, h: string)
    requires id in s.db && id in t.db && t.db == s.db[id := t.db[id]] && !t.db[id].discoverable
    requires forall a, b :: ByCluster(t.db)(a, b) <==> ByCluster(s.db)(a, b)
    requires h in s.index && h in t.index && t.index[h] == s.index[h] && Secure(s, h)
    ensures Secure(t, h)
  {
    hide ByCluster, Spare;
    forall x, e ensures !Threat(t, h, x, e) {
      assert !Threat(s, h, x, e);
    }
  }

  /** A request keeps the index right, and every secure address with its node and secure. */
  lemma RequestKeeps(validMac: string -> bool, s: Snapshot, hw: string, t: Snapshot, h: string)
    requires Valid(s) && Request(validMac, s, hw, t) && Proper(validMac, hw)
    requires h in s.index && Secure(s, h)
    ensures Valid(t) && h in t.index && t.index[h] == s.index[h] && Secure(t, h)
  {
    hide IsIndex, LowerCase, Candidate, Secure, Takes, FirstCandidate, IsPrimary, ByCluster;
    if t != s {
      var id, d :| Discovers(s.db, hw, id, d, t.db);
      FirstIs(s.db, id);
      CandidateIs(s.db, id);
      DiscoveryStep(s.db, s.index, hw, id, d, t.db, t.index);
      if Takes(s.db[id], d, hw, h) { SecureFromStep(s, hw, id, d, h); }
      SameOrder(s.db, id, Bound(s.db[id], d, hw));
      SecureStays(s, t, id, h);
    }
  }

  /** A secure address keeps its node through every run of requests. */
  lemma {:induction false} BoundForever(validMac: string -> bool, states: seq<Snapshot>, hws: seq<string>, h: string)
    requires Requests(validMac, states, hws) && Valid(states[0]) && forall hw :: hw in hws ==> Proper(validMac, hw)
    requires h in states[0].index && Secure(states[0], h)
    ensures Valid(states[|hws|])
    ensures h in states[|hws|].index && states[|hws|].index[h] == states[0].index[h]
  {
    hide Valid, Request, Proper, Secure;
    if hws != [] {
      assert hws[0] in hws;
      RequestKeeps(validMac, states[0], hws[0], states[1], h);
      BoundForever(validMac, states[1..], hws[1..], h);
    }
  }

  /** An address that the next node to be discovered carries, and that is not secure against it, moves at once. */
  lemma InsecureMoves(validMac: string -> bool, s: Snapshot, hw: string, t: Snapshot, h: string, x: string, e: string)
    requires Valid(s) && Request(validMac, s, hw, t) && h in s.index
    requires hw !in s.index && validMac(hw) && hw != ""
    requires FirstCandidate(s.db, x) && Spare(s.db[x], e, h)
    requires !ByCluster(s.db)(x, s.index[h])
    ensures h in t.index && t.index[h] == x && x != s.index[h]
  {
    hide IsIndex, LowerCase, IsPrimary, ByCluster, Devs, Lower;
    assert Candidate(s.db, x);
    var id, d :| Discovers(s.db, hw, id, d, t.db);
    assert id == x by { FirstUnique(s.db, id, x); }
    DiscoveryStep(s.db, s.index, hw, id, d, t.db, t.index);
    assert Takes(s.db[x], d, hw, h);
  }

  lemma FirstUnique(db: Db, a: string, b: string)
    requires FirstCandidate(db, a) && FirstCandidate(db, b)
    ensures a == b
  {
    ClusterOrdering(db);
    hide ByCluster, Candidate;
  }

  // ----- An address keeps its node exactly when it is secure -----------------

  /** The address keeps its node in every run of requests from here. */
  ghost predicate Keeps(validMac: string -> bool, s: Snapshot, h: string)
    requires h in s.index
  {
    forall states: seq<Snapshot>, hws: seq<string> ::
      RunFrom(validMac, s, states, hws) ==> StillAt(states[|hws|], h, s.index[h])
  }

  ghost predicate RunFrom(validMac: string -> bool, s: Snapshot, states: seq<Snapshot>, hws: seq<string>) {
    Requests(validMac, states, hws) && states[0] == s && forall hw :: hw in hws ==> Proper(validMac, hw)
  }

  ghost predicate StillAt(s: Snapshot, h: string, id: string) {
    h in s.index && s.index[h] == id
  }

  function Waiting(db: Db): set<string> {
    set id | id in db && db[id].discoverable
  }

  /** No node carries the address on any device. */
  ghost predicate Unused(db: Db, g: string) {
    forall id, e :: id in db && e in Devs(db[id]) ==> Lower(Devs(db[id])[e]) != g
  }

  /** Addresses that can still be discovered, each by a request of its own. */
  ghost predicate Supply(validMac: string -> bool, db: Db, macs: set<string>) {
    forall hw :: hw in macs ==> Proper(validMac, hw) && validMac(hw) && Unused(db, hw)
  }

  /** Every database has an index. */
  lemma IndexExists(db: Db) returns (index: map<string, string>)
    ensures IsIndex(db, index)
  {
    hide *;
    var listed := SetListing(db.Keys);
    var ids := SortBy(ByCluster(db), listed);
    SortedIds(db, listed);
    assert ids[..|ids|] == ids;
    index := IndexOfPrefix(db, ids, |ids|);
    IndexAll(db, ids, index);
  }

  lemma {:induction false} IndexOfPrefix(db: Db, ids: seq<string>, i: nat) returns (index: map<string, string>)
    requires i <= |ids| && SortedBy(ByCluster(db), ids) && forall k :: 0 <= k < |ids| ==> ids[k] in db
    ensures IndexUpTo(db, ids[..i], index)
    decreases i
  {
    hide *;
    if i == 0 {
      index := map[];
      IndexNone(db);
      assert ids[..0] == [];
    } else {
      var id := ids[i - 1];
      index := IndexOfPrefix(db, ids, i - 1);
      assert ids[..i] == ids[..i - 1] + [id];
      PrefixOrder(db, ids, i - 1);
      if db[id].discoverable {
        SkipDiscoverable(db, ids[..i - 1], index, id);
      } else {
        var added := map h | h in Addresses(db[id]) :: id;
        AddressesOwned(db, id);
        IndexStep(db, ids[..i - 1], index, id, added);
        index := index + added;
      }
    }
  }

  ghost function Addresses(n: Node): set<string> {
    set d | d in Devs(n) :: Lower(Devs(n)[d])
  }

  lemma AddressesOwned(db: Db, id: string)
    requires id in db && !db[id].discoverable
    ensures forall h :: h in Addresses(db[id]) <==> Owns(db, id, h)
  {
    hide Devs, Lower;
  }

  lemma FirstExists(db: Db, x: string) returns (id: string)
    requires Candidate(db, x)
    ensures FirstCandidate(db, id)
  {
    assert x in db;
    hide *;
    var listed := SetListing(db.Keys);
    var ids := SortBy(ByCluster(db), listed);
    SortedIds(db, listed);
    id := FirstFrom(db, ids, 0);
  }

  lemma {:induction false} FirstFrom(db: Db, ids: seq<string>, i: nat) returns (id: string)
    requires SortedBy(ByCluster(db), ids) && (forall x :: x in ids <==> x in db)
    requires i <= |ids| && (forall k :: 0 <= k < i ==> !Candidate(db, ids[k]))
    requires exists x :: Candidate(db, x) && x in ids
    ensures FirstCandidate(db, id)
    decreases |ids| - i
  {
    hide Candidate, FirstCandidate, ByCluster;
    if i < |ids| && Candidate(db, ids[i]) {
      FirstInOrder(db, ids, i);
      id := ids[i];
    } else {
      var x :| Candidate(db, x) && x in ids;
      var k :| 0 <= k < |ids| && ids[k] == x;
      id := FirstFrom(db, ids, i + 1);
    }
  }

  lemma PrimaryExists(n: Node) returns (d: string)
    requires Devs(n) != map[]
    ensures IsPrimary(n, d)
  {
    hide Devs, StringLe;
    if n.primary in Devs(n) {
      d := n.primary;
    } else {
      LeastExists(Devs(n).Keys);
      d :| Least(d, Devs(n).Keys);
    }
  }

  /** A new valid address is always discovered while nodes are waiting. */
  lemma CanDiscover(validMac: string -> bool, s: Snapshot, hw: string, x: string)
    returns (t: Snapshot, id: string, d: string)
    requires Candidate(s.db, x) && hw !in s.index && validMac(hw)
    ensures Discovers(s.db, hw, id, d, t.db) && Valid(t) && Request(validMac, s, hw, t)
  {
    id := FirstExists(s.db, x);
    FirstIs(s.db, id);
    hide IsIndex, FirstCandidate, IsPrimary;
    d := PrimaryExists(s.db[id]);
    var db' := s.db[id := Bound(s.db[id], d, hw)];
    var index := IndexExists(db');
    t := Snapshot(db', index);
    assert Discovers(s.db, hw, id, d, t.db);
  }

  lemma UnusedNotIndexed(s: Snapshot, hw: string)
    requires Valid(s) && Unused(s.db, hw)
    ensures hw !in s.index
  {
    hide Devs, Lower, ByCluster;
  }

  /** The rest of the supply serves the rest of the waiting nodes. */
  lemma SupplyLeft(validMac: string -> bool, db: Db, macs: set<string>, hw: string, id: string, d: string, db': Db)
    requires Supply(validMac, db, macs) && hw in macs && hw != "" && Discovers(db, hw, id, d, db')
    ensures Supply(validMac, db', macs - {hw}) && Waiting(db') == Waiting(db) - {id} && id in Waiting(db)
  {
    hide FirstCandidate, IsPrimary;
    DiscoversIs(db, hw, id, d, db');
    PrimaryIs(db[id], d);
    forall g | g in macs && g != hw ensures Unused(db', g) {
      forall e ensures Devs(db'[id]).Keys == Devs(db[id]).Keys
        ensures e in Devs(db[id]) ==> Devs(db'[id])[e] == if e == d then hw else Devs(db[id])[e]
      {
        BoundDevs(db[id], d, hw, e);
      }
      hide Devs, Lower;
      assert Unused(db, g) && LowerCase(hw);
    }
  }

  /** A threatened address moves with the next discovery, or stays threatened by the same node. */
  lemma ThreatStep(s: Snapshot, hw: string, id: string, d: string, t: Snapshot, h: string, x: string, e: string)
    requires Valid(s) && Valid(t) && Discovers(s.db, hw, id, d, t.db) && hw != "" && hw !in s.index
    requires h in s.index && Threat(s, h, x, e)
    ensures h in t.index && (t.index[h] == s.index[h] ==> Threat(t, h, x, e))
  {
    hide IsIndex, FirstCandidate, IsPrimary, ByCluster, Devs, Lower, Takes, Spare, Discovers;
    DiscoveryStep(s.db, s.index, hw, id, d, t.db, t.index);
    DiscoversIs(s.db, hw, id, d, t.db);
    SameOrder(s.db, id, Bound(s.db[id], d, hw));
    if x == id {
      SpareTaken(s.db[id], d, hw, e, h);
    }
  }

  lemma SpareTaken(n: Node, d: string, hw: string, e: string, h: string)
    requires IsPrimary(n, d) && Spare(n, e, h)
    ensures Takes(n, d, hw, h)
  {
    hide IsPrimary, Devs, Lower;
  }

  lemma SpareCandidate(db: Db, x: string, e: string, h: string)
    requires x in db && db[x].discoverable && Spare(db[x], e, h)
    ensures Candidate(db, x)
  {
    hide IsPrimary, Lower;
    assert e in Devs(db[x]);
    hide Devs;
  }

  lemma TakeOne(macs: set<string>, waiting: set<string>, id: string)
    requires id in waiting && |macs| >= |waiting|
    ensures macs != {} && |waiting - {id}| < |waiting|
    ensures forall hw :: hw in macs ==> |macs - {hw}| >= |waiting - {id}|
  {
  }

  /** One more discovery under threat. */
  lemma ThreatRequest(validMac: string -> bool, s: Snapshot, h: string, x: string, e: string, macs: set<string>)
    returns (hw: string, t: Snapshot)
    requires Valid(s) && h in s.index && Threat(s, h, x, e)
    requires Supply(validMac, s.db, macs) && |macs| >= |Waiting(s.db)|
    ensures Request(validMac, s, hw, t) && Proper(validMac, hw) && Valid(t)
    ensures Supply(validMac, t.db, macs - {hw}) && |macs - {hw}| >= |Waiting(t.db)| && |Waiting(t.db)| < |Waiting(s.db)|
    ensures h in t.index && (t.index[h] == s.index[h] ==> Threat(t, h, x, e))
  {
    hide Valid, Candidate, Spare, ByCluster, Unused, Request, Discovers, LowerCase;
    SpareCandidate(s.db, x, e, h);
    assert x in Waiting(s.db);
    hide Threat, Waiting;
    TakeOne(macs, Waiting(s.db), x);
    hw :| hw in macs;
    UnusedNotIndexed(s, hw);
    assert Proper(validMac, hw) && validMac(hw) && hw != "";
    hide Supply;
    var id, d;
    t, id, d := CanDiscover(validMac, s, hw, x);
    SupplyLeft(validMac, s.db, macs, hw, id, d, t.db);
    TakeOne(macs, Waiting(s.db), id);
    ThreatStep(s, hw, id, d, t, h, x, e);
  }

  /** Some run of requests takes a threatened address from its node. */
  lemma {:induction false} ThreatenedLost(validMac: string -> bool, s: Snapshot, h: string, x: string, e: string,
                                          macs: set<string>)
    returns (states: seq<Snapshot>, hws: seq<string>)
    requires Valid(s) && h in s.index && Threat(s, h, x, e)
    requires Supply(validMac, s.db, macs) && |macs| >= |Waiting(s.db)|
    ensures RunFrom(validMac, s, states, hws) && !StillAt(states[|hws|], h, s.index[h])
    decreases |Waiting(s.db)|
  {
    hide Valid, Threat, Supply, Waiting, Request, Proper;
    var hw, t := ThreatRequest(validMac, s, h, x, e, macs);
    if t.index[h] != s.index[h] {
      states, hws := [s, t], [hw];
    } else {
      var more, rest := ThreatenedLost(validMac, t, h, x, e, macs - {hw});
      states, hws := [s] + more, [hw] + rest;
      RunCons(validMac, s, hw, t, more, rest);
    }
  }

  lemma RunCons(validMac: string -> bool, s: Snapshot, hw: string, t: Snapshot, states: seq<Snapshot>, hws: seq<string>)
    requires Request(validMac, s, hw, t) && Proper(validMac, hw) && RunFrom(validMac, t, states, hws)
    ensures RunFrom(validMac, s, [s] + states, [hw] + hws)
    ensures ([s] + states)[|[hw] + hws|] == states[|hws|]
  {
    hide Request, Proper;
    var all, reqs := [s] + states, [hw] + hws;
    forall i | 0 <= i < |reqs| ensures Request(validMac, all[i], reqs[i], all[i + 1]) {
      if i > 0 {
        assert Request(validMac, states[i - 1], hws[i - 1], states[i - 1 + 1]);
      }
    }
    assert forall g :: g in reqs <==> g == hw || g in hws;
  }

  /**
   An address keeps its node through every run of requests if and only if it is secure:
   no waiting node that comes later in node order carries it on a device other than its
   primary one. For the converse, as many unused addresses as there are waiting nodes
   must be left to be discovered.
   */
  lemma KeepsIff(validMac: string -> bool, s: Snapshot, h: string, macs: set<string>)
    requires Valid(s) && h in s.index
    requires Supply(validMac, s.db, macs) && |macs| >= |Waiting(s.db)|
    ensures Keeps(validMac, s, h) <==> Secure(s, h)
  {
    hide Valid, Supply, Request, Threat;
    if Secure(s, h) {
      forall states: seq<Snapshot>, hws: seq<string> | RunFrom(validMac, s, states, hws)
        ensures StillAt(states[|hws|], h, s.index[h])
      {
        BoundForever(validMac, states, hws, h);
      }
    } else {
      var x, e :| Threat(s, h, x, e);
      var states, hws := ThreatenedLost(validMac, s, h, x, e, macs);
    }
  }

  /** A configured node, and a later waiting node that carries the same address on its second device. */
  function CarriedTwice(a: string, b: string, h: string): Db {
    map[a := Node("", false, "eth0", map["eth0" := h], map[]),
        b := Node("", true, "eth0", map["eth0" := "", "eth1" := h], map[])]
  }

  lemma CarriedDevs(a: string, b: string, h: string)
    requires a != b && h != "" && StringLe(a, b) && LowerCase(h)
    ensures var db := CarriedTwice(a, b, h);
            && Devs(db[a]) == map["eth0" := h] && Devs(db[b]) == map["eth0" := "", "eth1" := h]
            && FirstCandidate(db, b) && Spare(db[b], "eth1", h) && !ByCluster(db)(b, a)
  {
    var db := CarriedTwice(a, b, h);
    assert Devs(db[b]) == map["eth0" := "", "eth1" := h];
    assert Devs(db[a]) == map["eth0" := h];
    hide Devs, StringLe;
    StringLeTotal(a, b);
    StringLeTotal(b, b);
    assert "eth0" in Devs(db[b]) && !db[a].discoverable && db[b].discoverable && db.Keys == {a, b};
    assert Candidate(db, b) && forall x :: Candidate(db, x) ==> x == b;
  }

  /** There the next discovery, of any other address, takes the configured node's address from it. */
  lemma CarriedAddressMoves(validMac: string -> bool, a: string, b: string, h: string, hw: string, s: Snapshot,
                            t: Snapshot)
    requires a != b && h != "" && StringLe(a, b) && LowerCase(h) && hw != "" && hw != h && validMac(hw)
    requires s.db == CarriedTwice(a, b, h) && Valid(s) && Request(validMac, s, hw, t)
    ensures h in s.index && s.index[h] == a
    ensures h in t.index && t.index[h] == b
  {
    CarriedDevs(a, b, h);
    hide ByCluster, Devs, StringLe, Spare, FirstCandidate, Request, LowerCase, CarriedTwice;
    CarriedOwners(a, b, h);
    assert Owns(s.db, a, h);
    InsecureMoves(validMac, s, hw, t, h, b, "eth1");
  }

  lemma CarriedOwners(a: string, b: string, h: string)
    requires a != b && h != "" && StringLe(a, b) && LowerCase(h)
    ensures var db := CarriedTwice(a, b, h); forall x, g :: Owns(db, x, g) <==> x == a && g == h
  {
    CarriedDevs(a, b, h);
    hide Devs, StringLe;
    var db := CarriedTwice(a, b, h);
    assert "eth0" in Devs(db[a]);
  }

  /** The request at this step bound its address. */
  ghost predicate Binds(s: Snapshot, hw: string, t: Snapshot) {
    hw !in s.index && hw in t.index
  }

  /** A newly bound address goes to a node that was waiting and had no address in the index. */
  lemma BoundWaiting(validMac: string -> bool, s: Snapshot, hw: string, t: Snapshot)
    requires Valid(s) && Request(validMac, s, hw, t) && (validMac(hw) ==> hw != "") && Binds(s, hw, t)
    ensures var id := t.index[hw];
            && id in s.db && s.db[id].discoverable && id in t.db && !t.db[id].discoverable
            && forall g :: g in s.index ==> s.index[g] != id
  {
    hide IsIndex, LowerCase, IsPrimary, ByCluster, Devs, Lower, Takes;
    var id, d :| Discovers(s.db, hw, id, d, t.db);
    DiscoveryStep(s.db, s.index, hw, id, d, t.db, t.index);
  }

  /** No node starts waiting. */
  lemma WaitingShrinks(validMac: string -> bool, s: Snapshot, hw: string, t: Snapshot, x: string)
    requires Valid(s) && Request(validMac, s, hw, t) && x in t.db && t.db[x].discoverable
    ensures Valid(t) && x in s.db && s.db[x].discoverable
  {
    hide IsIndex, IsPrimary, ByCluster, Devs;
  }

  lemma {:induction false} WaitingBefore(validMac: string -> bool, states: seq<Snapshot>, hws: seq<string>, i: nat,
                                         j: nat, x: string)
    requires Requests(validMac, states, hws) && (forall k :: 0 <= k <= |hws| ==> Valid(states[k])) && i <= j <= |hws|
    requires x in states[j].db && states[j].db[x].discoverable
    ensures x in states[i].db && states[i].db[x].discoverable
    decreases j
  {
    hide Valid, Request;
    if i < j {
      WaitingShrinks(validMac, states[j - 1], hws[j - 1], states[j], x);
      WaitingBefore(validMac, states, hws, i, j - 1, x);
    }
  }

  lemma {:induction false} ValidThroughout(validMac: string -> bool, states: seq<Snapshot>, hws: seq<string>, k: nat)
    requires Requests(validMac, states, hws) && Valid(states[0]) && k <= |hws|
    ensures Valid(states[k])
  {
    hide IsIndex, Discovers, Candidate;
    if k > 0 {
      ValidThroughout(validMac, states, hws, k - 1);
      assert Request(validMac, states[k - 1], hws[k - 1], states[k - 1 + 1]);
    }
  }

  /** Addresses bound during a run get distinct nodes, whatever the nodes carried before. */
  lemma NewBindingsDistinct(validMac: string -> bool, states: seq<Snapshot>, hws: seq<string>, i: nat, j: nat)
    requires Requests(validMac, states, hws) && Valid(states[0]) && forall hw :: hw in hws ==> validMac(hw) ==> hw != ""
    requires i < j < |hws| && Binds(states[i], hws[i], states[i + 1]) && Binds(states[j], hws[j], states[j + 1])
    ensures states[i + 1].index[hws[i]] != states[j + 1].index[hws[j]]
  {
    hide Valid, Request;
    forall k | 0 <= k <= |hws| ensures Valid(states[k]) {
      ValidThroughout(validMac, states, hws, k);
    }
    assert hws[i] in hws && hws[j] in hws;
    BoundWaiting(validMac, states[i], hws[i], states[i + 1]);
    BoundWaiting(validMac, states[j], hws[j], states[j + 1]);
    WaitingBefore(validMac, states, hws, i + 1, j, states[j + 1].index[hws[j]]);
  }

  // ----- Waiting nodes without addresses -------------------------------------

  lemma FreshTakes(db: Db, id: string, d: string, hw: string, h: string)
    requires Fresh(db) && id in db && db[id].discoverable && h != "" && Takes(db[id], d, hw, h)
    ensures h == Lower(hw)
  {
    hide Devs;
    assert Lower("") == "";
  }

  /** When waiting nodes have no addresses, every address is secure. */
  lemma FreshSecure(s: Snapshot, h: string)
    requires Fresh(s.db) && h in s.index && h != ""
    ensures Secure(s, h)
  {
    hide Devs, ByCluster, IsPrimary;
    assert Lower("") == "";
  }

  /** Two addresses never share a node if they were bound during the run. */
  ghost predicate NewOnesApart(index: map<string, string>, start: map<string, string>) {
    forall g, h :: g in index && h in index && g != "" && h != "" && g !in start && g != h ==> index[g] != index[h]
  }

  lemma FreshStep(validMac: string -> bool, s: Snapshot, hw: string, t: Snapshot)
    requires Fresh(s.db) && Valid(s) && Request(validMac, s, hw, t) && Proper(validMac, hw)
    ensures Fresh(t.db) && Valid(t)
    ensures forall h :: h in s.index && h != "" ==> h in t.index && t.index[h] == s.index[h]
    ensures forall h :: h in t.index && h != "" && h !in s.index ==>
              && h == hw && !(exists g :: g in s.index && g != "" && s.index[g] == t.index[h])
  {
    hide IsIndex, Candidate, Takes, FirstCandidate, IsPrimary, ByCluster, Devs, Lower;
    forall h | h in s.index && h != "" ensures h in t.index && t.index[h] == s.index[h] {
      FreshSecure(s, h);
      RequestKeeps(validMac, s, hw, t, h);
    }
    if t != s {
      var id, d :| Discovers(s.db, hw, id, d, t.db);
      FirstIs(s.db, id);
      CandidateIs(s.db, id);
      DiscoveryStep(s.db, s.index, hw, id, d, t.db, t.index);
      forall h | h in t.index && h != "" && h !in s.index ensures h == hw {
        FreshTakes(s.db, id, d, hw, h);
      }
    }
  }

  /** When waiting nodes start without addresses, the final index keeps all bindings and shares no new node. */
  lemma {:induction false} FreshRun(validMac: string -> bool, states: seq<Snapshot>, hws: seq<string>)
    requires Requests(validMac, states, hws) && Fresh(states[0].db) && Valid(states[0])
    requires forall hw :: hw in hws ==> Proper(validMac, hw)
    ensures Fresh(states[|hws|].db) && Valid(states[|hws|]) && NewOnesApart(states[|hws|].index, states[0].index)
    ensures forall h :: h in states[0].index && h != "" ==>
              h in states[|hws|].index && states[|hws|].index[h] == states[0].index[h]
  {
    hide Valid, Fresh, Request, Proper;
    if hws != [] {
      var n := |hws| - 1;
      assert hws[n] in hws;
      FreshRun(validMac, states[..n + 1], hws[..n]);
      FreshStep(validMac, states[n], hws[n], states[n + 1]);
    }
  }

  // ----- The imperative node database ----------------------------------------

  datatype Outcome = Found(id: string) | InvalidMac | NoneLeft | Discovered(id: string, dev: string)

  /** The owners met so far determine the index built so far. */
  ghost predicate IndexUpTo(db: Db, ids: seq<string>, index: map<string, string>) {
    && (forall h :: h in index <==> exists id :: id in ids && Owns(db, id, h))
    && (forall h :: h in index ==> index[h] in ids && Owns(db, index[h], h))
    && (forall h, id :: h in index && id in ids && Owns(db, id, h) ==> ByCluster(db)(id, index[h]))
  }

  lemma ReflexiveOrder(db: Db, id: string)
    ensures ByCluster(db)(id, id)
  {
    ClusterOrdering(db);
    hide ByCluster;
  }

  lemma IndexStep(db: Db, ids: seq<string>, index: map<string, string>, id: string, added: map<string, string>)
    requires IndexUpTo(db, ids, index) && forall x :: x in ids ==> ByCluster(db)(x, id)
    requires forall h :: h in added <==> Owns(db, id, h)
    requires forall h :: h in added ==> added[h] == id
    ensures IndexUpTo(db, ids + [id], index + added)
  {
    hide Owns, ByCluster, Ordering;
    ReflexiveOrder(db, id);
    assert forall x :: x in ids + [id] <==> x in ids || x == id;
  }

  /** The devices of one configured node, keyed by lower-case address. */
  method NodeEntries(db: Db, id: string) returns (added: map<string, string>)
    requires id in db && !db[id].discoverable
    ensures forall h :: h in added <==> Owns(db, id, h)
    ensures forall h :: h in added ==> added[h] == id
  {
    var devs := Devs(db[id]);
    hide Devs, Lower;
    added := map[];
    var todo := devs.Keys;
    while todo != {}
      invariant todo <= devs.Keys
      invariant forall h :: h in added <==> exists d :: d in devs && d !in todo && Lower(devs[d]) == h
      invariant forall h :: h in added ==> added[h] == id
      decreases |todo|
    {
      var d :| d in todo;
      todo := todo - {d};
      added := added[Lower(devs[d]) := id];
    }
  }

  class NodeDb {
    var db: Db
    var index: map<string, string>

    ghost predicate Valid()
      reads this
    {
      IsIndex(db, index)
    }

    /** Start from a configuration read from disk. */
    constructor (db: Db)
      ensures this.db == db && Valid()
    {
      this.db, index := db, map[];
      new;
      Load();
    }

    /** `loadNodeDB`: rebuild the index from the database. */
    method Load()
      modifies this`index
      ensures IsIndex(db, index)
    {
      hide *;
      var listed := Listing(db.Keys);
      var ids := SortBy(ByCluster(db), listed);
      SortedIds(db, listed);
      var tmp: map<string, string> := map[];
      IndexNone(db);
      assert ids[..0] == [];
      for i := 0 to |ids|
        invariant IndexUpTo(db, ids[..i], tmp)
      {
        var id := ids[i];
        assert ids[..i + 1] == ids[..i] + [id];
        PrefixOrder(db, ids, i);
        if db[id].discoverable {
          SkipDiscoverable(db, ids[..i], tmp, id);
          continue;
        }
        var added := NodeEntries(db, id);
        IndexStep(db, ids[..i], tmp, id, added);
        tmp := tmp + added;
      }
      assert ids[..|ids|] == ids;
      IndexAll(db, ids, tmp);
      index := tmp;
    }

    /** `FindDiscoverableNode`; a merged node with any device has a primary one. */
    method FindDiscoverableNode() returns (found: bool, id: string, dev: string)
      ensures found <==> exists x :: Candidate(db, x)
      ensures found ==> FirstCandidate(db, id) && IsPrimary(db[id], dev)
    {
      hide *;
      var listed := Listing(db.Keys);
      var ids := SortBy(ByCluster(db), listed);
      SortedIds(db, listed);
      found, id, dev := false, "", "";
      for i := 0 to |ids|
        invariant forall k :: 0 <= k < i ==> !Candidate(db, ids[k])
      {
        CandidateIs(db, ids[i]);
        if db[ids[i]].discoverable && Devs(db[ids[i]]) != map[] {
          FirstInOrder(db, ids, i);
          dev := PrimaryNetDev(db[ids[i]]);
          return true, ids[i], dev;
        }
      }
      NoCandidate(db, ids);
    }

    /** `GetNode`: the last configured node in node order that has the address, if any has. */
    method GetNode(hw: string) returns (r: Option<string>)
      requires Valid()
      ensures r.Some? <==> exists id :: Owns(db, id, hw)
      ensures r.Some? ==> Owns(db, r.value, hw) && forall id :: Owns(db, id, hw) ==> ByCluster(db)(id, r.value)
    {
      hide Owns, ByCluster;
      if hw !in index {
        return None;
      }
      return Some(index[hw]);
    }

    /** `GetOrDiscoverNode`, as one atomic request. */
    method GetOrDiscoverNode(hw: string, validMac: string -> bool) returns (outcome: Outcome)
      requires Valid()
      modifies this
      ensures Valid()
      ensures Request(validMac, Snapshot(old(db), old(index)), hw, Snapshot(db, index))
      ensures hw in old(index) ==> outcome == Found(old(index)[hw])
      ensures hw !in old(index) && !validMac(hw) ==> outcome == InvalidMac
      ensures hw !in old(index) && validMac(hw) && !(exists x :: Candidate(old(db), x)) ==> outcome == NoneLeft
      ensures outcome.Discovered? ==> Discovers(old(db), hw, outcome.id, outcome.dev, db)
      ensures outcome.Discovered? <==> hw !in old(index) && validMac(hw) && exists x :: Candidate(old(db), x)
    {
      hide IsIndex, Candidate, FirstCandidate, IsPrimary;
      if hw in index {
        return Found(index[hw]);
      }
      if !validMac(hw) {
        return InvalidMac;
      }
      var found, id, dev := FindDiscoverableNode();
      if !found {
        return NoneLeft;
      }
      FirstIs(db, id);
      CandidateIs(db, id);
      var changes := db[id];
      changes := changes.(own := changes.own[dev := hw], discoverable := false);
      db := db[id := changes];
      Load();
      assert Discovers(old(db), hw, id, dev, db);
      return Discovered(id, dev);
    }
  }

  /** `updatePrimaryNetDev` on a node that has devices. */
  method PrimaryNetDev(n: Node) returns (d: string)
    requires Devs(n) != map[]
    ensures IsPrimary(n, d)
  {
    var devs := Devs(n);
    hide Devs, SortStrings, StringLe;
    if n.primary in devs {
      return n.primary;
    }
    var keys := Listing(devs.Keys);
    SortStringsMembers(keys);
    var sorted := SortStrings(keys);
    var k :| k in devs;
    assert k in sorted;
    d := sorted[0];
    assert d in sorted;
    forall e | e in devs ensures StringLe(d, e) {
      assert e in sorted;
      var i :| 0 <= i < |sorted| && sorted[i] == e;
      if i == 0 { StringLeTotal(d, d); }
    }
  }

  lemma CandidateIs(db: Db, id: string)
    requires id in db
    ensures Candidate(db, id) <==> db[id].discoverable && Devs(db[id]) != map[]
  {
  }

  lemma SortedIds(db: Db, listed: seq<string>)
    requires forall x :: x in listed <==> x in db.Keys
    ensures var ids := SortBy(ByCluster(db), listed);
            && (forall x :: x in ids <==> x in db)
            && (forall i :: 0 <= i < |ids| ==> ids[i] in db)
            && SortedBy(ByCluster(db), ids)
  {
    hide ByCluster;
    ClusterOrdering(db);
    SortBySorted(ByCluster(db), listed);
    forall x ensures x in SortBy(ByCluster(db), listed) <==> x in db {
      SortByMembers(ByCluster(db), listed, x);
    }
  }

  lemma PrefixOrder(db: Db, ids: seq<string>, i: nat)
    requires i < |ids| && SortedBy(ByCluster(db), ids)
    ensures forall x :: x in ids[..i] ==> ByCluster(db)(x, ids[i])
  {
    hide ByCluster;
  }

  lemma IndexNone(db: Db)
    ensures IndexUpTo(db, [], map[])
  {
  }

  lemma WaitingOwnsNothing(db: Db, id: string)
    requires id in db && db[id].discoverable
    ensures forall h :: !Owns(db, id, h)
  {
  }

  lemma SkipDiscoverable(db: Db, ids: seq<string>, index: map<string, string>, id: string)
    requires IndexUpTo(db, ids, index) && id in db && db[id].discoverable
    requires forall x :: x in ids ==> ByCluster(db)(x, id)
    ensures IndexUpTo(db, ids + [id], index)
  {
    hide *;
    WaitingOwnsNothing(db, id);
    IndexStep(db, ids, index, id, map[]);
    assert index + map[] == index;
  }

  lemma IndexAll(db: Db, ids: seq<string>, index: map<string, string>)
    requires IndexUpTo(db, ids, index) && forall x :: x in ids <==> x in db
    ensures IsIndex(db, index)
  {
    hide Owns, ByCluster;
    OwnersConfigured(db);
  }

  lemma OwnersConfigured(db: Db)
    ensures forall x, h :: Owns(db, x, h) ==> x in db
  {
  }

  lemma FirstInOrder(db: Db, ids: seq<string>, i: nat)
    requires i < |ids| && SortedBy(ByCluster(db), ids) && (forall x :: x in ids <==> x in db)
    requires Candidate(db, ids[i]) && forall k :: 0 <= k < i ==> !Candidate(db, ids[k])
    ensures FirstCandidate(db, ids[i])
  {
    ClusterOrdering(db);
    assert forall e :: Candidate(db, e) ==> e in ids;
    hide ByCluster, Candidate;
    forall e | Candidate(db, e) ensures ByCluster(db)(ids[i], e) {
      var k :| 0 <= k < |ids| && ids[k] == e;
      assert k >= i;
    }
  }

  lemma NoCandidate(db: Db, ids: seq<string>)
    requires (forall x :: x in ids <==> x in db) && forall k :: 0 <= k < |ids| ==> !Candidate(db, ids[k])
    ensures !exists x :: Candidate(db, x)
  {
    forall x ensures !Candidate(db, x) {
      if x in db {
        assert x in ids;
        var k :| 0 <= k < |ids| && ids[k] == x;
      }
    }
  }
}
