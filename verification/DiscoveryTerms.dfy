/**
 The notions of node discovery (internal/pkg/warewulfd/nodedb.go and FindDiscoverableNode
 of internal/pkg/node/constructors.go) in terms of what a node record and its profiles hold.
 */
module DiscoveryTerms {
  import opened Text
  import opened Discovery

  /**
   A configured node has an address if one of its own devices carries it, or an inherited
   one for which the node itself has none. The empty address belongs to a device without any.
   */
  lemma OwnsIff(db: Db, id: string, h: string)
    ensures Owns(db, id, h) <==>
            && id in db && !db[id].discoverable
            && exists d ::
                 || (d in db[id].own && db[id].own[d] != "" && Lower(db[id].own[d]) == h)
                 || (&& d in db[id].inherited && !(d in db[id].own && db[id].own[d] != "")
                     && Lower(db[id].inherited[d]) == h)
                 || (h == "" && d in db[id].own && db[id].own[d] == "" && d !in db[id].inherited)
  {
    assert forall s: string :: Lower(s) == "" <==> s == "";
    if id in db {
      var n := db[id];
      DevsAre(n);
      hide Devs, Lower;
      if h == "" && exists d :: d in n.own && n.own[d] == "" && d !in n.inherited {
        var d :| d in n.own && n.own[d] == "" && d !in n.inherited;
        assert d in Devs(n) && Devs(n)[d] == "";
      }
    }
  }

  lemma DevsAre(n: Node)
    ensures forall d :: d in Devs(n) <==> d in n.own || d in n.inherited
    ensures forall d :: d in n.own && n.own[d] != "" ==> Devs(n)[d] == n.own[d]
    ensures forall d :: d in n.inherited && !(d in n.own && n.own[d] != "") ==> Devs(n)[d] == n.inherited[d]
    ensures forall d :: d in n.own && n.own[d] == "" && d !in n.inherited ==> Devs(n)[d] == ""
  {
  }

  /** Nodes come by cluster, and within one cluster by id. */
  lemma OrderIff(db: Db, a: string, b: string)
    requires a in db && b in db
    ensures ByCluster(db)(a, b) <==>
            if db[a].cluster == db[b].cluster then StringLe(a, b) else StringLe(db[a].cluster, db[b].cluster)
  {
  }

  /** The primary device is the configured one if the node or a profile has it, else the first by name. */
  lemma PrimaryIff(n: Node, d: string)
    ensures IsPrimary(n, d) <==>
            && (d in n.own || d in n.inherited)
            && if n.primary in n.own || n.primary in n.inherited then d == n.primary
               else forall e :: e in n.own || e in n.inherited ==> StringLe(d, e)
  {
    DevsAre(n);
    hide Devs, StringLe;
  }

  /**
   A discovery takes the first node in node order that is discoverable and has a device,
   its own or inherited, puts the address on the primary device of that node's own record,
   and ends its being discoverable. Nothing else changes.
   */
  lemma DiscoversIff(db: Db, hw: string, id: string, d: string, db': Db)
    ensures Discovers(db, hw, id, d, db') <==>
            && id in db && db[id].discoverable && (d in db[id].own || d in db[id].inherited)
            && (if db[id].primary in db[id].own || db[id].primary in db[id].inherited then d == db[id].primary
                else forall e :: e in db[id].own || e in db[id].inherited ==> StringLe(d, e))
            && (forall x :: && x in db && x != id && db[x].discoverable
                            && (db[x].own != map[] || db[x].inherited != map[]) ==>
                  if db[id].cluster == db[x].cluster then StringLe(id, x)
                  else StringLe(db[id].cluster, db[x].cluster))
            && db'.Keys == db.Keys
            && (forall x :: x in db && x != id ==> db'[x] == db[x])
            && db'[id] == Node(db[id].cluster, false, db[id].primary, db[id].own[d := hw], db[id].inherited)
  {
    if id in db {
      var n := db[id];
      PrimaryIff(n, d);
      FirstIff(db, id);
      hide IsPrimary, FirstCandidate, StringLe;
      assert db' == db[id := Bound(n, d, hw)] <==>
             && db'.Keys == db.Keys && (forall x :: x in db && x != id ==> db'[x] == db[x])
             && db'[id] == Bound(n, d, hw);
      if d in n.own || d in n.inherited { assert n.own != map[] || n.inherited != map[]; }
    }
  }

  lemma FirstIff(db: Db, id: string)
    requires id in db
    ensures FirstCandidate(db, id) <==>
            && db[id].discoverable && (db[id].own != map[] || db[id].inherited != map[])
            && forall x :: && x in db && x != id && db[x].discoverable
                           && (db[x].own != map[] || db[x].inherited != map[]) ==>
                 if db[id].cluster == db[x].cluster then StringLe(id, x) else StringLe(db[id].cluster, db[x].cluster)
  {
    forall x | x in db
      ensures Candidate(db, x) <==> db[x].discoverable && (db[x].own != map[] || db[x].inherited != map[])
      ensures ByCluster(db)(id, x) <==>
              if db[id].cluster == db[x].cluster then StringLe(id, x) else StringLe(db[id].cluster, db[x].cluster)
    {
      OrderIff(db, id, x);
      NoDevs(db[x]);
    }
    ReflexiveOrder(db, id);
    hide ByCluster, StringLe, Devs;
  }

  lemma NoDevs(n: Node)
    ensures Devs(n) == map[] <==> n.own == map[] && n.inherited == map[]
  {
    DevsAre(n);
    hide Devs;
    if n.own != map[] {
      var d :| d in n.own;
      assert d in Devs(n);
    }
    if n.inherited != map[] {
      var d :| d in n.inherited;
      assert d in Devs(n);
    }
  }

  /**
   An address is secure if and only if no later waiting node has it, on a device of its own
   or, where its own record has no address, on an inherited one, other than its primary device.
   */
  lemma SecureIff(s: Snapshot, h: string)
    requires h in s.index && h != ""
    ensures Secure(s, h) <==>
            forall x, e ::
              && x in s.db && s.db[x].discoverable && !ByCluster(s.db)(x, s.index[h])
              && (|| (e in s.db[x].own && s.db[x].own[e] != "" && Lower(s.db[x].own[e]) == h)
                  || (&& e in s.db[x].inherited && !(e in s.db[x].own && s.db[x].own[e] != "")
                      && Lower(s.db[x].inherited[e]) == h)) ==>
                IsPrimary(s.db[x], e)
  {
    forall x, e | x in s.db ensures Spare(s.db[x], e, h) <==> !IsPrimary(s.db[x], e) && Carries(s.db[x], e, h) {
      SpareIff(s.db[x], e, h);
    }
    hide ByCluster, IsPrimary, Lower, Spare;
    if Secure(s, h) {
      forall x, e | && x in s.db && s.db[x].discoverable && !ByCluster(s.db)(x, s.index[h]) && Carries(s.db[x], e, h)
        ensures IsPrimary(s.db[x], e)
      {
        assert !Threat(s, h, x, e);
      }
    }
  }

  ghost predicate Carries(n: Node, e: string, h: string) {
    || (e in n.own && n.own[e] != "" && Lower(n.own[e]) == h)
    || (e in n.inherited && !(e in n.own && n.own[e] != "") && Lower(n.inherited[e]) == h)
  }

  lemma SpareIff(n: Node, e: string, h: string)
    requires h != ""
    ensures Spare(n, e, h) <==> !IsPrimary(n, e) && Carries(n, e, h)
  {
    assert Lower("") == "";
    DevsAre(n);
    hide Devs, IsPrimary, Lower;
  }
}
