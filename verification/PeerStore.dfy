/** The runtime peer table of a WireGuard backend: backend/wireguard/peer_store.go.
    Two maps, public key -> peer and email -> public key, are meant to be inverse. */
module PeerStore {
  import opened Prefixes
  import opened Wrappers

  type Key = string
  type Email = string

  /** A configured peer. Go clones these at every store boundary, so a value models them exactly. */
  datatype PeerInfo = PeerInfo(email: Email, key: Key, allowedIPs: seq<Prefix>)

  /** The two maps as one value: what a sync transforms. */
  datatype Store = Store(peers: map<Key, PeerInfo>, emailToKey: map<Email, Key>)

  const EMPTY := Store(map[], map[])

  /** The 1:1 mapping the store's documentation promises. */
  ghost predicate Inverse(s: Store) {
    && (forall k :: k in s.peers ==>
          && s.peers[k].key == k
          && s.peers[k].email in s.emailToKey
          && s.emailToKey[s.peers[k].email] == k)
    && (forall e :: e in s.emailToKey ==>
          && s.emailToKey[e] in s.peers
          && s.peers[s.emailToKey[e]].email == e)
  }

  /** The store read as a map from user to peer, the form in which a sync is specified. */
  ghost function ByEmail(s: Store): map<Email, PeerInfo>
    requires Inverse(s)
  {
    map e | e in s.emailToKey :: s.peers[s.emailToKey[e]]
  }

  /** An inverse store holds nothing beyond its view by email. */
  lemma ByEmailDetermines(s: Store, t: Store)
    requires Inverse(s) && Inverse(t) && ByEmail(s) == ByEmail(t)
    ensures s == t
  {
    assert s.emailToKey.Keys == ByEmail(s).Keys == ByEmail(t).Keys == t.emailToKey.Keys;
    forall e | e in s.emailToKey
      ensures s.emailToKey[e] == t.emailToKey[e]
    {
      assert ByEmail(s)[e] == ByEmail(t)[e];
    }
    assert s.emailToKey == t.emailToKey;
    forall k | k in s.peers
      ensures k in t.peers && t.peers[k] == s.peers[k]
    {
      assert ByEmail(s)[s.peers[k].email] == ByEmail(t)[s.peers[k].email];
    }
    forall k | k in t.peers
      ensures k in s.peers
    {
      assert ByEmail(s)[t.peers[k].email] == ByEmail(t)[t.peers[k].email];
    }
    assert s.peers == t.peers;
  }

  /** Deleting one key, if it is there, together with its owner. */
  function RemoveOne(s: Store, key: Key): Store {
    if key in s.peers then
      Store(s.peers - {key}, s.emailToKey - {s.peers[key].email})
    else s
  }

  function RemoveAll(s: Store, keys: seq<Key>): Store
    decreases |keys|
  {
    if keys == [] then s else RemoveAll(RemoveOne(s, keys[0]), keys[1..])
  }

  /** Writing one peer: its email gives up the key it had, its key gives up the owner it had. */
  function UpsertOne(s: Store, p: PeerInfo): Store {
    var peers1 :=
      if p.email in s.emailToKey && s.emailToKey[p.email] != p.key then s.peers - {s.emailToKey[p.email]} else s.peers;
    var emails1 :=
      if p.key in peers1 && peers1[p.key].email != p.email then s.emailToKey - {peers1[p.key].email} else s.emailToKey;
    Store(peers1[p.key := p], emails1[p.email := p.key])
  }

  function UpsertAll(s: Store, ps: seq<PeerInfo>): Store
    decreases |ps|
  {
    if ps == [] then s else UpsertAll(UpsertOne(s, ps[0]), ps[1..])
  }

  lemma RemoveOneKeeps(s: Store, key: Key)
    requires Inverse(s)
    ensures Inverse(RemoveOne(s, key))
  {
  }

  lemma UpsertOneKeeps(s: Store, p: PeerInfo)
    requires Inverse(s)
    ensures Inverse(UpsertOne(s, p))
  {
  }

  lemma {:induction false} RemoveAllKeeps(s: Store, keys: seq<Key>)
    requires Inverse(s)
    ensures Inverse(RemoveAll(s, keys))
    ensures RemoveAll(s, keys).peers == s.peers - (set k | k in keys)
    decreases |keys|
  {
    if keys == [] {
    } else {
      RemoveOneKeeps(s, keys[0]);
      RemoveAllKeeps(RemoveOne(s, keys[0]), keys[1..]);
      assert (set k | k in keys) == {keys[0]} + (set k | k in keys[1..]);
    }
  }

  lemma {:induction false} UpsertAllKeeps(s: Store, ps: seq<PeerInfo>)
    requires Inverse(s)
    ensures Inverse(UpsertAll(s, ps))
    decreases |ps|
  {
    if ps != [] {
      UpsertOneKeeps(s, ps[0]);
      UpsertAllKeeps(UpsertOne(s, ps[0]), ps[1..]);
    }
  }

  /** A committed change list: removals first, then upserts, as ApplyChanges orders them. */
  function Changed(s: Store, removeKeys: seq<Key>, upserts: seq<PeerInfo>): Store {
    UpsertAll(RemoveAll(s, removeKeys), upserts)
  }

  /** ApplyChanges keeps the maps inverse for every argument list, repeated keys and emails included. */
  lemma ChangedKeepsInverse(s: Store, removeKeys: seq<Key>, upserts: seq<PeerInfo>)
    requires Inverse(s)
    ensures Inverse(Changed(s, removeKeys, upserts))
  {
    RemoveAllKeeps(s, removeKeys);
    UpsertAllKeeps(RemoveAll(s, removeKeys), upserts);
  }

  ghost predicate OneToOne(ps: seq<PeerInfo>) {
    forall i, j :: 0 <= i < j < |ps| ==> ps[i].key != ps[j].key && ps[i].email != ps[j].email
  }

  /** The peer is in the table, under its own key. */
  ghost predicate Has(s: Store, p: PeerInfo) {
    p.key in s.peers && s.peers[p.key] == p
  }

  /** What survives a list of upserts: the peers whose key nobody claimed and whose owner was not
      given another key. */
  ghost predicate Survives(p: PeerInfo, upserts: seq<PeerInfo>) {
    forall q :: q in upserts ==> q.key != p.key && q.email != p.email
  }

  lemma UpsertOneClosed(s: Store, u: PeerInfo, p: PeerInfo)
    requires Inverse(s)
    ensures Has(UpsertOne(s, u), p) <==> p == u || (Has(s, p) && u.key != p.key && u.email != p.email)
  {
  }

  lemma OneToOneTail(ps: seq<PeerInfo>)
    requires OneToOne(ps) && ps != []
    ensures OneToOne(ps[1..]) && Survives(ps[0], ps[1..])
    ensures forall p :: p in ps <==> p == ps[0] || p in ps[1..]
  {
  }

  /** The closed form of a run of upserts with distinct keys and emails. It only asks which peers the
      list holds, so the order of the list does not matter. */
  lemma {:induction false} UpsertAllClosed(s: Store, ups: seq<PeerInfo>, p: PeerInfo)
    requires Inverse(s) && OneToOne(ups)
    ensures Has(UpsertAll(s, ups), p) <==> p in ups || (Has(s, p) && Survives(p, ups))
    decreases |ups|
  {
    if ups == [] {
    } else {
      var u, rest := ups[0], ups[1..];
      OneToOneTail(ups);
      UpsertOneKeeps(s, u);
      UpsertAllClosed(UpsertOne(s, u), rest, p);
      UpsertOneClosed(s, u, p);
      assert Survives(p, ups) <==> Survives(p, rest) && u.key != p.key && u.email != p.email;
    }
  }

  /** The closed form of ApplyChanges: old entries minus the removed, the displaced emails and the
      displaced keys, plus the upserts. */
  lemma ChangedClosed(s: Store, removeKeys: seq<Key>, upserts: seq<PeerInfo>, p: PeerInfo)
    requires Inverse(s) && OneToOne(upserts)
    ensures Inverse(Changed(s, removeKeys, upserts))
    ensures Has(Changed(s, removeKeys, upserts), p) <==>
            p in upserts || (Has(s, p) && p.key !in removeKeys && Survives(p, upserts))
  {
    ChangedKeepsInverse(s, removeKeys, upserts);
    RemoveAllKeeps(s, removeKeys);
    UpsertAllClosed(RemoveAll(s, removeKeys), upserts, p);
  }

  /** The order in which Go's map iteration hands over removals and upserts cannot be observed. */
  lemma ChangedOrderFree(s: Store, rm1: seq<Key>, up1: seq<PeerInfo>, rm2: seq<Key>, up2: seq<PeerInfo>)
    requires Inverse(s) && OneToOne(up1) && OneToOne(up2)
    requires forall k :: k in rm1 <==> k in rm2
    requires forall p :: p in up1 <==> p in up2
    ensures Changed(s, rm1, up1) == Changed(s, rm2, up2)
  {
    ChangedKeepsInverse(s, rm1, up1);
    ChangedKeepsInverse(s, rm2, up2);
    forall p
      ensures Has(Changed(s, rm1, up1), p) <==> Has(Changed(s, rm2, up2), p)
    {
      ChangedClosed(s, rm1, up1, p);
      ChangedClosed(s, rm2, up2, p);
      assert Survives(p, up1) <==> Survives(p, up2);
    }
    HasDetermines(Changed(s, rm1, up1), Changed(s, rm2, up2));
  }

  /** An inverse store is determined by the peers it holds. */
  lemma HasDetermines(s: Store, t: Store)
    requires Inverse(s) && Inverse(t)
    requires forall p :: Has(s, p) <==> Has(t, p)
    ensures s == t
  {
    forall k | k in s.peers
      ensures k in t.peers && t.peers[k] == s.peers[k]
    {
      assert Has(s, s.peers[k]);
    }
    forall k | k in t.peers
      ensures k in s.peers
    {
      assert Has(t, t.peers[k]);
    }
    assert s.peers == t.peers;
    SamePeersSameStore(s, t);
  }

  lemma SamePeersSameStore(s: Store, t: Store)
    requires Inverse(s) && Inverse(t) && s.peers == t.peers
    ensures s == t
  {
    forall e | e in s.emailToKey
      ensures e in t.emailToKey && t.emailToKey[e] == s.emailToKey[e]
    {
      assert t.peers[s.emailToKey[e]].email == e;
    }
    forall e | e in t.emailToKey
      ensures e in s.emailToKey
    {
      assert s.peers[t.emailToKey[e]].email == e;
    }
    assert s.emailToKey == t.emailToKey;
  }

  /** Plain writes with no displacement: what Init and ReplaceAll do with each peer. */
  function PutOne(s: Store, p: PeerInfo): Store {
    Store(s.peers[p.key := p], s.emailToKey[p.email := p.key])
  }

  function PutAll(s: Store, ps: seq<PeerInfo>): Store
    decreases |ps|
  {
    if ps == [] then s else PutAll(PutOne(s, ps[0]), ps[1..])
  }

  lemma PutOneFresh(s: Store, q: PeerInfo, p: PeerInfo)
    requires Inverse(s) && q.key !in s.peers && q.email !in s.emailToKey
    ensures Inverse(PutOne(s, q))
    ensures Has(PutOne(s, q), p) <==> p == q || Has(s, p)
  {
  }

  /** Plain writes are safe where Init and ReplaceAll use them: on an empty table and for a one-to-one
      list. There they build the store that holds exactly the list. */
  lemma {:induction false} PutAllBuilds(s: Store, ps: seq<PeerInfo>, p: PeerInfo)
    requires Inverse(s) && OneToOne(ps)
    requires forall q :: q in ps ==> q.key !in s.peers && q.email !in s.emailToKey
    ensures Inverse(PutAll(s, ps))
    ensures Has(PutAll(s, ps), p) <==> p in ps || Has(s, p)
    decreases |ps|
  {
    if ps == [] {
    } else {
      OneToOneTail(ps);
      PutOneFresh(s, ps[0], p);
      PutAllBuilds(PutOne(s, ps[0]), ps[1..], p);
    }
  }

  /** Without that, plain writes can leave the maps disagreeing: one user listed with two keys. */
  lemma PutAllNeedsOneToOne(p: PeerInfo, q: PeerInfo)
    requires p.email == q.email && p.key != q.key
    ensures !Inverse(PutAll(EMPTY, [p, q]))
  {
    var s1 := PutOne(EMPTY, p);
    var s2 := PutOne(s1, q);
    assert [p, q][1..] == [q] && [q][1..] == [];
    assert PutAll(EMPTY, [p, q]) == PutAll(s1, [q]) == PutAll(s2, []) == s2;
    assert p.key in s2.peers;
  }

  class PeerStore {
    var peers: map<Key, PeerInfo>
    var emailToKey: map<Email, Key>

    ghost function View(): Store
      reads this
    {
      Store(peers, emailToKey)
    }

    ghost predicate Valid()
      reads this
    {
      Inverse(View())
    }

    constructor ()
      ensures View() == EMPTY && Valid()
    {
      peers, emailToKey := map[], map[];
    }

    method Init(ps: seq<PeerInfo>)
      modifies this
      ensures View() == PutAll(old(View()), ps)
    {
      for i := 0 to |ps|
        invariant PutAll(View(), ps[i..]) == PutAll(old(View()), ps)
      {
        peers := peers[ps[i].key := ps[i]];
        emailToKey := emailToKey[ps[i].email := ps[i].key];
      }
    }

    method ApplyChanges(removeKeys: seq<Key>, upsertPeers: seq<PeerInfo>) returns (removed: seq<Key>)
      requires Valid()
      modifies this
      ensures Valid()
      ensures View() == Changed(old(View()), removeKeys, upsertPeers)
      ensures forall k :: k in removed <==> k in removeKeys && k in old(peers)
    {
      hide Inverse;
      ChangedKeepsInverse(View(), removeKeys, upsertPeers);
      removed := [];
      for i := 0 to |removeKeys|
        invariant Inverse(View())
        invariant RemoveAll(View(), removeKeys[i..]) == RemoveAll(old(View()), removeKeys)
        invariant peers.Keys == old(peers).Keys - (set k | k in removeKeys[..i])
        invariant forall k :: k in removed <==> k in removeKeys[..i] && k in old(peers)
      {
        var key := removeKeys[i];
        RemoveOneKeeps(View(), key);
        assert removeKeys[..i + 1] == removeKeys[..i] + [key];
        if key in peers {
          emailToKey := emailToKey - {peers[key].email};
          peers := peers - {key};
          removed := removed + [key];
        }
      }
      assert removeKeys[..|removeKeys|] == removeKeys;
      assert removeKeys[|removeKeys|..] == [];
      for i := 0 to |upsertPeers|
        invariant UpsertAll(View(), upsertPeers[i..]) == Changed(old(View()), removeKeys, upsertPeers)
      {
        hide UpsertOne, Changed;
        assert upsertPeers[i..][1..] == upsertPeers[i + 1..];
        UpsertPeer(upsertPeers[i]);
      }
    }

    /** Whoever held the peer's email or key before loses its entry. */
    method UpsertPeer(p: PeerInfo)
      modifies this
      ensures View() == UpsertOne(old(View()), p)
    {
      if p.email in emailToKey && emailToKey[p.email] != p.key {
        peers := peers - {emailToKey[p.email]};
      }
      if p.key in peers && peers[p.key].email != p.email {
        emailToKey := emailToKey - {peers[p.key].email};
      }
      peers := peers[p.key := p];
      emailToKey := emailToKey[p.email := p.key];
    }

    method ReplaceAll(ps: seq<PeerInfo>) returns (removed: seq<Key>)
      modifies this
      ensures View() == PutAll(EMPTY, ps)
      ensures forall k :: k in removed <==> k in old(peers) && k !in peers
    {
      var newPeers: map<Key, PeerInfo>, newEmailToKey: map<Email, Key> := map[], map[];
      for i := 0 to |ps|
        invariant PutAll(Store(newPeers, newEmailToKey), ps[i..]) == PutAll(EMPTY, ps)
      {
        newPeers := newPeers[ps[i].key := ps[i]];
        newEmailToKey := newEmailToKey[ps[i].email := ps[i].key];
      }
      removed := [];
      var todo := peers.Keys;
      while todo != {}
        invariant todo <= peers.Keys
        invariant forall k :: k in removed <==> k in peers && k !in newPeers && k !in todo
        decreases |todo|
      {
        var k :| k in todo;
        todo := todo - {k};
        if k !in newPeers {
          removed := removed + [k];
        }
      }
      peers, emailToKey := newPeers, newEmailToKey;
    }

    method GetByEmail(email: Email) returns (r: Option<PeerInfo>)
      requires Valid()
      ensures r == if email in ByEmail(View()) then Some(ByEmail(View())[email]) else None
    {
      if email in emailToKey {
        r := Some(peers[emailToKey[email]]);
      } else {
        r := None;
      }
    }

    /** Every configured peer, in some order. */
    method GetAll() returns (result: seq<PeerInfo>)
      requires Valid()
      ensures OneToOne(result)
      ensures forall p :: p in result <==> Has(View(), p)
    {
      result := [];
      var todo := peers.Keys;
      while todo != {}
        invariant todo <= peers.Keys
        invariant OneToOne(result)
        invariant forall p :: p in result <==> Has(View(), p) && p.key !in todo
        decreases |todo|
      {
        var k :| k in todo;
        todo := todo - {k};
        result := result + [peers[k]];
      }
    }

    method GetEmailMap() returns (owners: map<Key, Email>)
      ensures owners == map k | k in peers :: peers[k].email
    {
      owners := map[];
      var todo := peers.Keys;
      while todo != {}
        invariant todo <= peers.Keys
        invariant owners == map k | k in peers && k !in todo :: peers[k].email
        decreases |todo|
      {
        var k :| k in todo;
        todo := todo - {k};
        owners := owners[k := peers[k].email];
      }
    }
  }
}
