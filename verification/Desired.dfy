/** From a request's user list to the peers it asks for: normalisation and collection in
    backend/wireguard/user_common.go. */
module Desired {
  import opened Prefixes
  import opened PeerStore
  import opened Wrappers

  /** A user's WireGuard credentials. keyParses and peerIps hold what wgtypes.ParseKey and net.ParseCIDR
      answered for the strings in the request; None is a parse error. */
  datatype WgProxy = WgProxy(publicKey: Key, keyParses: bool, peerIps: seq<Option<Prefix>>)

  datatype User = User(email: Email, inbounds: seq<string>, proxy: Option<WgProxy>, ipLimit: nat, speedLimit: nat)

  datatype Config = Config(interfaceName: string, pools: seq<Prefix>)

  predicate Usable(u: User) {
    && u.email != ""
    && u.proxy.Some?
    && u.proxy.value.publicKey != ""
    && u.proxy.value.peerIps != []
  }

  /** The last usable entry of each email. */
  function LastByEmail(users: seq<User>): (m: map<Email, User>)
    ensures forall e :: e in m ==> m[e].email == e && Usable(m[e]) && m[e] in users
    decreases |users|
  {
    if users == [] then map[]
    else
      var m := LastByEmail(users[..|users| - 1]);
      var u := users[|users| - 1];
      if Usable(u) then m[u.email := u] else m
  }

  /** users lists the map's values, each once, in some order. */
  ghost predicate Lists(users: seq<User>, m: map<Email, User>) {
    && (forall e :: e in m ==> m[e].email == e)
    && (forall u :: u in users <==> u.email in m && m[u.email] == u)
    && (forall i, j :: 0 <= i < j < |users| ==> users[i].email != users[j].email)
  }

  /** normalizeUsers: the list order is Go's map order, so it is left open. */
  method NormalizeUsers(users: seq<User>) returns (normalized: seq<User>)
    ensures Lists(normalized, LastByEmail(users))
  {
    var lastByEmail: map<Email, User> := map[];
    for i := 0 to |users|
      invariant lastByEmail == LastByEmail(users[..i])
    {
      var u := users[i];
      assert users[..i + 1][..i] == users[..i];
      if Usable(u) {
        lastByEmail := lastByEmail[u.email := u];
      }
    }
    assert users[..|users|] == users;
    normalized := [];
    var todo := lastByEmail.Keys;
    while todo != {}
      invariant todo <= lastByEmail.Keys
      invariant forall u :: u in normalized <==> u.email in lastByEmail && lastByEmail[u.email] == u && u.email !in todo
      invariant forall i, j :: 0 <= i < j < |normalized| ==> normalized[i].email != normalized[j].email
      decreases |todo|
    {
      var e :| e in todo;
      todo := todo - {e};
      normalized := normalized + [lastByEmail[e]];
    }
  }

  /** A user with no usable entry is in no normalised list: its peer is neither wanted nor touched. */
  lemma {:induction false} UnusableIsDropped(users: seq<User>, email: Email)
    ensures email in LastByEmail(users) <==> HasUsable(users, email)
    decreases |users|
  {
    hide Usable, HasUsable;
    if users == [] {
      NobodyUsable(email);
    } else {
      var init, last := users[..|users| - 1], users[|users| - 1];
      assert users == init + [last];
      UnusableIsDropped(init, email);
      UsableStep(init, last, email);
    }
  }

  ghost predicate HasUsable(users: seq<User>, email: Email) {
    exists u :: u in users && u.email == email && Usable(u)
  }

  lemma NobodyUsable(email: Email)
    ensures !HasUsable([], email)
  {
  }

  lemma UsableStep(init: seq<User>, last: User, email: Email)
    ensures HasUsable(init + [last], email) <==> HasUsable(init, email) || (last.email == email && Usable(last))
  {
    hide Usable;
    if last.email == email && Usable(last) {
      assert last in init + [last];
    }
    if HasUsable(init, email) {
      var u :| u in init && u.email == email && Usable(u);
      assert u in init + [last];
    }
  }

  predicate Eligible(c: Config, u: User) {
    c.interfaceName in u.inbounds && u.proxy.Some? && u.proxy.value.keyParses
  }

  /** The allowed prefixes that precede the first one that does not parse. */
  function Scan(ips: seq<Option<Prefix>>, pools: seq<Prefix>): seq<Prefix>
    decreases |ips|
  {
    if ips == [] || ips[0].None? then []
    else (if Allowed(ips[0].value, pools) then [ips[0].value] else []) + Scan(ips[1..], pools)
  }

  /** What a user asks of the interface: the prefixes collection scans for it, and whether it becomes a
      peer. A prefix is claimed as soon as it is scanned, even if its user is dropped afterwards for a
      later prefix that does not parse. */
  datatype Claim = Claim(email: Email, key: Key, ips: seq<Prefix>, accepted: bool)

  function ClaimOf(c: Config, u: User): Claim {
    if !Eligible(c, u) then Claim(u.email, "", [], false)
    else
      var ips := Scan(u.proxy.value.peerIps, c.pools);
      Claim(u.email, u.proxy.value.publicKey, ips, None !in u.proxy.value.peerIps && ips != [])
  }

  function PeerOf(a: Claim): PeerInfo {
    PeerInfo(a.email, a.key, a.ips)
  }

  /** Two users the node cannot serve together. */
  ghost predicate Clash(a: Claim, b: Claim) {
    && a.email != b.email
    && ((exists p :: p in a.ips && p in b.ips) || (a.accepted && b.accepted && a.key == b.key))
  }

  ghost predicate Conflict(claims: set<Claim>) {
    exists a, b :: a in claims && b in claims && Clash(a, b)
  }

  /** Every claim of a normalised request. */
  ghost function Claims(c: Config, m: map<Email, User>): set<Claim> {
    set e | e in m :: ClaimOf(c, m[e])
  }

  ghost predicate Conflicted(c: Config, m: map<Email, User>) {
    Conflict(Claims(c, m))
  }

  /** The peers a request asks for, by user. */
  ghost function Wanted(c: Config, m: map<Email, User>): map<Email, PeerInfo> {
    map e | e in m && ClaimOf(c, m[e]).accepted :: PeerOf(ClaimOf(c, m[e]))
  }

  /** The same peers, indexed by public key instead of by user. */
  ghost predicate Indexes(byKey: map<Key, PeerInfo>, byEmail: map<Email, PeerInfo>) {
    && (forall e :: e in byEmail ==> byEmail[e].key in byKey && byKey[byEmail[e].key] == byEmail[e])
    && (forall k :: k in byKey ==> byKey[k].key == k && byKey[k].email in byEmail
                                   && byEmail[byKey[k].email] == byKey[k])
  }

  /** What collection guarantees about the peers it returns: keys and users are one-to-one, every peer
      has a prefix, and no prefix is shared. */
  ghost predicate WellDesired(w: map<Email, PeerInfo>) {
    && (forall e :: e in w ==> w[e].email == e && w[e].allowedIPs != [])
    && (forall e, f :: e in w && f in w && e != f ==> w[e].key != w[f].key)
    && (forall e, f, p :: e in w && f in w && e != f && p in w[e].allowedIPs ==> p !in w[f].allowedIPs)
  }

  lemma UnconflictedIsWellDesired(c: Config, m: map<Email, User>)
    requires forall e :: e in m ==> m[e].email == e
    requires !Conflicted(c, m)
    ensures WellDesired(Wanted(c, m))
  {
    var w := Wanted(c, m);
    forall e, f | e in w && f in w && e != f
      ensures w[e].key != w[f].key && forall p :: p in w[e].allowedIPs ==> p !in w[f].allowedIPs
    {
      var a, b := ClaimOf(c, m[e]), ClaimOf(c, m[f]);
      assert a in Claims(c, m) && b in Claims(c, m);
      assert !Clash(a, b);
    }
  }

  /** seenIPs after some users: exactly the prefixes they claimed, each with its user. */
  ghost predicate SeenBy(claims: set<Claim>, seen: map<Prefix, Email>) {
    && (forall a, p :: a in claims && p in a.ips ==> p in seen && seen[p] == a.email)
    && (forall p :: p in seen ==> exists a :: a in claims && a.email == seen[p] && p in a.ips)
  }

  /** desiredPeers after some users: exactly the accepted ones, each under its key. */
  ghost predicate CollectedFrom(claims: set<Claim>, desired: map<Key, PeerInfo>) {
    && (forall a :: a in claims && a.accepted ==> a.key in desired && desired[a.key] == PeerOf(a))
    && (forall k :: k in desired ==> exists a :: a in claims && a.accepted && PeerOf(a) == desired[k] && a.key == k)
  }

  ghost predicate Marked(seen: map<Prefix, Email>, ips: seq<Prefix>, email: Email, next: map<Prefix, Email>) {
    && (forall p :: p in next <==> p in seen || p in ips)
    && (forall p :: p in next ==> next[p] == if p in ips then email else seen[p])
  }

  /** The loop over one user's prefixes, with its two exits: a prefix that does not parse, which drops
      the user, and a prefix another user holds, which fails the request. */
  method ScanPeerIPs(c: Config, u: User, seen: map<Prefix, Email>)
    returns (allowed: seq<Prefix>, hasInvalid: bool, taken: Option<Prefix>, seenIPs: map<Prefix, Email>)
    requires Eligible(c, u)
    ensures taken.Some? ==> taken.value in ClaimOf(c, u).ips && taken.value in seen && seen[taken.value] != u.email
    ensures taken.None? ==> allowed == ClaimOf(c, u).ips && (hasInvalid <==> None in u.proxy.value.peerIps)
    ensures taken.None? ==> forall p :: p in allowed && p in seen ==> seen[p] == u.email
    ensures taken.None? ==> Marked(seen, allowed, u.email, seenIPs)
  {
    hide Marked, Allowed;
    var ips := u.proxy.value.peerIps;
    allowed, hasInvalid, taken, seenIPs := [], false, None, seen;
    MarkedNone(seen, u.email);
    for j := 0 to |ips|
      invariant None !in ips[..j] && !hasInvalid && taken.None?
      invariant allowed + Scan(ips[j..], c.pools) == Scan(ips, c.pools)
      invariant Marked(seen, allowed, u.email, seenIPs)
      invariant forall p :: p in allowed && p in seen ==> seen[p] == u.email
    {
      if ips[j].None? {
        assert None in ips;
        hasInvalid := true;
        return;
      }
      var p := ips[j].value;
      var ok := PeerIPAllowed(p, c.pools);
      ScanOne(ips, j, c.pools, allowed);
      MarkedOne(seen, allowed, u.email, seenIPs, p);
      if !ok {
        continue;
      }
      if p in seenIPs && seenIPs[p] != u.email {
        taken := Some(p);
        return;
      }
      seenIPs := seenIPs[p := u.email];
      allowed := allowed + [p];
    }
    assert ips[..|ips|] == ips;
  }

  lemma MarkedNone(seen: map<Prefix, Email>, email: Email)
    ensures Marked(seen, [], email, seen)
  {
  }

  lemma MarkedOne(seen: map<Prefix, Email>, ips: seq<Prefix>, email: Email, next: map<Prefix, Email>, p: Prefix)
    requires Marked(seen, ips, email, next)
    ensures Marked(seen, ips + [p], email, next[p := email])
    ensures p in next && next[p] != email ==> p in seen && seen[p] == next[p] && p !in ips
    ensures !(p in next && next[p] != email) && p in seen && p !in ips ==> seen[p] == email
  {
  }

  lemma ScanOne(ips: seq<Option<Prefix>>, j: nat, pools: seq<Prefix>, allowed: seq<Prefix>)
    requires j < |ips| && ips[j].Some? && None !in ips[..j]
    requires allowed + Scan(ips[j..], pools) == Scan(ips, pools)
    ensures None !in ips[..j + 1]
    ensures Allowed(ips[j].value, pools) ==>
              allowed + [ips[j].value] + Scan(ips[j + 1..], pools) == Scan(ips, pools)
                  && ips[j].value in Scan(ips, pools)
    ensures !Allowed(ips[j].value, pools) ==> allowed + Scan(ips[j + 1..], pools) == Scan(ips, pools)
  {
    hide Allowed;
    var p, rest := ips[j].value, Scan(ips[j + 1..], pools);
    assert ips[..j + 1] == ips[..j] + [ips[j]];
    assert ips[j..][1..] == ips[j + 1..];
    if Allowed(p, pools) {
      assert allowed + ([p] + rest) == allowed + [p] + rest;
      assert (allowed + [p] + rest)[|allowed|] == p;
    } else {
      assert [] + rest == rest;
    }
  }

  lemma SeenByExtends(claims: set<Claim>, a: Claim, seen: map<Prefix, Email>, next: map<Prefix, Email>)
    requires SeenBy(claims, seen)
    requires forall p :: p in a.ips && p in seen ==> seen[p] == a.email
    requires Marked(seen, a.ips, a.email, next)
    ensures SeenBy(claims + {a}, next)
  {
    forall p | p in next
      ensures exists b :: b in claims + {a} && b.email == next[p] && p in b.ips
    {
      if p in a.ips {
        assert a in claims + {a};
      } else {
        var b :| b in claims && b.email == seen[p] && p in b.ips;
        assert b in claims + {a};
      }
    }
  }

  lemma CollectedExtends(claims: set<Claim>, a: Claim, desired: map<Key, PeerInfo>)
    requires CollectedFrom(claims, desired)
    requires forall b :: b in claims ==> b.email != a.email
    requires a.accepted && a.key in desired ==> desired[a.key].email == a.email
    ensures CollectedFrom(claims + {a}, if a.accepted then desired[a.key := PeerOf(a)] else desired)
  {
    var next := if a.accepted then desired[a.key := PeerOf(a)] else desired;
    forall k | k in next
      ensures exists b :: b in claims + {a} && b.accepted && PeerOf(b) == next[k] && b.key == k
    {
      if a.accepted && k == a.key {
        assert a in claims + {a};
      } else {
        var b :| b in claims && b.accepted && PeerOf(b) == desired[k] && b.key == k;
        assert b in claims + {a};
      }
    }
  }

  /** The two tables rule out every clash. */
  lemma NoClash(claims: set<Claim>, desired: map<Key, PeerInfo>, seenIPs: map<Prefix, Email>)
    requires SeenBy(claims, seenIPs) && CollectedFrom(claims, desired)
    ensures !Conflict(claims)
  {
    forall a, b, p | a in claims && b in claims && p in a.ips && p in b.ips
      ensures a.email == b.email
    {
      SeenOwner(claims, seenIPs, a, p);
      SeenOwner(claims, seenIPs, b, p);
    }
    forall a, b | a in claims && b in claims && a.accepted && b.accepted && a.key == b.key
      ensures a.email == b.email
    {
      assert PeerOf(a) == desired[a.key] == PeerOf(b);
    }
  }

  lemma SeenOwner(claims: set<Claim>, seen: map<Prefix, Email>, a: Claim, p: Prefix)
    requires SeenBy(claims, seen) && a in claims && p in a.ips
    ensures p in seen && seen[p] == a.email
  {
  }

  lemma CollectedIndexes(c: Config, m: map<Email, User>, desired: map<Key, PeerInfo>)
    requires forall e :: e in m ==> m[e].email == e
    requires CollectedFrom(Claims(c, m), desired)
    ensures Indexes(desired, Wanted(c, m))
  {
    var w := Wanted(c, m);
    forall e | e in w
      ensures w[e].key in desired && desired[w[e].key] == w[e]
    {
      assert ClaimOf(c, m[e]) in Claims(c, m);
    }
  }

  /** collectDesiredPeers. Whether it fails, and what it returns, depends only on the map of users and
      not on the order in which normalisation listed them. */
  method CollectDesiredPeers(c: Config, users: seq<User>, ghost m: map<Email, User>)
    returns (r: Option<map<Key, PeerInfo>>)
    requires Lists(users, m)
    ensures r.None? <==> Conflicted(c, m)
    ensures r.Some? ==> Indexes(r.value, Wanted(c, m))
  {
    var desired: map<Key, PeerInfo> := map[];
    var seenIPs: map<Prefix, Email> := map[];
    ghost var claims: set<Claim> := {};
    for n := 0 to |users|
      invariant claims == set u | u in users[..n] :: ClaimOf(c, u)
      invariant claims <= Claims(c, m)
      invariant SeenBy(claims, seenIPs)
      invariant CollectedFrom(claims, desired)
    {
      var u := users[n];
      ghost var a := ClaimOf(c, u);
      ghost var before := claims;
      NextUser(c, users, m, n);
      claims := claims + {a};
      if c.interfaceName !in u.inbounds || u.proxy.None? || !u.proxy.value.keyParses {
        SeenByExtends(before, a, seenIPs, seenIPs);
        CollectedExtends(before, a, desired);
        continue;
      }
      var allowed, hasInvalid, taken, next := ScanPeerIPs(c, u, seenIPs);
      if taken.Some? {
        ghost var b :| b in before && b.email == seenIPs[taken.value] && taken.value in b.ips;
        assert Clash(a, b);
        return None;
      }
      SeenByExtends(before, a, seenIPs, next);
      seenIPs := next;
      if hasInvalid || |allowed| == 0 {
        CollectedExtends(before, a, desired);
        continue;
      }
      var key := u.proxy.value.publicKey;
      if key in desired && desired[key].email != u.email {
        ghost var b :| b in before && b.accepted && PeerOf(b) == desired[key] && b.key == key;
        assert Clash(a, b);
        return None;
      }
      CollectedExtends(before, a, desired);
      desired := desired[key := PeerInfo(u.email, key, allowed)];
    }
    AllUsers(c, users, m);
    r := Some(desired);
    NoClash(claims, desired, seenIPs);
    CollectedIndexes(c, m, desired);
  }

  lemma NextUser(c: Config, users: seq<User>, m: map<Email, User>, n: nat)
    requires Lists(users, m) && n < |users|
    ensures ClaimOf(c, users[n]) in Claims(c, m)
    ensures (set u | u in users[..n + 1] :: ClaimOf(c, u)) ==
              (set u | u in users[..n] :: ClaimOf(c, u)) + {ClaimOf(c, users[n])}
    ensures forall a :: a in (set u | u in users[..n] :: ClaimOf(c, u)) ==> a.email != users[n].email
  {
    assert users[..n + 1] == users[..n] + [users[n]];
    assert users[n] in users;
  }

  lemma AllUsers(c: Config, users: seq<User>, m: map<Email, User>)
    requires Lists(users, m)
    ensures (set u | u in users[..|users|] :: ClaimOf(c, u)) == Claims(c, m)
  {
    assert users[..|users|] == users;
    forall a
      ensures a in (set u | u in users :: ClaimOf(c, u)) <==> a in Claims(c, m)
    {
      if a in Claims(c, m) {
        var e :| e in m && ClaimOf(c, m[e]) == a;
        assert m[e] in users;
      }
    }
  }
}
