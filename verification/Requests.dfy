/** What a WireGuard request asks for, in the request's own terms: who becomes a peer and with which
    prefixes, when a request is refused, and what happens to a user that is no longer on the interface. */
module Requests {
  import opened Prefixes
  import opened PeerStore
  import opened Device
  import opened Desired
  import opened SyncSpec
  import opened SyncRuns
  import opened Wrappers

  /** users[i] speaks for an email: it names it and brings a key and at least one prefix. */
  predicate SpeaksFor(users: seq<User>, i: int, e: Email) {
    && 0 <= i < |users| && e != "" && users[i].email == e
    && users[i].proxy.Some? && users[i].proxy.value.publicKey != "" && |users[i].proxy.value.peerIps| > 0
  }

  /** And no later entry does: the last one counts. */
  ghost predicate LastEntry(users: seq<User>, i: int, e: Email) {
    SpeaksFor(users, i, e) && forall j :: i < j < |users| ==> !SpeaksFor(users, j, e)
  }

  /** The entry is for this interface and its key is one. */
  predicate Offered(c: Config, u: User) {
    u.proxy.Some? && c.interfaceName in u.inbounds && u.proxy.value.keyParses
  }

  /** The k-th prefix is reached, all before it having parsed, and inside the interface's address ranges. */
  ghost predicate Reached(c: Config, ips: seq<Option<Prefix>>, k: int) {
    0 <= k < |ips| && (forall j :: 0 <= j <= k ==> ips[j].Some?) && Allowed(ips[k].value, c.pools)
  }

  /** The prefixes picked are those at some positions in ascending order, which are exactly the positions of
      the prefixes inside the interface's address ranges. */
  ghost predicate Picks(c: Config, ips: seq<Option<Prefix>>, at: seq<int>, picked: seq<Prefix>) {
    && |at| == |picked|
    && (forall m, n :: 0 <= m < n < |at| ==> at[m] < at[n])
    && (forall n :: 0 <= n < |at| ==> 0 <= at[n] < |ips| && ips[at[n]] == Some(picked[n]))
    && (forall k :: 0 <= k < |ips| ==> (k in at <==> ips[k].Some? && Allowed(ips[k].value, c.pools)))
  }

  // ----- The last entry -----

  lemma SpeaksIn(users: seq<User>, i: int, e: Email)
    requires users != []
    ensures var init, last := users[..|users| - 1], users[|users| - 1];
            SpeaksFor(users, i, e) <==>
            if i == |users| - 1 then last.email == e && Usable(last) else SpeaksFor(init, i, e)
  {
  }

  /** The last entry of an email is what normalisation keeps of it. */
  ghost predicate KeptIsLast(users: seq<User>, e: Email) {
    && (e in LastByEmail(users) <==> exists i :: LastEntry(users, i, e))
    && forall i :: LastEntry(users, i, e) ==>
         0 <= i < |users| && e in LastByEmail(users) && LastByEmail(users)[e] == users[i]
  }

  lemma {:induction false} LastIsStored(users: seq<User>, e: Email)
    ensures KeptIsLast(users, e)
    decreases |users|
  {
    hide Usable, SpeaksFor, KeptIsLast;
    if users == [] {
      NobodyKept(e);
    } else {
      var last := users[|users| - 1];
      SpeaksIn(users, |users| - 1, e);
      if last.email == e && Usable(last) {
        LatestWins(users, e);
        LatestKept(users, e);
      } else {
        LastIsStored(users[..|users| - 1], e);
        EarlierStays(users, e);
        EarlierKept(users, e);
      }
    }
  }

  lemma NobodyKept(e: Email)
    ensures KeptIsLast([], e)
  {
  }

  lemma LatestKept(users: seq<User>, e: Email)
    requires users != [] && users[|users| - 1].email == e && Usable(users[|users| - 1])
    requires forall i :: LastEntry(users, i, e) <==> i == |users| - 1
    ensures KeptIsLast(users, e)
  {
    hide Usable, LastEntry;
    assert LastEntry(users, |users| - 1, e);
  }

  lemma EarlierKept(users: seq<User>, e: Email)
    requires users != [] && !(users[|users| - 1].email == e && Usable(users[|users| - 1]))
    requires KeptIsLast(users[..|users| - 1], e)
    requires forall i :: LastEntry(users, i, e) <==> LastEntry(users[..|users| - 1], i, e)
    ensures KeptIsLast(users, e)
  {
    hide Usable, LastEntry;
    var init := users[..|users| - 1];
    assert e in LastByEmail(users) <==> e in LastByEmail(init);
    assert e in LastByEmail(init) ==> LastByEmail(users)[e] == LastByEmail(init)[e];
    hide LastByEmail;
    forall i | LastEntry(users, i, e)
      ensures 0 <= i < |users| && e in LastByEmail(users) && LastByEmail(users)[e] == users[i]
    {
      assert LastEntry(init, i, e) && init[i] == users[i];
    }
    if i :| LastEntry(init, i, e) {
      assert LastEntry(users, i, e);
    }
    if i :| LastEntry(users, i, e) {
      assert LastEntry(init, i, e);
    }
  }

  lemma LatestWins(users: seq<User>, e: Email)
    requires users != [] && SpeaksFor(users, |users| - 1, e)
    ensures forall i :: LastEntry(users, i, e) <==> i == |users| - 1
  {
    assert LastEntry(users, |users| - 1, e);
  }

  lemma EarlierStays(users: seq<User>, e: Email)
    requires users != [] && !SpeaksFor(users, |users| - 1, e)
    ensures forall i :: LastEntry(users, i, e) <==> LastEntry(users[..|users| - 1], i, e)
  {
    var init := users[..|users| - 1];
    forall i: int
      ensures SpeaksFor(users, i, e) <==> SpeaksFor(init, i, e)
    {
      SpeaksIn(users, i, e);
    }
  }

  // ----- The prefixes -----

  lemma {:induction false} ScanPicks(c: Config, ips: seq<Option<Prefix>>)
    requires None !in ips
    ensures exists at :: Picks(c, ips, at, Scan(ips, c.pools))
    decreases |ips|
  {
    hide Allowed, Picks;
    if ips == [] {
      NothingPicked(c);
      assert Picks(c, ips, [], Scan(ips, c.pools));
    } else {
      assert ips[0] in ips && forall x :: x in ips[1..] ==> x in ips;
      ScanPicks(c, ips[1..]);
      var rest :| Picks(c, ips[1..], rest, Scan(ips[1..], c.pools));
      PicksMore(c, ips, rest, Scan(ips[1..], c.pools));
      var all := (if Allowed(ips[0].value, c.pools) then [ips[0].value] else []) + Scan(ips[1..], c.pools);
      var at :| Picks(c, ips, at, all);
      assert ips[0].Some? && Scan(ips, c.pools) == all;
    }
  }

  lemma NothingPicked(c: Config)
    ensures Picks(c, [], [], [])
  {
  }

  function Later(at: seq<int>): seq<int> {
    seq(|at|, n requires 0 <= n < |at| => at[n] + 1)
  }

  lemma InLater(at: seq<int>, k: int)
    ensures k in Later(at) <==> k - 1 in at
  {
    if k - 1 in at {
      var n :| 0 <= n < |at| && at[n] == k - 1;
      assert Later(at)[n] == k;
    }
  }

  lemma PicksMore(c: Config, ips: seq<Option<Prefix>>, rest: seq<int>, picked: seq<Prefix>)
    requires ips != [] && ips[0].Some? && Picks(c, ips[1..], rest, picked)
    ensures var all := (if Allowed(ips[0].value, c.pools) then [ips[0].value] else []) + picked;
            exists at :: Picks(c, ips, at, all)
  {
    hide Allowed, Picks;
    var all := (if Allowed(ips[0].value, c.pools) then [ips[0].value] else []) + picked;
    if Allowed(ips[0].value, c.pools) {
      PicksFirst(c, ips, rest, picked);
      assert Picks(c, ips, [0] + Later(rest), all);
    } else {
      assert all == picked;
      SkipsFirst(c, ips, rest, picked);
    }
  }

  lemma PicksFirst(c: Config, ips: seq<Option<Prefix>>, rest: seq<int>, picked: seq<Prefix>)
    requires ips != [] && ips[0].Some? && Picks(c, ips[1..], rest, picked) && Allowed(ips[0].value, c.pools)
    ensures Picks(c, ips, [0] + Later(rest), [ips[0].value] + picked)
  {
    hide Allowed;
    var at := [0] + Later(rest);
    forall k | 0 <= k < |ips|
      ensures k in at <==> ips[k].Some? && Allowed(ips[k].value, c.pools)
    {
      InLater(rest, k);
      if k > 0 {
        assert ips[k] == ips[1..][k - 1];
      }
    }
    forall n | 0 <= n < |at|
      ensures 0 <= at[n] < |ips| && ips[at[n]] == Some(([ips[0].value] + picked)[n])
    {
      if n > 0 {
        assert at[n] == rest[n - 1] + 1 && ips[1..][rest[n - 1]] == ips[at[n]];
      }
    }
  }

  lemma SkipsFirst(c: Config, ips: seq<Option<Prefix>>, rest: seq<int>, picked: seq<Prefix>)
    requires ips != [] && ips[0].Some? && Picks(c, ips[1..], rest, picked) && !Allowed(ips[0].value, c.pools)
    ensures Picks(c, ips, Later(rest), picked)
  {
    hide Allowed;
    var at := Later(rest);
    forall k | 0 <= k < |ips|
      ensures k in at <==> ips[k].Some? && Allowed(ips[k].value, c.pools)
    {
      InLater(rest, k);
      if k > 0 {
        assert ips[k] == ips[1..][k - 1];
      } else {
        assert forall n :: 0 <= n < |rest| ==> rest[n] != k - 1;
      }
    }
    forall n | 0 <= n < |at|
      ensures 0 <= at[n] < |ips| && ips[at[n]] == Some(picked[n])
    {
      assert at[n] == rest[n] + 1 && ips[1..][rest[n]] == ips[at[n]];
    }
  }

  lemma {:induction false} ScannedIsReached(c: Config, ips: seq<Option<Prefix>>, p: Prefix)
    ensures p in Scan(ips, c.pools) <==> exists k :: Reached(c, ips, k) && ips[k].value == p
    decreases |ips|
  {
    hide Allowed;
    if ips != [] && ips[0].Some? {
      ScannedIsReached(c, ips[1..], p);
      if k :| Reached(c, ips[1..], k) && ips[1..][k].value == p {
        ReachedLater(c, ips, k);
        assert Reached(c, ips, k + 1) && ips[k + 1].value == p;
      }
      if k :| Reached(c, ips, k) && ips[k].value == p {
        if k > 0 {
          ReachedLater(c, ips, k - 1);
          assert Reached(c, ips[1..], k - 1) && ips[1..][k - 1].value == p;
        }
      }
      assert Allowed(ips[0].value, c.pools) ==> Reached(c, ips, 0);
    }
  }

  lemma ReachedLater(c: Config, ips: seq<Option<Prefix>>, k: int)
    requires ips != [] && ips[0].Some?
    ensures k >= 0 ==> (Reached(c, ips[1..], k) <==> Reached(c, ips, k + 1))
  {
    hide Allowed;
    if Reached(c, ips[1..], k) {
      forall j | 0 <= j <= k + 1
        ensures ips[j].Some?
      {
        assert j > 0 ==> ips[j] == ips[1..][j - 1];
      }
    }
    if Reached(c, ips, k + 1) {
      forall j | 0 <= j <= k
        ensures ips[1..][j].Some?
      {
        assert ips[1..][j] == ips[j + 1];
      }
    }
  }

  // ----- Who is wanted, and with what -----

  /** The entry makes its user a peer: it is offered, all its prefixes parse, and one of them is inside the
      interface's address ranges. */
  ghost predicate MakesPeer(c: Config, u: User) {
    && Offered(c, u)
    && (forall k :: 0 <= k < |u.proxy.value.peerIps| ==> u.proxy.value.peerIps[k].Some?)
    && exists k :: 0 <= k < |u.proxy.value.peerIps| && Allowed(u.proxy.value.peerIps[k].value, c.pools)
  }

  lemma ClaimMeans(c: Config, u: User)
    ensures ClaimOf(c, u).email == u.email
    ensures ClaimOf(c, u).accepted <==> MakesPeer(c, u)
    ensures ClaimOf(c, u).accepted ==>
              && ClaimOf(c, u).key == u.proxy.value.publicKey
              && exists at :: Picks(c, u.proxy.value.peerIps, at, ClaimOf(c, u).ips)
    ensures forall p :: p in ClaimOf(c, u).ips <==>
              Offered(c, u) && exists k :: Reached(c, u.proxy.value.peerIps, k) && u.proxy.value.peerIps[k].value == p
  {
    hide Allowed, Scan, Picks;
    if Offered(c, u) {
      var ips := u.proxy.value.peerIps;
      forall p
        ensures p in Scan(ips, c.pools) <==> exists k :: Reached(c, ips, k) && ips[k].value == p
      {
        ScannedIsReached(c, ips, p);
      }
      if None !in ips {
        ScanPicks(c, ips);
        SomePicked(c, ips);
      } else {
        var k :| 0 <= k < |ips| && ips[k] == None;
        assert ips[k].None?;
      }
    }
  }

  lemma SomePicked(c: Config, ips: seq<Option<Prefix>>)
    requires None !in ips
    ensures Scan(ips, c.pools) != [] <==> exists k :: 0 <= k < |ips| && Allowed(ips[k].value, c.pools)
    ensures forall k :: 0 <= k < |ips| ==> ips[k].Some?
  {
    hide Allowed;
    ScanPicks(c, ips);
    forall k | 0 <= k < |ips|
      ensures ips[k].Some?
    {
      assert ips[k] in ips;
    }
    var at :| Picks(c, ips, at, Scan(ips, c.pools));
    if Scan(ips, c.pools) != [] {
      assert at[0] in at;
    }
    if k :| 0 <= k < |ips| && Allowed(ips[k].value, c.pools) {
      assert k in at;
    }
  }

  /** An email is wanted if and only if its last entry makes it a peer; then with that entry's key, and just
      those of its prefixes, in order, that are inside the interface's address ranges. */
  lemma WantedMeans(c: Config, users: seq<User>, e: Email)
    ensures e in WantedOf(c, users) <==> exists i :: LastEntry(users, i, e) && MakesPeer(c, users[i])
    ensures forall i :: e in WantedOf(c, users) && LastEntry(users, i, e) ==>
              && WantedOf(c, users)[e].email == e && WantedOf(c, users)[e].key == users[i].proxy.value.publicKey
              && exists at :: Picks(c, users[i].proxy.value.peerIps, at, WantedOf(c, users)[e].allowedIPs)
  {
    hide LastByEmail, MakesPeer, Picks, ClaimOf, SpeaksFor, LastEntry;
    LastIsStored(users, e);
    if e in LastByEmail(users) {
      var i :| LastEntry(users, i, e);
      LastEntryIs(users, i, e);
      ClaimMeans(c, users[i]);
    }
    forall i | LastEntry(users, i, e)
      ensures 0 <= i < |users| && e in LastByEmail(users) && LastByEmail(users)[e] == users[i]
    {
      LastEntryIs(users, i, e);
    }
  }

  /** A request speaks for an email if and only if some entry does. */
  lemma TouchedMeans(users: seq<User>, e: Email)
    ensures e in Touched(users) <==> exists i :: SpeaksFor(users, i, e)
  {
    LastIsStored(users, e);
    if i :| SpeaksFor(users, i, e) {
      LastExists(users, i, e);
    }
    hide LastByEmail, SpeaksFor;
    if i :| LastEntry(users, i, e) {
      assert SpeaksFor(users, i, e);
    }
  }

  lemma LastExists(users: seq<User>, i: int, e: Email)
    requires SpeaksFor(users, i, e)
    ensures exists j :: LastEntry(users, j, e)
    decreases |users| - i
  {
    if j :| i < j < |users| && SpeaksFor(users, j, e) {
      LastExists(users, j, e);
    } else {
      assert LastEntry(users, i, e);
    }
  }

  /** Two entries of different users that cannot both be served: they reach the same prefix, or both become
      peers under the same key. */
  ghost predicate Collide(c: Config, u: User, v: User) {
    && Offered(c, u) && Offered(c, v)
    && ((exists k, l :: Reached(c, u.proxy.value.peerIps, k) && Reached(c, v.proxy.value.peerIps, l)
                        && u.proxy.value.peerIps[k] == v.proxy.value.peerIps[l])
        || (MakesPeer(c, u) && MakesPeer(c, v) && u.proxy.value.publicKey == v.proxy.value.publicKey))
  }

  lemma CollideMeans(c: Config, u: User, v: User)
    requires u.email != v.email
    ensures Clash(ClaimOf(c, u), ClaimOf(c, v)) <==> Collide(c, u, v)
  {
    hide ClaimOf, Reached, MakesPeer;
    ClaimMeans(c, u);
    ClaimMeans(c, v);
    var a, b := ClaimOf(c, u), ClaimOf(c, v);
    forall ips: seq<Option<Prefix>>, k | Reached(c, ips, k)
      ensures 0 <= k < |ips| && ips[k].Some?
    {
      ReachedParsed(c, ips, k);
    }
    if p :| p in a.ips && p in b.ips {
      var k :| Reached(c, u.proxy.value.peerIps, k) && u.proxy.value.peerIps[k].value == p;
      var l :| Reached(c, v.proxy.value.peerIps, l) && v.proxy.value.peerIps[l].value == p;
      assert u.proxy.value.peerIps[k] == v.proxy.value.peerIps[l];
    }
    if Offered(c, u) && Offered(c, v) {
      if k, l :| Reached(c, u.proxy.value.peerIps, k) && Reached(c, v.proxy.value.peerIps, l)
                 && u.proxy.value.peerIps[k] == v.proxy.value.peerIps[l] {
        assert u.proxy.value.peerIps[k].value in a.ips && u.proxy.value.peerIps[k].value in b.ips;
      }
    }
    PeersAreOffered(c, u);
    PeersAreOffered(c, v);
  }

  lemma ReachedParsed(c: Config, ips: seq<Option<Prefix>>, k: int)
    requires Reached(c, ips, k)
    ensures 0 <= k < |ips| && ips[k].Some?
  {
  }

  lemma PeersAreOffered(c: Config, u: User)
    ensures MakesPeer(c, u) ==> Offered(c, u)
  {
  }

  /** A request is refused if and only if the last entries of two users collide. */
  lemma RejectedMeans(c: Config, users: seq<User>)
    ensures Rejected(c, users) <==>
            exists e, f, i, j :: e != f && LastEntry(users, i, e) && LastEntry(users, j, f)
                                 && Collide(c, users[i], users[j])
  {
    hide LastByEmail, LastEntry, Collide, ClaimOf, Clash;
    var m := LastByEmail(users);
    forall i, e | LastEntry(users, i, e)
      ensures 0 <= i < |users| && users[i].email == e
    {
      LastEntryIs(users, i, e);
    }
    if Rejected(c, users) {
      var a, b :| a in Claims(c, m) && b in Claims(c, m) && Clash(a, b);
      var e :| e in m && ClaimOf(c, m[e]) == a;
      var f :| f in m && ClaimOf(c, m[f]) == b;
      LastIsStored(users, e);
      LastIsStored(users, f);
      var i :| LastEntry(users, i, e);
      var j :| LastEntry(users, j, f);
      ClashApart(c, users[i], users[j]);
      CollideMeans(c, users[i], users[j]);
    }
    if e, f, i, j :| e != f && LastEntry(users, i, e) && LastEntry(users, j, f) && Collide(c, users[i], users[j]) {
      LastIsStored(users, e);
      LastIsStored(users, f);
      CollideMeans(c, users[i], users[j]);
      assert ClaimOf(c, m[e]) in Claims(c, m) && ClaimOf(c, m[f]) in Claims(c, m);
    }
  }

  lemma LastEntryIs(users: seq<User>, i: int, e: Email)
    requires LastEntry(users, i, e)
    ensures 0 <= i < |users| && users[i].email == e
  {
  }

  lemma ClashApart(c: Config, u: User, v: User)
    requires Clash(ClaimOf(c, u), ClaimOf(c, v))
    ensures u.email != v.email
  {
    ClaimMeans(c, u);
    ClaimMeans(c, v);
  }

  // ----- Users that do not become peers -----

  /** After a partial or full sync a user whose last entry does not make it a peer is in the store under no
      key: off the interface, with a key or prefix that does not parse, or with no prefix inside. */
  lemma NoPeerIsStored(c: Config, users: seq<User>, n: Node, n': Node, e: Email, i: int)
    requires Inverse(n.store) && (PartialStep(c, users, n, n') || FullStep(c, users, n, n'))
    requires LastEntry(users, i, e) && !MakesPeer(c, users[i])
    ensures forall k :: k in n'.store.peers ==> n'.store.peers[k].email != e
  {
    WantedMeans(c, users, e);
    LastIsStored(users, e);
    LastUnique(users, e);
    hide KernelAfter, TargetOf, ExistingOf, LastByEmail, LastEntry, MakesPeer, WantedOf, Picks;
    assert e !in ByEmail(n'.store);
    forall k | k in n'.store.peers
      ensures n'.store.peers[k].email != e
    {
      assert n'.store.peers[k].email in ByEmail(n'.store);
    }
  }

  lemma LastUnique(users: seq<User>, e: Email)
    ensures forall i, j :: LastEntry(users, i, e) && LastEntry(users, j, e) ==> i == j
  {
  }

  /** And it is not in the kernel either, unless a partial sync gives its key to another user. */
  lemma OffTheInterface(c: Config, users: seq<User>, n: Node, n': Node, e: Email, i: int, k: Key)
    requires Sound(n) && PartialStep(c, users, n, n')
    requires LastEntry(users, i, e) && c.interfaceName !in users[i].inbounds
    requires k in n.store.peers && n.store.peers[k].email == e
    requires forall f :: f in WantedOf(c, users) ==> WantedOf(c, users)[f].key != k
    ensures k !in n'.store.peers && k !in n'.kernel
  {
    LastIsStored(users, e);
    hide LastByEmail, LastEntry, WantedOf;
    var touched, w := Touched(users), WantedOf(c, users);
    PartialFacts(c, users, n, n');
    KeyAfterUpdate(n.store, touched, w, n'.store, k);
    InTarget(w, k);
  }
}
