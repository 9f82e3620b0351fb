/** What the WireGuard syncs guarantee: when store and kernel stay in agreement, that the partial and the
    full sync meet, and what every run of syncs and restarts keeps. */
module SyncRuns {
  import opened Prefixes
  import opened PeerStore
  import opened Device
  import opened Desired
  import opened SyncSpec
  import opened Wrappers

  /** The state a node is in between syncs: an inverse store over an exclusive kernel. */
  ghost predicate Sound(n: Node) {
    Inverse(n.store) && Exclusive(n.kernel)
  }

  /** No wanted prefix belongs to a user the request does not speak for. The source checks prefixes
      only inside the request, so this is up to the caller. */
  ghost predicate PrefixesFree(s: Store, touched: set<Email>, w: map<Email, PeerInfo>) {
    forall e, k, p :: e in w && p in w[e].allowedIPs && k in s.peers && s.peers[k].email !in touched ==>
                        p !in s.peers[k].allowedIPs
  }

  lemma AgreeingIsDisjoint(n: Node)
    requires Sound(n) && Agree(n)
    ensures Disjoint(n.store.peers)
  {
    forall k, l | k in n.store.peers && l in n.store.peers && k != l
      ensures SetOf(n.store.peers[k].allowedIPs) !! SetOf(n.store.peers[l].allowedIPs)
    {
      assert n.kernel[k] !! n.kernel[l];
    }
  }

  lemma InTarget(w: map<Email, PeerInfo>, k: Key)
    requires WellDesired(w)
    ensures k in TargetOf(w) <==> exists e :: e in w && w[e].key == k
    ensures k in TargetOf(w) ==>
              TargetOf(w)[k].email in w && w[TargetOf(w)[k].email] == TargetOf(w)[k] && TargetOf(w)[k].key == k
  {
  }

  /** Where the abstract update puts a key: with its wanted owner, or with an untouched one. */
  lemma KeyAfterUpdate(s: Store, touched: set<Email>, w: map<Email, PeerInfo>, s': Store, k: Key)
    requires Inverse(s) && Inverse(s') && WellDesired(w) && w.Keys <= touched
    requires ByEmail(s') == Updated(ByEmail(s), touched, w)
    ensures k in TargetOf(w) ==> k in s'.peers && s'.peers[k] == TargetOf(w)[k]
    ensures k !in TargetOf(w) ==> (k in s'.peers <==> k in s.peers && s.peers[k].email !in touched)
    ensures k !in TargetOf(w) && k in s'.peers ==> s'.peers[k] == s.peers[k]
  {
    InTarget(w, k);
    if k in TargetOf(w) {
      assert ByEmail(s')[TargetOf(w)[k].email] == TargetOf(w)[k];
    } else {
      if k in s'.peers {
        assert ByEmail(s')[s'.peers[k].email] == s'.peers[k];
      }
      if k in s.peers && s.peers[k].email !in touched {
        assert ByEmail(s')[s.peers[k].email] == s.peers[k];
      }
    }
  }

  /** A prefix of a peer that keeps what it has is handed to nobody. */
  lemma NotGiven(s: Store, touched: set<Email>, w: map<Email, PeerInfo>, k: Key, p: Prefix)
    requires WellDesired(w) && PrefixesFree(s, touched, w)
    requires k in s.peers && p in s.peers[k].allowedIPs
    requires s.peers[k].email !in touched || (k in TargetOf(w) && TargetOf(w)[k].allowedIPs == s.peers[k].allowedIPs)
    ensures !Given(ExistingOf(s, touched), TargetOf(w), p)
  {
    var ex, t := ExistingOf(s, touched), TargetOf(w);
    InTarget(w, k);
    forall l | Configured(ex, t, l)
      ensures p !in t[l].allowedIPs
    {
      InTarget(w, l);
    }
  }

  lemma KeptWhole(s: Store, touched: set<Email>, w: map<Email, PeerInfo>, k: Key)
    requires WellDesired(w) && PrefixesFree(s, touched, w) && k in s.peers
    requires s.peers[k].email !in touched || (k in TargetOf(w) && TargetOf(w)[k].allowedIPs == s.peers[k].allowedIPs)
    ensures Left(ExistingOf(s, touched), TargetOf(w), SetOf(s.peers[k].allowedIPs)) == SetOf(s.peers[k].allowedIPs)
  {
    forall p | p in s.peers[k].allowedIPs
      ensures !Given(ExistingOf(s, touched), TargetOf(w), p)
    {
      NotGiven(s, touched, w, k, p);
    }
  }

  /** The wanted keys in use are in the hands of users the request speaks for. */
  ghost predicate KeysFree(s: Store, touched: set<Email>, w: map<Email, PeerInfo>) {
    forall e :: e in w && w[e].key in s.peers ==> s.peers[w[e].key].email in touched
  }

  /** The kernel's prefixes for one key after a partial sync that started in agreement and took no
      prefix from an untouched user. */
  lemma FreePartialKey(n: Node, touched: set<Email>, w: map<Email, PeerInfo>, k: Key)
    requires Agree(n) && WellDesired(w) && PrefixesFree(n.store, touched, w) && KeysFree(n.store, touched, w)
    ensures var d := KernelAfter(n.kernel, ExistingOf(n.store, touched), TargetOf(w));
            if k in TargetOf(w) then k in d && d[k] == SetOf(TargetOf(w)[k].allowedIPs)
            else (k in d <==> k in n.store.peers && n.store.peers[k].email !in touched)
                 && (k in d ==> d[k] == SetOf(n.store.peers[k].allowedIPs))
  {
    hide Given, Left, WellDesired, PrefixesFree;
    var ex, t := ExistingOf(n.store, touched), TargetOf(w);
    InTarget(w, k);
    if k in t {
      assert Buildable(t[k]) by { WantedBuildable(w, t[k].email); }
      if k in n.store.peers && n.store.peers[k].allowedIPs == t[k].allowedIPs {
        assert !Configured(ex, t, k);
        KeptWhole(n.store, touched, w, k);
      } else {
        assert Configured(ex, t, k);
        assert k in ex || k !in n.kernel;
      }
    } else if k in n.store.peers && n.store.peers[k].email !in touched {
      KeptWhole(n.store, touched, w, k);
    }
  }

  lemma WantedBuildable(w: map<Email, PeerInfo>, e: Email)
    requires WellDesired(w) && e in w
    ensures Buildable(w[e]) && w[e].email == e
  {
  }

  /** Theft: a wanted prefix that an untouched user has is gone from that user's kernel peer. */
  lemma TakenPrefixIsLost(n: Node, touched: set<Email>, w: map<Email, PeerInfo>, e: Email, k: Key, p: Prefix)
    requires Sound(n) && Agree(n) && WellDesired(w)
    requires KeysFree(n.store, touched, w)
    requires e in w && p in w[e].allowedIPs && k in n.store.peers && n.store.peers[k].email !in touched
    requires p in n.store.peers[k].allowedIPs
    ensures var d := KernelAfter(n.kernel, ExistingOf(n.store, touched), TargetOf(w));
            k !in TargetOf(w) && k in d && p !in d[k]
  {
    var ex, t := ExistingOf(n.store, touched), TargetOf(w);
    InTarget(w, k);
    InTarget(w, w[e].key);
    var l := w[e].key;
    assert t[l] == w[e];
    AgreeingIsDisjoint(n);
    assert p in SetOf(n.store.peers[k].allowedIPs);
    assert l in n.store.peers ==> p !in SetOf(n.store.peers[l].allowedIPs);
    assert Configured(ex, t, l);
    assert Given(ex, t, p);
  }

  lemma PartialFacts(c: Config, users: seq<User>, n: Node, n': Node)
    requires Inverse(n.store) && PartialStep(c, users, n, n')
    ensures WellDesired(WantedOf(c, users)) && WantedOf(c, users).Keys <= Touched(users)
    ensures KeysFree(n.store, Touched(users), WantedOf(c, users))
  {
  }

  /** From agreement, a successful partial reconcile keeps store and kernel in agreement exactly when no
      wanted prefix belongs to an untouched user. Key swaps, cycles and prefix moves among the touched
      users are all within it. */
  lemma PartialAgreesIff(c: Config, users: seq<User>, n: Node, n': Node)
    requires Sound(n) && Agree(n) && PartialStep(c, users, n, n')
    ensures Agree(n') <==> PrefixesFree(n.store, Touched(users), WantedOf(c, users))
  {
    PartialFacts(c, users, n, n');
    UpdateAgreesIff(n, Touched(users), WantedOf(c, users), n');
  }

  lemma UpdateAgreesIff(n: Node, touched: set<Email>, w: map<Email, PeerInfo>, n': Node)
    requires Sound(n) && Agree(n) && WellDesired(w) && w.Keys <= touched && KeysFree(n.store, touched, w)
    requires Inverse(n'.store) && ByEmail(n'.store) == Updated(ByEmail(n.store), touched, w)
    requires n'.kernel == KernelAfter(n.kernel, ExistingOf(n.store, touched), TargetOf(w))
    ensures Agree(n') <==> PrefixesFree(n.store, touched, w)
  {
    hide KernelAfter, Updated, ByEmail, TargetOf, ExistingOf, WellDesired, KeysFree, Inverse;
    if PrefixesFree(n.store, touched, w) {
      forall k
        ensures k in n'.kernel <==> k in n'.store.peers
        ensures k in n'.kernel ==> n'.kernel[k] == SetOf(n'.store.peers[k].allowedIPs)
      {
        FreePartialKey(n, touched, w, k);
        KeyAfterUpdate(n.store, touched, w, n'.store, k);
      }
      assert n'.kernel == KernelOf(n'.store.peers);
    } else {
      var e, k, p :| e in w && p in w[e].allowedIPs && k in n.store.peers && n.store.peers[k].email !in touched
                     && p in n.store.peers[k].allowedIPs;
      TakenPrefixIsLost(n, touched, w, e, k, p);
      KeyAfterUpdate(n.store, touched, w, n'.store, k);
      assert p in KernelOf(n'.store.peers)[k];
    }
  }

  /** A full sync ends in agreement unless it took its shortcut on a kernel that had drifted: the
      shortcut compares the request with the store and never looks at the kernel. */
  lemma FullAgreesIff(c: Config, users: seq<User>, n: Node, n': Node)
    requires Sound(n) && FullStep(c, users, n, n')
    ensures Agree(n') <==> Agree(n) || ByEmail(n.store) != WantedOf(c, users)
  {
    var w := WantedOf(c, users);
    if ByEmail(n.store) == w {
      ByEmailDetermines(n.store, n'.store);
    } else {
      TargetIsTable(n'.store, w);
    }
  }

  lemma TargetIsTable(s: Store, w: map<Email, PeerInfo>)
    requires Inverse(s) && WellDesired(w) && ByEmail(s) == w
    ensures s.peers == TargetOf(w)
  {
    forall k
      ensures k in s.peers <==> k in TargetOf(w)
      ensures k in s.peers ==> s.peers[k] == TargetOf(w)[k]
    {
      InTarget(w, k);
      if k in s.peers {
        assert w[s.peers[k].email] == s.peers[k];
      }
    }
  }

  /** A restart puts the kernel back in agreement exactly when the stored peers share no prefix; if two
      do, whichever comes last in the list takes it. */
  lemma RestartAgreesIff(n: Node, n': Node)
    requires Sound(n) && RestartStep(n, n')
    ensures Exclusive(n'.kernel)
    ensures Agree(n') <==> Disjoint(n.store.peers)
  {
    var cs :| AddsOf(n.store.peers, cs) && n'.kernel == ApplyAll(map[], cs);
    ApplyAllKeepsExclusive(map[], cs);
    if Disjoint(n.store.peers) {
      AddsBuild(n.store.peers, cs);
    } else if Agree(n') {
      AgreeingIsDisjoint(n');
    }
  }

  lemma KernelAfterExclusive(d: Kernel, ex: map<Key, PeerInfo>, t: map<Key, PeerInfo>)
    requires Exclusive(d) && Keyed(t) && Disjoint(t)
    ensures Exclusive(KernelAfter(d, ex, t))
  {
    var r := KernelAfter(d, ex, t);
    forall k, l, p | k in r && l in r && k != l && p in r[k]
      ensures p !in r[l]
    {
      OneOwner(d, ex, t, k, l, p);
    }
  }

  lemma OneOwner(d: Kernel, ex: map<Key, PeerInfo>, t: map<Key, PeerInfo>, k: Key, l: Key, p: Prefix)
    requires Exclusive(d) && Keyed(t) && Disjoint(t) && k != l
    requires k in KernelAfter(d, ex, t) && l in KernelAfter(d, ex, t) && p in KernelAfter(d, ex, t)[k]
    ensures p !in KernelAfter(d, ex, t)[l]
  {
    if Given(ex, t, p) {
      var m :| Configured(ex, t, m) && p in t[m].allowedIPs;
      assert p in SetOf(t[m].allowedIPs);
    } else {
      assert Configured(ex, t, k) ==> p !in SetOf(t[k].allowedIPs);
      assert Configured(ex, t, l) ==> p !in SetOf(t[l].allowedIPs);
    }
  }

  /** Two syncs, one result: when the request speaks for every stored user, the partial reconcile and
      the full sync leave the same store, and from agreement the same kernel. */
  lemma PartialMeetsFull(c: Config, users: seq<User>, n: Node, n1: Node, n2: Node)
    requires Sound(n) && PartialStep(c, users, n, n1) && FullStep(c, users, n, n2)
    requires forall e :: e in ByEmail(n.store) ==> e in Touched(users)
    ensures n1.store == n2.store
    ensures Agree(n) ==> n1 == n2
  {
    var touched, w := Touched(users), WantedOf(c, users);
    UpdateOfAll(ByEmail(n.store), touched, w);
    ByEmailDetermines(n1.store, n2.store);
    if Agree(n) {
      NobodyUntouched(n.store, touched, w);
      PartialAgreesIff(c, users, n, n1);
      FullAgreesIff(c, users, n, n2);
    }
  }

  lemma UpdateOfAll(m: map<Email, PeerInfo>, touched: set<Email>, w: map<Email, PeerInfo>)
    requires forall e :: e in m ==> e in touched
    ensures Updated(m, touched, w) == w
  {
  }

  lemma NobodyUntouched(s: Store, touched: set<Email>, w: map<Email, PeerInfo>)
    requires Inverse(s) && forall e :: e in ByEmail(s) ==> e in touched
    ensures PrefixesFree(s, touched, w)
  {
    forall k | k in s.peers
      ensures s.peers[k].email in touched
    {
      assert s.peers[k].email in ByEmail(s);
    }
  }

  /** A request whose users carry no usable credentials changes nothing: such users count as untouched,
      so leaving a user's credentials out does not remove its peer. */
  lemma CredentiallessChangesNothing(c: Config, users: seq<User>, n: Node, n': Node)
    requires Sound(n) && PartialStep(c, users, n, n')
    requires forall u :: u in users ==> !Usable(u)
    ensures n' == n
  {
    forall e
      ensures e !in Touched(users)
    {
      UnusableIsDropped(users, e);
    }
    assert Touched(users) == {} && WantedOf(c, users) == map[];
    UpdateOfNone(n, n');
  }

  lemma UpdateNothing(m: map<Email, PeerInfo>)
    ensures Updated(m, {}, map[]) == m
  {
  }

  lemma UpdateOfNone(n: Node, n': Node)
    requires Inverse(n.store) && Inverse(n'.store)
    requires ByEmail(n'.store) == Updated(ByEmail(n.store), {}, map[])
    requires n'.kernel == KernelAfter(n.kernel, ExistingOf(n.store, {}), TargetOf(map[]))
    ensures n' == n
  {
    UpdateNothing(ByEmail(n.store));
    ByEmailDetermines(n.store, n'.store);
    NoDiff(n.store, n.kernel);
  }

  lemma NoDiff(s: Store, d: Kernel)
    ensures WellDesired(map[]) && KernelAfter(d, ExistingOf(s, {}), TargetOf(map[])) == d
  {
    hide KernelAfter, ExistingOf, TargetOf;
    NobodyExists(s);
    var ex, t := ExistingOf(s, {}), TargetOf(map[]);
    forall k
      ensures k in KernelAfter(d, ex, t) <==> k in d
      ensures k in d ==> KernelAfter(d, ex, t)[k] == d[k]
    {
      NoDiffAt(d, ex, t, k);
    }
  }

  lemma NobodyExists(s: Store)
    ensures WellDesired(map[])
    ensures forall k :: k !in ExistingOf(s, {}) && k !in TargetOf(map[])
  {
  }

  lemma NoDiffAt(d: Kernel, ex: map<Key, PeerInfo>, t: map<Key, PeerInfo>, k: Key)
    requires forall k :: k !in ex && k !in t
    ensures k in KernelAfter(d, ex, t) <==> k in d
    ensures k in d ==> KernelAfter(d, ex, t)[k] == d[k]
  {
    if k in d {
      assert Left(ex, t, d[k]) == d[k];
    }
  }

  /** The device limiter takes a kicked peer out of the kernel and leaves it in the store. A resync that
      asks for the same key puts it back exactly when it changes the peer's prefixes. */
  lemma ResyncReadmitsIff(c: Config, users: seq<User>, n: Node, n': Node, e: Email, k: Key)
    requires Sound(n) && PartialStep(c, users, n, n')
    requires k in n.store.peers && k !in n.kernel
    requires e in WantedOf(c, users) && WantedOf(c, users)[e].key == k
    ensures k in n'.store.peers
    ensures k in n'.kernel <==> WantedOf(c, users)[e].allowedIPs != n.store.peers[k].allowedIPs
  {
    var touched, w := Touched(users), WantedOf(c, users);
    InTarget(w, k);
    KeyAfterUpdate(n.store, touched, w, n'.store, k);
    var ex, t := ExistingOf(n.store, touched), TargetOf(w);
    assert t[k] == w[e];
    assert k in ex && ex[k] == n.store.peers[k];
  }

  /** The condition of PartialAgreesIff is not idle: asking for a prefix that an untouched user has is
      accepted, and leaves that user without it in the kernel while the store still lists it. */
  lemma PrefixTheft(c: Config, users: seq<User>, a: PeerInfo, b: PeerInfo, p: Prefix)
    requires a.email != b.email && a.key != b.key && a.allowedIPs == [p] && b.allowedIPs == [p]
    requires Touched(users) == {b.email} && WantedOf(c, users) == map[b.email := b] && !Rejected(c, users)
    ensures var n := Node(Store(map[a.key := a], map[a.email := a.key]), map[a.key := {p}]);
            var n' := Node(Store(map[a.key := a, b.key := b], map[a.email := a.key, b.email := b.key]),
                map[a.key := {}, b.key := {p}]);
            Sound(n) && Agree(n) && PartialStep(c, users, n, n') && !Agree(n')
  {
    hide KernelAfter, TargetOf, WantedOf, Touched, ExistingOf, ByEmail, Updated, Rejected;
    var n := Node(Store(map[a.key := a], map[a.email := a.key]), map[a.key := {p}]);
    var n' := Node(Store(map[a.key := a, b.key := b], map[a.email := a.key, b.email := b.key]),
        map[a.key := {}, b.key := {p}]);
    var w := map[b.email := b];
    assert WellDesired(w);
    TheftStore(a, b, n.store, n'.store, w);
    TheftKernel(a, b, p, n.store, w);
    assert SetOf([p]) == {p};
    assert n.kernel == KernelOf(n.store.peers);
    assert p in KernelOf(n'.store.peers)[a.key];
  }

  lemma TheftStore(a: PeerInfo, b: PeerInfo, s: Store, s': Store, w: map<Email, PeerInfo>)
    requires a.email != b.email && a.key != b.key && w == map[b.email := b] && WellDesired(w)
    requires s == Store(map[a.key := a], map[a.email := a.key])
    requires s' == Store(map[a.key := a, b.key := b], map[a.email := a.key, b.email := b.key])
    ensures Inverse(s) && Inverse(s') && ByEmail(s') == Updated(ByEmail(s), {b.email}, w)
  {
    assert Inverse(s) && Inverse(s');
    forall p
      ensures Has(s', p) <==> (p.email in w && w[p.email] == p) || (Has(s, p) && p.email !in {b.email})
    {
    }
    UpdatedByEmail(s, {b.email}, w, s');
  }

  lemma TheftKernel(a: PeerInfo, b: PeerInfo, p: Prefix, s: Store, w: map<Email, PeerInfo>)
    requires a.email != b.email && a.key != b.key && a.allowedIPs == [p] && b.allowedIPs == [p]
    requires w == map[b.email := b] && WellDesired(w)
    requires s == Store(map[a.key := a], map[a.email := a.key])
    ensures KernelAfter(map[a.key := {p}], ExistingOf(s, {b.email}), TargetOf(w)) == map[a.key := {}, b.key := {p}]
  {
    hide KernelAfter, ExistingOf, TargetOf;
    var ex, t := ExistingOf(s, {b.email}), TargetOf(w);
    assert forall k :: k !in ex by {
      forall k
        ensures k !in ExistingOf(s, {b.email})
      {
        NotExisting(s, {b.email}, k);
      }
    }
    forall k
      ensures k in t <==> k == b.key
      ensures k in t ==> t[k] == b
    {
      assert w[b.email].key == b.key;
      InTarget(w, k);
    }
    forall k
      ensures k in KernelAfter(map[a.key := {p}], ex, t) <==> k in map[a.key := {}, b.key := {p}]
      ensures k == a.key ==> KernelAfter(map[a.key := {p}], ex, t)[k] == {}
      ensures k == b.key ==> KernelAfter(map[a.key := {p}], ex, t)[k] == {p}
    {
      TheftAt(a, b, p, ex, t, k);
    }
  }

  lemma NotExisting(s: Store, touched: set<Email>, k: Key)
    requires k in s.peers ==> s.peers[k].email !in touched
    ensures k !in ExistingOf(s, touched)
  {
  }

  lemma TheftAt(a: PeerInfo, b: PeerInfo, p: Prefix, ex: map<Key, PeerInfo>, t: map<Key, PeerInfo>, k: Key)
    requires a.key != b.key && b.allowedIPs == [p] && ex == map[]
    requires forall k :: (k in t <==> k == b.key) && (k in t ==> t[k] == b)
    ensures var d := KernelAfter(map[a.key := {p}], ex, t);
            (k in d <==> k == a.key || k == b.key) && (k == a.key ==> d[k] == {}) && (k == b.key ==> d[k] == {p})
  {
    assert Configured(ex, t, b.key) && p in t[b.key].allowedIPs;
    assert Given(ex, t, p);
    assert Left(ex, t, {p}) == {};
  }

  /** Nor is that of FullAgreesIff: a kernel that lost its only peer stays without it when the full list
      asks for just what the store holds. */
  lemma DriftSurvives(c: Config, users: seq<User>, a: PeerInfo, p: Prefix)
    requires a.allowedIPs == [p] && WantedOf(c, users) == map[a.email := a] && !Rejected(c, users)
    ensures var n := Node(Store(map[a.key := a], map[a.email := a.key]), map[]);
            Sound(n) && FullStep(c, users, n, n) && !Agree(n)
  {
    hide WantedOf, Rejected;
    var n := Node(Store(map[a.key := a], map[a.email := a.key]), map[]);
    assert Inverse(n.store) && ByEmail(n.store) == map[a.email := a];
    assert a.key in KernelOf(n.store.peers);
  }

  /** And a resync with the prefixes the store has leaves a kicked peer out of the kernel. */
  lemma KickedStaysOut(c: Config, users: seq<User>, a: PeerInfo, p: Prefix)
    requires a.allowedIPs == [p] && Touched(users) == {a.email} && WantedOf(c, users) == map[a.email := a]
    requires !Rejected(c, users)
    ensures var n := Node(Store(map[a.key := a], map[a.email := a.key]), map[]);
            Sound(n) && PartialStep(c, users, n, n) && a.key in n.store.peers && a.key !in n.kernel
  {
    hide WantedOf, Touched, Rejected, KernelAfter, TargetOf, ExistingOf;
    var n := Node(Store(map[a.key := a], map[a.email := a.key]), map[]);
    var w := map[a.email := a];
    assert Inverse(n.store) && ByEmail(n.store) == w && WellDesired(w);
    assert Updated(w, {a.email}, w) == w;
    KernelStaysEmpty(a, p, n.store, w);
  }

  lemma KernelStaysEmpty(a: PeerInfo, p: Prefix, s: Store, w: map<Email, PeerInfo>)
    requires a.allowedIPs == [p] && s == Store(map[a.key := a], map[a.email := a.key])
    requires w == map[a.email := a] && WellDesired(w)
    ensures KernelAfter(map[], ExistingOf(s, {a.email}), TargetOf(w)) == map[]
  {
    hide KernelAfter, TargetOf, ExistingOf;
    ExistsInside(s, {a.email}, a.key);
    forall k
      ensures !Configured(ExistingOf(s, {a.email}), TargetOf(w), k)
    {
      InTarget(w, k);
    }
    NothingConfigured(ExistingOf(s, {a.email}), TargetOf(w));
  }

  lemma ExistsInside(s: Store, touched: set<Email>, k: Key)
    requires k in s.peers && s.peers[k].email in touched
    ensures k in ExistingOf(s, touched) && ExistingOf(s, touched)[k] == s.peers[k]
  {
  }

  lemma NothingConfigured(ex: map<Key, PeerInfo>, t: map<Key, PeerInfo>)
    requires forall k :: !Configured(ex, t, k)
    ensures KernelAfter(map[], ex, t) == map[]
  {
  }

  lemma LoneRequest(c: Config, b: PeerInfo, p: Prefix)
    requires b.allowedIPs == [p] && b.email != "" && b.key != "" && Allowed(p, c.pools)
    ensures var users := [User(b.email, [c.interfaceName], Some(WgProxy(b.key, true, [Some(p)])), 0, 0)];
            Touched(users) == {b.email} && WantedOf(c, users) == map[b.email := b] && !Rejected(c, users)
  {
    var u := User(b.email, [c.interfaceName], Some(WgProxy(b.key, true, [Some(p)])), 0, 0);
    var users := [u];
    assert users[..0] == [];
    assert LastByEmail(users) == map[b.email := u];
    var ips: seq<Option<Prefix>> := [Some(p)];
    assert ips[1..] == [];
    assert Scan(ips, c.pools) == [p];
    assert ClaimOf(c, u) == Claim(b.email, b.key, [p], true);
    forall x | x in Claims(c, LastByEmail(users))
      ensures x == ClaimOf(c, u)
    {
    }
  }

  // ---- Runs ----

  datatype Op =
    | Partial(users: seq<User>)          // SyncUser, UpdateUsers
    | Full(users: seq<User>)             // SyncUsers
    | PartialRestart(users: seq<User>)   // UpdateUsersAndRestart
    | Restart

  /** One successful API call. */
  ghost predicate Step(c: Config, op: Op, n: Node, n': Node)
    requires Inverse(n.store)
  {
    match op
    case Partial(users) => PartialStep(c, users, n, n')
    case Full(users) => FullStep(c, users, n, n')
    case PartialRestart(users) => exists m :: PartialStep(c, users, n, m) && RestartStep(m, n')
    case Restart => RestartStep(n, n')
  }

  /** The caller's part: what a partial request has to respect. */
  ghost predicate Respectful(c: Config, op: Op, n: Node) {
    (op.Partial? || op.PartialRestart?) ==> PrefixesFree(n.store, Touched(op.users), WantedOf(c, op.users))
  }

  /** The abstract effect of a call on the map from users to peers. */
  ghost function Effect(c: Config, op: Op, m: map<Email, PeerInfo>): map<Email, PeerInfo> {
    match op
    case Partial(users) => Updated(m, Touched(users), WantedOf(c, users))
    case Full(users) => WantedOf(c, users)
    case PartialRestart(users) => Updated(m, Touched(users), WantedOf(c, users))
    case Restart => m
  }

  ghost function Effects(c: Config, ops: seq<Op>, m: map<Email, PeerInfo>): map<Email, PeerInfo>
    decreases |ops|
  {
    if ops == [] then m else Effects(c, ops[1..], Effect(c, ops[0], m))
  }

  lemma PartialKeepsSound(c: Config, users: seq<User>, n: Node, n': Node)
    requires Sound(n) && PartialStep(c, users, n, n')
    ensures Sound(n')
  {
    var w := WantedOf(c, users);
    var t := TargetOf(w);
    forall e | e in w
      ensures t[w[e].key] == w[e]
    {
      InTarget(w, w[e].key);
    }
    forall k | k in t
      ensures t[k].key == k && t[k].email in w && w[t[k].email] == t[k]
    {
      InTarget(w, k);
    }
    TargetOfIndexes(t, w);
    KernelAfterExclusive(n.kernel, ExistingOf(n.store, Touched(users)), t);
  }

  lemma FullKeepsSound(c: Config, users: seq<User>, n: Node, n': Node)
    requires Sound(n) && FullStep(c, users, n, n')
    ensures Sound(n')
  {
    var w := WantedOf(c, users);
    if ByEmail(n.store) != w {
      TargetIsTable(n'.store, w);
      TargetOfIndexes(n'.store.peers, w) by {
        forall e | e in w
          ensures w[e].key in n'.store.peers && n'.store.peers[w[e].key] == w[e]
        {
          assert ByEmail(n'.store)[e] == w[e];
        }
        forall k | k in n'.store.peers
          ensures n'.store.peers[k].email in w && w[n'.store.peers[k].email] == n'.store.peers[k]
        {
          assert ByEmail(n'.store)[n'.store.peers[k].email] == n'.store.peers[k];
        }
      }
    }
  }

  lemma StepKeeps(c: Config, op: Op, n: Node, n': Node)
    requires Sound(n) && Step(c, op, n, n')
    ensures Sound(n') && ByEmail(n'.store) == Effect(c, op, ByEmail(n.store))
    ensures Agree(n) && Respectful(c, op, n) ==> Agree(n')
  {
    match op
    case Partial(users) =>
      PartialKeepsSound(c, users, n, n');
      if Agree(n) {
        PartialAgreesIff(c, users, n, n');
      }
    case Full(users) =>
      FullKeepsSound(c, users, n, n');
      FullAgreesIff(c, users, n, n');
    case PartialRestart(users) =>
      var m :| PartialStep(c, users, n, m) && RestartStep(m, n');
      PartialKeepsSound(c, users, n, m);
      RestartAgreesIff(m, n');
      if Agree(n) && Respectful(c, op, n) {
        PartialAgreesIff(c, users, n, m);
        AgreeingIsDisjoint(m);
      }
    case Restart =>
      RestartAgreesIff(n, n');
      if Agree(n) {
        AgreeingIsDisjoint(n);
      }
  }

  /** A run: the states between consecutive successful calls. */
  ghost predicate IsRun(c: Config, ops: seq<Op>, ns: seq<Node>) {
    && |ns| == |ops| + 1
    && Sound(ns[0])
    && forall i :: 0 <= i < |ops| ==> Inverse(ns[i].store) && Step(c, ops[i], ns[i], ns[i + 1])
  }

  /** Over every run of successful calls the store stays inverse and holds exactly what the calls asked
      for, and a run that starts in agreement and whose partial requests respect the untouched users'
      prefixes ends in agreement. */
  lemma {:induction false} RunKeepsAgreement(c: Config, ops: seq<Op>, ns: seq<Node>)
    requires IsRun(c, ops, ns)
    ensures Sound(ns[|ops|])
    ensures ByEmail(ns[|ops|].store) == Effects(c, ops, ByEmail(ns[0].store))
    ensures Agree(ns[0]) && (forall i :: 0 <= i < |ops| ==> Respectful(c, ops[i], ns[i])) ==> Agree(ns[|ops|])
    decreases |ops|
  {
    if ops != [] {
      StepKeeps(c, ops[0], ns[0], ns[1]);
      var rest := ns[1..];
      forall i | 0 <= i < |ops[1..]|
        ensures Inverse(rest[i].store) && Step(c, ops[1..][i], rest[i], rest[i + 1])
      {
        assert Inverse(ns[i + 1].store) && Step(c, ops[i + 1], ns[i + 1], ns[i + 2]);
      }
      RunKeepsAgreement(c, ops[1..], rest);
      if Agree(ns[0]) && forall i :: 0 <= i < |ops| ==> Respectful(c, ops[i], ns[i]) {
        assert Respectful(c, ops[0], ns[0]);
        forall i | 0 <= i < |ops[1..]|
          ensures Respectful(c, ops[1..][i], rest[i])
        {
          assert Respectful(c, ops[i + 1], ns[i + 1]);
        }
      }
    }
  }
}
