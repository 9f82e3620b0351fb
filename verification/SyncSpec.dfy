/** What a WireGuard user sync does to the peer store and the kernel, as values. The methods of module
    WireGuard are proved against these definitions; module SyncRuns draws the consequences. */
module SyncSpec {
  import opened Prefixes
  import opened PeerStore
  import opened Device
  import opened Desired

  /** The two copies of the peer set that a sync has to keep in step. */
  datatype Node = Node(store: Store, kernel: Kernel)

  /** A peer table as the kernel would hold it. */
  function KernelOf(peers: map<Key, PeerInfo>): Kernel {
    map k | k in peers :: SetOf(peers[k].allowedIPs)
  }

  /** Store and kernel agree on keys and allowed prefixes. */
  ghost predicate Agree(n: Node) {
    n.kernel == KernelOf(n.store.peers)
  }

  ghost predicate Keyed(peers: map<Key, PeerInfo>) {
    forall k :: k in peers ==> peers[k].key == k
  }

  /** No prefix is listed by two peers. */
  ghost predicate Disjoint(peers: map<Key, PeerInfo>) {
    forall k, l :: k in peers && l in peers && k != l ==> SetOf(peers[k].allowedIPs) !! SetOf(peers[l].allowedIPs)
  }

  /** The wanted peers indexed by key. */
  ghost function TargetOf(w: map<Email, PeerInfo>): map<Key, PeerInfo>
    requires WellDesired(w)
  {
    map e | e in w :: w[e].key := w[e]
  }

  lemma TargetOfIndexes(t: map<Key, PeerInfo>, w: map<Email, PeerInfo>)
    requires WellDesired(w) && Indexes(t, w)
    ensures t == TargetOf(w) && Keyed(t) && Disjoint(t)
    ensures forall k :: k in t ==> t[k].allowedIPs != []
  {
    assert t == TargetOf(w);
    forall k, l | k in t && l in t && k != l
      ensures SetOf(t[k].allowedIPs) !! SetOf(t[l].allowedIPs)
    {
      assert w[t[k].email] == t[k] && w[t[l].email] == t[l];
    }
  }

  // ---- The difference between a peer table and a target ----

  predicate Buildable(p: PeerInfo) {
    p.allowedIPs != []
  }

  /** The target peers that need a kernel configuration: new ones and ones whose prefixes change. */
  predicate Configured(existing: map<Key, PeerInfo>, target: map<Key, PeerInfo>, k: Key) {
    k in target && Buildable(target[k]) && (k in existing ==> existing[k].allowedIPs != target[k].allowedIPs)
  }

  /** The target peers the store has to write: the configured ones and the ones that change owner only. */
  predicate Upserted(existing: map<Key, PeerInfo>, target: map<Key, PeerInfo>, k: Key) {
    Configured(existing, target, k)
    || (k in target && k in existing && existing[k].allowedIPs == target[k].allowedIPs &&
        existing[k].email != target[k].email)
  }

  function SettingFor(existing: map<Key, PeerInfo>, p: PeerInfo): PeerConfig {
    PeerConfig(p.key, false, p.key in existing, p.allowedIPs)
  }

  function RemovalOf(k: Key): PeerConfig {
    PeerConfig(k, true, false, [])
  }

  /** The settings of a diff: each configured key once, in some order. */
  ghost predicate SettingsOf(existing: map<Key, PeerInfo>, target: map<Key, PeerInfo>, cs: seq<PeerConfig>) {
    && (forall i, j :: 0 <= i < j < |cs| ==> cs[i].key != cs[j].key)
    && (forall c :: c in cs ==> Configured(existing, target, c.key) && c == SettingFor(existing, target[c.key]))
    && (forall k :: Configured(existing, target, k) ==> SettingFor(existing, target[k]) in cs)
  }

  ghost predicate UpsertsOf(existing: map<Key, PeerInfo>, target: map<Key, PeerInfo>, ps: seq<PeerInfo>) {
    && (forall i, j :: 0 <= i < j < |ps| ==> ps[i].key != ps[j].key)
    && (forall p :: p in ps <==> p.key in target && target[p.key] == p && Upserted(existing, target, p.key))
  }

  ghost predicate RemovalsOf(existing: map<Key, PeerInfo>, target: map<Key, PeerInfo>, keys: seq<Key>) {
    forall k :: k in keys <==> k in existing && k !in target
  }

  function Removals(keys: seq<Key>): seq<PeerConfig> {
    seq(|keys|, i requires 0 <= i < |keys| => RemovalOf(keys[i]))
  }

  ghost predicate Given(existing: map<Key, PeerInfo>, target: map<Key, PeerInfo>, p: Prefix) {
    exists k :: Configured(existing, target, k) && p in target[k].allowedIPs
  }

  /** The prefixes a peer keeps when the diff's settings hand out theirs. */
  ghost function Left(existing: map<Key, PeerInfo>, target: map<Key, PeerInfo>, ips: set<Prefix>): set<Prefix> {
    set p | p in ips && !Given(existing, target, p)
  }

  /** The kernel after the diff is applied, whatever order its settings come in: configured peers hold
      what the target says, dropped peers are gone, and everyone else keeps what was not given away. */
  ghost function KernelAfter(d: Kernel, existing: map<Key, PeerInfo>, target: map<Key, PeerInfo>): Kernel {
    map k | k in d.Keys + target.Keys
        && (Configured(existing, target, k) || (k in d && (k in existing ==> k in target))) ::
      if Configured(existing, target, k)
      then (if k in existing || k !in d then {} else Left(existing, target, d[k])) + SetOf(target[k].allowedIPs)
      else Left(existing, target, d[k])
  }

  lemma DiffSettings(existing: map<Key, PeerInfo>, target: map<Key, PeerInfo>, cs: seq<PeerConfig>)
    requires Keyed(target) && Disjoint(target) && SettingsOf(existing, target, cs)
    ensures Settings(cs)
    ensures forall p :: p in Assigned(cs) <==> Given(existing, target, p)
  {
    forall i, j | 0 <= i < j < |cs|
      ensures SetOf(cs[i].allowedIPs) !! SetOf(cs[j].allowedIPs)
    {
      assert cs[i] in cs && cs[j] in cs;
    }
    forall p
      ensures p in Assigned(cs) <==> Given(existing, target, p)
    {
      InAssigned(cs, p);
      if Given(existing, target, p) {
        var k :| Configured(existing, target, k) && p in target[k].allowedIPs;
        assert SettingFor(existing, target[k]) in cs;
      }
    }
  }

  lemma RemovalKeys(rm: seq<Key>)
    ensures (set c | c in Removals(rm) :: c.key) == (set k | k in rm)
    ensures forall c :: c in Removals(rm) ==> c.remove
  {
    forall k | k in rm
      ensures RemovalOf(k) in Removals(rm)
    {
      var i :| 0 <= i < |rm| && rm[i] == k;
      assert Removals(rm)[i] == RemovalOf(k);
    }
  }

  lemma ConfiguredKey(d: Kernel, existing: map<Key, PeerInfo>, target: map<Key, PeerInfo>, cs: seq<PeerConfig>, k: Key)
    requires Keyed(target) && Disjoint(target) && SettingsOf(existing, target, cs) && Configured(existing, target, k)
    ensures k in ApplyAll(d, cs)
    ensures ApplyAll(d, cs)[k] ==
            (if k in existing || k !in d then {} else Left(existing, target, d[k])) + SetOf(target[k].allowedIPs)
  {
    DiffSettings(existing, target, cs);
    var c := SettingFor(existing, target[k]);
    SetPeer(d, cs, c);
    if k !in existing && k in d {
      assert Had(d, c) - Assigned(cs) == Left(existing, target, d[k]);
    }
  }

  lemma UnconfiguredKey(d: Kernel, existing: map<Key, PeerInfo>, target: map<Key, PeerInfo>, cs: seq<PeerConfig>,
                        k: Key)
    requires Keyed(target) && Disjoint(target) && SettingsOf(existing, target, cs) && !Configured(existing, target, k)
    ensures k in ApplyAll(d, cs) <==> k in d
    ensures k in d ==> ApplyAll(d, cs)[k] == Left(existing, target, d[k])
  {
    DiffSettings(existing, target, cs);
    UnsetPeer(d, cs, k);
    if k in d {
      assert d[k] - Assigned(cs) == Left(existing, target, d[k]);
    }
  }

  lemma DiffKernelAt(d: Kernel, existing: map<Key, PeerInfo>, target: map<Key, PeerInfo>, cs: seq<PeerConfig>, k: Key)
    requires Keyed(target) && Disjoint(target) && SettingsOf(existing, target, cs)
    ensures k in KernelAfter(d, existing, target) <==> k in ApplyAll(d, cs) && (k in existing ==> k in target)
    ensures k in KernelAfter(d, existing, target) ==> KernelAfter(d, existing, target)[k] == ApplyAll(d, cs)[k]
  {
    if Configured(existing, target, k) {
      ConfiguredKey(d, existing, target, cs, k);
    } else {
      UnconfiguredKey(d, existing, target, cs, k);
    }
  }

  lemma DiffKernel(d: Kernel, existing: map<Key, PeerInfo>, target: map<Key, PeerInfo>, cs: seq<PeerConfig>,
                   rm: seq<Key>)
    requires Keyed(target) && Disjoint(target)
    requires SettingsOf(existing, target, cs) && RemovalsOf(existing, target, rm)
    ensures ApplyAll(d, cs + Removals(rm)) == KernelAfter(d, existing, target)
  {
    ApplyAllAppend(d, cs, Removals(rm));
    RemovalKeys(rm);
    RemovalsOnly(ApplyAll(d, cs), Removals(rm));
    WithoutRemoved(ApplyAll(d, cs), KernelAfter(d, existing, target), existing, target, rm) by {
      forall k
        ensures k in KernelAfter(d, existing, target) <==> k in ApplyAll(d, cs) && (k in existing ==> k in target)
        ensures k in KernelAfter(d, existing, target) ==> KernelAfter(d, existing, target)[k] == ApplyAll(d, cs)[k]
      {
        DiffKernelAt(d, existing, target, cs, k);
      }
    }
  }

  lemma WithoutRemoved(d1: Kernel, want: Kernel, existing: map<Key, PeerInfo>, target: map<Key, PeerInfo>, rm: seq<Key>)
    requires RemovalsOf(existing, target, rm)
    requires forall k :: k in want <==> k in d1 && (k in existing ==> k in target)
    requires forall k :: k in want ==> want[k] == d1[k]
    ensures d1 - (set k | k in rm) == want
  {
  }

  // ---- The three kinds of sync ----

  /** The users a request speaks for: those with a usable entry. */
  ghost function Touched(users: seq<User>): set<Email> {
    LastByEmail(users).Keys
  }

  ghost function WantedOf(c: Config, users: seq<User>): map<Email, PeerInfo> {
    Wanted(c, LastByEmail(users))
  }

  ghost predicate Rejected(c: Config, users: seq<User>) {
    Conflicted(c, LastByEmail(users))
  }

  /** A wanted key belongs to a user the request does not speak for. */
  ghost predicate KeyTaken(c: Config, users: seq<User>, s: Store) {
    exists e :: e in WantedOf(c, users) && WantedOf(c, users)[e].key in s.peers
                && s.peers[WantedOf(c, users)[e].key].email !in Touched(users)
  }

  /** The stored peers of the users a request speaks for. */
  ghost function ExistingOf(s: Store, touched: set<Email>): map<Key, PeerInfo> {
    map k | k in s.peers && s.peers[k].email in touched :: s.peers[k]
  }

  /** The abstract update: each touched user gets its wanted peer or none, the others keep theirs. */
  ghost function Updated(m: map<Email, PeerInfo>, touched: set<Email>, w: map<Email, PeerInfo>): map<Email, PeerInfo> {
    (m - touched) + w
  }

  /** A successful partial reconcile. */
  ghost predicate PartialStep(c: Config, users: seq<User>, n: Node, n': Node)
    requires Inverse(n.store)
  {
    && !Rejected(c, users) && !KeyTaken(c, users, n.store)
    && WellDesired(WantedOf(c, users))
    && Inverse(n'.store)
    && ByEmail(n'.store) == Updated(ByEmail(n.store), Touched(users), WantedOf(c, users))
    && n'.kernel == KernelAfter(n.kernel, ExistingOf(n.store, Touched(users)), TargetOf(WantedOf(c, users)))
  }

  /** A successful full sync. It leaves the kernel alone when the store already holds the wanted peers. */
  ghost predicate FullStep(c: Config, users: seq<User>, n: Node, n': Node)
    requires Inverse(n.store)
  {
    && !Rejected(c, users)
    && WellDesired(WantedOf(c, users))
    && Inverse(n'.store)
    && ByEmail(n'.store) == WantedOf(c, users)
    && n'.kernel == (if ByEmail(n.store) == WantedOf(c, users) then n.kernel
                     else KernelOf(TargetOf(WantedOf(c, users))))
  }

  /** One add per peer of a table, in some order. */
  ghost predicate AddsOf(peers: map<Key, PeerInfo>, cs: seq<PeerConfig>) {
    && (forall i, j :: 0 <= i < j < |cs| ==> cs[i].key != cs[j].key)
    && (forall c :: c in cs <==> c.key in peers && c == PeerConfig(c.key, false, false, peers[c.key].allowedIPs))
  }

  /** A successful restart: the kernel is rebuilt from the stored peers. */
  ghost predicate RestartStep(n: Node, n': Node) {
    n'.store == n.store && exists cs :: AddsOf(n.store.peers, cs) && n'.kernel == ApplyAll(map[], cs)
  }

  /** Rebuilding a kernel from a disjoint table yields that table. */
  lemma AddsBuild(peers: map<Key, PeerInfo>, cs: seq<PeerConfig>)
    requires Disjoint(peers) && AddsOf(peers, cs)
    ensures ApplyAll(map[], cs) == KernelOf(peers)
  {
    forall i, j | 0 <= i < j < |cs|
      ensures SetOf(cs[i].allowedIPs) !! SetOf(cs[j].allowedIPs)
    {
      assert cs[i] in cs && cs[j] in cs;
    }
    assert forall i :: 0 <= i < |cs| ==> cs[i] in cs;
    forall k
      ensures k in ApplyAll(map[], cs) <==> k in peers
      ensures k in peers ==> ApplyAll(map[], cs)[k] == SetOf(peers[k].allowedIPs)
    {
      if k in peers {
        SetPeer(map[], cs, PeerConfig(k, false, false, peers[k].allowedIPs));
      } else {
        UnsetPeer(map[], cs, k);
      }
    }
  }

  ghost predicate Restricts(ex: map<Key, PeerInfo>, s: Store, touched: set<Email>) {
    && (forall k :: k in ex ==> k in s.peers && s.peers[k] == ex[k] && ex[k].email in touched)
    && (forall k :: k in s.peers && s.peers[k].email in touched ==> k in ex)
  }

  /** Which peers a partial diff leaves in the store, one peer at a time. */
  lemma PartialPeer(s: Store, touched: set<Email>, w: map<Email, PeerInfo>, ex: map<Key, PeerInfo>,
                    t: map<Key, PeerInfo>, rm: seq<Key>, ups: seq<PeerInfo>, p: PeerInfo)
    requires Inverse(s) && WellDesired(w) && w.Keys <= touched
    requires Restricts(ex, s, touched) && Indexes(t, w)
    requires forall k :: k in t && k in s.peers ==> k in ex
    requires RemovalsOf(ex, t, rm) && UpsertsOf(ex, t, ups)
    ensures p in ups || (Has(s, p) && p.key !in rm && Survives(p, ups)) <==>
            (p.email in w && w[p.email] == p) || (Has(s, p) && p.email !in touched)
  {
    if p.email in w && w[p.email] == p {
      assert t[p.key] == p;
      WantedStays(s, w, ex, t, ups, p);
    } else if Has(s, p) && p.email !in touched {
      assert p.key !in ex;
    } else if Has(s, p) {
      assert p.key in ex && ex[p.key] == p;
      if p.key in t {
        assert t[p.key] != p;
        assert t[p.key] in ups;
      }
    }
  }

  lemma WantedStays(s: Store, w: map<Email, PeerInfo>, ex: map<Key, PeerInfo>, t: map<Key, PeerInfo>,
                    ups: seq<PeerInfo>, p: PeerInfo)
    requires WellDesired(w) && Indexes(t, w)
    requires p.key in t && t[p.key] == p && UpsertsOf(ex, t, ups)
    requires forall k :: k in ex ==> ex[k].key == k && k in s.peers && s.peers[k] == ex[k]
    ensures p in ups || (Has(s, p) && Survives(p, ups))
  {
    if p !in ups {
      assert Buildable(p);
      assert p.key in ex && ex[p.key] == p;
    }
  }

  /** The change list of a partial diff turns the store into the abstract update of its view by email. */
  lemma PartialStore(s: Store, touched: set<Email>, w: map<Email, PeerInfo>, ex: map<Key, PeerInfo>,
                     t: map<Key, PeerInfo>, rm: seq<Key>, ups: seq<PeerInfo>)
    requires Inverse(s) && WellDesired(w) && w.Keys <= touched
    requires Restricts(ex, s, touched) && Indexes(t, w)
    requires forall k :: k in t && k in s.peers ==> k in ex
    requires RemovalsOf(ex, t, rm) && UpsertsOf(ex, t, ups)
    ensures OneToOne(ups) && Inverse(Changed(s, rm, ups))
    ensures ByEmail(Changed(s, rm, ups)) == Updated(ByEmail(s), touched, w)
  {
    forall i, j | 0 <= i < j < |ups|
      ensures ups[i].email != ups[j].email
    {
      assert ups[i] in ups && ups[j] in ups;
    }
    ChangedKeepsInverse(s, rm, ups);
    var r := Changed(s, rm, ups);
    forall p
      ensures Has(r, p) <==> (p.email in w && w[p.email] == p) || (Has(s, p) && p.email !in touched)
    {
      ChangedClosed(s, rm, ups, p);
      PartialPeer(s, touched, w, ex, t, rm, ups, p);
    }
    UpdatedByEmail(s, touched, w, r);
  }

  lemma UpdatedByEmail(s: Store, touched: set<Email>, w: map<Email, PeerInfo>, r: Store)
    requires Inverse(s) && Inverse(r) && WellDesired(w)
    requires forall p :: Has(r, p) <==> (p.email in w && w[p.email] == p) || (Has(s, p) && p.email !in touched)
    ensures ByEmail(r) == Updated(ByEmail(s), touched, w)
  {
    var m := Updated(ByEmail(s), touched, w);
    forall e
      ensures e in ByEmail(r) <==> e in m
      ensures e in ByEmail(r) ==> ByEmail(r)[e] == m[e]
    {
      if e in ByEmail(r) {
        assert Has(r, ByEmail(r)[e]);
      }
      if e in m {
        assert Has(r, m[e]);
      }
    }
  }
}
