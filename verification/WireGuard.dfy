/** The WireGuard backend's user syncs: backend/wireguard/user_partial_sync.go, user_full_sync.go, the
    diff and config builders of user_common.go, and startup and restart in wireguard.go. Map iteration
    and the sorting of key lists are left as an arbitrary order, so the contracts hold for every order. */
module WireGuard {
  import opened PeerStore
  import opened Device
  import opened Desired
  import opened SyncSpec
  import opened Wrappers
  import Tracker

  datatype Outcome = Done | ConflictingRequest | KeyOwnedElsewhere | NotReady | KernelFailed | BadPeer

  method BuildSyncDiff(existing: map<Key, PeerInfo>, desired: map<Key, PeerInfo>)
    returns (removeKeys: seq<Key>, upserts: seq<PeerInfo>, configs: seq<PeerConfig>, changed: bool,
             ghost settings: seq<PeerConfig>)
    requires Keyed(desired)
    ensures RemovalsOf(existing, desired, removeKeys)
    ensures UpsertsOf(existing, desired, upserts)
    ensures SettingsOf(existing, desired, settings) && configs == settings + Removals(removeKeys)
    ensures changed <==> removeKeys != [] || upserts != []
  {
    var removeSet, upsertByKey, peerConfigs := DiffExisting(existing, desired);
    upsertByKey, peerConfigs := DiffNew(existing, desired, upsertByKey, peerConfigs);
    settings := peerConfigs;
    var removeConfigs;
    removeKeys, removeConfigs := BuildRemoveConfigs(removeSet);
    configs := peerConfigs + removeConfigs;
    upserts := ListUpserts(upsertByKey, existing, desired);
    changed := |removeKeys| > 0 || |upserts| > 0;
  }

  /** Set bookkeeping for a loop that considers the keys of a map one at a time. */
  lemma TakeOne(all: set<Key>, todo: set<Key>, other: set<Key>, key: Key)
    requires key in todo && todo <= all
    ensures (all - todo) + {key} == all - (todo - {key})
    ensures (all - todo) + {key} - other == (all - todo - other) + if key in other then {} else {key}
  {
  }

  /** The first loop of buildSyncDiff: what becomes of each existing peer. */
  method DiffExisting(existing: map<Key, PeerInfo>, desired: map<Key, PeerInfo>)
    returns (removeSet: set<Key>, upsertByKey: map<Key, PeerInfo>, configs: seq<PeerConfig>)
    requires Keyed(desired)
    ensures removeSet == existing.Keys - desired.Keys
    ensures UpsertedAmong(existing, desired, existing.Keys, upsertByKey)
    ensures SettingsAmong(existing, desired, existing.Keys, configs)
  {
    hide UpsertedAmong, SettingsAmong, Upserted, Configured;
    removeSet, upsertByKey, configs := {}, map[], [];
    var todo := existing.Keys;
    assert existing.Keys - todo == {};
    AmongNothing(existing, desired);
    while todo != {}
      invariant todo <= existing.Keys
      invariant removeSet == existing.Keys - todo - desired.Keys
      invariant UpsertedAmong(existing, desired, existing.Keys - todo, upsertByKey)
      invariant SettingsAmong(existing, desired, existing.Keys - todo, configs)
      decreases |todo|
    {
      var key :| key in todo;
      AmongStep(existing, desired, existing.Keys - todo, upsertByKey, configs, key);
      TakeOne(existing.Keys, todo, desired.Keys, key);
      todo := todo - {key};
      removeSet, upsertByKey, configs := DiffExistingPeer(existing, desired, key, removeSet, upsertByKey, configs);
    }
    assert existing.Keys - todo == existing.Keys;
  }

  /** The body of that loop. */
  method DiffExistingPeer(existing: map<Key, PeerInfo>, desired: map<Key, PeerInfo>, key: Key, removes0: set<Key>,
                          upserts0: map<Key, PeerInfo>, configs0: seq<PeerConfig>)
    returns (removeSet: set<Key>, upsertByKey: map<Key, PeerInfo>, configs: seq<PeerConfig>)
    requires key in existing && (key in desired ==> desired[key].key == key)
    ensures removeSet == removes0 + if key in desired then {} else {key}
    ensures upsertByKey == if Upserted(existing, desired, key) then upserts0[key := desired[key]] else upserts0
    ensures configs == if Configured(existing, desired, key) then configs0 + [SettingFor(existing, desired[key])]
              else configs0
  {
    removeSet, upsertByKey, configs := removes0, upserts0, configs0;
    if key !in desired {
      removeSet := removeSet + {key};
      return;
    }
    var target := desired[key];
    var ipnetsEqual := existing[key].allowedIPs == target.allowedIPs;
    if existing[key].email != target.email || !ipnetsEqual {
      if !ipnetsEqual {
        if |target.allowedIPs| == 0 {
          return;
        }
        configs := configs + [PeerConfig(target.key, false, true, target.allowedIPs)];
      }
      upsertByKey := upsertByKey[key := target];
    }
  }

  /** The second loop: the target peers that do not exist yet. */
  method DiffNew(existing: map<Key, PeerInfo>, desired: map<Key, PeerInfo>, upserts0: map<Key, PeerInfo>,
                 configs0: seq<PeerConfig>)
    returns (upsertByKey: map<Key, PeerInfo>, configs: seq<PeerConfig>)
    requires Keyed(desired)
    requires UpsertedAmong(existing, desired, existing.Keys, upserts0)
    requires SettingsAmong(existing, desired, existing.Keys, configs0)
    ensures UpsertedAmong(existing, desired, existing.Keys + desired.Keys, upsertByKey)
    ensures SettingsAmong(existing, desired, existing.Keys + desired.Keys, configs)
  {
    hide UpsertedAmong, SettingsAmong, Upserted, Configured;
    upsertByKey, configs := upserts0, configs0;
    var todo := desired.Keys;
    EdgeSets(existing.Keys, desired.Keys);
    while todo != {}
      invariant todo <= desired.Keys
      invariant UpsertedAmong(existing, desired, existing.Keys + (desired.Keys - todo), upsertByKey)
      invariant SettingsAmong(existing, desired, existing.Keys + (desired.Keys - todo), configs)
      decreases |todo|
    {
      var key :| key in todo;
      AmongNew(existing, desired, todo, upsertByKey, configs, key);
      todo := todo - {key};
      upsertByKey, configs := DiffNewPeer(existing, desired, key, upsertByKey, configs);
    }
  }

  lemma EdgeSets(before: set<Key>, all: set<Key>)
    ensures before + (all - all) == before && before + (all - {}) == before + all
  {
  }

  lemma ConsiderOne(before: set<Key>, all: set<Key>, todo: set<Key>, key: Key)
    requires key in todo && todo <= all
    ensures before + (all - todo) + {key} == before + (all - (todo - {key}))
    ensures key in before + (all - todo) <==> key in before
  {
  }

  lemma AmongNew(existing: map<Key, PeerInfo>, desired: map<Key, PeerInfo>, todo: set<Key>, m: map<Key, PeerInfo>,
                 cs: seq<PeerConfig>, key: Key)
    requires Keyed(desired) && key in todo && todo <= desired.Keys
    requires UpsertedAmong(existing, desired, existing.Keys + (desired.Keys - todo), m)
    requires SettingsAmong(existing, desired, existing.Keys + (desired.Keys - todo), cs)
    ensures UpsertedAmong(existing, desired, existing.Keys + (desired.Keys - (todo - {key})),
                          if key !in existing && Upserted(existing, desired, key) then m[key := desired[key]] else m)
    ensures SettingsAmong(existing, desired, existing.Keys + (desired.Keys - (todo - {key})),
                          if key !in existing && Configured(existing, desired, key)
                              then cs + [SettingFor(existing, desired[key])] else cs)
  {
    hide UpsertedAmong, SettingsAmong, Upserted, Configured, Keyed, SettingFor;
    ConsiderOne(existing.Keys, desired.Keys, todo, key);
    AmongStep(existing, desired, existing.Keys + (desired.Keys - todo), m, cs, key);
  }

  /** The body of that loop. */
  method DiffNewPeer(existing: map<Key, PeerInfo>, desired: map<Key, PeerInfo>, key: Key, upserts0: map<Key, PeerInfo>,
                     configs0: seq<PeerConfig>)
    returns (upsertByKey: map<Key, PeerInfo>, configs: seq<PeerConfig>)
    requires key in desired && desired[key].key == key
    ensures upsertByKey ==
              if key !in existing && Upserted(existing, desired, key) then upserts0[key := desired[key]] else upserts0
    ensures configs == if key !in existing && Configured(existing, desired, key)
                       then configs0 + [SettingFor(existing, desired[key])] else configs0
  {
    upsertByKey, configs := upserts0, configs0;
    if key !in existing {
      var target := desired[key];
      if |target.allowedIPs| == 0 {
        return;
      }
      upsertByKey := upsertByKey[key := target];
      configs := configs + [PeerConfig(target.key, false, false, target.allowedIPs)];
    }
  }

  /** The upserts of a diff restricted to some keys. */
  ghost predicate UpsertedAmong(existing: map<Key, PeerInfo>, target: map<Key, PeerInfo>, keys: set<Key>,
                                m: map<Key, PeerInfo>) {
    && (forall k :: k in m <==> k in keys && Upserted(existing, target, k))
    && (forall k :: k in m ==> k in target && m[k] == target[k])
  }

  /** The settings of a diff restricted to some keys. */
  ghost predicate SettingsAmong(existing: map<Key, PeerInfo>, target: map<Key, PeerInfo>, keys: set<Key>,
                                cs: seq<PeerConfig>) {
    && (forall i, j :: 0 <= i < j < |cs| ==> cs[i].key != cs[j].key)
    && (forall c :: c in cs ==> c.key in keys && Configured(existing, target, c.key)
                                && c == SettingFor(existing, target[c.key]))
    && (forall k :: k in keys && Configured(existing, target, k) ==> SettingFor(existing, target[k]) in cs)
  }

  lemma AmongNothing(existing: map<Key, PeerInfo>, target: map<Key, PeerInfo>)
    ensures UpsertedAmong(existing, target, {}, map[]) && SettingsAmong(existing, target, {}, [])
  {
  }

  /** One more key considered. A key considered twice is a key that exists, and changes nothing. */
  lemma AmongStep(existing: map<Key, PeerInfo>, target: map<Key, PeerInfo>, keys: set<Key>, m: map<Key, PeerInfo>,
                  cs: seq<PeerConfig>, key: Key)
    requires Keyed(target) && UpsertedAmong(existing, target, keys, m) && SettingsAmong(existing, target, keys, cs)
    ensures key in keys ==> keys + {key} == keys
    ensures key !in keys ==> UpsertedAmong(existing, target, keys + {key},
                                           if Upserted(existing, target, key) then m[key := target[key]] else m)
    ensures key !in keys ==> SettingsAmong(existing, target, keys + {key},
                                           if Configured(existing, target, key)
                                               then cs + [SettingFor(existing, target[key])] else cs)
  {
    if key in keys {
      assert keys + {key} == keys;
    } else {
      AmongUpserts(existing, target, keys, m, key);
      AmongSettings(existing, target, keys, cs, key);
    }
  }

  lemma AmongUpserts(existing: map<Key, PeerInfo>, target: map<Key, PeerInfo>, keys: set<Key>, m: map<Key, PeerInfo>,
                     key: Key)
    requires UpsertedAmong(existing, target, keys, m) && key !in keys
    ensures UpsertedAmong(existing, target, keys + {key},
              if Upserted(existing, target, key) then m[key := target[key]] else m)
  {
  }

  lemma AmongSettings(existing: map<Key, PeerInfo>, target: map<Key, PeerInfo>, keys: set<Key>, cs: seq<PeerConfig>,
                      key: Key)
    requires Keyed(target) && SettingsAmong(existing, target, keys, cs) && key !in keys
    ensures SettingsAmong(existing, target, keys + {key},
                          if Configured(existing, target, key) then cs + [SettingFor(existing, target[key])] else cs)
  {
    if Configured(existing, target, key) {
      var c := SettingFor(existing, target[key]);
      assert forall x :: x in cs + [c] <==> x in cs || x == c;
      forall i | 0 <= i < |cs|
        ensures cs[i].key != c.key
      {
        assert cs[i] in cs;
      }
    }
  }

  method BuildRemoveConfigs(removeSet: set<Key>) returns (removeKeys: seq<Key>, configs: seq<PeerConfig>)
    ensures forall k :: k in removeKeys <==> k in removeSet
    ensures forall i, j :: 0 <= i < j < |removeKeys| ==> removeKeys[i] != removeKeys[j]
    ensures configs == Removals(removeKeys)
  {
    removeKeys, configs := [], [];
    var todo := removeSet;
    while todo != {}
      invariant todo <= removeSet
      invariant forall k :: k in removeKeys <==> k in removeSet && k !in todo
      invariant forall i, j :: 0 <= i < j < |removeKeys| ==> removeKeys[i] != removeKeys[j]
      invariant configs == Removals(removeKeys)
      decreases |todo|
    {
      var key :| key in todo;
      assert key !in removeKeys;
      todo := todo - {key};
      configs := configs + [PeerConfig(key, true, false, [])];
      removeKeys := removeKeys + [key];
    }
  }

  method ListUpserts(upsertByKey: map<Key, PeerInfo>, ghost existing: map<Key, PeerInfo>,
                     ghost desired: map<Key, PeerInfo>)
    returns (upserts: seq<PeerInfo>)
    requires Keyed(desired)
    requires forall k :: k in upsertByKey <==> Upserted(existing, desired, k)
    requires forall k :: k in upsertByKey ==> k in desired && upsertByKey[k] == desired[k]
    ensures UpsertsOf(existing, desired, upserts)
  {
    upserts := [];
    var todo := upsertByKey.Keys;
    while todo != {}
      invariant todo <= upsertByKey.Keys
      invariant forall i, j :: 0 <= i < j < |upserts| ==> upserts[i].key != upserts[j].key
      invariant forall p :: p in upserts <==> p.key in upsertByKey && upsertByKey[p.key] == p && p.key !in todo
      decreases |todo|
    {
      var key :| key in todo;
      todo := todo - {key};
      upserts := upserts + [upsertByKey[key]];
    }
  }

  /** The diff of a partial reconcile, with what it will do to the store and the kernel. */
  method PlanPartial(existing: map<Key, PeerInfo>, target: map<Key, PeerInfo>, ghost n: Node, ghost touched: set<Email>,
                     ghost w: map<Email, PeerInfo>)
    returns (removeKeys: seq<Key>, upserts: seq<PeerInfo>, configs: seq<PeerConfig>)
    requires Inverse(n.store) && WellTarget(target, w) && w.Keys <= touched
    requires Restricts(existing, n.store, touched)
    requires forall k :: k in target && k in n.store.peers ==> n.store.peers[k].email in touched
    ensures ApplyAll(n.kernel, configs) == KernelAfter(n.kernel, existing, target)
    ensures Inverse(Changed(n.store, removeKeys, upserts))
    ensures ByEmail(Changed(n.store, removeKeys, upserts)) == Updated(ByEmail(n.store), touched, w)
    ensures forall k :: k in removeKeys && k in n.store.peers <==>
                        k in n.store.peers && k !in Changed(n.store, removeKeys, upserts).peers
  {
    hide WellDesired, Indexes, Disjoint, Keyed, Inverse, ByEmail, UpsertsOf, RemovalsOf, SettingsOf, Changed, ApplyAll;
    var changed;
    ghost var settings;
    removeKeys, upserts, configs, changed, settings := BuildSyncDiff(existing, target);
    DiffKernel(n.kernel, existing, target, settings, removeKeys);
    PartialStore(n.store, touched, w, existing, target, removeKeys, upserts);
    RemovedKeys(n.store, touched, w, existing, target, removeKeys, Changed(n.store, removeKeys, upserts));
  }

  /** The diff of a full sync: whether there is anything to do, and the lists if there is. */
  method PlanFull(existing: map<Key, PeerInfo>, target: map<Key, PeerInfo>, ghost s: Store,
                  ghost w: map<Email, PeerInfo>)
    returns (changed: bool, upserts: seq<PeerInfo>, adds: seq<PeerConfig>, valid: seq<PeerInfo>)
    requires Inverse(s) && WellTarget(target, w) && existing == s.peers
    ensures changed <==> ByEmail(s) != w
    ensures ApplyAll(map[], adds) == KernelOf(target)
    ensures Builds(valid, target, w)
    ensures s == EMPTY ==> Builds(upserts, target, w)
  {
    hide WellDesired, Indexes, Inverse, ByEmail, UpsertsOf, RemovalsOf, SettingsOf, AddsOf, Builds;
    var removeKeys, configs, bad;
    ghost var settings;
    removeKeys, upserts, configs, changed, settings := BuildSyncDiff(existing, target);
    UnchangedMeansEqual(s, w, target, removeKeys, upserts);
    if s == EMPTY {
      StartupStore(target, w, upserts);
    }
    adds, bad := BuildAdds(target);
    assert (map k | k in target && Buildable(target[k]) :: target[k]) == target;
    AddsBuild(target, adds);
    valid := ListPeers(target, w);
  }

  /** A peer list that, written to an empty store, gives the wanted peers. */
  ghost predicate Builds(ps: seq<PeerInfo>, target: map<Key, PeerInfo>, w: map<Email, PeerInfo>) {
    Inverse(PutAll(EMPTY, ps)) && ByEmail(PutAll(EMPTY, ps)) == w && PutAll(EMPTY, ps).peers == target
  }

  /** buildTargetPeerConfigs and buildPeerConfigsForRestart: one add per peer. A peer without prefixes is
      skipped by the first and refused by the second; bad reports it. */
  method BuildAdds(peers: map<Key, PeerInfo>) returns (configs: seq<PeerConfig>, bad: bool)
    requires Keyed(peers)
    ensures bad <==> exists k :: k in peers && !Buildable(peers[k])
    ensures AddsOf(map k | k in peers && Buildable(peers[k]) :: peers[k], configs)
  {
    configs, bad := [], false;
    var todo := peers.Keys;
    while todo != {}
      invariant todo <= peers.Keys
      invariant bad <==> exists k :: k in peers && k !in todo && !Buildable(peers[k])
      invariant forall i, j :: 0 <= i < j < |configs| ==> configs[i].key != configs[j].key
      invariant forall c :: c in configs <==>
          c.key in peers && c.key !in todo && Buildable(peers[c.key])
              && c == PeerConfig(c.key, false, false, peers[c.key].allowedIPs)
      decreases |todo|
    {
      var key :| key in todo;
      todo := todo - {key};
      if |peers[key].allowedIPs| == 0 {
        bad := true;
        continue;
      }
      configs := configs + [PeerConfig(peers[key].key, false, false, peers[key].allowedIPs)];
    }
  }

  class WireGuard {
    const config: Config
    const peerStore: PeerStore
    const manager: Manager
    const statsTracker: Tracker.Tracker
    var running: bool
    var hasManager: bool

    ghost function View(): Node
      reads peerStore, manager
    {
      Node(peerStore.View(), manager.peers)
    }

    ghost predicate Valid()
      reads peerStore
    {
      peerStore.Valid()
    }

    constructor (config: Config)
      ensures this.config == config && !running
      ensures fresh(peerStore) && fresh(manager) && fresh(statsTracker)
      ensures View() == Node(EMPTY, map[]) && Valid()
    {
      this.config := config;
      peerStore := new PeerStore();
      manager := new Manager();
      statsTracker := new Tracker.Tracker();
      running, hasManager := false, false;
    }

    /** Startup: the first user list goes to a new interface and an empty store. */
    method Start(users: seq<User>, failsAt: Option<nat>)
      requires !running && View() == Node(EMPTY, map[])
      modifies this, peerStore, manager
      ensures running <==> !Rejected(config, users) && failsAt.None?
      ensures running ==> Valid() && ByEmail(peerStore.View()) == WantedOf(config, users) && Agree(View())
    {
      hide WellTarget, Inverse, ByEmail, KernelOf, ApplyAll, PutAll, WantedOf, Rejected, Touched;
      var desired, touched := Prepare(users);
      if desired.None? {
        return;
      }
      EmptyStore();
      var changed, upserts, adds, valid := PlanFull(map[], desired.value, EMPTY, WantedOf(config, users));
      var ok := manager.ApplyPeersReplaceAll(adds, failsAt);
      if !ok {
        return;
      }
      peerStore.Init(upserts);
      running, hasManager := true, true;
    }

    /** The steps every sync begins with: normalise, note who is touched, collect the wanted peers. */
    method Prepare(users: seq<User>) returns (desired: Option<map<Key, PeerInfo>>, touched: set<Email>)
      ensures touched == Touched(users)
      ensures desired.None? <==> Rejected(config, users)
      ensures desired.Some? ==>
                WellTarget(desired.value, WantedOf(config, users)) && desired.value == TargetOf(WantedOf(config, users))
      ensures WantedOf(config, users).Keys <= touched
    {
      var normalized := NormalizeUsers(users);
      touched := {};
      for i := 0 to |normalized|
        invariant touched == set u | u in normalized[..i] :: u.email
      {
        assert normalized[..i + 1] == normalized[..i] + [normalized[i]];
        touched := touched + {normalized[i].email};
      }
      AllTouched(normalized, users, touched);
      desired := CollectDesiredPeers(config, normalized, LastByEmail(users));
      if desired.Some? {
        UnconflictedIsWellDesired(config, LastByEmail(users));
        TargetOfIndexes(desired.value, WantedOf(config, users));
      }
    }

    /** syncUsersPartialReconcile. */
    method SyncUsersPartialReconcile(users: seq<User>, failsAt: Option<nat>) returns (r: Outcome)
      requires Valid()
      modifies peerStore, manager, statsTracker
      ensures Valid()
      ensures r.Done? ==> PartialStep(config, users, old(View()), View())
      ensures (r.NotReady? ==> !running || !hasManager) && (r.KernelFailed? ==> failsAt.Some?) && !r.BadPeer?
      ensures r.ConflictingRequest? <==> Rejected(config, users)
      ensures r.KeyOwnedElsewhere? <==> !Rejected(config, users) && KeyTaken(config, users, old(peerStore.View()))
      ensures !r.Done? ==> peerStore.View() == old(peerStore.View()) && statsTracker.stats == old(statsTracker.stats)
      ensures !r.Done? && !r.KernelFailed? ==> manager.peers == old(manager.peers)
      ensures r.Done? ==> statsTracker.stats ==
                          Tracker.Deleted(old(statsTracker.stats), old(peerStore.peers).Keys - peerStore.peers.Keys)
    {
      hide WellTarget, TargetOf, KernelAfter, Updated, ExistingOf, Inverse, ByEmail, WantedOf, Touched, Restricts,
          Rejected, Indexes;
      var desired, touched := Prepare(users);
      var existing := ExistingPeersSubset(touched);
      if desired.None? {
        return ConflictingRequest;
      }
      var target := desired.value;
      var taken := OwnedElsewhere(target, touched, WantedOf(config, users));
      if taken {
        return KeyOwnedElsewhere;
      }
      NotTaken(peerStore.View(), touched, target, WantedOf(config, users));
      r := Commit(existing, target, touched, WantedOf(config, users), failsAt);
    }

    /** The rest of a partial reconcile, once the request is known to be serviceable. */
    method Commit(existing: map<Key, PeerInfo>, target: map<Key, PeerInfo>, ghost touched: set<Email>,
                  ghost w: map<Email, PeerInfo>, failsAt: Option<nat>)
      returns (r: Outcome)
      requires Valid() && WellTarget(target, w) && w.Keys <= touched
      requires Restricts(existing, peerStore.View(), touched)
      requires forall k :: k in target && k in peerStore.peers ==> peerStore.peers[k].email in touched
      modifies peerStore, manager, statsTracker
      ensures Valid() && !r.ConflictingRequest? && !r.KeyOwnedElsewhere?
      ensures (r.NotReady? ==> !running || !hasManager) && (r.KernelFailed? ==> failsAt.Some?) && !r.BadPeer?
      ensures r.Done? ==> ByEmail(peerStore.View()) == Updated(old(ByEmail(peerStore.View())), touched, w)
      ensures r.Done? ==> manager.peers == KernelAfter(old(manager.peers), existing, target)
      ensures !r.Done? ==> peerStore.View() == old(peerStore.View()) && statsTracker.stats == old(statsTracker.stats)
      ensures !r.Done? && !r.KernelFailed? ==> manager.peers == old(manager.peers)
      ensures r.Done? ==> statsTracker.stats ==
                          Tracker.Deleted(old(statsTracker.stats), old(peerStore.peers).Keys - peerStore.peers.Keys)
    {
      hide WellTarget, Restricts, Inverse, ByEmail, Updated, KernelAfter, Changed;
      var removeKeys, upserts, configs := PlanPartial(existing, target, View(), touched, w);
      if |configs| > 0 {
        if !running || !hasManager {
          return NotReady;
        }
        var ok := manager.ApplyPeers(configs, failsAt);
        if !ok {
          return KernelFailed;
        }
      }
      var removed := peerStore.ApplyChanges(removeKeys, upserts);
      assert (set k | k in removed) == old(peerStore.peers).Keys - peerStore.peers.Keys;
      MarkRemoved(removed);
      r := Done;
    }

    /** syncUsersFull. */
    method SyncUsersFull(users: seq<User>, failsAt: Option<nat>) returns (r: Outcome)
      requires Valid()
      modifies peerStore, manager, statsTracker
      ensures Valid()
      ensures r.Done? ==> FullStep(config, users, old(View()), View())
      ensures (r.NotReady? ==> !running || !hasManager) && (r.KernelFailed? ==> failsAt.Some?) && !r.BadPeer?
      ensures (r.ConflictingRequest? <==> Rejected(config, users)) && !r.KeyOwnedElsewhere?
      ensures !r.Done? ==> peerStore.View() == old(peerStore.View()) && statsTracker.stats == old(statsTracker.stats)
      ensures !r.Done? && !r.KernelFailed? ==> manager.peers == old(manager.peers)
      ensures r.Done? ==> statsTracker.stats ==
                          Tracker.Deleted(old(statsTracker.stats), old(peerStore.peers).Keys - peerStore.peers.Keys)
    {
      var desired, touched := Prepare(users);
      var existing := ExistingPeersByKey();
      if desired.None? {
        return ConflictingRequest;
      }
      TargetOfIndexes(desired.value, WantedOf(config, users));
      r := Snapshot(existing, desired.value, WantedOf(config, users), failsAt);
    }

    /** The rest of a full sync. */
    method Snapshot(existing: map<Key, PeerInfo>, target: map<Key, PeerInfo>, ghost w: map<Email, PeerInfo>,
                    failsAt: Option<nat>)
      returns (r: Outcome)
      requires Valid() && WellTarget(target, w) && existing == peerStore.peers
      modifies peerStore, manager, statsTracker
      ensures Valid() && !r.ConflictingRequest? && !r.KeyOwnedElsewhere?
      ensures (r.NotReady? ==> !running || !hasManager) && (r.KernelFailed? ==> failsAt.Some?) && !r.BadPeer?
      ensures r.Done? ==> ByEmail(peerStore.View()) == w
      ensures r.Done? ==>
                manager.peers ==
                  if old(ByEmail(peerStore.View())) == w then old(manager.peers) else KernelOf(target)
      ensures !r.Done? ==> peerStore.View() == old(peerStore.View()) && statsTracker.stats == old(statsTracker.stats)
      ensures !r.Done? && !r.KernelFailed? ==> manager.peers == old(manager.peers)
      ensures r.Done? ==> statsTracker.stats ==
                          Tracker.Deleted(old(statsTracker.stats), old(peerStore.peers).Keys - peerStore.peers.Keys)
    {
      hide WellTarget, Inverse, ByEmail, KernelOf, ApplyAll, PutAll;
      var changed, upserts, adds, valid := PlanFull(existing, target, peerStore.View(), w);
      if !changed {
        assert Tracker.Deleted(statsTracker.stats, {}) == statsTracker.stats;
        return Done;
      }
      if !running || !hasManager {
        return NotReady;
      }
      var ok := manager.ApplyPeersReplaceAll(adds, failsAt);
      if !ok {
        return KernelFailed;
      }
      var removed := peerStore.ReplaceAll(valid);
      assert (set k | k in removed) == old(peerStore.peers).Keys - peerStore.peers.Keys;
      MarkRemoved(removed);
      r := Done;
    }

    /** restartLocked: the kernel is rebuilt from the store. */
    method RestartLocked(failsAt: Option<nat>) returns (r: Outcome)
      requires Valid()
      modifies manager
      ensures r.Done? ==> RestartStep(old(View()), View())
      ensures r.BadPeer? <==> exists k :: k in peerStore.peers && !Buildable(peerStore.peers[k])
      ensures (r.NotReady? ==> !running || !hasManager) && (r.KernelFailed? ==> failsAt.Some?)
      ensures !r.ConflictingRequest? && !r.KeyOwnedElsewhere?
      ensures r.NotReady? || r.BadPeer? ==> manager.peers == old(manager.peers)
    {
      var peers := ExistingPeersByKey();
      var adds, bad := BuildAdds(peers);
      if bad {
        return BadPeer;
      }
      assert (map k | k in peers && Buildable(peers[k]) :: peers[k]) == peers;
      if !running || !hasManager {
        return NotReady;
      }
      var ok := manager.ApplyPeersReplaceAll(adds, failsAt);
      if !ok {
        return KernelFailed;
      }
      r := Done;
    }

    method ExistingPeersSubset(touched: set<Email>) returns (result: map<Key, PeerInfo>)
      requires Valid()
      ensures result == ExistingOf(peerStore.View(), touched)
    {
      result := map[];
      var todo := touched;
      while todo != {}
        invariant todo <= touched
        invariant result == ExistingOf(peerStore.View(), touched - todo)
        decreases |todo|
      {
        var email :| email in todo;
        todo := todo - {email};
        var peer := peerStore.GetByEmail(email);
        if peer.Some? {
          result := result[peer.value.key := peer.value];
        }
      }
    }

    method ExistingPeersByKey() returns (result: map<Key, PeerInfo>)
      requires Valid()
      ensures result == peerStore.peers
    {
      var all := peerStore.GetAll();
      result := map[];
      for i := 0 to |all|
        invariant forall k :: k in result ==> k in peerStore.peers && result[k] == peerStore.peers[k]
        invariant forall p :: p in all[..i] ==> p.key in result
      {
        assert all[i] in all;
        assert Has(peerStore.View(), all[i]);
        assert all[..i + 1] == all[..i] + [all[i]];
        result := result[all[i].key := all[i]];
      }
      assert all[..|all|] == all;
      forall k | k in peerStore.peers
        ensures k in result
      {
        assert Has(peerStore.View(), peerStore.peers[k]);
      }
    }

    method OwnedElsewhere(target: map<Key, PeerInfo>, touched: set<Email>, ghost w: map<Email, PeerInfo>)
      returns (taken: bool)
      requires Valid() && WellTarget(target, w) && w.Keys <= touched
      ensures taken <==> exists e ::
                e in w && w[e].key in peerStore.peers && peerStore.peers[w[e].key].email !in touched
    {
      var owners := peerStore.GetEmailMap();
      var todo := target.Keys;
      while todo != {}
        invariant todo <= target.Keys
        invariant forall k :: k in target && k !in todo && k in peerStore.peers ==> peerStore.peers[k].email in touched
        decreases |todo|
      {
        var key :| key in todo;
        todo := todo - {key};
        if key !in owners || owners[key] == target[key].email {
          continue;
        }
        if owners[key] !in touched {
          assert w[target[key].email].key == key;
          return true;
        }
      }
      return false;
    }

    method MarkRemoved(removed: seq<Key>)
      modifies statsTracker
      ensures statsTracker.stats == Tracker.Deleted(old(statsTracker.stats), set k | k in removed)
    {
      for i := 0 to |removed|
        invariant statsTracker.stats == Tracker.Deleted(old(statsTracker.stats), set k | k in removed[..i])
      {
        assert removed[..i + 1] == removed[..i] + [removed[i]];
        statsTracker.RemoveStats(removed[i]);
      }
      assert removed[..|removed|] == removed;
    }
  }

  method ListPeers(target: map<Key, PeerInfo>, ghost w: map<Email, PeerInfo>) returns (peers: seq<PeerInfo>)
    requires WellTarget(target, w)
    ensures Builds(peers, target, w)
  {
    hide WellDesired, Indexes, Disjoint, Inverse, ByEmail, PutAll;
    peers := [];
    var todo := target.Keys;
    while todo != {}
      invariant todo <= target.Keys
      invariant forall i, j :: 0 <= i < j < |peers| ==> peers[i].key != peers[j].key
      invariant forall p :: p in peers <==> p.key in target && target[p.key] == p && p.key !in todo
      decreases |todo|
    {
      var key :| key in todo;
      todo := todo - {key};
      peers := peers + [target[key]];
    }
    StoredList(target, w, peers);
    StoredPeers(PutAll(EMPTY, peers), target, w);
  }

  lemma NotTaken(s: Store, touched: set<Email>, target: map<Key, PeerInfo>, w: map<Email, PeerInfo>)
    requires Inverse(s) && WellTarget(target, w)
    requires !exists e :: e in w && w[e].key in s.peers && s.peers[w[e].key].email !in touched
    ensures WellDesired(w) && Restricts(ExistingOf(s, touched), s, touched)
    ensures forall k :: k in target && k in s.peers ==> s.peers[k].email in touched
  {
    forall k | k in target && k in s.peers
      ensures s.peers[k].email in touched
    {
      assert w[target[k].email].key == k;
    }
  }

  lemma AllTouched(normalized: seq<User>, users: seq<User>, touched: set<Email>)
    requires Lists(normalized, LastByEmail(users))
    requires touched == set u | u in normalized[..|normalized|] :: u.email
    ensures touched == Touched(users)
  {
    var m := LastByEmail(users);
    assert normalized[..|normalized|] == normalized;
    forall e | e in m
      ensures e in touched
    {
      assert m[e] in normalized;
    }
  }

  /** What preparation hands on: the wanted peers indexed by key, with everything collection promises. */
  ghost predicate WellTarget(target: map<Key, PeerInfo>, w: map<Email, PeerInfo>) {
    && WellDesired(w) && Indexes(target, w) && Keyed(target) && Disjoint(target)
    && forall k :: k in target ==> Buildable(target[k])
  }

  /** A list of a target's peers, written to an empty store, gives the wanted view by email. */
  lemma StoredList(target: map<Key, PeerInfo>, w: map<Email, PeerInfo>, ps: seq<PeerInfo>)
    requires WellDesired(w) && Indexes(target, w)
    requires forall p :: p in ps <==> p.key in target && target[p.key] == p
    requires forall i, j :: 0 <= i < j < |ps| ==> ps[i].key != ps[j].key
    ensures Inverse(PutAll(EMPTY, ps)) && ByEmail(PutAll(EMPTY, ps)) == w
  {
    forall i, j | 0 <= i < j < |ps|
      ensures ps[i].email != ps[j].email
    {
      assert ps[i] in ps && ps[j] in ps;
    }
    PutAllInverse(ps);
    forall p
      ensures Has(PutAll(EMPTY, ps), p) <==> (p.email in w && w[p.email] == p)
    {
      PutAllBuilds(EMPTY, ps, p);
    }
    ViewIs(PutAll(EMPTY, ps), w);
  }

  lemma PutAllInverse(ps: seq<PeerInfo>)
    requires OneToOne(ps)
    ensures Inverse(PutAll(EMPTY, ps))
  {
    PutAllBuilds(EMPTY, ps, PeerInfo("", "", []));
  }

  lemma ViewIs(r: Store, w: map<Email, PeerInfo>)
    requires Inverse(r) && WellDesired(w)
    requires forall p :: Has(r, p) <==> (p.email in w && w[p.email] == p)
    ensures ByEmail(r) == w
  {
    UpdatedByEmail(EMPTY, {}, w, r);
    assert Updated(ByEmail(EMPTY), {}, w) == w;
  }

  lemma StartupStore(target: map<Key, PeerInfo>, w: map<Email, PeerInfo>, upserts: seq<PeerInfo>)
    requires WellTarget(target, w) && UpsertsOf(map[], target, upserts)
    ensures Builds(upserts, target, w)
  {
    StoredList(target, w, upserts);
    StoredPeers(PutAll(EMPTY, upserts), target, w);
  }

  lemma EmptyStore()
    ensures Inverse(EMPTY) && ByEmail(EMPTY) == map[]
  {
  }

  /** A store whose view by email is wanted has the target as its peer table, and the other way round. */
  lemma StoredPeers(s: Store, target: map<Key, PeerInfo>, w: map<Email, PeerInfo>)
    requires Inverse(s) && WellDesired(w) && Indexes(target, w)
    ensures ByEmail(s) == w <==> s.peers == target
  {
    if ByEmail(s) == w {
      forall k | k in s.peers
        ensures k in target && target[k] == s.peers[k]
      {
        assert w[s.peers[k].email] == s.peers[k];
      }
      forall k | k in target
        ensures k in s.peers
      {
        assert ByEmail(s)[target[k].email] == target[k];
      }
    }
    if s.peers == target {
      forall e | e in w
        ensures e in ByEmail(s) && ByEmail(s)[e] == w[e]
      {
        assert target[w[e].key] == w[e];
      }
      forall e | e in ByEmail(s)
        ensures e in w
      {
        assert target[s.emailToKey[e]].email == e;
      }
    }
  }

  lemma HasMember<T>(xs: seq<T>)
    requires xs != []
    ensures exists x :: x in xs
  {
    assert xs[0] in xs;
  }

  /** The shortcut of a full sync is exact: nothing is to change just when the store is the target. */
  lemma UnchangedMeansEqual(s: Store, w: map<Email, PeerInfo>, target: map<Key, PeerInfo>, rm: seq<Key>,
                            ups: seq<PeerInfo>)
    requires Inverse(s) && WellTarget(target, w)
    requires RemovalsOf(s.peers, target, rm) && UpsertsOf(s.peers, target, ups)
    ensures rm == [] && ups == [] <==> ByEmail(s) == w
  {
    StoredPeers(s, target, w);
    if s.peers == target {
      if rm != [] {
        HasMember(rm);
      }
      if ups != [] {
        HasMember(ups);
      }
    } else if k :| k in s.peers && k !in target {
      assert k in rm;
    } else if k :| k in target && k !in s.peers {
      assert target[k] in ups;
    } else {
      var k :| k in target && target[k] != s.peers[k];
      assert target[k].key == k == s.peers[k].key;
      assert target[k] in ups;
    }
  }

  /** A partial sync removes from the store exactly the keys it reports for statistics. */
  lemma RemovedKeys(s: Store, touched: set<Email>, w: map<Email, PeerInfo>, ex: map<Key, PeerInfo>,
                    t: map<Key, PeerInfo>, rm: seq<Key>, s': Store)
    requires Inverse(s) && Inverse(s') && Indexes(t, w) && w.Keys <= touched
    requires Restricts(ex, s, touched) && RemovalsOf(ex, t, rm)
    requires WellDesired(w) && ByEmail(s') == Updated(ByEmail(s), touched, w)
    ensures forall k :: k in rm && k in s.peers <==> k in s.peers && k !in s'.peers
  {
    forall k | k in s.peers
      ensures k in s'.peers <==> s.peers[k].email !in touched || k in t
    {
      KeptKey(s, touched, w, t, s', k);
    }
  }

  lemma KeptKey(s: Store, touched: set<Email>, w: map<Email, PeerInfo>, t: map<Key, PeerInfo>, s': Store, k: Key)
    requires Inverse(s) && Inverse(s') && Indexes(t, w) && w.Keys <= touched && k in s.peers
    requires WellDesired(w) && ByEmail(s') == Updated(ByEmail(s), touched, w)
    ensures k in s'.peers <==> s.peers[k].email !in touched || k in t
  {
    var e := s.peers[k].email;
    if e !in touched {
      assert ByEmail(s')[e] == ByEmail(s)[e];
    } else if k in t {
      assert ByEmail(s')[t[k].email] == t[k];
    }
    if k in s'.peers {
      assert ByEmail(s')[s'.peers[k].email] == s'.peers[k];
    }
  }
}
