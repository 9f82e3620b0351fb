/** The WireGuard device limiter and the user syncs together: which stored peers are missing from the
    kernel, and which of those the limiter will bring back. Entry points of backend/wireguard/user.go and
    the kernel half of enforceIpLimits in backend/wireguard/iplimit.go. */
module KickedPeers {
  import opened Prefixes
  import opened PeerStore
  import opened Device
  import opened Desired
  import opened SyncSpec
  import opened SyncRuns
  import opened Requests
  import opened Wrappers
  import PeerIpLimit
  import WireGuard

  /** The kernel holds some of the stored peers, each just as stored, and the stored peers share no prefix. */
  ghost predicate Thinned(n: Node) {
    && Inverse(n.store) && Disjoint(n.store.peers)
    && (forall k :: k in n.store.peers ==> Buildable(n.store.peers[k]))
    && forall k :: k in n.kernel ==> k in n.store.peers && n.kernel[k] == SetOf(n.store.peers[k].allowedIPs)
  }

  /** The stored peers that are missing from the kernel. */
  ghost function Out(n: Node): set<Key> {
    n.store.peers.Keys - n.kernel.Keys
  }

  lemma ThinnedIsSound(n: Node)
    requires Thinned(n)
    ensures Sound(n) && (Agree(n) <==> Out(n) == {})
  {
    if Out(n) == {} {
      forall k
        ensures k in n.kernel <==> k in n.store.peers
      {
        assert k !in Out(n);
      }
      assert n.kernel == KernelOf(n.store.peers);
    }
  }

  // ----- What the syncs do to a thinned kernel -----

  /** The peer is stored before and after with the same prefixes. */
  ghost predicate Keeps(s: Store, s': Store, k: Key) {
    k in s.peers && k in s'.peers && s'.peers[k].allowedIPs == s.peers[k].allowedIPs
  }

  lemma ThinnedPartialKey(n: Node, touched: set<Email>, w: map<Email, PeerInfo>, k: Key)
    requires Thinned(n) && WellDesired(w) && PrefixesFree(n.store, touched, w) && KeysFree(n.store, touched, w)
    ensures var d := KernelAfter(n.kernel, ExistingOf(n.store, touched), TargetOf(w));
            if k in TargetOf(w) then
              && (k in d <==> k in n.kernel || k !in n.store.peers
                              || n.store.peers[k].allowedIPs != TargetOf(w)[k].allowedIPs)
              && (k in d ==> d[k] == SetOf(TargetOf(w)[k].allowedIPs))
            else
              && (k in d <==> k in n.kernel && n.store.peers[k].email !in touched)
              && (k in d ==> d[k] == SetOf(n.store.peers[k].allowedIPs))
  {
    hide Given, Left, WellDesired, PrefixesFree;
    var ex, t := ExistingOf(n.store, touched), TargetOf(w);
    InTarget(w, k);
    if k in t {
      assert Buildable(t[k]) by { WantedBuildable(w, t[k].email); }
      if k in n.store.peers && n.store.peers[k].allowedIPs == t[k].allowedIPs {
        assert !Configured(ex, t, k);
        KeptWhole(n.store, touched, w, k);
      } else {
        assert Configured(ex, t, k);
        assert k in ex || k !in n.kernel;
      }
    } else if k in n.store.peers && n.store.peers[k].email !in touched {
      KeptWhole(n.store, touched, w, k);
    }
  }

  /** The stored peers stay apart exactly when no wanted prefix belongs to an untouched user. */
  lemma UpdateStaysDisjoint(s: Store, touched: set<Email>, w: map<Email, PeerInfo>, s': Store)
    requires Inverse(s) && Inverse(s') && Disjoint(s.peers) && WellDesired(w) && w.Keys <= touched
    requires KeysFree(s, touched, w) && ByEmail(s') == Updated(ByEmail(s), touched, w)
    ensures Disjoint(s'.peers) <==> PrefixesFree(s, touched, w)
  {
    hide WellDesired, ByEmail, Updated, TargetOf, Inverse;
    if PrefixesFree(s, touched, w) {
      forall k, l | k in s'.peers && l in s'.peers && k != l
        ensures SetOf(s'.peers[k].allowedIPs) !! SetOf(s'.peers[l].allowedIPs)
      {
        PairStaysDisjoint(s, touched, w, s', k, l);
      }
    } else {
      var e, k, p :| e in w && p in w[e].allowedIPs && k in s.peers && s.peers[k].email !in touched
                     && p in s.peers[k].allowedIPs;
      InTarget(w, k);
      InTarget(w, w[e].key);
      WantedAt(w, e);
      KeyAfterUpdate(s, touched, w, s', k);
      KeyAfterUpdate(s, touched, w, s', w[e].key);
      assert p in SetOf(s'.peers[k].allowedIPs) && p in SetOf(s'.peers[w[e].key].allowedIPs);
    }
  }

  lemma WantedAt(w: map<Email, PeerInfo>, e: Email)
    requires WellDesired(w) && e in w
    ensures w[e].key in TargetOf(w) && TargetOf(w)[w[e].key] == w[e]
  {
    InTarget(w, w[e].key);
  }

  lemma PairStaysDisjoint(s: Store, touched: set<Email>, w: map<Email, PeerInfo>, s': Store, k: Key, l: Key)
    requires Inverse(s) && Inverse(s') && Disjoint(s.peers) && WellDesired(w) && w.Keys <= touched
    requires KeysFree(s, touched, w) && ByEmail(s') == Updated(ByEmail(s), touched, w)
    requires PrefixesFree(s, touched, w) && k in s'.peers && l in s'.peers && k != l
    ensures SetOf(s'.peers[k].allowedIPs) !! SetOf(s'.peers[l].allowedIPs)
  {
    KeyAfterUpdate(s, touched, w, s', k);
    KeyAfterUpdate(s, touched, w, s', l);
    InTarget(w, k);
    InTarget(w, l);
    hide ByEmail, Updated, TargetOf, Inverse;
  }

  lemma PartialThinnedAt(n: Node, touched: set<Email>, w: map<Email, PeerInfo>, n': Node, k: Key)
    requires Thinned(n) && WellDesired(w) && w.Keys <= touched && KeysFree(n.store, touched, w)
    requires Inverse(n'.store) && ByEmail(n'.store) == Updated(ByEmail(n.store), touched, w)
    requires n'.kernel == KernelAfter(n.kernel, ExistingOf(n.store, touched), TargetOf(w))
    requires PrefixesFree(n.store, touched, w)
    ensures k in n'.store.peers ==> Buildable(n'.store.peers[k])
    ensures k in n'.kernel ==> k in n'.store.peers && n'.kernel[k] == SetOf(n'.store.peers[k].allowedIPs)
    ensures k in Out(n') <==> k in Out(n) && Keeps(n.store, n'.store, k)
  {
    hide KernelAfter, Updated, ByEmail, TargetOf, ExistingOf, WellDesired, KeysFree, Inverse, Disjoint, PrefixesFree;
    ThinnedPartialKey(n, touched, w, k);
    KeyAfterUpdate(n.store, touched, w, n'.store, k);
    InTarget(w, k);
    if k in TargetOf(w) {
      WantedBuildable(w, TargetOf(w)[k].email);
    }
  }

  /** A partial sync keeps a thinned kernel thinned exactly when no wanted prefix belongs to an untouched
      user, and then a missing peer stays missing exactly if its prefixes stay: whether its user is
      touched, or the key changes hands, does not matter. */
  lemma PartialKeepsThinnedIff(c: Config, users: seq<User>, n: Node, n': Node)
    requires Thinned(n) && PartialStep(c, users, n, n')
    ensures Thinned(n') <==> PrefixesFree(n.store, Touched(users), WantedOf(c, users))
    ensures Thinned(n') ==> forall k :: k in Out(n') <==> k in Out(n) && Keeps(n.store, n'.store, k)
  {
    hide KernelAfter, Updated, ByEmail, TargetOf, ExistingOf, WellDesired, KeysFree, Disjoint, Touched, WantedOf,
      Out, Keeps, PrefixesFree, Inverse;
    var touched, w := Touched(users), WantedOf(c, users);
    PartialFacts(c, users, n, n');
    UpdateStaysDisjoint(n.store, touched, w, n'.store);
    if PrefixesFree(n.store, touched, w) {
      forall k
        ensures k in n'.store.peers ==> Buildable(n'.store.peers[k])
        ensures k in n'.kernel ==> k in n'.store.peers && n'.kernel[k] == SetOf(n'.store.peers[k].allowedIPs)
        ensures k in Out(n') <==> k in Out(n) && Keeps(n.store, n'.store, k)
      {
        PartialThinnedAt(n, touched, w, n', k);
      }
    }
  }

  /** A full sync that changes anything brings every peer back; one that changes nothing brings back none. */
  lemma FullKeepsThinned(c: Config, users: seq<User>, n: Node, n': Node)
    requires Thinned(n) && FullStep(c, users, n, n')
    ensures Thinned(n') && Out(n') == if ByEmail(n.store) == WantedOf(c, users) then Out(n) else {}
  {
    hide WellDesired, ByEmail, TargetOf, WantedOf, Disjoint, Inverse;
    var w := WantedOf(c, users);
    if ByEmail(n.store) == w {
      ByEmailDetermines(n.store, n'.store);
    } else {
      TargetIsTable(n'.store, w);
      TargetTable(w);
    }
  }

  lemma TargetTable(w: map<Email, PeerInfo>)
    requires WellDesired(w)
    ensures Disjoint(TargetOf(w)) && forall k :: k in TargetOf(w) ==> Buildable(TargetOf(w)[k])
  {
    forall k
      ensures k in TargetOf(w) ==> Buildable(TargetOf(w)[k])
    {
      InTarget(w, k);
      if k in TargetOf(w) {
        WantedBuildable(w, TargetOf(w)[k].email);
      }
    }
    forall e | e in w
      ensures TargetOf(w)[w[e].key] == w[e]
    {
      WantedAt(w, e);
    }
    forall k | k in TargetOf(w)
      ensures TargetOf(w)[k].email in w && w[TargetOf(w)[k].email] == TargetOf(w)[k] && TargetOf(w)[k].key == k
    {
      InTarget(w, k);
    }
    TargetOfIndexes(TargetOf(w), w);
  }

  /** A restart brings every stored peer back. */
  lemma RestartKeepsThinned(n: Node, n': Node)
    requires Thinned(n) && RestartStep(n, n')
    ensures Thinned(n') && Out(n') == {}
  {
    ThinnedIsSound(n);
    RestartAgreesIff(n, n');
    assert n'.kernel == KernelOf(n.store.peers);
  }

  // ----- What a pass of the limiter does to it -----

  /** A kick removes the user's peer, a re-admission adds it as the store has it. */
  function ConfigFor(s: Store, kicks: set<Email>, e: Email): PeerConfig
    requires e in s.emailToKey && s.emailToKey[e] in s.peers
  {
    var key := s.emailToKey[e];
    if e in kicks then RemovalOf(key) else PeerConfig(key, false, false, s.peers[key].allowedIPs)
  }

  /** The users acted on one after the other. */
  ghost function ActedOn(n: Node, kicks: set<Email>, es: seq<Email>): Kernel
    requires Inverse(n.store) && forall e :: e in es ==> e in n.store.emailToKey
    decreases |es|
  {
    if es == [] then n.kernel
    else
      ApplyOne(ActedOn(n, kicks, es[..|es| - 1]), ConfigFor(n.store, kicks, es[|es| - 1]))
  }

  lemma ActedOnNobody(n: Node, kicks: set<Email>)
    requires Inverse(n.store)
    ensures ActedOn(n, kicks, []) == n.kernel
  {
  }

  lemma ActedOnOneMore(n: Node, kicks: set<Email>, es: seq<Email>, e: Email)
    requires Inverse(n.store) && e in n.store.emailToKey && forall f :: f in es ==> f in n.store.emailToKey
    ensures ActedOn(n, kicks, es + [e]) == ApplyOne(ActedOn(n, kicks, es), ConfigFor(n.store, kicks, e))
  {
    assert (es + [e])[..|es|] == es;
    hide ApplyOne, ConfigFor;
  }

  /** Every user of the two sets once, in some order. */
  ghost predicate ListsOnce(es: seq<Email>, kicks: set<Email>, readmits: set<Email>) {
    && (forall e :: e in es <==> e in kicks || e in readmits)
    && (forall i, j :: 0 <= i < j < |es| ==> es[i] != es[j])
  }

  lemma Acts(n: Node, kicks: set<Email>, e: Email)
    requires Thinned(n) && e in n.store.emailToKey
    ensures var n' := n.(kernel := ApplyOne(n.kernel, ConfigFor(n.store, kicks, e)));
            Thinned(n') && Out(n') ==
                if e in kicks then Out(n) + {n.store.emailToKey[e]} else Out(n) - {n.store.emailToKey[e]}
  {
    var key := n.store.emailToKey[e];
    var n' := n.(kernel := ApplyOne(n.kernel, ConfigFor(n.store, kicks, e)));
    if e !in kicks {
      forall k | k in n'.kernel
        ensures k in n.store.peers && n'.kernel[k] == SetOf(n.store.peers[k].allowedIPs)
      {
        if k != key {
          assert SetOf(n.store.peers[k].allowedIPs) !! SetOf(n.store.peers[key].allowedIPs);
        }
      }
    }
  }

  lemma OwnedKey(s: Store, k: Key, e: Email)
    requires Inverse(s) && k in s.peers && e in s.emailToKey
    ensures s.peers[k].email == e <==> s.emailToKey[e] == k
  {
  }

  /** In whatever order its calls are made, a pass takes out exactly the kicked users' peers and puts back
      exactly the re-admitted users', and nobody else's peer is disturbed. */
  lemma {:induction false} PassKeepsThinned(n: Node, kicks: set<Email>, es: seq<Email>)
    requires Thinned(n) && forall e :: e in es ==> e in n.store.emailToKey
    ensures var n' := n.(kernel := ActedOn(n, kicks, es));
            && Thinned(n')
            && (forall e :: e in n.store.emailToKey ==>
                  (n.store.emailToKey[e] in Out(n') <==>
                   if e in es then (e in kicks) else n.store.emailToKey[e] in Out(n)))
    decreases |es|
  {
    if es != [] {
      var init, last := es[..|es| - 1], es[|es| - 1];
      assert es == init + [last];
      var mid := n.(kernel := ActedOn(n, kicks, init));
      PassKeepsThinned(n, kicks, init);
      Acts(mid, kicks, last);
      var n' := n.(kernel := ActedOn(n, kicks, es));
      assert n' == mid.(kernel := ApplyOne(mid.kernel, ConfigFor(n.store, kicks, last)));
      hide Thinned, Out, ApplyOne, ConfigFor, ActedOn;
      forall e | e in n.store.emailToKey
        ensures n.store.emailToKey[e] in Out(n') <==>
                if e in es then (e in kicks) else n.store.emailToKey[e] in Out(n)
      {
        DistinctKeys(n.store, e, last);
      }
    }
  }

  lemma DistinctKeys(s: Store, e: Email, f: Email)
    requires Inverse(s) && e in s.emailToKey && f in s.emailToKey
    ensures s.emailToKey[e] == s.emailToKey[f] <==> e == f
  {
  }

  // ----- Marks and missing peers -----

  /** A node, the users whose kick the limiter remembers, and those it has a limit for. */
  datatype Limited = Limited(node: Node, marked: set<Email>, limited: set<Email>)

  datatype Call =
    | Named(users: seq<User>)             // SyncUser, UpdateUsers
    | Refused(users: seq<User>)           // the same, refused: the marks have been cleared by then
    | Whole(users: seq<User>)             // SyncUsers
    | NamedAndRestart(users: seq<User>)   // UpdateUsersAndRestart
    | Replaced(users: seq<User>)          // either of these two, refused: the limits have been replaced by then
    | Restart
    | Pass(kicks: set<Email>, readmits: set<Email>)

  /** The users a request lists, whether it brings their credentials or not. */
  ghost function Names(users: seq<User>): set<Email> {
    set u | u in users && u.email != "" :: u.email
  }

  ghost predicate Passes(kicks: set<Email>, readmits: set<Email>, s: Limited, s': Limited)
    requires Inverse(s.node.store)
  {
    && kicks !! s.marked && readmits <= s.marked && kicks + readmits <= s.node.store.emailToKey.Keys * s.limited
    && s'.marked == (s.marked - readmits) + kicks && s'.limited == s.limited
    && exists es :: ListsOnce(es, kicks, readmits) && s'.node == s.node.(kernel := ActedOn(s.node, kicks, es))
  }

  /** What each call does to the node and to the marks. */
  ghost predicate Does(c: Config, call: Call, s: Limited, s': Limited)
    requires Inverse(s.node.store)
  {
    match call
    case Named(users) =>
      PartialStep(c, users, s.node, s'.node) && s'.marked == s.marked - Names(users)
          && s'.limited == s.limited + Names(users)
    case Refused(users) =>
      s'.node == s.node && s'.marked == s.marked - Names(users) && s'.limited == s.limited + Names(users)
    case Whole(users) => FullStep(c, users, s.node, s'.node) && s'.marked == s.marked && s'.limited == Names(users)
    case NamedAndRestart(users) =>
      SyncRuns.Step(c, PartialRestart(users), s.node, s'.node) && s'.marked == s.marked && s'.limited == Names(users)
    case Replaced(users) => s'.node == s.node && s'.marked == s.marked && s'.limited == Names(users)
    case Restart => RestartStep(s.node, s'.node) && s'.marked == s.marked && s'.limited == s.limited
    case Pass(kicks, readmits) => Passes(kicks, readmits, s, s')
  }

  /** A partial request takes no prefix from a user that it does not touch. */
  ghost predicate Takes(c: Config, call: Call, s: Limited) {
    (call.Named? || call.NamedAndRestart?) ==> PrefixesFree(s.node.store, Touched(call.users), WantedOf(c, call.users))
  }

  /** The stored peers that are missing from the kernel and that the limiter will not bring back: it only
      re-admits users that are marked and that it has a limit for. */
  ghost function Stranded(s: Limited): set<Key> {
    set k | k in Out(s.node) && k in s.node.store.peers && !Awaited(s, s.node.store.peers[k].email)
  }

  ghost predicate Awaited(s: Limited, e: Email) {
    e in s.marked && e in s.limited
  }

  /** The request leaves a stored peer its prefixes: it does not touch the peer's user, or it asks for the key
      with just these, for whatever user. */
  ghost predicate Leaves(c: Config, users: seq<User>, s: Store, k: Key) {
    && k in s.peers
    && (s.peers[k].email in Touched(users) ==> exists e :: e in WantedOf(c, users) && WantedOf(c, users)[e].key == k)
    && forall e :: e in WantedOf(c, users) && WantedOf(c, users)[e].key == k ==>
         WantedOf(c, users)[e].allowedIPs == s.peers[k].allowedIPs
  }

  lemma KeepsIffLeaves(c: Config, users: seq<User>, n: Node, n': Node, k: Key)
    requires Inverse(n.store) && PartialStep(c, users, n, n')
    ensures Keeps(n.store, n'.store, k) <==> Leaves(c, users, n.store, k)
  {
    hide KernelAfter, ByEmail, Updated, ExistingOf, TargetOf, Touched, WantedOf, WellDesired;
    var touched, w := Touched(users), WantedOf(c, users);
    PartialFacts(c, users, n, n');
    KeyAfterUpdate(n.store, touched, w, n'.store, k);
    InTarget(w, k);
    forall e | e in w && w[e].key == k
      ensures k in TargetOf(w) && TargetOf(w)[k] == w[e]
    {
      WantedAt(w, e);
    }
  }

  /** Which peers are missing after a call, by the state before it. */
  ghost predicate MissingAfter(c: Config, call: Call, s: Limited, k: Key)
    requires Inverse(s.node.store)
  {
    match call
    case Named(users) => k in Out(s.node) && Leaves(c, users, s.node.store, k)
    case Refused(_) => k in Out(s.node)
    case Replaced(_) => k in Out(s.node)
    case Whole(users) => k in Out(s.node) && ByEmail(s.node.store) == WantedOf(c, users)
    case Pass(kicks, readmits) =>
      k in s.node.store.peers && (s.node.store.peers[k].email in kicks
                                  || (k in Out(s.node) && s.node.store.peers[k].email !in readmits))
    case _ => false
  }

  lemma PassMisses(c: Config, call: Call, s: Limited, s': Limited)
    requires Thinned(s.node) && call.Pass? && Does(c, call, s, s')
    ensures Thinned(s'.node) && s'.node.store == s.node.store
    ensures forall k :: k in Out(s'.node) <==> MissingAfter(c, call, s, k)
  {
    forall e | e in call.kicks || e in call.readmits
      ensures e in s.node.store.emailToKey
    {
      assert e in call.kicks + call.readmits;
    }
    var es :| ListsOnce(es, call.kicks, call.readmits) && s'.node == s.node.(kernel := ActedOn(s.node, call.kicks, es));
    PassKeepsThinned(s.node, call.kicks, es);
    hide ActedOn, Thinned;
    forall k
      ensures k in Out(s'.node) <==> MissingAfter(c, call, s, k)
    {
      if k in s.node.store.peers {
        OwnedKey(s.node.store, k, s.node.store.peers[k].email);
      }
    }
  }

  /** Each call keeps the kernel thinned, and the peers missing afterwards are these and no others. A call
      that restarts brings back every peer and leaves every mark. */
  lemma CallKeepsThinned(c: Config, call: Call, s: Limited, s': Limited)
    requires Thinned(s.node) && Does(c, call, s, s') && Takes(c, call, s)
    ensures Thinned(s'.node)
    ensures forall k :: k in Out(s'.node) <==> MissingAfter(c, call, s, k)
  {
    assert Inverse(s.node.store);
    hide Thinned, Out, Keeps, Leaves, PartialStep, FullStep, RestartStep, PrefixesFree, Passes;
    match call
    case Named(users) =>
      PartialKeepsThinnedIff(c, users, s.node, s'.node);
      forall k
        ensures Keeps(s.node.store, s'.node.store, k) <==> Leaves(c, users, s.node.store, k)
      {
        KeepsIffLeaves(c, users, s.node, s'.node, k);
      }
    case Whole(users) => FullKeepsThinned(c, users, s.node, s'.node);
    case NamedAndRestart(users) => BothKeepThinned(c, users, s.node, s'.node);
    case Restart => RestartKeepsThinned(s.node, s'.node);
    case Pass(_, _) => PassMisses(c, call, s, s');
    case _ =>
  }

  lemma BothKeepThinned(c: Config, users: seq<User>, n: Node, n': Node)
    requires Thinned(n) && SyncRuns.Step(c, PartialRestart(users), n, n')
    requires PrefixesFree(n.store, Touched(users), WantedOf(c, users))
    ensures Thinned(n') && Out(n') == {}
  {
    var m :| PartialStep(c, users, n, m) && RestartStep(m, n');
    hide PartialStep, RestartStep, PrefixesFree, Out, Keeps;
    PartialKeepsThinnedIff(c, users, n, m);
    RestartKeepsThinned(m, n');
  }

  /** Which of them are stranded: those that were and stay missing, and those whose user a request takes
      the mark or the limit from without bringing the peer back. A request that only lists a kicked user,
      with the prefixes the store has or with no credentials, strands its peer; so does one that lists it
      and is refused, and a whole list that leaves it out and is refused. */
  lemma StrandedAfter(c: Config, call: Call, s: Limited, s': Limited, k: Key)
    requires Thinned(s.node) && Does(c, call, s, s') && Takes(c, call, s)
    ensures k in Stranded(s') <==>
            && MissingAfter(c, call, s, k)
            && match call
               case Named(users) => k in Stranded(s) || s.node.store.peers[k].email in Names(users)
               case Refused(users) => k in Stranded(s) || s.node.store.peers[k].email in Names(users)
               case Whole(_) => s.node.store.peers[k].email !in s.marked
               case Replaced(users) => s.node.store.peers[k].email !in s.marked * Names(users)
               case Pass(kicks, _) => k in Stranded(s) && s.node.store.peers[k].email !in kicks
               case _ => false
  {
    CallKeepsThinned(c, call, s, s');
    assert k in Out(s'.node) <==> MissingAfter(c, call, s, k);
    hide Thinned, PartialStep, FullStep, RestartStep, PrefixesFree, Names, ActedOn;
    match call
    case Named(users) =>
      if k in Out(s'.node) {
        KeptOwner(c, users, s.node, s'.node, k);
      }
    case Whole(users) =>
      if k in Out(s'.node) {
        UnchangedStore(c, users, s.node, s'.node, k);
      }
    case _ =>
  }

  /** A stored key either keeps its user, or both its users are named in the request. */
  lemma KeptOwner(c: Config, users: seq<User>, n: Node, n': Node, k: Key)
    requires Inverse(n.store) && PartialStep(c, users, n, n') && k in n.store.peers && k in n'.store.peers
    ensures n'.store.peers[k].email == n.store.peers[k].email
            || (n.store.peers[k].email in Names(users) && n'.store.peers[k].email in Names(users))
  {
    var touched, w := Touched(users), WantedOf(c, users);
    PartialFacts(c, users, n, n');
    KeyAfterUpdate(n.store, touched, w, n'.store, k);
    InTarget(w, k);
    TouchedIsNamed(users);
    hide PartialStep, KernelAfter, ByEmail, Updated, ExistingOf, Names, Touched, WantedOf;
  }

  lemma TouchedIsNamed(users: seq<User>)
    ensures Touched(users) <= Names(users)
  {
    forall e | e in Touched(users)
      ensures e in Names(users)
    {
      var u := LastByEmail(users)[e];
      assert u in users && u.email != "" && u.email == e;
    }
  }

  lemma UnchangedStore(c: Config, users: seq<User>, n: Node, n': Node, k: Key)
    requires Inverse(n.store) && FullStep(c, users, n, n') && ByEmail(n.store) == WantedOf(c, users)
              && k in n.store.peers
    ensures n'.store == n.store && n.store.peers[k].email in Names(users)
  {
    ByEmailDetermines(n.store, n'.store);
    assert n.store.peers[k].email in ByEmail(n.store);
    assert WantedOf(c, users).Keys <= Touched(users);
    TouchedIsNamed(users);
  }

  // ----- Runs -----

  /** The states between consecutive calls. */
  ghost predicate IsLimitedRun(c: Config, calls: seq<Call>, ss: seq<Limited>) {
    && |ss| == |calls| + 1
    && Thinned(ss[0].node)
    && forall i :: 0 <= i < |calls| ==>
         Inverse(ss[i].node.store) && Does(c, calls[i], ss[i], ss[i + 1]) && Takes(c, calls[i], ss[i])
  }

  /** A missing peer that a call takes from the limiter's hands: its user is listed and it is not brought
      back, or its user is not on a whole list that is refused. */
  ghost predicate Drops(c: Config, call: Call, s: Limited, k: Key) {
    k in s.node.store.peers &&
    match call
    case Named(users) => Leaves(c, users, s.node.store, k) && s.node.store.peers[k].email in Names(users)
    case Refused(users) => s.node.store.peers[k].email in Names(users)
    case Replaced(users) => s.node.store.peers[k].email !in Names(users)
    case _ => false
  }

  ghost predicate Spares(c: Config, call: Call, s: Limited) {
    forall k :: k in Out(s.node) ==> !Drops(c, call, s, k)
  }

  lemma StrandedIsDropped(c: Config, call: Call, s: Limited, s': Limited, k: Key)
    requires Thinned(s.node) && Does(c, call, s, s') && Takes(c, call, s) && Stranded(s) == {}
    ensures k in Stranded(s') <==> k in Out(s.node) && Drops(c, call, s, k)
  {
    NotStranded(s, k);
    StrandedAfter(c, call, s, s', k);
    hide Stranded, Thinned, Does, Takes, Leaves, Names;
  }

  lemma CallStrandsNobodyIff(c: Config, call: Call, s: Limited, s': Limited)
    requires Thinned(s.node) && Does(c, call, s, s') && Takes(c, call, s) && Stranded(s) == {}
    ensures Stranded(s') == {} <==> Spares(c, call, s)
  {
    hide Stranded, Thinned, Does, Takes, Drops, Out;
    if Stranded(s') == {} {
      forall k | k in Out(s.node)
        ensures !Drops(c, call, s, k)
      {
        StrandedIsDropped(c, call, s, s', k);
      }
    } else {
      var k :| k in Stranded(s');
      StrandedIsDropped(c, call, s, s', k);
    }
  }

  /** Each of the three ways to strand a peer happens: to a kicked user's only peer, when a request lists the
      user with the prefixes the store has, when such a request is refused, and when a refused whole list
      leaves the user out. */
  lemma KickedIsStranded(c: Config, users: seq<User>, a: PeerInfo, p: Prefix)
    requires a.allowedIPs == [p] && a.email != ""
    requires Touched(users) == {a.email} && WantedOf(c, users) == map[a.email := a] && !Rejected(c, users)
    ensures var n := Node(Store(map[a.key := a], map[a.email := a.key]), map[]);
            var s := Limited(n, {a.email}, {a.email});
            var cleared, unlimited := Limited(n, {}, {a.email} + Names(users)), Limited(n, {a.email}, {});
            && Thinned(n) && Stranded(s) == {}
            && Does(c, Named(users), s, cleared) && Takes(c, Named(users), s) && Stranded(cleared) == {a.key}
            && Does(c, Refused(users), s, cleared)
            && Does(c, Replaced([]), s, unlimited) && Stranded(unlimited) == {a.key}
  {
    hide PartialStep, Touched, WantedOf, Rejected;
    var n := Node(Store(map[a.key := a], map[a.email := a.key]), map[]);
    KickedStaysOut(c, users, a, p);
    TouchedIsNamed(users);
    OnePeerOut(n, a);
    assert Names([]) == {};
    assert {a.email} - Names(users) == {};
    assert PrefixesFree(n.store, Touched(users), WantedOf(c, users));
  }

  lemma OnePeerOut(n: Node, a: PeerInfo)
    requires n == Node(Store(map[a.key := a], map[a.email := a.key]), map[]) && Buildable(a)
    ensures Thinned(n) && Out(n) == {a.key}
    ensures forall marked, limited ::
              Stranded(Limited(n, marked, limited)) == if a.email in marked && a.email in limited then {} else {a.key}
  {
    forall marked, limited
      ensures Stranded(Limited(n, marked, limited)) == if a.email in marked && a.email in limited then {} else {a.key}
    {
      assert forall k :: k in Out(n) <==> k == a.key;
      assert forall k :: k in Stranded(Limited(n, marked, limited)) <==>
                         k == a.key && !(a.email in marked && a.email in limited);
    }
  }

  lemma NotStranded(s: Limited, k: Key)
    requires Stranded(s) == {}
    ensures k !in Stranded(s)
    ensures k in Out(s.node) ==> k in s.node.store.peers && Awaited(s, s.node.store.peers[k].email)
  {
    assert k !in Stranded(s);
  }

  /** In every run of syncs, restarts and limiter passes the kernel holds exactly the stored peers that are
      not missing, each as stored; and if every request spares the missing peers, all their users stay
      marked and limited, so that the limiter will re-admit them. */
  lemma {:induction false} RunStrandsNobody(c: Config, calls: seq<Call>, ss: seq<Limited>)
    requires IsLimitedRun(c, calls, ss)
    ensures Thinned(ss[|calls|].node)
    ensures Stranded(ss[0]) == {} && (forall i :: 0 <= i < |calls| ==> Spares(c, calls[i], ss[i])) ==>
              Stranded(ss[|calls|]) == {}
    decreases |calls|
  {
    hide Thinned, Does, Takes, Stranded, Spares, Inverse;
    if calls != [] {
      CallKeepsThinned(c, calls[0], ss[0], ss[1]);
      if Stranded(ss[0]) == {} {
        CallStrandsNobodyIff(c, calls[0], ss[0], ss[1]);
      }
      var rest, more := ss[1..], calls[1..];
      forall i | 0 <= i < |more|
        ensures Inverse(rest[i].node.store) && Does(c, more[i], rest[i], rest[i + 1]) && Takes(c, more[i], rest[i])
        ensures Spares(c, more[i], rest[i]) <==> Spares(c, calls[i + 1], ss[i + 1])
      {
        assert Inverse(ss[i + 1].node.store) && Does(c, calls[i + 1], ss[i + 1], ss[i + 2])
                && Takes(c, calls[i + 1], ss[i + 1]);
      }
      RunStrandsNobody(c, more, rest);
    }
  }

  // ----- Runs of passes -----

  ghost predicate OnlyPasses(calls: seq<Call>) {
    forall i :: 0 <= i < |calls| ==> calls[i].Pass?
  }

  ghost predicate NeverKicks(calls: seq<Call>, e: Email)
    requires OnlyPasses(calls)
  {
    forall i :: 0 <= i < |calls| ==> e !in calls[i].kicks
  }

  /** Some pass re-admits the user and no later one kicks it. */
  ghost predicate BringsBack(calls: seq<Call>, e: Email)
    requires OnlyPasses(calls)
  {
    exists i :: 0 <= i < |calls| && e in calls[i].readmits && NeverKicks(calls[i + 1..], e)
  }

  lemma FirstPass(calls: seq<Call>, e: Email)
    requires calls != [] && OnlyPasses(calls)
    ensures OnlyPasses(calls[1..])
    ensures NeverKicks(calls, e) <==> e !in calls[0].kicks && NeverKicks(calls[1..], e)
    ensures BringsBack(calls, e) <==> BringsBack(calls[1..], e) || (e in calls[0].readmits && NeverKicks(calls[1..], e))
  {
    var rest := calls[1..];
    if NeverKicks(rest, e) {
      forall i | 1 <= i < |calls|
        ensures e !in calls[i].kicks
      {
        assert calls[i] == rest[i - 1];
      }
    }
    if i :| 0 <= i < |rest| && e in rest[i].readmits && NeverKicks(rest[i + 1..], e) {
      assert calls[i + 1..][1..] == rest[i + 1..] && calls[i + 1] == rest[i];
      assert calls[(i + 1) + 1..] == rest[i + 1..];
    }
    if i :| 1 <= i < |calls| && e in calls[i].readmits && NeverKicks(calls[i + 1..], e) {
      assert calls[i + 1..] == rest[i..] && rest[i - 1] == calls[i];
      assert rest[(i - 1) + 1..] == calls[i + 1..];
    }
  }

  lemma RestIsRun(c: Config, calls: seq<Call>, ss: seq<Limited>)
    requires IsLimitedRun(c, calls, ss) && calls != [] && Thinned(ss[1].node)
    ensures IsLimitedRun(c, calls[1..], ss[1..])
  {
    hide Thinned, Does, Takes, Inverse;
    var rest, more := ss[1..], calls[1..];
    forall i | 0 <= i < |more|
      ensures Inverse(rest[i].node.store) && Does(c, more[i], rest[i], rest[i + 1]) && Takes(c, more[i], rest[i])
    {
      assert Inverse(ss[i + 1].node.store) && Does(c, calls[i + 1], ss[i + 1], ss[i + 2])
              && Takes(c, calls[i + 1], ss[i + 1]);
    }
  }

  lemma PassMissesAt(c: Config, call: Call, s: Limited, s': Limited, k: Key)
    requires Thinned(s.node) && Does(c, call, s, s') && call.Pass? && k in s.node.store.peers
    ensures Thinned(s'.node) && s'.node.store == s.node.store
    ensures var e := s.node.store.peers[k].email;
            && !(e in call.kicks && e in call.readmits)
            && (k in s'.node.kernel <==> e !in call.kicks && (k in s.node.kernel || e in call.readmits))
  {
    PassMisses(c, call, s, s');
    assert k in Out(s'.node) <==> MissingAfter(c, call, s, k);
    hide Thinned, ActedOn, ListsOnce;
  }

  /** Over a run of passes a stored peer ends in the kernel if and only if some pass re-admits its user and no
      later one kicks it, or it was in the kernel and none kicks its user. */
  lemma {:induction false} PassesServeIff(c: Config, calls: seq<Call>, ss: seq<Limited>, k: Key)
    requires IsLimitedRun(c, calls, ss) && OnlyPasses(calls) && k in ss[0].node.store.peers
    ensures ss[|calls|].node.store == ss[0].node.store
    ensures var e := ss[0].node.store.peers[k].email;
            k in ss[|calls|].node.kernel <==>
            BringsBack(calls, e) || (k in ss[0].node.kernel && NeverKicks(calls, e))
    decreases |calls|
  {
    hide Thinned, Does, Takes, BringsBack, NeverKicks;
    if calls == [] {
      NoPass(ss[0].node.store.peers[k].email);
    } else {
      assert calls[0].Pass? && Inverse(ss[0].node.store);
      PassMissesAt(c, calls[0], ss[0], ss[1], k);
      FirstPass(calls, ss[0].node.store.peers[k].email);
      RestIsRun(c, calls, ss);
      PassesServeIff(c, calls[1..], ss[1..], k);
    }
  }

  lemma NoPass(e: Email)
    ensures NeverKicks([], e) && !BringsBack([], e)
  {
  }

  /** A pass that does not kick its user leaves a stranded peer stranded. */
  lemma PassLeavesStranded(c: Config, call: Call, s: Limited, s': Limited, k: Key)
    requires Thinned(s.node) && Does(c, call, s, s') && call.Pass? && k in Stranded(s)
    requires s.node.store.peers[k].email !in call.kicks
    ensures Thinned(s'.node) && s'.node.store == s.node.store && k in Stranded(s')
  {
    PassMisses(c, call, s, s');
    assert k in Out(s'.node) <==> MissingAfter(c, call, s, k);
    hide Thinned, ActedOn, ListsOnce, Out;
  }

  /** A stranded peer can come back all the same: if its user is kicked once more, and then re-admitted. */
  lemma StrandedReturns(c: Config, s: Limited, k: Key)
    requires Thinned(s.node) && k in Stranded(s)
    requires var e := s.node.store.peers[k].email; e !in s.marked && e in s.limited
    ensures var e := s.node.store.peers[k].email;
            exists mid, end :: Does(c, Pass({e}, {}), s, mid) && Inverse(mid.node.store)
                               && Does(c, Pass({}, {e}), mid, end) && k in end.node.kernel
  {
    var e := s.node.store.peers[k].email;
    OwnedKey(s.node.store, k, e);
    var mid := Limited(s.node.(kernel := ActedOn(s.node, {e}, [e])), s.marked + {e}, s.limited);
    var end := Limited(mid.node.(kernel := ActedOn(mid.node, {}, [e])), s.marked, s.limited);
    assert ListsOnce([e], {e}, {}) && ListsOnce([e], {}, {e});
    hide ActedOn, Thinned, Out, ListsOnce;
    assert Inverse(s.node.store) by {
      ThinnedIsSound(s.node);
    }
    assert Does(c, Pass({e}, {}), s, mid);
    assert Does(c, Pass({}, {e}), mid, end);
    PassMissesAt(c, Pass({e}, {}), s, mid, k);
    PassMissesAt(c, Pass({}, {e}), mid, end, k);
  }

  // ----- Why a stranded peer stays out -----

  /** A node with all that its limiter remembers. */
  datatype Watched = Watched(node: Node, memory: PeerIpLimit.Memory)

  function LimitedOf(w: Watched): Limited {
    Limited(w.node, w.memory.kicked.Keys, w.memory.limits.Keys)
  }

  /** A poll shows the endpoints of peers that are in the kernel, and of no others. */
  ghost predicate ShowsServed(n: Node, active: map<Email, set<string>>) {
    forall e :: PeerIpLimit.ActiveOf(active, e) != {} ==> e in n.store.emailToKey && n.store.emailToKey[e] in n.kernel
  }

  ghost predicate PollDone(w: Watched, w': Watched, kicks: set<Email>, readmits: set<Email>) {
    exists now, active, refused ::
      && w.memory.clock <= now && ShowsServed(w.node, active)
      && PeerIpLimit.Polled(w.memory, w'.memory, now, active, w.node.store.emailToKey.Keys, refused, kicks, readmits)
  }

  /** What each call does to the node and to the limiter's memory: only polls see anything. */
  ghost predicate Changes(c: Config, call: Call, w: Watched, w': Watched)
    requires Inverse(w.node.store)
  {
    && Does(c, call, LimitedOf(w), LimitedOf(w'))
    && if call.Pass? then PollDone(w, w', call.kicks, call.readmits)
       else w'.memory.lastSeen == w.memory.lastSeen && w'.memory.clock == w.memory.clock
  }

  /** Nothing was lately seen of the users whose peers are missing. */
  ghost predicate MissingAreQuiet(w: Watched) {
    forall k :: k in Out(w.node) && k in w.node.store.peers ==>
      PeerIpLimit.Quiet(w.memory, w.node.store.peers[k].email)
  }

  /** A partial request does not give a missing peer's key to another user. */
  ghost predicate HandsOverNone(c: Config, call: Call, n: Node) {
    call.Named? ==> forall e :: e in WantedOf(c, call.users) && WantedOf(c, call.users)[e].key in Out(n) ==>
      WantedOf(c, call.users)[e].key in n.store.peers && n.store.peers[WantedOf(c, call.users)[e].key].email == e
  }

  lemma NotShown(n: Node, active: map<Email, set<string>>, k: Key)
    requires Inverse(n.store) && ShowsServed(n, active) && k in Out(n)
    ensures k in n.store.peers && PeerIpLimit.ActiveOf(active, n.store.peers[k].email) == {}
  {
  }

  lemma PolledKeepsQuiet(w: Watched, w': Watched, kicks: set<Email>, readmits: set<Email>, k: Key)
    requires Inverse(w.node.store) && PollDone(w, w', kicks, readmits) && k in w.node.store.peers
    requires k in Out(w.node) ==> PeerIpLimit.Quiet(w.memory, w.node.store.peers[k].email)
    ensures var e := w.node.store.peers[k].email;
            if k in Out(w.node) then e !in kicks && PeerIpLimit.Quiet(w'.memory, e)
            else e in kicks ==> PeerIpLimit.Quiet(w'.memory, e)
  {
    hide PeerIpLimit.Polled, PeerIpLimit.Quiet, ShowsServed;
    var e, stored := w.node.store.peers[k].email, w.node.store.emailToKey.Keys;
    var now, active, refused :| w.memory.clock <= now && ShowsServed(w.node, active)
      && PeerIpLimit.Polled(w.memory, w'.memory, now, active, stored, refused, kicks, readmits);
    if k in Out(w.node) {
      NotShown(w.node, active, k);
      PeerIpLimit.QuietIsSpared(w.memory, w'.memory, now, active, stored, refused, kicks, readmits, e);
    } else if e in kicks {
      PeerIpLimit.ActedOnIsQuiet(w.memory, w'.memory, now, active, stored, refused, kicks, readmits, e);
    }
  }

  lemma PollKeepsQuiet(c: Config, call: Call, w: Watched, w': Watched, k: Key)
    requires Thinned(w.node) && call.Pass? && Changes(c, call, w, w') && MissingAreQuiet(w)
    requires k in w.node.store.peers
    ensures w'.node.store == w.node.store
    ensures k in Out(w.node) ==> w.node.store.peers[k].email !in call.kicks
    ensures k in Out(w'.node) ==> PeerIpLimit.Quiet(w'.memory, w.node.store.peers[k].email)
  {
    hide PollDone, ActedOn, ListsOnce, PeerIpLimit.Quiet;
    PolledKeepsQuiet(w, w', call.kicks, call.readmits, k);
    PassMissesAt(c, call, LimitedOf(w), LimitedOf(w'), k);
  }

  lemma KeyKeepsUser(c: Config, call: Call, n: Node, n': Node, k: Key)
    requires Inverse(n.store) && call.Named? && PartialStep(c, call.users, n, n') && HandsOverNone(c, call, n)
    requires k in Out(n) && k in n'.store.peers
    ensures k in n.store.peers && n'.store.peers[k].email == n.store.peers[k].email
  {
    hide KernelAfter, ByEmail, Updated, ExistingOf, TargetOf, Touched, WantedOf, WellDesired;
    var touched, w := Touched(call.users), WantedOf(c, call.users);
    PartialFacts(c, call.users, n, n');
    KeyAfterUpdate(n.store, touched, w, n'.store, k);
    InTarget(w, k);
  }

  lemma SameQuiet(m: PeerIpLimit.Memory, m': PeerIpLimit.Memory, e: Email)
    requires m'.lastSeen == m.lastSeen && m'.clock == m.clock
    ensures PeerIpLimit.Quiet(m', e) <==> PeerIpLimit.Quiet(m, e)
  {
  }

  /** Nothing is seen of a missing peer, so its user stays quiet through every call that does not give the
      key to somebody else. */
  lemma CallKeepsQuiet(c: Config, call: Call, w: Watched, w': Watched)
    requires Thinned(w.node) && Changes(c, call, w, w') && Takes(c, call, LimitedOf(w))
    requires MissingAreQuiet(w) && HandsOverNone(c, call, w.node)
    ensures Thinned(w'.node) && MissingAreQuiet(w')
  {
    CallKeepsThinned(c, call, LimitedOf(w), LimitedOf(w'));
    forall k | k in Out(w'.node) && k in w'.node.store.peers
      ensures PeerIpLimit.Quiet(w'.memory, w'.node.store.peers[k].email)
    {
      MissingStaysQuiet(c, call, w, w', k);
    }
  }

  lemma MissingStaysQuiet(c: Config, call: Call, w: Watched, w': Watched, k: Key)
    requires Thinned(w.node) && Changes(c, call, w, w') && Takes(c, call, LimitedOf(w))
    requires MissingAreQuiet(w) && HandsOverNone(c, call, w.node)
    requires k in Out(w'.node) && k in w'.node.store.peers
    ensures PeerIpLimit.Quiet(w'.memory, w'.node.store.peers[k].email)
  {
    CallKeepsThinned(c, call, LimitedOf(w), LimitedOf(w'));
    assert MissingAfter(c, call, LimitedOf(w), k);
    assert Inverse(w.node.store);
    hide Thinned, PeerIpLimit.Quiet, Takes, PollDone, KernelAfter, Leaves, Passes, RestartStep, HandsOverNone;
    match call
    case Pass(_, _) =>
      PassStore(c, call, w, w');
      PollKeepsQuiet(c, call, w, w', k);
    case Named(users) =>
      KeyKeepsUser(c, call, w.node, w'.node, k);
      SameQuiet(w.memory, w'.memory, w.node.store.peers[k].email);
    case Whole(users) =>
      UnchangedStore(c, users, w.node, w'.node, k);
      SameQuiet(w.memory, w'.memory, w.node.store.peers[k].email);
    case Refused(_) => SameQuiet(w.memory, w'.memory, w.node.store.peers[k].email);
    case Replaced(_) => SameQuiet(w.memory, w'.memory, w.node.store.peers[k].email);
    case _ =>
  }

  lemma PassStore(c: Config, call: Call, w: Watched, w': Watched)
    requires Inverse(w.node.store) && call.Pass? && Changes(c, call, w, w')
    ensures w'.node.store == w.node.store
  {
    hide ActedOn, PollDone, ListsOnce;
  }

  ghost predicate IsWatchedRun(c: Config, calls: seq<Call>, ws: seq<Watched>) {
    && |ws| == |calls| + 1
    && Thinned(ws[0].node) && MissingAreQuiet(ws[0])
    && forall i :: 0 <= i < |calls| ==>
         && Inverse(ws[i].node.store) && Changes(c, calls[i], ws[i], ws[i + 1])
         && Takes(c, calls[i], LimitedOf(ws[i])) && HandsOverNone(c, calls[i], ws[i].node)
  }

  lemma {:induction false} RunKeepsQuiet(c: Config, calls: seq<Call>, ws: seq<Watched>, n: nat)
    requires IsWatchedRun(c, calls, ws) && n <= |calls|
    ensures Thinned(ws[n].node) && MissingAreQuiet(ws[n])
    decreases n
  {
    hide Thinned, MissingAreQuiet, Changes, Takes, HandsOverNone, Inverse;
    if n > 0 {
      RunKeepsQuiet(c, calls, ws, n - 1);
      CallKeepsQuiet(c, calls[n - 1], ws[n - 1], ws[n]);
    }
  }

  /** In every run of calls that starts with nothing lately seen of the missing peers' users, as when none is
      missing, and that gives no missing peer's key to another user, no pass kicks the user of a missing peer,
      and none brings a stranded peer back. */
  lemma StrandedStaysOut(c: Config, calls: seq<Call>, ws: seq<Watched>, i: nat, k: Key)
    requires IsWatchedRun(c, calls, ws) && i < |calls| && calls[i].Pass?
    requires k in Stranded(LimitedOf(ws[i]))
    ensures ws[i].node.store.peers[k].email !in calls[i].kicks
    ensures ws[i + 1].node.store == ws[i].node.store && k in Stranded(LimitedOf(ws[i + 1]))
  {
    RunKeepsQuiet(c, calls, ws, i);
    assert Inverse(ws[i].node.store) && Changes(c, calls[i], ws[i], ws[i + 1]) && Takes(c, calls[i], LimitedOf(ws[i]));
    hide Thinned, MissingAreQuiet, IsWatchedRun, Takes, PollDone, HandsOverNone;
    PollKeepsQuiet(c, calls[i], ws[i], ws[i + 1], k);
    PassLeavesStranded(c, calls[i], LimitedOf(ws[i]), LimitedOf(ws[i + 1]), k);
  }

  // ----- The entry points -----

  function LimitsOf(users: seq<User>): seq<(Email, nat)> {
    seq(|users|, i requires 0 <= i < |users| => (users[i].email, users[i].ipLimit))
  }

  lemma NamedInLimits(users: seq<User>, e: Email)
    ensures e in Names(users) <==> e != "" && exists u :: u in LimitsOf(users) && u.0 == e
  {
    if e in Names(users) {
      var i :| 0 <= i < |users| && users[i].email == e;
      assert LimitsOf(users)[i].0 == e;
    }
  }

  lemma {:induction false} RememberedKeys(limits: map<Email, nat>, users: seq<User>)
    ensures PeerIpLimit.Remembered(limits, LimitsOf(users)).Keys == limits.Keys + Names(users)
    decreases |users|
  {
    if users != [] {
      var init, last := users[..|users| - 1], users[|users| - 1];
      assert users == init + [last];
      RememberedKeys(limits, init);
      assert LimitsOf(users)[..|users| - 1] == LimitsOf(init);
      assert Names(users) == Names(init) + if last.email != "" then {last.email} else {};
    }
  }

  /** users[i] is the last entry that names an email. */
  ghost predicate LastNamed(users: seq<User>, i: int, e: Email) {
    0 <= i < |users| && users[i].email == e && e != "" && forall j :: i < j < |users| ==> users[j].email != e
  }

  /** The limits after a request: of every user it names, with or without credentials, the device limit of its
      last entry; of any other the one before. */
  lemma LimitsMean(limits: map<Email, nat>, users: seq<User>, e: Email)
    ensures var after := PeerIpLimit.Remembered(limits, LimitsOf(users));
            && (e in after <==> e in limits || e in Names(users))
            && (forall i :: LastNamed(users, i, e) ==> e in after && after[e] == users[i].ipLimit)
            && (e !in Names(users) && e in limits ==> e in after && after[e] == limits[e])
  {
    RememberedKeys(limits, users);
    PeerIpLimit.RememberedMeans(limits, LimitsOf(users), e);
    hide PeerIpLimit.Remembered;
    forall i | LastNamed(users, i, e)
      ensures PeerIpLimit.LastListed(LimitsOf(users), i, e)
    {
      assert forall j :: 0 <= j < |users| ==> LimitsOf(users)[j].0 == users[j].email;
    }
    if e !in Names(users) && e != "" {
      forall i | 0 <= i < |users|
        ensures LimitsOf(users)[i].0 != e
      {
        assert users[i] in users;
      }
    }
  }

  /** The limits at startup: of every email with a usable entry the device limit of its last one. */
  lemma StartLimitsMean(users: seq<User>, e: Email)
    ensures e in StartLimits(users) <==> exists i :: LastEntry(users, i, e)
    ensures forall i :: LastEntry(users, i, e) ==> e in StartLimits(users) && StartLimits(users)[e] == users[i].ipLimit
  {
    LastIsStored(users, e);
    hide LastEntry, LastByEmail;
  }

  /** The limit of every email with a usable entry: the last one's. */
  function StartLimits(users: seq<User>): map<Email, nat> {
    var m := LastByEmail(users);
    map e | e in m :: m[e].ipLimit
  }

  lemma DistinctLimits(users: seq<User>)
    requires forall i, j :: 0 <= i < j < |users| ==> users[i].email != users[j].email
    requires forall i :: 0 <= i < |users| ==> users[i].email != ""
    ensures var limits := PeerIpLimit.Remembered(map[], LimitsOf(users));
            && limits.Keys == Names(users)
            && forall i :: 0 <= i < |users| ==> users[i].email in limits && limits[users[i].email] == users[i].ipLimit
  {
    hide PeerIpLimit.Remembered, LimitsOf;
    RememberedKeys(map[], users);
    forall i | 0 <= i < |users|
      ensures var limits := PeerIpLimit.Remembered(map[], LimitsOf(users));
              users[i].email in limits && limits[users[i].email] == users[i].ipLimit
    {
      assert LastNamed(users, i, users[i].email);
      hide LastNamed, Names;
      LimitsMean(map[], users, users[i].email);
    }
  }

  lemma ListedLimits(normalized: seq<User>, users: seq<User>)
    requires Lists(normalized, LastByEmail(users))
    ensures PeerIpLimit.Remembered(map[], LimitsOf(normalized)) == StartLimits(users)
  {
    hide PeerIpLimit.Remembered, LimitsOf;
    var m := LastByEmail(users);
    forall i | 0 <= i < |normalized|
      ensures normalized[i].email in m && m[normalized[i].email] == normalized[i] && normalized[i].email != ""
    {
      assert normalized[i] in normalized;
    }
    DistinctLimits(normalized);
    forall e | e in m
      ensures e in Names(normalized) && PeerIpLimit.Remembered(map[], LimitsOf(normalized))[e] == m[e].ipLimit
    {
      assert m[e] in normalized;
    }
  }

  /** A node whose store and kernel hold exactly the wanted peers has none missing. */
  lemma StartedIsThinned(c: Config, users: seq<User>, n: Node)
    requires Inverse(n.store) && WellDesired(WantedOf(c, users))
    requires ByEmail(n.store) == WantedOf(c, users) && Agree(n)
    ensures Thinned(n) && Out(n) == {}
  {
    hide WellDesired, ByEmail, TargetOf, WantedOf, Disjoint, Inverse;
    TargetIsTable(n.store, WantedOf(c, users));
    TargetTable(WantedOf(c, users));
  }

  lemma AcceptedIsWellDesired(c: Config, users: seq<User>)
    requires !Rejected(c, users)
    ensures WellDesired(WantedOf(c, users))
  {
    UnconflictedIsWellDesired(c, LastByEmail(users));
  }

  lemma NoneOut(w: Watched)
    requires Out(w.node) == {}
    ensures Stranded(LimitedOf(w)) == {} && MissingAreQuiet(w)
  {
  }

  /** The limits are replaced, and nothing is seen and no mark cleared. */
  ghost predicate LimitsReplaced(m: PeerIpLimit.Memory, m': PeerIpLimit.Memory, users: seq<User>) {
    m'.kicked == m.kicked && m'.limits.Keys == Names(users) && m'.lastSeen == m.lastSeen && m'.clock == m.clock
  }

  lemma NamedThenRestarted(c: Config, users: seq<User>, w: Watched, w': Watched)
    requires Inverse(w.node.store) && SyncRuns.Step(c, PartialRestart(users), w.node, w'.node)
    requires LimitsReplaced(w.memory, w'.memory, users)
    ensures Changes(c, NamedAndRestart(users), w, w')
  {
    hide SyncRuns.Step, Names, Inverse;
  }

  lemma OnlyLimits(c: Config, users: seq<User>, w: Watched, w': Watched)
    requires Inverse(w.node.store) && w'.node == w.node && LimitsReplaced(w.memory, w'.memory, users)
    ensures Changes(c, Replaced(users), w, w')
  {
    hide Names, Inverse;
  }

  lemma WholeDone(c: Config, users: seq<User>, w: Watched, w': Watched)
    requires Inverse(w.node.store) && FullStep(c, users, w.node, w'.node)
    requires LimitsReplaced(w.memory, w'.memory, users)
    ensures Changes(c, Whole(users), w, w')
  {
    hide FullStep, Names, Inverse;
  }

  /** A node with its limiter. */
  class LimitedWireGuard {
    const wg: WireGuard.WireGuard
    const limiter: PeerIpLimit.Limiter

    ghost function View(): Watched
      reads wg.peerStore, wg.manager, limiter
    {
      Watched(wg.View(), limiter.Recalls())
    }

    ghost predicate Valid()
      reads wg.peerStore, limiter
    {
      wg.Valid() && limiter.Valid()
    }

    constructor (wg: WireGuard.WireGuard)
      requires wg.Valid()
      ensures this.wg == wg && fresh(limiter) && Valid() && LimitedOf(View()) == Limited(wg.View(), {}, {})
    {
      this.wg := wg;
      limiter := new PeerIpLimit.Limiter();
    }

    /** Startup: the limits are remembered, then the wanted peers set up. A node that starts has no peer
        missing, so nobody is stranded and every run from here is one the theorems above speak of. */
    method Start(users: seq<User>, failsAt: Option<nat>)
      requires Valid() && !wg.running && wg.View() == Node(EMPTY, map[])
      modifies wg, wg.peerStore, wg.manager, limiter
      ensures wg.running <==> !Rejected(wg.config, users) && failsAt.None?
      ensures wg.running ==> Valid() && ByEmail(wg.peerStore.View()) == WantedOf(wg.config, users)
      ensures wg.running ==> Thinned(wg.View()) && Out(wg.View()) == {}
      ensures wg.running ==> Stranded(LimitedOf(View())) == {} && MissingAreQuiet(View())
      ensures limiter.limits == StartLimits(users) && limiter.kicked == old(limiter.kicked)
    {
      hide Thinned, WantedOf, Rejected, ByEmail, Inverse, Agree, StartLimits, LimitsOf, PeerIpLimit.Remembered,
        PeerIpLimit.WindowOk, PeerIpLimit.StrikesOk, Stranded, MissingAreQuiet;
      var normalized := NormalizeUsers(users);
      ListedLimits(normalized, users);
      limiter.RememberLimits(LimitsOf(normalized), true);
      wg.Start(users, failsAt);
      if wg.running {
        AcceptedIsWellDesired(wg.config, users);
        StartedIsThinned(wg.config, users, wg.View());
        NoneOut(View());
      }
    }

    method SyncUser(user: User, failsAt: Option<nat>) returns (r: WireGuard.Outcome)
      requires Valid()
      modifies wg.peerStore, wg.manager, wg.statsTracker, limiter
      ensures Valid()
      ensures r.Done? ==> Changes(wg.config, Named([user]), old(View()), View())
      ensures r.ConflictingRequest? || r.KeyOwnedElsewhere? || r.NotReady? ==>
                Changes(wg.config, Refused([user]), old(View()), View())
      ensures !r.BadPeer? && (r.KernelFailed? ==> failsAt.Some?)
    {
      r := UpdateUsers([user], failsAt);
    }

    method UpdateUsers(users: seq<User>, failsAt: Option<nat>) returns (r: WireGuard.Outcome)
      requires Valid()
      modifies wg.peerStore, wg.manager, wg.statsTracker, limiter
      ensures Valid()
      ensures r.Done? ==> Changes(wg.config, Named(users), old(View()), View())
      ensures r.ConflictingRequest? || r.KeyOwnedElsewhere? || r.NotReady? ==>
                Changes(wg.config, Refused(users), old(View()), View())
      ensures !r.BadPeer? && (r.KernelFailed? ==> failsAt.Some?)
      ensures limiter.limits == PeerIpLimit.Remembered(old(limiter.limits), LimitsOf(users))
    {
      hide PartialStep, Names, Inverse, PeerIpLimit.Remembered, PeerIpLimit.WindowOk, PeerIpLimit.StrikesOk;
      ghost var marked, limits := limiter.kicked.Keys, limiter.limits;
      limiter.RememberLimits(LimitsOf(users), false);
      forall e
        ensures e in limiter.kicked.Keys <==> e in marked - Names(users)
      {
        NamedInLimits(users, e);
      }
      RememberedKeys(limits, users);
      r := wg.SyncUsersPartialReconcile(users, failsAt);
    }

    method SyncUsers(users: seq<User>, failsAt: Option<nat>) returns (r: WireGuard.Outcome)
      requires Valid()
      modifies wg.peerStore, wg.manager, wg.statsTracker, limiter
      ensures Valid()
      ensures r.Done? ==> Changes(wg.config, Whole(users), old(View()), View())
      ensures r.ConflictingRequest? || r.NotReady? ==> Changes(wg.config, Replaced(users), old(View()), View())
      ensures !r.BadPeer? && !r.KeyOwnedElsewhere? && (r.KernelFailed? ==> failsAt.Some?)
      ensures limiter.limits == PeerIpLimit.Remembered(map[], LimitsOf(users))
    {
      assert Inverse(wg.View().store);
      hide FullStep, Inverse, PeerIpLimit.Remembered, LimitsOf, PeerIpLimit.WindowOk, PeerIpLimit.StrikesOk, Changes,
        LimitsReplaced;
      ghost var before := View();
      ReplaceLimits(users);
      r := wg.SyncUsersFull(users, failsAt);
      if r.Done? {
        WholeDone(wg.config, users, before, View());
      } else if r.ConflictingRequest? || r.NotReady? {
        OnlyLimits(wg.config, users, before, View());
      }
    }

    method ReplaceLimits(users: seq<User>)
      requires limiter.Valid()
      modifies limiter
      ensures limiter.Valid() && LimitsReplaced(old(limiter.Recalls()), limiter.Recalls(), users)
      ensures limiter.kicked == old(limiter.kicked)
      ensures limiter.limits == PeerIpLimit.Remembered(map[], LimitsOf(users))
    {
      hide Names, PeerIpLimit.Remembered, LimitsOf, PeerIpLimit.WindowOk, PeerIpLimit.StrikesOk;
      limiter.RememberLimits(LimitsOf(users), true);
      RememberedKeys(map[], users);
    }

    /** A partial list replaces all limits here, and no mark is cleared. */
    method UpdateUsersAndRestart(users: seq<User>, failsAt: Option<nat>, restartFailsAt: Option<nat>)
      returns (r: WireGuard.Outcome)
      requires Valid()
      modifies wg.peerStore, wg.manager, wg.statsTracker, limiter
      ensures Valid()
      ensures r.Done? ==> Changes(wg.config, NamedAndRestart(users), old(View()), View())
      ensures r.ConflictingRequest? || r.KeyOwnedElsewhere? ==> Changes(wg.config, Replaced(users), old(View()), View())
      ensures LimitedOf(View()).marked == LimitedOf(old(View())).marked
      ensures limiter.limits == PeerIpLimit.Remembered(map[], LimitsOf(users))
    {
      assert Inverse(wg.View().store);
      hide SyncRuns.Step, Inverse, PeerIpLimit.Remembered, LimitsOf, PeerIpLimit.WindowOk, PeerIpLimit.StrikesOk,
        Changes, LimitsReplaced;
      ghost var before := View();
      ReplaceLimits(users);
      r := ReconcileAndRestart(users, failsAt, restartFailsAt);
      if r.Done? {
        NamedThenRestarted(wg.config, users, before, View());
      } else if r.ConflictingRequest? || r.KeyOwnedElsewhere? {
        OnlyLimits(wg.config, users, before, View());
      }
    }

    method ReconcileAndRestart(users: seq<User>, failsAt: Option<nat>, restartFailsAt: Option<nat>)
      returns (r: WireGuard.Outcome)
      requires wg.Valid()
      modifies wg.peerStore, wg.manager, wg.statsTracker
      ensures wg.Valid()
      ensures r.Done? ==> SyncRuns.Step(wg.config, PartialRestart(users), old(wg.View()), wg.View())
      ensures r.ConflictingRequest? || r.KeyOwnedElsewhere? ==> wg.View() == old(wg.View())
    {
      hide PartialStep, RestartStep, Rejected, KeyTaken;
      r := wg.SyncUsersPartialReconcile(users, failsAt);
      if r != WireGuard.Done {
        return;
      }
      ghost var m := wg.View();
      r := wg.RestartLocked(restartFailsAt);
    }

    /** The pass with its kernel calls; refused are the users whose call fails. */
    method EnforceIpLimits(now: nat, active: map<Email, set<string>>, refused: set<Email>)
      returns (kicks: set<Email>, readmits: set<Email>)
      requires Valid() && limiter.clock <= now && Thinned(wg.View())
      modifies wg.manager, limiter
      ensures Valid()
      ensures PeerIpLimit.Polled(old(limiter.Recalls()), limiter.Recalls(), now, active, wg.peerStore.emailToKey.Keys,
                                 refused, kicks, readmits)
      ensures Does(wg.config, Pass(kicks, readmits), LimitedOf(old(View())), LimitedOf(View()))
      ensures ShowsServed(old(wg.View()), active) ==>
                Changes(wg.config, Pass(kicks, readmits), old(View()), View())
    {
      assert Inverse(wg.View().store);
      hide ActedOn, ConfigFor, ApplyOne, Thinned, Inverse, ShowsServed, PeerIpLimit.WindowOk, PeerIpLimit.StrikesOk,
        PeerIpLimit.ActsOn, PeerIpLimit.Records;
      ghost var m := limiter.Recalls();
      kicks, readmits := limiter.EnforceIpLimits(now, active, wg.peerStore.emailToKey.Keys, refused);
      PeerIpLimit.ActsApart(m, now, active, wg.peerStore.emailToKey.Keys, refused, kicks, readmits);
      PeerIpLimit.MarksAfter(m, limiter.Recalls(), now, active, kicks, readmits);
      ghost var es := ActOnAll(kicks, readmits);
    }

    method ActOnAll(kicks: set<Email>, readmits: set<Email>) returns (ghost es: seq<Email>)
      requires wg.Valid() && kicks + readmits <= wg.peerStore.emailToKey.Keys
      modifies wg.manager
      ensures ListsOnce(es, kicks, readmits)
      ensures forall e :: e in es ==> e in wg.peerStore.emailToKey
      ensures wg.manager.peers == ActedOn(old(wg.View()), kicks, es)
    {
      hide ActedOn, ApplyOne, ConfigFor, Thinned;
      es := [];
      ghost var node := wg.View();
      ActedOnNobody(node, kicks);
      var todo := kicks + readmits;
      while todo != {}
        invariant todo <= kicks + readmits
        invariant forall e :: e in es <==> e in kicks + readmits && e !in todo
        invariant forall i, j :: 0 <= i < j < |es| ==> es[i] != es[j]
        invariant wg.manager.peers == ActedOn(node, kicks, es)
        decreases |todo|
      {
        var e :| e in todo;
        todo := todo - {e};
        ActedOnOneMore(node, kicks, es, e);
        ActOn(e, kicks);
        es := es + [e];
      }
    }

    method ActOn(e: Email, kicks: set<Email>)
      requires wg.Valid() && e in wg.peerStore.emailToKey
      modifies wg.manager
      ensures wg.manager.peers == ApplyOne(old(wg.manager.peers), ConfigFor(wg.peerStore.View(), kicks, e))
    {
      var peer := wg.peerStore.GetByEmail(e);
      var config := if e in kicks then PeerConfig(peer.value.key, true, false, [])
                    else PeerConfig(peer.value.key, false, false, peer.value.allowedIPs);
      assert ApplyAll(wg.manager.peers, [config]) == ApplyOne(wg.manager.peers, config) by {
        assert [config][1..] == [];
      }
      var ok := wg.manager.ApplyPeers([config], None);
    }
  }
}
