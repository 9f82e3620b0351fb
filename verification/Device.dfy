/** The kernel's WireGuard device as the node drives it: a peer table in which every address prefix
    belongs to at most one peer, changed by a list of peer configurations applied in order
    (backend/wireguard/manager.go). */
module Device {
  import opened Prefixes
  import opened PeerStore
  import opened Wrappers

  type Kernel = map<Key, set<Prefix>>

  /** One wgtypes.PeerConfig: the fields the node sets that decide the peer table. */
  datatype PeerConfig = PeerConfig(key: Key, remove: bool, replaceAllowedIPs: bool, allowedIPs: seq<Prefix>)

  function SetOf(ips: seq<Prefix>): set<Prefix> {
    set p | p in ips
  }

  /** A prefix given to one peer is taken from any other. */
  function ApplyOne(d: Kernel, c: PeerConfig): Kernel {
    if c.remove then d - {c.key}
    else
      var had := if c.key in d && !c.replaceAllowedIPs then d[c.key] else {};
      (map k | k in d :: d[k] - SetOf(c.allowedIPs))[c.key := had + SetOf(c.allowedIPs)]
  }

  function ApplyAll(d: Kernel, cs: seq<PeerConfig>): Kernel
    decreases |cs|
  {
    if cs == [] then d else ApplyAll(ApplyOne(d, cs[0]), cs[1..])
  }

  /** No prefix routes to two peers. */
  ghost predicate Exclusive(d: Kernel) {
    forall k, l :: k in d && l in d && k != l ==> d[k] !! d[l]
  }

  lemma {:induction false} ApplyAllKeepsExclusive(d: Kernel, cs: seq<PeerConfig>)
    requires Exclusive(d)
    ensures Exclusive(ApplyAll(d, cs))
    decreases |cs|
  {
    if cs != [] {
      assert Exclusive(ApplyOne(d, cs[0]));
      ApplyAllKeepsExclusive(ApplyOne(d, cs[0]), cs[1..]);
    }
  }

  lemma {:induction false} ApplyAllAppend(d: Kernel, a: seq<PeerConfig>, b: seq<PeerConfig>)
    ensures ApplyAll(d, a + b) == ApplyAll(ApplyAll(d, a), b)
    decreases |a|
  {
    if a == [] {
      assert a + b == b;
    } else {
      assert (a + b)[0] == a[0] && (a + b)[1..] == a[1..] + b;
      ApplyAllAppend(ApplyOne(d, a[0]), a[1..], b);
    }
  }

  /** A list that only sets peers, each at most once, with no prefix named twice. */
  ghost predicate Settings(cs: seq<PeerConfig>) {
    && (forall i :: 0 <= i < |cs| ==> !cs[i].remove)
    && (forall i, j :: 0 <= i < j < |cs| ==>
          cs[i].key != cs[j].key && SetOf(cs[i].allowedIPs) !! SetOf(cs[j].allowedIPs))
  }

  /** The prefixes a list assigns. */
  ghost function Assigned(cs: seq<PeerConfig>): set<Prefix> {
    if cs == [] then {} else SetOf(cs[0].allowedIPs) + Assigned(cs[1..])
  }

  lemma {:induction false} InAssigned(cs: seq<PeerConfig>, p: Prefix)
    ensures p in Assigned(cs) <==> exists c :: c in cs && p in c.allowedIPs
    decreases |cs|
  {
    if cs == [] {
    } else {
      InAssigned(cs[1..], p);
      assert forall c :: c in cs <==> c == cs[0] || c in cs[1..];
    }
  }

  /** A peer the list does not set loses what the list assigned elsewhere and keeps the rest. */
  lemma {:induction false} UnsetPeer(d: Kernel, cs: seq<PeerConfig>, k: Key)
    requires Settings(cs) && forall c :: c in cs ==> c.key != k
    ensures k in ApplyAll(d, cs) <==> k in d
    ensures k in d ==> ApplyAll(d, cs)[k] == d[k] - Assigned(cs)
    decreases |cs|
  {
    if cs != [] {
      assert cs[0] in cs;
      UnsetPeer(ApplyOne(d, cs[0]), cs[1..], k);
    }
  }

  /** What a setting starts from: nothing, unless the peer exists and is not replaced. */
  function Had(d: Kernel, c: PeerConfig): set<Prefix> {
    if c.key in d && !c.replaceAllowedIPs then d[c.key] else {}
  }

  /** A peer the list sets ends with what it was given, on top of what it had and nobody else took. */
  lemma {:induction false} SetPeer(d: Kernel, cs: seq<PeerConfig>, c: PeerConfig)
    requires Settings(cs) && c in cs
    ensures c.key in ApplyAll(d, cs)
    ensures ApplyAll(d, cs)[c.key] == (Had(d, c) - Assigned(cs)) + SetOf(c.allowedIPs)
    decreases |cs|
  {
    var i :| 0 <= i < |cs| && cs[i] == c;
    if i == 0 {
      assert forall x :: x in cs[1..] ==> x.key != c.key;
      UnsetPeer(ApplyOne(d, c), cs[1..], c.key);
      forall p | p in Assigned(cs[1..])
        ensures p !in SetOf(c.allowedIPs)
      {
        InAssigned(cs[1..], p);
        var j :| 1 <= j < |cs| && p in cs[j].allowedIPs;
        assert p in SetOf(cs[j].allowedIPs);
      }
    } else {
      assert cs[0].key != c.key && c == cs[1..][i - 1];
      SetPeer(ApplyOne(d, cs[0]), cs[1..], c);
      var had1 := Had(ApplyOne(d, cs[0]), c);
      assert had1 - Assigned(cs[1..]) == Had(d, c) - Assigned(cs);
    }
  }

  /** A list of removals only removes. */
  lemma {:induction false} RemovalsOnly(d: Kernel, cs: seq<PeerConfig>)
    requires forall c :: c in cs ==> c.remove
    ensures ApplyAll(d, cs) == d - (set c | c in cs :: c.key)
    decreases |cs|
  {
    if cs == [] {
    } else {
      assert cs[0] in cs;
      RemovalsOnly(d - {cs[0].key}, cs[1..]);
      assert (set c | c in cs :: c.key) == {cs[0].key} + (set c | c in cs[1..] :: c.key) by {
        assert forall c :: c in cs <==> c == cs[0] || c in cs[1..];
      }
    }
  }

  lemma ApplyOneMore(d: Kernel, cs: seq<PeerConfig>, i: nat)
    requires i < |cs|
    ensures ApplyAll(d, cs[..i + 1]) == ApplyOne(ApplyAll(d, cs[..i]), cs[i])
  {
    hide ApplyOne;
    ApplyAllAppend(d, cs[..i], [cs[i]]);
    assert cs[..i + 1] == cs[..i] + [cs[i]];
    assert [cs[i]][1..] == [];
  }

  /** What a call leaves, failed or not: some first part of its list applied. */
  ghost predicate AppliedPart(before: Kernel, cs: seq<PeerConfig>, after: Kernel) {
    exists n :: 0 <= n <= |cs| && after == ApplyAll(before, cs[..n])
  }

  /** The manager's two configure calls. A call that fails has applied some first part of the list. */
  class Manager {
    var peers: Kernel

    constructor ()
      ensures peers == map[]
    {
      peers := map[];
    }

    method ApplyPeers(configs: seq<PeerConfig>, failsAt: Option<nat>) returns (ok: bool)
      modifies this
      ensures ok <==> configs == [] || failsAt.None?
      ensures ok ==> peers == ApplyAll(old(peers), configs)
      ensures AppliedPart(old(peers), configs, peers)
      ensures old(Exclusive(peers)) ==> Exclusive(peers)
    {
      assert configs[..0] == [];
      if |configs| == 0 {
        return true;
      }
      ok := Configure(configs, failsAt);
    }

    method ApplyPeersReplaceAll(configs: seq<PeerConfig>, failsAt: Option<nat>) returns (ok: bool)
      modifies this
      ensures ok <==> failsAt.None?
      ensures ok ==> peers == ApplyAll(map[], configs)
      ensures AppliedPart(map[], configs, peers)
      ensures old(Exclusive(peers)) ==> Exclusive(peers)
    {
      peers := map[];
      ok := Configure(configs, failsAt);
    }

    method Configure(configs: seq<PeerConfig>, failsAt: Option<nat>) returns (ok: bool)
      modifies this
      ensures ok <==> failsAt.None?
      ensures ok ==> peers == ApplyAll(old(peers), configs)
      ensures AppliedPart(old(peers), configs, peers)
      ensures old(Exclusive(peers)) ==> Exclusive(peers)
    {
      for i := 0 to |configs|
        invariant peers == ApplyAll(old(peers), configs[..i])
        invariant ApplyAll(peers, configs[i..]) == ApplyAll(old(peers), configs)
        invariant old(Exclusive(peers)) ==> Exclusive(peers)
      {
        if failsAt == Some(i) {
          return false;
        }
        ghost var before := peers;
        peers := ApplyOne(peers, configs[i]);
        ApplyOneMore(old(peers), configs, i);
        assert Exclusive(before) ==> Exclusive(peers) by {
          assert ApplyAll(before, [configs[i]]) == ApplyAll(peers, []) by {
            assert [configs[i]][1..] == [];
          }
          if Exclusive(before) {
            ApplyAllKeepsExclusive(before, [configs[i]]);
          }
        }
      }
      assert configs[|configs|..] == [];
      assert configs[..|configs|] == configs;
      ok := failsAt.None?;
    }
  }
}
