/** The xray backend: its configuration, the running core and the device limits, kept together by
    backend/xray/user.go, backend/xray/iplimit.go and backend/xray/xray.go. Which emails the core refuses
    to add, how a restart goes and how many devices are online are inputs. */
module Xray {
  import opened Wrappers
  import opened Passwords
  import opened XrayUsers
  import opened XrayConfig
  import opened XrayCore

  type Time = nat

  const COOLDOWN: nat := 60

  /** What the limiter remembers about its users. */
  ghost predicate Remembers(limits: map<Email, nat>, byEmail: map<Email, User>, kicked: map<Email, Time>) {
    && limits.Keys == byEmail.Keys && kicked.Keys <= limits.Keys && "" !in limits
    && forall e :: e in byEmail ==> byEmail[e].email == e && limits[e] == byEmail[e].ipLimit
  }

  function RememberedOf(byEmail: map<Email, User>, users: seq<User>, e: Email): Option<User> {
    if e != "" && LastOf(users, e).Some? then LastOf(users, e)
    else if e in byEmail then Some(byEmail[e])
    else None
  }

  function Recall(byEmail: map<Email, User>, e: Email): Option<User> {
    if e in byEmail then Some(byEmail[e]) else None
  }

  function RunningAt(core: map<Tag, Clients>, t: Tag): Clients {
    if t in core then core[t] else map[]
  }

  /** How a restart goes: the core does not start; it starts and its API answers the status check; or the
      check fails, because the call was given up with the core up, or because the core went down first. */
  datatype Start = NotStarted | Ready | Unready(up: bool)

  predicate Up(start: Start) {
    start.Ready? || (start.Unready? && start.up)
  }

  class Xray {
    const config: Config
    var core: map<Tag, Clients>
    var userLimits: map<Email, nat>
    var userByEmail: map<Email, User>
    var kicked: map<Email, Time>

    /** Users whom a failed call left out of the core although they are configured. */
    ghost var owed: set<Email>

    /** Each non-excluded inbound of the core serves configured clients only, and all of them that are
        neither kicked nor owed. */
    ghost predicate Valid()
      reads this, config.inbounds
    {
      && config.Valid() && config.DistinctTags()
      && Remembers(userLimits, userByEmail, kicked)
      && forall j :: InboundOk(j, kicked.Keys + owed)
    }

    ghost predicate Serving(j: int)
    {
      0 <= j < |config.inbounds| && !config.inbounds[j].spec.exclude
    }

    ghost function SpecAt(j: int): Spec
      requires 0 <= j < |config.inbounds|
    {
      config.inbounds[j].spec
    }

    ghost function ClientsAt(j: int): Clients
      requires 0 <= j < |config.inbounds|
      reads config.inbounds
    {
      config.inbounds[j].clients
    }

    ghost function CoreAt(j: int): Clients
      requires 0 <= j < |config.inbounds|
      reads this`core
    {
      RunningAt(core, config.inbounds[j].spec.tag)
    }

    ghost predicate InboundOk(j: int, out: set<Email>)
      reads this`core, config.inbounds
    {
      Serving(j) ==> CoreOk(SpecAt(j), ClientsAt(j), CoreAt(j), out)
    }

    /** Whether SyncUser(u) comes back with an error. */
    ghost predicate Fails(u: User, refused: Refusals)
      requires IsDigest(config.sum)
    {
      exists j :: Serving(j) && FailsAt(SpecAt(j), u, refused, config.sum)
    }

    ghost predicate FailsFor(byEmail: map<Email, User>, e: Email, refused: Refusals)
      requires IsDigest(config.sum)
    {
      e in byEmail && Fails(byEmail[e], refused)
    }

    /** No inbound of the core serves this email. */
    ghost predicate Absent(e: Email)
      reads this`core
    {
      forall j :: Serving(j) ==> e !in CoreAt(j)
    }

    method RememberUsers(users: seq<User>, replace: bool)
      requires Remembers(userLimits, userByEmail, kicked)
      modifies this`userLimits, this`userByEmail, this`kicked
      ensures Remembers(userLimits, userByEmail, kicked)
      ensures forall e :: Recall(userByEmail, e) == RememberedOf(if replace then map[] else old(userByEmail), users, e)
      ensures kicked == if replace then map[] else old(kicked) - EmailsOf(users)
    {
      hide Remembers, RememberedOf, Recall, EmailsOf;
      if replace {
        Forget();
      }
      ghost var base, was := userByEmail, kicked;
      NobodyNew(base, was);
      for n := 0 to |users|
        invariant Remembers(userLimits, userByEmail, kicked)
        invariant forall e :: Recall(userByEmail, e) == RememberedOf(base, users[..n], e)
        invariant kicked == was - EmailsOf(users[..n])
      {
        ghost var byEmail := userByEmail;
        var u := users[n];
        Remember(u);
        forall e
          ensures Recall(userByEmail, e) == RememberedOf(base, users[..n + 1], e)
        {
          OneMoreRemembered(base, byEmail, userByEmail, users, n, e);
        }
        OneMoreKickCleared(was, users, n, kicked);
      }
      assert users[..|users|] == users;
      if replace {
        assert kicked == map[];
      }
    }

    method Forget()
      modifies this`userLimits, this`userByEmail, this`kicked
      ensures Remembers(userLimits, userByEmail, kicked) && userByEmail == map[] && kicked == map[]
    {
      userLimits, userByEmail, kicked := map[], map[], map[];
    }

    method Remember(u: User)
      requires Remembers(userLimits, userByEmail, kicked)
      modifies this`userLimits, this`userByEmail, this`kicked
      ensures Remembers(userLimits, userByEmail, kicked)
      ensures userByEmail == if u.email == "" then old(userByEmail) else old(userByEmail)[u.email := u]
      ensures kicked == old(kicked) - {u.email}
    {
      if u.email != "" {
        userLimits := userLimits[u.email := u.ipLimit];
        userByEmail := userByEmail[u.email := u];
        kicked := kicked - {u.email};
      }
    }

    /** core.Start or core.Restart: a core that is up holds what serialisation hands it, one that is
        down nothing at all. */
    method Restart(up: bool)
      requires config.Valid() && config.DistinctTags()
      modifies this`core, this`owed
      ensures !up ==> forall j :: Serving(j) ==> CoreAt(j) == map[]
      ensures up ==> forall j :: Serving(j) ==> CoreAt(j) == ClientsAt(j)
      ensures up ==> owed == {}
      ensures forall j :: InboundOk(j, owed)
    {
      hide Typed;
      core := map[];
      for n := 0 to |config.inbounds|
        invariant forall j :: Serving(j) && j < n ==>
                    CoreAt(j) == if !up then map[] else ClientsAt(j)
      {
        var inbound := config.inbounds[n];
        if !inbound.spec.exclude {
          var out := inbound.Serialise();
          core := core[inbound.spec.tag := if !up then map[] else out];
        }
      }
      owed := if !up then Everyone(|config.inbounds|) else {};
      forall j
        ensures InboundOk(j, owed)
      {
        if Serving(j) && !up {
          assert ClientsAt(j).Keys <= Everyone(|config.inbounds|);
        }
      }
    }

    ghost function Everyone(n: nat): (all: set<Email>)
      requires n <= |config.inbounds|
      reads config.inbounds
      ensures forall j :: 0 <= j < n ==> ClientsAt(j).Keys <= all
    {
      if n == 0 then {} else Everyone(n - 1) + ClientsAt(n - 1).Keys
    }

    constructor (config: Config, users: seq<User>)
      requires config.Valid() && config.DistinctTags()
      requires forall j :: 0 <= j < |config.inbounds| ==> config.inbounds[j].clients == map[]
      modifies config.inbounds
      ensures Valid() && kicked == map[] && owed == {} && this.config == config
      ensures forall j :: Serving(j) ==> ClientsAt(j) == Rebuild(SpecAt(j), users, config.sum)
    {
      this.config := config;
      core, userLimits, userByEmail, kicked, owed := map[], map[], map[], map[], {};
      new;
      hide Typed, Rebuild, CoreOk;
      if |users| > 0 {
        config.SyncUsers(users);
        RememberUsers(users, true);
      } else {
        RebuildFromNobody(users);
      }
      Restart(true);
      assert {} == kicked.Keys + owed;
    }

    lemma RebuildFromNobody(users: seq<User>)
      requires users == [] && IsDigest(config.sum)
      ensures forall j :: Serving(j) ==> Rebuild(SpecAt(j), users, config.sum) == map[]
    {
    }

    /** SyncUsers: everybody else is gone, and so are all kicks, once the core is up again. */
    method SyncUsers(users: seq<User>, start: Start) returns (err: bool)
      requires Valid()
      modifies this, config.inbounds
      ensures Valid() && err == !start.Ready?
      ensures forall j :: Serving(j) ==> ClientsAt(j) == Rebuild(SpecAt(j), users, config.sum)
      ensures Up(start) ==> owed == {} && forall j :: Serving(j) ==> CoreAt(j) == ClientsAt(j)
      ensures !Up(start) ==> forall j :: Serving(j) ==> CoreAt(j) == map[]
      ensures err ==> userByEmail == old(userByEmail)
      ensures kicked == if err then old(kicked) else map[]
      ensures forall e :: !err ==> Recall(userByEmail, e) == RememberedOf(map[], users, e)
    {
      hide Typed, Rebuild, CoreOk, RememberedOf, Remembers;
      config.SyncUsers(users);
      Restart(Up(start));
      WiderOut(owed, kicked.Keys + owed);
      if !start.Ready? {
        return true;
      }
      RememberUsers(users, true);
      assert kicked.Keys + owed == owed;
      err := false;
    }

    /** UpdateUsersAndRestart: a batch on the configuration, but the users it does not name are no longer
        remembered by the limiter. */
    method UpdateUsersAndRestart(users: seq<User>, start: Start) returns (err: bool)
      requires Valid()
      modifies this, config.inbounds
      ensures Valid() && err == !start.Ready?
      ensures forall j :: Serving(j) ==> ClientsAt(j) == Batch(SpecAt(j), old(ClientsAt(j)), users, config.sum)
      ensures Up(start) ==> owed == {} && forall j :: Serving(j) ==> CoreAt(j) == ClientsAt(j)
      ensures !Up(start) ==> forall j :: Serving(j) ==> CoreAt(j) == map[]
      ensures err ==> userByEmail == old(userByEmail)
      ensures kicked == if err then old(kicked) else map[]
      ensures forall e :: !err ==> Recall(userByEmail, e) == RememberedOf(map[], users, e)
    {
      hide Typed, Batch, CoreOk, RememberedOf, Remembers;
      config.UpdateUsers(users);
      Restart(Up(start));
      WiderOut(owed, kicked.Keys + owed);
      if !start.Ready? {
        return true;
      }
      RememberUsers(users, true);
      assert kicked.Keys + owed == owed;
      err := false;
    }

    /** The health check restarts the core; the kicks stay on record although the core serves everyone again. */
    method HealthRestart(up: bool)
      requires Valid()
      modifies this`core, this`owed
      ensures Valid()
      ensures up ==> owed == {} && forall j :: Serving(j) ==> CoreAt(j) == ClientsAt(j)
      ensures !up ==> forall j :: Serving(j) ==> CoreAt(j) == map[]
    {
      hide Typed, CoreOk;
      Restart(up);
      WiderOut(owed, kicked.Keys + owed);
    }

    lemma WiderOut(out: set<Email>, more: set<Email>)
      requires out <= more && forall j :: InboundOk(j, out)
      ensures forall j :: InboundOk(j, more)
    {
      forall j
        ensures InboundOk(j, more)
      {
        assert InboundOk(j, out);
      }
    }

    /** Both sides of an inbound after SyncUser, given what they were before. */
    ghost predicate SyncedAt(j: int, was: Clients, wasCore: Clients, user: User, refused: Refusals)
      requires 0 <= j < |config.inbounds| && IsDigest(config.sum)
      reads this`core, config.inbounds
    {
      && ClientsAt(j) == Single(SpecAt(j), was, user, config.sum)
      && CoreAt(j) == CoreSingle(SpecAt(j), wasCore, user, RefusedAt(refused, SpecAt(j).tag), config.sum)
    }

    /** SyncUser on one inbound. */
    method SyncInbound(j: nat, user: User, refused: Refusals, ghost out: set<Email>) returns (failed: bool)
      requires j < |config.inbounds| && Serving(j) && InboundOk(j, out)
      requires IsDigest(config.sum) && config.inbounds[j].sum == config.sum && Typed(SpecAt(j), ClientsAt(j))
      modifies this`core, config.inbounds[j]
      ensures failed <==> FailsAt(SpecAt(j), user, refused, config.sum)
      ensures SyncedAt(j, old(ClientsAt(j)), old(CoreAt(j)), user, refused)
      ensures forall t :: t != SpecAt(j).tag ==> RunningAt(core, t) == RunningAt(old(core), t)
      ensures Typed(SpecAt(j), ClientsAt(j))
      ensures InboundOk(j, if failed then out + {user.email} else out - {user.email})
    {
      var inbound := config.inbounds[j];
      var tag := inbound.spec.tag;
      PathsAgree(inbound.spec, user, config.sum);
      SingleKeepsTyped(inbound.spec, inbound.clients, user, config.sum);
      SingleKeepsCore(inbound.spec, inbound.clients, CoreAt(j), user, RefusedAt(refused, tag), out, config.sum);
      hide Single, CoreSingle, Typed, CoreOk, RefusedAt, FailsAt;
      var running;
      running, failed := SyncBoth(inbound, RunningAt(core, tag), user, refused);
      core := core[tag := running];
    }

    /** On the core the user goes out first; in the configuration it is replaced or removed. */
    method SyncBoth(inbound: Inbound, before: Clients, user: User, refused: Refusals)
      returns (running: Clients, failed: bool)
      requires IsDigest(inbound.sum)
      modifies inbound
      ensures failed <==> FailsAt(inbound.spec, user, refused, inbound.sum)
      ensures inbound.clients == Single(inbound.spec, old(inbound.clients), user, inbound.sum)
      ensures running == CoreSingle(inbound.spec, before, user, RefusedAt(refused, inbound.spec.tag), inbound.sum)
    {
      PathsAgree(inbound.spec, user, inbound.sum);
      hide IsActiveInbound, SetupUserAccount, Rebuilt, Stored, Fits, RefusedAt;
      running, failed := before - {user.email}, false;
      var account := IsActiveInbound(inbound.spec, user.inbounds, SetupUserAccount(user), inbound.sum);
      if account.Some? {
        inbound.UpdateUser(account.value);
        failed := account.value.email in RefusedAt(refused, inbound.spec.tag);
        if !failed {
          running := running[account.value.email := account.value];
        }
      } else {
        inbound.RemoveUser(user.email);
      }
    }

    /** The same with nothing else touched. */
    method SyncAt(j: nat, user: User, refused: Refusals, ghost out: set<Email>) returns (failed: bool)
      requires config.Valid() && config.DistinctTags() && j < |config.inbounds| && Serving(j)
      requires CoreOk(SpecAt(j), ClientsAt(j), CoreAt(j), out)
      modifies this`core, config.inbounds
      ensures config.Valid()
      ensures failed <==> FailsAt(SpecAt(j), user, refused, config.sum)
      ensures SyncedAt(j, old(ClientsAt(j)), old(CoreAt(j)), user, refused)
      ensures CoreOk(SpecAt(j), ClientsAt(j), CoreAt(j), out + {user.email})
      ensures !failed ==> CoreOk(SpecAt(j), ClientsAt(j), CoreAt(j), out - {user.email})
      ensures forall k :: Serving(k) && k != j ==> ClientsAt(k) == old(ClientsAt(k)) && CoreAt(k) == old(CoreAt(k))
      ensures forall k, c, r :: Serving(k) && k != j && old(SyncedAt(k, c, r, user, refused)) ==>
                SyncedAt(k, c, r, user, refused)
    {
      hide Typed, CoreOk, Single, CoreSingle, FailsAt, RefusedAt, RunningAt;
      failed := SyncInbound(j, user, refused, out);
      OutMayGrow(SpecAt(j), ClientsAt(j), CoreAt(j), if failed then out + {user.email} else out - {user.email}, out +
          {user.email});
    }

    /** SyncUser: a single update on every inbound. The user is remembered, and no longer kicked or owed,
        when every inbound took it. */
    method SyncUser(user: User, refused: Refusals) returns (err: bool)
      requires Valid()
      modifies this, config.inbounds
      ensures Valid() && err == Fails(user, refused)
      ensures forall j :: Serving(j) ==>
                SyncedAt(j, old(ClientsAt(j)), old(CoreAt(j)), user, refused)
      ensures kicked == if err then old(kicked) else old(kicked) - {user.email}
      ensures owed == if err then old(owed) + {user.email} else old(owed) - {user.email}
      ensures forall e :: Recall(userByEmail, e) == RememberedOf(old(userByEmail), if err then [] else [user], e)
    {
      hide Typed, CoreOk, Single, CoreSingle, FailsAt, Remembers, RememberedOf, RefusedAt, RunningAt;
      ghost var out := kicked.Keys + owed;
      err := SyncEverywhere(user, refused, out);
      owed := if err then owed + {user.email} else owed - {user.email};
      if !err {
        assert out - {user.email} == (kicked - {user.email}).Keys + owed;
        RememberUsers([user], false);
        assert EmailsOf([user]) == {user.email};
      } else {
        assert out + {user.email} == kicked.Keys + owed;
        NobodyNew(userByEmail, kicked);
      }
    }

    lemma AllOk(out: set<Email>)
      ensures (forall j :: InboundOk(j, out)) <==> forall j :: Serving(j) ==>
                CoreOk(SpecAt(j), ClientsAt(j), CoreAt(j), out)
    {
      hide CoreOk;
      if forall j :: InboundOk(j, out) {
        forall j | Serving(j)
          ensures CoreOk(SpecAt(j), ClientsAt(j), CoreAt(j), out)
        {
          assert InboundOk(j, out);
        }
      }
    }

    method SyncEverywhere(user: User, refused: Refusals, ghost out: set<Email>) returns (err: bool)
      requires config.Valid() && config.DistinctTags() && forall j :: InboundOk(j, out)
      modifies this`core, config.inbounds
      ensures config.Valid() && err == Fails(user, refused)
      ensures err ==> forall j :: InboundOk(j, out + {user.email})
      ensures !err ==> forall j :: InboundOk(j, out - {user.email})
      ensures forall j :: Serving(j) ==>
                SyncedAt(j, old(ClientsAt(j)), old(CoreAt(j)), user, refused)
    {
      assert IsDigest(config.sum);
      hide config.Valid, config.DistinctTags, InboundOk, SpecAt, ClientsAt, CoreAt, CoreOk, SyncedAt, FailsAt;
      err := false;
      ghost var failing := -1;
      AllOk(out);
      for n := 0 to |config.inbounds|
        invariant config.Valid()
        invariant forall j :: Serving(j) && j < n ==>
                    SyncedAt(j, old(ClientsAt(j)), old(CoreAt(j)), user, refused)
        invariant forall j :: Serving(j) && j >= n ==> ClientsAt(j) == old(ClientsAt(j)) && CoreAt(j) == old(CoreAt(j))
        invariant forall j :: Serving(j) && j < n ==> CoreOk(SpecAt(j), ClientsAt(j), CoreAt(j), out + {user.email})
        invariant !err ==> forall j :: Serving(j) && j < n ==>
                CoreOk(SpecAt(j), ClientsAt(j), CoreAt(j), out - {user.email})
        invariant err ==> Serving(failing) && FailsAt(SpecAt(failing), user, refused, config.sum)
        invariant !err ==> forall j :: Serving(j) && j < n ==> !FailsAt(SpecAt(j), user, refused, config.sum)
      {
        if !config.inbounds[n].spec.exclude {
          var failed := SyncAt(n, user, refused, out);
          if failed {
            err, failing := true, n;
          }
        }
      }
      AllOk(if err then out + {user.email} else out - {user.email});
    }

    /** enforceIpLimitsOnce: online is what the core reports, for the users it reports on. Users over a
        positive limit are put out of the core, and come back no sooner than COOLDOWN later. */
    method EnforceIpLimitsOnce(now: Time, online: map<Email, nat>, refused: Refusals)
      requires Valid()
      modifies this, config.inbounds
      ensures Valid() && userLimits == old(userLimits) && userByEmail == old(userByEmail)
      ensures forall e :: Enforced(e, userByEmail, old(kicked), old(owed), now, online, refused)
      // a user is kicked when more addresses are online than its positive limit allows
      ensures forall e :: e !in old(kicked) ==>
                (e in kicked <==> e in userLimits && userLimits[e] > 0 && e in online && online[e] > userLimits[e])
      // and let back in after a minute, unless an inbound refuses it
      ensures forall e :: e in old(kicked) ==>
                (e !in kicked <==> now - old(kicked)[e] >= 60 && !FailsFor(userByEmail, e, refused))
      ensures forall e :: e in kicked ==> kicked[e] == if e in old(kicked) then old(kicked)[e] else now
    {
      assert IsDigest(config.sum);
      var limits, kickedBefore := userLimits, kicked;
      NothingEnforced(userByEmail, kickedBefore, now, online, refused);
      hide config.Valid, config.DistinctTags, InboundOk, Remembers, Enforced, Untouched, FailsFor, Absent, MarkAfter;
      var todo := limits.Keys;
      while todo != {}
        invariant Valid() && todo <= limits.Keys
        invariant userLimits == limits && userByEmail == old(userByEmail)
        invariant forall e :: e in todo ==> Untouched(e, kickedBefore, old(owed))
        invariant forall e :: e !in todo ==> Enforced(e, userByEmail, kickedBefore, old(owed), now, online, refused)
        decreases |todo|
      {
        var e :| e in todo;
        todo := todo - {e};
        StillMarked(e, kickedBefore, old(owed));
        EnforceOn(e, Mark(kickedBefore, e), kickedBefore, old(owed), now, online, refused);
      }
      forall e
        ensures e !in kickedBefore ==>
                  (e in kicked <==> e in userLimits && userLimits[e] > 0 && e in online && online[e] > userLimits[e])
        ensures e in kickedBefore ==>
                  (e !in kicked <==> now - kickedBefore[e] >= 60 && !FailsFor(userByEmail, e, refused))
        ensures e in kicked ==> kicked[e] == if e in kickedBefore then kickedBefore[e] else now
      {
        EnforcedMark(e, userByEmail, kickedBefore, old(owed), now, online, refused);
        MarkMeans(kickedBefore, kicked, e, userLimits, online, now, FailsFor(userByEmail, e, refused));
      }
    }

    lemma EnforcedMark(e: Email, users: map<Email, User>, kickedBefore: map<Email, Time>, owedBefore: set<Email>,
                       now: Time, online: map<Email, nat>, refused: Refusals)
      requires IsDigest(config.sum) && Enforced(e, users, kickedBefore, owedBefore, now, online, refused)
      ensures Mark(kicked, e) ==
                MarkAfter(e, Mark(kickedBefore, e), userLimits, online, now, FailsFor(users, e, refused))
    {
    }

    ghost predicate Untouched(e: Email, kickedBefore: map<Email, Time>, owedBefore: set<Email>)
      reads this
    {
      Mark(kicked, e) == Mark(kickedBefore, e) && (e in owed ==> e in owedBefore)
    }

    /** How a pass leaves a user: its kick mark is due, it is out of the core if the mark is new, and it is
        owed to the core only if it was before or its re-admission failed. */
    ghost predicate Enforced(e: Email, users: map<Email, User>, kickedBefore: map<Email, Time>, owedBefore: set<Email>,
                             now: Time, online: map<Email, nat>, refused: Refusals)
      requires IsDigest(config.sum)
      reads this
    {
      && Mark(kicked, e) == MarkAfter(e, Mark(kickedBefore, e), userLimits, online, now, FailsFor(users, e, refused))
      && (e in kicked && e !in kickedBefore ==> Absent(e))
      && (e in owed ==> e in owedBefore || FailsFor(users, e, refused))
    }

    lemma NothingEnforced(users: map<Email, User>, kickedBefore: map<Email, Time>, now: Time, online: map<Email, nat>,
                          refused: Refusals)
      requires IsDigest(config.sum) && Remembers(userLimits, userByEmail, kicked) && kicked == kickedBefore
      ensures forall e :: Untouched(e, kickedBefore, owed)
      ensures forall e :: e !in userLimits ==> Enforced(e, users, kickedBefore, owed, now, online, refused)
    {
      hide Absent, FailsFor;
    }

    lemma StillMarked(e: Email, kickedBefore: map<Email, Time>, owedBefore: set<Email>)
      requires Untouched(e, kickedBefore, owedBefore)
      ensures Mark(kicked, e) == Mark(kickedBefore, e)
    {
    }

    /** The decision on one user, told apart from everyone else's state. */
    method EnforceOn(email: Email, mark: Option<Time>, ghost kickedBefore: map<Email, Time>,
                     ghost owedBefore: set<Email>, now: Time, online: map<Email, nat>, refused: Refusals)
      requires Valid() && email in userLimits && mark == Mark(kickedBefore, email)
                && Untouched(email, kickedBefore, owedBefore)
      modifies this, config.inbounds
      ensures Valid() && userLimits == old(userLimits) && userByEmail == old(userByEmail)
      ensures Enforced(email, userByEmail, kickedBefore, owedBefore, now, online, refused)
      ensures forall e :: e != email && old(Untouched(e, kickedBefore, owedBefore)) ==>
                Untouched(e, kickedBefore, owedBefore)
      ensures forall e :: e != email && old(Enforced(e, userByEmail, kickedBefore, owedBefore, now, online, refused))
                          ==>
                            Enforced(e, userByEmail, kickedBefore, owedBefore, now, online, refused)
    {
      assert IsDigest(config.sum);
      hide config.Valid, config.DistinctTags, InboundOk, Remembers, FailsFor, Absent;
      Decide(email, mark, now, online, refused);
    }

    /** The decision on one user, on the mark it had when the pass began. */
    method Decide(email: Email, mark: Option<Time>, now: Time, online: map<Email, nat>, refused: Refusals)
      requires Valid() && email in userLimits && mark == Mark(kicked, email)
      modifies this, config.inbounds
      ensures Valid()
      ensures userLimits == old(userLimits) && userByEmail == old(userByEmail)
      ensures Mark(kicked, email) ==
                MarkAfter(email, mark, userLimits, online, now, FailsFor(userByEmail, email, refused))
      ensures forall e :: e != email ==> Mark(kicked, e) == Mark(old(kicked), e) && (e in kicked <==> e in old(kicked))
      ensures forall e :: e != email && old(Absent(e)) ==> Absent(e)
      ensures email in kicked && email !in old(kicked) ==> Absent(email)
      ensures owed <= old(owed) + {email}
      ensures email in owed ==> email in old(owed) || FailsFor(userByEmail, email, refused)
    {
      hide config.Valid, config.DistinctTags, InboundOk, Fails, CoreAt, ClientsAt, SpecAt;
      var limit := userLimits[email];
      if mark.Some? {
        if now - mark.value < COOLDOWN {
          return;
        }
        if email in userByEmail {
          Readmit(email, refused);
        } else {
          assert false;
        }
        return;
      }
      if limit == 0 || email !in online || online[email] <= limit {
        return;
      }
      DisconnectUser(email);
      kicked := kicked[email := now];
      assert old(kicked).Keys + owed + {email} == kicked.Keys + owed;
    }

    /** Re-admission: SyncUser with the user as it was last remembered. */
    method Readmit(email: Email, refused: Refusals)
      requires Valid() && email in userByEmail
      modifies this, config.inbounds
      ensures Valid()
      ensures userLimits == old(userLimits) && userByEmail == old(userByEmail)
      ensures kicked == if Fails(userByEmail[email], refused) then old(kicked) else old(kicked) - {email}
      ensures owed == if Fails(userByEmail[email], refused) then old(owed) + {email} else old(owed) - {email}
      ensures forall e :: e != email && old(Absent(e)) ==> Absent(e)
    {
      assert IsDigest(config.sum);
      hide config.Valid, config.DistinctTags, InboundOk, Fails, CoreAt, ClientsAt, SpecAt, Remembers, RememberedOf,
          Recall, CoreSingle, Single;
      ghost var limits, users, u := userLimits, userByEmail, userByEmail[email];
      KnownByEmail(limits, users, kicked, email);
      var err := SyncUser(userByEmail[email], refused);
      SameMemory(limits, users, old(kicked), userLimits, userByEmail, kicked, u, err);
      forall e, j | Serving(j) && e != email && old(Absent(e))
        ensures e !in CoreAt(j)
      {
        CoreSingleElsewhere(SpecAt(j), old(CoreAt(j)), u, RefusedAt(refused, SpecAt(j).tag), config.sum, e);
      }
      if !err {
        assert kicked - {email} == kicked;
        kicked := kicked - {email};
      }
    }

    method DisconnectUser(email: Email)
      requires config.Valid() && config.DistinctTags() && forall j :: InboundOk(j, kicked.Keys + owed)
      modifies this`core
      ensures forall j :: Serving(j) ==> CoreAt(j) == old(CoreAt(j)) - {email}
      ensures forall j :: InboundOk(j, kicked.Keys + owed + {email})
    {
      ghost var out := kicked.Keys + owed;
      hide Typed, CoreOk;
      for n := 0 to |config.inbounds|
        invariant forall j :: Serving(j) ==> CoreAt(j) == if j < n then old(CoreAt(j)) - {email} else old(CoreAt(j))
      {
        if !config.inbounds[n].spec.exclude {
          var tag := config.inbounds[n].spec.tag;
          core := core[tag := RunningAt(core, tag) - {email}];
        }
      }
      forall j
        ensures InboundOk(j, out + {email})
      {
        if Serving(j) {
          assert old(InboundOk(j, out));
          KickedIsOut(SpecAt(j), ClientsAt(j), old(CoreAt(j)), email, out);
        }
      }
    }

    /** UpdateUsers: a batch on every inbound. Both sides stay in step unless some email in it is active and
        inactive on the same inbound. */
    method UpdateUsers(users: seq<User>, refused: Refusals) returns (err: bool)
      requires Valid()
      modifies this, config.inbounds
      ensures Unmixed(users) ==> Valid()
      ensures err == SomeFails(users, refused)
      ensures forall j :: Serving(j) ==> BatchedAt(j, old(ClientsAt(j)), old(CoreAt(j)), users, refused)
      ensures kicked == if err then old(kicked) else old(kicked) - EmailsOf(users)
      ensures owed == if err then old(owed) + EmailsOf(users) else old(owed) - EmailsOf(users)
      ensures forall e :: Recall(userByEmail, e) == RememberedOf(old(userByEmail), if err then [] else users, e)
    {
      hide CoreOk, Remembers, RememberedOf, RunningAt, Unmixed, SomeFails, EmailsOf;
      ghost var out := kicked.Keys + owed;
      err := UpdateEverywhere(users, refused, out);
      owed := if err then owed + EmailsOf(users) else owed - EmailsOf(users);
      if !err {
        assert out - EmailsOf(users) == (kicked - EmailsOf(users)).Keys + owed;
        RememberUsers(users, false);
      } else {
        assert out + EmailsOf(users) == kicked.Keys + owed;
        NobodyNew(userByEmail, kicked);
      }
    }

    method UpdateEverywhere(users: seq<User>, refused: Refusals, ghost out: set<Email>) returns (err: bool)
      requires config.Valid() && config.DistinctTags() && forall j :: InboundOk(j, out)
      modifies this`core, config.inbounds
      ensures config.Valid() && err == SomeFails(users, refused)
      ensures Unmixed(users) && err ==> forall j :: InboundOk(j, out + EmailsOf(users))
      ensures Unmixed(users) && !err ==> forall j :: InboundOk(j, out - EmailsOf(users))
      ensures forall j :: Serving(j) ==> BatchedAt(j, old(ClientsAt(j)), old(CoreAt(j)), users, refused)
    {
      ghost var was, wasCore := Snapshot(out);
      var inboundByTag, updates := config.BuildInboundUpdates(users);
      ghost var at := IndexOf(inboundByTag);
      hide config.Valid, config.DistinctTags, config.Wired, config.Chosen, Serving, InboundOk, SpecAt, ClientsAt,
          CoreAt, CoreOk, BatchedAt, Tagged, Batching, UpdateFor;
      TaggedNow(at, inboundByTag, updates, users, was, wasCore, refused, out);
      err := UpdateTags(users, inboundByTag, updates, at, was, wasCore, refused, out);
      BatchingDone(at, was, wasCore, users, refused, out, err);
    }

    method UpdateTags(ghost users: seq<User>, inboundByTag: map<Tag, Inbound>, updates: map<Tag, InboundUpdate>,
                      ghost at: map<Tag, int>, ghost was: seq<Clients>, ghost wasCore: seq<Clients>, refused: Refusals,
                      ghost out: set<Email>)
      returns (err: bool)
      requires config.Valid() && config.DistinctTags() && inboundByTag.Keys == updates.Keys
      requires Tagged(at, inboundByTag, updates, users)
                && Batching(at, inboundByTag.Keys, was, wasCore, users, refused, out, false)
      modifies this`core, config.inbounds
      ensures config.Valid()
      ensures Batching(at, {}, was, wasCore, users, refused, out, err)
    {
      hide config.Valid, config.DistinctTags, Tagged, Batching;
      err := false;
      var todo := inboundByTag.Keys;
      while todo != {}
        invariant config.Valid() && todo <= inboundByTag.Keys
        invariant Batching(at, todo, was, wasCore, users, refused, out, err)
        decreases |todo|
      {
        var t :| t in todo;
        err := UpdateTag(t, todo, err, users, inboundByTag, updates, at, was, wasCore, refused, out);
        todo := todo - {t};
      }
    }

    ghost method Snapshot(out: set<Email>) returns (was: seq<Clients>, wasCore: seq<Clients>)
      requires forall j :: InboundOk(j, out)
      ensures |was| == |wasCore| == |config.inbounds|
      ensures forall j :: 0 <= j < |config.inbounds| ==> was[j] == ClientsAt(j) && wasCore[j] == CoreAt(j)
      ensures forall j :: Serving(j) ==> CoreOk(SpecAt(j), was[j], wasCore[j], out)
    {
      hide CoreOk;
      was := seq(|config.inbounds|, j requires 0 <= j < |config.inbounds| reads config.inbounds => ClientsAt(j));
      wasCore := seq(|config.inbounds|, j requires 0 <= j < |config.inbounds| reads this`core => CoreAt(j));
      AllOk(out);
    }

    /** What the tags of a batch stand for. */
    ghost predicate Tagged(at: map<Tag, int>, inboundByTag: map<Tag, Inbound>, updates: map<Tag, InboundUpdate>,
                           users: seq<User>) {
      && IsDigest(config.sum)
      && at.Keys == inboundByTag.Keys && updates.Keys == inboundByTag.Keys
      && (forall t :: t in at ==> Serving(at[t]) && inboundByTag[t] == config.inbounds[at[t]])
      && (forall t, u :: t in at && u in at && at[t] == at[u] ==> t == u)
      && (forall t :: t in at ==> updates[t] == UpdateFor(SpecAt(at[t]), users, config.sum))
      && (forall j :: Serving(j) ==> SpecAt(j).tag in at && at[SpecAt(j).tag] == j)
    }

    /** Where a batch stands when the tags in todo are still to come. */
    ghost predicate Batching(at: map<Tag, int>, todo: set<Tag>, was: seq<Clients>, wasCore: seq<Clients>,
                             users: seq<User>, refused: Refusals, out: set<Email>, err: bool)
      reads this`core, config.inbounds
    {
      && IsDigest(config.sum) && |was| == |wasCore| == |config.inbounds| && todo <= at.Keys
      && (forall t :: t in at ==> Serving(at[t]))
      && (forall t :: t in at && t !in todo ==> Updated(at[t], was[at[t]], wasCore[at[t]], users, refused, out))
      && (forall t :: t in todo ==> ClientsAt(at[t]) == was[at[t]] && CoreAt(at[t]) == wasCore[at[t]])
      && (forall t :: t in todo ==> CoreOk(SpecAt(at[t]), was[at[t]], wasCore[at[t]], out))
      && (err ==> exists t :: t in at && SomeFailsAt(SpecAt(at[t]), users, refused, config.sum))
      && (!err ==> forall t :: t in at && t !in todo ==> !SomeFailsAt(SpecAt(at[t]), users, refused, config.sum))
    }

    lemma TaggedNow(at: map<Tag, int>, inboundByTag: map<Tag, Inbound>, updates: map<Tag, InboundUpdate>,
                    users: seq<User>, was: seq<Clients>, wasCore: seq<Clients>, refused: Refusals, out: set<Email>)
      requires IsDigest(config.sum) && at.Keys == inboundByTag.Keys && updates.Keys == inboundByTag.Keys
      requires forall t :: t in at ==> Serving(at[t]) && inboundByTag[t] == config.inbounds[at[t]]
      requires forall t, u :: t in at && u in at && at[t] == at[u] ==> t == u
      requires forall t :: t in updates ==> updates[t] == UpdateFor(inboundByTag[t].spec, users, config.sum)
      requires forall j :: Serving(j) ==> SpecAt(j).tag in at && at[SpecAt(j).tag] == j
      requires |was| == |wasCore| == |config.inbounds|
      requires forall j :: 0 <= j < |config.inbounds| ==> was[j] == ClientsAt(j) && wasCore[j] == CoreAt(j)
      requires forall j :: Serving(j) ==> CoreOk(SpecAt(j), was[j], wasCore[j], out)
      ensures Tagged(at, inboundByTag, updates, users)
      ensures Batching(at, inboundByTag.Keys, was, wasCore, users, refused, out, false)
    {
      hide CoreOk, UpdateFor, ClientsAt, CoreAt;
    }

    method UpdateTag(t: Tag, ghost todo: set<Tag>, failed: bool, ghost users: seq<User>,
                     inboundByTag: map<Tag, Inbound>, updates: map<Tag, InboundUpdate>, ghost at: map<Tag, int>,
                     ghost was: seq<Clients>, ghost wasCore: seq<Clients>, refused: Refusals, ghost out: set<Email>)
      returns (err: bool)
      requires config.Valid() && config.DistinctTags() && t in inboundByTag && t in updates && t in todo
      requires Tagged(at, inboundByTag, updates, users) && Batching(at, todo, was, wasCore, users, refused, out, failed)
      modifies this`core, config.inbounds
      ensures config.Valid()
      ensures Batching(at, todo - {t}, was, wasCore, users, refused, out, err)
    {
      hide config.Valid, config.DistinctTags, config.Wired, config.Chosen, InboundOk, SpecAt, ClientsAt, CoreAt,
          CoreOk, Updated, SomeFailsAt, UpdateFor;
      var fails := UpdateAt(at[t], inboundByTag[t], users, updates[t], refused, out);
      err := failed || fails;
    }

    lemma BatchingDone(at: map<Tag, int>, was: seq<Clients>, wasCore: seq<Clients>, users: seq<User>, refused: Refusals,
                       out: set<Email>, err: bool)
      requires Batching(at, {}, was, wasCore, users, refused, out, err)
      requires forall j :: Serving(j) ==> SpecAt(j).tag in at && at[SpecAt(j).tag] == j
      ensures err == SomeFails(users, refused)
      ensures Unmixed(users) && err ==> forall j :: InboundOk(j, out + EmailsOf(users))
      ensures Unmixed(users) && !err ==> forall j :: InboundOk(j, out - EmailsOf(users))
      ensures forall j :: Serving(j) ==> BatchedAt(j, was[j], wasCore[j], users, refused)
    {
      hide SpecAt, ClientsAt, CoreAt, CoreOk, SomeFailsAt, BatchedAt, Unmixed;
      forall j | Serving(j)
        ensures Updated(j, was[j], wasCore[j], users, refused, out)
        ensures !err ==> !SomeFailsAt(SpecAt(j), users, refused, config.sum)
      {
        assert at[SpecAt(j).tag] == j;
      }
      UpdatedMeans(users, refused, out, err);
    }

    /** Which inbound a tag stands for. */
    ghost method IndexOf(inboundByTag: map<Tag, Inbound>) returns (at: map<Tag, int>)
      requires config.DistinctTags()
      requires forall j :: config.Chosen(j) ==>
                config.inbounds[j].spec.tag in inboundByTag
                    && inboundByTag[config.inbounds[j].spec.tag] == config.inbounds[j]
      requires forall t :: t in inboundByTag ==>
                exists j :: 0 <= j < |config.inbounds| && config.Chosen(j) && inboundByTag[t] == config.inbounds[j]
                    && config.inbounds[j].spec.tag == t
      ensures at.Keys == inboundByTag.Keys
      ensures forall t :: t in at ==>
                0 <= at[t] < |config.inbounds| && Serving(at[t]) && inboundByTag[t] == config.inbounds[at[t]]
      ensures forall t, u :: t in at && u in at && at[t] == at[u] ==> t == u
      ensures forall j :: Serving(j) ==> SpecAt(j).tag in at && at[SpecAt(j).tag] == j
    {
      ServingIsChosen();
      at := map t | t in inboundByTag :: Pick(inboundByTag, t);
    }

    ghost function Pick(inboundByTag: map<Tag, Inbound>, t: Tag): (j: int)
      requires t in inboundByTag && exists j ::
                0 <= j < |config.inbounds| && config.Chosen(j) && inboundByTag[t] == config.inbounds[j]
                    && config.inbounds[j].spec.tag == t
      ensures 0 <= j < |config.inbounds| && config.Chosen(j) && inboundByTag[t] == config.inbounds[j]
                && config.inbounds[j].spec.tag == t
    {
      var j :| 0 <= j < |config.inbounds| && config.Chosen(j) && inboundByTag[t] == config.inbounds[j]
          && config.inbounds[j].spec.tag == t;
      j
    }

    /** An inbound brought up to date, and what that says about its core. */
    ghost predicate Updated(j: int, was: Clients, wasCore: Clients, users: seq<User>, refused: Refusals,
                            out: set<Email>)
      requires 0 <= j < |config.inbounds| && IsDigest(config.sum)
      reads this`core, config.inbounds
    {
      && BatchedAt(j, was, wasCore, users, refused)
      && (Unmixed(users) ==> CoreOk(SpecAt(j), ClientsAt(j), CoreAt(j), out + EmailsOf(users)))
      && (Unmixed(users) && !SomeFailsAt(SpecAt(j), users, refused, config.sum) ==>
            CoreOk(SpecAt(j), ClientsAt(j), CoreAt(j), out - EmailsOf(users)))
    }

    lemma UpdatedMeans(users: seq<User>, refused: Refusals, out: set<Email>, err: bool)
      requires IsDigest(config.sum)
      requires forall j :: Serving(j) ==> exists c, r :: Updated(j, c, r, users, refused, out)
      requires !err ==> forall j :: Serving(j) ==> !SomeFailsAt(SpecAt(j), users, refused, config.sum)
      ensures Unmixed(users) && err ==> forall j :: InboundOk(j, out + EmailsOf(users))
      ensures Unmixed(users) && !err ==> forall j :: InboundOk(j, out - EmailsOf(users))
    {
      hide CoreOk, BatchedAt, EmailsOf, SomeFailsAt, Unmixed;
    }

    lemma ServingIsChosen()
      requires config.DistinctTags()
      ensures forall j :: config.Chosen(j) <==> Serving(j)
      ensures forall j, k :: Serving(j) && Serving(k) && SpecAt(j).tag == SpecAt(k).tag ==> j == k
    {
    }

    /** Both sides of an inbound after UpdateUsers. */
    ghost predicate BatchedAt(j: int, was: Clients, wasCore: Clients, users: seq<User>, refused: Refusals)
      requires 0 <= j < |config.inbounds| && IsDigest(config.sum)
      reads this`core, config.inbounds
    {
      && ClientsAt(j) == Batch(SpecAt(j), was, users, config.sum)
      && CoreAt(j) == CoreBatch(SpecAt(j), wasCore, users, RefusedAt(refused, SpecAt(j).tag), config.sum)
    }

    ghost predicate Unmixed(users: seq<User>)
      requires IsDigest(config.sum)
    {
      forall j, e :: Serving(j) ==> !Mixed(SpecAt(j), users, e, config.sum)
    }

    ghost predicate SomeFails(users: seq<User>, refused: Refusals)
      requires IsDigest(config.sum)
    {
      exists j :: Serving(j) && SomeFailsAt(SpecAt(j), users, refused, config.sum)
    }

    /** UpdateUsers on one inbound. */
    method UpdateInbound(ghost j: nat, inbound: Inbound, ghost users: seq<User>, update: InboundUpdate,
                         refused: Refusals, ghost out: set<Email>)
      returns (failed: bool)
      requires j < |config.inbounds| && Serving(j) && config.inbounds[j] == inbound
      requires IsDigest(config.sum) && inbound.sum == config.sum && Typed(inbound.spec, inbound.clients)
      requires update == UpdateFor(inbound.spec, users, config.sum)
      modifies this`core, inbound
      ensures failed <==> SomeFailsAt(SpecAt(j), users, refused, config.sum)
      ensures BatchedAt(j, old(ClientsAt(j)), old(CoreAt(j)), users, refused)
      ensures Typed(SpecAt(j), ClientsAt(j))
      ensures forall t :: t != inbound.spec.tag ==> RunningAt(core, t) == RunningAt(old(core), t)
    {
      hide Added, UpdateFor, Typed, SomeRefused, SomeFailsAt;
      var tag := inbound.spec.tag;
      BatchKeepsTyped(inbound.spec, inbound.clients, users, config.sum);
      RefusedIsFailing(inbound.spec, users, refused, config.sum);
      inbound.UpdateUsers(update.accounts, update.removeEmails);
      var running := RunningAt(core, tag) - update.removeEmails;
      running, failed := Readd(running, update.accounts, RefusedAt(refused, tag));
      core := core[tag := running];
    }

    /** The same with nothing else touched, and the relation kept when no email is mixed. */
    method UpdateAt(ghost j: nat, inbound: Inbound, ghost users: seq<User>, update: InboundUpdate, refused: Refusals,
                    ghost out: set<Email>)
      returns (failed: bool)
      requires config.Valid() && config.DistinctTags() && j < |config.inbounds| && Serving(j)
                && config.inbounds[j] == inbound
      requires update == UpdateFor(SpecAt(j), users, config.sum) && CoreOk(SpecAt(j), ClientsAt(j), CoreAt(j), out)
      modifies this`core, config.inbounds
      ensures config.Valid()
      ensures failed <==> SomeFailsAt(SpecAt(j), users, refused, config.sum)
      ensures Updated(j, old(ClientsAt(j)), old(CoreAt(j)), users, refused, out)
      ensures forall k :: Serving(k) && k != j ==> ClientsAt(k) == old(ClientsAt(k)) && CoreAt(k) == old(CoreAt(k))
      ensures forall k, c, r :: Serving(k) && k != j && old(Updated(k, c, r, users, refused, out)) ==>
                Updated(k, c, r, users, refused, out)
    {
      hide Typed, CoreOk, Batch, CoreBatch, UpdateFor, SomeFailsAt, RefusedAt, RunningAt, Mixed, EmailsOf;
      failed := UpdateInbound(j, inbound, users, update, refused, out);
      if Unmixed(users) {
        assert forall e :: !Mixed(SpecAt(j), users, e, config.sum);
        BatchOutcome(SpecAt(j), old(ClientsAt(j)), old(CoreAt(j)), users, refused, out, config.sum);
      }
    }

    static method Readd(running: Clients, accounts: seq<Account>, refused: set<Email>)
      returns (after: Clients, failed: bool)
      ensures after == CoreAdds(running, accounts, refused) && failed == SomeRefused(accounts, refused)
    {
      after, failed := running, false;
      for n := 0 to |accounts|
        invariant after == CoreAdds(running, accounts[..n], refused)
        invariant failed == SomeRefused(accounts[..n], refused)
      {
        assert accounts[..n + 1][..n] == accounts[..n];
        assert accounts[..n + 1] == accounts[..n] + [accounts[n]];
        after := after - {accounts[n].email};
        if accounts[n].email in refused {
          failed := true;
        } else {
          after := after[accounts[n].email := accounts[n]];
        }
      }
      assert accounts[..|accounts|] == accounts;
    }
  }

  lemma NobodyNew(byEmail: map<Email, User>, kicked: map<Email, Time>)
    ensures forall e :: Recall(byEmail, e) == RememberedOf(byEmail, [], e)
    ensures EmailsOf([]) == {} && kicked - {} == kicked
  {
  }

  lemma OneMoreRemembered(base: map<Email, User>, before: map<Email, User>, after: map<Email, User>, users: seq<User>,
                          n: nat, e: Email)
    requires n < |users| && Recall(before, e) == RememberedOf(base, users[..n], e)
    requires after == if users[n].email == "" then before else before[users[n].email := users[n]]
    ensures Recall(after, e) == RememberedOf(base, users[..n + 1], e)
  {
    assert users[..n + 1][..n] == users[..n];
  }

  lemma OneMoreKickCleared(was: map<Email, Time>, users: seq<User>, n: nat, kicked: map<Email, Time>)
    requires n < |users| && kicked == (was - EmailsOf(users[..n])) - {users[n].email}
    ensures kicked == was - EmailsOf(users[..n + 1])
  {
    assert users[..n + 1] == users[..n] + [users[n]];
  }

  function Mark(kicked: map<Email, Time>, e: Email): Option<Time> {
    if e in kicked then Some(kicked[e]) else None
  }

  /** A user's kick mark after a pass of the limiter: a mark stays until its cooldown is over and the user
      is back in, and a new one is set on a user seen over its positive limit. */
  function MarkAfter(e: Email, mark: Option<Time>, limits: map<Email, nat>, online: map<Email, nat>, now: Time,
                     fails: bool): Option<Time> {
    if mark.Some? then
      if now - mark.value < COOLDOWN || fails then mark else None
    else if e in limits && limits[e] != 0 && e in online && online[e] > limits[e] then Some(now)
    else None
  }

  lemma MarkMeans(before: map<Email, Time>, after: map<Email, Time>, e: Email, limits: map<Email, nat>,
                  online: map<Email, nat>, now: Time, fails: bool)
    requires Mark(after, e) == MarkAfter(e, Mark(before, e), limits, online, now, fails)
    ensures e !in before ==>
              (e in after <==> e in limits && limits[e] > 0 && e in online && online[e] > limits[e])
    ensures e in before ==> (e !in after <==> now - before[e] >= 60 && !fails)
    ensures e in after ==> after[e] == if e in before then before[e] else now
  {
  }

  /** Naming a user ends its kick, and no other kick. */
  lemma KicksEnd(was: map<Email, Time>, users: seq<User>)
    ensures forall e :: e in was - EmailsOf(users) <==> e in was && forall u :: u in users ==> u.email != e
  {
  }

  /** Remembered is the last entry of a listed email, and of any other what was there. */
  lemma RememberedMeans(byEmail: map<Email, User>, users: seq<User>, e: Email)
    ensures e != "" ==> forall i :: LastAt(users, i, e) ==> RememberedOf(byEmail, users, e) == Some(users[i])
    ensures e == "" || (forall u :: u in users ==> u.email != e) ==>
              RememberedOf(byEmail, users, e) == Recall(byEmail, e)
  {
    LastOfMeans(users, e);
    LastOfIsIn(users, e);
  }

  lemma KnownByEmail(limits: map<Email, nat>, byEmail: map<Email, User>, kicked: map<Email, Time>, e: Email)
    requires Remembers(limits, byEmail, kicked) && e in byEmail
    ensures byEmail[e].email == e && e != ""
  {
  }

  /** Remembering a remembered user again changes nothing. */
  lemma SameMemory(limits: map<Email, nat>, byEmail: map<Email, User>, kicked: map<Email, Time>,
                   limits': map<Email, nat>, byEmail': map<Email, User>, kicked': map<Email, Time>, u: User, err: bool)
    requires Remembers(limits, byEmail, kicked) && Remembers(limits', byEmail', kicked')
    requires u.email in byEmail && byEmail[u.email] == u
    requires forall e :: Recall(byEmail', e) == RememberedOf(byEmail, if err then [] else [u], e)
    ensures byEmail' == byEmail && limits' == limits
  {
    forall e
      ensures Recall(byEmail', e) == Recall(byEmail, e)
    {
      assert [u][..0] == [];
      assert LastOf([u], e) == if u.email == e then Some(u) else None;
    }
    forall e
      ensures e in byEmail <==> e in byEmail'
      ensures e in byEmail && e in byEmail' ==> byEmail[e] == byEmail'[e]
    {
      assert Recall(byEmail', e) == Recall(byEmail, e);
    }
    assert byEmail'.Keys == byEmail.Keys;
    assert limits'.Keys == limits.Keys;
  }

  lemma CoreSingleElsewhere(spec: Spec, running: Clients, u: User, refused: set<Email>, sum: Digest, e: Email)
    requires IsDigest(sum) && e != u.email && e !in running
    ensures e !in CoreSingle(spec, running, u, refused, sum)
  {
    PathsAgree(spec, u, sum);
    hide Active;
  }

  lemma KickedIsOut(spec: Spec, clients: Clients, running: Clients, e: Email, out: set<Email>)
    requires CoreOk(spec, clients, running, out)
    ensures CoreOk(spec, clients, running - {e}, out + {e})
  {
    hide KnownCipher;
  }
}
