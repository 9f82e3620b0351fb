/** OpenVPN's user allowlist and its live sessions: backend/openvpn/users.go, with the callers in
    openvpn.go that kill sessions. */
module OpenVpnUsers {
  import opened Wrappers

  type Name = string
  type ClientId = string

  /** A user's OpenVPN credentials, as the panel sends them. */
  datatype Credentials = Credentials(serial: string, fingerprint: string, username: string, password: string)

  datatype User = User(email: Name, inbounds: seq<string>, openvpn: Option<Credentials>, ipLimit: nat, speedLimit: nat)

  datatype Entry = Entry(serial: string, fingerprint: string, username: string, password: string, ipLimit: nat,
      speedLimit: nat)

  type Sessions = map<Name, set<ClientId>>

  /** Sessions are tracked only for allowed names, and no empty set is kept. */
  ghost predicate Tracked(users: map<Name, Entry>, sessions: Sessions) {
    forall cn :: cn in sessions ==> cn in users && sessions[cn] != {}
  }

  function SessionsOf(sessions: Sessions, cn: Name): set<ClientId> {
    if cn in sessions then sessions[cn] else {}
  }

  predicate Within(users: map<Name, Entry>, sessions: Sessions, cn: Name) {
    cn in users && users[cn].ipLimit > 0 ==> |SessionsOf(sessions, cn)| <= users[cn].ipLimit
  }

  /** Sessions are dropped just down to a positive limit, and otherwise not at all. */
  ghost predicate HeldTo(limit: nat, before: set<ClientId>, after: set<ClientId>) {
    && after <= before
    && (if limit > 0 && |before| > limit then |after| == limit else after == before)
  }

  /** A name's sessions are held to its limit, if it is allowed, and left alone otherwise. */
  ghost predicate HeldAt(users: map<Name, Entry>, before: Sessions, after: Sessions, cn: Name) {
    if cn in users then HeldTo(users[cn].ipLimit, SessionsOf(before, cn), SessionsOf(after, cn))
    else SessionsOf(after, cn) == SessionsOf(before, cn)
  }

  /** Holding a name to its limit again changes nothing. */
  lemma HeldOnce(users: map<Name, Entry>, before: Sessions, mid: Sessions, after: Sessions, cn: Name)
    requires HeldAt(users, before, mid, cn) && HeldAt(users, mid, after, cn)
    ensures HeldAt(users, before, after, cn)
  {
  }

  lemma HeldStill(users: map<Name, Entry>, before: Sessions, mid: Sessions, after: Sessions, cn: Name)
    requires HeldAt(users, before, mid, cn) && SessionsOf(after, cn) == SessionsOf(mid, cn)
    ensures HeldAt(users, before, after, cn)
  {
  }

  lemma NotYetHeld(users: map<Name, Entry>, start: Sessions, before: Sessions, after: Sessions, cn: Name)
    requires HeldAt(users, before, after, cn) && SessionsOf(before, cn) == SessionsOf(start, cn)
    ensures HeldAt(users, start, after, cn)
  {
  }

  predicate Wants(tag: string, u: User) {
    u.openvpn.Some? && tag in u.inbounds
  }

  /** The entries an authoritative list gives: the last wanted entry of each name, without username and
      password. */
  function Listed(tag: string, users: seq<User>): map<Name, Entry>
    decreases |users|
  {
    if users == [] then map[]
    else
      var m := Listed(tag, users[..|users| - 1]);
      var u := users[|users| - 1];
      if !Wants(tag, u) || u.email == "" then m
      else m[u.email := Entry(u.openvpn.value.serial, u.openvpn.value.fingerprint, "", "", u.ipLimit, u.speedLimit)]
  }

  /** users[i] is the last entry of a name that is for this inbound and brings credentials. */
  ghost predicate LastWanted(tag: string, users: seq<User>, i: int, cn: Name) {
    && 0 <= i < |users| && users[i].email == cn && cn != "" && users[i].openvpn.Some? && tag in users[i].inbounds
    && forall j :: i < j < |users| && users[j].email == cn ==> users[j].openvpn.None? || tag !in users[j].inbounds
  }

  /** The entry that a user's message makes in a full list. */
  ghost predicate MadeFrom(entry: Entry, u: User) {
    && u.openvpn.Some?
    && entry.serial == u.openvpn.value.serial && entry.fingerprint == u.openvpn.value.fingerprint
    && entry.username == "" && entry.password == ""
    && entry.ipLimit == u.ipLimit && entry.speedLimit == u.speedLimit
  }

  /** A full list allows a name if and only if some entry of it is for this inbound and brings credentials,
      and then with what the last such entry says. */
  lemma {:induction false} ListedMeans(tag: string, users: seq<User>, cn: Name)
    ensures cn in Listed(tag, users) <==> exists i :: LastWanted(tag, users, i, cn)
    ensures forall i :: LastWanted(tag, users, i, cn) ==>
              cn in Listed(tag, users) && MadeFrom(Listed(tag, users)[cn], users[i])
    decreases |users|
  {
    if users != [] {
      var init, n := users[..|users| - 1], |users| - 1;
      if users[n].email == cn && cn != "" && users[n].openvpn.Some? && tag in users[n].inbounds {
        assert LastWanted(tag, users, n, cn);
      } else {
        ListedMeans(tag, init, cn);
        forall i
          ensures LastWanted(tag, users, i, cn) <==> LastWanted(tag, init, i, cn)
        {
          NotTheLast(tag, users, i, cn);
        }
        hide LastWanted, MadeFrom;
        forall i | LastWanted(tag, users, i, cn)
          ensures 0 <= i < |init| && init[i] == users[i]
        {
          WantedIn(tag, init, i, cn);
        }
      }
    }
  }

  lemma WantedIn(tag: string, users: seq<User>, i: int, cn: Name)
    requires LastWanted(tag, users, i, cn)
    ensures 0 <= i < |users|
  {
  }

  lemma NotTheLast(tag: string, users: seq<User>, i: int, cn: Name)
    requires users != []
    requires var u := users[|users| - 1]; !(u.email == cn && cn != "" && u.openvpn.Some? && tag in u.inbounds)
    ensures LastWanted(tag, users, i, cn) <==> LastWanted(tag, users[..|users| - 1], i, cn)
  {
    var init := users[..|users| - 1];
    if LastWanted(tag, init, i, cn) {
      forall j | i < j < |users| && users[j].email == cn
        ensures users[j].openvpn.None? || tag !in users[j].inbounds
      {
        assert j < |init| ==> init[j] == users[j];
      }
    }
    if LastWanted(tag, users, i, cn) {
      assert forall j :: i < j < |init| ==> init[j] == users[j];
    }
  }

  class UserStore {
    const inboundTag: string
    var users: map<Name, Entry>
    var sessions: Sessions

    ghost predicate Valid()
      reads this
    {
      Tracked(users, sessions)
    }

    constructor (inboundTag: string)
      ensures Valid() && this.inboundTag == inboundTag && users == map[] && sessions == map[]
    {
      this.inboundTag := inboundTag;
      users, sessions := map[], map[];
    }

    /** authorizedLocked; serialOk is what serialEqual answers for the pinned and the presented serial. */
    predicate Authorized(cn: Name, serialOk: bool, username: string, password: string)
      reads this
    {
      && cn in users && serialOk
      && (users[cn].password != "" ==> username == users[cn].username && password == users[cn].password)
    }

    /** tryConnect: an authorized client is admitted if it is already counted or there is room for it.
        Admission never takes a name past a positive limit. */
    method TryConnect(cn: Name, cid: ClientId, serialOk: bool, username: string, password: string)
      returns (allowed: bool)
      requires Valid()
      modifies this`sessions
      ensures Valid()
      ensures allowed <==> cn in users && serialOk
                           && (users[cn].password != "" ==>
                                 username == users[cn].username && password == users[cn].password)
                           && (cid in SessionsOf(old(sessions), cn)
                               || users[cn].ipLimit == 0 || |SessionsOf(old(sessions), cn)| < users[cn].ipLimit)
      ensures !allowed ==> sessions == old(sessions)
      ensures allowed ==> sessions == old(sessions)[cn := SessionsOf(old(sessions), cn) + {cid}]
      ensures forall n :: old(Within(users, sessions, n)) ==> Within(users, sessions, n)
    {
      if !Authorized(cn, serialOk, username, password) {
        return false;
      }
      var had := sessions;
      if cn !in sessions {
        sessions := sessions[cn := {}];
      }
      var set0 := sessions[cn];
      if cid in set0 {
        assert set0 + {cid} == set0;
        return true;
      }
      var limit := users[cn].ipLimit;
      if limit > 0 && |set0| >= limit {
        assert set0 != {};
        return false;
      }
      sessions := sessions[cn := set0 + {cid}];
      return true;
    }

    /** excessSessions: which sessions go is up to the map's iteration order. A positive limit leaves at
        least one session, so the source's test for an emptied set never fires. */
    method ExcessSessions(cn: Name) returns (excess: set<ClientId>)
      requires Valid()
      modifies this`sessions
      ensures Valid()
      ensures excess <= SessionsOf(old(sessions), cn)
      ensures SessionsOf(sessions, cn) == SessionsOf(old(sessions), cn) - excess
      ensures excess != {} <==>
                cn in users && users[cn].ipLimit > 0 && |SessionsOf(old(sessions), cn)| > users[cn].ipLimit
      ensures excess != {} ==> |SessionsOf(sessions, cn)| == users[cn].ipLimit
      ensures forall n :: n != cn ==>
                (n in sessions <==> n in old(sessions)) && SessionsOf(sessions, n) == SessionsOf(old(sessions), n)
    {
      excess := {};
      if cn !in users || users[cn].ipLimit == 0 {
        return;
      }
      var live := if cn in sessions then sessions[cn] else {};
      if |live| <= users[cn].ipLimit {
        return;
      }
      excess := BeyondLimit(live, users[cn].ipLimit);
      sessions := sessions[cn := sessions[cn] - excess];
    }

    /** The loop of excessSessions: the first limit sessions are kept, the rest are excess. */
    static method BeyondLimit(live: set<ClientId>, limit: nat) returns (excess: set<ClientId>)
      requires |live| > limit
      ensures excess <= live && excess != {} && |live - excess| == limit
    {
      excess := {};
      var kept: set<ClientId> := {};
      var todo := live;
      while todo != {}
        invariant todo <= live && kept <= live - todo
        invariant forall c :: c in excess <==> c in live && c !in todo && c !in kept
        invariant |kept| <= limit && (excess != {} ==> |kept| == limit)
        decreases |todo|
      {
        var cid :| cid in todo;
        todo := todo - {cid};
        if |kept| < limit {
          kept := kept + {cid};
          continue;
        }
        excess := excess + {cid};
      }
      assert live - excess == kept;
    }

    method ReleaseSession(cn: Name, cid: ClientId)
      requires Valid()
      modifies this`sessions
      ensures Valid()
      ensures forall n :: SessionsOf(sessions, n) == SessionsOf(old(sessions), n) - if n == cn then {cid} else {}
      ensures forall n :: old(Within(users, sessions, n)) ==> Within(users, sessions, n)
    {
      if cn in sessions {
        var live := sessions[cn] - {cid};
        FewerIsWithin(sessions[cn], cid);
        sessions := sessions[cn := live];
        if |live| == 0 {
          sessions := sessions - {cn};
        }
      }
    }

    method ApplyUser(u: User) returns (cn: Name, changedSerial: bool, removed: bool)
      requires Valid()
      modifies this
      ensures Valid() && cn == u.email
      ensures cn == "" ==> users == old(users) && sessions == old(sessions) && !changedSerial && !removed
      ensures cn != "" && (u.openvpn.None? || inboundTag !in u.inbounds) ==>
                users == old(users) - {cn} && sessions == old(sessions) - {cn} && !changedSerial
                    && (removed <==> cn in old(users))
      ensures cn != "" && u.openvpn.Some? && inboundTag in u.inbounds ==>
                var ov := u.openvpn.value;
                && users.Keys == old(users).Keys + {cn}
                && (forall n :: n in old(users) && n != cn ==> users[n] == old(users)[n])
                && users[cn].serial == ov.serial && users[cn].fingerprint == ov.fingerprint
                && users[cn].username == ov.username && users[cn].password == ov.password
                && users[cn].ipLimit == u.ipLimit && users[cn].speedLimit == u.speedLimit
                && sessions == old(sessions) && !removed
                && (changedSerial <==> cn in old(users) && old(users)[cn].serial != ov.serial)
    {
      cn := u.email;
      if cn == "" {
        return "", false, false;
      }
      if u.openvpn.None? || inboundTag !in u.inbounds {
        var existed := cn in users;
        users := users - {cn};
        sessions := sessions - {cn};
        return cn, false, existed;
      }
      var ov := u.openvpn.value;
      var entry := Entry(ov.serial, ov.fingerprint, ov.username, ov.password, u.ipLimit, u.speedLimit);
      var existed := cn in users;
      changedSerial := existed && users[cn].serial != entry.serial;
      users := users[cn := entry];
      removed := false;
    }

    method CollectListed(list: seq<User>) returns (next: map<Name, Entry>)
      ensures next == Listed(inboundTag, list)
    {
      next := map[];
      for i := 0 to |list|
        invariant next == Listed(inboundTag, list[..i])
      {
        assert list[..i + 1][..i] == list[..i];
        var u := list[i];
        if u.openvpn.None? || inboundTag !in u.inbounds {
          continue;
        }
        if u.email == "" {
          continue;
        }
        var ov := u.openvpn.value;
        next := next[u.email := Entry(ov.serial, ov.fingerprint, "", "", u.ipLimit, u.speedLimit)];
      }
      assert list[..|list|] == list;
    }

    method ReplaceAll(list: seq<User>) returns (removed: set<Name>)
      requires Valid()
      modifies this
      ensures Valid()
      ensures users == Listed(inboundTag, list)
      ensures removed == old(users).Keys - users.Keys
      ensures sessions == old(sessions) - removed
    {
      var next := CollectListed(list);
      removed := {};
      var todo := users.Keys;
      while todo != {}
        invariant todo <= users.Keys && users == old(users)
        invariant forall cn :: cn in removed <==> cn in users && cn !in todo && cn !in next
        invariant forall cn :: cn in sessions <==> cn in old(sessions) && cn !in removed
        invariant forall cn :: cn in sessions ==> sessions[cn] == old(sessions)[cn]
        decreases |todo|
      {
        var cn :| cn in todo;
        todo := todo - {cn};
        if cn !in next {
          removed := removed + {cn};
          sessions := sessions - {cn};
        }
      }
      users := next;
    }
  }

  lemma FewerIsWithin(s: set<ClientId>, cid: ClientId)
    ensures |s - {cid}| <= |s|
  {
    if cid in s {
      assert |s - {cid}| == |s| - 1;
    } else {
      assert s - {cid} == s;
    }
  }

  /** The backend around the store, with the kill commands it has issued: a name's kill ends all of its
      sessions, a client's kill ends one. */
  class OpenVpn {
    const store: UserStore
    var killedNames: set<Name>
    var killedClients: set<ClientId>

    constructor (store: UserStore)
      ensures this.store == store && killedNames == {} && killedClients == {}
    {
      this.store := store;
      killedNames, killedClients := {}, {};
    }

    /** enforceDeviceLimit kills exactly the sessions the store drops, and leaves the name within its limit. */
    method EnforceDeviceLimit(cn: Name)
      requires store.Valid()
      modifies this`killedClients, store`sessions
      ensures store.Valid()
      ensures Within(store.users, store.sessions, cn)
      ensures SessionsOf(store.sessions, cn) <= SessionsOf(old(store.sessions), cn)
      ensures killedClients ==
                old(killedClients) + (SessionsOf(old(store.sessions), cn) - SessionsOf(store.sessions, cn))
      ensures HeldAt(store.users, old(store.sessions), store.sessions, cn)
      ensures forall n :: n != cn ==> SessionsOf(store.sessions, n) == SessionsOf(old(store.sessions), n)
    {
      hide Tracked;
      var excess := store.ExcessSessions(cn);
      KillClients(excess);
    }

    method KillClients(cids: set<ClientId>)
      modifies this`killedClients
      ensures killedClients == old(killedClients) + cids
    {
      var todo := cids;
      while todo != {}
        invariant todo <= cids && killedClients == old(killedClients) + (cids - todo)
        decreases |todo|
      {
        var cid :| cid in todo;
        todo := todo - {cid};
        killedClients := killedClients + {cid};
      }
    }

    /** SyncUsers. A name that left the list is killed and forgotten; every name still listed ends within
        its limit, and the clients killed are exactly the sessions dropped from listed names. */
    method SyncUsers(list: seq<User>)
      requires store.Valid()
      modifies this, store
      ensures store.Valid() && store.users == Listed(store.inboundTag, list)
      ensures killedNames == old(killedNames) + (old(store.users).Keys - store.users.Keys)
      ensures forall cn :: cn in store.users <==> exists i :: LastWanted(store.inboundTag, list, i, cn)
      ensures forall cn, i :: LastWanted(store.inboundTag, list, i, cn) ==>
                MadeFrom(store.users[cn], list[i])
                && HeldTo(list[i].ipLimit, SessionsOf(old(store.sessions), cn), SessionsOf(store.sessions, cn))
      ensures forall cn :: Within(store.users, store.sessions, cn)
      ensures forall cn :: SessionsOf(store.sessions, cn) <= SessionsOf(old(store.sessions), cn)
      ensures forall cid :: cid in killedClients <==>
                  cid in old(killedClients)
                  || exists cn :: cn in store.users && cid in SessionsOf(old(store.sessions), cn)
                      && cid !in SessionsOf(store.sessions, cn)
    {
      hide Listed, SessionsOf, Within, DroppedFrom, HeldAt, HeldTo, LastWanted, MadeFrom, Tracked;
      ghost var was := store.sessions;
      var removed := store.ReplaceAll(list);
      KillNames(removed);
      ghost var start := store.sessions;
      EnforceListed(list);
      forall cn
        ensures cn in store.users <==> exists i :: LastWanted(store.inboundTag, list, i, cn)
      {
        ListedMeans(store.inboundTag, list, cn);
      }
      forall cn, i | LastWanted(store.inboundTag, list, i, cn)
        ensures 0 <= i < |list|
      {
        WantedIn(store.inboundTag, list, i, cn);
      }
      forall cn, i | LastWanted(store.inboundTag, list, i, cn)
        ensures cn in store.users && MadeFrom(store.users[cn], list[i])
        ensures HeldTo(list[i].ipLimit, SessionsOf(was, cn), SessionsOf(store.sessions, cn))
      {
        ListedMeans(store.inboundTag, list, cn);
        ListedIsHeld(store.inboundTag, list, i, cn, store.users, was, start, store.sessions, removed);
      }
      forall cn
        ensures Within(store.users, store.sessions, cn)
      {
        if cn in store.users {
          var i :| LastWanted(store.inboundTag, list, i, cn);
          HeldIsWithin(store.users, was, store.sessions, cn, list[i]);
        } else {
          UnlistedIsWithin(store.users, store.sessions, cn);
        }
      }
      FewerSessions(old(store.sessions), removed);
      forall cid
        ensures DroppedFrom(start, store.sessions, cid) <==>
                exists cn :: cn in store.users && cid in SessionsOf(old(store.sessions), cn)
                    && cid !in SessionsOf(store.sessions, cn)
      {
        SurvivorsOnly(old(store.users), store.users, old(store.sessions), start, store.sessions, cid);
      }
    }

    method KillNames(names: set<Name>)
      modifies this`killedNames
      ensures killedNames == old(killedNames) + names
    {
      var todo := names;
      while todo != {}
        invariant todo <= names && killedNames == old(killedNames) + (names - todo)
        decreases |todo|
      {
        var cn :| cn in todo;
        todo := todo - {cn};
        killedNames := killedNames + {cn};
      }
    }

    /** The loop of SyncUsers over the request. */
    method EnforceListed(list: seq<User>)
      requires store.Valid()
      modifies this`killedClients, store`sessions
      ensures store.Valid()
      ensures forall u :: u in list ==> HeldAt(store.users, old(store.sessions), store.sessions, u.email)
      ensures forall cn :: SessionsOf(store.sessions, cn) <= SessionsOf(old(store.sessions), cn)
      ensures forall cid :: cid in killedClients <==>
                cid in old(killedClients) || DroppedFrom(old(store.sessions), store.sessions, cid)
    {
      hide SessionsOf, DroppedFrom, HeldAt;
      ghost var start := store.sessions;
      NothingDropped(start);
      for i := 0 to |list|
        invariant store.Valid()
        invariant forall j :: 0 <= j < i ==> HeldAt(store.users, start, store.sessions, list[j].email)
        invariant forall cn :: SessionsOf(store.sessions, cn) == SessionsOf(start, cn)
                               || HeldAt(store.users, start, store.sessions, cn)
        invariant forall cn :: SessionsOf(store.sessions, cn) <= SessionsOf(start, cn)
        invariant forall cid :: cid in killedClients <==>
                cid in old(killedClients) || DroppedFrom(start, store.sessions, cid)
      {
        ghost var before := store.sessions;
        EnforceDeviceLimit(list[i].email);
        HeldFurther(store.users, start, before, store.sessions, list[i].email);
        DroppedGrows(start, before, store.sessions, list[i].email);
      }
    }

    /** One user of applyUsers: a removed or reissued name is killed, any other is held to its limit. */
    method ApplyOne(u: User)
      requires store.Valid()
      modifies this, store
      ensures store.Valid()
      ensures u.email == "" ==> store.users == old(store.users) && store.sessions == old(store.sessions)
                                && killedNames == old(killedNames) && killedClients == old(killedClients)
      ensures u.email != "" ==> (u.email in store.users <==> u.openvpn.Some? && store.inboundTag in u.inbounds)
      ensures u.email in store.users && u.email != "" ==>
                var ov := u.openvpn.value;
                store.users[u.email] ==
                  Entry(ov.serial, ov.fingerprint, ov.username, ov.password, u.ipLimit, u.speedLimit)
      ensures forall n :: n != u.email ==> (n in store.users <==> n in old(store.users))
                                           && (n in store.users ==> store.users[n] == old(store.users)[n])
                                           && SessionsOf(store.sessions, n) == SessionsOf(old(store.sessions), n)
      ensures SessionsOf(store.sessions, u.email) <= SessionsOf(old(store.sessions), u.email)
      ensures killedNames ==
                old(killedNames) +
                if u.email != "" && u.email in old(store.users)
                   && (u.openvpn.None? || store.inboundTag !in u.inbounds
                       || old(store.users)[u.email].serial != u.openvpn.value.serial)
                then {u.email} else {}
      ensures Reissued(store.inboundTag, old(store.users), u) ==> killedClients == old(killedClients)
      ensures u.email != "" && !Reissued(store.inboundTag, old(store.users), u) ==>
                HeldAt(store.users, old(store.sessions), store.sessions, u.email)
                && killedClients == old(killedClients)
                    + (SessionsOf(old(store.sessions), u.email) - SessionsOf(store.sessions, u.email))
    {
      var cn, changedSerial, removed := store.ApplyUser(u);
      if cn == "" {
        return;
      }
      if removed || changedSerial {
        killedNames := killedNames + {cn};
      } else {
        EnforceDeviceLimit(cn);
      }
    }

    /** UpdateUsersAndRestart without the restart of the server process: the call itself replaces the list and
        drops no counted session of a name that stays. */
    method UpdateUsersAndRestart(list: seq<User>)
      requires store.Valid()
      modifies store
      ensures store.Valid() && store.users == Listed(store.inboundTag, list)
      ensures forall cn :: SessionsOf(store.sessions, cn) ==
                if cn in old(store.users) && cn !in store.users then {} else SessionsOf(old(store.sessions), cn)
    {
      var removed := store.ReplaceAll(list);
    }
  }

  /** The update takes an allowed name off the list, or gives it another certificate. */
  predicate Reissued(tag: string, users: map<Name, Entry>, u: User) {
    && u.email != "" && u.email in users
    && (Wants(tag, u) ==> users[u.email].serial != u.openvpn.value.serial)
  }

  lemma HeldFurther(users: map<Name, Entry>, start: Sessions, before: Sessions, after: Sessions, name: Name)
    requires forall cn :: SessionsOf(before, cn) == SessionsOf(start, cn) || HeldAt(users, start, before, cn)
    requires HeldAt(users, before, after, name)
    requires forall cn :: cn != name ==> SessionsOf(after, cn) == SessionsOf(before, cn)
    ensures HeldAt(users, start, after, name)
    ensures forall cn :: HeldAt(users, start, before, cn) ==> HeldAt(users, start, after, cn)
    ensures forall cn :: SessionsOf(after, cn) == SessionsOf(start, cn) || HeldAt(users, start, after, cn)
  {
    hide HeldAt, SessionsOf;
    if HeldAt(users, start, before, name) {
      HeldOnce(users, start, before, after, name);
    } else {
      NotYetHeld(users, start, before, after, name);
    }
    forall cn | cn != name && HeldAt(users, start, before, cn)
      ensures HeldAt(users, start, after, cn)
    {
      HeldStill(users, start, before, after, cn);
    }
  }

  ghost predicate DroppedFrom(before: Sessions, after: Sessions, cid: ClientId) {
    exists cn :: cid in SessionsOf(before, cn) && cid !in SessionsOf(after, cn)
  }

  lemma NothingDropped(s: Sessions)
    ensures forall cid :: !DroppedFrom(s, s, cid)
    ensures forall cn :: SessionsOf(s, cn) <= SessionsOf(s, cn)
  {
  }

  lemma UnlistedIsWithin(users: map<Name, Entry>, sessions: Sessions, cn: Name)
    requires cn !in users
    ensures Within(users, sessions, cn)
  {
  }

  lemma HeldIsWithin(users: map<Name, Entry>, before: Sessions, after: Sessions, cn: Name, u: User)
    requires cn in users && MadeFrom(users[cn], u)
    requires HeldTo(u.ipLimit, SessionsOf(before, cn), SessionsOf(after, cn))
    ensures Within(users, after, cn)
  {
  }

  lemma ListedIsHeld(tag: string, list: seq<User>, i: int, cn: Name, users: map<Name, Entry>, was: Sessions,
                     start: Sessions, end: Sessions, removed: set<Name>)
    requires LastWanted(tag, list, i, cn) && cn in users && MadeFrom(users[cn], list[i])
    requires cn !in removed && start == was - removed
    requires forall u :: u in list ==> HeldAt(users, start, end, u.email)
    ensures HeldTo(list[i].ipLimit, SessionsOf(was, cn), SessionsOf(end, cn))
  {
    assert list[i] in list && list[i].email == cn;
    assert HeldAt(users, start, end, cn);
  }

  lemma FewerSessions(s: Sessions, removed: set<Name>)
    ensures forall cn :: SessionsOf(s - removed, cn) <= SessionsOf(s, cn)
  {
  }

  lemma DroppedGrows(start: Sessions, before: Sessions, after: Sessions, cn: Name)
    requires forall n :: SessionsOf(before, n) <= SessionsOf(start, n)
    requires SessionsOf(after, cn) <= SessionsOf(before, cn)
    requires forall n :: n != cn ==> SessionsOf(after, n) == SessionsOf(before, n)
    ensures forall cid :: DroppedFrom(start, after, cid) <==>
                          DroppedFrom(start, before, cid) || cid in SessionsOf(before, cn) - SessionsOf(after, cn)
  {
    forall cid
      ensures DroppedFrom(start, after, cid) <==>
              DroppedFrom(start, before, cid) || cid in SessionsOf(before, cn) - SessionsOf(after, cn)
    {
      if DroppedFrom(start, after, cid) {
        var n :| cid in SessionsOf(start, n) && cid !in SessionsOf(after, n);
        if cid in SessionsOf(before, n) {
          assert n == cn;
        }
      }
      if DroppedFrom(start, before, cid) {
        var n :| cid in SessionsOf(start, n) && cid !in SessionsOf(before, n);
        assert cid !in SessionsOf(after, n);
      }
      if cid in SessionsOf(before, cn) - SessionsOf(after, cn) {
        assert cid in SessionsOf(start, cn);
      }
    }
  }

  lemma SurvivorsOnly(users: map<Name, Entry>, users': map<Name, Entry>, sessions: Sessions, start: Sessions,
                      end: Sessions, cid: ClientId)
    requires Tracked(users, sessions) && start == sessions - (users.Keys - users'.Keys)
    ensures DroppedFrom(start, end, cid) <==>
            exists cn :: cn in users' && cid in SessionsOf(sessions, cn) && cid !in SessionsOf(end, cn)
  {
    forall cn
      ensures SessionsOf(start, cn) == if cn in users' then SessionsOf(sessions, cn) else {}
    {
    }
  }
}
