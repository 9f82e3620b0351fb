/** Which client account a user gets on an inbound, and the ways the inbound's client map is brought up to
    date: backend/xray/config.go, backend/xray/user.go and the account constructors in
    backend/xray/api/account.go. */
module XrayUsers {
  import opened Wrappers
  import opened Passwords

  type Email = string
  type Tag = string
  type Digest = string -> seq<byte>

  datatype Protocol = Vmess | Vless | Trojan | Shadowsocks | Hysteria | AnyTLS | Tuic | Naive | Other

  /** A user's proxy messages, each absent or present. An id that does not parse as a UUID is Garbled. */
  datatype Id = Garbled | Parsed(uuid: string)
  datatype Proxies = Proxies(
    vmess: Option<Id>, vless: Option<Id>, trojan: Option<string>, shadowsocks: Option<(string, string)>,
    hysteria: Option<string>, anytls: Option<string>, tuic: Option<(Id, string)>, naive: Option<(string, string)>)
  datatype User = User(email: Email, inbounds: seq<Tag>, proxies: Proxies, ipLimit: nat)

  datatype Account =
    | VmessAccount(email: Email, id: string)
    | VlessAccount(email: Email, id: string)
    | TrojanAccount(email: Email, password: string)
    | ShadowsocksTcpAccount(email: Email, password: string, cipher: string)
    | ShadowsocksAccount(email: Email, password: string)
    | HysteriaAccount(email: Email, auth: string)
    | AnyTLSAccount(email: Email, password: string)
    | TuicAccount(email: Email, id: string, password: string)
    | NaiveAccount(email: Email, username: string, password: string)

  type Clients = map<Email, Account>

  /** The parts of an inbound that user updates do not change. The cipher is Settings["method"], when that
      is a string. */
  datatype Spec = Spec(tag: Tag, protocol: Protocol, cipher: Option<string>, exclude: bool)

  predicate Is2022(spec: Spec) {
    spec.cipher.Some? && "2022-blake3" <= spec.cipher.value
  }

  /** The ciphers plain Shadowsocks knows; any other name stands for "none". */
  const CIPHERS := {
    "aes-128-gcm", "aes-256-gcm", "chacha20-poly1305", "chacha20-ietf-poly1305",
    "xchacha20-poly1305", "xchacha20-ietf-poly1305", "none"
  }

  function NewVmess(u: User): Option<Account>
    requires u.proxies.vmess.Some?
  {
    if u.proxies.vmess.value.Garbled? then None else Some(VmessAccount(u.email, u.proxies.vmess.value.uuid))
  }

  function NewVless(u: User): Option<Account>
    requires u.proxies.vless.Some?
  {
    if u.proxies.vless.value.Garbled? then None else Some(VlessAccount(u.email, u.proxies.vless.value.uuid))
  }

  function NewTuic(u: User): Option<Account>
    requires u.proxies.tuic.Some?
  {
    var (id, password) := u.proxies.tuic.value;
    if id.Garbled? then None else Some(TuicAccount(u.email, id.uuid, password))
  }

  function NewShadowsocksTcp(u: User): Account
    requires u.proxies.shadowsocks.Some?
  {
    var (password, cipher) := u.proxies.shadowsocks.value;
    ShadowsocksTcpAccount(u.email, password, if cipher in CIPHERS then cipher else "none")
  }

  function NewShadowsocks(u: User): Account
    requires u.proxies.shadowsocks.Some?
  {
    ShadowsocksAccount(u.email, u.proxies.shadowsocks.value.0)
  }

  function CheckShadowsocks2022(cipher: string, a: Account, sum: Digest): Account
    requires IsDigest(sum) && a.ShadowsocksAccount?
  {
    ShadowsocksAccount(a.email, EnsureBase64Password(a.password, cipher, sum))
  }

  /** The incremental path builds a user's accounts for every protocol first. */
  datatype ProxySettings = ProxySettings(
    vmess: Option<Account>, vless: Option<Account>, trojan: Option<Account>, shadowsocks: Option<Account>,
    shadowsocks2022: Option<Account>, hysteria: Option<Account>, anytls: Option<Account>, tuic: Option<Account>,
    naive: Option<Account>)

  function SetupUserAccount(u: User): ProxySettings {
    var p := u.proxies;
    ProxySettings(
      if p.vmess.Some? then NewVmess(u) else None,
      if p.vless.Some? then NewVless(u) else None,
      if p.trojan.Some? then Some(TrojanAccount(u.email, p.trojan.value)) else None,
      if p.shadowsocks.Some? then Some(NewShadowsocksTcp(u)) else None,
      if p.shadowsocks.Some? then Some(NewShadowsocks(u)) else None,
      if p.hysteria.Some? then Some(HysteriaAccount(u.email, p.hysteria.value)) else None,
      if p.anytls.Some? then Some(AnyTLSAccount(u.email, p.anytls.value)) else None,
      if p.tuic.Some? then NewTuic(u) else None,
      if p.naive.Some? then Some(NaiveAccount(u.email, p.naive.value.0, p.naive.value.1)) else None)
  }

  function IsActiveInbound(spec: Spec, inbounds: seq<Tag>, s: ProxySettings, sum: Digest): Option<Account>
    requires IsDigest(sum) && (s.shadowsocks2022.Some? ==> s.shadowsocks2022.value.ShadowsocksAccount?)
  {
    if spec.tag !in inbounds then None
    else
      match spec.protocol
      case Vless => s.vless
      case Vmess => s.vmess
      case Trojan => s.trojan
      case Shadowsocks =>
        if Is2022(spec) then
          if s.shadowsocks2022.None? then None
          else Some(CheckShadowsocks2022(spec.cipher.value, s.shadowsocks2022.value, sum))
        else s.shadowsocks
      case Hysteria => s.hysteria
      case AnyTLS => s.anytls
      case Tuic => s.tuic
      case Naive => s.naive
      case Other => None
  }

  function Active(spec: Spec, u: User, sum: Digest): Option<Account>
    requires IsDigest(sum)
  {
    IsActiveInbound(spec, u.inbounds, SetupUserAccount(u), sum)
  }

  /** The rebuild path decides protocol by protocol, straight from the user. */
  function Rebuilt(spec: Spec, u: User, sum: Digest): Option<Account>
    requires IsDigest(sum)
  {
    var p := u.proxies;
    match spec.protocol
    case Vmess => if p.vmess.None? || spec.tag !in u.inbounds then None else NewVmess(u)
    case Vless => if p.vless.None? || spec.tag !in u.inbounds then None else NewVless(u)
    case Trojan => if p.trojan.None? || spec.tag !in u.inbounds then None
        else Some(TrojanAccount(u.email, p.trojan.value))
    case Shadowsocks =>
      if Is2022(spec) then
        if p.shadowsocks.None? || spec.tag !in u.inbounds then None
        else Some(CheckShadowsocks2022(spec.cipher.value, NewShadowsocks(u), sum))
      else
        if p.shadowsocks.None? || spec.tag !in u.inbounds then None else Some(NewShadowsocksTcp(u))
    case Hysteria => if p.hysteria.None? || spec.tag !in u.inbounds then None
        else Some(HysteriaAccount(u.email, p.hysteria.value))
    case AnyTLS => if p.anytls.None? || spec.tag !in u.inbounds then None
        else Some(AnyTLSAccount(u.email, p.anytls.value))
    case Tuic => if p.tuic.None? || spec.tag !in u.inbounds then None else NewTuic(u)
    case Naive => if p.naive.None? || spec.tag !in u.inbounds then None
        else Some(NaiveAccount(u.email, p.naive.value.0, p.naive.value.1))
    case Other => None
  }

  /** What the incremental path stores for an account: a Shadowsocks 2022 password is normalised once more. */
  function Stored(spec: Spec, a: Account, sum: Digest): Account
    requires IsDigest(sum)
  {
    if a.ShadowsocksAccount? && spec.cipher.Some? then CheckShadowsocks2022(spec.cipher.value, a, sum) else a
  }

  /** The account types an inbound of this protocol serialises. */
  predicate Fits(spec: Spec, a: Account) {
    match spec.protocol
    case Vmess => a.VmessAccount?
    case Vless => a.VlessAccount?
    case Trojan => a.TrojanAccount?
    case Shadowsocks => if Is2022(spec) then a.ShadowsocksAccount? else a.ShadowsocksTcpAccount?
    case Hysteria => a.HysteriaAccount?
    case AnyTLS => a.AnyTLSAccount?
    case Tuic => a.TuicAccount?
    case Naive => a.NaiveAccount?
    case Other => false
  }

  /** Both paths pick the same users with the same account, always of the type the inbound serialises. */
  lemma PathsAgree(spec: Spec, u: User, sum: Digest)
    requires IsDigest(sum)
    ensures Active(spec, u, sum) == Rebuilt(spec, u, sum)
    ensures Active(spec, u, sum).Some? ==>
              var a := Active(spec, u, sum).value;
              a.email == u.email && Fits(spec, a) && Stored(spec, a, sum).email == u.email
                  && Fits(spec, Stored(spec, a, sum))
  {
  }

  /** Who is active, and with what account, in the user's own fields. A user is active on an inbound if and
      only if it lists the inbound's tag, has a message for the inbound's protocol, and the id in it, where
      there is one, parses. */
  lemma AccountMeans(spec: Spec, u: User, sum: Digest)
    requires IsDigest(sum)
    ensures spec.tag !in u.inbounds || spec.protocol == Other ==> Active(spec, u, sum) == None
    ensures spec.tag in u.inbounds ==>
              var p := u.proxies;
              match spec.protocol
              case Vmess =>
                Active(spec, u, sum) ==
                  if p.vmess.Some? && p.vmess.value.Parsed?
                  then Some(VmessAccount(u.email, p.vmess.value.uuid)) else None
              case Vless =>
                Active(spec, u, sum) ==
                  if p.vless.Some? && p.vless.value.Parsed?
                  then Some(VlessAccount(u.email, p.vless.value.uuid)) else None
              case Trojan =>
                Active(spec, u, sum) ==
                  if p.trojan.Some? then Some(TrojanAccount(u.email, p.trojan.value)) else None
              case Hysteria =>
                Active(spec, u, sum) ==
                  if p.hysteria.Some? then Some(HysteriaAccount(u.email, p.hysteria.value)) else None
              case AnyTLS =>
                Active(spec, u, sum) ==
                  if p.anytls.Some? then Some(AnyTLSAccount(u.email, p.anytls.value)) else None
              case Tuic =>
                Active(spec, u, sum) ==
                  if p.tuic.Some? && p.tuic.value.0.Parsed?
                  then Some(TuicAccount(u.email, p.tuic.value.0.uuid, p.tuic.value.1)) else None
              case Naive =>
                Active(spec, u, sum) ==
                  if p.naive.Some? then Some(NaiveAccount(u.email, p.naive.value.0, p.naive.value.1)) else None
              case Shadowsocks => Active(spec, u, sum).Some? <==> p.shadowsocks.Some?
              case Other => true
  {
  }

  /** A Shadowsocks account has the user's password and, of the user's cipher, one of the seven known ones or
      "none"; on an inbound whose method begins with "2022-blake3", just the password, normalised for it. */
  lemma ShadowsocksMeans(spec: Spec, u: User, sum: Digest)
    requires IsDigest(sum) && spec.protocol == Shadowsocks && spec.tag in u.inbounds && u.proxies.shadowsocks.Some?
    ensures var (password, cipher) := u.proxies.shadowsocks.value;
            Active(spec, u, sum) == Some(
              if spec.cipher.Some? && "2022-blake3" <= spec.cipher.value then
                ShadowsocksAccount(u.email, EnsureBase64Password(password, spec.cipher.value, sum))
              else if cipher == "aes-128-gcm" || cipher == "aes-256-gcm" || cipher == "chacha20-poly1305"
                      || cipher == "chacha20-ietf-poly1305" || cipher == "xchacha20-poly1305"
                      || cipher == "xchacha20-ietf-poly1305" then
                ShadowsocksTcpAccount(u.email, password, cipher)
              else ShadowsocksTcpAccount(u.email, password, "none"))
  {
    hide EnsureBase64Password;
  }

  /** What is stored for an account is the account, but that a password on such an inbound is normalised. */
  lemma StoredMeans(spec: Spec, a: Account, sum: Digest)
    requires IsDigest(sum)
    ensures !a.ShadowsocksAccount? || spec.cipher.None? ==> Stored(spec, a, sum) == a
    ensures a.ShadowsocksAccount? && spec.cipher.Some? ==>
              Stored(spec, a, sum) ==
                ShadowsocksAccount(a.email, EnsureBase64Password(a.password, spec.cipher.value, sum))
  {
  }

  /** Storing through the incremental path what the rebuild stores once-normalised makes no difference
      exactly when the inbound's method fixes a key length or the hash happens to be a fixed point. */
  predicate Steady(spec: Spec, u: User, sum: Digest) {
    spec.protocol == Shadowsocks && Is2022(spec) && u.proxies.shadowsocks.Some? ==>
      || Aes128(spec.cipher.value) || Key32(spec.cipher.value)
      || sum(Encode(sum(u.proxies.shadowsocks.value.0))) == sum(u.proxies.shadowsocks.value.0)
  }

  lemma StoredIsActiveIff(spec: Spec, u: User, sum: Digest)
    requires IsDigest(sum) && Active(spec, u, sum).Some?
    ensures Stored(spec, Active(spec, u, sum).value, sum) == Active(spec, u, sum).value <==> Steady(spec, u, sum)
  {
    var a := Active(spec, u, sum).value;
    if spec.protocol == Shadowsocks && Is2022(spec) {
      NormalisingIsIdempotentIff(u.proxies.shadowsocks.value.0, spec.cipher.value, sum);
    }
  }

  // ----- The three ways of bringing a client map up to date -----

  function Lookup(m: Clients, e: Email): Option<Account> {
    if e in m then Some(m[e]) else None
  }

  /** One user at a time, as SyncUser does. */
  function Single(spec: Spec, clients: Clients, u: User, sum: Digest): Clients
    requires IsDigest(sum)
  {
    match Active(spec, u, sum)
    case Some(a) => clients[a.email := Stored(spec, a, sum)]
    case None => clients - {u.email}
  }

  function Singles(spec: Spec, clients: Clients, users: seq<User>, sum: Digest): Clients
    requires IsDigest(sum)
    decreases |users|
  {
    if users == [] then clients
    else Single(spec, Singles(spec, clients, users[..|users| - 1], sum), users[|users| - 1], sum)
  }

  /** A batch: all additions in order, then all removals. */
  datatype InboundUpdate = InboundUpdate(accounts: seq<Account>, removeEmails: set<Email>)

  function UpdateFor(spec: Spec, users: seq<User>, sum: Digest): InboundUpdate
    requires IsDigest(sum)
    decreases |users|
  {
    if users == [] then InboundUpdate([], {})
    else
      var before, u := UpdateFor(spec, users[..|users| - 1], sum), users[|users| - 1];
      match Active(spec, u, sum)
      case Some(a) => before.(accounts := before.accounts + [a])
      case None => before.(removeEmails := before.removeEmails + {u.email})
  }

  function Added(spec: Spec, clients: Clients, accounts: seq<Account>, sum: Digest): Clients
    requires IsDigest(sum)
    decreases |accounts|
  {
    if accounts == [] then clients
    else
      var before, a := Added(spec, clients, accounts[..|accounts| - 1], sum), accounts[|accounts| - 1];
      if Fits(spec, a) then before[a.email := Stored(spec, a, sum)] else before
  }

  function Batch(spec: Spec, clients: Clients, users: seq<User>, sum: Digest): Clients
    requires IsDigest(sum)
  {
    var update := UpdateFor(spec, users, sum);
    Added(spec, clients, update.accounts, sum) - update.removeEmails
  }

  /** From nothing, as SyncUsers does. */
  function Rebuild(spec: Spec, users: seq<User>, sum: Digest): Clients
    requires IsDigest(sum)
    decreases |users|
  {
    if users == [] then map[]
    else
      var before, u := Rebuild(spec, users[..|users| - 1], sum), users[|users| - 1];
      match Rebuilt(spec, u, sum)
      case Some(a) => before[u.email := a]
      case None => before
  }

  /** The last entry for an email, and the last one active on this inbound. */
  function LastOf(users: seq<User>, e: Email): Option<User>
    decreases |users|
  {
    if users == [] then None
    else if users[|users| - 1].email == e then Some(users[|users| - 1])
    else LastOf(users[..|users| - 1], e)
  }

  function LastActive(spec: Spec, users: seq<User>, e: Email, sum: Digest): Option<Account>
    requires IsDigest(sum)
    decreases |users|
  {
    if users == [] then None
    else if users[|users| - 1].email == e && Active(spec, users[|users| - 1], sum).Some?
        then Active(spec, users[|users| - 1], sum)
    else LastActive(spec, users[..|users| - 1], e, sum)
  }

  predicate Dropped(spec: Spec, users: seq<User>, e: Email, sum: Digest)
    requires IsDigest(sum)
  {
    exists u :: u in users && u.email == e && Active(spec, u, sum).None?
  }

  function StoredOption(spec: Spec, a: Option<Account>, sum: Digest): Option<Account>
    requires IsDigest(sum)
  {
    if a.None? then None else Some(Stored(spec, a.value, sum))
  }

  /** users[i] is the last entry of an email. */
  ghost predicate LastAt(users: seq<User>, i: int, e: Email) {
    0 <= i < |users| && users[i].email == e && forall j :: i < j < |users| ==> users[j].email != e
  }

  lemma {:induction false} LastOfMeans(users: seq<User>, e: Email)
    ensures forall i :: LastAt(users, i, e) ==> LastOf(users, e) == Some(users[i])
    ensures LastOf(users, e).Some? ==> exists i :: LastAt(users, i, e)
    decreases |users|
  {
    if users != [] {
      var init, n := users[..|users| - 1], |users| - 1;
      if users[n].email == e {
        assert LastAt(users, n, e);
      } else {
        LastOfMeans(init, e);
        forall i
          ensures LastAt(users, i, e) <==> LastAt(init, i, e)
        {
          NotTheLast(users, i, e);
        }
      }
    }
  }

  lemma NotTheLast(users: seq<User>, i: int, e: Email)
    requires users != [] && users[|users| - 1].email != e
    ensures LastAt(users, i, e) <==> LastAt(users[..|users| - 1], i, e)
  {
    var init := users[..|users| - 1];
    if LastAt(init, i, e) {
      forall j | i < j < |users|
        ensures users[j].email != e
      {
        assert j < |init| ==> init[j] == users[j];
      }
    }
    if LastAt(users, i, e) {
      assert forall j :: i < j < |init| ==> init[j] == users[j];
    }
  }

  /** users[i] is the last active entry of an email on the inbound. */
  ghost predicate LastActiveAt(spec: Spec, users: seq<User>, i: int, e: Email, sum: Digest)
    requires IsDigest(sum)
  {
    && 0 <= i < |users| && users[i].email == e && Active(spec, users[i], sum).Some?
    && forall j :: i < j < |users| && users[j].email == e ==> Active(spec, users[j], sum).None?
  }

  lemma {:induction false} LastActiveMeans(spec: Spec, users: seq<User>, e: Email, sum: Digest)
    requires IsDigest(sum)
    ensures forall i :: LastActiveAt(spec, users, i, e, sum) ==>
              LastActive(spec, users, e, sum) == Active(spec, users[i], sum)
    ensures LastActive(spec, users, e, sum).Some? ==> exists i :: LastActiveAt(spec, users, i, e, sum)
    decreases |users|
  {
    hide Active;
    if users != [] {
      var init, n := users[..|users| - 1], |users| - 1;
      if users[n].email == e && Active(spec, users[n], sum).Some? {
        assert LastActiveAt(spec, users, n, e, sum);
      } else {
        LastActiveMeans(spec, init, e, sum);
        forall i
          ensures LastActiveAt(spec, users, i, e, sum) <==> LastActiveAt(spec, init, i, e, sum)
        {
          NotTheLastActive(spec, users, i, e, sum);
        }
      }
    }
  }

  lemma NotTheLastActive(spec: Spec, users: seq<User>, i: int, e: Email, sum: Digest)
    requires IsDigest(sum) && users != []
    requires !(users[|users| - 1].email == e && Active(spec, users[|users| - 1], sum).Some?)
    ensures LastActiveAt(spec, users, i, e, sum) <==> LastActiveAt(spec, users[..|users| - 1], i, e, sum)
  {
    hide Active;
    var init := users[..|users| - 1];
    if LastActiveAt(spec, init, i, e, sum) {
      forall j | i < j < |users| && users[j].email == e
        ensures Active(spec, users[j], sum).None?
      {
        assert j < |init| ==> init[j] == users[j];
      }
    }
    if LastActiveAt(spec, users, i, e, sum) {
      assert forall j :: i < j < |init| ==> init[j] == users[j];
    }
  }

  lemma LastOfIsIn(users: seq<User>, e: Email)
    ensures LastOf(users, e).Some? ==> LastOf(users, e).value in users && LastOf(users, e).value.email == e
    ensures LastOf(users, e).None? ==> forall u :: u in users ==> u.email != e
    decreases |users|
  {
    if users != [] {
      LastOfIsIn(users[..|users| - 1], e);
      assert users == users[..|users| - 1] + [users[|users| - 1]];
    }
  }

  lemma {:induction false} SinglesAt(spec: Spec, clients: Clients, users: seq<User>, e: Email, sum: Digest)
    requires IsDigest(sum)
    ensures Lookup(Singles(spec, clients, users, sum), e) ==
            match LastOf(users, e)
            case None => Lookup(clients, e)
            case Some(u) => StoredOption(spec, Active(spec, u, sum), sum)
    decreases |users|
  {
    hide Active, Stored;
    if users != [] {
      SinglesAt(spec, clients, users[..|users| - 1], e, sum);
      PathsAgree(spec, users[|users| - 1], sum);
    }
  }

  lemma DroppedStep(spec: Spec, init: seq<User>, u: User, e: Email, sum: Digest)
    requires IsDigest(sum)
    ensures Dropped(spec, init + [u], e, sum) <==>
            Dropped(spec, init, e, sum) || (u.email == e && Active(spec, u, sum).None?)
  {
    hide Active;
    if u.email == e && Active(spec, u, sum).None? {
      assert u in init + [u];
    }
    if Dropped(spec, init, e, sum) {
      var v :| v in init && v.email == e && Active(spec, v, sum).None?;
      assert v in init + [u];
    }
  }

  lemma {:induction false} RemovedAt(spec: Spec, users: seq<User>, e: Email, sum: Digest)
    requires IsDigest(sum)
    ensures e in UpdateFor(spec, users, sum).removeEmails <==> Dropped(spec, users, e, sum)
    decreases |users|
  {
    hide Active, Dropped;
    if users == [] {
      NobodyDropped(spec, e, sum);
    } else {
      var init, u := users[..|users| - 1], users[|users| - 1];
      assert users == init + [u];
      RemovedAt(spec, init, e, sum);
      DroppedStep(spec, init, u, e, sum);
    }
  }

  lemma NobodyDropped(spec: Spec, e: Email, sum: Digest)
    requires IsDigest(sum)
    ensures !Dropped(spec, [], e, sum)
  {
  }

  lemma AddedStep(spec: Spec, clients: Clients, accounts: seq<Account>, a: Account, sum: Digest)
    requires IsDigest(sum)
    ensures Added(spec, clients, accounts + [a], sum) ==
            var before := Added(spec, clients, accounts, sum);
            if Fits(spec, a) then before[a.email := Stored(spec, a, sum)] else before
  {
    assert (accounts + [a])[..|accounts|] == accounts;
  }

  lemma {:induction false} AddedAt(spec: Spec, clients: Clients, users: seq<User>, e: Email, sum: Digest)
    requires IsDigest(sum)
    ensures Lookup(Added(spec, clients, UpdateFor(spec, users, sum).accounts, sum), e) ==
            if LastActive(spec, users, e, sum).None? then Lookup(clients, e)
            else StoredOption(spec, LastActive(spec, users, e, sum), sum)
    decreases |users|
  {
    hide Active, Stored, Fits;
    if users != [] {
      var init, u := users[..|users| - 1], users[|users| - 1];
      AddedAt(spec, clients, init, e, sum);
      PathsAgree(spec, u, sum);
      if Active(spec, u, sum).Some? {
        hide Added;
        AddedStep(spec, clients, UpdateFor(spec, init, sum).accounts, Active(spec, u, sum).value, sum);
      }
    }
  }

  lemma UpdateAt(spec: Spec, clients: Clients, users: seq<User>, e: Email, sum: Digest)
    requires IsDigest(sum)
    ensures e in UpdateFor(spec, users, sum).removeEmails <==> Dropped(spec, users, e, sum)
    ensures Lookup(Added(spec, clients, UpdateFor(spec, users, sum).accounts, sum), e) ==
            if LastActive(spec, users, e, sum).None? then Lookup(clients, e)
            else StoredOption(spec, LastActive(spec, users, e, sum), sum)
  {
    hide *;
    RemovedAt(spec, users, e, sum);
    AddedAt(spec, clients, users, e, sum);
  }

  lemma {:induction false} LastActiveOf(spec: Spec, users: seq<User>, e: Email, sum: Digest)
    requires IsDigest(sum) && !Dropped(spec, users, e, sum)
    ensures LastActive(spec, users, e, sum) ==
            match LastOf(users, e)
            case None => None
            case Some(u) => Active(spec, u, sum)
    decreases |users|
  {
    hide Active;
    if users != [] {
      var init, u := users[..|users| - 1], users[|users| - 1];
      assert users == init + [u];
      assert !Dropped(spec, init, e, sum);
      assert u in users;
      LastActiveOf(spec, init, e, sum);
    }
  }

  /** Where a batch leaves an email: gone as soon as one entry for it is inactive, whatever the others say. */
  lemma BatchAt(spec: Spec, clients: Clients, users: seq<User>, e: Email, sum: Digest)
    requires IsDigest(sum)
    ensures Lookup(Batch(spec, clients, users, sum), e) ==
            if Dropped(spec, users, e, sum) then None
            else
              match LastOf(users, e)
              case None => Lookup(clients, e)
              case Some(u) => StoredOption(spec, Active(spec, u, sum), sum)
  {
    hide Active, Stored, Fits, UpdateFor, Added;
    UpdateAt(spec, clients, users, e, sum);
    if !Dropped(spec, users, e, sum) {
      LastActiveOf(spec, users, e, sum);
      LastOfIsIn(users, e);
    }
  }

  lemma {:induction false} RebuildAt(spec: Spec, users: seq<User>, e: Email, sum: Digest)
    requires IsDigest(sum)
    ensures Lookup(Rebuild(spec, users, sum), e) == LastActive(spec, users, e, sum)
    decreases |users|
  {
    hide Active, Rebuilt;
    if users != [] {
      RebuildAt(spec, users[..|users| - 1], e, sum);
      PathsAgree(spec, users[|users| - 1], sum);
    }
  }

  predicate DistinctEmails(users: seq<User>) {
    forall i, j :: 0 <= i < j < |users| ==> users[i].email != users[j].email
  }

  /** An email whose last entry is active although an earlier one is not. */
  predicate Revived(spec: Spec, users: seq<User>, e: Email, sum: Digest)
    requires IsDigest(sum)
  {
    Dropped(spec, users, e, sum) && LastOf(users, e).Some? && Active(spec, LastOf(users, e).value, sum).Some?
  }

  /** A batch equals applying its users one by one exactly when no email in it is inactive first and active
      last: removals run after additions. */
  lemma BatchIsSinglesIff(spec: Spec, clients: Clients, users: seq<User>, sum: Digest)
    requires IsDigest(sum)
    ensures Batch(spec, clients, users, sum) == Singles(spec, clients, users, sum)
            <==> forall e :: !Revived(spec, users, e, sum)
  {
    hide Active, Stored, Fits, Batch, Singles, Dropped;
    var batch, singles := Batch(spec, clients, users, sum), Singles(spec, clients, users, sum);
    forall e
      ensures Lookup(batch, e) == Lookup(singles, e) <==> !Revived(spec, users, e, sum)
    {
      BatchAt(spec, clients, users, e, sum);
      SinglesAt(spec, clients, users, e, sum);
      SomeoneDropped(spec, users, e, sum);
    }
    SameLookups(batch, singles);
  }

  /** A Trojan user, on the inbound with this tag or on none. */
  function TrojanUser(e: Email, inbounds: seq<Tag>): User {
    User(e, inbounds, Proxies(None, None, Some("secret"), None, None, None, None, None), 0)
  }

  /** An email listed inactive first and active last: the single updates keep it, the batch drops it. */
  lemma RevivedIsDropped(e: Email, t: Tag, sum: Digest)
    requires IsDigest(sum)
    ensures var spec := Spec(t, Trojan, None, false);
            var users := [TrojanUser(e, []), TrojanUser(e, [t])];
            && Revived(spec, users, e, sum)
            && e in Singles(spec, map[], users, sum) && e !in Batch(spec, map[], users, sum)
  {
    var spec := Spec(t, Trojan, None, false);
    var users := [TrojanUser(e, []), TrojanUser(e, [t])];
    hide Singles, Batch;
    assert users[0] in users && Active(spec, users[0], sum).None?;
    assert LastOf(users, e) == Some(users[1]);
    BatchAt(spec, map[], users, e, sum);
    SinglesAt(spec, map[], users, e, sum);
    assert Lookup(Singles(spec, map[], users, sum), e).Some? && Lookup(Batch(spec, map[], users, sum), e).None?;
  }

  lemma SomeoneDropped(spec: Spec, users: seq<User>, e: Email, sum: Digest)
    requires IsDigest(sum)
    ensures Dropped(spec, users, e, sum) ==> LastOf(users, e).Some?
  {
    LastOfIsIn(users, e);
  }

  lemma SameLookups(a: Clients, b: Clients)
    ensures a == b <==> forall e :: Lookup(a, e) == Lookup(b, e)
  {
    if forall e :: Lookup(a, e) == Lookup(b, e) {
      forall e
        ensures e in a <==> e in b
        ensures e in a && e in b ==> a[e] == b[e]
      {
        assert Lookup(a, e) == Lookup(b, e);
      }
      assert a.Keys == b.Keys;
    }
  }

  lemma DistinctFinds(users: seq<User>, u: User)
    requires DistinctEmails(users) && u in users
    ensures LastOf(users, u.email) == Some(u)
    ensures forall v :: v in users && v.email == u.email ==> v == u
  {
    LastOfIsIn(users, u.email);
  }

  /** With distinct emails a batch is the fold of single updates, in whatever order they are applied. */
  lemma DistinctBatchIsAnyFold(spec: Spec, clients: Clients, users: seq<User>, reordered: seq<User>, sum: Digest)
    requires IsDigest(sum) && DistinctEmails(users) && DistinctEmails(reordered)
    requires forall u :: u in users <==> u in reordered
    ensures Batch(spec, clients, users, sum) == Singles(spec, clients, reordered, sum)
  {
    hide Active, Stored, Fits, Batch, Singles, DistinctEmails;
    forall e
      ensures Lookup(Batch(spec, clients, users, sum), e) == Lookup(Singles(spec, clients, reordered, sum), e)
    {
      BatchAt(spec, clients, users, e, sum);
      SinglesAt(spec, clients, reordered, e, sum);
      LastOfIsIn(users, e);
      LastOfIsIn(reordered, e);
      if LastOf(users, e).Some? {
        DistinctFinds(users, LastOf(users, e).value);
        DistinctFinds(reordered, LastOf(users, e).value);
      }
    }
    SameLookups(Batch(spec, clients, users, sum), Singles(spec, clients, reordered, sum));
  }

  /** With distinct emails, a batch leaves a touched email exactly as a full rebuild from the batch would if
      and only if its user is not a client or its password is steady; untouched emails stay as they were. */
  lemma DistinctBatchIsRebuildIff(spec: Spec, clients: Clients, users: seq<User>, sum: Digest)
    requires IsDigest(sum) && DistinctEmails(users)
    ensures forall u :: u in users ==>
                          (Lookup(Batch(spec, clients, users, sum), u.email) ==
                              Lookup(Rebuild(spec, users, sum), u.email)
                           <==> Active(spec, u, sum).None? || Steady(spec, u, sum))
    ensures forall e :: (forall u :: u in users ==> u.email != e) ==>
              Lookup(Batch(spec, clients, users, sum), e) == Lookup(clients, e)
  {
    hide Active, Stored, Fits, Steady, Batch, Rebuild, DistinctEmails;
    forall u | u in users
      ensures Lookup(Batch(spec, clients, users, sum), u.email) == Lookup(Rebuild(spec, users, sum), u.email)
              <==> Active(spec, u, sum).None? || Steady(spec, u, sum)
    {
      BatchAt(spec, clients, users, u.email, sum);
      RebuildAt(spec, users, u.email, sum);
      DistinctFinds(users, u);
      if Active(spec, u, sum).Some? {
        LastActiveOf(spec, users, u.email, sum);
        StoredIsActiveIff(spec, u, sum);
      } else {
        NoLastActive(spec, users, u.email, sum);
      }
    }
    forall e | forall u :: u in users ==> u.email != e
      ensures Lookup(Batch(spec, clients, users, sum), e) == Lookup(clients, e)
    {
      BatchAt(spec, clients, users, e, sum);
      LastOfIsIn(users, e);
    }
  }

  lemma {:induction false} NoLastActive(spec: Spec, users: seq<User>, e: Email, sum: Digest)
    requires IsDigest(sum) && forall u :: u in users && u.email == e ==> Active(spec, u, sum).None?
    ensures LastActive(spec, users, e, sum).None?
    decreases |users|
  {
    hide Active;
    if users != [] {
      var init := users[..|users| - 1];
      assert users == init + [users[|users| - 1]];
      NoLastActive(spec, init, e, sum);
    }
  }

  /** Every client is stored under its own email with the type its inbound serialises. */
  predicate Typed(spec: Spec, clients: Clients) {
    forall e :: e in clients ==> clients[e].email == e && Fits(spec, clients[e])
  }

  lemma SingleKeepsTyped(spec: Spec, clients: Clients, u: User, sum: Digest)
    requires IsDigest(sum) && Typed(spec, clients)
    ensures Typed(spec, Single(spec, clients, u, sum))
  {
    hide Active, Stored, Fits;
    PathsAgree(spec, u, sum);
  }

  lemma {:induction false} BatchKeepsTyped(spec: Spec, clients: Clients, users: seq<User>, sum: Digest)
    requires IsDigest(sum) && Typed(spec, clients)
    ensures Typed(spec, Batch(spec, clients, users, sum))
  {
    hide Active, Stored, Fits, Batch;
    var after := Batch(spec, clients, users, sum);
    forall e | e in after
      ensures after[e].email == e && Fits(spec, after[e])
    {
      BatchAt(spec, clients, users, e, sum);
      LastOfIsIn(users, e);
      if LastOf(users, e).Some? {
        PathsAgree(spec, LastOf(users, e).value, sum);
      }
    }
  }

  lemma {:induction false} RebuildIsTyped(spec: Spec, users: seq<User>, sum: Digest)
    requires IsDigest(sum)
    ensures Typed(spec, Rebuild(spec, users, sum))
    decreases |users|
  {
    hide Active, Rebuilt, Fits;
    if users != [] {
      RebuildIsTyped(spec, users[..|users| - 1], sum);
      PathsAgree(spec, users[|users| - 1], sum);
    }
  }
}
