/** The client maps of the xray configuration, updated in place: backend/xray/config.go. */
module XrayConfig {
  import opened XrayUsers
  import opened Passwords

  class Inbound {
    const spec: Spec
    const sum: Digest
    var clients: Clients

    ghost predicate Valid()
      reads this
    {
      IsDigest(sum) && Typed(spec, clients)
    }

    constructor (spec: Spec, sum: Digest)
      requires IsDigest(sum)
      ensures Valid() && this.spec == spec && this.sum == sum && clients == map[]
    {
      this.spec, this.sum, clients := spec, sum, map[];
    }

    method SyncUsers(users: seq<User>)
      requires Valid()
      modifies this
      ensures Valid() && clients == Rebuild(spec, users, sum)
    {
      hide Rebuilt, Typed, Fits;
      clients := map[];
      for n := 0 to |users|
        invariant clients == Rebuild(spec, users[..n], sum)
      {
        assert users[..n + 1][..n] == users[..n];
        var account := Rebuilt(spec, users[n], sum);
        if account.Some? {
          clients := clients[users[n].email := account.value];
        }
      }
      assert users[..|users|] == users;
      RebuildIsTyped(spec, users, sum);
    }

    method UpdateUser(account: Account)
      requires IsDigest(sum)
      modifies this
      ensures clients == old(clients)[account.email := Stored(spec, account, sum)]
    {
      match account
      case ShadowsocksAccount(email, _) =>
        if spec.cipher.Some? {
          var na := CheckShadowsocks2022(spec.cipher.value, account, sum);
          clients := clients[email := na];
        } else {
          clients := clients[email := account];
        }
      case _ => clients := clients[account.email := account];
    }

    method RemoveUser(email: Email)
      modifies this
      ensures clients == old(clients) - {email}
    {
      clients := clients - {email};
    }

    /** Additions in order, those of the inbound's own account type only; then the removals. */
    method UpdateUsers(accounts: seq<Account>, removeEmails: set<Email>)
      requires IsDigest(sum)
      modifies this
      ensures clients == Added(spec, old(clients), accounts, sum) - removeEmails
    {
      hide Fits, Stored;
      for n := 0 to |accounts|
        invariant clients == Added(spec, old(clients), accounts[..n], sum)
      {
        assert accounts[..n + 1][..n] == accounts[..n];
        if Fits(spec, accounts[n]) {
          clients := clients[accounts[n].email := Stored(spec, accounts[n], sum)];
        }
      }
      assert accounts[..|accounts|] == accounts;
      ghost var added := clients;
      var todo := removeEmails;
      while todo != {}
        invariant todo <= removeEmails
        invariant clients == added - (removeEmails - todo)
        decreases |todo|
      {
        var e :| e in todo;
        assert removeEmails - (todo - {e}) == (removeEmails - todo) + {e};
        todo := todo - {e};
        clients := clients - {e};
      }
      assert removeEmails - {} == removeEmails;
    }

    /** What serialisation hands the core: the clients of the protocol's own type. None are left out. */
    method Serialise() returns (out: Clients)
      requires Valid()
      ensures out == clients
    {
      hide Fits;
      out := map[];
      var todo := clients.Keys;
      while todo != {}
        invariant todo <= clients.Keys
        invariant forall e :: e in out <==> e in clients && e !in todo
        invariant forall e :: e in out ==> out[e] == clients[e]
        decreases |todo|
      {
        var e :| e in todo;
        todo := todo - {e};
        if Fits(spec, clients[e]) {
          out := out[clients[e].email := clients[e]];
        }
      }
    }
  }

  class Config {
    const inbounds: seq<Inbound>
    const sum: Digest

    ghost predicate Wired() {
      && IsDigest(sum)
      && (forall j, k :: 0 <= j < k < |inbounds| ==> inbounds[j] != inbounds[k])
      && (forall j :: 0 <= j < |inbounds| ==> inbounds[j].sum == sum)
    }

    ghost predicate Valid()
      reads inbounds
    {
      Wired() && forall j :: 0 <= j < |inbounds| ==> Typed(inbounds[j].spec, inbounds[j].clients)
    }

    /** The inbound a tag stands for in a batch: the last one that carries it. */
    ghost predicate Chosen(j: int) {
      && 0 <= j < |inbounds| && !inbounds[j].spec.exclude
      && forall k :: j < k < |inbounds| && !inbounds[k].spec.exclude ==> inbounds[k].spec.tag != inbounds[j].spec.tag
    }

    ghost predicate DistinctTags() {
      forall j, k :: 0 <= j < k < |inbounds| && !inbounds[j].spec.exclude && !inbounds[k].spec.exclude ==>
        inbounds[j].spec.tag != inbounds[k].spec.tag
    }

    constructor (inbounds: seq<Inbound>, sum: Digest)
      requires IsDigest(sum)
      requires forall j, k :: 0 <= j < k < |inbounds| ==> inbounds[j] != inbounds[k]
      requires forall j :: 0 <= j < |inbounds| ==>
                inbounds[j].sum == sum && Typed(inbounds[j].spec, inbounds[j].clients)
      ensures Valid() && this.inbounds == inbounds && this.sum == sum
    {
      this.inbounds, this.sum := inbounds, sum;
    }

    method SyncUsers(users: seq<User>)
      requires Valid()
      modifies inbounds
      ensures Valid()
      ensures forall j :: 0 <= j < |inbounds| ==>
                            inbounds[j].clients == if inbounds[j].spec.exclude then old(inbounds[j].clients)
                                                   else Rebuild(inbounds[j].spec, users, sum)
    {
      hide Rebuild, Typed;
      for n := 0 to |inbounds|
        invariant forall j :: 0 <= j < |inbounds| ==>
                                inbounds[j].clients ==
                                    if j >= n || inbounds[j].spec.exclude then old(inbounds[j].clients)
                                                       else Rebuild(inbounds[j].spec, users, sum)
      {
        if !inbounds[n].spec.exclude {
          inbounds[n].SyncUsers(users);
        }
      }
      forall j | 0 <= j < |inbounds|
        ensures Typed(inbounds[j].spec, inbounds[j].clients)
      {
        RebuildIsTyped(inbounds[j].spec, users, sum);
      }
    }

    method BuildInboundUpdates(users: seq<User>)
      returns (inboundByTag: map<Tag, Inbound>, updates: map<Tag, InboundUpdate>)
      requires Wired()
      ensures inboundByTag.Keys == updates.Keys
      ensures forall j :: Chosen(j) ==>
                inbounds[j].spec.tag in inboundByTag && inboundByTag[inbounds[j].spec.tag] == inbounds[j]
      ensures forall t :: t in inboundByTag ==>
                exists j :: 0 <= j < |inbounds| && Chosen(j) && inboundByTag[t] == inbounds[j]
                    && inbounds[j].spec.tag == t
      ensures forall t :: t in updates ==> updates[t] == UpdateFor(inboundByTag[t].spec, users, sum)
    {
      inboundByTag := TagInbounds();
      updates := map t | t in inboundByTag :: InboundUpdate([], {});
      for n := 0 to |users|
        invariant inboundByTag.Keys == updates.Keys
        invariant forall t :: t in updates ==> updates[t] == UpdateFor(inboundByTag[t].spec, users[..n], sum)
      {
        updates := AddUser(users, n, inboundByTag, updates);
      }
      assert users[..|users|] == users;
    }

    method AddUser(users: seq<User>, n: nat, inboundByTag: map<Tag, Inbound>, updates: map<Tag, InboundUpdate>)
      returns (after: map<Tag, InboundUpdate>)
      requires IsDigest(sum) && n < |users| && inboundByTag.Keys == updates.Keys
      requires forall t :: t in updates ==> updates[t] == UpdateFor(inboundByTag[t].spec, users[..n], sum)
      ensures after.Keys == updates.Keys
      ensures forall t :: t in after ==> after[t] == UpdateFor(inboundByTag[t].spec, users[..n + 1], sum)
    {
      hide IsActiveInbound;
      assert users[..n + 1][..n] == users[..n];
      var u := users[n];
      var settings := SetupUserAccount(u);
      after := updates;
      var todo := inboundByTag.Keys;
      while todo != {}
        invariant todo <= inboundByTag.Keys && after.Keys == updates.Keys
        invariant forall t :: t in after ==>
                after[t] ==
                  if t in todo then updates[t] else UpdateFor(inboundByTag[t].spec, users[..n + 1], sum)
        decreases |todo|
      {
        var t :| t in todo;
        todo := todo - {t};
        var account := IsActiveInbound(inboundByTag[t].spec, u.inbounds, settings, sum);
        if account.Some? {
          after := after[t := after[t].(accounts := after[t].accounts + [account.value])];
        } else {
          after := after[t := after[t].(removeEmails := after[t].removeEmails + {u.email})];
        }
      }
    }

    method TagInbounds() returns (inboundByTag: map<Tag, Inbound>)
      ensures forall j :: Chosen(j) ==>
                inbounds[j].spec.tag in inboundByTag && inboundByTag[inbounds[j].spec.tag] == inbounds[j]
      ensures forall t :: t in inboundByTag ==>
                exists j :: 0 <= j < |inbounds| && Chosen(j) && inboundByTag[t] == inbounds[j]
                    && inbounds[j].spec.tag == t
    {
      inboundByTag := map[];
      ghost var last: map<Tag, int> := map[];
      for n := 0 to |inbounds|
        invariant last.Keys == inboundByTag.Keys
        invariant forall t :: t in last ==>
                                && 0 <= last[t] < n && inboundByTag[t] == inbounds[last[t]]
                                    && inbounds[last[t]].spec.tag == t
                                && !inbounds[last[t]].spec.exclude
                                && forall k :: last[t] < k < n && !inbounds[k].spec.exclude ==>
                                    inbounds[k].spec.tag != t
        invariant forall k :: 0 <= k < n && !inbounds[k].spec.exclude ==> inbounds[k].spec.tag in last
      {
        var inbound := inbounds[n];
        if !inbound.spec.exclude {
          inboundByTag := inboundByTag[inbound.spec.tag := inbound];
          last := last[inbound.spec.tag := n];
        }
      }
      forall t | t in inboundByTag
        ensures exists j :: 0 <= j < |inbounds| && Chosen(j) && inboundByTag[t] == inbounds[j]
                  && inbounds[j].spec.tag == t
      {
        assert Chosen(last[t]);
      }
      forall j | Chosen(j)
        ensures inbounds[j].spec.tag in inboundByTag && inboundByTag[inbounds[j].spec.tag] == inbounds[j]
      {
        var l := last[inbounds[j].spec.tag];
        assert l == j;
      }
    }

    /** updateUsers: of inbounds sharing a tag only the last is brought up to date. */
    method UpdateUsers(users: seq<User>)
      requires Valid()
      modifies inbounds
      ensures Valid()
      ensures forall j :: 0 <= j < |inbounds| ==>
                inbounds[j].clients ==
                  if Chosen(j) then Batch(inbounds[j].spec, old(inbounds[j].clients), users, sum)
                  else old(inbounds[j].clients)
    {
      var inboundByTag, updates := BuildInboundUpdates(users);
      ghost var was := seq(|inbounds|, j requires 0 <= j < |inbounds| reads inbounds => inbounds[j].clients);
      UpdateTags(users, inboundByTag, updates, was);
      hide Typed, Chosen, Batch, UpdateFor;
      forall j | 0 <= j < |inbounds|
        ensures Typed(inbounds[j].spec, inbounds[j].clients)
      {
        BatchKeepsTyped(inbounds[j].spec, was[j], users, sum);
      }
    }

    /** Which inbounds a batch has brought up to date when the tags in todo are still to come. */
    ghost predicate Updating(todo: set<Tag>, users: seq<User>, was: seq<Clients>)
      requires IsDigest(sum)
      reads inbounds
    {
      && |was| == |inbounds|
      && forall j :: 0 <= j < |inbounds| ==>
           inbounds[j].clients ==
             if Chosen(j) && inbounds[j].spec.tag !in todo then Batch(inbounds[j].spec, was[j], users, sum) else was[j]
    }

    method UpdateTags(users: seq<User>, inboundByTag: map<Tag, Inbound>, updates: map<Tag, InboundUpdate>,
                      ghost was: seq<Clients>)
      requires Wired() && inboundByTag.Keys == updates.Keys && |was| == |inbounds|
      requires forall j :: Chosen(j) ==> inbounds[j].spec.tag in inboundByTag
      requires forall t :: t in inboundByTag ==>
                exists j :: 0 <= j < |inbounds| && Chosen(j) && inboundByTag[t] == inbounds[j]
                    && inbounds[j].spec.tag == t
      requires forall t :: t in updates ==> updates[t] == UpdateFor(inboundByTag[t].spec, users, sum)
      requires Updating(inboundByTag.Keys, users, was)
      modifies inbounds
      ensures Updating({}, users, was)
    {
      hide Updating, Batch, UpdateFor, Chosen;
      var todo := inboundByTag.Keys;
      while todo != {}
        invariant todo <= inboundByTag.Keys && Updating(todo, users, was)
        decreases |todo|
      {
        var t :| t in todo;
        ghost var j :| 0 <= j < |inbounds| && Chosen(j) && inboundByTag[t] == inbounds[j] && inbounds[j].spec.tag == t;
        UpdateTag(j, t, todo, inboundByTag[t], updates[t], users, was);
        todo := todo - {t};
      }
    }

    method UpdateTag(ghost j: nat, ghost t: Tag, ghost todo: set<Tag>, inbound: Inbound, update: InboundUpdate,
                     ghost users: seq<User>, ghost was: seq<Clients>)
      requires Wired() && j < |inbounds| && Chosen(j) && inbounds[j] == inbound && inbound.spec.tag == t && t in todo
      requires update == UpdateFor(inbound.spec, users, sum) && Updating(todo, users, was)
      modifies inbounds
      ensures Updating(todo - {t}, users, was)
    {
      ChosenIsInRange(j);
      hide Chosen, Batch, UpdateFor;
      UpdateOne(inbound, update, users);
    }

    method UpdateOne(inbound: Inbound, update: InboundUpdate, ghost users: seq<User>)
      requires IsDigest(sum) && inbound.sum == sum && update == UpdateFor(inbound.spec, users, sum)
      modifies inbound
      ensures inbound.clients == Batch(inbound.spec, old(inbound.clients), users, sum)
    {
      inbound.UpdateUsers(update.accounts, update.removeEmails);
    }

    lemma ChosenIsInRange(j: int)
      requires Chosen(j)
      ensures forall k :: Chosen(k) && inbounds[k].spec.tag == inbounds[j].spec.tag ==> k == j
    {
    }
  }
}
