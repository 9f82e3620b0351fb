/** What an inbound of the running xray core holds beside the configuration's client map, in values: the
    API calls of backend/xray/user.go applied to both, and the relation the node keeps between them. */
module XrayCore {
  import opened Wrappers
  import opened Passwords
  import opened XrayUsers

  /** Which emails the core refuses to add to an inbound during one call. */
  type Refusals = map<Tag, set<Email>>

  function RefusedAt(refused: Refusals, t: Tag): set<Email> {
    if t in refused then refused[t] else {}
  }

  /** SyncUser on the core: out first, then in again when the user is active and the core accepts it. */
  function CoreSingle(spec: Spec, running: Clients, u: User, refused: set<Email>, sum: Digest): Clients
    requires IsDigest(sum)
  {
    var gone := running - {u.email};
    match Active(spec, u, sum)
    case Some(a) => if u.email in refused then gone else gone[a.email := a]
    case None => gone
  }

  function CoreAdds(running: Clients, accounts: seq<Account>, refused: set<Email>): Clients
    decreases |accounts|
  {
    if accounts == [] then running
    else
      var a := accounts[|accounts| - 1];
      var gone := CoreAdds(running, accounts[..|accounts| - 1], refused) - {a.email};
      if a.email in refused then gone else gone[a.email := a]
  }

  /** UpdateUsers on the core: the removals come first here, and last in the configuration. */
  function CoreBatch(spec: Spec, running: Clients, users: seq<User>, refused: set<Email>, sum: Digest): Clients
    requires IsDigest(sum)
  {
    var update := UpdateFor(spec, users, sum);
    CoreAdds(running - update.removeEmails, update.accounts, refused)
  }

  predicate KnownCipher(spec: Spec) {
    spec.protocol == Shadowsocks && Is2022(spec) ==> Aes128(spec.cipher.value) || Key32(spec.cipher.value)
  }

  /** Every inbound but a Shadowsocks 2022 one qualifies, and of those the ones with the edition's three methods. */
  lemma KnownCipherMeans(spec: Spec)
    ensures spec.protocol != Shadowsocks || !Is2022(spec) ==> KnownCipher(spec)
    ensures spec.cipher == Some("2022-blake3-aes-128-gcm") ==> KnownCipher(spec)
    ensures spec.cipher == Some("2022-blake3-aes-256-gcm") ==> KnownCipher(spec)
    ensures spec.cipher == Some("2022-blake3-chacha20-poly1305") ==> KnownCipher(spec)
  {
    KnownMethods();
    hide Aes128, Key32;
    assert "2022-blake3-" + "aes-128-gcm" == "2022-blake3-aes-128-gcm";
    assert "2022-blake3-" + "aes-256-gcm" == "2022-blake3-aes-256-gcm";
    assert "2022-blake3-" + "chacha20-poly1305" == "2022-blake3-chacha20-poly1305";
  }

  /** The core serves only configured clients and every one of them that is not out; and unless the inbound's
      Shadowsocks 2022 method fixes no key length, each with the account the configuration holds. */
  ghost predicate CoreOk(spec: Spec, clients: Clients, running: Clients, out: set<Email>) {
    && running.Keys <= clients.Keys
    && clients.Keys <= running.Keys + out
    && (KnownCipher(spec) ==> forall e :: e in running && e in clients ==> running[e] == clients[e])
  }

  lemma SingleKeepsCore(spec: Spec, clients: Clients, running: Clients, u: User, refused: set<Email>, out: set<Email>,
                        sum: Digest)
    requires IsDigest(sum) && CoreOk(spec, clients, running, out)
    ensures CoreOk(spec, Single(spec, clients, u, sum), CoreSingle(spec, running, u, refused, sum),
                   if Active(spec, u, sum).Some? && u.email in refused then out + {u.email} else out - {u.email})
  {
    PathsAgree(spec, u, sum);
    if Active(spec, u, sum).Some? {
      StoredIsActiveIff(spec, u, sum);
      KnownIsSteady(spec, u, sum);
    }
    hide Active, Stored, KnownCipher, Steady;
  }

  lemma KnownIsSteady(spec: Spec, u: User, sum: Digest)
    ensures KnownCipher(spec) ==> Steady(spec, u, sum)
  {
  }

  lemma OutMayGrow(spec: Spec, clients: Clients, running: Clients, out: set<Email>, more: set<Email>)
    requires CoreOk(spec, clients, running, out) && out <= more
    ensures CoreOk(spec, clients, running, more)
  {
  }

  lemma {:induction false} CoreAddsAt(spec: Spec, running: Clients, users: seq<User>, e: Email, refused: set<Email>,
                                      sum: Digest)
    requires IsDigest(sum)
    ensures Lookup(CoreAdds(running, UpdateFor(spec, users, sum).accounts, refused), e) ==
            if LastActive(spec, users, e, sum).None? then Lookup(running, e)
            else if e in refused then None
            else LastActive(spec, users, e, sum)
    decreases |users|
  {
    hide Active;
    if users != [] {
      var init, u := users[..|users| - 1], users[|users| - 1];
      CoreAddsAt(spec, running, init, e, refused, sum);
      PathsAgree(spec, u, sum);
      var before := UpdateFor(spec, init, sum).accounts;
      if Active(spec, u, sum).Some? {
        assert (before + [Active(spec, u, sum).value])[..|before|] == before;
      }
    }
  }

  lemma CoreBatchAt(spec: Spec, running: Clients, users: seq<User>, e: Email, refused: set<Email>, sum: Digest)
    requires IsDigest(sum)
    ensures Lookup(CoreBatch(spec, running, users, refused, sum), e) ==
            if LastActive(spec, users, e, sum).Some? then
              if e in refused then None else LastActive(spec, users, e, sum)
            else if Dropped(spec, users, e, sum) then None
            else Lookup(running, e)
  {
    hide Active, UpdateFor, CoreAdds, LastActive, Dropped;
    CoreAddsAt(spec, running - UpdateFor(spec, users, sum).removeEmails, users, e, refused, sum);
    UpdateAt(spec, map[], users, e, sum);
  }

  /** An email with both an active and an inactive entry on this inbound. */
  predicate Mixed(spec: Spec, users: seq<User>, e: Email, sum: Digest)
    requires IsDigest(sum)
  {
    Dropped(spec, users, e, sum) && LastActive(spec, users, e, sum).Some?
  }

  predicate Touches(users: seq<User>, e: Email) {
    exists u :: u in users && u.email == e
  }

  lemma {:induction false} ActiveIsTouched(spec: Spec, users: seq<User>, e: Email, sum: Digest)
    requires IsDigest(sum)
    ensures LastActive(spec, users, e, sum).Some? ==> Touches(users, e)
    ensures !Touches(users, e) ==> !Dropped(spec, users, e, sum) && LastOf(users, e).None?
    ensures LastOf(users, e).Some? <==> Touches(users, e)
  {
    LastOfIsIn(users, e);
    if LastActive(spec, users, e, sum).Some? && !Touches(users, e) {
      NoLastActive(spec, users, e, sum);
    }
  }

  /** A batch leaves the core within the configuration exactly when no email in it is both active and
      inactive on the inbound, unless the core refuses that email. */
  lemma BatchKeepsCoreWithinIff(spec: Spec, clients: Clients, running: Clients, users: seq<User>, refused: set<Email>,
                                sum: Digest)
    requires IsDigest(sum) && running.Keys <= clients.Keys
    ensures CoreBatch(spec, running, users, refused, sum).Keys <= Batch(spec, clients, users, sum).Keys
            <==> forall e :: Mixed(spec, users, e, sum) ==> e in refused
  {
    hide Active, CoreBatch, Batch, LastActive, Dropped, LastOf, Touches;
    var after, batch := CoreBatch(spec, running, users, refused, sum), Batch(spec, clients, users, sum);
    forall e
      ensures e in after && e !in batch <==> Mixed(spec, users, e, sum) && e !in refused
    {
      CoreBatchAt(spec, running, users, e, refused, sum);
      BatchAt(spec, clients, users, e, sum);
      if !Dropped(spec, users, e, sum) {
        LastActiveOf(spec, users, e, sum);
      }
      LastIsDropped(spec, users, e, sum);
      ActiveIsTouched(spec, users, e, sum);
      assert e in after <==> Lookup(after, e).Some?;
      assert e in batch <==> Lookup(batch, e).Some?;
    }
  }

  /** Such a batch on an empty inbound leaves the core serving a client the configuration does not have. */
  lemma MixedIsServed(e: Email, t: Tag, sum: Digest)
    requires IsDigest(sum)
    ensures var spec := Spec(t, Trojan, None, false);
            var users := [TrojanUser(e, []), TrojanUser(e, [t])];
            && Mixed(spec, users, e, sum)
            && e in CoreBatch(spec, map[], users, {}, sum) && e !in Batch(spec, map[], users, sum)
  {
    var spec := Spec(t, Trojan, None, false);
    var users := [TrojanUser(e, []), TrojanUser(e, [t])];
    hide CoreBatch, Batch, Singles;
    RevivedIsDropped(e, t, sum);
    assert LastActive(spec, users, e, sum) == Active(spec, users[1], sum);
    CoreBatchAt(spec, map[], users, e, {}, sum);
    assert Lookup(CoreBatch(spec, map[], users, {}, sum), e).Some?;
  }

  /** And then it keeps the whole relation, with the users it brings in no longer out. */
  lemma BatchKeepsCore(spec: Spec, clients: Clients, running: Clients, users: seq<User>, refused: set<Email>,
                       out: set<Email>, still: set<Email>, sum: Digest)
    requires IsDigest(sum) && CoreOk(spec, clients, running, out)
    requires forall e :: !Mixed(spec, users, e, sum)
    requires forall e :: e in out && !Touches(users, e) ==> e in still
    requires forall e :: LastActive(spec, users, e, sum).Some? && e in refused ==> e in still
    ensures CoreOk(spec, Batch(spec, clients, users, sum), CoreBatch(spec, running, users, refused, sum), still)
  {
    hide Active, CoreBatch, Batch, Touches, KnownCipher;
    var after, batch := CoreBatch(spec, running, users, refused, sum), Batch(spec, clients, users, sum);
    forall e
      ensures e in after ==> e in batch
      ensures e in batch ==> e in after || e in still
      ensures e in after && e in batch && KnownCipher(spec) ==> after[e] == batch[e]
    {
      BatchAtEmail(spec, clients, running, users, e, refused, out, still, sum);
    }
  }

  lemma BatchAtEmail(spec: Spec, clients: Clients, running: Clients, users: seq<User>, e: Email, refused: set<Email>,
                     out: set<Email>, still: set<Email>, sum: Digest)
    requires IsDigest(sum) && CoreOk(spec, clients, running, out) && !Mixed(spec, users, e, sum)
    requires e in out && !Touches(users, e) ==> e in still
    requires LastActive(spec, users, e, sum).Some? && e in refused ==> e in still
    ensures e in CoreBatch(spec, running, users, refused, sum) ==> e in Batch(spec, clients, users, sum)
    ensures e in Batch(spec, clients, users, sum) ==> e in CoreBatch(spec, running, users, refused, sum) || e in still
    ensures e in CoreBatch(spec, running, users, refused, sum) && e in Batch(spec, clients, users, sum)
              && KnownCipher(spec) ==>
              CoreBatch(spec, running, users, refused, sum)[e] == Batch(spec, clients, users, sum)[e]
  {
    hide Active, Stored, CoreBatch, Batch, LastActive, Dropped, LastOf, Touches, KnownCipher, Steady;
    var after, batch := CoreBatch(spec, running, users, refused, sum), Batch(spec, clients, users, sum);
    CoreBatchAt(spec, running, users, e, refused, sum);
    BatchAt(spec, clients, users, e, sum);
    ActiveIsTouched(spec, users, e, sum);
    LastOfIsIn(users, e);
    if !Dropped(spec, users, e, sum) {
      LastActiveOf(spec, users, e, sum);
      if LastOf(users, e).Some? && Active(spec, LastOf(users, e).value, sum).Some? {
        StoredIsActiveIff(spec, LastOf(users, e).value, sum);
        KnownIsSteady(spec, LastOf(users, e).value, sum);
      }
      LastIsDropped(spec, users, e, sum);
    }
    assert e in after <==> Lookup(after, e).Some?;
    assert e in batch <==> Lookup(batch, e).Some?;
  }

  lemma LastIsDropped(spec: Spec, users: seq<User>, e: Email, sum: Digest)
    requires IsDigest(sum)
    ensures LastOf(users, e).Some? && Active(spec, LastOf(users, e).value, sum).None? ==> Dropped(spec, users, e, sum)
  {
    LastOfIsIn(users, e);
  }

  lemma DistinctIsUnmixed(spec: Spec, users: seq<User>, sum: Digest)
    requires IsDigest(sum) && DistinctEmails(users)
    ensures forall e :: !Mixed(spec, users, e, sum)
  {
    hide Active;
    forall e
      ensures !Mixed(spec, users, e, sum)
    {
      if Dropped(spec, users, e, sum) {
        var u :| u in users && u.email == e && Active(spec, u, sum).None?;
        DistinctFinds(users, u);
        NoLastActive(spec, users, e, sum);
      }
    }
  }

  predicate FailsAt(spec: Spec, u: User, refused: Refusals, sum: Digest)
    requires IsDigest(sum)
  {
    Active(spec, u, sum).Some? && u.email in RefusedAt(refused, spec.tag)
  }

  predicate SomeFailsAt(spec: Spec, users: seq<User>, refused: Refusals, sum: Digest)
    requires IsDigest(sum)
  {
    exists u :: u in users && FailsAt(spec, u, refused, sum)
  }

  predicate SomeRefused(accounts: seq<Account>, refused: set<Email>) {
    exists a :: a in accounts && a.email in refused
  }

  lemma {:induction false} RefusedIsFailing(spec: Spec, users: seq<User>, refused: Refusals, sum: Digest)
    requires IsDigest(sum)
    ensures SomeRefused(UpdateFor(spec, users, sum).accounts, RefusedAt(refused, spec.tag)) <==>
              SomeFailsAt(spec, users, refused, sum)
    decreases |users|
  {
    hide Active, RefusedAt;
    if users != [] {
      var init, u := users[..|users| - 1], users[|users| - 1];
      RefusedIsFailing(spec, init, refused, sum);
      PathsAgree(spec, u, sum);
      assert users == init + [u];
      var before, after := UpdateFor(spec, init, sum).accounts, UpdateFor(spec, users, sum).accounts;
      if Active(spec, u, sum).Some? {
        var a := Active(spec, u, sum).value;
        assert after == before + [a];
        if SomeRefused(before, RefusedAt(refused, spec.tag)) {
          var b :| b in before && b.email in RefusedAt(refused, spec.tag);
          assert b in after;
        }
        if FailsAt(spec, u, refused, sum) {
          assert a in after && u in users;
        }
        if SomeFailsAt(spec, init, refused, sum) {
          var v :| v in init && FailsAt(spec, v, refused, sum);
          assert v in users;
        }
      } else if SomeFailsAt(spec, init, refused, sum) {
        var v :| v in init && FailsAt(spec, v, refused, sum);
        assert v in users;
      }
    } else {
      assert UpdateFor(spec, users, sum).accounts == [];
    }
  }

  function EmailsOf(users: seq<User>): set<Email> {
    set u | u in users :: u.email
  }

  /** The relation after a batch, for both outcomes. */
  lemma BatchOutcome(spec: Spec, clients: Clients, running: Clients, users: seq<User>, refused: Refusals,
                     out: set<Email>, sum: Digest)
    requires IsDigest(sum) && CoreOk(spec, clients, running, out)
    requires forall e :: !Mixed(spec, users, e, sum)
    ensures var after, batch := CoreBatch(spec, running, users, RefusedAt(refused, spec.tag), sum),
              Batch(spec, clients, users, sum);
            && CoreOk(spec, batch, after, out + EmailsOf(users))
            && (!SomeFailsAt(spec, users, refused, sum) ==> CoreOk(spec, batch, after, out - EmailsOf(users)))
  {
    hide CoreOk, CoreBatch, Batch, Mixed, LastActive, RefusedAt;
    forall e
      ensures Touches(users, e) <==> e in EmailsOf(users)
      ensures LastActive(spec, users, e, sum).Some? ==> e in EmailsOf(users)
      ensures LastActive(spec, users, e, sum).Some? && e in RefusedAt(refused, spec.tag) ==>
                SomeFailsAt(spec, users, refused, sum)
    {
      ActiveIsTouched(spec, users, e, sum);
      ActiveIsSomeones(spec, users, e, sum);
    }
    BatchKeepsCore(spec, clients, running, users, RefusedAt(refused, spec.tag), out, out + EmailsOf(users), sum);
    if !SomeFailsAt(spec, users, refused, sum) {
      BatchKeepsCore(spec, clients, running, users, RefusedAt(refused, spec.tag), out, out - EmailsOf(users), sum);
    }
  }

  lemma ActiveIsSomeones(spec: Spec, users: seq<User>, e: Email, sum: Digest)
    requires IsDigest(sum)
    ensures LastActive(spec, users, e, sum).Some? ==>
              exists u :: u in users && u.email == e && Active(spec, u, sum).Some?
  {
    hide Active;
    if forall u :: u in users && u.email == e ==> Active(spec, u, sum).None? {
      NoLastActive(spec, users, e, sum);
    }
  }
}
