/** Billing by name: a response of pkg/stats/tracker.go carries each key's traffic under the name of the
    key's last sample. A key that is handed to another user keeps its record, so what was pending for the
    old user is reported for the new one. */
module NamedBilling {
  import opened Tracker
  import opened TrafficAccounting
  import opened Sums

  /** What a response bills under a name. */
  function BilledTo(response: seq<Stat>, name: string): Pair {
    if response == [] then ZERO
    else
      LineFor(response[0], name).Plus(BilledTo(response[1..], name))
  }

  function LineFor(x: Stat, name: string): Pair {
    if x.name != name then ZERO else LineValue(x)
  }

  function LineValue(x: Stat): Pair {
    if x.kind == Uplink then Pair(0, x.value) else Pair(x.value, 0)
  }

  function BilledPair(response: seq<Stat>, key: Key): Pair {
    Pair(Billed(response, key, Downlink), Billed(response, key, Uplink))
  }

  function PendingPair(e: Entry): Pair {
    Pair(NonNegative(e.PendingRx()), NonNegative(e.PendingTx()))
  }

  /** What is pending for those of some keys that bear a name. */
  function OwedAmong(t: Table, name: string, keys: set<Key>): map<Key, Pair> {
    map k | k in t && k in keys && t[k].email == name :: PendingPair(t[k])
  }

  ghost function PendingAmong(t: Table, name: string, keys: set<Key>): Pair {
    Sum(OwedAmong(t, name, keys))
  }

  ghost function PendingTo(t: Table, name: string): Pair {
    PendingAmong(t, name, t.Keys)
  }

  // ----- A response -----

  function BilledByKey(response: seq<Stat>, t: Table, name: string): map<Key, Pair> {
    map k | k in t && t[k].email == name :: BilledPair(response, k)
  }

  lemma FirstLine(response: seq<Stat>, key: Key)
    requires response != []
    ensures BilledPair(response, key)
         == (if response[0].link == key then LineValue(response[0]) else ZERO).Plus(BilledPair(response[1..], key))
  {
  }

  lemma {:induction false} NamesAddUp(response: seq<Stat>, t: Table, name: string)
    requires NamedAfter(response, t)
    ensures BilledTo(response, name) == Sum(BilledByKey(response, t, name))
    decreases |response|
  {
    hide Sum, Billed, BilledPair;
    if response == [] {
      NoLines(t, name);
    } else {
      var x, rest := response[0], response[1..];
      assert x in response && forall y :: y in rest ==> y in response;
      NamesAddUp(rest, t, name);
      var before, after := BilledByKey(rest, t, name), BilledByKey(response, t, name);
      forall k {
        FirstLine(response, k);
      }
      LineAddsUp(x, before, after, t, name) by {
        forall k | k in t && t[k].email == name
          ensures after[k] == (if x.link == k then LineValue(x) else ZERO).Plus(before[k])
        {
          FirstLine(response, k);
        }
      }
    }
  }

  lemma NoLines(t: Table, name: string)
    ensures Sum(BilledByKey([], t, name)) == ZERO
  {
    assert forall k :: At(BilledByKey([], t, name), k) == At<Key>(map[], k);
    SumByAt(BilledByKey([], t, name), map[]);
  }

  lemma LineAddsUp(x: Stat, before: map<Key, Pair>, after: map<Key, Pair>, t: Table, name: string)
    requires x.link in t && x.name == t[x.link].email
    requires forall k :: k in before <==> k in t && t[k].email == name
    requires forall k :: k in after <==> k in t && t[k].email == name
    requires forall k :: k in t && t[k].email == name ==>
               after[k] == (if x.link == k then LineValue(x) else ZERO).Plus(before[k])
    ensures Sum(after) == LineFor(x, name).Plus(Sum(before))
  {
    hide Sum, LineValue;
    if x.name == name {
      SumUpdated(before, x.link, LineValue(x));
      assert after == before[x.link := At(before, x.link).Plus(LineValue(x))];
    } else {
      assert after == before;
    }
  }

  /** A response that bills some keys what they have pending, and no others, bills each name what is pending
      for those of them that bear it. */
  lemma ResponseBillsNames(response: seq<Stat>, t: Table, keys: set<Key>, name: string)
    requires NamedAfter(response, t)
    requires forall k, kind :: Billed(response, k, kind) == if k in keys then NonNegative(PendingOf(t, k, kind)) else 0
    ensures BilledTo(response, name) == PendingAmong(t, name, keys)
  {
    hide Sum, Billed;
    NamesAddUp(response, t, name);
    forall k
      ensures At(BilledByKey(response, t, name), k) == At(OwedAmong(t, name, keys), k)
    {
      assert Billed(response, k, Downlink) == if k in keys then NonNegative(PendingOf(t, k, Downlink)) else 0;
      assert Billed(response, k, Uplink) == if k in keys then NonNegative(PendingOf(t, k, Uplink)) else 0;
    }
    SumByAt(BilledByKey(response, t, name), OwedAmong(t, name, keys));
  }

  // ----- A sample -----

  /** What every record of a tracker satisfies: nothing pending is negative, and only a deleted record has
      saved deltas, which are what it has pending. */
  ghost predicate Kept(e: Entry) {
    && e.PendingRx() >= 0 && e.PendingTx() >= 0
    && Pair(e.lastDeltaRx, e.lastDeltaTx) == (if e.isDeleted then Pair(e.PendingRx(), e.PendingTx()) else ZERO)
  }

  ghost predicate KeptTable(t: Table) {
    forall k :: k in t ==> Kept(t[k])
  }

  /** The growth a sample shows. */
  function Growth(e: Entry, s: Sample): Pair {
    if Readding(e) || RolledBack(e, s) then ZERO else Pair(s.rx - e.currentRx, s.tx - e.currentTx)
  }

  lemma SampledPends(e: Entry, s: Sample, now: Time)
    requires Kept(e)
    ensures PendingPair(Sampled(e, s, now)) == PendingPair(e).Plus(Growth(e, s))
  {
  }

  lemma SampledIsKept(e: Entry, s: Sample, now: Time)
    requires Kept(e)
    ensures Kept(Sampled(e, s, now)) && Sampled(e, s, now).email == s.email
  {
  }

  /** What a sample under another name takes from the old name and gives to the new one. */
  function Handed(t: Table, s: Sample, name: string): Pair {
    if s.publicKey !in t || t[s.publicKey].email == s.email then ZERO
    else if name == s.email then PendingPair(t[s.publicKey])
    else if name == t[s.publicKey].email then ZERO.Minus(PendingPair(t[s.publicKey]))
    else ZERO
  }

  function Shown(t: Table, s: Sample, name: string): Pair {
    if s.email == name then Growth(EntryAt(t, s), s) else ZERO
  }

  function OwedBy(t: Table, s: Sample): Pair {
    PendingPair(EntryAt(t, s)).Plus(Growth(EntryAt(t, s), s))
  }

  lemma EntryIsKept(t: Table, s: Sample)
    requires KeptTable(t)
    ensures Kept(EntryAt(t, s)) && (s.publicKey !in t ==> PendingPair(EntryAt(t, s)) == ZERO)
  {
  }

  lemma Resampled(t: Table, k: Key, e: Entry, name: string)
    ensures OwedAmong(t[k := e], name, t[k := e].Keys) ==
              if e.email == name then OwedAmong(t, name, t.Keys)[k := PendingPair(e)]
              else OwedAmong(t, name, t.Keys) - {k}
  {
    hide PendingPair;
  }

  lemma SampledTableIsKept(t: Table, s: Sample, now: Time)
    requires KeptTable(t)
    ensures KeptTable(SampledTable(t, s, now))
  {
    EntryIsKept(t, s);
    SampledIsKept(EntryAt(t, s), s, now);
    hide Kept, Sampled, EntryAt;
  }

  /** What a key has pending for a name. */
  function Entitled(t: Table, k: Key, name: string): Pair {
    if k in t && t[k].email == name then PendingPair(t[k]) else ZERO
  }

  lemma OwedAt(t: Table, k: Key, name: string)
    ensures At(OwedAmong(t, name, t.Keys), k) == Entitled(t, k, name)
  {
    hide PendingPair;
  }

  /** A sample adds the growth it shows to the name it bears, and hands over to that name all that was
      pending for the key. */
  lemma SampleBillsNames(t: Table, s: Sample, now: Time, name: string)
    requires KeptTable(t)
    ensures KeptTable(SampledTable(t, s, now))
    ensures PendingTo(SampledTable(t, s, now), name) ==
              PendingTo(t, name).Plus(Shown(t, s, name)).Plus(Handed(t, s, name))
  {
    hide Kept, KeptTable, Sampled, EntryAt, Sum, At, OwedAmong, PendingPair, Growth;
    var e, m, k := EntryAt(t, s), OwedAmong(t, name, t.Keys), s.publicKey;
    SampledTableIsKept(t, s, now);
    EntryIsKept(t, s);
    SampledPends(e, s, now);
    SampledIsKept(e, s, now);
    Resampled(t, k, Sampled(e, s, now), name);
    OwedAt(t, k, name);
    EntryIs(t, s);
    if s.email == name {
      SumSet(m, k, OwedBy(t, s));
    } else {
      SumAtWithout(m, k);
    }
  }

  lemma EntryIs(t: Table, s: Sample)
    ensures s.publicKey in t ==> EntryAt(t, s) == t[s.publicKey]
  {
  }

  lemma SumSet(m: map<Key, Pair>, k: Key, p: Pair)
    ensures Sum(m[k := p]) == Sum(m).Minus(At(m, k)).Plus(p)
  {
    hide Sum, At;
    var q := p.Minus(At(m, k));
    SumUpdated(m, k, q);
    assert At(m, k).Plus(q) == p;
  }

  /** Nothing is pending for the key when its user changes. */
  predicate HandsOverNothing(t: Table, s: Sample) {
    s.publicKey in t && t[s.publicKey].email != s.email ==> PendingPair(t[s.publicKey]) == ZERO
  }

  /** A sample leaves every name its own, plus the growth it shows, if and only if nothing was pending for the
      key or the key keeps its user. */
  lemma NamesKeepTheirOwnIff(t: Table, s: Sample, now: Time)
    requires KeptTable(t)
    ensures (forall name :: PendingTo(SampledTable(t, s, now), name) == PendingTo(t, name).Plus(Shown(t, s, name))) <==>
            HandsOverNothing(t, s)
  {
    hide PendingTo, SampledTable, Shown, PendingPair, Handed, HandsOverNothing, KeptTable;
    forall name
      ensures PendingTo(SampledTable(t, s, now), name) ==
                PendingTo(t, name).Plus(Shown(t, s, name)).Plus(Handed(t, s, name))
    {
      SampleBillsNames(t, s, now, name);
    }
    if HandsOverNothing(t, s) {
      forall name
        ensures Handed(t, s, name) == ZERO
      {
        HandsNothing(t, s, name);
      }
    } else {
      HandsSomething(t, s);
    }
  }

  lemma HandsNothing(t: Table, s: Sample, name: string)
    requires HandsOverNothing(t, s)
    ensures Handed(t, s, name) == ZERO
  {
    hide PendingPair;
  }

  lemma HandsSomething(t: Table, s: Sample)
    requires !HandsOverNothing(t, s)
    ensures Handed(t, s, s.email) != ZERO
  {
    hide PendingPair;
  }

  // ----- Runs -----

  function ShownAll(t: Table, samples: seq<Sample>, now: Time, name: string): Pair
    decreases |samples|
  {
    if samples == [] then ZERO
    else Shown(t, samples[0], name).Plus(ShownAll(SampledTable(t, samples[0], now), samples[1..], now, name))
  }

  function HandedAll(t: Table, samples: seq<Sample>, now: Time, name: string): Pair
    decreases |samples|
  {
    if samples == [] then ZERO
    else Handed(t, samples[0], name).Plus(HandedAll(SampledTable(t, samples[0], now), samples[1..], now, name))
  }

  predicate HandsOverNothingAll(t: Table, samples: seq<Sample>, now: Time)
    decreases |samples|
  {
    samples == []
    || (HandsOverNothing(t, samples[0]) && HandsOverNothingAll(SampledTable(t, samples[0], now), samples[1..], now))
  }

  lemma Regroup(p: Pair, a: Pair, b: Pair, c: Pair, d: Pair)
    ensures p.Plus(a).Plus(b).Plus(c).Plus(d) == p.Plus(a.Plus(c)).Plus(b.Plus(d))
    ensures p.Plus(ZERO) == p && ZERO.Plus(p) == p
  {
  }

  lemma {:induction false} SamplesBillNames(t: Table, samples: seq<Sample>, now: Time, name: string)
    requires KeptTable(t)
    ensures KeptTable(SampledAll(t, samples, now))
    ensures PendingTo(SampledAll(t, samples, now), name) ==
              PendingTo(t, name).Plus(ShownAll(t, samples, now, name)).Plus(HandedAll(t, samples, now, name))
    decreases |samples|
  {
    hide KeptTable, PendingTo, SampledTable, Shown, Handed;
    if samples == [] {
      Regroup(PendingTo(t, name), ZERO, ZERO, ZERO, ZERO);
    } else {
      var next := SampledTable(t, samples[0], now);
      SampleBillsNames(t, samples[0], now, name);
      SamplesBillNames(next, samples[1..], now, name);
      Regroup(PendingTo(t, name), Shown(t, samples[0], name), Handed(t, samples[0], name),
              ShownAll(next, samples[1..], now, name), HandedAll(next, samples[1..], now, name));
    }
  }

  lemma {:induction false} CleanHandsNothing(t: Table, samples: seq<Sample>, now: Time, name: string)
    requires HandsOverNothingAll(t, samples, now)
    ensures HandedAll(t, samples, now, name) == ZERO
    decreases |samples|
  {
    hide SampledTable, HandsOverNothing, Handed;
    if samples != [] {
      HandsNothing(t, samples[0], name);
      CleanHandsNothing(SampledTable(t, samples[0], now), samples[1..], now, name);
    }
  }

  function KeySet(keys: seq<Key>): set<Key> {
    set k | k in keys
  }

  /** What a call reports for a name, what it shows for it, and what changes names. */
  ghost function ReportedNow(t: Table, e: Event, name: string): Pair {
    match e
    case ResetKeysCall(keys) => PendingAmong(t, name, KeySet(keys))
    case ResetAllCall => PendingTo(t, name)
    case _ => ZERO
  }

  function ShownNow(t: Table, e: Event, name: string): Pair {
    if e.Poll? then ShownAll(t, e.samples, e.now, name) else ZERO
  }

  function HandedNow(t: Table, e: Event, name: string): Pair {
    if e.Poll? then HandedAll(t, e.samples, e.now, name) else ZERO
  }

  ghost function ReportedTo(t: Table, es: seq<Event>, name: string): Pair
    decreases |es|
  {
    if es == [] then ZERO else ReportedNow(t, es[0], name).Plus(ReportedTo(TableStep(t, es[0]), es[1..], name))
  }

  function ShownTo(t: Table, es: seq<Event>, name: string): Pair
    decreases |es|
  {
    if es == [] then ZERO else ShownNow(t, es[0], name).Plus(ShownTo(TableStep(t, es[0]), es[1..], name))
  }

  function HandedTo(t: Table, es: seq<Event>, name: string): Pair
    decreases |es|
  {
    if es == [] then ZERO else HandedNow(t, es[0], name).Plus(HandedTo(TableStep(t, es[0]), es[1..], name))
  }

  /** In a whole run, no key that has anything pending changes its user. */
  predicate CleanRun(t: Table, es: seq<Event>)
    decreases |es|
  {
    es == []
    || ((es[0].Poll? ==> HandsOverNothingAll(t, es[0].samples, es[0].now)) && CleanRun(TableStep(t, es[0]), es[1..]))
  }

  lemma ResetBillsNames(t: Table, t': Table, keys: set<Key>, name: string)
    requires KeptTable(t)
    requires forall k :: k in t' <==> k in t && !(k in keys && t[k].isDeleted)
    requires forall k :: k in t' ==> t'[k] == if k in keys then Reported(t[k]) else t[k]
    ensures KeptTable(t') && PendingTo(t, name) == PendingTo(t', name).Plus(PendingAmong(t, name, keys))
  {
    hide Sum, At, OwedAmong, Kept, Reported, Entitled;
    var m, a, b := OwedAmong(t, name, t.Keys), OwedAmong(t', name, t'.Keys), OwedAmong(t, name, keys);
    forall k
      ensures k in t' ==> Kept(t'[k])
      ensures At(m, k) == At(a, k).Plus(At(b, k))
    {
      ResetIsKept(t, t', keys, k);
      ResetEntitled(t, t', keys, name, k);
      OwedAt(t, k, name);
      OwedAt(t', k, name);
      OwedAtKey(t, keys, k, name);
      Halves(At(m, k), At(a, k), At(b, k), k !in keys);
    }
    SumPlus(m, a, b);
  }

  lemma ResetEntitled(t: Table, t': Table, keys: set<Key>, name: string, k: Key)
    requires k in t' <==> k in t && !(k in keys && t[k].isDeleted)
    requires k in t' ==> t'[k] == if k in keys then Reported(t[k]) else t[k]
    ensures Entitled(t', k, name) == if k in keys then ZERO else Entitled(t, k, name)
  {
    hide PendingPair, Reported;
    if k in t {
      ReportedOwes(t[k]);
    }
  }

  lemma ResetIsKept(t: Table, t': Table, keys: set<Key>, k: Key)
    requires KeptTable(t)
    requires k in t' <==> k in t && !(k in keys && t[k].isDeleted)
    requires k in t' ==> t'[k] == if k in keys then Reported(t[k]) else t[k]
    ensures k in t' ==> Kept(t'[k])
  {
    hide PendingPair, Reported, Kept;
    if k in t {
      ReportedOwes(t[k]);
    }
  }

  lemma Halves(whole: Pair, a: Pair, b: Pair, first: bool)
    requires if first then a == whole && b == ZERO else a == ZERO && b == whole
    ensures whole == a.Plus(b)
  {
  }

  lemma OwedAtKey(t: Table, keys: set<Key>, k: Key, name: string)
    ensures At(OwedAmong(t, name, keys), k) == if k in keys then Entitled(t, k, name) else ZERO
  {
    hide PendingPair;
  }

  lemma ReportedOwes(e: Entry)
    ensures PendingPair(Reported(e)) == ZERO && Reported(e).email == e.email
    ensures Kept(e) && !e.isDeleted ==> Kept(Reported(e))
  {
  }

  lemma OtherBillsNames(t: Table, e: Event, name: string)
    requires KeptTable(t) && !e.Poll? && !e.ResetKeysCall? && !e.ResetAllCall?
    ensures KeptTable(TableStep(t, e)) && PendingTo(TableStep(t, e), name) == PendingTo(t, name)
  {
    var t' := TableStep(t, e);
    forall k
      ensures At(OwedAmong(t', name, t'.Keys), k) == At(OwedAmong(t, name, t.Keys), k)
    {
    }
    SumByAt(OwedAmong(t', name, t'.Keys), OwedAmong(t, name, t.Keys));
  }

  lemma CallBillsNames(t: Table, e: Event, name: string)
    requires KeptTable(t)
    ensures KeptTable(TableStep(t, e))
    ensures PendingTo(TableStep(t, e), name).Plus(ReportedNow(t, e, name)) ==
              PendingTo(t, name).Plus(ShownNow(t, e, name)).Plus(HandedNow(t, e, name))
  {
    hide PendingTo, PendingAmong, ShownAll, HandedAll, KeptTable;
    Regroup(PendingTo(t, name), ZERO, ZERO, ZERO, ZERO);
    match e
    case Poll(samples, now) =>
      SamplesBillNames(t, samples, now, name);
      Regroup(PendingTo(TableStep(t, e), name), ZERO, ZERO, ZERO, ZERO);
    case ResetKeysCall(keys) =>
      forall k
        ensures k in ResetKeys(t, keys) <==> k in t && !(k in keys && t[k].isDeleted)
        ensures k in ResetKeys(t, keys) ==> ResetKeys(t, keys)[k] == if k in keys then Reported(t[k]) else t[k]
      {
        ResetKeysPointwise(t, keys, k);
      }
      ResetBillsNames(t, ResetKeys(t, keys), KeySet(keys), name);
    case ResetAllCall =>
      ResetBillsNames(t, ResetAll(t), t.Keys, name);
      AmongAll(t, name);
    case _ =>
      OtherBillsNames(t, e, name);
      Regroup(PendingTo(TableStep(t, e), name), ZERO, ZERO, ZERO, ZERO);
  }

  lemma AmongAll(t: Table, name: string)
    ensures PendingTo(t, name) == PendingAmong(t, name, t.Keys)
  {
  }

  lemma Balance(before: Pair, now: Pair, shown: Pair, handed: Pair, mid: Pair, later: Pair, end: Pair, more: Pair,
                moved: Pair)
    requires mid.Plus(now) == before.Plus(shown).Plus(handed)
    requires later.Plus(end) == mid.Plus(more).Plus(moved)
    ensures now.Plus(later).Plus(end) == before.Plus(shown.Plus(more)).Plus(handed.Plus(moved))
  {
  }

  /** The account of every name over every run: reported plus pending is the growth shown under it, plus what
      it took over with keys and less what went with keys to others. */
  lemma {:induction false} NamesBalance(t: Table, es: seq<Event>, name: string)
    requires KeptTable(t)
    ensures ReportedTo(t, es, name).Plus(PendingTo(TableRun(t, es), name)) ==
              PendingTo(t, name).Plus(ShownTo(t, es, name)).Plus(HandedTo(t, es, name))
    decreases |es|
  {
    hide KeptTable, PendingTo, TableStep, ReportedNow, ShownNow, HandedNow;
    if es == [] {
      Regroup(PendingTo(t, name), ZERO, ZERO, ZERO, ZERO);
    } else {
      var next, rest := TableStep(t, es[0]), es[1..];
      CallBillsNames(t, es[0], name);
      NamesBalance(next, rest, name);
      Balance(PendingTo(t, name), ReportedNow(t, es[0], name), ShownNow(t, es[0], name), HandedNow(t, es[0], name),
              PendingTo(next, name), ReportedTo(next, rest, name), PendingTo(TableRun(next, rest), name),
              ShownTo(next, rest, name), HandedTo(next, rest, name));
    }
  }

  lemma HandedNext(t: Table, es: seq<Event>, name: string)
    ensures es == [] ==> HandedTo(t, es, name) == ZERO
    ensures es != [] && HandedNow(t, es[0], name) == ZERO ==>
              HandedTo(t, es, name) == HandedTo(TableStep(t, es[0]), es[1..], name)
  {
    hide HandedNow, TableStep;
    if es != [] {
      Regroup(HandedTo(TableStep(t, es[0]), es[1..], name), ZERO, ZERO, ZERO, ZERO);
    }
  }

  lemma {:induction false} CleanRunHandsNothing(t: Table, es: seq<Event>, name: string)
    requires CleanRun(t, es)
    ensures HandedTo(t, es, name) == ZERO
    decreases |es|
  {
    hide TableStep, HandsOverNothingAll, HandedNow, HandedTo;
    HandedNext(t, es, name);
    if es != [] {
      CleanCall(t, es[0], name);
      CleanRunHandsNothing(TableStep(t, es[0]), es[1..], name);
    }
  }

  lemma CleanCall(t: Table, e: Event, name: string)
    requires e.Poll? ==> HandsOverNothingAll(t, e.samples, e.now)
    ensures HandedNow(t, e, name) == ZERO
  {
    hide HandedAll, HandsOverNothingAll;
    if e.Poll? {
      CleanHandsNothing(t, e.samples, e.now, name);
    }
  }

  /** If no key changes its user while it has anything pending, every name is reported, or has pending, just
      the growth that was shown under it. */
  lemma NamesAreBilledTheirOwn(es: seq<Event>, name: string)
    requires CleanRun(map[], es)
    ensures ReportedTo(map[], es, name).Plus(PendingTo(TableRun(map[], es), name)) == ShownTo(map[], es, name)
  {
    NothingPending(name);
    hide ReportedTo, PendingTo, ShownTo, HandedTo, TableRun, CleanRun;
    NamesBalance(map[], es, name);
    CleanRunHandsNothing(map[], es, name);
    Regroup(ShownTo(map[], es, name), ZERO, ZERO, ZERO, ZERO);
  }

  lemma NothingPending(name: string)
    ensures KeptTable(map[]) && PendingTo(map[], name) == ZERO
  {
    assert OwedAmong(map[], name, {}) == map[];
  }

  /** The condition cannot be dropped: a key with n bytes pending is sampled under another name, and all of
      them are pending for that name. */
  lemma HandoverMisbills(k: Key, a: string, b: string, n: nat, now: Time, later: Time)
    requires a != b && n > 0
    ensures var es := [Poll([Sample(k, a, n, 0, "")], now), Poll([Sample(k, b, n, 0, "")], later)];
            var t := TableRun(map[], es);
            && ShownTo(map[], es, a) == Pair(n, 0) && ShownTo(map[], es, b) == ZERO
            && PendingTo(t, a) == ZERO && PendingTo(t, b) == Pair(n, 0)
  {
    hide PendingTo, TableRun, ShownTo;
    HandoverFor(k, a, b, n, now, later, a);
    HandoverFor(k, a, b, n, now, later, b);
  }

  lemma HandoverFor(k: Key, a: string, b: string, n: nat, now: Time, later: Time, name: string)
    requires a != b && n > 0 && (name == a || name == b)
    ensures var es := [Poll([Sample(k, a, n, 0, "")], now), Poll([Sample(k, b, n, 0, "")], later)];
            && ShownTo(map[], es, name) == (if name == a then Pair(n, 0) else ZERO)
            && PendingTo(TableRun(map[], es), name) == if name == a then ZERO else Pair(n, 0)
  {
    hide PendingTo, SampledTable, TableRun, ShownTo, Shown, Handed, KeptTable, PendingPair;
    var s, s' := Sample(k, a, n, 0, ""), Sample(k, b, n, 0, "");
    var mid := SampledTable(map[], s, now);
    FirstSample(s, now);
    FirstShown(s, name);
    SecondShown(mid, s', name);
    TwoPollsBill(s, now, s', later, name);
    Tally(Pair(n, 0), name == a, Shown(map[], s, name), Handed(map[], s, name), Shown(mid, s', name),
          Handed(mid, s', name));
  }

  lemma Tally(p: Pair, first: bool, shown: Pair, handed: Pair, more: Pair, moved: Pair)
    requires shown == (if first then p else ZERO) && handed == ZERO && more == ZERO
    requires moved == if first then ZERO.Minus(p) else p
    ensures shown.Plus(more) == if first then p else ZERO
    ensures shown.Plus(handed).Plus(more).Plus(moved) == if first then ZERO else p
  {
  }

  lemma TwoPollsBill(s: Sample, now: Time, s': Sample, later: Time, name: string)
    ensures var es, mid := [Poll([s], now), Poll([s'], later)], SampledTable(map[], s, now);
            && ShownTo(map[], es, name) == Shown(map[], s, name).Plus(Shown(mid, s', name))
            && PendingTo(TableRun(map[], es), name) ==
                 Shown(map[], s, name).Plus(Handed(map[], s, name)).Plus(Shown(mid, s', name))
                 .Plus(Handed(mid, s', name))
  {
    hide PendingTo, SampledTable, TableRun, ShownTo, Shown, Handed, KeptTable;
    var mid := SampledTable(map[], s, now);
    NothingPending(name);
    TwoPolls(map[], s, now, s', later, name);
    SampleBillsNames(map[], s, now, name);
    SampleBillsNames(mid, s', later, name);
    Regroup(Shown(map[], s, name), ZERO, ZERO, ZERO, ZERO);
  }

  lemma FirstSample(s: Sample, now: Time)
    requires s.rx >= 0 && s.tx >= 0
    ensures var t := SampledTable(map[], s, now);
            s.publicKey in t && PendingPair(t[s.publicKey]) == Pair(s.rx, s.tx) && t[s.publicKey].email == s.email
            && t[s.publicKey].currentRx == s.rx && t[s.publicKey].currentTx == s.tx
  {
  }

  lemma FirstShown(s: Sample, name: string)
    requires s.rx >= 0 && s.tx >= 0
    ensures Shown(map[], s, name) == if s.email == name then Pair(s.rx, s.tx) else ZERO
    ensures Handed(map[], s, name) == ZERO
  {
  }

  lemma SecondShown(t: Table, s: Sample, name: string)
    requires s.publicKey in t && t[s.publicKey].email != s.email
    requires t[s.publicKey].currentRx == s.rx && t[s.publicKey].currentTx == s.tx
    ensures Shown(t, s, name) == ZERO
    ensures Handed(t, s, name) ==
              if name == s.email then PendingPair(t[s.publicKey])
              else if name == t[s.publicKey].email then ZERO.Minus(PendingPair(t[s.publicKey]))
              else ZERO
  {
    hide PendingPair;
  }

  lemma TwoPolls(t: Table, s: Sample, now: Time, s': Sample, later: Time, name: string)
    ensures var es, mid := [Poll([s], now), Poll([s'], later)], SampledTable(t, s, now);
            && TableRun(t, es) == SampledTable(mid, s', later)
            && ShownTo(t, es, name) == Shown(t, s, name).Plus(Shown(mid, s', name))
  {
    hide SampledTable, Shown, SampledAll, ShownAll;
    var es, mid := [Poll([s], now), Poll([s'], later)], SampledTable(t, s, now);
    assert es[1..] == [Poll([s'], later)] && es[1..][1..] == [];
    OneSamplePoll(t, s, now, name);
    OneSamplePoll(mid, s', later, name);
    Regroup(Shown(mid, s', name), ZERO, ZERO, ZERO, ZERO);
    assert TableRun(mid, [Poll([s'], later)]) == TableRun(SampledTable(mid, s', later), []);
    assert ShownTo(mid, [Poll([s'], later)], name) ==
           Shown(mid, s', name).Plus(ShownTo(SampledTable(mid, s', later), [], name));
  }

  lemma OneSamplePoll(t: Table, s: Sample, now: Time, name: string)
    ensures SampledAll(t, [s], now) == SampledTable(t, s, now)
    ensures ShownAll(t, [s], now, name) == Shown(t, s, name)
  {
    hide SampledTable, Shown;
    assert [s][1..] == [];
    assert SampledAll(SampledTable(t, s, now), [], now) == SampledTable(t, s, now);
    Regroup(Shown(t, s, name), ZERO, ZERO, ZERO, ZERO);
  }
}
