/** The delta tracker behind every backend's traffic statistics: pkg/stats/tracker.go. Counters are
    unbounded integers here. */
module Tracker {
  import opened Wrappers

  type Key = string
  type Time = nat

  /** One key's record. lastActive is None for Go's zero time. */
  datatype Entry = Entry(
    email: string,
    currentRx: int, currentTx: int,
    baseRx: int, baseTx: int,
    lastDeltaRx: int, lastDeltaTx: int,
    lastActive: Option<Time>,
    endpointIP: string,
    isDeleted: bool)
  {
    /** Traffic seen and not yet reported. */
    function PendingRx(): int {
      currentRx - baseRx
    }

    function PendingTx(): int {
      currentTx - baseTx
    }
  }

  datatype Sample = Sample(publicKey: Key, email: string, rx: int, tx: int, endpointIP: string)

  datatype Kind = Uplink | Downlink

  datatype Stat = Stat(name: string, kind: Kind, link: Key, value: int)

  type Table = map<Key, Entry>

  function Fresh(email: string): Entry {
    Entry(email, 0, 0, 0, 0, 0, 0, None, "", false)
  }

  function EntryAt(t: Table, s: Sample): Entry {
    if s.publicKey in t then t[s.publicKey] else Fresh(s.email)
  }

  function NonNegative(x: int): int {
    if x < 0 then 0 else x
  }

  /** A record that was removed with traffic pending and is being added back. */
  predicate Readding(e: Entry) {
    e.lastDeltaRx != 0 || e.lastDeltaTx != 0
  }

  predicate RolledBack(e: Entry, s: Sample) {
    s.rx < e.currentRx || s.tx < e.currentTx
  }

  /** What a sample leaves pending: a re-added record its saved deltas, a record whose counters ran
      backwards what it had, any other record what it had plus the growth. */
  function PendingAfter(e: Entry, s: Sample): (int, int) {
    if Readding(e) then (e.lastDeltaRx, e.lastDeltaTx)
    else if RolledBack(e, s) then (NonNegative(e.PendingRx()), NonNegative(e.PendingTx()))
    else (e.PendingRx() + s.rx - e.currentRx, e.PendingTx() + s.tx - e.currentTx)
  }

  /** The record after a sample, in terms of what is pending afterwards. */
  function Sampled(e: Entry, s: Sample, now: Time): Entry {
    var p := PendingAfter(e, s);
    Entry(s.email, s.rx, s.tx, s.rx - p.0, s.tx - p.1, 0, 0,
          if s.rx > e.currentRx || s.tx > e.currentTx then Some(now) else e.lastActive,
          s.endpointIP, false)
  }

  /** What a sample makes of a record, in plain counters. A deleted record with traffic saved has just that
      pending again; one of which a counter ran backwards keeps what it had pending, and the bytes since are
      not counted; any other gains the growth. In each case the record takes the sample's name, address and
      counters, and is live. */
  lemma SampleMeans(e: Entry, s: Sample, now: Time)
    ensures var r := Sampled(e, s, now);
            && r.email == s.email && r.currentRx == s.rx && r.currentTx == s.tx && r.endpointIP == s.endpointIP
            && !r.isDeleted && r.lastDeltaRx == 0 && r.lastDeltaTx == 0
            && r.lastActive == (if s.rx > e.currentRx || s.tx > e.currentTx then Some(now) else e.lastActive)
            && (e.lastDeltaRx != 0 || e.lastDeltaTx != 0 ==>
                  s.rx - r.baseRx == e.lastDeltaRx && s.tx - r.baseTx == e.lastDeltaTx)
            && (e.lastDeltaRx == 0 && e.lastDeltaTx == 0 && s.rx >= e.currentRx && s.tx >= e.currentTx ==>
                  r.baseRx == e.baseRx && r.baseTx == e.baseTx)
            && (e.lastDeltaRx == 0 && e.lastDeltaTx == 0 && (s.rx < e.currentRx || s.tx < e.currentTx) ==>
                  && s.rx - r.baseRx == (if e.currentRx < e.baseRx then 0 else e.currentRx - e.baseRx)
                  && s.tx - r.baseTx == (if e.currentTx < e.baseTx then 0 else e.currentTx - e.baseTx))
  {
  }

  function SampledTable(t: Table, s: Sample, now: Time): Table {
    t[s.publicKey := Sampled(EntryAt(t, s), s, now)]
  }

  function SampledAll(t: Table, samples: seq<Sample>, now: Time): Table
    decreases |samples|
  {
    if samples == [] then t else SampledAll(SampledTable(t, samples[0], now), samples[1..], now)
  }

  /** buildDeltaStats: one line per direction with traffic. */
  function DeltaStats(name: string, link: Key, rx: int, tx: int): seq<Stat> {
    if rx == 0 && tx == 0 then []
    else
      (if tx > 0 then [Stat(name, Uplink, link, tx)] else [])
      + (if rx > 0 then [Stat(name, Downlink, link, rx)] else [])
  }

  /** A line for each direction with traffic, and no other: uplink what was sent, downlink what was received. */
  lemma LinesMean(name: string, link: Key, rx: int, tx: int, x: Stat)
    ensures x in DeltaStats(name, link, rx, tx) <==>
            x.name == name && x.link == link && x.value > 0 && x.value == if x.kind == Uplink then tx else rx
  {
  }

  /** What a response bills to one key in one direction. */
  function Billed(stats: seq<Stat>, key: Key, kind: Kind): int {
    if stats == [] then 0
    else (if stats[0].link == key && stats[0].kind == kind then stats[0].value else 0) + Billed(stats[1..], key, kind)
  }

  lemma {:induction false} BilledAppend(a: seq<Stat>, b: seq<Stat>, key: Key, kind: Kind)
    ensures Billed(a + b, key, kind) == Billed(a, key, kind) + Billed(b, key, kind)
    decreases |a|
  {
    if a == [] {
      assert a + b == b;
    } else {
      assert (a + b)[0] == a[0] && (a + b)[1..] == a[1..] + b;
      BilledAppend(a[1..], b, key, kind);
    }
  }

  /** Every line bears the name its key's record has. */
  ghost predicate NamedAfter(response: seq<Stat>, t: Table) {
    forall x :: x in response ==> x.link in t && x.name == t[x.link].email
  }

  lemma EmptyBill()
    ensures forall k, kind :: Billed([], k, kind) == 0
    ensures forall t :: NamedAfter([], t)
  {
  }

  lemma LinesNamed(response: seq<Stat>, lines: seq<Stat>, t: Table, key: Key, rx: int, tx: int)
    requires NamedAfter(response, t) && key in t && lines == DeltaStats(t[key].email, key, rx, tx)
    ensures NamedAfter(response + lines, t)
  {
  }

  lemma DeltaStatsBill(name: string, link: Key, rx: int, tx: int, key: Key, kind: Kind)
    ensures Billed(DeltaStats(name, link, rx, tx), key, kind) ==
            if key != link then 0 else NonNegative(if kind == Uplink then tx else rx)
  {
    var up, down := Stat(name, Uplink, link, tx), Stat(name, Downlink, link, rx);
    assert [up, down][1..] == [down] && [up][1..] == [] && [down][1..] == [];
    assert Billed([down], key, kind) == (if down.link == key && down.kind == kind then down.value else 0);
    assert Billed([up], key, kind) == (if up.link == key && up.kind == kind then up.value else 0);
    assert Billed([up, down], key, kind) ==
            (if up.link == key && up.kind == kind then up.value else 0) + Billed([down], key, kind);
  }

  function PendingOf(t: Table, key: Key, kind: Kind): int {
    if key !in t then 0 else if kind == Uplink then t[key].PendingTx() else t[key].PendingRx()
  }

  /** A live record at the start of a new reporting period. */
  function Reported(e: Entry): Entry {
    e.(baseRx := e.currentRx, baseTx := e.currentTx)
  }

  /** A reset of one key: a live record starts a new period, a deleted one is forgotten. */
  function ResetKey(t: Table, key: Key): Table {
    if key !in t then t
    else if t[key].isDeleted then t - {key}
    else t[key := Reported(t[key])]
  }

  function ResetKeys(t: Table, keys: seq<Key>): Table
    decreases |keys|
  {
    if keys == [] then t else ResetKeys(ResetKey(t, keys[0]), keys[1..])
  }

  function ResetAll(t: Table): Table {
    map k | k in t && !t[k].isDeleted :: Reported(t[k])
  }

  function MarkDeleted(e: Entry): Entry {
    e.(lastDeltaRx := e.PendingRx(), lastDeltaTx := e.PendingTx(), isDeleted := true, lastActive := None)
  }

  /** The table after RemoveStats on each of some keys. */
  function Deleted(t: Table, keys: set<Key>): Table {
    map k | k in t :: if k in keys then MarkDeleted(t[k]) else t[k]
  }

  predicate Spent(e: Entry) {
    e.isDeleted && e.PendingRx() == 0 && e.PendingTx() == 0
  }

  function Cleaned(t: Table): Table {
    map k | k in t && !Spent(t[k]) :: t[k]
  }

  /** What stays after a cleanup: every record but the deleted ones that have nothing pending. */
  lemma CleanupMeans(t: Table, k: Key)
    ensures k in Cleaned(t) <==>
            k in t && !(t[k].isDeleted && t[k].currentRx == t[k].baseRx && t[k].currentTx == t[k].baseTx)
    ensures k in Cleaned(t) ==> Cleaned(t)[k] == t[k]
  {
  }

  /** What a response gains from the lines of one record. */
  lemma LinesBill(response: seq<Stat>, key: Key, entry: Entry, lines: seq<Stat>)
    requires lines == DeltaStats(entry.email, key, entry.PendingRx(), entry.PendingTx())
    ensures forall k, kind :: Billed(response + lines, k, kind) ==
              Billed(response, k, kind)
                  + if k != key then 0 else NonNegative(if kind == Uplink then entry.PendingTx() else entry.PendingRx())
  {
    forall k, kind
      ensures Billed(response + lines, k, kind) ==
              Billed(response, k, kind)
                  + if k != key then 0 else NonNegative(if kind == Uplink then entry.PendingTx() else entry.PendingRx())
    {
      BilledAppend(response, lines, k, kind);
      DeltaStatsBill(entry.email, key, entry.PendingRx(), entry.PendingTx(), k, kind);
    }
  }

  /** An amount once for every time a key is asked for. */
  function EachTime(keys: seq<Key>, key: Key, amount: int): int
    decreases |keys|
  {
    if keys == [] then 0 else EachTime(keys[..|keys| - 1], key, amount) + if keys[|keys| - 1] == key then amount else 0
  }

  lemma NothingBilled()
    ensures NonNegative(0) == 0
  {
  }

  lemma ResetAllIs(t: Table, t': Table, reset: bool)
    requires !reset ==> t' == t
    requires reset ==> forall k :: k in t' <==> k in t && !t[k].isDeleted
    requires reset ==> forall k :: k in t' ==> t'[k] == Reported(t[k])
    ensures t' == if reset then ResetAll(t) else t
  {
  }

  class Tracker {
    var stats: Table

    constructor ()
      ensures stats == map[]
    {
      stats := map[];
    }

    method UpdateStatsBatch(samples: seq<Sample>, now: Time)
      modifies this
      ensures stats == SampledAll(old(stats), samples, now)
    {
      if |samples| == 0 {
        return;
      }
      for i := 0 to |samples|
        invariant SampledAll(stats, samples[i..], now) == SampledAll(old(stats), samples, now)
      {
        ApplySample(samples[i], now);
      }
      assert samples[|samples|..] == [];
    }

    method ApplySample(sample: Sample, activeAt: Time)
      modifies this
      ensures stats == SampledTable(old(stats), sample, activeAt)
    {
      var entry := if sample.publicKey in stats then stats[sample.publicKey] else Fresh(sample.email);
      entry := entry.(email := sample.email, isDeleted := false);

      var readded := false;
      if entry.lastDeltaRx != 0 || entry.lastDeltaTx != 0 {
        entry := entry.(baseRx := sample.rx - entry.lastDeltaRx, baseTx := sample.tx - entry.lastDeltaTx);
        entry := entry.(lastDeltaRx := 0, lastDeltaTx := 0);
        readded := true;
      }

      if entry.currentRx == sample.rx && entry.currentTx == sample.tx {
        entry := entry.(endpointIP := sample.endpointIP);
        stats := stats[sample.publicKey := entry];
        return;
      }

      if !readded && (sample.rx < entry.currentRx || sample.tx < entry.currentTx) {
        var pendingRx := entry.currentRx - entry.baseRx;
        var pendingTx := entry.currentTx - entry.baseTx;
        if pendingRx < 0 {
          pendingRx := 0;
        }
        if pendingTx < 0 {
          pendingTx := 0;
        }
        entry := entry.(baseRx := sample.rx - pendingRx, baseTx := sample.tx - pendingTx);
      }

      if sample.rx > entry.currentRx || sample.tx > entry.currentTx {
        entry := entry.(lastActive := Some(activeAt));
      }
      entry := entry.(currentRx := sample.rx, currentTx := sample.tx, endpointIP := sample.endpointIP);
      stats := stats[sample.publicKey := entry];
    }

    method GetStats(keys: seq<Key>, reset: bool) returns (response: seq<Stat>)
      modifies this
      ensures stats == if reset then ResetKeys(old(stats), keys) else old(stats)
      ensures forall k, kind :: k !in keys ==> Billed(response, k, kind) == 0
      ensures reset ==> forall k, kind ::
          k in keys ==> Billed(response, k, kind) == NonNegative(PendingOf(old(stats), k, kind))
      ensures !reset ==> forall k, kind ::
                Billed(response, k, kind) == EachTime(keys, k, NonNegative(PendingOf(old(stats), k, kind)))
      ensures NamedAfter(response, old(stats))
    {
      hide DeltaStats, Billed, NamedAfter;
      response := [];
      EmptyBill();
      for i := 0 to |keys|
        invariant !reset ==> stats == old(stats)
        invariant NamedAfter(response, old(stats))
        invariant forall k :: k in stats ==> k in old(stats) && stats[k].email == old(stats)[k].email
        invariant reset ==> ResetKeys(stats, keys[i..]) == ResetKeys(old(stats), keys)
        invariant reset ==> forall k, kind ::
            PendingOf(stats, k, kind) == if k in keys[..i] then 0 else PendingOf(old(stats), k, kind)
        invariant forall k, kind :: k !in keys[..i] ==> Billed(response, k, kind) == 0
        invariant reset ==> forall k, kind ::
            k in keys[..i] ==> Billed(response, k, kind) == NonNegative(PendingOf(old(stats), k, kind))
        invariant !reset ==>
                forall k, kind :: Billed(response, k, kind) ==
                    EachTime(keys[..i], k, NonNegative(PendingOf(old(stats), k, kind)))
      {
        var key := keys[i];
        ghost var before := stats;
        assert keys[..i + 1] == keys[..i] + [key] && keys[i..][1..] == keys[i + 1..];
        assert keys[..i + 1][..i] == keys[..i];
        NothingBilled();
        if key !in stats {
          continue;
        }
        var entry := stats[key];
        var lines := DeltaStats(entry.email, key, entry.currentRx - entry.baseRx, entry.currentTx - entry.baseTx);
        LinesBill(response, key, entry, lines);
        LinesNamed(response, lines, old(stats), key, entry.PendingRx(), entry.PendingTx());
        response := response + lines;
        if reset {
          entry := entry.(baseRx := entry.currentRx, baseTx := entry.currentTx);
          stats := stats[key := entry];
          if entry.isDeleted {
            stats := stats - {key};
          }
          assert stats == ResetKey(before, key);
          forall k, kind
            ensures PendingOf(stats, k, kind) == if k == key then 0 else PendingOf(before, k, kind)
          {
          }
        }
      }
      assert keys[..|keys|] == keys && keys[|keys|..] == [];
    }

    method GetUsersStats(reset: bool) returns (response: seq<Stat>)
      modifies this
      ensures stats == if reset then ResetAll(old(stats)) else old(stats)
      ensures forall k, kind :: Billed(response, k, kind) == NonNegative(PendingOf(old(stats), k, kind))
      ensures NamedAfter(response, old(stats))
    {
      hide DeltaStats, Billed, NamedAfter, NonNegative, Reported;
      response := [];
      EmptyBill();
      NothingBilled();
      var todo := stats.Keys;
      while todo != {}
        invariant todo <= old(stats).Keys
        invariant forall k :: k in todo ==> k in stats && stats[k] == old(stats)[k]
        invariant !reset ==> stats == old(stats)
        invariant NamedAfter(response, old(stats))
        invariant reset ==> forall k :: k in stats <==> k in old(stats) && (k in todo || !old(stats)[k].isDeleted)
        invariant reset ==> forall k :: k in stats && k !in todo ==> stats[k] == Reported(old(stats)[k])
        invariant forall k, kind ::
            Billed(response, k, kind) == if k in todo then 0 else NonNegative(PendingOf(old(stats), k, kind))
        decreases |todo|
      {
        var key :| key in todo;
        todo := todo - {key};
        var entry := stats[key];
        var lines := DeltaStats(entry.email, key, entry.currentRx - entry.baseRx, entry.currentTx - entry.baseTx);
        LinesBill(response, key, entry, lines);
        LinesNamed(response, lines, old(stats), key, entry.PendingRx(), entry.PendingTx());
        response := response + lines;
        if reset {
          StartPeriod(key, entry);
        }
      }
      ResetAllIs(old(stats), stats, reset);
    }

    /** The reset of one record inside the loop over all of them. */
    method StartPeriod(key: Key, entry: Entry)
      requires key in stats && stats[key] == entry
      modifies this
      ensures stats == if entry.isDeleted then old(stats) - {key} else old(stats)[key := Reported(entry)]
    {
      stats := stats[key := entry.(baseRx := entry.currentRx, baseTx := entry.currentTx)];
      if entry.isDeleted {
        stats := stats - {key};
      }
    }

    method RemoveStats(publicKey: Key)
      modifies this
      ensures stats == Deleted(old(stats), {publicKey})
    {
      if publicKey !in stats {
        return;
      }
      var entry := stats[publicKey];
      entry := entry.(lastDeltaRx := entry.currentRx - entry.baseRx, lastDeltaTx := entry.currentTx - entry.baseTx);
      entry := entry.(isDeleted := true, lastActive := None);
      stats := stats[publicKey := entry];
    }

    method CleanupDeletedEntries()
      modifies this
      ensures stats == Cleaned(old(stats))
    {
      var todo := stats.Keys;
      while todo != {}
        invariant todo <= old(stats).Keys
        invariant stats == map k | k in old(stats) && (k in todo || !Spent(old(stats)[k])) :: old(stats)[k]
        decreases |todo|
      {
        var key :| key in todo;
        todo := todo - {key};
        var entry := stats[key];
        if entry.isDeleted && entry.currentRx == entry.baseRx && entry.currentTx == entry.baseTx {
          stats := stats - {key};
        }
      }
    }
  }
}
