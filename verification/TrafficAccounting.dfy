/** Conservation of traffic over whole runs of the tracker, against a device that counts bytes and
    whose per-key counters can start over. */
module TrafficAccounting {
  import opened Tracker
  import opened Wrappers

  datatype Pair = Pair(rx: int, tx: int)
  {
    function Plus(o: Pair): Pair {
      Pair(rx + o.rx, tx + o.tx)
    }

    function Minus(o: Pair): Pair {
      Pair(rx - o.rx, tx - o.tx)
    }

    predicate AtLeast(o: Pair) {
      rx >= o.rx && tx >= o.tx
    }
  }

  const ZERO := Pair(0, 0)

  /** What the device knows of one key: every byte it ever counted, and the counter it shows now. */
  datatype Meter = Meter(total: Pair, counter: Pair)

  datatype Event =
    | Traffic(k: Key, bytes: Pair)                                  // the device moves bytes for a key
    | CounterRestart(k: Key)                                        // its counter starts over at zero
    | Poll(samples: seq<Sample>, now: Time)                         // UpdateStatsBatch of what the device shows
    | ResetKeysCall(keys: seq<Key>)                                 // GetStats with reset
    | ResetAllCall                                                  // GetUsersStats with reset
    | Removal(k: Key)                                               // the peer is removed, then RemoveStats
    | Cleanup

  /** Everything about one key: what the device knows, what was billed, and the tracker's record. */
  datatype KeyState = KeyState(meter: Meter, billed: Pair, entry: Option<Entry>)
  {
    function Pending(): Pair {
      if entry.None? then ZERO else Pair(entry.value.PendingRx(), entry.value.PendingTx())
    }

    /** Bytes the device counted that were neither billed nor are pending. */
    function Unbilled(): Pair {
      meter.total.Minus(billed).Minus(Pending())
    }
  }

  const FRESH := KeyState(Meter(ZERO, ZERO), ZERO, None)

  function ResetState(s: KeyState): KeyState {
    match s.entry
    case None => s
    case Some(e) =>
      KeyState(s.meter, s.billed.Plus(Pair(NonNegative(e.PendingRx()), NonNegative(e.PendingTx()))),
               if e.isDeleted then None else Some(Reported(e)))
  }

  function RestartState(s: KeyState): KeyState {
    s.(meter := s.meter.(counter := ZERO))
  }

  function PollState(s: KeyState, k: Key, samples: seq<Sample>, now: Time): KeyState
    decreases |samples|
  {
    if samples == [] then s
    else
      var e := if s.entry.Some? then s.entry.value else Fresh(samples[0].email);
      PollState(if samples[0].publicKey == k then s.(entry := Some(Sampled(e, samples[0], now))) else s, k,
          samples[1..], now)
  }

  /** The effect of an event on one key. */
  function KeyStep(s: KeyState, k: Key, e: Event): KeyState {
    match e
    case Traffic(x, b) => if x == k then s.(meter := Meter(s.meter.total.Plus(b), s.meter.counter.Plus(b))) else s
    case CounterRestart(x) => if x == k then RestartState(s) else s
    case Poll(samples, now) => PollState(s, k, samples, now)
    case ResetKeysCall(keys) => if k in keys then ResetState(s) else s
    case ResetAllCall => ResetState(s)
    case Removal(x) =>
      if x != k then s
      else RestartState(s.(entry := if s.entry.Some? then Some(MarkDeleted(s.entry.value)) else None))
    case Cleanup => if s.entry.Some? && Spent(s.entry.value) then s.(entry := None) else s
  }

  /** What a reset of several keys does to each: a key listed twice is reset once. */
  lemma {:induction false} ResetKeysPointwise(t: Table, keys: seq<Key>, k: Key)
    ensures k !in keys ==> (k in ResetKeys(t, keys) <==> k in t) && (k in t ==> ResetKeys(t, keys)[k] == t[k])
    ensures k in keys ==>
              (k in ResetKeys(t, keys) <==> k in t && !t[k].isDeleted)
              && (k in t && !t[k].isDeleted ==> ResetKeys(t, keys)[k] == Reported(t[k]))
    decreases |keys|
  {
    if keys != [] {
      ResetKeysPointwise(ResetKey(t, keys[0]), keys[1..], k);
    }
  }

  function Look(t: Table, k: Key): Option<Entry> {
    if k in t then Some(t[k]) else None
  }

  lemma {:induction false} PollProjects(t: Table, s: KeyState, samples: seq<Sample>, now: Time, k: Key)
    requires s.entry == Look(t, k)
    ensures PollState(s, k, samples, now).entry == Look(SampledAll(t, samples, now), k)
    decreases |samples|
  {
    if samples != [] {
      var e := if s.entry.Some? then s.entry.value else Fresh(samples[0].email);
      PollProjects(SampledTable(t, samples[0], now),
                   if samples[0].publicKey == k then s.(entry := Some(Sampled(e, samples[0], now))) else s,
                   samples[1..], now, k);
    }
  }

  /** The table after the tracker call an event stands for. */
  function TableStep(t: Table, e: Event): Table {
    match e
    case Poll(samples, now) => SampledAll(t, samples, now)
    case ResetKeysCall(keys) => ResetKeys(t, keys)
    case ResetAllCall => ResetAll(t)
    case Removal(k) => Deleted(t, {k})
    case Cleanup => Cleaned(t)
    case _ => t
  }

  function TableRun(t: Table, es: seq<Event>): Table
    decreases |es|
  {
    if es == [] then t else TableRun(TableStep(t, es[0]), es[1..])
  }

  function KeyRun(s: KeyState, k: Key, es: seq<Event>): KeyState
    decreases |es|
  {
    if es == [] then s else KeyRun(KeyStep(s, k, es[0]), k, es[1..])
  }

  lemma StepProjects(t: Table, s: KeyState, k: Key, e: Event)
    requires s.entry == Look(t, k)
    ensures KeyStep(s, k, e).entry == Look(TableStep(t, e), k)
  {
    match e
    case Poll(samples, now) => PollProjects(t, s, samples, now, k);
    case ResetKeysCall(keys) => ResetKeysPointwise(t, keys, k);
    case _ =>
  }

  /** The tracker treats keys independently: what a run of calls leaves in the table for a key is what
      the run of their effects on that key alone leaves. */
  lemma {:induction false} RunProjects(t: Table, s: KeyState, k: Key, es: seq<Event>)
    requires s.entry == Look(t, k)
    ensures KeyRun(s, k, es).entry == Look(TableRun(t, es), k)
    decreases |es|
  {
    if es != [] {
      StepProjects(t, s, k, es[0]);
      RunProjects(TableStep(t, es[0]), KeyStep(s, k, es[0]), k, es[1..]);
    }
  }

  /** Traffic is not negative, and a poll shows the device's counter. */
  ghost predicate Possible(s: KeyState, k: Key, e: Event) {
    match e
    case Traffic(_, b) => b.AtLeast(ZERO)
    case Poll(samples, _) => Shows(s, k, samples)
    case _ => true
  }

  ghost predicate Shows(s: KeyState, k: Key, samples: seq<Sample>) {
    forall x :: x in samples && x.publicKey == k ==> Pair(x.rx, x.tx) == s.meter.counter
  }

  ghost predicate PossibleRun(s: KeyState, k: Key, es: seq<Event>)
    decreases |es|
  {
    es == [] || (Possible(s, k, es[0]) && PossibleRun(KeyStep(s, k, es[0]), k, es[1..]))
  }

  function Current(e: Entry): Pair {
    Pair(e.currentRx, e.currentTx)
  }

  /** What the tracker maintains about one key. The unbilled bytes always cover the growth the next
      sample may credit, which is the whole counter when there is no record or a deleted one. */
  ghost predicate Ok(s: KeyState) {
    && s.meter.counter.AtLeast(ZERO)
    && s.Pending().AtLeast(ZERO)
    && s.Unbilled().AtLeast(ZERO)
    && match s.entry
       case None => s.Unbilled().AtLeast(s.meter.counter)
       case Some(e) =>
         && Current(e).AtLeast(ZERO)
         && s.Unbilled().AtLeast(s.meter.counter.Minus(Current(e)))
         && Pair(e.lastDeltaRx, e.lastDeltaTx) == (if e.isDeleted then s.Pending() else ZERO)
         && (e.isDeleted ==> s.Unbilled().AtLeast(s.meter.counter))
  }

  /** The exact account: the unbilled bytes are the growth since the last sample, no more and no less. */
  ghost predicate Exact(s: KeyState) {
    && s.meter.counter.AtLeast(ZERO)
    && match s.entry
       case None => s.Unbilled() == s.meter.counter
       case Some(e) =>
         && !e.isDeleted && e.lastDeltaRx == 0 && e.lastDeltaTx == 0
         && Current(e).AtLeast(ZERO)
         && s.meter.counter.AtLeast(Current(e))
         && s.Pending().AtLeast(ZERO)
         && s.Unbilled() == s.meter.counter.Minus(Current(e))
  }

  lemma {:induction false} PollKeeps(s: KeyState, k: Key, samples: seq<Sample>, now: Time)
    requires Shows(s, k, samples)
    ensures Ok(s) ==> Ok(PollState(s, k, samples, now))
    ensures Exact(s) ==> Exact(PollState(s, k, samples, now))
    ensures PollState(s, k, samples, now).meter == s.meter && PollState(s, k, samples, now).billed == s.billed
    decreases |samples|
  {
    if samples != [] {
      assert samples[0] in samples;
      var e := if s.entry.Some? then s.entry.value else Fresh(samples[0].email);
      PollKeeps(if samples[0].publicKey == k then s.(entry := Some(Sampled(e, samples[0], now))) else s, k,
          samples[1..], now);
    }
  }

  lemma {:induction false} RunKeepsOk(s: KeyState, k: Key, es: seq<Event>)
    requires Ok(s) && PossibleRun(s, k, es)
    ensures Ok(KeyRun(s, k, es))
    decreases |es|
  {
    if es != [] {
      match es[0] {
        case Poll(samples, now) => PollKeeps(s, k, samples, now);
        case _ =>
      }
      RunKeepsOk(KeyStep(s, k, es[0]), k, es[1..]);
    }
  }

  /** The tracker never over-bills: in every run, for every key and direction, what resets reported
      plus what is still pending is at most what the device counted, and nothing pending is negative. */
  lemma NeverOverBills(k: Key, es: seq<Event>)
    requires PossibleRun(FRESH, k, es)
    ensures var s := KeyRun(FRESH, k, es);
            s.meter.total.AtLeast(s.billed.Plus(s.Pending())) && s.Pending().AtLeast(ZERO)
            && s.entry == Look(TableRun(map[], es), k)
  {
    RunKeepsOk(FRESH, k, es);
    RunProjects(map[], FRESH, k, es);
  }

  /** A run in which a key is never removed and its counter never restarts. */
  ghost predicate Undisturbed(es: seq<Event>, k: Key) {
    CounterRestart(k) !in es && Removal(k) !in es
  }

  lemma {:induction false} RunKeepsExact(s: KeyState, k: Key, es: seq<Event>)
    requires Exact(s) && PossibleRun(s, k, es) && Undisturbed(es, k)
    ensures Exact(KeyRun(s, k, es))
    decreases |es|
  {
    if es != [] {
      assert es[0] in es;
      match es[0] {
        case Poll(samples, now) => PollKeeps(s, k, samples, now);
        case _ =>
      }
      RunKeepsExact(KeyStep(s, k, es[0]), k, es[1..]);
    }
  }

  /** The bytes of a counter that no sample has shown the tracker yet. */
  function Unsampled(s: KeyState): Pair {
    s.meter.counter.Minus(if s.entry.Some? then Current(s.entry.value) else ZERO)
  }

  lemma ExactAccount(s: KeyState)
    requires Exact(s)
    ensures s.meter.total == s.billed.Plus(s.Pending()).Plus(Unsampled(s))
  {
  }

  /** While a key is neither removed nor restarted, nothing is lost either: every byte the device
      counted is billed, pending, or younger than the last sample. */
  lemma BillsExactly(k: Key, es: seq<Event>)
    requires PossibleRun(FRESH, k, es) && Undisturbed(es, k)
    ensures var s := KeyRun(FRESH, k, es);
            s.meter.total == s.billed.Plus(s.Pending()).Plus(Unsampled(s))
  {
    RunKeepsExact(FRESH, k, es);
    ExactAccount(KeyRun(FRESH, k, es));
  }

  lemma {:induction false} PollKeepsPending(s: KeyState, k: Key, samples: seq<Sample>, now: Time)
    requires Ok(s) && Shows(s, k, samples)
    ensures PollState(s, k, samples, now).Pending().AtLeast(s.Pending())
    decreases |samples|
  {
    if samples != [] {
      assert samples[0] in samples;
      var e := if s.entry.Some? then s.entry.value else Fresh(samples[0].email);
      var next := if samples[0].publicKey == k then s.(entry := Some(Sampled(e, samples[0], now))) else s;
      OneSample(s, k, samples[0], now);
      PollKeepsPending(next, k, samples[1..], now);
    }
  }

  lemma OneSample(s: KeyState, k: Key, x: Sample, now: Time)
    requires Ok(s) && (x.publicKey == k ==> Pair(x.rx, x.tx) == s.meter.counter)
    ensures var e := if s.entry.Some? then s.entry.value else Fresh(x.email);
            var next := if x.publicKey == k then s.(entry := Some(Sampled(e, x, now))) else s;
            Ok(next) && next.Pending().AtLeast(s.Pending()) && next.meter == s.meter && next.billed == s.billed
  {
  }

  ghost predicate NoReset(es: seq<Event>) {
    forall e :: e in es ==> !e.ResetKeysCall? && !e.ResetAllCall?
  }

  lemma OtherKeepsPending(s: KeyState, k: Key, e: Event)
    requires Ok(s) && Possible(s, k, e) && !e.Poll? && !e.ResetKeysCall? && !e.ResetAllCall?
    ensures Ok(KeyStep(s, k, e)) && KeyStep(s, k, e).Pending().AtLeast(s.Pending())
              && KeyStep(s, k, e).billed == s.billed
  {
  }

  lemma {:induction false} RunKeepsPending(s: KeyState, k: Key, es: seq<Event>)
    requires Ok(s) && PossibleRun(s, k, es) && NoReset(es)
    ensures KeyRun(s, k, es).Pending().AtLeast(s.Pending()) && KeyRun(s, k, es).billed == s.billed
    decreases |es|
  {
    hide Ok, PollState;
    if es != [] {
      assert es[0] in es;
      if es[0].Poll? {
        PollKeeps(s, k, es[0].samples, es[0].now);
        PollKeepsPending(s, k, es[0].samples, es[0].now);
      } else {
        OtherKeepsPending(s, k, es[0]);
      }
      hide KeyStep;
      RunKeepsPending(KeyStep(s, k, es[0]), k, es[1..]);
    }
  }

  /** No pending traffic is lost outside a reset: whatever polls, removals, re-adds, counter restarts and
      cleanups follow, a key's pending traffic does not shrink, and nothing is billed. */
  lemma PendingSurvives(k: Key, es: seq<Event>, more: seq<Event>)
    requires PossibleRun(FRESH, k, es) && PossibleRun(KeyRun(FRESH, k, es), k, more) && NoReset(more)
    ensures var s, after := KeyRun(FRESH, k, es), KeyRun(KeyRun(FRESH, k, es), k, more);
            after.Pending().AtLeast(s.Pending()) && after.billed == s.billed
  {
    RunKeepsOk(FRESH, k, es);
    RunKeepsPending(KeyRun(FRESH, k, es), k, more);
  }

  /** A re-added key starts from the traffic it had pending when it was removed. */
  lemma ReaddKeepsPending(k: Key, es: seq<Event>, x: Sample, now: Time)
    requires PossibleRun(FRESH, k, es) && x.publicKey == k
    requires var s := KeyRun(FRESH, k, es); s.entry.Some? && s.entry.value.isDeleted && s.Pending() != ZERO
    ensures PollState(KeyRun(FRESH, k, es), k, [x], now).Pending() == KeyRun(FRESH, k, es).Pending()
  {
    hide KeyRun, PossibleRun;
    RunKeepsOk(FRESH, k, es);
    ReaddedState(KeyRun(FRESH, k, es), x, now);
  }

  lemma ReaddedState(s: KeyState, x: Sample, now: Time)
    requires Ok(s) && s.entry.Some? && s.entry.value.isDeleted && s.Pending() != ZERO
    ensures PollState(s, x.publicKey, [x], now).Pending() == s.Pending()
  {
    assert [x][1..] == [];
    assert PollState(s, x.publicKey, [x], now) == s.(entry := Some(Sampled(s.entry.value, x, now)));
  }
}
