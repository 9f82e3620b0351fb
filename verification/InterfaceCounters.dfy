/** The node-level counters: pkg/stats/interface_counters.go, Delta, and what it reports over whole runs. */
module InterfaceCounters {
  import opened TrafficAccounting
  import opened Wrappers

  /** The baseline after a call, and the delta the call returns. */
  function Rebased(base: Option<Pair>, current: Pair): Pair {
    if base.None? || current.rx < base.value.rx || current.tx < base.value.tx then current else base.value
  }

  class Tracker {
    var baseRx: int
    var baseTx: int
    var baseSet: bool

    ghost function Base(): Option<Pair>
      reads this
    {
      if baseSet then Some(Pair(baseRx, baseTx)) else None
    }

    constructor ()
      ensures Base() == None
    {
      baseRx, baseTx, baseSet := 0, 0, false;
    }

    method Delta(currentRx: int, currentTx: int, reset: bool) returns (deltaRx: int, deltaTx: int)
      modifies this
      ensures Pair(deltaRx, deltaTx) ==
                Pair(currentRx, currentTx).Minus(Rebased(old(Base()), Pair(currentRx, currentTx)))
      ensures Base() ==
                Some(if reset then Pair(currentRx, currentTx)
                     else Rebased(old(Base()), Pair(currentRx, currentTx)))
      ensures deltaRx >= 0 && deltaTx >= 0
      // the first call and one after either counter ran backwards start over, in both directions
      ensures old(!baseSet || currentRx < baseRx || currentTx < baseTx) ==>
                deltaRx == 0 && deltaTx == 0 && Base() == Some(Pair(currentRx, currentTx))
      ensures old(baseSet && currentRx >= baseRx && currentTx >= baseTx) ==>
                && deltaRx == currentRx - old(baseRx) && deltaTx == currentTx - old(baseTx)
                && Base() == Some(if reset then Pair(currentRx, currentTx) else Pair(old(baseRx), old(baseTx)))
    {
      if !baseSet {
        baseRx, baseTx, baseSet := currentRx, currentTx, true;
      }
      if currentRx < baseRx || currentTx < baseTx {
        baseRx, baseTx := currentRx, currentTx;
      }
      deltaRx, deltaTx := currentRx - baseRx, currentTx - baseTx;
      if reset {
        baseRx, baseTx := currentRx, currentTx;
      }
    }
  }

  /** The node's counters, everything resets reported, and the tracker's baseline. */
  datatype Node = Node(meter: Meter, reported: Pair, base: Option<Pair>)
  {
    /** What a call would return now. */
    function Due(): Pair {
      meter.counter.Minus(Rebased(base, meter.counter))
    }
  }

  datatype Happening =
    | Counts(bytes: Pair)
    | CounterStartsOver
    | Asked(reset: bool) // Delta on the counter as it stands

  const UNASKED := Node(Meter(ZERO, ZERO), ZERO, None)

  function Step(n: Node, h: Happening): Node {
    match h
    case Counts(b) => n.(meter := Meter(n.meter.total.Plus(b), n.meter.counter.Plus(b)))
    case CounterStartsOver => n.(meter := n.meter.(counter := ZERO))
    case Asked(reset) =>
      if reset then Node(n.meter, n.reported.Plus(n.Due()), Some(n.meter.counter))
      else n.(base := Some(Rebased(n.base, n.meter.counter)))
  }

  function Run(n: Node, hs: seq<Happening>): Node
    decreases |hs|
  {
    if hs == [] then n else Run(Step(n, hs[0]), hs[1..])
  }

  ghost predicate Possible(hs: seq<Happening>) {
    forall h :: h in hs && h.Counts? ==> h.bytes.AtLeast(ZERO)
  }

  ghost predicate Covered(n: Node) {
    && n.meter.counter.AtLeast(ZERO) && n.meter.total.AtLeast(n.meter.counter)
    && n.meter.total.AtLeast(n.reported)
    && match n.base
       case None => n.reported == ZERO
       case Some(b) => b.AtLeast(ZERO) && n.meter.total.AtLeast(n.reported.Plus(n.meter.counter.Minus(b)))
  }

  lemma {:induction false} RunKeepsCovered(n: Node, hs: seq<Happening>)
    requires Covered(n) && Possible(hs)
    ensures Covered(Run(n, hs))
    decreases |hs|
  {
    if hs != [] {
      assert hs[0] in hs;
      RunKeepsCovered(Step(n, hs[0]), hs[1..]);
    }
  }

  /** Over any run, with counters starting over at any point, what resets reported plus what the next call
      would return never exceeds what the node counted, and is never negative. */
  lemma NeverOverReports(hs: seq<Happening>)
    requires Possible(hs)
    ensures var n := Run(UNASKED, hs);
            n.meter.total.AtLeast(n.reported.Plus(n.Due())) && n.Due().AtLeast(ZERO)
  {
    RunKeepsCovered(UNASKED, hs);
  }

  ghost predicate Exact(n: Node, from: Pair) {
    match n.base
    case None => false
    case Some(b) => n.meter.counter.AtLeast(b) && n.reported.Plus(n.meter.counter).Minus(b) == n.meter.total.Minus(from)
  }

  lemma {:induction false} RunKeepsExact(n: Node, from: Pair, hs: seq<Happening>)
    requires Exact(n, from) && Possible(hs) && CounterStartsOver !in hs
    ensures Exact(Run(n, hs), from)
    decreases |hs|
  {
    if hs != [] {
      assert hs[0] in hs;
      RunKeepsExact(Step(n, hs[0]), from, hs[1..]);
    }
  }

  /** What the node counts before the first call is never reported; from then on, while the counters do not
      start over, every byte is reported once or still due. */
  lemma ReportsExactlySinceFirstCall(before: Pair, reset: bool, hs: seq<Happening>)
    requires before.AtLeast(ZERO) && Possible(hs) && CounterStartsOver !in hs
    ensures var n := Run(UNASKED, [Counts(before), Asked(reset)] + hs);
            n.reported.Plus(n.Due()) == n.meter.total.Minus(before)
  {
    var first := Step(Step(UNASKED, Counts(before)), Asked(reset));
    var all := [Counts(before), Asked(reset)] + hs;
    assert all[1..] == [Asked(reset)] + hs && all[1..][1..] == hs;
    assert Run(UNASKED, all) == Run(Step(UNASKED, Counts(before)), all[1..]);
    assert Run(UNASKED, all) == Run(first, hs);
    RunKeepsExact(first, before, hs);
  }
}
