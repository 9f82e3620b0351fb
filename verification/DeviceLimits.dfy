/** One device limit shared across protocols: backend/devicelimit.go. What a backend answers is a value;
    the KeepDevices calls the pass makes are its result. */
module DeviceLimits {
  import opened Wrappers

  type UserName = string

  /** A backend: how many devices each user has online on it, and the limits of the users it knows. */
  datatype Limiter = Limiter(protocol: string, online: map<UserName, nat>, limits: map<UserName, nat>)

  datatype Call = KeepDevices(at: nat, user: UserName, keep: nat)

  const UINT32: nat := 0x1_0000_0000

  function Rank(protocol: string): nat {
    if protocol == "xray" then 0
    else if protocol == "wireguard" then 1
    else if protocol == "openvpn" then 2
    else if protocol == "ikev2" then 3
    else if protocol == "l2tp" then 4
    else 0x4000_0000
  }

  /** The protocols from the one that keeps its devices longest to the one that sheds first; any other comes
      after them, and all others are equal. */
  lemma RankMeans(p: string)
    ensures Rank("xray") < Rank("wireguard") < Rank("openvpn") < Rank("ikev2") < Rank("l2tp")
    ensures p !in {"xray", "wireguard", "openvpn", "ikev2", "l2tp"} ==> Rank("l2tp") < Rank(p)
    ensures p !in {"xray", "wireguard", "openvpn", "ikev2", "l2tp"} ==> Rank(p) == Rank("any other")
  {
  }

  // ----- Priority order -----

  /** Stable sorting by rank: each limiter goes behind those of its own rank. */
  function Insert(sorted: seq<Limiter>, l: Limiter): seq<Limiter>
    decreases |sorted|
  {
    if sorted == [] || Rank(sorted[|sorted| - 1].protocol) <= Rank(l.protocol) then sorted + [l]
    else Insert(sorted[..|sorted| - 1], l) + [sorted[|sorted| - 1]]
  }

  function Ordered(limiters: seq<Limiter>): seq<Limiter>
    decreases |limiters|
  {
    if limiters == [] then []
    else Insert(Ordered(limiters[..|limiters| - 1]), limiters[|limiters| - 1])
  }

  function OfRank(limiters: seq<Limiter>, r: nat): seq<Limiter>
    decreases |limiters|
  {
    if limiters == [] then []
    else
      OfRank(limiters[..|limiters| - 1], r)
      + if Rank(limiters[|limiters| - 1].protocol) == r then [limiters[|limiters| - 1]] else []
  }

  predicate ByRank(limiters: seq<Limiter>) {
    forall i, j :: 0 <= i < j < |limiters| ==> Rank(limiters[i].protocol) <= Rank(limiters[j].protocol)
  }

  lemma OfRankAppend(limiters: seq<Limiter>, l: Limiter, r: nat)
    ensures OfRank(limiters + [l], r) == OfRank(limiters, r) + if Rank(l.protocol) == r then [l] else []
  {
    assert (limiters + [l])[..|limiters|] == limiters;
  }

  lemma {:induction false} InsertKeepsOrder(sorted: seq<Limiter>, l: Limiter)
    requires ByRank(sorted)
    ensures ByRank(Insert(sorted, l)) && |Insert(sorted, l)| == |sorted| + 1
    ensures forall i :: 0 <= i <= |sorted| ==> Insert(sorted, l)[i] == l || Insert(sorted, l)[i] in sorted
    decreases |sorted|
  {
    hide Rank;
    if sorted != [] && Rank(sorted[|sorted| - 1].protocol) > Rank(l.protocol) {
      var init, last := sorted[..|sorted| - 1], sorted[|sorted| - 1];
      InsertKeepsOrder(init, l);
      forall i | 0 <= i < |Insert(init, l)|
        ensures Rank(Insert(init, l)[i].protocol) <= Rank(last.protocol)
      {
        if Insert(init, l)[i] != l {
          var k :| 0 <= k < |init| && init[k] == Insert(init, l)[i];
          assert sorted[k] == init[k];
        }
      }
    }
  }

  lemma {:induction false} InsertIsStable(sorted: seq<Limiter>, l: Limiter, r: nat)
    requires ByRank(sorted)
    ensures OfRank(Insert(sorted, l), r) == OfRank(sorted + [l], r)
    decreases |sorted|
  {
    hide Rank, OfRank;
    if sorted != [] && Rank(sorted[|sorted| - 1].protocol) > Rank(l.protocol) {
      var init, last := sorted[..|sorted| - 1], sorted[|sorted| - 1];
      assert sorted == init + [last];
      InsertIsStable(init, l, r);
      OfRankAppend(Insert(init, l), last, r);
      OfRankAppend(init, l, r);
      OfRankAppend(init, last, r);
      OfRankAppend(sorted, l, r);
    }
  }

  /** The pass goes by ascending rank, and limiters of one rank keep the order they came in: none is lost
      and none is doubled. */
  lemma {:induction false} OrderedIsStable(limiters: seq<Limiter>)
    ensures ByRank(Ordered(limiters)) && |Ordered(limiters)| == |limiters|
    ensures forall r :: OfRank(Ordered(limiters), r) == OfRank(limiters, r)
    decreases |limiters|
  {
    if limiters != [] {
      var init, last := limiters[..|limiters| - 1], limiters[|limiters| - 1];
      assert limiters == init + [last];
      OrderedIsStable(init);
      InsertKeepsOrder(Ordered(init), last);
      forall r
        ensures OfRank(Ordered(limiters), r) == OfRank(limiters, r)
      {
        InsertIsStable(Ordered(init), last, r);
        OfRankAppend(Ordered(init), last, r);
        OfRankAppend(init, last, r);
      }
    }
  }

  function Ranks(limiters: seq<Limiter>): (ranks: seq<nat>)
    ensures |ranks| == |limiters| && forall i :: 0 <= i < |limiters| ==> ranks[i] == Rank(limiters[i].protocol)
  {
    seq(|limiters|, i requires 0 <= i < |limiters| => Rank(limiters[i].protocol))
  }

  ghost predicate Within(sorted: seq<nat>, k: nat) {
    forall i :: 0 <= i < |sorted| ==> sorted[i] < k
  }

  /** The same sort on positions: it looks at the ranks alone. */
  ghost function Place(ranks: seq<nat>, sorted: seq<nat>, n: nat): (placed: seq<nat>)
    requires n < |ranks| && Within(sorted, n)
    ensures |placed| == |sorted| + 1 && Within(placed, n + 1)
    ensures n in placed && forall m :: m in sorted ==> m in placed
    decreases |sorted|
  {
    if sorted == [] || ranks[sorted[|sorted| - 1]] <= ranks[n] then
      assert forall m :: m in sorted ==> m in sorted + [n];
      assert (sorted + [n])[|sorted|] == n;
      sorted + [n]
    else
      var init, last := sorted[..|sorted| - 1], sorted[|sorted| - 1];
      assert sorted == init + [last];
      Place(ranks, init, n) + [last]
  }

  ghost function Positions(ranks: seq<nat>, k: nat): (places: seq<nat>)
    requires k <= |ranks|
    ensures |places| == k && Within(places, k) && forall m :: 0 <= m < k ==> m in places
  {
    if k == 0 then [] else Place(ranks, Positions(ranks, k - 1), k - 1)
  }

  lemma {:induction false} InsertPlaces(limiters: seq<Limiter>, placed: seq<Limiter>, sorted: seq<nat>, n: nat)
    requires n < |limiters| && Within(sorted, n) && |placed| == |sorted|
    requires forall i :: 0 <= i < |sorted| ==> placed[i] == limiters[sorted[i]]
    ensures |Insert(placed, limiters[n])| == |sorted| + 1
    ensures forall i :: 0 <= i <= |sorted| ==>
                          Insert(placed, limiters[n])[i] == limiters[Place(Ranks(limiters), sorted, n)[i]]
    decreases |sorted|
  {
    hide Rank;
    if sorted != [] && Rank(placed[|placed| - 1].protocol) > Rank(limiters[n].protocol) {
      InsertPlaces(limiters, placed[..|placed| - 1], sorted[..|sorted| - 1], n);
    }
  }

  /** Where each limiter goes in priority order. */
  lemma {:induction false} OrderedByPosition(limiters: seq<Limiter>, k: nat)
    requires k <= |limiters|
    ensures |Ordered(limiters[..k])| == k
    ensures forall i :: 0 <= i < k ==> Ordered(limiters[..k])[i] == limiters[Positions(Ranks(limiters), k)[i]]
  {
    if k > 0 {
      OrderedByPosition(limiters, k - 1);
      OrderedStep(limiters, k - 1);
      hide Ordered, Insert, Place;
      InsertPlaces(limiters, Ordered(limiters[..k - 1]), Positions(Ranks(limiters), k - 1), k - 1);
    } else {
      assert limiters[..0] == [];
    }
  }

  lemma OrderedStep(limiters: seq<Limiter>, k: nat)
    requires k < |limiters|
    ensures Ordered(limiters[..k + 1]) == Insert(Ordered(limiters[..k]), limiters[k])
  {
    hide Insert;
    assert limiters[..k + 1][..k] == limiters[..k];
  }

  // ----- Sharing one budget -----

  function Total(counts: seq<nat>): nat {
    if counts == [] then 0 else counts[0] + Total(counts[1..])
  }

  function Min(a: nat, b: nat): nat {
    if a < b then a else b
  }

  /** The budget handed out front to back. */
  function Shared(counts: seq<nat>, budget: nat): (kept: seq<nat>)
    ensures |kept| == |counts|
    decreases |counts|
  {
    if counts == [] then []
    else
      var keep := Min(counts[0], budget);
      [keep] + Shared(counts[1..], budget - keep)
  }

  predicate Fits(kept: seq<nat>, counts: seq<nat>, budget: nat) {
    |kept| == |counts| && Total(kept) <= budget && forall i :: 0 <= i < |counts| ==> kept[i] <= counts[i]
  }

  predicate LexAtMost(a: seq<nat>, b: seq<nat>)
    requires |a| == |b|
  {
    a == [] || a[0] < b[0] || (a[0] == b[0] && LexAtMost(a[1..], b[1..]))
  }

  lemma {:induction false} SharedTotal(counts: seq<nat>, budget: nat)
    ensures Total(Shared(counts, budget)) == Min(Total(counts), budget)
    ensures Fits(Shared(counts, budget), counts, budget)
    decreases |counts|
  {
    if counts != [] {
      var keep := Min(counts[0], budget);
      SharedTotal(counts[1..], budget - keep);
      assert Shared(counts, budget)[1..] == Shared(counts[1..], budget - keep);
    }
  }

  /** No vector within the counts and the budget puts more devices on a higher-priority backend. */
  lemma {:induction false} SharedIsGreatest(counts: seq<nat>, budget: nat, other: seq<nat>)
    requires Fits(other, counts, budget)
    ensures LexAtMost(other, Shared(counts, budget))
    decreases |counts|
  {
    if counts != [] {
      var keep := Min(counts[0], budget);
      assert Shared(counts, budget)[1..] == Shared(counts[1..], budget - keep);
      if other[0] == keep {
        SharedIsGreatest(counts[1..], budget - keep, other[1..]);
      } else {
        assert other[0] <= counts[0] && other[0] <= budget;
      }
    }
  }

  /** A user's counts in priority order, and the limit of the first backend that knows it. */
  function CountsOf(order: seq<Limiter>, user: UserName): (counts: seq<nat>)
    ensures |counts| == |order|
    ensures forall i :: 0 <= i < |order| ==> counts[i] == if user in order[i].online then order[i].online[user] else 0
  {
    if order == [] then []
    else [if user in order[0].online then order[0].online[user] else 0] + CountsOf(order[1..], user)
  }

  function LimitOf(order: seq<Limiter>, user: UserName): Option<nat> {
    if order == [] then None
    else if user in order[0].limits then Some(order[0].limits[user])
    else LimitOf(order[1..], user)
  }

  /** The limit that counts is that of the first backend in priority order that knows the user. */
  lemma {:induction false} LimitMeans(order: seq<Limiter>, user: UserName)
    ensures LimitOf(order, user).None? <==> forall i :: 0 <= i < |order| ==> user !in order[i].limits
    ensures forall i :: 0 <= i < |order| && user in order[i].limits
                        && (forall j :: 0 <= j < i ==> user !in order[j].limits) ==>
              LimitOf(order, user) == Some(order[i].limits[user])
    decreases |order|
  {
    if order != [] {
      LimitMeans(order[1..], user);
      forall i | 0 < i < |order|
        ensures order[i] == order[1..][i - 1]
      {
      }
      if user !in order[0].limits {
        forall i | 0 <= i < |order| && user in order[i].limits && forall j :: 0 <= j < i ==> user !in order[j].limits
          ensures LimitOf(order, user) == Some(order[i].limits[user])
        {
          assert order[1..][i - 1] == order[i];
          assert forall j :: 0 <= j < i - 1 ==> order[1..][j] == order[j + 1];
        }
      }
    }
  }

  /** Whether the pass acts on a user. The comparison is made on 32 bits. */
  predicate Over(order: seq<Limiter>, user: UserName) {
    && LimitOf(order, user).Some? && LimitOf(order, user).value != 0
    && Total(CountsOf(order, user)) % UINT32 > LimitOf(order, user).value
  }

  /** The pass acts on a user whose limit is known and positive, and whose devices, counted on all backends and
      reduced to 32 bits, are more. */
  lemma OverMeans(order: seq<Limiter>, user: UserName)
    ensures Over(order, user) <==>
            LimitOf(order, user).Some? && LimitOf(order, user).value > 0
            && Total(CountsOf(order, user)) % 4294967296 > LimitOf(order, user).value
  {
    hide Total, CountsOf, LimitOf;
  }

  /** What a user is left with on each backend. */
  function Kept(order: seq<Limiter>, user: UserName): (kept: seq<nat>)
    ensures |kept| == |order|
  {
    if Over(order, user) then Shared(CountsOf(order, user), LimitOf(order, user).value) else CountsOf(order, user)
  }

  ghost predicate Calls(order: seq<Limiter>, c: Call) {
    c.at < |order| && c.keep == Kept(order, c.user)[c.at] && c.keep < CountsOf(order, c.user)[c.at]
  }

  ghost predicate Limits32(order: seq<Limiter>) {
    forall i, u :: 0 <= i < |order| && u in order[i].limits ==> order[i].limits[u] < UINT32
  }

  lemma {:induction false} BudgetRunsOut(counts: seq<nat>, budget: nat, i: nat, j: nat)
    requires i < j < |counts| && Shared(counts, budget)[j] > 0
    ensures Shared(counts, budget)[i] == counts[i]
    decreases |counts|
  {
    var keep := Min(counts[0], budget);
    assert Shared(counts, budget)[1..] == Shared(counts[1..], budget - keep);
    if i > 0 {
      BudgetRunsOut(counts[1..], budget - keep, i - 1, j - 1);
    } else if keep < counts[0] {
      SharedTotal(counts[1..], 0);
      NoBudget(counts[1..], j - 1);
    }
  }

  lemma {:induction false} NoBudget(counts: seq<nat>, j: nat)
    requires j < |counts|
    ensures Shared(counts, 0)[j] == 0
    decreases |counts|
  {
    if j > 0 {
      NoBudget(counts[1..], j - 1);
    }
  }

  /** Who sheds first: while a backend keeps any device of a user, no backend of a protocol before its own
      in priority has lost one. */
  lemma LowerPrioritySheds(limiters: seq<Limiter>, user: UserName, i: nat, j: nat)
    requires i < |Ordered(limiters)| && j < |Ordered(limiters)|
    requires Rank(Ordered(limiters)[i].protocol) < Rank(Ordered(limiters)[j].protocol)
    requires Kept(Ordered(limiters), user)[j] > 0
    ensures Kept(Ordered(limiters), user)[i] == CountsOf(Ordered(limiters), user)[i]
  {
    OrderedIsStable(limiters);
    hide Rank, Ordered;
    ShedsInOrder(Ordered(limiters), user, i, j);
  }

  lemma ShedsInOrder(order: seq<Limiter>, user: UserName, i: nat, j: nat)
    requires ByRank(order) && i < |order| && j < |order| && Kept(order, user)[j] > 0
    requires Rank(order[i].protocol) < Rank(order[j].protocol)
    ensures Kept(order, user)[i] == CountsOf(order, user)[i]
  {
    hide Rank, CountsOf, LimitOf, Shared, Over;
    assert i < j;
    if Over(order, user) {
      OverHasLimit(order, user);
      BudgetRunsOut(CountsOf(order, user), LimitOf(order, user).value, i, j);
    }
  }

  lemma OverHasLimit(order: seq<Limiter>, user: UserName)
    ensures Over(order, user) ==> LimitOf(order, user).Some?
  {
  }

  /** EnforceGlobalDeviceLimits: with two or more limiters, KeepDevices is called exactly where a user has
      to lose devices, with what the shared budget leaves there. */
  method EnforceGlobalDeviceLimits(limiters: seq<Limiter>) returns (calls: set<Call>)
    ensures |limiters| < 2 ==> calls == {}
    ensures |limiters| >= 2 ==> forall c :: c in calls <==> Calls(Ordered(limiters), c)
    ensures AfterPass(limiters) ==> calls == {}
  {
    calls := {};
    if |limiters| < 2 {
      return;
    }
    NothingAfterPass(limiters);
    var order := SortStable(limiters);
    var users := Online(order);
    ghost var all := users;
    while users != {}
      invariant users <= all
      invariant forall c :: c in calls <==> c.user in all && c.user !in users && Calls(order, c)
      decreases |users|
    {
      var user :| user in users;
      users := users - {user};
      var more := EnforceUser(order, user);
      calls := calls + more;
    }
    forall c | Calls(order, c)
      ensures c.user in all
    {
      OnlineSomewhere(order, c);
    }
  }

  lemma NothingAfterPass(after: seq<Limiter>)
    ensures AfterPass(after) ==> forall c :: !Calls(Ordered(after), c)
  {
    hide LeftBy, Calls, Ordered;
    if AfterPass(after) {
      var limiters :| LeftBy(limiters, after);
      forall c
        ensures !Calls(Ordered(after), c)
      {
        SecondPassIsIdle(limiters, after, c);
      }
    }
  }

  method SortStable(limiters: seq<Limiter>) returns (order: seq<Limiter>)
    ensures order == Ordered(limiters)
  {
    order := [];
    for n := 0 to |limiters|
      invariant order == Ordered(limiters[..n])
    {
      assert limiters[..n + 1][..n] == limiters[..n];
      order := Insert(order, limiters[n]);
    }
    assert limiters[..|limiters|] == limiters;
  }

  /** The users with a device somewhere. */
  method Online(order: seq<Limiter>) returns (users: set<UserName>)
    ensures forall u :: u in users <==> exists i :: 0 <= i < |order| && u in order[i].online && order[i].online[u] > 0
  {
    users := {};
    for n := 0 to |order|
      invariant forall u :: u in users <==> exists i :: 0 <= i < n && u in order[i].online && order[i].online[u] > 0
    {
      var here := set u | u in order[n].online && order[n].online[u] > 0;
      users := users + here;
    }
  }

  method EnforceUser(order: seq<Limiter>, user: UserName) returns (calls: set<Call>)
    ensures forall c :: c in calls <==> c.user == user && Calls(order, c)
  {
    calls := {};
    var limit := LimitOf(order, user);
    if limit.None? || limit.value == 0 {
      return;
    }
    var counts := CountsOf(order, user);
    var total := 0;
    for i := 0 to |order|
      invariant total + Total(counts[i..]) == Total(counts)
    {
      total := total + counts[i];
    }
    assert counts[|order|..] == [];
    if total % UINT32 <= limit.value {
      return;
    }
    calls := HandOut(counts, limit.value, user);
  }

  /** The budget handed out by priority, and a call wherever it does not cover what is online. */
  method HandOut(counts: seq<nat>, limit: nat, user: UserName) returns (calls: set<Call>)
    ensures forall c :: c in calls <==>
              c.user == user && c.at < |counts| && c.keep == Shared(counts, limit)[c.at] < counts[c.at]
  {
    calls := {};
    var remaining: nat := limit;
    for i := 0 to |counts|
      invariant Shared(counts, limit)[i..] == Shared(counts[i..], remaining)
      invariant forall c :: c in calls <==>
              c.user == user && c.at < i && c.keep == Shared(counts, limit)[c.at] < counts[c.at]
    {
      var keep := counts[i];
      if keep > remaining {
        keep := remaining;
      }
      assert Shared(counts, limit)[i] == Shared(counts, limit)[i..][0] == keep;
      assert Shared(counts, limit)[i + 1..] == Shared(counts, limit)[i..][1..];
      assert counts[i..][1..] == counts[i + 1..];
      if keep < counts[i] {
        calls := calls + {KeepDevices(i, user, keep)};
      }
      remaining := remaining - keep;
    }
  }

  lemma OnlineSomewhere(order: seq<Limiter>, c: Call)
    requires Calls(order, c)
    ensures exists i :: 0 <= i < |order| && c.user in order[i].online && order[i].online[c.user] > 0
  {
    assert CountsOf(order, c.user)[c.at] > 0;
  }

  /** A user the pass acts on keeps the greatest vector in priority order within its limit: its limit in
      devices in all. */
  lemma OverLimitIsShared(order: seq<Limiter>, user: UserName, other: seq<nat>)
    requires LimitOf(order, user).Some? && LimitOf(order, user).value != 0
    requires Fits(other, CountsOf(order, user), LimitOf(order, user).value)
    ensures Over(order, user) ==>
              LexAtMost(other, Kept(order, user))
                  && Total(Kept(order, user)) == Min(Total(CountsOf(order, user)), LimitOf(order, user).value)
  {
    SharedTotal(CountsOf(order, user), LimitOf(order, user).value);
    SharedIsGreatest(CountsOf(order, user), LimitOf(order, user).value, other);
  }

  /** A limited user is left with min(online, limit) devices exactly when its devices fit the 32 bits they
      are compared on, or wrap to a number that is over the limit as well. */
  lemma KeepsMinIff(order: seq<Limiter>, user: UserName)
    requires LimitOf(order, user).Some? && 0 < LimitOf(order, user).value < UINT32
    ensures var total, limit := Total(CountsOf(order, user)), LimitOf(order, user).value;
            Total(Kept(order, user)) == Min(total, limit) <==> total < UINT32 || total % UINT32 > limit
  {
    var total, limit := Total(CountsOf(order, user)), LimitOf(order, user).value;
    SharedTotal(CountsOf(order, user), limit);
    if total < UINT32 {
      assert total % UINT32 == total;
    }
  }

  /** The backends after the calls: each user is left with what was kept. */
  function Shed(l: Limiter, at: nat, order: seq<Limiter>): Limiter
    requires at < |order|
  {
    l.(online := map u | u in l.online :: Kept(order, u)[at])
  }

  ghost predicate AfterCalls(order: seq<Limiter>, after: seq<Limiter>) {
    |after| == |order| && forall i :: 0 <= i < |order| ==> after[i] == Shed(order[i], i, order)
  }

  lemma {:induction false} SameLimits(a: seq<Limiter>, b: seq<Limiter>, user: UserName)
    requires |a| == |b| && forall i :: 0 <= i < |a| ==> a[i].limits == b[i].limits
    ensures LimitOf(a, user) == LimitOf(b, user)
    decreases |a|
  {
    if a != [] {
      SameLimits(a[1..], b[1..], user);
    }
  }

  lemma IdleInOrder(order: seq<Limiter>, after: seq<Limiter>, c: Call)
    requires AfterCalls(order, after) && Limits32(order)
    ensures !Calls(after, c)
  {
    var user := c.user;
    forall i | 0 <= i < |order|
      ensures CountsOf(after, user)[i] == Kept(order, user)[i]
    {
      if user !in order[i].online {
        SharedTotal(CountsOf(order, user), if LimitOf(order, user).Some? then LimitOf(order, user).value else 0);
      }
    }
    assert CountsOf(after, user) == Kept(order, user);
    SameLimits(order, after, user);
    if Over(order, user) {
      LimitIsOneOf(order, user);
      SharedTotal(CountsOf(order, user), LimitOf(order, user).value);
      assert Total(CountsOf(after, user)) <= LimitOf(order, user).value < UINT32;
      assert !Over(after, user);
    } else {
      assert !Over(after, user);
    }
  }

  /** after are the limiters, in the order the first pass was given them, with what it left online. */
  ghost predicate LeftBy(limiters: seq<Limiter>, after: seq<Limiter>) {
    && |after| == |limiters| && Limits32(limiters) && |Ordered(limiters)| == |limiters|
    && forall i :: 0 <= i < |limiters| ==>
         after[Positions(Ranks(limiters), |limiters|)[i]] == Shed(Ordered(limiters)[i], i, Ordered(limiters))
  }

  ghost predicate AfterPass(after: seq<Limiter>) {
    exists limiters :: LeftBy(limiters, after)
  }

  /** A second pass over what the first one left makes no calls. */
  lemma SecondPassIsIdle(limiters: seq<Limiter>, after: seq<Limiter>, c: Call)
    requires LeftBy(limiters, after)
    ensures !Calls(Ordered(after), c)
  {
    hide Rank, Insert, Kept;
    var n, order := |limiters|, Ordered(limiters);
    var places := Positions(Ranks(limiters), n);
    WholeOrder(limiters);
    WholeOrder(after);
    forall m | 0 <= m < n
      ensures after[m].protocol == limiters[m].protocol
    {
      assert m in places;
      var i :| 0 <= i < n && places[i] == m;
      assert after[places[i]] == Shed(order[i], i, order);
    }
    assert Ranks(after) == Ranks(limiters);
    forall i | 0 <= i < n
      ensures Ordered(after)[i] == Shed(order[i], i, order)
    {
      assert after[places[i]] == Shed(order[i], i, order);
    }
    forall i, u | 0 <= i < n && u in order[i].limits
      ensures order[i].limits[u] < UINT32
    {
      assert order[i] == limiters[places[i]];
    }
    IdleInOrder(order, Ordered(after), c);
  }

  lemma WholeOrder(limiters: seq<Limiter>)
    ensures |Ordered(limiters)| == |limiters|
    ensures forall i :: 0 <= i < |limiters| ==>
              Ordered(limiters)[i] == limiters[Positions(Ranks(limiters), |limiters|)[i]]
  {
    OrderedByPosition(limiters, |limiters|);
    assert limiters[..|limiters|] == limiters;
  }

  lemma {:induction false} LimitIsOneOf(order: seq<Limiter>, user: UserName)
    requires LimitOf(order, user).Some?
    ensures exists i :: 0 <= i < |order| && user in order[i].limits
              && order[i].limits[user] == LimitOf(order, user).value
    decreases |order|
  {
    if user !in order[0].limits {
      LimitIsOneOf(order[1..], user);
      var i :| 0 <= i < |order[1..]| && user in order[1..][i].limits
          && order[1..][i].limits[user] == LimitOf(order, user).value;
      assert order[i + 1] == order[1..][i];
    }
  }
}
