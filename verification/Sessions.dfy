/** Per-session traffic collectors: poll in backend/l2tp/stats.go and collectStats in
    backend/openvpn/stats.go credit the growth of each listed session's counters to its user. Sessions are
    interfaces in one and client ids in the other. */
module Sessions {
  import opened TrafficAccounting
  import opened Sums
  import opened Tracker

  type Id = string
  type UserName = string

  /** One line of a listing. */
  datatype Row = Row(id: Id, user: UserName, shown: Pair, endpoint: string)

  function Grown(last: int, shown: int): int {
    if shown - last < 0 then shown else shown - last
  }

  /** The growth credited for a row: a direction whose counter ran backwards counts from zero. */
  function Growth(seen: map<Id, Pair>, row: Row): Pair {
    var last := if row.id in seen then seen[row.id] else ZERO;
    Pair(Grown(last.rx, row.shown.rx), Grown(last.tx, row.shown.tx))
  }

  function SeenAfter(seen: map<Id, Pair>, rows: seq<Row>): map<Id, Pair>
    decreases |rows|
  {
    if rows == [] then seen
    else
      var row := rows[|rows| - 1];
      SeenAfter(seen, rows[..|rows| - 1])[row.id := row.shown]
  }

  function Ids(rows: seq<Row>): set<Id> {
    set r | r in rows :: r.id
  }

  function Listed(seen: map<Id, Pair>, rows: seq<Row>): map<Id, Pair> {
    map id | id in seen && id in Ids(rows) :: seen[id]
  }

  function Users(rows: seq<Row>): set<UserName> {
    set r | r in rows :: r.user
  }

  /** The growth of all rows, of one user's rows, and of those of them that are one session's. */
  function TotalGrowth(seen: map<Id, Pair>, rows: seq<Row>): Pair
    decreases |rows|
  {
    if rows == [] then ZERO
    else
      var before := rows[..|rows| - 1];
      TotalGrowth(seen, before).Plus(Growth(SeenAfter(seen, before), rows[|rows| - 1]))
  }

  function UserGrowth(seen: map<Id, Pair>, rows: seq<Row>, user: UserName): Pair
    decreases |rows|
  {
    if rows == [] then ZERO
    else
      var before, row := rows[..|rows| - 1], rows[|rows| - 1];
      UserGrowth(seen, before, user).Plus(if row.user == user then Growth(SeenAfter(seen, before), row) else ZERO)
  }

  function SessionGrowth(seen: map<Id, Pair>, rows: seq<Row>, user: UserName, id: Id): Pair
    decreases |rows|
  {
    if rows == [] then ZERO
    else
      var before, row := rows[..|rows| - 1], rows[|rows| - 1];
      SessionGrowth(seen, before, user, id)
      .Plus(if row.user == user && row.id == id then Growth(SeenAfter(seen, before), row) else ZERO)
  }

  /** All growth is somebody's: crediting every user its own is crediting the total. */
  lemma {:induction false} CreditedTogether(m: map<UserName, Pair>, after: map<UserName, Pair>, seen: map<Id, Pair>,
                                            rows: seq<Row>)
    requires forall u :: At(after, u) == At(m, u).Plus(UserGrowth(seen, rows, u))
    ensures Sum(after) == Sum(m).Plus(TotalGrowth(seen, rows))
    decreases |rows|
  {
    hide Growth, SeenAfter, Sum, At;
    if rows == [] {
      SumByAt(after, m);
    } else {
      var before, user := rows[..|rows| - 1], rows[|rows| - 1].user;
      var g := Growth(SeenAfter(seen, before), rows[|rows| - 1]);
      var mid := after[user := At(after, user).Minus(g)];
      forall u
        ensures At(mid, u) == At(m, u).Plus(UserGrowth(seen, before, u))
        ensures At(mid[user := At(mid, user).Plus(g)], u) == At(after, u)
      {
        AtUpdated(after, user, At(after, user).Minus(g), u);
        AtUpdated(mid, user, At(mid, user).Plus(g), u);
        AtUpdated(after, user, At(after, user).Minus(g), user);
      }
      CreditedTogether(m, mid, seen, before);
      SumUpdated(mid, user, g);
      SumByAt(mid[user := At(mid, user).Plus(g)], after);
    }
  }

  lemma NoLedger(m: map<Id, Pair>, after: map<Id, Pair>, seen: map<Id, Pair>, user: UserName)
    requires forall id :: At(after, id) == At(m, id).Plus(SessionGrowth(seen, [], user, id))
    ensures forall id :: At(after, id) == At(m, id)
    ensures forall p: Pair :: p.Plus(UserGrowth(seen, [], user)) == p
  {
    hide At;
  }

  lemma LedgerAt(m: map<Id, Pair>, after: map<Id, Pair>, seen: map<Id, Pair>, rows: seq<Row>, user: UserName, g: Pair,
                 id: Id)
    requires rows != [] && At(after, id) == At(m, id).Plus(SessionGrowth(seen, rows, user, id))
    requires g == if rows[|rows| - 1].user == user then Growth(SeenAfter(seen, rows[..|rows| - 1]), rows[|rows| - 1])
              else ZERO
    ensures var before, last := rows[..|rows| - 1], rows[|rows| - 1].id;
            var mid := after[last := At(after, last).Minus(g)];
            && At(mid, id) == At(m, id).Plus(SessionGrowth(seen, before, user, id))
            && At(mid[last := At(mid, last).Plus(g)], id) == At(after, id)
  {
    hide Growth, SeenAfter, At;
    var last := rows[|rows| - 1].id;
    var mid := after[last := At(after, last).Minus(g)];
    AtUpdated(after, last, At(after, last).Minus(g), id);
    AtUpdated(after, last, At(after, last).Minus(g), last);
    AtUpdated(mid, last, At(mid, last).Plus(g), id);
  }

  /** And a user's growth is its sessions' growth taken together. */
  lemma {:induction false} LedgerAddsUp(m: map<Id, Pair>, after: map<Id, Pair>, seen: map<Id, Pair>, rows: seq<Row>,
                                        user: UserName)
    requires forall id :: At(after, id) == At(m, id).Plus(SessionGrowth(seen, rows, user, id))
    ensures Sum(after) == Sum(m).Plus(UserGrowth(seen, rows, user))
    decreases |rows|
  {
    hide Growth, SeenAfter, Sum, At, SessionGrowth, UserGrowth;
    if rows == [] {
      NoLedger(m, after, seen, user);
      SumByAt(after, m);
    } else {
      var before, row := rows[..|rows| - 1], rows[|rows| - 1];
      var g := if row.user == user then Growth(SeenAfter(seen, before), row) else ZERO;
      var mid := after[row.id := At(after, row.id).Minus(g)];
      var back := mid[row.id := At(mid, row.id).Plus(g)];
      forall id
        ensures At(mid, id) == At(m, id).Plus(SessionGrowth(seen, before, user, id))
        ensures At(back, id) == At(after, id)
      {
        LedgerAt(m, after, seen, rows, user, g, id);
      }
      LedgerAddsUp(m, mid, seen, before, user);
      SumUpdated(mid, row.id, g);
      SumByAt(back, after);
      LastGrowth(seen, rows, user, g, Sum(m));
    }
  }

  lemma LastGrowth(seen: map<Id, Pair>, rows: seq<Row>, user: UserName, g: Pair, p: Pair)
    requires rows != []
    requires g == if rows[|rows| - 1].user == user then Growth(SeenAfter(seen, rows[..|rows| - 1]), rows[|rows| - 1])
              else ZERO
    ensures p.Plus(UserGrowth(seen, rows[..|rows| - 1], user)).Plus(g) == p.Plus(UserGrowth(seen, rows, user))
  {
    hide Growth, SeenAfter;
  }

  lemma AtUpdated(m: map<UserName, Pair>, u: UserName, p: Pair, v: UserName)
    ensures At(m[u := p], v) == if v == u then p else At(m, v)
  {
  }

  lemma {:induction false} UnlistedGrowsNothing(seen: map<Id, Pair>, rows: seq<Row>, u: UserName)
    ensures u !in Users(rows) ==> UserGrowth(seen, rows, u) == ZERO
    decreases |rows|
  {
    if rows != [] {
      var before, row := rows[..|rows| - 1], rows[|rows| - 1];
      assert rows == before + [row];
      UnlistedGrowsNothing(seen, before, u);
    }
  }

  ghost predicate NotNegative(rows: seq<Row>) {
    forall r :: r in rows ==> r.shown.AtLeast(ZERO)
  }

  lemma {:induction false} GrowthIsNotNegative(seen: map<Id, Pair>, rows: seq<Row>, u: UserName)
    requires NotNegative(rows)
    ensures UserGrowth(seen, rows, u).AtLeast(ZERO) && TotalGrowth(seen, rows).AtLeast(ZERO)
    decreases |rows|
  {
    if rows != [] {
      var before, row := rows[..|rows| - 1], rows[|rows| - 1];
      assert rows == before + [row];
      GrowthIsNotNegative(seen, before, u);
      assert row.shown.AtLeast(ZERO);
    }
  }

  /** The samples of a poll: one for every listed user, with its new cumulative counters. */
  ghost predicate SamplesFor(samples: seq<Sample>, users: set<UserName>, cum: map<UserName, Pair>) {
    && (forall x :: x in samples ==> x.publicKey in users && x.publicKey in cum && Pair(x.rx, x.tx) == cum[x.publicKey])
    && (forall u :: u in users ==> exists x :: x in samples && x.publicKey == u)
  }

  /** What a poll does to the collector's tables, and the samples it makes. */
  ghost predicate PollStep(seen: map<Id, Pair>, cum: map<UserName, Pair>, rows: seq<Row>, samples: seq<Sample>,
                           seen': map<Id, Pair>, cum': map<UserName, Pair>) {
    && seen' == Listed(SeenAfter(seen, rows), rows)
    && (forall u :: At(cum', u) == At(cum, u).Plus(UserGrowth(seen, rows, u)))
    && SamplesFor(samples, Users(rows), cum')
  }

  class Collector {
    var seen: map<Id, Pair>
    var cum: map<UserName, Pair>
    var total: Pair

    /** What the users have been credited adds up to the node's total. */
    ghost predicate Valid()
      reads this
    {
      total == Sum(cum)
    }

    constructor ()
      ensures Valid() && seen == map[] && cum == map[] && total == ZERO
    {
      seen, cum, total := map[], map[], ZERO;
    }

    method Poll(rows: seq<Row>) returns (samples: seq<Sample>)
      requires Valid()
      modifies this
      ensures Valid()
      ensures PollStep(old(seen), old(cum), rows, samples, seen, cum)
      ensures total == old(total).Plus(TotalGrowth(old(seen), rows))
      ensures NotNegative(rows) ==> total.AtLeast(old(total)) && forall u :: At(cum, u).AtLeast(At(old(cum), u))
    {
      ghost var seenBefore := seen;
      var growth := Measure(rows);
      Forget(rows);
      samples := Credit(rows, growth);
      forall u
        ensures At(cum, u) == At(old(cum), u).Plus(UserGrowth(seenBefore, rows, u))
        ensures NotNegative(rows) ==> At(cum, u).AtLeast(At(old(cum), u)) && TotalGrowth(seenBefore, rows).AtLeast(ZERO)
      {
        UnlistedGrowsNothing(seenBefore, rows, u);
        if NotNegative(rows) {
          GrowthIsNotNegative(seenBefore, rows, u);
        }
      }
      CreditedTogether(old(cum), cum, seenBefore, rows);
      if NotNegative(rows) {
        GrowthIsNotNegative(seenBefore, rows, "");
      }
    }

    /** The growth of every listed user, row by row. */
    method Measure(rows: seq<Row>) returns (growth: map<UserName, Pair>)
      modifies this`seen
      ensures seen == SeenAfter(old(seen), rows)
      ensures growth.Keys == Users(rows)
      ensures forall u :: At(growth, u) == UserGrowth(old(seen), rows, u)
    {
      growth := map[];
      for n := 0 to |rows|
        invariant seen == SeenAfter(old(seen), rows[..n])
        invariant growth.Keys == Users(rows[..n])
        invariant forall u :: At(growth, u) == UserGrowth(old(seen), rows[..n], u)
      {
        var row := rows[n];
        assert rows[..n + 1][..n] == rows[..n];
        assert rows[..n + 1] == rows[..n] + [row];
        var g := Growth(seen, row);
        seen := seen[row.id := row.shown];
        growth := growth[row.user := At(growth, row.user).Plus(g)];
      }
      assert rows[..|rows|] == rows;
    }

    /** Sessions that are not listed any more are forgotten. */
    method Forget(rows: seq<Row>)
      modifies this`seen
      ensures seen == Listed(old(seen), rows)
    {
      var present := set r | r in rows :: r.id;
      var todo := seen.Keys;
      while todo != {}
        invariant todo <= old(seen).Keys
        invariant forall id :: id in seen <==> id in old(seen) && (id in todo || id in present)
        invariant forall id :: id in seen ==> seen[id] == old(seen)[id]
        decreases |todo|
      {
        var id :| id in todo;
        todo := todo - {id};
        if id !in present {
          seen := seen - {id};
        }
      }
    }

    /** Every listed user is credited its growth, the node the same, and a sample made. */
    method Credit(rows: seq<Row>, growth: map<UserName, Pair>) returns (samples: seq<Sample>)
      requires Valid() && growth.Keys == Users(rows)
      modifies this`cum, this`total
      ensures Valid()
      ensures forall u :: At(cum, u) == At(old(cum), u).Plus(At(growth, u))
      ensures SamplesFor(samples, Users(rows), cum)
    {
      hide Valid, SamplesFor, At;
      samples := [];
      NoSamples(cum);
      assert growth.Keys - growth.Keys == {};
      var todo := growth.Keys;
      AtNobody(growth);
      while todo != {}
        invariant todo <= growth.Keys && Valid()
        invariant forall u :: u in todo ==> At(cum, u) == At(old(cum), u)
        invariant forall u :: u !in todo ==> At(cum, u) == At(old(cum), u).Plus(At(growth, u))
        invariant SamplesFor(samples, growth.Keys - todo, cum)
        decreases |todo|
      {
        var user :| user in todo;
        ghost var done := growth.Keys - todo;
        samples := CreditOne(user, At(growth, user), EndpointOf(rows, user), samples, done);
        todo := todo - {user};
        assert growth.Keys - todo == done + {user};
      }
      assert growth.Keys - {} == growth.Keys;
    }

    method CreditOne(user: UserName, g: Pair, endpoint: string, before: seq<Sample>, ghost done: set<UserName>)
      returns (samples: seq<Sample>)
      requires Valid() && user !in done && SamplesFor(before, done, cum)
      modifies this`cum, this`total
      ensures Valid()
      ensures At(cum, user) == At(old(cum), user).Plus(g)
      ensures forall u :: u != user ==> At(cum, u) == At(old(cum), u)
      ensures SamplesFor(samples, done + {user}, cum)
    {
      SumUpdated(cum, user, g);
      cum := cum[user := At(cum, user).Plus(g)];
      total := total.Plus(g);
      samples := before + [Sample(user, user, cum[user].rx, cum[user].tx, endpoint)];
      OneMoreSample(before, samples, done, old(cum), cum, user);
    }
  }

  lemma NoSamples(cum: map<UserName, Pair>)
    ensures SamplesFor([], {}, cum)
  {
  }

  lemma AtNobody(m: map<UserName, Pair>)
    ensures forall u :: u !in m ==> At(m, u) == ZERO
    ensures forall p: Pair :: p.Plus(ZERO) == p
  {
  }

  /** The first non-empty address among a user's rows. */
  function EndpointOf(rows: seq<Row>, user: UserName): string
    decreases |rows|
  {
    if rows == [] then ""
    else if rows[0].user == user && rows[0].endpoint != "" then rows[0].endpoint
    else EndpointOf(rows[1..], user)
  }

  lemma OneMoreSample(before: seq<Sample>, after: seq<Sample>, done: set<UserName>, cumBefore: map<UserName, Pair>,
                      cum: map<UserName, Pair>, user: UserName)
    requires SamplesFor(before, done, cumBefore) && user !in done && user in cum
    requires forall u :: u in done && u in cumBefore ==> u in cum && cum[u] == cumBefore[u]
    requires |after| == |before| + 1 && after[..|before|] == before
    requires after[|before|].publicKey == user && Pair(after[|before|].rx, after[|before|].tx) == cum[user]
    ensures SamplesFor(after, done + {user}, cum)
  {
    assert after == before + [after[|before|]];
    forall u | u in done + {user}
      ensures exists x :: x in after && x.publicKey == u
    {
      if u == user {
        assert after[|before|] in after;
      } else {
        var x :| x in before && x.publicKey == u;
        assert x in after;
      }
    }
  }
}
