/** Whole runs of the session collectors: what users are credited against what their sessions really
    moved, and what the tracker reports of it. */
module SessionRuns {
  import opened Sessions
  import opened Sums
  import opened Tracker
  import opened TrafficAccounting
  import opened Wrappers

  /** What happens around a collector: sessions begin and move bytes, polls list some of them, and the
      tracker is asked for reports. A poll hands the tracker its samples in any order. */
  datatype Call =
    | Begins(id: Id, user: UserName)   // under this name a session begins, its counters at zero
    | Moves(id: Id, bytes: Pair)
    | CollectorPoll(rows: seq<Row>, samples: seq<Sample>, now: Time)
    | Report(keys: seq<Key>)
    | ReportAll
    | CleanupCall

  // ----- What a poll does to one session -----

  /** The growth of a counter since a session was last seen. */
  function DueFrom(last: Pair, shown: Pair): Pair {
    Pair(Grown(last.rx, shown.rx), Grown(last.tx, shown.tx))
  }

  predicate Misses(rows: seq<Row>, id: Id) {
    forall r :: r in rows ==> r.id != id
  }

  /** Every row of a session shows this user and these counters. */
  predicate ShowsOnly(rows: seq<Row>, id: Id, user: UserName, shown: Pair) {
    forall r :: r in rows && r.id == id ==> r.user == user && r.shown == shown
  }

  /** A poll's work for one session and one user: the growth credited, and what is remembered. */
  datatype Part = Part(grown: Pair, last: Pair, known: bool)

  function PartOf(seen: map<Id, Pair>, rows: seq<Row>, user: UserName, id: Id): Part {
    var after := SeenAfter(seen, rows);
    Part(SessionGrowth(seen, rows, user, id), At(after, id), id in after)
  }

  function PartStep(p: Part, shown: Pair, mine: bool): Part {
    Part(if mine then p.grown.Plus(DueFrom(p.last, shown)) else p.grown, shown, true)
  }

  lemma OneRow(seen: map<Id, Pair>, rows: seq<Row>, user: UserName, id: Id)
    requires rows != []
    ensures var p, row := PartOf(seen, rows[..|rows| - 1], user, id), rows[|rows| - 1];
            PartOf(seen, rows, user, id) == if row.id == id then PartStep(p, row.shown, row.user == user) else p
  {
    var p, row := PartOf(seen, rows[..|rows| - 1], user, id), rows[|rows| - 1];
    PairFacts(p.grown, ZERO, ZERO);
    GrowthIsDue(SeenAfter(seen, rows[..|rows| - 1]), row);
    hide Growth, DueFrom;
  }

  lemma GrowthIsDue(seen: map<Id, Pair>, row: Row)
    ensures Growth(seen, row) == DueFrom(At(seen, row.id), row.shown)
  {
  }

  lemma PairFacts(a: Pair, b: Pair, c: Pair)
    ensures a.Plus(b.Plus(c)) == a.Plus(b).Plus(c) && a.Plus(ZERO) == a && ZERO.Plus(a) == a
  {
  }

  lemma NotTwice(shown: Pair)
    ensures DueFrom(shown, shown) == ZERO
  {
  }

  lemma InitOf(rows: seq<Row>, id: Id, user: UserName, shown: Pair)
    requires rows != []
    ensures var init, last := rows[..|rows| - 1], rows[|rows| - 1];
            && (Misses(rows, id) <==> Misses(init, id) && last.id != id)
            && (ShowsOnly(rows, id, user, shown) ==>
                  ShowsOnly(init, id, user, shown) && (last.id == id ==> last.user == user && last.shown == shown))
  {
    var init, last := rows[..|rows| - 1], rows[|rows| - 1];
    assert rows == init + [last];
    assert forall r :: r in init ==> r in rows;
    assert last in rows;
  }

  /** What a poll that shows these counters makes of the part before it. */
  function PartAfter(p: Part, missed: bool, shown: Pair, mine: bool): Part {
    if missed then p else PartStep(p, shown, mine)
  }

  lemma PartTwice(p: Part, missed: bool, shown: Pair, mine: bool)
    ensures PartStep(PartAfter(p, missed, shown, mine), shown, mine) == PartStep(p, shown, mine)
  {
    NotTwice(shown);
    PairFacts(p.grown.Plus(DueFrom(p.last, shown)), ZERO, ZERO);
    hide DueFrom;
  }

  lemma NoRowsMiss(id: Id)
    ensures Misses([], id)
  {
  }

  lemma {:induction false} PartAfterRows(seen: map<Id, Pair>, rows: seq<Row>, id: Id, owner: UserName, shown: Pair,
                                         user: UserName)
    requires ShowsOnly(rows, id, owner, shown)
    ensures PartOf(seen, rows, user, id) ==
              PartAfter(PartOf(seen, [], user, id), Misses(rows, id), shown, owner == user)
    decreases |rows|
  {
    hide PartOf, PartStep, Misses, ShowsOnly;
    if rows == [] {
      NoRowsMiss(id);
    } else {
      InitOf(rows, id, owner, shown);
      OneRow(seen, rows, user, id);
      PartAfterRows(seen, rows[..|rows| - 1], id, owner, shown, user);
      PartTwice(PartOf(seen, [], user, id), Misses(rows[..|rows| - 1], id), shown, owner == user);
    }
  }

  /** A poll credits a session that it lists, once or several times, the growth of its counters since it was
      last seen, to the user it lists it for; a session that it does not list is credited nothing. */
  lemma ListedIsCredited(seen: map<Id, Pair>, rows: seq<Row>, id: Id, owner: UserName, shown: Pair, user: UserName)
    requires ShowsOnly(rows, id, owner, shown)
    ensures SessionGrowth(seen, rows, user, id)
         == if Misses(rows, id) || user != owner then ZERO else DueFrom(At(seen, id), shown)
    ensures At(SeenAfter(seen, rows), id) == if Misses(rows, id) then At(seen, id) else shown
    ensures id in SeenAfter(seen, rows) <==> id in seen || !Misses(rows, id)
  {
    PartAfterRows(seen, rows, id, owner, shown, user);
    PairFacts(DueFrom(At(seen, id), shown), ZERO, ZERO);
    hide DueFrom, Misses, ShowsOnly;
  }

  /** What the collector remembers of a session after a poll. */
  lemma ListedAt(seen: map<Id, Pair>, rows: seq<Row>, id: Id, owner: UserName, shown: Pair)
    requires ShowsOnly(rows, id, owner, shown)
    ensures var after := Listed(SeenAfter(seen, rows), rows);
            && (id in after <==> !Misses(rows, id))
            && At(after, id) == if Misses(rows, id) then ZERO else shown
  {
    ListedIsCredited(seen, rows, id, owner, shown, owner);
    hide SeenAfter;
  }

  // ----- Sessions over a run -----

  /** The sessions as they are, and one user's ledger over them: whose each is, its counters, what the
      collector remembers, and per session what the user was credited and what it really moved. */
  datatype World = World(
    owner: map<Id, UserName>, shown: map<Id, Pair>, seen: map<Id, Pair>, credit: map<Id, Pair>, moved: map<Id, Pair>)

  const NOTHING := World(map[], map[], map[], map[], map[])

  function Credit(w: World, rows: seq<Row>, user: UserName): map<Id, Pair> {
    map id | id in w.credit.Keys + Ids(rows) :: At(w.credit, id).Plus(SessionGrowth(w.seen, rows, user, id))
  }

  predicate Owns(w: World, user: UserName, id: Id) {
    id in w.owner && w.owner[id] == user
  }

  function After(w: World, user: UserName, c: Call): World {
    match c
    case Begins(id, u) => w.(owner := w.owner[id := u], shown := w.shown[id := ZERO])
    case Moves(id, b) =>
      w.(shown := w.shown[id := At(w.shown, id).Plus(b)],
         moved := if Owns(w, user, id) then w.moved[id := At(w.moved, id).Plus(b)] else w.moved)
    case CollectorPoll(rows, _, _) =>
      w.(seen := Listed(SeenAfter(w.seen, rows), rows), credit := Credit(w, rows, user))
    case _ => w
  }

  function Run(w: World, user: UserName, calls: seq<Call>): World
    decreases |calls|
  {
    if calls == [] then w else Run(After(w, user, calls[0]), user, calls[1..])
  }

  /** A listing shows each session's own user and counters. */
  ghost predicate Truthful(w: World, rows: seq<Row>) {
    forall r :: r in rows ==> r.id in w.owner && r.user == w.owner[r.id] && r.shown == At(w.shown, r.id)
  }

  /** The sessions that were seen, then left out of a poll, and have not begun anew. */
  function GoneAfter(w: World, gone: set<Id>, c: Call): set<Id> {
    match c
    case Begins(id, _) => gone - {id}
    case CollectorPoll(rows, _, _) => (gone + w.seen.Keys) - Ids(rows)
    case _ => gone
  }

  /** Bytes are not negative, listings are truthful, and a session that was seen and then left out of a poll
      begins anew before it is listed again. */
  ghost predicate Fair(w: World, user: UserName, gone: set<Id>, calls: seq<Call>)
    decreases |calls|
  {
    calls == [] ||
    (&& (calls[0].Moves? ==> calls[0].bytes.AtLeast(ZERO))
     && (calls[0].CollectorPoll? ==> Truthful(w, calls[0].rows) && Ids(calls[0].rows) !! gone)
     && Fair(After(w, user, calls[0]), user, GoneAfter(w, gone, calls[0]), calls[1..]))
  }

  lemma CreditAt(w: World, rows: seq<Row>, user: UserName, id: Id)
    ensures At(Credit(w, rows, user), id) == At(w.credit, id).Plus(SessionGrowth(w.seen, rows, user, id))
  {
    if id !in w.credit.Keys + Ids(rows) {
      assert forall r :: r in rows ==> r.id in Ids(rows);
      assert ShowsOnly(rows, id, user, ZERO) && Misses(rows, id);
      ListedIsCredited(w.seen, rows, id, user, ZERO, user);
    }
  }

  lemma TruthfulShows(w: World, rows: seq<Row>, id: Id, user: UserName)
    requires Truthful(w, rows)
    ensures id in w.owner ==> ShowsOnly(rows, id, w.owner[id], At(w.shown, id))
    ensures id !in w.owner ==> Misses(rows, id) && ShowsOnly(rows, id, user, ZERO)
    ensures Misses(rows, id) <==> id !in Ids(rows)
  {
    hide At;
  }

  /** A world as one session of it is for one user. */
  datatype View = View(shown: Pair, seen: Pair, credit: Pair, moved: Pair, owned: bool, known: bool, gone: bool)

  function ViewOf(w: World, user: UserName, gone: set<Id>, id: Id): View {
    View(At(w.shown, id), At(w.seen, id), At(w.credit, id), At(w.moved, id), Owns(w, user, id), id in w.seen,
        id in gone)
  }

  function Begun(v: View, mine: bool): View {
    v.(shown := ZERO, owned := mine, gone := false)
  }

  function Moved(v: View, b: Pair): View {
    v.(shown := v.shown.Plus(b), moved := if v.owned then v.moved.Plus(b) else v.moved)
  }

  function ShownTo(v: View): View {
    v.(credit := if v.owned then v.credit.Plus(DueFrom(v.seen, v.shown)) else v.credit,
       seen := v.shown, known := true, gone := false)
  }

  function Missed(v: View): View {
    v.(seen := ZERO, known := false, gone := v.gone || v.known)
  }

  function ViewStep(v: View, c: Call, user: UserName, id: Id): View {
    match c
    case Begins(name, u) => if name == id then Begun(v, u == user) else v
    case Moves(name, b) => if name == id then Moved(v, b) else v
    case CollectorPoll(rows, _, _) => if id in Ids(rows) then ShownTo(v) else Missed(v)
    case _ => v
  }

  lemma AtSet(m: map<Id, Pair>, name: Id, p: Pair, id: Id)
    ensures At(m[name := p], id) == if id == name then p else At(m, id)
  {
  }

  lemma OwnsSet(w: World, name: Id, u: UserName, user: UserName, id: Id)
    ensures Owns(w.(owner := w.owner[name := u]), user, id) <==> if id == name then u == user else Owns(w, user, id)
  {
  }

  lemma BeginSeen(w: World, user: UserName, gone: set<Id>, name: Id, u: UserName, id: Id)
    ensures ViewOf(After(w, user, Begins(name, u)), user, GoneAfter(w, gone, Begins(name, u)), id)
         == ViewStep(ViewOf(w, user, gone, id), Begins(name, u), user, id)
  {
    AtSet(w.shown, name, ZERO, id);
    OwnsSet(w, name, u, user, id);
    hide At;
  }

  lemma MoveSeen(w: World, user: UserName, gone: set<Id>, name: Id, b: Pair, id: Id)
    ensures ViewOf(After(w, user, Moves(name, b)), user, gone, id)
         == ViewStep(ViewOf(w, user, gone, id), Moves(name, b), user, id)
  {
    AtSet(w.shown, name, At(w.shown, name).Plus(b), id);
    AtSet(w.moved, name, At(w.moved, name).Plus(b), id);
    hide At;
  }

  lemma GoneAfterPoll(w: World, gone: set<Id>, c: Call, id: Id)
    requires c.CollectorPoll?
    ensures id in GoneAfter(w, gone, c) <==> id !in Ids(c.rows) && (id in gone || id in w.seen)
  {
    hide Ids;
  }

  lemma PollRemembers(w: World, user: UserName, rows: seq<Row>, id: Id)
    requires Truthful(w, rows)
    ensures var after := Listed(SeenAfter(w.seen, rows), rows);
            && (id in after <==> id in Ids(rows))
            && At(after, id) == if id in Ids(rows) then At(w.shown, id) else ZERO
  {
    hide SeenAfter, Listed, Misses, ShowsOnly, Ids, Truthful, At;
    TruthfulShows(w, rows, id, user);
    if id in w.owner {
      ListedAt(w.seen, rows, id, w.owner[id], At(w.shown, id));
    } else {
      ListedAt(w.seen, rows, id, user, ZERO);
    }
  }

  lemma PollCredits(w: World, user: UserName, rows: seq<Row>, id: Id)
    requires Truthful(w, rows)
    ensures At(Credit(w, rows, user), id)
         == if id in Ids(rows) && Owns(w, user, id) then At(w.credit, id).Plus(DueFrom(At(w.seen, id), At(w.shown, id)))
            else At(w.credit, id)
  {
    hide SessionGrowth, SeenAfter, Credit, Misses, ShowsOnly, Ids, Truthful, At, DueFrom;
    TruthfulShows(w, rows, id, user);
    CreditAt(w, rows, user, id);
    PairFacts(At(w.credit, id), ZERO, ZERO);
    if id in w.owner {
      ListedIsCredited(w.seen, rows, id, w.owner[id], At(w.shown, id), user);
    } else {
      ListedIsCredited(w.seen, rows, id, user, ZERO, user);
    }
  }

  /** What a poll does to one session's part of a world. */
  lemma PollSeen(w: World, user: UserName, gone: set<Id>, c: Call, id: Id)
    requires c.CollectorPoll? && Truthful(w, c.rows)
    ensures ViewOf(After(w, user, c), user, GoneAfter(w, gone, c), id) ==
              ViewStep(ViewOf(w, user, gone, id), c, user, id)
  {
    PollRemembers(w, user, c.rows, id);
    PollCredits(w, user, c.rows, id);
    GoneAfterPoll(w, gone, c, id);
    hide SeenAfter, Listed, Credit, Ids, Truthful, At, DueFrom, GoneAfter;
  }

  /** Each session is dealt with by itself: what a call does to one depends on no other. */
  lemma CallSeen(w: World, user: UserName, gone: set<Id>, c: Call, id: Id)
    requires c.CollectorPoll? ==> Truthful(w, c.rows)
    ensures ViewOf(After(w, user, c), user, GoneAfter(w, gone, c), id) ==
              ViewStep(ViewOf(w, user, gone, id), c, user, id)
  {
    match c
    case Begins(name, u) => BeginSeen(w, user, gone, name, u, id);
    case Moves(name, b) => MoveSeen(w, user, gone, name, b, id);
    case CollectorPoll(_, _, _) => PollSeen(w, user, gone, c, id);
    case _ =>
  }

  /** The user's credit for a session, with what the next listing would add, is covered by what the session
      moved while it was the user's. */
  predicate Covered(v: View) {
    && v.shown.AtLeast(ZERO) && v.seen.AtLeast(ZERO) && v.credit.AtLeast(ZERO)
    && (!v.known ==> v.seen == ZERO) && (v.gone ==> !v.known)
    && v.moved.AtLeast(v.credit.Plus(if v.owned && !v.gone then DueFrom(v.seen, v.shown) else ZERO))
  }

  lemma DueIsNotNegative(last: Pair, shown: Pair)
    requires shown.AtLeast(ZERO)
    ensures DueFrom(last, shown).AtLeast(ZERO)
  {
  }

  lemma StepKeepsCovered(v: View, c: Call, user: UserName, id: Id)
    requires Covered(v) && (c.Moves? ==> c.bytes.AtLeast(ZERO))
    requires c.CollectorPoll? && id in Ids(c.rows) ==> !v.gone
    ensures Covered(ViewStep(v, c, user, id))
  {
    hide Ids;
    DueIsNotNegative(v.seen, v.shown);
  }

  lemma CoveredMeans(v: View)
    requires Covered(v)
    ensures v.moved.AtLeast(v.credit) && v.credit.AtLeast(ZERO)
  {
    DueIsNotNegative(v.seen, v.shown);
  }

  lemma NotGone(rows: seq<Row>, gone: set<Id>, id: Id)
    requires Ids(rows) !! gone
    ensures id in Ids(rows) ==> id !in gone
  {
    hide Ids;
  }

  lemma {:induction false} RunKeepsCovered(w: World, user: UserName, gone: set<Id>, calls: seq<Call>, id: Id)
    requires Covered(ViewOf(w, user, gone, id)) && Fair(w, user, gone, calls)
    ensures At(Run(w, user, calls).moved, id).AtLeast(At(Run(w, user, calls).credit, id))
    ensures At(Run(w, user, calls).credit, id).AtLeast(ZERO)
    decreases |calls|
  {
    hide After, GoneAfter, Truthful, Ids, Covered, At, ViewStep;
    if calls == [] {
      CoveredMeans(ViewOf(w, user, gone, id));
    } else {
      if calls[0].CollectorPoll? {
        NotGone(calls[0].rows, gone, id);
      }
      CallSeen(w, user, gone, calls[0], id);
      StepKeepsCovered(ViewOf(w, user, gone, id), calls[0], user, id);
      RunKeepsCovered(After(w, user, calls[0]), user, GoneAfter(w, gone, calls[0]), calls[1..], id);
    }
  }

  /** In every run of polls a user is credited for a session at most what the session moved while it was the
      user's, if a session that leaves the listing begins anew before it comes back. */
  lemma NeverOverCredits(calls: seq<Call>, user: UserName, id: Id)
    requires Fair(NOTHING, user, {}, calls)
    ensures var w := Run(NOTHING, user, calls);
            At(w.moved, id).AtLeast(At(w.credit, id)) && At(w.credit, id).AtLeast(ZERO)
  {
    assert Covered(ViewOf(NOTHING, user, {}, id));
    hide Run, Fair;
    RunKeepsCovered(NOTHING, user, {}, calls, id);
  }

  lemma OneListing(seen: map<Id, Pair>, row: Row)
    ensures UserGrowth(seen, [row], row.user) == DueFrom(At(seen, row.id), row.shown)
  {
    assert [row][..0] == [];
    assert UserGrowth(seen, [row], row.user) == ZERO.Plus(Growth(seen, row));
  }

  lemma CreditedNext(seen: map<Id, Pair>, c: Call, rest: seq<Call>, user: UserName)
    ensures Credited(seen, [c] + rest, user) ==
            if c.CollectorPoll? then
              UserGrowth(seen, c.rows, user).Plus(Credited(Listed(SeenAfter(seen, c.rows), c.rows), rest, user))
            else Credited(seen, rest, user)
  {
    hide UserGrowth, SeenAfter, Listed;
    assert ([c] + rest)[1..] == rest;
  }

  lemma SecondPoll(seen: map<Id, Pair>, moves: Call, again: Call, user: UserName)
    requires moves.Moves? && again.CollectorPoll? && |again.rows| == 1 && again.rows[0].user == user
    ensures Credited(seen, [moves, again], user) == DueFrom(At(seen, again.rows[0].id), again.rows[0].shown)
  {
    hide Credited, UserGrowth, SeenAfter, Listed, DueFrom, At;
    assert [moves, again] == [moves] + [again];
    assert again.rows == [again.rows[0]];
    CreditedNext(seen, moves, [again], user);
    OnePollCredited(seen, again, user);
    OneListing(seen, again.rows[0]);
  }

  lemma OnePollCredited(seen: map<Id, Pair>, c: Call, user: UserName)
    requires c.CollectorPoll?
    ensures Credited(seen, [c], user) == UserGrowth(seen, c.rows, user)
  {
    hide UserGrowth, SeenAfter, Listed;
    assert [c][1..] == [];
    PairFacts(UserGrowth(seen, c.rows, user), ZERO, ZERO);
  }

  lemma EmptyPoll(seen: map<Id, Pair>, user: UserName)
    ensures UserGrowth(seen, [], user) == ZERO && Listed(SeenAfter(seen, []), []) == map[]
  {
  }

  lemma AfterEmptyPoll(seen: map<Id, Pair>, empty: Call, rest: seq<Call>, user: UserName)
    requires empty.CollectorPoll? && empty.rows == []
    ensures Credited(seen, [empty] + rest, user) == Credited(map[], rest, user)
  {
    hide Credited, UserGrowth, SeenAfter, Listed;
    CreditedNext(seen, empty, rest, user);
    EmptyPoll(seen, user);
    PairFacts(Credited(map[], rest, user), ZERO, ZERO);
  }

  /** The condition cannot be dropped: a session that one poll misses and the next lists again, still
      counting, is credited its whole counter a second time. */
  lemma MissedOnce(id: Id, user: UserName, shown: Pair, b: Pair, s: seq<Sample>, s': seq<Sample>, t: Time, t': Time)
    requires shown.AtLeast(ZERO) && b.AtLeast(ZERO)
    ensures var again := CollectorPoll([Row(id, user, shown.Plus(b), "")], s', t');
            && Credited(map[id := shown], [Moves(id, b), again], user) == b
            && Credited(map[id := shown], [CollectorPoll([], s, t), Moves(id, b), again], user) == b.Plus(shown)
  {
    var again := CollectorPoll([Row(id, user, shown.Plus(b), "")], s', t');
    SecondPoll(map[id := shown], Moves(id, b), again, user);
    SecondPoll(map[], Moves(id, b), again, user);
    AfterEmptyPoll(map[id := shown], CollectorPoll([], s, t), [Moves(id, b), again], user);
    assert [CollectorPoll([], s, t)] + [Moves(id, b), again] == [CollectorPoll([], s, t), Moves(id, b), again];
    hide Credited;
  }

  /** A session of the user's that has been counted from its beginning. */
  ghost predicate Counted(v: View) {
    && v.owned && v.seen.AtLeast(ZERO) && v.shown.AtLeast(v.seen)
    && v.moved == v.credit.Plus(v.shown.Minus(v.seen))
  }

  ghost predicate ExactAt(w: World, user: UserName, id: Id) {
    Counted(ViewOf(w, user, {}, id))
  }

  /** The session goes on, and no poll misses it. */
  ghost predicate Stays(w: World, user: UserName, calls: seq<Call>, id: Id)
    decreases |calls|
  {
    calls == [] ||
    (Proceeds(w, calls[0], id) && Stays(After(w, user, calls[0]), user, calls[1..], id))
  }

  ghost predicate Proceeds(w: World, c: Call, id: Id) {
    && (c.Moves? ==> c.bytes.AtLeast(ZERO))
    && (c.Begins? ==> c.id != id)
    && (c.CollectorPoll? ==> Truthful(w, c.rows) && id in Ids(c.rows))
  }

  lemma StepKeepsCounted(v: View, c: Call, user: UserName, id: Id)
    requires Counted(v) && (c.Moves? ==> c.bytes.AtLeast(ZERO)) && (c.Begins? ==> c.id != id)
    requires c.CollectorPoll? ==> id in Ids(c.rows)
    ensures Counted(ViewStep(v, c, user, id))
  {
    hide Ids;
  }

  lemma SameCounted(w: World, user: UserName, gone: set<Id>, id: Id)
    ensures Counted(ViewOf(w, user, gone, id)) <==> Counted(ViewOf(w, user, {}, id))
  {
    hide At, Owns;
  }

  lemma CallKeepsExact(w: World, user: UserName, c: Call, id: Id)
    requires ExactAt(w, user, id) && Proceeds(w, c, id)
    ensures ExactAt(After(w, user, c), user, id)
  {
    hide Counted, After, GoneAfter, Truthful, Ids, ViewOf, ViewStep;
    CallSeen(w, user, {}, c, id);
    StepKeepsCounted(ViewOf(w, user, {}, id), c, user, id);
    SameCounted(After(w, user, c), user, GoneAfter(w, {}, c), id);
  }

  /** While a session neither begins anew nor leaves the listing, nothing is lost: what its user is not
      credited yet is exactly what the next listing credits. */
  lemma {:induction false} CreditsExactly(w: World, user: UserName, calls: seq<Call>, id: Id)
    requires ExactAt(w, user, id) && Stays(w, user, calls, id)
    ensures ExactAt(Run(w, user, calls), user, id)
    decreases |calls|
  {
    hide ExactAt, After, Truthful;
    if calls != [] {
      CallKeepsExact(w, user, calls[0], id);
      CreditsExactly(After(w, user, calls[0]), user, calls[1..], id);
    }
  }

  /** A session is exact when it begins, if it is new to the user and the collector. */
  lemma NewIsExact(w: World, user: UserName, id: Id)
    requires At(w.seen, id) == ZERO && At(w.credit, id) == At(w.moved, id)
    ensures ExactAt(After(w, user, Begins(id, user)), user, id)
  {
  }

  /** The session does not occur: it neither begins nor moves bytes, and no poll lists it. */
  predicate Absent(calls: seq<Call>, id: Id)
    decreases |calls|
  {
    calls == [] || (NotIn(calls[0], id) && Absent(calls[1..], id))
  }

  predicate NotIn(c: Call, id: Id) {
    match c
    case Begins(name, _) => name != id
    case Moves(name, _) => name != id
    case CollectorPoll(rows, _, _) => id !in Ids(rows)
    case _ => true
  }

  /** Nothing is known of the session. */
  predicate Blank(w: World, id: Id) {
    At(w.seen, id) == ZERO && At(w.credit, id) == ZERO && At(w.moved, id) == ZERO
  }

  lemma CallKeepsBlank(w: World, user: UserName, c: Call, id: Id)
    requires Blank(w, id) && NotIn(c, id)
    ensures Blank(After(w, user, c), id)
  {
    match c
    case Moves(name, b) => AtSet(w.moved, name, At(w.moved, name).Plus(b), id);
    case CollectorPoll(rows, _, _) =>
      NotListed(rows, id, user);
      ListedAt(w.seen, rows, id, user, ZERO);
      ListedIsCredited(w.seen, rows, id, user, ZERO, user);
      CreditAt(w, rows, user, id);
      hide At, Credit, SessionGrowth, SeenAfter, Listed, Ids, Misses, ShowsOnly, DueFrom;
    case _ =>
  }

  lemma NotListed(rows: seq<Row>, id: Id, user: UserName)
    requires id !in Ids(rows)
    ensures Misses(rows, id) && ShowsOnly(rows, id, user, ZERO)
  {
    assert forall r :: r in rows ==> r.id in Ids(rows);
  }

  lemma {:induction false} RunKeepsBlank(w: World, user: UserName, calls: seq<Call>, id: Id)
    requires Blank(w, id) && Absent(calls, id)
    ensures Blank(Run(w, user, calls), id)
    decreases |calls|
  {
    hide Blank, After, NotIn;
    if calls != [] {
      CallKeepsBlank(w, user, calls[0], id);
      RunKeepsBlank(After(w, user, calls[0]), user, calls[1..], id);
    }
  }

  lemma {:induction false} RunAppend(w: World, user: UserName, a: seq<Call>, b: seq<Call>)
    ensures Run(w, user, a + b) == Run(Run(w, user, a), user, b)
    decreases |a|
  {
    hide After;
    if a == [] {
      assert a + b == b;
    } else {
      assert (a + b)[0] == a[0] && (a + b)[1..] == a[1..] + b;
      RunAppend(After(w, user, a[0]), user, a[1..], b);
    }
  }

  lemma RunOne(w: World, user: UserName, c: Call)
    ensures Run(w, user, [c]) == After(w, user, c)
  {
    hide After;
    assert [c][1..] == [];
  }

  /** In every run from the beginning, a session that begins, neither begins anew nor leaves the listing, and
      did not occur before, is counted exactly: credited and due are together what it moved. */
  lemma BegunIsCreditedExactly(before: seq<Call>, after: seq<Call>, user: UserName, id: Id)
    requires Absent(before, id)
    requires Stays(Run(NOTHING, user, before + [Begins(id, user)]), user, after, id)
    ensures var w := Run(NOTHING, user, before + [Begins(id, user)] + after);
            && ExactAt(w, user, id)
            && At(w.moved, id) == At(w.credit, id).Plus(At(w.shown, id).Minus(At(w.seen, id)))
  {
    var start := Run(NOTHING, user, before);
    assert Blank(NOTHING, id);
    RunKeepsBlank(NOTHING, user, before, id);
    NewIsExact(start, user, id);
    RunAppend(NOTHING, user, before, [Begins(id, user)]);
    RunOne(start, user, Begins(id, user));
    RunAppend(NOTHING, user, before + [Begins(id, user)], after);
    hide Run, Stays, After, At, Absent, Blank;
    CreditsExactly(Run(NOTHING, user, before + [Begins(id, user)]), user, after, id);
  }

  // ----- Ids that are used again -----

  /** Until the next poll, and the session does not begin anew. */
  predicate Interlude(calls: seq<Call>, id: Id)
    decreases |calls|
  {
    calls == []
    || (!calls[0].CollectorPoll? && (calls[0].Begins? ==> calls[0].id != id) && Interlude(calls[1..], id))
  }

  /** What a session moves in a stretch of calls. */
  function MovedOn(calls: seq<Call>, id: Id): Pair
    decreases |calls|
  {
    if calls == [] then ZERO
    else
      (if calls[0].Moves? && calls[0].id == id then calls[0].bytes else ZERO).Plus(MovedOn(calls[1..], id))
  }

  /** A session's part of a world, but for whether it is gone. */
  function Seen(w: World, user: UserName, id: Id): View {
    ViewOf(w, user, {}, id)
  }

  lemma CallSeenBare(w: World, user: UserName, c: Call, id: Id)
    requires c.CollectorPoll? ==> Truthful(w, c.rows)
    ensures Seen(After(w, user, c), user, id) == ViewStep(Seen(w, user, id), c, user, id).(gone := false)
  {
    CallSeen(w, user, {}, c, id);
    hide After, At, Owns, GoneAfter, ViewStep, Truthful;
  }

  lemma MovedTwice(v: View, a: Pair, b: Pair)
    ensures Moved(Moved(v, a), b) == Moved(v, a.Plus(b))
    ensures Moved(v, ZERO) == v && ZERO.Plus(b) == b
  {
    PairFacts(v.shown, a, b);
    PairFacts(v.moved, a, b);
    PairFacts(v.shown, ZERO, ZERO);
    PairFacts(v.moved, ZERO, ZERO);
    PairFacts(b, ZERO, ZERO);
  }

  lemma {:induction false} InterludeMoves(w: World, user: UserName, calls: seq<Call>, id: Id)
    requires Interlude(calls, id)
    ensures Seen(Run(w, user, calls), user, id) == Moved(Seen(w, user, id), MovedOn(calls, id))
    decreases |calls|
  {
    hide After, At, Owns, Moved, ViewStep, Truthful;
    var v := Seen(w, user, id);
    if calls == [] {
      MovedTwice(v, ZERO, ZERO);
    } else {
      var b := if calls[0].Moves? && calls[0].id == id then calls[0].bytes else ZERO;
      CallSeenBare(w, user, calls[0], id);
      InterludeStep(v, calls[0], user, id);
      InterludeMoves(After(w, user, calls[0]), user, calls[1..], id);
      MovedTwice(v, b, MovedOn(calls[1..], id));
    }
  }

  lemma InterludeStep(v: View, c: Call, user: UserName, id: Id)
    requires !v.gone && !c.CollectorPoll? && (c.Begins? ==> c.id != id)
    ensures ViewStep(v, c, user, id).(gone := false) ==
              Moved(v, if c.Moves? && c.id == id then c.bytes else ZERO)
  {
    MovedTwice(v, ZERO, ZERO);
  }

  /** What of b bytes is credited when the collector remembers last: all of them if they are fewer, for the
      counter has visibly started over, and otherwise all but the last. */
  lemma Restarted(last: Pair, b: Pair)
    ensures DueFrom(last, b).rx == if b.rx < last.rx then b.rx else b.rx - last.rx
    ensures DueFrom(last, b).tx == if b.tx < last.tx then b.tx else b.tx - last.tx
  {
  }

  /** The exact law for an id that is used again before the collector forgets it. A session begins under the
      id, moves bytes and is listed: its user is credited all of them in a direction that stays below what is
      remembered, and in a direction that reaches it loses exactly what is remembered. */
  lemma ReusedIdLoses(w: World, user: UserName, id: Id, calls: seq<Call>, poll: Call)
    requires Interlude(calls, id) && poll.CollectorPoll? && id in Ids(poll.rows)
    requires Truthful(Run(After(w, user, Begins(id, user)), user, calls), poll.rows)
    ensures var mid := Run(After(w, user, Begins(id, user)), user, calls);
            var w', last, b := After(mid, user, poll), At(w.seen, id), MovedOn(calls, id);
            && At(w'.moved, id) == At(w.moved, id).Plus(b)
            && At(w'.credit, id).rx == At(w.credit, id).rx + (if b.rx < last.rx then b.rx else b.rx - last.rx)
            && At(w'.credit, id).tx == At(w.credit, id).tx + (if b.tx < last.tx then b.tx else b.tx - last.tx)
  {
    hide Run, After, Interlude, MovedOn, Truthful, Ids, At, Owns, ViewStep;
    ReusedSeen(w, user, id, calls, poll);
    ListedStep(Seen(w, user, id), poll, user, id, MovedOn(calls, id));
  }

  lemma ReusedSeen(w: World, user: UserName, id: Id, calls: seq<Call>, poll: Call)
    requires Interlude(calls, id) && poll.CollectorPoll?
    requires Truthful(Run(After(w, user, Begins(id, user)), user, calls), poll.rows)
    ensures Seen(After(Run(After(w, user, Begins(id, user)), user, calls), user, poll), user, id) ==
              ViewStep(Moved(Seen(w, user, id).(shown := ZERO, owned := true), MovedOn(calls, id)), poll, user, id)
              .(gone := false)
  {
    var begun := After(w, user, Begins(id, user));
    CallSeenBare(w, user, Begins(id, user), id);
    BeginStep(Seen(w, user, id), user, id);
    InterludeMoves(begun, user, calls, id);
    CallSeenBare(Run(begun, user, calls), user, poll, id);
    hide Run, After, Interlude, MovedOn, Truthful, Ids, ViewOf, ViewStep, Moved;
  }

  lemma BeginStep(v: View, user: UserName, id: Id)
    requires !v.gone
    ensures ViewStep(v, Begins(id, user), user, id) == v.(shown := ZERO, owned := true)
  {
  }

  lemma ListedStep(v: View, poll: Call, user: UserName, id: Id, b: Pair)
    requires poll.CollectorPoll? && id in Ids(poll.rows)
    ensures var v' := ViewStep(Moved(v.(shown := ZERO, owned := true), b), poll, user, id);
            && v'.moved == v.moved.Plus(b)
            && v'.credit.rx == v.credit.rx + (if b.rx < v.seen.rx then b.rx else b.rx - v.seen.rx)
            && v'.credit.tx == v.credit.tx + (if b.tx < v.seen.tx then b.tx else b.tx - v.seen.tx)
  {
    hide Ids;
    PairFacts(b, ZERO, ZERO);
    Restarted(v.seen, b);
  }

  // ----- A user's sessions together -----

  /** All bytes a user's sessions moved in a run. */
  function MovedBy(owner: map<Id, UserName>, calls: seq<Call>, user: UserName): Pair
    decreases |calls|
  {
    if calls == [] then ZERO
    else
      match calls[0]
      case Begins(id, u) => MovedBy(owner[id := u], calls[1..], user)
      case Moves(id, b) =>
        (if id in owner && owner[id] == user then b else ZERO).Plus(MovedBy(owner, calls[1..], user))
      case _ => MovedBy(owner, calls[1..], user)
  }

  lemma LedgerStep(w: World, user: UserName, c: Call)
    ensures Sum(After(w, user, c).credit) ==
            Sum(w.credit).Plus(if c.CollectorPoll? then UserGrowth(w.seen, c.rows, user) else ZERO)
    ensures Sum(After(w, user, c).moved) ==
            Sum(w.moved).Plus(if c.Moves? && Owns(w, user, c.id) then c.bytes else ZERO)
  {
    hide Sum, UserGrowth, SessionGrowth, Credit, Listed, SeenAfter, At;
    PairFacts(Sum(w.credit), ZERO, ZERO);
    PairFacts(Sum(w.moved), ZERO, ZERO);
    if c.CollectorPoll? {
      forall id
        ensures At(Credit(w, c.rows, user), id) == At(w.credit, id).Plus(SessionGrowth(w.seen, c.rows, user, id))
      {
        CreditAt(w, c.rows, user, id);
      }
      LedgerAddsUp(w.credit, Credit(w, c.rows, user), w.seen, c.rows, user);
    } else if c.Moves? && Owns(w, user, c.id) {
      SumUpdated(w.moved, c.id, c.bytes);
    }
  }

  /** The two ledgers of a run add up to what the collector credited and what was moved. */
  lemma {:induction false} LedgersAddUp(w: World, user: UserName, calls: seq<Call>)
    ensures Sum(Run(w, user, calls).credit) == Sum(w.credit).Plus(Credited(w.seen, calls, user))
    ensures Sum(Run(w, user, calls).moved) == Sum(w.moved).Plus(MovedBy(w.owner, calls, user))
    decreases |calls|
  {
    hide Sum, UserGrowth, Credit, Listed, SeenAfter, At;
    if calls == [] {
      PairFacts(Sum(w.credit), ZERO, ZERO);
      PairFacts(Sum(w.moved), ZERO, ZERO);
    } else {
      var c := calls[0];
      var next := After(w, user, c);
      LedgerStep(w, user, c);
      LedgersAddUp(next, user, calls[1..]);
      PairFacts(Sum(w.credit), if c.CollectorPoll? then UserGrowth(w.seen, c.rows, user) else ZERO,
                Credited(next.seen, calls[1..], user));
      PairFacts(Sum(w.moved), if c.Moves? && Owns(w, user, c.id) then c.bytes else ZERO,
          MovedBy(next.owner, calls[1..], user));
      PairFacts(Credited(next.seen, calls[1..], user), ZERO, ZERO);
      PairFacts(MovedBy(next.owner, calls[1..], user), ZERO, ZERO);
    }
  }

  /** A user is never credited more than its sessions moved. */
  lemma UserIsNeverOverCredited(calls: seq<Call>, user: UserName)
    requires Fair(NOTHING, user, {}, calls)
    ensures MovedBy(map[], calls, user).AtLeast(Credited(map[], calls, user))
  {
    hide Sum, Run, Fair, Credited, MovedBy, At;
    var w := Run(NOTHING, user, calls);
    forall id
      ensures At(w.moved, id).AtLeast(At(w.credit, id))
    {
      NeverOverCredits(calls, user, id);
    }
    SumAtMost(w.credit, w.moved);
    LedgersAddUp(NOTHING, user, calls);
    EmptySum();
    PairFacts(Credited(map[], calls, user), ZERO, ZERO);
    PairFacts(MovedBy(map[], calls, user), ZERO, ZERO);
  }

  lemma EmptySum()
    ensures Sum<Id>(map[]) == ZERO
  {
  }

  // ----- One user, through the tracker -----

  /** A run for one user, as events of its tracker key. */
  function Events(seen: map<Id, Pair>, calls: seq<Call>, u: UserName): seq<Event>
    decreases |calls|
  {
    if calls == [] then []
    else
      match calls[0]
      case CollectorPoll(rows, samples, now) =>
        [Traffic(u, UserGrowth(seen, rows, u)), Poll(samples, now)]
            + Events(Listed(SeenAfter(seen, rows), rows), calls[1..], u)
      case Report(keys) => [ResetKeysCall(keys)] + Events(seen, calls[1..], u)
      case ReportAll => [ResetAllCall] + Events(seen, calls[1..], u)
      case CleanupCall => [Cleanup] + Events(seen, calls[1..], u)
      case _ => Events(seen, calls[1..], u)
  }

  /** What the collector credits a user in a run. */
  function Credited(seen: map<Id, Pair>, calls: seq<Call>, u: UserName): Pair
    decreases |calls|
  {
    if calls == [] then ZERO
    else
      match calls[0]
      case CollectorPoll(rows, _, _) =>
        UserGrowth(seen, rows, u).Plus(Credited(Listed(SeenAfter(seen, rows), rows), calls[1..], u))
      case _ => Credited(seen, calls[1..], u)
  }

  /** The samples of every poll are the collector's own, and no counter is negative. */
  ghost predicate FromCollector(seen: map<Id, Pair>, cum: map<UserName, Pair>, calls: seq<Call>)
    decreases |calls|
  {
    calls == [] ||
    if calls[0].CollectorPoll? then
      var rows := calls[0].rows;
      && NotNegative(rows)
      && exists cum' ::
           && PollStep(seen, cum, rows, calls[0].samples, Listed(SeenAfter(seen, rows), rows), cum')
           && FromCollector(Listed(SeenAfter(seen, rows), rows), cum', calls[1..])
    else FromCollector(seen, cum, calls[1..])
  }

  /** What the tracker needs of them for one user: its samples show its new cumulative counters, and there
      are some exactly when it is listed. */
  ghost predicate Genuine(seen: map<Id, Pair>, credit: Pair, calls: seq<Call>, u: UserName)
    decreases |calls|
  {
    calls == [] ||
    if calls[0].CollectorPoll? then
      var rows, samples := calls[0].rows, calls[0].samples;
      var after := credit.Plus(UserGrowth(seen, rows, u));
      && NotNegative(rows)
      && (forall x :: x in samples && x.publicKey == u ==> Pair(x.rx, x.tx) == after)
      && (u in Users(rows) <==> exists x :: x in samples && x.publicKey == u)
      && Genuine(Listed(SeenAfter(seen, rows), rows), after, calls[1..], u)
    else Genuine(seen, credit, calls[1..], u)
  }

  lemma SamplesAreGenuine(samples: seq<Sample>, rows: seq<Row>, cum: map<UserName, Pair>, u: UserName)
    requires SamplesFor(samples, Users(rows), cum)
    ensures forall x :: x in samples && x.publicKey == u ==> Pair(x.rx, x.tx) == At(cum, u)
    ensures u in Users(rows) <==> exists x :: x in samples && x.publicKey == u
  {
    hide Users;
  }

  lemma {:induction false} CollectorIsGenuine(seen: map<Id, Pair>, cum: map<UserName, Pair>, calls: seq<Call>,
                                              u: UserName)
    requires FromCollector(seen, cum, calls)
    ensures Genuine(seen, At(cum, u), calls, u)
    decreases |calls|
  {
    hide UserGrowth, SeenAfter, Listed, Users, NotNegative, SamplesFor, At;
    if calls != [] {
      if calls[0].CollectorPoll? {
        var rows, samples := calls[0].rows, calls[0].samples;
        var seen' := Listed(SeenAfter(seen, rows), rows);
        var cum' :| PollStep(seen, cum, rows, samples, seen', cum') && FromCollector(seen', cum', calls[1..]);
        SamplesAreGenuine(samples, rows, cum', u);
        CollectorIsGenuine(seen', cum', calls[1..], u);
      } else {
        CollectorIsGenuine(seen, cum, calls[1..], u);
      }
    }
  }

  ghost predicate Settled(s: KeyState) {
    Exact(s) && Unsampled(s) == ZERO && s.meter.total == s.meter.counter
  }

  lemma {:induction false} PollSettles(s: KeyState, k: Key, samples: seq<Sample>, now: Time)
    requires exists x :: x in samples && x.publicKey == k
    requires forall x :: x in samples && x.publicKey == k ==> Pair(x.rx, x.tx) == s.meter.counter
    ensures Unsampled(PollState(s, k, samples, now)) == ZERO && PollState(s, k, samples, now).meter == s.meter
    decreases |samples|
  {
    var e := if s.entry.Some? then s.entry.value else Fresh(samples[0].email);
    var s' := if samples[0].publicKey == k then s.(entry := Some(Sampled(e, samples[0], now))) else s;
    if exists x :: x in samples[1..] && x.publicKey == k {
      PollSettles(s', k, samples[1..], now);
    } else {
      var x :| x in samples && x.publicKey == k;
      assert samples == [samples[0]] + samples[1..];
      assert x == samples[0];
      PollElsewhere(s', k, samples[1..], now);
    }
  }

  lemma {:induction false} PollElsewhere(s: KeyState, k: Key, samples: seq<Sample>, now: Time)
    requires forall x :: x in samples ==> x.publicKey != k
    ensures PollState(s, k, samples, now) == s
    decreases |samples|
  {
    if samples != [] {
      assert samples[0] in samples;
      PollElsewhere(s, k, samples[1..], now);
    }
  }

  lemma PollCallKeeps(s: KeyState, u: UserName, seen: map<Id, Pair>, rows: seq<Row>, samples: seq<Sample>, now: Time)
    requires Settled(s) && NotNegative(rows)
    requires forall x :: x in samples && x.publicKey == u ==>
              Pair(x.rx, x.tx) == s.meter.total.Plus(UserGrowth(seen, rows, u))
    requires u in Users(rows) <==> exists x :: x in samples && x.publicKey == u
    ensures var after := KeyStep(KeyStep(s, u, Traffic(u, UserGrowth(seen, rows, u))), u, Poll(samples, now));
            Settled(after) && after.meter.total == s.meter.total.Plus(UserGrowth(seen, rows, u))
  {
    hide UserGrowth, Users, SeenAfter, Growth;
    var g := UserGrowth(seen, rows, u);
    GrowthIsNotNegative(seen, rows, u);
    var moved := KeyStep(s, u, Traffic(u, g));
    TrafficKeepsExact(s, u, g);
    hide Exact, PollState;
    PollKeeps(moved, u, samples, now);
    if u in Users(rows) {
      PollSettles(moved, u, samples, now);
    } else {
      UnlistedGrowsNothing(seen, rows, u);
      PollElsewhere(moved, u, samples, now);
    }
  }

  lemma TrafficKeepsExact(s: KeyState, u: UserName, g: Pair)
    requires Exact(s) && g.AtLeast(ZERO)
    ensures Exact(KeyStep(s, u, Traffic(u, g)))
  {
  }

  lemma OtherCallKeeps(s: KeyState, u: UserName, e: Event)
    requires Settled(s) && (e.ResetKeysCall? || e.ResetAllCall? || e.Cleanup?)
    ensures Settled(KeyStep(s, u, e)) && KeyStep(s, u, e).meter == s.meter
  {
  }

  lemma RunFirst(s: KeyState, u: UserName, e: Event, rest: seq<Event>)
    ensures KeyRun(s, u, [e] + rest) == KeyRun(KeyStep(s, u, e), u, rest)
  {
    assert ([e] + rest)[1..] == rest;
  }

  lemma {:induction false} CallsKeepSettled(s: KeyState, seen: map<Id, Pair>, calls: seq<Call>, u: UserName)
    requires Settled(s) && Genuine(seen, s.meter.total, calls, u)
    ensures Settled(KeyRun(s, u, Events(seen, calls, u)))
    ensures KeyRun(s, u, Events(seen, calls, u)).meter.total == s.meter.total.Plus(Credited(seen, calls, u))
    decreases |calls|, 1
  {
    hide Settled, KeyStep, KeyRun, UserGrowth, SeenAfter, Listed, Users;
    if calls == [] {
      PairFacts(s.meter.total, ZERO, ZERO);
      assert KeyRun(s, u, []) == s by {
        RunNothing(s, u);
      }
    } else {
      match calls[0] {
        case CollectorPoll(rows, samples, now) => PollCall(s, seen, calls, u);
        case Report(keys) => OtherCall(s, seen, calls, u, ResetKeysCall(keys));
        case ReportAll => OtherCall(s, seen, calls, u, ResetAllCall);
        case CleanupCall => OtherCall(s, seen, calls, u, Cleanup);
        case _ => CallsKeepSettled(s, seen, calls[1..], u);
      }
    }
  }

  lemma {:induction false} PollCall(s: KeyState, seen: map<Id, Pair>, calls: seq<Call>, u: UserName)
    requires Settled(s) && Genuine(seen, s.meter.total, calls, u) && calls != [] && calls[0].CollectorPoll?
    ensures Settled(KeyRun(s, u, Events(seen, calls, u)))
    ensures KeyRun(s, u, Events(seen, calls, u)).meter.total == s.meter.total.Plus(Credited(seen, calls, u))
    decreases |calls|, 0
  {
    hide Settled, KeyStep, KeyRun, UserGrowth, SeenAfter, Listed, Users;
    var rows, samples, now := calls[0].rows, calls[0].samples, calls[0].now;
    var g := UserGrowth(seen, rows, u);
    var mid := KeyStep(s, u, Traffic(u, g));
    var seen' := Listed(SeenAfter(seen, rows), rows);
    var rest := Events(seen', calls[1..], u);
    PollCallKeeps(s, u, seen, rows, samples, now);
    CallsKeepSettled(KeyStep(mid, u, Poll(samples, now)), seen', calls[1..], u);
    assert Events(seen, calls, u) == [Traffic(u, g)] + ([Poll(samples, now)] + rest);
    RunFirst(s, u, Traffic(u, g), [Poll(samples, now)] + rest);
    RunFirst(mid, u, Poll(samples, now), rest);
    PairFacts(s.meter.total, g, Credited(seen', calls[1..], u));
  }

  lemma RunNothing(s: KeyState, u: UserName)
    ensures KeyRun(s, u, []) == s
  {
  }

  lemma {:induction false} OtherCall(s: KeyState, seen: map<Id, Pair>, calls: seq<Call>, u: UserName, e: Event)
    requires Settled(s) && Genuine(seen, s.meter.total, calls, u) && calls != []
    requires !calls[0].CollectorPoll? && Events(seen, calls, u) == [e] + Events(seen, calls[1..], u)
    requires e.ResetKeysCall? || e.ResetAllCall? || e.Cleanup?
    ensures Settled(KeyRun(s, u, Events(seen, calls, u)))
    ensures KeyRun(s, u, Events(seen, calls, u)).meter.total == s.meter.total.Plus(Credited(seen, calls, u))
    decreases |calls|, 0
  {
    hide Settled, KeyStep, KeyRun, Events;
    OtherCallKeeps(s, u, e);
    RunFirst(s, u, e, Events(seen, calls[1..], u));
    CallsKeepSettled(KeyStep(s, u, e), seen, calls[1..], u);
  }

  lemma SettledAccount(s: KeyState)
    requires Settled(s)
    ensures s.billed.Plus(s.Pending()) == s.meter.total
  {
    ExactAccount(s);
  }

  lemma FreshIsSettled()
    ensures Settled(FRESH)
  {
    assert Exact(FRESH);
    assert Unsampled(FRESH) == ZERO;
  }

  /** In every run of polls, reports and cleanups, what the tracker has reported for a user plus what it
      holds pending is exactly what the collector credited that user. */
  lemma ReportedPlusPendingIsCredited(calls: seq<Call>, u: UserName)
    requires FromCollector(map[], map[], calls)
    ensures var s := KeyRun(FRESH, u, Events(map[], calls, u));
            s.billed.Plus(s.Pending()) == Credited(map[], calls, u)
            && s.entry == Look(TableRun(map[], Events(map[], calls, u)), u)
  {
    FreshIsSettled();
    hide Settled, KeyRun, TableRun, Events, Credited, Genuine, FromCollector;
    CollectorIsGenuine(map[], map[], calls, u);
    CallsKeepSettled(FRESH, map[], calls, u);
    SettledAccount(KeyRun(FRESH, u, Events(map[], calls, u)));
    RunProjects(map[], FRESH, u, Events(map[], calls, u));
    PairFacts(Credited(map[], calls, u), ZERO, ZERO);
  }

  /** So a user is never billed for more than its sessions moved: over every run, what the tracker reported
      plus what it holds pending is at most that. */
  lemma UserIsNeverOverBilled(calls: seq<Call>, u: UserName)
    requires FromCollector(map[], map[], calls) && Fair(NOTHING, u, {}, calls)
    ensures var s := KeyRun(FRESH, u, Events(map[], calls, u));
            MovedBy(map[], calls, u).AtLeast(s.billed.Plus(s.Pending()))
  {
    hide KeyRun, Events, Credited, MovedBy, Fair, FromCollector, TableRun;
    ReportedPlusPendingIsCredited(calls, u);
    UserIsNeverOverCredited(calls, u);
  }
}
