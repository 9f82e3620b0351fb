/** The WireGuard device limiter: backend/wireguard/iplimit.go. One call is one poll; times are seconds
    on a clock that does not run backwards. The ghost fields record what happened, and the invariant
    says what the limiter's own fields know of it. */
module PeerIpLimit {
  import opened Wrappers

  type Email = string
  type Ip = string
  type Time = nat

  const WINDOW: nat := 120
  const COOLDOWN: nat := 60
  const STRIKES: nat := 2

  /** What one poll found for a user: over or under a positive limit, or not looked at; Cleared follows
      a kick or a re-admission. */
  datatype Verdict = Over | Under | Skipped | Cleared

  /** Over-limit polls since the last under-limit poll, kick or re-admission. */
  function Streak(h: seq<Verdict>): nat {
    if h == [] then 0
    else
      match h[|h| - 1]
      case Over => Streak(h[..|h| - 1]) + 1
      case Skipped => Streak(h[..|h| - 1])
      case _ => 0
  }

  predicate NotUnder(v: Verdict) {
    v == Over || v == Skipped
  }

  /** An over-limit poll with nothing but over-limit and skipped polls after it. */
  predicate OverSince(h: seq<Verdict>, i: nat) {
    i < |h| && h[i] == Over && forall k :: i < k < |h| ==> NotUnder(h[k])
  }

  lemma OverStep(h: seq<Verdict>, i: nat)
    requires h != []
    ensures var last := |h| - 1;
            OverSince(h, i) <==> if i == last then h[last] == Over else OverSince(h[..last], i) && NotUnder(h[last])
  {
  }

  lemma {:induction false} StreakOfOne(h: seq<Verdict>)
    ensures Streak(h) >= 1 <==> exists j :: OverSince(h, j)
  {
    if h != [] {
      var last := |h| - 1;
      StreakOfOne(h[..last]);
      forall j
        ensures OverSince(h, j) <==>
                if j == last then h[last] == Over else OverSince(h[..last], j) && NotUnder(h[last])
      {
        OverStep(h, j);
      }
      assert h[last] == Over ==> OverSince(h, last);
      if Streak(h[..last]) >= 1 {
        var j :| OverSince(h[..last], j);
        assert NotUnder(h[last]) ==> OverSince(h, j);
      }
    }
  }

  /** A streak of two is two over-limit polls with nothing but over-limit and skipped polls between and after
      them. */
  lemma {:induction false} StreakOfTwo(h: seq<Verdict>)
    ensures Streak(h) >= 2 <==> exists i, j :: i < j && OverSince(h, i) && OverSince(h, j)
  {
    if h != [] {
      var last := |h| - 1;
      StreakOfOne(h[..last]);
      StreakOfTwo(h[..last]);
      forall j
        ensures OverSince(h, j) <==>
                if j == last then h[last] == Over else OverSince(h[..last], j) && NotUnder(h[last])
      {
        OverStep(h, j);
      }
      if Streak(h) >= 2 {
        if h[last] == Over {
          var i :| OverSince(h[..last], i);
          assert OverSince(h, i) && OverSince(h, last);
        } else {
          var i, j :| i < j && OverSince(h[..last], i) && OverSince(h[..last], j);
          assert OverSince(h, i) && OverSince(h, j);
        }
      } else if i, j :| i < j && OverSince(h, i) && OverSince(h, j) {
        assert OverSince(h[..last], i);
      }
    }
  }

  /** Being over the limit twice is not being over it consecutively: polls at which the user's limit is
      zero neither count nor break the streak. */
  lemma UnlimitedPollsDoNotBreakAStreak(n: nat)
    ensures Streak([Over] + seq(n, _ => Skipped) + [Over]) == 2
  {
    var h := [Over] + seq(n, _ => Skipped);
    SkippedTail(n);
    assert (h + [Over])[..|h|] == h;
  }

  lemma {:induction false} SkippedTail(n: nat)
    ensures Streak([Over] + seq(n, _ => Skipped)) == 1
  {
    var h := [Over] + seq(n, _ => Skipped);
    if n == 0 {
      assert h == [Over] && h[..0] == [];
    } else {
      SkippedTail(n - 1);
      assert h[..|h| - 1] == [Over] + seq(n - 1, _ => Skipped);
    }
  }

  type Sightings = map<Email, map<Ip, Time>>

  function SeenBy(s: Sightings, e: Email): map<Ip, Time> {
    if e in s then s[e] else map[]
  }

  /** A user's sightings of the last WINDOW seconds. */
  function Recent(seen: map<Ip, Time>, now: Time): map<Ip, Time> {
    map ip | ip in seen && now - seen[ip] <= WINDOW :: seen[ip]
  }

  /** A user's sightings with this poll's endpoints added. */
  function WithActive(seen: map<Ip, Time>, ips: set<Ip>, now: Time): map<Ip, Time> {
    map ip | ip in seen.Keys + ips :: if ip in ips then now else seen[ip]
  }

  function ActiveOf(active: map<Email, set<Ip>>, e: Email): set<Ip> {
    if e in active then active[e] else {}
  }

  lemma RecentAfterFold(seen: map<Ip, Time>, clock: Time, ips: set<Ip>, now: Time)
    requires clock <= now && forall ip :: ip in seen ==> seen[ip] <= clock
    ensures Recent(WithActive(Recent(seen, clock), ips, now), now) == Recent(WithActive(seen, ips, now), now)
  {
  }

  ghost predicate WindowOk(window: Sightings, lastSeen: Sightings, clock: Time, e: Email) {
    && SeenBy(window, e) == Recent(SeenBy(lastSeen, e), clock)
    && forall ip :: ip in SeenBy(lastSeen, e) ==> SeenBy(lastSeen, e)[ip] <= clock
  }

  /** When a user was kicked, if it is out. */
  function KickMark(kicked: map<Email, Time>, e: Email): Option<Time> {
    if e in kicked then Some(kicked[e]) else None
  }

  ghost function HistoryOf(history: map<Email, seq<Verdict>>, e: Email): seq<Verdict> {
    if e in history then history[e] else []
  }

  ghost predicate StrikesOk(strikes: map<Email, nat>, kicked: map<Email, Time>, history: map<Email, seq<Verdict>>,
                            e: Email) {
    && (e in strikes ==> strikes[e] == Streak(HistoryOf(history, e)) && strikes[e] > 0 && e !in kicked)
    && (e !in strikes ==> Streak(HistoryOf(history, e)) == 0)
  }

  /** What a poll finds for a user with this window: a kicked user and one without a positive limit are
      not looked at. */
  function VerdictOn(limits: map<Email, nat>, kicked: map<Email, Time>, window: map<Ip, Time>, e: Email): Verdict {
    if e !in limits || e in kicked || limits[e] == 0 then Skipped
    else if |window| > limits[e] then Over
    else Under
  }

  /** The window a poll looks at: the sightings of the last WINDOW seconds, this poll's included. */
  function WindowAt(lastSeen: Sightings, active: map<Email, set<Ip>>, now: Time, e: Email): map<Ip, Time> {
    Recent(WithActive(SeenBy(lastSeen, e), ActiveOf(active, e), now), now)
  }

  /** What the limiter remembers, with what happened so far. */
  datatype Memory = Memory(limits: map<Email, nat>, kicked: map<Email, Time>, lastSeen: Sightings,
                           history: map<Email, seq<Verdict>>, clock: Time)

  /** Whom a poll acts on: stored are the users the peer store knows, refused those whose kernel call fails. */
  ghost predicate ActsOn(m: Memory, now: Time, active: map<Email, set<Ip>>, stored: set<Email>, refused: set<Email>,
                         kicks: set<Email>, readmits: set<Email>) {
    // a user is kicked on its second over-limit poll in a streak, and only while over a positive limit
    && (forall e :: e in kicks <==>
            && VerdictOn(m.limits, m.kicked, WindowAt(m.lastSeen, active, now, e), e) == Over
            && Streak(HistoryOf(m.history, e)) + 1 >= STRIKES && e in stored && e !in refused)
    // and re-admitted no sooner than COOLDOWN later
    && (forall e :: e in readmits <==>
            e in m.limits && e in m.kicked && now - m.kicked[e] >= COOLDOWN && e in stored && e !in refused)
  }

  /** What a poll that acts on these users leaves in memory. */
  ghost predicate Records(m: Memory, m': Memory, now: Time, active: map<Email, set<Ip>>, kicks: set<Email>,
                          readmits: set<Email>) {
    && m'.clock == now && m'.limits == m.limits
    && (forall e :: KickMark(m'.kicked, e) ==
            if e in kicks then Some(now) else if e in readmits then None else KickMark(m.kicked, e))
    && (forall e :: SeenBy(m'.lastSeen, e) ==
            if e in kicks || e in readmits then map[]
            else WithActive(SeenBy(m.lastSeen, e), ActiveOf(active, e), now))
    && (forall e :: HistoryOf(m'.history, e) ==
            HistoryOf(m.history, e)
            + (if e in m.limits then [VerdictOn(m.limits, m.kicked, WindowAt(m.lastSeen, active, now, e), e)] else [])
            + (if e in kicks || e in readmits then [Cleared] else []))
  }

  /** One poll. */
  ghost predicate Polled(m: Memory, m': Memory, now: Time, active: map<Email, set<Ip>>, stored: set<Email>,
                         refused: set<Email>, kicks: set<Email>, readmits: set<Email>) {
    ActsOn(m, now, active, stored, refused, kicks, readmits) && Records(m, m', now, active, kicks, readmits)
  }

  /** Nobody already kicked is kicked, only kicked users are re-admitted, and all of them are limited. */
  lemma ActsApart(m: Memory, now: Time, active: map<Email, set<Ip>>, stored: set<Email>, refused: set<Email>,
                  kicks: set<Email>, readmits: set<Email>)
    requires ActsOn(m, now, active, stored, refused, kicks, readmits)
    ensures kicks !! m.kicked.Keys && readmits <= m.kicked.Keys && kicks + readmits <= stored * m.limits.Keys
    ensures kicks !! readmits
  {
    hide Streak, WindowAt, HistoryOf, VerdictOn;
    forall e | e in kicks
      ensures e in m.limits && e !in m.kicked && e in stored
    {
      OverIsNotKicked(m.limits, m.kicked, WindowAt(m.lastSeen, active, now, e), e);
    }
  }

  /** What is recorded before anybody is acted on. */
  lemma NobodyYet(m: Memory, m': Memory, now: Time, active: map<Email, set<Ip>>)
    requires m'.clock == now && m'.limits == m.limits && m'.kicked == m.kicked
    requires forall e :: SeenBy(m'.lastSeen, e) == WithActive(SeenBy(m.lastSeen, e), ActiveOf(active, e), now)
    requires forall e :: HistoryOf(m'.history, e) == HistoryOf(m.history, e)
                + if e in m.limits then [VerdictOn(m.limits, m.kicked, WindowAt(m.lastSeen, active, now, e), e)] else []
    ensures Records(m, m', now, active, {}, {})
  {
    hide SeenBy, HistoryOf, KickMark, VerdictOn, WindowAt, WithActive, ActiveOf;
    assert forall h: seq<Verdict> :: h + [] == h;
  }

  /** Who is acted on is recorded on top of what every poll records. */
  lemma Recorded(m: Memory, mid: Memory, m': Memory, now: Time, active: map<Email, set<Ip>>, kicks: set<Email>,
                 readmits: set<Email>)
    requires Records(m, mid, now, active, {}, {}) && m'.clock == mid.clock && m'.limits == mid.limits
    requires forall e :: KickMark(m'.kicked, e) ==
                if e in kicks then Some(now) else if e in readmits then None else KickMark(mid.kicked, e)
    requires forall e :: SeenBy(m'.lastSeen, e) ==
                if e in kicks || e in readmits then map[] else SeenBy(mid.lastSeen, e)
    requires forall e :: HistoryOf(m'.history, e) ==
                HistoryOf(mid.history, e) + if e in kicks || e in readmits then [Cleared] else []
    ensures Records(m, m', now, active, kicks, readmits)
  {
    hide SeenBy, HistoryOf, KickMark, VerdictOn, WindowAt, WithActive, ActiveOf;
    assert forall h: seq<Verdict> :: h + [] == h;
  }

  lemma MarksAfter(m: Memory, m': Memory, now: Time, active: map<Email, set<Ip>>, kicks: set<Email>,
                   readmits: set<Email>)
    requires Records(m, m', now, active, kicks, readmits)
    ensures m'.kicked.Keys == (m.kicked.Keys - readmits) + kicks && m'.limits == m.limits
  {
    hide SeenBy, HistoryOf, VerdictOn, WithActive;
    forall e
      ensures e in m'.kicked <==> e in kicks || (e in m.kicked && e !in readmits)
    {
      assert KickMark(m'.kicked, e).Some? <==> e in m'.kicked;
    }
  }

  /** The endpoints a poll counts for a user: those shown now, and those last seen at most two minutes ago,
      since its last clear. */
  ghost function Counts(m: Memory, now: Time, active: map<Email, set<Ip>>, e: Email): set<Ip> {
    (if e in active then active[e] else {})
    + (if e in m.lastSeen then (set ip | ip in m.lastSeen[e] && now - m.lastSeen[e][ip] <= 120) else {})
  }

  lemma CountsAreWindow(m: Memory, now: Time, active: map<Email, set<Ip>>, e: Email)
    ensures Counts(m, now, active, e) == WindowAt(m.lastSeen, active, now, e).Keys
    ensures |Counts(m, now, active, e)| == |WindowAt(m.lastSeen, active, now, e)|
  {
    assert Counts(m, now, active, e) == WindowAt(m.lastSeen, active, now, e).Keys;
  }

  /** A user is kicked if and only if the kernel can be told, it has a positive limit and is not out already,
      more endpoints count than the limit allows, and an earlier such poll still stands: no poll within the
      limit, kick or re-admission came after it. */
  lemma KickMeans(m: Memory, m': Memory, now: Time, active: map<Email, set<Ip>>, stored: set<Email>,
                  refused: set<Email>, kicks: set<Email>, readmits: set<Email>, e: Email)
    requires Polled(m, m', now, active, stored, refused, kicks, readmits)
    ensures e in kicks <==>
            && e in stored && e !in refused && e in m.limits && m.limits[e] > 0 && e !in m.kicked
            && |Counts(m, now, active, e)| > m.limits[e]
            && exists j :: OverSince(HistoryOf(m.history, e), j)
  {
    CountsAreWindow(m, now, active, e);
    StreakOfOne(HistoryOf(m.history, e));
    hide WindowAt, Counts, HistoryOf, Records;
  }

  /** What a poll writes down for a user: over its limit, within it, or not looked at. */
  lemma VerdictMeans(m: Memory, m': Memory, now: Time, active: map<Email, set<Ip>>, stored: set<Email>,
                     refused: set<Email>, kicks: set<Email>, readmits: set<Email>, e: Email)
    requires Polled(m, m', now, active, stored, refused, kicks, readmits) && e in m.limits
    ensures var h, h' := HistoryOf(m.history, e), HistoryOf(m'.history, e);
            && |h| < |h'| && h'[..|h|] == h
            && (h'[|h|] == Over <==>
                  e !in m.kicked && m.limits[e] > 0 && |Counts(m, now, active, e)| > m.limits[e])
            && (h'[|h|] == Under <==>
                  e !in m.kicked && m.limits[e] > 0 && |Counts(m, now, active, e)| <= m.limits[e])
            && (h'[|h|] == Skipped <==> e in m.kicked || m.limits[e] == 0)
            && h'[|h| + 1..] == if e in kicks || e in readmits then [Cleared] else []
  {
    CountsAreWindow(m, now, active, e);
    hide WindowAt, Counts, ActsOn;
    var h, h' := HistoryOf(m.history, e), HistoryOf(m'.history, e);
    var v := VerdictOn(m.limits, m.kicked, WindowAt(m.lastSeen, active, now, e), e);
    assert h' == h + [v] + if e in kicks || e in readmits then [Cleared] else [];
  }

  /** A kicked user is re-admitted if and only if the kernel can be told, it still has a limit, and a minute
      has passed. */
  lemma ReadmitMeans(m: Memory, m': Memory, now: Time, active: map<Email, set<Ip>>, stored: set<Email>,
                     refused: set<Email>, kicks: set<Email>, readmits: set<Email>, e: Email)
    requires Polled(m, m', now, active, stored, refused, kicks, readmits)
    ensures e in readmits <==>
            e in stored && e !in refused && e in m.limits && e in m.kicked && now - m.kicked[e] >= 60
    ensures e in m'.kicked <==> e in kicks || (e in m.kicked && e !in readmits)
    ensures e in m'.kicked ==> m'.kicked[e] == if e in kicks then now else m.kicked[e]
  {
    hide VerdictOn, WindowAt, HistoryOf;
    assert KickMark(m'.kicked, e) ==
           if e in kicks then Some(now) else if e in readmits then None else KickMark(m.kicked, e);
  }

  // ----- Runs of polls -----

  datatype Poll = Poll(now: Time, active: map<Email, set<Ip>>, stored: set<Email>, refused: set<Email>,
                       kicks: set<Email>, readmits: set<Email>)

  /** Polls, each with the memory before and after it. Between them limits may change and marks be cleared,
      but only polls see anything. */
  ghost predicate PollRun(polls: seq<Poll>, before: seq<Memory>, after: seq<Memory>) {
    && |before| == |polls| && |after| == |polls|
    && (forall i :: 0 <= i < |polls| ==> before[i].clock <= polls[i].now)
    && (forall i :: 0 <= i < |polls| ==> PolledIn(polls[i], before[i], after[i]))
    && (forall i :: 0 < i < |polls| ==>
          before[i].lastSeen == after[i - 1].lastSeen && before[i].clock == after[i - 1].clock)
  }

  ghost predicate PolledIn(p: Poll, m: Memory, m': Memory) {
    Polled(m, m', p.now, p.active, p.stored, p.refused, p.kicks, p.readmits)
  }

  /** The endpoints shown for a user at the n-th poll and at the polls of the two minutes before it. */
  ghost function ShownWithin(polls: seq<Poll>, n: nat, e: Email): set<Ip>
    requires n < |polls|
  {
    set j, ip | 0 <= j <= n && polls[n].now - polls[j].now <= 120 && ip in ActiveOf(polls[j].active, e) :: ip
  }

  /** Every sighting remembered was made by some poll. */
  ghost predicate SeenInRun(polls: seq<Poll>, n: nat, m: Memory, e: Email)
    requires n <= |polls|
  {
    forall ip :: ip in SeenBy(m.lastSeen, e) ==>
      exists j :: 0 <= j < n && polls[j].now == SeenBy(m.lastSeen, e)[ip] && ip in ActiveOf(polls[j].active, e)
  }

  lemma PollKeepsSeen(polls: seq<Poll>, n: nat, m: Memory, m': Memory, e: Email)
    requires n < |polls| && PolledIn(polls[n], m, m') && SeenInRun(polls, n, m, e)
    ensures SeenInRun(polls, n + 1, m', e)
  {
    hide ActsOn, VerdictOn, HistoryOf, WindowAt;
    var p := polls[n];
    forall ip | ip in SeenBy(m'.lastSeen, e)
      ensures exists j :: 0 <= j < n + 1 && polls[j].now == SeenBy(m'.lastSeen, e)[ip]
                          && ip in ActiveOf(polls[j].active, e)
    {
      if ip in ActiveOf(p.active, e) {
        assert polls[n].now == SeenBy(m'.lastSeen, e)[ip];
      } else {
        var j :| 0 <= j < n && polls[j].now == SeenBy(m.lastSeen, e)[ip] && ip in ActiveOf(polls[j].active, e);
        assert polls[j].now == SeenBy(m'.lastSeen, e)[ip];
      }
    }
  }

  lemma {:induction false} RunSeesOnlyShown(polls: seq<Poll>, before: seq<Memory>, after: seq<Memory>, n: nat, e: Email)
    requires PollRun(polls, before, after) && n < |polls| && SeenBy(before[0].lastSeen, e) == map[]
    ensures SeenInRun(polls, n, before[n], e)
    decreases n
  {
    hide PolledIn, SeenBy, SeenInRun;
    if n == 0 {
      NothingSeen(polls, before[0], e);
    } else {
      RunSeesOnlyShown(polls, before, after, n - 1, e);
      PollKeepsSeen(polls, n - 1, before[n - 1], after[n - 1], e);
      SameSeen(polls, n, after[n - 1], before[n], e);
    }
  }

  lemma NothingSeen(polls: seq<Poll>, m: Memory, e: Email)
    requires SeenBy(m.lastSeen, e) == map[]
    ensures SeenInRun(polls, 0, m, e)
  {
  }

  lemma SameSeen(polls: seq<Poll>, n: nat, m: Memory, m': Memory, e: Email)
    requires n <= |polls| && SeenInRun(polls, n, m, e) && m'.lastSeen == m.lastSeen
    ensures SeenInRun(polls, n, m', e)
  {
  }

  lemma CountsAreShown(polls: seq<Poll>, n: nat, m: Memory, e: Email)
    requires n < |polls| && SeenInRun(polls, n, m, e)
    ensures Counts(m, polls[n].now, polls[n].active, e) <= ShownWithin(polls, n, e)
  {
    forall ip | ip in Counts(m, polls[n].now, polls[n].active, e)
      ensures ip in ShownWithin(polls, n, e)
    {
      if ip in ActiveOf(polls[n].active, e) {
        assert polls[n].now - polls[n].now <= 120;
      } else {
        assert ip in SeenBy(m.lastSeen, e) && polls[n].now - SeenBy(m.lastSeen, e)[ip] <= 120;
        assert exists j :: 0 <= j < n && polls[j].now == SeenBy(m.lastSeen, e)[ip]
                           && ip in ActiveOf(polls[j].active, e);
        var j :| 0 <= j < n && polls[j].now == SeenBy(m.lastSeen, e)[ip] && ip in ActiveOf(polls[j].active, e);
      }
    }
  }

  lemma FewerOf(a: set<Ip>, b: set<Ip>)
    requires a <= b
    ensures |a| <= |b|
  {
    assert b == a + (b - a);
    assert |b| == |a| + |b - a|;
  }

  /** In no run of polls is a user kicked of whom never more endpoints than its limit are shown within two
      minutes, whatever its limits are meanwhile. */
  lemma WithinItsLimitIsNeverKicked(polls: seq<Poll>, before: seq<Memory>, after: seq<Memory>, e: Email)
    requires PollRun(polls, before, after)
    requires polls != [] ==> SeenBy(before[0].lastSeen, e) == map[]
    requires forall i :: 0 <= i < |polls| && e in before[i].limits && before[i].limits[e] > 0 ==>
               |ShownWithin(polls, i, e)| <= before[i].limits[e]
    ensures forall i :: 0 <= i < |polls| ==> e !in polls[i].kicks
  {
    hide SeenBy, SeenInRun, Counts, ShownWithin, Polled;
    forall i | 0 <= i < |polls|
      ensures e !in polls[i].kicks
    {
      var p := polls[i];
      RunSeesOnlyShown(polls, before, after, i, e);
      CountsAreShown(polls, i, before[i], e);
      FewerOf(Counts(before[i], p.now, p.active, e), ShownWithin(polls, i, e));
      assert PolledIn(p, before[i], after[i]);
      KickMeans(before[i], after[i], p.now, p.active, p.stored, p.refused, p.kicks, p.readmits, e);
    }
  }

  /** users[i] is the last entry of an email. */
  ghost predicate LastListed(users: seq<(Email, nat)>, i: int, e: Email) {
    0 <= i < |users| && users[i].0 == e && forall j :: i < j < |users| ==> users[j].0 != e
  }

  /** The limits remembered: of every listed email the last one listed, of any other what was there. */
  lemma {:induction false} RememberedMeans(limits: map<Email, nat>, users: seq<(Email, nat)>, e: Email)
    ensures e != "" ==> forall i :: LastListed(users, i, e) ==>
              e in Remembered(limits, users) && Remembered(limits, users)[e] == users[i].1
    ensures e == "" || (forall i :: !LastListed(users, i, e)) ==>
              && (e in Remembered(limits, users) <==> e in limits)
              && (e in limits ==> Remembered(limits, users)[e] == limits[e])
    decreases |users|
  {
    if users != [] {
      var init, n := users[..|users| - 1], |users| - 1;
      RememberedMeans(limits, init, e);
      if users[n].0 == e {
        assert LastListed(users, n, e);
      } else {
        forall i
          ensures LastListed(users, i, e) <==> LastListed(init, i, e)
        {
          NotTheLast(users, i, e);
        }
        hide LastListed;
        forall i | LastListed(users, i, e)
          ensures 0 <= i < n && init[i] == users[i]
        {
          ListedIn(init, i, e);
        }
      }
    }
  }

  lemma ListedIn(users: seq<(Email, nat)>, i: int, e: Email)
    requires LastListed(users, i, e)
    ensures 0 <= i < |users|
  {
  }

  lemma NotTheLast(users: seq<(Email, nat)>, i: int, e: Email)
    requires users != [] && users[|users| - 1].0 != e
    ensures LastListed(users, i, e) <==> LastListed(users[..|users| - 1], i, e)
  {
    var init := users[..|users| - 1];
    if LastListed(init, i, e) {
      forall j | i < j < |users|
        ensures users[j].0 != e
      {
        assert j < |init| ==> init[j] == users[j];
      }
    }
    if LastListed(users, i, e) {
      assert forall j :: i < j < |init| ==> init[j] == users[j];
    }
  }

  /** Nothing was seen of a user in the last WINDOW seconds, or since its last clear. */
  ghost predicate Quiet(m: Memory, e: Email) {
    Recent(SeenBy(m.lastSeen, e), m.clock) == map[]
  }

  /** A quiet user that no endpoint is shown for is not kicked, and stays quiet. */
  lemma QuietIsSpared(m: Memory, m': Memory, now: Time, active: map<Email, set<Ip>>, stored: set<Email>,
                      refused: set<Email>, kicks: set<Email>, readmits: set<Email>, e: Email)
    requires Polled(m, m', now, active, stored, refused, kicks, readmits) && m.clock <= now
    requires Quiet(m, e) && ActiveOf(active, e) == {}
    ensures e !in kicks && Quiet(m', e)
  {
    hide Recent, WithActive, Streak, HistoryOf;
    QuietWindow(SeenBy(m.lastSeen, e), m.clock, now);
    NobodyActive(SeenBy(m.lastSeen, e), now);
  }

  lemma QuietWindow(seen: map<Ip, Time>, clock: Time, now: Time)
    requires clock <= now && Recent(seen, clock) == map[]
    ensures Recent(seen, now) == map[]
  {
    forall ip
      ensures ip !in Recent(seen, now)
    {
      assert ip !in Recent(seen, clock);
    }
  }

  /** A user that a poll kicks or re-admits is quiet afterwards. */
  lemma ActedOnIsQuiet(m: Memory, m': Memory, now: Time, active: map<Email, set<Ip>>, stored: set<Email>,
                       refused: set<Email>, kicks: set<Email>, readmits: set<Email>, e: Email)
    requires Polled(m, m', now, active, stored, refused, kicks, readmits) && (e in kicks || e in readmits)
    ensures Quiet(m', e)
  {
    hide Streak, HistoryOf, VerdictOn, ActsOn;
    NobodyActive(map[], now);
  }

  class Limiter {
    var limits: map<Email, nat>
    var window: Sightings
    var strikes: map<Email, nat>
    var kicked: map<Email, Time>

    /** Every endpoint of a user since its last clear, with when it was last seen; every verdict on a
        user; the time of the last poll. */
    ghost var lastSeen: Sightings
    ghost var history: map<Email, seq<Verdict>>
    ghost var clock: Time

    ghost function Recalls(): Memory
      reads this
    {
      Memory(limits, kicked, lastSeen, history, clock)
    }

    /** The window holds exactly the endpoints seen in the last WINDOW seconds since the user's last clear,
        the strikes are the current streak, and nobody is both kicked and accumulating strikes. */
    ghost predicate Valid()
      reads this
    {
      && (forall e :: WindowOk(window, lastSeen, clock, e))
      && (forall e :: StrikesOk(strikes, kicked, history, e))
    }

    constructor ()
      ensures Valid() && clock == 0 && limits == map[] && kicked == map[] && lastSeen == map[] && history == map[]
    {
      limits, window, strikes, kicked := map[], map[], map[], map[];
      lastSeen, history, clock := map[], map[], 0;
    }

    /** Quiet is what the window says, so a caller can look. */
    lemma QuietIffUnseen(e: Email)
      requires Valid()
      ensures Quiet(Recalls(), e) <==> SeenBy(window, e) == map[]
    {
      assert WindowOk(window, lastSeen, clock, e);
    }

    /** rememberLimits: a full list replaces the limits; a partial one updates them and clears the kicks
        of the users it names. */
    method RememberLimits(users: seq<(Email, nat)>, replace: bool)
      requires Valid()
      modifies this`limits, this`kicked
      ensures Valid()
      ensures replace ==> kicked == old(kicked)
      ensures !replace ==> forall e :: e in kicked <==> e in old(kicked) && forall u :: u in users ==>
                u.0 != e || e == ""
      ensures forall e :: e in kicked ==> e in old(kicked) && kicked[e] == old(kicked)[e]
      ensures limits == Remembered(if replace then map[] else old(limits), users)
    {
      if replace {
        limits := map[];
      }
      ghost var base := limits;
      for i := 0 to |users|
        invariant limits == Remembered(base, users[..i])
        invariant replace ==> kicked == old(kicked)
        invariant !replace ==> forall e :: e in kicked <==> e in old(kicked) && forall u :: u in users[..i] ==>
                u.0 != e || e == ""
        invariant forall e :: e in kicked ==> e in old(kicked) && kicked[e] == old(kicked)[e]
      {
        assert users[..i + 1] == users[..i] + [users[i]];
        assert users[..i + 1][..i] == users[..i];
        var e := users[i].0;
        if e != "" {
          limits := limits[e := users[i].1];
          if !replace {
            kicked := kicked - {e};
          }
        }
      }
      assert users[..|users|] == users;
      forall e
        ensures StrikesOk(strikes, kicked, history, e)
      {
        assert StrikesOk(strikes, old(kicked), history, e);
      }
    }

    /** enforceIpLimits. stored are the users the peer store knows, refused those whose kernel call fails;
        the results are the users the kernel was told to remove and to add. */
    method EnforceIpLimits(now: Time, active: map<Email, set<Ip>>, stored: set<Email>, refused: set<Email>)
      returns (kicks: set<Email>, readmits: set<Email>)
      requires Valid() && clock <= now
      modifies this`window, this`strikes, this`kicked, this`lastSeen, this`history, this`clock
      ensures Valid()
      ensures Polled(old(Recalls()), Recalls(), now, active, stored, refused, kicks, readmits)
    {
      hide Valid, ActsOn, Records, SeenBy, HistoryOf, KickMark;
      ghost var m := Recalls();
      kicks, readmits := Choose(now, active, stored, refused);
      ghost var mid := Recalls();
      ActsApart(m, now, active, stored, refused, kicks, readmits);
      Act(kicks, readmits, now);
      Recorded(m, mid, Recalls(), now, active, kicks, readmits);
    }

    /** Everything but the kernel's part: the sightings, the verdicts, and whom the kernel will act on. */
    method Choose(now: Time, active: map<Email, set<Ip>>, stored: set<Email>, refused: set<Email>)
      returns (kicks: set<Email>, readmits: set<Email>)
      requires Valid() && clock <= now
      modifies this`window, this`strikes, this`lastSeen, this`history, this`clock
      ensures Valid()
      ensures ActsOn(old(Recalls()), now, active, stored, refused, kicks, readmits)
      ensures Records(old(Recalls()), Recalls(), now, active, {}, {})
    {
      hide Valid, Streak, VerdictOn, WindowAt, WindowOk, StrikesOk, SeenBy, HistoryOf, Recent, WithActive, ActiveOf,
        KickMark;
      ghost var m := Recalls();
      Observe(now, active);
      var toKick, toReadmit := Judge(now, m.lastSeen, active);
      kicks, readmits := (toKick * stored) - refused, (toReadmit * stored) - refused;
      hide Records;
      NobodyYet(m, Recalls(), now, active);
    }

    /** The sightings of this poll are folded in, and the window is again the recent part of them. */
    method Observe(now: Time, active: map<Email, set<Ip>>)
      requires Valid() && clock <= now
      modifies this`window, this`lastSeen, this`clock
      ensures Valid() && clock == now
      ensures forall e :: SeenBy(lastSeen, e) == WithActive(SeenBy(old(lastSeen), e), ActiveOf(active, e), now)
      ensures forall e :: SeenBy(window, e) == WindowAt(old(lastSeen), active, now, e)
    {
      hide Streak, Recent, WithActive, StrikesOk, HistoryOf;
      FoldAndPrune(active, now);
      lastSeen := map e | e in lastSeen.Keys + active.Keys :: WithActive(SeenBy(lastSeen, e), ActiveOf(active, e), now);
      clock := now;
      forall e
        ensures SeenBy(window, e) == WindowAt(old(lastSeen), active, now, e)
        ensures SeenBy(lastSeen, e) == WithActive(SeenBy(old(lastSeen), e), ActiveOf(active, e), now)
        ensures WindowOk(window, lastSeen, now, e)
      {
        NobodyActive(SeenBy(old(lastSeen), e), now);
        FoldedWindow(old(window), old(lastSeen), old(clock), active, now, e);
      }
    }

    /** The decision step, with the verdicts recorded. */
    method Judge(now: Time, ghost seen: Sightings, ghost active: map<Email, set<Ip>>)
      returns (toKick: set<Email>, toReadmit: set<Email>)
      requires Valid()
      requires forall e :: SeenBy(window, e) == WindowAt(seen, active, now, e)
      modifies this`strikes, this`history
      ensures Valid()
      ensures forall e :: e in toKick <==>
                  VerdictOn(limits, kicked, WindowAt(seen, active, now, e), e) == Over
                      && Streak(HistoryOf(old(history), e)) + 1 >= STRIKES
      ensures forall e :: e in toReadmit <==> e in limits && e in kicked && now - kicked[e] >= COOLDOWN
      ensures forall e :: HistoryOf(history, e) ==
                            HistoryOf(old(history), e)
                            + if e in limits then [VerdictOn(limits, kicked, WindowAt(seen, active, now, e), e)] else []
    {
      hide Streak, VerdictOn, WindowAt, SeenBy, WindowOk, Counted, StrikesOk;
      toKick, toReadmit := Decide(now);
      history := map e | e in history.Keys + limits.Keys ::
        HistoryOf(history, e) + if e in limits then [VerdictOn(limits, kicked, SeenBy(window, e), e)] else [];
      forall e
        ensures HistoryOf(history, e) ==
                HistoryOf(old(history), e)
                    + if e in limits then [VerdictOn(limits, kicked, WindowAt(seen, active, now, e), e)] else []
        ensures StrikesOk(strikes, kicked, history, e)
        ensures e in toKick <==>
                VerdictOn(limits, kicked, WindowAt(seen, active, now, e), e) == Over
                    && Streak(HistoryOf(old(history), e)) + 1 >= STRIKES
      {
        var v := VerdictOn(limits, kicked, SeenBy(window, e), e);
        var h := HistoryOf(old(history), e);
        assert HistoryOf(history, e) == h + if e in limits then [v] else [] by {
          if e !in limits && e !in old(history) {
            assert e !in history;
          }
        }
        StrikesFollow(old(strikes), strikes, limits, kicked, SeenBy(window, e), old(history), history, e);
      }
    }

    /** Steps over the window: this poll's endpoints are stamped, stale ones and emptied users go. */
    method FoldAndPrune(active: map<Email, set<Ip>>, now: Time)
      modifies this`window
      ensures forall e :: SeenBy(window, e) == Recent(WithActive(SeenBy(old(window), e), ActiveOf(active, e), now), now)
    {
      hide Recent, WithActive, SeenBy, ActiveOf;
      Fold(active, now);
      PruneAll(now);
    }

    method Fold(active: map<Email, set<Ip>>, now: Time)
      modifies this`window
      ensures forall e :: SeenBy(window, e) == WithActive(SeenBy(old(window), e), ActiveOf(active, e), now)
    {
      hide WithActive;
      var todo := active.Keys;
      while todo != {}
        invariant todo <= active.Keys
        invariant forall e :: e in todo || e !in active ==> SeenBy(window, e) == SeenBy(old(window), e)
        invariant forall e :: e in active && e !in todo ==>
                SeenBy(window, e) == WithActive(SeenBy(old(window), e), active[e], now)
        decreases |todo|
      {
        var e :| e in todo;
        todo := todo - {e};
        var w := if e in window then window[e] else map[];
        w := Stamp(w, active[e], now);
        window := window[e := w];
      }
      forall e
        ensures SeenBy(window, e) == WithActive(SeenBy(old(window), e), ActiveOf(active, e), now)
      {
        NobodyActive(SeenBy(old(window), e), now);
      }
    }

    method PruneAll(now: Time)
      modifies this`window
      ensures forall e :: SeenBy(window, e) == Recent(SeenBy(old(window), e), now)
    {
      hide Recent, SeenBy;
      NobodySeen(window, now);
      var todo := window.Keys;
      while todo != {}
        invariant todo <= old(window).Keys && todo <= window.Keys
        invariant forall e :: e in todo ==> SeenBy(window, e) == SeenBy(old(window), e)
        invariant forall e :: e !in todo ==> SeenBy(window, e) == Recent(SeenBy(old(window), e), now)
        decreases |todo|
      {
        var e :| e in todo;
        todo := todo - {e};
        PruneOne(e, now);
      }
    }

    method PruneOne(email: Email, now: Time)
      requires email in window
      modifies this`window
      ensures SeenBy(window, email) == Recent(SeenBy(old(window), email), now)
      ensures forall e :: e != email ==>
                SeenBy(window, e) == SeenBy(old(window), e) && (e in old(window) ==> e in window)
    {
      hide Recent;
      var w := Prune(window[email], now);
      window := window[email := w];
      if |w| == 0 {
        window := window - {email};
      }
    }

    static method Stamp(seen: map<Ip, Time>, ips: set<Ip>, now: Time) returns (w: map<Ip, Time>)
      ensures w == WithActive(seen, ips, now)
    {
      w := seen;
      var todo := ips;
      while todo != {}
        invariant todo <= ips
        invariant forall ip :: ip in w <==> ip in seen || (ip in ips && ip !in todo)
        invariant forall ip :: ip in w ==> w[ip] == if ip in ips && ip !in todo then now else seen[ip]
        decreases |todo|
      {
        var ip :| ip in todo;
        todo := todo - {ip};
        w := w[ip := now];
      }
    }

    static method Prune(seen: map<Ip, Time>, now: Time) returns (w: map<Ip, Time>)
      ensures w == Recent(seen, now)
    {
      w := seen;
      var todo := seen.Keys;
      while todo != {}
        invariant todo <= seen.Keys
        invariant forall ip :: ip in w <==> ip in seen && (ip in todo || now - seen[ip] <= WINDOW)
        invariant forall ip :: ip in w ==> w[ip] == seen[ip]
        decreases |todo|
      {
        var ip :| ip in todo;
        todo := todo - {ip};
        if now - w[ip] > WINDOW {
          w := w - {ip};
        }
      }
    }

    /** Strikes are counted, and the users due for a kick or a re-admission collected. */
    method Decide(now: Time) returns (toKick: set<Email>, toReadmit: set<Email>)
      modifies this`strikes
      ensures forall e :: Counted(old(strikes), strikes, VerdictOn(limits, kicked, SeenBy(window, e), e), e)
      ensures forall e :: e in toKick <==>
                  VerdictOn(limits, kicked, SeenBy(window, e), e) == Over && e in strikes && strikes[e] >= STRIKES
      ensures forall e :: e in toReadmit <==> e in limits && e in kicked && now - kicked[e] >= COOLDOWN
    {
      hide SeenBy, VerdictOn, Counted, Decided;
      toKick, toReadmit := {}, {};
      var todo := limits.Keys;
      forall e
        ensures Decided(strikes, strikes, toKick, toReadmit, Skipped, false, e)
        ensures e !in limits ==> VerdictOn(limits, kicked, SeenBy(window, e), e) == Skipped
      {
        NothingDecided(strikes, limits, kicked, SeenBy(window, e), e);
      }
      while todo != {}
        invariant todo <= limits.Keys
        invariant forall e :: Decided(old(strikes), strikes, toKick, toReadmit,
                                      if e in todo then Skipped else VerdictOn(limits, kicked, SeenBy(window, e), e),
                                      e in limits && e !in todo && e in kicked && now - kicked[e] >= COOLDOWN, e)
        decreases |todo|
      {
        ghost var was, kicks, readmits := strikes, toKick, toReadmit;
        var email :| email in todo;
        assert Decided(old(strikes), was, kicks, readmits, Skipped, false, email);
        todo := todo - {email};
        var kick, readmit := DecideOn(email, now);
        if kick {
          toKick := toKick + {email};
        }
        if readmit {
          toReadmit := toReadmit + {email};
        }
        forall e
          ensures Decided(old(strikes), strikes, toKick, toReadmit,
                          if e in todo then Skipped else VerdictOn(limits, kicked, SeenBy(window, e), e),
                          e in limits && e !in todo && e in kicked && now - kicked[e] >= COOLDOWN, e)
        {
          if e == email {
            DecidedNow(old(strikes), was, strikes, kicks, readmits, toKick, toReadmit,
                VerdictOn(limits, kicked, SeenBy(window, e), e), readmit, e);
          } else {
            var v := if e in todo then Skipped else VerdictOn(limits, kicked, SeenBy(window, e), e);
            var due := e in limits && e !in todo && e in kicked && now - kicked[e] >= COOLDOWN;
            assert Decided(old(strikes), was, kicks, readmits, v, due, e);
            DecidedStill(old(strikes), was, strikes, kicks, readmits, toKick, toReadmit, v, due, e);
          }
        }
      }
      forall e
        ensures Counted(old(strikes), strikes, VerdictOn(limits, kicked, SeenBy(window, e), e), e)
        ensures e in toKick <==>
                  VerdictOn(limits, kicked, SeenBy(window, e), e) == Over && e in strikes && strikes[e] >= STRIKES
        ensures e in toReadmit <==> e in limits && e in kicked && now - kicked[e] >= COOLDOWN
      {
        assert Decided(old(strikes), strikes, toKick, toReadmit, VerdictOn(limits, kicked, SeenBy(window, e), e),
                       e in limits && e in kicked && now - kicked[e] >= COOLDOWN, e);
        DecidedMeans(old(strikes), strikes, toKick, toReadmit, VerdictOn(limits, kicked, SeenBy(window, e), e),
                     e in limits && e in kicked && now - kicked[e] >= COOLDOWN, e);
      }
    }

    method DecideOn(email: Email, now: Time) returns (kick: bool, readmit: bool)
      requires email in limits
      modifies this`strikes
      ensures Counted(old(strikes), strikes, VerdictOn(limits, kicked, SeenBy(window, email), email), email)
      ensures forall e :: e != email ==> Counted(old(strikes), strikes, Skipped, e)
      ensures kick <==>
                && VerdictOn(limits, kicked, SeenBy(window, email), email) == Over
                && email in strikes && strikes[email] >= STRIKES
      ensures readmit <==> email in kicked && now - kicked[email] >= COOLDOWN
    {
      kick, readmit := false, false;
      var limit := limits[email];
      if email in kicked {
        readmit := now - kicked[email] >= COOLDOWN;
        return;
      }
      if limit == 0 {
        return;
      }
      var count := if email in window then |window[email]| else 0;
      if count > limit {
        strikes := strikes[email := (if email in strikes then strikes[email] else 0) + 1];
        kick := strikes[email] >= STRIKES;
      } else {
        strikes := strikes - {email};
      }
    }

    /** The kernel has done what was asked: kicked users are marked, and both kinds start afresh. */
    method Act(kicks: set<Email>, readmits: set<Email>, now: Time)
      requires Valid() && kicks !! readmits
      modifies this`window, this`strikes, this`kicked, this`lastSeen, this`history
      ensures Valid()
      ensures forall e :: KickMark(kicked, e) ==
                  if e in kicks then Some(now) else if e in readmits then None else KickMark(old(kicked), e)
      ensures forall e :: SeenBy(lastSeen, e) == if e in kicks || e in readmits then map[] else SeenBy(old(lastSeen), e)
      ensures forall e :: HistoryOf(history, e) ==
                            HistoryOf(old(history), e) + if e in kicks || e in readmits then [Cleared] else []
    {
      hide Valid, SeenBy, HistoryOf, KickMark;
      var acted := kicks + readmits;
      var todo := acted;
      while todo != {}
        invariant todo <= acted
        invariant Valid()
        invariant forall e :: e in todo || e !in acted ==> KickMark(kicked, e) == KickMark(old(kicked), e)
        invariant forall e :: e in todo || e !in acted ==>
                SeenBy(lastSeen, e) == SeenBy(old(lastSeen), e) && HistoryOf(history, e) == HistoryOf(old(history), e)
        invariant forall e :: e !in todo && e in acted ==> KickMark(kicked, e) == if e in kicks then Some(now) else None
        invariant forall e :: e !in todo && e in acted ==>
                SeenBy(lastSeen, e) == map[] && HistoryOf(history, e) == HistoryOf(old(history), e) + [Cleared]
        decreases |todo|
      {
        var e :| e in todo;
        todo := todo - {e};
        ActOn(e, e in kicks, now);
      }
    }

    method ActOn(email: Email, kick: bool, now: Time)
      requires Valid()
      modifies this`window, this`strikes, this`kicked, this`lastSeen, this`history
      ensures Valid()
      ensures KickMark(kicked, email) == if kick then Some(now) else None
      ensures SeenBy(lastSeen, email) == map[]
                && HistoryOf(history, email) == HistoryOf(old(history), email) + [Cleared]
      ensures forall e :: e != email ==> KickMark(kicked, e) == KickMark(old(kicked), e)
      ensures forall e :: e != email ==>
                SeenBy(lastSeen, e) == SeenBy(old(lastSeen), e) && HistoryOf(history, e) == HistoryOf(old(history), e)
    {
      if kick {
        kicked := kicked[email := now];
      } else {
        kicked := kicked - {email};
      }
      strikes := strikes - {email};
      window := window - {email};
      lastSeen := lastSeen - {email};
      history := history[email := HistoryOf(history, email) + [Cleared]];
      hide WindowOk, StrikesOk, Streak;
      forall e
        ensures WindowOk(window, lastSeen, clock, e) && StrikesOk(strikes, kicked, history, e)
      {
        ClearedOk(old(window), old(lastSeen), clock, old(strikes), old(kicked), kicked, old(history), email, e);
      }
    }
  }

  /** A user's window, sightings and strikes cleared after a kick or a re-admission. */
  lemma ClearedOk(window: Sightings, lastSeen: Sightings, clock: Time, strikes: map<Email, nat>,
                  kicked: map<Email, Time>, kicked': map<Email, Time>, history: map<Email, seq<Verdict>>, email: Email,
                  e: Email)
    requires WindowOk(window, lastSeen, clock, e) && StrikesOk(strikes, kicked, history, e)
    requires e != email ==> KickMark(kicked', e) == KickMark(kicked, e)
    ensures WindowOk(window - {email}, lastSeen - {email}, clock, e)
    ensures StrikesOk(strikes - {email}, kicked', history[email := HistoryOf(history, email) + [Cleared]], e)
  {
    hide Recent;
    NobodyActive(map[], clock);
    StreakStep(HistoryOf(history, email), Cleared);
  }

  /** How one poll changes a user's strikes. */
  ghost predicate Counted(before: map<Email, nat>, after: map<Email, nat>, v: Verdict, e: Email) {
    match v
    case Over => e in after && after[e] == (if e in before then before[e] else 0) + 1
    case Under => e !in after
    case _ => (e in after <==> e in before) && (e in after ==> after[e] == before[e])
  }

  /** Where the decision step stands with a user: its strikes and whether it is to be kicked or re-admitted. */
  ghost predicate Decided(before: map<Email, nat>, after: map<Email, nat>, toKick: set<Email>, toReadmit: set<Email>,
                          v: Verdict, due: bool, e: Email) {
    && Counted(before, after, v, e)
    && (e in toKick <==> v == Over && e in after && after[e] >= STRIKES)
    && (e in toReadmit <==> due)
  }

  lemma NothingDecided(strikes: map<Email, nat>, limits: map<Email, nat>, kicked: map<Email, Time>, w: map<Ip, Time>,
                       e: Email)
    ensures Decided(strikes, strikes, {}, {}, Skipped, false, e)
    ensures e !in limits ==> VerdictOn(limits, kicked, w, e) == Skipped
  {
  }

  lemma DecidedNow(before: map<Email, nat>, was: map<Email, nat>, after: map<Email, nat>, kicks: set<Email>,
                   readmits: set<Email>, toKick: set<Email>, toReadmit: set<Email>, v: Verdict, due: bool, e: Email)
    requires Decided(before, was, kicks, readmits, Skipped, false, e) && Counted(was, after, v, e)
    requires e in toKick <==> e in kicks || (v == Over && e in after && after[e] >= STRIKES)
    requires e in toReadmit <==> e in readmits || due
    ensures Decided(before, after, toKick, toReadmit, v, due, e)
  {
  }

  lemma DecidedStill(before: map<Email, nat>, was: map<Email, nat>, after: map<Email, nat>, kicks: set<Email>,
                     readmits: set<Email>, toKick: set<Email>, toReadmit: set<Email>, v: Verdict, due: bool, e: Email)
    requires Decided(before, was, kicks, readmits, v, due, e) && Counted(was, after, Skipped, e)
    requires (e in toKick <==> e in kicks) && (e in toReadmit <==> e in readmits)
    ensures Decided(before, after, toKick, toReadmit, v, due, e)
  {
  }

  lemma DecidedMeans(before: map<Email, nat>, after: map<Email, nat>, toKick: set<Email>, toReadmit: set<Email>,
                     v: Verdict, due: bool, e: Email)
    requires Decided(before, after, toKick, toReadmit, v, due, e)
    ensures Counted(before, after, v, e)
    ensures e in toKick <==> v == Over && e in after && after[e] >= STRIKES
    ensures e in toReadmit <==> due
  {
  }

  lemma OverIsNotKicked(limits: map<Email, nat>, kicked: map<Email, Time>, w: map<Ip, Time>, e: Email)
    requires VerdictOn(limits, kicked, w, e) == Over
    ensures e in limits && e !in kicked && limits[e] > 0
  {
  }

  lemma StreakStep(h: seq<Verdict>, v: Verdict)
    ensures Streak(h + [v]) == match v
                               case Over => Streak(h) + 1
                               case Skipped => Streak(h)
                               case _ => 0
  {
    assert (h + [v])[..|h|] == h;
  }

  lemma NobodyActive(seen: map<Ip, Time>, now: Time)
    ensures WithActive(map[], {}, now) == map[] && WithActive(seen, {}, now) == seen && Recent(map[], now) == map[]
  {
  }

  /** A verdict recorded with its strike keeps the strikes the current streak, and a user reaches the
      strikes for a kick exactly when its streak does. */
  lemma StrikesFollow(before: map<Email, nat>, after: map<Email, nat>, limits: map<Email, nat>,
                      kicked: map<Email, Time>, w: map<Ip, Time>, was: map<Email, seq<Verdict>>,
                      history: map<Email, seq<Verdict>>, e: Email)
    requires StrikesOk(before, kicked, was, e) && Counted(before, after, VerdictOn(limits, kicked, w, e), e)
    requires HistoryOf(history, e) == HistoryOf(was, e) + if e in limits then [VerdictOn(limits, kicked, w, e)] else []
    ensures StrikesOk(after, kicked, history, e)
    ensures VerdictOn(limits, kicked, w, e) == Over ==> e in after && after[e] == Streak(HistoryOf(was, e)) + 1
  {
    hide Streak, HistoryOf;
    var h := HistoryOf(was, e);
    assert h + [] == h;
    StreakStep(h, VerdictOn(limits, kicked, w, e));
  }

  lemma NobodySeen(window: Sightings, now: Time)
    ensures forall e :: e !in window ==> SeenBy(window, e) == map[] && Recent(SeenBy(window, e), now) == map[]
  {
    NobodyActive(map[], now);
  }

  lemma FoldedWindow(window: Sightings, lastSeen: Sightings, clock: Time, active: map<Email, set<Ip>>, now: Time,
                     e: Email)
    requires WindowOk(window, lastSeen, clock, e) && clock <= now
    ensures Recent(WithActive(SeenBy(window, e), ActiveOf(active, e), now), now) == WindowAt(lastSeen, active, now, e)
    ensures forall ip :: ip in WithActive(SeenBy(lastSeen, e), ActiveOf(active, e), now) ==>
                           WithActive(SeenBy(lastSeen, e), ActiveOf(active, e), now)[ip] <= now
  {
    RecentAfterFold(SeenBy(lastSeen, e), clock, ActiveOf(active, e), now);
  }

  function Remembered(limits: map<Email, nat>, users: seq<(Email, nat)>): map<Email, nat>
    decreases |users|
  {
    if users == [] then limits
    else
      var m := Remembered(limits, users[..|users| - 1]);
      var u := users[|users| - 1];
      if u.0 == "" then m else m[u.0 := u.1]
  }
}
