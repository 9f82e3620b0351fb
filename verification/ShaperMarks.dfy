/** The traffic shaper's marks and class numbers: allocMark, classID and markValue in
    backend/ratelimit/apply.go. */
module ShaperMarks {
  import opened Wrappers

  type Address = string

  datatype Direction = Download | Upload

  const FIRST_MARK: nat := 0x0010_0000
  const MAX_CLIENTS: nat := 0xfe

  /** The minor number of a (client, direction) class: the mark's low 16 bits, shifted past the root. */
  function ClassId(mark: nat, dir: Direction): nat {
    (mark % 0x1_0000 + 1) * 2 + if dir == Upload then 1 else 0
  }

  /** mark | 0x8000 */
  function SetBit15(mark: nat): nat {
    if mark / 0x8000 % 2 == 1 then mark else mark + 0x8000
  }

  /** The firewall mark of a (client, direction) pair. */
  function MarkValue(mark: nat, dir: Direction): nat {
    if dir == Upload then SetBit15(mark) else mark
  }

  /** The first client's download class is 1:2 and its upload class 1:3; the next client's are 1:4 and 1:5, and
      so on, and an upload mark is the download mark with bit 15 set. */
  lemma NumbersMean(n: nat)
    requires n < 0xfe
    ensures InRange(0x10_0000 + n) && ROOT_MINOR == 0 && DEFAULT_MINOR == 1
    ensures ClassId(0x10_0000 + n, Download) == 2 * n + 2 && ClassId(0x10_0000 + n, Upload) == 2 * n + 3
    ensures MarkValue(0x10_0000 + n, Download) == 0x10_0000 + n
    ensures MarkValue(0x10_0000 + n, Upload) == 0x10_8000 + n
  {
  }

  /** At most 254 clients. */
  lemma RangeMeans(mark: nat)
    ensures InRange(mark) <==> 0x10_0000 <= mark < 0x10_0000 + 254
  {
  }

  const ROOT_MINOR: nat := 0
  const DEFAULT_MINOR: nat := 1

  predicate InRange(mark: nat) {
    FIRST_MARK <= mark < FIRST_MARK + MAX_CLIENTS
  }

  /** Over the marks the allocator can hand out, both encodings tell every (mark, direction) pair apart,
      no class is the root or the default class, and no firewall mark is the unmarked packet's zero. */
  lemma EncodingsAreInjective(m: nat, d: Direction, m': nat, d': Direction)
    requires InRange(m) && InRange(m')
    ensures ClassId(m, d) == ClassId(m', d') ==> m == m' && d == d'
    ensures MarkValue(m, d) == MarkValue(m', d') ==> m == m' && d == d'
    ensures ClassId(m, d) != ROOT_MINOR && ClassId(m, d) != DEFAULT_MINOR && MarkValue(m, d) != 0
  {
    assert m / 0x8000 == FIRST_MARK / 0x8000 && m' / 0x8000 == FIRST_MARK / 0x8000;
  }

  /** Bit 15 is the reason for the bound: 0x8000 clients on, an upload mark would be a download mark. */
  lemma EncodingsCollideBeyond()
    ensures MarkValue(FIRST_MARK, Upload) == MarkValue(FIRST_MARK + 0x8000, Download)
  {
  }

  /** The allocator: who holds which mark, which marks came back, and the next one never used. */
  datatype Marks = Marks(live: map<Address, nat>, freed: seq<nat>, next: nat)

  ghost predicate Distinct(xs: seq<nat>) {
    forall i, j :: 0 <= i < j < |xs| ==> xs[i] != xs[j]
  }

  ghost predicate Holds(m: Marks, n: nat) {
    exists a :: a in m.live && m.live[a] == n
  }

  /** Every mark is in the range handed out so far, and no live one is on the free list. */
  ghost predicate Ranged(m: Marks) {
    && (forall a :: a in m.live ==> FIRST_MARK <= m.live[a] < m.next && m.live[a] !in m.freed)
    && (forall n :: n in m.freed ==> FIRST_MARK <= n < m.next)
  }

  ghost predicate Covered(m: Marks) {
    forall n :: FIRST_MARK <= n < m.next ==> n in m.freed || Holds(m, n)
  }

  ghost predicate Unshared(m: Marks) {
    forall a, b :: a in m.live && b in m.live && a != b ==> m.live[a] != m.live[b]
  }

  /** Live and freed marks partition the range handed out so far, nobody shares a mark, and the range
      stays within the bound. The count is what makes the bound a bound on live clients. */
  ghost predicate Partition(m: Marks) {
    && FIRST_MARK <= m.next <= FIRST_MARK + MAX_CLIENTS
    && Ranged(m) && Covered(m) && Unshared(m) && Distinct(m.freed)
    && |m.live| + |m.freed| == m.next - FIRST_MARK
  }

  /** allocMark: the mark the address has, else the last one freed, else the next fresh one. */
  function Allocated(m: Marks, addr: Address): Option<Marks> {
    if addr in m.live then Some(m)
    else if m.freed != [] then
      Some(Marks(m.live[addr := m.freed[|m.freed| - 1]], m.freed[..|m.freed| - 1], m.next))
    else if m.next >= FIRST_MARK + MAX_CLIENTS then None
    else Some(Marks(m.live[addr := m.next], m.freed, m.next + 1))
  }

  function Released(m: Marks, addr: Address): Marks {
    if addr in m.live then Marks(m.live - {addr}, m.freed + [m.live[addr]], m.next) else m
  }

  lemma ReleaseKeepsPartition(m: Marks, addr: Address)
    requires Partition(m)
    ensures Partition(Released(m, addr))
  {
    var r := Released(m, addr);
    if addr in m.live {
      var n := m.live[addr];
      assert forall x :: x in r.freed <==> x in m.freed || x == n;
      forall x | FIRST_MARK <= x < r.next
        ensures x in r.freed || Holds(r, x)
      {
        if x !in m.freed && x != n {
          var a :| a in m.live && m.live[a] == x;
          assert a in r.live;
        }
      }
      assert |r.live| == |m.live| - 1;
    }
  }

  /** Allocation keeps the partition and everyone's mark, and fails only for a new address with
      MAX_CLIENTS live ones. */
  lemma AllocateKeepsPartition(m: Marks, addr: Address)
    requires Partition(m)
    ensures Allocated(m, addr).None? <==> addr !in m.live && |m.live| == MAX_CLIENTS
    ensures Allocated(m, addr).Some? ==>
              var r := Allocated(m, addr).value;
              && Partition(r) && r.live.Keys == m.live.Keys + {addr}
              && (forall a :: a in m.live ==> r.live[a] == m.live[a])
              && (addr !in m.live ==> r.live[addr] == if m.freed == [] then m.next else m.freed[|m.freed| - 1])
  {
    hide Ranged, Covered, Unshared, Distinct;
    if addr !in m.live && m.freed != [] {
      ReusedMark(m, addr, Allocated(m, addr).value);
    } else if addr !in m.live && m.next < FIRST_MARK + MAX_CLIENTS {
      FreshMark(m, addr, Allocated(m, addr).value);
    } else if addr in m.live {
      assert m.live.Keys + {addr} == m.live.Keys;
    }
  }

  lemma LastOut(xs: seq<nat>)
    requires Distinct(xs) && xs != []
    ensures Distinct(xs[..|xs| - 1]) && xs[|xs| - 1] !in xs[..|xs| - 1]
    ensures forall x :: x in xs <==> x in xs[..|xs| - 1] || x == xs[|xs| - 1]
  {
    assert xs == xs[..|xs| - 1] + [xs[|xs| - 1]];
  }

  lemma HoldersKeep(m: Marks, r: Marks, addr: Address)
    requires addr !in m.live && addr in r.live && r.live == m.live[addr := r.live[addr]]
    ensures forall x :: Holds(m, x) || x == r.live[addr] ==> Holds(r, x)
  {
    forall x | Holds(m, x)
      ensures Holds(r, x)
    {
      var a :| a in m.live && m.live[a] == x;
      assert r.live[a] == x;
    }
    assert Holds(r, r.live[addr]);
  }

  lemma ReusedMark(m: Marks, addr: Address, r: Marks)
    requires Partition(m) && addr !in m.live && m.freed != []
    requires r == Marks(m.live[addr := m.freed[|m.freed| - 1]], m.freed[..|m.freed| - 1], m.next)
    ensures Partition(r)
  {
    LastOut(m.freed);
    HoldersKeep(m, r, addr);
    assert Covered(r) by {
      forall x | FIRST_MARK <= x < r.next
        ensures x in r.freed || Holds(r, x)
      {
        assert x in m.freed || Holds(m, x);
      }
    }
    assert |r.live| == |m.live| + 1;
    assert Ranged(r) by {
      assert m.freed[|m.freed| - 1] in m.freed;
      forall a | a in r.live
        ensures FIRST_MARK <= r.live[a] < r.next && r.live[a] !in r.freed
      {
        assert a == addr || r.live[a] == m.live[a];
      }
      forall x | x in r.freed
        ensures FIRST_MARK <= x < r.next
      {
        assert x in m.freed;
      }
    }
    assert Unshared(r);
  }

  lemma FreshMark(m: Marks, addr: Address, r: Marks)
    requires Partition(m) && addr !in m.live && m.freed == [] && m.next < FIRST_MARK + MAX_CLIENTS
    requires r == Marks(m.live[addr := m.next], m.freed, m.next + 1)
    ensures Partition(r)
  {
    HoldersKeep(m, r, addr);
    assert Covered(r) by {
      forall x | FIRST_MARK <= x < r.next
        ensures Holds(r, x)
      {
        assert x == m.next || x in m.freed || Holds(m, x);
      }
    }
    assert |r.live| == |m.live| + 1;
    assert Ranged(r) && Unshared(r);
  }
}
