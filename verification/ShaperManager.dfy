/** ratelimit.Manager: Apply, Close and the steps between them. Map iteration and the sorted address
    list are left as an arbitrary order. The interface list is the one Apply reads once; ifaces is a set
    because shapingInterfaces lists each name once. */
module ShaperManager {
  import opened ShaperMarks
  import opened Shaper
  import opened Wrappers

  /** The clients a list asks to shape: the last entry of each address, zero limits and empty addresses
      not counted. */
  function Wanted(clients: seq<Client>): map<Address, Client>
    decreases |clients|
  {
    if clients == [] then map[]
    else
      var m := Wanted(clients[..|clients| - 1]);
      var c := clients[|clients| - 1];
      if c.address == "" || c.limitKbps == 0 then m else m[c.address := c]
  }

  /** clients[i] is the last entry of an address that asks for shaping. */
  ghost predicate LastAsking(clients: seq<Client>, i: int, a: Address) {
    && 0 <= i < |clients| && clients[i].address == a && a != "" && clients[i].limitKbps > 0
    && forall j :: i < j < |clients| && clients[j].address == a ==> clients[j].limitKbps == 0
  }

  /** An address is shaped if and only if some entry asks for it, and then as the last such entry says. */
  lemma {:induction false} WantedMeans(clients: seq<Client>, a: Address)
    ensures a in Wanted(clients) <==> exists i :: LastAsking(clients, i, a)
    ensures forall i :: LastAsking(clients, i, a) ==> a in Wanted(clients) && Wanted(clients)[a] == clients[i]
    decreases |clients|
  {
    if clients != [] {
      var init, n := clients[..|clients| - 1], |clients| - 1;
      if clients[n].address == a && a != "" && clients[n].limitKbps > 0 {
        assert LastAsking(clients, n, a);
      } else {
        WantedMeans(init, a);
        forall i
          ensures LastAsking(clients, i, a) <==> LastAsking(init, i, a)
        {
          NotTheLast(clients, i, a);
        }
        hide LastAsking;
        forall i | LastAsking(clients, i, a)
          ensures 0 <= i < |init| && init[i] == clients[i]
        {
          AskingIn(init, i, a);
        }
      }
    }
  }

  lemma AskingIn(clients: seq<Client>, i: int, a: Address)
    requires LastAsking(clients, i, a)
    ensures 0 <= i < |clients|
  {
  }

  lemma NotTheLast(clients: seq<Client>, i: int, a: Address)
    requires clients != []
    requires var c := clients[|clients| - 1]; !(c.address == a && a != "" && c.limitKbps > 0)
    ensures LastAsking(clients, i, a) <==> LastAsking(clients[..|clients| - 1], i, a)
  {
    var init := clients[..|clients| - 1];
    if LastAsking(init, i, a) {
      forall j | i < j < |clients| && clients[j].address == a
        ensures clients[j].limitKbps == 0
      {
        assert j < |init| ==> init[j] == clients[j];
      }
    }
    if LastAsking(clients, i, a) {
      assert forall j :: i < j < |init| ==> init[j] == clients[j];
    }
  }

  /** A tree the manager can account for: absent, or without strays. An interface that kept a tree while
      it was off the list may fail this, because nobody cleaned it there. */
  ghost predicate Tidy(trees: map<Iface, Tree>, i: Iface, applied: map<Address, Client>, live: map<Address, nat>) {
    i in trees ==> NoStray(trees[i], applied.Keys, live)
  }

  /** What the interface's tree keeps without the departed clients belongs to applied ones. */
  ghost predicate Clearable(trees: map<Iface, Tree>, i: Iface, gone: set<Address>, marks: map<Address, nat>,
                            applied: map<Address, Client>, live: map<Address, nat>) {
    i in trees ==> NoStray(Purged(trees[i], gone, marks), applied.Keys, live)
  }

  class Manager {
    const host: Host
    var applied: map<Address, Client>
    var marks: map<Address, nat>
    var freed: seq<nat>
    var nextMark: nat
    var ifaceSet: set<Iface>

    ghost function Allocator(): Marks
      reads this
    {
      Marks(marks, freed, nextMark)
    }

    ghost predicate Valid()
      reads this
    {
      Partition(Allocator()) && applied.Keys == marks.Keys
    }

    constructor (host: Host)
      ensures this.host == host && Valid() && applied == map[] && ifaceSet == {}
    {
      this.host := host;
      applied, marks, freed, nextMark, ifaceSet := map[], map[], [], FIRST_MARK, {};
    }

    /** Apply makes the installed shaping match the clients exactly. */
    method Apply(clients: seq<Client>, ifaces: set<Iface>) returns (failed: bool)
      requires Valid()
      modifies this, host
      ensures Valid()
      // with nobody to shape, everything comes down
      ensures Wanted(clients) == map[] ==> !failed && applied == map[] && ifaceSet == {} && host.rules == None
      ensures Wanted(clients) == map[] ==> forall i :: i in host.trees <==>
                i in old(host.trees) && i !in old(ifaceSet) && i !in ifaces
      // otherwise every wanted client is applied, or as many as there are marks
      ensures failed <==> |Wanted(clients)| > MAX_CLIENTS
      ensures !failed ==> applied == Wanted(clients)
      ensures failed ==> |applied| == MAX_CLIENTS && forall a :: a in applied ==>
                a in Wanted(clients) && applied[a] == Wanted(clients)[a]
      ensures forall a :: a in old(applied) && a in Wanted(clients) ==> a in applied && marks[a] == old(marks)[a]
      // and the host holds what they need, exactly so unless a tree kept a stray
      ensures Wanted(clients) != map[] ==> ifaceSet == ifaces && host.trees.Keys == old(host.trees).Keys + ifaces
      ensures Wanted(clients) != map[] ==> host.rules.Some? && ExactRules(host.rules.value, applied, marks)
      ensures forall i :: i in ifaces && Wanted(clients) != map[] ==>
                            (Exact(host.trees[i], applied, marks) <==>
                             Clearable(old(host.trees), i, old(applied).Keys - Wanted(clients).Keys, old(marks),
                                 applied, marks))
      ensures forall i :: i in ifaces && Wanted(clients) != map[] && old(Tidy(host.trees, i, applied, marks)) ==>
                            Exact(host.trees[i], applied, marks)
      // interfaces off the list lose departed clients only if they were on the last one
      ensures forall i :: i in old(host.trees) && i !in ifaces && Wanted(clients) != map[] ==>
                            host.trees[i] == if i in old(ifaceSet)
                                             then Purged(old(host.trees)[i], old(applied).Keys - Wanted(clients).Keys,
                                                 old(marks))
                                             else old(host.trees)[i]
    {
      hide Partition, NoStray, Exact, ExactRules, Wanted, Purged;
      var wanted := CollectWanted(clients);
      ghost var gone := applied.Keys - wanted.Keys;
      DropDeparted(wanted, ifaces);
      if |wanted| == 0 {
        TeardownAll(ifaces);
        NobodyWanted(wanted);
        return false;
      }
      EnsureRoots(ifaces);
      ghost var base := host.trees;
      failed := ShapeAll(wanted, ifaces);
      ifaceSet := ifaces;
      SyncMarks();
      forall i | i in ifaces
        ensures Exact(host.trees[i], applied, marks) <==>
                  Clearable(old(host.trees), i, gone, old(marks), applied, marks)
        ensures old(Tidy(host.trees, i, applied, marks)) ==> Exact(host.trees[i], applied, marks)
      {
        BaseStrays(old(host.trees), base, i, gone, old(marks), applied, marks);
        if old(Tidy(host.trees, i, applied, marks)) && i in old(host.trees) {
          PurgedHasNoStray(old(host.trees)[i], old(applied).Keys, old(marks), gone, applied.Keys, marks);
        }
      }
    }

    /** The host holds exactly what the applied clients need, on the interfaces of the last list, and
        nothing at all when nobody is applied. */
    ghost predicate Settled()
      reads this, host
    {
      && Valid()
      && (forall i :: i in host.trees ==> i in ifaceSet && Exact(host.trees[i], applied, marks))
      && (forall i :: i in ifaceSet ==> i in host.trees)
      && (if host.rules.None? then applied == map[] && ifaceSet == {} else ExactRules(host.rules.value, applied, marks))
    }

    /** A run of polls: between two of them the interfaces that left the list lose their trees. After every
        poll the host is settled on that poll's clients, as many as there are marks for. */
    method Polls(polls: seq<(seq<Client>, set<Iface>)>)
      requires Settled()
      modifies this, host
      ensures Settled()
      ensures polls != [] ==>
                var wanted := Wanted(polls[|polls| - 1].0);
                && (|wanted| <= MAX_CLIENTS ==> applied == wanted)
                && (|wanted| > MAX_CLIENTS ==>
                      && |applied| == MAX_CLIENTS
                      && forall a :: a in applied ==> a in wanted && applied[a] == wanted[a])
                && ifaceSet == if wanted == map[] then {} else polls[|polls| - 1].1
    {
      hide Partition, NoStray, Serves, Wanted;
      for n := 0 to |polls|
        invariant Settled()
        invariant n > 0 ==>
                    var wanted := Wanted(polls[n - 1].0);
                    && (|wanted| <= MAX_CLIENTS ==> applied == wanted)
                    && (|wanted| > MAX_CLIENTS ==>
                          && |applied| == MAX_CLIENTS
                          && forall a :: a in applied ==> a in wanted && applied[a] == wanted[a])
                    && ifaceSet == if wanted == map[] then {} else polls[n - 1].1
      {
        Poll(polls[n].0, polls[n].1);
      }
    }

    method Poll(clients: seq<Client>, ifaces: set<Iface>)
      requires Settled()
      modifies this, host
      ensures Settled()
      ensures var wanted := Wanted(clients);
              && (|wanted| <= MAX_CLIENTS ==> applied == wanted)
              && (|wanted| > MAX_CLIENTS ==>
                    && |applied| == MAX_CLIENTS
                    && forall a :: a in applied ==> a in wanted && applied[a] == wanted[a])
              && ifaceSet == if wanted == map[] then {} else ifaces
    {
      hide Partition, NoStray, Serves, Wanted;
      host.LoseTrees(ifaces);
      NextPollIsTidy(host.trees, ifaceSet, ifaces, applied, marks);
      ghost var settled := host.trees;
      var failed := Apply(clients, ifaces);
      assert forall i :: i in settled ==> i in ifaces && i in old(ifaceSet);
      NobodyWanted(Wanted(clients));
    }

    method CollectWanted(clients: seq<Client>) returns (wanted: map<Address, Client>)
      ensures wanted == Wanted(clients)
    {
      wanted := map[];
      for i := 0 to |clients|
        invariant wanted == Wanted(clients[..i])
      {
        assert clients[..i + 1][..i] == clients[..i];
        if clients[i].address == "" || clients[i].limitKbps == 0 {
          continue;
        }
        wanted := wanted[clients[i].address := clients[i]];
      }
      assert clients[..|clients|] == clients;
    }

    /** Departed clients lose their classes on every interface they could be on, and their marks. */
    method DropDeparted(wanted: map<Address, Client>, ifaces: set<Iface>)
      requires Valid()
      modifies this`applied, this`marks, this`freed, host`trees
      ensures Valid()
      ensures forall a :: a in applied <==> a in old(applied) && a in wanted
      ensures forall a :: a in marks ==> a in old(marks) && marks[a] == old(marks)[a]
      ensures host.trees.Keys == old(host.trees).Keys
      ensures forall i :: i in host.trees ==>
          host.trees[i] == if i in ifaceSet + ifaces
              then Purged(old(host.trees)[i], old(applied).Keys - wanted.Keys, old(marks))
                           else old(host.trees)[i]
    {
      hide Partition, Dropping, PurgedTrees, Purged;
      var todo := applied.Keys;
      ghost var trees, clients, live := host.trees, applied, marks;
      DroppingStarts(trees, clients, live, wanted, ifaces);
      while todo != {}
        invariant todo <= clients.Keys && Dropping(trees, clients, live, wanted, todo, ifaces)
        decreases |todo|
      {
        var addr :| addr in todo;
        if addr in wanted {
          DroppingSkips(trees, clients, live, wanted, todo, ifaces, addr);
        } else {
          DropNext(addr, ifaces, trees, clients, live, wanted, todo);
        }
        todo := todo - {addr};
      }
      DroppingEnds(trees, clients, live, wanted, ifaces);
    }

    /** Where the loop over the applied clients stands when some are still to do. */
    ghost predicate Dropping(trees: map<Iface, Tree>, clients: map<Address, Client>, live: map<Address, nat>,
                             wanted: map<Address, Client>, todo: set<Address>, ifaces: set<Iface>)
      reads this, host
    {
      && Valid() && live.Keys == clients.Keys
      && applied.Keys == clients.Keys - (clients.Keys - wanted.Keys - todo)
      && (forall a :: a in marks ==> a in live && marks[a] == live[a])
      && PurgedTrees(trees, host.trees, ifaceSet + ifaces, clients.Keys - wanted.Keys - todo, live)
    }

    lemma DroppingStarts(trees: map<Iface, Tree>, clients: map<Address, Client>, live: map<Address, nat>,
                         wanted: map<Address, Client>, ifaces: set<Iface>)
      requires Valid() && trees == host.trees && clients == applied && live == marks
      ensures Dropping(trees, clients, live, wanted, applied.Keys, ifaces)
    {
      hide Partition, PurgedTrees;
      NothingPurged(trees, ifaceSet + ifaces, live);
      assert clients.Keys - wanted.Keys - clients.Keys == {};
    }

    lemma DroppingSkips(trees: map<Iface, Tree>, clients: map<Address, Client>, live: map<Address, nat>,
                        wanted: map<Address, Client>, todo: set<Address>, ifaces: set<Iface>, addr: Address)
      requires Dropping(trees, clients, live, wanted, todo, ifaces) && todo <= clients.Keys && addr in todo
                && addr in wanted
      ensures Dropping(trees, clients, live, wanted, todo - {addr}, ifaces)
    {
      hide Partition, PurgedTrees;
      GoneStep(clients.Keys, wanted.Keys, todo, addr);
    }

    lemma DroppingEnds(trees: map<Iface, Tree>, clients: map<Address, Client>, live: map<Address, nat>,
                       wanted: map<Address, Client>, ifaces: set<Iface>)
      requires Dropping(trees, clients, live, wanted, {}, ifaces)
      ensures Valid() && forall a :: a in applied <==> a in clients && a in wanted
      ensures forall a :: a in marks ==> a in live && marks[a] == live[a]
      ensures host.trees.Keys == trees.Keys
      ensures forall i :: i in host.trees ==>
          host.trees[i] == if i in ifaceSet + ifaces then Purged(trees[i], clients.Keys - wanted.Keys, live)
              else trees[i]
    {
      hide Partition, Purged;
      assert clients.Keys - wanted.Keys - {} == clients.Keys - wanted.Keys;
    }

    method DropNext(addr: Address, ifaces: set<Iface>, ghost trees: map<Iface, Tree>,
                    ghost clients: map<Address, Client>, ghost live: map<Address, nat>,
                    ghost wanted: map<Address, Client>, ghost todo: set<Address>)
      requires Dropping(trees, clients, live, wanted, todo, ifaces) && todo <= clients.Keys && addr in todo
                && addr !in wanted
      modifies this`applied, this`marks, this`freed, host`trees
      ensures Dropping(trees, clients, live, wanted, todo - {addr}, ifaces)
      ensures forall a :: a in applied ==> a in old(applied) && applied[a] == old(applied)[a]
    {
      hide Partition, PurgedTrees, UnshapedTrees;
      ghost var gone := clients.Keys - wanted.Keys - todo;
      GoneStep(clients.Keys, wanted.Keys, todo, addr);
      PurgeOne(trees, host.trees, ifaceSet + ifaces, gone, live, addr);
      DropOne(addr, ifaces);
    }

    /** One departure. */
    method DropOne(addr: Address, ifaces: set<Iface>)
      requires Valid() && addr in applied
      modifies this`applied, this`marks, this`freed, host`trees
      ensures Valid()
      ensures applied == old(applied) - {addr} && marks == old(marks) - {addr}
      ensures host.trees == UnshapedTrees(old(host.trees), ifaceSet + ifaces, old(marks)[addr])
    {
      hide Partition, Unshaped;
      ReleaseKeepsPartition(Allocator(), addr);
      var mark := marks[addr];
      DelClasses(ifaceSet + ifaces, mark);
      marks := marks - {addr};
      freed := freed + [mark];
      applied := applied - {addr};
    }

    /** delClass in both directions on a list of interfaces. */
    method DelClasses(list: set<Iface>, mark: nat)
      modifies host`trees
      ensures host.trees == UnshapedTrees(old(host.trees), list, mark)
    {
      hide ClassId, MarkValue, Unshaped;
      var todo := list;
      while todo != {}
        invariant todo <= list
        invariant forall i :: i in host.trees <==> i in old(host.trees)
        invariant forall i :: i in host.trees ==>
            host.trees[i] == if i in list && i !in todo then Unshaped(old(host.trees)[i], mark) else old(host.trees)[i]
        decreases |todo|
      {
        var iface :| iface in todo;
        todo := todo - {iface};
        DelClass(iface, mark);
      }
    }

    method DelClass(iface: Iface, mark: nat)
      modifies host`trees
      ensures host.trees ==
                if iface in old(host.trees) then old(host.trees)[iface := Unshaped(old(host.trees)[iface], mark)]
                    else old(host.trees)
    {
      hide ClassId, MarkValue;
      host.DelFilterAndClass(iface, MarkValue(mark, Download), ClassId(mark, Download));
      host.DelFilterAndClass(iface, MarkValue(mark, Upload), ClassId(mark, Upload));
    }

    /** Roots on every listed interface: a new one starts empty, an existing one keeps its entries. */
    method EnsureRoots(ifaces: set<Iface>)
      modifies host`trees
      ensures host.trees.Keys == old(host.trees).Keys + ifaces
      ensures forall i :: i in host.trees ==>
                host.trees[i] ==
                  if i in ifaces then Rooted(old(host.trees), i) else old(host.trees)[i]
    {
      var todo := ifaces;
      while todo != {}
        invariant todo <= ifaces
        invariant forall i :: i in host.trees <==> i in old(host.trees) || (i in ifaces && i !in todo)
        invariant forall i :: i in host.trees ==>
            host.trees[i] == if i in ifaces && i !in todo then Rooted(old(host.trees), i) else old(host.trees)[i]
        decreases |todo|
      {
        var iface :| iface in todo;
        todo := todo - {iface};
        host.AddRoot(iface);
      }
    }

    /** The loop over the wanted clients: allocate a mark, install the classes, record the client. */
    method ShapeAll(wanted: map<Address, Client>, ifaces: set<Iface>) returns (failed: bool)
      requires Valid() && ifaces <= host.trees.Keys
      requires forall i :: i in ifaces ==> host.trees[i].hasDefault
      requires forall a :: a in applied ==> a in wanted
      modifies this`applied, this`marks, this`freed, this`nextMark, host`trees
      ensures Valid() && host.trees.Keys == old(host.trees).Keys
      ensures failed <==> |wanted| > MAX_CLIENTS
      ensures !failed ==> applied == wanted
      ensures failed ==> |applied| == MAX_CLIENTS && forall a :: a in applied ==> a in wanted && applied[a] == wanted[a]
      ensures forall a :: a in old(applied) ==> a in applied && marks[a] == old(marks)[a]
      ensures forall i :: i in ifaces ==>
          (Exact(host.trees[i], applied, marks) <==> NoStray(old(host.trees)[i], applied.Keys, marks))
      ensures forall i :: i in host.trees && i !in ifaces ==> host.trees[i] == old(host.trees)[i]
    {
      hide Partition, NoStray, Serves, Progress, Extends, Exact;
      failed := false;
      var todo := wanted.Keys;
      ghost var base, refused := host.trees, "";
      ProgressStarts(base, applied, marks, wanted, ifaces);
      while todo != {}
        invariant todo <= wanted.Keys
        invariant Valid() && host.trees.Keys == base.Keys
        invariant Progress(host.trees, applied, marks, wanted, todo, base, ifaces)
        invariant !failed ==> forall a :: a in wanted && a !in todo ==> a in applied
        invariant failed ==> |applied| == MAX_CLIENTS && refused in wanted && refused !in todo && refused !in applied
        invariant forall a :: a in old(applied) ==> a in applied && marks[a] == old(marks)[a]
        decreases |todo|
      {
        var addr :| addr in todo;
        var ok := ShapeOne(addr, wanted, todo, ifaces, base);
        todo := todo - {addr};
        if !ok {
          failed, refused := true, addr;
        }
      }
      ProgressMeans(host.trees, applied, marks, wanted, base, ifaces);
      AppliedCount(wanted, applied, failed);
      SameClients(wanted, applied);
      BoundedLive(Allocator(), applied.Keys);
    }

    /** One client. It is refused only when every mark is in use by another. */
    method ShapeOne(addr: Address, wanted: map<Address, Client>, ghost todo: set<Address>, ifaces: set<Iface>,
                    ghost base: map<Iface, Tree>)
      returns (ok: bool)
      requires Valid() && addr in wanted && addr in todo
      requires Progress(host.trees, applied, marks, wanted, todo, base, ifaces)
      modifies this`applied, this`marks, this`freed, this`nextMark, host`trees
      ensures Valid() && host.trees.Keys == old(host.trees).Keys
      ensures Progress(host.trees, applied, marks, wanted, todo - {addr}, base, ifaces)
      ensures ok <==> addr in old(applied) || |old(applied)| != MAX_CLIENTS
      ensures !ok ==> applied == old(applied) && marks == old(marks)
      ensures ok ==> applied == old(applied)[addr := wanted[addr]]
      ensures addr in old(applied) ==> |applied| == |old(applied)|
      ensures forall a :: a in old(marks) ==> a in marks && marks[a] == old(marks)[a]
    {
      hide Partition, NoStray, Serves, Shaped, Progress, InRange, Exact, Extends;
      ProgressBasics(host.trees, applied, marks, wanted, todo, base, ifaces);
      var mark := TakeMark(addr);
      if mark.None? {
        ProgressRefused(host.trees, applied, marks, wanted, todo, base, ifaces, addr);
        return false;
      }
      EnsureClasses(ifaces, mark.value, wanted[addr].limitKbps);
      ProgressShaped(old(host.trees), host.trees, old(applied), old(marks), marks, wanted, todo, base, ifaces, addr);
      Record(addr, wanted[addr]);
      ok := true;
    }

    method Record(addr: Address, c: Client)
      modifies this`applied
      ensures applied == old(applied)[addr := c]
      ensures addr in old(applied) ==> |applied| == |old(applied)|
    {
      if addr in applied {
        SizeAfter(applied, addr, c);
      }
      applied := applied[addr := c];
    }

    /** A mark for an address, unless every mark is in use by another. */
    method TakeMark(addr: Address) returns (mark: Option<nat>)
      requires Valid()
      modifies this`marks, this`freed, this`nextMark
      ensures Partition(Allocator())
      ensures mark.Some? <==> addr in applied || |applied| != MAX_CLIENTS
      ensures mark.None? ==> marks == old(marks)
      ensures mark.Some? ==> marks.Keys == old(marks).Keys + {addr} && mark.value == marks[addr]
      ensures forall a :: a in old(marks) ==> a in marks && marks[a] == old(marks)[a]
      ensures forall a :: a in marks ==> InRange(marks[a])
      ensures forall a, b :: a in marks && b in marks && a != b ==> marks[a] != marks[b]
    {
      hide Partition, InRange;
      AllocateKeepsPartition(Allocator(), addr);
      LiveInRange(Allocator());
      SameSize(applied, marks);
      mark := AllocMark(addr);
      LiveInRange(Allocator());
    }

    method AllocMark(addr: Address) returns (mark: Option<nat>)
      requires nextMark >= FIRST_MARK
      modifies this`marks, this`freed, this`nextMark
      ensures mark.None? <==> Allocated(old(Allocator()), addr).None?
      ensures mark.None? ==> Allocator() == old(Allocator())
      ensures mark.Some? ==>
                Allocator() == Allocated(old(Allocator()), addr).value && addr in marks && mark.value == marks[addr]
    {
      if addr in marks {
        return Some(marks[addr]);
      }
      var n := |freed|;
      if n > 0 {
        var m := freed[n - 1];
        freed := freed[..n - 1];
        marks := marks[addr := m];
        return Some(m);
      }
      if nextMark - FIRST_MARK >= MAX_CLIENTS {
        return None;
      }
      var m := nextMark;
      nextMark := nextMark + 1;
      marks := marks[addr := m];
      return Some(m);
    }

    /** ensureClass in both directions on every listed interface. */
    method EnsureClasses(ifaces: set<Iface>, mark: nat, kbps: nat)
      requires ifaces <= host.trees.Keys
      modifies host`trees
      ensures host.trees.Keys == old(host.trees).Keys
      ensures forall i :: i in host.trees ==>
          host.trees[i] == if i in ifaces then Shaped(old(host.trees)[i], mark, kbps) else old(host.trees)[i]
    {
      hide Shaped;
      var todo := ifaces;
      while todo != {}
        invariant todo <= ifaces && host.trees.Keys == old(host.trees).Keys
        invariant forall i :: i in host.trees ==>
            host.trees[i] == if i in ifaces && i !in todo then Shaped(old(host.trees)[i], mark, kbps)
                else old(host.trees)[i]
        decreases |todo|
      {
        var iface :| iface in todo;
        todo := todo - {iface};
        EnsureClass(iface, mark, kbps);
      }
    }

    method EnsureClass(iface: Iface, mark: nat, kbps: nat)
      requires iface in host.trees
      modifies host`trees
      ensures host.trees == old(host.trees)[iface := Shaped(old(host.trees)[iface], mark, kbps)]
    {
      hide ClassId, MarkValue;
      host.ReplaceClass(iface, ClassId(mark, Download), kbps);
      host.ReplaceFilter(iface, MarkValue(mark, Download), ClassId(mark, Download));
      host.ReplaceClass(iface, ClassId(mark, Upload), kbps);
      host.ReplaceFilter(iface, MarkValue(mark, Upload), ClassId(mark, Upload));
    }

    /** syncMarks: the chain is flushed and rebuilt from the applied clients. */
    method SyncMarks()
      requires applied.Keys == marks.Keys
      modifies host`rules
      ensures host.rules.Some? && ExactRules(host.rules.value, applied, marks)
    {
      hide MarkValue;
      host.FlushRules();
      var todo := applied.Keys;
      while todo != {}
        invariant todo <= applied.Keys && host.rules.Some?
        invariant forall r :: r in host.rules.value <==>
            r.address in applied && r.address !in todo && r.mark == MarkValue(marks[r.address], r.dir)
        decreases |todo|
      {
        var addr :| addr in todo;
        todo := todo - {addr};
        if addr !in marks {
          continue;
        }
        var mark := marks[addr];
        ghost var before := host.rules.value;
        host.AddRule(Rule(Download, addr, MarkValue(mark, Download)));
        host.AddRule(Rule(Upload, addr, MarkValue(mark, Upload)));
        forall r
          ensures r in host.rules.value <==> r in before || (r.address == addr && r.mark == MarkValue(mark, r.dir))
        {
          assert r.dir == Download || r.dir == Upload;
        }
      }
    }

    method TeardownAll(ifaces: set<Iface>)
      modifies this, host
      ensures Valid() && applied == map[] && marks == map[] && ifaceSet == {}
      ensures host.rules == None
      ensures forall i :: i in host.trees <==> i in old(host.trees) && i !in old(ifaceSet) && i !in ifaces
    {
      hide Partition;
      var list := ifaceSet + ifaces;
      var todo := list;
      while todo != {}
        invariant todo <= list && list == old(ifaceSet) + ifaces
        invariant forall i :: i in host.trees <==> i in old(host.trees) && (i !in list || i in todo)
        invariant applied == old(applied) && marks == old(marks) && ifaceSet == old(ifaceSet)
        decreases |todo|
      {
        var iface :| iface in todo;
        todo := todo - {iface};
        host.DelRoot(iface);
      }
      host.DeleteTable();
      NothingHandedOut();
      applied, marks, freed, nextMark, ifaceSet := map[], map[], [], FIRST_MARK, {};
    }

    /** Close: nothing the manager installed is left on the interfaces it knows or now sees. */
    method Close(ifaces: set<Iface>)
      modifies this, host
      ensures Valid() && applied == map[] && ifaceSet == {}
      ensures host.rules == None
      ensures forall i :: i in host.trees <==> i in old(host.trees) && i !in old(ifaceSet) && i !in ifaces
      ensures old(Settled()) ==> host.trees == map[]
    {
      TeardownAll(ifaces);
    }
  }

  /** The trees after delClass in both directions on a list of interfaces. */
  function UnshapedTrees(trees: map<Iface, Tree>, list: set<Iface>, mark: nat): map<Iface, Tree> {
    map i | i in trees :: if i in list then Unshaped(trees[i], mark) else trees[i]
  }

  /** The listed trees have been purged of some clients, the others are as they were. */
  ghost predicate PurgedTrees(before: map<Iface, Tree>, after: map<Iface, Tree>, list: set<Iface>, gone: set<Address>,
                              marks: map<Address, nat>) {
    && after.Keys == before.Keys
    && forall i :: i in after ==> after[i] == if i in list then Purged(before[i], gone, marks) else before[i]
  }

  lemma GoneStep<T>(all: set<T>, wanted: set<T>, todo: set<T>, x: T)
    requires x in todo && todo <= all
    ensures var gone, next := all - wanted - todo, all - wanted - (todo - {x});
            if x in wanted then next == gone
            else next == gone + {x} && x in all - gone && all - (gone + {x}) == all - gone - {x}
  {
  }

  lemma NothingPurged(trees: map<Iface, Tree>, list: set<Iface>, marks: map<Address, nat>)
    ensures PurgedTrees(trees, trees, list, {}, marks)
  {
    hide Purged;
    forall i | i in trees
      ensures trees[i] == Purged(trees[i], {}, marks)
    {
      PurgedNobody(trees[i], marks);
    }
  }

  lemma PurgeOne(before: map<Iface, Tree>, now: map<Iface, Tree>, list: set<Iface>, gone: set<Address>,
                 marks: map<Address, nat>, a: Address)
    requires PurgedTrees(before, now, list, gone, marks) && a in marks
    ensures PurgedTrees(before, UnshapedTrees(now, list, marks[a]), list, gone + {a}, marks)
  {
    hide Purged, Unshaped;
    forall i | i in now && i in list
      ensures Unshaped(now[i], marks[a]) == Purged(before[i], gone + {a}, marks)
    {
      UnshapedIsPurged(before[i], gone, marks, a);
    }
  }

  /** A tree after AddRoot. */
  function Rooted(trees: map<Iface, Tree>, i: Iface): Tree {
    if i in trees then trees[i].(hasDefault := true) else Tree(true, map[], map[])
  }

  /** Roots add no entries: a listed tree holds a stray exactly when what was left of it does. */
  lemma BaseStrays(before: map<Iface, Tree>, base: map<Iface, Tree>, i: Iface, gone: set<Address>,
                   marks: map<Address, nat>, applied: map<Address, Client>, live: map<Address, nat>)
    requires i in base
    requires if i in before then base[i] == Purged(before[i], gone, marks).(hasDefault := true)
             else base[i] == Tree(true, map[], map[])
    ensures NoStray(base[i], applied.Keys, live) <==> Clearable(before, i, gone, marks, applied, live)
  {
  }

  lemma NobodyWanted(wanted: map<Address, Client>)
    ensures |wanted| == 0 <==> wanted == map[]
  {
  }

  /** What the loop over the wanted clients has achieved when some are still to do: on every listed
      interface the entries it started from and the applied clients' own, and the clients already done
      served at their own rates. */
  ghost predicate Progress(trees: map<Iface, Tree>, applied: map<Address, Client>, live: map<Address, nat>,
                           wanted: map<Address, Client>, todo: set<Address>, base: map<Iface, Tree>, ifaces: set<Iface>)
  {
    && ifaces <= trees.Keys && trees.Keys == base.Keys && applied.Keys == live.Keys
    && (forall i :: i in ifaces ==> trees[i].hasDefault)
    && (forall i :: i in ifaces ==> Extends(base[i], trees[i], applied.Keys, live))
    && (forall i :: i in trees && i !in ifaces ==> trees[i] == base[i])
    && (forall i, a :: i in ifaces && a in applied && a !in todo ==> Serves(trees[i], live[a], applied[a].limitKbps))
    && (forall a :: a in applied ==> a in wanted && (a !in todo ==> applied[a] == wanted[a]))
  }

  lemma ProgressStarts(trees: map<Iface, Tree>, applied: map<Address, Client>, live: map<Address, nat>,
                       wanted: map<Address, Client>, ifaces: set<Iface>)
    requires ifaces <= trees.Keys && applied.Keys == live.Keys && forall i :: i in ifaces ==> trees[i].hasDefault
    requires forall a :: a in applied ==> a in wanted
    ensures Progress(trees, applied, live, wanted, wanted.Keys, trees, ifaces)
  {
    hide Serves;
    forall i | i in ifaces
      ensures Extends(trees[i], trees[i], applied.Keys, live)
    {
    }
  }

  lemma ProgressMeans(trees: map<Iface, Tree>, applied: map<Address, Client>, live: map<Address, nat>,
                      wanted: map<Address, Client>, base: map<Iface, Tree>, ifaces: set<Iface>)
    requires Progress(trees, applied, live, wanted, {}, base, ifaces)
    ensures forall a :: a in applied ==> a in wanted && applied[a] == wanted[a]
    ensures forall i :: i in ifaces ==>
              i in trees && (Exact(trees[i], applied, live) <==> NoStray(base[i], applied.Keys, live))
    ensures forall i :: i in trees && i !in ifaces ==> trees[i] == base[i]
  {
    hide NoStray, Serves, Extends;
    forall i | i in ifaces
      ensures NoStray(trees[i], applied.Keys, live) <==> NoStray(base[i], applied.Keys, live)
    {
      ExtendsStrays(base[i], trees[i], applied.Keys, live);
    }
  }

  lemma ExtendsStrays(base: Tree, t: Tree, clients: set<Address>, live: map<Address, nat>)
    requires Extends(base, t, clients, live)
    ensures NoStray(t, clients, live) <==> NoStray(base, clients, live)
  {
    hide OwnsClass, OwnsFilter;
  }

  lemma ProgressBasics(trees: map<Iface, Tree>, applied: map<Address, Client>, live: map<Address, nat>,
                       wanted: map<Address, Client>, todo: set<Address>, base: map<Iface, Tree>, ifaces: set<Iface>)
    requires Progress(trees, applied, live, wanted, todo, base, ifaces)
    ensures ifaces <= trees.Keys
  {
  }

  lemma ProgressRefused(trees: map<Iface, Tree>, applied: map<Address, Client>, live: map<Address, nat>,
                        wanted: map<Address, Client>, todo: set<Address>, base: map<Iface, Tree>, ifaces: set<Iface>,
                        addr: Address)
    requires Progress(trees, applied, live, wanted, todo, base, ifaces) && addr !in applied
    ensures Progress(trees, applied, live, wanted, todo - {addr}, base, ifaces)
  {
    hide Extends, Serves;
  }

  lemma ProgressShaped(trees: map<Iface, Tree>, trees': map<Iface, Tree>, applied: map<Address, Client>,
                       live: map<Address, nat>, live': map<Address, nat>, wanted: map<Address, Client>,
                       todo: set<Address>, base: map<Iface, Tree>, ifaces: set<Iface>, addr: Address)
    requires Progress(trees, applied, live, wanted, todo, base, ifaces) && addr in wanted
    requires live'.Keys == live.Keys + {addr} && forall a :: a in live ==> live'[a] == live[a]
    requires forall a :: a in live' ==> InRange(live'[a])
    requires forall a, b :: a in live' && b in live' && a != b ==> live'[a] != live'[b]
    requires trees'.Keys == trees.Keys
    requires forall i :: i in ifaces && i in trees ==>
              trees'[i] == Shaped(trees[i], live'[addr], wanted[addr].limitKbps)
    requires forall i :: i in trees && i !in ifaces ==> trees'[i] == trees[i]
    ensures Progress(trees', applied[addr := wanted[addr]], live', wanted, todo - {addr}, base, ifaces)
  {
    hide Extends, Serves, Shaped;
    var applied' := applied[addr := wanted[addr]];
    ShapedKeepsDefault();
    forall i | i in ifaces
      ensures Extends(base[i], trees'[i], applied'.Keys, live')
    {
      ShapedExtends(base[i], trees[i], applied.Keys, live, applied'.Keys, live', addr, wanted[addr].limitKbps);
    }
    forall i, a | i in ifaces && a in applied' && a !in todo - {addr}
      ensures Serves(trees'[i], live'[a], applied'[a].limitKbps)
    {
      if a == addr {
        ShapedServes(trees[i], live'[addr], wanted[addr].limitKbps);
      } else {
        ShapedKeepsServing(trees[i], live'[addr], wanted[addr].limitKbps, live'[a], applied'[a].limitKbps);
      }
    }
  }

  lemma SameClients(wanted: map<Address, Client>, applied: map<Address, Client>)
    requires forall a :: a in applied ==> a in wanted && applied[a] == wanted[a]
    ensures (forall a :: a in wanted ==> a in applied) ==> applied == wanted
  {
  }

  lemma SameSize<T, U>(m: map<Address, T>, n: map<Address, U>)
    requires m.Keys == n.Keys
    ensures |m| == |n|
  {
    assert |m| == |m.Keys| && |n| == |n.Keys|;
  }

  lemma SizeAfter(m: map<Address, Client>, a: Address, c: Client)
    requires a in m
    ensures |m[a := c]| == |m|
  {
    assert m[a := c].Keys == m.Keys;
    assert |m| == |m.Keys| && |m[a := c]| == |m[a := c].Keys|;
  }

  lemma NothingHandedOut()
    ensures Partition(Marks(map[], [], FIRST_MARK))
  {
  }

  lemma ShapedKeepsDefault()
    ensures forall t, m, k :: Shaped(t, m, k).hasDefault == t.hasDefault
  {
  }

  lemma BoundedLive(m: Marks, clients: set<Address>)
    requires Partition(m) && clients == m.live.Keys
    ensures |clients| <= MAX_CLIENTS
  {
    assert |m.live| == |m.live.Keys|;
  }

  lemma LiveInRange(m: Marks)
    requires Partition(m)
    ensures m.next >= FIRST_MARK
    ensures forall a :: a in m.live ==> InRange(m.live[a])
    ensures forall a, b :: a in m.live && b in m.live && a != b ==> m.live[a] != m.live[b]
  {
  }

  /** Why polls compose: if after one Apply the listed interfaces are exact, and interfaces off that list
      have lost their trees, then whatever list the next poll brings is tidy. */
  lemma NextPollIsTidy(trees: map<Iface, Tree>, listed: set<Iface>, next: set<Iface>, applied: map<Address, Client>,
                       live: map<Address, nat>)
    requires forall i :: i in trees ==> i in listed
    requires forall i :: i in listed && i in trees ==> Exact(trees[i], applied, live)
    ensures forall i :: i in next ==> Tidy(trees, i, applied, live)
  {
  }

  /** How many clients got through decides whether any was refused. */
  lemma AppliedCount(wanted: map<Address, Client>, applied: map<Address, Client>, failed: bool)
    requires forall a :: a in applied ==> a in wanted
    requires !failed ==> forall a :: a in wanted ==> a in applied
    requires failed ==> |applied| == MAX_CLIENTS && exists a :: a in wanted && a !in applied
    ensures !failed ==> |applied| == |wanted|
    ensures failed ==> |wanted| > MAX_CLIENTS
  {
    if failed {
      var a :| a in wanted && a !in applied;
      SubsetSize(applied.Keys + {a}, wanted.Keys);
      assert |applied.Keys + {a}| == |applied.Keys| + 1;
    } else {
      assert applied.Keys == wanted.Keys;
    }
  }

  lemma {:induction false} SubsetSize<T>(s: set<T>, t: set<T>)
    requires s <= t
    ensures |s| <= |t|
    decreases s
  {
    if s != {} {
      var x :| x in s;
      SubsetSize(s - {x}, t - {x});
    }
  }

  /** Two clients are shaped on two interfaces, one of which then leaves the list with its tree as it was. */
  method LeftListed(host: Host, a: Client, b: Client, i: Iface, j: Iface) returns (m: Manager, ghost mark: nat)
    requires host.trees == map[] && i != j
    requires a.address != b.address && a.address != "" && b.address != "" && a.limitKbps > 0 && b.limitKbps > 0
    modifies host
    ensures fresh(m) && m.host == host && m.Valid() && m.applied == map[a.address := a, b.address := b]
    ensures m.ifaceSet == {j} && i in host.trees
    ensures InRange(mark) && ClassId(mark, Download) in host.trees[i].classes
    ensures a.address in m.marks && m.marks[a.address] != mark
  {
    hide Partition, NoStray, Serves, Wanted, Purged, ExactRules, Exact, Clearable, ClassId;
    TwoClients(a, b);
    m := new Manager(host);
    var failed := m.Apply([a, b], {i, j});
    LiveInRange(m.Allocator());
    ghost var both, tree := m.marks, host.trees[i];
    mark := m.marks[b.address];
    LeftBehind(tree, m.applied, both, b.address);
    failed := m.Apply([a, b], {j});
    NobodyGone(map[a.address := a, b.address := b], tree, both);
    assert host.trees[i] == tree;
  }

  lemma NobodyGone(applied: map<Address, Client>, t: Tree, live: map<Address, nat>)
    ensures applied.Keys - applied.Keys == {} && Purged(t, {}, live) == t
  {
    PurgedNobody(t, live);
  }

  /** The condition of Apply is not idle: an interface leaves the list and keeps its tree, a client departs,
      the interface returns, and its tree still holds the departed client's classes. */
  method StrayReturns(host: Host, a: Client, b: Client, i: Iface, j: Iface) returns (m: Manager)
    requires host.trees == map[] && i != j
    requires a.address != b.address && a.address != "" && b.address != "" && a.limitKbps > 0 && b.limitKbps > 0
    modifies host
    ensures fresh(m) && m.host == host && m.Valid() && m.applied == map[a.address := a] && m.ifaceSet == {i, j}
    ensures i in host.trees && !Exact(host.trees[i], m.applied, m.marks)
  {
    hide Partition, NoStray, Serves, Wanted, Purged, ExactRules, Exact, Tidy, ClassId;
    TwoClients(a, b);
    ghost var mark;
    m, mark := LeftListed(host, a, b, i, j);
    ghost var tree := host.trees[i];
    var failed := m.Apply([a], {j});
    assert host.trees[i] == tree;
    ghost var live := m.marks;
    failed := m.Apply([a], {i, j});
    NobodyGone(map[a.address := a], tree, live);
    LiveInRange(m.Allocator());
    StrayStays(tree, m.applied, m.marks, a.address, mark);
  }

  lemma TwoClients(a: Client, b: Client)
    requires a.address != b.address && a.address != "" && b.address != "" && a.limitKbps > 0 && b.limitKbps > 0
    ensures Wanted([a, b]) == map[a.address := a, b.address := b] && |Wanted([a, b])| == 2
    ensures Wanted([a]) == map[a.address := a] && |Wanted([a])| == 1
  {
    assert [a, b][..1] == [a] && [a][..0] == [];
    assert Wanted([]) == map[];
    assert Wanted([a]) == map[a.address := a];
  }

  lemma LeftBehind(t: Tree, applied: map<Address, Client>, live: map<Address, nat>, b: Address)
    requires Exact(t, applied, live) && b in applied && b in live
    ensures ClassId(live[b], Download) in t.classes
  {
    hide ClassId, NoStray;
  }

  lemma StrayStays(t: Tree, applied: map<Address, Client>, live: map<Address, nat>, a: Address, mark: nat)
    requires applied.Keys == {a} && a in live && InRange(live[a]) && InRange(mark) && mark != live[a]
    requires ClassId(mark, Download) in t.classes
    ensures !NoStray(t, applied.Keys, live)
  {
    hide ClassId;
    if OwnsClass(applied.Keys, live, ClassId(mark, Download)) {
      var b, d :| b in applied.Keys && b in live && ClassId(mark, Download) == ClassId(live[b], d);
      EncodingsAreInjective(mark, Download, live[b], d);
    }
  }
}
