/** The traffic shaper: the declarative reconciliation of backend/ratelimit/ratelimit.go, apply.go and
    nft.go, over a host that holds one class tree per interface and one chain of mark rules. Every
    command succeeds here. */
module Shaper {
  import opened ShaperMarks
  import opened Wrappers

  type Iface = string

  datatype Client = Client(user: string, address: Address, limitKbps: nat)

  /** An HTB tree below its root: the default class is there once the root is set up; the shaped classes
      map a minor number to a rate, the fw filters map a firewall mark to a minor number. */
  datatype Tree = Tree(hasDefault: bool, classes: map<nat, nat>, filters: map<nat, nat>)

  /** One nft rule: a packet to (Download) or from (Upload) the address gets the mark. */
  datatype Rule = Rule(dir: Direction, address: Address, mark: nat)

  /** The host's tc and nft state, changed only through the commands below. */
  class Host {
    var trees: map<Iface, Tree>
    var rules: Option<seq<Rule>>   // None: the table is not there

    constructor ()
      ensures trees == map[] && rules == None
    {
      trees, rules := map[], None;
    }

    /** tc qdisc add, where an existing root is success, then the default class. */
    method AddRoot(iface: Iface)
      modifies this`trees
      ensures trees ==
                old(trees)[iface := if iface in old(trees) then old(trees)[iface].(hasDefault := true)
                                    else Tree(true, map[], map[])]
    {
      if iface !in trees {
        trees := trees[iface := Tree(false, map[], map[])];
      }
      trees := trees[iface := trees[iface].(hasDefault := true)];
    }

    /** Not a command: interfaces that are gone take their trees with them. */
    method LoseTrees(listed: set<Iface>)
      modifies this`trees
      ensures trees == map i | i in old(trees) && i in listed :: old(trees)[i]
    {
      trees := map i | i in trees && i in listed :: trees[i];
    }

    method DelRoot(iface: Iface)
      modifies this`trees
      ensures trees == old(trees) - {iface}
    {
      trees := trees - {iface};
    }

    method ReplaceClass(iface: Iface, minor: nat, kbps: nat)
      requires iface in trees
      modifies this`trees
      ensures trees == old(trees)[iface := old(trees)[iface].(classes := old(trees)[iface].classes[minor := kbps])]
    {
      trees := trees[iface := trees[iface].(classes := trees[iface].classes[minor := kbps])];
    }

    method ReplaceFilter(iface: Iface, mark: nat, minor: nat)
      requires iface in trees
      modifies this`trees
      ensures trees == old(trees)[iface := old(trees)[iface].(filters := old(trees)[iface].filters[mark := minor])]
    {
      trees := trees[iface := trees[iface].(filters := trees[iface].filters[mark := minor])];
    }

    /** Deleting a filter and its class; on an interface without them the errors are ignored. */
    method DelFilterAndClass(iface: Iface, mark: nat, minor: nat)
      modifies this`trees
      ensures trees == if iface in old(trees) then old(trees)[iface := Without(old(trees)[iface], mark, minor)]
                else old(trees)
    {
      if iface in trees {
        trees := trees[iface := trees[iface].(filters := trees[iface].filters - {mark})];
        trees := trees[iface := trees[iface].(classes := trees[iface].classes - {minor})];
      }
    }

    method FlushRules()
      modifies this`rules
      ensures rules == Some([])
    {
      rules := Some([]);
    }

    method AddRule(r: Rule)
      requires rules.Some?
      modifies this`rules
      ensures rules == Some(old(rules).value + [r])
    {
      rules := Some(rules.value + [r]);
    }

    method DeleteTable()
      modifies this`rules
      ensures rules == None
    {
      rules := None;
    }
  }

  function Without(t: Tree, mark: nat, minor: nat): Tree {
    t.(filters := t.filters - {mark}, classes := t.classes - {minor})
  }

  // ---- What a tree and a rule chain should hold ----

  /** A tree holds nothing but entries of the given clients. */
  ghost predicate NoStray(t: Tree, clients: set<Address>, live: map<Address, nat>) {
    && (forall c :: c in t.classes ==> OwnsClass(clients, live, c))
    && (forall f :: f in t.filters ==> OwnsFilter(clients, live, f))
  }

  ghost predicate OwnsClass(clients: set<Address>, live: map<Address, nat>, c: nat) {
    exists a, d :: a in clients && a in live && c == ClassId(live[a], d)
  }

  ghost predicate OwnsFilter(clients: set<Address>, live: map<Address, nat>, f: nat) {
    exists a, d :: a in clients && a in live && f == MarkValue(live[a], d)
  }

  /** A tree holds a client's two classes at its rate, and the filters that lead to them. */
  ghost predicate Serves(t: Tree, mark: nat, kbps: nat) {
    forall d: Direction ::
      && ClassId(mark, d) in t.classes && t.classes[ClassId(mark, d)] == kbps
      && MarkValue(mark, d) in t.filters && t.filters[MarkValue(mark, d)] == ClassId(mark, d)
  }

  /** Exactly the classes and filters of the applied clients, over a default class. */
  ghost predicate Exact(t: Tree, applied: map<Address, Client>, live: map<Address, nat>) {
    && t.hasDefault
    && NoStray(t, applied.Keys, live)
    && forall a :: a in applied ==> a in live && Serves(t, live[a], applied[a].limitKbps)
  }

  /** Exactly the two rules of each applied client. */
  ghost predicate ExactRules(rules: seq<Rule>, applied: map<Address, Client>, live: map<Address, nat>) {
    forall r :: r in rules <==> r.address in applied && r.address in live && r.mark == MarkValue(live[r.address], r.dir)
  }

  // ---- What a packet meets ----

  predicate Matches(r: Rule, src: Address, dst: Address) {
    if r.dir == Download then dst == r.address else src == r.address
  }

  /** The mark a packet leaves the chain with: every rule is evaluated, so the last match decides. */
  function MarkOf(rules: seq<Rule>, src: Address, dst: Address): nat {
    if rules == [] then 0
    else
      var r := rules[|rules| - 1];
      if Matches(r, src, dst) then r.mark else MarkOf(rules[..|rules| - 1], src, dst)
  }

  /** The class a packet with that mark is queued in. */
  function ClassOf(t: Tree, mark: nat): nat {
    if mark in t.filters then t.filters[mark] else DEFAULT_MINOR
  }

  lemma {:induction false} MarkFromRule(rules: seq<Rule>, src: Address, dst: Address)
    ensures (forall r :: r in rules ==> !Matches(r, src, dst)) ==> MarkOf(rules, src, dst) == 0
    ensures (exists r :: r in rules && Matches(r, src, dst)) ==>
              exists r :: r in rules && Matches(r, src, dst) && MarkOf(rules, src, dst) == r.mark
  {
    if rules == [] {
    } else {
      var init, last := rules[..|rules| - 1], rules[|rules| - 1];
      assert forall r :: r in rules <==> r in init || r == last;
      MarkFromRule(init, src, dst);
      if !Matches(last, src, dst) && exists r :: r in rules && Matches(r, src, dst) {
        assert exists r :: r in init && Matches(r, src, dst);
      }
    }
  }

  /** With one shaped endpoint only that client's rule for that direction matches. */
  lemma OwnRuleDecides(rules: seq<Rule>, applied: map<Address, Client>, live: map<Address, nat>, src: Address,
                       dst: Address, d: Direction)
    requires applied.Keys == live.Keys && ExactRules(rules, applied, live)
    requires if d == Download then src !in applied && dst in applied else src in applied && dst !in applied
    ensures MarkOf(rules, src, dst) == MarkValue(live[if d == Download then dst else src], d)
  {
    hide MarkOf;
    var end := if d == Download then dst else src;
    var own := Rule(d, end, MarkValue(live[end], d));
    assert own in rules && Matches(own, src, dst);
    MarkFromRule(rules, src, dst);
    forall r | r in rules && Matches(r, src, dst)
      ensures r == own
    {
    }
  }

  /** A packet with exactly one shaped endpoint is queued in that client's class for its direction, at
      that client's own rate. */
  lemma PacketMeetsItsRate(t: Tree, rules: seq<Rule>, applied: map<Address, Client>, live: map<Address, nat>,
                           src: Address, dst: Address, d: Direction)
    requires applied.Keys == live.Keys && Exact(t, applied, live) && ExactRules(rules, applied, live)
    requires if d == Download then src !in applied && dst in applied else src in applied && dst !in applied
    ensures var end := if d == Download then dst else src;
            var c := ClassOf(t, MarkOf(rules, src, dst));
            c == ClassId(live[end], d) && c in t.classes && t.classes[c] == applied[end].limitKbps
  {
    hide MarkOf, ClassId, MarkValue, NoStray;
    var end := if d == Download then dst else src;
    OwnRuleDecides(rules, applied, live, src, dst, d);
    assert Serves(t, live[end], applied[end].limitKbps);
  }

  /** A packet with no shaped endpoint is queued in the default class. */
  lemma OtherPacketsAreUnshaped(t: Tree, rules: seq<Rule>, applied: map<Address, Client>, m: Marks, src: Address,
                                dst: Address)
    requires Partition(m) && applied.Keys == m.live.Keys
    requires Exact(t, applied, m.live) && ExactRules(rules, applied, m.live)
    requires src !in applied && dst !in applied
    ensures ClassOf(t, MarkOf(rules, src, dst)) == DEFAULT_MINOR
  {
    hide MarkOf, ClassId, MarkValue;
    MarkFromRule(rules, src, dst);
    assert MarkOf(rules, src, dst) == 0;
    forall a, d | a in m.live
      ensures MarkValue(m.live[a], d) != 0
    {
      EncodingsAreInjective(m.live[a], d, m.live[a], d);
    }
    assert 0 !in t.filters;
  }

  // ---- Trees under the manager's commands ----

  /** A tree after delClass in both directions. */
  function Unshaped(t: Tree, mark: nat): Tree {
    Without(Without(t, MarkValue(mark, Download), ClassId(mark, Download)), MarkValue(mark, Upload),
        ClassId(mark, Upload))
  }

  /** A tree after ensureClass in both directions. */
  function Shaped(t: Tree, mark: nat, kbps: nat): Tree {
    t.(classes := t.classes[ClassId(mark, Download) := kbps][ClassId(mark, Upload) := kbps],
       filters := t.filters[MarkValue(mark, Download) := ClassId(mark, Download)]
                  [MarkValue(mark, Upload) := ClassId(mark, Upload)])
  }

  /** A tree without the entries of departed clients. */
  ghost function Purged(t: Tree, gone: set<Address>, marks: map<Address, nat>): Tree {
    t.(classes := map c | c in t.classes && !OwnsClass(gone, marks, c) :: t.classes[c],
       filters := map f | f in t.filters && !OwnsFilter(gone, marks, f) :: t.filters[f])
  }

  lemma PurgedNobody(t: Tree, marks: map<Address, nat>)
    ensures Purged(t, {}, marks) == t
  {
    assert forall c :: !OwnsClass({}, marks, c);
    assert forall f :: !OwnsFilter({}, marks, f);
    assert Purged(t, {}, marks).classes == t.classes && Purged(t, {}, marks).filters == t.filters;
  }

  lemma OwnsOneMore(gone: set<Address>, marks: map<Address, nat>, a: Address, n: nat)
    requires a in marks
    ensures OwnsClass(gone + {a}, marks, n) <==>
            OwnsClass(gone, marks, n) || n == ClassId(marks[a], Download) || n == ClassId(marks[a], Upload)
    ensures OwnsFilter(gone + {a}, marks, n) <==>
            OwnsFilter(gone, marks, n) || n == MarkValue(marks[a], Download) || n == MarkValue(marks[a], Upload)
  {
    hide ClassId, MarkValue;
    if OwnsClass(gone + {a}, marks, n) {
      var b, d :| b in gone + {a} && b in marks && n == ClassId(marks[b], d);
      assert d == Download || d == Upload;
      assert b == a || OwnsClass(gone, marks, n);
    }
    if OwnsFilter(gone + {a}, marks, n) {
      var b, d :| b in gone + {a} && b in marks && n == MarkValue(marks[b], d);
      assert d == Download || d == Upload;
      assert b == a || OwnsFilter(gone, marks, n);
    }
    assert a in gone + {a};
    if OwnsClass(gone, marks, n) {
      var b, d :| b in gone && b in marks && n == ClassId(marks[b], d);
      assert b in gone + {a};
    }
    if OwnsFilter(gone, marks, n) {
      var b, d :| b in gone && b in marks && n == MarkValue(marks[b], d);
      assert b in gone + {a};
    }
  }

  /** delClass in both directions purges one departed client more. */
  lemma UnshapedIsPurged(t: Tree, gone: set<Address>, marks: map<Address, nat>, a: Address)
    requires a in marks
    ensures Unshaped(Purged(t, gone, marks), marks[a]) == Purged(t, gone + {a}, marks)
  {
    hide ClassId, MarkValue, OwnsClass, OwnsFilter;
    var l, r := Unshaped(Purged(t, gone, marks), marks[a]), Purged(t, gone + {a}, marks);
    forall n
      ensures n in l.classes <==> n in r.classes
      ensures n in l.filters <==> n in r.filters
    {
      OwnsOneMore(gone, marks, a, n);
    }
    assert l.classes == r.classes && l.filters == r.filters;
  }

  /** What is left of a tree without strays once the departed clients are purged belongs to the others. */
  lemma PurgedHasNoStray(t: Tree, clients: set<Address>, live: map<Address, nat>, gone: set<Address>,
                         more: set<Address>, next: map<Address, nat>)
    requires NoStray(t, clients, live)
    requires forall a :: a in clients && a in live && a !in gone ==> a in more && a in next && next[a] == live[a]
    ensures NoStray(Purged(t, gone, live), more, next)
  {
    hide ClassId, MarkValue;
    forall c | c in Purged(t, gone, live).classes
      ensures OwnsClass(more, next, c)
    {
      var b, d :| b in clients && b in live && c == ClassId(live[b], d);
      assert b in gone ==> OwnsClass(gone, live, c);
    }
    forall f | f in Purged(t, gone, live).filters
      ensures OwnsFilter(more, next, f)
    {
      var b, d :| b in clients && b in live && f == MarkValue(live[b], d);
      assert b in gone ==> OwnsFilter(gone, live, f);
    }
  }

  /** A tree holds all of another one's entries, and beyond them only the given clients'. */
  ghost predicate Extends(base: Tree, t: Tree, clients: set<Address>, live: map<Address, nat>) {
    && (forall c :: c in base.classes ==> c in t.classes)
    && (forall f :: f in base.filters ==> f in t.filters)
    && (forall c :: c in t.classes ==> c in base.classes || OwnsClass(clients, live, c))
    && (forall f :: f in t.filters ==> f in base.filters || OwnsFilter(clients, live, f))
  }

  lemma OwnersGrow(clients: set<Address>, live: map<Address, nat>, more: set<Address>, next: map<Address, nat>, n: nat)
    requires clients <= more && forall a :: a in live ==> a in next && next[a] == live[a]
    ensures OwnsClass(clients, live, n) ==> OwnsClass(more, next, n)
    ensures OwnsFilter(clients, live, n) ==> OwnsFilter(more, next, n)
  {
    hide ClassId, MarkValue;
    if OwnsClass(clients, live, n) {
      var b, d :| b in clients && b in live && n == ClassId(live[b], d);
      assert next[b] == live[b] && b in more;
    }
    if OwnsFilter(clients, live, n) {
      var b, d :| b in clients && b in live && n == MarkValue(live[b], d);
      assert next[b] == live[b] && b in more;
    }
  }

  lemma ShapedExtends(base: Tree, t: Tree, clients: set<Address>, live: map<Address, nat>, more: set<Address>,
                      next: map<Address, nat>, a: Address, kbps: nat)
    requires Extends(base, t, clients, live) && clients <= more && a in more && a in next
    requires forall b :: b in live ==> b in next && next[b] == live[b]
    ensures Extends(base, Shaped(t, next[a], kbps), more, next)
  {
    hide ClassId, MarkValue, OwnsClass, OwnsFilter;
    var r := Shaped(t, next[a], kbps);
    OwnsOwn(more, next, a);
    forall c | c in r.classes
      ensures c in base.classes || OwnsClass(more, next, c)
    {
      OwnersGrow(clients, live, more, next, c);
    }
    forall f | f in r.filters
      ensures f in base.filters || OwnsFilter(more, next, f)
    {
      OwnersGrow(clients, live, more, next, f);
    }
  }

  lemma OwnsOwn(clients: set<Address>, live: map<Address, nat>, a: Address)
    requires a in clients && a in live
    ensures forall d :: OwnsClass(clients, live, ClassId(live[a], d))
              && OwnsFilter(clients, live, MarkValue(live[a], d))
  {
    hide ClassId, MarkValue;
  }

  lemma ShapedServes(t: Tree, mark: nat, kbps: nat)
    requires InRange(mark)
    ensures Serves(Shaped(t, mark, kbps), mark, kbps)
  {
    hide ClassId, MarkValue;
    EncodingsAreInjective(mark, Download, mark, Upload);
    forall d: Direction
      ensures var r := Shaped(t, mark, kbps);
              && ClassId(mark, d) in r.classes && r.classes[ClassId(mark, d)] == kbps
              && MarkValue(mark, d) in r.filters && r.filters[MarkValue(mark, d)] == ClassId(mark, d)
    {
      assert d == Download || d == Upload;
    }
  }

  /** Shaping one client leaves another one's service alone. */
  lemma ShapedKeepsServing(t: Tree, mark: nat, kbps: nat, other: nat, rate: nat)
    requires InRange(mark) && InRange(other) && mark != other && Serves(t, other, rate)
    ensures Serves(Shaped(t, mark, kbps), other, rate)
  {
    hide ClassId, MarkValue;
    forall d: Direction
      ensures var r := Shaped(t, mark, kbps);
              && ClassId(other, d) in r.classes && r.classes[ClassId(other, d)] == rate
              && MarkValue(other, d) in r.filters && r.filters[MarkValue(other, d)] == ClassId(other, d)
    {
      EncodingsAreInjective(mark, Download, other, d);
      EncodingsAreInjective(mark, Upload, other, d);
    }
  }
}
