/** Where restoring puts the groups of rewritten names: in order of first wire position, then in floor order. */
module RestoredOrder {
  import opened Octets
  import opened RawMessage
  import opened Restore

  /** The name `n` first occurs in `b` before any field of `m`. */
  predicate OccursFirst(b: Block, n: octets, m: octets) {
    exists i :: 0 <= i < |b| && b[i].Name() == n && m !in NamesOf(b[..i])
  }

  /** `b` holds the two groups, each in one piece, the one of `n` in front of the one of `m`. */
  ghost predicate GroupsInOrder(b: Block, floor: Block, n: octets, m: octets) {
    exists x: Block, y: Block, z: Block :: b == x + Named(floor, n) + y + Named(floor, m) + z
  }

  /** `b` holds the group of a name in one piece. */
  ghost predicate Holds(b: Block, group: Block) {
    exists x: Block, y: Block :: b == x + group + y
  }

  lemma OrderExtended(b: Block, last: Block, floor: Block, n: octets, m: octets)
    requires GroupsInOrder(b, floor, n, m)
    ensures GroupsInOrder(b + last, floor, n, m)
  {
    var x: Block, y: Block, z: Block :| b == x + Named(floor, n) + y + Named(floor, m) + z;
    assert b + last == x + Named(floor, n) + y + Named(floor, m) + (z + last);
  }

  lemma OrderBehind(front: Block, b: Block, floor: Block, n: octets, m: octets)
    requires GroupsInOrder(b, floor, n, m)
    ensures GroupsInOrder(front + b, floor, n, m)
  {
    var x: Block, y: Block, z: Block :| b == x + Named(floor, n) + y + Named(floor, m) + z;
    assert front + b == (front + x) + Named(floor, n) + y + Named(floor, m) + z;
  }

  lemma OrderJoined(a: Block, b: Block, floor: Block, n: octets, m: octets)
    requires Holds(a, Named(floor, n)) && Holds(b, Named(floor, m))
    ensures GroupsInOrder(a + b, floor, n, m)
  {
    var x: Block, y: Block :| a == x + Named(floor, n) + y;
    var v: Block, z: Block :| b == v + Named(floor, m) + z;
    Rejoined(x, Named(floor, n), y, v, Named(floor, m), z);
  }

  lemma Rejoined(x: Block, g: Block, y: Block, v: Block, h: Block, z: Block)
    ensures (x + g + y) + (v + h + z) == x + g + (y + v) + h + z
  {
    assert (x + g + y) + (v + h + z) == x + g + (y + (v + h + z));
    assert y + (v + h + z) == (y + v) + h + z;
    assert x + g + ((y + v) + h + z) == x + g + (y + v) + h + z;
  }

  lemma ContiguousHolds(b: Block, name: octets, group: Block, before: Block, touched: Names)
    requires ContiguousAfter(b, name, group, before, touched)
    ensures Holds(b, group)
  {
    var x: Block, y: Block :| b == x + group + y && name !in NamesOf(x) && name !in NamesOf(y)
      && Untouched(x, touched) == before;
  }

  lemma HoldsItself(group: Block)
    ensures Holds(group, group)
  {
    assert group == [] + group + [];
  }

  // ---- The wire pass

  lemma {:induction false} FirstOccurrence(b: Block, name: octets) returns (i: nat)
    requires name in NamesOf(b)
    ensures i < |b| && b[i].Name() == name && name !in NamesOf(b[..i])
  {
    hide NamesOf, Lower;
    var init, f := b[..|b| - 1], b[|b| - 1];
    assert b == init + [f];
    NamesSnoc(init, f);
    if name in NamesOf(init) {
      i := FirstOccurrence(init, name);
      assert init[..i] == b[..i];
    } else {
      i := |init|;
      assert b[..i] == init;
    }
  }

  lemma FirstInFront(b: Block, n: octets, m: octets)
    requires b != [] && OccursFirst(b, n, m) && m in NamesOf(b[..|b| - 1])
    ensures OccursFirst(b[..|b| - 1], n, m)
  {
    var init := b[..|b| - 1];
    var i :| 0 <= i < |b| && b[i].Name() == n && m !in NamesOf(b[..i]);
    assert i < |init|;
    assert init[..i] == b[..i];
  }

  /** A name that occurs first, in front of the last field, where the other name first occurs. */
  lemma FirstInInit(b: Block, n: octets, m: octets)
    requires b != [] && n != m && OccursFirst(b, n, m) && b[|b| - 1].Name() == m
    ensures n in NamesOf(b[..|b| - 1])
  {
    var init := b[..|b| - 1];
    var i :| 0 <= i < |b| && b[i].Name() == n && m !in NamesOf(b[..i]);
    assert init[i].Name() == n;
  }

  lemma WireHolds(pruned: Block, floor: Block, touched: Names, name: octets)
    requires name in touched && name in NamesOf(pruned)
    ensures Holds(Wire(pruned, floor, touched), Named(floor, name))
  {
    hide NamesOf, Wire, ContiguousAfter;
    var i := FirstOccurrence(pruned, name);
    WireAnchored(pruned, floor, touched, i);
    ContiguousHolds(Wire(pruned, floor, touched), name, Named(floor, name), Untouched(pruned[..i], touched), touched);
  }

  lemma {:induction false} WireOrder(pruned: Block, floor: Block, touched: Names, n: octets, m: octets)
    requires n != m && n in touched && m in touched && m in NamesOf(pruned) && OccursFirst(pruned, n, m)
    ensures GroupsInOrder(Wire(pruned, floor, touched), floor, n, m)
  {
    hide NamesOf, Wire, OccursFirst, GroupsInOrder, Holds, Lower;
    var init, f := pruned[..|pruned| - 1], pruned[|pruned| - 1];
    assert pruned == init + [f];
    WireSnoc(init, f, floor, touched);
    if m in NamesOf(init) {
      FirstInFront(pruned, n, m);
      WireOrder(init, floor, touched, n, m);
      OrderExtended(Wire(init, floor, touched), WireStep(init, f, floor, touched), floor, n, m);
    } else {
      FirstInInit(pruned, n, m);
      WireHolds(init, floor, touched, n);
      HoldsItself(Named(floor, m));
      OrderJoined(Wire(init, floor, touched), Named(floor, m), floor, n, m);
    }
  }

  // ---- The tail pass

  predicate ListedFirst(order: seq<octets>, n: octets, m: octets) {
    exists i :: 0 <= i < |order| && order[i] == n && m !in order[..i]
  }

  lemma TailHolds(order: seq<octets>, floor: Block, wire: Names, touched: Names, name: octets)
    requires name in touched && name !in wire && name in order
    ensures Holds(Tail(order, floor, wire, touched), Named(floor, name))
  {
    hide Tail, ContiguousAfter;
    TailUnanchored(order, floor, wire, touched, name);
    ContiguousHolds(Tail(order, floor, wire, touched), name, Named(floor, name), [], touched);
  }

  lemma {:induction false} TailOrder(order: seq<octets>, floor: Block, wire: Names, touched: Names, n: octets, m: octets)
    requires n != m && n in touched && n !in wire && m in touched && m !in wire
    requires m in order && ListedFirst(order, n, m)
    ensures GroupsInOrder(Tail(order, floor, wire, touched), floor, n, m)
  {
    hide Tail, GroupsInOrder, Holds, Lower;
    var init, last := order[..|order| - 1], order[|order| - 1];
    assert order == init + [last];
    var i :| 0 <= i < |order| && order[i] == n && m !in order[..i];
    TailSnoc(init, last, floor, wire, touched);
    var before := Tail(init, floor, wire, touched);
    if m in init {
      assert i < |init|;
      assert init[i] == n && init[..i] == order[..i];
      TailOrder(init, floor, wire, touched, n, m);
      OrderExtended(before, if last in touched && last !in wire && last !in init then Named(floor, last) else [], floor, n, m);
    } else {
      assert init[i] == n;
      TailHolds(init, floor, wire, touched, n);
      HoldsItself(Named(floor, m));
      OrderJoined(before, Named(floor, m), floor, n, m);
    }
  }

  lemma {:induction false} FirstNamesPrefix(b: Block, i: nat)
    requires i <= |b|
    ensures FirstNames(b[..i]) <= FirstNames(b)
  {
    hide FirstNames, NamesOf;
    if i == |b| {
      assert b[..i] == b;
    } else {
      var init := b[..|b| - 1];
      assert init[..i] == b[..i];
      FirstNamesPrefix(init, i);
      assert b == init + [b[|b| - 1]];
      FirstNamesSnoc(init, b[|b| - 1]);
    }
  }

  lemma FirstNamesOrder(b: Block, n: octets, m: octets)
    requires n != m && OccursFirst(b, n, m)
    ensures ListedFirst(FirstNames(b), n, m)
  {
    hide FirstNames, Lower;
    var i :| 0 <= i < |b| && b[i].Name() == n && m !in NamesOf(b[..i]);
    var front := b[..i + 1];
    assert front == b[..i] + [b[i]];
    NamesSnoc(b[..i], b[i]);
    FirstNamesPrefix(b, i + 1);
    assert n in FirstNames(front) && m !in FirstNames(front);
    var k :| 0 <= k < |FirstNames(front)| && FirstNames(front)[k] == n;
    assert FirstNames(b)[k] == n;
    forall j | 0 <= j < k ensures FirstNames(b)[j] != m {
      assert FirstNames(b)[j] == FirstNames(front)[j];
    }
  }

  // ---- The whole result

  /** A rewritten name stands in front of another: both occur on the wire and it occurs there first, or it alone occurs
      there, or neither does and it occurs first in the floor. */
  predicate Leads(pruned: Block, floor: Block, n: octets, m: octets) {
    if m in NamesOf(pruned) then OccursFirst(pruned, n, m)
    else n in NamesOf(pruned) || OccursFirst(floor, n, m)
  }

  lemma OneOccursFirst(b: Block, n: octets, m: octets)
    requires n != m && n in NamesOf(b)
    ensures OccursFirst(b, n, m) || (m in NamesOf(b) && OccursFirst(b, m, n))
  {
    hide NamesOf;
    var i := FirstOccurrence(b, n);
    if m in NamesOf(b[..i]) {
      var j := FirstOccurrence(b[..i], m);
      assert b[..i][..j] == b[..j] && b == b[..i] + b[i..];
      NamesConcat(b[..j], b[j..i]);
      NamesConcat(b[..i], b[i..]);
      assert b[..i] == b[..j] + b[j..i];
    }
  }

  /** Of two floor names one stands in front of the other. */
  lemma OneLeads(pruned: Block, floor: Block, n: octets, m: octets)
    requires n != m && n in NamesOf(floor) && m in NamesOf(floor)
    ensures Leads(pruned, floor, n, m) || Leads(pruned, floor, m, n)
  {
    hide NamesOf, OccursFirst;
    OneOccursFirst(floor, n, m);
    if n in NamesOf(pruned) {
      OneOccursFirst(pruned, n, m);
    }
  }

  /** The groups of two rewritten names stand in this order in the restored block. */
  lemma RestoredLeads(pruned: Block, floor: Block, touched: Names, n: octets, m: octets)
    requires n != m && n in touched && m in touched && m in NamesOf(floor) && Leads(pruned, floor, n, m)
    ensures GroupsInOrder(Restored(pruned, floor, touched), floor, n, m)
  {
    hide NamesOf, Wire, Tail, FirstNames, OccursFirst, GroupsInOrder, Holds, ListedFirst;
    var wire, order := Wire(pruned, floor, touched), FirstNames(floor);
    var tail := Tail(order, floor, NamesOf(pruned), touched);
    if m in NamesOf(pruned) {
      WireOrder(pruned, floor, touched, n, m);
      OrderExtended(wire, tail, floor, n, m);
    } else if n in NamesOf(pruned) {
      WireHolds(pruned, floor, touched, n);
      TailHolds(order, floor, NamesOf(pruned), touched, m);
      OrderJoined(wire, tail, floor, n, m);
    } else {
      FirstNamesOrder(floor, n, m);
      TailOrder(order, floor, NamesOf(pruned), touched, n, m);
      OrderBehind(wire, tail, floor, n, m);
    }
  }
}
