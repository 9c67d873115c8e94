/** Restoring the pruned wire order on a reconstructed header block, whose rewritten names the recipe applier
    has regrouped (Section 16.3 of draft-ietf-dkim-dkim2-spec-09). */
module Restore {
  import opened Octets
  import opened RawMessage
  import HeaderHash

  type Names = set<octets>

  function NamesOf(b: Block): (r: Names)
    ensures forall n :: n in r <==> exists i :: 0 <= i < |b| && b[i].Name() == n
  {
    set i | 0 <= i < |b| :: b[i].Name()
  }

  // ---- What restoring means

  /** The wire pass: untouched fields stay, a touched name's floor group stands at its first occurrence. */
  function Wire(pruned: Block, floor: Block, touched: Names): Block {
    if pruned == [] then []
    else
      var init, f := pruned[..|pruned| - 1], pruned[|pruned| - 1];
      Wire(init, floor, touched)
      + if f.Name() !in touched then [f] else if f.Name() in NamesOf(init) then [] else Named(floor, f.Name())
  }

  /** The tail pass over floor names: touched groups that no wire field anchors, in floor order. */
  function Tail(order: seq<octets>, floor: Block, wire: Names, touched: Names): Block {
    if order == [] then []
    else
      var init, name := order[..|order| - 1], order[|order| - 1];
      Tail(init, floor, wire, touched)
      + if name in touched && name !in wire && name !in init then Named(floor, name) else []
  }

  /** The names of a block in order of first occurrence. */
  function FirstNames(b: Block): (r: seq<octets>)
    ensures forall name :: name in r <==> name in NamesOf(b)
  {
    if b == [] then []
    else
      var init, f := b[..|b| - 1], b[|b| - 1];
      assert b == init + [f];
      NamesSnoc(init, f);
      FirstNames(init) + if f.Name() in NamesOf(init) then [] else [f.Name()]
  }

  function Restored(pruned: Block, floor: Block, touched: Names): Block {
    Wire(pruned, floor, touched) + Tail(FirstNames(floor), floor, NamesOf(pruned), touched)
  }

  ghost predicate UntouchedGroupsAgree(pruned: Block, floor: Block, touched: Names) {
    forall name | name !in touched :: Named(pruned, name) == Named(floor, name)
  }

  // ---- Groups of the result

  lemma {:induction false} NamedAbsent(b: Block, name: octets)
    ensures Named(b, name) == [] <==> name !in NamesOf(b)
  {
    if Named(b, name) != [] {
      var f := Named(b, name)[0];
      assert f in b;
    }
    forall i | 0 <= i < |b| && b[i].Name() == name ensures Named(b, name) != [] {
      assert b[i] in Named(b, name);
    }
  }

  lemma {:induction false} NamedUniform(b: Block, inner: octets, outer: octets)
    requires forall f | f in b :: f.Name() == inner
    ensures Named(b, outer) == if inner == outer then b else []
  {
    if b != [] {
      assert b == [b[0]] + b[1..];
      NamedUniform(b[1..], inner, outer);
    }
  }

  lemma {:induction false} WireGroup(pruned: Block, floor: Block, touched: Names, name: octets)
    ensures Named(Wire(pruned, floor, touched), name) ==
      if name !in touched then Named(pruned, name)
      else if name in NamesOf(pruned) then Named(floor, name) else []
  {
    hide NamesOf, Lower;
    if pruned == [] {
      assert NamesOf([]) == {};
    } else {
      var init, f := pruned[..|pruned| - 1], pruned[|pruned| - 1];
      assert pruned == init + [f];
      WireGroup(init, floor, touched, name);
      NamedSnoc(init, f, name);
      assert NamesOf(pruned) == NamesOf(init) + {f.Name()} by {
        NamesSnoc(init, f);
      }
      var before := Wire(init, floor, touched);
      if f.Name() !in touched {
        NamedSnoc(before, f, name);
      } else if f.Name() in NamesOf(init) {
        assert before + [] == before;
      } else {
        NamedConcat(before, Named(floor, f.Name()), name);
        NamedUniform(Named(floor, f.Name()), f.Name(), name);
      }
    }
  }

  lemma NamesSnoc(b: Block, f: Field)
    ensures NamesOf(b + [f]) == NamesOf(b) + {f.Name()}
  {
    var c := b + [f];
    forall n ensures n in NamesOf(c) <==> n in NamesOf(b) + {f.Name()} {
      if n in NamesOf(b) {
        var i :| 0 <= i < |b| && b[i].Name() == n;
        assert c[i].Name() == n;
      }
      if n == f.Name() {
        assert c[|b|].Name() == n;
      }
      if n in NamesOf(c) {
        var i :| 0 <= i < |c| && c[i].Name() == n;
        assert i == |b| || b[i].Name() == n;
      }
    }
  }

  lemma {:induction false} TailGroup(order: seq<octets>, floor: Block, wire: Names, touched: Names, name: octets)
    ensures Named(Tail(order, floor, wire, touched), name) ==
      if name in touched && name !in wire && name in order then Named(floor, name) else []
  {
    if order != [] {
      var init, last := order[..|order| - 1], order[|order| - 1];
      assert order == init + [last];
      TailGroup(init, floor, wire, touched, name);
      var before := Tail(init, floor, wire, touched);
      if last in touched && last !in wire && last !in init {
        NamedConcat(before, Named(floor, last), name);
        NamedUniform(Named(floor, last), last, name);
      } else {
        assert before + [] == before;
      }
    }
  }

  /** Every name keeps its floor sequence. */
  lemma RestoredGroup(pruned: Block, floor: Block, touched: Names, name: octets)
    requires UntouchedGroupsAgree(pruned, floor, touched)
    ensures Named(Restored(pruned, floor, touched), name) == Named(floor, name)
  {
    NamedConcat(Wire(pruned, floor, touched), Tail(FirstNames(floor), floor, NamesOf(pruned), touched), name);
    WireGroup(pruned, floor, touched, name);
    TailGroup(FirstNames(floor), floor, NamesOf(pruned), touched, name);
    NamedAbsent(floor, name);
  }

  /** The restored block is a permutation of the floor block. */
  lemma RestoredPermutation(pruned: Block, floor: Block, touched: Names)
    requires UntouchedGroupsAgree(pruned, floor, touched)
    ensures multiset(Restored(pruned, floor, touched)) == multiset(floor)
    ensures |Restored(pruned, floor, touched)| == |floor|
  {
    forall name ensures Named(Restored(pruned, floor, touched), name) == Named(floor, name) {
      RestoredGroup(pruned, floor, touched, name);
    }
    SameGroupsPermutation(Restored(pruned, floor, touched), floor);
    assert |multiset(Restored(pruned, floor, touched))| == |multiset(floor)|;
  }

  /** Restoring leaves the Section 6.2 header hash input of the floor octet for octet. */
  lemma RestoreKeepsHash(limits: HeaderHash.Limits, pruned: Block, floor: Block, touched: Names)
    requires UntouchedGroupsAgree(pruned, floor, touched) && HeaderHash.HashInput(limits, floor).Ok?
    ensures HeaderHash.HashInput(limits, Restored(pruned, floor, touched)) == HeaderHash.HashInput(limits, floor)
  {
    var restored := Restored(pruned, floor, touched);
    RestoredPermutation(pruned, floor, touched);
    forall name | HeaderHash.Relevant(name) ensures HeaderHash.Values(floor, name) == HeaderHash.Values(restored, name) {
      RestoredGroup(pruned, floor, touched, name);
      HeaderHash.SameNamedSameValues(floor, restored, name);
    }
    HeaderHash.SameValuesSameInput(limits, floor, restored);
  }

  // ---- Order of the result

  /** The fields whose names no recipe rewrote. */
  function Untouched(b: Block, touched: Names): Block {
    if b == [] then []
    else Untouched(b[..|b| - 1], touched) + if b[|b| - 1].Name() in touched then [] else [b[|b| - 1]]
  }

  lemma {:induction false} UntouchedConcat(a: Block, b: Block, touched: Names)
    ensures Untouched(a + b, touched) == Untouched(a, touched) + Untouched(b, touched)
  {
    if b == [] {
      assert a + b == a;
    } else {
      var init, f := b[..|b| - 1], b[|b| - 1];
      assert (a + b)[..|a + b| - 1] == a + init;
      UntouchedConcat(a, init, touched);
    }
  }

  lemma {:induction false} TouchedGroupVanishes(b: Block, touched: Names)
    requires forall f | f in b :: f.Name() in touched
    ensures Untouched(b, touched) == []
  {
    if b != [] {
      TouchedGroupVanishes(b[..|b| - 1], touched);
    }
  }

  lemma {:induction false} WireUntouched(pruned: Block, floor: Block, touched: Names)
    ensures Untouched(Wire(pruned, floor, touched), touched) == Untouched(pruned, touched)
  {
    if pruned != [] {
      var init, f := pruned[..|pruned| - 1], pruned[|pruned| - 1];
      WireUntouched(init, floor, touched);
      var before := Wire(init, floor, touched);
      if f.Name() !in touched {
        assert (before + [f])[..|before|] == before;
      } else if f.Name() in NamesOf(init) {
        assert before + [] == before;
      } else {
        UntouchedConcat(before, Named(floor, f.Name()), touched);
        TouchedGroupVanishes(Named(floor, f.Name()), touched);
      }
    }
  }

  lemma {:induction false} TailUntouched(order: seq<octets>, floor: Block, wire: Names, touched: Names)
    ensures Untouched(Tail(order, floor, wire, touched), touched) == []
  {
    if order != [] {
      var init, name := order[..|order| - 1], order[|order| - 1];
      TailUntouched(init, floor, wire, touched);
      var before := Tail(init, floor, wire, touched);
      if name in touched && name !in wire && name !in init {
        UntouchedConcat(before, Named(floor, name), touched);
        TouchedGroupVanishes(Named(floor, name), touched);
      } else {
        assert before + [] == before;
      }
    }
  }

  /** The fields no recipe rewrote stand in wire order. */
  lemma RestoredUntouched(pruned: Block, floor: Block, touched: Names)
    ensures Untouched(Restored(pruned, floor, touched), touched) == Untouched(pruned, touched)
  {
    WireUntouched(pruned, floor, touched);
    TailUntouched(FirstNames(floor), floor, NamesOf(pruned), touched);
    UntouchedConcat(Wire(pruned, floor, touched), Tail(FirstNames(floor), floor, NamesOf(pruned), touched), touched);
  }

  /** `b` holds the group of `name` in one piece, preceded by exactly the untouched fields `before`. */
  ghost predicate ContiguousAfter(b: Block, name: octets, group: Block, before: Block, touched: Names) {
    exists a: Block, z: Block ::
      b == a + group + z && name !in NamesOf(a) && name !in NamesOf(z) && Untouched(a, touched) == before
  }

  lemma NamesConcat(a: Block, b: Block)
    ensures NamesOf(a + b) == NamesOf(a) + NamesOf(b)
  {
    var c := a + b;
    forall n ensures n in NamesOf(c) <==> n in NamesOf(a) + NamesOf(b) {
      if n in NamesOf(a) {
        var i :| 0 <= i < |a| && a[i].Name() == n;
        assert c[i].Name() == n;
      }
      if n in NamesOf(b) {
        var i :| 0 <= i < |b| && b[i].Name() == n;
        assert c[|a| + i].Name() == n;
      }
      if n in NamesOf(c) {
        var i :| 0 <= i < |c| && c[i].Name() == n;
        assert if i < |a| then a[i].Name() == n else b[i - |a|].Name() == n;
      }
    }
  }

  lemma NamesByGroups(b: Block, name: octets)
    requires Named(b, name) == []
    ensures name !in NamesOf(b)
  {
    NamedAbsent(b, name);
  }

  lemma ContiguousExtended(b: Block, last: Block, name: octets, group: Block, before: Block, touched: Names)
    requires ContiguousAfter(b, name, group, before, touched) && name !in NamesOf(last)
    ensures ContiguousAfter(b + last, name, group, before, touched)
  {
    hide NamesOf, Untouched;
    var a: Block, z: Block :| b == a + group + z && name !in NamesOf(a) && name !in NamesOf(z)
      && Untouched(a, touched) == before;
    NamesConcat(z, last);
    Append(a, group, z, last);
  }

  lemma Append(a: Block, group: Block, z: Block, last: Block)
    ensures (a + group + z) + last == a + group + (z + last)
  {
  }

  lemma ContiguousHere(b: Block, name: octets, group: Block, touched: Names)
    requires name !in NamesOf(b)
    ensures ContiguousAfter(b + group, name, group, Untouched(b, touched), touched)
  {
    assert b + group == b + group + [];
    assert NamesOf([]) == {};
  }

  function WireStep(init: Block, f: Field, floor: Block, touched: Names): Block {
    if f.Name() !in touched then [f] else if f.Name() in NamesOf(init) then [] else Named(floor, f.Name())
  }

  lemma WireStepNames(init: Block, f: Field, floor: Block, touched: Names, name: octets)
    requires f.Name() == name ==> name in touched && name in NamesOf(init)
    ensures name !in NamesOf(WireStep(init, f, floor, touched))
  {
    var step := WireStep(init, f, floor, touched);
    assert forall g | g in step :: g.Name() == f.Name();
  }

  /** A rewritten name with a wire anchor: its group stands in one piece where the name first occurs. */
  lemma {:induction false} WireAnchored(pruned: Block, floor: Block, touched: Names, i: nat)
    requires i < |pruned| && pruned[i].Name() in touched && pruned[i].Name() !in NamesOf(pruned[..i])
    ensures ContiguousAfter(Wire(pruned, floor, touched), pruned[i].Name(), Named(floor, pruned[i].Name()),
                            Untouched(pruned[..i], touched), touched)
  {
    var init, f, name := pruned[..|pruned| - 1], pruned[|pruned| - 1], pruned[i].Name();
    var before := Wire(init, floor, touched);
    if i == |init| {
      assert pruned[..i] == init;
      WireUntouched(init, floor, touched);
      WireGroup(init, floor, touched, name);
      NamesByGroups(before, name);
      ContiguousHere(before, name, Named(floor, name), touched);
    } else {
      assert init[i] == pruned[i] && init[..i] == pruned[..i];
      WireAnchored(init, floor, touched, i);
      assert init[i].Name() == name;
      WireStepNames(init, f, floor, touched, name);
      ContiguousExtended(before, WireStep(init, f, floor, touched), name, Named(floor, name),
                         Untouched(pruned[..i], touched), touched);
    }
  }

  /** The same of the whole result: anchored rewritten names are contiguous at their first wire position. */
  lemma RestoredAnchored(pruned: Block, floor: Block, touched: Names, i: nat)
    requires i < |pruned| && pruned[i].Name() in touched && pruned[i].Name() !in NamesOf(pruned[..i])
    ensures ContiguousAfter(Restored(pruned, floor, touched), pruned[i].Name(), Named(floor, pruned[i].Name()),
                            Untouched(pruned[..i], touched), touched)
  {
    var name := pruned[i].Name();
    WireAnchored(pruned, floor, touched, i);
    TailGroup(FirstNames(floor), floor, NamesOf(pruned), touched, name);
    NamesByGroups(Tail(FirstNames(floor), floor, NamesOf(pruned), touched), name);
    ContiguousExtended(Wire(pruned, floor, touched), Tail(FirstNames(floor), floor, NamesOf(pruned), touched), name,
                       Named(floor, name), Untouched(pruned[..i], touched), touched);
  }

  lemma {:induction false} TailUnanchored(order: seq<octets>, floor: Block, wire: Names, touched: Names, name: octets)
    requires name in touched && name !in wire && name in order
    ensures ContiguousAfter(Tail(order, floor, wire, touched), name, Named(floor, name), [], touched)
  {
    var init, next := order[..|order| - 1], order[|order| - 1];
    assert order == init + [next];
    var before := Tail(init, floor, wire, touched);
    if name in init {
      TailUnanchored(init, floor, wire, touched, name);
      var last := if next in touched && next !in wire && next !in init then Named(floor, next) else [];
      assert forall g | g in last :: g.Name() == next != name;
      ContiguousExtended(before, last, name, Named(floor, name), [], touched);
    } else {
      TailUntouched(init, floor, wire, touched);
      TailGroup(init, floor, wire, touched, name);
      NamesByGroups(before, name);
      ContiguousHere(before, name, Named(floor, name), touched);
    }
  }

  lemma ContiguousBehind(front: Block, b: Block, name: octets, group: Block, before: Block, touched: Names)
    requires ContiguousAfter(b, name, group, before, touched) && name !in NamesOf(front)
    ensures ContiguousAfter(front + b, name, group, Untouched(front, touched) + before, touched)
  {
    var a: Block, z: Block :| b == a + group + z && name !in NamesOf(a) && name !in NamesOf(z)
      && Untouched(a, touched) == before;
    NamesConcat(front, a);
    UntouchedConcat(front, a, touched);
    Regroup(front, a, group, z);
  }

  lemma Regroup(front: Block, a: Block, group: Block, z: Block)
    ensures front + (a + group + z) == (front + a) + group + z
  {
  }

  /** A rewritten name without a wire anchor is contiguous behind all wire fields. */
  lemma RestoredUnanchored(pruned: Block, floor: Block, touched: Names, name: octets)
    requires name in touched && name !in NamesOf(pruned) && name in NamesOf(floor)
    ensures ContiguousAfter(Restored(pruned, floor, touched), name, Named(floor, name), Untouched(pruned, touched), touched)
  {
    var wire := Wire(pruned, floor, touched);
    TailUnanchored(FirstNames(floor), floor, NamesOf(pruned), touched, name);
    WireGroup(pruned, floor, touched, name);
    NamesByGroups(wire, name);
    WireUntouched(pruned, floor, touched);
    ContiguousBehind(wire, Tail(FirstNames(floor), floor, NamesOf(pruned), touched), name, Named(floor, name), [], touched);
    assert Untouched(pruned, touched) + [] == Untouched(pruned, touched);
  }

  // ---- The restoring loops

  ghost predicate GroupsOf(groups: map<octets, Block>, b: Block) {
    && groups.Keys == NamesOf(b)
    && forall name | name in groups :: groups[name] == Named(b, name)
  }

  function GroupOr(groups: map<octets, Block>, name: octets): Block {
    if name in groups then groups[name] else []
  }

  function CountOr(counts: map<octets, nat>, name: octets): nat {
    if name in counts then counts[name] else 0
  }

  /** The floor groups by name, and the names in order of first occurrence. */
  method GroupByName(b: Block) returns (groups: map<octets, Block>, order: seq<octets>)
    ensures GroupsOf(groups, b)
    ensures order == FirstNames(b)
  {
    groups, order := map[], [];
    var i := 0;
    assert b[..|b|] == b && b[..0] == [];
    GroupsStart();
    hide GroupState, GroupsOf, FirstNames, NamesOf, Named, Lower, GroupOr;
    while i < |b|
      invariant 0 <= i <= |b|
      invariant GroupState(groups, order, b[..i])
    {
      PrefixSnoc(b, i);
      groups, order := GroupField(groups, order, b[i], b[..i]);
      i := i + 1;
    }
    GroupsDone(groups, order, b);
  }

  method GroupField(groups: map<octets, Block>, order: seq<octets>, f: Field, ghost b: Block)
    returns (groups': map<octets, Block>, order': seq<octets>)
    requires GroupState(groups, order, b)
    ensures GroupState(groups', order', b + [f])
  {
    hide GroupState, Lower, GroupOr;
    GroupRound(groups, order, b, f);
    var name := f.Name();
    order' := order + if name in groups then [] else [name];
    groups' := groups[name := GroupOr(groups, name) + [f]];
  }

  /** The groups and the order of the fields read so far. */
  ghost predicate GroupState(groups: map<octets, Block>, order: seq<octets>, b: Block) {
    GroupsOf(groups, b) && order == FirstNames(b)
  }

  lemma GroupRound(groups: map<octets, Block>, order: seq<octets>, b: Block, f: Field)
    requires GroupState(groups, order, b)
    ensures var name := f.Name();
      GroupState(groups[name := GroupOr(groups, name) + [f]], order + if name in groups then [] else [name], b + [f])
  {
    hide GroupsOf, FirstNames, NamesOf, Lower;
    GroupsStep(groups, b, f);
    FirstNamesSnoc(b, f);
  }

  lemma GroupsDone(groups: map<octets, Block>, order: seq<octets>, b: Block)
    requires GroupState(groups, order, b)
    ensures GroupsOf(groups, b) && order == FirstNames(b)
  {
  }

  lemma GroupsStart()
    ensures GroupState(map[], [], [])
  {
  }

  lemma FirstNamesSnoc(b: Block, f: Field)
    ensures FirstNames(b + [f]) == FirstNames(b) + if f.Name() in NamesOf(b) then [] else [f.Name()]
  {
    hide NamesOf;
    assert (b + [f])[..|b|] == b;
  }

  lemma GroupsStep(groups: map<octets, Block>, b: Block, f: Field)
    requires GroupsOf(groups, b)
    ensures f.Name() in groups <==> f.Name() in NamesOf(b)
    ensures GroupsOf(groups[f.Name() := GroupOr(groups, f.Name()) + [f]], b + [f])
  {
    var next := groups[f.Name() := GroupOr(groups, f.Name()) + [f]];
    NamesSnoc(b, f);
    forall name | name in next ensures next[name] == Named(b + [f], name) {
      NamedSnoc(b, f, name);
      NamedAbsent(b, name);
    }
  }

  lemma {:induction false} NamedPrefix(b: Block, k: nat, name: octets)
    requires k <= |b|
    ensures Named(b[..k], name) <= Named(b, name)
  {
    assert b == b[..k] + b[k..];
    NamedConcat(b[..k], b[k..], name);
  }

  /** The wire pass so far: every untouched group read is a prefix of its floor group, counted in `consumed`. */
  ghost predicate Consumed(counts: map<octets, nat>, wire: Block, floor: Block, touched: Names) {
    forall name | name !in touched ::
      Named(wire, name) <= Named(floor, name) && CountOr(counts, name) == |Named(wire, name)|
  }

  lemma ConsumedTouched(counts: map<octets, nat>, wire: Block, floor: Block, touched: Names, f: Field)
    requires Consumed(counts, wire, floor, touched) && f.Name() in touched
    ensures Consumed(counts, wire + [f], floor, touched)
  {
    forall name | name !in touched ensures Named(wire + [f], name) == Named(wire, name) {
      NamedSnoc(wire, f, name);
    }
  }

  lemma ConsumedUntouched(counts: map<octets, nat>, wire: Block, floor: Block, touched: Names, f: Field)
    requires Consumed(counts, wire, floor, touched) && f.Name() !in touched
    requires CountOr(counts, f.Name()) < |Named(floor, f.Name())|
    requires Named(floor, f.Name())[CountOr(counts, f.Name())] == f
    ensures Consumed(counts[f.Name() := CountOr(counts, f.Name()) + 1], wire + [f], floor, touched)
  {
    var next := counts[f.Name() := CountOr(counts, f.Name()) + 1];
    forall name | name !in touched
      ensures Named(wire + [f], name) <= Named(floor, name) && CountOr(next, name) == |Named(wire + [f], name)|
    {
      NamedSnoc(wire, f, name);
      assert Named(wire, name) <= Named(floor, name) && CountOr(counts, name) == |Named(wire, name)|;
      if name == f.Name() {
        PrefixExtended(Named(wire, name), Named(floor, name), f);
      } else {
        assert Named(wire, name) + [] == Named(wire, name);
      }
    }
  }

  lemma PrefixExtended(a: Block, group: Block, f: Field)
    requires a <= group && |a| < |group| && group[|a|] == f
    ensures a + [f] <= group
  {
  }

  lemma Mismatch(pruned: Block, i: nat, floor: Block, index: nat)
    requires i < |pruned| && index == |Named(pruned[..i], pruned[i].Name())|
    requires var group := Named(floor, pruned[i].Name()); index >= |group| || group[index] != pruned[i]
    ensures !(Named(pruned, pruned[i].Name()) <= Named(floor, pruned[i].Name()))
  {
    hide Lower, Named;
    var name := pruned[i].Name();
    assert pruned[..i + 1] == pruned[..i] + [pruned[i]];
    NamedSnoc(pruned[..i], pruned[i], name);
    NamedPrefix(pruned, i + 1, name);
    assert Named(pruned, name)[index] == pruned[i];
  }

  /** The next floor field of the same name has the same octets. */
  method NextMatches(f: Field, floor: Block, groups: map<octets, Block>, index: nat) returns (ok: bool)
    requires f.Valid() && ValidBlock(floor) && GroupsOf(groups, floor)
    ensures ok <==> index < |Named(floor, f.Name())| && Named(floor, f.Name())[index] == f
  {
    NamedAbsent(floor, f.Name());
    var group := GroupOr(groups, f.Name());
    if index >= |group| {
      return false;
    }
    assert group[index] in floor;
    if group[index].Raw() == f.Raw() {
      RawInjective(group[index], f);
    }
    return group[index].Raw() == f.Raw();
  }

  lemma WireSnoc(wire: Block, f: Field, floor: Block, touched: Names)
    ensures Wire(wire + [f], floor, touched) == Wire(wire, floor, touched) + WireStep(wire, f, floor, touched)
    ensures NamesOf(wire + [f]) == NamesOf(wire) + {f.Name()}
  {
    assert (wire + [f])[..|wire|] == wire;
    NamesSnoc(wire, f);
  }

  /** What the wire pass knows after reading `wire`. */
  ghost predicate WireState(wire: Block, floor: Block, touched: Names, ordered: Block, emitted: Names,
                            consumed: map<octets, nat>) {
    && ordered == Wire(wire, floor, touched)
    && emitted == touched * NamesOf(wire)
    && Consumed(consumed, wire, floor, touched)
  }

  /** One round of the wire pass, on the field that follows `wire`. */
  method WireField(f: Field, ghost wire: Block, floor: Block, groups: map<octets, Block>, touched: Names,
                   ordered: Block, emitted: Names, consumed: map<octets, nat>)
    returns (ok: bool, ordered': Block, emitted': Names, consumed': map<octets, nat>)
    requires f.Valid() && ValidBlock(floor) && GroupsOf(groups, floor)
    requires WireState(wire, floor, touched, ordered, emitted, consumed)
    ensures ok ==> WireState(wire + [f], floor, touched, ordered', emitted', consumed')
    ensures !ok ==>
      f.Name() !in touched
      && var group, index := Named(floor, f.Name()), |Named(wire, f.Name())|; index >= |group| || group[index] != f
  {
    hide Lower, Named, Wire, ValidBlock;
    ordered', emitted', consumed' := ordered, emitted, consumed;
    var name := f.Name();
    WireSnoc(wire, f, floor, touched);
    if name in touched {
      ConsumedTouched(consumed, wire, floor, touched, f);
      if name !in emitted {
        NamedAbsent(floor, name);
        emitted' := emitted + {name};
        ordered' := ordered + GroupOr(groups, name);
      }
      return true, ordered', emitted', consumed';
    }
    var index := CountOr(consumed, name);
    ok := NextMatches(f, floor, groups, index);
    if ok {
      ConsumedUntouched(consumed, wire, floor, touched, f);
      consumed' := consumed[name := index + 1];
      ordered' := ordered + [f];
    }
  }

  lemma WireStart(floor: Block, touched: Names)
    ensures WireState([], floor, touched, [], {}, map[])
  {
  }

  lemma PrefixSnoc<T>(s: seq<T>, i: nat)
    requires i < |s|
    ensures s[..i + 1] == s[..i] + [s[i]]
  {
  }

  method WirePass(pruned: Block, floor: Block, groups: map<octets, Block>, touched: Names)
    returns (r: Option<Block>, emitted: Names, consumed: map<octets, nat>)
    requires ValidBlock(pruned) && ValidBlock(floor) && GroupsOf(groups, floor)
    ensures r.Some? ==> WireState(pruned, floor, touched, r.value, emitted, consumed)
    ensures r.None? ==> exists name :: name !in touched && !(Named(pruned, name) <= Named(floor, name))
  {
    var ordered: Block := [];
    emitted, consumed := {}, map[];
    var i, ok := 0, true;
    WireStart(floor, touched);
    assert pruned[..0] == [] && pruned[..|pruned|] == pruned;
    while i < |pruned|
      invariant 0 <= i <= |pruned|
      invariant WireState(pruned[..i], floor, touched, ordered, emitted, consumed)
    {
      PrefixSnoc(pruned, i);
      ok, ordered, emitted, consumed :=
        WireField(pruned[i], pruned[..i], floor, groups, touched, ordered, emitted, consumed);
      if !ok {
        Mismatch(pruned, i, floor, |Named(pruned[..i], pruned[i].Name())|);
        return None, emitted, consumed;
      }
      i := i + 1;
    }
    r := Some(ordered);
  }

  /** Every untouched floor field was met on the wire. */
  ghost predicate AllConsumed(order: seq<octets>, consumed: map<octets, nat>, floor: Block, touched: Names) {
    forall i | 0 <= i < |order| && order[i] !in touched :: CountOr(consumed, order[i]) == |Named(floor, order[i])|
  }

  lemma TailSnoc(order: seq<octets>, name: octets, floor: Block, wire: Names, touched: Names)
    ensures Tail(order + [name], floor, wire, touched) == Tail(order, floor, wire, touched)
      + if name in touched && name !in wire && name !in order then Named(floor, name) else []
    ensures Elements(order + [name]) == Elements(order) + {name}
  {
    assert (order + [name])[..|order|] == order;
    forall n ensures n in Elements(order + [name]) <==> n in Elements(order) + {name} {
      assert n in order + [name] <==> n in order || n == name;
    }
  }

  /** What the tail pass knows after the names `order`. */
  ghost predicate TailState(order: seq<octets>, floor: Block, touched: Names, wire: Names, ordered: Block,
                            emitted: Names) {
    ordered == Tail(order, floor, wire, touched) && emitted == touched * (wire + Elements(order))
  }

  /** One round of the tail pass, on the name that follows `order`. */
  method TailName(name: octets, ghost order: seq<octets>, floor: Block, groups: map<octets, Block>, touched: Names,
                  ghost wire: Names, ordered: Block, emitted: Names)
    returns (ordered': Block, emitted': Names)
    requires GroupsOf(groups, floor) && name in groups
    requires TailState(order, floor, touched, wire, ordered, emitted)
    ensures TailState(order + [name], floor, touched, wire, ordered', emitted')
  {
    hide Named, Tail, Lower;
    ordered', emitted' := ordered, emitted;
    TailSnoc(order, name, floor, wire, touched);
    assert name in touched ==> (name in emitted <==> name in wire || name in order);
    if name in touched && name !in emitted {
      emitted' := emitted + {name};
      ordered' := ordered + groups[name];
    }
  }

  method TailPass(order: seq<octets>, floor: Block, groups: map<octets, Block>, touched: Names, ghost wire: Names,
                  alreadyEmitted: Names, consumed: map<octets, nat>)
    returns (r: Option<Block>)
    requires GroupsOf(groups, floor) && alreadyEmitted == touched * wire
    requires forall i | 0 <= i < |order| :: order[i] in groups
    ensures r.Some? <==> AllConsumed(order, consumed, floor, touched)
    ensures r.Some? ==> r.value == Tail(order, floor, wire, touched)
  {
    var ordered: Block := [];
    var emitted := alreadyEmitted;
    var i := 0;
    assert order[..0] == [] && order[..|order|] == order;
    TailStart(floor, touched, wire);
    while i < |order|
      invariant 0 <= i <= |order|
      invariant TailState(order[..i], floor, touched, wire, ordered, emitted)
      invariant AllConsumed(order[..i], consumed, floor, touched)
    {
      PrefixSnoc(order, i);
      AllConsumedSnoc(order, i, consumed, floor, touched);
      if order[i] !in touched && CountOr(consumed, order[i]) != |groups[order[i]]| {
        return None;
      }
      ordered, emitted := TailName(order[i], order[..i], floor, groups, touched, wire, ordered, emitted);
      i := i + 1;
    }
    return Some(ordered);
  }

  lemma AllConsumedSnoc(order: seq<octets>, i: nat, consumed: map<octets, nat>, floor: Block, touched: Names)
    requires i < |order| && AllConsumed(order[..i], consumed, floor, touched)
    ensures var next := order[i] in touched || CountOr(consumed, order[i]) == |Named(floor, order[i])|;
      if next then AllConsumed(order[..i + 1], consumed, floor, touched) else !AllConsumed(order, consumed, floor, touched)
  {
    PrefixSnoc(order, i);
  }

  lemma TailStart(floor: Block, touched: Names, wire: Names)
    ensures TailState([], floor, touched, wire, [], touched * wire)
  {
    assert Elements([]) == {};
  }

  function Elements(s: seq<octets>): Names {
    set name | name in s
  }

  lemma PrefixesComplete(pruned: Block, floor: Block, consumed: map<octets, nat>, touched: Names)
    requires Consumed(consumed, pruned, floor, touched)
    ensures AllConsumed(FirstNames(floor), consumed, floor, touched) <==> UntouchedGroupsAgree(pruned, floor, touched)
  {
    if AllConsumed(FirstNames(floor), consumed, floor, touched) {
      forall name | name !in touched ensures Named(pruned, name) == Named(floor, name) {
        NamedAbsent(floor, name);
        assert Named(pruned, name) <= Named(floor, name);
        assert |Named(pruned, name)| == |Named(floor, name)|;
      }
    }
  }

  /** Succeeds exactly when every name that no recipe rewrote has the same group before and after. The final
      length check of the source cannot fail. */
  method RestoreWireOrder(pruned: Block, floor: Block, touched: Names) returns (r: Option<Block>)
    requires ValidBlock(pruned) && ValidBlock(floor)
    ensures r.Some? <==> UntouchedGroupsAgree(pruned, floor, touched)
    ensures r.Some? ==> r.value == Restored(pruned, floor, touched)
  {
    var groups, order := GroupByName(floor);
    var wire, emitted, consumed := WirePass(pruned, floor, groups, touched);
    if wire.None? {
      return None;
    }
    var tail := TailPass(order, floor, groups, touched, NamesOf(pruned), emitted, consumed);
    PrefixesComplete(pruned, floor, consumed, touched);
    if tail.None? {
      return None;
    }
    var ordered := wire.value + tail.value;
    RestoredPermutation(pruned, floor, touched);
    if |ordered| != |floor| {
      assert false; // every floor field is emitted once
    }
    return Some(ordered);
  }
}
