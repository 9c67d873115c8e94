/** The AND/OR group structure of an h= or s= value: groups separated by `|`, sets inside a group by `,`. */
module Layouts {
  import opened Octets

  const ALL_SEPARATOR := ','
  const ANY_SEPARATOR := '|'
  const MAX_SETS := 16

  function Sum(sizes: seq<nat>): nat {
    if sizes == [] then 0 else Sum(sizes[..|sizes| - 1]) + sizes[|sizes| - 1]
  }

  predicate Positive(sizes: seq<nat>) {
    forall i | 0 <= i < |sizes| :: sizes[i] > 0
  }

  function Zeros(n: nat): (r: seq<nat>)
    ensures |r| == n
  {
    seq(n, _ => 0)
  }

  /** A fixed array of group sizes, the first `groups` of them in use. */
  datatype Layout = Layout(sizes: seq<nat>, groups: nat) {
    function InUse(): seq<nat>
      requires groups <= |sizes|
    {
      sizes[..groups]
    }

    predicate Valid() {
      && |sizes| == MAX_SETS && 1 <= groups <= MAX_SETS
      && Positive(InUse()) && Sum(InUse()) <= MAX_SETS
      && sizes[groups..] == Zeros(MAX_SETS - groups)
    }

    function Sets(): nat
      requires groups <= |sizes|
    {
      Sum(InUse())
    }

    /** Where a group starts. */
    function Start(group: nat): nat
      requires group <= groups <= |sizes|
    {
      Sum(sizes[..group])
    }
  }

  function LayoutOf(sizes: seq<nat>): Layout
    requires |sizes| <= MAX_SETS
  {
    Layout(sizes + Zeros(MAX_SETS - |sizes|), |sizes|)
  }

  predicate SizesOk(sizes: seq<nat>) {
    1 <= |sizes| <= MAX_SETS && Positive(sizes) && Sum(sizes) <= MAX_SETS
  }

  lemma SumSnoc(sizes: seq<nat>, size: nat)
    ensures Sum(sizes + [size]) == Sum(sizes) + size
  {
    assert (sizes + [size])[..|sizes|] == sizes;
  }

  lemma SumStep(sizes: seq<nat>, i: nat)
    requires i < |sizes|
    ensures Sum(sizes[..i + 1]) == Sum(sizes[..i]) + sizes[i]
  {
    assert sizes[..i + 1] == sizes[..i] + [sizes[i]];
    SumSnoc(sizes[..i], sizes[i]);
  }

  lemma {:induction false} SumPrefix(sizes: seq<nat>, i: nat, j: nat)
    requires i <= j <= |sizes|
    ensures Sum(sizes[..i]) <= Sum(sizes[..j])
    ensures Positive(sizes) ==> Sum(sizes[..i]) + (j - i) <= Sum(sizes[..j])
    decreases j
  {
    if i < j {
      SumPrefix(sizes, i, j - 1);
      SumStep(sizes, j - 1);
    }
  }

  predicate AllPositive(sizes: seq<int>)
    ensures AllPositive(sizes) ==> forall i | 0 <= i < |sizes| :: sizes[i] >= 0
  {
    forall i | 0 <= i < |sizes| :: sizes[i] > 0
  }

  lemma SizesCount(sizes: seq<int>)
    requires sizes == [] || |sizes| > MAX_SETS
    ensures !(AllPositive(sizes) && SizesOk(sizes))
  {
  }

  lemma NothingSeen()
    ensures Sum([]) == 0 && Positive([])
  {
  }

  lemma Refused(sizes: seq<int>, i: nat, seen: seq<nat>)
    requires i < |sizes| && seen == sizes[..i]
    requires sizes[i] <= 0 || sizes[i] > MAX_SETS - Sum(seen)
    ensures !(AllPositive(sizes) && SizesOk(sizes))
  {
    if AllPositive(sizes) {
      SumStep(sizes, i);
      SumPrefix(sizes, i + 1, |sizes|);
      assert sizes[..|sizes|] == sizes;
    }
  }

  lemma Fill(filled: seq<nat>, seen: seq<nat>, size: nat)
    requires |seen| < MAX_SETS && filled == seen + Zeros(MAX_SETS - |seen|) && size > 0 && Positive(seen)
    ensures filled[|seen| := size] == seen + [size] + Zeros(MAX_SETS - (|seen| + 1)) && Positive(seen + [size])
  {
  }

  lemma Filled(sizes: seq<nat>, filled: seq<nat>)
    requires 1 <= |sizes| <= MAX_SETS && filled == sizes + Zeros(MAX_SETS - |sizes|)
    requires Positive(sizes) && Sum(sizes) <= MAX_SETS
    ensures AllPositive(sizes) && SizesOk(sizes)
    ensures Layout(filled, |sizes|) == LayoutOf(sizes) && Layout(filled, |sizes|).Valid()
    ensures Layout(filled, |sizes|).InUse() == sizes
  {
    hide Sum;
    assert filled[..|sizes|] == sizes && filled[|sizes|..] == Zeros(MAX_SETS - |sizes|);
  }

  /** A layout exists exactly for one to sixteen non-empty groups of at most sixteen sets in all. */
  method NewLayout(sizes: seq<int>) returns (r: Option<Layout>)
    ensures r.Some? <==> AllPositive(sizes) && SizesOk(sizes)
    ensures r.Some? ==> r.value == LayoutOf(sizes) && r.value.Valid() && r.value.InUse() == sizes
  {
    hide Sum, Positive, Zeros, SizesOk, AllPositive;
    if sizes == [] || |sizes| > MAX_SETS {
      SizesCount(sizes);
      return None;
    }
    var filled := Zeros(MAX_SETS);
    var total, i := 0, 0;
    ghost var seen: seq<nat> := [];
    NothingSeen();
    assert filled == seen + filled;
    while i < |sizes|
      invariant 0 <= i <= |sizes|
      invariant seen == sizes[..i]
      invariant |filled| == MAX_SETS && filled == seen + Zeros(MAX_SETS - i)
      invariant total == Sum(seen) <= MAX_SETS && Positive(seen)
    {
      if sizes[i] <= 0 || sizes[i] > MAX_SETS - total {
        Refused(sizes, i, seen);
        return None;
      }
      SumSnoc(seen, sizes[i]);
      Fill(filled, seen, sizes[i]);
      total := total + sizes[i];
      filled := filled[i := sizes[i]];
      seen := seen + [sizes[i]];
      i := i + 1;
    }
    assert seen == sizes;
    Filled(seen, filled);
    return Some(Layout(filled, |sizes|));
  }

  /** The group that holds a set, for every set of the layout and nothing else. */
  method GroupOf(l: Layout, index: int) returns (r: Option<nat>)
    requires l.Valid()
    ensures r.Some? <==> 0 <= index < l.Sets()
    ensures r.Some? ==> r.value < l.groups && l.Start(r.value) <= index < l.Start(r.value + 1)
  {
    var start, group := 0, 0;
    while group < l.groups
      invariant 0 <= group <= l.groups
      invariant start == l.Start(group)
      invariant index < 0 || start <= index
    {
      SumStep(l.sizes, group);
      var size := l.sizes[group];
      if start <= index < start + size {
        SumPrefix(l.sizes, group + 1, l.groups);
        return Some(group);
      }
      start := start + size;
      group := group + 1;
    }
    return None;
  }

  /** A set that opens a group. */
  ghost predicate Opens(sizes: seq<nat>, index: int) {
    exists g: nat :: g < |sizes| && StartsAt(sizes, g, index)
  }

  predicate StartsAt(sizes: seq<nat>, g: nat, index: int)
    requires g <= |sizes|
  {
    Sum(sizes[..g]) == index
  }

  /** The separator before a set: none before the first, `|` where a group opens, `,` inside a group. */
  ghost function Before(sizes: seq<nat>, index: int): Option<char> {
    if index <= 0 || index >= Sum(sizes) then None
    else if Opens(sizes, index) then Some(ANY_SEPARATOR) else Some(ALL_SEPARATOR)
  }

  /** No earlier group starts at the index, which is not below the start of group `g`. */
  ghost predicate Scanning(sizes: seq<nat>, g: nat, index: int) {
    g <= |sizes| && Sum(sizes[..g]) <= index && forall h: nat | h < g :: !StartsAt(sizes, h, index)
  }

  lemma ScanningOpens(sizes: seq<nat>, g: nat, index: int)
    requires Positive(sizes) && g < |sizes| && Scanning(sizes, g, index) && Sum(sizes[..g]) == index && index > 0
    ensures Before(sizes, index) == Some(ANY_SEPARATOR)
  {
    assert StartsAt(sizes, g, index);
    SumStep(sizes, g);
    SumPrefix(sizes, g + 1, |sizes|);
    assert sizes[..|sizes|] == sizes;
  }

  lemma ScanningInside(sizes: seq<nat>, g: nat, index: int)
    requires Positive(sizes) && g < |sizes| && Scanning(sizes, g, index)
    requires Sum(sizes[..g]) != index && index < Sum(sizes[..g + 1])
    ensures Before(sizes, index) == Some(ALL_SEPARATOR)
  {
    forall h: nat | g < h < |sizes| ensures !StartsAt(sizes, h, index) {
      SumPrefix(sizes, g + 1, h);
    }
    SumPrefix(sizes, g + 1, |sizes|);
    assert sizes[..|sizes|] == sizes;
  }

  method SeparatorBefore(l: Layout, index: int) returns (r: Option<char>)
    requires l.Valid()
    ensures r == Before(l.InUse(), index)
  {
    if index <= 0 {
      return None;
    }
    ghost var sizes := l.InUse();
    assert sizes[..l.groups] == sizes;
    assert forall g | 0 <= g < l.groups :: sizes[g] == l.sizes[g];
    hide Scanning, Opens, StartsAt, Sum, Layout.InUse, Positive;
    var start, group := 0, 0;
    ScanningStart(sizes, index);
    while group < l.groups
      invariant 0 <= group <= l.groups && start == Sum(sizes[..group]) && Scanning(sizes, group, index)
    {
      SumStep(sizes, group);
      var size := l.sizes[group];
      if index == start {
        ScanningOpens(sizes, group, index);
        return Some(ANY_SEPARATOR);
      }
      if index < start + size {
        ScanningInside(sizes, group, index);
        return Some(ALL_SEPARATOR);
      }
      ScanningStep(sizes, group, index);
      start := start + size;
      group := group + 1;
    }
    ScanningEnds(sizes, index);
    return None;
  }

  lemma ScanningStart(sizes: seq<nat>, index: int)
    requires index > 0
    ensures Scanning(sizes, 0, index) && Sum(sizes[..0]) == 0
  {
  }

  lemma ScanningStep(sizes: seq<nat>, g: nat, index: int)
    requires g < |sizes| && Scanning(sizes, g, index) && Sum(sizes[..g]) != index && Sum(sizes[..g + 1]) <= index
    ensures Scanning(sizes, g + 1, index)
  {
    hide Sum;
  }

  lemma ScanningEnds(sizes: seq<nat>, index: int)
    requires Scanning(sizes, |sizes|, index)
    ensures Before(sizes, index) == None
  {
    assert sizes[..|sizes|] == sizes;
  }

  lemma SameGroup(sizes: seq<nat>, i: int, g: nat, h: nat)
    requires Positive(sizes) && g < |sizes| && h < |sizes|
    requires Sum(sizes[..g]) <= i - 1 < Sum(sizes[..g + 1])
    requires Sum(sizes[..h]) <= i < Sum(sizes[..h + 1])
    ensures g == h <==> !Opens(sizes, i)
  {
    if g < h {
      SumPrefix(sizes, g + 1, h);
      assert StartsAt(sizes, h, i);
    } else if h < g {
      SumPrefix(sizes, h + 1, g);
    }
    if Opens(sizes, i) {
      var k: nat :| k < |sizes| && StartsAt(sizes, k, i);
      if k <= g {
        SumPrefix(sizes, k, g);
      } else {
        SumPrefix(sizes, g + 1, k);
      }
    }
  }

  /** The separator is `,` exactly when the neighbouring sets share their group. */
  lemma CommaIff(l: Layout, i: int, g: nat, h: nat)
    requires l.Valid() && 0 < i < l.Sets() && g < l.groups && h < l.groups
    requires l.Start(g) <= i - 1 < l.Start(g + 1) && l.Start(h) <= i < l.Start(h + 1)
    ensures Before(l.InUse(), i) == Some(ALL_SEPARATOR) <==> g == h
  {
    var sizes := l.InUse();
    forall k: nat | k <= l.groups ensures sizes[..k] == l.sizes[..k] {
    }
    SameGroup(sizes, i, g, h);
  }

  // ---- Splitting

  predicate IsSeparator(c: char) {
    c == ALL_SEPARATOR || c == ANY_SEPARATOR
  }

  /** The texts between separators, in field order; an empty value has one empty text. */
  function Pieces(value: octets): (r: seq<octets>)
    ensures r != []
  {
    if value == [] then [[]]
    else
      var before, c := Pieces(value[..|value| - 1]), value[|value| - 1];
      if IsSeparator(c) then before + [[]]
      else before[..|before| - 1] + [before[|before| - 1] + [c]]
  }

  function Separators(value: octets): seq<char> {
    if value == [] then []
    else
      var before, c := Separators(value[..|value| - 1]), value[|value| - 1];
      if IsSeparator(c) then before + [c] else before
  }

  /** The group sizes of a row of separators: one set after each, and a new group after each `|`. */
  function Runs(separators: seq<char>): (r: seq<nat>)
    ensures r != [] && Positive(r)
  {
    if separators == [] then [1]
    else
      var before := Runs(separators[..|separators| - 1]);
      if separators[|separators| - 1] == ANY_SEPARATOR then before + [1]
      else before[..|before| - 1] + [before[|before| - 1] + 1]
  }

  predicate NoneBlank(pieces: seq<octets>) {
    forall i | 0 <= i < |pieces| :: !AllWsp(pieces[i])
  }

  /** The exact condition of a split: a non-empty value, at most sixteen sets, and none blank. */
  predicate Splits(value: octets) {
    value != [] && |Separators(value)| + 1 <= MAX_SETS && NoneBlank(Pieces(value))
  }

  method CountSets(value: octets) returns (count: nat)
    ensures count == if value == [] then 0 else |Separators(value)| + 1
  {
    if value == [] {
      return 0;
    }
    count := 1;
    var i := 0;
    assert value[..|value|] == value;
    while i < |value|
      invariant 0 <= i <= |value|
      invariant count == |Separators(value[..i])| + 1
    {
      assert value[..i + 1][..i] == value[..i];
      if IsSeparator(value[i]) {
        count := count + 1;
      }
      i := i + 1;
    }
  }

  lemma {:induction false} PieceCount(value: octets)
    ensures |Pieces(value)| == |Separators(value)| + 1
  {
    if value != [] {
      PieceCount(value[..|value| - 1]);
    }
  }

  lemma {:induction false} RunsTotal(separators: seq<char>)
    ensures Sum(Runs(separators)) == |separators| + 1 && |Runs(separators)| <= |separators| + 1
  {
    if separators == [] {
      assert [1][..0] == [];
      assert Sum([1]) == 1;
    } else {
      var init := separators[..|separators| - 1];
      var before := Runs(init);
      RunsTotal(init);
      if separators[|separators| - 1] == ANY_SEPARATOR {
        SumSnoc(before, 1);
      } else {
        SumSnoc(before[..|before| - 1], before[|before| - 1] + 1);
        SumSnoc(before[..|before| - 1], before[|before| - 1]);
        assert before == before[..|before| - 1] + [before[|before| - 1]];
      }
    }
  }

  lemma PiecesSnoc(value: octets, c: char)
    ensures Pieces(value + [c]) ==
      if IsSeparator(c) then Pieces(value) + [[]]
      else Pieces(value)[..|Pieces(value)| - 1] + [Pieces(value)[|Pieces(value)| - 1] + [c]]
    ensures Separators(value + [c]) == Separators(value) + if IsSeparator(c) then [c] else []
  {
    assert (value + [c])[..|value|] == value;
  }

  lemma RunsSnoc(separators: seq<char>, c: char)
    ensures c == ANY_SEPARATOR ==> Runs(separators + [c]) == Runs(separators) + [1]
    ensures c != ANY_SEPARATOR ==>
      Runs(separators + [c])
      == Runs(separators)[..|Runs(separators)| - 1] + [Runs(separators)[|Runs(separators)| - 1] + 1]
  {
    hide Positive;
    var all := separators + [c];
    assert |all| == |separators| + 1 && all[|separators|] == c;
    assert all[..|separators|] == separators;
  }

  lemma {:induction false} PiecesKept(value: octets, rest: octets, i: nat)
    requires i < |Pieces(value)| - 1
    ensures i < |Pieces(value + rest)| && Pieces(value + rest)[i] == Pieces(value)[i]
    ensures |Pieces(value)| <= |Pieces(value + rest)|
    decreases |rest|
  {
    if rest == [] {
      assert value + rest == value;
    } else {
      var init, c := rest[..|rest| - 1], rest[|rest| - 1];
      PiecesKept(value, init, i);
      assert value + rest == (value + init) + [c];
      PiecesSnoc(value + init, c);
    }
  }

  /** The splitter's variables after the octets before `i`. */
  ghost predicate Splitting(value: octets, i: nat, sets: seq<octets>, sizes: seq<nat>, setStart: nat, groupSize: nat)
    requires i <= |value|
  {
    && setStart <= i
    && Pieces(value[..i]) == sets + [value[setStart..i]]
    && Runs(Separators(value[..i])) == sizes + [groupSize + 1]
    && NoneBlank(sets)
  }

  lemma SplittingPlain(value: octets, i: nat, sets: seq<octets>, sizes: seq<nat>, setStart: nat, groupSize: nat)
    requires i < |value| && Splitting(value, i, sets, sizes, setStart, groupSize) && !IsSeparator(value[i])
    ensures Splitting(value, i + 1, sets, sizes, setStart, groupSize)
  {
    assert value[..i + 1] == value[..i] + [value[i]];
    PiecesSnoc(value[..i], value[i]);
    assert value[setStart..i + 1] == value[setStart..i] + [value[i]];
    assert (sets + [value[setStart..i]])[..|sets|] == sets;
  }

  lemma SplittingSeparator(value: octets, i: nat, sets: seq<octets>, sizes: seq<nat>, setStart: nat, groupSize: nat)
    requires i < |value| && Splitting(value, i, sets, sizes, setStart, groupSize) && IsSeparator(value[i])
    requires !AllWsp(value[setStart..i])
    ensures var sets' := sets + [value[setStart..i]];
      if value[i] == ANY_SEPARATOR then Splitting(value, i + 1, sets', sizes + [groupSize + 1], i + 1, 0)
      else Splitting(value, i + 1, sets', sizes, i + 1, groupSize + 1)
  {
    hide Pieces, Runs, Separators, AllWsp;
    assert value[..i + 1] == value[..i] + [value[i]];
    PiecesSnoc(value[..i], value[i]);
    RunsSnoc(Separators(value[..i]), value[i]);
    assert value[i + 1..i + 1] == [];
    var runs := sizes + [groupSize + 1];
    assert runs[..|runs| - 1] == sizes;
    forall k | 0 <= k < |sets| + 1 ensures !AllWsp((sets + [value[setStart..i]])[k]) {
    }
  }

  lemma SplittingBlank(value: octets, i: nat, sets: seq<octets>, sizes: seq<nat>, setStart: nat, groupSize: nat)
    requires i <= |value| && Splitting(value, i, sets, sizes, setStart, groupSize) && AllWsp(value[setStart..i])
    requires i == |value| || IsSeparator(value[i])
    ensures !Splits(value)
  {
    var k := |sets|;
    if i == |value| {
      assert value[..i] == value;
      assert Pieces(value)[k] == value[setStart..i];
    } else {
      assert value[..i + 1] == value[..i] + [value[i]];
      PiecesSnoc(value[..i], value[i]);
      assert Pieces(value[..i + 1])[k] == value[setStart..i];
      PiecesKept(value[..i + 1], value[i + 1..], k);
      assert value[..i + 1] + value[i + 1..] == value;
    }
  }

  /** At the end of the value the last set and the last group are complete. */
  lemma SplittingDone(value: octets, sets: seq<octets>, sizes: seq<nat>, setStart: nat, groupSize: nat)
    requires Splitting(value, |value|, sets, sizes, setStart, groupSize) && !AllWsp(value[setStart..|value|])
    requires value != [] && |Separators(value)| + 1 <= MAX_SETS
    ensures Splits(value) && Pieces(value) == sets + [value[setStart..|value|]]
    ensures Runs(Separators(value)) == sizes + [groupSize + 1]
    ensures AllPositive(sizes + [groupSize + 1]) && SizesOk(sizes + [groupSize + 1])
  {
    hide AllWsp, Runs, Pieces, Separators;
    assert value[..|value|] == value;
    RunsTotal(Separators(value));
  }

  /** Splits a value into its set texts and its layout, or fails exactly when it has no such split. */
  method Split(value: octets) returns (r: Option<(seq<octets>, Layout)>)
    ensures r.Some? <==> Splits(value)
    ensures r.Some? ==> r.value.0 == Pieces(value)
    ensures r.Some? ==> r.value.1.Valid() && r.value.1.InUse() == Runs(Separators(value))
  {
    var count := CountSets(value);
    if value == [] || count > MAX_SETS {
      return None;
    }
    hide AllWsp, Runs, Splitting, Splits, Pieces, Separators, AllPositive, SizesOk, Layout.Valid;
    var sets: seq<octets> := [];
    var sizes: seq<nat> := [];
    var setStart, groupSize, index := 0, 0, 0;
    SplittingStart(value);
    while index < |value|
      invariant 0 <= index <= |value|
      invariant setStart <= index && Splitting(value, index, sets, sizes, setStart, groupSize)
    {
      if !IsSeparator(value[index]) {
        SplittingPlain(value, index, sets, sizes, setStart, groupSize);
        index := index + 1;
        continue;
      }
      var piece := value[setStart..index];
      if AllWsp(piece) {
        SplittingBlank(value, index, sets, sizes, setStart, groupSize);
        return None;
      }
      SplittingSeparator(value, index, sets, sizes, setStart, groupSize);
      sets := sets + [piece];
      groupSize := groupSize + 1;
      if value[index] == ANY_SEPARATOR {
        sizes := sizes + [groupSize];
        groupSize := 0;
      }
      setStart := index + 1;
      index := index + 1;
    }
    var piece := value[setStart..index];
    if AllWsp(piece) {
      SplittingBlank(value, index, sets, sizes, setStart, groupSize);
      return None;
    }
    SplittingDone(value, sets, sizes, setStart, groupSize);
    sets := sets + [piece];
    sizes := sizes + [groupSize + 1];
    var layout := NewLayout(sizes);
    return Some((sets, layout.value));
  }

  lemma SplittingStart(value: octets)
    ensures Splitting(value, 0, [], [], 0, 0)
  {
    assert value[..0] == [];
  }

  // ---- Splitting and joining are inverse

  /** The sets with the layout's separator before each. */
  ghost function Joined(sets: seq<octets>, sizes: seq<nat>): octets {
    if sets == [] then []
    else
      Joined(sets[..|sets| - 1], sizes)
      + (match Before(sizes, |sets| - 1) case None => [] case Some(c) => [c])
      + sets[|sets| - 1]
  }

  lemma OpensSnoc(sizes: seq<nat>, size: nat, i: int)
    requires i <= Sum(sizes) && Positive(sizes)
    ensures Opens(sizes + [size], i) <==> Opens(sizes, i) || i == Sum(sizes)
  {
    var all := sizes + [size];
    forall g: nat | g <= |sizes| ensures all[..g] == sizes[..g] {
    }
    assert sizes[..|sizes|] == sizes;
    if Opens(sizes, i) {
      var g: nat :| g < |sizes| && StartsAt(sizes, g, i);
      assert StartsAt(all, g, i);
    }
    if i == Sum(sizes) {
      assert StartsAt(all, |sizes|, i);
    }
    if Opens(all, i) {
      var g: nat :| g < |all| && StartsAt(all, g, i);
      if g < |sizes| {
        assert StartsAt(sizes, g, i);
      }
    }
  }

  /** Group openings do not depend on the size of the last group. */
  lemma OpensLast(init: seq<nat>, a: nat, b: nat, i: int)
    ensures Opens(init + [a], i) <==> Opens(init + [b], i)
  {
    var x, y := init + [a], init + [b];
    forall g: nat | g <= |init| ensures x[..g] == y[..g] {
    }
    if Opens(x, i) {
      var g: nat :| g < |x| && StartsAt(x, g, i);
      assert StartsAt(y, g, i);
    }
    if Opens(y, i) {
      var g: nat :| g < |y| && StartsAt(y, g, i);
      assert StartsAt(x, g, i);
    }
  }

  lemma OpensBelow(sizes: seq<nat>, i: int)
    requires Opens(sizes, i) && Positive(sizes)
    ensures i < Sum(sizes)
  {
    var g: nat :| g < |sizes| && StartsAt(sizes, g, i);
    SumPrefix(sizes, g, |sizes|);
    assert sizes[..|sizes|] == sizes;
  }

  /** A group opens behind exactly the `|` separators. */
  lemma {:induction false} RunsOpen(separators: seq<char>, i: nat)
    requires 1 <= i <= |separators|
    ensures Opens(Runs(separators), i) <==> separators[i - 1] == ANY_SEPARATOR
  {
    hide Opens, Runs, Sum;
    var init, last := separators[..|separators| - 1], separators[|separators| - 1];
    var before := Runs(init);
    RunsTotal(init);
    assert separators == init + [last];
    RunsSnoc(init, last);
    if last == ANY_SEPARATOR {
      OpensSnoc(before, 1, i);
      if i < |separators| {
        RunsOpen(init, i);
      }
    } else {
      var k := |before| - 1;
      assert before == before[..k] + [before[k]];
      OpensLast(before[..k], before[k], before[k] + 1, i);
      if i < |separators| {
        RunsOpen(init, i);
      } else if Opens(before, i) {
        OpensBelow(before, i);
      }
    }
  }

  lemma BeforeIs(separators: seq<char>, i: nat)
    requires 1 <= i <= |separators| && IsSeparator(separators[i - 1])
    ensures Before(Runs(separators), i) == Some(separators[i - 1])
  {
    RunsOpen(separators, i);
    RunsTotal(separators);
  }

  lemma {:induction false} SeparatorsAre(value: octets)
    ensures forall i | 0 <= i < |Separators(value)| :: IsSeparator(Separators(value)[i])
  {
    if value != [] {
      SeparatorsAre(value[..|value| - 1]);
    }
  }

  /** Pieces and separators interleaved. */
  function Interleaved(pieces: seq<octets>, separators: seq<char>): octets
    requires |pieces| == |separators| + 1
  {
    if separators == [] then pieces[0]
    else
      Interleaved(pieces[..|pieces| - 1], separators[..|separators| - 1])
      + [separators[|separators| - 1]] + pieces[|pieces| - 1]
  }

  lemma InterleavedSnoc(pieces: seq<octets>, separators: seq<char>, c: char, piece: octets)
    requires |pieces| == |separators| + 1
    ensures Interleaved(pieces + [piece], separators + [c]) == Interleaved(pieces, separators) + [c] + piece
  {
    assert (pieces + [piece])[..|pieces|] == pieces && (separators + [c])[..|separators|] == separators;
  }

  lemma InterleavedLast(init: seq<octets>, separators: seq<char>, piece: octets, more: octets)
    requires |init| == |separators|
    ensures Interleaved(init + [piece + more], separators) == Interleaved(init + [piece], separators) + more
  {
    var x, y := init + [piece + more], init + [piece];
    assert x[..|x| - 1] == init == y[..|y| - 1];
    if separators != [] {
      var before := Interleaved(init, separators[..|separators| - 1]) + [separators[|separators| - 1]];
      assert before + (piece + more) == before + piece + more;
    }
  }

  lemma {:induction false} ValueInterleaved(value: octets)
    ensures |Pieces(value)| == |Separators(value)| + 1
    ensures Interleaved(Pieces(value), Separators(value)) == value
  {
    PieceCount(value);
    if value != [] {
      var init, c := value[..|value| - 1], value[|value| - 1];
      var pieces := Pieces(init);
      ValueInterleaved(init);
      assert value == init + [c];
      if IsSeparator(c) {
        InterleavedSnoc(pieces, Separators(init), c, []);
      } else {
        var k := |pieces| - 1;
        assert pieces == pieces[..k] + [pieces[k]];
        InterleavedLast(pieces[..k], Separators(init), pieces[k], [c]);
      }
    }
  }

  lemma {:induction false} JoinedInterleaved(pieces: seq<octets>, separators: seq<char>, sizes: seq<nat>)
    requires |pieces| == |separators| + 1 && Sum(sizes) >= |pieces|
    requires forall i | 1 <= i <= |separators| :: Before(sizes, i) == Some(separators[i - 1])
    ensures Joined(pieces, sizes) == Interleaved(pieces, separators)
  {
    hide Before;
    if separators == [] {
      BeforeFirst(sizes);
      assert pieces[..0] == [];
      assert [] + [] + pieces[0] == pieces[0];
    } else {
      var n := |separators|;
      JoinedInterleaved(pieces[..n], separators[..n - 1], sizes);
    }
  }

  lemma BeforeFirst(sizes: seq<nat>)
    ensures Before(sizes, 0) == None
  {
  }

  /** Joining undoes splitting: the sets with the separators of the layout are the value, octet for octet. */
  lemma JoinOfSplit(value: octets)
    ensures Joined(Pieces(value), Runs(Separators(value))) == value
  {
    hide Before;
    var separators := Separators(value);
    SeparatorsAre(value);
    ValueInterleaved(value);
    RunsTotal(separators);
    forall i | 1 <= i <= |separators| ensures Before(Runs(separators), i) == Some(separators[i - 1]) {
      BeforeIs(separators, i);
    }
    JoinedInterleaved(Pieces(value), separators, Runs(separators));
  }

  predicate Plain(piece: octets) {
    forall i | 0 <= i < |piece| :: !IsSeparator(piece[i])
  }

  /** A text added to the last piece. */
  function Grown(pieces: seq<octets>, text: octets): seq<octets>
    requires pieces != []
  {
    pieces[..|pieces| - 1] + [pieces[|pieces| - 1] + text]
  }

  lemma GrownTwice(pieces: seq<octets>, a: octets, c: char)
    requires pieces != []
    ensures Grown(pieces, []) == pieces
    ensures Grown(Grown(pieces, a), [c]) == Grown(pieces, a + [c])
  {
    var last := pieces[|pieces| - 1];
    assert last + a + [c] == last + (a + [c]) && last + [] == last;
    assert Grown(pieces, a)[..|pieces| - 1] == pieces[..|pieces| - 1];
  }

  lemma {:induction false} PiecesPlain(value: octets, piece: octets)
    requires Plain(piece)
    ensures Separators(value + piece) == Separators(value)
    ensures Pieces(value + piece) == Grown(Pieces(value), piece)
    decreases |piece|
  {
    hide Pieces, Separators;
    if piece == [] {
      assert value + piece == value;
      GrownTwice(Pieces(value), [], ' ');
    } else {
      var init, c := piece[..|piece| - 1], piece[|piece| - 1];
      PiecesPlain(value, init);
      assert value + piece == (value + init) + [c] && piece == init + [c];
      PiecesSnoc(value + init, c);
      GrownTwice(Pieces(value), init, c);
    }
  }

  lemma {:induction false} PiecesOfInterleaved(pieces: seq<octets>, separators: seq<char>)
    requires |pieces| == |separators| + 1 && forall i | 0 <= i < |pieces| :: Plain(pieces[i])
    requires forall i | 0 <= i < |separators| :: IsSeparator(separators[i])
    ensures Pieces(Interleaved(pieces, separators)) == pieces
    ensures Separators(Interleaved(pieces, separators)) == separators
  {
    hide Plain;
    if separators == [] {
      PiecesPlain([], pieces[0]);
      PiecesOfNothing();
      assert [] + pieces[0] == pieces[0];
      assert pieces == [pieces[0]];
    } else {
      var n := |separators|;
      PiecesOfInterleaved(pieces[..n], separators[..n - 1]);
      PiecesGrow(Interleaved(pieces[..n], separators[..n - 1]), separators[n - 1], pieces[n]);
      assert pieces == pieces[..n] + [pieces[n]] && separators == separators[..n - 1] + [separators[n - 1]];
    }
  }

  lemma PiecesGrow(text: octets, c: char, last: octets)
    requires IsSeparator(c) && Plain(last)
    ensures Pieces(text + [c] + last) == Pieces(text) + [last]
    ensures Separators(text + [c] + last) == Separators(text) + [c]
  {
    hide Plain;
    PiecesSnoc(text, c);
    PiecesPlain(text + [c], last);
    var before := Pieces(text + [c]);
    assert before[..|before| - 1] == Pieces(text) && before[|before| - 1] + last == last;
  }

  lemma PiecesOfNothing()
    ensures Pieces([]) == [[]] && Separators([]) == []
  {
  }

  lemma SumAtLeast(sizes: seq<nat>)
    requires Positive(sizes)
    ensures Sum(sizes) >= |sizes|
  {
    SumPrefix(sizes, 0, |sizes|);
    assert sizes[..|sizes|] == sizes;
  }

  /** The last opening of a positive listing is where its last group starts. */
  lemma LastOpening(sizes: seq<nat>, i: int)
    requires Positive(sizes) && sizes != []
    ensures Opens(sizes, Sum(sizes[..|sizes| - 1]))
    ensures Opens(sizes, i) ==> i <= Sum(sizes[..|sizes| - 1])
  {
    var last := |sizes| - 1;
    assert StartsAt(sizes, last, Sum(sizes[..last]));
    if Opens(sizes, i) {
      var g: nat :| g < |sizes| && StartsAt(sizes, g, i);
      SumPrefix(sizes, g, last);
    }
  }

  lemma OpensInit(sizes: seq<nat>, i: int)
    requires Positive(sizes) && sizes != []
    ensures Opens(sizes[..|sizes| - 1], i) <==> Opens(sizes, i) && i < Sum(sizes[..|sizes| - 1])
  {
    var init := sizes[..|sizes| - 1];
    assert sizes == init + [sizes[|sizes| - 1]];
    if i <= Sum(init) {
      OpensSnoc(init, sizes[|sizes| - 1], i);
    }
    if Opens(init, i) {
      OpensBelow(init, i);
    }
  }

  /** Totals and openings determine the group sizes. */
  lemma {:induction false} OpeningsDetermine(a: seq<nat>, b: seq<nat>)
    requires Positive(a) && Positive(b) && Sum(a) == Sum(b) && forall i :: Opens(a, i) <==> Opens(b, i)
    ensures a == b
    decreases |a|
  {
    hide Opens;
    SumAtLeast(a);
    SumAtLeast(b);
    if a != [] && b != [] {
      var x, y := a[..|a| - 1], b[..|b| - 1];
      LastOpening(a, Sum(y));
      LastOpening(b, Sum(x));
      LastOpening(b, Sum(y));
      LastOpening(a, Sum(x));
      forall i ensures Opens(x, i) <==> Opens(y, i) {
        OpensInit(a, i);
        OpensInit(b, i);
      }
      OpeningsDetermine(x, y);
      assert a == x + [a[|a| - 1]] && b == y + [b[|b| - 1]];
    } else {
      NoSets();
    }
  }

  lemma NoSets()
    ensures Sum([]) == 0
  {
  }

  ghost function SeparatorsOf(sizes: seq<nat>): (r: seq<char>)
    requires sizes != [] && Positive(sizes)
    ensures |r| + 1 == Sum(sizes)
  {
    SumAtLeast(sizes);
    seq(Sum(sizes) - 1, i requires 0 <= i < Sum(sizes) - 1 =>
      if Opens(sizes, i + 1) then ANY_SEPARATOR else ALL_SEPARATOR)
  }

  lemma OpensZero(sizes: seq<nat>)
    requires sizes != []
    ensures Opens(sizes, 0)
  {
    NoSets();
    assert sizes[..0] == [];
    assert StartsAt(sizes, 0, 0);
  }

  lemma RunsOfSeparators(sizes: seq<nat>)
    requires sizes != [] && Positive(sizes)
    ensures Runs(SeparatorsOf(sizes)) == sizes
  {
    hide Runs, Opens;
    var separators := SeparatorsOf(sizes);
    var runs := Runs(separators);
    RunsTotal(separators);
    forall i ensures Opens(runs, i) <==> Opens(sizes, i) {
      if 1 <= i <= |separators| {
        RunsOpen(separators, i);
      } else if i == 0 {
        OpensZero(runs);
        OpensZero(sizes);
      } else {
        OpensInRange(runs, i);
        OpensInRange(sizes, i);
      }
    }
    OpeningsDetermine(runs, sizes);
  }

  lemma OpensInRange(sizes: seq<nat>, i: int)
    requires Positive(sizes)
    ensures Opens(sizes, i) ==> 0 <= i < Sum(sizes)
  {
    if Opens(sizes, i) {
      OpensBelow(sizes, i);
    }
  }

  /** Splitting undoes joining: from any layout and as many non-blank set texts without separators, the joined
      value splits into those texts and that layout. */
  lemma SplitOfJoin(sets: seq<octets>, sizes: seq<nat>)
    requires SizesOk(sizes) && |sets| == Sum(sizes) && NoneBlank(sets)
    requires forall i | 0 <= i < |sets| :: Plain(sets[i])
    ensures var value := Joined(sets, sizes);
      Splits(value) && Pieces(value) == sets && Runs(Separators(value)) == sizes
  {
    hide Opens, Plain, Runs, AllWsp;
    var separators := SeparatorsOf(sizes);
    RunsOfSeparators(sizes);
    JoinedInterleaved(sets, separators, sizes);
    PiecesOfInterleaved(sets, separators);
    PiecesOfNothing();
    BlankBlank();
  }

  lemma BlankBlank()
    ensures AllWsp([])
  {
  }
}
