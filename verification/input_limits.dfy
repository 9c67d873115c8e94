/** Exactly when the two inputs are refused, and which limit is named. */
module InputLimits {
  import opened Octets
  import opened RawMessage
  import opened Words
  import CanonicalValues
  import HeaderHash

  // ---- The header hash input

  /** The octets of a field's canonical line: its name, a colon, its words one space apart, and the line end. */
  function LineSize(f: Field): nat {
    |f.Name()| + 1 + |Spaced(WordsOf(f.Value()))| + 2
  }

  predicate Fits(limits: HeaderHash.Limits, f: Field) {
    HeaderHash.Relevant(f.Name()) ==> LineSize(f) <= limits.maxFieldBytes
  }

  /** The octets of all signed fields. */
  function SignedSize(b: Block): nat {
    if b == [] then 0
    else SignedSize(b[1..]) + if HeaderHash.Relevant(b[0].Name()) then LineSize(b[0]) else 0
  }

  lemma SignedSizeSnoc(b: Block, f: Field)
    ensures SignedSize(b + [f]) == SignedSize(b) + if HeaderHash.Relevant(f.Name()) then LineSize(f) else 0
    decreases |b|
  {
    hide HeaderHash.Relevant, LineSize;
    if b != [] {
      assert (b + [f])[1..] == b[1..] + [f];
      SignedSizeSnoc(b[1..], f);
    } else {
      assert b + [f] == [f] && [f][1..] == [];
    }
  }

  lemma LineSizes(f: Field)
    ensures |HeaderHash.CanonicalLine(f).Bytes()| == LineSize(f)
  {
    hide Lower;
    CanonicalValues.CanonicalIsSpaced(f.Value());
  }

  lemma {:induction false} InsertSize(x: HeaderHash.Record, s: seq<HeaderHash.Record>)
    ensures |HeaderHash.Rendered(HeaderHash.Lines(HeaderHash.Insert(x, s)))|
         == |x.ToLine().Bytes()| + |HeaderHash.Rendered(HeaderHash.Lines(s))|
  {
    hide Less, HeaderHash.Lines, HeaderHash.Line.Bytes;
    RenderedCons(x, s);
    if s != [] && Less(s[0].name, x.name) {
      InsertSize(x, s[1..]);
      RenderedCons(s[0], HeaderHash.Insert(x, s[1..]));
      RenderedCons(s[0], s[1..]);
      assert s == [s[0]] + s[1..];
    }
  }

  lemma RenderedCons(x: HeaderHash.Record, s: seq<HeaderHash.Record>)
    ensures HeaderHash.Rendered(HeaderHash.Lines([x] + s))
         == x.ToLine().Bytes() + HeaderHash.Rendered(HeaderHash.Lines(s))
  {
    hide HeaderHash.Line.Bytes;
    assert HeaderHash.Lines([x] + s) == [x.ToLine()] + HeaderHash.Lines(s);
    assert ([x.ToLine()] + HeaderHash.Lines(s))[1..] == HeaderHash.Lines(s);
  }

  lemma {:induction false} SortedSize(b: Block)
    ensures |HeaderHash.Rendered(HeaderHash.Lines(HeaderHash.SortedRecords(b)))| == SignedSize(b)
  {
    hide HeaderHash.Relevant, LineSize, HeaderHash.Insert, HeaderHash.Rendered, HeaderHash.Lines, Lower;
    if b == [] {
      NothingRendered();
    } else {
      var init, f := b[..|b| - 1], b[|b| - 1];
      SortedSize(init);
      assert b == init + [f];
      SignedSizeSnoc(init, f);
      LineSizes(f);
      InsertSize(HeaderHash.Record(f.Name(), |b| - 1, HeaderHash.CanonicalValue(f.Value())),
                 HeaderHash.SortedRecords(init));
    }
  }

  lemma NothingRendered()
    ensures HeaderHash.Rendered(HeaderHash.Lines([])) == []
  {
  }

  /** The first signed field that is too long is named; none is, exactly when all fit. */
  lemma {:induction false} FirstOversized(limits: HeaderHash.Limits, b: Block)
    ensures var e := HeaderHash.Oversized(limits, b);
      match e
      case None => forall i | 0 <= i < |b| :: Fits(limits, b[i])
      case Some(e) =>
        && e.fieldIndex < |b| && !Fits(limits, b[e.fieldIndex])
        && (forall i | 0 <= i < e.fieldIndex :: Fits(limits, b[i]))
        && e == HeaderHash.LimitExceeded(
             HeaderHash.MaxFieldBytes, LineSize(b[e.fieldIndex]), limits.maxFieldBytes, e.fieldIndex)
  {
    hide HeaderHash.Relevant, LineSize, Lower, HeaderHash.CanonicalLine;
    if b != [] {
      FirstOversized(limits, b[..|b| - 1]);
      LineSizes(b[|b| - 1]);
    }
  }

  lemma {:induction false} AssembleRefuses(limits: HeaderHash.Limits, s: seq<HeaderHash.Record>)
    requires HeaderHash.Assemble(limits, s).Err?
    ensures var e := HeaderHash.Assemble(limits, s).error;
      e.name == HeaderHash.MaxHeaderInputBytes && e.limit == limits.maxHeaderInputBytes < e.count
  {
    hide HeaderHash.Line.Bytes;
    if HeaderHash.Assemble(limits, s[..|s| - 1]).Err? {
      AssembleRefuses(limits, s[..|s| - 1]);
    }
  }

  /** The input exists exactly when the fields are not too many, no signed field is too long, and their canonical lines
      together are not too long. Otherwise the first of these limits that is exceeded is named. */
  lemma HashInputLimits(limits: HeaderHash.Limits, b: Block)
    ensures var r := HeaderHash.HashInput(limits, b);
      && (r.Ok? <==>
            && |b| <= limits.maxFieldCount && (forall i | 0 <= i < |b| :: Fits(limits, b[i]))
            && SignedSize(b) <= limits.maxHeaderInputBytes)
      && (r.Ok? ==> |r.value| == SignedSize(b))
      && (r.Err? ==>
            && (r.error.name == HeaderHash.MaxFieldCount <==> |b| > limits.maxFieldCount)
            && (r.error.name == HeaderHash.MaxFieldBytes <==>
                  |b| <= limits.maxFieldCount && exists i :: 0 <= i < |b| && !Fits(limits, b[i]))
            && (r.error.name == HeaderHash.MaxFieldBytes ==>
                  r.error.fieldIndex < |b| && !Fits(limits, b[r.error.fieldIndex])
                  && forall i | 0 <= i < r.error.fieldIndex :: Fits(limits, b[i])))
  {
    hide HeaderHash.Oversized, HeaderHash.Assemble, HeaderHash.SortedRecords, Fits;
    hide HeaderHash.Rendered, HeaderHash.Lines;
    FirstOversized(limits, b);
    var sorted := HeaderHash.SortedRecords(b);
    HeaderHash.AssembleMeaning(limits, sorted);
    SortedSize(b);
    if sorted == [] {
      NothingRendered();
    }
    if HeaderHash.Assemble(limits, sorted).Err? {
      AssembleRefuses(limits, sorted);
    }
  }
}
