/** The `mappings` field of a source map (ECMA-426, "Mappings structure"): the lookup
    as the log sink performs it, the standard encoder, and the end-to-end law. */
module SourceMap {
  import opened Text
  import opened Vlq

  const TWO_32 := 0x1_0000_0000
  type U32 = x: nat | x < TWO_32

  datatype Loc = Loc(index: U32, line: U32, col: U32)

  // --- the lookup -------------------------------------------------------------------

  /** The running fields: generated column, source index, source line, source column,
      and the best mapping found on the target line so far. */
  datatype Scan = Scan(acc: int, index: int, line: int, col: int, best: Option<(int, Loc)>)

  const START := Scan(0, 0, 0, 0, None)

  /** `x.max(0) as u32`. */
  function ToU32(x: int): U32 { if x < 0 then 0 else x % TWO_32 }

  function ScanFields(fields: seq<int>, st: Scan, onTarget: bool, genCol: U32): Scan {
    if fields == [] then st
    else
      var acc := Wrap(st.acc + fields[0]);
      if |fields| < 4 then st.(acc := acc)
      else
        var index, line, col := Wrap(st.index + fields[1]), Wrap(st.line + fields[2]), Wrap(st.col + fields[3]);
        var best :=
          if onTarget && acc <= genCol && (st.best.None? || st.best.value.0 < acc)
          then Some((acc, Loc(ToU32(index), ToU32(line), ToU32(col))))
          else st.best;
        Scan(acc, index, line, col, best)
  }

  function ScanSegment(segment: string, st: Scan, onTarget: bool, genCol: U32): Scan {
    ScanFields(Decoded(segment, 0, 0), st, onTarget, genCol)
  }

  function ScanGroup(segments: seq<string>, st: Scan, onTarget: bool, genCol: U32): Scan {
    if segments == [] then st
    else ScanGroup(segments[1..], ScanSegment(segments[0], st, onTarget, genCol), onTarget, genCol)
  }

  function LookupFrom(groups: seq<string>, lineNo: nat, st: Scan, genLine: U32, genCol: U32): Option<Loc> {
    if groups == [] then None
    else
      var onTarget := lineNo % TWO_32 == genLine;
      var end := ScanGroup(Split(groups[0], ','), st.(acc := 0, best := None), onTarget, genCol);
      if onTarget then (if end.best.None? then None else Some(end.best.value.1))
      else LookupFrom(groups[1..], lineNo + 1, end, genLine, genCol)
  }

  function Lookup(mappings: string, genLine: U32, genCol: U32): Option<Loc> {
    LookupFrom(Split(mappings, ';'), 0, START, genLine, genCol)
  }

  /** What one segment does to the running fields, once decoded. */
  lemma SegmentDecoded(segment: string, fields: seq<int>, st: Scan, onTarget: bool, genCol: U32)
    requires fields == Decoded(segment, 0, 0)
    ensures ScanSegment(segment, st, onTarget, genCol) == ScanFields(fields, st, onTarget, genCol)
    ensures Decoded("", 0, 0) == []
  {
    hide Wrap, ToU32;
  }

  lemma GroupStep(segments: seq<string>, k: nat, st: Scan, onTarget: bool, genCol: U32)
    requires k < |segments|
    ensures ScanGroup(segments[k..], st, onTarget, genCol)
         == ScanGroup(segments[k + 1..], ScanSegment(segments[k], st, onTarget, genCol), onTarget, genCol)
  {
    assert segments[k..][1..] == segments[k + 1..];
    hide ScanSegment;
  }

  /** The loop over one line's segments. */
  method ScanLine(group: string, start: Scan, onTarget: bool, genCol: U32) returns (end: Scan)
    ensures end == ScanGroup(Split(group, ','), start, onTarget, genCol)
  {
    hide Wrap, ToU32, Split, Decoded, ScanSegment;
    var segments := Split(group, ',');
    var acc, index, line, col, best := start.acc, start.index, start.line, start.col, start.best;
    assert segments[0..] == segments;
    for k := 0 to |segments|
      invariant ScanGroup(segments[k..], Scan(acc, index, line, col, best), onTarget, genCol)
             == ScanGroup(segments, start, onTarget, genCol)
    {
      hide ScanGroup;
      var segment := segments[k];
      ghost var before := Scan(acc, index, line, col, best);
      GroupStep(segments, k, before, onTarget, genCol);
      SegmentDecoded(segment, Decoded(segment, 0, 0), before, onTarget, genCol);
      if segment == "" {
        continue;
      }
      var fields := DecodeVlq(segment);
      if fields == [] {
        continue;
      }
      acc := Wrap(acc + fields[0]);
      if |fields| >= 4 {
        index, line, col := Wrap(index + fields[1]), Wrap(line + fields[2]), Wrap(col + fields[3]);
      }
      if onTarget && |fields| >= 4 && acc <= genCol {
        if best.None? || best.value.0 < acc {
          best := Some((acc, Loc(ToU32(index), ToU32(line), ToU32(col))));
        }
      }
      assert Scan(acc, index, line, col, best) == ScanSegment(segment, before, onTarget, genCol);
    }
    end := Scan(acc, index, line, col, best);
    assert segments[|segments|..] == [];
  }

  method LookupMapping(mappings: string, genLine: U32, genCol: U32) returns (r: Option<Loc>)
    ensures r == Lookup(mappings, genLine, genCol)
  {
    hide Split, ScanGroup;
    var groups := Split(mappings, ';');
    var st := START;
    for lineNo := 0 to |groups|
      invariant Lookup(mappings, genLine, genCol) == LookupFrom(groups[lineNo..], lineNo, st, genLine, genCol)
    {
      assert groups[lineNo..][1..] == groups[lineNo + 1..];
      var onTarget := lineNo % TWO_32 == genLine;
      st := ScanLine(groups[lineNo], st.(acc := 0, best := None), onTarget, genCol);
      if onTarget {
        return if st.best.None? then None else Some(st.best.value.1);
      }
    }
    return None;
  }

  lemma LookupIgnoresStart(groups: seq<string>, lineNo: nat, st: Scan, acc: int, best: Option<(int, Loc)>,
                           genLine: U32, genCol: U32)
    ensures LookupFrom(groups, lineNo, st, genLine, genCol)
         == LookupFrom(groups, lineNo, st.(acc := 0, best := None), genLine, genCol)
  {
  }

  // --- tables and their standard encoding ---------------------------------------------

  datatype Source = Source(index: nat, line: nat, col: nat)

  /** One segment, with absolute positions: 1, 4 or 5 fields on the wire. */
  datatype Segment =
    | Bare(genCol: nat)
    | Mapped(genCol: nat, source: Source)
    | Named(genCol: nat, source: Source, name: nat)

  type Table = seq<seq<Segment>>

  /** The position each kind of field was last encoded at. */
  datatype Prev = Prev(source: Source, name: nat)

  const ORIGIN := Prev(Source(0, 0, 0), 0)

  function Next(seg: Segment, prev: Prev): Prev {
    match seg
    case Bare(_) => prev
    case Mapped(_, source) => prev.(source := source)
    case Named(_, source, name) => Prev(source, name)
  }

  function Fields(seg: Segment, genCol: nat, prev: Prev): seq<int> {
    match seg
    case Bare(g) => [g - genCol]
    case Mapped(g, s) =>
      [g - genCol, s.index - prev.source.index, s.line - prev.source.line, s.col - prev.source.col]
    case Named(g, s, name) =>
      [g - genCol, s.index - prev.source.index, s.line - prev.source.line, s.col - prev.source.col, name - prev.name]
  }

  function EncodeSegments(segs: seq<Segment>, genCol: nat, prev: Prev): (parts: seq<string>)
    ensures |parts| == |segs|
  {
    if segs == [] then []
    else [Encode(Fields(segs[0], genCol, prev))] + EncodeSegments(segs[1..], segs[0].genCol, Next(segs[0], prev))
  }

  function After(segs: seq<Segment>, prev: Prev): Prev {
    if segs == [] then prev else After(segs[1..], Next(segs[0], prev))
  }

  /** Lines are separated by `;` and segments by `,`; the generated column restarts on
      each line, the other fields run on. */
  function EncodeLines(table: Table, prev: Prev): (lines: seq<string>)
    ensures |lines| == |table|
  {
    if table == [] then []
    else [Join(EncodeSegments(table[0], 0, prev), ',')] + EncodeLines(table[1..], After(table[0], prev))
  }

  function EncodeTable(table: Table): string { Join(EncodeLines(table, ORIGIN), ';') }

  // --- what the lookup should answer ---------------------------------------------------

  predicate InRange(x: nat) { x < TWO_62 }

  predicate SourceInRange(s: Source) { InRange(s.index) && InRange(s.line) && InRange(s.col) }

  predicate SegmentInRange(seg: Segment) {
    InRange(seg.genCol) && (!seg.Bare? ==> SourceInRange(seg.source)) && (seg.Named? ==> InRange(seg.name))
  }

  predicate LineInRange(line: seq<Segment>) { forall i | 0 <= i < |line| :: SegmentInRange(line[i]) }

  predicate TableInRange(table: Table) { forall l | 0 <= l < |table| :: LineInRange(table[l]) }

  predicate Candidate(seg: Segment, genCol: nat) { !seg.Bare? && seg.genCol <= genCol }

  function LocOf(seg: Segment): Loc
    requires !seg.Bare?
  {
    Loc(seg.source.index % TWO_32, seg.source.line % TWO_32, seg.source.col % TWO_32)
  }

  /** Segment `i` is the greatest candidate of the first `n`, and the first such one. */
  predicate Greatest(line: seq<Segment>, n: nat, genCol: nat, i: nat)
    requires n <= |line|
  {
    && i < n && Candidate(line[i], genCol)
    && (forall j | 0 <= j < n && Candidate(line[j], genCol) :: line[j].genCol <= line[i].genCol)
    && (forall j | 0 <= j < i && Candidate(line[j], genCol) :: line[j].genCol < line[i].genCol)
  }

  ghost predicate IsBest(line: seq<Segment>, n: nat, genCol: nat, best: Option<(int, Loc)>)
    requires n <= |line|
  {
    match best
    case None => forall j | 0 <= j < n :: !Candidate(line[j], genCol)
    case Some(b) => exists i: nat :: Greatest(line, n, genCol, i) && b == (line[i].genCol, LocOf(line[i]))
  }

  ghost predicate IsAnswer(table: Table, genLine: nat, genCol: nat, r: Option<Loc>) {
    if genLine >= |table| then r.None?
    else
      var line := table[genLine];
      match r
      case None => forall j | 0 <= j < |line| :: !Candidate(line[j], genCol)
      case Some(loc) => exists i: nat :: Greatest(line, |line|, genCol, i) && loc == LocOf(line[i])
  }

  // --- scanning an encoded line ---------------------------------------------------------

  function ScanOf(genCol: nat, prev: Prev, best: Option<(int, Loc)>): Scan {
    Scan(genCol, prev.source.index, prev.source.line, prev.source.col, best)
  }

  lemma ScanEncodedSegment(seg: Segment, at: nat, prev: Prev, best: Option<(int, Loc)>, onTarget: bool, genCol: U32)
    requires SegmentInRange(seg) && InRange(at) && PrevInRange(prev)
    ensures ScanSegment(Encode(Fields(seg, at, prev)), ScanOf(at, prev, best), onTarget, genCol)
         == ScanOf(seg.genCol, Next(seg, prev), Better(seg, best, onTarget, genCol))
  {
    hide Encode;
    var fields := Fields(seg, at, prev);
    DecodeInvertsEncode(fields, "");
    assert Encode(fields) + "" == Encode(fields);
    assert Decoded("", 0, 0) == [];
  }

  lemma IsBestGrows(line: seq<Segment>, n: nat, genCol: nat, best: Option<(int, Loc)>)
    requires n < |line| && IsBest(line, n, genCol, best)
    ensures IsBest(line, n + 1, genCol, Better(line[n], best, true, genCol))
  {
    hide LocOf;
    if best.Some? {
      var i: nat :| Greatest(line, n, genCol, i) && best.value == (line[i].genCol, LocOf(line[i]));
      if Candidate(line[n], genCol) && best.value.0 < line[n].genCol {
        assert Greatest(line, n + 1, genCol, n);
      } else {
        assert Greatest(line, n + 1, genCol, i);
      }
    } else if Candidate(line[n], genCol) {
      assert Greatest(line, n + 1, genCol, n);
    }
  }

  function LastCol(segs: seq<Segment>, at: nat): nat {
    if segs == [] then at else LastCol(segs[1..], segs[0].genCol)
  }

  predicate PrevInRange(prev: Prev) { SourceInRange(prev.source) && InRange(prev.name) }

  lemma NextInRange(seg: Segment, prev: Prev)
    requires SegmentInRange(seg) && PrevInRange(prev)
    ensures PrevInRange(Next(seg, prev))
  {
  }

  /** The best mapping after one more segment of the target line. */
  function Better(seg: Segment, best: Option<(int, Loc)>, onTarget: bool, genCol: nat): Option<(int, Loc)> {
    if onTarget && Candidate(seg, genCol) && (best.None? || best.value.0 < seg.genCol)
    then Some((seg.genCol, LocOf(seg))) else best
  }

  lemma {:induction false} ScanEncodedLine(line: seq<Segment>, n: nat, at: nat, prev: Prev, best: Option<(int, Loc)>,
                                           onTarget: bool, genCol: U32)
    returns (best': Option<(int, Loc)>)
    requires n <= |line| && LineInRange(line) && InRange(at) && PrevInRange(prev)
    requires onTarget ==> IsBest(line, n, genCol, best)
    ensures ScanGroup(EncodeSegments(line[n..], at, prev), ScanOf(at, prev, best), onTarget, genCol)
         == ScanOf(LastCol(line[n..], at), After(line[n..], prev), best')
    ensures onTarget ==> IsBest(line, |line|, genCol, best')
    ensures PrevInRange(After(line[n..], prev))
    decreases |line| - n
  {
    hide ScanSegment, IsBest, Fields, Encode, Better, Next, PrevInRange, ScanOf;
    if n == |line| {
      best' := best;
    } else {
      var rest := line[n..];
      assert rest[0] == line[n] && rest[1..] == line[n + 1..];
      assert SegmentInRange(line[n]);
      ScanEncodedSegment(line[n], at, prev, best, onTarget, genCol);
      NextInRange(line[n], prev);
      if onTarget { IsBestGrows(line, n, genCol, best); }
      best' := ScanEncodedLine(line, n + 1, line[n].genCol, Next(line[n], prev),
                               Better(line[n], best, onTarget, genCol), onTarget, genCol);
    }
  }

  // --- the text splits back into the encoded parts ----------------------------------------

  lemma {:induction false} EncodedNatClean(v: nat, c: char)
    requires Sextet(c).None?
    ensures c !in EncodeNat(v)
  {
    if v >= 32 { EncodedNatClean(v / 32, c); }
  }

  lemma {:induction false} EncodedFieldsClean(fields: seq<int>, c: char)
    requires Sextet(c).None?
    ensures c !in Encode(fields)
  {
    if fields != [] {
      EncodedNatClean(ZigZag(fields[0]), c);
      EncodedFieldsClean(fields[1..], c);
    }
  }

  lemma {:induction false} EncodedSegmentsClean(segs: seq<Segment>, genCol: nat, prev: Prev, c: char)
    requires Sextet(c).None?
    ensures forall i | 0 <= i < |segs| :: c !in EncodeSegments(segs, genCol, prev)[i]
  {
    if segs != [] {
      EncodedFieldsClean(Fields(segs[0], genCol, prev), c);
      EncodedSegmentsClean(segs[1..], segs[0].genCol, Next(segs[0], prev), c);
    }
  }

  lemma {:induction false} JoinClean(parts: seq<string>, sep: char, c: char)
    requires c != sep && forall i | 0 <= i < |parts| :: c !in parts[i]
    ensures c !in Join(parts, sep)
  {
    if |parts| > 1 { JoinClean(parts[1..], sep, c); }
  }

  lemma {:induction false} EncodedLinesClean(table: Table, prev: Prev)
    ensures forall l | 0 <= l < |table| :: ';' !in EncodeLines(table, prev)[l]
  {
    if table != [] {
      EncodedSegmentsClean(table[0], 0, prev, ';');
      JoinClean(EncodeSegments(table[0], 0, prev), ',', ';');
      EncodedLinesClean(table[1..], After(table[0], prev));
    }
  }

  /** Scanning the text of one line is scanning its segments; the empty line splits into
      one empty segment, which decodes to nothing. */
  lemma ScanLineText(line: seq<Segment>, prev: Prev, st: Scan, onTarget: bool, genCol: U32)
    ensures ScanGroup(Split(Join(EncodeSegments(line, 0, prev), ','), ','), st, onTarget, genCol)
         == ScanGroup(EncodeSegments(line, 0, prev), st, onTarget, genCol)
  {
    var parts := EncodeSegments(line, 0, prev);
    if parts == [] {
      assert Split("", ',') == [""];
      assert ScanGroup([""], st, onTarget, genCol) == ScanGroup([], st, onTarget, genCol);
    } else {
      EncodedSegmentsClean(line, 0, prev, ',');
      SplitOfJoin(parts, ',');
    }
  }

  // --- the law ------------------------------------------------------------------------------

  lemma BestIsAnswer(table: Table, genLine: nat, genCol: nat, best: Option<(int, Loc)>)
    requires genLine < |table| && IsBest(table[genLine], |table[genLine]|, genCol, best)
    ensures IsAnswer(table, genLine, genCol, if best.None? then None else Some(best.value.1))
  {
    if best.Some? {
      var line := table[genLine];
      var i: nat :| Greatest(line, |line|, genCol, i) && best.value == (line[i].genCol, LocOf(line[i]));
    }
  }

  /** What scanning line `l` of the encoded table leaves. */
  lemma ScanTableLine(table: Table, l: nat, prev: Prev, onTarget: bool, genCol: U32)
    returns (col: nat, best: Option<(int, Loc)>)
    requires l < |table| && TableInRange(table) && PrevInRange(prev)
    ensures ScanGroup(Split(Join(EncodeSegments(table[l], 0, prev), ','), ','), ScanOf(0, prev, None), onTarget, genCol)
         == ScanOf(col, After(table[l], prev), best)
    ensures onTarget ==> IsBest(table[l], |table[l]|, genCol, best)
    ensures PrevInRange(After(table[l], prev))
  {
    hide ScanGroup, EncodeSegments, Split, Join, ScanOf, PrevInRange;
    var line := table[l];
    assert line[0..] == line;
    ScanLineText(line, prev, ScanOf(0, prev, None), onTarget, genCol);
    best := ScanEncodedLine(line, 0, 0, prev, None, onTarget, genCol);
    col := LastCol(line, 0);
  }

  lemma {:induction false} LookupEncodedLines(table: Table, l: nat, prev: Prev, after: seq<string>, genLine: U32,
                                              genCol: U32)
    requires l <= |table| && l <= genLine && TableInRange(table) && PrevInRange(prev)
    requires genLine < |table| || after == []
    ensures IsAnswer(table, genLine, genCol,
                     LookupFrom(EncodeLines(table[l..], prev) + after, l, ScanOf(0, prev, None), genLine, genCol))
    decreases |table| - l
  {
    hide ScanGroup, EncodeSegments, Split, Join, IsBest, IsAnswer, After, PrevInRange, TableInRange;
    var groups := EncodeLines(table[l..], prev) + after;
    if l < |table| {
      var onTarget := l == genLine;
      assert table[l..][0] == table[l] && table[l..][1..] == table[l + 1..];
      assert groups[0] == Join(EncodeSegments(table[l], 0, prev), ',');
      assert groups[1..] == EncodeLines(table[l + 1..], After(table[l], prev)) + after;
      var col, best := ScanTableLine(table, l, prev, onTarget, genCol);
      if onTarget {
        BestIsAnswer(table, genLine, genCol, best);
      } else {
        LookupEncodedLines(table, l + 1, After(table[l], prev), after, genLine, genCol);
        LookupIgnoresStart(groups[1..], l + 1, ScanOf(col, After(table[l], prev), best), 0, None, genLine, genCol);
      }
    } else {
      NoAnswerPastEnd(table, genLine, genCol);
    }
  }

  lemma NoAnswerPastEnd(table: Table, genLine: nat, genCol: nat)
    requires genLine >= |table|
    ensures IsAnswer(table, genLine, genCol, None)
  {
  }

  lemma JoinOfNone(sep: char)
    ensures Join([], sep) == ""
  {
  }

  lemma LookupOfEmpty(genLine: U32, genCol: U32)
    ensures Lookup("", genLine, genCol) == None
  {
    var groups := [""];
    var onTarget := 0 == genLine;
    assert groups[1..] == [];
    assert Split("", ';') == groups && Split("", ',') == groups;
    assert ScanSegment("", START, onTarget, genCol) == START;
    assert ScanGroup(groups, START, onTarget, genCol) == START by {
      assert ScanGroup(groups[1..], START, onTarget, genCol) == START;
    }
    assert START.(acc := 0, best := None) == START;
    assert LookupFrom(groups[1..], 1, START, genLine, genCol) == None;
    assert LookupFrom(groups, 0, START, genLine, genCol) == None;
  }

  /** End to end: on the standard encoding of a table, the lookup answers with the table's
      greatest mapped column at or before `genCol` on that line, the first one on ties,
      and with nothing when there is none. Source positions are reported modulo 2^32. */
  lemma LookupOfEncoding(table: Table, genLine: U32, genCol: U32)
    requires TableInRange(table)
    ensures IsAnswer(table, genLine, genCol, Lookup(EncodeTable(table), genLine, genCol))
  {
    hide LookupFrom, IsAnswer, Split, Join, TableInRange;
    var lines := EncodeLines(table, ORIGIN);
    assert table[0..] == table && lines + [] == lines;
    if table == [] {
      LookupOfEmpty(genLine, genCol);
      NoAnswerPastEnd(table, genLine, genCol);
      assert Join(lines, ';') == "" by { JoinOfNone(';'); }
    } else {
      EncodedLinesClean(table, ORIGIN);
      SplitOfJoin(lines, ';');
      LookupEncodedLines(table, 0, ORIGIN, [], genLine, genCol);
    }
  }

  /** Lines after the target never matter, not even malformed ones: any groups may follow. */
  lemma LookupIgnoresLaterLines(table: Table, after: seq<string>, genLine: U32, genCol: U32)
    requires TableInRange(table) && genLine < |table|
    requires forall k | 0 <= k < |after| :: ';' !in after[k]
    ensures IsAnswer(table, genLine, genCol, Lookup(Join(EncodeLines(table, ORIGIN) + after, ';'), genLine, genCol))
  {
    hide LookupFrom, IsAnswer, EncodeLines, Split, Join, TableInRange;
    var groups := EncodeLines(table, ORIGIN) + after;
    assert table[0..] == table;
    EncodedLinesClean(table, ORIGIN);
    SplitOfJoin(groups, ';');
    LookupEncodedLines(table, 0, ORIGIN, after, genLine, genCol);
  }

  // --- positions out of range --------------------------------------------------------------

  /** No overflow. */
  predicate In64(x: int) { -TWO_63 <= x < TWO_63 }

  function Clamped(x: int): U32 { if x < 0 then 0 else x % 0x1_0000_0000 }

  lemma ScanFour(segment: string, st: Scan, g: int, index: int, line: int, col: int, genCol: U32)
    requires Decoded(segment, 0, 0) == [g, index, line, col] && st.best.None?
    requires In64(st.acc + g) && In64(st.index + index) && In64(st.line + line) && In64(st.col + col)
    ensures ScanSegment(segment, st, true, genCol)
         == Scan(st.acc + g, st.index + index, st.line + line, st.col + col,
                 if st.acc + g <= genCol
                 then Some((st.acc + g, Loc(Clamped(st.index + index), Clamped(st.line + line), Clamped(st.col + col))))
                 else None)
  {
    hide Decoded, Wrap;
  }

  /** A first mapping is reported where its running positions stand, and at 0 where one of them
      has become negative. */
  lemma NegativesClamp(st: Scan, g: int, index: int, line: int, col: int, genCol: U32)
    requires Exact([g, index, line, col]) && st.best.None?
    requires In64(st.acc + g) && In64(st.index + index) && In64(st.line + line) && In64(st.col + col)
    ensures ScanSegment(Encode([g, index, line, col]), st, true, genCol)
         == Scan(st.acc + g, st.index + index, st.line + line, st.col + col,
                 if st.acc + g <= genCol
                 then Some((st.acc + g, Loc(Clamped(st.index + index), Clamped(st.line + line), Clamped(st.col + col))))
                 else None)
  {
    var fields := [g, index, line, col];
    assert Decoded("", 0, 0) == [];
    hide *;
    DecodeInvertsEncode(fields, "");
    assert Encode(fields) + "" == Encode(fields) && fields + [] == fields;
    ScanFour(Encode(fields), st, g, index, line, col, genCol);
  }

  /** Line numbers are compared as 32-bit numbers. */
  lemma {:induction false} LineNumbersWrap(groups: seq<string>, lineNo: nat, st: Scan, genLine: U32, genCol: U32)
    ensures LookupFrom(groups, lineNo + 0x1_0000_0000, st, genLine, genCol)
         == LookupFrom(groups, lineNo, st, genLine, genCol)
    decreases |groups|
  {
    hide ScanGroup, Split;
    if groups != [] {
      assert (lineNo + 0x1_0000_0000) % TWO_32 == lineNo % TWO_32;
      var onTarget := lineNo % TWO_32 == genLine;
      var end := ScanGroup(Split(groups[0], ','), st.(acc := 0, best := None), onTarget, genCol);
      LineNumbersWrap(groups[1..], lineNo + 1, end, genLine, genCol);
    }
  }

  /** So a line is on target exactly when its number is the one asked for, modulo 2^32. */
  lemma TargetLine(group: string, rest: seq<string>, lineNo: nat, st: Scan, genLine: U32, genCol: U32)
    requires lineNo % 0x1_0000_0000 == genLine
    ensures var end := ScanGroup(Split(group, ','), st.(acc := 0, best := None), true, genCol);
            LookupFrom([group] + rest, lineNo, st, genLine, genCol)
            == if end.best.None? then None else Some(end.best.value.1)
  {
    hide ScanGroup, Split;
  }
}
