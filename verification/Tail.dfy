/** The two polling tail loops over a growing log file. */
module Tail {
  import opened Text
  import opened LogLines
  import ExtHost

  // --- lines of a text ------------------------------------------------------------------

  predicate NoNewline(s: string) { forall k | 0 <= k < |s| :: s[k] != '\n' }

  /** A complete line: exactly one newline, at its end. */
  predicate Line(s: string) {
    |s| > 0 && s[|s| - 1] == '\n' && forall k | 0 <= k < |s| - 1 :: s[k] != '\n'
  }

  predicate AllLines(lines: seq<string>) { forall k | 0 <= k < |lines| :: Line(lines[k]) }

  function Flatten(lines: seq<string>): string {
    if lines == [] then "" else lines[0] + Flatten(lines[1..])
  }

  /** Just past the next newline at or after `at`, or the end of the text. */
  function LineEnd(content: string, at: nat): (e: nat)
    requires at <= |content|
    ensures at <= e <= |content| && (e == at <==> at == |content|)
    ensures forall k | at <= k < e - 1 :: content[k] != '\n'
    ensures e == |content| || content[e - 1] == '\n'
    decreases |content| - at
  {
    if at == |content| then at
    else if content[at] == '\n' then at + 1
    else LineEnd(content, at + 1)
  }

  /** What `read_line` returns at offset `at`. */
  function ReadLine(content: string, at: nat): (buf: string)
    requires at <= |content|
    ensures at + |buf| <= |content| && (buf == "" <==> at == |content|)
    ensures buf != "" ==> (buf[|buf| - 1] == '\n' <==> Line(buf))
  {
    content[at..LineEnd(content, at)]
  }

  /** The complete lines that follow offset `at`, and where they end. */
  function LinesFrom(content: string, at: nat): (seq<string>, nat)
    requires at <= |content|
    decreases |content| - at
  {
    var buf := ReadLine(content, at);
    if !Line(buf) then ([], at)
    else
      var (lines, end) := LinesFrom(content, at + |buf|);
      ([buf] + lines, end)
  }

  lemma ReadLineIsSlice(content: string, at: nat)
    requires at <= |content|
    ensures var buf := ReadLine(content, at);
            buf == content[at..at + |buf|] && (Line(buf) || NoNewline(content[at..]))
  {
  }

  lemma LinesFromStep(content: string, at: nat)
    requires at <= |content|
    ensures var buf := ReadLine(content, at);
            if !Line(buf) then LinesFrom(content, at) == ([], at)
            else
              var (lines, end) := LinesFrom(content, at + |buf|);
              LinesFrom(content, at) == ([buf] + lines, end)
    ensures !Line("")
  {
  }

  lemma OneMoreLine(line: string, rest: seq<string>)
    ensures Flatten([line] + rest) == line + Flatten(rest)
    ensures Line(line) && AllLines(rest) ==> AllLines([line] + rest)
  {
    hide Line;
    assert ([line] + rest)[1..] == rest;
  }

  lemma {:induction false} LinesFromSplits(content: string, at: nat)
    requires at <= |content|
    ensures var (lines, end) := LinesFrom(content, at);
            at <= end <= |content| && AllLines(lines)
            && content[at..end] == Flatten(lines) && NoNewline(content[end..])
    decreases |content| - at
  {
    hide *;
    var buf := ReadLine(content, at);
    var next := at + |buf|;
    ReadLineIsSlice(content, at);
    LinesFromStep(content, at);
    if Line(buf) {
      LinesFromSplits(content, next);
      var rest := LinesFrom(content, next);
      OneMoreLine(buf, rest.0);
      SliceSplit(content, at, next, rest.1);
    } else {
      NoLines(content, at);
    }
  }

  lemma NoLines(content: string, at: nat)
    requires at <= |content|
    ensures AllLines([]) && content[at..at] == Flatten([])
  {
  }

  lemma {:induction false} FlattenOfSum(a: seq<string>, b: seq<string>)
    ensures Flatten(a + b) == Flatten(a) + Flatten(b)
  {
    if a == [] {
      assert a + b == b;
    } else {
      assert (a + b)[1..] == a[1..] + b;
      FlattenOfSum(a[1..], b);
    }
  }

  /** There is only one way to cut a text into complete lines and an unterminated rest. */
  lemma {:induction false} CutUnique(a: seq<string>, r: string, b: seq<string>, q: string)
    requires AllLines(a) && AllLines(b) && NoNewline(r) && NoNewline(q)
    requires Flatten(a) + r == Flatten(b) + q
    ensures a == b && r == q
    decreases |a| + |b|
  {
    assert a == [] ==> Flatten(a) + r == r;
    assert b == [] ==> Flatten(b) + q == q;
    assert a != [] ==> Flatten(a) + r == a[0] + (Flatten(a[1..]) + r);
    assert b != [] ==> Flatten(b) + q == b[0] + (Flatten(b[1..]) + q);
    if a == [] && b == [] {
    } else if a == [] {
      LineInPlain(b[0], Flatten(b[1..]) + q, r);
    } else if b == [] {
      LineInPlain(a[0], Flatten(a[1..]) + r, q);
    } else {
      SameFirstLine(a[0], Flatten(a[1..]) + r, b[0], Flatten(b[1..]) + q);
      CutUnique(a[1..], r, b[1..], q);
    }
  }

  lemma LineInPlain(line: string, more: string, plain: string)
    requires Line(line) && NoNewline(plain)
    ensures line + more != plain
  {
    assert (line + more)[|line| - 1] == '\n';
  }

  lemma SameFirstLine(x: string, xs: string, y: string, ys: string)
    requires Line(x) && Line(y) && x + xs == y + ys
    ensures x == y && xs == ys
  {
    var s := x + xs;
    assert s[|x| - 1] == '\n' && s[|y| - 1] == '\n';
    assert forall k | 0 <= k < |x| :: s[k] == x[k];
    assert forall k | 0 <= k < |y| :: s[k] == y[k];
    assert x == s[..|x|] && y == s[..|y|] && xs == s[|x|..] && ys == s[|y|..];
  }

  /** `lines` are the newline-terminated lines of `s`, in order. */
  ghost predicate TerminatedLines(s: string, lines: seq<string>) {
    AllLines(lines) && exists rest :: NoNewline(rest) && s == Flatten(lines) + rest
  }

  // --- one poll --------------------------------------------------------------------------

  datatype State = State(pos: nat, handed: seq<string>)

  /** A file shorter than `pos` was truncated or rotated: start again from the top. */
  function Polled(st: State, content: string): (r: State)
    ensures st.handed <= r.handed
  {
    var p := if |content| < st.pos then 0 else st.pos;
    var (lines, end) := LinesFrom(content, p);
    State(end, st.handed + lines)
  }

  // --- what each loop makes of its lines --------------------------------------------------------

  /** `trim_end_matches(['\n', '\r'])`. */
  function StripBreaks(s: string): string {
    if s != "" && s[|s| - 1] in "\r\n" then StripBreaks(s[..|s| - 1]) else s
  }

  function Stripped(lines: seq<string>): seq<string> {
    if lines == [] then [] else Stripped(lines[..|lines| - 1]) + [StripBreaks(lines[|lines| - 1])]
  }

  /** The parser fed with one line after the other, and what each made it emit. */
  function FedAll(p: ExtHost.Parser, outs: seq<seq<LogLine>>, lines: seq<string>, clock: nat -> nat,
                  maps: nat -> ExtHost.Mapper): (ExtHost.Parser, seq<seq<LogLine>>)
    decreases |lines|
  {
    if lines == [] then (p, outs)
    else
      var (q, os) := FedAll(p, outs, lines[..|lines| - 1], clock, maps);
      var (r, out) := ExtHost.Fed(q, StripBreaks(lines[|lines| - 1]), clock(|os|), maps(|os|));
      (r, os + [out])
  }

  /** The records that a follower of a session log yields. */
  function Yielded(lines: seq<string>): seq<LogLine> {
    if lines == [] then []
    else
      Yielded(lines[..|lines| - 1]) + YieldOf(lines[|lines| - 1])
  }

  function YieldOf(line: string): seq<LogLine> { match FromTailed(line) case Some(l) => [l] case None => [] }

  class ExtHostTail {
    var pos: nat
    var handed: seq<string>
    var parser: ExtHost.ExtHostParser
    var outs: seq<seq<LogLine>>

    ghost function Snapshot(): State reads this { State(pos, handed) }

    constructor (start: nat)
      ensures Snapshot() == State(start, []) && parser.Snapshot() == ExtHost.FRESH && outs == [] && fresh(parser)
    {
      pos, handed, outs := start, [], [];
      parser := new ExtHost.ExtHostParser();
    }

    method Hand(line: string, clock: nat -> nat, maps: nat -> ExtHost.Mapper)
      modifies this`handed, this`outs, parser
      ensures handed == old(handed) + [line]
      ensures var n := |old(outs)|;
              var (r, out) := ExtHost.Fed(old(parser.Snapshot()), StripBreaks(line), clock(n), maps(n));
              parser.Snapshot() == r && outs == old(outs) + [out]
    {
      hide ExtHost.Fed;
      handed := handed + [line];
      var out := parser.Feed(StripBreaks(line), clock(|outs|), maps(|outs|));
      outs := outs + [out];
    }

    /** One turn of the ExtensionHost.txt loop: count the bytes, and take them back when
        the line turns out to be partial; a shorter file also starts a new parser. */
    method Poll(content: string, clock: nat -> nat, maps: nat -> ExtHost.Mapper)
      modifies this, parser
      ensures Snapshot() == Polled(old(Snapshot()), content)
      ensures |old(handed)| <= |handed|
      ensures (parser.Snapshot(), outs)
           == FedAll(if |content| < old(pos) then ExtHost.FRESH else old(parser.Snapshot()), old(outs),
                     handed[|old(handed)|..], clock, maps)
      ensures parser == old(parser) || fresh(parser)
    {
      hide ReadLine, Line, LinesFrom, ExtHost.Fed, FedAll;
      if |content| < pos {
        pos := 0;
        parser := new ExtHost.ExtHostParser();
      }
      LinesFromStep(content, pos);
      ghost var (lines, end) := LinesFrom(content, pos);
      ghost var p, more := parser.Snapshot(), [];
      FedNothing(p, outs, clock, maps);
      if |content| > pos {
        var at := pos;
        while true
          invariant pos == at <= |content|
          invariant handed == old(handed) + more
          invariant var (rest, e) := LinesFrom(content, at); e == end && more + rest == lines
          invariant (parser.Snapshot(), outs) == FedAll(p, old(outs), more, clock, maps)
          invariant parser == old(parser) || fresh(parser)
          decreases |content| - at
        {
          LinesFromStep(content, at);
          var buf := ReadLine(content, at);
          if buf == "" {
            break;
          }
          pos := pos + |buf|;
          at := at + |buf|;
          if buf[|buf| - 1] == '\n' {
            FedOneMore(p, old(outs), more, buf, clock, maps);
            Hand(buf, clock, maps);
            more := more + [buf];
          } else {
            pos := pos - |buf|;
            break;
          }
        }
      }
      assert handed[|old(handed)|..] == more;
    }
  }

  lemma FedOneMore(p: ExtHost.Parser, outs: seq<seq<LogLine>>, lines: seq<string>, line: string, clock: nat -> nat,
                   maps: nat -> ExtHost.Mapper)
    ensures var (q, os) := FedAll(p, outs, lines, clock, maps);
            var (r, out) := ExtHost.Fed(q, StripBreaks(line), clock(|os|), maps(|os|));
            FedAll(p, outs, lines + [line], clock, maps) == (r, os + [out])
  {
    hide ExtHost.Fed;
    assert (lines + [line])[..|lines|] == lines;
  }

  class SessionTail {
    var pos: nat
    var handed: seq<string>
    var yielded: seq<LogLine>

    ghost function Snapshot(): State reads this { State(pos, handed) }

    constructor (start: nat)
      ensures Snapshot() == State(start, []) && yielded == []
    {
      pos, handed, yielded := start, [], [];
    }

    /** One turn of the session-log loop: advance only past complete lines, and yield the
        record of each that holds one. */
    method Poll(content: string)
      modifies this
      ensures Snapshot() == Polled(old(Snapshot()), content)
      ensures old(yielded) == Yielded(old(handed)) ==> yielded == Yielded(handed)
    {
      hide ReadLine, Line, LinesFrom, FromTailed;
      if |content| < pos {
        pos := 0;
      }
      LinesFromStep(content, pos);
      ghost var (lines, end) := LinesFrom(content, pos);
      if |content| > pos {
        var at := pos;
        while true
          invariant pos == at <= |content|
          invariant var (rest, e) := LinesFrom(content, at); e == end && handed + rest == old(handed) + lines
          invariant old(yielded) == Yielded(old(handed)) ==> yielded == Yielded(handed)
          decreases |content| - at
        {
          LinesFromStep(content, at);
          var buf := ReadLine(content, at);
          if buf == "" {
            break;
          }
          at := at + |buf|;
          if buf[|buf| - 1] == '\n' {
            pos := pos + |buf|;
            assert (handed + [buf])[..|handed|] == handed;
            handed := handed + [buf];
            var record := FromTailed(buf);
            if record.Some? {
              yielded := yielded + [record.value];
            }
          } else {
            break;
          }
        }
      }
    }
  }

  /** A file that has become shorter is read again from its top: all of its terminated lines
      are handed on, whatever was handed on before. */
  lemma ShorterFileRestarts(st: State, content: string)
    requires |content| < st.pos
    ensures var r := Polled(st, content);
            && st.handed <= r.handed && TerminatedLines(content, r.handed[|st.handed|..])
            && r.pos <= |content| && NoNewline(content[r.pos..])
  {
    LinesFromSplits(content, 0);
    var (lines, end) := LinesFrom(content, 0);
    assert content == content[0..end] + content[end..];
    assert (st.handed + lines)[|st.handed|..] == lines;
  }

  // --- any interleaving of appends and polls -------------------------------------------------

  datatype Event = Append(data: string) | Poll | FailedPoll

  datatype World = World(content: string, tail: State)

  function Step(w: World, e: Event): World {
    match e
    case Append(data) => w.(content := w.content + data)
    case Poll => w.(tail := Polled(w.tail, w.content))
    case FailedPoll => w
  }

  function Run(w: World, events: seq<Event>): World {
    if events == [] then w else Step(Run(w, events[..|events| - 1]), events[|events| - 1])
  }

  ghost predicate Inv(start: nat, w: World) {
    && start <= w.tail.pos <= |w.content|
    && w.content[start..w.tail.pos] == Flatten(w.tail.handed)
    && AllLines(w.tail.handed)
  }

  lemma PollKeepsInv(start: nat, content: string, tail: State)
    requires Inv(start, World(content, tail))
    ensures Inv(start, World(content, Polled(tail, content))) && NoNewline(content[Polled(tail, content).pos..])
  {
    hide Flatten, LinesFrom;
    var p := tail.pos;
    var (lines, end) := LinesFrom(content, p);
    LinesFromSplits(content, p);
    FlattenOfSum(tail.handed, lines);
    SliceSplit(content, start, p, end);
  }

  lemma AppendKeepsInv(start: nat, w: World, data: string)
    requires Inv(start, w)
    ensures Inv(start, w.(content := w.content + data))
  {
    assert (w.content + data)[start..w.tail.pos] == w.content[start..w.tail.pos];
  }

  lemma {:induction false} LastNewline(lines: seq<string>)
    requires AllLines(lines)
    ensures lines != [] ==> Flatten(lines) != "" && Flatten(lines)[|Flatten(lines)| - 1] == '\n'
  {
    if |lines| > 1 { LastNewline(lines[1..]); }
  }

  lemma {:induction false} RunKeepsInv(start: nat, w: World, events: seq<Event>)
    requires Inv(start, w)
    ensures Inv(start, Run(w, events))
  {
    hide Inv, Polled;
    if events != [] {
      var before := Run(w, events[..|events| - 1]);
      RunKeepsInv(start, w, events[..|events| - 1]);
      match events[|events| - 1]
      case Append(data) => AppendKeepsInv(start, before, data);
      case Poll => PollKeepsInv(start, before.content, before.tail);
      case FailedPoll =>
    }
  }

  lemma PosAfterNewline(start: nat, w: World)
    requires Inv(start, w)
    ensures w.tail.pos == start || w.content[w.tail.pos - 1] == '\n'
  {
    LastNewline(w.tail.handed);
    if w.tail.pos > start {
      var slice := w.content[start..w.tail.pos];
      assert w.content[w.tail.pos - 1] == slice[|slice| - 1];
    }
  }

  lemma StartInv(content: string, start: nat)
    requires start <= |content|
    ensures Inv(start, World(content, State(start, [])))
  {
  }

  /** At every moment of every run over a file that only grows, the lines handed on are
      complete, each once and in order: together they are the text from the starting
      offset up to `pos`, which is the start or sits just past a newline. */
  lemma HandedIsPrefix(content: string, start: nat, events: seq<Event>)
    requires start <= |content|
    ensures var w := Run(World(content, State(start, [])), events);
            Inv(start, w) && (w.tail.pos == start || w.content[w.tail.pos - 1] == '\n')
  {
    StartInv(content, start);
    RunKeepsInv(start, World(content, State(start, [])), events);
    PosAfterNewline(start, Run(World(content, State(start, [])), events));
  }

  /** After any run that ends with a poll, exactly the newline-terminated lines of the file
      from the starting offset have been handed on. */
  lemma PollHandsOnEverything(content: string, start: nat, events: seq<Event>)
    requires start <= |content|
    ensures var w := Run(World(content, State(start, [])), events + [Poll]);
            start <= |w.content| && TerminatedLines(w.content[start..], w.tail.handed)
    ensures var w := Run(World(content, State(start, [])), events + [Poll]);
            forall lines | TerminatedLines(w.content[start..], lines) :: lines == w.tail.handed
  {
    hide Flatten, LinesFrom, NoNewline, AllLines;
    var before := Run(World(content, State(start, [])), events);
    assert (events + [Poll])[..|events|] == events;
    HandedIsPrefix(content, start, events);
    PollKeepsInv(start, before.content, before.tail);
    var w := before.(tail := Polled(before.tail, before.content));
    assert w == Run(World(content, State(start, [])), events + [Poll]);
    var s, rest := w.content[start..], w.content[w.tail.pos..];
    assert s == w.content[start..w.tail.pos] + rest == Flatten(w.tail.handed) + rest;
    forall lines | TerminatedLines(s, lines) ensures lines == w.tail.handed {
      var r :| NoNewline(r) && s == Flatten(lines) + r;
      CutUnique(lines, r, w.tail.handed, rest);
    }
  }

  predicate Breaks(s: string) { forall i | 0 <= i < |s| :: s[i] == '\n' || s[i] == '\r' }

  predicate EndsInBreak(s: string) { s != "" && (s[|s| - 1] == '\n' || s[|s| - 1] == '\r') }

  /** Exactly the line breaks at the end are taken off. */
  lemma {:induction false} StripsBreaks(text: string, end: string)
    requires !EndsInBreak(text) && Breaks(end)
    ensures StripBreaks(text + end) == text
  {
    if end == "" {
      assert text + end == text;
    } else {
      assert (text + end)[..|text + end| - 1] == text + end[..|end| - 1];
      StripsBreaks(text, end[..|end| - 1]);
    }
  }

  /** The line is the text with line breaks after it. */
  predicate LineOf(line: string, text: string) {
    !EndsInBreak(text) && text <= line && Breaks(line[|text|..])
  }

  predicate LinesOf(lines: seq<string>, texts: seq<string>) {
    |lines| == |texts| && forall i | 0 <= i < |lines| :: LineOf(lines[i], texts[i])
  }

  lemma LineStrips(line: string, text: string)
    requires LineOf(line, text)
    ensures StripBreaks(line) == text
  {
    StripsBreaks(text, line[|text|..]);
    assert line == text + line[|text|..];
  }

  lemma {:induction false} StrippedAreTexts(lines: seq<string>, texts: seq<string>)
    requires LinesOf(lines, texts)
    ensures Stripped(lines) == texts
  {
    hide LineOf, StripBreaks;
    if lines != [] {
      var n := |lines| - 1;
      StrippedAreTexts(lines[..n], texts[..n]);
      LineStrips(lines[n], texts[n]);
      assert texts == texts[..n] + [texts[n]];
    }
  }

  // --- what comes out, end to end -----------------------------------------------------------------

  datatype Parsing = Parsing(world: World, parser: ExtHost.Parser, outs: seq<seq<LogLine>>)

  /** The ExtensionHost.txt loop with its parser, in any such run. */
  function ParsingStep(w: Parsing, e: Event, clock: nat -> nat, maps: nat -> ExtHost.Mapper): Parsing {
    var next := Step(w.world, e);
    if !e.Poll? then w.(world := next)
    else
      var start := if |w.world.content| < w.world.tail.pos then ExtHost.FRESH else w.parser;
      var (p, outs) := FedAll(start, w.outs, next.tail.handed[|w.world.tail.handed|..], clock, maps);
      Parsing(next, p, outs)
  }

  function ParsingRun(w: Parsing, events: seq<Event>, clock: nat -> nat, maps: nat -> ExtHost.Mapper): Parsing {
    if events == [] then w
    else ParsingStep(ParsingRun(w, events[..|events| - 1], clock, maps), events[|events| - 1], clock, maps)
  }

  lemma {:induction false} FedInTwoParts(p: ExtHost.Parser, outs: seq<seq<LogLine>>, a: seq<string>, b: seq<string>,
                                         clock: nat -> nat, maps: nat -> ExtHost.Mapper)
    ensures var (q, os) := FedAll(p, outs, a, clock, maps);
            FedAll(p, outs, a + b, clock, maps) == FedAll(q, os, b, clock, maps)
    decreases |b|
  {
    hide ExtHost.Fed;
    if b == [] {
      assert a + b == a;
    } else {
      var front, last := b[..|b| - 1], b[|b| - 1];
      assert a + b == (a + front) + [last] && b == front + [last];
      FedInTwoParts(p, outs, a, front, clock, maps);
      FedOneMore(p, outs, a + front, last, clock, maps);
    }
  }

  lemma {:induction false} FedIsRun(lines: seq<string>, clock: nat -> nat, maps: nat -> ExtHost.Mapper)
    ensures |Stripped(lines)| == |lines|
    ensures FedAll(ExtHost.FRESH, [], lines, clock, maps) == ExtHost.Run(Stripped(lines), clock, maps)
    ensures |ExtHost.Run(Stripped(lines), clock, maps).1| == |lines|
  {
    hide ExtHost.Fed, StripBreaks;
    if lines != [] {
      var n := |lines| - 1;
      FedIsRun(lines[..n], clock, maps);
      assert Stripped(lines)[..n] == Stripped(lines[..n]);
    }
  }

  lemma {:induction false} ParsingFollows(content: string, start: nat, events: seq<Event>, clock: nat -> nat,
                                          maps: nat -> ExtHost.Mapper)
    requires start <= |content|
    ensures var begin := World(content, State(start, []));
            var w := ParsingRun(Parsing(begin, ExtHost.FRESH, []), events, clock, maps);
            && w.world == Run(begin, events)
            && (w.parser, w.outs) == FedAll(ExtHost.FRESH, [], w.world.tail.handed, clock, maps)
  {
    hide FedAll, LinesFrom, Inv;
    var begin := World(content, State(start, []));
    if events == [] {
      FedNothing(ExtHost.FRESH, [], clock, maps);
    } else {
      var front := events[..|events| - 1];
      ParsingFollows(content, start, front, clock, maps);
      HandedIsPrefix(content, start, front);
      var w := Run(begin, front);
      assert w.tail.pos <= |w.content| by { InvBounds(start, w); }
      if events[|events| - 1].Poll? {
        var handed := Polled(w.tail, w.content).handed;
        var more := handed[|w.tail.handed|..];
        assert handed == w.tail.handed + more;
        FedInTwoParts(ExtHost.FRESH, [], w.tail.handed, more, clock, maps);
      }
    }
  }

  lemma FedNothing(p: ExtHost.Parser, outs: seq<seq<LogLine>>, clock: nat -> nat, maps: nat -> ExtHost.Mapper)
    ensures FedAll(p, outs, [], clock, maps) == (p, outs)
  {
  }

  lemma InvBounds(start: nat, w: World)
    requires Inv(start, w)
    ensures w.tail.pos <= |w.content|
  {
  }

  /** Over any interleaving of appends and polls, partial lines included, what the parser has
      emitted once the last poll has been made is what it makes of the texts of the lines of the
      file from the starting offset, without their line breaks. */
  lemma TailedOutputs(content: string, start: nat, events: seq<Event>, lines: seq<string>, texts: seq<string>,
                      clock: nat -> nat, maps: nat -> ExtHost.Mapper)
    requires start <= |content| && LinesOf(lines, texts)
    requires var w := Run(World(content, State(start, [])), events + [Poll]);
             start <= |w.content| && TerminatedLines(w.content[start..], lines)
    ensures var begin := Parsing(World(content, State(start, [])), ExtHost.FRESH, []);
            ParsingRun(begin, events + [Poll], clock, maps).outs == ExtHost.Run(texts, clock, maps).1
  {
    hide *;
    PollHandsOnEverything(content, start, events);
    ParsingFollows(content, start, events + [Poll], clock, maps);
    FedIsRun(lines, clock, maps);
    StrippedAreTexts(lines, texts);
  }

  /** So there are as many activation failures as those texts have exception blocks with a frame. */
  lemma TailedFailuresMatchBlocks(content: string, start: nat, events: seq<Event>, lines: seq<string>,
                                  texts: seq<string>, clock: nat -> nat, maps: nat -> ExtHost.Mapper)
    requires start <= |content| && LinesOf(lines, texts)
    requires var w := Run(World(content, State(start, [])), events + [Poll]);
             start <= |w.content| && TerminatedLines(w.content[start..], lines)
    ensures var begin := Parsing(World(content, State(start, [])), ExtHost.FRESH, []);
            ExtHost.CountFailed(ParsingRun(begin, events + [Poll], clock, maps).outs) == |ExtHost.FailedBlocks(texts)|
  {
    hide *;
    TailedOutputs(content, start, events, lines, texts, clock, maps);
    ExtHost.FailuresMatchBlocks(texts, clock, maps);
  }

  lemma TailedOutsAreShort(content: string, start: nat, events: seq<Event>, clock: nat -> nat,
                           maps: nat -> ExtHost.Mapper)
    requires start <= |content|
    ensures var begin := Parsing(World(content, State(start, [])), ExtHost.FRESH, []);
            var outs := ParsingRun(begin, events + [Poll], clock, maps).outs;
            forall i | 0 <= i < |outs| :: |outs[i]| <= 1
  {
    hide *;
    var begin := Parsing(World(content, State(start, [])), ExtHost.FRESH, []);
    var handed := ParsingRun(begin, events + [Poll], clock, maps).world.tail.handed;
    ParsingFollows(content, start, events + [Poll], clock, maps);
    FedIsRun(handed, clock, maps);
    ExtHost.FailuresMatchBlocks(Stripped(handed), clock, maps);
  }

  /** The lines of a persisted session log. */
  function RecordLines(lines: seq<LogLine>): seq<string> {
    if lines == [] then [] else RecordLines(lines[..|lines| - 1]) + [ToRecord(lines[|lines| - 1]) + "\n"]
  }

  lemma {:induction false} RecordLinesAreThose(lines: seq<LogLine>)
    requires forall i | 0 <= i < |lines| :: Persistable(lines[i])
    ensures AllLines(RecordLines(lines)) && Flatten(RecordLines(lines)) == Persisted(lines)
  {
    hide ToRecord, Persistable;
    if lines != [] {
      var n := |lines| - 1;
      RecordLinesAreThose(lines[..n]);
      RecordIsOneLine(lines[n]);
      FlattenOfSum(RecordLines(lines[..n]), [ToRecord(lines[n]) + "\n"]);
      assert [ToRecord(lines[n]) + "\n"][1..] == [];
    }
  }

  predicate AllFollowable(lines: seq<LogLine>) { forall i | 0 <= i < |lines| :: Followable(lines[i]) }

  lemma FollowableGrows(front: seq<LogLine>, last: LogLine)
    ensures AllFollowable(front + [last]) <==> AllFollowable(front) && Followable(last)
  {
    hide Followable;
    assert forall i | 0 <= i < |front| :: (front + [last])[i] == front[i];
    assert (front + [last])[|front|] == last;
  }

  lemma RecordLinesGrow(front: seq<LogLine>, last: LogLine)
    ensures Yielded(RecordLines(front + [last])) == Yielded(RecordLines(front)) + YieldOf(ToRecord(last) + "\n")
    ensures StoredAll(front + [last]) == StoredAll(front) + [Stored(last)]
  {
    hide ToRecord, FromTailed;
    assert (front + [last])[..|front|] == front;
    var records := RecordLines(front);
    assert (records + [ToRecord(last) + "\n"])[..|records|] == records;
    StoredOfSum(front, last);
  }

  lemma YieldOfRecord(l: LogLine)
    requires Persistable(l)
    ensures |YieldOf(ToRecord(l) + "\n")| <= 1
    ensures YieldOf(ToRecord(l) + "\n") == [Stored(l)] <==> Followable(l)
  {
    hide ToRecord, FromTailed, Stored, Followable;
    TailedRoundTrip(l);
  }

  lemma {:induction false} YieldedExactly(lines: seq<LogLine>)
    requires forall i | 0 <= i < |lines| :: Persistable(lines[i])
    ensures |Yielded(RecordLines(lines))| <= |lines| == |StoredAll(lines)|
    ensures Yielded(RecordLines(lines)) == StoredAll(lines) <==> AllFollowable(lines)
  {
    hide *;
    if lines == [] {
      NothingYielded(lines);
    } else {
      var front, last := lines[..|lines| - 1], lines[|lines| - 1];
      assert lines == front + [last];
      YieldedExactly(front);
      RecordLinesGrow(front, last);
      YieldOfRecord(last);
      FollowableGrows(front, last);
      SumsEqual(Yielded(RecordLines(front)), YieldOf(ToRecord(last) + "\n"), StoredAll(front), Stored(last));
    }
  }

  lemma NothingYielded(lines: seq<LogLine>)
    requires lines == []
    ensures Yielded(RecordLines(lines)) == StoredAll(lines) == [] && AllFollowable(lines)
  {
    assert RecordLines(lines) == [];
  }

  lemma SumsEqual(a: seq<LogLine>, x: seq<LogLine>, b: seq<LogLine>, y: LogLine)
    requires |a| <= |b| && |x| <= 1
    ensures a + x == b + [y] <==> a == b && x == [y]
  {
    if a + x == b + [y] {
      assert |a| == |b| && |x| == 1;
      assert a == (a + x)[..|a|] == (b + [y])[..|b|] == b;
      assert x[0] == (a + x)[|a|] == (b + [y])[|b|] == y;
    }
  }

  lemma {:induction false} StoredOfSum(front: seq<LogLine>, last: LogLine)
    ensures StoredAll(front + [last]) == StoredAll(front) + [Stored(last)]
  {
  }

  /** Following a session log from its start, in any pieces it may be written, yields every
      line of it exactly when no line ends in white space that the follower cuts off. */
  lemma FollowedSessionExactly(events: seq<Event>, lines: seq<LogLine>)
    requires forall i | 0 <= i < |lines| :: Persistable(lines[i])
    requires Run(World("", State(0, [])), events + [Poll]).content == Persisted(lines)
    ensures Yielded(Run(World("", State(0, [])), events + [Poll]).tail.handed) == StoredAll(lines)
       <==> AllFollowable(lines)
  {
    var records := RecordLines(lines);
    RecordLinesAreThose(lines);
    assert NoNewline("") && Flatten(records) + "" == Flatten(records);
    assert TerminatedLines(Persisted(lines), records);
    assert Persisted(lines)[0..] == Persisted(lines);
    hide *;
    PollHandsOnEverything("", 0, events);
    YieldedExactly(lines);
  }
}
