/** The line-by-line parser over ExtensionHost.txt. */
module ExtHost {
  import opened Text
  import opened LogLines
  import Calendar

  // --- recognising a line -----------------------------------------------------------------

  /** A line that opens a new entry: `<timestamp>: <level>: <message>`. */
  function ParseEntry(line: string, now: nat): Option<(nat, Level, string)> {
    match SplitOnce(line, ": ")
    case None => None
    case Some((stamp, rest)) =>
      if 'T' !in stamp || !IsDigit(stamp[0]) then None
      else
        var (word, msg) := match SplitOnce(rest, ": ") case None => (rest, "") case Some(p) => p;
        var ts := match Calendar.ParseTimestamp(stamp) case None => now case Some(t) => t;
        if word == "info" then Some((ts, Info, msg))
        else if word == "error" then Some((ts, Error, msg))
        else if word == "warn" || word == "warning" then Some((ts, Warn, msg))
        else None
  }

  predicate Timestamped(line: string) { ParseEntry(line, 0).Some? }

  function MessageOf(line: string): string
    requires Timestamped(line)
  {
    ParseEntry(line, 0).value.2
  }

  /** A leading `[<ext>]: <rest>`. */
  function StripTag(msg: string): Option<(string, string)> {
    var m := TrimStart(msg);
    if !StartsWith(m, "[") then None
    else match Find(m, "]:", 0)
      case None => None
      case Some(close) =>
        var name := if close >= 1 then m[1..close] else "";
        if name == "" || ' ' in name || '[' in name then None
        else Some((name, TrimStart(m[close + 2..])))
  }

  /** The first bracketed word anywhere in a line. */
  function ExtractTag(line: string): Option<string> {
    match Find(line, "[", 0)
    case None => None
    case Some(open) =>
      match Find(line, "]", open + 1)
      case None => None
      case Some(close) =>
        var name := line[open + 1..close];
        if name == "" || ' ' in name then None else Some(name)
  }

  predicate Banner(msg: string) { StartsWith(msg, "Started: Extension Host ") }

  function BannerText(msg: string): string
    requires Banner(msg)
  {
    "Extension Host " + Trim(msg[|"Started: Extension Host "|..]) + " started"
  }

  predicate ExceptionMessage(msg: string) { Contains(msg, "Uncaught exception") || StartsWith(msg, "Error:") }

  /** Where the path of a stack frame starts: past the last `(` or space. */
  function PathStart(s: string): (i: nat)
    ensures i <= |s|
  {
    if s == [] then 0
    else if s[|s| - 1] in "( " then |s|
    else PathStart(s[..|s| - 1])
  }

  function LeadingNumbers(s: string): string {
    if s != [] && (IsDigit(s[0]) || s[0] == ':') then [s[0]] + LeadingNumbers(s[1..]) else ""
  }

  const U32_MAX := 0xFFFF_FFFF
  const DIST_ENTRY := "dist/extension.js"

  /** A frame in a deployed bundle: `…dist/extension.js:L:C`. */
  function ParseFrame(line: string): Option<(string, nat, nat)> {
    match Find(line, DIST_ENTRY + ":", 0)
    case None => None
    case Some(at) =>
      var after := at + |DIST_ENTRY|;
      var nums := Split(LeadingNumbers(line[after + 1..]), ':');
      match ParseNat(nums[0], U32_MAX)
      case None => None
      case Some(l) =>
        var c := match ParseNat(if |nums| > 1 then nums[1] else "", U32_MAX) case None => 0 case Some(n) => n;
        Some((Trim(line[PathStart(line[..at])..after]), l, c))
  }

  function NameParts(parts: seq<string>): seq<string> {
    if parts == [] then []
    else (if parts[0] == "" || parts[0] == "." then [] else [parts[0]]) + NameParts(parts[1..])
  }

  /** The directory above `dist`. */
  function SlugOf(path: string): Option<string> {
    var names := NameParts(Split(path, '/'));
    if |names| < 3 || names[|names| - 3] == ".." then None else Some(names[|names| - 3])
  }

  // --- feeding one line ----------------------------------------------------------------------

  datatype Parser = Parser(inException: bool, lastExt: Option<string>, excMessage: Option<string>, excEmitted: bool)

  const FRESH := Parser(false, None, None, false)

  /** The source-map lookup behind a frame, as the registered bundles stand at that moment. */
  type Mapper = (Option<string>, string, nat, nat) -> Option<SourceLoc>

  function FailureLine(p: Parser, frame: (string, nat, nat), now: nat, mapper: Mapper): LogLine {
    var ext := if p.lastExt.Some? then p.lastExt else SlugOf(frame.0);
    var mapped := mapper(ext, frame.0, frame.1, frame.2);
    var message := if p.excMessage.Some? then p.excMessage.value else "uncaught exception in activate()";
    var loc := if mapped.Some? then " (" + mapped.value.file + ":" + Decimal(mapped.value.line) + ")" else "";
    LogLine(now, Error, ext, Lifecycle, "activate() failed: " + message + loc, mapped)
  }

  function FedEntry(p: Parser, raw: string, entry: (nat, Level, string)): (Parser, LogLine) {
    var (ts, level, msg) := entry;
    var closed := p.(inException := false);
    if Banner(msg) then
      (closed, LogLine(ts, Info, None, Lifecycle, BannerText(msg), None))
    else if StripTag(msg).Some? then
      var (ext, rest) := StripTag(msg).value;
      (closed.(lastExt := Some(ext)), LogLine(ts, level, Some(ext), Console, rest, None))
    else if ExceptionMessage(msg) then
      (Parser(true, p.lastExt, if StartsWith(msg, "Error:") then Some(msg) else None, false),
       LogLine(ts, Error, p.lastExt, HostOutput, msg, None))
    else
      var ext := ExtractTag(raw);
      (closed, LogLine(ts, level, ext, if ext.Some? then Console else HostOutput, msg, None))
  }

  function FedContinuation(p: Parser, raw: string, now: nat, mapper: Mapper): (Parser, seq<LogLine>) {
    if !p.inException then (p, [])
    else
      var first := Trim(raw);
      var q := if p.excMessage.None? && StartsWith(first, "Error:") then p.(excMessage := Some(first)) else p;
      var frame := ParseFrame(raw);
      if q.excEmitted || frame.None? then (q, [])
      else (q.(excEmitted := true), [FailureLine(q, frame.value, now, mapper)])
  }

  function Fed(p: Parser, raw: string, now: nat, mapper: Mapper): (Parser, seq<LogLine>) {
    match ParseEntry(raw, now)
    case Some(entry) => var (q, l) := FedEntry(p, raw, entry); (q, [l])
    case None => FedContinuation(p, raw, now, mapper)
  }

  class ExtHostParser {
    var inException: bool
    var lastExt: Option<string>
    var excMessage: Option<string>
    var excEmitted: bool

    ghost function Snapshot(): Parser reads this { Parser(inException, lastExt, excMessage, excEmitted) }

    constructor ()
      ensures Snapshot() == FRESH
    {
      inException, lastExt, excMessage, excEmitted := false, None, None, false;
    }

    method Feed(raw: string, now: nat, mapper: Mapper) returns (out: seq<LogLine>)
      modifies this
      ensures (Snapshot(), out) == Fed(old(Snapshot()), raw, now, mapper)
    {
      hide ParseEntry, StripTag, ExtractTag, Banner, ExceptionMessage, ParseFrame, Trim, StartsWith, FailureLine;
      var entry := ParseEntry(raw, now);
      if entry.Some? {
        var (ts, level, msg) := entry.value;
        inException := false;
        if Banner(msg) {
          return [LogLine(ts, Info, None, Lifecycle, BannerText(msg), None)];
        }
        var tag := StripTag(msg);
        if tag.Some? {
          var (ext, rest) := tag.value;
          lastExt := Some(ext);
          return [LogLine(ts, level, Some(ext), Console, rest, None)];
        }
        if ExceptionMessage(msg) {
          inException := true;
          excEmitted := false;
          excMessage := if StartsWith(msg, "Error:") then Some(msg) else None;
          return [LogLine(ts, Error, lastExt, HostOutput, msg, None)];
        }
        var ext := ExtractTag(raw);
        return [LogLine(ts, level, ext, if ext.Some? then Console else HostOutput, msg, None)];
      }
      out := [];
      if inException {
        var trimmed := Trim(raw);
        if excMessage.None? && StartsWith(trimmed, "Error:") {
          excMessage := Some(trimmed);
        }
        if !excEmitted {
          var frame := ParseFrame(raw);
          if frame.Some? {
            out := [FailureLine(Parser(inException, lastExt, excMessage, excEmitted), frame.value, now, mapper)];
            excEmitted := true;
          }
        }
      }
    }
  }

  // --- any stream of lines ---------------------------------------------------------------------

  /** The parser after a stream, and what each line made it emit; the clock and the
      registered source maps may change from line to line. */
  function Run(lines: seq<string>, clock: nat -> nat, maps: nat -> Mapper): (Parser, seq<seq<LogLine>>) {
    if lines == [] then (FRESH, [])
    else
      var (p, outs) := Run(lines[..|lines| - 1], clock, maps);
      var (q, out) := Fed(p, lines[|lines| - 1], clock(|lines| - 1), maps(|lines| - 1));
      (q, outs + [out])
  }

  /** A framed activation failure. */
  predicate ActivateFailed(l: LogLine) { l.kind == Lifecycle && l.level == Error }

  function CountFailed(outs: seq<seq<LogLine>>): nat {
    if outs == [] then 0
    else
      var last := outs[|outs| - 1];
      CountFailed(outs[..|outs| - 1]) + (if exists l | l in last :: ActivateFailed(l) then 1 else 0)
  }

  /** A header opens an exception block. */
  predicate Header(line: string) {
    Timestamped(line) &&
    (var msg := MessageOf(line); !Banner(msg) && StripTag(msg).None? && ExceptionMessage(msg))
  }

  predicate HasFrame(line: string) { ParseFrame(line).Some? }

  /** Line `j` belongs to the block that line `i` opens. */
  predicate InBlock(lines: seq<string>, i: nat, j: nat) {
    i < j < |lines| && Header(lines[i]) && forall k | i < k <= j :: !Timestamped(lines[k])
  }

  ghost predicate FailedBlock(lines: seq<string>, i: nat) {
    exists j: nat :: InBlock(lines, i, j) && HasFrame(lines[j])
  }

  ghost function FailedBlocks(lines: seq<string>): set<nat> {
    set i: nat | i < |lines| && FailedBlock(lines, i)
  }

  /** The block that is still open at the end of the stream. */
  function OpenBlock(lines: seq<string>): (r: Option<nat>)
    ensures r.Some? ==> r.value < |lines|
  {
    if lines == [] then None
    else
      var n := |lines| - 1;
      if Timestamped(lines[n]) then (if Header(lines[n]) then Some(n) else None)
      else OpenBlock(lines[..n])
  }

  lemma {:induction false} OpenBlockIsOpen(lines: seq<string>)
    ensures var r := OpenBlock(lines);
            r.Some? ==> r.value < |lines| && Header(lines[r.value])
                        && forall k | r.value < k < |lines| :: !Timestamped(lines[k])
  {
    hide Header, Timestamped;
    if lines != [] { OpenBlockIsOpen(lines[..|lines| - 1]); }
  }

  lemma TimestampIgnoresNow(line: string, now: nat)
    ensures ParseEntry(line, now).Some? <==> Timestamped(line)
    ensures Timestamped(line) ==> ParseEntry(line, now).value.2 == MessageOf(line)
  {
    hide Calendar.ParseTimestamp, SplitOnce;
  }

  /** One timestamped line yields exactly one output, a continuation at most one; and how
      the open block and the emitted flag move. */
  lemma FedFacts(p: Parser, line: string, now: nat, mapper: Mapper)
    ensures var (q, out) := Fed(p, line, now, mapper);
            if Timestamped(line) then
              |out| == 1 && !ActivateFailed(out[0]) && q.inException == Header(line) && (Header(line) ==> !q.excEmitted)
            else if p.inException && !p.excEmitted && HasFrame(line) then
              |out| == 1 && ActivateFailed(out[0]) && StartsWith(out[0].text, "activate() failed: ")
              && q.inException && q.excEmitted
            else
              out == [] && q.inException == p.inException && q.excEmitted == p.excEmitted
  {
    hide ParseEntry, StripTag, ExtractTag, Banner, ExceptionMessage, ParseFrame, Trim, SlugOf, Decimal;
    TimestampIgnoresNow(line, now);
  }

  lemma OpenBlockIsTheOnlyOpen(lines: seq<string>, i: nat)
    requires i < |lines| && Header(lines[i]) && forall k | i < k < |lines| :: !Timestamped(lines[k])
    ensures OpenBlock(lines) == Some(i)
  {
    hide Header, Timestamped;
    var n := |lines| - 1;
    HeaderIsTimestamped(lines[i]);
    if i < n {
      OpenBlockIsTheOnlyOpen(lines[..n], i);
    }
  }

  lemma HeaderIsTimestamped(line: string)
    ensures Header(line) ==> Timestamped(line)
  {
  }

  lemma FrontBlockStays(lines: seq<string>, i: nat)
    requires lines != []
    ensures FailedBlock(lines[..|lines| - 1], i) ==> FailedBlock(lines, i)
  {
    hide Header, Timestamped, HasFrame;
    var front := lines[..|lines| - 1];
    if FailedBlock(front, i) {
      var j: nat :| InBlock(front, i, j) && HasFrame(front[j]);
      assert forall k | 0 <= k < |front| :: front[k] == lines[k];
      assert InBlock(lines, i, j) && HasFrame(lines[j]);
    }
  }

  lemma NewBlockIsOpen(lines: seq<string>, i: nat)
    requires lines != []
    ensures var n := |lines| - 1;
            FailedBlock(lines, i) && !FailedBlock(lines[..n], i)
            ==> !Timestamped(lines[n]) && OpenBlock(lines[..n]) == Some(i) && HasFrame(lines[n])
  {
    hide Header, Timestamped, HasFrame;
    var n := |lines| - 1;
    var front := lines[..n];
    if FailedBlock(lines, i) && !FailedBlock(front, i) {
      assert forall k | 0 <= k < |front| :: front[k] == lines[k];
      var j: nat :| InBlock(lines, i, j) && HasFrame(lines[j]);
      assert j < n ==> InBlock(front, i, j);
      OpenBlockIsTheOnlyOpen(front, i);
    }
  }

  lemma OpenBlockFails(lines: seq<string>)
    requires lines != []
    ensures var n := |lines| - 1; var open := OpenBlock(lines[..n]);
            !Timestamped(lines[n]) && open.Some? && HasFrame(lines[n]) ==> FailedBlock(lines, open.value)
  {
    hide Header, Timestamped, HasFrame;
    var n := |lines| - 1;
    OpenBlockIsOpen(lines[..n]);
    if !Timestamped(lines[n]) && OpenBlock(lines[..n]).Some? && HasFrame(lines[n]) {
      assert forall k | 0 <= k < n :: lines[..n][k] == lines[k];
      assert InBlock(lines, OpenBlock(lines[..n]).value, n);
    }
  }

  lemma FailedBlockFits(lines: seq<string>, i: nat)
    ensures FailedBlock(lines, i) ==> i < |lines|
  {
  }

  /** How the failed blocks grow with one more line. */
  lemma FailedBlocksGrow(lines: seq<string>)
    requires lines != []
    ensures var n := |lines| - 1;
            var front, open := lines[..n], OpenBlock(lines[..n]);
            FailedBlocks(lines) == if !Timestamped(lines[n]) && open.Some? && HasFrame(lines[n])
                                   then FailedBlocks(front) + {open.value} else FailedBlocks(front)
  {
    hide Header, Timestamped, HasFrame, FailedBlock, OpenBlock;
    var n := |lines| - 1;
    var front := lines[..n];
    forall i: nat | FailedBlock(front, i) ensures FailedBlock(lines, i) && i < n {
      FrontBlockStays(lines, i);
      FailedBlockFits(front, i);
    }
    forall i: nat | FailedBlock(lines, i) && !FailedBlock(front, i)
      ensures !Timestamped(lines[n]) && OpenBlock(front) == Some(i) && HasFrame(lines[n])
    {
      NewBlockIsOpen(lines, i);
    }
    OpenBlockFails(lines);
  }

  lemma {:induction false} RunFollowsBlocks(lines: seq<string>, clock: nat -> nat, maps: nat -> Mapper)
    ensures var (p, outs) := Run(lines, clock, maps);
            && |outs| == |lines|
            && p.inException == OpenBlock(lines).Some?
            && (p.inException ==> (p.excEmitted <==> OpenBlock(lines).value in FailedBlocks(lines)))
            && CountFailed(outs) == |FailedBlocks(lines)|
  {
    hide Fed, Header, Timestamped, HasFrame, ActivateFailed, FailedBlock;
    if lines == [] {
      assert FailedBlocks(lines) == {};
    } else {
      var n := |lines| - 1;
      var front, last := lines[..n], lines[n];
      var (p, outs) := Run(front, clock, maps);
      var (q, out) := Fed(p, last, clock(n), maps(n));
      RunFollowsBlocks(front, clock, maps);
      FedFacts(p, last, clock(n), maps(n));
      FailedBlocksGrow(lines);
      HeaderIsTimestamped(last);
      assert (outs + [out])[..n] == outs;
      assert (exists l | l in out :: ActivateFailed(l)) <==> |out| == 1 && ActivateFailed(out[0]) by {
        if |out| == 1 { assert out[0] in out; }
      }
      assert n !in FailedBlocks(lines) by { assert n !in FailedBlocks(front); OpenBlockIsOpen(front); }
      var open := OpenBlock(front);
      if open.Some? && open.value in FailedBlocks(front) {
        assert FailedBlocks(front) + {open.value} == FailedBlocks(front);
      }
    }
  }

  /** Over any stream of lines there are as many activation failures as exception blocks
      that contain a frame of a deployed bundle; each timestamped line yields exactly one
      output and each continuation at most one. */
  lemma FailuresMatchBlocks(lines: seq<string>, clock: nat -> nat, maps: nat -> Mapper)
    ensures var outs := Run(lines, clock, maps).1;
            && CountFailed(outs) == |FailedBlocks(lines)|
            && |outs| == |lines|
            && forall i | 0 <= i < |lines| :: if Timestamped(lines[i]) then |outs[i]| == 1 else |outs[i]| <= 1
    decreases |lines|
  {
    hide Fed, Header, Timestamped, HasFrame, ActivateFailed, FailedBlocks, CountFailed;
    RunFollowsBlocks(lines, clock, maps);
    if lines != [] {
      var n := |lines| - 1;
      FailuresMatchBlocks(lines[..n], clock, maps);
      FedFacts(Run(lines[..n], clock, maps).0, lines[n], clock(n), maps(n));
    }
  }
}
