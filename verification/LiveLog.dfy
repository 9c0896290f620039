/** From the tailed file to the log: what the parser emits is pushed into the sink, among the
    lines of other sources. */
module LiveLog {
  import opened Text
  import opened LogLines
  import ExtHost
  import LogSink
  import Tail

  /** Everything the parser has emitted, in order. */
  function Emitted(outs: seq<seq<LogLine>>): seq<LogLine> {
    if outs == [] then [] else Emitted(outs[..|outs| - 1]) + outs[|outs| - 1]
  }

  /** The activation failures among lines. */
  function Failures(lines: seq<LogLine>): nat {
    if lines == [] then 0
    else Failures(lines[..|lines| - 1]) + (if ExtHost.ActivateFailed(lines[|lines| - 1]) then 1 else 0)
  }

  /** The lines pushed by the tail (`tailed`), or by the others. */
  function PushedBy(lines: seq<LogLine>, fromTail: seq<bool>, tailed: bool): seq<LogLine>
    requires |lines| == |fromTail|
  {
    if lines == [] then []
    else
      var n := |lines| - 1;
      PushedBy(lines[..n], fromTail[..n], tailed) + (if fromTail[n] == tailed then [lines[n]] else [])
  }

  lemma FailuresGrow(lines: seq<LogLine>, l: LogLine)
    ensures Failures(lines + [l]) == Failures(lines) + if ExtHost.ActivateFailed(l) then 1 else 0
  {
    assert (lines + [l])[..|lines|] == lines;
  }

  lemma {:induction false} FailuresOfBoth(lines: seq<LogLine>, fromTail: seq<bool>)
    requires |lines| == |fromTail|
    ensures Failures(lines) == Failures(PushedBy(lines, fromTail, true)) + Failures(PushedBy(lines, fromTail, false))
  {
    hide ExtHost.ActivateFailed;
    if lines != [] {
      var n := |lines| - 1;
      var mine, others := PushedBy(lines[..n], fromTail[..n], true), PushedBy(lines[..n], fromTail[..n], false);
      FailuresOfBoth(lines[..n], fromTail[..n]);
      assert mine + [] == mine && others + [] == others;
      FailuresGrow(mine, lines[n]);
      FailuresGrow(others, lines[n]);
    }
  }

  lemma {:induction false} EmittedFailures(outs: seq<seq<LogLine>>)
    requires forall i | 0 <= i < |outs| :: |outs[i]| <= 1
    ensures Failures(Emitted(outs)) == ExtHost.CountFailed(outs)
  {
    hide ExtHost.ActivateFailed;
    if outs != [] {
      var front, last := outs[..|outs| - 1], outs[|outs| - 1];
      EmittedFailures(front);
      if last == [] {
        assert Emitted(front) + last == Emitted(front);
      } else {
        assert last == [last[0]];
        FailuresGrow(Emitted(front), last[0]);
        assert (exists l | l in last :: ExtHost.ActivateFailed(l)) <==> ExtHost.ActivateFailed(last[0]);
      }
    }
  }

  lemma {:induction false} StoredFailures(lines: seq<LogLine>)
    ensures Failures(StoredAll(lines)) == Failures(lines)
  {
    if lines != [] {
      var front, last := lines[..|lines| - 1], lines[|lines| - 1];
      assert lines == front + [last] && ExtHost.ActivateFailed(Stored(last)) == ExtHost.ActivateFailed(last);
      hide ExtHost.ActivateFailed, StoredAll, Stored;
      StoredFailures(front);
      Tail.StoredOfSum(front, last);
      FailuresGrow(StoredAll(front), Stored(last));
    }
  }

  /** End to end: let the tail of a file that only grows run to a poll, and let the sink have been
      pushed what the parser emitted, in order, among any lines of other sources, subscribers and
      files that fail to open. Then the shared file, read back, holds as many activation failures
      as the tailed part of the file has exception blocks with a frame, beside those that the
      others pushed; as long as tags can be stored and none that opened names the shared directory. */
  lemma LoggedFailuresMatchBlocks(content: string, start: nat, events: seq<Tail.Event>, lines: seq<string>,
                                  texts: seq<string>, clock: nat -> nat, maps: nat -> ExtHost.Mapper,
                                  pushes: seq<LogSink.Event>, fromTail: seq<bool>, files: LogSink.Files)
    requires start <= |content| && Tail.LinesOf(lines, texts)
    requires var w := Tail.Run(Tail.World(content, Tail.State(start, [])), events + [Tail.Poll]);
             start <= |w.content| && Tail.TerminatedLines(w.content[start..], lines)
    requires |fromTail| == |LogSink.Lines(pushes)|
    requires var begin := Tail.Parsing(Tail.World(content, Tail.State(start, [])), ExtHost.FRESH, []);
             PushedBy(LogSink.Lines(pushes), fromTail, true)
             == Emitted(Tail.ParsingRun(begin, events + [Tail.Poll], clock, maps).outs)
    requires files.shared && LogSink.AllPersistable(LogSink.Lines(pushes))
    requires LogSink.NoneShared(LogSink.Opened(pushes), files)
    ensures Failures(ReadBack(LogSink.Content(LogSink.Run(pushes, files).sink.disk, LogSink.SHARED)))
         == |ExtHost.FailedBlocks(texts)|
            + Failures(PushedBy(LogSink.Lines(pushes), fromTail, false))
  {
    var all := LogSink.Lines(pushes);
    assert forall i | 0 <= i < |all| :: all[i] in all;
    assert forall i | 0 <= i < |all| :: Persistable(all[i]);
    hide *;
    Tail.TailedFailuresMatchBlocks(content, start, events, lines, texts, clock, maps);
    Tail.TailedOutsAreShort(content, start, events, clock, maps);
    var begin := Tail.Parsing(Tail.World(content, Tail.State(start, [])), ExtHost.FRESH, []);
    EmittedFailures(Tail.ParsingRun(begin, events + [Tail.Poll], clock, maps).outs);
    LogSink.SharedFileExactly(pushes, files);
    ReadBackPersisted(all);
    StoredFailures(all);
    FailuresOfBoth(all, fromTail);
  }
}
