/** The log fan-out: a bounded replay ring, one file per extension, the shared file, and
    the live subscribers. */
module LogSink {
  import opened Text
  import opened LogLines

  const HISTORY_CAP := 2000
  const SHARED := "_session"

  /** Files are keyed by their directory under the log root; a subscriber is keyed by the
      order in which it joined. */
  datatype Sink = Sink(history: seq<LogLine>, disk: map<string, string>, subscribers: map<nat, seq<LogLine>>)

  const EMPTY := Sink([], map[], map[])

  function Content(disk: map<string, string>, dir: string): string { if dir in disk then disk[dir] else "" }

  function Appended(disk: map<string, string>, dir: string, record: string): map<string, string> {
    disk[dir := Content(disk, dir) + record + "\n"]
  }

  /** Where files are: the directory that each tag names under the log root, in which
      different tags may meet, and whether the shared file could be opened at the start. */
  datatype Files = Files(dirOf: string -> string, shared: bool)

  /** The line belongs to the extension file in this directory. */
  predicate GoesTo(l: LogLine, files: Files, dir: string) { l.ext.Some? && files.dirOf(l.ext.value) == dir }

  /** Persist a line: to its own file when it is attributed and that file `opens` this time,
      and always to the shared file when that one is open. */
  function Written(disk: map<string, string>, l: LogLine, opens: bool, files: Files): map<string, string> {
    var own := if l.ext.Some? && opens then Appended(disk, files.dirOf(l.ext.value), ToRecord(l)) else disk;
    if files.shared then Appended(own, SHARED, ToRecord(l)) else own
  }

  function Pushed(s: Sink, l: LogLine, opens: bool, files: Files, gone: set<nat>): Sink {
    var kept := if |s.history| >= HISTORY_CAP then s.history[1..] else s.history;
    Sink(kept + [l], Written(s.disk, l, opens, files),
         map k | k in s.subscribers && k !in gone :: s.subscribers[k] + [l])
  }

  class SinkState {
    var history: seq<LogLine>
    var disk: map<string, string>
    var subscribers: map<nat, seq<LogLine>>
    var joined: nat
    const files: Files

    ghost function Snapshot(): Sink reads this { Sink(history, disk, subscribers) }

    constructor (files: Files)
      ensures Snapshot() == EMPTY && joined == 0 && this.files == files
    {
      history, disk, subscribers, joined := [], map[], map[], 0;
      this.files := files;
    }

    method Subscribe() returns (id: nat)
      modifies this
      ensures id == old(joined) && joined == id + 1
      ensures Snapshot() == old(Snapshot()).(subscribers := old(subscribers)[id := []])
    {
      id := joined;
      subscribers := subscribers[id := []];
      joined := joined + 1;
    }

    method WriteLine(l: LogLine, opens: bool)
      modifies this`disk
      ensures disk == Written(old(disk), l, opens, files)
    {
      var record := ToRecord(l);
      if l.ext.Some? {
        if opens {
          disk := Appended(disk, files.dirOf(l.ext.value), record);
        }
      }
      if files.shared {
        disk := Appended(disk, SHARED, record);
      }
    }

    /** `gone` are the subscribers whose receiver has been dropped. */
    method Push(l: LogLine, opens: bool, gone: set<nat>)
      modifies this
      ensures Snapshot() == Pushed(old(Snapshot()), l, opens, files, gone) && joined == old(joined)
    {
      WriteLine(l, opens);
      if |history| >= HISTORY_CAP {
        history := history[1..];
      }
      history := history + [l];
      var waiting := subscribers.Keys;
      var kept: map<nat, seq<LogLine>> := map[];
      while waiting != {}
        invariant waiting <= subscribers.Keys
        invariant kept == map k | k in subscribers && k !in waiting && k !in gone :: subscribers[k] + [l]
        decreases waiting
      {
        var k :| k in waiting;
        if k !in gone {
          kept := kept[k := subscribers[k] + [l]];
        }
        waiting := waiting - {k};
      }
      subscribers := kept;
    }
  }

  // --- any sequence of pushes and subscriptions ----------------------------------------------

  datatype Event = PushLine(line: LogLine, opens: bool) | Join | Leave(id: nat)

  datatype World = World(sink: Sink, joined: nat, gone: set<nat>)

  function Step(w: World, e: Event, files: Files): World {
    match e
    case PushLine(l, opens) => w.(sink := Pushed(w.sink, l, opens, files, w.gone))
    case Join => w.(sink := w.sink.(subscribers := w.sink.subscribers[w.joined := []]), joined := w.joined + 1)
    case Leave(id) => w.(gone := w.gone + {id})
  }

  function Run(events: seq<Event>, files: Files): World {
    if events == [] then World(EMPTY, 0, {})
    else Step(Run(events[..|events| - 1], files), events[|events| - 1], files)
  }

  /** The lines pushed, in order. */
  function Lines(events: seq<Event>): seq<LogLine> {
    if events == [] then []
    else
      var last := events[|events| - 1];
      Lines(events[..|events| - 1]) + (if last.PushLine? then [last.line] else [])
  }

  function Joins(events: seq<Event>): nat {
    if events == [] then 0
    else Joins(events[..|events| - 1]) + (if events[|events| - 1].Join? then 1 else 0)
  }

  /** The lines pushed after subscriber `id` joined. */
  function LinesSince(events: seq<Event>, id: nat): seq<LogLine> {
    if events == [] || Joins(events) <= id then []
    else
      var last := events[|events| - 1];
      LinesSince(events[..|events| - 1], id) + (if last.PushLine? then [last.line] else [])
  }

  function LastOf(lines: seq<LogLine>, n: nat): seq<LogLine> {
    if |lines| <= n then lines else lines[|lines| - n..]
  }

  function Tagged(lines: seq<LogLine>, tag: string): seq<LogLine> {
    if lines == [] then []
    else
      var last := lines[|lines| - 1];
      Tagged(lines[..|lines| - 1], tag) + (if last.ext == Some(tag) then [last] else [])
  }

  lemma LinesGrow(events: seq<Event>)
    requires events != []
    ensures var last := events[|events| - 1];
            Lines(events) == if last.PushLine? then Lines(events[..|events| - 1]) + [last.line]
                             else Lines(events[..|events| - 1])
  {
  }

  /** The replay ring is the last 2000 lines, whatever could not be written. */
  lemma {:induction false} HistoryIsLastLines(events: seq<Event>, files: Files)
    ensures Run(events, files).sink.history == LastOf(Lines(events), 2000)
  {
    if events != [] {
      HistoryIsLastLines(events[..|events| - 1], files);
      LinesGrow(events);
    }
  }

  /** Each subscriber that is still there got exactly the lines since it joined. */
  lemma {:induction false} SubscribersGotTheirLines(events: seq<Event>, files: Files)
    ensures var w := Run(events, files);
            && w.joined == Joins(events)
            && (forall id | id in w.sink.subscribers :: id < w.joined)
            && forall id: nat | id < w.joined && id !in w.gone ::
                 id in w.sink.subscribers && w.sink.subscribers[id] == LinesSince(events, id)
  {
    if events != [] {
      var front := events[..|events| - 1];
      SubscribersGotTheirLines(front, files);
      JoinedLater(events);
    }
  }

  /** A push forgets exactly the subscribers that have gone. */
  lemma GoneAreForgotten(s: Sink, l: LogLine, opens: bool, files: Files, gone: set<nat>)
    ensures Pushed(s, l, opens, files, gone).subscribers.Keys == s.subscribers.Keys - gone
  {
  }

  lemma JoinedLater(events: seq<Event>)
    requires events != []
    ensures var front, last := events[..|events| - 1], events[|events| - 1];
            forall id: nat | id < Joins(events) ::
              LinesSince(events, id) == if id == Joins(front) then []
                                        else if last.PushLine? then LinesSince(front, id) + [last.line]
                                        else LinesSince(front, id)
  {
    var front, last := events[..|events| - 1], events[|events| - 1];
    forall id: nat | id < Joins(events)
      ensures LinesSince(events, id) == if id == Joins(front) then []
                                        else if last.PushLine? then LinesSince(front, id) + [last.line]
                                        else LinesSince(front, id)
    {
      if id == Joins(front) {
        assert LinesSince(front, id) == [];
      }
    }
  }

  // --- what the files hold -------------------------------------------------------------------

  /** The lines pushed whose own file could be opened, in order. */
  function Opened(events: seq<Event>): seq<LogLine> {
    if events == [] then []
    else
      var last := events[|events| - 1];
      Opened(events[..|events| - 1]) + (if last.PushLine? && last.opens then [last.line] else [])
  }

  /** The lines whose extension file is the one in `dir`. */
  function InDir(lines: seq<LogLine>, files: Files, dir: string): seq<LogLine> {
    if lines == [] then []
    else
      var last := lines[|lines| - 1];
      InDir(lines[..|lines| - 1], files, dir) + (if GoesTo(last, files, dir) then [last] else [])
  }

  /** A line whose own file opens and is the shared one is written there twice. */
  function Copies(l: LogLine, opens: bool, files: Files): seq<LogLine> {
    if opens && GoesTo(l, files, SHARED) then [l, l] else [l]
  }

  function Doubled(events: seq<Event>, files: Files): seq<LogLine> {
    if events == [] then []
    else
      var last := events[|events| - 1];
      Doubled(events[..|events| - 1], files) + (if last.PushLine? then Copies(last.line, last.opens, files) else [])
  }

  lemma {:induction false} PersistedOfSum(a: seq<LogLine>, b: seq<LogLine>)
    ensures Persisted(a + b) == Persisted(a) + Persisted(b)
  {
    hide ToRecord;
    if b == [] {
      assert a + b == a;
    } else {
      assert (a + b)[..|a + b| - 1] == a + b[..|b| - 1];
      PersistedOfSum(a, b[..|b| - 1]);
    }
  }

  lemma AppendedContent(disk: map<string, string>, dir: string, l: LogLine, other: string)
    ensures Content(Appended(disk, dir, ToRecord(l)), other)
         == Content(disk, other) + Persisted(if dir == other then [l] else [])
  {
    PersistedOne(l);
    assert Persisted([]) == "";
    hide ToRecord, Persisted;
  }

  lemma OwnContent(disk: map<string, string>, l: LogLine, opens: bool, files: Files, other: string)
    ensures Content(Written(disk, l, opens, files.(shared := false)), other)
         == Content(disk, other) + Persisted(if opens && GoesTo(l, files, other) then [l] else [])
  {
    assert Persisted([]) == "";
    hide ToRecord, Persisted, Content, Appended;
    if l.ext.Some? && opens {
      AppendedContent(disk, files.dirOf(l.ext.value), l, other);
    } else {
      assert Content(disk, other) + "" == Content(disk, other);
    }
  }

  lemma WrittenOwn(disk: map<string, string>, l: LogLine, opens: bool, files: Files, dir: string)
    requires dir != SHARED
    ensures Content(Written(disk, l, opens, files), dir)
         == Content(disk, dir) + Persisted(if opens && GoesTo(l, files, dir) then [l] else [])
  {
    var own := Written(disk, l, opens, files.(shared := false));
    assert Written(disk, l, opens, files) == if files.shared then Appended(own, SHARED, ToRecord(l)) else own;
    assert Persisted([]) == "";
    hide *;
    AppendedContent(own, SHARED, l, dir);
    OwnContent(disk, l, opens, files, dir);
    assert Content(own, dir) + "" == Content(own, dir);
  }

  lemma WrittenShared(disk: map<string, string>, l: LogLine, opens: bool, files: Files)
    requires files.shared
    ensures Content(Written(disk, l, opens, files), SHARED)
         == Content(disk, SHARED) + Persisted(Copies(l, opens, files))
  {
    var own := Written(disk, l, opens, files.(shared := false));
    var first := if opens && GoesTo(l, files, SHARED) then [l] else [];
    assert Written(disk, l, opens, files) == Appended(own, SHARED, ToRecord(l));
    assert Copies(l, opens, files) == first + [l];
    hide *;
    AppendedContent(own, SHARED, l, SHARED);
    OwnContent(disk, l, opens, files, SHARED);
    PersistedOfSum(first, [l]);
    Associate(Content(disk, SHARED), Persisted(first), Persisted([l]));
  }

  lemma Associate(a: string, b: string, c: string)
    ensures (a + b) + c == a + (b + c)
  {
  }

  lemma PersistedOne(l: LogLine)
    ensures Persisted([l]) == ToRecord(l) + "\n"
  {
    assert [l][..0] == [] && Persisted([]) == "";
  }

  /** Whatever the tags are and whichever files open: every file but the shared one holds the
      records of the lines that could be written there, of all tags that meet in its directory. */
  lemma {:induction false} OwnFilesHold(events: seq<Event>, files: Files, dir: string)
    requires dir != SHARED
    ensures Content(Run(events, files).sink.disk, dir) == Persisted(InDir(Opened(events), files, dir))
  {
    hide *;
    if events == [] {
      NothingWritten(files, dir);
    } else {
      var front, last := events[..|events| - 1], events[|events| - 1];
      OwnFilesHold(front, files, dir);
      RunGrows(events, files);
      EventGrows(events, files);
      if last.PushLine? {
        var written, goes := Opened(front), last.opens && GoesTo(last.line, files, dir);
        var more := if goes then [last.line] else [];
        WrittenOwn(Run(front, files).sink.disk, last.line, last.opens, files, dir);
        InDirGrows(written, last.line, files, dir);
        PersistedOfSum(InDir(written, files, dir), more);
        assert InDir(written, files, dir) + [] == InDir(written, files, dir);
      }
    }
  }

  lemma InDirGrows(front: seq<LogLine>, l: LogLine, files: Files, dir: string)
    ensures InDir(front + [l], files, dir)
         == if GoesTo(l, files, dir) then InDir(front, files, dir) + [l] else InDir(front, files, dir)
  {
    assert (front + [l])[..|front|] == front;
  }

  lemma RunGrows(events: seq<Event>, files: Files)
    requires events != []
    ensures var front, last := events[..|events| - 1], events[|events| - 1];
            Run(events, files).sink.disk
            == if last.PushLine? then Written(Run(front, files).sink.disk, last.line, last.opens, files)
               else Run(front, files).sink.disk
  {
    hide Written;
  }

  lemma NothingWritten(files: Files, dir: string)
    ensures Content(Run([], files).sink.disk, dir) == "" == Persisted(InDir(Opened([]), files, dir))
    ensures Persisted(Doubled([], files)) == ""
  {
  }

  /** And the shared file, when it could be opened, holds every record, and those whose own
      file it is twice. */
  lemma {:induction false} SharedFileHolds(events: seq<Event>, files: Files)
    requires files.shared
    ensures Content(Run(events, files).sink.disk, SHARED) == Persisted(Doubled(events, files))
  {
    hide *;
    if events == [] {
      NothingWritten(files, SHARED);
    } else {
      var front, last := events[..|events| - 1], events[|events| - 1];
      SharedFileHolds(front, files);
      RunGrows(events, files);
      EventGrows(events, files);
      if last.PushLine? {
        WrittenShared(Run(front, files).sink.disk, last.line, last.opens, files);
        PersistedOfSum(Doubled(front, files), Copies(last.line, last.opens, files));
      }
    }
  }

  /** No tag's directory is the shared one. */
  predicate NoneShared(lines: seq<LogLine>, files: Files) {
    forall i | 0 <= i < |lines| :: !GoesTo(lines[i], files, SHARED)
  }

  /** No other tag meets this one in its directory. */
  predicate Alone(lines: seq<LogLine>, files: Files, tag: string) {
    forall i | 0 <= i < |lines| :: GoesTo(lines[i], files, files.dirOf(tag)) ==> lines[i].ext == Some(tag)
  }

  lemma NoneSharedGrows(front: seq<LogLine>, l: LogLine, files: Files)
    ensures NoneShared(front + [l], files) <==> NoneShared(front, files) && !GoesTo(l, files, SHARED)
  {
    assert forall i | 0 <= i < |front| :: (front + [l])[i] == front[i];
    assert (front + [l])[|front|] == l;
  }

  lemma {:induction false} DoubledSize(events: seq<Event>, files: Files)
    ensures var twice, once := Doubled(events, files), Lines(events);
            if NoneShared(Opened(events), files) then twice == once
            else |twice| > |once| && |Persisted(twice)| > |Persisted(once)|
  {
    hide *;
    if events == [] {
      NothingDoubled(events, files);
    } else {
      var front, last := events[..|events| - 1], events[|events| - 1];
      DoubledSize(front, files);
      EventGrows(events, files);
      if last.PushLine? {
        NoneSharedGrows(Opened(front), last.line, files);
        CopiesSize(last.line, last.opens, files);
        PersistedOfSum(Lines(front), [last.line]);
        PersistedOfSum(Doubled(front, files), Copies(last.line, last.opens, files));
      }
    }
  }

  lemma NothingDoubled(events: seq<Event>, files: Files)
    requires events == []
    ensures Doubled(events, files) == Lines(events) && NoneShared(Opened(events), files)
  {
  }

  lemma EventGrows(events: seq<Event>, files: Files)
    requires events != []
    ensures var front, last := events[..|events| - 1], events[|events| - 1];
            if last.PushLine? then
              && Lines(events) == Lines(front) + [last.line]
              && Doubled(events, files) == Doubled(front, files) + Copies(last.line, last.opens, files)
              && Opened(events) == (if last.opens then Opened(front) + [last.line] else Opened(front))
            else
              Lines(events) == Lines(front) && Doubled(events, files) == Doubled(front, files)
              && Opened(events) == Opened(front)
  {
  }

  lemma CopiesSize(l: LogLine, opens: bool, files: Files)
    ensures if opens && GoesTo(l, files, SHARED)
            then |Copies(l, opens, files)| == 2 && |Persisted(Copies(l, opens, files))| > |Persisted([l])|
            else Copies(l, opens, files) == [l]
  {
    assert [l] + [l] == [l, l];
    PersistedOfSum([l], [l]);
    PersistedOne(l);
  }

  lemma AloneGrows(front: seq<LogLine>, l: LogLine, files: Files, tag: string)
    ensures Alone(front + [l], files, tag)
       <==> Alone(front, files, tag) && (GoesTo(l, files, files.dirOf(tag)) ==> l.ext == Some(tag))
  {
    assert forall i | 0 <= i < |front| :: (front + [l])[i] == front[i];
    assert (front + [l])[|front|] == l;
  }

  lemma FilteredGrow(front: seq<LogLine>, l: LogLine, files: Files, tag: string)
    ensures var dir, lines := files.dirOf(tag), front + [l];
            && Tagged(lines, tag) == (if l.ext == Some(tag) then Tagged(front, tag) + [l] else Tagged(front, tag))
            && InDir(lines, files, dir)
               == (if GoesTo(l, files, dir) then InDir(front, files, dir) + [l] else InDir(front, files, dir))
            && (l.ext == Some(tag) ==> GoesTo(l, files, dir))
  {
    assert (front + [l])[..|front|] == front;
  }

  /** A tag's own lines are among those of its directory, and all of them when it is alone. */
  lemma {:induction false} TaggedSize(lines: seq<LogLine>, files: Files, tag: string)
    ensures var mine, all := Tagged(lines, tag), InDir(lines, files, files.dirOf(tag));
            if Alone(lines, files, tag) then mine == all else |mine| < |all| && |Persisted(mine)| < |Persisted(all)|
  {
    hide *;
    if lines == [] {
      NothingTagged(files, tag);
    } else {
      var front, l := lines[..|lines| - 1], lines[|lines| - 1];
      assert lines == front + [l];
      TaggedSize(front, files, tag);
      AloneGrows(front, l, files, tag);
      FilteredGrow(front, l, files, tag);
      PersistedMore(Tagged(front, tag), l);
      PersistedMore(InDir(front, files, files.dirOf(tag)), l);
    }
  }

  lemma NothingTagged(files: Files, tag: string)
    ensures Tagged([], tag) == InDir([], files, files.dirOf(tag)) == [] && Alone([], files, tag)
  {
  }

  lemma PersistedMore(lines: seq<LogLine>, l: LogLine)
    ensures |Persisted(lines + [l])| == |Persisted(lines)| + |ToRecord(l)| + 1
  {
    PersistedOfSum(lines, [l]);
    PersistedOne(l);
  }

  /** In every run with the shared file open, it is the records of all lines, each once and in
      order, if and only if no line whose own file opened has a tag that names the shared
      directory. */
  lemma SharedFileExactly(events: seq<Event>, files: Files)
    requires files.shared
    ensures Content(Run(events, files).sink.disk, SHARED) == Persisted(Lines(events))
       <==> NoneShared(Opened(events), files)
  {
    SharedFileHolds(events, files);
    DoubledSize(events, files);
  }

  /** The tag "_session" names the shared directory: at whatever point of a run its line is
      pushed, the shared file grows by it twice. */
  lemma SharedTagIsWrittenTwice(events: seq<Event>, l: LogLine, files: Files)
    requires files.shared && files.dirOf("_session") == "_session" && l.ext == Some("_session")
    ensures Content(Run(events + [PushLine(l, true)], files).sink.disk, "_session")
         == Content(Run(events, files).sink.disk, "_session") + Persisted([l, l])
  {
    var all := events + [PushLine(l, true)];
    assert all[..|all| - 1] == events && Copies(l, true, files) == [l, l];
    assert Run(all, files).sink.disk == Written(Run(events, files).sink.disk, l, true, files);
    hide *;
    WrittenShared(Run(events, files).sink.disk, l, true, files);
  }

  /** In every run, a tag's file outside the shared directory is the records of its own lines
      that could be written, in order, if and only if no such line has another tag that names
      the same directory. */
  lemma OwnFileExactly(events: seq<Event>, files: Files, tag: string)
    requires files.dirOf(tag) != SHARED
    ensures Content(Run(events, files).sink.disk, files.dirOf(tag)) == Persisted(Tagged(Opened(events), tag))
       <==> Alone(Opened(events), files, tag)
  {
    OwnFilesHold(events, files, files.dirOf(tag));
    TaggedSize(Opened(events), files, tag);
  }

  /** The line's own file opens, if the line has this tag. */
  predicate OpensFor(e: Event, tag: string) { e.PushLine? && e.line.ext == Some(tag) ==> e.opens }

  predicate AllOpenFor(events: seq<Event>, tag: string) {
    forall i | 0 <= i < |events| :: OpensFor(events[i], tag)
  }

  lemma AllOpenForGrows(events: seq<Event>, tag: string)
    requires events != []
    ensures AllOpenFor(events, tag)
       <==> AllOpenFor(events[..|events| - 1], tag) && OpensFor(events[|events| - 1], tag)
  {
    hide OpensFor;
    var front := events[..|events| - 1];
    assert forall i | 0 <= i < |front| :: front[i] == events[i];
  }

  lemma NothingMissing(files: Files, tag: string)
    ensures Tagged(Opened([]), tag) == Tagged(Lines([]), tag) && AllOpenFor([], tag)
  {
  }

  /** Those are all lines of the tag exactly when its file opened for each of them. */
  lemma {:induction false} OwnLinesCompleteExactly(events: seq<Event>, files: Files, tag: string)
    ensures |Tagged(Opened(events), tag)| <= |Tagged(Lines(events), tag)|
    ensures Tagged(Opened(events), tag) == Tagged(Lines(events), tag) <==> AllOpenFor(events, tag)
  {
    assert forall e :: OpensFor(e, tag) <==> (e.PushLine? && e.line.ext == Some(tag) ==> e.opens);
    hide *;
    if events == [] {
      NothingMissing(files, tag);
    } else {
      var front, last := events[..|events| - 1], events[|events| - 1];
      OwnLinesCompleteExactly(front, files, tag);
      AllOpenForGrows(events, tag);
      EventGrows(events, files);
      if last.PushLine? {
        TaggedGrows(Lines(front), last.line, tag);
        TaggedGrows(Opened(front), last.line, tag);
        SameEndCancels(Tagged(Opened(front), tag), Tagged(Lines(front), tag), last.line);
      }
    }
  }

  lemma SameEndCancels(a: seq<LogLine>, b: seq<LogLine>, l: LogLine)
    ensures a + [l] == b + [l] <==> a == b
  {
    if a + [l] == b + [l] {
      assert |a| == |b| && a == (a + [l])[..|a|] == (b + [l])[..|b|] == b;
    }
  }

  lemma TaggedGrows(front: seq<LogLine>, l: LogLine, tag: string)
    ensures Tagged(front + [l], tag) == if l.ext == Some(tag) then Tagged(front, tag) + [l] else Tagged(front, tag)
  {
    assert (front + [l])[..|front|] == front;
  }

  lemma {:induction false} InDirAreThose(lines: seq<LogLine>, files: Files, dir: string)
    ensures forall l | l in InDir(lines, files, dir) :: l in lines
  {
    if lines != [] { InDirAreThose(lines[..|lines| - 1], files, dir); }
  }

  lemma {:induction false} WrittenAreThose(events: seq<Event>, files: Files)
    ensures forall l | l in Doubled(events, files) || l in Opened(events) :: l in Lines(events)
  {
    if events != [] { WrittenAreThose(events[..|events| - 1], files); }
  }

  predicate AllPersistable(lines: seq<LogLine>) { forall l | l in lines :: Persistable(l) }

  lemma ListedSize(lines: seq<LogLine>)
    requires AllPersistable(lines)
    ensures ReadSession(Persisted(lines)) == ByTime(StoredAll(lines)) && |ByTime(StoredAll(lines))| == |lines|
  {
    hide Persistable;
    ReadBackPersisted(lines);
    ByTimeFacts(StoredAll(lines));
  }

  /** When the tags can be stored, listing the shared file gives every line once, in the order
      of their times, if and only if no line whose own file opened names the shared directory. */
  lemma SharedReadBackExactly(events: seq<Event>, files: Files)
    requires files.shared && AllPersistable(Lines(events))
    ensures ReadSession(Content(Run(events, files).sink.disk, SHARED)) == ByTime(StoredAll(Lines(events)))
       <==> NoneShared(Opened(events), files)
  {
    WrittenAreThose(events, files);
    assert AllPersistable(Doubled(events, files));
    hide *;
    SharedFileHolds(events, files);
    DoubledSize(events, files);
    ListedSize(Lines(events));
    ListedSize(Doubled(events, files));
  }

  /** And listing a tag's file gives exactly its own lines that could be written, in the order of
      their times, if and only if no other tag of such a line names its directory. */
  lemma OwnReadBackExactly(events: seq<Event>, files: Files, tag: string)
    requires AllPersistable(Lines(events)) && files.dirOf(tag) != SHARED
    ensures var disk, written := Run(events, files).sink.disk, Opened(events);
            ReadSession(Content(disk, files.dirOf(tag))) == ByTime(StoredAll(Tagged(written, tag)))
            <==> Alone(written, files, tag)
  {
    var written, dir := Opened(events), files.dirOf(tag);
    WrittenAreThose(events, files);
    InDirAreThose(written, files, dir);
    TaggedAreThose(written, tag);
    assert AllPersistable(InDir(written, files, dir)) && AllPersistable(Tagged(written, tag));
    hide *;
    OwnFilesHold(events, files, dir);
    TaggedSize(written, files, tag);
    ListedSize(Tagged(written, tag));
    ListedSize(InDir(written, files, dir));
  }

  lemma {:induction false} TaggedAreThose(lines: seq<LogLine>, tag: string)
    ensures forall l | l in Tagged(lines, tag) :: l in lines
  {
    if lines != [] { TaggedAreThose(lines[..|lines| - 1], tag); }
  }
}
