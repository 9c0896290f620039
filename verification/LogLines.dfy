/** One normalized log line, and the tab-delimited record that persists it. */
module LogLines {
  import opened Text

  datatype Level = Info | Warn | Error
  datatype Kind = Lifecycle | Console | HostOutput
  datatype SourceLoc = SourceLoc(file: string, line: nat, col: nat)

  datatype LogLine = LogLine(ts: nat, level: Level, ext: Option<string>, kind: Kind, text: string,
                             mapped: Option<SourceLoc>)

  const U64_MAX := 0xFFFF_FFFF_FFFF_FFFF

  // --- the words -----------------------------------------------------------------------

  /** Unicode white space, as `trim` knows it. */
  predicate Space(c: char) {
    '\t' <= c <= '\r' || c in " \U{85}\U{A0}\U{1680}\U{2028}\U{2029}\U{202F}\U{205F}\U{3000}"
    || '\U{2000}' <= c <= '\U{200A}'
  }

  function TrimStart(s: string): string {
    if s != [] && Space(s[0]) then TrimStart(s[1..]) else s
  }

  function TrimEnd(s: string): string {
    if s != [] && Space(s[|s| - 1]) then TrimEnd(s[..|s| - 1]) else s
  }

  function Trim(s: string): string { TrimEnd(TrimStart(s)) }

  function Lower(s: string): (r: string)
    ensures |r| == |s|
  {
    seq(|s|, i requires 0 <= i < |s| =>
      if 'A' <= s[i] <= 'Z' then (s[i] as int - 'A' as int + 'a' as int) as char else s[i])
  }

  function LevelWord(level: Level): string {
    match level case Info => "info" case Warn => "warn" case Error => "error"
  }

  function KindWord(kind: Kind): string {
    match kind case Lifecycle => "lifecycle" case Console => "console" case HostOutput => "host"
  }

  function ParseLevel(s: string): Level {
    var w := Lower(Trim(s));
    if w == "error" || w == "err" then Error
    else if w == "warn" || w == "warning" then Warn
    else Info
  }

  function ParseKind(s: string): Kind {
    var w := Trim(s);
    if w == "lifecycle" then Lifecycle else if w == "console" then Console else HostOutput
  }

  predicate Blank(s: string) { forall i | 0 <= i < |s| :: Space(s[i]) }

  lemma {:induction false} TrimStartBlank(blanks: string, s: string)
    requires Blank(blanks) && (s == "" || !Space(s[0]))
    ensures TrimStart(blanks + s) == s
  {
    if blanks == "" {
      assert blanks + s == s;
    } else {
      assert (blanks + s)[1..] == blanks[1..] + s && (blanks + s)[0] == blanks[0];
      TrimStartBlank(blanks[1..], s);
    }
  }

  lemma {:induction false} TrimEndBlank(s: string, blanks: string)
    requires Blank(blanks) && (s == "" || !Space(s[|s| - 1]))
    ensures TrimEnd(s + blanks) == s
  {
    if blanks == "" {
      assert s + blanks == s;
    } else {
      assert (s + blanks)[..|s + blanks| - 1] == s + blanks[..|blanks| - 1];
      TrimEndBlank(s, blanks[..|blanks| - 1]);
    }
  }

  /** Trimming takes the white space off both ends, and nothing else. */
  lemma TrimExactly(a: string, s: string, b: string)
    requires Blank(a) && Blank(b) && (s == "" || (!Space(s[0]) && !Space(s[|s| - 1])))
    ensures s != "" ==> Trim(a + s + b) == s
  {
    if s != "" {
      assert a + s + b == a + (s + b);
      TrimStartBlank(a, s + b);
      TrimEndBlank(s, b);
    }
  }

  /** The level words in any case and any white space around them; everything else is Info. */
  lemma LevelsAreRead(a: string, word: string, b: string)
    requires Blank(a) && Blank(b) && word != "" && !Space(word[0]) && !Space(word[|word| - 1])
    ensures Lower(word) in {"error", "err"} ==> ParseLevel(a + word + b) == Error
    ensures Lower(word) in {"warn", "warning"} ==> ParseLevel(a + word + b) == Warn
    ensures Lower(word) !in {"error", "err", "warn", "warning"} ==> ParseLevel(a + word + b) == Info
    ensures word == "lifecycle" ==> ParseKind(a + word + b) == Lifecycle
    ensures word == "console" ==> ParseKind(a + word + b) == Console
    ensures word !in {"lifecycle", "console"} ==> ParseKind(a + word + b) == HostOutput
  {
    TrimExactly(a, word, b);
    hide Lower, Trim;
  }

  /** Only the letters A to Z change. */
  lemma LowerExactly(s: string)
    ensures forall i | 0 <= i < |s| ::
              Lower(s)[i] == if 'A' <= s[i] <= 'Z' then (s[i] as int + 32) as char else s[i]
  {
  }

  // --- the record ------------------------------------------------------------------------

  /** Tabs and line breaks become spaces, so that a line stays one record. */
  function FlatText(s: string): (r: string)
    ensures |r| == |s| && forall i | 0 <= i < |r| :: r[i] !in "\t\n\r"
  {
    seq(|s|, i requires 0 <= i < |s| => if s[i] in "\t\n\r" then ' ' else s[i])
  }

  function ExtSlot(ext: Option<string>): string { if ext.None? then "-" else ext.value }

  function Head(l: LogLine): string {
    Decimal(l.ts) + "\t" + LevelWord(l.level) + "\t" + KindWord(l.kind) + "\t"
  }

  function ToRecord(l: LogLine): string {
    Head(l) + (ExtSlot(l.ext) + "\t" + FlatText(l.text))
  }

  /** `s.splitn(n, sep)` collected. */
  function SplitN(s: string, sep: char, n: nat): seq<string>
    decreases n
  {
    if n == 0 then []
    else if n == 1 then [s]
    else match SplitOnce(s, [sep])
      case None => [s]
      case Some((head, rest)) => [head] + SplitN(rest, sep, n - 1)
  }

  function FromRecord(line: string): Option<LogLine> {
    var parts := SplitN(line, '\t', 5);
    if |parts| < 4 || ParseNat(parts[0], U64_MAX).None? then None
    else
      var ext := if parts[3] == "-" then None else Some(parts[3]);
      var text := if |parts| > 4 then parts[4] else "";
      Some(LogLine(ParseNat(parts[0], U64_MAX).value, ParseLevel(parts[1]), ext, ParseKind(parts[2]), text, None))
  }

  // --- what comes back ----------------------------------------------------------------------

  /** What a record can hold of a line. */
  function Stored(l: LogLine): LogLine { l.(text := FlatText(l.text), mapped := None) }

  /** The tags a record can hold. */
  predicate PlainTag(ext: Option<string>) { ext.Some? ==> ext.value != "-" && '\t' !in ext.value }

  lemma LevelComesBack(level: Level)
    ensures ParseLevel(LevelWord(level)) == level && '\t' !in LevelWord(level) && '\n' !in LevelWord(level)
  {
    var w := LevelWord(level);
    assert forall i | 0 <= i < |w| :: !Space(w[i]);
    assert Lower(w) == w;
    hide Space, Lower;
    assert Trim(w) == w;
  }

  lemma KindComesBack(kind: Kind)
    ensures ParseKind(KindWord(kind)) == kind && '\t' !in KindWord(kind) && '\n' !in KindWord(kind)
  {
    var w := KindWord(kind);
    assert forall i | 0 <= i < |w| :: !Space(w[i]);
    hide Space;
    assert Trim(w) == w;
  }

  lemma SplitStep(head: string, sep: char, rest: string, n: nat)
    requires sep !in head
    ensures SplitN(head + [sep] + rest, sep, n + 2) == [head] + SplitN(rest, sep, n + 1)
  {
    SplitOnceAt(head, sep, rest);
  }

  lemma SplitHead(a: string, b: string, c: string, rest: string)
    requires '\t' !in a && '\t' !in b && '\t' !in c
    ensures SplitN(a + "\t" + b + "\t" + c + "\t" + rest, '\t', 5) == [a, b, c] + SplitN(rest, '\t', 2)
  {
    hide SplitN;
    var r2 := c + "\t" + rest;
    var r1 := b + "\t" + r2;
    assert a + "\t" + b + "\t" + c + "\t" + rest == a + ['\t'] + r1;
    SplitStep(a, '\t', r1, 3);
    SplitStep(b, '\t', r2, 2);
    SplitStep(c, '\t', rest, 1);
  }

  function TagOf(slot: string): Option<string> { if slot == "-" then None else Some(slot) }

  /** What is read after the head of a record, whatever follows it. */
  lemma FromHead(l: LogLine, rest: string)
    requires l.ts <= U64_MAX
    ensures var parts := SplitN(rest, '\t', 2);
            && 0 < |parts| <= 2
            && FromRecord(Head(l) + rest)
               == Some(LogLine(l.ts, l.level, TagOf(parts[0]), l.kind, if |parts| > 1 then parts[1] else "", None))
  {
    assert 0 < |SplitN(rest, '\t', 2)| <= 2;
    hide SplitN, ParseNat, Decimal, ParseLevel, ParseKind, LevelWord, KindWord;
    LevelComesBack(l.level);
    KindComesBack(l.kind);
    NoTabInDecimal(l.ts);
    ParseOfDecimal(l.ts, U64_MAX);
    SplitHead(Decimal(l.ts), LevelWord(l.level), KindWord(l.kind), rest);
  }

  lemma NoTabInDecimal(n: nat)
    ensures '\t' !in Decimal(n) && '\n' !in Decimal(n)
  {
  }

  lemma TagAndText(tag: string, text: string)
    ensures var parts := SplitN(tag + "\t" + text, '\t', 2);
            |parts| == 2 && (if '\t' !in tag then parts == [tag, text] else parts[0] != tag)
  {
    var s := tag + "\t" + text;
    if '\t' !in tag {
      SplitOnceAt(tag, '\t', text);
      assert SplitN(text, '\t', 1) == [text];
    } else {
      var k :| 0 <= k < |tag| && tag[k] == '\t';
      assert OccursAt(s, "\t", k);
      var i := Find(s, "\t", 0).value;
      assert i <= k;
      assert SplitN(s[i + 1..], '\t', 1) == [s[i + 1..]];
    }
  }

  /** A line comes back from its record, with its text flattened and its mapped location
      dropped, exactly when its tag is not "-" and holds no tab. */
  lemma RecordRoundTrip(l: LogLine)
    requires l.ts <= U64_MAX
    ensures FromRecord(ToRecord(l)) == Some(Stored(l)) <==> PlainTag(l.ext)
  {
    hide SplitN, Head, FromRecord, FlatText;
    FromHead(l, ExtSlot(l.ext) + "\t" + FlatText(l.text));
    TagAndText(ExtSlot(l.ext), FlatText(l.text));
  }

  /** A record, word for word. */
  lemma RecordIs(l: LogLine, level: string, kind: string, slot: string)
    requires match l.level case Info => level == "info" case Warn => level == "warn" case Error => level == "error"
    requires match l.kind
             case Lifecycle => kind == "lifecycle"
             case Console => kind == "console"
             case HostOutput => kind == "host"
    requires slot == if l.ext.Some? then l.ext.value else "-"
    ensures ToRecord(l) == Decimal(l.ts) + "\t" + level + "\t" + kind + "\t" + (slot + "\t" + FlatText(l.text))
  {
    assert LevelWord(l.level) == level && KindWord(l.kind) == kind && ExtSlot(l.ext) == slot;
    hide Decimal, FlatText, LevelWord, KindWord, ExtSlot;
  }

  /** The text comes back character by character, a tab or line break as a space; so a text
      without them comes back as it is. */
  lemma TextComesBack(l: LogLine)
    requires l.ts <= U64_MAX && PlainTag(l.ext)
    ensures FromRecord(ToRecord(l)).Some?
    ensures var back := FromRecord(ToRecord(l)).value;
            && back.ts == l.ts && back.level == l.level && back.kind == l.kind && back.ext == l.ext
            && back.mapped == None
            && |back.text| == |l.text|
            && (forall i | 0 <= i < |l.text| ::
                  back.text[i] == if l.text[i] in ['\t', '\n', '\r'] then ' ' else l.text[i])
            && ((forall c | c in l.text :: c !in ['\t', '\n', '\r']) ==> back.text == l.text)
  {
    RecordRoundTrip(l);
    assert forall i | 0 <= i < |l.text| :: l.text[i] in l.text;
    hide ToRecord, FromRecord;
  }

  // --- a tailed record -------------------------------------------------------------------------

  /** What following a file makes of one line of it. */
  function FromTailed(line: string): Option<LogLine> { FromRecord(TrimEnd(line)) }

  predicate EndsPlain(s: string) { s != "" && !Space(s[|s| - 1]) }

  /** The record does not end in white space that matters. */
  predicate Followable(l: LogLine) {
    if l.text == "" then EndsPlain(ExtSlot(l.ext)) else EndsPlain(FlatText(l.text))
  }

  lemma {:induction false} TrimEndOfSum(s: string, t: string)
    ensures TrimEnd(s + t) == if Blank(t) then TrimEnd(s) else s + TrimEnd(t)
  {
    hide Space;
    if t == "" {
      assert s + t == s;
    } else if Space(t[|t| - 1]) {
      var front := t[..|t| - 1];
      assert (s + t)[..|s + t| - 1] == s + front;
      assert Blank(t) <==> Blank(front) by { assert t == front + [t[|t| - 1]]; }
      TrimEndOfSum(s, front);
    }
  }

  lemma {:induction false} TrimEndKeeps(s: string)
    ensures TrimEnd(s) == s <==> s == "" || EndsPlain(s)
    ensures |TrimEnd(s)| <= |s| && forall i | 0 <= i < |TrimEnd(s)| :: TrimEnd(s)[i] == s[i]
  {
    hide Space;
    if s != "" && Space(s[|s| - 1]) { TrimEndKeeps(s[..|s| - 1]); }
  }

  /** The head without its last tab. */
  lemma HeadTrims(l: LogLine)
    ensures TrimEnd(Head(l)) == Decimal(l.ts) + "\t" + LevelWord(l.level) + "\t" + KindWord(l.kind)
  {
    var w := Decimal(l.ts) + "\t" + LevelWord(l.level) + "\t" + KindWord(l.kind);
    assert w[|w| - 1] == KindWord(l.kind)[|KindWord(l.kind)| - 1];
    assert EndsPlain(w) && Blank("\t");
    assert Head(l) == w + "\t";
    hide *;
    TrimEndOfSum(w, "\t");
    TrimEndKeeps(w);
  }

  lemma HeadIsNoRecord(l: LogLine)
    ensures FromRecord(TrimEnd(Head(l))).None?
  {
    HeadTrims(l);
    LevelComesBack(l.level);
    KindComesBack(l.kind);
    NoTabInDecimal(l.ts);
    hide SplitN, LevelWord, KindWord, Decimal, TrimEnd, Head, ParseLevel, ParseKind, ParseNat;
    var r1 := LevelWord(l.level) + "\t" + KindWord(l.kind);
    assert Decimal(l.ts) + "\t" + LevelWord(l.level) + "\t" + KindWord(l.kind) == Decimal(l.ts) + ['\t'] + r1;
    SplitStep(Decimal(l.ts), '\t', r1, 3);
    SplitStep(LevelWord(l.level), '\t', KindWord(l.kind), 2);
    NoSplit(KindWord(l.kind), 3);
  }

  lemma NoSplit(s: string, n: nat)
    requires '\t' !in s && n > 0
    ensures SplitN(s, '\t', n) == [s]
  {
    forall i ensures !OccursAt(s, "\t", i) { OneCharOccurs(s, '\t', i); }
  }

  lemma FirstPartPlain(s: string)
    ensures |SplitN(s, '\t', 2)| >= 1 && '\t' !in SplitN(s, '\t', 2)[0]
  {
    forall i ensures OccursAt(s, "\t", i) <==> 0 <= i < |s| && s[i] == '\t' { OneCharOccurs(s, '\t', i); }
    hide OccursAt;
  }

  /** The parts of a trimmed record are those of the line. */
  predicate SameParts(l: LogLine, parts: seq<string>) {
    |parts| > 0 && TagOf(parts[0]) == l.ext && FlatText(l.text) == if |parts| > 1 then parts[1] else ""
  }

  lemma TagOnly(l: LogLine, slot: string)
    requires PlainTag(l.ext) && slot == ExtSlot(l.ext) && Blank(FlatText(l.text))
    requires FlatText(l.text) == "" ==> !Blank(slot)
    ensures SameParts(l, SplitN(TrimEnd(slot), '\t', 2)) <==> Followable(l)
  {
    hide FlatText, TrimEnd, Space, Blank, EndsPlain, SplitN;
    TrimEndKeeps(slot);
    BlankEnds(slot);
    BlankEnds(FlatText(l.text));
    NoSplit(TrimEnd(slot), 2);
  }

  lemma TagThenText(l: LogLine, slot: string)
    requires PlainTag(l.ext) && slot == ExtSlot(l.ext) && !Blank(FlatText(l.text))
    ensures SameParts(l, SplitN(slot + "\t" + TrimEnd(FlatText(l.text)), '\t', 2)) <==> Followable(l)
  {
    hide FlatText, TrimEnd, Space, Blank, EndsPlain, SplitN;
    TrimEndKeeps(FlatText(l.text));
    BlankEnds(FlatText(l.text));
    TagAndText(slot, TrimEnd(FlatText(l.text)));
  }

  lemma PartsExactly(l: LogLine, rest: string)
    requires var slot, text := ExtSlot(l.ext), FlatText(l.text);
             && (rest == if Blank(text) then TrimEnd(slot) else slot + "\t" + TrimEnd(text))
             && !(Blank(slot) && Blank(text))
    ensures SameParts(l, SplitN(rest, '\t', 2)) <==> PlainTag(l.ext) && Followable(l)
  {
    hide FlatText, TrimEnd, Space, Blank, EndsPlain, SplitN, Followable;
    FirstPartPlain(rest);
    if PlainTag(l.ext) {
      BlankEnds(FlatText(l.text));
      if Blank(FlatText(l.text)) { TagOnly(l, ExtSlot(l.ext)); } else { TagThenText(l, ExtSlot(l.ext)); }
    }
  }

  /** A followed record gives its line back exactly when the record alone would and the text,
      or without text the tag, does not end in white space. */
  lemma TailedRoundTrip(l: LogLine)
    requires l.ts <= U64_MAX
    ensures FromTailed(ToRecord(l) + "\n") == Some(Stored(l)) <==> PlainTag(l.ext) && Followable(l)
  {
    var slot, text := ExtSlot(l.ext), FlatText(l.text);
    var rest := slot + "\t" + text + "\n";
    assert ToRecord(l) + "\n" == Head(l) + rest;
    hide Head, FromRecord, TrimEnd, FlatText, Space, Blank, EndsPlain, SplitN;
    TrimEndOfSum(Head(l), rest);
    RestTrims(slot, text);
    if Blank(rest) {
      HeadIsNoRecord(l);
      BlankEnds(slot);
      BlankEnds(text);
    } else {
      FromHead(l, TrimEnd(rest));
      PartsExactly(l, TrimEnd(rest));
    }
  }

  lemma BlankEnds(s: string)
    ensures Blank(s) ==> !EndsPlain(s)
    ensures s == "" ==> Blank(s)
  {
  }

  lemma RestTrims(slot: string, text: string)
    ensures var rest := slot + "\t" + text + "\n";
            && TrimEnd(rest) == (if Blank(text) then TrimEnd(slot) else slot + "\t" + TrimEnd(text))
            && (Blank(rest) <==> Blank(slot) && Blank(text))
  {
    assert Blank("\n") && Blank("\t");
    BlankOfSum(slot, "\t");
    BlankOfSum(slot + "\t", text);
    BlankOfSum(slot + "\t" + text, "\n");
    hide *;
    TrimEndOfSum(slot + "\t" + text, "\n");
    TrimEndOfSum(slot + "\t", text);
    TrimEndOfSum(slot, "\t");
  }

  lemma BlankOfSum(a: string, b: string)
    ensures Blank(a + b) <==> Blank(a) && Blank(b)
  {
    hide Space;
    assert forall i | 0 <= i < |a| :: a[i] == (a + b)[i];
    assert forall i | 0 <= i < |b| :: b[i] == (a + b)[|a| + i];
  }

  // --- a whole file ----------------------------------------------------------------------------

  /** The text that appending each record and a newline leaves in a file. */
  function Persisted(lines: seq<LogLine>): string {
    if lines == [] then "" else Persisted(lines[..|lines| - 1]) + ToRecord(lines[|lines| - 1]) + "\n"
  }

  /** `content.lines()`: what follows the last newline counts only if it is not empty. */
  function FileLines(content: string): seq<string> {
    var parts := Split(content, '\n');
    if parts[|parts| - 1] == "" then parts[..|parts| - 1] else parts
  }

  function Parsed(records: seq<string>): seq<LogLine> {
    if records == [] then []
    else (match FromRecord(records[0]) case Some(l) => [l] case None => []) + Parsed(records[1..])
  }

  function ReadBack(content: string): seq<LogLine> { Parsed(FileLines(content)) }

  function StoredAll(lines: seq<LogLine>): (r: seq<LogLine>)
    ensures |r| == |lines| && forall i | 0 <= i < |r| :: r[i] == Stored(lines[i])
  {
    if lines == [] then [] else [Stored(lines[0])] + StoredAll(lines[1..])
  }

  predicate Persistable(l: LogLine) {
    l.ts <= U64_MAX && PlainTag(l.ext) && (l.ext.Some? ==> '\n' !in l.ext.value)
  }

  /** A line with fewer than four fields is no record, nor is one that does not start with a number. */
  lemma MalformedIsNoRecord(a: string, b: string, c: string, rest: string)
    requires '\t' !in a && '\t' !in b && '\t' !in c
    ensures FromRecord(a).None? && FromRecord(a + ['\t'] + b).None?
    ensures FromRecord(a + ['\t'] + (b + ['\t'] + c)).None?
    ensures ParseNat(a, U64_MAX).None? ==> FromRecord(a + ['\t'] + rest).None?
  {
    hide SplitN, ParseNat, ParseLevel, ParseKind;
    NoSplit(a, 5);
    SplitStep(a, '\t', b, 3);
    NoSplit(b, 4);
    SplitStep(a, '\t', b + ['\t'] + c, 3);
    SplitStep(b, '\t', c, 2);
    NoSplit(c, 3);
    SplitStep(a, '\t', rest, 3);
  }

  /** Such lines of a file are skipped, and the others stay in order. */
  lemma {:induction false} MalformedAreSkipped(a: seq<string>, line: string, b: seq<string>)
    requires FromRecord(line).None?
    ensures Parsed(a + [line] + b) == Parsed(a) + Parsed(b)
  {
    hide FromRecord;
    var all := a + [line] + b;
    if a == [] {
      assert all[1..] == b;
    } else {
      assert all[1..] == a[1..] + [line] + b;
      MalformedAreSkipped(a[1..], line, b);
    }
  }

  /** The same text, built from the front. */
  function PersistedFront(lines: seq<LogLine>): string {
    if lines == [] then "" else ToRecord(lines[0]) + ['\n'] + PersistedFront(lines[1..])
  }

  lemma {:induction false} PersistedFrontGrows(lines: seq<LogLine>, l: LogLine)
    ensures PersistedFront(lines + [l]) == PersistedFront(lines) + (ToRecord(l) + "\n")
  {
    hide ToRecord;
    if lines == [] {
      assert ([] + [l])[1..] == [] && ([] + [l])[0] == l;
      assert PersistedFront([l][1..]) == "";
    } else {
      assert (lines + [l])[1..] == lines[1..] + [l];
      PersistedFrontGrows(lines[1..], l);
    }
  }

  lemma {:induction false} PersistedEitherWay(lines: seq<LogLine>)
    ensures Persisted(lines) == PersistedFront(lines)
  {
    hide ToRecord;
    if lines != [] {
      var front, last := lines[..|lines| - 1], lines[|lines| - 1];
      PersistedEitherWay(front);
      PersistedFrontGrows(front, last);
      assert lines == front + [last];
    }
  }

  lemma RecordIsOneLine(l: LogLine)
    requires Persistable(l)
    ensures '\n' !in ToRecord(l)
  {
    LevelComesBack(l.level);
    KindComesBack(l.kind);
    NoTabInDecimal(l.ts);
  }

  lemma {:induction false} ReadBackFront(lines: seq<LogLine>)
    requires forall i | 0 <= i < |lines| :: Persistable(lines[i])
    ensures ReadBack(PersistedFront(lines)) == StoredAll(lines)
  {
    hide ToRecord, FromRecord, Stored, Persistable;
    if lines == [] {
      assert Split("", '\n') == [""];
    } else {
      var record, rest := ToRecord(lines[0]), PersistedFront(lines[1..]);
      RecordIsOneLine(lines[0]);
      SplitAtFirst(record, '\n', rest);
      var parts := Split(rest, '\n');
      assert ([record] + parts)[|parts|] == parts[|parts| - 1];
      assert ([record] + parts)[..|parts|] == [record] + parts[..|parts| - 1];
      assert FileLines(PersistedFront(lines)) == [record] + FileLines(rest);
      assert Persistable(lines[0]) ==> lines[0].ts <= U64_MAX && PlainTag(lines[0].ext) by { PersistableTag(lines[0]); }
      RecordRoundTrip(lines[0]);
      ReadBackFront(lines[1..]);
      assert ([record] + FileLines(rest))[1..] == FileLines(rest);
    }
  }

  lemma PersistableTag(l: LogLine)
    ensures Persistable(l) ==> l.ts <= U64_MAX && PlainTag(l.ext)
  {
  }

  /** Reading a file back returns every line appended to it, in order. */
  lemma ReadBackPersisted(lines: seq<LogLine>)
    requires forall i | 0 <= i < |lines| :: Persistable(lines[i])
    ensures ReadBack(Persisted(lines)) == StoredAll(lines)
  {
    PersistedEitherWay(lines);
    ReadBackFront(lines);
  }

  // --- by time -----------------------------------------------------------------------------------

  /** After the lines that are not later, as a stable sort leaves it. */
  function Inserted(sorted: seq<LogLine>, l: LogLine): seq<LogLine> {
    if sorted != [] && sorted[|sorted| - 1].ts > l.ts
    then Inserted(sorted[..|sorted| - 1], l) + [sorted[|sorted| - 1]]
    else sorted + [l]
  }

  function ByTime(lines: seq<LogLine>): seq<LogLine> {
    if lines == [] then [] else Inserted(ByTime(lines[..|lines| - 1]), lines[|lines| - 1])
  }

  /** The lines of a persisted file as they are listed. */
  function ReadSession(content: string): seq<LogLine> { ByTime(ReadBack(content)) }

  predicate InOrder(lines: seq<LogLine>) { forall i, j | 0 <= i < j < |lines| :: lines[i].ts <= lines[j].ts }

  /** The lines of one moment. */
  function AtTime(lines: seq<LogLine>, ts: nat): seq<LogLine> {
    if lines == [] then []
    else
      var last := lines[|lines| - 1];
      AtTime(lines[..|lines| - 1], ts) + (if last.ts == ts then [last] else [])
  }

  lemma {:induction false} InsertedFacts(sorted: seq<LogLine>, l: LogLine)
    requires InOrder(sorted)
    ensures |Inserted(sorted, l)| == |sorted| + 1 && InOrder(Inserted(sorted, l))
    ensures var last := Inserted(sorted, l)[|sorted|];
            last == if sorted != [] && sorted[|sorted| - 1].ts > l.ts then sorted[|sorted| - 1] else l
  {
    if sorted != [] && sorted[|sorted| - 1].ts > l.ts {
      InsertedFacts(sorted[..|sorted| - 1], l);
    }
  }

  lemma AtTimeGrows(front: seq<LogLine>, last: LogLine, ts: nat)
    ensures AtTime(front + [last], ts) == AtTime(front, ts) + if last.ts == ts then [last] else []
  {
    assert (front + [last])[..|front|] == front;
  }

  lemma {:induction false} InsertedAtTime(sorted: seq<LogLine>, l: LogLine, ts: nat)
    requires InOrder(sorted)
    ensures AtTime(Inserted(sorted, l), ts) == AtTime(sorted, ts) + if l.ts == ts then [l] else []
  {
    hide AtTime;
    if sorted != [] && sorted[|sorted| - 1].ts > l.ts {
      var front, last := sorted[..|sorted| - 1], sorted[|sorted| - 1];
      assert sorted == front + [last] && Inserted(sorted, l) == Inserted(front, l) + [last];
      InsertedAtTime(front, l, ts);
      AtTimeGrows(front, last, ts);
      AtTimeGrows(Inserted(front, l), last, ts);
    } else {
      AtTimeGrows(sorted, l, ts);
    }
  }

  /** Listing by time loses and adds nothing, is in order, keeps the order within each moment,
      and changes nothing exactly when the lines were in order already. */
  lemma {:induction false} ByTimeFacts(lines: seq<LogLine>)
    ensures |ByTime(lines)| == |lines| && InOrder(ByTime(lines))
    ensures forall ts :: AtTime(ByTime(lines), ts) == AtTime(lines, ts)
    ensures ByTime(lines) == lines <==> InOrder(lines)
  {
    if lines != [] {
      var front, last := lines[..|lines| - 1], lines[|lines| - 1];
      ByTimeFacts(front);
      InsertedFacts(ByTime(front), last);
      forall ts ensures AtTime(ByTime(lines), ts) == AtTime(lines, ts) { InsertedAtTime(ByTime(front), last, ts); }
      if InOrder(lines) { assert lines == front + [last]; }
    }
  }
}
