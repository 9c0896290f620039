/** What the lines of ExtensionHost.txt say and what comes out for each kind of them, text by
    text: the words, tags, frames and messages that the parser reads. */
module HostEntries {
  import opened Text
  import opened LogLines
  import opened ExtHost
  import Calendar

  // --- an entry --------------------------------------------------------------------------------

  predicate Spaceless(s: string) { forall i | 0 <= i < |s| :: s[i] != ' ' }

  lemma CutAtColon(head: string, tail: string)
    requires Spaceless(head)
    ensures SplitOnce(head + ": " + tail, ": ") == Some((head, tail))
  {
    var s := head + ": " + tail;
    assert s[|head|..|head| + 2] == ": ";
    assert OccursAt(s, ": ", |head|);
    forall i | 0 <= i < |head|
      ensures !OccursAt(s, ": ", i)
    {
      assert s[i..i + 2][1] == s[i + 1] && ": "[1] == ' ';
    }
    assert s[..|head|] == head && s[|head| + 2..] == tail;
  }

  /** A written timestamp holds digits, its separators, and nothing else. */
  lemma StampLacks(t: Calendar.Stamp, c: char)
    requires Calendar.ValidStamp(t) && !IsDigit(c) && c !in ['-', 'T', ':', '.']
    ensures c !in Calendar.Format(t)
  {
    var y, mo, d := Calendar.Padded(t.date.year, 4), Calendar.Padded(t.date.month, 2), Calendar.Padded(t.date.day, 2);
    var h, mi := Calendar.Padded(t.hour, 2), Calendar.Padded(t.minute, 2);
    var s, f := Calendar.Padded(t.sec, 2), Calendar.Padded(t.micros, 6);
    assert Calendar.Format(t) == y + "-" + mo + "-" + d + "T" + h + ":" + mi + ":" + s + "." + f;
    hide Calendar.Padded, Calendar.Format;
    Calendar.NotADigit(y, c); Calendar.NotADigit(mo, c); Calendar.NotADigit(d, c);
    Calendar.NotADigit(h, c); Calendar.NotADigit(mi, c); Calendar.NotADigit(s, c); Calendar.NotADigit(f, c);
  }

  lemma StampShape(t: Calendar.Stamp)
    requires Calendar.ValidStamp(t)
    ensures Spaceless(Calendar.Format(t)) && 'T' in Calendar.Format(t)
    ensures Calendar.Format(t) != "" && IsDigit(Calendar.Format(t)[0])
  {
    var y := Calendar.Padded(t.date.year, 4);
    var date := y + "-" + Calendar.Padded(t.date.month, 2) + "-" + Calendar.Padded(t.date.day, 2);
    assert Calendar.Format(t)[|date|] == 'T' && Calendar.Format(t)[0] == y[0];
    hide Calendar.Padded, Calendar.Format;
    StampLacks(t, ' ');
  }

  /** The milliseconds a written timestamp stands for. */
  function Millis(t: Calendar.Stamp): nat {
    if Calendar.EpochMs(t) < 0 then 0 else Calendar.EpochMs(t)
  }

  predicate LevelOf(word: string, level: Level) {
    || (word == "info" && level == Info)
    || (word == "error" && level == Error)
    || (word in {"warn", "warning"} && level == Warn)
  }

  function Entry(t: Calendar.Stamp, word: string, msg: string): string
    requires Calendar.ValidStamp(t)
  {
    Calendar.Format(t) + ": " + word + ": " + msg
  }

  /** A written entry is read as its time, its level and its message. */
  lemma EntryIsRead(t: Calendar.Stamp, word: string, level: Level, msg: string, now: nat)
    requires Calendar.ValidStamp(t) && LevelOf(word, level)
    ensures ParseEntry(Entry(t, word, msg), now) == Some((Millis(t), level, msg))
  {
    var stamp, rest := Calendar.Format(t), word + ": " + msg;
    assert Entry(t, word, msg) == stamp + ": " + rest;
    assert Spaceless(word);
    hide *;
    StampShape(t);
    CutAtColon(stamp, rest);
    CutAtColon(word, msg);
    Calendar.ParseOfFormat(t);
    MillisOf(t);
    EntryFrom(Entry(t, word, msg), now, stamp, rest, word, level, msg, Millis(t));
  }

  lemma MillisOf(t: Calendar.Stamp)
    ensures Millis(t) == if Calendar.EpochMs(t) < 0 then 0 else Calendar.EpochMs(t)
  {
  }

  lemma EntryFrom(line: string, now: nat, stamp: string, rest: string, word: string, level: Level, msg: string, ts: nat)
    ensures SplitOnce(line, ": ") == Some((stamp, rest)) && SplitOnce(rest, ": ") == Some((word, msg))
            && 'T' in stamp && IsDigit(stamp[0]) && Calendar.ParseTimestamp(stamp) == Some(ts) && LevelOf(word, level)
            ==> ParseEntry(line, now) == Some((ts, level, msg))
  {
    hide SplitOnce, Calendar.ParseTimestamp;
  }

  /** `s` is cut at its first colon and space. */
  ghost predicate CutFirst(s: string, head: string, tail: string) {
    s == head + ": " + tail && forall i | 0 <= i < |head| :: !OccursAt(s, ": ", i)
  }

  ghost predicate Uncut(s: string) { forall i :: !OccursAt(s, ": ", i) }

  lemma CutExactly(s: string, head: string, tail: string)
    ensures SplitOnce(s, ": ") == Some((head, tail)) <==> CutFirst(s, head, tail)
    ensures SplitOnce(s, ": ").None? <==> Uncut(s)
  {
    if SplitOnce(s, ": ") == Some((head, tail)) {
      var i := Find(s, ": ", 0).value;
      assert s == s[..i] + ": " + s[i + 2..];
    }
    if CutFirst(s, head, tail) {
      assert s[|head|..|head| + 2] == ": ";
      assert OccursAt(s, ": ", |head|);
      assert s[..|head|] == head && s[|head| + 2..] == tail;
    }
  }

  /** Exactly these lines are entries: a stamp that starts with a digit and holds a T, a level
      word, and the rest; a stamp that cannot be parsed counts as now. */
  ghost predicate IsEntry(line: string, now: nat, ts: nat, level: Level, msg: string) {
    exists stamp, rest, word ::
      && CutFirst(line, stamp, rest)
      && 'T' in stamp && stamp != "" && '0' <= stamp[0] <= '9'
      && (CutFirst(rest, word, msg) || (Uncut(rest) && word == rest && msg == ""))
      && LevelOf(word, level)
      && (Calendar.ParseTimestamp(stamp) == Some(ts) || (Calendar.ParseTimestamp(stamp).None? && ts == now))
  }

  lemma EntryExactly(line: string, now: nat, ts: nat, level: Level, msg: string)
    ensures ParseEntry(line, now) == Some((ts, level, msg)) <==> IsEntry(line, now, ts, level, msg)
  {
    hide SplitOnce, CutFirst, Uncut, Calendar.ParseTimestamp;
    if ParseEntry(line, now) == Some((ts, level, msg)) {
      var (stamp, rest) := SplitOnce(line, ": ").value;
      CutExactly(line, stamp, rest);
      if SplitOnce(rest, ": ").Some? {
        var (word, m) := SplitOnce(rest, ": ").value;
        CutExactly(rest, word, m);
        assert LevelOf(word, level);
      } else {
        CutExactly(rest, "", "");
        assert LevelOf(rest, level);
      }
    }
    if IsEntry(line, now, ts, level, msg) {
      var stamp, rest, word :|
        && CutFirst(line, stamp, rest)
        && 'T' in stamp && stamp != "" && '0' <= stamp[0] <= '9'
        && (CutFirst(rest, word, msg) || (Uncut(rest) && word == rest && msg == ""))
        && LevelOf(word, level)
        && (Calendar.ParseTimestamp(stamp) == Some(ts) || (Calendar.ParseTimestamp(stamp).None? && ts == now));
      CutExactly(line, stamp, rest);
      CutExactly(rest, word, msg);
    }
  }

  // --- what comes out for it -------------------------------------------------------------------

  /** A host line: nothing in it stands in brackets, and it is neither banner nor exception. */
  ghost predicate PlainMessage(msg: string) {
    && '[' !in msg && !OccursAt(msg, "Error:", 0) && !OccursAt(msg, "Started: Extension Host ", 0)
    && forall i :: !OccursAt(msg, "Uncaught exception", i)
  }

  lemma {:induction false} TrimStartSuffix(s: string)
    ensures |TrimStart(s)| <= |s| && s[|s| - |TrimStart(s)|..] == TrimStart(s)
    ensures s != "" && !Space(s[0]) ==> TrimStart(s) == s
  {
    if s != "" && Space(s[0]) { TrimStartSuffix(s[1..]); }
  }

  lemma NoBracketNoTag(msg: string)
    requires '[' !in msg
    ensures StripTag(msg).None?
  {
    TrimStartSuffix(msg);
    var m := TrimStart(msg);
    if m != "" { assert m[0] == msg[|msg| - |m|]; }
    OneCharOccurs(m, '[', 0);
  }

  lemma NoBracketInEntry(t: Calendar.Stamp, word: string, level: Level, msg: string)
    requires Calendar.ValidStamp(t) && LevelOf(word, level)
    ensures forall i | 0 <= i < |Entry(t, word, "")| :: Entry(t, word, "")[i] != '['
    ensures Entry(t, word, msg) == Entry(t, word, "") + msg
  {
    assert '[' !in word;
    assert Entry(t, word, "") == Calendar.Format(t) + ": " + word + ": ";
    assert Entry(t, word, msg) == Entry(t, word, "") + msg;
    hide *;
    NotDigitOrMark('[');
    StampLacks(t, '[');
  }

  lemma NotDigitOrMark(c: char)
    requires c == '['
    ensures !IsDigit(c) && c !in ['-', 'T', ':', '.']
  {
  }

  /** A plain line comes out as it is, with its time and level, as host output of nobody. */
  lemma PlainLine(p: Parser, t: Calendar.Stamp, word: string, level: Level, msg: string, now: nat, mapper: Mapper)
    requires Calendar.ValidStamp(t) && LevelOf(word, level) && PlainMessage(msg)
    ensures Fed(p, Entry(t, word, msg), now, mapper)
         == (p.(inException := false), [LogLine(Millis(t), level, None, HostOutput, msg, None)])
  {
    var raw := Entry(t, word, msg);
    EntryIsRead(t, word, level, msg, now);
    NoBracketNoTag(msg);
    NoBracketInEntry(t, word, level, msg);
    assert '[' !in raw;
    forall i ensures !OccursAt(raw, "[", i) { OneCharOccurs(raw, '[', i); }
    assert !Banner(msg) && !ExceptionMessage(msg);
    hide ParseEntry, Entry, StripTag, Millis, Banner, ExceptionMessage;
  }

  /** A bracketed word further on attributes the line to that extension. */
  lemma MentionedLine(p: Parser, t: Calendar.Stamp, word: string, level: Level, a: string, name: string, b: string,
                      now: nat, mapper: Mapper)
    requires Calendar.ValidStamp(t) && LevelOf(word, level)
    requires a != "" && !Space(a[0]) && '[' !in a && name != "" && ' ' !in name && ']' !in name
    requires var msg := a + "[" + name + "]" + b;
             !OccursAt(msg, "Error:", 0) && !OccursAt(msg, "Started: Extension Host ", 0)
             && forall i :: !OccursAt(msg, "Uncaught exception", i)
    ensures var msg := a + "[" + name + "]" + b;
            Fed(p, Entry(t, word, msg), now, mapper)
            == (p.(inException := false), [LogLine(Millis(t), level, Some(name), Console, msg, None)])
  {
    var msg := a + "[" + name + "]" + b;
    EntryIsRead(t, word, level, msg, now);
    MentionedTag(t, word, level, a, name, b);
    TrimStartSuffix(msg);
    assert msg[0] == a[0] != '[';
    OneCharOccurs(msg, '[', 0);
    assert StripTag(msg).None? && !Banner(msg) && !ExceptionMessage(msg);
    hide ParseEntry, Entry, StripTag, Millis, Banner, ExceptionMessage, ExtractTag, LevelOf;
  }

  lemma MentionedTag(t: Calendar.Stamp, word: string, level: Level, a: string, name: string, b: string)
    requires Calendar.ValidStamp(t) && LevelOf(word, level)
    requires '[' !in a && name != "" && ' ' !in name && ']' !in name
    ensures ExtractTag(Entry(t, word, a + "[" + name + "]" + b)) == Some(name)
  {
    NoBracketInEntry(t, word, level, a + "[" + name + "]" + b);
    hide Entry, ExtractTag;
    var head := Entry(t, word, "") + a;
    assert Entry(t, word, "") + (a + "[" + name + "]" + b) == head + "[" + name + "]" + b;
    BracketedIs(head, name, b);
  }

  lemma BracketedIs(head: string, name: string, b: string)
    requires '[' !in head && name != "" && ' ' !in name && ']' !in name
    ensures ExtractTag(head + "[" + name + "]" + b) == Some(name)
  {
    var s := head + "[" + name + "]" + b;
    var open, close := |head|, |head| + 1 + |name|;
    assert s[open] == '[' && s[close] == ']' && s[open + 1..close] == name;
    assert forall i | 0 <= i < open :: s[i] == head[i];
    assert forall i | open < i < close :: s[i] == name[i - open - 1];
    FirstOf(s, '[', 0, open);
    FirstOf(s, ']', open + 1, close);
    hide Find;
  }

  lemma FirstOf(s: string, c: char, from: nat, at: nat)
    requires from <= at < |s| && s[at] == c && forall i | from <= i < at :: s[i] != c
    ensures Find(s, [c], from) == Some(at)
  {
    forall i ensures OccursAt(s, [c], i) <==> 0 <= i < |s| && s[i] == c { OneCharOccurs(s, c, i); }
  }

  /** A tagged line comes out as the tag's, without the tag, and the tag is remembered. */
  lemma TaggedLine(p: Parser, t: Calendar.Stamp, word: string, level: Level, tag: string, rest: string, now: nat,
                   mapper: Mapper)
    requires Calendar.ValidStamp(t) && LevelOf(word, level)
    requires tag != "" && ' ' !in tag && '[' !in tag && ']' !in tag && (rest == "" || !Space(rest[0]))
    ensures Fed(p, Entry(t, word, "[" + tag + "]: " + rest), now, mapper)
         == (p.(inException := false, lastExt := Some(tag)),
             [LogLine(Millis(t), level, Some(tag), Console, rest, None)])
  {
    var msg := "[" + tag + "]: " + rest;
    EntryIsRead(t, word, level, msg, now);
    TagIs(tag, rest);
    assert msg[0] == '[' && "Started: Extension Host "[0] == 'S';
    StartsAlike(msg, "Started: Extension Host ");
    hide ParseEntry, Entry, StripTag, Millis, Banner, ExceptionMessage, ExtractTag;
  }

  lemma StartsAlike(s: string, prefix: string)
    requires prefix != ""
    ensures OccursAt(s, prefix, 0) ==> s != "" && s[0] == prefix[0]
  {
    if OccursAt(s, prefix, 0) { assert s[0..|prefix|][0] == s[0]; }
  }

  lemma TagIs(tag: string, rest: string)
    requires tag != "" && ' ' !in tag && '[' !in tag && ']' !in tag && (rest == "" || !Space(rest[0]))
    ensures StripTag("[" + tag + "]: " + rest) == Some((tag, rest))
  {
    var msg, close := "[" + tag + "]: " + rest, |tag| + 1;
    assert msg[0] == '[' && !Space('[');
    TrimStartSuffix(msg);
    OneCharOccurs(msg, '[', 0);
    assert msg[1..close] == tag && msg[close..close + 2] == "]:" && msg[close + 2..] == " " + rest;
    assert OccursAt(msg, "]:", close);
    forall i | 0 <= i < close
      ensures !OccursAt(msg, "]:", i)
    {
      assert msg[i..i + 2][0] == msg[i] && "]:"[0] == ']';
      if i > 0 { assert msg[i] == tag[i - 1]; }
    }
    assert Find(msg, "]:", 0) == Some(close);
    TrimStartSuffix(rest);
    assert (" " + rest)[1..] == rest && Space(' ');
    assert TrimStart(" " + rest) == TrimStart(rest) == rest;
  }

  /** A bracket at the start is no tag when nothing closes it with a colon, or when what it holds is
      empty or has a space or another bracket in it. */
  lemma NoTagWhen(blanks: string, name: string, rest: string)
    requires Blank(blanks)
    requires var msg := "[" + name + "]:" + rest; forall i | 0 <= i <= |name| :: !OccursAt(msg, "]:", i)
    ensures name == "" || ' ' in name || '[' in name ==> StripTag(blanks + "[" + name + "]:" + rest).None?
    ensures !(name == "" || ' ' in name || '[' in name) ==>
              StripTag(blanks + "[" + name + "]:" + rest) == Some((name, TrimStart(rest)))
  {
    var msg, close := "[" + name + "]:" + rest, |name| + 1;
    assert blanks + "[" + name + "]:" + rest == blanks + msg;
    assert msg[0] == '[' && !Space('[');
    TrimStartOfSum(blanks, msg);
    OneCharOccurs(msg, '[', 0);
    assert msg[1..close] == name && msg[close..close + 2] == "]:" && msg[close + 2..] == rest;
    assert OccursAt(msg, "]:", close);
    assert Find(msg, "]:", 0) == Some(close);
  }

  lemma {:induction false} TrimStartOfSum(blanks: string, s: string)
    requires Blank(blanks) && s != "" && !Space(s[0])
    ensures TrimStart(blanks + s) == s
  {
    if blanks == "" {
      assert blanks + s == s;
    } else {
      assert (blanks + s)[1..] == blanks[1..] + s && (blanks + s)[0] == blanks[0];
      TrimStartOfSum(blanks[1..], s);
    }
  }

  lemma UnclosedIsNoTag(msg: string)
    requires forall i :: !OccursAt(msg, "]:", i)
    ensures StripTag(msg).None?
  {
    TrimStartSuffix(msg);
    var m := TrimStart(msg);
    forall i ensures OccursAt(m, "]:", i) ==> OccursAt(msg, "]:", |msg| - |m| + i) {
      OccursInSuffix(msg, |msg| - |m|, "]:", i);
    }
    hide TrimStart, OccursAt;
  }

  lemma OccursInSuffix(s: string, from: nat, needle: string, i: int)
    requires from <= |s|
    ensures OccursAt(s[from..], needle, i) ==> OccursAt(s, needle, from + i)
  {
    if OccursAt(s[from..], needle, i) { assert s[from + i..from + i + |needle|] == s[from..][i..i + |needle|]; }
  }

  /** A bracketed word is nobody's name when it is empty or has a space in it, or is not closed. */
  lemma NoNameWhen(head: string, name: string, b: string)
    requires '[' !in head && ']' !in name
    ensures name == "" || ' ' in name ==> ExtractTag(head + "[" + name + "]" + b).None?
    ensures ExtractTag(head).None? && ExtractTag(head + "[" + name).None?
  {
    var s := head + "[" + name + "]" + b;
    var open, close := |head|, |head| + 1 + |name|;
    assert s[open] == '[' && s[close] == ']' && s[open + 1..close] == name;
    assert forall i | 0 <= i < open :: s[i] == head[i];
    assert forall i | open < i < close :: s[i] == name[i - open - 1];
    FirstOf(s, '[', 0, open);
    FirstOf(s, ']', open + 1, close);
    NoneOf(head, '[', 0);
    var t := head + "[" + name;
    assert t[open] == '[' && forall i | 0 <= i < open :: t[i] == head[i];
    assert forall i | open < i < |t| :: t[i] == name[i - open - 1];
    FirstOf(t, '[', 0, open);
    NoneOf(t, ']', open + 1);
    hide Find;
  }

  lemma NoneOf(s: string, c: char, from: nat)
    requires forall i | from <= i < |s| :: s[i] != c
    ensures Find(s, [c], from).None?
  {
    forall i ensures OccursAt(s, [c], i) <==> 0 <= i < |s| && s[i] == c { OneCharOccurs(s, c, i); }
  }

  /** An exception header comes out as an error of the extension last seen, and opens a block
      whose message is the header's own when that is an "Error:". */
  lemma HeaderLine(p: Parser, t: Calendar.Stamp, word: string, level: Level, msg: string, now: nat, mapper: Mapper)
    requires Calendar.ValidStamp(t) && LevelOf(word, level)
    requires msg != "" && !Space(msg[0]) && msg[0] != '[' && !OccursAt(msg, "Started: Extension Host ", 0)
    requires OccursAt(msg, "Error:", 0) || exists i: nat :: OccursAt(msg, "Uncaught exception", i)
    ensures Header(Entry(t, word, msg))
    ensures Fed(p, Entry(t, word, msg), now, mapper)
         == (Parser(true, p.lastExt, if OccursAt(msg, "Error:", 0) then Some(msg) else None, false),
             [LogLine(Millis(t), Error, p.lastExt, HostOutput, msg, None)])
  {
    EntryIsRead(t, word, level, msg, now);
    EntryIsRead(t, word, level, msg, 0);
    TrimStartSuffix(msg);
    OneCharOccurs(msg, '[', 0);
    assert StripTag(msg).None? && !Banner(msg) && ExceptionMessage(msg);
    hide ParseEntry, Entry, StripTag, Millis, Banner, ExceptionMessage, ExtractTag;
  }

  /** The banner tells the version that started, without the white space around it. */
  lemma BannerLine(p: Parser, t: Calendar.Stamp, word: string, level: Level, a: string, version: string, b: string,
                   now: nat, mapper: Mapper)
    requires Calendar.ValidStamp(t) && LevelOf(word, level) && Blank(a) && Blank(b)
    requires version != "" && !Space(version[0]) && !Space(version[|version| - 1])
    ensures Fed(p, Entry(t, word, "Started: Extension Host " + (a + version + b)), now, mapper)
         == (p.(inException := false),
             [LogLine(Millis(t), Info, None, Lifecycle, "Extension Host " + version + " started", None)])
  {
    var text := a + version + b;
    var msg := "Started: Extension Host " + text;
    EntryIsRead(t, word, level, msg, now);
    BannerSays(msg, text);
    TrimExactly(a, version, b);
    hide ParseEntry, Entry, StripTag, Millis, ExceptionMessage, ExtractTag, Banner, BannerText, Trim, Space;
  }

  lemma BannerSays(msg: string, text: string)
    requires msg == "Started: Extension Host " + text
    ensures Banner(msg) && BannerText(msg) == "Extension Host " + Trim(text) + " started"
  {
    assert |"Started: Extension Host "| == 24;
    assert msg[..24] == "Started: Extension Host " && msg[24..] == text;
    assert OccursAt(msg, "Started: Extension Host ", 0);
    hide Trim;
  }

  // --- frames ----------------------------------------------------------------------------------

  predicate NumberChars(s: string) { forall i | 0 <= i < |s| :: IsDigit(s[i]) || s[i] == ':' }

  lemma {:induction false} NumbersLead(s: string, rest: string)
    requires NumberChars(s)
    requires rest == "" || !(IsDigit(rest[0]) || rest[0] == ':')
    ensures LeadingNumbers(s + rest) == s
  {
    if s == "" {
      assert s + rest == rest;
    } else {
      assert (s + rest)[1..] == s[1..] + rest;
      NumbersLead(s[1..], rest);
    }
  }

  /** What may stand before a path: a parenthesis, a space, or the start of the line. */
  predicate Opens(before: string) { before == "" || before[|before| - 1] == '(' || before[|before| - 1] == ' ' }

  lemma {:induction false} PathStartsAfter(before: string, dir: string)
    requires Opens(before) && forall i | 0 <= i < |dir| :: dir[i] != '(' && dir[i] != ' '
    ensures PathStart(before + dir) == |before|
  {
    var s := before + dir;
    if dir == "" {
      assert s == before;
    } else {
      assert s[..|s| - 1] == before + dir[..|dir| - 1];
      PathStartsAfter(before, dir[..|dir| - 1]);
    }
  }

  /** What may follow the numbers: anything that goes on with neither a digit nor a colon. */
  predicate EndsNumbers(rest: string) { rest == "" || !(IsDigit(rest[0]) || rest[0] == ':') }

  /** The text has a frame of this bundle, at these numbers, and no other before it. */
  ghost predicate FrameText(text: string, before: string, dir: string, nums: string, rest: string) {
    var head := before + dir;
    && text == head + "dist/extension.js:" + (nums + rest) && Opens(before) && EndsNumbers(rest)
    && (forall i | 0 <= i < |dir| :: dir[i] != '(' && !Space(dir[i]))
    && forall i | 0 <= i < |head| :: !OccursAt(text, "dist/extension.js:", i)
  }

  /** A stack frame is read as its path, line and column. */
  lemma FrameIsRead(text: string, before: string, dir: string, nums: string, rest: string, l: nat, c: nat)
    requires l <= U32_MAX && c <= U32_MAX && nums == Decimal(l) + ":" + Decimal(c)
    requires FrameText(text, before, dir, nums, rest)
    ensures ParseFrame(text) == Some((dir + "dist/extension.js", l, c))
  {
    hide *;
    FramePieces(text, before, dir, nums, rest);
    TwoNumbers(nums, l, c);
    NumbersEnd(text, before, dir, nums, rest);
    FrameFrom(text, |before| + |dir|, nums, |before|, l, c);
  }

  /** Without a column, that is 0. */
  lemma FrameWithoutColumn(text: string, before: string, dir: string, nums: string, rest: string, l: nat)
    requires l <= U32_MAX && nums == Decimal(l) && FrameText(text, before, dir, nums, rest)
    ensures ParseFrame(text) == Some((dir + "dist/extension.js", l, 0))
  {
    hide *;
    FramePieces(text, before, dir, nums, rest);
    OneNumber(nums, l);
    NumbersEnd(text, before, dir, nums, rest);
    FrameFrom1(text, |before| + |dir|, nums, |before|, l);
  }

  /** A text without a bundle in it is no frame. */
  lemma NoBundleNoFrame(text: string)
    requires forall i :: !OccursAt(text, "dist/extension.js:", i)
    ensures ParseFrame(text).None?
  {
    assert DIST_ENTRY + ":" == "dist/extension.js:";
    hide OccursAt, PathStart, Split, ParseNat, LeadingNumbers, Trim;
  }

  /** Nor is one without a line number, or with one that does not fit 32 bits. */
  lemma NoNumberNoFrame(text: string, before: string, dir: string, rest: string)
    requires FrameText(text, before, dir, "", rest)
    ensures ParseFrame(text).None?
  {
    assert Split("", ':') == [""] && ParseNat("", U32_MAX).None?;
    hide *;
    FramePieces(text, before, dir, "", rest);
    NumberlessEnd(text, before, dir, rest);
    FrameFrom0(text, |before| + |dir|, "");
  }

  lemma LargeNumberNoFrame(text: string, before: string, dir: string, nums: string, rest: string, l: nat)
    requires l > U32_MAX && nums == Decimal(l) && FrameText(text, before, dir, nums, rest)
    ensures ParseFrame(text).None?
  {
    Calendar.NotADigit(nums, ':');
    hide *;
    FramePieces(text, before, dir, nums, rest);
    DigitsAreNumbers(nums);
    NumbersEnd(text, before, dir, nums, rest);
    SplitPlain(nums, ':');
    TooLarge(l);
    FrameFrom0(text, |before| + |dir|, nums);
  }

  lemma DigitsAreNumbers(s: string)
    requires AllDigits(s)
    ensures NumberChars(s)
  {
  }

  lemma TooLarge(l: nat)
    requires l > U32_MAX
    ensures ParseNat(Decimal(l), U32_MAX).None?
  {
    ValueOfDecimal(l);
    assert Decimal(l)[0] != '+';
  }

  lemma NumberlessEnd(text: string, before: string, dir: string, rest: string)
    requires FrameText(text, before, dir, "", rest)
    ensures |text| >= |before| + |dir| + 18 && LeadingNumbers(text[|before| + |dir| + 18..]) == ""
  {
    assert text[|before| + |dir| + 18..] == rest;
    hide OccursAt, Space;
  }

  lemma NumbersEnd(text: string, before: string, dir: string, nums: string, rest: string)
    requires FrameText(text, before, dir, nums, rest) && NumberChars(nums)
    ensures |text| >= |before| + |dir| + 18 && LeadingNumbers(text[|before| + |dir| + 18..]) == nums
  {
    assert text[|before| + |dir| + 18..] == nums + rest;
    hide OccursAt, Space, LeadingNumbers;
    NumbersLead(nums, rest);
  }

  lemma FramePieces(text: string, before: string, dir: string, nums: string, rest: string)
    requires FrameText(text, before, dir, nums, rest)
    ensures var at := |before| + |dir|;
            && Find(text, DIST_ENTRY + ":", 0) == Some(at) && |text| >= at + 18
            && PathStart(text[..at]) == |before|
            && Trim(text[|before|..at + 17]) == dir + "dist/extension.js"
  {
    var head := before + dir;
    hide Find, PathStart, Trim, Space, OccursAt;
    FrameFound(text, head, nums + rest);
    NoSpaceIn(dir);
    PathStartsAfter(before, dir);
    PathTrims(dir);
    PathCut(text, head, before, dir, nums + rest);
  }

  lemma NoSpaceIn(dir: string)
    requires forall i | 0 <= i < |dir| :: dir[i] != '(' && !Space(dir[i])
    ensures forall i | 0 <= i < |dir| :: dir[i] != '(' && dir[i] != ' '
  {
  }

  lemma PathCut(text: string, head: string, before: string, dir: string, tail: string)
    requires head == before + dir && text == head + "dist/extension.js:" + tail
    ensures text[|before|..|head| + 17] == dir + "dist/extension.js"
  {
  }

  lemma FrameFound(line: string, head: string, tail: string)
    requires line == head + "dist/extension.js:" + tail
    requires forall i | 0 <= i < |head| :: !OccursAt(line, "dist/extension.js:", i)
    ensures Find(line, DIST_ENTRY + ":", 0) == Some(|head|)
    ensures line[|head| + 18..] == tail && line[..|head|] == head
  {
    assert DIST_ENTRY + ":" == "dist/extension.js:";
    assert OccursAt(line, "dist/extension.js:", |head|);
  }

  lemma FrameFrom(line: string, at: nat, nums: string, start: nat, l: nat, c: nat)
    requires |line| >= at + 18 && start <= at
    ensures var parts := Split(nums, ':');
            Find(line, DIST_ENTRY + ":", 0) == Some(at) && LeadingNumbers(line[at + 18..]) == nums
            && PathStart(line[..at]) == start
            && |parts| == 2 && ParseNat(parts[0], U32_MAX) == Some(l) && ParseNat(parts[1], U32_MAX) == Some(c)
            ==> ParseFrame(line) == Some((Trim(line[start..at + 17]), l, c))
  {
    hide Find, LeadingNumbers, PathStart, Split, ParseNat, Trim;
  }

  lemma FrameFrom1(line: string, at: nat, nums: string, start: nat, l: nat)
    requires |line| >= at + 18 && Find(line, DIST_ENTRY + ":", 0) == Some(at)
    requires LeadingNumbers(line[at + 18..]) == nums && PathStart(line[..at]) == start <= at
    requires Split(nums, ':') == [nums] && ParseNat(nums, U32_MAX) == Some(l)
    ensures ParseFrame(line) == Some((Trim(line[start..at + 17]), l, 0))
  {
    assert ParseNat("", U32_MAX).None?;
    hide Find, LeadingNumbers, PathStart, Split, ParseNat, Trim;
  }

  lemma FrameFrom0(line: string, at: nat, nums: string)
    requires |line| >= at + 18 && Find(line, DIST_ENTRY + ":", 0) == Some(at)
    requires LeadingNumbers(line[at + 18..]) == nums && Split(nums, ':') == [nums] && ParseNat(nums, U32_MAX).None?
    ensures ParseFrame(line).None?
  {
    hide Find, LeadingNumbers, PathStart, Split, ParseNat, Trim;
  }

  lemma OneNumber(nums: string, l: nat)
    requires l <= U32_MAX && nums == Decimal(l)
    ensures NumberChars(nums) && Split(nums, ':') == [nums] && ParseNat(nums, U32_MAX) == Some(l)
  {
    Calendar.NotADigit(nums, ':');
    hide Decimal, Split, ParseNat;
    SplitPlain(nums, ':');
    ParseOfDecimal(l, U32_MAX);
  }

  lemma TwoNumbers(nums: string, l: nat, c: nat)
    requires l <= U32_MAX && c <= U32_MAX && nums == Decimal(l) + ":" + Decimal(c)
    ensures NumberChars(nums)
    ensures var parts := Split(nums, ':');
            |parts| == 2 && ParseNat(parts[0], U32_MAX) == Some(l) && ParseNat(parts[1], U32_MAX) == Some(c)
  {
    var a, b := Decimal(l), Decimal(c);
    Calendar.NotADigit(a, ':');
    Calendar.NotADigit(b, ':');
    hide Decimal, Split, ParseNat;
    SplitAtFirst(a, ':', b);
    SplitPlain(b, ':');
    ParseOfDecimal(l, U32_MAX);
    ParseOfDecimal(c, U32_MAX);
    assert nums == a + [':'] + b;
  }

  lemma PathTrims(dir: string)
    requires forall i | 0 <= i < |dir| :: !Space(dir[i])
    ensures Trim(dir + "dist/extension.js") == dir + "dist/extension.js"
  {
    var path := dir + "dist/extension.js";
    assert path[|path| - 1] == 's' && !Space('s') && !Space('d');
    assert path[0] == if dir == "" then 'd' else dir[0];
  }

  // --- the directory above dist ------------------------------------------------------------------

  lemma {:induction false} SplitOfSum(a: string, sep: char, b: string)
    ensures Split(a + [sep] + b, sep) == Split(a, sep) + Split(b, sep)
  {
    var s := a + [sep] + b;
    if a == "" {
      assert s[1..] == b && s[0] == sep;
    } else {
      assert s[1..] == a[1..] + [sep] + b && s[0] == a[0];
      SplitOfSum(a[1..], sep, b);
    }
  }

  lemma {:induction false} NamePartsOfSum(a: seq<string>, b: seq<string>)
    ensures NameParts(a + b) == NameParts(a) + NameParts(b)
  {
    if a == [] {
      assert a + b == b;
    } else {
      assert (a + b)[1..] == a[1..] + b;
      NamePartsOfSum(a[1..], b);
    }
  }

  /** The extension of a deployed bundle is named by the directory above its `dist`. */
  lemma SlugIsDirectory(dir: string, slug: string)
    requires slug != "" && slug != "." && slug != ".." && '/' !in slug
    ensures SlugOf(dir + "/" + slug + "/dist/extension.js") == Some(slug)
  {
    var last := [slug, "dist", "extension.js"];
    assert NameParts(last) == last by { NamePartsKeep(last); }
    hide *;
    DistParts(dir, slug);
    ThreeParts(slug, "dist", "extension.js");
    SplitOfSum(dir, '/', slug + ['/'] + ("dist" + ['/'] + "extension.js"));
    NamePartsOfSum(Split(dir, '/'), last);
    SlugFrom(dir + "/" + slug + "/dist/extension.js", NameParts(Split(dir, '/')), slug);
  }

  lemma SlugFrom(path: string, above: seq<string>, slug: string)
    requires NameParts(Split(path, '/')) == above + [slug, "dist", "extension.js"] && slug != ".."
    ensures SlugOf(path) == Some(slug)
  {
    hide NameParts, Split;
  }

  lemma ThreeParts(a: string, b: string, c: string)
    requires '/' !in a && '/' !in b && '/' !in c
    ensures Split(a + ['/'] + (b + ['/'] + c), '/') == [a, b, c]
  {
    hide Split;
    SplitAtFirst(a, '/', b + ['/'] + c);
    SplitAtFirst(b, '/', c);
    SplitPlain(c, '/');
  }

  lemma DistParts(dir: string, slug: string)
    ensures dir + "/" + slug + "/dist/extension.js" == dir + ['/'] + (slug + ['/'] + ("dist" + ['/'] + "extension.js"))
    ensures '/' !in "dist" && '/' !in "extension.js"
  {
    assert "/dist/extension.js" == "/" + "dist" + "/" + "extension.js";
  }

  lemma {:induction false} NamePartsKeep(parts: seq<string>)
    requires forall i | 0 <= i < |parts| :: parts[i] != "" && parts[i] != "."
    ensures NameParts(parts) == parts
  {
    if parts != [] { NamePartsKeep(parts[1..]); }
  }

  /** Empty components and single dots do not count, and without a directory above there is no name. */
  lemma SlugExactly(path: string, above: seq<string>, x: string, y: string, z: string)
    ensures NameParts(Split(path, '/')) == above + [x, y, z] ==> SlugOf(path) == if x == ".." then None else Some(x)
    ensures |NameParts(Split(path, '/'))| < 3 ==> SlugOf(path).None?
  {
    hide NameParts, Split;
  }

  lemma NamePartsSkip(a: seq<string>, part: string, b: seq<string>)
    ensures NameParts(a + [part] + b)
         == if part == "" || part == "." then NameParts(a) + NameParts(b) else NameParts(a) + [part] + NameParts(b)
  {
    NamePartsOfSum(a + [part], b);
    NamePartsOfSum(a, [part]);
    assert [part][1..] == [];
    assert NameParts([part]) == if part == "" || part == "." then [] else [part];
  }

  // --- what a block has gathered -------------------------------------------------------------------

  /** The tag of the last tagged line. */
  function LastTag(lines: seq<string>): Option<string> {
    if lines == [] then None
    else
      var last := lines[|lines| - 1];
      if Timestamped(last) && !Banner(MessageOf(last)) && StripTag(MessageOf(last)).Some?
      then Some(StripTag(MessageOf(last)).value.0)
      else LastTag(lines[..|lines| - 1])
  }

  /** What line `k` of the block that line `i` opens could say: the header's message, or a
      continuation without the white space around it. */
  function Said(lines: seq<string>, i: nat, k: nat): string
    requires i <= k < |lines| && Timestamped(lines[i])
  {
    if k == i then MessageOf(lines[i]) else Trim(lines[k])
  }

  /** The message of the block: the first thing said that is an "Error:". */
  predicate IsBlockMessage(lines: seq<string>, i: nat, message: Option<string>)
    requires i < |lines| && Timestamped(lines[i])
  {
    match message
    case None => forall k | i <= k < |lines| :: !OccursAt(Said(lines, i, k), "Error:", 0)
    case Some(m) =>
      exists k | i <= k < |lines| ::
        Said(lines, i, k) == m && OccursAt(m, "Error:", 0)
        && forall j | i <= j < k :: !OccursAt(Said(lines, i, j), "Error:", 0)
  }

  lemma FedRemembers(p: Parser, line: string, now: nat, mapper: Mapper)
    ensures var q := Fed(p, line, now, mapper).0;
            && q.lastExt == (if Timestamped(line) && !Banner(MessageOf(line)) && StripTag(MessageOf(line)).Some?
                             then Some(StripTag(MessageOf(line)).value.0) else p.lastExt)
            && (Header(line) ==>
                  q.excMessage == if OccursAt(MessageOf(line), "Error:", 0) then Some(MessageOf(line)) else None)
            && (!Timestamped(line) && p.inException ==>
                  q.excMessage == if p.excMessage.None? && OccursAt(Trim(line), "Error:", 0) then Some(Trim(line))
                                  else p.excMessage)
  {
    hide ParseEntry, StripTag, ExtractTag, Banner, ParseFrame, Trim, SlugOf, Decimal;
    TimestampIgnoresNow(line, now);
  }

  lemma MessageGrows(lines: seq<string>, i: nat, before: Option<string>, after: Option<string>)
    requires i < |lines| - 1 && Timestamped(lines[i])
    requires IsBlockMessage(lines[..|lines| - 1], i, before)
    requires after == if before.None? && OccursAt(Trim(lines[|lines| - 1]), "Error:", 0)
                      then Some(Trim(lines[|lines| - 1])) else before
    ensures IsBlockMessage(lines, i, after)
  {
    hide Timestamped, Trim, OccursAt;
    var front := lines[..|lines| - 1];
    assert forall k | i <= k < |front| :: Said(lines, i, k) == Said(front, i, k);
    if before.None? && OccursAt(Trim(lines[|lines| - 1]), "Error:", 0) {
      assert Said(lines, i, |lines| - 1) == after.value;
    }
  }

  /** After any stream the parser remembers the last tag, and for an open block its message. */
  lemma {:induction false} RunRemembers(lines: seq<string>, clock: nat -> nat, maps: nat -> Mapper)
    ensures var p := Run(lines, clock, maps).0;
            && p.lastExt == LastTag(lines)
            && (OpenBlock(lines).Some? ==>
                  Timestamped(lines[OpenBlock(lines).value])
                  && IsBlockMessage(lines, OpenBlock(lines).value, p.excMessage))
  {
    hide Fed, Header, Timestamped, StripTag, Banner, MessageOf, Trim;
    OpenBlockIsOpen(lines);
    if lines != [] {
      var n := |lines| - 1;
      var front, last := lines[..n], lines[n];
      var p := Run(front, clock, maps).0;
      RunRemembers(front, clock, maps);
      RunFollowsBlocks(front, clock, maps);
      FedRemembers(p, last, clock(n), maps(n));
      HeaderIsTimestamped(last);
      if OpenBlock(lines).Some? {
        if Header(last) && Timestamped(last) {
          OpenBlockIsTheOnlyOpen(lines, n);
          assert Said(lines, n, n) == MessageOf(last);
        } else {
          MessageGrows(lines, OpenBlock(lines).value, p.excMessage, Run(lines, clock, maps).0.excMessage);
        }
      }
    }
  }

  /** The activation failure that a stream makes its last line emit, if it emits anything there:
      it is attributed to the last tag, or else to the directory of the bundle, mapped through
      that extension's source map, and says the block's first "Error:". */
  lemma FailureIs(lines: seq<string>, clock: nat -> nat, maps: nat -> Mapper) returns (message: Option<string>)
    requires lines != [] && !Timestamped(lines[|lines| - 1])
    ensures |Run(lines, clock, maps).1| == |lines|
    ensures var out := Run(lines, clock, maps).1[|lines| - 1];
            out != [] ==>
              && OpenBlock(lines).Some? && Timestamped(lines[OpenBlock(lines).value])
              && IsBlockMessage(lines, OpenBlock(lines).value, message)
              && ParseFrame(lines[|lines| - 1]).Some?
              && out == [FailureOf(ParseFrame(lines[|lines| - 1]).value, LastTag(lines[..|lines| - 1]), message,
                                   clock(|lines| - 1), maps(|lines| - 1))]
  {
    hide ParseEntry, Trim, SlugOf, Decimal, ParseFrame, Header, Timestamped, Fed, FailureOf, IsBlockMessage, LastTag;
    var n := |lines| - 1;
    var front, last := lines[..n], lines[n];
    var p := Run(front, clock, maps).0;
    message := Run(lines, clock, maps).0.excMessage;
    RunFollowsBlocks(front, clock, maps);
    RunFollowsBlocks(lines, clock, maps);
    RunRemembers(front, clock, maps);
    RunRemembers(lines, clock, maps);
    TimestampIgnoresNow(last, clock(n));
    FailureOfIs(p, last, clock(n), maps(n));
  }

  function FailureOf(frame: (string, nat, nat), tag: Option<string>, message: Option<string>, now: nat, mapper: Mapper)
    : LogLine
  {
    var (path, line, col) := frame;
    var ext := if tag.Some? then tag else SlugOf(path);
    var mapped := mapper(ext, path, line, col);
    var said := if message.Some? then message.value else "uncaught exception in activate()";
    var at := if mapped.None? then "" else " (" + mapped.value.file + ":" + Decimal(mapped.value.line) + ")";
    LogLine(now, Error, ext, Lifecycle, "activate() failed: " + said + at, mapped)
  }

  lemma FailureOfIs(p: Parser, line: string, now: nat, mapper: Mapper)
    requires ParseEntry(line, now).None?
    ensures var (q, out) := Fed(p, line, now, mapper);
            out != [] ==>
              && ParseFrame(line).Some? && p.inException && q.inException
              && out == [FailureOf(ParseFrame(line).value, p.lastExt, q.excMessage, now, mapper)]
  {
    hide ParseEntry, Trim, SlugOf, Decimal, ParseFrame;
  }
}
