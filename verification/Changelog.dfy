/** The changelog check: a substring scan that jumps over each rejected match. */
module Changelog {
  import opened Text

  predicate VersionChar(c: char) { IsDigit(c) || c == '.' }

  predicate BeforeOk(body: string, at: nat)
    requires at <= |body|
  {
    at == 0 || !VersionChar(body[at - 1])
  }

  predicate AfterOk(body: string, end: nat)
    requires end <= |body|
  {
    end == |body| ||
    (!IsDigit(body[end]) && (body[end] == '.' ==> end + 1 == |body| || !IsDigit(body[end + 1])))
  }

  /** A mention: an occurrence that no neighbouring character extends into another version. */
  predicate MentionAt(body: string, needle: string, at: int) {
    OccursAt(body, needle, at) && BeforeOk(body, at) && AfterOk(body, at + |needle|)
  }

  ghost predicate Mentioned(body: string, needle: string) {
    exists at :: MentionAt(body, needle, at)
  }

  /** What the scan finds from `from` on. */
  function ScanFrom(body: string, needle: string, from: nat): bool
    requires needle != "" && from <= |body|
    decreases |body| - from
  {
    match Find(body, needle, from)
    case None => false
    case Some(at) => MentionAt(body, needle, at) || ScanFrom(body, needle, at + |needle|)
  }

  lemma OccurrenceFits(body: string, needle: string, at: int)
    requires OccursAt(body, needle, at)
    ensures 0 <= at && at + |needle| <= |body|
  {
  }

  method ChangelogMentions(body: string, needle: string) returns (found: bool)
    requires needle != ""
    ensures found == ScanFrom(body, needle, 0)
    ensures found ==> Mentioned(body, needle)
    ensures Jumpable(needle) ==> (found <==> Mentioned(body, needle))
  {
    hide BeforeOk, AfterOk, Find, OccursAt, Mentioned, Jumpable;
    if Jumpable(needle) { ScanIsExact(body, needle); }
    if ScanFrom(body, needle, 0) { ScanIsSound(body, needle, 0); }
    var from := 0;
    while true
      invariant 0 <= from <= |body|
      invariant ScanFrom(body, needle, from) == ScanFrom(body, needle, 0)
      decreases |body| - from
    {
      var pos := Find(body, needle, from);
      if pos.None? {
        return false;
      }
      var at := pos.value;
      assert OccursAt(body, needle, at) && at + |needle| <= |body| by { OccurrenceFits(body, needle, at); }
      var after := at + |needle|;
      var beforeOk := BeforeOk(body, at);
      var afterOk := AfterOk(body, after);
      if beforeOk && afterOk {
        return true;
      }
      from := after;
    }
  }

  // --- what counts as a mention ------------------------------------------------------------

  /** No digit or dot stands before, and nothing after makes it a longer version: no digit, and
      no dot before a digit. */
  predicate StandsAlone(a: string, b: string) {
    && (a == "" || (a[|a| - 1] != '.' && !('0' <= a[|a| - 1] <= '9')))
    && (b == "" || !('0' <= b[0] <= '9'))
    && (|b| < 2 || b[0] != '.' || !('0' <= b[1] <= '9'))
  }

  lemma MentionAtAlone(body: string, needle: string, at: nat)
    requires OccursAt(body, needle, at)
    ensures MentionAt(body, needle, at) <==> StandsAlone(body[..at], body[at + |needle|..])
  {
  }

  /** A version is mentioned exactly where it stands alone. */
  lemma MentionsExactly(body: string, needle: string)
    ensures Mentioned(body, needle) <==> exists a, b :: body == a + needle + b && StandsAlone(a, b)
  {
    hide StandsAlone, BeforeOk, AfterOk;
    if Mentioned(body, needle) {
      var at :| MentionAt(body, needle, at);
      MentionAtAlone(body, needle, at);
      assert body == body[..at] + needle + body[at + |needle|..];
    }
    if a, b :| body == a + needle + b && StandsAlone(a, b) {
      assert body[|a|..|a| + |needle|] == needle && body[..|a|] == a && body[|a| + |needle|..] == b;
      MentionAtAlone(body, needle, |a|);
    }
  }

  /** A version that goes on to the left, or to the right, is another version: a text of digits and
      dots that is longer and neither ends in a dot nor has two in a row mentions no part of it. */
  lemma LongerVersionIsNoMention(body: string, needle: string)
    requires (forall i | 0 <= i < |body| :: VersionChar(body[i])) && |body| > |needle| && body[|body| - 1] != '.'
    requires forall i | 0 < i < |body| :: body[i - 1] != '.' || body[i] != '.'
    ensures !Mentioned(body, needle)
  {
    forall at | OccursAt(body, needle, at)
      ensures !MentionAt(body, needle, at)
    {
      var end := at + |needle|;
      if at > 0 {
        assert VersionChar(body[at - 1]);
      } else {
        assert VersionChar(body[end]);
      }
    }
  }

  // --- when jumping loses nothing -------------------------------------------------------

  /** The needle overlaps itself when moved right by `k`. */
  predicate Border(needle: string, k: nat) {
    0 < k < |needle| && needle[k..] == needle[..|needle| - k]
  }

  /** Wherever the needle can overlap itself, the overlapping copy starts after a digit or
      a dot, so it could not have been a mention anyway. A caller can check this. */
  predicate Jumpable(needle: string) {
    forall k | 0 < k < |needle| && Border(needle, k) :: VersionChar(needle[k - 1])
  }

  lemma OverlapIsBorder(body: string, needle: string, at: nat, later: nat)
    requires OccursAt(body, needle, at) && OccursAt(body, needle, later)
    requires at < later < at + |needle|
    ensures Border(needle, later - at) && body[later - 1] == needle[later - at - 1]
  {
    var k := later - at;
    forall i | 0 <= i < |needle| - k
      ensures needle[k..][i] == needle[..|needle| - k][i]
    {
      assert needle[k + i] == body[at..at + |needle|][k + i] == body[later..later + |needle|][i] == needle[i];
    }
    assert needle[k - 1] == body[at..at + |needle|][k - 1];
  }

  lemma {:induction false} ScanFindsLater(body: string, needle: string, from: nat, at: nat)
    requires needle != "" && from <= at && Jumpable(needle) && MentionAt(body, needle, at)
    ensures ScanFrom(body, needle, from)
    decreases |body| - from
  {
    var first := Find(body, needle, from).value;
    if first != at {
      if at < first + |needle| {
        OverlapIsBorder(body, needle, first, at);
      } else {
        ScanFindsLater(body, needle, first + |needle|, at);
      }
    }
  }

  lemma {:induction false} ScanIsSound(body: string, needle: string, from: nat)
    requires needle != "" && from <= |body| && ScanFrom(body, needle, from)
    ensures Mentioned(body, needle)
    decreases |body| - from
  {
    var at := Find(body, needle, from).value;
    if MentionAt(body, needle, at) {
    } else {
      ScanIsSound(body, needle, at + |needle|);
    }
  }

  /** For a needle that passes the test, the scan is right about every text. */
  lemma ScanIsExact(body: string, needle: string)
    requires needle != "" && Jumpable(needle)
    ensures ScanFrom(body, needle, 0) <==> Mentioned(body, needle)
  {
    if ScanFrom(body, needle, 0) {
      ScanIsSound(body, needle, 0);
    }
    if Mentioned(body, needle) {
      var at :| MentionAt(body, needle, at);
      ScanFindsLater(body, needle, 0, at);
    }
  }

  /** A text on which a needle that fails the test is missed: a rejected copy, overlapped
      by a good one. */
  function MissedText(needle: string, k: nat): string
    requires k <= |needle|
  {
    "." + needle[..k] + needle
  }

  lemma MissedTextIsMissed(needle: string, k: nat)
    requires Border(needle, k) && !VersionChar(needle[k - 1]) && IsDigit(needle[0])
    ensures Mentioned(MissedText(needle, k), needle) && !ScanFrom(MissedText(needle, k), needle, 0)
  {
    var body, n := MissedText(needle, k), |needle|;
    MissedTextOccurrences(needle, k);
    assert body[k] == needle[k - 1] && body[0] == '.';
    hide MissedText, OccursAt, Border;
    assert MentionAt(body, needle, k + 1);
    assert Find(body, needle, 0) == Some(1);
    assert !BeforeOk(body, 1);
    assert Find(body, needle, n + 1).None?;
  }

  /** The needle occurs at 1 and at k + 1, not at 0, and has no room after n + 1. */
  lemma MissedTextOccurrences(needle: string, k: nat)
    requires Border(needle, k) && IsDigit(needle[0])
    ensures var body, n := MissedText(needle, k), |needle|;
            && |body| == k + 1 + n
            && !OccursAt(body, needle, 0) && OccursAt(body, needle, 1) && OccursAt(body, needle, k + 1)
            && forall at | at > k + 1 :: !OccursAt(body, needle, at)
  {
    var body, n := MissedText(needle, k), |needle|;
    assert body[k + 1..k + 1 + n] == needle;
    assert body[1..n + 1] == needle by {
      assert needle == needle[..k] + needle[k..] == needle[..k] + needle[..n - k];
      assert body[1..n + 1] == needle[..k] + needle[..n - k];
    }
    assert !OccursAt(body, needle, 0) by { assert body[0..n][0] == '.' != needle[0]; }
  }

  /** Exactly which version strings (they all start with a digit) the scan is right about
      on every text: those that pass the test. */
  lemma RightOnEveryText(needle: string)
    requires needle != "" && IsDigit(needle[0])
    ensures (forall body :: ScanFrom(body, needle, 0) == Mentioned(body, needle)) <==> Jumpable(needle)
  {
    if Jumpable(needle) {
      forall body ensures ScanFrom(body, needle, 0) == Mentioned(body, needle) {
        ScanIsExact(body, needle);
      }
    } else {
      var k :| Border(needle, k) && !VersionChar(needle[k - 1]);
      MissedTextIsMissed(needle, k);
    }
  }

  /** Every version made of digits and dots passes the test. */
  lemma PlainVersionsAreJumpable(body: string, needle: string)
    requires needle != "" && forall i | 0 <= i < |needle| :: VersionChar(needle[i])
    ensures ScanFrom(body, needle, 0) <==> Mentioned(body, needle)
  {
    ScanIsExact(body, needle);
  }

  /** A pre-release can fail it: 1.0.0-1.0.0 is missed in a text that mentions it. */
  lemma PreReleaseMissed()
    ensures Mentioned(".1.0.0-1.0.0-1.0.0", "1.0.0-1.0.0") && !ScanFrom(".1.0.0-1.0.0-1.0.0", "1.0.0-1.0.0", 0)
  {
    var needle := "1.0.0-1.0.0";
    assert needle[6..] == needle[..5] && needle[5] == '-';
    assert MissedText(needle, 6) == ".1.0.0-1.0.0-1.0.0";
    MissedTextIsMissed(needle, 6);
  }
}
