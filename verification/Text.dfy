/** Strings as the rest of the project uses them: decimal numerals, substring
    search, and splitting at a separator character. */
module Text {

  datatype Option<+T> = None | Some(value: T)

  // --- decimal numerals -------------------------------------------------------

  predicate IsDigit(c: char) { '0' <= c <= '9' }

  function DigitChar(d: nat): char
    requires d < 10
  {
    ('0' as int + d) as char
  }

  function DigitValue(c: char): nat
    requires IsDigit(c)
  {
    c as int - '0' as int
  }

  predicate AllDigits(s: string) { forall i | 0 <= i < |s| :: IsDigit(s[i]) }

  /** `{n}` as the format macros print an unsigned integer. */
  function Decimal(n: nat): (s: string)
    ensures |s| > 0 && AllDigits(s)
  {
    if n < 10 then [DigitChar(n)] else Decimal(n / 10) + [DigitChar(n % 10)]
  }

  function Value(s: string): nat
    requires AllDigits(s)
  {
    if s == [] then 0 else Value(s[..|s| - 1]) * 10 + DigitValue(s[|s| - 1])
  }

  /** `str::parse` for an unsigned integer whose largest value is `max`. A leading
      `+` is accepted, as the standard library does. */
  function ParseNat(s: string, max: nat): Option<nat> {
    var t := if |s| > 0 && s[0] == '+' then s[1..] else s;
    if |t| > 0 && AllDigits(t) && Value(t) <= max then Some(Value(t)) else None
  }

  lemma {:induction false} ValueOfDecimal(n: nat)
    ensures Value(Decimal(n)) == n
  {
    if n >= 10 {
      ValueOfDecimal(n / 10);
      var s := Decimal(n);
      assert s[..|s| - 1] == Decimal(n / 10);
    } else {
      assert Decimal(n)[..0] == [];
    }
  }

  lemma ParseOfDecimal(n: nat, max: nat)
    requires n <= max
    ensures ParseNat(Decimal(n), max) == Some(n)
  {
    ValueOfDecimal(n);
    assert IsDigit(Decimal(n)[0]);
  }

  /** The text is these digits, with an optional plus, and their value fits. */
  predicate NumberText(s: string, digits: string, max: nat) {
    (s == digits || s == "+" + digits) && digits != "" && AllDigits(digits) && Value(digits) <= max
  }

  /** Exactly what is read as a number, and as which. */
  lemma ParseNatExactly(s: string, max: nat)
    ensures ParseNat(s, max).Some? <==> exists digits :: NumberText(s, digits, max)
    ensures forall digits | NumberText(s, digits, max) :: ParseNat(s, max) == Some(Value(digits))
  {
    if ParseNat(s, max).Some? {
      var t := if |s| > 0 && s[0] == '+' then s[1..] else s;
      assert NumberText(s, t, max);
    }
    forall digits | NumberText(s, digits, max)
      ensures ParseNat(s, max) == Some(Value(digits))
    {
      assert IsDigit(digits[0]);
      assert ("+" + digits)[1..] == digits && ("+" + digits)[0] == '+';
    }
  }

  lemma DecimalInjective(m: nat, n: nat)
    requires Decimal(m) == Decimal(n)
    ensures m == n
  {
    ValueOfDecimal(m);
    ValueOfDecimal(n);
  }

  // --- substrings -------------------------------------------------------------

  predicate OccursAt(body: string, needle: string, at: int) {
    0 <= at && at + |needle| <= |body| && body[at..at + |needle|] == needle
  }

  lemma OneCharOccurs(s: string, c: char, at: int)
    ensures OccursAt(s, [c], at) <==> 0 <= at < |s| && s[at] == c
  {
    if 0 <= at < |s| { assert s[at..at + 1] == [s[at]]; }
  }

  /** `body[from..].find(needle)`, as an absolute index. */
  function Find(body: string, needle: string, from: nat): (r: Option<nat>)
    ensures r.Some? ==> from <= r.value && OccursAt(body, needle, r.value)
    ensures r.Some? ==> forall i | from <= i < r.value :: !OccursAt(body, needle, i)
    ensures r.None? ==> forall i | from <= i :: !OccursAt(body, needle, i)
    decreases |body| - from
  {
    if from + |needle| > |body| then None
    else if OccursAt(body, needle, from) then Some(from)
    else Find(body, needle, from + 1)
  }

  predicate Contains(body: string, needle: string) { Find(body, needle, 0).Some? }

  predicate StartsWith(s: string, prefix: string) { OccursAt(s, prefix, 0) }

  predicate EndsWith(s: string, suffix: string) { OccursAt(s, suffix, |s| - |suffix|) }

  /** `split_once(sep)`. */
  function SplitOnce(s: string, sep: string): Option<(string, string)> {
    match Find(s, sep, 0)
    case None => None
    case Some(i) => Some((s[..i], s[i + |sep|..]))
  }

  lemma SplitOnceAt(a: string, c: char, b: string)
    requires c !in a
    ensures SplitOnce(a + [c] + b, [c]) == Some((a, b))
  {
    var s := a + [c] + b;
    assert OccursAt(s, [c], |a|);
    var i := Find(s, [c], 0).value;
    assert s[i] == s[i..i + 1][0] == c;
    assert s[..|a|] == a && s[|a| + 1..] == b;
  }

  lemma SliceSplit(s: string, i: nat, j: nat, k: nat)
    requires i <= j <= k <= |s|
    ensures s[i..k] == s[i..j] + s[j..k]
  {
  }

  // --- splitting at a character -------------------------------------------------

  /** `s.split(sep)` collected: always at least one part. */
  function Split(s: string, sep: char): (parts: seq<string>)
    ensures |parts| > 0
  {
    if s == [] then [""]
    else
      var rest := Split(s[1..], sep);
      if s[0] == sep then [""] + rest else [[s[0]] + rest[0]] + rest[1..]
  }

  function Join(parts: seq<string>, sep: char): string {
    if parts == [] then ""
    else if |parts| == 1 then parts[0]
    else parts[0] + [sep] + Join(parts[1..], sep)
  }

  lemma {:induction false} SplitPlain(a: string, sep: char)
    requires sep !in a
    ensures Split(a, sep) == [a]
  {
    if a != [] {
      SplitPlain(a[1..], sep);
      assert [a[0]] + a[1..] == a;
    }
  }

  lemma {:induction false} SplitAtFirst(a: string, sep: char, b: string)
    requires sep !in a
    ensures Split(a + [sep] + b, sep) == [a] + Split(b, sep)
  {
    var s := a + [sep] + b;
    if a == [] {
      assert s[1..] == b;
    } else {
      SplitAtFirst(a[1..], sep, b);
      assert s[1..] == a[1..] + [sep] + b;
      assert [a[0]] + a[1..] == a;
    }
  }

  lemma {:induction false} SplitOfJoin(parts: seq<string>, sep: char)
    requires |parts| > 0
    requires forall i | 0 <= i < |parts| :: sep !in parts[i]
    ensures Split(Join(parts, sep), sep) == parts
  {
    if |parts| == 1 {
      SplitPlain(parts[0], sep);
    } else {
      SplitOfJoin(parts[1..], sep);
      SplitAtFirst(parts[0], sep, Join(parts[1..], sep));
      assert [parts[0]] + parts[1..] == parts;
    }
  }
}
