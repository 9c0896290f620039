/** Version precedence (SemVer 2.0.0, section 11). */
module SemVer {
  datatype Ident = Number(n: nat) | Word(s: string)

  /** A pre-release is a non-empty list of identifiers. */
  datatype Version = Version(major: nat, minor: nat, patch: nat, pre: seq<Ident>)

  /** ASCII order of words. */
  predicate WordLess(a: string, b: string) {
    b != "" && (a == "" || a[0] < b[0] || (a[0] == b[0] && WordLess(a[1..], b[1..])))
  }

  /** Numbers come before words. */
  predicate IdentLess(a: Ident, b: Ident) {
    match (a, b)
    case (Number(m), Number(n)) => m < n
    case (Number(_), Word(_)) => true
    case (Word(_), Number(_)) => false
    case (Word(s), Word(t)) => WordLess(s, t)
  }

  predicate PreLess(a: seq<Ident>, b: seq<Ident>) {
    b != [] && (a == [] || IdentLess(a[0], b[0]) || (a[0] == b[0] && PreLess(a[1..], b[1..])))
  }

  /** A pre-release comes before the release itself. */
  predicate Less(a: Version, b: Version) {
    if a.major != b.major then a.major < b.major
    else if a.minor != b.minor then a.minor < b.minor
    else if a.patch != b.patch then a.patch < b.patch
    else if a.pre == [] || b.pre == [] then a.pre != [] && b.pre == []
    else PreLess(a.pre, b.pre)
  }

  lemma {:induction false} WordOrder(a: string, b: string)
    ensures !(WordLess(a, b) && WordLess(b, a)) && (a == b || WordLess(a, b) || WordLess(b, a))
    ensures WordLess(a, b) ==> a != b
  {
    if a != "" && b != "" && a[0] == b[0] {
      WordOrder(a[1..], b[1..]);
      assert a == [a[0]] + a[1..] && b == [b[0]] + b[1..];
    }
  }

  lemma {:induction false} PreOrder(a: seq<Ident>, b: seq<Ident>)
    ensures !(PreLess(a, b) && PreLess(b, a)) && (a == b || PreLess(a, b) || PreLess(b, a))
    ensures PreLess(a, b) ==> a != b
  {
    if a != [] && b != [] {
      if a[0].Word? && b[0].Word? { WordOrder(a[0].s, b[0].s); }
      if a[0] == b[0] {
        PreOrder(a[1..], b[1..]);
        assert a == [a[0]] + a[1..] && b == [b[0]] + b[1..];
      }
    }
  }

  /** Of two different versions exactly one precedes the other. */
  lemma Trichotomy(a: Version, b: Version)
    ensures !(Less(a, b) && Less(b, a)) && (Less(a, b) || Less(b, a) <==> a != b)
  {
    PreOrder(a.pre, b.pre);
  }

  lemma {:induction false} WordTransitive(a: string, b: string, c: string)
    requires WordLess(a, b) && WordLess(b, c)
    ensures WordLess(a, c)
  {
    if a != "" && a[0] == b[0] == c[0] { WordTransitive(a[1..], b[1..], c[1..]); }
  }

  lemma {:induction false} PreTransitive(a: seq<Ident>, b: seq<Ident>, c: seq<Ident>)
    requires PreLess(a, b) && PreLess(b, c)
    ensures PreLess(a, c)
  {
    if a != [] {
      if IdentLess(a[0], b[0]) && IdentLess(b[0], c[0]) && a[0].Word? && b[0].Word? && c[0].Word? {
        WordTransitive(a[0].s, b[0].s, c[0].s);
      }
      if a[0] == b[0] == c[0] {
        if a[0].Word? { WordOrder(a[0].s, a[0].s); }
        PreTransitive(a[1..], b[1..], c[1..]);
      }
    }
  }

  lemma Transitive(a: Version, b: Version, c: Version)
    requires Less(a, b) && Less(b, c)
    ensures Less(a, c)
  {
    if a.pre != [] && b.pre != [] && c.pre != [] && PreLess(a.pre, b.pre) && PreLess(b.pre, c.pre) {
      PreTransitive(a.pre, b.pre, c.pre);
    }
  }

  // --- what section 11 says, clause by clause ------------------------------------------------------

  /** The first difference among major, minor and patch decides, whatever else there is. */
  lemma NumbersDecide(a: Version, b: Version)
    ensures a.major < b.major ==> Less(a, b) && !Less(b, a)
    ensures a.major == b.major && a.minor < b.minor ==> Less(a, b) && !Less(b, a)
    ensures a.major == b.major && a.minor == b.minor && a.patch < b.patch ==> Less(a, b) && !Less(b, a)
  {
  }

  /** A pre-release comes before its release. */
  lemma PreReleaseFirst(major: nat, minor: nat, patch: nat, pre: seq<Ident>)
    requires pre != []
    ensures Less(Version(major, minor, patch, pre), Version(major, minor, patch, []))
    ensures !Less(Version(major, minor, patch, []), Version(major, minor, patch, pre))
  {
  }

  /** Numbers by size, words by the first different letter or as a prefix, numbers before words. */
  predicate ComesFirst(x: Ident, y: Ident) {
    match (x, y)
    case (Number(m), Number(n)) => m < n
    case (Number(_), Word(_)) => true
    case (Word(_), Number(_)) => false
    case (Word(s), Word(t)) =>
      exists k: nat ::
        && k <= |s| && k < |t| && s[..k] == t[..k]
        && (k == |s| || s[k] < t[k])
  }

  lemma {:induction false} WordsByFirstDifference(s: string, t: string, k: nat)
    requires k <= |s| && k < |t| && s[..k] == t[..k] && (k == |s| || s[k] < t[k])
    ensures WordLess(s, t)
  {
    if k > 0 {
      assert s[0] == s[..k][0] == t[..k][0] == t[0];
      assert s[1..][..k - 1] == s[..k][1..] == t[..k][1..] == t[1..][..k - 1];
      WordsByFirstDifference(s[1..], t[1..], k - 1);
    }
  }

  lemma {:induction false} PreByFirstDifference(common: seq<Ident>, a: seq<Ident>, b: seq<Ident>)
    requires b != [] && (a == [] || ComesFirst(a[0], b[0]))
    ensures PreLess(common + a, common + b)
  {
    if common == [] {
      assert common + a == a && common + b == b;
      if a != [] && a[0].Word? && b[0].Word? {
        var k: nat :| k <= |a[0].s| && k < |b[0].s| && a[0].s[..k] == b[0].s[..k]
                      && (k == |a[0].s| || a[0].s[k] < b[0].s[k]);
        WordsByFirstDifference(a[0].s, b[0].s, k);
      }
    } else {
      assert (common + a)[1..] == common[1..] + a && (common + b)[1..] == common[1..] + b;
      PreByFirstDifference(common[1..], a, b);
    }
  }

  /** Of two pre-releases of one release, the first different identifier decides, and a list
      that goes on comes after the one that ends there. */
  lemma IdentifiersDecide(v: Version, common: seq<Ident>, a: seq<Ident>, b: seq<Ident>)
    requires common + a != [] && b != [] && (a == [] || ComesFirst(a[0], b[0]))
    ensures Less(v.(pre := common + a), v.(pre := common + b))
  {
    PreByFirstDifference(common, a, b);
  }
}
