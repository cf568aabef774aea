/**
  `getConverterVersion` (Sonus.php lines 49-66) without the process call: the
  first match of

      ffmpeg version (?P<major>[0-9]{0,3}).(?P<minor>[0-9]{0,3}).(?P<revision>[0-9]{0,3})

  in the `-version` output. The two dots are not escaped, so each matches any
  character but a line feed, and every group may be empty.
 */
module Version {
  import opened Wrappers
  import opened Text

  const Banner: string := "ffmpeg version "

  /** The bound of each group's `{0,3}` quantifier. */
  const MaxDigits: nat := 3

  /** The three captured groups, as the digit strings PHP returns. */
  datatype VersionRecord = VersionRecord(major: string, minor: string, rev: string)

  /** Greedy `[0-9]{0,cap}` at `k`: the length of the digit run there, at most `cap`. */
  function Digits(s: string, k: nat, cap: nat): (r: nat)
    requires k <= |s|
    ensures r <= cap && k + r <= |s|
    ensures forall i :: k <= i < k + r ==> IsDigit(s[i])
    ensures r < cap && k + r < |s| ==> !IsDigit(s[k + r])
    decreases cap
  {
    if cap > 0 && k < |s| && IsDigit(s[k]) then 1 + Digits(s, k + 1, cap - 1) else 0
  }

  /** The digit run is whatever stretch of digits ends where digits stop or the cap is reached. */
  lemma DigitsExact(s: string, k: nat, cap: nat, n: nat)
    requires k + n <= |s| && n <= cap
    requires forall i :: k <= i < k + n ==> IsDigit(s[i])
    requires n == cap || k + n == |s| || !IsDigit(s[k + n])
    ensures Digits(s, k, cap) == n
  {
  }

  /** PCRE's `.` without the `s` flag: any character except a line feed. */
  predicate AnyChar(c: char) {
    c != '\n'
  }

  /** Every character of `s[i..j]` is a digit. */
  predicate AllDigits(s: string, i: nat, j: nat)
    requires i <= j <= |s|
  {
    forall k :: i <= k < j ==> IsDigit(s[k])
  }

  /**
    The pattern matches at `p` with `a` digits in the major group and `b` in
    the minor group. The revision group always matches (possibly empty), so
    it does not constrain the match.
   */
  predicate Shape(s: string, p: nat, a: nat, b: nat) {
    && a <= MaxDigits && b <= MaxDigits
    && OccursAt(s, Banner, p)
    && p + |Banner| + a + 1 + b < |s|
    && AllDigits(s, p + |Banner|, p + |Banner| + a)
    && AnyChar(s[p + |Banner| + a])
    && AllDigits(s, p + |Banner| + a + 1, p + |Banner| + a + 1 + b)
    && AnyChar(s[p + |Banner| + a + 1 + b])
  }

  /** The pattern does not match at `p` at all. */
  ghost predicate NoMatchAt(s: string, p: nat) {
    forall a: nat, b: nat :: !Shape(s, p, a, b)
  }

  /**
    Among the ways of matching at `p`, (a, b) is the one PCRE's backtracking
    reaches first: greedy quantifiers try longer runs first, the major group
    before the minor group.
   */
  ghost predicate Preferred(s: string, p: nat, a: nat, b: nat) {
    && Shape(s, p, a, b)
    && forall a': nat, b': nat :: Shape(s, p, a', b') ==> a' < a || (a' == a && b' <= b)
  }

  /** A match: its start and the lengths of the major and minor groups. */
  datatype VersionMatch = VersionMatch(at: nat, major: nat, minor: nat)

  /** `preg_match`'s result: the preferred match at the leftmost position where the pattern matches. */
  ghost predicate IsFirstMatch(s: string, m: VersionMatch) {
    && Preferred(s, m.at, m.major, m.minor)
    && forall p: nat :: p < m.at ==> NoMatchAt(s, p)
  }

  /** With `a` major digits, try minor lengths `b`, `b - 1`, ..., 0 in turn. */
  function TryMinor(s: string, p: nat, a: nat, b: nat): (r: Option<nat>)
    ensures r.Some? ==> r.value <= b && Shape(s, p, a, r.value)
    ensures r.Some? ==> forall b': nat :: r.value < b' <= b ==> !Shape(s, p, a, b')
    ensures r.None? ==> forall b': nat :: b' <= b ==> !Shape(s, p, a, b')
    decreases b
  {
    if Shape(s, p, a, b) then Some(b)
    else if b == 0 then None
    else TryMinor(s, p, a, b - 1)
  }

  /** Try major lengths `a`, `a - 1`, ..., 0 in turn, each with every minor length from `MaxDigits` down. */
  function TryMajor(s: string, p: nat, a: nat): (r: Option<VersionMatch>)
    ensures r.Some? ==> r.value.at == p && r.value.major <= a && Shape(s, p, r.value.major, r.value.minor)
    ensures r.Some? ==> forall a': nat, b': nat :: Shape(s, p, a', b') && a' <= a ==>
              a' < r.value.major || (a' == r.value.major && b' <= r.value.minor)
    ensures r.None? ==> forall a': nat, b': nat :: a' <= a ==> !Shape(s, p, a', b')
    decreases a
  {
    match TryMinor(s, p, a, MaxDigits)
    case Some(b) => MinorFound(s, p, a, b); Some(VersionMatch(p, a, b))
    case None => NoMinor(s, p, a); if a == 0 then None else TryMajor(s, p, a - 1)
  }

  /** The longest minor group found with `a` major digits beats every match with at most `a`. */
  lemma MinorFound(s: string, p: nat, a: nat, b: nat)
    requires Shape(s, p, a, b)
    requires forall b': nat :: b < b' <= MaxDigits ==> !Shape(s, p, a, b')
    ensures forall a': nat, b': nat :: Shape(s, p, a', b') && a' <= a ==> a' < a || (a' == a && b' <= b)
  {
  }

  /** No minor length up to the bound means no minor length at all. */
  lemma NoMinor(s: string, p: nat, a: nat)
    requires forall b': nat :: b' <= MaxDigits ==> !Shape(s, p, a, b')
    ensures forall b': nat :: !Shape(s, p, a, b')
  {
  }

  /** The regular expression tried at position `p`. */
  function MatchAt(s: string, p: nat): (r: Option<VersionMatch>)
    ensures r.Some? ==> r.value.at == p && Preferred(s, p, r.value.major, r.value.minor)
    ensures r.None? ==> NoMatchAt(s, p)
  {
    TryMajor(s, p, MaxDigits)
  }

  /** The leftmost match at or after `p`. */
  function FindFrom(s: string, p: nat): (r: Option<VersionMatch>)
    requires p <= |s|
    ensures r.Some? ==> p <= r.value.at && Preferred(s, r.value.at, r.value.major, r.value.minor)
    ensures r.Some? ==> forall p': nat :: p <= p' < r.value.at ==> NoMatchAt(s, p')
    ensures r.None? ==> forall p': nat :: p <= p' ==> NoMatchAt(s, p')
    decreases |s| - p
  {
    match MatchAt(s, p)
    case Some(m) => Some(m)
    case None => if p == |s| then None else FindFrom(s, p + 1)
  }

  /** The three captured groups of a match. */
  function RecordOf(s: string, m: VersionMatch): (v: VersionRecord)
    requires m.at + |Banner| + m.major + m.minor + 2 <= |s|
  {
    GroupsFrom(s, m.at + |Banner|, m.major, m.minor)
  }

  /** The groups read from `q` on: `a` digits, a separator, `b` digits, a separator, the revision run. */
  function GroupsFrom(s: string, q: nat, a: nat, b: nat): VersionRecord
    requires q + a + b + 2 <= |s|
  {
    var r := q + a + b + 2;
    VersionRecord(s[q..q + a], s[q + a + 1..q + a + 1 + b], s[r..r + Digits(s, r, MaxDigits)])
  }

  /** A group value: at most three ASCII digits, possibly none. */
  predicate IsGroup(g: string) {
    |g| <= MaxDigits && forall i :: 0 <= i < |g| ==> IsDigit(g[i])
  }

  /**
    The parsed version: the groups of the first match, or `None` where PHP
    would read the groups of a failed match as undefined.
   */
  function ParseVersion(s: string): (r: Option<VersionRecord>)
    ensures r.Some? ==> IsGroup(r.value.major) && IsGroup(r.value.minor) && IsGroup(r.value.rev)
    ensures r.Some? ==> exists m :: IsFirstMatch(s, m) && r.value == RecordOf(s, m)
    ensures r.None? <==> forall p: nat :: NoMatchAt(s, p)
  {
    match FindFrom(s, 0)
    case None => None
    case Some(m) =>
      var v := RecordOf(s, m);
      assert IsFirstMatch(s, m);
      assert !NoMatchAt(s, m.at);
      RecordGroups(s, m);
      Some(v)
  }

  /** The groups of any match are digit strings of length at most three. */
  lemma RecordGroups(s: string, m: VersionMatch)
    requires Shape(s, m.at, m.major, m.minor)
    ensures var v := RecordOf(s, m); IsGroup(v.major) && IsGroup(v.minor) && IsGroup(v.rev)
  {
    var q := m.at + |Banner|;
    var r := q + m.major + 1 + m.minor + 1;
    var v := RecordOf(s, m);
    forall i | 0 <= i < |v.major| ensures IsDigit(v.major[i]) {
      assert v.major[i] == s[q + i];
    }
    forall i | 0 <= i < |v.minor| ensures IsDigit(v.minor[i]) {
      assert v.minor[i] == s[q + m.major + 1 + i];
    }
    forall i | 0 <= i < |v.rev| ensures IsDigit(v.rev[i]) {
      assert v.rev[i] == s[r + i];
    }
  }

  /** There is at most one first match. */
  lemma FirstMatchUnique(s: string, m1: VersionMatch, m2: VersionMatch)
    requires IsFirstMatch(s, m1) && IsFirstMatch(s, m2)
    ensures m1 == m2
  {
    assert !NoMatchAt(s, m1.at);
    assert !NoMatchAt(s, m2.at);
    assert m1.at == m2.at;
  }

  /** Whenever a first match exists, it is what the parser reports. */
  lemma ParseFirstMatch(s: string, m: VersionMatch)
    requires IsFirstMatch(s, m)
    ensures ParseVersion(s) == Some(RecordOf(s, m))
  {
    assert !NoMatchAt(s, m.at);
    var m' :| IsFirstMatch(s, m') && ParseVersion(s).value == RecordOf(s, m');
    FirstMatchUnique(s, m, m');
  }

  /**
    Round trip for a well-formed banner: a banner carrying dotted groups of
    up to three digits, with no earlier occurrence of "ffmpeg version " and
    no digit straight after a short revision, parses back to those groups.
   */
  lemma BannerRoundTrip(pre: string, major: string, minor: string, rev: string, post: string)
    requires IsGroup(major) && IsGroup(minor) && IsGroup(rev)
    requires |rev| < MaxDigits && |post| > 0 ==> !IsDigit(post[0])
    requires forall k: nat :: k < |pre| ==> !OccursAt(pre + Banner + major + "." + minor + "." + rev + post, Banner, k)
    ensures ParseVersion(pre + Banner + major + "." + minor + "." + rev + post) == Some(VersionRecord(major, minor, rev))
  {
    var s := pre + Banner + major + "." + minor + "." + rev + post;
    BannerText(pre, major, minor, rev, post);
    GroupsOfText(major, minor, rev, post);
    GroupsShift(s, |pre| + |Banner|, major, minor, rev);
    ParseWellFormed(s, |pre|, major, minor, rev);
  }

  /** The banner text is the prefix, then "ffmpeg version ", then the groups and the rest. */
  lemma BannerText(pre: string, major: string, minor: string, rev: string, post: string)
    ensures var s := pre + Banner + major + "." + minor + "." + rev + post;
      && OccursAt(s, Banner, |pre|)
      && s[|pre| + |Banner|..] == major + "." + minor + "." + rev + post
  {
    var t := major + "." + minor + "." + rev + post;
    var s := pre + Banner + major + "." + minor + "." + rev + post;
    assert s == pre + Banner + t;
    assert s[|pre|..|pre| + |Banner|] == Banner;
  }

  /** The groups laid out at the start of the text after the banner. */
  lemma GroupsOfText(major: string, minor: string, rev: string, post: string)
    requires |rev| < MaxDigits && |post| > 0 ==> !IsDigit(post[0])
    ensures GroupsAt(major + "." + minor + "." + rev + post, 0, major, minor, rev)
  {
    var t := major + "." + minor + "." + rev + post;
    var r := |major| + |minor| + 2;
    assert t == major + ("." + (minor + ("." + (rev + post))));
    assert t[..|major|] == major;
    assert t[|major| + 1..|major| + 1 + |minor|] == minor;
    assert t[r..r + |rev|] == rev;
    assert r + |rev| < |t| ==> t[r + |rev|] == post[0];
  }

  /** Groups found in a suffix are found in the whole text, shifted. */
  lemma GroupsShift(s: string, q: nat, major: string, minor: string, rev: string)
    requires q <= |s|
    requires GroupsAt(s[q..], 0, major, minor, rev)
    ensures GroupsAt(s, q, major, minor, rev)
  {
    var t := s[q..];
    var a, b := |major|, |minor|;
    assert s[q..q + a] == t[..a];
    assert s[q + a + 1..q + a + 1 + b] == t[a + 1..a + 1 + b];
    assert s[q + a + b + 2..q + a + b + 2 + |rev|] == t[a + b + 2..a + b + 2 + |rev|];
  }

  /** The groups of a well-formed banner at `p`, laid out from `q = p + |Banner|`. */
  predicate GroupsAt(s: string, q: nat, major: string, minor: string, rev: string) {
    && q + |major| + |minor| + 2 + |rev| <= |s|
    && s[q..q + |major|] == major
    && s[q + |major|] == '.'
    && s[q + |major| + 1..q + |major| + 1 + |minor|] == minor
    && s[q + |major| + 1 + |minor|] == '.'
    && s[q + |major| + |minor| + 2..q + |major| + |minor| + 2 + |rev|] == rev
    && (|rev| < MaxDigits && q + |major| + |minor| + 2 + |rev| < |s| ==> !IsDigit(s[q + |major| + |minor| + 2 + |rev|]))
  }

  /**
    The same round trip stated on positions: "ffmpeg version " first at `p`,
    followed by the groups separated by dots.
   */
  lemma ParseWellFormed(s: string, p: nat, major: string, minor: string, rev: string)
    requires IsGroup(major) && IsGroup(minor) && IsGroup(rev)
    requires OccursAt(s, Banner, p)
    requires forall k: nat :: k < p ==> !OccursAt(s, Banner, k)
    requires GroupsAt(s, p + |Banner|, major, minor, rev)
    ensures ParseVersion(s) == Some(VersionRecord(major, minor, rev))
  {
    var m := VersionMatch(p, |major|, |minor|);
    WellFormedShape(s, p, major, minor, rev);
    assert Preferred(s, p, |major|, |minor|) by {
      forall a': nat, b': nat | Shape(s, p, a', b') ensures a' < |major| || (a' == |major| && b' <= |minor|) {
        NoLongerGroup(s, p, |major|, |minor|, a', b');
      }
    }
    WellFormedRecord(s, p, major, minor, rev);
    ParseFirstMatch(s, m);
  }

  /** A well-formed banner matches with its own group lengths. */
  lemma WellFormedShape(s: string, p: nat, major: string, minor: string, rev: string)
    requires IsGroup(major) && IsGroup(minor)
    requires OccursAt(s, Banner, p)
    requires GroupsAt(s, p + |Banner|, major, minor, rev)
    ensures Shape(s, p, |major|, |minor|)
  {
    var q := p + |Banner|;
    GroupDigits(s, q, major);
    GroupDigits(s, q + |major| + 1, minor);
  }

  /** A group laid out at `i` makes that stretch of the text all digits. */
  lemma GroupDigits(s: string, i: nat, g: string)
    requires IsGroup(g) && i + |g| <= |s| && s[i..i + |g|] == g
    ensures AllDigits(s, i, i + |g|)
  {
    forall k | i <= k < i + |g| ensures IsDigit(s[k]) {
      assert s[k] == g[k - i];
    }
  }

  /** The record of a well-formed banner's match holds its groups. */
  lemma WellFormedRecord(s: string, p: nat, major: string, minor: string, rev: string)
    requires IsGroup(rev)
    requires GroupsAt(s, p + |Banner|, major, minor, rev)
    ensures RecordOf(s, VersionMatch(p, |major|, |minor|)) == VersionRecord(major, minor, rev)
  {
    GroupsRead(s, p + |Banner|, major, minor, rev);
  }

  /** Reading the groups back from where they are laid out gives them. */
  lemma GroupsRead(s: string, q: nat, major: string, minor: string, rev: string)
    requires IsGroup(rev)
    requires GroupsAt(s, q, major, minor, rev)
    ensures GroupsFrom(s, q, |major|, |minor|) == VersionRecord(major, minor, rev)
  {
    RevGroup(s, q + |major| + |minor| + 2, rev);
  }

  /** The greedy revision group at `r` captures `rev` when `rev` is laid out there and ends the digit run. */
  lemma RevGroup(s: string, r: nat, rev: string)
    requires IsGroup(rev) && r + |rev| <= |s| && s[r..r + |rev|] == rev
    requires |rev| < MaxDigits && r + |rev| < |s| ==> !IsDigit(s[r + |rev|])
    ensures s[r..r + Digits(s, r, MaxDigits)] == rev
  {
    GroupDigits(s, r, rev);
    DigitsExact(s, r, MaxDigits, |rev|);
  }

  /** A group cannot run past the dot that ends it. */
  lemma NoLongerGroup(s: string, p: nat, a: nat, b: nat, a': nat, b': nat)
    requires Shape(s, p, a, b) && Shape(s, p, a', b')
    requires s[p + |Banner| + a] == '.' && s[p + |Banner| + a + 1 + b] == '.'
    ensures a' < a || (a' == a && b' <= b)
  {
  }
}
