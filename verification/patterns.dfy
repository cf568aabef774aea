/**
  The three list patterns of Sonus.php, hand-compiled, and `preg_match_all`
  over them.

  - Format lines (line 79):  `(D\s|\sE|DE)\s(\S{3,11})\s`
  - Encoder lines (98, 114): `[K]([.]|\w){5}\s(\S{3,20})\s`, K = A or V
  - Decoder lines (130, 146): `[K]([.]|\w){5}\s(\w{3,20})\s`

  Every one is a fixed-width lead, then a token of one character class,
  then one whitespace character. Because the class of the token excludes
  whitespace, the greedy quantifier followed by the mandatory `\s` accepts
  exactly the whole run of the class, so a match is determined by where it
  starts and, there, by the length of that run.
 */
module Patterns {
  import opened Wrappers
  import opened Text

  /** The class of the captured token: `\S` or `\w`. */
  datatype TokenClass = NonSpace | Word

  predicate InClass(c: char, cls: TokenClass) {
    match cls
    case NonSpace => !IsSpace(c)
    case Word => IsWord(c)
  }

  datatype Pattern =
    | FormatLine                               // -formats listing
    | CodecLine(kind: char, token: TokenClass)  // -encoders / -decoders listing

  /** Width of the lead in front of the token. */
  function Lead(pat: Pattern): nat {
    match pat
    case FormatLine => 3
    case CodecLine(_, _) => 7
  }

  /** Upper bound of the token's `{3,n}` quantifier. */
  function MaxToken(pat: Pattern): nat {
    match pat
    case FormatLine => 11
    case CodecLine(_, _) => 20
  }

  const MinToken: nat := 3

  function ClassOf(pat: Pattern): TokenClass {
    match pat
    case FormatLine => NonSpace
    case CodecLine(_, cls) => cls
  }

  /** The mux alternatives `D\s`, `\sE` and `DE`. */
  predicate IsMux(t: string) {
    && |t| == 2
    && ((t[0] == 'D' && IsSpace(t[1])) || (IsSpace(t[0]) && t[1] == 'E') || (t[0] == 'D' && t[1] == 'E'))
  }

  /** One capability flag `([.]|\w)`. */
  predicate IsFlag(c: char) {
    c == '.' || IsWord(c)
  }

  /** The lead matches at `at`. */
  predicate LeadAt(pat: Pattern, s: string, at: nat)
    requires at + Lead(pat) <= |s|
  {
    match pat
    case FormatLine => IsMux(s[at..at + 2]) && IsSpace(s[at + 2])
    case CodecLine(kind, _) =>
      && s[at] == kind
      && (forall k :: at + 1 <= k < at + 6 ==> IsFlag(s[k]))
      && IsSpace(s[at + 6])
  }

  /**
    The pattern matches at `at` with a token of `n` characters: lead, `n`
    characters of the class, then whitespace. This is the declarative
    reading of the regular expression, independent of how it is searched.
   */
  predicate MatchesWith(pat: Pattern, s: string, at: nat, n: nat) {
    && at + Lead(pat) + n < |s|
    && LeadAt(pat, s, at)
    && MinToken <= n <= MaxToken(pat)
    && (forall k :: at + Lead(pat) <= k < at + Lead(pat) + n ==> InClass(s[k], ClassOf(pat)))
    && IsSpace(s[at + Lead(pat) + n])
  }

  /** A match's token is the whole run of class characters after the lead. */
  lemma TokenIsRun(pat: Pattern, s: string, at: nat, n: nat)
    ensures MatchesWith(pat, s, at, n) ==> n == Run(s, at + Lead(pat), ClassOf(pat))
  {
  }

  /** At a given position the token length is determined. */
  lemma MatchLengthUnique(pat: Pattern, s: string, at: nat, n1: nat, n2: nat)
    requires MatchesWith(pat, s, at, n1) && MatchesWith(pat, s, at, n2)
    ensures n1 == n2
  {
    TokenIsRun(pat, s, at, n1);
    TokenIsRun(pat, s, at, n2);
  }

  /** One match: where it starts and how long its token is. */
  datatype Match = Match(at: nat, len: nat)

  /** First position after the match: lead, token and the closing whitespace. */
  function End(pat: Pattern, m: Match): nat {
    m.at + Lead(pat) + m.len + 1
  }

  /** The captured token of a match. */
  function Token(pat: Pattern, s: string, m: Match): string
    requires End(pat, m) <= |s|
  {
    s[m.at + Lead(pat)..m.at + Lead(pat) + m.len]
  }

  /** Length of the run of class characters starting at `k`. */
  function Run(s: string, k: nat, cls: TokenClass): (r: nat)
    requires k <= |s|
    ensures k + r <= |s|
    ensures forall i :: k <= i < k + r ==> InClass(s[i], cls)
    ensures k + r < |s| ==> !InClass(s[k + r], cls)
    decreases |s| - k
  {
    if k < |s| && InClass(s[k], cls) then 1 + Run(s, k + 1, cls) else 0
  }

  /** The regular expression tried at one position: the token length, if it matches. */
  function MatchAt(pat: Pattern, s: string, at: nat): (r: Option<nat>)
    ensures r.Some? ==> MatchesWith(pat, s, at, r.value)
    ensures r.None? ==> forall n :: !MatchesWith(pat, s, at, n)
  {
    var t := at + Lead(pat);
    if t > |s| then None
    else
      var n := Run(s, t, ClassOf(pat));
      if LeadAt(pat, s, at) && MinToken <= n <= MaxToken(pat) && t + n < |s| && IsSpace(s[t + n]) then
        Some(n)
      else
        assert forall n': nat :: MatchesWith(pat, s, at, n') ==> n' == n by {
          forall n': nat ensures MatchesWith(pat, s, at, n') ==> n' == n {
            TokenIsRun(pat, s, at, n');
          }
        }
        None
  }

  /**
    What `preg_match_all` returns for the text from `from` on: every match is
    valid, each starts where the previous one ended or later, and every
    position at which the pattern matches lies inside one of them (so no match
    is skipped and the leftmost one is always taken).
   */
  ghost predicate IsMatchAll(pat: Pattern, s: string, from: nat, ms: seq<Match>) {
    && (forall i :: 0 <= i < |ms| ==> MatchesWith(pat, s, ms[i].at, ms[i].len))
    && (|ms| > 0 ==> from <= ms[0].at)
    && (forall i :: 0 < i < |ms| ==> End(pat, ms[i - 1]) <= ms[i].at)
    && (forall p: nat, n: nat :: from <= p && MatchesWith(pat, s, p, n) ==> Covered(pat, ms, p))
  }

  /** Position `p` lies inside one of the matches. */
  ghost predicate Covered(pat: Pattern, ms: seq<Match>, p: nat) {
    exists i :: 0 <= i < |ms| && ms[i].at <= p < End(pat, ms[i])
  }

  /** `preg_match_all`: scan left to right, resuming after each match. */
  function MatchAll(pat: Pattern, s: string, from: nat): (ms: seq<Match>)
    requires from <= |s|
    ensures forall i :: 0 <= i < |ms| ==> MatchesWith(pat, s, ms[i].at, ms[i].len)
    ensures forall i :: 0 <= i < |ms| ==> from <= ms[i].at && End(pat, ms[i]) <= |s|
    ensures forall i :: 0 < i < |ms| ==> End(pat, ms[i - 1]) <= ms[i].at
    decreases |s| - from
  {
    if from == |s| then []
    else
      match MatchAt(pat, s, from)
      case Some(n) => [Match(from, n)] + MatchAll(pat, s, End(pat, Match(from, n)))
      case None => MatchAll(pat, s, from + 1)
  }

  /** A match at `from` followed by the match list of the rest. */
  lemma ConsIsMatchAll(pat: Pattern, s: string, from: nat, n: nat, rest: seq<Match>)
    requires MatchesWith(pat, s, from, n)
    requires IsMatchAll(pat, s, End(pat, Match(from, n)), rest)
    ensures IsMatchAll(pat, s, from, [Match(from, n)] + rest)
  {
    var m := Match(from, n);
    var ms := [m] + rest;
    forall p: nat, n': nat | from <= p && MatchesWith(pat, s, p, n') ensures Covered(pat, ms, p) {
      if p < End(pat, m) {
        assert ms[0].at <= p < End(pat, ms[0]);
      } else {
        assert Covered(pat, rest, p);
        var i :| 0 <= i < |rest| && rest[i].at <= p < End(pat, rest[i]);
        assert ms[i + 1] == rest[i];
      }
    }
    forall i | 0 < i < |ms| ensures End(pat, ms[i - 1]) <= ms[i].at {
      if i > 1 {
        assert ms[i - 1] == rest[i - 2] && ms[i] == rest[i - 1];
      }
    }
  }

  /** No match at `from`: the match list from `from` is the one from `from + 1`. */
  lemma SkipIsMatchAll(pat: Pattern, s: string, from: nat, ms: seq<Match>)
    requires forall n: nat :: !MatchesWith(pat, s, from, n)
    requires IsMatchAll(pat, s, from + 1, ms)
    ensures IsMatchAll(pat, s, from, ms)
  {
    forall p: nat, n: nat | from <= p && MatchesWith(pat, s, p, n) ensures Covered(pat, ms, p) {
      assert p != from;
    }
  }

  /** Past the end of the text nothing matches. */
  lemma EndIsMatchAll(pat: Pattern, s: string)
    ensures IsMatchAll(pat, s, |s|, [])
  {
    forall p: nat, n: nat | |s| <= p ensures !MatchesWith(pat, s, p, n) {
    }
  }

  /** The scanner meets the declarative description of `preg_match_all`. */
  lemma {:induction false} MatchAllIsMatchAll(pat: Pattern, s: string, from: nat)
    requires from <= |s|
    ensures IsMatchAll(pat, s, from, MatchAll(pat, s, from))
    decreases |s| - from
  {
    if from == |s| {
      EndIsMatchAll(pat, s);
    } else {
      var r := MatchAt(pat, s, from);
      if r.Some? {
        var e := End(pat, Match(from, r.value));
        var rest := MatchAll(pat, s, e);
        assert MatchAll(pat, s, from) == [Match(from, r.value)] + rest;
        MatchAllIsMatchAll(pat, s, e);
        ConsIsMatchAll(pat, s, from, r.value, rest);
      } else {
        var rest := MatchAll(pat, s, from + 1);
        assert MatchAll(pat, s, from) == rest;
        MatchAllIsMatchAll(pat, s, from + 1);
        SkipIsMatchAll(pat, s, from, rest);
      }
    }
  }

  /**
    The declarative description determines the result: two match lists that
    both satisfy it are equal. Together with `MatchAllIsMatchAll` this says
    the scanner computes exactly what the description allows.
   */
  lemma {:induction false} MatchAllUnique(pat: Pattern, s: string, from: nat, a: seq<Match>, b: seq<Match>)
    requires IsMatchAll(pat, s, from, a) && IsMatchAll(pat, s, from, b)
    ensures a == b
    decreases |a|
  {
    HeadDetermined(pat, s, from, a, b);
    if |a| > 0 {
      TailIsMatchAll(pat, s, from, a);
      TailIsMatchAll(pat, s, from, b);
      MatchAllUnique(pat, s, End(pat, a[0]), a[1..], b[1..]);
      assert a == [a[0]] + a[1..];
      assert b == [b[0]] + b[1..];
    }
  }

  /** Two match lists of the same text agree on whether there is a first match, and on that match. */
  lemma HeadDetermined(pat: Pattern, s: string, from: nat, a: seq<Match>, b: seq<Match>)
    requires IsMatchAll(pat, s, from, a) && IsMatchAll(pat, s, from, b)
    ensures |a| > 0 <==> |b| > 0
    ensures |a| > 0 ==> a[0] == b[0]
  {
    if |a| > 0 {
      FirstIsLeftmost(pat, s, from, b, a[0].at, a[0].len);
    }
    if |b| > 0 {
      FirstIsLeftmost(pat, s, from, a, b[0].at, b[0].len);
    }
    if |a| > 0 && |b| > 0 {
      MatchLengthUnique(pat, s, a[0].at, a[0].len, b[0].len);
    }
  }

  /** Match starts increase strictly along a match list. */
  lemma {:induction false} StartsIncrease(pat: Pattern, ms: seq<Match>, i: nat, j: nat)
    requires forall k :: 0 < k < |ms| ==> End(pat, ms[k - 1]) <= ms[k].at
    requires i < j < |ms|
    ensures End(pat, ms[i]) <= ms[j].at
    decreases j - i
  {
    if i + 1 < j {
      StartsIncrease(pat, ms, i + 1, j);
    }
  }

  /** No match of a match list starts before its first one. */
  lemma FirstIsLeftmost(pat: Pattern, s: string, from: nat, ms: seq<Match>, p: nat, n: nat)
    requires IsMatchAll(pat, s, from, ms)
    requires from <= p && MatchesWith(pat, s, p, n)
    ensures |ms| > 0 && ms[0].at <= p
  {
    assert Covered(pat, ms, p);
    var i :| 0 <= i < |ms| && ms[i].at <= p < End(pat, ms[i]);
    if i > 0 {
      StartsIncrease(pat, ms, 0, i);
    }
  }

  /** Dropping the first match leaves the match list of the text after it. */
  lemma TailIsMatchAll(pat: Pattern, s: string, from: nat, ms: seq<Match>)
    requires IsMatchAll(pat, s, from, ms) && |ms| > 0
    ensures IsMatchAll(pat, s, End(pat, ms[0]), ms[1..])
  {
    var e := End(pat, ms[0]);
    var t := ms[1..];
    assert forall i :: 0 <= i < |t| ==> t[i] == ms[i + 1];
    assert |t| > 0 ==> e <= t[0].at;
    forall p: nat, n: nat | e <= p && MatchesWith(pat, s, p, n) ensures Covered(pat, t, p) {
      CoveredInTail(pat, ms, p);
    }
  }

  /** A position covered by a match list but past its first match is covered by the rest. */
  lemma CoveredInTail(pat: Pattern, ms: seq<Match>, p: nat)
    requires Covered(pat, ms, p) && |ms| > 0 && End(pat, ms[0]) <= p
    ensures Covered(pat, ms[1..], p)
  {
    var i :| 0 <= i < |ms| && ms[i].at <= p < End(pat, ms[i]);
    assert ms[1..][i - 1] == ms[i];
  }

  /** A text that is exactly one match is scanned as that one match. */
  lemma SingleMatch(pat: Pattern, s: string, n: nat)
    requires MatchesWith(pat, s, 0, n) && |s| == Lead(pat) + n + 1
    ensures MatchAll(pat, s, 0) == [Match(0, n)]
  {
    var r := MatchAt(pat, s, 0);
    MatchLengthUnique(pat, s, 0, r.value, n);
    assert MatchAll(pat, s, End(pat, Match(0, n))) == [];
  }

  /** The captured tokens of a match list, in order. */
  function Tokens(pat: Pattern, s: string, ms: seq<Match>): seq<string>
    requires forall i :: 0 <= i < |ms| ==> End(pat, ms[i]) <= |s|
  {
    seq(|ms|, i requires 0 <= i < |ms| => Token(pat, s, ms[i]))
  }

  /** `name` is captured by a match of the pattern somewhere in `s`. */
  ghost predicate Listed(pat: Pattern, s: string, name: string) {
    exists p: nat :: MatchesWith(pat, s, p, |name|) && s[p + Lead(pat)..p + Lead(pat) + |name|] == name
  }

  /** Every match of the list ends inside the text. */
  ghost predicate Spans(pat: Pattern, s: string, ms: seq<Match>) {
    forall i :: 0 <= i < |ms| ==> End(pat, ms[i]) <= |s|
  }
}
