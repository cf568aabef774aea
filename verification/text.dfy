/**
  Byte-string primitives of PHP and PCRE that the parsers rely on: the
  character classes `\s`, `\w` and `[0-9]`, the characters `trim()` strips,
  substring search (`strstr`/`strpos`), `trim()` itself and `explode()`.

  A `char` stands for one byte of the captured text; characters above 127
  belong to none of the classes, as with PCRE's default tables and no `u` flag.
 */
module Text {
  import opened Wrappers

  /** PCRE's `\s` without the `u` flag: space, HT, LF, VT, FF and CR. */
  predicate IsSpace(c: char) {
    c == ' ' || c == '\t' || c == '\n' || c == '\r' || c as int == 0x0B || c as int == 0x0C
  }

  /** PCRE's `\w` without the `u` flag: ASCII letters, digits and underscore. */
  predicate IsWord(c: char) {
    ('a' <= c <= 'z') || ('A' <= c <= 'Z') || ('0' <= c <= '9') || c == '_'
  }

  /** The class `[0-9]`. */
  predicate IsDigit(c: char) {
    '0' <= c <= '9'
  }

  /** The characters PHP's `trim()` removes by default: " \t\n\r\0\x0B" (no form feed, but NUL). */
  predicate IsTrimChar(c: char) {
    c == ' ' || c == '\t' || c == '\n' || c == '\r' || c == '\0' || c as int == 0x0B
  }

  /** A string with no trim character at either end. */
  predicate IsTrimmed(s: string) {
    |s| == 0 || (!IsTrimChar(s[0]) && !IsTrimChar(s[|s| - 1]))
  }

  /** `w` occurs in `s` starting at position `k`. */
  predicate OccursAt(s: string, w: string, k: nat) {
    k + |w| <= |s| && s[k..k + |w|] == w
  }

  /** `w` occurs nowhere in `s`. */
  ghost predicate Free(s: string, w: string) {
    forall k: nat :: !OccursAt(s, w, k)
  }

  /** The first occurrence of `w` in `s` at or after position `k`. */
  function IndexFrom(s: string, w: string, k: nat): (r: Option<nat>)
    requires k <= |s|
    ensures r.Some? ==> k <= r.value && OccursAt(s, w, r.value)
    ensures r.Some? ==> forall j: nat :: k <= j < r.value ==> !OccursAt(s, w, j)
    ensures r.None? ==> forall j: nat :: k <= j ==> !OccursAt(s, w, j)
    decreases |s| - k
  {
    if OccursAt(s, w, k) then Some(k)
    else if k == |s| then None
    else IndexFrom(s, w, k + 1)
  }

  /**
    The first occurrence of `w` in `s`, as PHP 8's `strpos`/`strstr` find it
    (an empty needle is found at position 0).
   */
  function IndexOf(s: string, w: string): Option<nat> {
    IndexFrom(s, w, 0)
  }

  /** Any occurrence with no earlier one is what `IndexOf` reports. */
  lemma IndexOfFirst(s: string, w: string, i: nat)
    requires OccursAt(s, w, i)
    requires forall j: nat :: j < i ==> !OccursAt(s, w, j)
    ensures IndexOf(s, w) == Some(i)
  {
  }

  /** A needle that occurs nowhere is not found. */
  lemma IndexOfFree(s: string, w: string)
    requires Free(s, w)
    ensures IndexOf(s, w).None?
  {
  }

  /** Occurrences in a suffix are occurrences in the whole string, shifted. */
  lemma OccursInSuffix(s: string, w: string, i: nat, j: nat)
    requires i <= |s|
    ensures OccursAt(s[i..], w, j) <==> OccursAt(s, w, i + j)
  {
    if i + j + |w| <= |s| {
      assert s[i..][j..j + |w|] == s[i + j..i + j + |w|];
    }
  }

  /** Occurrences in a prefix are occurrences in the whole string. */
  lemma OccursInPrefix(s: string, w: string, i: nat, j: nat)
    requires i <= |s|
    ensures OccursAt(s[..i], w, j) <==> (j + |w| <= i && OccursAt(s, w, j))
  {
    if j + |w| <= i {
      assert s[..i][j..j + |w|] == s[j..j + |w|];
    }
  }

  /** `ltrim()`: drops the leading trim characters. */
  function TrimLeft(s: string): (r: string)
    ensures |r| <= |s| && r == s[|s| - |r|..]
    ensures forall i :: 0 <= i < |s| - |r| ==> IsTrimChar(s[i])
    ensures |r| == 0 || !IsTrimChar(r[0])
  {
    if |s| > 0 && IsTrimChar(s[0]) then TrimLeft(s[1..]) else s
  }

  /** `rtrim()`: drops the trailing trim characters. */
  function TrimRight(s: string): (r: string)
    ensures |r| <= |s| && r == s[..|r|]
    ensures forall i :: |r| <= i < |s| ==> IsTrimChar(s[i])
    ensures |r| == 0 || !IsTrimChar(r[|r| - 1])
  {
    if |s| > 0 && IsTrimChar(s[|s| - 1]) then TrimRight(s[..|s| - 1]) else s
  }

  /** `r` is the infix of `s` at `i`, and only trim characters lie outside it. */
  predicate StripsTo(s: string, i: nat, r: string) {
    && i + |r| <= |s|
    && s[i..i + |r|] == r
    && (forall k :: 0 <= k < i ==> IsTrimChar(s[k]))
    && (forall k :: i + |r| <= k < |s| ==> IsTrimChar(s[k]))
  }

  /**
    `trim()`: the infix of `s` that neither starts nor ends with a trim
    character, everything cut away on either side being trim characters.
   */
  function Trim(s: string): (r: string)
    ensures IsTrimmed(r) && |r| <= |s|
    ensures exists i: nat :: StripsTo(s, i, r)
  {
    var l := TrimLeft(s);
    StripsFromParts(s, l, TrimRight(l));
    TrimRight(l)
  }

  /**
    What `ltrim` then `rtrim` leave: `l` is `s` without leading trim
    characters and `r` is `l` without trailing ones, so `r` is a trimmed
    infix of `s` with only trim characters around it.
   */
  lemma StripsFromParts(s: string, l: string, r: string)
    requires |l| <= |s| && l == s[|s| - |l|..]
    requires (forall k :: 0 <= k < |s| - |l| ==> IsTrimChar(s[k])) && (|l| == 0 || !IsTrimChar(l[0]))
    requires |r| <= |l| && r == l[..|r|]
    requires (forall k :: |r| <= k < |l| ==> IsTrimChar(l[k])) && (|r| == 0 || !IsTrimChar(r[|r| - 1]))
    ensures IsTrimmed(r) && StripsTo(s, |s| - |l|, r)
  {
    var i := |s| - |l|;
    assert s[i..i + |r|] == r;
    forall k | i + |r| <= k < |s| ensures IsTrimChar(s[k]) {
      assert s[k] == l[k - i];
    }
    if |r| > 0 {
      assert r[0] == l[0];
    }
  }

  /**
    `Trim` is the only trimmed infix of `s` with nothing but trim characters
    around it: its contract determines it.
   */
  lemma TrimUnique(s: string, i: nat, r: string)
    requires IsTrimmed(r) && StripsTo(s, i, r)
    ensures Trim(s) == r
  {
    var t := Trim(s);
    var j: nat :| StripsTo(s, j, t);
    assert |r| > 0 ==> r[0] == s[i] && r[|r| - 1] == s[i + |r| - 1];
    assert |t| > 0 ==> t[0] == s[j] && t[|t| - 1] == s[j + |t| - 1];
    assert |r| > 0 ==> !IsTrimChar(s[i]) && !IsTrimChar(s[i + |r| - 1]);
    assert |t| > 0 ==> !IsTrimChar(s[j]) && !IsTrimChar(s[j + |t| - 1]);
    assert |r| > 0 && |t| > 0 ==> i == j && |r| == |t|;
    assert |r| == 0 <==> |t| == 0;
  }

  /** A string made only of trim characters trims to the empty string. */
  lemma TrimBlank(s: string)
    requires forall k :: 0 <= k < |s| ==> IsTrimChar(s[k])
    ensures Trim(s) == ""
  {
  }

  /** `implode(d, ps)`: the pieces with `d` between neighbours. */
  function Join(ps: seq<string>, d: string): string {
    if |ps| == 0 then ""
    else if |ps| == 1 then ps[0]
    else ps[0] + d + Join(ps[1..], d)
  }

  /** `ps` are pieces free of `d` that give back `s` when joined with `d`. */
  ghost predicate SplitsInto(s: string, d: string, ps: seq<string>) {
    && Join(ps, d) == s
    && forall i :: 0 <= i < |ps| ==> Free(ps[i], d)
  }

  /**
    `explode(d, s)`: `s` cut at every occurrence of `d` found scanning left to
    right, each occurrence consumed before the scan resumes. Empty pieces are
    kept. PHP 8 throws on an empty delimiter, so one is required here.
   */
  function Explode(s: string, d: string): (r: seq<string>)
    requires |d| > 0
    ensures |r| >= 1
    ensures Join(r, d) == s
    ensures forall i :: 0 <= i < |r| ==> Free(r[i], d)
    ensures LeftmostCuts(s, d, r)
    decreases |s|
  {
    match IndexOf(s, d)
    case None =>
      NoCut(s, d);
      [s]
    case Some(i) =>
      var head := s[..i];
      var rest := Explode(s[i + |d|..], d);
      assert s == head + d + s[i + |d|..];
      assert Free(head, d) by {
        forall k: nat ensures !OccursAt(head, d, k) {
          OccursInPrefix(s, d, i, k);
        }
      }
      CutsShift(s, d, [head] + rest);
      [head] + rest
  }

  /** Where piece `i` of `ps` starts in the text they were cut from with `d`. */
  function Offset(ps: seq<string>, d: string, i: nat): nat
    requires i <= |ps|
  {
    if i == 0 then 0 else Offset(ps, d, i - 1) + |ps[i - 1]| + |d|
  }

  /**
    `p` lies at `c` in `s`, no occurrence of `d` starts inside it, and it
    ends where the next occurrence of `d` starts when `more` pieces follow,
    at the end of `s` otherwise: the cut is the leftmost occurrence at or
    after `c`.
   */
  ghost predicate PieceAt(s: string, d: string, c: nat, p: string, more: bool) {
    && c + |p| <= |s|
    && s[c..c + |p|] == p
    && (forall k: nat :: c <= k < c + |p| ==> !OccursAt(s, d, k))
    && (if more then OccursAt(s, d, c + |p|) else c + |p| == |s|)
  }

  /** Piece `i` of `ps` is cut from `s` at its offset. */
  ghost predicate CutAt(s: string, d: string, ps: seq<string>, i: nat)
    requires i < |ps|
  {
    PieceAt(s, d, Offset(ps, d, i), ps[i], i + 1 < |ps|)
  }

  /**
    `ps` is `s` cut at the occurrences of `d` a left-to-right scan finds,
    each scan resuming after the occurrence it consumed.
   */
  ghost predicate LeftmostCuts(s: string, d: string, ps: seq<string>) {
    |ps| >= 1 && forall i: nat :: i < |ps| ==> CutAt(s, d, ps, i)
  }

  /** Offsets after the first piece are the tail's offsets, shifted past the first cut. */
  lemma {:induction false} OffsetTail(ps: seq<string>, d: string, j: nat)
    requires 1 <= j + 1 <= |ps|
    ensures Offset(ps, d, j + 1) == |ps[0]| + |d| + Offset(ps[1..], d, j)
    decreases j
  {
    if j > 0 {
      OffsetTail(ps, d, j - 1);
      assert ps[1..][j - 1] == ps[j];
    }
  }

  /** A text without `d` is cut into itself alone. */
  lemma NoCut(s: string, d: string)
    requires |d| > 0 && IndexOf(s, d).None?
    ensures LeftmostCuts(s, d, [s])
  {
    assert CutAt(s, d, [s], 0);
  }

  /** Piece `j + 1` of `ps` is cut from `s` as piece `j` of the tail is cut from the text after the first cut. */
  lemma CutShift(s: string, d: string, ps: seq<string>, j: nat)
    requires 1 <= j + 1 < |ps| && |ps[0]| + |d| <= |s|
    ensures CutAt(s, d, ps, j + 1) <==> CutAt(s[|ps[0]| + |d|..], d, ps[1..], j)
  {
    OffsetTail(ps, d, j);
    assert ps[1..][j] == ps[j + 1];
    PieceShift(s, d, |ps[0]| + |d|, Offset(ps[1..], d, j), ps[j + 1], j + 2 < |ps|);
  }

  /** A piece at `c` in the suffix from `q` is a piece at `q + c` in the whole text. */
  lemma PieceShift(s: string, d: string, q: nat, c: nat, p: string, more: bool)
    requires q <= |s|
    ensures PieceAt(s[q..], d, c, p, more) <==> PieceAt(s, d, q + c, p, more)
  {
    OccursInSuffix(s, d, q, c + |p|);
    if c + |p| <= |s| - q {
      assert s[q..][c..c + |p|] == s[q + c..q + c + |p|];
    }
    forall k: nat | c <= k < c + |p| ensures OccursAt(s[q..], d, k) <==> OccursAt(s, d, q + k) {
      OccursInSuffix(s, d, q, k);
    }
    forall k: nat | q + c <= k < q + c + |p| ensures OccursAt(s, d, k) <==> OccursAt(s[q..], d, k - q) {
      OccursInSuffix(s, d, q, k - q);
    }
  }

  /**
    When the first piece ends at the first occurrence of `d`, `ps` cuts `s`
    leftmost exactly when its tail cuts the text after that occurrence.
   */
  lemma CutsShift(s: string, d: string, ps: seq<string>)
    requires |d| > 0 && |ps| >= 2
    requires IndexOf(s, d) == Some(|ps[0]|) && s[..|ps[0]|] == ps[0]
    ensures LeftmostCuts(s, d, ps) <==> LeftmostCuts(s[|ps[0]| + |d|..], d, ps[1..])
  {
    var t := s[|ps[0]| + |d|..];
    forall j: nat | j + 1 < |ps| ensures CutAt(s, d, ps, j + 1) <==> CutAt(t, d, ps[1..], j) {
      CutShift(s, d, ps, j);
    }
    assert CutAt(s, d, ps, 0);
    if LeftmostCuts(t, d, ps[1..]) {
      forall i: nat | i < |ps| ensures CutAt(s, d, ps, i) {
        if i > 0 {
          assert CutAt(t, d, ps[1..], i - 1);
        }
      }
    }
    if LeftmostCuts(s, d, ps) {
      forall j: nat | j < |ps[1..]| ensures CutAt(t, d, ps[1..], j) {
        assert CutAt(s, d, ps, j + 1);
      }
    }
  }

  /**
    The leftmost-cut description determines `explode`: any pieces that cut
    `s` at the occurrences a left-to-right scan finds are `Explode(s, d)`.
   */
  lemma {:induction false} ExplodeUnique(s: string, d: string, ps: seq<string>)
    requires |d| > 0 && LeftmostCuts(s, d, ps)
    ensures ps == Explode(s, d)
    decreases |s|
  {
    assert CutAt(s, d, ps, 0);
    var i := |ps[0]|;
    assert s[..i] == ps[0];
    if |ps| == 1 {
      assert s == ps[0];
      assert IndexOf(s, d).None?;
    } else {
      IndexOfFirst(s, d, i);
      CutsShift(s, d, ps);
      ExplodeUnique(s[i + |d|..], d, ps[1..]);
      assert ps == [ps[0]] + ps[1..];
    }
  }

  /** Exploding the empty string gives one empty piece. */
  lemma ExplodeEmpty(d: string)
    requires |d| > 0
    ensures Explode("", d) == [""]
  {
    assert IndexOf("", d).None?;
  }

  /**
    Number of occurrences of `d` in `s` counted left to right without overlap,
    defined character by character, independently of `IndexOf`.
   */
  function Count(s: string, d: string): nat
    requires |d| > 0
    decreases |s|
  {
    if |s| < |d| then 0
    else if s[..|d|] == d then 1 + Count(s[|d|..], d)
    else Count(s[1..], d)
  }

  /** Counting may skip a prefix in which no occurrence starts. */
  lemma {:induction false} CountSkip(s: string, d: string, k: nat)
    requires |d| > 0 && k <= |s|
    requires forall j: nat :: j < k ==> !OccursAt(s, d, j)
    ensures Count(s, d) == Count(s[k..], d)
    decreases k
  {
    if k > 0 {
      assert !OccursAt(s, d, 0);
      assert |s| >= |d| ==> s[..|d|] != d;
      forall j: nat | j < k - 1 ensures !OccursAt(s[1..], d, j) {
        OccursInSuffix(s, d, 1, j);
      }
      CountSkip(s[1..], d, k - 1);
      assert s[1..][k - 1..] == s[k..];
    }
  }

  /** `explode` returns one piece more than there are delimiter occurrences. */
  lemma {:induction false} ExplodeLength(s: string, d: string)
    requires |d| > 0
    ensures |Explode(s, d)| == Count(s, d) + 1
    decreases |s|
  {
    match IndexOf(s, d)
    case None =>
      CountSkip(s, d, |s|);
      assert s[|s|..] == "";
    case Some(i) =>
      CountSkip(s, d, i);
      assert s[i..][..|d|] == d;
      assert s[i..][|d|..] == s[i + |d|..];
      ExplodeLength(s[i + |d|..], d);
  }
}
