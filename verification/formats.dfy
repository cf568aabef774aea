/**
  `getSupportedFormats` (Sonus.php lines 72-85) without the process call:
  every format line of the `-formats` listing, combined into a map from
  format name to mux token by `array_combine`.
 */
module Formats {
  import opened Text
  import opened Patterns

  /**
    `m` is what `array_combine(ks, vs)` builds: its keys are exactly the
    entries of `ks`, and each key maps to the value paired with its LAST
    occurrence in `ks`.
   */
  ghost predicate LastWins(ks: seq<string>, vs: seq<string>, m: map<string, string>)
    requires |ks| == |vs|
  {
    && (forall k :: k in m <==> k in ks)
    && (forall i :: 0 <= i < |ks| && IsLast(ks, i) ==> ks[i] in m && m[ks[i]] == vs[i])
  }

  /** No entry after position `i` repeats `ks[i]`. */
  ghost predicate IsLast(ks: seq<string>, i: nat)
    requires i < |ks|
  {
    forall j :: i < j < |ks| ==> ks[j] != ks[i]
  }

  /** `array_combine`: pairs keys with values, a repeated key keeping its last value. */
  function Combine(ks: seq<string>, vs: seq<string>): (m: map<string, string>)
    requires |ks| == |vs|
    ensures LastWins(ks, vs, m)
    decreases |ks|
  {
    if |ks| == 0 then map[]
    else
      var n := |ks| - 1;
      var prev := Combine(ks[..n], vs[..n]);
      LastWinsLast(ks, vs, prev);
      prev[ks[n] := vs[n]]
  }

  /** The last pair of a non-empty pairing overwrites the map of the pairs before it. */
  lemma LastWinsLast(ks: seq<string>, vs: seq<string>, m: map<string, string>)
    requires |ks| == |vs| > 0
    requires LastWins(ks[..|ks| - 1], vs[..|ks| - 1], m)
    ensures LastWins(ks, vs, m[ks[|ks| - 1] := vs[|ks| - 1]])
  {
    var n := |ks| - 1;
    assert ks == ks[..n] + [ks[n]];
    assert vs == vs[..n] + [vs[n]];
    LastWinsSnoc(ks[..n], vs[..n], m, ks[n], vs[n]);
  }

  /** Adding one more pair to a last-wins map overwrites that key. */
  lemma LastWinsSnoc(ks: seq<string>, vs: seq<string>, m: map<string, string>, k: string, v: string)
    requires |ks| == |vs| && LastWins(ks, vs, m)
    ensures LastWins(ks + [k], vs + [v], m[k := v])
  {
    var ks', vs', m' := ks + [k], vs + [v], m[k := v];
    forall x ensures x in m' <==> x in ks' {
      assert x in ks' <==> x in ks || x == k;
    }
    forall i | 0 <= i < |ks'| && IsLast(ks', i) ensures ks'[i] in m' && m'[ks'[i]] == vs'[i] {
      if i < |ks| {
        assert ks'[|ks|] == k;
        assert ks'[i] == ks[i] && vs'[i] == vs[i];
        assert IsLast(ks, i) by {
          forall j | i < j < |ks| ensures ks[j] != ks[i] {
            assert ks'[j] == ks[j];
          }
        }
      }
    }
  }

  /** The last-wins description determines the map: `Combine` is the only map that meets it. */
  lemma LastWinsUnique(ks: seq<string>, vs: seq<string>, m1: map<string, string>, m2: map<string, string>)
    requires |ks| == |vs| && LastWins(ks, vs, m1) && LastWins(ks, vs, m2)
    ensures m1 == m2
  {
    forall k | k in m1 ensures k in m2 && m1[k] == m2[k] {
      var i := LastIndex(ks, k);
    }
    assert m1.Keys == m2.Keys;
  }

  /** The value of the key at a last occurrence. */
  lemma LastWinsAt(ks: seq<string>, vs: seq<string>, m: map<string, string>, i: nat)
    requires |ks| == |vs| && LastWins(ks, vs, m)
    requires i < |ks| && IsLast(ks, i)
    ensures ks[i] in m && m[ks[i]] == vs[i]
  {
  }

  /** The mux token of a format-line match: its first two characters. */
  function Mux(s: string, m: Match): string
    requires m.at + 2 <= |s|
  {
    s[m.at..m.at + 2]
  }

  function Muxes(s: string, ms: seq<Match>): seq<string>
    requires forall i :: 0 <= i < |ms| ==> ms[i].at + 2 <= |s|
  {
    seq(|ms|, i requires 0 <= i < |ms| => Mux(s, ms[i]))
  }

  /** `name` is the format token of a match of the format pattern whose mux token is `mux`. */
  ghost predicate FormatListed(s: string, name: string, mux: string) {
    exists p: nat :: MatchesWith(FormatLine, s, p, |name|) && s[p + 3..p + 3 + |name|] == name && s[p..p + 2] == mux
  }

  /** `r` is the last-wins combination of the format tokens and mux tokens of `ms`. */
  ghost predicate CombinedFrom(s: string, ms: seq<Match>, r: map<string, string>) {
    && (forall i :: 0 <= i < |ms| ==> End(FormatLine, ms[i]) <= |s|)
    && LastWins(Tokens(FormatLine, s, ms), Muxes(s, ms), r)
  }

  /**
    The format map of a `-formats` listing: the last-wins combination of all
    format-line matches, left to right. Every key is a 3 to 11 character
    token without whitespace, with whitespace on both sides in the text, and
    every value one of the mux tokens `D`+space, space+`E` or `DE`.
   */
  function SupportedFormats(s: string): (r: map<string, string>)
    ensures exists ms :: IsMatchAll(FormatLine, s, 0, ms) && CombinedFrom(s, ms, r)
    ensures forall k :: k in r ==> FormatListed(s, k, r[k])
    ensures forall k :: k in r ==> 3 <= |k| <= 11 && (forall i :: 0 <= i < |k| ==> !IsSpace(k[i])) && IsMux(r[k])
    ensures (forall p: nat, n: nat :: !MatchesWith(FormatLine, s, p, n)) ==> r == map[]
  {
    var ms := MatchAll(FormatLine, s, 0);
    MatchAllIsMatchAll(FormatLine, s, 0);
    var r := Combine(Tokens(FormatLine, s, ms), Muxes(s, ms));
    assert CombinedFrom(s, ms, r);
    FormatsListed(s, ms, r);
    r
  }

  /**
    A single format line round-trips: the mux token, one whitespace, a name
    of 3 to 11 non-whitespace characters and a closing whitespace give the
    map from that name to that mux token.
   */
  lemma FormatLineRoundTrip(mux: string, name: string)
    requires IsMux(mux)
    requires 3 <= |name| <= 11 && forall i :: 0 <= i < |name| ==> !IsSpace(name[i])
    ensures SupportedFormats(mux + " " + name + " ") == map[name := mux]
  {
    var s := mux + " " + name + " ";
    var n := |name|;
    assert s[0..2] == mux && s[2] == ' ' && s[3 + n] == ' ';
    assert s[3..3 + n] == name;
    forall k | 3 <= k < 3 + n ensures InClass(s[k], NonSpace) {
      assert s[k] == name[k - 3];
    }
    assert MatchesWith(FormatLine, s, 0, n);
    SingleMatch(FormatLine, s, n);
    var ms := [Match(0, n)];
    assert Tokens(FormatLine, s, ms) == [name];
    assert Muxes(s, ms) == [mux];
    LastWinsUnique([name], [mux], Combine([name], [mux]), map[name := mux]);
  }

  /** Every entry of a combined map comes from one match of the format pattern. */
  lemma FormatsListed(s: string, ms: seq<Match>, r: map<string, string>)
    requires forall i :: 0 <= i < |ms| ==> MatchesWith(FormatLine, s, ms[i].at, ms[i].len)
    requires CombinedFrom(s, ms, r)
    ensures forall k :: k in r ==> FormatListed(s, k, r[k])
    ensures forall k :: k in r ==> 3 <= |k| <= 11 && (forall i :: 0 <= i < |k| ==> !IsSpace(k[i])) && IsMux(r[k])
    ensures |ms| == 0 ==> r == map[]
  {
    forall k | k in r ensures FormatListed(s, k, r[k]) && 3 <= |k| <= 11 && (forall i :: 0 <= i < |k| ==> !IsSpace(k[i])) && IsMux(r[k]) {
      var names := Tokens(FormatLine, s, ms);
      var i := LastIndex(names, k);
      LastWinsAt(names, Muxes(s, ms), r, i);
      FormatEntry(s, ms, i, k, r[k]);
    }
  }

  /** The entry made from the `i`-th match: its token with its mux token. */
  lemma FormatEntry(s: string, ms: seq<Match>, i: nat, k: string, mux: string)
    requires forall j :: 0 <= j < |ms| ==> End(FormatLine, ms[j]) <= |s|
    requires i < |ms| && MatchesWith(FormatLine, s, ms[i].at, ms[i].len)
    requires Tokens(FormatLine, s, ms)[i] == k && Muxes(s, ms)[i] == mux
    ensures FormatListed(s, k, mux)
    ensures 3 <= |k| <= 11 && (forall j :: 0 <= j < |k| ==> !IsSpace(k[j])) && IsMux(mux)
  {
    TokenAt(s, ms, i);
    MatchListed(s, ms[i].at, ms[i].len, k, mux);
  }

  /** The format token and mux token of the `i`-th match, as slices of the text. */
  lemma TokenAt(s: string, ms: seq<Match>, i: nat)
    requires forall j :: 0 <= j < |ms| ==> End(FormatLine, ms[j]) <= |s|
    requires i < |ms|
    ensures Tokens(FormatLine, s, ms)[i] == s[ms[i].at + 3..ms[i].at + 3 + ms[i].len]
    ensures Muxes(s, ms)[i] == s[ms[i].at..ms[i].at + 2]
  {
  }

  /** A format-line match lists its token with its mux token. */
  lemma MatchListed(s: string, p: nat, n: nat, k: string, mux: string)
    requires MatchesWith(FormatLine, s, p, n)
    requires k == s[p + 3..p + 3 + n] && mux == s[p..p + 2]
    ensures FormatListed(s, k, mux)
    ensures 3 <= |k| <= 11 && (forall i :: 0 <= i < |k| ==> !IsSpace(k[i])) && IsMux(mux)
  {
    FormatMatchShape(s, p, n);
  }

  /** The token and mux token of one format-line match have the shape the pattern demands. */
  lemma FormatMatchShape(s: string, p: nat, n: nat)
    requires MatchesWith(FormatLine, s, p, n)
    ensures FormatListed(s, s[p + 3..p + 3 + n], s[p..p + 2])
    ensures var k := s[p + 3..p + 3 + n];
      3 <= |k| <= 11 && (forall i :: 0 <= i < |k| ==> !IsSpace(k[i])) && IsMux(s[p..p + 2])
  {
    var k := s[p + 3..p + 3 + n];
    assert |k| == n;
    forall i | 0 <= i < |k| ensures !IsSpace(k[i]) {
      assert k[i] == s[p + 3 + i];
      assert InClass(s[p + 3 + i], NonSpace);
    }
  }

  /** The position of the last occurrence of `k` in `ks`. */
  function LastIndex(ks: seq<string>, k: string): (i: nat)
    requires k in ks
    ensures i < |ks| && ks[i] == k && IsLast(ks, i)
  {
    if ks[|ks| - 1] == k then |ks| - 1
    else
      assert k in ks[..|ks| - 1] by {
        var j :| 0 <= j < |ks| && ks[j] == k;
        assert ks[..|ks| - 1][j] == k;
      }
      LastIndex(ks[..|ks| - 1], k)
  }
}
