/**
  The encoder and decoder listings (Sonus.php lines 91-149) without the
  process call: the names captured by every match of
  `[K]([.]|\w){5}\s(T{3,20})\s`, where the kind letter K is `A` (audio) or
  `V` (video) and the token class T is `\S` for encoders and `\w` for
  decoders. The kind letter is not anchored to the start of a line.
 */
module Codecs {
  import opened Text
  import opened Patterns

  /**
    `$parsed['format']` after `preg_match_all`: the captured names of all
    matches, left to right, duplicates kept. Each is 3 to 20 characters of
    the token class, and each was captured by a match that began with the
    kind letter.
   */
  function CodecNames(s: string, kind: char, cls: TokenClass): (r: seq<string>)
    ensures exists ms :: IsMatchAll(CodecLine(kind, cls), s, 0, ms) && Spans(CodecLine(kind, cls), s, ms) && r == Tokens(CodecLine(kind, cls), s, ms)
    ensures forall i :: 0 <= i < |r| ==> Listed(CodecLine(kind, cls), s, r[i])
    ensures forall i :: 0 <= i < |r| ==> 3 <= |r[i]| <= 20 && forall k :: 0 <= k < |r[i]| ==> InClass(r[i][k], cls)
    ensures (forall p: nat, n: nat :: !MatchesWith(CodecLine(kind, cls), s, p, n)) ==> r == []
  {
    var pat := CodecLine(kind, cls);
    var ms := MatchAll(pat, s, 0);
    MatchAllIsMatchAll(pat, s, 0);
    assert Spans(pat, s, ms);
    NamesShape(s, kind, cls, ms);
    Tokens(pat, s, ms)
  }

  /** Every captured name of a list of codec-line matches has the demanded shape. */
  lemma NamesShape(s: string, kind: char, cls: TokenClass, ms: seq<Match>)
    requires forall i :: 0 <= i < |ms| ==> MatchesWith(CodecLine(kind, cls), s, ms[i].at, ms[i].len)
    requires Spans(CodecLine(kind, cls), s, ms)
    ensures var r := Tokens(CodecLine(kind, cls), s, ms);
      forall i :: 0 <= i < |r| ==> Listed(CodecLine(kind, cls), s, r[i]) && 3 <= |r[i]| <= 20 && forall k :: 0 <= k < |r[i]| ==> InClass(r[i][k], cls)
  {
    var r := Tokens(CodecLine(kind, cls), s, ms);
    forall i | 0 <= i < |r| ensures Listed(CodecLine(kind, cls), s, r[i]) && 3 <= |r[i]| <= 20 && forall k :: 0 <= k < |r[i]| ==> InClass(r[i][k], cls) {
      CodecMatchShape(s, kind, cls, ms[i].at, ms[i].len);
    }
  }

  /** The token of one codec-line match has the shape the pattern demands. */
  lemma CodecMatchShape(s: string, kind: char, cls: TokenClass, p: nat, n: nat)
    requires MatchesWith(CodecLine(kind, cls), s, p, n)
    ensures var k := s[p + 7..p + 7 + n];
      && Listed(CodecLine(kind, cls), s, k)
      && 3 <= |k| <= 20 && (forall i :: 0 <= i < |k| ==> InClass(k[i], cls))
  {
    var k := s[p + 7..p + 7 + n];
    assert |k| == n;
    forall i | 0 <= i < |k| ensures InClass(k[i], cls) {
      assert k[i] == s[p + 7 + i];
    }
  }

  /**
    A single codec line round-trips: the kind letter, five flag characters,
    one whitespace, a name of 3 to 20 characters of the token class and a
    closing whitespace give the list holding just that name.
   */
  lemma CodecLineRoundTrip(kind: char, flags: string, sep: char, name: string, cls: TokenClass)
    requires |flags| == 5 && forall i :: 0 <= i < 5 ==> IsFlag(flags[i])
    requires IsSpace(sep)
    requires 3 <= |name| <= 20 && forall i :: 0 <= i < |name| ==> InClass(name[i], cls)
    ensures CodecNames([kind] + flags + [sep] + name + " ", kind, cls) == [name]
  {
    var s := [kind] + flags + [sep] + name + " ";
    var n := |name|;
    assert s[0] == kind && s[6] == sep && s[7 + n] == ' ';
    forall k | 1 <= k < 6 ensures IsFlag(s[k]) {
      assert s[k] == flags[k - 1];
    }
    assert s[7..7 + n] == name;
    forall k | 7 <= k < 7 + n ensures InClass(s[k], cls) {
      assert s[k] == name[k - 7];
    }
    assert MatchesWith(CodecLine(kind, cls), s, 0, n);
    SingleMatch(CodecLine(kind, cls), s, n);
    assert Tokens(CodecLine(kind, cls), s, [Match(0, n)]) == [name];
  }

  /** A listed name was captured right after the kind letter, five flags and a whitespace character. */
  lemma ListedKind(s: string, kind: char, cls: TokenClass, name: string)
    requires Listed(CodecLine(kind, cls), s, name)
    ensures exists p: nat :: p + 7 + |name| < |s| && s[p] == kind && s[p + 7..p + 7 + |name|] == name
  {
    var p: nat :| MatchesWith(CodecLine(kind, cls), s, p, |name|) && s[p + 7..p + 7 + |name|] == name;
  }
}
