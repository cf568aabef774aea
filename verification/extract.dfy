/**
  The private helper `_extractFromString` of Sonus.php: the text between a
  start marker and an end marker, trimmed, optionally exploded on a delimiter
  into individually trimmed pieces.
 */
module Extract {
  import opened Wrappers
  import opened Text

  /** What the helper returns: a string, or in array mode a list of strings. */
  datatype Extracted = Single(text: string) | Many(items: seq<string>)

  /** PHP 8 `substr(s, n)` for `n >= 0`: empty once `n` reaches past the end. */
  function DropPrefix(s: string, n: nat): (r: string)
    ensures n <= |s| ==> |r| == |s| - n && r == s[n..]
    ensures n > |s| ==> r == ""
  {
    if n <= |s| then s[n..] else ""
  }

  /**
    `strstr(strstr(h, start), end, true)`: from the first `start` up to the
    first `end` searched from the start of that occurrence (so it may overlap
    the marker itself); PHP's `false` for a missing needle reads as "".
   */
  function Segment(h: string, start: string, end: string): (r: string)
    ensures |r| <= |h|
  {
    match IndexOf(h, start)
    case None => ""
    case Some(i) =>
      match IndexOf(h[i..], end)
      case None => ""
      case Some(j) => h[i..i + j]
  }

  /** String mode: the segment with the marker's length cut off the front, then trimmed. */
  function ExtractText(h: string, start: string, end: string): (r: string)
    ensures IsTrimmed(r)
    ensures |r| <= |h|
  {
    Trim(DropPrefix(Segment(h, start, end), |start|))
  }

  /**
    Array mode: the string result exploded on `delimiter`, every piece
    trimmed. The untrimmed pieces, in order and empty ones included, are the
    string result cut at the delimiter occurrences a left-to-right scan
    finds; they are free of the delimiter and join back to the string result.
   */
  function ExtractList(h: string, start: string, end: string, delimiter: string): (r: seq<string>)
    requires |delimiter| > 0
    ensures |r| == Count(ExtractText(h, start, end), delimiter) + 1
    ensures forall i :: 0 <= i < |r| ==> IsTrimmed(r[i])
    ensures exists ps :: && LeftmostCuts(ExtractText(h, start, end), delimiter, ps)
                         && SplitsInto(ExtractText(h, start, end), delimiter, ps)
                         && |ps| == |r| && forall i :: 0 <= i < |r| ==> r[i] == Trim(ps[i])
  {
    var pieces := Explode(ExtractText(h, start, end), delimiter);
    ExplodeLength(ExtractText(h, start, end), delimiter);
    seq(|pieces|, i requires 0 <= i < |pieces| => Trim(pieces[i]))
  }

  /** `_extractFromString($string, $start, $end, $array, $delimiter)`. */
  function ExtractFromString(h: string, start: string, end: string, asArray: bool, delimiter: string): (r: Extracted)
    requires asArray ==> |delimiter| > 0
    ensures asArray <==> r.Many?
    ensures r.Single? ==> r.text == ExtractText(h, start, end)
    ensures r.Many? ==> r.items == ExtractList(h, start, end, delimiter)
    ensures r.Single? ==> IsTrimmed(r.text)
    ensures r.Many? ==> |r.items| >= 1 && forall i :: 0 <= i < |r.items| ==> IsTrimmed(r.items[i])
  {
    if asArray then Many(ExtractList(h, start, end, delimiter))
    else Single(ExtractText(h, start, end))
  }

  /** Without the start marker the string result is empty and the list result is `[""]`. */
  lemma ExtractWithoutStart(h: string, start: string, end: string, delimiter: string)
    requires Free(h, start)
    requires |delimiter| > 0
    ensures ExtractText(h, start, end) == ""
    ensures ExtractList(h, start, end, delimiter) == [""]
  {
    TextWithoutStart(h, start, end);
    ListOfEmpty(h, start, end, delimiter);
  }

  /** Without the start marker the string result is empty. */
  lemma TextWithoutStart(h: string, start: string, end: string)
    requires Free(h, start)
    ensures ExtractText(h, start, end) == ""
  {
    IndexOfFree(h, start);
    assert Segment(h, start, end) == "";
    TrimBlank("");
  }

  /** An empty string result gives the one-element list result `[""]`. */
  lemma ListOfEmpty(h: string, start: string, end: string, delimiter: string)
    requires |delimiter| > 0 && ExtractText(h, start, end) == ""
    ensures ExtractList(h, start, end, delimiter) == [""]
  {
    ExplodeEmpty(delimiter);
    var r := ExtractList(h, start, end, delimiter);
    assert |r| == 1 && r[0] == Trim("");
    TrimBlank("");
    Singleton(r);
  }

  /** A one-element list whose element is empty is `[""]`. */
  lemma Singleton(r: seq<string>)
    requires |r| == 1 && r[0] == ""
    ensures r == [""]
  {
  }

  /**
    With `start` first at `i` but no `end` at or after `i`, the string result
    is empty and the list result is `[""]`.
   */
  lemma ExtractWithoutEnd(h: string, start: string, end: string, delimiter: string, i: nat)
    requires OccursAt(h, start, i)
    requires forall k: nat :: k < i ==> !OccursAt(h, start, k)
    requires forall k: nat :: i <= k ==> !OccursAt(h, end, k)
    requires |delimiter| > 0
    ensures ExtractText(h, start, end) == ""
    ensures ExtractList(h, start, end, delimiter) == [""]
  {
    IndexOfFirst(h, start, i);
    assert IndexOf(h[i..], end).None? by {
      forall k: nat ensures !OccursAt(h[i..], end, k) {
        OccursInSuffix(h, end, i, k);
      }
    }
    assert Segment(h, start, end) == "";
    assert Trim("") == "";
    ListOfEmpty(h, start, end, delimiter);
  }

  /**
    With `start` first at `i` and `end` first at `j` at or after `i`: the
    result is the trimmed text strictly between the two markers, or empty when
    `end` begins inside the start marker.
   */
  lemma ExtractBetween(h: string, start: string, end: string, i: nat, j: nat)
    requires OccursAt(h, start, i)
    requires forall k: nat :: k < i ==> !OccursAt(h, start, k)
    requires i <= j && OccursAt(h, end, j)
    requires forall k: nat :: i <= k < j ==> !OccursAt(h, end, k)
    ensures i + |start| <= j ==> ExtractText(h, start, end) == Trim(h[i + |start|..j])
    ensures j < i + |start| ==> ExtractText(h, start, end) == ""
  {
    IndexOfFirst(h, start, i);
    OccursInSuffix(h, end, i, j - i);
    forall k: nat | k < j - i ensures !OccursAt(h[i..], end, k) {
      OccursInSuffix(h, end, i, k);
    }
    IndexOfFirst(h[i..], end, j - i);
    assert Segment(h, start, end) == h[i..j];
    if i + |start| <= j {
      assert h[i..j][|start|..] == h[i + |start|..j];
    } else {
      assert Trim("") == "";
    }
  }

  /**
    Composing and extracting: `pre + start + body + end + post` gives back
    `trim(body)` as long as `start` does not occur before `pre` ends and `end`
    does not occur before `body` ends.
   */
  lemma ExtractEmbedded(pre: string, start: string, body: string, end: string, post: string)
    requires forall k: nat :: k < |pre| ==> !OccursAt(pre + start + body + end + post, start, k)
    requires forall k: nat :: |pre| <= k < |pre| + |start| + |body| ==> !OccursAt(pre + start + body + end + post, end, k)
    ensures ExtractText(pre + start + body + end + post, start, end) == Trim(body)
  {
    var h := pre + start + body + end + post;
    var i, j := |pre|, |pre| + |start| + |body|;
    assert h[i..i + |start|] == start;
    assert h[j..j + |end|] == end;
    assert h[i + |start|..j] == body;
    ExtractBetween(h, start, end, i, j);
  }
}
