/**
  Concrete inputs worked through the model: what the parsers make of a few
  short pieces of ffmpeg output.
 */
module Samples {
  import opened Wrappers
  import opened Text
  import opened Patterns
  import Version
  import Formats

  /**
    A development-build banner: the unescaped dots match `N` and `-`, the
    major and minor groups match empty, and the build number lands in the
    revision group.
   */
  lemma DevelopmentBanner()
    ensures Version.ParseVersion("ffmpeg version N-109") == Some(Version.VersionRecord("", "", "109"))
  {
    var s := "ffmpeg version N-109";
    assert OccursAt(s, Version.Banner, 0);
    assert Version.Shape(s, 0, 0, 0);
    assert Version.Preferred(s, 0, 0, 0) by {
      assert s[15] == 'N' && s[16] == '-';
      forall a: nat, b: nat | Version.Shape(s, 0, a, b) ensures a < 0 || (a == 0 && b <= 0) {
      }
    }
    assert Version.IsFirstMatch(s, Version.VersionMatch(0, 0, 0));
    Version.DigitsExact(s, 17, Version.MaxDigits, 3);
    assert s[17..20] == "109";
    Version.ParseFirstMatch(s, Version.VersionMatch(0, 0, 0));
  }

  /**
    The same line with two spaces after the flags is not a format line for
    this pattern: after `\sE\s` the token would have to start at once.
   */
  lemma WideMuxerLine()
    ensures Formats.SupportedFormats(" E  wav x") == map[]
  {
    var s := " E  wav x";
    forall p: nat, n: nat ensures !MatchesWith(FormatLine, s, p, n) {
      if p <= 2 {
        assert !IsMux(s[1..3]) && !IsMux(s[2..4]);
        assert !InClass(s[3], NonSpace);
      }
    }
  }
}
