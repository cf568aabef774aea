/**
  The `Sonus` class (Sonus.php) as pure functions. The instance holds the
  ffmpeg path read from configuration; every query runs ffmpeg once with a
  flag through `shell_exec` and parses the captured output. Here the shell is
  a parameter: a function from command line to captured output (PHP's `null`
  for "no output" reads as the empty string, as `preg_match` reads it).
 */
module Facade {
  import opened Wrappers
  import opened Text
  import opened Patterns
  import Version
  import Formats
  import Codecs

  /** A `Sonus` instance: the configured ffmpeg path. */
  datatype Sonus = Sonus(ffmpeg: string)

  /** `shell_exec`: the captured standard output of a command line. */
  type Shell = string -> string

  /** `getConverterPath`: the stored path. */
  function GetConverterPath(app: Sonus): (r: string)
    ensures r == app.ffmpeg
  {
    app.ffmpeg
  }

  /** The command line `$this->FFMPEG.' '.$flag` a query runs. */
  function Command(app: Sonus, flag: string): string {
    app.ffmpeg + " " + flag
  }

  /** The output of ffmpeg run with `flag`. */
  function Output(app: Sonus, shell: Shell, flag: string): string {
    shell(Command(app, flag))
  }

  /**
    `getConverterVersion`: the groups of the first version banner in the
    `-version` output, each at most three digits; `None` exactly when the
    banner pattern matches nowhere.
   */
  function GetConverterVersion(app: Sonus, shell: Shell): (r: Option<Version.VersionRecord>)
    ensures r.Some? ==> Version.IsGroup(r.value.major) && Version.IsGroup(r.value.minor) && Version.IsGroup(r.value.rev)
    ensures r.Some? ==> exists m :: Version.IsFirstMatch(Output(app, shell, "-version"), m)
                                    && r.value == Version.RecordOf(Output(app, shell, "-version"), m)
    ensures r.None? <==> forall p: nat :: Version.NoMatchAt(Output(app, shell, "-version"), p)
    ensures Output(app, shell, "-version") == "" ==> r.None?
  {
    Version.ParseVersion(Output(app, shell, "-version"))
  }

  /**
    `getSupportedFormats`: format name to mux token for every format line of
    the `-formats` output, a later line for the same name overriding an
    earlier one; the empty map for output without format lines.
   */
  function GetSupportedFormats(app: Sonus, shell: Shell): (r: map<string, string>)
    ensures exists ms :: IsMatchAll(FormatLine, Output(app, shell, "-formats"), 0, ms)
                         && Formats.CombinedFrom(Output(app, shell, "-formats"), ms, r)
    ensures forall k :: k in r ==> Formats.FormatListed(Output(app, shell, "-formats"), k, r[k])
    ensures forall k :: k in r ==> 3 <= |k| <= 11 && (forall i :: 0 <= i < |k| ==> !IsSpace(k[i])) && IsMux(r[k])
    ensures Output(app, shell, "-formats") == "" ==> r == map[]
  {
    Formats.SupportedFormats(Output(app, shell, "-formats"))
  }

  /** `getSupportedAudioEncoders`: every name captured on an `A` line of the `-encoders` output, in listing order. */
  function GetSupportedAudioEncoders(app: Sonus, shell: Shell): (r: seq<string>)
    ensures exists ms :: && IsMatchAll(CodecLine('A', NonSpace), Output(app, shell, "-encoders"), 0, ms)
                         && Spans(CodecLine('A', NonSpace), Output(app, shell, "-encoders"), ms)
                         && r == Tokens(CodecLine('A', NonSpace), Output(app, shell, "-encoders"), ms)
    ensures forall i :: 0 <= i < |r| ==> Listed(CodecLine('A', NonSpace), Output(app, shell, "-encoders"), r[i])
    ensures forall i :: 0 <= i < |r| ==> 3 <= |r[i]| <= 20 && forall k :: 0 <= k < |r[i]| ==> InClass(r[i][k], NonSpace)
    ensures Output(app, shell, "-encoders") == "" ==> r == []
  {
    Codecs.CodecNames(Output(app, shell, "-encoders"), 'A', NonSpace)
  }

  /** `getSupportedVideoEncoders`: every name captured on a `V` line of the `-encoders` output, in listing order. */
  function GetSupportedVideoEncoders(app: Sonus, shell: Shell): (r: seq<string>)
    ensures exists ms :: && IsMatchAll(CodecLine('V', NonSpace), Output(app, shell, "-encoders"), 0, ms)
                         && Spans(CodecLine('V', NonSpace), Output(app, shell, "-encoders"), ms)
                         && r == Tokens(CodecLine('V', NonSpace), Output(app, shell, "-encoders"), ms)
    ensures forall i :: 0 <= i < |r| ==> Listed(CodecLine('V', NonSpace), Output(app, shell, "-encoders"), r[i])
    ensures forall i :: 0 <= i < |r| ==> 3 <= |r[i]| <= 20 && forall k :: 0 <= k < |r[i]| ==> InClass(r[i][k], NonSpace)
    ensures Output(app, shell, "-encoders") == "" ==> r == []
  {
    Codecs.CodecNames(Output(app, shell, "-encoders"), 'V', NonSpace)
  }

  /** `getSupportedAudioDecoders`: every word-character name captured on an `A` line of the `-decoders` output, in listing order. */
  function GetSupportedAudioDecoders(app: Sonus, shell: Shell): (r: seq<string>)
    ensures exists ms :: && IsMatchAll(CodecLine('A', Word), Output(app, shell, "-decoders"), 0, ms)
                         && Spans(CodecLine('A', Word), Output(app, shell, "-decoders"), ms)
                         && r == Tokens(CodecLine('A', Word), Output(app, shell, "-decoders"), ms)
    ensures forall i :: 0 <= i < |r| ==> Listed(CodecLine('A', Word), Output(app, shell, "-decoders"), r[i])
    ensures forall i :: 0 <= i < |r| ==> 3 <= |r[i]| <= 20 && forall k :: 0 <= k < |r[i]| ==> InClass(r[i][k], Word)
    ensures Output(app, shell, "-decoders") == "" ==> r == []
  {
    Codecs.CodecNames(Output(app, shell, "-decoders"), 'A', Word)
  }

  /** `getSupportedVideoDecoders`: every word-character name captured on a `V` line of the `-decoders` output, in listing order. */
  function GetSupportedVideoDecoders(app: Sonus, shell: Shell): (r: seq<string>)
    ensures exists ms :: && IsMatchAll(CodecLine('V', Word), Output(app, shell, "-decoders"), 0, ms)
                         && Spans(CodecLine('V', Word), Output(app, shell, "-decoders"), ms)
                         && r == Tokens(CodecLine('V', Word), Output(app, shell, "-decoders"), ms)
    ensures forall i :: 0 <= i < |r| ==> Listed(CodecLine('V', Word), Output(app, shell, "-decoders"), r[i])
    ensures forall i :: 0 <= i < |r| ==> 3 <= |r[i]| <= 20 && forall k :: 0 <= k < |r[i]| ==> InClass(r[i][k], Word)
    ensures Output(app, shell, "-decoders") == "" ==> r == []
  {
    Codecs.CodecNames(Output(app, shell, "-decoders"), 'V', Word)
  }

  /**
    `canEncode`: membership in `array_merge` of the audio and video encoder
    lists, which is membership in either list. Only a name captured from an
    `A` or `V` line of the `-encoders` output can be encodable.
   */
  function CanEncode(format: string, app: Sonus, shell: Shell): (r: bool)
    ensures r <==> format in GetSupportedAudioEncoders(app, shell) || format in GetSupportedVideoEncoders(app, shell)
    ensures r ==> (|| Listed(CodecLine('A', NonSpace), Output(app, shell, "-encoders"), format)
                   || Listed(CodecLine('V', NonSpace), Output(app, shell, "-encoders"), format))
  {
    format in GetSupportedAudioEncoders(app, shell) + GetSupportedVideoEncoders(app, shell)
  }

  /**
    `canDecode`: membership in `array_merge` of the audio and video decoder
    lists, which is membership in either list. Only a name captured from an
    `A` or `V` line of the `-decoders` output can be decodable.
   */
  function CanDecode(format: string, app: Sonus, shell: Shell): (r: bool)
    ensures r <==> format in GetSupportedAudioDecoders(app, shell) || format in GetSupportedVideoDecoders(app, shell)
    ensures r ==> (|| Listed(CodecLine('A', Word), Output(app, shell, "-decoders"), format)
                   || Listed(CodecLine('V', Word), Output(app, shell, "-decoders"), format))
  {
    format in GetSupportedAudioDecoders(app, shell) + GetSupportedVideoDecoders(app, shell)
  }
}
