# Sonus output parsing, in Dafny

Sonus is a PHP wrapper around the `ffmpeg` command-line tool. Its class
`Sonus` runs ffmpeg with a flag (`-version`, `-formats`, `-encoders`,
`-decoders`) through `shell_exec`. It then parses the captured text with
regular expressions:

- the installed version;
- the map of supported formats to their demuxing/muxing flags;
- the lists of audio and video encoders and decoders.

`canEncode` and `canDecode` answer whether a name appears in those lists.
A private helper, `_extractFromString`, cuts the text between two markers
out of a string and can split it on a delimiter.

This project models that parsing logic as pure functions over `string`
(`seq<char>`) and proves what each parser returns.

- `wrappers.dfy` (`Wrappers`): `Option`.
- `text.dfy` (`Text`): the PHP string functions the parsers use.
  - `strpos`/`strstr` search (`IndexOf`);
  - `trim` (`Trim`);
  - `explode` and `implode` (`Explode`, `Join`);
  - ASCII character classes for PCRE `\s`, `\w` and `[0-9]`, and PHP's `trim` set.
- `extract.dfy` (`Extract`): `_extractFromString`.
- `patterns.dfy` (`Patterns`): the format and codec patterns, and `preg_match_all` over them.
  - The format pattern is line 79; the codec patterns are lines 98, 114, 130 and 146.
  - Each pattern is hand-compiled to a declarative `MatchesWith`.
  - `MatchAll` is a left-to-right scanner.
  - `IsMatchAll` is an independent description of what `preg_match_all` returns, with proofs that the scanner meets it and that it determines the result.
- `formats.dfy` (`Formats`): `getSupportedFormats`, with `array_combine` modelled as `Combine`. A repeated key keeps its last value.
- `codecs.dfy` (`Codecs`): the four encoder/decoder list parsers.
- `version.dfy` (`Version`): the version pattern of line 56.
  - `preg_match` is modelled with PCRE's backtracking preference: leftmost position, then the longest major group, then the longest minor group.
  - The revision group is greedy.
- `sonus.dfy` (`Facade`): the `Sonus` class itself. The shell is a parameter of type `string -> string`.
- `samples.dfy` (`Samples`): two short pieces of ffmpeg output worked through the model.

Behaviour worth knowing, all modelled as the code has it:

- **Version dots.** The dots in the version pattern are unescaped, so each one matches any character except a newline. On a development build the banner `ffmpeg version N-109` therefore yields major `""`, minor `""` and revision `"109"` (`Samples.DevelopmentBanner`).
- **Format-line spacing.** A format line is matched only when exactly one whitespace character separates the two-character flag field from the name. A line made of a mux token, a space, a name and a space, such as ` E wav ` or `DE mp3 `, gives that one entry (`Formats.FormatLineRoundTrip`). A line laid out as ` E  wav`, with two spaces after the flags, is not listed by the code's pattern (`Samples.WideMuxerLine`). The model follows the pattern.
- **End-marker search.** `_extractFromString` searches for the end marker from the start of the start marker, not from its end. An end marker that overlaps the start marker therefore gives the empty string (`Extract.ExtractBetween`).
- **Kind letter.** The kind letter of the codec patterns is not anchored to the start of a line.

## Model

| member | source | states |
|---|---|---|
| Extract.ExtractFromString | src/Rafasamp/Sonus/Sonus.php:200-227 | string mode returns the string result and array mode the list result, as the two functions below characterise them; array mode gives at least one element; every string returned is trimmed |
| Extract.ExtractText | src/Rafasamp/Sonus/Sonus.php:203-209 | the string result is trimmed and never longer than the haystack |
| Extract.ExtractWithoutStart | src/Rafasamp/Sonus/Sonus.php:206-214 | when `start` does not occur, the string result is `""` and the array result is `[""]` |
| Extract.ExtractWithoutEnd | src/Rafasamp/Sonus/Sonus.php:206-214 | when no `end` occurs at or after the first `start`, the string result is `""` and the array result is `[""]` |
| Extract.ExtractBetween | src/Rafasamp/Sonus/Sonus.php:203-209 | with `start` first at i and `end` first at j >= i, the result is the trimmed text between the markers, or `""` when `end` begins inside the start marker |
| Extract.ExtractEmbedded | src/Rafasamp/Sonus/Sonus.php:203-209 | extracting from `pre + start + body + end + post` gives back `trim(body)` when the markers do not occur earlier |
| Extract.ExtractList | src/Rafasamp/Sonus/Sonus.php:212-222 | array mode returns one more element than there are delimiter occurrences; element i is the trimmed piece i of the string result cut at the delimiter occurrences a left-to-right scan finds, empty pieces kept; the untrimmed pieces are free of the delimiter and join back to the string result |
| Extract.ListOfEmpty | src/Rafasamp/Sonus/Sonus.php:212-222 | exploding the empty string result gives the one-element list `[""]` |
| Text.Trim | src/Rafasamp/Sonus/Sonus.php:209 | `trim` removes a prefix and a suffix of trim characters and leaves a string with no trim character at either end |
| Text.TrimUnique | src/Rafasamp/Sonus/Sonus.php:209 | any trimmed string obtained by stripping a prefix and a suffix of trim characters is the `trim` result |
| Text.Explode | src/Rafasamp/Sonus/Sonus.php:214 | `explode` returns at least one piece; each piece ends where the leftmost occurrence of the delimiter at or after its start begins, the last one at the end of the text; the pieces are free of the delimiter and joined with it give back the input |
| Text.ExplodeUnique | src/Rafasamp/Sonus/Sonus.php:214 | any pieces that cut the text at the leftmost delimiter occurrences, scanning left to right, are the `explode` result: the description determines it |
| Text.ExplodeLength | src/Rafasamp/Sonus/Sonus.php:214 | `explode` returns exactly one more piece than the number of non-overlapping delimiter occurrences, counted independently |
| Text.IndexFrom | src/Rafasamp/Sonus/Sonus.php:206 | the needle search returns the first occurrence at or after the start position, or none when there is none |
| Patterns.MatchAt | src/Rafasamp/Sonus/Sonus.php:79 | the pattern tried at one position yields a token length exactly when the pattern matches there with that length |
| Patterns.MatchLengthUnique | src/Rafasamp/Sonus/Sonus.php:79 | greedy token followed by mandatory whitespace: at a given position at most one token length matches |
| Patterns.MatchAll | src/Rafasamp/Sonus/Sonus.php:98 | `preg_match_all` returns valid, in-range, non-overlapping matches in left-to-right order |
| Patterns.MatchAllIsMatchAll | src/Rafasamp/Sonus/Sonus.php:79 | the scanner's result has every valid match position covered by a returned match (none is skipped) |
| Patterns.MatchAllUnique | src/Rafasamp/Sonus/Sonus.php:79 | two match lists that both meet the `preg_match_all` description are equal |
| Patterns.SingleMatch | src/Rafasamp/Sonus/Sonus.php:79 | a text that is exactly one match of a pattern yields exactly that one match |
| Patterns.FirstIsLeftmost | src/Rafasamp/Sonus/Sonus.php:79 | the first returned match is at or before every position where the pattern matches |
| Formats.Combine | src/Rafasamp/Sonus/Sonus.php:82 | `array_combine` has exactly the given keys, and each key maps to the value paired with its last occurrence |
| Formats.LastWinsUnique | src/Rafasamp/Sonus/Sonus.php:82 | the last-wins description determines the combined map |
| Formats.FormatLineRoundTrip | src/Rafasamp/Sonus/Sonus.php:79-82 | a single format line written as a mux token, a space, a 3-11 character whitespace-free name and a space parses back to the map from that name to that mux token |
| Formats.SupportedFormats | src/Rafasamp/Sonus/Sonus.php:79-82 | the map is the last-wins combination of all format-line matches; every key is a 3-11 character whitespace-free token with whitespace on both sides in the text, every value a mux token `D`+space, space+`E` or `DE`; no format line gives the empty map |
| Codecs.CodecNames | src/Rafasamp/Sonus/Sonus.php:98 | the names are the tokens of all matches in left-to-right order, without deduplication; each is 3-20 characters of the token class; no matching line gives the empty list |
| Codecs.CodecLineRoundTrip | src/Rafasamp/Sonus/Sonus.php:98 | a single codec line written as the kind letter, five flag characters, one whitespace character, a 3-20 character name of the token class and a space parses back to the list holding just that name |
| Codecs.ListedKind | src/Rafasamp/Sonus/Sonus.php:114 | a listed name was captured from a match that begins with the kind letter (`A` for audio, `V` for video) |
| Version.ParseVersion | src/Rafasamp/Sonus/Sonus.php:56-63 | the record holds the groups of the first match in PCRE preference order; each group is at most three ASCII digits, possibly empty; no record exactly when the pattern matches nowhere |
| Version.FirstMatchUnique | src/Rafasamp/Sonus/Sonus.php:56 | the first match in preference order is unique |
| Version.ParseFirstMatch | src/Rafasamp/Sonus/Sonus.php:56-63 | whenever a match is the first one in preference order, parsing returns its groups |
| Version.BannerRoundTrip | src/Rafasamp/Sonus/Sonus.php:56-63 | a banner `ffmpeg version X.Y.Z` written with groups of up to three digits parses back to those groups |
| Version.FindFrom | src/Rafasamp/Sonus/Sonus.php:56 | the search returns the leftmost matching position at or after the start, with its preferred group lengths |
| Facade.GetConverterPath | src/Rafasamp/Sonus/Sonus.php:40-43 | the path is the ffmpeg path the instance was configured with |
| Facade.GetConverterVersion | src/Rafasamp/Sonus/Sonus.php:49-66 | the version of the `-version` output: the groups of the first banner match in PCRE preference order, digit groups of at most three; none exactly when no banner matches, none for empty output |
| Facade.GetSupportedFormats | src/Rafasamp/Sonus/Sonus.php:72-85 | the map of the `-formats` output is the last-wins combination of the format and mux tokens of all `preg_match_all` matches; every entry comes from a format line, with the shapes of keys and values; empty output gives the empty map |
| Facade.GetSupportedAudioEncoders | src/Rafasamp/Sonus/Sonus.php:91-101 | the list is the captured names of all `preg_match_all` matches of the `A` codec pattern on the `-encoders` output, in listing order with duplicates kept; each comes from a `A` line and is 3-20 non-whitespace characters; empty output gives no names |
| Facade.GetSupportedVideoEncoders | src/Rafasamp/Sonus/Sonus.php:107-117 | the list is the captured names of all `preg_match_all` matches of the `V` codec pattern on the `-encoders` output, in listing order with duplicates kept; each comes from a `V` line and is 3-20 non-whitespace characters; empty output gives no names |
| Facade.GetSupportedAudioDecoders | src/Rafasamp/Sonus/Sonus.php:123-133 | the list is the captured names of all `preg_match_all` matches of the `A` codec pattern on the `-decoders` output, in listing order with duplicates kept; each comes from a `A` line and is 3-20 word characters; empty output gives no names |
| Facade.GetSupportedVideoDecoders | src/Rafasamp/Sonus/Sonus.php:139-149 | the list is the captured names of all `preg_match_all` matches of the `V` codec pattern on the `-decoders` output, in listing order with duplicates kept; each comes from a `V` line and is 3-20 word characters; empty output gives no names |
| Facade.CanEncode | src/Rafasamp/Sonus/Sonus.php:156-168 | true exactly when the name is in the audio or the video encoder list; a true answer means the name was captured from an `A` or `V` line of the `-encoders` output |
| Facade.CanDecode | src/Rafasamp/Sonus/Sonus.php:175-187 | true exactly when the name is in the audio or the video decoder list; a true answer means the name was captured from an `A` or `V` line of the `-decoders` output |
| Samples.DevelopmentBanner | src/Rafasamp/Sonus/Sonus.php:56 | `ffmpeg version N-109` yields major `""`, minor `""`, revision `"109"`, because the unescaped dots match `N` and `-` |
| Samples.WideMuxerLine | src/Rafasamp/Sonus/Sonus.php:79-82 | the line ` E  wav x`, with two spaces after the flags, gives the empty map |

## Left out

- The constructor (Sonus.php lines 21-34) is not modelled: it reads the ffmpeg path from configuration, checks it with `file_exists` and swallows the exception. A `Sonus` value is just the configured path, and `getConverterPath` reads it.
- `shell_exec` is not modelled: spawning a process is I/O. Each query takes a `Shell` function from command line to captured output, and a `null` output is read as the empty string.
- `canEncode` and `canDecode` construct a fresh `Sonus` inside the static method. The model passes the instance and the shell explicitly.
- General PCRE semantics and Unicode character classes are not modelled. The four patterns are hand-compiled with ASCII `\s` (space, tab, newline, vertical tab, form feed, carriage return) and ASCII `\w`. Non-ASCII characters belong to neither class.
- Facade.CanEncode: membership uses exact string equality, not PHP's loose `in_array` comparison. For example, PHP treats the numeric strings `"1e3"` and `"1000"` as equal.
- Facade.CanDecode: membership uses exact string equality, not PHP's loose `in_array` comparison.
- Facade.CanEncode: only one direction is stated between `Listed` and the answer. A name that appears in the output only inside a match hidden by an overlapping earlier match is not captured, so "listed implies encodable" does not hold.
- Facade.CanDecode: the same, for the decoder lists.
- Formats.SupportedFormats: `array_combine` returns an ordered PHP array whose keys keep the order of their first occurrence, and a caller iterating the result sees that order. The model returns a `map`, which has no order: it states which keys exist and what each maps to, not their order.
- PHP 8 string semantics are assumed throughout, and the code does not pin a PHP version: an empty needle is found at position 0 by `strstr`/`strpos` (`Text.IndexOf`), `substr` past the end gives `""` (`Extract.DropPrefix`), and `explode` with an empty delimiter throws. Before PHP 8, `strstr` and `explode` warn and return `false` for an empty needle or delimiter, and `substr` past the end returns `false`, which `trim` turns into `""`.
- Formats.Combine: PHP converts numeric-string keys such as `"264"` to integer array keys. Keys stay strings here, and that does not change which keys exist or what they map to.
- Facade.GetConverterVersion: when the pattern does not match, PHP returns an array of `null`s with undefined-index notices. The model returns `None`.
- Extract.ExtractFromString: PHP 8 throws on an empty delimiter in array mode. The model requires a non-empty delimiter there.
- Extract.ExtractFromString: the `=== true` test on the array flag is modelled as a `bool` parameter. Any non-boolean truthy argument selects string mode in PHP.
- Idempotence of repeated queries is not stated as a lemma: every query is a pure function of the shell's output.
