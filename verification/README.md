# http-multipart in Dafny

A verified model of the two halves of the `http-multipart` library:

- **Encoder** — Symfony's `MultipartResponse`. It collects parts (each a
  header block and a body), announces `multipart/<subtype>;
  boundary="<boundary>"` with chunked transfer, and writes the parts as one
  body. Each part is framed as `--<boundary>\r\n`, its header lines, a blank
  line, its body and `\r\n`. The body ends with `--<boundary>--` and is
  echoed behind its decimal length.
- **Decoder** — Guzzle's `MultipartResponse`. It sniffs the delimiter out of
  a received body with the regex `--(.*)\b` and splits the body on it. It
  then trims every piece, drops the PHP-falsy ones and walks the rest until
  a piece equal to `--`. Each piece is cut at its first blank line into
  header lines and a body, and every header line is split at its first
  `:\s+`. Keys are lower-cased, and a later duplicate overrides an earlier
  one. The bodies of the parts are queued and handed out one at a time.

Module layout:

- `wrappers.dfy` — `Option` and `Result`.
- `text.dfy` — the PHP string primitives both halves use, each with the
  property that characterizes it:
  - `trim`, `explode` with and without a limit of 2, and `implode`;
  - `strtolower`;
  - the decimal rendering of `strlen`.
- `parts.dfy` — header and part values, and the PHP array assignment
  `$headers[$k] = $v` as an ordered key/value sequence.
- `encoder.dfy` — the Symfony class and the functions that specify it.
- `decoder.dfy` — the two regexes as explicit scanners, the parse pipeline
  as functions, `parseMultipartBody` as an imperative method proved equal
  to them, and the Guzzle class with its queue of bodies.
- `roundtrip.dfy` — what the decoder makes of what the encoder writes.

The two source classes change state step by step, so they are Dafny
classes:

- the Symfony `parts` field is appended in place;
- `sendContent` builds its string with a loop of appends;
- `parseMultipartBody` fills `$parts` and `$headers` in nested loops with an
  early `break`;
- the Guzzle `bodies` field is pushed and shifted.

Each of these methods is proved against a specification function:
`Content`, `ParseBody`, `ParsePart` and `Bodies`. The lemmas about those
functions carry the properties.

The central result is `RoundTrip.DecodeEncoded`. Take a non-empty boundary
made of word characters, and parts such that:

- every part has at least one header;
- no header name contains ':';
- no header name or value contains "\r" or "\n";
- every header value is empty or does not start with white space (`\s`);
- the first header name of a part is empty or does not start with a `trim`
  character;
- every body is non-empty and does not end with a `trim` character;
- the delimiter `--<boundary>` occurs in no header name, value or body.

Then decoding the encoder's body returns every part, in order, with its
body unchanged and its headers lower-cased, last value winning.

## Model

| member | source | states |
|---|---|---|
| Encoder.EffectiveSubtype | src/Symfony/Component/HttpFoundation/MultipartResponse.php:29 | a missing subtype or a PHP-falsy one ("" or "0") becomes "mixed"; any other subtype is kept as given |
| Encoder.MultipartResponse.constructor | src/Symfony/Component/HttpFoundation/MultipartResponse.php:25-35 | the subtype is the effective one; the boundary is as given; the envelope is the header bag built from the given headers; the parts are the given parts in order, or none when the argument is null |
| Encoder.BagOf | src/Symfony/Component/HttpFoundation/MultipartResponse.php:27 | the header bag built from the given headers holds each lower-cased name once |
| Encoder.MultipartResponse.Prepare | src/Symfony/Component/HttpFoundation/MultipartResponse.php:40-46 | the envelope stays a header bag and becomes the old one with `set('Content-Type', …)` and `set('Transfer-Encoding', 'chunked')` applied under the lower-cased names |
| Encoder.AnnounceSpec | src/Symfony/Component/HttpFoundation/MultipartResponse.php:42-43 | after `prepare` content-type holds `multipart/<subtype>; boundary="<boundary>"` and transfer-encoding holds `chunked`; every other name keeps its value; no entry whose name is content-type in any letter case keeps an older value |
| Encoder.SetTwice | src/Symfony/Component/HttpFoundation/MultipartResponse.php:42-43 | two `set` calls under distinct names leave a header bag in which both names hold their new values, every other name is untouched, and no entry of the first name keeps an older value |
| Encoder.ContentTypeParameters | src/Symfony/Component/HttpFoundation/MultipartResponse.php:42 | the announced Content-Type starts with `multipart/`; splitting the rest at `; boundary="` gives back the subtype and the quoted boundary, for any subtype without ';' |
| Encoder.MultipartResponse.SetPart | src/Symfony/Component/HttpFoundation/MultipartResponse.php:55-60 | appends exactly the one part at the end, keeps the earlier parts, and returns the object itself |
| Encoder.MultipartResponse.SetParts | src/Symfony/Component/HttpFoundation/MultipartResponse.php:69-75 | afterwards the parts are the old parts followed by the given ones in order, as if `setPart` ran on each; returns the object itself |
| Encoder.MultipartResponse.GetParts | src/Symfony/Component/HttpFoundation/MultipartResponse.php:82-84 | null exactly when no part was ever added; otherwise the parts in insertion order |
| Encoder.MultipartResponse.SendContent | src/Symfony/Component/HttpFoundation/MultipartResponse.php:91-104 | the loop of appends produces exactly the decimal length of the multipart body, CRLF, and the multipart body of the current parts |
| Encoder.Content | src/Symfony/Component/HttpFoundation/MultipartResponse.php:93-100 | the body ends with `--<boundary>--` and no line break; with no parts it is exactly `--<boundary>--`; otherwise it starts with `--<boundary>\r\n` |
| Encoder.FramesAppend | src/Symfony/Component/HttpFoundation/MultipartResponse.php:94-99 | framing one more part appends that part's frame to the frames already written, so the frames follow the order of the parts |
| Encoder.RenderHeadersJoin | src/Symfony/Component/HttpFoundation/MultipartResponse.php:96 | a non-empty header block is its `name: value` lines joined by CRLF, plus a final CRLF |
| Encoder.LengthPrefix | src/Symfony/Component/HttpFoundation/MultipartResponse.php:102 | the echoed text splits at its first CRLF into a decimal numeral and the body, and the numeral's value is the body's length |
| Text.DecimalRoundTrip | src/Symfony/Component/HttpFoundation/MultipartResponse.php:102 | reading back the decimal rendering of a length gives that length |
| Encoder.MultipartResponse.SetContent | src/Symfony/Component/HttpFoundation/MultipartResponse.php:111-116 | succeeds exactly for null content; any other content fails with `ContentNotSettable`; the state is unchanged either way |
| Encoder.MultipartResponse.GetContent | src/Symfony/Component/HttpFoundation/MultipartResponse.php:123-126 | always false |
| Decoder.LineEndSpec | src/GuzzleHttp/Message/MultipartResponse.php:47 | the scan stops at the first "\n" or at the end, and no "\n" lies before it: the reach of `.*` |
| Decoder.LastBoundarySpec | src/GuzzleHttp/Message/MultipartResponse.php:47 | the greedy `(.*)` backing off: the largest word-boundary position in the range, or none when the range has none |
| Decoder.MatchEndSpec | src/GuzzleHttp/Message/MultipartResponse.php:47 | anchored at a position, the pattern matches exactly up to the ends that `DelimiterMatch` admits, and the end chosen is the longest |
| Decoder.SearchAt | src/GuzzleHttp/Message/MultipartResponse.php:47 | the scan stops at the first start position where an anchored match exists, and reports none when no position from there on has one |
| Decoder.SearchSpec | src/GuzzleHttp/Message/MultipartResponse.php:47 | the match found has no match starting before it and no longer match at its start; when there is none, nothing matches from that point on |
| Decoder.FindDelimiterSpec | src/GuzzleHttp/Message/MultipartResponse.php:47 | no delimiter exactly when `--(.*)\b` matches nowhere; otherwise the delimiter is the text of the leftmost, longest match |
| Decoder.ParseBodyNoDelimiter | src/GuzzleHttp/Message/MultipartResponse.php:47-48 | decoding fails with `NoDelimiter` exactly when the regex matches nowhere in the body |
| Text.JoinExplode | src/GuzzleHttp/Message/MultipartResponse.php:48 | joining the pieces of `explode` with the separator gives back the original string, for every string |
| Text.ExplodeJoin | src/GuzzleHttp/Message/MultipartResponse.php:56 | `explode` recovers the pieces that were joined, when no piece contains the separator's first character |
| Text.ExplodeStep | src/GuzzleHttp/Message/MultipartResponse.php:48 | when the separator does not occur before `x`'s end, the pieces of `x + sep + y` are `x` followed by the pieces of `y` |
| Text.TrimLeftSpec | src/GuzzleHttp/Message/MultipartResponse.php:48 | left trimming keeps a suffix and removes only trim characters |
| Text.TrimRightSpec | src/GuzzleHttp/Message/MultipartResponse.php:48 | right trimming keeps a prefix and removes only trim characters |
| Text.Trim | src/GuzzleHttp/Message/MultipartResponse.php:48 | the trimmed string neither starts nor ends with one of " \t\n\r\0\x0B" |
| Text.TrimOf | src/GuzzleHttp/Message/MultipartResponse.php:48 | trimming removes exactly the surrounding trim characters and nothing of a core that neither starts nor ends with one |
| Decoder.DropFalsyMembers | src/GuzzleHttp/Message/MultipartResponse.php:48 | exactly the entries that are neither "" nor "0" survive the filter |
| Decoder.DropFalsyAppend | src/GuzzleHttp/Message/MultipartResponse.php:48 | filtering commutes with concatenation, so the survivors keep their relative order |
| Decoder.TerminatorStops | src/GuzzleHttp/Message/MultipartResponse.php:50-53 | nothing after the first segment equal to "--" contributes a part |
| Decoder.ParseSegmentsParts | src/GuzzleHttp/Message/MultipartResponse.php:50-64 | a successful walk yields, in order, the parts of the segments before the first "--", and all of them when there is none |
| Decoder.ParseSegmentsErrors | src/GuzzleHttp/Message/MultipartResponse.php:50-64 | the walk fails only as a segment fails: a missing blank line or a header line without a separator |
| Text.SplitOnce | src/GuzzleHttp/Message/MultipartResponse.php:55 | `explode` with limit 2 gives two pieces that rebuild the input around the separator |
| Text.SplitOnceSpec | src/GuzzleHttp/Message/MultipartResponse.php:55 | the split is at the first occurrence of the separator, and there is no split exactly when the separator does not occur |
| Text.SplitOnceAt | src/GuzzleHttp/Message/MultipartResponse.php:55 | when the separator first occurs right after `x`, the split gives exactly `x` and the rest |
| Decoder.ParsePartBody | src/GuzzleHttp/Message/MultipartResponse.php:55 | a parsed part's body is everything after the first "\r\n\r\n" of the segment, verbatim, so later blank lines stay in the body |
| Decoder.ParsePartErrors | src/GuzzleHttp/Message/MultipartResponse.php:55-59 | a segment fails with `MissingBlankLine` exactly when it has no "\r\n\r\n"; any other failure is `MissingSeparator` |
| Decoder.ParseHeaderLinesErrors | src/GuzzleHttp/Message/MultipartResponse.php:56-59 | header parsing fails exactly when some line does not split at `:\s+`, and the error names the first such line |
| Decoder.ParseHeaderLinesOk | src/GuzzleHttp/Message/MultipartResponse.php:56-59 | when every line splits, the header map is the in-order assignment of each (key, value) pair under its lower-cased key |
| Decoder.FirstColonSpaceSpec | src/GuzzleHttp/Message/MultipartResponse.php:57 | the position found is the first `:` followed by white space; none is found exactly when there is none |
| Decoder.SkipSpacesSpec | src/GuzzleHttp/Message/MultipartResponse.php:57 | `\s+` takes the whole run of white space: all skipped characters are white space and the next one is not |
| Decoder.SplitHeaderLineSpec | src/GuzzleHttp/Message/MultipartResponse.php:57 | the key is the text before the first `:\s+`, the value the text after the whole white-space run, which does not start with white space; no split exactly when the line has no `:\s+` |
| Text.Lower | src/GuzzleHttp/Message/MultipartResponse.php:58 | same length; ASCII upper-case letters become lower-case and every other character is kept |
| Parts.PutSpec | src/GuzzleHttp/Message/MultipartResponse.php:58 | after the assignment the key maps to the new value and every other key keeps its value; an existing key keeps its place, a new key goes last |
| Parts.PutKeepsUnique | src/GuzzleHttp/Message/MultipartResponse.php:58 | the assignment keeps every key present once |
| Parts.NormalizeLastWins | src/GuzzleHttp/Message/MultipartResponse.php:56-59 | each lower-cased key maps to the value of the last header with that key (the reference definition `LastValue`), or to the earlier value when no header has it |
| Parts.NormalizeUnique | src/GuzzleHttp/Message/MultipartResponse.php:56-59 | the header map holds each key once |
| Parts.NormalizeDistinct | src/GuzzleHttp/Message/MultipartResponse.php:56-59 | when no two headers share a lower-cased name, the map is the headers with their names lower-cased, in order |
| Decoder.ParseMessage | src/GuzzleHttp/Message/MultipartResponse.php:54-63 | the loop body for one segment computes exactly `ParsePart`: blank-line split, then a fresh header map filled line by line |
| Decoder.ParseMultipartBody | src/GuzzleHttp/Message/MultipartResponse.php:44-67 | the nested loops with their early `break` compute exactly `ParseBody`: the parts of the segments before the first "--", or the first error |
| Decoder.MultipartResponse.constructor | src/GuzzleHttp/Message/MultipartResponse.php:12-13 | the queue of bodies starts empty |
| Decoder.RemoveHeader | src/GuzzleHttp/Message/MultipartResponse.php:21-22 | exactly the headers whose names differ from the given one, ignoring ASCII case, remain, with their values |
| Decoder.MultipartResponse.SetBody | src/GuzzleHttp/Message/MultipartResponse.php:18-27 | null removes Content-Length and Transfer-Encoding and queues nothing; a body that decodes appends its parts' bodies, in part order, after the queued ones; a body that fails leaves the queue unchanged and reports the error |
| Decoder.MultipartResponse.QueueBodies | src/GuzzleHttp/Message/MultipartResponse.php:24-26 | the queue becomes the old queue followed by the bodies of the parts, in order |
| Decoder.BodiesAppend | src/GuzzleHttp/Message/MultipartResponse.php:24-26 | one more part queues its body after the bodies of the earlier parts |
| Decoder.MultipartResponse.GetBody | src/GuzzleHttp/Message/MultipartResponse.php:32-35 | removes and returns the oldest queued body; returns null and leaves the queue empty once it is empty |
| RoundTrip.DelimiterAtStart | src/GuzzleHttp/Message/MultipartResponse.php:47 | at the start of the encoded body the pattern matches `--<boundary>` and no longer text, because the boundary is followed by "\r\n" or "--" |
| RoundTrip.FindDelimiterOfContent | src/GuzzleHttp/Message/MultipartResponse.php:47 | on the encoder's body the regex finds exactly `--<boundary>` for a word-character boundary (e.g. `--abc123` in `--abc123\r\nA: 1\r\n\r\nhello\r\n--abc123--`) |
| RoundTrip.SegmentsOfContent | src/GuzzleHttp/Message/MultipartResponse.php:48 | the encoder's body splits, trims and filters into one header-block-and-body segment per part, then "--" |
| RoundTrip.ParseCore | src/GuzzleHttp/Message/MultipartResponse.php:54-63 | a rendered part's trimmed segment parses back into the part with its header map normalized |
| RoundTrip.DuplicateHeader | src/GuzzleHttp/Message/MultipartResponse.php:58 | two header lines with the same name (`X: 1`, `X: 2`) give one lower-cased key holding the later value |
| RoundTrip.DecodeEncoded | src/GuzzleHttp/Message/MultipartResponse.php:44-67 | decoding the encoder's body gives back every part in order, bodies verbatim, headers normalized, for a word-character boundary absent from all headers and bodies |
| RoundTrip.DecodeEncodedParts | src/GuzzleHttp/Message/MultipartResponse.php:56-63 | part by part: the body is the original, each key occurs once, and each lower-cased key holds the value of the last original header with that name |
| RoundTrip.DecodeEncodedDistinct | src/GuzzleHttp/Message/MultipartResponse.php:58 | with no two headers of a part sharing a lower-cased name, each decoded part is the original with lower-cased header names |
| RoundTrip.DecodeEncodedEmpty | src/Symfony/Component/HttpFoundation/MultipartResponse.php:100 | encoding no parts (the body `--<boundary>--`) and decoding gives no parts, not an error |

## Left out

- The boundary, `md5(microtime())` in the constructor, is a parameter: it
  depends on the clock and a hash. The round trip assumes a boundary of
  word characters, which a hex digest is.
- `echo` is I/O: `SendContent` returns the string it would write.
- Parent classes are not part of this model: Symfony's and Guzzle's
  `Response` constructors, `parent::prepare` and its `Request` argument,
  status codes, and Guzzle's `removeHeader` internals (modelled as
  case-insensitive removal from a map).
- A Symfony part is a `Response` object. Only its headers and its content
  are modelled. Its header block is rendered as `name: value\r\n` lines in
  stored order, standing in for `HeaderBag::__toString`, which sorts,
  capitalizes and pads names.
- Streams (`StreamInterface`, `Stream::factory`) are strings.
- Only the two regexes are modelled, as explicit scanners: `--(.*)\b` and
  `:\s+`. `.` is everything but "\n", `\b` and `\w` are ASCII
  `[A-Za-z0-9_]`, and `\s` is space, \t, \n, \x0B, \x0C and \r. There is no
  general PCRE and no locale.
- Bytes are characters; `strtolower` is ASCII only.
- src/GuzzleHttp/Message/MultipartMessageFactory.php is not part of this
  model: it only wraps `Stream::factory` and a constructor call.
- Failures are explicit error values:
  - no regex match gives `NoDelimiter`;
  - a segment without "\r\n\r\n" gives `MissingBlankLine`;
  - a header line without `:\s+` gives `MissingSeparator`.

  The PHP code instead goes on with `null` and emits notices and warnings.
  With no match it calls `explode` with an empty separator. On a failing
  segment it stores a null body or value. Decoding is modelled as
  all-or-nothing, so a failing body queues nothing.
- Decoder.MultipartResponse.SetBody: for a null body it models only the
  header removal. In the source, the null then reaches the typed parameter
  of `parseMultipartBody`, which is a PHP type error rather than behaviour.
- Encoder.LengthPrefix: the length prefix is decimal, as the source writes
  it, not the hexadecimal chunk size of HTTP/1.1 chunked coding (section 4.1
  of RFC 7230). The round trip is stated for the multipart body, not for
  the echoed text with its prefix.
- RoundTrip.DecodeEncoded: stated under sufficient conditions, not exact
  ones. They are the complete list given above: at least one header, no
  ':' in a name, no line break in a name or value, no value starting with
  white space, no first name starting with a `trim` character, a non-empty
  body not ending with one, and no `--<boundary>` in any name, value or
  body. Outside these conditions the decoder can still succeed, but it may
  return different parts, and the model and PHP can part ways. A part with
  an empty body, for one, is trimmed down to its header lines, so its
  segment has no "\r\n\r\n": PHP then keeps the part with a `null` body,
  while the model reports `MissingBlankLine` and the whole decode fails.
- Encoder.MultipartResponse.Prepare: `HeaderBag` is not part of this model.
  The envelope is modelled as an ordered list of names, each stored once and
  lower-cased, with `set` as assignment under the lower-cased name, so a
  Content-Type given in any letter case is replaced. Value lists, the
  `replace = false` mode and any rewriting of names beyond ASCII lower-casing
  are not modelled.
