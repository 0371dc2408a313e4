/** The decoding side: Guzzle's `MultipartResponse`, which sniffs the
    delimiter from the body, splits the body into parts and queues their
    bodies for one-at-a-time reading. */
module Decoder {
  import opened Wrappers
  import opened Text
  import opened Parts

  datatype DecodeError =
    | NoDelimiter                        // `--(.*)\b` matches nowhere
    | MissingBlankLine(segment: string)  // a segment without "\r\n\r\n"
    | MissingSeparator(line: string)     // a header line without `:\s+`

  // ---------------------------------------------------------------------
  // preg_match('/--(.*)\b/', $body)

  /** PCRE `\b` at index `i` (0 <= i <= |s|): exactly one of the characters
      around `i` is a word character. */
  predicate WordBoundaryAt(s: string, i: int)
    requires 0 <= i <= |s|
  {
    (i > 0 && IsWordChar(s[i - 1])) != (i < |s| && IsWordChar(s[i]))
  }

  /** `--(.*)\b` can match `s[p..e]`: it starts with "--", `.` never crosses
      a "\n", and a word boundary follows. */
  predicate DelimiterMatch(s: string, p: int, e: int) {
    0 <= p && p + 2 <= e <= |s| && s[p..p + 2] == "--" &&
    (forall k :: p + 2 <= k < e ==> s[k] != '\n') && WordBoundaryAt(s, e)
  }

  /** The first "\n" at or after `i`, or |s|. */
  function LineEnd(s: string, i: nat): (r: nat)
    requires i <= |s|
    ensures i <= r <= |s|
    decreases |s| - i
  {
    if i == |s| || s[i] == '\n' then i else LineEnd(s, i + 1)
  }

  lemma {:induction false} LineEndSpec(s: string, i: nat)
    requires i <= |s|
    ensures forall k :: i <= k < LineEnd(s, i) ==> s[k] != '\n'
    ensures LineEnd(s, i) < |s| ==> s[LineEnd(s, i)] == '\n'
    decreases |s| - i
  {
    if i < |s| && s[i] != '\n' {
      LineEndSpec(s, i + 1);
    }
  }

  /** The greedy `(.*)` backing off: the largest word boundary in
      [lo, hi]. */
  function LastBoundary(s: string, lo: nat, hi: nat): (r: Option<nat>)
    requires lo <= hi <= |s|
    ensures r.Some? ==> lo <= r.value <= hi
    decreases hi - lo
  {
    if WordBoundaryAt(s, hi) then Some(hi)
    else if hi == lo then None
    else LastBoundary(s, lo, hi - 1)
  }

  lemma {:induction false} LastBoundarySpec(s: string, lo: nat, hi: nat)
    requires lo <= hi <= |s|
    ensures var r := LastBoundary(s, lo, hi);
      (r.Some? ==> WordBoundaryAt(s, r.value) &&
                   forall e :: r.value < e <= hi ==> !WordBoundaryAt(s, e)) &&
      (r.None? ==> forall e :: lo <= e <= hi ==> !WordBoundaryAt(s, e))
    decreases hi - lo
  {
    if !WordBoundaryAt(s, hi) && hi > lo {
      LastBoundarySpec(s, lo, hi - 1);
    }
  }

  /** The end of the match anchored at `p`, if any. */
  function MatchEnd(s: string, p: nat): (r: Option<nat>)
    ensures r.Some? ==> p + 2 <= r.value <= |s|
  {
    if p + 2 <= |s| && s[p..p + 2] == "--" then LastBoundary(s, p + 2, LineEnd(s, p + 2))
    else None
  }

  /** Anchored at `p`, the pattern matches exactly up to the ends `e` with
      `DelimiterMatch(s, p, e)`, and `MatchEnd` picks the longest. */
  lemma MatchEndSpec(s: string, p: nat)
    ensures var r := MatchEnd(s, p);
      (r.Some? ==> DelimiterMatch(s, p, r.value) &&
                   forall e :: r.value < e ==> !DelimiterMatch(s, p, e)) &&
      (r.None? ==> forall e :: !DelimiterMatch(s, p, e))
  {
    if p + 2 <= |s| && s[p..p + 2] == "--" {
      var hi := LineEnd(s, p + 2);
      LineEndSpec(s, p + 2);
      LastBoundarySpec(s, p + 2, hi);
      forall e | hi < e <= |s| ensures !DelimiterMatch(s, p, e) {
        assert s[hi] == '\n';
      }
    }
  }

  /** The leftmost start position at or after `from` where the pattern
      matches, with the end `MatchEnd` gives there. */
  function Search(s: string, from: nat): (r: Option<(nat, nat)>)
    ensures r.Some? ==> from <= r.value.0 && r.value.0 + 2 <= r.value.1 <= |s|
    decreases |s| - from
  {
    if from + 2 > |s| then None
    else
      match MatchEnd(s, from)
      case Some(e) => Some((from, e))
      case None => Search(s, from + 1)
  }

  /** `Search` stops at the first position where `MatchEnd` succeeds. */
  lemma {:induction false} SearchAt(s: string, from: nat)
    ensures var r := Search(s, from);
      (r.Some? ==> MatchEnd(s, r.value.0) == Some(r.value.1) &&
                   forall p :: from <= p < r.value.0 ==> MatchEnd(s, p).None?) &&
      (r.None? ==> forall p :: from <= p ==> MatchEnd(s, p).None?)
    decreases |s| - from
  {
    if from + 2 <= |s| && MatchEnd(s, from).None? {
      SearchAt(s, from + 1);
    }
  }

  /** PCRE's leftmost-longest match of `--(.*)\b`, from `from` on. */
  lemma SearchSpec(s: string, from: nat)
    ensures var r := Search(s, from);
      (r.Some? ==> DelimiterMatch(s, r.value.0, r.value.1) &&
                   (forall p, e :: from <= p < r.value.0 ==> !DelimiterMatch(s, p, e)) &&
                   (forall e :: r.value.1 < e ==> !DelimiterMatch(s, r.value.0, e))) &&
      (r.None? ==> forall p, e :: from <= p ==> !DelimiterMatch(s, p, e))
  {
    var r := Search(s, from);
    SearchAt(s, from);
    var stop := if r.Some? then r.value.0 else |s| + 1;
    forall p, e | from <= p < stop ensures !DelimiterMatch(s, p, e) {
      MatchEndSpec(s, p);
    }
    if r.Some? {
      MatchEndSpec(s, r.value.0);
    } else {
      forall p, e | from <= p ensures !DelimiterMatch(s, p, e) {
        if p < stop {
          MatchEndSpec(s, p);
        }
      }
    }
  }

  /** `$boundary[0]` after `preg_match('/--(.*)\b/', $body, $boundary)`:
      the whole match, or `None` when nothing matches. */
  function FindDelimiter(s: string): (r: Option<string>)
    ensures r.Some? ==> |r.value| >= 2
  {
    match Search(s, 0)
    case None => None
    case Some((p, e)) => Some(s[p..e])
  }

  /** The detected delimiter is the leftmost match, extended as far as a
      word boundary on its line allows; no match means no delimiter. */
  lemma FindDelimiterSpec(s: string)
    ensures FindDelimiter(s).None? <==> forall p, e :: !DelimiterMatch(s, p, e)
    ensures FindDelimiter(s).Some? ==>
      exists p, e :: DelimiterMatch(s, p, e) && FindDelimiter(s).value == s[p..e] &&
        (forall p', e' :: p' < p ==> !DelimiterMatch(s, p', e')) &&
        (forall e' :: e < e' ==> !DelimiterMatch(s, p, e'))
  {
    SearchSpec(s, 0);
    var r := Search(s, 0);
    if r.None? {
      forall p, e ensures !DelimiterMatch(s, p, e) {
        if p >= 0 { assert 0 <= p; }
      }
    } else {
      var p, e := r.value.0, r.value.1;
      assert DelimiterMatch(s, p, e) && FindDelimiter(s).value == s[p..e];
    }
  }

  // ---------------------------------------------------------------------
  // array_filter(array_map('trim', explode($boundary[0], $body)))

  /** PHP's falsy strings. */
  predicate Falsy(s: string) {
    s == "" || s == "0"
  }

  function TrimAll(xs: seq<string>): (r: seq<string>)
    ensures |r| == |xs|
  {
    if xs == [] then [] else [Trim(xs[0])] + TrimAll(xs[1..])
  }

  /** `array_filter`: drop falsy entries, keep the others in order. */
  function DropFalsy(xs: seq<string>): (r: seq<string>)
    ensures |r| <= |xs|
  {
    if xs == [] then []
    else if Falsy(xs[0]) then DropFalsy(xs[1..])
    else [xs[0]] + DropFalsy(xs[1..])
  }

  /** Exactly the non-falsy entries survive. */
  lemma {:induction false} DropFalsyMembers(xs: seq<string>)
    ensures forall x :: x in DropFalsy(xs) <==> x in xs && !Falsy(x)
  {
    if xs != [] {
      DropFalsyMembers(xs[1..]);
      assert xs == [xs[0]] + xs[1..];
    }
  }

  lemma {:induction false} DropFalsyAppend(xs: seq<string>, ys: seq<string>)
    ensures DropFalsy(xs + ys) == DropFalsy(xs) + DropFalsy(ys)
  {
    if xs == [] {
      assert xs + ys == ys;
    } else {
      assert (xs + ys)[0] == xs[0];
      assert (xs + ys)[1..] == xs[1..] + ys;
      DropFalsyAppend(xs[1..], ys);
    }
  }

  /** The segments the parser walks through. */
  function Segments(body: string, delimiter: string): seq<string>
    requires |delimiter| > 0
  {
    DropFalsy(TrimAll(Explode(delimiter, body)))
  }

  // ---------------------------------------------------------------------
  // preg_split('/:\s+/', $header_line, 2)

  /** `:\s+` can start at index `i`. */
  predicate ColonSpaceAt(line: string, i: int) {
    0 <= i && i + 1 < |line| && line[i] == ':' && IsPcreSpace(line[i + 1])
  }

  function FirstColonSpace(line: string, from: nat): (r: Option<nat>)
    ensures r.Some? ==> from <= r.value && r.value + 1 < |line|
    decreases |line| - from
  {
    if from + 1 >= |line| then None
    else if ColonSpaceAt(line, from) then Some(from)
    else FirstColonSpace(line, from + 1)
  }

  lemma {:induction false} FirstColonSpaceSpec(line: string, from: nat)
    ensures var r := FirstColonSpace(line, from);
      (r.Some? ==> ColonSpaceAt(line, r.value) &&
                   forall i :: from <= i < r.value ==> !ColonSpaceAt(line, i)) &&
      (r.None? ==> forall i :: from <= i ==> !ColonSpaceAt(line, i))
    decreases |line| - from
  {
    if from + 1 < |line| && !ColonSpaceAt(line, from) {
      FirstColonSpaceSpec(line, from + 1);
    }
  }

  /** The end of the run of `\s` characters starting at `i`. */
  function SkipSpaces(line: string, i: nat): (r: nat)
    requires i <= |line|
    ensures i <= r <= |line|
    decreases |line| - i
  {
    if i < |line| && IsPcreSpace(line[i]) then SkipSpaces(line, i + 1) else i
  }

  lemma {:induction false} SkipSpacesSpec(line: string, i: nat)
    requires i <= |line|
    ensures forall j :: i <= j < SkipSpaces(line, i) ==> IsPcreSpace(line[j])
    ensures SkipSpaces(line, i) == |line| || !IsPcreSpace(line[SkipSpaces(line, i)])
    decreases |line| - i
  {
    if i < |line| && IsPcreSpace(line[i]) {
      SkipSpacesSpec(line, i + 1);
    }
  }

  /** `preg_split('/:\s+/', $line, 2)`: key and value around the first
      `:\s+`; `None` when there is none. */
  function SplitHeaderLine(line: string): Option<(string, string)> {
    match FirstColonSpace(line, 0)
    case None => None
    case Some(i) =>
      var j := SkipSpaces(line, i + 1);
      Some((line[..i], line[j..]))
  }

  /** The key is everything before the first `:` that is followed by white
      space; the separator takes the whole run of white space, so the value
      does not start with white space. */
  lemma SplitHeaderLineSpec(line: string)
    ensures var r := SplitHeaderLine(line);
      (r.Some? ==>
        var (key, value) := r.value;
        |key| + 2 + |value| <= |line| &&
        line[..|key|] == key && line[|line| - |value|..] == value &&
        ColonSpaceAt(line, |key|) &&
        (forall j :: |key| + 1 <= j < |line| - |value| ==> IsPcreSpace(line[j])) &&
        (value == [] || !IsPcreSpace(value[0])) &&
        (forall i :: 0 <= i < |key| ==> !ColonSpaceAt(line, i))) &&
      (r.None? <==> forall i :: !ColonSpaceAt(line, i))
  {
    FirstColonSpaceSpec(line, 0);
    match FirstColonSpace(line, 0)
    case None =>
      forall i ensures !ColonSpaceAt(line, i) {
        if i >= 0 { assert 0 <= i; }
      }
    case Some(i) =>
      SkipSpacesSpec(line, i + 1);
  }

  // ---------------------------------------------------------------------
  // Parsing segments into parts

  /** The inner `foreach`: each header line assigned into the map under its
      lower-cased key. */
  function ParseHeaderLines(acc: seq<Header>, lines: seq<string>): Result<seq<Header>, DecodeError>
    decreases |lines|
  {
    if lines == [] then Ok(acc)
    else
      match SplitHeaderLine(lines[0])
      case None => Err(MissingSeparator(lines[0]))
      case Some((key, value)) => ParseHeaderLines(Put(acc, Lower(key), value), lines[1..])
  }

  /** One segment: header block before the first "\r\n\r\n", body after it
      verbatim. */
  function ParsePart(segment: string): Result<Part, DecodeError> {
    match SplitOnce("\r\n\r\n", segment)
    case None => Err(MissingBlankLine(segment))
    case Some((block, body)) =>
      match ParseHeaderLines([], Explode("\r\n", block))
      case Err(e) => Err(e)
      case Ok(headers) => Ok(Part(headers, body))
  }

  /** The outer `foreach`: parse segments in order, stopping at the first
      segment "--". */
  function ParseSegments(ms: seq<string>): Result<seq<Part>, DecodeError> {
    if ms == [] || ms[0] == "--" then Ok([])
    else
      match ParsePart(ms[0])
      case Err(e) => Err(e)
      case Ok(p) =>
        match ParseSegments(ms[1..])
        case Err(e) => Err(e)
        case Ok(ps) => Ok([p] + ps)
  }

  /** The parts `ps` already parsed, followed by the outcome `r` for the
      remaining segments. */
  function Prefixed(ps: seq<Part>, r: Result<seq<Part>, DecodeError>): Result<seq<Part>, DecodeError> {
    match r
    case Err(e) => Err(e)
    case Ok(qs) => Ok(ps + qs)
  }

  lemma PrefixedUnit(r: Result<seq<Part>, DecodeError>)
    ensures Prefixed([], r) == r
  {
    if r.Ok? {
      assert [] + r.value == r.value;
    }
  }

  lemma PrefixedStep(ps: seq<Part>, p: Part, r: Result<seq<Part>, DecodeError>)
    ensures Prefixed(ps, Prefixed([p], r)) == Prefixed(ps + [p], r)
  {
    if r.Ok? {
      assert ps + ([p] + r.value) == (ps + [p]) + r.value;
    }
  }

  /** One step of the walk, at index `i`. */
  lemma ParseSegmentsAt(ms: seq<string>, i: nat)
    requires i < |ms|
    ensures ParseSegments(ms[i..]) ==
      if ms[i] == "--" then Ok([])
      else match ParsePart(ms[i])
        case Err(e) => Err(e)
        case Ok(p) => Prefixed([p], ParseSegments(ms[i + 1..]))
  {
    assert ms[i..][0] == ms[i] && ms[i..][1..] == ms[i + 1..];
  }

  /** `parseMultipartBody`, as a function of the body. */
  function ParseBody(body: string): Result<seq<Part>, DecodeError> {
    match FindDelimiter(body)
    case None => Err(NoDelimiter)
    case Some(d) => ParseSegments(Segments(body, d))
  }

  /** A successful walk yields, in order, the parts of the segments before
      the first "--", all of them when there is none. */
  lemma {:induction false} ParseSegmentsParts(ms: seq<string>)
    ensures var r := ParseSegments(ms);
      r.Ok? ==> (|r.value| <= |ms| &&
        (forall i :: 0 <= i < |r.value| ==> ms[i] != "--" && ParsePart(ms[i]) == Ok(r.value[i])) &&
        ("--" !in ms ==> |r.value| == |ms|))
  {
    if ms != [] && ms[0] != "--" && ParsePart(ms[0]).Ok? {
      var rest := ms[1..];
      ParseSegmentsParts(rest);
      if ParseSegments(rest).Ok? {
        ParseSegmentsCons(ms);
      }
    }
  }

  /** One step of `ParseSegmentsParts`: the first part in front of the
      parts of the rest. */
  lemma ParseSegmentsCons(ms: seq<string>)
    requires ms != [] && ms[0] != "--" && ParsePart(ms[0]).Ok? && ParseSegments(ms[1..]).Ok?
    requires var rest := ParseSegments(ms[1..]).value;
      |rest| <= |ms[1..]| &&
      (forall i :: 0 <= i < |rest| ==> ms[1..][i] != "--" && ParsePart(ms[1..][i]) == Ok(rest[i])) &&
      ("--" !in ms[1..] ==> |rest| == |ms[1..]|)
    ensures var r := ParseSegments(ms);
      r.Ok? && |r.value| <= |ms| &&
      (forall i :: 0 <= i < |r.value| ==> ms[i] != "--" && ParsePart(ms[i]) == Ok(r.value[i])) &&
      ("--" !in ms ==> |r.value| == |ms|)
  {
    var p := ParsePart(ms[0]).value;
    var rest := ParseSegments(ms[1..]).value;
    var r := ParseSegments(ms).value;
    assert r == [p] + rest;
    forall i | 0 <= i < |r|
      ensures ms[i] != "--" && ParsePart(ms[i]) == Ok(r[i])
    {
      if i > 0 {
        assert ms[i] == ms[1..][i - 1] && r[i] == rest[i - 1];
      }
    }
    if "--" !in ms {
      assert "--" !in ms[1..];
    }
  }

  /** Nothing after the first "--" segment contributes a part. */
  lemma {:induction false} TerminatorStops(xs: seq<string>, ys: seq<string>)
    ensures ParseSegments(xs + ["--"] + ys) == ParseSegments(xs)
  {
    if xs == [] {
      assert (xs + ["--"] + ys)[0] == "--";
    } else {
      assert (xs + ["--"] + ys)[1..] == xs[1..] + ["--"] + ys;
      TerminatorStops(xs[1..], ys);
    }
  }

  /** The (key, value) pair of every header line, when each has `:\s+`. */
  function Pairs(lines: seq<string>): (r: seq<Header>)
    requires forall i :: 0 <= i < |lines| ==> SplitHeaderLine(lines[i]).Some?
    ensures |r| == |lines|
  {
    if lines == [] then []
    else
      assert forall i :: 1 <= i < |lines| ==> lines[1..][i - 1] == lines[i];
      var (key, value) := SplitHeaderLine(lines[0]).value;
      [Header(key, value)] + Pairs(lines[1..])
  }

  /** When every line splits, the header map is the fold that assigns each
      pair in order under its lower-cased key, so `NormalizeLastWins`
      applies: a later duplicate wins. */
  lemma {:induction false} ParseHeaderLinesOk(acc: seq<Header>, lines: seq<string>)
    requires forall i :: 0 <= i < |lines| ==> SplitHeaderLine(lines[i]).Some?
    ensures ParseHeaderLines(acc, lines) == Ok(Normalize(acc, Pairs(lines)))
    decreases |lines|
  {
    if lines != [] {
      var (key, value) := SplitHeaderLine(lines[0]).value;
      assert forall i :: 1 <= i < |lines| ==> lines[1..][i - 1] == lines[i];
      var ps := Pairs(lines);
      assert ps[0] == Header(key, value) && ps[1..] == Pairs(lines[1..]);
      ParseHeaderLinesOk(Put(acc, Lower(key), value), lines[1..]);
    }
  }

  /** A parsed part's body is everything after the FIRST "\r\n\r\n" of
      the segment, verbatim. */
  lemma ParsePartBody(segment: string)
    ensures ParsePart(segment).Ok? ==>
      exists block :: segment == block + "\r\n\r\n" + ParsePart(segment).value.body &&
        forall k :: 0 <= k < |block| ==> !MatchesAt(segment, k, "\r\n\r\n")
  {
    var m := SplitOnce("\r\n\r\n", segment);
    SplitOnceSpec("\r\n\r\n", segment);
    if ParsePart(segment).Ok? {
      var block := m.value.0;
      assert segment == block + "\r\n\r\n" + ParsePart(segment).value.body;
    }
  }

  /** Header parsing fails exactly when some line has no `:\s+`; the error
      then names the first such line. */
  lemma {:induction false} ParseHeaderLinesErrors(acc: seq<Header>, lines: seq<string>)
    ensures var r := ParseHeaderLines(acc, lines);
      (r.Err? <==> exists i :: 0 <= i < |lines| && SplitHeaderLine(lines[i]).None?) &&
      (r.Err? ==> exists i :: (0 <= i < |lines| && r.error == MissingSeparator(lines[i]) &&
        SplitHeaderLine(lines[i]).None? &&
        forall j :: 0 <= j < i ==> SplitHeaderLine(lines[j]).Some?))
    decreases |lines|
  {
    if lines != [] && SplitHeaderLine(lines[0]).Some? {
      var (key, value) := SplitHeaderLine(lines[0]).value;
      var rest := lines[1..];
      var acc' := Put(acc, Lower(key), value);
      ParseHeaderLinesErrors(acc', rest);
      assert ParseHeaderLines(acc, lines) == ParseHeaderLines(acc', rest);
      assert forall i :: 1 <= i < |lines| ==> lines[i] == rest[i - 1];
      if ParseHeaderLines(acc', rest).Err? {
        var i :| 0 <= i < |rest| && ParseHeaderLines(acc', rest).error == MissingSeparator(rest[i]) &&
          SplitHeaderLine(rest[i]).None? &&
          forall j :: 0 <= j < i ==> SplitHeaderLine(rest[j]).Some?;
        assert lines[i + 1] == rest[i];
      } else {
        forall i | 0 <= i < |lines| ensures SplitHeaderLine(lines[i]).Some? {
          if i > 0 {
            assert lines[i] == rest[i - 1];
          }
        }
      }
    }
  }

  /** A segment fails with `MissingBlankLine` exactly when it has no
      "\r\n\r\n"; otherwise any failure is a header line without `:\s+`. */
  lemma ParsePartErrors(segment: string)
    ensures ParsePart(segment) == Err(MissingBlankLine(segment)) <==> Absent(segment, "\r\n\r\n")
    ensures ParsePart(segment).Err? ==>
      ParsePart(segment).error.MissingBlankLine? || ParsePart(segment).error.MissingSeparator?
  {
    var m := SplitOnce("\r\n\r\n", segment);
    SplitOnceSpec("\r\n\r\n", segment);
    if m.Some? {
      assert MatchesAt(segment, |m.value.0|, "\r\n\r\n") by {
        assert segment[|m.value.0|..|m.value.0| + 4] == "\r\n\r\n";
      }
      ParseHeaderLinesErrors([], Explode("\r\n", m.value.0));
    }
  }

  /** The segment walk only fails the way a segment does. */
  lemma {:induction false} ParseSegmentsErrors(ms: seq<string>)
    ensures ParseSegments(ms).Err? ==>
      ParseSegments(ms).error.MissingBlankLine? || ParseSegments(ms).error.MissingSeparator?
  {
    if ms != [] && ms[0] != "--" {
      ParsePartErrors(ms[0]);
      ParseSegmentsErrors(ms[1..]);
    }
  }

  /** Decoding fails with `NoDelimiter` exactly when `--(.*)\b` matches
      nowhere in the body. */
  lemma ParseBodyNoDelimiter(body: string)
    ensures ParseBody(body) == Err(NoDelimiter) <==> forall p, e :: !DelimiterMatch(body, p, e)
  {
    FindDelimiterSpec(body);
    match FindDelimiter(body)
    case None =>
    case Some(d) =>
      ParseSegmentsErrors(Segments(body, d));
  }

  /** The body of the outer `foreach` for one segment: split off the header
      block at the first blank line, then assign each header line into a
      fresh header map. */
  method ParseMessage(message: string) returns (r: Result<Part, DecodeError>)
    ensures r == ParsePart(message)
  {
    var split := SplitOnce("\r\n\r\n", message);
    if split.None? {
      return Err(MissingBlankLine(message));
    }
    var (headerLines, partBody) := split.value;
    var lines := Explode("\r\n", headerLines);
    var headers: seq<Header> := [];
    var j := 0;
    while j < |lines|
      invariant 0 <= j <= |lines|
      invariant ParseHeaderLines([], lines) == ParseHeaderLines(headers, lines[j..])
    {
      assert lines[j..][0] == lines[j] && lines[j..][1..] == lines[j + 1..];
      var kv := SplitHeaderLine(lines[j]);
      if kv.None? {
        return Err(MissingSeparator(lines[j]));
      }
      var (key, value) := kv.value;
      headers := Put(headers, Lower(key), value);
      j := j + 1;
    }
    assert lines[j..] == [];
    return Ok(Part(headers, partBody));
  }

  /** `parseMultipartBody`, statement by statement: the delimiter is
      sniffed and the segments are walked in order, with an early exit at
      "--". */
  method ParseMultipartBody(body: string) returns (r: Result<seq<Part>, DecodeError>)
    ensures r == ParseBody(body)
  {
    var boundary := FindDelimiter(body);
    if boundary.None? {
      return Err(NoDelimiter);
    }
    var messages := Segments(body, boundary.value);
    var parts: seq<Part> := [];
    var i := 0;
    assert messages[0..] == messages;
    PrefixedUnit(ParseSegments(messages));
    while i < |messages|
      invariant 0 <= i <= |messages|
      invariant ParseSegments(messages) == Prefixed(parts, ParseSegments(messages[i..]))
    {
      var message := messages[i];
      ParseSegmentsAt(messages, i);
      if message == "--" {
        break;
      }
      var parsed := ParseMessage(message);
      if parsed.Err? {
        return Err(parsed.error);
      }
      var part := parsed.value;
      PrefixedStep(parts, part, ParseSegments(messages[i + 1..]));
      parts := parts + [part];
      i := i + 1;
    }
    assert ParseSegments(messages[i..]) == Ok([]) by {
      if i == |messages| {
        assert messages[i..] == [];
      }
    }
    assert Prefixed(parts, Ok([])) == Ok(parts) by {
      assert parts + [] == parts;
    }
    return Ok(parts);
  }

  // ---------------------------------------------------------------------
  // The response object: a queue of decoded bodies

  /** Guzzle's `removeHeader`: header names compare case-insensitively. */
  function RemoveHeader(hs: map<string, string>, name: string): (r: map<string, string>)
    ensures forall k :: k in r <==> k in hs && Lower(k) != Lower(name)
    ensures forall k :: k in r ==> r[k] == hs[k]
  {
    map k | k in hs && Lower(k) != Lower(name) :: hs[k]
  }

  function Bodies(ps: seq<Part>): (r: seq<string>)
    ensures |r| == |ps|
  {
    if ps == [] then [] else [ps[0].body] + Bodies(ps[1..])
  }

  lemma {:induction false} BodiesAppend(ps: seq<Part>, p: Part)
    ensures Bodies(ps + [p]) == Bodies(ps) + [p.body]
  {
    if ps != [] {
      assert (ps + [p])[1..] == ps[1..] + [p];
      BodiesAppend(ps[1..], p);
    }
  }

  lemma BodiesPrefix(ps: seq<Part>, i: nat)
    requires i < |ps|
    ensures Bodies(ps[..i + 1]) == Bodies(ps[..i]) + [ps[i].body]
  {
    assert ps[..i + 1] == ps[..i] + [ps[i]];
    BodiesAppend(ps[..i], ps[i]);
  }

  class MultipartResponse {
    /** The envelope headers of the response. */
    var headers: map<string, string>
    /** The decoded part bodies not yet handed out, oldest first. */
    var bodies: seq<string>

    constructor (headers: map<string, string>)
      ensures this.headers == headers && bodies == []
    {
      this.headers := headers;
      bodies := [];
    }

    /** `setBody`: a missing body only clears the length headers (the
        source then stops at a type error); a body is decoded and each
        part's body queued in part order. Decoding is all-or-nothing: on an
        error nothing is queued. */
    method SetBody(body: Option<string>) returns (r: Result<(), DecodeError>)
      modifies this
      ensures body.None? ==>
        r.Ok? && bodies == old(bodies) &&
        headers == RemoveHeader(RemoveHeader(old(headers), "Content-Length"), "Transfer-Encoding")
      ensures body.Some? ==> headers == old(headers)
      ensures body.Some? && ParseBody(body.value).Err? ==>
        r == Err(ParseBody(body.value).error) && bodies == old(bodies)
      ensures body.Some? && ParseBody(body.value).Ok? ==>
        r.Ok? && bodies == old(bodies) + Bodies(ParseBody(body.value).value)
    {
      if body.None? {
        headers := RemoveHeader(headers, "Content-Length");
        headers := RemoveHeader(headers, "Transfer-Encoding");
        return Ok(());
      }
      var parsed := ParseMultipartBody(body.value);
      if parsed.Err? {
        return Err(parsed.error);
      }
      QueueBodies(parsed.value);
      return Ok(());
    }

    /** The `foreach` of `setBody`: one queue entry per part, in part
        order. */
    method QueueBodies(parts: seq<Part>)
      modifies this`bodies
      ensures bodies == old(bodies) + Bodies(parts)
    {
      var i := 0;
      while i < |parts|
        invariant 0 <= i <= |parts|
        invariant bodies == old(bodies) + Bodies(parts[..i])
      {
        BodiesPrefix(parts, i);
        bodies := bodies + [parts[i].body];
        i := i + 1;
      }
      assert parts[..i] == parts;
    }

    /** `getBody`: `array_shift` — the oldest queued body, or `None` once
        the queue is empty. */
    method GetBody() returns (r: Option<string>)
      modifies this`bodies
      ensures old(bodies) == [] ==> r.None? && bodies == []
      ensures old(bodies) != [] ==> r == Some(old(bodies)[0]) && bodies == old(bodies)[1..]
    {
      if bodies == [] {
        return None;
      }
      r := Some(bodies[0]);
      bodies := bodies[1..];
    }
  }
}
