/** What Guzzle's decoder makes of the body Symfony's encoder writes: for a
    word-character boundary that no header or body contains, parsing the
    encoded body gives back every part, in order, with its header names
    lower-cased and a later duplicate overriding an earlier one. */
module RoundTrip {
  import opened Wrappers
  import opened Text
  import opened Parts
  import opened Encoder
  import opened Decoder

  // ---------------------------------------------------------------------
  // When a part survives the trip

  /** A boundary the decoder can find again: non-empty and made of word
      characters only (the md5 hex digest the encoder draws is one). */
  predicate WordToken(b: string) {
    |b| > 0 && forall i :: 0 <= i < |b| ==> IsWordChar(b[i])
  }

  /** A header line stays on one line. */
  predicate OneLine(s: string) {
    forall i :: 0 <= i < |s| ==> s[i] != '\r' && s[i] != '\n'
  }

  /** A header whose rendered line splits back into it: the name has no
      ':' (so the first ": " is the one the encoder wrote), the value does
      not start with white space (the separator `:\s+` would swallow it),
      and neither breaks the line. */
  predicate ReadableHeader(h: Header) {
    OneLine(h.name) && OneLine(h.value) &&
    (forall i :: 0 <= i < |h.name| ==> h.name[i] != ':') &&
    (h.value == [] || !IsPcreSpace(h.value[0]))
  }

  /** A part whose trimmed segment parses back into it: at least one header
      (the blank line after the header block is what splits a segment), the
      first header does not start with white space and the body does not
      end with it (`trim` would strip it). */
  predicate ReadablePart(p: Part) {
    |p.headers| > 0 &&
    (forall i :: 0 <= i < |p.headers| ==> ReadableHeader(p.headers[i])) &&
    (p.headers[0].name == [] || !IsTrimChar(p.headers[0].name[0])) &&
    |p.body| > 0 && !IsTrimChar(p.body[|p.body| - 1])
  }

  /** A readable header that does not contain the delimiter `d`. */
  predicate PlainHeader(d: string, h: Header) {
    ReadableHeader(h) && Absent(h.name, d) && Absent(h.value, d)
  }

  /** A readable part none of whose headers and whose body contains the
      delimiter `d`. */
  predicate Encodable(d: string, p: Part) {
    ReadablePart(p) &&
    (forall i :: 0 <= i < |p.headers| ==> PlainHeader(d, p.headers[i])) &&
    Absent(p.body, d)
  }

  /** The part the decoder is expected to produce. */
  function Decoded(p: Part): Part {
    Part(Normalize([], p.headers), p.body)
  }

  function DecodedAll(ps: seq<Part>): (r: seq<Part>)
    ensures |r| == |ps|
  {
    if ps == [] then [] else [Decoded(ps[0])] + DecodedAll(ps[1..])
  }

  lemma {:induction false} DecodedAllAt(ps: seq<Part>, i: nat)
    requires i < |ps|
    ensures DecodedAll(ps)[i] == Decoded(ps[i])
  {
    if i > 0 {
      DecodedAllAt(ps[1..], i - 1);
    }
  }

  // ---------------------------------------------------------------------
  // The pieces between delimiters

  /** What lies between the delimiter before a part and the one after it. */
  function Inner(p: Part): string {
    "\r\n" + RenderHeaders(p.headers) + "\r\n" + p.body + "\r\n"
  }

  function Inners(ps: seq<Part>): seq<string> {
    if ps == [] then [] else [Inner(ps[0])] + Inners(ps[1..])
  }

  /** A segment once trimmed: header lines, blank line, body. */
  function Core(p: Part): string {
    Join("\r\n", HeaderLines(p.headers)) + "\r\n\r\n" + p.body
  }

  function Cores(ps: seq<Part>): seq<string> {
    if ps == [] then [] else [Core(ps[0])] + Cores(ps[1..])
  }

  /** The encoded body after its first delimiter `--b`. */
  function Rest(b: string, ps: seq<Part>): string {
    if ps == [] then "--" else Inner(ps[0]) + ("--" + b) + Rest(b, ps[1..])
  }

  /** Regrouping one frame: `(d + x) + f + d + t == d + ((x + d) + r)`
      whenever `f + d + t == d + r`. */
  lemma Regroup(d: string, x: string, f: string, t: string, r: string)
    requires f + d + t == d + r
    ensures (d + x) + f + d + t == d + ((x + d) + r)
  {
    calc {
      (d + x) + f + d + t;
      d + x + (f + d + t);
      d + x + (d + r);
      d + ((x + d) + r);
    }
  }

  lemma {:induction false} FramesRest(b: string, ps: seq<Part>)
    ensures Frames(b, ps) + ("--" + b) + "--" == ("--" + b) + Rest(b, ps)
  {
    if ps != [] {
      var d := "--" + b;
      FramesRest(b, ps[1..]);
      assert Frame(b, ps[0]) == d + Inner(ps[0]);
      assert Frames(b, ps) == (d + Inner(ps[0])) + Frames(b, ps[1..]);
      assert Rest(b, ps) == (Inner(ps[0]) + d) + Rest(b, ps[1..]);
      Regroup(d, Inner(ps[0]), Frames(b, ps[1..]), "--", Rest(b, ps[1..]));
    }
  }

  /** The encoded body is the delimiter followed by `Rest`. */
  lemma ContentRest(b: string, ps: seq<Part>)
    ensures Content(b, ps) == ("--" + b) + Rest(b, ps)
  {
    FramesRest(b, ps);
  }

  // ---------------------------------------------------------------------
  // The delimiter does not occur inside a part

  /** None of the separators the encoder writes can be part of `--b`. */
  lemma SeparatorsForeign(b: string)
    requires WordToken(b)
    ensures ':' !in "--" + b && ' ' !in "--" + b && '\r' !in "--" + b && '\n' !in "--" + b
  {
    var d := "--" + b;
    assert forall i :: 0 <= i < |d| ==> d[i] == '-' || IsWordChar(d[i]) by {
      forall i | 0 <= i < |d| ensures d[i] == '-' || IsWordChar(d[i]) {
        if i >= 2 {
          assert d[i] == b[i - 2];
        }
      }
    }
  }

  lemma AbsentHeaderLine(b: string, h: Header)
    requires WordToken(b) && PlainHeader("--" + b, h)
    ensures Absent(HeaderLine(h) + "\r\n", "--" + b)
  {
    var d := "--" + b;
    SeparatorsForeign(b);
    AbsentWithout(": ", d, '-');
    AbsentWithout("\r\n", d, '-');
    AbsentConcat(h.name, ": ", d);
    AbsentConcat(h.name + ": ", h.value, d);
    AbsentConcat(HeaderLine(h), "\r\n", d);
  }

  lemma {:induction false} AbsentRendered(b: string, hs: seq<Header>)
    requires WordToken(b)
    requires forall i :: 0 <= i < |hs| ==> PlainHeader("--" + b, hs[i])
    ensures Absent(RenderHeaders(hs), "--" + b)
  {
    var d := "--" + b;
    if hs == [] {
      AbsentWithout("", d, '-');
    } else {
      SeparatorsForeign(b);
      AbsentHeaderLine(b, hs[0]);
      AbsentRendered(b, hs[1..]);
      AbsentConcat(HeaderLine(hs[0]) + "\r\n", RenderHeaders(hs[1..]), d);
    }
  }

  lemma AbsentInner(b: string, p: Part)
    requires WordToken(b) && Encodable("--" + b, p)
    ensures Absent(Inner(p), "--" + b)
  {
    var d := "--" + b;
    SeparatorsForeign(b);
    AbsentWithout("\r\n", d, '-');
    AbsentRendered(b, p.headers);
    var a1 := "\r\n" + RenderHeaders(p.headers);
    AbsentConcat("\r\n", RenderHeaders(p.headers), d);
    AbsentConcat(a1, "\r\n", d);
    AbsentConcat(a1 + "\r\n", p.body, d);
    AbsentConcat(a1 + "\r\n" + p.body, "\r\n", d);
  }

  // ---------------------------------------------------------------------
  // Finding the delimiter, splitting, trimming, filtering

  /** At the start of the encoded body, `--(.*)\b` matches `--b` and
      nothing longer: the character after the boundary ("\r" or "-") ends
      the word, and the one after that is "\n" or the end of a "--". */
  lemma DelimiterAtStart(b: string, ps: seq<Part>)
    requires WordToken(b)
    ensures DelimiterMatch(Content(b, ps), 0, |b| + 2)
    ensures forall e :: |b| + 2 < e ==> !DelimiterMatch(Content(b, ps), 0, e)
  {
    var s := Content(b, ps);
    var d := "--" + b;
    var n := |d|;
    if ps == [] {
      assert s == d + "--";
    } else {
      assert s[..n + 2] == d + "\r\n";
    }
    assert s[..n] == d;
    assert s[n] == '\r' || s[n] == '-';
    assert s[n + 1] == '\n' || s[n + 1] == '-';
    assert DelimiterMatch(s, 0, n) by {
      assert s[0..2] == "--";
      forall k | 2 <= k < n ensures s[k] != '\n' {
        assert s[k] == b[k - 2];
      }
      assert s[n - 1] == b[|b| - 1];
    }
    forall e | n < e ensures !DelimiterMatch(s, 0, e) {
      if e == n + 1 {
        assert !WordBoundaryAt(s, n + 1);
      } else if ps != [] {
        assert s[n + 1] == '\n';
      } else if e <= |s| {
        assert !WordBoundaryAt(s, |s|);
      }
    }
  }

  /** The regex finds exactly `--b` in the encoded body. */
  lemma FindDelimiterOfContent(b: string, ps: seq<Part>)
    requires WordToken(b)
    ensures FindDelimiter(Content(b, ps)) == Some("--" + b)
  {
    var s := Content(b, ps);
    var n := |b| + 2;
    DelimiterAtStart(b, ps);
    SearchSpec(s, 0);
    var r := Search(s, 0);
    assert r.Some?;
    assert r.value.0 == 0;
    assert r.value.1 == n;
    assert s[..n] == "--" + b;
  }

  lemma TrimInner(p: Part)
    requires ReadablePart(p)
    ensures Trim(Inner(p)) == Core(p)
  {
    var lines := HeaderLines(p.headers);
    var j := Join("\r\n", lines);
    RenderHeadersJoin(p.headers);
    assert Inner(p) == "\r\n" + Core(p) + "\r\n";
    JoinStarts(lines);
    assert Core(p)[0] == j[0] == HeaderLine(p.headers[0])[0];
    TrimOf("\r\n", Core(p), "\r\n");
  }

  /** `implode` starts with its first piece. */
  lemma JoinStarts(xs: seq<string>)
    requires |xs| > 0
    ensures |Join("\r\n", xs)| >= |xs[0]| && Join("\r\n", xs)[..|xs[0]|] == xs[0]
  {
  }

  lemma {:induction false} ExplodeRest(b: string, ps: seq<Part>)
    requires WordToken(b)
    requires forall i :: 0 <= i < |ps| ==> Encodable("--" + b, ps[i])
    ensures Explode("--" + b, Rest(b, ps)) == Inners(ps) + ["--"]
  {
    var d := "--" + b;
    if ps == [] {
      ExplodeWhole(d, "--");
    } else {
      var x := Inner(ps[0]);
      SeparatorsForeign(b);
      AbsentInner(b, ps[0]);
      NoEarlyMatch(x, d);
      ExplodeStep(d, x, Rest(b, ps[1..]));
      ExplodeRest(b, ps[1..]);
      assert Inners(ps) + ["--"] == [x] + (Inners(ps[1..]) + ["--"]);
    }
  }

  lemma TrimAllCons(x: string, xs: seq<string>)
    ensures TrimAll([x] + xs) == [Trim(x)] + TrimAll(xs)
  {
    assert ([x] + xs)[0] == x && ([x] + xs)[1..] == xs;
  }

  lemma DropFalsyCons(x: string, xs: seq<string>)
    ensures DropFalsy([x] + xs) == if Falsy(x) then DropFalsy(xs) else [x] + DropFalsy(xs)
  {
    assert ([x] + xs)[0] == x && ([x] + xs)[1..] == xs;
  }

  /** The "--" left over after the closing delimiter survives `trim`. */
  lemma TrimDashes()
    ensures Trim("--") == "--"
  {
    TrimOf("", "--", "");
    assert "" + "--" + "" == "--";
  }

  /** One part's piece trims to its core, which the filter keeps. */
  lemma CleanStep(p: Part, ys: seq<string>)
    requires ReadablePart(p)
    ensures DropFalsy(TrimAll([Inner(p)] + ys)) == [Core(p)] + DropFalsy(TrimAll(ys))
  {
    TrimInner(p);
    TrimAllCons(Inner(p), ys);
    assert |Core(p)| > 2;
    DropFalsyCons(Core(p), TrimAll(ys));
  }

  /** The "--" after the closing delimiter survives trimming and
      filtering. */
  lemma CleanTerminator()
    ensures DropFalsy(TrimAll(["--"])) == ["--"]
  {
    TrimDashes();
    TrimAllCons("--", []);
    DropFalsyCons("--", []);
  }

  lemma {:induction false} CleanInners(ps: seq<Part>)
    requires forall i :: 0 <= i < |ps| ==> ReadablePart(ps[i])
    ensures DropFalsy(TrimAll(Inners(ps) + ["--"])) == Cores(ps) + ["--"]
  {
    if ps == [] {
      CleanTerminator();
      assert Inners(ps) + ["--"] == ["--"];
      assert Cores(ps) + ["--"] == ["--"];
    } else {
      var ys := Inners(ps[1..]) + ["--"];
      calc {
        DropFalsy(TrimAll(Inners(ps) + ["--"]));
        { assert Inners(ps) + ["--"] == [Inner(ps[0])] + ys; }
        DropFalsy(TrimAll([Inner(ps[0])] + ys));
        { CleanStep(ps[0], ys); }
        [Core(ps[0])] + DropFalsy(TrimAll(ys));
        { CleanInners(ps[1..]); }
        [Core(ps[0])] + (Cores(ps[1..]) + ["--"]);
        Cores(ps) + ["--"];
      }
    }
  }

  /** Splitting the encoded body at the delimiter: an empty piece before
      the first delimiter, one piece per part, and the "--" after the
      closing delimiter. */
  lemma ExplodeContent(b: string, ps: seq<Part>)
    requires WordToken(b)
    requires forall i :: 0 <= i < |ps| ==> Encodable("--" + b, ps[i])
    ensures Explode("--" + b, Content(b, ps)) == [""] + (Inners(ps) + ["--"])
  {
    var d := "--" + b;
    ContentRest(b, ps);
    assert Content(b, ps) == "" + d + Rest(b, ps);
    ExplodeStep(d, "", Rest(b, ps));
    ExplodeRest(b, ps);
  }

  /** The empty piece before the first delimiter is filtered out. */
  lemma LeadingEmpty(xs: seq<string>)
    ensures DropFalsy(TrimAll([""] + xs)) == DropFalsy(TrimAll(xs))
  {
    TrimAllCons("", xs);
    assert Trim("") == "";
    DropFalsyCons("", TrimAll(xs));
  }

  /** The segments the decoder walks: one trimmed core per part, then the
      "--" left over from the closing delimiter. */
  lemma SegmentsOfContent(b: string, ps: seq<Part>)
    requires WordToken(b)
    requires forall i :: 0 <= i < |ps| ==> Encodable("--" + b, ps[i])
    ensures Segments(Content(b, ps), "--" + b) == Cores(ps) + ["--"]
  {
    ExplodeContent(b, ps);
    LeadingEmpty(Inners(ps) + ["--"]);
    CleanInners(ps);
  }

  // ---------------------------------------------------------------------
  // Parsing one segment

  /** A rendered header line splits back into its name and value. */
  lemma SplitHeaderLineOf(h: Header)
    requires ReadableHeader(h)
    ensures SplitHeaderLine(HeaderLine(h)) == Some((h.name, h.value))
  {
    var line := HeaderLine(h);
    var m := |h.name|;
    SplitHeaderLineSpec(line);
    assert forall i :: 0 <= i < m ==> line[i] == h.name[i];
    assert forall j :: m + 2 <= j < |line| ==> line[j] == h.value[j - m - 2];
    assert ColonSpaceAt(line, m);
    var r := SplitHeaderLine(line);
    assert r.Some?;
    var (key, value) := r.value;
    assert |key| <= m;
    assert |key| == m;
    assert key == h.name;
    if |h.value| > 0 {
      assert line[m + 2] == h.value[0];
    }
    assert |value| == |h.value|;
    assert value == h.value;
  }

  lemma {:induction false} ParseRenderedLines(acc: seq<Header>, hs: seq<Header>)
    requires forall i :: 0 <= i < |hs| ==> ReadableHeader(hs[i])
    ensures ParseHeaderLines(acc, HeaderLines(hs)) == Ok(Normalize(acc, hs))
    decreases |hs|
  {
    if hs != [] {
      var lines := HeaderLines(hs);
      assert lines[0] == HeaderLine(hs[0]) && lines[1..] == HeaderLines(hs[1..]);
      SplitHeaderLineOf(hs[0]);
      ParseRenderedLines(Put(acc, Lower(hs[0].name), hs[0].value), hs[1..]);
    }
  }

  lemma {:induction false} OneLineJoin(xs: seq<string>)
    requires |xs| > 0
    requires forall i :: 0 <= i < |xs| ==> |xs[i]| > 0 && OneLine(xs[i])
    ensures Absent(Join("\r\n", xs), "\r\n\r\n")
    ensures var j := Join("\r\n", xs); j[|j| - 1] != '\r' && j[|j| - 1] != '\n'
  {
    var m := "\r\n\r\n";
    AbsentWithout(xs[0], m, '\r');
    if |xs| > 1 {
      OneLineJoin(xs[1..]);
      JoinStarts(xs[1..]);
      var j' := Join("\r\n", xs[1..]);
      assert Absent("\r\n", m);
      AbsentConcat(xs[0], "\r\n", m);
      AbsentConcat(xs[0] + "\r\n", j', m);
    }
  }

  lemma HeaderLinesOneLine(hs: seq<Header>)
    requires forall i :: 0 <= i < |hs| ==> ReadableHeader(hs[i])
    ensures forall i :: 0 <= i < |hs| ==> |HeaderLines(hs)[i]| > 0 && OneLine(HeaderLines(hs)[i])
  {
    forall i | 0 <= i < |hs|
      ensures |HeaderLines(hs)[i]| > 0 && OneLine(HeaderLines(hs)[i])
    {
      HeaderLinesAt(hs, i);
    }
  }

  lemma {:induction false} HeaderLinesAt(hs: seq<Header>, i: nat)
    requires i < |hs|
    ensures HeaderLines(hs)[i] == HeaderLine(hs[i])
  {
    if i > 0 {
      HeaderLinesAt(hs[1..], i - 1);
    }
  }

  /** A trimmed segment parses back into the normalized part. */
  lemma ParseCore(p: Part)
    requires ReadablePart(p)
    ensures ParsePart(Core(p)) == Ok(Decoded(p))
  {
    var m := "\r\n\r\n";
    var lines := HeaderLines(p.headers);
    var j := Join("\r\n", lines);
    HeaderLinesOneLine(p.headers);
    OneLineJoin(lines);
    NoEarlyMatch(j, m);
    SplitOnceAt(m, j, p.body);
    assert forall i :: 0 <= i < |lines| ==> '\r' !in lines[i];
    ExplodeJoin("\r\n", lines);
    ParseRenderedLines([], p.headers);
  }

  lemma {:induction false} ParseCores(b: string, ps: seq<Part>)
    requires forall i :: 0 <= i < |ps| ==> Encodable("--" + b, ps[i])
    ensures ParseSegments(Cores(ps)) == Ok(DecodedAll(ps))
  {
    if ps != [] {
      var ms := Cores(ps);
      assert ms[0] == Core(ps[0]) && ms[1..] == Cores(ps[1..]);
      ParseCore(ps[0]);
      assert |Core(ps[0])| > 2;
      ParseCores(b, ps[1..]);
    }
  }

  lemma TwoHeaderCore(h1: Header, h2: Header, body: string)
    ensures Core(Part([h1, h2], body)) == HeaderLine(h1) + "\r\n" + HeaderLine(h2) + "\r\n\r\n" + body
  {
    var l1, l2 := HeaderLine(h1), HeaderLine(h2);
    assert HeaderLines([h1, h2]) == [l1, l2] by {
      assert [h1, h2][1..] == [h2] && [h2][1..] == [];
    }
    assert Join("\r\n", [l1, l2]) == l1 + "\r\n" + l2 by {
      assert [l1, l2][1..] == [l2];
    }
  }

  lemma NormalizeSameName(name: string, first: string, second: string)
    ensures Normalize([], [Header(name, first), Header(name, second)]) == [Header(Lower(name), second)]
  {
    var k := Lower(name);
    var h2 := Header(name, second);
    assert Put([], k, first) == [Header(k, first)];
    assert Put([Header(k, first)], k, second) == [Header(k, second)];
    assert Normalize([], [Header(name, first), h2]) == Normalize([Header(k, first)], [h2]) by {
      assert [Header(name, first), h2][1..] == [h2];
    }
    assert Normalize([Header(k, first)], [h2]) == [Header(k, second)] by {
      assert [h2][1..] == [];
    }
  }

  lemma Regroup3(x: string, a: string, b: string, c: string)
    ensures x + (a + b + c) == x + a + b + c
  {
  }

  /** Two header lines with the same name: one key, the lower-cased name,
      holding the later value. */
  lemma DuplicateHeader(name: string, first: string, second: string, body: string)
    requires ReadableHeader(Header(name, first)) && ReadableHeader(Header(name, second))
    requires name == [] || !IsTrimChar(name[0])
    requires |body| > 0 && !IsTrimChar(body[|body| - 1])
    ensures ParsePart(name + ": " + first + "\r\n" + name + ": " + second + "\r\n\r\n" + body)
         == Ok(Part([Header(Lower(name), second)], body))
  {
    var h1, h2 := Header(name, first), Header(name, second);
    var p := Part([h1, h2], body);
    assert ReadablePart(p) by {
      assert forall i :: 0 <= i < 2 ==> p.headers[i] == h1 || p.headers[i] == h2;
    }
    ParseCore(p);
    TwoHeaderCore(h1, h2, body);
    NormalizeSameName(name, first, second);
    var segment := name + ": " + first + "\r\n" + name + ": " + second + "\r\n\r\n" + body;
    var x := HeaderLine(h1) + "\r\n";
    Regroup3(x, name, ": ", second);
    assert segment == Core(p);
  }

  // ---------------------------------------------------------------------
  // The round trip

  /** The decoder walks exactly the segments of the parts, then "--". */
  lemma ParseContent(b: string, ps: seq<Part>)
    requires WordToken(b)
    requires forall i :: 0 <= i < |ps| ==> Encodable("--" + b, ps[i])
    ensures ParseBody(Content(b, ps)) == ParseSegments(Cores(ps) + ["--"])
  {
    FindDelimiterOfContent(b, ps);
    SegmentsOfContent(b, ps);
  }

  /** Decoding the encoded body gives back every part, in order: the body
      verbatim, the headers as the decoder's header map built from them. */
  lemma DecodeEncoded(b: string, ps: seq<Part>)
    requires WordToken(b)
    requires forall i :: 0 <= i < |ps| ==> Encodable("--" + b, ps[i])
    ensures ParseBody(Content(b, ps)) == Ok(DecodedAll(ps))
  {
    calc {
      ParseBody(Content(b, ps));
      { ParseContent(b, ps); }
      ParseSegments(Cores(ps) + ["--"]);
      { TerminatorStops(Cores(ps), []);
        assert Cores(ps) + ["--"] + [] == Cores(ps) + ["--"]; }
      ParseSegments(Cores(ps));
      { ParseCores(b, ps); }
      Ok(DecodedAll(ps));
    }
  }

  /** The same, part by part: each decoded part has the original body,
      each key once, and under each lower-cased name the value of the last
      header with that name. */
  lemma DecodeEncodedParts(b: string, ps: seq<Part>)
    requires WordToken(b)
    requires forall i :: 0 <= i < |ps| ==> Encodable("--" + b, ps[i])
    ensures var r := ParseBody(Content(b, ps));
      r.Ok? && |r.value| == |ps| &&
      forall i :: 0 <= i < |ps| ==>
        r.value[i].body == ps[i].body &&
        UniqueNames(r.value[i].headers) &&
        forall k :: Lookup(r.value[i].headers, k) == LastValue(ps[i].headers, k)
  {
    DecodeEncoded(b, ps);
    var r := DecodedAll(ps);
    forall i | 0 <= i < |ps|
      ensures r[i].body == ps[i].body && UniqueNames(r[i].headers) &&
        forall k :: Lookup(r[i].headers, k) == LastValue(ps[i].headers, k)
    {
      DecodedAllAt(ps, i);
      NormalizeUnique([], ps[i].headers);
      forall k ensures Lookup(r[i].headers, k) == LastValue(ps[i].headers, k) {
        NormalizeLastWins([], ps[i].headers, k);
      }
    }
  }

  /** When no two headers of a part share a lower-cased name, the decoded
      part is the original with its header names lower-cased. */
  lemma DecodeEncodedDistinct(b: string, ps: seq<Part>)
    requires WordToken(b)
    requires forall i :: 0 <= i < |ps| ==> Encodable("--" + b, ps[i])
    requires forall i :: 0 <= i < |ps| ==> UniqueNames(LowerAll(ps[i].headers))
    ensures var r := ParseBody(Content(b, ps));
      r.Ok? && |r.value| == |ps| &&
      forall i :: 0 <= i < |ps| ==> r.value[i] == Part(LowerAll(ps[i].headers), ps[i].body)
  {
    DecodeEncoded(b, ps);
    forall i | 0 <= i < |ps|
      ensures DecodedAll(ps)[i] == Part(LowerAll(ps[i].headers), ps[i].body)
    {
      DecodedAllAt(ps, i);
      assert [] + LowerAll(ps[i].headers) == LowerAll(ps[i].headers);
      NormalizeDistinct([], ps[i].headers);
    }
  }

  /** Encoding no parts and decoding the result yields no parts, not an
      error. */
  lemma DecodeEncodedEmpty(b: string)
    requires WordToken(b)
    ensures ParseBody(Content(b, [])) == Ok([])
  {
    DecodeEncoded(b, []);
  }
}
