/** The encoding side: Symfony's `MultipartResponse`, which collects parts
    and writes them as one `multipart/<subtype>` body framed by
    `--<boundary>` delimiter lines. */
module Encoder {
  import opened Wrappers
  import opened Text
  import opened Parts

  /** `$subtype ?: 'mixed'`: a missing subtype and the PHP-falsy strings ""
      and "0" select "mixed"; any other subtype is kept. */
  function EffectiveSubtype(subtype: Option<string>): (r: string)
    ensures subtype.None? ==> r == "mixed"
    ensures subtype.Some? && (subtype.value == "" || subtype.value == "0") ==> r == "mixed"
    ensures subtype.Some? && subtype.value != "" && subtype.value != "0" ==> r == subtype.value
  {
    match subtype
    case None => "mixed"
    case Some(s) => if s == "" || s == "0" then "mixed" else s
  }

  /** The `Content-Type` value announced by `prepare`. */
  function ContentType(subtype: string, boundary: string): string {
    "multipart/" + subtype + "; boundary=\"" + boundary + "\""
  }

  /** The value `prepare` stores under `Transfer-Encoding`. */
  const Chunked: string := "chunked"

  /** The names `prepare` passes to `set`; a `HeaderBag` stores each under
      its lower-cased form. */
  const ContentTypeName: string := "Content-Type"
  const TransferEncodingName: string := "Transfer-Encoding"

  /** A `HeaderBag`'s contents: each name once, lower-cased, in the order
      the names were first set. */
  predicate Bag(hs: seq<Header>) {
    UniqueNames(hs) && LowerNames(hs)
  }

  /** `new HeaderBag($headers)`: each given header set in turn under its
      lower-cased name, a later one replacing an earlier one. */
  function BagOf(hs: seq<Header>): (r: seq<Header>)
    ensures Bag(r)
  {
    NormalizeUnique([], hs);
    NormalizeLower([], hs);
    Normalize([], hs)
  }

  /** The envelope after `prepare`'s two `set` calls. */
  function Announce(hs: seq<Header>, subtype: string, boundary: string): seq<Header> {
    Put(Put(hs, Lower(ContentTypeName), ContentType(subtype, boundary)),
        Lower(TransferEncodingName), Chunked)
  }

  /** Two `set` calls on a bag under two different lower-cased names: the
      result is a bag, both names hold their new values, every other name
      keeps its value, and no entry is left whose name matches the first
      one in any case with a stale value. */
  lemma SetTwice(hs: seq<Header>, k1: string, v1: string, k2: string, v2: string)
    requires Bag(hs) && k1 != k2 && Lower(k1) == k1 && Lower(k2) == k2
    ensures var r := Put(Put(hs, k1, v1), k2, v2);
      Bag(r) &&
      Lookup(r, k1) == Some(v1) && Lookup(r, k2) == Some(v2) &&
      (forall k :: k != k1 && k != k2 ==> Lookup(r, k) == Lookup(hs, k)) &&
      (forall i :: 0 <= i < |r| && Lower(r[i].name) == k1 ==> r[i].value == v1)
  {
    var m := Put(hs, k1, v1);
    var r := Put(m, k2, v2);
    PutKeepsUnique(hs, k1, v1);
    PutKeepsLower(hs, k1, v1);
    PutKeepsUnique(m, k2, v2);
    PutKeepsLower(m, k2, v2);
    PutSpec(hs, k1, v1);
    PutSpec(m, k2, v2);
    forall i | 0 <= i < |r| && Lower(r[i].name) == k1 ensures r[i].value == v1 {
      LookupAt(r, i);
    }
  }

  /** Names whose first letters differ in every case differ once
      lower-cased. */
  lemma LowerDiffers(a: string, b: string)
    requires |a| > 0 && |b| > 0 && LowerChar(a[0]) != LowerChar(b[0])
    ensures Lower(a) != Lower(b)
  {
    assert Lower(a)[0] != Lower(b)[0];
  }


  /** After `prepare` the envelope is still a bag, the two headers hold
      the multipart type and "chunked", every other name keeps its value,
      and whatever spelling of Content-Type the caller passed has been
      replaced: the only entry named content-type in any case is the new
      one. */
  lemma AnnounceSpec(hs: seq<Header>, subtype: string, boundary: string)
    requires Bag(hs)
    ensures var r := Announce(hs, subtype, boundary);
      Bag(r) &&
      Lookup(r, Lower(ContentTypeName)) == Some(ContentType(subtype, boundary)) &&
      Lookup(r, Lower(TransferEncodingName)) == Some(Chunked) &&
      (forall k :: k != Lower(ContentTypeName) && k != Lower(TransferEncodingName) ==>
         Lookup(r, k) == Lookup(hs, k)) &&
      (forall i :: 0 <= i < |r| && Lower(r[i].name) == Lower(ContentTypeName) ==>
         r[i].value == ContentType(subtype, boundary))
  {
    LowerDiffers(ContentTypeName, TransferEncodingName);
    LowerTwice(ContentTypeName);
    LowerTwice(TransferEncodingName);
    SetTwice(hs, Lower(ContentTypeName), ContentType(subtype, boundary),
             Lower(TransferEncodingName), Chunked);
  }

  /** A receiver can read subtype and boundary back out of the announced
      `Content-Type`, as long as the subtype holds no ';'. */
  lemma ContentTypeParameters(subtype: string, boundary: string)
    requires ';' !in subtype
    ensures var v := ContentType(subtype, boundary);
      |v| >= 10 && v[..10] == "multipart/" &&
      SplitOnce("; boundary=\"", v[10..]) == Some((subtype, boundary + "\""))
  {
    var sep := "; boundary=\"";
    var v := ContentType(subtype, boundary);
    assert v[10..] == subtype + sep + (boundary + "\"");
    NoMatchInside(sep, subtype, sep);
    SplitOnceAt(sep, subtype, boundary + "\"");
  }

  /** One rendered header line, without its line break. */
  function HeaderLine(h: Header): string {
    h.name + ": " + h.value
  }

  function HeaderLines(hs: seq<Header>): (r: seq<string>)
    ensures |r| == |hs|
  {
    if hs == [] then [] else [HeaderLine(hs[0])] + HeaderLines(hs[1..])
  }

  /** The part's header block, each header as `name: value\r\n`. */
  function RenderHeaders(hs: seq<Header>): string {
    if hs == [] then "" else HeaderLine(hs[0]) + "\r\n" + RenderHeaders(hs[1..])
  }

  /** A non-empty header block is its lines joined by CRLF, plus a final
      CRLF. */
  lemma {:induction false} RenderHeadersJoin(hs: seq<Header>)
    requires hs != []
    ensures RenderHeaders(hs) == Join("\r\n", HeaderLines(hs)) + "\r\n"
  {
    if |hs| > 1 {
      RenderHeadersJoin(hs[1..]);
      assert HeaderLines(hs)[1..] == HeaderLines(hs[1..]);
    }
  }

  /** The text `sendContent` writes for one part. */
  function Frame(boundary: string, p: Part): string {
    "--" + boundary + "\r\n" + RenderHeaders(p.headers) + "\r\n" + p.body + "\r\n"
  }

  /** The four appends `sendContent` makes for one part add its frame. */
  lemma FrameAppended(content: string, boundary: string, p: Part)
    ensures content + "--" + boundary + "\r\n" + RenderHeaders(p.headers) + "\r\n" + p.body + "\r\n"
         == content + Frame(boundary, p)
  {
  }

  function Frames(boundary: string, ps: seq<Part>): string {
    if ps == [] then "" else Frame(boundary, ps[0]) + Frames(boundary, ps[1..])
  }

  lemma {:induction false} FramesAppend(boundary: string, ps: seq<Part>, p: Part)
    ensures Frames(boundary, ps + [p]) == Frames(boundary, ps) + Frame(boundary, p)
  {
    if ps == [] {
      assert [p][1..] == [];
    } else {
      assert (ps + [p])[1..] == ps[1..] + [p];
      FramesAppend(boundary, ps[1..], p);
    }
  }

  /** The multipart body: every part framed in order, then the closing
      delimiter `--<boundary>--` with no line break after it. */
  function Content(boundary: string, ps: seq<Part>): (r: string)
    ensures |r| >= |boundary| + 4
    ensures r[|r| - |boundary| - 4..] == "--" + boundary + "--"
    ensures ps == [] ==> r == "--" + boundary + "--"
    ensures ps != [] ==> r[..|boundary| + 4] == "--" + boundary + "\r\n"
  {
    Frames(boundary, ps) + "--" + boundary + "--"
  }

  /** What `sendContent` echoes: the decimal length of the body, CRLF, and
      the body. */
  function Emitted(content: string): string {
    Decimal(|content|) + "\r\n" + content
  }

  /** The echoed text splits at its first CRLF into a decimal prefix whose
      value is the length of the rest, and the body itself. */
  lemma LengthPrefix(content: string)
    ensures SplitOnce("\r\n", Emitted(content)) == Some((Decimal(|content|), content))
    ensures DecimalValue(Decimal(|content|)) == |content|
  {
    var digits := Decimal(|content|);
    assert '\r' !in digits by {
      forall i | 0 <= i < |digits| ensures digits[i] != '\r' {
        assert IsDigit(digits[i]);
      }
    }
    NoMatchInside("\r\n", digits, "\r\n");
    SplitOnceAt("\r\n", digits, content);
    DecimalRoundTrip(|content|);
  }

  datatype EncodeError = ContentNotSettable

  class MultipartResponse {
    var subtype: string
    var boundary: string
    /** The parts in the order they were added; PHP's `null` before the
        first `setPart` is the empty sequence here. */
    var parts: seq<Part>
    /** The envelope headers of the response itself, as its `HeaderBag`
        holds them. */
    var headers: seq<Header>

    /** The envelope is a well-formed header bag. */
    predicate Valid()
      reads this
    {
      Bag(headers)
    }

    /** `new MultipartResponse($parts, $status, $headers, $subtype)`; the
        boundary, which the source derives from the clock, is a parameter. */
    constructor (initial: Option<seq<Part>>, headers: seq<Header>,
                 subtype: Option<string>, boundary: string)
      ensures Valid()
      ensures this.subtype == EffectiveSubtype(subtype)
      ensures this.boundary == boundary
      ensures this.headers == BagOf(headers)
      ensures this.parts == if initial.Some? then initial.value else []
    {
      this.subtype := EffectiveSubtype(subtype);
      this.boundary := boundary;
      this.headers := BagOf(headers);
      this.parts := [];
      new;
      if initial.Some? {
        var self := SetParts(initial.value);
      }
    }

    /** `prepare`: announce the multipart type with its boundary and chunked
        transfer, replacing any Content-Type or Transfer-Encoding the
        envelope held under any spelling. */
    method Prepare()
      requires Valid()
      modifies this`headers
      ensures Valid()
      ensures headers == Announce(old(headers), subtype, boundary)
    {
      AnnounceSpec(headers, subtype, boundary);
      headers := Announce(headers, subtype, boundary);
    }

    /** `setPart`: appends one part and returns the response itself. */
    method SetPart(part: Part) returns (self: MultipartResponse)
      modifies this`parts
      ensures self == this
      ensures parts == old(parts) + [part]
    {
      parts := parts + [part];
      self := this;
    }

    /** `setParts`: `setPart` on each element, in order. */
    method SetParts(ps: seq<Part>) returns (self: MultipartResponse)
      modifies this`parts
      ensures self == this
      ensures parts == old(parts) + ps
    {
      var i := 0;
      while i < |ps|
        invariant 0 <= i <= |ps|
        invariant parts == old(parts) + ps[..i]
      {
        var _ := SetPart(ps[i]);
        assert ps[..i + 1] == ps[..i] + [ps[i]];
        i := i + 1;
      }
      assert ps[..i] == ps;
      self := this;
    }

    /** `getParts`: `null` until a first part has been added. */
    function GetParts(): (r: Option<seq<Part>>)
      reads this
      ensures r.None? <==> parts == []
      ensures r.Some? ==> r.value == parts
    {
      if parts == [] then None else Some(parts)
    }

    /** `sendContent`: builds the multipart body part by part and returns
        what the source echoes. */
    method SendContent() returns (output: string)
      ensures output == Emitted(Content(boundary, parts))
    {
      var content := "";
      var i := 0;
      while i < |parts|
        invariant 0 <= i <= |parts|
        invariant content == Frames(boundary, parts[..i])
      {
        var part := parts[i];
        ghost var before := content;
        content := content + "--" + boundary + "\r\n";
        content := content + RenderHeaders(part.headers) + "\r\n";
        content := content + part.body;
        content := content + "\r\n";
        FrameAppended(before, boundary, part);
        FramesAppend(boundary, parts[..i], part);
        assert parts[..i + 1] == parts[..i] + [part];
        i := i + 1;
      }
      assert parts[..i] == parts;
      content := content + "--" + boundary + "--";
      output := Decimal(|content|) + "\r\n" + content;
    }

    /** `setContent`: only `null` is accepted, and nothing changes either
        way. */
    method SetContent(content: Option<string>) returns (r: Result<(), EncodeError>)
      ensures r.Ok? <==> content.None?
      ensures r.Err? ==> r.error == ContentNotSettable
    {
      if content.Some? {
        return Err(ContentNotSettable);
      }
      return Ok(());
    }

    /** `getContent`: the body is derived from the parts, never stored. */
    function GetContent(): (r: bool)
      ensures !r
    {
      false
    }
  }
}
