/** The request snapshot text the filter builds before calling the chain:
    client address, method, URL, `?`, the query parameters, the headers and,
    for JSON requests, the body. Each `Collect*` method follows the filter's
    string-building loop; the functions beside it say what the text is. */
module Snapshot {
  import opened Wrappers
  import opened Text
  import opened Servlet
  import opened LineReader
  import opened ReadableRequests

  /** `URLEncoder.encode` with the platform charset: the encoded text, or
      `None` when it throws `UnsupportedEncodingException`. */
  type Encoder = string -> Option<string>

  /** The marker appended for multipart requests instead of their body. */
  const MULTIPART_MARKER: string := "[multipart/form-data]"

  /** `getStringFromStringArray`: empty for a null or empty array, the element
      itself for one, the bracketed `", "`-joined list for more. */
  function ArrayToString(values: Option<seq<string>>): (r: string)
    ensures values.None? || |values.value| == 0 ==> r == ""
    ensures values.Some? && |values.value| == 1 ==> r == values.value[0]
    ensures values.Some? && |values.value| >= 2 ==>
      |r| >= 2 && r[0] == '[' && r[|r| - 1] == ']' && r[1..|r| - 1] == Join(values.value, ", ")
  {
    if values.None? || |values.value| == 0 then ""
    else if |values.value| == 1 then values.value[0]
    else "[" + Join(values.value, ", ") + "]"
  }

  /** Each part with a leading space: what follows a `,` in `Arrays.toString`. */
  function Spaced(parts: seq<string>): (r: seq<string>)
    ensures |r| == |parts|
    ensures forall i | 0 <= i < |parts| :: r[i] == " " + parts[i]
  {
    seq(|parts|, i requires 0 <= i < |parts| => " " + parts[i])
  }

  /** A leading space can move into the first part of a join. */
  lemma SpaceIntoFirst(x: string, ys: seq<string>)
    ensures " " + Join([x] + ys, ",") == Join([" " + x] + ys, ",")
  {
  }

  /** Joining with `", "` is joining with `,` after spacing every part but the first. */
  lemma {:induction false} JoinCommaSpace(first: string, rest: seq<string>)
    ensures Join([first] + rest, ", ") == Join([first] + Spaced(rest), ",")
    decreases |rest|
  {
    if |rest| > 0 {
      assert ([first] + rest)[1..] == rest;
      assert rest == [rest[0]] + rest[1..];
      JoinCommaSpace(rest[0], rest[1..]);
      SpaceIntoFirst(rest[0], Spaced(rest[1..]));
      assert Spaced(rest) == [" " + rest[0]] + Spaced(rest[1..]);
      assert ([first] + Spaced(rest))[1..] == Spaced(rest);
    }
  }

  /** When no value contains `,`, the bracketed rendering splits back on `,`
      into the first value and the others each after one space, so two
      different arrays of two or more such values never render alike. */
  lemma ArrayToStringSplitsBack(values: seq<string>)
    requires |values| >= 2
    requires forall i | 0 <= i < |values| :: ',' !in values[i]
    ensures var r := ArrayToString(Some(values));
      SplitAll(r[1..|r| - 1], ',') == [values[0]] + Spaced(values[1..])
  {
    var parts := [values[0]] + Spaced(values[1..]);
    assert values == [values[0]] + values[1..];
    JoinCommaSpace(values[0], values[1..]);
    forall i | 0 <= i < |parts| ensures ',' !in parts[i] {
      if i > 0 { assert parts[i] == " " + values[i]; }
    }
    SplitAllJoin(parts, ',');
  }

  /** A single value holding `", "` renders like two values: the rendering
      alone does not tell the arrays apart. */
  lemma ArrayToStringAmbiguous()
    ensures ArrayToString(Some(["[1, 2]"])) == ArrayToString(Some(["1", "2"]))
  {
  }

  /** `getStringFromStringArrayEncoded`: the encoded text, falling back to the
      raw text when the encoder throws. */
  function EncodedValue(values: Option<seq<string>>, enc: Encoder): (r: string)
    ensures enc(ArrayToString(values)).None? ==> r == ArrayToString(values)
    ensures enc(ArrayToString(values)).Some? ==> r == enc(ArrayToString(values)).value
  {
    match enc(ArrayToString(values))
    case Some(encoded) => encoded
    case None => ArrayToString(values)
  }

  /** One parameter as `name=value`. */
  function ParamEntry(p: Param, enc: Encoder): string
  {
    p.name + "=" + EncodedValue(p.values, enc)
  }

  /** The rendered parameters, in iteration order. */
  function ParamEntries(params: seq<Param>, enc: Encoder): (entries: seq<string>)
    ensures |entries| == |params|
    ensures forall i | 0 <= i < |params| :: entries[i] == ParamEntry(params[i], enc)
  {
    seq(|params|, i requires 0 <= i < |params| => ParamEntry(params[i], enc))
  }

  /** The query text: the entries joined by `&`. */
  function Query(params: seq<Param>, enc: Encoder): string
  {
    Join(ParamEntries(params, enc), "&")
  }

  /** `collectParam`: the first entry, then `&` before each later one, then a
      separator; no parameters give the separator alone. */
  method CollectParam(params: seq<Param>, enc: Encoder) returns (text: string)
    ensures text == Query(params, enc) + SEP
    ensures |params| == 0 ==> text == SEP
  {
    var entries := ParamEntries(params, enc);
    text := "";
    var i := 0;
    if |params| > 0 {
      text := ParamEntry(params[0], enc);
      i := 1;
      assert entries[..1] == [entries[0]];
    }
    while i < |params|
      invariant i <= |params|
      invariant i == 0 <==> |params| == 0
      invariant text == Join(entries[..i], "&")
    {
      JoinSnoc(entries[..i], "&", entries[i]);
      assert entries[..i + 1] == entries[..i] + [entries[i]];
      text := text + "&" + ParamEntry(params[i], enc);
      i := i + 1;
    }
    assert entries[..i] == entries;
    text := text + SEP;
  }

  /** When no entry contains `&`, splitting the query on `&` gives back the
      entries, one per parameter. */
  lemma QuerySplitsBack(params: seq<Param>, enc: Encoder)
    requires |params| >= 1
    requires forall i | 0 <= i < |params| :: '&' !in ParamEntry(params[i], enc)
    ensures SplitAll(Query(params, enc), '&') == ParamEntries(params, enc)
  {
    SplitAllJoin(ParamEntries(params, enc), '&');
  }

  /** Whether a header is `content-length`, compared without regard to case. */
  predicate IsContentLength(name: string)
  {
    EqualsIgnoreCase("content-length", name)
  }

  /** The headers that are logged, in their original order. */
  function Kept(headers: seq<Header>): (kept: seq<Header>)
    ensures |kept| <= |headers|
    ensures forall h :: h in kept <==> h in headers && !IsContentLength(h.name)
  {
    if |headers| == 0 then []
    else if IsContentLength(headers[0].name) then Kept(headers[1..])
    else [headers[0]] + Kept(headers[1..])
  }

  /** One header as `name: value` on its own line. */
  function HeaderLine(h: Header): string
  {
    h.name + ": " + h.value + SEP
  }

  /** The header lines, in order. */
  function HeaderLines(headers: seq<Header>): seq<string>
  {
    seq(|headers|, i requires 0 <= i < |headers| => HeaderLine(headers[i]))
  }

  /** The header block: a line per kept header, then an empty line. */
  function HeaderBlock(headers: seq<Header>): string
  {
    Concat(HeaderLines(Kept(headers))) + SEP
  }

  /** Filtering a longer enumeration filters the extra header on its own. */
  lemma {:induction false} KeptSnoc(headers: seq<Header>, h: Header)
    ensures IsContentLength(h.name) ==> Kept(headers + [h]) == Kept(headers)
    ensures !IsContentLength(h.name) ==> Kept(headers + [h]) == Kept(headers) + [h]
    decreases |headers|
  {
    if |headers| == 0 {
      assert headers + [h] == [h];
      assert [h][1..] == [];
    } else {
      assert (headers + [h])[1..] == headers[1..] + [h];
      KeptSnoc(headers[1..], h);
    }
  }

  /** One more kept header adds its line to the block. */
  lemma HeaderLinesSnoc(kept: seq<Header>, h: Header)
    ensures Concat(HeaderLines(kept + [h])) == Concat(HeaderLines(kept)) + HeaderLine(h)
  {
    assert HeaderLines(kept + [h]) == HeaderLines(kept) + [HeaderLine(h)];
    ConcatSnoc(HeaderLines(kept), HeaderLine(h));
  }

  /** `collectHeader`: walks the header names in order, skipping
      `content-length` in any case, and ends with an extra separator. */
  method CollectHeader(headers: seq<Header>) returns (text: string)
    ensures text == HeaderBlock(headers)
  {
    text := "";
    var i := 0;
    while i < |headers|
      invariant i <= |headers|
      invariant text == Concat(HeaderLines(Kept(headers[..i])))
    {
      var h := headers[i];
      assert headers[..i + 1] == headers[..i] + [h];
      KeptSnoc(headers[..i], h);
      if !IsContentLength(h.name) {
        HeaderLinesSnoc(Kept(headers[..i]), h);
        text := text + HeaderLine(h);
      }
      i := i + 1;
    }
    assert headers[..i] == headers;
    text := text + SEP;
  }

  /** The text `collectBaseInfo` writes: a separator, `ip: ` and the client
      address, a separator, the method, a space, the URL, `?`, the
      parameters and the header block. */
  function BaseInfo(request: HttpRequest, enc: Encoder): string
  {
    SEP + "ip: " + request.remoteAddr + SEP
      + request.httpMethod + " " + request.requestUrl + "?"
      + Query(request.parameters, enc) + SEP
      + HeaderBlock(request.headers)
  }

  /** `collectBaseInfo`. */
  method CollectBaseInfo(request: HttpRequest, enc: Encoder) returns (text: string)
    ensures text == BaseInfo(request, enc)
  {
    text := SEP + "ip: " + request.remoteAddr + SEP;
    text := text + request.httpMethod;
    text := text + " ";
    text := text + request.requestUrl;
    text := text + "?";
    var params := CollectParam(request.parameters, enc);
    text := text + params;
    var headers := CollectHeader(request.headers);
    text := text + headers;
  }

  /** `content-length` is recognised in any letter case, and only that name. */
  lemma ContentLengthAnyCase()
    ensures IsContentLength("Content-Length")
    ensures IsContentLength("CONTENT-LENGTH")
    ensures !IsContentLength("Content-Type")
    ensures !IsContentLength("content-length ")
  {
  }

  /** The headers `X-Trace: abc` and `Content-Length: 0` give one line and
      the closing separator. */
  lemma HeaderBlockExample()
    ensures HeaderBlock([Header("X-Trace", "abc"), Header("Content-Length", "0")]) == "X-Trace: abc\n\n"
  {
  }

  /** The parameter `a` with values `1` and `2` is written `a=` and the
      encoded `[1, 2]`. */
  lemma MultiValuedParamExample(enc: Encoder)
    ensures ArrayToString(Some(["1", "2"])) == "[1, 2]"
    ensures Query([Param("a", Some(["1", "2"]))], enc) == "a=" + EncodedValue(Some(["1", "2"]), enc)
  {
  }

  /** The `readLine` loop of `collectJsonParam`: appends every line until
      `readLine` returns null, which keeps exactly the non-terminator text. */
  method AppendLines(text: string) returns (joined: string)
    ensures joined == StripTerminators(text)
  {
    joined := "";
    var remaining := text;
    var line := ReadLine(remaining);
    while line.Some?
      invariant line == ReadLine(remaining)
      invariant joined + StripTerminators(remaining) == StripTerminators(text)
      decreases |remaining|
    {
      var (next, rest) := line.value;
      ReadLineStep(remaining);
      assert joined + next + StripTerminators(rest) == joined + (next + StripTerminators(rest));
      joined := joined + next;
      remaining := rest;
      line := ReadLine(remaining);
    }
    assert remaining == "";
  }

  /** `collectJsonParam`: reads the body line by line through `getReader()`
      and appends each line; the text logged is the body without its line
      terminators, then a separator. */
  method CollectJsonParam(request: ReadableRequest) returns (section: string)
    ensures section == StripTerminators(Decode(request.body)) + SEP
    ensures section == Concat(Lines(Decode(request.body))) + SEP
  {
    var text := GetReader(request);
    var joined := AppendLines(text);
    section := joined + SEP;
    ConcatLines(text);
  }
}
