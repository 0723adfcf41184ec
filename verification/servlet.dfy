/** The parts of the servlet API the filter consumes, reduced to values: a
    request's identity, parameters, headers and body source, the filter's
    configuration, and the errors that can be thrown. */
module Servlet {
  import opened Wrappers

  /** An unsigned byte, as `InputStream.read` reports it. */
  newtype byte = x: int | 0 <= x < 256

  /** The throwables the model distinguishes. */
  datatype Throwable =
    | IOException
    | NullPointerException
    | ApplicationError(name: string)

  /** The request's original input stream: the bytes it delivers and, when it
      breaks, the index of the read call that throws an `IOException`. */
  datatype BodySource = BodySource(data: seq<byte>, failsAt: Option<nat>)

  /** One `read()` on the original stream at byte index `index`: a byte, `-1`
      at the end, or the `IOException` it throws. */
  function ReadSource(source: BodySource, index: nat): (r: Result<int, Throwable>)
    requires index <= |source.data|
    ensures r.Failure? <==> source.failsAt == Some(index)
    ensures r.Failure? ==> r.error == IOException
    ensures r.Success? ==> (r.value == -1 <==> index == |source.data|)
    ensures r.Success? && index < |source.data| ==> r.value == source.data[index] as int
  {
    if source.failsAt == Some(index) then Failure(IOException)
    else if index == |source.data| then Success(-1)
    else Success(source.data[index] as int)
  }

  /** The original stream can be read to its end without throwing. */
  predicate Drainable(source: BodySource)
  {
    source.failsAt.None? || source.failsAt.value > |source.data|
  }

  /** One query/form parameter with its values; `None` models a null array. */
  datatype Param = Param(name: string, values: Option<seq<string>>)

  /** One request header with the value `getHeader(name)` returns. */
  datatype Header = Header(name: string, value: string)

  /** What the filter reads from an `HttpServletRequest`: parameters and
      headers in their enumeration order, and the body's source. */
  datatype HttpRequest = HttpRequest(
    remoteAddr: string,
    httpMethod: string,
    requestUrl: string,
    requestUri: string,
    parameters: seq<Param>,
    headers: seq<Header>,
    contentType: Option<string>,
    body: BodySource)

  /** The filter's init parameters. */
  datatype FilterConfig = FilterConfig(initParameters: map<string, string>)
  {
    /** `getInitParameter`: the value, or null when the name is not configured. */
    function GetInitParameter(name: string): Option<string>
    {
      if name in initParameters then Some(initParameters[name]) else None
    }
  }

  /** The listener argument of `setReadListener`, which the buffered stream ignores. */
  datatype ReadListener = ReadListener(id: nat)
}
