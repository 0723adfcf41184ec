/** `AlwaysReadableRequest`: a request wrapper that drains the original body
    once into an immutable byte sequence and hands out a fresh cursor over it
    on every `getInputStream()`, so the body can be read any number of times. */
module ReadableRequests {
  import opened Wrappers
  import opened Servlet
  import opened LineReader

  /** The wrapper: the body captured at construction. Being a value, it is
      never reassigned and never consumed by reading. */
  datatype ReadableRequest = ReadableRequest(body: seq<byte>)

  /** The constructor: copies the original input stream to its end. It
      succeeds exactly when the original stream can be read to the end, and
      then holds every byte in order; otherwise the `IOException` propagates. */
  method Capture(source: BodySource) returns (r: Result<ReadableRequest, Throwable>)
    ensures r.Success? <==> Drainable(source)
    ensures r.Success? ==> r.value.body == source.data
    ensures r.Failure? ==> r.error == IOException
  {
    var copied: seq<byte> := [];
    var index := 0;
    var next := ReadSource(source, 0);
    while next.Success? && next.value != -1
      invariant index <= |source.data|
      invariant copied == source.data[..index]
      invariant next == ReadSource(source, index)
      invariant source.failsAt.None? || source.failsAt.value >= index
      decreases |source.data| - index
    {
      copied := copied + [next.value as byte];
      index := index + 1;
      next := ReadSource(source, index);
    }
    if next.Failure? {
      return Failure(next.error);
    }
    assert copied == source.data;
    return Success(ReadableRequest(copied));
  }

  /** The `ServletInputStream` returned by `getInputStream()`: a cursor over
      the captured bytes. */
  class BodyInputStream {
    const body: seq<byte>
    var pos: nat

    ghost predicate Valid()
      reads this
    {
      pos <= |body|
    }

    constructor (body: seq<byte>)
      ensures this.body == body && pos == 0 && Valid()
    {
      this.body := body;
      pos := 0;
    }

    /** `available()`: how many bytes are still unread. */
    function Available(): (n: nat)
      reads this
      requires Valid()
      ensures n + pos == |body|
    {
      |body| - pos
    }

    /** `isFinished()`: nothing is left to read. */
    function IsFinished(): (finished: bool)
      reads this
      requires Valid()
      ensures finished <==> pos == |body|
    {
      Available() == 0
    }

    /** `isReady()`: the stream never reports itself ready for non-blocking reads. */
    function IsReady(): (ready: bool)
      ensures !ready
    {
      false
    }

    /** `setReadListener`: ignored; it modifies nothing, so the cursor stays put. */
    method SetReadListener(listener: ReadListener)
    {
    }

    /** `read()`: the next byte, or `-1` (without moving) once all are read. */
    method Read() returns (b: int)
      requires Valid()
      modifies this
      ensures Valid()
      ensures old(pos) < |body| ==> b == body[old(pos)] as int && pos == old(pos) + 1
      ensures old(pos) == |body| ==> b == -1 && pos == old(pos)
    {
      if pos < |body| {
        b := body[pos] as int;
        pos := pos + 1;
      } else {
        b := -1;
      }
    }
  }

  /** `getInputStream()`: a new cursor at the start of the captured body. */
  method GetInputStream(request: ReadableRequest) returns (stream: BodyInputStream)
    ensures fresh(stream)
    ensures stream.Valid() && stream.body == request.body && stream.pos == 0
  {
    stream := new BodyInputStream(request.body);
  }

  /** Calls `read()` until it returns `-1`: yields exactly the unread bytes and
      leaves the stream finished, so every later `read()` returns `-1`. */
  method DrainStream(stream: BodyInputStream) returns (bytes: seq<byte>)
    requires stream.Valid()
    modifies stream
    ensures stream.Valid() && stream.IsFinished()
    ensures bytes == stream.body[old(stream.pos)..]
  {
    bytes := [];
    while true
      invariant stream.Valid() && old(stream.pos) <= stream.pos
      invariant bytes == stream.body[old(stream.pos)..stream.pos]
      decreases |stream.body| - stream.pos
    {
      var b := stream.Read();
      if b == -1 {
        break;
      }
      bytes := bytes + [b as byte];
    }
  }

  /** Two cursors from two `getInputStream()` calls do not interfere: after
      `k` bytes are read from the first, the second still yields the whole
      body, and the first then yields the remainder. */
  method InterleavedReads(request: ReadableRequest, k: nat) returns (first: seq<byte>, second: seq<byte>)
    ensures first == request.body
    ensures second == request.body
  {
    var s1 := GetInputStream(request);
    var prefix: seq<byte> := [];
    while s1.pos < k && !s1.IsFinished()
      invariant s1.Valid() && s1.body == request.body
      invariant prefix == request.body[..s1.pos]
      decreases |s1.body| - s1.pos
    {
      var b := s1.Read();
      prefix := prefix + [b as byte];
    }
    var s2 := GetInputStream(request);
    second := DrainStream(s2);
    var rest := DrainStream(s1);
    first := prefix + rest;
    assert request.body == request.body[..s1.pos] + request.body[s1.pos..];
  }

  /** A fresh stream is finished at once exactly when the body is empty, and
      is never ready. */
  method FreshStreamStatus(request: ReadableRequest) returns (finished: bool, ready: bool)
    ensures finished <==> |request.body| == 0
    ensures !ready
  {
    var stream := GetInputStream(request);
    finished := stream.IsFinished();
    ready := stream.IsReady();
  }

  /** `getReader()`: text decoded from a fresh stream, so obtaining and
      reading it leaves the body available to later readers. */
  method GetReader(request: ReadableRequest) returns (text: string)
    ensures text == Decode(request.body)
  {
    var stream := GetInputStream(request);
    var bytes := DrainStream(stream);
    text := Decode(bytes);
  }
}
