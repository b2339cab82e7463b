/**
 * The streamed HTTP readers of smart_open/http.py.
 *
 * `BufferedInputBase` reads one response body through a byte buffer that it
 * fills from the response's chunk iterator. `SeekableBufferedInputBase` adds a
 * position, probes the response headers for range support and, on a seek,
 * re-requests the resource from the new offset with a `Range` header.
 *
 * The network is abstracted: a `Server` holds the resource and the headers it
 * advertises; `Get` answers a request with an arbitrary chunking of the bytes
 * the server sends, and whether the answer is a success is a parameter.
 */
module Http {
  import opened Wrappers
  import opened Util

  type Byte = b: int | 0 <= b < 256
  type Bytes = seq<Byte>

  /** The bytes of a chunk sequence, in order. */
  function Flatten(chunks: seq<Bytes>): Bytes {
    if chunks == [] then [] else chunks[0] + Flatten(chunks[1..])
  }

  /** The bytes of `content` from offset `from` on; nothing when `from` lies past the end. */
  function Suffix(content: Bytes, from: nat): (r: Bytes)
    ensures |r| == if from <= |content| then |content| - from else 0
  {
    if from <= |content| then content[from..] else []
  }

  // ---------------------------------------------------------------------------
  // Requests and responses.

  /** The response headers the reader consults; an absent header is None. */
  datatype ResponseHeaders = ResponseHeaders(contentLength: Option<int>, acceptRanges: Option<string>)

  /**
   * A streamed response: its status, its headers, and the chunks of its body
   * that have not been taken from the connection yet.
   */
  datatype Response = Response(ok: bool, headers: ResponseHeaders, body: seq<Bytes>)

  /** A GET request as the transport sees it. */
  datatype HttpRequest = HttpRequest(url: string, headers: map<string, string>)

  /**
   * The remote resource: its bytes, whether the server sends a Content-Length
   * header (always the true length when it does), and its Accept-Ranges header.
   */
  datatype Server = Server(content: Bytes, sendsContentLength: bool, acceptRanges: Option<string>) {
    function Headers(): ResponseHeaders {
      ResponseHeaders(if sendsContentLength then Some(|content|) else None, acceptRanges)
    }
  }

  /**
   * The body a server sends for a GET: the suffix from `first` for a request
   * carrying `range: bytes=first-`, the whole resource otherwise.
   */
  function ServedBody(server: Server, headers: map<string, string>): Bytes {
    if "range" in headers && ParseRangeSpec(headers["range"]).Some?
       && ParseRangeSpec(headers["range"]).value.last.None?
    then Suffix(server.content, ParseRangeSpec(headers["range"]).value.first)
    else server.content
  }

  /**
   * `requests.get(url, stream=True, headers=...)`: the server's answer, cut
   * into chunks the transport chooses; `ok` is the status the server returns.
   */
  method Get(server: Server, request: HttpRequest, ok: bool) returns (response: Response)
    ensures response.ok == ok && response.headers == server.Headers()
    ensures Flatten(response.body) == ServedBody(server, request.headers)
  {
    var served := ServedBody(server, request.headers);
    assert Flatten([served]) == served;
    var chunks: seq<Bytes> :| Flatten(chunks) == served;
    response := Response(ok, server.Headers(), chunks);
  }

  /** `_HEADERS`: sent with every request, so that the body arrives uncompressed. */
  const DEFAULT_HEADERS: map<string, string> := map["Accept-Encoding" := "identity"]

  /** The headers of `_partial_request(start_pos)`: the defaults plus `range: bytes=<start_pos>-`. */
  function PartialRequestHeaders(startPos: Option<nat>): (h: map<string, string>)
    ensures h.Keys == if startPos.Some? then {"Accept-Encoding", "range"} else {"Accept-Encoding"}
    ensures h["Accept-Encoding"] == "identity"
    ensures startPos.Some? ==> h["range"] == RangeString(startPos.value, None)
  {
    match startPos
    case None => DEFAULT_HEADERS
    case Some(pos) => DEFAULT_HEADERS["range" := "bytes=" + NatToDecimal(pos) + "-"]
  }

  /** A partial request from `pos` is answered with the resource from `pos` on. */
  lemma PartialRequestServesSuffix(server: Server, startPos: Option<nat>)
    ensures ServedBody(server, PartialRequestHeaders(startPos)) == Suffix(server.content, startPos.GetOr(0))
  {
    if startPos.Some? {
      RangeStringRoundTrip(startPos.value, None);
    }
  }

  // ---------------------------------------------------------------------------
  // Capability probing.

  function LowerChar(c: char): char {
    if 'A' <= c <= 'Z' then (c as int + 32) as char else c
  }

  /** `str.lower()` on ASCII letters. */
  function Lower(s: string): (r: string)
    ensures |r| == |s|
  {
    if s == [] then [] else [LowerChar(s[0])] + Lower(s[1..])
  }

  /** Lower-casing maps each upper-case letter to its lower-case letter and keeps every other character. */
  lemma {:induction false} LowerLetters(s: string)
    ensures forall i :: 0 <= i < |s| && 'A' <= s[i] <= 'Z' ==> Lower(s)[i] as int == s[i] as int + 32
    ensures forall i :: 0 <= i < |s| && !('A' <= s[i] <= 'Z') ==> Lower(s)[i] == s[i]
    decreases |s|
  {
    if s != [] {
      LowerLetters(s[1..]);
      assert forall i :: 1 <= i < |s| ==> Lower(s)[i] == Lower(s[1..])[i - 1] && s[i] == s[1..][i - 1];
    }
  }

  /** `int(headers.get("Content-Length", -1))`. */
  function ContentLengthOf(headers: ResponseHeaders): int {
    headers.contentLength.GetOr(-1)
  }

  /**
   * Whether a reader may seek over a response with these headers: the length is
   * known and not negative, and Accept-Ranges is "bytes" in any letter case.
   */
  predicate AdvertisesSeeking(headers: ResponseHeaders): (r: bool)
    ensures r <==> && headers.contentLength.Some? && headers.contentLength.value >= 0
                   && headers.acceptRanges.Some? && Lower(headers.acceptRanges.value) == "bytes"
  {
    ContentLengthOf(headers) >= 0 && Lower(headers.acceptRanges.GetOr("none")) == "bytes"
  }

  // ---------------------------------------------------------------------------
  // Reading, as a function of the stream state.

  /**
   * The state `read` works on: `response` (None once closed), `_read_buffer`,
   * whether `_read_iter` has been created, and `_current_pos`.
   */
  datatype StreamState = StreamState(response: Option<Response>, buffer: Bytes, iterOpen: bool, pos: nat)
  {
    /** Before the chunk iterator exists the buffer holds nothing. */
    predicate Consistent() {
      !iterOpen ==> buffer == []
    }

    /** The bytes a read can still return: the buffer, then the chunks not yet pulled. */
    function Available(): Bytes {
      if response.None? then [] else buffer + Flatten(response.value.body)
    }
  }

  /**
   * The loop of `read(size)`: pulls chunks into the buffer until it holds
   * `size` bytes or the chunks run out; the buffer and the chunks left.
   */
  function Fill(buffer: Bytes, chunks: seq<Bytes>, size: int): (r: (Bytes, seq<Bytes>))
    ensures r.0 + Flatten(r.1) == buffer + Flatten(chunks)
    ensures |r.0| < size ==> r.1 == []
    ensures |r.1| <= |chunks|
    decreases |chunks|
  {
    if |buffer| >= size || chunks == [] then (buffer, chunks)
    else
      assert Flatten(chunks) == chunks[0] + Flatten(chunks[1..]);
      assert (buffer + chunks[0]) + Flatten(chunks[1..]) == buffer + (chunks[0] + Flatten(chunks[1..]));
      Fill(buffer + chunks[0], chunks[1..], size)
  }

  /** The bytes of the first `j + 1` chunks: the first chunk, then the next `j`. */
  lemma FlattenPrefixStep(chunks: seq<Bytes>, j: nat)
    requires 1 <= j <= |chunks|
    ensures Flatten(chunks[..j]) == chunks[0] + Flatten(chunks[1..][..j - 1])
  {
    assert chunks[..j][1..] == chunks[1..][..j - 1];
  }

  /** How many chunks the loop of `read(size)` pulls before it stops. */
  function Pulled(buffer: Bytes, chunks: seq<Bytes>, size: int): (k: nat)
    ensures k <= |chunks|
    decreases |chunks|
  {
    if |buffer| >= size || chunks == [] then 0 else 1 + Pulled(buffer + chunks[0], chunks[1..], size)
  }

  /**
   * The loop takes the chunks in order: the buffer gains the first `Pulled`
   * chunks and the chunks left are exactly the ones after them.
   */
  lemma {:induction false} FillTakesPrefix(buffer: Bytes, chunks: seq<Bytes>, size: int)
    ensures var r := Fill(buffer, chunks, size); var k := Pulled(buffer, chunks, size);
      r.1 == chunks[k..] && r.0 == buffer + Flatten(chunks[..k])
    decreases |chunks|
  {
    if |buffer| >= size || chunks == [] {
      assert chunks[..0] == [];
    } else {
      var rest := chunks[1..];
      var k' := Pulled(buffer + chunks[0], rest, size);
      FillTakesPrefix(buffer + chunks[0], rest, size);
      assert rest[k'..] == chunks[k' + 1..];
      FlattenPrefixStep(chunks, k' + 1);
      assert (buffer + chunks[0]) + Flatten(rest[..k']) == buffer + (chunks[0] + Flatten(rest[..k']));
    }
  }

  /**
   * The loop pulls no chunk it does not need: each of the chunks it pulled was
   * pulled while the buffer still held fewer than `size` bytes.
   */
  lemma {:induction false} FillPullsFewest(buffer: Bytes, chunks: seq<Bytes>, size: int)
    ensures forall j :: 0 <= j < Pulled(buffer, chunks, size) ==> |buffer + Flatten(chunks[..j])| < size
    decreases |chunks|
  {
    if !(|buffer| >= size || chunks == []) {
      var rest := chunks[1..];
      FillPullsFewest(buffer + chunks[0], rest, size);
      forall j | 0 <= j < Pulled(buffer, chunks, size)
        ensures |buffer + Flatten(chunks[..j])| < size
      {
        if j == 0 {
          assert chunks[..0] == [];
        } else {
          FlattenPrefixStep(chunks, j);
          assert |(buffer + chunks[0]) + Flatten(rest[..j - 1])| < size;
        }
      }
    }
  }

  /**
   * `read(size)` on state `s`: the bytes returned and the state after. A
   * negative size returns `response.raw.read()`, the body the iterator has not
   * pulled, and leaves the buffer alone.
   */
  function ReadStep(s: StreamState, size: int): (o: (Bytes, StreamState))
    ensures o.1.pos == s.pos + |o.0|
    ensures size >= 0 ==> |o.0| <= size
    ensures o.1.response.Some? <==> s.response.Some?
  {
    if s.response.None? || size == 0 then ([], s)
    else if size < 0 then
      var data := Flatten(s.response.value.body);
      (data, s.(response := Some(s.response.value.(body := [])), pos := s.pos + |data|))
    else
      var filled := Fill(if s.iterOpen then s.buffer else [], s.response.value.body, size);
      var data := if |filled.0| < size then filled.0 else filled.0[..size];
      var left := if |filled.0| < size then [] else filled.0[size..];
      (data, StreamState(Some(s.response.value.(body := filled.1)), left, true, s.pos + |data|))
  }

  /** With no response, or for size 0, a read returns nothing and changes nothing. */
  lemma ReadNothing(s: StreamState, size: int)
    requires s.response.None? || size == 0
    ensures ReadStep(s, size) == ([], s)
  {
  }

  /**
   * A negative size returns the chunks the iterator has not pulled and leaves
   * the buffer as it was: bytes already buffered are not part of the result.
   */
  lemma RawReadLeavesBuffer(s: StreamState, size: int)
    requires s.response.Some? && size < 0
    ensures var o := ReadStep(s, size);
      && o.0 == Flatten(s.response.value.body)
      && o.1.buffer == s.buffer && o.1.iterOpen == s.iterOpen
      && o.1.Available() == s.buffer
  {
  }

  /**
   * A positive read returns the next `size` available bytes, or all of them
   * when fewer are left (and then nothing is left), keeps the rest available
   * in order, and leaves the response otherwise as it was.
   */
  lemma ReadPositive(s: StreamState, size: int)
    requires s.response.Some? && s.Consistent() && size > 0
    ensures var o := ReadStep(s, size);
      var n := Min(size, |s.Available()|);
      && o.0 == s.Available()[..n]
      && o.1.Available() == s.Available()[n..]
      && o.1.Consistent() && o.1.iterOpen
      && o.1.response == Some(s.response.value.(body := o.1.response.value.body))
      && (|o.0| < size ==> o.1.Available() == [])
  {
    var avail := s.Available();
    var filled := Fill(s.buffer, s.response.value.body, size);
    assert filled.0 + Flatten(filled.1) == avail;
    if size <= |filled.0| {
      assert avail[..size] == filled.0[..size];
      assert filled.0 == filled.0[..size] + filled.0[size..];
      assert avail[size..] == filled.0[size..] + Flatten(filled.1);
    }
  }

  /**
   * A read that leaves no byte behind the buffer keeps the stream in order:
   * what it returns, then what is left, is what was available.
   */
  lemma ReadSplitsAvailable(s: StreamState, size: int)
    requires s.Consistent() && (size >= 0 || s.buffer == [])
    ensures var o := ReadStep(s, size); o.0 + o.1.Available() == s.Available() && o.1.Consistent()
  {
    if s.response.Some? && size > 0 {
      ReadPositive(s, size);
      var n := Min(size, |s.Available()|);
      assert s.Available() == s.Available()[..n] + s.Available()[n..];
    }
  }

  /** Every read, a negative size included, takes from what is available exactly the bytes it returns. */
  lemma ReadConservesLength(s: StreamState, size: int)
    requires s.Consistent()
    ensures var o := ReadStep(s, size); |o.0| + |o.1.Available()| == |s.Available()| && o.1.Consistent()
  {
    if s.response.Some? && size > 0 {
      ReadPositive(s, size);
    }
  }

  /**
   * What a read preserves of a stream: the buffer stays empty until the
   * iterator exists, the response keeps its status, the bytes returned so far
   * plus those available keep their number, and, unless a negative size skips
   * a non-empty buffer, they also keep their order.
   */
  lemma ReadKeepsInvariant(s: StreamState, size: int, returned: Bytes, whole: Bytes)
    requires s.Consistent()
    ensures var o := ReadStep(s, size);
      && o.1.Consistent()
      && (o.1.response.Some? ==> o.1.response.value.ok == s.response.value.ok)
      && |returned + o.0| + |o.1.Available()| == |returned| + |s.Available()|
      && (returned + s.Available() == whole && (size >= 0 || s.buffer == []) ==>
            (returned + o.0) + o.1.Available() == whole)
  {
    var o := ReadStep(s, size);
    ReadConservesLength(s, size);
    if size >= 0 || s.buffer == [] {
      ReadSplitsAvailable(s, size);
      assert (returned + o.0) + o.1.Available() == returned + (o.0 + o.1.Available());
    }
    if s.response.Some? && size > 0 {
      ReadPositive(s, size);
    }
  }

  /** Two positive reads in a row return the bytes one read of both sizes would. */
  lemma ConsecutiveReads(s: StreamState, a: int, b: int)
    requires s.response.Some? && s.Consistent() && a > 0 && b > 0
    ensures var first := ReadStep(s, a); var second := ReadStep(first.1, b);
      first.0 + second.0 == s.Available()[..Min(a + b, |s.Available()|)]
  {
    var avail := s.Available();
    var first := ReadStep(s, a);
    var n := Min(a, |avail|);
    var rest := first.1.Available();
    assert first.0 == avail[..n] && rest == avail[n..]
        && first.1.response.Some? && first.1.Consistent() by {
      ReadPositive(s, a);
    }
    var m := Min(b, |rest|);
    assert ReadStep(first.1, b).0 == rest[..m] by {
      ReadPositive(first.1, b);
    }
    assert Min(a + b, |avail|) == n + m;
    PrefixThenNext(avail, n, m);
  }

  /** The first `n` bytes, then the `m` after them, are the first `n + m`. */
  lemma PrefixThenNext(x: Bytes, n: nat, m: nat)
    requires n + m <= |x|
    ensures x[..n] + x[n..][..m] == x[..n + m]
  {
    assert forall i :: 0 <= i < n + m ==> (x[..n] + x[n..][..m])[i] == x[i];
  }

  // ---------------------------------------------------------------------------
  // The forward-only reader.

  /** An open stream over one response body, read through a buffer of pulled chunks. */
  class BufferedInputBase {
    /** The resource the response was requested from. */
    const server: Server

    /** `response`: None once the stream is closed or a re-request failed. */
    var response: Option<Response>
    /** `_read_buffer`: bytes pulled from the chunk iterator and not yet returned. */
    var readBuffer: Bytes
    /** Whether `_read_iter` has been created. */
    var readIterOpen: bool
    /** `_current_pos`: the offset of the next byte to be returned. */
    var currentPos: nat

    /** The offset the current response was requested from. */
    ghost var origin: nat
    /** The bytes returned to callers since the current response was opened. */
    ghost var delivered: Bytes

    function State(): StreamState
      reads this
    {
      StreamState(response, readBuffer, readIterOpen, currentPos)
    }

    ghost predicate Valid()
      reads this
    {
      && State().Consistent()
      && (response.Some? ==> response.value.ok)
      && origin <= |server.content|
      && currentPos == origin + |delivered|
      && |delivered| <= |server.content| - origin
      && (response.Some? ==> |delivered| + |State().Available()| == |server.content| - origin)
    }

    /**
     * The stream is read in order: what was returned since the last (re)open,
     * then what is still available, is the resource from that offset on.
     */
    ghost predicate InOrder()
      reads this
    {
      response.Some? ==> delivered + State().Available() == Suffix(server.content, origin)
    }

    /** The body of `__init__` after `requests.get` returned the successful `response`. */
    constructor (server: Server, response: Response)
      requires response.ok && Flatten(response.body) == server.content
      ensures Valid() && InOrder()
      ensures this.server == server && State() == StreamState(Some(response), [], false, 0)
      ensures origin == 0 && delivered == []
    {
      this.server := server;
      this.response := Some(response);
      readBuffer := [];
      readIterOpen := false;
      currentPos := 0;
      origin, delivered := 0, [];
    }

    /** The `while` loop of `read(size)`: pulls chunks until the buffer holds `size` bytes. */
    method FillBuffer(size: int) returns (exhausted: bool)
      requires response.Some?
      modifies this`readBuffer, this`response
      ensures response.Some? && response.value == old(response.value).(body := response.value.body)
      ensures (readBuffer, response.value.body) == Fill(old(readBuffer), old(response.value.body), size)
      ensures exhausted <==> |readBuffer| < size
    {
      while |readBuffer| < size
        invariant response.Some? && response.value == old(response.value).(body := response.value.body)
        invariant Fill(readBuffer, response.value.body, size) == Fill(old(readBuffer), old(response.value.body), size)
        decreases |response.value.body|
      {
        if response.value.body == [] {
          // StopIteration: the response has no more chunks.
          return true;
        }
        readBuffer := readBuffer + response.value.body[0];
        response := Some(response.value.(body := response.value.body[1..]));
      }
      return false;
    }

    /** `read(size)`: up to `size` bytes, fewer only at end of stream; `size < 0` drains the raw body. */
    method Read(size: int) returns (r: Bytes)
      requires Valid()
      modifies this
      ensures Valid()
      ensures (r, State()) == ReadStep(old(State()), size)
      ensures origin == old(origin) && delivered == old(delivered) + r
      ensures old(InOrder()) && (size >= 0 || old(readBuffer) == []) ==> InOrder()
    {
      ReadKeepsInvariant(State(), size, delivered, Suffix(server.content, origin));
      if response.None? {
        return [];
      }
      if size == 0 {
        return [];
      } else if size < 0 {
        r := ReadRaw(size);
      } else {
        r := ReadBuffered(size);
      }
      delivered := delivered + r;
    }

    /** The branch of `read(size)` for a negative `size`: `response.raw.read()`. */
    method ReadRaw(size: int) returns (r: Bytes)
      requires response.Some? && size < 0
      modifies this`response, this`currentPos
      ensures (r, State()) == ReadStep(old(State()), size)
    {
      r := Flatten(response.value.body);
      response := Some(response.value.(body := []));
      currentPos := currentPos + |r|;
    }

    /** The branch of `read(size)` for a positive `size`: serves the read through the buffer. */
    method ReadBuffered(size: int) returns (r: Bytes)
      requires response.Some? && State().Consistent() && size > 0
      modifies this`readBuffer, this`response, this`readIterOpen, this`currentPos
      ensures (r, State()) == ReadStep(old(State()), size)
    {
      if !readIterOpen {
        readIterOpen := true;
        readBuffer := [];
      }
      var exhausted := FillBuffer(size);
      if exhausted {
        // Ran out of data early: a short read of everything buffered.
        r := readBuffer;
        currentPos := currentPos + |r|;
        readBuffer := [];
        return;
      }
      r := readBuffer[..size];
      readBuffer := readBuffer[size..];
      currentPos := currentPos + |r|;
    }

    /** `read1(size)`: the same as `read(size)`. */
    method Read1(size: int) returns (r: Bytes)
      requires Valid()
      modifies this
      ensures Valid()
      ensures (r, State()) == ReadStep(old(State()), size)
      ensures origin == old(origin) && delivered == old(delivered) + r
      ensures old(InOrder()) && (size >= 0 || old(readBuffer) == []) ==> InOrder()
    {
      r := Read(size);
    }

    /**
     * `readinto(b)`: reads up to `b.Length` bytes into the front of `b` and
     * returns how many; the rest of `b` is left alone.
     */
    method ReadInto(b: array<Byte>) returns (n: nat)
      requires Valid()
      modifies this, b
      ensures Valid() && n <= b.Length
      ensures (b[..n], State()) == ReadStep(old(State()), b.Length)
      ensures b[n..] == old(b[n..])
      ensures origin == old(origin) && delivered == old(delivered) + b[..n]
      ensures old(InOrder()) ==> InOrder()
    {
      var data := Read(b.Length);
      if data == [] {
        return 0;
      }
      forall i | 0 <= i < |data| {
        b[i] := data[i];
      }
      n := |data|;
      assert b[..n] == data;
    }

    /** `close()`: drops the response; later reads return nothing. */
    method Close()
      requires Valid()
      modifies this`response
      ensures Valid() && InOrder()
      ensures State() == old(State()).(response := None)
    {
      response := None;
    }

    /** The first half of a move in `seek`: the new position, and no buffer or iterator. */
    method Rewind(target: nat)
      modifies this`currentPos, this`readBuffer, this`readIterOpen
      ensures currentPos == target && readBuffer == [] && !readIterOpen
    {
      currentPos := target;
      readBuffer := [];
      readIterOpen := false;
    }

    /**
     * The second half of a move in `seek`: the answer to the partial request
     * from the new position, or None when that request failed.
     */
    method Reopen(next: Option<Response>)
      requires currentPos <= |server.content| && readBuffer == [] && !readIterOpen
      requires next.Some? ==> next.value.ok && Flatten(next.value.body) == Suffix(server.content, currentPos)
      modifies this`response, this`origin, this`delivered
      ensures Valid() && InOrder()
      ensures response == next && origin == currentPos && delivered == []
    {
      response := next;
      origin, delivered := currentPos, [];
    }

    /** `seekable()`: the forward-only reader never seeks. */
    function Seekable(): (r: bool)
      ensures !r
    {
      false
    }
  }

  /** `raise_for_status()` on a response whose status is not a success. */
  datatype HttpError = HttpStatusError

  /** `BufferedInputBase(url)`: requests the resource and fails unless the status is a success. */
  method OpenBufferedInput(url: string, server: Server, ok: bool)
    returns (r: Result<BufferedInputBase, HttpError>)
    ensures r.Success? <==> ok
    ensures r.Success? ==>
      && fresh(r.value) && r.value.Valid() && r.value.InOrder()
      && r.value.server == server && r.value.response.Some?
      && r.value.State().Available() == server.content && r.value.currentPos == 0
  {
    var response := Get(server, HttpRequest(url, DEFAULT_HEADERS), ok);
    if !response.ok {
      return Failure(HttpStatusError);
    }
    var reader := new BufferedInputBase(server, response);
    return Success(reader);
  }

  // ---------------------------------------------------------------------------
  // The seekable reader.

  /**
   * The position `seek(offset, whence)` moves to: `offset` from the start, from
   * the current position `pos` or from the end, clamped into `[0, content_length]`.
   */
  function SeekTarget(offset: int, whence: int, pos: int, contentLength: int): (t: int)
    requires whence in WHENCE_CHOICES
    ensures contentLength >= 0 ==> 0 <= t <= contentLength
    ensures whence == START && 0 <= offset <= contentLength ==> t == offset
    ensures whence == CURRENT && 0 <= pos + offset <= contentLength ==> t == pos + offset
    ensures whence == END && -contentLength <= offset <= 0 ==> t == contentLength + offset
    ensures contentLength >= 0 && ((whence == START && offset < 0) || (whence == END && offset < -contentLength)) ==> t == 0
    ensures contentLength >= 0 && ((whence == START && offset > contentLength) || (whence == END && offset > 0)) ==> t == contentLength
    ensures contentLength >= 0 && whence == CURRENT && pos + offset < 0 ==> t == 0
    ensures contentLength >= 0 && whence == CURRENT && pos + offset > contentLength ==> t == contentLength
  {
    Clamp(if whence == START then offset else if whence == CURRENT then pos + offset else contentLength + offset,
          0, contentLength)
  }

  /** `ValueError` for an unknown whence; `OSError` when the stream cannot seek. */
  datatype SeekError = InvalidWhence | NotSeekable

  /**
   * A reader that can seek. The buffered reading it inherits in the source is
   * the `reader` it holds; `seek` rewrites that reader's state.
   */
  class SeekableBufferedInputBase {
    const url: string
    const server: Server
    /** `content_length`: from the first response; -1 when it had none. */
    const contentLength: int
    /** `_seekable`: fixed when the stream is opened. */
    const isSeekable: bool
    /** The buffered reading state: response, buffer, iterator and position. */
    const reader: BufferedInputBase

    /** Every request sent for this stream, in order. */
    ghost var requestLog: seq<HttpRequest>

    ghost predicate Valid()
      reads this, reader
    {
      && reader.Valid()
      && reader.server == server
      && contentLength == ContentLengthOf(server.Headers())
      && (isSeekable ==> contentLength >= 0)
    }

    /** The body of `__init__` after the first request, `request`, returned the successful `response`. */
    constructor (url: string, server: Server, ghost request: HttpRequest, response: Response)
      requires request == HttpRequest(url, PartialRequestHeaders(None))
      requires response.ok && response.headers == server.Headers()
      requires Flatten(response.body) == ServedBody(server, request.headers)
      ensures Valid() && reader.InOrder() && fresh(reader)
      ensures this.url == url && this.server == server
      ensures contentLength == ContentLengthOf(response.headers)
      ensures isSeekable == AdvertisesSeeking(response.headers)
      ensures requestLog == [HttpRequest(url, PartialRequestHeaders(None))]
      ensures reader.State() == StreamState(Some(response), [], false, 0)
    {
      this.url := url;
      this.server := server;
      var seekable := true;
      var length := ContentLengthOf(response.headers);
      if length < 0 {
        seekable := false;
      }
      if Lower(response.headers.acceptRanges.GetOr("none")) != "bytes" {
        seekable := false;
      }
      contentLength := length;
      isSeekable := seekable;
      assert "range" !in request.headers;
      reader := new BufferedInputBase(server, response);
      requestLog := [request];
    }

    /** `seekable()`: the flag probed when the stream was opened. */
    function Seekable(): (r: bool)
      reads this, reader
      requires Valid()
      ensures r ==> contentLength == |server.content|
    {
      isSeekable
    }

    /** `tell()`: the current position, never past the end of the resource. */
    function Tell(): (r: nat)
      reads this, reader
      requires Valid()
      ensures r == reader.currentPos
      ensures r <= |server.content|
    {
      reader.currentPos
    }

    /** `_partial_request(start_pos)`: a GET from `start_pos` on, or of everything when it is None. */
    method PartialRequest(startPos: Option<nat>, ok: bool) returns (response: Response)
      modifies this`requestLog
      ensures requestLog == old(requestLog) + [HttpRequest(url, PartialRequestHeaders(startPos))]
      ensures response.ok == ok && response.headers == server.Headers()
      ensures Flatten(response.body) == Suffix(server.content, startPos.GetOr(0))
    {
      var headers := PartialRequestHeaders(startPos);
      response := Get(server, HttpRequest(url, headers), ok);
      requestLog := requestLog + [HttpRequest(url, headers)];
      PartialRequestServesSuffix(server, startPos);
    }

    /**
     * `seek(offset, whence)`: moves to `offset` from the start, the current
     * position or the end, clamped into `[0, content_length]`, and returns the
     * new position. A move re-requests the resource from there; `ok` is the
     * status of that request, and a failure leaves the stream without a response.
     */
    method Seek(offset: int, whence: int, ok: bool) returns (r: Result<nat, SeekError>)
      requires Valid()
      modifies this, reader
      ensures Valid()
      ensures whence !in WHENCE_CHOICES ==> r == Failure(InvalidWhence)
      ensures whence in WHENCE_CHOICES && !isSeekable ==> r == Failure(NotSeekable)
      ensures whence in WHENCE_CHOICES && isSeekable ==>
        r == Success(SeekTarget(offset, whence, old(reader.currentPos), contentLength))
      ensures r.Success? ==> r.value <= contentLength && reader.currentPos == r.value
      ensures r.Failure? || r.value == old(reader.currentPos) ==> unchanged(this, reader)
      ensures r.Success? && r.value != old(reader.currentPos) ==>
        && requestLog == old(requestLog) + [HttpRequest(url, PartialRequestHeaders(Some(r.value)))]
        && reader.readBuffer == [] && !reader.readIterOpen
        && reader.origin == r.value && reader.delivered == [] && reader.InOrder()
        && (ok <==> reader.response.Some?)
        && (ok ==> reader.State().Available() == Suffix(server.content, r.value))
    {
      if whence !in WHENCE_CHOICES {
        return Failure(InvalidWhence);
      }
      if !Seekable() {
        return Failure(NotSeekable);
      }
      var newPos: int;
      if whence == START {
        newPos := offset;
      } else if whence == CURRENT {
        newPos := reader.currentPos + offset;
      } else {
        newPos := contentLength + offset;
      }
      var target: nat := Clamp(newPos, 0, contentLength);
      if reader.currentPos != target {
        MoveTo(target, ok);
      }
      return Success(target);
    }

    /**
     * The move of `seek` to a new position `target`: the position first, then
     * the partial request from there, whose answer replaces the response when
     * its status `ok` is a success and leaves the stream without one otherwise.
     */
    method MoveTo(target: nat, ok: bool)
      requires Valid() && target <= |server.content|
      modifies this`requestLog, reader
      ensures Valid()
      ensures requestLog == old(requestLog) + [HttpRequest(url, PartialRequestHeaders(Some(target)))]
      ensures reader.currentPos == target && reader.readBuffer == [] && !reader.readIterOpen
      ensures reader.origin == target && reader.delivered == [] && reader.InOrder()
      ensures ok <==> reader.response.Some?
      ensures ok ==> reader.State().Available() == Suffix(server.content, target)
    {
      reader.Rewind(target);
      var response := PartialRequest(Some(target), ok);
      if response.ok {
        reader.Reopen(Some(response));
      } else {
        reader.Reopen(None);
      }
    }
  }

  /** `SeekableBufferedInputBase(url)`: the first request, then the capability probe. */
  method OpenSeekable(url: string, server: Server, ok: bool)
    returns (r: Result<SeekableBufferedInputBase, HttpError>)
    ensures r.Success? <==> ok
    ensures r.Success? ==>
      && fresh(r.value) && fresh(r.value.reader) && r.value.Valid() && r.value.reader.InOrder()
      && r.value.url == url && r.value.server == server
      && r.value.isSeekable == AdvertisesSeeking(server.Headers())
      && r.value.requestLog == [HttpRequest(url, PartialRequestHeaders(None))]
      && r.value.reader.response.Some? && r.value.reader.State().Available() == server.content
      && r.value.reader.currentPos == 0
  {
    var request := HttpRequest(url, PartialRequestHeaders(None));
    var response := Get(server, request, ok);
    if !response.ok {
      return Failure(HttpStatusError);
    }
    var stream := new SeekableBufferedInputBase(url, server, request, response);
    return Success(stream);
  }
}
