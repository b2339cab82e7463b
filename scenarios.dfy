/**
 * Client runs of the readers in smart_open/http.py against a model server.
 *
 * Every run opens a fresh stream, so none of these methods changes existing
 * state; their postconditions hold for every chunking the transport may pick.
 */
module Scenarios {
  import opened Wrappers
  import opened Util
  import opened Http

  /** The bytes of "abcdefghijklmnopqrstuvwxyz". */
  const Alphabet: Bytes := seq(26, i requires 0 <= i < 26 => 97 + i)

  const Url: string := "http://example.com/alphabet"

  /** A server that sends the length of the resource and accepts byte ranges. */
  function RangeServer(content: Bytes): Server {
    Server(content, true, Some("bytes"))
  }

  /**
   * A forward-only stream read in steps of 10, 10, 100 and 1: two full reads,
   * a short read of the last six letters, then nothing.
   */
  method ChunkedReads() returns (r1: Bytes, r2: Bytes, r3: Bytes, r4: Bytes, pos: nat)
    ensures r1 == Alphabet[..10] && r2 == Alphabet[10..20]
    ensures r3 == Alphabet[20..] && r4 == []
    ensures pos == 26
  {
    var attempt := OpenBufferedInput(Url, RangeServer(Alphabet), true);
    var reader := attempt.value;
    ghost var s := reader.State();
    r1 := reader.Read(10);
    ReadPositive(s, 10);
    s := reader.State();
    r2 := reader.Read(10);
    ReadPositive(s, 10);
    s := reader.State();
    r3 := reader.Read(100);
    ReadPositive(s, 100);
    s := reader.State();
    r4 := reader.Read(1);
    ReadPositive(s, 1);
    pos := reader.currentPos;
  }

  /** `readinto` of a 4-byte array, then of a 30-byte array that the rest only partly fills. */
  method ReadIntoArrays() returns (n1: nat, first: Bytes, n2: nat, second: Bytes)
    ensures n1 == 4 && first == Alphabet[..4]
    ensures n2 == 22 && second == Alphabet[4..]
  {
    var attempt := OpenBufferedInput(Url, RangeServer(Alphabet), true);
    var reader := attempt.value;
    var small := new Byte[4];
    ghost var s := reader.State();
    n1 := reader.ReadInto(small);
    ReadPositive(s, 4);
    first := small[..n1];
    var large := new Byte[30];
    s := reader.State();
    n2 := reader.ReadInto(large);
    ReadPositive(s, 30);
    second := large[..n2];
  }

  /**
   * Seeking a stream that advertises ranges: to offset 20, a read of the last
   * six letters, then to five before the end, which re-requests from 21.
   */
  method SeekAndRead() returns (p1: nat, r1: Bytes, p2: nat, r2: Bytes)
    ensures p1 == 20 && r1 == Alphabet[20..]
    ensures p2 == 21 && r2 == Alphabet[21..]
  {
    var attempt := OpenSeekable(Url, RangeServer(Alphabet), true);
    var stream := attempt.value;
    var moved := stream.Seek(20, START, true);
    p1 := moved.value;
    ghost var s := stream.reader.State();
    r1 := stream.reader.Read(6);
    ReadPositive(s, 6);
    moved := stream.Seek(-5, END, true);
    p2 := moved.value;
    s := stream.reader.State();
    r2 := stream.reader.Read(5);
    ReadPositive(s, 5);
  }

  /** The requests a stream sends: the first without a range, then one per move, from the new position. */
  method SeekRequests() returns (ghost log: seq<HttpRequest>, p: nat)
    ensures p == 21
    ensures log == [HttpRequest(Url, PartialRequestHeaders(None)),
                    HttpRequest(Url, PartialRequestHeaders(Some(20))),
                    HttpRequest(Url, PartialRequestHeaders(Some(21)))]
  {
    var attempt := OpenSeekable(Url, RangeServer(Alphabet), true);
    var stream := attempt.value;
    var moved := stream.Seek(20, START, true);
    moved := stream.Seek(-5, END, true);
    p := stream.Tell();
    log := stream.requestLog;
  }

  /**
   * Without a Content-Length header the stream cannot seek; an unknown whence
   * is reported before that.
   */
  method SeekWithoutLength() returns (seekable: bool, bad: Result<nat, SeekError>, refused: Result<nat, SeekError>)
    ensures !seekable
    ensures bad == Failure(InvalidWhence)
    ensures refused == Failure(NotSeekable)
  {
    var attempt := OpenSeekable(Url, Server(Alphabet, false, Some("bytes")), true);
    var stream := attempt.value;
    seekable := stream.Seekable();
    bad := stream.Seek(0, 3, true);
    refused := stream.Seek(0, START, true);
  }

  /** Accept-Ranges is compared without regard to letter case; any other unit disables seeking. */
  method ProbeAcceptRanges() returns (upper: bool, other: bool, absent: bool)
    ensures upper && !other && !absent
  {
    var attempt := OpenSeekable(Url, Server(Alphabet, true, Some("Bytes")), true);
    upper := attempt.value.Seekable();
    attempt := OpenSeekable(Url, Server(Alphabet, true, Some("none")), true);
    other := attempt.value.Seekable();
    attempt := OpenSeekable(Url, Server(Alphabet, true, None), true);
    absent := attempt.value.Seekable();
  }

  /** A seek past the end stops at the end, where reads return nothing. */
  method SeekPastEnd() returns (p: nat, r: Bytes)
    ensures p == 26 && r == []
  {
    var attempt := OpenSeekable(Url, RangeServer(Alphabet), true);
    var stream := attempt.value;
    var moved := stream.Seek(100, START, true);
    p := moved.value;
    assert stream.reader.State().Available() == [];
    ghost var s := stream.reader.State();
    r := stream.reader.Read(10);
    ReadPositive(s, 10);
  }

  /** At the end, a seek by 0 from the current position stays there and sends no request. */
  method SeekByZeroAtEnd() returns (p1: nat, p2: nat, ghost requests: nat)
    ensures p1 == 26 && p2 == 26
    ensures requests == 2
  {
    var attempt := OpenSeekable(Url, RangeServer(Alphabet), true);
    var stream := attempt.value;
    var moved := stream.Seek(100, START, true);
    p1 := moved.value;
    assert |stream.requestLog| == 2 && stream.reader.currentPos == 26;
    moved := stream.Seek(0, CURRENT, true);
    p2 := moved.value;
    requests := |stream.requestLog|;
  }

  /**
   * A seek whose request fails still moves the position and leaves the stream
   * without a response, so reads return nothing.
   */
  method FailedSeek() returns (p: nat, r: Bytes)
    ensures p == 5 && r == []
  {
    var attempt := OpenSeekable(Url, RangeServer(Alphabet), true);
    var stream := attempt.value;
    var moved := stream.Seek(5, START, false);
    p := stream.Tell();
    r := stream.reader.Read(3);
  }

  /** After a failed seek, a seek whose request succeeds recovers the stream. */
  method RecoverAfterFailedSeek() returns (p: nat, r: Bytes)
    ensures p == 10 && r == Alphabet[10..13]
  {
    var attempt := OpenSeekable(Url, RangeServer(Alphabet), true);
    var stream := attempt.value;
    var moved := stream.Seek(5, START, false);
    assert stream.reader.currentPos == 5;
    moved := stream.Seek(10, START, true);
    p := moved.value;
    ghost var s := stream.reader.State();
    r := stream.reader.Read(3);
    ReadPositive(s, 3);
  }

  /**
   * `read(-1)` returns only what the chunk iterator has not pulled yet: after
   * `read(2)` has buffered the whole single-chunk body "abcdef", it returns
   * nothing, and the next read still returns the buffered "cdef".
   */
  method RawReadSkipsBuffer() returns (r1: Bytes, r2: Bytes, r3: Bytes)
    ensures r1 == Alphabet[..2] && r2 == [] && r3 == Alphabet[2..6]
  {
    var content := Alphabet[..6];
    var server := RangeServer(content);
    var reader := new BufferedInputBase(server, Response(true, server.Headers(), [content]));
    ghost var s := reader.State();
    r1 := reader.Read(2);
    ReadPositive(s, 2);
    r2 := reader.Read(-1);
    s := reader.State();
    r3 := reader.Read(4);
    ReadPositive(s, 4);
  }

  /**
   * On any server that advertises ranges, a seek followed by a read of `size`
   * bytes returns the resource's bytes at the sought position.
   */
  method SeekThenRead(server: Server, offset: int, size: int) returns (r: Result<Bytes, SeekError>)
    requires AdvertisesSeeking(server.Headers()) && size > 0
    ensures var target := Clamp(offset, 0, |server.content|);
      r == Success(server.content[target..][..Min(size, |server.content| - target)])
  {
    var attempt := OpenSeekable(Url, server, true);
    var stream := attempt.value;
    var moved := stream.Seek(offset, START, true);
    ghost var s := stream.reader.State();
    var data := stream.reader.Read(size);
    ReadPositive(s, size);
    return Success(data);
  }
}
