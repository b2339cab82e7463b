# smart_open HTTP readers in Dafny

This project models the streamed HTTP readers of smart_open
(`smart_open/http.py`) and their helpers (`smart_open/util.py`), and proves
what they promise.

- `BufferedInputBase` reads one response body through a byte buffer. It fills
  the buffer from the response's chunk iterator and hands out the bytes in
  order.
- `SeekableBufferedInputBase` first checks the response headers to decide
  whether the stream can seek. The stream can seek when it has a
  `Content-Length` and `Accept-Ranges: bytes`. `seek` clamps the target into
  `[0, content_length]` and, when the position changes, sends a new request
  with a `range: bytes=<pos>-` header.
- `_clamp` and `_range_string` come from `util.py`. The byte-range
  specifier is checked against a parser for it (section 2.1 of RFC 7233), so
  the formatter is proved by a round trip.

The modules are:

- `Wrappers`: `Option` and `Result`.
- `Util`: the whence constants, `Clamp`, the `%d` numerals, `RangeString`,
  and the specifier parser `ParseRangeSpec` with its round-trip lemmas.
- `Http`:
  - The network model: `Server`, `Get`, and `ServedBody`, which honours an
    open-ended range.
  - The header probe.
  - `read` as a function of the stream state (`StreamState`, `Fill`,
    `ReadStep`) and the lemmas about it.
  - The two reader classes. Their methods are proved against `ReadStep`
    and `SeekTarget`.
- `Scenarios`: client runs on concrete resources, and one general run
  (`SeekThenRead`) that holds for every server that advertises ranges.

The central invariant is `BufferedInputBase.InOrder`. It says that the bytes
returned since the last (re)open, followed by the bytes still available
(the buffer, then the chunks not yet pulled), are exactly the resource from
the offset of that (re)open.

Every `read` keeps this invariant except one kind. `read(size)` with a
negative size returns `response.raw.read()`, which is only the body the
iterator has not pulled yet, and it leaves `_read_buffer` as it was.
After a positive read has buffered bytes, a negative read therefore skips
them, and the next positive read returns them later.

This behaviour is modelled as written:

- `ReadStep` and `RawReadLeavesBuffer` state it.
- The `InOrder` clause of `Read` needs a non-negative size or an empty buffer.
- `Scenarios.RawReadSkipsBuffer` shows it on a concrete body.

## Model

| member | source | states |
|---|---|---|
| Util.Clamp | smart_open/util.py:10-11 | the result lies in `[minval, maxval]` when that range is non-empty; a value inside is kept; one below gives `minval`; one above gives `maxval`; an empty range gives `minval` |
| Util.ClampIdempotent | smart_open/util.py:10-11 | clamping an already clamped value changes nothing |
| Util.NatToDecimal | smart_open/util.py:19 | `%d` of a non-negative number is a canonical numeral (digits only, no leading zero), and it starts with '0' exactly for 0 |
| Util.IntToDecimal | smart_open/util.py:19-20 | `%d` of an integer starts with '-' exactly for negative numbers, ends with a digit, and is canonical for non-negative numbers |
| Util.DecimalRoundTrip | smart_open/util.py:19 | reading back the numeral of `n` gives `n` |
| Util.CanonicalDecimal | smart_open/util.py:19 | every canonical numeral is the one `%d` writes for its value |
| Util.RangeString | smart_open/util.py:14-20 | `_range_string` starts with `bytes=` and ends with '-' exactly when `stop` is None |
| Util.ParseRangeSpec | smart_open/util.py:14-20 | a specifier that parses starts with `bytes=` and has non-negative positions |
| Util.RangeStringRoundTrip | smart_open/util.py:14-20 | for non-negative `start` and `stop`, parsing `_range_string(start, stop)` gives back `(start, stop)` |
| Http.Get | smart_open/http.py:50 | the response has the given status and the server's headers, and its chunks concatenate to the body the server sends for the request's headers |
| Http.PartialRequestHeaders | smart_open/http.py:237-242 | the headers are `Accept-Encoding: identity`, plus `range: bytes=<start_pos>-` when a start position is given; that value equals `_range_string(start_pos)` |
| Http.PartialRequestServesSuffix | smart_open/http.py:237-246 | a partial request from `pos` is answered with the resource from `pos` on; without a position, with all of it |
| Http.Lower | smart_open/http.py:177 | lower-casing keeps the length |
| Http.LowerLetters | smart_open/http.py:177 | each upper-case ASCII letter becomes its lower-case letter, and every other character is kept |
| Http.AdvertisesSeeking | smart_open/http.py:172-178 | a stream can seek exactly when Content-Length is present and not negative and Accept-Ranges is present and lower-cases to `bytes` |
| Http.Fill | smart_open/http.py:107-116 | the buffer loop keeps the bytes in order (new buffer plus chunks left = old buffer plus old chunks), and it stops short of `size` only when the chunks have run out |
| Http.FillTakesPrefix | smart_open/http.py:107-116 | the loop takes the chunks in order: the new buffer is the old buffer plus the first `Pulled` chunks, and the chunks left are exactly the ones after them, so the iterator only moves forward |
| Http.FillPullsFewest | smart_open/http.py:107-116 | the loop pulls no chunk it does not need: every chunk it pulled was pulled while the buffer held fewer than `size` bytes |
| Http.ReadStep | smart_open/http.py:91-124 | a read advances the position by exactly the number of bytes it returns, returns at most `size` bytes for a non-negative size, and keeps or lacks a response as before |
| Http.ReadNothing | smart_open/http.py:95-99 | with no response, or for size 0, a read returns nothing and changes nothing |
| Http.RawReadLeavesBuffer | smart_open/http.py:100-101 | a negative size returns the chunks not yet pulled and leaves the buffer and the iterator as they were |
| Http.ReadPositive | smart_open/http.py:103-124 | a positive read returns the first `min(size, available)` available bytes and leaves the rest available in order; a short read leaves nothing; the iterator is open afterwards and only the response body changes |
| Http.ReadSplitsAvailable | smart_open/http.py:91-124 | unless a negative size skips a non-empty buffer, what a read returns followed by what is left is what was available |
| Http.ReadConservesLength | smart_open/http.py:91-124 | every read, negative sizes included, removes from what is available exactly as many bytes as it returns |
| Http.ReadKeepsInvariant | smart_open/http.py:91-124 | a read keeps the buffer empty while no iterator exists, keeps the response status, keeps the count of returned plus available bytes, and, apart from the negative-size case, keeps the stream in order |
| Http.ConsecutiveReads | smart_open/http.py:107-124 | two positive reads of `a` and then `b` bytes together return the first `min(a + b, available)` bytes |
| Http.SeekTarget | smart_open/http.py:204-211 | the new position lies in `[0, content_length]`; an in-range offset from the start, the current position or the end is kept; anything before the start gives 0 and anything past the end gives `content_length` |
| Http.BufferedInputBase.constructor | smart_open/http.py:50-60 | a fresh stream has the response, an empty buffer, no iterator and position 0, and is in order |
| Http.BufferedInputBase.FillBuffer | smart_open/http.py:107-116 | the loop leaves the buffer and the remaining chunks as `Fill` computes them, and it reports exhaustion exactly when the buffer holds fewer than `size` bytes |
| Http.BufferedInputBase.Read | smart_open/http.py:91-124 | the bytes returned and the new state are those of `ReadStep`; the returned bytes are appended to those delivered; the stream stays in order unless a negative size skipped buffered bytes |
| Http.BufferedInputBase.ReadRaw | smart_open/http.py:100-101 | the negative-size branch returns and changes what `ReadStep` says |
| Http.BufferedInputBase.ReadBuffered | smart_open/http.py:103-124 | the positive-size branch returns and changes what `ReadStep` says |
| Http.BufferedInputBase.Read1 | smart_open/http.py:126-128 | `read1` behaves exactly as `read` |
| Http.BufferedInputBase.ReadInto | smart_open/http.py:130-137 | the front of `b` receives what `read(len(b))` returns and the count is its length; the rest of `b` is untouched; the stream stays in order |
| Http.BufferedInputBase.Close | smart_open/http.py:72-75 | only the response is dropped; reads afterwards return nothing (`ReadNothing`) |
| Http.BufferedInputBase.Seekable | smart_open/http.py:81-82 | the forward-only reader never seeks |
| Http.BufferedInputBase.Rewind | smart_open/http.py:213-216 | a move sets the position first and drops the buffer and the iterator |
| Http.BufferedInputBase.Reopen | smart_open/http.py:217-221 | the answer to the partial request becomes the response when it succeeded, and there is no response otherwise; the stream is in order from the new position |
| Http.OpenBufferedInput | smart_open/http.py:50-53 | opening succeeds exactly when the status is a success; the stream then offers the whole resource from position 0 |
| Http.SeekableBufferedInputBase.constructor | smart_open/http.py:164-183 | the probe sets `_seekable` exactly as `AdvertisesSeeking` says; the stream records the Content-Length (or -1) and the request log starts with the first request it was opened with, which has no range and whose answer is the whole resource |
| Http.SeekableBufferedInputBase.Seekable | smart_open/http.py:230-231 | a seekable stream's `content_length` is the true length of the resource |
| Http.SeekableBufferedInputBase.Tell | smart_open/http.py:227-228 | the position, which never lies past the end of the resource |
| Http.SeekableBufferedInputBase.PartialRequest | smart_open/http.py:237-246 | one request is sent, with the range headers, and it is answered with the resource from the start position on |
| Http.SeekableBufferedInputBase.Seek | smart_open/http.py:190-225 | an unknown whence fails first, then a stream that cannot seek; otherwise the result is `SeekTarget`. A failure or a target equal to the current position changes nothing. A move sends one partial request from the target, drops the buffer and the iterator, and leaves the stream in order from the target, with a response exactly when the request succeeded |
| Http.SeekableBufferedInputBase.MoveTo | smart_open/http.py:213-221 | the position is moved to the target and one partial request is sent; the stream then offers the resource from the target when the request succeeded, and has no response otherwise |
| Http.OpenSeekable | smart_open/http.py:164-178 | opening succeeds exactly when the status is a success; seekability is `AdvertisesSeeking` of the server's headers |
| Scenarios.ChunkedReads | smart_open/http.py:103-124 | on the alphabet, reads of 10, 10, 100 and 1 bytes return a-j, k-t, the last six letters, then nothing, for any chunking |
| Scenarios.ReadIntoArrays | smart_open/http.py:130-137 | `readinto` of a 4-byte array gives 4 and "abcd"; a 30-byte array then receives the remaining 22 letters |
| Scenarios.SeekAndRead | smart_open/http.py:190-225 | seek(20) gives 20 and a read of 6 returns "uvwxyz"; seek(-5, END) gives 21 and a read of 5 returns "vwxyz" |
| Scenarios.SeekRequests | smart_open/http.py:213-217 | opening, seek(20) and seek(-5, END) send three requests: one without a range, one from 20, one from 21 |
| Scenarios.SeekWithoutLength | smart_open/http.py:198-202 | without Content-Length the stream is not seekable; seek with whence 3 fails with the whence error before the not-seekable error |
| Scenarios.ProbeAcceptRanges | smart_open/http.py:177-178 | `Accept-Ranges: Bytes` allows seeking; `none` or no header does not |
| Scenarios.SeekPastEnd | smart_open/http.py:204-213 | seek(100) on 26 bytes gives 26 and the next read returns nothing |
| Scenarios.SeekByZeroAtEnd | smart_open/http.py:211-213 | after seek(100) on 26 bytes, seek(0, CURRENT) stays at 26 and sends no request: two requests in all |
| Scenarios.FailedSeek | smart_open/http.py:213-221 | a seek whose request fails still moves to 5, and reads then return nothing |
| Scenarios.RecoverAfterFailedSeek | smart_open/http.py:213-221 | a later seek to 10 that succeeds makes a read of 3 return "klm" |
| Scenarios.RawReadSkipsBuffer | smart_open/http.py:100-101 | on the single-chunk body "abcdef", read(2) gives "ab", read(-1) then gives nothing, and read(4) gives "cdef" |
| Scenarios.SeekThenRead | smart_open/http.py:190-225 | on any server that advertises ranges, seek(offset) followed by read(size) returns the resource's bytes from the clamped offset |

## Left out

- Authentication (smart_open/http.py:42-48, 156-162): Kerberos and basic credentials are only passed to the transport. The model's transport does not check them.
- Logging: no behaviour depends on it.
- `io.BufferedIOBase` plumbing (`detach`, `readable`, `truncate`, `raw`, `mode`): it either raises `UnsupportedOperation` or is constant.
- `buffer_size`: it is only the chunk size handed to `iter_content`. The model lets the transport cut the body into arbitrary chunks, so every property holds for any chunk size. `DEFAULT_BUFFER_SIZE` is kept as a constant.
- The `requests` library: a model `Server` replaces the network, and `Get` answers with an arbitrary chunking. The response status is a parameter, and `raise_for_status` becomes the `HttpStatusError` result. Connection errors and timeouts are not modelled.
- The model server sends the true length in Content-Length and honours an open-ended `range`. A server that lies about the length or ignores the range is not modelled.
- `int()` of the Content-Length header: the header is modelled as an already parsed integer. A header that is not a number, which raises `ValueError` in the source, is not modelled.
- Http.Lower: lower-cases ASCII letters only, not all of Unicode as `str.lower()` does.
- Default arguments: `read(size=-1)`, `read1(size=-1)` and `seek(whence=0)` (smart_open/http.py:91, 126, 190) become required parameters. Callers pass -1 or `START` for the default.
- Range past the end: the only request with a range past the end is the one `seek` sends (smart_open/http.py:216). The model server answers `range: bytes=<length>-` with an empty successful body. Section 4.4 of RFC 7233 has a server answer 416 there, which fails `response.ok`, so the source sets `response` to None (smart_open/http.py:217-220). After seeking to the end, the source has no response, while the model keeps a response with an empty body. Reads return empty bytes in both cases.
- Headers of a ranged answer: `Get` gives every response the server's headers, so the answer to a ranged request carries the full length in Content-Length, where a real server sends the length of the part it serves. No behaviour depends on it, because headers are read only when the stream is opened (smart_open/http.py:170-178).
- Inheritance: `SeekableBufferedInputBase` holds a `BufferedInputBase` (`reader`) instead of subclassing it. The inherited `read`, `read1`, `readinto` and `close` are reached through `reader`.
- `None` for `_read_buffer` after a seek is modelled as an empty buffer with no iterator. It has the same effect, because the next read creates the iterator and starts from an empty buffer.
- `''`, returned by `read` when there is no response or for size 0, is modelled as empty bytes.
- `_clamp` in smart_open/http.py:24-25 and the constants in smart_open/http.py:9-14 repeat those of smart_open/util.py. They are defined once, in `Util`.
- integration-tests/test_s3.py exercises the S3 backend, which is not part of this model.
