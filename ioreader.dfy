/**
 * The io.Reader the streaming reader pulls from.
 *
 * `Buffer` behaves as Go's bytes.Buffer (what the package's Convert and
 * the unzip driver hand to the reader); `Stream` is any other reader,
 * answering each call from an oracle indexed by the number of calls made
 * so far, with the answer clamped to the room the caller offered.
 */
module IoReader {
  import opened Bytes

  /** The error a Read returns: nil, io.EOF, or some other error. */
  datatype ReadStatus = Fine | Eof | Failed(cause: int)

  datatype Chunk = Chunk(data: seq<byte>, status: ReadStatus)

  datatype Source =
    | Buffer(rest: seq<byte>)
    | Stream(next: nat -> Chunk, calls: nat)

  /**
   * Read into a destination of `room` bytes.  At most `room` bytes arrive.
   * A buffer hands out its bytes in order, never fails, and reports io.EOF
   * only once it is empty and the destination is not; an empty destination
   * gets 0 bytes and no error.
   */
  function Read(src: Source, room: nat): (r: (Chunk, Source))
    ensures |r.0.data| <= room
    ensures src.Buffer? ==> r.1.Buffer? && r.0.data + r.1.rest == src.rest
    ensures src.Buffer? ==> |r.0.data| == if room < |src.rest| then room else |src.rest|
    ensures src.Buffer? ==> !r.0.status.Failed?
    ensures src.Buffer? ==> (r.0.status == Eof <==> src.rest == [] && room > 0)
    ensures src.Buffer? && room == 0 ==> r.0 == Chunk([], Fine) && r.1 == src
  {
    match src
    case Buffer(rest) =>
      if rest == [] then
        (Chunk([], if room == 0 then Fine else Eof), src)
      else
        var k := if room < |rest| then room else |rest|;
        assert rest[..k] + rest[k..] == rest;
        (Chunk(rest[..k], Fine), Buffer(rest[k..]))
    case Stream(next, calls) =>
      var c := next(calls);
      var k := if room < |c.data| then room else |c.data|;
      (Chunk(c.data[..k], c.status), Stream(next, calls + 1))
  }
}
