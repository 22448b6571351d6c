/**
 * Bytes and the conversion engine that the streaming reader drives.
 *
 * The engine stands for a glibc iconv(3) session opened by iconv_open.  Its
 * conversion tables are not part of this model: a `Session` engine answers
 * each call from an oracle indexed by the number of calls made so far, so
 * every run of a real session is the run of some `Session` value.  Whatever
 * the oracle says is clamped to what iconv(3) promises, so the reader's
 * proofs rely on that contract and on nothing else.  `Identity` is a
 * byte-for-byte copying engine, such as a single-byte charset converted to
 * itself, for end-to-end lemmas.
 */
module Bytes {
  newtype byte = b: int | 0 <= b < 0x100

  /** copy(b[off:], data): the bytes of `data` land at `off`; the rest of `b` is untouched. */
  method CopyInto(b: array<byte>, off: nat, data: seq<byte>)
    requires off + |data| <= b.Length
    modifies b
    ensures b[..off] == old(b[..off])
    ensures b[off..off + |data|] == data
    ensures b[off + |data|..] == old(b[off + |data|..])
  {
    forall k | 0 <= k < |data| {
      b[off + k] := data[k];
    }
  }
}

module Iconv {
  import opened Bytes

  /** The errno an iconv(3) call leaves behind; `Ok` is a call that set none. */
  datatype Errno = Ok | E2big | Eilseq | Einval | Other(code: int)

  /** What one call reports: input bytes consumed, output bytes produced, errno. */
  datatype Conversion = Conversion(consumed: nat, produced: seq<byte>, errno: Errno)

  datatype Engine =
    | Identity
    | Session(step: nat -> Conversion, resetErrno: nat -> int, calls: nat)

  /** What iconv_open gives: a session, or the errno of a failed open. */
  datatype Opened = Opened(cd: Engine) | OpenFailed(errno: int)

  function Min(a: nat, b: nat): nat { if a < b then a else b }

  /**
   * One call of iconv(3) on a non-empty input window and a non-empty output
   * window of `room` bytes (the Go helper takes &in[0] and &out[0], so both
   * windows must be non-empty).  The result obeys the iconv(3) contract:
   * it consumes a prefix of the input, produces at most `room` bytes, and
   * reports success only after converting the whole input.
   */
  function Call(cd: Engine, input: seq<byte>, room: nat): (r: (Conversion, Engine))
    requires |input| > 0 && room > 0
    ensures r.0.consumed <= |input| && |r.0.produced| <= room
    ensures r.0.errno == Ok ==> r.0.consumed == |input|
    ensures cd.Identity? ==> r.1.Identity?
    ensures cd.Identity? ==> r.0.produced == input[..r.0.consumed]
    ensures cd.Identity? ==> (r.0.errno == Ok || r.0.errno == E2big)
    ensures cd.Identity? ==> r.0.consumed == Min(|input|, room)
    ensures cd.Identity? ==> (r.0.errno == Ok <==> r.0.consumed == |input|)
  {
    match cd
    case Identity =>
      var k := Min(|input|, room);
      (Conversion(k, input[..k], if k == |input| then Ok else E2big), Identity)
    case Session(step, resetErrno, calls) =>
      var raw := step(calls);
      var consumed := if raw.errno == Ok then |input| else Min(raw.consumed, |input|);
      var produced := raw.produced[..Min(|raw.produced|, room)];
      (Conversion(consumed, produced, raw.errno), cd.(calls := calls + 1))
  }

  /**
   * iconv(cd, NULL, NULL, NULL, NULL): returns the session to its initial
   * shift state; the result is the errno of the call, 0 when it succeeded.
   */
  function ResetState(cd: Engine): (r: (int, Engine))
    ensures cd.Identity? ==> r == (0, Identity)
    ensures cd.Session? ==> r.1.Session? && r.1.step == cd.step && r.1.resetErrno == cd.resetErrno
    ensures cd.Session? ==> r.1.calls == cd.calls + 1
  {
    match cd
    case Identity => (0, Identity)
    case Session(step, resetErrno, calls) => (resetErrno(calls), cd.(calls := calls + 1))
  }
}
