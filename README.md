# zniconv Reader — a Dafny model

Package zniconv wraps glibc iconv(3) in a pull-based `io.Reader`. A `Reader`
does four things:

- it reads bytes from an underlying `io.Reader` into a fixed buffer `buf`;
- it keeps the bytes the engine has not consumed yet as `left`, a window of
  that buffer;
- it converts them into the caller's slice one iconv call at a time;
- it latches the first fatal error for good.

This project models that Reader together with its helpers, `NewReader`,
`Reset`, `ReadAll` and `Convert`. Properties of the model are proved with
Dafny.

Files:

- `iconv.dfy` (modules `Bytes` and `Iconv`): the conversion engine.
  - `Call` is one iconv(3) call. Whatever the engine does, its result is
    clamped to the iconv contract: a prefix of the input is consumed, at
    most `room` bytes are produced, and success means all input was
    consumed.
  - `ResetState` is `iconv(cd, NULL, NULL, NULL, NULL)`.
  - An engine is either `Identity`, a concrete engine that copies its
    input, or a `Session`, whose answers come from an oracle indexed by
    the number of calls made.
- `ioreader.dfy` (module `IoReader`): the underlying reader. It is either a
  `bytes.Buffer` or an oracle-driven stream, and a read never delivers more
  bytes than the room offered.
- `zniconv.dfy` (module `Zniconv`) has three parts:
  - the `ErrCode`/`Err` taxonomy and the helpers `GetCode`, `GetBufSize`
    and `Capped`;
  - the Reader's behaviour as functions on an abstract `State`: `Refilled`,
    `Latch`, `Classify`, `Advance`, `ReadLoop` and `ReadAllLoop`;
  - the `Reader` class and `NewReader`/`Convert`.

  The class keeps the fields of the Go struct: `buf` is an `array?`, and
  `left` is the window `buf[lo..hi]`. Every method is proved against the
  function of its abstract state. The ghost field `taken` records every
  byte the underlying reader has delivered. The invariant `Inv` says that
  the pending bytes are exactly the delivered bytes from `goff` onward.
- `lemmas.dfy` (module `ZniconvLemmas`): what the functions guarantee.
  - Read only extends its output and the stream.
  - A latched error is final.
  - A call with a non-empty slice returns io.EOF only with nothing
    pending. A call with an empty slice does not enter the loop and
    returns whatever error the Reader holds, io.EOF included, even with
    bytes still pending.
  - With a copying engine, the output is exactly the consumed stretch of
    the stream, and `Convert` over a `bytes.Buffer` gives its contents
    back. Given a non-empty internal buffer and more loop passes than the
    input has bytes, it does finish.
  - The loop can stall, with a concrete input that shows it.

Termination: the Read loop of the source can run forever, and so can
ReadAll. `Read`, `ReadAll` and `Convert` therefore take a `fuel` bound on
the number of loop passes. Running out of fuel ends `Read` as the loop's
`break` would, and ends `ReadAll` with `OutOfFuel`.

`Read` can stall. When the pending bytes fill the whole buffer and the
engine keeps answering EINVAL without consuming anything, the refill
offers the source no room. A `bytes.Buffer` then answers 0 bytes and no
error, and the loop goes round again without progress. `FullBufferStalls`
and `StallExample` state this behaviour of the code. A buffer of one byte
and a two-byte UTF-8 sequence are enough to cause it. When the input is
truncated in the middle of its last sequence and that sequence fills the
buffer, the stall hides the truncation: the empty `bytes.Buffer` is offered
no room, so it answers 0 bytes and no error rather than io.EOF, and
Einval is never latched. `FullBufferStalls` covers this case too.

## Model

| member | source | states |
|---|---|---|
| Zniconv.GetCode | vendor/github.com/zncoder/zniconv/zniconv.go:60-65 | an empty charset name becomes "utf8", any other name is passed through unchanged; the result is never empty |
| Zniconv.GetBufSize | vendor/github.com/zncoder/zniconv/zniconv.go:52-72 | 0 selects the default of 16*1024, any other size is kept; a non-negative request gives a positive size |
| Zniconv.Capped | vendor/github.com/zncoder/zniconv/zniconv.go:170-175 | the result is the prefix of the input of length min(len, 10), and the input itself when it is shorter than 10 |
| Iconv.Call | vendor/github.com/zncoder/zniconv/zniconv.go:177-186 | one conversion call on non-empty windows consumes at most the input, produces at most the room, reports success only after consuming all input; the copying engine consumes as much as fits, outputs exactly what it consumes, and reports E2BIG exactly when input is left over |
| Iconv.ResetState | vendor/github.com/zncoder/zniconv/zniconv.go:148 | resetting the session keeps its conversion behaviour and counts one call; the copying engine, which has no shift state, always resets successfully |
| IoReader.Read | vendor/github.com/zncoder/zniconv/zniconv.go:193 | a read delivers at most the room offered; a bytes.Buffer hands out as many of its bytes as fit, in order, never fails, reports io.EOF exactly when it is empty and the room is not, and gives 0 bytes and no error for an empty destination |
| Zniconv.Fresh | vendor/github.com/zncoder/zniconv/zniconv.go:98-103 | the state of a new Reader, and of one after a successful Reset (153-159): buffer of the given size allocated, nothing pending, no error, offset 0; it satisfies the invariant |
| Zniconv.Latch | vendor/github.com/zncoder/zniconv/zniconv.go:204-214 | fail leaves an already latched fatal error untouched; otherwise it latches the new error and drops the buffer; offset, stream, source and engine are kept |
| Zniconv.Reader.Fail | vendor/github.com/zncoder/zniconv/zniconv.go:204-214 | the object's new state is Latch of the old one; the precondition excludes a nil or io.EOF error and asks that the error be well formed (code matching reason, offset within the stream), which every call in Read and Reset meets |
| Zniconv.Record | vendor/github.com/zncoder/zniconv/zniconv.go:195-201 | a nil read error records nothing, io.EOF records io.EOF, any other error records Eio, in both directions |
| Zniconv.Refilled | vendor/github.com/zncoder/zniconv/zniconv.go:188-202 | refill is a no-op once an error is recorded; otherwise the new pending bytes are the old ones followed by exactly the bytes this read of the source delivered, even when they come with io.EOF or an error, the source is advanced past them, they still fit the buffer, and the read error is recorded; the invariant is kept |
| ZniconvLemmas.RefilledKeepsLastBytes | vendor/github.com/zncoder/zniconv/zniconv.go:193-198 | whatever bytes arrive together with io.EOF stay pending behind the old ones and io.EOF is recorded |
| Zniconv.Shift | vendor/github.com/zncoder/zniconv/zniconv.go:192-194 | after the copy and the read, the front of the buffer holds the old window followed by the delivered bytes |
| Zniconv.Reader.Refill | vendor/github.com/zncoder/zniconv/zniconv.go:188-202 | the object's new state is Refilled of the old one, on the same buffer |
| Zniconv.Classify | vendor/github.com/zncoder/zniconv/zniconv.go:122-142 | success and E2BIG change nothing; EILSEQ latches Eilseq; EINVAL latches Einval if and only if the reader is at io.EOF; any other errno latches Eunknown; an invalid or incomplete sequence is reported with the first ten pending bytes and the stream offset after the consumed prefix, any other errno with that offset; the invariant is kept |
| Zniconv.Reader.ClassifyErrno | vendor/github.com/zncoder/zniconv/zniconv.go:122-142 | the object's new state is Classify of the old one |
| Zniconv.Advance | vendor/github.com/zncoder/zniconv/zniconv.go:117-142 | one iconv call on the pending bytes and the free part of the slice, then the classification of its errno; the invariant is kept and the output never exceeds the slice |
| ZniconvLemmas.AdvanceStep | vendor/github.com/zncoder/zniconv/zniconv.go:117-142 | one conversion appends what the engine produced to the output, advances goff by exactly the bytes consumed and drops exactly that prefix from the pending bytes, and returns to the caller exactly on E2BIG |
| Zniconv.Reader.Consume | vendor/github.com/zncoder/zniconv/zniconv.go:117-120 | the conversion call writes what the engine produced after the filled part of the slice and advances the offset and the window by what it consumed |
| Zniconv.Reader.ConvertOnce | vendor/github.com/zncoder/zniconv/zniconv.go:117-142 | one conversion and its classification, as Advance states it, with the offset within the slice |
| ZniconvLemmas.ContinueDrained | vendor/github.com/zncoder/zniconv/zniconv.go:133-138 | a conversion that does not return to the caller leaves nothing pending once the reader is at io.EOF |
| Zniconv.Reader.Pass | vendor/github.com/zncoder/zniconv/zniconv.go:111-142 | one pass of the Read loop is one unfolding of ReadLoop |
| Zniconv.ReadLoop | vendor/github.com/zncoder/zniconv/zniconv.go:109-145 | the Read loop: while the slice has room, refill, stop when nothing is pending or a fatal error is held, convert; the invariant is kept and the output never exceeds the slice |
| Zniconv.Resume | vendor/github.com/zncoder/zniconv/zniconv.go:113-143 | the rest of one pass after the refill: the stop test, the conversion, E2BIG returning nil at once; the invariant is kept and the output never exceeds the slice |
| Zniconv.Reader.Read | vendor/github.com/zncoder/zniconv/zniconv.go:109-145 | the bytes put in the slice, their count, the error returned and the new state are those of ReadLoop |
| ZniconvLemmas.ReadLoopMonotone | vendor/github.com/zncoder/zniconv/zniconv.go:109-145 | Read only appends to its output and to the delivered stream, never moves goff back, keeps the buffer size, and returns nil or the error the Reader now holds |
| ZniconvLemmas.ResumeMonotone | vendor/github.com/zncoder/zniconv/zniconv.go:113-143 | the same, for the rest of a pass after the refill |
| ZniconvLemmas.ReadLoopFatalFinal | vendor/github.com/zncoder/zniconv/zniconv.go:113-115 | once a fatal error is latched, Read returns no bytes and that error, and touches neither the state, the source nor the engine |
| ZniconvLemmas.LatchFirstWins | vendor/github.com/zncoder/zniconv/zniconv.go:208-211 | a second fail never overwrites the first latched error |
| ZniconvLemmas.ReadLoopEof | vendor/github.com/zncoder/zniconv/zniconv.go:109-145 | a Read with a non-empty slice returns io.EOF only when every pending byte has been converted |
| ZniconvLemmas.ReadLoopEmptySlice | vendor/github.com/zncoder/zniconv/zniconv.go:110-144 | a Read with an empty slice changes nothing and returns the error the Reader holds, so it can return io.EOF with bytes still pending |
| ZniconvLemmas.ResumeEof | vendor/github.com/zncoder/zniconv/zniconv.go:113-143 | the same, for the rest of a pass after the refill |
| ZniconvLemmas.IdentityAdvance | vendor/github.com/zncoder/zniconv/zniconv.go:117-120 | with a copying engine, one conversion outputs exactly the stretch of the stream it consumed |
| ZniconvLemmas.ReadLoopIdentity | vendor/github.com/zncoder/zniconv/zniconv.go:109-145 | with a copying engine, what Read puts in the slice is exactly the stretch of the stream consumed during the call |
| ZniconvLemmas.ResumeIdentity | vendor/github.com/zncoder/zniconv/zniconv.go:113-143 | the same, for the rest of a pass after the refill |
| Zniconv.Reader.Reset | vendor/github.com/zncoder/zniconv/zniconv.go:147-160 | if the engine reset fails, Eunknown is latched and nothing else changes; otherwise the Reader is in the state of a new one over the new source, on its old buffer or on a fresh one of bufSize when it had none |
| Zniconv.ReadAllLoop | vendor/github.com/zncoder/zniconv/zniconv.go:162-168 | ReadAll as bytes.Buffer.ReadFrom drives it: Read into the free space, keep what arrived, stop at the first non-nil error, io.EOF meaning success; the invariant is kept |
| Zniconv.Collect | vendor/github.com/zncoder/zniconv/zniconv.go:164-167 | what ReadAll does with the outcome of one Read: nil goes on with the bytes kept, io.EOF succeeds with them, any other error fails; the invariant is kept |
| Zniconv.Reader.Gather | vendor/github.com/zncoder/zniconv/zniconv.go:162-168 | one Read of the ReadAll loop is one unfolding of ReadAllLoop |
| Zniconv.Reader.ReadAll | vendor/github.com/zncoder/zniconv/zniconv.go:162-168 | the verdict and the new state are those of ReadAllLoop |
| ZniconvLemmas.ReadAllOutcome | vendor/github.com/zncoder/zniconv/zniconv.go:162-168 | ReadAll succeeds only at io.EOF with every delivered byte converted and nothing pending; a failure is the error the Reader latched, and that error is well formed |
| ZniconvLemmas.CollectOutcome | vendor/github.com/zncoder/zniconv/zniconv.go:164-167 | the same, from the outcome of one Read |
| ZniconvLemmas.ReadAllIdentity | vendor/github.com/zncoder/zniconv/zniconv.go:162-168 | with a copying engine, ReadAll's data is the whole stream from the offset it started at |
| ZniconvLemmas.CollectIdentity | vendor/github.com/zncoder/zniconv/zniconv.go:164-167 | the same, from the outcome of one Read |
| ZniconvLemmas.RefilledTracksBuffer | vendor/github.com/zncoder/zniconv/zniconv.go:188-202 | refilling from a bytes.Buffer loses no byte and adds none: delivered bytes followed by the buffer's rest stay the original contents |
| ZniconvLemmas.ReadLoopTracksBuffer | vendor/github.com/zncoder/zniconv/zniconv.go:109-145 | Read over a bytes.Buffer with a copying engine keeps that property and never fails |
| ZniconvLemmas.ResumeTracksBuffer | vendor/github.com/zncoder/zniconv/zniconv.go:113-143 | the same, for the rest of a pass after the refill |
| ZniconvLemmas.ReadAllTracksBuffer | vendor/github.com/zncoder/zniconv/zniconv.go:162-168 | ReadAll over a bytes.Buffer with a copying engine keeps that property and never reports an error |
| ZniconvLemmas.RefilledNotIdle | vendor/github.com/zncoder/zniconv/zniconv.go:188-202 | over a bytes.Buffer with a non-empty internal buffer, a refill that finds nothing pending brings bytes or records io.EOF |
| ZniconvLemmas.IdentityAdvanceFinish | vendor/github.com/zncoder/zniconv/zniconv.go:117-128 | with a copying engine, a conversion either fills the slice and returns, or consumes every pending byte |
| ZniconvLemmas.ReadLoopFinishes | vendor/github.com/zncoder/zniconv/zniconv.go:109-145 | over a bytes.Buffer with a copying engine and more passes than bytes remain, Read returns io.EOF or a full slice |
| ZniconvLemmas.ResumeFinishes | vendor/github.com/zncoder/zniconv/zniconv.go:113-143 | the same, for the rest of a pass after the refill |
| ZniconvLemmas.ReadAllFinishes | vendor/github.com/zncoder/zniconv/zniconv.go:162-168 | over a bytes.Buffer with a copying engine and more passes than bytes remain, ReadAll succeeds |
| ZniconvLemmas.BufferRoundTrip | vendor/github.com/zncoder/zniconv/zniconv.go:221-227 | Convert with a copying engine never fails and, when it finishes, gives back exactly the bytes it was given; with a non-empty buffer and more passes than the input has bytes it does finish |
| ZniconvLemmas.FullBufferStalls | vendor/github.com/zncoder/zniconv/zniconv.go:111-139 | when the pending bytes fill the buffer and the engine keeps answering EINVAL, Read makes no progress and returns no error, whatever the number of passes |
| ZniconvLemmas.StallRefill | vendor/github.com/zncoder/zniconv/zniconv.go:192-194 | when the pending bytes fill the buffer, a bytes.Buffer is offered no room and the refill leaves the state as it was |
| ZniconvLemmas.StallAdvance | vendor/github.com/zncoder/zniconv/zniconv.go:117-138 | an engine call that consumes nothing and answers EINVAL before io.EOF produces nothing and only counts as a call |
| ZniconvLemmas.StallPass | vendor/github.com/zncoder/zniconv/zniconv.go:111-139 | in that situation one pass of the Read loop changes nothing but the engine's call count |
| ZniconvLemmas.StallExample | vendor/github.com/zncoder/zniconv/zniconv.go:111-139 | a one-byte buffer holding the first byte of a two-byte UTF-8 sequence stalls Read |
| Zniconv.Reader.constructor | vendor/github.com/zncoder/zniconv/zniconv.go:97-103 | the new Reader has a fresh buffer of exactly GetBufSize bytes, nothing pending, no error and offset 0 |
| Zniconv.NewReader | vendor/github.com/zncoder/zniconv/zniconv.go:87-104 | the session is opened from GetCode(From) to GetCode(To); a failed open gives no Reader and its errno, otherwise a fresh Reader in the initial state and no error |
| Zniconv.Convert | vendor/github.com/zncoder/zniconv/zniconv.go:221-227 | a failed open gives its errno; otherwise the result is ReadAll's verdict on a default-size Reader over a bytes.Buffer holding the input |

## Left out

- The cgo layer is not modelled: `iconv_open`, `iconv_close`, `Close`, and the `unsafe` pointer handling in `iconv`. `iconv_open` is the `open` parameter of `NewReader` and `Convert`.
- The real charset tables are not modelled. A `Session` engine answers from an oracle within the iconv(3) contract, so nothing is proved about specific encodings.
- Reason strings are not modelled. The `fmt.Sprintf` texts and `Err.Error` are replaced by the data behind them in `Reason`: the `capped` window, the offset, the errno and the cause.
- The `log.Panicf` in `fail` becomes a precondition of `Reader.Fail`.
- Zniconv.NewReader: the source is always a real reader. The unzip driver passes a nil reader and calls `Reset` before every read; a nil reader would panic in `refill` and is never read before `Reset`, so it is not modelled.
- Zniconv.NewReader: a negative `BufSize` passes through `getBufSize` unchanged and makes `make([]byte, sz)` panic. The model excludes it with the precondition `opts.bufSize >= 0`, as does `Zniconv.Reader.constructor`.
- `goff` is an unbounded `nat`. The `int64` overflow of the source is not modelled, because it would need 2^63 bytes of input.
- Zniconv.Reader.ReadAll: `bytes.Buffer.ReadFrom` grows its buffer, so the free space it offers each `Read` varies. The model offers a fixed `chunk` of at least `bytes.MinRead` (512) bytes on every call. Proved facts hold for any such chunk size.
- Zniconv.Reader.Read: the ensures says nothing about the bytes of `b` past the returned count. The engine writes only within the slice, but the model does not promise that the rest is unchanged.
- Zniconv.Reader.Read, Zniconv.Reader.ReadAll, Zniconv.Convert: a `fuel` bound replaces unbounded looping. A run that loops forever in the source is a run that runs out of fuel here.
- The underlying reader and the engine are values held by the Reader. Aliasing between them and other objects is not modelled: in Go, other code sharing that object could change it between calls.
- After `fail`, Go keeps a stale `left` slice into the dropped buffer. Read's stop test still evaluates its length, but the error test beside it decides the outcome, so no outcome depends on it. The model treats the pending bytes as empty once the buffer is gone.
- `znunzip.go`, the unzip driver, is not part of this model: it is filesystem glue around `archive/zip`.
