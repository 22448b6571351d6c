/**
 * The streaming charset-conversion Reader of package zniconv.
 *
 * A Reader pulls bytes from an io.Reader into a fixed buffer, hands the
 * pending bytes (`left`, a window of that buffer) to an iconv session, and
 * copies what the session produces into the caller's slice.  This module
 * holds the package's types and helpers, the Reader's behaviour as
 * functions on an abstract `State`, the Reader object proved against those
 * functions, and NewReader and Convert; module ZniconvLemmas holds what the
 * functions guarantee.
 */
module Zniconv {
  import opened Bytes
  import Iconv
  import IoReader

  /** The codes of Err.  E2big exists but is a flow-control signal: it is never latched. */
  datatype ErrCode = E2big | Eilseq | Einval | Eio | Eunknown

  /** The data behind each Reason string of the source. */
  datatype Reason =
    | BadSequence(window: seq<byte>, offset: nat)      // invalid or incomplete sequence
    | EngineFault(errno: Iconv.Errno, offset: nat)     // unexpected errno from a conversion
    | ResetFault(code: int)                            // the session reset failed
    | ReadFault(cause: int)                            // the underlying reader failed

  datatype Err = Err(code: ErrCode, reason: Reason)

  /** The Go `error` the Reader holds and returns: nil, io.EOF or an Err. */
  datatype Status = Nil | Eof | Fatal(err: Err)

  datatype Options = Options(from: string, to: string, bufSize: int)

  const DEFAULT_BUF_SIZE: nat := 16 * 1024
  /** The length of the byte window an Err reports. */
  const WINDOW: nat := 10
  /** bytes.MinRead: the least free space bytes.Buffer.ReadFrom offers a Read. */
  const MIN_READ: nat := 512

  /** The charset name handed to iconv_open: an empty name means UTF-8. */
  function GetCode(s: string): (r: string)
    ensures r != ""
    ensures s == "" ==> r == "utf8"
    ensures s != "" ==> r == s
  {
    if s == "" then "utf8" else s
  }

  /** The buffer size: 0 selects the default, anything else is kept. */
  function GetBufSize(n: int): (r: int)
    ensures n == 0 ==> r == DEFAULT_BUF_SIZE
    ensures n != 0 ==> r == n
    ensures n >= 0 ==> r > 0
  {
    if n == 0 then DEFAULT_BUF_SIZE else n
  }

  /** The first WINDOW bytes of `b`, or all of `b` when it is shorter. */
  function Capped(b: seq<byte>): (r: seq<byte>)
    ensures |r| == if |b| < WINDOW then |b| else WINDOW
    ensures r == b[..|r|]
    ensures |b| < WINDOW ==> r == b
  {
    if |b| < WINDOW then b else b[..WINDOW]
  }

  /**
   * The Reader's state.  `hasBuf` is whether `buf` is allocated, `left` the
   * pending bytes, `src` and `cd` the reader and the iconv session it holds.
   * `taken` is bookkeeping only: every byte the reader delivered since the
   * Reader was created or last reset.
   */
  datatype State = State(
    hasBuf: bool, bufSize: nat, left: seq<byte>, err: Status, goff: nat,
    src: IoReader.Source, cd: Iconv.Engine, taken: seq<byte>)

  /**
   * What a latched error says is true: its code matches its reason, an
   * offset lies within the delivered stream, and the byte window of an
   * invalid or incomplete sequence is the stream's bytes from that offset.
   */
  predicate WellFormedErr(e: Err, taken: seq<byte>)
  {
    match e.reason
    case BadSequence(window, offset) =>
      (e.code == Eilseq || e.code == Einval) && offset <= |taken| && window == Capped(taken[offset..])
    case EngineFault(errno, offset) => e.code == Eunknown && errno.Other? && offset <= |taken|
    case ResetFault(_) => e.code == Eunknown
    case ReadFault(_) => e.code == Eio
  }

  /**
   * The invariant every Reader keeps.  While no fatal error is latched the
   * buffer exists, the pending bytes fit in it, and they are exactly the
   * delivered bytes the engine has not consumed yet: none dropped, none
   * repeated.
   */
  predicate Inv(s: State)
  {
    && s.goff <= |s.taken|
    && (s.hasBuf ==> |s.left| <= s.bufSize)
    && (!s.hasBuf ==> s.left == [])
    && (!s.err.Fatal? ==> s.hasBuf && s.taken[s.goff..] == s.left)
    && (s.err.Fatal? ==> WellFormedErr(s.err.err, s.taken))
  }

  /** The state of a new Reader, and of a Reader after a successful Reset. */
  function Fresh(src: IoReader.Source, cd: Iconv.Engine, bufSize: nat): (t: State)
    ensures Inv(t)
    ensures t.hasBuf && t.bufSize == bufSize && t.left == [] && t.err == Nil && t.goff == 0
  {
    State(true, bufSize, [], Nil, 0, src, cd, [])
  }

  /** fail: latch a fatal error and drop the buffer, unless one is latched already. */
  function Latch(s: State, e: Status): (t: State)
    requires e.Fatal?
    ensures s.err.Fatal? ==> t == s
    ensures !s.err.Fatal? ==> t.err == e && !t.hasBuf
    ensures t.goff == s.goff && t.taken == s.taken && t.src == s.src && t.cd == s.cd
    ensures t.bufSize == s.bufSize
  {
    if s.err.Fatal? then s else s.(err := e, hasBuf := false, left := [])
  }

  /** How refill records the error of the underlying Read. */
  function Record(st: IoReader.ReadStatus): (e: Status)
    ensures st.Fine? <==> e.Nil?
    ensures st.Eof? <==> e.Eof?
    ensures st.Failed? <==> e.Fatal?
    ensures e.Fatal? ==> e.err.code == Eio && e.err.reason == ReadFault(st.cause)
  {
    match st
    case Fine => Nil
    case Eof => Eof
    case Failed(cause) => Fatal(Err(Eio, ReadFault(cause)))
  }

  /**
   * refill: once any error is recorded, nothing happens.  Otherwise the
   * pending bytes move to the front of the buffer and the reader fills
   * the rest of it; the new pending bytes are the old ones followed by the
   * fresh ones, and still fit in the buffer.
   */
  function Refilled(s: State): (t: State)
    requires Inv(s)
    ensures Inv(t)
    ensures s.err != Nil ==> t == s
    ensures s.err == Nil ==> |t.left| <= t.bufSize
    ensures s.err == Nil ==> s.taken <= t.taken && t.left == s.left + t.taken[|s.taken|..]
    ensures s.err == Nil ==> var (c, src') := IoReader.Read(s.src, s.bufSize - |s.left|);
      && t.left == s.left + c.data && t.taken == s.taken + c.data && t.src == src'
      && t.err == Record(c.status)
    ensures t.goff == s.goff && t.cd == s.cd && t.bufSize == s.bufSize && t.hasBuf == s.hasBuf
  {
    if s.err != Nil then s
    else
      var (chunk, src') := IoReader.Read(s.src, s.bufSize - |s.left|);
      var t := s.(left := s.left + chunk.data, err := Record(chunk.status), src := src',
                  taken := s.taken + chunk.data);
      assert t.taken[|s.taken|..] == chunk.data;
      assert t.taken[t.goff..] == s.taken[s.goff..] + chunk.data;
      t
  }

  /** One pass of the Read loop after the refill: carry on, or return to the caller. */
  datatype Next = Continue(st: State, out: seq<byte>) | Return(st: State, out: seq<byte>)

  /**
   * The classification of the errno of one conversion, on the state after
   * it: EILSEQ latches Eilseq, EINVAL latches Einval only once the reader
   * hit EOF and otherwise keeps the tail pending, any errno other than
   * success and E2BIG latches Eunknown; the Err carries the first bytes
   * still pending and the stream offset.
   */
  function Classify(s: State, errno: Iconv.Errno): (t: State)
    requires Inv(s) && !s.err.Fatal?
    ensures Inv(t)
    ensures t.goff == s.goff && t.taken == s.taken && t.src == s.src && t.cd == s.cd
    ensures t.bufSize == s.bufSize
    ensures errno == Iconv.Ok || errno == Iconv.E2big ==> t == s
    ensures errno == Iconv.Eilseq ==> t.err.Fatal? && t.err.err.code == Eilseq
    ensures errno == Iconv.Einval ==> (t.err.Fatal? <==> s.err == Eof)
    ensures errno == Iconv.Einval && s.err == Eof ==> t.err.err.code == Einval
    ensures errno.Other? ==> t.err.Fatal? && t.err.err.code == Eunknown
    ensures errno == Iconv.Eilseq ==> t.err == Fatal(Err(Eilseq, BadSequence(Capped(s.left), s.goff)))
    ensures errno == Iconv.Einval && s.err == Eof ==>
      t.err == Fatal(Err(Einval, BadSequence(Capped(s.left), s.goff)))
    ensures errno.Other? ==> t.err == Fatal(Err(Eunknown, EngineFault(errno, s.goff)))
    ensures !t.err.Fatal? ==> t == s
  {
    var bad := Err(Eilseq, BadSequence(Capped(s.left), s.goff));
    match errno
    case Ok => s
    case E2big => s
    case Eilseq => Latch(s, Fatal(bad))
    case Einval => if s.err == Eof then Latch(s, Fatal(bad.(code := Einval))) else s
    case Other(_) => Latch(s, Fatal(Err(Eunknown, EngineFault(errno, s.goff))))
  }

  /**
   * One conversion: the engine gets the pending bytes and the free part of
   * the caller's slice; `goff` advances by the bytes consumed and exactly
   * that prefix leaves `left`; the produced bytes extend the output.  E2BIG
   * returns to the caller at once, with no error; every other errno is
   * classified and the loop goes on.
   */
  function Advance(s: State, out: seq<byte>, n: nat): (r: Next)
    requires Inv(s) && !s.err.Fatal? && s.left != [] && |out| < n
    ensures Inv(r.st) && |r.out| <= n
  {
    var (c, cd') := Iconv.Call(s.cd, s.left, n - |out|);
    var s2 := s.(cd := cd', goff := s.goff + c.consumed, left := s.left[c.consumed..]);
    assert s2.taken[s2.goff..] == s2.left by {
      assert s.taken[s.goff..][c.consumed..] == s.taken[s2.goff..];
    }
    var t := Classify(s2, c.errno);
    if c.errno == Iconv.E2big then Return(t, out + c.produced) else Continue(t, out + c.produced)
  }

  /** What Read leaves behind: the new state, the bytes in the caller's slice, the error returned. */
  datatype ReadOut = ReadOut(st: State, out: seq<byte>, err: Status)

  /**
   * The Read loop on a slice of `n` bytes of which `out` are filled, for at
   * most `fuel` more passes: refill, stop when nothing is pending or a
   * fatal error is latched, convert, and go on until the slice is full.
   * What it guarantees is proved in module ZniconvLemmas.
   */
  function ReadLoop(s: State, out: seq<byte>, n: nat, fuel: nat): (r: ReadOut)
    requires Inv(s) && |out| <= n
    ensures Inv(r.st) && |r.out| <= n
    decreases fuel, 1
  {
    if |out| == n || fuel == 0 then ReadOut(s, out, s.err)
    else Resume(Refilled(s), out, n, fuel)
  }

  /** The rest of one pass of the Read loop, after the refill. */
  function Resume(s: State, out: seq<byte>, n: nat, fuel: nat): (r: ReadOut)
    requires Inv(s) && |out| < n && fuel > 0
    ensures Inv(r.st) && |r.out| <= n
    decreases fuel, 0
  {
    if s.left == [] || s.err.Fatal? then ReadOut(s, out, s.err)
    else
      match Advance(s, out, n)
      case Return(s2, out2) => ReadOut(s2, out2, Nil)
      case Continue(s2, out2) => ReadLoop(s2, out2, n, fuel - 1)
  }

  /** What ReadAll returns: the whole output, the first latched error, or no verdict within the fuel. */
  datatype ReadAllResult = Done(data: seq<byte>) | Error(err: Err) | OutOfFuel

  datatype ReadAllOut = ReadAllOut(st: State, res: ReadAllResult)

  /**
   * ReadAll as bytes.Buffer.ReadFrom drives it: Read into `chunk` bytes of
   * free space, keep what arrived, and stop at the first non-nil error;
   * io.EOF is success, anything else failure.
   */
  function ReadAllLoop(s: State, acc: seq<byte>, chunk: nat, fuel: nat): (r: ReadAllOut)
    requires Inv(s) && chunk > 0
    ensures Inv(r.st)
    decreases fuel, 1
  {
    if fuel == 0 then ReadAllOut(s, OutOfFuel)
    else Collect(ReadLoop(s, [], chunk, fuel), acc, chunk, fuel)
  }

  /** What ReadAll does with the outcome of one Read: keep the bytes, then go on or stop. */
  function Collect(ro: ReadOut, acc: seq<byte>, chunk: nat, fuel: nat): (r: ReadAllOut)
    requires Inv(ro.st) && chunk > 0 && fuel > 0
    ensures Inv(r.st)
    decreases fuel, 0
  {
    match ro.err
    case Nil => ReadAllLoop(ro.st, acc + ro.out, chunk, fuel - 1)
    case Eof => ReadAllOut(ro.st, Done(acc + ro.out))
    case Fatal(e) => ReadAllOut(ro.st, Error(e))
  }

  /**
   * The buffer work of refill: copy(buf, left) moves the window a[lo..hi]
   * to the front, then the bytes `data` the source delivered land after it.
   */
  method Shift(a: array<byte>, lo: nat, hi: nat, data: seq<byte>)
    requires lo <= hi <= a.Length && hi - lo + |data| <= a.Length
    modifies a
    ensures a[..hi - lo + |data|] == old(a[lo..hi]) + data
  {
    var k := 0;
    while k < hi - lo
      invariant 0 <= k <= hi - lo
      invariant forall j :: 0 <= j < k ==> a[j] == old(a[lo + j])
      invariant forall j :: k <= j < a.Length ==> a[j] == old(a[j])
    {
      a[k] := a[lo + k];
      k := k + 1;
    }
    ghost var moved := a[..hi - lo];
    assert moved == old(a[lo..hi]);
    CopyInto(a, hi - lo, data);
    assert a[..hi - lo + |data|] == a[..hi - lo] + a[hi - lo..hi - lo + |data|];
  }

  /** The Reader object: the fields of the Go struct, `left` as the window buf[lo..hi]. */
  class Reader {
    var cd: Iconv.Engine
    var r: IoReader.Source
    var buf: array?<byte>
    var lo: nat
    var hi: nat
    var err: Status
    var goff: nat
    var bufSize: nat
    ghost var taken: seq<byte>

    ghost function Left(): seq<byte>
      reads this, buf
    {
      if buf != null && lo <= hi <= buf.Length then buf[lo..hi] else []
    }

    ghost function Abs(): State
      reads this, buf
    {
      State(buf != null, bufSize, Left(), err, goff, r, cd, taken)
    }

    ghost predicate Valid()
      reads this, buf
    {
      && (buf != null ==> buf.Length == bufSize && lo <= hi <= bufSize)
      && Inv(Abs())
    }

    /** The Reader NewReader builds once iconv_open has produced `cd`. */
    constructor (opts: Options, src: IoReader.Source, cd: Iconv.Engine)
      requires opts.bufSize >= 0
      ensures Valid() && fresh(buf)
      ensures Abs() == Fresh(src, cd, GetBufSize(opts.bufSize))
      ensures buf.Length == GetBufSize(opts.bufSize)
    {
      var sz := GetBufSize(opts.bufSize);
      this.cd := cd;
      r := src;
      buf := new byte[sz];
      lo, hi := 0, 0;
      err := Nil;
      goff := 0;
      bufSize := sz;
      taken := [];
    }

    /** fail: `e` must be a real error (the source panics otherwise). */
    method Fail(e: Status)
      requires Valid() && e.Fatal? && WellFormedErr(e.err, taken)
      modifies this
      ensures Valid() && (buf == null || buf == old(buf))
      ensures Abs() == Latch(old(Abs()), e)
    {
      if err.Fatal? {
        return;
      }
      err := e;
      buf := null;
    }

    /** refill, proved against Refilled. */
    method Refill()
      requires Valid()
      modifies this, buf
      ensures Valid() && buf == old(buf)
      ensures Abs() == Refilled(old(Abs()))
    {
      if err != Nil {
        return;
      }
      ghost var s := Abs();
      var i := hi - lo;
      var (chunk, src') := IoReader.Read(r, buf.Length - i);
      Shift(buf, lo, hi, chunk.data);
      r, lo, hi := src', 0, i + |chunk.data|;
      taken := taken + chunk.data;
      err := Record(chunk.status);
      assert Left() == s.left + chunk.data;
      assert Abs() == s.(left := s.left + chunk.data, err := Record(chunk.status), src := src',
                         taken := s.taken + chunk.data);
      assert Abs() == Refilled(s);
      assert Inv(Abs());
    }

    /**
     * The conversion call of the Read loop: the engine converts the pending
     * bytes into b[off..]; the offset and the window advance past what it
     * consumed.  The errno is returned for the caller to classify.
     */
    method Consume(b: array<byte>, off: nat) returns (off': nat, errno: Iconv.Errno)
      requires Valid() && b != buf && off < b.Length
      requires !err.Fatal? && hi != lo
      modifies this, b
      ensures Valid() && buf == old(buf) && !err.Fatal?
      ensures var s := old(Abs());
        var (c, cd') := Iconv.Call(s.cd, s.left, b.Length - off);
        && Abs() == s.(cd := cd', goff := s.goff + c.consumed, left := s.left[c.consumed..])
        && errno == c.errno && off' == off + |c.produced| && b[..off'] == old(b[..off]) + c.produced
    {
      ghost var s := Abs();
      ghost var out := b[..off];
      var (c, cd') := Iconv.Call(cd, buf[lo..hi], b.Length - off);
      cd := cd';
      goff := goff + c.consumed;
      lo := lo + c.consumed;
      CopyInto(b, off, c.produced);
      assert b[..off + |c.produced|] == out + c.produced;
      off', errno := off + |c.produced|, c.errno;
      ghost var s2 := s.(cd := cd', goff := s.goff + c.consumed, left := s.left[c.consumed..]);
      assert Abs() == s2;
      assert s2.taken[s2.goff..] == s2.left by {
        assert s.taken[s.goff..][c.consumed..] == s.taken[s2.goff..];
      }
    }

    /**
     * The body of the Read loop after the refill, proved against Advance:
     * one conversion into b[off..], then the classification of its errno.
     * `e2big` says that Read must return at once.
     */
    method ConvertOnce(b: array<byte>, off: nat) returns (off': nat, e2big: bool)
      requires Valid() && b != buf && off < b.Length
      requires !err.Fatal? && hi != lo
      modifies this, b
      ensures Valid() && (buf == null || buf == old(buf))
      ensures off <= off' <= b.Length
      ensures Advance(old(Abs()), old(b[..off]), b.Length)
        == if e2big then Return(Abs(), b[..off']) else Continue(Abs(), b[..off'])
    {
      ghost var s := Abs();
      ghost var out := b[..off];
      var errno;
      off', errno := Consume(b, off);
      ghost var s2 := Abs();
      e2big := errno == Iconv.E2big;
      ClassifyErrno(errno);
      ghost var c := Iconv.Call(s.cd, s.left, b.Length - |out|).0;
      assert Advance(s, out, b.Length)
        == if e2big then Return(Classify(s2, errno), out + c.produced)
           else Continue(Classify(s2, errno), out + c.produced);
    }

    /** The switch on the errno in Read, proved against Classify. */
    method ClassifyErrno(errno: Iconv.Errno)
      requires Valid() && !err.Fatal?
      modifies this
      ensures Valid() && (buf == null || buf == old(buf))
      ensures Abs() == Classify(old(Abs()), errno)
    {
      match errno {
        case Ok =>
        case E2big =>
        case Eilseq =>
          Fail(Fatal(Err(Eilseq, BadSequence(Capped(buf[lo..hi]), goff))));
        case Einval =>
          if err == Eof {
            Fail(Fatal(Err(Einval, BadSequence(Capped(buf[lo..hi]), goff))));
          }
        case Other(_) =>
          Fail(Fatal(Err(Eunknown, EngineFault(errno, goff))));
      }
    }

    /**
     * One pass of the Read loop with `off` bytes of `b` filled: refill,
     * stop when nothing is pending or a fatal error is latched, otherwise
     * convert once.  `stop` says that Read returns `e` now; otherwise the
     * loop goes on.  Proved against one unfolding of ReadLoop.
     */
    method Pass(b: array<byte>, off: nat, ghost fuel: nat) returns (off': nat, stop: bool, e: Status)
      requires Valid() && b != buf && off < b.Length && fuel > 0
      modifies this, buf, b
      ensures Valid() && (buf == null || buf == old(buf))
      ensures off <= off' <= b.Length
      ensures ReadLoop(old(Abs()), old(b[..off]), b.Length, fuel)
        == if stop then ReadOut(Abs(), b[..off'], e) else ReadLoop(Abs(), b[..off'], b.Length, fuel - 1)
    {
      ghost var out := b[..off];
      Refill();
      if hi == lo || err.Fatal? {
        return off, true, err;
      }
      var e2big: bool;
      off', e2big := ConvertOnce(b, off);
      if e2big {
        return off', true, Nil;
      }
      stop, e := false, err;
    }

    /**
     * Read into `b`, for at most `fuel` passes of the loop.  The result and
     * the new state are those of ReadLoop.
     */
    method Read(b: array<byte>, fuel: nat) returns (n: nat, e: Status)
      requires Valid() && b != buf
      modifies this, buf, b
      ensures Valid() && (buf == null || buf == old(buf))
      ensures var res := ReadLoop(old(Abs()), [], b.Length, fuel);
        Abs() == res.st && n == |res.out| && b[..n] == res.out && e == res.err
    {
      ghost var target := ReadLoop(Abs(), [], b.Length, fuel);
      var off: nat := 0;
      var fuelLeft := fuel;
      while off < b.Length && fuelLeft > 0
        invariant off <= b.Length
        invariant Valid() && b != buf && (buf == null || buf == old(buf))
        invariant ReadLoop(Abs(), b[..off], b.Length, fuelLeft) == target
        decreases fuelLeft
      {
        var stop: bool;
        off, stop, e := Pass(b, off, fuelLeft);
        if stop {
          return off, e;
        }
        fuelLeft := fuelLeft - 1;
      }
      return off, err;
    }

    /**
     * Reset: reset the iconv session; if that fails, latch Eunknown and
     * change nothing else.  Otherwise rebind the reader, clear the pending
     * bytes, the error and the offset, and allocate a buffer of bufSize
     * only if the old one was dropped: the Reader is then in the state of
     * a new one over `rr`.
     */
    method Reset(rr: IoReader.Source)
      requires Valid()
      modifies this
      ensures Valid()
      ensures var (errno, cd') := Iconv.ResetState(old(cd));
        if errno != 0 then
          Abs() == Latch(old(Abs()).(cd := cd'), Fatal(Err(Eunknown, ResetFault(errno))))
        else
          && Abs() == Fresh(rr, cd', bufSize) && bufSize == old(bufSize)
          && (old(buf) != null ==> buf == old(buf))
          && (old(buf) == null ==> fresh(buf))
    {
      var (errno, cd') := Iconv.ResetState(cd);
      cd := cd';
      assert Abs() == old(Abs()).(cd := cd');
      if errno != 0 {
        Fail(Fatal(Err(Eunknown, ResetFault(errno))));
        return;
      }
      r := rr;
      lo, hi := 0, 0;
      err := Nil;
      goff := 0;
      taken := [];
      if buf == null {
        buf := new byte[bufSize];
      }
      assert Left() == [];
      assert Abs() == Fresh(rr, cd', bufSize);
      assert Inv(Abs());
    }

    /**
     * One pass of the ReadAll loop: Read into `b` (fresh space of the chunk
     * size) and keep what arrived.  `stop` says that ReadAll returns `res`
     * now.  Proved against one unfolding of ReadAllLoop.
     */
    method Gather(b: array<byte>, acc: seq<byte>, fuel: nat)
      returns (acc': seq<byte>, stop: bool, res: ReadAllResult)
      requires Valid() && b != buf && b.Length > 0 && fuel > 0
      modifies this, buf, b
      ensures Valid() && (buf == null || buf == old(buf))
      ensures ReadAllLoop(old(Abs()), acc, b.Length, fuel)
        == if stop then ReadAllOut(Abs(), res) else ReadAllLoop(Abs(), acc', b.Length, fuel - 1)
    {
      var n, e := Read(b, fuel);
      acc' := acc + b[..n];
      match e {
        case Nil => stop, res := false, OutOfFuel;
        case Eof => stop, res := true, Done(acc');
        case Fatal(x) => stop, res := true, Error(x);
      }
    }

    /**
     * ReadAll: Read into `chunk` bytes of free space until an error comes
     * back, as io.Copy into a bytes.Buffer does.
     */
    method ReadAll(chunk: nat, fuel: nat) returns (res: ReadAllResult)
      requires Valid() && chunk >= MIN_READ
      modifies this, buf
      ensures Valid()
      ensures var ra := ReadAllLoop(old(Abs()), [], chunk, fuel); Abs() == ra.st && res == ra.res
    {
      ghost var target := ReadAllLoop(Abs(), [], chunk, fuel);
      var acc: seq<byte> := [];
      var b := new byte[chunk];
      var fuelLeft := fuel;
      while fuelLeft > 0
        invariant Valid() && b != buf && (buf == null || buf == old(buf)) && b.Length == chunk
        invariant ReadAllLoop(Abs(), acc, chunk, fuelLeft) == target
        decreases fuelLeft
      {
        var stop: bool;
        acc, stop, res := Gather(b, acc, fuelLeft);
        if stop {
          return;
        }
        fuelLeft := fuelLeft - 1;
      }
      return OutOfFuel;
    }
  }

  /**
   * NewReader: open an iconv session from opts.From to opts.To (empty names
   * meaning UTF-8) through `open`, which stands for iconv_open and gives
   * the errno of a failed open, then build a Reader over `src`.
   */
  method NewReader(opts: Options, src: IoReader.Source, open: (string, string) -> Iconv.Opened)
    returns (rd: Reader?, errno: int)
    requires opts.bufSize >= 0
    ensures var o := open(GetCode(opts.to), GetCode(opts.from));
      && (o.OpenFailed? <==> rd == null)
      && (o.OpenFailed? ==> errno == o.errno)
      && (rd != null ==> errno == 0)
      && (rd != null ==>
            fresh(rd) && fresh(rd.buf) && rd.Valid() && rd.Abs() == Fresh(src, o.cd, GetBufSize(opts.bufSize)))
  {
    var o := open(GetCode(opts.to), GetCode(opts.from));
    if o.OpenFailed? {
      return null, o.errno;
    }
    rd := new Reader(opts, src, o.cd);
    errno := 0;
  }

  /** What Convert returns: the open errno, or ReadAll's verdict. */
  datatype ConvertResult = OpenError(errno: int) | Converted(res: ReadAllResult)

  /**
   * Convert: a Reader with the default buffer over a bytes.Buffer holding
   * `b`, read to the end.
   */
  method Convert(from: string, to: string, b: seq<byte>, open: (string, string) -> Iconv.Opened,
                 chunk: nat, fuel: nat)
    returns (res: ConvertResult)
    requires chunk >= MIN_READ
    ensures var o := open(GetCode(to), GetCode(from));
      && (o.OpenFailed? ==> res == OpenError(o.errno))
      && (o.Opened? ==>
            res == Converted(ReadAllLoop(Fresh(IoReader.Buffer(b), o.cd, DEFAULT_BUF_SIZE), [], chunk, fuel).res))
  {
    var rd, errno := NewReader(Options(from, to, 0), IoReader.Buffer(b), open);
    if rd == null {
      return OpenError(errno);
    }
    var all := rd.ReadAll(chunk, fuel);
    return Converted(all);
  }
}
