/**
 * What the Reader's functions guarantee: the Read loop only ever extends
 * the caller's output and the delivered stream, a latched error is final,
 * a call with a non-empty slice returns io.EOF only once every pending
 * byte has been converted, an engine that copies its input makes the
 * output the delivered stream itself and ReadAll over a bytes.Buffer
 * finish, and a stalled engine over a full buffer keeps the loop going
 * without progress.
 */
module ZniconvLemmas {
  import opened Bytes
  import Iconv
  import IoReader
  import opened Zniconv

  /** One conversion, spelled out: what Advance does to the output and to the state. */
  lemma AdvanceStep(s: State, out: seq<byte>, n: nat)
    requires Inv(s) && !s.err.Fatal? && s.left != [] && |out| < n
    ensures var (c, cd') := Iconv.Call(s.cd, s.left, n - |out|); var r := Advance(s, out, n);
      && r.out == out + c.produced
      && r.st.goff == s.goff + c.consumed && r.st.cd == cd'
      && r.st.taken == s.taken && r.st.src == s.src && r.st.bufSize == s.bufSize
      && (r.Return? <==> c.errno == Iconv.E2big)
      && (!r.st.err.Fatal? ==> r.st.err == s.err && r.st.left == s.left[c.consumed..])
      && (r.Continue? && r.st.err == Eof ==> r.st.left == [])
  {
  }

  /** After a conversion that does not return to the caller, nothing is pending at io.EOF. */
  lemma ContinueDrained(s: State, out: seq<byte>, n: nat)
    requires Inv(s) && !s.err.Fatal? && s.left != [] && |out| < n
    ensures Advance(s, out, n).Continue? ==> Drained(Advance(s, out, n).st)
  {
  }

  /** A latched error is final: a later fail changes nothing. */
  lemma LatchFirstWins(s: State, e1: Status, e2: Status)
    requires e1.Fatal? && e2.Fatal?
    ensures Latch(Latch(s, e1), e2) == Latch(s, e1)
    ensures !s.err.Fatal? ==> Latch(Latch(s, e1), e2).err == e1
  {
  }

  /**
   * The Read loop only appends to the caller's output, only appends to
   * the delivered stream, never moves the offset back, keeps the buffer
   * size, and returns either nil or the error the Reader now holds.
   */
  lemma {:induction false} ReadLoopMonotone(s: State, out: seq<byte>, n: nat, fuel: nat)
    requires Inv(s) && |out| <= n
    ensures var r := ReadLoop(s, out, n, fuel);
      && out <= r.out
      && s.taken <= r.st.taken && s.goff <= r.st.goff
      && r.st.bufSize == s.bufSize
      && (r.err == Nil || r.err == r.st.err)
    decreases fuel, 1
  {
    if |out| < n && fuel > 0 {
      ResumeMonotone(Refilled(s), out, n, fuel);
    }
  }

  lemma {:induction false} ResumeMonotone(s: State, out: seq<byte>, n: nat, fuel: nat)
    requires Inv(s) && |out| < n && fuel > 0
    ensures var r := Resume(s, out, n, fuel);
      && out <= r.out
      && s.taken <= r.st.taken && s.goff <= r.st.goff
      && r.st.bufSize == s.bufSize
      && (r.err == Nil || r.err == r.st.err)
    decreases fuel, 0
  {
    if s.left != [] && !s.err.Fatal? {
      AdvanceStep(s, out, n);
      match Advance(s, out, n)
      case Return(s2, out2) =>
      case Continue(s2, out2) =>
        ReadLoopMonotone(s2, out2, n, fuel - 1);
    }
  }

  /**
   * Terminal error state: once a fatal error is latched, Read returns no
   * bytes and that error, and touches neither the source nor the engine.
   */
  lemma ReadLoopFatalFinal(s: State, out: seq<byte>, n: nat, fuel: nat)
    requires Inv(s) && |out| <= n && s.err.Fatal?
    ensures ReadLoop(s, out, n, fuel) == ReadOut(s, out, s.err)
  {
  }

  /** No pending bytes are left behind once the source has reported io.EOF. */
  predicate Drained(s: State)
  {
    s.err == Eof ==> |s.left| == 0
  }

  /**
   * A call with a non-empty slice (and a pass to make) reports io.EOF only
   * when every pending byte has been converted; so does any call when
   * nothing was pending at io.EOF to begin with.
   */
  lemma {:induction false} ReadLoopEof(s: State, out: seq<byte>, n: nat, fuel: nat)
    requires Inv(s) && |out| <= n
    requires Drained(s) || (|out| < n && fuel > 0)
    ensures var r := ReadLoop(s, out, n, fuel); r.err == Eof ==> |r.st.left| == 0
    decreases fuel, 1
  {
    if |out| < n && fuel > 0 {
      ResumeEof(Refilled(s), out, n, fuel);
    }
  }

  lemma {:induction false} ResumeEof(s: State, out: seq<byte>, n: nat, fuel: nat)
    requires Inv(s) && |out| < n && fuel > 0
    ensures var r := Resume(s, out, n, fuel); r.err == Eof ==> |r.st.left| == 0
    decreases fuel, 0
  {
    if s.left != [] && !s.err.Fatal? {
      ContinueDrained(s, out, n);
      match Advance(s, out, n)
      case Return(s2, out2) =>
      case Continue(s2, out2) =>
        ReadLoopEof(s2, out2, n, fuel - 1);
    }
  }

  /**
   * A call with an empty slice does not enter the loop: it returns the
   * error the Reader holds, io.EOF included, even with bytes still pending.
   */
  lemma ReadLoopEmptySlice(s: State, out: seq<byte>, fuel: nat)
    requires Inv(s)
    ensures ReadLoop(s, out, |out|, fuel) == ReadOut(s, out, s.err)
  {
  }

  /**
   * The bytes that arrive together with io.EOF are kept: a stream that
   * answers its last bytes and io.EOF in one call leaves them pending
   * behind the old ones, and io.EOF is recorded.
   */
  lemma RefilledKeepsLastBytes(s: State, last: seq<byte>)
    requires Inv(s) && s.err == Nil && s.src.Stream? && |s.left| + |last| <= s.bufSize
    requires s.src.next(s.src.calls) == IoReader.Chunk(last, IoReader.Eof)
    ensures Refilled(s).left == s.left + last && Refilled(s).err == Eof
  {
  }

  /** With an engine that copies, one conversion outputs the bytes it consumes. */
  lemma IdentityAdvance(s: State, out: seq<byte>, n: nat)
    requires Inv(s) && !s.err.Fatal? && s.left != [] && |out| < n && s.cd.Identity?
    ensures var a := Advance(s, out, n);
      && a.st.cd.Identity? && a.st.taken == s.taken && s.goff <= a.st.goff <= |s.taken|
      && a.out == out + s.taken[s.goff..a.st.goff]
  {
    var c := Iconv.Call(s.cd, s.left, n - |out|).0;
    AdvanceStep(s, out, n);
    assert s.left[..c.consumed] == s.taken[s.goff..s.goff + c.consumed];
  }

  /**
   * The output of one conversion followed by the output of the rest of
   * the loop is the stream from where the first started to where the
   * last stopped.
   */
  lemma IdentityJoin(g: nat, out: seq<byte>, s2: State, out2: seq<byte>, r: ReadOut)
    requires g <= s2.goff <= |s2.taken| && out2 == out + s2.taken[g..s2.goff]
    requires s2.taken <= r.st.taken && s2.goff <= r.st.goff <= |r.st.taken|
    requires r.out == out2 + r.st.taken[s2.goff..r.st.goff]
    ensures r.out == out + r.st.taken[g..r.st.goff]
  {
    assert s2.taken[g..s2.goff] == r.st.taken[g..s2.goff];
    assert r.st.taken[g..r.st.goff] == r.st.taken[g..s2.goff] + r.st.taken[s2.goff..r.st.goff];
  }

  /** A stretch of a stream followed by the rest of the stream from where it ends. */
  lemma SuffixJoin(acc: seq<byte>, t: seq<byte>, u: seq<byte>, i: nat, j: nat, data: seq<byte>)
    requires t <= u && i <= j <= |t|
    requires data == acc + t[i..j] + u[j..]
    ensures data == acc + u[i..]
  {
    assert t[i..j] == u[i..j];
    assert u[i..] == u[i..j] + u[j..];
  }

  /**
   * With an engine that copies its input, what Read puts in the caller's
   * slice is exactly the stretch of the delivered stream the engine
   * consumed during the call.
   */
  lemma {:induction false} ReadLoopIdentity(s: State, out: seq<byte>, n: nat, fuel: nat)
    requires Inv(s) && |out| <= n && s.cd.Identity?
    ensures var r := ReadLoop(s, out, n, fuel);
      && r.st.cd.Identity? && s.goff <= r.st.goff <= |r.st.taken|
      && r.out == out + r.st.taken[s.goff..r.st.goff]
    decreases fuel, 1
  {
    if |out| < n && fuel > 0 {
      ResumeIdentity(Refilled(s), out, n, fuel);
    }
  }

  lemma {:induction false} ResumeIdentity(s: State, out: seq<byte>, n: nat, fuel: nat)
    requires Inv(s) && |out| < n && fuel > 0 && s.cd.Identity?
    ensures var r := Resume(s, out, n, fuel);
      && r.st.cd.Identity? && s.goff <= r.st.goff <= |r.st.taken|
      && r.out == out + r.st.taken[s.goff..r.st.goff]
    decreases fuel, 0
  {
    if s.left != [] && !s.err.Fatal? {
      IdentityAdvance(s, out, n);
      match Advance(s, out, n)
      case Return(s2, out2) =>
      case Continue(s2, out2) =>
        ReadLoopIdentity(s2, out2, n, fuel - 1);
        ReadLoopMonotone(s2, out2, n, fuel - 1);
        IdentityJoin(s.goff, out, s2, out2, ReadLoop(s2, out2, n, fuel - 1));
    }
  }

  /**
   * ReadAll's verdicts.  Success comes only once the source reported
   * io.EOF and every byte it delivered has been converted; the data only
   * extends what was gathered; a failure is the error the Reader latched.
   */
  lemma {:induction false} ReadAllOutcome(s: State, acc: seq<byte>, chunk: nat, fuel: nat)
    requires Inv(s) && chunk > 0
    ensures var r := ReadAllLoop(s, acc, chunk, fuel);
      && s.taken <= r.st.taken && s.goff <= r.st.goff
      && (r.res.Done? ==>
            acc <= r.res.data && r.st.err == Eof && r.st.left == [] && r.st.goff == |r.st.taken|)
      && (r.res.Error? ==> r.st.err == Fatal(r.res.err) && WellFormedErr(r.res.err, r.st.taken))
    decreases fuel, 1
  {
    if fuel > 0 {
      ReadLoopMonotone(s, [], chunk, fuel);
      ReadLoopEof(s, [], chunk, fuel);
      CollectOutcome(ReadLoop(s, [], chunk, fuel), acc, chunk, fuel);
    }
  }

  lemma {:induction false} CollectOutcome(ro: ReadOut, acc: seq<byte>, chunk: nat, fuel: nat)
    requires Inv(ro.st) && chunk > 0 && fuel > 0
    requires ro.err == Nil || ro.err == ro.st.err
    requires ro.err == Eof ==> |ro.st.left| == 0
    ensures var r := Collect(ro, acc, chunk, fuel);
      && ro.st.taken <= r.st.taken && ro.st.goff <= r.st.goff
      && (r.res.Done? ==>
            acc <= r.res.data && r.st.err == Eof && r.st.left == [] && r.st.goff == |r.st.taken|)
      && (r.res.Error? ==> r.st.err == Fatal(r.res.err) && WellFormedErr(r.res.err, r.st.taken))
    decreases fuel, 0
  {
    if ro.err == Nil {
      ReadAllOutcome(ro.st, acc + ro.out, chunk, fuel - 1);
    }
  }

  /**
   * With an engine that copies its input, ReadAll's data is what was
   * gathered before followed by the whole stream from the offset it
   * started at.
   */
  lemma {:induction false} ReadAllIdentity(s: State, acc: seq<byte>, chunk: nat, fuel: nat)
    requires Inv(s) && chunk > 0 && s.cd.Identity?
    ensures var r := ReadAllLoop(s, acc, chunk, fuel);
      r.res.Done? ==> s.goff <= |r.st.taken| && r.res.data == acc + r.st.taken[s.goff..]
    decreases fuel, 1
  {
    if fuel > 0 {
      ReadLoopIdentity(s, [], chunk, fuel);
      ReadLoopEof(s, [], chunk, fuel);
      ReadLoopMonotone(s, [], chunk, fuel);
      CollectIdentity(ReadLoop(s, [], chunk, fuel), acc, chunk, fuel, s.goff);
    }
  }

  lemma {:induction false} CollectIdentity(ro: ReadOut, acc: seq<byte>, chunk: nat, fuel: nat, g: nat)
    requires Inv(ro.st) && chunk > 0 && fuel > 0 && ro.st.cd.Identity?
    requires g <= ro.st.goff <= |ro.st.taken| && ro.out == [] + ro.st.taken[g..ro.st.goff]
    requires ro.err == Eof ==> ro.st.err == Eof && |ro.st.left| == 0
    ensures var r := Collect(ro, acc, chunk, fuel);
      r.res.Done? ==> g <= |r.st.taken| && r.res.data == acc + r.st.taken[g..]
    decreases fuel, 0
  {
    if ro.err == Nil {
      ReadAllIdentity(ro.st, acc + ro.out, chunk, fuel - 1);
      ReadAllOutcome(ro.st, acc + ro.out, chunk, fuel - 1);
      var r := ReadAllLoop(ro.st, acc + ro.out, chunk, fuel - 1);
      if r.res.Done? {
        SuffixJoin(acc, ro.st.taken, r.st.taken, g, ro.st.goff, r.res.data);
      }
    } else if ro.err == Eof {
      assert |ro.st.taken[ro.st.goff..]| == 0;
    }
  }

  /**
   * A Reader over a bytes.Buffer holding `x` with an engine that copies:
   * what it has taken followed by what the buffer still holds is `x`, and
   * it never fails.
   */
  predicate TracksBuffer(s: State, x: seq<byte>)
  {
    && s.src.Buffer? && s.cd.Identity? && !s.err.Fatal?
    && s.taken + s.src.rest == x
    && (s.err == Eof ==> s.src.rest == [])
  }

  lemma RefilledTracksBuffer(s: State, x: seq<byte>)
    requires Inv(s) && TracksBuffer(s, x)
    ensures TracksBuffer(Refilled(s), x)
  {
    if s.err == Nil {
      var (chunk, src') := IoReader.Read(s.src, s.bufSize - |s.left|);
      assert s.taken + chunk.data + src'.rest == s.taken + (chunk.data + src'.rest);
    }
  }

  /** Reading such a Reader keeps it so. */
  lemma {:induction false} ReadLoopTracksBuffer(s: State, out: seq<byte>, n: nat, fuel: nat, x: seq<byte>)
    requires Inv(s) && |out| <= n && TracksBuffer(s, x)
    ensures TracksBuffer(ReadLoop(s, out, n, fuel).st, x)
    decreases fuel, 1
  {
    if |out| < n && fuel > 0 {
      RefilledTracksBuffer(s, x);
      ResumeTracksBuffer(Refilled(s), out, n, fuel, x);
    }
  }

  lemma {:induction false} ResumeTracksBuffer(s: State, out: seq<byte>, n: nat, fuel: nat, x: seq<byte>)
    requires Inv(s) && |out| < n && fuel > 0 && TracksBuffer(s, x)
    ensures TracksBuffer(Resume(s, out, n, fuel).st, x)
    decreases fuel, 0
  {
    if s.left != [] && !s.err.Fatal? {
      AdvanceStep(s, out, n);
      match Advance(s, out, n)
      case Return(s2, out2) =>
      case Continue(s2, out2) =>
        ReadLoopTracksBuffer(s2, out2, n, fuel - 1, x);
    }
  }

  lemma {:induction false} ReadAllTracksBuffer(s: State, acc: seq<byte>, chunk: nat, fuel: nat, x: seq<byte>)
    requires Inv(s) && chunk > 0 && TracksBuffer(s, x)
    ensures var r := ReadAllLoop(s, acc, chunk, fuel); TracksBuffer(r.st, x) && !r.res.Error?
    decreases fuel
  {
    if fuel > 0 {
      ReadLoopTracksBuffer(s, [], chunk, fuel, x);
      ReadLoopMonotone(s, [], chunk, fuel);
      var ro := ReadLoop(s, [], chunk, fuel);
      if ro.err == Nil {
        assert ReadAllLoop(s, acc, chunk, fuel) == ReadAllLoop(ro.st, acc + ro.out, chunk, fuel - 1);
        ReadAllTracksBuffer(ro.st, acc + ro.out, chunk, fuel - 1, x);
      }
    }
  }

  /**
   * Over a bytes.Buffer with a non-empty internal buffer, a refill that
   * finds nothing pending either brings bytes or reports io.EOF.
   */
  lemma RefilledNotIdle(s: State, x: seq<byte>)
    requires Inv(s) && TracksBuffer(s, x) && s.bufSize > 0
    ensures var t := Refilled(s); TracksBuffer(t, x) && t.goff == s.goff && (t.err != Nil || t.left != [])
  {
    RefilledTracksBuffer(s, x);
  }

  /**
   * With an engine that copies, a conversion either fills the caller's
   * slice and returns, or consumes every pending byte and goes on.
   */
  lemma IdentityAdvanceFinish(s: State, out: seq<byte>, n: nat, x: seq<byte>)
    requires Inv(s) && TracksBuffer(s, x) && s.left != [] && |out| < n
    ensures var a := Advance(s, out, n);
      && TracksBuffer(a.st, x)
      && (a.Return? ==> |a.out| == n)
      && (a.Continue? ==> a.st.goff == s.goff + |s.left|)
  {
    AdvanceStep(s, out, n);
  }

  /**
   * Progress of Read over a bytes.Buffer with an engine that copies: given
   * more passes than bytes remain, Read returns io.EOF or a full slice.
   */
  lemma {:induction false} ReadLoopFinishes(s: State, out: seq<byte>, n: nat, fuel: nat, x: seq<byte>)
    requires Inv(s) && |out| <= n && TracksBuffer(s, x) && s.bufSize > 0
    requires s.goff + fuel > |x|
    ensures var r := ReadLoop(s, out, n, fuel); r.err == Eof || |r.out| == n
    decreases fuel, 1
  {
    if |out| < n {
      RefilledNotIdle(s, x);
      ResumeFinishes(Refilled(s), out, n, fuel, x);
    }
  }

  lemma {:induction false} ResumeFinishes(s: State, out: seq<byte>, n: nat, fuel: nat, x: seq<byte>)
    requires Inv(s) && |out| < n && fuel > 0 && TracksBuffer(s, x) && s.bufSize > 0
    requires s.err != Nil || s.left != []
    requires s.goff + fuel > |x|
    ensures var r := Resume(s, out, n, fuel); r.err == Eof || |r.out| == n
    decreases fuel, 0
  {
    if s.left != [] {
      IdentityAdvanceFinish(s, out, n, x);
      match Advance(s, out, n)
      case Return(s2, out2) =>
      case Continue(s2, out2) =>
        ReadLoopFinishes(s2, out2, n, fuel - 1, x);
    }
  }

  /**
   * Progress of ReadAll over a bytes.Buffer with an engine that copies:
   * given more passes than bytes remain, it succeeds.
   */
  lemma {:induction false} ReadAllFinishes(s: State, acc: seq<byte>, chunk: nat, fuel: nat, x: seq<byte>)
    requires Inv(s) && chunk > 0 && TracksBuffer(s, x) && s.bufSize > 0
    requires s.goff + fuel > |x|
    ensures ReadAllLoop(s, acc, chunk, fuel).res.Done?
    decreases fuel
  {
    assert fuel > 0;
    ReadLoopFinishes(s, [], chunk, fuel, x);
    ReadLoopTracksBuffer(s, [], chunk, fuel, x);
    ReadLoopIdentity(s, [], chunk, fuel);
    ReadLoopMonotone(s, [], chunk, fuel);
    var ro := ReadLoop(s, [], chunk, fuel);
    assert ReadAllLoop(s, acc, chunk, fuel) == Collect(ro, acc, chunk, fuel);
    if ro.err == Nil {
      assert ro.st.goff == s.goff + chunk;
      ReadAllFinishes(ro.st, acc + ro.out, chunk, fuel - 1, x);
    }
  }

  /**
   * The round trip of Convert with an engine that copies: reading a
   * bytes.Buffer holding `x` to the end gives back `x` itself; the only
   * other outcome is running out of passes, never an error, and with a
   * non-empty buffer more passes than `x` has bytes are enough.
   */
  lemma BufferRoundTrip(x: seq<byte>, bufSize: nat, chunk: nat, fuel: nat)
    requires chunk > 0
    ensures var r := ReadAllLoop(Fresh(IoReader.Buffer(x), Iconv.Identity, bufSize), [], chunk, fuel);
      r.res == Done(x) || r.res == OutOfFuel
    ensures bufSize > 0 && fuel > |x| ==>
      ReadAllLoop(Fresh(IoReader.Buffer(x), Iconv.Identity, bufSize), [], chunk, fuel).res == Done(x)
  {
    var s := Fresh(IoReader.Buffer(x), Iconv.Identity, bufSize);
    if bufSize > 0 && fuel > |x| {
      ReadAllFinishes(s, [], chunk, fuel, x);
    }
    ReadAllTracksBuffer(s, [], chunk, fuel, x);
    ReadAllIdentity(s, [], chunk, fuel);
    ReadAllOutcome(s, [], chunk, fuel);
    var r := ReadAllLoop(s, [], chunk, fuel);
    if r.res.Done? {
      assert r.st.src.rest == [];
      assert r.st.taken == x;
    }
  }

  /**
   * The stall.  When the pending bytes fill the whole buffer and the
   * engine keeps reporting an incomplete sequence without consuming
   * anything, a refill offers the source no room, the bytes.Buffer
   * answers 0 bytes and no error, and the Read loop goes round again:
   * however many passes it makes, no output appears, no error is latched
   * and the pending bytes stay as they are.
   */
  lemma {:induction false} FullBufferStalls(s: State, out: seq<byte>, n: nat, fuel: nat)
    requires Inv(s) && s.err == Nil && 0 < |s.left| == s.bufSize && |out| < n
    requires s.src.Buffer? && s.cd.Session?
    requires forall k :: s.cd.step(k) == Iconv.Conversion(0, [], Iconv.Einval)
    ensures var r := ReadLoop(s, out, n, fuel);
      && r.out == out && r.err == Nil
      && r.st.left == s.left && r.st.goff == s.goff && r.st.taken == s.taken && r.st.src == s.src
    decreases fuel
  {
    if fuel > 0 {
      var s2 := s.(cd := s.cd.(calls := s.cd.calls + 1));
      StallPass(s, out, n, fuel);
      FullBufferStalls(s2, out, n, fuel - 1);
    }
  }

  /** One pass of the stall: the refill changes nothing and the conversion only counts a call. */
  lemma StallPass(s: State, out: seq<byte>, n: nat, fuel: nat)
    requires Inv(s) && s.err == Nil && 0 < |s.left| == s.bufSize && |out| < n && fuel > 0
    requires s.src.Buffer? && s.cd.Session?
    requires forall k :: s.cd.step(k) == Iconv.Conversion(0, [], Iconv.Einval)
    ensures ReadLoop(s, out, n, fuel) == ReadLoop(s.(cd := s.cd.(calls := s.cd.calls + 1)), out, n, fuel - 1)
  {
    var s2 := s.(cd := s.cd.(calls := s.cd.calls + 1));
    StallRefill(s);
    StallAdvance(s, out, n);
    assert ReadLoop(s, out, n, fuel) == Resume(s, out, n, fuel);
    assert Resume(s, out, n, fuel) == ReadLoop(s2, out, n, fuel - 1);
  }

  /** With the buffer full, a bytes.Buffer is offered no room and the refill changes nothing. */
  lemma StallRefill(s: State)
    requires Inv(s) && s.err == Nil && |s.left| == s.bufSize && s.src.Buffer?
    ensures Refilled(s) == s
  {
    assert s.left + [] == s.left && s.taken + [] == s.taken;
  }

  /** An engine that consumes nothing and answers EINVAL before io.EOF only counts a call. */
  lemma StallAdvance(s: State, out: seq<byte>, n: nat)
    requires Inv(s) && s.err == Nil && s.left != [] && |out| < n && s.cd.Session?
    requires s.cd.step(s.cd.calls) == Iconv.Conversion(0, [], Iconv.Einval)
    ensures Advance(s, out, n) == Continue(s.(cd := s.cd.(calls := s.cd.calls + 1)), out)
  {
    assert s.left[0..] == s.left && out + [] == out;
  }

  /**
   * A concrete instance of the stall: a one-byte buffer holding the first
   * byte of a two-byte UTF-8 sequence, and an engine waiting for the
   * second byte.
   */
  lemma StallExample(fuel: nat)
    ensures var cd := Iconv.Session(_ => Iconv.Conversion(0, [], Iconv.Einval), _ => 0, 0);
      var s := State(true, 1, [0xC3], Nil, 0, IoReader.Buffer([0xA9]), cd, [0xC3]);
      ReadLoop(s, [], 16, fuel) == ReadOut(ReadLoop(s, [], 16, fuel).st, [], Nil)
      && ReadLoop(s, [], 16, fuel).st.left == [0xC3]
  {
    var cd := Iconv.Session(_ => Iconv.Conversion(0, [], Iconv.Einval), _ => 0, 0);
    var s := State(true, 1, [0xC3], Nil, 0, IoReader.Buffer([0xA9]), cd, [0xC3]);
    assert s.taken[s.goff..] == s.left;
    FullBufferStalls(s, [], 16, fuel);
  }
}
