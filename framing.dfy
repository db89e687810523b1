/**
 * The length-prefixed framing of src/server.cpp and src/client.cpp, whose
 * reader and writer threads are the same code in both programs. A frame is
 * the 4 host-order bytes of a `ui32` length followed by that many bytes.
 *
 * The socket is the byte stream the peer writes (`stream`) and the results
 * its recv or send calls return, one per call, in order (`sched`, `sends`).
 * A recv of `want` bytes returns the next `Min(want, limit)` bytes that are
 * there, so 0 once the stream is exhausted; an error returns SOCKET_ERROR and
 * WSAGetLastError() yields the given code. When the results run out the call
 * blocks, which ends the run here. A blocking recv returns 0 only after the
 * peer has closed, so a result with limit 0 while bytes are still pending
 * over-approximates the socket: it allows more runs than a real peer can cause.
 */
module Framing {
  import opened Bytes

  const BUFFER_SIZE: nat := 1024
  const LEN_BYTES: nat := 4
  const SOCKET_ERROR: int := -1
  const WSAEINTR: int := 10004
  const WSAEWOULDBLOCK: int := 10035
  const WSAECONNRESET: int := 10054

  /** One return of recv: up to `limit` bytes, or SOCKET_ERROR with an error code. */
  datatype Recv = Deliver(limit: nat) | RecvError(code: int)

  /** How many bytes a recv asking for `want` gets from `stream[at..]`. */
  function RecvCount(stream: seq<byte>, at: nat, want: nat, limit: nat): (n: nat)
    requires at <= |stream|
    ensures n <= want && at + n <= |stream|
    ensures n == 0 <==> want == 0 || limit == 0 || at == |stream|
  {
    Min(want, Min(limit, |stream| - at))
  }

  /** `buf` with the bytes from `off` on replaced by `data`. */
  function Splice(buf: seq<byte>, off: nat, data: seq<byte>): (r: seq<byte>)
    requires off + |data| <= |buf|
    ensures |r| == |buf|
  {
    buf[..off] + data + buf[off + |data|..]
  }

  /** A length the reader accepts: `msg_len > 0 && msg_len < BUFFER_SIZE`. */
  predicate ValidLength(n: nat)
  {
    0 < n < BUFFER_SIZE
  }

  /** Errors the length read sleeps on and retries. */
  predicate LengthRetry(code: int)
  {
    code == WSAEWOULDBLOCK || code == WSAEINTR || code == WSAECONNRESET
  }

  /** Errors the payload read sleeps on and retries; a reset is not one of them. */
  predicate PayloadRetry(code: int)
  {
    code == WSAEWOULDBLOCK || code == WSAEINTR
  }

  // ---------------------------------------------------------------------------
  // recv_thread_func as written

  /**
   * The reader's variables `len_buffer`, `len_received` and `should_exit`, how
   * far into the stream it has read, the payloads it printed (up to the NUL
   * written after them) and the lengths it reported invalid.
   */
  datatype Reader = Reader(lenBuf: seq<byte>, lenReceived: nat, at: nat,
                           shown: seq<seq<byte>>, rejected: seq<nat>, exit: bool)
  {
    /** At most 4 length bytes, and 4 only while a valid length waits for its payload. */
    predicate Inv(stream: seq<byte>)
    {
      && |lenBuf| == LEN_BYTES && lenReceived <= LEN_BYTES && at <= |stream|
      && (lenReceived == LEN_BYTES ==> ValidLength(LeValue32(lenBuf)))
    }
  }

  /** Before the first recv; `len_buffer` starts uninitialised and is written before it is read. */
  const READER_START: Reader := Reader(Zeros(LEN_BYTES), 0, 0, [], [], false)

  /** The `len_received == 4` block's decision for a zero or out-of-range length. */
  function Classify(s: Reader): (r: Reader)
    requires |s.lenBuf| == LEN_BYTES
  {
    if s.lenReceived != LEN_BYTES then s
    else
      var n := LeValue32(s.lenBuf);
      if ValidLength(n) then s
      else if n == 0 then s.(lenReceived := 0)
      else s.(lenReceived := 0, rejected := s.rejected + [n])
  }

  /**
   * The effect of one recv result: a length read while fewer than 4 length
   * bytes are in, else a payload read of at most `msg_len` bytes.
   */
  function Step(s: Reader, stream: seq<byte>, o: Recv): (r: Reader)
    requires s.Inv(stream)
    ensures r.Inv(stream) && s.at <= r.at
    ensures |s.shown| <= |r.shown| && r.shown[..|s.shown|] == s.shown
  {
    if s.lenReceived < LEN_BYTES then
      match o
      case RecvError(code) => if LengthRetry(code) then s else s.(exit := true)
      case Deliver(limit) =>
        var n := RecvCount(stream, s.at, LEN_BYTES - s.lenReceived, limit);
        if n == 0 then s.(exit := true)
        else Classify(s.(lenBuf := Splice(s.lenBuf, s.lenReceived, stream[s.at..s.at + n]),
                         lenReceived := s.lenReceived + n, at := s.at + n))
    else
      match o
      case RecvError(code) => if PayloadRetry(code) then s else s.(exit := true)
      case Deliver(limit) =>
        var n := RecvCount(stream, s.at, LeValue32(s.lenBuf), limit);
        if n == 0 then s
        else s.(shown := s.shown + [UntilNul(stream[s.at..s.at + n])], lenReceived := 0, at := s.at + n)
  }

  /** The reader after the results `sched`, in order; nothing more happens once it exits. */
  function Run(stream: seq<byte>, sched: seq<Recv>): (r: Reader)
    ensures r.Inv(stream)
    decreases |sched|
  {
    if sched == [] then READER_START
    else
      var p := Run(stream, sched[..|sched| - 1]);
      if p.exit then p else Step(p, stream, sched[|sched| - 1])
  }

  lemma RunSnoc(stream: seq<byte>, sched: seq<Recv>, k: nat)
    requires k < |sched| && !Run(stream, sched[..k]).exit
    ensures Run(stream, sched[..k + 1]) == Step(Run(stream, sched[..k]), stream, sched[k])
  {
    assert sched[..k + 1][..k] == sched[..k];
  }

  lemma {:induction false} RunAfterExit(stream: seq<byte>, sched: seq<Recv>, k: nat)
    requires k <= |sched| && Run(stream, sched[..k]).exit
    ensures Run(stream, sched) == Run(stream, sched[..k])
    decreases |sched| - k
  {
    if k < |sched| {
      assert sched[..k + 1][..k] == sched[..k];
      RunAfterExit(stream, sched, k + 1);
    } else {
      assert sched[..k] == sched;
    }
  }

  /**
   * recv(sock, buf + off, want, 0) for one result: copy the bytes that
   * arrive into the buffer and return their count, or SOCKET_ERROR and the code.
   */
  method RecvInto(buf: array<byte>, off: nat, want: nat, stream: seq<byte>, at: nat, o: Recv)
    returns (ret: int, error: int)
    requires off + want <= buf.Length && at <= |stream|
    modifies buf
    ensures o.RecvError? ==> ret == SOCKET_ERROR && error == o.code && buf[..] == old(buf[..])
    ensures o.Deliver? ==> && ret == RecvCount(stream, at, want, o.limit)
                           && buf[..] == Splice(old(buf[..]), off, stream[at..at + ret])
  {
    if o.RecvError? {
      return SOCKET_ERROR, o.code;
    }
    var n := RecvCount(stream, at, want, o.limit);
    var j := 0;
    while j < n
      invariant 0 <= j <= n
      invariant buf[..] == Splice(old(buf[..]), off, stream[at..at + j])
    {
      buf[off + j] := stream[at + j];
      j := j + 1;
    }
    ret, error := n, 0;
  }

  /**
   * The length read of recv_thread_func: `recv(sock, len_buffer + len_received, 4 - len_received, 0)`,
   * taking the `k`-th result of `sched` in a reader that has seen the ones before it.
   */
  method ReadLengthBytes(lenBuffer: array<byte>, lenReceived: nat, at: nat, ghost s: Reader,
                         stream: seq<byte>, sched: seq<Recv>, k: nat)
    returns (ret: int, error: int)
    requires k < |sched| && s == Run(stream, sched[..k]) && !s.exit && s.lenReceived < LEN_BYTES
    requires lenReceived == s.lenReceived && at == s.at
    requires lenBuffer.Length == LEN_BYTES && lenBuffer[..] == s.lenBuf
    modifies lenBuffer
    ensures ret == SOCKET_ERROR || 0 <= ret <= LEN_BYTES - s.lenReceived
    ensures ret <= 0 ==> lenBuffer[..] == s.lenBuf
    ensures ret == 0 ==> Run(stream, sched[..k + 1]) == s.(exit := true)
    ensures ret == SOCKET_ERROR ==>
              Run(stream, sched[..k + 1]) == if LengthRetry(error) then s else s.(exit := true)
    ensures ret > 0 ==> && s.at + ret <= |stream|
                        && Run(stream, sched[..k + 1])
                           == Classify(s.(lenBuf := lenBuffer[..], lenReceived := s.lenReceived + ret,
                                          at := s.at + ret))
  {
    var o := sched[k];
    ret, error := RecvInto(lenBuffer, lenReceived, LEN_BYTES - lenReceived, stream, at, o);
    if ret == 0 {
      assert stream[s.at..s.at] == [];
      assert lenBuffer[..] == s.lenBuf;
    } else if ret > 0 {
      var m := s.(lenBuf := lenBuffer[..], lenReceived := s.lenReceived + ret, at := s.at + ret);
      LengthDelivered(s, stream, o.limit, ret, m);
    }
    RunSnoc(stream, sched, k);
  }

  /** A length read that delivers bytes: they go in after the ones already there, then the length is classified. */
  lemma LengthDelivered(s: Reader, stream: seq<byte>, limit: nat, n: nat, m: Reader)
    requires s.Inv(stream) && s.lenReceived < LEN_BYTES
    requires n == RecvCount(stream, s.at, LEN_BYTES - s.lenReceived, limit) && n > 0
    requires m == s.(lenBuf := Splice(s.lenBuf, s.lenReceived, stream[s.at..s.at + n]),
                     lenReceived := s.lenReceived + n, at := s.at + n)
    ensures Step(s, stream, Deliver(limit)) == Classify(m)
  {
  }

  /**
   * The payload read of recv_thread_func: `recv(sock, buffer, msg_len, 0)`,
   * then `buffer[bytes_received] = '\0'` and the text up to the first NUL,
   * taking the `k`-th result of `sched` in a reader that has seen the ones before it.
   */
  method ReadPayload(buffer: array<byte>, msgLen: nat, at: nat, ghost s: Reader,
                     stream: seq<byte>, sched: seq<Recv>, k: nat)
    returns (ret: int, error: int, chars: seq<byte>)
    requires k < |sched| && s == Run(stream, sched[..k]) && !s.exit
    requires s.lenReceived == LEN_BYTES && buffer.Length == BUFFER_SIZE
    requires msgLen == LeValue32(s.lenBuf) && at == s.at
    modifies buffer
    ensures ret == SOCKET_ERROR || 0 <= ret
    ensures ret == 0 ==> Run(stream, sched[..k + 1]) == s
    ensures ret == SOCKET_ERROR ==>
              Run(stream, sched[..k + 1]) == if PayloadRetry(error) then s else s.(exit := true)
    ensures ret > 0 ==> && s.at + ret <= |stream|
                        && Run(stream, sched[..k + 1])
                           == s.(shown := s.shown + [chars], lenReceived := 0, at := s.at + ret)
  {
    var o := sched[k];
    ret, error := RecvInto(buffer, 0, msgLen, stream, at, o);
    chars := [];
    if ret > 0 {
      assert buffer[..ret] == stream[s.at..s.at + ret];
      buffer[ret] := 0;
      assert buffer[..ret] == stream[s.at..s.at + ret];
      chars := CString(buffer);
      UntilNulOfTerminated(buffer[..], ret);
      assert buffer[..][..ret] == buffer[..ret];
      PayloadDelivered(s, stream, o.limit, ret, chars);
    }
    RunSnoc(stream, sched, k);
  }

  /** A payload read that delivers bytes: their text up to a NUL is shown and the length read starts over. */
  lemma PayloadDelivered(s: Reader, stream: seq<byte>, limit: nat, n: nat, text: seq<byte>)
    requires s.Inv(stream) && s.lenReceived == LEN_BYTES
    requires n == RecvCount(stream, s.at, LeValue32(s.lenBuf), limit) && n > 0
    requires text == UntilNul(stream[s.at..s.at + n])
    ensures Step(s, stream, Deliver(limit)) == s.(shown := s.shown + [text], lenReceived := 0, at := s.at + n)
  {
  }

  /**
   * recv_thread_func: while not told to exit, read the missing length bytes;
   * once all 4 are in, print a valid-length payload from one recv of at most
   * `msg_len` bytes and start over, or start over on a zero or oversized length.
   * `len_buffer` starts uninitialised and each byte is written before it is
   * read, so it starts zeroed here.
   */
  method ReadLoop(stream: seq<byte>, sched: seq<Recv>) returns (r: Reader)
    ensures r == Run(stream, sched)
  {
    var buffer := new byte[BUFFER_SIZE];
    var lenBuffer := new byte[LEN_BYTES](_ => 0);
    var lenReceived: nat := 0;
    var at: nat := 0;
    var shown: seq<seq<byte>> := [];
    var rejected: seq<nat> := [];
    var exit := false;
    var k := 0;
    assert lenBuffer[..] == Zeros(LEN_BYTES);
    assert sched[..0] == [];
    ghost var st := Run(stream, sched[..0]);
    while !exit && k < |sched|
      invariant 0 <= k <= |sched| && lenBuffer.Length == LEN_BYTES && buffer.Length == BUFFER_SIZE
      invariant st == Run(stream, sched[..k])
      invariant st == Reader(lenBuffer[..], lenReceived, at, shown, rejected, exit)
      decreases |sched| - k
    {
      if lenReceived < LEN_BYTES {
        var ret, error := ReadLengthBytes(lenBuffer, lenReceived, at, st, stream, sched, k);
        st := Run(stream, sched[..k + 1]);
        k := k + 1;
        if ret == 0 {
          exit := true;
          break;
        } else if ret == SOCKET_ERROR {
          if !LengthRetry(error) {
            exit := true;
            break;
          }
          continue;
        } else {
          lenReceived := lenReceived + ret;
          at := at + ret;
        }
      }
      ghost var cur := Reader(lenBuffer[..], lenReceived, at, shown, rejected, exit);
      assert st == Classify(cur);
      if lenReceived == LEN_BYTES {
        var msgLen := LeValue32(lenBuffer[..]);
        if 0 < msgLen < BUFFER_SIZE {
          if k < |sched| {
            var ret, error, chars := ReadPayload(buffer, msgLen, at, st, stream, sched, k);
            st := Run(stream, sched[..k + 1]);
            k := k + 1;
            if ret > 0 {
              shown := shown + [chars];
              lenReceived := 0;
              at := at + ret;
            } else if ret == SOCKET_ERROR {
              if !PayloadRetry(error) {
                exit := true;
                break;
              }
            }
          }
        } else if msgLen == 0 {
          lenReceived := 0;
        } else {
          rejected := rejected + [msgLen];
          lenReceived := 0;
        }
      }
    }
    r := Reader(lenBuffer[..], lenReceived, at, shown, rejected, exit);
    if exit {
      RunAfterExit(stream, sched, k);
    } else {
      assert sched[..k] == sched;
    }
  }

  // ---------------------------------------------------------------------------
  // What one recv result does to the reader

  /**
   * The reader stops exactly when a length read finds the connection closed
   * or fails with an error other than WOULDBLOCK, EINTR and ECONNRESET, or a
   * payload read fails with an error other than WOULDBLOCK and EINTR.
   */
  lemma StepExitIff(s: Reader, stream: seq<byte>, o: Recv)
    requires s.Inv(stream) && !s.exit
    ensures Step(s, stream, o).exit <==>
              if s.lenReceived < LEN_BYTES then
                || (o.Deliver? && RecvCount(stream, s.at, LEN_BYTES - s.lenReceived, o.limit) == 0)
                || (o.RecvError? && !LengthRetry(o.code))
              else o.RecvError? && !PayloadRetry(o.code)
  {
  }

  /**
   * A length read that completes a length of BUFFER_SIZE or more reports it
   * and starts reading a new length right after the 4 length bytes, without
   * exiting: the payload that follows is read as the next length.
   */
  lemma OversizedRejected(s: Reader, stream: seq<byte>, limit: nat)
    requires s.Inv(stream) && !s.exit && s.lenReceived < LEN_BYTES
    requires s.lenReceived + RecvCount(stream, s.at, LEN_BYTES - s.lenReceived, limit) == LEN_BYTES
    requires LeValue32(Splice(s.lenBuf, s.lenReceived, stream[s.at..s.at + LEN_BYTES - s.lenReceived])) >= BUFFER_SIZE
    ensures var r := Step(s, stream, Deliver(limit));
            && !r.exit && r.lenReceived == 0 && r.at == s.at + LEN_BYTES - s.lenReceived && r.shown == s.shown
            && r.rejected == s.rejected + [LeValue32(Splice(s.lenBuf, s.lenReceived, stream[s.at..r.at]))]
  {
    CompletedLength(s, stream, limit);
  }

  /** A zero length is dropped silently and a new length is read. */
  lemma ZeroLengthSkipped(s: Reader, stream: seq<byte>, limit: nat)
    requires s.Inv(stream) && !s.exit && s.lenReceived < LEN_BYTES
    requires s.lenReceived + RecvCount(stream, s.at, LEN_BYTES - s.lenReceived, limit) == LEN_BYTES
    requires LeValue32(Splice(s.lenBuf, s.lenReceived, stream[s.at..s.at + LEN_BYTES - s.lenReceived])) == 0
    ensures var r := Step(s, stream, Deliver(limit));
            !r.exit && r.lenReceived == 0 && r.shown == s.shown && r.rejected == s.rejected
  {
    CompletedLength(s, stream, limit);
  }

  /** A length read that brings the length bytes to 4, before the length is classified. */
  lemma CompletedLength(s: Reader, stream: seq<byte>, limit: nat)
    requires s.Inv(stream) && s.lenReceived < LEN_BYTES
    requires s.lenReceived + RecvCount(stream, s.at, LEN_BYTES - s.lenReceived, limit) == LEN_BYTES
    ensures Step(s, stream, Deliver(limit))
              == Classify(s.(lenBuf := Splice(s.lenBuf, s.lenReceived, stream[s.at..s.at + LEN_BYTES - s.lenReceived]),
                             lenReceived := LEN_BYTES, at := s.at + LEN_BYTES - s.lenReceived))
  {
    var n := RecvCount(stream, s.at, LEN_BYTES - s.lenReceived, limit);
    LengthDelivered(s, stream, limit, n,
                    s.(lenBuf := Splice(s.lenBuf, s.lenReceived, stream[s.at..s.at + n]),
                       lenReceived := s.lenReceived + n, at := s.at + n));
  }

  /**
   * A payload read that gets fewer bytes than the length announced still
   * shows them and goes back to reading a length, so the rest of the payload
   * is read as a length next.
   */
  lemma ShortReadResets(s: Reader, stream: seq<byte>, limit: nat)
    requires s.Inv(stream) && !s.exit && s.lenReceived == LEN_BYTES
    requires 0 < RecvCount(stream, s.at, LeValue32(s.lenBuf), limit) < LeValue32(s.lenBuf)
    ensures var r := Step(s, stream, Deliver(limit));
            && r.lenReceived == 0 && !r.exit && |r.shown| == |s.shown| + 1
            && r.at < s.at + LeValue32(s.lenBuf)
  {
    var n := RecvCount(stream, s.at, LeValue32(s.lenBuf), limit);
    PayloadDelivered(s, stream, limit, n, UntilNul(stream[s.at..s.at + n]));
  }

  /**
   * A payload read that gets nothing leaves the reader waiting for the same
   * payload. On a real socket this happens once the peer has closed; a result
   * with limit 0 before that is the over-approximation described above.
   */
  lemma ZeroPayloadKeepsWaiting(s: Reader, stream: seq<byte>, limit: nat)
    requires s.Inv(stream) && s.lenReceived == LEN_BYTES
    requires RecvCount(stream, s.at, LeValue32(s.lenBuf), limit) == 0
    ensures Step(s, stream, Deliver(limit)) == s
  {
  }

  /**
   * Once the peer has closed while a payload is awaited, recv returns 0 for
   * ever after and the reader never leaves its loop: every further result
   * that is not an error leaves it exactly as it was.
   */
  lemma {:induction false} ClosedMidFrameSpins(stream: seq<byte>, sched: seq<Recv>, k: nat)
    requires k <= |sched|
    requires var p := Run(stream, sched[..k]); !p.exit && p.lenReceived == LEN_BYTES && p.at == |stream|
    requires forall j | k <= j < |sched| :: sched[j].Deliver?
    ensures Run(stream, sched) == Run(stream, sched[..k])
    decreases |sched|
  {
    if |sched| == k {
      assert sched[..k] == sched;
    } else {
      var q := sched[..|sched| - 1];
      assert q[..k] == sched[..k];
      ClosedMidFrameSpins(stream, q, k);
      ZeroPayloadKeepsWaiting(Run(stream, q), stream, sched[|sched| - 1].limit);
    }
  }

  /**
   * A stream that ends right after a valid 4-byte length: the first recv
   * completes the length, and any number of further recv results after it
   * leave the reader waiting for the payload, with nothing shown and no exit.
   */
  lemma ClosedAfterLength(stream: seq<byte>, sched: seq<Recv>)
    requires |stream| == LEN_BYTES && ValidLength(LeValue32(stream))
    requires |sched| >= 1 && sched[0] == Deliver(LEN_BYTES)
    requires forall j | 1 <= j < |sched| :: sched[j].Deliver?
    ensures !Run(stream, sched).exit && Run(stream, sched).shown == []
    ensures Run(stream, sched).lenReceived == LEN_BYTES && Run(stream, sched).at == |stream|
  {
    assert sched[..0] == [];
    RunSnoc(stream, sched, 0);
    CompletedLength(READER_START, stream, LEN_BYTES);
    assert Splice(READER_START.lenBuf, 0, stream[0..LEN_BYTES]) == stream;
    ClosedMidFrameSpins(stream, sched, 1);
  }

  /** Every text shown is shorter than BUFFER_SIZE, and every length reported is at least BUFFER_SIZE. */
  predicate Bounded(r: Reader)
  {
    && (forall i | 0 <= i < |r.shown| :: |r.shown[i]| < BUFFER_SIZE)
    && (forall i | 0 <= i < |r.rejected| :: r.rejected[i] >= BUFFER_SIZE)
  }

  lemma {:induction false} RunBounds(stream: seq<byte>, sched: seq<Recv>)
    ensures Bounded(Run(stream, sched))
    decreases |sched|
  {
    if sched != [] {
      var q := sched[..|sched| - 1];
      RunBounds(stream, q);
      var p := Run(stream, q);
      if !p.exit {
        StepBounds(p, stream, sched[|sched| - 1]);
      }
    }
  }

  lemma StepBounds(s: Reader, stream: seq<byte>, o: Recv)
    requires s.Inv(stream) && Bounded(s)
    ensures Bounded(Step(s, stream, o))
  {
    if s.lenReceived == LEN_BYTES && o.Deliver? {
      var n := RecvCount(stream, s.at, LeValue32(s.lenBuf), o.limit);
      if n > 0 {
        var text := UntilNul(stream[s.at..s.at + n]);
        PayloadDelivered(s, stream, o.limit, n, text);
        assert |text| < BUFFER_SIZE;
      }
    } else if s.lenReceived < LEN_BYTES && o.Deliver? {
      var n := RecvCount(stream, s.at, LEN_BYTES - s.lenReceived, o.limit);
      if n > 0 {
        LengthDelivered(s, stream, o.limit, n,
                        s.(lenBuf := Splice(s.lenBuf, s.lenReceived, stream[s.at..s.at + n]),
                           lenReceived := s.lenReceived + n, at := s.at + n));
      }
    }
  }
}
