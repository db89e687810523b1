/**
 * send_thread_func of src/server.cpp and src/client.cpp: each typed line
 * other than "exit" and the empty line goes out as its `ui32` length and
 * its bytes, each through a loop that calls send until all of it is out.
 *
 * The typed lines are `lines` (std::getline failing is their end) and the
 * results of the send calls are `sends`, one per call, in order.
 */
module Writer {
  import opened Bytes
  import opened Framing
  import opened Frames

  /** One return of send: up to `limit` bytes accepted, or SOCKET_ERROR with an error code. */
  datatype Send = Accept(limit: nat) | SendError(code: int)

  /** The line "exit". */
  const EXIT_LINE: seq<byte> := [0x65, 0x78, 0x69, 0x74]

  /** One more than the largest `int`, the type `bytes_sent` and the length casts use. */
  const INT_LIMIT: nat := 0x8000_0000

  /** Why the writer stopped: input ended, "exit" was typed, a send failed, or the send results ran out (send blocks). */
  datatype WriterEnd = InputEnded | ExitTyped | SendFailed | Blocked

  /** The index of the first "exit" line, or the number of lines when there is none. */
  function ExitIndex(lines: seq<seq<byte>>): (i: nat)
    ensures i <= |lines|
  {
    if lines == [] then 0
    else if lines[0] == EXIT_LINE then 0
    else 1 + ExitIndex(lines[1..])
  }

  /** ExitIndex finds the first "exit": the line there is "exit" and none before it is. */
  lemma {:induction false} ExitIndexFirst(lines: seq<seq<byte>>)
    ensures ExitIndex(lines) < |lines| ==> lines[ExitIndex(lines)] == EXIT_LINE
    ensures forall j | 0 <= j < ExitIndex(lines) :: lines[j] != EXIT_LINE
  {
    if lines != [] && lines[0] != EXIT_LINE {
      ExitIndexFirst(lines[1..]);
      assert forall j | 1 <= j < ExitIndex(lines) :: lines[j] == lines[1..][j - 1];
    }
  }

  /** Lines that fit the casts to `int` and `ui32`. */
  predicate Typeable(lines: seq<seq<byte>>)
  {
    forall i | 0 <= i < |lines| :: |lines[i]| < INT_LIMIT
  }

  /** What the writer is meant to send: the frames of the lines before the first "exit". */
  function Intended(lines: seq<seq<byte>>): seq<byte>
    requires Typeable(lines)
  {
    assert Sendable(lines[..ExitIndex(lines)]);
    Wire(lines[..ExitIndex(lines)])
  }

  /** `a` is a prefix of `b`. */
  predicate Prefix(a: seq<byte>, b: seq<byte>)
  {
    |a| <= |b| && b[..|a|] == a
  }

  /** The bytes send may take in one call: its limit if it accepted, nothing on SOCKET_ERROR. */
  function Given(o: Send): nat
  {
    if o.Accept? then o.limit else 0
  }

  /** The bytes the send results `sends[a..b]` would take between them. */
  function Accepted(sends: seq<Send>, a: nat, b: nat): nat
    requires a <= b <= |sends|
    decreases b - a
  {
    if a == b then 0 else Accepted(sends, a, b - 1) + Given(sends[b - 1])
  }

  /** 1 for a send result that accepted at least one byte, else 0. */
  function Takes(o: Send): nat
  {
    if o.Accept? && o.limit > 0 then 1 else 0
  }

  /** The number of results in `sends[a..b]` that accepted at least one byte; results of 0 and SOCKET_ERROR do not count. */
  function Useful(sends: seq<Send>, a: nat, b: nat): nat
    requires a <= b <= |sends|
    decreases b - a
  {
    if a == b then 0 else Useful(sends, a, b - 1) + Takes(sends[b - 1])
  }

  /** Counting the results of a run in two pieces counts them all. */
  lemma {:induction false} UsefulSplit(sends: seq<Send>, a: nat, m: nat, b: nat)
    requires a <= m <= b <= |sends|
    ensures Useful(sends, a, b) == Useful(sends, a, m) + Useful(sends, m, b)
    decreases b - m
  {
    if b > m {
      UsefulSplit(sends, a, m, b - 1);
    }
  }

  /** Adding up a run's accepted bytes in two pieces adds them all. */
  lemma {:induction false} AcceptedSplit(sends: seq<Send>, a: nat, m: nat, b: nat)
    requires a <= m <= b <= |sends|
    ensures Accepted(sends, a, b) == Accepted(sends, a, m) + Accepted(sends, m, b)
    decreases b - m
  {
    if b > m {
      AcceptedSplit(sends, a, m, b - 1);
    }
  }

  /**
   * One write loop: `while (bytes_sent < len)` calls send for the bytes not
   * yet out; SOCKET_ERROR ends it as failed, a positive count adds to
   * `bytes_sent`, and 0 is retried. The bytes out are the data's length or
   * all the results used would take, whichever is less, and the loop uses
   * no result after the one that completes the data.
   */
  method SendAll(data: seq<byte>, sends: seq<Send>, k0: nat) returns (k: nat, sent: nat, failed: bool)
    requires k0 <= |sends|
    ensures k0 <= k <= |sends| && sent <= |data|
    ensures sent == Min(|data|, Accepted(sends, k0, k))
    ensures k0 < k ==> Accepted(sends, k0, k - 1) < |data|
    ensures failed ==> k0 < k && sends[k - 1].SendError? && sent < |data|
    ensures !failed && sent < |data| ==> k == |sends|
    ensures forall j | k0 <= j < k - 1 :: sends[j].Accept?
    ensures !failed ==> forall j | k0 <= j < k :: sends[j].Accept?
    ensures Useful(sends, k0, k) <= sent
  {
    k, sent, failed := k0, 0, false;
    while sent < |data|
      invariant k0 <= k <= |sends| && sent <= |data|
      invariant sent == Min(|data|, Accepted(sends, k0, k))
      invariant k0 < k ==> Accepted(sends, k0, k - 1) < |data|
      invariant forall j | k0 <= j < k :: sends[j].Accept?
      invariant Useful(sends, k0, k) <= sent
      decreases |sends| - k
    {
      if k == |sends| {
        return;
      }
      var o := sends[k];
      k := k + 1;
      if o.SendError? {
        failed := true;
        return;
      }
      var n := Min(|data| - sent, o.limit);
      if n > 0 {
        sent := sent + n;
      }
    }
  }

  /**
   * The body of the writer loop for a line that is not "exit": nothing for
   * an empty line, else the length loop and, unless it failed, the payload
   * loop. `out` is what reached the wire; a failure is a SOCKET_ERROR after
   * accepts only and leaves the frame short, and each result used that
   * accepted a byte put at least one on the wire. The ghost `k1` splits the
   * results used into those of the length loop and those of the payload
   * loop: each phase puts out what its results accepted, up to what it had
   * to send, and uses no result after the one that completed it.
   */
  method SendLine(line: seq<byte>, sends: seq<Send>, k0: nat)
    returns (k: nat, out: seq<byte>, failed: bool, ghost k1: nat)
    requires k0 <= |sends| && |line| < INT_LIMIT
    ensures k0 <= k <= |sends|
    ensures line == [] ==> k == k0 && out == [] && !failed
    ensures line != [] ==> PhaseSplit(line, sends, k0, k1, k, |out|)
    ensures |out| <= Accepted(sends, k0, k)
    ensures out == Frame(line) ==> EndsOnTake(sends, k0, k)
    ensures Prefix(out, Frame(line))
    ensures failed ==> k0 < k && sends[k - 1].SendError? && out != Frame(line)
    ensures !failed && out != Frame(line) ==> k == |sends|
    ensures forall j | k0 <= j < k - 1 :: sends[j].Accept?
    ensures !failed ==> forall j | k0 <= j < k :: sends[j].Accept?
    ensures Useful(sends, k0, k) <= |out|
  {
    k, out, failed, k1 := k0, [], false, k0;
    if line != [] {
      var lenBytes := LeBytes32(|line|);
      var sent;
      k, sent, failed := SendAll(lenBytes, sends, k);
      out, k1 := lenBytes[..sent], k;
      if failed || sent < LEN_BYTES {
        LengthCut(line, sent);
        LengthPhase(line, sends, k0, k1, sent);
        return;
      }
      var sent1 := sent;
      k, sent, failed := SendAll(line, sends, k);
      out := lenBytes + line[..sent];
      PayloadCut(line, sent);
      UsefulSplit(sends, k0, k1, k);
      PayloadPhase(line, sends, k0, k1, k, sent1, sent);
    }
  }

  /** A line whose length loop stopped short, after `sends[k0..k1]`, went out as those results alone. */
  lemma LengthPhase(line: seq<byte>, sends: seq<Send>, k0: nat, k1: nat, sent: nat)
    requires k0 <= k1 <= |sends|
    requires sent == Min(LEN_BYTES, Accepted(sends, k0, k1))
    requires k0 < k1 ==> Accepted(sends, k0, k1 - 1) < LEN_BYTES
    ensures PhaseSplit(line, sends, k0, k1, k1, sent) && sent <= Accepted(sends, k0, k1)
  {
    assert sends[k1..k1] == [];
  }

  /**
   * A line whose length loop completed with `sends[k0..k1]` and whose payload
   * loop then used `sends[k1..k]` went out as the two phases; when the
   * payload is all out, the last result used is one that took bytes.
   */
  lemma PayloadPhase(line: seq<byte>, sends: seq<Send>, k0: nat, k1: nat, k: nat, sent1: nat, sent2: nat)
    requires k0 <= k1 <= k <= |sends| && line != []
    requires sent1 == Min(LEN_BYTES, Accepted(sends, k0, k1)) == LEN_BYTES
    requires k0 < k1 ==> Accepted(sends, k0, k1 - 1) < LEN_BYTES
    requires sent2 == Min(|line|, Accepted(sends, k1, k))
    requires k1 < k ==> Accepted(sends, k1, k - 1) < |line|
    requires forall j | k1 <= j < k - 1 :: sends[j].Accept?
    ensures PhaseSplit(line, sends, k0, k1, k, LEN_BYTES + sent2)
    ensures LEN_BYTES + sent2 <= Accepted(sends, k0, k)
    ensures sent2 == |line| ==> EndsOnTake(sends, k0, k)
  {
    SplitBound(line, sends, k0, k1, k, LEN_BYTES + sent2);
    if sent2 == |line| {
    }
  }

  /**
   * The length loop used `sends[k0..k1]` and the payload loop `sends[k1..k]`:
   * `n` bytes went out, each phase putting out what its results accepted up
   * to what it had to send; the payload loop ran only after all four length
   * bytes were out, and neither phase used a result after the one that
   * completed it.
   */
  predicate PhaseSplit(line: seq<byte>, sends: seq<Send>, k0: nat, k1: nat, k: nat, n: nat)
  {
    && k0 <= k1 <= k <= |sends|
    && n == Min(LEN_BYTES, Accepted(sends, k0, k1)) + Min(|line|, Accepted(sends, k1, k))
    && (k0 < k1 ==> Accepted(sends, k0, k1 - 1) < LEN_BYTES)
    && (k1 < k ==> LEN_BYTES <= Accepted(sends, k0, k1) && Accepted(sends, k1, k - 1) < |line|)
  }

  /** The two phases never put out more than their results accepted between them. */
  lemma SplitBound(line: seq<byte>, sends: seq<Send>, k0: nat, k1: nat, k: nat, n: nat)
    requires PhaseSplit(line, sends, k0, k1, k, n)
    ensures n <= Accepted(sends, k0, k)
  {
    AcceptedSplit(sends, k0, k1, k);
  }

  /** The first `sent` of the length bytes, short of all four, begin a line's frame and are not all of it. */
  lemma LengthCut(line: seq<byte>, sent: nat)
    requires line != [] && |line| < INT_LIMIT && sent <= LEN_BYTES
    ensures Prefix(LeBytes32(|line|)[..sent], Frame(line))
    ensures LeBytes32(|line|)[..sent] != Frame(line)
  {
    assert Frame(line)[..sent] == LeBytes32(|line|)[..sent];
  }

  /** The length bytes and the first `sent` payload bytes begin the frame, and are all of it only when the payload is all out. */
  lemma PayloadCut(line: seq<byte>, sent: nat)
    requires line != [] && |line| < INT_LIMIT && sent <= |line|
    ensures Prefix(LeBytes32(|line|) + line[..sent], Frame(line))
    ensures LeBytes32(|line|) + line[..sent] == Frame(line) <==> sent == |line|
  {
    var out := LeBytes32(|line|) + line[..sent];
    assert Frame(line)[..|out|] == out;
    assert sent == |line| ==> line[..sent] == line;
  }

  /**
   * One pass of the writer loop over line `i`, a line before the first
   * "exit", once the frames of the lines before it are out: SendLine for it.
   * Either the frame goes out whole, so the wire holds the frames of the
   * first `i + 1` lines, or the wire stops strictly inside the intended
   * frames, on a SOCKET_ERROR or with every result used.
   */
  method SendPending(lines: seq<seq<byte>>, i: nat, sends: seq<Send>, k0: nat)
    returns (k: nat, out: seq<byte>, failed: bool)
    requires Pending(lines, i) && k0 <= |sends|
    ensures k0 <= k <= |sends| && Counted(sends, k0, k, |out|)
    ensures forall j | k0 <= j < k - 1 :: sends[j].Accept?
    ensures !failed ==> forall j | k0 <= j < k :: sends[j].Accept?
    ensures |out| <= |Frame(lines[i])|
    ensures failed ==> k0 < k && sends[k - 1].SendError? && |out| < |Frame(lines[i])|
    ensures !failed && |out| < |Frame(lines[i])| ==> k == |sends|
    ensures Sendable(lines[..i]) && Sendable(lines[..i + 1])
    ensures |out| == |Frame(lines[i])| ==>
              i + 1 <= ExitIndex(lines) && EndsOnTake(sends, k0, k) && Wire(lines[..i + 1]) == Wire(lines[..i]) + out
    ensures |out| < |Frame(lines[i])| ==>
              Prefix(Wire(lines[..i]) + out, Intended(lines)) && |Wire(lines[..i]) + out| < |Intended(lines)|
  {
    ghost var split;
    k, out, failed, split := SendLine(lines[i], sends, k0);
    LineSent(lines, i);
    if out != Frame(lines[i]) {
      PartialFrame(lines, i, out);
      FrameCut(lines, i, out);
    } else {
      assert |out| == |Frame(lines[i])|;
    }
  }

  /**
   * send_thread_func over the typed lines: "exit" sets `should_exit` and
   * sends nothing, an empty line sends nothing, and a failed send sets
   * `should_exit`. What reaches the wire is always a prefix of the intended
   * frames: all of them exactly when input ended or "exit" was typed, and a
   * strict prefix when a send failed or blocked. It blocks only when every
   * result was an accept and all were used; it fails only on a SOCKET_ERROR,
   * after accepts only. Each used result that accepted a byte put one on the
   * wire, results of 0 being retried, so when no result is SOCKET_ERROR and
   * at least as many accept a byte as there are intended bytes, all go out.
   */
  method WriteLoop(lines: seq<seq<byte>>, sends: seq<Send>)
    returns (wire: seq<byte>, shouldExit: bool, end: WriterEnd, used: nat)
    requires Typeable(lines)
    ensures used <= |sends|
    ensures Prefix(wire, Intended(lines))
    ensures end == InputEnded || end == ExitTyped <==> wire == Intended(lines)
    ensures end == Blocked || end == SendFailed ==> |wire| < |Intended(lines)|
    ensures end == InputEnded ==> ExitIndex(lines) == |lines|
    ensures end == ExitTyped <==> wire == Intended(lines) && ExitIndex(lines) < |lines|
    ensures shouldExit <==> end == ExitTyped || end == SendFailed
    ensures end == SendFailed ==> 0 < used && sends[used - 1].SendError?
    ensures end == Blocked ==> used == |sends| && forall j | 0 <= j < |sends| :: sends[j].Accept?
    ensures forall j | 0 <= j < used - 1 :: sends[j].Accept?
    ensures Useful(sends, 0, used) <= |wire|
    ensures |wire| <= Accepted(sends, 0, used)
    ensures end == InputEnded || end == ExitTyped ==> EndsOnTake(sends, 0, used)
    ensures (forall j | 0 <= j < |sends| :: sends[j].Accept?) && |Intended(lines)| <= Useful(sends, 0, |sends|) ==>
              wire == Intended(lines)
  {
    wire, shouldExit, end, used := [], false, InputEnded, 0;
    var i := 0;
    assert lines[..0] == [];
    while !shouldExit && i < |lines|
      invariant i <= ExitIndex(lines) && used <= |sends|
      invariant !shouldExit && end == InputEnded
      invariant Sendable(lines[..i]) && wire == Wire(lines[..i])
      invariant forall j | 0 <= j < used :: sends[j].Accept?
      invariant Counted(sends, 0, used, |wire|)
      invariant EndsOnTake(sends, 0, used)
      decreases |lines| - i
    {
      var line := lines[i];
      if line == EXIT_LINE {
        shouldExit, end := true, ExitTyped;
        break;
      }
      var out, failed, before := [], false, used;
      used, out, failed := SendPending(lines, i, sends, used);
      Tally(sends, before, used, |wire|, |out|);
      if failed || |out| < |Frame(line)| {
        AcceptsJoin(sends, before, used - 1);
        if !failed {
          AcceptsJoin(sends, before, used);
        }
        wire := wire + out;
        assert |wire| < |Intended(lines)|;
        if failed {
          shouldExit, end := true, SendFailed;
        } else {
          end := Blocked;
        }
        return;
      }
      TakeJoin(sends, before, used);
      wire := wire + out;
      i := i + 1;
    }
    AllSent(lines, i);
  }

  /** The results `sends[a..b]` put out `n` bytes: at least one per result that took a byte, at most what they accepted. */
  predicate Counted(sends: seq<Send>, a: nat, b: nat, n: nat)
  {
    a <= b <= |sends| && Useful(sends, a, b) <= n <= Accepted(sends, a, b)
  }

  /** The run of results `sends[a..b]` is empty or its last result took at least one byte. */
  predicate EndsOnTake(sends: seq<Send>, a: nat, b: nat)
    requires a <= b <= |sends|
  {
    a < b ==> Takes(sends[b - 1]) == 1
  }

  /** Runs ending on a taking result, one after the other, end on one. */
  lemma TakeJoin(sends: seq<Send>, m: nat, b: nat)
    requires m <= b <= |sends| && EndsOnTake(sends, 0, m) && EndsOnTake(sends, m, b)
    ensures EndsOnTake(sends, 0, b)
  {
  }

  /** Two runs of results, one after the other, put out what each put out. */
  lemma Tally(sends: seq<Send>, m: nat, b: nat, w: nat, o: nat)
    requires Counted(sends, 0, m, w) && Counted(sends, m, b, o)
    ensures Counted(sends, 0, b, w + o)
  {
    UsefulSplit(sends, 0, m, b);
    AcceptedSplit(sends, 0, m, b);
  }

  /** Results that accepted up to `m`, then from `m` up to `b`, accepted up to `b`. */
  lemma AcceptsJoin(sends: seq<Send>, m: nat, b: int)
    requires m <= |sends| && b <= |sends|
    requires forall j | 0 <= j < m :: sends[j].Accept?
    requires forall j | m <= j < b :: sends[j].Accept?
    ensures forall j | 0 <= j < b :: sends[j].Accept?
  {
  }

  /** Line `i` is a line the writer sends: it comes before the first "exit". */
  predicate Pending(lines: seq<seq<byte>>, i: nat)
  {
    i < |lines| && i <= ExitIndex(lines) && lines[i] != EXIT_LINE && Typeable(lines)
  }

  /** Sending line `i` in full, before the first "exit", keeps the loop's invariant for `i + 1`. */
  lemma LineSent(lines: seq<seq<byte>>, i: nat)
    requires Pending(lines, i)
    ensures i + 1 <= ExitIndex(lines) && Sendable(lines[..i]) && Sendable(lines[..i + 1])
    ensures Wire(lines[..i + 1]) == Wire(lines[..i]) + Frame(lines[i])
  {
    PastLine(lines, i);
    WireSnoc(lines, i);
  }

  /** Stopping at the end of the lines or at an "exit" line means every intended frame is out. */
  lemma AllSent(lines: seq<seq<byte>>, i: nat)
    requires i <= ExitIndex(lines) && Typeable(lines)
    requires i == |lines| || lines[i] == EXIT_LINE
    ensures i == ExitIndex(lines) && Sendable(lines[..i])
    ensures Wire(lines[..i]) == Intended(lines) && Prefix(Wire(lines[..i]), Intended(lines))
  {
    ExitReached(lines, i);
    PrefixRefl(Intended(lines));
  }

  /** No line before the first "exit" is "exit", so stopping at one is stopping at the first. */
  lemma ExitReached(lines: seq<seq<byte>>, i: nat)
    requires i <= ExitIndex(lines)
    requires i == |lines| || lines[i] == EXIT_LINE
    ensures i == ExitIndex(lines)
  {
    ExitIndexFirst(lines);
  }

  /** Stopping part way through line `i`, before the first "exit", leaves a prefix of the intended frames. */
  lemma PartialFrame(lines: seq<seq<byte>>, i: nat, out: seq<byte>)
    requires Pending(lines, i)
    requires Prefix(out, Frame(lines[i]))
    ensures Sendable(lines[..i]) && Prefix(Wire(lines[..i]) + out, Intended(lines))
  {
    LineSent(lines, i);
    var w, f, next, all := Wire(lines[..i]), Frame(lines[i]), Wire(lines[..i + 1]), Intended(lines);
    assert Prefix(next, all) by {
      WireGrows(lines, i + 1);
    }
    PrefixJoin(next, w, f, out, all);
  }

  /** Stopping strictly inside line `i`'s frame leaves fewer bytes than intended. */
  lemma FrameCut(lines: seq<seq<byte>>, i: nat, out: seq<byte>)
    requires Pending(lines, i)
    requires Prefix(out, Frame(lines[i])) && out != Frame(lines[i])
    ensures Sendable(lines[..i]) && |Wire(lines[..i]) + out| < |Intended(lines)|
  {
    LineSent(lines, i);
    WireGrows(lines, i + 1);
    assert Frame(lines[i])[..|out|] == out;
  }

  lemma PastLine(lines: seq<seq<byte>>, i: nat)
    requires i < |lines| && i <= ExitIndex(lines) && lines[i] != EXIT_LINE
    ensures i + 1 <= ExitIndex(lines)
  {
    ExitIndexFirst(lines);
  }

  lemma PrefixJoin(next: seq<byte>, w: seq<byte>, f: seq<byte>, out: seq<byte>, all: seq<byte>)
    requires next == w + f && Prefix(next, all) && Prefix(out, f)
    ensures Prefix(w + out, all)
  {
    assert all[..|w + out|] == (w + f)[..|w + out|];
    assert (w + f)[..|w + out|] == w + out;
  }

  /** The frames of the first `i + 1` lines are those of the first `i` and then line `i`'s. */
  lemma WireSnoc(lines: seq<seq<byte>>, i: nat)
    requires i < |lines| && Typeable(lines)
    ensures Sendable(lines[..i]) && Sendable(lines[..i + 1])
    ensures Wire(lines[..i + 1]) == Wire(lines[..i]) + Frame(lines[i])
  {
    assert lines[..i + 1][..i] == lines[..i];
  }

  /** The frames of the lines before any index up to the first "exit" begin the intended frames. */
  lemma WireGrows(lines: seq<seq<byte>>, i: nat)
    requires i <= ExitIndex(lines) && Typeable(lines)
    ensures Sendable(lines[..i]) && Prefix(Wire(lines[..i]), Intended(lines))
  {
    var before := lines[..ExitIndex(lines)];
    assert lines[..i] == before[..i];
    WirePrefix(before, i);
  }

  lemma {:induction false} WirePrefix(lines: seq<seq<byte>>, i: nat)
    requires i <= |lines| && Sendable(lines)
    ensures Sendable(lines[..i]) && Prefix(Wire(lines[..i]), Wire(lines))
    decreases |lines| - i
  {
    if i < |lines| {
      WirePrefix(lines, i + 1);
      var pre, all := lines[..i], lines[..i + 1];
      assert all[..|all| - 1] == pre;
      WireExtends(pre, all);
      PrefixTrans(Wire(pre), Wire(all), Wire(lines));
    } else {
      assert lines[..i] == lines;
      PrefixRefl(Wire(lines));
    }
  }

  /** The frames of all lines but the last begin the frames of all of them. */
  lemma WireExtends(pre: seq<seq<byte>>, all: seq<seq<byte>>)
    requires all != [] && Sendable(all) && pre == all[..|all| - 1]
    ensures Sendable(pre) && Prefix(Wire(pre), Wire(all))
  {
    PrefixOfJoin(Wire(pre), Frame(all[|all| - 1]));
  }

  lemma PrefixOfJoin(a: seq<byte>, b: seq<byte>)
    ensures Prefix(a, a + b)
  {
    assert (a + b)[..|a|] == a;
  }

  lemma PrefixTrans(a: seq<byte>, b: seq<byte>, c: seq<byte>)
    requires Prefix(a, b) && Prefix(b, c)
    ensures Prefix(a, c)
  {
    assert c[..|a|] == c[..|b|][..|a|];
  }

  lemma PrefixRefl(a: seq<byte>)
    ensures Prefix(a, a)
  {
    assert a[..|a|] == a;
  }
}
