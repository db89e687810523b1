/**
 * Frames as the writer puts them on the wire, and a reader that reassembles
 * them whatever sizes the recv calls return: the behaviour the as-written
 * reader of module Framing is meant to have. It keeps the length checks of
 * recv_thread_func (a zero length is dropped, a length of BUFFER_SIZE or
 * more is reported) but reads a payload across as many recv calls as it
 * takes, and skips the payload of a frame it reports.
 */
module Frames {
  import opened Bytes
  import opened Framing

  /** Lines whose lengths fit the `ui32` length field. */
  predicate Sendable(lines: seq<seq<byte>>)
  {
    forall i | 0 <= i < |lines| :: |lines[i]| < U32_LIMIT
  }

  /** What the writer sends for one line: nothing for an empty line, else its length's 4 bytes and the line. */
  function Frame(line: seq<byte>): seq<byte>
    requires |line| < U32_LIMIT
  {
    if line == [] then [] else LeBytes32(|line|) + line
  }

  /** The frames of `lines`, one after the other. */
  function Wire(lines: seq<seq<byte>>): seq<byte>
    requires Sendable(lines)
  {
    if lines == [] then [] else Wire(lines[..|lines| - 1]) + Frame(lines[|lines| - 1])
  }

  /** The texts a reader shows for `lines`: each line of a valid length, up to its first NUL. */
  function Shown(lines: seq<seq<byte>>): seq<seq<byte>>
  {
    if lines == [] then []
    else
      var last := lines[|lines| - 1];
      Shown(lines[..|lines| - 1]) + if ValidLength(|last|) then [UntilNul(last)] else []
  }

  /** The lengths a reader reports as invalid for `lines`: those of BUFFER_SIZE or more. */
  function Rejected(lines: seq<seq<byte>>): seq<nat>
  {
    if lines == [] then []
    else
      var last := lines[|lines| - 1];
      Rejected(lines[..|lines| - 1]) + if |last| >= BUFFER_SIZE then [|last|] else []
  }

  // ---------------------------------------------------------------------------
  // A byte-at-a-time frame decoder

  /** Collecting length bytes, collecting the payload of a valid length, or skipping a reported one. */
  datatype Phase = AwaitLength(got: seq<byte>) | AwaitPayload(need: nat, got: seq<byte>) | Discard(left: nat)

  datatype Decoder = Decoder(phase: Phase, shown: seq<seq<byte>>, rejected: seq<nat>)
  {
    predicate Inv()
    {
      match phase
      case AwaitLength(got) => |got| < LEN_BYTES
      case AwaitPayload(need, got) => ValidLength(need) && |got| < need
      case Discard(left) => left > 0
    }

    /** `later` has shown and reported everything this decoder has, and possibly more. */
    predicate Within(later: Decoder)
    {
      && |shown| <= |later.shown| && later.shown[..|shown|] == shown
      && |rejected| <= |later.rejected| && later.rejected[..|rejected|] == rejected
    }
  }

  const DECODER_START: Decoder := Decoder(AwaitLength([]), [], [])

  function FeedByte(d: Decoder, b: byte): (r: Decoder)
    requires d.Inv()
    ensures r.Inv() && d.Within(r)
    ensures |r.shown| <= |d.shown| + 1 && |r.rejected| <= |d.rejected| + 1
  {
    match d.phase
    case AwaitLength(got) =>
      var g := got + [b];
      if |g| < LEN_BYTES then d.(phase := AwaitLength(g))
      else
        var n := LeValue32(g);
        if n == 0 then d.(phase := AwaitLength([]))
        else if n < BUFFER_SIZE then d.(phase := AwaitPayload(n, []))
        else d.(phase := Discard(n), rejected := d.rejected + [n])
    case AwaitPayload(need, got) =>
      var g := got + [b];
      if |g| < need then d.(phase := AwaitPayload(need, g))
      else d.(phase := AwaitLength([]), shown := d.shown + [UntilNul(g)])
    case Discard(left) =>
      if left > 1 then d.(phase := Discard(left - 1)) else d.(phase := AwaitLength([]))
  }

  /** The decoder after the bytes `bs`, in order. */
  function Feed(d: Decoder, bs: seq<byte>): (r: Decoder)
    requires d.Inv()
    ensures r.Inv()
    decreases |bs|
  {
    if bs == [] then d else FeedByte(Feed(d, bs[..|bs| - 1]), bs[|bs| - 1])
  }

  lemma FeedSnoc(d: Decoder, bs: seq<byte>, b: byte)
    requires d.Inv()
    ensures Feed(d, bs + [b]) == FeedByte(Feed(d, bs), b)
  {
    assert (bs + [b])[..|bs|] == bs;
  }

  /** Feeding only adds to what is shown and reported. */
  lemma {:induction false} FeedWithin(d: Decoder, bs: seq<byte>)
    requires d.Inv()
    ensures d.Within(Feed(d, bs))
    decreases |bs|
  {
    if bs != [] {
      var front := Feed(d, bs[..|bs| - 1]);
      FeedWithin(d, bs[..|bs| - 1]);
      WithinTrans(d, front, FeedByte(front, bs[|bs| - 1]));
    }
  }

  lemma WithinTrans(a: Decoder, b: Decoder, c: Decoder)
    requires a.Within(b) && b.Within(c)
    ensures a.Within(c)
  {
    assert c.shown[..|a.shown|] == c.shown[..|b.shown|][..|a.shown|];
    assert c.rejected[..|a.rejected|] == c.rejected[..|b.rejected|][..|a.rejected|];
  }

  /** Feeding two pieces one after the other is feeding them joined: only the bytes matter, not how they arrive. */
  lemma {:induction false} FeedAppend(d: Decoder, a: seq<byte>, b: seq<byte>)
    requires d.Inv()
    ensures Feed(d, a + b) == Feed(Feed(d, a), b)
    decreases |b|
  {
    if b != [] {
      var b' := b[..|b| - 1];
      assert (a + b)[..|a + b| - 1] == a + b';
      FeedAppend(d, a, b');
    } else {
      assert a + b == a;
    }
  }

  /** Four length bytes: a zero length is dropped, a valid one starts its payload, a larger one is reported and skipped. */
  lemma FeedFour(d: Decoder, b: seq<byte>)
    requires d.phase == AwaitLength([]) && |b| == LEN_BYTES
    ensures Feed(d, b) ==
              var n := LeValue32(b);
              if n == 0 then d
              else if n < BUFFER_SIZE then d.(phase := AwaitPayload(n, []))
              else d.(phase := Discard(n), rejected := d.rejected + [n])
  {
    assert [] + [b[0]] == [b[0]] && [b[0]] + [b[1]] == [b[0], b[1]];
    assert [b[0], b[1]] + [b[2]] == [b[0], b[1], b[2]] && [b[0], b[1], b[2]] + [b[3]] == b;
    FeedSnoc(d, [], b[0]);
    FeedSnoc(d, [b[0]], b[1]);
    FeedSnoc(d, [b[0], b[1]], b[2]);
    FeedSnoc(d, [b[0], b[1], b[2]], b[3]);
  }

  /** The length field of a frame: a valid length starts its payload, a larger one is reported and skipped. */
  lemma FeedLength(d: Decoder, n: nat)
    requires d.phase == AwaitLength([]) && 0 < n < U32_LIMIT
    ensures Feed(d, LeBytes32(n)) ==
              if n < BUFFER_SIZE then d.(phase := AwaitPayload(n, []))
              else d.(phase := Discard(n), rejected := d.rejected + [n])
  {
    FeedFour(d, LeBytes32(n));
    LeValueOfLeBytes32(n);
  }

  /** The first `j` bytes of a payload are collected; the last one shows the payload up to its first NUL. */
  lemma {:induction false} FeedPayload(d: Decoder, line: seq<byte>, j: nat)
    requires d.phase == AwaitPayload(|line|, []) && ValidLength(|line|) && j <= |line|
    ensures Feed(d, line[..j]) ==
              if j < |line| then d.(phase := AwaitPayload(|line|, line[..j]))
              else d.(phase := AwaitLength([]), shown := d.shown + [UntilNul(line)])
  {
    if j > 0 {
      FeedPayload(d, line, j - 1);
      assert line[..j - 1] + [line[j - 1]] == line[..j];
      FeedSnoc(d, line[..j - 1], line[j - 1]);
      PayloadByte(Feed(d, line[..j - 1]), |line|, line[..j - 1], line[j - 1]);
      if j == |line| {
        assert line[..j] == line;
      }
    } else {
      assert line[..0] == [];
    }
  }

  /** One payload byte: collected, or the last one, which shows the payload up to its first NUL. */
  lemma PayloadByte(d: Decoder, need: nat, got: seq<byte>, b: byte)
    requires d.phase == AwaitPayload(need, got) && ValidLength(need) && |got| < need
    ensures FeedByte(d, b) ==
              if |got| + 1 < need then d.(phase := AwaitPayload(need, got + [b]))
              else d.(phase := AwaitLength([]), shown := d.shown + [UntilNul(got + [b])])
  {
  }

  /** Skipping: after `j` of the `left` bytes, `left - j` remain, and after all of them a new length is read. */
  lemma {:induction false} FeedDiscard(d: Decoder, left: nat, bs: seq<byte>, j: nat)
    requires d.phase == Discard(left) && left > 0 && j <= |bs| == left
    ensures Feed(d, bs[..j]) == if j < left then d.(phase := Discard(left - j)) else d.(phase := AwaitLength([]))
  {
    if j > 0 {
      FeedDiscard(d, left, bs, j - 1);
      assert bs[..j - 1] + [bs[j - 1]] == bs[..j];
      FeedSnoc(d, bs[..j - 1], bs[j - 1]);
    }
  }

  /** A whole frame, starting at a frame boundary, shows or reports its line and ends at the next boundary. */
  lemma FeedFrame(d: Decoder, line: seq<byte>)
    requires d.phase == AwaitLength([]) && |line| < U32_LIMIT
    ensures Feed(d, Frame(line)) ==
              Decoder(AwaitLength([]),
                      d.shown + (if ValidLength(|line|) then [UntilNul(line)] else []),
                      d.rejected + (if |line| >= BUFFER_SIZE then [|line|] else []))
  {
    if line != [] {
      FeedAppend(d, LeBytes32(|line|), line);
      FeedLength(d, |line|);
      var m := Feed(d, LeBytes32(|line|));
      assert line[..|line|] == line;
      if |line| < BUFFER_SIZE {
        FeedPayload(m, line, |line|);
      } else {
        FeedDiscard(m, |line|, line, |line|);
      }
    }
  }

  /** The decoder shows exactly the lines of a valid length and reports exactly the others that are not empty. */
  lemma {:induction false} FramesDecode(lines: seq<seq<byte>>)
    requires Sendable(lines)
    ensures Feed(DECODER_START, Wire(lines)) == Decoder(AwaitLength([]), Shown(lines), Rejected(lines))
  {
    if lines != [] {
      var front := lines[..|lines| - 1];
      assert Sendable(front);
      FramesDecode(front);
      FeedAppend(DECODER_START, Wire(front), Frame(lines[|lines| - 1]));
      FeedFrame(Feed(DECODER_START, Wire(front)), lines[|lines| - 1]);
    }
  }

  // ---------------------------------------------------------------------------
  // The reader loop around the decoder

  /** The decoder, how far into the stream it has read, and `should_exit`. */
  datatype Framer = Framer(dec: Decoder, at: nat, exit: bool)
  {
    predicate Inv(stream: seq<byte>)
    {
      dec.Inv() && at <= |stream|
    }
  }

  const FRAMER_START: Framer := Framer(DECODER_START, 0, false)

  /** How many bytes the next recv asks for: the rest of the length, of the payload, or of what is skipped. */
  function Want(d: Decoder): (n: nat)
    requires d.Inv()
    ensures n > 0
  {
    match d.phase
    case AwaitLength(got) => LEN_BYTES - |got|
    case AwaitPayload(need, got) => need - |got|
    case Discard(left) => Min(left, BUFFER_SIZE)
  }

  /**
   * One recv result: while a length is read the same errors are retried as
   * by recv_thread_func, otherwise the payload read's; a closed connection
   * ends the loop in any phase.
   */
  function FramerStep(f: Framer, stream: seq<byte>, o: Recv): (r: Framer)
    requires f.Inv(stream)
    ensures r.Inv(stream) && f.at <= r.at
  {
    match o
    case RecvError(code) =>
      var retry := if f.dec.phase.AwaitLength? then LengthRetry(code) else PayloadRetry(code);
      if retry then f else f.(exit := true)
    case Deliver(limit) =>
      var n := RecvCount(stream, f.at, Want(f.dec), limit);
      if n == 0 then f.(exit := true) else f.(dec := Feed(f.dec, stream[f.at..f.at + n]), at := f.at + n)
  }

  function FramerRun(stream: seq<byte>, sched: seq<Recv>): (r: Framer)
    ensures r.Inv(stream)
    decreases |sched|
  {
    if sched == [] then FRAMER_START
    else
      var p := FramerRun(stream, sched[..|sched| - 1]);
      if p.exit then p else FramerStep(p, stream, sched[|sched| - 1])
  }

  /**
   * The reassembling reader stops exactly on an error its phase does not
   * retry, or on a recv that returns 0, in the payload phase as well as in
   * the length phase.
   */
  lemma FramerExitIff(f: Framer, stream: seq<byte>, o: Recv)
    requires f.Inv(stream) && !f.exit
    ensures FramerStep(f, stream, o).exit <==>
              || (o.Deliver? && RecvCount(stream, f.at, Want(f.dec), o.limit) == 0)
              || (o.RecvError? && !(if f.dec.phase.AwaitLength? then LengthRetry(o.code) else PayloadRetry(o.code)))
  {
  }

  /**
   * Once the whole stream has been read, the next recv that is not an error
   * ends the reader, whatever phase it is in: a peer that closes mid-frame
   * does not leave it spinning.
   */
  lemma FramerStopsAtClose(stream: seq<byte>, sched: seq<Recv>, k: nat)
    requires k < |sched| && sched[k].Deliver?
    requires FramerRun(stream, sched[..k]).at == |stream|
    ensures FramerRun(stream, sched[..k + 1]).exit
  {
    assert sched[..k + 1][..k] == sched[..k];
  }

  /** Whatever sizes the recv calls return, the decoder has seen exactly the bytes read so far. */
  lemma {:induction false} FramerConsumes(stream: seq<byte>, sched: seq<Recv>)
    ensures FramerRun(stream, sched).dec == Feed(DECODER_START, stream[..FramerRun(stream, sched).at])
    decreases |sched|
  {
    if sched == [] {
      assert stream[..0] == [];
    } else {
      var q := sched[..|sched| - 1];
      FramerConsumes(stream, q);
      var p := FramerRun(stream, q);
      if !p.exit {
        StepConsumes(p, stream, sched[|sched| - 1]);
      }
    }
  }

  lemma StepConsumes(f: Framer, stream: seq<byte>, o: Recv)
    requires f.Inv(stream) && f.dec == Feed(DECODER_START, stream[..f.at])
    ensures FramerStep(f, stream, o).dec == Feed(DECODER_START, stream[..FramerStep(f, stream, o).at])
  {
    if o.Deliver? && RecvCount(stream, f.at, Want(f.dec), o.limit) > 0 {
      DeliveryConsumes(f, stream, o);
    } else {
      FramerStays(f, stream, o);
    }
  }

  lemma DeliveryConsumes(f: Framer, stream: seq<byte>, o: Recv)
    requires f.Inv(stream) && f.dec == Feed(DECODER_START, stream[..f.at])
    requires o.Deliver? && RecvCount(stream, f.at, Want(f.dec), o.limit) > 0
    ensures FramerStep(f, stream, o).dec == Feed(DECODER_START, stream[..FramerStep(f, stream, o).at])
  {
    var n := RecvCount(stream, f.at, Want(f.dec), o.limit);
    FramerDelivers(f, stream, o, n);
    ChunkConsumed(f.dec, stream, f.at, n);
  }

  /** A recv that delivers nothing or fails leaves the decoder and the position as they were. */
  lemma FramerStays(f: Framer, stream: seq<byte>, o: Recv)
    requires f.Inv(stream)
    requires o.Deliver? ==> RecvCount(stream, f.at, Want(f.dec), o.limit) == 0
    ensures FramerStep(f, stream, o).dec == f.dec && FramerStep(f, stream, o).at == f.at
  {
  }

  /** A recv that delivers `n > 0` bytes feeds them to the decoder and moves past them. */
  lemma FramerDelivers(f: Framer, stream: seq<byte>, o: Recv, n: nat)
    requires f.Inv(stream) && o.Deliver? && n == RecvCount(stream, f.at, Want(f.dec), o.limit) && n > 0
    ensures FramerStep(f, stream, o) == f.(dec := Feed(f.dec, stream[f.at..f.at + n]), at := f.at + n)
  {
  }

  lemma ChunkConsumed(d: Decoder, stream: seq<byte>, at: nat, n: nat)
    requires at + n <= |stream| && d == Feed(DECODER_START, stream[..at])
    ensures Feed(d, stream[at..at + n]) == Feed(DECODER_START, stream[..at + n])
  {
    FeedAppend(DECODER_START, stream[..at], stream[at..at + n]);
    assert stream[..at] + stream[at..at + n] == stream[..at + n];
  }

  /**
   * Read from the frames of `lines`, the reader shows a prefix of the lines
   * of a valid length and reports a prefix of the oversized ones, and all of
   * both once it has read the whole stream.
   */
  lemma FramerShowsSent(lines: seq<seq<byte>>, sched: seq<Recv>)
    requires Sendable(lines)
    ensures var f := FramerRun(Wire(lines), sched);
            && f.dec.Within(Decoder(AwaitLength([]), Shown(lines), Rejected(lines)))
            && (f.at == |Wire(lines)| ==> f.dec.shown == Shown(lines) && f.dec.rejected == Rejected(lines))
  {
    var w := Wire(lines);
    FramerConsumes(w, sched);
    FramesDecode(lines);
    PrefixWithin(w, FramerRun(w, sched).at);
  }

  /** What a prefix of the bytes shows and reports is a prefix of what all of them do. */
  lemma PrefixWithin(bs: seq<byte>, at: nat)
    requires at <= |bs|
    ensures Feed(DECODER_START, bs[..at]).Within(Feed(DECODER_START, bs))
    ensures at == |bs| ==> Feed(DECODER_START, bs[..at]) == Feed(DECODER_START, bs)
  {
    FeedAppend(DECODER_START, bs[..at], bs[at..]);
    assert bs[..at] + bs[at..] == bs;
    FeedWithin(Feed(DECODER_START, bs[..at]), bs[at..]);
    assert bs[..|bs|] == bs;
  }

  // ---------------------------------------------------------------------------
  // Two streams on which the as-written reader of module Framing loses frames

  /**
   * The lines "ABCDE" and "F", with the first payload arriving one byte at a
   * time: the as-written reader shows "A", reads "BCDE" as a length and
   * reports it, then shows "F"; the reassembling reader shows both lines.
   */
  lemma ShortReadDesync()
    ensures var lines: seq<seq<byte>> := [[65, 66, 67, 68, 69], [70]];
            var sched := [Deliver(4), Deliver(1), Deliver(4), Deliver(4), Deliver(1)];
            && Sendable(lines) && Shown(lines) == lines
            && Run(Wire(lines), sched).shown == [[65], [70]]
            && Run(Wire(lines), sched).rejected == [0x4544_4342]
  {
    var lines: seq<seq<byte>> := [[65, 66, 67, 68, 69], [70]];
    assert Sendable(lines);
    var w := Wire(lines);
    TwoLineWire(lines, w);
    TwoLinesShown(lines);
    ShortReadTrace(w, [Deliver(4), Deliver(1), Deliver(4), Deliver(4), Deliver(1)]);
  }

  lemma TwoLineWire(lines: seq<seq<byte>>, w: seq<byte>)
    requires lines == [[65, 66, 67, 68, 69], [70]] && Sendable(lines) && w == Wire(lines)
    ensures w == [5, 0, 0, 0, 65, 66, 67, 68, 69, 1, 0, 0, 0, 70]
  {
    assert lines[..1][..0] == [] && lines[..1] == [lines[0]];
    LengthField([5, 0, 0, 0], 5);
    LengthField([1, 0, 0, 0], 1);
    assert Wire(lines[..1]) == [5, 0, 0, 0, 65, 66, 67, 68, 69];
  }

  lemma TwoLinesShown(lines: seq<seq<byte>>)
    requires lines == [[65, 66, 67, 68, 69], [70]]
    ensures Shown(lines) == lines
  {
    ShownPair(lines[0], lines[1]);
    assert lines == [lines[0], lines[1]];
  }

  lemma ShownPair(a: seq<byte>, b: seq<byte>)
    requires ValidLength(|a|) && ValidLength(|b|) && NulFree(a) && NulFree(b)
    ensures Shown([a, b]) == [a, b]
  {
    assert [a, b][..1] == [a] && [a][..0] == [];
    UntilNulOfNulFree(a);
    UntilNulOfNulFree(b);
    assert Shown([a]) == [a];
    assert Shown([a, b]) == Shown([a]) + [UntilNul(b)];
  }

  /** The as-written reader on the two frames, one recv result at a time. */
  lemma ShortReadTrace(w: seq<byte>, sched: seq<Recv>)
    requires w == [5, 0, 0, 0, 65, 66, 67, 68, 69, 1, 0, 0, 0, 70]
    requires sched == [Deliver(4), Deliver(1), Deliver(4), Deliver(4), Deliver(1)]
    ensures Run(w, sched) == Reader([1, 0, 0, 0], 0, 14, [[65], [70]], [0x4544_4342], false)
  {
    var states := [READER_START,
                   Reader([5, 0, 0, 0], 4, 4, [], [], false),
                   Reader([5, 0, 0, 0], 0, 5, [[65]], [], false),
                   Reader([66, 67, 68, 69], 0, 9, [[65]], [0x4544_4342], false),
                   Reader([1, 0, 0, 0], 4, 13, [[65]], [0x4544_4342], false),
                   Reader([1, 0, 0, 0], 0, 14, [[65], [70]], [0x4544_4342], false)];
    forall k | 0 <= k < |sched|
      ensures !states[k].exit && states[k].Inv(w) && Step(states[k], w, sched[k]) == states[k + 1]
    {
      if k == 0 {
        ShortReadStep1(w, states[0], states[1]);
      } else if k == 1 {
        ShortReadStep2(w, states[1], states[2]);
      } else if k == 2 {
        ShortReadStep3(w, states[2], states[3]);
      } else if k == 3 {
        ShortReadStep4(w, states[3], states[4]);
      } else {
        ShortReadStep5(w, states[4], states[5]);
      }
    }
    Follows(w, sched, states);
  }

  /** A run through the given states, each the step from the one before. */
  predicate StepsThrough(w: seq<byte>, sched: seq<Recv>, states: seq<Reader>)
  {
    && |states| == |sched| + 1
    && forall k | 0 <= k < |sched| :: !states[k].exit && states[k].Inv(w) && Step(states[k], w, sched[k]) == states[k + 1]
  }

  lemma Follows(w: seq<byte>, sched: seq<Recv>, states: seq<Reader>)
    requires StepsThrough(w, sched, states) && states[0] == READER_START
    ensures Run(w, sched) == states[|sched|]
  {
    RunThrough(w, sched, states, |sched|);
    assert sched[..|sched|] == sched;
  }

  lemma {:induction false} RunThrough(w: seq<byte>, sched: seq<Recv>, states: seq<Reader>, k: nat)
    requires StepsThrough(w, sched, states) && states[0] == READER_START && k <= |sched|
    ensures Run(w, sched[..k]) == states[k]
  {
    if k == 0 {
      assert sched[..0] == [];
    } else {
      RunThrough(w, sched, states, k - 1);
      RunSnoc(w, sched, k - 1);
    }
  }

  lemma ShortReadStep1(w: seq<byte>, s: Reader, r: Reader)
    requires w == [5, 0, 0, 0, 65, 66, 67, 68, 69, 1, 0, 0, 0, 70]
    requires s == READER_START && r == Reader([5, 0, 0, 0], 4, 4, [], [], false)
    ensures s.Inv(w) && Step(s, w, Deliver(4)) == r
  {
    FullLength(s, w, [5, 0, 0, 0], 5);
  }

  lemma ShortReadStep2(w: seq<byte>, s: Reader, r: Reader)
    requires w == [5, 0, 0, 0, 65, 66, 67, 68, 69, 1, 0, 0, 0, 70]
    requires s == Reader([5, 0, 0, 0], 4, 4, [], [], false) && r == Reader([5, 0, 0, 0], 0, 5, [[65]], [], false)
    ensures s.Inv(w) && Step(s, w, Deliver(1)) == r
  {
    PayloadDelivered(s, w, 1, 1, [65]);
  }

  lemma ShortReadStep3(w: seq<byte>, s: Reader, r: Reader)
    requires w == [5, 0, 0, 0, 65, 66, 67, 68, 69, 1, 0, 0, 0, 70]
    requires s == Reader([5, 0, 0, 0], 0, 5, [[65]], [], false) && r == Reader([66, 67, 68, 69], 0, 9, [[65]], [0x4544_4342], false)
    ensures s.Inv(w) && Step(s, w, Deliver(4)) == r
  {
    FullLength(s, w, [66, 67, 68, 69], 0x4544_4342);
  }

  lemma ShortReadStep4(w: seq<byte>, s: Reader, r: Reader)
    requires w == [5, 0, 0, 0, 65, 66, 67, 68, 69, 1, 0, 0, 0, 70]
    requires s == Reader([66, 67, 68, 69], 0, 9, [[65]], [0x4544_4342], false) && r == Reader([1, 0, 0, 0], 4, 13, [[65]], [0x4544_4342], false)
    ensures s.Inv(w) && Step(s, w, Deliver(4)) == r
  {
    FullLength(s, w, [1, 0, 0, 0], 1);
  }

  lemma ShortReadStep5(w: seq<byte>, s: Reader, r: Reader)
    requires w == [5, 0, 0, 0, 65, 66, 67, 68, 69, 1, 0, 0, 0, 70]
    requires s == Reader([1, 0, 0, 0], 4, 13, [[65]], [0x4544_4342], false) && r == Reader([1, 0, 0, 0], 0, 14, [[65], [70]], [0x4544_4342], false)
    ensures s.Inv(w) && Step(s, w, Deliver(1)) == r
  {
    PayloadDelivered(s, w, 1, 1, [70]);
  }

  /**
   * One line of BUFFER_SIZE bytes that begins with the bytes 1, 0, 0, 0 and
   * 'X': the as-written reader reports its length, then reads its first 4
   * bytes as a length of 1 and shows "X", a text the peer never sent as a
   * line; the reassembling reader shows nothing for it.
   */
  lemma OversizedDesync(line: seq<byte>)
    requires |line| == BUFFER_SIZE && line[..5] == [1, 0, 0, 0, 88]
    ensures var sched := [Deliver(4), Deliver(4), Deliver(1)];
            && Sendable([line]) && Shown([line]) == [] && Rejected([line]) == [BUFFER_SIZE]
            && Run(Wire([line]), sched).shown == [[88]]
            && Run(Wire([line]), sched).rejected == [BUFFER_SIZE]
  {
    OneLongLine(line);
    var w := Wire([line]);
    LongLineStart(line, w);
    OversizedTrace(w, [Deliver(4), Deliver(4), Deliver(1)]);
  }

  lemma LongLineStart(line: seq<byte>, w: seq<byte>)
    requires |line| == BUFFER_SIZE && line[..5] == [1, 0, 0, 0, 88] && w == [0, 4, 0, 0] + line
    ensures |w| >= 9 && w[..9] == [0, 4, 0, 0, 1, 0, 0, 0, 88]
  {
    assert w[4..9] == line[..5];
  }

  /** The length field `b` of a frame whose line is `n` bytes long. */
  lemma LengthField(b: seq<byte>, n: nat)
    requires |b| == 4 && n == b[0] as nat + 0x100 * (b[1] as nat + 0x100 * (b[2] as nat + 0x100 * b[3] as nat))
    ensures n < U32_LIMIT && LeBytes32(n) == b
  {
    LeValueDigits(b);
    LeBytesOfLeValue32(b);
  }

  lemma OneLongLine(line: seq<byte>)
    requires |line| == BUFFER_SIZE
    ensures Sendable([line]) && Wire([line]) == [0, 4, 0, 0] + line
    ensures Shown([line]) == [] && Rejected([line]) == [BUFFER_SIZE]
  {
    assert [line][..0] == [] && [line][0] == line;
    LengthField([0, 4, 0, 0], 1024);
    assert Wire([line]) == Wire([]) + Frame(line);
    assert Rejected([line]) == Rejected([]) + [|line|];
  }

  lemma OversizedTrace(w: seq<byte>, sched: seq<Recv>)
    requires |w| >= 9 && w[..9] == [0, 4, 0, 0, 1, 0, 0, 0, 88]
    requires sched == [Deliver(4), Deliver(4), Deliver(1)]
    ensures Run(w, sched) == Reader([1, 0, 0, 0], 0, 9, [[88]], [1024], false)
  {
    var states := [READER_START,
                   Reader([0, 4, 0, 0], 0, 4, [], [1024], false),
                   Reader([1, 0, 0, 0], 4, 8, [], [1024], false),
                   Reader([1, 0, 0, 0], 0, 9, [[88]], [1024], false)];
    forall k | 0 <= k < |sched|
      ensures !states[k].exit && states[k].Inv(w) && Step(states[k], w, sched[k]) == states[k + 1]
    {
      if k == 0 {
        OversizedStep1(w, states[0], states[1]);
      } else if k == 1 {
        OversizedStep2(w, states[1], states[2]);
      } else {
        OversizedStep3(w, states[2], states[3]);
      }
    }
    Follows(w, sched, states);
  }

  lemma OversizedStep1(w: seq<byte>, s: Reader, r: Reader)
    requires |w| >= 9 && w[..9] == [0, 4, 0, 0, 1, 0, 0, 0, 88]
    requires s == READER_START && r == Reader([0, 4, 0, 0], 0, 4, [], [1024], false)
    ensures s.Inv(w) && Step(s, w, Deliver(4)) == r
  {
    assert w[0..4] == w[..9][0..4];
    FullLength(s, w, [0, 4, 0, 0], 1024);
  }

  lemma OversizedStep2(w: seq<byte>, s: Reader, r: Reader)
    requires |w| >= 9 && w[..9] == [0, 4, 0, 0, 1, 0, 0, 0, 88]
    requires s == Reader([0, 4, 0, 0], 0, 4, [], [1024], false) && r == Reader([1, 0, 0, 0], 4, 8, [], [1024], false)
    ensures s.Inv(w) && Step(s, w, Deliver(4)) == r
  {
    assert w[4..8] == w[..9][4..8];
    FullLength(s, w, [1, 0, 0, 0], 1);
  }

  lemma OversizedStep3(w: seq<byte>, s: Reader, r: Reader)
    requires |w| >= 9 && w[..9] == [0, 4, 0, 0, 1, 0, 0, 0, 88]
    requires s == Reader([1, 0, 0, 0], 4, 8, [], [1024], false) && r == Reader([1, 0, 0, 0], 0, 9, [[88]], [1024], false)
    ensures s.Inv(w) && Step(s, w, Deliver(1)) == r
  {
    assert w[8..9] == w[..9][8..9];
    PayloadDelivered(s, w, 1, 1, [88]);
  }

  /** A length read that gets all 4 bytes `b`, worth `v`, for a reader with none yet. */
  lemma FullLength(s: Reader, w: seq<byte>, b: seq<byte>, v: nat)
    requires s.Inv(w) && s.lenReceived == 0 && s.at + LEN_BYTES <= |w| && w[s.at..s.at + LEN_BYTES] == b
    requires v == b[0] as nat + 0x100 * (b[1] as nat + 0x100 * (b[2] as nat + 0x100 * b[3] as nat))
    ensures LeValue32(b) == v
    ensures Step(s, w, Deliver(4)) == Classify(s.(lenBuf := b, lenReceived := LEN_BYTES, at := s.at + LEN_BYTES))
  {
    LengthDelivered(s, w, 4, 4, s.(lenBuf := b, lenReceived := 4, at := s.at + 4));
    LeValueDigits(b);
  }
}
