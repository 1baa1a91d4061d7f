/** The read side of a line: ttyreader_lineread with its read-buffer
    compaction, the end-of-file close, and the dispatch to the KISS puller
    (decoder plus ttyreader_kissprocess per frame) or the text puller. */
module Reader {
  import opened Bytes
  import opened Kiss
  import opened Text
  import opened Lines
  import opened Classifier

  /** Frames the classifier may be given: none is empty. */
  ghost predicate NonEmptyFrames(fs: seq<seq<byte>>) {
    forall i :: 0 <= i < |fs| ==> |fs[i]| > 0
  }

  /** ttyreader_kissprocess applied to each decoded frame in order, threading
      the line (SMACK bits, probe deadlines, write buffer) through. */
  function ProcessAll(l: Line, fs: seq<seq<byte>>, now: int, io: Io): (r: Step)
    requires Valid(l)
    requires NonEmptyFrames(fs)
    ensures Valid(r.line)
    ensures r.line.wrcursor == 0 || r.line.wrcursor == l.wrcursor
    ensures r.line.(wrbuf := l.wrbuf, wrcursor := l.wrcursor, smackSubids := l.smackSubids,
                    smackProbe := l.smackProbe) == l
    decreases |fs|
  {
    if fs == [] then Step(l, [])
    else
      var p := KissProcess(l, fs[0], now, io);
      assert NonEmptyFrames(fs[1..]) by {
        forall i | 0 <= i < |fs[1..]| ensures |fs[1..][i]| > 0 {
          assert fs[1..][i] == fs[i + 1];
        }
      }
      ProcessCursor(l, fs[0], now, io);
      var rest := ProcessAll(p.line, fs[1..], now, io);
      Step(rest.line, p.events + rest.events)
  }

  /** The unread bytes moved to offset 0 (`memcpy` of rdbuf[rdcursor..rdlen]). */
  function Compact(l: Line): (r: Line)
    requires Valid(l)
    ensures Valid(r)
    ensures r.rdcursor == 0 && r.rdbuf == l.rdbuf[l.rdcursor..]
    ensures r.(rdbuf := l.rdbuf, rdcursor := l.rdcursor) == l
  {
    if l.rdcursor > 0 then l.(rdbuf := l.rdbuf[l.rdcursor..], rdcursor := 0) else l
  }

  /** The decoder as stored in the line. */
  function DecoderOf(l: Line): Decoder {
    Decoder(l.kissState, l.rdline)
  }

  /** ttyreader_pullkiss: every unread byte goes through the KISS decoder, the
      read buffer ends up empty, and each completed frame is classified. The
      decoder is the corrected one (DecodeResync), which hunts for a FEND
      after an oversize frame; Kiss.Decode is the loop as written. */
  function PullKiss(l: Line, now: int, io: Io): (r: Step)
    requires Valid(l)
    ensures Valid(r.line)
    ensures r.line.rdbuf == [] && r.line.rdcursor == 0
    ensures r.line.wrcursor == 0 || r.line.wrcursor == l.wrcursor
    ensures r.line.fd == l.fd && r.line.waitUntil == l.waitUntil
  {
    var dec := DecodeResync(DecoderOf(l), l.rdbuf[l.rdcursor..], FrameLimit(l));
    DecodeResyncBounds(DecoderOf(l), l.rdbuf[l.rdcursor..], FrameLimit(l));
    var l1 := l.(rdbuf := [], rdcursor := 0, kissState := dec.dec.state, rdline := dec.dec.frame);
    ProcessAll(l1, dec.frames, now, io)
  }

  /** ttyreader_pulltnc2 for each delivered line: one RX of the line's length
      and the hand-over to the APRS-IS gate with the address length, both on
      the callsign of sub-channel 0. */
  function TextEvents(call: Option<string>, lines: seq<seq<byte>>): seq<Event> {
    if lines == [] then []
    else [Account(call, Rx, |lines[0]|), ToAprsis(call, lines[0], AddrLen(lines[0]))] + TextEvents(call, lines[1..])
  }

  /** ttyreader_pulltext: every unread byte goes through the text decoder and
      each delivered line is handed on when the line is a TNC2 line. */
  function PullText(l: Line): (r: Step)
    requires Valid(l)
    ensures Valid(r.line)
    ensures r.line.rdbuf == [] && r.line.rdcursor == 0
  {
    var dec := TextDecode(DecoderOf(l), l.rdbuf[l.rdcursor..], FrameLimit(l));
    TextLimit(DecoderOf(l), l.rdbuf[l.rdcursor..], FrameLimit(l));
    Step(l.(rdbuf := [], rdcursor := 0, kissState := dec.dec.state, rdline := dec.dec.frame),
         if l.lineType == Tnc2Text then TextEvents(l.callsigns[0], dec.frames) else [])
  }

  /** The processing half of ttyreader_lineread: plain KISS and SMACK lines go
      to the KISS puller, TNC2 lines to the text puller, and any other line
      type (the BPQ XOR dialect) is closed for a retry; then the read buffer
      is compacted. */
  function Dispatch(l: Line, now: int, io: Io): (r: Step)
    requires Valid(l)
    ensures Valid(r.line) && r.line.rdcursor == 0
    ensures r.line.wrcursor == 0 || r.line.wrcursor == l.wrcursor
    ensures (r.line.fd == l.fd && r.line.waitUntil == l.waitUntil) ||
            (r.line.fd == -1 && r.line.waitUntil == now + RetryDelay)
  {
    var s := if l.lineType == PlainKiss || l.lineType == KissSmack then PullKiss(l, now, io)
             else if l.lineType == Tnc2Text then PullText(l)
             else Step(l.(fd := -1, waitUntil := now + RetryDelay), []);
    Step(Compact(s.line), s.events)
  }

  /** ttyreader_lineread: compaction, one read(2) into the free space (end of
      file closes the line for a 30 s retry, a failure changes nothing more),
      then processing of everything unread. */
  function LineRead(l: Line, now: int, io: Io): (r: Step)
    requires Valid(l)
    ensures Valid(r.line) && r.line.rdcursor == 0
    ensures r.line.rdbufSize == l.rdbufSize && r.line.wrbufSize == l.wrbufSize && r.line.rdlineSize == l.rdlineSize
    ensures r.line.name == l.name && r.line.lineType == l.lineType && r.line.callsigns == l.callsigns
    ensures r.line.wrcursor == 0 || r.line.wrcursor == l.wrcursor
    ensures (r.line.fd == l.fd && r.line.waitUntil == l.waitUntil) ||
            (r.line.fd == -1 && r.line.waitUntil == now + RetryDelay)
  {
    var l0 := Compact(l);
    var space := l0.rdbufSize - |l0.rdbuf|;
    if space > 0 then
      match io.read(l0.fd, space)
      case ReadFailed => Step(l0, [])
      case ReadBytes(bs) =>
        if bs == [] then Step(l0.(fd := -1, waitUntil := now + RetryDelay), [])
        else Dispatch(l0.(rdbuf := l0.rdbuf + bs, lastRead := now), now, io)
    else Dispatch(l0, now, io)
  }

  // ---------------------------------------------------------------------------
  // Lemmas

  /** End of file closes the line for a retry in 30 s; the unread bytes stay
      in the buffer and nothing is processed. */
  lemma LineReadEof(l: Line, now: int, io: Io)
    requires Valid(l)
    requires |l.rdbuf| - l.rdcursor < l.rdbufSize
    requires io.read(l.fd, l.rdbufSize - (|l.rdbuf| - l.rdcursor)) == ReadBytes([])
    ensures var r := LineRead(l, now, io);
            && r.events == []
            && r.line.fd == -1 && r.line.waitUntil == now + RetryDelay
            && r.line.rdbuf == l.rdbuf[l.rdcursor..]
  {
  }

  /** A failed read leaves the line as it was, apart from the compaction. */
  lemma LineReadFailed(l: Line, now: int, io: Io)
    requires Valid(l)
    requires |l.rdbuf| - l.rdcursor < l.rdbufSize
    requires io.read(l.fd, l.rdbufSize - (|l.rdbuf| - l.rdcursor)) == ReadFailed
    ensures LineRead(l, now, io) == Step(Compact(l), [])
  {
  }

  /** A BPQ XOR line never reaches the KISS puller: once data arrives it is
      closed for a retry, the bytes kept unprocessed. */
  lemma XorLineClosed(l: Line, now: int, io: Io, bs: seq<byte>)
    requires Valid(l) && l.lineType == KissXor
    requires |l.rdbuf| - l.rdcursor < l.rdbufSize
    requires io.read(l.fd, l.rdbufSize - (|l.rdbuf| - l.rdcursor)) == ReadBytes(bs) && bs != []
    ensures var r := LineRead(l, now, io);
            && r.events == []
            && r.line.fd == -1 && r.line.waitUntil == now + RetryDelay
            && r.line.rdbuf == l.rdbuf[l.rdcursor..] + bs
            && r.line.lastRead == now
  {
  }

  /** On a KISS line the decoder sees exactly the unread bytes followed by
      the bytes just read, the read buffer is emptied, and the decoder state
      left behind is the one the decoder ends in. */
  lemma LineReadKiss(l: Line, now: int, io: Io, bs: seq<byte>)
    requires Valid(l) && (l.lineType == PlainKiss || l.lineType == KissSmack)
    requires |l.rdbuf| - l.rdcursor < l.rdbufSize
    requires io.read(l.fd, l.rdbufSize - (|l.rdbuf| - l.rdcursor)) == ReadBytes(bs) && bs != []
    ensures var r := LineRead(l, now, io);
            var dec := DecodeResync(DecoderOf(l), l.rdbuf[l.rdcursor..] + bs, FrameLimit(l));
            && r.line.rdbuf == []
            && DecoderOf(r.line) == dec.dec
            && r.line.fd == l.fd && r.line.lastRead == now
  {
    var l0 := Compact(l);
    var l1 := l0.(rdbuf := l0.rdbuf + bs, lastRead := now);
    assert l1.rdbuf[l1.rdcursor..] == l.rdbuf[l.rdcursor..] + bs;
    assert LineRead(l, now, io) == Dispatch(l1, now, io);
    var s := PullKiss(l1, now, io);
    assert Dispatch(l1, now, io) == Step(Compact(s.line), s.events);
    var dec := DecodeResync(DecoderOf(l1), l1.rdbuf[l1.rdcursor..], FrameLimit(l1));
    assert DecoderOf(s.line) == dec.dec;
  }

  /** The tail's decision depends only on the sub-channel tables. */
  lemma DeliverTables(a: Line, b: Line, frame: seq<byte>, len: int, t: nat, io: Io)
    requires t < SubChannels && |a.callsigns| == SubChannels && |a.netax25| == SubChannels
    requires a.callsigns == b.callsigns && a.netax25 == b.netax25
    requires len <= |frame|
    ensures Deliver(a, frame, len, t, io).events == Deliver(b, frame, len, t, io).events
    ensures Deliver(a, frame, len, t, io).verdict == Deliver(b, frame, len, t, io).verdict
  {
  }

  /** Two lines that differ only in their read side classify a frame alike. */
  ghost predicate SameOutcome(l: Line, l2: Line, f: seq<byte>, now: int, io: Io)
    requires Valid(l) && Valid(l2) && |f| > 0
  {
    && KissProcess(l2, f, now, io).events == KissProcess(l, f, now, io).events
    && KissProcess(l2, f, now, io).verdict == KissProcess(l, f, now, io).verdict
  }

  /** Lines equal but for the read side. */
  ghost predicate ReadSideOnly(l: Line, l2: Line) {
    l2.(rdbuf := l.rdbuf, rdcursor := l.rdcursor, rdline := l.rdline, kissState := l.kissState,
        lastRead := l.lastRead) == l
  }

  /** The classifier does not look at the read side of the line. */
  lemma ProcessIgnoresReadState(l: Line, l2: Line, f: seq<byte>, now: int, io: Io)
    requires Valid(l) && Valid(l2) && |f| > 0
    requires l2.(rdbuf := l.rdbuf, rdcursor := l.rdcursor, rdline := l.rdline, kissState := l.kissState,
                 lastRead := l.lastRead) == l
    ensures KissProcess(l2, f, now, io).events == KissProcess(l, f, now, io).events
    ensures KissProcess(l2, f, now, io).verdict == KissProcess(l, f, now, io).verdict
  {
    assert ReadSideOnly(l, l2);
    if f[0] & 0x0F != 0 {
      assert SameOutcome(l, l2, f, now, io);
    } else if l.lineType == KissSmack {
      IgnoresSmack(l, l2, f, now, io);
    } else if l.lineType == KissXor {
      IgnoresXor(l, l2, f, now, io);
    } else {
      IgnoresPlain(l, l2, f, now, io);
    }
  }

  lemma IgnoresSmack(l: Line, l2: Line, f: seq<byte>, now: int, io: Io)
    requires Valid(l) && Valid(l2) && |f| > 0 && ReadSideOnly(l, l2)
    requires f[0] & 0x0F == 0 && l.lineType == KissSmack
    ensures SameOutcome(l, l2, f, now, io)
  {
    var cmd := f[0];
    var t := SubChannel(cmd, KissSmack);
    assert l2.callsigns == l.callsigns && l2.lineType == l.lineType;
    if l.callsigns[t].None? {
      assert KissProcess(l, f, now, io).verdict == NoInterface;
      assert KissProcess(l2, f, now, io).verdict == NoInterface;
    } else if SmackFlag(cmd) {
      IgnoresSmackCrc(l, l2, f, now, io);
    } else {
      IgnoresSmackPlain(l, l2, f, now, io);
    }
  }

  lemma IgnoresSmackCrc(l: Line, l2: Line, f: seq<byte>, now: int, io: Io)
    requires Valid(l) && Valid(l2) && |f| > 0 && ReadSideOnly(l, l2)
    requires f[0] & 0x0F == 0 && l.lineType == KissSmack
    requires SmackFlag(f[0]) && l.callsigns[SubChannel(f[0], KissSmack)].Some?
    ensures SameOutcome(l, l2, f, now, io)
  {
    var t := SubChannel(f[0], KissSmack);
    assert l2.callsigns == l.callsigns && l2.netax25 == l.netax25 && l2.lineType == l.lineType;
    assert KissProcess(l, f, now, io) == SmackProcess(l, f, t, now, io);
    assert KissProcess(l2, f, now, io) == SmackProcess(l2, f, t, now, io);
    if io.crc16(f) == 0 {
      DeliverTables(l.(smackSubids := l.smackSubids + {t}), l2.(smackSubids := l2.smackSubids + {t}),
                    f, |f| - 2, t, io);
    }
  }

  lemma IgnoresSmackPlain(l: Line, l2: Line, f: seq<byte>, now: int, io: Io)
    requires Valid(l) && Valid(l2) && |f| > 0 && ReadSideOnly(l, l2)
    requires f[0] & 0x0F == 0 && l.lineType == KissSmack
    requires !SmackFlag(f[0]) && l.callsigns[SubChannel(f[0], KissSmack)].Some?
    ensures SameOutcome(l, l2, f, now, io)
  {
    var cmd := f[0];
    SubChannelNibbles(cmd);
    var t := SubChannel(cmd, KissSmack);
    assert l2.callsigns == l.callsigns && l2.netax25 == l.netax25 && l2.lineType == l.lineType;
    var p := Probe(l.(smackSubids := l.smackSubids - {t}), t, cmd, now, io);
    var p2 := Probe(l2.(smackSubids := l2.smackSubids - {t}), t, cmd, now, io);
    assert KissProcess(l, f, now, io) == Deliver(p, f, |f|, t, io);
    assert KissProcess(l2, f, now, io) == Deliver(p2, f, |f|, t, io);
    DeliverTables(p, p2, f, |f|, t, io);
  }

  lemma IgnoresXor(l: Line, l2: Line, f: seq<byte>, now: int, io: Io)
    requires Valid(l) && Valid(l2) && |f| > 0 && ReadSideOnly(l, l2)
    requires f[0] & 0x0F == 0 && l.lineType == KissXor
    ensures SameOutcome(l, l2, f, now, io)
  {
    var t := SubChannel(f[0], KissXor);
    assert l2.callsigns == l.callsigns && l2.netax25 == l.netax25 && l2.lineType == l.lineType;
    if l.callsigns[t].Some? && XorAll(f[1..]) == 0 {
      assert KissProcess(l, f, now, io) == Deliver(l, f, |f| - 1, t, io);
      assert KissProcess(l2, f, now, io) == Deliver(l2, f, |f| - 1, t, io);
      DeliverTables(l, l2, f, |f| - 1, t, io);
    }
  }

  lemma IgnoresPlain(l: Line, l2: Line, f: seq<byte>, now: int, io: Io)
    requires Valid(l) && Valid(l2) && |f| > 0 && ReadSideOnly(l, l2)
    requires f[0] & 0x0F == 0 && (l.lineType == PlainKiss || l.lineType == Tnc2Text)
    ensures SameOutcome(l, l2, f, now, io)
  {
    var t := SubChannel(f[0], PlainKiss);
    assert l2.callsigns == l.callsigns && l2.netax25 == l.netax25 && l2.lineType == l.lineType;
    if !(l.lineType == PlainKiss && l.callsigns[t].None?) {
      assert KissProcess(l, f, now, io) == Deliver(l, f, |f|, t, io);
      assert KissProcess(l2, f, now, io) == Deliver(l2, f, |f|, t, io);
      DeliverTables(l, l2, f, |f|, t, io);
    }
  }

  /** A read into a line with nothing unread fills the buffer with exactly
      the bytes read before the dispatch. */
  lemma ReadFresh(l: Line, bs: seq<byte>, now: int, io: Io)
    requires Valid(l) && l.rdcursor == |l.rdbuf| && l.rdbufSize > 0
    requires io.read(l.fd, l.rdbufSize) == ReadBytes(bs) && bs != []
    ensures Compact(l).rdbuf == []
    ensures LineRead(l, now, io) == Dispatch(Compact(l).(rdbuf := bs, lastRead := now), now, io)
  {
    var l0 := Compact(l);
    assert l0.rdbuf == [] && l0.rdbuf + bs == bs;
  }

  /** The KISS puller on a buffer holding one encoded frame and an idle
      decoder classifies that frame and leaves the decoder empty. */
  lemma PullOneFrame(l: Line, f: seq<byte>, now: int, io: Io)
    requires Valid(l) && l.rdline == [] && l.kissState != Escaped
    requires l.rdcursor == 0 && l.rdbuf == Encode(f) && 0 < |f| <= FrameLimit(l)
    ensures var s := PullKiss(l, now, io);
            s.events == KissProcess(l, f, now, io).events && DecoderOf(s.line) == Empty && s.line.rdbuf == []
  {
    ResyncRoundTrip(f, FrameLimit(l));
    assert l.rdbuf[l.rdcursor..] == Encode(f);
    assert DecodeResync(DecoderOf(l), Encode(f), FrameLimit(l)) == Decoded(Empty, [f]);
    var l2 := l.(rdbuf := [], rdcursor := 0, kissState := Empty.state, rdline := Empty.frame);
    assert PullKiss(l, now, io) == ProcessAll(l2, [f], now, io);
    ProcessIgnoresReadState(l, l2, f, now, io);
    var p := KissProcess(l2, f, now, io);
    assert ProcessAll(l2, [f], now, io) == Step(ProcessAll(p.line, [], now, io).line, p.events + []);
  }

  /** End to end on a plain KISS line: when one read brings exactly one
      KISS-encoded frame into an idle decoder, that frame is classified as it
      stands (same events, same verdict) and the decoder is left empty. */
  lemma ReadOneFrame(l: Line, f: seq<byte>, now: int, io: Io)
    requires Valid(l) && l.lineType == PlainKiss
    requires l.rdline == [] && l.kissState != Escaped && l.rdcursor == |l.rdbuf|
    requires 0 < |f| <= FrameLimit(l) && l.rdbufSize > 0
    requires io.read(l.fd, l.rdbufSize) == ReadBytes(Encode(f))
    ensures var r := LineRead(l, now, io);
            && r.events == KissProcess(l, f, now, io).events
            && DecoderOf(r.line) == Empty && r.line.rdbuf == []
  {
    ReadFresh(l, Encode(f), now, io);
    var l1 := Compact(l).(rdbuf := Encode(f), lastRead := now);
    PullOneFrame(l1, f, now, io);
    ProcessIgnoresReadState(l, l1, f, now, io);
  }

  /** The events of the text puller, two per delivered line, in order. */
  lemma {:induction false} TextEventsShape(call: Option<string>, lines: seq<seq<byte>>)
    ensures |TextEvents(call, lines)| == 2 * |lines|
    ensures forall i :: 0 <= i < |lines| ==>
              TextEvents(call, lines)[2 * i] == Account(call, Rx, |lines[i]|) &&
              TextEvents(call, lines)[2 * i + 1] == ToAprsis(call, lines[i], AddrLen(lines[i]))
  {
    if lines != [] {
      TextEventsShape(call, lines[1..]);
      var e := TextEvents(call, lines);
      var rest := TextEvents(call, lines[1..]);
      forall i | 1 <= i < |lines|
        ensures e[2 * i] == Account(call, Rx, |lines[i]|) && e[2 * i + 1] == ToAprsis(call, lines[i], AddrLen(lines[i]))
      {
        assert e[2 * i] == rest[2 * (i - 1)];
        assert e[2 * i + 1] == rest[2 * (i - 1) + 1];
        assert lines[1..][i - 1] == lines[i];
      }
    }
  }

  /** End to end on a TNC2 line: lines ended by CR LF and read in one go by a
      collecting decoder are each counted and handed to the APRS-IS gate,
      in order. */
  lemma ReadTextLines(l: Line, ls: seq<seq<byte>>, now: int, io: Io)
    requires Valid(l) && l.lineType == Tnc2Text
    requires l.rdline == [] && l.kissState == Collecting && l.rdcursor == |l.rdbuf|
    requires ls != [] && Deliverable(ls, FrameLimit(l)) && l.rdbufSize > 0
    requires io.read(l.fd, l.rdbufSize) == ReadBytes(JoinLines(ls, [CR, LF]))
    ensures var r := LineRead(l, now, io);
            && r.events == TextEvents(l.callsigns[0], ls)
            && DecoderOf(r.line) == Decoder(Collecting, []) && r.line.rdbuf == []
  {
    var bs := JoinLines(ls, [CR, LF]);
    assert bs != [] by {
      assert bs == ls[0] + [CR, LF] + JoinLines(ls[1..], [CR, LF]);
    }
    ReadFresh(l, bs, now, io);
    PullTextLines(Compact(l).(rdbuf := bs, lastRead := now), ls, now, io);
  }

  /** The dispatch of a TNC2 line whose buffer holds the lines, each ended by
      CR LF, and whose decoder is collecting an empty line. */
  lemma PullTextLines(l: Line, ls: seq<seq<byte>>, now: int, io: Io)
    requires Valid(l) && l.lineType == Tnc2Text
    requires l.rdline == [] && l.kissState == Collecting && l.rdcursor == 0
    requires Deliverable(ls, FrameLimit(l)) && l.rdbuf == JoinLines(ls, [CR, LF])
    ensures var r := Dispatch(l, now, io);
            && r.events == TextEvents(l.callsigns[0], ls)
            && DecoderOf(r.line) == Decoder(Collecting, []) && r.line.rdbuf == []
  {
    TextRoundTripCrLf(Collecting, ls, FrameLimit(l));
    assert l.rdbuf[l.rdcursor..] == l.rdbuf;
  }

  // ---------------------------------------------------------------------------
  // The SMACK probe rate over a pass

  /** How many frames of a ProcessAll pass advance the probe deadline of
      sub-channel `u`, that is, queue a probe on it (Classifier.KissProcessProbe:
      nothing is queued otherwise). */
  function ProbesFor(l: Line, fs: seq<seq<byte>>, now: int, io: Io, u: nat): nat
    requires Valid(l) && NonEmptyFrames(fs) && u < SubChannels
    decreases |fs|
  {
    if fs == [] then 0
    else
      var p := KissProcess(l, fs[0], now, io);
      assert NonEmptyFrames(fs[1..]) by {
        forall i | 0 <= i < |fs[1..]| ensures |fs[1..][i]| > 0 {
          assert fs[1..][i] == fs[i + 1];
        }
      }
      (if p.line.smackProbe[u] != l.smackProbe[u] then 1 else 0) + ProbesFor(p.line, fs[1..], now, io, u)
  }

  /** However many frames one read delivers, at most one probe goes out per
      sub-channel, none while its deadline has not passed, and the deadline
      ends up advanced to `now + ProbeInterval` exactly when one went out. */
  lemma {:induction false} ProbeOncePerPass(l: Line, fs: seq<seq<byte>>, now: int, io: Io, u: nat)
    requires Valid(l) && NonEmptyFrames(fs) && u < SubChannels
    ensures var n := ProbesFor(l, fs, now, io, u);
            var r := ProcessAll(l, fs, now, io).line;
            && n <= 1
            && (l.smackProbe[u] >= now ==> n == 0)
            && (n == 0 ==> r.smackProbe[u] == l.smackProbe[u])
            && (n == 1 ==> r.smackProbe[u] == now + ProbeInterval)
    decreases |fs|
  {
    if fs != [] {
      var p := KissProcess(l, fs[0], now, io);
      assert NonEmptyFrames(fs[1..]) by {
        forall i | 0 <= i < |fs[1..]| ensures |fs[1..][i]| > 0 {
          assert fs[1..][i] == fs[i + 1];
        }
      }
      KissProcessProbe(l, fs[0], now, io);
      ProbeOncePerPass(p.line, fs[1..], now, io, u);
      assert ProcessAll(l, fs, now, io).line == ProcessAll(p.line, fs[1..], now, io).line;
    }
  }

  /** Once a pass has probed a sub-channel, a later pass at most 1800 s on
      probes it no more, whatever frames it brings. */
  lemma ProbeRateLimitedPass(l: Line, fs1: seq<seq<byte>>, fs2: seq<seq<byte>>, now1: int, now2: int,
                             io: Io, u: nat)
    requires Valid(l) && NonEmptyFrames(fs1) && NonEmptyFrames(fs2) && u < SubChannels
    requires ProbesFor(l, fs1, now1, io, u) == 1
    requires now2 <= now1 + ProbeInterval
    ensures ProbesFor(ProcessAll(l, fs1, now1, io).line, fs2, now2, io, u) == 0
  {
    ProbeOncePerPass(l, fs1, now1, io, u);
    ProbeOncePerPass(ProcessAll(l, fs1, now1, io).line, fs2, now2, io, u);
  }

  // ---------------------------------------------------------------------------
  // The BPQ XOR dialect at dispatch

  /** As written, a BPQ XOR line holding a complete, well-formed frame is
      closed and the frame is never classified, although the classifier
      would have produced at least one event for it. */
  lemma XorFrameNeverClassified(l: Line, f: seq<byte>, now: int, io: Io)
    requires Valid(l) && l.lineType == KissXor
    requires l.rdline == [] && l.kissState != Escaped
    requires l.rdcursor == 0 && l.rdbuf == Encode(f) && 0 < |f| <= FrameLimit(l)
    ensures var r := Dispatch(l, now, io);
            && r.events == [] && r.line.fd == -1 && r.line.waitUntil == now + RetryDelay
            && r.line.rdbuf == Encode(f)
    ensures KissProcess(l, f, now, io).events != []
  {
    var cmd := f[0];
    if cmd & 0x0F == 0 && l.callsigns[SubChannel(cmd, PlainKiss)].Some? {
      assert KissProcess(l, f, now, io) == XorProcess(l, f, SubChannel(cmd, PlainKiss), io);
    }
  }
}
