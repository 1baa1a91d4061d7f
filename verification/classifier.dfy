/** ttyreader_kissprocess: classification of one received KISS frame
    (command byte, sub-channel binding, BPQ XOR or SMACK CRC trailer, minimum
    length) and the decision between forwarding and dropping it. */
module Classifier {
  import opened Bytes
  import opened Lines
  import opened WriteBuffer

  /** Why a frame was dropped, or that it reached ax25_to_tnc2. */
  datatype Verdict =
    | BadCommand        // non-zero low nibble in the command byte
    | NoInterface       // no callsign bound to the sub-channel
    | BadChecksum       // BPQ XOR or SMACK CRC16 mismatch
    | BadSmackCommand   // the catch-all of the SMACK branch
    | TooShort          // fewer than 17 bytes after trailer stripping
    | Rejected          // ax25_to_tnc2 refused the frame
    | Forwarded         // ax25_to_tnc2 accepted the frame

  predicate IsDrop(v: Verdict) {
    v == BadCommand || v == NoInterface || v == BadChecksum || v == BadSmackCommand || v == TooShort
  }

  datatype Processed = Processed(line: Line, events: seq<Event>, verdict: Verdict)

  /** The SMACK flag bit of a command byte. */
  predicate SmackFlag(cmd: byte) {
    cmd & 0x8F == 0x80
  }

  /** Size of the SMACK probe buffer handed to kissencoder. */
  const ProbeSpace: nat := 12

  /** Flow-rate limited SMACK activation probe: a one-byte 0x00 frame with the
      SMACK flag set, queued only when the sub-channel's probe deadline has
      passed and the encoded probe fits; only then is the deadline advanced. */
  function Probe(l: Line, t: nat, cmd: byte, now: int, io: Io): (r: Line)
    requires Valid(l)
    requires t < SubChannels
    ensures Valid(r)
    ensures r.(wrbuf := l.wrbuf, wrcursor := l.wrcursor, smackProbe := l.smackProbe) == l
  {
    if l.smackProbe[t] < now then
      var (l1, fits) := Enqueue(l, io.kissEncode(ProbeSpace, [0x00], cmd | 0x80));
      if fits then LineWrite(l1, io).(smackProbe := l.smackProbe[t := now + ProbeInterval])
      else l
    else l
  }

  /** The common tail of ttyreader_kissprocess for a frame whose first `len`
      bytes (command byte included) are its payload: the 17-byte minimum,
      the RX count, the hand-over to ax25_to_tnc2 and, on acceptance, to the
      internal AX.25 network; on rejection one DROP is counted as well. */
  function Deliver(l: Line, frame: seq<byte>, len: int, t: nat, io: Io): (r: Processed)
    requires t < SubChannels && |l.callsigns| == SubChannels && |l.netax25| == SubChannels
    requires len <= |frame|
    ensures r.line == l
  {
    var call := l.callsigns[t];
    if len < MinFrame then Processed(l, [Account(call, Drop, len)], TooShort)
    else
      var body := frame[1..len];
      var accepted := [Account(call, Rx, len), ToTnc2(call, t, frame[0], body)];
      if io.ax25ToTnc2(call, t, frame[0], body) then
        Processed(l, accepted + (if l.netax25[t].Some? then [ToNetAx25(l.netax25[t].value, body)] else []), Forwarded)
      else Processed(l, accepted + [Account(call, Drop, len)], Rejected)
  }

  /** The BPQ branch: the XOR of every byte after the command byte must be 0,
      and the sum byte is then stripped. */
  function XorProcess(l: Line, frame: seq<byte>, t: nat, io: Io): (r: Processed)
    requires Valid(l)
    requires |frame| > 0 && t < SubChannels
    ensures r.line == l
  {
    if XorAll(frame[1..]) != 0 then Processed(l, [Account(l.callsigns[t], Drop, |frame|)], BadChecksum)
    else Deliver(l, frame, |frame| - 1, t, io)
  }

  /** The SMACK branch on the sub-channel `t` (the tncid with its top bit
      chopped off): callsign check; with the flag set the SMACK bit is set and
      the CRC16 over the whole frame must be 0 (two trailer bytes stripped);
      with the flag clear the bit is cleared and a probe may be queued. */
  function SmackProcess(l: Line, frame: seq<byte>, t: nat, now: int, io: Io): (r: Processed)
    requires Valid(l)
    requires |frame| > 0 && t < 8
    requires frame[0] & 0x0F == 0
    ensures Valid(r.line)
    ensures r.verdict != BadSmackCommand
    ensures r.line.(wrbuf := l.wrbuf, wrcursor := l.wrcursor, smackSubids := l.smackSubids,
                    smackProbe := l.smackProbe) == l
  {
    var cmd := frame[0];
    var drop := Account(l.callsigns[t], Drop, |frame|);
    if l.callsigns[t].None? then Processed(l, [drop], NoInterface)
    else if SmackFlag(cmd) then
      var l1 := l.(smackSubids := l.smackSubids + {t});
      if io.crc16(frame) != 0 then Processed(l1, [drop], BadChecksum)
      else Deliver(l1, frame, |frame| - 2, t, io)
    else if cmd & 0x8F == 0x00 then
      Deliver(Probe(l.(smackSubids := l.smackSubids - {t}), t, cmd, now, io), frame, |frame|, t, io)
    else Processed(l, [drop], BadSmackCommand)
  }

  /** ttyreader_kissprocess on a frame `frame` (command byte first). The
      line-type checks of the source are mutually exclusive, so testing the
      SMACK dialect first changes nothing. */
  function KissProcess(l: Line, frame: seq<byte>, now: int, io: Io): (r: Processed)
    requires Valid(l)
    requires |frame| > 0
    ensures Valid(r.line)
    ensures r.verdict != BadSmackCommand
    ensures r.line.(wrbuf := l.wrbuf, wrcursor := l.wrcursor, smackSubids := l.smackSubids,
                    smackProbe := l.smackProbe) == l
  {
    var cmd := frame[0];
    var t4 := SubChannel(cmd, PlainKiss);
    if cmd & 0x0F != 0 then Processed(l, [Account(l.callsigns[t4], Drop, |frame|)], BadCommand)
    else if l.lineType == KissSmack then SmackProcess(l, frame, SubChannel(cmd, KissSmack), now, io)
    else if (l.lineType == PlainKiss || l.lineType == KissXor) && l.callsigns[t4].None? then
      Processed(l, [Account(l.callsigns[t4], Drop, |frame|)], NoInterface)
    else if l.lineType == KissXor then XorProcess(l, frame, t4, io)
    else Deliver(l, frame, |frame|, t4, io)
  }

  // ---------------------------------------------------------------------------
  // Reference definition of the acceptance rule

  /** Trailer bytes stripped before the length check. */
  function TrailerLength(t: LineType, cmd: byte): nat {
    if t == KissXor then 1 else if t == KissSmack && SmackFlag(cmd) then 2 else 0
  }

  /** The trailer check of the line's dialect. */
  predicate TrailerOk(t: LineType, frame: seq<byte>, io: Io)
    requires |frame| > 0
  {
    && (t == KissXor ==> XorAll(frame[1..]) == 0)
    && (t == KissSmack && SmackFlag(frame[0]) ==> io.crc16(frame) == 0)
  }

  /** A frame is handed to ax25_to_tnc2 exactly when its low nibble is zero,
      a callsign is bound to its sub-channel (on a KISS dialect), its trailer
      checks out and at least 17 bytes remain without the trailer. */
  predicate Admitted(l: Line, frame: seq<byte>, io: Io)
    requires |frame| > 0 && |l.callsigns| == SubChannels
  {
    && frame[0] & 0x0F == 0
    && (IsKiss(l.lineType) ==> l.callsigns[SubChannel(frame[0], l.lineType)].Some?)
    && TrailerOk(l.lineType, frame, io)
    && |frame| - TrailerLength(l.lineType, frame[0]) >= MinFrame
  }

  // ---------------------------------------------------------------------------
  // Lemmas

  lemma SubChannelNibbles(cmd: byte)
    ensures SubChannel(cmd, KissSmack) == ((cmd >> 4) & 0x07) as nat
    ensures SubChannel(cmd, PlainKiss) == ((cmd >> 4) & 0x0F) as nat
    ensures cmd & 0x0F == 0 ==> (cmd & 0x8F == 0x80 || cmd & 0x8F == 0x00)
  {
  }

  /** The outcome of a frame handed to ax25_to_tnc2: one RX of `len` bytes,
      the hand-over of `body` on sub-channel `t`, and then, as the
      collaborator's answer `ok` decides, either a copy to the bound AX.25
      network handle (if any) or one more DROP. */
  predicate Handed(r: Processed, call: Option<string>, t: nat, cmd: byte, body: seq<byte>, len: int,
                   handle: Option<nat>, ok: bool)
  {
    && |r.events| >= 2
    && r.events[..2] == [Account(call, Rx, len), ToTnc2(call, t, cmd, body)]
    && (r.verdict == Forwarded || r.verdict == Rejected)
    && (r.verdict == Forwarded <==> ok)
    && (r.verdict == Forwarded ==> r.events[2..] == (if handle.Some? then [ToNetAx25(handle.value, body)] else []))
    && (r.verdict == Rejected ==> r.events[2..] == [Account(call, Drop, len)])
  }

  /** The tail either refuses a frame shorter than 17 bytes or hands its
      payload (without the command byte) over. */
  lemma DeliverShape(l: Line, frame: seq<byte>, len: int, t: nat, io: Io)
    requires t < SubChannels && |l.callsigns| == SubChannels && |l.netax25| == SubChannels
    requires len <= |frame|
    ensures var r := Deliver(l, frame, len, t, io);
            && (r.verdict == TooShort <==> len < MinFrame)
            && (r.verdict == TooShort ==> r.events == [Account(l.callsigns[t], Drop, len)])
            && (len >= MinFrame ==>
                  var body := frame[1..len];
                  Handed(r, l.callsigns[t], t, frame[0], body, len, l.netax25[t],
                         io.ax25ToTnc2(l.callsigns[t], t, frame[0], body)))
  {
    var r := Deliver(l, frame, len, t, io);
    if len >= MinFrame {
      var body := frame[1..len];
      var accepted := [Account(l.callsigns[t], Rx, len), ToTnc2(l.callsigns[t], t, frame[0], body)];
      assert r.events[..2] == accepted;
      assert r.events[2..] == if r.verdict == Forwarded then
        (if l.netax25[t].Some? then [ToNetAx25(l.netax25[t].value, body)] else [])
      else [Account(l.callsigns[t], Drop, len)];
    }
  }

  /** The two statements of AdmittedIff, as one predicate for its cases. */
  ghost predicate AdmissionOutcome(l: Line, frame: seq<byte>, now: int, io: Io)
    requires Valid(l) && |frame| > 0
  {
    var r := KissProcess(l, frame, now, io);
    var t := SubChannel(frame[0], l.lineType);
    var len := |frame| - TrailerLength(l.lineType, frame[0]);
    && ((r.verdict == Forwarded || r.verdict == Rejected) <==> Admitted(l, frame, io))
    && (Admitted(l, frame, io) ==>
          var body := frame[1..len];
          Handed(r, l.callsigns[t], t, frame[0], body, len, l.netax25[t],
                 io.ax25ToTnc2(l.callsigns[t], t, frame[0], body)))
  }

  /** A frame reaches ax25_to_tnc2 if and only if it is admitted; then one RX
      of the stripped length is counted and the payload without command byte
      and trailer is handed over on the (masked) sub-channel. */
  lemma AdmittedIff(l: Line, frame: seq<byte>, now: int, io: Io)
    requires Valid(l)
    requires |frame| > 0
    ensures var r := KissProcess(l, frame, now, io);
            (r.verdict == Forwarded || r.verdict == Rejected) <==> Admitted(l, frame, io)
    ensures var r := KissProcess(l, frame, now, io);
            var t := SubChannel(frame[0], l.lineType);
            var len := |frame| - TrailerLength(l.lineType, frame[0]);
            Admitted(l, frame, io) ==>
              var body := frame[1..len];
              Handed(r, l.callsigns[t], t, frame[0], body, len, l.netax25[t],
                     io.ax25ToTnc2(l.callsigns[t], t, frame[0], body))
  {
    SubChannelNibbles(frame[0]);
    if frame[0] & 0x0F != 0 {
      assert KissProcess(l, frame, now, io).verdict == BadCommand;
      assert !Admitted(l, frame, io);
    } else if l.lineType == KissSmack {
      AdmittedSmack(l, frame, now, io);
    } else if l.lineType == KissXor {
      AdmittedXor(l, frame, now, io);
    } else {
      AdmittedPlain(l, frame, now, io);
    }
  }

  lemma AdmittedSmack(l: Line, frame: seq<byte>, now: int, io: Io)
    requires Valid(l) && |frame| > 0 && frame[0] & 0x0F == 0 && l.lineType == KissSmack
    ensures AdmissionOutcome(l, frame, now, io)
  {
    var cmd := frame[0];
    SubChannelNibbles(cmd);
    var t := SubChannel(cmd, KissSmack);
    if l.callsigns[t].None? {
      assert KissProcess(l, frame, now, io).verdict == NoInterface;
    } else if SmackFlag(cmd) {
      AdmittedSmackCrc(l, frame, now, io);
    } else {
      AdmittedSmackPlain(l, frame, now, io);
    }
  }

  /** A SMACK frame with the flag set: the CRC decides. */
  lemma AdmittedSmackCrc(l: Line, frame: seq<byte>, now: int, io: Io)
    requires Valid(l) && |frame| > 0 && frame[0] & 0x0F == 0 && l.lineType == KissSmack
    requires SmackFlag(frame[0]) && l.callsigns[SubChannel(frame[0], KissSmack)].Some?
    ensures AdmissionOutcome(l, frame, now, io)
  {
    var t := SubChannel(frame[0], KissSmack);
    var r := KissProcess(l, frame, now, io);
    var l1 := l.(smackSubids := l.smackSubids + {t});
    assert r == SmackProcess(l, frame, t, now, io);
    if io.crc16(frame) != 0 {
      assert r.verdict == BadChecksum;
    } else {
      assert r == Deliver(l1, frame, |frame| - 2, t, io);
      DeliverShape(l1, frame, |frame| - 2, t, io);
    }
  }

  /** A SMACK frame with the flag clear: no trailer, a probe may be queued. */
  lemma AdmittedSmackPlain(l: Line, frame: seq<byte>, now: int, io: Io)
    requires Valid(l) && |frame| > 0 && frame[0] & 0x0F == 0 && l.lineType == KissSmack
    requires !SmackFlag(frame[0]) && l.callsigns[SubChannel(frame[0], KissSmack)].Some?
    ensures AdmissionOutcome(l, frame, now, io)
  {
    var cmd := frame[0];
    SubChannelNibbles(cmd);
    var t := SubChannel(cmd, KissSmack);
    var r := KissProcess(l, frame, now, io);
    var l1 := Probe(l.(smackSubids := l.smackSubids - {t}), t, cmd, now, io);
    assert r == SmackProcess(l, frame, t, now, io);
    assert r == Deliver(l1, frame, |frame|, t, io);
    DeliverShape(l1, frame, |frame|, t, io);
  }

  lemma AdmittedXor(l: Line, frame: seq<byte>, now: int, io: Io)
    requires Valid(l) && |frame| > 0 && frame[0] & 0x0F == 0 && l.lineType == KissXor
    ensures AdmissionOutcome(l, frame, now, io)
  {
    var t := SubChannel(frame[0], KissXor);
    var r := KissProcess(l, frame, now, io);
    if l.callsigns[t].None? {
      assert r.verdict == NoInterface;
    } else {
      assert r == XorProcess(l, frame, t, io);
      if XorAll(frame[1..]) != 0 {
        assert r.verdict == BadChecksum;
      } else {
        assert r == Deliver(l, frame, |frame| - 1, t, io);
        DeliverShape(l, frame, |frame| - 1, t, io);
      }
    }
  }

  lemma AdmittedPlain(l: Line, frame: seq<byte>, now: int, io: Io)
    requires Valid(l) && |frame| > 0 && frame[0] & 0x0F == 0
    requires l.lineType == PlainKiss || l.lineType == Tnc2Text
    ensures AdmissionOutcome(l, frame, now, io)
  {
    var t := SubChannel(frame[0], l.lineType);
    var r := KissProcess(l, frame, now, io);
    if l.lineType == PlainKiss && l.callsigns[t].None? {
      assert r.verdict == NoInterface;
    } else {
      assert r == Deliver(l, frame, |frame|, t, io);
      DeliverShape(l, frame, |frame|, t, io);
    }
  }

  /** Every drop verdict counts one DROP, on the sub-channel the classifier
      looked up, with the length the frame had at that point. */
  lemma DropAccounting(l: Line, frame: seq<byte>, now: int, io: Io)
    requires Valid(l)
    requires |frame| > 0
    ensures var r := KissProcess(l, frame, now, io);
            var t := if frame[0] & 0x0F != 0 then ((frame[0] >> 4) & 0x0F) as nat
                     else SubChannel(frame[0], l.lineType);
            var len := if r.verdict == TooShort then |frame| - TrailerLength(l.lineType, frame[0]) else |frame|;
            IsDrop(r.verdict) ==> r.events == [Account(l.callsigns[t], Drop, len)]
  {
    SubChannelNibbles(frame[0]);
    if frame[0] & 0x0F != 0 {
    } else if l.lineType == KissSmack {
      DropSmack(l, frame, now, io);
    } else if l.lineType == KissXor {
      DropXor(l, frame, now, io);
    } else {
      DropPlain(l, frame, now, io);
    }
  }

  /** DropAccounting on a frame with a clean command nibble, as one predicate
      for its cases. */
  ghost predicate DropOutcome(l: Line, frame: seq<byte>, now: int, io: Io)
    requires Valid(l) && |frame| > 0
  {
    var r := KissProcess(l, frame, now, io);
    var t := SubChannel(frame[0], l.lineType);
    var len := if r.verdict == TooShort then |frame| - TrailerLength(l.lineType, frame[0]) else |frame|;
    IsDrop(r.verdict) ==> r.events == [Account(l.callsigns[t], Drop, len)]
  }

  lemma DropSmack(l: Line, frame: seq<byte>, now: int, io: Io)
    requires Valid(l) && |frame| > 0 && frame[0] & 0x0F == 0 && l.lineType == KissSmack
    ensures DropOutcome(l, frame, now, io)
  {
    var cmd := frame[0];
    SubChannelNibbles(cmd);
    var t := SubChannel(cmd, KissSmack);
    if l.callsigns[t].None? {
      assert KissProcess(l, frame, now, io).verdict == NoInterface;
    } else if SmackFlag(cmd) {
      DropSmackCrc(l, frame, now, io);
    } else {
      DropSmackPlain(l, frame, now, io);
    }
  }

  lemma DropSmackCrc(l: Line, frame: seq<byte>, now: int, io: Io)
    requires Valid(l) && |frame| > 0 && frame[0] & 0x0F == 0 && l.lineType == KissSmack
    requires SmackFlag(frame[0]) && l.callsigns[SubChannel(frame[0], KissSmack)].Some?
    ensures DropOutcome(l, frame, now, io)
  {
    var t := SubChannel(frame[0], KissSmack);
    var r := KissProcess(l, frame, now, io);
    assert r == SmackProcess(l, frame, t, now, io);
    if io.crc16(frame) == 0 {
      assert r == Deliver(l.(smackSubids := l.smackSubids + {t}), frame, |frame| - 2, t, io);
    }
  }

  lemma DropSmackPlain(l: Line, frame: seq<byte>, now: int, io: Io)
    requires Valid(l) && |frame| > 0 && frame[0] & 0x0F == 0 && l.lineType == KissSmack
    requires !SmackFlag(frame[0]) && l.callsigns[SubChannel(frame[0], KissSmack)].Some?
    ensures DropOutcome(l, frame, now, io)
  {
    var cmd := frame[0];
    SubChannelNibbles(cmd);
    var t := SubChannel(cmd, KissSmack);
    var r := KissProcess(l, frame, now, io);
    var l1 := Probe(l.(smackSubids := l.smackSubids - {t}), t, cmd, now, io);
    assert r == SmackProcess(l, frame, t, now, io);
    assert r == Deliver(l1, frame, |frame|, t, io);
  }

  lemma DropXor(l: Line, frame: seq<byte>, now: int, io: Io)
    requires Valid(l) && |frame| > 0 && frame[0] & 0x0F == 0 && l.lineType == KissXor
    ensures DropOutcome(l, frame, now, io)
  {
    var t := SubChannel(frame[0], KissXor);
    var r := KissProcess(l, frame, now, io);
    if l.callsigns[t].Some? {
      assert r == XorProcess(l, frame, t, io);
    }
  }

  lemma DropPlain(l: Line, frame: seq<byte>, now: int, io: Io)
    requires Valid(l) && |frame| > 0 && frame[0] & 0x0F == 0
    requires l.lineType == PlainKiss || l.lineType == Tnc2Text
    ensures DropOutcome(l, frame, now, io)
  {
    var t := SubChannel(frame[0], l.lineType);
    var r := KissProcess(l, frame, now, io);
    if !(l.lineType == PlainKiss && l.callsigns[t].None?) {
      assert r == Deliver(l, frame, |frame|, t, io);
    }
  }

  /** On a SMACK line, a frame that passes the command and callsign checks
      sets its sub-channel's SMACK bit when the flag is on (even if the CRC
      then fails) and clears it when the flag is off; nothing else changes the
      bits. */
  lemma SmackBits(l: Line, frame: seq<byte>, now: int, io: Io)
    requires Valid(l)
    requires |frame| > 0
    ensures var r := KissProcess(l, frame, now, io);
            var t := SubChannel(frame[0], KissSmack);
            if l.lineType == KissSmack && frame[0] & 0x0F == 0 && l.callsigns[t].Some? then
              r.line.smackSubids == (if SmackFlag(frame[0]) then l.smackSubids + {t} else l.smackSubids - {t})
            else r.line.smackSubids == l.smackSubids
  {
    SubChannelNibbles(frame[0]);
  }

  /** A probe is queued (behind what was pending) and the deadline advanced by
      1800 s exactly when the deadline has passed and the probe fits; otherwise
      the line is untouched. */
  lemma ProbeQueued(l: Line, t: nat, cmd: byte, now: int, io: Io)
    requires Valid(l)
    requires t < SubChannels
    ensures var r := Probe(l, t, cmd, now, io);
            var enc := io.kissEncode(ProbeSpace, [0x00], cmd | 0x80);
            var queued := l.smackProbe[t] < now && |l.wrbuf| + |enc| < l.wrbufSize;
            && (queued ==> r.smackProbe == l.smackProbe[t := now + ProbeInterval])
            && (queued ==> var l1 := l.(wrbuf := l.wrbuf + enc);
                           Pending(l1) == Pending(l) + enc && r == LineWrite(l1, io).(smackProbe := r.smackProbe))
            && (!queued ==> r == l)
  {
  }

  /** After a probe was queued at `now1`, no further probe goes out on that
      sub-channel until 1800 s have passed. */
  lemma ProbeRateLimited(l: Line, t: nat, cmd1: byte, cmd2: byte, now1: int, now2: int, io: Io)
    requires Valid(l)
    requires t < SubChannels
    requires Probe(l, t, cmd1, now1, io).smackProbe != l.smackProbe
    requires now2 <= now1 + ProbeInterval
    ensures var l1 := Probe(l, t, cmd1, now1, io);
            Probe(l1, t, cmd2, now2, io) == l1
  {
  }

  /** The branch of ttyreader_kissprocess that may queue a probe: a SMACK
      line, a clean command nibble, a bound sub-channel and the flag clear. */
  predicate ProbeBranch(l: Line, cmd: byte)
    requires |l.callsigns| == SubChannels
  {
    && cmd & 0x0F == 0 && l.lineType == KissSmack
    && l.callsigns[SubChannel(cmd, KissSmack)].Some? && !SmackFlag(cmd) && cmd & 0x8F == 0x00
  }

  lemma KissProcessProbeBranch(l: Line, frame: seq<byte>, now: int, io: Io)
    requires Valid(l)
    requires |frame| > 0 && ProbeBranch(l, frame[0])
    ensures var t := SubChannel(frame[0], KissSmack);
            KissProcess(l, frame, now, io).line ==
            Probe(l.(smackSubids := l.smackSubids - {t}), t, frame[0], now, io)
  {
  }

  lemma KissProcessOtherBranch(l: Line, frame: seq<byte>, now: int, io: Io)
    requires Valid(l)
    requires |frame| > 0 && !ProbeBranch(l, frame[0])
    ensures var r := KissProcess(l, frame, now, io).line;
            r.smackProbe == l.smackProbe && r.wrbuf == l.wrbuf && r.wrcursor == l.wrcursor
  {
    SubChannelNibbles(frame[0]);
  }

  /** One frame through ttyreader_kissprocess moves a probe deadline only
      from a past value to `now + ProbeInterval`, and touches the write side
      only when it moves one: nothing is queued without the deadline of its
      sub-channel being advanced. */
  lemma KissProcessProbe(l: Line, frame: seq<byte>, now: int, io: Io)
    requires Valid(l)
    requires |frame| > 0
    ensures var r := KissProcess(l, frame, now, io).line;
            && (forall u :: 0 <= u < SubChannels ==>
                  r.smackProbe[u] == l.smackProbe[u] ||
                  (l.smackProbe[u] < now && r.smackProbe[u] == now + ProbeInterval))
            && (r.smackProbe == l.smackProbe ==> r.wrbuf == l.wrbuf && r.wrcursor == l.wrcursor)
  {
    if ProbeBranch(l, frame[0]) {
      var t := SubChannel(frame[0], KissSmack);
      var l1 := l.(smackSubids := l.smackSubids - {t});
      KissProcessProbeBranch(l, frame, now, io);
      ProbeQueued(l1, t, frame[0], now, io);
    } else {
      KissProcessOtherBranch(l, frame, now, io);
    }
  }

  /** XOR distributes over concatenation. */
  lemma {:induction false} XorAppend(a: seq<byte>, b: seq<byte>)
    ensures XorAll(a + b) == XorAll(a) ^ XorAll(b)
    decreases |a|
  {
    if a == [] {
      assert a + b == b;
    } else {
      assert (a + b)[1..] == a[1..] + b;
      XorAppend(a[1..], b);
    }
  }

  /** A body followed by its own XOR sum passes the BPQ check. */
  lemma XorTrailerAccepted(body: seq<byte>)
    ensures XorAll(body + [XorAll(body)]) == 0
  {
    XorAppend(body, [XorAll(body)]);
    assert XorAll([XorAll(body)]) == XorAll(body) ^ XorAll([]);
  }

  /** Replacing one byte changes the sum by the XOR of the old and new byte. */
  lemma {:induction false} XorUpdate(s: seq<byte>, i: nat, x: byte)
    requires i < |s|
    ensures XorAll(s[i := x]) == XorAll(s) ^ s[i] ^ x
    decreases |s|
  {
    if i > 0 {
      assert s[i := x][1..] == s[1..][i - 1 := x];
      XorUpdate(s[1..], i - 1, x);
    }
  }

  /** Flipping bits of one byte of a frame that passed the BPQ check makes it
      fail. */
  lemma XorDetectsCorruption(s: seq<byte>, i: nat, e: byte)
    requires i < |s| && e != 0
    requires XorAll(s) == 0
    ensures XorAll(s[i := s[i] ^ e]) != 0
  {
    XorUpdate(s, i, s[i] ^ e);
  }

  /** The classifier either leaves the write cursor alone or (after a probe
      was flushed) puts it back at 0. */
  lemma ProcessCursor(l: Line, frame: seq<byte>, now: int, io: Io)
    requires Valid(l)
    requires |frame| > 0
    ensures var r := KissProcess(l, frame, now, io);
            r.line.wrcursor == 0 || r.line.wrcursor == l.wrcursor
  {
    var cmd := frame[0];
    if cmd & 0x0F == 0 && l.lineType == KissSmack {
      var t := SubChannel(cmd, KissSmack);
      var l1 := l.(smackSubids := l.smackSubids - {t});
      assert l1.wrcursor == l.wrcursor;
      ProbeQueued(l1, t, cmd, now, io);
    }
  }
}
