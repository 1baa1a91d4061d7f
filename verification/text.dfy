/** The text-line decoder of ttyreader_pulltext and the TNC2 hand-over of
    ttyreader_pulltnc2: CR/LF framing with a sync-hunt phase and an overflow
    reset, sharing the decoder state with the KISS decoder. */
module Text {
  import opened Bytes
  import opened Kiss

  /** One byte of ttyreader_pulltext. In SyncHunt every byte clears the line
      and a terminator ends the hunt; otherwise a terminator delivers the line
      if it is non-empty and clears it, and any other byte is stored (or, at
      the limit, the line is thrown away and the hunt restarts). */
  function TextStep(d: Decoder, c: byte, limit: nat): Stepped {
    if d.state == SyncHunt then
      Stepped(Decoder(if IsTerminator(c) then Collecting else SyncHunt, []), None)
    else if IsTerminator(c) then
      Stepped(Decoder(d.state, []), if |d.frame| > 0 then Some(d.frame) else None)
    else Store(d, c, limit)
  }

  /** ttyreader_pulltext over all of `bytes`: the delivered lines, in order. */
  function TextDecode(d: Decoder, bytes: seq<byte>, limit: nat): Decoded
    decreases |bytes|
  {
    if bytes == [] then Decoded(d, [])
    else
      var s := TextStep(d, bytes[0], limit);
      var rest := TextDecode(s.dec, bytes[1..], limit);
      Decoded(rest.dec, (if s.out.Some? then [s.out.value] else []) + rest.frames)
  }

  /** Offset of the first ':' of a line (the end of the TNC2 address part),
      or 0 when there is none. */
  function AddrLen(line: seq<byte>): (n: nat)
    ensures n <= |line|
    ensures COLON in line ==> n < |line| && line[n] == COLON && COLON !in line[..n]
    ensures COLON !in line ==> n == 0
  {
    var k := IndexOf(line, COLON);
    if k < |line| then
      assert forall j :: 0 <= j < k ==> line[..k][j] == line[j];
      k
    else 0
  }

  // ---------------------------------------------------------------------------
  // Reference encoding of a sequence of text lines

  ghost predicate NoTerminator(s: seq<byte>) {
    forall i :: 0 <= i < |s| ==> !IsTerminator(s[i])
  }

  /** Lines that survive the round trip: non-empty, no terminator inside,
      within the length limit. */
  ghost predicate Deliverable(ls: seq<seq<byte>>, limit: nat) {
    forall i :: 0 <= i < |ls| ==> 0 < |ls[i]| <= limit && NoTerminator(ls[i])
  }

  /** Each line followed by the given line ending. */
  function JoinLines(ls: seq<seq<byte>>, ending: seq<byte>): seq<byte> {
    if ls == [] then [] else ls[0] + ending + JoinLines(ls[1..], ending)
  }

  // ---------------------------------------------------------------------------
  // Lemmas

  /** What one byte does: the line bound is kept; a line is delivered exactly
      when a terminator ends a non-empty line outside the hunt, and then it is
      the line collected so far; a terminator always clears the line; while
      hunting the line stays empty and a terminator ends the hunt; any other
      byte is stored while it fits, and at the limit the line is thrown away
      and the hunt restarts. */
  lemma TextStepSpec(d: Decoder, c: byte, limit: nat)
    ensures var r := TextStep(d, c, limit);
      && (|d.frame| <= limit ==> |r.dec.frame| <= limit)
      && (r.out.Some? <==> d.state != SyncHunt && IsTerminator(c) && d.frame != [])
      && (r.out.Some? ==> r.out.value == d.frame)
      && (IsTerminator(c) ==> r.dec.frame == [])
      && (d.state == SyncHunt ==> r.dec.frame == [] && (r.dec.state == SyncHunt <==> !IsTerminator(c)))
      && (d.state != SyncHunt && !IsTerminator(c) && |d.frame| >= limit ==> r.dec == Decoder(SyncHunt, []))
      && (d.state != SyncHunt && !IsTerminator(c) && |d.frame| < limit ==> r.dec == Decoder(d.state, d.frame + [c]))
  {
  }

  /** The decoder is a left fold over the input. */
  lemma {:induction false} TextAppend(d: Decoder, xs: seq<byte>, ys: seq<byte>, limit: nat)
    ensures TextDecode(d, xs + ys, limit) ==
            var a := TextDecode(d, xs, limit);
            var b := TextDecode(a.dec, ys, limit);
            Decoded(b.dec, a.frames + b.frames)
    decreases |xs|
  {
    if xs == [] {
      assert xs + ys == ys;
    } else {
      assert (xs + ys)[0] == xs[0];
      assert (xs + ys)[1..] == xs[1..] + ys;
      var s := TextStep(d, xs[0], limit);
      var out := if s.out.Some? then [s.out.value] else [];
      TextAppend(s.dec, xs[1..], ys, limit);
      var a' := TextDecode(s.dec, xs[1..], limit);
      var b := TextDecode(a'.dec, ys, limit);
      assert TextDecode(d, xs, limit) == Decoded(a'.dec, out + a'.frames);
      assert TextDecode(d, xs + ys, limit) == Decoded(b.dec, out + (a'.frames + b.frames));
      assert out + (a'.frames + b.frames) == (out + a'.frames) + b.frames;
    }
  }

  /** Terminator-free bytes are stored one by one while they fit. */
  lemma {:induction false} TextCollects(st: KissState, acc: seq<byte>, s: seq<byte>, limit: nat)
    requires st != SyncHunt
    requires NoTerminator(s) && |acc| + |s| <= limit
    ensures TextDecode(Decoder(st, acc), s, limit) == Decoded(Decoder(st, acc + s), [])
    decreases |s|
  {
    if s == [] {
      assert acc + s == acc;
    } else {
      assert NoTerminator(s[1..]) by {
        forall i | 0 <= i < |s[1..]| ensures !IsTerminator(s[1..][i]) {
          assert s[1..][i] == s[i + 1];
        }
      }
      TextCollects(st, acc + [s[0]], s[1..], limit);
      assert acc + [s[0]] + s[1..] == acc + s;
    }
  }

  /** A line followed by a terminator is delivered and empties the decoder. */
  lemma LineThenTerminator(st: KissState, line: seq<byte>, c: byte, rest: seq<byte>, limit: nat)
    requires st != SyncHunt && IsTerminator(c)
    requires 0 < |line| <= limit && NoTerminator(line)
    ensures var d := Decoder(st, []);
            var r := TextDecode(d, rest, limit);
            TextDecode(d, line + ([c] + rest), limit) == Decoded(r.dec, [line] + r.frames)
  {
    var d := Decoder(st, []);
    TextAppend(d, line, [c] + rest, limit);
    TextCollects(st, [], line, limit);
    assert [] + line == line;
    assert TextStep(Decoder(st, line), c, limit) == Stepped(d, Some(line));
    assert ([c] + rest)[1..] == rest;
  }

  /** A terminator on an empty line delivers nothing. */
  lemma EmptyTerminator(st: KissState, c: byte, rest: seq<byte>, limit: nat)
    requires st != SyncHunt && IsTerminator(c)
    ensures TextDecode(Decoder(st, []), [c] + rest, limit) == TextDecode(Decoder(st, []), rest, limit)
  {
    assert TextStep(Decoder(st, []), c, limit) == Stepped(Decoder(st, []), None);
    assert ([c] + rest)[1..] == rest;
  }

  /** One line followed by LF or CR LF is delivered and leaves the decoder
      empty; what follows is decoded from there. */
  lemma OneLine(st: KissState, line: seq<byte>, crlf: bool, rest: seq<byte>, limit: nat)
    requires st != SyncHunt
    requires 0 < |line| <= limit && NoTerminator(line)
    ensures var d := Decoder(st, []);
            var r := TextDecode(d, rest, limit);
            TextDecode(d, line + (if crlf then [CR, LF] else [LF]) + rest, limit) == Decoded(r.dec, [line] + r.frames)
  {
    if crlf {
      assert line + [CR, LF] + rest == line + ([CR] + ([LF] + rest));
      LineThenTerminator(st, line, CR, [LF] + rest, limit);
      EmptyTerminator(st, LF, rest, limit);
    } else {
      assert line + [LF] + rest == line + ([LF] + rest);
      LineThenTerminator(st, line, LF, rest, limit);
    }
  }

  lemma DeliverableTail(ls: seq<seq<byte>>, limit: nat)
    requires ls != [] && Deliverable(ls, limit)
    ensures 0 < |ls[0]| <= limit && NoTerminator(ls[0])
    ensures Deliverable(ls[1..], limit)
  {
    forall i | 0 <= i < |ls[1..]| ensures 0 < |ls[1..][i]| <= limit && NoTerminator(ls[1..][i]) {
      assert ls[1..][i] == ls[i + 1];
    }
  }

  /** Lines ended by LF and read from a collecting decoder come back out
      exactly, in order, and leave the decoder empty. */
  lemma {:induction false} TextRoundTrip(st: KissState, ls: seq<seq<byte>>, limit: nat)
    requires st != SyncHunt
    requires Deliverable(ls, limit)
    ensures TextDecode(Decoder(st, []), JoinLines(ls, [LF]), limit) == Decoded(Decoder(st, []), ls)
    decreases |ls|
  {
    if ls != [] {
      DeliverableTail(ls, limit);
      OneLine(st, ls[0], false, JoinLines(ls[1..], [LF]), limit);
      TextRoundTrip(st, ls[1..], limit);
      assert [ls[0]] + ls[1..] == ls;
    }
  }

  /** With CR LF endings the empty line between CR and LF is not delivered:
      the same lines come out. */
  lemma {:induction false} TextRoundTripCrLf(st: KissState, ls: seq<seq<byte>>, limit: nat)
    requires st != SyncHunt
    requires Deliverable(ls, limit)
    ensures TextDecode(Decoder(st, []), JoinLines(ls, [CR, LF]), limit) == Decoded(Decoder(st, []), ls)
    decreases |ls|
  {
    if ls != [] {
      DeliverableTail(ls, limit);
      OneLine(st, ls[0], true, JoinLines(ls[1..], [CR, LF]), limit);
      TextRoundTripCrLf(st, ls[1..], limit);
      assert [ls[0]] + ls[1..] == ls;
    }
  }

  /** While hunting, bytes without a terminator are discarded and the hunt
      goes on; the first terminator ends it with an empty line. */
  lemma {:induction false} TextHunt(s: seq<byte>, c: byte, limit: nat)
    requires NoTerminator(s) && IsTerminator(c)
    ensures TextDecode(Decoder(SyncHunt, []), s, limit) == Decoded(Decoder(SyncHunt, []), [])
    ensures TextDecode(Decoder(SyncHunt, []), s + [c], limit) == Decoded(Decoder(Collecting, []), [])
    decreases |s|
  {
    if s != [] {
      assert NoTerminator(s[1..]) by {
        forall i | 0 <= i < |s[1..]| ensures !IsTerminator(s[1..][i]) {
          assert s[1..][i] == s[i + 1];
        }
      }
      TextHunt(s[1..], c, limit);
      assert (s + [c])[1..] == s[1..] + [c];
    }
  }

  /** A line longer than the limit is never delivered: it is thrown away,
      the hunt restarts, and the rest of that line is discarded. */
  lemma TextOverflowDiscards(st: KissState, line: seq<byte>, c: byte, limit: nat)
    requires st != SyncHunt
    requires NoTerminator(line) && |line| > limit && IsTerminator(c)
    ensures TextDecode(Decoder(st, []), line + [c], limit) == Decoded(Decoder(Collecting, []), [])
  {
    var head, b, rest := line[..limit], line[limit], line[limit + 1..];
    assert line == head + [b] + rest;
    assert NoTerminator(head) by {
      forall i | 0 <= i < limit ensures !IsTerminator(head[i]) {
        assert head[i] == line[i];
      }
    }
    assert NoTerminator(rest) by {
      forall i | 0 <= i < |rest| ensures !IsTerminator(rest[i]) {
        assert rest[i] == line[limit + 1 + i];
      }
    }
    TextCollects(st, [], head, limit);
    assert [] + head == head;
    var tail := [b] + (rest + [c]);
    assert line + [c] == head + tail;
    TextAppend(Decoder(st, []), head, tail, limit);
    assert tail[0] == b && tail[1..] == rest + [c];
    assert TextStep(Decoder(st, head), b, limit) == Stepped(Decoder(SyncHunt, []), None);
    TextHunt(rest, c, limit);
    assert TextDecode(Decoder(st, head), tail, limit) == Decoded(Decoder(Collecting, []), []);
  }

  /** The line bound is kept whatever the input. */
  lemma {:induction false} TextLimit(d: Decoder, bytes: seq<byte>, limit: nat)
    requires |d.frame| <= limit
    ensures |TextDecode(d, bytes, limit).dec.frame| <= limit
    decreases |bytes|
  {
    if bytes != [] {
      TextLimit(TextStep(d, bytes[0], limit).dec, bytes[1..], limit);
    }
  }

  /** One byte keeps the line free of terminators; a delivered line is
      non-empty, bounded and free of terminators. */
  lemma TextStepBounds(d: Decoder, c: byte, limit: nat)
    requires |d.frame| <= limit && NoTerminator(d.frame)
    ensures var s := TextStep(d, c, limit);
            && NoTerminator(s.dec.frame)
            && (s.out.Some? ==> 0 < |s.out.value| <= limit && NoTerminator(s.out.value))
  {
    var s := TextStep(d, c, limit);
    if !IsTerminator(c) && d.state != SyncHunt && |d.frame| < limit {
      assert s.dec.frame == d.frame + [c];
      forall i | 0 <= i < |s.dec.frame| ensures !IsTerminator(s.dec.frame[i]) {
        if i < |d.frame| { assert s.dec.frame[i] == d.frame[i]; }
      }
    }
  }

  lemma DeliverableConcat(xs: seq<seq<byte>>, ys: seq<seq<byte>>, limit: nat)
    requires Deliverable(xs, limit) && Deliverable(ys, limit)
    ensures Deliverable(xs + ys, limit)
  {
    forall i | 0 <= i < |xs + ys| ensures 0 < |(xs + ys)[i]| <= limit && NoTerminator((xs + ys)[i]) {
      if i >= |xs| { assert (xs + ys)[i] == ys[i - |xs|]; }
    }
  }

  /** The line bound is kept and every delivered line is non-empty, bounded
      and free of terminators. */
  lemma {:induction false} TextBounds(d: Decoder, bytes: seq<byte>, limit: nat)
    requires |d.frame| <= limit && NoTerminator(d.frame)
    ensures var r := TextDecode(d, bytes, limit);
            |r.dec.frame| <= limit && NoTerminator(r.dec.frame) && Deliverable(r.frames, limit)
    decreases |bytes|
  {
    if bytes != [] {
      var s := TextStep(d, bytes[0], limit);
      TextStepBounds(d, bytes[0], limit);
      TextBounds(s.dec, bytes[1..], limit);
      var rest := TextDecode(s.dec, bytes[1..], limit);
      var out := if s.out.Some? then [s.out.value] else [];
      DeliverableConcat(out, rest.frames, limit);
    }
  }
}
