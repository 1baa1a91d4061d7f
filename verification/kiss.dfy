/** The KISS stream decoder of ttyreader_pullkiss / ttyreader_getc, as a pure
    state machine over the in-progress frame, plus a reference KISS encoder
    (the repository's own kissencoder lives outside this file and is not part
    of this model) used to state the round trip. */
module Kiss {
  import opened Bytes

  /** The three decoder states; they share one variable with the text decoder. */
  datatype KissState = SyncHunt | Collecting | Escaped

  /** Decoder state plus the in-progress frame (`rdline[0 .. rdlinelen]`). */
  datatype Decoder = Decoder(state: KissState, frame: seq<byte>)

  /** Result of one byte: the new decoder and the frame completed by it, if any. */
  datatype Stepped = Stepped(dec: Decoder, out: Option<seq<byte>>)

  /** Result of a run: the final decoder and every completed frame, in order. */
  datatype Decoded = Decoded(dec: Decoder, frames: seq<seq<byte>>)

  /** The decoder a freshly opened line starts from. */
  const Fresh: Decoder := Decoder(SyncHunt, [])

  /** The decoder right after a frame was dispatched. */
  const Empty: Decoder := Decoder(Collecting, [])

  /** True when byte `c` in decoder `d` is a data byte to be stored
      (as opposed to a FEND, an escape lead-in, or a dropped bad escape). */
  predicate StoresByte(d: Decoder, c: byte) {
    c != FEND && (if d.state == Escaped then c == TFEND || c == TFESC else c != FESC)
  }

  /** True when byte `c` would be stored but the frame is already at the limit. */
  predicate Overflows(d: Decoder, c: byte, limit: nat) {
    StoresByte(d, c) && |d.frame| >= limit
  }

  /** Appends `b` unless the frame has reached `limit` bytes, in which case the
      frame is thrown away and the state becomes SyncHunt. */
  function Store(d: Decoder, b: byte, limit: nat): (r: Stepped)
    ensures r.out == None
    ensures |d.frame| < limit ==> r.dec == Decoder(d.state, d.frame + [b])
    ensures |d.frame| >= limit ==> r.dec == Decoder(SyncHunt, [])
  {
    if |d.frame| >= limit then Stepped(Decoder(SyncHunt, []), None)
    else Stepped(Decoder(d.state, d.frame + [b]), None)
  }

  /** One byte of the collecting loop of ttyreader_pullkiss. The loop does not
      look at the SyncHunt label: a SyncHunt decoder inside the loop behaves
      like a Collecting one until the read buffer runs out. */
  function CollectStep(d: Decoder, c: byte, limit: nat): Stepped {
    if c == FEND then
      if |d.frame| > 0 then Stepped(Empty, Some(d.frame)) else Stepped(d, None)
    else if d.state == Escaped then
      if c == TFEND then Store(Decoder(Collecting, d.frame), FEND, limit)
      else if c == TFESC then Store(Decoder(Collecting, d.frame), FESC, limit)
      else Stepped(Decoder(Collecting, d.frame), None)
    else if c == FESC then Stepped(Decoder(Escaped, d.frame), None)
    else Store(d, c, limit)
  }

  /** The collecting loop run over all of `bytes`. */
  function Collect(d: Decoder, bytes: seq<byte>, limit: nat): Decoded
    decreases |bytes|
  {
    if bytes == [] then Decoded(d, [])
    else
      var s := CollectStep(d, bytes[0], limit);
      var rest := Collect(s.dec, bytes[1..], limit);
      Decoded(rest.dec, (if s.out.Some? then [s.out.value] else []) + rest.frames)
  }

  /** ttyreader_pullkiss over the unread bytes of one read: a decoder that
      enters in SyncHunt first discards everything up to and including the
      first FEND (keeping its frame), then the collecting loop takes over. */
  function Decode(d: Decoder, bytes: seq<byte>, limit: nat): Decoded
  {
    if d.state == SyncHunt then
      var k := IndexOf(bytes, FEND);
      if k == |bytes| then Decoded(d, [])
      else Collect(Decoder(Collecting, d.frame), bytes[k + 1..], limit)
    else Collect(d, bytes, limit)
  }

  /** True when no byte of `bytes` overflows the frame while collecting from `d`. */
  ghost predicate NoOverflow(d: Decoder, bytes: seq<byte>, limit: nat)
    decreases |bytes|
  {
    bytes == [] ||
    (!Overflows(d, bytes[0], limit) && NoOverflow(CollectStep(d, bytes[0], limit).dec, bytes[1..], limit))
  }

  // ---------------------------------------------------------------------------
  // Reference encoder (KISS framing with FEND delimiters and FESC stuffing)

  function EscapeByte(b: byte): (r: seq<byte>)
    ensures FEND !in r
  {
    if b == FEND then [FESC, TFEND]
    else if b == FESC then [FESC, TFESC]
    else [b]
  }

  /** Byte stuffing of a frame body: FEND becomes FESC TFEND, FESC becomes FESC TFESC. */
  function Escape(f: seq<byte>): (r: seq<byte>)
    ensures FEND !in r
    ensures |f| <= |r| <= 2 * |f|
  {
    if f == [] then [] else EscapeByte(f[0]) + Escape(f[1..])
  }

  /** One frame on the wire: FEND, the stuffed bytes, FEND. */
  function Encode(f: seq<byte>): seq<byte> {
    [FEND] + Escape(f) + [FEND]
  }

  /** Several frames back to back (each with its own pair of FENDs). */
  function EncodeAll(fs: seq<seq<byte>>): seq<byte> {
    if fs == [] then [] else Encode(fs[0]) + EncodeAll(fs[1..])
  }

  /** Frames the decoder can carry: non-empty and within the length limit. */
  ghost predicate Carriable(fs: seq<seq<byte>>, limit: nat) {
    forall i :: 0 <= i < |fs| ==> 0 < |fs[i]| <= limit
  }

  /** What one byte does in the collecting loop: the frame bound is kept; a
      frame is emitted exactly on a FEND after a non-empty frame, and it is
      the frame collected so far; a FEND on an empty frame changes nothing;
      an overflow resets to SyncHunt; and the loop never enters SyncHunt
      except through an overflow. FESC starts an escape; after it TFEND and
      TFESC store FEND and FESC, and any other byte but FEND is dropped with
      the state back to collecting. Below the limit a plain data byte is
      appended as it is. */
  lemma CollectStepSpec(d: Decoder, c: byte, limit: nat)
    ensures var r := CollectStep(d, c, limit);
      && (|d.frame| <= limit ==> |r.dec.frame| <= limit)
      && (d.state != Escaped && c == FESC ==> r == Stepped(Decoder(Escaped, d.frame), None))
      && (d.state == Escaped && c != FEND && c != TFEND && c != TFESC ==>
            r == Stepped(Decoder(Collecting, d.frame), None))
      && (d.state == Escaped && (c == TFEND || c == TFESC) && |d.frame| < limit ==>
            r == Stepped(Decoder(Collecting, d.frame + [if c == TFEND then FEND else FESC]), None))
      && (d.state != Escaped && StoresByte(d, c) && |d.frame| < limit ==>
            r == Stepped(Decoder(d.state, d.frame + [c]), None))
      && (r.out.Some? <==> c == FEND && |d.frame| > 0)
      && (r.out.Some? ==> r.out.value == d.frame && r.dec == Empty)
      && (c == FEND && d.frame == [] ==> r.dec == d)
      && (Overflows(d, c, limit) ==> r.dec == Decoder(SyncHunt, []))
      && (d.state != SyncHunt && !Overflows(d, c, limit) ==> r.dec.state != SyncHunt)
  {
  }

  // ---------------------------------------------------------------------------
  // Lemmas

  /** The collecting loop is a left fold: running it over `xs + ys` is running
      it over `xs` and then over `ys` from where it stopped. */
  lemma {:induction false} CollectAppend(d: Decoder, xs: seq<byte>, ys: seq<byte>, limit: nat)
    ensures Collect(d, xs + ys, limit) ==
            var a := Collect(d, xs, limit);
            var b := Collect(a.dec, ys, limit);
            Decoded(b.dec, a.frames + b.frames)
    decreases |xs|
  {
    if xs == [] {
      assert xs + ys == ys;
    } else {
      var s := CollectStep(d, xs[0], limit);
      var out := if s.out.Some? then [s.out.value] else [];
      var a' := Collect(s.dec, xs[1..], limit);
      var b := Collect(a'.dec, ys, limit);
      assert Collect(d, xs, limit) == Decoded(a'.dec, out + a'.frames);
      assert Collect(d, xs + ys, limit) == Decoded(b.dec, out + (a'.frames + b.frames)) by {
        assert (xs + ys)[0] == xs[0];
        assert (xs + ys)[1..] == xs[1..] + ys;
        CollectAppend(s.dec, xs[1..], ys, limit);
      }
      assert out + (a'.frames + b.frames) == (out + a'.frames) + b.frames;
    }
  }

  /** Decoding the stuffed form of `f` from a Collecting decoder appends exactly
      `f` to the in-progress frame, emits nothing and never overflows. */
  lemma CollectEscaped(acc: seq<byte>, f: seq<byte>, limit: nat)
    requires |acc| + |f| <= limit
    ensures Collect(Decoder(Collecting, acc), Escape(f), limit) == Decoded(Decoder(Collecting, acc + f), [])
    ensures NoOverflow(Decoder(Collecting, acc), Escape(f), limit)
  {
    CollectEscapedFrame(acc, f, limit);
    EscapedFits(acc, f, limit);
  }

  lemma {:induction false} CollectEscapedFrame(acc: seq<byte>, f: seq<byte>, limit: nat)
    requires |acc| + |f| <= limit
    ensures Collect(Decoder(Collecting, acc), Escape(f), limit) == Decoded(Decoder(Collecting, acc + f), [])
    decreases |f|
  {
    if f == [] {
      assert acc + f == acc;
    } else {
      var b := f[0];
      CollectEscapeByte(acc, b, limit);
      CollectEscapedFrame(acc + [b], f[1..], limit);
      CollectChain(Decoder(Collecting, acc), EscapeByte(b), Escape(f[1..]), limit,
                   Decoder(Collecting, acc + [b]), Decoder(Collecting, acc + [b] + f[1..]));
      assert Escape(f) == EscapeByte(b) + Escape(f[1..]);
      assert acc + [b] + f[1..] == acc + f;
    }
  }

  /** Two silent runs chain into one silent run. */
  lemma CollectChain(d: Decoder, xs: seq<byte>, ys: seq<byte>, limit: nat, d1: Decoder, d2: Decoder)
    requires Collect(d, xs, limit) == Decoded(d1, [])
    requires Collect(d1, ys, limit) == Decoded(d2, [])
    ensures Collect(d, xs + ys, limit) == Decoded(d2, [])
  {
    CollectAppend(d, xs, ys, limit);
  }

  lemma {:induction false} EscapedFits(acc: seq<byte>, f: seq<byte>, limit: nat)
    requires |acc| + |f| <= limit
    ensures NoOverflow(Decoder(Collecting, acc), Escape(f), limit)
    decreases |f|
  {
    if f != [] {
      var d := Decoder(Collecting, acc);
      var b := f[0];
      var e := EscapeByte(b);
      assert Escape(f) == e + Escape(f[1..]);
      NoOverflowAppend(d, e, Escape(f[1..]), limit);
      CollectEscapeByte(acc, b, limit);
      EscapedFits(acc + [b], f[1..], limit);
    }
  }

  /** One stuffed byte appends that byte to a frame with room for it. */
  lemma CollectEscapeByte(acc: seq<byte>, b: byte, limit: nat)
    requires |acc| < limit
    ensures Collect(Decoder(Collecting, acc), EscapeByte(b), limit) == Decoded(Decoder(Collecting, acc + [b]), [])
    ensures NoOverflow(Decoder(Collecting, acc), EscapeByte(b), limit)
  {
    var d := Decoder(Collecting, acc);
    var d1 := Decoder(Collecting, acc + [b]);
    var mid := Decoder(Escaped, acc);
    if b == FEND {
      assert EscapeByte(b) == [FESC, TFEND];
      assert CollectStep(d, FESC, limit) == Stepped(mid, None);
      assert CollectStep(mid, TFEND, limit) == Stepped(d1, None);
      assert Collect(mid, [TFEND], limit) == Decoded(d1, []);
    } else if b == FESC {
      assert EscapeByte(b) == [FESC, TFESC];
      assert CollectStep(d, FESC, limit) == Stepped(mid, None);
      assert CollectStep(mid, TFESC, limit) == Stepped(d1, None);
      assert Collect(mid, [TFESC], limit) == Decoded(d1, []);
    } else {
      assert EscapeByte(b) == [b];
      assert CollectStep(d, b, limit) == Stepped(d1, None);
    }
  }

  /** NoOverflow splits over a concatenation. */
  lemma {:induction false} NoOverflowAppend(d: Decoder, xs: seq<byte>, ys: seq<byte>, limit: nat)
    ensures NoOverflow(d, xs + ys, limit) <==>
            NoOverflow(d, xs, limit) && NoOverflow(Collect(d, xs, limit).dec, ys, limit)
    decreases |xs|
  {
    if xs == [] {
      assert xs + ys == ys;
    } else {
      assert (xs + ys)[0] == xs[0];
      assert (xs + ys)[1..] == xs[1..] + ys;
      NoOverflowAppend(CollectStep(d, xs[0], limit).dec, xs[1..], ys, limit);
    }
  }

  /** Without an overflow a decoder that is not hunting never starts hunting. */
  lemma {:induction false} NoOverflowKeepsSync(d: Decoder, xs: seq<byte>, limit: nat)
    requires d.state != SyncHunt
    requires NoOverflow(d, xs, limit)
    ensures Collect(d, xs, limit).dec.state != SyncHunt
    decreases |xs|
  {
    if xs != [] {
      NoOverflowKeepsSync(CollectStep(d, xs[0], limit).dec, xs[1..], limit);
    }
  }

  /** Round trip: a non-empty frame of at most `limit` bytes, stuffed and
      bracketed by FENDs, decodes back to itself, both from a freshly opened
      line (SyncHunt) and right after a previous frame (Collecting). */
  lemma RoundTrip(f: seq<byte>, limit: nat)
    requires 0 < |f| <= limit
    ensures Decode(Fresh, Encode(f), limit) == Decoded(Empty, [f])
    ensures Decode(Empty, Encode(f), limit) == Decoded(Empty, [f])
    ensures NoOverflow(Empty, Encode(f), limit)
  {
    var enc := Encode(f);
    assert IndexOf(enc, FEND) == 0;
    assert enc[1..] == Escape(f) + [FEND];
    CollectRoundTrip(f, limit);
    assert enc == [FEND] + (Escape(f) + [FEND]);
    CollectAppend(Empty, [FEND], Escape(f) + [FEND], limit);
    NoOverflowAppend(Empty, [FEND], Escape(f) + [FEND], limit);
  }

  /** The collecting loop alone, over the stuffed frame and its closing FEND. */
  lemma CollectRoundTrip(f: seq<byte>, limit: nat)
    requires 0 < |f| <= limit
    ensures Collect(Empty, Escape(f) + [FEND], limit) == Decoded(Empty, [f])
    ensures NoOverflow(Empty, Escape(f) + [FEND], limit)
  {
    CollectEscaped([], f, limit);
    assert [] + f == f;
    CollectAppend(Empty, Escape(f), [FEND], limit);
    NoOverflowAppend(Empty, Escape(f), [FEND], limit);
    assert Collect(Decoder(Collecting, f), [FEND], limit) == Decoded(Empty, [f]);
  }

  /** Shared-flag and back-to-back framing: a stream of encoded frames yields
      exactly those frames, in order. */
  lemma {:induction false} RoundTripAll(fs: seq<seq<byte>>, limit: nat)
    requires Carriable(fs, limit)
    ensures Collect(Empty, EncodeAll(fs), limit) == Decoded(Empty, fs)
    ensures NoOverflow(Empty, EncodeAll(fs), limit)
  {
    if fs != [] {
      RoundTrip(fs[0], limit);
      assert Collect(Empty, Encode(fs[0]), limit) == Decoded(Empty, [fs[0]]);
      RoundTripAll(fs[1..], limit);
      CollectAppend(Empty, Encode(fs[0]), EncodeAll(fs[1..]), limit);
      NoOverflowAppend(Empty, Encode(fs[0]), EncodeAll(fs[1..]), limit);
      assert [fs[0]] + fs[1..] == fs;
    }
  }

  /** Sync hunt: a hunting decoder discards every byte up to and including
      the first FEND and then collects the rest onto the frame it kept. */
  lemma HuntDiscards(d: Decoder, junk: seq<byte>, rest: seq<byte>, limit: nat)
    requires d.state == SyncHunt
    requires FEND !in junk
    ensures Decode(d, junk + [FEND] + rest, limit) == Collect(Decoder(Collecting, d.frame), rest, limit)
  {
    var s := junk + [FEND] + rest;
    assert s[|junk|] == FEND;
    assert forall j :: 0 <= j < |junk| ==> s[j] == junk[j];
    assert IndexOf(s, FEND) == |junk|;
    assert s[|junk| + 1..] == rest;
  }

  /** Decoding is independent of where the read boundary falls, as long as
      the first part leaves the decoder synchronised. */
  lemma SplitRead(d: Decoder, xs: seq<byte>, ys: seq<byte>, limit: nat)
    requires d.state != SyncHunt
    requires NoOverflow(d, xs, limit)
    ensures var a := Decode(d, xs, limit);
            var b := Decode(a.dec, ys, limit);
            Decode(d, xs + ys, limit) == Decoded(b.dec, a.frames + b.frames)
  {
    CollectAppend(d, xs, ys, limit);
    NoOverflowKeepsSync(d, xs, limit);
  }

  /** Partial reads: splitting one encoded frame into two reads at any point
      still yields exactly that frame once. */
  lemma PartialRead(f: seq<byte>, k: nat, limit: nat)
    requires 0 < |f| <= limit
    requires k <= |Encode(f)|
    ensures var enc := Encode(f);
            var a := Decode(Empty, enc[..k], limit);
            var b := Decode(a.dec, enc[k..], limit);
            b.dec == Empty && a.frames + b.frames == [f]
  {
    var enc := Encode(f);
    RoundTrip(f, limit);
    assert enc[..k] + enc[k..] == enc;
    NoOverflowAppend(Empty, enc[..k], enc[k..], limit);
    SplitRead(Empty, enc[..k], enc[k..], limit);
  }

  /** The same on a freshly opened line, whose decoder starts in SyncHunt. */
  lemma PartialReadFresh(f: seq<byte>, k: nat, limit: nat)
    requires 0 < |f| <= limit
    requires k <= |Encode(f)|
    ensures var enc := Encode(f);
            var a := Decode(Fresh, enc[..k], limit);
            var b := Decode(a.dec, enc[k..], limit);
            b.dec == Empty && a.frames + b.frames == [f]
  {
    var enc := Encode(f);
    PartialRead(f, k, limit);
    if k == 0 {
      assert enc[..k] == [];
      RoundTrip(f, limit);
    } else {
      assert enc[..k][0] == FEND;
      FreshLeadingFend(enc[..k], limit);
    }
  }

  /** The fresh decoder consumes a leading FEND and is then exactly the
      Collecting decoder after a previous frame. */
  lemma FreshLeadingFend(xs: seq<byte>, limit: nat)
    requires xs != [] && xs[0] == FEND
    ensures Decode(Fresh, xs, limit) == Decode(Empty, xs, limit)
  {
    assert IndexOf(xs, FEND) == 0;
    assert xs == [FEND] + xs[1..];
    CollectAppend(Empty, [FEND], xs[1..], limit);
    assert Collect(Empty, [FEND], limit) == Decoded(Empty, []);
  }

  /** The collecting loop keeps the frame within the limit, completes only
      non-empty frames of at most `limit` bytes, and completes none at all
      from bytes that hold no FEND. */
  lemma {:induction false} CollectBounds(d: Decoder, bytes: seq<byte>, limit: nat)
    ensures |d.frame| <= limit ==> |Collect(d, bytes, limit).dec.frame| <= limit
    ensures |d.frame| <= limit ==> Carriable(Collect(d, bytes, limit).frames, limit)
    ensures FEND !in bytes ==> Collect(d, bytes, limit).frames == []
    decreases |bytes|
  {
    if bytes != [] {
      var s := CollectStep(d, bytes[0], limit);
      CollectBounds(s.dec, bytes[1..], limit);
      assert FEND !in bytes ==> FEND !in bytes[1..];
    }
  }

  /** The same bounds for one whole pullkiss pass; in particular garbage
      without a FEND never completes a frame and leaves a hunting decoder
      exactly as it was. */
  lemma DecodeBounds(d: Decoder, bytes: seq<byte>, limit: nat)
    ensures |d.frame| <= limit ==> |Decode(d, bytes, limit).dec.frame| <= limit
    ensures |d.frame| <= limit ==> Carriable(Decode(d, bytes, limit).frames, limit)
    ensures FEND !in bytes ==> Decode(d, bytes, limit).frames == []
    ensures d.state == SyncHunt && FEND !in bytes ==> Decode(d, bytes, limit).dec == d
  {
    if d.state == SyncHunt {
      var k := IndexOf(bytes, FEND);
      if k < |bytes| {
        CollectBounds(Decoder(Collecting, d.frame), bytes[k + 1..], limit);
      }
    } else {
      CollectBounds(d, bytes, limit);
    }
  }

  // ---------------------------------------------------------------------------
  // Resynchronisation after an oversize frame, as written and as intended

  /** As written: an overflow sets the SyncHunt label, yet the bytes that
      follow in the same read are collected and dispatched at the next FEND. */
  lemma OversizeTailDispatched(big: seq<byte>, c: byte, tail: seq<byte>, limit: nat)
    requires |big| == limit
    requires c != FEND && c != FESC
    requires 0 < |tail| <= limit
    requires forall i :: 0 <= i < |tail| ==> tail[i] != FEND && tail[i] != FESC
    ensures Collect(Decoder(Collecting, big), [c] + tail + [FEND], limit).frames == [tail]
  {
    var d := Decoder(Collecting, big);
    assert CollectStep(d, c, limit).dec == Decoder(SyncHunt, []);
    CollectPlain(Decoder(SyncHunt, []), tail, limit);
    assert [] + tail == tail;
    CollectAppend(d, [c], tail + [FEND], limit);
    CollectAppend(Decoder(SyncHunt, []), tail, [FEND], limit);
    assert [c] + tail + [FEND] == [c] + (tail + [FEND]);
  }

  /** Plain bytes (no FEND, no FESC) that fit are appended one by one and the
      state label is kept. */
  lemma {:induction false} CollectPlain(d: Decoder, xs: seq<byte>, limit: nat)
    requires d.state != Escaped
    requires |d.frame| + |xs| <= limit
    requires forall i :: 0 <= i < |xs| ==> xs[i] != FEND && xs[i] != FESC
    ensures Collect(d, xs, limit) == Decoded(Decoder(d.state, d.frame + xs), [])
    decreases |xs|
  {
    if xs == [] {
      assert d.frame + xs == d.frame;
    } else {
      var d1 := Decoder(d.state, d.frame + [xs[0]]);
      assert xs[0] != FEND && xs[0] != FESC;
      assert CollectStep(d, xs[0], limit) == Stepped(d1, None);
      var tail := xs[1..];
      assert forall i :: 0 <= i < |tail| ==> tail[i] != FEND && tail[i] != FESC by {
        forall i | 0 <= i < |tail| ensures tail[i] != FEND && tail[i] != FESC {
          assert tail[i] == xs[i + 1];
        }
      }
      CollectPlain(d1, tail, limit);
      assert d.frame + [xs[0]] + tail == d.frame + xs;
    }
  }

  /** As written, the result depends on the read boundary: the same bytes in
      one read dispatch the tail of an oversize frame, split after the
      overflow they dispatch nothing. */
  lemma SplitChangesResultAsWritten()
    ensures var d := Decoder(Collecting, [0x01]);
            var xs: seq<byte> := [0x02];
            var ys: seq<byte> := [0x03, FEND];
            var a := Decode(d, xs, 1);
            Decode(d, xs + ys, 1).frames == [[0x03]] &&
            a.frames + Decode(a.dec, ys, 1).frames == []
  {
    var d := Decoder(Collecting, [0x01]);
    var xs: seq<byte> := [0x02];
    var ys: seq<byte> := [0x03, FEND];
    var h := Decoder(SyncHunt, []);
    var h3 := Decoder(SyncHunt, [0x03]);
    assert CollectStep(d, 0x02, 1) == Stepped(h, None);
    assert CollectStep(h, 0x03, 1) == Stepped(h3, None);
    assert CollectStep(h3, FEND, 1) == Stepped(Empty, Some([0x03]));
    assert Collect(h3, [FEND], 1) == Decoded(Empty, [[0x03]]);
    assert [0x03, FEND][1..] == [FEND];
    assert Collect(h, ys, 1) == Decoded(Empty, [[0x03]]);
    assert xs + ys == [0x02] + ys;
    CollectAppend(d, xs, ys, 1);
    assert Collect(d, xs, 1) == Decoded(h, []);
    // Split after the overflow: the second read starts with the entry hunt.
    assert IndexOf(ys, FEND) == 1;
    assert ys[2..] == [];
    assert Decode(h, ys, 1) == Decoded(Empty, []);
  }

  /** Intended behaviour: a decoder in SyncHunt inside the collecting loop
      hunts too, discarding bytes until a FEND. */
  function CollectStepResync(d: Decoder, c: byte, limit: nat): (r: Stepped)
    ensures d.state == SyncHunt ==> r.out == None
    ensures d.state == SyncHunt && c != FEND ==> r.dec == d
    ensures d.state == SyncHunt && c == FEND ==> r.dec == Decoder(Collecting, d.frame)
    ensures d.state == Escaped && c != FEND && c != TFEND && c != TFESC ==>
              r == Stepped(Decoder(Collecting, d.frame), None)
    ensures d.state == Collecting && c == FESC ==> r == Stepped(Decoder(Escaped, d.frame), None)
  {
    if d.state == SyncHunt then
      Stepped(if c == FEND then Decoder(Collecting, d.frame) else d, None)
    else CollectStep(d, c, limit)
  }

  function CollectResync(d: Decoder, bytes: seq<byte>, limit: nat): Decoded
    decreases |bytes|
  {
    if bytes == [] then Decoded(d, [])
    else
      var s := CollectStepResync(d, bytes[0], limit);
      var rest := CollectResync(s.dec, bytes[1..], limit);
      Decoded(rest.dec, (if s.out.Some? then [s.out.value] else []) + rest.frames)
  }

  /** The intended pullkiss: the same entry hunt, the corrected loop. */
  function DecodeResync(d: Decoder, bytes: seq<byte>, limit: nat): Decoded {
    if d.state == SyncHunt then
      var k := IndexOf(bytes, FEND);
      if k == |bytes| then Decoded(d, [])
      else CollectResync(Decoder(Collecting, d.frame), bytes[k + 1..], limit)
    else CollectResync(d, bytes, limit)
  }

  /** With the correction the entry hunt and the loop agree. */
  lemma {:induction false} DecodeResyncIsCollect(d: Decoder, bytes: seq<byte>, limit: nat)
    ensures DecodeResync(d, bytes, limit) == CollectResync(d, bytes, limit)
    decreases |bytes|
  {
    if d.state == SyncHunt && bytes != [] {
      if bytes[0] == FEND {
        assert IndexOf(bytes, FEND) == 0;
      } else {
        DecodeResyncIsCollect(d, bytes[1..], limit);
        assert IndexOf(bytes, FEND) == 1 + IndexOf(bytes[1..], FEND);
        if IndexOf(bytes, FEND) < |bytes| {
          assert bytes[IndexOf(bytes, FEND) + 1..] == bytes[1..][IndexOf(bytes[1..], FEND) + 1..];
        }
      }
    }
  }

  lemma {:induction false} CollectResyncAppend(d: Decoder, xs: seq<byte>, ys: seq<byte>, limit: nat)
    ensures CollectResync(d, xs + ys, limit) ==
            var a := CollectResync(d, xs, limit);
            var b := CollectResync(a.dec, ys, limit);
            Decoded(b.dec, a.frames + b.frames)
    decreases |xs|
  {
    if xs == [] {
      assert xs + ys == ys;
    } else {
      var s := CollectStepResync(d, xs[0], limit);
      var out := if s.out.Some? then [s.out.value] else [];
      var a' := CollectResync(s.dec, xs[1..], limit);
      var b := CollectResync(a'.dec, ys, limit);
      assert CollectResync(d, xs, limit) == Decoded(a'.dec, out + a'.frames);
      assert CollectResync(d, xs + ys, limit) == Decoded(b.dec, out + (a'.frames + b.frames)) by {
        assert (xs + ys)[0] == xs[0];
        assert (xs + ys)[1..] == xs[1..] + ys;
        CollectResyncAppend(s.dec, xs[1..], ys, limit);
      }
      assert out + (a'.frames + b.frames) == (out + a'.frames) + b.frames;
    }
  }

  /** Corrected decoder: the result never depends on how the stream is split
      into reads, for every state and every pair of reads. */
  lemma ResyncSplitInvariant(d: Decoder, xs: seq<byte>, ys: seq<byte>, limit: nat)
    ensures var a := DecodeResync(d, xs, limit);
            var b := DecodeResync(a.dec, ys, limit);
            DecodeResync(d, xs + ys, limit) == Decoded(b.dec, a.frames + b.frames)
  {
    DecodeResyncIsCollect(d, xs + ys, limit);
    DecodeResyncIsCollect(d, xs, limit);
    DecodeResyncIsCollect(CollectResync(d, xs, limit).dec, ys, limit);
    CollectResyncAppend(d, xs, ys, limit);
  }

  /** Corrected decoder: after an overflow nothing is dispatched before the
      next FEND, which resynchronises onto an empty frame. */
  lemma ResyncDiscardsUntilFend(big: seq<byte>, c: byte, junk: seq<byte>, rest: seq<byte>, limit: nat)
    requires |big| == limit
    requires c != FEND && c != FESC
    requires FEND !in junk
    ensures CollectResync(Decoder(Collecting, big), [c] + junk + [FEND] + rest, limit) ==
            CollectResync(Empty, rest, limit)
  {
    var h := Decoder(SyncHunt, []);
    assert CollectStepResync(Decoder(Collecting, big), c, limit).dec == h;
    HuntResync(junk, limit);
    var s := [c] + junk + [FEND] + rest;
    assert s == [c] + (junk + ([FEND] + rest));
    CollectResyncAppend(Decoder(Collecting, big), [c], junk + ([FEND] + rest), limit);
    CollectResyncAppend(h, junk, [FEND] + rest, limit);
    CollectResyncAppend(h, [FEND], rest, limit);
  }

  lemma {:induction false} HuntResync(junk: seq<byte>, limit: nat)
    requires FEND !in junk
    ensures CollectResync(Decoder(SyncHunt, []), junk, limit) == Decoded(Decoder(SyncHunt, []), [])
    decreases |junk|
  {
    if junk != [] {
      assert junk[0] != FEND;
      HuntResync(junk[1..], limit);
    }
  }

  /** Without an overflow the corrected loop and the loop as written agree. */
  lemma {:induction false} CollectAgrees(d: Decoder, xs: seq<byte>, limit: nat)
    requires d.state != SyncHunt
    requires NoOverflow(d, xs, limit)
    ensures CollectResync(d, xs, limit) == Collect(d, xs, limit)
    decreases |xs|
  {
    if xs != [] {
      CollectStepSpec(d, xs[0], limit);
      CollectAgrees(CollectStep(d, xs[0], limit).dec, xs[1..], limit);
    }
  }

  /** Corrected decoder, round trip: a stuffed frame between FENDs decodes to
      itself from a fresh line and right after a previous frame. */
  lemma ResyncRoundTrip(f: seq<byte>, limit: nat)
    requires 0 < |f| <= limit
    ensures DecodeResync(Fresh, Encode(f), limit) == Decoded(Empty, [f])
    ensures DecodeResync(Empty, Encode(f), limit) == Decoded(Empty, [f])
  {
    var enc := Encode(f);
    var tail := Escape(f) + [FEND];
    CollectRoundTrip(f, limit);
    CollectAgrees(Empty, tail, limit);
    assert IndexOf(enc, FEND) == 0;
    assert enc[1..] == tail;
    assert enc == [FEND] + tail;
    CollectResyncAppend(Empty, [FEND], tail, limit);
    assert CollectResync(Empty, [FEND], limit) == Decoded(Empty, []);
  }

  /** Corrected decoder: a stream of encoded frames yields those frames. */
  lemma ResyncRoundTripAll(fs: seq<seq<byte>>, limit: nat)
    requires Carriable(fs, limit)
    ensures DecodeResync(Empty, EncodeAll(fs), limit) == Decoded(Empty, fs)
  {
    RoundTripAll(fs, limit);
    CollectAgrees(Empty, EncodeAll(fs), limit);
  }

  /** Corrected decoder: one encoded frame split into two reads anywhere is
      delivered exactly once, from a fresh line or after a previous frame. */
  lemma ResyncPartialRead(d: Decoder, f: seq<byte>, k: nat, limit: nat)
    requires d == Fresh || d == Empty
    requires 0 < |f| <= limit
    requires k <= |Encode(f)|
    ensures var enc := Encode(f);
            var a := DecodeResync(d, enc[..k], limit);
            var b := DecodeResync(a.dec, enc[k..], limit);
            b.dec == Empty && a.frames + b.frames == [f]
  {
    var enc := Encode(f);
    ResyncRoundTrip(f, limit);
    assert enc[..k] + enc[k..] == enc;
    ResyncSplitInvariant(d, enc[..k], enc[k..], limit);
  }

  /** Corrected decoder, entry hunt: everything up to and including the
      first FEND is discarded and the rest is collected onto the kept frame. */
  lemma ResyncHuntDiscards(d: Decoder, junk: seq<byte>, rest: seq<byte>, limit: nat)
    requires d.state == SyncHunt
    requires FEND !in junk
    ensures DecodeResync(d, junk + [FEND] + rest, limit) == CollectResync(Decoder(Collecting, d.frame), rest, limit)
  {
    var s := junk + [FEND] + rest;
    assert s[|junk|] == FEND;
    assert forall j :: 0 <= j < |junk| ==> s[j] == junk[j];
    assert IndexOf(s, FEND) == |junk|;
    assert s[|junk| + 1..] == rest;
  }

  /** Corrected loop: the frame bound is kept and every completed frame is
      non-empty and within the limit; bytes without a FEND complete none. */
  lemma {:induction false} CollectResyncBounds(d: Decoder, bytes: seq<byte>, limit: nat)
    ensures |d.frame| <= limit ==> |CollectResync(d, bytes, limit).dec.frame| <= limit
    ensures |d.frame| <= limit ==> Carriable(CollectResync(d, bytes, limit).frames, limit)
    ensures FEND !in bytes ==> CollectResync(d, bytes, limit).frames == []
    decreases |bytes|
  {
    if bytes != [] {
      CollectStepSpec(d, bytes[0], limit);
      CollectResyncBounds(CollectStepResync(d, bytes[0], limit).dec, bytes[1..], limit);
      assert FEND !in bytes ==> FEND !in bytes[1..];
    }
  }

  /** The same bounds for one pass of the corrected pullkiss. */
  lemma DecodeResyncBounds(d: Decoder, bytes: seq<byte>, limit: nat)
    ensures |d.frame| <= limit ==> |DecodeResync(d, bytes, limit).dec.frame| <= limit
    ensures |d.frame| <= limit ==> Carriable(DecodeResync(d, bytes, limit).frames, limit)
    ensures FEND !in bytes ==> DecodeResync(d, bytes, limit).frames == []
  {
    DecodeResyncIsCollect(d, bytes, limit);
    CollectResyncBounds(d, bytes, limit);
  }
}
