/** The write side of a line: ttyreader_linewrite (partial-write continuation
    and compaction) and ttyreader_kisswrite (queueing one KISS frame). */
module WriteBuffer {
  import opened Bytes
  import opened Lines

  /** Size of the local buffer ttyreader_kisswrite encodes into. */
  const KissWriteSpace: nat := 2300

  /** Bytes the OS takes from the pending part in one write(2) (0 on error). */
  function Written(l: Line, io: Io): (n: nat)
    requires l.wrcursor <= |l.wrbuf|
    ensures n <= |Pending(l)|
  {
    if |l.wrbuf| - l.wrcursor > 0 then
      var i := io.write(l.fd, l.wrbuf[l.wrcursor..]);
      if i > 0 then i else 0
    else 0
  }

  /** One write(2) of the pending bytes; when something was written the
      unsent rest moves to offset 0 (or the buffer becomes empty). */
  function Flush(l: Line, io: Io): (r: Line)
    requires Valid(l)
    ensures Valid(r)
    ensures Pending(l) == Pending(l)[..Written(l, io)] + Pending(r)
    ensures Written(l, io) > 0 ==> r.wrcursor == 0
    ensures Written(l, io) == 0 ==> r == l
    ensures r.(wrbuf := l.wrbuf, wrcursor := l.wrcursor) == l
  {
    var n := Written(l, io);
    if n > 0 then
      var cur := l.wrcursor + n;
      if cur == |l.wrbuf| then l.(wrbuf := [], wrcursor := 0)
      else l.(wrbuf := l.wrbuf[cur..], wrcursor := 0)
    else l
  }

  /** ttyreader_linewrite: an empty or fully written buffer is reset to empty,
      otherwise one write(2) is attempted. */
  function LineWrite(l: Line, io: Io): (r: Line)
    requires Valid(l)
    ensures Valid(r)
    ensures Pending(l) == Pending(l)[..Written(l, io)] + Pending(r)
    ensures Pending(l) == [] ==> r.wrbuf == [] && r.wrcursor == 0
    ensures r.wrcursor == 0 || r == l
    ensures r.(wrbuf := l.wrbuf, wrcursor := l.wrcursor) == l
  {
    if l.wrcursor >= |l.wrbuf| then
      l.(wrbuf := [], wrcursor := 0)
    else Flush(l, io)
  }

  /** Appends `bytes` when the strict fit check `wrlen + len < sizeof(wrbuf)`
      holds; reports whether it did. */
  function Enqueue(l: Line, bytes: seq<byte>): (r: (Line, bool))
    requires Valid(l)
    ensures Valid(r.0)
    ensures r.1 <==> |l.wrbuf| + |bytes| < l.wrbufSize
    ensures r.1 ==> Pending(r.0) == Pending(l) + bytes
    ensures !r.1 ==> r.0 == l
    ensures r.0.(wrbuf := l.wrbuf) == l
  {
    if |l.wrbuf| + |bytes| < l.wrbufSize then
      var l' := l.(wrbuf := l.wrbuf + bytes);
      assert Pending(l') == Pending(l) + bytes;
      (l', true)
    else (l, false)
  }

  /** ttyreader_kisswrite: on a KISS line, flush what is pending, encode the
      frame with the line's command byte, queue it if it fits (counting one
      TX) and try to send it at once. */
  function KissWrite(l: Line, tncid: nat, ax25raw: seq<byte>, io: Io): (r: Step)
    requires Valid(l)
    requires tncid < SubChannels
    ensures Valid(r.line)
    ensures !IsKiss(l.lineType) ==> r == Step(l, [])
    ensures r.events == [] || r.events == [Account(l.callsigns[tncid], Tx, |ax25raw|)]
    ensures r.line.(wrbuf := l.wrbuf, wrcursor := l.wrcursor) == l
  {
    if !IsKiss(l.lineType) then Step(l, [])
    else
      var l1 := LineWrite(l, io);
      var enc := Encoded(l, tncid, ax25raw, io);
      var (l2, fits) := Enqueue(l1, enc);
      if fits then Step(Flush(l2, io), [Account(l.callsigns[tncid], Tx, |ax25raw|)])
      else Step(l1, [])
  }

  // ---------------------------------------------------------------------------
  // Lemmas

  /** The frame encoded with the line's command byte. */
  function Encoded(l: Line, tncid: nat, ax25raw: seq<byte>, io: Io): seq<byte>
    requires tncid < SubChannels
  {
    io.kissEncode(KissWriteSpace, ax25raw, CommandByte(tncid, l.lineType))
  }

  /** When the encoded frame fits after the first flush it is queued behind
      the old pending bytes, one TX is counted, and the bytes of the two
      writes followed by what is still pending are exactly the old pending
      bytes followed by the frame: nothing is lost, duplicated or reordered. */
  lemma KissWriteQueued(l: Line, tncid: nat, ax25raw: seq<byte>, io: Io)
    requires Valid(l)
    requires tncid < SubChannels
    requires IsKiss(l.lineType)
    ensures var r := KissWrite(l, tncid, ax25raw, io);
            var l1 := LineWrite(l, io);
            var l2 := l1.(wrbuf := l1.wrbuf + Encoded(l, tncid, ax25raw, io));
            |l1.wrbuf| + |Encoded(l, tncid, ax25raw, io)| < l.wrbufSize ==>
            && Valid(l2)
            && r.events == [Account(l.callsigns[tncid], Tx, |ax25raw|)]
            && Pending(l)[..Written(l, io)] + Pending(l2)[..Written(l2, io)] + Pending(r.line) ==
               Pending(l) + Encoded(l, tncid, ax25raw, io)
  {
    var l1 := LineWrite(l, io);
    var enc := Encoded(l, tncid, ax25raw, io);
    if |l1.wrbuf| + |enc| >= l.wrbufSize { return; }
    var l2 := l1.(wrbuf := l1.wrbuf + enc);
    assert Enqueue(l1, enc) == (l2, true);
    var r := KissWrite(l, tncid, ax25raw, io);
    assert r.line == Flush(l2, io);
    Conserve(Pending(l), Pending(l1), enc, Written(l, io), Written(l2, io), Pending(r.line));
  }

  /** Two successive prefixes taken off a queue, followed by what remains,
      give back the queue with the appended bytes. */
  lemma Conserve(p: seq<byte>, p1: seq<byte>, enc: seq<byte>, n1: nat, n2: nat, rest: seq<byte>)
    requires n1 <= |p| && n2 <= |p1 + enc|
    requires p == p[..n1] + p1
    requires p1 + enc == (p1 + enc)[..n2] + rest
    ensures p[..n1] + (p1 + enc)[..n2] + rest == p + enc
  {
    assert p[..n1] + (p1 + enc)[..n2] + rest == p[..n1] + ((p1 + enc)[..n2] + rest);
  }

  /** When the frame does not fit, the buffer holds exactly what the first
      flush left and no TX is counted. */
  lemma KissWriteNoFit(l: Line, tncid: nat, ax25raw: seq<byte>, io: Io)
    requires Valid(l)
    requires tncid < SubChannels
    requires IsKiss(l.lineType)
    ensures |LineWrite(l, io).wrbuf| + |Encoded(l, tncid, ax25raw, io)| >= l.wrbufSize ==>
            KissWrite(l, tncid, ax25raw, io) == Step(LineWrite(l, io), [])
  {
  }

  /** A completed write leaves an empty buffer; a partial one leaves exactly
      the unsent suffix at offset 0. */
  lemma LineWriteCompacts(l: Line, io: Io)
    requires Valid(l)
    requires Pending(l) != []
    ensures var r := LineWrite(l, io);
            var n := Written(l, io);
            && (n == |Pending(l)| ==> r.wrbuf == [] && r.wrcursor == 0)
            && (0 < n < |Pending(l)| ==> r.wrbuf == Pending(l)[n..] && r.wrcursor == 0)
            && (n == 0 ==> r == l)
  {
  }
}
