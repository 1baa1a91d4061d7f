/** The per-line record (`struct serialport` of ttyreader.c), the effects the
    line layer hands to its collaborators, and the environment of syscall and
    collaborator results it runs against. */
module Lines {
  import opened Bytes
  import opened Kiss

  /** The LINETYPE_* values the configuration can select. */
  datatype LineType = PlainKiss | KissXor | KissSmack | Tnc2Text

  /** The three KISS dialects. */
  predicate IsKiss(t: LineType) {
    t == PlainKiss || t == KissXor || t == KissSmack
  }

  /** Number of sub-channel slots (the 4-bit TNC id field). */
  const SubChannels: nat := 16

  /** TTY_OPEN_RETRY_DELAY_SECS. */
  const RetryDelay: int := 30

  /** Minimum interval between two SMACK activation probes on one sub-channel. */
  const ProbeInterval: int := 30 * 60

  /** 7+7+2 bytes of minimal AX.25 frame plus the KISS command byte. */
  const MinFrame: int := 17

  /** One line: descriptor, mode, buffers, decoder and per-sub-channel tables.
      Buffers hold only their filled part: `|rdbuf|` is `rdlen`, `|wrbuf|` is
      `wrlen`, `|rdline|` is `rdlinelen`. The three buffer capacities are
      fields because the structure definition is not part of this model. */
  datatype Line = Line(
    name: Option<string>,              // ttyname: device path or "tcp!host!port!opts"
    fd: int,                           // -1 when closed
    waitUntil: int,                    // reconnect deadline, 0 = not waiting
    lastRead: int,                     // last_read_something
    readTimeout: int,                  // idle-read timeout, 0 = disabled
    lineType: LineType,
    kissState: KissState,              // shared by the KISS and the text decoder
    rdbufSize: nat,
    wrbufSize: nat,
    rdlineSize: nat,
    rdbuf: seq<byte>,
    rdcursor: nat,
    rdline: seq<byte>,
    wrbuf: seq<byte>,
    wrcursor: nat,
    callsigns: seq<Option<string>>,    // ttycallsign[16]
    netax25: seq<Option<nat>>,         // netax25[16], an opaque handle
    initStrings: seq<Option<seq<byte>>>, // initstring[16] with initlen[16]
    smackSubids: set<nat>,             // sub-channels seen sending SMACK
    smackProbe: seq<int>)              // smack_probe[]: earliest next probe per sub-channel

  /** `sizeof(rdline) - 3`: the longest in-progress frame or text line. */
  function FrameLimit(l: Line): nat {
    if l.rdlineSize >= 3 then l.rdlineSize - 3 else 0
  }

  /** Total length of the configured initialisation strings. */
  function InitLength(inits: seq<Option<seq<byte>>>): nat {
    if inits == [] then 0
    else (if inits[0].Some? then |inits[0].value| else 0) + InitLength(inits[1..])
  }

  /** The initialisation strings in sub-channel order, concatenated. */
  function InitBytes(inits: seq<Option<seq<byte>>>): (r: seq<byte>)
    ensures |r| == InitLength(inits)
  {
    if inits == [] then []
    else (if inits[0].Some? then inits[0].value else []) + InitBytes(inits[1..])
  }

  /** The structural invariant every operation keeps: table sizes, cursor
      ordering within capacity, the in-progress frame bound, SMACK bits only
      for the eight addressable sub-channels, and init strings that fit the
      write buffer (the source appends them with no bound check). */
  ghost predicate Valid(l: Line) {
    && |l.callsigns| == SubChannels
    && |l.netax25| == SubChannels
    && |l.initStrings| == SubChannels
    && |l.smackProbe| == SubChannels
    && l.rdcursor <= |l.rdbuf| <= l.rdbufSize
    && l.wrcursor <= |l.wrbuf| <= l.wrbufSize
    && l.rdlineSize >= 3
    && |l.rdline| <= FrameLimit(l)
    && InitLength(l.initStrings) <= l.wrbufSize
    && (forall t :: t in l.smackSubids ==> t < 8)
  }

  /** Unsent bytes of the write buffer. */
  function Pending(l: Line): seq<byte>
    requires l.wrcursor <= |l.wrbuf|
  {
    l.wrbuf[l.wrcursor..]
  }

  /** Sub-channel selected by a command byte: the high nibble, with its top
      bit chopped off under SMACK. */
  function SubChannel(cmd: byte, t: LineType): (r: nat)
    ensures r < SubChannels
    ensures t == KissSmack ==> r < 8
  {
    if t == KissSmack then ((cmd >> 4) & 0x07) as nat else ((cmd >> 4) & 0x0F) as nat
  }

  /** Command byte of an outgoing frame: `(tncid << 4) | 0x80-if-SMACK`. */
  function CommandByte(tncid: nat, t: LineType): byte
    requires tncid < SubChannels
  {
    ((tncid as byte) << 4) | (if t == KissSmack then 0x80 else 0x00)
  }

  // ---------------------------------------------------------------------------
  // Effects handed to collaborators

  /** ERLANG_RX, ERLANG_TX, ERLANG_DROP. */
  datatype Traffic = Rx | Tx | Drop

  datatype Event =
    | Account(call: Option<string>, kind: Traffic, bytes: int)         // erlang_add
    | ToTnc2(call: Option<string>, tncid: nat, cmd: byte, body: seq<byte>) // ax25_to_tnc2
    | ToNetAx25(handle: nat, body: seq<byte>)                          // netax25_sendax25
    | ToAprsis(call: Option<string>, text: seq<byte>, addrLen: nat)    // igate_to_aprsis

  /** A line after an operation, with the effects it produced in order. */
  datatype Step = Step(line: Line, events: seq<Event>)

  // ---------------------------------------------------------------------------
  // Syscall and collaborator results

  /** write(2): at most the number of bytes offered; negative on error. */
  type Writer = f: (int, seq<byte>) -> int | forall fd, s :: f(fd, s) <= |s|
    witness (fd: int, s: seq<byte>) => 0

  /** read(2): failure (EAGAIN and friends) or the bytes read, at most the
      space offered; no bytes means end of file. */
  datatype ReadResult = ReadFailed | ReadBytes(bytes: seq<byte>)

  type Reader = f: (int, nat) -> ReadResult | forall fd, n :: f(fd, n).ReadBytes? ==> |f(fd, n).bytes| <= n
    witness (fd: int, n: nat) => ReadFailed

  /** open(2) of a device followed by tcsetattr(3). */
  datatype OpenResult = OpenFailed | AttrFailed | Opened(fd: nat)

  /** getaddrinfo(3), socket(2) and a non-blocking connect(2). */
  datatype ConnectResult = ResolveFailed | SocketFailed | ConnectFailed | Connected(fd: nat)

  datatype Io = Io(
    write: Writer,
    read: Reader,
    openSerial: string -> OpenResult,
    connect: (string, Option<string>) -> ConnectResult,
    crc16: seq<byte> -> int,                                 // crc16_calc
    kissEncode: (nat, seq<byte>, byte) -> seq<byte>,         // kissencoder(space, data, cmd)
    ax25ToTnc2: (Option<string>, nat, byte, seq<byte>) -> bool)

  // ---------------------------------------------------------------------------
  // ttyreader_new

  /** A new line: closed, due for opening at once, plain KISS, hunting, all
      buffers and tables empty. */
  function New(now: int, rdbufSize: nat, wrbufSize: nat, rdlineSize: nat): (l: Line)
    requires rdlineSize >= 3
    ensures Valid(l)
    ensures l.fd < 0 && l.waitUntil < now
    ensures l.lineType == PlainKiss && l.kissState == SyncHunt
    ensures Pending(l) == [] && l.rdbuf == [] && l.rdline == []
    ensures forall t :: 0 <= t < SubChannels ==> l.callsigns[t].None? && l.initStrings[t].None?
  {
    var none: seq<Option<seq<byte>>> := seq(SubChannels, _ => None);
    InitLengthNone(none);
    Line(None, -1, now - 1, now, 0, PlainKiss, SyncHunt,
         rdbufSize, wrbufSize, rdlineSize,
         [], 0, [], [], 0,
         seq(SubChannels, _ => None), seq(SubChannels, _ => None), none,
         {}, seq(SubChannels, _ => 0))
  }

  // ---------------------------------------------------------------------------
  // Lemmas

  /** The classifier recovers the sub-channel packed by the writer, modulo the
      SMACK three-bit mask; the reserved low nibble is always zero and the
      SMACK flag bit is set on every SMACK line. */
  lemma CommandByteRoundTrip(tncid: nat, t: LineType)
    requires tncid < SubChannels
    ensures CommandByte(tncid, t) & 0x0F == 0
    ensures SubChannel(CommandByte(tncid, t), t) == (if t == KissSmack then tncid % 8 else tncid)
    ensures t == KissSmack ==> CommandByte(tncid, t) & 0x8F == 0x80
    ensures t != KissSmack ==> (CommandByte(tncid, t) & 0x80 == 0x80 <==> tncid >= 8)
  {
    var b := tncid as byte;
    assert b < 16;
    assert CommandByte(tncid, t) == (b << 4) | (if t == KissSmack then 0x80 else 0x00);
    if t == KissSmack {
      SmackNibble(b);
    } else {
      PlainNibble(b);
    }
  }

  lemma SmackNibble(b: byte)
    requires b < 16
    ensures ((b << 4) | 0x80) & 0x0F == 0
    ensures ((((b << 4) | 0x80) >> 4) & 0x07) as nat == b as nat % 8
    ensures ((b << 4) | 0x80) & 0x8F == 0x80
  {
  }

  lemma PlainNibble(b: byte)
    requires b < 16
    ensures ((b << 4) | 0x00) & 0x0F == 0
    ensures ((((b << 4) | 0x00) >> 4) & 0x0F) == b
    ensures ((b << 4) | 0x00) & 0x80 == 0x80 <==> b >= 8
  {
  }

  lemma {:induction false} InitLengthNone(inits: seq<Option<seq<byte>>>)
    requires forall i :: 0 <= i < |inits| ==> inits[i].None?
    ensures InitLength(inits) == 0
  {
    if inits != [] {
      InitLengthNone(inits[1..]);
    }
  }
}
