/** Opening, polling and closing lines: ttyreader_linesetup (device open or
    TCP connect, then the reset of the read side), ttyreader_prepoll (retry
    timers, idle timeout, choice of poll events) and ttyreader_postpoll
    (serving the lines whose descriptors became ready). */
module Lifecycle {
  import opened Bytes
  import opened Kiss
  import opened Lines
  import opened WriteBuffer
  import opened Reader

  // ---------------------------------------------------------------------------
  // The "tcp!host!port!opts" line name

  /** The fields of a TCP line name; the port and the options may be absent. */
  datatype TcpTarget = TcpTarget(host: string, port: Option<string>, opts: Option<string>)

  predicate IsTcpName(name: string) {
    |name| >= 4 && name[..4] == "tcp!"
  }

  /** The name ttyreader_serialcfg builds for `radio tcp host port`. */
  function TcpName(host: string, port: string): string {
    "tcp!" + host + "!" + port + "!"
  }

  /** A string cut at its first '!': the part before it, and the rest after
      it when there is one. */
  datatype Cut = Cut(head: string, tail: Option<string>)

  function Join(c: Cut): string {
    if c.tail.Some? then c.head + "!" + c.tail.value else c.head
  }

  /** The `strchr(s, '!')` step: the head holds no '!' and nothing is lost. */
  function CutBang(s: string): (c: Cut)
    ensures '!' !in c.head
    ensures Join(c) == s
  {
    var i := IndexOf(s, '!');
    if i == |s| then Cut(s, None)
    else
      assert s == s[..i] + "!" + s[i + 1..];
      assert forall j :: 0 <= j < i ==> s[..i][j] == s[j];
      Cut(s[..i], Some(s[i + 1..]))
  }

  /** Cutting a string whose first '!' follows `a` gives back `a` and the rest. */
  lemma CutBangAt(a: string, b: string)
    requires '!' !in a
    ensures CutBang(a + "!" + b) == Cut(a, Some(b))
  {
    var s := a + "!" + b;
    assert s[|a|] == '!';
    assert forall j :: 0 <= j < |a| ==> s[j] == a[j];
    assert s[..|a|] == a && s[|a| + 1..] == b;
  }

  /** A split name put back together. */
  function Unsplit(t: TcpTarget): string {
    "tcp!" + Join(Cut(t.host, if t.port.Some? then Some(Join(Cut(t.port.value, t.opts))) else None))
  }

  /** The `strchr` splitting of ttyreader_linesetup: the host runs up to the
      next '!', the port up to the one after it, the options are the rest.
      The split loses nothing: joining the fields back gives the name. */
  function SplitTcp(name: string): (r: TcpTarget)
    requires IsTcpName(name)
    ensures '!' !in r.host
    ensures r.port.Some? ==> '!' !in r.port.value
    ensures r.opts.Some? ==> r.port.Some?
    ensures Unsplit(r) == name
  {
    var rest := name[4..];
    assert name == "tcp!" + rest;
    var c := CutBang(rest);
    if c.tail.None? then TcpTarget(c.head, None, None)
    else
      var d := CutBang(c.tail.value);
      assert Cut(d.head, d.tail) == d;
      TcpTarget(c.head, Some(d.head), d.tail)
  }

  // ---------------------------------------------------------------------------
  // ttyreader_linesetup

  /** The common tail of ttyreader_linesetup: the idle clock restarts and the
      whole read side (buffer, cursor, in-progress frame, decoder state, SMACK
      bits and probe deadlines) is reset. */
  function ResetReadSide(l: Line, now: int): (r: Line)
    requires Valid(l)
    ensures Valid(r)
  {
    l.(lastRead := now, rdbuf := [], rdcursor := 0, rdline := [], kissState := SyncHunt,
       smackProbe := seq(SubChannels, _ => 0), smackSubids := {})
  }

  /** ttyreader_linesetup. A device that cannot be opened or configured is
      closed for a retry in 30 s and nothing else is reset; an opened device
      gets the init strings queued and flushed once. A TCP line connects to
      the split name; a failure leaves no retry delay. */
  function LineSetup(l: Line, now: int, io: Io): (r: Line)
    requires Valid(l)
    requires l.name.Some?
    ensures Valid(r)
    ensures r.wrcursor == 0
    ensures r.fd >= 0 ==> r.waitUntil == 0 && r.lastRead == now
    ensures r.(fd := l.fd, waitUntil := l.waitUntil, lastRead := l.lastRead, rdbuf := l.rdbuf,
               rdcursor := l.rdcursor, rdline := l.rdline, kissState := l.kissState,
               smackProbe := l.smackProbe, smackSubids := l.smackSubids,
               wrbuf := l.wrbuf, wrcursor := l.wrcursor) == l
  {
    var l0 := l.(waitUntil := 0, wrbuf := [], wrcursor := 0);
    var name := l.name.value;
    if !IsTcpName(name) then
      match io.openSerial(name)
      case OpenFailed => l0.(fd := -1, waitUntil := now + RetryDelay)
      case AttrFailed => l0.(fd := -1, waitUntil := now + RetryDelay)
      case Opened(fd) =>
        var l1 := l0.(fd := fd, wrbuf := InitBytes(l.initStrings));
        ResetReadSide(LineWrite(l1, io), now)
    else
      var target := SplitTcp(name);
      var fd := match io.connect(target.host, target.port)
                case ResolveFailed => l.fd
                case SocketFailed => -1
                case ConnectFailed => -1
                case Connected(fd) => fd;
      ResetReadSide(l0.(fd := fd), now)
  }

  // ---------------------------------------------------------------------------
  // ttyreader_prepoll

  /** One poll(2) request: POLLIN|POLLPRI always, POLLOUT when `out`. */
  datatype PollRequest = PollRequest(fd: int, out: bool)

  datatype Prepolled = Prepolled(line: Line, poll: Option<PollRequest>, nextTimeout: int)

  /** A closed line whose retry deadline lies ahead. */
  predicate Waiting(l: Line, now: int) {
    l.fd < 0 && l.waitUntil != 0 && l.waitUntil > now
  }

  /** True when an open line has been silent for longer than its timeout. */
  predicate IdleTimedOut(l: Line, now: int) {
    l.readTimeout > 0 && now > l.lastRead + l.readTimeout
  }

  /** ttyreader_prepoll for one line: nameless lines are skipped; a waiting
      line only pulls the global timeout in; a closed line past its deadline
      is (re)opened; an idle line is closed for a retry; an open line asks
      for input, and for output when it has unsent bytes. */
  function PrepollLine(l: Line, now: int, nextTimeout: int, io: Io): (r: Prepolled)
    requires Valid(l)
    ensures Valid(r.line)
    ensures r.nextTimeout == Min(nextTimeout, if Waiting(l, now) && l.name.Some? then l.waitUntil else nextTimeout)
    ensures r.poll.Some? ==> r.line.fd >= 0 && r.poll.value == PollRequest(r.line.fd, Pending(r.line) != [])
    ensures r.poll.None? ==> r.line.fd < 0 || r.line.name.None?
    ensures l.name.None? ==> r == Prepolled(l, None, nextTimeout)
    ensures l.name.Some? && l.fd >= 0 && !IdleTimedOut(l, now) ==>
              r.line == l && r.poll == Some(PollRequest(l.fd, Pending(l) != []))
    ensures l.name.Some? && l.fd >= 0 && IdleTimedOut(l, now) ==>
              r.line == l.(fd := -1, waitUntil := now + RetryDelay) && r.poll.None?
    ensures l.name.Some? && l.fd < 0 && !Waiting(l, now) ==>
              var s := LineSetup(l, now, io);
              && (s.fd < 0 ==> r.line == s && r.poll.None?)
              && (s.fd >= 0 ==> r.line == s && r.poll == Some(PollRequest(s.fd, Pending(s) != [])))
  {
    if l.name.None? then Prepolled(l, None, nextTimeout)
    else if Waiting(l, now) then
      Prepolled(l, None, if nextTimeout > l.waitUntil then l.waitUntil else nextTimeout)
    else
      var l1 := if l.fd < 0 then LineSetup(l, now, io) else l;
      if l1.fd < 0 then Prepolled(l1, None, nextTimeout)
      else if IdleTimedOut(l1, now) then Prepolled(l1.(fd := -1, waitUntil := now + RetryDelay), None, nextTimeout)
      else Prepolled(l1, Some(PollRequest(l1.fd, |l1.wrbuf| > 0 && |l1.wrbuf| > l1.wrcursor)), nextTimeout)
  }

  ghost predicate AllValid(lines: seq<Line>) {
    forall i :: 0 <= i < |lines| ==> Valid(lines[i])
  }

  lemma AllValidTail(lines: seq<Line>)
    requires lines != [] && AllValid(lines)
    ensures Valid(lines[0]) && AllValid(lines[1..])
  {
    forall i | 0 <= i < |lines[1..]| ensures Valid(lines[1..][i]) { assert lines[1..][i] == lines[i + 1]; }
  }

  lemma AllValidCons(l: Line, lines: seq<Line>)
    requires Valid(l) && AllValid(lines)
    ensures AllValid([l] + lines)
  {
    forall i | 0 <= i < |[l] + lines| ensures Valid(([l] + lines)[i]) {
      if i > 0 { assert ([l] + lines)[i] == lines[i - 1]; }
    }
  }

  datatype Prepared = Prepared(lines: seq<Line>, polls: seq<PollRequest>, nextTimeout: int)

  /** ttyreader_prepoll over the registered lines, in order. */
  function Prepoll(lines: seq<Line>, now: int, nextTimeout: int, io: Io): (r: Prepared)
    requires AllValid(lines)
    ensures |r.lines| == |lines| && |r.polls| <= |lines|
    ensures AllValid(r.lines)
    ensures r.nextTimeout <= nextTimeout
    decreases |lines|
  {
    if lines == [] then Prepared([], [], nextTimeout)
    else
      AllValidTail(lines);
      var p := PrepollLine(lines[0], now, nextTimeout, io);
      var rest := Prepoll(lines[1..], now, p.nextTimeout, io);
      AllValidCons(p.line, rest.lines);
      Prepared([p.line] + rest.lines, (if p.poll.Some? then [p.poll.value] else []) + rest.polls, rest.nextTimeout)
  }

  // ---------------------------------------------------------------------------
  // ttyreader_postpoll

  /** The revents bits ttyreader_postpoll looks at. */
  datatype Revents = Revents(inp: bool, pri: bool, out: bool, err: bool, hup: bool)

  datatype PollResult = PollResult(fd: int, revents: Revents)

  /** POLLIN, POLLPRI, POLLERR or POLLHUP: the events that make a line be
      served; POLLOUT alone does not. */
  predicate Readable(e: Revents) {
    e.inp || e.pri || e.err || e.hup
  }

  datatype Served = Served(lines: seq<Line>, events: seq<Event>)

  /** One line against one ready descriptor: when it matches, the pending
      output is flushed first if POLLOUT is set, then the line is read. */
  function ServeLine(l: Line, p: PollResult, now: int, io: Io): (r: Step)
    requires Valid(l)
    ensures Valid(r.line)
    ensures l.fd != p.fd ==> r == Step(l, [])
  {
    if l.fd != p.fd then Step(l, [])
    else LineRead(if p.revents.out then LineWrite(l, io) else l, now, io)
  }

  /** The inner loop of ttyreader_postpoll: every line is tried against one
      ready descriptor. */
  function ServeAll(lines: seq<Line>, p: PollResult, now: int, io: Io): (r: Served)
    requires AllValid(lines)
    ensures |r.lines| == |lines| && AllValid(r.lines)
    decreases |lines|
  {
    if lines == [] then Served([], [])
    else
      AllValidTail(lines);
      var s := ServeLine(lines[0], p, now, io);
      var rest := ServeAll(lines[1..], p, now, io);
      AllValidCons(s.line, rest.lines);
      Served([s.line] + rest.lines, s.events + rest.events)
  }

  /** ttyreader_postpoll: the poll results in order; those without a read,
      error or hang-up event are skipped. */
  function Postpoll(lines: seq<Line>, polls: seq<PollResult>, now: int, io: Io): (r: Served)
    requires AllValid(lines)
    ensures |r.lines| == |lines| && AllValid(r.lines)
    decreases |polls|
  {
    if polls == [] then Served(lines, [])
    else if !Readable(polls[0].revents) then Postpoll(lines, polls[1..], now, io)
    else
      var s := ServeAll(lines, polls[0], now, io);
      var rest := Postpoll(s.lines, polls[1..], now, io);
      Served(rest.lines, s.events + rest.events)
  }

  // ---------------------------------------------------------------------------
  // The resting invariant

  /** Between two poll rounds: both cursors are at 0, and an open line is
      never waiting for a retry. (The converse does not hold: a failed TCP
      connect leaves a closed line with no retry delay.) */
  ghost predicate AtRest(l: Line) {
    Valid(l) && l.rdcursor == 0 && l.wrcursor == 0 && (l.fd >= 0 ==> l.waitUntil == 0)
  }

  ghost predicate AllAtRest(lines: seq<Line>) {
    forall i :: 0 <= i < |lines| ==> AtRest(lines[i])
  }

  // ---------------------------------------------------------------------------
  // Lemmas

  /** For names without '!' in host and port, splitting inverts the name
      built from the configuration (with empty options). */
  lemma TcpNameRoundTrip(host: string, port: string)
    requires '!' !in host && '!' !in port
    ensures IsTcpName(TcpName(host, port))
    ensures SplitTcp(TcpName(host, port)) == TcpTarget(host, Some(port), Some(""))
  {
    var name := TcpName(host, port);
    assert name[4..] == host + "!" + (port + "!");
    CutBangAt(host, port + "!");
    assert port + "!" == port + "!" + "";
    CutBangAt(port, "");
  }

  /** A successful setup resets the read side; the init strings are queued
      in sub-channel order and what the first write did not take is still
      pending. A device that cannot be opened leaves the read side alone and
      sets the 30 s retry delay. */
  lemma SetupOutcome(l: Line, now: int, io: Io)
    requires Valid(l) && l.name.Some?
    ensures var r := LineSetup(l, now, io);
            var serial := !IsTcpName(l.name.value);
            var failed := serial && !io.openSerial(l.name.value).Opened?;
            && (failed ==> r.fd == -1 && r.waitUntil == now + RetryDelay && Pending(r) == []
                           && r.rdbuf == l.rdbuf && r.rdline == l.rdline && r.kissState == l.kissState)
            && (!failed ==> r.rdbuf == [] && r.rdcursor == 0 && r.rdline == [] && r.kissState == SyncHunt
                            && r.smackSubids == {} && r.lastRead == now
                            && (forall t :: 0 <= t < SubChannels ==> r.smackProbe[t] == 0))
            && (serial && !failed ==>
                  var init := InitBytes(l.initStrings);
                  r.fd == io.openSerial(l.name.value).fd &&
                  exists n :: 0 <= n <= |init| && init == init[..n] + Pending(r))
  {
    if !IsTcpName(l.name.value) && io.openSerial(l.name.value).Opened? {
      SetupOpened(l, now, io);
    }
  }

  /** An opened device: the init strings are queued and flushed once. */
  lemma SetupOpened(l: Line, now: int, io: Io)
    requires Valid(l) && l.name.Some? && !IsTcpName(l.name.value) && io.openSerial(l.name.value).Opened?
    ensures var r := LineSetup(l, now, io);
            var init := InitBytes(l.initStrings);
            && r.fd == io.openSerial(l.name.value).fd
            && exists n :: 0 <= n <= |init| && init == init[..n] + Pending(r)
  {
    var r := LineSetup(l, now, io);
    var name := l.name.value;
    var l1 := l.(waitUntil := 0, wrbuf := InitBytes(l.initStrings), wrcursor := 0, fd := io.openSerial(name).fd);
    assert Pending(l1) == InitBytes(l.initStrings);
    var w := LineWrite(l1, io);
    assert Pending(r) == Pending(w);
    var n := Written(l1, io);
    assert InitBytes(l.initStrings) == InitBytes(l.initStrings)[..n] + Pending(r);
  }

  /** A failed TCP connect leaves the line closed with no retry delay, so the
      very next poll round tries again: an open descriptor implies no retry
      delay, but not the other way round. */
  lemma TcpFailureRetriesAtOnce(l: Line, now: int, later: int, io: Io)
    requires Valid(l) && l.name.Some? && IsTcpName(l.name.value) && l.fd < 0
    requires !io.connect(SplitTcp(l.name.value).host, SplitTcp(l.name.value).port).Connected?
    ensures var r := LineSetup(l, now, io);
            && r.fd < 0 && r.waitUntil == 0
            && !Waiting(r, later)
            && PrepollLine(r, later, 0, io).line == LineSetup(r, later, io)
  {
    var r := LineSetup(l, now, io);
    assert r.name == l.name;
  }

  /** A waiting line is left alone and only pulls the poll timeout in. */
  lemma PrepollSkipsWaiting(l: Line, now: int, nextTimeout: int, io: Io)
    requires Valid(l) && l.name.Some? && Waiting(l, now)
    ensures PrepollLine(l, now, nextTimeout, io) == Prepolled(l, None, Min(nextTimeout, l.waitUntil))
  {
  }

  /** An open line silent for longer than its timeout is closed for a retry
      in 30 s and not polled. */
  lemma PrepollIdleTimeout(l: Line, now: int, nextTimeout: int, io: Io)
    requires Valid(l) && l.name.Some? && l.fd >= 0 && IdleTimedOut(l, now)
    ensures var r := PrepollLine(l, now, nextTimeout, io);
            r.line == l.(fd := -1, waitUntil := now + RetryDelay) && r.poll.None?
  {
  }

  /** A new line is opened at the first poll round: on a device that opens,
      it is polled for input at once, and for output exactly when some init
      bytes are still unsent. */
  lemma NewOpensAtOnce(created: int, now: int, name: string, rdbufSize: nat, wrbufSize: nat, rdlineSize: nat,
                       io: Io)
    requires rdlineSize >= 3 && created <= now
    requires !IsTcpName(name) && io.openSerial(name).Opened?
    ensures var l := New(created, rdbufSize, wrbufSize, rdlineSize).(name := Some(name));
            var r := PrepollLine(l, now, now + 60, io);
            && r.line.fd == io.openSerial(name).fd
            && r.poll == Some(PollRequest(r.line.fd, Pending(r.line) != []))
  {
    var l := New(created, rdbufSize, wrbufSize, rdlineSize).(name := Some(name));
    assert !Waiting(l, now);
    var s := LineSetup(l, now, io);
    assert s.fd == io.openSerial(name).fd && s.readTimeout == 0;
  }

  /** Every operation of the line layer keeps a line at rest. */
  lemma RestKept(l: Line, now: int, nextTimeout: int, tncid: nat, raw: seq<byte>, p: PollResult, io: Io)
    requires AtRest(l)
    requires tncid < SubChannels
    ensures AtRest(LineWrite(l, io))
    ensures AtRest(KissWrite(l, tncid, raw, io).line)
    ensures AtRest(LineRead(l, now, io).line)
    ensures l.name.Some? ==> AtRest(LineSetup(l, now, io))
    ensures AtRest(PrepollLine(l, now, nextTimeout, io).line)
    ensures AtRest(ServeLine(l, p, now, io).line)
  {
    var w := LineWrite(l, io);
    assert w.fd == l.fd && w.waitUntil == l.waitUntil;
    var k := KissWrite(l, tncid, raw, io).line;
    assert k.fd == l.fd && k.waitUntil == l.waitUntil;
    if l.fd == p.fd && p.revents.out {
      assert AtRest(w);
      assert ServeLine(l, p, now, io) == LineRead(w, now, io);
    }
  }

  /** Poll results carrying only POLLOUT (or nothing) change no line. */
  lemma {:induction false} PostpollIgnoresWriteOnly(lines: seq<Line>, polls: seq<PollResult>, now: int, io: Io)
    requires AllValid(lines)
    requires forall i :: 0 <= i < |polls| ==> !Readable(polls[i].revents)
    ensures Postpoll(lines, polls, now, io) == Served(lines, [])
    decreases |polls|
  {
    if polls != [] {
      PostpollIgnoresWriteOnly(lines, polls[1..], now, io);
    }
  }

  /** Only the lines whose descriptor matches the ready one are touched. */
  lemma {:induction false} ServeAllMatching(lines: seq<Line>, p: PollResult, now: int, io: Io)
    requires AllValid(lines)
    ensures var r := ServeAll(lines, p, now, io);
            forall i :: 0 <= i < |lines| && lines[i].fd != p.fd ==> r.lines[i] == lines[i]
    decreases |lines|
  {
    if lines != [] {
      AllValidTail(lines);
      ServeAllMatching(lines[1..], p, now, io);
      var r := ServeAll(lines, p, now, io);
      var rest := ServeAll(lines[1..], p, now, io);
      forall i | 1 <= i < |lines| && lines[i].fd != p.fd ensures r.lines[i] == lines[i] {
        assert r.lines[i] == rest.lines[i - 1];
        assert lines[1..][i - 1] == lines[i];
      }
    }
  }
}
