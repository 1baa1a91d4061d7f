/** The `radio` sub-keywords of ttyreader_parse_ttyparams: baud rates that
    are skipped, the line type, the idle timeout, and the per-sub-channel
    callsign and init-string bindings selected by `tncid`. The input is the
    list of words config_SKIPTEXT cuts from the line; each is lower-cased
    first, as config_STRLOWER does to the whole line. */
module Config {
  import opened Bytes
  import opened Lines

  // ---------------------------------------------------------------------------
  // Characters and numbers

  predicate IsUpperLetter(c: char) { 'A' <= c <= 'Z' }
  predicate IsLowerLetter(c: char) { 'a' <= c <= 'z' }
  predicate IsDigit(c: char) { '0' <= c <= '9' }

  function LowerChar(c: char): char {
    if IsUpperLetter(c) then (c as int + 32) as char else c
  }

  function UpperChar(c: char): char {
    if IsLowerLetter(c) then (c as int - 32) as char else c
  }

  /** config_STRLOWER: ASCII letters only. */
  function Lower(s: string): (r: string)
    ensures |r| == |s|
    ensures forall i :: 0 <= i < |s| ==> !IsUpperLetter(r[i])
  {
    seq(|s|, i requires 0 <= i < |s| => LowerChar(s[i]))
  }

  /** config_STRUPPER: ASCII letters only. */
  function Upper(s: string): (r: string)
    ensures |r| == |s|
    ensures forall i :: 0 <= i < |s| ==> !IsLowerLetter(r[i])
  {
    seq(|s|, i requires 0 <= i < |s| => UpperChar(s[i]))
  }

  /** The bytes of a configuration word: characters reduced to octets. */
  function Octets(s: string): (r: seq<byte>)
    ensures |r| == |s|
  {
    seq(|s|, i requires 0 <= i < |s| => (s[i] as int % 256) as byte)
  }

  /** Length of the run of decimal digits `s` starts with. */
  function DigitRun(s: string): (n: nat)
    ensures n <= |s|
    ensures forall i :: 0 <= i < n ==> IsDigit(s[i])
    ensures n < |s| ==> !IsDigit(s[n])
  {
    if s == [] || !IsDigit(s[0]) then 0 else 1 + DigitRun(s[1..])
  }

  /** Value of a string of decimal digits, most significant first. */
  function DigitsValue(d: string): nat
    requires forall i :: 0 <= i < |d| ==> IsDigit(d[i])
  {
    if d == [] then 0
    else
      assert IsDigit(d[|d| - 1]);
      10 * DigitsValue(d[..|d| - 1]) + (d[|d| - 1] as int - '0' as int)
  }

  /** atol(3) / atoi(3) on a word: optional sign, then the leading digits;
      no digits gives 0. Overflow is not modelled. */
  function Atol(s: string): int {
    if |s| > 0 && s[0] == '-' then -(Unsigned(s[1..]) as int)
    else if |s| > 0 && s[0] == '+' then Unsigned(s[1..])
    else Unsigned(s)
  }

  /** The value of the leading digits of a word. */
  function Unsigned(s: string): nat {
    DigitsValue(s[..DigitRun(s)])
  }

  /** Decimal digits of a natural number, most significant first. */
  function Decimal(n: nat): (s: string)
    ensures |s| > 0
    ensures forall i :: 0 <= i < |s| ==> IsDigit(s[i])
  {
    var c := ('0' as int + n % 10) as char;
    if n < 10 then [c] else Decimal(n / 10) + [c]
  }

  // ---------------------------------------------------------------------------
  // ttyreader_parse_ttyparams

  /** The speeds the baud-rate switch recognises. */
  const BaudRates: set<int> := {1200, 2400, 4800, 9600, 19200, 38400}

  /** The 16-entry tables of a line have their size. */
  ghost predicate Tables(l: Line) {
    |l.callsigns| == SubChannels && |l.netax25| == SubChannels && |l.initStrings| == SubChannels
  }

  /** What a lower-cased word is to the parser. */
  datatype Word = Speed | TypeName(t: LineType) | CallsignKey | TimeoutKey | TncidKey | InitKey | Other

  /** The keyword chain of the word loop, in its order: the speed test comes
      first, so a word such as "9600baud" is a speed. `8n1`, `poll` and
      unknown words all do nothing. */
  function Classify(p: string): (w: Word)
    ensures w == Speed <==> Atol(p) in BaudRates
  {
    if Atol(p) in BaudRates then Speed
    else if p == "kiss" then TypeName(PlainKiss)
    else if p == "xorsum" || p == "bpqcrc" then TypeName(KissXor)
    else if p == "smack" || p == "crc16" then TypeName(KissSmack)
    else if p == "tnc2" then TypeName(Tnc2Text)
    else if p == "callsign" || p == "alias" then CallsignKey
    else if p == "timeout" then TimeoutKey
    else if p == "tncid" then TncidKey
    else if p == "initstring" then InitKey
    else Other
  }

  /** The line after a prefix of the words, and the sub-channel a following
      callsign or init string would bind to. */
  datatype Parsed = Parsed(line: Line, tncid: nat)

  /** The word loop. A recognised speed is skipped; `8n1` and `poll` do
      nothing; the four line types and their aliases select the type;
      `callsign`/`alias`, `timeout`, `tncid` and `initstring` take the next
      word (an empty one at the end of the line); a `tncid` outside 0..15
      selects 0; anything else is ignored. Only the line type, the timeout
      and the three sub-channel tables change. */
  function ParseFrom(l: Line, words: seq<string>, tncid: nat, netOpen: string -> Option<nat>): (r: Parsed)
    requires tncid < SubChannels && Tables(l)
    ensures r.tncid < SubChannels && Tables(r.line)
    ensures r.line == l.(lineType := r.line.lineType, readTimeout := r.line.readTimeout,
                         callsigns := r.line.callsigns, netax25 := r.line.netax25,
                         initStrings := r.line.initStrings)
    decreases |words|
  {
    if words == [] then Parsed(l, tncid)
    else
      var rest := words[1..];
      var arg := if rest == [] then "" else Lower(rest[0]);
      var after := if rest == [] then [] else rest[1..];
      match Classify(Lower(words[0]))
      case Speed => ParseFrom(l, rest, tncid, netOpen)
      case Other => ParseFrom(l, rest, tncid, netOpen)
      case TypeName(t) => ParseFrom(l.(lineType := t), rest, tncid, netOpen)
      case CallsignKey =>
        var call := Upper(arg);
        ParseFrom(l.(callsigns := l.callsigns[tncid := Some(call)], netax25 := l.netax25[tncid := netOpen(call)]),
                  after, tncid, netOpen)
      case TimeoutKey => ParseFrom(l.(readTimeout := Atol(arg)), after, tncid, netOpen)
      case TncidKey =>
        var t := Atol(arg);
        ParseFrom(l, after, if 0 <= t < SubChannels then t else 0, netOpen)
      case InitKey =>
        ParseFrom(l.(initStrings := l.initStrings[tncid := Some(Octets(arg))]), after, tncid, netOpen)
  }

  /** ttyreader_parse_ttyparams: the word loop from sub-channel 0. The line
      stays well formed exactly when the init strings still fit the write
      buffer (the source copies them there with no bound check). */
  function ParseParams(l: Line, words: seq<string>, netOpen: string -> Option<nat>): (r: Line)
    requires Valid(l)
    ensures r == l.(lineType := r.lineType, readTimeout := r.readTimeout, callsigns := r.callsigns,
                    netax25 := r.netax25, initStrings := r.initStrings)
    ensures Valid(r) <==> InitLength(r.initStrings) <= r.wrbufSize
  {
    ParseFrom(l, words, 0, netOpen).line
  }

  // ---------------------------------------------------------------------------
  // Rendering settings as words: the reference the parser is checked against

  /** What one sub-channel is configured with. */
  datatype Binding = Binding(tncid: nat, callsign: Option<string>, init: Option<string>)

  /** A configuration: an optional speed, the line type, the idle timeout and
      the sub-channel bindings. */
  datatype Settings = Settings(baud: Option<nat>, lineType: LineType, timeout: nat, bindings: seq<Binding>)

  function TypeWord(t: LineType): string {
    match t
    case PlainKiss => "kiss"
    case KissXor => "xorsum"
    case KissSmack => "smack"
    case Tnc2Text => "tnc2"
  }

  function CallWords(b: Binding): seq<string> {
    if b.callsign.Some? then ["callsign", b.callsign.value] else []
  }

  function InitWords(b: Binding): seq<string> {
    if b.init.Some? then ["initstring", b.init.value] else []
  }

  function BindingWords(bs: seq<Binding>): seq<string>
    decreases |bs|
  {
    if bs == [] then []
    else
      var b := bs[0];
      ["tncid", Decimal(b.tncid)] + CallWords(b) + InitWords(b) + BindingWords(bs[1..])
  }

  function Render(s: Settings): seq<string> {
    (if s.baud.Some? then [Decimal(s.baud.value)] else [])
    + [TypeWord(s.lineType), "timeout", Decimal(s.timeout)]
    + BindingWords(s.bindings)
  }

  /** Settings the words can express: a known speed, sub-channels in range
      and named once, callsigns without lower-case letters (they are stored
      upper-cased), init strings without upper-case letters (the whole line
      is lower-cased first). */
  ghost predicate Expressible(s: Settings) {
    && (s.baud.Some? ==> s.baud.value in BaudRates)
    && (forall i :: 0 <= i < |s.bindings| ==> s.bindings[i].tncid < SubChannels)
    && (forall i :: 0 <= i < |s.bindings| ==> BindingExpressible(s.bindings[i]))
    && (forall i, j :: 0 <= i < j < |s.bindings| ==> s.bindings[i].tncid != s.bindings[j].tncid)
  }

  ghost predicate BindingExpressible(b: Binding) {
    && (b.callsign.Some? ==> forall k :: 0 <= k < |b.callsign.value| ==> !IsLowerLetter(b.callsign.value[k]))
    && (b.init.Some? ==> forall k :: 0 <= k < |b.init.value| ==> !IsUpperLetter(b.init.value[k]))
  }

  /** The table entries a binding list leaves to a line. */
  ghost predicate Bound(l: Line, r: Line, bs: seq<Binding>, netOpen: string -> Option<nat>)
    requires Tables(l) && Tables(r)
    requires forall i :: 0 <= i < |bs| ==> bs[i].tncid < SubChannels
  {
    && (forall i :: 0 <= i < |bs| ==>
          var b := bs[i];
          && r.callsigns[b.tncid] == (if b.callsign.Some? then Some(b.callsign.value) else l.callsigns[b.tncid])
          && r.netax25[b.tncid] == (if b.callsign.Some? then netOpen(b.callsign.value) else l.netax25[b.tncid])
          && r.initStrings[b.tncid] == (if b.init.Some? then Some(Octets(b.init.value)) else l.initStrings[b.tncid]))
    && (forall t :: 0 <= t < SubChannels && (forall i :: 0 <= i < |bs| ==> bs[i].tncid != t) ==>
          r.callsigns[t] == l.callsigns[t] && r.netax25[t] == l.netax25[t] && r.initStrings[t] == l.initStrings[t])
  }

  // ---------------------------------------------------------------------------
  // Lemmas

  /** Upper-casing a lower-cased word gives back a word with no lower-case
      letters, and such a word is its own upper case; likewise downwards. */
  lemma CaseRoundTrip(s: string)
    ensures (forall k :: 0 <= k < |s| ==> !IsLowerLetter(s[k])) ==> Upper(Lower(s)) == s
    ensures (forall k :: 0 <= k < |s| ==> !IsUpperLetter(s[k])) ==> Lower(s) == s
    ensures Upper(Lower(s)) == Upper(s)
  {
  }

  lemma {:induction false} DigitsValueDecimal(n: nat)
    ensures DigitsValue(Decimal(n)) == n
    decreases n
  {
    if n >= 10 {
      DigitsValueDecimal(n / 10);
      var d := Decimal(n);
      assert d[..|d| - 1] == Decimal(n / 10);
    }
  }

  /** atol reads back what Decimal prints, signed or not, whatever non-digit
      text follows. */
  lemma AtolDecimal(n: nat, tail: string)
    requires tail == [] || !IsDigit(tail[0])
    ensures Atol(Decimal(n) + tail) == n
    ensures Atol("-" + Decimal(n) + tail) == -(n as int)
    ensures Atol("+" + Decimal(n) + tail) == n
  {
    UnsignedDecimal(n, tail);
    AtolPlain(n, tail);
    AtolSigned(n, tail, '-');
    AtolSigned(n, tail, '+');
  }

  lemma AtolPlain(n: nat, tail: string)
    requires Unsigned(Decimal(n) + tail) == n
    ensures Atol(Decimal(n) + tail) == n
  {
    assert IsDigit((Decimal(n) + tail)[0]);
  }

  lemma AtolSigned(n: nat, tail: string, sign: char)
    requires Unsigned(Decimal(n) + tail) == n
    requires sign == '-' || sign == '+'
    ensures Atol([sign] + Decimal(n) + tail) == if sign == '-' then -(n as int) else n
  {
    assert ([sign] + Decimal(n) + tail)[1..] == Decimal(n) + tail;
  }

  lemma UnsignedDecimal(n: nat, tail: string)
    requires tail == [] || !IsDigit(tail[0])
    ensures Unsigned(Decimal(n) + tail) == n
  {
    var d := Decimal(n);
    DigitsValueDecimal(n);
    RunOf(d, tail);
    assert (d + tail)[..|d|] == d;
  }

  lemma {:induction false} RunOf(d: string, tail: string)
    requires forall i :: 0 <= i < |d| ==> IsDigit(d[i])
    requires tail == [] || !IsDigit(tail[0])
    ensures DigitRun(d + tail) == |d|
    decreases |d|
  {
    if d != [] {
      assert (d + tail)[1..] == d[1..] + tail;
      RunOf(d[1..], tail);
    } else {
      assert d + tail == tail;
    }
  }

  lemma LowerDecimal(n: nat)
    ensures Lower(Decimal(n)) == Decimal(n)
  {
  }

  /** A word starting with a letter is no number. */
  lemma WordIsNoNumber(w: string)
    requires |w| > 0 && IsLowerLetter(w[0])
    ensures Atol(w) == 0
  {
    assert w[..0] == [];
  }

  /** A word of lower-case letters is its own lower case and no number. */
  lemma Keyword(w: string)
    requires |w| > 0 && forall i :: 0 <= i < |w| ==> IsLowerLetter(w[i])
    ensures Lower(w) == w && Atol(w) == 0
  {
    WordIsNoNumber(w);
  }

  /** A word that lower-cases to the keyword `k` is classified as `k`. */
  lemma KeywordAs(w: string, k: string)
    requires |w| == |k| && forall i :: 0 <= i < |w| ==> LowerChar(w[i]) == k[i]
    ensures Lower(w) == k
  {
  }

  lemma TncidKeyword()
    ensures Classify("tncid") == TncidKey
  {
    Keyword("tncid");
  }

  lemma CallsignKeywords()
    ensures Classify("callsign") == CallsignKey && Classify("alias") == CallsignKey
  {
    Keyword("callsign");
    Keyword("alias");
  }

  /** A word holding the decimal digits of `n` reads as `n`. */
  lemma DecimalWord(w: string, n: nat)
    requires w == Decimal(n)
    ensures Lower(w) == w && Atol(Lower(w)) == n
  {
    NumberWord(n);
  }

  /** A callsign word as stored: lower-cased by the line, then upper-cased. */
  lemma CallsignWord(w: string, u: string)
    requires |w| == |u| && forall i :: 0 <= i < |w| ==> UpperChar(LowerChar(w[i])) == u[i]
    ensures Upper(Lower(w)) == u
  {
  }

  lemma TypeKeyword(t: LineType)
    ensures Lower(TypeWord(t)) == TypeWord(t) && Classify(TypeWord(t)) == TypeName(t)
  {
    WordIsNoNumber(TypeWord(t));
  }

  // One step of the word loop for each kind of word.

  lemma StepWord(l: Line, key: string, rest: seq<string>, t: nat, netOpen: string -> Option<nat>)
    requires t < SubChannels && Tables(l)
    ensures var w := Classify(Lower(key));
            && (w == Speed || w == Other ==> ParseFrom(l, [key] + rest, t, netOpen) == ParseFrom(l, rest, t, netOpen))
            && (w.TypeName? ==> ParseFrom(l, [key] + rest, t, netOpen) == ParseFrom(l.(lineType := w.t), rest, t, netOpen))
  {
    assert ([key] + rest)[1..] == rest;
  }

  lemma StepCallsign(l: Line, key: string, arg: string, rest: seq<string>, t: nat, netOpen: string -> Option<nat>)
    requires t < SubChannels && Tables(l) && Classify(Lower(key)) == CallsignKey
    ensures var call := Upper(Lower(arg));
            ParseFrom(l, [key, arg] + rest, t, netOpen)
            == ParseFrom(l.(callsigns := l.callsigns[t := Some(call)], netax25 := l.netax25[t := netOpen(call)]),
                         rest, t, netOpen)
  {
    assert ([key, arg] + rest)[1..] == [arg] + rest && ([arg] + rest)[1..] == rest;
  }

  lemma StepTimeout(l: Line, key: string, arg: string, rest: seq<string>, t: nat, netOpen: string -> Option<nat>)
    requires t < SubChannels && Tables(l) && Classify(Lower(key)) == TimeoutKey
    ensures ParseFrom(l, [key, arg] + rest, t, netOpen)
            == ParseFrom(l.(readTimeout := Atol(Lower(arg))), rest, t, netOpen)
  {
    assert ([key, arg] + rest)[1..] == [arg] + rest && ([arg] + rest)[1..] == rest;
  }

  lemma StepTncid(l: Line, key: string, arg: string, rest: seq<string>, t: nat, netOpen: string -> Option<nat>)
    requires t < SubChannels && Tables(l) && Classify(Lower(key)) == TncidKey
    ensures var n := Atol(Lower(arg));
            ParseFrom(l, [key, arg] + rest, t, netOpen)
            == ParseFrom(l, rest, if 0 <= n < SubChannels then n else 0, netOpen)
  {
    assert ([key, arg] + rest)[1..] == [arg] + rest && ([arg] + rest)[1..] == rest;
  }

  lemma StepInit(l: Line, key: string, arg: string, rest: seq<string>, t: nat, netOpen: string -> Option<nat>)
    requires t < SubChannels && Tables(l) && Classify(Lower(key)) == InitKey
    ensures ParseFrom(l, [key, arg] + rest, t, netOpen)
            == ParseFrom(l.(initStrings := l.initStrings[t := Some(Octets(Lower(arg)))]), rest, t, netOpen)
  {
    assert ([key, arg] + rest)[1..] == [arg] + rest && ([arg] + rest)[1..] == rest;
  }

  /** Decimal numbers survive lower-casing and read back. */
  lemma NumberWord(n: nat)
    ensures Lower(Decimal(n)) == Decimal(n) && Atol(Decimal(n)) == n
  {
    LowerDecimal(n);
    AtolDecimal(n, []);
    assert Decimal(n) + [] == Decimal(n);
  }

  /** What one binding does to the tables. */
  function Apply(l: Line, b: Binding, netOpen: string -> Option<nat>): (r: Line)
    requires Tables(l) && b.tncid < SubChannels
    ensures Tables(r)
  {
    ApplyInit(ApplyCall(l, b, netOpen), b)
  }

  function ApplyCall(l: Line, b: Binding, netOpen: string -> Option<nat>): (r: Line)
    requires Tables(l) && b.tncid < SubChannels
    ensures Tables(r)
  {
    if b.callsign.Some? then
      l.(callsigns := l.callsigns[b.tncid := Some(b.callsign.value)],
         netax25 := l.netax25[b.tncid := netOpen(b.callsign.value)])
    else l
  }

  function ApplyInit(l: Line, b: Binding): (r: Line)
    requires Tables(l) && b.tncid < SubChannels
    ensures Tables(r)
  {
    if b.init.Some? then l.(initStrings := l.initStrings[b.tncid := Some(Octets(b.init.value))]) else l
  }

  /** The words of one binding select its sub-channel and apply it. */
  lemma ParseOneBinding(l: Line, b: Binding, rest: seq<string>, t: nat, netOpen: string -> Option<nat>)
    requires t < SubChannels && Tables(l) && b.tncid < SubChannels && BindingExpressible(b)
    ensures ParseFrom(l, BindingWords([b]) + rest, t, netOpen) == ParseFrom(Apply(l, b, netOpen), rest, b.tncid, netOpen)
  {
    var w2 := InitWords(b) + rest;
    var w1 := CallWords(b) + w2;
    assert BindingWords([b]) + rest == ["tncid", Decimal(b.tncid)] + w1 by {
      assert [b][1..] == [];
    }
    Keyword("tncid");
    NumberWord(b.tncid);
    StepTncid(l, "tncid", Decimal(b.tncid), w1, t, netOpen);
    CallWordsStep(l, b, w2, netOpen);
    InitWordsStep(ApplyCall(l, b, netOpen), b, rest, netOpen);
  }

  lemma CallWordsStep(l: Line, b: Binding, rest: seq<string>, netOpen: string -> Option<nat>)
    requires Tables(l) && b.tncid < SubChannels && BindingExpressible(b)
    ensures ParseFrom(l, CallWords(b) + rest, b.tncid, netOpen) == ParseFrom(ApplyCall(l, b, netOpen), rest, b.tncid, netOpen)
  {
    if b.callsign.Some? {
      Keyword("callsign");
      CaseRoundTrip(b.callsign.value);
      StepCallsign(l, "callsign", b.callsign.value, rest, b.tncid, netOpen);
    } else {
      assert CallWords(b) + rest == rest;
    }
  }

  lemma InitWordsStep(l: Line, b: Binding, rest: seq<string>, netOpen: string -> Option<nat>)
    requires Tables(l) && b.tncid < SubChannels && BindingExpressible(b)
    ensures ParseFrom(l, InitWords(b) + rest, b.tncid, netOpen) == ParseFrom(ApplyInit(l, b), rest, b.tncid, netOpen)
  {
    if b.init.Some? {
      Keyword("initstring");
      CaseRoundTrip(b.init.value);
      StepInit(l, "initstring", b.init.value, rest, b.tncid, netOpen);
    } else {
      assert InitWords(b) + rest == rest;
    }
  }

  lemma BindingWordsCons(bs: seq<Binding>)
    requires bs != []
    ensures BindingWords(bs) == BindingWords([bs[0]]) + BindingWords(bs[1..])
  {
    assert [bs[0]][1..] == [];
  }

  /** Binding the first entry, then the rest, binds them all. */
  lemma BoundCons(l: Line, r: Line, bs: seq<Binding>, netOpen: string -> Option<nat>)
    requires bs != [] && Tables(l) && Tables(r)
    requires forall i :: 0 <= i < |bs| ==> bs[i].tncid < SubChannels
    requires forall i, j :: 0 <= i < j < |bs| ==> bs[i].tncid != bs[j].tncid
    requires Bound(Apply(l, bs[0], netOpen), r, bs[1..], netOpen)
    ensures Bound(l, r, bs, netOpen)
  {
    var b := bs[0];
    var l2 := Apply(l, b, netOpen);
    forall i | 0 <= i < |bs|
      ensures r.callsigns[bs[i].tncid] == (if bs[i].callsign.Some? then Some(bs[i].callsign.value) else l.callsigns[bs[i].tncid])
      ensures r.netax25[bs[i].tncid] == (if bs[i].callsign.Some? then netOpen(bs[i].callsign.value) else l.netax25[bs[i].tncid])
      ensures r.initStrings[bs[i].tncid] == (if bs[i].init.Some? then Some(Octets(bs[i].init.value)) else l.initStrings[bs[i].tncid])
    {
      if i == 0 {
        assert forall j :: 0 <= j < |bs[1..]| ==> bs[1..][j].tncid != b.tncid;
      } else {
        assert bs[i] == bs[1..][i - 1];
        assert bs[i].tncid != b.tncid;
      }
    }
    forall u | 0 <= u < SubChannels && (forall i :: 0 <= i < |bs| ==> bs[i].tncid != u)
      ensures r.callsigns[u] == l.callsigns[u] && r.netax25[u] == l.netax25[u] && r.initStrings[u] == l.initStrings[u]
    {
      assert bs[0].tncid != u;
      assert forall j :: 0 <= j < |bs[1..]| ==> bs[1..][j].tncid != u by {
        forall j | 0 <= j < |bs[1..]| ensures bs[1..][j].tncid != u { assert bs[1..][j] == bs[j + 1]; }
      }
    }
  }

  /** Parsing the binding words of well-formed bindings makes exactly those
      bindings and leaves the line type and the timeout alone. */
  lemma {:induction false} ParseBindings(l: Line, bs: seq<Binding>, t: nat, netOpen: string -> Option<nat>)
    requires t < SubChannels && Tables(l)
    requires forall i :: 0 <= i < |bs| ==> bs[i].tncid < SubChannels
    requires forall i :: 0 <= i < |bs| ==> BindingExpressible(bs[i])
    requires forall i, j :: 0 <= i < j < |bs| ==> bs[i].tncid != bs[j].tncid
    ensures var r := ParseFrom(l, BindingWords(bs), t, netOpen).line;
            && r.lineType == l.lineType && r.readTimeout == l.readTimeout
            && Bound(l, r, bs, netOpen)
    decreases |bs|
  {
    if bs != [] {
      var b := bs[0];
      BindingWordsCons(bs);
      ParseOneBinding(l, b, BindingWords(bs[1..]), t, netOpen);
      var l2 := Apply(l, b, netOpen);
      ParseBindings(l2, bs[1..], b.tncid, netOpen);
      BoundCons(l, ParseFrom(l, BindingWords(bs), t, netOpen).line, bs, netOpen);
    }
  }

  /** Round trip: parsing the rendering of expressible settings configures
      a line with exactly those settings; sub-channels not named keep their
      entries. */
  lemma ParseRender(l: Line, s: Settings, netOpen: string -> Option<nat>)
    requires Valid(l) && Expressible(s)
    ensures var r := ParseParams(l, Render(s), netOpen);
            && r.lineType == s.lineType && r.readTimeout == s.timeout
            && Bound(l, r, s.bindings, netOpen)
  {
    assert Tables(l);
    var lo := l.(lineType := s.lineType, readTimeout := s.timeout);
    RenderHeader(l, s, netOpen);
    ParseBindings(lo, s.bindings, 0, netOpen);
  }

  /** The speed, type and timeout words of a rendering set the type and the
      timeout and leave the binding words. */
  lemma RenderHeader(l: Line, s: Settings, netOpen: string -> Option<nat>)
    requires Tables(l) && (s.baud.Some? ==> s.baud.value in BaudRates)
    ensures ParseFrom(l, Render(s), 0, netOpen)
            == ParseFrom(l.(lineType := s.lineType, readTimeout := s.timeout), BindingWords(s.bindings), 0, netOpen)
  {
    var typed := [TypeWord(s.lineType)] + (["timeout", Decimal(s.timeout)] + BindingWords(s.bindings));
    TypedHeader(l, s.lineType, s.timeout, BindingWords(s.bindings), netOpen);
    RenderTyped(s);
    if s.baud.Some? {
      SpeedWord(l, s.baud.value, typed, netOpen);
    }
  }

  lemma RenderTyped(s: Settings)
    ensures var typed := [TypeWord(s.lineType)] + (["timeout", Decimal(s.timeout)] + BindingWords(s.bindings));
            Render(s) == if s.baud.Some? then [Decimal(s.baud.value)] + typed else typed
  {
  }

  /** A supported speed, written as a number, is skipped. */
  lemma SpeedWord(l: Line, b: nat, rest: seq<string>, netOpen: string -> Option<nat>)
    requires Tables(l) && b in BaudRates
    ensures ParseFrom(l, [Decimal(b)] + rest, 0, netOpen) == ParseFrom(l, rest, 0, netOpen)
  {
    NumberWord(b);
    StepWord(l, Decimal(b), rest, 0, netOpen);
  }

  lemma TypedHeader(l: Line, lt: LineType, timeout: nat, w: seq<string>, netOpen: string -> Option<nat>)
    requires Tables(l)
    ensures ParseFrom(l, [TypeWord(lt)] + (["timeout", Decimal(timeout)] + w), 0, netOpen)
            == ParseFrom(l.(lineType := lt, readTimeout := timeout), w, 0, netOpen)
  {
    var lt1 := l.(lineType := lt);
    Keyword("timeout");
    TypeKeyword(lt);
    NumberWord(timeout);
    StepWord(l, TypeWord(lt), ["timeout", Decimal(timeout)] + w, 0, netOpen);
    StepTimeout(lt1, "timeout", Decimal(timeout), w, 0, netOpen);
    assert lt1.(readTimeout := timeout) == l.(lineType := lt, readTimeout := timeout);
  }

  /** A callsign goes to the sub-channel the preceding `tncid` selected,
      whatever the case of the words. */
  lemma TncidSelects(l: Line, netOpen: string -> Option<nat>)
    requires Valid(l)
    ensures ParseParams(l, ["TncId", "3", "callsign", "oh2xyz-1"], netOpen).callsigns[3] == Some("OH2XYZ-1")
  {
    TncidWords();
    NumberWords();
    CallsignWords();
    StoredCallsigns();
    assert ["TncId", "3", "callsign", "oh2xyz-1"] == ["TncId", "3"] + (["callsign", "oh2xyz-1"] + []);
    StepTncid(l, "TncId", "3", ["callsign", "oh2xyz-1"], 0, netOpen);
    StepCallsign(l, "callsign", "oh2xyz-1", [], 3, netOpen);
  }

  /** An out-of-range `tncid` selects sub-channel 0. */
  lemma TncidOutOfRange(l: Line, netOpen: string -> Option<nat>)
    requires Valid(l)
    ensures ParseParams(l, ["tncid", "99", "alias", "n0call"], netOpen).callsigns[0] == Some("N0CALL")
  {
    TncidWords();
    NumberWords();
    CallsignWords();
    StoredCallsigns();
    assert ["tncid", "99", "alias", "n0call"] == ["tncid", "99"] + (["alias", "n0call"] + []);
    StepTncid(l, "tncid", "99", ["alias", "n0call"], 0, netOpen);
    StepCallsign(l, "alias", "n0call", [], 0, netOpen);
  }

  // The words of the two examples above, one kind at a time.

  lemma TncidWords()
    ensures Classify(Lower("TncId")) == TncidKey && Classify(Lower("tncid")) == TncidKey
  {
    KeywordAs("TncId", "tncid");
    KeywordAs("tncid", "tncid");
    TncidKeyword();
  }

  lemma CallsignWords()
    ensures Classify(Lower("callsign")) == CallsignKey && Classify(Lower("alias")) == CallsignKey
  {
    KeywordAs("callsign", "callsign");
    KeywordAs("alias", "alias");
    CallsignKeywords();
  }

  lemma NumberWords()
    ensures Atol(Lower("3")) == 3 && Atol(Lower("99")) == 99
  {
    DecimalWord("3", 3);
    DecimalWord("99", 99);
  }

  lemma StoredCallsigns()
    ensures Upper(Lower("oh2xyz-1")) == "OH2XYZ-1" && Upper(Lower("n0call")) == "N0CALL"
  {
    CallsignWord("oh2xyz-1", "OH2XYZ-1");
    CallsignWord("n0call", "N0CALL");
  }

  /** The whole line is lower-cased before the words are cut, so an init
      string is stored in lower case whatever was written. */
  lemma InitStringLowered(l: Line, netOpen: string -> Option<nat>)
    requires Valid(l)
    ensures ParseParams(l, ["initstring", "KISS"], netOpen).initStrings[0] == Some(Octets("kiss"))
  {
    Keyword("initstring");
    assert Lower("KISS") == "kiss";
    assert ["initstring", "KISS"] == ["initstring", "KISS"] + [];
    StepInit(l, "initstring", "KISS", [], 0, netOpen);
  }

  /** A word that parses as a supported speed is consumed and changes
      nothing, even one with trailing text. */
  lemma SpeedWordSkipped(l: Line, rest: seq<string>, t: nat, netOpen: string -> Option<nat>)
    requires t < SubChannels && Tables(l)
    ensures ParseFrom(l, ["9600baud"] + rest, t, netOpen) == ParseFrom(l, rest, t, netOpen)
  {
    assert Lower("9600baud") == "9600baud";
    assert "9600baud" == Decimal(9600) + "baud";
    AtolDecimal(9600, "baud");
    assert (["9600baud"] + rest)[1..] == rest;
  }
}
