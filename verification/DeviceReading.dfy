/**
 How a device reads a printed ping or traceroute: it splits the line into words and
 takes clauses with the platform's own keywords, in the order the platform lists them. The builders' output is
 read back as exactly the request, with one family of exceptions on IOS traceroute.
 */
module DeviceReading {
  import opened Text
  import opened CommandSafety
  import opened DeviceCommands

  // ----- the reader

  /** The keywords a platform understands in ping and traceroute commands. */
  datatype Keywords = Keywords(count: string, size: string, vrf: string, hops: string, wait: string)

  function KeywordsOf(dt: DeviceType): Keywords {
    match dt
    case NXOS => Keywords("count", "packet-size", "vrf", "maximum-hops", "timeout")
    case JunOS => Keywords("count", "size", "routing-instance", "ttl", "wait")
    case _ => Keywords("repeat", "size", "vrf", "maximum-hops", "timeout")
  }

  /** The printer uses the platform's keywords. */
  lemma PrinterKeywords(dt: DeviceType)
    ensures KeywordsOf(dt) == Keywords(CountWord(dt), SizeWord(dt), VrfWord(dt), HopsWord(dt), WaitWord(dt))
  {
  }

  /** A number after the keyword, or 0; and the words that remain. */
  function TakeNumber(keyword: string, words: seq<string>): (int, seq<string>) {
    if |words| >= 2 && words[0] == keyword && ParseDecimal(words[1]).Some? then
      (ParseDecimal(words[1]).value, words[2..])
    else (0, words)
  }

  /** The word after the keyword, or ""; and the words that remain. */
  function TakeArgument(keyword: string, words: seq<string>): (string, seq<string>) {
    if |words| >= 2 && words[0] == keyword then (words[1], words[2..]) else ("", words)
  }

  function ReadPing(words: seq<string>, dt: DeviceType): Option<PingRequest> {
    if |words| < 2 || words[0] != "ping" then None
    else
      var (count, w1) := TakeNumber(KeywordsOf(dt).count, words[2..]);
      var (size, w2) := TakeNumber(KeywordsOf(dt).size, w1);
      var (source, w3) := TakeArgument("source", w2);
      var (vrf, w4) := TakeArgument(KeywordsOf(dt).vrf, w3);
      if w4 != [] then None else Some(PingRequest(words[1], count, size, 0, source, vrf, ""))
  }

  /** On IOS a leading vrf and its name precede the destination. */
  function ReadVrfFirst(words: seq<string>, dt: DeviceType): (string, seq<string>) {
    if dt == IOS && |words| >= 3 then TakeArgument("vrf", words) else ("", words)
  }

  function ReadTrace(words: seq<string>, dt: DeviceType): Option<TraceRequest> {
    if words == [] || words[0] != "traceroute" then None
    else
      var (first, w0) := ReadVrfFirst(words[1..], dt);
      if w0 == [] then None
      else
        match ReadTraceOptions(w0[1..], dt)
        case None => None
        case Some(o) => Some(o.(destination := w0[0], vrf := if dt == IOS then first else o.vrf))
  }

  /** The clauses after the destination. */
  function ReadTraceOptions(words: seq<string>, dt: DeviceType): Option<TraceRequest> {
    var (maxHops, w1) := TakeNumber(KeywordsOf(dt).hops, words);
    var (timeout, w2) := TakeNumber(KeywordsOf(dt).wait, w1);
    var (probe, w3) := if dt == JunOS then (0, w2) else TakeNumber("probe", w2);
    var (source, w4) := TakeArgument("source", w3);
    var (vrf, w5) := if dt == IOS then ("", w4) else TakeArgument(KeywordsOf(dt).vrf, w4);
    if w5 != [] then None else Some(TraceRequest("", maxHops, timeout, probe, source, vrf, ""))
  }

  // ----- what a request asks for

  function Positive(n: int): int {
    if n > 0 then n else 0
  }

  /** Zero and negative numbers mean "not given". */
  function AskedPing(r: PingRequest): PingRequest {
    r.(count := Positive(r.count), size := Positive(r.size), timeout := Positive(r.timeout))
  }

  /** On JunOS the number of probes is not sent. */
  function AskedTrace(r: TraceRequest, dt: DeviceType): TraceRequest {
    r.(maxHops := Positive(r.maxHops), timeout := Positive(r.timeout),
       probe := if dt == JunOS then 0 else Positive(r.probe))
  }

  // ----- one clause at a time

  lemma NumberIsTaken(keyword: string, n: int, rest: seq<string>)
    requires rest == [] || rest[0] != keyword
    ensures TakeNumber(keyword, Number(keyword, n) + rest) == (Positive(n), rest)
  {
    if n > 0 {
      ParseDecimalPrinted(n);
      assert (Number(keyword, n) + rest)[2..] == rest;
    } else {
      assert Number(keyword, n) + rest == rest;
    }
  }

  lemma ArgumentIsTaken(keyword: string, value: string, rest: seq<string>)
    requires rest == [] || rest[0] != keyword
    ensures TakeArgument(keyword, Argument(keyword, value) + rest) == (value, rest)
  {
    if value != "" {
      assert (Argument(keyword, value) + rest)[2..] == rest;
    } else {
      assert Argument(keyword, value) + rest == rest;
    }
  }

  /** The keyword a list of clauses starts with is one of a few. */
  ghost predicate StartsIn(words: seq<string>, keywords: set<string>) {
    words == [] || words[0] in keywords
  }

  lemma ClauseStarts(clause: seq<string>, keyword: string, rest: seq<string>, keywords: set<string>)
    requires StartsIn(clause, {keyword}) && StartsIn(rest, keywords)
    ensures StartsIn(clause + rest, {keyword} + keywords)
  {
    if clause == [] {
      assert clause + rest == rest;
    } else {
      assert (clause + rest)[0] == clause[0];
    }
  }

  /** The keywords of one command are pairwise different. */
  lemma KeywordsDiffer(dt: DeviceType)
    ensures SizeWord(dt) != CountWord(dt)
    ensures "source" != CountWord(dt) && "source" != SizeWord(dt)
    ensures VrfWord(dt) != CountWord(dt) && VrfWord(dt) != SizeWord(dt) && VrfWord(dt) != "source"
    ensures WaitWord(dt) != HopsWord(dt)
    ensures "probe" != HopsWord(dt) && "probe" != WaitWord(dt)
    ensures "source" != HopsWord(dt) && "source" != WaitWord(dt) && "source" != "probe"
    ensures VrfWord(dt) != HopsWord(dt) && VrfWord(dt) != WaitWord(dt) && VrfWord(dt) != "probe"
  {
  }

  // ----- ping

  function PingTail(r: PingRequest, dt: DeviceType): seq<string> {
    Argument("source", r.source) + Argument(VrfWord(dt), r.vrf)
  }

  lemma PingWordsAre(r: PingRequest, dt: DeviceType)
    ensures PingWords(r, dt)[..2] == ["ping", r.destination]
    ensures PingWords(r, dt)[2..] ==
      Number(CountWord(dt), r.count) + (Number(SizeWord(dt), r.size) + PingTail(r, dt))
  {
  }

  lemma PingTailStarts(r: PingRequest, dt: DeviceType)
    ensures StartsIn(PingTail(r, dt), {"source", VrfWord(dt)})
    ensures StartsIn(Number(SizeWord(dt), r.size) + PingTail(r, dt), {SizeWord(dt), "source", VrfWord(dt)})
  {
    ClauseStarts(Argument("source", r.source), "source", Argument(VrfWord(dt), r.vrf), {VrfWord(dt)});
    ClauseStarts(Number(SizeWord(dt), r.size), SizeWord(dt), PingTail(r, dt), {"source", VrfWord(dt)});
  }

  /** Reading the words of a ping gives back the request. */
  lemma ReadPingWords(r: PingRequest, dt: DeviceType)
    requires dt != FortiOS && PingSupported(r, dt)
    ensures ReadPing(PingWords(r, dt), dt) == Some(AskedPing(r))
  {
    hide Number, Argument, CountWord, SizeWord, VrfWord, KeywordsOf;
    PrinterKeywords(dt);
    KeywordsDiffer(dt);
    PingWordsAre(r, dt);
    PingTailStarts(r, dt);
    NumberIsTaken(CountWord(dt), r.count, Number(SizeWord(dt), r.size) + PingTail(r, dt));
    NumberIsTaken(SizeWord(dt), r.size, PingTail(r, dt));
    TailIsTaken("source", r.source, VrfWord(dt), r.vrf);
    var words := PingWords(r, dt);
    assert words[0] == words[..2][0] && words[1] == words[..2][1];
  }

  lemma TailIsTaken(k1: string, v1: string, k2: string, v2: string)
    requires k1 != k2
    ensures
      var (source, rest) := TakeArgument(k1, Argument(k1, v1) + Argument(k2, v2));
      source == v1 && TakeArgument(k2, rest) == (v2, [])
  {
    ArgumentIsTaken(k1, v1, Argument(k2, v2));
    ArgumentIsTaken(k2, v2, []);
    assert Argument(k2, v2) + [] == Argument(k2, v2);
  }

  lemma PingWordsAreWords(r: PingRequest, dt: DeviceType)
    requires PingSupported(r, dt) && r.destination != ""
    ensures AllWords(PingWords(r, dt))
  {
    KeywordsAreWords(dt);
    hide Number, Argument, IsWord, CheckCommandArg, CountWord, SizeWord, VrfWord;
    NumberWords(CountWord(dt), r.count);
    NumberWords(SizeWord(dt), r.size);
    ArgumentWords("source", r.source);
    ArgumentWords(VrfWord(dt), r.vrf);
    ArgIsOneWord(r.destination);
    var head := ["ping", r.destination];
    var counted := head + Number(CountWord(dt), r.count);
    var sized := counted + Number(SizeWord(dt), r.size);
    AllWordsAppend(head, Number(CountWord(dt), r.count));
    AllWordsAppend(counted, Number(SizeWord(dt), r.size));
    AllWordsAppend(sized, Argument("source", r.source));
    AllWordsAppend(sized + Argument("source", r.source), Argument(VrfWord(dt), r.vrf));
  }

  ghost predicate AllWords(words: seq<string>) {
    forall k :: 0 <= k < |words| ==> IsWord(words[k])
  }

  lemma AllWordsAppend(xs: seq<string>, ys: seq<string>)
    requires AllWords(xs) && AllWords(ys)
    ensures AllWords(xs + ys)
  {
  }

  lemma NumberWords(keyword: string, n: int)
    requires IsWord(keyword)
    ensures AllWords(Number(keyword, n))
  {
    if n > 0 {
      DigitsAreWords(n);
    }
  }

  lemma ArgumentWords(keyword: string, value: string)
    requires IsWord(keyword) && CheckCommandArg(value)
    ensures AllWords(Argument(keyword, value))
  {
    if value != "" {
      ArgIsOneWord(value);
    }
  }

  /**
   A supported ping with a destination is sent as one command, and a device that splits
   it into words reads exactly the request: nothing lost, added or swapped.
   */
  lemma PingRoundTrip(r: PingRequest, dt: DeviceType)
    requires dt != FortiOS && PingSupported(r, dt) && r.destination != ""
    ensures
      var commands := PingCommands(r, dt);
      && commands.Ok? && |commands.value| == 1
      && Fields(commands.value[0]) == PingWords(r, dt)
      && ReadPing(Fields(commands.value[0]), dt) == Some(AskedPing(r))
  {
    hide PingWords, ReadPing, PingSupported;
    PingWordsAreWords(r, dt);
    FieldsJoin(PingWords(r, dt));
    ReadPingWords(r, dt);
  }

  /** Two pings that print the same command ask for the same thing. */
  lemma PingCommandDeterminesRequest(r1: PingRequest, r2: PingRequest, dt: DeviceType)
    requires dt != FortiOS && r1.destination != "" && r2.destination != ""
    requires PingSupported(r1, dt) && PingSupported(r2, dt) && PingCommands(r1, dt) == PingCommands(r2, dt)
    ensures AskedPing(r1) == AskedPing(r2)
  {
    PingRoundTrip(r1, dt);
    PingRoundTrip(r2, dt);
  }

  // ----- traceroute

  function VrfLast(r: TraceRequest, dt: DeviceType): seq<string> {
    if dt == IOS then [] else Argument(VrfWord(dt), r.vrf)
  }

  function VrfFirst(r: TraceRequest, dt: DeviceType): seq<string> {
    if dt == IOS then Argument("vrf", r.vrf) else []
  }

  function TraceTail(r: TraceRequest, dt: DeviceType): seq<string> {
    Argument("source", r.source) + VrfLast(r, dt)
  }

  function ProbeTail(r: TraceRequest, dt: DeviceType): seq<string> {
    (if dt == JunOS then [] else Number("probe", r.probe)) + TraceTail(r, dt)
  }

  function TraceOptions(r: TraceRequest, dt: DeviceType): seq<string> {
    Number(HopsWord(dt), r.maxHops) + (Number(WaitWord(dt), r.timeout) + ProbeTail(r, dt))
  }

  lemma TraceWordsAre(r: TraceRequest, dt: DeviceType)
    ensures TraceWords(r, dt)
         == ["traceroute"] + (VrfFirst(r, dt) + ([r.destination] + TraceOptions(r, dt)))
  {
    hide Number, Argument;
    RightNested(["traceroute"], VrfFirst(r, dt), [r.destination], Number(HopsWord(dt), r.maxHops),
                Number(WaitWord(dt), r.timeout), if dt == JunOS then [] else Number("probe", r.probe),
                Argument("source", r.source), VrfLast(r, dt));
  }

  lemma RightNested(a: seq<string>, b: seq<string>, c: seq<string>, d: seq<string>,
                    e: seq<string>, f: seq<string>, g: seq<string>, h: seq<string>)
    ensures a + b + c + d + e + f + g + h == a + (b + (c + (d + (e + (f + (g + h))))))
  {
    ConcatAssoc(a + b + c + d + e + f, g, h);
    ConcatAssoc(a + b + c + d + e, f, g + h);
    ConcatAssoc(a + b + c + d, e, f + (g + h));
    ConcatAssoc(a + b + c, d, e + (f + (g + h)));
    ConcatAssoc(a + b, c, d + (e + (f + (g + h))));
    ConcatAssoc(a, b, c + (d + (e + (f + (g + h)))));
  }

  lemma ProbeTailStarts(r: TraceRequest, dt: DeviceType)
    ensures StartsIn(TraceTail(r, dt), {"source", VrfWord(dt)})
    ensures StartsIn(ProbeTail(r, dt), {"probe", "source", VrfWord(dt)})
    ensures StartsIn(Number(WaitWord(dt), r.timeout) + ProbeTail(r, dt),
                     {WaitWord(dt), "probe", "source", VrfWord(dt)})
  {
    ClauseStarts(Argument("source", r.source), "source", VrfLast(r, dt), {VrfWord(dt)});
    ClauseStarts(if dt == JunOS then [] else Number("probe", r.probe), "probe", TraceTail(r, dt),
                 {"source", VrfWord(dt)});
    ClauseStarts(Number(WaitWord(dt), r.timeout), WaitWord(dt), ProbeTail(r, dt), {"probe", "source", VrfWord(dt)});
  }

  lemma ProbeIsTaken(r: TraceRequest, dt: DeviceType)
    ensures (if dt == JunOS then (0, ProbeTail(r, dt)) else TakeNumber("probe", ProbeTail(r, dt)))
         == (AskedTrace(r, dt).probe, TraceTail(r, dt))
  {
    KeywordsDiffer(dt);
    ProbeTailStarts(r, dt);
    if dt == JunOS {
      assert ProbeTail(r, dt) == TraceTail(r, dt);
    } else {
      NumberIsTaken("probe", r.probe, TraceTail(r, dt));
    }
  }

  lemma VrfLastIsTaken(r: TraceRequest, dt: DeviceType)
    ensures
      var (source, rest) := TakeArgument("source", TraceTail(r, dt));
      && source == r.source
      && (if dt == IOS then ("", rest) else TakeArgument(VrfWord(dt), rest))
           == (if dt == IOS then "" else r.vrf, [])
  {
    KeywordsDiffer(dt);
    if dt == IOS {
      ArgumentIsTaken("source", r.source, []);
    } else {
      TailIsTaken("source", r.source, VrfWord(dt), r.vrf);
    }
  }

  lemma ReadTraceOptionsBack(r: TraceRequest, dt: DeviceType)
    ensures ReadTraceOptions(TraceOptions(r, dt), dt)
         == Some(AskedTrace(r, dt).(destination := "", vrf := if dt == IOS then "" else r.vrf, outgoingInterface := ""))
  {
    hide Number, Argument, TraceTail, ProbeTail, HopsWord, WaitWord, VrfWord, TakeNumber, TakeArgument, KeywordsOf;
    PrinterKeywords(dt);
    KeywordsDiffer(dt);
    ProbeTailStarts(r, dt);
    NumberIsTaken(HopsWord(dt), r.maxHops, Number(WaitWord(dt), r.timeout) + ProbeTail(r, dt));
    NumberIsTaken(WaitWord(dt), r.timeout, ProbeTail(r, dt));
    ProbeIsTaken(r, dt);
    VrfLastIsTaken(r, dt);
  }

  /**
   An IOS request that reads differently: without a vrf, for a host called "vrf", and
   with some option after it, so that the option is taken for the vrf's name.
   */
  predicate ReadsAsVrf(r: TraceRequest, dt: DeviceType) {
    && dt == IOS && r.vrf == "" && r.destination == "vrf"
    && (r.maxHops > 0 || r.timeout > 0 || r.probe > 0 || r.source != "")
  }

  lemma OptionsEmptyIff(r: TraceRequest)
    ensures TraceOptions(r, IOS) == [] <==> r.maxHops <= 0 && r.timeout <= 0 && r.probe <= 0 && r.source == ""
    ensures |TraceOptions(r, IOS)| != 1
    ensures TraceOptions(r, IOS) != [] ==> TraceOptions(r, IOS)[0] != ""
  {
    ClauseLength(r.maxHops, r.timeout, r.probe, r.source);
  }

  lemma ClauseLength(maxHops: int, timeout: int, probe: int, source: string)
    ensures
      var words := Number("maximum-hops", maxHops)
                   + (Number("timeout", timeout) + (Number("probe", probe) + (Argument("source", source) + [])));
      && (words == [] <==> maxHops <= 0 && timeout <= 0 && probe <= 0 && source == "")
      && |words| != 1
      && (words != [] ==> words[0] != "")
  {
    hide Decimal;
  }

  lemma FirstOfTrace(r: TraceRequest, dt: DeviceType)
    requires r.destination != ""
    ensures
      var read := ReadVrfFirst(VrfFirst(r, dt) + ([r.destination] + TraceOptions(r, dt)), dt);
      if ReadsAsVrf(r, dt) then read.0 != ""
      else read == (if dt == IOS then r.vrf else "", [r.destination] + TraceOptions(r, dt))
  {
    hide TraceOptions;
    var rest := [r.destination] + TraceOptions(r, dt);
    var words := VrfFirst(r, dt) + rest;
    if dt == IOS && r.vrf != "" {
      assert words == ["vrf", r.vrf] + rest;
      assert words[2..] == rest;
    } else {
      assert words == rest;
      if dt == IOS {
        OptionsEmptyIff(r);
        assert |words| >= 3 ==> words[1] == TraceOptions(r, dt)[0];
      }
    }
  }

  /** Reading the words of a traceroute gives back the request, except for ReadsAsVrf. */
  lemma ReadTraceWords(r: TraceRequest, dt: DeviceType)
    requires dt != FortiOS && TraceSupported(r, dt) && r.destination != ""
    ensures ReadTrace(TraceWords(r, dt), dt) == Some(AskedTrace(r, dt)) <==> !ReadsAsVrf(r, dt)
  {
    hide TraceOptions, VrfFirst, ReadVrfFirst, ReadTraceOptions, TraceWords;
    TraceWordsAre(r, dt);
    FirstOfTrace(r, dt);
    ReadTraceOptionsBack(r, dt);
    var rest := [r.destination] + TraceOptions(r, dt);
    assert rest[1..] == TraceOptions(r, dt);
    var words := TraceWords(r, dt);
    assert words[1..] == VrfFirst(r, dt) + rest && words[0] == "traceroute";
  }

  lemma TraceWordsAreWords(r: TraceRequest, dt: DeviceType)
    requires TraceSupported(r, dt) && r.destination != ""
    ensures AllWords(TraceWords(r, dt))
  {
    KeywordsAreWords(dt);
    hide TraceWords, TraceOptions, Argument, IsWord, CheckCommandArg;
    TraceWordsAre(r, dt);
    TraceOptionsAreWords(r, dt);
    ArgumentWords("vrf", r.vrf);
    ArgIsOneWord(r.destination);
    AllWordsAppend([r.destination], TraceOptions(r, dt));
    AllWordsAppend(VrfFirst(r, dt), [r.destination] + TraceOptions(r, dt));
    AllWordsAppend(["traceroute"], VrfFirst(r, dt) + ([r.destination] + TraceOptions(r, dt)));
  }

  lemma KeywordsAreWords(dt: DeviceType)
    ensures IsWord(CountWord(dt)) && IsWord(SizeWord(dt)) && IsWord(VrfWord(dt))
    ensures IsWord(HopsWord(dt)) && IsWord(WaitWord(dt)) && IsWord("probe") && IsWord("source")
    ensures IsWord("ping") && IsWord("traceroute") && IsWord("vrf")
  {
    hide IsWord;
    assert IsKeyword(CountWord(dt)) && IsKeyword(SizeWord(dt)) && IsKeyword(VrfWord(dt));
    assert IsKeyword(HopsWord(dt)) && IsKeyword(WaitWord(dt));
    hide CountWord, SizeWord, VrfWord, HopsWord, WaitWord, IsKeyword;
    KeywordIsWord(CountWord(dt));
    KeywordIsWord(SizeWord(dt));
    KeywordIsWord(VrfWord(dt));
    KeywordIsWord(HopsWord(dt));
    KeywordIsWord(WaitWord(dt));
    FixedWords();
  }

  lemma FixedWords()
    ensures IsWord("probe") && IsWord("source") && IsWord("ping") && IsWord("traceroute") && IsWord("vrf")
  {
    hide IsWord;
    KeywordIsWord("probe");
    KeywordIsWord("source");
    KeywordIsWord("ping");
    KeywordIsWord("traceroute");
    KeywordIsWord("vrf");
  }

  lemma TraceOptionsAreWords(r: TraceRequest, dt: DeviceType)
    requires TraceSupported(r, dt)
    ensures AllWords(TraceOptions(r, dt))
  {
    KeywordsAreWords(dt);
    hide Number, Argument, IsWord, CheckCommandArg, HopsWord, WaitWord, VrfWord;
    NumberWords(HopsWord(dt), r.maxHops);
    NumberWords(WaitWord(dt), r.timeout);
    NumberWords("probe", r.probe);
    ArgumentWords("source", r.source);
    ArgumentWords(VrfWord(dt), r.vrf);
    AllWordsAppend(Argument("source", r.source), VrfLast(r, dt));
    AllWordsAppend(if dt == JunOS then [] else Number("probe", r.probe), TraceTail(r, dt));
    AllWordsAppend(Number(WaitWord(dt), r.timeout), ProbeTail(r, dt));
    AllWordsAppend(Number(HopsWord(dt), r.maxHops), Number(WaitWord(dt), r.timeout) + ProbeTail(r, dt));
  }

  /**
   A supported traceroute with a destination is sent as one command that splits into
   exactly the printed words, and a device reads the request back from them if and only
   if it is not one of the ambiguous IOS requests.
   */
  lemma TraceRoundTrip(r: TraceRequest, dt: DeviceType)
    requires dt != FortiOS && TraceSupported(r, dt) && r.destination != ""
    ensures
      var commands := TraceCommands(r, dt);
      && commands.Ok? && |commands.value| == 1
      && Fields(commands.value[0]) == TraceWords(r, dt)
      && (ReadTrace(Fields(commands.value[0]), dt) == Some(AskedTrace(r, dt)) <==> !ReadsAsVrf(r, dt))
  {
    hide TraceWords, ReadTrace, TraceSupported;
    TraceWordsAreWords(r, dt);
    FieldsJoin(TraceWords(r, dt));
    ReadTraceWords(r, dt);
  }

  /**
   The ambiguity is in the printed text, not in the reader: these two IOS requests, a
   host "vrf" with five hops and a host "5" in a vrf "maximum-hops", print the same line.
   */
  lemma VrfHostIsAmbiguous()
    ensures
      var host := TraceRequest("vrf", 5, 0, 0, "", "", "");
      var inVrf := TraceRequest("5", 0, 0, 0, "", "maximum-hops", "");
      && TraceSupported(host, IOS) && TraceSupported(inVrf, IOS) && host != inVrf
      && TraceCommands(host, IOS) == TraceCommands(inVrf, IOS)
  {
    var host := TraceRequest("vrf", 5, 0, 0, "", "", "");
    var inVrf := TraceRequest("5", 0, 0, 0, "", "maximum-hops", "");
    assert Decimal(5) == "5";
    assert TraceWords(host, IOS) == ["traceroute", "vrf", "maximum-hops", "5"];
    assert TraceWords(inVrf, IOS) == ["traceroute", "vrf", "maximum-hops", "5"];
  }

  /** Two unambiguous traceroutes that print the same command ask for the same thing. */
  lemma TraceCommandDeterminesRequest(r1: TraceRequest, r2: TraceRequest, dt: DeviceType)
    requires dt != FortiOS && r1.destination != "" && r2.destination != ""
    requires TraceSupported(r1, dt) && TraceSupported(r2, dt)
    requires !ReadsAsVrf(r1, dt) && !ReadsAsVrf(r2, dt) && TraceCommands(r1, dt) == TraceCommands(r2, dt)
    ensures AskedTrace(r1, dt) == AskedTrace(r2, dt)
  {
    TraceRoundTrip(r1, dt);
    TraceRoundTrip(r2, dt);
  }

  // ----- the ambiguous requests

  /** Go's int. */
  predicate FitsInt64(n: int) {
    -0x8000_0000_0000_0000 <= n < 0x8000_0000_0000_0000
  }

  function Power10(k: nat): nat {
    if k == 0 then 1 else 10 * Power10(k - 1)
  }

  lemma {:induction false} DecimalLength(n: nat, k: nat)
    requires n < Power10(k) && k > 0
    ensures |Decimal(n)| <= k
    decreases k
  {
    if n >= 10 {
      DecimalLength(n / 10, k - 1);
    }
  }

  lemma DecimalIsArgument(n: int)
    requires n > 0 && FitsInt64(n)
    ensures CheckCommandArg(Decimal(n)) && Decimal(n) != "" && Decimal(n) != "vrf"
  {
    assert Power10(5) == 100000;
    assert Power10(10) == 100000 * Power10(5);
    assert Power10(15) == 100000 * Power10(10);
    assert Power10(19) == 10000 * Power10(15);
    DecimalLength(n, 19);
    assert '0' <= Decimal(n)[0] <= '9';
  }

  /** The option read as the vrf's name, its value read as the destination. */
  function Twin(r: TraceRequest): TraceRequest {
    if r.maxHops > 0 then r.(vrf := "maximum-hops", destination := Decimal(r.maxHops), maxHops := 0)
    else if r.timeout > 0 then r.(vrf := "timeout", destination := Decimal(r.timeout), timeout := 0)
    else if r.probe > 0 then r.(vrf := "probe", destination := Decimal(r.probe), probe := 0)
    else r.(vrf := "source", destination := r.source, source := "")
  }

  lemma EmptyFirst(words: seq<string>)
    ensures [] + words == words
  {
  }

  lemma TwinOptions(r: TraceRequest)
    requires ReadsAsVrf(r, IOS)
    ensures TraceOptions(r, IOS) == [Twin(r).vrf, Twin(r).destination] + TraceOptions(Twin(r), IOS)
  {
    hide Decimal;
    var source := Argument("source", r.source) + [];
    var probe := Number("probe", r.probe) + source;
    var wait := Number("timeout", r.timeout) + probe;
    EmptyFirst(wait);
    EmptyFirst(probe);
    EmptyFirst(source);
    EmptyFirst([]);
  }

  lemma TwinWords(r: TraceRequest)
    requires ReadsAsVrf(r, IOS)
    ensures TraceWords(Twin(r), IOS) == TraceWords(r, IOS)
  {
    hide TraceWords, TraceOptions;
    var t := Twin(r);
    TraceWordsAre(r, IOS);
    TraceWordsAre(t, IOS);
    TwinOptions(r);
    VrfFirstOf(r, t);
    hide Twin, VrfFirst;
    assert [] + (["vrf"] + TraceOptions(r, IOS)) == ["vrf", t.vrf] + ([t.destination] + TraceOptions(t, IOS));
  }

  lemma VrfFirstOf(r: TraceRequest, t: TraceRequest)
    requires ReadsAsVrf(r, IOS) && t == Twin(r)
    ensures VrfFirst(r, IOS) == [] && VrfFirst(t, IOS) == ["vrf", t.vrf]
  {
  }

  /**
   No reader could do better: every request of the ambiguous family has a twin, a
   different supported request that prints the same command.
   */
  lemma AmbiguousHasTwin(r: TraceRequest)
    requires TraceSupported(r, IOS) && ReadsAsVrf(r, IOS)
    requires FitsInt64(r.maxHops) && FitsInt64(r.timeout) && FitsInt64(r.probe)
    ensures TraceSupported(Twin(r), IOS) && Twin(r).destination != "" && AskedTrace(Twin(r), IOS) != AskedTrace(r, IOS)
    ensures TraceCommands(Twin(r), IOS) == TraceCommands(r, IOS)
  {
    hide Decimal, TraceWords, FitsInt64, CheckCommandArg;
    if r.maxHops > 0 {
      DecimalIsArgument(r.maxHops);
    } else if r.timeout > 0 {
      DecimalIsArgument(r.timeout);
    } else if r.probe > 0 {
      DecimalIsArgument(r.probe);
    }
    TwinNames();
    TwinWords(r);
  }

  lemma TwinNames()
    ensures CheckCommandArg("maximum-hops") && CheckCommandArg("timeout")
    ensures CheckCommandArg("probe") && CheckCommandArg("source") && CheckCommandArg("")
  {
  }
}
