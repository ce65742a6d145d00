/**
 A FortiOS diagnostic batch end to end: the builder's commands, trimmed and joined by
 RunCommands, read line by line by a device that keeps ping and traceroute options
 between commands.
 */
module FortiSession {
  import opened Text
  import opened CommandSafety
  import opened DeviceCommands

  // ----- sending: RunCommands of internal/sshclient/client.go

  /** The text RunCommands hands to the SSH session, or an error. */
  function Sent(commands: seq<string>): Result<string> {
    if commands == [] || HasBlank(commands) then Err else Ok(Join(TrimAll(commands), '\n'))
  }

  predicate HasBlank(commands: seq<string>) {
    exists k :: 0 <= k < |commands| && TrimSpace(commands[k]) == ""
  }

  function TrimAll(commands: seq<string>): (r: seq<string>)
    ensures |r| == |commands|
    ensures forall k :: 0 <= k < |commands| ==> r[k] == TrimSpace(commands[k])
  {
    seq(|commands|, k requires 0 <= k < |commands| => TrimSpace(commands[k]))
  }

  /** Fails on no commands or a blank one; the device gets each command, trimmed, on its own line. */
  method RunCommands(commands: seq<string>) returns (r: Result<string>)
    ensures r == Sent(commands)
    ensures r.Ok? <==> commands != [] && forall k :: 0 <= k < |commands| ==> !AllSpace(commands[k])
    ensures r.Ok? && (forall k :: 0 <= k < |commands| ==> '\n' !in commands[k]) ==>
      var lines := Split(r.value, '\n');
      |lines| == |commands| && forall k :: 0 <= k < |commands| ==> lines[k] == TrimSpace(commands[k])
  {
    SentWhenNotBlank(commands);
    SentSplits(commands);
    if |commands| == 0 {
      return Err;
    }
    hide TrimSpace, Join, TrimAll, HasBlank;
    var joined := [];
    TrimNone();
    assert commands[..0] == [];
    for k := 0 to |commands|
      invariant joined == TrimAll(commands[..k]) && !HasBlank(commands[..k])
    {
      TrimNext(commands, k);
      var command := TrimSpace(commands[k]);
      if command == "" {
        return Err;
      }
      joined := joined + [command];
    }
    assert commands[..|commands|] == commands;
    return Ok(Join(joined, '\n'));
  }

  lemma BlankIsAllSpace(command: string)
    ensures TrimSpace(command) == "" <==> AllSpace(command)
  {
    hide TrimSpace;
    var pre, post := TrimSpaceParts(command);
    if TrimSpace(command) == "" {
      assert command == pre + post;
    } else {
      assert command[|pre|] == TrimSpace(command)[0];
    }
  }

  lemma SentWhenNotBlank(commands: seq<string>)
    ensures Sent(commands).Ok? <==> commands != [] && forall k :: 0 <= k < |commands| ==> !AllSpace(commands[k])
  {
    hide TrimSpace, AllSpace;
    forall k | 0 <= k < |commands|
      ensures TrimSpace(commands[k]) == "" <==> AllSpace(commands[k])
    {
      BlankIsAllSpace(commands[k]);
    }
  }

  /** On single lines, splitting at newlines undoes the joining. */
  lemma SentSplits(commands: seq<string>)
    ensures Sent(commands).Ok? && (forall k :: 0 <= k < |commands| ==> '\n' !in commands[k]) ==>
      Split(Sent(commands).value, '\n') == TrimAll(commands)
  {
    hide TrimSpace;
    if Sent(commands).Ok? && forall k :: 0 <= k < |commands| ==> '\n' !in commands[k] {
      forall k | 0 <= k < |commands|
        ensures '\n' !in TrimSpace(commands[k])
      {
        TrimKeepsOut(commands[k], '\n');
      }
      SplitJoin(TrimAll(commands), '\n');
    }
  }

  lemma TrimNone()
    ensures TrimAll([]) == [] && !HasBlank([])
  {
  }

  lemma TrimNext(commands: seq<string>, k: nat)
    requires k < |commands|
    ensures TrimAll(commands[..k + 1]) == TrimAll(commands[..k]) + [TrimSpace(commands[k])]
    ensures HasBlank(commands[..k + 1]) <==> HasBlank(commands[..k]) || TrimSpace(commands[k]) == ""
    ensures TrimSpace(commands[k]) == "" ==> HasBlank(commands)
  {
    hide TrimSpace;
    var now, next := commands[..k], commands[..k + 1];
    assert forall i :: 0 <= i < k ==> now[i] == next[i];
    assert next[k] == commands[k];
    if HasBlank(next) {
      var i :| 0 <= i < |next| && TrimSpace(next[i]) == "";
      assert i < k ==> TrimSpace(now[i]) == "";
    }
  }

  // ----- the device

  /** Option values are kept as the words sent; an absent option is at the device's default. */
  type Options = map<string, string>

  datatype Probe = Probe(command: string, destination: string, options: Options)

  /** Options per diagnostic command, the probes run so far, and lines not understood. */
  datatype Session = Session(ping: Options, traceroute: Options, probes: seq<Probe>, rejected: nat) {
    function Get(command: string): Options {
      if command == "ping" then ping else traceroute
    }

    function Set(command: string, options: Options): Session {
      if command == "ping" then this.(ping := options) else this.(traceroute := options)
    }
  }

  function KnownOptions(command: string): set<string> {
    if command == "ping" then {"repeat-count", "data-size", "timeout", "source", "interface"}
    else {"queries", "source", "device"}
  }

  const DIAGNOSTICS := {"ping", "traceroute"}

  /** The diagnostic whose options "<name>-options" sets. */
  function OptionsOwner(word: string): string {
    if word == "ping-options" then "ping" else if word == "traceroute-options" then "traceroute" else ""
  }

  function Execute(words: seq<string>, s: Session): Session {
    if |words| >= 3 && words[0] == "execute" && OptionsOwner(words[1]) != "" then
      var command := OptionsOwner(words[1]);
      if |words| == 3 && words[2] == "reset" then s.Set(command, map[])
      else if |words| == 4 && words[2] in KnownOptions(command) then
        s.Set(command, s.Get(command)[words[2] := words[3]])
      else s.(rejected := s.rejected + 1)
    else if |words| == 3 && words[0] == "execute" && words[1] in DIAGNOSTICS then
      s.(probes := s.probes + [Probe(words[1], words[2], s.Get(words[1]))])
    else s.(rejected := s.rejected + 1)
  }

  function ExecuteAll(lines: seq<string>, s: Session): Session {
    if lines == [] then s else ExecuteAll(lines[1..], Execute(Fields(lines[0]), s))
  }

  /** The device runs every line of the text it is sent. */
  function Device(text: string, s: Session): Session {
    ExecuteAll(Split(text, '\n'), s)
  }

  // ----- what a request asks for

  function NumberOption(keyword: string, n: int): Options {
    if n > 0 then map[keyword := Decimal(n)] else map[]
  }

  function ArgumentOption(keyword: string, value: string): Options {
    if value != "" then map[keyword := value] else map[]
  }

  function PingOptions(r: PingRequest): Options {
    NumberOption("repeat-count", r.count) + NumberOption("data-size", r.size)
    + NumberOption("timeout", r.timeout) + ArgumentOption("source", r.source)
    + ArgumentOption("interface", r.outgoingInterface)
  }

  function TraceOptions(r: TraceRequest): Options {
    NumberOption("queries", r.probe) + ArgumentOption("source", r.source)
    + ArgumentOption("device", r.outgoingInterface)
  }

  // ----- the words of each line

  /** Words joined by spaces make one clean line that splits back into them. */
  lemma WordsLine(words: seq<string>)
    requires words != [] && forall k :: 0 <= k < |words| ==> IsWord(words[k]) && '\n' !in words[k]
    ensures Fields(Join(words, ' ')) == words
    ensures '\n' !in Join(words, ' ') && Trimmed(Join(words, ' ')) && Join(words, ' ') != ""
  {
    FieldsJoin(words);
    var line := Join(words, ' ');
    if '\n' in line {
      JoinChars(words, ' ', '\n');
    }
    JoinTrimmed(words);
  }

  lemma {:induction false} JoinTrimmed(words: seq<string>)
    requires words != [] && forall k :: 0 <= k < |words| ==> IsWord(words[k])
    ensures
      var line := Join(words, ' ');
      line != "" && !IsSpace(line[0]) && !IsSpace(line[|line| - 1])
  {
    assert IsWord(words[0]);
    if |words| > 1 {
      JoinTrimmed(words[1..]);
      var tail := Join(words[1..], ' ');
      var line := words[0] + [' '] + tail;
      assert line[0] == words[0][0] && line[|line| - 1] == tail[|tail| - 1];
    }
  }

  /** A line that is sent unchanged and read as the given words. */
  ghost predicate Reads(line: string, words: seq<string>) {
    Fields(line) == words && '\n' !in line && Trimmed(line) && line != ""
  }

  lemma OptionLineReads(command: string, keyword: string, value: string)
    requires IsKeyword(command) && IsKeyword(keyword) && IsWord(value) && '\n' !in value
    ensures Reads(OptionLine(command, keyword, value), ["execute", command, keyword, value])
  {
    var words := ["execute", command, keyword, value];
    hide IsKeyword, IsWord, Fields, Join, Trimmed;
    KeywordIsWord("execute");
    KeywordIsWord(command);
    KeywordIsWord(keyword);
    WordsLine(words);
    JoinFour("execute", command, keyword, value);
    assert "execute" + " " == "execute ";
  }

  lemma JoinThree(a: string, b: string, c: string)
    ensures Join([a, b, c], ' ') == a + " " + b + " " + c
  {
    assert [a, b, c][1..] == [b, c] && [b, c][1..] == [c];
    assert Join([b, c], ' ') == b + " " + c;
    assert a + [' '] + (b + " " + c) == a + " " + b + " " + c;
  }

  lemma JoinFour(a: string, b: string, c: string, d: string)
    ensures Join([a, b, c, d], ' ') == a + " " + b + " " + c + " " + d
  {
    assert [a, b, c, d][1..] == [b, c, d];
    JoinThree(b, c, d);
    assert a + [' '] + (b + " " + c + " " + d) == a + " " + b + " " + c + " " + d;
  }

  lemma RunLineReads(command: string, destination: string)
    requires IsKeyword(command) && IsWord(destination) && '\n' !in destination
    ensures Reads(RunLine(command, destination), ["execute", command, destination])
  {
    KeywordIsWord("execute");
    KeywordIsWord(command);
    hide IsKeyword, IsWord, Fields, Join, Trimmed;
    WordsLine(["execute", command, destination]);
    JoinThree("execute", command, destination);
    assert "execute" + " " == "execute ";
  }

  // ----- running a batch

  lemma {:induction false} ExecuteAppend(xs: seq<string>, ys: seq<string>, s: Session)
    ensures ExecuteAll(xs + ys, s) == ExecuteAll(ys, ExecuteAll(xs, s))
  {
    if xs == [] {
      assert xs + ys == ys;
    } else {
      assert (xs + ys)[1..] == xs[1..] + ys;
      ExecuteAppend(xs[1..], ys, Execute(Fields(xs[0]), s));
    }
  }

  ghost predicate CleanLines(lines: seq<string>) {
    forall k :: 0 <= k < |lines| ==> '\n' !in lines[k] && Trimmed(lines[k]) && lines[k] != ""
  }

  /** Splitting at newlines undoes RunCommands' trimming and joining. */
  lemma SentIsSplitBack(commands: seq<string>)
    requires commands != [] && CleanLines(commands)
    ensures Sent(commands).Ok? && Split(Sent(commands).value, '\n') == commands
  {
    forall k | 0 <= k < |commands|
      ensures TrimSpace(commands[k]) == commands[k]
    {
      TrimSpaceFixed(commands[k]);
    }
    hide TrimSpace;
    assert TrimAll(commands) == commands;
    SplitJoin(commands, '\n');
  }

  lemma ExecuteOne(line: string, words: seq<string>, s: Session)
    requires Reads(line, words)
    ensures ExecuteAll([line], s) == Execute(words, s)
  {
    assert [line][1..] == [];
  }

  lemma SetGet(s: Session, owner: string, o: Options, o': Options)
    requires owner in DIAGNOSTICS
    ensures s.Set(owner, o).Get(owner) == o
    ensures s.Set(owner, o).Set(owner, o') == s.Set(owner, o')
    ensures s.Set(owner, s.Get(owner) + map[]) == s
  {
    assert s.Get(owner) + map[] == s.Get(owner);
  }

  lemma OptionWords(owner: string, command: string, keyword: string)
    requires owner in DIAGNOSTICS && keyword in KnownOptions(owner) && command == owner + "-options"
    ensures IsKeyword(command) && IsKeyword(keyword) && OptionsOwner(command) == owner
  {
    assert command == if owner == "ping" then "ping-options" else "traceroute-options";
  }

  lemma ExecuteOption(owner: string, command: string, keyword: string, value: string, s: Session)
    requires owner in DIAGNOSTICS && keyword in KnownOptions(owner) && command == owner + "-options"
    ensures Execute(["execute", command, keyword, value], s) == s.Set(owner, s.Get(owner) + map[keyword := value])
    ensures IsKeyword(command) && IsKeyword(keyword)
  {
    hide IsKeyword, KnownOptions, OptionsOwner;
    OptionWords(owner, command, keyword);
    assert s.Get(owner)[keyword := value] == s.Get(owner) + map[keyword := value];
  }

  /** An option clause sets its option, or does nothing when it is absent. */
  lemma OptionRuns(owner: string, command: string, keyword: string, value: string, given: bool, s: Session)
    requires owner in DIAGNOSTICS && keyword in KnownOptions(owner) && command == owner + "-options"
    requires given ==> IsWord(value) && '\n' !in value
    ensures
      var lines := if given then [OptionLine(command, keyword, value)] else [];
      var added := if given then map[keyword := value] else map[];
      && CleanLines(lines)
      && ExecuteAll(lines, s) == s.Set(owner, s.Get(owner) + added)
  {
    hide Execute, OptionLine;
    SetGet(s, owner, map[], map[]);
    ExecuteOption(owner, command, keyword, value, s);
    if given {
      OptionLineReads(command, keyword, value);
      ExecuteOne(OptionLine(command, keyword, value), ["execute", command, keyword, value], s);
    }
  }

  lemma DecimalIsWord(n: nat)
    ensures IsWord(Decimal(n)) && '\n' !in Decimal(n)
  {
    DigitsAreWords(n);
  }

  lemma NumberLineRuns(owner: string, command: string, keyword: string, n: int, s: Session)
    requires owner in DIAGNOSTICS && keyword in KnownOptions(owner) && command == owner + "-options"
    ensures CleanLines(NumberLine(command, keyword, n))
    ensures ExecuteAll(NumberLine(command, keyword, n), s) == s.Set(owner, s.Get(owner) + NumberOption(keyword, n))
  {
    if n > 0 {
      DecimalIsWord(n);
      OptionRuns(owner, command, keyword, Decimal(n), true, s);
    } else {
      OptionRuns(owner, command, keyword, "", false, s);
    }
  }

  lemma ArgumentLineRuns(owner: string, command: string, keyword: string, value: string, s: Session)
    requires owner in DIAGNOSTICS && keyword in KnownOptions(owner) && command == owner + "-options"
    requires CheckCommandArg(value)
    ensures CleanLines(ArgumentLine(command, keyword, value))
    ensures ExecuteAll(ArgumentLine(command, keyword, value), s)
         == s.Set(owner, s.Get(owner) + ArgumentOption(keyword, value))
  {
    if value != "" {
      ArgIsOneWord(value);
    }
    OptionRuns(owner, command, keyword, value, value != "", s);
  }

  /** The closing pair of commands: probe with the current options, then back to defaults. */
  lemma ProbeAndReset(owner: string, destination: string, s: Session)
    requires owner in DIAGNOSTICS && destination != "" && CheckCommandArg(destination)
    ensures
      var lines := [RunLine(owner, destination), ResetLine(owner + "-options")];
      && CleanLines(lines)
      && ExecuteAll(lines, s)
           == s.(probes := s.probes + [Probe(owner, destination, s.Get(owner))]).Set(owner, map[])
  {
    hide Execute, RunLine, ResetLine, CheckCommandArg, IsKeyword;
    var command := owner + "-options";
    var run, reset := RunLine(owner, destination), ResetLine(command);
    var w1, w2 := ["execute", owner, destination], ["execute", command, "reset"];
    ArgIsOneWord(destination);
    DiagnosticWords(owner, command);
    RunLineReads(owner, destination);
    RunLineReads(command, "reset");
    ResetIsRun(command);
    ExecuteOne(run, w1, s);
    ExecuteOne(reset, w2, Execute(w1, s));
    ExecuteAppend([run], [reset], s);
    assert [run] + [reset] == [run, reset];
    ExecuteProbe(owner, command, destination, s);
  }

  lemma DiagnosticWords(owner: string, command: string)
    requires owner in DIAGNOSTICS && command == owner + "-options"
    ensures IsKeyword(owner) && IsKeyword(command) && IsKeyword("execute")
    ensures IsWord("reset") && '\n' !in "reset"
  {
    assert command == if owner == "ping" then "ping-options" else "traceroute-options";
  }

  lemma ResetIsRun(command: string)
    ensures ResetLine(command) == RunLine(command, "reset")
  {
    assert " reset" == " " + "reset";
  }

  lemma ExecuteProbe(owner: string, command: string, destination: string, s: Session)
    requires owner in DIAGNOSTICS && command == owner + "-options"
    ensures
      var s1 := s.(probes := s.probes + [Probe(owner, destination, s.Get(owner))]);
      && Execute(["execute", owner, destination], s) == s1
      && Execute(["execute", command, "reset"], s1) == s1.Set(owner, map[])
  {
    assert command == if owner == "ping" then "ping-options" else "traceroute-options";
  }

  lemma MapAssoc(a: Options, b: Options, c: Options)
    ensures a + b + c == a + (b + c)
  {
  }

  /** Two batches in a row, each adding options to one command, add both. */
  lemma AddOptions(owner: string, xs: seq<string>, ys: seq<string>, a: Options, b: Options, s: Session)
    requires owner in DIAGNOSTICS && CleanLines(xs) && CleanLines(ys)
    requires ExecuteAll(xs, s) == s.Set(owner, s.Get(owner) + a)
    requires
      var s1 := s.Set(owner, s.Get(owner) + a);
      ExecuteAll(ys, s1) == s1.Set(owner, s1.Get(owner) + b)
    ensures CleanLines(xs + ys)
    ensures ExecuteAll(xs + ys, s) == s.Set(owner, s.Get(owner) + (a + b))
  {
    hide ExecuteAll;
    ExecuteAppend(xs, ys, s);
    SetGet(s, owner, s.Get(owner) + a, s.Get(owner) + a + b);
    MapAssoc(s.Get(owner), a, b);
  }

  lemma PingOptionLines(r: PingRequest, s: Session)
    requires PingSupported(r, FortiOS)
    ensures
      var lines := FortiPingLines(r)[..|FortiPingLines(r)| - 2];
      && CleanLines(lines)
      && ExecuteAll(lines, s) == s.Set("ping", s.ping + PingOptions(r))
  {
    hide NumberLine, ArgumentLine, NumberOption, ArgumentOption, ExecuteAll, CleanLines, CheckCommandArg;
    var c := "ping-options";
    assert c == "ping" + "-options";
    var l1, l2, l3 := NumberLine(c, "repeat-count", r.count), NumberLine(c, "data-size", r.size),
                      NumberLine(c, "timeout", r.timeout);
    var l4, l5 := ArgumentLine(c, "source", r.source), ArgumentLine(c, "interface", r.outgoingInterface);
    var o1, o2, o3 := NumberOption("repeat-count", r.count), NumberOption("data-size", r.size),
                      NumberOption("timeout", r.timeout);
    var o4, o5 := ArgumentOption("source", r.source), ArgumentOption("interface", r.outgoingInterface);
    NumberLineRuns("ping", c, "repeat-count", r.count, s);
    NumberLineRuns("ping", c, "data-size", r.size, s.Set("ping", s.ping + o1));
    AddOptions("ping", l1, l2, o1, o2, s);
    NumberLineRuns("ping", c, "timeout", r.timeout, s.Set("ping", s.ping + (o1 + o2)));
    AddOptions("ping", l1 + l2, l3, o1 + o2, o3, s);
    ArgumentLineRuns("ping", c, "source", r.source, s.Set("ping", s.ping + (o1 + o2 + o3)));
    AddOptions("ping", l1 + l2 + l3, l4, o1 + o2 + o3, o4, s);
    ArgumentLineRuns("ping", c, "interface", r.outgoingInterface, s.Set("ping", s.ping + (o1 + o2 + o3 + o4)));
    AddOptions("ping", l1 + l2 + l3 + l4, l5, o1 + o2 + o3 + o4, o5, s);
    assert FortiPingLines(r)[..|FortiPingLines(r)| - 2] == l1 + l2 + l3 + l4 + l5;
  }

  lemma TraceOptionLines(r: TraceRequest, s: Session)
    requires TraceSupported(r, FortiOS)
    ensures
      var lines := FortiTraceLines(r)[..|FortiTraceLines(r)| - 2];
      && CleanLines(lines)
      && ExecuteAll(lines, s) == s.Set("traceroute", s.traceroute + TraceOptions(r))
  {
    hide NumberLine, ArgumentLine, NumberOption, ArgumentOption, ExecuteAll, CleanLines, CheckCommandArg;
    var c := "traceroute-options";
    assert c == "traceroute" + "-options";
    var l1 := NumberLine(c, "queries", r.probe);
    var l2, l3 := ArgumentLine(c, "source", r.source), ArgumentLine(c, "device", r.outgoingInterface);
    var o1 := NumberOption("queries", r.probe);
    var o2, o3 := ArgumentOption("source", r.source), ArgumentOption("device", r.outgoingInterface);
    NumberLineRuns("traceroute", c, "queries", r.probe, s);
    ArgumentLineRuns("traceroute", c, "source", r.source, s.Set("traceroute", s.traceroute + o1));
    AddOptions("traceroute", l1, l2, o1, o2, s);
    ArgumentLineRuns("traceroute", c, "device", r.outgoingInterface, s.Set("traceroute", s.traceroute + (o1 + o2)));
    AddOptions("traceroute", l1 + l2, l3, o1 + o2, o3, s);
    assert FortiTraceLines(r)[..|FortiTraceLines(r)| - 2] == l1 + l2 + l3;
  }

  /** Option lines, then the probe and the reset: the effect of a whole batch. */
  lemma BatchRuns(owner: string, lines: seq<string>, options: seq<string>, asked: Options, destination: string,
                  s: Session)
    requires owner in DIAGNOSTICS && destination != "" && CheckCommandArg(destination)
    requires lines == options + [RunLine(owner, destination), ResetLine(owner + "-options")]
    requires CleanLines(options) && ExecuteAll(options, s) == s.Set(owner, s.Get(owner) + asked)
    ensures Sent(lines).Ok?
    ensures Device(Sent(lines).value, s)
         == s.(probes := s.probes + [Probe(owner, destination, s.Get(owner) + asked)]).Set(owner, map[])
  {
    hide ExecuteAll, RunLine, ResetLine, Sent, CheckCommandArg;
    var s1 := s.Set(owner, s.Get(owner) + asked);
    ProbeAndReset(owner, destination, s1);
    var end := [RunLine(owner, destination), ResetLine(owner + "-options")];
    ExecuteAppend(options, end, s);
    SentIsSplitBack(lines);
  }

  /**
   A FortiOS ping, whatever options the device had set before: it understands every
   line, runs exactly one probe of the destination with the requested options over the
   ones already set, and is left with default ping options and nothing else changed.
   */
  lemma FortiPingSession(r: PingRequest, s: Session)
    requires PingSupported(r, FortiOS) && r.destination != ""
    ensures PingCommands(r, FortiOS).Ok? && Sent(PingCommands(r, FortiOS).value).Ok?
    ensures Device(Sent(PingCommands(r, FortiOS).value).value, s)
         == s.(probes := s.probes + [Probe("ping", r.destination, s.ping + PingOptions(r))], ping := map[])
  {
    hide ExecuteAll, CleanLines, CheckCommandArg, PingOptions;
    var lines := FortiPingLines(r);
    PingOptionLines(r, s);
    assert lines == lines[..|lines| - 2] + [RunLine("ping", r.destination), ResetLine("ping" + "-options")] by {
      assert "ping" + "-options" == "ping-options";
    }
    BatchRuns("ping", lines, lines[..|lines| - 2], PingOptions(r), r.destination, s);
  }

  /** The same for a FortiOS traceroute and the traceroute options. */
  lemma FortiTraceSession(r: TraceRequest, s: Session)
    requires TraceSupported(r, FortiOS) && r.destination != ""
    ensures TraceCommands(r, FortiOS).Ok? && Sent(TraceCommands(r, FortiOS).value).Ok?
    ensures Device(Sent(TraceCommands(r, FortiOS).value).value, s)
         == s.(probes := s.probes + [Probe("traceroute", r.destination, s.traceroute + TraceOptions(r))],
               traceroute := map[])
  {
    hide ExecuteAll, CleanLines, CheckCommandArg, TraceOptions;
    var lines := FortiTraceLines(r);
    TraceOptionLines(r, s);
    assert lines == lines[..|lines| - 2]
                    + [RunLine("traceroute", r.destination), ResetLine("traceroute" + "-options")] by {
      assert "traceroute" + "-options" == "traceroute-options";
    }
    BatchRuns("traceroute", lines, lines[..|lines| - 2], TraceOptions(r), r.destination, s);
  }

  // ----- whole runs of diagnostics

  datatype Job = PingJob(ping: PingRequest) | TraceJob(trace: TraceRequest)

  predicate JobSupported(job: Job) {
    match job
    case PingJob(r) => PingSupported(r, FortiOS) && r.destination != ""
    case TraceJob(r) => TraceSupported(r, FortiOS) && r.destination != ""
  }

  function JobText(job: Job): string
    requires JobSupported(job)
  {
    match job
    case PingJob(r) => FortiPingSession(r, Session(map[], map[], [], 0)); Sent(PingCommands(r, FortiOS).value).value
    case TraceJob(r) => FortiTraceSession(r, Session(map[], map[], [], 0)); Sent(TraceCommands(r, FortiOS).value).value
  }

  function JobProbe(job: Job): Probe {
    match job
    case PingJob(r) => Probe("ping", r.destination, PingOptions(r))
    case TraceJob(r) => Probe("traceroute", r.destination, TraceOptions(r))
  }

  function RunJobs(jobs: seq<Job>, s: Session): Session
    requires forall k :: 0 <= k < |jobs| ==> JobSupported(jobs[k])
  {
    if jobs == [] then s else RunJobs(jobs[1..], Device(JobText(jobs[0]), s))
  }

  function JobProbes(jobs: seq<Job>): (probes: seq<Probe>)
    ensures |probes| == |jobs| && forall k :: 0 <= k < |jobs| ==> probes[k] == JobProbe(jobs[k])
  {
    seq(|jobs|, k requires 0 <= k < |jobs| => JobProbe(jobs[k]))
  }

  /**
   Over any run of diagnostics on a device that keeps its options between batches, job
   after job runs exactly what was asked: no option of one leaks into another.
   */
  lemma {:induction false} JobsDoNotLeak(jobs: seq<Job>, probes: seq<Probe>, rejected: nat)
    requires forall k :: 0 <= k < |jobs| ==> JobSupported(jobs[k])
    ensures RunJobs(jobs, Session(map[], map[], probes, rejected))
         == Session(map[], map[], probes + JobProbes(jobs), rejected)
    decreases |jobs|
  {
    hide Device, JobText, JobProbe, JobSupported;
    var s := Session(map[], map[], probes, rejected);
    if jobs == [] {
      assert probes + JobProbes(jobs) == probes;
    } else {
      JobRuns(jobs[0], s);
      JobsDoNotLeak(jobs[1..], probes + [JobProbe(jobs[0])], rejected);
      assert probes + [JobProbe(jobs[0])] + JobProbes(jobs[1..]) == probes + JobProbes(jobs);
    }
  }

  lemma JobRuns(job: Job, s: Session)
    requires JobSupported(job) && s.ping == map[] && s.traceroute == map[]
    ensures Device(JobText(job), s) == s.(probes := s.probes + [JobProbe(job)])
  {
    hide Device, Sent, PingCommands, TraceCommands, PingSupported, TraceSupported, PingOptions, TraceOptions;
    match job
    case PingJob(r) =>
      FortiPingSession(r, s);
      assert map[] + PingOptions(r) == PingOptions(r);
    case TraceJob(r) =>
      FortiTraceSession(r, s);
      assert map[] + TraceOptions(r) == TraceOptions(r);
  }
}
