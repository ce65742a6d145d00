/**
 The pings and traceroutes of internal/netdev/device_type.go: the step-by-step growth of a
 word list or a batch of FortiOS commands against a clause-by-clause description.
 */
module DeviceCommands {
  import opened Text
  import opened CommandSafety

  datatype PingRequest = PingRequest(destination: string, count: int, size: int, timeout: int,
                                     source: string, vrf: string, outgoingInterface: string)

  datatype TraceRequest = TraceRequest(destination: string, maxHops: int, timeout: int, probe: int,
                                       source: string, vrf: string, outgoingInterface: string)

  // ----- clauses

  /** Keywords are made of lower-case letters and hyphens. */
  predicate IsKeyword(w: string) {
    w != "" && forall i :: 0 <= i < |w| ==> 'a' <= w[i] <= 'z' || w[i] == '-'
  }

  lemma KeywordIsWord(w: string)
    requires IsKeyword(w)
    ensures IsWord(w) && '\n' !in w
  {
  }

  /** A keyword and a positive number, or nothing. */
  function Number(keyword: string, n: int): seq<string> {
    if n > 0 then [keyword, Decimal(n)] else []
  }

  /** A keyword and a non-empty argument, or nothing. */
  function Argument(keyword: string, value: string): seq<string> {
    if value != "" then [keyword, value] else []
  }

  function CountWord(dt: DeviceType): string {
    if dt == NXOS || dt == JunOS then "count" else "repeat"
  }

  function SizeWord(dt: DeviceType): string {
    if dt == NXOS then "packet-size" else "size"
  }

  function VrfWord(dt: DeviceType): string {
    if dt == JunOS then "routing-instance" else "vrf"
  }

  function HopsWord(dt: DeviceType): string {
    if dt == JunOS then "ttl" else "maximum-hops"
  }

  function WaitWord(dt: DeviceType): string {
    if dt == JunOS then "wait" else "timeout"
  }

  function PingWords(r: PingRequest, dt: DeviceType): seq<string> {
    ["ping", r.destination]
    + Number(CountWord(dt), r.count)
    + Number(SizeWord(dt), r.size)
    + Argument("source", r.source)
    + Argument(VrfWord(dt), r.vrf)
  }

  function TraceWords(r: TraceRequest, dt: DeviceType): seq<string> {
    ["traceroute"]
    + (if dt == IOS then Argument("vrf", r.vrf) else [])
    + [r.destination]
    + Number(HopsWord(dt), r.maxHops)
    + Number(WaitWord(dt), r.timeout)
    + (if dt == JunOS then [] else Number("probe", r.probe))
    + Argument("source", r.source)
    + (if dt == IOS then [] else Argument(VrfWord(dt), r.vrf))
  }

  /** One option line of a FortiOS batch. */
  function OptionLine(command: string, keyword: string, value: string): string {
    "execute " + command + " " + keyword + " " + value
  }

  function NumberLine(command: string, keyword: string, n: int): seq<string> {
    if n > 0 then [OptionLine(command, keyword, Decimal(n))] else []
  }

  function ArgumentLine(command: string, keyword: string, value: string): seq<string> {
    if value != "" then [OptionLine(command, keyword, value)] else []
  }

  function RunLine(command: string, destination: string): string {
    "execute " + command + " " + destination
  }

  function ResetLine(command: string): string {
    "execute " + command + " reset"
  }

  function FortiPingLines(r: PingRequest): seq<string> {
    NumberLine("ping-options", "repeat-count", r.count)
    + NumberLine("ping-options", "data-size", r.size)
    + NumberLine("ping-options", "timeout", r.timeout)
    + ArgumentLine("ping-options", "source", r.source)
    + ArgumentLine("ping-options", "interface", r.outgoingInterface)
    + [RunLine("ping", r.destination), ResetLine("ping-options")]
  }

  function FortiTraceLines(r: TraceRequest): seq<string> {
    NumberLine("traceroute-options", "queries", r.probe)
    + ArgumentLine("traceroute-options", "source", r.source)
    + ArgumentLine("traceroute-options", "device", r.outgoingInterface)
    + [RunLine("traceroute", r.destination), ResetLine("traceroute-options")]
  }

  // ----- which requests are built

  predicate PingSupported(r: PingRequest, dt: DeviceType) {
    && CheckCommandArgs(r.destination, r.source, r.vrf, r.outgoingInterface)
    && if dt == FortiOS then r.vrf == "" else r.timeout <= 0 && r.outgoingInterface == ""
  }

  predicate TraceSupported(r: TraceRequest, dt: DeviceType) {
    && CheckCommandArgs(r.destination, r.source, r.vrf, r.outgoingInterface)
    && if dt == FortiOS then r.vrf == "" && r.maxHops <= 0 && r.timeout <= 0 else r.outgoingInterface == ""
  }

  function PingCommands(r: PingRequest, dt: DeviceType): Result<seq<string>> {
    if !PingSupported(r, dt) then Err
    else Ok(if dt == FortiOS then FortiPingLines(r) else [Join(PingWords(r, dt), ' ')])
  }

  function TraceCommands(r: TraceRequest, dt: DeviceType): Result<seq<string>> {
    if !TraceSupported(r, dt) then Err
    else Ok(if dt == FortiOS then FortiTraceLines(r) else [Join(TraceWords(r, dt), ' ')])
  }

  // ----- growing the lists

  method FortiPing(r: PingRequest) returns (commands: seq<string>)
    ensures commands == FortiPingLines(r)
  {
    hide OptionLine, RunLine, ResetLine, Decimal;
    commands := [];
    if r.count > 0 {
      commands := commands + [OptionLine("ping-options", "repeat-count", Decimal(r.count))];
    }
    if r.size > 0 {
      commands := commands + [OptionLine("ping-options", "data-size", Decimal(r.size))];
    }
    ghost var sized := NumberLine("ping-options", "repeat-count", r.count)
                       + NumberLine("ping-options", "data-size", r.size);
    assert commands == sized;
    if r.timeout > 0 {
      commands := commands + [OptionLine("ping-options", "timeout", Decimal(r.timeout))];
    }
    ghost var timed := sized + NumberLine("ping-options", "timeout", r.timeout);
    assert commands == timed;
    if r.source != "" {
      commands := commands + [OptionLine("ping-options", "source", r.source)];
    }
    if r.outgoingInterface != "" {
      commands := commands + [OptionLine("ping-options", "interface", r.outgoingInterface)];
    }
    commands := commands + [RunLine("ping", r.destination), ResetLine("ping-options")];
  }

  method FortiTrace(r: TraceRequest) returns (commands: seq<string>)
    ensures commands == FortiTraceLines(r)
  {
    hide OptionLine, RunLine, ResetLine, Decimal;
    commands := [];
    if r.probe > 0 {
      commands := commands + [OptionLine("traceroute-options", "queries", Decimal(r.probe))];
    }
    if r.source != "" {
      commands := commands + [OptionLine("traceroute-options", "source", r.source)];
    }
    if r.outgoingInterface != "" {
      commands := commands + [OptionLine("traceroute-options", "device", r.outgoingInterface)];
    }
    commands := commands + [RunLine("traceroute", r.destination), ResetLine("traceroute-options")];
  }

  method GrowPing(r: PingRequest, dt: DeviceType) returns (parts: seq<string>)
    ensures parts == PingWords(r, dt)
  {
    hide Decimal;
    parts := ["ping", r.destination];
    var nxos, junos := dt == NXOS, dt == JunOS;
    if r.count > 0 {
      if nxos || junos {
        parts := parts + ["count", Decimal(r.count)];
      } else {
        parts := parts + ["repeat", Decimal(r.count)];
      }
    }
    assert parts == ["ping", r.destination] + Number(CountWord(dt), r.count);
    if r.size > 0 {
      if nxos {
        parts := parts + ["packet-size", Decimal(r.size)];
      } else {
        parts := parts + ["size", Decimal(r.size)];
      }
    }
    assert parts == ["ping", r.destination] + Number(CountWord(dt), r.count) + Number(SizeWord(dt), r.size);
    if r.source != "" {
      parts := parts + ["source", r.source];
    }
    if r.vrf != "" {
      if junos {
        parts := parts + ["routing-instance", r.vrf];
      } else {
        parts := parts + ["vrf", r.vrf];
      }
    }
  }

  /** The traceroute words up to and including the destination. */
  function TraceHead(r: TraceRequest, dt: DeviceType): seq<string> {
    ["traceroute"] + (if dt == IOS then Argument("vrf", r.vrf) else []) + [r.destination]
  }

  method GrowTraceroute(r: TraceRequest, dt: DeviceType) returns (parts: seq<string>)
    ensures parts == TraceWords(r, dt)
  {
    hide Decimal;
    parts := ["traceroute"];
    var junos := dt == JunOS;
    if r.vrf != "" && dt == IOS {
      parts := parts + ["vrf", r.vrf];
    }
    parts := parts + [r.destination];
    ghost var head := TraceHead(r, dt);
    assert parts == head;
    hide TraceHead;
    if r.maxHops > 0 {
      if junos {
        parts := parts + ["ttl", Decimal(r.maxHops)];
      } else {
        parts := parts + ["maximum-hops", Decimal(r.maxHops)];
      }
    }
    ghost var hopped := head + Number(HopsWord(dt), r.maxHops);
    assert parts == hopped;
    if r.timeout > 0 {
      if junos {
        parts := parts + ["wait", Decimal(r.timeout)];
      } else {
        parts := parts + ["timeout", Decimal(r.timeout)];
      }
    }
    ghost var timed := hopped + Number(WaitWord(dt), r.timeout);
    assert parts == timed;
    if r.probe > 0 && !junos {
      parts := parts + ["probe", Decimal(r.probe)];
    }
    assert parts == timed + if junos then [] else Number("probe", r.probe);
    if r.source != "" {
      parts := parts + ["source", r.source];
    }
    if r.vrf != "" && dt != IOS {
      if junos {
        parts := parts + ["routing-instance", r.vrf];
      } else {
        parts := parts + ["vrf", r.vrf];
      }
    }
  }
}
