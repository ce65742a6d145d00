/**
 The command builders of internal/netdev/device_type.go, with what a caller may rely on:
 a device that is sent the result reads the request back.
 */
module CommandBuilders {
  import opened Text
  import opened CommandSafety
  import opened DeviceCommands
  import opened DeviceReading
  import opened ArgumentPattern
  import FortiSession

  /**
   Succeeds on exactly the requests whose arguments match the expression and whose options
   the platform has. Then, for a request with a destination,
   a device splits the one command into words that read as the request, and a FortiOS
   device, whatever its options, runs one such ping and has default ping options again.
   */
  method BuildPingCommands(r: PingRequest, dt: DeviceType) returns (result: Result<seq<string>>)
    ensures result == PingCommands(r, dt)
    ensures result.Ok? <==>
      && (forall a :: a in [r.destination, r.source, r.vrf, r.outgoingInterface] ==>
            a == "" || (|a| <= 255 && MatchesArgPattern(a)))
      && if dt == FortiOS then r.vrf == "" else r.timeout <= 0 && r.outgoingInterface == ""
    ensures result.Ok? && dt != FortiOS && r.destination != "" ==>
      |result.value| == 1 && ReadPing(Fields(result.value[0]), dt) == Some(AskedPing(r))
    ensures result.Ok? && dt == FortiOS && r.destination != "" ==>
      FortiSession.Sent(result.value).Ok? && RunsPing(FortiSession.Sent(result.value).value, r)
  {
    hide CheckCommandArgs, ReadPing, PingWords, FortiPingLines;
    ArgsIffMatch(r.destination, r.source, r.vrf, r.outgoingInterface);
    if !CheckCommandArgs(r.destination, r.source, r.vrf, r.outgoingInterface) {
      return Err;
    }
    if dt == FortiOS {
      if r.vrf != "" {
        return Err;
      }
      var commands := FortiPing(r);
      FortiPingLaw(r);
      return Ok(commands);
    }
    if r.timeout > 0 || r.outgoingInterface != "" {
      return Err;
    }
    var parts := GrowPing(r, dt);
    if r.destination != "" {
      PingRoundTrip(r, dt);
    }
    return Ok([Join(parts, ' ')]);
  }

  lemma ArgsIffMatch(destination: string, source: string, vrf: string, outgoingInterface: string)
    ensures CheckCommandArgs(destination, source, vrf, outgoingInterface) <==>
      forall a :: a in [destination, source, vrf, outgoingInterface] ==>
        a == "" || (|a| <= 255 && MatchesArgPattern(a))
  {
    hide CheckCommandArg, MatchesArgPattern;
    ArgIffMatches(destination);
    ArgIffMatches(source);
    ArgIffMatches(vrf);
    ArgIffMatches(outgoingInterface);
    var all := [destination, source, vrf, outgoingInterface];
    assert all[0] in all && all[1] in all && all[2] in all && all[3] in all;
  }

  /** From any session, one ping of the destination with the options asked for over those set. */
  ghost predicate RunsPing(text: string, r: PingRequest) {
    forall s: FortiSession.Session :: FortiSession.Device(text, s) ==
      s.(probes := s.probes + [FortiSession.Probe("ping", r.destination, s.ping + FortiSession.PingOptions(r))],
         ping := map[])
  }

  lemma FortiPingLaw(r: PingRequest)
    requires PingSupported(r, FortiOS)
    ensures r.destination != "" ==>
      && FortiSession.Sent(FortiPingLines(r)).Ok?
      && RunsPing(FortiSession.Sent(FortiPingLines(r)).value, r)
  {
    hide FortiSession.Device, FortiSession.Sent, FortiSession.PingOptions, FortiPingLines, CheckCommandArgs;
    if r.destination != "" {
      FortiSession.FortiPingSession(r, FortiSession.Session(map[], map[], [], 0));
      forall s: FortiSession.Session
        ensures FortiSession.Device(FortiSession.Sent(FortiPingLines(r)).value, s) ==
          s.(probes := s.probes + [FortiSession.Probe("ping", r.destination, s.ping + FortiSession.PingOptions(r))],
             ping := map[])
      {
        FortiSession.FortiPingSession(r, s);
      }
    }
  }

  /**
   The same for traceroute; off FortiOS the words read as the request if and only if it is
   not one of the ambiguous IOS requests.
   */
  method BuildTracerouteCommands(r: TraceRequest, dt: DeviceType) returns (result: Result<seq<string>>)
    ensures result == TraceCommands(r, dt)
    ensures result.Ok? <==>
      && (forall a :: a in [r.destination, r.source, r.vrf, r.outgoingInterface] ==>
            a == "" || (|a| <= 255 && MatchesArgPattern(a)))
      && if dt == FortiOS then r.vrf == "" && r.maxHops <= 0 && r.timeout <= 0 else r.outgoingInterface == ""
    ensures result.Ok? && dt != FortiOS && r.destination != "" ==>
      && |result.value| == 1
      && (ReadTrace(Fields(result.value[0]), dt) == Some(AskedTrace(r, dt)) <==> !ReadsAsVrf(r, dt))
    ensures result.Ok? && dt == FortiOS && r.destination != "" ==>
      FortiSession.Sent(result.value).Ok? && RunsTrace(FortiSession.Sent(result.value).value, r)
  {
    hide CheckCommandArgs, ReadTrace, TraceWords, FortiTraceLines;
    ArgsIffMatch(r.destination, r.source, r.vrf, r.outgoingInterface);
    if !CheckCommandArgs(r.destination, r.source, r.vrf, r.outgoingInterface) {
      return Err;
    }
    if dt == FortiOS {
      if r.vrf != "" || r.maxHops > 0 || r.timeout > 0 {
        return Err;
      }
      var commands := FortiTrace(r);
      FortiTraceLaw(r);
      return Ok(commands);
    }
    if r.outgoingInterface != "" {
      return Err;
    }
    var parts := GrowTraceroute(r, dt);
    if r.destination != "" {
      TraceRoundTrip(r, dt);
    }
    return Ok([Join(parts, ' ')]);
  }

  ghost predicate RunsTrace(text: string, r: TraceRequest) {
    forall s: FortiSession.Session :: FortiSession.Device(text, s) ==
      s.(probes := s.probes
                   + [FortiSession.Probe("traceroute", r.destination, s.traceroute + FortiSession.TraceOptions(r))],
         traceroute := map[])
  }

  lemma FortiTraceLaw(r: TraceRequest)
    requires TraceSupported(r, FortiOS)
    ensures r.destination != "" ==>
      && FortiSession.Sent(FortiTraceLines(r)).Ok?
      && RunsTrace(FortiSession.Sent(FortiTraceLines(r)).value, r)
  {
    hide FortiSession.Device, FortiSession.Sent, FortiSession.TraceOptions, FortiTraceLines, CheckCommandArgs;
    if r.destination != "" {
      FortiSession.FortiTraceSession(r, FortiSession.Session(map[], map[], [], 0));
      forall s: FortiSession.Session
        ensures FortiSession.Device(FortiSession.Sent(FortiTraceLines(r)).value, s) ==
          s.(probes := s.probes
                       + [FortiSession.Probe("traceroute", r.destination,
                                             s.traceroute + FortiSession.TraceOptions(r))],
             traceroute := map[])
      {
        FortiSession.FortiTraceSession(r, s);
      }
    }
  }
}
