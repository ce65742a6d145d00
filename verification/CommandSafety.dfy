/**
 The checks of internal/netdev/command_safety.go and the command normalisation of
 internal/netdev/device_type.go: a recogniser for "verb ... | filter ... | filter ...".
 */
module CommandSafety {
  import opened Text

  datatype DeviceType = Unspecified | EOS | IOS | NXOS | JunOS | FortiOS

  // ----- arguments

  const MAX_ARG_LEN := 255

  predicate IsArgChar(c: char) {
    || 'A' <= c <= 'Z' || 'a' <= c <= 'z' || '0' <= c <= '9'
    || c in {'.', '_', ':', '/', '@', '%', '-'}
  }

  /** checkCommandArg: empty is allowed, callers check required fields. */
  predicate CheckCommandArg(value: string) {
    value == "" || (|value| <= MAX_ARG_LEN && forall i :: 0 <= i < |value| ==> IsArgChar(value[i]))
  }

  predicate CheckCommandArgs(destination: string, source: string, vrf: string, outgoingInterface: string) {
    && CheckCommandArg(destination) && CheckCommandArg(source)
    && CheckCommandArg(vrf) && CheckCommandArg(outgoingInterface)
  }

  /** A non-empty argument is one word, with no separator any device splits commands on. */
  lemma ArgIsOneWord(value: string)
    requires value != "" && CheckCommandArg(value)
    ensures IsWord(value) && '\n' !in value
    ensures forall c :: c in value ==> CleanChar(c) && c != '|'
  {
  }

  // ----- the recogniser

  const EOS_PIPES := ["json", "no-more", "include", "exclude", "begin", "section"]
  const IOS_PIPES := ["include", "exclude", "begin", "section", "count"]
  const NXOS_PIPES := ["json", "json-pretty", "xml", "no-more", "include", "exclude", "begin", "section", "count",
                       "grep", "egrep", "last", "head"]
  const JUNOS_PIPES := ["display", "no-more", "match", "except", "count", "last", "find", "trim"]
  const FORTIOS_PIPES := ["grep"]

  const JUNOS_DISPLAY_FORMATS := ["json", "xml", "set"]

  function PipesFor(dt: DeviceType): seq<string> {
    match dt
    case Unspecified => EOS_PIPES + IOS_PIPES
    case EOS => EOS_PIPES
    case IOS => IOS_PIPES
    case NXOS => NXOS_PIPES
    case JunOS => JUNOS_PIPES
    case FortiOS => FORTIOS_PIPES
  }

  /** Not a control character, not a Unicode line or paragraph separator, not `;`, `<` or `>`. */
  predicate CleanChar(c: char) {
    && !IsControl(c) && c as int != 0x2028 && c as int != 0x2029
    && c != ';' && c != '<' && c != '>'
  }

  predicate Clean(s: string) {
    forall i :: 0 <= i < |s| ==> CleanChar(s[i])
  }

  predicate CheckVerb(segment: string, verb: string) {
    var fields := Fields(segment);
    fields != [] && EqualFold(fields[0], verb)
  }

  predicate CheckSegment(segment: string, dt: DeviceType) {
    var fields := Fields(ToLower(segment));
    && fields != []
    && fields[0] in PipesFor(dt)
    && (dt == JunOS && fields[0] == "display" ==> |fields| == 2 && fields[1] in JUNOS_DISPLAY_FORMATS)
  }

  /** checkOperationalCommand returns no error. */
  predicate CheckOperationalCommand(command: string, verb: string, dt: DeviceType) {
    var segments := Split(command, '|');
    && Clean(command)
    && CheckVerb(segments[0], verb)
    && forall k :: 1 <= k < |segments| ==> CheckSegment(segments[k], dt)
  }

  // ----- normalisation

  predicate HasPrefix(s: string, prefix: string) {
    |prefix| <= |s| && s[..|prefix|] == prefix
  }

  function NormalizeFortiOS(command: string, lower: string): Result<string> {
    if HasPrefix(lower, "show full-configuration") || HasPrefix(lower, "show") then Err
    else if HasPrefix(lower, "config") then Err
    else if HasPrefix(lower, "execute ping") || HasPrefix(lower, "execute traceroute") then Err
    else if HasPrefix(lower, "execute") then Err
    else if HasPrefix(lower, "diagnose") then Err
    else if !HasPrefix(lower, "get") then Err
    else if !CheckOperationalCommand(command, "get", FortiOS) then Err
    else Ok(command)
  }

  /** normalizeOperationalCommand */
  function Normalize(command: string, dt: DeviceType): Result<string> {
    var trimmed := TrimSpace(command);
    var lower := ToLower(trimmed);
    if dt == FortiOS then NormalizeFortiOS(trimmed, lower)
    else if !CheckOperationalCommand(trimmed, "show", dt) then Err
    else if HasPrefix(lower, "show ru") || HasPrefix(lower, "show sta") then Err
    else if dt == JunOS && HasPrefix(lower, "show configuration") then Err
    else Ok(trimmed)
  }
}
