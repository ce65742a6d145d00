/**
 The known_hosts file as internal/sshclient/client.go reads and rewrites it: scanned
 into lines, filtered, extended by one line and written back.

 Text is ASCII, so characters and bytes agree. Parsing a line, normalising an address,
 hashing a host name under a salt and the key check of the knownhosts package are
 parameters; the salts drawn during an update are inputs of that update.
 */
module KnownHosts {
  import opened Text

  /** bufio.MaxScanTokenSize: the scanner's buffer holds no longer line. */
  const SCAN_LIMIT := 65536

  datatype HostKeyInfo = HostKeyInfo(host: string, port: int, line: string)

  datatype Status = Trusted | Mismatch | Unknown | CheckFailed

  datatype Env = Env(parse: string -> Option<seq<string>>, normalize: string -> string,
                     joinHostPort: (string, int) -> string, hash: (string, string) -> string,
                     check: (string, HostKeyInfo) -> Status)

  // ----- scanning

  function LineLength(text: string): (n: nat)
    ensures n <= |text| && '\n' !in text[..n]
    ensures n < |text| ==> text[n] == '\n'
  {
    if text == "" || text[0] == '\n' then 0
    else
      var n := 1 + LineLength(text[1..]);
      assert text[..n] == [text[0]] + text[1..][..n - 1];
      n
  }

  function DropCR(line: string): (r: string)
    ensures r <= line
  {
    if line != "" && line[|line| - 1] == '\r' then line[..|line| - 1] else line
  }

  function AfterLine(text: string): (rest: string)
    ensures text != "" ==> |rest| < |text|
  {
    var n := LineLength(text);
    if n < |text| then text[n + 1..] else ""
  }

  /** All the lines a bufio.Scanner yields, or its error on a line that is too long. */
  function ScanLines(text: string): Result<seq<string>>
    decreases |text|
  {
    if text == "" then Ok([])
    else if LineLength(text) >= SCAN_LIMIT then Err
    else
      match ScanLines(AfterLine(text))
      case Err => Err
      case Ok(lines) => Ok([DropCR(text[..LineLength(text)])] + lines)
  }

  /** What is written: every line followed by a newline. */
  function Written(lines: seq<string>): string {
    Join(lines, '\n') + "\n"
  }

  // ----- matching

  function NormalizedPort(port: int): int {
    if port == 0 then 22 else port
  }

  /** knownHostAddresses: the one address a host is stored under. */
  function Address(e: Env, host: string, port: int): string {
    if NormalizedPort(port) == 22 then e.normalize(host)
    else e.normalize(e.joinHostPort(host, NormalizedPort(port)))
  }

  predicate IsComment(line: string) {
    TrimSpace(line) == "" || TrimSpace(line)[0] == '#'
  }

  /** lineMatchesHost, with the salt this call of HashHostname draws. */
  predicate LineMatches(e: Env, line: string, host: string, port: int, salt: string) {
    && !IsComment(line)
    && e.parse(TrimSpace(line)).Some?
    && Names(e.parse(TrimSpace(line)).value, Address(e, host, port), e.hash(Address(e, host, port), salt))
  }

  /** One of the parsed host names is the target, plain or hashed. */
  predicate Names(hosts: seq<string>, target: string, hashed: string) {
    exists k :: 0 <= k < |hosts| && (hosts[k] == target || hosts[k] == hashed)
  }

  // ----- updating

  /** One update: the key to store, whether it replaces, and the salt drawn for each line examined. */
  datatype Store = Store(info: HostKeyInfo, replace: bool, salts: string -> string)

  predicate Drops(e: Env, s: Store, line: string) {
    s.replace && LineMatches(e, line, s.info.host, s.info.port, s.salts(TrimSpace(line)))
  }

  /** The lines that stay when a host's key is stored. */
  function Kept(e: Env, lines: seq<string>, s: Store): seq<string> {
    if lines == [] then []
    else (if Drops(e, s, lines[0]) then [] else [lines[0]]) + Kept(e, lines[1..], s)
  }

  function UpdatedLines(e: Env, lines: seq<string>, s: Store): seq<string> {
    Kept(e, lines, s) + [TrimSpace(s.info.line)]
  }

  /** The new contents upsertKnownHost writes, or an error before the write. */
  function Upserted(e: Env, text: string, s: Store): Result<string> {
    match ScanLines(text)
    case Err => Err
    case Ok(lines) => Ok(Written(UpdatedLines(e, lines, s)))
  }

  function Contents(file: Option<string>): string {
    match file case None => "" case Some(text) => text
  }

  /** hostKeyStatus: a missing file knows no host. */
  function HostKeyStatus(e: Env, file: Option<string>, info: HostKeyInfo): Status {
    match file case None => Unknown case Some(text) => e.check(text, info)
  }

  // ----- one trust operation

  /** File-system calls that may fail; a failed write may leave anything behind. */
  datatype Fault = NoFault | CannotCreate | CannotRead | CannotWrite(left: Option<string>)

  datatype Request = Request(info: Option<HostKeyInfo>, replace: bool, salts: string -> string, fault: Fault)

  datatype Action = AlreadyTrusted | Added | Replaced

  datatype Options = Options(knownHostsPath: string, insecureSkipHostKeyCheck: bool)

  /** The file and the error flag after upsertKnownHost. */
  function UpsertFile(e: Env, file: Option<string>, s: Store, fault: Fault): (Option<string>, bool) {
    if fault.CannotCreate? || fault.CannotRead? || Upserted(e, Contents(file), s).Err? then (file, false)
    else if fault.CannotWrite? then (fault.left, false)
    else (Some(Upserted(e, Contents(file), s).value), true)
  }

  /** The host key is fetched, checked, and found to need storing. */
  predicate Stores(e: Env, o: Options, file: Option<string>, r: Request) {
    && !o.insecureSkipHostKeyCheck && o.knownHostsPath != "" && r.info.Some?
    && var status := HostKeyStatus(e, file, r.info.value);
       status == Unknown || (status == Mismatch && r.replace)
  }

  function StoreFor(r: Request): Store
    requires r.info.Some?
  {
    Store(r.info.value, r.replace, r.salts)
  }

  /** TrustHostKey: the file afterwards, and the action reported. */
  function Trust(e: Env, o: Options, file: Option<string>, r: Request): (Option<string>, Result<Action>) {
    if Stores(e, o, file, r) then
      var (after, ok) := UpsertFile(e, file, StoreFor(r), r.fault);
      (after, if !ok then Err
              else Ok(if HostKeyStatus(e, file, r.info.value) == Mismatch then Replaced else Added))
    else
      (file, if !o.insecureSkipHostKeyCheck && o.knownHostsPath != "" && r.info.Some?
                && HostKeyStatus(e, file, r.info.value) == Trusted
             then Ok(AlreadyTrusted) else Err)
  }
}
