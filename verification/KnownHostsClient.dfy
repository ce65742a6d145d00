/**
 The known_hosts code of internal/sshclient/client.go in its own form: the scanner loop,
 the nested search loops and the update of the file, with the options and the file as
 fields.
 */
module KnownHostsClient {
  import opened Text
  import opened KnownHosts
  import opened KnownHostsLaws

  /** The kept lines of a text that scans without error. */
  function KeptOf(e: Env, text: string, s: Store): seq<string> {
    match ScanLines(text) case Err => [] case Ok(lines) => Kept(e, lines, s)
  }

  lemma KeptOfScan(e: Env, text: string, s: Store)
    ensures ScanLines(text).Ok? ==> KeptOf(e, text, s) == Kept(e, ScanLines(text).value, s)
  {
  }

  lemma ScanNothing(e: Env, s: Store)
    ensures ScanLines("").Ok? && KeptOf(e, "", s) == []
  {
  }

  lemma ScanTooLong(text: string)
    requires text != "" && LineLength(text) >= SCAN_LIMIT
    ensures ScanLines(text) == Err
  {
  }

  /** One turn of the scanner loop. */
  lemma ScanStep(e: Env, text: string, s: Store)
    requires text != "" && LineLength(text) < SCAN_LIMIT
    ensures ScanLines(text).Ok? <==> ScanLines(AfterLine(text)).Ok?
    ensures ScanLines(text).Ok? ==>
      var line := DropCR(text[..LineLength(text)]);
      KeptOf(e, text, s) == (if Drops(e, s, line) then [] else [line]) + KeptOf(e, AfterLine(text), s)
  {
    hide LineLength, DropCR, Drops;
    var line := DropCR(text[..LineLength(text)]);
    if ScanLines(AfterLine(text)).Ok? {
      var rest := ScanLines(AfterLine(text)).value;
      assert ([line] + rest)[1..] == rest;
    }
  }

  lemma FoundIsNamed(hosts: seq<string>, target: string, hashed: string)
    ensures (exists k :: 0 <= k < |hosts| && (hosts[k] in [target] || hosts[k] in map[hashed := ()]))
       <==> Names(hosts, target, hashed)
  {
  }

  class Client {
    const env: Env
    var options: Options
    var file: Option<string>

    constructor (env: Env, options: Options, file: Option<string>)
      ensures this.env == env && this.options == options && this.file == file
    {
      this.env, this.options, this.file := env, options, file;
    }

    method LineMatchesHost(line: string, host: string, port: int, salt: string) returns (found: bool)
      ensures found == LineMatches(env, line, host, port, salt)
      ensures
        var text := TrimSpace(line);
        var target := env.normalize(if port == 0 || port == 22 then host else env.joinHostPort(host, port));
        found <==>
          && text != "" && text[0] != '#' && env.parse(text).Some?
          && (target in env.parse(text).value || env.hash(target, salt) in env.parse(text).value)
    {
      MatchesIffNamed(env, line, host, port, salt);
      hide TrimSpace, Names, Address;
      var trimmed := TrimSpace(line);
      if trimmed == "" || trimmed[0] == '#' {
        return false;
      }
      var parsed := env.parse(trimmed);
      if parsed == None {
        return false;
      }
      var target := Address(env, host, port);
      var targets := [target];
      var hashedTargets: map<string, ()> := map[];
      for i := 0 to |targets|
        invariant hashedTargets == if i == 0 then map[] else map[env.hash(target, salt) := ()]
      {
        hashedTargets := hashedTargets[env.hash(targets[i], salt) := ()];
      }
      found := FindHost(parsed.value, targets, hashedTargets);
      FoundIsNamed(parsed.value, target, env.hash(target, salt));
    }

    method FindHost(hosts: seq<string>, targets: seq<string>, hashedTargets: map<string, ()>) returns (found: bool)
      ensures found == exists k :: 0 <= k < |hosts| && (hosts[k] in targets || hosts[k] in hashedTargets)
    {
      for k := 0 to |hosts|
        invariant forall j :: 0 <= j < k ==> hosts[j] !in targets && hosts[j] !in hashedTargets
      {
        var existing := hosts[k];
        for t := 0 to |targets|
          invariant existing !in targets[..t]
        {
          if existing == targets[t] {
            return true;
          }
        }
        assert targets[..|targets|] == targets;
        if existing in hashedTargets {
          return true;
        }
      }
      return false;
    }

    /** The scanner loop of upsertKnownHost, spelled out over the unread text. */
    method ScanKept(existing: string, s: Store) returns (r: Result<seq<string>>)
      ensures r ==
        match ScanLines(existing)
        case Err => Err
        case Ok(all) => Ok(Kept(env, all, s))
    {
      hide ScanLines, KeptOf, LineMatches, TrimSpace;
      var lines := [];
      var unread := existing;
      assert lines + KeptOf(env, unread, s) == KeptOf(env, unread, s);
      while unread != ""
        invariant ScanLines(unread).Ok? <==> ScanLines(existing).Ok?
        invariant ScanLines(unread).Ok? ==>
          KeptOf(env, existing, s) == lines + KeptOf(env, unread, s)
        decreases |unread|
      {
        var n := LineLength(unread);
        if n >= SCAN_LIMIT {
          ScanTooLong(unread);
          return Err;
        }
        var line := DropCR(unread[..n]);
        ScanStep(env, unread, s);
        unread := AfterLine(unread);
        var matches := false;
        if s.replace {
          matches := LineMatchesHost(line, s.info.host, s.info.port, s.salts(TrimSpace(line)));
        }
        ghost var rest := KeptOf(env, unread, s);
        ConcatAssoc(lines, [line], rest);
        if !(s.replace && matches) {
          lines := lines + [line];
        }
      }
      ScanNothing(env, s);
      assert lines + [] == lines;
      KeptOfScan(env, existing, s);
      return Ok(lines);
    }

    /**
     upsertKnownHost. After a successful replacing update no line before the last names
     the host plainly.
     */
    method UpsertKnownHost(s: Store, fault: Fault) returns (ok: bool)
      modifies this`file
      ensures (file, ok) == UpsertFile(env, old(file), s, fault)
      ensures ok && s.replace && GoodInfo(s.info) ==> HostStoredOnce(env, file, s.info)
    {
      if s.replace && GoodInfo(s.info) && Scannable(file) {
        ReplacedHostIsGone(env, file, s);
      }
      if fault.CannotCreate? {
        return false;
      }
      if fault.CannotRead? {
        return false;
      }
      var kept := ScanKept(Contents(file), s);
      if kept == Err {
        return false;
      }
      var lines := kept.value + [TrimSpace(s.info.line)];
      var content := Join(lines, '\n') + "\n";
      if fault.CannotWrite? {
        file := fault.left;
        return false;
      }
      file := Some(content);
      return true;
    }

    /** TrustHostKey: its whole outcome, for every state of the file and every failure. */
    method TrustHostKey(r: Request) returns (result: Result<Action>)
      modifies this`file
      ensures (file, result) == Trust(env, options, old(file), r)
      ensures TrustOutcome(env, options, old(file), r, file, result)
      ensures file != old(file) ==> r.fault.CannotWrite? || (result.Ok? && result.value != AlreadyTrusted)
      ensures r.info.Some? && !r.replace && HostKeyStatus(env, old(file), r.info.value) == Mismatch ==>
        result == Err && file == old(file)
    {
      TrustHasOutcome(env, options, file, r);
      if options.insecureSkipHostKeyCheck {
        return Err;
      }
      if options.knownHostsPath == "" {
        return Err;
      }
      if r.info == None {
        return Err;
      }
      var info := r.info.value;
      var status := HostKeyStatus(env, file, info);
      if status == CheckFailed {
        return Err;
      }
      if status == Trusted {
        return Ok(AlreadyTrusted);
      }
      if status == Mismatch && !r.replace {
        return Err;
      }
      var ok := UpsertKnownHost(StoreFor(r), r.fault);
      if !ok {
        return Err;
      }
      var action := Added;
      if status == Mismatch {
        action := Replaced;
      }
      return Ok(action);
    }
  }
}
