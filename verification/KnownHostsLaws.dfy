/**
 What the known_hosts file keeps: scanning undoes writing up to carriage returns, an
 update changes existing bytes in exactly known cases, and over any run of trust
 operations the file is the lines no replacement dropped, in their old order, followed by
 the keys stored since.
 */
module KnownHostsLaws {
  import opened Text
  import opened KnownHosts

  // ----- scanning what was written

  predicate EndsInCR(line: string) {
    line != "" && line[|line| - 1] == '\r'
  }

  /** The scanner drops one carriage return from each line. */
  function DropCRs(lines: seq<string>): (r: seq<string>)
    ensures |r| == |lines|
    ensures forall k :: 0 <= k < |lines| ==> r[k] == DropCR(lines[k])
  {
    seq(|lines|, k requires 0 <= k < |lines| => DropCR(lines[k]))
  }

  ghost predicate SingleLines(lines: seq<string>) {
    forall k :: 0 <= k < |lines| ==> '\n' !in lines[k]
  }

  ghost predicate Short(lines: seq<string>) {
    forall k :: 0 <= k < |lines| ==> |lines[k]| < SCAN_LIMIT
  }

  lemma {:induction false} LineLengthOf(line: string, rest: string)
    requires '\n' !in line
    ensures LineLength(line + "\n" + rest) == |line|
  {
    var text := line + "\n" + rest;
    if line != "" {
      assert text[0] == line[0] && line[0] in line;
      assert text[1..] == line[1..] + "\n" + rest;
      LineLengthOf(line[1..], rest);
    }
  }

  lemma ScanOne(line: string, rest: string)
    requires '\n' !in line
    ensures ScanLines(line + "\n" + rest) ==
      if |line| >= SCAN_LIMIT then Err
      else match ScanLines(rest) case Err => Err case Ok(lines) => Ok([DropCR(line)] + lines)
  {
    var text := line + "\n" + rest;
    LineLengthOf(line, rest);
    assert text[..|line|] == line && text[|line| + 1..] == rest;
  }

  function Unlines(lines: seq<string>): string {
    if lines == [] then "" else lines[0] + "\n" + Unlines(lines[1..])
  }

  lemma {:induction false} WrittenIsUnlines(lines: seq<string>)
    requires lines != []
    ensures Written(lines) == Unlines(lines)
  {
    if |lines| > 1 {
      WrittenIsUnlines(lines[1..]);
      assert lines[0] + ['\n'] + Join(lines[1..], '\n') + "\n" == lines[0] + "\n" + Unlines(lines[1..]);
    } else {
      assert lines[0] + "\n" + "" == lines[0] + "\n";
    }
  }

  lemma {:induction false} UnlinesAppend(xs: seq<string>, ys: seq<string>)
    ensures Unlines(xs + ys) == Unlines(xs) + Unlines(ys)
  {
    if xs == [] {
      assert xs + ys == ys;
    } else {
      assert (xs + ys)[1..] == xs[1..] + ys;
      UnlinesAppend(xs[1..], ys);
      ConcatAssoc(xs[0] + "\n", Unlines(xs[1..]), Unlines(ys));
    }
  }

  lemma {:induction false} ScanUnlines(lines: seq<string>)
    requires SingleLines(lines)
    ensures ScanLines(Unlines(lines)) == if Short(lines) then Ok(DropCRs(lines)) else Err
  {
    if lines == [] {
      assert DropCRs(lines) == [];
    } else {
      hide LineLength, DropCR, ScanLines, Short, DropCRs;
      ScanOne(lines[0], Unlines(lines[1..]));
      ScanUnlines(lines[1..]);
      RawCons(lines[0], lines[1..]);
      assert lines == [lines[0]] + lines[1..];
    }
  }

  lemma ShortCons(lines: seq<string>)
    requires lines != []
    ensures Short(lines) <==> |lines[0]| < SCAN_LIMIT && Short(lines[1..])
  {
    assert forall k :: 1 <= k < |lines| ==> lines[k] == lines[1..][k - 1];
  }

  /** Dropping carriage returns changes nothing exactly when no line ends in one. */
  lemma DropCRsSame(lines: seq<string>)
    ensures DropCRs(lines) == lines <==> forall k :: 0 <= k < |lines| ==> !EndsInCR(lines[k])
  {
    if DropCRs(lines) == lines {
      forall k | 0 <= k < |lines|
        ensures !EndsInCR(lines[k])
      {
        assert DropCRs(lines)[k] == DropCR(lines[k]);
      }
    }
  }

  /**
   Scanning what was written fails on a line that is too long, and otherwise gives the
   lines back without a final carriage return each.
   */
  lemma ScanWritten(lines: seq<string>)
    requires lines != [] && SingleLines(lines)
    ensures ScanLines(Written(lines)) == if Short(lines) then Ok(DropCRs(lines)) else Err
    ensures ScanLines(Written(lines)) == Ok(lines) <==>
      Short(lines) && forall k :: 0 <= k < |lines| ==> !EndsInCR(lines[k])
  {
    WrittenIsUnlines(lines);
    ScanUnlines(lines);
    DropCRsSame(lines);
  }

  /** The pieces between newlines; a final newline ends the last one and starts no other. */
  function RawLines(text: string): seq<string> {
    var parts := Split(text, '\n');
    if parts[|parts| - 1] == "" then parts[..|parts| - 1] else parts
  }

  lemma RawLinesStep(line: string, rest: string)
    requires '\n' !in line
    ensures RawLines(line + "\n" + rest) == [line] + RawLines(rest)
  {
    SplitAppend(line, rest, '\n');
    SplitWithout(line, '\n');
    assert line + "\n" + rest == line + ['\n'] + rest;
    var parts := Split(rest, '\n');
    assert ([line] + parts)[..|parts|] == [line] + parts[..|parts| - 1];
  }

  lemma RawLinesLast(line: string)
    requires '\n' !in line && line != ""
    ensures RawLines(line) == [line]
  {
    SplitWithout(line, '\n');
  }

  lemma ScanStepFails(text: string)
    requires text != ""
    ensures ScanLines(text).Err? <==> LineLength(text) >= SCAN_LIMIT || ScanLines(AfterLine(text)).Err?
  {
    hide DropCR, LineLength, AfterLine;
  }

  lemma {:induction false} ScanRaw(text: string)
    ensures ScanLines(text) == if Short(RawLines(text)) then Ok(DropCRs(RawLines(text))) else Err
    decreases |text|
  {
    if text == "" {
      NothingRaw();
      assert DropCRs([]) == [];
    } else {
      hide DropCR, LineLength, ScanLines, AfterLine, Short, RawLines, DropCRs;
      var line, rest := text[..LineLength(text)], AfterLine(text);
      assert |rest| < |text|;
      ScanRaw(rest);
      ScanStepFails(text);
      if ScanLines(text).Ok? {
        ScanStepLines(text);
      }
      RawStep(text);
      RawCons(line, RawLines(rest));
    }
  }

  lemma RawCons(line: string, raw: seq<string>)
    ensures Short([line] + raw) <==> |line| < SCAN_LIMIT && Short(raw)
    ensures DropCRs([line] + raw) == [DropCR(line)] + DropCRs(raw)
  {
    hide DropCR;
    assert ([line] + raw)[1..] == raw;
    ShortCons([line] + raw);
  }

  lemma RawStep(text: string)
    requires text != ""
    ensures RawLines(text) == [text[..LineLength(text)]] + RawLines(AfterLine(text))
  {
    hide LineLength, RawLines;
    var line := text[..LineLength(text)];
    if LineLength(text) < |text| {
      LineAndRest(text);
      RawLinesStep(line, AfterLine(text));
    } else {
      assert text == line;
      RawLinesLast(line);
      NothingRaw();
    }
  }

  lemma NothingRaw()
    ensures RawLines("") == []
  {
  }

  /**
   For any text: the scanner fails exactly when some piece between newlines is 64 KiB long
   or longer, and otherwise yields every piece, the last one too when no newline ends it,
   less one carriage return at its end.
   */
  lemma ScanIsSplit(text: string)
    ensures ScanLines(text).Err? <==> exists k :: 0 <= k < |RawLines(text)| && |RawLines(text)[k]| >= 65536
    ensures ScanLines(text).Ok? ==>
      var lines, raw := ScanLines(text).value, RawLines(text);
      && |lines| == |raw|
      && forall k :: 0 <= k < |raw| ==> if EndsInCR(raw[k]) then raw[k] == lines[k] + "\r" else raw[k] == lines[k]
  {
    hide RawLines, ScanLines;
    ScanRaw(text);
  }

  /** What the scanner yields are single lines within its limit. */
  lemma {:induction false} ScannedLines(text: string)
    requires ScanLines(text).Ok?
    ensures SingleLines(ScanLines(text).value) && Short(ScanLines(text).value)
    decreases |text|
  {
    if text != "" {
      hide DropCR, LineLength, ScanLines, AfterLine, SingleLines, Short;
      ScanStepLines(text);
      ScannedLines(AfterLine(text));
      FirstScanned(text);
      GoodCons(DropCR(text[..LineLength(text)]), ScanLines(AfterLine(text)).value);
    }
  }

  lemma ScanStepLines(text: string)
    requires text != "" && ScanLines(text).Ok?
    ensures LineLength(text) < SCAN_LIMIT && ScanLines(AfterLine(text)).Ok? && |AfterLine(text)| < |text|
    ensures ScanLines(text).value == [DropCR(text[..LineLength(text)])] + ScanLines(AfterLine(text)).value
  {
    hide DropCR, LineLength, AfterLine;
  }

  lemma FirstScanned(text: string)
    requires LineLength(text) < SCAN_LIMIT
    ensures
      var line := DropCR(text[..LineLength(text)]);
      '\n' !in line && |line| < SCAN_LIMIT
  {
    hide LineLength;
    var line := text[..LineLength(text)];
    assert forall c :: c in DropCR(line) ==> c in line;
  }

  lemma GoodCons(line: string, lines: seq<string>)
    requires '\n' !in line && |line| < SCAN_LIMIT && SingleLines(lines) && Short(lines)
    ensures SingleLines([line] + lines) && Short([line] + lines)
  {
  }

  // ----- when an update leaves the existing bytes alone

  /** Empty or ending in a newline, with no carriage return before a newline. */
  ghost predicate PlainText(text: string) {
    (text == "" || text[|text| - 1] == '\n') && NoCRBeforeNewline(text)
  }

  ghost predicate NoCRBeforeNewline(text: string) {
    forall i :: 0 <= i < |text| - 1 ==> !(text[i] == '\r' && text[i + 1] == '\n')
  }

  lemma NoCRStep(line: string, rest: string)
    requires '\n' !in line
    ensures NoCRBeforeNewline(line + "\n" + rest) <==> !EndsInCR(line) && NoCRBeforeNewline(rest)
  {
    var text, n := line + "\n" + rest, |line|;
    assert text[n] == '\n' && forall i :: 0 <= i < |rest| ==> rest[i] == text[n + 1 + i];
    assert forall i :: 0 <= i < n ==> text[i] == line[i];
    assert EndsInCR(line) ==> text[n - 1] == '\r';
    if NoCRBeforeNewline(text) {
      forall i | 0 <= i < |rest| - 1
        ensures !(rest[i] == '\r' && rest[i + 1] == '\n')
      {
        assert rest[i] == text[n + 1 + i] && rest[i + 1] == text[n + 1 + i + 1];
      }
    }
    if !EndsInCR(line) && NoCRBeforeNewline(rest) {
      forall i | 0 <= i < |text| - 1
        ensures !(text[i] == '\r' && text[i + 1] == '\n')
      {
        if i > n {
          assert rest[i - n - 1] == text[i] && rest[i - n] == text[i + 1];
        } else if i < n - 1 {
          assert text[i + 1] == line[i + 1];
        }
      }
    }
  }

  lemma PlainStep(line: string, rest: string)
    requires '\n' !in line
    ensures PlainText(line + "\n" + rest) <==> !EndsInCR(line) && PlainText(rest)
  {
    hide NoCRBeforeNewline, EndsInCR;
    var text := line + "\n" + rest;
    NoCRStep(line, rest);
    assert rest == "" ==> text[|text| - 1] == '\n';
    assert rest != "" ==> text[|text| - 1] == rest[|rest| - 1];
  }

  /** Writing the scanned lines back gives the same text exactly when it is plain. */
  lemma {:induction false} UnlinesOfScan(text: string)
    requires ScanLines(text).Ok?
    ensures Unlines(ScanLines(text).value) == text <==> PlainText(text)
    decreases |text|
  {
    if text != "" {
      hide DropCR, LineLength, ScanLines, AfterLine, PlainText, Unlines, EndsInCR;
      ScanStepLines(text);
      UnlinesOfScan(AfterLine(text));
      var line, rest := text[..LineLength(text)], AfterLine(text);
      var back := Unlines(ScanLines(rest).value);
      UnlinesCons(DropCR(line), ScanLines(rest).value);
      if LineLength(text) < |text| {
        LineAndRest(text);
        PlainStep(line, rest);
        SameLine(line, rest, back);
      } else {
        assert text == line;
        NoNewline(line, DropCR(line), back);
      }
    }
  }

  lemma LineAndRest(text: string)
    requires LineLength(text) < |text|
    ensures text == text[..LineLength(text)] + "\n" + AfterLine(text)
  {
    hide LineLength;
    SplitAt(text, LineLength(text));
  }

  lemma SplitAt(text: string, n: nat)
    requires n < |text| && text[n] == '\n'
    ensures text == text[..n] + "\n" + text[n + 1..]
  {
  }

  lemma UnlinesCons(line: string, lines: seq<string>)
    ensures Unlines([line] + lines) == line + "\n" + Unlines(lines)
  {
    assert ([line] + lines)[1..] == lines;
  }

  lemma SameLine(line: string, rest: string, back: string)
    requires '\n' !in line
    ensures DropCR(line) + "\n" + back == line + "\n" + rest <==> !EndsInCR(line) && back == rest
  {
    var x, y := DropCR(line) + "\n" + back, line + "\n" + rest;
    if EndsInCR(line) {
      assert x[|line| - 1] == '\n' && y[|line| - 1] == '\r';
    } else {
      assert x[|line| + 1..] == back && y[|line| + 1..] == rest;
    }
  }

  lemma NoNewline(line: string, dropped: string, back: string)
    requires '\n' !in line && line != ""
    ensures dropped + "\n" + back != line && !PlainText(line)
  {
    assert line[|line| - 1] in line;
    assert (dropped + "\n" + back)[|dropped|] == '\n';
  }

  /**
   When nothing is dropped, an update extends the text by one line and changes nothing
   else if and only if the text is plain. Otherwise it rewrites existing bytes: carriage
   returns at line ends disappear, and an unfinished last line gets a newline.
   */
  lemma UpdateKeepsText(e: Env, text: string, s: Store)
    requires ScanLines(text).Ok? && Kept(e, ScanLines(text).value, s) == ScanLines(text).value
    ensures Upserted(e, text, s) == Ok(text + TrimSpace(s.info.line) + "\n") <==> PlainText(text)
  {
    hide TrimSpace, PlainText, ScanLines;
    var lines, line := ScanLines(text).value, TrimSpace(s.info.line);
    WrittenIsUnlines(lines + [line]);
    UnlinesAppend(lines, [line]);
    UnlinesOne(line);
    UnlinesOfScan(text);
    ConcatAssoc(text, line, "\n");
    SameFront(Unlines(lines), text, line + "\n");
  }

  /** Without replacing, nothing is dropped: adding a key only appends iff the text is plain. */
  lemma AddOnlyAppends(e: Env, text: string, s: Store)
    requires ScanLines(text).Ok? && !s.replace
    ensures Upserted(e, text, s) == Ok(text + TrimSpace(s.info.line) + "\n") <==> PlainText(text)
  {
    hide TrimSpace, PlainText, ScanLines, Upserted;
    NothingKeptOut(e, ScanLines(text).value, s);
    UpdateKeepsText(e, text, s);
  }

  lemma SameFront(a: string, b: string, tail: string)
    ensures a + tail == b + tail <==> a == b
  {
    if a + tail == b + tail {
      assert |a| == |b|;
      assert a == (a + tail)[..|a|] && b == (b + tail)[..|b|];
    }
  }

  lemma UnlinesOne(line: string)
    ensures Unlines([line]) == line + "\n"
  {
    assert [line][1..] == [];
    assert line + "\n" + "" == line + "\n";
  }

  lemma {:induction false} NothingKeptOut(e: Env, lines: seq<string>, s: Store)
    requires forall k :: 0 <= k < |lines| ==> !Drops(e, s, lines[k])
    ensures Kept(e, lines, s) == lines
  {
    hide Drops;
    if lines != [] {
      NothingKeptOut(e, lines[1..], s);
    }
  }

  /** An input whose bytes an update changes: one line with a CRLF line end. */
  lemma CarriageReturnIsLost(e: Env, s: Store)
    requires !s.replace
    ensures ScanLines("a\r\n") == Ok(["a"]) && !PlainText("a\r\n")
    ensures Upserted(e, "a\r\n", s) == Ok("a\n" + TrimSpace(s.info.line) + "\n")
  {
    hide TrimSpace;
    ScanOne("a\r", "");
    assert "a\r" + "\n" + "" == "a\r\n";
    assert DropCR("a\r") == "a";
    assert "a\r\n"[1] == '\r' && "a\r\n"[2] == '\n';
    var line := TrimSpace(s.info.line);
    NothingKeptOut(e, ["a"], s);
    WrittenIsUnlines(["a"] + [line]);
    UnlinesAppend(["a"], [line]);
    UnlinesOne("a");
    UnlinesOne(line);
    assert Unlines(["a"]) == "a\n";
    ConcatAssoc("a\n", line, "\n");
    assert Upserted(e, "a\r\n", s) == Ok(Written(["a"] + [line]));
  }

  // ----- carriage returns do not change what a line is about

  lemma {:induction false} TrimLeftSnoc(s: string, c: char)
    requires IsSpace(c)
    ensures TrimLeft(s + [c]) == if TrimLeft(s) == "" then "" else TrimLeft(s) + [c]
  {
    if s == "" {
      assert s + [c] == [c] && [c][1..] == "";
    } else if IsSpace(s[0]) {
      assert (s + [c])[1..] == s[1..] + [c];
      TrimLeftSnoc(s[1..], c);
    }
  }

  lemma TrimRightSnoc(s: string, c: char)
    requires IsSpace(c)
    ensures TrimRight(s + [c]) == TrimRight(s)
  {
    assert (s + [c])[..|s|] == s;
  }

  lemma TrimSnoc(s: string, c: char)
    requires IsSpace(c)
    ensures TrimSpace(s + [c]) == TrimSpace(s)
  {
    hide TrimLeft, TrimRight;
    TrimLeftSnoc(s, c);
    TrimRightSnoc(TrimLeft(s), c);
  }

  lemma DropCRTrims(line: string)
    ensures TrimSpace(DropCR(line)) == TrimSpace(line)
  {
    hide TrimSpace;
    if EndsInCR(line) {
      var init := line[..|line| - 1];
      assert line == init + ['\r'];
      TrimSnoc(init, '\r');
    }
  }

  lemma DropCRDrops(e: Env, s: Store, line: string)
    ensures Drops(e, s, DropCR(line)) <==> Drops(e, s, line)
  {
    hide TrimSpace, DropCR, Names, Address;
    DropCRTrims(line);
  }

  // ----- one update on lines

  ghost predicate AnyDrops(e: Env, stores: seq<Store>, line: string) {
    exists k :: 0 <= k < |stores| && Drops(e, stores[k], line)
  }

  /** The file's lines after some updates, each followed by the next one's scan. */
  function Apply(e: Env, lines: seq<string>, stores: seq<Store>): seq<string>
    decreases |stores|
  {
    if |stores| == 0 then lines
    else Apply(e, DropCRs(Kept(e, lines, stores[0])) + [TrimSpace(stores[0].info.line)], stores[1..])
  }

  /** The lines that none of the stores drops, in order. */
  ghost function Survivors(e: Env, lines: seq<string>, stores: seq<Store>): seq<string> {
    if lines == [] then []
    else (if AnyDrops(e, stores, lines[0]) then [] else [lines[0]]) + Survivors(e, lines[1..], stores)
  }

  /** The stored lines that no later store drops, in order. */
  ghost function StoredLines(e: Env, stores: seq<Store>): seq<string> {
    if |stores| == 0 then []
    else Survivors(e, [TrimSpace(stores[0].info.line)], stores[1..]) + StoredLines(e, stores[1..])
  }

  /** Every scan drops one more carriage return. */
  function Rescanned(lines: seq<string>, n: nat): (r: seq<string>)
    ensures |r| == |lines|
    decreases n
  {
    if n == 0 then lines else Rescanned(DropCRs(lines), n - 1)
  }

  lemma {:induction false} SurvivorsAppend(e: Env, xs: seq<string>, ys: seq<string>, stores: seq<Store>)
    ensures Survivors(e, xs + ys, stores) == Survivors(e, xs, stores) + Survivors(e, ys, stores)
  {
    hide AnyDrops;
    if xs == [] {
      assert xs + ys == ys;
    } else {
      assert (xs + ys)[1..] == xs[1..] + ys;
      SurvivorsAppend(e, xs[1..], ys, stores);
      ConcatAssoc(if AnyDrops(e, stores, xs[0]) then [] else [xs[0]], Survivors(e, xs[1..], stores),
                  Survivors(e, ys, stores));
    }
  }

  lemma AnyDropsCons(e: Env, s: Store, rest: seq<Store>, line: string)
    ensures AnyDrops(e, [s] + rest, line) <==> Drops(e, s, line) || AnyDrops(e, rest, line)
  {
    hide Drops;
    var all := [s] + rest;
    assert all[0] == s && forall k :: 0 <= k < |rest| ==> all[k + 1] == rest[k];
    if k :| 0 <= k < |all| && Drops(e, all[k], line) {
      assert k > 0 ==> Drops(e, rest[k - 1], line);
    }
    if k :| 0 <= k < |rest| && Drops(e, rest[k], line) {
      assert Drops(e, all[k + 1], line);
    }
  }

  lemma {:induction false} SurvivorsOfKept(e: Env, lines: seq<string>, s: Store, rest: seq<Store>)
    ensures Survivors(e, Kept(e, lines, s), rest) == Survivors(e, lines, [s] + rest)
  {
    hide AnyDrops, Drops;
    if lines != [] {
      SurvivorsOfKept(e, lines[1..], s, rest);
      AnyDropsCons(e, s, rest, lines[0]);
      var kept := Kept(e, lines[1..], s);
      if Drops(e, s, lines[0]) {
        assert [] + kept == kept;
      } else {
        assert ([lines[0]] + kept)[1..] == kept;
      }
    }
  }

  lemma DropCRAnyDrops(e: Env, stores: seq<Store>, line: string)
    ensures AnyDrops(e, stores, DropCR(line)) <==> AnyDrops(e, stores, line)
  {
    hide Drops, DropCR;
    forall k | 0 <= k < |stores|
      ensures Drops(e, stores[k], DropCR(line)) <==> Drops(e, stores[k], line)
    {
      DropCRDrops(e, stores[k], line);
    }
  }

  lemma {:induction false} SurvivorsOfDropped(e: Env, lines: seq<string>, stores: seq<Store>)
    ensures Survivors(e, DropCRs(lines), stores) == DropCRs(Survivors(e, lines, stores))
  {
    hide AnyDrops, DropCR;
    if lines != [] {
      var dropped := DropCRs(lines);
      assert dropped[1..] == DropCRs(lines[1..]);
      SurvivorsOfDropped(e, lines[1..], stores);
      DropCRAnyDrops(e, stores, lines[0]);
    }
  }

  lemma {:induction false} RescannedAppend(xs: seq<string>, ys: seq<string>, n: nat)
    ensures Rescanned(xs + ys, n) == Rescanned(xs, n) + Rescanned(ys, n)
    decreases n
  {
    hide DropCR;
    if n > 0 {
      assert DropCRs(xs + ys) == DropCRs(xs) + DropCRs(ys);
      RescannedAppend(DropCRs(xs), DropCRs(ys), n - 1);
    }
  }

  /** Lines that end in no carriage return are rescanned without change. */
  lemma {:induction false} RescannedSame(lines: seq<string>, n: nat)
    requires forall k :: 0 <= k < |lines| ==> !EndsInCR(lines[k])
    ensures Rescanned(lines, n) == lines
    decreases n
  {
    if n > 0 {
      DropCRsSame(lines);
      RescannedSame(lines, n - 1);
    }
  }

  lemma TrimmedNotCR(s: string)
    ensures !EndsInCR(TrimSpace(s))
  {
    assert Trimmed(TrimSpace(s));
  }

  lemma OneSurvivor(e: Env, line: string, stores: seq<Store>)
    ensures Survivors(e, [line], stores) == if AnyDrops(e, stores, line) then [] else [line]
  {
    hide AnyDrops;
    assert [line][1..] == [];
  }

  lemma StoredSurvivorsSame(e: Env, s: Store, stores: seq<Store>, n: nat)
    ensures
      var line := [TrimSpace(s.info.line)];
      Rescanned(Survivors(e, line, stores), n) == Survivors(e, line, stores)
  {
    hide AnyDrops, TrimSpace;
    TrimmedNotCR(s.info.line);
    OneSurvivor(e, TrimSpace(s.info.line), stores);
    RescannedSame(Survivors(e, [TrimSpace(s.info.line)], stores), n);
  }

  lemma {:induction false} NothingDropped(e: Env, lines: seq<string>)
    ensures Survivors(e, lines, []) == lines
  {
    if lines != [] {
      NothingDropped(e, lines[1..]);
    }
  }

  /** After one update, what later updates leave of it. */
  lemma SurvivorsOfUpdated(e: Env, lines: seq<string>, s: Store, rest: seq<Store>)
    ensures
      var updated, line := DropCRs(Kept(e, lines, s)) + [TrimSpace(s.info.line)], [TrimSpace(s.info.line)];
      Rescanned(Survivors(e, updated, rest), |rest|)
        == Rescanned(Survivors(e, lines, [s] + rest), |rest| + 1) + Survivors(e, line, rest)
  {
    hide Survivors, TrimSpace, Kept, DropCRs;
    var kept, line := Kept(e, lines, s), [TrimSpace(s.info.line)];
    SurvivorsAppend(e, DropCRs(kept), line, rest);
    SurvivorsOfDropped(e, kept, rest);
    SurvivorsOfKept(e, lines, s, rest);
    RescannedAppend(DropCRs(Survivors(e, kept, rest)), Survivors(e, line, rest), |rest|);
    StoredSurvivorsSame(e, s, rest, |rest|);
  }

  lemma StoresCons(e: Env, lines: seq<string>, s: Store, rest: seq<Store>)
    ensures Apply(e, lines, [s] + rest)
         == Apply(e, DropCRs(Kept(e, lines, s)) + [TrimSpace(s.info.line)], rest)
    ensures StoredLines(e, [s] + rest) == Survivors(e, [TrimSpace(s.info.line)], rest) + StoredLines(e, rest)
  {
    hide Kept, Survivors, TrimSpace, DropCRs;
    assert ([s] + rest)[1..] == rest;
  }

  lemma ApplyCons(e: Env, lines: seq<string>, s: Store, rest: seq<Store>)
    requires
      var updated := DropCRs(Kept(e, lines, s)) + [TrimSpace(s.info.line)];
      Apply(e, updated, rest) == Rescanned(Survivors(e, updated, rest), |rest|) + StoredLines(e, rest)
    ensures Apply(e, lines, [s] + rest)
         == Rescanned(Survivors(e, lines, [s] + rest), |rest| + 1) + StoredLines(e, [s] + rest)
  {
    hide *;
    StoresCons(e, lines, s, rest);
    SurvivorsOfUpdated(e, lines, s, rest);
    ConcatAssoc(Rescanned(Survivors(e, lines, [s] + rest), |rest| + 1),
                Survivors(e, [TrimSpace(s.info.line)], rest), StoredLines(e, rest));
  }

  lemma NoStores(e: Env, lines: seq<string>, stores: seq<Store>)
    requires |stores| == 0
    ensures Apply(e, lines, stores) == Rescanned(Survivors(e, lines, stores), |stores|) + StoredLines(e, stores)
  {
    hide Survivors, DropCR;
    assert stores == [];
    NothingDropped(e, lines);
    assert lines + [] == lines;
  }

  /**
   After any stores, the lines are the survivors of the old ones, less a carriage return
   for every scan, then those stored since.
   */
  lemma {:induction false} ApplyIsSurvivors(e: Env, lines: seq<string>, stores: seq<Store>)
    ensures Apply(e, lines, stores) == Rescanned(Survivors(e, lines, stores), |stores|) + StoredLines(e, stores)
    decreases |stores|
  {
    if |stores| == 0 {
      NoStores(e, lines, stores);
    } else {
      hide Survivors, Apply, StoredLines, TrimSpace, Kept, DropCRs, Rescanned;
      var s, rest := stores[0], stores[1..];
      assert [s] + rest == stores;
      ApplyIsSurvivors(e, DropCRs(Kept(e, lines, s)) + [TrimSpace(s.info.line)], rest);
      ApplyCons(e, lines, s, rest);
    }
  }

  // ----- updates on files

  /** A file the scanner reads to its end. */
  predicate Scannable(file: Option<string>) {
    ScanLines(Contents(file)).Ok?
  }

  function FileLines(file: Option<string>): seq<string> {
    match ScanLines(Contents(file)) case Err => [] case Ok(lines) => lines
  }

  /** A key line as knownhosts.Line makes it: a single line within the scanner's limit. */
  predicate GoodInfo(info: HostKeyInfo) {
    '\n' !in info.line && |info.line| < SCAN_LIMIT
  }

  lemma TrimmedInfo(info: HostKeyInfo)
    requires GoodInfo(info)
    ensures '\n' !in TrimSpace(info.line) && |TrimSpace(info.line)| < SCAN_LIMIT
  {
    hide TrimSpace;
    var pre, post := TrimSpaceParts(info.line);
    TrimKeepsOut(info.line, '\n');
  }

  lemma {:induction false} KeptGood(e: Env, lines: seq<string>, s: Store)
    requires SingleLines(lines) && Short(lines)
    ensures SingleLines(Kept(e, lines, s)) && Short(Kept(e, lines, s))
  {
    hide Drops;
    if lines != [] {
      KeptGood(e, lines[1..], s);
    }
  }

  lemma UpdatedGood(e: Env, file: Option<string>, s: Store)
    requires Scannable(file) && GoodInfo(s.info)
    ensures
      var updated := UpdatedLines(e, FileLines(file), s);
      updated != [] && SingleLines(updated) && Short(updated)
  {
    hide TrimSpace, ScanLines, Kept;
    ScannedLines(Contents(file));
    KeptGood(e, FileLines(file), s);
    TrimmedInfo(s.info);
  }

  /** A scannable file stays scannable, and its lines change as described. */
  lemma UpsertLines(e: Env, file: Option<string>, s: Store)
    requires Scannable(file) && GoodInfo(s.info)
    ensures Upserted(e, Contents(file), s) == Ok(Written(UpdatedLines(e, FileLines(file), s)))
    ensures
      var after := Some(Upserted(e, Contents(file), s).value);
      && Scannable(after)
      && FileLines(after) == DropCRs(Kept(e, FileLines(file), s)) + [TrimSpace(s.info.line)]
  {
    hide ScanLines, Written, TrimSpace, Kept, DropCR, GoodInfo;
    var kept, line := Kept(e, FileLines(file), s), TrimSpace(s.info.line);
    UpdatedGood(e, file, s);
    ScanWritten(UpdatedLines(e, FileLines(file), s));
    TrimmedNotCR(s.info.line);
    DropCRsSame([line]);
    assert DropCRs(kept + [line]) == DropCRs(kept) + DropCRs([line]);
  }

  // ----- replacing twice

  lemma {:induction false} UnlinesInjective(xs: seq<string>, ys: seq<string>)
    requires SingleLines(xs) && SingleLines(ys) && Unlines(xs) == Unlines(ys)
    ensures xs == ys
    decreases |xs|
  {
    if xs != [] && ys != [] {
      LineLengthOf(xs[0], Unlines(xs[1..]));
      LineLengthOf(ys[0], Unlines(ys[1..]));
      FirstLine(xs[0], Unlines(xs[1..]));
      FirstLine(ys[0], Unlines(ys[1..]));
      UnlinesInjective(xs[1..], ys[1..]);
      assert xs == [xs[0]] + xs[1..] && ys == [ys[0]] + ys[1..];
    }
  }

  lemma FirstLine(line: string, rest: string)
    ensures (line + "\n" + rest)[..|line|] == line && (line + "\n" + rest)[|line| + 1..] == rest
  {
  }

  /** Two updates write the same text exactly when they write the same lines. */
  lemma WrittenInjective(xs: seq<string>, ys: seq<string>)
    requires xs != [] && ys != [] && SingleLines(xs) && SingleLines(ys)
    ensures Written(xs) == Written(ys) <==> xs == ys
  {
    WrittenIsUnlines(xs);
    WrittenIsUnlines(ys);
    if Written(xs) == Written(ys) {
      UnlinesInjective(xs, ys);
    }
  }

  lemma {:induction false} KeptAppend(e: Env, xs: seq<string>, ys: seq<string>, s: Store)
    ensures Kept(e, xs + ys, s) == Kept(e, xs, s) + Kept(e, ys, s)
  {
    hide Drops;
    if xs == [] {
      assert xs + ys == ys;
    } else {
      assert (xs + ys)[1..] == xs[1..] + ys;
      KeptAppend(e, xs[1..], ys, s);
      ConcatAssoc(if Drops(e, s, xs[0]) then [] else [xs[0]], Kept(e, xs[1..], s), Kept(e, ys, s));
    }
  }

  lemma {:induction false} KeptOfDropped(e: Env, lines: seq<string>, s: Store)
    ensures Kept(e, DropCRs(lines), s) == DropCRs(Kept(e, lines, s))
  {
    hide Drops, DropCR;
    if lines != [] {
      assert DropCRs(lines)[1..] == DropCRs(lines[1..]);
      KeptOfDropped(e, lines[1..], s);
      DropCRDrops(e, s, lines[0]);
    }
  }

  lemma {:induction false} KeptAll(e: Env, lines: seq<string>, s: Store)
    ensures |Kept(e, lines, s)| <= |lines|
    ensures |Kept(e, lines, s)| == |lines| <==> forall k :: 0 <= k < |lines| ==> !Drops(e, s, lines[k])
  {
    hide Drops;
    if lines != [] {
      KeptAll(e, lines[1..], s);
      assert forall k :: 1 <= k < |lines| ==> lines[k] == lines[1..][k - 1];
    }
  }

  function Count(lines: seq<string>, line: string): nat {
    if lines == [] then 0 else (if lines[0] == line then 1 else 0) + Count(lines[1..], line)
  }

  lemma {:induction false} CountAppend(xs: seq<string>, ys: seq<string>, line: string)
    ensures Count(xs + ys, line) == Count(xs, line) + Count(ys, line)
  {
    if xs == [] {
      assert xs + ys == ys;
    } else {
      assert (xs + ys)[1..] == xs[1..] + ys;
      CountAppend(xs[1..], ys, line);
    }
  }

  lemma {:induction false} CountKept(e: Env, lines: seq<string>, s: Store, line: string)
    requires !Drops(e, s, line) && !EndsInCR(line)
    ensures Count(DropCRs(Kept(e, lines, s)), line) >= Count(lines, line)
  {
    hide Drops, EndsInCR;
    if lines != [] {
      CountKept(e, lines[1..], s, line);
      var rest := Kept(e, lines[1..], s);
      if !Drops(e, s, lines[0]) {
        assert DropCRs([lines[0]] + rest) == [DropCR(lines[0])] + DropCRs(rest);
        assert ([DropCR(lines[0])] + DropCRs(rest))[1..] == DropCRs(rest);
        DropCROfPlain(line);
      } else {
        assert [] + rest == rest;
      }
    }
  }

  lemma DropCROfPlain(line: string)
    requires !EndsInCR(line)
    ensures DropCR(line) == line
  {
  }

  /** Updating lines again: the second update leaves them as they are in exactly one case. */
  lemma UpdateAgain(e: Env, kept: seq<string>, line: string, s: Store)
    requires !EndsInCR(line)
    ensures Kept(e, DropCRs(kept) + [line], s) == kept <==>
      && Drops(e, s, line)
      && forall k :: 0 <= k < |kept| ==> !Drops(e, s, kept[k]) && !EndsInCR(kept[k])
  {
    hide Drops, EndsInCR;
    var again := Kept(e, kept, s);
    KeptAppend(e, DropCRs(kept), [line], s);
    KeptOfDropped(e, kept, s);
    KeptOne(e, line, s);
    KeptAll(e, kept, s);
    DropCRsSame(kept);
    if Drops(e, s, line) {
      assert DropCRs(again) + [] == DropCRs(again);
      if |again| == |kept| {
        NothingKeptOut(e, kept, s);
      }
    } else {
      CountAppend(DropCRs(again), [line], line);
      CountKept(e, kept, s, line);
      CountOne(line);
    }
  }

  lemma KeptOne(e: Env, line: string, s: Store)
    ensures Kept(e, [line], s) == if Drops(e, s, line) then [] else [line]
  {
    hide Drops;
    assert [line][1..] == [];
  }

  lemma CountOne(line: string)
    ensures Count([line], line) == 1
  {
    assert [line][1..] == [];
  }

  /**
   Storing the same key a second time, with whatever salts, leaves the file as it is if
   and only if the second update drops the line the first one stored and no other line,
   and no kept line still ends in a carriage return.
   */
  lemma ReplaceTwice(e: Env, file: Option<string>, s: Store, again: Store)
    requires Scannable(file) && GoodInfo(s.info) && again.info == s.info
    ensures
      var once, kept := Upserted(e, Contents(file), s), Kept(e, FileLines(file), s);
      && once.Ok?
      && (Upserted(e, once.value, again) == once <==>
          && Drops(e, again, TrimSpace(s.info.line))
          && forall k :: 0 <= k < |kept| ==> !Drops(e, again, kept[k]) && !EndsInCR(kept[k]))
  {
    hide Upserted, Kept, Drops, GoodInfo, Written, TrimSpace, DropCRs, Scannable, FileLines, EndsInCR;
    var kept, line := Kept(e, FileLines(file), s), TrimSpace(s.info.line);
    UpsertLines(e, file, s);
    var once := Some(Upserted(e, Contents(file), s).value);
    UpsertLines(e, once, again);
    UpdatedGood(e, file, s);
    UpdatedGood(e, once, again);
    var second := Kept(e, DropCRs(kept) + [line], again);
    WrittenInjective(second + [line], kept + [line]);
    SameInit(second, kept, line);
    TrimmedNotCR(s.info.line);
    UpdateAgain(e, kept, line, again);
  }

  lemma SameInit(xs: seq<string>, ys: seq<string>, line: string)
    ensures xs + [line] == ys + [line] <==> xs == ys
  {
    if xs + [line] == ys + [line] {
      assert |xs| == |ys|;
      assert xs == (xs + [line])[..|xs|] && ys == (ys + [line])[..|ys|];
    }
  }

  // ----- which lines are dropped

  lemma AddressIs(e: Env, host: string, port: int)
    ensures Address(e, host, port)
         == e.normalize(if port == 0 || port == 22 then host else e.joinHostPort(host, port))
  {
  }

  /** A line matches a host when it parses and lists the host's address, plain or freshly hashed. */
  lemma MatchesIffNamed(e: Env, line: string, host: string, port: int, salt: string)
    ensures
      var text := TrimSpace(line);
      var target := e.normalize(if port == 0 || port == 22 then host else e.joinHostPort(host, port));
      LineMatches(e, line, host, port, salt) <==>
        && text != "" && text[0] != '#' && e.parse(text).Some?
        && (target in e.parse(text).value || e.hash(target, salt) in e.parse(text).value)
  {
    hide TrimSpace, Address;
    AddressIs(e, host, port);
  }

  /** Exactly the lines an update drops; a hashed name counts only if a fresh hash equals it. */
  lemma DroppedIff(e: Env, s: Store, line: string)
    ensures
      var (info, text) := (s.info, TrimSpace(line));
      var target := e.normalize(if info.port == 0 || info.port == 22 then info.host
                                else e.joinHostPort(info.host, info.port));
      Drops(e, s, line) <==>
        && s.replace && text != "" && text[0] != '#' && e.parse(text).Some?
        && (target in e.parse(text).value || e.hash(target, s.salts(text)) in e.parse(text).value)
  {
    hide TrimSpace, LineMatches;
    MatchesIffNamed(e, line, s.info.host, s.info.port, s.salts(TrimSpace(line)));
  }

  /** The line is no comment, it parses, and it lists the host's address as it is. */
  ghost predicate NamesPlainly(e: Env, line: string, info: HostKeyInfo) {
    var text := TrimSpace(line);
    && text != "" && text[0] != '#' && e.parse(text).Some?
    && e.normalize(if info.port == 0 || info.port == 22 then info.host else e.joinHostPort(info.host, info.port))
         in e.parse(text).value
  }

  /** The last line is the host's key, and no other names the host plainly. */
  ghost predicate HostStoredOnce(e: Env, file: Option<string>, info: HostKeyInfo) {
    && file.Some? && ScanLines(file.value).Ok?
    && var lines := ScanLines(file.value).value;
    && lines != [] && lines[|lines| - 1] == TrimSpace(info.line)
    && forall k :: 0 <= k < |lines| - 1 ==> !NamesPlainly(e, lines[k], info)
  }

  lemma {:induction false} KeptNameNothing(e: Env, lines: seq<string>, s: Store)
    requires s.replace
    ensures forall k :: 0 <= k < |Kept(e, lines, s)| ==> !NamesPlainly(e, Kept(e, lines, s)[k], s.info)
  {
    hide NamesPlainly, Drops;
    if lines != [] {
      KeptNameNothing(e, lines[1..], s);
      PlainNameDrops(e, lines[0], s);
    }
  }

  lemma PlainNameDrops(e: Env, line: string, s: Store)
    requires s.replace
    ensures NamesPlainly(e, line, s.info) ==> Drops(e, s, line)
  {
    hide TrimSpace, Drops;
    DroppedIff(e, s, line);
  }

  /** After a replacing update the host's old plain entries are gone. */
  lemma ReplacedHostIsGone(e: Env, file: Option<string>, s: Store)
    requires Scannable(file) && GoodInfo(s.info) && s.replace
    ensures Upserted(e, Contents(file), s).Ok?
    ensures HostStoredOnce(e, Some(Upserted(e, Contents(file), s).value), s.info)
  {
    hide Scannable, FileLines, GoodInfo, NamesPlainly, TrimSpace, DropCR, Kept, Upserted;
    UpsertLines(e, file, s);
    var kept := Kept(e, FileLines(file), s);
    KeptNameNothing(e, FileLines(file), s);
    forall k | 0 <= k < |kept|
      ensures !NamesPlainly(e, DropCR(kept[k]), s.info)
    {
      DropCRNames(e, kept[k], s.info);
    }
    ScannedFile(Some(Upserted(e, Contents(file), s).value));
  }

  lemma DropCRNames(e: Env, line: string, info: HostKeyInfo)
    ensures NamesPlainly(e, DropCR(line), info) <==> NamesPlainly(e, line, info)
  {
    hide TrimSpace, DropCR;
    DropCRTrims(line);
  }

  lemma ScannedFile(file: Option<string>)
    requires file.Some? && Scannable(file)
    ensures ScanLines(file.value) == Ok(FileLines(file))
  {
  }

  // ----- the outcome of one trust operation

  /**
   Everything TrustHostKey promises. Nothing happens unless checking is on, a path is set
   and a key was fetched. A missing file knows no host. A trusted key is left alone, a
   mismatch is refused without permission to replace, and otherwise the key is stored,
   unless the file cannot be read, scanned or written.
   */
  ghost predicate TrustOutcome(e: Env, o: Options, before: Option<string>, r: Request,
                               after: Option<string>, result: Result<Action>) {
    if o.insecureSkipHostKeyCheck || o.knownHostsPath == "" || r.info == None then
      result == Err && after == before
    else
      var info := r.info.value;
      match if before == None then Unknown else e.check(before.value, info)
      case CheckFailed => result == Err && after == before
      case Trusted => result == Ok(AlreadyTrusted) && after == before
      case Unknown => StoreOutcome(e, before, r, after, result, Added)
      case Mismatch =>
        if r.replace then StoreOutcome(e, before, r, after, result, Replaced)
        else result == Err && after == before
  }

  /** Storing the key: the failures that leave the file alone, the one that may not, and success. */
  ghost predicate StoreOutcome(e: Env, before: Option<string>, r: Request,
                               after: Option<string>, result: Result<Action>, action: Action)
    requires r.info.Some?
  {
    var (info, text) := (r.info.value, if before == None then "" else before.value);
    if r.fault.CannotCreate? || r.fault.CannotRead? || ScanLines(text).Err? then result == Err && after == before
    else if r.fault.CannotWrite? then result == Err && after == r.fault.left
    else
      && result == Ok(action) && after.Some?
      && EndsWith(after.value, TrimSpace(info.line) + "\n")
      && (GoodInfo(info) ==> HasLastLine(after.value, TrimSpace(info.line)))
      && (GoodInfo(info) && r.replace ==> HostStoredOnce(e, after, info))
      && (!r.replace && PlainText(text) ==> after.value == text + TrimSpace(info.line) + "\n")
  }

  ghost predicate EndsWith(text: string, tail: string) {
    |tail| <= |text| && text[|text| - |tail|..] == tail
  }

  ghost predicate HasLastLine(text: string, line: string) {
    && ScanLines(text).Ok? && ScanLines(text).value != []
    && ScanLines(text).value[|ScanLines(text).value| - 1] == line
  }

  lemma UpsertedEnd(e: Env, text: string, s: Store)
    requires ScanLines(text).Ok?
    ensures Upserted(e, text, s).Ok? && EndsWith(Upserted(e, text, s).value, TrimSpace(s.info.line) + "\n")
  {
    hide TrimSpace, ScanLines, Kept;
    var kept, line := Kept(e, ScanLines(text).value, s), TrimSpace(s.info.line);
    WrittenIsUnlines(kept + [line]);
    UnlinesAppend(kept, [line]);
    UnlinesOne(line);
  }

  lemma UpsertedLast(e: Env, file: Option<string>, s: Store)
    requires Scannable(file) && GoodInfo(s.info)
    ensures Upserted(e, Contents(file), s).Ok?
    ensures HasLastLine(Upserted(e, Contents(file), s).value, TrimSpace(s.info.line))
  {
    hide Scannable, FileLines, GoodInfo, TrimSpace, Kept, Upserted;
    UpsertLines(e, file, s);
    ScannedFile(Some(Upserted(e, Contents(file), s).value));
  }

  lemma StoreHasOutcome(e: Env, file: Option<string>, r: Request, action: Action)
    requires r.info.Some?
    ensures
      var (after, ok) := UpsertFile(e, file, StoreFor(r), r.fault);
      StoreOutcome(e, file, r, after, if ok then Ok(action) else Err, action)
  {
    hide TrimSpace, ScanLines, GoodInfo, PlainText, HasLastLine, EndsWith, HostStoredOnce, Upserted;
    var s, text := StoreFor(r), Contents(file);
    ScanDecides(e, text, s);
    if ScanLines(text).Ok? {
      UpsertedEnd(e, text, s);
      if GoodInfo(s.info) {
        UpsertedLast(e, file, s);
        if s.replace {
          ReplacedHostIsGone(e, file, s);
        }
      }
      if !s.replace {
        AddOnlyAppends(e, text, s);
      }
    }
  }

  lemma ScanDecides(e: Env, text: string, s: Store)
    ensures Upserted(e, text, s).Ok? <==> ScanLines(text).Ok?
  {
  }

  /** The operation does what it promises, in every state and under every failure. */
  lemma TrustHasOutcome(e: Env, o: Options, file: Option<string>, r: Request)
    ensures TrustOutcome(e, o, file, r, Trust(e, o, file, r).0, Trust(e, o, file, r).1)
  {
    hide StoreOutcome, UpsertFile;
    if r.info.Some? {
      StoreHasOutcome(e, file, r, Added);
      StoreHasOutcome(e, file, r, Replaced);
    }
  }

  // ----- runs of trust operations

  ghost predicate GoodRequest(r: Request) {
    r.info.Some? ==> GoodInfo(r.info.value)
  }

  function Run(e: Env, o: Options, file: Option<string>, rs: seq<Request>): Option<string>
    decreases |rs|
  {
    if |rs| == 0 then file else Run(e, o, Trust(e, o, file, rs[0]).0, rs[1..])
  }

  /** The file to which a run's stores apply, and those stores. */
  datatype History = History(base: Option<string>, stores: seq<Store>)

  /** The request gets as far as writing the file, and the write fails. */
  predicate WriteFails(e: Env, o: Options, file: Option<string>, r: Request) {
    Stores(e, o, file, r) && r.fault.CannotWrite? && Upserted(e, Contents(file), StoreFor(r)).Ok?
  }

  /** A failing write starts afresh from whatever it left; a store adds to the history. */
  function Extend(e: Env, o: Options, h: History, file: Option<string>, r: Request): History {
    if WriteFails(e, o, file, r) then History(r.fault.left, [])
    else if Stores(e, o, file, r) && Trust(e, o, file, r).1.Ok? then History(h.base, h.stores + [StoreFor(r)])
    else h
  }

  function HistoryFrom(e: Env, o: Options, h: History, file: Option<string>, rs: seq<Request>): History
    decreases |rs|
  {
    if |rs| == 0 then h
    else HistoryFrom(e, o, Extend(e, o, h, file, rs[0]), Trust(e, o, file, rs[0]).0, rs[1..])
  }

  /** What a run on a file amounts to. */
  function HistoryOf(e: Env, o: Options, file: Option<string>, rs: seq<Request>): History {
    HistoryFrom(e, o, History(file, []), file, rs)
  }

  /** The file is what its history says. */
  ghost predicate Explains(e: Env, h: History, file: Option<string>) {
    if Scannable(h.base) then Scannable(file) && FileLines(file) == Apply(e, FileLines(h.base), h.stores)
    else file == h.base && |h.stores| == 0
  }

  lemma {:induction false} ApplySnoc(e: Env, lines: seq<string>, stores: seq<Store>, s: Store)
    ensures Apply(e, lines, stores + [s])
         == DropCRs(Kept(e, Apply(e, lines, stores), s)) + [TrimSpace(s.info.line)]
    decreases |stores|
  {
    hide TrimSpace, DropCRs, Kept;
    if |stores| == 0 {
      assert (stores + [s])[1..] == [] && (stores + [s])[0] == s;
    } else {
      assert (stores + [s])[1..] == stores[1..] + [s] && (stores + [s])[0] == stores[0];
      ApplySnoc(e, DropCRs(Kept(e, lines, stores[0])) + [TrimSpace(stores[0].info.line)], stores[1..], s);
    }
  }

  lemma StepExplains(e: Env, o: Options, h: History, file: Option<string>, r: Request)
    requires Explains(e, h, file) && GoodRequest(r)
    ensures Explains(e, Extend(e, o, h, file, r), Trust(e, o, file, r).0)
  {
    hide ScanLines, UpdatedLines, GoodInfo, Apply, Written, FileLines;
    if WriteFails(e, o, file, r) {
      FreshExplains(e, r.fault.left);
    } else if Stores(e, o, file, r) && Trust(e, o, file, r).1.Ok? {
      UpsertLines(e, file, StoreFor(r));
      ApplySnoc(e, FileLines(h.base), h.stores, StoreFor(r));
    }
  }

  lemma FreshExplains(e: Env, file: Option<string>)
    ensures Explains(e, History(file, []), file)
  {
  }

  lemma {:induction false} RunExplains(e: Env, o: Options, h: History, file: Option<string>, rs: seq<Request>)
    requires Explains(e, h, file) && forall k :: 0 <= k < |rs| ==> GoodRequest(rs[k])
    ensures Explains(e, HistoryFrom(e, o, h, file, rs), Run(e, o, file, rs))
    decreases |rs|
  {
    hide Explains, Extend, Trust, GoodRequest;
    if |rs| > 0 {
      StepExplains(e, o, h, file, rs[0]);
      RunExplains(e, o, Extend(e, o, h, file, rs[0]), Trust(e, o, file, rs[0]).0, rs[1..]);
    }
  }

  /**
   After any run of trust operations on any file, whatever failed on the way: take the
   file a failing write last left, or else the original one, and the keys stored since.
   The lines are exactly the lines of that file no later replacement dropped, in their old
   order, less a carriage return for every update, followed by the stored keys no later
   replacement dropped. A file the scanner cannot read is never touched.
   */
  lemma RunKeepsLines(e: Env, o: Options, file: Option<string>, rs: seq<Request>)
    requires forall k :: 0 <= k < |rs| ==> GoodRequest(rs[k])
    ensures
      var h := HistoryOf(e, o, file, rs);
      if Scannable(h.base) then
        && Scannable(Run(e, o, file, rs))
        && FileLines(Run(e, o, file, rs))
             == Rescanned(Survivors(e, FileLines(h.base), h.stores), |h.stores|) + StoredLines(e, h.stores)
      else Run(e, o, file, rs) == h.base && |h.stores| == 0
  {
    hide Survivors, StoredLines, Apply, HistoryFrom, Run, FileLines, Scannable, Rescanned;
    var h := HistoryOf(e, o, file, rs);
    FreshExplains(e, file);
    RunExplains(e, o, History(file, []), file, rs);
    ApplyIsSurvivors(e, FileLines(h.base), h.stores);
  }

  lemma {:induction false} NoFailureKeepsBase(e: Env, o: Options, h: History, file: Option<string>, rs: seq<Request>)
    requires forall k :: 0 <= k < |rs| ==> !rs[k].fault.CannotWrite?
    ensures HistoryFrom(e, o, h, file, rs).base == h.base
    decreases |rs|
  {
    hide Trust;
    if |rs| > 0 {
      NoFailureKeepsBase(e, o, Extend(e, o, h, file, rs[0]), Trust(e, o, file, rs[0]).0, rs[1..]);
    }
  }

  /** Unless a write fails, a run is explained by the file it started from. */
  lemma BaseIsOriginal(e: Env, o: Options, file: Option<string>, rs: seq<Request>)
    requires forall k :: 0 <= k < |rs| ==> !rs[k].fault.CannotWrite?
    ensures HistoryOf(e, o, file, rs).base == file
  {
    NoFailureKeepsBase(e, o, History(file, []), file, rs);
  }

  ghost predicate NoneReplaces(stores: seq<Store>) {
    forall j :: 0 <= j < |stores| ==> !stores[j].replace
  }

  lemma {:induction false} NoReplaceInHistory(e: Env, o: Options, h: History, file: Option<string>, rs: seq<Request>)
    requires forall k :: 0 <= k < |rs| ==> !rs[k].replace
    requires NoneReplaces(h.stores)
    ensures NoneReplaces(HistoryFrom(e, o, h, file, rs).stores)
    decreases |rs|
  {
    hide Trust;
    if |rs| > 0 {
      NoReplaceInHistory(e, o, Extend(e, o, h, file, rs[0]), Trust(e, o, file, rs[0]).0, rs[1..]);
    }
  }

  lemma {:induction false} UntouchedSurvive(e: Env, lines: seq<string>, stores: seq<Store>)
    requires NoneReplaces(stores)
    ensures Survivors(e, lines, stores) == lines
  {
    if lines != [] {
      UntouchedSurvive(e, lines[1..], stores);
    }
  }

  /**
   If no request asks to replace, every line of the base file stays where it was, less a
   carriage return for every update.
   */
  lemma WithoutReplaceOnlyGrows(e: Env, o: Options, file: Option<string>, rs: seq<Request>)
    requires forall k :: 0 <= k < |rs| ==> GoodRequest(rs[k]) && !rs[k].replace
    ensures
      var h := HistoryOf(e, o, file, rs);
      Rescanned(FileLines(h.base), |h.stores|) <= FileLines(Run(e, o, file, rs))
  {
    hide Survivors, StoredLines, HistoryFrom, Run, FileLines, Scannable;
    var h := HistoryOf(e, o, file, rs);
    RunKeepsLines(e, o, file, rs);
    NoReplaceInHistory(e, o, History(file, []), file, rs);
    UntouchedSurvive(e, FileLines(h.base), h.stores);
  }

  /** A comment, a blank line, a line that does not parse, or one no stored host or fresh hash matches. */
  predicate Inert(e: Env, line: string, stores: seq<Store>) {
    || IsComment(line)
    || e.parse(TrimSpace(line)).None?
    || forall k :: 0 <= k < |stores| ==>
         !LineMatches(e, line, stores[k].info.host, stores[k].info.port, stores[k].salts(TrimSpace(line)))
  }

  function InertLines(e: Env, lines: seq<string>, stores: seq<Store>): seq<string> {
    if lines == [] then []
    else (if Inert(e, lines[0], stores) then [lines[0]] else []) + InertLines(e, lines[1..], stores)
  }

  lemma {:induction false} InertSurvive(e: Env, lines: seq<string>, stores: seq<Store>)
    ensures InertLines(e, Survivors(e, lines, stores), stores) == InertLines(e, lines, stores)
  {
    hide Inert, AnyDrops;
    if lines != [] {
      InertSurvive(e, lines[1..], stores);
      InertIsNotDropped(e, lines[0], stores);
      var rest := Survivors(e, lines[1..], stores);
      assert ([lines[0]] + rest)[1..] == rest && [] + rest == rest;
    }
  }

  lemma InertIsNotDropped(e: Env, line: string, stores: seq<Store>)
    ensures Inert(e, line, stores) ==> !AnyDrops(e, stores, line)
  {
    hide TrimSpace, Names, Address;
  }

  lemma {:induction false} InertAppend(e: Env, xs: seq<string>, ys: seq<string>, stores: seq<Store>)
    ensures InertLines(e, xs + ys, stores) == InertLines(e, xs, stores) + InertLines(e, ys, stores)
  {
    hide Inert;
    if xs == [] {
      assert xs + ys == ys;
    } else {
      assert (xs + ys)[1..] == xs[1..] + ys;
      InertAppend(e, xs[1..], ys, stores);
      ConcatAssoc(if Inert(e, xs[0], stores) then [xs[0]] else [], InertLines(e, xs[1..], stores),
                  InertLines(e, ys, stores));
    }
  }

  lemma InertDropCR(e: Env, line: string, stores: seq<Store>)
    ensures Inert(e, DropCR(line), stores) <==> Inert(e, line, stores)
  {
    hide TrimSpace, DropCR, Names, Address;
    DropCRTrims(line);
  }

  lemma {:induction false} InertDropCRs(e: Env, lines: seq<string>, stores: seq<Store>)
    ensures InertLines(e, DropCRs(lines), stores) == DropCRs(InertLines(e, lines, stores))
  {
    hide Inert, DropCR;
    if lines != [] {
      assert DropCRs(lines)[1..] == DropCRs(lines[1..]);
      InertDropCRs(e, lines[1..], stores);
      InertDropCR(e, lines[0], stores);
    }
  }

  lemma {:induction false} InertRescanned(e: Env, lines: seq<string>, stores: seq<Store>, n: nat)
    ensures InertLines(e, Rescanned(lines, n), stores) == Rescanned(InertLines(e, lines, stores), n)
    decreases n
  {
    hide InertLines, DropCRs;
    if n > 0 {
      InertRescanned(e, DropCRs(lines), stores, n - 1);
      InertDropCRs(e, lines, stores);
    }
  }

  /**
   Whatever is replaced during a run, the comments, blank lines, unparseable lines and
   lines about other hosts of the base file are all still there, in the same order, less a
   carriage return for every update, ahead of anything stored since.
   */
  lemma InertLinesSurviveRun(e: Env, o: Options, file: Option<string>, rs: seq<Request>)
    requires forall k :: 0 <= k < |rs| ==> GoodRequest(rs[k])
    ensures
      var h := HistoryOf(e, o, file, rs);
      InertLines(e, FileLines(Run(e, o, file, rs)), h.stores)
        == Rescanned(InertLines(e, FileLines(h.base), h.stores), |h.stores|)
           + InertLines(e, StoredLines(e, h.stores), h.stores)
  {
    hide HistoryOf, Run, Survivors, Scannable, FileLines, Inert, Rescanned;
    var h := HistoryOf(e, o, file, rs);
    RunKeepsLines(e, o, file, rs);
    if Scannable(h.base) {
      hide InertLines, StoredLines;
      var left := Survivors(e, FileLines(h.base), h.stores);
      InertAppend(e, Rescanned(left, |h.stores|), StoredLines(e, h.stores), h.stores);
      InertRescanned(e, left, h.stores, |h.stores|);
      InertSurvive(e, FileLines(h.base), h.stores);
    } else {
      NoLines(h.base);
      RescannedSame([], |h.stores|);
    }
  }

  lemma NoLines(file: Option<string>)
    requires !Scannable(file)
    ensures FileLines(file) == []
  {
  }

  lemma {:induction false} StoredLast(e: Env, stores: seq<Store>)
    requires |stores| > 0
    ensures StoredLines(e, stores) != []
    ensures StoredLines(e, stores)[|StoredLines(e, stores)| - 1] == TrimSpace(stores[|stores| - 1].info.line)
    decreases |stores|
  {
    hide TrimSpace;
    if |stores| == 1 {
      NothingDropped(e, [TrimSpace(stores[0].info.line)]);
      assert stores[1..] == [] && StoredLines(e, stores[1..]) == [];
    } else {
      StoredLast(e, stores[1..]);
    }
  }

  /** The key stored last in a run is the last line of the file. */
  lemma LastStoredIsLastLine(e: Env, o: Options, file: Option<string>, rs: seq<Request>)
    requires forall k :: 0 <= k < |rs| ==> GoodRequest(rs[k])
    requires |HistoryOf(e, o, file, rs).stores| > 0
    ensures
      var lines, stores := FileLines(Run(e, o, file, rs)), HistoryOf(e, o, file, rs).stores;
      lines != [] && lines[|lines| - 1] == TrimSpace(stores[|stores| - 1].info.line)
  {
    hide FileLines, Survivors, StoredLines, HistoryOf, Run, TrimSpace, Scannable, Rescanned;
    RunKeepsLines(e, o, file, rs);
    StoredLast(e, HistoryOf(e, o, file, rs).stores);
  }
}
