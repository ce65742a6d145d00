/**
 A generative grammar for the commands the checker means to allow, and the proof that
 the checker accepts exactly the commands the grammar generates.
 */
module CommandGrammar {
  import opened Text
  import opened CommandSafety

  /** A character a device may take as the end of a command. */
  predicate SeparatesCommands(c: char) {
    var n := c as int;
    n < 0x20 || 0x7F <= n < 0xA0 || n == 0x2028 || n == 0x2029 || c == ';'
  }

  /** Text that no device takes for several commands or for redirection. */
  predicate OneLine(s: string) {
    forall i :: 0 <= i < |s| ==> !SeparatesCommands(s[i]) && s[i] != '<' && s[i] != '>'
  }

  lemma CleanIsOneLine(s: string)
    ensures Clean(s) <==> OneLine(s)
  {
    assert forall c :: CleanChar(c) <==> !SeparatesCommands(c) && c != '<' && c != '>';
  }

  /** Filter by filter, the platforms that allow it. */
  function PlatformsOf(filter: string): set<DeviceType> {
    if filter in {"include", "exclude", "begin", "section"} then {EOS, IOS, NXOS}
    else if filter == "json" then {EOS, NXOS}
    else if filter == "no-more" then {EOS, NXOS, JunOS}
    else if filter == "count" then {IOS, NXOS, JunOS}
    else if filter == "last" then {NXOS, JunOS}
    else if filter == "grep" then {NXOS, FortiOS}
    else if filter in {"json-pretty", "xml", "egrep", "head"} then {NXOS}
    else if filter in {"display", "match", "except", "find", "trim"} then {JunOS}
    else {}
  }

  /** An unspecified platform is one of EOS or IOS. */
  predicate FilterAllowed(filter: string, dt: DeviceType) {
    if dt == Unspecified then EOS in PlatformsOf(filter) || IOS in PlatformsOf(filter)
    else dt in PlatformsOf(filter)
  }

  /** One piece of a pipeline: spaces, its first word, and whatever follows that word. */
  datatype Stage = Stage(lead: string, word: string, rest: string) {
    function Text(): string {
      lead + word + rest
    }

    predicate WellFormed() {
      && AllSpace(lead) && IsWord(word) && (rest == "" || IsSpace(rest[0]))
      && OneLine(Text()) && '|' !in Text()
    }
  }

  datatype Pipeline = Pipeline(head: Stage, filters: seq<Stage>) {
    function Stages(): seq<Stage> {
      [head] + filters
    }

    /** The command as typed. */
    function Text(): string {
      Join(Texts(Stages()), '|')
    }
  }

  function Texts(stages: seq<Stage>): (texts: seq<string>)
    ensures |texts| == |stages|
    ensures forall k :: 0 <= k < |stages| ==> texts[k] == stages[k].Text()
  {
    seq(|stages|, k requires 0 <= k < |stages| => stages[k].Text())
  }

  /** Spaces, one word that lower-cases to an allowed format, and spaces again. */
  ghost predicate IsDisplayFormat(rest: string) {
    exists lead, format, tail ::
      && rest == lead + format + tail && AllSpace(lead) && IsWord(format) && AllSpace(tail)
      && ToLower(format) in {"json", "xml", "set"}
  }

  ghost predicate AllowedFilter(stage: Stage, dt: DeviceType) {
    && stage.WellFormed()
    && FilterAllowed(ToLower(stage.word), dt)
    && (dt == JunOS && ToLower(stage.word) == "display" ==> IsDisplayFormat(stage.rest))
  }

  ghost predicate Derives(p: Pipeline, verb: string, dt: DeviceType) {
    && p.head.WellFormed() && EqualFold(p.head.word, verb)
    && forall k :: 0 <= k < |p.filters| ==> AllowedFilter(p.filters[k], dt)
  }

  // ----- lower-casing does not move words

  lemma LowerKeepsSpace(c: char)
    ensures IsSpace(Lower(c)) <==> IsSpace(c)
  {
  }

  lemma {:induction false} LowerConcat(a: string, b: string)
    ensures ToLower(a + b) == ToLower(a) + ToLower(b)
  {
  }

  lemma LowerWord(w: string)
    ensures SpaceFree(ToLower(w)) <==> SpaceFree(w)
    ensures AllSpace(ToLower(w)) <==> AllSpace(w)
  {
    forall i | 0 <= i < |w|
      ensures IsSpace(ToLower(w)[i]) <==> IsSpace(w[i])
    {
      LowerKeepsSpace(w[i]);
    }
  }

  /** The fields of a string around its first word. */
  lemma FieldsAround(lead: string, w: string, rest: string)
    requires AllSpace(lead) && IsWord(w) && (rest == "" || IsSpace(rest[0]))
    ensures Fields(lead + w + rest) == [w] + Fields(rest)
  {
    assert lead + w + rest == lead + (w + rest);
    FieldsAfterSpaces(lead, w + rest);
    FieldsWordFirst(w, rest);
  }

  lemma LowerFieldsAround(lead: string, w: string, rest: string)
    requires AllSpace(lead) && IsWord(w) && (rest == "" || IsSpace(rest[0]))
    ensures Fields(ToLower(lead + w + rest)) == [ToLower(w)] + Fields(ToLower(rest))
  {
    LowerConcat(lead + w, rest);
    LowerConcat(lead, w);
    LowerWord(lead);
    LowerWord(w);
    if rest != "" {
      LowerKeepsSpace(rest[0]);
    }
    FieldsAround(ToLower(lead), ToLower(w), ToLower(rest));
  }

  lemma {:induction false} LowerFieldCount(s: string)
    ensures |Fields(ToLower(s))| == |Fields(s)|
    decreases |s|
  {
    if Fields(s) == [] {
      NoFieldsAllSpace(s);
      LowerWord(s);
      FieldsOfSpaces(ToLower(s));
    } else {
      var lead, rest := FieldsDecompose(s);
      LowerFieldsAround(lead, Fields(s)[0], rest);
      LowerFieldCount(rest);
    }
  }

  lemma {:induction false} NoFieldsAllSpace(s: string)
    requires Fields(s) == []
    ensures AllSpace(s)
  {
    if s != "" {
      assert IsSpace(s[0]);
      NoFieldsAllSpace(s[1..]);
      assert s == [s[0]] + s[1..];
    }
  }

  // ----- the argument of "display"

  lemma DisplayFormatFields(rest: string)
    ensures IsDisplayFormat(rest) <==>
      |Fields(ToLower(rest))| == 1 && Fields(ToLower(rest))[0] in JUNOS_DISPLAY_FORMATS
  {
    LowerFieldCount(rest);
    if IsDisplayFormat(rest) {
      var lead, format, tail :|
        && rest == lead + format + tail && AllSpace(lead) && IsWord(format) && AllSpace(tail)
        && ToLower(format) in {"json", "xml", "set"};
      LowerFieldsAround(lead, format, tail);
      LowerWord(tail);
      FieldsOfSpaces(ToLower(tail));
    }
    if |Fields(ToLower(rest))| == 1 && Fields(ToLower(rest))[0] in JUNOS_DISPLAY_FORMATS {
      var lead, tail := FieldsDecompose(rest);
      var format := Fields(rest)[0];
      LowerFieldsAround(lead, format, tail);
      assert Fields(tail) == [] by {
        assert Fields(rest) == [format] + Fields(tail);
      }
      NoFieldsAllSpace(tail);
      assert ToLower(format) in JUNOS_DISPLAY_FORMATS;
    }
  }

  // ----- one segment

  /** A clean segment passes the filter check exactly when it reads as an allowed filter. */
  lemma SegmentIsFilter(segment: string, dt: DeviceType)
    requires Clean(segment) && '|' !in segment
    ensures CheckSegment(segment, dt) <==> exists stage: Stage :: stage.Text() == segment && AllowedFilter(stage, dt)
  {
    LowerFieldCount(segment);
    if CheckSegment(segment, dt) {
      var lead, rest := FieldsDecompose(segment);
      var stage := Stage(lead, Fields(segment)[0], rest);
      FilterStage(stage, dt);
      assert stage.Text() == segment && AllowedFilter(stage, dt);
    }
    if stage: Stage :| stage.Text() == segment && AllowedFilter(stage, dt) {
      FilterStage(stage, dt);
    }
  }

  lemma FilterStage(stage: Stage, dt: DeviceType)
    requires stage.WellFormed()
    ensures CheckSegment(stage.Text(), dt) <==> AllowedFilter(stage, dt)
  {
    hide PipesFor, FilterAllowed, IsDisplayFormat, OneLine, IsWord, AllSpace, Fields, ToLower;
    PipesAreAllowed(ToLower(stage.word), dt);
    LowerFieldsAround(stage.lead, stage.word, stage.rest);
    DisplayFormatFields(stage.rest);
    var fields := Fields(ToLower(stage.Text()));
    assert fields[0] == ToLower(stage.word);
    assert |fields| == 2 ==> fields[1] == Fields(ToLower(stage.rest))[0];
  }

  lemma SegmentIsHead(segment: string, verb: string)
    requires Clean(segment) && '|' !in segment
    ensures CheckVerb(segment, verb) <==>
      exists stage: Stage :: stage.Text() == segment && stage.WellFormed() && EqualFold(stage.word, verb)
  {
    if CheckVerb(segment, verb) {
      var lead, rest := FieldsDecompose(segment);
      var stage := Stage(lead, Fields(segment)[0], rest);
      assert stage.Text() == segment && stage.WellFormed() && EqualFold(stage.word, verb);
    }
    if stage: Stage :| stage.Text() == segment && stage.WellFormed() && EqualFold(stage.word, verb) {
      FieldsAround(stage.lead, stage.word, stage.rest);
    }
  }

  // ----- whole commands

  ghost predicate AllClean(parts: seq<string>) {
    forall k :: 0 <= k < |parts| ==> Clean(parts[k])
  }

  lemma CleanCons(c: char, s: string)
    ensures Clean([c] + s) <==> CleanChar(c) && Clean(s)
  {
    assert ([c] + s)[0] == c;
    assert forall i :: 0 <= i < |s| ==> ([c] + s)[i + 1] == s[i];
  }

  lemma AllCleanCons(part: string, parts: seq<string>)
    ensures AllClean([part] + parts) <==> Clean(part) && AllClean(parts)
  {
    assert ([part] + parts)[0] == part;
    assert forall k :: 0 <= k < |parts| ==> ([part] + parts)[k + 1] == parts[k];
  }

  lemma {:induction false} CleanPieces(s: string, sep: char)
    requires CleanChar(sep)
    ensures Clean(s) <==> AllClean(Split(s, sep))
  {
    if s != "" {
      var rest := Split(s[1..], sep);
      CleanPieces(s[1..], sep);
      assert s == [s[0]] + s[1..];
      CleanCons(s[0], s[1..]);
      AllCleanCons("", rest);
      CleanCons(s[0], rest[0]);
      AllCleanCons([s[0]] + rest[0], rest[1..]);
      assert rest == [rest[0]] + rest[1..];
      AllCleanCons(rest[0], rest[1..]);
    }
  }

  lemma DerivedIsAccepted(p: Pipeline, verb: string, dt: DeviceType)
    requires Derives(p, verb, dt)
    ensures CheckOperationalCommand(p.Text(), verb, dt)
    ensures Split(p.Text(), '|') == Texts(p.Stages())
  {
    var texts := Texts(p.Stages());
    forall k | 0 <= k < |texts|
      ensures '|' !in texts[k] && Clean(texts[k])
      ensures k == 0 ==> CheckVerb(texts[k], verb)
      ensures k > 0 ==> CheckSegment(texts[k], dt)
    {
      var stage := p.Stages()[k];
      if k == 0 {
        SegmentIsHead(texts[k], verb);
      } else {
        assert stage == p.filters[k - 1];
        FilterStage(stage, dt);
      }
    }
    SplitJoin(texts, '|');
    CleanPieces(p.Text(), '|');
  }

  lemma AcceptedIsDerived(command: string, verb: string, dt: DeviceType) returns (p: Pipeline)
    requires CheckOperationalCommand(command, verb, dt)
    ensures Derives(p, verb, dt) && p.Text() == command
  {
    hide AllowedFilter, CheckSegment, CheckVerb, Clean;
    var segments := Split(command, '|');
    CleanPieces(command, '|');
    assert Clean(segments[0]);
    SegmentIsHead(segments[0], verb);
    var head: Stage :| head.Text() == segments[0] && head.WellFormed() && EqualFold(head.word, verb);
    var filters := FiltersOf(segments[1..], dt);
    p := Pipeline(head, filters);
    assert Texts(p.Stages()) == segments;
    JoinSplit(command, '|');
  }

  lemma {:induction false} FiltersOf(segments: seq<string>, dt: DeviceType) returns (filters: seq<Stage>)
    requires forall k :: 0 <= k < |segments| ==>
      Clean(segments[k]) && '|' !in segments[k] && CheckSegment(segments[k], dt)
    ensures |filters| == |segments|
    ensures forall k :: 0 <= k < |segments| ==>
      filters[k].Text() == segments[k] && AllowedFilter(filters[k], dt)
  {
    hide AllowedFilter, CheckSegment, Clean;
    filters := [];
    if segments != [] {
      SegmentIsFilter(segments[0], dt);
      var stage: Stage :| stage.Text() == segments[0] && AllowedFilter(stage, dt);
      filters := FiltersOf(segments[1..], dt);
      filters := [stage] + filters;
    }
  }

  /** Sound and complete: the checker accepts a command iff the grammar generates it. */
  lemma AcceptsIffDerives(command: string, verb: string, dt: DeviceType)
    ensures CheckOperationalCommand(command, verb, dt) <==>
      exists p: Pipeline :: Derives(p, verb, dt) && p.Text() == command
  {
    if CheckOperationalCommand(command, verb, dt) {
      var p := AcceptedIsDerived(command, verb, dt);
    }
    if p: Pipeline :| Derives(p, verb, dt) && p.Text() == command {
      DerivedIsAccepted(p, verb, dt);
    }
  }

  /** However a device separates commands, an accepted command reaches it as one command. */
  lemma OneCommand(command: string, verb: string, dt: DeviceType, sep: char)
    requires CheckOperationalCommand(command, verb, dt) && SeparatesCommands(sep)
    ensures Split(command, sep) == [command]
  {
    SplitWithout(command, sep);
  }

  /** Filters that write files, send messages or run other commands. */
  const WRITING_FILTERS := ["save", "redirect", "tee", "append", "request"]

  /** No stage of an accepted command, whatever its letter case, is a filter that writes. */
  lemma NoWritingFilter(command: string, verb: string, dt: DeviceType, k: nat)
    requires verb == "show" || verb == "get"
    requires CheckOperationalCommand(command, verb, dt) && k < |Split(command, '|')|
    ensures Fields(ToLower(Split(command, '|')[k])) != []
    ensures Fields(ToLower(Split(command, '|')[k]))[0] !in WRITING_FILTERS
  {
    hide CheckSegment, CheckVerb, Fields, ToLower, EqualFold;
    var segment := Split(command, '|')[k];
    if k == 0 {
      VerbIsNoWritingFilter(segment, verb);
    } else {
      SegmentIsNoWritingFilter(segment, dt);
    }
  }

  lemma SegmentIsNoWritingFilter(segment: string, dt: DeviceType)
    requires CheckSegment(segment, dt)
    ensures Fields(ToLower(segment)) != [] && Fields(ToLower(segment))[0] !in WRITING_FILTERS
  {
    hide PipesFor, ToLower, Fields;
    WritingFiltersAbsent(dt);
  }

  lemma VerbIsNoWritingFilter(segment: string, verb: string)
    requires verb == "show" || verb == "get"
    requires CheckVerb(segment, verb)
    ensures Fields(ToLower(segment)) != [] && Fields(ToLower(segment))[0] !in WRITING_FILTERS
  {
    hide ToLower, Fields, EqualFold;
    var lead, rest := FieldsDecompose(segment);
    var w := Fields(segment)[0];
    LowerFieldsAround(lead, w, rest);
    VerbStart(w, verb);
    if ToLower(w) in WRITING_FILTERS {
      WritingStart(ToLower(w));
    }
  }

  lemma VerbStart(w: string, verb: string)
    requires (verb == "show" || verb == "get") && EqualFold(w, verb)
    ensures !StartsLikeWriting(ToLower(w))
  {
    assert Fold(w[0]) == verb[0] && Fold(w[1]) == verb[1];
    assert ToLower(w)[..2] == [Lower(w[0]), Lower(w[1])];
  }

  /** How a writing filter starts, and no allowed filter does. */
  predicate StartsLikeWriting(w: string) {
    |w| >= 2 && (w[..2] == "sa" || w[..2] == "re" || w[..2] == "te" || w[..2] == "ap")
  }

  lemma WritingStart(w: string)
    requires w in WRITING_FILTERS
    ensures StartsLikeWriting(w)
  {
    var k :| 0 <= k < |WRITING_FILTERS| && WRITING_FILTERS[k] == w;
    assert w[..2] == [w[0], w[1]];
  }

  lemma WritingFiltersAbsent(dt: DeviceType)
    ensures forall w :: w in WRITING_FILTERS ==> w !in PipesFor(dt)
  {
    hide PipesFor, StartsLikeWriting;
    forall w | w in WRITING_FILTERS
      ensures w !in PipesFor(dt)
    {
      WritingStart(w);
      NoPipeStartsLikeWriting(w, dt);
    }
  }

  lemma NoPipeStartsLikeWriting(w: string, dt: DeviceType)
    requires StartsLikeWriting(w)
    ensures w !in PipesFor(dt)
  {
    assert w[0] == w[..2][0] && w[1] == w[..2][1];
  }

  /** The platforms' lists are the table read by filter. */
  lemma PipesAreAllowed(w: string, dt: DeviceType)
    ensures w in PipesFor(dt) <==> FilterAllowed(w, dt)
  {
  }

  /** The table of filters: NX-OS has the IOS ones and more, an unspecified one those of EOS and IOS. */
  lemma PipeTable(w: string, dt: DeviceType)
    ensures dt == NXOS ==> (w in PipesFor(dt) <==> w in PipesFor(IOS) || w in NXOS_EXTRA_PIPES)
    ensures dt == Unspecified ==> (w in PipesFor(dt) <==> w in PipesFor(EOS) || w in PipesFor(IOS))
  {
  }

  const NXOS_EXTRA_PIPES := ["json", "json-pretty", "xml", "no-more", "grep", "egrep", "last", "head"]

  // ----- adding a filter

  lemma CleanJoined(a: string, b: string)
    ensures Clean(a + "|" + b) <==> Clean(a) && Clean(b)
  {
    var whole := a + "|" + b;
    assert forall i :: 0 <= i < |a| ==> whole[i] == a[i];
    assert forall i :: 0 <= i < |b| ==> whole[|a| + 1 + i] == b[i];
  }

  /** Appending a filter to a command is allowed iff the command is and the filter is. */
  lemma AppendFilter(command: string, segment: string, verb: string, dt: DeviceType)
    requires '|' !in segment
    ensures CheckOperationalCommand(command + "|" + segment, verb, dt) <==>
      CheckOperationalCommand(command, verb, dt) && Clean(segment) && CheckSegment(segment, dt)
  {
    hide CheckSegment, CheckVerb, Clean;
    var whole := command + "|" + segment;
    var segments := Split(command, '|');
    assert whole == command + ['|'] + segment;
    SplitAppend(command, segment, '|');
    SplitWithout(segment, '|');
    assert Split(whole, '|') == segments + [segment];
    assert forall k :: 0 <= k < |segments| ==> Split(whole, '|')[k] == segments[k];
    assert Split(whole, '|')[|segments|] == segment;
    CleanJoined(command, segment);
  }

  lemma PipesIncluded(dt: DeviceType, w: string)
    requires dt == EOS || dt == IOS || dt == Unspecified
    requires w in PipesFor(dt)
    ensures w in PipesFor(NXOS) && w in PipesFor(Unspecified)
  {
    var k :| 0 <= k < |PipesFor(dt)| && PipesFor(dt)[k] == w;
    assert EOS_PIPES[0] == NXOS_PIPES[0] && EOS_PIPES[1] == NXOS_PIPES[3] && EOS_PIPES[2] == NXOS_PIPES[4];
    assert EOS_PIPES[3] == NXOS_PIPES[5] && EOS_PIPES[4] == NXOS_PIPES[6] && EOS_PIPES[5] == NXOS_PIPES[7];
    assert IOS_PIPES[0] == NXOS_PIPES[4] && IOS_PIPES[1] == NXOS_PIPES[5] && IOS_PIPES[2] == NXOS_PIPES[6];
    assert IOS_PIPES[3] == NXOS_PIPES[7] && IOS_PIPES[4] == NXOS_PIPES[8];
  }

  lemma SegmentIncluded(segment: string, dt: DeviceType)
    requires dt == EOS || dt == IOS || dt == Unspecified
    requires CheckSegment(segment, dt)
    ensures CheckSegment(segment, NXOS) && CheckSegment(segment, Unspecified)
  {
    hide PipesFor;
    PipesIncluded(dt, Fields(ToLower(segment))[0]);
  }

  /**
   A command normalised for EOS, IOS or an unspecified platform is accepted unchanged for
   NX-OS and for an unspecified platform.
   */
  lemma NxosAcceptsMore(command: string, dt: DeviceType)
    requires dt == EOS || dt == IOS || dt == Unspecified
    requires Normalize(command, dt).Ok?
    ensures Normalize(command, NXOS) == Normalize(command, dt)
    ensures Normalize(command, Unspecified) == Normalize(command, dt)
  {
    hide CheckSegment, CheckVerb, Clean, HasPrefix, Split, TrimSpace, ToLower;
    var segments := Split(TrimSpace(command), '|');
    forall k | 1 <= k < |segments|
      ensures CheckSegment(segments[k], NXOS) && CheckSegment(segments[k], Unspecified)
    {
      SegmentIncluded(segments[k], dt);
    }
  }

  // ----- normalisation

  function VerbFor(dt: DeviceType): string {
    if dt == FortiOS then "get" else "show"
  }

  /** How a command starts that get_config is there for; FortiOS allows no "show" at all. */
  predicate ReadsConfig(lower: string, dt: DeviceType) {
    && dt != FortiOS
    && (HasPrefix(lower, "show ru") || HasPrefix(lower, "show sta")
        || (dt == JunOS && HasPrefix(lower, "show configuration")))
  }

  /** On every platform: acceptance is being generated by the grammar and not reading configuration. */
  lemma NormalizeAccepts(command: string, dt: DeviceType)
    ensures Normalize(command, dt).Ok? <==>
      && !ReadsConfig(ToLower(TrimSpace(command)), dt)
      && exists p: Pipeline :: Derives(p, VerbFor(dt), dt) && p.Text() == TrimSpace(command)
    ensures Normalize(command, dt).Ok? ==> Normalize(command, dt).value == TrimSpace(command)
  {
    hide CheckOperationalCommand, HasPrefix, TrimSpace, ToLower, Derives;
    AcceptsIffDerives(TrimSpace(command), VerbFor(dt), dt);
    FortiOSAcceptsExactlyGet(command);
  }

  lemma NormalizeTrimmed(command: string, dt: DeviceType)
    ensures Normalize(TrimSpace(command), dt) == Normalize(command, dt)
  {
    hide CheckOperationalCommand, HasPrefix, ToLower;
    TrimSpaceFixed(TrimSpace(command));
  }

  /** Normalising only trims, and a normalised command is left as it is. */
  lemma NormalizeIdempotent(command: string, dt: DeviceType) returns (pre: string, post: string)
    requires Normalize(command, dt).Ok?
    ensures
      var out := Normalize(command, dt).value;
      && command == pre + out + post && AllSpace(pre) && AllSpace(post) && Trimmed(out)
      && Normalize(out, dt) == Ok(out)
      && !ReadsConfig(ToLower(out), dt)
      && exists p: Pipeline :: Derives(p, VerbFor(dt), dt) && p.Text() == out
  {
    hide Normalize, ReadsConfig, Derives;
    NormalizeAccepts(command, dt);
    NormalizeTrimmed(command, dt);
    pre, post := TrimSpaceParts(command);
  }

  /** A trimmed command whose first stage starts with the verb starts with the verb itself. */
  lemma TrimmedStartsWithWord(command: string)
    requires Trimmed(command) && Fields(Split(command, '|')[0]) != []
    ensures
      var w := Fields(Split(command, '|')[0])[0];
      |w| <= |command| && command[..|w|] == w
  {
    var head := Split(command, '|')[0];
    HeadIsPrefix(command, '|');
    var lead, rest := FieldsDecompose(head);
    assert head[0] == command[..|head|][0] == command[0];
    assert head[..|Fields(head)[0]|] == Fields(head)[0];
  }

  lemma GetLowers(w: string)
    requires EqualFold(w, "get")
    ensures ToLower(w) == "get"
  {
  }

  /**
   On FortiOS the chain of prefix tests refuses nothing beyond the grammar: a command
   passes exactly when its trimmed form is a clean "get" pipeline.
   */
  lemma FortiOSAcceptsExactlyGet(command: string)
    ensures Normalize(command, FortiOS).Ok? <==> CheckOperationalCommand(TrimSpace(command), "get", FortiOS)
  {
    var trimmed := TrimSpace(command);
    if CheckOperationalCommand(trimmed, "get", FortiOS) {
      GetComesFirst(trimmed);
      GetPrefix(ToLower(trimmed));
    }
  }

  lemma GetComesFirst(command: string)
    requires Trimmed(command) && CheckVerb(Split(command, '|')[0], "get")
    ensures HasPrefix(ToLower(command), "get")
  {
    TrimmedStartsWithWord(command);
    var w := Fields(Split(command, '|')[0])[0];
    GetLowers(w);
    assert ToLower(command)[..3] == ToLower(w);
  }

  lemma GetPrefix(lower: string)
    requires HasPrefix(lower, "get")
    ensures !HasPrefix(lower, "show") && !HasPrefix(lower, "config")
    ensures !HasPrefix(lower, "execute") && !HasPrefix(lower, "diagnose")
    ensures !HasPrefix(lower, "show full-configuration")
    ensures !HasPrefix(lower, "execute ping") && !HasPrefix(lower, "execute traceroute")
  {
    assert lower[0] == lower[..3][0] == 'g';
    assert forall n :: 0 < n <= |lower| ==> lower[..n][0] == 'g';
  }

  lemma {:induction false} HeadIsPrefix(s: string, sep: char)
    ensures
      var head := Split(s, sep)[0];
      |head| <= |s| && s[..|head|] == head
  {
    if s != "" {
      HeadIsPrefix(s[1..], sep);
      if s[0] != sep {
        var head := Split(s, sep)[0];
        assert head == [s[0]] + Split(s[1..], sep)[0];
        assert s[..|head|] == [s[0]] + s[1..][..|head| - 1];
      }
    }
  }
}
