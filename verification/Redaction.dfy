/**
 What obfuscation computes, as functions on values: which captures of a line are kept,
 the line rewritten around their hulls, and the tokens that replace them.

 A line is a sequence of bytes, one `char` each. The regular-expression engine, case
 folding and HMAC-SHA256 are parameters, constrained only by their documented shapes.
 */
module Redaction {
  import opened Text
  import opened Spans

  type Byte = n: int | 0 <= n < 256

  type Bytes = seq<Byte>

  // ----- the parameters

  /** One match as FindAllStringSubmatchIndex reports it: index pairs, (-1, -1) for an absent group. */
  ghost predicate ValidMatch(m: seq<int>, len: nat) {
    forall g :: 2 <= g && g + 1 < |m| && g % 2 == 0 ==>
      (m[g] == -1 && m[g + 1] == -1) || 0 <= m[g] <= m[g + 1] <= len
  }

  ghost predicate FindsValidMatches(find: string -> seq<seq<int>>) {
    forall line, m :: m in find(line) ==> ValidMatch(m, |line|)
  }

  type Regexp = find: string -> seq<seq<int>> | FindsValidMatches(find) witness (line => [])

  datatype Pattern = Pattern(re: Regexp, skip: seq<string>)

  ghost predicate Is32Bytes(mac: (Bytes, string) -> Bytes) {
    forall key, msg :: |mac(key, msg)| == 32
  }

  type Mac = mac: (Bytes, string) -> Bytes | Is32Bytes(mac) witness ((key, msg) => seq(32, i => 0))

  datatype Engine = Engine(patterns: seq<Pattern>, equalFold: (string, string) -> bool, mac: Mac)

  // ----- which captures are kept

  predicate Skips(e: Engine, p: Pattern, v: string) {
    exists i :: 0 <= i < |p.skip| && e.equalFold(p.skip[i], v)
  }

  function GroupCount(m: seq<int>): nat {
    if |m| < 2 then 0 else |m| / 2 - 1
  }

  /** Group k (from 0) of a match is present, not empty and not one of the pattern's keywords. */
  predicate Keeps(e: Engine, p: Pattern, line: string, m: seq<int>, k: nat)
    requires ValidMatch(m, |line|) && k < GroupCount(m)
  {
    var start, end := m[2 + 2 * k], m[3 + 2 * k];
    assert (2 + 2 * k) % 2 == 0;
    start >= 0 && start != end && !Skips(e, p, line[start..end])
  }

  function GroupSpan(m: seq<int>, k: nat, len: nat): (s: Span)
    requires ValidMatch(m, len) && k < GroupCount(m) && m[2 + 2 * k] >= 0
  {
    assert (2 + 2 * k) % 2 == 0;
    Span(m[2 + 2 * k], m[3 + 2 * k])
  }

  /** The spans kept from the first n groups of one match. */
  function FromGroups(e: Engine, p: Pattern, line: string, m: seq<int>, n: nat): seq<Span>
    requires ValidMatch(m, |line|) && n <= GroupCount(m)
  {
    if n == 0 then []
    else
      FromGroups(e, p, line, m, n - 1)
      + if Keeps(e, p, line, m, n - 1) then [GroupSpan(m, n - 1, |line|)] else []
  }

  lemma FromGroupsStart(e: Engine, p: Pattern, line: string, m: seq<int>)
    requires ValidMatch(m, |line|)
    ensures FromGroups(e, p, line, m, 0) == []
  {
  }

  lemma FromGroupsNext(e: Engine, p: Pattern, line: string, m: seq<int>, k: nat)
    requires ValidMatch(m, |line|) && k < GroupCount(m)
    ensures FromGroups(e, p, line, m, k + 1)
         == FromGroups(e, p, line, m, k)
            + if Keeps(e, p, line, m, k) then [GroupSpan(m, k, |line|)] else []
  {
  }

  function FromMatches(e: Engine, p: Pattern, line: string, ms: seq<seq<int>>, n: nat): seq<Span>
    requires n <= |ms| && forall m :: m in ms ==> ValidMatch(m, |line|)
  {
    if n == 0 then []
    else FromMatches(e, p, line, ms, n - 1) + FromGroups(e, p, line, ms[n - 1], GroupCount(ms[n - 1]))
  }

  function FromPatterns(e: Engine, line: string, n: nat): seq<Span>
    requires n <= |e.patterns|
  {
    if n == 0 then []
    else
      var p := e.patterns[n - 1];
      var ms := p.re(line);
      FromPatterns(e, line, n - 1) + FromMatches(e, p, line, ms, |ms|)
  }

  /** Every span the three nested loops of obfuscateLine collect, in their order. */
  function Collected(e: Engine, line: string): seq<Span> {
    FromPatterns(e, line, |e.patterns|)
  }

  /** Some pattern of the table captures s in line, and s is worth hashing. */
  ghost predicate Captured(e: Engine, patterns: seq<Pattern>, line: string, s: Span) {
    exists p, m, k: nat :: p in patterns && IsCapture(e, p, line, m, k, s)
  }

  /** Capture group k + 1 of match m is s, holds some text, and is no keyword of the pattern. */
  ghost predicate IsCapture(e: Engine, p: Pattern, line: string, m: seq<int>, k: nat, s: Span) {
    && m in p.re(line) && 2 * k + 3 < |m|
    && m[2 * k + 2] == s.start && m[2 * k + 3] == s.end
    && s.start < s.end <= |line|
    && forall w :: w in p.skip ==> !e.equalFold(w, line[s.start..s.end])
  }

  lemma KeepsIffCapture(e: Engine, p: Pattern, line: string, m: seq<int>, k: nat, s: Span)
    requires m in p.re(line) && k < GroupCount(m)
    ensures IsCapture(e, p, line, m, k, s) <==> Keeps(e, p, line, m, k) && GroupSpan(m, k, |line|) == s
  {
    assert (2 + 2 * k) % 2 == 0;
  }

  lemma {:induction false} FromGroupsHolds(e: Engine, p: Pattern, line: string, m: seq<int>, n: nat, s: Span)
    requires m in p.re(line) && n <= GroupCount(m)
    ensures s in FromGroups(e, p, line, m, n) <==> exists k: nat :: k < n && IsCapture(e, p, line, m, k, s)
  {
    if n > 0 {
      hide IsCapture, Keeps, FromGroups;
      FromGroupsHolds(e, p, line, m, n - 1, s);
      FromGroupsNext(e, p, line, m, n - 1);
      KeepsIffCapture(e, p, line, m, n - 1, s);
      hide GroupSpan;
      assert s in FromGroups(e, p, line, m, n) <==>
        s in FromGroups(e, p, line, m, n - 1) || IsCapture(e, p, line, m, n - 1, s);
      if k: nat :| k < n && IsCapture(e, p, line, m, k, s) {
        assert k < n - 1 || k == n - 1;
      }
    }
  }

  lemma {:induction false} FromMatchesHolds(e: Engine, p: Pattern, line: string, n: nat, s: Span)
    requires n <= |p.re(line)|
    ensures s in FromMatches(e, p, line, p.re(line), n) <==>
      exists m, k: nat :: m in p.re(line)[..n] && IsCapture(e, p, line, m, k, s)
  {
    var ms := p.re(line);
    if n > 0 {
      FromMatchesHolds(e, p, line, n - 1, s);
      var m := ms[n - 1];
      FromGroupsHolds(e, p, line, m, GroupCount(m), s);
      assert ms[..n] == ms[..n - 1] + [m];
      assert s in FromGroups(e, p, line, m, GroupCount(m)) <==> exists k: nat :: IsCapture(e, p, line, m, k, s);
    }
  }

  lemma {:induction false} FromPatternsHolds(e: Engine, line: string, n: nat, s: Span)
    requires n <= |e.patterns|
    ensures s in FromPatterns(e, line, n) <==> Captured(e, e.patterns[..n], line, s)
  {
    if n > 0 {
      FromPatternsHolds(e, line, n - 1, s);
      var p := e.patterns[n - 1];
      var ms := p.re(line);
      FromMatchesHolds(e, p, line, |ms|, s);
      assert ms[..|ms|] == ms;
      assert e.patterns[..n] == e.patterns[..n - 1] + [p];
      assert s in FromMatches(e, p, line, ms, |ms|) <==> Captured(e, [p], line, s);
    }
  }

  /** The loops collect exactly the captured spans. */
  lemma CollectedIffCaptured(e: Engine, line: string, s: Span)
    ensures s in Collected(e, line) <==> Captured(e, e.patterns, line, s)
  {
    FromPatternsHolds(e, line, |e.patterns|, s);
    assert e.patterns[..|e.patterns|] == e.patterns;
  }

  lemma CollectedInLine(e: Engine, line: string)
    ensures AllNonEmpty(Collected(e, line))
    ensures forall s :: s in Collected(e, line) ==> s.end <= |line|
  {
    forall s | s in Collected(e, line)
      ensures NonEmpty(s) && s.end <= |line|
    {
      CollectedIffCaptured(e, line, s);
      var p, m, k: nat :| p in e.patterns && IsCapture(e, p, line, m, k, s);
      assert (2 + 2 * k) % 2 == 0;
    }
  }

  // ----- sorting by start

  function Insert(s: Span, sorted: seq<Span>): seq<Span> {
    if sorted == [] || s.start <= sorted[0].start then [s] + sorted
    else [sorted[0]] + Insert(s, sorted[1..])
  }

  function Sort(spans: seq<Span>): seq<Span> {
    if spans == [] then [] else Insert(spans[0], Sort(spans[1..]))
  }

  lemma {:induction false} InsertPermutes(s: Span, sorted: seq<Span>)
    ensures multiset(Insert(s, sorted)) == multiset{s} + multiset(sorted)
  {
    if sorted == [] || s.start <= sorted[0].start {
    } else {
      InsertPermutes(s, sorted[1..]);
      assert sorted == [sorted[0]] + sorted[1..];
    }
  }

  lemma {:induction false} InsertSorts(s: Span, sorted: seq<Span>)
    requires SortedByStart(sorted)
    ensures SortedByStart(Insert(s, sorted))
    ensures Insert(s, sorted)[0] == s || (sorted != [] && Insert(s, sorted)[0] == sorted[0])
  {
    if sorted == [] || s.start <= sorted[0].start {
    } else {
      InsertSorts(s, sorted[1..]);
      ConsSorted(sorted[0], Insert(s, sorted[1..]));
    }
  }

  lemma ConsSorted(s: Span, sorted: seq<Span>)
    requires SortedByStart(sorted) && sorted != [] && s.start <= sorted[0].start
    ensures SortedByStart([s] + sorted)
  {
    assert forall j :: 0 <= j < |sorted| ==> s.start <= sorted[j].start;
  }

  lemma {:induction false} SortSorts(spans: seq<Span>)
    ensures SortedByStart(Sort(spans)) && multiset(Sort(spans)) == multiset(spans)
  {
    if spans != [] {
      SortSorts(spans[1..]);
      InsertSorts(spans[0], Sort(spans[1..]));
      InsertPermutes(spans[0], Sort(spans[1..]));
      assert spans == [spans[0]] + spans[1..];
    }
  }

  lemma PermutationSameSpans(xs: seq<Span>, ys: seq<Span>)
    requires multiset(xs) == multiset(ys)
    ensures SameSpans(xs, ys)
  {
    assert forall s :: s in xs <==> s in multiset(xs);
    assert forall s :: s in ys <==> s in multiset(ys);
  }

  /** The merged spans of a line, whatever order its captures were found and sorted in. */
  function LineHulls(e: Engine, line: string): seq<Span> {
    Merge(Sort(Collected(e, line)))
  }

  /** Any sort by start leads to the same hulls. */
  lemma AnySortGivesLineHulls(e: Engine, line: string, sorted: seq<Span>)
    requires SortedByStart(sorted) && multiset(sorted) == multiset(Collected(e, line))
    ensures Merge(sorted) == LineHulls(e, line)
  {
    var spans := Collected(e, line);
    SortSorts(spans);
    PermutationSameSpans(sorted, spans);
    PermutationSameSpans(Sort(spans), spans);
    CollectedInLine(e, line);
    MergeOrderIndependent(sorted, Sort(spans));
  }

  /** The hulls of a line are the connected pieces of its captures, and lie inside the line. */
  lemma LineHullsAreHulls(e: Engine, line: string)
    ensures AreHulls(Collected(e, line), LineHulls(e, line))
    ensures Fits(LineHulls(e, line), 0, |line|)
    ensures LineHulls(e, line) == [] <==> Collected(e, line) == []
  {
    var spans, hulls := Collected(e, line), LineHulls(e, line);
    SortSorts(spans);
    PermutationSameSpans(Sort(spans), spans);
    CollectedInLine(e, line);
    MergeIsHulls(Sort(spans));
    forall p: int
      ensures Covers(spans, p) <==> Covers(hulls, p)
      ensures Bridges(spans, p) <==> Bridges(hulls, p)
    {
      SameSpansSameUnion(Sort(spans), spans);
      assert Covers(Sort(spans), p) <==> Covers(hulls, p);
      assert Bridges(Sort(spans), p) <==> Bridges(hulls, p);
      assert Covers(Sort(spans), p) <==> Covers(spans, p);
      assert Bridges(Sort(spans), p) <==> Bridges(spans, p);
    }
    forall k | 0 <= k < |hulls|
      ensures hulls[k].end <= |line|
    {
      var first, last := HullIsTight(spans, hulls, k);
    }
    if spans == [] {
      assert Sort(spans) == [];
    } else {
      var k := InExactlyOneHull(spans, hulls, spans[0]);
    }
  }

  // ----- rewriting a line

  const TOKEN_LENGTH := 16

  function HexDigit(d: nat): char
    requires d < 16
  {
    if d < 10 then ('0' as int + d) as char else ('a' as int + d - 10) as char
  }

  /** The lower-case hexadecimal form of %x. */
  function Hex(bytes: Bytes): (s: string)
    ensures |s| == 2 * |bytes|
    ensures forall i :: 0 <= i < |s| ==> '0' <= s[i] <= '9' || 'a' <= s[i] <= 'f'
  {
    if bytes == [] then ""
    else [HexDigit(bytes[0] / 16), HexDigit(bytes[0] % 16)] + Hex(bytes[1..])
  }

  /** hashSecret */
  function Token(e: Engine, key: Bytes, secret: string): (t: string)
    ensures |t| == TOKEN_LENGTH && '\n' !in t
  {
    "[h:" + Hex(e.mac(key, secret)[..6]) + "]"
  }

  /** Disjoint spans in order, between position `from` and the end of a line of length len. */
  ghost predicate Fits(spans: seq<Span>, from: nat, len: nat) {
    && from <= len
    && Disjoint(spans)
    && forall i :: 0 <= i < |spans| ==> from <= spans[i].start && spans[i].end <= len
  }

  lemma FitsTail(spans: seq<Span>, from: nat, len: nat)
    requires Fits(spans, from, len) && spans != []
    ensures spans[0] in spans && from <= spans[0].start < spans[0].end <= len
    ensures Fits(spans[1..], spans[0].end, len)
  {
    assert NonEmpty(spans[0]);
  }

  lemma FitsAt(spans: seq<Span>, from: nat, len: nat, k: nat)
    requires Fits(spans, from, len) && k < |spans|
    ensures spans[k] in spans && from <= spans[k].start < spans[k].end <= len
  {
    assert NonEmpty(spans[k]);
  }

  /** What the builder loop writes for the part of the line from `from` on. */
  function Rewrite(e: Engine, key: Bytes, line: string, spans: seq<Span>, from: nat): string
    requires Fits(spans, from, |line|)
    decreases |spans|
  {
    if spans == [] then line[from..]
    else
      FitsTail(spans, from, |line|);
      line[from..spans[0].start]
      + Token(e, key, line[spans[0].start..spans[0].end])
      + Rewrite(e, key, line, spans[1..], spans[0].end)
  }

  /** obfuscateLine */
  function LineOut(e: Engine, key: Bytes, line: string): (string, bool) {
    LineHullsAreHulls(e, line);
    if Collected(e, line) == [] then (line, false)
    else (Rewrite(e, key, line, LineHulls(e, line), 0), true)
  }

  /** obfuscate, as a function of the package variables it reads. */
  function TextOut(e: Engine, enabled: bool, key: Option<Bytes>, config: string): Result<(string, bool)> {
    if !enabled then Ok((config, false))
    else
      match key
      case None => Err
      case Some(k) => Ok(LinesOut(e, k, Split(config, '\n')))
  }

  function LinesOut(e: Engine, key: Bytes, lines: seq<string>): (string, bool) {
    (Join(OutLines(e, key, lines), '\n'), AnyHashed(e, key, lines))
  }

  function OutLines(e: Engine, key: Bytes, lines: seq<string>): (out: seq<string>)
    ensures |out| == |lines|
    ensures forall i :: 0 <= i < |lines| ==> out[i] == LineOut(e, key, lines[i]).0
  {
    seq(|lines|, i requires 0 <= i < |lines| => LineOut(e, key, lines[i]).0)
  }

  predicate AnyHashed(e: Engine, key: Bytes, lines: seq<string>) {
    exists i :: 0 <= i < |lines| && LineOut(e, key, lines[i]).1
  }

  lemma OutLinesNone(e: Engine, key: Bytes)
    ensures OutLines(e, key, []) == [] && !AnyHashed(e, key, [])
  {
  }

  /** Lines are rewritten one by one, and the flag is their disjunction. */
  lemma OutLinesAppend(e: Engine, key: Bytes, lines: seq<string>, line: string)
    ensures OutLines(e, key, lines + [line]) == OutLines(e, key, lines) + [LineOut(e, key, line).0]
    ensures AnyHashed(e, key, lines + [line]) <==> AnyHashed(e, key, lines) || LineOut(e, key, line).1
  {
    var all := lines + [line];
    assert all[|lines|] == line;
    assert forall i :: 0 <= i < |lines| ==> all[i] == lines[i];
  }
}
