/**
 The obfuscation code of internal/netdev/obfuscate.go in its own form: package
 variables as fields, spans sorted and merged in one shared array, and lines
 overwritten in place. Each method is proved against the functions of Redaction.
 */
module Obfuscation {
  import opened Text
  import opened Spans
  import opened Redaction
  import opened RedactionLaws

  const OBFUSCATION_KEY_LABEL := "netdev-ssh-mcp/obfuscation/v1"

  datatype KeySource = Unset | Env | File | Ephemeral

  /** slices.SortFunc by start: in place, and nothing is promised about equal starts. */
  method SortByStart(a: array<Span>)
    modifies a
    ensures SortedByStart(a[..]) && multiset(a[..]) == multiset(old(a[..]))
  {
    var sorted := Sort(a[..]);
    SortSorts(a[..]);
    assert |multiset(sorted)| == |multiset(a[..])|;
    forall i | 0 <= i < a.Length {
      a[i] := sorted[i];
    }
    assert a[..] == sorted;
  }

  /**
   The merging loop. `merged` is the prefix a[..w] of the very array whose elements
   a[r] are still being read, so widening its last span and appending to it write
   into that array. Because w <= r no unread span is ever overwritten, and the prefix
   is the fold of the spans read so far, as if merged into a fresh list.
   */
  method MergeInPlace(a: array<Span>) returns (w: nat)
    requires a.Length > 0
    modifies a
    ensures 0 < w <= a.Length
    ensures a[..w] == Merge(old(a[..]))
    ensures a[w..] == old(a[w..])
  {
    ghost var spans, merged := a[..], a[..1];
    w := 1;
    var r := 1;
    assert Merge(spans[..1]) == merged;
    hide Merge;
    while r < a.Length
      invariant 1 <= w <= r <= a.Length
      invariant |merged| == w && merged == Merge(spans[..r])
      invariant forall i :: 0 <= i < w ==> a[i] == merged[i]
      invariant forall i :: w <= i < a.Length ==> a[i] == spans[i]
    {
      MergeNext(spans, r);
      merged := Step(merged, spans[r]);
      var s := a[r];
      var last := a[w - 1];
      if s.start < last.end {
        a[w - 1] := Span(last.start, Max(last.end, s.end));
      } else {
        a[w] := s;
        w := w + 1;
      }
      r := r + 1;
    }
    assert a[..w] == merged && spans[..r] == spans;
  }

  class Obfuscator {
    const engine: Engine

    /** What tells the caller that its tokens hold for this run only. */
    const ephemeralKeyNotice: string

    var enabled: bool
    var key: Option<Bytes>
    var source: KeySource

    /** The package before main runs: obfuscation on, no key. */
    constructor (engine: Engine, ephemeralKeyNotice: string)
      ensures this.engine == engine && this.ephemeralKeyNotice == ephemeralKeyNotice
      ensures enabled && key == None && source == Unset
    {
      this.engine, this.ephemeralKeyNotice := engine, ephemeralKeyNotice;
      enabled, key, source := true, None, Unset;
    }

    /** The key bytes hashSecret uses; a nil key is no bytes. */
    function KeyBytes(): Bytes
      reads this
    {
      match key case None => [] case Some(k) => k
    }

    method SetObfuscationKey(raw: Bytes, source: KeySource)
      modifies this
      ensures key == Some(engine.mac(raw, "netdev-ssh-mcp/obfuscation/v1")) && this.source == source
      ensures enabled == old(enabled)
    {
      key := Some(engine.mac(raw, OBFUSCATION_KEY_LABEL));
      this.source := source;
    }

    predicate EphemeralObfuscationKey()
      reads this
    {
      enabled && source == Ephemeral
    }

    method CollectGroups(p: Pattern, line: string, m: seq<int>, before: seq<Span>) returns (spans: seq<Span>)
      requires ValidMatch(m, |line|)
      ensures spans == before + FromGroups(engine, p, line, m, GroupCount(m))
    {
      hide FromGroups, Skips;
      FromGroupsStart(engine, p, line, m);
      spans := before;
      var g := 2;
      while g + 1 < |m|
        invariant g % 2 == 0 && 2 <= g <= 2 + 2 * GroupCount(m)
        invariant spans == before + FromGroups(engine, p, line, m, g / 2 - 1)
        decreases |m| - g
      {
        assert m[g] >= 0 ==> 0 <= m[g] <= m[g + 1] <= |line|;
        FromGroupsNext(engine, p, line, m, g / 2 - 1);
        ghost var found := if Keeps(engine, p, line, m, g / 2 - 1) then [Span(m[g], m[g + 1])] else [];
        ConcatAssoc(before, FromGroups(engine, p, line, m, g / 2 - 1), found);
        if !(m[g] < 0 || m[g] == m[g + 1] || Skips(engine, p, line[m[g]..m[g + 1]])) {
          spans := spans + [Span(m[g], m[g + 1])];
        }
        g := g + 2;
      }
    }

    method Collect(line: string) returns (spans: seq<Span>)
      ensures spans == Collected(engine, line)
    {
      spans := [];
      for i := 0 to |engine.patterns|
        invariant spans == FromPatterns(engine, line, i)
      {
        var p := engine.patterns[i];
        var ms := p.re(line);
        for j := 0 to |ms|
          invariant spans == FromPatterns(engine, line, i) + FromMatches(engine, p, line, ms, j)
        {
          assert ValidMatch(ms[j], |line|);
          spans := CollectGroups(p, line, ms[j], spans);
        }
      }
    }

    /** The builder loop over the merged spans. */
    method WriteLine(line: string, spans: seq<Span>) returns (out: string)
      requires Fits(spans, 0, |line|)
      ensures out == Rewrite(engine, KeyBytes(), line, spans, 0)
    {
      hide Fits, Token;
      var b := "";
      assert spans[0..] == spans;
      var prev: nat := 0;
      for i := 0 to |spans|
        invariant prev <= |line| && Fits(spans[i..], prev, |line|)
        invariant b + Rewrite(engine, KeyBytes(), line, spans[i..], prev)
          == Rewrite(engine, KeyBytes(), line, spans, 0)
      {
        var s := spans[i];
        assert spans[i..][0] == s && spans[i..][1..] == spans[i + 1..];
        FitsTail(spans[i..], prev, |line|);
        ghost var rest := Rewrite(engine, KeyBytes(), line, spans[i + 1..], s.end);
        ConcatAssoc(b, line[prev..s.start] + Token(engine, KeyBytes(), line[s.start..s.end]), rest);
        ConcatAssoc(b, line[prev..s.start], Token(engine, KeyBytes(), line[s.start..s.end]));
        b := b + line[prev..s.start];
        b := b + Token(engine, KeyBytes(), line[s.start..s.end]);
        prev := s.end;
      }
      assert spans[|spans|..] == [];
      return b + line[prev..];
    }

    method ObfuscateLine(line: string) returns (out: string, hashed: bool)
      ensures (out, hashed) == LineOut(engine, KeyBytes(), line)
    {
      var spans := Collect(line);
      if |spans| == 0 {
        return line, false;
      }
      var a := new Span[|spans|](i requires 0 <= i < |spans| => spans[i]);
      assert a[..] == spans;
      SortByStart(a);
      AnySortGivesLineHulls(engine, line, a[..]);
      var w := MergeInPlace(a);
      LineHullsAreHulls(engine, line);
      out := WriteLine(line, a[..w]);
      hashed := true;
    }

    method Obfuscate(config: string) returns (r: Result<(string, bool)>)
      ensures r == TextOut(engine, enabled, key, config)
      ensures r.Err? <==> enabled && key.None?
      ensures !enabled ==> r == Ok((config, false))
    {
      if !enabled {
        return Ok((config, false));
      }
      if key == None {
        return Err;
      }
      var parts := Split(config, '\n');
      var lines := new string[|parts|](i requires 0 <= i < |parts| => parts[i]);
      assert lines[..] == parts;
      var hashed := ObfuscateLines(lines);
      return Ok((Join(lines[..], '\n'), hashed));
    }

    /** Overwrites every line with its obfuscation. */
    method ObfuscateLines(lines: array<string>) returns (hashed: bool)
      modifies lines
      ensures lines[..] == OutLines(engine, KeyBytes(), old(lines[..]))
      ensures hashed == AnyHashed(engine, KeyBytes(), old(lines[..]))
    {
      hide LineOut, OutLines, AnyHashed;
      ghost var k, parts := KeyBytes(), lines[..];
      hashed := false;
      OutLinesNone(engine, k);
      assert parts[..0] == [] && lines[..0] == [];
      for i := 0 to lines.Length
        invariant KeyBytes() == k
        invariant lines[..i] == OutLines(engine, k, parts[..i]) && lines[i..] == parts[i..]
        invariant hashed == AnyHashed(engine, k, parts[..i])
      {
        OutLinesAppend(engine, k, parts[..i], parts[i]);
        assert parts[..i + 1] == parts[..i] + [parts[i]];
        assert lines[i] == lines[i..][0];
        var out, h := ObfuscateLine(lines[i]);
        lines[i] := out;
        assert lines[..i + 1] == lines[..i] + [out];
        hashed := hashed || h;
      }
      assert parts[..|parts|] == parts && lines[..] == lines[..|parts|];
    }

    /** The content blocks of a tool result. */
    method ObfuscatedResult(output: string) returns (r: Result<seq<string>>)
      ensures r.Err? <==> enabled && key.None?
      ensures r.Ok? ==>
        var captured := exists line, s :: line in Split(output, '\n') && Captured(engine, engine.patterns, line, s);
        r.value == [TextOut(engine, enabled, key, output).value.0]
                   + if enabled && source == Ephemeral && captured then [ephemeralKeyNotice] else []
    {
      hide LinesOut, Captured;
      if enabled && key.Some? {
        HashedIffCaptured(engine, key.value, output);
      }
      var t := Obfuscate(output);
      match t
      case Err =>
        return Err;
      case Ok((out, hashed)) =>
        var content := [out];
        if hashed && EphemeralObfuscationKey() {
          content := content + [ephemeralKeyNotice];
        }
        return Ok(content);
    }
  }
}
