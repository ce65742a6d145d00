/**
 From pattern to output for one entry of the pattern table, the Cisco and NX-OS line
 `password [type] <value>`: what the regular expression captures is what is replaced.
 */
module PasswordLine {
  import opened Text
  import opened Spans
  import opened Regex
  import opened Fragments
  import opened FragmentLaws
  import opened Redaction
  import opened RedactionLaws

  /** A literal word under (?i), followed by rest. */
  function Literal(word: string, rest: Re): Re {
    if word == "" then rest else Cat(Class(Like(word[0])), Literal(word[1..], rest))
  }

  /** ^\s*password, then the shared fragments. */
  const PASSWORD: Re := Cat(Star(Class(Blank)), Literal("password", SECRET))

  /** The index pairs of a match: the whole match, then groups 1 and 2, (-1, -1) when absent. */
  function Indexes(h: Hit): seq<int> {
    [0, h.end] + GroupIndexes(h, 1) + GroupIndexes(h, 2)
  }

  function GroupIndexes(h: Hit, n: nat): seq<int> {
    if n in h.groups then [h.groups[n].start as int, h.groups[n].end as int] else [-1, -1]
  }

  /** All matches of the anchored expression: the engine's first match at the start, if any. */
  function FindPassword(line: string): seq<seq<int>> {
    match First(Hits(PASSWORD, line, 0))
    case None => []
    case Some(h) => [Indexes(h)]
  }

  // ----- captured groups lie inside the line

  ghost predicate GroupsIn(hits: seq<Hit>, len: nat) {
    forall h, n :: h in hits && n in h.groups ==> h.groups[n].start <= h.groups[n].end <= len
  }

  lemma {:induction false} GroupsInLine(r: Re, s: string, i: nat)
    requires i <= |s|
    ensures GroupsIn(Hits(r, s, i), |s|)
    decreases |s| - i, r, 0
  {
    match r
    case Empty =>
    case Class(_) =>
    case Cat(a, b) =>
      GroupsInLine(a, s, i);
      GroupsInContinue(Hits(a, s, i), b, s, i);
    case Alt(a, b) =>
      GroupsInLine(a, s, i);
      GroupsInLine(b, s, i);
    case Star(a) =>
      GroupsInLine(a, s, i);
      GroupsInContinue(Moving(Hits(a, s, i), i), r, s, i + 1);
    case Group(n, a) =>
      GroupsInLine(a, s, i);
      GroupsInRecord(Hits(a, s, i), n, i, |s|);
  }

  lemma GroupsInRecord(hits: seq<Hit>, n: nat, i: nat, len: nat)
    requires EndsIn(hits, i, len) && GroupsIn(hits, len)
    ensures GroupsIn(Record(hits, n, i), len)
  {
    var rec := Record(hits, n, i);
    forall h, g | h in rec && g in h.groups
      ensures h.groups[g].start <= h.groups[g].end <= len
    {
      var k :| 0 <= k < |rec| && rec[k] == h;
      assert hits[k] in hits;
    }
  }

  lemma {:induction false} GroupsInContinue(hits: seq<Hit>, r: Re, s: string, lo: nat)
    requires EndsIn(hits, lo, |s|) && GroupsIn(hits, |s|)
    ensures GroupsIn(Continue(hits, r, s, lo), |s|)
    decreases |s| - lo, r, 1 + |hits|
  {
    if hits != [] {
      hide Hits;
      GroupsInLine(r, s, hits[0].end);
      assert hits[0] in hits && forall h :: h in hits[1..] ==> h in hits;
      GroupsInContinue(hits[1..], r, s, lo);
      GroupsInUnder(hits[0], Hits(r, s, hits[0].end), |s|);
    }
  }

  lemma GroupsInUnder(first: Hit, hits: seq<Hit>, len: nat)
    requires GroupsIn([first], len) && GroupsIn(hits, len)
    ensures GroupsIn(Under(first.groups, hits), len)
  {
    var under := Under(first.groups, hits);
    assert first in [first];
    forall h, g | h in under && g in h.groups
      ensures h.groups[g].start <= h.groups[g].end <= len
    {
      var k :| 0 <= k < |under| && under[k] == h;
      assert hits[k] in hits;
    }
  }

  lemma FindPasswordIsValid()
    ensures FindsValidMatches(FindPassword)
  {
    forall line, m | m in FindPassword(line)
      ensures ValidMatch(m, |line|)
    {
      hide Hits;
      GroupsInLine(PASSWORD, line, 0);
      var h := Hits(PASSWORD, line, 0)[0];
      assert m == Indexes(h);
      IndexesAreValid(h, |line|);
    }
  }

  lemma IndexesAreValid(h: Hit, len: nat)
    requires forall n :: n in h.groups ==> h.groups[n].start <= h.groups[n].end <= len
    ensures ValidMatch(Indexes(h), len)
  {
    var m := Indexes(h);
    assert |m| == 6;
    forall g | 2 <= g && g + 1 < |m| && g % 2 == 0
      ensures (m[g] == -1 && m[g + 1] == -1) || 0 <= m[g] <= m[g + 1] <= len
    {
      assert g == 2 || g == 4;
    }
  }

  function PasswordPattern(): Pattern {
    FindPasswordIsValid();
    Pattern(FindPassword, [])
  }

  // ----- where the expression matches

  /** The letters of word, in either case, at position i. */
  predicate Spells(word: string, s: string, i: nat) {
    i + |word| <= |s| && forall k :: 0 <= k < |word| ==> Fold(s[i + k]) == word[k]
  }

  lemma SpellsFirst(word: string, s: string, i: nat)
    requires Spells(word, s, i) && word != ""
    ensures i < |s| && Fold(s[i]) == word[0] && Spells(word[1..], s, i + 1)
  {
    assert Fold(s[i + 0]) == word[0];
    forall k | 0 <= k < |word[1..]|
      ensures Fold(s[i + 1 + k]) == word[1..][k]
    {
      assert Fold(s[i + (k + 1)]) == word[k + 1];
    }
  }

  lemma LiteralCons(word: string, rest: Re)
    requires word != ""
    ensures Literal(word, rest) == Cat(Class(Like(word[0])), Literal(word[1..], rest))
  {
  }

  lemma LikeFirst(l: char, c: char)
    ensures Like(l)(c) <==> Fold(c) == l
  {
  }

  lemma {:induction false} LiteralHits(word: string, rest: Re, s: string, i: nat)
    requires i + |word| <= |s| && Spells(word, s, i)
    ensures Hits(Literal(word, rest), s, i) == Hits(rest, s, i + |word|)
    decreases |word|
  {
    hide Hits;
    if word != "" {
      hide Spells, Like, Literal;
      SpellsFirst(word, s, i);
      LiteralCons(word, rest);
      LikeFirst(word[0], s[i]);
      CatClassHits(Like(word[0]), Literal(word[1..], rest), s, i);
      LiteralHits(word[1..], rest, s, i + 1);
    }
  }

  lemma LiteralNeedsLetter(word: string, rest: Re, s: string, i: nat)
    requires word != "" && i <= |s| && (i < |s| ==> Fold(s[i]) != word[0])
    ensures Hits(Literal(word, rest), s, i) == []
  {
    hide Hits;
    CatClassHits(Like(word[0]), Literal(word[1..], rest), s, i);
  }

  /** After leading blanks and the keyword, the match is that of the shared fragments. */
  lemma PasswordFirst(line: string, j: nat)
    requires j + 8 <= |line| && RunEnd(Blank, line, 0) == j && Spells("password", line, j)
    ensures First(Hits(PASSWORD, line, 0)) == First(Hits(SECRET, line, j + 8))
  {
    hide Hits;
    var rest := Literal("password", SECRET);
    var hits := Hits(Star(Class(Blank)), line, 0);
    CatHits(Star(Class(Blank)), rest, line, 0);
    StarClassFirst(Blank, line, 0);
    BlanksGroupFree(line);
    forall h | h in hits && h.end <= |line|
      ensures h.end == j || Hits(rest, line, h.end) == []
    {
      assert Matches(Star(Class(Blank)), line, 0, h.end);
      StarClassMatches(Blank, line, 0, h.end);
      if h.end < j {
        LiteralNeedsLetter("password", SECRET, line, h.end);
      }
    }
    FirstContinue(hits, rest, line, 0, j);
    assert hits[0] in hits;
    LiteralHits("password", SECRET, line, j);
  }

  lemma BlanksGroupFree(line: string)
    ensures NoGroups(Hits(Star(Class(Blank)), line, 0))
  {
    assert GroupFree(Class(Blank));
    GroupFreeHits(Star(Class(Blank)), line, 0);
  }

  // ----- end to end

  /** A line `password`, type words, and a secret between quotes, written with escapes. */
  ghost predicate IsPasswordLine(line: string, j: nat, gaps: seq<string>, words: seq<string>,
                                 gap: string, x: string, tail: string) {
    && j + 8 <= |line| && RunEnd(Blank, line, 0) == j
    && Spells("password", line, j)
    && WellLaidOut(gaps, words) && IsBlanks(gap) && (forall k :: 0 <= k < |words| ==> TypeWord(words[k]))
    && line[j + 8..] == Layout(gaps, words) + (gap + ("\"" + Escape(x) + "\"" + tail))
  }

  lemma PasswordIsCaptured(e: Engine, line: string, j: nat, gaps: seq<string>, words: seq<string>,
                           gap: string, x: string, tail: string) returns (s: Span)
    requires PasswordPattern() in e.patterns && x != ""
    requires IsPasswordLine(line, j, gaps, words, gap, x, tail)
    ensures s.start <= s.end <= |line| && line[s.start..s.end] == Escape(x)
    ensures s.start == j + 8 + |Layout(gaps, words)| + |gap| + 1
    ensures Captured(e, e.patterns, line, s)
  {
    hide Hits, Layout, TypeWord, RunEnd;
    QuotedSecretIsCaptured(line, j + 8, gaps, words, gap, x, tail);
    PasswordFirst(line, j);
    var from := j + 8 + |Layout(gaps, words)| + |gap| + 1;
    var to := from + |Escape(x)|;
    s := Span(from, to);
    EscapeNonEmpty(x);
    var p := PasswordPattern();
    var m := Indexes(Hit(to + 1, map[1 := s]));
    assert p.re(line) == [m];
    assert m == [0, to + 1, from, to, -1, -1];
    assert m in p.re(line);
    assert IsCapture(e, p, line, m, 0, s);
  }

  lemma EscapeNonEmpty(x: string)
    requires x != ""
    ensures Escape(x) != ""
  {
  }

  /**
   Whatever else is in the pattern table, a quoted secret after `password`, holding any
   characters at all, ends up inside exactly one hull, and one token stands in its place.
   */
  lemma PasswordIsReplaced(e: Engine, key: Bytes, line: string, j: nat, gaps: seq<string>, words: seq<string>,
                           gap: string, x: string, tail: string) returns (s: Span, k: nat)
    requires PasswordPattern() in e.patterns && x != ""
    requires IsPasswordLine(line, j, gaps, words, gap, x, tail)
    ensures s.start <= s.end <= |line| && line[s.start..s.end] == Escape(x)
    ensures
      var hulls, out := LineHulls(e, line), LineOut(e, key, line).0;
      && k < |hulls| && Within(s, hulls[k]) && hulls[k].start <= hulls[k].end <= |line|
      && var at := Moved(hulls, hulls[k].start);
      && 0 <= at <= at + TOKEN_LENGTH <= |out|
      && ShowsMac(e, key, line[hulls[k].start..hulls[k].end], out[at..at + TOKEN_LENGTH])
  {
    s := PasswordIsCaptured(e, line, j, gaps, words, gap, x, tail);
    k := CaptureIsReplaced(e, key, line, s);
  }

  /** A line `password` and words separated by blanks. */
  ghost predicate IsWordsLine(line: string, j: nat, gaps: seq<string>, words: seq<string>, tail: string) {
    && j + 8 <= |line| && RunEnd(Blank, line, 0) == j
    && Spells("password", line, j)
    && words != [] && WellLaidOut(gaps, words) && (tail == "" || IsBlanks(tail))
    && line[j + 8..] == Layout(gaps, words) + tail
  }

  /** The word that ScanValue takes as it stands: it opens no quote that is closed later. */
  predicate IsBare(line: string, start: nat) {
    start < |line| && (line[start] != '"' || ScanQuote(line, start + 1, false) == None)
  }

  lemma WordIsCaptured(e: Engine, line: string, j: nat, gaps: seq<string>, words: seq<string>, tail: string)
    returns (s: Span)
    requires PasswordPattern() in e.patterns && IsWordsLine(line, j, gaps, words, tail)
    requires IsBare(line, j + 8 + ValueOffset(gaps, words))
    ensures s.start < s.end <= |line| && line[s.start..s.end] == words[ValueIndex(words)]
    ensures s.start == j + 8 + ValueOffset(gaps, words)
    ensures Captured(e, e.patterns, line, s)
  {
    hide Hits, Layout, TypeWord, RunEnd, ValueOffset, ValueIndex;
    ValueWord(line, j + 8, gaps, words, tail);
    PasswordFirst(line, j);
    var from := j + 8 + ValueOffset(gaps, words);
    var to := from + |words[ValueIndex(words)]|;
    s := Span(from, to);
    var h := Hit(to, map[2 := s]);
    assert ScanValue(line, from) == h;
    var p, m := PasswordPattern(), Indexes(h);
    assert p.re(line) == [m];
    assert m == [0, to, -1, -1, from, to];
    assert m in p.re(line);
    assert IsCapture(e, p, line, m, 1, s);
  }

  /**
   The bare value after `password`, the first word that is no type word or else the last
   word, ends up inside exactly one hull, and one token stands in its place.
   */
  lemma PasswordWordIsReplaced(e: Engine, key: Bytes, line: string, j: nat, gaps: seq<string>, words: seq<string>,
                               tail: string) returns (s: Span, k: nat)
    requires PasswordPattern() in e.patterns && IsWordsLine(line, j, gaps, words, tail)
    requires IsBare(line, j + 8 + ValueOffset(gaps, words))
    ensures s.start < s.end <= |line| && line[s.start..s.end] == words[ValueIndex(words)]
    ensures
      var hulls, out := LineHulls(e, line), LineOut(e, key, line).0;
      && k < |hulls| && Within(s, hulls[k]) && hulls[k].start <= hulls[k].end <= |line|
      && var at := Moved(hulls, hulls[k].start);
      && 0 <= at <= at + TOKEN_LENGTH <= |out|
      && ShowsMac(e, key, line[hulls[k].start..hulls[k].end], out[at..at + TOKEN_LENGTH])
  {
    s := WordIsCaptured(e, line, j, gaps, words, tail);
    k := CaptureIsReplaced(e, key, line, s);
  }
}
