/**
 The regular-expression fragments shared by the secret patterns: optional type words,
 then a quoted or bare value. The backtracking matcher of Regex, run on the fragments
 as they are written, is shown equal to direct one-pass scanners.
 */
module Fragments {
  import opened Text
  import opened Spans
  import opened Regex

  // ----- character classes

  /** \s, which unlike unicode.IsSpace is five ASCII characters. */
  predicate Blank(c: char) {
    c as int in {0x09, 0x0A, 0x0C, 0x0D, 0x20}
  }

  predicate NonBlank(c: char) {
    !Blank(c)
  }

  predicate IsDigit(c: char) {
    '0' <= c <= '9'
  }

  /** A literal character under (?i). */
  function Like(l: char): char -> bool {
    (c: char) => Fold(c) == l
  }

  predicate IsQuote(c: char) {
    c == '"'
  }

  predicate IsBackslash(c: char) {
    c == '\\'
  }

  /** [^"\\] */
  predicate IsPlain(c: char) {
    c != '"' && c != '\\'
  }

  /** The dot, which does not match a newline. */
  predicate IsAny(c: char) {
    c != '\n'
  }

  // ----- the fragments

  const DIGIT: Re := Class(IsDigit)

  const SPACES: Re := Plus(Class(Blank))

  const SHORT_CODE: Re := Cat(DIGIT, Alt(DIGIT, Empty))

  const MD5: Re := Cat(Class(Like('m')), Cat(Class(Like('d')), Class(Like('5'))))

  function Sha(rest: Re): Re {
    Cat(Class(Like('s')), Cat(Class(Like('h')), Cat(Class(Like('a')), rest)))
  }

  const TYPE_TOKEN: Re :=
    Alt(SHORT_CODE, Alt(MD5, Alt(Sha(Star(DIGIT)), Sha(Cat(Class(Like('-')), Plus(DIGIT))))))

  const TYPE_TOKENS: Re := Star(Cat(SPACES, TYPE_TOKEN))

  const QUOTED_BODY: Re := Alt(Class(IsPlain), Cat(Class(IsBackslash), Class(IsAny)))

  const QUOTED: Re := Cat(Class(IsQuote), Cat(Group(1, Star(QUOTED_BODY)), Class(IsQuote)))

  const BARE: Re := Group(2, Plus(Class(NonBlank)))

  const VALUE: Re := Alt(QUOTED, BARE)

  const SECRET: Re := Cat(TYPE_TOKENS, Cat(SPACES, VALUE))

  // ----- the scanners

  function RunEnd(ok: char -> bool, s: string, i: nat): (e: nat)
    requires i <= |s|
    ensures i <= e <= |s|
    ensures forall k :: i <= k < e ==> ok(s[k])
    ensures e < |s| ==> !ok(s[e])
    decreases |s| - i
  {
    if i < |s| && ok(s[i]) then RunEnd(ok, s, i + 1) else i
  }

  predicate AllDigits(w: string) {
    forall k :: 0 <= k < |w| ==> IsDigit(w[k])
  }

  predicate StartsWithSha(w: string) {
    |w| >= 3 && Fold(w[0]) == 's' && Fold(w[1]) == 'h' && Fold(w[2]) == 'a'
  }

  /** An encryption type or hash algorithm word, such as 7, md5, sha512 or sha-256. */
  predicate TypeWord(w: string) {
    || (1 <= |w| <= 2 && AllDigits(w))
    || (|w| == 3 && Fold(w[0]) == 'm' && Fold(w[1]) == 'd' && Fold(w[2]) == '5')
    || (StartsWithSha(w) && AllDigits(w[3..]))
    || (StartsWithSha(w) && |w| >= 5 && Fold(w[3]) == '-' && AllDigits(w[4..]))
  }

  /** The closing quote of a value read from k on; esc says a backslash was just read. */
  function ScanQuote(s: string, k: nat, esc: bool): (q: Option<nat>)
    requires k <= |s|
    ensures q.Some? ==> k <= q.value < |s| && s[q.value] == '"'
    decreases |s| - k
  {
    if k == |s| then None
    else if esc then if s[k] == '\n' then None else ScanQuote(s, k + 1, false)
    else if s[k] == '"' then Some(k)
    else ScanQuote(s, k + 1, s[k] == '\\')
  }

  /** The value that starts at j: quoted if a quote opens and closes, else the word. */
  function ScanValue(s: string, j: nat): Hit
    requires j < |s|
  {
    var bare := RunEnd(NonBlank, s, j);
    if s[j] != '"' then Hit(bare, map[2 := Span(j, bare)])
    else
      match ScanQuote(s, j + 1, false)
      case Some(q) => Hit(q + 1, map[1 := Span(j + 1, q)])
      case None => Hit(bare, map[2 := Span(j, bare)])
  }

  /** Skips type words as long as another word follows, then takes the value. */
  function ScanSecret(s: string, i: nat): Option<Hit>
    requires i <= |s|
    decreases |s| - i
  {
    if i == |s| || !Blank(s[i]) then None
    else
      var j := RunEnd(Blank, s, i);
      if j == |s| then None
      else
        var w := RunEnd(NonBlank, s, j);
        var skipped := if TypeWord(s[j..w]) then ScanSecret(s, w) else None;
        if skipped.Some? then skipped else Some(ScanValue(s, j))
  }

  // ----- facts about single pieces

  lemma CatClassMatches(ok: char -> bool, b: Re, s: string, i: nat, e: nat)
    requires i <= |s|
    ensures Matches(Cat(Class(ok), b), s, i, e) <==> i < |s| && ok(s[i]) && Matches(b, s, i + 1, e)
  {
    CatMatches(Class(ok), b, s, i, e);
    forall m: nat
      ensures Matches(Class(ok), s, i, m) <==> i < |s| && ok(s[i]) && m == i + 1
    {
      ClassMatches(ok, s, i, m);
    }
  }

  lemma CatClassHits(ok: char -> bool, b: Re, s: string, i: nat)
    requires i <= |s|
    ensures Hits(Cat(Class(ok), b), s, i) == if i < |s| && ok(s[i]) then Hits(b, s, i + 1) else []
  {
    hide Hits;
    CatHits(Class(ok), b, s, i);
    ClassHits(ok, s, i);
    if i < |s| && ok(s[i]) {
      ContinueOne(b, s, i, i + 1);
    } else {
      assert Continue([], b, s, i) == [];
    }
  }

  lemma ClassHits(ok: char -> bool, s: string, i: nat)
    requires i <= |s|
    ensures Hits(Class(ok), s, i) == if i < |s| && ok(s[i]) then [Hit(i + 1, map[])] else []
  {
  }

  predicate GroupFree(r: Re) {
    match r
    case Empty => true
    case Class(_) => true
    case Cat(a, b) => GroupFree(a) && GroupFree(b)
    case Alt(a, b) => GroupFree(a) && GroupFree(b)
    case Star(a) => GroupFree(a)
    case Group(_, _) => false
  }

  ghost predicate NoGroups(hits: seq<Hit>) {
    forall h :: h in hits ==> h.groups == map[]
  }

  lemma {:induction false} GroupFreeHits(r: Re, s: string, i: nat)
    requires i <= |s| && GroupFree(r)
    ensures NoGroups(Hits(r, s, i))
    decreases |s| - i, r, 0
  {
    match r
    case Empty =>
    case Class(_) =>
    case Cat(a, b) =>
      GroupFreeHits(a, s, i);
      GroupFreeContinue(Hits(a, s, i), b, s, i);
    case Alt(a, b) =>
      GroupFreeHits(a, s, i);
      GroupFreeHits(b, s, i);
    case Star(a) =>
      GroupFreeHits(a, s, i);
      GroupFreeContinue(Moving(Hits(a, s, i), i), r, s, i + 1);
    case Group(_, _) =>
  }

  lemma {:induction false} GroupFreeContinue(hits: seq<Hit>, r: Re, s: string, lo: nat)
    requires EndsIn(hits, lo, |s|) && NoGroups(hits) && GroupFree(r)
    ensures NoGroups(Continue(hits, r, s, lo))
    decreases |s| - lo, r, 1 + |hits|
  {
    if hits != [] {
      GroupFreeHits(r, s, hits[0].end);
      GroupFreeContinue(hits[1..], r, s, lo);
      assert hits[0] in hits && forall h :: h in hits[1..] ==> h in hits;
      UnderNothing(Hits(r, s, hits[0].end));
    }
  }

  /** The first match after a list of hits, when only hits that end at e can go on. */
  lemma {:induction false} FirstContinue(hits: seq<Hit>, r: Re, s: string, lo: nat, e: nat)
    requires EndsIn(hits, lo, |s|) && NoGroups(hits) && e <= |s|
    requires forall h :: h in hits && h.end <= |s| ==> h.end == e || Hits(r, s, h.end) == []
    ensures First(Continue(hits, r, s, lo))
         == if exists h :: h in hits && h.end == e then First(Hits(r, s, e)) else None
    decreases |hits|
  {
    hide Hits;
    if hits != [] {
      assert hits[0] in hits && forall h :: h in hits <==> h == hits[0] || h in hits[1..];
      FirstContinue(hits[1..], r, s, lo, e);
      UnderNothing(Hits(r, s, hits[0].end));
    }
  }

  /** Greed: the first match of a starred class takes the whole run. */
  lemma {:induction false} StarClassFirst(ok: char -> bool, s: string, i: nat)
    requires i <= |s|
    ensures First(Hits(Star(Class(ok)), s, i)) == Some(Hit(RunEnd(ok, s, i), map[]))
    decreases |s| - i
  {
    var r := Star(Class(ok));
    StarHits(Class(ok), s, i);
    var steps := Steps(Class(ok), s, i);
    if i < |s| && ok(s[i]) {
      StarClassFirst(ok, s, i + 1);
      assert Hit(i + 1, map[]) in Hits(Class(ok), s, i);
      assert forall h :: h in steps ==> h == Hit(i + 1, map[]);
      FirstContinue(steps, r, s, i, i + 1);
    } else {
      ClassHits(ok, s, i);
      assert steps == [];
    }
  }

  lemma PlusClassFirst(ok: char -> bool, s: string, i: nat)
    requires i <= |s|
    ensures First(Hits(Plus(Class(ok)), s, i))
         == if i < |s| && ok(s[i]) then Some(Hit(RunEnd(ok, s, i), map[])) else None
  {
    hide Hits;
    CatClassHits(ok, Star(Class(ok)), s, i);
    if i < |s| {
      StarClassFirst(ok, s, i + 1);
    }
  }

  // ----- type words

  lemma ShortCodeMatches(s: string, i: nat, e: nat)
    requires i <= |s|
    ensures Matches(SHORT_CODE, s, i, e) <==> i < e <= |s| && e <= i + 2 && AllDigits(s[i..e])
  {
    CatClassMatches(IsDigit, Alt(DIGIT, Empty), s, i, e);
    if i < |s| {
      AltMatches(DIGIT, Empty, s, i + 1, e);
      ClassMatches(IsDigit, s, i + 1, e);
      EmptyMatches(s, i + 1, e);
    }
  }

  lemma Md5Matches(s: string, i: nat, e: nat)
    requires i <= |s|
    ensures Matches(MD5, s, i, e) <==>
      e == i + 3 <= |s| && Fold(s[i]) == 'm' && Fold(s[i + 1]) == 'd' && Fold(s[i + 2]) == '5'
  {
    CatClassMatches(Like('m'), Cat(Class(Like('d')), Class(Like('5'))), s, i, e);
    if i < |s| {
      CatClassMatches(Like('d'), Class(Like('5')), s, i + 1, e);
      if i + 1 < |s| {
        ClassMatches(Like('5'), s, i + 2, e);
      }
    }
  }

  lemma ShaMatches(rest: Re, s: string, i: nat, e: nat)
    requires i <= |s|
    ensures Matches(Sha(rest), s, i, e) <==> StartsWithSha(s[i..]) && Matches(rest, s, i + 3, e)
  {
    var ha := Cat(Class(Like('h')), Cat(Class(Like('a')), rest));
    CatClassMatches(Like('s'), ha, s, i, e);
    if i < |s| {
      CatClassMatches(Like('h'), Cat(Class(Like('a')), rest), s, i + 1, e);
      if i + 1 < |s| {
        CatClassMatches(Like('a'), rest, s, i + 2, e);
      }
    }
  }

  lemma DigitsFrom(s: string, i: nat, k: nat, e: nat)
    requires i <= k <= e <= |s|
    ensures AllDigits(s[i..e][k - i..]) <==> forall x :: k <= x < e ==> IsDigit(s[x])
  {
    assert s[i..e][k - i..] == s[k..e];
    assert forall x :: k <= x < e ==> s[x] == s[k..e][x - k];
  }

  lemma MatchEnds(r: Re, s: string, i: nat, e: nat)
    requires i <= |s| && Matches(r, s, i, e)
    ensures i <= e <= |s|
  {
  }

  lemma ShaTokenMatches(s: string, i: nat, e: nat)
    requires i <= e <= |s|
    ensures Matches(Sha(Star(DIGIT)), s, i, e) <==> StartsWithSha(s[i..e]) && AllDigits(s[i..e][3..])
    ensures Matches(Sha(Cat(Class(Like('-')), Plus(DIGIT))), s, i, e) <==>
      StartsWithSha(s[i..e]) && e - i >= 5 && Fold(s[i..e][3]) == '-' && AllDigits(s[i..e][4..])
  {
    var dash := Cat(Class(Like('-')), Plus(DIGIT));
    ShaMatches(Star(DIGIT), s, i, e);
    ShaMatches(dash, s, i, e);
    if i + 3 <= |s| {
      StarClassMatches(IsDigit, s, i + 3, e);
      CatClassMatches(Like('-'), Plus(DIGIT), s, i + 3, e);
      if i + 3 < |s| {
        PlusClassMatches(IsDigit, s, i + 4, e);
      }
    }
    if i + 3 <= e {
      DigitsFrom(s, i, i + 3, e);
    }
    if i + 4 <= e {
      DigitsFrom(s, i, i + 4, e);
    }
  }

  /** The type-token alternatives match exactly the type words. */
  lemma TypeTokenMatches(s: string, i: nat, e: nat)
    requires i <= e <= |s|
    ensures Matches(TYPE_TOKEN, s, i, e) <==> TypeWord(s[i..e])
  {
    var dash := Sha(Cat(Class(Like('-')), Plus(DIGIT)));
    AltMatches(SHORT_CODE, Alt(MD5, Alt(Sha(Star(DIGIT)), dash)), s, i, e);
    AltMatches(MD5, Alt(Sha(Star(DIGIT)), dash), s, i, e);
    AltMatches(Sha(Star(DIGIT)), dash, s, i, e);
    ShortCodeMatches(s, i, e);
    Md5Matches(s, i, e);
    ShaTokenMatches(s, i, e);
  }

  lemma TypeWordFirst(w: string)
    requires TypeWord(w)
    ensures w != "" && NonBlank(w[0]) && w[0] != '"'
  {
  }

  // ----- quoted values

  lemma QuotedBodyHits(s: string, k: nat)
    requires k <= |s|
    ensures Hits(QUOTED_BODY, s, k) ==
      if k < |s| && IsPlain(s[k]) then [Hit(k + 1, map[])]
      else if k + 1 < |s| && s[k] == '\\' && s[k + 1] != '\n' then [Hit(k + 2, map[])]
      else []
  {
    CatClassHits(IsBackslash, Class(IsAny), s, k);
    ClassHits(IsPlain, s, k);
    if k < |s| {
      ClassHits(IsAny, s, k + 1);
    }
  }

  lemma QuotedBodySteps(s: string, k: nat)
    requires k <= |s|
    ensures Steps(QUOTED_BODY, s, k) == Hits(QUOTED_BODY, s, k)
  {
    QuotedBodyHits(s, k);
    var hits := Hits(QUOTED_BODY, s, k);
    if hits != [] {
      assert hits[1..] == [];
      assert Moving(hits[1..], k) == [];
    }
  }

  lemma BodyStep(s: string, k: nat)
    requires k <= |s|
    ensures
      var r, body := Cat(Star(QUOTED_BODY), Class(IsQuote)), Hits(QUOTED_BODY, s, k);
      Hits(r, s, k) == (if body == [] then [] else Hits(r, s, body[0].end)) + Hits(Class(IsQuote), s, k)
  {
    hide Hits, Steps;
    var r := Cat(Star(QUOTED_BODY), Class(IsQuote));
    StarUnrolls(QUOTED_BODY, Class(IsQuote), s, k);
    QuotedBodyHits(s, k);
    QuotedBodySteps(s, k);
    var body := Hits(QUOTED_BODY, s, k);
    if body == [] {
      assert Continue([], r, s, k) == [];
    } else {
      ContinueOne(r, s, k, body[0].end);
    }
  }

  /** From inside the quotes the body and the closing quote match in at most one way. */
  lemma {:induction false} BodyThenQuote(s: string, k: nat)
    requires k <= |s|
    ensures Hits(Cat(Star(QUOTED_BODY), Class(IsQuote)), s, k)
         == match ScanQuote(s, k, false) case Some(q) => [Hit(q + 1, map[])] case None => []
    decreases |s| - k
  {
    hide Hits, ScanQuote;
    BodyStep(s, k);
    QuotedBodyHits(s, k);
    ClassHits(IsQuote, s, k);
    ScanBody(s, k);
    var body := Hits(QUOTED_BODY, s, k);
    if body != [] {
      BodyThenQuote(s, body[0].end);
    }
  }

  /** The scanner steps over one piece of the body at a time. */
  lemma ScanBody(s: string, k: nat)
    requires k <= |s|
    ensures ScanQuote(s, k, false) ==
      if k == |s| then None
      else if s[k] == '"' then Some(k)
      else if s[k] != '\\' then ScanQuote(s, k + 1, false)
      else if k + 1 == |s| || s[k + 1] == '\n' then None
      else ScanQuote(s, k + 2, false)
  {
  }

  lemma RecordedQuote(end: nat, s: string, i: nat)
    requires i <= end <= |s|
    ensures Under(map[1 := Span(i, end)], Hits(Class(IsQuote), s, end)) == Closed(Hits(Class(IsQuote), s, end), i)
  {
    ClassHits(IsQuote, s, end);
    var g := map[1 := Span(i, end)];
    assert g + map[] == g;
  }

  lemma {:induction false} RecordThenQuote(hits: seq<Hit>, s: string, i: nat)
    requires EndsIn(hits, i, |s|) && NoGroups(hits)
    ensures EndsIn(Record(hits, 1, i), i, |s|)
    ensures Continue(Record(hits, 1, i), Class(IsQuote), s, i)
         == Closed(Continue(hits, Class(IsQuote), s, i), i)
    decreases |hits|
  {
    hide Hits;
    var rec := Record(hits, 1, i);
    if hits != [] {
      var here, more := Hits(Class(IsQuote), s, hits[0].end), Continue(hits[1..], Class(IsQuote), s, i);
      assert rec[1..] == Record(hits[1..], 1, i);
      assert hits[0] in hits && forall h :: h in hits[1..] ==> h in hits;
      RecordThenQuote(hits[1..], s, i);
      UnderNothing(here);
      RecordedQuote(hits[0].end, s, i);
      assert rec[0].groups == map[1 := Span(i, hits[0].end)];
      ClosedAppend(here, more, i);
    }
  }

  /** Hits that end just after a closing quote, with the text since i captured as group 1. */
  function Closed(hits: seq<Hit>, i: nat): (r: seq<Hit>)
    ensures |r| == |hits|
    ensures forall k :: 0 <= k < |hits| ==>
      r[k] == Hit(hits[k].end, map[1 := Span(i, if hits[k].end > 0 then hits[k].end - 1 else 0)])
  {
    seq(|hits|, k requires 0 <= k < |hits| =>
      Hit(hits[k].end, map[1 := Span(i, if hits[k].end > 0 then hits[k].end - 1 else 0)]))
  }

  lemma ClosedAppend(xs: seq<Hit>, ys: seq<Hit>, i: nat)
    ensures Closed(xs + ys, i) == Closed(xs, i) + Closed(ys, i)
  {
  }

  lemma BodyGroup(s: string, i: nat)
    requires i <= |s|
    ensures Hits(Cat(Group(1, Star(QUOTED_BODY)), Class(IsQuote)), s, i)
         == Closed(Hits(Cat(Star(QUOTED_BODY), Class(IsQuote)), s, i), i)
  {
    assert GroupFree(Class(IsBackslash)) && GroupFree(Class(IsAny)) && GroupFree(Class(IsPlain));
    assert GroupFree(Cat(Class(IsBackslash), Class(IsAny)));
    assert GroupFree(QUOTED_BODY);
    GroupFreeHits(Star(QUOTED_BODY), s, i);
    RecordThenQuote(Hits(Star(QUOTED_BODY), s, i), s, i);
  }

  lemma QuotedHits(s: string, i: nat)
    requires i <= |s|
    ensures Hits(QUOTED, s, i) ==
      if i == |s| || s[i] != '"' then []
      else Closed(Hits(Cat(Star(QUOTED_BODY), Class(IsQuote)), s, i + 1), i + 1)
  {
    CatClassHits(IsQuote, Cat(Group(1, Star(QUOTED_BODY)), Class(IsQuote)), s, i);
    if i < |s| && s[i] == '"' {
      BodyGroup(s, i + 1);
    }
  }

  lemma ClosedOne(q: Option<nat>, i: nat)
    ensures Closed(match q case Some(e) => [Hit(e + 1, map[])] case None => [], i)
         == match q case Some(e) => [Hit(e + 1, map[1 := Span(i, e)])] case None => []
  {
  }

  /**
   A quoted value matches in at most one way: up to the closing quote a one-flag
   scanner finds, capturing what lies between the quotes.
   */
  lemma QuotedIsScanner(s: string, i: nat)
    requires i <= |s|
    ensures Hits(QUOTED, s, i) ==
      if i == |s| || s[i] != '"' then []
      else match ScanQuote(s, i + 1, false)
           case Some(q) => [Hit(q + 1, map[1 := Span(i + 1, q)])]
           case None => []
  {
    hide Hits, ScanQuote;
    QuotedHits(s, i);
    if i < |s| && s[i] == '"' {
      BodyThenQuote(s, i + 1);
      ClosedOne(ScanQuote(s, i + 1, false), i + 1);
    }
  }
}
