/**
 What the shared fragments capture: the backtracking match of "type words, then a value"
 is the scanner's answer, type codes are never taken for secrets, and escaped quotes do
 not end a value.
 */
module FragmentLaws {
  import opened Text
  import opened Spans
  import opened Regex
  import opened Fragments

  // ----- the value alternative

  lemma BareFirst(s: string, j: nat)
    requires j <= |s|
    ensures First(Hits(BARE, s, j)) ==
      if j < |s| && NonBlank(s[j]) then
        Some(Hit(RunEnd(NonBlank, s, j), map[2 := Span(j, RunEnd(NonBlank, s, j))]))
      else None
  {
    PlusClassFirst(NonBlank, s, j);
    var inner := Hits(Plus(Class(NonBlank)), s, j);
    assert Hits(BARE, s, j) == Record(inner, 2, j);
  }

  lemma ValueFirst(s: string, j: nat)
    requires j <= |s|
    ensures First(Hits(VALUE, s, j)) == if j < |s| && NonBlank(s[j]) then Some(ScanValue(s, j)) else None
  {
    BareFirst(s, j);
    QuotedIsScanner(s, j);
    assert Hits(VALUE, s, j) == Hits(QUOTED, s, j) + Hits(BARE, s, j);
  }

  // ----- blanks, then something

  lemma FragmentsGroupFree()
    ensures GroupFree(SPACES) && GroupFree(TYPE_TOKEN)
  {
    assert GroupFree(Class(Blank)) && GroupFree(DIGIT);
    PlusGroupFree(Class(Blank));
    PlusGroupFree(DIGIT);
    assert GroupFree(Empty) && GroupFree(Alt(DIGIT, Empty)) && GroupFree(SHORT_CODE);
    assert GroupFree(Class(Like('m'))) && GroupFree(Class(Like('d'))) && GroupFree(Class(Like('5')));
    assert GroupFree(Cat(Class(Like('d')), Class(Like('5')))) && GroupFree(MD5);
    assert GroupFree(Class(Like('-'))) && GroupFree(Cat(Class(Like('-')), Plus(DIGIT)));
    ShaGroupFree(Star(DIGIT));
    ShaGroupFree(Cat(Class(Like('-')), Plus(DIGIT)));
    assert GroupFree(Alt(Sha(Star(DIGIT)), Sha(Cat(Class(Like('-')), Plus(DIGIT)))));
    assert GroupFree(Alt(MD5, Alt(Sha(Star(DIGIT)), Sha(Cat(Class(Like('-')), Plus(DIGIT))))));
  }

  lemma PlusGroupFree(r: Re)
    requires GroupFree(r)
    ensures GroupFree(Star(r)) && GroupFree(Plus(r))
  {
  }

  lemma ShaGroupFree(rest: Re)
    requires GroupFree(rest)
    ensures GroupFree(Sha(rest))
  {
    assert GroupFree(Class(Like('s'))) && GroupFree(Class(Like('h'))) && GroupFree(Class(Like('a')));
    assert GroupFree(Cat(Class(Like('a')), rest));
    assert GroupFree(Cat(Class(Like('h')), Cat(Class(Like('a')), rest)));
  }

  /** Blanks before r: if r cannot start inside the blanks, it starts right after them. */
  lemma BlanksThen(r: Re, s: string, i: nat)
    requires i <= |s|
    requires forall k :: i <= k < |s| && Blank(s[k]) ==> Hits(r, s, k) == []
    requires Hits(r, s, |s|) == []
    ensures
      var j := RunEnd(Blank, s, i);
      First(Hits(Cat(SPACES, r), s, i)) == if i < j then First(Hits(r, s, j)) else None
  {
    var j := RunEnd(Blank, s, i);
    var hits := Hits(SPACES, s, i);
    FragmentsGroupFree();
    GroupFreeHits(SPACES, s, i);
    PlusClassFirst(Blank, s, i);
    forall h | h in hits
      ensures i < h.end <= j
    {
      assert Matches(SPACES, s, i, h.end);
      PlusClassMatches(Blank, s, i, h.end);
      BlankRun(s, i, h.end);
    }
    forall h | h in hits && h.end <= |s|
      ensures h.end == j || Hits(r, s, h.end) == []
    {
    }
    FirstContinue(hits, r, s, i, j);
    if i < j {
      assert hits[0] in hits;
    }
  }

  /** A run of blanks that starts at i does not go past the maximal one. */
  lemma BlankRun(s: string, i: nat, e: nat)
    requires i <= e <= |s| && forall k :: i <= k < e ==> Blank(s[k])
    ensures e <= RunEnd(Blank, s, i)
  {
  }

  lemma SecretNeedsBlank(s: string, i: nat)
    requires i <= |s| && (i == |s| || !Blank(s[i]))
    ensures Hits(SECRET, s, i) == []
  {
    var step := Cat(SPACES, TYPE_TOKEN);
    StarUnrolls(step, Cat(SPACES, VALUE), s, i);
    CatClassHits(Blank, Star(Class(Blank)), s, i);
    assert Hits(SPACES, s, i) == [];
    assert Hits(step, s, i) == [] && Hits(Cat(SPACES, VALUE), s, i) == [];
    assert Steps(step, s, i) == [];
  }

  /** A type-token step from i goes to some e, with blanks in between and a type word before e. */
  lemma StepMatches(s: string, i: nat, e: nat)
    requires i <= |s| && Matches(Cat(SPACES, TYPE_TOKEN), s, i, e)
    ensures
      var j := RunEnd(Blank, s, i);
      i < j < e <= |s| && TypeWord(s[j..e])
  {
    CatMatches(SPACES, TYPE_TOKEN, s, i, e);
    var m: nat :| i <= m <= |s| && Matches(SPACES, s, i, m) && Matches(TYPE_TOKEN, s, m, e);
    PlusClassMatches(Blank, s, i, m);
    MatchEnds(TYPE_TOKEN, s, m, e);
    TypeTokenMatches(s, m, e);
    TypeWordFirst(s[m..e]);
    assert s[m] == s[m..e][0];
    BlankRun(s, i, m);
    assert m == RunEnd(Blank, s, i);
  }

  lemma TypeWordNonBlank(w: string)
    requires TypeWord(w)
    ensures forall k :: 0 <= k < |w| ==> NonBlank(w[k])
  {
    forall k | 0 <= k < |w|
      ensures NonBlank(w[k])
    {
      if StartsWithSha(w) && k >= 4 {
        assert w[k] == w[3..][k - 3] == w[4..][k - 4];
      } else if StartsWithSha(w) && k == 3 {
        assert w[k] == w[3..][0];
      }
    }
  }

  /** After a step the secret can only go on if the step ended at the end of a word. */
  lemma StepEndsWord(s: string, i: nat, e: nat)
    requires i <= |s| && Matches(Cat(SPACES, TYPE_TOKEN), s, i, e)
    ensures i < e <= |s|
    ensures
      var j := RunEnd(Blank, s, i);
      e == RunEnd(NonBlank, s, j) || (Hits(SECRET, s, e) == [])
  {
    StepMatches(s, i, e);
    var j := RunEnd(Blank, s, i);
    TypeWordNonBlank(s[j..e]);
    assert forall k :: j <= k < e ==> s[k] == s[j..e][k - j];
    if e == |s| || !Blank(s[e]) {
      SecretNeedsBlank(s, e);
    } else {
      RunEndIs(NonBlank, s, j, e);
    }
  }

  lemma {:induction false} RunEndIs(ok: char -> bool, s: string, i: nat, e: nat)
    requires i <= e <= |s| && (forall k :: i <= k < e ==> ok(s[k])) && (e < |s| ==> !ok(s[e]))
    ensures RunEnd(ok, s, i) == e
    decreases e - i
  {
    if i < e {
      RunEndIs(ok, s, i + 1, e);
    }
  }

  /**
   The backtracking matcher on `typeTokens \s+ value` reports exactly what the one-pass
   scanner finds: the same end and the same captured group, or no match.
   */
  lemma {:induction false} SecretIsScanner(s: string, i: nat)
    requires i <= |s|
    ensures First(Hits(SECRET, s, i)) == ScanSecret(s, i)
    decreases |s| - i
  {
    if i == |s| || !Blank(s[i]) {
      SecretNeedsBlank(s, i);
    } else {
      var step := Cat(SPACES, TYPE_TOKEN);
      var j := RunEnd(Blank, s, i);
      StarUnrolls(step, Cat(SPACES, VALUE), s, i);
      TailFirst(s, i);
      var more := Continue(Steps(step, s, i), SECRET, s, i);
      assert Hits(SECRET, s, i) == more + Hits(Cat(SPACES, VALUE), s, i);
      StepsFirst(s, i);
      if j < |s| {
        SecretIsScanner(s, RunEnd(NonBlank, s, j));
      }
    }
  }

  lemma TailFirst(s: string, i: nat)
    requires i < |s| && Blank(s[i])
    ensures
      var j := RunEnd(Blank, s, i);
      First(Hits(Cat(SPACES, VALUE), s, i)) == if j < |s| then Some(ScanValue(s, j)) else None
  {
    forall k | i <= k < |s| && Blank(s[k])
      ensures Hits(VALUE, s, k) == []
    {
      ValueFirst(s, k);
    }
    ValueFirst(s, |s|);
    BlanksThen(VALUE, s, i);
    ValueFirst(s, RunEnd(Blank, s, i));
  }

  lemma StepsFirst(s: string, i: nat)
    requires i < |s| && Blank(s[i])
    ensures
      var j := RunEnd(Blank, s, i);
      var w := RunEnd(NonBlank, s, j);
      First(Continue(Steps(Cat(SPACES, TYPE_TOKEN), s, i), SECRET, s, i))
        == if j < |s| && TypeWord(s[j..w]) then First(Hits(SECRET, s, w)) else None
  {
    var step := Cat(SPACES, TYPE_TOKEN);
    var steps := Steps(step, s, i);
    var j := RunEnd(Blank, s, i);
    var w := RunEnd(NonBlank, s, j);
    FragmentsGroupFree();
    GroupFreeHits(step, s, i);
    forall h | h in steps
      ensures j < h.end && TypeWord(s[j..h.end]) && (h.end == w || Hits(SECRET, s, h.end) == [])
    {
      assert Matches(step, s, i, h.end);
      StepMatches(s, i, h.end);
      StepEndsWord(s, i, h.end);
    }
    FirstContinue(steps, SECRET, s, i, w);
    if j < |s| && TypeWord(s[j..w]) {
      StepExists(s, i, j, w);
    }
  }

  lemma StepExists(s: string, i: nat, j: nat, w: nat)
    requires i < j <= w <= |s| && TypeWord(s[j..w])
    requires forall k :: i <= k < j ==> Blank(s[k])
    ensures exists h :: h in Steps(Cat(SPACES, TYPE_TOKEN), s, i) && h.end == w
  {
    var step := Cat(SPACES, TYPE_TOKEN);
    PlusClassMatches(Blank, s, i, j);
    TypeTokenMatches(s, j, w);
    CatMatches(SPACES, TYPE_TOKEN, s, i, w);
    var h :| h in Hits(step, s, i) && h.end == w;
    assert h in Steps(step, s, i);
  }

  // ----- which word is taken

  /** Words separated by blanks: gap, word, gap, word, ... */
  function Layout(gaps: seq<string>, words: seq<string>): string
    requires |gaps| == |words|
  {
    if words == [] then "" else gaps[0] + words[0] + Layout(gaps[1..], words[1..])
  }

  ghost predicate IsBlanks(g: string) {
    g != "" && forall k :: 0 <= k < |g| ==> Blank(g[k])
  }

  ghost predicate IsToken(w: string) {
    w != "" && forall k :: 0 <= k < |w| ==> NonBlank(w[k])
  }

  ghost predicate WellLaidOut(gaps: seq<string>, words: seq<string>) {
    && |gaps| == |words|
    && (forall k :: 0 <= k < |words| ==> IsBlanks(gaps[k]) && IsToken(words[k]))
  }

  /** The index of the first word that is not a type word, or of the last word. */
  function ValueIndex(words: seq<string>): (n: nat)
    requires words != []
    ensures n < |words|
    ensures forall k :: 0 <= k < n ==> TypeWord(words[k])
    ensures !TypeWord(words[n]) || n == |words| - 1
  {
    if |words| == 1 || !TypeWord(words[0]) then 0 else 1 + ValueIndex(words[1..])
  }

  /** Where that word starts, counted from the end of the keyword. */
  function ValueOffset(gaps: seq<string>, words: seq<string>): nat
    requires words != [] && |gaps| == |words|
  {
    |Layout(gaps[..ValueIndex(words)], words[..ValueIndex(words)])| + |gaps[ValueIndex(words)]|
  }

  lemma ValueOffsetSkips(gaps: seq<string>, words: seq<string>)
    requires |gaps| == |words| > 1 && TypeWord(words[0])
    ensures ValueIndex(words) == 1 + ValueIndex(words[1..])
    ensures ValueOffset(gaps, words) == |gaps[0]| + |words[0]| + ValueOffset(gaps[1..], words[1..])
  {
    var n := ValueIndex(words[1..]);
    assert gaps[..n + 1][1..] == gaps[1..][..n] && words[..n + 1][1..] == words[1..][..n];
  }

  lemma ValueOffsetStops(gaps: seq<string>, words: seq<string>)
    requires |gaps| == |words| > 0 && (|words| == 1 || !TypeWord(words[0]))
    ensures ValueIndex(words) == 0 && ValueOffset(gaps, words) == |gaps[0]|
  {
  }

  lemma RunPrefix(ok: char -> bool, s: string, i: nat, part: string, rest: string)
    requires i <= |s| && s[i..] == part + rest
    requires forall k :: 0 <= k < |part| ==> ok(part[k])
    requires rest == "" || !ok(rest[0])
    ensures RunEnd(ok, s, i) == i + |part| <= |s|
    ensures s[i..i + |part|] == part && s[i + |part|..] == rest
  {
    var e := i + |part|;
    assert forall k :: i <= k < e ==> s[k] == s[i..][k - i] == part[k - i];
    assert e < |s| ==> s[e] == s[i..][|part|] == rest[0];
    RunEndIs(ok, s, i, e);
    assert s[i..][|part|..] == rest;
  }

  /** How the scanner sees one gap and one word. */
  lemma GapAndWord(s: string, i: nat, g: string, w: string, rest: string)
    requires i <= |s| && s[i..] == g + w + rest
    requires IsBlanks(g) && IsToken(w) && (rest == "" || Blank(rest[0]))
    ensures i < |s| && Blank(s[i]) && RunEnd(Blank, s, i) == i + |g| < |s|
    ensures RunEnd(NonBlank, s, i + |g|) == i + |g| + |w| <= |s|
    ensures s[i + |g|..i + |g| + |w|] == w && s[i + |g| + |w|..] == rest
  {
    hide RunEnd;
    ConcatAssoc(g, w, rest);
    assert s[i] == s[i..][0] == g[0];
    assert (w + rest)[0] == w[0];
    RunPrefix(Blank, s, i, g, w + rest);
    RunPrefix(NonBlank, s, i + |g|, w, rest);
  }

  /** The scanner's first word is skipped or taken. */
  lemma ScanStep(s: string, i: nat, g: string, w: string, rest: string)
    requires i <= |s| && s[i..] == g + w + rest
    requires IsBlanks(g) && IsToken(w) && (rest == "" || Blank(rest[0]))
    ensures
      var j, e := i + |g|, i + |g| + |w|;
      && j < e <= |s| && s[j..e] == w && s[e..] == rest && RunEnd(NonBlank, s, j) == e
      && ScanSecret(s, i) == if TypeWord(w) && ScanSecret(s, e).Some? then ScanSecret(s, e)
                             else Some(ScanValue(s, j))
  {
    GapAndWord(s, i, g, w, rest);
  }

  lemma LayoutSplits(gaps: seq<string>, words: seq<string>, tail: string)
    requires words != [] && WellLaidOut(gaps, words) && (tail == "" || Blank(tail[0]))
    ensures
      var rest := Layout(gaps[1..], words[1..]) + tail;
      && Layout(gaps, words) + tail == gaps[0] + words[0] + rest
      && |Layout(gaps, words)| == |gaps[0]| + |words[0]| + |Layout(gaps[1..], words[1..])|
      && (rest == "" || Blank(rest[0]))
      && IsBlanks(gaps[0]) && IsToken(words[0]) && WellLaidOut(gaps[1..], words[1..])
  {
    RestStartsBlank(gaps[1..], words[1..], tail);
  }

  lemma ScanTail(s: string, i: nat)
    requires i <= |s| && (s[i..] == "" || IsBlanks(s[i..]))
    ensures ScanSecret(s, i) == None
  {
    if i < |s| {
      assert s[i..] == s[i..] + "";
      RunPrefix(Blank, s, i, s[i..], "");
    }
  }

  lemma RestStartsBlank(gaps: seq<string>, words: seq<string>, tail: string)
    requires WellLaidOut(gaps, words) && (tail == "" || Blank(tail[0]))
    ensures
      var rest := Layout(gaps, words) + tail;
      rest == "" || Blank(rest[0])
  {
    if words != [] {
      assert (Layout(gaps, words) + tail)[0] == gaps[0][0];
    } else {
      assert Layout(gaps, words) + tail == tail;
    }
  }

  lemma {:induction false} ScanValueWord(s: string, i: nat, gaps: seq<string>, words: seq<string>, tail: string)
    requires words != [] && WellLaidOut(gaps, words) && (tail == "" || IsBlanks(tail))
    requires i <= |s| && s[i..] == Layout(gaps, words) + tail
    ensures
      var start, word := i + ValueOffset(gaps, words), words[ValueIndex(words)];
      && start < start + |word| <= |s| && s[start..start + |word|] == word
      && RunEnd(NonBlank, s, start) == start + |word|
      && ScanSecret(s, i) == Some(ScanValue(s, start))
    decreases |words|
  {
    hide ScanSecret, ScanValue, ValueOffset, ValueIndex, TypeWord, RunEnd, Layout, IsToken;
    var rest := Layout(gaps[1..], words[1..]) + tail;
    LayoutSplits(gaps, words, tail);
    ScanStep(s, i, gaps[0], words[0], rest);
    var e := i + |gaps[0]| + |words[0]|;
    if |words| == 1 {
      NoMoreWords(gaps[1..], words[1..], tail);
      ScanTail(s, e);
      ValueOffsetStops(gaps, words);
    } else if TypeWord(words[0]) {
      ScanValueWord(s, e, gaps[1..], words[1..], tail);
      ValueOffsetSkips(gaps, words);
      assert words[1..][ValueIndex(words[1..])] == words[ValueIndex(words)];
    } else {
      ValueOffsetStops(gaps, words);
    }
  }

  lemma NoMoreWords(gaps: seq<string>, words: seq<string>, tail: string)
    requires |gaps| == |words| && words == []
    ensures Layout(gaps, words) + tail == tail
  {
  }

  /**
   On any words after a keyword, with nothing but blanks after the last, the value
   starts at the first word that is not a type word, or at the last word when all are.
   */
  lemma ValueWord(s: string, i: nat, gaps: seq<string>, words: seq<string>, tail: string)
    requires words != [] && WellLaidOut(gaps, words) && (tail == "" || IsBlanks(tail))
    requires i <= |s| && s[i..] == Layout(gaps, words) + tail
    ensures
      var start, word := i + ValueOffset(gaps, words), words[ValueIndex(words)];
      && start < start + |word| <= |s| && s[start..start + |word|] == word
      && RunEnd(NonBlank, s, start) == start + |word|
      && First(Hits(SECRET, s, i)) == Some(ScanValue(s, start))
  {
    ScanValueWord(s, i, gaps, words, tail);
    SecretIsScanner(s, i);
  }

  /** From the end of a word the scanner finds a value exactly when another word follows. */
  lemma {:induction false} ScanGoesOn(s: string, e: nat)
    requires e <= |s| && (e < |s| ==> Blank(s[e]))
    ensures ScanSecret(s, e).Some? <==> RunEnd(Blank, s, e) < |s|
    ensures ScanSecret(s, e).Some? ==> e < ScanSecret(s, e).value.end
    decreases |s| - e
  {
    hide TypeWord, ScanValue;
    var j := RunEnd(Blank, s, e);
    if e < |s| && j < |s| {
      WordEndsLater(s, j);
      ScanGoesOn(s, RunEnd(NonBlank, s, j));
    }
  }

  lemma WordEndsLater(s: string, j: nat)
    requires j < |s| && NonBlank(s[j])
    ensures
      var w := RunEnd(NonBlank, s, j);
      j < w <= |s| && (w < |s| ==> Blank(s[w])) && j < ScanValue(s, j).end
  {
  }

  /**
   The first word after a keyword, unless it opens a quote, is the value if and only if
   it is no type word or no other word follows it.
   */
  lemma FirstWordIsTaken(s: string, i: nat, j: nat, e: nat)
    requires i < |s| && Blank(s[i]) && RunEnd(Blank, s, i) == j < |s| && RunEnd(NonBlank, s, j) == e
    requires s[j] != '"'
    ensures First(Hits(SECRET, s, i)) == Some(Hit(e, map[2 := Span(j, e)])) <==>
      !TypeWord(s[j..e]) || RunEnd(Blank, s, e) == |s|
  {
    hide TypeWord, Hits;
    SecretIsScanner(s, i);
    WordEndsLater(s, j);
    ScanGoesOn(s, e);
  }

  /**
   A number after a keyword is the value if and only if it has three digits or more or is
   the last word; a shorter one that another word follows is skipped as a type code.
   */
  lemma NumberIsTaken(s: string, i: nat, j: nat, e: nat)
    requires i < |s| && Blank(s[i]) && RunEnd(Blank, s, i) == j < |s| && RunEnd(NonBlank, s, j) == e
    requires AllDigits(s[j..e])
    ensures First(Hits(SECRET, s, i)) == Some(Hit(e, map[2 := Span(j, e)])) <==>
      e - j >= 3 || RunEnd(Blank, s, e) == |s|
  {
    hide Hits;
    WordEndsLater(s, j);
    assert s[j] == s[j..e][0];
    FirstWordIsTaken(s, i, j, e);
    NumberTypeWord(s[j..e]);
  }

  lemma NumberTypeWord(w: string)
    requires w != "" && AllDigits(w)
    ensures TypeWord(w) <==> |w| <= 2
  {
    assert IsDigit(w[0]);
  }

  /** A type word is passed over for the word after it. */
  lemma PassedOver(g: string, w: string, h: string, v: string)
    requires IsBlanks(g) && IsToken(w) && TypeWord(w) && IsBlanks(h) && IsToken(v) && !TypeWord(v) && v[0] != '"'
    ensures
      var s, j := g + w + (h + v), |g| + |w| + |h|;
      First(Hits(SECRET, s, 0)) == Some(Hit(j + |v|, map[2 := Span(j, j + |v|)]))
  {
    hide ScanSecret, TypeWord, RunEnd, Hits;
    var s, e := g + w + (h + v), |g| + |w|;
    SecretIsScanner(s, 0);
    ScanStep(s, 0, g, w, h + v);
    assert s[e..] == h + v + "";
    ScanStep(s, e, h, v, "");
    assert s[e + |h|] == v[0];
  }

  /** After "crypto isakmp key": the key 12 is passed over and the next word is captured. */
  lemma ShortKeyIsPassedOver()
    ensures First(Hits(SECRET, " 12 address", 0)) == Some(Hit(11, map[2 := Span(4, 11)]))
  {
    hide Hits;
    assert " " + "12" + (" " + "address") == " 12 address";
    assert IsBlanks(" ") && IsToken("12") && TypeWord("12") && IsToken("address") && !TypeWord("address");
    PassedOver(" ", "12", " ", "address");
  }

  /** Words the comment on the fragment lists, and some that only look like them. */
  lemma TypeWordSamples()
    ensures TypeWord("7") && TypeWord("md5") && TypeWord("MD5") && TypeWord("sha512") && TypeWord("sha-256")
    ensures !TypeWord("100") && !TypeWord("md4") && !TypeWord("sha-") && !TypeWord("sha512x")
  {
    assert "sha512"[3..] == "512" && "sha-256"[4..] == "256";
    assert "sha-"[3..][0] == '-' && "sha512x"[3..][3] == 'x';
    assert "100"[2] == '0';
  }

  /** The scanner takes a word that is not a type word. */
  lemma TakesNonTypeWord(s: string, i: nat, j: nat)
    requires i < |s| && Blank(s[i]) && RunEnd(Blank, s, i) == j < |s|
    requires !TypeWord(s[j..RunEnd(NonBlank, s, j)])
    ensures ScanSecret(s, i) == Some(ScanValue(s, j))
  {
    hide TypeWord, ScanValue;
  }

  // ----- escaped quotes

  /** The number of backslashes immediately before q, looking no further back than i. */
  function BackslashesBefore(s: string, i: nat, q: nat): nat
    requires i <= q <= |s|
    decreases q
  {
    if i < q && s[q - 1] == '\\' then 1 + BackslashesBefore(s, i, q - 1) else 0
  }

  /** A quote that is not escaped: an even run of backslashes before it. */
  predicate ClosesAt(s: string, i: nat, q: nat)
    requires i <= q <= |s|
  {
    q < |s| && s[q] == '"' && BackslashesBefore(s, i, q) % 2 == 0
  }

  ghost predicate NoneCloses(s: string, i: nat, from: nat, to: nat)
    requires i <= from && to <= |s| + 1
  {
    forall x {:trigger ClosesAt(s, i, x)} :: from <= x < to ==> !ClosesAt(s, i, x)
  }

  lemma {:induction false} ScanFindsFirstClosing(s: string, i: nat, k: nat)
    requires i <= k <= |s| && '\n' !in s[i..]
    ensures
      match ScanQuote(s, k, BackslashesBefore(s, i, k) % 2 == 1)
      case Some(q) => ClosesAt(s, i, q) && NoneCloses(s, i, k, q)
      case None => NoneCloses(s, i, k, |s| + 1)
    decreases |s| - k
  {
    if k < |s| {
      assert s[k] == s[i..][k - i];
      ScanFindsFirstClosing(s, i, k + 1);
    }
  }

  /**
   On a line, the quoted value after an opening quote at i - 1 ends at the first later
   quote that an even run of backslashes precedes; without one there is no match at all.
   */
  lemma QuotedEndsAtUnescapedQuote(s: string, i: nat, q: nat)
    requires 0 < i <= |s| && s[i - 1] == '"' && '\n' !in s && i <= q < |s|
    ensures Hits(QUOTED, s, i - 1) == [Hit(q + 1, map[1 := Span(i, q)])] <==>
      ClosesAt(s, i, q) && NoneCloses(s, i, i, q)
    ensures Hits(QUOTED, s, i - 1) == [] <==> NoneCloses(s, i, i, |s| + 1)
  {
    QuotedIsScanner(s, i - 1);
    assert '\n' !in s[i..];
    ScanFindsFirstClosing(s, i, i);
    match ScanQuote(s, i, false)
    case None =>
    case Some(e) =>
      var hit := Hit(e + 1, map[1 := Span(i, e)]);
      assert Hits(QUOTED, s, i - 1) == [hit];
      assert ClosesAt(s, i, e) && NoneCloses(s, i, i, e);
      assert [hit] == [Hit(q + 1, map[1 := Span(i, q)])] <==> q == e by {
        assert [hit][0] == hit;
      }
  }

  /** How a device writes a value between quotes. */
  function Escape(x: string): string {
    if x == "" then ""
    else (if x[0] == '"' || x[0] == '\\' then ['\\', x[0]] else [x[0]]) + Escape(x[1..])
  }

  lemma {:induction false} ScanEscaped(s: string, k: nat, x: string, tail: string)
    requires k <= |s| && s[k..] == Escape(x) + "\"" + tail
    ensures ScanQuote(s, k, false) == Some(k + |Escape(x)|)
    decreases |x|
  {
    assert s[k] == s[k..][0];
    if x == "" {
    } else if x[0] == '"' || x[0] == '\\' {
      var rest := Escape(x[1..]) + "\"" + tail;
      assert s[k..] == ['\\', x[0]] + rest;
      assert s[k + 1] == s[k..][1] == x[0];
      assert s[k + 2..] == s[k..][2..] == rest;
      ScanEscaped(s, k + 2, x[1..], tail);
      assert ScanQuote(s, k, false) == ScanQuote(s, k + 1, true) == ScanQuote(s, k + 2, false);
    } else {
      var rest := Escape(x[1..]) + "\"" + tail;
      assert s[k..] == [x[0]] + rest;
      assert s[k + 1..] == s[k..][1..] == rest;
      ScanEscaped(s, k + 1, x[1..], tail);
    }
  }

  /**
   Any string at all, escaped and quoted, is captured whole by the quoted fragment,
   whatever comes before and after it.
   */
  lemma EscapedIsCaptured(s: string, i: nat, x: string, tail: string)
    requires i < |s| && s[i..] == "\"" + Escape(x) + "\"" + tail
    ensures
      var to := i + 1 + |Escape(x)|;
      && Hits(QUOTED, s, i) == [Hit(to + 1, map[1 := Span(i + 1, to)])]
      && to < |s| && s[i + 1..to] == Escape(x)
  {
    hide Hits, Escape, ScanQuote;
    AfterQuote(s, i, x, tail);
    ScanEscaped(s, i + 1, x, tail);
    QuotedIsScanner(s, i);
  }

  lemma AfterQuote(s: string, i: nat, x: string, tail: string)
    requires i < |s| && s[i..] == "\"" + Escape(x) + "\"" + tail
    ensures s[i] == '"' && s[i + 1..] == Escape(x) + "\"" + tail
    ensures i + 1 + |Escape(x)| < |s| && s[i + 1..i + 1 + |Escape(x)|] == Escape(x)
  {
    assert s[i] == s[i..][0];
    assert s[i + 1..] == s[i..][1..];
    assert s[i + 1..i + 1 + |Escape(x)|] == s[i + 1..][..|Escape(x)|];
  }

  lemma QuoteIsNoTypeWord(s: string, j: nat, w: nat)
    requires j <= w <= |s| && j < |s| && s[j] == '"'
    ensures !TypeWord(s[j..w])
  {
    if TypeWord(s[j..w]) {
      TypeWordFirst(s[j..w]);
    }
  }

  /** After blanks, a quoted and escaped secret is what the scanner takes. */
  lemma ScanQuotedSecret(s: string, i: nat, gap: string, x: string, tail: string)
    requires IsBlanks(gap) && i <= |s| && s[i..] == gap + ("\"" + Escape(x) + "\"" + tail)
    ensures
      var from, to := i + |gap| + 1, i + |gap| + 1 + |Escape(x)|;
      && to < |s| && s[from..to] == Escape(x)
      && ScanSecret(s, i) == Some(Hit(to + 1, map[1 := Span(from, to)]))
  {
    hide ScanSecret, Escape, TypeWord, RunEnd, ScanQuote, ScanValue;
    var j := i + |gap|;
    GapThenQuote(s, i, gap, "\"" + Escape(x) + "\"" + tail);
    AfterQuote(s, j, x, tail);
    ScanEscaped(s, j + 1, x, tail);
    TakesQuoted(s, j, j + 1 + |Escape(x)|);
    TakesNonTypeWord(s, i, j);
  }

  lemma TakesQuoted(s: string, j: nat, q: nat)
    requires j < |s| && s[j] == '"' && ScanQuote(s, j + 1, false) == Some(q)
    ensures ScanValue(s, j) == Hit(q + 1, map[1 := Span(j + 1, q)])
  {
  }

  lemma GapThenQuote(s: string, i: nat, gap: string, rest: string)
    requires IsBlanks(gap) && i <= |s| && s[i..] == gap + rest && rest != "" && rest[0] == '"'
    ensures
      var j := i + |gap|;
      && i < j < |s| && Blank(s[i]) && RunEnd(Blank, s, i) == j && s[j..] == rest
      && !TypeWord(s[j..RunEnd(NonBlank, s, j)])
  {
    hide TypeWord, RunEnd;
    var j := i + |gap|;
    assert s[i] == s[i..][0] == gap[0];
    RunPrefix(Blank, s, i, gap, rest);
    assert s[j] == s[j..][0];
    QuoteIsNoTypeWord(s, j, RunEnd(NonBlank, s, j));
  }

  lemma {:induction false} ScanPastTypeWords(s: string, i: nat, gaps: seq<string>, words: seq<string>, tail: string)
    requires WellLaidOut(gaps, words) && forall k :: 0 <= k < |words| ==> TypeWord(words[k])
    requires i <= |s| && s[i..] == Layout(gaps, words) + tail && tail != "" && Blank(tail[0])
    requires i + |Layout(gaps, words)| <= |s| && ScanSecret(s, i + |Layout(gaps, words)|).Some?
    ensures ScanSecret(s, i) == ScanSecret(s, i + |Layout(gaps, words)|)
    decreases |words|
  {
    hide ScanSecret;
    if words != [] {
      LayoutSplits(gaps, words, tail);
      ScanStep(s, i, gaps[0], words[0], Layout(gaps[1..], words[1..]) + tail);
      ScanPastTypeWords(s, i + |gaps[0]| + |words[0]|, gaps[1..], words[1..], tail);
    }
  }

  lemma Suffix(s: string, i: nat, a: string, b: string)
    requires i <= |s| && s[i..] == a + b
    ensures i + |a| <= |s| && s[i + |a|..] == b
  {
    assert s[i..][|a|..] == b;
  }

  /**
   Type words followed by a quoted secret: the whole fragment captures the escaped
   secret and nothing else, even when the secret holds blanks, quotes or backslashes.
   */
  lemma QuotedSecretIsCaptured(s: string, i: nat, gaps: seq<string>, words: seq<string>,
                               gap: string, x: string, tail: string)
    requires WellLaidOut(gaps, words) && IsBlanks(gap) && forall k :: 0 <= k < |words| ==> TypeWord(words[k])
    requires i <= |s| && s[i..] == Layout(gaps, words) + (gap + ("\"" + Escape(x) + "\"" + tail))
    ensures
      var from := i + |Layout(gaps, words)| + |gap| + 1;
      var to := from + |Escape(x)|;
      && to < |s| && s[from..to] == Escape(x)
      && First(Hits(SECRET, s, i)) == Some(Hit(to + 1, map[1 := Span(from, to)]))
  {
    hide ScanSecret, Escape, Hits;
    var end := gap + ("\"" + Escape(x) + "\"" + tail);
    var at := i + |Layout(gaps, words)|;
    Suffix(s, i, Layout(gaps, words), end);
    ScanQuotedSecret(s, at, gap, x, tail);
    assert end[0] == gap[0];
    ScanPastTypeWords(s, i, gaps, words, end);
    SecretIsScanner(s, i);
  }
}
