/**
 What obfuscation promises about its output: which bytes survive and where, what the
 tokens reveal, and how whole texts behave line by line.
 */
module RedactionLaws {
  import opened Text
  import opened Spans
  import opened Redaction

  // ----- an output line is its gaps, woven with tokens

  /** The pieces of line[from..] outside the spans: one more than there are spans. */
  function Gaps(line: string, spans: seq<Span>, from: nat): (gaps: seq<string>)
    requires Fits(spans, from, |line|)
    ensures |gaps| == |spans| + 1
    decreases |spans|
  {
    if spans == [] then [line[from..]]
    else
      FitsTail(spans, from, |line|);
      [line[from..spans[0].start]] + Gaps(line, spans[1..], spans[0].end)
  }

  function Secrets(line: string, spans: seq<Span>): (secrets: seq<string>)
    requires Fits(spans, 0, |line|)
    ensures |secrets| == |spans|
    ensures forall i :: 0 <= i < |spans| ==>
      spans[i].start <= spans[i].end <= |line| && secrets[i] == line[spans[i].start..spans[i].end]
  {
    assert forall i :: 0 <= i < |spans| ==> spans[i] in spans && NonEmpty(spans[i]);
    seq(|spans|, i requires 0 <= i < |spans| => line[spans[i].start..spans[i].end])
  }

  function Tokens(e: Engine, key: Bytes, secrets: seq<string>): (tokens: seq<string>)
    ensures |tokens| == |secrets|
    ensures forall i :: 0 <= i < |secrets| ==> tokens[i] == Token(e, key, secrets[i])
  {
    seq(|secrets|, i requires 0 <= i < |secrets| => Token(e, key, secrets[i]))
  }

  /** gap, piece, gap, ..., gap */
  function Weave(gaps: seq<string>, pieces: seq<string>): string
    requires |gaps| == |pieces| + 1
  {
    if pieces == [] then gaps[0] else gaps[0] + pieces[0] + Weave(gaps[1..], pieces[1..])
  }

  lemma {:induction false} WeaveSuffix(e: Engine, key: Bytes, line: string, spans: seq<Span>, k: nat, from: nat)
    requires Fits(spans, 0, |line|) && k <= |spans| && Fits(spans[k..], from, |line|)
    ensures Weave(Gaps(line, spans[k..], from), Secrets(line, spans)[k..]) == line[from..]
    ensures Weave(Gaps(line, spans[k..], from), Tokens(e, key, Secrets(line, spans))[k..])
         == Rewrite(e, key, line, spans[k..], from)
    decreases |spans| - k
  {
    if k < |spans| {
      var s, rest := spans[k], spans[k + 1..];
      assert NonEmpty(s);
      assert spans[k..][1..] == rest;
      WeaveSuffix(e, key, line, spans, k + 1, s.end);
      var gaps := Gaps(line, spans[k..], from);
      assert gaps[1..] == Gaps(line, rest, s.end);
      var secrets := Secrets(line, spans);
      var tokens := Tokens(e, key, secrets);
      assert secrets[k..][1..] == secrets[k + 1..] && tokens[k..][1..] == tokens[k + 1..];
      assert secrets[k..][0] == line[s.start..s.end];
      assert tokens[k..][0] == Token(e, key, line[s.start..s.end]);
      assert line[from..] == line[from..s.start] + line[s.start..s.end] + line[s.end..];
    }
  }

  /**
   The gaps survive byte for byte and in order: weaving them with the tokens gives the
   output line, and putting the original secrets back gives the input line.
   */
  lemma LineIsWoven(e: Engine, key: Bytes, line: string)
    ensures
      var hulls := LineHulls(e, line);
      && Fits(hulls, 0, |line|)
      && line == Weave(Gaps(line, hulls, 0), Secrets(line, hulls))
      && LineOut(e, key, line).0 == Weave(Gaps(line, hulls, 0), Tokens(e, key, Secrets(line, hulls)))
  {
    LineHullsAreHulls(e, line);
    var hulls := LineHulls(e, line);
    WeaveSuffix(e, key, line, hulls, 0, 0);
    assert hulls[0..] == hulls && line[0..] == line;
    var secrets := Secrets(line, hulls);
    var tokens := Tokens(e, key, secrets);
    assert secrets[0..] == secrets && tokens[0..] == tokens;
  }

  // ----- what tokens reveal

  function HexValue(c: char): int {
    if '0' <= c <= '9' then c as int - '0' as int else c as int - 'a' as int + 10
  }

  /** Reads pairs of hexadecimal digits, high digit first. */
  function UnHex(s: string): seq<int>
    requires |s| % 2 == 0
    decreases |s|
  {
    if s == "" then [] else [16 * HexValue(s[0]) + HexValue(s[1])] + UnHex(s[2..])
  }

  /** The hexadecimal digits of a token can be read back. */
  lemma {:induction false} HexRoundTrip(bytes: Bytes)
    ensures UnHex(Hex(bytes)) == bytes
  {
    if bytes != [] {
      HexRoundTrip(bytes[1..]);
      var s := Hex(bytes);
      assert s[2..] == Hex(bytes[1..]);
      assert bytes == [bytes[0]] + bytes[1..];
    }
  }

  predicate LowerHex(s: string) {
    forall i :: 0 <= i < |s| ==> '0' <= s[i] <= '9' || 'a' <= s[i] <= 'f'
  }

  lemma {:induction false} HexDigitsInjective(a: string, b: string)
    requires |a| == |b| && |a| % 2 == 0 && LowerHex(a) && LowerHex(b) && UnHex(a) == UnHex(b)
    ensures a == b
    decreases |a|
  {
    if a != "" {
      UnHexStep(a);
      UnHexStep(b);
      hide UnHex, HexValue;
      HexDigitsInjective(a[2..], b[2..]);
      HexPairInjective(a[0], a[1], b[0], b[1]);
      assert a == [a[0], a[1]] + a[2..] && b == [b[0], b[1]] + b[2..];
    }
  }

  lemma UnHexStep(s: string)
    requires s != "" && |s| % 2 == 0
    ensures UnHex(s) != [] && UnHex(s)[0] == 16 * HexValue(s[0]) + HexValue(s[1]) && UnHex(s)[1..] == UnHex(s[2..])
  {
    hide HexValue;
  }

  lemma HexPairInjective(a: char, b: char, c: char, d: char)
    requires LowerHex([a, b]) && LowerHex([c, d])
    requires 16 * HexValue(a) + HexValue(b) == 16 * HexValue(c) + HexValue(d)
    ensures a == c && b == d
  {
    assert [a, b][0] == a && [a, b][1] == b && [c, d][0] == c && [c, d][1] == d;
    assert 0 <= HexValue(b) < 16 && 0 <= HexValue(d) < 16;
  }

  /** "[h:", the first six bytes of the secret's MAC under the key in hexadecimal, and "]". */
  predicate ShowsMac(e: Engine, key: Bytes, secret: string, t: string) {
    && |t| == 16 && t[..3] == "[h:" && t[15..] == "]"
    && LowerHex(t[3..15]) && UnHex(t[3..15]) == e.mac(key, secret)[..6]
  }

  /** The token of a secret is the one string that shows the truncated MAC under the key. */
  lemma TokenShowsMac(e: Engine, key: Bytes, secret: string, t: string)
    ensures t == Token(e, key, secret) <==> ShowsMac(e, key, secret, t)
  {
    var token, d := Token(e, key, secret), e.mac(key, secret)[..6];
    assert token[3..15] == Hex(d);
    HexRoundTrip(d);
    if ShowsMac(e, key, secret, t) {
      HexDigitsInjective(t[3..15], token[3..15]);
      assert t == t[..3] + t[3..15] + t[15..];
    }
  }

  /** Two tokens are equal exactly when the truncated MACs of their secrets are. */
  lemma TokenShowsDigest(e: Engine, key: Bytes, a: string, b: string)
    ensures Token(e, key, a) == Token(e, key, b) <==> e.mac(key, a)[..6] == e.mac(key, b)[..6]
  {
    TokenShowsMac(e, key, a, Token(e, key, a));
    TokenShowsMac(e, key, b, Token(e, key, b));
    TokenShowsMac(e, key, a, Token(e, key, b));
  }

  // ----- where every byte goes

  function HullBytes(spans: seq<Span>): int {
    if spans == [] then 0 else spans[0].end - spans[0].start + HullBytes(spans[1..])
  }

  lemma {:induction false} RewriteLength(e: Engine, key: Bytes, line: string, spans: seq<Span>, from: nat)
    requires Fits(spans, from, |line|)
    ensures |Rewrite(e, key, line, spans, from)| == |line| - from - HullBytes(spans) + TOKEN_LENGTH * |spans|
    decreases |spans|
  {
    if spans != [] {
      FitsTail(spans, from, |line|);
      RewriteLength(e, key, line, spans[1..], spans[0].end);
    }
  }

  /** The output position of input position p: each hull before p became one token. */
  function Moved(spans: seq<Span>, p: int): int {
    if spans == [] || p < spans[0].end then p
    else Moved(spans[1..], p) - (spans[0].end - spans[0].start) + TOKEN_LENGTH
  }

  lemma RewriteCons(e: Engine, key: Bytes, line: string, spans: seq<Span>, from: nat)
    requires Fits(spans, from, |line|) && spans != []
    ensures from <= spans[0].start < spans[0].end <= |line| && Fits(spans[1..], spans[0].end, |line|)
    ensures Rewrite(e, key, line, spans, from)
         == line[from..spans[0].start] + Token(e, key, line[spans[0].start..spans[0].end])
            + Rewrite(e, key, line, spans[1..], spans[0].end)
  {
    hide Token;
    FitsTail(spans, from, |line|);
  }

  lemma {:induction false} GapByte(e: Engine, key: Bytes, line: string, spans: seq<Span>, from: nat, p: nat)
    requires Fits(spans, from, |line|) && from <= p < |line| && !Covers(spans, p)
    ensures 0 <= Moved(spans, p) - from < |Rewrite(e, key, line, spans, from)|
    ensures Rewrite(e, key, line, spans, from)[Moved(spans, p) - from] == line[p]
    decreases |spans|
  {
    if spans == [] {
      MovedNone(p);
    } else {
      hide Fits, Token, Rewrite, Covers, Moved;
      var s := spans[0];
      MovedCons(spans, p);
      CoversTail(spans, p);
      FitsTail(spans, from, |line|);
      RewriteCons(e, key, line, spans, from);
      var out := Rewrite(e, key, line, spans, from);
      var gap, token := line[from..s.start], Token(e, key, line[s.start..s.end]);
      var rest := Rewrite(e, key, line, spans[1..], s.end);
      if s.end <= p {
        GapByte(e, key, line, spans[1..], s.end, p);
        var i := Moved(spans[1..], p) - s.end;
        ThirdPart(out, gap, token, rest, i, s.start - from + TOKEN_LENGTH + i);
      } else {
        FirstPart(out, gap, token, rest, p - from);
      }
    }
  }

  lemma MovedNone(p: int)
    ensures Moved([], p) == p
  {
  }

  lemma MovedCons(spans: seq<Span>, p: int)
    requires spans != []
    ensures Moved(spans, p) ==
      if p < spans[0].end then p else Moved(spans[1..], p) - (spans[0].end - spans[0].start) + TOKEN_LENGTH
  {
  }

  lemma CoversTail(spans: seq<Span>, p: int)
    requires spans != [] && !Covers(spans, p)
    ensures !Covers(spans[1..], p) && !(spans[0].start <= p < spans[0].end)
  {
    assert spans[0] in spans;
    assert forall t :: t in spans[1..] ==> t in spans;
  }

  lemma FirstPart(out: string, a: string, b: string, c: string, i: nat)
    requires out == a + b + c && i < |a|
    ensures i < |out| && out[i] == a[i]
  {
  }

  lemma ThirdPart(out: string, a: string, b: string, c: string, i: nat, at: int)
    requires out == a + b + c && i < |c| && at == |a| + |b| + i
    ensures 0 <= at < |out| && out[at] == c[i]
  {
  }

  lemma {:induction false} HullToken(e: Engine, key: Bytes, line: string, spans: seq<Span>, from: nat, k: nat)
    requires Fits(spans, from, |line|) && k < |spans|
    ensures
      var at, out := Moved(spans, spans[k].start) - from, Rewrite(e, key, line, spans, from);
      && 0 <= at <= at + TOKEN_LENGTH <= |out| && spans[k].start <= spans[k].end
      && out[at..at + TOKEN_LENGTH] == Token(e, key, line[spans[k].start..spans[k].end])
    decreases |spans|
  {
    hide Fits, Token, Rewrite;
    var s := spans[0];
    FitsTail(spans, from, |line|);
    RewriteCons(e, key, line, spans, from);
    FitsAt(spans, from, |line|, k);
    if k > 0 {
      FitsAt(spans[1..], s.end, |line|, k - 1);
    }
    var gap, token := line[from..s.start], Token(e, key, line[s.start..s.end]);
    var rest := Rewrite(e, key, line, spans[1..], s.end);
    if k == 0 {
      MiddlePart(gap, token, rest);
    } else {
      HullToken(e, key, line, spans[1..], s.end, k - 1);
      var at := Moved(spans[1..], spans[k].start) - s.end;
      LastPart(gap, token, rest, at, at + TOKEN_LENGTH);
    }
  }

  lemma MiddlePart(a: string, b: string, c: string)
    ensures (a + b + c)[|a|..|a| + |b|] == b
  {
  }

  lemma LastPart(a: string, b: string, c: string, i: nat, j: nat)
    requires i <= j <= |c|
    ensures (a + b + c)[|a| + |b| + i..|a| + |b| + j] == c[i..j]
  {
  }

  lemma LineOutIs(e: Engine, key: Bytes, line: string)
    ensures Fits(LineHulls(e, line), 0, |line|)
    ensures LineOut(e, key, line).0 == Rewrite(e, key, line, LineHulls(e, line), 0)
  {
    hide LineHulls, Collected;
    LineHullsAreHulls(e, line);
  }

  /** A byte no capture covers is still in the output, at its shifted position. */
  lemma UncapturedByteSurvives(e: Engine, key: Bytes, line: string, p: nat)
    requires p < |line| && !Covers(Collected(e, line), p)
    ensures 0 <= Moved(LineHulls(e, line), p) < |LineOut(e, key, line).0|
    ensures LineOut(e, key, line).0[Moved(LineHulls(e, line), p)] == line[p]
  {
    hide LineHulls, Rewrite, Moved, Collected, Covers, Bridges, Disjoint;
    LineHullsAreHulls(e, line);
    assert !Covers(LineHulls(e, line), p);
    LineOutIs(e, key, line);
    GapByte(e, key, line, LineHulls(e, line), 0, p);
  }

  /**
   Every capture lies inside exactly one hull, and in the hull's place the output shows the
   truncated MAC of the whole hull under the key: no byte of a captured secret is copied.
   */
  lemma CaptureIsReplaced(e: Engine, key: Bytes, line: string, s: Span) returns (k: nat)
    requires Captured(e, e.patterns, line, s)
    ensures
      var hulls, out := LineHulls(e, line), LineOut(e, key, line).0;
      && k < |hulls| && Within(s, hulls[k])
      && (forall j :: 0 <= j < |hulls| && Within(s, hulls[j]) ==> j == k)
      && hulls[k].start <= hulls[k].end <= |line|
      && var at := Moved(hulls, hulls[k].start);
      && 0 <= at <= at + TOKEN_LENGTH <= |out|
      && ShowsMac(e, key, line[hulls[k].start..hulls[k].end], out[at..at + TOKEN_LENGTH])
  {
    hide ShowsMac, Token, LineHulls, Collected, Captured, Moved;
    CollectedIffCaptured(e, line, s);
    LineHullsAreHulls(e, line);
    CollectedInLine(e, line);
    k := InExactlyOneHull(Collected(e, line), LineHulls(e, line), s);
    LineOutIs(e, key, line);
    HullToken(e, key, line, LineHulls(e, line), 0, k);
    var hull := LineHulls(e, line)[k];
    TokenShowsMac(e, key, line[hull.start..hull.end], Token(e, key, line[hull.start..hull.end]));
  }

  lemma LineLength(e: Engine, key: Bytes, line: string)
    ensures |LineOut(e, key, line).0|
         == |line| - HullBytes(LineHulls(e, line)) + TOKEN_LENGTH * |LineHulls(e, line)|
  {
    LineHullsAreHulls(e, line);
    RewriteLength(e, key, line, LineHulls(e, line), 0);
  }

  // ----- the order of the pattern table does not matter

  lemma CapturedInAnyOrder(e1: Engine, e2: Engine, line: string, s: Span)
    requires e1.equalFold == e2.equalFold
    requires forall p :: p in e1.patterns ==> p in e2.patterns
    requires Captured(e1, e1.patterns, line, s)
    ensures Captured(e2, e2.patterns, line, s)
  {
    var p, m, k: nat :| p in e1.patterns && IsCapture(e1, p, line, m, k, s);
    assert IsCapture(e2, p, line, m, k, s);
  }

  /** Reordering or repeating the patterns changes no output line. */
  lemma PatternOrderDoesNotMatter(e1: Engine, e2: Engine, key: Bytes, line: string)
    requires e1.equalFold == e2.equalFold && e1.mac == e2.mac
    requires forall p :: p in e1.patterns <==> p in e2.patterns
    ensures LineOut(e1, key, line) == LineOut(e2, key, line)
  {
    var xs, ys := Collected(e1, line), Collected(e2, line);
    forall s
      ensures s in xs <==> s in ys
    {
      CollectedIffCaptured(e1, line, s);
      CollectedIffCaptured(e2, line, s);
      if s in xs { CapturedInAnyOrder(e1, e2, line, s); }
      if s in ys { CapturedInAnyOrder(e2, e1, line, s); }
    }
    assert xs == [] <==> ys == [] by {
      assert xs != [] ==> xs[0] in xs;
      assert ys != [] ==> ys[0] in ys;
    }
    SortSorts(xs);
    SortSorts(ys);
    PermutationSameSpans(Sort(xs), xs);
    PermutationSameSpans(Sort(ys), ys);
    CollectedInLine(e1, line);
    MergeOrderIndependent(Sort(xs), Sort(ys));
    LineHullsAreHulls(e1, line);
    SameMacSameRewrite(e1, e2, key, line, LineHulls(e1, line), 0);
  }

  lemma {:induction false} SameMacSameRewrite(e1: Engine, e2: Engine, key: Bytes, line: string,
                                              spans: seq<Span>, from: nat)
    requires e1.mac == e2.mac && Fits(spans, from, |line|)
    ensures Rewrite(e1, key, line, spans, from) == Rewrite(e2, key, line, spans, from)
    decreases |spans|
  {
    if spans != [] {
      FitsTail(spans, from, |line|);
      SameMacSameRewrite(e1, e2, key, line, spans[1..], spans[0].end);
    }
  }

  // ----- comparing outputs

  lemma {:induction false} WeaveCancels(gaps: seq<string>, xs: seq<string>, ys: seq<string>)
    requires |gaps| == |xs| + 1 == |ys| + 1
    requires forall i :: 0 <= i < |xs| ==> |xs[i]| == |ys[i]|
    requires Weave(gaps, xs) == Weave(gaps, ys)
    ensures xs == ys
  {
    if xs != [] {
      var g, n := |gaps[0]|, |gaps[0]| + |xs[0]|;
      var u, v := Weave(gaps, xs), Weave(gaps, ys);
      assert u[g..n] == xs[0] && v[g..n] == ys[0];
      assert u[n..] == Weave(gaps[1..], xs[1..]) && v[n..] == Weave(gaps[1..], ys[1..]);
      WeaveCancels(gaps[1..], xs[1..], ys[1..]);
      assert xs == [xs[0]] + xs[1..] && ys == [ys[0]] + ys[1..];
    }
  }

  /**
   Outputs are comparable: two lines that agree outside their secrets have the same
   output exactly when their secrets have, one by one, the same truncated MAC. So equal
   secrets always compare equal, and the output depends on a secret only through it.
   */
  lemma Comparability(e: Engine, key: Bytes, l1: string, l2: string)
    requires Fits(LineHulls(e, l1), 0, |l1|) && Fits(LineHulls(e, l2), 0, |l2|)
    requires Gaps(l1, LineHulls(e, l1), 0) == Gaps(l2, LineHulls(e, l2), 0)
    ensures
      var s1, s2 := Secrets(l1, LineHulls(e, l1)), Secrets(l2, LineHulls(e, l2));
      && |s1| == |s2|
      && (LineOut(e, key, l1).0 == LineOut(e, key, l2).0 <==>
          forall i :: 0 <= i < |s1| ==> e.mac(key, s1[i])[..6] == e.mac(key, s2[i])[..6])
  {
    var h1, h2 := LineHulls(e, l1), LineHulls(e, l2);
    LineIsWoven(e, key, l1);
    LineIsWoven(e, key, l2);
    var gaps := Gaps(l1, h1, 0);
    var s1, s2 := Secrets(l1, h1), Secrets(l2, h2);
    var t1, t2 := Tokens(e, key, s1), Tokens(e, key, s2);
    forall i | 0 <= i < |s1|
      ensures t1[i] == t2[i] <==> e.mac(key, s1[i])[..6] == e.mac(key, s2[i])[..6]
    {
      TokenShowsDigest(e, key, s1[i], s2[i]);
    }
    if Weave(gaps, t1) == Weave(gaps, t2) {
      WeaveCancels(gaps, t1, t2);
    } else {
      assert t1 != t2;
      assert exists i :: 0 <= i < |t1| && t1[i] != t2[i];
    }
  }

  // ----- identical tokens do not imply identical secrets

  /** A digest read as a number in base 256. */
  function Number(d: Bytes): (n: nat) {
    if d == [] then 0 else 256 * Number(d[..|d| - 1]) + d[|d| - 1]
  }

  function Power256(n: nat): nat {
    if n == 0 then 1 else 256 * Power256(n - 1)
  }

  lemma {:induction false} NumberBound(d: Bytes)
    ensures Number(d) < Power256(|d|)
  {
    if d != [] {
      NumberBound(d[..|d| - 1]);
    }
  }

  lemma {:induction false} NumberInjective(a: Bytes, b: Bytes)
    requires |a| == |b| && Number(a) == Number(b)
    ensures a == b
  {
    if a != [] {
      NumberInjective(a[..|a| - 1], b[..|b| - 1]);
      assert a == a[..|a| - 1] + [a[|a| - 1]] && b == b[..|b| - 1] + [b[|b| - 1]];
    }
  }

  /** n + 1 numbers below n cannot all differ. */
  lemma {:induction false} Pigeonhole(f: nat -> nat, n: nat) returns (i: nat, j: nat)
    requires forall k: nat :: k <= n ==> f(k) < n
    ensures i < j <= n && f(i) == f(j)
  {
    var used: set<nat> := {};
    var k := 0;
    while k <= n
      invariant k <= n + 1 && |used| == k
      invariant forall v :: v in used <==> exists m: nat :: m < k && f(m) == v
    {
      if f(k) in used {
        i :| i < k && f(i) == f(k);
        return i, k;
      }
      used := used + {f(k)};
      k := k + 1;
    }
    SubsetSize(used, Below(n));
    assert false;
  }

  function Below(n: nat): (s: set<nat>)
    ensures |s| == n && forall v: nat :: v in s <==> v < n
  {
    if n == 0 then {} else Below(n - 1) + {n - 1}
  }

  lemma {:induction false} SubsetSize(a: set<nat>, b: set<nat>)
    requires a <= b
    ensures |a| <= |b|
  {
    if a != {} {
      var x :| x in a;
      SubsetSize(a - {x}, b - {x});
    }
  }

  /** The k-byte form of n, high byte first. */
  function BytesOf(n: nat, k: nat): (bytes: Bytes)
    ensures |bytes| == k
  {
    if k == 0 then [] else BytesOf(n / 256, k - 1) + [n % 256]
  }

  lemma {:induction false} NumberOfBytes(n: nat, k: nat)
    requires n < Power256(k)
    ensures Number(BytesOf(n, k)) == n
    decreases k
  {
    if k > 0 {
      NumberOfBytes(n / 256, k - 1);
      var bytes := BytesOf(n, k);
      assert bytes[..k - 1] == BytesOf(n / 256, k - 1);
    }
  }

  /** A password of fourteen hexadecimal digits. */
  predicate IsHexPassword(s: string) {
    |s| == 14 && forall i :: 0 <= i < |s| ==> '0' <= s[i] <= '9' || 'a' <= s[i] <= 'f'
  }

  lemma HexPasswordsDiffer(i: nat, j: nat)
    requires i < j < Power256(7)
    ensures Hex(BytesOf(i, 7)) != Hex(BytesOf(j, 7))
  {
    NumberOfBytes(i, 7);
    NumberOfBytes(j, 7);
    HexRoundTrip(BytesOf(i, 7));
    HexRoundTrip(BytesOf(j, 7));
  }

  /**
   The README promises that identical tokens mean identical secrets. A 48-bit token
   cannot keep that promise: under every key two different passwords of fourteen
   hexadecimal digits share a token. (TokenShowsDigest says exactly when two secrets do.)
   */
  lemma SomeSecretsShareAToken(e: Engine, key: Bytes) returns (a: string, b: string)
    ensures a != b && IsHexPassword(a) && IsHexPassword(b)
    ensures Token(e, key, a) == Token(e, key, b)
  {
    var f := (n: nat) => Number(e.mac(key, Hex(BytesOf(n, 7)))[..6]);
    forall n: nat
      ensures f(n) < Power256(6)
    {
      NumberBound(e.mac(key, Hex(BytesOf(n, 7)))[..6]);
    }
    var i, j := Pigeonhole(f, Power256(6));
    a, b := Hex(BytesOf(i, 7)), Hex(BytesOf(j, 7));
    assert Power256(7) == 256 * Power256(6);
    HexPasswordsDiffer(i, j);
    NumberInjective(e.mac(key, a)[..6], e.mac(key, b)[..6]);
    TokenShowsDigest(e, key, a, b);
  }

  // ----- whole texts

  lemma OutLineHasNoNewline(e: Engine, key: Bytes, line: string)
    requires '\n' !in line
    ensures '\n' !in LineOut(e, key, line).0
  {
    LineHullsAreHulls(e, line);
    RewriteHasNoNewline(e, key, line, LineHulls(e, line), 0);
  }

  lemma {:induction false} RewriteHasNoNewline(e: Engine, key: Bytes, line: string, spans: seq<Span>, from: nat)
    requires '\n' !in line && Fits(spans, from, |line|)
    ensures '\n' !in Rewrite(e, key, line, spans, from)
    decreases |spans|
  {
    if spans != [] {
      FitsTail(spans, from, |line|);
      RewriteHasNoNewline(e, key, line, spans[1..], spans[0].end);
      assert '\n' !in line[from..spans[0].start];
    }
  }

  /** Line k of the output is the obfuscation of line k of the input, and there are no other lines. */
  lemma LinesCorrespond(e: Engine, key: Bytes, config: string)
    ensures TextOut(e, true, Some(key), config).Ok?
    ensures Split(TextOut(e, true, Some(key), config).value.0, '\n') == OutLines(e, key, Split(config, '\n'))
  {
    var lines := Split(config, '\n');
    var out := OutLines(e, key, lines);
    forall k | 0 <= k < |out|
      ensures '\n' !in out[k]
    {
      OutLineHasNoNewline(e, key, lines[k]);
    }
    SplitJoin(out, '\n');
  }

  /** Obfuscating two texts joined by a newline is joining their obfuscations. */
  lemma NewlineHomomorphism(e: Engine, key: Bytes, a: string, b: string)
    ensures
      var x := TextOut(e, true, Some(key), a).value;
      var y := TextOut(e, true, Some(key), b).value;
      TextOut(e, true, Some(key), a + "\n" + b) == Ok((x.0 + "\n" + y.0, x.1 || y.1))
  {
    hide LineOut, OutLines, AnyHashed;
    var ls, ms := Split(a, '\n'), Split(b, '\n');
    SplitAppend(a, b, '\n');
    assert a + "\n" + b == a + ['\n'] + b;
    OutLinesConcat(e, key, ls, ms);
    JoinAppend(OutLines(e, key, ls), OutLines(e, key, ms), '\n');
    AnyHashedAppend(e, key, ls, ms);
  }

  lemma OutLinesConcat(e: Engine, key: Bytes, ls: seq<string>, ms: seq<string>)
    ensures OutLines(e, key, ls + ms) == OutLines(e, key, ls) + OutLines(e, key, ms)
  {
    hide LineOut;
  }

  lemma AnyHashedAppend(e: Engine, key: Bytes, ls: seq<string>, ms: seq<string>)
    ensures AnyHashed(e, key, ls + ms) <==> AnyHashed(e, key, ls) || AnyHashed(e, key, ms)
  {
    var all := ls + ms;
    assert forall i :: 0 <= i < |ls| ==> all[i] == ls[i];
    assert forall i :: 0 <= i < |ms| ==> all[|ls| + i] == ms[i];
    if AnyHashed(e, key, all) {
      var i :| 0 <= i < |all| && LineOut(e, key, all[i]).1;
      assert if i < |ls| then LineOut(e, key, ls[i]).1 else LineOut(e, key, ms[i - |ls|]).1;
    }
    if AnyHashed(e, key, ms) {
      var i :| 0 <= i < |ms| && LineOut(e, key, ms[i]).1;
      assert LineOut(e, key, all[|ls| + i]).1;
    }
  }

  /**
   The flag is set exactly when some line has a capture worth hashing; when it is not
   set the text comes back unchanged.
   */
  lemma HashedIffCaptured(e: Engine, key: Bytes, config: string)
    ensures
      var (out, hashed) := TextOut(e, true, Some(key), config).value;
      && (hashed <==> exists line, s :: line in Split(config, '\n') && Captured(e, e.patterns, line, s))
      && (!hashed ==> out == config)
  {
    hide LineOut, Captured, OutLines;
    var lines := Split(config, '\n');
    AnyHashedIffCaptured(e, key, lines);
    if !AnyHashed(e, key, lines) {
      NotHashedUnchanged(e, key, lines);
      JoinSplit(config, '\n');
    }
  }

  lemma AnyHashedIffCaptured(e: Engine, key: Bytes, lines: seq<string>)
    ensures AnyHashed(e, key, lines) <==> exists line, s :: line in lines && Captured(e, e.patterns, line, s)
  {
    hide LineOut, Captured;
    if AnyHashed(e, key, lines) {
      var i :| 0 <= i < |lines| && LineOut(e, key, lines[i]).1;
      LineHashedIffCaptured(e, key, lines[i]);
    }
    if line, s :| line in lines && Captured(e, e.patterns, line, s) {
      var i :| 0 <= i < |lines| && lines[i] == line;
      LineHashedIffCaptured(e, key, lines[i]);
    }
  }

  lemma NotHashedUnchanged(e: Engine, key: Bytes, lines: seq<string>)
    requires !AnyHashed(e, key, lines)
    ensures OutLines(e, key, lines) == lines
  {
    hide Rewrite, LineHulls, Collected;
  }

  lemma LineHashedIffCaptured(e: Engine, key: Bytes, line: string)
    ensures LineOut(e, key, line).1 <==> exists s :: Captured(e, e.patterns, line, s)
  {
    var spans := Collected(e, line);
    if spans != [] {
      CollectedIffCaptured(e, line, spans[0]);
    }
    if exists s :: Captured(e, e.patterns, line, s) {
      var s :| Captured(e, e.patterns, line, s);
      CollectedIffCaptured(e, line, s);
    }
  }
}
