/**
 A small backtracking matcher with Go's leftmost-first, greedy preference: all ways to
 match at a position, most preferred first, with the groups each one captures.
 */
module Regex {
  import opened Text
  import opened Spans

  datatype Re =
    | Empty
    | Class(ok: char -> bool)
    | Cat(first: Re, second: Re)
    | Alt(left: Re, right: Re)
    | Star(body: Re)
    | Group(n: nat, inner: Re)

  /** One way to match: where it ends, and the span of every group that took part. */
  datatype Hit = Hit(end: nat, groups: map<nat, Span>)

  function Plus(r: Re): Re {
    Cat(r, Star(r))
  }

  ghost predicate EndsIn(hits: seq<Hit>, from: int, to: int) {
    forall k :: 0 <= k < |hits| ==> from <= hits[k].end <= to
  }

  /** All matches of r at position i of s, in order of preference. */
  function Hits(r: Re, s: string, i: nat): (hits: seq<Hit>)
    requires i <= |s|
    ensures EndsIn(hits, i, |s|)
    decreases |s| - i, r, 0
  {
    match r
    case Empty => [Hit(i, map[])]
    case Class(ok) => if i < |s| && ok(s[i]) then [Hit(i + 1, map[])] else []
    case Cat(a, b) => Continue(Hits(a, s, i), b, s, i)
    case Alt(a, b) => Hits(a, s, i) + Hits(b, s, i)
    case Star(a) => Continue(Moving(Hits(a, s, i), i), r, s, i + 1) + [Hit(i, map[])]
    case Group(n, a) => Record(Hits(a, s, i), n, i)
  }

  /** Goes on with r after each of the hits in turn, all of which end at lo or later. */
  function Continue(hits: seq<Hit>, r: Re, s: string, lo: nat): (all: seq<Hit>)
    requires EndsIn(hits, lo, |s|)
    ensures EndsIn(all, lo, |s|)
    decreases |s| - lo, r, 1 + |hits|
  {
    if hits == [] then []
    else Under(hits[0].groups, Hits(r, s, hits[0].end)) + Continue(hits[1..], r, s, lo)
  }

  /** The hits with earlier captures added; a later capture of the same group wins. */
  function Under(groups: map<nat, Span>, hits: seq<Hit>): (r: seq<Hit>)
    ensures |r| == |hits|
    ensures forall k :: 0 <= k < |hits| ==> r[k] == Hit(hits[k].end, groups + hits[k].groups)
  {
    seq(|hits|, k requires 0 <= k < |hits| => Hit(hits[k].end, groups + hits[k].groups))
  }

  /** The hits that consumed something: an empty iteration of a star is not repeated. */
  function Moving(hits: seq<Hit>, i: nat): (r: seq<Hit>)
    requires forall k :: 0 <= k < |hits| ==> i <= hits[k].end
    ensures forall k :: 0 <= k < |r| ==> i < r[k].end && r[k] in hits
    ensures forall h :: h in hits && h.end > i ==> h in r
  {
    if hits == [] then []
    else if hits[0].end > i then [hits[0]] + Moving(hits[1..], i)
    else Moving(hits[1..], i)
  }

  function Record(hits: seq<Hit>, n: nat, i: nat): (r: seq<Hit>)
    requires forall k :: 0 <= k < |hits| ==> i <= hits[k].end
    ensures |r| == |hits|
    ensures forall k :: 0 <= k < |hits| ==> r[k] == Hit(hits[k].end, hits[k].groups[n := Span(i, hits[k].end)])
  {
    seq(|hits|, k requires 0 <= k < |hits| => Hit(hits[k].end, hits[k].groups[n := Span(i, hits[k].end)]))
  }

  /** The match the engine reports. */
  function First(hits: seq<Hit>): Option<Hit> {
    if hits == [] then None else Some(hits[0])
  }

  // ----- laws of the matcher

  lemma {:induction false} ContinueBound(hits: seq<Hit>, r: Re, s: string, lo: nat, lo': nat)
    requires EndsIn(hits, lo, |s|) && EndsIn(hits, lo', |s|)
    ensures Continue(hits, r, s, lo) == Continue(hits, r, s, lo')
  {
    if hits != [] {
      ContinueBound(hits[1..], r, s, lo, lo');
    }
  }

  lemma {:induction false} ContinueAppend(xs: seq<Hit>, ys: seq<Hit>, r: Re, s: string, lo: nat)
    requires EndsIn(xs, lo, |s|) && EndsIn(ys, lo, |s|)
    ensures EndsIn(xs + ys, lo, |s|)
    ensures Continue(xs + ys, r, s, lo) == Continue(xs, r, s, lo) + Continue(ys, r, s, lo)
  {
    hide Hits, Under;
    if xs == [] {
      assert xs + ys == ys;
    } else {
      assert (xs + ys)[1..] == xs[1..] + ys;
      ContinueAppend(xs[1..], ys, r, s, lo);
      ConcatAssoc(Under(xs[0].groups, Hits(r, s, xs[0].end)), Continue(xs[1..], r, s, lo), Continue(ys, r, s, lo));
    }
  }

  lemma UnderUnder(g: map<nat, Span>, g': map<nat, Span>, hits: seq<Hit>)
    ensures Under(g, Under(g', hits)) == Under(g + g', hits)
  {
    forall k | 0 <= k < |hits|
      ensures g + (g' + hits[k].groups) == (g + g') + hits[k].groups
    {
    }
  }

  lemma UnderAppend(g: map<nat, Span>, xs: seq<Hit>, ys: seq<Hit>)
    ensures Under(g, xs + ys) == Under(g, xs) + Under(g, ys)
  {
  }

  lemma UnderNothing(hits: seq<Hit>)
    ensures Under(map[], hits) == hits
  {
    forall k | 0 <= k < |hits|
      ensures Under(map[], hits)[k] == hits[k]
    {
      assert map[] + hits[k].groups == hits[k].groups;
    }
  }

  lemma {:induction false} ContinueUnder(g: map<nat, Span>, hits: seq<Hit>, r: Re, s: string, lo: nat)
    requires EndsIn(hits, lo, |s|)
    ensures EndsIn(Under(g, hits), lo, |s|)
    ensures Continue(Under(g, hits), r, s, lo) == Under(g, Continue(hits, r, s, lo))
  {
    if hits != [] {
      assert Under(g, hits)[1..] == Under(g, hits[1..]);
      ContinueUnder(g, hits[1..], r, s, lo);
      var here := Hits(r, s, hits[0].end);
      UnderUnder(g, hits[0].groups, here);
      UnderAppend(g, Under(hits[0].groups, here), Continue(hits[1..], r, s, lo));
    }
  }

  /** Going on with a, then with b, is going on with their concatenation. */
  lemma {:induction false} ContinueCat(hits: seq<Hit>, a: Re, b: Re, s: string, lo: nat)
    requires EndsIn(hits, lo, |s|)
    ensures Continue(Continue(hits, a, s, lo), b, s, lo) == Continue(hits, Cat(a, b), s, lo)
    decreases |hits|
  {
    if hits != [] {
      var h := hits[0];
      var here := Hits(a, s, h.end);
      ContinueCat(hits[1..], a, b, s, lo);
      ContinueAppend(Under(h.groups, here), Continue(hits[1..], a, s, lo), b, s, lo);
      ContinueUnder(h.groups, here, b, s, lo);
      ContinueBound(here, b, s, lo, h.end);
    }
  }

  lemma ContinueHere(r: Re, s: string, i: nat)
    requires i <= |s|
    ensures Continue([Hit(i, map[])], r, s, i) == Hits(r, s, i)
  {
    var hits := [Hit(i, map[])];
    UnderNothing(Hits(r, s, i));
    assert Continue(hits[1..], r, s, i) == [];
  }

  /** Going on from a single capture-free hit. */
  lemma ContinueOne(r: Re, s: string, i: nat, e: nat)
    requires i <= e <= |s|
    ensures Continue([Hit(e, map[])], r, s, i) == Hits(r, s, e)
  {
    ContinueHere(r, s, e);
    ContinueBound([Hit(e, map[])], r, s, i, e);
  }

  /** The matches of the body that consumed something, from which a star goes on. */
  function Steps(a: Re, s: string, i: nat): (steps: seq<Hit>)
    requires i <= |s|
    ensures EndsIn(steps, i, |s|) && EndsIn(steps, i + 1, |s|)
    ensures forall h :: h in steps <==> h in Hits(a, s, i) && h.end > i
  {
    Moving(Hits(a, s, i), i)
  }

  lemma StarHits(a: Re, s: string, i: nat)
    requires i <= |s|
    ensures Hits(Star(a), s, i) == Continue(Steps(a, s, i), Star(a), s, i) + [Hit(i, map[])]
  {
    ContinueBound(Steps(a, s, i), Star(a), s, i, i + 1);
  }

  lemma CatHits(a: Re, b: Re, s: string, i: nat)
    requires i <= |s|
    ensures Hits(Cat(a, b), s, i) == Continue(Hits(a, s, i), b, s, i)
  {
  }

  /** A star in front: either one more iteration, or none. */
  lemma StarUnrolls(a: Re, b: Re, s: string, i: nat)
    requires i <= |s|
    ensures Hits(Cat(Star(a), b), s, i) == Continue(Steps(a, s, i), Cat(Star(a), b), s, i) + Hits(b, s, i)
  {
    hide Hits, Steps;
    var steps := Steps(a, s, i);
    calc {
      Hits(Cat(Star(a), b), s, i);
      { CatHits(Star(a), b, s, i); }
      Continue(Hits(Star(a), s, i), b, s, i);
      { StarHits(a, s, i);
        ContinueAppend(Continue(steps, Star(a), s, i), [Hit(i, map[])], b, s, i); }
      Continue(Continue(steps, Star(a), s, i), b, s, i) + Continue([Hit(i, map[])], b, s, i);
      { ContinueCat(steps, Star(a), b, s, i); ContinueHere(b, s, i); }
      Continue(steps, Cat(Star(a), b), s, i) + Hits(b, s, i);
    }
  }

  /** Some match of r at i ends at e. */
  ghost predicate Matches(r: Re, s: string, i: nat, e: nat)
    requires i <= |s|
  {
    exists h :: h in Hits(r, s, i) && h.end == e
  }

  lemma {:induction false} ContinueReaches(hits: seq<Hit>, r: Re, s: string, lo: nat, e: nat)
    requires EndsIn(hits, lo, |s|)
    ensures (exists h :: h in Continue(hits, r, s, lo) && h.end == e)
       <==> exists h :: h in hits && h.end <= |s| && Matches(r, s, h.end, e)
  {
    if hits != [] {
      ContinueReaches(hits[1..], r, s, lo, e);
      var here := Hits(r, s, hits[0].end);
      var under := Under(hits[0].groups, here);
      assert (exists h :: h in under && h.end == e) <==> (exists h :: h in here && h.end == e) by {
        if exists h :: h in under && h.end == e {
          var k :| 0 <= k < |under| && under[k].end == e;
          assert here[k] in here;
        }
        if exists h :: h in here && h.end == e {
          var k :| 0 <= k < |here| && here[k].end == e;
          assert under[k] in under;
        }
      }
      assert forall h :: h in hits <==> h == hits[0] || h in hits[1..];
    }
  }

  lemma CatMatches(a: Re, b: Re, s: string, i: nat, e: nat)
    requires i <= |s|
    ensures Matches(Cat(a, b), s, i, e) <==>
      exists m: nat :: i <= m <= |s| && Matches(a, s, i, m) && Matches(b, s, m, e)
  {
    hide Hits, Continue;
    CatHits(a, b, s, i);
    ContinueReaches(Hits(a, s, i), b, s, i, e);
    if Matches(Cat(a, b), s, i, e) {
      var h :| h in Hits(a, s, i) && h.end <= |s| && Matches(b, s, h.end, e);
      assert Matches(a, s, i, h.end);
    }
    if m: nat :| i <= m <= |s| && Matches(a, s, i, m) && Matches(b, s, m, e) {
      var h :| h in Hits(a, s, i) && h.end == m;
      assert h in Hits(a, s, i) && h.end <= |s| && Matches(b, s, h.end, e);
    }
  }

  lemma AltMatches(a: Re, b: Re, s: string, i: nat, e: nat)
    requires i <= |s|
    ensures Matches(Alt(a, b), s, i, e) <==> Matches(a, s, i, e) || Matches(b, s, i, e)
  {
    assert forall h :: h in Hits(Alt(a, b), s, i) <==> h in Hits(a, s, i) || h in Hits(b, s, i);
  }

  lemma ClassMatches(ok: char -> bool, s: string, i: nat, e: nat)
    requires i <= |s|
    ensures Matches(Class(ok), s, i, e) <==> i < |s| && ok(s[i]) && e == i + 1
  {
    if i < |s| && ok(s[i]) {
      assert Hit(i + 1, map[]) in Hits(Class(ok), s, i);
    }
  }

  lemma EmptyMatches(s: string, i: nat, e: nat)
    requires i <= |s|
    ensures Matches(Empty, s, i, e) <==> e == i
  {
    assert Hit(i, map[]) in Hits(Empty, s, i);
  }

  lemma StarMatches(a: Re, s: string, i: nat, e: nat)
    requires i <= |s|
    ensures Matches(Star(a), s, i, e) <==>
      e == i || exists m: nat :: i < m <= |s| && Matches(a, s, i, m) && Matches(Star(a), s, m, e)
  {
    var steps := Steps(a, s, i);
    StarHits(a, s, i);
    ContinueReaches(steps, Star(a), s, i, e);
    StarEnds(a, s, i, e);
    if h :| h in steps && h.end <= |s| && Matches(Star(a), s, h.end, e) {
      assert Matches(a, s, i, h.end);
    }
    if m: nat :| i < m <= |s| && Matches(a, s, i, m) && Matches(Star(a), s, m, e) {
      var h :| h in Hits(a, s, i) && h.end == m;
      assert h in steps;
    }
  }

  lemma StarEnds(a: Re, s: string, i: nat, e: nat)
    requires i <= |s|
    ensures Matches(Star(a), s, i, e) <==>
      e == i || exists h :: h in Continue(Steps(a, s, i), Star(a), s, i) && h.end == e
  {
    StarHits(a, s, i);
    var more, stay := Continue(Steps(a, s, i), Star(a), s, i), Hit(i, map[]);
    assert forall h :: h in more + [stay] <==> h in more || h == stay;
  }

  /** A starred class can stop anywhere within the run of characters it accepts. */
  lemma {:induction false} StarClassMatches(ok: char -> bool, s: string, i: nat, e: nat)
    requires i <= |s|
    ensures Matches(Star(Class(ok)), s, i, e) <==> i <= e <= |s| && forall k :: i <= k < e ==> ok(s[k])
    decreases |s| - i
  {
    hide Hits, Matches;
    StarMatches(Class(ok), s, i, e);
    forall m: nat
      ensures Matches(Class(ok), s, i, m) <==> i < |s| && ok(s[i]) && m == i + 1
    {
      ClassMatches(ok, s, i, m);
    }
    if i < |s| {
      StarClassMatches(ok, s, i + 1, e);
    }
  }

  /** One or more characters of a class. */
  lemma PlusClassMatches(ok: char -> bool, s: string, i: nat, e: nat)
    requires i <= |s|
    ensures Matches(Plus(Class(ok)), s, i, e) <==> i < e <= |s| && forall k :: i <= k < e ==> ok(s[k])
  {
    CatMatches(Class(ok), Star(Class(ok)), s, i, e);
    forall m: nat
      ensures Matches(Class(ok), s, i, m) <==> i < |s| && ok(s[i]) && m == i + 1
    {
      ClassMatches(ok, s, i, m);
    }
    if i < |s| {
      StarClassMatches(ok, s, i + 1, e);
    }
  }
}
