/**
 The interval arithmetic behind obfuscateLine: merging the overlapping spans of a
 list sorted by start, what the merged list means, and why no order matters.
 */
module Spans {

  /** The half-open range of bytes [start, end). */
  datatype Span = Span(start: nat, end: nat)

  predicate NonEmpty(s: Span) {
    s.start < s.end
  }

  ghost predicate AllNonEmpty(spans: seq<Span>) {
    forall s :: s in spans ==> NonEmpty(s)
  }

  /** What sorting by start alone guarantees; spans with equal starts may come in any order. */
  ghost predicate SortedByStart(spans: seq<Span>) {
    forall i, j :: 0 <= i < j < |spans| ==> spans[i].start <= spans[j].start
  }

  predicate Overlap(a: Span, b: Span) {
    a.start < b.end && b.start < a.end
  }

  predicate Within(s: Span, hull: Span) {
    hull.start <= s.start && s.end <= hull.end
  }

  ghost predicate SameSpans(xs: seq<Span>, ys: seq<Span>) {
    forall s :: s in xs <==> s in ys
  }

  // ----- the merge as a fold

  function Max(a: nat, b: nat): nat {
    if a < b then b else a
  }

  /** One iteration of the merging loop: widen the last span, or append. */
  function Step(merged: seq<Span>, s: Span): seq<Span>
    requires merged != []
  {
    var last := merged[|merged| - 1];
    if s.start < last.end then merged[|merged| - 1 := Span(last.start, Max(last.end, s.end))]
    else merged + [s]
  }

  function Merge(spans: seq<Span>): (merged: seq<Span>)
    ensures |merged| <= |spans|
    ensures spans != [] ==> merged != []
  {
    if |spans| <= 1 then spans
    else Step(Merge(spans[..|spans| - 1]), spans[|spans| - 1])
  }

  /** Reading one more span takes one more step. */
  lemma MergeNext(spans: seq<Span>, r: nat)
    requires 0 < r < |spans|
    ensures Merge(spans[..r + 1]) == Step(Merge(spans[..r]), spans[r])
  {
    assert spans[..r + 1][..r] == spans[..r];
  }

  // ----- what a list of spans stands for

  /** Byte p lies in some span. */
  ghost predicate Covers(spans: seq<Span>, p: int) {
    exists s :: s in spans && s.start <= p < s.end
  }

  /** Some span holds both byte p - 1 and byte p. */
  ghost predicate Bridges(spans: seq<Span>, p: int) {
    exists s :: s in spans && s.start < p < s.end
  }

  /** Two lists hold the same bytes and glue the same neighbouring bytes together. */
  ghost predicate SameUnion(xs: seq<Span>, ys: seq<Span>) {
    && (forall p: int :: Covers(xs, p) <==> Covers(ys, p))
    && (forall p: int :: Bridges(xs, p) <==> Bridges(ys, p))
  }

  /** Non-empty spans in order, none overlapping another; they may touch. */
  ghost predicate Disjoint(spans: seq<Span>) {
    && AllNonEmpty(spans)
    && forall i, j :: 0 <= i < j < |spans| ==> spans[i].end <= spans[j].start
  }

  /** `hulls` are the connected pieces of the union of `spans`. */
  ghost predicate AreHulls(spans: seq<Span>, hulls: seq<Span>) {
    Disjoint(hulls) && SameUnion(spans, hulls)
  }

  // ----- the merge computes the hulls

  lemma StepDisjoint(merged: seq<Span>, s: Span)
    requires merged != [] && Disjoint(merged) && NonEmpty(s)
    requires merged[|merged| - 1].start <= s.start
    ensures Disjoint(Step(merged, s))
  {
    var out := Step(merged, s);
    forall t | t in out
      ensures NonEmpty(t)
    {
      var i :| 0 <= i < |out| && out[i] == t;
      assert i < |merged| ==> NonEmpty(merged[i]);
    }
  }

  lemma StepUnion(merged: seq<Span>, s: Span, p: int)
    requires merged != [] && Disjoint(merged) && NonEmpty(s)
    requires merged[|merged| - 1].start <= s.start
    ensures Covers(Step(merged, s), p) <==> Covers(merged, p) || s.start <= p < s.end
    ensures Bridges(Step(merged, s), p) <==> Bridges(merged, p) || s.start < p < s.end
  {
    var out, n := Step(merged, s), |merged| - 1;
    var last := merged[n];
    assert out[..n] == merged[..n];
    assert merged == merged[..n] + [last];
    if s.start < last.end {
      var wide := Span(last.start, Max(last.end, s.end));
      assert out == merged[..n] + [wide];
      assert wide in out && last in merged;
      assert forall t :: t in out <==> t in merged[..n] || t == wide;
      assert forall t :: t in merged <==> t in merged[..n] || t == last;
    } else {
      assert forall t :: t in out <==> t in merged || t == s;
    }
  }

  lemma SnocUnion(spans: seq<Span>, s: Span, p: int)
    ensures Covers(spans + [s], p) <==> Covers(spans, p) || s.start <= p < s.end
    ensures Bridges(spans + [s], p) <==> Bridges(spans, p) || s.start < p < s.end
  {
    assert forall t :: t in spans + [s] <==> t in spans || t == s;
  }

  lemma {:induction false} MergeLast(spans: seq<Span>)
    requires spans != [] && SortedByStart(spans)
    ensures Merge(spans)[|Merge(spans)| - 1].start <= spans[|spans| - 1].start
  {
    if |spans| > 1 {
      MergeLast(spans[..|spans| - 1]);
    }
  }

  /** One more span in start order: a step keeps the hulls right. */
  lemma StepHulls(spans: seq<Span>, merged: seq<Span>, s: Span)
    requires AreHulls(spans, merged) && merged != [] && NonEmpty(s)
    requires merged[|merged| - 1].start <= s.start
    ensures AreHulls(spans + [s], Step(merged, s))
  {
    StepDisjoint(merged, s);
    forall p: int
      ensures Covers(spans + [s], p) <==> Covers(Step(merged, s), p)
      ensures Bridges(spans + [s], p) <==> Bridges(Step(merged, s), p)
    {
      hide Step, Covers, Bridges, Disjoint;
      StepUnion(merged, s, p);
      SnocUnion(spans, s, p);
    }
  }

  /** On a sorted list the loop returns exactly the hulls of the union. */
  lemma {:induction false} MergeIsHulls(spans: seq<Span>)
    requires SortedByStart(spans) && AllNonEmpty(spans)
    ensures AreHulls(spans, Merge(spans))
  {
    if |spans| > 1 {
      hide AreHulls, Step;
      var init, s := spans[..|spans| - 1], spans[|spans| - 1];
      assert spans == init + [s];
      MergeIsHulls(init);
      MergeLast(init);
      StepHulls(init, Merge(init), s);
    }
  }

  // ----- hulls are unique

  /** Nothing is glued across the edges of a hull. */
  lemma HullEdges(hulls: seq<Span>, k: nat)
    requires Disjoint(hulls) && k < |hulls|
    ensures !Bridges(hulls, hulls[k].start) && !Bridges(hulls, hulls[k].end)
  {
    forall t | t in hulls
      ensures !(t.start < hulls[k].start < t.end) && !(t.start < hulls[k].end < t.end)
    {
      var j :| 0 <= j < |hulls| && hulls[j] == t;
      assert NonEmpty(hulls[k]);
    }
  }

  lemma FirstHull(xs: seq<Span>, ys: seq<Span>)
    requires Disjoint(xs) && Disjoint(ys) && SameUnion(xs, ys)
    requires xs != [] && ys != []
    ensures xs[0].start >= ys[0].start
    ensures xs[0].start == ys[0].start ==> xs[0].end >= ys[0].end
  {
    var x, y := xs[0], ys[0];
    assert x in xs && y in ys;
    assert Covers(xs, x.start);
    assert Covers(ys, x.start);
    var t :| t in ys && t.start <= x.start < t.end;
    var j :| 0 <= j < |ys| && ys[j] == t;
    assert y.start <= t.start;
    HullEdges(xs, 0);
    assert x.start == y.start && x.end < y.end ==> Bridges(ys, x.end);
  }

  lemma TailUnion(xs: seq<Span>, p: int)
    requires xs != [] && Disjoint(xs)
    ensures Covers(xs[1..], p) <==> Covers(xs, p) && xs[0].end <= p
    ensures Bridges(xs[1..], p) <==> Bridges(xs, p) && xs[0].end < p
  {
    assert forall t :: t in xs <==> t == xs[0] || t in xs[1..];
    forall t | t in xs[1..]
      ensures xs[0].end <= t.start
    {
      var k :| 0 <= k < |xs[1..]| && xs[1..][k] == t;
      assert xs[k + 1] == t;
    }
  }

  lemma EmptyUnion(ys: seq<Span>)
    requires Disjoint(ys) && SameUnion([], ys)
    ensures ys == []
  {
    assert ys != [] ==> ys[0] in ys && Covers(ys, ys[0].start);
  }

  lemma SameFirst(xs: seq<Span>, ys: seq<Span>)
    requires Disjoint(xs) && Disjoint(ys) && SameUnion(xs, ys) && xs != []
    ensures ys != [] && xs[0] == ys[0]
  {
    assert xs[0] in xs;
    assert Covers(xs, xs[0].start);
    assert Covers(ys, xs[0].start);
    hide Covers, Bridges;
    FirstHull(xs, ys);
    FirstHull(ys, xs);
  }

  lemma TailsSameUnion(xs: seq<Span>, ys: seq<Span>)
    requires Disjoint(xs) && Disjoint(ys) && SameUnion(xs, ys)
    requires xs != [] && ys != [] && xs[0] == ys[0]
    ensures Disjoint(xs[1..]) && Disjoint(ys[1..]) && SameUnion(xs[1..], ys[1..])
  {
    hide Covers, Bridges;
    forall p: int
      ensures Covers(xs[1..], p) <==> Covers(ys[1..], p)
      ensures Bridges(xs[1..], p) <==> Bridges(ys[1..], p)
    {
      TailUnion(xs, p);
      TailUnion(ys, p);
    }
  }

  /** Two disjoint lists with the same union are the same list. */
  lemma {:induction false} HullsUnique(xs: seq<Span>, ys: seq<Span>)
    requires Disjoint(xs) && Disjoint(ys) && SameUnion(xs, ys)
    ensures xs == ys
    decreases |xs|
  {
    hide Disjoint, SameUnion;
    if xs == [] {
      EmptyUnion(ys);
    } else {
      SameFirst(xs, ys);
      TailsSameUnion(xs, ys);
      HullsUnique(xs[1..], ys[1..]);
      assert xs == [xs[0]] + xs[1..] && ys == [ys[0]] + ys[1..];
    }
  }

  lemma SameSpansSameUnion(xs: seq<Span>, ys: seq<Span>)
    requires SameSpans(xs, ys)
    ensures SameUnion(xs, ys)
  {
  }

  /**
   The merge of a sorted list depends only on which spans it holds: not on how ties
   between equal starts were broken, nor on how often a span was collected.
   */
  lemma MergeOrderIndependent(xs: seq<Span>, ys: seq<Span>)
    requires SortedByStart(xs) && SortedByStart(ys)
    requires AllNonEmpty(xs) && SameSpans(xs, ys)
    ensures Merge(xs) == Merge(ys)
  {
    MergeIsHulls(xs);
    MergeIsHulls(ys);
    SameSpansSameUnion(xs, ys);
    forall p: int
      ensures Covers(Merge(xs), p) <==> Covers(Merge(ys), p)
      ensures Bridges(Merge(xs), p) <==> Bridges(Merge(ys), p)
    {
      assert Covers(xs, p) <==> Covers(ys, p);
      assert Bridges(xs, p) <==> Bridges(ys, p);
    }
    HullsUnique(Merge(xs), Merge(ys));
  }

  // ----- hulls are the connected components of "overlaps"

  /** A walk through `spans` in which each span overlaps the next. */
  ghost predicate Chain(spans: seq<Span>, path: seq<Span>) {
    && path != []
    && (forall i :: 0 <= i < |path| ==> path[i] in spans)
    && forall i :: 0 <= i < |path| - 1 ==> Overlap(path[i], path[i + 1])
  }

  ghost predicate Linked(spans: seq<Span>, a: Span, b: Span) {
    exists path :: Chain(spans, path) && path[0] == a && path[|path| - 1] == b
  }

  /** A span that meets the union lies inside any hull it shares a byte with. */
  lemma WithinHull(spans: seq<Span>, hulls: seq<Span>, s: Span, k: nat, p: int)
    requires AreHulls(spans, hulls) && s in spans && k < |hulls|
    requires s.start <= p < s.end && hulls[k].start <= p < hulls[k].end
    ensures Within(s, hulls[k])
  {
    var h := hulls[k];
    HullEdges(hulls, k);
    assert s.start < h.start ==> Bridges(spans, h.start);
    assert h.end < s.end ==> Bridges(spans, h.end);
  }

  /** Every collected span lies inside exactly one hull. */
  lemma InExactlyOneHull(spans: seq<Span>, hulls: seq<Span>, s: Span) returns (k: nat)
    requires AreHulls(spans, hulls) && AllNonEmpty(spans) && s in spans
    ensures k < |hulls| && Within(s, hulls[k])
    ensures forall j :: 0 <= j < |hulls| && Within(s, hulls[j]) ==> j == k
  {
    assert Covers(spans, s.start);
    assert Covers(hulls, s.start);
    var h :| h in hulls && h.start <= s.start < h.end;
    k :| 0 <= k < |hulls| && hulls[k] == h;
    WithinHull(spans, hulls, s, k, s.start);
    forall j | 0 <= j < |hulls| && Within(s, hulls[j])
      ensures j == k
    {
      assert hulls[j].start <= s.start < hulls[j].end;
    }
  }

  /** A hull starts where one of its spans starts and ends where one of them ends. */
  lemma HullIsTight(spans: seq<Span>, hulls: seq<Span>, k: nat) returns (first: Span, last: Span)
    requires AreHulls(spans, hulls) && k < |hulls|
    ensures first in spans && Within(first, hulls[k]) && first.start == hulls[k].start
    ensures last in spans && Within(last, hulls[k]) && last.end == hulls[k].end
  {
    var h := hulls[k];
    assert h in hulls;
    assert Covers(hulls, h.start) && Covers(hulls, h.end - 1);
    assert Covers(spans, h.start) && Covers(spans, h.end - 1);
    first :| first in spans && first.start <= h.start < first.end;
    WithinHull(spans, hulls, first, k, h.start);
    last :| last in spans && last.start <= h.end - 1 < last.end;
    WithinHull(spans, hulls, last, k, h.end - 1);
  }

  lemma {:induction false} ChainStaysInside(spans: seq<Span>, hulls: seq<Span>, path: seq<Span>, k: nat)
    requires AreHulls(spans, hulls) && AllNonEmpty(spans) && k < |hulls|
    requires Chain(spans, path) && Within(path[0], hulls[k])
    ensures Within(path[|path| - 1], hulls[k])
    decreases |path|
  {
    if |path| > 1 {
      var a, b := path[0], path[1];
      assert Overlap(a, b);
      WithinHull(spans, hulls, b, k, Max(a.start, b.start));
      var rest := path[1..];
      forall i | 0 <= i < |rest| - 1
        ensures Overlap(rest[i], rest[i + 1])
      {
        assert Overlap(path[i + 1], path[i + 2]);
      }
      ChainStaysInside(spans, hulls, rest, k);
    }
  }

  /** Two spans of one hull are joined by a chain: walk right, bridging each gap. */
  lemma {:induction false} HullIsLinked(spans: seq<Span>, hulls: seq<Span>, a: Span, b: Span, k: nat)
    returns (path: seq<Span>)
    requires AreHulls(spans, hulls) && AllNonEmpty(spans) && k < |hulls|
    requires a in spans && b in spans && Within(a, hulls[k]) && Within(b, hulls[k])
    requires a.start <= b.start || a.start < b.end
    ensures Chain(spans, path) && path[0] == a && path[|path| - 1] == b
    decreases if a.end <= b.start then b.start - a.end + 1 else 0
  {
    if b.start < a.end {
      path := [a, b];
    } else {
      assert hulls[k] in hulls;
      assert Bridges(hulls, a.end);
      assert Bridges(spans, a.end);
      var s :| s in spans && s.start < a.end < s.end;
      WithinHull(spans, hulls, s, k, a.end - 1);
      path := HullIsLinked(spans, hulls, s, b, k);
      path := [a] + path;
    }
  }

  lemma ReverseChain(spans: seq<Span>, path: seq<Span>) returns (back: seq<Span>)
    requires Chain(spans, path)
    ensures Chain(spans, back) && back[0] == path[|path| - 1] && back[|back| - 1] == path[0]
  {
    back := seq(|path|, i requires 0 <= i < |path| => path[|path| - 1 - i]);
    forall i | 0 <= i < |back| - 1
      ensures Overlap(back[i], back[i + 1])
    {
      var j := |path| - 2 - i;
      assert Overlap(path[j], path[j + 1]);
    }
  }

  /**
   Two collected spans end up in the same hull exactly when a chain of overlapping
   collected spans joins them.
   */
  lemma SameHullIffLinked(spans: seq<Span>, hulls: seq<Span>, a: Span, b: Span)
    requires AreHulls(spans, hulls) && AllNonEmpty(spans) && a in spans && b in spans
    ensures (exists h :: h in hulls && Within(a, h) && Within(b, h)) <==> Linked(spans, a, b)
  {
    if Linked(spans, a, b) {
      var path :| Chain(spans, path) && path[0] == a && path[|path| - 1] == b;
      var k := InExactlyOneHull(spans, hulls, a);
      ChainStaysInside(spans, hulls, path, k);
      assert hulls[k] in hulls;
    }
    if h :| h in hulls && Within(a, h) && Within(b, h) {
      var k :| 0 <= k < |hulls| && hulls[k] == h;
      if a.start <= b.start {
        var path := HullIsLinked(spans, hulls, a, b, k);
        assert Linked(spans, a, b);
      } else {
        var path := HullIsLinked(spans, hulls, b, a, k);
        var back := ReverseChain(spans, path);
        assert Linked(spans, a, b);
      }
    }
  }
}
