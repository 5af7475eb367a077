/**
  `process_markdown_link_citations`: every `([Name](URL))` citation becomes
  a footnote marker `[^N]`, where N numbers the distinct matched texts in
  order of first appearance, and the distinct citations are returned as
  records sorted by N.

  The specification functions (`Replacements`, `Records`, `Rewrite`) say
  what the result is; `ProcessMarkdownLinkCitations` is the imperative
  procedure (a dictionary with a counter, then a back-to-front splice of a
  character list), proved to compute it.
 */
module Citations {
  import opened Text
  import opened CitationPattern

  /** One entry of the returned list: footnote number, stripped name, stripped URL. */
  datatype Citation = Citation(index: nat, name: string, url: string)

  /** One entry of `match_data`: the span `[effectiveStart, end)` and the marker that replaces it. */
  datatype Replacement = Replacement(effectiveStart: nat, end: nat, marker: string)

  // ----- Generic facts about first-appearance order (a Python dict's key order) -----

  predicate Distinct<T(==)>(xs: seq<T>) {
    forall a, b :: 0 <= a < b < |xs| ==> xs[a] != xs[b]
  }

  function Elements<T>(xs: seq<T>): set<T> {
    set t | t in xs
  }

  /** The keys a dict ends up with when `xs` is inserted in order: each value once, first appearance first. */
  function FirstSeen<T(==,!new)>(xs: seq<T>): (ks: seq<T>)
    ensures forall t :: t in ks <==> t in xs
  {
    if xs == [] then []
    else
      var init := xs[..|xs| - 1];
      assert xs == init + [xs[|xs| - 1]];
      var d := FirstSeen(init);
      if xs[|xs| - 1] in d then d else d + [xs[|xs| - 1]]
  }

  /** Each value is a key once. */
  lemma {:induction false} FirstSeenDistinct<T(!new)>(xs: seq<T>)
    ensures Distinct(FirstSeen(xs))
  {
    if xs != [] {
      var init := xs[..|xs| - 1];
      FirstSeenDistinct(init);
    }
  }

  /** The position of the first occurrence of `t` in `xs`. */
  function IndexOf<T(==)>(xs: seq<T>, t: T): (r: nat)
    requires t in xs
    ensures r < |xs| && xs[r] == t && t !in xs[..r]
  {
    if xs[0] == t then 0
    else
      var r := 1 + IndexOf(xs[1..], t);
      assert xs[..r] == [xs[0]] + xs[1..][..r - 1];
      r
  }

  lemma IndexOfUnique<T>(xs: seq<T>, t: T, r: nat)
    requires r < |xs| && xs[r] == t && t !in xs[..r]
    ensures IndexOf(xs, t) == r
  {
  }

  /** Appending never moves the first occurrence of a value already present. */
  lemma IndexOfAppend<T>(xs: seq<T>, ys: seq<T>, t: T)
    requires t in xs
    ensures IndexOf(xs + ys, t) == IndexOf(xs, t)
  {
    var r := IndexOf(xs, t);
    assert (xs + ys)[..r] == xs[..r];
    IndexOfUnique(xs + ys, t, r);
  }

  /** A sequence without repetitions has as many distinct elements as entries. */
  lemma {:induction false} DistinctCard<T>(ks: seq<T>)
    requires Distinct(ks)
    ensures |Elements(ks)| == |ks|
  {
    if ks != [] {
      var init := ks[..|ks| - 1];
      var last := ks[|ks| - 1];
      assert ks == init + [last];
      assert Elements(ks) == Elements(init) + {last};
      assert last !in Elements(init);
      DistinctCard(init);
    }
  }

  /** Keys are ranked by where their first occurrence lies. */
  lemma {:induction false} FirstSeenOrder<T(!new)>(xs: seq<T>, x: T, y: T)
    requires x in xs && y in xs
    ensures IndexOf(FirstSeen(xs), x) < IndexOf(FirstSeen(xs), y) <==> IndexOf(xs, x) < IndexOf(xs, y)
  {
    var init := xs[..|xs| - 1];
    var last := xs[|xs| - 1];
    assert xs == init + [last];
    var d := FirstSeen(init);
    if x in init && y in init {
      FirstSeenOrder(init, x, y);
      IndexOfAppend(init, [last], x);
      IndexOfAppend(init, [last], y);
      if last !in d {
        IndexOfAppend(d, [last], x);
        IndexOfAppend(d, [last], y);
      }
    } else if x in init {
      // y occurs only as the last element, first appearing after x
      assert y == last && y !in init;
      IndexOfAppend(init, [last], x);
      IndexOfUnique(xs, y, |init|);
      IndexOfAppend(d, [last], x);
      IndexOfUnique(d + [last], y, |d|);
    } else if y in init {
      assert x == last && x !in init;
      IndexOfAppend(init, [last], y);
      IndexOfUnique(xs, x, |init|);
      IndexOfAppend(d, [last], y);
      IndexOfUnique(d + [last], x, |d|);
    }
  }

  /** Appending a value never changes the rank of an earlier entry. */
  lemma RankSnoc<T(!new)>(xs: seq<T>, t: T, k: nat)
    requires k < |xs|
    ensures Rank(xs + [t], k) == Rank(xs, k)
  {
    var ys := xs + [t];
    assert ys[..|xs|] == xs && ys[k] == xs[k];
    var keys := FirstSeen(xs);
    IndexOfAppend(keys, if t in keys then [] else [t], xs[k]);
    assert FirstSeen(ys) == keys + (if t in keys then [] else [t]);
  }

  // ----- The pieces of one match -----

  ghost predicate AllCitations(s: string, ms: seq<Match>) {
    forall k :: 0 <= k < |ms| ==> IsCitationAt(s, ms[k])
  }

  /** `match.group(0)`: the verbatim matched text, which is the deduplication key. */
  function MatchText(s: string, m: Match): (r: string)
    requires IsCitationAt(s, m)
    ensures |r| == m.end - m.start && r[..2] == "([" && r[|r| - 2..] == "))"
  {
    s[m.start..m.end]
  }

  /** `match.group(1).strip()`: the name's characters, no `]`, no whitespace at either end. */
  function SourceName(s: string, m: Match): (r: string)
    requires IsCitationAt(s, m)
    ensures forall c :: c in r ==> c in s[m.start + 2..m.nameEnd]
    ensures ']' !in r
    ensures r == [] || (!IsSpace(r[0]) && !IsSpace(r[|r| - 1]))
  {
    var group := s[m.start + 2..m.nameEnd];
    assert forall i :: 0 <= i < |group| ==> group[i] == s[m.start + 2 + i];
    StripSlice(group);
    StripEnds(group);
    Strip(group)
  }

  /** `match.group(2).strip()`: the URL's characters, no line break, no whitespace at either end. */
  function SourceUrl(s: string, m: Match): (r: string)
    requires IsCitationAt(s, m)
    ensures forall c :: c in r ==> c in s[m.nameEnd + 2..m.urlEnd]
    ensures '\n' !in r
    ensures r == [] || (!IsSpace(r[0]) && !IsSpace(r[|r| - 1]))
  {
    var group := s[m.nameEnd + 2..m.urlEnd];
    assert forall i :: 0 <= i < |group| ==> group[i] == s[m.nameEnd + 2 + i];
    StripSlice(group);
    StripEnds(group);
    Strip(group)
  }

  /** The footnote marker `[^N]`. */
  function Marker(index: nat): (r: string)
    ensures |r| >= 4 && r[..2] == "[^" && r[|r| - 1] == ']'
    ensures IsDigits(r[2..|r| - 1]) && DecimalValue(r[2..|r| - 1]) == index
  {
    var digits := Decimal(index);
    DecimalRoundTrip(index);
    var r := "[^" + digits + "]";
    assert r[2..|r| - 1] == digits;
    r
  }

  /** Two markers are equal only when their numbers are. */
  lemma MarkerInjective(a: nat, b: nat)
    ensures Marker(a) == Marker(b) <==> a == b
  {
    if Marker(a) == Marker(b) {
      assert Decimal(a) == Marker(a)[2..|Marker(a)| - 1];
      assert Decimal(b) == Marker(b)[2..|Marker(b)| - 1];
      DecimalInjective(a, b);
    }
  }

  /**
    Where the replacement of a match starting at `start` begins: one
    position earlier when a space sits between a word character and the
    citation, so that the space disappears with it.
   */
  function EffectiveStart(s: string, start: nat): (e: nat)
    requires start <= |s|
    ensures e == start || e + 1 == start
    ensures e < start <==> start > 1 && IsSpace(s[start - 1]) && IsAlnum(s[start - 2])
  {
    if start > 0 && IsSpace(s[start - 1]) && start > 1 && IsAlnum(s[start - 2]) then start - 1 else start
  }

  /** A match that directly follows another ends in `)`, so its effective start never reaches back into it. */
  lemma EffectiveStartAfterPrevious(s: string, prev: Match, m: Match)
    requires IsCitationAt(s, prev) && IsCitationAt(s, m) && prev.end <= m.start
    ensures prev.end <= EffectiveStart(s, m.start) < m.end
  {
    if prev.end == m.start {
      assert s[m.start - 1] == ')';
    }
  }

  // ----- The specification of the result -----

  /** The matched texts, in match order. */
  function Texts(s: string, ms: seq<Match>): seq<string>
    requires AllCitations(s, ms)
  {
    seq(|ms|, k requires 0 <= k < |ms| => MatchText(s, ms[k]))
  }

  /** The rank of `xs[k]` among the distinct values of `xs` in order of first appearance, counted from 1. */
  function Rank<T(==,!new)>(xs: seq<T>, k: nat): nat
    requires k < |xs|
  {
    IndexOf(FirstSeen(xs), xs[k]) + 1
  }

  /** The footnote number of occurrence `k`: the rank of its text. */
  function OccurrenceIndex(s: string, ms: seq<Match>, k: nat): nat
    requires AllCitations(s, ms) && k < |ms|
  {
    Rank(Texts(s, ms), k)
  }

  /** The marker of each occurrence, in match order. */
  function Markers(s: string, ms: seq<Match>): (markers: seq<string>)
    requires AllCitations(s, ms)
    ensures |markers| == |ms|
  {
    seq(|ms|, k requires 0 <= k < |ms| => Marker(OccurrenceIndex(s, ms, k)))
  }

  /** Each occurrence's effective span, paired with the given marker. */
  function Spans(s: string, ms: seq<Match>, markers: seq<string>): (reps: seq<Replacement>)
    requires AllCitations(s, ms) && |markers| == |ms|
    ensures |reps| == |ms|
  {
    seq(|ms|, k requires 0 <= k < |ms| => Replacement(EffectiveStart(s, ms[k].start), ms[k].end, markers[k]))
  }

  /** `match_data` in match order: each occurrence's effective span and marker. */
  function Replacements(s: string, ms: seq<Match>): seq<Replacement>
    requires AllCitations(s, ms)
  {
    Spans(s, ms, Markers(s, ms))
  }

  /** The stripped name and URL of each occurrence, in match order. */
  function Sources(s: string, ms: seq<Match>): (srcs: seq<(string, string)>)
    requires AllCitations(s, ms)
    ensures |srcs| == |ms|
  {
    seq(|ms|, k requires 0 <= k < |ms| => (SourceName(s, ms[k]), SourceUrl(s, ms[k])))
  }

  /**
    `citations_found` after the loop has seen the first `n` keys: a key
    not seen before gets the next number and the name and URL of this
    occurrence; a repeated key changes nothing. `FirstRecordsEntry`
    states the result without the loop.
   */
  function FirstRecords<T(==)>(keys: seq<T>, srcs: seq<(string, string)>, n: nat): seq<Citation>
    requires |keys| == |srcs| && n <= |keys|
  {
    if n == 0 then []
    else
      var prev := FirstRecords(keys, srcs, n - 1);
      if keys[n - 1] in keys[..n - 1] then prev
      else prev + [Citation(|prev| + 1, srcs[n - 1].0, srcs[n - 1].1)]
  }

  /** One more key: a new one is appended with the next number and its own name and URL. */
  lemma FirstRecordsSnoc<T>(keys: seq<T>, srcs: seq<(string, string)>, n: nat)
    requires |keys| == |srcs| && n < |keys|
    ensures FirstRecords(keys, srcs, n + 1)
      == if keys[n] in keys[..n] then FirstRecords(keys, srcs, n)
         else FirstRecords(keys, srcs, n) + [Citation(|FirstRecords(keys, srcs, n)| + 1, srcs[n].0, srcs[n].1)]
  {
  }

  /** `citations_found` after the loop has seen the first `n` matches. */
  function RecordsUpTo(s: string, ms: seq<Match>, n: nat): seq<Citation>
    requires AllCitations(s, ms) && n <= |ms|
  {
    FirstRecords(Texts(s, ms), Sources(s, ms), n)
  }

  /** The records for all the matches. */
  function Records(s: string, ms: seq<Match>): seq<Citation>
    requires AllCitations(s, ms)
  {
    RecordsUpTo(s, ms, |ms|)
  }

  /** Spans inside a text of length `n`, each ending no later than any later one begins. */
  predicate Ordered(reps: seq<Replacement>, n: nat) {
    && (forall k :: 0 <= k < |reps| ==> reps[k].effectiveStart <= reps[k].end <= n)
    && (forall a, b :: 0 <= a < b < |reps| ==> reps[a].end <= reps[b].effectiveStart)
  }

  function FirstStart(reps: seq<Replacement>, n: nat): nat {
    if reps == [] then n else reps[0].effectiveStart
  }

  /** The rewritten text built left to right: each untouched gap of `s`, then the marker replacing the next span. */
  function Rewrite(s: string, reps: seq<Replacement>, from: nat): string
    requires Ordered(reps, |s|) && from <= FirstStart(reps, |s|)
    decreases |reps|
  {
    if reps == [] then s[from..]
    else s[from..reps[0].effectiveStart] + reps[0].marker + Rewrite(s, reps[1..], reps[0].end)
  }

  /** The first result of `process_markdown_link_citations`. */
  function RewrittenText(s: string): string {
    var ms := FindAll(s, 0);
    ReplacementsOrdered(s, ms);
    Rewrite(s, Replacements(s, ms), 0)
  }

  /** The second result of `process_markdown_link_citations`. */
  function CitationRecords(s: string): seq<Citation> {
    Records(s, FindAll(s, 0))
  }

  // ----- Non-overlap of the replaced spans -----

  /** The effective spans of a scan's matches lie in order and never overlap. */
  lemma SpansOrdered(s: string, ms: seq<Match>, markers: seq<string>)
    requires Scanned(s, 0, ms) && |markers| == |ms|
    ensures Ordered(Spans(s, ms, markers), |s|)
    ensures forall k :: 0 <= k < |ms| ==> Spans(s, ms, markers)[k].effectiveStart < Spans(s, ms, markers)[k].end
  {
    var reps := Spans(s, ms, markers);
    forall a, b | 0 <= a < b < |reps|
      ensures reps[a].end <= reps[b].effectiveStart
    {
      EffectiveStartAfterPrevious(s, ms[b - 1], ms[b]);
      if a < b - 1 {
        ScannedPairwise(s, 0, ms, a, b - 1);
      }
    }
  }

  function Reversed<T>(xs: seq<T>): (r: seq<T>)
    ensures |r| == |xs|
  {
    seq(|xs|, i requires 0 <= i < |xs| => xs[|xs| - 1 - i])
  }

  /**
    Non-empty ordered spans have strictly increasing effective starts, so
    the only arrangement sorted by descending effective start is the reverse
    of match order: that is what `match_data.sort(..., reverse=True)` yields.
   */
  lemma ReversedIsDescending(reps: seq<Replacement>, n: nat)
    requires Ordered(reps, n)
    requires forall k :: 0 <= k < |reps| ==> reps[k].effectiveStart < reps[k].end
    ensures Descending(Reversed(reps))
  {
    var r := Reversed(reps);
    forall a, b | 0 <= a < b < |reps|
      ensures r[a].effectiveStart > r[b].effectiveStart
    {
      assert reps[|reps| - 1 - b].end <= reps[|reps| - 1 - a].effectiveStart;
    }
  }

  /** Sorted by strictly decreasing effective start. */
  predicate Descending(reps: seq<Replacement>) {
    forall a, b :: 0 <= a < b < |reps| ==> reps[a].effectiveStart > reps[b].effectiveStart
  }

  /** Reversing rearranges the entries and keeps each of them. */
  lemma {:induction false} ReversedMultiset<T>(xs: seq<T>)
    ensures multiset(Reversed(xs)) == multiset(xs)
  {
    if xs != [] {
      var init := xs[..|xs| - 1];
      ReversedMultiset(init);
      assert Reversed(xs) == [xs[|xs| - 1]] + Reversed(init);
      assert xs == init + [xs[|xs| - 1]];
    }
  }

  lemma MultisetCancel<T>(x: T, p: multiset<T>, q: multiset<T>)
    requires multiset{x} + p == multiset{x} + q
    ensures p == q
  {
    forall y ensures p[y] == q[y] {
      assert (multiset{x} + p)[y] == (multiset{x} + q)[y];
    }
  }

  lemma DescendingTail(reps: seq<Replacement>)
    requires Descending(reps) && reps != []
    ensures Descending(reps[1..])
  {
    forall a, b | 0 <= a < b < |reps| - 1
      ensures reps[1..][a].effectiveStart > reps[1..][b].effectiveStart
    {
      assert reps[1..][a] == reps[a + 1] && reps[1..][b] == reps[b + 1];
    }
  }

  /** Two strictly descending arrangements of the same entries are the same sequence. */
  lemma {:induction false} DescendingUnique(a: seq<Replacement>, b: seq<Replacement>)
    requires multiset(a) == multiset(b) && Descending(a) && Descending(b)
    ensures a == b
    decreases |a|
  {
    if a == [] {
      assert |b| == |multiset(b)| == 0;
    } else {
      assert a[0] in multiset(b);
      var j :| 0 <= j < |b| && b[j] == a[0];
      assert b[0] in multiset(a);
      var i :| 0 <= i < |a| && a[i] == b[0];
      if j > 0 {
        assert false;
      }
      assert b[0] == a[0];
      assert a == [a[0]] + a[1..] && b == [b[0]] + b[1..];
      assert multiset(a) == multiset{a[0]} + multiset(a[1..]);
      assert multiset(b) == multiset{a[0]} + multiset(b[1..]);
      MultisetCancel(a[0], multiset(a[1..]), multiset(b[1..]));
      DescendingTail(a);
      DescendingTail(b);
      DescendingUnique(a[1..], b[1..]);
    }
  }

  /**
    Whatever order `match_data.sort(key=effective_start, reverse=True)`
    returns, it holds the same entries strictly descending by effective
    start; for the spans of a scan that can only be their reverse.
   */
  lemma SortIsReversal(reps: seq<Replacement>, n: nat, sorted: seq<Replacement>)
    requires Ordered(reps, n)
    requires forall k :: 0 <= k < |reps| ==> reps[k].effectiveStart < reps[k].end
    requires multiset(sorted) == multiset(reps) && Descending(sorted)
    ensures sorted == Reversed(reps)
  {
    ReversedIsDescending(reps, n);
    ReversedMultiset(reps);
    DescendingUnique(sorted, Reversed(reps));
  }

  lemma OrderedSuffix(reps: seq<Replacement>, n: nat, k: nat)
    requires Ordered(reps, n) && k <= |reps|
    ensures Ordered(reps[k..], n)
    ensures k < |reps| ==> reps[k..][1..] == reps[k + 1..]
  {
  }

  lemma ReplacementsOrdered(s: string, ms: seq<Match>)
    requires Scanned(s, 0, ms)
    ensures Ordered(Replacements(s, ms), |s|)
    ensures forall k :: 0 <= k < |ms| ==> Replacements(s, ms)[k].effectiveStart < Replacements(s, ms)[k].end
  {
    SpansOrdered(s, ms, Markers(s, ms));
  }

  /** Splitting a slice at `b` and regrouping the concatenation. */
  lemma SliceRegroup<T>(s: seq<T>, a: nat, b: nat, e: nat, m: seq<T>, w: seq<T>)
    requires a <= b <= e <= |s|
    ensures s[a..e] + m + w == s[a..b] + (s[b..e] + m + w)
  {
    assert s[a..e] == s[a..b] + s[b..e];
  }

  /** After the first span, the remaining spans are ordered and start after it ends. */
  lemma OrderedRest(reps: seq<Replacement>, n: nat)
    requires |reps| > 0 && Ordered(reps, n)
    ensures Ordered(reps[1..], n) && reps[0].end <= FirstStart(reps[1..], n)
  {
  }

  /** Moving the start of the first gap only moves text from the gap into the prefix. */
  lemma RewriteShift(s: string, reps: seq<Replacement>, a: nat, b: nat)
    requires Ordered(reps, |s|) && a <= b <= FirstStart(reps, |s|)
    ensures Rewrite(s, reps, a) == s[a..b] + Rewrite(s, reps, b)
  {
    if reps == [] {
      assert s[a..] == s[a..b] + s[b..];
    } else {
      OrderedRest(reps, |s|);
      SliceRegroup(s, a, b, reps[0].effectiveStart, reps[0].marker, Rewrite(s, reps[1..], reps[0].end));
    }
  }

  lemma RewriteCons(s: string, reps: seq<Replacement>)
    requires |reps| > 0 && Ordered(reps, |s|)
    ensures Ordered(reps[1..], |s|) && reps[0].end <= FirstStart(reps[1..], |s|)
    ensures Rewrite(s, reps, reps[0].effectiveStart) == reps[0].marker + Rewrite(s, reps[1..], reps[0].end)
  {
    OrderedRest(reps, |s|);
    var e, m := reps[0].effectiveStart, reps[0].marker;
    var w := Rewrite(s, reps[1..], reps[0].end);
    assert Rewrite(s, reps, e) == s[e..e] + m + w;
    assert s[e..e] + m == m;
  }

  lemma SpliceAlgebra(s: string, w: string, m: string, c: nat, e: nat, f: nat)
    requires e <= f <= c <= |s|
    ensures (s[..c] + w)[..e] + m + (s[..c] + w)[f..] == s[..e] + (m + (s[f..c] + w))
  {
    var p := s[..c] + w;
    assert p[..e] == s[..e];
    assert p[f..] == s[f..c] + w;
  }

  /**
    The text once the spans from `k` on have been spliced in, back to
    front: `s` up to where span `k` starts, then the rewrite of the rest.
   */
  function SplicedFrom(s: string, reps: seq<Replacement>, k: nat): string
    requires Ordered(reps, |s|) && k <= |reps|
  {
    OrderedSuffix(reps, |s|, k);
    var c := FirstStart(reps[k..], |s|);
    s[..c] + Rewrite(s, reps[k..], c)
  }

  /**
    One step of the back-to-front splice: once the spans from `k` on are
    replaced, splicing span `k - 1` into the list gives the text with the
    spans from `k - 1` on replaced. Its offsets are still those of `s`,
    because everything changed so far lies after it.
   */
  lemma SpliceStep(s: string, reps: seq<Replacement>, k: nat)
    requires Ordered(reps, |s|) && 0 < k <= |reps|
    ensures
      var p := SplicedFrom(s, reps, k);
      var r := reps[k - 1];
      && r.effectiveStart <= r.end <= |p|
      && p[..r.effectiveStart] + r.marker + p[r.end..] == SplicedFrom(s, reps, k - 1)
  {
    OrderedSuffix(reps, |s|, k - 1);
    OrderedSuffix(reps, |s|, k);
    var c := FirstStart(reps[k..], |s|);
    var r := reps[k - 1];
    assert reps[k - 1..][0] == r;
    assert reps[k - 1..][1..] == reps[k..];
    RewriteCons(s, reps[k - 1..]);
    RewriteShift(s, reps[k..], r.end, c);
    SpliceAlgebra(s, Rewrite(s, reps[k..], c), r.marker, c, r.effectiveStart, r.end);
  }

  /** With every span spliced in, the text is the left-to-right rewrite. */
  lemma SplicedAll(s: string, reps: seq<Replacement>)
    requires Ordered(reps, |s|)
    ensures SplicedFrom(s, reps, 0) == Rewrite(s, reps, 0)
  {
    assert reps[0..] == reps;
    RewriteShift(s, reps, 0, FirstStart(reps, |s|));
  }

  // ----- Prefixes -----

  /**
    The state of `citations_found`: the dict `found` holds exactly the keys
    of `order`, in that insertion order, and the entry of key `j` is
    `recs[j]`, numbered `j + 1`.
   */
  ghost predicate Table<K(!new)>(found: map<K, Citation>, order: seq<K>, recs: seq<Citation>) {
    && |order| == |recs|
    && (forall t :: t in found <==> t in order)
    && (forall j :: 0 <= j < |order| ==> order[j] in found && found[order[j]] == recs[j])
    && (forall j :: 0 <= j < |recs| ==> recs[j].index == j + 1)
  }

  /** Inserting a new key with the next number keeps the table in shape. */
  lemma TableInsert<K(!new)>(found: map<K, Citation>, order: seq<K>, recs: seq<Citation>, k: K, c: Citation)
    requires Table(found, order, recs) && k !in found && c.index == |recs| + 1
    ensures Table(found[k := c], order + [k], recs + [c])
  {
    forall j | 0 <= j < |order| + 1
      ensures found[k := c][(order + [k])[j]] == (recs + [c])[j]
    {
      if j < |order| {
        assert (order + [k])[j] == order[j] != k;
      }
    }
  }

  /** The number stored for a key is its position in insertion order, plus one. */
  lemma TableLookup<K(!new)>(found: map<K, Citation>, order: seq<K>, recs: seq<Citation>, k: K)
    requires Table(found, order, recs) && k in found
    ensures k in order && found[k].index == IndexOf(order, k) + 1
  {
    var j := IndexOf(order, k);
    assert found[order[j]] == recs[j];
  }

  /**
    One turn of the numbering loop, on keys and sources alone: a new key is
    stored with the next number, a repeated key keeps its number, and either
    way the table, the key order and the records stay those of the first
    `i + 1` keys, with the key's number equal to its rank.
   */
  lemma NumberStep<K(!new)>(keys: seq<K>, srcs: seq<(string, string)>, i: nat,
                            found: map<K, Citation>, order: seq<K>, recs: seq<Citation>)
    requires i < |keys| == |srcs|
    requires order == FirstSeen(keys[..i]) && recs == FirstRecords(keys, srcs, i) && Table(found, order, recs)
    ensures keys[i] !in found ==>
      var c := Citation(|order| + 1, srcs[i].0, srcs[i].1);
      && order + [keys[i]] == FirstSeen(keys[..i + 1])
      && recs + [c] == FirstRecords(keys, srcs, i + 1)
      && Table(found[keys[i] := c], order + [keys[i]], recs + [c])
      && Rank(keys[..i + 1], i) == |order| + 1
    ensures keys[i] in found ==>
      && order == FirstSeen(keys[..i + 1])
      && recs == FirstRecords(keys, srcs, i + 1)
      && found[keys[i]].index == Rank(keys[..i + 1], i)
  {
    var k := keys[i];
    FirstSeenSnoc(keys, i);
    PrefixSnoc(keys, i);
    FirstRecordsSnoc(keys, srcs, i);
    assert keys[..i + 1][i] == k;
    if k !in found {
      var c := Citation(|order| + 1, srcs[i].0, srcs[i].1);
      TableInsert(found, order, recs, k, c);
      IndexOfUnique(order + [k], k, |order|);
    } else {
      TableLookup(found, order, recs, k);
    }
  }

  /** The dict's values in insertion order are the records. */
  lemma TableValues<K(!new)>(found: map<K, Citation>, order: seq<K>, recs: seq<Citation>)
    requires Table(found, order, recs)
    ensures seq(|order|, j requires 0 <= j < |order| && order[j] in found => found[order[j]]) == recs
  {
  }

  lemma PrefixSnoc<T>(xs: seq<T>, i: nat)
    requires i < |xs|
    ensures xs[..i + 1] == xs[..i] + [xs[i]]
  {
  }

  /** One more value: the key order grows by it unless it was already there. */
  lemma FirstSeenSnoc<T(!new)>(xs: seq<T>, i: nat)
    requires i < |xs|
    ensures FirstSeen(xs[..i + 1]) == if xs[i] in xs[..i] then FirstSeen(xs[..i]) else FirstSeen(xs[..i]) + [xs[i]]
  {
    assert xs[..i + 1][..i] == xs[..i];
  }

  /** The rank of an entry is already fixed once the entry has been seen. */
  lemma {:induction false} RankPrefix<T(!new)>(xs: seq<T>, k: nat, n: nat)
    requires k < n <= |xs|
    ensures Rank(xs[..n], k) == Rank(xs, k)
    decreases |xs| - n
  {
    if n < |xs| {
      PrefixSnoc(xs, n);
      RankSnoc(xs[..n], xs[n], k);
      RankPrefix(xs, k, n + 1);
    } else {
      assert xs[..n] == xs;
    }
  }

  /** The first occurrence of a value seen in a prefix lies in that prefix. */
  lemma IndexOfPrefix<T>(xs: seq<T>, n: nat, t: T)
    requires n <= |xs| && t in xs[..n]
    ensures IndexOf(xs[..n], t) == IndexOf(xs, t)
  {
    var r := IndexOf(xs[..n], t);
    assert xs[..r] == xs[..n][..r];
    IndexOfUnique(xs, t, r);
  }

  /** The replacement of occurrence `k` carries the marker of its text's number among the first `k + 1` texts. */
  lemma ReplacementAt(s: string, ms: seq<Match>, k: nat)
    requires AllCitations(s, ms) && k < |ms|
    ensures |Replacements(s, ms)| == |ms|
    ensures Replacements(s, ms)[k]
      == Replacement(EffectiveStart(s, ms[k].start), ms[k].end, Marker(Rank(Texts(s, ms)[..k + 1], k)))
  {
    RankPrefix(Texts(s, ms), k, k + 1);
  }

  /** The loop keeps one record per distinct key seen so far. */
  lemma {:induction false} FirstRecordsLength<T(!new)>(keys: seq<T>, srcs: seq<(string, string)>, n: nat)
    requires |keys| == |srcs| && n <= |keys|
    ensures |FirstRecords(keys, srcs, n)| == |FirstSeen(keys[..n])|
  {
    if n > 0 {
      FirstRecordsLength(keys, srcs, n - 1);
      FirstSeenSnoc(keys, n - 1);
    }
  }

  /**
    Record `j` after `n` keys: number `j + 1`, with the name and URL of the
    first occurrence of the `j`-th distinct key.
   */
  lemma {:induction false} FirstRecordsEntry<T(!new)>(keys: seq<T>, srcs: seq<(string, string)>, n: nat, j: nat)
    requires |keys| == |srcs| && n <= |keys| && j < |FirstSeen(keys[..n])|
    ensures |FirstRecords(keys, srcs, n)| == |FirstSeen(keys[..n])|
    ensures var first := srcs[IndexOf(keys[..n], FirstSeen(keys[..n])[j])];
      FirstRecords(keys, srcs, n)[j] == Citation(j + 1, first.0, first.1)
  {
    FirstRecordsLength(keys, srcs, n);
    FirstRecordsLength(keys, srcs, n - 1);
    FirstSeenSnoc(keys, n - 1);
    var seen0, seen := keys[..n - 1], keys[..n];
    assert seen[..n - 1] == seen0;
    var distinct0 := FirstSeen(seen0);
    if j < |distinct0| {
      FirstRecordsEntry(keys, srcs, n - 1, j);
      IndexOfPrefix(seen, n - 1, distinct0[j]);
    } else {
      PrefixSnoc(keys, n - 1);
      IndexOfUnique(seen, keys[n - 1], n - 1);
    }
  }

  /**
    The records without the loop: one per distinct matched text, in order
    of first appearance, numbered 1, 2, ..., each carrying the stripped
    name and URL of its text's first occurrence.
   */
  lemma RecordsFirstOccurrence(s: string, ms: seq<Match>)
    requires AllCitations(s, ms)
    ensures
      var texts := Texts(s, ms);
      var keys := FirstSeen(texts);
      && |Records(s, ms)| == |keys|
      && forall j :: 0 <= j < |keys| ==>
           var first := ms[IndexOf(texts, keys[j])];
           Records(s, ms)[j] == Citation(j + 1, SourceName(s, first), SourceUrl(s, first))
  {
    var texts := Texts(s, ms);
    assert texts[..|ms|] == texts;
    var srcs := Sources(s, ms);
    FirstRecordsLength(texts, srcs, |ms|);
    forall j | 0 <= j < |FirstSeen(texts)|
      ensures var first := ms[IndexOf(texts, FirstSeen(texts)[j])];
        Records(s, ms)[j] == Citation(j + 1, SourceName(s, first), SourceUrl(s, first))
    {
      FirstRecordsEntry(texts, srcs, |ms|, j);
    }
  }

  // ----- What the numbering promises -----

  /** The rank of an entry names a key, and that key is the entry. */
  lemma RankBounds<T(!new)>(xs: seq<T>, k: nat)
    requires k < |xs|
    ensures 1 <= Rank(xs, k) <= |FirstSeen(xs)|
    ensures FirstSeen(xs)[Rank(xs, k) - 1] == xs[k]
  {
  }

  /** Two entries share a rank exactly when they are equal. */
  lemma RankInjective<T(!new)>(xs: seq<T>, a: nat, b: nat)
    requires a < |xs| && b < |xs|
    ensures Rank(xs, a) == Rank(xs, b) <==> xs[a] == xs[b]
  {
    RankBounds(xs, a);
    RankBounds(xs, b);
  }

  /** Every key is the rank of its own first occurrence. */
  lemma RankOnto<T(!new)>(xs: seq<T>, j: nat)
    requires j < |FirstSeen(xs)|
    ensures IndexOf(xs, FirstSeen(xs)[j]) < |xs|
    ensures Rank(xs, IndexOf(xs, FirstSeen(xs)[j])) == j + 1
  {
    var keys := FirstSeen(xs);
    FirstSeenDistinct(xs);
    assert keys[j] !in keys[..j];
    IndexOfUnique(keys, keys[j], j);
  }

  /**
    The number of an occurrence refers to a record: it lies in 1..K for K
    records, and record number `i` carries that number and the name and
    URL of the first occurrence of the same text.
   */
  lemma OccurrenceRecord(s: string, ms: seq<Match>, k: nat)
    requires AllCitations(s, ms) && k < |ms|
    ensures
      var texts := Texts(s, ms);
      var i := OccurrenceIndex(s, ms, k);
      var first := ms[IndexOf(texts, texts[k])];
      && 1 <= i <= |Records(s, ms)|
      && Records(s, ms)[i - 1] == Citation(i, SourceName(s, first), SourceUrl(s, first))
  {
    var texts := Texts(s, ms);
    var i := OccurrenceIndex(s, ms, k);
    RankBounds(texts, k);
    RecordsFirstOccurrence(s, ms);
    assert FirstSeen(texts)[i - 1] == texts[k];
  }

  /** Every record is the target of some occurrence's number: the numbers used are exactly 1..K. */
  lemma RecordReferenced(s: string, ms: seq<Match>, j: nat)
    requires AllCitations(s, ms) && j < |Records(s, ms)|
    ensures exists k :: 0 <= k < |ms| && OccurrenceIndex(s, ms, k) == j + 1
  {
    var texts := Texts(s, ms);
    assert texts[..|ms|] == texts;
    FirstRecordsLength(texts, Sources(s, ms), |ms|);
    RankOnto(texts, j);
    var k := IndexOf(texts, FirstSeen(texts)[j]);
    assert OccurrenceIndex(s, ms, k) == j + 1;
  }

  /** Deduplication is on the verbatim matched text: two occurrences get the same marker exactly when their texts are equal. */
  lemma SameMarkerIffSameText(s: string, ms: seq<Match>, a: nat, b: nat)
    requires AllCitations(s, ms) && a < |ms| && b < |ms|
    ensures Markers(s, ms)[a] == Markers(s, ms)[b] <==> MatchText(s, ms[a]) == MatchText(s, ms[b])
  {
    var texts := Texts(s, ms);
    MarkerInjective(OccurrenceIndex(s, ms, a), OccurrenceIndex(s, ms, b));
    RankInjective(texts, a, b);
    assert texts[a] == MatchText(s, ms[a]) && texts[b] == MatchText(s, ms[b]);
  }

  /** Numbers follow first appearance: a text gets a smaller number exactly when it first appears earlier. */
  lemma NumberingFollowsFirstAppearance(s: string, ms: seq<Match>, a: nat, b: nat)
    requires AllCitations(s, ms) && a < |ms| && b < |ms|
    ensures
      var texts := Texts(s, ms);
      OccurrenceIndex(s, ms, a) < OccurrenceIndex(s, ms, b) <==> IndexOf(texts, texts[a]) < IndexOf(texts, texts[b])
  {
    var texts := Texts(s, ms);
    FirstSeenOrder(texts, texts[a], texts[b]);
  }

  /** Text without a citation comes back unchanged, with no records. */
  lemma NoCitationNoChange(s: string)
    requires forall m :: !IsCitationAt(s, m)
    ensures RewrittenText(s) == s && CitationRecords(s) == []
  {
    FindAllEmpty(s);
    assert Replacements(s, []) == [];
    assert s[0..] == s;
  }

  /** Records exist exactly when the text holds a citation: this is what decides whether the References page is added. */
  lemma CitationRecordsEmpty(s: string)
    ensures CitationRecords(s) == [] <==> forall m :: !IsCitationAt(s, m)
  {
    var ms := FindAll(s, 0);
    FindAllEmpty(s);
    if ms != [] {
      var texts := Texts(s, ms);
      assert texts[..|ms|] == texts;
      FirstRecordsLength(texts, Sources(s, ms), |ms|);
      assert texts[0] in FirstSeen(texts);
    }
  }

  /** There are as many records as distinct matched texts. */
  lemma CitationRecordsCount(s: string)
    ensures |CitationRecords(s)| == |Elements(Texts(s, FindAll(s, 0)))|
  {
    var ms := FindAll(s, 0);
    var texts := Texts(s, ms);
    RecordsFirstOccurrence(s, ms);
    FirstSeenDistinct(texts);
    DistinctCard(FirstSeen(texts));
    assert Elements(FirstSeen(texts)) == Elements(texts);
  }

  // ----- The procedure -----

  /**
    `process_markdown_link_citations(markdown_content)`: the matches of
    `re.finditer`, the numbering loop, then the sorted splice.
   */
  method ProcessMarkdownLinkCitations(content: string) returns (processed: string, citations: seq<Citation>)
    ensures processed == RewrittenText(content)
    ensures citations == CitationRecords(content)
  {
    var matches := FindAll(content, 0);
    var matchData;
    matchData, citations := NumberCitations(content, matches);
    ReplacementsOrdered(content, matches);
    processed := SpliceReplacements(content, matchData);
  }

  /**
    The loop over the matches. `found` and `foundOrder` are the dict
    `citations_found` (its entries and its insertion order), `nextIndex` its
    counter; `matchData` collects each occurrence's span and marker.
   */
  method NumberCitations(content: string, matches: seq<Match>) returns (matchData: seq<Replacement>, citations: seq<Citation>)
    requires AllCitations(content, matches)
    ensures matchData == Replacements(content, matches)
    ensures citations == Records(content, matches)
  {
    var found: map<string, Citation> := map[];
    var foundOrder: seq<string> := [];
    var nextIndex := 1;
    matchData := [];
    ghost var texts := Texts(content, matches);
    ghost var reps := Replacements(content, matches);
    ghost var recs: seq<Citation> := [];

    for i := 0 to |matches|
      invariant foundOrder == FirstSeen(texts[..i])
      invariant recs == RecordsUpTo(content, matches, i)
      invariant |reps| == |matches| && matchData == reps[..i]
      invariant nextIndex == |foundOrder| + 1
      invariant Table(found, foundOrder, recs)
    {
      var m := matches[i];
      var originalMarkdown := MatchText(content, m);
      var sourceName := SourceName(content, m);
      var url := SourceUrl(content, m);
      assert texts[i] == originalMarkdown;
      assert Sources(content, matches)[i] == (sourceName, url);
      NumberStep(texts, Sources(content, matches), i, found, foundOrder, recs);

      var currentIndex: nat;
      if originalMarkdown !in found {
        currentIndex := nextIndex;
        var entry := Citation(currentIndex, sourceName, url);
        found := found[originalMarkdown := entry];
        foundOrder := foundOrder + [originalMarkdown];
        recs := recs + [entry];
        nextIndex := nextIndex + 1;
      } else {
        currentIndex := found[originalMarkdown].index;
      }
      ReplacementAt(content, matches, i);
      PrefixSnoc(reps, i);

      var footnoteMarker := Marker(currentIndex);
      var effectiveStart := EffectiveStart(content, m.start);
      matchData := matchData + [Replacement(effectiveStart, m.end, footnoteMarker)];
    }
    assert reps[..|matches|] == reps;

    // sorted(citations_found.values(), key=index): the values, in insertion
    // order, already carry the indices 1, 2, ..., so sorting keeps them as they are.
    TableValues(found, foundOrder, recs);
    citations := seq(|foundOrder|, j requires 0 <= j < |foundOrder| && foundOrder[j] in found => found[foundOrder[j]]);
  }

  /**
    `match_data.sort(key=effective_start, reverse=True)` and the splice of
    each marker into the character list, last span first. Splicing back to
    front keeps the offsets of the spans still to do valid, so the result is
    the left-to-right assembly `Rewrite`.
   */
  method SpliceReplacements(content: string, matchData: seq<Replacement>) returns (processed: string)
    requires Ordered(matchData, |content|)
    requires forall k :: 0 <= k < |matchData| ==> matchData[k].effectiveStart < matchData[k].end
    ensures processed == Rewrite(content, matchData, 0)
  {
    var n := |matchData|;
    var byStart := Reversed(matchData);
    ReversedIsDescending(matchData, |content|);

    processed := content;
    assert matchData[n..] == [];
    for t := 0 to n
      invariant processed == SplicedFrom(content, matchData, n - t)
    {
      var r := byStart[t];
      assert r == matchData[n - t - 1];
      SpliceStep(content, matchData, n - t);
      processed := processed[..r.effectiveStart] + r.marker + processed[r.end..];
    }
    SplicedAll(content, matchData);
  }
}
