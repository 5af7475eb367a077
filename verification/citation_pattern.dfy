/**
  The citation pattern `\(\[([^\]]+)\]\((.*?)\)\)` and the `re.finditer`
  scan over it, written out as a scanner. The pattern has no real choice
  points: the name is the longest run of characters other than `]` (a
  shorter run would stop before a character that is not `]`), and the lazy
  URL is the shortest newline-free run that is followed by `))`.
 */
module CitationPattern {
  import opened Wrappers
  import opened Text

  /**
    One match: `(` at `start`, `[`, the name up to `nameEnd` (the `]`),
    `(`, the URL up to `urlEnd`, and `))` ending just before `end`.
   */
  datatype Match = Match(start: nat, nameEnd: nat, urlEnd: nat, end: nat)

  /** `))` begins at index `k`. */
  predicate DoubleClose(s: string, k: nat) {
    k + 1 < |s| && s[k] == ')' && s[k + 1] == ')'
  }

  /** No line break in `s[a..b]`: the regex `.` does not match `\n`. */
  predicate NoNewline(s: string, a: nat, b: nat)
    requires a <= b <= |s|
  {
    forall t :: a <= t < b ==> s[t] != '\n'
  }

  /** The pattern, stated declaratively: `m` is a match of it in `s` at `m.start`. */
  ghost predicate IsCitationAt(s: string, m: Match) {
    && m.start + 2 < m.nameEnd
    && m.nameEnd + 2 <= m.urlEnd
    && m.end == m.urlEnd + 2
    && m.end <= |s|
    && s[m.start] == '(' && s[m.start + 1] == '['
    && (forall t :: m.start + 2 <= t < m.nameEnd ==> s[t] != ']')
    && s[m.nameEnd] == ']' && s[m.nameEnd + 1] == '('
    && NoNewline(s, m.nameEnd + 2, m.urlEnd)
    && DoubleClose(s, m.urlEnd)
    && (forall k :: m.nameEnd + 2 <= k < m.urlEnd ==> !DoubleClose(s, k))
  }

  /**
    `(.*?)\)\)`: tries `))` at each position from `j` on and consumes one
    non-newline character when it is not there.
   */
  function UrlEnd(s: string, j: nat): (r: Option<nat>)
    requires j <= |s|
    ensures r.Some? ==> j <= r.value && r.value + 2 <= |s|
    ensures r.Some? ==> DoubleClose(s, r.value) && NoNewline(s, j, r.value)
    ensures r.Some? ==> forall k :: j <= k < r.value ==> !DoubleClose(s, k)
    ensures r.None? ==> forall k :: j <= k < |s| && NoNewline(s, j, k) ==> !DoubleClose(s, k)
    decreases |s| - j
  {
    if DoubleClose(s, j) then Some(j)
    else if j == |s| || s[j] == '\n' then None
    else UrlEnd(s, j + 1)
  }

  /** The attempt of the regex at position `i`. */
  function MatchAt(s: string, i: nat): (r: Option<Match>)
    ensures r.Some? ==> r.value.start == i && IsCitationAt(s, r.value)
  {
    if i + 2 <= |s| && s[i] == '(' && s[i + 1] == '[' then
      var ne := NextIndexOf(s, i + 2, ']');
      if ne > i + 2 && ne + 2 <= |s| && s[ne + 1] == '(' then
        match UrlEnd(s, ne + 2)
        case Some(ue) => Some(Match(i, ne, ue, ue + 2))
        case None => None
      else None
    else None
  }

  /** Whatever satisfies the pattern at a position is exactly what the scanner returns there. */
  lemma MatchAtComplete(s: string, m: Match)
    requires IsCitationAt(s, m)
    ensures MatchAt(s, m.start) == Some(m)
  {
    var ne := NextIndexOf(s, m.start + 2, ']');
    assert ne == m.nameEnd by {
      if ne < m.nameEnd || ne > m.nameEnd {
        assert false;
      }
    }
    var u := UrlEnd(s, ne + 2);
    assert u == Some(m.urlEnd) by {
      if u.None? || u.value != m.urlEnd {
        assert false;
      }
    }
  }

  ghost predicate NoMatchIn(s: string, a: nat, b: nat) {
    forall p :: a <= p < b ==> MatchAt(s, p).None?
  }

  /**
    `ms` is what a leftmost, non-overlapping scan of `s` from `from` finds:
    matches in increasing order, none overlapping the previous one, and no
    match starting anywhere the scan stepped over one character at a time.
   */
  ghost predicate Scanned(s: string, from: nat, ms: seq<Match>) {
    && (forall k :: 0 <= k < |ms| ==> IsCitationAt(s, ms[k]))
    && (|ms| == 0 ==> NoMatchIn(s, from, |s|))
    && (|ms| > 0 ==> from <= ms[0].start && NoMatchIn(s, from, ms[0].start))
    && (|ms| > 0 ==> NoMatchIn(s, ms[|ms| - 1].end, |s|))
    && (forall k :: 0 < k < |ms| ==> ms[k - 1].end <= ms[k].start && NoMatchIn(s, ms[k - 1].end, ms[k].start))
  }

  /** `re.finditer(citation_pattern, s)` from position `from`. */
  function FindAll(s: string, from: nat): (ms: seq<Match>)
    requires from <= |s|
    ensures Scanned(s, from, ms)
    decreases |s| - from
  {
    if from == |s| then []
    else
      match MatchAt(s, from)
      case Some(m) =>
        var rest := FindAll(s, m.end);
        ScannedCons(s, m, rest);
        [m] + rest
      case None =>
        var rest := FindAll(s, from + 1);
        ScannedSkip(s, from, rest);
        rest
  }

  /** A match found at the scan position followed by the scan of the rest. */
  lemma ScannedCons(s: string, m: Match, rest: seq<Match>)
    requires IsCitationAt(s, m) && Scanned(s, m.end, rest)
    ensures Scanned(s, m.start, [m] + rest)
  {
    var ms := [m] + rest;
    assert forall k :: 0 < k < |ms| ==> ms[k] == rest[k - 1];
    if |rest| > 0 {
      assert ms[|ms| - 1] == rest[|rest| - 1];
    }
  }

  /** A position where the pattern fails is stepped over. */
  lemma ScannedSkip(s: string, from: nat, ms: seq<Match>)
    requires MatchAt(s, from).None? && Scanned(s, from + 1, ms)
    ensures Scanned(s, from, ms)
  {
  }

  lemma ScannedTail(s: string, from: nat, ms: seq<Match>)
    requires Scanned(s, from, ms) && |ms| > 0
    ensures Scanned(s, ms[0].end, ms[1..])
  {
    var tail := ms[1..];
    assert forall k :: 0 < k < |tail| ==> tail[k - 1] == ms[k] && tail[k] == ms[k + 1];
  }

  /** Matches found later start after every earlier one ends. */
  lemma {:induction false} ScannedPairwise(s: string, from: nat, ms: seq<Match>, a: nat, b: nat)
    requires Scanned(s, from, ms) && a < b < |ms|
    ensures ms[a].end <= ms[b].start
    decreases b - a
  {
    if a + 1 < b {
      ScannedPairwise(s, from, ms, a, b - 1);
      assert IsCitationAt(s, ms[b - 1]);
    }
  }

  /** No citation at or after the scan position starts before the first match found. */
  lemma ScannedFirst(s: string, from: nat, ms: seq<Match>, m: Match)
    requires Scanned(s, from, ms) && IsCitationAt(s, m) && from <= m.start
    ensures |ms| > 0 && ms[0].start <= m.start
  {
    MatchAtComplete(s, m);
  }

  /** Two scans from the same position find the same first match. */
  lemma ScannedHead(s: string, from: nat, a: seq<Match>, b: seq<Match>)
    requires Scanned(s, from, a) && Scanned(s, from, b) && |a| > 0
    ensures |b| > 0 && a[0] == b[0]
  {
    ScannedFirst(s, from, b, a[0]);
    ScannedFirst(s, from, a, b[0]);
    MatchAtComplete(s, a[0]);
    MatchAtComplete(s, b[0]);
  }

  /** The scan is fully determined: only one sequence of matches satisfies `Scanned`. */
  lemma {:induction false} ScannedUnique(s: string, from: nat, a: seq<Match>, b: seq<Match>)
    requires Scanned(s, from, a) && Scanned(s, from, b)
    ensures a == b
    decreases |a|
  {
    if |a| > 0 {
      ScannedHead(s, from, a, b);
      ScannedTail(s, from, a);
      ScannedTail(s, from, b);
      ScannedUnique(s, a[0].end, a[1..], b[1..]);
      assert a == [a[0]] + a[1..] && b == [b[0]] + b[1..];
    } else if |b| > 0 {
      ScannedHead(s, from, b, a);
    }
  }

  /** The scan finds nothing exactly when no part of the text has the citation shape. */
  lemma FindAllEmpty(s: string)
    ensures FindAll(s, 0) == [] <==> forall m :: !IsCitationAt(s, m)
  {
    var ms := FindAll(s, 0);
    if ms == [] {
      forall m | IsCitationAt(s, m) ensures false {
        MatchAtComplete(s, m);
      }
    } else {
      assert IsCitationAt(s, ms[0]);
    }
  }
}
