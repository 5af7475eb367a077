/**
  `_suggested_pdf_name`: the default file name offered when saving, taken
  from the first heading line of the Markdown, cleaned of characters that
  file systems refuse, capped at 100 characters, with a timestamp when
  there is no usable heading; and the rule that adds `.pdf` to a chosen
  path that lacks it.
 */
module PdfName {
  import opened Wrappers
  import opened Text

  /** Greedy `\s*` from `j`: the first position at or after `j` that is not whitespace. */
  function SkipSpace(s: string, j: nat): (k: nat)
    requires j <= |s|
    ensures j <= k <= |s|
    ensures forall t :: j <= t < k ==> IsSpace(s[t])
    ensures k < |s| ==> !IsSpace(s[k])
    decreases |s| - j
  {
    if j == |s| || !IsSpace(s[j]) then j else SkipSpace(s, j + 1)
  }

  /** The last position in `[lo, hi)` that is not a line break. */
  function LastNonNewline(s: string, lo: nat, hi: nat): (r: Option<nat>)
    requires lo <= hi <= |s|
    ensures r.Some? ==> lo <= r.value < hi && s[r.value] != '\n'
    ensures r.Some? ==> forall t :: r.value < t < hi ==> s[t] == '\n'
    ensures r.None? ==> forall t :: lo <= t < hi ==> s[t] == '\n'
    decreases hi - lo
  {
    if lo == hi then None
    else if s[hi - 1] != '\n' then Some(hi - 1)
    else LastNonNewline(s, lo, hi - 1)
  }

  /** Where `.+` may start after `^#` at `p` and whitespace up to `q`. */
  ghost predicate GroupCandidate(s: string, p: nat, q: nat) {
    && p < q < |s|
    && LineStart(s, p) && s[p] == '#'
    && (forall t :: p + 1 <= t < q ==> IsSpace(s[t]))
    && s[q] != '\n'
  }

  /**
    The attempt of `^#\s*(.+)` at `p`, giving where group 1 starts. `\s*`
    first takes all the whitespace; if that leaves nothing for `.+` (the
    whitespace reaches the end of the text) it gives characters back, and
    `.+` can start at the last one that is not a line break. So group 1
    starts at the last candidate, and the attempt fails when there is none.
   */
  function GroupStartAt(s: string, p: nat): (r: Option<nat>)
    requires p <= |s|
    ensures r.Some? ==> GroupCandidate(s, p, r.value)
    ensures r.Some? ==> forall q :: r.value < q ==> !GroupCandidate(s, p, q)
    ensures r.None? ==> forall q :: !GroupCandidate(s, p, q)
  {
    if p < |s| && LineStart(s, p) && s[p] == '#' then
      var q := SkipSpace(s, p + 1);
      if q < |s| then Some(q) else LastNonNewline(s, p + 1, q)
    else None
  }

  /** `re.search` of `^#\s*(.+)` from `from` on: the first position where an attempt succeeds. */
  function HeadingSearch(s: string, from: nat): (r: Option<nat>)
    requires from <= |s|
    ensures r.Some? ==> from <= r.value < |s| && GroupStartAt(s, r.value).Some?
    ensures r.Some? ==> forall p :: from <= p < r.value ==> GroupStartAt(s, p).None?
    ensures r.None? ==> forall p :: from <= p <= |s| ==> GroupStartAt(s, p).None?
    decreases |s| - from
  {
    if from == |s| then None
    else if GroupStartAt(s, from).Some? then Some(from)
    else HeadingSearch(s, from + 1)
  }

  /**
    `m.group(1)`: the text of `md` from where group 1 starts to the end of
    that line (`.+` is greedy and stops only at a line break); `None` when
    the search fails.
   */
  function HeadingGroup(md: string): (r: Option<string>)
    ensures r.Some? <==> HeadingSearch(md, 0).Some?
    ensures r.Some? ==>
      var q := GroupStartAt(md, HeadingSearch(md, 0).value).value;
      && q + |r.value| <= |md| && r.value == md[q..q + |r.value|]
      && |r.value| > 0 && '\n' !in r.value
      && (q + |r.value| == |md| || md[q + |r.value|] == '\n')
  {
    match HeadingSearch(md, 0)
    case Some(p) =>
      var q := GroupStartAt(md, p).value;
      var e := NextIndexOf(md, q, '\n');
      var g := md[q..e];
      assert forall i :: 0 <= i < |g| ==> g[i] == md[q + i];
      Some(g)
    case None => None
  }

  /** The characters the pattern `[\/\\\?\%\*\:\|"<>\n\r]+` removes. */
  predicate Forbidden(c: char) {
    c == '/' || c == '\\' || c == '?' || c == '%' || c == '*' || c == ':'
    || c == '|' || c == '"' || c == '<' || c == '>' || c == '\n' || c == '\r'
  }

  /** `re.sub` of runs of forbidden characters by nothing: every forbidden character goes, the rest stay in order. */
  function RemoveForbidden(t: string): (r: string)
    ensures |r| <= |t|
    ensures forall c :: c in r <==> c in t && !Forbidden(c)
  {
    if t == [] then []
    else
      var rest := RemoveForbidden(t[1..]);
      assert t == [t[0]] + t[1..];
      if Forbidden(t[0]) then rest else [t[0]] + rest
  }

  /** Text without forbidden characters passes unchanged. */
  lemma {:induction false} RemoveForbiddenIdentity(t: string)
    requires forall i :: 0 <= i < |t| ==> !Forbidden(t[i])
    ensures RemoveForbidden(t) == t
  {
    if t != [] {
      RemoveForbiddenIdentity(t[1..]);
      assert t == [t[0]] + t[1..];
    }
  }

  /** One character: a forbidden one goes, any other stays. */
  lemma RemoveForbiddenChar(c: char)
    ensures RemoveForbidden([c]) == if Forbidden(c) then [] else [c]
  {
    assert [c][1..] == [];
  }

  /**
    Removal works character by character: removing from a concatenation
    concatenates the removals. With `RemoveForbiddenChar` this fixes the
    result, order and repetitions included.
   */
  lemma {:induction false} RemoveForbiddenAppend(a: string, b: string)
    ensures RemoveForbidden(a + b) == RemoveForbidden(a) + RemoveForbidden(b)
  {
    if a == [] {
      assert a + b == b;
    } else {
      assert (a + b)[0] == a[0] && (a + b)[1..] == a[1..] + b;
      RemoveForbiddenAppend(a[1..], b);
      if !Forbidden(a[0]) {
        assert [a[0]] + RemoveForbidden(a[1..]) + RemoveForbidden(b)
          == [a[0]] + (RemoveForbidden(a[1..]) + RemoveForbidden(b));
      }
    }
  }

  /** Strip, remove forbidden characters, strip again. */
  function CleanTitle(group: string): (r: string)
    ensures forall c :: c in r ==> !Forbidden(c)
    ensures r == [] || (!IsSpace(r[0]) && !IsSpace(r[|r| - 1]))
  {
    var t := RemoveForbidden(Strip(group));
    StripSlice(t);
    StripEnds(t);
    Strip(t)
  }

  /**
    The cleaned title is empty, and the timestamp is used instead, exactly
    when the heading holds nothing but whitespace and forbidden characters.
   */
  lemma CleanTitleEmpty(group: string)
    ensures CleanTitle(group) == [] <==>
      forall i :: 0 <= i < |group| ==> IsSpace(group[i]) || Forbidden(group[i])
  {
    var stripped := Strip(group);
    var removed := RemoveForbidden(stripped);
    StripEmpty(removed);
    StripSlice(group);
    if CleanTitle(group) == [] {
      forall i | 0 <= i < |group| && !IsSpace(group[i])
        ensures Forbidden(group[i])
      {
        StripKeepsNonSpace(group, i);
      }
    } else {
      var k :| 0 <= k < |removed| && !IsSpace(removed[k]);
      assert removed[k] in stripped && !Forbidden(removed[k]);
      var i :| 0 <= i < |group| && group[i] == removed[k];
    }
  }

  /** A heading without forbidden characters is only stripped. */
  lemma CleanTitleWithoutForbidden(group: string)
    requires forall i :: 0 <= i < |group| ==> !Forbidden(group[i])
    ensures CleanTitle(group) == Strip(group)
  {
    var stripped := Strip(group);
    StripSlice(group);
    StripEnds(group);
    forall i | 0 <= i < |stripped| ensures !Forbidden(stripped[i]) {
      assert stripped[i] in group;
    }
    RemoveForbiddenIdentity(stripped);
    StripNoop(stripped);
  }

  const MaxLen: nat := 100

  /** `title[:max_len].rstrip()` when the title is longer than the limit. */
  function Cap(title: string): (r: string)
    ensures |r| <= MaxLen
    ensures |title| <= MaxLen ==> r == title
    ensures |title| > MaxLen ==> r == title[..|r|] && (r == [] || !IsSpace(r[|r| - 1]))
    ensures |title| > MaxLen ==> forall i :: |r| <= i < MaxLen ==> IsSpace(title[i])
  {
    if |title| > MaxLen then
      var r := RStrip(title[..MaxLen]);
      RStripSpec(title[..MaxLen]);
      assert r == title[..|r|];
      r
    else title
  }

  /**
    Capping a title that neither starts nor ends with whitespace keeps a
    non-empty prefix of it that neither starts nor ends with whitespace.
   */
  lemma CapKeepsEnds(title: string)
    requires title != [] && !IsSpace(title[0]) && !IsSpace(title[|title| - 1])
    ensures var r := Cap(title);
      && r != [] && r == title[..|r|]
      && !IsSpace(r[0]) && !IsSpace(r[|r| - 1])
  {
    if |title| > MaxLen {
      var w := title[..MaxLen];
      RStripSpec(w);
    }
  }

  /** A prefix keeps no character its text lacks. */
  lemma PrefixChars(title: string, r: string)
    requires |r| <= |title| && r == title[..|r|]
    ensures forall c :: c in r ==> c in title
  {
    forall c | c in r ensures c in title {
      var i :| 0 <= i < |r| && r[i] == c;
      assert title[i] == c;
    }
  }

  /** Capping adds no character. */
  lemma CapChars(title: string)
    ensures forall c :: c in Cap(title) ==> c in title
  {
    PrefixChars(title, Cap(title));
  }

  /** The title part of the suggested name; `timestamp` is what `time.strftime` returns at the call. */
  function SuggestedTitle(md: string, timestamp: string): (t: string)
    ensures |t| <= MaxLen
    ensures forall c :: c in t ==> c in timestamp || !Forbidden(c)
  {
    var title :=
      match HeadingGroup(md)
      case Some(g) => (var c := CleanTitle(g); if c == [] then timestamp else c)
      case None => timestamp;
    CapChars(title);
    Cap(title)
  }

  /** `_suggested_pdf_name(md)`. */
  function SuggestedPdfName(md: string, timestamp: string): (name: string)
    ensures EndsWith(name, ".pdf")
    ensures |name| <= MaxLen + 4
  {
    var title := SuggestedTitle(md, timestamp);
    assert (title + ".pdf")[|title|..] == ".pdf";
    title + ".pdf"
  }

  /** A usable heading gives a non-empty title free of forbidden characters and of surrounding whitespace. */
  lemma SuggestedTitleFromHeading(md: string, timestamp: string)
    requires HeadingGroup(md).Some? && CleanTitle(HeadingGroup(md).value) != []
    ensures
      var t := SuggestedTitle(md, timestamp);
      var c := CleanTitle(HeadingGroup(md).value);
      && t != [] && t == c[..|t|]
      && (forall ch :: ch in t ==> !Forbidden(ch))
      && !IsSpace(t[0]) && !IsSpace(t[|t| - 1])
  {
    var c := CleanTitle(HeadingGroup(md).value);
    assert SuggestedTitle(md, timestamp) == Cap(c);
    CapKeepsEnds(c);
    CapChars(c);
  }

  /** Without a heading, or with one that cleans to nothing, the title is the timestamp. */
  lemma SuggestedTitleFallback(md: string, timestamp: string)
    requires HeadingGroup(md).None? || CleanTitle(HeadingGroup(md).value) == []
    ensures SuggestedTitle(md, timestamp) == Cap(timestamp)
  {
  }

  /** The format `%Y-%m-%d_%H-%M-%S` of a clock reading. */
  datatype DateTime = DateTime(year: nat, month: nat, day: nat, hour: nat, minute: nat, second: nat)

  predicate ValidDateTime(t: DateTime) {
    1 <= t.month <= 12 && 1 <= t.day <= 31 && t.hour < 24 && t.minute < 60 && t.second <= 61
  }

  /** Two digits, zero padded. */
  function Pad2(n: nat): (r: string)
    requires n < 100
    ensures |r| == 2 && IsDigits(r)
  {
    [DigitChar(n / 10), DigitChar(n % 10)]
  }

  function Timestamp(t: DateTime): (r: string)
    requires ValidDateTime(t)
  {
    Decimal(t.year) + "-" + Pad2(t.month) + "-" + Pad2(t.day) + "_" + Pad2(t.hour) + "-" + Pad2(t.minute) + "-" + Pad2(t.second)
  }

  /** A timestamp is a valid file name part: digits, `-` and `_` only; 19 characters for a four-digit year. */
  lemma TimestampClean(t: DateTime)
    requires ValidDateTime(t)
    ensures forall c :: c in Timestamp(t) ==> !Forbidden(c) && !IsSpace(c)
    ensures 1000 <= t.year <= 9999 ==> |Timestamp(t)| == 19
  {
    var r := Timestamp(t);
    forall c | c in r ensures !Forbidden(c) && !IsSpace(c) {
      var i :| 0 <= i < |r| && r[i] == c;
      assert IsDigit(c) || c == '-' || c == '_';
    }
    if 1000 <= t.year <= 9999 {
      DecimalLength4(t.year);
    }
  }

  lemma DecimalLength4(n: nat)
    requires 1000 <= n <= 9999
    ensures |Decimal(n)| == 4
  {
    assert |Decimal(n / 10)| == 3 by {
      assert |Decimal(n / 100)| == 2 by {
        assert |Decimal(n / 1000)| == 1;
      }
    }
  }

  /** With a clock reading for the fallback, the suggested name never holds a forbidden character. */
  lemma SuggestedPdfNameClean(md: string, t: DateTime)
    requires ValidDateTime(t)
    ensures forall c :: c in SuggestedTitle(md, Timestamp(t)) ==> !Forbidden(c)
  {
    TimestampClean(t);
  }

  /** `path.lower().endswith(".pdf")` */
  predicate HasPdfSuffix(path: string) {
    EndsWith(Lower(path), ".pdf")
  }

  /** The save path with `.pdf` appended when it does not already end with it in any letter case. */
  function WithPdfSuffix(path: string): (r: string)
    ensures HasPdfSuffix(r)
    ensures HasPdfSuffix(path) ==> r == path
    ensures !HasPdfSuffix(path) ==> r == path + ".pdf"
  {
    if HasPdfSuffix(path) then path
    else
      var r := path + ".pdf";
      assert Lower(r)[|r| - 4..] == ".pdf" by {
        forall i | 0 <= i < 4 ensures Lower(r)[|r| - 4..][i] == ".pdf"[i] {
          assert r[|path| + i] == ".pdf"[i];
        }
      }
      r
  }

  /** Adding the suffix a second time changes nothing. */
  lemma WithPdfSuffixIdempotent(path: string)
    ensures WithPdfSuffix(WithPdfSuffix(path)) == WithPdfSuffix(path)
  {
  }

  /** The suggested name is kept as it is when accepted as the save path. */
  lemma SuggestedNameKeepsSuffix(md: string, timestamp: string)
    ensures WithPdfSuffix(SuggestedPdfName(md, timestamp)) == SuggestedPdfName(md, timestamp)
  {
    var name := SuggestedPdfName(md, timestamp);
    assert Lower(name)[|name| - 4..] == ".pdf" by {
      forall i | 0 <= i < 4 ensures Lower(name)[|name| - 4..][i] == ".pdf"[i] {
        assert name[|name| - 4 + i] == ".pdf"[i];
      }
    }
  }
}
