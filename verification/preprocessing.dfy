/**
  The two rewrites `convert_markdown_to_pdf_pandoc` applies before the
  citations are processed: every image placeholder `([image]())` becomes
  the LaTeX spacer `\vspace{250pt}`, and everything before the first line
  that starts with `# ` is dropped.
 */
module Preprocessing {
  import opened Wrappers
  import opened Text

  /** The text the pattern `\(\[image\]\(\)\)` matches. */
  const ImagePlaceholder: string := "([image]())"

  /** The replacement `r'\\vspace{250pt}'` after `re.sub` has processed its escape: one backslash. */
  const ImageSpacer: string := "\\vspace{250pt}"

  predicate PlaceholderAt(s: string, i: nat) {
    i + |ImagePlaceholder| <= |s| && s[i..i + |ImagePlaceholder|] == ImagePlaceholder
  }

  /** `re.sub` of the placeholder: scans left to right, replacing each occurrence and copying everything else. */
  function ReplaceImages(s: string): (r: string)
    ensures |s| <= |r|
    ensures (forall i :: 0 <= i <= |s| ==> !PlaceholderAt(s, i)) ==> r == s
    decreases |s|
  {
    if s == [] then []
    else if PlaceholderAt(s, 0) then ImageSpacer + ReplaceImages(s[|ImagePlaceholder|..])
    else
      assert (forall i :: 0 <= i <= |s| ==> !PlaceholderAt(s, i)) ==>
             (forall i :: 0 <= i <= |s[1..]| ==> !PlaceholderAt(s[1..], i)) by {
        forall i | 0 <= i <= |s[1..]| && !PlaceholderAt(s, i + 1)
          ensures !PlaceholderAt(s[1..], i)
        {
          if i + |ImagePlaceholder| <= |s[1..]| {
            assert s[1..][i..i + |ImagePlaceholder|] == s[i + 1..i + 1 + |ImagePlaceholder|];
          }
        }
      }
      assert s == [s[0]] + s[1..];
      [s[0]] + ReplaceImages(s[1..])
  }

  /** Where the input starts with a placeholder, the output starts with a backslash. */
  lemma SpacerFirst(s: string, k: nat)
    requires PlaceholderAt(s, 0) && 0 < k <= |ReplaceImages(s)|
    ensures '\\' in ReplaceImages(s)[..k]
  {
    assert ReplaceImages(s)[..k][0] == ImageSpacer[0];
  }

  /** Past a prefix, a placeholder in the text is one in the rest. */
  lemma PlaceholderShift(pre: string, rest: string, i: nat)
    requires |pre| <= i
    ensures PlaceholderAt(pre + rest, i) <==> PlaceholderAt(rest, i - |pre|)
  {
    var n := |ImagePlaceholder|;
    var t := pre + rest;
    var j := i - |pre|;
    if i + n <= |t| {
      assert t[i..i + n] == rest[j..j + n];
    }
  }

  /** Up to its first backslash, the output is a copy of the input: the spacer starts with one. */
  lemma {:induction false} ReplaceImagesPrefix(s: string, k: nat)
    requires k <= |ReplaceImages(s)|
    requires '\\' !in ReplaceImages(s)[..k]
    ensures k <= |s| && ReplaceImages(s)[..k] == s[..k]
    decreases |s|
  {
    if k > 0 {
      var r := ReplaceImages(s);
      if PlaceholderAt(s, 0) {
        SpacerFirst(s, k);
        assert false;
      } else {
        var rest := ReplaceImages(s[1..]);
        assert r == [s[0]] + rest;
        assert rest[..k - 1] == r[..k][1..];
        ReplaceImagesPrefix(s[1..], k - 1);
        assert r[..k] == [s[0]] + rest[..k - 1];
        assert s[..k] == [s[0]] + s[1..][..k - 1];
      }
    }
  }

  /** A placeholder cannot start inside the spacer, which holds no `(`. */
  lemma NotInSpacer(r: string, rest: string, i: nat)
    requires r == ImageSpacer + rest && i < |ImageSpacer|
    ensures !PlaceholderAt(r, i)
  {
    assert r[i] == ImageSpacer[i] != '(';
  }

  /** A placeholder at the start of a copied character was already there in the input. */
  lemma PlaceholderCopied(s: string, r: string)
    requires s != [] && r == [s[0]] + ReplaceImages(s[1..]) && PlaceholderAt(r, 0)
    ensures PlaceholderAt(s, 0)
  {
    var n := |ImagePlaceholder|;
    var rest := ReplaceImages(s[1..]);
    assert rest[..n - 1] == r[1..n];
    assert '\\' !in rest[..n - 1];
    ReplaceImagesPrefix(s[1..], n - 1);
    assert s[..n] == [s[0]] + s[1..][..n - 1];
  }

  /** No placeholder survives the replacement. */
  lemma {:induction false} ReplaceImagesComplete(s: string, i: nat)
    ensures !PlaceholderAt(ReplaceImages(s), i)
    decreases |s|
  {
    var r := ReplaceImages(s);
    var n := |ImagePlaceholder|;
    if s != [] {
      if PlaceholderAt(s, 0) {
        var rest := ReplaceImages(s[n..]);
        assert r == ImageSpacer + rest;
        if i < |ImageSpacer| {
          NotInSpacer(r, rest, i);
        } else {
          ReplaceImagesComplete(s[n..], i - |ImageSpacer|);
          PlaceholderShift(ImageSpacer, rest, i);
        }
      } else {
        var rest := ReplaceImages(s[1..]);
        assert r == [s[0]] + rest;
        if i == 0 {
          if PlaceholderAt(r, 0) {
            PlaceholderCopied(s, r);
            assert false;
          }
        } else {
          ReplaceImagesComplete(s[1..], i - 1);
          PlaceholderShift([s[0]], rest, i);
        }
      }
    }
  }

  /** A line that starts with `# ` begins at `p`: the pattern `^# .*`. */
  predicate TitleAt(s: string, p: nat) {
    p + 2 <= |s| && LineStart(s, p) && s[p] == '#' && s[p + 1] == ' '
  }

  /** `re.search(r'^# .*', s, re.MULTILINE)` from position `from`: the first title line start. */
  function FindTitle(s: string, from: nat): (r: Option<nat>)
    requires from <= |s|
    ensures r.Some? ==> from <= r.value && TitleAt(s, r.value)
    ensures r.Some? ==> forall p :: from <= p < r.value ==> !TitleAt(s, p)
    ensures r.None? ==> forall p :: from <= p ==> !TitleAt(s, p)
    decreases |s| - from
  {
    if from + 2 > |s| then None
    else if TitleAt(s, from) then Some(from)
    else FindTitle(s, from + 1)
  }

  /** `markdown_content[first_title_match.start():]`, or the text unchanged when there is no title line. */
  function StripBeforeTitle(s: string): (r: string)
    ensures |r| <= |s| && r == s[|s| - |r|..]
    ensures FindTitle(s, 0).None? ==> r == s
    ensures FindTitle(s, 0).Some? ==> |r| >= 2 && r[..2] == "# "
    ensures FindTitle(s, 0).Some? ==> TitleAt(s, |s| - |r|)
    ensures FindTitle(s, 0).Some? ==> forall p :: 0 <= p < |s| - |r| ==> !TitleAt(s, p)
  {
    match FindTitle(s, 0)
    case Some(p) => s[p..]
    case None => s
  }

  /** Cutting a second time changes nothing: the result already starts at its title. */
  lemma StripBeforeTitleIdempotent(s: string)
    ensures StripBeforeTitle(StripBeforeTitle(s)) == StripBeforeTitle(s)
  {
    var r := StripBeforeTitle(s);
    if FindTitle(s, 0).Some? {
      assert TitleAt(r, 0);
    }
  }

  /** No suffix of the replaced text holds a placeholder. */
  lemma SuffixNoPlaceholder(markdown: string, d: nat)
    requires d <= |ReplaceImages(markdown)|
    ensures forall i: nat :: !PlaceholderAt(ReplaceImages(markdown)[d..], i)
  {
    var replaced := ReplaceImages(markdown);
    forall i: nat ensures !PlaceholderAt(replaced[d..], i) {
      ReplaceImagesComplete(markdown, i + d);
      if i + |ImagePlaceholder| <= |replaced[d..]| {
        assert replaced[d..][i..i + |ImagePlaceholder|] == replaced[i + d..i + d + |ImagePlaceholder|];
      }
    }
  }

  /**
    The text `process_markdown_link_citations` receives: no image
    placeholder is left in it, and when the text has a title line it
    starts at the first one.
   */
  function Preprocess(markdown: string): (r: string)
    ensures forall i: nat :: !PlaceholderAt(r, i)
    ensures FindTitle(ReplaceImages(markdown), 0).Some? ==> |r| >= 2 && r[..2] == "# "
  {
    var replaced := ReplaceImages(markdown);
    var r := StripBeforeTitle(replaced);
    SuffixNoPlaceholder(markdown, |replaced| - |r|);
    r
  }
}
