/**
  `generate_pandoc_footnote_definitions`: one Pandoc footnote definition
  `[^N]: [Name](URL)` per citation record, spaces in the URL written as
  `%20`, the whole block introduced by a blank line.
 */
module Footnotes {
  import opened Citations

  /** `url.replace(' ', '%20')`: every space becomes `%20`, every other character stays. */
  function EscapeSpaces(url: string): (r: string)
    ensures ' ' !in r
    ensures |r| >= |url|
  {
    if url == [] then []
    else (if url[0] == ' ' then "%20" else [url[0]]) + EscapeSpaces(url[1..])
  }

  /** One character: a space becomes `%20`, anything else stays as it is. */
  lemma EscapeChar(c: char)
    ensures EscapeSpaces([c]) == if c == ' ' then "%20" else [c]
  {
    assert [c][1..] == [];
  }

  /**
    Escaping works character by character: the escape of a concatenation
    is the concatenation of the escapes. With `EscapeChar` this fixes the
    result for every URL, `%` included.
   */
  lemma {:induction false} EscapeAppend(a: string, b: string)
    ensures EscapeSpaces(a + b) == EscapeSpaces(a) + EscapeSpaces(b)
  {
    if a != [] {
      assert (a + b)[0] == a[0] && (a + b)[1..] == a[1..] + b;
      EscapeAppend(a[1..], b);
      ConcatAssoc(if a[0] == ' ' then "%20" else [a[0]], EscapeSpaces(a[1..]), EscapeSpaces(b));
    } else {
      assert a + b == b;
    }
  }

  /** Reads `%20` back as a space, left to right; the reverse direction of `EscapeSpaces`. */
  function UnescapeSpaces(r: string): string
    decreases |r|
  {
    if r == [] then []
    else if |r| >= 3 && r[..3] == "%20" then [' '] + UnescapeSpaces(r[3..])
    else [r[0]] + UnescapeSpaces(r[1..])
  }

  /** A URL without `%` is recovered exactly from its escaped form. */
  lemma {:induction false} EscapeRoundTrip(url: string)
    requires '%' !in url
    ensures UnescapeSpaces(EscapeSpaces(url)) == url
  {
    if url != [] {
      var rest := EscapeSpaces(url[1..]);
      assert '%' !in url[1..];
      EscapeRoundTrip(url[1..]);
      if url[0] == ' ' {
        var r := "%20" + rest;
        assert r[..3] == "%20" && r[3..] == rest;
      } else {
        var r := [url[0]] + rest;
        assert r[0] == url[0] != '%';
        assert r[1..] == rest;
      }
    }
  }

  /** A URL without spaces is written unchanged. */
  lemma {:induction false} EscapeWithoutSpaces(url: string)
    requires ' ' !in url
    ensures EscapeSpaces(url) == url
  {
    if url != [] {
      assert ' ' !in url[1..];
      EscapeWithoutSpaces(url[1..]);
      assert url == [url[0]] + url[1..];
    }
  }

  /** One definition line: `[^N]: [Name](URL)` and a line break. */
  function DefinitionLine(c: Citation): (line: string)
    ensures |line| > 0 && line[|line| - 1] == '\n'
  {
    Marker(c.index) + ": [" + c.name + "](" + EscapeSpaces(c.url) + ")\n"
  }

  /** One line per element of `xs`, in order, joined together. */
  function Joined<T>(xs: seq<T>, line: T -> string): string {
    if xs == [] then "" else Joined(xs[..|xs| - 1], line) + line(xs[|xs| - 1])
  }

  /** The definition lines of `cs`, in order. */
  function Lines(cs: seq<Citation>): string {
    Joined(cs, DefinitionLine)
  }

  lemma ConcatAssoc<T>(x: seq<T>, y: seq<T>, z: seq<T>)
    ensures x + y + z == x + (y + z)
  {
  }

  /** The lines of a concatenation are the concatenated lines. */
  lemma {:induction false} JoinedAppend<T>(a: seq<T>, b: seq<T>, line: T -> string)
    ensures Joined(a + b, line) == Joined(a, line) + Joined(b, line)
    decreases |b|
  {
    if b == [] {
      assert a + b == a;
    } else {
      var init, last := b[..|b| - 1], b[|b| - 1];
      var ab := a + b;
      assert ab[..|ab| - 1] == a + init && ab[|ab| - 1] == last;
      JoinedAppend(a, init, line);
      ConcatAssoc(Joined(a, line), Joined(init, line), line(last));
    }
  }

  /** The definitions of a concatenation are the concatenated definitions. */
  lemma LinesAppend(a: seq<Citation>, b: seq<Citation>)
    ensures Lines(a + b) == Lines(a) + Lines(b)
  {
    JoinedAppend(a, b, DefinitionLine);
  }

  /** Line `k` of the block is the definition of citation `k`, preceded by those of the earlier citations. */
  lemma LinesAt(cs: seq<Citation>, k: nat)
    requires k < |cs|
    ensures Lines(cs) == Lines(cs[..k]) + DefinitionLine(cs[k]) + Lines(cs[k + 1..])
  {
    assert cs == cs[..k] + [cs[k]] + cs[k + 1..];
    LinesAppend(cs[..k] + [cs[k]], cs[k + 1..]);
    LinesAppend(cs[..k], [cs[k]]);
    assert Lines([cs[k]]) == DefinitionLine(cs[k]) by {
      assert [cs[k]][..0] == [];
    }
  }

  function CountNewlines(s: string): nat {
    if s == [] then 0 else CountNewlines(s[..|s| - 1]) + (if s[|s| - 1] == '\n' then 1 else 0)
  }

  lemma {:induction false} CountNewlinesAppend(a: string, b: string)
    ensures CountNewlines(a + b) == CountNewlines(a) + CountNewlines(b)
    decreases |b|
  {
    if b == [] {
      assert a + b == a;
    } else {
      assert (a + b)[..|a + b| - 1] == a + b[..|b| - 1];
      CountNewlinesAppend(a, b[..|b| - 1]);
    }
  }

  lemma {:induction false} CountNewlinesNone(s: string)
    requires '\n' !in s
    ensures CountNewlines(s) == 0
  {
    if s != [] {
      assert '\n' !in s[..|s| - 1];
      CountNewlinesNone(s[..|s| - 1]);
    }
  }

  /** Each definition is one line when the name has no line break (a URL never has one). */
  lemma DefinitionLineIsOneLine(c: Citation)
    requires '\n' !in c.name && '\n' !in c.url
    ensures CountNewlines(DefinitionLine(c)) == 1
  {
    var head := Marker(c.index) + ": [" + c.name + "](" + EscapeSpaces(c.url) + ")";
    assert DefinitionLine(c) == head + "\n";
    assert '\n' !in Marker(c.index) by {
      var d := Marker(c.index);
      forall i | 0 <= i < |d| ensures d[i] != '\n' {
        if 2 <= i < |d| - 1 {
          assert d[i] == d[2..|d| - 1][i - 2];
        }
      }
    }
    assert '\n' !in EscapeSpaces(c.url) by {
      EscapeKeepsOthers(c.url, '\n');
    }
    CountNewlinesNone(head);
    CountNewlinesAppend(head, "\n");
    assert "\n"[..0] == [];
  }

  /** Escaping introduces no character other than `%`, `2` and `0`. */
  lemma {:induction false} EscapeKeepsOthers(url: string, c: char)
    requires c !in url && c != '%' && c != '2' && c != '0'
    ensures c !in EscapeSpaces(url)
  {
    if url != [] {
      assert c !in url[1..];
      EscapeKeepsOthers(url[1..], c);
    }
  }

  /** One line per citation, when no name spans lines. */
  lemma {:induction false} LinesCount(cs: seq<Citation>)
    requires forall k :: 0 <= k < |cs| ==> '\n' !in cs[k].name && '\n' !in cs[k].url
    ensures CountNewlines(Lines(cs)) == |cs|
  {
    if cs != [] {
      var init := cs[..|cs| - 1];
      LinesCount(init);
      DefinitionLineIsOneLine(cs[|cs| - 1]);
      CountNewlinesAppend(Lines(init), DefinitionLine(cs[|cs| - 1]));
    }
  }

  /** The text `generate_pandoc_footnote_definitions` returns. */
  function DefinitionsBlock(cs: seq<Citation>): (md: string)
    ensures md == [] <==> cs == []
    ensures cs != [] ==> |md| >= 2 && md[..2] == "\n\n"
  {
    if cs == [] then "" else "\n\n" + Lines(cs)
  }

  /** The loop of `generate_pandoc_footnote_definitions`, appending one line per citation. */
  method GeneratePandocFootnoteDefinitions(citations: seq<Citation>) returns (definitionsMd: string)
    ensures definitionsMd == DefinitionsBlock(citations)
  {
    if citations == [] {
      return "";
    }
    definitionsMd := "\n\n";
    for i := 0 to |citations|
      invariant definitionsMd == "\n\n" + Lines(citations[..i])
    {
      var citation := citations[i];
      var safeUrl := EscapeSpaces(citation.url);
      assert citations[..i + 1][..i] == citations[..i];
      ConcatAssoc("\n\n", Lines(citations[..i]), DefinitionLine(citation));
      definitionsMd := definitionsMd + (Marker(citation.index) + ": [" + citation.name + "](" + safeUrl + ")\n");
    }
    assert citations[..|citations|] == citations;
  }
}
