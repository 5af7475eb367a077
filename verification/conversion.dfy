/**
  The text-producing part of `convert_markdown_to_pdf_pandoc`: the
  Markdown handed to Pandoc (the rewritten body followed by the footnote
  definitions) and whether the References page is injected after it.
 */
module Conversion {
  import opened Wrappers
  import opened CitationPattern
  import opened Citations
  import opened Footnotes
  import opened Preprocessing

  /**
    The Markdown written to the temporary file: the rewritten body first,
    with something appended after it exactly when there are citations.
   */
  function FinalMarkdown(markdown: string): (r: string)
    ensures var body := RewrittenText(Preprocess(markdown));
      && |body| <= |r| && r[..|body|] == body
      && (r == body <==> CitationRecords(Preprocess(markdown)) == [])
  {
    var content := Preprocess(markdown);
    var body := RewrittenText(content);
    var r := body + DefinitionsBlock(CitationRecords(content));
    assert r[..|body|] == body;
    r
  }

  /**
    Image replacement, title stripping, citation processing and the
    definitions block, in the order of the source; `includeAfter` says
    whether the `include-after` variable (the References page) is passed.
   */
  method ConvertMarkdown(markdown: string) returns (finalMarkdownContent: string, includeAfter: bool)
    ensures finalMarkdownContent == FinalMarkdown(markdown)
    ensures includeAfter <==> CitationRecords(Preprocess(markdown)) != []
  {
    var markdownContent := ReplaceImages(markdown);
    markdownContent := StripBeforeTitle(markdownContent);
    var processedContent, citations := ProcessMarkdownLinkCitations(markdownContent);
    var footnoteDefinitionsMd := GeneratePandocFootnoteDefinitions(citations);
    finalMarkdownContent := processedContent + footnoteDefinitionsMd;
    includeAfter := citations != [];
  }

  /**
    The image placeholder has the shape of a citation (name `image`, empty
    URL), which is why it is replaced before the citations are processed.
   */
  lemma PlaceholderLooksLikeCitation()
    ensures MatchAt(ImagePlaceholder, 0) == Some(Match(0, 7, 9, 11))
  {
    var m := Match(0, 7, 9, 11);
    assert IsCitationAt(ImagePlaceholder, m);
    MatchAtComplete(ImagePlaceholder, m);
  }

  /** Markdown without citations goes to Pandoc as pre-processed, with nothing appended. */
  lemma NoCitationsUnchanged(markdown: string)
    requires forall m :: !IsCitationAt(Preprocess(markdown), m)
    ensures FinalMarkdown(markdown) == Preprocess(markdown)
  {
    var content := Preprocess(markdown);
    NoCitationNoChange(content);
  }
}
