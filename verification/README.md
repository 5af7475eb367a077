# Markdown2PDF, modelled in Dafny

Markdown2PDF turns a Markdown document into a PDF through Pandoc. Before
Pandoc runs, the converter rewrites the text in four steps:

1. It turns every image placeholder `([image]())` into a LaTeX spacer.
2. It drops everything before the first `# ` title line.
3. It replaces each inline citation `([Name](URL))` with a numbered
   footnote marker `[^N]`. Equal citation texts share a number, and
   numbers are given in order of first appearance.
4. It appends one Pandoc footnote definition `[^N]: [Name](URL)` per
   distinct citation.

Separately, when it saves a PDF from the clipboard, it suggests a file
name built from the document's first heading, and it adds `.pdf` to the
chosen path when that path lacks it.

The model follows the program's structure:

- `Wrappers` defines `Option`.
- `Text` models the parts of Python's `str` that the code uses:
  `isspace`, `isalnum`, `strip`/`lstrip`/`rstrip`, decimal rendering and
  `lower`.
- `CitationPattern` states the citation regex and `re.finditer`. The
  regex is given both declaratively and as a scanner, and the scan is
  proved to be the unique leftmost, non-overlapping one.
- `Citations` models `process_markdown_link_citations`:
  - reference functions for the rewritten text and for the records;
  - an imperative method with the numbering loop and the back-to-front
    splice, proved equal to the reference functions;
  - the lemmas stating what the numbering promises.
- `Footnotes` models `generate_pandoc_footnote_definitions`: the loop
  and the block it builds.
- `Preprocessing` models the image replacement and the title stripping.
- `PdfName` models `_suggested_pdf_name` and the `.pdf` suffix rule.
- `Conversion` models the text-producing part of
  `convert_markdown_to_pdf_pandoc`: what is handed to Pandoc, and whether
  the References page is added.

In the citation pattern, the URL is matched by `.*?`. Without
`re.DOTALL`, `.` never matches `\n`, so a URL never spans lines, and
`CitationPattern.IsCitationAt` forbids line breaks in it. The name class
`[^\]]` does admit line breaks, and the model keeps that.

## Model

| member | source | states |
|---|---|---|
| CitationPattern.UrlEnd | Markdown2PDF.py:25 | The lazy `(.*?)\)\)` stops at the first `))` reachable without crossing a line break. When there is none, no `))` lies on the rest of the line. |
| CitationPattern.MatchAt | Markdown2PDF.py:25 | An attempt of the citation pattern that succeeds at a position gives a match of the declarative pattern starting there. |
| CitationPattern.MatchAtComplete | Markdown2PDF.py:25 | Any text satisfying the declarative pattern at a position is exactly what the attempt there returns, so the pattern has no other way to match. |
| CitationPattern.FindAll | Markdown2PDF.py:28 | `re.finditer` returns matches in increasing order that do not overlap. No match starts in any stretch the scan stepped over. |
| CitationPattern.ScannedPairwise | Markdown2PDF.py:28 | Every later match starts after every earlier one ends. |
| CitationPattern.ScannedFirst | Markdown2PDF.py:28 | No citation at or after the scan position starts before the first match found (leftmost matching). |
| CitationPattern.ScannedUnique | Markdown2PDF.py:28 | Only one sequence of matches satisfies the scan's description, so the scan result is fully determined. |
| CitationPattern.FindAllEmpty | Markdown2PDF.py:28 | The scan finds nothing exactly when no part of the text has the citation shape. |
| Citations.FirstSeen | Markdown2PDF.py:39-42 | The dict keys hold exactly the values inserted. |
| Citations.FirstSeenDistinct | Markdown2PDF.py:39-42 | Each key is present once. |
| Citations.FirstSeenOrder | Markdown2PDF.py:39-42 | A key comes earlier in insertion order exactly when its first occurrence comes earlier. |
| Citations.MatchText | Markdown2PDF.py:33 | `group(0)` is the whole match: it spans the match, starts with `([` and ends with `))`. |
| Citations.SourceName | Markdown2PDF.py:34 | The stripped name holds only characters of the name group, never `]`, and neither starts nor ends with whitespace. |
| Citations.SourceUrl | Markdown2PDF.py:35 | The stripped URL holds only characters of the URL group, never a line break, and neither starts nor ends with whitespace. |
| Citations.Marker | Markdown2PDF.py:46 | The marker is `[^`, decimal digits, then `]`, and those digits read back as the footnote number. |
| Citations.MarkerInjective | Markdown2PDF.py:46 | Two markers are equal exactly when their numbers are. |
| Citations.EffectiveStart | Markdown2PDF.py:49-52 | The span starts one character early exactly when the character before the match is whitespace and the one before that is alphanumeric. Otherwise it starts at the match. |
| Citations.EffectiveStartAfterPrevious | Markdown2PDF.py:49-52 | Pulling the start back never reaches into the previous match, because a match ends in `)`. |
| Citations.SpansOrdered | Markdown2PDF.py:49-58 | The effective spans of the scanned matches are non-empty, lie inside the text, and are in order without overlap. |
| Citations.ReversedIsDescending | Markdown2PDF.py:60 | Reversing ordered spans sorts them strictly descending by effective start. |
| Citations.DescendingUnique | Markdown2PDF.py:60 | Two strictly descending arrangements of the same entries are the same sequence. |
| Citations.SortIsReversal | Markdown2PDF.py:60 | Any rearrangement of the scan's spans that is descending by effective start is their reverse. That reverse is therefore the only result the sort can return. |
| Citations.SpliceStep | Markdown2PDF.py:61-62 | Splicing one more marker in, back to front, keeps the offsets of the spans still to splice valid and extends the finished suffix. |
| Citations.SplicedAll | Markdown2PDF.py:60-64 | The back-to-front splice of all spans equals the left-to-right rewrite: text between spans copied, each span replaced by its marker. |
| Citations.TableInsert | Markdown2PDF.py:39-42 | A new key stored with the next number keeps every stored number equal to its key's insertion position plus one. |
| Citations.TableLookup | Markdown2PDF.py:43-44 | A repeated key reads back the number it was given when first inserted. |
| Citations.TableValues | Markdown2PDF.py:67 | The dict values in insertion order are the records. They already carry the numbers 1, 2, ..., so sorting by number keeps them as they are. |
| Citations.RecordsFirstOccurrence | Markdown2PDF.py:38-67 | There is one record per distinct matched text, in order of first appearance and numbered from 1. Each record carries the stripped name and URL of that text's first occurrence. |
| Citations.OccurrenceRecord | Markdown2PDF.py:38-46 | Every occurrence's number names an existing record, and that record holds the name and URL of the first occurrence of the same text. |
| Citations.RecordReferenced | Markdown2PDF.py:38-46 | Every record's number is used by some occurrence, so the numbers used are exactly 1..K. |
| Citations.SameMarkerIffSameText | Markdown2PDF.py:39-46 | Two occurrences get the same marker exactly when their verbatim matched texts are equal. Deduplication is on the whole match, not on the stripped name and URL. |
| Citations.NumberingFollowsFirstAppearance | Markdown2PDF.py:39-42 | One occurrence gets a smaller number than another exactly when its text first appears earlier. |
| Citations.NoCitationNoChange | Markdown2PDF.py:24-68 | Text without a citation comes back unchanged, with an empty record list. |
| Citations.CitationRecordsEmpty | Markdown2PDF.py:24-68 | The record list is empty exactly when the text holds no citation. |
| Citations.CitationRecordsCount | Markdown2PDF.py:38-67 | There are as many records as distinct matched texts. |
| Citations.NumberStep | Markdown2PDF.py:39-44 | One turn of the dict update: a new key is stored with the next number, a repeated key keeps its number, that number is the key's rank by first appearance, and the dict, its order and the records stay those of the keys seen so far. |
| Citations.NumberCitations | Markdown2PDF.py:32-67 | The numbering loop over the dict yields each occurrence's span and marker, and the sorted dict values, as the reference functions define them. |
| Citations.SpliceReplacements | Markdown2PDF.py:60-64 | The descending sort followed by the in-order splice into the character list produces the left-to-right rewrite. |
| Citations.ProcessMarkdownLinkCitations | Markdown2PDF.py:24-68 | Returns the rewritten text and the record list that the reference functions define. The lemmas above state what those promise. |
| Footnotes.EscapeSpaces | Markdown2PDF.py:76 | The escaped URL has no space left and is no shorter. |
| Footnotes.EscapeChar | Markdown2PDF.py:76 | A space becomes `%20`, and any other character, `%` included, stays as it is. |
| Footnotes.EscapeAppend | Markdown2PDF.py:76 | Escaping a concatenation concatenates the escapes. With `EscapeChar` this fixes the result for every URL. |
| Footnotes.EscapeRoundTrip | Markdown2PDF.py:76 | A URL without `%` is recovered exactly by reading each `%20` back as a space. |
| Footnotes.EscapeWithoutSpaces | Markdown2PDF.py:76 | A URL without spaces is written unchanged. |
| Footnotes.DefinitionLine | Markdown2PDF.py:77 | Each definition ends in a line break. |
| Footnotes.LinesAt | Markdown2PDF.py:75-77 | Line `k` of the block is citation `k`'s definition, after the earlier citations' definitions and before the later ones. |
| Footnotes.LinesCount | Markdown2PDF.py:75-77 | When no name spans lines, the block has exactly one line break per citation. |
| Footnotes.DefinitionsBlock | Markdown2PDF.py:73-74 | The block is empty exactly when there are no citations. Otherwise it starts with a blank line. |
| Footnotes.GeneratePandocFootnoteDefinitions | Markdown2PDF.py:72-78 | The loop builds `"\n\n"` followed by every citation's definition in order, or `""` for no citations. |
| Preprocessing.ReplaceImages | Markdown2PDF.py:93-98 | The replacement never shortens the text (the spacer is longer than the placeholder). Text without a placeholder passes unchanged. |
| Preprocessing.ReplaceImagesComplete | Markdown2PDF.py:93-98 | No image placeholder survives the replacement anywhere in its output. |
| Preprocessing.FindTitle | Markdown2PDF.py:101 | The search returns the first line start followed by `# `. When it returns nothing, no such line exists. |
| Preprocessing.StripBeforeTitle | Markdown2PDF.py:101-105 | The result is a suffix of the text. Without a title line the text is kept whole. With one, the cut is made at a title line, and no title line lies in the part dropped, so the result begins at the first title line. |
| Preprocessing.StripBeforeTitleIdempotent | Markdown2PDF.py:101-105 | Stripping a second time changes nothing. |
| Preprocessing.Preprocess | Markdown2PDF.py:93-105 | The text that reaches the citation scan holds no image placeholder. When the replaced text has a title line, this text starts with `# `. |
| PdfName.SkipSpace | Markdown2PDF.py:182 | Greedy `\s*` stops at the first non-whitespace character. |
| PdfName.LastNonNewline | Markdown2PDF.py:182 | When backtracking, `.+` starts at the last position of the whitespace run that is not a line break, if there is one. |
| PdfName.GroupStartAt | Markdown2PDF.py:182 | An attempt of `^#\s*(.+)` that succeeds at a `#` starts group 1 at the last position the backtracking regex could use: after only whitespace, and not on a line break. When it fails, no position works. |
| PdfName.HeadingSearch | Markdown2PDF.py:182 | `re.search` returns the first position where an attempt succeeds. When it returns nothing, no position succeeds. |
| PdfName.HeadingGroup | Markdown2PDF.py:182-184 | There is a group exactly when the search succeeds. The group is the text of `md` from where group 1 starts to the end of that line: non-empty, with no line break, and followed by a line break or the end of the text. |
| PdfName.RemoveForbidden | Markdown2PDF.py:185 | Exactly the characters other than `/ \ ? % * : \| " < >` and line breaks remain. |
| PdfName.RemoveForbiddenChar | Markdown2PDF.py:185 | A single forbidden character is removed, and any other is kept. |
| PdfName.RemoveForbiddenAppend | Markdown2PDF.py:185 | Removing from a concatenation concatenates the removals. With `RemoveForbiddenChar` this fixes the result, order and repetitions included. |
| PdfName.RemoveForbiddenIdentity | Markdown2PDF.py:185 | A title without forbidden characters passes unchanged. |
| PdfName.CleanTitle | Markdown2PDF.py:184-186 | The cleaned title has no forbidden character and neither starts nor ends with whitespace. |
| PdfName.CleanTitleEmpty | Markdown2PDF.py:184-187 | The cleaned title is empty, and the timestamp is used, exactly when the heading holds nothing but whitespace and forbidden characters. |
| PdfName.CleanTitleWithoutForbidden | Markdown2PDF.py:184-186 | A heading without forbidden characters is only stripped. |
| PdfName.Cap | Markdown2PDF.py:192-194 | The title part is at most 100 characters. A title within the limit is kept. A longer one is cut to a prefix of its first 100 characters that does not end in whitespace, and only whitespace among those 100 is dropped. |
| PdfName.CapKeepsEnds | Markdown2PDF.py:192-194 | Capping a title that starts and ends with non-whitespace keeps a non-empty prefix that also starts and ends with non-whitespace. |
| PdfName.SuggestedTitle | Markdown2PDF.py:181-194 | The title part is at most 100 characters. Every character in it either is not forbidden or comes from the timestamp. |
| PdfName.SuggestedTitleFromHeading | Markdown2PDF.py:182-194 | A heading that cleans to a non-empty title gives a non-empty prefix of it. That prefix has no forbidden character and no surrounding whitespace. |
| PdfName.SuggestedTitleFallback | Markdown2PDF.py:187-194 | With no heading, or one that cleans to nothing, the title is the (capped) timestamp. |
| PdfName.TimestampClean | Markdown2PDF.py:188 | A `%Y-%m-%d_%H-%M-%S` timestamp holds only digits, `-` and `_`. It is 19 characters long for a four-digit year. |
| PdfName.SuggestedPdfNameClean | Markdown2PDF.py:181-196 | With a clock reading as the fallback, the suggested title never holds a forbidden character. |
| PdfName.SuggestedPdfName | Markdown2PDF.py:196 | The suggested name ends in `.pdf` and is at most 104 characters long. |
| PdfName.WithPdfSuffix | Markdown2PDF.py:275-276 | The save path ends in `.pdf` in some letter case. A path that already does is kept unchanged. Any other path gets `.pdf` appended. |
| PdfName.WithPdfSuffixIdempotent | Markdown2PDF.py:275-276 | Applying the rule twice changes nothing. |
| PdfName.SuggestedNameKeepsSuffix | Markdown2PDF.py:275-276 | Accepting the suggested name as the save path keeps it as it is. |
| Conversion.FinalMarkdown | Markdown2PDF.py:107-110 | The Markdown for Pandoc starts with the rewritten body. It is exactly that body when there are no citation records, and has the definitions appended otherwise. |
| Conversion.ConvertMarkdown | Markdown2PDF.py:92-110 | The text for Pandoc is the rewritten pre-processed body followed by the definitions block. The References page (lines 145 and 159-160) is added exactly when there are citation records. |
| Conversion.PlaceholderLooksLikeCitation | Markdown2PDF.py:93-98 | The image placeholder has the shape of a citation (name `image`, empty URL), which is why it is replaced before the citations are processed. |
| Conversion.NoCitationsUnchanged | Markdown2PDF.py:107-110 | Markdown with no citation after pre-processing reaches Pandoc as pre-processed, with nothing appended. |

## Left out

- File reading, the temporary file, the Pandoc invocation and its LaTeX header and References templates, the clipboard readers, the native save dialogs, argument parsing and the error exits: these are I/O and calls into other programs. Only whether the References page is passed (`includeAfter`) is kept.
- `time.strftime` is a parameter. `SuggestedTitle` and `SuggestedPdfName` take the timestamp text. `Timestamp` renders a given clock reading, and leaves out the local time zone and the clock itself.
- The warning printed when no title line is found is output only. The model keeps the text unchanged in that case.
- `Text.IsAlnum` covers ASCII letters and digits only. Python's `str.isalnum` also accepts other Unicode letters and digits, so the effective-start rule is modelled for ASCII text before a citation.
- `Text.LowerChar` lowers ASCII letters only. No other character lowers to `.`, `p`, `d` or `f`, so the `.pdf` test is unaffected.
- `Text.IsSpace` is the fixed list of code points that `str.isspace` accepts. Python's `\s` in `str` patterns and `str.strip()` use the same set.
- The two sorts are not modelled as general sorting. `SpliceReplacements` reverses `match_data`. `SortIsReversal` proves that any rearrangement of the spans that is descending by effective start equals that reverse. The sort of the dict values is modelled as the identity: `TableValues` proves that the values already carry the numbers 1, 2, ... in insertion order.
- The splice on a mutable character list is modelled on sequences: each step rebuilds the text from the slices before and after the span.
- Footnotes.EscapeRoundTrip: requires the URL to hold no `%`. A URL that already contains `%20` cannot be told apart from an escaped space.
- Footnotes.LinesCount: requires the names to hold no line break. `[^\]]+` admits line breaks in a name, and then a definition spans several lines.
- Conversion.ConvertMarkdown: the source's `print` of the warning and the Pandoc command line are not modelled.
