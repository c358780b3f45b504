# skywrite core, modelled in Dafny

skywrite is a thesis-writing workspace. Its core, modelled here, has four parts.

- **The LaTeX-to-Word converter** (`core/scripts/Latex2word.py`, class `LatexToWordConverter`).
  - It loads a `.bib` file into a map from key to an author-year reference string.
  - It resolves `\cite`-style commands to `(Surname, Year; ...)` texts. A key it cannot find becomes a `***MISSING_REF:key***` marker.
  - It cuts each chapter into blocks at blank lines. Each block becomes a numbered heading, a table or a styled paragraph.
  - Paragraphs are made of runs: bold, italic, or red for a missing key.
  - It closes the document with the bibliography of the cited keys and a report of the missing ones.
  - The model is the class `Converter.LatexToWordConverter`. Its fields are the bibliography, the cited and missing key sets, the section counters and the document.
  - The document is an append-only log of blocks (`Docx.Block`).
  - Every method is proved against pure definitions in `BibStore`, `Citations`, `LatexClean`, `Tokenizer`, `Inline`, `Tables`, `Segmenter`, `References` and `Inputs`. Their loops live in `Steps`.
- **The thesis-analysis library.**
  - The newer `src/lib/thesis-analysis.ts` is modelled in `Sections`, `Checklist`, `Feedback`, `Rules`, `CitationCheck`, `TextMeasures` and `Thesis`.
  - The older `lib/thesis-analysis.ts` is modelled in `LegacyAnalysis`.
  - Its tables, from `types/thesis-analysis.ts`, are in `AnalysisTypes` and `AnalysisPatterns`.
  - The library finds the sections of a thesis and scores each against its default checklist. It gives each section feedback and a priority, checks the style rules, counts uncited assertions, and combines everything into an overall score.
- **The PDF line classifier** (`markdownToLines` in `src/lib/pdf-generator.ts`), modelled in `PdfLines`.
- **The editor helpers**, each modelled in a module of the same name:
  - `BibliographyEditor`: the BibTeX reader and writer of the reference editor, and its list handlers;
  - `MarkdownEditor`: the citation widgets, completion and key edits of the Markdown editor;
  - `ReferenceFiles`: the reference-file upload route, its style-pattern detectors and the sanitising of model answers;
  - `FileTree`: grouping, rename, duplicate and create in the project file tree. Its state is the class `FileTree.FileTreeState`.

Regular expressions with a fixed meaning are written out as matchers, with Python's or JavaScript's semantics as the case may be. Examples are `@(\w+)\s*\{`, `\*\*([^*]+)\*\*` and `\[@([^\]]+)\]`. The patterns of the thesis-analysis tables are only ever handed to the regular-expression engine, so there the engine is a parameter (`AnalysisPatterns.Finder`). `Strings` and `Scan` hold the shared text utilities: whitespace classes, strip, split, join, search, and `re.sub`-style scanning.

## Model

| member | source | states |
|---|---|---|
| BibStore.EntryAt | core/scripts/Latex2word.py:179 | a match of the entry pattern starts at `@` and stays inside the text; its key is non-empty and holds no comma or blank; its body holds no `@` |
| BibStore.BodyOf | core/scripts/Latex2word.py:179 | the lazy body group stops before the next line-initial `@` and so holds no `@`; it never runs past the text |
| BibStore.Processed | core/scripts/Latex2word.py:181-186 | at most 500 entries are processed; they are the first entries in text order, and all of them when there are fewer than 500 |
| BibStore.FieldAt | core/scripts/Latex2word.py:198 | a field value matched by `name\s*=\s*{[^}]*}` holds no `}` |
| BibStore.SearchField | core/scripts/Latex2word.py:199 | the leftmost match of the field pattern, again without `}` |
| BibStore.FieldsFrom | core/scripts/Latex2word.py:197-201 | only the names searched for become keys, and every value is free of `}` |
| BibStore.ExtractFields | core/scripts/Latex2word.py:193-201 | a field dictionary only ever holds the ten simple field names |
| BibStore.Load | core/scripts/Latex2word.py:205 | loading entries adds exactly their keys to the bibliography |
| BibStore.LoadLastWins | core/scripts/Latex2word.py:205 | when two entries share a key the later one's reference is kept |
| BibStore.LoadKeeps | core/scripts/Latex2word.py:205 | keys no loaded entry uses keep their earlier reference |
| BibStore.ProcessedBound | core/scripts/Latex2word.py:184-186 | one .bib text adds at most 500 new keys |
| BibStore.HeadParts | core/scripts/Latex2word.py:209-225 | the year shown never contains `-` (a date is cut to its year) and the author shown never contains ` and ` (only the first author is kept) |
| BibStore.CleanPlain | core/scripts/Latex2word.py:214-216 | a value without braces or surrounding blanks is left as it is by the cleaning |
| BibStore.PlainHead | core/scripts/Latex2word.py:209-225 | with a plain author and year and no date, the head is `Author (Year). ` |
| BibStore.PlainArticleVenue | core/scripts/Latex2word.py:227-240 | an article with a journal and no volume or pages ends in `Title. *Journal*.` |
| BibStore.ArticleReference | core/scripts/Latex2word.py:207-240 | an article with author, year, title and journal only renders as `Author (Year). Title. *Journal*.` |
| BibStore.ArticleExample | core/scripts/Latex2word.py:207-240 | the worked example renders as `Smith, J. (2020). Title X. *Journal*.` |
| BibStore.ParsedBook | core/scripts/Latex2word.py:242-254 | a book read from a .bib text never shows a location (the field is never extracted): `*Title*.` plus ` Publisher.` when there is one |
| BibStore.ParsedProceedings | core/scripts/Latex2word.py:256-268 | a proceedings or collection paper read from a .bib text never shows an editor: `Title.` plus ` In *Booktitle*.` when there is one |
| BibStore.NoEditorVenue | core/scripts/Latex2word.py:256-268 | for either proceedings type and fields without an editor, the venue is `Title.` plus ` In *Booktitle*.` when there is a booktitle |
| Citations.AuthorYear | core/scripts/Latex2word.py:368 | a match of `^([^(]+)\s*\((\d{4})\)` gives a non-empty author without `(` and four digits, and the reference starts with `author(year)` |
| Citations.CiteKeys | core/scripts/Latex2word.py:358-362 | the keys are the comma-separated pieces of the argument, each stripped, one per piece |
| Citations.CiteAt | core/scripts/Latex2word.py:348-357 | a citation match starts with `cmd{`, ends with `}` and stays inside the text |
| Citations.CiteKeysShape | core/scripts/Latex2word.py:358-362 | there is one key more than there are commas; no key holds a comma or surrounding blanks |
| Citations.MarkerIffMissing | core/scripts/Latex2word.py:365-386 | a key is rendered as the missing marker exactly when the bibliography lacks it |
| Citations.AuthorYearOfHead | core/scripts/Latex2word.py:368 | the head `Author (Year). ` that the formatter writes is recognised, with the blank before `(` kept in the author |
| Citations.ResolveFormatted | core/scripts/Latex2word.py:365-380 | citing a reference the converter formatted shows the short author and the year |
| Citations.UnknownAuthorShort | core/scripts/Latex2word.py:376-378 | the default author `Unknown Author` is cited as `Author` (its last word) |
| Citations.NoCommandUnchanged | core/scripts/Latex2word.py:393-396 | text without a backslash goes through every citation pass unchanged |
| Citations.ProcessCitationsPlain | core/scripts/Latex2word.py:346-396 | text without a backslash is returned unchanged, and no key is recorded |
| Citations.RenderSingle | core/scripts/Latex2word.py:388-389 | a single key is shown on its own between parentheses |
| Citations.SingleCitation | core/scripts/Latex2word.py:348-391 | `cmd{key}` is one whole match that records its key and renders `(resolved key)` |
| LatexClean.CommentAt | core/scripts/Latex2word.py:279 | `%.*$` matches exactly where the text starts with `%`, takes at least that sign and leaves nothing in its place |
| LatexClean.EndOfLast | core/scripts/Latex2word.py:342 | the position after the last occurrence of a character: it is preceded by that character and no occurrence follows |
| LatexClean.CleanForWord | core/scripts/Latex2word.py:508-541 | the text kept for Word holds only allowed characters (printable, tab, newline, carriage return or one of the kept Unicode categories) and no blank at either end |
| LatexClean.CleanForWordIdempotent | core/scripts/Latex2word.py:508-541 | cleaning for Word twice is the same as cleaning once |
| LatexClean.NoPercentAfterComments | core/scripts/Latex2word.py:279 | no `%` survives comment removal |
| LatexClean.SqueezeNoDouble | core/scripts/Latex2word.py:341 | after ` +` is replaced by one space no two spaces are adjacent |
| LatexClean.CollapseNoDouble | core/scripts/Latex2word.py:342 | collapsing runs of blank lines brings no two spaces together |
| LatexClean.TidyShape | core/scripts/Latex2word.py:341-344 | the tidied text has no blank at either end and no two adjacent spaces |
| LatexClean.CleanLatexShape | core/scripts/Latex2word.py:273-344 | the cleaned text has the same shape, whatever the LaTeX-to-text step returns |
| LatexClean.RewritesPlain | core/scripts/Latex2word.py:331-332 | text without a backslash passes a table of backslash patterns unchanged |
| LatexClean.TableEscaped | core/scripts/Latex2word.py:285-329 | every pattern of the converter's replacement table starts with a backslash |
| Tokenizer.MissingAt | core/scripts/Latex2word.py:418 | a missing-reference marker match carries a non-empty key without `*` and is exactly the marker of that key |
| Tokenizer.DelimAt | core/scripts/Latex2word.py:436-464 | a bold or italic match carries a non-empty group without `*` between the two delimiters |
| Tokenizer.FindFrom | core/scripts/Latex2word.py:419-420 | `re.search` finds the leftmost position at which the pattern matches, with the match inside the text |
| Tokenizer.CutLoop | core/scripts/Latex2word.py:419-433 | the `while re.search` loop yields the text before each match, then the match, then goes on with the rest |
| Tokenizer.CutStep | core/scripts/Latex2word.py:421-431 | one turn of the loop: the text before the match when non-empty, the marked part, and the cut of the rest |
| Tokenizer.MarkPass | core/scripts/Latex2word.py:437-461 | the bold or italic pass cuts every plain part and keeps formatted parts as they are |
| Tokenizer.Tokenize | core/scripts/Latex2word.py:413-493 | the paragraph's parts are the missing pass, then the bold pass, then the italic pass |
| Tokenizer.RenderAppend | core/scripts/Latex2word.py:413-493 | putting the markers back distributes over concatenated parts |
| Tokenizer.CutRenders | core/scripts/Latex2word.py:419-433 | a pass on one text loses nothing: the parts with their markers put back are the text |
| Tokenizer.RenderJoin | core/scripts/Latex2word.py:421-431 | one step of the cut is lossless |
| Tokenizer.PassRenders | core/scripts/Latex2word.py:437-461 | a whole bold or italic pass is lossless |
| Tokenizer.MatchersWrap | core/scripts/Latex2word.py:418-464 | each of the three patterns matches its group wrapped in its own markers |
| Tokenizer.PartsRender | core/scripts/Latex2word.py:413-493 | tokenizing is lossless: the parts with their markers put back are the cleaned paragraph |
| Tokenizer.CutFlags | core/scripts/Latex2word.py:419-433 | a cut sets at most one flag per part |
| Tokenizer.PassFlags | core/scripts/Latex2word.py:437-461 | a pass keeps at most one flag per part |
| Tokenizer.PartsFlags | core/scripts/Latex2word.py:439-467 | no part is ever both bold and italic, or formatted and missing |
| Tokenizer.CutStarFree | core/scripts/Latex2word.py:418-433 | the flagged parts of a cut hold no `*` |
| Tokenizer.PassStarFree | core/scripts/Latex2word.py:437-461 | a pass keeps flagged parts free of `*` |
| Tokenizer.PartsStarFree | core/scripts/Latex2word.py:413-493 | a flagged part never holds a star, so a key with a star is never shown whole as missing |
| Tokenizer.FindFromNone | core/scripts/Latex2word.py:419 | the search fails when no position matches |
| Tokenizer.NoStarNoMatch | core/scripts/Latex2word.py:418-464 | none of the three patterns matches text without `*` |
| Tokenizer.NoStarParts | core/scripts/Latex2word.py:438-493 | text without a star is one plain part, or none when it is empty |
| Tokenizer.MarkerParts | core/scripts/Latex2word.py:418-428 | the marker of a key without a star is one missing part holding the key |
| Docx.MaxLen | core/scripts/Latex2word.py:578 | the widest row's length: no row is longer, some row has that length, and it is 0 for no rows |
| Docx.Grid | core/scripts/Latex2word.py:583 | the table python-docx builds keeps the rows and is as wide as the longest of them |
| Docx.GridCells | core/scripts/Latex2word.py:588-592 | every cell holds the row's text at that column, cells beyond a row's end are empty, and some row fills the width |
| Inline.RunOf | core/scripts/Latex2word.py:495-506 | a part gives at most one run: its text cleaned for Word, with the part's bold and italic flags, red exactly for a missing reference |
| Inline.RunsOf | core/scripts/Latex2word.py:495-506 | the runs of the parts are Word-safe and keep one flag each |
| Inline.InlineFormatting | core/scripts/Latex2word.py:408-506 | every run is Word-safe text with at most one flag; the citation keys recorded are those of cleaning the text |
| Inline.FormattedParagraph | core/scripts/Latex2word.py:398-406 | blank text adds nothing; other text adds one paragraph of the given style holding its runs |
| Inline.WholeFallbackUnused | core/scripts/Latex2word.py:492-493 | the fallback to one plain part never applies: a non-empty text always has parts |
| Inline.MissingRun | core/scripts/Latex2word.py:418-506 | the marker of a missing key becomes exactly one red run holding the key |
| Inline.CleanForWordNoChar | core/scripts/Latex2word.py:508-541 | cleaning for Word brings in no character |
| Inline.RedRunsStarFree | core/scripts/Latex2word.py:418-506 | red runs never hold a `*` |
| Inline.StarKeyNeverRed | core/scripts/Latex2word.py:418 | a key holding a star is never shown as a red run of its own |
| Inline.LeadingBlankDropped | core/scripts/Latex2word.py:496-541 | a blank at the front of a part is stripped with it, so the space between two runs is lost |
| Tables.CleanAll | core/scripts/Latex2word.py:567-570 | every cell is cleaned, in order, one result per cell |
| Tables.RawCells | core/scripts/Latex2word.py:563-564 | a row line gives one cell per `&`-separated piece of the stripped line without `\\` |
| Tables.Lines | core/scripts/Latex2word.py:549-552 | one stripped line per line of the text |
| Tables.Select | core/scripts/Latex2word.py:551-558 | the selected lines are accepted lines of the text, in order |
| Tables.SelectNone | core/scripts/Latex2word.py:576 | nothing is selected exactly when no line is accepted |
| Tables.SelectAppend | core/scripts/Latex2word.py:551-573 | selecting commutes with appending lines |
| Tables.RowsFrom | core/scripts/Latex2word.py:566-573 | one row per selected line, holding that line's cells cleaned |
| Tables.TableRows | core/scripts/Latex2word.py:551-573 | one row per row line, each of at least two cells |
| Tables.RowLineWidth | core/scripts/Latex2word.py:561-564 | a line with `&` has at least two cells |
| Tables.ProcessTableOk | core/scripts/Latex2word.py:543-603 | a table is made exactly when some line is a row line, with one row per row line and at least two columns; otherwise nothing is added |
| Tables.SimpleCells | core/scripts/Latex2word.py:651-658 | a candidate data line always has cells |
| Tables.ProcessSimpleTable | core/scripts/Latex2word.py:631-682 | at least two candidate lines give one table with a row per candidate; fewer give nothing |
| Tables.CountInformal | core/scripts/Latex2word.py:881-895 | the count of informal lines never exceeds the number of lines |
| Tables.VowelOpenerExcluded | core/scripts/Latex2word.py:887-889 | a line starting with the letter a or o in either case never counts, whatever word it starts |
| Tables.InformalCells | core/scripts/Latex2word.py:920-931 | cells are cut at colons, else at en or em dashes, else are the words when at most three, else the first two words and the rest |
| Tables.InformalRows | core/scripts/Latex2word.py:904-934 | every kept row has at least two cells |
| Tables.Header | core/scripts/Latex2word.py:942-944 | the added header is `Capítulo`, `Conteúdo` and then `Coluna 3` up to `Coluna n` |
| Tables.InformalTableShape | core/scripts/Latex2word.py:937-962 | the informal table is as wide as its widest row, and holds the kept rows, behind the header when the first cell does not name a chapter |
| Inputs.TexName | core/scripts/Latex2word.py:709-710 | the input's file name ends in `.tex`, and a name already ending so is kept |
| Inputs.InputAt | core/scripts/Latex2word.py:705 | an `\input{name}` match starts with `\input{` and has a non-empty name |
| Inputs.NoInputKept | core/scripts/Latex2word.py:701-720 | a text with no `\input{` is left as it is |
| Inputs.MissingFileDropped | core/scripts/Latex2word.py:713-718 | an input of a file that does not exist is replaced by nothing |
| Inputs.FileExpanded | core/scripts/Latex2word.py:713-715 | an input of an existing file gives that file's own expansion, its definitions replaced first |
| Inputs.InputFound | core/scripts/Latex2word.py:705-708 | `\input{name}` is recognised with its whole name |
| Segmenter.BracedLen | core/scripts/Latex2word.py:1022-1026 | a `lead[^}]*}` match starts with the lead and ends inside the text |
| Segmenter.DictumLen | core/scripts/Latex2word.py:1020 | a `\dictum[..]{..}` match starts with `\dictum[` and stays inside the text |
| Segmenter.VskipLen | core/scripts/Latex2word.py:1021 | a `\vskip` match starts with `\vskip` and stays inside the text |
| Segmenter.Erase | core/scripts/Latex2word.py:1029-1030 | every match of a removal pattern is replaced by nothing |
| Segmenter.QuietPrefix | core/scripts/Latex2word.py:1029-1030 | the removal scan copies a prefix without backslashes unchanged |
| Segmenter.NoBackslashKept | core/scripts/Latex2word.py:1017-1032 | text without a backslash comes out of command removal as it is |
| Segmenter.TwoQuiet | core/scripts/Latex2word.py:1029-1030 | two markers at which a pattern does not fire come through its scan unchanged |
| Segmenter.BracedFront | core/scripts/Latex2word.py:1025-1026 | `lead[^}]*}` matches exactly through the first closing brace |
| Segmenter.DeleteFront | core/scripts/Latex2word.py:1030 | a match at the front is deleted and the scan resumes after it |
| Segmenter.FirstFiveKeep | core/scripts/Latex2word.py:1020-1024 | the first five removal patterns leave an environment's markers alone |
| Segmenter.BeginPass | core/scripts/Latex2word.py:1025 | the `\begin{..}` pass deletes the opening marker and steps over the closing one |
| Segmenter.EndPass | core/scripts/Latex2word.py:1026 | the `\end{..}` pass deletes the closing marker |
| Segmenter.EnvironmentRemoved | core/scripts/Latex2word.py:1017-1032 | an environment in text without other commands loses both markers and keeps its body, so later table checks cannot see it |
| Segmenter.ParaBreakLen | core/scripts/Latex2word.py:754 | a paragraph break match stays inside the text |
| Segmenter.Blocks | core/scripts/Latex2word.py:754 | splitting at paragraph breaks gives at least one block |
| Segmenter.CommandAt | core/scripts/Latex2word.py:762-810 | a `lead{title}` match has a non-empty title without `}` and is exactly the command |
| Segmenter.SubDepth | core/scripts/Latex2word.py:778 | the count of repeated `sub` prefixes fits in the text |
| Segmenter.SectionAt | core/scripts/Latex2word.py:778 | a section match starts at a backslash and has a non-empty title |
| Segmenter.SectionType | core/scripts/Latex2word.py:780 | the section type is `sub` repeated `depth` times then `section` |
| Segmenter.HeadingLevel | core/scripts/Latex2word.py:737-746 | the level is at most 4, and 0 exactly for `chapter` |
| Segmenter.SectionLevels | core/scripts/Latex2word.py:739-780 | section to subsubsection are levels 1 to 3; a deeper `(sub)*section` is not in the map and falls back to level 1 |
| Segmenter.Numbered | core/scripts/Latex2word.py:784-792 | a section raises the section count and resets the subsection count; a subsection raises the subsection count; deeper ones change nothing and carry no number; a number is given exactly to the first two depths |
| Segmenter.ChapterStep | core/scripts/Latex2word.py:764-765 | a chapter raises the chapter count and resets only the section count |
| Segmenter.EnvLen | core/scripts/Latex2word.py:985-988 | an environment match starts with its opening marker and stays inside the text |
| Segmenter.MatchesFrom | core/scripts/Latex2word.py:994 | the environment matches are in bounds, start at an opening marker, and do not overlap, in order |
| Segmenter.Take | core/scripts/Latex2word.py:999 | Python's `r[:k]` clamps `k` to the length |
| Segmenter.Drop | core/scripts/Latex2word.py:1011 | Python's `r[k:]` is empty past the end |
| Segmenter.ChapterOut | core/scripts/Latex2word.py:763-775 | a chapter heading leaves the counters of a chapter step |
| Segmenter.SectionOut | core/scripts/Latex2word.py:779-807 | a section heading leaves the counters of its depth |
| Segmenter.BlockOut | core/scripts/Latex2word.py:756-846 | a chapter block steps the chapter, a section block the counters of its depth, and every other block leaves the counters alone |
| Segmenter.IncludeGraphicsSkipped | core/scripts/Latex2word.py:824-831 | the skip patterns are searched anywhere, so `\include` also drops every block holding an `\includegraphics` |
| Segmenter.AmpersandsThenIff | core/scripts/Latex2word.py:977 | the row signature `&.*&.*\\` holds exactly when two ampersands come before a `\\` on one line |
| Segmenter.MatchesOpen | core/scripts/Latex2word.py:994 | environment spans are found only where the text opens the environment |
| Segmenter.EnvLoopQuiet | core/scripts/Latex2word.py:993-1011 | without an opened environment the table loop leaves the text and appends nothing |
| Segmenter.NoEnvironmentPlain | core/scripts/Latex2word.py:981-1015 | without an opened table environment the whole text becomes one Normal paragraph |
| Segmenter.SignatureRouteIsNormal | core/scripts/Latex2word.py:981-1015 | a block that reaches the table route through the row signature alone comes out as one Normal paragraph, rows and all |
| Segmenter.ChapterTitleNotBlank | core/scripts/Latex2word.py:768 | the chapter title `Capítulo n: title` is never blank |
| Segmenter.HeadingFirst | core/scripts/Latex2word.py:769-774 | a heading appends its title in its style, then the rest as Normal |
| Segmenter.ChapterBlock | core/scripts/Latex2word.py:762-775 | a chapter is announced as `Capítulo n: title` in the Chapter style, `n` being the new count, before the rest of its block |
| Segmenter.SectionBlock | core/scripts/Latex2word.py:778-807 | a section heading gets the heading style of its depth and a number for a section or a subsection only |
| Segmenter.CountChapters | core/scripts/Latex2word.py:762-764 | the count of chapter blocks never exceeds the block count |
| Segmenter.StructureCounts | core/scripts/Latex2word.py:756-807 | the chapter count rises by exactly the number of chapter blocks, and the subsubsection count never changes |
| Segmenter.StructureAppend | core/scripts/Latex2word.py:756 | blocks are processed in order: the output of a concatenation is that of the first part followed by that of the second |
| Segmenter.DefAt | core/scripts/Latex2word.py:724 | a `\def\name{value}` match has a non-empty name without `{` and a non-empty value without `}` |
| Segmenter.DefShape | core/scripts/Latex2word.py:724 | `\def\name{value}` is recognised with its whole name and value |
| Segmenter.Assign | core/scripts/Latex2word.py:730 | `d[k] = v` keeps keys distinct and changes only the value of `k` |
| Segmenter.DictOf | core/scripts/Latex2word.py:725-730 | the collected definitions have distinct names |
| Segmenter.LastDefinitionWins | core/scripts/Latex2word.py:727-730 | a later definition of a name wins |
| Segmenter.NeverDefined | core/scripts/Latex2word.py:725-730 | a name never defined has no value |
| Segmenter.PrefixRewritten | core/scripts/Latex2word.py:733 | the replacement is a plain substring one: the name `\foo` also rewrites the start of `\foobar` |
| Segmenter.NoBackslashNoDefs | core/scripts/Latex2word.py:722-735 | text without a backslash is left as it is |
| References.SortedOfShape | core/scripts/Latex2word.py:1045 | `sorted` of a key set is strictly increasing and holds exactly the set's keys |
| References.SortedKeys | core/scripts/Latex2word.py:1045 | the sorting loop takes the least remaining key each time and yields the sorted keys |
| References.Used | core/scripts/Latex2word.py:1044-1047 | the used references are the cited keys the bibliography holds, in citation order |
| References.UsedSorted | core/scripts/Latex2word.py:1044-1047 | dropping the keys the bibliography lacks keeps the order |
| References.RefsOut | core/scripts/Latex2word.py:1050-1054 | one Bibliography paragraph per used key, in order, each holding the runs of its formatted reference |
| References.RefsLoop | core/scripts/Latex2word.py:1044-1054 | the loop over the sorted keys appends those paragraphs |
| References.BibliographyLists | core/scripts/Latex2word.py:1034-1054 | the bibliography lists exactly the cited keys it holds, each once, in increasing key order, each as its formatted reference |
| References.MissingLines | core/scripts/Latex2word.py:1072-1081 | one report line per missing key |
| References.ReportLists | core/scripts/Latex2word.py:1056-1081 | the report lists exactly the missing keys, once each, in increasing order, each as a red bullet followed by the red key |
| References.MissingLoop | core/scripts/Latex2word.py:1072-1081 | the report loop appends those lines |
| Steps.LoadedAll | core/scripts/Latex2word.py:182-186 | the loop stops with all the entries, or with the first 500 when there are more |
| Steps.LoadEntries | core/scripts/Latex2word.py:176-205 | the entry loop loads the processed entries in order, a later entry overwriting an earlier one |
| Steps.CitationPasses | core/scripts/Latex2word.py:393-396 | the citation patterns are applied one after the other |
| Steps.RewriteAll | core/scripts/Latex2word.py:331-332 | the replacement table is applied pattern by pattern, each to the whole text |
| Steps.CleanText | core/scripts/Latex2word.py:273-344 | `clean_latex_text` returns the cleaned text and the citation keys met |
| Steps.PartRun | core/scripts/Latex2word.py:496-506 | a part gives a run unless it is blank or cleaning leaves nothing of it |
| Steps.RunsLoop | core/scripts/Latex2word.py:495-506 | the run loop adds one run per part that keeps some text |
| Steps.InlineRuns | core/scripts/Latex2word.py:408-506 | `process_inline_formatting`: clean, tokenize and make the runs |
| Steps.FormattedOut | core/scripts/Latex2word.py:398-406 | `add_formatted_paragraph` |
| Steps.CleanCells | core/scripts/Latex2word.py:567-570 | each cell cleaned in order |
| Steps.TableLine | core/scripts/Latex2word.py:551-573 | a blank, comment or table-command line gives nothing; any other line with `&` gives a row of cleaned cells |
| Steps.TableRowsLoop | core/scripts/Latex2word.py:551-573 | the line loop of `process_table` gives one row per row line |
| Steps.TableOut | core/scripts/Latex2word.py:543-603 | `process_table`: whether a table was made, and what it appends |
| Steps.SelectLines | core/scripts/Latex2word.py:637-642 | the stripped lines that look like table data, in order |
| Steps.RowsLoop | core/scripts/Latex2word.py:649-661 | one row of cleaned cells per candidate line |
| Steps.SimpleTableOut | core/scripts/Latex2word.py:631-682 | `process_simple_table_data` |
| Steps.InformalLine | core/scripts/Latex2word.py:905-934 | a data line is cleaned and cut into cells, and kept when it has at least two |
| Steps.InformalCut | core/scripts/Latex2word.py:918-934 | the cut of a cleaned data line, kept with two cells or more |
| Steps.InformalRowsLoop | core/scripts/Latex2word.py:904-934 | the line loop of `process_informal_table` |
| Steps.InformalTableOut | core/scripts/Latex2word.py:897-967 | `process_informal_table`: a table when two rows were kept, else one Normal paragraph |
| Steps.TableOrSimpleOut | core/scripts/Latex2word.py:1004-1008 | `process_table`, then the simple extraction when no table was made |
| Steps.MatchLoop | core/scripts/Latex2word.py:995-1011 | the loop over one pattern's matches, found in the text before the loop and applied to the text as cut so far |
| Steps.ParagraphWithTableOut | core/scripts/Latex2word.py:981-1015 | `process_paragraph_with_table`: the patterns in turn, then what is left as a Normal paragraph |
| Steps.BodyOutM | core/scripts/Latex2word.py:820-846 | a block without a heading: skipped, a table, a definition, a list, an informal table or a Normal paragraph |
| Steps.ChapterBlockStep | core/scripts/Latex2word.py:762-775 | a chapter block: counters stepped, numbered title, the rest |
| Steps.SectionBlockStep | core/scripts/Latex2word.py:778-807 | a section block of depth `d` |
| Steps.ParagraphBlockStep | core/scripts/Latex2word.py:810-818 | a `\paragraph` block: its title as Heading 4, then the rest |
| Steps.PlainBlockStep | core/scripts/Latex2word.py:756-846 | a block without a heading |
| Steps.BlockStep | core/scripts/Latex2word.py:756-846 | one block of `process_latex_structure` |
| Steps.StructureLoop | core/scripts/Latex2word.py:748-846 | commands removed, the text cut into blocks, the blocks handled in order with the counters threaded through |
| Converter.SetOf | core/scripts/Latex2word.py:363 | the keys of a citation, as a set |
| Converter.MissingOf | core/scripts/Latex2word.py:383-385 | the keys of a citation the bibliography lacks |
| Converter.Emit | core/scripts/Latex2word.py:363-403 | an operation appends its blocks, adds every key it met to the citations and every such key the bibliography lacks to the missing ones, and changes nothing else |
| Converter.EmitThen | core/scripts/Latex2word.py:398-406 | two operations one after the other emit what they emit together |
| Converter.EmitConsistent | core/scripts/Latex2word.py:363-386 | emitting keeps the missing keys a subset of the cited ones, and keeps them exactly the cited keys the bibliography lacks |
| Converter.ChaptersExact | core/scripts/Latex2word.py:1108-1114 | along the chapter loop the missing keys stay exactly the cited keys the bibliography lacks, and the bibliography is not changed |
| Converter.ClosingExact | core/scripts/Latex2word.py:1118-1122 | the closing sections keep the missing keys exact |
| Converter.ConversionExact | core/scripts/Latex2word.py:1085-1122 | after `convert`, a key is missing exactly when it was cited and the bibliography lacks it, and the bibliography is the one loaded from the .bib file |
| Converter.ReportShowsMissing | core/scripts/Latex2word.py:1072-1081 | every key missing once the report is written is one of its lines |
| Converter.ReportedAreMissing | core/scripts/Latex2word.py:1085-1122 | the finished document lists every key that was cited and not found |
| Converter.LatexToWordConverter.constructor | core/scripts/Latex2word.py:50-59 | a new converter starts with an empty bibliography, no citations, no missing keys, zero counters and an empty document |
| Converter.LatexToWordConverter.NoteKeys | core/scripts/Latex2word.py:361-386 | each key of a citation is cited, and missing when the bibliography lacks it |
| Converter.LatexToWordConverter.Commit | core/scripts/Latex2word.py:403-406 | an operation's blocks are appended and its keys noted |
| Converter.LatexToWordConverter.ParseBibliographyContent | core/scripts/Latex2word.py:176-205 | only the bibliography changes: the text's processed entries are loaded into it |
| Converter.LatexToWordConverter.ProcessCitations | core/scripts/Latex2word.py:346-396 | the text with its citations replaced, and every key of every citation noted |
| Converter.LatexToWordConverter.CleanLatexText | core/scripts/Latex2word.py:273-344 | the cleaned text, and the citation keys cleaning met noted |
| Converter.LatexToWordConverter.ProcessInlineFormatting | core/scripts/Latex2word.py:408-506 | the runs the text is cut into, and the keys noted |
| Converter.LatexToWordConverter.AddFormattedParagraph | core/scripts/Latex2word.py:398-406 | the paragraph appended and its keys noted |
| Converter.LatexToWordConverter.ProcessTable | core/scripts/Latex2word.py:543-603 | whether a table was made, with the table appended and the cells' keys noted |
| Converter.LatexToWordConverter.ProcessSimpleTableData | core/scripts/Latex2word.py:631-682 | the simple table appended when there are two candidate lines |
| Converter.LatexToWordConverter.ProcessInformalTableM | core/scripts/Latex2word.py:897-967 | the informal table, or the text as a Normal paragraph |
| Converter.LatexToWordConverter.ProcessParagraphWithTable | core/scripts/Latex2word.py:981-1015 | the text around the tables and the tables, in order |
| Converter.LatexToWordConverter.ProcessLatexStructure | core/scripts/Latex2word.py:748-846 | the blocks appended and the counters moved on |
| Converter.LatexToWordConverter.AddBibliography | core/scripts/Latex2word.py:1034-1054 | nothing without citations; else a page break, the heading and one paragraph per used reference |
| Converter.LatexToWordConverter.AddMissingReferencesReport | core/scripts/Latex2word.py:1056-1081 | nothing without missing keys; else a page break, the heading, the explanation and one red line per missing key |
| Converter.LatexToWordConverter.ProcessChapters | core/scripts/Latex2word.py:1108-1114 | every chapter text not empty is expanded, processed and followed by a page break; the bibliography is not changed |
| Converter.LatexToWordConverter.Finish | core/scripts/Latex2word.py:1116-1122 | the bibliography, then the report when some citation was not found |
| Converter.LatexToWordConverter.Convert | core/scripts/Latex2word.py:1085-1122 | load the bibliography, add the title, the chapters, the bibliography and the report |
| AnalysisTypes.SystemRulesShape | types/thesis-analysis.ts:51-181 | there are thirteen system rules, all marked as system rules, and the only one switched off is the first-person rule, which applies to every section |
| AnalysisTypes.SystemRuleIdsDistinct | types/thesis-analysis.ts:51-181 | no two system rules share an identifier |
| AnalysisTypes.TotalWeight | src/lib/thesis-analysis.ts:433 | the total weight of items each weighing at least 1 is at least their number |
| AnalysisTypes.ChecklistWeights | types/thesis-analysis.ts:259-342 | every section has a checklist whose items weigh 1 to 3, so its total weight is never zero |
| AnalysisTypes.SectionLabelsDistinct | types/thesis-analysis.ts:344-354 | distinct sections have distinct labels |
| AnalysisTypes.ScoreLabel | types/thesis-analysis.ts:370-375 | `Excelente` exactly from 90, `Bom` exactly from 70 below 90, `Regular` exactly from 50 below 70, `Precisa melhorar` exactly below 50 |
| AnalysisTypes.ScoreColor | types/thesis-analysis.ts:377-382 | the colours step at the same thresholds, each colour exactly for its band |
| AnalysisTypes.ScoreLabelMonotone | types/thesis-analysis.ts:370-375 | a higher score never gets a lower label |
| AnalysisTypes.LabelAndColourAgree | types/thesis-analysis.ts:370-382 | scores with the same label have the same colour, and the other way round |
| AnalysisPatterns.Rank | src/lib/thesis-analysis.ts:23-78 | the place of a section in the order the section patterns are visited, the generic title last |
| AnalysisPatterns.UntrackedHasNoPatterns | src/lib/thesis-analysis.ts:79-297 | the title, abstract and reference items have no detection patterns |
| JsPatterns.Lazy | src/lib/pdf-generator.ts:41-45 | `(.+?)close` takes the shortest non-empty run of non-terminators that `close` follows, and fails only when no such run exists |
| JsPatterns.LazyWhole | src/lib/pdf-generator.ts:41-45 | a group without terminators or the closing character is taken whole |
| TextMeasures.Tokens | src/lib/thesis-analysis.ts:378-379 | `split(/\s+/)` without empty strings: non-empty runs without blanks |
| TextMeasures.CountWords | src/lib/thesis-analysis.ts:375-380 | the word count never exceeds the length of the text |
| TextMeasures.TokensBound | src/lib/thesis-analysis.ts:378-379 | there are never more words than characters |
| TextMeasures.TokensOfJoin | src/lib/thesis-analysis.ts:378-379 | words written with single blanks between them are split back into the same words |
| TextMeasures.CountWordsOfJoin | src/lib/thesis-analysis.ts:375-380 | words with single blanks between them and no markup count as their number |
| TextMeasures.NoWords | src/lib/thesis-analysis.ts:375-380 | a text of nothing but blanks and markup has no words |
| TextMeasures.YearValue | src/lib/thesis-analysis.ts:366-369 | a year match is read as a number from 1900 to 2099 |
| TextMeasures.YearsApart | src/lib/thesis-analysis.ts:366 | two year matches never overlap, so the global search finds every place the pattern matches |
| TextMeasures.ExtractCitationYears | src/lib/thesis-analysis.ts:365-370 | the years are distinct, strictly decreasing, and exactly those found in the text |
| TextMeasures.DescendingFrom | src/lib/thesis-analysis.ts:369 | the found years from `y` down to 1900, largest first |
| TextMeasures.LineNumber | src/lib/thesis-analysis.ts:398-399 | the line of a match is one more than the line breaks before it, the prefix clipped to the text |
| TextMeasures.Percent | src/lib/thesis-analysis.ts:435 | `Math.round(a / b * 100)` for `b > 0`, by the rounding inequalities, and 0 for `b == 0` |
| TextMeasures.PercentBounds | src/lib/thesis-analysis.ts:435 | a share is at most 100; all of it is 100 and none of it 0 |
| TextMeasures.RoundedMean | src/lib/thesis-analysis.ts:1238 | `Math.round(total / n)` by the rounding inequalities, and 0 for no items |
| TextMeasures.RoundedMeanBound | src/lib/thesis-analysis.ts:1238 | the rounded mean of values at most `m` is at most `m` |
| TextMeasures.JsSubstring | src/lib/thesis-analysis.ts:1135 | `substring` clips both ends and, inside the text, is the slice |
| PdfLines.MarkdownToLines | src/lib/pdf-generator.ts:11-52 | one entry per line of the text split at line breaks, in order, each the entry of its trimmed line |
| PdfLines.LinesLoop | src/lib/pdf-generator.ts:15-49 | the loop over the raw lines gives the entry of each trimmed line, in order |
| PdfLines.LinesOf | src/lib/pdf-generator.ts:15-49 | one entry per raw line, each the entry of its trimmed text |
| PdfLines.BlankLine | src/lib/pdf-generator.ts:18-21 | a blank line becomes an empty normal line |
| PdfLines.Headers | src/lib/pdf-generator.ts:24-30 | headers are tried from the deepest: a line is a level-n header exactly when its trimmed text starts with n hashes and a space, and it loses that prefix |
| PdfLines.DeepHeaderIsParagraph | src/lib/pdf-generator.ts:24-47 | four or more hashes make no header: the line is a paragraph |
| PdfLines.ListItems | src/lib/pdf-generator.ts:32-35 | a numbered item keeps its trimmed text after two spaces; a `- ` item loses its marker and gets the bullet |
| PdfLines.SubWithout | src/lib/pdf-generator.ts:41-45 | a replacement whose leading character is absent leaves the text as it is |
| PdfLines.PlainParagraph | src/lib/pdf-generator.ts:38-47 | a paragraph with no `*`, backquote or `[` is printed as written |
| PdfLines.BoldWord | src/lib/pdf-generator.ts:41 | a bold word is unwrapped by the bold replacement |
| Sections.MatchesFrom | src/lib/thesis-analysis.ts:300-304 | the inner loop finds a match exactly when one of the section's remaining patterns matches |
| Sections.FirstSection | src/lib/thesis-analysis.ts:299-306 | the outer loop returns a matching section with no earlier section matching, or nothing when no remaining section matches |
| Sections.DetectSectionType | src/lib/thesis-analysis.ts:299-307 | the first section, in the order of the pattern table, one of whose patterns matches; nothing exactly when none matches |
| Sections.TitleLast | src/lib/thesis-analysis.ts:299-307 | a line that matches any other section is never taken for the title |
| Sections.KeyIndex | src/lib/thesis-analysis.ts:313 | where a key is in the insertion-ordered map: the first entry with that section, or none |
| Sections.Lookup | src/lib/thesis-analysis.ts:313 | `get` finds a value exactly when some entry has the key |
| Sections.SetEntry | src/lib/thesis-analysis.ts:324-334 | `set` gives the key the new text and leaves every other key alone; a key already there keeps its place, a new key goes last |
| Sections.ExtractSections | src/lib/thesis-analysis.ts:313-339 | `extractSections`: the segments of the text's lines |
| Sections.SegmentLoop | src/lib/thesis-analysis.ts:318-331 | the line loop computes the segments of the lines |
| Sections.SegmentsShape | src/lib/thesis-analysis.ts:313-339 | the map holds each section some line is a heading of, once, with its last segment: the lines from a heading of it up to the next heading of another section; lines before the first heading belong to no section |
| Sections.NoHeadingNoSections | src/lib/thesis-analysis.ts:313-339 | a document with no heading has no sections |
| Checklist.FirstHit | src/lib/thesis-analysis.ts:394-404 | the first of an item's patterns that matches, or none |
| Checklist.AnalyzeChecklistItem | src/lib/thesis-analysis.ts:385-407 | an item is detected exactly when one of its patterns matches, and then it is located on the line of the first matching pattern's match |
| Checklist.LineNumberBound | src/lib/thesis-analysis.ts:398-399 | the reported line is a line of the text |
| Checklist.CheckItem | src/lib/thesis-analysis.ts:418-425 | an item keeps its template, is complete exactly when detected, and is auto-detected and located exactly then |
| Checklist.CompletedWeight | src/lib/thesis-analysis.ts:429-431 | the completed weight never exceeds the whole weight |
| Checklist.CreateSectionChecklist | src/lib/thesis-analysis.ts:413-444 | one item per template in order, the section's label, a maximum of 100, and a score that is the rounded share of completed weight, at most 100 |
| Checklist.CheckItems | src/lib/thesis-analysis.ts:418-425 | every template analysed, in order |
| Checklist.ItemsKeepWeight | src/lib/thesis-analysis.ts:433 | the items keep their templates' total weight |
| Checklist.FullScore | src/lib/thesis-analysis.ts:429-435 | a section whose every item is found scores 100 |
| Checklist.ZeroScore | src/lib/thesis-analysis.ts:429-435 | a section none of whose items is found scores 0 |
| Checklist.NoNewInfoNeverFound | src/lib/thesis-analysis.ts:291 | the item with an empty pattern list is never found |
| Checklist.UndetectedSections | src/lib/thesis-analysis.ts:413-444 | no item of the title, abstract or reference checklists has detection patterns, so those sections always score 0 |
| Feedback.Select | src/lib/thesis-analysis.ts:694-702 | the items of the given kind, and nothing else |
| Feedback.ChecklistNotes | src/lib/thesis-analysis.ts:704-736 | a strength per completed required item and per completed optional item; a weakness and a suggestion per missing required item |
| Feedback.MissingItemsReported | src/lib/thesis-analysis.ts:718-736 | every missing required item is reported as a weakness with its suggestion at the same place, and the checklist weaknesses are nothing else |
| Feedback.ChecklistWeaknessesKind | src/lib/thesis-analysis.ts:718-720 | the weaknesses the checklist gives are all missing items |
| Feedback.PriorityOf | src/lib/thesis-analysis.ts:907-913 | high below 40 or with four missing required items; else medium below 60 or with two missing; else low, each exactly in its case |
| Feedback.PriorityMonotone | src/lib/thesis-analysis.ts:907-913 | a better score with no more missing items is never more urgent |
| Feedback.FirstFive | src/lib/thesis-analysis.ts:920-922 | `slice(0, 5)` keeps the first five, or all when there are fewer |
| Feedback.Assemble | src/lib/thesis-analysis.ts:915-924 | the record keeps the section, its label, the checklist's score and a maximum of 100, cuts each list to its first five and takes the priority from the score and the missing required items |
| Feedback.Recent | src/lib/thesis-analysis.ts:791 | the years at most five years old, and nothing else |
| Feedback.GenerateSectionFeedback | src/lib/thesis-analysis.ts:684-925 | at most five of each list; the first missing required items come first as weaknesses with their suggestions; the score and priority come from the checklist |
| Feedback.IntroductionLengthChecks | src/lib/thesis-analysis.ts:741-757 | an introduction under 300 words is short, one of 500 or more has a good length, one in between gets neither |
| Feedback.CitationCountChecks | src/lib/thesis-analysis.ts:760-787 | the review's citation count gives exactly one of: none, few (1 to 4), many (10 or more), or no note (5 to 9) |
| Feedback.RecencyExclusive | src/lib/thesis-analysis.ts:789-808 | the years are never both outdated and up to date; outdated means under 30% recent, up to date at least 50% |
| Feedback.NoYearsUpToDate | src/lib/thesis-analysis.ts:792-807 | with no year found the references still count as up to date, at 0% |
| Feedback.RecencyExtremes | src/lib/thesis-analysis.ts:789-808 | all years recent means up to date at 100%; none recent means outdated at 0% |
| Feedback.ConclusionExactlyOne | src/lib/thesis-analysis.ts:878-904 | a conclusion is brief under 150 words, long over 800, and of a good length otherwise: exactly one of the three |
| Feedback.DiscussionWithoutCitations | src/lib/thesis-analysis.ts:844-858 | a discussion without citations always first lacks dialogue with the literature |
| Feedback.NoSectionChecks | src/lib/thesis-analysis.ts:738-905 | title, abstract, results and references have no checks of their own |
| Rules.AllRules | src/lib/thesis-analysis.ts:930-951 | the system rules, then the user's |
| Rules.RulesToSave | src/lib/thesis-analysis.ts:1018-1028 | only the rules that are not system rules are stored |
| Rules.CheckRule | src/lib/thesis-analysis.ts:954-989 | a rule that does not apply, or whose pattern is invalid, passes without a location; otherwise it passes exactly when its pattern matches, and then says on which line |
| Rules.Applicable | src/lib/thesis-analysis.ts:995-1000 | a rule is kept exactly when it is enabled and is general or for the detected section, and no more rules come out than went in |
| Rules.ApplicableAppend | src/lib/thesis-analysis.ts:995-1000 | filtering a concatenation filters each half and keeps their order |
| Rules.ApplicableInPlace | src/lib/thesis-analysis.ts:995-1000 | a rule stays in its place between the filtered rules before and after it exactly when it applies, and is dropped otherwise |
| Rules.PassedCount | src/lib/thesis-analysis.ts:1006 | the passed count never exceeds the results |
| Rules.AnalyzeRules | src/lib/thesis-analysis.ts:992-1013 | every applicable rule is checked, in order, and the passed count is at most the total |
| Rules.FailedMeansNoMatch | src/lib/thesis-analysis.ts:966-983 | an evaluated rule fails exactly when its valid pattern finds nothing |
| Rules.AllPassed | src/lib/thesis-analysis.ts:1006-1011 | everything passes exactly when no evaluated pattern comes up empty |
| Rules.NotEvaluated | src/lib/thesis-analysis.ts:995-999 | a disabled rule, and a rule for another section, is never among the results |
| Rules.EnabledRuleEvaluated | src/lib/thesis-analysis.ts:995-999 | every enabled rule for the detected section, or for every section, is evaluated |
| Rules.OnlyCitationRuleWhenUndetected | src/lib/thesis-analysis.ts:992-1000 | with no section detected and no user rules, only the citation rule is evaluated |
| CitationCheck.HasCitationNearby | src/lib/thesis-analysis.ts:1084-1099 | a citation is near exactly when some line from two before to two after matches a citation pattern |
| CitationCheck.FirstAssertion | src/lib/thesis-analysis.ts:1119-1147 | the first assertion pattern that matches the line, or none |
| CitationCheck.FirstAssertionOf | src/lib/thesis-analysis.ts:1119-1147 | the pattern loop stops at the first match |
| CitationCheck.Snippet | src/lib/thesis-analysis.ts:1129-1139 | a line of at most 100 characters is shown whole; a longer one without a match position is cut to 97 characters and `...` |
| CitationCheck.SnippetIsPiece | src/lib/thesis-analysis.ts:1131-1136 | a long line's text is a piece of the trimmed line, marked where it is cut |
| CitationCheck.TrimAll | src/lib/thesis-analysis.ts:1113-1129 | each line trimmed |
| CitationCheck.Report | src/lib/thesis-analysis.ts:1154-1165 | 100 with no assertions, else the rounded cited share, and the first 10 uncited assertions |
| CitationCheck.AnalyzeCitations | src/lib/thesis-analysis.ts:1104-1166 | `analyzeCitations` equals the tally of the lines |
| CitationCheck.CountLines | src/lib/thesis-analysis.ts:1110-1151 | the line loop computes the tally of all lines |
| CitationCheck.CheckLine | src/lib/thesis-analysis.ts:1111-1150 | one turn of the loop: skipped lines change nothing, a line's first assertion counts once, as cited or uncited |
| CitationCheck.TallyBalance | src/lib/thesis-analysis.ts:1119-1148 | every assertion is either cited or uncited, and a line holds at most one |
| CitationCheck.UncitedAreUncited | src/lib/thesis-analysis.ts:1124-1145 | every uncited assertion is on a line with an assertion and no citation nearby |
| CitationCheck.UncitedInLineOrder | src/lib/thesis-analysis.ts:1141-1145 | the uncited assertions come in line order, each line at most once |
| CitationCheck.ScoreBounds | src/lib/thesis-analysis.ts:1154-1165 | the score is at most 100, 100 when everything is cited, 0 when nothing is; at most 10 assertions are listed |
| CitationCheck.NoAssertions | src/lib/thesis-analysis.ts:1113-1121 | lines skipped or matching no assertion pattern give no assertion |
| Thesis.FirstHeading | src/lib/thesis-analysis.ts:1198-1204 | the section of the first line with a heading, none of the lines before it having one; nothing when no line has one |
| Thesis.FirstHeadingAt | src/lib/thesis-analysis.ts:1198-1204 | a heading on a line with none before it is the first heading of every longer prefix |
| Thesis.DetectMainSection | src/lib/thesis-analysis.ts:1197-1204 | the loop that stops at the first line with a heading |
| Thesis.FirstHeadingLoop | src/lib/thesis-analysis.ts:1199-1204 | the loop over the lines finds the first heading |
| Thesis.DetectedIsFirstSection | src/lib/thesis-analysis.ts:1193-1204 | the detected section is the section of the first entry of the extracted sections, and there is none exactly when no section is found |
| Thesis.Checklists | src/lib/thesis-analysis.ts:1206-1208 | one checklist per extracted section, in the order of the map |
| Thesis.Feedbacks | src/lib/thesis-analysis.ts:1210-1211 | one feedback per extracted section, from its checklist |
| Thesis.SectionReports | src/lib/thesis-analysis.ts:1206-1212 | the loop over the map builds those checklists and feedbacks |
| Thesis.Weight | src/lib/thesis-analysis.ts:1168-1178 | the section weights, doubled, are 1 to 4 |
| Thesis.WeightSum | src/lib/thesis-analysis.ts:1228-1233 | the weights of some sections sum to more than 0 |
| Thesis.Scale | src/lib/thesis-analysis.ts:1247-1267 | `Math.round(x * num / den)` by the rounding inequalities |
| Thesis.Absent | src/lib/thesis-analysis.ts:1242-1249 | the critical sections with no feedback, in order |
| Thesis.MethodologyScore | src/lib/thesis-analysis.ts:1252 | there is a methodology score exactly when a methodology feedback exists |
| Thesis.ExcellentCount | src/lib/thesis-analysis.ts:1265 | the number of sections at 90 or more |
| Thesis.OverallScore | src/lib/thesis-analysis.ts:1224-1271 | the overall score is always within 0 to 100 |
| Thesis.ComputeOverallScore | src/lib/thesis-analysis.ts:1224-1271 | the loops and penalties compute the overall score |
| Thesis.WeighScores | src/lib/thesis-analysis.ts:1230-1234 | the loop sums the weighted scores and the weights |
| Thesis.PenalizeMissing | src/lib/thesis-analysis.ts:1242-1249 | 15% off for each missing critical section |
| Thesis.IsPresent | src/lib/thesis-analysis.ts:1226-1244 | a section is present exactly when some feedback is for it |
| Thesis.WeightedSumBound | src/lib/thesis-analysis.ts:1230-1234 | scores of at most 100 have a weighted mean of at most 100 |
| Thesis.ScaleDown | src/lib/thesis-analysis.ts:1247-1261 | a penalty never raises a score |
| Thesis.PenaltiesOnlyLower | src/lib/thesis-analysis.ts:1241-1262 | without the bonus the overall score is at most the weighted mean |
| Thesis.NoPenaltyIsMean | src/lib/thesis-analysis.ts:1236-1271 | without penalties and bonus the overall score is the rounded weighted mean |
| Thesis.NoSectionsScoreZero | src/lib/thesis-analysis.ts:1237-1239 | a document without sections scores 0 |
| Thesis.StrongPoints | src/lib/thesis-analysis.ts:1277-1279 | the strong points are exactly the sections at 70 or more |
| Thesis.ScoredWithin | src/lib/thesis-analysis.ts:1289-1299 | the feedback with a score in the band, in order |
| Thesis.Insert | src/lib/thesis-analysis.ts:1291 | insertion keeps the list sorted by score and adds exactly the element |
| Thesis.SortByScore | src/lib/thesis-analysis.ts:1291 | sorted by score, lowest first, a permutation of the input |
| Thesis.Take | src/lib/thesis-analysis.ts:1293-1301 | `slice(0, n)` |
| Thesis.UrgentAreLowest | src/lib/thesis-analysis.ts:1289-1295 | the urgent sections listed are the at most three lowest-scoring under 50: none left out scores less than one listed |
| Thesis.AreasShape | src/lib/thesis-analysis.ts:1281-1312 | at most seven areas; the uncited warning is there, last, exactly when an assertion is uncited, with the alert exactly above five |
| Thesis.MissingFirst | src/lib/thesis-analysis.ts:1284-1286 | missing critical sections are reported first, by their labels |
| Thesis.AnalyzeThesis | src/lib/thesis-analysis.ts:1192-1324 | `analyzeThesis` |
| Thesis.ReportsLineUp | src/lib/thesis-analysis.ts:1206-1212 | sections, checklists and feedback line up in the order of the extracted sections, with equal scores of at most 100 |
| Thesis.RulesForFirstSection | src/lib/thesis-analysis.ts:1197-1215 | the rules are checked for the first section extracted: no rule for another section is checked, and with no section only general rules are |
| Thesis.AnalyzeSection | src/lib/thesis-analysis.ts:1329-1336 | the checklist and feedback are for the given section, with equal scores of at most 100 and the priority from them |
| LegacyAnalysis.Tip | lib/thesis-analysis.ts:522-527 | the suggestion for a missing item is the table's entry when there is one, else "add" with the item's description |
| LegacyAnalysis.LegacyGenerateSectionFeedback | lib/thesis-analysis.ts:485-624 | at most five of each list; the first missing required items come first as weaknesses with their tips; the score and priority from the checklist |
| LegacyAnalysis.ConclusionThresholds | lib/thesis-analysis.ts:592-601 | too brief fires exactly below 150 words and too long exactly above 800; in between there is no note |
| LegacyAnalysis.ChecksPairUp | lib/thesis-analysis.ts:532-602 | every weakness of a section check comes with exactly one suggestion |
| LegacyAnalysis.MethodologyThreshold | lib/thesis-analysis.ts:572-577 | a methodology is never praised, and is criticised exactly below 300 words |
| LegacyAnalysis.LegacyOverall | lib/thesis-analysis.ts:896-901 | `Math.round(sum / n)` of the checklist scores, 0 for none |
| LegacyAnalysis.Praises | lib/thesis-analysis.ts:904-906 | the sections at 70 or more, in order |
| LegacyAnalysis.Concerns | lib/thesis-analysis.ts:908-910 | the sections under 70, in order |
| LegacyAnalysis.LegacyAnalyzeThesis | lib/thesis-analysis.ts:866-929 | `analyzeThesis` of the older library |
| LegacyAnalysis.LegacyOverallBound | lib/thesis-analysis.ts:896-901 | the mean of scores of at most 100 is at most 100 |
| LegacyAnalysis.OverallAtMost100 | lib/thesis-analysis.ts:896-901 | the overall score is at most 100 |
| LegacyAnalysis.SummarySplitsSections | lib/thesis-analysis.ts:904-910 | every section is a strong point or an improvement area, never both |
| LegacyAnalysis.OneCitationWarning | lib/thesis-analysis.ts:912-915 | one citation warning is added, last, exactly when an assertion is uncited |
| LegacyAnalysis.LegacyAnalyzeSection | lib/thesis-analysis.ts:934-941 | the checklist and feedback are for the given section, with equal scores of at most 100 |
| FileTree.LastSegment | components/editor/FileTree.tsx:130 | the last segment of a path has no slash, ends the path, and starts right after a slash or at the start of the path |
| FileTree.Parent | components/editor/FileTree.tsx:180-182 | the directory part together with the file name gives back the path, and it is empty or ends in a slash |
| FileTree.LastSegmentOf | components/editor/FileTree.tsx:180-182 | a slash-free name placed below a directory is that path's file name, and the directory is its parent |
| FileTree.DirOfTopLevel | components/editor/FileTree.tsx:87-88 | a path with no slash is filed under `root` |
| FileTree.DirOfNested | components/editor/FileTree.tsx:87-88 | a nested path is filed under its first segment |
| FileTree.RootDirectoryShared | components/editor/FileTree.tsx:87-88 | files in a top-level directory that is itself called `root` land in the same group as the top-level files |
| FileTree.Group | components/editor/FileTree.tsx:85-94 | a group never holds more files than the list |
| FileTree.KeysMember | components/editor/FileTree.tsx:85-94 | a directory has a group exactly when some file is filed under it |
| FileTree.KeysDistinct | components/editor/FileTree.tsx:85-94 | no directory gets two groups |
| FileTree.GroupMember | components/editor/FileTree.tsx:85-94 | a group holds exactly the files of its directory |
| FileTree.GroupEmpty | components/editor/FileTree.tsx:85-94 | a directory no file is filed under has no files |
| FileTree.GroupAdd | components/editor/FileTree.tsx:85-94 | adding one more file to the list appends it to its own group and leaves the other groups alone |
| FileTree.TotalAdd | components/editor/FileTree.tsx:85-94 | one more file raises the total over distinct directories by one exactly when its directory is among them |
| FileTree.TotalAddKey | components/editor/FileTree.tsx:85-94 | one more directory adds the size of its group to the total |
| FileTree.GroupsPartition | components/editor/FileTree.tsx:85-94 | the group sizes add up to the number of files: no file is lost or filed twice |
| FileTree.GroupFiles | components/editor/FileTree.tsx:85-94 | the `reduce` loop builds one entry per directory, in order of first appearance, each holding that directory's files in list order |
| FileTree.EachFileInOneGroup | components/editor/FileTree.tsx:85-94 | every file has a group, lies in that group and in no other, and the groups cover the list exactly |
| FileTree.Referencing | components/editor/FileTree.tsx:129-144 | there are never more referencing files than files |
| FileTree.FindReferencingFiles | components/editor/FileTree.tsx:129-144 | the `forEach` loop returns the paths of the other non-empty files that mention the file's name or path, in list order |
| FileTree.ReferencingMember | components/editor/FileTree.tsx:129-144 | a path is returned exactly when a file with that path mentions the file |
| FileTree.NotSelfReferencing | components/editor/FileTree.tsx:133 | a file is never reported as referencing itself |
| FileTree.NameDecides | components/editor/FileTree.tsx:130-138 | since the path ends with the name, testing the name alone decides whether a file references it |
| FileTree.RenamedPathIs | components/editor/FileTree.tsx:180-182 | the rename target is the old directory followed by the new name |
| FileTree.RenameSwapsLastSegment | components/editor/FileTree.tsx:180-182 | a rename to a slash-free name keeps the directory and makes the new name the file name |
| FileTree.RenameToSameName | components/editor/FileTree.tsx:180-182 | renaming a file to its own name gives back its path |
| FileTree.RenameDecision | components/editor/FileTree.tsx:156-172 | a blank or unchanged name only closes the editor; a file mentioned elsewhere asks first, listing who mentions it; otherwise the rename is sent without updating references |
| FileTree.UnreferencedRenameSent | components/editor/FileTree.tsx:156-172 | a valid new name for an unmentioned file is sent at once and moves the file within its own directory |
| FileTree.Extension | components/editor/FileTree.tsx:238 | the extension taken from a name holds no dot |
| FileTree.ExtensionOf | components/editor/FileTree.tsx:238 | the extension is what follows the last dot |
| FileTree.ExtensionNoDot | components/editor/FileTree.tsx:238 | a name with no dot has no extension |
| FileTree.CopyName | components/editor/FileTree.tsx:236-242 | the copy's name is six characters longer than the original |
| FileTree.CopyNameWithExtension | components/editor/FileTree.tsx:236-242 | `base.ext` becomes `base-copia.ext`, even when the base holds dots |
| FileTree.CopyNameWithoutDot | components/editor/FileTree.tsx:236-242 | a name without a dot gets `-copia` appended |
| FileTree.CopyNameTrailingDot | components/editor/FileTree.tsx:236-242 | a name ending in a dot has an empty extension, so `-copia` goes after the dot |
| FileTree.CopyNameKeepsExtension | components/editor/FileTree.tsx:236-242 | the copy keeps the original's extension unless that extension was empty after a final dot |
| FileTree.CopyNameNoSlash | components/editor/FileTree.tsx:236-242 | the copy's name adds no slash |
| FileTree.DuplicateNextToOriginal | components/editor/FileTree.tsx:234-243 | the copy stays in the original's directory under the copy name, and never takes the original's path |
| FileTree.DuplicateRequest | components/editor/FileTree.tsx:234-253 | the copy request carries the original's content and type, to a different path in the same directory |
| FileTree.TypeFor | components/editor/FileTree.tsx:282-289 | a newly created file is never typed as an image |
| FileTree.TypeByExtension | components/editor/FileTree.tsx:282-289 | `.md`, `.bib`, `.yaml` and `.yml` give Markdown, BibTeX, YAML and YAML |
| FileTree.OtherTypeWhenUnknown | components/editor/FileTree.tsx:282-289 | every other name gives `OTHER` |
| FileTree.NewFileRequest | components/editor/FileTree.tsx:265-289 | a blank name makes no request; otherwise the request is for an empty file at the typed path, with the type taken from the name |
| FileTree.CreateDir | components/editor/FileTree.tsx:307 | the new-file input starts with no directory exactly for the `root` group or a group named by the empty string; any other group is the directory itself |
| FileTree.CreatedInGroup | components/editor/FileTree.tsx:270-272 | a file created from a group's menu lands in that group |
| FileTree.NewFileUnderDir | components/editor/FileTree.tsx:270-272 | a file created under a directory sits below that directory, named as typed |
| FileTree.FileTreeState.constructor | components/editor/FileTree.tsx:53-74 | a fresh tree has no rename in progress, no delete dialog and no new-file input |
| FileTree.FileTreeState.StartRename | components/editor/FileTree.tsx:147-150 | starting a rename edits that file, starting from its current name; nothing else changes |
| FileTree.FileTreeState.EditName | components/editor/FileTree.tsx:387 | typing changes only the name being edited |
| FileTree.FileTreeState.ExecuteRename | components/editor/FileTree.tsx:174-204 | the request moves the file within its directory, with the chosen reference update; the editor, the pending rename and the dialog are then cleared |
| FileTree.FileTreeState.RenameSubmit | components/editor/FileTree.tsx:156-172 | submitting the name follows the rename decision: it closes the editor, opens the references dialog with the pending rename, or sends the request |
| FileTree.FileTreeState.ConfirmRename | components/editor/FileTree.tsx:508-532 | both dialog buttons send the pending rename, with or without reference updates; without a pending rename they do nothing |
| FileTree.FileTreeState.CancelReferences | components/editor/FileTree.tsx:501-505 | cancelling closes the dialog and keeps the pending rename |
| FileTree.FileTreeState.StartDelete | components/editor/FileTree.tsx:207-210 | the file to delete is remembered and the confirmation dialog opens |
| FileTree.FileTreeState.ExecuteDelete | components/editor/FileTree.tsx:212-232 | a chosen file's path is sent for deletion and the dialog closes; with no file chosen nothing happens |
| FileTree.FileTreeState.StartCreateFile | components/editor/FileTree.tsx:306-310 | opening the new-file input targets the group's directory with an empty name |
| FileTree.FileTreeState.EditNewFileName | components/editor/FileTree.tsx:356 | typing changes only the new file's name |
| FileTree.FileTreeState.CreateFile | components/editor/FileTree.tsx:265-303 | a blank name closes the input and keeps what was typed; otherwise the empty file is requested and the input is reset |
| BibliographyEditor.NextCut | src/components/editor/BibliographyEditor.tsx:53 | the next cut found lies ahead, inside the text, at the start of a header `@word{` |
| BibliographyEditor.Pieces | src/components/editor/BibliographyEditor.tsx:53 | splitting before the headers always yields at least one piece |
| BibliographyEditor.PiecesConcat | src/components/editor/BibliographyEditor.tsx:53 | the pieces joined together are the text: the lookahead split loses nothing |
| BibliographyEditor.PiecesStartWithAt | src/components/editor/BibliographyEditor.tsx:53 | every piece after the first starts with the `@` of a header |
| BibliographyEditor.HeadAt | src/components/editor/BibliographyEditor.tsx:56 | a header match captures a non-empty word as the type and a non-empty run of non-comma, non-blank characters as the key |
| BibliographyEditor.FirstHead | src/components/editor/BibliographyEditor.tsx:56 | the leftmost header match in an entry captures the same kinds of type and key |
| BibliographyEditor.ValueStart | src/components/editor/BibliographyEditor.tsx:65-67 | after `name\s*=\s*` the value begins beyond the name, inside the text |
| BibliographyEditor.ValueAt | src/components/editor/BibliographyEditor.tsx:65-67 | a braced value holds no `}`, a quoted value no `"`, a bare value is one or more digits |
| BibliographyEditor.Enclosed | src/components/editor/BibliographyEditor.tsx:65-66 | the captured value holds no closing delimiter and the text starts with it between the delimiters |
| BibliographyEditor.GetField | src/components/editor/BibliographyEditor.tsx:64-70 | a value read by `getField` is trimmed of blanks at both ends |
| BibliographyEditor.OrEmpty | src/components/editor/BibliographyEditor.tsx:75-77 | a missing title, author or year becomes the empty string; a present one is kept |
| BibliographyEditor.ReadPieces | src/components/editor/BibliographyEditor.tsx:55-88 | the loop keeps at most one citation per piece |
| BibliographyEditor.ParseBibTeX | src/components/editor/BibliographyEditor.tsx:51-91 | the loop over the split pieces pushes exactly the citations of the entries that are not comments, in order |
| BibliographyEditor.Slots | src/components/editor/BibliographyEditor.tsx:99-110 | the citation's fields are listed under the names author, title, year, journal, booktitle, publisher, volume, number, pages, doi, url, abstract, in that order |
| BibliographyEditor.Present | src/components/editor/BibliographyEditor.tsx:99-110 | only the filled fields are written, never more than there are |
| BibliographyEditor.FieldLines | src/components/editor/BibliographyEditor.tsx:99-110 | one line per written field |
| BibliographyEditor.EntryTexts | src/components/editor/BibliographyEditor.tsx:95-114 | one entry text per citation |
| BibliographyEditor.ReadBack | src/components/editor/BibliographyEditor.tsx:75 | what a written citation reads back as is the citation itself when it is well formed |
| BibliographyEditor.CutAt | src/components/editor/BibliographyEditor.tsx:53 | with no `@` before it, the next header is the next cut |
| BibliographyEditor.NoCut | src/components/editor/BibliographyEditor.tsx:53 | a text with no `@` after the start is not cut again |
| BibliographyEditor.EntryHead | src/components/editor/BibliographyEditor.tsx:56 | an entry opening `@type{key,` is a header and reads as that type and key |
| BibliographyEditor.SkipChar | src/components/editor/BibliographyEditor.tsx:65-68 | no field pattern starts at a character that is not a letter |
| BibliographyEditor.NoStartInName | src/components/editor/BibliographyEditor.tsx:65-68 | inside another field's name a field pattern matches only where the searched name ends it |
| BibliographyEditor.FieldChunk | src/components/editor/BibliographyEditor.tsx:65-68 | over one written field line, the brace pattern for a name the field's name ends with captures its value; otherwise the search goes on after the line |
| BibliographyEditor.FieldsWalk | src/components/editor/BibliographyEditor.tsx:65-68 | over the written field lines the brace pattern finds the first value under a name ending with the searched one, and the quote and digit patterns find nothing |
| BibliographyEditor.EntryAtFree | src/components/editor/BibliographyEditor.tsx:112 | a written entry holds no `@` except its first character |
| BibliographyEditor.EntryField | src/components/editor/BibliographyEditor.tsx:64-70 | `getField` on a written entry returns the first filled field whose name ends with the searched name |
| BibliographyEditor.ReadSlot | src/components/editor/BibliographyEditor.tsx:78-86 | every field but the title reads back as it was written |
| BibliographyEditor.ReadTitle | src/components/editor/BibliographyEditor.tsx:75 | the unanchored title pattern reads the title when there is one, and otherwise the booktitle |
| BibliographyEditor.WrittenHead | src/components/editor/BibliographyEditor.tsx:56-60 | a written entry opens with its own type and key |
| BibliographyEditor.ReadRequired | src/components/editor/BibliographyEditor.tsx:75-77 | title, author and year read back as written, an empty title taking the booktitle |
| BibliographyEditor.ReadOptional | src/components/editor/BibliographyEditor.tsx:78-86 | the optional fields read back as written |
| BibliographyEditor.EntryRoundTrip | src/components/editor/BibliographyEditor.tsx:56-87 | a writable citation, written out, reads back as one citation |
| BibliographyEditor.ReadPiecesAppend | src/components/editor/BibliographyEditor.tsx:55-88 | reading two runs of pieces gives the citations of the first run, then of the second |
| BibliographyEditor.ManyEntries | src/components/editor/BibliographyEditor.tsx:114 | several citations are written as the first entry, a blank line, then the rest |
| BibliographyEditor.TextStartsWithHeader | src/components/editor/BibliographyEditor.tsx:112-114 | the written text starts with a header |
| BibliographyEditor.ReadOne | src/components/editor/BibliographyEditor.tsx:51-115 | the text of one writable citation reads back as that citation |
| BibliographyEditor.CutFirst | src/components/editor/BibliographyEditor.tsx:53 | the written text is cut right after the first entry's blank line, and the rest is cut as the rest's own text |
| BibliographyEditor.ReadBacks | src/components/editor/BibliographyEditor.tsx:75 | each citation reads back as itself, with only an empty title replaced |
| BibliographyEditor.WrittenReadsBack | src/components/editor/BibliographyEditor.tsx:51-115 | writable citations, written and parsed again, come back in order with only the empty titles changed |
| BibliographyEditor.ReadNothing | src/components/editor/BibliographyEditor.tsx:51-115 | an empty list reads back as an empty list |
| BibliographyEditor.ReadMany | src/components/editor/BibliographyEditor.tsx:51-115 | the text of several citations reads as the first one, then the rest |
| BibliographyEditor.RoundTrip | src/components/editor/BibliographyEditor.tsx:410-416 | switching tabs, which writes the list and parses it back, leaves a list of well-formed citations unchanged |
| BibliographyEditor.EmptyTitleReadsBooktitle | src/components/editor/BibliographyEditor.tsx:65 | a citation with an empty title and a booktitle reads back with the booktitle as its title, so the round trip fails for it |
| BibliographyEditor.EntryHeader | src/components/editor/BibliographyEditor.tsx:56-62 | a parsed citation's type is the lower-cased type of its first header, never `comment`, and its key is that header's key trimmed |
| BibliographyEditor.ParsedShape | src/components/editor/BibliographyEditor.tsx:56-62 | no text reads as a `comment` entry, or as a key holding a comma or a blank |
| BibliographyEditor.FirstAuthorOnly | src/components/editor/BibliographyEditor.tsx:119 | only the author before the first " and " is shown |
| BibliographyEditor.SurnameBeforeComma | src/components/editor/BibliographyEditor.tsx:118-122 | one author written "Surname, Given" shows as "Surname (year)" |
| BibliographyEditor.WholeNameWithoutComma | src/components/editor/BibliographyEditor.tsx:118-122 | one author written without a comma shows whole, since the text before a missing comma is the whole name |
| BibliographyEditor.LastWordAfterLeadingComma | src/components/editor/BibliographyEditor.tsx:120 | only an author starting with a comma falls back to the last blank-separated word |
| BibliographyEditor.FindLabel | src/components/editor/BibliographyEditor.tsx:126 | a found label belongs to an entry of that type, and nothing is found exactly when no entry has the type |
| BibliographyEditor.FindFirst | src/components/editor/BibliographyEditor.tsx:126 | the search returns the label of the first entry with the type |
| BibliographyEditor.DistinctTypes | src/components/editor/BibliographyEditor.tsx:39-48 | the reference types are listed once each |
| BibliographyEditor.TypeLabels | src/components/editor/BibliographyEditor.tsx:125-127 | each listed type shows its own label, and any other type shows as itself |
| BibliographyEditor.Matching | src/components/editor/BibliographyEditor.tsx:368-377 | the filter keeps exactly the citations whose key, title or author contains the search term, ignoring case |
| BibliographyEditor.MatchingAppend | src/components/editor/BibliographyEditor.tsx:368-377 | filtering a concatenation filters each half and keeps their order |
| BibliographyEditor.MatchingInPlace | src/components/editor/BibliographyEditor.tsx:368-377 | a citation stays in its place between the filtered citations before and after it exactly when its key, title or author contains the term, and is dropped otherwise |
| BibliographyEditor.FindIndex | src/components/editor/BibliographyEditor.tsx:475 | `findIndex` gives the first index holding the key, or -1 exactly when no citation has it |
| BibliographyEditor.Updated | src/components/editor/BibliographyEditor.tsx:399-403 | the update replaces the element at the index and keeps every other one |
| BibliographyEditor.Deleted | src/components/editor/BibliographyEditor.tsx:405-407 | the delete drops the element at a valid index and keeps the list for any other index |
| BibliographyEditor.DuplicateKeyEditsFirst | src/components/editor/BibliographyEditor.tsx:473-483 | when two citations share a key, editing or deleting the later one through its key reaches the first one instead |
| BibliographyEditor.Base36Digit | src/components/editor/BibliographyEditor.tsx:386 | a base-36 digit is a decimal digit or a lower-case letter |
| BibliographyEditor.Base36 | src/components/editor/BibliographyEditor.tsx:386 | `toString(36)` of a number is a non-empty run of digits and lower-case letters |
| BibliographyEditor.Base36RoundTrip | src/components/editor/BibliographyEditor.tsx:386 | the base-36 text reads back as the number |
| BibliographyEditor.NewCitationWellFormed | src/components/editor/BibliographyEditor.tsx:385-397 | a newly added citation is well formed and survives the tab round trip unchanged |
| BibliographyEditor.NewKeysDiffer | src/components/editor/BibliographyEditor.tsx:386 | two different clock readings give two different keys |
| BibliographyEditor.EditorState.constructor | src/components/editor/BibliographyEditor.tsx:362-366 | the editor starts with the parsed text, the text itself, and the visual tab |
| BibliographyEditor.EditorState.AddCitation | src/components/editor/BibliographyEditor.tsx:385-397 | the new citation is put first and the rest of the list is kept |
| BibliographyEditor.EditorState.UpdateCitation | src/components/editor/BibliographyEditor.tsx:399-403 | the list becomes the updated list; the text and tab are kept |
| BibliographyEditor.EditorState.DeleteCitation | src/components/editor/BibliographyEditor.tsx:405-407 | the list becomes the list without the indexed element |
| BibliographyEditor.EditorState.UpdateByKey | src/components/editor/BibliographyEditor.tsx:473-477 | an edit through a key updates the first citation with that key, or nothing if none has it |
| BibliographyEditor.EditorState.DeleteByKey | src/components/editor/BibliographyEditor.tsx:479-483 | a delete through a key removes the first citation with that key, or nothing if none has it |
| BibliographyEditor.EditorState.ChangeTab | src/components/editor/BibliographyEditor.tsx:410-417 | going from visual to raw writes the list out as text; going from raw to visual parses the text; staying put changes nothing |
| MarkdownEditor.Delimited | src/components/editor/MarkdownEditor.tsx:159 | the captured value is non-empty, holds no `}` or `"`, and sits right after the opening delimiter and before a closing one |
| MarkdownEditor.GetField | src/components/editor/MarkdownEditor.tsx:158-162 | a field value read from an entry is trimmed of blanks at both ends |
| MarkdownEditor.Opening | src/components/editor/MarkdownEditor.tsx:149 | `@\w+\s*\{` matches at an `@`, captures a non-empty word as the type and finds the brace after it |
| MarkdownEditor.KeyAndBody | src/components/editor/MarkdownEditor.tsx:149 | after the brace the key runs to the first comma and is non-empty, and the field text that follows holds no `@` |
| MarkdownEditor.HeadMatch | src/components/editor/MarkdownEditor.tsx:149 | a match of the entry pattern fits the text: an `@`, the type, the brace, the key, the comma and the fields |
| MarkdownEditor.ReadAll | src/components/editor/MarkdownEditor.tsx:152-171 | one entry is pushed per match, in order |
| MarkdownEditor.ScanLoop | src/components/editor/MarkdownEditor.tsx:152-171 | the `exec` loop returns the reading of every match of the global pattern, in order |
| MarkdownEditor.ParseBibTeX | src/components/editor/MarkdownEditor.tsx:146-174 | the markdown editor's reader returns the entries of all the matches of its pattern |
| MarkdownEditor.ScanFits | src/components/editor/MarkdownEditor.tsx:149 | every match captures a non-empty word as its type |
| MarkdownEditor.ScannedShape | src/components/editor/MarkdownEditor.tsx:153-154 | every entry has a non-empty lower-cased word as its type and a trimmed key |
| MarkdownEditor.ScanCount | src/components/editor/MarkdownEditor.tsx:149-152 | each match uses up an `@` of its own |
| MarkdownEditor.ScannedCount | src/components/editor/MarkdownEditor.tsx:146-174 | there are never more entries than `@` signs in the text |
| MarkdownEditor.NoAtSkipped | src/components/editor/MarkdownEditor.tsx:149-152 | text without an `@` holds no match and is skipped |
| MarkdownEditor.HeadOfWritten | src/components/editor/MarkdownEditor.tsx:149 | `@type{key,fields` written before the next `@` is one match with that type, key and fields |
| MarkdownEditor.ScannedStep | src/components/editor/MarkdownEditor.tsx:152-171 | a match at the start gives its entry, and the scan goes on after it |
| MarkdownEditor.WrittenEntry | src/components/editor/MarkdownEditor.tsx:146-174 | an entry written `@type{key,fields` reads as one entry with the trimmed key, the lower-cased type and the author, title and year of its fields, followed by the entries of the rest |
| MarkdownEditor.Label | src/components/editor/MarkdownEditor.tsx:33-41 | a key not of the form letters-then-four-digits is shown as it is; one of that form is shown ending in ", " and its year |
| MarkdownEditor.CamelKeyLabel | src/components/editor/MarkdownEditor.tsx:33-38 | a camel-case key shows its first word capitalised, a comma, and its year: the lazy group stops at the first upper-case letter |
| MarkdownEditor.Labels | src/components/editor/MarkdownEditor.tsx:31-41 | one label per key, in order |
| MarkdownEditor.WidgetSeparators | src/components/editor/MarkdownEditor.tsx:24-64 | the widget shows the labels in parentheses with "; " between two of them and nowhere else |
| MarkdownEditor.DropAt | src/components/editor/MarkdownEditor.tsx:784 | removing the leading `@` leaves the text without its first `@`, or as it was |
| MarkdownEditor.CitationKeys | src/components/editor/MarkdownEditor.tsx:784 | one key per `;`-separated piece |
| MarkdownEditor.CitationKeysShape | src/components/editor/MarkdownEditor.tsx:784 | there is one key more than there are `;`, each the trimmed piece without a leading `@` |
| MarkdownEditor.CiteMatch | src/components/editor/MarkdownEditor.tsx:774 | a citation match captures non-empty text without `]`, and the text starts with `[@`, that capture and `]` |
| MarkdownEditor.Cites | src/components/editor/MarkdownEditor.tsx:774-805 | every citation found lies inside the document and spans `[@`, its capture and `]` |
| MarkdownEditor.CitesCover | src/components/editor/MarkdownEditor.tsx:774-805 | the document text at each citation found is exactly `[@`, its capture and `]` |
| MarkdownEditor.KeptSingleLine | src/components/editor/MarkdownEditor.tsx:833-845 | a decoration is kept exactly when it is non-empty, inside the text and crosses no line break |
| MarkdownEditor.KeptRanges | src/components/editor/MarkdownEditor.tsx:833-848 | the kept decorations are exactly the valid single-line ones |
| MarkdownEditor.KeptRangesAppend | src/components/editor/MarkdownEditor.tsx:833-848 | filtering a concatenation filters each half and keeps their order |
| MarkdownEditor.KeptRangesInPlace | src/components/editor/MarkdownEditor.tsx:833-848 | a decoration stays in its place between the kept ones before and after it exactly when it is valid and on one line, and is dropped otherwise |
| MarkdownEditor.MultiLineCiteDropped | src/components/editor/MarkdownEditor.tsx:833-845 | a citation written across a line break gets no decoration |
| MarkdownEditor.OpenFrom | src/components/editor/MarkdownEditor.tsx:180 | `matchBefore` finds the leftmost `[@` that no `]` closes before the cursor, or none if there is no such `[@` |
| MarkdownEditor.LastIndexOfChar | src/components/editor/MarkdownEditor.tsx:185 | `lastIndexOf` finds the last occurrence, or none exactly when there is none |
| MarkdownEditor.ReplaceOffset | src/components/editor/MarkdownEditor.tsx:197-199 | the replacement starts inside the text after `[@` |
| MarkdownEditor.Offers | src/components/editor/MarkdownEditor.tsx:201-210 | the entries offered are exactly those matching the search |
| MarkdownEditor.OffersAppend | src/components/editor/MarkdownEditor.tsx:201-210 | filtering a concatenation filters each half and keeps their order |
| MarkdownEditor.OffersInPlace | src/components/editor/MarkdownEditor.tsx:201-210 | an entry stays in its place between the offers before and after it exactly when it matches the search, and is dropped otherwise |
| MarkdownEditor.AuthorShort | src/components/editor/MarkdownEditor.tsx:212 | the short author shown is never empty: it falls back to "Unknown" |
| MarkdownEditor.Complete | src/components/editor/MarkdownEditor.tsx:177-231 | completion is offered exactly when an unclosed `[@` stands before the cursor on the line |
| MarkdownEditor.EmptySearchOffersAll | src/components/editor/MarkdownEditor.tsx:184-222 | directly after `[@` every entry is offered, from the position after `[@`, each applying `@key` and a `]` unless one already follows |
| MarkdownEditor.AllOffered | src/components/editor/MarkdownEditor.tsx:202-203 | an empty search offers every entry |
| MarkdownEditor.SearchAfterLastSemicolon | src/components/editor/MarkdownEditor.tsx:185-199 | after a `;` the search is the last key, trimmed and without its `@`, and the replacement starts after the `;` and the blanks behind it |
| MarkdownEditor.SearchWithoutSemicolon | src/components/editor/MarkdownEditor.tsx:186-199 | without a `;` the whole text is the search, without its `@` but not trimmed, and the replacement starts right after `[@` |
| MarkdownEditor.Inside | src/components/editor/MarkdownEditor.tsx:1337 | `slice(1, -1)` gives the text between the first and last characters, or nothing for a text shorter than two |
| MarkdownEditor.MapAll | src/components/editor/MarkdownEditor.tsx:1338 | `map` applies the function to each piece, in order |
| MarkdownEditor.Items | src/components/editor/MarkdownEditor.tsx:1338 | one item per `;`-separated piece |
| MarkdownEditor.ItemCount | src/components/editor/MarkdownEditor.tsx:1338 | there is one item more than there are `;` |
| MarkdownEditor.Splice | src/components/editor/MarkdownEditor.tsx:1346-1352 | a change replaces the text between the two positions by the insert and keeps the text before and after |
| MarkdownEditor.ReplaceInDoc | src/components/editor/MarkdownEditor.tsx:1324-1354 | the replace mode rewrites the first occurrence of the citation in the document; without one nothing changes |
| MarkdownEditor.Spaced | src/components/editor/MarkdownEditor.tsx:1344 | between the separators of a "; " join each item after the first has one blank in front |
| MarkdownEditor.SplitSpaced | src/components/editor/MarkdownEditor.tsx:1338-1344 | items joined with "; " split again at `;` into themselves, each after the first with one blank in front |
| MarkdownEditor.ItemsOfJoin | src/components/editor/MarkdownEditor.tsx:1338-1344 | trimmed items without `;` read back from their "; " join |
| MarkdownEditor.ReplaceKeepsOthers | src/components/editor/MarkdownEditor.tsx:1337-1344 | replacing keeps the number of items and every other item, and the chosen item becomes `@key` |
| MarkdownEditor.AddAppends | src/components/editor/MarkdownEditor.tsx:919-922 | in a citation with several keys, adding puts `@key` after the others |
| MarkdownEditor.AddReplacesSingle | src/components/editor/MarkdownEditor.tsx:919-922 | in a citation with one key, adding replaces it by the new key alone |
| ReferenceFiles.AnySuffix | src/app/api/reference-files/route.ts:74 | `some(endsWith)` holds exactly when the name ends with one of the extensions |
| ReferenceFiles.FileExtension | src/app/api/reference-files/route.ts:90 | the extension taken from a name holds no dot |
| ReferenceFiles.ExtensionOfSuffix | src/app/api/reference-files/route.ts:90 | a name ending in `.e`, with `e` free of dots, has extension `e` |
| ReferenceFiles.AcceptedKinds | src/app/api/reference-files/route.ts:73-90 | the extension check and the extension that picks the text extraction agree: an accepted file's extension is one of the accepted four |
| ReferenceFiles.Cleaned | src/app/api/reference-files/route.ts:107 | the cleaned text holds no NUL and no blanks at either end, and keeps every character that is neither |
| ReferenceFiles.MarkersNotAnalysed | src/app/api/reference-files/route.ts:92-140 | Word documents and PDFs whose text cannot be extracted are never analysed, since their placeholder text opens with `[` |
| ReferenceFiles.RunStart | src/app/api/reference-files/route.ts:129 | the run found ends where asked and cannot be extended to the left |
| ReferenceFiles.DisplayName | src/app/api/reference-files/route.ts:129 | the stored name is the file name, or the file name without a final `.ext` whose extension holds no dot or slash |
| ReferenceFiles.DisplayNameDropsExtension | src/app/api/reference-files/route.ts:129 | the extension of a `base.ext` name is dropped, whatever the base holds |
| ReferenceFiles.DisplayNameWithoutExtension | src/app/api/reference-files/route.ts:129 | a name with no dot and no slash is kept whole |
| ReferenceFiles.EmittedMember | src/app/api/reference-files/route.ts:389-409 | a pattern is emitted exactly when one of the inputs yields it |
| ReferenceFiles.RunEnd | src/app/api/reference-files/route.ts:415 | the run found starts where asked and cannot be extended to the right |
| ReferenceFiles.HeaderAt | src/app/api/reference-files/route.ts:415 | a match of `^#+\s+(.+)$` starts at a `#` at the start of a line and ends after it inside the text; its capture is a non-empty piece of the text without line terminators that ends at a line end |
| ReferenceFiles.BlankTailHeading | src/app/api/reference-files/route.ts:415 | when only blanks follow the hashes up to the end of the text, `\s+` gives back its last blank that is not a line terminator, and that blank is the title |
| ReferenceFiles.ScanLines | src/app/api/reference-files/route.ts:419-421 | the `exec` loop collects the reading of every match, in order |
| ReferenceFiles.CollectHeaders | src/app/api/reference-files/route.ts:415-421 | the loop collects the lower-cased, trimmed texts of all the heading matches, in order |
| ReferenceFiles.HashAndBlanks | src/app/api/reference-files/route.ts:415-421 | the text `#  ` collects one heading, the empty one, through the backtracking of `\s+` |
| ReferenceFiles.HeadingLine | src/app/api/reference-files/route.ts:415-420 | a line of hashes, blanks and a title is a heading whose text is that title; `\s+` can cross a line end, so a lone `#` line takes the next non-blank line as its title |
| ReferenceFiles.FirstKeywordIsFirst | src/app/api/reference-files/route.ts:441-452 | the keyword search finds nothing exactly when the heading holds no keyword, and otherwise the first keyword of the mapping that the heading holds |
| ReferenceFiles.HeadingPattern | src/app/api/reference-files/route.ts:441-452 | each heading yields at most one pattern |
| ReferenceFiles.FindKeyword | src/app/api/reference-files/route.ts:442-452 | the inner loop, which breaks at the first keyword found, returns that first keyword |
| ReferenceFiles.ClassifyHeadings | src/app/api/reference-files/route.ts:441-454 | the outer loop emits one pattern for each heading that holds a keyword, in order |
| ReferenceFiles.DetectSectionStructure | src/app/api/reference-files/route.ts:411-457 | `detectSectionStructure` returns the patterns of the headings of the text |
| ReferenceFiles.HeadingsClassified | src/app/api/reference-files/route.ts:441-454 | there is at most one pattern per heading, and a keyword's pattern appears exactly when some heading's first keyword is that keyword |
| ReferenceFiles.SectionPatternsOfHeadings | src/app/api/reference-files/route.ts:411-457 | a keyword's pattern is reported exactly when some heading of the text has it as its first keyword |
| ReferenceFiles.FindPhrases | src/app/api/reference-files/route.ts:480-490 | the loop emits the pattern of each phrase the text contains, in list order |
| ReferenceFiles.DetectAcademicPhrases | src/app/api/reference-files/route.ts:459-493 | `detectAcademicPhrases` returns the patterns of the phrases found in the lower-cased text |
| ReferenceFiles.PhraseFound | src/app/api/reference-files/route.ts:480-490 | a phrase is reported exactly when the text contains the phrase without its accents |
| ReferenceFiles.AcademicPhraseFound | src/app/api/reference-files/route.ts:459-493 | each listed academic phrase is reported exactly when the lower-cased text contains it without accents |
| ReferenceFiles.MatchCount | src/app/api/reference-files/route.ts:506 | a global match never finds more matches than the text has characters |
| ReferenceFiles.MatchCountLeading | src/app/api/reference-files/route.ts:506 | a match at the start counts once, and the search resumes after it |
| ReferenceFiles.AuthorYearMatch | src/app/api/reference-files/route.ts:500 | an author-year match is non-empty and inside the text |
| ReferenceFiles.NumberedMatch | src/app/api/reference-files/route.ts:501 | a numbered match is non-empty and inside the text |
| ReferenceFiles.EtAlMatch | src/app/api/reference-files/route.ts:502 | an et-al match is non-empty and inside the text |
| ReferenceFiles.DetectCitationPatterns | src/app/api/reference-files/route.ts:495-518 | `detectCitationPatterns` returns the patterns of the styles the text uses |
| ReferenceFiles.CitationStyleFound | src/app/api/reference-files/route.ts:505-515 | a citation style is reported exactly when the text holds at least three of its matches |
| ReferenceFiles.NumberedCitation | src/app/api/reference-files/route.ts:501 | a bracketed number such as `[12]` counts as one numbered citation |
| ReferenceFiles.ThreeNumberedCitations | src/app/api/reference-files/route.ts:501-507 | three numbered citations in a row make the numbered style reported |
| ReferenceFiles.BaseLetter | src/app/api/reference-files/route.ts:538 | ASCII characters are their own base letter |
| ReferenceFiles.Unaccent | src/app/api/reference-files/route.ts:538-539 | removing accents never lengthens a text |
| ReferenceFiles.UnaccentAppend | src/app/api/reference-files/route.ts:538-539 | accents are removed character by character, so removal distributes over concatenation |
| ReferenceFiles.UnaccentKeepsInfix | src/app/api/reference-files/route.ts:538-541 | a stretch of text, once unaccented, occurs in the whole text unaccented |
| ReferenceFiles.UnaccentAscii | src/app/api/reference-files/route.ts:538 | ASCII text is left as it is |
| ReferenceFiles.FindTerms | src/app/api/reference-files/route.ts:537-550 | the loop emits the pattern of each term the unaccented text contains, in list order |
| ReferenceFiles.DetectMethodologyTerms | src/app/api/reference-files/route.ts:520-553 | `detectMethodologyTerms` returns the patterns of the methodology terms found |
| ReferenceFiles.TermFound | src/app/api/reference-files/route.ts:537-550 | a term is reported exactly when the unaccented text contains the unaccented term |
| ReferenceFiles.MethodologyTermFound | src/app/api/reference-files/route.ts:520-553 | each listed methodology term is reported exactly when the unaccented lower-cased text contains it |
| ReferenceFiles.AccentedTermFound | src/app/api/reference-files/route.ts:537-541 | an accented spelling of a term in the text reports that term |
| ReferenceFiles.ExtractPatternsFromText | src/app/api/reference-files/route.ts:389-409 | `extractPatternsFromText` returns the section, phrase, citation and methodology patterns, in that order |
| ReferenceFiles.SectionShape | src/app/api/reference-files/route.ts:441-454 | heading patterns are at most one per heading, all `STRUCTURE` and without severity |
| ReferenceFiles.PhraseShape | src/app/api/reference-files/route.ts:480-490 | phrase patterns are at most one per phrase, all `CONTENT` and without severity |
| ReferenceFiles.CitationShape | src/app/api/reference-files/route.ts:505-515 | citation patterns are at most one per style, all `CITATION` and without severity |
| ReferenceFiles.TermShape | src/app/api/reference-files/route.ts:537-550 | methodology patterns are at most one per term, all `CONTENT` and without severity |
| ReferenceFiles.ExtractedShape | src/app/api/reference-files/route.ts:389-409 | the detectors yield at most one pattern per heading, phrase, style and term, each with a category the rule store accepts and no severity |
| ReferenceFiles.OrElse | src/app/api/reference-files/route.ts:378 | `v \|\| d` gives the value when it is a non-empty string and the default otherwise |
| ReferenceFiles.Prefix | src/app/api/reference-files/route.ts:377-380 | `slice(0, n)` gives the first `n` characters, or the whole text when it is shorter |
| ReferenceFiles.SanitizedRules | src/app/api/reference-files/route.ts:374-387 | the model's answer never yields more rules than it lists |
| ReferenceFiles.SanitizedShape | src/app/api/reference-files/route.ts:376-386 | every kept rule has a non-empty name of at most 100 characters and a non-empty pattern of at most 300, both prefixes of the given ones, an accepted category and a severity |
| ReferenceFiles.SanitizedDescription | src/app/api/reference-files/route.ts:378-379 | the description is the given one (or the name) cut to 500 characters, followed by the example exactly when there is one |
| ReferenceFiles.SanitizedRulesMember | src/app/api/reference-files/route.ts:374-387 | the sanitised rules are exactly the sanitised forms of the rules with a name and a pattern |
| ReferenceFiles.SanitizedRulesAppend | src/app/api/reference-files/route.ts:374-387 | the filter and map work rule by rule, so they distribute over concatenation |
| ReferenceFiles.RulesFor | src/app/api/reference-files/route.ts:170-189 | one rule per pattern |
| ReferenceFiles.CreateRules | src/app/api/reference-files/route.ts:170-189 | the loop creates one rule per pattern, in order |
| ReferenceFiles.RulesMirrorPatterns | src/app/api/reference-files/route.ts:171-186 | each rule copies its pattern's name, description, category, pattern and section, with severity INFO and weight 1 |
| ReferenceFiles.UploadOutcome | src/app/api/reference-files/route.ts:55-221 | a file is rejected exactly when its extension is not accepted; a stored file gets one rule per pattern and its name without extension, and no patterns and the "could not extract" message when its text is not analysable |
| ReferenceFiles.FallbackPatterns | src/app/api/reference-files/route.ts:143-157 | without a language model the detectors decide the patterns, and all their categories pass the whitelist the model's answers are held to |
| ReferenceFiles.WordFilesGetNoRules | src/app/api/reference-files/route.ts:113-115 | Word documents are stored with the placeholder text and get no rules, whatever the model would answer |
| AnalysisTypes.RuleIdsDiffer | types/thesis-analysis.ts:51-181 | no two system rules share an id |
| AnalysisTypes.FrontWeights | types/thesis-analysis.ts:260-284 | the title, abstract and introduction checklists are non-empty with every weight in range |
| AnalysisTypes.MiddleWeights | types/thesis-analysis.ts:285-317 | the literature review, methodology and results checklists are non-empty with every weight in range |
| AnalysisTypes.BackWeights | types/thesis-analysis.ts:318-340 | the discussion, conclusion and references checklists are non-empty with every weight in range |
| AnalysisTypes.WeightsOf | types/thesis-analysis.ts:259-342 | a non-empty checklist with weights in range has a positive total weight, so its percentage is defined |
| Checklist.AllCompleteWeight | src/lib/thesis-analysis.ts:430-434 | when every item is complete the completed weight is the whole weight |
| Checklist.NoneCompleteWeight | src/lib/thesis-analysis.ts:430-434 | when no item is complete the completed weight is 0 |
| Checklist.FullItems | src/lib/thesis-analysis.ts:413-444 | a section in which every item is detected scores 100 |
| Checklist.ZeroItems | src/lib/thesis-analysis.ts:413-444 | a section in which no item is detected scores 0 |
| Checklist.UntrackedItems | src/lib/thesis-analysis.ts:385-407 | the title, abstract and references items have no detection patterns at all |
| Feedback.RecentNone | src/lib/thesis-analysis.ts:790-791 | when every year is more than five years old, none is recent |
| Feedback.RecentAll | src/lib/thesis-analysis.ts:790-791 | when every year is within five years, all are recent |
| BibStore.ProceedingsWithoutEditor | core/scripts/Latex2word.py:256-268 | without an editor a proceedings reference reads "title." and then " In *booktitle*." when there is a booktitle |
| BibStore.JournalOnly | core/scripts/Latex2word.py:227-240 | an article with a journal and no volume or pages ends "title. *journal*." |
| Rules.TailNotApplicable | src/lib/thesis-analysis.ts:992-1000 | with no detected section, no section-specific rule applies |
| Thesis.BaseScoreBound | src/lib/thesis-analysis.ts:1225-1239 | the weighted mean of scores at most 100 is at most 100 |
| Thesis.Captions | src/lib/thesis-analysis.ts:1245 | each missing critical section is named by its label, in order |
| Thesis.MakerOfLibrary | src/lib/thesis-analysis.ts:413-444 | the checklist maker keeps the section and scores at most 100 |
| Thesis.GeneratorOfLibrary | src/lib/thesis-analysis.ts:914-924 | the feedback generator keeps the section and the checklist's score |
| LegacyAnalysis.LegacyGeneratorOfLibrary | lib/thesis-analysis.ts:610-623 | the older feedback generator keeps the section and the checklist's score |
| LegacyAnalysis.ScoreSumBound | lib/thesis-analysis.ts:896-901 | scores of at most 100 sum to at most 100 per section |

## Left out

- python-docx itself is not modelled: styles (`setup_styles`), fonts, colours other than the red of missing keys, saving the file and `main`'s command line. The document is the log of blocks the converter appends.
- pylatexenc's `latex_to_text` is a parameter (`toText`) of the converter and of every cleaning function. Nothing is assumed about it.
- LatexClean.CleanForWord: `clean_text_for_word` drops every character whose Unicode category starts with `C` (unless it is printable or one of the kept blanks). The model drops Cc, Cf and Co, listed as a fixed table in `LatexClean.IsOtherCategory` taken from one version of the Unicode database, and the noncharacters (U+FDD0 to U+FDEF and the last two code points of every plane), which are Cn in every version. Other unassigned code points, such as U+0378, are kept by the model, because which code points are unassigned depends on the Unicode version of the interpreter.
- Citations.AuthorYear: Python's `\d` also matches the decimal digits of other scripts (category Nd). The model accepts only the ASCII digits `0`-`9` for the year.
- Segmenter.VskipLen: the same holds for the `\d+` of the length after `\vskip`. Only ASCII digits are counted.
- CitationCheck.Snippet: JavaScript measures and slices strings in UTF-16 code units. The model counts characters, so a line with characters outside the Basic Multilingual Plane is measured shorter than in the source, and the model never cuts a surrogate pair in half as `substring` can.
- ReferenceFiles.Prefix: `slice(0, n)` counts UTF-16 code units as well. The model takes the first `n` characters.
- ReferenceFiles.HasContent: `content.length > 100` counts UTF-16 code units. The model counts characters, so text made mostly of characters outside the Basic Multilingual Plane can pass the source's test and fail the model's.
- ReferenceFiles.Unaccent: `normalize("NFD")` is modelled only for the Latin-1 letters, which become their base letter. Other precomposed letters (`ă`, `ǎ`, `ő`) keep their accent in the model, and decompositions that lengthen a text, such as Hangul syllables into jamo, are not modelled, so the model's length bound does not carry over to such text.
- Lower-casing (`str.lower`, `toLowerCase`) and Python's `\w` are exact only for ASCII and Latin-1. Other scripts are left unchanged, or counted as non-word characters.
- File reading and its encoding fallback (`read_file_safely`, `process_bibliography_files`) are not modelled. The bibliography text is an `Option<string>` and the chapter files are a map from name to text.
- Inputs.Expand: the depth of nested `\input` files is bounded by a `fuel` parameter, which stands for Python's recursion limit. Past it the expansion is `None`.
- `extract_and_process_tables` is not modelled, since no code calls it.
- The regular-expression engine that runs the thesis-analysis patterns and the user's rule patterns is a parameter. Its third outcome, `Invalid`, stands for a pattern that will not compile, and such a rule passes.
- `localStorage` (`getAllRules`, `saveUserRules`) and its JSON parsing are not modelled. The stored user rules are a parameter.
- The current date is a parameter wherever the source reads one: `currentYear` in the analysis, and `now` and `year` in the reference editor's new key.
- Floating-point arithmetic is replaced by exact rational arithmetic. `Math.round` rounds halves up and the section multipliers are exact fractions. A floating-point rounding error on a value that lies exactly on a half is not modelled.
- Feedback: messages are constructors carrying the numbers and labels they mention. The Portuguese wording is not modelled.
- Network, database and authentication are not modelled: `fetch` in the file tree, the upload route's session and prisma calls, and `analyzeWithLLM`'s request. The file tree's operations return the request they would send.
  - The language model's answer is a parameter, `None` when the model is unavailable or fails.
  - The PDF text extracted by `unpdf` is also a parameter, `None` when extraction fails.
- The editor UI is not modelled: React state other than the fields listed, focus, selection, icons, dialogs' open/close animation and the CodeMirror widgets' DOM.
  - Of the live-preview decorations, only the citation ranges and the line filter are modelled. The syntax-tree marks for headings, emphasis, code and links, the image widgets, and which lines are active are not.
- MarkdownEditor: the click handler that finds a raw citation from the cursor position is not modelled. Only the edit it dispatches (`MarkdownEditor.Added`) is.
- `CitationPicker` in the reference editor is not modelled. It only inserts `[@key]` through a callback.
- FileTree.GroupFiles: the groups are returned in the order their directories first appear. The order in which `Object.entries` would list integer-like directory names is not modelled. Neither is a directory named like an `Object.prototype` member (`constructor`), on which `if (!acc[dir])` would misbehave.
- FileTree: a file whose `content` is `null` is modelled with empty content. It is treated the same way (`if (!file.content) return`).
- jsPDF layout and pagination in `generatePDF` are not modelled. Only `markdownToLines` is.
