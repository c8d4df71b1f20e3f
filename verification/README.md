# polyink core, modelled in Dafny

polyink turns an EPUB book into a bilingual (English / Chinese) reading
experience. This project models its core pipeline and server logic.

- **Extraction.** The EPUB parser reads the package metadata. It walks each
  HTML page's markup and numbers the headings and paragraphs it finds.
- **Translation and pairing.** The converter translates those entries in
  batches of five, reporting progress after each batch. It pairs each
  original with its translation and translates the book title.
- **Command line.** The front end parses its arguments and draws the
  progress bar.
- **Migration.** A script turns the bilingual document into SQL inserts for
  books, chapters and content items.
- **UUIDs.** A helper generates version-4 UUIDs from the template
  `xxxxxxxx-xxxx-4xxx-yxxx-xxxxxxxxxxxx`.
- **Worker.** The Cloudflare worker answers the `/api/` routes: the book
  list, a book's content, its chapters, and one chapter. Chapter 0 is a
  synthesized title page.
- **Reader.** The React reader keeps a per-entry "show original" map, a menu
  flag and a paragraph spacing. It renders each entry with a class list, an
  element and inline styles.

Each module follows one source file. They share four modules:
- `Results`: `Option`, `Result`, and the truthiness of an optional text.
- `Text`: trimming, lower-casing, splitting and decimal numerals.
- `Lexical`: the default string order of `Array.prototype.sort`.
- `Sorting`: an insertion sort under a total preorder, used for that order
  and for the worker's `ORDER BY`.

Strings are sequences of code points.

Everything outside the model is a parameter:

- The HTML and XML parsers are functions from text to a parsed forest.
- The zip archive is a name-to-text map with its names in key order.
- The chat-completion client is `llm`, which returns the reply's content or
  `None`.
- The random source of the UUID generator is the sequence of nibbles it
  draws.
- The database is three tables of rows.

## Model

| member | source | states |
|---|---|---|
| EpubParser.ProcessNode | src/utils/epubParser.ts:39-63 | every entry the walk emits is a chapter or a paragraph whose text is trimmed and not empty; text and other non-element nodes emit nothing |
| EpubParser.HeadingAndParagraph | src/utils/epubParser.ts:44-53 | an `h1`..`h6` (any letter case) or `p` element emits exactly one entry, carrying its trimmed text, iff that text is not empty; the entry is a chapter iff the tag is a heading |
| EpubParser.ContainerAndOther | src/utils/epubParser.ts:54-61 | `div`, `section`, `article` and `main` emit exactly what their children emit; any other element emits nothing |
| EpubParser.ProcessForestAppend | src/utils/epubParser.ts:65-67 | walking two runs of siblings one after the other emits the first run's entries followed by the second's |
| EpubParser.ProcessForestIsEmitReached | src/utils/epubParser.ts:39-67 | the walk's output is the entries of the headings and paragraphs reached through containers only, in document order |
| EpubParser.EmitAllLength | src/utils/epubParser.ts:44-53 | the walk emits at most one entry per heading or paragraph reached |
| EpubParser.FindFirst | src/utils/epubParser.ts:31-34 | the result is an element with exactly the requested tag name, and there is none iff no element at any depth has that name |
| EpubParser.FindFirstPreorder | src/utils/epubParser.ts:31-34 | `getElementsByTagName(name)[0]` is the first element with that tag name in document order (each node before its descendants, descendants before later siblings), and none when there is no such element |
| EpubParser.ExtractPage | src/utils/epubParser.ts:25-73 | a failed parse gives an empty title and no entries; otherwise the title is the trimmed text of the first `<title>` and the entries are the walk over the first `<body>`'s children; a page without `<body>` has no entries and one without `<title>` has an empty title |
| EpubParser.FindOpf | src/utils/epubParser.ts:91-93 | the package document is the first name in key order that ends in `.opf` and contains `content`; there is none iff no name qualifies |
| EpubParser.FilterHtml | src/utils/epubParser.ts:113-114 | a name is kept iff it ends in `.htm`, `.html`, `.xhtm` or `.xhtml` in any letter case |
| EpubParser.HtmlFiles | src/utils/epubParser.ts:113-115 | the HTML names are ascending in lexical order and are a permutation of the kept names |
| EpubParser.MetaText | src/utils/epubParser.ts:103-108 | a present metadata element with text gives its trimmed text; a missing element, or one with empty text, gives the default |
| EpubParser.MetaTextBlank | src/utils/epubParser.ts:103-105 | the emptiness test comes before the trim, so a `dc:title` of only white space gives the empty title, not `Unknown Title` |
| EpubParser.ReadPackage | src/utils/epubParser.ts:76-118 | fails iff there is a package document and the XML parser throws on it; otherwise the defaults `Unknown Title` / `Unknown Author` are replaced by the first `dc:title` / `dc:creator`, and the HTML names are the sorted list |
| EpubParser.PiecesInWellFormed | src/utils/epubParser.ts:149-169 | the entries gathered over all pages stay trimmed, non-empty headings and paragraphs |
| EpubParser.AbsentContributesNothing | src/utils/epubParser.ts:151-153 | a name the archive does not hold adds no entries |
| EpubParser.FirstTitled | src/utils/epubParser.ts:157-159 | the remembered page is the first one with a non-empty title: every earlier page's title is empty |
| EpubParser.FirstTitledUnique | src/utils/epubParser.ts:157-159 | the "first titled page" conditions single out one position |
| EpubParser.ContentIdInjective | src/utils/epubParser.ts:163 | ids `content-<n>` of different positions differ |
| EpubParser.PushNumbered | src/utils/epubParser.ts:161-167 | one page's entries are appended in order, numbered consecutively from the running counter, which advances by their count |
| EpubParser.CollectPages | src/utils/epubParser.ts:146-169 | the items are the entries of the held pages in `htmlFiles` order, numbered from 1; the book title is the first non-empty page title, if any |
| EpubParser.ParseEpubToStructured | src/utils/epubParser.ts:124-178 | fails iff the package cannot be read, with the same message; otherwise the author comes from the package, the title is the first page title or else the package title, and items are numbered `content-1`, `content-2`, ... with distinct ids |
| Lexical.LexLeTotal | src/utils/epubParser.ts:115 | any two names are ordered one way or the other |
| Lexical.LexLeTransitive | src/utils/epubParser.ts:115 | the sort order is transitive |
| Lexical.LexLeAntisymmetric | src/utils/epubParser.ts:115 | names ordered both ways are equal |
| Sorting.Sort | src/utils/epubParser.ts:115 | under a total preorder, the insertion sort yields an ascending permutation of its input |
| Lexical.SortNames | src/utils/epubParser.ts:115 | the sort yields an ascending permutation of its input |
| Lexical.SortedUnique | src/utils/epubParser.ts:115 | two ascending permutations of the same names are equal, so the sorted list is fully determined |
| Text.TrimIdempotent | src/utils/epubParser.ts:45-50 | trimming already-trimmed text changes nothing |
| Text.JoinSplit | src/components/BilingualReader.tsx:129 | the parts of a split, joined back with the separator, give the original text |
| Text.SplitAppend | src/components/BilingualReader.tsx:129 | splitting `a;b` gives the parts of `a` followed by the parts of `b` |
| Text.DecimalRoundTrip | src/utils/epubParser.ts:163 | the decimal numeral of a counter reads back as that counter |
| LlmTranslator.FirstDemoKey | src/utils/llmTranslator.ts:78-79 | the key used is the first one in table order that occurs in the text, letter case aside; no earlier key occurs |
| LlmTranslator.ReplaceWithoutMatch | src/utils/llmTranslator.ts:80 | `ReplaceFolded`, the case-insensitive global replace: a text in which the key does not occur comes back unchanged |
| LlmTranslator.ReplaceAtFirst | src/utils/llmTranslator.ts:80 | `ReplaceFolded` keeps the text before the first occurrence of the key, letter case aside, puts the value in its place and carries on with the rest |
| LlmTranslator.ReplaceRemovesKey | src/utils/llmTranslator.ts:80 | together with `ReplaceAtFirst`, `ReplaceFolded` replaces every occurrence: with a non-empty value none of whose characters matches one of the key's, letter case aside, the key no longer occurs in the result |
| LlmTranslator.DemoTableForeign | src/utils/llmTranslator.ts:63-75 | every demo key and translation is non-empty, and no translation character matches a character of its key |
| LlmTranslator.DemoTranslate | src/utils/llmTranslator.ts:62-85 | a text shorter than 50 that holds a demo key is the global replace of the first such key in table order (each occurrence replaced in place, as `ReplaceAtFirst` states), and no occurrence of that key is left in it; any other text becomes `[中文翻译: ` + its first 50 code points + `...]` |
| LlmTranslator.DemoEntryReplaced | src/utils/llmTranslator.ts:63-80 | replacing with any entry of the demo table leaves no occurrence of its key |
| LlmTranslator.DemoNonEmpty | src/utils/llmTranslator.ts:77-85 | the fallback never produces an empty string |
| LlmTranslator.TranslateText | src/utils/llmTranslator.ts:25-86 | a non-empty trimmed reply of the model is the translation; otherwise the demo fallback is; the result is never empty |
| LlmTranslator.RoundDiv | src/utils/llmTranslator.ts:108 | `Math.round` of a non-negative quotient: the nearest integer, halves rounding up |
| LlmTranslator.Progress | src/utils/llmTranslator.ts:107-110 | every reported progress lies in 0..100 |
| LlmTranslator.ProgressMonotone | src/utils/llmTranslator.ts:100-110 | a later batch never reports less progress |
| LlmTranslator.ProgressAtEnd | src/utils/llmTranslator.ts:107-110 | the batch that reaches the end of the texts reports exactly 100 |
| LlmTranslator.Slices | src/utils/llmTranslator.ts:96-101 | there are ceil(n/5) batches, each holding 1 to 5 texts |
| LlmTranslator.FlattenSlices | src/utils/llmTranslator.ts:100-105 | the batches cover the texts exactly once, in order |
| LlmTranslator.TranslateBatch | src/utils/llmTranslator.ts:88-119 | one result per text, in input order, each the text's own translation; one progress report per batch, never decreasing, ending at 100 |
| EpubConverter.Pair | src/api/epubConverter.ts:68-73 | each bilingual entry keeps the item's id, text and type; it takes the translation at its index when that is non-empty, and otherwise a `[Translation failed: ...]` marker quoting the original |
| EpubConverter.Texts | src/api/epubConverter.ts:56 | the texts sent for translation are the items' contents, in order |
| EpubConverter.PairComplete | src/api/epubConverter.ts:71 | with a complete, non-empty translation list the failure marker never appears |
| EpubConverter.PairedContent | src/api/epubConverter.ts:68-73 | `PairAll`, the `map` over the entries: for consecutively numbered entries with their translations, entry k is `content-(k+1)` with its text, its translation and its kind |
| EpubConverter.ConvertToBilingual | src/api/epubConverter.ts:21-85 | an extraction failure propagates; a book with no entries fails with `No text content found in EPUB`; otherwise entry k is `content-(k+1)` paired with its translation, the original title is the extracted title, the title is its translation, and the progress reports end at 100 |
| Migration.EscapePaired | scripts/migrate-content.js:14 | doubling single quotes yields text whose every quote is paired, so it can sit inside an SQL literal |
| Migration.UnescapeEscape | scripts/migrate-content.js:14 | an escaped string reads back, under SQL quoting, as the original string |
| Migration.EscapeUnescape | scripts/migrate-content.js:14 | every quote-paired literal is the escaping of what it reads as |
| Migration.NewlinesToSpaces | scripts/migrate-content.js:14 | every line feed becomes a space and nothing else changes |
| Migration.NewlinesUnescape | scripts/migrate-content.js:14 | turning line feeds into spaces keeps a literal quote-paired and commutes with reading it back |
| Migration.StylesLiteral | scripts/migrate-content.js:14 | the book's styles literal stays quote-paired and reads back as the styles with line feeds turned into spaces |
| Migration.ChaptersMonotone | scripts/migrate-content.js:17-24 | the chapter counter never decreases and grows by at most one per entry |
| Migration.NoChaptersYet | scripts/migrate-content.js:17-24 | the counter is 0 exactly when no earlier entry is a chapter |
| Migration.ChapterIdIsLatest | scripts/migrate-content.js:17-35 | an entry's `chapter_id` is NULL iff no chapter comes at or before it; otherwise it is the number given to the latest such chapter's own insert |
| Migration.EntryStmtsLayout | scripts/migrate-content.js:22-45 | there is one insert per entry plus one per chapter; each entry's insert sits at its computed position, with a chapter's insert right before it |
| Migration.GenerateMigration | scripts/migrate-content.js:9-48 | the book insert comes first, then for each entry its chapter insert (chapters numbered 1, 2, ...) and its content insert with `order_index` equal to its position |
| Uuid.HexDigit | scripts/generate-uuid.js:13 | a nibble renders as a lower-case hexadecimal digit |
| Uuid.HexRoundTrip | scripts/generate-uuid.js:13 | the digit reads back as the nibble |
| Uuid.Variant | scripts/generate-uuid.js:12 | `r & 0x3 \| 0x8` lies in 8..11 and keeps the two low bits of `r` |
| Uuid.Fill | scripts/generate-uuid.js:10-13 | every `x`/`y` of the template is replaced by the digit of the nibble drawn for it, left to right, and every other character stays |
| Uuid.TemplateLayout | scripts/generate-uuid.js:10 | the template has 36 characters: dashes at 8, 13, 18 and 23, `4` at 14, `y` at 19, and `x` elsewhere |
| Uuid.SlotPosition | scripts/generate-uuid.js:10 | placeholder k sits at a template position whose placeholder number is k |
| Uuid.TemplateSlots | scripts/generate-uuid.js:10 | counting placeholders along the template gives their closed-form numbering |
| Uuid.FillTemplate | scripts/generate-uuid.js:10-13 | the template has 31 placeholders, and filling it puts at each position either the template character or the digit of that placeholder's nibble |
| Uuid.GenerateUuid | scripts/generate-uuid.js:8-14 | the result has 36 characters, dashes at 8, 13, 18 and 23, version digit `4` at 14 and one of `89ab` at 19; every `x` position is the digit of its nibble |
| Uuid.DecodeGenerate | scripts/generate-uuid.js:8-14 | the result has the UUID layout, and reading its digits back gives the nibbles drawn, the variant one reduced to `r & 0x3 \| 0x8` |
| Uuid.SameUuidSameNibbles | scripts/generate-uuid.js:8-14 | equal UUIDs come from draws that agree on every placeholder except the variant one, and there on the two low bits |
| Uuid.UuidDeterminedByNibbles | scripts/generate-uuid.js:8-14 | two draws give the same UUID iff they agree on every placeholder except the variant one, and there on the two low bits |
| ConvertCli.IndexOf | src/cli/convert-epub.ts:19 | the first position holding the argument, or none iff it is absent |
| ConvertCli.ParseArgs | src/cli/convert-epub.ts:9-22 | no arguments is a usage error with exit code 1; otherwise the first argument is the input, and the output is the argument after the first `--output` when that exists and is not empty, else `src/bilingual-content.json` |
| ConvertCli.FirstOutputFlagWins | src/cli/convert-epub.ts:19-22 | only the first `--output` counts |
| ConvertCli.FilledLength | src/cli/convert-epub.ts:36-37 | the filled cells are 40 × progress / 100 rounded to the nearest integer |
| ConvertCli.ProgressBar | src/cli/convert-epub.ts:35-39 | the bar is drawable iff the filled count is at most 40; it then has 40 cells, filled ones first |
| ConvertCli.ProgressLine | src/cli/convert-epub.ts:35-40 | the written line is the label, then the 40 cells with the filled ones first, then `] `, the percentage in decimal and `%`; it fails exactly when the bar does |
| ConvertCli.PercentagesDraw | src/cli/convert-epub.ts:35-39 | every percentage from 0 to 100 draws a bar: an empty one at 0 and a full one at 100 |
| ConvertCli.FilledMonotone | src/cli/convert-epub.ts:37 | more progress never draws fewer filled cells |
| Worker.Or | src/worker/index.ts:57-64 | JavaScript `a \|\| b`: `a` when it is truthy, else `b` |
| Worker.Get | src/worker/index.ts:151-158 | reading a property an object does not have gives `undefined` |
| Worker.FindBook | src/worker/index.ts:4-7 | the book found has the requested uuid; there is none iff no book has it |
| Worker.FindChapter | src/worker/index.ts:86-93 | the chapter found belongs to the book and has the number; there is none iff no chapter matches, and a `NaN` number matches none |
| Worker.SortByKey | src/worker/index.ts:15 | `ORDER BY ... ASC` gives an ascending permutation of the rows |
| Worker.BookItems | src/worker/index.ts:10-16 | a book's content rows: each row of that book as often as it occurs in the table, and no other row, ascending by `order_index` |
| Worker.ChapterItems | src/worker/index.ts:96-101 | a chapter's content rows: each row of that book and chapter as often as it occurs in the table, and no other row, ascending by `order_index` |
| Worker.BookChapterRows | src/worker/index.ts:31-36 | a book's chapters: each chapter row of that book as often as it occurs in the table, and no other row, ascending by `order_index` |
| Worker.ContentReply | src/worker/index.ts:141-160 | the content response carries the book's fields and every row, in order, with each column under the client's name |
| Worker.GetBookWithContent | src/worker/index.ts:2-22 | fails with `Book not found` iff no book has the uuid; otherwise gives the book and its ordered rows |
| Worker.GetBookChapters | src/worker/index.ts:24-39 | fails with `Book not found` iff no book has the uuid; otherwise gives its ordered chapters |
| Worker.TitlePageItems | src/worker/index.ts:60-81 | the title page has two entries, `title-0` and `author-0`, with order 0 and 1 and exactly the client's field names; the first shows the original title, else the title, else `Title`, over the title, else `Title`, as an `h1` of type `title`; the second shows the author, else `Unknown Author`, on both sides as a `p` paragraph; class and styles are null |
| Worker.GetChapterContent | src/worker/index.ts:41-108 | a missing book fails; chapter 0 is the synthesized title page and needs no chapter row; any other number fails with `Chapter not found` iff the book has no such chapter, and otherwise gives that chapter's rows in order |
| Worker.ShapeItem | src/worker/index.ts:151-159 | the shaped entry has exactly the seven client field names |
| Worker.ShapeRow | src/worker/index.ts:151-159 | a database row reaches the client with each column under its client name |
| Worker.ShapeItems | src/worker/index.ts:191-199 | every entry is shaped, in order |
| Worker.ChapterReply | src/worker/index.ts:49-83 | corrected chapter page: it carries the chapter information and the requested number; database rows are renamed, and the title page built with the client's field names is passed on as built |
| Worker.MatchBookPath | src/worker/index.ts:136-139 | a matched path is `/api/book/` + uuid + `/` + endpoint, with a non-empty uuid free of `/` and a non-empty endpoint free of line terminators |
| Worker.MatchBookPathComplete | src/worker/index.ts:136-139 | every path of that form is matched, with its own parts |
| Worker.ParseIntDecimal | src/worker/index.ts:175 | `ParseInt`, the model of `parseInt`, reads back the decimal numeral of every natural number |
| Worker.ParseIntNaN | src/worker/index.ts:175 | a text that starts with no digit, sign or white space is `NaN` |
| Worker.ChapterNumberOf | src/worker/index.ts:175 | `chapter/<n>` selects chapter n |
| Worker.ChapterNumberDefault | src/worker/index.ts:175 | a bare `chapter/` selects chapter 1 |
| Worker.ParseRoute | src/worker/index.ts:125-174 | a path is outside the API iff it lacks `/api/`; it lists books iff it is `/api/books`; otherwise content, chapters and `chapter/...` are chosen exactly by the endpoint of a matched book path |
| Worker.HandleApi | src/worker/index.ts:120-213 | each route gets its reply; a lookup that throws becomes status 500 and an unmatched path becomes status 404 `API endpoint not found`; a chapter page renames every content entry from database columns, the synthesized title page included |
| Worker.HandleApiIntended | src/worker/index.ts:174-200 | corrected handler: the same reply as `fetch` for every path and every chapter except the title page, which is delivered as built |
| Worker.ApiStatus | src/worker/index.ts:126-211 | an API reply is 404 iff no branch takes the path, and 500 iff the book is missing or, for a chapter other than 0, the chapter is missing |
| Worker.TitlePageDelivered | src/worker/index.ts:49-83 | with the corrected handler, `/api/book/<uuid>/chapter/0` delivers the two synthesized entries as built |
| Worker.TitleReplyLosesFields | src/worker/index.ts:191-199 | `ChapterReplyAsWritten`, the chapter response as written, gives the title page's two entries `undefined` id, original, translated, className and tagName |
| Worker.TitlePageLosesFields | src/worker/index.ts:191-199 | as written, `/api/book/<uuid>/chapter/0` sends the title page's two entries with `undefined` id, original, translated, className and tagName |
| Reader.AllSet | src/components/BilingualReader.tsx:56-76 | the map produced by `reduce` has exactly the entries' ids as keys, all set to the given value |
| Reader.Init | src/components/BilingualReader.tsx:29-43 | initially every entry shows its original, the menu is closed and the spacing is 0 |
| Reader.Toggle | src/components/BilingualReader.tsx:45-50 | the toggled entry flips (a missing one becomes `true`) and every other entry stays |
| Reader.ToggleTwice | src/components/BilingualReader.tsx:45-50 | toggling a present entry twice restores the map |
| Reader.ToggleIsLocal | src/components/BilingualReader.tsx:45-50 | toggling one entry leaves every other entry's side unchanged |
| Reader.AdjustSpacing | src/components/BilingualReader.tsx:82-84 | the new spacing is `prev + delta` clamped to 0..50 |
| Reader.Step | src/components/BilingualReader.tsx:45-84 | each action changes only its own part of the view; "show all" sets every entry and the title flag to the same side and closes the menu |
| Reader.SpacingBounded | src/components/BilingualReader.tsx:41-84 | after any sequence of actions from the initial view, the spacing lies in 0..50 |
| Reader.DisplayedText | src/components/BilingualReader.tsx:107 | the original text is shown exactly when the map says so |
| Reader.HasCjkIff | src/components/BilingualReader.tsx:108 | a text counts as Chinese iff some character is in U+4E00..U+9FFF |
| Reader.ItemClass | src/components/BilingualReader.tsx:111-123 | the class list starts with the reader's own class and appends the entry's class after a space when there is one |
| Reader.TagFor | src/components/BilingualReader.tsx:144-149 | the element is the entry's own tag, else `h2` for titles, `h3` for chapters and `p` otherwise |
| Reader.Camel | src/components/BilingualReader.tsx:133-135 | camel-casing never lengthens the name; a name starting with a lower-case letter keeps it, and any other name starts with something other than a lower-case letter |
| Reader.CamelIdentity | src/components/BilingualReader.tsx:133-135 | a name in which no hyphen is followed by a lower-case letter is kept as it is |
| Reader.CamelAppend | src/components/BilingualReader.tsx:133-135 | the global replace works piece by piece wherever the cut does not separate a hyphen from the lower-case letter after it |
| Reader.CamelStep | src/components/BilingualReader.tsx:133-135 | each hyphen followed by a lower-case letter becomes that letter in upper case, and the text on both sides is camel-cased on its own |
| Reader.CamelHasNoDashLower | src/components/BilingualReader.tsx:133-135 | after camel-casing, no hyphen is followed by a lower-case letter |
| Reader.Declaration | src/components/BilingualReader.tsx:130-137 | a kept declaration has a non-empty property and a non-empty, trimmed, colon-free value |
| Reader.DeclarationOf | src/components/BilingualReader.tsx:130-137 | the piece `p:v`, optionally followed by another colon and anything, declares the camel-cased trimmed `p` with the trimmed `v`, and nothing when either trims to empty |
| Reader.DeclarationWithoutColon | src/components/BilingualReader.tsx:130-132 | a piece without a colon has an undefined value and declares nothing |
| Reader.DeclareOver | src/components/BilingualReader.tsx:129-139 | later declarations override earlier ones |
| Reader.ParseStylesAppend | src/components/BilingualReader.tsx:129-139 | the styles `a;b` parse as the properties of `a` overridden by those of `b` |
| Reader.ParseSingleDeclaration | src/components/BilingualReader.tsx:129-139 | a single declaration sets exactly its own property |
| Reader.ItemStyles | src/components/BilingualReader.tsx:127-141 | an entry without inline styles gets none; one with styles gets the parsed declarations |

## Left out

- Reading files, unzipping (JSZip) and the XML/HTML parsers (xmldom) are parameters. The archive is a name-to-text map and a parser is a function to a parsed forest.
- The chat-completion call is the `llm` parameter. The prompt, the model name and `max_tokens` are not modelled.
- `Promise.all`, the one-second delay between batches, and console output are left out; they do not change results or their order.
- `saveBilingualJSON`, writing files, `process.exit`, `process.stdout` and the `dotenv` setup are outside the model.
- The worker's static assets, its HTML page for `/book/:uuid`, and `Response` construction are outside the model. An API reply is a `Reply` value with a status.
- Worker.HandleApi: the book list is the books table in table order with all columns. `getAllBooks` orders by `created_at` descending and selects fewer columns, and there is no `created_at` in the model. The chapter list carries whole chapter rows, including `book_id`, which `getBookChapters` does not select.
- Worker.GetBookWithContent: the chapter columns of the `LEFT JOIN` are not modelled; the content response drops them anyway.
- Worker.ParseInt: numbers are unbounded integers. The precision loss of `parseInt` beyond 2^53 and fractional values are not modelled, and `JsValue` has no floating-point numbers.
- `JSON.stringify` dropping `undefined` properties is not modelled; shaped entries keep them as `JUndefined`.
- EpubParser.ReadPackage: the failure message stands for the exception the XML parser throws, whose text is not modelled.
- Text.Lower: `toLowerCase` is modelled for ASCII letters only.
- String lengths, `substring(0, 50)` and the default sort compare code points. JavaScript uses UTF-16 code units, which differ for characters outside the Basic Multilingual Plane.
- LlmTranslator.ReplaceFolded: the key is treated as literal text, not a regular expression. This is exact for the demo table, whose keys hold only letters and spaces.
- LlmTranslator.Progress: the rounding is computed exactly. Floating-point evaluation of `((i + 5) / n) * 100` could round an exact half differently.
- The line-height and letter-spacing controls of the reader clamp floating-point values and are not modelled. Neither is the injection of the EPUB CSS or React rendering itself.
- Math.random is the sequence of nibbles drawn, one per placeholder, left to right.
- Migration.GenerateMigration: a statement is its table, columns and values. The SQL text layout and the blank-line join of the statements are not modelled. The document's title, original title, author and styles, and each entry's `original` and `translated` text (lines 28 and 41), are taken to be strings; the script throws when one of them is missing.
- The book-shelf and app components are outside the model.

## Findings

| source | as written | input that shows it | evidently intended | confidence | as-written member | corrected member |
|---|---|---|---|---|---|---|
| src/worker/index.ts:191-199 | the chapter response renames every content entry from database columns (`item_id`, `original_text`, ...), including the two synthesized title-page entries of lines 60-81, which already use the client's field names | `GET /api/book/<uuid>/chapter/0` for an existing book | the title page reaches the client as built, with ids `title-0` and `author-0` and its texts | not executed | Worker.TitlePageLosesFields | Worker.TitlePageDelivered |
