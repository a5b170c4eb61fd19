# lang-grade, modelled in Dafny

lang-grade is a Next.js application for language learners. A reader uploads a book (PDF,
or EPUB converted to PDF), the server cuts it to its first 25 pages, and a language model
grades its CEFR level and summarises it. Graded books are stored in a `graded_books`
table, shown in a library filtered by level, and given covers from Open Library or Google
Books. Articles can be graded or rewritten at a chosen level.

This project models the server-side and interface logic of that application, one module
per source file:

- `Files` and `Staging` hold the file system and the staging directories `docs`,
  `docs/parsed`, `docs/uploaded` and `tmp`. The disk is a class whose map of paths to
  files and directories the synchronous Node.js calls update.
- `EpubConverter` and `Pdf` model EPUB to PDF conversion:
  - the content files of the archive are cut to a 15000-word budget;
  - the words are wrapped greedily to the text width, in a font that is an oracle;
  - the lines are set 48 to a Letter page, in tenths of a point;
  - title, creator and language are read from the package document.
  The wrapping, page and file loops are methods proved against the functions `Wrap`,
  `Paginated` and `BookFrom`.
- `UploadRoute`, `GradeRoute`, `ConvertImages`, `BookRoute` and `ArticleRoute` are the API
  routes. Their responses are datatypes, and the libraries they call are oracle parameters.
  The grade route's process-wide cache is a class with a map field.
- `LlamaParse` and `ArticleService` are the document analysis and the article tools. The
  parser, the language model and the web page reader are oracles. The prompts are a
  `Prompt` datatype that the model receives, and `Render` gives their text.
- `BookService` is the book store over a table of rows:
  - saving without duplicates, with a missing cover backfilled;
  - the newest-first listings;
  - lookup by id;
  - the cover update.
  The database's `ilike` existence query is an oracle (`candidate`), and the exact match
  on normalised name and author is modelled.
- `OpenLibraryService`, `GoogleBooksService`, `BookCover` and `GoogleBooks` are the cover
  lookups. The first two have retry loops; the last two make a single request.
- `LibraryFilter`, `UrlUtils`, `BookListing`, `LibraryPage`, `MyBooksPage`, `Toasts` and
  `UpdateBookCover` are the interface logic:
  - level ranges, the query-string update and book slugs;
  - related and filtered books;
  - the page state and the toast list, as classes;
  - the cover dialog.
- `Strings`, `Seqs`, `Wrappers` and `Cefr` are the shared string operations of the
  JavaScript runtime, sequence lemmas, `Option`/`Result` and the six CEFR levels.

Some consequences of the code as written, stated as contracts:

- `clearRequiredDirectories` calls `unlinkSync` on every entry of `docs`. `docs` holds
  the directories `parsed` and `uploaded`, and `unlinkSync` throws on a directory. So an
  upload that reaches that step stores its file and then answers 500. `UploadRoute.Store`
  and `UploadRoute.Post` state that the answer is never 200, and
  `Staging.ClearRequiredDirectories` states why.
- The grade cache key `${fileName}-${length}` is unambiguous for the three lengths the
  client sends (`GradeRoute.KeyInjective`). Any other length can collide
  (`GradeRoute.KeyCollision`).
- On the "my books" page, a stored user without an email never leaves the loading state
  (`MyBooksPage.LoadingWithoutEmail`).
- `UpdateBookCover` changes only the row with the book's id and the reader's email. A
  success notice is shown exactly when such a row exists. `onUpdate` is called only from
  the realtime subscription, which is not part of this model.

## Model

| member | source | states |
|---|---|---|
| Cefr.Rank | components/LibraryFilter.tsx:12 | the six levels A1 to C2 get the ranks 0 to 5, in the order the filter lists them |
| LibraryFilter.LevelToNumber | components/LibraryFilter.tsx:26-29 | NaN (None) exactly for the empty string; on a CEFR level it is that level's rank |
| LibraryFilter.IsInRange | components/LibraryFilter.tsx:14-37 | `all` covers every book; a stored level without a hyphen covers exactly the equal filter level |
| LibraryFilter.RangeCompares | components/LibraryFilter.tsx:22-36 | a stored range `x-y`, with white space allowed around either end, covers the filter level exactly when its number lies between the numbers of the trimmed ends |
| LibraryFilter.CefrRange | components/LibraryFilter.tsx:14-37 | a range of two CEFR levels covers exactly the CEFR levels between them, both ends included |
| LibraryFilter.ReversedRangeMatchesNothing | components/LibraryFilter.tsx:31-36 | a range whose start lies above its end covers no level other than `all` |
| LibraryFilter.BlankEndMatchesNothing | components/LibraryFilter.tsx:23-36 | a range with a blank end, such as `B1-`, covers no level other than `all`, since the NaN comparison fails |
| LibraryFilter.BlankStartMatchesNothing | components/LibraryFilter.tsx:23-36 | a range with a blank start, such as `-B1`, covers no level other than `all` |
| LibraryFilter.NarrowRangeExample | components/LibraryFilter.tsx:22 | `B2-C1` covers B2 and C1 but not C2 |
| LibraryFilter.PaddedRangeExample | components/LibraryFilter.tsx:23 | `A2 - B1` covers A2 and B1 but not B2: the blanks around the hyphen are trimmed |
| LibraryFilter.Deleted | components/LibraryFilter.tsx:47 | `delete` keeps exactly the entries with another name, in their original order, and never adds one |
| LibraryFilter.Get | components/LibraryFilter.tsx:42 | `get` finds nothing exactly when no entry has the name, and otherwise the value of the first one |
| LibraryFilter.WithSet | components/LibraryFilter.tsx:49 | after `set` exactly one entry has the name, holding the new value, and the entries with other names are as before |
| LibraryFilter.CurrentLevel | components/LibraryFilter.tsx:42 | the level shown is the value of the first `level` entry when that is non-empty, and `all` when there is no such entry or its value is empty |
| LibraryFilter.LevelQuery | components/LibraryFilter.tsx:44-50 | the other entries are kept; `all` leaves no `level` entry and any other choice leaves exactly one, holding that level |
| LibraryFilter.ChoiceIsShown | components/LibraryFilter.tsx:42-51 | after a non-empty level is chosen, the filter shows that level |
| LibraryFilter.SearchParams.Delete | components/LibraryFilter.tsx:47 | the entries become the ones `Deleted` keeps |
| LibraryFilter.SearchParams.Set | components/LibraryFilter.tsx:49 | the entries become `WithSet`'s |
| LibraryFilter.HandleLevelChange | components/LibraryFilter.tsx:44-52 | the router goes to `/library` with the query `LevelQuery` gives for the current query and the chosen level |
| LibraryFilter.FirstCodeUnit | components/LibraryFilter.tsx:27 | the first UTF-16 code unit: the character itself below U+10000, else its high surrogate |
| LibraryFilter.NamedOfDeleted | components/LibraryFilter.tsx:47 | after `delete` no entry has the name |
| LibraryFilter.DeletedTwice | components/LibraryFilter.tsx:47 | deleting a name twice is deleting it once |
| UrlUtils.HyphenateSpaces | lib/urlUtils.ts:8 | no white space is left, every character is a hyphen or one of the input's, and a text without white space is unchanged |
| UrlUtils.DropNonWord | lib/urlUtils.ts:9 | only word characters and hyphens are left, all taken from the input, and a text made only of them is unchanged |
| UrlUtils.CollapseHyphens | lib/urlUtils.ts:10 | no two hyphens are adjacent, no new character appears, and a text without a double hyphen is unchanged |
| UrlUtils.HyphenateSpacesRuns | lib/urlUtils.ts:8 | a maximal white-space run becomes exactly one hyphen: the part before it stays in place and the rest is hyphenated on its own |
| UrlUtils.CollapseHyphensRuns | lib/urlUtils.ts:10 | a maximal hyphen run becomes exactly one hyphen: the part before it stays in place and the rest is collapsed on its own |
| UrlUtils.TrimLeadingHyphens | lib/urlUtils.ts:11 | the result is a suffix of the input that does not start with a hyphen, every character dropped before it is a hyphen, and the input is kept whole when it does not start with one |
| UrlUtils.TrimTrailingHyphens | lib/urlUtils.ts:12 | the result is a prefix of the input that does not end with a hyphen, every character dropped after it is a hyphen, and the input is kept whole when it does not end with one |
| UrlUtils.Slugify | lib/urlUtils.ts:3-13 | every slug holds only lowercase ASCII letters, digits, `_` and `-`, starts and ends with no hyphen, and has no two adjacent hyphens |
| UrlUtils.SlugIsFixed | lib/urlUtils.ts:3-13 | a text that already has the shape of a slug is its own slug |
| UrlUtils.SlugifyIdempotent | lib/urlUtils.ts:3-13 | slugifying a slug changes nothing |
| UrlUtils.WordIsLowered | lib/urlUtils.ts:3-13 | a text made only of letters, digits and underscores is just lowercased |
| UrlUtils.SlugifyWordThen | lib/urlUtils.ts:3-13 | a word, then a run of white space and hyphens, then a rest starting with a word character: the slug is the lowercased word, one hyphen, and the slug of the rest |
| UrlUtils.SlugifyTwoWords | lib/urlUtils.ts:3-13 | two words with white space and hyphens between them slug to the two lowercased words joined by one hyphen |
| UrlUtils.SlugifyDropsPunctuation | lib/urlUtils.ts:9 | punctuation after a word is dropped and the word is lowercased |
| UrlUtils.SlugifyPunctuationExample | lib/urlUtils.ts:3-13 | `Gatsby!` slugs to `gatsby` |
| UrlUtils.SlugifyPhraseExample | lib/urlUtils.ts:3-13 | `Great Gatsby!` slugs to `great-gatsby` |
| UrlUtils.SlugifyTitleExample | lib/urlUtils.ts:3-13 | `The Great Gatsby!` slugs to `the-great-gatsby` |
| UrlUtils.SlugifyLevelExample | lib/urlUtils.ts:3-13 | `A2 - B1` slugs to `a2-b1`: the spaced hyphen becomes one hyphen |
| UrlUtils.BookUrl | lib/urlUtils.ts:15-19 | split on `/`, the path is an empty segment, `library`, the slug of the name, the slug of the level, then the id's own pieces |
| UrlUtils.BookUrlSegments | lib/urlUtils.ts:15-19 | a path built from two slugs splits on `/` into an empty segment, `library`, the two slugs, then the id's own pieces |
| UrlUtils.NoSlashInSlug | lib/urlUtils.ts:3-13 | no slug contains a `/` |
| Files.MadeDirectory | lib/ensureDirectories.ts:16 | a recursive `mkdirSync` changes nothing when a prefix of the path is a file; otherwise every prefix is a directory afterwards, and only directories are added |
| Files.Disk.Read | app/api/upload/route.ts:45 | reading succeeds exactly on a file, and gives its contents |
| Files.Disk.MakeDirectory | lib/ensureDirectories.ts:25 | succeeds exactly when no prefix is a file, and the entries become `MadeDirectory`'s; every entry stays inside a directory |
| Files.Disk.Unlink | lib/ensureDirectories.ts:38 | succeeds exactly on a file, which alone is removed; a directory or a missing entry makes it fail and changes nothing |
| Files.Disk.Write | app/api/upload/route.ts:9-16 | succeeds exactly when the parent is a directory and the path is not one, and then stores the bytes there and changes nothing else |
| Staging.FullPath | lib/ensureDirectories.ts:23 | the full path starts with the working directory |
| Staging.EnsureAll | lib/ensureDirectories.ts:12-20 | existing entries are kept as they are and only directories are added |
| Staging.EnsureAllSettles | lib/ensureDirectories.ts:12-20 | afterwards each required path exists, unless a file blocks it |
| Staging.EnsureAllIdempotent | lib/ensureDirectories.ts:12-20 | making sure of the directories a second time changes nothing |
| Staging.EnsureAllMakes | lib/ensureDirectories.ts:12-20 | each required path that is not a file becomes a directory, unless a file sits on its way |
| Staging.EnsureDirectoriesExist | lib/ensureDirectories.ts:12-20 | the loop leaves the disk as `EnsureAll` over the four staging directories, in order |
| Staging.EnsureDirectoryExists | lib/ensureDirectories.ts:22-29 | the directory is created only when nothing exists there; the call fails exactly when a file blocks it, and otherwise gives the full path, which then exists |
| Staging.ClearDirectory | lib/ensureDirectories.ts:34-41 | clearing succeeds exactly when the directory is missing, or holds only files; only files inside it are removed, and after success it holds nothing |
| Staging.ClearRequiredDirectories | lib/ensureDirectories.ts:32-43 | only files inside the staging directories are removed; it succeeds whenever each staging directory is missing or holds only files, and on success all four are empty; when `docs` holds a directory (as `docs/parsed` is) the clearing fails at `docs` |
| Staging.EnsureSettles | lib/ensureDirectories.ts:15-17 | making sure of one directory leaves it existing or blocked by a file, and an unblocked path becomes a directory unless a file is already there |
| UploadRoute.SanitizedName | app/api/upload/route.ts:27 | same length, each white-space character replaced by `_` in its place, every other character kept |
| UploadRoute.Kind | app/api/upload/route.ts:28 | the kind is empty or a dot followed by a shorter suffix, with no upper-case ASCII letter and no white space |
| UploadRoute.KindOf | app/api/upload/route.ts:28 | a name without white space is of the kind of its extension lowercased, so `.PDF` and `.pdf` are one kind |
| UploadRoute.SanitizedTwice | app/api/upload/route.ts:27 | sanitising a sanitised name changes nothing |
| UploadRoute.Extname | app/api/upload/route.ts:28 | the extension is empty or a suffix of the name that starts with its only dot, and is never the whole name |
| UploadRoute.Stem | app/api/upload/route.ts:46 | the stem followed by the extension is the name |
| UploadRoute.ExtnameOf | app/api/upload/route.ts:28-46 | a stem followed by a dotted extension splits back into exactly that stem and that extension |
| UploadRoute.FinalFile | app/api/upload/route.ts:46-52 | the stored file lies directly inside `docs/uploaded` |
| UploadRoute.TempFile | app/api/upload/route.ts:38 | the temporary EPUB lies directly inside `tmp` |
| UploadRoute.Truncated | app/api/upload/route.ts:69-73 | the first `min(25, n)` pages, in order |
| UploadRoute.TruncatedProperties | app/api/upload/route.ts:71 | a document of at most 25 pages is kept whole, and cutting twice is cutting once |
| UploadRoute.Finish | app/api/upload/route.ts:79-91 | after the directories are cleared the answer is 200 and names the stored file; if the clearing throws, it is the fixed server error |
| UploadRoute.CopyFirstPages | app/api/upload/route.ts:70-73 | the new document holds exactly the truncated pages |
| UploadRoute.Conversion | app/api/upload/route.ts:36-49 | a converted document needs the `tmp` directory, and comes from an archive that unzips or from an output file already on disk |
| UploadRoute.ConversionLaysOut | app/api/upload/route.ts:36-49 | on a disk where `tmp` is a directory, the output file is absent and `docs/tmp` exists or can be made, an upload that unzips yields the saved PDF of the book read from it, and one that does not unzip yields nothing |
| UploadRoute.ConvertUpload | app/api/upload/route.ts:36-49 | the buffer is `Conversion`'s; on every outcome each earlier entry other than the temporary EPUB is unchanged, and the new entries besides it are only `docs`, `docs/tmp` or a file directly inside `docs/tmp`; when there is a buffer the temporary EPUB is gone, and when the conversion fails after it was written it is left behind holding the upload |
| UploadRoute.FinalOutsideConversion | app/api/upload/route.ts:36-52 | converting an EPUB leaves `docs/uploaded` a directory and does not make the final path one |
| UploadRoute.Store | app/api/upload/route.ts:60-91 | a document without pages gives 400; the file is stored, holding the saved truncated pages, exactly when it loads with pages and can be written; when it is not stored the disk is unchanged; when it is, every other entry is still there as it was except files directly inside `docs`, which the clearing may remove, and no other new entry is left; the answer is never 200 |
| UploadRoute.Post | app/api/upload/route.ts:18-93 | a missing file and an unsupported extension give 400 after the staging directories are made sure of; a PDF with pages is stored at its final path; an EPUB whose conversion fails gives 500, one converted to a document without pages gives 400, and one converted to pages is stored at `<stem>.pdf` holding those pages; whatever is stored holds the first pages it was cut from; against the disk after the staging directories are made sure of, a PDF not stored changes nothing, a stored one changes only its own file and files directly inside `docs`, and an EPUB keeps every other entry (earlier uploads included) except those files, adds only its final file and `docs/tmp` content, and leaves `tmp/temp_<name>` behind when its conversion fails; the answer is never 200 |
| UploadRoute.UploadPdf | app/api/upload/route.ts:50-52 | the PDF branch: 400 for a document without pages; stored at its own name, holding its first pages saved again, when it has pages and `docs/uploaded` can take the file; the answer is never 200; when nothing is stored nothing on the disk changes, and when stored only its file and files directly inside `docs` change |
| UploadRoute.UploadEpub | app/api/upload/route.ts:36-49 | the EPUB branch: 500 when `Conversion` fails, with the temporary EPUB left behind; 400 for a converted document without pages; stored at `<stem>.pdf` otherwise; earlier entries kept except the temporary EPUB and files directly inside `docs` |
| Cefr.RankOfLevel | components/LibraryFilter.tsx:12 | each level of the scale has its position as rank |
| Pdf.WithMark | lib/epubConverter.ts:121-127 | the mark is appended to the last page alone |
| Pdf.Document.constructor | lib/epubConverter.ts:53 | a new document has no page |
| Pdf.Document.AddPage | lib/epubConverter.ts:112-117 | a blank page of the given size is appended |
| Pdf.Document.AddCopiedPage | app/api/upload/route.ts:71-72 | the copied page is appended as it is |
| Pdf.Document.DrawText | lib/epubConverter.ts:121-127 | the text is drawn on the most recently added page, after its other marks |
| EpubConverter.Joined | lib/epubConverter.ts:94 | two or more words never join to an empty line |
| EpubConverter.EncodableAppend | lib/epubConverter.ts:94-95 | a joined line can be measured exactly when both of its parts can |
| EpubConverter.Lines | lib/epubConverter.ts:93-106 | one line of text per group of words, its words joined by spaces |
| EpubConverter.WrapLinesFit | lib/epubConverter.ts:93-106 | every line pushed is non-empty, and fits the text width or is a single word |
| EpubConverter.WrapKeepsWords | lib/epubConverter.ts:93-106 | the words of the lines are the words given, in order, none lost or repeated |
| EpubConverter.WrapNeedsEncodable | lib/epubConverter.ts:95 | a wrap that succeeds has measured, and so encodes, every word |
| EpubConverter.WrapSucceeds | lib/epubConverter.ts:95 | when the font encodes the space and every word, the wrap succeeds |
| EpubConverter.WrapWords | lib/epubConverter.ts:90-106 | the loop succeeds exactly when the greedy wrap does, and then gives its lines |
| EpubConverter.Marks | lib/epubConverter.ts:111-130 | one mark per line |
| EpubConverter.MarkAt | lib/epubConverter.ts:111-130 | the k-th line of a page is drawn at the left margin, k line heights below the top |
| EpubConverter.PagesFrom | lib/epubConverter.ts:114-130 | setting lines always leaves a page |
| EpubConverter.PagesFromCount | lib/epubConverter.ts:114-119 | the lines take `PageCount` pages in all |
| EpubConverter.PaginatedPages | lib/epubConverter.ts:111-130 | n lines take one blank page when n is 0 and n/48 rounded up otherwise; every page is Letter sized with at most 48 lines |
| EpubConverter.BaselinesOnPage | lib/epubConverter.ts:111-130 | every baseline lies between the top margin and the bottom one |
| EpubConverter.Texts | lib/epubConverter.ts:121 | one text per mark |
| EpubConverter.TextsOfPage | lib/epubConverter.ts:121 | a page shows its lines, in order |
| EpubConverter.PagesFromDrawsAll | lib/epubConverter.ts:114-130 | the lines on the page, then every further line, each drawn once and in order |
| EpubConverter.PaginatedDrawsAll | lib/epubConverter.ts:111-130 | every line of a file is drawn once, in order |
| EpubConverter.LayOutLines | lib/epubConverter.ts:111-130 | the loop appends exactly the paginated lines to the document |
| EpubConverter.ContentFiles | lib/epubConverter.ts:46-50 | only `.html`, `.xhtml` and `.htm` entries of the archive |
| EpubConverter.ContentFilesExactly | lib/epubConverter.ts:46-50 | an entry is laid out exactly when it is a content entry, in archive order |
| EpubConverter.Budgeted | lib/epubConverter.ts:84-86 | the first words of the file, at least one, as many as there are or as the budget has left |
| EpubConverter.FilePages | lib/epubConverter.ts:72-134 | a file that is missing or only white space adds no page and no word; otherwise the total grows by the file's word count, capped at the word limit, and when the kept words wrap, the pages draw exactly the wrapped lines, in order, at most `LinesPerPage` to a page and `PageCount` pages in all, and when they do not wrap, no page is added |
| EpubConverter.Charged | lib/epubConverter.ts:78-87 | the total never decreases and never passes 15000 |
| EpubConverter.FileCharge | lib/epubConverter.ts:72-87 | an unreadable or blank file is charged nothing and adds no pages; any other file is charged all its words or what the budget has left |
| EpubConverter.FileLaidOut | lib/epubConverter.ts:84-130 | a wrapped file adds fresh pages of at most 48 lines showing its budgeted words, in order |
| EpubConverter.BookFrom | lib/epubConverter.ts:64-68 | the word total stays within 15000 |
| EpubConverter.BookAppend | lib/epubConverter.ts:68 | laying out two lists of files is laying out the first and then the second from where the total was left |
| EpubConverter.BudgetSpent | lib/epubConverter.ts:68 | once the budget is spent, no later file adds a page or a word |
| EpubConverter.SkippedFile | lib/epubConverter.ts:78-81 | a file that adds no pages does not stop the files after it |
| EpubConverter.LayOutFile | lib/epubConverter.ts:72-134 | one file of the loop appends exactly the file's pages and returns its total |
| EpubConverter.LayOutBook | lib/epubConverter.ts:63-135 | the loop appends `BookFrom`'s pages for all content files, and its total stays within 15000 |
| EpubConverter.FirstPackage | lib/epubConverter.ts:144 | the first `.opf` entry, or none when there is none |
| EpubConverter.FieldValue | lib/epubConverter.ts:150-152 | a field is present exactly when its element has non-empty text |
| EpubConverter.MetadataOf | lib/epubConverter.ts:142-153 | no package document gives no metadata; otherwise each field comes from the first package document |
| EpubConverter.OutputFile | lib/epubConverter.ts:19-21 | the output lies directly inside `docs/tmp` |
| EpubConverter.ConvertEpubToPdf | lib/epubConverter.ts:15-160 | an existing conversion is returned unchanged with no metadata; otherwise the conversion succeeds exactly when `docs/tmp` can be made and the input is a zip archive, and then the laid-out book is saved under the digest's name with its metadata; a failure leaves only the new directories |
| LlamaParse.WordTarget | lib/llamaparse.ts:93-96 | 100 words for `short`, 450 for `long`, 250 for anything else |
| LlamaParse.SummaryQuery | lib/llamaparse.ts:93-96 | the query names the requested length as given, followed by `summary`, and ends with the word target of that length and the closing instruction |
| LlamaParse.SummaryQueriesDiffer | lib/llamaparse.ts:93-96 | the three lengths ask three different queries |
| LlamaParse.MetadataOf | lib/llamaparse.ts:106-111 | name, author and level as analysed; an empty language becomes English, so the language is never empty |
| LlamaParse.ParseDocument | lib/llamaparse.ts:67-118 | a failed load is re-thrown; no documents and an empty first text are errors; success means the first text was analysed into the metadata and all documents were summarised with the length's query; any other failure comes from the analysis or the summary |
| LlamaParse.MetadataFromFirstDocument | lib/llamaparse.ts:84 | only the first document is analysed: equal first texts give equal metadata |
| ArticleService.ArticleText | lib/articleService.ts:21-22 | the first non-empty of the article, main and body texts, trimmed |
| ArticleService.FetchArticleFromUrl | lib/articleService.ts:7-26 | fails, with its one message, exactly when fetching the page fails; otherwise the page's article text |
| ArticleService.Excerpt | lib/articleService.ts:38 | the first 1000 characters, or the whole text when shorter |
| ArticleService.RenderDetectInjective | lib/articleService.ts:29-41 | different excerpts give different detection prompts |
| ArticleService.RenderRewriteInjective | lib/articleService.ts:64-76 | for levels of one length, two rewrite prompts are equal only for the same text and the same level |
| ArticleService.DetectLanguageLevel | lib/articleService.ts:28-57 | a model error is re-thrown; the trimmed answer is returned exactly when it is one of the six levels, and any other answer is refused; a result is always a level |
| ArticleService.DetectSeesExcerptOnly | lib/articleService.ts:38 | texts that agree on their first 1000 characters get the same answer |
| ArticleService.RewriteArticle | lib/articleService.ts:59-86 | an invalid target is refused; otherwise the model's answer trimmed, empty when it gave none, or its error |
| ArticleService.RewriteRefusesFirst | lib/articleService.ts:60-62 | an invalid target is refused before the model is asked |
| ArticleService.ProcessArticle | lib/articleService.ts:88-99 | the text is the input, or the fetched article text for a URL; a failed fetch is its error; a result's level is what detection gives for its text, and the call fails, with detection's error, exactly when detection on that text fails; the level is one of the six |
| ArticleRoute.Post | app/api/article/route.ts:3-23 | a truthy target level rewrites the text and any other request analyses it; every failure, an invalid target among them, is the same 500 answer; an analysed level is always one of the six |
| ArticleRoute.RewriteIgnoresIsUrl | app/api/article/route.ts:7-10 | the rewrite answer does not depend on `isUrl` |
| GradeRoute.LengthOf | app/api/grade/route.ts:12 | an absent or empty length is `medium`; any other value is kept as it is |
| GradeRoute.Key | app/api/grade/route.ts:19 | the key is the file name, one separator and the length, and starts with the file name |
| GradeRoute.KeyInjective | app/api/grade/route.ts:19 | for the lengths `short`, `medium` and `long`, equal keys mean the same file and the same length |
| GradeRoute.KeyCollision | app/api/grade/route.ts:12-19 | with any other length two different requests can share one key (`a-b` at `c` and `a` at `b-c`) |
| GradeRoute.UploadedFile | app/api/grade/route.ts:26 | the file is looked for directly inside `docs/uploaded` |
| GradeRoute.Cache.Get | app/api/grade/route.ts:9-49 | a missing file name gives 400; a cached analysis is answered without parsing; a missing file gives 404; otherwise the document is parsed once, a success is cached under the key and answered, and a failure gives 500 with its message; no cached entry is ever lost or changed |
| Toasts.IdFor | components/ui/use-toast.tsx:25 | a non-empty id of its own is kept, otherwise the generated one is used |
| Toasts.Without | components/ui/use-toast.tsx:31 | what is left has no notification with that id, and each comes from the list |
| Toasts.WithoutKeepsOthers | components/ui/use-toast.tsx:31 | dismissing keeps every other notification in order, and an id nobody has changes nothing |
| Toasts.ToastThenDismiss | components/ui/use-toast.tsx:24-32 | showing a notification under a new id and dismissing that id gives back the list |
| Toasts.DismissIdempotent | components/ui/use-toast.tsx:31 | dismissing twice is dismissing once |
| Toasts.Toaster.constructor | components/ui/use-toast.tsx:22 | no notification at first |
| Toasts.Toaster.Toast | components/ui/use-toast.tsx:24-28 | the notification is appended under the id `IdFor` chooses, which is returned |
| Toasts.Toaster.Dismiss | components/ui/use-toast.tsx:30-32 | the list becomes `Without` the id |
| Toasts.Toaster.OpenChange | components/ui/use-toast.tsx:40-44 | opening changes nothing; closing removes every notification with the closed one's id |
| ConvertImages.PdfDocument.constructor | app/api/convert-images/route.ts:22 | a new document has no page |
| ConvertImages.PdfDocument.AddPage | app/api/convert-images/route.ts:38 | a blank page of the given size is appended, and its index returned |
| ConvertImages.PdfDocument.DrawImage | app/api/convert-images/route.ts:39-44 | the drawing is appended to that page alone |
| ConvertImages.PageOf | app/api/convert-images/route.ts:38-44 | the page has the image's size and one drawing of the image over all of it |
| ConvertImages.Packed | app/api/convert-images/route.ts:25-50 | one page per image that converts, in upload order, each holding that image |
| ConvertImages.PackedSnoc | app/api/convert-images/route.ts:25-50 | one more image adds its page exactly when it converts |
| ConvertImages.PackedExtremes | app/api/convert-images/route.ts:45-49 | when every image converts there is a page each; when none does there is no page |
| ConvertImages.Pack | app/api/convert-images/route.ts:22-50 | the loop builds a new document whose pages are `Packed` |
| ConvertImages.Post | app/api/convert-images/route.ts:6-69 | `tmp` is made sure of first; a file blocking it or an unreadable form gives 500; no images gives 400; otherwise the answer is a PDF attachment of the packed pages, even when it has none |
| UpdateBookCover.BlankIsTrimmedEmpty | components/UpdateBookCover.tsx:63 | a URL is blank exactly when trimming leaves nothing |
| UpdateBookCover.OwnerUpdated | components/UpdateBookCover.tsx:86-90 | only rows with the book's id and the reader's email get the new cover; nothing else in any row changes |
| UpdateBookCover.OwnerUpdateIsSetCover | components/UpdateBookCover.tsx:86-90 | when the book is the reader's, the update is `updateBookCoverUrl`'s; when the reader owns no such row, nothing changes |
| UpdateBookCover.OwnerUpdateKeepsIds | components/UpdateBookCover.tsx:86-90 | the ids stay unique |
| UpdateBookCover.Selected | components/UpdateBookCover.tsx:91-100 | the returned rows are the reader's book with the new cover, and there are none exactly when the reader owns no row with that id |
| UpdateBookCover.OwnedRowSelected | components/UpdateBookCover.tsx:91-100 | selecting the reader's rows gives nothing exactly when none is the reader's book |
| UpdateBookCover.EmailOf | components/UpdateBookCover.tsx:70-79 | an email is found exactly when the stored item is non-empty, parses, and holds a non-empty email |
| UpdateBookCover.Outcome | components/UpdateBookCover.tsx:69-111 | no stored user asks to sign in; a parse error shows its message; no email asks to sign in again; an update error shows its message; in all these the rows stay; otherwise the owner's row alone is updated, and success is shown exactly when a row was returned, else permission is refused |
| UpdateBookCover.OutcomeKeepsIds | components/UpdateBookCover.tsx:86-90 | the ids stay unique |
| UpdateBookCover.CoverDialog.constructor | components/UpdateBookCover.tsx:25-27 | the field holds the current cover or nothing; closed and idle |
| UpdateBookCover.CoverDialog.HandleUpdateCover | components/UpdateBookCover.tsx:58-115 | a blank field is refused without loading or changes; otherwise loading is raised and cleared, the notice and rows are `Outcome`'s, and the dialog closes exactly on success |
| BookService.Normal | lib/bookService.ts:10-11 | a normalised name has no white space at either end |
| BookService.NormalIgnoresCase | lib/bookService.ts:10-11 | lowering the letters first does not change the normalised name |
| BookService.NormalIgnoresPadding | lib/bookService.ts:10-11 | white space around a name does not change the normalised name |
| BookService.FirstSameIsFirst | lib/bookService.ts:25-28 | the match is the first row whose normalised name and author agree with the caller's, and there is none exactly when no row agrees |
| BookService.SetCover | lib/bookService.ts:37-40 | every row with that id gets the cover and every other row is kept |
| BookService.SetCoverOne | lib/bookService.ts:121-127 | with unique ids, setting the cover of a row's id changes that row alone |
| BookService.SetCoverKeepsIds | lib/bookService.ts:121-127 | setting covers keeps the ids unique |
| BookService.Saved | lib/bookService.ts:5-72 | a thrown error leaves the table as it was |
| BookService.SavedQueryFails | lib/bookService.ts:19-22 | a failing existence query is re-thrown and nothing is written |
| BookService.SavedExisting | lib/bookService.ts:25-49 | with a stored copy among the query's rows, nothing is inserted: the first copy is returned; a copy with a cover is returned unchanged; otherwise the table changes only by setting the found cover on that row |
| BookService.SavedNew | lib/bookService.ts:51-67 | without a stored copy, exactly one row is appended and returned: the caller's fields, the new id, and the cover looked up |
| BookService.SavedKeepsIds | lib/bookService.ts:5-72 | with a fresh generated id, saving keeps the ids unique |
| BookService.AppendFreshKeepsIds | lib/bookService.ts:55-59 | appending a row with a fresh id keeps the ids unique |
| BookService.SavedTwice | lib/bookService.ts:14-49 | saving the same book again inserts nothing, as long as the existence query returns the row first inserted |
| BookService.InsertByDate | lib/bookService.ts:78 | inserting adds the row to the list and nothing else |
| BookService.InsertByDateSorted | lib/bookService.ts:78 | inserting into a newest-first list keeps it newest first |
| BookService.Newest | lib/bookService.ts:78 | newest first, and a permutation of the rows |
| BookService.ListingMembers | lib/bookService.ts:151-162 | a listing that is a permutation of the filtered rows holds exactly the rows that pass the filter |
| BookService.Table.constructor | lib/bookService.ts:14-16 | the table holds the given rows |
| BookService.Table.GetAllBooks | lib/bookService.ts:74-85 | fails exactly when the query fails; otherwise every row, newest first |
| BookService.Table.GetUserBooks | lib/bookService.ts:151-163 | fails exactly when the query fails; otherwise the reader's rows, newest first |
| BookService.Table.SearchBooks | lib/bookService.ts:137-149 | fails exactly when the query fails; otherwise the rows whose name, author or level contains the query, letter case aside, newest first |
| BookService.Table.RowById | lib/bookService.ts:111-112 | a row found is in the table under that id; with unique ids, a present id is found |
| BookService.Table.GetBookByIdSupabase | lib/bookService.ts:107-119 | a row found is in the table under that id; with unique ids and no failure, a present id is found |
| BookService.Table.GetBookById | lib/bookService.ts:87-105 | as `GetBookByIdSupabase`, with null in place of every error |
| BookService.Table.UpdateBookCoverUrl | lib/bookService.ts:121-134 | a failure changes nothing; otherwise covers are set by id; a row is returned exactly when the id is present, carrying the new cover |
| BookService.Table.SaveGradedBook | lib/bookService.ts:5-72 | the result and the new table are `Saved`'s, and the ids stay unique |
| BookService.WithId | lib/bookService.ts:111 | the rows with that id, each from the table |
| BookService.SingleMatch | lib/bookService.ts:111-112 | with unique ids, a row's id selects that row alone |
| BookService.NoneMatch | lib/bookService.ts:111-112 | an id no row has selects nothing |
| BookCover.GetCoverUrl | lib/bookcover.ts:3-19 | the large image of the first result's truthy `cover_i`, else the placeholder; the placeholder is given exactly when no cover was offered, and the result is never empty |
| OpenLibraryService.Query | lib/openLibraryService.ts:12 | the search text has no white space at either end; lib/googleBooksService.ts:12 builds the same text |
| OpenLibraryService.CoverUrl | lib/openLibraryService.ts:28 | the image URL starts with the covers host path and ends with `-L.jpg` |
| OpenLibraryService.CoverIn | lib/openLibraryService.ts:17-30 | a reply offers a cover exactly when it answered with a first result whose `cover_i` is present and not 0, and then that one |
| OpenLibraryService.FirstCover | lib/openLibraryService.ts:9-43 | the first attempt from a given one whose reply offers a cover, no earlier one offering any; None when none of the remaining attempts does |
| OpenLibraryService.CoverAt | lib/openLibraryService.ts:8-46 | a cover is found exactly when one of the three replies to the search request offers one, and it is the image of the first such attempt |
| OpenLibraryService.FetchFrom | lib/openLibraryService.ts:10-43 | the retry loop returns `CoverAt`'s cover for its request, stops right after the first attempt that finds one (three attempts otherwise), and waits once between two attempts |
| OpenLibraryService.FetchBookCover | lib/openLibraryService.ts:8-46 | the loop searches for the trimmed title and author, so its cover is the one the first of the three replies to that search offers |
| GoogleBooks.CleanTitle | lib/googlebooks.ts:26 | the cleaned title has no white space at either end, is no longer than the title, and holds only word characters and white space |
| GoogleBooks.CleanTitleKeeps | lib/googlebooks.ts:26 | a trimmed title made only of word characters and white space is searched for as it is |
| GoogleBooks.CleanTitleTwice | lib/googlebooks.ts:26 | cleaning a cleaned title changes nothing |
| GoogleBooks.CleanTitleSpaces | lib/googlebooks.ts:26 | a title that starts and ends with a word character is cleaned to `Spaced` of it: same length, word characters and white space kept in place, every other character a space |
| GoogleBooks.InfoIn | lib/googlebooks.ts:39-50 | a reply gives volume information exactly when it answered with a first item that has `volumeInfo`, and then it is that item's `volumeInfo` |
| GoogleBooks.ImprovedHttp | lib/googlebooks.ts:54-60 | an `http:` thumbnail becomes `https:`, and the zoom, curl and source rewrites touch only the rest of the address |
| GoogleBooks.FirstAuthor | lib/googlebooks.ts:64 | an author is given exactly when the first entry of `authors` exists and is not empty, and then it is that entry |
| GoogleBooks.GetGoogleBookInfo | lib/googlebooks.ts:16-70 | an empty title or a reply without volume information gives two nulls; otherwise the author is the first author, and a cover is given exactly when the thumbnail is non-empty, as its improved address |
| GoogleBooksService.ThumbnailIn | lib/googleBooksService.ts:17-23 | a reply offers a thumbnail exactly when it answered with a first item whose thumbnail is present and non-empty, and then that one |
| GoogleBooksService.RewrittenHttp | lib/googleBooksService.ts:25-27 | an `http://` thumbnail becomes the same address over `https://` without its first `&zoom=1` |
| GoogleBooksService.FirstThumbnail | lib/googleBooksService.ts:10-43 | the first attempt from a given one whose reply offers a thumbnail, no earlier one offering any; None when none of the remaining attempts does |
| GoogleBooksService.CoverAt | lib/googleBooksService.ts:9-46 | a cover is found exactly when one of the three replies to the search request offers a thumbnail, and it is the rewritten thumbnail of the first such attempt |
| GoogleBooksService.FetchFrom | lib/googleBooksService.ts:10-43 | the retry loop returns `CoverAt`'s cover for its request, stops right after the first attempt that finds one (three attempts otherwise), and waits once between two attempts |
| GoogleBooksService.FetchBookCover | lib/googleBooksService.ts:9-46 | the loop searches for the trimmed title and author, so its cover is the one the first of the three replies to that search offers |
| BookRoute.Plussed | app/api/book/route.ts:16-18 | same length, no space left, each space made a `+` and every other character kept |
| BookRoute.ImageUrl | app/api/book/route.ts:37 | the Open Library cover address starting with the id's decimal text and a hyphen, and ending in the size and `.jpg` |
| BookRoute.FirstSize | app/api/book/route.ts:36-58 | the first size, in the order L, M, S, whose image loads; none when none does |
| BookRoute.CoverOf | app/api/book/route.ts:29-34 | the first result's cover id, present exactly when it is truthy |
| BookRoute.AuthorOf | app/api/book/route.ts:32 | an author exactly when the first result has a non-empty first author name, and then that name |
| BookRoute.BookLookup | app/api/book/route.ts:6-72 | a missing or empty title gives 400, and only it; a failed search gives 500, and only it; after a search, the answer is 200 with the first size that loads for the first result's cover and its author exactly when the first result has a cover id and some size loads, and the placeholder with no author otherwise |
| BookRoute.Get | app/api/book/route.ts:6-72 | the answer is `BookLookup`'s; at most three image requests are made: one more than the index of the size that loaded, and, when none did, three if the first result has a cover id and none otherwise |
| BookListing.RelatedBooks | app/library/page.tsx:33-37 | at most three books, each from the list and sharing the selected book's level under another id; as many as there are up to three, and the first of those in list order |
| BookListing.RelatedInOrder | app/library/page.tsx:33-37 | the related books keep the list's order, and the selected book is never among them |
| BookListing.AllRelatedWhenFew | app/library/page.tsx:36 | with at most three related books, every one is offered |
| BookListing.Offered | app/library/page.tsx:112 | nothing without a selected book, else its related books: at most three, all from the list, never the selected book itself; app/my-books/page.tsx:158 passes the same list |
| BookListing.FilteredBooks | app/library/page.tsx:43-45 | without a level, or with `all`, every book; otherwise exactly the books whose level covers the chosen one |
| BookListing.FilteredInOrder | app/my-books/page.tsx:65-67 | the filtered list keeps the order, and a book is kept exactly when its level covers the chosen one |
| BookListing.AllSkipsNothing | app/library/page.tsx:43 | skipping the filter for `all` shows what filtering by `all` would |
| LibraryPage.Library.constructor | app/library/page.tsx:15-17 | no books, nothing selected, loading |
| LibraryPage.Library.FetchBooks | app/library/page.tsx:19-31 | loading ends; a failure keeps the books; otherwise they are every row, newest first |
| LibraryPage.Library.HandleBookClick | app/library/page.tsx:39-41 | the clicked book becomes the selection and nothing else changes |
| LibraryPage.Library.Content | app/library/page.tsx:62-70 | loading shows the loading message; an empty filtered list shows no books; otherwise the filtered books |
| MyBooksPage.MyBooks.constructor | app/my-books/page.tsx:24-28 | no user, no books, nothing selected, loading |
| MyBooksPage.MyBooks.LoadUser | app/my-books/page.tsx:32-37 | a non-empty stored item becomes the parsed user; otherwise the user stays |
| MyBooksPage.MyBooks.FetchBooks | app/my-books/page.tsx:39-53 | without an email nothing changes, not even loading; otherwise loading ends and the books become the reader's own rows, unless the fetch fails |
| MyBooksPage.MyBooks.HandleBookClick | app/my-books/page.tsx:61-63 | the clicked book becomes the selection and nothing else changes |
| MyBooksPage.MyBooks.Content | app/my-books/page.tsx:69-105 | no user shows the sign-in message; then loading, no books, or the filtered books |
| MyBooksPage.LoadingWithoutEmail | app/my-books/page.tsx:32-53 | a stored user without an email leaves the page loading for good |

## Left out

- Network, database, language-model, PDF-library, archive and HTML-parser calls are oracle parameters. The model fixes how their answers are used, not what they are.
- Timing is not modelled. The one-second waits between retries are only counted (`delays`), and request timeouts count as failed requests.
- Concurrency is not modelled: two requests sharing the grade cache, or the staging directories at once, are not covered.
- `toLowerCase` is modelled on ASCII letters only. Other letters are left unchanged in slugs and in the normalised book names.
- Strings are sequences of code points, while JavaScript counts UTF-16 code units. `LibraryFilter.FirstCodeUnit` and `LibraryFilter.LevelToNumber` read `charCodeAt(0)` and `charAt(1)` in code units. The two places below count code points instead.
- ArticleService.Excerpt: takes the first 1000 code points, while `slice(0, 1000)` takes 1000 UTF-16 code units, so a text with characters above U+FFFF gets a longer excerpt here. A slice can also cut a surrogate pair in half, which a Dafny `char` cannot hold.
- GoogleBooks.CleanTitle: a character above U+FFFF becomes one space. The regular expression has no `u` flag, so the source sees two surrogate halves and writes two spaces; only the spacing inside the searched title differs.
- `encodeURIComponent`, the MD5 digest and `JSON.parse` are oracles.
- `URLSearchParams` parsing and serialising are left out. The query is a list of name/value entries.
- File names are single path components. Uploaded names containing `/` and `path.join` normalisation are not modelled.
- `ensureDirectoriesExist` runs its callbacks as promises that nobody awaits, so a rejection there is unhandled. The model treats each creation as finished before the next one starts.
- Files.Disk.Write: I/O errors other than a missing parent or a wrong kind of entry are not modelled (disk full, permissions).
- Files.Disk.Read: fails only on a missing entry or a directory.
- The bytes of a saved PDF are left abstract (`Pdf.Codec`). A save that throws is not modelled.
- The `OPENAI_API_KEY` check at module load, and the sampling parameters of the model calls (temperature, token limits), are left out.
- LlamaParse.ParseDocument: the analysis model's JSON answer is parsed but never validated. The zod schema in `lib/llamaparse.ts` only supplies its type, and `JsonOutputParser` takes the parsed fields unchecked. The `analyse` oracle returns four strings, so an answer with a missing or non-string field, which the source would pass on as it is, is not modelled.
- Removing `script`, `style`, `nav`, `header` and `footer` elements and reading element text are part of the `fetchPage` oracle (`ArticleService.PageText`).
- Whether the Times Roman encoding can show a character is the font's `encodable` oracle. Text widths are the `width` oracle.
- Coordinates are integers in tenths of a point. The 1.2 line-height factor is exact there, so no floating point is needed.
- UpdateBookCover.Outcome gives the toast text of a thrown update error as the `updateError` parameter. Supabase's error object is not modelled.
- UpdateBookCover.Outcome is stated in one direction for the refusal notice: a parse error whose message equals that notice's text is not told apart from it.
- The realtime subscription of the cover dialog and its `onUpdate` callback are left out. So are rendering, routing side effects beyond the pushed path, and the toast library's display of notices (`Notice` values).
- On the "my books" page, a `JSON.parse` that throws is not modelled. `parse` returns None only for a stored `null`.
- The grade route's `NextResponse` headers are not modelled. Neither is a non-`Error` exception's default message, because the oracles only return messages.
- ArticleRoute.Post takes `isUrl` as a boolean. Other truthy JSON values are not modelled.
