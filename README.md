# pdf-knife, modelled in Dafny

pdf-knife is a browser extension that saves the document a page shows as a
PDF. Its content script works in three stages:

1. It looks for a direct PDF address in the page's iframes, PDF embeds,
   anchors, JSON script blocks, `data-*` attributes and, finally, the page's
   own address. When it finds one, it hands it to the background script.
2. Otherwise it loads jsPDF and draws the page's `blob:` images, one per PDF
   page, scaled to fit and centred, reporting progress after each image it
   draws. An image whose canvas yields no context is skipped and reports
   nothing and, once an image has been drawn, still leaves a blank page (see
   Findings).
3. It names the file from the page title.

A `processed` flag keeps the automatic run from repeating. An exclusion list
keeps the extension off chosen hosts. The background script handles the rest:

- it writes default settings on installation;
- it turns a discovered address into a download with a derived file name,
  an optional folder and a conflict action;
- it notifies when a PDF was created;
- it offers a "Download PDF with PDF Knife" entry on links.

Nothing was executed. The model is a Dafny description of this behaviour with
proofs about it. Modules:

- `Wrappers`: `Option`, for JavaScript's `null`/`undefined`.
- `Strings`: the JavaScript string operations used: `startsWith`,
  `endsWith`, `includes`, ASCII `toLowerCase`, `trim`, and `split` on one
  character, with its partner `join`.
- `Settings`: the stored `settings` record and the defaults.
- `Discovery`: `findPdfUrl` and `findPdfInObject`.
  - The document is given as the element lists the CSS selectors pick out.
  - Parsed JSON is a recursive datatype.
  - Each strategy is a first-hit search over its list.
  - The recursive scan is proved equal to "the first matching string in
    depth-first key order".
- `Exclusion`: `shouldExclude`, a split/trim/filter/some chain, proved equal
  to "some trimmed, non-blank line occurs in the host name".
- `Filename`: `generateFilename`, written as an imperative method and
  proved against the function `NameFor`.
- `Assembly`: the blob filter, the fit-to-page layout, the progress
  percentages, and the page loop.
  - There are two loops, `AssembleAsWritten` and `AssemblePages`. Each is
    proved against a recursive specification of the document it builds.
  - `AssembleAsWritten` is the loop as written, which calls `addPage`
    before the canvas-context check.
  - `AssemblePages` is the loop with that call moved after the check (see
    Findings).
- `Trigger`: the content script as a class whose `processed` field the
  methods update.
  - `CreatePdf` is `createPDF`, with the page loop as written
    (`AssembleAsWritten`). The two listeners are `OnPageLoad` and
    `OnManualDownload`.
  - `IntendedAssemblyOutcome` is the same run with the corrected page loop,
    kept apart for the Findings row.
  - It also holds the trusted-types check on the library's address.
- `Background`: the background script's handlers, as functions from their
  inputs to the download request and notification they ask for.

Host inputs become parameters:

- the stored entries;
- the page's element lists;
- the active tab's origin;
- whether the library loads;
- whether each canvas yields a context;
- the page size.

Host calls (downloads, notifications, messages) become returned values.

The model follows the code where the code and its design description
disagree:

- **Progress.** The percentage is `(i + 1) / n` over all blob images (skipped
  ones included), not images drawn over images found.
- **Page per drawn image.** The code calls `addPage` before it checks for a
  canvas context. It therefore does not give one page per successfully drawn
  image.
- **Nested `downloadUrl`.** A `downloadUrl` nested inside other objects is
  not looked up by key. It is found only by the recursive scan, which also
  demands an "http" or "/" prefix. `Discovery.NestedRelativeAddressIgnored`
  states a case.
- **Direct-download notification.** The direct-download handler shows no
  notification. Only `pdfCreated` and the link-menu download do.

## Model

| member | source | states |
|---|---|---|
| Strings.ContainsIff | source/ContentScript/index.ts:26-27 | `includes` holds exactly when the needle occurs at some position |
| Strings.ToLower | source/ContentScript/index.ts:50 | lower-casing keeps the length and maps each character through ASCII lower-casing |
| Strings.TrimStart | source/ContentScript/index.ts:143 | the result is a suffix, everything dropped is whitespace, and it does not start with whitespace |
| Strings.TrimEnd | source/ContentScript/index.ts:143 | the result is a prefix, everything dropped is whitespace, and it does not end with whitespace |
| Strings.Trim | source/ContentScript/index.ts:143 | the trimmed string is a slice of the input, everything around it is whitespace, and it has no whitespace at either edge |
| Strings.TrimEmpty | source/ContentScript/index.ts:144 | trimming leaves nothing exactly when every character is whitespace |
| Strings.Split | source/ContentScript/index.ts:142 | the pieces are at least one, free of the separator, and join back to the input |
| Strings.SplitJoin | source/ContentScript/index.ts:142 | splitting the join of separator-free pieces gives those pieces back |
| Strings.SplitConcat | source/ContentScript/index.ts:142 | splitting `a + sep + b` gives the pieces of `a` followed by those of `b` |
| Strings.FirstPiece | source/Background/index.ts:49 | `split(sep)[0]` is a separator-free prefix, followed in the input by a separator when it is shorter |
| Strings.LastPiece | source/Background/index.ts:49 | `split(sep).pop()` is a separator-free suffix, preceded in the input by a separator when it is shorter |
| Discovery.FindFirst | source/ContentScript/index.ts:22-31 | the search returns nothing iff every element misses, and otherwise the hit of an element before which all miss |
| Discovery.FindFirstAt | source/ContentScript/index.ts:22-31 | the first position that hits decides the search |
| Discovery.IframeMatches | source/ContentScript/index.ts:24-28 | the iframe test as written; `IframeEndsWithSubsumed` states what it amounts to |
| Discovery.IframeEndsWithSubsumed | source/ContentScript/index.ts:24-28 | the iframe test holds iff the `src` contains ".pdf" or "/pdf/"; the `endsWith` test adds nothing |
| Discovery.IframeStrategy | source/ContentScript/index.ts:21-31 | a result is the `src` of some iframe that passes the test (`IframeStrategyFirst` says which one) |
| Discovery.IframeStrategyFirst | source/ContentScript/index.ts:21-31 | the first iframe whose `src` mentions ".pdf" or "/pdf/" is returned |
| Discovery.EmbedStrategy | source/ContentScript/index.ts:33-41 | a result is some embed's truthy `src`, or else its `data` (`EmbedStrategyFirst` says which one) |
| Discovery.EmbedStrategyFirst | source/ContentScript/index.ts:33-41 | the first embed with a non-empty `src` or `data` wins, `src` first, with no ".pdf" test |
| Discovery.HrefEndsWithSubsumed | source/ContentScript/index.ts:61 | the fallback anchor test is exactly `includes(".pdf")` |
| Discovery.Children | source/ContentScript/index.ts:85-86 | the values `for...in` visits: an array's elements, an object's member values, nothing otherwise |
| Discovery.FindPdfInObject | source/ContentScript/index.ts:82-103 | any string the scan returns ends with ".pdf" or contains ".pdf?", and starts with "http" or "/"; a string, number, boolean or `null` scans to nothing |
| Discovery.FindInChildren | source/ContentScript/index.ts:85-100 | the loop over the visited values returns only strings with the scan's shape |
| Discovery.FirstScanMatch | source/ContentScript/index.ts:88-94 | reference search: nothing iff no string matches, else the first match |
| Discovery.FirstScanMatchAppend | source/ContentScript/index.ts:85-100 | searching a concatenation searches its first part first |
| Discovery.FindPdfInObjectIsFirstLeaf | source/ContentScript/index.ts:82-103 | the recursive scan equals the first matching string in depth-first key order, for any value that is not a string |
| Discovery.FindInChildrenIsFirstLeaf | source/ContentScript/index.ts:85-100 | the loop from the `k`-th value on equals the first match among the strings below those values |
| Discovery.FindPdfInObjectComplete | source/ContentScript/index.ts:82-103 | the scan finds something iff some nested string matches, and what it finds is one of them |
| Discovery.LookupMember | source/ContentScript/index.ts:75 | a key is found iff some member has it, and the found value belongs to such a member |
| Discovery.TestField | source/ContentScript/index.ts:75-81 | `data[key]?.endsWith(".pdf")`: a hit iff the member is a string ending in ".pdf", with that string; a throw iff the member exists and is neither `null` nor a string |
| Discovery.ScanBlock | source/ContentScript/index.ts:73-109 | a top-level `null` yields nothing; anything a block yields is non-empty and has the PDF shape; when both top-level fields miss, the block yields what the recursive scan yields |
| Discovery.JsonStrategy | source/ContentScript/index.ts:72-110 | nothing iff every block misses; a result is non-empty and is what some block yields |
| Discovery.JsonStrategyFirst | source/ContentScript/index.ts:72-110 | the first block that yields an address decides the strategy |
| Discovery.JsonStrategyShape | source/ContentScript/index.ts:72-110 | every address the JSON strategy yields ends with ".pdf" or contains ".pdf?" |
| Discovery.ContentUrlFirst | source/ContentScript/index.ts:75-77 | a top-level `contentUrl` ending in ".pdf" is returned before anything else in the block |
| Discovery.DownloadUrlSecond | source/ContentScript/index.ts:75-81 | with no usable `contentUrl`, a top-level `downloadUrl` ending in ".pdf" is returned before the scan |
| Discovery.DownloadUrlNotStringSkipsBlock | source/ContentScript/index.ts:75-81 | with no usable `contentUrl`, a non-null, non-string `downloadUrl` makes `endsWith` throw and the block is skipped |
| Discovery.ContentUrlNotStringSkipsBlock | source/ContentScript/index.ts:73-109 | a non-null, non-string `contentUrl` makes `endsWith` throw and the whole block is skipped |
| Discovery.NestedRelativeAddressIgnored | source/ContentScript/index.ts:79-106 | a nested relative `downloadUrl` ending in ".pdf" is not returned |
| Discovery.SkippedBlocksAreTransparent | source/ContentScript/index.ts:72-110 | blocks that fail to parse or throw are passed over; the later blocks decide |
| Discovery.DataUrl | source/ContentScript/index.ts:119-122 | the first non-empty of `data-pdf-url`, `data-download-url`, and else `data-src` as it is |
| Discovery.DataStrategy | source/ContentScript/index.ts:112-127 | nothing iff every element misses; a result is some element's truthy chosen attribute |
| Discovery.DataStrategyFirst | source/ContentScript/index.ts:112-127 | the first element whose chosen attribute has the PDF shape decides the strategy |
| Discovery.DataHitFirstAttribute | source/ContentScript/index.ts:118-126 | only the first non-empty data attribute is tested, and it is returned iff it has the PDF shape |
| Discovery.DataStrategyShape | source/ContentScript/index.ts:112-127 | the strategy's result has the PDF shape and is some element's first non-empty attribute |
| Discovery.FindPdfUrl | source/ContentScript/index.ts:20-134 | `findPdfUrl`: the seven strategies tried in order; the first with a result decides (stated by `FindPdfUrlFirstStrategy`) |
| Discovery.FindPdfUrlFirstStrategy | source/ContentScript/index.ts:20-134 | the result is that of the first strategy that yields anything; none iff all seven miss |
| Discovery.FirstHit | source/ContentScript/index.ts:20-134 | a first hit at position `k` of the strategy results is the first hit of the whole list |
| Discovery.IframeWins | source/ContentScript/index.ts:21-31 | an iframe hit wins over every later strategy |
| Discovery.AnchorTextStrategy | source/ContentScript/index.ts:48-57 | a result is the `href` of some anchor whose text qualifies (`AnchorTextBeatsHref` says which one) |
| Discovery.AnchorHrefStrategy | source/ContentScript/index.ts:59-64 | a result is some anchor's `href` that ends with or contains ".pdf" (`AnchorHrefFallback` says which one) |
| Discovery.TextQualifies | source/ContentScript/index.ts:50-54 | the lower-cased link text contains "pdf" and "download", or "save" |
| Discovery.AnchorTextBeatsHref | source/ContentScript/index.ts:48-57 | an anchor whose text qualifies is returned ahead of every anchor that only has ".pdf" in its `href` |
| Discovery.AnchorHrefFallback | source/ContentScript/index.ts:59-64 | failing every text match, the first anchor whose `href` contains ".pdf" is returned |
| Discovery.LocationStrategy | source/ContentScript/index.ts:129-133 | the page address iff its path ends with ".pdf" (`LocationFallback`) |
| Discovery.LocationFallback | source/ContentScript/index.ts:129-133 | after six misses the page address is returned iff its path ends with ".pdf", else nothing |
| Exclusion.Entries | source/ContentScript/index.ts:141-144 | an entry is exactly a non-blank string that some line of the list trims to |
| Exclusion.TrimAll | source/ContentScript/index.ts:143 | every line is trimmed, in place |
| Exclusion.NonEmpty | source/ContentScript/index.ts:144 | exactly the non-empty entries are kept |
| Exclusion.AnyContained | source/ContentScript/index.ts:146 | `some(includes)` holds iff the host contains some entry |
| Exclusion.EntriesMatch | source/ContentScript/index.ts:141-146 | the map/filter/some chain matches iff some line, trimmed and non-blank, is in the host name |
| Exclusion.ShouldExclude | source/ContentScript/index.ts:136-147 | never excluded without a non-empty list; otherwise excluded iff some trimmed non-blank line occurs in the host name |
| Exclusion.ExcludedByLine | source/ContentScript/index.ts:141-146 | one excluding line is enough |
| Exclusion.ExcludingLine | source/ContentScript/index.ts:141-146 | an excluded host has a line that excludes it |
| Exclusion.AddingLinesKeepsExclusions | source/ContentScript/index.ts:141-146 | appending lines never lets an excluded host through |
| Exclusion.AppendedLines | source/ContentScript/index.ts:142 | the lines after appending are the old lines followed by the new ones |
| Exclusion.BlankLineExcludesNothing | source/ContentScript/index.ts:143-144 | a whitespace-only line excludes nothing |
| Exclusion.BlankLineIgnored | source/ContentScript/index.ts:141-146 | appending a blank line leaves the verdict unchanged |
| Exclusion.SingleEntry | source/ContentScript/index.ts:141-146 | a one-line list excludes exactly what that line excludes |
| Exclusion.SubdomainExcluded | source/ContentScript/index.ts:146 | a listed domain excludes every subdomain of it (substring match) |
| Filename.ReplaceForbidden | source/ContentScript/index.ts:154 | each character is replaced on its own, forbidden ones by "-", and none forbidden remains |
| Filename.Stem | source/ContentScript/index.ts:154-155 | the stem is the replaced image of the title from its first non-whitespace character on, at most 100 characters of it; a shorter stem reaches the last non-whitespace character and does not end in whitespace |
| Filename.StemUnique | source/ContentScript/index.ts:154-155 | those stem conditions hold of at most one string, so they determine the stem |
| Filename.WithSuffix | source/ContentScript/index.ts:156 | a stem ending in ".pdf" is kept as it is; any other gets ".pdf" appended; the result stays safe |
| Filename.SanitizeTitle | source/ContentScript/index.ts:153-157 | the renamed name ends with ".pdf", has 4 to 104 characters, none forbidden, and no leading whitespace |
| Filename.SanitizeTitleContent | source/ContentScript/index.ts:154-156 | the name is the title's stem, followed by ".pdf" exactly when the stem does not already end in ".pdf" |
| Filename.ReplaceSafe | source/ContentScript/index.ts:154 | replacing leaves a string without forbidden characters unchanged |
| Filename.StemOfClean | source/ContentScript/index.ts:154-155 | a clean, trimmed, short string is its own stem |
| Filename.SanitizeClean | source/ContentScript/index.ts:154-156 | a clean name ending in ".pdf" is renamed to itself |
| Filename.SanitizeTitleIdempotent | source/ContentScript/index.ts:154-156 | a name short enough to escape the cut is a fixed point of renaming |
| Filename.BlankTitle | source/ContentScript/index.ts:154-156 | a whitespace-only title gives just ".pdf" |
| Filename.NameFor | source/ContentScript/index.ts:149-160 | either way the name ends with ".pdf" and has no forbidden character |
| Filename.GenerateFilename | source/ContentScript/index.ts:149-160 | "download.pdf" unless renaming applies, else the sanitised title; always a safe ".pdf" name |
| Assembly.BlobImages | source/ContentScript/index.ts:208-210 | exactly the images whose `src` starts with "blob:" are kept |
| Assembly.BlobImagesIdempotent | source/ContentScript/index.ts:208-210 | filtering again keeps them all |
| Assembly.Fit | source/ContentScript/index.ts:239-260 | the image fits the page, is centred, keeps its aspect ratio and touches one page side; 0 by 0 is unsized |
| Assembly.Progress | source/ContentScript/index.ts:275 | the percentage is `100 (i + 1) / n` rounded half up, within 0..100 |
| Assembly.ProgressMonotone | source/ContentScript/index.ts:275 | progress never falls as the loop moves on |
| Assembly.ProgressComplete | source/ContentScript/index.ts:275 | the last iteration reports 100 |
| Assembly.CanvasWidth | source/ContentScript/index.ts:239 | `naturalWidth` when non-zero, else `width` |
| Assembly.CanvasHeight | source/ContentScript/index.ts:240 | `naturalHeight` when non-zero, else `height` |
| Assembly.Place | source/ContentScript/index.ts:239-260 | an image is placed by `Fit` from its canvas size (natural size, else displayed size) |
| Assembly.DrawnIndices | source/ContentScript/index.ts:229-232 | every listed iteration had a canvas context |
| Assembly.DrawnIndicesIncreasing | source/ContentScript/index.ts:222 | the drawn iterations come in loop order |
| Assembly.DrawnIndicesComplete | source/ContentScript/index.ts:229-232 | an iteration is drawn iff its canvas yielded a context |
| Assembly.ProcessedBefore | source/ContentScript/index.ts:224 | `processedImages > 0` at iteration `i` iff the first drawn image comes before `i` |
| Assembly.PageAt | source/ContentScript/index.ts:224-271 | the page iteration `j` leaves: its placed image, or blank without a context (`PagesAsWrittenLayout` uses it) |
| Assembly.ProgressSent | source/ContentScript/index.ts:273-276 | one percentage per drawn image, for its iteration (`ProgressSentRising` states its order) |
| Assembly.PagesAsWritten | source/ContentScript/index.ts:202-279 | the document as the loop as written builds it has at least one page |
| Assembly.PagesCorrected | source/ContentScript/index.ts:202-279 | the document of the corrected loop has at least one page |
| Assembly.AsWrittenIteration | source/ContentScript/index.ts:224-271 | one iteration as written adds a blank page once something was drawn, then fills the last page if drawn |
| Assembly.CorrectedIteration | source/ContentScript/index.ts:229-271 | one drawing iteration of the corrected loop adds a page unless first, then fills the last page |
| Assembly.ProgressSentStep | source/ContentScript/index.ts:273-276 | a drawn iteration sends its percentage, a skipped one none |
| Assembly.AssembleAsWritten | source/ContentScript/index.ts:220-279 | the loop as written builds `PagesAsWritten`, sends `ProgressSent` and counts the drawn images |
| Assembly.AssemblePages | source/ContentScript/index.ts:220-279 | the corrected loop builds `PagesCorrected`, sends `ProgressSent` and counts the drawn images |
| Assembly.PagesAsWrittenLayout | source/ContentScript/index.ts:222-279 | as written, from the first drawn image on each iteration owns one page, holding its image or blank |
| Assembly.LayoutUpTo | source/ContentScript/index.ts:222-279 | the as-written layout after the first `i` iterations |
| Assembly.PagesCorrectedLayout | source/ContentScript/index.ts:222-279 | corrected, page `k` holds the `k`-th drawn image, placed by `Fit` |
| Assembly.CorrectedHasNoBlank | source/ContentScript/index.ts:222-279 | the corrected document has no blank page once anything is drawn |
| Assembly.SkippedImageLeavesBlank | source/ContentScript/index.ts:224-232 | as written, every image skipped after the first drawn one leaves a blank page |
| Assembly.ProgressSentRising | source/ContentScript/index.ts:273-276 | the progress messages stay within 0..100 and never fall |
| Assembly.ProgressEndsAtHundred | source/ContentScript/index.ts:275 | a drawn last image reports 100 |
| Assembly.SkippedImageAddsBlankPage | source/ContentScript/index.ts:224-232 | three images with the middle one skipped: three pages, the middle blank, as written; two pages corrected |
| Trigger.CreateScriptUrl | source/ContentScript/index.ts:312-322 | the policy admits an address iff it is the library's, unchanged |
| Trigger.ScriptSource | source/ContentScript/index.ts:310-329 | the script's `src` is the library's address with or without trusted types |
| Trigger.Settled | source/ContentScript/index.ts:186-308 | the promise resolves true iff an address is handed over or a document saved, and is rejected iff the library fails to load |
| Trigger.GatesPass | source/ContentScript/index.ts:172-183 | a non-forced run goes on iff `enabled` is not `false` and the host is not excluded |
| Trigger.RunOutcome | source/ContentScript/index.ts:186-308 | past the gates, a truthy address is handed over, else the document is assembled (`DirectPdfIffTruthyUrl`, `SettlesTrue`) |
| Trigger.AssemblyOutcome | source/ContentScript/index.ts:202-303 | the load fails iff the library does not load; no blob images iff none has a `blob:` source; a document iff something is drawn, with the pages of the loop as written |
| Trigger.IntendedAssemblyOutcome | source/ContentScript/index.ts:224-232 | the same run with the pages of the corrected loop |
| Trigger.ContentScript.constructor | source/ContentScript/index.ts:13 | a fresh content script has not processed the page |
| Trigger.ContentScript.CreatePdf | source/ContentScript/index.ts:162-335 | repeated, disabled and excluded runs stop with `processed` unchanged; a forced run or one that passes the gates sets `processed` and ends as `RunOutcome` says, its pages built by the loop as written |
| Trigger.ContentScript.OnManualDownload | source/ContentScript/index.ts:347-355 | the manual message always runs, bypassing the gates, and leaves `processed` set |
| Trigger.ContentScript.OnPageLoad | source/ContentScript/index.ts:337-345 | no run when disabled; otherwise a non-forced run, which sets `processed` iff the gates pass, runs as `RunOutcome` says when they do, and ends `Excluded` with `processed` unset when the host is excluded |
| Trigger.DirectPdfIffTruthyUrl | source/ContentScript/index.ts:186-194 | an address is handed over iff discovery returns a non-empty string |
| Trigger.SettlesTrue | source/ContentScript/index.ts:186-308 | a run settles true iff it hands over an address or saves a document; it rejects iff the library fails to load |
| Trigger.CreatedDocument | source/ContentScript/index.ts:208-291 | a saved document has, from the first drawn image on, one page per blob image, holding that image if drawn and blank otherwise; every drawn image is on its page; progress rises within 100, once per drawn image; the name is a safe ".pdf" name |
| Trigger.IntendedDocument | source/ContentScript/index.ts:224-232 | with the corrected loop the saved document has one page per drawn image, in order, none blank, and the same name and progress |
| Trigger.NoBlobImagesSettlesFalse | source/ContentScript/index.ts:214-218 | without blob images a run settles false unless an address was found |
| Background.OnInstalled | source/Background/index.ts:3-17 | defaults and `enabled: true` are written iff there is no `settings` entry |
| Background.OnInstalledIdempotent | source/Background/index.ts:3-17 | installing twice stores what installing once does; a `settings` entry then exists |
| Background.ResolveUrl | source/Background/index.ts:31-47 | a "/" address gets the tab's origin when the tab has an address; others pass unchanged; empty ones download nothing |
| Background.BaseName | source/Background/index.ts:49 | the base name holds no "/" and no "?" |
| Background.DirectFilename | source/Background/index.ts:49-50 | the direct name ends with ".pdf", holds no "/" or "?", and is the base name, with ".pdf" added, or "download.pdf" |
| Background.MenuFilename | source/Background/index.ts:81-82 | the menu name is non-empty and holds no "/", "#" or "?" |
| Background.TargetPath | source/Background/index.ts:84-92 | with a folder set, the path is exactly the folder, "/" and the name (starts with the first two, ends with the last, and has their total length); without one, the name alone |
| Background.ConflictAction | source/Background/index.ts:57 | the stored conflict action when non-empty, else "uniquify" |
| Background.DirectDownload | source/Background/index.ts:27-62 | a download iff the address resolves, to that address, with the derived path and conflict action |
| Background.HandleMessage | source/Background/index.ts:27-75 | downloads only for a resolvable `downloadDirectPdf`; notifies only for `pdfCreated` with notifications on |
| Background.DownloadPdf | source/Background/index.ts:77-106 | the link is downloaded under the derived path; a notification iff notifications are on |
| Background.OnMenuClicked | source/Background/index.ts:108-112 | a download iff the entry is the extension's and the link has an address; then exactly the effects of `downloadPdf` for that link (name, path, conflict action, notification) |
| Background.TargetPathKeepsName | source/Background/index.ts:54-56 | with a folder set, the part after the last "/" is still the derived name |
| Background.FilenamesAgree | source/Background/index.ts:49-82 | without "#", the two derivations agree up to the ".pdf" only the direct download adds |
| Background.DirectFilenameOfPath | source/Background/index.ts:49-50 | `prefix/name?query` downloads as `name`, with ".pdf" added when missing |
| Background.MenuFilenameDropsFragment | source/Background/index.ts:81-82 | `prefix/name#frag` is named `name` by the link menu, while the direct base name keeps `name#frag` |
| Background.SlashInQueryRenames | source/Background/index.ts:49 | a "/" in the query moves the name to the text after it |

## Left out

- Host APIs are not modelled as calls. `browser.storage` reads become inputs (`Env`, `Storage`, `Option<Settings>`). Downloads, notifications and runtime messages become returned values (`Outcome`, `Effects`). Logging is dropped.
- Concurrency between runs is not modelled. The awaits between the gate checks and the loop's awaits could let an automatic and a manual run interleave; each run here is one atomic step.
- Image-load waiting (`img.complete` / `onload`) is not modelled. An image that never loads stalls the source forever, while here every run ends.
- The `pdfError` path is not modelled: errors thrown inside `onload` by jsPDF, canvas or encoding calls.
- Failures of `createPolicy` are folded into the `libraryLoads` input. One example is a second policy named "pdf-policy" on a forced re-run, where the page forbids duplicates. Another is a script that never loads.
- jsPDF internals are not modelled: the A4 page size in px (an input here), `addImage` and JPEG encoding, `drawImage`, `toDataURL` and `save`. A page records only which image it holds and where.
- Floating point is not modelled. `Assembly.Fit` and `Assembly.Progress` use exact real and integer arithmetic: no IEEE rounding, no bit-exact agreement claimed. A 0-by-0 canvas (NaN sizes) is `Unsized`.
- Strings are sequences of characters, not UTF-16 code units.
- `toLowerCase` is modelled for ASCII letters only. The text test looks for "pdf", "download" and "save". The only non-ASCII characters whose lower case contains an ASCII letter yield "i" (U+0130) and "k" (U+212A), and neither letter occurs in those needles.
- `JSON.parse` is not modelled. A script's parsed value is an input, `None` when it does not parse. Object members come in the order `for...in` visits them: JavaScript lists integer-like keys first. Numbers and booleans are `JOther`. An empty script parses `"{}"`. A parsed object is taken to have distinct keys: `LookupMember` returns the first member with a key, while `JSON.parse` keeps the last value of a duplicated key, so a script with duplicate keys may be read differently.
- CSS selector matching and the resolution of `HTMLAnchorElement.href` are not modelled. Element lists come already filtered, with resolved addresses.
- `new URL(tab.url).origin` is not computed: the tab's origin, or its failure to parse, is part of `ActiveTab`.
- Context-menu registration is not modelled, including the browser-side `targetUrlPatterns` filter: `OnMenuClicked` accepts any link.
- source/Options/Options.tsx and source/Popup/Popup.tsx (the options form and popup UI) are not part of this model.
- Assembly.BlobImages: the contract states which images are kept, not that they keep document order. The order follows from the definition, and the page loop's specification works from it.
- Exclusion.NonEmpty: the contract states which entries are kept, not their order, which `some` does not observe.
- Background.BaseName: the contract states only the absence of "/" and "?". The derivation itself is stated through `Background.DirectFilename`, `Background.DirectFilenameOfPath` and `Background.SlashInQueryRenames`.
- Background.MenuFilename: the contract states only that the name is non-empty and free of "/", "#" and "?". Its relation to the direct name is `Background.FilenamesAgree`, for addresses without "#", and `Background.MenuFilenameDropsFragment` shows the "#" cut.

## Findings

| source | as written | input that shows it | evidently intended | confidence | as-written member | corrected member |
|---|---|---|---|---|---|---|
| source/ContentScript/index.ts:224-232 | `pdf.addPage()` runs at the top of every iteration once an image was drawn, before the `if (!ctx) continue` check, so an image without a canvas context leaves an empty page | three blob images, the middle one without a canvas context: three pages, the middle one blank | a new page only for an image that is about to be drawn, so the document has one page per drawn image | not executed | Assembly.AssembleAsWritten, Assembly.SkippedImageAddsBlankPage | Assembly.AssemblePages, Assembly.CorrectedHasNoBlank |

The content script's run (`Trigger.ContentScript.CreatePdf`, `Trigger.AssemblyOutcome`, `Trigger.CreatedDocument`) follows the program and uses the loop as written. The corrected loop is used by `Trigger.IntendedAssemblyOutcome` and `Trigger.IntendedDocument`, which state the intended end-to-end result.
