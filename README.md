# Thesis site navigation, table of contents and manifest builder

A model of the logic of a static thesis-documentation website. Phase pages
(`phase.html?phase=N&file=F`) show the documents of one of nine research
phases ("0" Reflection Journal to "8" Report). Each phase has a folder under
`thesis_html/` holding HTML documents and a `manifest.json` listing them.

The browser scripts validate the query parameters and build the breadcrumb.
They render a sidebar table of contents with the current document marked.
They rewrite relative links inside loaded content, and they decide where the
Previous and Next buttons lead. An offline Node script writes each folder's
manifest: the `.html` file names in ascending order, each with a title taken
from `<title>`, else from the first `<h1>`, else from the file name.

Modules, one per script plus shared pieces:

- `Wrappers` (`wrappers.dfy`): `Option`, and `FirstIndex`, the model of
  `find`/`findIndex`.
- `Strings` (`strings.dfy`): the JavaScript string built-ins the scripts use.
  It covers `startsWith`, `endsWith`, `indexOf` and `replace` with a string
  pattern (first occurrence only). It also covers one-character global
  regex replacement, `split`/`join` on one character, `trim`, ASCII
  `toUpperCase`, and the truthiness of an optional string.
- `FilenameFormat` (`filename_format.dfy`): `formatFilename`. The browser copy
  (js/toc-generator.js:121-129) and the generator copy
  (js/generate-manifest.js:66-74) are the same character for character, so
  they are modelled once.
- `Navigation` (`navigation.dfy`): js/navigation.js. It covers the phase
  table, the "Phase N" label, the breadcrumb list as a class whose children
  are rebuilt in a loop, and the menu links as objects whose class sets are
  updated in place.
- `ManifestJson` (`manifest_json.dfy`): the manifest as the browser parses it.
  Every field is optional.
- `TocGenerator` (`toc_generator.dfy`): js/toc-generator.js. It covers the
  phase configuration, the choice of file list, and `generateTOC` as a method
  whose loop builds the entries.
- `PhaseLoader` (`phase_loader.dfy`): js/phase-loader.js. It covers manifest
  normalisation and the pure Previous/Next decision. It also covers
  `setupPageNavigation` as a method that updates two button objects, the
  in-place rewrite of link and image URLs over arrays, and the checks of
  `initPhasePage`.
- `ManifestGenerator` (`manifest_generator.dfy`): js/generate-manifest.js.
  It covers filtering, sorting, title extraction, records and the manifest
  object.
- `SiteConsistency` (`consistency.dfy`): facts that span scripts. The two
  phase tables agree. The generator's folders are the browser's folders. A
  generated manifest is read by the phase page and the table of contents as
  described.

I/O becomes parameters. A fetched and parsed manifest is an
`Option<RawManifest>`, and `None` means the fetch failed, returned an error
status or did not parse. Whether `index.html` can be fetched is a `bool`. A
directory listing is an `Option<seq<string>>`. Whether `stat` succeeds is a
predicate on names. File contents are a function from names to
`Option<string>`.

Some consequences of the code that the model keeps:

- Navigation order is manifest order. There is no date sorting or grouping,
  and no expand/collapse state is kept between visits.
- On the landing view with no overview record, the Next button is left as
  the page styled it. It is neither hidden nor pointed at the first document.
  Manifests written by the generator never mark an overview, so this is
  their case (`SiteConsistency.GeneratedManifestOnPhasePage`).
- A non-overview record at index 0 hides Previous rather than leading to the
  landing view.
- Previous never leads to another phase. Next leads to the next phase's
  landing view only from the last record.
- The table of contents reads only a manifest's `files` key. The phase
  page's navigation reads `documents`, else `files`.

## Model

| member | source | states |
|---|---|---|
| Wrappers.FirstIndex | js/phase-loader.js:208 | the index found satisfies the test and no earlier element does; None exactly when no element satisfies it |
| Strings.Truthy | js/phase-loader.js:17 | a string value is truthy when it is present and non-empty |
| Strings.JsText | js/phase-loader.js:199 | a template literal renders a present string as itself and a missing one as "undefined" |
| Strings.StartsWith | js/phase-loader.js:122 | `startsWith`: the string begins with the prefix |
| Strings.EndsWith | js/navigation.js:64 | `endsWith`: the string ends with the suffix |
| Strings.IndexOf | js/toc-generator.js:123 | the first occurrence of the pattern at or after the start index, or None when there is none |
| Strings.ReplaceFirstEffect | js/toc-generator.js:123 | replace with a string pattern changes only the first occurrence; the prefix is kept, the replacement is placed there, every later occurrence survives shifted, and a string without the pattern is unchanged |
| Strings.ReplaceAllChar | js/toc-generator.js:124-125 | a global one-character replace maps every occurrence and keeps every other character and the length |
| Strings.UpperAscii | js/toc-generator.js:127 | upper-casing changes exactly the letters a-z, each to its capital |
| Strings.CharIndex | js/toc-generator.js:126 | the first position of the separator, or the length when it is absent |
| Strings.Split | js/toc-generator.js:126 | split always yields at least one piece and no piece contains the separator |
| Strings.JoinSplit | js/toc-generator.js:126-128 | joining the pieces of a split with the same separator gives back the string |
| Strings.CharIndexAfter | js/toc-generator.js:126 | in a piece followed by more text, the first separator is the one after the piece |
| Strings.SplitJoin | js/toc-generator.js:126-128 | splitting a join of separator-free pieces gives back the pieces |
| Strings.SplitCount | js/toc-generator.js:126 | a split yields one more piece than there are separators, empty pieces included |
| Strings.IsJsWhitespace | js/generate-manifest.js:39 | the characters `trim` removes: ECMAScript WhiteSpace and LineTerminator |
| Strings.LeadingEnd | js/generate-manifest.js:39 | the scan stops at the first character from the start index that is not ECMAScript whitespace, or at the end |
| Strings.TrailingStart | js/generate-manifest.js:39 | the scan backwards stops after the last character before the end index that is not ECMAScript whitespace, never below its lower bound |
| Strings.Trim | js/generate-manifest.js:39 | trim yields a slice of the input with only whitespace outside it and no whitespace at either end |
| Strings.NatToString | js/phase-loader.js:241 | the decimal rendering of a number is non-empty and made of digits, a single digit below ten, with no leading zero for a positive number |
| Strings.DigitsValue | js/phase-loader.js:242 | `parseInt` of a string of decimal digits: the number the digits denote |
| Strings.NatToStringRoundTrip | js/phase-loader.js:241-242 | `parseInt(n.toString())` gives back n, so the guard `parseInt(nextPhaseNumber) <= 8` tests the next phase number itself |
| Strings.ReplaceFirst | js/toc-generator.js:123 | `replace` with a string pattern: the first occurrence found by `indexOf` is replaced, else the string is returned as it is; ReplaceFirstEffect states what this keeps and changes |
| Strings.Join | js/toc-generator.js:128 | `join` with a one-character separator; JoinSplit and SplitJoin make it the inverse of Split |
| FilenameFormat.Spaced | js/toc-generator.js:123-125 | the name after removing the first ".html" and turning every `_` and every `-` into a space; SpacedAbsent and HtmlSurvivesSpacing state its effect |
| FilenameFormat.FormatFilename | js/toc-generator.js:121-129 | split the spaced name on spaces, capitalise each word, join with spaces; FormatFilenameMeaning states its meaning |
| FilenameFormat.Capitalize | js/toc-generator.js:127 | capitalising a word keeps its length |
| FilenameFormat.CapitalizeAll | js/toc-generator.js:127 | the map capitalises each word in place and keeps the word count |
| FilenameFormat.CapitalizeAfterSpaces | js/toc-generator.js:126-128 | the reference rule (upper-case the first character and each character after a space) keeps the length |
| FilenameFormat.JoinCapitalizeSplit | js/toc-generator.js:126-128 | split on spaces, capitalise each word, join with spaces equals the reference rule |
| FilenameFormat.FormatFilenameMeaning | js/toc-generator.js:121-129 | formatFilename upper-cases the first character and each character after a space of the spaced name and changes nothing else |
| FilenameFormat.CapitalizeAfterSpacesAbsent | js/toc-generator.js:127 | capitalisation introduces no `_` and no `-` |
| FilenameFormat.SpacedAbsent | js/toc-generator.js:124-125 | after the two replacements the name holds no `_` and no `-` |
| FilenameFormat.FormatFilenameHasNoSeparators | js/toc-generator.js:124-125 | the formatted name holds no `_` and no `-` |
| FilenameFormat.FormatFilenameLength | js/toc-generator.js:122-128 | the formatted name is five characters shorter than the input exactly when the input contains ".html", and equally long otherwise |
| FilenameFormat.HtmlSurvivesSpacing | js/toc-generator.js:124-127 | the replacements and the capitalisation leave an occurrence of ".html" intact |
| FilenameFormat.FormatFilenameKeepsLaterHtml | js/toc-generator.js:123 | only the first ".html" is removed: a later one survives, five positions to the left |
| FilenameFormat.FormatFilenameWords | js/toc-generator.js:126-128 | the words of the formatted name are the capitalised words of the spaced name, one more than its spaces |
| Navigation.PhaseNumber | js/phase-loader.js:241 | a phase key stands for a number from 0 to 8 |
| Navigation.GetPhaseInfo | js/navigation.js:77-91 | an entry is returned only for a phase key, its folder starts with the key and "_", and its name is non-empty |
| Navigation.GetPhaseInfoKeys | js/navigation.js:77-91 | getPhaseInfo has an entry for exactly the keys "0" to "8" |
| Navigation.PhaseOf | js/navigation.js:78-88 | a valid key's table entry is what getPhaseInfo returns for it |
| Navigation.GetPhaseInfoAsWritten | js/navigation.js:90 | the lookup as written returns an own entry exactly for the keys of the table, and an inherited member exactly for the names of Object.prototype's members |
| Navigation.AsWrittenGuardAcceptsConstructor | js/navigation.js:90 | the key "constructor" gets a truthy result as written although no phase has that key |
| Navigation.FormatPhaseNumber | js/navigation.js:96-98 | the label starts with "Phase " and the rest is the phase number |
| Navigation.CrumbNodes | js/navigation.js:112-125 | one list item per breadcrumb item, in order, with its text; an item is a link exactly when it is not the last and has a non-empty href, which it keeps; the last item is plain text |
| Navigation.CreateBreadcrumb | js/navigation.js:103-126 | with no list on the page nothing changes; otherwise the list's children become exactly the items' nodes |
| Navigation.PathMatches | js/navigation.js:64 | the current path ends with the link's path, or with the link's path without its first ".html" |
| Navigation.IsCurrentLink | js/navigation.js:64-69 | a link is the current page when the paths match and both `phase` parameters are absent or equal |
| Navigation.Highlighted | js/navigation.js:57-69 | a link's classes after `remove('active')` and, when it is the current page, `add('active')` |
| Navigation.HighlightCurrentPage | js/navigation.js:49-72 | every menu link ends without "active" unless its path matches the current path (directly or without ".html") and its phase parameter equals the current one, in which case it ends with "active"; other classes are kept |
| TocGenerator.FindPhase | js/toc-generator.js:67 | the phase found is a configured phase with that number; None when no configured phase has it |
| TocGenerator.OverviewFallback | js/toc-generator.js:47-51 | the fallback entry: file name index.html, title "Overview", path `thesis_html/<folder>/index.html` |
| TocGenerator.GetPhaseFiles | js/toc-generator.js:26-58 | a loaded manifest contributes its `files` array or nothing; only when no manifest loads and index.html exists is the result the single fallback entry |
| TocGenerator.TocHref | js/toc-generator.js:99 | an entry's link is `?phase=N&file=F` |
| TocGenerator.EntryActive | js/toc-generator.js:105-106 | an entry is active when its file name is the current file, or when it is the first entry and no file is selected |
| TocGenerator.TocThrows | js/toc-generator.js:94-100 | generateTOC throws exactly when the phase is configured and one of its files has neither a non-empty title nor a file name |
| TocGenerator.EntryText | js/toc-generator.js:100 | the link text is the title when it is non-empty, else the formatted file name; rendering fails exactly when there is neither |
| TocGenerator.GenerateToc | js/toc-generator.js:63-116 | an unknown phase gives "Invalid phase"; an empty list gives the empty-state message and no list; otherwise one entry per file in order, with its href, text, path and index, active exactly by the rule; a file with neither title nor name stops rendering there, which happens exactly when TocThrows holds |
| TocGenerator.ActiveEntryUnique | js/toc-generator.js:105-107 | with distinct non-empty file names, at most one entry is active, and one is exactly when no file is selected or the selected file is listed |
| PhaseLoader.ManifestDocs | js/phase-loader.js:263 | `documents` is used when present, even if empty; else `files`; else nothing |
| PhaseLoader.Normalize | js/phase-loader.js:267-274 | one manifest record as the navigation sees it; NormalizeDefaults states each field |
| PhaseLoader.NormalizeDefaults | js/phase-loader.js:267-274 | a non-empty `file` wins over `filename`; a missing or empty path defaults to `thesis_html/<folder>/<name>`; only an explicit true marks the overview; title, date and category pass through |
| PhaseLoader.GetAllPhaseFiles | js/phase-loader.js:258-283 | one normalised record per manifest record, in manifest order, none when no manifest loads |
| PhaseLoader.Href | js/phase-loader.js:199-245 | the URL a click handler navigates to: `phase.html?phase=N`, with `&file=F` for a document |
| PhaseLoader.HrefUsesKey | js/phase-loader.js:199-245 | the URLs built from the phase number equal those the source builds from the key string; the next phase's landing URL carries the next digit |
| PhaseLoader.FileIndex | js/phase-loader.js:208 | `findIndex` of the first record whose file name is the current file, None for -1 |
| PhaseLoader.OverviewIndex | js/phase-loader.js:195 | `find` of the first record marked as the overview, as its index |
| PhaseLoader.AfterAction | js/phase-loader.js:197-249 | a button's `style.display` and `onclick` after an action: unchanged when Untouched, `none` with the old handler when hidden, `flex` with the new target when shown |
| PhaseLoader.PrevAction | js/phase-loader.js:192-230 | what setupPageNavigation does to Previous; RecordButtons, LandingViewButtons and UnknownFileLeavesButtons state its cases |
| PhaseLoader.NextAction | js/phase-loader.js:192-251 | what setupPageNavigation does to Next; the same lemmas state its cases |
| PhaseLoader.LandingViewButtons | js/phase-loader.js:192-204 | on the landing view Previous is hidden, and Next leads to the first overview record exactly when there is one and is left alone (Untouched) when no record is an overview |
| PhaseLoader.UnknownFileLeavesButtons | js/phase-loader.js:208-210 | a file that names no record leaves both buttons unchanged |
| PhaseLoader.RecordButtons | js/phase-loader.js:212-251 | from the record at i that findIndex finds for the current name: Previous leads to the landing view for an overview, else to record i-1, else is hidden; Next leads to record i+1, else to the next phase's landing view, else is hidden after phase 8 |
| PhaseLoader.NeverBackwardsAcrossPhases | js/phase-loader.js:233-251 | no button leads to a lower phase; a change of phase is only to phase+1, only up to 8, and only by Next |
| PhaseLoader.FileIndexOfDistinct | js/phase-loader.js:208 | with distinct names, findIndex finds each record at its own index |
| PhaseLoader.AdjacentRoundTrip | js/phase-loader.js:221-238 | for adjacent records A and B, Next from A leads to B, and Previous from B leads to A unless B is an overview |
| PhaseLoader.NextVisitsEveryRecord | js/phase-loader.js:192-251 | with the overview first and distinct names, pressing Next from the landing view visits every record in manifest order and then reaches the next phase's landing view, or a hidden button after phase 8 |
| PhaseLoader.SetupPageNavigation | js/phase-loader.js:181-252 | each button ends with the display and click target its action prescribes, computed from the normalised manifest of the validated phase, and nothing else changes |
| PhaseLoader.BasePath | js/phase-loader.js:118 | the prefix for relative URLs, `thesis_html/<folder>/` |
| PhaseLoader.RewritesHref | js/phase-loader.js:122 | a link's href is rewritten when it is non-empty and starts with none of "http", "#" and "/" |
| PhaseLoader.RewritesSrc | js/phase-loader.js:129 | an image's src is rewritten when it is non-empty and starts with neither "http" nor "/" |
| PhaseLoader.FixedHref | js/phase-loader.js:121-124 | the href after the rule: the base path prepended when the rule applies |
| PhaseLoader.FixedSrc | js/phase-loader.js:128-131 | the src after the rule: the base path prepended when the rule applies |
| PhaseLoader.RelativeLinkRule | js/phase-loader.js:118-132 | a link changes exactly when it is non-empty and starts with none of "http", "#", "/", and then becomes the base path plus the link; an image follows the same rule except that "#" is not exempt |
| PhaseLoader.FixRelativeLinks | js/phase-loader.js:114-133 | every href and every src is replaced in place by its rewritten form and nothing else changes |
| PhaseLoader.InitPhasePage | js/phase-loader.js:12-50 | a missing or empty phase gives "No phase specified"; an unknown phase gives "Invalid phase number"; otherwise the title is "<name> - DBA Thesis" and the breadcrumb is Home (linking to index.html) then the phase name (linking to `phase.html?phase=N`); if generateTOC throws the page stops there, else it shows the named document when a non-empty file is given and the introduction otherwise |
| ManifestGenerator.NameLe | js/generate-manifest.js:28 | the order of the default `sort()`: character by character, a prefix first |
| ManifestGenerator.NameLeTotal | js/generate-manifest.js:28 | any two names are ordered one way or the other |
| ManifestGenerator.NameLeAntisymmetric | js/generate-manifest.js:28 | names ordered both ways are equal |
| ManifestGenerator.NameLeTransitive | js/generate-manifest.js:28 | the name order is transitive |
| ManifestGenerator.Insert | js/generate-manifest.js:28 | inserting adds exactly one occurrence of the name |
| ManifestGenerator.InsertSorted | js/generate-manifest.js:28 | inserting into an ascending list keeps it ascending |
| ManifestGenerator.SortNames | js/generate-manifest.js:28 | sorting yields an ascending rearrangement of the same names |
| ManifestGenerator.SortedArrangementsShareHead | js/generate-manifest.js:28 | two ascending arrangements of the same names start with the same name |
| ManifestGenerator.SortedArrangementUnique | js/generate-manifest.js:28 | two ascending arrangements of the same names are equal, so the order does not depend on the sorting algorithm |
| ManifestGenerator.TitleTagContent | js/generate-manifest.js:37 | the capture is the shortest text after the first `<title>` that is closed by `</title>`; None exactly when no `<title>` is followed by a `</title>` |
| ManifestGenerator.H1Content | js/generate-manifest.js:41 | the capture is the shortest text after the first `<h1`'s first `>` that is closed by `</h1>`; None when no `<h1` is followed by `>` and then `</h1>` |
| ManifestGenerator.StripTags | js/generate-manifest.js:43 | removing tags never lengthens the text |
| ManifestGenerator.StripTagsKeepsPrefix | js/generate-manifest.js:43 | text before the first `<` survives as it is and stripping continues after it |
| ManifestGenerator.StripTagsDropsTag | js/generate-manifest.js:43 | a tag, from `<` to the first `>`, disappears and leaves what follows to be stripped |
| ManifestGenerator.StripTagsOneTag | js/generate-manifest.js:43 | text, a tag and more text: the first text survives, the tag goes, the rest is stripped |
| ManifestGenerator.StripTagsLeavesNoTag | js/generate-manifest.js:43 | after removing tags no `<` is followed by a `>` |
| ManifestGenerator.StripTagsKeepsNoClose | js/generate-manifest.js:43 | text without `>` is unchanged: an unclosed `<` is kept together with everything after it |
| ManifestGenerator.StripTagsKeepsPlainText | js/generate-manifest.js:43 | text without `<` is unchanged |
| ManifestGenerator.ExtractTitle | js/generate-manifest.js:34-48 | the title recorded for a file; ExtractTitleSources and ExtractedTitleClean state its sources and form |
| ManifestGenerator.ExtractTitleSources | js/generate-manifest.js:34-48 | the title comes from `<title>` (first " - DBA Thesis" removed, trimmed), else from the first `<h1>` (tags removed, trimmed), else from the formatted file name, which is also used when the file cannot be read |
| ManifestGenerator.ExtractedTitleClean | js/generate-manifest.js:37-44 | a title taken from the markup has no whitespace at either end, and one taken from `<h1>` holds no tag |
| ManifestGenerator.TrimKeepsNoTag | js/generate-manifest.js:43 | trimming a tag-free text leaves it tag-free |
| ManifestGenerator.RecordFor | js/generate-manifest.js:50-55 | the record for a kept name: the name, its title and `thesis_html/<folder>/<name>` |
| ManifestGenerator.HtmlNames | js/generate-manifest.js:27 | the kept names all end in ".html", and each ".html" name is kept as often as it is listed |
| ManifestGenerator.GetHtmlFiles | js/generate-manifest.js:23-61 | a failed listing or any failed stat gives no records; otherwise one record per kept name in sorted order; every path is `thesis_html/<folder>/<name>` |
| ManifestGenerator.Filenames | js/generate-manifest.js:51 | the names of the records, one per record |
| ManifestGenerator.GetHtmlFilesRecords | js/generate-manifest.js:26-55 | when listing and stat succeed, the record names are ascending and are exactly the listed ".html" names with their multiplicities, each record with its extracted title and its path |
| ManifestGenerator.KeptNamesStat | js/generate-manifest.js:31 | stat is only applied to listed ".html" names |
| ManifestGenerator.GenerateManifest | js/generate-manifest.js:79-100 | a missing directory gives no manifest; otherwise the manifest names the folder, its count equals the number of records, and its records are the folder's files |
| SiteConsistency.TocPhaseNumbers | js/toc-generator.js:8-18 | the configured phases are numbered "0" to "8" in order |
| SiteConsistency.FindPhaseOnlyKeys | js/toc-generator.js:67 | the configuration has no phase for a key other than "0" to "8" |
| SiteConsistency.FindPhaseOfKey | js/toc-generator.js:67 | for a key "0" to "8" the configuration finds the phase at the index of its number |
| SiteConsistency.PhaseTablesAgree | js/navigation.js:78-88 | getPhaseInfo and the table-of-contents configuration know the same keys, with the same names and folders |
| SiteConsistency.TablesAgreeAt | js/toc-generator.js:9-17 | the two tables' entries for each phase number carry the same name and folder |
| SiteConsistency.GeneratorFoldersMatchToc | js/generate-manifest.js:7-18 | the generator's base directory and folder list are the browser's |
| SiteConsistency.AsRawManifest | js/generate-manifest.js:89-94 | a generated manifest is read as a `files` array with one record per file and no `documents` |
| SiteConsistency.GeneratedManifestOnPhasePage | js/phase-loader.js:263-274 | the phase page reads a generated manifest's names and titles in order, no record is an overview, and the landing view's Next is left alone |
| SiteConsistency.GeneratedPathsAreDefaults | js/generate-manifest.js:53 | each generated path is the one the phase page would have defaulted to |
| SiteConsistency.GeneratedManifestInToc | js/toc-generator.js:37-100 | the table of contents lists a generated manifest's files in order, with the generator's title or, when it is empty, the formatted file name |

## Left out

- Fetching manifests and documents, `response.json()`, `DOMParser` and the content extraction of `loadContent` are browser I/O. Their outcomes are parameters.
- Reading directories, `stat`, reading and writing files, `process.exit`, and the `modified` and `generated` timestamps are filesystem and clock I/O. Listings, stat results and contents are parameters, and the timestamps are not modelled. A failed `writeFileSync` is not modelled.
- The console messages of both scripts are logging only.
- The `main` loop of the generator over all phase folders only repeats `generateManifest` with file I/O. Its folder list is modelled (`SiteConsistency.GeneratorFoldersMatchToc`).
- js/header-footer.js and js/lightbox.js are HTML templates and modal wiring. They are not part of this model.
- The mobile menu toggle, the sidebar toggle, the scroll to top and the introduction texts are CSS and DOM effects.
- Missing DOM elements are not modelled: the table-of-contents container, the sidebar title and the navigation buttons. Neither are calls that throw on null elements.
- PhaseLoader.InitPhasePage: records that generateTOC threw (the page stops after the breadcrumb) but does not compose the table of contents, the loaded content and the button setup into one page state; those are modelled by their own members. `loadContent` catches its own failures, so the buttons are still set up after it; its error message and the three-item breadcrumb a successful load sets belong to its I/O, left out above.
- PhaseLoader.InitPhasePage: uses the corrected own-key lookup, so a key such as "constructor" gets "Invalid phase number". As written, the source carries on for such a key with the inherited member's `name` (title "Object - DBA Thesis" and a crumb "Object" for "constructor"); see the finding below.
- ManifestGenerator.TitleTagContent: matches the lower-case tags only and lets the capture span line breaks. The source's regular expressions ignore case, and their `.` stops at a line break. The two agree on single-line, lower-case markup.
- ManifestGenerator.H1Content: the same approximation as for `<title>`.
- Strings.UpperAscii: upper-cases ASCII letters only, not the full Unicode case mapping of `toUpperCase`.
- Strings are sequences of characters, not of UTF-16 code units. The sort order and string lengths agree with the source for text in the Basic Multilingual Plane.
- `isPhaseOverview` is modelled as a boolean. A truthy non-boolean value, which `doc.isPhaseOverview || false` would pass through, is not modelled. Manifest fields of other JSON types are likewise not modelled.
- `getHtmlFiles` takes a directory path and uses its base name. The model takes the base name directly.

## Findings

| source | as written | input that shows it | evidently intended | confidence | as-written member | corrected member |
|---|---|---|---|---|---|---|
| js/navigation.js:90 | `phases[phaseNumber] \|\| null` also finds members every object inherits, so `initPhasePage`'s "Invalid phase number" check (js/phase-loader.js:23-27) lets them through | `phase.html?phase=constructor` | only the keys "0" to "8" are valid, and every other key gets "Invalid phase number" | medium, not executed | Navigation.AsWrittenGuardAcceptsConstructor | Navigation.GetPhaseInfoKeys |
