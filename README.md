# Code2Text converter — a Dafny model

Code2Text is a single-page React application. It turns a ZIP archive of a
software project into one plain-text document. The user picks an archive and
asks for a conversion. The page reads the archive's catalog and skips directories.
It keeps the entries whose extension is on a fixed allow-list of 30 source-file
extensions. For each kept entry it appends a block: a `--- File: <path> ---` header,
a blank line, the entry's text with surrounding whitespace trimmed, and two
blank lines. The merged text can then be downloaded as `<archive name without
its final extension>_converted.txt`.

The model has five modules:

- `Wrappers` holds the `Option` and `Result` values.
- `JsString` models the JavaScript string operations the page relies on:
  `split`, `pop`, `toLowerCase`, `trim`, and the position of the last occurrence
  of a character.
- `Convert` models how entries are classified and how the document is assembled.
  The assembly is a left fold over the catalog in catalog order. The loop that
  builds the document, `Assemble`, is proved equal to that fold.
- `Download` models how the download name is derived, including the regular
  expression `\.[^/.]+$`.
- `Session` models the page's state as the class `App`. The class has one field per
  state hook and one method per handler.

The conversion handler is split at its `await` into two methods. `StartConvert`
runs the guard and raises the busy flag. `FinishConvert` takes the result of
reading the archive and stores the merged document.

Three behaviours of the code that a reader may not expect, which the model keeps:

- A name with no dot. `split('.').pop()` gives the whole name, so the "extension"
  of a dotless entry is the whole name, lower-cased (App.js:53). An entry named
  `R`, `md` or `sh` is therefore kept (`Convert.DotlessNameKept`).
- A dot in a directory name. For `v1.2/README` the extension becomes `2/readme`,
  which is not supported (`Convert.DotInDirectoryExcluded`).
- A conversion that finishes after another archive has been selected. Nothing
  discards its result: the text is stored (App.js:65-68) and offered under the
  name of the archive selected since (App.js:26-29, 85)
  (`Session.ConversionOutlivesReselection`).

## Model

| member | source | states |
|---|---|---|
| JsString.Split | code2text/src/App.js:53 | `split` on one character always yields at least one piece |
| JsString.SplitPieces | code2text/src/App.js:53 | no piece contains the separator; there is exactly one piece iff the separator does not occur |
| JsString.JoinSplit | code2text/src/App.js:53 | joining the pieces with the separator gives back the string, so `split` loses nothing |
| JsString.LastPieceIsFinalSegment | code2text/src/App.js:53 | the piece `pop()` returns is a suffix of the name, and it is either the whole name or preceded by the separator |
| JsString.LastPieceFreeOfSeparator | code2text/src/App.js:53 | no separator occurs in the part of the string that `pop()` returns |
| JsString.LastIndexOf | code2text/src/App.js:53 | finds no position iff the character is absent; otherwise the position holds the character and none follows it |
| JsString.LastPieceAfterLastIndex | code2text/src/App.js:53 | the last piece of `split` is the text after the last separator, or the whole string when there is none |
| JsString.LastIndexUnique | code2text/src/App.js:53 | a position holding the character with none after it is the last index |
| JsString.NoSeparatorAfterStem | code2text/src/App.js:53 | in `stem + sep + suffix` with no separator in the suffix, nothing after the stem's length is the separator |
| JsString.LastIndexAfterStem | code2text/src/App.js:53 | the last separator of `stem + sep + suffix`, with none in the suffix, is at the stem's length |
| JsString.LowerChar | code2text/src/App.js:53 | lower case of one character: A-Z and the Kelvin sign map to ASCII lower case, all else is kept; `LowerHasNoUpper` states what it leaves |
| JsString.Lower | code2text/src/App.js:53 | the model of `toLowerCase` keeps the length; `LowerAt` gives it character by character |
| JsString.LowerAt | code2text/src/App.js:53 | the model of `toLowerCase` maps each character by `LowerChar` |
| JsString.LowerHasNoUpper | code2text/src/App.js:53 | a lower-cased string has no ASCII capital and no Kelvin sign left |
| JsString.LowerIdempotent | code2text/src/App.js:53 | lower-casing twice is lower-casing once |
| JsString.IsJsWhitespace | code2text/src/App.js:59 | the characters `trim` removes: the ECMAScript WhiteSpace and LineTerminator characters; `TrimCut` and `TrimUnique` characterise `Trim` by it |
| JsString.TrimStart | code2text/src/App.js:59 | drops only leading whitespace, and all of it |
| JsString.TrimEnd | code2text/src/App.js:59 | drops only trailing whitespace, and all of it |
| JsString.Trim | code2text/src/App.js:59 | the result is no longer than the input and neither starts nor ends with whitespace |
| JsString.TrimCut | code2text/src/App.js:59 | `trim` returns a contiguous slice with only whitespace cut away on either side |
| JsString.TrimUnique | code2text/src/App.js:59 | any whitespace-only cut whose kept slice starts and ends with non-whitespace is the trim |
| JsString.TrimSurrounded | code2text/src/App.js:59 | whitespace around a text that starts and ends with non-whitespace is exactly what `trim` removes |
| JsString.TrimIdempotent | code2text/src/App.js:59 | trimming twice is trimming once |
| Convert.Extension | code2text/src/App.js:53 | `split('.').pop().toLowerCase()`; `ExtensionAfterLastDot` states it is the lower-cased text after the last dot, or the whole name |
| Convert.ExtensionAfterLastDot | code2text/src/App.js:53 | the extension is the lower-cased text after the last dot, or the whole lower-cased name when there is no dot |
| Convert.ExtensionWithoutDot | code2text/src/App.js:53 | a dotless name is its own extension, lower-cased |
| Convert.ExtensionAfterStem | code2text/src/App.js:53 | whatever precedes the last dot, the extension is the lower-cased text after it |
| Convert.SupportedExtensions | code2text/src/App.js:54 | the 30 allow-listed extensions, lower case and without the dot; `LongExtensionUnsupported` bounds their length |
| Convert.IsSupported | code2text/src/App.js:56 | `includes`: membership of the extension in the allow-list |
| Convert.Keeps | code2text/src/App.js:50-56 | an entry is kept iff it is not a directory and its extension is supported; `ContributionEmptyIff` ties it to what the entry adds |
| Convert.Header | code2text/src/App.js:58 | the `--- File: <path> ---` line and the blank line after it |
| Convert.Block | code2text/src/App.js:58-59 | header, trimmed text, two blank lines; `MainPyBlock` gives one in full |
| Convert.Contribution | code2text/src/App.js:50-60 | a kept entry's block, else nothing; `ContributionEmptyIff` states it is empty iff the entry is not kept |
| Convert.LongExtensionUnsupported | code2text/src/App.js:54-56 | no allow-listed extension is longer than five characters |
| Convert.ReadmeExcluded | code2text/src/App.js:53-56 | `README` has extension `readme`, which is not supported |
| Convert.UpperCaseExtensionKept | code2text/src/App.js:53-56 | the test is on the lower-cased extension: `a.TS` has extension `ts` and is kept |
| Convert.DotlessNameKept | code2text/src/App.js:53-56 | the dotless names `R`, `md` and `sh` are kept |
| Convert.DotInDirectoryExcluded | code2text/src/App.js:53-56 | for `v1.2/README` the extension runs across the slash and is not supported |
| Convert.TrimExample | code2text/src/App.js:59 | trimming keeps the blank line inside the text and drops the ones around it |
| Convert.Merged | code2text/src/App.js:44-62 | the entries' contributions concatenated in catalog order; `Assemble` computes it and `MergedIsBlocksOfKept` characterises it |
| Convert.ConcatMapAppend | code2text/src/App.js:46-62 | the fold over a split catalog is the concatenation of the folds of the parts |
| Convert.ConcatMapSingleton | code2text/src/App.js:46-62 | the fold over one entry is that entry's contribution |
| Convert.ConcatMapEmptyIff | code2text/src/App.js:46-62 | the fold is empty iff every contribution is empty |
| Convert.ConcatMapAt | code2text/src/App.js:46-62 | the fold splits around any position as before + contribution + after |
| Convert.MergedStep | code2text/src/App.js:46-62 | one more entry adds its contribution at the end of the document |
| Convert.Assemble | code2text/src/App.js:44-62 | the loop that skips directories and appends a header and trimmed text per supported entry builds exactly the fold of the entries' contributions |
| Convert.MergedAppend | code2text/src/App.js:46-62 | the document of a split catalog is the documents of the parts concatenated |
| Convert.Kept | code2text/src/App.js:50-56 | the kept entries are at most the catalog, all of them pass the filter, and every catalog entry that passes is among them; `KeptAppend` adds their order |
| Convert.KeptSingleton | code2text/src/App.js:50-56 | filtering one entry keeps it exactly when it passes |
| Convert.KeptAppend | code2text/src/App.js:46-62 | filtering commutes with concatenation, so kept entries stay in catalog order |
| Convert.MergedIsBlocksOfKept | code2text/src/App.js:46-62 | the document is the blocks of the kept entries, in catalog order |
| Convert.ContributionEmptyIff | code2text/src/App.js:50-60 | an entry adds nothing iff it is a directory or has an unsupported extension: a block is never empty |
| Convert.MergedEmptyIff | code2text/src/App.js:46-62 | the document is empty iff no entry is kept |
| Convert.BlockInPlace | code2text/src/App.js:46-62 | each kept entry's block sits between the documents of the entries before and after it |
| Convert.MergedOfThree | code2text/src/App.js:46-62 | the document of three entries is their contributions in order |
| Convert.MainPyExtension | code2text/src/App.js:53 | `main.py` has extension `py` |
| Convert.NotesTxtExtension | code2text/src/App.js:53-56 | `notes.txt` has extension `txt`, which is not supported |
| Convert.PrintHiTrimmed | code2text/src/App.js:59 | a text without surrounding whitespace trims to itself |
| Convert.MainPyKept | code2text/src/App.js:50-56 | a `main.py` file is kept |
| Convert.MainPyBlock | code2text/src/App.js:58-59 | the block of `main.py` holding `print('hi')` is the header, the text and two blank lines |
| Convert.ScenarioOneSourceFile | code2text/src/App.js:46-62 | `main.py`, `notes.txt` and a directory merge to the single `main.py` block |
| Download.RegexMatchesAt | code2text/src/App.js:85 | where `\.[^/.]+$` matches: a dot followed by one or more characters to the end, none a slash or a dot |
| Download.StripFinalExtension | code2text/src/App.js:85 | the stripped name is a prefix of the name |
| Download.StripFinalExtensionIsRegexReplace | code2text/src/App.js:85 | stripping cuts the name where `\.[^/.]+$` matches and keeps it whole when the pattern matches nowhere; it matches in one place at most |
| Download.DownloadName | code2text/src/App.js:85 | the stripped name followed by `_converted.txt`; `DownloadNameAfterStem` states it for `stem.ext` |
| Download.StripRemovesExtension | code2text/src/App.js:85 | a final `.ext` with no slash or dot in `ext` is removed |
| Download.StripKeepsNameWithoutDot | code2text/src/App.js:85 | a dotless name is kept whole |
| Download.StripKeepsTrailingDot | code2text/src/App.js:85 | a name ending in a dot is kept whole |
| Download.StripKeepsSlashAfterDot | code2text/src/App.js:85 | a name with a slash after its last dot is kept whole |
| Download.DownloadNameAfterStem | code2text/src/App.js:85 | the download name of `stem.ext`, with no slash or dot in a non-empty `ext`, is `stem_converted.txt`, whatever dots the stem holds |
| Download.DownloadNameOfZip | code2text/src/App.js:85 | `MyProj.zip` downloads as `MyProj_converted.txt` |
| Download.DownloadNameOfDoubleExtension | code2text/src/App.js:85 | `archive.tar.gz` downloads as `archive.tar_converted.txt` |
| Download.DownloadNameWithoutExtension | code2text/src/App.js:85 | `noext`, `trailingdot.` and `a.b/c` keep their whole name before `_converted.txt` |
| Session.App.Valid | code2text/src/App.js:5-9 | the label names the accepted archive (or is the initial text), text exists only when converted, and converted or busy needs an accepted archive; every handler keeps it |
| Session.App.constructor | code2text/src/App.js:5-9 | the page starts with no archive, the "No ZIP file selected" label, no text, not converted and not busy |
| Session.App.SelectFile | code2text/src/App.js:23-33 | a selection is accepted iff it is a file of type `application/zip`; acceptance replaces the archive and label and clears the text and the converted flag; a refusal changes nothing |
| Session.App.StartConvert | code2text/src/App.js:35-41 | a conversion starts iff an archive is selected and the library is loaded; starting only raises the busy flag, and a refusal changes nothing |
| Session.App.FinishConvert | code2text/src/App.js:42-75 | a read archive becomes the merged document of its catalog and is marked converted; an unreadable one only clears the busy flag; the archive and label stay |
| Session.App.Download | code2text/src/App.js:78-85 | nothing is downloaded iff the text is empty; otherwise the text is saved under the archive's name with its final extension replaced by `_converted.txt` |
| Session.ConvertAndDownload | code2text/src/App.js:23-85 | a full visit refuses an early conversion and a PDF, converts a ZIP archive and downloads the single Python block under the archive's download name |
| Session.ConversionOutlivesReselection | code2text/src/App.js:23-75 | a conversion finished after a second archive was selected is kept and downloaded under the second archive's name |

## Left out

- Loading the archive library from a CDN (App.js:12-21) is a boolean parameter of `StartConvert`.
- Decompressing the archive with `loadAsync` and decoding each entry's bytes as text are left out. `FinishConvert` receives their outcome: a catalog of already decoded entries, or a failure.
- Per-entry decode promises and the fixed 1500 ms timer (App.js:57, 65-69) are left out. The model assumes every kept entry has been decoded, and appended in catalog order, before the timer fires. The code does not wait for those promises, so on a large archive the stored text can lack blocks or hold them in completion order.
- The order of the catalog is the archive library's key order and is taken as given. Integer-like keys, which that order puts first, contain no dot and are never kept.
- Alerts, console logging, the button's disabled state, the rendered markup and the Blob, URL and anchor mechanics of the download are left out. `Download` returns the name and the text that would be saved.
- JsString.Lower: models `toLowerCase` for the ASCII capitals and the Kelvin sign only, because those are the only characters whose lower case is ASCII. Other characters are kept as they are. The allow-list test is therefore exact, but the lower-cased text of a non-ASCII extension is not.
- Strings are sequences of Unicode scalar values rather than UTF-16 code units. This changes nothing for the operations modelled, which only look at ASCII characters and whitespace.
