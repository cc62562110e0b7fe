# Theme converter: term dictionary and batch pipeline

This project models the core of a browser tool that converts a WordPress
theme archive (a ZIP) from Simplified to Traditional Chinese with Taiwanese
usage. The converter works in two stages:

* **The custom term dictionary** (`CustomDictionary`). It maps a term to its
  replacement and keeps the mapping in the browser store. It caches the keys
  sorted longest first. Every term is applied to a text in that order: each
  key is escaped into a regular expression and all its occurrences are
  replaced. It supports adding, removing and bulk-adding entries, clearing the
  dictionary, and merging an imported or default dictionary with
  added/updated counts.
* **The batch pipeline**. `shouldConvertFile` decides from the extension
  whether an archive member is text. `convertContent` runs the Chinese
  converter and then the dictionary, and falls back to the original text when
  the converter throws. `processZipFiles` walks the archive entries and fills
  `conversionStats`: processed, converted, sizes and the error list. It builds
  the output archive entry by entry and stops when the user cancels. The
  results panel lists at most ten errors.

Files:

| file | contents |
|---|---|
| `wrappers.dfy` | `Option` (JavaScript's `null`/`undefined` results) |
| `js_string.dfy` | The JavaScript string built-ins the code relies on, over `seq<char>`: `trim`, `toLowerCase`, `lastIndexOf`, `substring`, `includes`, and global replacement of a literal pattern, with `split`/`join` as its reference |
| `dictionary.dfy` | `escapeRegExp`, the longest-first order, the substitution fold `ApplyTerms`, the merge counts, and the class `TermDictionary` (the `CustomDictionary` object) |
| `pipeline.dfy` | `shouldConvertFile`, `convertContent`, the entry step `Step` and run `RunFrom`, the class `ConversionStats`, the loop methods up to `ProcessZipFiles`, and the error summary |

Specification functions and their implementations:

* `ConvertWithDictionary` is a loop method. It is proved equal to the fold
  `ApplyTerms`.
* `GetSortedEntries` is proved to return a longest-first permutation of the
  keys when nothing is cached or the cached order is fresh. Otherwise the
  cached order is returned as it is: a stale order, left by a rejected store
  write or an unparsable stored value, can miss keys added since.
* The loop of `processZipFiles` is split into `ProcessEntry` (one entry) and
  `RunEntries` (the loop). Both are proved equal to the functions `Step` and
  `RunFrom` on a value `Tally`, which holds the counters, the errors and the
  output built so far.
* Lemmas about `Step` and `RunFrom` state what the run promises: counters,
  names, order and fallbacks.

Collaborators that the code calls but this model does not contain become
parameters:

* The browser store read is a `StoreRead` value. Each store write is a
  `writeOk` flag saying whether the store accepted it.
* The Chinese converter is a function returning an `Attempt` (`Ok(text)` or
  `Threw(message)`); `None` means no converter is loaded.
* Each archive member is a `ZipFile` record. It says whether the member is a
  directory, gives its size, and gives what reading it as text and as bytes
  returns.
* The user's cancel request is `cancelAt: Option<nat>`. It is the index of
  the first cancel check that sees the flag set, so a set flag stays set.
* Packaging the output archive is a `packagingOk` flag.

## Model

| member | source | states |
|---|---|---|
| JsString.Trim | dictionary.js:157-158 | `trim()` gives an empty result exactly when the input is all whitespace; otherwise the result starts and ends with non-whitespace |
| JsString.TrimKeepsMiddle | dictionary.js:157-158 | `trim()` returns a contiguous slice of the input, and everything before and after that slice is whitespace |
| JsString.TrimStart | dictionary.js:157-158 | leading whitespace dropped: the result is a suffix preceded only by whitespace and not starting with whitespace |
| JsString.TrimEnd | dictionary.js:157-158 | trailing whitespace dropped: the result is a prefix followed only by whitespace and not ending with whitespace |
| JsString.ToLowerAscii | script.js:492 | `toLowerCase()` on the extension, lowering the ASCII letters; its ensures keeps the length, and `JsString.ToLowerAsciiPointwise` states the per-character rule |
| JsString.ToLowerAsciiPointwise | script.js:492 | `toLowerCase()` lowers each character on its own, keeping the length |
| JsString.LastIndexOf | script.js:492 | `lastIndexOf` for one character, scanning from the end; its ensures bounds the result to -1 or an index of the text, and `JsString.LastIndexOfIsLast` proves it is the last occurrence |
| JsString.Substring | script.js:492 | `substring(start)` with one argument: a negative start counts as 0, otherwise the text from `start` on; what it gives for `lastIndexOf`'s result is stated by `Pipeline.ExtensionShape` |
| JsString.LastIndexOfIsLast | script.js:492 | `lastIndexOf('.')` is the greatest index holding '.', and -1 exactly when there is none |
| JsString.Includes | script.js:493 | `Array.prototype.includes` on strings, compared by value from the front; `JsString.IncludesIsMembership` proves it is list membership |
| JsString.IncludesIsMembership | script.js:493 | `includes` holds exactly when the value is an element of the list |
| JsString.ReplaceAll | dictionary.js:479 | a global replacement of a literal key, scanning left to right and resuming after each match; `JsString.ReplaceAllAtFirst`, `JsString.ReplaceAllNoMatch` and `JsString.ReplaceAllIsSplitJoin` state it |
| JsString.ReplaceAllAtFirst | dictionary.js:479 | global replacement copies the text before the leftmost occurrence, inserts the value, and resumes scanning after the occurrence |
| JsString.ReplaceAllNoMatch | dictionary.js:479 | a text without an occurrence is returned unchanged |
| JsString.ReplaceAllIsSplitJoin | dictionary.js:479 | replacing a literal pattern globally equals `split(k).join(v)`: every non-overlapping occurrence, scanning left to right |
| JsString.SplitJoinRoundTrip | dictionary.js:479 | joining the pieces of a split with the separator gives back the text |
| JsString.ReplaceAllSelf | dictionary.js:474 | replacing a key by itself changes nothing, so skipping such pairs loses nothing |
| Dictionary.EscapeRegExp | dictionary.js:490-492 | escaping never shortens the key and leaves a key without metacharacters as it is |
| Dictionary.EscapeIsLiteral | dictionary.js:490-492 | the escaped key is a pattern made of plain characters and escaped metacharacters that matches exactly the key: removing the inserted backslashes gives the key back |
| Dictionary.GlobalReplace | dictionary.js:478-479 | `result.replace(new RegExp(pattern, 'g'), value)` for a pattern made only of plain characters and escaped metacharacters: the replacement of the literal the pattern reads as; `Dictionary.EscapeIsLiteral` shows an escaped key is such a pattern and reads as the key |
| Dictionary.InsertByLength | dictionary.js:312 | inserting a key into a longest-first order keeps it longest first and adds exactly that key |
| Dictionary.SortByLength | dictionary.js:312 | sorting by descending length gives a permutation of the keys that is longest first |
| Dictionary.ApplyTerm | dictionary.js:471-479 | one turn of the term loop: an empty key, a missing or empty value, or a value equal to the key leaves the text; otherwise the escaped key is replaced globally; `Dictionary.ApplyTermReplaces`, `Dictionary.ApplyTermIsSplitJoin` and `Dictionary.SelfMappedTermIsNoOp` state it |
| Dictionary.ApplyTerms | dictionary.js:470-480 | the term loop as a fold of `ApplyTerm` over the keys in the given order; `Dictionary.TermDictionary.ConvertWithDictionary` is proved equal to it, and the `ApplyTerms…` lemmas below state its properties |
| Dictionary.ApplyTermIsSplitJoin | dictionary.js:467-480 | a term that is applied replaces every occurrence of its key by its value, as split/join would |
| Dictionary.ApplyTermReplaces | dictionary.js:471-480 | a non-empty key mapped to a non-empty value other than itself is replaced globally |
| Dictionary.SelfMappedTermIsNoOp | dictionary.js:474 | skipping a self-mapped pair leaves the same text as replacing it would |
| Dictionary.ApplyTermsEmptyDictionary | dictionary.js:463-465 | with no entries the text is returned unchanged, whatever key order is used |
| Dictionary.ApplyTermsAgreeOnOrder | dictionary.js:467-480 | substitution consults only the entries of the keys in the order it is given, so a stale cached order ignores keys added since |
| Dictionary.LongerTermTakesPrecedence | dictionary.js:467-480 | with "設置"→"設定" and "置"→"Y", "設置檔案" becomes "設定檔案", while applying the shorter term first would give "設Y檔案" |
| Dictionary.ReplacementsAreRescanned | dictionary.js:467-480 | with "設置"→"設定" and "設"→"X", "設置檔案" becomes "X定檔案": inserted text is scanned by the shorter terms that follow |
| Dictionary.SubstitutionNotIdempotent | dictionary.js:467-480 | with "ab"→"a", "abb" becomes "ab", and a second pass gives "a" |
| Dictionary.Eligible | dictionary.js:331-332 | the pairs a merge takes are a subset of the incoming ones, with their incoming values |
| Dictionary.MergeGrowsByAdded | dictionary.js:331-340 | a merge grows the number of keys by exactly the number it reports as added |
| Dictionary.RemergeReportsNothing | dictionary.js:331-340 | merging the same pairs again, or a dictionary into itself, reports nothing added and nothing updated |
| Dictionary.MergeSequenceCounts | dictionary.js:425-432 | the merges {"a":"1"}, {"a":"2"}, {"a":"2"} into an empty dictionary report (1,0), (0,1), (0,0) |
| Dictionary.TermDictionary.constructor | dictionary.js:9-25 | starts with no entries and no cache, loads what the store holds, and with the full editor on the page refreshes the panel, caching a longest-first order of the loaded keys |
| Dictionary.TermDictionary.LoadFromStorage | dictionary.js:124-136 | a saved mapping replaces the entries and resets the cache; nothing saved changes nothing; an unparsable value empties the entries and keeps the cache |
| Dictionary.TermDictionary.SaveToStorage | dictionary.js:141-150 | an accepted write persists the entries and resets the cache; a rejected write changes nothing, leaving a stale cache in place |
| Dictionary.TermDictionary.GetSortedEntries | dictionary.js:306-314 | a cached order is returned as it is; otherwise the result is a longest-first permutation of the keys and becomes the cache; a fresh cache stays fresh |
| Dictionary.TermDictionary.RefreshPanel | dictionary.js:242-252 | without a panel nothing changes; with one the keys are listed through `getSortedEntries`, so a cached order is kept and an empty cache gets a longest-first order of the keys; a fresh cache stays fresh |
| Dictionary.PanelKeepsShownOrder | dictionary.js:306-314 | with the full editor, an empty dictionary caches the empty order at start-up; after `addEntry("a","b")` with a rejected write that order is still cached, so "a" converts to "a" |
| Dictionary.NoPanelSortsAfresh | dictionary.js:306-314 | without a panel the same steps leave no order cached, so the conversion sorts afresh and "a" converts to "b" |
| Dictionary.TermDictionary.ConvertWithDictionary | dictionary.js:454-483 | an empty text is returned unchanged; otherwise the result is the fold of the terms over the text in the cached longest-first order; an empty dictionary changes nothing; a cached order is kept |
| Dictionary.TermDictionary.AddEntry | dictionary.js:156-180 | succeeds exactly when both trimmed inputs are non-empty and the pair is not already present; on success only that key changes (overwritten) and the entries are saved; after a save the panel, when there is one, refreshes: an accepted write leaves a freshly sorted cache (or none without a panel), a rejected one keeps a cached order or fills an empty cache; on failure nothing changes |
| Dictionary.TermDictionary.RemoveEntry | dictionary.js:187-195 | succeeds exactly when the key holds a non-empty value; then only that key is deleted and the entries saved; after a save the panel, when there is one, refreshes: an accepted write leaves a freshly sorted cache (or none without a panel), a rejected one keeps a cached order or fills an empty cache; otherwise nothing changes |
| Dictionary.TermDictionary.AddEntries | dictionary.js:202-221 | no object adds nothing; otherwise every pair with a non-empty key and value overwrites its key, the count is their number, and the entries are saved and the panel refreshed only when it is positive, with the cache outcomes of `AddEntry` |
| Dictionary.AddPairs | dictionary.js:207-213 | the loop of `addEntries`: the result is the entries overwritten by every pair with a non-empty key and value, and the count is the number of such pairs |
| Dictionary.MergePairs | dictionary.js:328-339 | the loop of the import merge: the result is the entries overwritten by every pair taken; `added` is the number of taken keys that were absent and `updated` the number present with another value |
| Dictionary.TermDictionary.ClearDictionary | dictionary.js:227-237 | fails without change on an empty dictionary; otherwise empties it and saves; after a save the panel, when there is one, refreshes: an accepted write leaves a freshly sorted cache (or none without a panel), a rejected one keeps a cached order or fills an empty cache |
| Dictionary.TermDictionary.Merge | dictionary.js:331-340 | the merge loop of the import (and, with every pair taken, of the default dictionary at dictionary.js:425-432): every pair taken ends mapped to its incoming value and other keys are untouched; `added` counts the keys that were absent and `updated` those present with another value; saved once at the end; after a save the panel, when there is one, refreshes: an accepted write leaves a freshly sorted cache (or none without a panel), a rejected one keeps a cached order or fills an empty cache |
| Dictionary.TermDictionary.ImportDictionary | dictionary.js:320-364 | an unreadable or unparsable file changes nothing; a parsed object is merged, skipping empty keys and values, with those counts; the entries are saved once and the panel refreshed, with the cache outcomes of `Merge`, a rejected write leaving `persisted` as it was |
| Dictionary.TermDictionary.LoadDefaultDictionary | dictionary.js:412-449 | a failed fetch changes nothing; the fetched object is merged with every pair taken, with those counts; the entries are saved once and the panel refreshed, with the cache outcomes of `Merge`, a rejected write leaving `persisted` as it was |
| Dictionary.TermDictionary.GetStats | dictionary.js:498-514 | `entryCount` is the number of keys, `isEmpty` holds exactly when it is 0, `hasCustomEntries` exactly when it is positive |
| Pipeline.Extension | script.js:492 | `filename.substring(filename.lastIndexOf('.'))`, before lowering; `Pipeline.ExtensionShape` proves it is the suffix from the last '.', or the whole name |
| Pipeline.ShouldConvertFile | script.js:489-494 | the lowered extension is one of the eleven listed text extensions; `Pipeline.ShouldConvertIffSuffix` proves this means the name ends, ignoring ASCII case, with a listed extension |
| Pipeline.ExtensionShape | script.js:492 | the extension is a suffix of the name; with a '.' it starts at the last '.', and without one it is the whole name |
| Pipeline.ShouldConvertIffSuffix | script.js:489-494 | a file is converted exactly when its name ends with one of the 11 listed extensions, compared without regard to case |
| Pipeline.ExtensionsAreDotted | script.js:491 | every listed extension is a '.' followed by at least one character that is not a '.' |
| Pipeline.NoDotIsNotConverted | script.js:492-493 | a name without '.' is compared whole and is never converted |
| Pipeline.StylesheetIsConverted | script.js:489-494 | "style.css" is converted |
| Pipeline.UpperCaseExtensionIsConverted | script.js:489-494 | "INDEX.PHP" is converted |
| Pipeline.ImageIsCopied | script.js:489-494 | "logo.png" is not converted |
| Pipeline.NameWithoutDotIsCopied | script.js:489-494 | "noext" is not converted |
| Pipeline.Staged | script.js:505-513 | without a converter the text goes to the dictionary as it is |
| Pipeline.ConvertedContent | script.js:497-526 | an empty text is returned unchanged; a converter that throws gives back the original text; a non-empty text the converter empties stays empty, with no fallback |
| Pipeline.ConvertedIsOriginalOrComplete | script.js:497-526 | the result is the original text or the complete two-stage conversion, never a partial one |
| Pipeline.NoConverterAppliesOnlyDictionary | script.js:505-518 | with no converter only the dictionary is applied; with an empty dictionary too, nothing changes |
| Dictionary.ApplyTermsEmptyText | dictionary.js:455-457 | the dictionary leaves an empty text empty |
| Pipeline.OrderIrrelevantWithoutDictionary | script.js:497-526 | a conversion that does not reach the dictionary does not depend on its key order |
| Pipeline.ConvertContent | script.js:497-526 | the result is `ConvertedContent` under the dictionary's cached order; the cache is filled exactly when the dictionary is reached, and a cached order is kept |
| Pipeline.Step | script.js:328-392 | one turn of the entry loop on a `Tally`: a missing member changes nothing, a directory is counted and becomes a folder, a file is `Counted` and then handled; `Pipeline.ProcessEntry` is proved equal to it, and the lemmas below state its outcomes |
| Pipeline.Counted | script.js:336-349 | the two increments every file gets before it is handled: one processed entry and its size; stated for the step by `Pipeline.StepCounters` |
| Pipeline.HandleFile | script.js:356-384 | a counted file goes to the text branch when `shouldConvertFile` holds and is copied as bytes otherwise; `Pipeline.ProcessFile` is proved equal to it |
| Pipeline.CopyBytes | script.js:357-358 | the bytes written under the same name, or the failed read's message recorded (the outer catch at script.js:386-392); `Pipeline.BinaryCopiedVerbatim` and `Pipeline.UnreadableBinaryRecorded` state it |
| Pipeline.HandleText | script.js:359-383 | the converted text written, with the converted counters raised when it differs, or on a failed text read the byte copy and one error; `Pipeline.TextWrittenConverted`, `Pipeline.UnreadableTextFallsBackToBytes` and `Pipeline.UnreadableTextAndBytesRecorded` state it |
| Pipeline.MissingEntrySkipped | script.js:328-333 | a listed name without a member is skipped: nothing counted, written or recorded |
| Pipeline.DirectoryBecomesFolder | script.js:336-346 | a directory counts as processed and becomes a folder of the same name; no size is counted |
| Pipeline.BinaryCopiedVerbatim | script.js:355-358 | a file that is not text is copied byte for byte under its own name and is not counted as converted |
| Pipeline.UnreadableBinaryRecorded | script.js:356-393 | a non-text file whose bytes cannot be read adds no output and one error record with that message |
| Pipeline.TextWrittenConverted | script.js:360-371 | a text file is written under its own name with its converted content; the converted counters grow by one file and its size exactly when the content changed |
| Pipeline.UnreadableTextFallsBackToBytes | script.js:372-384 | a text file that cannot be read as text is copied as bytes with exactly one error record naming it |
| Pipeline.UnreadableTextAndBytesRecorded | script.js:372-393 | a text file that can be read neither way adds no output and exactly one error record, with the byte read's message |
| Pipeline.StepCounters | script.js:336-369 | one entry adds one processed entry when it has a member and its size when it is a file, and keeps converted ≤ processed and convertedSize ≤ totalSize |
| Pipeline.RunFrom | script.js:320-393 | the entry loop as a fold of `Step` over the entries in order; `Pipeline.RunEntries` is proved equal to it over the visited entries, and `Pipeline.RunCounters`, `Pipeline.RunOutputNames` and `Pipeline.RunErrorNames` state what it yields |
| Pipeline.RunCounters | script.js:320-394 | over a run, `processedFiles` counts exactly the entries with a member, `totalSize` sums exactly the file sizes, and the counters stay ordered |
| Pipeline.StepAppends | script.js:328-393 | one entry appends at most one output entry and at most one error record, each under its own name, and keeps what was there |
| Pipeline.RunOutputNames | script.js:320-394 | names are preserved and nothing is reordered: the output gains one entry per entry that yields output, under its name, in archive order |
| Pipeline.RunErrorNames | script.js:379-392 | the error list gains one record per failing entry, naming it, in processing order |
| Pipeline.DirectoriesOnly | script.js:320-394 | an archive of directories only is copied as its folders, each counted as processed, with nothing else counted |
| Pipeline.RunOrderIrrelevant | script.js:320-394 | entries that never reach the dictionary give the same run whatever its key order |
| Pipeline.SummarizeErrors | script.js:465-480 | no summary without errors; otherwise it counts all errors, lists min(10, n) of them, and notes a remainder exactly when n > 10 |
| Pipeline.SummaryAccountsForEveryError | script.js:473-480 | the listed errors are the first ones in order, and listed plus remainder is the total |
| Pipeline.ConversionStats.constructor | script.js:203-212 | every counter starts at zero with no errors |
| Pipeline.Visited | script.js:320-325 | the loop visits the entries before the first check that sees the cancel flag, and all of them when none does |
| Pipeline.RunAdvances | script.js:320-394 | the loop's tally stays the run over the visited entries when the dictionary fills its cache during the step |
| Pipeline.CopyFileBytes | script.js:356-393 | the statistics and output become exactly the byte copy of `CopyBytes` |
| Pipeline.ConvertTextFile | script.js:360-393 | the statistics and output become exactly `HandleText` under the dictionary's order, with the text read's error recorded only after the byte read succeeds |
| Pipeline.ProcessFile | script.js:355-393 | dispatches on `shouldConvertFile`; the new statistics and output are `HandleFile` |
| Pipeline.ProcessEntry | script.js:326-393 | one loop turn: the new statistics and output are exactly `Step`; the dictionary's cache is filled only by an entry that reaches it |
| Pipeline.RunEntries | script.js:320-394 | after the loop, the statistics and output are exactly the run over the entries visited before the cancel flag is seen |
| Pipeline.ProcessZipFiles | script.js:300-439 | no entries: failure before any entry is touched; otherwise `totalFiles` is the entry count, the statistics are the run over the visited entries, converted ≤ processed ≤ total and convertedSize ≤ totalSize, a run that sees the flag gives no archive, and a packaged run gives the output entries with the error summary |

## Left out

- The DOM and the UI are not modelled, except for one effect of `updateDictionaryUI`: it fills the key-order cache (`RefreshPanel`). The rest is left out: `initUI` beyond choosing the `Page`, the event listeners, the HTML `updateDictionaryUI` builds, the drag and drop and file-select handlers, `updateProgress`, `resetUI`, `handleDownload`, the HTML of the results panel (only its ten-error cap is modelled), and the alert and console messages.
- `exportDictionary` and `getFormattedDate` are not modelled. They only build a download (a Blob, an object URL and a date string).
- `JSON.parse` and `JSON.stringify` are not modelled. A parsed object is a `map<string, string>`. JSON values that are not objects of strings are not covered: `null`, arrays, numbers, or non-string values from the default dictionary.
- `localStorage`, `FileReader` and `fetch` become parameters. The store read is `StoreRead`. Each write is a `writeOk` flag. An unreadable import file or a failed fetch is `None`.
- The OpenCC converter and how `initConverter` probes its API are not modelled. The converter is an opaque function that returns `Ok` or `Threw`.
- JSZip (`loadAsync`, `async`, `generateAsync` with DEFLATE level 9) is not modelled. Entries are records, sizes are given naturals (the uncompressed size, or 0 when unknown), and packaging is the `packagingOk` flag.
- The name of the output archive (`<name>_tw.zip`) and the download link are not modelled.
- `formatFileSize`, `Date.now` timing and the progress percentage are not modelled: they use floating point and the clock.
- Each `await` is modelled as one step of a sequential loop.
- The Escape-key handler is not modelled; the cancel flag it sets becomes the `cancelAt` input. Only the flag's effect at each check is modelled, not when during an entry it was set.
- The `beforeunload` handler is not modelled. It only asks the user to confirm leaving the page and never sets the cancel flag.
- The `!zip` check of `processZipFiles` is not modelled. It throws outside the function's `try`, but an archive in this model is always a sequence of entries.
- Any other exception in the outer `try` of `processZipFiles` is the `packagingOk` flag. In this model nothing else in the loop body can throw, beyond the reads that are modelled.
- Dictionary.GlobalReplace: replacement values are inserted literally. `String.prototype.replace` would expand `$&`, `$1`, `$$` and the like in a value. The model matches the code only for values without `$`.
- Lengths are counted in Unicode scalar values, where JavaScript counts UTF-16 code units. The longest-first order can differ for keys with characters outside the Basic Multilingual Plane.
- Object prototype keys such as `__proto__` are treated as ordinary keys. In JavaScript, such a key in a plain object does not behave like other keys.
- JsString.ToLowerAscii: lowers only the ASCII letters. Where it is used, the membership test against the listed extensions, this is exact. The extensions are ASCII, and no other character lowers to a single ASCII letter found in them: the Kelvin sign lowers to 'k', which no extension contains.
- Dictionary.TermDictionary.GetSortedEntries: the order of equal-length keys is left unconstrained. `Object.keys` order plus a stable sort would fix it. The model takes the keys in any order and proves only that the result is a longest-first permutation.
- The loops of `addEntries` and the merges run on a local copy of the entries, which is stored back in one assignment at the end. The JavaScript writes each pair into `this.entries` as it goes. No other code runs during the loop, so the result is the same.
- `convertContent` falls back to the original text when the dictionary throws. That path is not modelled, because the modelled dictionary stage cannot fail.

## Specification and code

Where the documented behaviour and the code differ, the model follows the code:

* The terms are applied one after another to the running text. A replacement can therefore be matched again by a shorter term that follows. With "設置"→"設定" and "設"→"X", the text "設置檔案" becomes "X定檔案", not "設定檔案" (`Dictionary.ReplacementsAreRescanned`).
* Applying the dictionary twice is not the same as applying it once, even when no value is also a key (`Dictionary.SubstitutionNotIdempotent`).
* There is no try/catch around each term. A failure anywhere in the conversion makes `convertContent` return the original text.
* A run that is cancelled produces no archive, not even one with the entries already converted.
* Directories count as processed entries: `processedFiles` is incremented before the directory test.
* There is no fallback when the converter returns an empty text: the empty text is written as the file's new content (`Pipeline.ConvertedContent`).
* `removeEntry` refuses a key that is present but holds an empty value, and leaves it in place.
