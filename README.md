# Image zipper: a Dafny model of its list and naming rules

The image zipper is a small React application. A user uploads a text file
of image URLs, one per line, and ticks some of the rows in a table. The
application then fetches the ticked URLs and packs the images into
`images.zip`. This project models the deterministic rules around that
feature and proves properties of them:

- **Ingestion.** The uploaded text is split on `'\n'`, empty lines are
  dropped, and every remaining line becomes an unselected row. The new list
  replaces the old one.
- **Selection.** There is a per-row toggle, select-all, the list of selected
  URLs in list order, and the "download enabled" rule.
- **The header checkbox.** The table component keeps its own flag for it.
- **The download loop.** It walks the selected URLs in slices of ten and
  names each archive entry `image<ordinal>.<subtype>`, where the ordinal is
  the URL's 1-based position. A success counter goes up only when a fetch
  succeeds.
- **The row display.** Each row shows a file name (the last `/`-segment of
  the URL) and a thumbnail URL.

Files:

- `JsString.dfy`: JavaScript `split` with a one-character separator, the
  decimal text of a number, and the lemmas about them. These are the
  round-trip between split and join, the first and last pieces of a split,
  and reading a number back from its text.
  The application never reads an ordinal back from a name. The digit
  readers (`DigitsValue`, `LeadingDigits` and, in `App.dfy`, `EntryOrdinal`)
  are proof helpers only. They show that two different ordinals never give
  the same entry name.
- `App.dfy`: the application component. It holds the pure list functions
  and their lemmas, the download loop as two methods (`ProcessBatch`,
  `DownloadAndZipImages`), and the class `AppState` with the component's
  state (`fileContent`, `isDownloading`) and its handlers.
- `Table.dfy`: the table component. It holds the file name and thumbnail
  functions, the header-click model, and the class `TableState` with its
  `selectAllChecked` flag.

Fetching is an input: `DownloadAndZipImages` gets one `FetchOutcome` per
selected URL, either `Fetched(contentType)` or `Failed`. The archive is
modelled by its entries: a map from each entry name to the 1-based ordinal
of the URL whose payload it stores.

Behaviours of the code that the model keeps:

- **Batches are not sequential.** Nothing is awaited inside the loop. Every
  fetch is started, and all of them are awaited once at the end
  (src/App.tsx:57-60). Batching only shapes the ordinal arithmetic.
  `DownloadAndZipImages` proves that its result is the same as one pass
  over the whole list.
- **Failures do not count as progress.** `filesDownloaded` is bumped only
  inside the `try`, after a successful fetch (src/App.tsx:49). So it ends
  equal to the number of successes, not to the number of URLs.
- **Progress is reset only at the end.** It is reset once, after the
  download (src/App.tsx:74). The empty selection has no early return: the
  loop does not run, and an empty archive is still built and saved.
- **No fallback extension.** A content type without `/` gives the
  extension `undefined`, because the template literal prints JavaScript's
  `undefined` (src/App.tsx:46). An empty content type behaves the same way.
- **Error responses are archived.** `fetch` does not reject on an HTTP
  error status. Such a response's body is archived like any other.
  `Fetched` stands for "fetch and blob both resolved", whatever the status.

## Model

| member | source | states |
|---|---|---|
| `JsString.Split` | src/App.tsx:23 | JavaScript `split` on one character: at least one piece, and no piece contains the separator |
| `JsString.JoinSplit` | src/App.tsx:23 | joining the pieces of a split with the separator gives back the original text |
| `JsString.SplitJoin` | src/App.tsx:23 | splitting joined pieces (none containing the separator) gives back the pieces, so Split is exactly the inverse of Join |
| `JsString.SplitCount` | src/App.tsx:23 | a text with k separators splits into k + 1 pieces |
| `JsString.SplitFirst` | src/App.tsx:46 | the first piece is the text up to the first separator, or the whole text |
| `JsString.SplitAfterFirst` | src/App.tsx:46 | the pieces after the first are the split of what follows the first separator |
| `JsString.SplitLast` | src/Table.tsx:60 | the last piece is a suffix of the text, preceded by a separator when the text has one, and the whole text otherwise |
| `JsString.SplitNoSeparator` | src/Table.tsx:60 | a text without the separator splits into itself alone |
| `JsString.SplitSeveral` | src/Table.tsx:60 | a text holding the separator splits into at least two pieces |
| `JsString.NumberToString` | src/App.tsx:46 | the decimal text of an ordinal is non-empty, all digits, with no leading zero |
| `JsString.NumberToStringValue` | src/App.tsx:46 | reading the decimal text back gives the number |
| `App.NonEmpty` | src/App.tsx:24 | the filter never returns more lines than it was given, and every kept line is non-empty and taken from the input |
| `App.NonEmptyMembers` | src/App.tsx:24 | a line is kept exactly when it is one of the input lines and is not empty |
| `App.NonEmptyInOrder` | src/App.tsx:24 | the j-th kept line is the line at the j-th non-empty position; the positions increase, and every non-empty position is listed, so all non-empty lines are kept in their order |
| `App.Parse` | src/App.tsx:22-25 | every ingested row has a non-empty URL with no newline, and is unselected |
| `App.ParseKeepsText` | src/App.tsx:22-25 | the ingested URLs, concatenated in order, are the uploaded text with only its newlines removed, so '\r' and spaces are kept |
| `App.ParseLength` | src/App.tsx:22-23 | a text with k newlines gives at most k + 1 rows |
| `App.ParseJoin` | src/App.tsx:22-25 | uploading lines written one per line gives back exactly the non-empty lines, in order, all unselected |
| `App.ParseKeepsCarriageReturn` | src/App.tsx:22-25 | "a\r\n\nb" ingests as the rows "a\r" and "b": the empty line is dropped and the '\r' is kept |
| `App.AppState.HandleFileUpload` | src/App.tsx:15-27 | with no file the list is unchanged; otherwise the list becomes the ingested text, and nothing from the old list survives |
| `App.Toggle` | src/App.tsx:93-99 | the length and every URL are kept, the flag at the index is flipped, and every other row is unchanged |
| `App.ToggleTwice` | src/App.tsx:93-99 | toggling the same index twice gives back the list |
| `App.ToggleOutOfRange` | src/App.tsx:93-99 | an index outside the list changes nothing |
| `App.ToggleSelectedCount` | src/App.tsx:93-99 | toggling a row in range changes the number of selected URLs by exactly one, down if it was selected and up otherwise |
| `App.AppState.OnSelect` | src/App.tsx:93-99 | the list becomes its toggle at the index, and the downloading flag stays |
| `App.SelectAll` | src/App.tsx:101-108 | the length and every URL are kept, and every flag equals the argument |
| `App.SelectAllTwice` | src/App.tsx:101-108 | select-all is idempotent, and the last select-all alone decides the flags |
| `App.SelectAllSelectedUrls` | src/App.tsx:101-108 | after select-all(true) every URL is selected, in order; after select-all(false) none is |
| `App.AppState.OnSelectAll` | src/App.tsx:101-108 | the list becomes its select-all with the argument, and the downloading flag stays |
| `App.SelectedUrls` | src/App.tsx:68-70 | there are never more selected URLs than rows |
| `App.SelectedUrlsAll` | src/App.tsx:68-70 | the selected URLs are as many as the rows exactly when every row is selected |
| `App.SelectedUrlsInOrder` | src/App.tsx:68-70 | the j-th selected URL is the URL of the j-th selected row: the positions increase, each one is selected, and every selected row is listed |
| `App.Urls` | src/App.tsx:70 | `.map((item) => item.url)`: one URL per item, the item's own, at the same position |
| `App.AnySelected` | src/App.tsx:112 | true exactly when some row is selected |
| `App.AnySelectedIff` | src/App.tsx:112 | some row is selected exactly when the selected-URL list is non-empty |
| `App.DownloadEnabled` | src/App.tsx:112 | the button is enabled exactly when at least one URL is selected and no download is running |
| `App.AppState.DownloadButtonEnabled` | src/App.tsx:112 | the rendered button is enabled exactly when the current list has a selected URL and no download is running |
| `App.BatchShape` | src/App.tsx:40-41 | there are ceil(n / 10) batches; batch b is the slice starting at b * 10; all batches but the last hold 10 URLs, and the last holds 1 to 10 |
| `App.Batches` | src/App.tsx:40-41 | every batch holds between 1 and 10 URLs |
| `App.BatchesLength` | src/App.tsx:40 | there are ceil(n / 10) batches |
| `App.BatchSlice` | src/App.tsx:40-41 | batch b is the slice from b * 10 to b * 10 + 10, or to the end of the list |
| `App.BatchesCover` | src/App.tsx:40-41 | the batches, concatenated, are the selected list in order |
| `App.BatchOrdinal` | src/App.tsx:40-46 | offset j of batch b is the URL at position b * 10 + j, so ordinal b * 10 + j + 1 is its 1-based position, and different (batch, offset) pairs get different ordinals |
| `App.TwentyFiveUrls` | src/App.tsx:34-41 | 25 URLs form three batches of 10, 10 and 5 |
| `App.BatchCount` | src/App.tsx:40 | a loop stepping by 10 from 0 until it reaches n runs ceil(n / 10) times |
| `App.BatchesFromSlices` | src/App.tsx:40-41 | the slices taken at 0, 10, 20, ... are the batches |
| `App.Extension` | src/App.tsx:46 | with a '/' in the type, the extension is the text between the first '/' and the next '/' or the end; without one it is "undefined" |
| `App.ExtensionOf` | src/App.tsx:46 | the extension of "major/minor..." is "minor" when neither part contains '/' |
| `App.ExtensionExamples` | src/App.tsx:46 | "a/b/c" gives "b"; "" and "png" give "undefined" |
| `App.EntryName` | src/App.tsx:46 | an entry name starts with "image" and ends with "." followed by the extension |
| `App.EntryNameOrdinal` | src/App.tsx:46 | the ordinal can be read back from an entry name |
| `App.EntryNameInjective` | src/App.tsx:46 | two entry names are equal only if both ordinal and extension are equal |
| `App.EntryNameExamples` | src/App.tsx:46 | ordinal 1 with "png" gives "image1.png"; ordinal 12 with an empty content type gives "image12.undefined" |
| `App.Successes` | src/App.tsx:49 | the success count never exceeds the number of URLs |
| `App.SuccessesAllFetched` | src/App.tsx:49 | the success count equals the number of URLs exactly when every fetch succeeded |
| `App.ZipEntries` | src/App.tsx:42-55 | the archive built from k outcomes holds at most k entries |
| `App.ZipEntrySound` | src/App.tsx:46-53 | every archive entry belongs to a successful fetch: its value k is that URL's 1-based position, and its name is image{k}.{extension of that fetch} |
| `App.ZipEntryOrdinalBound` | src/App.tsx:46 | the ordinal written in any entry built from k outcomes lies between 1 and k |
| `App.ZipEntriesComplete` | src/App.tsx:42-55 | every successful fetch at 0-based position k leaves its entry image{k+1}.{ext} mapped to k + 1, and no later entry overwrites it |
| `App.ZipEntryKept` | src/App.tsx:46-48 | the entry of the success at 0-based position k is present, mapped to k + 1, in the archive of any longer run of outcomes |
| `App.NewEntryIsNew` | src/App.tsx:46-48 | the entry a success at position k adds is not already among the entries of the first k outcomes |
| `App.ZipEntriesCount` | src/App.tsx:46-53 | the archive has exactly as many entries as there were successful fetches |
| `App.MiddleFailureKeepsOrdinals` | src/App.tsx:42-55 | for three URLs whose middle fetch fails, the entries carry ordinals 1 and 3, with no renumbering |
| `App.ZipStep` | src/App.tsx:43-54 | one more outcome adds exactly its entry and one count when it is a success, and nothing when it is a failure |
| `App.ProcessBatch` | src/App.tsx:42-55 | after the batch starting at i, the entries and counter are those of the first i + batch-length outcomes |
| `App.DownloadAndZipImages` | src/App.tsx:31-60 | the archive is the entry map of all outcomes; the counter equals the number of successes and the number of entries; the slices walked are exactly the batches and cover the list |
| `App.AppState.constructor` | src/App.tsx:8-13 | the component starts with an empty list and no download running |
| `App.AppState.HandleDownloadClick` | src/App.tsx:67-76 | the archive is built from the URLs selected at click time; afterwards no download is running and the list is unchanged |
| `Table.FileName` | src/Table.tsx:60 | the shown name contains no '/', is a suffix of the URL, follows a '/' when the URL has one, and is the whole URL otherwise |
| `Table.FileNameSplitsUrl` | src/Table.tsx:60 | a URL containing '/' is a prefix, then '/', then the shown name |
| `Table.TrailingSlashGivesEmptyName` | src/Table.tsx:60 | a URL ending in '/' shows an empty name |
| `Table.FileNameExamples` | src/Table.tsx:60 | "https://host/img/cat.png" shows "cat.png", and so does "cat.png" |
| `Table.ThumbnailSrc` | src/Table.tsx:54 | the thumbnail source starts with the URL and ends with the fixed "?w=128&h=128&dpr=1" query |
| `Table.ThumbnailSrcInjective` | src/Table.tsx:54 | different URLs never get the same thumbnail source |
| `Table.HeaderClick` | src/Table.tsx:15-18 | a header click negates the flag, keeps every URL and the length, and sets every row's flag to the new value |
| `Table.HeaderClickTwice` | src/Table.tsx:15-18 | two header clicks restore the flag and leave every row with that flag |
| `Table.TwoHeaderClicksFromStart` | src/Table.tsx:13-18 | from the initial unchecked header, two clicks leave the header unchecked and no URL selected |
| `Table.HeaderIgnoresRows` | src/Table.tsx:13-18 | after the header is checked, clearing one row leaves the header checked while not every row is selected |
| `Table.TableState.constructor` | src/Table.tsx:13 | the header checkbox starts unchecked |
| `Table.TableState.HandleSelectAllChange` | src/Table.tsx:15-18 | the flag and the list change exactly as one header click says, and the downloading flag stays |
| `Table.TableState.HandleRowChange` | src/Table.tsx:48 | a row click toggles that row and leaves the header flag unchanged |
| `Table.TableState.HeaderClickedTwice` | src/Table.tsx:15-18 | after two header clicks the flag is back to its old value and every row carries it |

## Left out

- Network fetching and reading the response body (src/App.tsx:44-45) are left out because they are I/O. They are replaced by the `outcomes` input: one outcome per URL, success with a content type, or failure.
- JSZip is a foreign library. The model leaves out the binary payloads it stores, `generateAsync` and the ZIP container format (src/App.tsx:32, 46-48, 62). Only the entry-name map is modelled.
- `saveAs`, the `FileReader` upload path and `console.error` (src/App.tsx:16-20, 28, 53, 64) are left out because they are browser I/O. The chosen file is an `Option` of its text.
- Promise concurrency and `Promise.all` (src/App.tsx:42, 57, 60) are left out because they are concurrency. Completion order does not affect names, which depend only on positions.
- The progress percentage and its display (src/App.tsx:50-51, 74; src/DownloadProgress.tsx) are left out because they are floating point and presentation. Only the integer counter `filesDownloaded` is modelled.
- App.AppState.HandleDownloadClick: the `uploadProgress` field is not modelled, because it holds a floating-point percentage. So the contract says nothing about progress.
- JSX markup, CSS classes, the spinner and the row `alt` text are left out because they are presentation.
- React's scheduling of state updates is not modelled: each setter is a plain assignment.
