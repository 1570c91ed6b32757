# NlS-Scrapper, modelled in Dafny

NlS-Scrapper is a pair of Puppeteer scripts.

- `index.js` walks a vendor's IP-phone catalog. For every product it reads the product page, creates a directory named after the product, saves the product images into it and (in intent) writes a `product_data.csv`.
- `scraper.js` clones one web page. It rewrites the relative `href`/`src` values of the HTML to point into `assets/`, writes `index.html`, then downloads every stylesheet, script and image into `assets/`.

This project models the logic of both scripts once the browser, the network and the file system are turned into input data. What a selector finds is a value: a text, an `innerHTML`, a style string, or `None` for a missing element. Whether a navigation, a fetch, a `mkdir` or a write succeeded is a boolean. What a run does is a trace of its effects, in order.

Modules:

- `Outcomes` (outcomes.dfy): `Option` and `Result`.
- `Strings` (strings.dfy): the JavaScript string operations the scripts use.
  - `trim`, defined against the ECMAScript whitespace set;
  - `split` with a one-character separator, and `join`;
  - `indexOf`, and `replace` with a string pattern (first occurrence only);
  - the decimal rendering of `${i + 1}`.
- `PosixPath` (posix_path.dfy): Node's `path.posix.join` and `path.posix.normalize`, modelled as POSIX normalisation over `/`-segments. Empty and `.` segments are dropped and `..` is resolved. A leading `/` and a trailing `/` are kept, and an empty result gives `.`.
- `ProductExtract` (product_extract.dfy): the page extraction of `index.js`.
  - the background-image URL regex;
  - `scrapeTable`, `scrapeAddons`, `scrapeContentNotes` and `scrapeImages`.
- `ProductRun` (product_run.dfy): the top-level async function of `index.js`. It covers the catalog, the product loop, the inner and outer `try`/`catch`, and the `finally`.
- `SiteClone` (site_clone.dfy): `cloneWebsite` of `scraper.js`.
  - the global regex replace, modelled as a left-to-right scanner;
  - the replace callback;
  - the local asset name;
  - the download loop with its `try`/`catch`/`finally`.

The loops of the source are methods with loop invariants:
- the `forEach` loops of `scrapeTable` and `scrapeAddons`;
- the `for` loop of `scrapeImages`;
- the product loop and the asset loop.

Each method is proved equal to a specification function, and the properties are proved as lemmas about those functions.

The model follows the code as written. Points a reader may not expect:

- The background-image pattern at `index.js:69` is `url\("([^"]+)"`. It has no closing `\)`, so `url("a.png"` (closing quote, no closing parenthesis) yields `a.png`. Without the closing `"` nothing matches.
- A style without a `url("…"` match makes the `$$eval` of `index.js:68-70` throw before the per-image `try`. The whole image pass fails; it is not one skipped image.
- `scrapeTable` is single-level: no sub-category rows. Any table without a `thead th`, or any row with fewer than two cells, makes the whole evaluation throw.
- A product page whose `goto` throws (`index.js:104`) is outside the inner `try`. The outer catch then ends the whole run, and that page is never closed. Only failures inside lines 106-136 are isolated per product.
- The CSV text at `index.js:130` reads `productModel`, whose declaration (`index.js:109`) is commented out. So every product that gets that far throws a ReferenceError after its directory and images were written, and no `product_data.csv` is ever written.
- `scraper.js` has no per-asset `try`. The first asset that cannot be fetched or written ends the clone, and the assets after it are not downloaded.

## Model

| member | source | states |
|---|---|---|
| Strings.TrimSpec | index.js:17 | `Strings.Trim` models `trim`: `trim` returns a string with no whitespace at either end that is `s` with a whitespace-only prefix and suffix removed |
| Strings.TrimUnique | index.js:17 | any such trimmed middle of `s` is exactly `trim(s)`: the characterisation determines `trim` |
| Strings.TrimIdempotent | index.js:35 | trimming twice is trimming once |
| Strings.TrimOfTrimmed | index.js:35 | a string with no whitespace at either end is left alone by `trim` |
| Strings.IndexOf | scraper.js:61 | the result is the leftmost occurrence of the pattern, with none before it, or None exactly when the pattern occurs nowhere |
| Strings.ReplaceFirstAtStart | scraper.js:61 | `Strings.ReplaceFirst` models `replace` with a string pattern: replacing a pattern that starts the string removes exactly that prefix |
| Strings.ReplaceFirstAbsent | scraper.js:61 | replacing a pattern that does not occur changes nothing |
| Strings.SplitSpec | scraper.js:61 | `Strings.Split` models `split`: no piece of `split` holds the separator; the first piece is the text up to the first separator |
| Strings.SplitJoin | index.js:18 | `Strings.Join` models `join`: `split` undoes `join` when no piece holds the separator |
| Strings.JoinSplit | index.js:18 | `join` undoes `split` for every string |
| Strings.DecimalRoundTrip | index.js:75 | `Strings.DecimalString` renders `${i + 1}`: reading back the decimal rendering of `n` gives `n` |
| Strings.DecimalInjective | index.js:75 | different numbers render differently |
| PosixPath.Resolve | scraper.js:37 | resolving `/`-free segments gives canonical segments: plain or `..`, every `..` in front, none in an absolute path |
| PosixPath.NormalizeIdempotent | scraper.js:37 | `PosixPath.Normalize` models `path.normalize`: normalising a normalised path changes nothing |
| PosixPath.JoinFileName | index.js:75 | `PosixPath.PathJoin` models `path.join`: `path.join(dir, name)` with a plain name is a prefix fixed by `dir`, then exactly `name` |
| PosixPath.JoinFileNameInjective | index.js:75 | distinct plain names in one directory give distinct paths |
| PosixPath.JoinArgsFileName | index.js:123 | joining several directory parts and then a plain name is joining the parts first, then the name |
| PosixPath.JoinArgsFileNameInjective | index.js:123 | two plain names under the same directory parts give distinct paths |
| PosixPath.JoinStaysUnder | scraper.js:37 | a value without `..` segments joined onto a plain base starts with that base followed by `/` or nothing |
| PosixPath.JoinPlainValue | scraper.js:37 | a clean relative path `w`, with or without a leading `/`, joined onto a plain base gives `base/w` |
| ProductExtract.CaptureAtMatches | index.js:69 | `ProductExtract.CaptureAt` is the regex attempt at one position: the attempt at one position succeeds with `x` exactly when the pattern matches there with capture `x` |
| ProductExtract.ScanUrlSpec | index.js:69 | `ProductExtract.ScanUrl` is the regex search: the search from `p` finds `x` exactly when `x` is the capture of the leftmost match at or after `p`, and finds nothing exactly when no match exists |
| ProductExtract.BackgroundUrl | index.js:69 | a URL found is non-empty and holds no `"` |
| ProductExtract.BackgroundUrlSpec | index.js:69 | `match(...)[1]` gives `x` exactly when a match with capture `x` exists and no match starts before it |
| ProductExtract.BackgroundUrlNone | index.js:69 | `match` gives null exactly when the pattern matches nowhere |
| ProductExtract.BackgroundUrlExample | index.js:69 | `url("a.png")` gives exactly `a.png` |
| ProductExtract.BackgroundUrlUnclosed | index.js:69 | `url("a.png"` gives `a.png` without a closing `)`, and `url("a.png` gives nothing |
| ProductExtract.ReplaceBrRemovesAll | index.js:35 | `ProductExtract.ReplaceBr` models `replace(/<br>/g, '\n')`: no `<br>` survives it |
| ProductExtract.ReplaceBrIdentity | index.js:35 | text without `<br>` (such as `<br/>` or `<BR>`) is unchanged |
| ProductExtract.ReplaceBrPrefix | index.js:35 | a `<`-free, newline-free prefix of the result was a prefix of the input |
| ProductExtract.CleanValueClean | index.js:35 | `ProductExtract.CleanValue` models `innerHTML.replace(/<br>/g, '\n').trim()`: a stored cell value has no whitespace at either end and no `<br>` |
| ProductExtract.RowsDataOk | index.js:31-37 | `ProductExtract.RowsData` models the row `forEach` of one table: a table's rows fold without throwing exactly when every row has at least two cells |
| ProductExtract.TablesDataOk | index.js:22-42 | `ProductExtract.TablesData` models the `$$eval` callback of `scrapeTable`: the evaluation succeeds exactly when every table has a header and every row two cells |
| ProductExtract.RowsErrPersists | index.js:32-37 | once a row throws, the rows after it change nothing: no partial result |
| ProductExtract.TablesErrPersists | index.js:27-38 | once a table throws, the tables after it change nothing: no partial result |
| ProductExtract.RowsKeys | index.js:32-36 | a table's keys are exactly the trimmed first-cell texts of its rows |
| ProductExtract.RowsLastWins | index.js:34-36 | each key holds the cleaned value of the last row with that key |
| ProductExtract.TablesCategories | index.js:27-29 | the categories are exactly the trimmed headers of the tables |
| ProductExtract.TablesLastWins | index.js:27-29 | each category holds the rows of the last table with that header: an earlier table's entries are discarded |
| ProductExtract.TableValuesClean | index.js:35-36 | every stored value is trimmed and free of `<br>` |
| ProductExtract.ScrapeRows | index.js:31-37 | the inner `forEach` computes the row fold |
| ProductExtract.ScrapeTable | index.js:22-42 | the outer `forEach` computes the table fold, or the first error |
| ProductExtract.AddonsData | index.js:45-62 | the evaluation throws exactly when an add-on has no `.title`, naming the first one; otherwise one record per add-on, in order, with the trimmed title and trimmed specifications |
| ProductExtract.ScrapeAddons | index.js:45-62 | the `forEach` pushing onto `addonsData` computes the add-on records |
| ProductExtract.ContentNotesNone | index.js:14-20 | no `.con` element gives the empty string |
| ProductExtract.ContentNotesSplit | index.js:14-20 | `ProductExtract.ContentNotes` models the `.con` evaluation, trimmed texts joined by newlines: splitting the notes on newlines gives back the trimmed `.con` texts when there is at least one and none holds a newline (`""` splits to `[""]`) |
| ProductExtract.ImageUrls | index.js:68-70 | the `$$eval` throws exactly when some style has no URL, naming the first; otherwise one URL per element, the one the regex extracts |
| ProductExtract.SavedIndices | index.js:72-83 | the saved image indices, increasing, each of a saved image, and every saved image among them |
| ProductExtract.SavedPathsIndices | index.js:72-85 | `ProductExtract.SavedPaths` is the `imagePaths` array: the `k`-th pushed path is that of the `k`-th saved image |
| ProductExtract.ImagePathsErr | index.js:68-73 | `ProductExtract.ImagePaths` models `scrapeImages`: the image pass fails exactly when some style has no URL, with the first such index, before any fetch |
| ProductExtract.ImagePathsSpec | index.js:72-85 | `ProductExtract.ImagePaths` models `scrapeImages`: the paths are those of the saved images in increasing index order, each `<dir>/image_<i+1>.png`, one per saved image, never more than the images |
| ProductExtract.ImageFileNamePlain | index.js:75 | `image_<i+1>.png` is a plain path segment |
| ProductExtract.ImagePathInjective | index.js:75 | different image indices give different files |
| ProductExtract.ImagePathsDistinct | index.js:72-85 | the returned paths are pairwise distinct |
| ProductExtract.SecondOfThreeFails | index.js:72-85 | when the second of three images fails, the result is the paths of `image_1.png` and `image_3.png`: a gap, not a renumbering |
| ProductExtract.ScrapeImages | index.js:64-86 | the `for` loop with its per-image `try` computes the image pass |
| ProductRun.FirstUndeclaredSpec | index.js:130 | `ProductRun.FirstUndeclared` models identifier lookup in the template: the ReferenceError names an unbound identifier after only bound ones, and there is none exactly when all are bound |
| ProductRun.CsvTemplateFails | index.js:109-130 | building the CSV text throws a ReferenceError for `productModel` |
| ProductRun.ProductDirectoryInjective | index.js:123 | `ProductRun.ProductDirectory` models `path.join(__dirname, './YEALINK', productName)`: products with different plain names get different directories |
| ProductRun.StoreAlwaysThrows | index.js:123-134 | `ProductRun.Store` models lines 123-134: the writing stages always throw; after a created directory and a full image pass, with the `productModel` ReferenceError |
| ProductRun.StoreEffectsInDirectory | index.js:123-134 | the directory is created first, then the `k`-th effect saves the file of the `k`-th saved image in it |
| ProductRun.BlockAlwaysThrows | index.js:106-136 | `ProductRun.Block` models the inner block, with `ProductRun.Prepare` for the reading stages of lines 106-121: the inner block always throws; a failure while reading the page leaves no effect |
| ProductRun.BlockEvents | index.js:106-136 | the inner block only creates the directory and saves images |
| ProductRun.ProcessProduct | index.js:106-136 | the awaits of the inner block, in order, compute its outcome |
| ProductRun.ReportAndClose | index.js:137-141 | the inner catch reports the block's failure, then the page is closed, or its closing failure ends the loop |
| ProductRun.VisitProduct | index.js:103-141 | one iteration computes the visit's outcome |
| ProductRun.VisitReported | index.js:103-141 | `ProductRun.Visit` models one iteration, with `ProductRun.Report` for its catch and `close`: a product whose page opens and closes ends with its failure report and its page's closing, and the loop goes on |
| ProductRun.VisitEvents | index.js:103-141 | a visit never writes a CSV, closes the browser or reaches the outer catch through its events |
| ProductRun.ReportEvents | index.js:137-141 | reporting and closing add only a product failure report and a page closing |
| ProductRun.NavigationFailureAborts | index.js:103-104 | a product page that cannot be opened ends the loop with the outer-catch report, before any effect of later products |
| ProductRun.LoopStep | index.js:102-144 | `ProductRun.Loop` models the `for…of` loop over the visits' outcomes (`ProductRun.Visits`): the loop from any visit: its effects, then the outer-catch report or the following visits |
| ProductRun.LoopAppend | index.js:102-142 | visits that fail only inside the inner `try` do not affect the visits after them |
| ProductRun.LoopAbort | index.js:102-144 | a visit that fails outside the inner `try` ends the loop there, with its report |
| ProductRun.LoopEvents | index.js:102-144 | the loop adds only outer-catch reports to the visits' own effects |
| ProductRun.VisitAll | index.js:102-142 | the `for…of` loop computes the loop's trace |
| ProductRun.BrowserClosedOnceLast | index.js:95-147 | `ProductRun.RunTrace` models the whole script: the browser is closed exactly once, as the very last effect of every run |
| ProductRun.NoCsvEverWritten | index.js:130-134 | no run ever writes `product_data.csv` |
| ProductRun.Run | index.js:88-148 | the script computes the run's trace |
| SiteClone.RunEndSpec | scraper.js:33 | `SiteClone.RunEnd` models the greedy `[^"']+`: the greedy `[^"']+` stops at the first quote or at the end |
| SiteClone.MatchedText | scraper.js:33 | what a match covers is the callback's `match` |
| SiteClone.MatchAtSound | scraper.js:33 | what the attempt at a position finds is a match of the pattern there |
| SiteClone.MatchAtComplete | scraper.js:33 | every match of the pattern at a position is what the attempt there finds |
| SiteClone.MatchAtSpec | scraper.js:33 | `SiteClone.MatchAt` is the regex attempt at one position: the attempt finds `a` exactly when the pattern matches at that position with groups `a` |
| SiteClone.MatchAtText | scraper.js:33 | what the attempt finds is the text at that position |
| SiteClone.ScanRoundTrip | scraper.js:33 | `SiteClone.Scan` is the left-to-right search of the global replace: the scan loses nothing: its pieces, as found, spell the scanned text |
| SiteClone.ScanMatches | scraper.js:33 | every replaced piece of the scan is a match of the pattern in the text, at the position where the pieces before it end (soundness; `SiteClone.ScanComplete` gives the other direction) |
| SiteClone.ScanComplete | scraper.js:33 | the replace is global: every character the scan copies is the text's character at that position, and no match of the pattern starts there |
| SiteClone.RewriteGlobal | scraper.js:33-38 | for any HTML, at every position the scan reaches, the piece is replaced exactly when the pattern matches there, and then by that match: every match is rewritten, not only the first |
| SiteClone.ScanCopies | scraper.js:33 | where no `href=`/`src=` starts, the text is copied one character at a time |
| SiteClone.SubstitutedAbsolute | scraper.js:34-35 | `SiteClone.Replacement` models the replace callback: replacing only matches with absolute values changes nothing |
| SiteClone.RewriteKeepsAbsolute | scraper.js:33-35 | `SiteClone.RewriteLinks` models the global `html.replace` with the callback: HTML whose every match has an `http` or `//` value, or that has no match at all, comes out unchanged |
| SiteClone.RewrittenValueInAssets | scraper.js:37 | a relative value without `..` segments is rewritten to a path inside `assets` |
| SiteClone.TextMatches | scraper.js:33 | the text of any groups the pattern can capture is a match of them |
| SiteClone.RewriteOneAttribute | scraper.js:33-38 | a match that makes up the whole text is replaced by the callback's result |
| SiteClone.ReplacementPlainValue | scraper.js:37 | the callback's result for a clean relative value `w` or `/w` is the match with the value `assets/w`, name and quote kept: the match `src="/img/a.png` (which stops before the closing quote) gives `src="assets/img/a.png` |
| SiteClone.RewriteHttpLookalikeExample | scraper.js:34-35 | `href='httpdocs/x'` is kept as it is |
| SiteClone.EmptyValueUnchanged | scraper.js:33 | `href=""`, `src=''` and the like never match and are kept |
| SiteClone.RewriteUnanchored | scraper.js:33 | after text that cannot start a name, such as `data-`, a match is rewritten all the same |
| SiteClone.RewriteQuoted | scraper.js:33-38 | a match between text before it and a closing quote with text after it (neither holding an `h` or an `s`, so no other name starts there) is replaced by the callback's result, and the text around it is copied unchanged: `<img src="/img/a.png">` gives `<img src="assets/img/a.png">` when combined with `SiteClone.ReplacementPlainValue` |
| SiteClone.AssetNameSpec | scraper.js:61 | `SiteClone.AssetName` models `assetUrl.replace(url, '').split('?')[0]`: the asset name holds no `?` and is what is left of the URL up to its first `?` |
| SiteClone.AssetNameUnderPage | scraper.js:61 | an asset URL that starts with the page URL is named by the rest, up to its first `?` |
| SiteClone.AssetNameElsewhere | scraper.js:61 | an asset URL that does not contain the page URL keeps its whole URL, up to its first `?` |
| SiteClone.AssetNameFirstOnly | scraper.js:61 | only the first occurrence of the page URL is removed |
| SiteClone.SavedEventsSpec | scraper.js:58-62 | `SiteClone.SavedEvents` is the saves of the assets before the first failure: the `k`-th save writes the `k`-th asset under `assets/<name>` |
| SiteClone.SavedPrefix | scraper.js:58-63 | saved assets at the front produce their saves in order, then the loop goes on |
| SiteClone.AssetEventsSpec | scraper.js:58-66 | `SiteClone.AssetEvents` models the download loop: assets before the first failure are saved in order and that failure ends the loop; with no failure every asset is saved and the success is logged |
| SiteClone.AssetStep | scraper.js:58-63 | one step of the loop: save and go on, or fail and stop |
| SiteClone.ClonedInAssets | scraper.js:58-65 | the loop logs the success exactly when every asset was saved |
| SiteClone.ClonedExactly | scraper.js:9-65 | `SiteClone.CloneTrace` models `cloneWebsite`, with `SiteClone.CloneBody` for its `try` block: the success is logged exactly when the page loaded, the directory and `index.html` were written, the assets were listed and every asset was saved |
| SiteClone.HtmlBeforeAssets | scraper.js:47-62 | whenever an asset was saved or failed, the rewritten `index.html` was written first |
| SiteClone.BodyKeepsBrowserOpen | scraper.js:9-67 | nothing in the `try` block closes the browser |
| SiteClone.CloneClosesBrowserOnce | scraper.js:66-70 | the browser is closed exactly once, as the last effect of every clone |
| SiteClone.DownloadAssets | scraper.js:58-65 | the `for…of` loop computes the loop's effects |
| SiteClone.CloneWebsite | scraper.js:5-71 | `cloneWebsite` computes the clone's trace |

## Left out

- The scroll loop (scraper.js:13-27) is left out. It is driven by `setInterval`, `window.scrollBy` and a live `scrollHeight`, which are timer and browser behaviour. Its success or failure is part of `SiteVisit.loaded`.
- Puppeteer is not modelled. Its calls become inputs: `launch`, `newPage`, `goto`, `waitForSelector`, `$eval`, `$$eval`, `evaluate`, `content`, and the DOM reads inside them.
- `puppeteer.launch` and `browser.newPage` at index.js:89-90 and scraper.js:6-7 run outside every `try`. The model starts once they have succeeded.
- File contents and `response.buffer()` are not modelled. Only whether each write happened is recorded.
- `fs.existsSync` at scraper.js:42 is folded into one flag: the assets directory existed, or `mkdirSync` succeeded.
- The CSV layout and the `JSON.stringify` pretty-printing at index.js:130 are left out. The ReferenceError makes them unreachable, so only that failure is modelled.
- `encodeURI` of a constant URL (index.js:93) is left out.
- Four console messages are kept as trace events: `ProductRun.Event.ProductFailed` (index.js:138), `ProductRun.Event.RunFailed` (index.js:144), `SiteClone.CloneEvent.Cloned` (scraper.js:65) and `SiteClone.CloneEvent.CloneFailed` (scraper.js:67). The other messages (index.js:79, 81, 111, 121 and 136) are left out: they change no state.
- `path.join` is modelled for POSIX only. Windows separators are not modelled.
- `innerText` (index.js:119) is taken as given. Only whether the element exists matters to the model.
- `ProductExtract.BackgroundUrl` models the regex over the style string. It does not model how the browser serialises `style.backgroundImage`.
- Strings are sequences of Dafny `char`s, which are Unicode scalar values, whereas JavaScript strings are UTF-16 code units. A character outside the Basic Multilingual Plane is one `char` here but two code units in JavaScript, so the positions `indexOf` returns differ for text holding such characters, and a lone surrogate cannot be represented at all. The whitespace set of `trim` is listed explicitly.
- Object keys are a Dafny `map`. JavaScript's special keys, such as `__proto__`, are not modelled.
