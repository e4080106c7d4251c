# AutoRepairSystem: a Dafny model of the page self-repair core

`windows/script.js` defines an `AutoRepairSystem` object that runs on the Windows 11 download
page. Its `runFullCheck` runs six scanners over the document in a fixed order:

1. the HTML structure check;
2. the link repair;
3. the image alt rule, which also registers an `error` handler on every image;
4. the CSS rule search;
5. the JavaScript function check;
6. the download-widget pass, which completes the edition selector, the download button and the hint.

Every finding goes through `logRepair`. It appends a `(type, message)` entry to a log of at most
100 entries and re-renders the last 20 entries into the log panel.

The model is imperative, like the source:

- The page is a `Document` class. Its links and images are arrays of element records that the
  scanners patch in place, one pass of a `for` loop per element.
- `AutoRepairSystem` is a class that holds the stored log, the panel and a ghost `history` of
  every entry ever logged. Its invariant `Valid()` says the log is the last 100 entries of that
  history and the panel is the last 20.
- Each scanner is a method. Its contract states the new page and the entries it appends, as
  functions of the page it started on. Lemmas about those functions state what each rule does,
  the bounds on what a pass logs, and two further facts:
  - rule (a), the empty-link rule, excludes rules (b) and (c). Rules (b) and (c) can both fire
    on one href, and then (c) wins;
  - a second pass changes nothing and logs nothing for five of the repairs: the `./` rewrite,
    the `http://` upgrade, the alt text, the button's href and the edition options.

  Not every pass is idempotent. These behaviours of the source as written are listed at the
  end of "## Left out":
  - a second image pass registers one more `error` handler;
  - rule (c) fires again on a Microsoft href that does not start with `http://`;
  - the widget pass logs its fixed notices on every run.
- `RunFullCheck` is proved against a reference semantics. `After` runs the scanners one after
  another, each on the page the previous ones left, and `RunLog` collects their entries.
- An exception that ends the `try` block is the `fault` parameter. It names the scanner at
  whose start the exception is raised.

Strings are `seq<char>`. JavaScript's `startsWith`, `includes`, `indexOf`, `replace` (first
occurrence), `trim` and `lastIndexOf('/')` are written out in module `JsStrings`.

## Model

| member | source | states |
|---|---|---|
| AutoRepair.AutoRepairSystem.constructor | windows/script.js:6 | the system starts with an empty log, an empty panel and no entries logged |
| AutoRepair.AutoRepairSystem.LogRepair | windows/script.js:397-414 | appends exactly the new `(type, message)` entry to the history and keeps `Valid()`: the stored log is the last 100 entries and the panel the last 20 |
| AutoRepair.AutoRepairSystem.GetRepairLog | windows/script.js:417-419 | the returned log holds at most 100 entries and is the last 100 of everything logged |
| RepairLog.LastClosed | windows/script.js:74 | `slice(-n)` is the whole log when it has at most `n` entries, and otherwise the suffix that starts `n` from the end |
| RepairLog.PushedShape | windows/script.js:404-413 | after push and shift the log holds at most 100 entries and ends with the new one; from a full log exactly the oldest entry is dropped and the rest keep their order |
| RepairLog.PushedWindow | windows/script.js:404-413 | push-then-shift on the last 100 entries gives the last 100 entries of the longer history |
| RepairLog.LastOfLast | windows/script.js:74 | the last 20 of the last 100 entries are the last 20 entries |
| RepairLog.PanelBeforeShift | windows/script.js:404-413 | the panel is rendered from the log before the shift, which may hold 101 entries, yet it shows the same 20 entries as the log after the shift |
| AutoRepair.AutoRepairSystem.ReportMissing | windows/script.js:136-142 | one entry `prefix + name` per name of the list that is not present, in list order |
| AutoRepair.AutoRepairSystem.CheckAndRepairHtmlStructure | windows/script.js:132-143 | leaves the page unchanged and logs one entry per required selector that matches nothing |
| PresenceRules.MissingFromMembers | windows/script.js:136-142 | a name is reported exactly when it is on the list and absent |
| PresenceRules.ReportPointwise | windows/script.js:138-139 | the `i`-th entry of a report names the `i`-th missing name |
| PresenceRules.StructureLogExact | windows/script.js:134-142 | the structure check logs at most 5 entries, each naming a required selector with no match, and nothing when all match |
| AutoRepair.AutoRepairSystem.FlagEmptyLink | windows/script.js:153-157 | rule (a): an empty, `#` or blank href gains the warning class and title and logs the link's text, or `未知链接` when the text is empty |
| AutoRepair.AutoRepairSystem.PrefixRelativeLink | windows/script.js:160-170 | rule (b): a bare file name gets `./` in front and the fixed class, with the old and the new path in the entry |
| AutoRepair.AutoRepairSystem.UpgradeMicrosoftLink | windows/script.js:173-180 | rule (c): a non-`https://` Microsoft href is set to the original with its first `http://` replaced, with two entries |
| AutoRepair.AutoRepairSystem.RepairOneLink | windows/script.js:149-181 | the three rules in turn, each reading the original href, give `RepairLink` and `LinkLog` |
| AutoRepair.AutoRepairSystem.RepairEachLink | windows/script.js:149-181 | the `forEach` leaves every array element repaired in place, and the entries follow document order |
| AutoRepair.AutoRepairSystem.CheckAndRepairLinks | windows/script.js:146-182 | only the page's links change, to `RepairLinks` of the old links, with `LinksLog` of them appended |
| LinkRules.EmptyHrefExclusive | windows/script.js:153-173 | an href that rule (a) flags never triggers rule (b) or rule (c) |
| LinkRules.EmptyHrefFlagged | windows/script.js:153-157 | rule (a) changes only the class and title, not the href, and logs one entry; any other href keeps the title and text |
| LinkRules.BareFileNameRewritten | windows/script.js:160-176 | a bare file name ends as `./` + href unless rule (c) also fires, in which case rule (c) writes the original back |
| LinkRules.NoRuleApplies | windows/script.js:149-181 | a link no rule applies to is unchanged and logs nothing |
| LinkRules.PrefixedNoRule | windows/script.js:160-180 | `./` + a bare file name matches none of the three rules |
| LinkRules.RelativeRewriteStable | windows/script.js:160-169 | after a `./` rewrite a second pass changes nothing and logs nothing |
| LinkRules.SecureHttp | windows/script.js:175 | the first-occurrence replace turns `http://` + rest into `https://` + rest |
| LinkRules.HttpMicrosoftUpgraded | windows/script.js:173-180 | an `http://` Microsoft link moves to `https://`, and a second pass changes nothing and logs nothing |
| LinkRules.HttpsLinkUntouched | windows/script.js:160-180 | a link already on `https://` is unchanged and logs nothing |
| LinkRules.SecureHrefStaysInsecure | windows/script.js:173-176 | rule (c)'s rewrite of a Microsoft href that does not start with `http://` still matches rule (c): it does not come to start `https://`, and it keeps `microsoft.com` |
| LinkRules.InsertedSNotHttps | windows/script.js:175 | replacing an `http://` that is not at the front does not make the href start `https://` |
| LinkRules.InsertedSKeepsOccurrence | windows/script.js:173-175 | replacing an `http://` keeps every `microsoft.com` in the href, since the two patterns cannot overlap |
| LinkRules.InsecureMicrosoftRefires | windows/script.js:173-180 | for every Microsoft link whose href does not start with `http://`, the repaired link still matches rule (c), so the next pass logs its two entries again |
| LinkRules.UpperCaseSchemeRefires | windows/script.js:173-176 | an instance: the link `HTTP://www.microsoft.com` keeps its href through two passes, yet rule (c) logs its two entries on each of them |
| LinkRules.RepairLinksPointwise | windows/script.js:149 | the `i`-th repaired link is the `i`-th link repaired on its own |
| AutoRepair.AutoRepairSystem.ScanOneImage | windows/script.js:190-217 | alt rule, then one more registered handler: `ScanImage`, with the alt entry naming the file part of `src` |
| AutoRepair.AutoRepairSystem.ScanEachImage | windows/script.js:188-218 | every array element is scanned in place, with the entries in document order |
| AutoRepair.AutoRepairSystem.CheckAndRepairImages | windows/script.js:185-219 | only the page's images change, to `ScanImages` of the old images, with `ImagesLog` of them appended |
| ImageRules.DefaultAltPresent | windows/script.js:191 | the default alt `图片内容` is not blank |
| ImageRules.AltDefaulted | windows/script.js:190-195 | an empty or blank alt becomes `图片内容`, gains the fixed class and logs the file name; a non-blank alt, the classes and the log are untouched; afterwards the alt is never blank |
| ImageRules.AltStable | windows/script.js:190-195 | a second pass keeps the alt and logs nothing for it |
| JsStrings.AfterLastSlash | windows/script.js:194 | `substring(lastIndexOf('/') + 1)` is a suffix of the source that holds no `/`, and when it is shorter than the source a `/` comes right before it |
| AutoRepair.AutoRepairSystem.RunErrorHandler | windows/script.js:198-217 | one handler firing is `HandleError` (its branch, then it removes itself), with one entry |
| AutoRepair.AutoRepairSystem.DispatchImageError | windows/script.js:198-217 | an `error` event on image `i` runs every registered handler once, in order (`Dispatch`, `DispatchLog`), and leaves the other images alone |
| ImageRules.CdnHandler | windows/script.js:200-206 | on the CDN branch the source is kept and the fallback style, title and error class are set |
| ImageRules.PlaceholderHandler | windows/script.js:207-213 | off the CDN, `data-original-src` gets the old source and the source becomes the placeholder |
| ImageRules.DispatchRunsEachOnce | windows/script.js:215-216 | the event runs as many handlers as were registered, none remains afterwards, and a second event does nothing |
| ImageRules.DispatchCdn | windows/script.js:200-206 | a CDN image keeps its source and original source through the event and gets the fallback style |
| ImageRules.PlaceholderOffCdn | windows/script.js:209 | the placeholder is not on the CDN |
| ImageRules.SingleHandlerKeepsOriginal | windows/script.js:207-213 | with one handler, a failed off-CDN image keeps its old source in `data-original-src` |
| ImageRules.PlaceholderOverwrites | windows/script.js:207-213 | once the source is the placeholder, every further handler saves the placeholder itself in `data-original-src` |
| ImageRules.ManyHandlersLoseOriginal | windows/script.js:198-217 | with two or more handlers (the image was scanned twice), `data-original-src` ends as the placeholder and the old source is lost |
| ImageRules.ScanImagesPointwise | windows/script.js:188 | the `i`-th scanned image is the `i`-th image scanned on its own |
| CssRules.FindClassRule | windows/script.js:229-244 | the nested search with `found` and `break` reports true exactly when some readable sheet has a rule mentioning `.name` or `#name` |
| AutoRepair.AutoRepairSystem.ReportUndefined | windows/script.js:226-249 | one warning per listed class that no readable rule mentions, in list order |
| AutoRepair.AutoRepairSystem.CheckAndRepairCss | windows/script.js:222-250 | leaves the page unchanged and appends `CssLog` of the stylesheets |
| CssRules.UndefinedMembers | windows/script.js:226-249 | a class is reported exactly when it is on the list and not defined |
| CssRules.InaccessibleSheetIgnored | windows/script.js:231-243 | a sheet whose rules throw on access changes no result, wherever it stands |
| CssRules.SubstringSelectorCounts | windows/script.js:234-236 | the match is on substrings: `.btn-primary-outline` counts as defining `btn-primary` |
| CssRules.CssLogExact | windows/script.js:226-249 | at most 5 warnings; an entry is logged exactly when it names a critical class that is not defined |
| AutoRepair.AutoRepairSystem.CheckAndRepairJavaScriptFunctions | windows/script.js:276-296 | leaves the page unchanged, logs one entry per missing required function, then the notice when both the selector and the button exist |
| DownloadWidget.ScanEditions | windows/script.js:320-330 | the flag loop sets each flag exactly when some option has that value |
| AutoRepair.AutoRepairSystem.RepairDownloadButton | windows/script.js:310-318 | a missing, empty or `#` href becomes the fallback URL with the fixed class and two entries; any other button is unchanged |
| AutoRepair.AutoRepairSystem.AddEditionIfMissing | windows/script.js:333-341 | one `if (!has...)` block: the option is appended and the selector marked only when the edition was absent |
| AutoRepair.AutoRepairSystem.AddMissingEditions | windows/script.js:320-361 | the selector ends as `RepairSelect`, with one note per missing edition in the order 3262, 3263, 3264 |
| AutoRepair.AutoRepairSystem.RepairFoundWidget | windows/script.js:306-389 | with both elements found: repaired button, completed selector, hint text set, and the entries between the two notices |
| AutoRepair.AutoRepairSystem.CheckAndRepairDownloadWidget | windows/script.js:299-394 | the page becomes `RepairWidget` of the old page, with `WidgetLog` appended; with an element missing, only the warning follows the start entry |
| DownloadWidget.CompletedHasAll | windows/script.js:320-361 | afterwards 3262, 3263 and 3264 are all present, the old options are an unchanged prefix, at most 3 are added, and exactly the absent editions are missing |
| DownloadWidget.MissingSplit | windows/script.js:333-361 | the appended options and notes are one optional part per edition, in the order the three `if` blocks check them |
| DownloadWidget.RepairSelectInSteps | windows/script.js:333-361 | the three blocks, each testing the original flags, compose to `RepairSelect` |
| DownloadWidget.CompletionIdempotent | windows/script.js:320-361 | a second pass finds nothing missing and appends nothing |
| DownloadWidget.ButtonFallback | windows/script.js:310-318 | a null, empty or `#` href becomes the fallback URL; any other button is unchanged; a second pass changes nothing |
| DownloadWidget.MatchedButtonKeepsHref | windows/script.js:304-313 | a button the selector can match has an href containing the file name, so the fallback never fires on it; the fallback URL still matches the selector |
| DownloadWidget.MissingElementsWarnOnce | windows/script.js:390-392 | without the selector or the button the pass logs its start entry and exactly one warning |
| DownloadWidget.SecondPassLogsNoRepair | windows/script.js:299-389 | on a repaired selector and button a second pass logs only the four fixed notices |
| AutoRepair.AutoRepairSystem.ReportError | windows/script.js:125-128 | the `catch` logs one error entry with the exception's message |
| AutoRepair.AutoRepairSystem.RunPageScanner | windows/script.js:115-117 | structure, links or images at position `k`: the page gets that scanner's patches and the history its entries |
| AutoRepair.AutoRepairSystem.RunCheckScanner | windows/script.js:118-122 | stylesheets, script functions or widget at position `k`: the same one-scanner step |
| AutoRepair.AutoRepairSystem.RunPageScanners | windows/script.js:115-117 | the first three statements of the `try`, up to the one that throws; the result is the exception's message when one of them throws |
| AutoRepair.AutoRepairSystem.RunArrayScanners | windows/script.js:116-117 | the link and image statements, up to the one that throws, on the page the structure check left |
| AutoRepair.AutoRepairSystem.RunCheckScanners | windows/script.js:118-119 | the stylesheet and script statements, up to the one that throws |
| AutoRepair.AutoRepairSystem.RunWidgetScanner | windows/script.js:122 | the widget statement, unless it throws |
| AutoRepair.AutoRepairSystem.RunScanners | windows/script.js:112-124 | the scanners before the throwing one (all six without a fault) have run, in order, and the result is the exception's message |
| AutoRepair.AutoRepairSystem.RunFullCheck | windows/script.js:111-129 | the history gains the start entry, `RunLog` of the completed scanners, then the completion entry or the error entry; the page ends as `After` those scanners |
| AutoRepair.RepairedStep | windows/script.js:115-122 | the patches of the first `k + 1` scanners are scanner `k` run on the page the first `k` left |
| AutoRepair.ScanReadsOriginal | windows/script.js:115-122 | no scanner reads what an earlier one patches, so each logs the same as on the original page |
| AutoRepair.RepairedIsAfter | windows/script.js:115-122 | the page after the first `n` scanners, run one after another, carries exactly their patches |
| AutoRepair.LogsBetweenIsRunLog | windows/script.js:113-122 | the entries of the first `n` scanners, each run on the page the earlier ones left, can be read off the original page |
| JsStrings.IndexOf | windows/script.js:175 | the first occurrence: `-1` exactly when the pattern does not occur, and otherwise it occurs there and at no earlier position |
| JsStrings.TrimEmptyIffBlank | windows/script.js:153 | `trim()` gives the empty string exactly when every character is JavaScript whitespace |
| JsStrings.ReplaceAbsent | windows/script.js:175 | `replace` with a pattern that does not occur changes nothing |
| JsStrings.NoSlashNoHttp | windows/script.js:164-175 | a string without `/` contains no `http://`, so rule (c) writes a bare file name back unchanged |

## Left out

- Timestamps: a log entry has no `timestamp`. `new Date().toISOString()` and `toLocaleTimeString` depend on the clock and the locale. The `console` calls are left out too.
- UI: `createUIElements`, `toggleLogPanel` and the innerHTML markup are left out, as is `scrollTop`. The panel is the sequence of entries it shows.
- `updateLogPanel`'s early returns, when the panel or its entry list is missing, are left out. The model always renders.
- Timers: the `setInterval` re-check and the `setTimeout` that removes `auto-repair-fixed` after 3 seconds are left out. The class is simply added.
- The global `error` and `unhandledrejection` listeners are left out. Their only effect is a `logRepair` call.
- The `getComputedStyle` checks on download buttons and options (windows/script.js:253-272) are left out. They depend on the browser's style computation.
- The widget pass's inline styles and its `dispatchEvent('change')` are left out. The event's effect lives in other scripts.
- The page behaviours after line 428 are left out.
- The placeholder SVG data URL is a short stand-in constant with the same `data:image/svg+xml` prefix. It is not on the CDN, which is the only property of it that matters.
- An image's `src` stands for the resolved `img.src` property. The browser's URL resolution is not modelled.
- RunFullCheck: an exception is modelled only between scanners. `Fault(at, message)` ends the `try` block as scanner `at` starts, before it logs or patches anything. A scanner that throws part-way through is not captured, with the entries and patches it made before the throw. An example is the widget pass on a `#product-edition` that is not a `<select>`: `options.length` throws only after the start entries and any button fallback have been logged and written.
- CheckAndRepairLinks, CheckAndRepairDownloadWidget: the download button is kept as a separate record, `Document.downloadButton`. Its presence is an unconstrained option rather than derived from the first `.btn-primary` anchor whose href contains the installer name. In the page that button is also one of the `a[href]` links, so the link pass can rewrite its href, for example from `http://` to `https://` or to `./` + a bare file name, before the widget pass reads it. The model does not capture this aliasing.
- `getRepairLog` returns the live array. The model returns a value, so a caller that mutates the returned array is not captured.
- RunScanners: the `try` block is proved in parts (RunPageScanners, RunArrayScanners, RunCheckScanners, RunWidgetScanner). The statement order is the source's.

These lemmas record behaviour the source has as written:

- ManyHandlersLoseOriginal: a handler is registered on every scan, so an image scanned twice before it fails has two handlers. The second handler overwrites `data-original-src` with the placeholder.
- InsecureMicrosoftRefires, UpperCaseSchemeRefires: rule (c) tests for a missing `https://` prefix but replaces only the first lower-case `http://`. Any Microsoft href that does not start with `http://` is therefore still insecure after the rewrite and is logged as fixed again on every pass. Examples are `HTTP://…`, a protocol-relative `//www.microsoft.com/…` and an `http://` further in. `HTTP://www.microsoft.com` never changes at all.
- MatchedButtonKeepsHref: the button selector requires the installer name in the href, so the button's fallback branch can never fire.
- SecondPassLogsNoRepair: the widget pass is not silent on a repaired page. Each run logs its start entry, the both-found notice and the two closing notices, though it repairs nothing.
- SubstringSelectorCounts: the CSS search matches `.name` as a substring of `selectorText`, so a longer class such as `.btn-primary-outline` counts as defining `btn-primary`.
