# Icon pack generator, modelled in Dafny

`generate_css.py` scans a folder of SVG icons, writes a JSON manifest with
one record per icon, writes a stylesheet with one mask-image rule per icon,
and writes a demo page whose script searches and paginates the manifest in
the browser. This project models the three pieces of logic in that file,
and proves what they promise:

- **The scan** (`Scanner`). The directory listing is an input sequence of
  file names. `ScanIcons` is the loop that keeps every name whose lower-cased
  form ends in `.svg` and appends the record `{full_name, className,
  filePath}` for it. `full_name` and `className` are the root that Python's
  `os.path.splitext` returns (modelled exactly, leading-dot rule included),
  and `filePath` is `folder + "/" + name`.
- **The stylesheet** (`Stylesheet`). `BuildStylesheet` is the loop that
  builds one rule per record and then joins them: the preamble, `"\n\n"`,
  and the rules joined by `"\n"`. Inside a rule the URL is rebuilt from
  `full_name + ".svg"`, so it differs from `filePath` for a name such as
  `A.SVG`. The model keeps that behaviour and proves exactly when it
  happens.
- **The page script** (`Search`, `Paging`, `Viewer`). The script filters by a
  case-insensitive substring of `className` or `full_name`. It computes
  `ceil(n / itemsPerPage)` pages, clamps the requested page, and takes a
  `slice` of the matches. It then builds the pagination controls: Prev, a
  centred and clamped window of numbered buttons, and Next. Each button is a
  descriptor `(text, disabled, target)`. `Viewer.Render` is one render as a
  pure function. `Viewer.ViewState` is the script's mutable state:
  `currentPage`, the loaded manifest, the search box value and what is on
  screen. Its methods `RenderPage` (for a request at or above 1),
  `LoadIcons`, `SearchFor` and `Press` keep the invariant that the screen shows the render of a page in
  `[1, max(totalPages, 1)]`.

`Text` holds the runtime string operations the code calls: `lower()` on
ASCII letters, `trim()` with the ECMAScript white-space set, `includes`,
`endswith`, `join`, and `rfind`, which `os.path.splitext` uses. `Seqs` holds the order-preserving filter
that the scan loop and `Array.prototype.filter` both compute. JavaScript's
`slice` is modelled with its handling of negative positions, so
`RenderPage` accepts any page, as `renderPage` does.

On a search that matches nothing, `Math.ceil(0 / itemsPerPage)` is 0, so
`totalPages` is 0 and only `currentPage` is raised to 1
(`Viewer.NoMatchesView`).

## Model

| member | source | states |
|---|---|---|
| `Scanner.IsSvgName` | generate_css.py:16 | the scan's guard `filename.lower().endswith('.svg')`: a name passing it has a dot four characters from its end and neither a dot nor a slash after it (`Scanner.SvgSuffix`), and exactly the names passing it get a record (`Scanner.ScanRecords`) |
| `Text.EndsWith` | generate_css.py:16 | `endswith`, used by the scan's guard, whose consequences for a name `Scanner.SvgSuffix` states |
| `Scanner.SplitExtRoot` | generate_css.py:17 | the root of `os.path.splitext`: for an `.svg` name, the name without its extension, or the whole name for a dot-only stem (`Scanner.SvgNameRoot`) |
| `Scanner.MakeIcon` | generate_css.py:17-25 | the appended record: `full_name` and `className` are the root, and `filePath` is the folder, `/` and the original name (`Scanner.IconFields`) |
| `Scanner.ScanIcons` | generate_css.py:14-25 | the scan loop returns the manifest that `ScanSpec` defines: the records of the `.svg` names of the listing, in listing order |
| `Scanner.ScanRecords` | generate_css.py:15-25 | there is one record per listed name whose lower-cased form ends in `.svg`, built from that name, at strictly increasing listing positions. Those positions are exactly the `.svg` names, so every other name is dropped |
| `Scanner.ScanEmptyIff` | generate_css.py:15-16 | the manifest is empty exactly when no listed name ends in `.svg` in any case |
| `Scanner.SvgNameRoot` | generate_css.py:17 | for an `.svg` name, `splitext` cuts at the extension's dot: the root is the name minus its last four characters, or the whole name when only dots precede the extension |
| `Scanner.IconFields` | generate_css.py:17-24 | `full_name == className` == the name without its `.svg` (the whole name for dot-only stems), and `filePath == folder + "/" + name` with the original name |
| `Scanner.SvgNameIndices` | generate_css.py:17 | in an `.svg` name the last dot is the extension's, and the last slash comes before it |
| `Text.RFind` | generate_css.py:17 | `rfind` returns -1 or a position holding the character, and no later position holds it |
| `Stylesheet.RuleUrl` | generate_css.py:57-60 | the URL inside a rule is rebuilt from `full_name` and a lower-case `.svg`, and equals `filePath` only for a lower-case extension after a real stem (`Stylesheet.RuleUrlIsFilePathIff`, `Stylesheet.UpperCaseExtensionUrl`) |
| `Stylesheet.RulesOf` | generate_css.py:54-62 | `icon_classes`: one rule per record in record order, which the rule loop builds (`Stylesheet.BuildStylesheet`) and which stand verbatim at their offsets (`Stylesheet.AssembleRuleAt`) |
| `Stylesheet.StylesheetText` | generate_css.py:65 | `full_css`, what `Stylesheet.BuildStylesheet` returns: the preamble, a blank line and the rules (`Stylesheet.AssembleFrame`), each verbatim at its offset (`Stylesheet.AssembleRuleAt`), one newline apart (`Stylesheet.AssembleSeparatorAt`) |
| `Stylesheet.CssRule` | generate_css.py:56-61 | the rule for one record, which the rule loop appends verbatim (`Stylesheet.BuildStylesheet`) and which stands at its offset in the stylesheet (`Stylesheet.AssembleRuleAt`) |
| `Stylesheet.BuildStylesheet` | generate_css.py:54-65 | the rule loop and join produce the preamble, `"\n\n"`, and one `CssRule` per record in record order, joined by `"\n"` |
| `Stylesheet.AssembleFrame` | generate_css.py:65 | the stylesheet begins with the preamble and `"\n\n"`, is exactly that with no records, and otherwise has the length of the preamble, two newlines, the rules and one newline between each two |
| `Stylesheet.AssembleRuleAt` | generate_css.py:58-65 | rule `k` stands verbatim at the offset of part `k` after the preamble and the blank line |
| `Stylesheet.AssembleSeparatorAt` | generate_css.py:65 | consecutive rules are separated by exactly one newline |
| `Stylesheet.RuleUrlIsFilePathIff` | generate_css.py:57-60 | a rule's URL equals the record's `filePath` if and only if the name ends in lower-case `.svg` after a stem that is not all dots |
| `Stylesheet.UpperCaseExtensionUrl` | generate_css.py:57-60 | for `A.SVG` in the folder `icons`, the record's `filePath` is `icons/A.SVG`, but its rule points at `icons/A.svg` |
| `Text.Join` | generate_css.py:65 | `sep.join(parts)`: its length (`Text.JoinLength`), each part at its offset (`Text.JoinPartAt`), one separator between each two (`Text.JoinSeparatorAt`) |
| `Text.JoinLength` | generate_css.py:65 | the length of `sep.join(parts)` is the sum of the parts plus one separator between each two |
| `Text.JoinPartAt` | generate_css.py:65 | each part of a join stands verbatim at its offset |
| `Text.JoinSeparatorAt` | generate_css.py:65 | consecutive parts of a join are separated by exactly one separator |
| `Text.Lower` | generate_css.py:16 | ASCII lower-casing, as the scan guard and the search use it: it leaves no ASCII capital and is idempotent (`Text.LowerIdempotent`), and it commutes with `trim()` (`Text.TrimLowerCommute`) |
| `Text.Contains` | generate_css.py:185-186 | `includes`; every string includes the empty one (`Text.ContainsEmpty`), which is why a blank search keeps every record (`Search.BlankSearchKeepsAll`) |
| `Text.Trim` | generate_css.py:182 | `trim()` removes only white space, and only from the two ends, and leaves a result with no white space at either end |
| `Text.TrimLowerCommute` | generate_css.py:182 | trimming and lower-casing commute |
| `Seqs.Filter` | generate_css.py:184-187 | the filter keeps only selected elements and never grows the sequence |
| `Seqs.FilterIndices` | generate_css.py:184-187 | the filter is the subsequence at strictly increasing positions, and those positions are exactly the selected elements |
| `Seqs.FilterKeepsAll` | generate_css.py:184-187 | a filter that selects every element returns the sequence unchanged |
| `Seqs.FilterEmptyIff` | generate_css.py:184-187 | the filter is empty if and only if no element is selected |
| `Search.SearchTerm` | generate_css.py:182 | `searchInput.value.trim().toLowerCase()`; the search result does not change when the typed text is lower-cased or trimmed first (`Search.SearchIgnoresCase`, `Search.SearchIgnoresSurroundingSpace`) |
| `Search.Matches` | generate_css.py:185-186 | the filter's callback; the matches are exactly the records it accepts, in manifest order (`Search.FilterIconsSelects`), and none exist exactly when it accepts no record (`Search.FilterIconsEmptyIff`) |
| `Search.FilterIcons` | generate_css.py:182-187 | the matches of a search: exactly the matching records in manifest order (`Search.FilterIconsSelects`), unaffected by case or surrounding white space (`Search.SearchIgnoresCase`, `Search.SearchIgnoresSurroundingSpace`) |
| `Search.FilterIconsSelects` | generate_css.py:182-187 | the filtered records are, in manifest order, exactly the records whose lower-cased `className` or `full_name` contains the trimmed, lower-cased term |
| `Search.BlankSearchKeepsAll` | generate_css.py:182-187 | an empty or white-space-only search keeps every record |
| `Search.FilterIconsEmptyIff` | generate_css.py:182-187 | the filtered list is empty if and only if no record matches |
| `Search.SearchIgnoresCase` | generate_css.py:182-187 | lower-casing the typed text does not change the result |
| `Search.SearchIgnoresSurroundingSpace` | generate_css.py:182-187 | trimming the typed text does not change the result |
| `Paging.TotalPages` | generate_css.py:190 | the page count is the least `t` with `t * itemsPerPage >= n` |
| `Paging.ClampPage` | generate_css.py:193-195 | the clamp of the current page: a request at or above 1 lands in `[1, max(totalPages, 1)]` and is kept when in range (`Paging.ClampPageInRange`) |
| `Paging.ClampPageInRange` | generate_css.py:193-195 | a clamped page of a request at or above 1 lies in `[1, max(totalPages, 1)]`, a page already in that range is kept, and clamping twice changes nothing |
| `Paging.ClampPageExamples` | generate_css.py:193-195 | page 10 of 3 becomes 3; page 1 of 0 stays 1 |
| `Paging.JsSlice` | generate_css.py:202 | `slice`, with negative positions counted from the end; for a page at or above 1 it takes the page's positions cut off at the end (`Paging.PageItemsRange`) |
| `Paging.PageItems` | generate_css.py:198-202 | the records of one page: positions `[(p-1)*perPage, min(p*perPage, n))` (`Paging.PageItemsRange`), and pages 1 to `totalPages` together give back every match (`Paging.PagesCoverAll`) |
| `Paging.PageItemsRange` | generate_css.py:198-202 | page `p` shows positions `[(p-1)*perPage, min(p*perPage, n))`, so at most `perPage` records |
| `Paging.PageItemsExample` | generate_css.py:190-202 | 95 records at 40 per page: 3 pages, page 1 is `[0, 40)`, page 3 is `[80, 95)` |
| `Paging.PagesUpToPrefix` | generate_css.py:198-202 | pages 1 to `k` together are the first `min(k*perPage, n)` records |
| `Paging.PagesCoverAll` | generate_css.py:190-202 | pages 1 to `totalPages`, concatenated, give back the filtered records |
| `Paging.ButtonWindow` | generate_css.py:232-237 | the numbered-button window, within `[1, totalPages]`, holding the current page, of `min(maxPageButtons, totalPages)` pages (`Paging.ButtonWindowBounds`) |
| `Paging.ButtonWindowBounds` | generate_css.py:232-237 | for `1 <= current <= total` and at least one button: `1 <= start <= current <= end <= total`, with `min(maxPageButtons, total)` pages |
| `Paging.ButtonWindowExamples` | generate_css.py:232-237 | 10 buttons over 25 pages: page 1 gives `[1..10]`, page 25 gives `[16..25]` |
| `Paging.NumberButtons` | generate_css.py:239-243 | the numbered buttons of the window, one per page in increasing order, disabled exactly on the current page (`Paging.NumberButtonsAt`) |
| `Paging.NumberButtonsAt` | generate_css.py:239-243 | the numbered-button loop yields one button per page of the window, in increasing order, each disabled exactly on the current page and leading to its own page |
| `Paging.PaginationButtons` | generate_css.py:212-249 | the controls the pagination loop builds (`Paging.RenderPagination`): none for at most one page, else Prev, the window and Next with their flags and targets (`Paging.PaginationLayout`, `Paging.ButtonFlags`) |
| `Paging.RenderPagination` | generate_css.py:212-249 | the button loop returns the controls that `PaginationButtons` defines: none for at most one page, else Prev, the window's numbered buttons and Next |
| `Paging.SinglePageHasNoControls` | generate_css.py:213-215 | there are no buttons at all, neither Prev, Next nor numbers, if and only if `totalPages <= 1` |
| `Paging.ButtonFlags` | generate_css.py:227-248 | Prev is disabled iff on page 1 and targets `current - 1`, Next is disabled iff on the last page and targets `current + 1`, and numbered button `p` is disabled iff `p == current` and targets `p` |
| `Paging.PaginationLayout` | generate_css.py:226-249 | Prev comes first and Next last, with `min(maxPageButtons, total)` numbered buttons between them in increasing order. The current page's button is among them and is the only disabled one |
| `Paging.EnabledTargetsInRange` | generate_css.py:226-248 | for a clamped current page, every enabled button leads to a page in `[1, totalPages]` |
| `Viewer.Render` | generate_css.py:179-209 | one render: a page in `[1, max(totalPages, 1)]` (`Viewer.RenderSettlesInRange`), its slice of the matches (`Viewer.RenderShowsPageSlice`), controls only for more than one page (`Viewer.RenderControls`), and stable under re-rendering its page (`Viewer.RenderSettles`) |
| `Viewer.RenderSettlesInRange` | generate_css.py:179-195 | a render's page count is the ceiling of the matches. Its page lies in `[1, max(totalPages, 1)]` and is the requested page when that exists, else `max(totalPages, 1)` |
| `Viewer.RenderShowsPageSlice` | generate_css.py:197-202 | the grid shows the page's slice of the matches, at most `itemsPerPage` records |
| `Viewer.RenderControls` | generate_css.py:208-215 | controls appear if and only if there is more than one page, and every enabled control targets a page in range |
| `Viewer.RenderSettles` | generate_css.py:179-208 | rendering the page a render settled on reproduces the same view |
| `Viewer.NoMatchesView` | generate_css.py:182-215 | a search matching nothing shows page 1 of 0 pages, an empty grid and no controls |
| `Viewer.ViewState.constructor` | generate_css.py:153-155 | the state starts with no records and page 1, nothing on screen, and valid |
| `Viewer.ViewState.RenderPage` | generate_css.py:179-209 | `currentPage` becomes the clamped page, and the grid and controls become that page's render, with the manifest and search value unchanged. A request at or above 1 leaves the state valid |
| `Viewer.ViewState.LoadIcons` | generate_css.py:261-263 | after the manifest loads, the records are stored and page 1 is rendered |
| `Viewer.ViewState.SearchFor` | generate_css.py:252-254 | a settled search stores the value and renders page 1 |
| `Viewer.ViewState.Press` | generate_css.py:227-248 | a disabled control changes nothing; an enabled one makes its target the current page; the state stays valid |

## Left out

- File and process I/O: `os.listdir` becomes the `listing` parameter. The `open`/`write` calls and the closing `print` lines are not modelled.
- The JSON manifest file: `json.dump` with `indent=2` is a library serialiser. The model stops at the record list it serialises.
- The HTML template and `generateIconHTML`: these are fixed markup with a few interpolated constants. The grid is modelled as the list of records it shows.
- The DOM: `innerHTML`, `createElement` and `addEventListener` are replaced by the list of button descriptors `(text, disabled, target)`.
- The debounce timer: `SearchFor` is the render that runs once the timer fires. Timers and the coalescing of keystrokes are not modelled.
- `Viewer.ViewState.LoadIcons`, `Viewer.ViewState.Press` and `Viewer.ViewState.constructor`: every render in the model filters by `searchValue`, the last settled search value (`""` from the constructor), while `renderPage` reads `searchInput.value` live at each call. So a manifest that arrives, or a control clicked, while a debounced search is still pending is filtered by the text now in the box on the page, but by the last settled value in the model.
- The asynchronous `fetch` and its `catch` path: `LoadIcons` is the success callback. The inline error message on failure is not modelled.
- `Text.Lower`: lower-cases ASCII letters only. Python's `str.lower` and JavaScript's `toLowerCase` apply full Unicode case mapping, which can also change a string's length.
- `Paging.TotalPages`: JavaScript divides in floating point before `Math.ceil`. The model uses the exact integer ceiling, which agrees for every length below 2^53.
- The "readable alias" naming policy and the variant stylesheet without per-icon rules: neither appears in `generate_css.py`, and that variant is not part of this model.
