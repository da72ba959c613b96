# Figma image exporter: a Dafny model

This project models the logic of the Figma image exporter. The exporter turns
Figma share links into rendered PNG images in two steps:

1. It pulls the file id and node id out of each link.
2. It asks Figma's image-rendering endpoint for a URL and downloads the image
   under a sanitised file name.

The model covers both scripts of the repository:

- **figma_tui.py**: the batch exporter with a curses front end. The model
  covers the URL extractor and the `get_image_url` resolution rule, the
  link-resolution pass `process_urls` and the download pass
  `download_images`. It also covers the checkbox selection screen, the
  prompt truncation of the input dialog and the `load_config` merge of the
  settings.
- **main.py**: the one-shot interactive script. The model covers its stricter
  `get_image_url`, the frame listing of `get_file_info`, the yes/no rule that
  picks the node id, and the flow of `main`.

Modules:

- `Common`: Python's `None`-or-value, string truthiness and an
  order-preserving filter-and-map.
- `FigmaUrl`: `extract_file_id_from_url`. Both scripts define it with the same
  two patterns, so one model serves both. The patterns are modelled as direct
  leftmost searches over the characters of the URL.
- `ImageApi`: the request sent to the endpoint, an abstract response, and the
  key-lookup rule. The lookup tries the original node id first, then the id
  with `-` rewritten to `:`.
- `Exporter`: the batch passes and the settings class of figma_tui.py.
- `ExporterTui`: the checkbox screen, as a class with a `selected` array, a
  cursor and a scroll offset, driven by key events. Also the prompt
  truncation.
- `ManualScript`: main.py.

External effects are parameters:

- `fetch` answers an image request with a `Response`: either a transport
  failure or a decoded body.
- `download` says whether streaming one URL into one file succeeded.
- The config file, the page tree of `get_file_info`, the console answers and
  the key codes of `getch` are inputs.

Some behaviour of the code that a reader might not expect, which the
model keeps:

- `if data.get("err")` tests truthiness. An empty `err` string is therefore
  not an error.
- The resolver does not report distinct error kinds. An API error, a missing
  key and a transport failure all become `None`.
- `process_urls` returns `[]` both when nothing was loaded and when every
  record failed. Only the printed message differs.
- figma_tui.py's `get_image_url` returns the stored value as it is, even
  `null` or `""`. `process_urls` then drops such values by truthiness.
  main.py rejects them inside `get_image_url` itself.

One behaviour of the code is recorded by a lemma rather than corrected. On a
terminal narrower than 15 columns, the cut index of the input dialog's prompt
is negative. Python then counts it from the end of the prompt, so the prompt
that is drawn can be longer than the room the dialog leaves for it
(`ExporterTui.TruncatePrompt` gives its exact length,
`ExporterTui.NarrowScreenPromptOverflows` an instance). Likewise, on a terminal
of 8 rows or fewer the display height is not positive and the scroll rule
moves the offset past the cursor (`ExporterTui.AdjustedOffset`).

## Model

| member | source | states |
|---|---|---|
| FigmaUrl.FileIdOf | figma_tui.py:138-144 | `None` exactly when no position holds a marker followed by 22 ASCII alphanumerics; otherwise the 22 characters after the leftmost such match |
| FigmaUrl.NodeIdOf | figma_tui.py:141-145 | `None` exactly when no `node-id=` is followed by a non-`&` character; otherwise the capture at the leftmost match, non-empty and free of `&` |
| FigmaUrl.Extract | figma_tui.py:136-147 | the pair of both searches: file id of length 22, all alphanumeric; node id non-empty without `&`; each `None` exactly when its pattern matches nowhere |
| FigmaUrl.FileIdAfterPrefix | figma_tui.py:138-139 | in a URL `p + marker + id + rest` where no match starts inside `p`, the file id is exactly the 22 alphanumerics after the `figma.com/file/` or `figma.com/design/` marker, whatever follows them |
| FigmaUrl.FileIdAfterPlainPrefix | figma_tui.py:138-139 | the same for any prefix without the letter `f`, such as `https://www.` |
| FigmaUrl.NodeIdAfterQuery | figma_tui.py:141-142 | after the first `node-id=` of the URL, whatever query parameters precede it, the node id is taken verbatim up to the next `&` or the end, with no decoding and no `-` rewriting |
| FigmaUrl.NoMarkerWithoutEquals | figma_tui.py:141 | a stretch of the URL without `=` holds no `node-id=` |
| FigmaUrl.NoFileMatchBefore | figma_tui.py:138-139 | no file match starts in a stretch of the URL without the letter `f`, since both markers begin with it |
| FigmaUrl.FileIdOfLeftmost | figma_tui.py:138-144 | the file id is the 22-character capture at the leftmost match |
| FigmaUrl.FileIdAfterMarker | figma_tui.py:138-144 | with a marker at position `i`, 22 alphanumerics after it and no match starting before `i`, the file id is exactly those 22 characters, whatever follows |
| FigmaUrl.ExtractDesignLink | main.py:10-23 | a browser-style design link `https://www.figma.com/design/<id>/<title>?node-id=<node><rest>` yields exactly its 22-character file id and its node id, `-` kept, for any title without `=` and any further query parameters |
| ImageApi.FormatNodeId | figma_tui.py:154-155 | the id sent to the API has the node id's length, every `-` becomes `:` and every other character is kept; no `-` remains |
| ImageApi.FormatNodeIdIdempotent | figma_tui.py:154 | rewriting an already rewritten id changes nothing |
| ImageApi.FormatNodeIdUnchangedIff | figma_tui.py:166-171 | the two keys tried are the same exactly when the node id has no `-` |
| ImageApi.BuildRequest | figma_tui.py:151-155 | the request goes to the images endpoint of the file with the token; its ids are the node id with every `-` rewritten to `:`; format `png` and scale 1 |
| ImageApi.LookupImage | figma_tui.py:166-173 | the original key wins whenever present; the rewritten key is only a fallback; with neither key the result is `None` |
| ImageApi.ImageEntry | figma_tui.py:157-177 | a transport failure or a truthy `err` yields `None` whatever `images` holds; otherwise the result is the key lookup |
| ImageApi.OriginalKeyWins | main.py:117-122 | with both `1:2` and `1-2` present, node id `1-2` gets the value under `1-2` |
| ImageApi.RewrittenKeyFallback | main.py:117-122 | with only `1:2` present, node id `1-2` gets the value under `1:2` |
| Exporter.GetImageUrl | figma_tui.py:149-177 | failure or a truthy `err` gives `None`; otherwise the raw value under the original key, else under the rewritten key, else `None` |
| Exporter.RequestFor | figma_tui.py:219-222 | a request is sent for a record exactly when both ids were extracted from its URL (`""` when the key is absent), and it is the request `get_image_url` builds from those ids and the token |
| Exporter.ResolveRecord | figma_tui.py:214-235 | a record yields an entry exactly when both ids were extracted and the resolved URL is truthy; the entry keeps the record's name (default `Unknown`) and its URL as `original_url` |
| Common.FilterMap | figma_tui.py:214-235 | the loop that appends what each record yields: never longer than its input (its order is stated by FilterMapIsOrderedFilter) |
| Common.KeptIndices | figma_tui.py:214-235 | the positions of the records that yield an entry: strictly increasing, in range, and a position is listed exactly when its record yields an entry |
| Common.FilterMapIsOrderedFilter | figma_tui.py:214-235 | the loop's output has one entry per kept position, and the k-th entry is what the k-th kept record yields |
| Common.FilterMapSnoc | figma_tui.py:214-235 | one more iteration appends exactly what the next record yields, if anything |
| Common.FilterMapAppend | figma_tui.py:214-235 | the loop treats records independently: the output for `a + b` is the output for `a` followed by that for `b` |
| Common.FilterMapSkip | figma_tui.py:230-233 | a record that yields nothing leaves no trace in the output |
| Exporter.ResolveAllIsOrderedFilter | figma_tui.py:195-243 | `process_urls`'s output is at most as long as its input; each entry's name and `original_url` come from the input record at an increasing position; its URL is non-empty |
| Exporter.KeptRecordsWereRequested | figma_tui.py:221-229 | every kept record cost one API request, so there are at least as many requests as entries |
| Exporter.FailedRecordIsSkipped | figma_tui.py:230-233 | a record that cannot be resolved can be removed from the input without changing the output |
| Exporter.ResolveAll | figma_tui.py:195-243 | the list `process_urls` returns: the records' entries in input order, never more than the records |
| Exporter.RequestsSent | figma_tui.py:219-222 | the requests `process_urls` sends: never more than the records (which requests and in what order is stated by RequestsSentIsOrderedFilter) |
| Exporter.RequestsSentIsOrderedFilter | figma_tui.py:214-222 | the k-th request sent is the request for the k-th record with both ids, those records' positions increase, and a record gets a request exactly when both ids were extracted from its URL |
| Exporter.ResolveItem | figma_tui.py:214-235 | one loop body sends the request `RequestFor` describes and appends the entry `ResolveRecord` describes, each only when it exists |
| Exporter.ResolveAllSnoc | figma_tui.py:214-235 | handling one more record extends both the entries and the requests by that record's own entry and request |
| Exporter.ProcessItem | figma_tui.py:214-235 | after one more iteration the entries and requests so far are those of the first `i + 1` records |
| Exporter.ProcessUrls | figma_tui.py:195-243 | the loop computes exactly the ordered filter-and-map of the records and sends exactly one request per record with both ids; empty input sends nothing and returns `[]` |
| Exporter.SanitizeName | figma_tui.py:271 | same length; every character is a word character, `-` or `.`; each position holds the original character or `_`; safe characters are kept |
| Exporter.SanitizeIdempotent | figma_tui.py:271 | sanitising twice equals sanitising once |
| Exporter.SanitizeUnchangedIff | figma_tui.py:271 | a name is left unchanged exactly when all its characters are safe |
| Exporter.FileNameFor | figma_tui.py:271-272 | the file name is the sanitised base followed by `.png` |
| Exporter.ExampleFileName | figma_tui.py:271-272 | `Icon/Set #1` is saved as `Icon_Set__1.png` |
| Exporter.NamesMayCollide | figma_tui.py:271-272 | `a/b` and `a b` map to the same file, so the second download overwrites the first |
| Exporter.Attempts | figma_tui.py:264-274 | one download per item, in order, with the item's URL and sanitised file name |
| Exporter.SuccessCount | figma_tui.py:251-276 | the number of successful downloads is at most the number of items |
| Exporter.SuccessCountAppend | figma_tui.py:272-275 | successes of a concatenation add up |
| Exporter.SuccessCountAll | figma_tui.py:280-281 | the count equals the list length exactly when every download succeeded |
| Exporter.SuccessCountNone | figma_tui.py:280-283 | the count is zero exactly when every download failed |
| Exporter.DownloadImages | figma_tui.py:245-283 | attempts exactly one download per item in order; `success_count` is the number that succeeded and is at most the list length; empty input attempts nothing |
| Exporter.Settings.constructor | figma_tui.py:70-83 | the settings are the arguments merged with the config file by the `load_config` rule |
| Exporter.Settings.LoadConfig | figma_tui.py:85-99 | a truthy token is kept, otherwise it becomes the file's `figma_token` (default `""`); every other setting takes the file's value when the key is present; a missing or malformed file changes nothing |
| ExporterTui.CommandOf | figma_tui.py:540-552 | each command is chosen by exactly its keys: `q`/`Q` cancel, Down/`j`/`J` and Up/`k`/`K` move, Space toggles one, `a`/`A` toggles all, newline confirms, any other key is ignored |
| ExporterTui.CheckedItems | figma_tui.py:554 | the comprehension over `enumerate(selected)`: never longer than the list (which items and in what order is stated by CheckedItemsInOrder) |
| ExporterTui.CheckedItemsInOrder | figma_tui.py:552-554 | Enter returns the items at the checked positions in list order, and every checked position contributes |
| ExporterTui.CheckedItemsAll | figma_tui.py:548-554 | with every flag set, Enter returns the whole list |
| ExporterTui.CheckedItemsNone | figma_tui.py:552-554 | with no flag set, Enter returns `[]` |
| ExporterTui.AdjustedOffset | figma_tui.py:502-505 | with a positive display height the cursor lies in the window after adjustment; a visible cursor does not scroll; a cursor above the window becomes its top row; a cursor at or below the window's end becomes its last row, `pos - height + 1`, at any height, even one that is not positive |
| ExporterTui.RowCount | figma_tui.py:508-511 | `min(display_height, len(items) - offset)` rows, none when that is not positive: never more than the display height or past the list, a positive count equals one of the two, and it is zero only when the height is not positive or no item remains |
| ExporterTui.CursorRowDrawn | figma_tui.py:502-511 | after the scroll rule the cursor's item is among the rows drawn |
| ExporterTui.CheckboxSelection.constructor | figma_tui.py:485-488 | every flag is cleared, and the cursor and scroll offset are 0 |
| ExporterTui.CheckboxSelection.AdjustScroll | figma_tui.py:499-505 | the new offset is the scroll rule applied to the cursor; the cursor is then inside the window |
| ExporterTui.CheckboxSelection.MoveDown | figma_tui.py:542-543 | the cursor moves down one row and wraps from the last item to the first; the invariant is kept |
| ExporterTui.CheckboxSelection.MoveUp | figma_tui.py:544-545 | the cursor moves up one row and wraps from the first item to the last, as Python's non-negative `%` does |
| ExporterTui.CheckboxSelection.ToggleCurrent | figma_tui.py:546-547 | only the flag under the cursor flips |
| ExporterTui.CheckboxSelection.ToggleAllFlags | figma_tui.py:548-551 | every flag becomes `not all(selected)`: all set unless all were set, then all cleared |
| ExporterTui.CheckboxSelection.HandleKey | figma_tui.py:540-554 | `q` returns `[]`; `j`/`k` move the cursor by one, wrapping modulo the list length; Space flips only the current flag; `a` sets every flag to `not all(selected)`; Enter returns the checked items; an empty list raises on `j`, `k` and Space |
| ExporterTui.Select | figma_tui.py:481-554 | a returned list is the checked subsequence for some choice of flags; in the model only an empty list raises (drawing errors are left out); with no key the screen is still waiting |
| ExporterTui.PrefixSlice | figma_tui.py:688 | `s[:k]` is always a prefix of `s`: of length `min(k, len(s))` for `k >= 0`, and `len(s) + k` (at least 0) for a negative `k`, counted from the end |
| ExporterTui.DialogWidth | figma_tui.py:653 | `min(width - 8, 70)`: at most 70, at most `width - 8`, and equal to one of them |
| ExporterTui.TruncatePrompt | figma_tui.py:684-688 | a prompt that fits is kept; otherwise it ends in `...` after a prefix of itself; when the dialog leaves room for the ellipsis it fills exactly the dialog's room for the prompt, its width less 4; on narrower screens the negative cut index keeps `len(prompt) + room - 3` characters (at least 0) before the `...` |
| ExporterTui.NarrowScreenPromptOverflows | figma_tui.py:684-688 | on a 14-column screen a 10-character prompt is drawn as 12 characters in a 2-column space |
| ManualScript.GetImageUrl | main.py:90-137 | the result is never empty; it is present exactly when the lookup finds a truthy URL, and then it is that URL |
| ManualScript.StricterThanExporter | main.py:128-133 | main.py's resolver answers `u` exactly when figma_tui.py's answers a truthy `u` |
| ManualScript.Frames | main.py:64-70 | every frame listed is of type `FRAME`, and there are no more of them than children (completeness and order: FramesInOrder) |
| ManualScript.FramesInOrder | main.py:55-70 | the frames are exactly the children of type `FRAME`, in their order: the k-th frame is the child at the k-th such position, and a child is kept exactly when its type is `FRAME` |
| ManualScript.ListedFrames | main.py:53-62 | the printed frames are a prefix of the page's frames, at most 10 long: all of them when there are at most 10, exactly 10 otherwise; none without `children` |
| ManualScript.RemainingNotice | main.py:62-75 | the notice appears exactly when the page has more than 10 frames, and it reports the frames left unprinted (`total - 10`) |
| ManualScript.FramesSplit | main.py:55-59 | the frames of a list are those of a prefix followed by those of the rest |
| ManualScript.ListedAtTenth | main.py:55-75 | once ten frames are counted among the first `n` children, those ten are the listed frames and the notice reports the frames after them |
| ManualScript.ListFrames | main.py:53-75 | the loop with its counter and early `break` prints exactly the listed frames and the notice above |
| ManualScript.GetFileInfo | main.py:26-87 | a failed request yields `None` and lists nothing; otherwise the pages are returned and each page is listed by the frame rule |
| ManualScript.Lower | main.py:168 | `lower()` keeps the length, leaves no ASCII capital, maps each capital to its small letter and keeps every other character |
| ManualScript.StripBounds | main.py:169 | `strip()` cuts only whitespace, and stops at the first and last non-whitespace characters |
| ManualScript.IsSpace | main.py:169 | the characters `str.isspace` accepts and `strip()` removes: the ASCII controls 9-13 and 28-31, space, U+0085, U+00A0, U+1680, U+2000-U+200A, U+2028, U+2029, U+202F, U+205F, U+3000 |
| ManualScript.Strip | main.py:169 | the stripped answer is a slice with only whitespace outside it, has no whitespace at either end, and is empty exactly for an all-whitespace answer |
| ManualScript.StripPadded | main.py:169 | stripping a word padded with whitespace gives back the word |
| ManualScript.LowerPadded | main.py:168-169 | lowering a padded answer leaves the whitespace padding alone and lowers the word |
| ManualScript.AcceptsPaddedYes | main.py:165-172 | `y` or `yes` in any capitalisation, with any whitespace around it, and a blank answer all select the URL's node id |
| ManualScript.LowerSlice | main.py:168 | lowering commutes with slicing |
| ManualScript.AcceptedAnswerShape | main.py:171-176 | an accepted answer is whitespace around nothing or around a capitalisation of `y` or `yes` |
| ManualScript.RejectsPaddedOther | main.py:165-176 | any other word, capitalised as it may be and padded with whitespace, makes the script ask for a node id |
| ManualScript.AcceptsUrlNodeId | main.py:166-171 | the answer is compared after `lower()` then `strip()` with `y`, `yes` and the empty string (both directions proved by AcceptsPaddedYes, RejectsPaddedOther and AcceptedAnswerShape) |
| ManualScript.ChooseNodeId | main.py:165-180 | the URL's node id when it is truthy and the answer accepts it, otherwise the typed id; the choice is empty exactly when the typed id is empty and was used |
| ManualScript.Run | main.py:140-196 | no truthy token stops at once; otherwise a URL without a file id is rejected; otherwise a failed file request, and only that, ends with no file info; otherwise an empty chosen node id, and only that, ends with no node id; otherwise the run renders exactly the resolver's answer for the chosen id, or reports no image exactly when it has none; the chosen id is the URL's when accepted, otherwise the typed one |

## Left out

- HTTP traffic is not modelled: `requests.get`, `raise_for_status`, `.json()` and the streamed writes of `download_image`. The `fetch` and `download` parameters stand in for them. Each is a fixed function, so the same request always gets the same answer.
- curses and rich rendering are not modelled: coordinates, borders, highlighting, the counter line, progress bars and tables. The `getch` and `get_single_key_input` terminal handling is left out too; key codes are an input.
- The other screens and loops of figma_tui.py are not modelled, because they are menu wiring around the modelled passes: `show_main_menu_curses`, `curses_settings`, `curses_get_urls`, `curses_download_selected`, `curses_download_all`, `run`, `run_fallback` and `main`.
- File I/O is not modelled: `save_config`, `load_urls`, `save_image_urls`, reading the config file and creating the assets directory.
- Printed messages, the per-page header lines of `get_file_info`, `argparse` and the environment lookup of `FIGMA_TOKEN` are not modelled. They print or gather inputs without changing results.
- `images: null` in an API body is not modelled. The lookup then raises `TypeError`, which the scripts do not catch. JSON values of an unexpected type are not modelled either, such as a non-string `name` or a non-object config or record; the scripts crash on them.
- Exporter.IsWordChar: `\w` is taken as ASCII `[A-Za-z0-9_]`. Python 3's `\w` also keeps non-ASCII letters and digits, so `Exporter.SanitizeName` replaces more characters than the script does for such names.
- ManualScript.Lower: lowers ASCII letters only. Python's `str.lower` also lowers other scripts. This leaves the yes/no decision unchanged, but `Lower` itself is weaker than `str.lower`.
- ManualScript.GetFileInfo: a body missing `name`, `document`, a page's `name`/`id` or a child's `type` makes the script return `None` through its catch-all handler. The model assumes these keys are present.
- ExporterTui.Select: drawing errors are not modelled. `curses.error` raised by `addstr` on a very small terminal (the title at a negative column when the width is under 11, the status line at a negative row when the height is under 4, the help line past the last row) is not an outcome of the model.
- ExporterTui.Select: the outcome `Waiting` stands for the screen still waiting when the given keys run out. The ghost choice of flags in its contract is existential; the exact flags are stated by `HandleKey`.
- Exporter.Settings.constructor: the defaults of `FigmaImageExporter.__init__` (token `None`, `figma_urls.json`, `figma_images.json`, `assets`) are not modelled; every field is passed explicitly.
- ExporterTui.CheckboxSelection.HandleKey: the source rebinds `selected` to a fresh list on `a`. The model overwrites the array in place, which is the same because no other reference to the list exists.
