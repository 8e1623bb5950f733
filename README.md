# Audio library HTML export, modelled in Dafny

The Audio Library Exporter walks a music folder and reads each file's tags (album artist, artist, title, album, date, length). It looks for cover art next to each file and writes one HTML page. The page holds a table with seven columns: Cover, Album Artist, Artist, Track Name, Album Name, Year and Length. A click on a column header sorts the rows, alternating ascending and descending.

The project models this core and proves properties about it:

- `Duration`: `format_length`, which renders seconds as `M:SS` or `H:MM:SS`. `ClockValue` reads such a string back.
- `Paths`: the POSIX `basename`, `dirname`, `join` and `splitext` that the program relies on.
- `Cover`: `find_cover_image`. It tries `cover.jpg`, `folder.jpg`, `cover.png` and `folder.png` in that order, next to the file.
- `Metadata`: `extract_metadata`.
  - The tag library's answer for a path is a parameter: not audio, a failed read, or tags plus an optional stream length.
  - The model keeps the per-field defaults, including the artist fallback for a missing album artist.
  - It keeps the fallback record that a failure produces. A tag key present with an empty list raises in the program and lands in that fallback.
- `Collect`: `collect_metadata`. The walk is given as a sequence of directory steps. Non-audio files are dropped and visit order is kept.
- `Render`:
  - `html.escape` and `generate_html`'s row loop, plus the page template with the table head.
  - A parser of the generated row markup serves as the round-trip partner: rows read back give every record's escaped cells.
- `Report`: the two combined. The exported page lists exactly the collected records, in order.
- `SortToggle`: the header click handler's order toggle. `data-order` starts unset, then each click records `asc` or `desc`.

Files and tag data are parameters, so nothing in the model performs I/O.

## Model

| member | source | states |
|---|---|---|
| Duration.NatToString | generate_library_html_export.py:38-40 | the decimal text of an integer has no leading zero and starts with `0` only for zero |
| Duration.NatToStringValue | generate_library_html_export.py:38-40 | the decimal text of `n` reads back as `n` |
| Duration.Pad2 | generate_library_html_export.py:38-40 | `:02` padding gives exactly two digits |
| Duration.Pad2Value | generate_library_html_export.py:38-40 | `:02` padding gives two digits that read back as the value |
| Duration.FormatLength | generate_library_html_export.py:33-40 | a formatted length consists only of digits and colons |
| Duration.FormatLengthFields | generate_library_html_export.py:33-40 | under an hour there are two fields, otherwise three. The first field is unpadded and positive when hours are shown. Every later field has two digits and is below 60 |
| Duration.FormatLengthRoundTrip | generate_library_html_export.py:34-38 | the hours, minutes and seconds of the text add back up to the original number of seconds |
| Duration.FormatLengthExamples | generate_library_html_export.py:33-40 | 0 s is `0:00`, 61 s is `1:01`, 3661 s is `1:01:01` |
| Paths.LastIndexOf | generate_library_html_export.py:14 | the index of the last occurrence of a character, or -1 when it does not occur |
| Paths.Basename | generate_library_html_export.py:14 | the base name is the part after the last `/`, and it contains no `/` |
| Paths.StripTrailingSlashes | generate_library_html_export.py:43 | the result is a prefix that does not end in `/`, and only slashes were removed |
| Paths.Dirname | generate_library_html_export.py:43 | the directory is the part of the path before the base name, with its trailing slashes stripped unless that part is all slashes. It is empty exactly when the path has no `/` |
| Paths.Join | generate_library_html_export.py:47 | an absolute second part replaces the first. Otherwise the result is the first part, then one `/` exactly when the first part is non-empty and does not end in `/`, then the second part |
| Paths.SplitExt | generate_library_html_export.py:14 | stem and extension concatenate to the name. The extension is empty or a single dotted suffix. It is empty exactly when the name has no dot or only dots precede its last dot |
| Paths.Stem | generate_library_html_export.py:14 | the track-name default is the base name minus its extension. It is the whole base name exactly when no extension is split off, as for `.bashrc` |
| Cover.Candidates | generate_library_html_export.py:45-47 | there are four candidates. The one tried at step `2e + n` is name `n` with extension `e`, joined to the directory: extensions outer, names inner |
| Cover.CandidatesListed | generate_library_html_export.py:45-47 | the candidates are `cover.jpg`, `folder.jpg`, `cover.png`, `folder.png` in the file's directory, in that order |
| Cover.FirstExisting | generate_library_html_export.py:45-52 | the result is None exactly when no candidate exists. Otherwise it is the first existing candidate |
| Cover.CoverLookup | generate_library_html_export.py:42-52 | the cover is None exactly when none of the four candidates in the file's directory exists. Otherwise it is an existing candidate |
| Cover.FirstExistingAt | generate_library_html_export.py:49-50 | an existing candidate preceded only by missing ones is the one returned |
| Cover.FindCoverImage | generate_library_html_export.py:42-52 | the nested loops with early return give the first existing candidate, or None |
| Metadata.FirstTag | generate_library_html_export.py:12-16 | `get(key, [default])[0]` fails exactly when the key is present with no values. Otherwise it gives the key's first value, or the default when the key is absent |
| Metadata.FallbackTrack | generate_library_html_export.py:23-31 | the fallback record has length 0, the looked-up cover, and a track name that is a prefix of the base name without `/` |
| Metadata.TrackFromTags | generate_library_html_export.py:11-19 | the dictionary is built exactly when no read key holds an empty list. Its length is the stream length, or 0 without `info`, and its cover is the looked-up one |
| Metadata.ExtractMetadata | generate_library_html_export.py:5-31 | non-audio files give None and every other file gives a record. The cover always comes from the cover search. A failed read gives the fallback record. A missing stream length gives 0 |
| Metadata.ExtractDefaults | generate_library_html_export.py:11-19 | when no present tag list is empty, each field is the tag's first value or its default. A missing album artist falls back to the artist, then to `Unknown Album Artist`. A missing title falls back to the file's stem |
| Metadata.ExtractEmptyTag | generate_library_html_export.py:12-16 | a present but empty tag list makes the lookup raise, and the result is the fallback record |
| Metadata.ExtractReadError | generate_library_html_export.py:21-31 | the fallback record has the unknown defaults, the stem as track name, length 0 and the looked-up cover |
| Collect.StepPathsExtend | generate_library_html_export.py:57-58 | the paths of a directory step grow one joined file name at a time |
| Collect.CollectMetadata | generate_library_html_export.py:54-62 | the loops collect the non-None extraction results of the walked paths, in visit order |
| Collect.ResultsSnoc | generate_library_html_export.py:57-59 | one more path adds its extraction result at the end |
| Collect.Somes | generate_library_html_export.py:60-61 | the kept values are no more than the entries, and each is carried by some entry |
| Collect.Collected | generate_library_html_export.py:55-62 | there are no more collected records than paths |
| Collect.SomesAppend | generate_library_html_export.py:59-61 | filtering a concatenation concatenates the filtered parts |
| Collect.SomesLength | generate_library_html_export.py:59-61 | filtering keeps at most every entry, and keeps all of them when none is None |
| Collect.SomesMembers | generate_library_html_export.py:59-61 | a value is kept exactly when some entry carries it |
| Collect.CollectedAppend | generate_library_html_export.py:56-61 | collecting two runs of paths gives the two collections one after the other |
| Collect.CollectedMembers | generate_library_html_export.py:59-61 | a record is collected exactly when some visited path extracts to it |
| Collect.CollectedLength | generate_library_html_export.py:55-62 | there is at most one record per visited path, and exactly one per path when every path is audio |
| Render.Escape | generate_library_html_export.py:152-159 | escaped text contains no `<`, `>`, `"` or `'`, and is never shorter than the input |
| Render.EscapeCharCases | generate_library_html_export.py:155-159 | a character changes exactly when it is `&` or one of `<>"'`. It then becomes a reference that starts with `&`, ends with `;` and holds no unsafe character |
| Render.EscapeAmpersands | generate_library_html_export.py:155-159 | every `&` in escaped text begins one of the five entities |
| Render.UnescapeEscapeChar | generate_library_html_export.py:155-159 | decoding an escaped character followed by any text gives back the character and the decoded text |
| Render.EscapeRoundTrip | generate_library_html_export.py:155-159 | decoding escaped text gives back the original text |
| Render.FindCloseMarkAfter | generate_library_html_export.py:154-160 | the first cell terminator after an escaped cell is the one that closes it |
| Render.CellStep | generate_library_html_export.py:154-160 | a cell whose content holds no terminator is read back as that content, and parsing goes on after its `</td>` |
| Render.CellsRoundTrip | generate_library_html_export.py:153-161 | the markup of escaped cells parses back to those cells |
| Render.CoverCell | generate_library_html_export.py:152 | the cover cell is empty exactly when the cover is missing or empty. Otherwise it is an `img` element whose single-quoted `src` holds no quote |
| Render.CoverCellMeaning | generate_library_html_export.py:152 | a present cover's `src` value decodes to the cover path |
| Render.RowCells | generate_library_html_export.py:153-160 | a row has one cell per header label. The five text cells hold no unsafe character, and the length cell holds only digits and colons |
| Render.Row | generate_library_html_export.py:153-161 | the markup of one record parses back to exactly its seven cells |
| Render.CoverCellSafe | generate_library_html_export.py:152 | the cover cell holds no cell terminator |
| Render.RowCellsSafe | generate_library_html_export.py:152-160 | no cell of a row holds a cell terminator |
| Render.SafeTableTail | generate_library_html_export.py:151-161 | a safe table stays safe without its first row |
| Render.RowMarkupThen | generate_library_html_export.py:153-161 | a row's markup followed by more text parses as that row, then the rest |
| Render.RowsOfRoundTrip | generate_library_html_export.py:150-161 | concatenated row markup of safe rows parses back to the rows |
| Render.RowsRoundTrip | generate_library_html_export.py:150-161 | the rows of a record list parse back to one row of cells per record, in order |
| Render.RowCellsMeaning | generate_library_html_export.py:152-160 | there are seven cells, one per header label. The cover cell is empty exactly when the cover is missing or empty, and otherwise holds an image whose source decodes to the cover path. The five text cells decode to their fields and hold no unsafe character. The length cell reads back as the length |
| Render.RowsOfSnoc | generate_library_html_export.py:151-161 | adding a row at the end appends its markup |
| Render.RowsSnoc | generate_library_html_export.py:151-161 | one loop iteration appends one record's row markup |
| Render.CellsMarkupSnoc | generate_library_html_export.py:154-160 | adding a cell at the end appends its markup |
| Render.AppendCell | generate_library_html_export.py:154-160 | one more `+=` of a cell extends the partial row by that cell |
| Render.RowChain | generate_library_html_export.py:153-161 | the eight appends of one iteration add exactly the row markup of the cells |
| Render.AppendRow | generate_library_html_export.py:152-161 | the body of the loop appends the record's row markup to the rows so far |
| Render.PageSlices | generate_library_html_export.py:163 | `Page`, the template filled in: its fixed start and end surround the rows, which are inserted unchanged |
| Render.PageRoundTrip | generate_library_html_export.py:130-148 | the page starts with the template head and table head and ends with the closing markup. What lies between parses back to one row per record |
| Render.GenerateHtml | generate_library_html_export.py:150-163 | the loop plus the template fill give the template with every record's row in list order |
| Report.PageBodyOf | generate_library_html_export.py:163 | the body of any list's page reads back as its table |
| Report.CollectedFrom | generate_library_html_export.py:54-62 | every collected record comes from some path, and there are no more records than paths |
| Report.ReportHoldsFor | generate_library_html_export.py:180-183 | the page made from the records collected over any paths lists exactly those records, in order |
| Report.ReportRows | generate_library_html_export.py:180-183 | the page `main` writes lists one row per audio file found by the walk, in visit order, each the record of a visited path |
| SortToggle.Recorded | generate_library_html_export.py:120 | after a click the order is set, and it is `asc` exactly when the click sorted ascending |
| SortToggle.ClicksAlternate | generate_library_html_export.py:109-120 | the first click on a header sorts ascending and the clicks then alternate. After n clicks the order is unset, `asc` or `desc` by n's parity |
| SortToggle.Header.constructor | generate_library_html_export.py:105-106 | a header starts with no recorded order |
| SortToggle.Header.Click | generate_library_html_export.py:107-120 | a click sorts ascending unless the recorded order is `asc`, and records the direction it used |

## Left out

- The tag library (`mutagen.File`) and its format detection are not modelled. A per-path `Probe` value stands in for them: `NotAudio`, `ReadError`, or tags plus an optional stream length.
- Any other exception inside the `try` block is covered only through `ReadError`: a failed read and any other failure of the tag library both give the same fallback.
- The stream length is a float in the source. The model takes it as a natural number of whole seconds, so `Duration.FormatLength` states nothing about fractional or negative lengths. Every field of the source's output comes from `int(...)` of the floored parts, so only the whole-second value matters for non-negative lengths.
- Only a missing `info` attribute is `Audio(tags, None)`, which gives length 0. An `info` without `length` raises `AttributeError` inside the `try`, so it is a `ReadError`, and the record is the fallback one.
- `os.walk` and `os.path.isfile` are not modelled as file-system calls. The walk is a sequence of `(root, files)` steps in the order the walk yields them, and the set of existing files is a parameter.
- Printing, the error message of the `except` branch, `input`, and writing `output.html` are I/O and are left out.
- `main` itself is not modelled: quote stripping, `normpath`, the `isdir` check and the output file. `Report.ReportRows` states what it writes in terms of the two modelled calls.
- Paths follow POSIX `posixpath` semantics only. Windows path rules (`ntpath`) are not modelled.
- Duration.Pad2Value: the `:02` format is modelled only for values below 100, the only values minutes and seconds can take.
- The sort comparator is not modelled: trimming, the `isNaN` test, numeric subtraction and `localeCompare`. It relies on JavaScript number parsing and locale collation.
- Because the comparator is left out, no claim is made that the rows end up sorted. Only the direction toggle is modelled.
- Re-inserting the sorted rows into the DOM, the event wiring for several headers, and the CSS part of the template are left out. The CSS and script appear in the page text but are not reasoned about.
- `html.escape` is modelled character by character on Unicode code points. Encoding the page as UTF-8 is not modelled.
