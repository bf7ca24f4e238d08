# Viral faceless shorts generator: the render job, its text transforms and the sentence segmenter

The repository turns a trending search topic into a short vertical video.
Two services hold the logic modelled here:

- **trendscraper** (`trendscraper/src/index.js`, an Express service).
  - `/scrape` spots the CSV export that the browser downloaded and turns
    its rows into trend records.
  - `/generate` cuts a JSON object out of a language model's reply.
  - `/burn` renders the video. It validates the request and creates a
    per-job workspace `/tmp/<uuid>`. It picks a background clip (named
    explicitly, or drawn at random among the `default_` files) and a
    start offset into it. It converts the subtitles to ASS and rewrites
    every `Style:` line. It forces `WrapStyle: 0`. Then it encodes, streams
    the result and removes the workspace.
- **speechalign** (`speechalign/app.py`, a Flask service).
  - `smart_split` cuts a narration text into subtitle chunks. It cuts
    after `". "`, `", "`, `"; "` and `": "`, trims the pieces and drops
    empty ones. It then halves every chunk longer than six words until
    none is.

The Dafny project, module by module:

- `Strings`: JavaScript `indexOf`/`lastIndexOf`, `startsWith`/`endsWith`.
- `PyText`: Python `str.split()`, `strip()` and `' '.join` over
  `seq<char>`, and the word list of a list of chunks.
- `SmartSplit`: the segmenter. The separator pass is a loop over the
  regular-expression split with a buffer, proved equal to a reference
  cut after every separator. The chunk halving is a `while changed`
  loop, proved to terminate, to keep every word, and to leave no chunk
  over the bound.
- `Ass`: the two in-place `sed` edits of the subtitle file. They are
  pure functions on the file's lines and methods of class `AssFile`,
  which holds those lines.
- `Js`: the JavaScript values a JSON request body can hold, their
  truthiness, and the text a template literal writes for them.
- `Burn`: the `/burn` handler.
  - `Burn` is a function from request and environment to outcome.
  - `BurnJob` is a class whose `Handle` method follows the handler
    statement by statement and changes the job's workspace state.
  - `Serve` runs a job until its stream closes.
  - Everything the handler asks of the outside world is a field of
    `Env`: the uuid, whether the file writes succeed, the directory
    listing, the set of existing paths, `ffprobe`, the two
    `Math.random()` draws, the converted ASS lines, and whether the two
    `sed` commands and the encode succeed.
- `Generate`: the JSON slice of `/generate`.
- `Scrape`: the new-CSV detection, its polling loop, and the row mapping.

The model follows the code as written, including where it behaves
differently from what its own names and structure suggest:

- A request naming a video that does not exist gets a 404, and its
  workspace is never removed: `trendscraper/src/index.js:195` returns
  without calling `cleanup`. Every other exit after the directory is made
  calls it, either in the catch block or when the output stream closes.
  `Burn.Serve` proves that the 404 path is the only one that leaves the
  directory behind.
- The request field named `outline` lands in field 18 of the style line.
  That is `Shadow` in the ASS v4+ `Format` order. Field 17, `Outline`, is
  the constant `2`. `Ass.StyleLineFields` states the field positions as
  written.
- `fontsize` and `outline` are never validated. A string is written into
  the style line as it is, and an explicit `null` is written as `null`,
  since the destructuring default applies only to `undefined`.
- Every line beginning `Style:` is replaced, not just the first.
- The `WrapStyle` pattern is not anchored. Any line containing
  `WrapStyle` anywhere is cut at its first occurrence, and
  `WrapStyle: 0` replaces the rest.
- When `ffprobe` prints something that is not a number, `parseFloat`
  gives NaN, `Math.max(NaN, 0)` is NaN and `NaN > 0` is false. The
  offset is then 0 and the job goes on.
- An explicit `video` that is truthy but not a string (a number, an
  array) makes `path.join` throw. The result is a 500 with cleanup, not
  a 404.
- A truthy `audio` that is a number or a boolean makes `Buffer.from`
  throw, and a truthy `subtitles` that is not a string makes
  `writeFileSync` throw. Both are a 500 with cleanup, whatever the video.

## Model

| member | source | states |
|---|---|---|
| Strings.Find | trendscraper/src/index.js:152 | `indexOf`: the result is -1 or an index where the pattern occurs, and no occurrence comes before it |
| Strings.FindLast | trendscraper/src/index.js:152 | `lastIndexOf`: the result is -1 or an index where the pattern occurs, and no occurrence comes after it |
| PyText.Words | speechalign/app.py:46 | every element of `str.split()` is a non-empty run of non-whitespace characters |
| PyText.WordsAppend | speechalign/app.py:46 | splitting a concatenation whose seam is at whitespace gives the two word lists one after the other |
| PyText.Strip | speechalign/app.py:42 | `strip()` leaves no whitespace at either end, keeps the word list, and is empty exactly when the text has no words |
| PyText.Join | speechalign/app.py:63-64 | `' '.join` of a word list; stated by `WordsOfJoin` and `Halves` |
| PyText.WordsOfJoin | speechalign/app.py:63-64 | splitting the single-space join of a word list gives back that list |
| PyText.FlatWordsAppend | speechalign/app.py:72-74 | the word list of a list of chunks distributes over list concatenation |
| SmartSplit.SeparatorsCutAtSpace | speechalign/app.py:35 | each of the four separators is non-empty and ends in a space |
| SmartSplit.ReSplit | speechalign/app.py:20 | the regular-expression split on the escaped separator in a capture group: text between leftmost occurrences, each occurrence kept; `ReSplitStep` states its first step and `FlushReSplit` ties it to the reference cut |
| SmartSplit.FlushReSplit | speechalign/app.py:20-31 | the buffer walk over the regular-expression split, pieces and separators alike, gives the reference cut after every separator |
| SmartSplit.SplitWithSeparator | speechalign/app.py:17-31 | the loop's parts are exactly the reference cut after every separator |
| SmartSplit.CutAfterParts | speechalign/app.py:17-31 | the parts concatenate back to the input, none is empty, all but possibly the last end with the separator, and the separator occurs in a part only at its end |
| SmartSplit.CutAfterWords | speechalign/app.py:17-31 | for a separator ending in whitespace, the parts' words are exactly the input's words |
| SmartSplit.CutEachKeeps | speechalign/app.py:36-38 | one separator pass over all chunks keeps the concatenation and the word list of the whole list |
| SmartSplit.CutAllKeeps | speechalign/app.py:35-39 | the passes for a list of separators, in order, keep the concatenation and the word list |
| SmartSplit.SplitMajor | speechalign/app.py:34-39 | step 1 applies the passes for `". "`, `", "`, `"; "`, `": "` in that order; the pieces concatenate to the text and hold its words |
| SmartSplit.Clean | speechalign/app.py:42 | the clean-up leaves only non-empty, trimmed chunks and loses no word |
| SmartSplit.CleanKeepsBound | speechalign/app.py:77 | the final clean-up keeps every chunk within the word bound |
| SmartSplit.WordsPerPart | speechalign/app.py:61-62 | the number of parts and the words per part; stated by `PartSizes` |
| SmartSplit.PartSizes | speechalign/app.py:61-62 | for a chunk of more than `avg_words` words, the words per part lie in [1, w), so both halves are non-empty |
| SmartSplit.CeilingBounds | speechalign/app.py:62 | dividing at least two words into at least two parts, rounding up, gives at least one and fewer than all words per part |
| SmartSplit.Halves | speechalign/app.py:63-64 | re-splitting the two joined halves gives back the two halves of the word list, and the second half is non-empty |
| SmartSplit.SplitOne | speechalign/app.py:57-68 | one chunk is split exactly when it has more than `avg_words` words, into two pieces with words; the pieces hold the chunk's words and a short chunk comes back unchanged |
| SmartSplit.SplitRound | speechalign/app.py:55-69 | one round keeps the word list and grows the list by at least one when it changed; an unchanged round means every chunk is within the bound and the list is the same |
| SmartSplit.SplitChunk | speechalign/app.py:45-70 | `split_chunk` terminates; every chunk has at most `avg_words` words; the chunks hold exactly the chunk's words; a short chunk is returned alone and unchanged |
| SmartSplit.SmartSplit | speechalign/app.py:14-79 | every final chunk is non-empty and trimmed and has at most 6 words, and the chunks' words are exactly `text.split()` |
| Ass.StyleValues | trendscraper/src/index.js:200 | the replacement style line has one value per name of the 23-field v4+ `Format` |
| Ass.SplitJoin | trendscraper/src/index.js:200 | splitting a comma-joined list of comma-free values at commas gives the values back |
| Ass.StyleLineRoundTrip | trendscraper/src/index.js:200 | the fields of the written style line, read back at commas, are exactly the 23 values |
| Ass.StyleLineFields | trendscraper/src/index.js:200 | field 3 (`Fontsize`) is `fontsize`, field 17 (`Outline`) is the constant `2`, field 18 (`Shadow`) is `outline` |
| Ass.StyleLine | trendscraper/src/index.js:200 | the text the `c\` command writes; stated by `StyleLineIsStyle`, `StyleLineRoundTrip` and `StyleLineFields` |
| Ass.Restyle | trendscraper/src/index.js:200 | the style `sed` on one line; stated by `StyleRewrite` and `StyleRewriteLines` |
| Ass.StyleRewrite | trendscraper/src/index.js:200 | every line beginning `Style:` becomes the fixed style line; every other line is unchanged; the line count is kept |
| Ass.StyleRewriteLines | trendscraper/src/index.js:200 | each line of the result begins `Style:` exactly when the input line did, and every input style line has become the fixed style line |
| Ass.StyleRewriteIdempotent | trendscraper/src/index.js:200 | applying the style rewrite twice equals applying it once |
| Ass.ReplaceWrap | trendscraper/src/index.js:201 | a line without `WrapStyle` is unchanged; in one with it, the text from the first `WrapStyle` to the end becomes `WrapStyle: 0` and the text before it is kept |
| Ass.ReplaceWrapIdempotent | trendscraper/src/index.js:201 | the substitution applied twice equals it applied once |
| Ass.ReplaceWrapAll | trendscraper/src/index.js:201 | the substitution acts on each line on its own and keeps the line count |
| Ass.WrapLineReplaced | trendscraper/src/index.js:201 | `WrapStyle: 0` matches the pattern and is a fixed point of the substitution |
| Ass.AppendAfterHeader | trendscraper/src/index.js:201 | the `a` command on one line; stated by `CountAppendAfterHeader` and `InsertAfterHeadersPlacement` |
| Ass.InsertAfterHeaders | trendscraper/src/index.js:201 | the appending `sed` on the whole file, line by line; its meaning is stated by the three lemmas below |
| Ass.InsertAfterHeadersLines | trendscraper/src/index.js:201 | in a file without `WrapStyle`, every output line is an input line or `WrapStyle: 0`, the only matching lines are `WrapStyle: 0`, and there are as many as there are `[Script Info]` lines |
| Ass.InsertAfterHeadersPlacement | trendscraper/src/index.js:201 | every `WrapStyle: 0` of the append comes directly after a line beginning `[Script Info]`, and every such line is directly followed by a `WrapStyle: 0` |
| Ass.InsertAfterHeadersKeeps | trendscraper/src/index.js:201 | taking the inserted `WrapStyle: 0` lines out again gives back the file, so every other line is kept, in order |
| Ass.WrapPatched | trendscraper/src/index.js:201 | the whole WrapStyle command: the substitution when some line matches, the append otherwise; its meaning is stated by `WrapPatchedCount` and `WrapPatchedIdempotent` |
| Ass.DropWrapLinesAppend | trendscraper/src/index.js:201 | taking the `WrapStyle: 0` lines out of a concatenation takes them out of each part |
| Ass.WrapPatchedCount | trendscraper/src/index.js:201 | the WrapStyle command never adds a directive to a file that had one, adds one per `[Script Info]` line otherwise, and every matching line it leaves ends in `WrapStyle: 0` |
| Ass.WrapPatchedIdempotent | trendscraper/src/index.js:201 | running the WrapStyle command twice equals running it once |
| Ass.SubstituteWrap | trendscraper/src/index.js:201 | the substituting `sed` pass, line by line, gives the substitution applied to every line |
| Ass.AppendWrap | trendscraper/src/index.js:201 | the appending `sed` pass, line by line, gives the file with `WrapStyle: 0` after every `[Script Info]` line |
| Ass.AssFile.RewriteStyle | trendscraper/src/index.js:200 | the in-place style edit leaves the file's lines as the style rewrite of the old lines |
| Ass.AssFile.HasWrapStyle | trendscraper/src/index.js:201 | the `grep -q` succeeds exactly when some line contains `WrapStyle` |
| Ass.AssFile.PatchWrapStyle | trendscraper/src/index.js:201 | the in-place WrapStyle command (substitution when the grep matched, append otherwise) leaves the lines as the patched old lines |
| Js.Truthy | trendscraper/src/index.js:164 | JavaScript truthiness as `!audio`, `!subtitles` and `!video` test it: `undefined`, `null`, `false`, `0` and `""` are falsy, every array and object is truthy; `BurnResponses` and `RandomVideo` use it |
| Js.JsText | trendscraper/src/index.js:200 | the text `${…}` writes for a request value; stated by `Burn.StyleParameters` |
| Js.NatText | trendscraper/src/index.js:200 | the text of a number is a non-empty string of decimal digits |
| Js.NatTextValue | trendscraper/src/index.js:200 | reading the digits of a written number back gives the number |
| Burn.Uploadable | trendscraper/src/index.js:175-176 | the value types for which the two uploads can be written at all: an `audio` string, array or object, and a `subtitles` string; `FailureResponses` states the 500 for the rest |
| Burn.FontsizeText | trendscraper/src/index.js:163 | `fontsize` after its destructuring default, as written into the style line; stated by `StyleParameters` |
| Burn.OutlineText | trendscraper/src/index.js:163 | `outline` after its destructuring default, as written into the style line; stated by `StyleParameters` |
| Burn.StyleParameters | trendscraper/src/index.js:163 | an absent `fontsize`/`outline` is written `30`/`2`; an explicit `null` is written `null`; a string is written unchecked |
| Burn.DefaultVideos | trendscraper/src/index.js:184 | the pool holds exactly the listed names that begin with `default_` |
| Burn.PickIndex | trendscraper/src/index.js:186 | `Math.floor(Math.random() * n)`; stated by `PickIndexInRange` |
| Burn.PickIndexInRange | trendscraper/src/index.js:186 | with a draw in [0, 1) and a non-empty pool, the drawn index is in range |
| Burn.ScaleBelow | trendscraper/src/index.js:192 | a draw in [0, 1) times a positive amount lies in [0, amount) |
| Burn.Delta | trendscraper/src/index.js:191 | `Math.max(V - A - 1, 0)` for finite durations; stated by `StartOffsetBounds` |
| Burn.StartOffset | trendscraper/src/index.js:191-192 | the start-offset rule on probed durations, with NaN handled as JavaScript does; bounded by `StartOffsetBounds` and tied to the chosen clip by `RandomVideo` |
| Burn.StartOffsetBounds | trendscraper/src/index.js:189-192 | the offset is at least 0; it is 0 when a duration is NaN or the clip is at most one second longer than the audio; otherwise it is below `V - A - 1` |
| Burn.StartOffsetExample | trendscraper/src/index.js:189-192 | a 40-second clip under 10 seconds of audio starts in [0, 29) |
| Burn.Resolve | trendscraper/src/index.js:178-196 | the clip-selection part of the handler; its meaning is stated by `ExplicitVideo` and `RandomVideo` |
| Burn.ExplicitVideo | trendscraper/src/index.js:193-196 | an explicit video depends only on which files exist: no listing, probe or draw is used; it is not found exactly when it is a string naming a missing file; when found, the path is `/mnt/videos/<name>` and the offset 0 |
| Burn.RandomVideo | trendscraper/src/index.js:182-192 | without a video the answer is never "not found"; no listing or no `default_` file means failure; otherwise the drawn index is in range and a clip is chosen exactly when both `ffprobe` calls succeed; the chosen clip is the `default_` file at the drawn index, under `/mnt/videos`, and its offset is the start-offset rule applied to the two probed durations |
| Burn.Burn | trendscraper/src/index.js:163-216 | the whole handler as a function from request and environment to outcome; its meaning is stated by `BurnResponses`, `FailureResponses`, `NotFoundExactly` and `EncodeInputs` |
| Burn.BurnResponses | trendscraper/src/index.js:163-216 | the status is 200, 400, 404 or 500; 400 exactly for falsy `audio` or `subtitles`, before any directory exists; otherwise the directory is `/tmp/<uuid>`; 500 has removed it; 404 keeps it with nothing to remove it; 200 exactly when removal on close is registered and an encode ran |
| Burn.FailureResponses | trendscraper/src/index.js:175-215 | a 500 answers exactly a request with truthy `audio` and `subtitles` whose uploads cannot be written, whose clip cannot be resolved (no listing, no `default_` file, a failing `ffprobe`, a non-string `video`), or whose conversion, style `sed`, WrapStyle command or encode fails; every 500 has removed the workspace |
| Burn.NotFoundExactly | trendscraper/src/index.js:195 | a 404 answers exactly a request with truthy, writable uploads that were written and a non-empty string video naming a missing file |
| Burn.EncodeInputs | trendscraper/src/index.js:199-206 | a 200 encoded the resolved clip from its offset, the uploaded audio, and the converted subtitles after the style rewrite and then the WrapStyle command; an explicit video starts at 0; a drawn clip starts at the start-offset rule of its probed durations, below `V - A - 1` when that is positive and at 0 otherwise |
| Burn.BurnJob.Abort | trendscraper/src/index.js:212-215 | the catch block removes the workspace, sets 500 and changes nothing else |
| Burn.BurnJob.Handle | trendscraper/src/index.js:163-216 | the statement-by-statement handler leaves status, workspace, close hook and encode exactly as the outcome function says |
| Burn.BurnJob.StreamClosed | trendscraper/src/index.js:211 | closing the stream runs the registered removal and changes nothing else |
| Burn.Serve | trendscraper/src/index.js:163-216 | once the stream has closed, 400 never made a directory, 200 and 500 have removed it, and 404 leaves it on disk |
| Generate.Substring | trendscraper/src/index.js:152 | `substring` never returns more than the text |
| Generate.SubstringFacts | trendscraper/src/index.js:152 | the argument order does not matter; in-range arguments give the slice between them; a negative start counts as 0 |
| Generate.ExtractJson | trendscraper/src/index.js:152 | the slice handed to `JSON.parse` is never longer than the reply; its cases are stated by the two lemmas below |
| Generate.ExtractJsonBraces | trendscraper/src/index.js:152 | when a `{` precedes the last `}`, the slice runs from the first `{` to the last `}` inclusive, starts with `{` and ends with `}` |
| Generate.ExtractJsonOtherCases | trendscraper/src/index.js:152 | no braces give the empty text; only a `}` gives everything up to it; only a `{` gives everything before it; a last `}` before the first `{` gives the text between them |
| Scrape.NewCsvFiles | trendscraper/src/index.js:100 | the new files are exactly the names of the current listing that were not there before and end in `.csv` |
| Scrape.FirstDownload | trendscraper/src/index.js:98-106 | the file the polling loop settles on; stated by `FirstDownloadSound` and met by `PollForDownload` |
| Scrape.FirstDownloadSound | trendscraper/src/index.js:98-106 | a reported download is in some listing, was not there before and ends in `.csv`; nothing is reported exactly when no listing shows such a file |
| Scrape.PollForDownload | trendscraper/src/index.js:98-106 | the polling loop settles on the first new CSV of the first listing that shows one |
| Scrape.ToTrend | trendscraper/src/index.js:111-117 | one row to one record; stated by `TrendRowFields` and `ToTrendColumns` |
| Scrape.ToTrends | trendscraper/src/index.js:111-117 | one record per row, in row order |
| Scrape.TrendRowFields | trendscraper/src/index.js:111-117 | the five columns `Trends`, `Search volume`, `Trend breakdown`, `Started`, `Ended` land in `trend`, `volume`, `breakdown`, `started`, `ended` |
| Scrape.ToTrendColumns | trendscraper/src/index.js:111-117 | other columns play no part, and each of the five columns that is missing leaves its field undefined |

## Left out

- Ass.StyleLineFields: the field positions are stated only for a `fontsize` and `outline` without commas. With a comma in either, the written line has more than 23 fields. The model writes that line, but the lemma says nothing about how it is read.
- Browser driving for `/scrape` (puppeteer, the page clicks, the download folder) is left out because it is I/O. The polling loop's wall clock is left out too: the listings read before the deadline are a parameter of `Scrape.PollForDownload`.
- `csvtojson` parsing is a foreign library. Rows are given as maps from column header to cell.
- The language model calls, the prompt text and the locale translation are network I/O. The shape checks on the model's response (`candidates[0]...`) are left out too.
- `JSON.parse` is a library parser, and the `/generate` response around it is left out with it. That includes the 500 that carries the model's whole reply rather than the slice.
- `execPromise`, `ffprobe`, ffmpeg and `sed` are external processes. Their results are fields of `Burn.Env`: success flags, the converted lines, and a probe that gives a number, NaN or a failure.
- Burn.BurnJob.Handle: the style `sed` is modelled as either succeeding completely or failing, and the same goes for the WrapStyle command and the encode. A partial edit followed by a failure ends in a 500 with cleanup either way, so no response depends on it.
- The `grep && sed || sed` fall-through is not modelled. When the grep matches but the substituting `sed` fails, the shell runs the append as well. In the model a failing WrapStyle command is a 500.
- `parseFloat` returning `Infinity` is not modelled. A probe yields a finite number or NaN.
- Durations and the offset are reals, not IEEE doubles.
- The `toFixed(2)` rounding of the offset in the encode command is not modelled. The encode job carries the exact offset.
- JSON numbers in a request are integers. A fractional or exponent-form `fontsize` would be written differently by `String(n)`.
- Whether `Buffer.from` accepts an array or object `audio` is not modelled. Arrays and array-like objects are accepted and other objects throw, and the model leaves this to `Env.writesOk`. Numbers and booleans always fail, and `Burn.Uploadable` says so.
- Decoding the base64 audio (`Buffer.from`) and the content of the written files are not modelled. Only whether the writes succeed is.
- `fs.mkdirSync` failing is not modelled. It sits outside the `try`, so it would reject the handler's promise without a response.
- `path.join` normalisation of `..` and `/` inside the video name is not modelled. The path is `/mnt/videos/` followed by the name.
- Shell quoting of, and injection through, `fontsize`, `outline` and the video name are left out. The values are treated as the text that reaches the file.
- The subtitle file is a sequence of lines. GNU `sed`'s handling of a missing final newline and of `\r` is not modelled.
- Streaming the output to the client is left out, beyond the removal that runs when the stream closes.
- Uniqueness of `uuidv4` and concurrent jobs are not modelled. The uuid is a field of `Env`.
- The uniformity of `Math.random` is not modelled. Only its range [0, 1) is used.
- Express/Flask routing, `/coquiSpeakerId` and `align_audio_text` are left out. They are routing or pure I/O: base64 decode, temporary files and the aeneas subprocess.
- Strings are sequences of `char`. JavaScript's UTF-16 code units and Python's code points are not distinguished, and `str.isspace()` is written out as a fixed set of characters.
- `re.escape` is not modelled separately. The separator pass matches the separator literally, which is what the escaped pattern does.
- `JSON.stringify` dropping `undefined` fields from the scraped records is not modelled. A missing column is `None`.
