# graphterm's line terminal, modelled in Dafny

graphterm runs a shell behind a pseudo-terminal and shows its output in a browser.
`graphterm/lineterm.py` is the part that turns the shell's byte stream into screen state. It
keeps:

- a grid of cells, one 32-bit value per cell: a style byte above a 24-bit code point;
- a per-row "meta" record for rows that hold a shell prompt;
- a cursor and a scrolling region;
- a scroll-back buffer (`ScreenBuf`) that collects rows as they leave the top of the screen;
- in notebook mode, a list of cells whose output is cut from that buffer.

This project models that core and proves what it does:

| file | models |
|---|---|
| `text.dfy` | `dump` and `uclean`: cells to display text |
| `strings.dfy` | the Python string operations the helpers use (`find`, `partition`, `split`/`join`, `replace`, `lower`) |
| `shell.dfy` | `shell_quote` and `prompt_offset` |
| `headers.dfy` | `parse_headers`, with the JSON decoder as a parameter |
| `fileurl.dfy` | `split_file_url` and `create_file_uri`, with `file_hmac` as a parameter |
| `notefilter.dfy` | `strip_prompt_lines` |
| `entries.dfy` | the records passed around as lists and tuples: meta, prompt delimiters, scroll entries |
| `screenbuf.dfy` | class `ScreenBuf` (module `Buffer`) |
| `grid.dfy` | the cell array of `Screen`, and the slice operations on it |
| `editing.dfy` | closed forms of insert/delete lines and characters |
| `csi.dfy` | CSI parameter parsing and the position and margin arithmetic of the handlers |
| `sgr.dfy` | the style byte and `csi_m` |
| `utf8.dfy` | the UTF-8 accumulator of `echo` |
| `termmodel.dfy` | the cursor and margin state of `Terminal`, with the state changes of its handlers as functions |
| `terminal.dfy` | class `Terminal` (module `Term`): grid, cursor, escape and CSI handlers, `echo` |
| `notebook.dfy` | the notebook cells of `Terminal`: `add_cell`, `leave_cell`, `select_cell`, `delete_cell` (class `NoteCells`) |
| `wrappers.dfy` | `Option` and `Result` |

## How the model is built

- The pure helpers are functions. Each one comes with lemmas that relate it to an independent
  partner:
  - `shell_quote` is proved equal to a one-pass escaper and undone by an unescaper;
  - `split_file_url` and `create_file_uri` are inverses of each other on well-formed components;
  - `strip_prompt_lines` is a loop proved equal to a recursive description of what it keeps.
- `ScreenBuf`, `Terminal` and the notebook are classes:
  - their methods change fields and arrays in place, under `modifies` clauses;
  - each method's `ensures` gives the whole new state as a function of the old state;
  - those functions carry the lemmas.
- The screen grid is an `array<bv32>`. The model keeps as an invariant that every cell holds a
  Unicode scalar value in its low 24 bits, so dumping a row never fails.
- The handlers that loop are methods with loop invariants:
  - `csi_L`, `csi_M` and `csi_@`;
  - the eviction loop of `scroll_buf_up`;
  - `strip_prompt_lines`;
  - the blob collection of `clear_last_entry`.

  Each loop is proved to reach a closed form from `editing.dfy` or `screenbuf.dfy`.
- The source only ever uses the "utf-8" setting of `ENCODING`, so the model takes that setting.
  `pdelim`, the alternate-screen flag and the notebook flag are fields of the terminal.

## Model

| member | source | states |
|---|---|---|
| Text.CodeOf | graphterm/lineterm.py:119 | the code point part of a cell never exceeds the 24-bit mask |
| Text.Chars | graphterm/lineterm.py:119-124 | turning codes into a string succeeds exactly when every code is a Unicode scalar value, and then gives one character per code, in order |
| Text.RStripNul | graphterm/lineterm.py:128-130 | the result is a prefix of the input, only NULs were removed, and it does not end in a NUL |
| Text.UCleanSpec | graphterm/lineterm.py:126-134 | `uclean` leaves no NUL and no DEL; its length is the NUL-trimmed length when trimming, else the input's; each character is the input's with NUL shown as a space and DEL as `?` |
| Text.UCleanLength | graphterm/lineterm.py:128-132 | `uclean` keeps the length, or the trimmed length when trimming |
| Text.TrimmedLength | graphterm/lineterm.py:128-130 | the cells up to the last one with a non-zero code point; all cells after it are empty |
| Text.RStripNulLength | graphterm/lineterm.py:119-130 | trimming a row's text trims exactly the cells with no code point at the end |
| Text.VisibleCodes | graphterm/lineterm.py:122 | the control-character substitution keeps one code per cell |
| Text.NulCode | graphterm/lineterm.py:122 | after the substitution a cell shows as NUL exactly when its code point is 0 |
| Text.NulsAgree | graphterm/lineterm.py:119-124 | the joined text has a NUL exactly where the row has an empty cell |
| Text.ShownCell | graphterm/lineterm.py:119-132 | every cell is shown as a newline or as a character that is neither a C0 control nor DEL |
| Text.DumpSpec | graphterm/lineterm.py:114-124 | `dump` succeeds exactly when every masked code is a scalar value; the text has one character per cell, or per cell up to the last non-empty one when trimming; each character is the cell's shown form: a newline, or a character that is neither a C0 control nor DEL |
| Text.DumpLength | graphterm/lineterm.py:114-132 | the dumped length is the trimmed length of the row, or its full length |
| Text.DumpShown | graphterm/lineterm.py:114-132 | each character of the dumped text is the shown form of the cell in the same place |
| Strings.Find | graphterm/lineterm.py:157 | `find`: -1 when the substring does not occur at or after the start, else its first occurrence there |
| Strings.FindAfter | graphterm/lineterm.py:373 | a separator whose first character is absent from the head is found right after the head |
| Strings.ContainsChar | graphterm/lineterm.py:390 | containing a one-character string is membership of that character |
| Strings.Partition | graphterm/lineterm.py:260 | `partition`: no separator means (s, "", ""); otherwise head + sep + tail is s and the head does not contain the separator |
| Strings.Split | graphterm/lineterm.py:384 | `split` gives at least one piece |
| Strings.SplitJoin | graphterm/lineterm.py:384-386 | joining the pieces of a split with the separator gives back the string |
| Strings.SplitPieces | graphterm/lineterm.py:384 | no piece contains the separator; a string without it is one piece; one with it gives several |
| Strings.ReplaceChar | graphterm/lineterm.py:132 | `replace` of a character removes every occurrence unless the replacement contains it, and adds only characters of the input or the replacement |
| Strings.ReplaceCharAt | graphterm/lineterm.py:132 | replacing a character by one character keeps the length and changes exactly the places that held it |
| Strings.ReplaceCharAbsent | graphterm/lineterm.py:143 | replacing a character that does not occur changes nothing |
| Strings.AsciiLower | graphterm/lineterm.py:390 | `lower` keeps the length and lowers each character on its own |
| Shell.ShellQuoteAppend | graphterm/lineterm.py:143 | quoting distributes over concatenation |
| Shell.ShellQuoteChar | graphterm/lineterm.py:143 | a single character is quoted as a backslash and itself when special, else left alone |
| Shell.ShellQuoteEscapes | graphterm/lineterm.py:140-143 | the four chained replacements equal one pass that puts a backslash before each `'`, space, `;` and `&` |
| Shell.ShellQuoteLength | graphterm/lineterm.py:140-143 | quoting adds exactly one character per special character |
| Shell.ShellQuoteEscapesSpecials | graphterm/lineterm.py:140-143 | every special character of the quoted token has a backslash right before it |
| Shell.ShellQuoteRoundTrip | graphterm/lineterm.py:140-143 | dropping the backslash in front of each special character gives back the token |
| Shell.PromptOffset | graphterm/lineterm.py:151-160 | 0 without delimiters; non-zero only on a prompt row (a non-continuation meta, or the prompt prefix), and then just past the first occurrence of the prompt suffix; non-zero whenever such a row contains a non-empty suffix |
| Headers.HeadBreak | graphterm/lineterm.py:260-264 | the header block ends at the first CR LF CR LF; failing that at LF LF; failing that at CR CR; with none of them the whole text is the head |
| Headers.WithDefaults | graphterm/lineterm.py:279-282 | `x_gterm_response` and `x_gterm_parameters` are added when missing (as "" and {}), and every given header is kept |
| Headers.ParseHeaders | graphterm/lineterm.py:250-284 | The result always holds the two gterm defaults, and a text that is raw HTML, has no blank line or has no head in braces gives the default headers with the whole text as content, while a head that decodes gives its keys and values, with `""` and `{}` for the two gterm keys it lacks, and the text after the blank line as content, and one that does not decode gives the error headers with the error message as content. |
| Headers.ParseHeadersFraming | graphterm/lineterm.py:250-284 | a one-line JSON head, CR LF CR LF and a body give back exactly that body and the decoded head with the defaults |
| FileUrl.HostPart | graphterm/lineterm.py:359-380 | `file://` and `/file/` URLs lead to the text after the prefix; a result for an http(s) URL has a server part that starts with the URL's scheme and holds no slash after it, followed by `/file/` and the host path; anything else is no file URL; the pieces put back give the URL |
| FileUrl.HttpHostPart | graphterm/lineterm.py:366-378 | conversely, an http(s) server part with no slash after its scheme, then `/file/` and any rest, always gives a result, and it is exactly that server part and that rest |
| FileUrl.QueryParts | graphterm/lineterm.py:382-383 | the query starts at the first `?` and the host path has none |
| FileUrl.PathPieces | graphterm/lineterm.py:384-387 | hostname and filename hold no `/`; the file path is the host path after the hostname and ends in `/filename` |
| FileUrl.PathParts | graphterm/lineterm.py:382-387 | the components put back give the host path and query; without a `/` the path is `/` and the filename is the hostname |
| FileUrl.SplitFileUrl | graphterm/lineterm.py:353-392 | no result exactly when the URL is not a file URL; otherwise the components of the host path, with the server prefix kept and the hostname blanked when the query is the file's HMAC, compared without case |
| FileUrl.SplitUnchecked | graphterm/lineterm.py:353-392 | without a secret, a `file://` URL splits into the components of what follows the prefix |
| FileUrl.CreatedFromParts | graphterm/lineterm.py:350-351 | `create_file_uri` of the components of a host path with a `/` is `file://` followed by it |
| FileUrl.SplitThenCreate | graphterm/lineterm.py:350-392 | split then create gives back every `file://` URL with a path |
| FileUrl.PathPartsOfCreated | graphterm/lineterm.py:382-387 | well-formed components are recovered from the text they are created from |
| FileUrl.DescribesUnique | graphterm/lineterm.py:382-387 | at most one set of well-formed components describes a given host path and query |
| FileUrl.CreateThenSplit | graphterm/lineterm.py:350-392 | create then split (without a secret) gives back any well-formed components |
| NoteFilter.HasPrompt | graphterm/lineterm.py:170-174 | true exactly when the line starts with one of the notebook prompts |
| NoteFilter.PendingPrompt | graphterm/lineterm.py:175-179 | a prompt entry flushes the pending block and becomes the held prompt |
| NoteFilter.PendingPlain | graphterm/lineterm.py:180-187 | a plain entry joins the block; an error line pulls the held prompt in front of the block |
| NoteFilter.StripPromptLines | graphterm/lineterm.py:162-189 | the loop returns exactly the entries `Kept` describes: every non-prompt entry, and a prompt entry only when an error line follows it before the next prompt |
| NoteFilter.KeptNonPrompts | graphterm/lineterm.py:162-189 | every non-prompt entry survives, in order |
| NoteFilter.KeptSubsequence | graphterm/lineterm.py:162-189 | the result is a subsequence of the input: nothing is added or reordered |
| NoteFilter.KeptWithoutErrors | graphterm/lineterm.py:162-189 | without error lines the result is exactly the non-prompt entries |
| NoteFilter.KeptPlain | graphterm/lineterm.py:180-182 | a leading run of non-prompt entries is kept unchanged |
| NoteFilter.ErrorInBlock | graphterm/lineterm.py:183-187 | an error is seen before the next prompt exactly when the block up to it has an error line |
| NoteFilter.KeptPromptBlock | graphterm/lineterm.py:175-187 | a prompt entry with its block is kept with the prompt exactly when the block has an error line |
| Buffer.TrailingRunStart | graphterm/lineterm.py:499-500 | the start of the last run of entries of one command: all after it belong to it, the one before does not |
| Buffer.Evicted | graphterm/lineterm.py:571-581 | the leading run of the oldest command: non-empty, all of that command, and the next entry belongs to another |
| Buffer.EvictionAsWrittenDropsNextCommand | graphterm/lineterm.py:576-581 | the loop as written, on two entries of command 1 and two of command 2, also removes the first entry of command 2; the corrected eviction keeps both |
| Buffer.Bounded | graphterm/lineterm.py:571 | a buffer one over the limit is brought within it; one within it is unchanged |
| Buffer.BlankIfNeeded | graphterm/lineterm.py:566-567 | blanking a finished edit or form entry keeps the number of entries |
| Buffer.ScrollNumbersCommands | graphterm/lineterm.py:532-534 | a prompt row (non-zero offset) starts a new command number; other rows keep it |
| Buffer.ScrollCounts | graphterm/lineterm.py:550-570 | an overwrite keeps the count and entries and replaces the last line; otherwise the count grows by one, the old entries stay (the last blanked if needed) and the new line comes last |
| Buffer.ScrollOverwrites | graphterm/lineterm.py:555-563 | an overwrite of the current pagelet keeps the count and length and puts the line last |
| Buffer.ScrollAppends | graphterm/lineterm.py:564-570 | a new entry adds one to the count and appends after the old entries |
| Buffer.NewEntryCounts | graphterm/lineterm.py:564-570 | appending an entry adds one to the count and puts it after the old entries |
| Buffer.ScrollBounded | graphterm/lineterm.py:564-581 | the buffer never holds more than `MAX_SCROLL_LINES` entries |
| Buffer.Unsent | graphterm/lineterm.py:639-642 | the entries added since the last update: none when up to date; else the last count-difference entries, or all of them |
| Buffer.UnsentAppended | graphterm/lineterm.py:583-585 | after appending entries, the next update sends exactly them |
| Buffer.FindRunStart | graphterm/lineterm.py:492-500 | the backward scan stops at the start of the last command's run |
| Buffer.CollectBlobs | graphterm/lineterm.py:506-509 | the blob ids of the entries, in order, skipping entries without one |
| Buffer.PopOldestCommand | graphterm/lineterm.py:571-581 | removes exactly the oldest command's leading run and collects its blob ids |
| Buffer.ScreenBuf.constructor | graphterm/lineterm.py:454-477 | empty buffer, counts 0, full update pending, prompt prefix length from `pdelim` |
| Buffer.ScreenBuf.SetBufNote | graphterm/lineterm.py:479-480 | only the note number changes |
| Buffer.ScreenBuf.ClearBuf | graphterm/lineterm.py:482-487 | empties the buffer, marks everything sent, forgets the blob ids and asks for a full update |
| Buffer.ScreenBuf.ClearLastEntry | graphterm/lineterm.py:489-513 | when the last entry belongs to the current command (and to the named one, if any), its whole run is removed, the count and the command number go down, the run's blob ids are queued for deletion, and the sent count is capped; otherwise nothing changes |
| Buffer.ScreenBuf.DropTrailingRun | graphterm/lineterm.py:498-513 | the state change of `clear_last_entry` once the run start is known |
| Buffer.ScreenBuf.BlankLastEntry | graphterm/lineterm.py:515-525 | the last entry becomes an empty pagelet with the current id and is marked for resending; an empty buffer is left alone |
| Buffer.ScreenBuf.StartRow | graphterm/lineterm.py:528-547 | a prompt row numbers a new command and resets the cleared flags; an overwriting blob row queues the previous blob for deletion |
| Buffer.ScreenBuf.AppendEntry | graphterm/lineterm.py:564-570 | the new-entry branch: blank a finished edit or form entry, count and append |
| Buffer.ScreenBuf.PushEntry | graphterm/lineterm.py:568-581 | counts and appends an entry, evicting the oldest command when over the limit |
| Buffer.ScreenBuf.EvictOldest | graphterm/lineterm.py:571-581 | removes the oldest command's run and queues its blob ids |
| Buffer.ScreenBuf.OverwriteLast | graphterm/lineterm.py:555-563 | replaces the last pagelet's line, options and markup in place and marks it for resending |
| Buffer.ScreenBuf.ScrollBufUp | graphterm/lineterm.py:527-581 | the new state is `ScrolledUp` of the old one, the function the count, numbering and bound lemmas above are about |
| Buffer.ScreenBuf.AppendScroll | graphterm/lineterm.py:583-585 | appends the entries and counts them |
| Buffer.ScreenBuf.Update | graphterm/lineterm.py:587-652 | a full update is due when pending, reconnecting, resized or switching screens; reconnecting sends the whole buffer and changes nothing; otherwise the unsent entries are sent and the buffer is marked up to date |
| Grid.Blank | graphterm/lineterm.py:1174 | a run of empty cells of the given length |
| Grid.FillZero | graphterm/lineterm.py:1171-1175 | the array is the old one with the cells from `lo` to `hi` cleared |
| Grid.CopyInto | graphterm/lineterm.py:1187-1189 | the array is the old one with the values written from `pos` on |
| Grid.ShiftedUpSteps | graphterm/lineterm.py:1193-1197 | scrolling a region up is poking the rows below each row into it, then clearing the bottom row |
| Grid.ShiftedUpRows | graphterm/lineterm.py:1193-1197 | each row of the region takes the row below, the bottom row is blank, rows outside are kept |
| Grid.ShiftedDownSteps | graphterm/lineterm.py:1199-1203 | scrolling a region down is poking the rows one lower, then clearing the top row |
| Grid.ShiftedDownRows | graphterm/lineterm.py:1199-1203 | each row of the region takes the row above, the top row is blank, rows outside are kept |
| Grid.ShiftedRightAt | graphterm/lineterm.py:1205-1207 | the cell at the position is cleared and the rest of the row moves one place right |
| Grid.ShiftedRightRow | graphterm/lineterm.py:1205-1207 | on the cursor's row: cells left of the cursor are kept, the cursor's cell is empty, the others come from one place to the left |
| Grid.ShiftedRightOutside | graphterm/lineterm.py:1205-1207 | cells outside the row are unchanged |
| Grid.MetaUp | graphterm/lineterm.py:1196-1197 | the meta of each row of the region comes from the row below; the bottom row's is cleared |
| Grid.MetaDown | graphterm/lineterm.py:1202-1203 | the meta of each row of the region comes from the row above; the top row's is cleared |
| Grid.MetaCleared | graphterm/lineterm.py:1179 | rows in the range lose their meta, the others keep it |
| Grid.ZeroedScalar | graphterm/lineterm.py:1171-1175 | clearing cells keeps every cell a scalar value |
| Grid.PokedScalar | graphterm/lineterm.py:1187-1189 | writing scalar cells keeps every cell a scalar value |
| Grid.ShiftRowsUp | graphterm/lineterm.py:1193-1197 | the array becomes the region scrolled up by one row |
| Grid.ShiftRowsDown | graphterm/lineterm.py:1199-1203 | the array becomes the region scrolled down by one row |
| Grid.ShiftCellsRight | graphterm/lineterm.py:1205-1207 | the array becomes the row shifted right from the cursor |
| Editing.LinesInsertedNone | graphterm/lineterm.py:1482-1486 | inserting no lines changes nothing |
| Editing.LinesInsertedStep | graphterm/lineterm.py:1484-1486 | one more pass of `scroll_down` inserts one more line |
| Editing.LinesInsertedKept | graphterm/lineterm.py:1482-1486 | rows outside the region are kept |
| Editing.LinesInsertedBlank | graphterm/lineterm.py:1482-1486 | the first n rows of the region from the cursor are blank |
| Editing.LinesInsertedMoved | graphterm/lineterm.py:1482-1486 | every later row of the region holds the row n above it |
| Editing.LinesDeletedNone | graphterm/lineterm.py:1487-1491 | deleting no lines changes nothing |
| Editing.LinesDeletedStep | graphterm/lineterm.py:1490-1491 | one more pass of `scroll_up` deletes one more line |
| Editing.LinesDeletedKept | graphterm/lineterm.py:1487-1491 | rows outside the region are kept |
| Editing.LinesDeletedMoved | graphterm/lineterm.py:1487-1491 | each row of the region holds the row n below it, while that row is in the region |
| Editing.LinesDeletedBlank | graphterm/lineterm.py:1487-1491 | the last n rows of the region are blank |
| Editing.MetaInsertedStep | graphterm/lineterm.py:1484-1486 | one more pass moves the meta records one more row down |
| Editing.MetaDeletedStep | graphterm/lineterm.py:1490-1491 | one more pass moves the meta records one more row up |
| Editing.CharsInsertedStep | graphterm/lineterm.py:1403-1405 | one more pass of `scroll_right` inserts one more blank cell |
| Editing.CharsInsertedRow | graphterm/lineterm.py:1403-1405 | on the cursor's row: left of the cursor kept, n blanks, then the old cells moved n places right |
| Editing.CharsInsertedOutside | graphterm/lineterm.py:1403-1405 | other rows are unchanged |
| Editing.CharsDeletedRow | graphterm/lineterm.py:1492-1497 | on the cursor's row: left of the cursor kept, then the cells n places to the right, then blanks |
| Editing.CharsDeletedOutside | graphterm/lineterm.py:1492-1497 | other rows are unchanged |
| Editing.CharsDeletedSplit | graphterm/lineterm.py:1494-1497 | saving the row's tail, erasing to the right and poking the tail past n gives the closed form |
| Csi.ToNat | graphterm/lineterm.py:1394 | reading a piece succeeds exactly when it is a non-empty string of digits |
| Csi.ToNatDigits | graphterm/lineterm.py:1394 | the decimal digits of a number read back as that number |
| Csi.ParseAll | graphterm/lineterm.py:1394-1396 | the list is read exactly when every piece is a number, and then gives each piece's value |
| Csi.ParamsSpec | graphterm/lineterm.py:1387-1399 | a handler always gets a parameter; no parameter text, or an empty piece, gives the handler's default; otherwise each piece's value in order |
| Csi.ParamsOne | graphterm/lineterm.py:1394-1399 | a single number is passed on as the only parameter |
| Csi.BareSgrAsWritten | graphterm/lineterm.py:795-804 | with the defaults as written, a bare `ESC [ m` passes 1, which `csi_m` reads as bold |
| Csi.BareSgr | graphterm/lineterm.py:1571-1576 | with the corrected default, a bare `ESC [ m` passes 0, a reset |
| Csi.RegionAsWrittenZero | graphterm/lineterm.py:1595-1600 | as written, a top margin of 0 gives top row -1 |
| Csi.RegionSpec | graphterm/lineterm.py:1595-1600 | the region is a non-empty band of rows on the screen; without two parameters it is the whole screen; in-range margins are taken 1-based; it agrees with the code whenever the top parameter is not 0 |
| Csi.PositionAsWrittenZero | graphterm/lineterm.py:1439-1441 | as written, a position parameter of 0 gives -1 |
| Csi.PositionSpec | graphterm/lineterm.py:1439-1441 | the position is on the screen, 1-based parameters are taken as such, larger ones clamp to the last place, and it agrees with the code for every parameter but 0 |
| Csi.CupParams | graphterm/lineterm.py:1445 | the first two parameters, or row 1 column 1 when fewer are given |
| Sgr.DefaultNulStyle | graphterm/lineterm.py:470-476 | the default style has foreground 0 and background 7, is not bold, and has no code point bits |
| Sgr.WithBold | graphterm/lineterm.py:1579 | sets bold and keeps both colours and the code point bits |
| Sgr.InverseNul | graphterm/lineterm.py:1582 | the inverse style swaps the default colours and is not bold |
| Sgr.WithFg | graphterm/lineterm.py:1586 | sets the foreground and keeps background, bold and code point bits |
| Sgr.WithBg | graphterm/lineterm.py:1590 | sets the background and keeps foreground, bold and code point bits |
| Sgr.SgrStep | graphterm/lineterm.py:1574-1590 | a parameter the handler does not know leaves the style unchanged |
| Sgr.SgrStepModes | graphterm/lineterm.py:1574-1582 | 0, 27, 39 and 49 restore the default style; 1 adds bold and keeps the colours; 7 gives the inverse style |
| Sgr.SgrStepColours | graphterm/lineterm.py:1583-1590 | 30-37 set the foreground and 40-47 the background to the parameter's colour, keeping the rest |
| Sgr.SgrStepStyleOnly | graphterm/lineterm.py:1573-1590 | no parameter puts anything into the code point bits |
| Sgr.SgrAllAppend | graphterm/lineterm.py:1573 | applying a list is applying its two halves in turn |
| Sgr.SgrAllStyleOnly | graphterm/lineterm.py:1573-1590 | no parameter list puts anything into the code point bits |
| Sgr.SgrAllAfterReset | graphterm/lineterm.py:1573-1576 | only the parameters after the last reset matter |
| Sgr.ColoursOverride | graphterm/lineterm.py:1583-1590 | a foreground and a background parameter set both colours whatever the starting style |
| Utf8.LeadLength | graphterm/lineterm.py:1273-1282 | a lead byte announces 2, 3 or 4 bytes, or 0 for an invalid one |
| Utf8.Decode | graphterm/lineterm.py:1292 | a decoded value is always a Unicode scalar value |
| Utf8.Encode | graphterm/lineterm.py:1292 | the encoding of a scalar value is one to four bytes |
| Utf8.DecodeEncode | graphterm/lineterm.py:1292 | decoding the encoding of a scalar value gives it back |
| Utf8.EncodeDecode | graphterm/lineterm.py:1292 | a byte string that decodes is the encoding of its value: only the shortest form is accepted |
| Utf8.DecodeOrReplace | graphterm/lineterm.py:1292 | a complete sequence becomes a scalar value, U+FFFD when it does not decode |
| Utf8.Step | graphterm/lineterm.py:1267-1296 | one byte: ASCII is written at once and leaves a pending sequence as it was; a lead byte abandons any pending sequence and starts a new one (an invalid lead byte leaves the accumulator idle); a continuation byte with nothing pending is dropped; only scalar values are written and the accumulator stays well formed |
| Utf8.FeedAppend | graphterm/lineterm.py:1266-1296 | feeding two runs of bytes is feeding them one after the other |
| Utf8.FeedEncoded | graphterm/lineterm.py:1268-1296 | the encoding of one character writes exactly that character from any accumulator state |
| Utf8.FeedText | graphterm/lineterm.py:1266-1296 | the UTF-8 encoding of any text is written back as exactly that text, leaving the accumulator idle |
| Utf8.FeedTextStep | graphterm/lineterm.py:1266-1296 | one more character's encoding writes just that character |
| TermModel.ActivatedSpec | graphterm/lineterm.py:1241-1245 | on the main screen the cursor's row becomes active; a new last active row without meta gets the current meta as a continuation; nothing else changes |
| TermModel.Moved | graphterm/lineterm.py:1221-1245 | the cursor stays inside the scrolling region |
| TermModel.DownSpec | graphterm/lineterm.py:1220-1245 | outside the region nothing happens; inside, the cursor moves one row down, stopping at the bottom margin, and the end-of-line flag is cleared |
| TermModel.TabStopSpec | graphterm/lineterm.py:1318-1322 | the tab stop is on the screen; when the next multiple of 8 fits, the cursor moves to it, between 1 and 8 places on |
| TermModel.ReversedFits | graphterm/lineterm.py:1373-1381 | reverse index keeps the cursor and margins on the screen |
| TermModel.RaisedFits | graphterm/lineterm.py:1375-1378 | the first half of reverse index keeps the cursor and margins on the screen |
| TermModel.ReversedCursor | graphterm/lineterm.py:1373-1381 | at the top margin the cursor stays; elsewhere it moves up one row, never above the top margin |
| TermModel.StyledSpec | graphterm/lineterm.py:1309 | the stored cell has the character's code point and the current style |
| TermModel.WrittenSpec | graphterm/lineterm.py:1306-1312 | after writing, the cursor moves right one place, or sets the end-of-line flag at the right edge; the row becomes active |
| TermModel.WrappedRowsOk | graphterm/lineterm.py:1306-1308 | a pending wrap moves the cursor to column 0 and keeps the style |
| TermModel.StoredSpec | graphterm/lineterm.py:1309 | exactly the cursor's cell changes, to the character's code point |
| TermModel.SliceZeroedSpec | graphterm/lineterm.py:1171-1175 | a slice assignment inside the array is clearing; one past its end makes it longer |
| TermModel.EraseCharsAsWrittenExample | graphterm/lineterm.py:1499-1501 | as written, erasing one character clears two cells, and at the last column it lengthens the array |
| TermModel.EraseCountSpec | graphterm/lineterm.py:1499-1501 | the corrected count stays on the row and is the parameter whenever it fits |
| TermModel.UpSpec | graphterm/lineterm.py:1407-1409 | the cursor moves up n rows, stopping at the top margin; nothing else changes |
| TermModel.DownBySpec | graphterm/lineterm.py:1411-1415 | the cursor moves down n rows, stopping at the bottom margin, and its row becomes active |
| TermModel.ForwardSpec | graphterm/lineterm.py:1417-1420 | the cursor moves right n places, stopping at the last column |
| TermModel.BackwardSpec | graphterm/lineterm.py:1422-1425 | the cursor moves left n places, stopping at column 0 |
| TermModel.ErasedDisplaySpec | graphterm/lineterm.py:1452-1468 | mode 0 clears from the cursor to the end of the screen, mode 1 from the start to the cursor, mode 2 everything; every other cell is kept |
| TermModel.ErasedDisplayAt | graphterm/lineterm.py:1452-1468 | the same, for one cell |
| TermModel.ErasedLineSpec | graphterm/lineterm.py:1470-1480 | mode 0 clears the row from the cursor, mode 1 up to the cursor, mode 2 the whole row; every other cell is kept |
| TermModel.ErasedLineAt | graphterm/lineterm.py:1470-1480 | the same, for one cell |
| Term.Terminal.constructor | graphterm/lineterm.py:806-830 | a blank screen, cursor home, default style, idle accumulator, no active rows, no meta, and as scrolling region the whole screen, or only the top row when a notebook is open |
| Term.Terminal.Peek | graphterm/lineterm.py:1184-1185 | the cells between two positions, each a scalar value |
| Term.Terminal.Zero | graphterm/lineterm.py:1171-1175 | clears the cells from one position to another, both included |
| Term.Terminal.ZeroLines | graphterm/lineterm.py:1177-1179 | clears the rows and their meta |
| Term.Terminal.ZeroScreen | graphterm/lineterm.py:1181-1182 | clears every row and every meta |
| Term.Terminal.Poke | graphterm/lineterm.py:1187-1191 | writes the cells at the position; on the main screen the row becomes active |
| Term.Terminal.ScrollUp | graphterm/lineterm.py:1193-1197 | the region's rows and meta move up one row and the bottom row is cleared |
| Term.Terminal.ScrollDown | graphterm/lineterm.py:1199-1203 | the region's rows and meta move down one row and the top row is cleared |
| Term.Terminal.ScrollRight | graphterm/lineterm.py:1205-1207 | the row from the cursor moves right one place and the cursor's cell is cleared |
| Term.Terminal.PushTopRow | graphterm/lineterm.py:1226-1235 | the top row of the region is entered into the notebook buffer in notebook mode, else into the scroll-back buffer on the main screen |
| Term.Terminal.CursorDown | graphterm/lineterm.py:1220-1245 | line feed: cursor, grid and both buffers change as `Down`, `DownCells` and `DownBuf` describe |
| Term.Terminal.Advance | graphterm/lineterm.py:1222-1245 | inside the region: move down, or scroll at the bottom margin |
| Term.Terminal.ScrollAtBottom | graphterm/lineterm.py:1225-1237 | at the bottom margin the top row goes to the buffer and the region scrolls up |
| Term.Terminal.ExtendActive | graphterm/lineterm.py:1241-1245 | the active rows and the continuation meta change as `Activated` describes |
| Term.Terminal.CursorRight | graphterm/lineterm.py:1247-1252 | moves right one column, or sets the end-of-line flag at the right edge |
| Term.Terminal.Backspace | graphterm/lineterm.py:1314-1316 | moves left one column, not past column 0 |
| Term.Terminal.Tab | graphterm/lineterm.py:1318-1322 | moves to the next tab stop |
| Term.Terminal.CarriageReturn | graphterm/lineterm.py:1328-1331 | column 0 and no pending wrap |
| Term.Terminal.SaveCursor | graphterm/lineterm.py:1333-1335 | saves the cursor position and changes nothing else |
| Term.Terminal.RestoreCursor | graphterm/lineterm.py:1337-1342 | restores the saved position, clears the pending wrap, and on the main screen makes the row active |
| Term.Terminal.NextLine | graphterm/lineterm.py:1364-1367 | a line feed followed by column 0 |
| Term.Terminal.Raise | graphterm/lineterm.py:1375-1378 | at the top margin the region scrolls down; elsewhere the cursor moves up |
| Term.Terminal.ReverseIndex | graphterm/lineterm.py:1373-1381 | reverse index: `Raise`, then the cursor's row becomes active on the main screen |
| Term.Terminal.CsiA | graphterm/lineterm.py:1407-1409 | cursor up, never above the top margin |
| Term.Terminal.CsiB | graphterm/lineterm.py:1411-1415 | cursor down, never below the bottom margin |
| Term.Terminal.CsiC | graphterm/lineterm.py:1417-1420 | cursor forward, never past the last column, with no pending wrap |
| Term.Terminal.CsiD | graphterm/lineterm.py:1422-1425 | cursor backward, never before column 0, with no pending wrap |
| Term.Terminal.CsiE | graphterm/lineterm.py:1427-1431 | cursor down, then column 0 |
| Term.Terminal.CsiF | graphterm/lineterm.py:1433-1437 | cursor up, then column 0 |
| Term.Terminal.CsiG | graphterm/lineterm.py:1439-1441 | only the column changes, to the corrected 1-based position |
| Term.Terminal.CsiH | graphterm/lineterm.py:1443-1450 | row and column become the corrected 1-based positions of the first two parameters (home by default), clamped to the screen; on the main screen the row becomes active |
| Term.Terminal.CsiVpa | graphterm/lineterm.py:1512-1516 | only the row changes, to the corrected 1-based position; on the main screen the row becomes active |
| Term.Terminal.CsiJ | graphterm/lineterm.py:1452-1468 | the screen becomes the erased display for the mode, and the meta of wholly cleared rows is dropped |
| Term.Terminal.EraseBelow | graphterm/lineterm.py:1454-1459 | mode 0 of erase in display |
| Term.Terminal.EraseAbove | graphterm/lineterm.py:1460-1465 | mode 1 of erase in display |
| Term.Terminal.CsiK | graphterm/lineterm.py:1470-1480 | the row is erased for the mode; mode 2 also drops the row's meta |
| Term.Terminal.CsiL | graphterm/lineterm.py:1482-1486 | above the bottom margin, n blank lines are inserted at the cursor and the lines below move down within the region; elsewhere nothing changes |
| Term.Terminal.CsiM | graphterm/lineterm.py:1487-1491 | inside the region, n lines are deleted at the cursor and the lines below move up; outside it nothing changes |
| Term.Terminal.CsiAt | graphterm/lineterm.py:1403-1405 | n blank cells are inserted at the cursor, pushing the rest of the row right |
| Term.Terminal.CsiP | graphterm/lineterm.py:1492-1497 | n cells are deleted at the cursor; the rest of the row moves left and blanks fill the end |
| Term.Terminal.CsiSgr | graphterm/lineterm.py:1571-1590 | only the current style changes, by the parameters in turn |
| Term.Terminal.CsiR | graphterm/lineterm.py:1595-1600 | the margins become the corrected region, always a band of the screen's rows |
| Term.Terminal.CsiX | graphterm/lineterm.py:1499-1501 | clears the corrected number of cells from the cursor, on the cursor's row only |
| Term.Terminal.WrapPending | graphterm/lineterm.py:1306-1308 | a pending wrap is a line feed and column 0 |
| Term.Terminal.Store | graphterm/lineterm.py:1309 | the cursor's cell gets the character in the current style |
| Term.Terminal.MarkActive | graphterm/lineterm.py:1311-1312 | on the main screen the cursor's row becomes active |
| Term.Terminal.PutChar | graphterm/lineterm.py:1306-1312 | a decoded character is written: wrap if pending, store, move right, mark the row active |
| Term.Terminal.Echo | graphterm/lineterm.py:1266-1312 | one byte goes through the UTF-8 accumulator; a completed character is written as `PutChar` describes, and otherwise only the accumulator changes |
| Notebook.IndexOf | graphterm/lineterm.py:957 | the first place of the cell in the list |
| Notebook.RemoveSpec | graphterm/lineterm.py:971 | removing a listed cell leaves every other cell, once each, and one fewer |
| Notebook.SwitchTargetSpec | graphterm/lineterm.py:957-966 | the cell to switch to is 0 exactly when the cell is the only one, and otherwise another listed cell |
| Notebook.ClearedSpec | graphterm/lineterm.py:951-956 | the current cell's output is replaced and every other cell is kept |
| Notebook.DroppedSpec | graphterm/lineterm.py:968-971 | the cell leaves both the map and the list, and the notebook stays consistent |
| Notebook.LeftSpec | graphterm/lineterm.py:945-974 | leaving keeps the notebook consistent, with no current cell and the same highest number and input; without a current cell nothing happens; without deletion the list is kept; it fails exactly when deleting the current cell while at most one cell exists |
| Notebook.LeftCurrent | graphterm/lineterm.py:945-974 | a deleted cell is removed from the map and list; a kept one gets the stripped output; the next cell is another cell, or 0 when it was the only one |
| Notebook.FocusedSpec | graphterm/lineterm.py:982-986 | the target cell becomes current with its output cleared, the bookkeeping stays consistent, and every other cell is unchanged |
| Notebook.SelectedSpec | graphterm/lineterm.py:976-987 | on success the named cell, or with none named the neighbour `leave_cell` proposed from the old current cell, is current, with empty output and no pending input; the bookkeeping stays consistent |
| Notebook.DeletedSpec | graphterm/lineterm.py:995-998 | deleting succeeds exactly when there is a current cell and another one; the cell is gone and its neighbour is current |
| Notebook.PlacedSpec | graphterm/lineterm.py:932-940 | the list grows by one; without a position the new cell goes right after the cell that was current, or at the end when none was; a position inside the list puts it at that 1-based place, one past the end appends it, and a negative one puts it right before the cell Python's negative index names; the other cells keep their order |
| Notebook.PlacedDistinct | graphterm/lineterm.py:932-940 | placing a new cell at any accepted position keeps the list free of repeats and adds exactly that cell |
| Notebook.InsertedSpec | graphterm/lineterm.py:926-940 | a fresh empty cell numbered one past the highest becomes current and is listed once |
| Notebook.AddedAsWrittenAppends | graphterm/lineterm.py:925-937 | as written, the new cell always goes at the end, because the current cell was already reset |
| Notebook.AddedAsWrittenExample | graphterm/lineterm.py:922-943 | with cells 1 and 2 and cell 1 current, the code as written gives [1, 2, 3] where the intended order is [1, 3, 2] |
| Notebook.AddedSpec | graphterm/lineterm.py:922-943 | the new empty cell gets the next number and becomes current; adding fails exactly for a negative position reaching before the start of the list, and then the cell is left out of the list and the notebook is inconsistent; otherwise the notebook stays consistent and the list grows by the new cell alone |
| Notebook.AddedPlacement | graphterm/lineterm.py:922-943 | the new cell goes right after the cell that was current (or at the end when none was) without a position, at the given 1-based place, at the end past it, or counted from the end for a negative one, the other cells keeping their order |
| Notebook.NoteCells.constructor | graphterm/lineterm.py:896-897 | the empty bookkeeping a newly opened notebook starts from: no cells, no current cell, highest number 0, no input |
| Notebook.NoteCells.LeaveCell | graphterm/lineterm.py:945-974 | the state, next cell and success flag are `Left` of the old state with the stripped output |
| Notebook.NoteCells.Proposed | graphterm/lineterm.py:957-966 | the neighbour to switch to, above or below |
| Notebook.NoteCells.Clear | graphterm/lineterm.py:951-956 | the state becomes `Cleared` |
| Notebook.NoteCells.Drop | graphterm/lineterm.py:968-971 | the state becomes `Dropped` |
| Notebook.NoteCells.SelectCell | graphterm/lineterm.py:976-987 | the state and result are `Selected` of the old state |
| Notebook.NoteCells.Focus | graphterm/lineterm.py:982-986 | the state becomes `Focused` |
| Notebook.NoteCells.DeleteCell | graphterm/lineterm.py:995-998 | a selection with deletion; succeeds exactly when there is a current cell and another one |
| Notebook.NoteCells.AddCell | graphterm/lineterm.py:922-943 | succeeds exactly when the position does not raise IndexError, and then keeps the notebook valid; the state and flag are `Added` of the old state, with the new cell after the current one or at the given position |
| Notebook.NoteCells.Insert | graphterm/lineterm.py:926-940 | succeeds exactly when the position does not raise IndexError, and then the state becomes `Inserted`; on failure the new cell is registered and current but not listed |

## Left out

- I/O:
  - the pty, the log file (`logfile`, `logchars`) and the `screen_callback` notifications;
  - the replies written to `outbuf` (`esc_da`, `esc_sda`, `esc_tpr`, `esc_sr`, `esc_cpr`);
  - `esc_ignore`'s logging.
- Escape-sequence recognition (the `esc_seq` table and the regular expressions). A CSI sequence
  enters the model as its parameter text and final character, through `Csi.Params`. The
  handler aliases `csi_a` (= `csi_C`), `csi_e` (= `csi_B`), `csi_f` (= `csi_H`), `` ` `` (=
  `csi_G`), `csi_s` and `csi_u` are the methods they call. Line feed, vertical tab, form feed
  and `esc_ind` are all `CursorDown`. `csi_c` does nothing.
- `csi_h` and `csi_l`, the graphterm private modes and the switch to and from the alternate
  screen:
  - the model's terminal has one screen;
  - the alternate-screen flag and the notebook flag are fixed for its lifetime;
  - a terminal built with the notebook flag starts with the one-row scrolling region that
    `reset` and `notebook(True)` give it.
- `parse_command`: it only sets `command_path` and swallows every error. `expect_prompt`,
  `enter`, `scroll_screen`, `resize`, `notebook`, `switch_cell`'s callback and the rest of
  `Terminal` are not part of this model.
- `Term.Terminal.CursorDown` enters the dumped row into the scroll-back buffer as text. The
  source encodes it to UTF-8 bytes (`encoded=True`) first.
- `Buffer.ScreenBuf.Update` leaves out `update_rows` and `dumprichtext`:
  - it does not compare rows or build the styled spans;
  - it keeps only the size, cursor and screen kind of the last update, not copies of the
    screens.
- `Buffer.ScreenBuf.ScrollBufUp` records the markup of a prompt row as the arguments of
  `command_markup`, which is not part of this model.
- `Headers.ParseHeaders` takes `json.loads` as a parameter. JSON parsing is not modelled, nor is
  the `-` to `_` rewriting of plain MIME headers, which the source leaves undone.
- `FileUrl.SplitFileUrl` takes `gtermapi.file_hmac` as a parameter; an empty secret means no
  check.
- `Shell.ShellQuoteRoundTrip` is proved against `Unescape`, which removes the backslash in front
  of each special character. `shell_unquote` goes through `shlex.split`, which is not modelled.
- `Text.DumpSpec` fails (returns no text) where `unichr` would raise.
  - Dafny characters exclude the surrogate code points, which Python 2 would accept.
  - The `encoded=True` path and the "ascii" encoding branches are not modelled.
- `Utf8.DecodeOrReplace` writes a bad complete sequence as a single U+FFFD. In the source:
  - Python 2's decoder can return several replacement characters there, and `ord` then
    raises;
  - a four-byte sequence on a narrow build decodes to a surrogate pair, with the same effect;
  - UTF-8-encoded surrogates are accepted by Python 2 and replaced here.
- `Notebook.NoteCells.AddCell` takes the position as an integer. The client passes
  `before_cell_number` through unchecked, so a value of another type is possible there, and
  it is not modelled. The `note_add_cell` callback is not modelled either.
- `Notebook.NoteCells.LeaveCell` returns `(0, true)` where `leave_cell` returns `None` (no
  current cell), and `(0, false)` where its `assert` fails (deleting the last cell).
- `Notebook.NoteCells.LeaveCell` takes the notebook's scroll-buffer entries as a parameter.
  It does not empty that buffer afterwards, which `leave_cell` does with `clear_buf`
  (lineterm.py:954).
- `Notebook.NoteCells.constructor` starts with no typed input. `notebook(True)`
  (lineterm.py:896-897) leaves `note_input` as the previous notebook session left it.
- Cell values are `bv32`, because every value the terminal stores fits in 32 bits.
- Concurrency and time stamps (`output_time`, `update_time`) are not modelled.

## Findings

| source | as written | input that shows it | evidently intended | confidence | as-written member | corrected member |
|---|---|---|---|---|---|---|
| graphterm/lineterm.py:576-581 | the eviction loop of `scroll_buf_up` pops two entries per pass: the first without looking at its blob id, the second whether or not it belongs to the evicted command | a full buffer whose oldest entries are two of command 1 then two of command 2: command 2's first entry is evicted too | remove the oldest command's whole run, one entry at a time, collecting each blob id | high, not executed | Buffer.EvictionAsWrittenDropsNextCommand | Buffer.PopOldestCommand |
| graphterm/lineterm.py:925-937 | `add_cell` calls `leave_cell`, which sets `curIndex` to 0, before reading `curIndex` as the cell to insert after | cells [1, 2] with cell 1 current: the new cell 3 goes last, giving [1, 2, 3] | insert after the cell that was current: [1, 3, 2] | high, not executed | Notebook.AddedAsWrittenExample | Notebook.AddedPlacement |
| graphterm/lineterm.py:1595-1600 | `csi_r` takes `l[0]-1` as the top margin with no lower bound | `ESC [ 0 ; 5 r` on 25 rows: top margin -1 | read a margin of 0 as 1, as VT100 terminals do | high, not executed | Csi.RegionAsWrittenZero | Csi.RegionSpec |
| graphterm/lineterm.py:1499-1501 | `csi_X` clears from the cursor up to and including column `cursor_x + n`, which is n+1 cells and can run past the row and the screen | `ESC [ 1 X` at column 0 clears two cells; at the last column of the last row it lengthens the array | clear n cells, stopping at the end of the row | high, not executed | TermModel.EraseCharsAsWrittenExample | TermModel.EraseCountSpec |
| graphterm/lineterm.py:795-804 | `csi_m` is given the default parameter list [1], so a bare `ESC [ m` turns on bold | `ESC [ m` | a reset, the default of section 8.3.117 of ECMA-48 | medium, not executed | Csi.BareSgrAsWritten | Csi.BareSgr |
| graphterm/lineterm.py:1439-1441 | `csi_G`, `csi_H` and `csi_d` take `min(limit, p) - 1` with no lower bound | `ESC [ 0 G`: column -1, which then indexes the cell before the row | read a position of 0 as 1 | high, not executed | Csi.PositionAsWrittenZero | Csi.PositionSpec |
