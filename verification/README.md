# Models of st, dwm, BlueALSA and dmenu

Proofs about the parts of the four programs in this repository that change linked structures, ring buffers and
protocol states in place. Each module keeps the form of its source: pointer swaps, list surgery and state machines are
classes and methods proved against functions on sequences, and what the programs promise is proved about those
functions, for every input and every run. `dafny verify dfyconfig.toml` checks everything.

**st** (`Glyphs`, `Rewrap`, `Tails`, `Strays`, `Ring`, `Selection`, `Scrollback`, `LineBuffer`, `Placement`,
`Printing`, `Screens`, `Effects`, `Terminal`, `Utf8`, `Utf8Stream`). The screen and the scrollback ring are arrays of
row buffers that trade places. `Rewrap` is the loop of `treflow` as a machine on values: for any source rows, any
width and any cursor it keeps every logical line, never begins more rows than were allocated and keeps the cursor on
its cell. `Strays` says exactly how many lines are joined when a WRAP bit is out of place, and which edits put it
there. `Scrollback` is scrolling, height changes, the view and the selection on values. `Placement` is the whole of
`treflow`, with the cut of its window and the way rows go back to screen and ring; `Tails` is what stays of the text
when oldest rows go. `Printing` adds the characters themselves: printing appends to the logical line across the right
margin. `Screens` is the whole state as one value, what each event makes of it, and what all runs of events keep;
`Effects` says what each event does row by row and cell by cell, without the functions that compute it.
`Terminal.Term` is the object with the arrays: over any run it equals that value, and no two rows ever share a buffer.
`Utf8` and `Utf8Stream` are the decoder, the encoder (both against the grammar of section 4 of RFC 3629) and reading
in chunks.

**dwm** (`ClientLists`, `MoveStack`, `WindowManager`, `Tilings`, `Grids`). Two lists threaded through the same clients
on every monitor. `WindowManager.Wm.Valid` is the managed-client invariant; every handler keeps it and says which
client is selected afterwards, over any run and any change of the monitors. `MoveStack` rewrites `next` links; going
down and up again is the identity. `Tilings` and `Grids` prove that the layouts fill the area to the pixel.

**BlueALSA** (`BleMidi`, `BleMidiCoder`, `RunningStatus`, `PcmStop`, `TransportStop`, `TransportEnd`, `At`,
`AtBuffer`). The BLE-MIDI packet coder, with what a plain MIDI receiver makes of running status; the stop and join
protocol of the IO threads under any interleaving, the single obligation to clear `stopping`, and when there is a run
that clears it; and the AT printer and parser.

**dmenu** (`Paging`, `Dmenu`). Matching splices three doubly linked lists; every key keeps the selected item on the
page that is shown, and `Dmenu.Menu.Press` says what it does to the text, the cursor, the selection and the page.

Events of the outside world (bytes read, windows and monitors reported, clocks, exits of threads) are parameters.

## What the proofs found

- st: `treflow` reads a row only up to `tlinelen`, so a WRAP bit in front of the last column is copied although the
  row was treated as finished. The number of lines that a width change joins is exactly the number of such stray rows
  before the last one (`Strays.ReflowJoins`). Deleting characters from a row that goes on leaves one, exactly when
  cells move left of the last column (`DeletionKeepsClean`), unless the cursor's column is among those cleared
  (`DeletionLeavesStray`); inserting blanks never does. So the same rows keep or join their lines depending on where
  the cursor is (`CursorDecides`). Without strays text is always kept.
- st: narrowing cuts the rows to be read so that they fit `buf`. The cut passes the cursor exactly when the rows from
  the cursor to the end of its line need more target rows than `buf` has (`Placement.WindowHasCursor`); then, and only
  then, no chunk captures it and row 0 is taken from `buf[-1]` (`Placement.ReflowSafeExactly`, `UncapturedIndex`).
  `Placement.UnsafeInstance` is a change from 300 columns to 3.
- st: a screen that grows takes rows back from the history above the cursor, but leaves the rows below the cursor
  where they are: as many of them as come back, those just below the cursor, are overwritten
  (`Scrollback.HeightRows`).
- st: when the view follows the scroll, the test that removes a selection whose rows left the ring is skipped
  (st.c:1313-1316); `Scrollback.SelectionBeginsOutside` says exactly when, `SelectionOutsideWitness` is an instance.
- st: asked to show control characters, `twrite` puts those from 0x80 on as `^[` and the control character 0x80 below
  (st.c:2766-2769), so one is still put raw exactly when there is such a character (`Utf8Stream.ShownRaw`).
- dwm: `gaplessgrid` steps columns by the horizontal gap (vanitygaps.c:619) but sizes them with the vertical one: the
  last column ends at the outer gap exactly when there is one column or the two gaps are equal (`Grids.GaplessFills`).
  The last row of `nrowgrid` misses the bottom gap by the remainder of the height, and meets it exactly when there is
  none (`Grids.NrowFillsHeight`).
- dwm: when monitors without clients go and nothing else changes, a selected one among them is replaced by the first
  monitor without a new focus; `WindowManager.Wm.GeometryEvent` says exactly when that leaves another client selected
  than the first visible one.
- BlueALSA: a system exclusive message of any length never survives its own coder: no timestamp precedes its end byte,
  which the decoder takes for one (`BleMidiCoder.ExclusiveLost`). Its bytes stay in the decoder and come back in front
  of the next message (`BleMidi.LostBytesInFront`). Timestamps come back exactly when messages are less than 128 ms
  apart, up to whole turns of the 13-bit clock (`BleMidi.RoundTrip`).
- BlueALSA: once `stopping` is set there is a run that clears it exactly if no write to the manager's pipe has failed
  and no PCM was started after it was marked STOPPING with its stop still to come (`TransportEnd.ClearedExactly`). A
  failed write leaves nobody to clear it (`TransportStop.FailedIsStuck`); a PCM started too late is met STARTING or
  RUNNING by the manager, which is an assertion failure.
- BlueALSA: a message cut short by the end of the packet is returned as if it were complete, although one cut short by
  another marked byte is refused (`RunningStatus.CutShort`); and an undefined status byte is refused
  only if something follows it (`RunningStatus.Refused`).
- BlueALSA: a second stop call that waits for TERMINATED returns if the PCM is not set idle before it wakes
  (`PcmStop.WaiterCanReturn`), and sleeps on otherwise (`WaiterWaitsOn`, `WaiterMissesTheEnd`). The repository never
  makes that second call: `ba_transport_pcm_stop` is called only by `transport_threads_cancel`
  (ba-transport.c:98-103), and that only by the manager thread (162, 199).
- BlueALSA: `At.PrintableExactly` is the exact set of messages that `at_parse` reads back from `at_build`.

## Model
| member | source | states |
|---|---|---|
| Glyphs.LineLen | vendors/st/st.c:447-453 | the row length: no cell behind it is set or wrapped, and its last cell is |
| LineBuffer.TLineLen | vendors/st/st.c:447-453 | the backwards loop finds that length |
| LineBuffer.TIsWrapped | vendors/st/st.c:456-461 | a row goes on exactly when its last counting cell carries WRAP |
| LineBuffer.WriteChunk | vendors/st/st.c:2987-3006 | one turn's copy in place writes the chunk of the machine in all three cases: short, exact and split rows |
| Rewrap.ReflowPreservesText | vendors/st/st.c:2970-3010 | for every list of source rows, width and cursor the rows written hold the same logical lines |
| Rewrap.StepKeepsText | vendors/st/st.c:2987-3006 | every turn of the loop keeps the text written equal to the text consumed |
| Rewrap.ManyReflowsPreserveText | vendors/st/st.c:2970-3010 | any sequence of width changes, the cursor anywhere at each, keeps all logical lines and clean rows |
| Rewrap.ReadRowsKeepText | vendors/st/st.c:2973-2980 | reading rows only up to tlinelen, widened to the cursor on its row, loses no text |
| Strays.ReflowJoins | vendors/st/st.c:2973-3006 | without any condition on the rows: a width change joins exactly as many lines as there are stray rows before the last, and keeps all lines exactly when there is none |
| Strays.DeletionKeepsClean | vendors/st/st.c:1481-1501 | deleting characters leaves a WRAP bit in front of the last column exactly when the row goes on and cells are moved |
| Strays.InsertionKeepsClean | vendors/st/st.c:1504-1519 | inserting blanks never does |
| Strays.DeletionLeavesStray | vendors/st/st.c:1481-1501 | such a row is stray exactly when the cursor does not widen the reading into the cleared cells |
| Strays.CursorDecides | vendors/st/st.c:2973-2980 | an instance for any new width: the same rows keep their two lines or lose one, depending on the cursor |
| LineBuffer.DeleteInRow | vendors/st/st.c:1481-1501 | the move and the clearing in place are the deletion |
| LineBuffer.InsertInRow | vendors/st/st.c:1504-1519 | the same for the insertion |
| Rewrap.ReflowCapacity | vendors/st/st.c:2959-2972 | the loop never begins more rows than ceil(old width / new width) for each source row |
| Rewrap.ReflowShape | vendors/st/st.c:2987-3010 | every row written is full, and WRAP bits stay in the last column |
| Rewrap.ReflowTracksCursor | vendors/st/st.c:2977-2985 | if the source holds the cursor cell it is captured, and the new place holds that cell with the same text before it |
| Rewrap.CapturedExactly | vendors/st/st.c:2977-2985 | a cursor is captured exactly when its row is among those read |
| Tails.RowsLinesTail | vendors/st/st.c:1295-1318 | when oldest rows go, the lines left are the newest ones, the first of them possibly cut at its front |
| Ring.PushStores | vendors/st/st.c:1282-1290 | storing after the newest slot appends to the history and drops its oldest row when full |
| Ring.PopRemoves | vendors/st/st.c:2798-2803 | taking the newest slot back removes the last row of the history |
| Scrollback.ResizeHeight | vendors/st/st.c:2858-2884 | after a height change the cursor is on the screen, which has the new height, and the ring holds no more than it can |
| Scrollback.HeightKeepsDocument | vendors/st/st.c:2858-2884 | a height change keeps history and screen down to the cursor, except for the rows that a full ring lets go |
| Scrollback.HeightsKeepDocument | vendors/st/st.c:2858-2884 | over any sequence of height changes only oldest rows are lost, and only with more than HISTSIZE kept |
| Scrollback.ShrinkThenGrow | vendors/st/st.c:2858-2884 | with the cursor on the last row, shrinking by k and growing by k restores history, screen and cursor |
| Scrollback.HeightRows | vendors/st/st.c:2781-2884 | exactly which rows: where the cursor goes, how long the history is, and that growth takes the place of as many rows just below the cursor while those further down stay |
| Scrollback.ScrollUpRows | vendors/st/st.c:1270-1319 | row by row: a row of the region is the one n below it or blank, all others stay, and what is saved is exactly what leaves the top, also when the region ends above the last row |
| Scrollback.ScrollDownRows | vendors/st/st.c:1247-1267 | row by row: blank rows at the top of the region, then the old row n above; all other rows, history and view stay |
| Scrollback.DownAndUp | vendors/st/st.c:1247-1319 | down and up again restores all rows but those pushed out at the end of the region |
| Scrollback.ResizeMainIsResizeHeight | vendors/st/st.c:2858-2884 | the scroll, reallocation and pull of tresizedef compose to the height change |
| Scrollback.ViewStaysInHistory | vendors/st/st.c:1290-1296 | no scroll lets the view start above the oldest row |
| Scrollback.ResizedViewStaysInHistory | vendors/st/st.c:2804-2812 | nor does a height change |
| Scrollback.SavingScrollAndView | vendors/st/st.c:1290-1296 | after a full-screen saving scroll the view shows the same rows, and unchanged when scrolled back with room in the ring |
| Scrollback.SelectionFollowsView | vendors/st/st.c:1202-1244 | scrolling the view or pulling rows back keeps the selection on its rows of the document |
| Scrollback.SelectionAfterSave | vendors/st/st.c:1310-1318 | after a saving scroll the selection is on its rows, and removed exactly if it began on a dropped row and the view slipped |
| Scrollback.SelectionAfterScroll | vendors/st/st.c:1247-1341 | after a scroll that saves nothing the selection is gone exactly if one of its cells was cleared or it crosses the region or leaves it; else it moves with its rows |
| Scrollback.SelectionKeepsRows | vendors/st/st.c:1329-1341 | and then shows the same rows as before |
| Scrollback.PulledView | vendors/st/st.c:2804-2812 | when rows come back from the history the view keeps its rows while it can, and the selection always |
| Scrollback.SelectionBeginsOutside | vendors/st/st.c:1313-1316 | exactly when a selection is kept that begins above the oldest row |
| Scrollback.SelectionOutsideWitness | vendors/st/st.c:1313-1316 | an instance of that |
| Placement.LineEnd | vendors/st/st.c:2954-2957 | the last row of the cursor's line on the screen: all rows before it go on, and it does not unless it is the last |
| Placement.CapacitySuffices | vendors/st/st.c:2959-2969 | the rows read never need more target rows than allocated, also when the window is cut, and none lies before the history |
| Placement.WindowMaximal | vendors/st/st.c:2959-2969 | and no fewer rows are read than that allows |
| Placement.PerLeast | vendors/st/st.c:2959-2962 | the target rows allowed for a source row are the fewest that hold it |
| Placement.PlaceRows | vendors/st/st.c:3018-3032 | the new cursor row is on the screen, at the row it was captured in, and rows are dropped only below a cursor in the top row; without a captured cursor the first row is the one before buf |
| Placement.PlacedExactly | vendors/st/st.c:3018-3032 | the placement is the only one that keeps the cursor in its row and on the screen and the end of its line where it was, moved down by the growth |
| Placement.ReflowPlaces | vendors/st/st.c:3018-3053 | for every state: the end of the line is below its old place plus the growth only with the cursor in the top row, above it only where rows or screen end, and the rows below it are empty |
| Placement.NothingMoves | vendors/st/st.c:3018-3053 | a change that neither splits nor joins rows, of the same height, leaves cursor, line end and history length |
| Placement.PlacedContiguously | vendors/st/st.c:3033-3052 | history and screen down to the end of the cursor's line are one contiguous run of the rows written |
| Placement.PlacedCursor | vendors/st/st.c:3022-3032 | the row under the cursor is the one it was captured in |
| Placement.PlanReflow | vendors/st/st.c:2946-3059 | when the window includes the cursor one chunk captures it, all rows written have the new width, and the placement lies within them |
| Placement.WindowHasCursor | vendors/st/st.c:2960-2969 | the rows read begin at or above the cursor exactly when those from the cursor to the end of its line fit the target rows |
| Placement.ReflowSafeExactly | vendors/st/st.c:2946-3059 | for every screen and size: the cursor is captured and no index of buf is negative exactly under that condition |
| Placement.UncapturedIndex | vendors/st/st.c:3018-3041 | a cursor that was not captured makes row 0 of the screen the one before buf |
| Placement.UnsafeInstance | vendors/st/st.c:2960-2969 | a screen of 300 columns whose change to 3 columns and 60 rows reads only rows below the cursor |
| Placement.ReflowKeepsCursorCell | vendors/st/st.c:2977-3041 | the cell under the cursor is the same before and after a width change, however much was evicted |
| Placement.ReflowKeepsTextBeforeCursor | vendors/st/st.c:2946-3059 | however full the ring, the text before the cursor is the end of what it was, and all of it when no row read is lost |
| Placement.ReflowKeepsDocument | vendors/st/st.c:2946-3059 | however full the ring, the logical lines down to the end of the cursor's line are the newest of those before, the first possibly cut, and all of them when no row read is lost; if that line alone is longer than the screen the cursor is in the top row and rows below it are dropped |
| Printing.PrintExtendsText | vendors/st/st.c:2706-2745 | a printed character is appended to the logical line of the cursor, across the right margin and through scrolling, with what is lost in each case: over the last column, below or in a region, and with a full ring |
| Printing.ScrollUpTidy | vendors/st/st.c:1270-1319 | scrolling keeps WRAP bits in the last column |
| Printing.ResizeMainTidy | vendors/st/st.c:2858-2884 | so do height changes |
| Printing.ReflowTidy | vendors/st/st.c:2946-3059 | so do width changes |
| Screens.ApplyValid | vendors/st/st.c:1202-2886 | every event keeps cursor and region on the screen, the width of all rows and the view within the history |
| Screens.ApplyNeat | vendors/st/st.c:1202-2886 | every event keeps WRAP bits in the last column, exactly but for deletions that move one |
| Screens.RunKeeps | vendors/st/st.c:1202-2886 | so does every run, from any size to any size |
| Screens.NeatResizeKeepsLines | vendors/st/st.c:2946-3059 | on such a screen a width change keeps the newest logical lines, and all of them when no row read is lost |
| Screens.ResizeKeepsTextAtPen | vendors/st/st.c:2946-3059 | after a width change what is printed next goes behind the same text, with a wrap pending before, after, or both |
| Effects.ScrolledRows | vendors/st/st.c:1247-1319 | scrolls and inserted and deleted lines, row by row, and nothing else changes |
| Effects.NewLineIs | vendors/st/st.c:1344-1354 | a new line scrolls by one row on the last row of the region and else moves the cursor down one row, if there is one |
| Effects.GotoNearest | vendors/st/st.c:1394-1408 | the cursor goes to the nearest cell of the screen |
| Effects.RegionBetween | vendors/st/st.c:1688-1701 | the region lies between the nearest rows to the two asked for, in either order |
| Effects.ViewMoves | vendors/st/st.c:1202-1244 | every row shown moves by what was asked for, or by what is left |
| Effects.ViewCarriesSelection | vendors/st/st.c:1202-1244 | and the selection stays on its rows |
| Effects.DeletedCells | vendors/st/st.c:1481-1501 | cell by cell: characters behind the deleted ones move up, blanks come in at the end |
| Effects.InsertedCells | vendors/st/st.c:1504-1519 | cell by cell: characters from the cursor on move back |
| Effects.InsertThenDelete | vendors/st/st.c:1481-1519 | deleting what was inserted restores the row but for what was pushed over its end |
| Effects.EditedRow | vendors/st/st.c:1481-1519 | only the row of the cursor changes, and which selections go |
| Effects.TypedCell | vendors/st/st.c:2702-2745 | a character is stored under the cursor with the present colours, nothing else changes, and the cursor moves on or has a wrap pending |
| Effects.TypedWraps | vendors/st/st.c:2706-2711 | with a wrap pending it is a marked cell, a new line, and then the same |
| Effects.ColoursTyped | vendors/st/st.c:1442-1444 | characters and blanks have the colours that were set last |
| Effects.SelectedPlace | vendors/st/st.c:566-580 | a place is selected if it is between the ends of the selection, in reading order or in a rectangle |
| Effects.ReflowedRest | vendors/st/st.c:2946-3059 | region, view, selection and colours after a width change |
| Effects.HeightenedRest | vendors/st/st.c:2847-2886 | region and cursor column after a height change |
| Terminal.Term.SavePointers | vendors/st/st.c:1283-1288 | the pointer swap appends the row to the ring and returns a blank one; buffers stay pairwise different |
| Terminal.Term.TScrollUp | vendors/st/st.c:1270-1319 | the pointer code is the scroll on values: history, screen, view and selection, saving or not |
| Terminal.Term.TScrollDown | vendors/st/st.c:1247-1267 | the same for scrolling down |
| Terminal.Term.TLineShows | vendors/st/st.c:47-50 | the macro TLINE reads the row of the document that the view shows |
| Terminal.Term.KScrollDown | vendors/st/st.c:1202-1221 | the view moves towards the screen and stops there, the selection with it |
| Terminal.Term.KScrollUp | vendors/st/st.c:1224-1244 | the view moves back and stops at the oldest row, the selection with it |
| Terminal.Term.RScrollDown | vendors/st/st.c:2781-2813 | both swap loops put the newest history rows above the screen and take them from the ring |
| Terminal.Term.ResizeRows | vendors/st/st.c:2858-2884 | the height-only branch on the arrays is the height change on values |
| Terminal.CaptureCursor | vendors/st/st.c:2981-2984 | the cursor update of a turn is the capture of the machine, a pending wrap resolved |
| Terminal.Term.RewrapLoop | vendors/st/st.c:2970-3010 | the loop on the arrays fills buf with the rows of the machine, all of them fresh and different |
| Terminal.Term.PlanRows | vendors/st/st.c:3018-3032 | the loops and tests compute the placement |
| Terminal.Term.FillRing | vendors/st/st.c:3043-3057 | the ring holds the newest rows in order and fresh buffers elsewhere, none twice |
| Terminal.Term.TReflow | vendors/st/st.c:2946-3059 | treflow on the arrays is the width change on values, cursor, pending wrap and view included |
| Terminal.Term.TResizeDef | vendors/st/st.c:2847-2886 | both branches and the early return are the size change on values |
| Terminal.Term.constructor | vendors/st/st.c:1097-1143 | a blank screen, an empty ring and pairwise different buffers |
| Terminal.Term.TNewLine | vendors/st/st.c:1344-1354 | the screen scrolls exactly if the cursor is on the last row of the region |
| Terminal.Term.TPutC | vendors/st/st.c:2702-2745 | tputc on the arrays is printing on values: pending wrap, stored character, cursor and selection |
| Terminal.Term.TDeleteChar | vendors/st/st.c:1481-1501 | deleting characters on the arrays is deleting on values, the selection included |
| Terminal.Term.TInsertBlank | vendors/st/st.c:1504-1519 | the same for inserting blanks |
| Terminal.Term.Perform | vendors/st/st.c:1202-2886 | every event does to the arrays exactly what it does to the value, and keeps the buffers pairwise different |
| Terminal.Term.Run | vendors/st/st.c:1202-2886 | after every run the arrays hold the value of the run, with WRAP bits in the last column unless a deletion moved one |
| Utf8.Utf8Decode | vendors/st/st.c:323-345 | the loop decodes as the function does, incomplete and broken sequences included |
| Utf8.Utf8Validate | vendors/st/st.c:382-390 | surrogates, overlong and too large values become U+FFFD, and the length is that of the result |
| Utf8.Utf8Encode | vendors/st/st.c:358-373 | the loop writes the encoding from its end |
| Utf8.DecodeEncode | vendors/st/st.c:323-390 | every rune followed by anything decodes to itself, a non-character to U+FFFD |
| Utf8.EncodeDecode | vendors/st/st.c:323-390 | what decodes to a character other than U+FFFD is the encoding of that character |
| Utf8.DecodePrefix | vendors/st/st.c:335-344 | a decoded character does not depend on the bytes behind it |
| Utf8.DecodedFollowsGrammar | vendors/st/st.c:323-345 | a character is decoded only from bytes of the grammar of section 4 of RFC 3629 |
| Utf8.GrammarDecodes | vendors/st/st.c:323-345 | every sequence of that grammar is decoded whole |
| Utf8.EncoderFollowsGrammar | vendors/st/st.c:358-390 | the encoder writes nothing else |
| Utf8.DecodedSize | vendors/st/st.c:323-345 | a broken sequence is used up to the first byte that does not continue it; bytes are waited for exactly if all there are continue it and some are missing |
| Utf8.DecodedWhole | vendors/st/st.c:323-345 | a sequence of the announced length is a character exactly if the grammar has it |
| Utf8Stream.TWrite | vendors/st/st.c:2749-2778 | the runes of a buffer are put in order, in caret notation when asked, and the incomplete character at its end is left |
| Utf8Stream.ShownRaw | vendors/st/st.c:2765-2773 | when control characters are to be shown one is put raw exactly when there is one from 0x80 on that does not become layout |
| Utf8Stream.Tty.TtyRead | vendors/st/st.c:892-915 | a read puts the runes of the pending bytes and the new ones; at most three bytes stay pending |
| Utf8Stream.ChunkingIrrelevant | vendors/st/st.c:892-915 | however the bytes are split into reads, the same runes are put and the same bytes are pending |
| Utf8Stream.StreamRoundTrip | vendors/st/st.c:892-915 | any sequence of Unicode scalar values, encoded and read in any chunks, comes back exactly |
| Utf8Stream.Resync | vendors/st/st.c:2749-2778 | characters, then a broken sequence, then anything: the characters, one U+FFFD, and reading goes on with the byte that did not continue it |
| Utf8Stream.CaretNotation | vendors/st/st.c:2765-2773 | what is put for every control character |
| Utf8Stream.PlainIs | vendors/st/st.c:2755-2764 | outside UTF-8 mode every byte is one character |
| ClientLists.AttachBottom | vendors/dwm/dwm.c:418-424 | the client is last in its monitor's list |
| ClientLists.Detach | vendors/dwm/dwm.c:680-686 | exactly the client leaves the list, the order of the others kept |
| ClientLists.DetachStack | vendors/dwm/dwm.c:689-700 | exactly the client leaves the stack, and a selected one is followed by the first visible one |
| ClientLists.HeirIs | vendors/dwm/dwm.c:689-700 | the selection stays unless the selected client leaves; then it is the first visible one of those left |
| ClientLists.TopIs | vendors/dwm/dwm.c:809-831 | a focused client is on top of its stack, the others in their order |
| ClientLists.TagByTag | vendors/dwm/dwm.c:1708-1773 | masking and toggling, tag by tag |
| ClientLists.OnByTag | vendors/dwm/dwm.c:51-57 | a client is visible exactly if it shares a tag with the view |
| WindowManager.Wm.Focus | vendors/dwm/dwm.c:809-831 | who gets the focus, on which monitor, and the order of every stack afterwards |
| WindowManager.Wm.Tag | vendors/dwm/dwm.c:1708-1715 | the selected client gets the tags, if there are any, and the focus is on the first visible client |
| WindowManager.Wm.ToggleTag | vendors/dwm/dwm.c:1749-1761 | tags never become empty, and the focus is on the first visible client |
| WindowManager.Wm.View | vendors/dwm/dwm.c:2064-2073 | the view changes places with the one before it, and the focus is on the first visible client |
| WindowManager.Wm.ToggleView | vendors/dwm/dwm.c:1764-1773 | the view never becomes empty, and the focus is on the first visible client |
| WindowManager.Wm.Pop | vendors/dwm/dwm.c:1233-1239 | the client is first in its list and has the focus if it is visible |
| WindowManager.Wm.Manage | vendors/dwm/dwm.c:1051-1109 | a new client joins both lists of one monitor with nonempty tags, taken from its owner if it is transient |
| WindowManager.Wm.Unmanage | vendors/dwm/dwm.c:1789-1812 | exactly the client leaves, and every monitor's selection is what its stack says |
| WindowManager.Wm.SendMon | vendors/dwm/dwm.c:1441-1454 | the client changes its monitor in both lists and gets the tags shown there |
| WindowManager.Wm.TagMon | vendors/dwm/dwm.c:1718-1723 | the selected client is sent to the next monitor round |
| WindowManager.Wm.DirToMon | vendors/dwm/dwm.c:703-715 | the monitor before or after, going round |
| WindowManager.Wm.RoundAndBack | vendors/dwm/dwm.c:703-715 | forward is one place on, backward undoes it, and only the ends meet |
| WindowManager.Wm.RuledByTag | vendors/dwm/dwm.c:317 | the tags of rules if they give any, else those of the view |
| WindowManager.Wm.FocusMon | vendors/dwm/dwm.c:844-855 | the selection goes to that monitor and its first visible client |
| WindowManager.Wm.RemoveMonitor | vendors/dwm/dwm.c:1919-1934 | all clients of the last monitor come to the front of both lists of the first one, in reverse |
| WindowManager.ReverseAt | vendors/dwm/dwm.c:1919-1934 | in reverse means: as far from the end as before from the start |
| WindowManager.Wm.UpdateGeom | vendors/dwm/dwm.c:1878-1953 | with any number of monitors reported no client is lost and each is on a monitor that is left; what it returns and which monitor is selected |
| WindowManager.Wm.GeometryEvent | vendors/dwm/dwm.c:568-595 | the focus stays on the first visible client exactly unless monitors without clients go with the selected one and nothing else changes |
| WindowManager.Wm.WinToClient | vendors/dwm/dwm.c:2076-2086 | the managed client of a window, or none exactly if there is none |
| WindowManager.Wm.MoveSelected | vendors/dwm/movestack.c:2-48 | movestack keeps the invariant and changes only the order |
| WindowManager.Wm.Step | vendors/dwm/dwm.c:568-2086 | what each event does: which clients are managed, where they are, their tags, the view, the order and the selected monitor |
| WindowManager.Wm.Run | vendors/dwm/dwm.c:568-2086 | over any run of events every client is once in both lists of its own monitor, tags are proper, selections are members, and the focus is on the first visible client while no monitors go without a change that refocuses |
| MoveStack.MovedKeeps | vendors/dwm/movestack.c:2-48 | exactly the selected client and its tiled visible neighbour change places |
| MoveStack.NeighbourIsNext | vendors/dwm/movestack.c:5-21 | for a positive direction no tiled visible client lies between the two going forward, else none going backward, round the end; the client stays only if there is no other |
| MoveStack.MoveBack | vendors/dwm/movestack.c:2-48 | moving one way and back restores the order, round the ends too |
| MoveStack.NextTiled | vendors/dwm/dwm.c:1226-1230 | the first tiled visible client from a place on |
| MoveStack.FindNeighbour | vendors/dwm/movestack.c:5-21 | both directions find the neighbour, going round |
| MoveStack.Before | vendors/dwm/movestack.c:22-28 | the clients before the two, whichever comes first |
| MoveStack.SwapClients | vendors/dwm/movestack.c:31-45 | the link surgery swaps two clients: adjacent in either order, distant, and at the head |
| MoveStack.MoveStack | vendors/dwm/movestack.c:2-48 | the links afterwards are those of the swapped order |
| Tilings.PiecesFill | vendors/dwm/vanitygaps.c:166-189 | floors by real factors plus one pixel for the first ones sum to exactly the length, and none is negative |
| Tilings.PiecesFair | vendors/dwm/vanitygaps.c:166-189 | every piece is the whole pixels of its fair part or one more, and those with one more come first |
| Tilings.GetFacts | vendors/dwm/vanitygaps.c:166-189 | the two loops compute the totals and the pixels left over |
| Tilings.TruncIs | vendors/dwm/vanitygaps.c:166-189 | a conversion to int cuts off towards zero, also for a negative size |
| Tilings.TileFills | vendors/dwm/vanitygaps.c:786-822 | both columns start and end at the outer gaps and neighbours are exactly an inner gap apart |
| Tilings.TileApart | vendors/dwm/vanitygaps.c:786-822 | no two windows overlap: an inner gap is between them |
| Tilings.TileShares | vendors/dwm/vanitygaps.c:786-822 | the master column gets the share mfact of the width and the stack the rest, to the pixel, a single column all of it, and every window its fair part of the height |
| Tilings.Tile | vendors/dwm/vanitygaps.c:786-822 | the loop gives every window its cell |
| Tilings.BstackFills | vendors/dwm/vanitygaps.c:200-238 | the same with rows for columns |
| Tilings.BstackShares | vendors/dwm/vanitygaps.c:200-238 | the same for the rows of bstack |
| Tilings.Bstack | vendors/dwm/vanitygaps.c:200-238 | the loop gives every window its cell |
| Tilings.Win.Resize | vendors/dwm/dwm.c:321-386 | how a size is limited, and that a cell that fits is taken as it is |
| Tilings.TileFits | vendors/dwm/vanitygaps.c:786-822 | cells of at least the bar's height always fit |
| Grids.ColumnsUsed | vendors/dwm/vanitygaps.c:639-645 | grid uses ceil(sqrt n) rows, and no column is empty |
| Grids.DivIs | vendors/dwm/vanitygaps.c:646-656 | so does a division |
| Grids.GridFills | vendors/dwm/vanitygaps.c:646-656 | columns span the width exactly, full columns the height, and the cells are a gap apart |
| Grids.GridEven | vendors/dwm/vanitygaps.c:646-656 | columns and rows differ by a pixel at most, and the larger ones come first |
| Grids.GridFits | vendors/dwm/vanitygaps.c:646-656 | cells of at least the smallest size are taken by resize as they are |
| Grids.Grid | vendors/dwm/vanitygaps.c:630-657 | where there is room and no cell is below the smallest size the loop gives every window its cell |
| Grids.GaplessWalk | vendors/dwm/vanitygaps.c:588-622 | the windows run through exactly cols columns of n/cols rows or one more, without holes |
| Grids.GaplessFills | vendors/dwm/vanitygaps.c:588-622 | every column is filled exactly; the width exactly when there is one column or the gaps are equal |
| Grids.GaplessEven | vendors/dwm/vanitygaps.c:588-622 | so do columns and the windows of a column; every column has n/cols windows or one more, the fuller ones last |
| Grids.GaplessApart | vendors/dwm/vanitygaps.c:588-622 | no two windows overlap |
| Grids.GaplessFits | vendors/dwm/vanitygaps.c:588-622 | the same for gaplessgrid, when the sum of the differing gaps leaves the last column on the screen |
| Grids.Gapless | vendors/dwm/vanitygaps.c:577-623 | under the same two conditions the loop, with its test for the longer columns, gives every window its cell |
| Grids.RowsEven | vendors/dwm/vanitygaps.c:746-779 | every row of nrowgrid has n/rows windows or one more, so nothing is divided by zero |
| Grids.RoomLeft | vendors/dwm/vanitygaps.c:767-772 | a row at least cols * cols gaps wide never runs out of room |
| Grids.NrowFills | vendors/dwm/vanitygaps.c:746-779 | rows end at the right gap, windows and rows are a gap apart, and the last row ends above the bottom gap by exactly the remainder of the height |
| Grids.NrowFillsHeight | vendors/dwm/vanitygaps.c:746-779 | it ends there exactly when the height without gaps is a multiple of the rows |
| Grids.NrowEven | vendors/dwm/vanitygaps.c:746-779 | every window gets an equal share of the width left to it and those behind it, and the rows equal shares of the height |
| Grids.RowsGrow | vendors/dwm/vanitygaps.c:746-766 | later rows have no fewer windows |
| Grids.NrowApart | vendors/dwm/vanitygaps.c:746-779 | no two windows overlap |
| Grids.NrowFits | vendors/dwm/vanitygaps.c:767-776 | cells of at least the smallest size are taken by resize as they are |
| Grids.Nrowgrid | vendors/dwm/vanitygaps.c:729-780 | where there is room and no cell is below the smallest size the loop gives every window its cell |
| BleMidi.RoundTrip | vendors/bluez-alsa/src/ble-midi.c:86-391 | repeated decoding of a packet returns its messages in order and then its end, with the right times exactly when they are close |
| BleMidi.RoundTripFrom | vendors/bluez-alsa/src/ble-midi.c:86-314 | the same from any place between two messages |
| BleMidi.DecodeNext | vendors/bluez-alsa/src/ble-midi.c:86-314 | one call returns the next message and its timestamp |
| BleMidi.StampStep | vendors/bluez-alsa/src/ble-midi.c:123-134 | a timestamp is reconstructed right exactly when it is less than 128 ms after the last one |
| BleMidi.TimeSplit | vendors/bluez-alsa/src/ble-midi.c:363-375 | how the 13 bits of a time are split between header and timestamp |
| BleMidi.Lengths | vendors/bluez-alsa/src/ble-midi.c:26-62 | the lengths of all messages, and which bytes are no status bytes |
| RunningStatus.DecodePiece | vendors/bluez-alsa/src/ble-midi.c:86-314 | one call returns a message with its status byte, with the restored one, or its data bytes alone |
| RunningStatus.HeardAsMeant | vendors/bluez-alsa/src/ble-midi.c:233-292 | whatever messages of a packet leave out their status byte, a plain MIDI receiver that reads what is returned gets exactly the messages that were meant |
| RunningStatus.CutShort | vendors/bluez-alsa/src/ble-midi.c:245-259 | a message that a marked byte cuts short is refused, and one cut short by the end of the packet is returned as it is |
| RunningStatus.Refused | vendors/bluez-alsa/src/ble-midi.c:105-243 | which packets are refused, and with which error |
| BleMidiCoder.ExclusiveLost | vendors/bluez-alsa/src/ble-midi.c:86-391 | decoding all the packets into which a system exclusive message of any length was encoded returns nothing |
| BleMidi.FragmentsLost | vendors/bluez-alsa/src/ble-midi.c:86-314 | continued packets return nothing and only gather bytes |
| BleMidi.LostBytesInFront | vendors/bluez-alsa/src/ble-midi.c:86-314 | the next message comes back with the gathered bytes in front of it |
| BleMidiCoder.Encoder.Encode | vendors/bluez-alsa/src/ble-midi.c:335-391 | what a call adds to the packet, when it refuses, and how far a system exclusive message gets |
| BleMidiCoder.EncodeMany | vendors/bluez-alsa/src/ble-midi.c:335-391 | messages go into one packet until one does not fit, and the packet is that of those before it |
| BleMidiCoder.EncodeExclusive | vendors/bluez-alsa/src/ble-midi.c:335-391 | a system exclusive message of any length goes out in full packets but the last, all bytes in order |
| BleMidiCoder.Decoder.Decode | vendors/bluez-alsa/src/ble-midi.c:86-314 | the jumps and buffers in place decode as the function, error codes included |
| BleMidiCoder.DecodeMany | vendors/bluez-alsa/src/ble-midi.c:86-314 | calls repeated to the end of a packet return what the round trip is about |
| PcmStop.StepInv | vendors/bluez-alsa/src/ba-transport-pcm.c:136-443 | every atomic step keeps the invariant of threads, cancels and joins |
| PcmStop.AllowedAre | vendors/bluez-alsa/src/ba-transport-pcm.c:136-181 | the transitions that are allowed |
| PcmStop.StatesEntered | vendors/bluez-alsa/src/ba-transport-pcm.c:136-443 | each state is entered by exactly one kind of step, threads are made by starts that succeed, and a start that fails ends TERMINATED |
| PcmStop.StopComesIn | vendors/bluez-alsa/src/ba-transport-pcm.c:388-443 | a stop call comes in exactly unless a thread was started that is not marked STOPPING |
| PcmStop.Safety | vendors/bluez-alsa/src/ba-transport-pcm.c:388-443 | over any interleaving a thread is cancelled and joined at most once, TERMINATED comes after the join, and a stop that found a thread returns after its join |
| PcmStop.StopIsSynchronous | vendors/bluez-alsa/src/ba-transport-pcm.c:388-443 | a stop call returns only when the thread that was live at its call has been joined |
| PcmStop.WaiterCanReturn | vendors/bluez-alsa/src/ba-transport-pcm.c:402-411 | once TERMINATED is published a waiting call has returned or can, over any steps that do not set the PCM idle |
| PcmStop.SetIdleHides | vendors/bluez-alsa/src/ba-transport-pcm.c:402-411 | setting it idle first takes that away |
| PcmStop.WaiterWaitsOn | vendors/bluez-alsa/src/ba-transport-pcm.c:402-411 | and the call waits on over any steps that do not publish TERMINATED again |
| PcmStop.WaiterMissesTheEnd | vendors/bluez-alsa/src/ba-transport-pcm.c:402-411 | a run from the start in which the first of two stop calls returns and the second sleeps on |
| TransportStop.DoGood | vendors/bluez-alsa/src/ba-transport.c:95-214 | every step of callers, pipe, manager and PCMs keeps the protocol, if writes succeed |
| TransportStop.Protocol | vendors/bluez-alsa/src/ba-transport.c:1126-1191 | over any run exactly one obligation to clear the flag exists while it is set, and no acquisition goes on during a join |
| TransportStop.FailedWrite | vendors/bluez-alsa/src/ba-transport.c:1157-1158 | a failed write leaves nobody to clear the flag |
| TransportStop.StuckForEver | vendors/bluez-alsa/src/ba-transport.c:1157-1191 | from then on it is never cleared and no acquisition goes on |
| TransportStop.FailedIsStuck | vendors/bluez-alsa/src/ba-transport.c:1126-1191 | after any run the flag is stuck exactly when a write has failed |
| TransportStop.FlagChanges | vendors/bluez-alsa/src/ba-transport.c:95-214 | who sets the flag, who clears it, and that messages leave the pipe in order |
| TransportEnd.StopBegins | vendors/bluez-alsa/src/ba-transport.c:1126-1158 | a stop can always be asked for: it sets the flag, and the first one goes on to mark the PCMs |
| TransportEnd.StopEnds | vendors/bluez-alsa/src/ba-transport.c:95-214 | while no PCM is in the way there is a run, without a new stop, after which the flag is clear and acquisitions go on |
| TransportEnd.BlockedForEver | vendors/bluez-alsa/src/ba-transport.c:95-214 | a PCM that was started after it was marked, with its stop still to come, is in the way for ever |
| TransportEnd.ClearedExactly | vendors/bluez-alsa/src/ba-transport.c:95-214 | after any run from the start: some run clears the flag exactly if no write has failed and no PCM is in the way, and then what is left of the stops under way does |
| At.ParseBuild | vendors/bluez-alsa/src/at.c:53-181 | a printed message followed by anything is parsed as itself, up to the case of its command, and what follows is left |
| At.PrintableExactly | vendors/bluez-alsa/src/at.c:53-181 | that holds exactly for the printable messages |
| At.StreamRoundTrip | vendors/bluez-alsa/src/at.c:53-181 | a stream of printed messages is parsed as those messages, one a call |
| At.Printed | vendors/bluez-alsa/src/at.c:53-82 | the printed forms, character by character |
| At.AnyCase | vendors/bluez-alsa/src/at.c:93-181 | a request in letters of any case |
| At.GsmResponse | vendors/bluez-alsa/src/at.c:149-158 | a response with the separator of GSM |
| At.ParseFails | vendors/bluez-alsa/src/at.c:93-116 | nothing is found exactly without a carriage return, or when what it ends begins like no message |
| AtBuffer.BtAt.Parse | vendors/bluez-alsa/src/at.c:93-181 | the parser in place, with NULs for separators, parses as the function |
| AtBuffer.BtAt.ShiftRight | vendors/bluez-alsa/src/at.c:159-163 | a value without a separator is moved behind an empty command, its last place lost if it fills the buffer |
| Paging.OrderIs | vendors/dmenu/dmenu.c:272-302 | every matching item is there once; exact before prefix before other matches, each in input order |
| Paging.WordsAround | vendors/dmenu/dmenu.c:260-271 | the words of a text are those on both sides of any space |
| Paging.OneWord | vendors/dmenu/dmenu.c:260-271 | text without a space is one word, and no text is none |
| Paging.ContainsIs | vendors/dmenu/dmenu.c:130-145 | a string is found exactly if it is a stretch of the other, up to the case of letters |
| Paging.NextFits | vendors/dmenu/dmenu.c:95-98 | a page holds as many items as fit, and one more would not |
| Paging.PrevFits | vendors/dmenu/dmenu.c:99-101 | so does the page before |
| Paging.BackAndForth | vendors/dmenu/dmenu.c:87-102 | the page before reaches the current one, for items of any widths |
| Paging.PageShows | vendors/dmenu/dmenu.c:95-98 | a page shows its first item exactly when it fits |
| Dmenu.AppendItem | vendors/dmenu/dmenu.c:74-84 | the item is last in a well-formed doubly linked list |
| Dmenu.Splice | vendors/dmenu/dmenu.c:285-302 | two lists become one well-formed doubly linked list, either of them possibly empty |
| Dmenu.StrStr | vendors/dmenu/dmenu.c:130-145 | the two loops find the string exactly if it is there |
| Dmenu.Classify | vendors/dmenu/dmenu.c:272-284 | the tests of the loop sort an item into its class |
| Dmenu.MatchesAre | vendors/dmenu/dmenu.c:253-304 | which items the matches are, and in what order |
| Dmenu.Menu.SpliceAll | vendors/dmenu/dmenu.c:268-302 | the loop and both splices give one list of exactly those items |
| Dmenu.Menu.Match | vendors/dmenu/dmenu.c:253-304 | matching leaves the first match selected on the first page |
| Dmenu.Menu.CalcOffsets | vendors/dmenu/dmenu.c:87-102 | next and prev begin the pages after and before the current one |
| Dmenu.Menu.Down | vendors/dmenu/dmenu.c:719-725 | one item down, turning the page exactly at its end |
| Dmenu.Menu.Up | vendors/dmenu/dmenu.c:679-685 | one item up, turning the page exactly at its start |
| Dmenu.Menu.PageDown | vendors/dmenu/dmenu.c:686-692 | the first item of the next page, if there is one |
| Dmenu.Menu.PageUp | vendors/dmenu/dmenu.c:693-699 | the first item of the page before |
| Dmenu.Menu.Last | vendors/dmenu/dmenu.c:641-657 | the last match: on this page if it shows it, else on the first page that does |
| Dmenu.Menu.LastPage | vendors/dmenu/dmenu.c:645-654 | the pages are laid from the end: the first place from which the last match shows |
| Dmenu.Menu.Press | vendors/dmenu/dmenu.c:522-738 | key by key: the text, the cursor, the selected match and the page afterwards |
| Dmenu.Menu.Run | vendors/dmenu/dmenu.c:522-738 | after any keys the matches are those of the text and the selected item is on the page shown |

## Left out

- st: wide characters (their dummy cells lie outside tlinelen), insert mode, origin mode, the character set tables, the alternate screen and modes that switch to it, tabs, and drawing; memory that is freed.
- st: the allocation of the first rows has arbitrary cells until they are cleared; the model starts with blank ones.
- Terminal.Term.TResizeDef: requires `Possible`, which for a width change is the exact condition of `Placement.ReflowSafeExactly`; beyond it the source indexes buf out of range.
- Utf8Stream.TWrite: the UTF-8 mode is the same during a read, though the runes put can change it (st.c:2353-2359).
- dwm: X11 calls, layouts arranged after each handler, size hints, floating geometry, fullscreen, rules beyond the tags and monitor they yield, focusstack, zoom, and mouse loops.
- dwm: the other layouts, among them horizgrid, which uses heights for widths (vanitygaps.c:707-712).
- dwm: `movestack` reads the selected client without a test; the model calls it only with one.
- dwm: factors are reals and the rounding of float is not modelled.
- WindowManager.Wm.Run: says that the focus is on the first visible client for runs in which no monitors go without a change that refocuses; `GeometryEvent` says what happens in the other case.
- Tilings.Tile: for windows whose cells are at least as high and wide as the bar, as `resize` enlarges others; so for the grids.
- Grids.NrowFills: for areas within 32 bits and rows of at least cols * cols gaps, since the source computes widths unsigned.
- BlueALSA: the host clock of the decoder (its field ts), and the D-Bus, Bluetooth and ALSA sides.
- BleMidi.RoundTrip: for messages of the lengths that the decoder's table knows, without system exclusive ones, for which `BleMidiCoder.ExclusiveLost` says the opposite.
- PcmStop.Safety: a stop that finds a thread STARTING or RUNNING is an assertion failure in the source and no step of the model; starts come from IDLE, and state_set is called with the states its callers use.
- TransportStop.Protocol: two PCMs, no termination of the manager itself, and no release of the file descriptor between the joins.
- At.StreamRoundTrip: for messages that fit the buffer of at_build too, whose truncation is not modelled; upper case is that of the C locale, and strings hold no NUL.
- dmenu: vi commands other than the list keys, moves of the cursor by words or multi-byte characters, paste, and drawing; characters are one step of the cursor.
- dmenu: with a negative space for items (a narrow horizontal bar) a page is empty and nothing is claimed; `Paging.PageShows` says exactly when.
