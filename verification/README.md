# Verified models of the terminal and of the runtime's stateful parts

This project models, in Dafny, the terminal emulator under `src/libvterm/src` and four pieces of state from the
yos runtime and its tools, and proves what they promise over all inputs and all runs. Nothing here is linked with
the C code: each module restates one component with the same branches, constants and edge cases, and proves it
against an independent reference (logical lines, RFC 4648, RFC 2279, a call forest, a full copy, a fragment-free
parser).

`dafny verify dfyconfig.toml` checks everything.

## Modules

| file | component | reference it is proved against |
|---|---|---|
| `ControlSequences.dfy`, `Cuts.dfy`, `Parser.dfy`, `Grammar.dfy` | the byte parser, one loop over each write | a machine that sees one byte at a time and no writes, and the forms of ECMA-48 as whole byte strings |
| `Cells.dfy`, `Reflow.dfy`, `Resize.dfy` | resizing the screen, with and without reflow | logical lines: the cells of a chain of continued rows |
| `Rects.dfy`, `Damage.dfy`, `Screen.dfy` | scrolling, deferred scroll and damage, scrollback | a client's mirror that re-reads what it is told to |
| `State.dfy` | cursor, margins, tab stops, text, controls, escapes, CSI | the screen's bounds, where each function aims, and what each asks of the screen |
| `Base64.dfy`, `Sending.dfy`, `Clipboard.dfy` | OSC 52, sending and receiving | section 4 of RFC 4648 |
| `Sgr.dfy` | SGR interpreter, reporter and the text between them | the table of codes, and each other through the byte parser |
| `Utf8.dfy`, `TextExtraction.dfy` | incremental decoder, encoder, text of a rectangle | section 2 of RFC 2279 |
| `SetJmp.dfy` | setjmp/longjmp slots and pump | the history of captures and throws |
| `ForkSnapshot.dfy` | memory of a forked process | a full copy |
| `ProcessTable.dfy` | alloc, exit, kill and wait | one fate per pid |
| `YperfReport.dfy` | the profile report | a forest of calls |

## What was found

Each of these is a property that the code keeps only under a condition. The condition is proved, and the code is
modelled as it is.

- **Reflow can drop rows.** Lines are kept from the bottom up while they fit, with all rows down to the last written one
  and the cursor's (`Resize.TopIsFirstToFit`). Of the first line that does not fit only its first row goes to the
  scrollback. A row is lost exactly if it continues such a line (`Resize.WhichRowsAreLost`), which can be one that is
  shorter than the new screen (`Resize.SecondRowIsLost`); if the cursor is on the last of them, the source aborts
  (`Resize.WhenItAborts`).
- **Reflow can move the cursor to the line above.** A cursor on the first row of a line, under a row that is full to its
  last cell and is kept too, is taken to be at the end of that row, whatever is under it: it ends above every row of its own
  line (`Resize.LeavesItsLine`), and lines further up need not leave room for it (`Resize.Needed`). In every other case a
  cursor on a character stays on that character (`Resize.StaysOnItsCell`).
- **A scroll by the whole height of the screen pushes nothing**: only rows that a smaller scroll moves off the top go to the
  scrollback (`Screen.VTermScreen.ScrollRect`).
- **Merged scrolls.** Two scrolls of one rectangle that are reported as their sum give the client the right screen
  exactly if they go the same way, cancel out or add up to the full size (`Damage.MergedScrollsAgree`).
- **Damage does not always follow a scroll.** In VTERM_DAMAGE_SCROLL a client that moves cells comes out right on every
  screen exactly under `Damage.StaysRight` (`Damage.ScrollAhead`), whatever is pending and damaged; whenever that fails
  there is a screen it then shows wrong (`Damage.ScrollLeavesWrong`). Moved damage stays on the screen exactly under
  `Damage.AdjustedDamageOnScreen`. In the other modes stored damage is emitted after the buffer has been scrolled and is
  then moved again (`Damage.DamageIsMovedTwice`).
- **The saved cursor can leave the screen.** DECSLRM may set the left margin just past the last column while the right
  margin is open; `CSI ? 6 ; 1048 h` then saves that corner, and DECRC goes there (`StateLayer.SavedCornerLeaves`). No
  other DECSET does it (`StateLayer.ModesSaved`).
- **C1 code points in UTF-8 text have width -1**, and such a glyph takes the cursor out of the screen exactly when there
  is less room to its left (`StateLayer.VTermState.DrawGlyph`).
- **A glyph can be asked for past the last column.** REP does so exactly when the last glyph it draws does not end in the
  screen (`StateLayer.VTermState.Repeat`), which takes a wide one (`StateLayer.WideRepeatLeaves`); text does so exactly
  for a glyph wider than the screen (`StateLayer.VTermState.DrawGlyph`).
- **The clipboard's final mark** is lost exactly when the last fragment is a lone `=` after another
  (`Clipboard.SelectionState.ReadBack`), and a query whose last fragment is empty clears the selection
  (`Clipboard.SelectionState.ReadQuery`).
- **Clipboard bytes from 0x80 up** are sign-extended where `char` is signed, into the letters and into the count that is
  kept between fragments; which data in which fragments comes out right is `Sending.SentIsRfc`. An e with an acute accent is
  sent as `/6k=` and not as `w6k=` (`Sending.AcuteIsSpoilt`).
- **The UTF-8 decoder** writes one entry past its limit exactly when the last byte it takes ends an unfinished sequence
  and is a character itself (`Utf8.Utf8Decoder.Decode`).
- **What is told of an abandoned control string depends on how the input was cut**, and so does an ESC that follows an
  ESC in a string. Two cuts can differ exactly if there is such an ESC or an abandoned string has reported something since
  the last byte that hands out what is pending (`Cuts.CutsDoNotShow`, `Cuts.DifferentCuts`); what is told is then a prefix
  (`Cuts.HandedOutIsPrefix`), and nothing else differs (`Parser.CutsDoNotShow`).
- **An SGR report takes up to 20 arguments**, all the caller has room for (`Sgr.ReportFits`), and with
  bold-is-highbright a bold dark foreground does not survive the round trip (`Sgr.ReportRoundTrip`).
- **A fork snapshot after a failed mincore is not a full copy**, although the comment at its caller says so
  (`ForkSnapshot.Fork`).
- **A process that ends twice** can end another one that has been given its slot (`ProcessTable.SecondExitEndsAnother`).
- **The profile's cache** compares a handle cut to a pointer; the table is right exactly if no two neighbouring records
  are confused by that (`YperfReport.Report`).

## Model

| member | source | states |
|---|---|---|
| ControlSequences.RunConcat | src/libvterm/src/parser.c:111-386 | The reference machine does not see where one write ends and the next begins: running two inputs in turn is running their concatenation, events and final state alike. |
| ControlSequences.CleanConcat | src/libvterm/src/parser.c:152-164 | An input that abandons no control string can be cut anywhere, and each part abandons none from where the other left off. |
| ControlSequences.RunText | src/libvterm/src/parser.c:361-373 | Plain text in the ground state is reported byte by byte and leaves the parser there, so any split of a text run between callbacks says the same. |
| ControlSequences.RunPayload | src/libvterm/src/parser.c:293-303 | Printable bytes inside a control string are its data, one by one and in order. |
| Cuts.RunIsFull | src/libvterm/src/parser.c:111-386 | What the reference machine reports is what every cut reports, with all the events of abandoned strings that a cut may drop. |
| Cuts.HandedOutIsPrefix | src/libvterm/src/parser.c:111-386 | However the input is cut, the writes report what the reference machine does, but of each abandoned string only a prefix of the events since the last byte that hands out what is pending. |
| Cuts.CutsOutside | src/libvterm/src/parser.c:111-386 | However the input is cut, the mode and everything that is not of a control string are the reference machine's. |
| Cuts.CutsDoNotShow | src/libvterm/src/parser.c:111-386 | Every cut reports exactly what the reference machine does unless an abandoned string has such an event, or an ESC follows an ESC in a string. |
| Cuts.DifferentCuts | src/libvterm/src/parser.c:152-201 | For every other input there are two cuts that report different things: byte by byte, and in one write or with one pair of ESCs together. |
| Cuts.CleanShowsNothing | src/libvterm/src/parser.c:152-201 | Input that abandons no control string is never such an input. |
| Cuts.AbandonedTitle | src/libvterm/src/parser.c:152-160 | ESC ] 0 ; x CAN is one: its beginning and the x may be dropped or not. |
| Parser.VTermParser.StringFragment | src/libvterm/src/parser.c:64-109 | Handing out a slice says exactly: the beginning if it is the first, the slice's bytes, and the end if it is the last; outside a payload state it says nothing. |
| Parser.VTermParser.C1 | src/libvterm/src/parser.c:321-360 | Each C1 introducer opens its own kind of sequence, and every other C1 byte is reported as a control. |
| Parser.VTermParser.CsiArgsByte | src/libvterm/src/parser.c:220-243 | Digits extend the open argument, ':' and ';' open the next, ':' marks the one before, and any other byte is already the function's. |
| Parser.VTermParser.EscapedByte | src/libvterm/src/parser.c:185-201 | After ESC: a letter is hoisted into its C1 control, ESC \ ends a control string, intermediates collect, a final byte is the escape sequence, and anything else in a control string drops what was pending of it. |
| Parser.VTermParser.OscCommandByte | src/libvterm/src/parser.c:261-281 | The number of an OSC ends at ';', or at a byte that is already the first of its payload. |
| Parser.VTermParser.PayloadTerminator | src/libvterm/src/parser.c:187-196 | ESC \ ends a string without the ESC in its data, even when the ESC was the last byte of an earlier write. |
| Parser.VTermParser.NulByte | src/libvterm/src/parser.c:143-151 | NUL and DEL are dropped from wherever they stand; what was pending of a string is handed out before them. |
| Parser.VTermParser.ControlByte | src/libvterm/src/parser.c:170-180 | A C0 control acts at once, inside a control string too, without losing or repeating a byte of it; in SOS it is data. |
| Parser.VTermParser.InputByte | src/libvterm/src/parser.c:139-376 | One turn of the loop moves the live fields, the callbacks, what is pending and whether an ESC is pending with it exactly as the bytes it took say; CAN, SUB and a stray ESC drop what is pending. |
| Parser.VTermParser.Write | src/libvterm/src/parser.c:111-386 | A whole write of any orderly input reports exactly what Cuts.HearWrite says, leaves its mode and takes every byte. |
| Parser.VTermParser.WriteAll | src/libvterm/src/parser.c:111-386 | The same for any number of writes. |
| Parser.CutsDoNotShow | src/libvterm/src/parser.c:111-386 | Write-splitting independence: the same bytes, cut into nonempty writes in any two ways and with any answers of the text callback, give the same live state and the same text, controls, escapes and CSI functions; and the same callbacks altogether, adjacent text runs and fragments joined, on every input but those of CutsCanShow. |
| Parser.CutsCanShow | src/libvterm/src/parser.c:111-386 | On each of those some two ways to cut it end after different callbacks. |
| Grammar.CsiIsRead | src/libvterm/src/parser.c:204-259 | In either form, CSI with any leader bytes from 0x3c to 0x3f, any arguments, missing ones too, any intermediate bytes from 0x20 to 0x2f and a final byte from 0x40 to 0x7e is read from the ground state as that one function, of leader and intermediate bytes the first fifteen; with a byte that can neither end nor continue it, as nothing. |
| Grammar.EscapeIsRead | src/libvterm/src/parser.c:305-320 | ESC with any intermediate bytes and a final byte is read as that one escape sequence, of the intermediate bytes the first fifteen. |
| Grammar.C1IsRead | src/libvterm/src/parser.c:185-193 | Every C1 control that opens nothing is reported as itself, written as one byte or as ESC and a letter. |
| Grammar.StringIsRead | src/libvterm/src/parser.c:261-303 | A whole OSC, DCS, SOS, PM or APC, in either form, with any payload its kind allows and closed by ST in either form or by BEL, is read as the beginning of that kind, with its number or command, every byte of the payload, and the end. |
| Grammar.OscWithoutSemicolon | src/libvterm/src/parser.c:261-281 | An OSC whose number no ';' follows begins its payload, or ends, right there. |
| Grammar.TextIsRead | src/libvterm/src/parser.c:361-373 | Printable bytes from 0x20 to 0x7e, from 0xa0 up, and in UTF-8 mode from 0x80 up are text. |
| Grammar.ActsAnywhere | src/libvterm/src/parser.c:143-180 | In any state NUL and DEL leave it as it is, CAN and SUB lead to the ground state, ESC begins an escape sequence outside strings, and each other C0 control is reported at once, but for BEL in a string and all of them in SOS. |
| Grammar.EscLeavesString | src/libvterm/src/parser.c:185-201 | An ESC in a control string that no '\' follows leaves the string for an escape sequence in which no letter is a C1 control. |
| Grammar.CancelDrops | src/libvterm/src/parser.c:152-160 | A string that CAN or SUB ends in the write that began it is not reported at all. |
| Grammar.EscDrops | src/libvterm/src/parser.c:185-201 | Nor is one that an escape sequence ends; that sequence goes on as usual. |
| Grammar.ControlHandsOut | src/libvterm/src/parser.c:170-180 | A C0 control in a string hands out what came before it in the write, so that a later CAN drops only what came after. |
| Grammar.CsiReported | src/libvterm/src/parser.c:111-386 | Written to the parser itself in any nonempty pieces, every such CSI function with at most fifteen leader and intermediate bytes is reported as that function and nothing else. |
| Grammar.StringReported | src/libvterm/src/parser.c:111-386 | So is every such control string, as its beginning, its payload and its end. |
| Grammar.FunctionsInBytes | src/libvterm/src/parser.c:204-259 | ESC [ ? 2 5 h is CSI ? 25 h, and ESC [ 3 8 : 5 ; ; 1 m has four arguments, the first joined to the second and the third missing. |
| Grammar.TitleInBytes | src/libvterm/src/parser.c:261-307 | ESC ] 2 ; A BEL is OSC 2 with the payload A; a callback with several bytes counts as one for each. |
| Reflow.WrapKeepsCells | src/libvterm/src/screen.c:608-648 | Laying a line out at a width and joining its rows gives back its cells, up to blanks at the end. |
| Reflow.WrapHeight | src/libvterm/src/screen.c:552-557 | A line takes the number of rows the source computes before it writes any. |
| Reflow.WrapContinues | src/libvterm/src/screen.c:647 | All rows of a wrapped line but its first are marked as continuations. |
| Reflow.PlaceAllKeepsLogicalLines | src/libvterm/src/screen.c:534-652 | Re-laying every chain of a buffer at a new width keeps its logical lines, in order, trimmed to the width without reflow. |
| Reflow.PlaceAllConcat | src/libvterm/src/screen.c:534-652 | Lines can be laid out one at a time: two stretches of a buffer are laid out side by side unless the second begins inside a line of the first. |
| Reflow.PlaceAllClips | src/libvterm/src/screen.c:608-648 | Without reflow each row is placed by itself, clipped or padded. |
| Resize.LinePopcount | src/libvterm/src/screen.c:497-503 | The count of a row is the length of the row without its blank end. |
| Resize.FindLineStart | src/libvterm/src/screen.c:535-539 | Walking up over continuations finds the first row of the logical line that ends at this row. |
| Resize.LineWidth | src/libvterm/src/screen.c:541-547 | The width of a logical line is the number of its cells up to its last written one. |
| Resize.CopyCells | src/libvterm/src/screen.c:614-634 | A row of the new buffer takes exactly the next cells of the line, across the ends of old rows, and the cursor if it stood on one of them. |
| Resize.PlaceLine | src/libvterm/src/screen.c:608-648 | A logical line is written upwards as the rows its layout has, and nothing else of the new buffer changes. |
| Resize.MakeRoom | src/libvterm/src/screen.c:562-591 | When a line does not fit, as many blank rows at the bottom give way as it needs and as there are, unless that would put the cursor off the screen, in which case none do; the rows already written move down unchanged. |
| Resize.Verdict | src/libvterm/src/screen.c:562-598 | The source's test after making room, which looks at new rows and the cursor only, says exactly whether the line fits with the rows that are needed under it, down to the last written one and the cursor's. |
| Resize.LedgerNext | src/libvterm/src/screen.c:562-651 | Writing a line that fits keeps the account of rows, spare rows and cursor that the test relies on, and drops no row that is needed. |
| Resize.TakeLine | src/libvterm/src/screen.c:534-651 | One round of the loop either adds the next logical line up to what is laid out or stops, and then everything that will be pushed, lost and kept is settled. |
| Resize.FillRows | src/libvterm/src/screen.c:534-652 | The loop leaves the first line that fits and all below it laid out at the bottom of the new buffer, and stops on the first row of the line above. |
| Resize.Rebuild | src/libvterm/src/screen.c:507-744 | The whole rebuild, from the old buffer and the new size alone: which rows are pushed, which are on the new screen and what is in its every cell, and whether the source aborts. |
| Resize.TopIsFirstToFit | src/libvterm/src/screen.c:534-606 | The lines kept are exactly those that fit: if one does, all below it do. |
| Resize.AllIsKept | src/libvterm/src/screen.c:562-606 | Everything is kept, and nothing pushed, exactly if the rows down to the last written one and the cursor's fit the new screen when laid out. |
| Resize.WhichRowsAreLost | src/libvterm/src/screen.c:598-606 | A row ends up neither on the new screen nor in the scrollback exactly if it continues a line that does not fit while what is under that line does. |
| Resize.WhenItAborts | src/libvterm/src/screen.c:654-666 | The source aborts exactly when the cursor is on the last row of such a line, and that is not its first. |
| Resize.SecondRowIsLost | src/libvterm/src/screen.c:598-606 | It happens: four rows, the first two one line, on a screen that shrinks to three rows lose the second, and with it the cursor. |
| Resize.OnlyBlanksLeftOff | src/libvterm/src/screen.c:507-744 | The new screen is the layout of the rows kept, with blank rows added at the bottom or left off there and nothing else. |
| Resize.ReflowKeepsLogicalLines | src/libvterm/src/screen.c:507-744 | With reflow, the logical lines of the new screen are those of the old rows kept, cell for cell and in order, up to empty lines at the bottom. |
| Resize.ResizeConservesRows | src/libvterm/src/screen.c:521-742 | Without reflow the screen is cut to its last rows, exactly as many as fit counting down to the last written one and the cursor's; they stand in order, each clipped or padded, with blank rows under them, and all above them go to the scrollback. |
| Resize.ResizableScreen.Resize | src/libvterm/src/screen.c:507-744 | A resize pushes and shows exactly what the old screen and the new size call for and aborts exactly when the cursor's row is lost at the end of its line. The cursor goes exactly where NewCursor says: without reflow to its own column or the last one, and up by as many rows as were pushed, or to the top if its own was; and a cursor on a character of a row that is kept stands on that character, without reflow if its column is kept, with reflow unless it is under a full row. |
| Resize.StaysOnItsCell | src/libvterm/src/screen.c:614-641 | A cursor on a character of a row that is kept stands on the same character of the new screen, without reflow if its column is kept, with reflow unless its row begins a line under a full row that is kept too. |
| Resize.LeavesItsLine | src/libvterm/src/screen.c:636-641 | In that case it always ends above every row that its own line is laid out in. |
| Resize.LandIs | src/libvterm/src/screen.c:614-641 | A cell of a line stands as many rows down and columns along as its distance from the line's start counted off in rows of the new width; one beyond the text is on the last of them, at most in the last column. |
| Resize.CursorLands | src/libvterm/src/screen.c:608-648 | Writing one more line puts the cursor where it is laid out, or leaves it where the lines below put it. |
| Rects.Expand | src/libvterm/src/rect.h:9-16 | The expanded rectangle holds every cell of both. |
| Rects.ExpandIsLeast | src/libvterm/src/rect.h:9-16 | It is the least such rectangle: any other that has the rows and columns of both contains it. |
| Rects.Clip | src/libvterm/src/rect.h:18-28 | Clipping keeps exactly the cells both have, when they share any. |
| Rects.IntersectsIfShared | src/libvterm/src/rect.h:49-56 | Rectangles that share a cell are reported as intersecting. |
| Rects.IntersectsIfTouching | src/libvterm/src/rect.h:49-56 | Rectangles with cells are reported as intersecting exactly if they share one or touch along an edge or at a corner. |
| Rects.PlanCovers | src/libvterm/src/vterm.c:305-372 | Every cell of a scrolled rectangle is either moved from the cell at the scroll's offset or in the erased strip, according to whether that cell lies in the rectangle. |
| Rects.PlanShape | src/libvterm/src/vterm.c:305-372 | The move's source and destination have one shape and stay in the rectangle. |
| Damage.PlanScrolls | src/libvterm/src/vterm.c:305-372 | The moves and erasures asked for make every cell the old cell at the offset if that lies in the rectangle, and blank otherwise; no other cell changes. |
| Damage.ScrollTwice | src/libvterm/src/screen.c:217-295 | Two scrolls in the same direction are one scroll by their sum. |
| Damage.WholeScreenScroll | src/libvterm/src/screen.c:208-250 | A scroll of the whole screen drops rows at the top and adds erased ones at the bottom. |
| Damage.AdjustedDamage | src/libvterm/src/screen.c:358-391 | Stored damage outside a scrolled rectangle stays damaged. |
| Damage.ReportMoved | src/libvterm/src/screen.c:252-268 | After the client moved its cells only the erased strip is left to re-read. |
| Damage.ReportUnmoved | src/libvterm/src/screen.c:252-268 | A client that refuses the move has the whole rectangle to re-read. |
| Damage.MergedScrollsAgree | src/libvterm/src/screen.c:338-343 | Exactly when two merged scrolls along one axis show the client the right screen: same way, cancelled out, or the full size. |
| Damage.StaysRightIs | src/libvterm/src/screen.c:328-391 | For any pending scroll, stored damage and new scroll, the test on rectangles says whether every cell the client will copy is either re-read afterwards or gets from the new scroll a cell that was right before it. |
| Damage.ScrollAhead | src/libvterm/src/screen.c:328-391 | If so, on every screen the buffer is ahead of the mirror by exactly the scroll that is still to be reported, but for the stored damage. |
| Damage.ScrollLeavesWrong | src/libvterm/src/screen.c:328-391 | If not, there is a screen that a client, right but for the damage and the pending scroll, no longer shows after the scrolls are reported as one and the damage re-read. |
| Damage.DamageIsMovedTwice | src/libvterm/src/screen.c:312-326 | Outside VTERM_DAMAGE_SCROLL, for every stored damage that the reported scroll copies from, there is a screen that a client that was right before it no longer shows. |
| Damage.AdjustedDamageOnScreen | src/libvterm/src/screen.c:358-362 | Damage moved inside a rectangle stays on the screen exactly if it does not start past the bottom or the right edge afterwards. |
| Damage.DamageLeavesTheScreen | src/libvterm/src/screen.c:358-362 | Otherwise it is an empty rectangle beyond the edge, and expanding it by any later damage makes one that reaches off the screen. |
| Screen.VTermScreen.DamageRect | src/libvterm/src/screen.c:104-159 | Whatever the merge mode, the client's mirror differs from the screen only inside the damage that is kept; and what is emitted and what is kept is exactly what the mode calls for: the rectangle itself, the run of columns of one row, or the least rectangle around all of it. |
| Screen.VTermScreen.FlushDamage | src/libvterm/src/screen.c:1074-1089 | Flushing reports the stored scroll, then the stored damage, and leaves neither. |
| Screen.VTermScreen.MoverectInternal | src/libvterm/src/screen.c:217-250 | Rows copied in place, in the order the overlap needs, are the old rows; rows that leave the top of the screen go to the scrollback in order. |
| Screen.VTermScreen.EraseInternal | src/libvterm/src/screen.c:270-295 | Every cell of the rectangle is cleared to the current pen and its line's attributes, but protected cells when selective. |
| Screen.ErasedRowIs | src/libvterm/src/screen.c:270-295 | An erased cell is empty and unprotected, has the pen's two colours and none of its other attributes, and the width and height of its line. |
| Screen.VTermScreen.ScrollInternal | src/libvterm/src/screen.c:352-353 | Despite overlapping in-place moves a scroll meets its pointwise specification, and pushes exactly the rows that leave a full-width region at the top of the screen. |
| Screen.VTermScreen.ScrollWholeScreen | src/libvterm/src/screen.c:208-250 | Scrollback followed by screen is what it was followed by erased rows: no line is lost, repeated or reordered. |
| Screen.VTermScreen.Linefeeds | src/libvterm/src/state.c:158-172 | Over any number of linefeeds at the bottom of the screen, scrollback followed by screen is what it was followed by as many erased rows. |
| Screen.VTermScreen.ScrollRect | src/libvterm/src/screen.c:312-394 | A deferred or immediate scroll scrolls the buffer, hands the scrollback exactly the rows that a full-width scroll by less than the height moves off the top of the screen, and leaves the mirror right but for what is stored, for a client without moverect always and for one with it exactly when every screen would come out right. |
| Screen.VTermScreen.Erase | src/libvterm/src/screen.c:297-310 | An erase changes its rectangle and no other cell, and all of it is covered by damage. |
| Screen.VTermScreen.PutGlyph | src/libvterm/src/screen.c:173-206 | A glyph fills its cell with its characters and the pen, marks the cells behind it, changes no other, and is covered by damage unless its width is 0. |
| Screen.VTermScreen.Flush | src/libvterm/src/screen.c:1074-1089 | After a flush the client's mirror is the screen, and nothing is stored. |
| Screen.VTermScreen.RunSteps | src/libvterm/src/screen.c:104-394 | Any run of glyphs, erasures, scrolls, pens, flushes and mode changes makes of screen and scrollback what the steps say one by one, and keeps the mirror right but for what is stored, whatever a client with moverect answers each time; it stops only at a scroll after which some screen would be shown wrong. |
| Screen.VTermScreen.Run | src/libvterm/src/screen.c:1074-1095 | Deferred damage and scroll refine a full re-read: after any run and a flush the mirror is the screen, and the screen and the scrollback are what the steps make of them cell by cell, in all four merge modes; without moverect on every run. |
| StateLayer.VTermState.Scroll | src/libvterm/src/state.c:112-156 | A scroll asks for the rectangle with the distance cut to its size, nothing outside the screen, and moves the attributes of full lines along. |
| StateLayer.VTermState.ScrollLines | src/libvterm/src/state.c:129-147 | Line attributes move with full lines, and uncovered lines are plain. |
| StateLayer.VTermState.Erase | src/libvterm/src/state.c:44-57 | Erasing to the end of lines cancels the continuation mark of exactly the lines after them. |
| StateLayer.VTermState.Linefeed | src/libvterm/src/state.c:158-172 | A linefeed scrolls the region at its bottom, moves down elsewhere, and stays on the last row. |
| StateLayer.VTermState.TabForward | src/libvterm/src/state.c:217-236 | A tab lands on the count-th stop to the right, or at the edge of the row if there are fewer. |
| StateLayer.VTermState.TabBackward | src/libvterm/src/state.c:217-236 | A back tab lands on the count-th stop to the left, or in the first column. |
| StateLayer.VTermState.DrawGlyph | src/libvterm/src/state.c:387-433 | A glyph that does not fit, or follows a full row, goes to the next row, which is marked as continued; in insert mode it is made room for; the cursor ends behind it, or on the last column awaiting a wrap; all of it is in the screen exactly when it is no wider than that; one of negative width takes the cursor out of the screen exactly when it is wider than the room to its left. |
| StateLayer.GlyphFollows | src/libvterm/src/state.c:387-433 | A glyph that fits behind the cursor is asked for there and nothing else is, but in insert mode first the shift of the rest of the row by one column; the cursor moves by its width, or stays on the last column and awaits a wrap. |
| StateLayer.GlyphWraps | src/libvterm/src/state.c:387-393 | One that does not fit, or comes after a full row, is asked for at the start of the next row, or of the same row after a scroll of the region by one line, and that row is marked as continued. |
| StateLayer.VTermState.OnText | src/libvterm/src/state.c:272-447 | The cursor, the lines and every request are those of drawing the text glyph by glyph, after combining characters at its start have joined the last glyph if the cursor is still behind that; the last glyph is remembered with its place; text is drawn in order and whole, but for combining characters past what a cell holds, and all stays in the screen unless a glyph is wider than that or goes back past its left edge. |
| StateLayer.VTermState.OnControl | src/libvterm/src/state.c:449-546 | Each control moves the cursor as its standard says and no other way, HT to the next stop or the last column; LF, VT, FF, IND, NEL and RI scroll the region by one line at its edge, with the attributes of full lines, and no other control asks for anything or changes a line; only HTS sets a stop; unknown ones change nothing. |
| StateLayer.TabsOfEight | src/libvterm/src/state.c:464-466 | From (0, 3) of a terminal as it starts HT leads to (0, 8), and again to (0, 16). |
| StateLayer.StopsCount | src/libvterm/src/state.c:217-236 | The stops that tabs pass are counted one for each column with a stop. |
| StateLayer.LinesAfterOne | src/libvterm/src/state.c:129-147 | A scroll of full lines by one drops the first or the last of them and brings a plain one, and nothing else moves otherwise. |
| StateLayer.LinesAfterTwice | src/libvterm/src/state.c:129-147 | Two scrolls in one direction leave the attributes that one by their sum does. |
| StateLayer.VTermState.OnEscape | src/libvterm/src/state.c:591-730 | DECSC, DECRC, RIS, the line widths and DECALN do what they say to the cursor, the line it is on, the whole state or every cell; any other escape sequence changes nothing that is kept here. |
| StateLayer.FullOfEAt | src/libvterm/src/state.c:646-654 | DECALN asks for an E in every cell, in reading order. |
| StateLayer.VTermState.SaveCursor | src/libvterm/src/state.c:566-589 | Restoring puts the cursor where it was saved. |
| StateLayer.VTermState.Reset | src/libvterm/src/state.c:2072-2137 | A reset opens the margins, puts the modes as at the start, sets a stop every eight columns and makes every line single; a hard one homes the cursor and erases the screen, which leaves no line but the first a continuation. |
| StateLayer.VTermState.ClampCursor | src/libvterm/src/state.c:1547-1558 | Wherever a CSI function left the cursor it comes back into the screen, or into the margins in origin mode. |
| StateLayer.VTermState.ClampedIsNearest | src/libvterm/src/state.c:1547-1558 | The row it comes back to is the nearest in the screen, or in the margins, and so is the column. |
| StateLayer.VTermState.EraseDisplay | src/libvterm/src/state.c:1059-1105 | ED erases exactly the cells from the cursor on, up to it, or all, in reading order, and nothing when it clears the scrollback. |
| StateLayer.VTermState.EraseLine | src/libvterm/src/state.c:1107-1129 | EL erases exactly the columns of the cursor's row from the cursor on, up to it, or all. |
| StateLayer.ErasureInOrder | src/libvterm/src/state.c:1059-1129 | Counted in reading order, 0 erases from the cursor's cell on, 1 up to it, 2 everything, and any other argument nothing. |
| StateLayer.LinesFollowErasure | src/libvterm/src/state.c:1059-1105 | A line stops continuing the one above exactly if ED erases that one's last cell, and is made single exactly if it is erased, on the cursor's line only by 2. |
| StateLayer.VTermState.Shift | src/libvterm/src/state.c:979-1201 | ICH, DCH, IL, DL, SU, SD, DECIC and DECDC each shift their part of the row or region in their direction, with the attributes of full lines, and all but SU and SD nothing while the cursor is outside it. |
| StateLayer.VTermState.ShiftTable | src/libvterm/src/state.c:979-1201 | One by one, the rectangle, direction and distance that each of them asks for, at most the size of the rectangle. |
| StateLayer.VTermState.Repeat | src/libvterm/src/state.c:1232-1247 | REP terminates when the last glyph takes up room, draws it side by side as often as it takes to fill the count or the row, and all of that is in the screen exactly if the last one ends there. |
| StateLayer.VTermState.RepTimesFill | src/libvterm/src/state.c:1232-1247 | That is the least number of glyphs that fills the count or what is left of the row. |
| StateLayer.RepeatedAt | src/libvterm/src/state.c:1232-1247 | The k-th of them stands k widths along. |
| StateLayer.VTermState.SetVerticalMargins | src/libvterm/src/state.c:1453-1478 | DECSTBM sets the rows asked for, cut to the screen, if any is left, and the whole screen otherwise. |
| StateLayer.VTermState.SetHorizontalMargins | src/libvterm/src/state.c:1480-1507 | DECSLRM sets the columns asked for, cut to the screen, if any is left, and the whole width otherwise; with no right margin asked for, the left margin stays inside the screen exactly when it was asked to. |
| StateLayer.VTermState.MarginRowsAre | src/libvterm/src/state.c:1453-1478 | Without arguments DECSTBM leaves all rows, and with two in order the rows they number from one, both included. |
| StateLayer.VTermState.MarginColsAre | src/libvterm/src/state.c:1480-1507 | The same for DECSLRM and columns. |
| StateLayer.VTermState.SetDecMode | src/libvterm/src/state.c:749-841 | Each mode changes the cursor, the saved cursor, the modes, the lines of both buffers and the requests as AfterMode says, and nothing else that is kept here. |
| StateLayer.OriginAndWrap | src/libvterm/src/state.c:760-772 | Mode 6 homes the cursor to the corner that addresses then count from, on and off; 7 is autowrap. |
| StateLayer.SideMargins | src/libvterm/src/state.c:782-791 | Mode 69 turns the side margins on and makes every line of the buffer in use single, or turns them off. |
| StateLayer.AlternateScreen | src/libvterm/src/state.c:820-831 | 1047 switches screens, 1048 saves or restores the cursor, 1049 does both; switching to the alternate screen erases it. |
| StateLayer.VTermState.OnCsi | src/libvterm/src/state.c:926-1584 | Every CSI function ends with the cursor in the screen, and what it does to the cursor, the requests, the lines, the modes, the margins and the tab stops is said final byte by final byte, and that it does nothing else: movements and tabs aim at their target and are brought back, ECH, ED and EL erase their cells and the selective ones spare protected cells, shifts and REP ask for exactly their rectangles and glyphs, SM, RM, TBC, DECSET, DECRST and DECSTR change what they name. The saved cursor is left outside exactly by a DECSET that saves the corner of a left margin past the last column, and something is asked for outside exactly by a REP whose last glyph ends there. |
| StateLayer.FunctionTable | src/libvterm/src/state.c:978-1546 | Which final bytes are known, with which leader and intermediate bytes and for EL and TBC with which arguments; which of them move the cursor by their arguments, and which ask for anything. |
| StateLayer.MovesAre | src/libvterm/src/state.c:997-1345 | Where each movement aims for a count or an address, for 0 and for an argument left out, with addresses counted from one and from the origin. |
| StateLayer.VTermState.Run | src/libvterm/src/state.c:272-1584 | Over any run of text, controls, escapes and CSI functions the cursor and the saved cursor stay in the screen, the scroll region keeps a row, and all cells of every request are in the screen, up to the first step that breaks one of these in a way OnText or OnCsi names, or an endless REP; a run without REP, without DECSET of origin mode and saving, and with glyphs no wider than the screen never stops. |
| StateLayer.ModesSaved | src/libvterm/src/state.c:749-841 | The saved cursor leaves the screen exactly when, with the left margin past the last column, one DECSET sets origin mode with the side margins on and then saves the cursor. |
| StateLayer.SavedCornerLeaves | src/libvterm/src/state.c:760-767 | A run of four sequences after which the cursor is outside the screen: CSI ? 69 h, DECSLRM, CSI ? 6 ; 1048 h and ESC 8. |
| StateLayer.WideRepeatLeaves | src/libvterm/src/state.c:1232-1247 | A run after which a glyph has been asked for past the last column: a glyph of width 2, CUP to the last column, CSI 1 b. |
| StateLayer.VTermState.ReportRestores | src/libvterm/src/state.c:1373-1395 | Exactly when a cursor report, sent back as CUP, puts the cursor where it was. |
| Base64.ReadEncoded | src/libvterm/src/state.c:1586-1615 | Reading the Base64 text of any data from the start of a group gives the data and leaves no group unfinished. |
| Base64.LettersRoundTrip | src/libvterm/src/state.c:1586-1615 | The two letter tables undo each other on all 64 letters and on every other byte. |
| Base64.LettersAre | src/libvterm/src/state.c:1586-1615 | The 64 letters are those of Table 1 of RFC 4648, in its order. |
| Base64.TestVectors | src/libvterm/src/state.c:2268-2347 | The encoding of "f", "fo", "foo" and "foobar" is that of the test vectors of RFC 4648. |
| Base64.PadsLast | src/libvterm/src/state.c:2328-2345 | Pads stand at the very end of encoded text and nowhere else, as many as the final group lacks bytes. |
| Base64.EndReleases | src/libvterm/src/state.c:1707-1754 | Without its last letter, or its run of pads, encoded text has not yet given all its bytes. |
| Clipboard.SelectionState.ParseMask | src/libvterm/src/state.c:1624-1659 | The selection letters are read up to the first ';', and no letter at all means the default pair. |
| Clipboard.SelectionNames | src/libvterm/src/state.c:1624-1659 | c, p, q, s and 0 to 7 name the clipboard, primary, secondary, select and cut buffers; any other character is passed over; ';' ends the names, and none named means select and cut buffer 0. |
| Clipboard.LetterNames | src/libvterm/src/state.c:2268-2283 | The letter that is sent names the first of the targets in the order c, p, q, s; cut buffers alone have none. |
| Clipboard.SelectionState.DecodeLoop | src/libvterm/src/state.c:1693-1774 | Over one fragment the loop hands out, in buffers of at most its size, exactly the bytes its letters complete, the first marked initial if nothing was handed out before, and the last final if the fragment is and its last turn gave bytes. |
| Clipboard.SelectionState.OscSelection | src/libvterm/src/state.c:1617-1775 | After a fragment the decoder stands where its text leads, however it was cut, and the client was told exactly what that fragment calls for. |
| Clipboard.SelectionState.ReadString | src/libvterm/src/state.c:1617-1775 | The same for all fragments of one OSC 52. |
| Clipboard.SelectionState.ReadBack | src/libvterm/src/state.c:1617-1775 | Fed the Base64 text of any data in any fragments, the client gets the data in order, one callback marked initial, none but the last final, and the final mark unless the last fragment is a lone '=' after another. |
| Clipboard.SelectionState.ReadQuery | src/libvterm/src/state.c:1661-1688 | A query asks exactly once per fragment that is not empty and ends past the ';', and clears the selection as well exactly when the last fragment is empty. |
| Clipboard.EndPastIs | src/libvterm/src/state.c:1661-1688 | The count is that of the fragments which are not empty and end past the ';'. |
| Clipboard.RegularSelection | src/libvterm/src/state.c:1707-1754 | Encoded text never has a letter after a pad, in any prefix. |
| Clipboard.LastFragmentTells | src/libvterm/src/state.c:1756-1769 | The last fragment's last turn gives the client something exactly unless all it has is a second pad. |
| Clipboard.SelectionState.SendSelection | src/libvterm/src/state.c:2268-2347 | After any fragments of any bytes what was pushed is the opening and the letters of the groups so far, as the source's 32-bit word makes them, and after the final one the padded last group and the terminator. |
| Clipboard.SelectionState.SendAll | src/libvterm/src/state.c:2268-2347 | However any bytes are cut and whatever the buffer's size from 4 up, the output between opening and terminator is the RFC 4648 text of the whole data exactly if its bytes and its cuts survive the sign extension. |
| Sending.GroupSurvives | src/libvterm/src/state.c:2299-2313 | With a signed char, exactly which groups of three bytes are encoded right: those where a byte from 0x80 up stands first or has only 0xff before it. |
| Sending.SentIsRfc | src/libvterm/src/state.c:2285-2346 | A transmission is RFC 4648 exactly if every byte from 0x80 up stands first in its group or behind 0xff only and not alone in the last, and no cut comes inside a group after one, except between the two bytes of a last group of two. |
| Sending.Progress | src/libvterm/src/state.c:2285-2326 | Over any fragments the encoder stands where the data leads while no such cut has come, and from the first one on its count is wrong for good. |
| Sending.SevenBitSurvives | src/libvterm/src/state.c:2268-2347 | Text without bytes from 0x80 up always comes out as RFC 4648. |
| Sending.AcuteIsSpoilt | src/libvterm/src/state.c:2285-2346 | U+00E9 in UTF-8 is sent as the Base64 of 0xff 0xa9. |
| Clipboard.SentIsRead | src/libvterm/src/state.c:2268-2347 | What is sent, in either form of the controls, is, to the byte parser, one OSC 52 string, whose data is exactly what ReadBack reads back; the 8-bit form only where the parser takes 8-bit controls. |
| Sgr.InterpretKeepsWellFormed | src/libvterm/src/pen.c:276-469 | Whatever the arguments, the pen stays one that can be reported. |
| Sgr.PenState.SetPen | src/libvterm/src/pen.c:276-469 | The loop over the arguments leaves the pen that interpreting them group by group gives, and keeps it well formed. |
| Sgr.AttributeCodes | src/libvterm/src/pen.c:289-395 | For any pen and either setting of highbright: 0 and a missing argument reset it, each of 1, 3, 4, 5, 7, 8, 9 and 21 to 25 and 27 to 29 sets or clears its own attribute, 10 to 19 select a font, 1 brightens a dark foreground under highbright, and every other field keeps its value. |
| Sgr.ColourCodes | src/libvterm/src/pen.c:397-461 | 30 to 37, 90 to 97, 40 to 47, 100 to 107, 39, 49 and 73 to 75 set their colour or script and nothing else, and every other number changes nothing. |
| Sgr.CodeByCode | src/libvterm/src/pen.c:276-469 | An argument other than 38 and 48 has its effect whatever follows it. |
| Sgr.SubArgumentsSkipped | src/libvterm/src/pen.c:467-468 | What ':' joins to any code but 4, 38 and 48 is passed over. |
| Sgr.UnderlineCodes | src/libvterm/src/pen.c:309-329 | 4:0 to 4:3 are no, single, double and curly underline, and any other style is single. |
| Sgr.LongColourCodes | src/libvterm/src/pen.c:91-114 | 38 and 48 with 5 or 2, joined by ':' or ';', set a colour of the palette of 256 or of red, green and blue, each cut to a byte. |
| Sgr.NoColour | src/libvterm/src/pen.c:91-114 | With another palette, or arguments missing, they change nothing and use up only what is there. |
| Sgr.PenState.GetPen | src/libvterm/src/pen.c:504-549 | The array holds the report, and never runs over. |
| Sgr.ReportFits | src/libvterm/src/pen.c:504-549 | A report has at most 20 arguments, and 20 exactly for a pen with everything set. |
| Sgr.SingleReports | src/libvterm/src/pen.c:471-549 | A colour is reported by its shortest code, and so is each underline. |
| Sgr.FullReport | src/libvterm/src/pen.c:504-549 | A pen with everything set is reported in the order of the source. |
| Sgr.ReportInterpreted | src/libvterm/src/pen.c:276-549 | Interpreting a report from a reset pen gives the pen, but for a foreground that bold has brightened. |
| Sgr.ReportRoundTrip | src/libvterm/src/pen.c:276-549 | The round trip holds exactly unless bold is highbright, the pen is bold and its foreground is one of the eight dark colours. |
| Sgr.PenState.ReplySgr | src/libvterm/src/state.c:1830-1858 | The DECRQSS answer is DCS 1 $ r, the report's numbers joined by ':' and ';', m and ST. |
| Sgr.ReplyIsRead | src/libvterm/src/state.c:1830-1858 | To a parser it is one control string with that command and the report as its payload. |
| Sgr.PrintedIsRead | src/libvterm/src/parser.c:204-259 | The byte parser reads printed arguments back one for one; printing none is read as one missing. |
| Sgr.PrintedReportRoundTrip | src/libvterm/src/state.c:1830-1858 | The printed report, read by the byte parser and interpreted from a reset pen, gives the pen under the same exact condition. |
| Utf8.FillUtf8 | src/libvterm/src/utf8.h:16-38 | Writing backwards gives exactly the encoding of RFC 2279, and touches no other byte. |
| Utf8.EncodingTable | src/libvterm/src/utf8.h:16-38 | The encoding is, range by range, the table of section 2 of RFC 2279. |
| Utf8.RunConcat | src/libvterm/src/encoding.c:28-155 | The decoder does not see where one piece of input ends and the next begins, malformed or not. |
| Utf8.CheckedIsCanonical | src/libvterm/src/encoding.c:74-104 | A finished sequence that is not overlong or excluded is the encoding of its value. |
| Utf8.SequenceIsRead | src/libvterm/src/encoding.c:74-149 | Any sequence of the right shape is read as its value, or as U+FFFD exactly if that needs fewer bytes or is a surrogate, U+FFFE or U+FFFF. |
| Utf8.MisfitsAre | src/libvterm/src/encoding.c:52-149 | A stray continuation byte, 0xfe, 0xff and a sequence broken off are each U+FFFD, and the byte that broke it off still counts. |
| Utf8.AcceptedAre | src/libvterm/src/encoding.c:74-104 | The code points that survive are all from a space up but DEL, the surrogates, U+FFFE and U+FFFF. |
| Utf8.RunIsCanonical | src/libvterm/src/encoding.c:28-155 | On input free of 0xfe and 0xff the decoder cuts what it reads into pieces, loses nothing, and every piece either encodes to exactly its bytes or is U+FFFD. |
| Utf8.RoundTrip | src/libvterm/src/encoding.c:28-155 | Every text of accepted code points survives encoding and decoding, and leaves the decoder idle. |
| Utf8.Utf8Decoder.TakeByte | src/libvterm/src/encoding.c:40-153 | One byte gives at most two code points, those of the reference step. |
| Utf8.Utf8Decoder.Decode | src/libvterm/src/encoding.c:28-155 | A call stops at a control, at the end, or with the buffer full, has made progress if it could, and wrote exactly the code points of what it took; it writes one entry past the limit exactly when the last byte gives two code points with room for one. |
| Utf8.Utf8Decoder.FeedAll | src/libvterm/src/encoding.c:28-155 | Any input without controls, in any chunks and with any buffer, decodes as in one piece. |
| Utf8.Utf8Decoder.ReadBack | src/libvterm/src/encoding.c:28-155 | Encoded text in any chunks gives back its code points. |
| TextExtraction.OwedSpaces | src/libvterm/src/screen.c:930-949 | A row's cells are its text up to the last glyph and the spaces it would owe to a next one. |
| TextExtraction.ThreeRows | src/libvterm/src/screen.c:930-956 | A blank cell before a glyph is a space and one after the last is nothing, the gap behind a wide glyph is nothing, and rows are a line feed apart. |
| TextExtraction.FittingIsMost | src/libvterm/src/screen.c:915-929 | What a short buffer gets is the longest prefix of whole code points that fits. |
| TextExtraction.Output.Put | src/libvterm/src/screen.c:915-929 | A code point goes in whole or not at all, what no longer fits is only counted, and the rest of the buffer is untouched. |
| TextExtraction.Output.GetChars | src/libvterm/src/screen.c:910-958 | The call returns the size of the rectangle's whole text, with or without a buffer, and leaves in the buffer the whole code points that fit. |
| TextExtraction.GetText | src/libvterm/src/screen.c:960-968 | Asking without a buffer tells the length a large enough call writes, and that call writes the UTF-8 of exactly what get_chars gives. |
| SetJmp.Runtime.SlotFor | src/yos/main.c:867-881 | A setjmp finds a slot exactly unless all 64 belong to other jmp_bufs that are not below the stack pointer: its own, the first free one, or the first that is free once the dead are reaped; no other is ever reaped. |
| SetJmp.Runtime.ReapDead | src/yos/main.c:925-941 | Exactly the jmp_bufs below the stack pointer lose their slot and image. |
| SetJmp.Runtime.Setjmp | src/yos/main.c:809-893 | The three ways through setjmp: the landing delivers the longjmp's value, never 0; a frame on the way returns 0 and goes on; a first call starts a capture or returns -1. |
| SetJmp.Runtime.Longjmp | src/yos/main.c:960-993 | A longjmp to a jmp_buf no setjmp has registered ends the process; any other starts an unwind with its value, 0 made 1. |
| SetJmp.Runtime.PumpTurn | src/yos/main.c:1011-1067 | A turn either keeps the image that the unwind has just left, or puts back the target's image for the rewind to consume. |
| SetJmp.Runtime.Run | src/yos/main.c:809-1085 | Over any run, with the guest and asyncify writing memory at will, each step does exactly its own part to slots, memory, flags and history; every rewind for a longjmp starts from the image of the latest setjmp on its jmp_buf, every landing delivers the latest longjmp's nonzero value, and live slots keep distinct keys. |
| SetJmp.KeptCaptured | src/yos/main.c:1021-1043 | Capturing into one slot leaves every live slot with the latest image of its own jmp_buf. |
| SetJmp.LastCaptureIs | src/yos/main.c:1021-1043 | The latest image of a jmp_buf is one that was captured for it with no capture for it after. |
| ForkSnapshot.Cut | src/yos/proc.c:1139-1157 | The head ends at a page boundary or with the memory, and what is left after the whole pages is less than one. |
| ForkSnapshot.LivePages | src/yos/proc.c:1170-1188 | The bytes of a run of pages are live exactly when its pages are resident. |
| ForkSnapshot.CopyMiddle | src/yos/proc.c:1170-1188 | The loop over the pages copies and notes exactly the runs of resident ones. |
| ForkSnapshot.Snapshot | src/yos/proc.c:1120-1209 | A snapshot equals the source, its regions are in order, apart, in range and cover exactly the live bytes, and as many as fit are recorded; only a failed mincore leaves it short. |
| ForkSnapshot.Restore | src/yos/proc.c:694-728 | Restoring copies exactly what the usable regions cover, or everything if there is no list. |
| ForkSnapshot.Fork | src/yos/proc.c:694-728 | The child's memory equals the parent's byte for byte, on the region list and on the overflow path, exactly when mincore succeeds or is not needed, or nothing past the head is nonzero. |
| ProcessTable.StatusDecodes | src/yos/proc.c:1538-1549 | The status word gives back the signal exactly when it fits seven bits, and the exit code modulo 256. |
| ProcessTable.SlotsHaveDistinctPids | src/yos/proc.c:59-87 | Occupied slots have distinct pids below the next one. |
| ProcessTable.Conservation | src/yos/proc.c:59-102 | Every pid ever given out is live, a zombie, reaped or dropped, and only one of these. |
| ProcessTable.Runtime.Alloc | src/yos/proc.c:59-87 | The first free slot and a pid never given out before, or nothing exactly when the table is full. |
| ProcessTable.Runtime.Find | src/yos/proc.c:89-102 | A pid is found exactly if its process is live or a zombie. |
| ProcessTable.Runtime.Exit | src/yos/proc.c:173-189 | Whatever live process is in the caller's slot becomes a zombie with this code, and a freed slot stays free. |
| ProcessTable.Runtime.WaitPid | src/yos/proc.c:1465-1534 | A wait by a process reaps a zombie exactly if one was made by that process and matches the pid asked for, of several the first in the table; it says there are no children exactly if no live or dead process that is not yet reaped was made by it and matches; otherwise nothing changes. |
| ProcessTable.Runtime.Run | src/yos/proc.c:59-190 | Over any run each step does exactly its own part to slots, pids and fates; no pid is reaped twice, every pid keeps the parent it was given out with, which is the one that is told of its end, and occupied slots have distinct pids; and if each process ends at most once, what a wait tells is how that process ended. |
| ProcessTable.SecondExitEndsAnother | src/yos/proc.c:173-189 | Why once: after a process was killed and reaped and its slot given out, its thread's exit ends the new process. |
| ProcessTable.KilledAndReaped | src/yos/proc.c:1465-1549 | Process 1 makes process 2, which is killed by signal 9: the wait of process 1 is told status 9 of process 2, and the slot is free. |
| YperfReport.OwnTimesConserve | nixpkgs/pkgs/yperf-wasm/yperf.c:243-252 | The own times of all calls add up to the time of the outermost ones. |
| YperfReport.OneCallOfTwo | nixpkgs/pkgs/yperf-wasm/yperf.c:243-252 | A call of ten that makes two calls of three and one has a time of its own of six. |
| YperfReport.WalkOne | nixpkgs/pkgs/yperf-wasm/yperf.c:278-290 | A record takes off the stack exactly its children, and instants that take no time, so its self time is its own. |
| YperfReport.WalkIsRight | nixpkgs/pkgs/yperf-wasm/yperf.c:271-309 | On records of properly nested calls in order of exit the pass computes every call's own time, and they add up to the time of the outermost calls. |
| YperfReport.BookMistaken | nixpkgs/pkgs/yperf-wasm/yperf.c:292-302 | A record that the cache sends to another function's line leaves that line with more calls than its function had. |
| YperfReport.SortStats | nixpkgs/pkgs/yperf-wasm/yperf.c:311-320 | The insertion sort permutes the lines into descending order. |
| YperfReport.Report | nixpkgs/pkgs/yperf-wasm/yperf.c:243-320 | The table has one right line per function, in descending order, exactly when no record's handle is its predecessor's cut to a pointer. |
| YperfReport.ReportCalls | nixpkgs/pkgs/yperf-wasm/yperf.c:243-320 | On the records of properly nested calls, unless a cut handle is mistaken, the table has one line for exactly the functions that were called, each with its calls, their time and the sum of their own times, and these add up to the time of the outermost calls. |

## Left out

- Inside a control string, a C0 control, NUL or DEL between an ESC and the byte after it, and an empty write while an ESC is pending: the length of the next fragment would be negative.
- The text callback is taken to eat only text bytes; SGR and CSI arguments are a growing sequence of unbounded numbers, and fragment lengths, cursor arithmetic and counts are unbounded integers.
- Parser.CutsDoNotShow: does not cover the inputs above, and so neither do InputByte, Write and WriteAll.
- Parser.VTermParser.NulByte: does not cover a NUL or DEL between ESC and the byte after it in a control string, as above.
- Parser.VTermParser.ControlByte: does not cover a C0 control there, as above.
- Resize.ResizableScreen.Resize: models the active primary buffer without sb_popline and a top row that is not a continuation; the alternate screen and rows pulled back from the scrollback are not modelled.
- Screen.VTermScreen.Run: follows a client with moverect up to the first scroll that is not safe, that is, one after which some screen would come out wrong if it were flushed then; what the client shows after it is left open.
- Screen.VTermScreen.PutGlyph: takes glyphs that fit the row and leaves a width-0 glyph uncovered by damage, as the source does; what stands in the cells behind the gap mark is not modelled.
- Damage.MergedScrollsAgree: is about a screen where no cell looks erased, and for vertical scrolls one without double-width or double-height lines; on others a wrong copy may happen to look right.
- Cuts.HandedOutIsPrefix: is about input without an ESC that follows an ESC in a string; what such an ESC may add is told by DifferentCuts only for one pair.
- Damage.ScrollTwice: assumes that erased cells look alike on every row when the second scroll is vertical, that is, no double-width or double-height lines.
- StateLayer.VTermState.Run: what happens after the cursor or a glyph has left the screen is left open; requests may be empty or inverted rectangles on double-width rows.
- StateLayer.VTermState.OnText: starts from decoded code points; how many of a long text one call takes is the decoder's, and a glyph joined by combining characters of an earlier call is only redrawn whole.
- Clipboard.SelectionState.SendSelection: takes `char` as signed and `(n << 24)` as wrapping in 32 bits; where `char` is unsigned every byte is as one below 0x80 is here.
- Clipboard.SelectionState.OscSelection: does not cover a letter after a pad, where the source goes on with stale bits and may pack them over its count, nor buffers shorter than 3, which drop the text; clients without a set or query callback are not modelled.
- The union that the clipboard state shares with the DECRQSS request, tmpbuffer and output buffer limits, and the collection of a DECRQSS request's characters are not modelled.
- Sgr.PenState.SetPen: takes arguments past the last as missing, where the source reads what an earlier sequence left in its array; a pen that still has default colours from before they were changed counts as default.
- Grammar.CsiIsRead: takes arguments below 2^31 - 1, or missing, in any number; the source's array of 16 is not modelled.
- Grammar.WritesReport: is about input without CAN and SUB in which ESC only opens the input or is part of ST.
- Sgr.PrintedReportRoundTrip: uses the parser's growing arguments; the source's array of 16 is not modelled.
- Utf8.Utf8Decoder.Decode: asks for one entry more than cplen, so that the write past it can be told; Stops, the controls and DEL, are left to the caller as in the source.
- Utf8.FillUtf8: covers code points below 2^31.
- SetJmp.Runtime.Run: takes asyncify as arbitrary writes between host calls and memory of at least 68 buffers that never shrinks; a save that overflows its buffer and a failing malloc are not modelled. A jmp_buf below the stack pointer that is not on the stack is reaped like a dead one, as in the source.
- ForkSnapshot.Fork: takes mincore's answer and the zero pages of fresh mappings as given; the globals, file descriptors and FILE tables of a fork are not modelled.
- ProcessTable.Runtime.Run: says what a wait tells only for processes that end at most once; locking, blocking in waitpid beyond its repeated looks, vfork, reparenting and the end of the host with process 1 are not modelled.
- YperfReport.Report: takes records with exit not before enter and numbers without wrap-around; reading the file, symbol names and the printed columns are not modelled.
- The 8-bit character encodings, mouse and keyboard input, the colour palette, double-height rendering, alternate-screen switching in the screen layer, and the width tables, which are parameters here.
- Host I/O, signals, threads, import linking and the trace and crash dumps of the runtime.
