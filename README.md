# winpty's terminal renderer, in Dafny

This project models the `Terminal` class of winpty's agent (`agent/Terminal.cc`). The agent scrapes the Windows console. It then uses this class to turn rows of console cells (`CHAR_INFO`: a UTF-16 code unit and an attribute word) into the VT/ANSI byte stream that the remote terminal receives.

The class remembers what the remote side shows:
- the line the cursor is on;
- whether the cursor is hidden;
- where the console cursor was last shown;
- the colour attribute last sent;
- whether it is in "console mode", where no escape sequences are sent.

Each operation appends bytes to the output pipe and updates that state.

The modules:

- `Bytes`: octets, 16-bit words, the control characters and the CSI introducer.
- `Digits`: `outUInt` (a do-while over a digit buffer), the `%d` conversion, and a parser. The parser proves that the decimal text is canonical and reads back to its number.
- `Utf8`: the one-code-unit conversion `sendLine` asks of `WideCharToMultiByte`, and its inverse.
- `Vt`: a reference VT100/xterm-style interpreter, used only as the meaning of the output. It tracks cursor row and column, cursor visibility, the SGR rendition and the parser state. Every fixed sequence the class writes is proved against it: clear screen, hide/show cursor, cursor up, CR LF, cursor column, erase line and the colour sequences. The `bright` flag models terminals that ignore the 9X/10X colours.
- `Sgr`: the attribute bits, `outputSetColorSgrParams`, and the colour heuristic of `sendLine`. The heuristic is a function from a fore/back pair to SGR parameters, plus the methods that append them in place. Its lemmas cover:
  - the shape of every sequence;
  - the special cases;
  - conceal exactly when the two colours are equal;
  - the rendition a terminal ends up with.
- `Row`: what `sendLine` makes of a row, as functions. These cover one cell's colour part and character part, the whole buffer (`Encoded`), the colour the row leaves behind (`LastColor`) and the trimming of trailing spaces (`TrimRight`).
- `Terminal`: the output `NamedPipe`, as an append-only byte log, and the `Terminal` class with the fields the source mutates. The loop of `sendLine` keeps `termLine == Encoded(cells[..i], …)` and `length == |TrimRight(termLine)|` as invariants.

## Model

| member | source | states |
|---|---|---|
| Bytes.Ascii | agent/Terminal.cc:30 | a string literal becomes as many octets as it has characters |
| Digits.OutUInt | agent/Terminal.cc:65-75 | appends exactly the shortest decimal text of `n` (least significant digit produced first, "0" for zero) |
| Digits.Decimal | agent/Terminal.cc:65-75 | the decimal text is never empty |
| Digits.DecimalDigits | agent/Terminal.cc:65-75 | the decimal text consists of the digits '0'..'9' only |
| Digits.ParseDecimalOfDecimal | agent/Terminal.cc:65-75 | the emitted digits parse back to the number |
| Digits.DecimalOfParseDecimal | agent/Terminal.cc:65-75 | every canonical digit string is the text of its value (with the previous row: a bijection) |
| Digits.DecimalCanonical | agent/Terminal.cc:65-75 | no leading zero except "0"; one digit exactly below ten; the last digit is `n % 10` |
| Digits.DecimalInjective | agent/Terminal.cc:65-75 | different numbers give different texts |
| Digits.FormatInt | agent/Terminal.cc:305 | `%d` writes a leading '-' exactly for a negative number, followed by canonical digits that parse back to its magnitude |
| Sgr.Fore | agent/Terminal.cc:144-149 | the foreground nibble has FLAG_RED/GREEN/BLUE/BRIGHT exactly when the attribute has FOREGROUND_RED/GREEN/BLUE/INTENSITY |
| Sgr.Back | agent/Terminal.cc:150-153 | the same for the background bits |
| Sgr.UnpackColor | agent/Terminal.cc:144-153 | the flag-by-flag unpacking computes those two nibbles |
| Sgr.BrightBit | agent/Terminal.cc:81-87 | `color & FLAG_BRIGHT` is set exactly for 8..15, and `color & ~FLAG_BRIGHT` is then `color - 8` |
| Sgr.SetColorParams | agent/Terminal.cc:77-94 | one parameter for a plain colour, two exactly for a bright one, all within 30..107 |
| Sgr.OutputSetColorSgrParams | agent/Terminal.cc:77-94 | appends ';' and the colour's parameters, each in decimal |
| Sgr.BrightColorText | agent/Terminal.cc:81-90 | a bright colour appends ";" base+(c-8) ";" base+60+(c-8): the plain code first, then the override |
| Sgr.PlainColorText | agent/Terminal.cc:91-93 | a plain colour appends ";" base+c |
| Sgr.SetColorParamsMeaning | agent/Terminal.cc:82-90 | the fallback works: a terminal honouring 9X/10X shows the bright colour, one that ignores them keeps the plain one, and nothing else changes |
| Sgr.ColorChoice | agent/Terminal.cc:191-231 | every chosen parameter is bold, invert or a colour code |
| Sgr.AppendOnBlack | agent/Terminal.cc:192-210 | on black: nothing for light gray, ";1" for white, ";37;90" for dark gray, else the foreground colour |
| Sgr.AppendOnWhite | agent/Terminal.cc:211-225 | on white: ";7", then the foreground as a background colour unless it is light gray or black |
| Sgr.AppendColorChoice | agent/Terminal.cc:192-231 | appends the parameters of the heuristic for every pair |
| Sgr.AppendColorSgr | agent/Terminal.cc:191-238 | appends CSI "0", the parameters, ";8" when fore == back, and 'm' |
| Sgr.ColorSgrShape | agent/Terminal.cc:191-238 | every colour sequence starts with CSI "0" and ends with 'm' |
| Sgr.LtGrayOnBlack | agent/Terminal.cc:193-195 | light gray on black is exactly CSI "0m" |
| Sgr.WhiteOnBlack | agent/Terminal.cc:196-201 | white on black is exactly CSI "0;1m" |
| Sgr.DkGrayOnBlack | agent/Terminal.cc:202-207 | dark gray on black is exactly CSI "0;37;90m" |
| Sgr.InvertFirst | agent/Terminal.cc:211-217 | on white the first parameter after the reset is ";7" |
| Sgr.WhiteBackground | agent/Terminal.cc:211-225 | a white background starts CSI "0;7", and is exactly CSI "0;7m" when fore is light gray or black |
| Sgr.ChoiceNeverConceals | agent/Terminal.cc:191-231 | the colour choice itself never ends with 8 |
| Sgr.LastParamConceals | agent/Terminal.cc:232-237 | the last parameter is 8 exactly when fore == back |
| Sgr.ConcealIff | agent/Terminal.cc:232-238 | ";8" stands immediately before 'm' if and only if fore == back |
| Sgr.ColorChoiceMeaning | agent/Terminal.cc:173-231 | the chosen parameters produce the rendition that the mapping table in the comment at lines 173-188, and the notes on each case at 194-207, give for that background class |
| Sgr.SgrParamsMeaning | agent/Terminal.cc:191-238 | from any rendition, the reset and the parameters give the intended rendition, concealed exactly when fore == back |
| Sgr.ColorSgrMeaning | agent/Terminal.cc:191-238 | a terminal reading a colour sequence ends up in plain-text mode with the intended rendition, its cursor untouched |
| Sgr.BoldParam | agent/Terminal.cc:201 | the literal ";1" is the bold parameter |
| Sgr.InvertParam | agent/Terminal.cc:217 | the literal ";7" is the invert parameter |
| Sgr.ConcealParam | agent/Terminal.cc:236 | the literal ";8" is the conceal parameter |
| Sgr.DkGrayParams | agent/Terminal.cc:207 | the literal ";37;90" is the parameters 37 and 90 |
| Row.CellColor | agent/Terminal.cc:142 | the masked colour is below 0x100 and equals the attribute when no other bit is set |
| Row.Remap | agent/Terminal.cc:263-272 | a code unit changes exactly when it is 1..6, and then becomes a double box-drawing character |
| Row.RemapBorders | agent/Terminal.cc:264-271 | the six border code units map to six different characters |
| Row.CellBytes | agent/Terminal.cc:274-286 | 1 to 3 bytes; the last is a space only when the cell is a single space |
| Row.CellBytesMeaning | agent/Terminal.cc:263-286 | an unconvertible character is written as "?", any other as UTF-8 that decodes to the remapped character; the bytes are a lone space exactly for U+0020 |
| Row.SgrPart | agent/Terminal.cc:142-143 | a cell brings a colour sequence exactly when its colour differs from the remote colour and console mode is off |
| Row.CharPart | agent/Terminal.cc:242-247 | a cell brings no character bytes exactly when it is the trailing half of a double-width character |
| Row.Pieces | agent/Terminal.cc:141 | one part per visited cell |
| Row.EncodedAppend | agent/Terminal.cc:141-293 | encoding is cell after cell: a row split in two is the first half's bytes, then the second half's from the first half's last colour |
| Row.EncodedStep | agent/Terminal.cc:141-293 | each pass adds one cell's part and makes the cell's colour the remote colour |
| Row.LastColorPrefix | agent/Terminal.cc:241 | after cell i the remote colour is cell i's, and before it cell i-1's (or the previous row's) |
| Row.ConsoleRowIsText | agent/Terminal.cc:143 | in console mode a row is its text alone |
| Row.SameColorRowIsText | agent/Terminal.cc:141-241 | a row in the colour the terminal already has (also one carried over from the previous row) gets no colour sequence at all |
| Row.NewColorRow | agent/Terminal.cc:141-241 | a one-colour row in a new colour gets exactly one colour sequence, before its first cell |
| Row.TrimRight | agent/Terminal.cc:287-295 | trimming never lengthens |
| Row.TrimRightMeaning | agent/Terminal.cc:239-295 | the bytes written are a prefix of the buffer, everything dropped is a space, and what is written is empty or does not end in a space |
| Row.TrimSpace | agent/Terminal.cc:287-288 | a space leaves the trimmed length where it was |
| Row.TrimNonSpace | agent/Terminal.cc:239-291 | a colour sequence or non-space character moves the trimmed length to the end of the buffer |
| Utf8.Encode | agent/Terminal.cc:275-282 | at most 3 bytes; empty exactly for a surrogate; one byte is the code unit itself |
| Utf8.DecodeEncode | agent/Terminal.cc:275-282 | every convertible code unit decodes back from its bytes |
| Utf8.EncodeDecode | agent/Terminal.cc:275-282 | every well-formed one-character sequence is the encoding of what it decodes to |
| Terminal.NamedPipe.Write | agent/Terminal.cc:121 | a write appends the data to the log |
| Terminal.Terminal.constructor | agent/Terminal.cc:98-105 | line 0, cursor shown, remote colour -1, console mode off |
| Terminal.Terminal.SetConsoleMode | agent/Terminal.cc:107-113 | console mode is on exactly when mode == 1; nothing else changes |
| Terminal.Terminal.Reset | agent/Terminal.cc:115-127 | writes the clear sequence exactly when asked and not in console mode; line, cursor state and remote colour are reset |
| Terminal.Terminal.HideTerminalCursor | agent/Terminal.cc:313-320 | writes CSI "?25l" only if the cursor was shown and not in console mode; the cursor is hidden afterwards |
| Terminal.Terminal.MoveTerminalToLine | agent/Terminal.cc:322-345 | writes "\r" CSI n "A" up, n × "\r\n" down (neither in console mode), "\r" for the same line; ends on `line` |
| Terminal.Terminal.FinishOutput | agent/Terminal.cc:298-311 | writes nothing unless hidden or moved; otherwise hides, moves to the new line, writes the column and show sequences; the cursor is shown at the new position afterwards |
| Terminal.Terminal.SendCellColor | agent/Terminal.cc:142-241 | appends the cell's colour sequence (or nothing), tracks the cell's colour, keeps `length` the trimmed length |
| Terminal.Terminal.SendCellChar | agent/Terminal.cc:242-292 | appends the cell's character bytes (or nothing for a trailing cell), keeps `length` the trimmed length |
| Terminal.Terminal.SendCell | agent/Terminal.cc:141-292 | one pass of the loop: the cell's whole part, its colour becomes the remote colour |
| Terminal.Terminal.BuildRow | agent/Terminal.cc:138-293 | the buffer is the encoding of the visited cells, the remote colour is the last cell's, `length` the trimmed length |
| Terminal.Terminal.SendLine | agent/Terminal.cc:129-296 | writes hide, line move, erase line (outside console mode), then the buffer without trailing spaces; ends hidden on `line` with the last cell's colour |
| Terminal.Repeat | agent/Terminal.cc:337-341 | k copies of s have length k·|s| |
| Terminal.ClearScreenMeaning | agent/Terminal.cc:117-122 | the clear sequence leaves the terminal at row 0, column 0, with the plain rendition |
| Terminal.ResetRenditionMeaning | agent/Terminal.cc:118 | CSI "0m" resets the rendition only |
| Terminal.HomeMeaning | agent/Terminal.cc:119 | CSI "1;1H" moves the cursor to the top-left cell only |
| Terminal.EraseScreenMeaning | agent/Terminal.cc:120 | CSI "2J" changes no cursor state |
| Terminal.EraseLineMeaning | agent/Terminal.cc:134-136 | CSI "2K" changes no cursor state |
| Terminal.CursorVisibilityMeaning | agent/Terminal.cc:305-318 | CSI "?25l" hides and CSI "?25h" shows the cursor, nothing else |
| Terminal.RunLinesDown | agent/Terminal.cc:337-341 | k × CR LF moves k lines down to column 0 |
| Terminal.LineMoveMeaning | agent/Terminal.cc:322-345 | outside console mode, any line move lands at column 0 exactly `to - from` lines away |
| Terminal.ConsoleLineMove | agent/Terminal.cc:333-343 | in console mode only the same-line "\r" is written |
| Terminal.HideIdempotent | agent/Terminal.cc:313-320 | a second hide writes nothing, so two hides write at most one sequence |
| Terminal.FinishQuiet | agent/Terminal.cc:298-311 | nothing is written when the cursor is shown and has not moved |
| Terminal.ShowAtMeaning | agent/Terminal.cc:304-307 | CSI (col+1) "G" CSI "?25h" puts the cursor, visible, in column col |
| Terminal.FinishMeaning | agent/Terminal.cc:298-311 | when it writes, `finishOutput` leaves the cursor visible in the new column, on the line `newLine - remoteLine` away |
| Terminal.LinePreludeMeaning | agent/Terminal.cc:129-136 | before the row, the cursor is hidden at column 0 of the target line |

## Left out

- The pipe is a byte log. Transport, failure of `NamedPipe::write` and buffering are not modelled; the source does not inspect write results.
- `WideCharToMultiByte` is a foreign Win32 call. It is modelled as UTF-8 of one UTF-16 code unit, with a lone surrogate unconvertible (length 0, hence "?"). This differs from Windows: with `dwFlags` 0, Windows (Vista and later) writes the replacement character U+FFFD (EF BF BD) for a lone surrogate and returns a positive length. On Windows the "?" path is therefore not reached for a lone surrogate; it is reached only in this model. The surrogate clause of Row.CellBytesMeaning is a fact about this abstraction, not about Windows.
- `sprintf` and the `char buffer[32]`/`mbstr[16]` buffers are sequences. `%d` of `col + 1` keeps a minus sign for a negative column, as `printf` would.
- C `int` width: line numbers, colours and columns are unbounded integers, so `m_remoteLine - line` and `newCursorPos.first + 1` do not overflow in the model.
- Digits.OutUInt: takes a natural below 2^32 (an `unsigned int`), and the buffer is a sequence rather than a `char[32]` filled from its end.
- Sgr.OutputSetColorSgrParams: takes `color` as a 4-bit value, which is all `sendLine` passes; other `int` values are not modelled.
- Terminal.Terminal.SendLine: the loop body is split into the methods SendCell, SendCellColor and SendCellChar, and the loop itself into BuildRow; the order of writes and state changes is that of the source.
- Terminal.Terminal.SendLine: `lineData` must hold at least `width` cells, as the C pointer must. A negative width visits no cell, as the `for` loop does.
- Terminal.ShowAtMeaning and Terminal.FinishMeaning: state the terminal's reading only for a non-negative column.
- Terminal.LinePreludeMeaning: assumes the remote cursor really is hidden when the class believes so.
- Row.CellBytesMeaning: "?" is an implication for unconvertible characters; a literal '?' is written the same way.
- The reference interpreter (`Vt`) has no screen size: there are no margins, no scrolling and no clipping of the row. It does not model the text that ED and EL erase, and it does not check that text bytes from a cell (such as an ESC cell) leave the parser in ground state. Its lemmas give only the cursor and rendition effects of the fixed sequences.
- Terminal.Terminal.MoveTerminalToLine: in console mode the same-line case writes "\r" anyway. This is the code's behaviour, and it is modelled as written.
- The debug output of `DebugClient.h` is not part of this model.
