# Memory view rows and the terminal panel, in Dafny

This project models three small components of a Code::Blocks fork.

**The memory-examine dialog** (`ExamineMemoryDlg`):
- The debugger feeds it one `(address, hex byte)` pair per `AddHexByte` call.
- It fills a 67-character line buffer, with three hex slots per byte, a gap, and an ASCII column per byte.
- Every 16 bytes it appends a row to its text control: a newline (except for the first row), a `0x<hex>: ` label, and the 67 characters, with a `|` divider in slot 23.
- It remembers every byte value it has seen, per address.
- When highlighting is on, a byte whose value differs from the remembered one marks its whole aligned word in a 16-entry mask. The word size is 1, 2, 4 or 8; any other configured value falls back to 4.
- The marked byte's hex digits and ASCII column are drawn in the "changed" colour.
- `OnGo` strips a leading `#` from the address box and sets a freeze flag. The next first byte then writes the resolved address back into the box.

**The terminal panel** (`TerminalPanel`):
- It starts a program with an optional working directory and `KEY=VALUE` environment overrides.
- It polls the program's stdout and stderr, inserting output at the input boundary (`m_InputStart`).
- It forwards the typed line to stdin on Enter. It drops a Backspace at or before the boundary, and a key typed before the boundary without Ctrl only moves the cursor to the end; other keys go to the text control.
- It reports the exit code and can kill the program.

**The terminal accessor**: a single global slot holding the panel.

Files:
- `options.dfy`: the `Option` type.
- `numerals.dfy`: the `%x`/`PRIx64` and `%d` renderings and their inverse.
- `memory_rows.dfy`: the memory view as values. `Feed` specifies one `AddHexByte` call.
- `examine_memory.dfy`: the dialog as a class. The line buffer and the mask are arrays updated in place, and each method is proved to move the abstract state as `memory_rows.dfy` says.
- `environment.dfy`: the `KEY=VALUE` split and the environment overlay.
- `terminal_states.dfy`: the terminal panel as a state machine over values.
- `terminal_panel.dfy`: the panel as a class whose handlers are proved against those functions.
- `terminal_access.dfy`: the global slot.

The outside world enters as parameters:
- the address the debugger's expression resolves to;
- the pid a spawn returns (0 for failure);
- the chunks each stream read yields;
- the exit code;
- the current process environment.

What the panel sends out is recorded in its state: spawn requests, stdin writes and SIGTERM targets.

The row label is printed with `0x%` `PRIx64` `: `: lower-case hex, no zero padding.

## Model

| member | source | states |
|---|---|---|
| MemoryRows.WordSizeOrDefault | src/src/examinememorydlg.cpp:61-68 | the highlight word size is the configured one when it is 1, 2, 4 or 8, and 4 otherwise |
| ExamineMemory.ExamineMemoryDlg.constructor | src/src/examinememorydlg.cpp:34-79 | a new dialog has an empty text control, a blank buffer, no marks, counter 0, row start 0, an empty table, highlighting on, no freeze and the validated word size |
| ExamineMemory.ExamineMemoryDlg.Begin | src/src/examinememorydlg.cpp:86-92 | Begin turns highlighting on and clears every mark; nothing else changes |
| ExamineMemory.ExamineMemoryDlg.Clear | src/src/examinememorydlg.cpp:99-106 | Clear empties the text, zeroes the counter and the row start and blanks the buffer, keeping the table of previous values |
| ExamineMemory.ExamineMemoryDlg.ResetHighlighting | src/src/examinememorydlg.cpp:311-318 | only the highlight flag changes, to off; the previous values are kept |
| ExamineMemory.ExamineMemoryDlg.AddError | src/src/examinememorydlg.cpp:120-123 | the message and a newline are appended uncoloured and nothing else changes |
| ExamineMemory.ExamineMemoryDlg.GetBaseAddress | src/src/examinememorydlg.cpp:108-111 | returns the address box's text |
| ExamineMemory.ExamineMemoryDlg.SetBaseAddress | src/src/examinememorydlg.cpp:301-309 | the address box takes the new text and nothing else changes |
| ExamineMemory.ExamineMemoryDlg.OnGo | src/src/examinememorydlg.cpp:269-290 | the state becomes AddressEntered of the old one: with a `#` in front, the stripped text and freeze on; otherwise freeze off |
| MemoryRows.TrimEnd | src/src/examinememorydlg.cpp:272 | Trim() keeps a prefix that does not end in white space |
| MemoryRows.TrimEndDropsSpaces | src/src/examinememorydlg.cpp:272 | everything Trim() drops is white space |
| MemoryRows.TrimStart | src/src/examinememorydlg.cpp:272 | Trim(false) keeps a suffix that does not start with white space |
| MemoryRows.TrimStartDropsSpaces | src/src/examinememorydlg.cpp:272 | everything Trim(false) drops is white space |
| MemoryRows.FreezeRequest | src/src/examinememorydlg.cpp:272-277 | a request is made exactly for a box whose trimmed text starts with `#`; the box then reads as white space, `#`, white space, the requested text, white space, where the requested text is empty or ends in a non-space, does not start with white space and is shorter than the box |
| MemoryRows.HashPrefixShape | src/src/examinememorydlg.cpp:272-277 | trimming both ends, dropping the `#` and trimming the start again leaves the text that follows `#` and white space, up to the trailing white space |
| MemoryRows.AddressEntered | src/src/examinememorydlg.cpp:269-290 | Go changes only the box and the freeze flag; without freeze the box is unchanged; with freeze the old box reads as white space, `#`, white space, the new box's text, white space, and the new text does not start with white space, which fixes it |
| MemoryRows.FirstNonSpace | src/src/examinememorydlg.cpp:272-274 | after trimming both ends, the text starts with a non-blank character c exactly when c is the first non-blank character of the box |
| MemoryRows.FreezeRequestedByLeadingHash | src/src/examinememorydlg.cpp:269-290 | Go sets the freeze flag if and only if the first non-blank character of the box is `#`; only the box and the flag change |
| ExamineMemory.ExamineMemoryDlg.AddHexByte | src/src/examinememorydlg.cpp:125-258 | one call moves the dialog's whole state (arrays included) exactly as Feed says |
| ExamineMemory.ExamineMemoryDlg.RecordByte | src/src/examinememorydlg.cpp:128-197 | the steps before the flush test move the state as Record says |
| ExamineMemory.ExamineMemoryDlg.StartRow | src/src/examinememorydlg.cpp:130-156 | the mask is cleared at a row's first byte; the first byte since Clear fixes the row start and performs a pending freeze write `0x%llx`, clearing the flag |
| ExamineMemory.ExamineMemoryDlg.NoteValue | src/src/examinememorydlg.cpp:164-189 | the value is stored at row start + offset (mod 2^64), and the word is marked exactly when a different value was stored there and highlighting is on |
| ExamineMemory.ExamineMemoryDlg.WriteSlots | src/src/examinememorydlg.cpp:193-195 | the buffer changes only at the byte's two hex slots and its ASCII column |
| ExamineMemory.ExamineMemoryDlg.ClearMask | src/src/examinememorydlg.cpp:131-135 | after the loop, no byte is marked |
| ExamineMemory.ExamineMemoryDlg.BlankLine | src/src/examinememorydlg.cpp:253-254 | after the loop, the buffer is 67 blanks |
| ExamineMemory.ExamineMemoryDlg.MarkWordOf | src/src/examinememorydlg.cpp:181-188 | after the loop, exactly the old marks plus the aligned word holding the offset are marked |
| ExamineMemory.ExamineMemoryDlg.FlushRow | src/src/examinememorydlg.cpp:200-257 | a flush appends RenderRow of the buffer, blanks the buffer and advances the row start by 16 mod 2^64 |
| ExamineMemory.ExamineMemoryDlg.WriteRow | src/src/examinememorydlg.cpp:203-247 | the text grows by the optional newline, the label and the 67 coloured cells; the divider is written into slot 23; no other field changes |
| ExamineMemory.ExamineMemoryDlg.ColouredRow | src/src/examinememorydlg.cpp:212-247 | cell i is buffer character i, coloured exactly when IsColoured holds for it |
| ExamineMemory.RowIsCells | src/src/examinememorydlg.cpp:205-247 | the cells written after the divider is placed are RowCells of the buffer before |
| MemoryRows.IsColoured | src/src/examinememorydlg.cpp:212-233 | a slot is coloured only while highlighting is on, and only if it is a hex digit (not the blank after a byte) or an ASCII column |
| MemoryRows.AddressLabelReadsBack | src/src/examinememorydlg.cpp:207-208 | the label is `0x`, lower-case hex digits, `: `, and the digits read back as the row start |
| MemoryRows.Begin | src/src/examinememorydlg.cpp:86-92 | highlighting is on and no byte is marked; nothing else changes |
| MemoryRows.Cleared | src/src/examinememorydlg.cpp:99-106 | the text is empty, counter and row start are 0 and the buffer is blank; the table, mask and highlight flag are kept, and nothing else changes |
| MemoryRows.HighlightingOff | src/src/examinememorydlg.cpp:311-318 | only the highlight flag changes, to off |
| MemoryRows.Record | src/src/examinememorydlg.cpp:128-197 | the steps before the flush test keep the text, the highlight flag and the word size, and count the byte |
| MemoryRows.Flush | src/src/examinememorydlg.cpp:199-257 | a flush only appends to the text, blanks the buffer and moves the row start; every other field is kept |
| MemoryRows.Feed | src/src/examinememorydlg.cpp:125-258 | one call counts the byte, only appends to the text, and keeps the highlight flag and the word size |
| MemoryRows.WordStart | src/src/examinememorydlg.cpp:181-182 | the word start is a multiple of the word size, at or before the offset, and the word ends inside the row |
| MemoryRows.MarkWord | src/src/examinememorydlg.cpp:181-188 | entry i is marked when it was already marked or lies in the offset's aligned word |
| MemoryRows.AsciiChar | src/src/examinememorydlg.cpp:195 | bytes below 32 show as `.`, and others as the character with that code |
| MemoryRows.WriteByte | src/src/examinememorydlg.cpp:193-195 | writes both hex digits and the ASCII column; every other slot is unchanged |
| MemoryRows.ColouredExactlyMarkedSlots | src/src/examinememorydlg.cpp:212-233 | a slot is coloured if and only if highlighting is on and it is a hex digit or the ASCII column of a marked byte |
| MemoryRows.RowCells | src/src/examinememorydlg.cpp:205-247 | 67 cells: slot 23 is an uncoloured `|`, the others are the buffer's characters, each coloured per IsColoured |
| MemoryRows.RenderRow | src/src/examinememorydlg.cpp:203-247 | a written row is the optional newline and the address label, followed by RowCells |
| MemoryRows.Blank | src/src/examinememorydlg.cpp:104-105 | 67 blanks |
| MemoryRows.NoMarks | src/src/examinememorydlg.cpp:133-134 | 16 unmarked entries |
| MemoryRows.ByteAddress | src/src/examinememorydlg.cpp:165 | the byte's address is a 64-bit value, equal to row start + offset when that does not wrap |
| MemoryRows.FeedRecordsValue | src/src/examinememorydlg.cpp:164-173 | every byte is stored in the table at its address, whether or not highlighting is on; the counter steps by one |
| MemoryRows.FeedMarks | src/src/examinememorydlg.cpp:130-189 | after a byte, entry i is marked if and only if it was marked earlier in the row, or the byte changed, highlighting is on and i shares the byte's word |
| MemoryRows.SameWord | src/src/examinememorydlg.cpp:181-185 | the loop's range is exactly the offsets with the same quotient by the word size |
| MemoryRows.SameValueNeverMarks | src/src/examinememorydlg.cpp:130-177 | a byte at any offset whose stored value is unchanged (or unknown) adds no mark: the mask is cleared at offset 0 and kept otherwise |
| MemoryRows.FeedIgnoresLaterAddresses | src/src/examinememorydlg.cpp:137-145 | after the first byte since Clear, the address argument has no effect |
| MemoryRows.FeedFlushes | src/src/examinememorydlg.cpp:199-257 | a row is written if and only if the byte is the 16th of its row: the text grows by RenderRow with the row start's label, the buffer is blanked and the start advances; otherwise the text is unchanged and the byte is written into the buffer at its offset (the row start is RowStartFor) |
| MemoryRows.FeedEndsRow | src/src/examinememorydlg.cpp:199-257 | the 16th byte of a row appends RenderRow of the buffer with that byte written, labelled with the row start; the buffer is blanked and the start advances by 16 mod 2^64 |
| MemoryRows.FeedWithinRow | src/src/examinememorydlg.cpp:128-197 | any other byte leaves the text alone and writes itself into the buffer at its offset |
| MemoryRows.FeedAll | src/src/examinememorydlg.cpp:125-258 | after a sequence of bytes, the counter has grown by their number and no stored address is forgotten |
| MemoryRows.FeedRowStart | src/src/examinememorydlg.cpp:145-256 | a byte advances the row start by 16 (mod 2^64) exactly when it completes a row |
| MemoryRows.RowStartAfter | src/src/examinememorydlg.cpp:256 | the row start after n bytes is a 64-bit address |
| MemoryRows.NextRowStart | src/src/examinememorydlg.cpp:255-256 | one more byte moves RowStartAfter by 16 exactly when it completes a row, with wrap-around |
| MemoryRows.RowStartStep | src/src/examinememorydlg.cpp:200-256 | the row-start formula survives one more byte |
| MemoryRows.FirstRowStart | src/src/examinememorydlg.cpp:137-145 | the first byte since Clear takes its row start from its own address |
| MemoryRows.FeedAllLast | src/src/examinememorydlg.cpp:125-258 | feeding a sequence is feeding its prefix and then its last byte |
| MemoryRows.FeedAllRowStartStep | src/src/examinememorydlg.cpp:255-256 | the row-start formula for n bytes gives the formula for n + 1 |
| MemoryRows.FeedAllRowStart | src/src/examinememorydlg.cpp:137-256 | after n bytes from a cleared counter, the row start is the first address plus 16 per completed row, mod 2^64; later addresses are never consulted |
| MemoryRows.RowLineNext | src/src/examinememorydlg.cpp:193-195 | writing byte k into a buffer holding bytes 0..k-1 gives the slot-by-slot reference line for bytes 0..k |
| MemoryRows.FeedAllEndsRow | src/src/examinememorydlg.cpp:199-257 | after a stream, the byte that ends a row appends that row, labelled with the first address plus 16 per earlier row |
| MemoryRows.FeedAllWithinRow | src/src/examinememorydlg.cpp:128-197 | after a stream, a byte that does not end a row leaves the text unchanged and is written into the buffer at its offset |
| MemoryRows.FeedAllText | src/src/examinememorydlg.cpp:125-258 | from a cleared counter, a stream of bytes appends exactly one row per 16 bytes: row i is labelled with the first address plus 16i (mod 2^64), shows bytes 16i..16i+15, is coloured by the mask in force once its 16th byte has been fed (MasksOf), and only row 0 lacks the newline; the remaining bytes wait in the buffer |
| MemoryRows.HistorySurvivesClear | src/src/examinememorydlg.cpp:99-106 | Clear keeps the table, so a value that differs from one seen before Clear still marks its whole word |
| Numerals.DigitChar | src/src/examinememorydlg.cpp:208 | each digit value has a lower-case digit character |
| Numerals.DigitValue | src/src/examinememorydlg.cpp:208 | a digit character of the label stands for one value, the inverse of DigitChar |
| Numerals.Digits | src/src/examinememorydlg.cpp:208 | `%x` writes at least one digit, with no leading zero, and a single digit exactly for values below the base |
| Numerals.ValueOfDigits | src/src/examinememorydlg.cpp:208 | reading back the printed digits gives the number |
| Numerals.DigitsInjective | src/src/examinememorydlg.cpp:208 | different addresses get different labels |
| Numerals.Decimal | src/src/terminalpanel.cpp:163 | `%d` writes a minus sign exactly for negative codes, followed by the digits of the magnitude |
| TerminalStates.Initial | src/src/terminalpanel.cpp:50-54 | the panel starts idle with the welcome text and the boundary at its end |
| Terminal.TerminalPanel.IsRunning | src/src/terminalpanel.h:19 | the panel runs exactly when its pid is non-zero; in a valid panel that is when a process is attached and the timer runs |
| Terminal.TerminalPanel.constructor | src/src/terminalpanel.cpp:17-55 | the new panel's state is Initial |
| TerminalStates.Cleared | src/src/terminalpanel.cpp:62-67 | Clear empties the text and zeroes the boundary; process, pid, timer and records are untouched |
| Terminal.TerminalPanel.Clear | src/src/terminalpanel.cpp:62-67 | only text, cursor and boundary change: to empty, 0 and 0 |
| Environment.FindChar | src/src/terminalpanel.cpp:108-109 | not found exactly when the character is absent; otherwise the index of its first occurrence |
| Environment.SplitEntry | src/src/terminalpanel.cpp:107-114 | an entry without `=` is skipped; otherwise it is key + `=` + value with no `=` in the key |
| Environment.SplitJoin | src/src/terminalpanel.cpp:107-114 | splitting key + `=` + value gives back the key and the value when the key has no `=` |
| Environment.Apply | src/src/terminalpanel.cpp:109-114 | an entry without `=` leaves the environment unchanged |
| Environment.Overlay | src/src/terminalpanel.cpp:102-116 | no entries leave the environment as it is, and no inherited variable is removed |
| Environment.OverlayKeepsUnset | src/src/terminalpanel.cpp:102-116 | a key that no entry sets keeps its inherited value, or stays absent |
| Environment.OverlayLastWins | src/src/terminalpanel.cpp:102-116 | the last entry that sets a key decides its value |
| Environment.BuildEnvironment | src/src/terminalpanel.cpp:102-116 | the loop's result is the current environment overlaid with the entries in order |
| TerminalStates.LaunchEnv | src/src/terminalpanel.cpp:97-120 | an environment is passed exactly when entries or a directory are given, with that directory and, when entries are given, the overlaid map |
| Terminal.TerminalPanel.LaunchRequest | src/src/terminalpanel.cpp:97-120 | the spawn request is the program with LaunchEnv |
| TerminalStates.Run | src/src/terminalpanel.cpp:69-136 | refused and unchanged while running; otherwise the banner restarts the text, one spawn is requested, the pid becomes the spawned one, and it succeeds, runs and starts the timer exactly when that pid is non-zero; failure appends the failure message; stdin and signals are unchanged |
| Terminal.TerminalPanel.RunProgram | src/src/terminalpanel.cpp:69-136 | the new state and the result are Run's |
| TerminalStates.Stopped | src/src/terminalpanel.cpp:138-152 | afterwards the panel is idle; SIGTERM went to the pid exactly when one was live; only pid, process, timer and signals change |
| Terminal.TerminalPanel.StopProgram | src/src/terminalpanel.cpp:138-152 | the state becomes Stopped of the old one |
| TerminalStates.StopIdempotent | src/src/terminalpanel.cpp:138-152 | stopping an idle panel changes nothing; stopping twice is stopping once |
| TerminalStates.Ended | src/src/terminalpanel.cpp:154-169 | the last output is read, the exit banner is appended after it, the timer stops and the panel is idle; launches, stdin and signals are unchanged |
| Terminal.TerminalPanel.OnEndProcess | src/src/terminalpanel.cpp:154-169 | the state becomes Ended of the old one |
| TerminalStates.EndedAllowsRun | src/src/terminalpanel.cpp:154-169 | after a program ends, RunProgram succeeds exactly when the new spawn does |
| TerminalStates.InsertAt | src/src/terminalpanel.cpp:266-271 | a write at the boundary keeps what was before and after it, with the output in between |
| TerminalStates.InsertAtTwice | src/src/terminalpanel.cpp:266-301 | two writes at a moving boundary are one write of their concatenation |
| TerminalStates.Drained | src/src/terminalpanel.cpp:256-278 | nothing is drained exactly when there is no chunk or the first read is empty |
| TerminalStates.DrainedStopsAtFirstEmpty | src/src/terminalpanel.cpp:256-278 | the drained text is the concatenation of the chunks before the first empty read |
| TerminalStates.WithOutput | src/src/terminalpanel.cpp:266-271 | output goes in at the boundary and the boundary moves past it; the cursor is left at the new boundary when anything was written and kept otherwise; nothing but text, cursor and boundary changes |
| TerminalStates.WithOutputTwice | src/src/terminalpanel.cpp:256-278 | output written in two pieces equals output written at once |
| TerminalStates.Read | src/src/terminalpanel.cpp:245-315 | reading changes only text, cursor and boundary |
| TerminalStates.ReadInsertsAtBoundary | src/src/terminalpanel.cpp:245-315 | stdout's text and then stderr's go in at the boundary; the text before the old boundary is kept, and the typed line stays after the new one |
| Terminal.TerminalPanel.ReadOutputStream | src/src/terminalpanel.cpp:245-315 | the state becomes Read of the old one |
| Terminal.TerminalPanel.DrainStream | src/src/terminalpanel.cpp:256-278 | the loop writes exactly the drained text at the boundary |
| Terminal.TerminalPanel.WriteOutput | src/src/terminalpanel.cpp:266-271 | one chunk is written at the boundary and the boundary and cursor move past it |
| TerminalStates.Poll | src/src/terminalpanel.cpp:237-243 | an idle panel is not read |
| Terminal.TerminalPanel.OnTimer | src/src/terminalpanel.cpp:237-243 | the state becomes Poll of the old one |
| TerminalStates.SendInput | src/src/terminalpanel.cpp:317-328 | the text goes to stdin exactly when a process is attached; nothing else changes |
| Terminal.TerminalPanel.WriteToInput | src/src/terminalpanel.cpp:317-328 | the state becomes SendInput of the old one |
| TerminalStates.Key | src/src/terminalpanel.cpp:176-235 | a key that is passed on leaves the panel unchanged and satisfies PassedOn |
| Terminal.TerminalPanel.OnChar | src/src/terminalpanel.cpp:176-235 | the new state and the skip flag are Key's |
| TerminalStates.IdleKeyPassesThrough | src/src/terminalpanel.cpp:178-182 | while idle every key passes through and the panel is untouched |
| TerminalStates.EnterSendsLine | src/src/terminalpanel.cpp:187-206 | Enter is consumed; with the cursor at or after the boundary, the typed line plus a newline goes to stdin, a newline is echoed and the boundary moves to the end; otherwise nothing changes |
| TerminalStates.GuardedKeys | src/src/terminalpanel.cpp:208-235 | other keys never edit text or stdin; Backspace at or before the boundary is dropped; before the boundary without Ctrl the cursor goes to the end; the key passes on exactly when neither guard applies |
| TerminalStates.Typed | src/src/terminalpanel.cpp:234 | the control's own handling of a passed-on key changes only text and cursor |
| Terminal.TerminalPanel.TypeKey | src/src/terminalpanel.cpp:234 | the state becomes Typed of the old one |
| TerminalStates.Press | src/src/terminalpanel.cpp:176-235 | a full key press keeps the panel well formed |
| Terminal.TerminalPanel.KeyPress | src/src/terminalpanel.cpp:176-235 | the state becomes Press of the old one |
| TerminalStates.PressKeepsCommittedText | src/src/terminalpanel.cpp:208-226 | while running, with the control's own editing reduced as in Typed, no key changes the text before the boundary or moves the boundary back, and only Enter writes to stdin |
| TerminalAccess.TerminalSlot.constructor | src/sdk/terminal_accessor.cpp:4 | the slot starts out null |
| TerminalAccess.TerminalSlot.SetTerminalPanel | src/sdk/terminal_accessor.cpp:6-8 | the slot holds the given panel afterwards |
| TerminalAccess.TerminalSlot.GetTerminalPanel | src/sdk/terminal_accessor.cpp:10-12 | returns the slot's panel and changes nothing |
| TerminalAccess.LastSetWins | src/sdk/terminal_accessor.cpp:6-12 | after two sets, the getter returns the second panel |

## Left out

Interfaces to the outside world:
- Fonts, colours (except the changed/unchanged distinction), `Freeze`/`Thaw` (`End`), `EnableWindow`, sizers and the test buttons (`OnTestButton`).
- The configuration store: the configured word size is a constructor parameter, and the byte count that OnGo saves and `GetBytes` reads are not modelled.
- The update request to the debugger in OnGo and SetBaseAddress.
- Notebook tab activation, the "already running" message box, and `ShowPosition`.
- `cbDebuggerStringToAddress` is not part of this model. AddHexByte receives the resolved 64-bit address.
- `ToULong(…, 16)` is not part of this model. AddHexByte receives the byte's value as a separate input; nothing ties it to `hexbyte`, of which only the first two characters are shown.
- wxExecute, wxGetEnvMap, the process streams and `wxProcess::Kill` become parameters (pid, current environment, chunks) or records in the state.
- OnDebuggerContinued (it only calls ResetHighlighting) and OnTextEnter (it is empty).

Deliberate simplifications:
- The `_()` translation of messages is not modelled. The English text is used.
- Stream reads are not modelled at byte level: 4096-byte buffers, UTF-8 decoding and NUL truncation are left out. Each read is a decoded string, and an empty read ends the loop.
- A missing stream, and the `IsInputAvailable`/`CanRead` checks, are not modelled separately; they are represented by an empty chunk list.
- `m_InputBuffer`, which Clear empties and nothing reads, is left out.
- `m_ByteCounter` (a `size_t`) is unbounded here, so its wrap-around after 2^64 bytes is not modelled. `m_LastRowStartingAddress` does wrap modulo 2^64.
- `m_InputStart` may lie past the end of the text while no process is attached (the user may delete the welcome text). The model requires it to be within the text only while a process is attached, which is when it is used.
- PressKeepsCommittedText: holds only under Typed's reduction below. In the source a Ctrl key pressed before the boundary, or typing over a selection that spans the boundary, reaches the text control and can edit the text before the boundary (terminalpanel.cpp:220-234).
- Typed: the text control's own handling of a passed-on key is reduced to inserting a printable character or deleting the character before the cursor. Ctrl combinations, Delete, selections, clipboard and cursor keys leave the text alone in the model.
