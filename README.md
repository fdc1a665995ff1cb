# Quack REPL line editor

A Dafny model of the line editor of Quack's interactive mode, `src/cli/Repl.php`,
with proofs about it. The REPL reads raw terminal bytes one at a time. It decodes
them into editing events: keys, backspace, forward delete, arrows, Home/End,
history up/down, clear screen and Enter. Each event updates a small state:

- the line buffer;
- the cursor column;
- the history of submitted lines;
- the history index.

Enter submits the trimmed line to the history. The session loop then intercepts
`:clear` and `:quit` and resets the per-line state. `render` computes which part of
the line is drawn after the prompt and where the screen cursor goes.

Modules, one file each:

- `Text`: bytes, PHP's `ctype_cntrl` in the C locale, and PHP's `trim` with its
  default character set.
- `Decoder`: `getEvent`, `handleEscape`, `handleGenericEvent` and
  `handleHomeAndEnd`, as four functions, one per handler (`Decode`,
  `DecodeEscape`, `DecodeGeneric`, `DecodeHomeAndEnd`). Together they map the
  bytes at the front of the input to an `Action` and the number of bytes the
  handlers read.
- `Editing`: the state as a value, and one function per handler.
- `Session`: the read loop of `handleRead` and the endless loop of `start`, as
  functions of a starting state and the input bytes.
- `Cli`: class `Repl`. Its fields are updated in place by one method per handler,
  plus `HandleRead` and `Start`, which have loops. Each method is proved to leave
  exactly the state that the `Editing`/`Session` function gives.
- `Viewport`: the arithmetic of `render`.

Modelling choices:

- **Single-byte units.** The source splits the line into single characters and
  adds `strlen($input)` to the column. Every unit is taken to be one byte, so the
  column advances by 1.
- **Input.** The terminal is a finite byte sequence. `getChar` takes the next
  byte. When the bytes run out before an event's fixed grammar is complete, or
  before an Enter, the line is reported as incomplete and its Enter effects do not
  happen.
- **The read loop's end test.** The loop looks only at the byte that starts an
  event. An LF read by the escape handler, as in `ESC LF` or `ESC [ LF`, does not
  end the line. `Decoder.EnterInsideEscape` states this.
- **History navigation.** Down while not browsing, or while one step back, finds
  no entry and calls `resetState`, so it clears the line. `Editing.NewerWhileNotBrowsing`
  states this.
- **`:quit`.** It is a result value, `quit == true`. The session stops before the
  reset, as `exit` does in the source.
- **`setState`.** The `Component` base class is not part of this model. Its
  `setState` is taken as an update of the named fields only, so `setState([])`
  changes nothing.

## Model

| member | source | states |
|---|---|---|
| Text.TrimSpec | src/cli/Repl.php:161 | `trim` leaves a contiguous middle slice of the input; every byte before and after it is one of the six whitespace bytes; the slice neither starts nor ends with one; the result is empty exactly when every byte is whitespace |
| Text.TrimStartSpec | src/cli/Repl.php:161 | the left trim drops exactly the leading run of whitespace bytes and leaves a suffix that does not start with one |
| Text.TrimEndSpec | src/cli/Repl.php:161 | the right trim drops exactly the trailing run of whitespace bytes and leaves a prefix that does not end with one |
| Text.TrimOfTrimmed | src/cli/Repl.php:161 | a string with no whitespace byte at either end is unchanged by `trim` |
| Text.TrimIdempotent | src/cli/Repl.php:295 | trimming twice is trimming once; `start` here and `handleEnter` at line 161 each trim the same raw line, and because `trim` is idempotent every reported line is a fixed point of `trim`, which `Session.SessionLinesTrimmed` relies on |
| Text.Trim | src/cli/Repl.php:161 | `trim` never lengthens its input, and what it leaves neither starts nor ends with one of the six whitespace bytes; `Text.TrimSpec` states exactly which bytes it removes |
| Text.IsControl | src/cli/Repl.php:177 | the definition of `ctype_cntrl` for one byte in the C locale: 0x00-0x1F and 0x7F; what this means for key presses is stated by `Decoder.Decode` and `Editing.KeyPress` |
| Decoder.DecodeHomeAndEnd | src/cli/Repl.php:144-157 | after `ESC O`, one more byte is read: `F` is End, `H` is Home, anything else is no action |
| Decoder.DecodeGeneric | src/cli/Repl.php:75-120 | after `ESC [`, `C`/`D`/`A`/`B` are right/left/up/down and take one byte; `3` is forward delete and takes two bytes, the second discarded, and needs that second byte to be there; anything else is no action and takes one byte |
| Decoder.DecodeEscape | src/cli/Repl.php:64-73 | after ESC, `O` hands the rest to `DecodeHomeAndEnd` and `[` to `DecodeGeneric`, each time with the `O` or `[` byte counted; any other byte is read and yields no action; the event takes at most 3 bytes after the ESC |
| Decoder.Decode | src/cli/Repl.php:50-62 | `0x7F` is backspace and `0x0C` clear screen, one byte each; ESC hands over to `DecodeEscape`; every other control byte except LF is discarded as no action, one byte; an Insert happens exactly when the leading byte is not a control byte, and inserts that byte; Enter happens exactly when the leading byte is LF; every event takes between 1 and 4 bytes and never more than the input has, only ESC events take more than one, and forward delete takes exactly 4; a truncated result needs fewer than 4 bytes |
| Decoder.DecodeKeySequence | src/cli/Repl.php:50-157 | each action's terminal key sequence decodes to that action and consumes exactly that sequence, whatever follows it |
| Decoder.DecodeNoLookahead | src/cli/Repl.php:64-119 | the decoder never reads past the bytes it consumes: replacing everything after them leaves the result unchanged |
| Decoder.UnknownEscapeAbsorbed | src/cli/Repl.php:64-73 | an unknown byte after ESC, or an unknown third byte after `ESC O` or `ESC [`, yields no action; the event takes 2 bytes in the first case and 3 in the others |
| Decoder.EnterInsideEscape | src/cli/Repl.php:232-241 | an LF read as the second byte after ESC, or as the third after `ESC O` or `ESC [`, yields no action and does not end the line |
| Editing.Initial | src/cli/Repl.php:30-39 | the constructor's state has an empty line, the cursor at 0, an empty history and index 0, and is valid |
| Editing.Reset | src/cli/Repl.php:41-48 | `resetState` empties the line, sets the column and index to 0 and keeps the history |
| Editing.KeyPress | src/cli/Repl.php:175-190 | a control byte changes nothing; any other byte is spliced in at the cursor, so the line is one longer with the bytes before and after the cursor kept in order, and the cursor advances by 1; the history is untouched |
| Editing.DeleteBeforeCursor | src/cli/Repl.php:122-135 | at column 0 nothing changes; otherwise exactly the byte before the cursor is removed, the others are kept in order, and the cursor moves back by 1 |
| Editing.DeleteAtCursor | src/cli/Repl.php:106-119 | at the end of the line nothing changes; otherwise exactly the byte under the cursor is removed, the others are kept in order, and the cursor stays |
| Editing.Arrow | src/cli/Repl.php:79-86 | right moves the cursor one byte right unless it is at the end, left one byte left unless it is at 0; the line and history are untouched and the cursor stays within the line |
| Editing.HomeAndEnd | src/cli/Repl.php:144-157 | End puts the cursor at the length of the line and Home at 0; nothing else changes |
| Editing.Navigate | src/cli/Repl.php:88-104 | when the entry `index + nav` steps back from the newest exists (nav = +1 for up, −1 for down), it becomes the line, the cursor goes to its end and the index moves by nav; otherwise down at index ≤ 1 resets the line like `resetState`, and anything else changes nothing; the history is never touched |
| Editing.Step | src/cli/Repl.php:232-241 | every event of the read loop keeps the validity invariant and the history; clear screen, Enter and unknown bytes leave the state as it was |
| Editing.StepDispatch | src/cli/Repl.php:50-190 | which handler each event reaches: an insert goes to `KeyPress` and backspace and forward delete to their handlers; left and right move the cursor one byte, stopping at 0 and at the end of the line; Home sets the cursor to 0 and End to the length of the line; up and down go to `Navigate` |
| Editing.KeyEffects | src/cli/Repl.php:50-157 | the terminal's key sequences, decoded and applied: `ESC O F` puts the cursor at the end of the line and `ESC O H` at 0; `ESC [ C` and `ESC [ D` move it one byte right or left within the line; `0x7F` deletes before the cursor and `ESC [ 3 ~` at it; `ESC [ A` and `ESC [ B` browse the history |
| Editing.Submit | src/cli/Repl.php:159-167 | Enter adds one history entry exactly when the trimmed line is not empty; that entry is the trimmed line; the earlier entries are unchanged; line, cursor and index are untouched |
| Editing.Run | src/cli/Repl.php:232-241 | any run of events keeps the validity invariant and leaves the history unchanged |
| Editing.BackspaceUndoesKeyPress | src/cli/Repl.php:122-190 | a backspace right after inserting a non-control byte restores the state exactly as it was |
| Editing.DeleteAfterLeftIsBackspace | src/cli/Repl.php:79-135 | left arrow followed by forward delete has the same effect as backspace |
| Editing.ArrowsInverse | src/cli/Repl.php:79-86 | away from the ends of the line, each of left and right undoes the other |
| Editing.TypeText | src/cli/Repl.php:175-190 | typing non-control bytes splices all of them, in order, into the line at the cursor, and leaves the cursor just after them |
| Editing.TypeIntoEmptyLine | src/cli/Repl.php:175-190 | typing non-control bytes on an empty line makes the line exactly those bytes, with the cursor at its end |
| Editing.OlderSteps | src/cli/Repl.php:88-100 | `k` up-presses from index `i` show the entry `i + k` back from the newest, with the cursor at its end, as long as that entry exists |
| Editing.NewerSteps | src/cli/Repl.php:88-103 | `k` down-presses from index `i >= k` show the entry `i - k` back; when `k == i` they leave browsing with an empty line |
| Editing.HistoryRoundTrip | src/cli/Repl.php:88-104 | from a fresh line, `k` ups followed by `k` downs return to the fresh line, for every `k` up to the number of entries |
| Editing.OlderPastOldest | src/cli/Repl.php:88-104 | up-presses on the oldest entry change nothing |
| Editing.OlderSaturates | src/cli/Repl.php:88-104 | from a fresh line, at least as many up-presses as there are entries end on the oldest entry |
| Editing.NewerWhileNotBrowsing | src/cli/Repl.php:101-103 | a down-press while not browsing clears the line, like `resetState` |
| Session.ReadLine | src/cli/Repl.php:227-245 | the read loop consumes at most the input; a complete line ends exactly at an LF byte; an incomplete line consumes everything and leaves the history alone; a complete line adds its trimmed text to the history exactly when it is not empty |
| Session.Intercept | src/cli/Repl.php:200-208 | a line is a command exactly when it starts with `:`; it is `:clear` or `:quit` exactly when equal to that text, and any other `:` line is an unknown command |
| Session.RunSession | src/cli/Repl.php:290-303 | the session loop keeps the validity invariant through every line and reset |
| Session.SessionHistory | src/cli/Repl.php:159-167 | over a whole session, the history only grows, by the completed non-empty lines, in the order they were completed |
| Session.SessionStopsAtQuit | src/cli/Repl.php:192-208 | the session reports quitting exactly when its last completed line is `:quit`, and no earlier line is `:quit` |
| Session.SessionLinesTrimmed | src/cli/Repl.php:295 | every completed line the session reports is already trimmed |
| Session.ReadTypedLine | src/cli/Repl.php:232-243 | non-control bytes followed by LF are read as exactly those key presses followed by Enter, and the bytes after the LF are left unread |
| Session.BlankLineNotRecorded | src/cli/Repl.php:161-167 | a line that is empty or only whitespace leaves the history as it was |
| Session.ScenarioLetX | src/cli/Repl.php:290-303 | typing `let x = 1` and Enter at a fresh prompt records that line, reports it as not a command, and leaves a fresh prompt |
| Session.ScenarioQuit | src/cli/Repl.php:205-206 | `:quit` and Enter end the session at once, whatever input follows; the line was recorded in the history first |
| Session.ScenarioUnknownCommand | src/cli/Repl.php:297-301 | an unknown `:` command is swallowed, and the session goes on to a fresh prompt |
| Viewport.Substr | src/cli/Repl.php:285 | `substr` with a non-negative offset returns a slice starting at the offset; its length is the requested length clipped to the string, or with a negative length all but that many bytes off the end; an offset at or past the end gives the empty string |
| Viewport.Render | src/cli/Repl.php:272-285 | for every width and column, the indicator is drawn exactly when the column is at least width − 7; the 9 reserved columns then move both the window start and the screen cursor right by 9; which bytes are drawn is stated by the `Render…` lemmas below |
| Viewport.RenderUnscrolled | src/cli/Repl.php:272-285 | left of the workspace edge: no indicator; the window starts at byte 0 and shows at most width − 8 bytes; the screen cursor is at 7 + column, inside the terminal |
| Viewport.RenderScrolled | src/cli/Repl.php:272-285 | at or past the edge (width ≥ 16): the indicator is drawn; the window is the bytes just left of the cursor; prompt, indicator and text fill all but the last column; the screen cursor is computed as 16 + column |
| Viewport.RenderEighty | src/cli/Repl.php:272-285 | on 80 columns, every cursor left of 73 shows the line from byte 0, at most 72 bytes |
| Viewport.RenderWindowMonotone | src/cli/Repl.php:282-285 | moving the cursor one byte right never moves the window start left |
| Cli.Repl.constructor | src/cli/Repl.php:30-39 | the fields start as the initial state |
| Cli.Repl.ResetState | src/cli/Repl.php:41-48 | the fields become `Reset` of the old state |
| Cli.Repl.HandleKeyPress | src/cli/Repl.php:175-190 | the in-place splice leaves the fields equal to `KeyPress` of the old state |
| Cli.Repl.HandleBackspace | src/cli/Repl.php:122-135 | the fields become `DeleteBeforeCursor` of the old state |
| Cli.Repl.HandleDelete | src/cli/Repl.php:106-119 | the fields become `DeleteAtCursor` of the old state |
| Cli.Repl.HandleArrow | src/cli/Repl.php:79-86 | the fields become `Arrow` of the old state |
| Cli.Repl.HandleHistory | src/cli/Repl.php:88-104 | the fields become `Navigate` of the old state |
| Cli.Repl.HandleHomeAndEnd | src/cli/Repl.php:144-157 | the fields become `HomeAndEnd` of the old state |
| Cli.Repl.HandleEnter | src/cli/Repl.php:159-167 | the fields become `Submit` of the old state |
| Cli.Repl.Dispatch | src/cli/Repl.php:232-240 | dispatching one decoded event to its handler leaves the fields at `Step` of the old state |
| Cli.Repl.HandleRead | src/cli/Repl.php:227-245 | the loop takes events from the bytes still unread, as `getChar` does; the bytes consumed, the completion flag and the final fields equal `ReadLine` of the old state and the input |
| Cli.Repl.Start | src/cli/Repl.php:290-303 | the completed lines, quit flag and final fields equal `RunSession` of the old state and the input |

## Left out

- Terminal I/O. Some `Console` calls have no effect on the modelled state; they are left out:
  - output: `clearLine`, `clear`, `moveCursorToHome`, `resetCursor`, `forwardCursor`, colours, `write`/`writeln`, the prompt, and `renderLeftScroll`'s drawing;
  - terminal modes: `stty*`;
  - `setTitle`.

  `getChar` becomes the next byte of the input. `getWidth` becomes the `width` parameter of `Viewport.Render`.
- `welcome`: fixed banner text, output only.
- `handleQuit`: its message and `exit` are output and process termination. `:quit` is modelled as the `quit` result that stops the session.
- `handleClearScreen`: it only clears the terminal, and its `setState([])` leaves the state as it was. Both the `^L` byte and the `:clear` command are modelled as leaving the state unchanged.
- The `Component` base class is not part of this model. `setState` is taken as a field update of the keys passed, and `state` as a field read.
- Multi-byte characters: `strlen`, `str_split` and `substr` count bytes. The model makes every unit one byte.
- The end of the input: `getChar` at end of file depends on `Console`, which is not part of this model. Running out of bytes is modelled as an incomplete line that stops the loop.
- `Session.RunSession`: its own contract states only the invariant. Its properties are proved by the lemmas beside it.

## Notes on the render arithmetic

- `renderLeftScroll` writes 8 columns (` < ` and ` ... `). `render` reserves 9 for it, so in scroll mode prompt, indicator and text fill `width − 1` columns.
- In scroll mode the screen cursor is computed as `16 + column`. That is at least `width + 9`, so it lies right of the terminal's last column (`Viewport.RenderScrolled`).
- Where the cursor then appears depends on `Console::forwardCursor` and on the terminal, neither of which is part of this model. If the terminal stops a forward cursor move at its right margin, which is an assumption, the cursor is shown in the last column, just after the window.
