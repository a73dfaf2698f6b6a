# Terminal picker: selection lists and key dispatch

The program is a terminal picker. It shows a language list, a list of the
`.txt` files in the working directory, an architecture list and a zip-name
field, and it exits once the user presses Enter (confirm) or Esc (cancel).
This project models the part of it that has logic in it:

- the selection list (`StatefulList`): its items and optional highlighted
  index, with wrap-around `next` and `previous` (module `Selection`);
- one iteration of the event loop: the dispatch of a key to the zip-name
  buffer, the architecture list or one of the two exits (module `Dispatch`).
  The pure functions `Transition` and `Run` specify it. The class `Session`,
  with its `Step` and `EventLoop` methods, holds the loop's mutable state and
  is proved against them;
- the filter of the directory scanner, over an abstract directory listing
  (module `DirScan`).

Facts worth knowing about the code as written:

- `previous` returns an out-of-range index `i >= len` to range only when
  `i == len`. In every other case it yields `i - 1`, which is still out of
  range. `next` maps every out-of-range index to 0. `PrevIndex` and
  `NextIndex` state these results exactly. Starting from no highlight, the
  two operations only ever produce in-range indices, as the invariant
  clauses of `Run` and `StatefulList` show.
- The language list is rendered, but no key is bound to it. Every run keeps it
  unchanged (`Run`, `Transition`).
- Any key event counts, whatever its kind or modifiers. A `Char` key with a
  modifier is still appended, so Ctrl+C types a `c` and does not exit.
- Typing "myout" and then pressing Backspace twice leaves "myo"
  (`TypingScenario`).

## Model

| member | source | states |
|---|---|---|
| `Selection.NextIndex` | src/main.rs:29-41 | the result is always below the length; it is 0 with no selection or an out-of-range one, and `(i + 1) mod len` for a valid `i` |
| `Selection.PrevIndex` | src/main.rs:43-55 | 0 with no selection; `(i - 1 + len) mod len` for a valid `i`; for an out-of-range `i` it is `i - 1`, in range exactly when `i == len` |
| `Selection.PrevUndoesNext` | src/main.rs:29-55 | for a valid index, `previous` after `next` restores it |
| `Selection.NextUndoesPrev` | src/main.rs:29-55 | for a valid index, `next` after `previous` restores it |
| `Selection.IterateNextMod` | src/main.rs:29-41 | `k` calls of `next` from a valid `i` land on `(i + k) mod len` |
| `Selection.IteratePrevMod` | src/main.rs:43-55 | `k` calls of `previous` from a valid `i` land on `(i - k) mod len` |
| `Selection.FullCycle` | src/main.rs:29-55 | `len` calls of `next`, or of `previous`, return to the starting index |
| `Selection.StatefulList.WithItems` | src/main.rs:22-27 | a new list stores its items unchanged and highlights nothing, so a non-empty list starts valid |
| `Selection.StatefulList.Next` | src/main.rs:29-41 | changes only the highlight, to `NextIndex` of the old one, and leaves the list invariant holding |
| `Selection.StatefulList.Previous` | src/main.rs:43-55 | changes only the highlight, to `PrevIndex` of the old one, and preserves the list invariant |
| `Dispatch.Initial` | src/main.rs:65-67 | the starting session is running and both of its lists satisfy the list invariant |
| `Dispatch.Transition` | src/main.rs:118-143 | one step never touches the language list or the architecture items; it terminates exactly on Enter (confirm) or Esc (cancel); it preserves the invariant of both lists |
| `Dispatch.KeyBindings` | src/main.rs:118-143 | Char appends; Backspace drops the last character or does nothing on an empty buffer; Up and Down move only the architecture highlight; Enter and Esc change only the status; other keys and non-key events change nothing |
| `Dispatch.Run` | src/main.rs:69-145 | a run of the loop over any events keeps the language list and the architecture items, and preserves the list invariants |
| `Dispatch.RunAppend` | src/main.rs:69-145 | running two batches of events in turn is the same as running their concatenation |
| `Dispatch.TerminatedIsFinal` | src/main.rs:126-140 | after Enter or Esc no event is processed: a terminated session stays as it is |
| `Dispatch.FirstExit` | src/main.rs:126-140 | finds the exit of the first Enter or Esc key, and is none exactly when no such key occurs |
| `Dispatch.RunStatus` | src/main.rs:69-145 | when drawing and reading do not fail, the loop ends exactly when an Enter or Esc is read, confirming or cancelling as the first such key says |
| `Dispatch.TypingAppends` | src/main.rs:120-122 | typing a text appends it to the zip name and changes nothing else |
| `Dispatch.ErasingTruncates` | src/main.rs:123-125 | `k` backspaces remove the last `k` characters and never fail on a short or empty buffer |
| `Dispatch.TypeThenErase` | src/main.rs:120-125 | typing a text and then pressing as many backspaces restores the whole session |
| `Dispatch.DownsIterate` | src/main.rs:132-134 | `k` Down presses apply `next` `k` times to a present architecture highlight and change nothing else |
| `Dispatch.DownsAdvance` | src/main.rs:132-134 | `k` Down presses move a valid highlight `i` to `(i + k) mod len` and change nothing else |
| `Dispatch.UpsIterate` | src/main.rs:129-131 | `k` Up presses apply `previous` `k` times to a present architecture highlight and change nothing else |
| `Dispatch.UpsRetreat` | src/main.rs:129-131 | `k` Up presses move a valid highlight `i` to `(i - k) mod len` and change nothing else |
| `Dispatch.DownScenario` | src/main.rs:66-134 | on `["arm64", "x86_64"]`, pressing Down highlights index 0, then 1, then wraps to 0 |
| `Dispatch.TypingScenario` | src/main.rs:120-125 | typing "myout" and then two backspaces leaves "myo" |
| `Dispatch.EscapeEnds` | src/main.rs:135-140 | Esc after any events ends the session, as a cancel unless an Enter came first |
| `Dispatch.Session.constructor` | src/main.rs:65-67 | the session starts from `Initial`, with two distinct new lists |
| `Dispatch.Session.Step` | src/main.rs:118-143 | one dispatch changes the session exactly as `Transition` says and keeps the invariant |
| `Dispatch.Session.EventLoop` | src/main.rs:69-145 | the loop leaves the session as `Run` over its input; it stops right after the first Enter or Esc, having read no earlier exit key, and otherwise reads the whole input |
| `DirScan.ScanEntries` | src/main.rs:157-170 | the scan fails exactly when some entry cannot be read; otherwise it holds exactly the names of the regular files with extension "txt" |
| `DirScan.ScanListing` | src/main.rs:154-157 | failing to find or open the working directory fails the scan |
| `DirScan.GetTxtFiles` | src/main.rs:154-171 | the loop over the directory iterator returns `ScanListing` of the listing, returning an error at the first unreadable entry |
| `DirScan.ShownFiles` | src/main.rs:92 | the panel shows nothing when the scan fails, and otherwise exactly the names of the `.txt` regular files |
| `DirScan.ScanAppend` | src/main.rs:157-170 | the scan keeps listing order: two readable batches scan to the concatenation of their names |
| `DirScan.ScanExample` | src/main.rs:160-165 | of `a.txt`, `b.log`, `c.TXT` and a directory `d.txt`, only `a.txt` is kept |

## Left out

- Terminal setup and teardown: raw mode, the alternate screen, showing the cursor, and the `?` propagation of their errors. These are calls into the terminal library. Both exits are modelled only as the `Terminated` status.
- Rendering and layout: the column percentages, widgets, styles and the drawing of the lists. These are library calls whose rounding and output are not visible here.
- The blocking read of the next event. Events are an argument: a sequence of `Event` values. `EventLoop` also stops when that sequence runs out, whereas the program would block and wait.
- Key event kinds (press, release, repeat) and modifiers. The program ignores both, so every key event is dispatched.
- The error exits of the loop: an error from drawing the frame (src/main.rs:116) or from reading the next event (src/main.rs:118) returns from the program at once, without an Enter or Esc and without restoring the terminal. `RunStatus`, `Run` and `EventLoop` describe only runs in which drawing and reading do not fail.
- The frame drawn before each read, and what drawing does to a list's highlight. The program lends each list's state to the drawing library (src/main.rs:90, :111). The model assumes drawing leaves the highlight as it is; given that assumption, drawing changes no state the model tracks, so the loop omits it.
- Path extensions: the extension is given for each entry, not computed from the name. The rules of the standard library's path extension are not modelled (for example, `.txt` alone has no extension). Neither is the lossy UTF-8 conversion of names, how regular files are recognised, or the order of the directory listing.
- The working directory lookup and its failure are folded into `DirError`.
