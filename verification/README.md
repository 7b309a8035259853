# Keyword lookup from a selection or a screen region, in Dafny

The system is a pair of desktop helpers that look a phrase up in a plain-text
corpus, `mb.txt`, and show what they find in a small popup (for main.py, only
on Windows; see "## Left out"):

- `main.py` reacts to a mouse release. It copies the selection, strips it and
  searches the corpus for it, unless the text is empty or the same as the last
  text searched.
- `ocr_reader.py` reacts to a global hotkey (Cmd+Shift+S on macOS, Ctrl+Shift+S
  elsewhere). It shows a full-screen overlay. Dragging a box on the overlay
  captures that box and reads the text in it by OCR. It shows the text only if it
  is non-empty and differs from the text read last time. If that new text is
  also longer than two characters, its first three words are searched, and the
  results are shown unless there is no match. Empty or repeated text is neither
  shown nor searched.

Both copies of `search_in_file` compare case-insensitively. Each snippet is a
matching line followed by up to four context lines. At most four snippets are
returned, and special entries stand for a missing file, a read error and no
match. The two copies differ in one way:

- `main.py` takes the context lines from the same file iterator it loops over,
  so a line used as context is never compared with the keyword.
- `ocr_reader.py` tests every line, so snippets can overlap.

The model covers these parts:

- `text.dfy` (`Text`): Python's `lower`, `in`, `strip`, `split()` and `' '.join`,
  using ASCII case folding and the ASCII whitespace set of `str.isspace`.
- `corpus.dfy` (`Corpus`): the corpus file, with a missing file and a read that
  raises. Also the line test, the snippet shape and the special entries.
- `stream_search.dfy` (`StreamSearch`): the `search_in_file` of main.py. It is
  written as the loops the source runs. It is proved equal to a closed form
  built from the greedy snippet starts, the `MaxResults` cap and the position of
  the failing read.
- `indexed_search.dfy` (`IndexedSearch`): the `search_in_file` of
  ocr_reader.py. It is a reference function plus a method with the source's two
  loops, and the method is proved equal to the function.
- `variants.dfy` (`Variants`): how the two searches relate.
  - Every stream snippet starts at a matching line.
  - When no two matching lines are within four lines of each other, both
    searches return the same entries.
  - Two adjacent matching lines give different results.
- `popup.dfy` (`Popup`): the results popup as a state machine. It is closed, or
  open on a list of entries at an index. The model covers `create_popup`, the
  key handlers of both programs, the buttons and the copy commands.
- `clipboard_trigger.dfy` (`ClipboardTrigger`): `on_mouse_release` and
  `show_popup` of main.py, and closing the root window.
- `ocr_trigger.dfy` (`OcrTrigger`): these pieces of ocr_reader.py:
  - the box normalisation of `capture_screen_region`;
  - `extract_text_from_image`;
  - `process_selection`, with its three-word query and its search-popup rule;
  - the selection overlay's corners.
- `hotkey.dfy` (`Hotkey`): the held-key set of `setup_hotkey_listener`, and
  `on_hotkey`.
- `wrappers.dfy` (`Wrappers`) and `ints.dfy` (`Ints`): `Option`, `Min` and `Max`.

How the environment appears in the model:

- A corpus line is the raw string Python's file reader yields, with its line
  terminator. The keyword test runs on the raw line, and snippets use the
  stripped lines.
- A read error is a `ReadFailure(at, message)`: reading position `at` raises
  `message`.
  - `at == |lines|` is the read that would report the end of the file.
  - `at == 0` also covers `open` itself failing.
  - In ocr_reader.py, `readlines()` performs every read before any line is
    compared with the keyword. So any failure with `at <= |lines|` gives exactly the read-error
    entry.
- The clipboard, the screen grab, Tesseract and the keyboard are inputs:
  - the clipboard text after the synthetic copy, or `None` when reading it
    raised;
  - a function from the box to what OCR made of it;
  - the stream of key events.

## Model

| member | source | states |
|---|---|---|
| Text.Lower | main.py:121 | `lower()` keeps the length and folds each character on its own: 'A'..'Z' to 'a'..'z', everything else unchanged |
| Text.ContainsSpec | main.py:121 | the `in` test holds exactly when the needle occurs at some position of the haystack |
| Text.Strip | main.py:122 | the stripped string neither starts nor ends with whitespace and is no longer than the input |
| Text.StripSpec | ocr_reader.py:93 | `strip()` removes only whitespace, all of it at both ends, and keeps the contiguous middle of the line |
| Text.StripIdempotent | main.py:258 | stripping twice is stripping once |
| Text.StripEmptyIffAllSpace | main.py:258-262 | the stripped selection is empty exactly when the clipboard held only whitespace |
| Text.StripTrailingSpace | ocr_reader.py:146 | a trailing whitespace character, such as the newline Tk adds, does not change `strip()` |
| Text.WordsSpec | ocr_reader.py:299 | `split()` cuts exactly at the whitespace runs: its words joined with single spaces are the text with its ends stripped and each inner whitespace run shrunk to one space, and there are no words exactly when the text is all whitespace |
| Text.WordsUnique | ocr_reader.py:299 | no other list of words joins to that collapsed text, so the split is unique |
| Text.WordsOfJoin | ocr_reader.py:299-301 | splitting words joined with single spaces gives the same words back |
| Corpus.MatchesIff | ocr_reader.py:92 | a line matches exactly when the lower-cased keyword occurs in the lower-cased line |
| Corpus.ContextTextSnoc | ocr_reader.py:95-97 | one more context line appends that line's "\n"-prefixed stripped text when the file has the line, and nothing past its end |
| Corpus.SnippetsAt | ocr_reader.py:93-98 | the k-th result is the snippet of the k-th chosen match: stripped line plus up to four stripped context lines |
| StreamSearch.ReadAt | main.py:120-125 | a read yields the line at that position, raises exactly at the failing position, and otherwise reports the end of the file |
| StreamSearch.ReadContext | main.py:124-127 | the context loop either fails with the file's read error or stops at a position between where it started and the end of the file |
| StreamSearch.ReadContextSpec | main.py:124-127 | the context loop raises exactly when the failing read is among the next four; otherwise it yields those lines' stripped text and moves past them |
| StreamSearch.Scan | main.py:120-130 | the loop only adds results, never returns more than four, and aborts only with the file's own read error |
| StreamSearch.Search | main.py:102-146 | a missing file gives exactly the not-found entry and clears `is_running` and the root; otherwise there are 1 to 4 entries, because the error entry is only added after a loop that stopped short of four results |
| StreamSearch.StreamStartsShape | main.py:120-127 | snippet windows never overlap, and a line starts a snippet exactly when it matches and was not consumed as context |
| StreamSearch.StreamStartsUnique | main.py:120-127 | the snippet starts are the only spaced sequence of lines with that property |
| StreamSearch.ScanSpec | main.py:120-140 | the loop from any position it compares with the keyword returns the snippets of the first starts, cut short at the first snippet whose reads include the failing read |
| StreamSearch.StreamSearchEntries | main.py:117-146 | the entries are the snippets of the first four starts, or the no-match entry; a read error keeps the snippets completed before it and adds one error entry |
| StreamSearch.StreamSearchNoFailure | main.py:120-130 | without a read error the result is the first up-to-four snippets in file order, or exactly the no-match entry |
| StreamSearch.StreamSearchOpenFails | main.py:117-140 | if opening or the first read fails, the only entry is the read-error entry |
| IndexedSearch.MatchesBelowShape | ocr_reader.py:91-92 | the match indices are increasing and are exactly the lines containing the keyword |
| IndexedSearch.Search | ocr_reader.py:79-106 | 1 to 4 entries; a missing file gives exactly the not-found entry and a failed `readlines` exactly the read-error entry |
| IndexedSearch.SearchInFile | ocr_reader.py:79-106 | the loops return the not-found entry, the read-error entry, the snippets of the first four matching lines, or the no-match entry |
| IndexedSearch.CollectSnippets | ocr_reader.py:91-100 | the outer loop with its early exit yields the snippets of the first four matching lines in line order |
| IndexedSearch.BuildSnippet | ocr_reader.py:93-97 | the inner loop yields the stripped line followed by each existing next line among four, stripped and "\n"-prefixed |
| Variants.StreamStartsAreMatches | main.py:120-121 | every snippet of main.py starts at a line that ocr_reader.py also counts as a match |
| Variants.SparseSameStarts | main.py:120-127 | when matching lines are more than four apart, every match starts a snippet in main.py |
| Variants.SparseAgree | ocr_reader.py:88-106 | when matching lines are more than four apart and nothing fails, both programs return the same entries |
| Variants.AdjacentMatchesDiverge | ocr_reader.py:91-100 | two adjacent "apple" lines: main.py gives one snippet holding both, ocr_reader.py gives that snippet and then a second one |
| Popup.Create | main.py:153-161 | without a live root nothing changes; otherwise the popup opens on the new list at index 0, whatever was open before |
| Popup.CreateForgetsPrevious | ocr_reader.py:113-122 | the popup after `create_popup` does not depend on the popup before it, and its index is 0 |
| Popup.Next | main.py:190-192 | the next key moves forward by one exactly when not on the last entry, keeps the list, and keeps the index in range |
| Popup.Prev | main.py:193-195 | the previous key moves back by one exactly when not on the first entry, keeps the list, and keeps the index in range |
| Popup.PrevUndoesNext | main.py:190-195 | away from the last entry, next then previous returns to the same popup |
| Popup.NextUndoesPrev | ocr_reader.py:134-139 | away from the first entry, previous then next returns to the same popup |
| Popup.NextTimesClamps | main.py:190-192 | n presses of next from entry k show entry min(k + n, len - 1) |
| Popup.MainStep | main.py:188-203 | Escape, a scroll (where the scroll listener runs) or a close request closes the popup; a closed popup stays closed; the list never changes |
| Popup.MainKeys | main.py:188-197 | Right and x step forward, Left and z step back, Escape closes, and every other key changes nothing |
| Popup.MainRunInBounds | main.py:185-197 | after any events, an open popup on a non-empty list keeps its list, and its index stays on one of its entries |
| Popup.OcrStep | ocr_reader.py:132-148 | a copy leaves the popup as it is, a closed popup ignores everything, Escape or the window manager's close shuts the popup without copying, and the index stays valid |
| Popup.OcrOnKey | ocr_reader.py:132-143 | a key either moves the index within range, closes the popup, or copies without moving |
| Popup.OcrKeys | ocr_reader.py:132-176 | Right/x/n step forward, Left/z/p step back, Escape closes, Control+c copies the entry plus Tk's newline, and the buttons act as Left and Right |
| Popup.CopyButtonCopiesEntry | ocr_reader.py:145-147 | the Copy button puts exactly the stripped entry on the clipboard |
| Popup.OcrRunInBounds | ocr_reader.py:127-176 | after any events the index stays in range, and the clipboard is unchanged or holds one of the entries, raw with a newline or stripped |
| ClipboardTrigger.OnMouseRelease | main.py:248-273 | a search happens exactly on a release while running, with readable non-empty stripped text that differs from `last_text`; then `last_text` becomes that text, and otherwise nothing changes |
| ClipboardTrigger.ReleaseOpensPopup | main.py:241-269 | a search opens a popup on its results at the first entry while the root lives; a missing corpus stops the program and destroys the root, and any popup with it |
| ClipboardTrigger.Step | main.py:285-291 | once `is_running` is false no event searches or restarts it; only a search changes `last_text`; closing the root stops the program and takes the popup with it, and no step leaves a popup open without a root |
| ClipboardTrigger.RunKeepsPopupNeedsRoot | main.py:169 | after any events, no popup is open while the root window is gone, since the popup is a child of the root |
| ClipboardTrigger.StoppedStaysQuiet | main.py:249 | after `is_running` becomes false, no later event searches and `last_text` stays as it was |
| ClipboardTrigger.MissingCorpusEndsSearching | main.py:107-115 | the release that finds the corpus missing is the last one that searches |
| ClipboardTrigger.SameSelectionSearchedOnce | main.py:266-271 | releasing twice over the same selection searches once |
| ClipboardTrigger.AlternatingSelectionsSearchEachTime | main.py:265-269 | selecting a, b, then a again searches three times: only the immediately previous text is deduplicated |
| OcrTrigger.NormalizeRect | ocr_reader.py:49-52 | the box is ordered (left <= right, top <= bottom), holds both corners, and takes each edge from one of them |
| OcrTrigger.NormalizeRectSmallest | ocr_reader.py:49-52 | every box holding both corners contains the normalised box |
| OcrTrigger.NormalizeRectSymmetric | ocr_reader.py:49-52 | swapping the corners, or using the other diagonal, gives the same box |
| OcrTrigger.NormalizeRectIdempotent | ocr_reader.py:49-52 | normalising a normalised box changes nothing |
| OcrTrigger.ExtractText | ocr_reader.py:64-76 | recognised text comes back as one contiguous slice of what OCR read, with only whitespace before and after it and none at either of its own ends (so it is `strip()` of the read text); the result is empty exactly when OCR read only whitespace, so a failure always yields text, marked by an "Error: " prefix before the message |
| OcrTrigger.ExtractTextEmpty | ocr_reader.py:69-73 | the extracted text is empty exactly when OCR read only whitespace |
| OcrTrigger.ExtractTextStart | ocr_reader.py:70-76 | extracted text never starts with whitespace |
| OcrTrigger.QueryWords | ocr_reader.py:299-301 | the query splits back into exactly the first three words of the text |
| OcrTrigger.SearchPopups | ocr_reader.py:297-303 | text of two characters or fewer, or without words, is never searched; at most one popup is requested, 100 ms later, titled "Search Results", carrying the file search for the query, and never when its first entry holds "No match found" |
| OcrTrigger.ProcessSelection | ocr_reader.py:273-303 | popups are requested exactly when `last_extracted_text` changes; the first one shows the new, non-empty text; at most two are requested, and the second carries the search results for the new text's query |
| OcrTrigger.ProcessSelectionDecides | ocr_reader.py:277-294 | a missing corner or failed capture does nothing; empty or repeated text does nothing; new text is remembered and shown |
| OcrTrigger.LongTextIsSearched | ocr_reader.py:297-303 | text longer than two characters is always searched, and the results are shown exactly when the first entry lacks "No match found" |
| OcrTrigger.ScheduledPopupsInOrder | ocr_reader.py:294-303 | after a selection's requests run, the popup is unchanged if nothing was requested, shows the extracted text if no search popup was requested, and otherwise shows the file search for the query at its first entry |
| OcrTrigger.OverlayRun | ocr_reader.py:243-265 | a release after no press hands `process_selection` no start corner |
| OcrTrigger.PressDragRelease | ocr_reader.py:243-262 | a press, any drags and a release hand `process_selection` the press point and the release point |
| OcrTrigger.EscapeCancels | ocr_reader.py:264-270 | Escape before any release closes the overlay with no selection, whatever presses and drags came before |
| OcrTrigger.ReleaseWithoutPressIgnored | ocr_reader.py:259-278 | a selection released without a press changes nothing and shows nothing |
| Hotkey.OnPress | ocr_reader.py:319-334 | a press adds the key to the held set, and fires exactly for key `s` while the platform modifier and Shift are held |
| Hotkey.OnRelease | ocr_reader.py:338-343 | a release removes exactly that key from the held set |
| Hotkey.ReleaseUndoesPress | ocr_reader.py:319-343 | releasing a key that is not held changes nothing, and a press then a release of a new key restores the set |
| Hotkey.ReplayHeld | ocr_reader.py:319-343 | after any events a key is held exactly when the last event about it was a press |
| Hotkey.FiredIff | ocr_reader.py:319-334 | an event fires the hotkey exactly when it presses `s` and the last events about the modifier and about Shift were presses |
| Hotkey.ChordOf | ocr_reader.py:323-334 | a special key, Shift, then s, from nothing held, fires only on the s and only when the special key is the platform's modifier |
| Hotkey.OverlayRequestsCount | ocr_reader.py:306-334 | over any key events, each firing of the chord requests one overlay while running with a live root (the guard of `on_hotkey`), and none is requested otherwise |

## Left out

- Tk widgets, geometry, transparency, focus, fonts and the `after` scheduling.
  A popup request is applied as soon as it is made, in the order requested.
  The label and counter texts (`[i/n]`, `Result i of n`) are not modelled.
- The pynput listener threads and the synthetic Ctrl+C. Events reach the model
  one at a time, in order. Concurrent handlers are not modelled.
- `pyperclip`, `ImageGrab.grab` and `pytesseract`. They are inputs, as described
  above.
- `time.sleep`, logging, the `line_num` counter with its periodic `gc.collect()`
  (main.py:131-136), and the `print` calls. They have no effect on the results.
- The accessibility-permission dialog, both `__main__` blocks,
  `create_control_window` and its start/stop buttons, and `check_running`. Only
  the running flag and whether the root window exists are kept.
  - `start_monitoring` sets `is_running` back to true, so the flag is not
    one-way in ocr_reader.py.
  - Pressing Start again starts one more hotkey listener each time. This is not
    modelled.
- The scroll listener that main.py starts with every popup and never stops. It
  is modelled only through its effect: a scroll closes the current popup.
- Popup.MainStep: the `Scroll` event is the scroll listener's callback, and that
  listener exists only where Tk accepts `-transparentcolor`, which is Windows.
  Elsewhere main.py:208 raises before the listener starts at main.py:233-235.
  The handler at main.py:237-238 swallows the error, so on Linux and macOS no
  `Scroll` event ever arrives and a scroll leaves the popup open. The same raise
  also skips the label (main.py:210-222) and the geometry (main.py:224-231).
  On Linux and macOS the main.py popup is therefore an empty window that never
  shows an entry, and `update_display` finds no label to update. The key
  bindings (main.py:205) are made before the raise, so the index still moves.
  `Shown` describes the Windows popup. The model does not take the platform as
  a parameter.
- Unicode case folding and Unicode whitespace. `lower` folds only ASCII letters,
  and whitespace is the ASCII set `str.isspace` accepts.
- Editing the text of the ocr_reader.py popup. The copy commands copy the entry
  as it was inserted.
- Hotkey.OnPress: a key code equals another only when its `char` does. The way
  pynput reports Shift+s, possibly with `char` `'S'`, is not modelled, so the
  model takes the literal `'s'` test at face value.
- StreamSearch.Search: the stream theorems (`ScanSpec` and the lemmas after it)
  assume every line is non-empty, as a Python file iterator guarantees. The
  function itself follows the source's `if next_line:` test for any input.
- Points where the model follows the code:
  - The code has no event dispatcher, sequence numbers or supersession check.
  - Context lines are stripped, not kept verbatim.
  - ocr_reader.py's snippets overlap.
