# Mogd Editor: a Dafny model of its document and file logic

Mogd Editor is a small tkinter text editor in a single file, `code.py`. This
project models the logic behind its menus:

- **find** selects the first occurrence of a query;
- **replace** rewrites every non-overlapping occurrence, left to right;
- the **file commands** (new, open, save, save as, exit) change the editor's
  session. The session is the document text, the path it belongs to, and the
  "unsaved changes" mark;
- the **key handler** sets that mark.

Modules:

- `Wrappers`: `Option` and `Result`.
- `Text`:
  - the document is a plain `string`;
  - a query matches at an offset (`MatchAt`);
  - a range is deleted and text is inserted as the text widget does it.
- `Search`:
  - `FindFrom` is the widget's forward search from an offset;
  - `ReplaceAll` is the replace loop with its cursor;
  - `ReplaceRef` is an independent left-to-right reference definition, and
    `ReplaceAll` is proved equal to it;
  - `FindText` is the find command.
- `FileLoad`:
  - opening a chosen file applies the 90 GiB ceiling, then the memory map,
    then UTF-8 decoding with a windows-1251 fallback;
  - the loading is modelled both as written (`LoadAsWritten`) and as
    evidently intended (`Load`). See Findings. The session's "open"
    follows the program as written (`Session.OpenFile`), and
    `Session.OpenFileIntended` is the corrected version.
- `Session`: the session and the transitions of the file menu, the
  "save changes?" question, the key handler, and replace as a session
  operation.
- `Editor`: one step per user action (`Step`) and the event loop (`Run`).

Everything the program learns from outside is a parameter of the operation
that consumes it:

- the answers of the open and save dialogs (`""` means cancelled);
- the answers of the query dialogs (`None` means cancelled);
- the answer to the "save changes?" question;
- the file's bytes and whether it opens;
- whether a write succeeds;
- the two decoders;
- the text widget's modified flag.

Edits that the text widget performs by itself (typing, undo, redo, cut,
paste, delete) appear only through the text they leave behind
(`Editor.WidgetEdit`).

The program never installs a handler for the window manager's close
button, so closing the main window ends the event loop at once, without
the "save changes?" question that the exit command asks. The model has this
as the event `Editor.CloseWindow`.

## Model

| member | source | states |
|---|---|---|
| `Text.Delete` | code.py:232 | deleting `[start, end)` keeps the text before `start` and continues with the text from `end` on; the length shrinks by `end - start` |
| `Text.Insert` | code.py:233 | inserting at `pos` keeps the text before `pos`, then the inserted text, then the old text from `pos` on |
| `Text.DeleteUndoesInsert` | code.py:232-233 | deleting what was just inserted gives back the original text |
| `Text.InsertUndoesDelete` | code.py:232-233 | re-inserting what was just deleted gives back the original text |
| `Search.FindFrom` | code.py:228 | the search result is a match at or after the start offset with no match between them; no result means no match at or after the start |
| `Search.FindFromShift` | code.py:228-234 | searching a text from an offset gives the same relative result as searching any text with the same suffix; this relates the search over the partly replaced text to the original |
| `Search.FindFromShiftFound` | code.py:228-234 | the found case of the shift property: the match sits at the same distance from the start offset |
| `Search.NoMatchShift` | code.py:228 | an offset before the shifted match is not a match in a text with the same suffix |
| `Search.RefAtMatch` | code.py:228-234 | the reference replacement from `k` copies the text up to the first match `j`, emits the replacement, and continues after the matched text |
| `Search.RefNoMatch` | code.py:229-230 | when no match lies at or after `k`, the reference replacement leaves the rest of the text unchanged |
| `Search.ReplaceRefNoMatch` | code.py:226-230 | with no occurrence of the query, replace leaves the text unchanged |
| `Search.RefBySelf` | code.py:226-234 | replacing every occurrence of a query by the query itself changes nothing |
| `Search.ReplaceAll` | code.py:226-234 | for a non-empty query the cursor loop terminates over the text without the widget's final newline, and its result equals the left-to-right non-overlapping reference replacement |
| `Search.ScanStarts` | code.py:226 | the loop invariant holds when the cursor is at the start of the untouched text |
| `Search.ScanFinishes` | code.py:229-230 | when the search from the cursor finds nothing, the current text is the complete replacement |
| `Search.ScanAdvances` | code.py:228-234 | one iteration keeps the loop invariant: search from the cursor, delete the match, insert the replacement, and move the cursor just past it |
| `Search.NextMatchInOriginal` | code.py:228 | the match found after the cursor is, in the original text, the reference scan's next match, at the same distance from the scan position |
| `Search.SpliceAdvances` | code.py:231-234 | splicing the replacement over a match and moving the cursor past it keeps the loop invariant |
| `Search.SpliceKeepsSplit` | code.py:231-234 | after the splice, the text before the new cursor is the old prefix plus the skipped text plus the replacement, and the text after it is the rest of the original |
| `Search.ReplaceExampleDoublesEachA` | code.py:226-234 | replacing "a" by "aa" in "aaa" gives "aaaaaa": inserted text is never searched again |
| `Search.FindText` | code.py:207-219 | a missing or empty query selects nothing; otherwise the selection spans exactly the first occurrence, and "not found" means the query occurs nowhere |
| `Search.FindSelectsTarget` | code.py:211-214 | the selected range lies inside the text and holds the query |
| `FileLoad.ReadRest` | code.py:99 | a read returns the bytes from the position to the end and leaves the position at the end |
| `FileLoad.SecondReadIsEmpty` | code.py:99-102 | a second read of a map already read to the end returns no bytes |
| `FileLoad.MapFile` | code.py:96-97 | mapping succeeds exactly for an openable non-empty file, at position 0; otherwise it reports the open error |
| `FileLoad.LoadAsWritten` | code.py:85-115 | as written: cancel, too-large and open-failure cases exactly as in `Load`; every accepted file loads unless both decoders refuse; a UTF-8 file loads as its decoding; otherwise the text is the windows-1251 decoding of the empty byte string, so the "encoding undetermined" error cannot occur |
| `FileLoad.Load` | code.py:85-115 | intended: cancelled exactly when no path was chosen; too large exactly when strictly over the ceiling; an open error exactly for an unopenable or empty file; loaded text is the UTF-8 decoding, else the windows-1251 decoding of the same bytes; otherwise the encoding is undetermined |
| `FileLoad.CeilingIsInclusive` | code.py:91-93 | a file of exactly 90 GiB is not refused as too large; one byte more is refused |
| `FileLoad.LoadAsWrittenIgnoresNonUtf8Content` | code.py:99-102 | as written, any two acceptable files that are not UTF-8 load as the same text |
| `FileLoad.FallbackDropsContentExample` | code.py:99-105 | a one-byte file 0xFF loads as "" as written and as "я" as intended |
| `Session.SaveFileAs` | code.py:130-146 | a chosen path and a successful write store the path and clear the mark; a cancelled dialog or a failed write changes nothing; the text is never changed |
| `Session.SaveFile` | code.py:116-128 | with a path, keep it and clear the mark exactly on a successful write; without a path, act as save as |
| `Session.SaveIsIdempotent` | code.py:116-146 | saving a second time with the same outcomes does not change the session further |
| `Session.SuccessfulSaveIsClean` | code.py:116-146 | a successful save leaves a clean document with a path |
| `Session.ConfirmDiscard` | code.py:154-162 | Cancel stops; No proceeds without saving; Yes runs save and then proceeds |
| `Session.Guard` | code.py:72-74 | the question is asked only when the mark is set; a clean session proceeds unchanged; a refusal changes nothing; the text is kept |
| `Session.YesProceedsDespiteFailedSave` | code.py:157-159 | answering Yes proceeds even when the save fails and leaves the session unsaved |
| `Session.NewFile` | code.py:71-79 | unless the user cancels the question, the result is the empty, pathless, clean document; a cancel changes nothing |
| `Session.OpenWith` | code.py:106-115 | after the guard, a loaded text replaces the document under the chosen path and clears the mark; a load error leaves the session as the guard left it; a cancelled question changes nothing |
| `Session.OpenFile` | code.py:81-115 | as written: a cancelled question changes nothing; a cancelled dialog, a file over the ceiling or an unopenable or empty file leaves the session as the question left it; a UTF-8 file loads as its decoding; any other accepted file loads as the windows-1251 decoding of no bytes, the empty text, under the chosen path with the mark cleared |
| `Session.OpenFileIntended` | code.py:81-115 | as intended: the same, and a UTF-8 file loads as its decoding under the chosen path with the mark cleared, except that a file that is not UTF-8 loads as its windows-1251 decoding, and one neither decoder accepts leaves the session as the question left it |
| `Session.OpenVersionsAgreeOnUtf8` | code.py:99-102 | the two versions of open give the same session unless the file is accepted and is not UTF-8 |
| `Session.OpenRefusalKeepsCleanSession` | code.py:86-93 | for a clean session, a cancelled dialog or a file over the ceiling leaves the session unchanged |
| `Session.OpenAcceptsCeilingSize` | code.py:90-93 | a UTF-8 file of exactly the ceiling size is loaded under the chosen path with the mark cleared |
| `Session.ExitEditor` | code.py:148-152 | the editor quits exactly when the session is clean or the question is not cancelled; with unsaved changes the outcome is the question's, so Yes saves before quitting; a cancel changes nothing |
| `Session.SetUnsavedChanges` | code.py:164-168 | the mark is set when the widget reports a modification, is never cleared, and text and path stay as they were |
| `Session.ReplaceText` | code.py:221-235 | path and mark are untouched; a missing or empty query or a cancelled replacement changes nothing; otherwise the text becomes the reference replacement, and it stays the same when the query does not occur |
| `Editor.Next` | code.py:44-60 | every action keeps a stored path non-empty; only a key press with the widget modified sets the mark; only a file command clears the mark or changes the path; only new, open, replace or a widget edit changes the text; find and a window close change nothing; among the bound handlers only an exit that is not cancelled quits, and closing the window always quits |
| `Editor.Step` | code.py:44-60 | running the handler bound to an event, replace through its cursor loop, has exactly the effect `Next` describes |
| `Editor.CloseWindowSkipsQuestion` | code.py:250 | with unsaved changes, closing the window quits and leaves the changes unsaved, while a cancelled exit in the same session keeps the editor running with the session unchanged |
| `Editor.RunStateAdvances` | code.py:248-250 | handling one more event extends the loop's trace by that event's effect, keeps a stored path non-empty and keeps the provenance of the unsaved mark |
| `Editor.Run` | code.py:248-250 | the trace starts at the initial session and ends at the result, each entry is `Next` of the one before; the loop quits exactly when the last handled event quits (an exit that is not cancelled, or a window close), no earlier event quits, and without a quit every event is handled; a stored path stays non-empty; the mark can appear only through a key press that saw the widget modified |

## Left out

- The window's layout, menus, key bindings as such, the status bar and the
  window titles are out of scope, because they are presentation only.
  Closing the window is not: it is the event `Editor.CloseWindow`.
- The model does not track how undo, redo, cut, copy, paste, delete and
  select-all work inside the widget, or the selection they act on. Only the
  text they leave enters the model, as `Editor.WidgetEdit`. That event leaves
  the path and the mark alone, as those handlers do (code.py:172-205).
- Reading and writing files, the memory map's operating-system side, and the
  UTF-8 and windows-1251 codecs are not modelled as code. They are inputs: the
  file's bytes, whether it opens, whether a write succeeds, and two decoding
  functions.
- An exception from reading the file size (code.py:90) is not modelled. It
  escapes the handler and leaves the session as the unsaved-changes question
  left it (saved first if the answer was Yes), which is what a cancelled open
  produces.
- The text written by a save is not modelled. The widget adds a trailing
  newline to the text it returns, and the write's content is not part of the
  session.
- The refusal message shows the ceiling in GiB as a floating-point value. Only
  the integer comparison is modelled.
- Search.ReplaceAll: termination and the result are proved for the text
  without the widget's implicit final newline. In the program a replace of
  "\n" matches that final newline, whose delete Tk ignores; the insert goes
  before it and the cursor moves back onto it, so the loop at code.py:226-234
  finds it again and does not terminate (not executed).
- Offsets count characters. Tk's line.column indices, its counting of
  characters outside the Basic Multilingual Plane, and a query matching the
  widget's implicit final newline are not modelled.
- The widget's selection, insert mark and scrolling are not session state.
  `Search.FindText` returns the range that find selects, and `Editor.Next`
  leaves the session unchanged on find.
- Tk search options (case, regular expressions, backwards search) are not
  modelled, because the program uses none of them.
- The model does not track the widget's marks and tags, which the deletes
  and inserts of replace shift or drop. The widget's modified flag, which
  those edits raise, is an input to the next key press rather than state.
- The modified flag being cleared after a key press (code.py:167) is not
  modelled, because it is widget state.

## Findings

| source | as written | input that shows it | evidently intended | confidence | as-written member | corrected member |
|---|---|---|---|---|---|---|
| code.py:99-105 | the windows-1251 fallback calls `read()` a second time on a map that the UTF-8 attempt already read to its end. It decodes the empty byte string, so every file that is not UTF-8 opens as empty text under its own path, and the "encoding could not be determined" error is unreachable | a file holding the single byte 0xFF | decode the same bytes the UTF-8 attempt read, so 0xFF opens as "я" | high, not executed | `FileLoad.LoadAsWritten` | `FileLoad.Load` |
