# delta: the line-buffer editor and its string helpers, in Dafny

delta is a small terminal text editor. It loads a file into an array of
lines and then edits it one key at a time. Arrow keys move the cursor,
printable keys insert a byte, Backspace and Delete remove one, Tab inserts
spaces, Ctrl-S writes the file and Ctrl-E quits. A `changed` flag records
whether the buffer holds edits that are not on disk yet.

This project models that core and proves its properties. It also models the
three string helpers of `utils/string_utils.c`: `str_trim`, `str_parse` and
`str_guessbase`.

The modules:

- `Buffer` (buffer.dfy) holds the buffer as values.
  - A line is the bytes that `write_file` emits for it: the first `len - 1`
    bytes of the C `FileLine`, with its `'\n'` when it has one.
  - `SplitLines` is what `read_file` builds from a byte stream, and `Join` is
    what `write_file` writes back.
  - `InsertChar` and `RemoveChar` are `fc_insert` and `fc_remove` with the
    defects listed under "## Findings" corrected.
- `Contents` (file_contents.dfy) is the imperative side of the same thing.
  - `ReadLines` has `read_file`'s two nested read loops.
  - `FileContents` is a class over an `array` of lines and a line count,
    updated in place.
  - Its `Remove` shifts the later lines up one slot with an index loop.
- `AsWritten` (as_written.dfy) states `fc_insert` and `fc_remove` exactly as
  the code is written. It shows each defect on a concrete input.
- `Cursor` (cursor.dfy) holds `valid_move`, `at_eol`, `at_bol` and the
  arrow-key rules.
- `Editor` (editor.dfy) holds one pass of the `edit_file` key loop.
  - `Step` is the pass as a function over the whole editor state.
  - `Session` is a class whose `HandleKey` updates fields in place and is
    proved to do what `Step` does.
  - The invariant `Inv` is kept by every key. It says that the buffer keeps
    its loaded shape, that the cursor stays on an existing row, and that a
    clear `changed` flag means the file on disk holds exactly the buffer.
- `StringUtils` (string_utils.dfy) holds the string helpers. Each loop is a
  method, proved equal to a specification function whose properties are
  proved as lemmas.

The model corrects the defects listed under "## Findings". Beside each
correction it states the code as written and shows the input that exposes
the defect. Two of the corrections rest on evidence in the code itself:

- Ctrl-S: when the file cannot be opened, `write_file` returns early without
  telling its caller (delta.c:342-344). The key loop still clears `changed`
  right after the call (delta.c:472). The model clears the flag only when the
  file was written.
- The one-byte-line case of `fc_insert` (delta.c:124-129) writes `c` and '\n'.
  That matches an ordinary insert only when the line's one byte is '\n'; on
  any other byte it drops that byte. The model inserts into such a line like
  into any other.

## Model

| member | source | states |
|---|---|---|
| Buffer.Join | delta.c:347-349 | The bytes written are every line's content in order, starting with the first line. |
| Buffer.JoinNewlines | delta.c:347-349 | A well-formed buffer writes one '\n' fewer than it has lines, and every line but the last puts one just before the next line's offset, so those line ends are the only '\n' bytes written. |
| Buffer.SplitLines | delta.c:41-97 | Loading any byte stream gives at least one line. |
| Buffer.JoinSplitLines | delta.c:41-97 | Writing a freshly loaded buffer reproduces the input bytes exactly. |
| Buffer.SplitLinesWellFormed | delta.c:48-95 | A loaded buffer has at least one line. Every line but the last ends in '\n' and holds no other '\n'. The last line holds no '\n' and may be empty. |
| Buffer.SplitLinesCount | delta.c:48-95 | A loaded buffer has one line more than the input has '\n' bytes. |
| Buffer.SplitLinesJoin | delta.c:41-97 | Reloading the written bytes of any well-formed buffer gives back that buffer, so load and write are mutually inverse. |
| Buffer.InsertChar | delta.c:110-136 | In range (an existing row, column at most `len - 2`), line y gets `c` at column x and grows by one, keeping the bytes before and after. Every other line and the line count are unchanged. Out of range, the buffer is unchanged. |
| Buffer.RemoveChar | delta.c:138-182 | Out of range, the buffer is unchanged. On a line's last byte with a following line, line y becomes its content without that byte followed by line y + 1, line y + 1 is removed and later lines move up one row. Elsewhere, the byte at x is removed from line y and nothing else changes. |
| Buffer.JoinInsertChar | delta.c:110-136 | Inserting at (x, y) inserts `c` into the written file at the offset of line y plus x. |
| Buffer.JoinRemoveChar | delta.c:138-182 | Removing at (x, y), the join case included, removes exactly the byte at the offset of line y plus x from the written file. |
| Buffer.InsertIsTextInsert | delta.c:110-136 | On a well-formed buffer, inserting a non-newline byte equals loading the written file with that byte inserted. |
| Buffer.RemoveIsTextDelete | delta.c:138-182 | On a well-formed buffer, removing a byte equals loading the written file with that byte deleted. |
| Buffer.InsertThenRemove | delta.c:110-182 | Removing at the position just inserted at restores the buffer, for every position. |
| Buffer.InsertKeepsWellFormed | delta.c:110-136 | Inserting a byte other than '\n' keeps the loaded shape of the buffer. |
| Buffer.RemoveKeepsWellFormed | delta.c:138-182 | Removing at any position keeps the loaded shape of the buffer. |
| Contents.ReadLine | delta.c:49-76 | The inner read loop returns the bytes from its start up to and including the next '\n', which then ends the line and nowhere else; or it reaches the end of the input, with no '\n' read. |
| Contents.ReadLines | delta.c:41-97 | The nested read loops build exactly `SplitLines` of the input. |
| Contents.FileContents.Load | delta.c:41-97 | A new object holds a fresh array whose lines in use are `SplitLines` of the input. |
| Contents.FileContents.Write | delta.c:340-353 | The bytes written are every line's content, in order. |
| Contents.FileContents.Insert | delta.c:110-136 | The lines in use become `InsertChar` of the old lines, in the same array. |
| Contents.FileContents.DropLine | delta.c:157-164 | Dropping row j moves every later line up one slot of the same array and lowers the count by one; the lines before row j stay. |
| Contents.FileContents.Remove | delta.c:138-182 | The lines in use become `RemoveChar` of the old lines, in the same array; a join shifts the later lines up in place and lowers the count by one. |
| Cursor.ValidMove | delta.c:323-326 | `valid_move` holds exactly on a byte of a line that is not the last line. |
| Cursor.AtEol | delta.c:332-334 | `at_eol` at a non-negative column is on a byte of the line; there Delete joins the line with the next one exactly when a next line exists, and at no other column does Delete join. |
| Cursor.AtBol | delta.c:336-338 | On a position where `valid_move` holds, `at_bol` holds exactly when a step left cannot stay on the line. |
| Cursor.Move | delta.c:393-414 | An arrow key leaves the cursor where it is or moves it to a position where `valid_move` holds; Up and Down keep the column. |
| Cursor.LeftAtBolLandsAtEol | delta.c:393-397 | Left in column 0 moves to the previous line's last byte, where `at_eol` holds, whenever that line may be entered. |
| Cursor.RightAtEolLandsAtBol | delta.c:398-402 | Right on a line's last byte moves to column 0 of the next line, where `at_bol` holds, whenever that line may be entered. |
| Cursor.MoveStaysInBuffer | delta.c:323-326 | A move stays on an existing row and never enters the last line, which `valid_move` excludes through the footer height. |
| Editor.InsertSpaces | delta.c:456-466 | The Tab loop's repeated inserts keep the line count. |
| Editor.InsertSpacesAtCursor | delta.c:456-466 | Tab inserts `TabWidth` spaces at the cursor when `fc_insert` accepts the column, and changes nothing when it does not. |
| Editor.InsertSpacesKeepsWellFormed | delta.c:456-466 | The Tab loop keeps the loaded shape of the buffer. |
| Editor.TabAsWritten | delta.c:456-466 | The Tab branch as written moves the cursor `TabWidth` columns right and keeps the line count, but leaves `changed` and the disk as they were. |
| Editor.SaveAsWritten | delta.c:469-474 | Ctrl-S as written keeps the buffer and the cursor and always leaves `changed` clear. The disk is unchanged, or holds the buffer when there were changes and the file opened. |
| Editor.Save | delta.c:469-474 | The corrected Ctrl-S keeps the buffer and the cursor. `changed` stays set exactly when there were changes and the file could not be opened. The disk is unchanged or holds the buffer, and whenever it clears `changed` the disk holds the buffer. |
| Editor.Step | delta.c:393-479 | Arrow keys change neither the buffer, the `changed` flag nor the disk, and every move they make lands where `valid_move` holds. Any key that changes the buffer sets `changed`. |
| Editor.OpenedInv | delta.c:41-97 | A freshly opened file satisfies the invariant. |
| Editor.StepKeepsInv | delta.c:393-479 | Every key keeps the invariant, so a clear `changed` flag always means the file on disk holds exactly the buffer. |
| Editor.CleanFileReloads | delta.c:340-353 | With `changed` clear, loading the file on disk gives back the buffer. |
| Editor.SaveStoresBuffer | delta.c:469-474 | Ctrl-S with changes and a writable file stores the buffer's bytes and clears `changed`. Otherwise it changes nothing. Once `changed` is clear, the disk reloads to the buffer. |
| Editor.TypeThenDelete | delta.c:432-449 | Typing a printable key and then pressing Delete at the old column restores the buffer. |
| Editor.TabAsWrittenLosesEdit | delta.c:456-474 | The Tab branch as written edits the file "ab" into "    ab" but leaves `changed` clear, breaking the invariant, and Ctrl-S then writes nothing. |
| Editor.SaveAsWrittenHidesFailure | delta.c:469-474 | Ctrl-S as written, on a file that cannot be opened for writing, clears `changed` although the disk differs from the buffer; the corrected save keeps the flag set. |
| Editor.Session.Open | delta.c:355-389 | A new session is in the state of a freshly opened file and satisfies the invariant. |
| Editor.Session.MoveCursor | delta.c:393-414 | The cursor moves exactly as `Move` says; nothing else changes. |
| Editor.Session.InsertTab | delta.c:456-466 | The Tab loop leaves the lines equal to `InsertSpaces` of the old lines and moves the cursor right by `TabWidth`. |
| Editor.Session.TypeKey | delta.c:432-436 | A printable key changes the session exactly as `Step` says: `fc_insert` at the cursor, the cursor one column right, `changed` set. |
| Editor.Session.BackspaceKey | delta.c:438-444 | Backspace changes the session exactly as `Step` says: from column 1 on, the cursor steps left and the byte there is removed. |
| Editor.Session.DeleteKeyPressed | delta.c:446-449 | Delete changes the session exactly as `Step` says: the byte under the cursor is removed and `changed` set. |
| Editor.Session.TabKey | delta.c:456-466 | Tab changes the session exactly as `Step` says: the Tab loop's spaces, with `changed` set. |
| Editor.Session.SaveKey | delta.c:469-474 | Ctrl-S changes the session exactly as `Step` says: the buffer's bytes are stored only when there are changes and the file opens. |
| Editor.Session.HandleKey | delta.c:390-486 | One pass of the key loop changes the session exactly as `Step` says and keeps the invariant; it reports exit exactly for Ctrl-E. |
| AsWritten.InsertAsWritten | delta.c:110-136 | `fc_insert` as written is undefined exactly on the row past the end (at a non-negative column); otherwise it keeps one slot per line. |
| AsWritten.RemoveAsWritten | delta.c:138-182 | `fc_remove` as written is undefined exactly on the row past the end, on the column after a line's last byte, and on the last byte of the last line (each at a non-negative column). Otherwise it keeps one slot per line, or one fewer when it joins. |
| AsWritten.MergedAsWritten | delta.c:144-155 | The joined line as written keeps its old length. |
| AsWritten.JoinAsWritten | delta.c:144-164 | The pointer array after the join as written has one slot fewer than before. |
| AsWritten.InsertAsWrittenAgrees | delta.c:110-136 | Away from row `count` and from a one-byte line, `fc_insert` as written does what `InsertChar` does. |
| AsWritten.RemoveAsWrittenAgrees | delta.c:138-182 | Deleting a byte that does not end its line, `fc_remove` as written does what `RemoveChar` does. |
| AsWritten.RowPastEndAsWritten | delta.c:110-142 | Row `count` passes both guards as written and reads past the pointer array. The corrected operations leave the buffer unchanged there. |
| AsWritten.OneByteLineInsertAsWritten | delta.c:124-129 | Typing 'x' into the file "a" as written gives the line "x\n". The corrected insert gives "xa", and the file written is "xa". |
| AsWritten.EmptyLineRemoveAsWritten | delta.c:139-181 | Delete in an empty file passes the guard as written and reaches behaviour the C standard does not define. The corrected remove leaves the buffer unchanged. |
| AsWritten.LastLineJoinAsWritten | delta.c:144-146 | Delete on the last byte of the file "a" as written joins with a line that does not exist. The corrected remove deletes the byte. |
| AsWritten.JoinLosesLinesAsWritten | delta.c:144-164 | In "a\nb\nc\nd", Delete on line 0's newline as written leaves "ab", a freed slot and "c\n", losing "d". The corrected remove gives "ab\n", "c\n", "d". |
| StringUtils.Leading | utils/string_utils.c:42-50 | The front scan's count: all leading bytes are ' ' and the next byte is not. |
| StringUtils.Trailing | utils/string_utils.c:52-61 | The back scan's count: all trailing bytes are ' ' and the byte before them is not. |
| StringUtils.Trimmed | utils/string_utils.c:16-73 | The trimmed string is the contiguous slice starting after the leading spaces. It starts and ends with a byte other than ' '. It is empty exactly when the input is all spaces. Its length is the input's minus the leading and trailing spaces. |
| StringUtils.Trim | utils/string_utils.c:16-73 | The front scan, the bounded back scan and the copy loop return exactly `Trimmed` of the input. |
| StringUtils.BackScan | utils/string_utils.c:52-61 | The back scan as written stops on the first byte other than ' ' going left, or runs past the front of the string. |
| StringUtils.AllSpacesAsWritten | utils/string_utils.c:52-61 | On a string of two or more spaces, the back scan as written runs past index 0, while the intended result is the empty string. |
| StringUtils.TrimmedIdempotent | utils/string_utils.c:42-72 | Trimming twice is trimming once. |
| StringUtils.TrimmedIdentity | utils/string_utils.c:42-72 | A string with no ' ' at either end is returned unchanged. |
| StringUtils.TrimmedKeepsOtherEdges | utils/string_utils.c:43-61 | Only ' ' is stripped: any other byte at either edge, a tab or a newline included, stays at that edge. |
| StringUtils.TrimmedShort | utils/string_utils.c:22-40 | The empty string gives "", a single space gives "", and a single other byte is returned unchanged. |
| StringUtils.HexRun | utils/string_utils.c:85-88 | The scan's run is made of `[0-9a-f]` bytes and stops at the end of the input or at a byte outside that set. |
| StringUtils.Parsed | utils/string_utils.c:78-98 | The result is a prefix of the input. It keeps "0x" whenever the input is longer than two bytes and starts with it. It continues with `[0-9a-f]` only, and the next input byte, if any, is outside that set. |
| StringUtils.Parse | utils/string_utils.c:78-98 | The scan loop and the copy loop return exactly `Parsed` of the input. |
| StringUtils.ParsedUnique | utils/string_utils.c:78-98 | Any prefix with the same prefix rule, only `[0-9a-f]` after it and no such byte following it is the result of `str_parse`. |
| StringUtils.ParsedExamples | utils/string_utils.c:81-87 | "0x" parses to "0", "0xAB" to "0x", "0xff" to "0xff" and "12z" to "12". |
| StringUtils.GuessBase | utils/string_utils.c:103-109 | The base is 10 or 16. It is 16 exactly when `str_parse` keeps a "0x" prefix, which is the same test. |

## Left out

- Screen drawing (`draw_file`, `draw_footer`, `update_max`, cursor placement) is not modelled: it is ncurses output, and `linenum_width` needs floating-point `log10`.
- Status messages (`set_status`, `clear_status`, `fileset_status`) are not modelled: they are text for the user, not buffer state.
- File handles and process control (`fopen`, `fgetc`, `fwrite`, `fclose`, `main`, the open-failure path) are not modelled. Loading and saving are functions on byte sequences. Whether the file opens for writing is the `writable` parameter of `Editor.Step`. `write_file` ignores what `fwrite` and `fclose` return (delta.c:347-351), so `writable` also stands for the whole buffer reaching the disk: after a short write the file is truncated and even the corrected Ctrl-S clears `changed`, and the guarantee of `Editor.StepKeepsInv` that a clear flag means the disk holds the buffer assumes complete writes.
- Memory management (`malloc`, `realloc`, `free`, `fc_cleanup`, the allocation-failure exits) and NUL-terminator upkeep are not modelled. A line is its first `len - 1` bytes, so the terminator that `fc_remove`'s delete branch never rewrites does not show.
- NUL bytes inside the file are not modelled: the `strncpy` calls of delta.c would cut a line at one, and the model keeps every byte.
- A 0xFF byte in the file is not modelled. `read_file` stores `fgetc`'s result in a `char` and compares it with `EOF`, so on platforms where `char` is signed it stops reading there. Where `char` is unsigned the comparison never holds and `read_file` never finishes on any input. The model assumes a signed `char` and no such byte: `Contents.ReadLines` always terminates.
- Enter (`fc_newline`) is not modelled as a line split, because delta.c's `fc_newline` only beeps. Enter only sets `changed`. For the same reason there is no split/join inverse to prove.
- Page Up and Page Down (`start_line`, `KEY_NPAGE`, `KEY_PPAGE`) are not modelled: they move the viewport. Page Up can also move the cursor to a negative row, which the invariant excludes.
- The Tab branch's `tab_does == -1` case is not modelled: `tab_does` is always 4, so that case is dead code.
- The `String` struct of `utils/string_utils.h` is unused by the code and not modelled.
- Editor.Step: three branches follow the corrections in "## Findings", not the code as written. Printable keys, Backspace, Delete and Tab edit through the corrected `Buffer.InsertChar` and `Buffer.RemoveChar`. Tab sets `changed`. Ctrl-S clears `changed` only when the file was written. `Editor.SaveAsWritten` states the Ctrl-S branch as written. `Editor.TabAsWritten` states the Tab branch's missing `changed = true` as written, but its inserts go through the corrected `Buffer.InsertChar`. The `AsWritten` module states `fc_insert` and `fc_remove` as written.
- Editor.Session.TypeKey: inserts through the corrected `fc_insert` (`Contents.FileContents.Insert`).
- Editor.Session.BackspaceKey: removes through the corrected `fc_remove` (`Contents.FileContents.Remove`).
- Editor.Session.DeleteKeyPressed: removes through the corrected `fc_remove` (`Contents.FileContents.Remove`).
- Editor.Session.TabKey: sets `changed`, which the Tab branch as written does not.
- Editor.Session.SaveKey: clears `changed` only when the file was written; the code as written clears it whenever there were changes.
- Editor.Session.HandleKey: carries all of the corrections above, since it dispatches to those methods.
- Contents.FileContents.DropLine: is the corrected shift loop; the loop as written copies the freed pointer of the dropped line instead (see "## Findings").
- The `beep()` that `fc_remove` makes when it rejects a position (delta.c:140) is not modelled: it is a sound for the user, not buffer state.
- Contents.FileContents.Insert: is the corrected `fc_insert`. It replaces line y by its new content as a value, so the in-place byte shifting of `strncpy` and the sharing of line buffers are not modelled.
- Contents.FileContents.Remove: is the corrected `fc_remove`. It moves whole lines as values; the byte copies inside a line are not modelled.
- StringUtils.Trim: the input's C string is its bytes before the NUL. The model does not free the input, which `str_trim` does on some paths and not others.

## Findings

| source | as written | input that shows it | evidently intended | confidence | as-written member | corrected member |
|---|---|---|---|---|---|---|
| delta.c:110-142 | The guard `y > fc->len` admits `y == fc->len`, then reads `fc->data[y]` one past the array. | Any buffer with row `y = count`. | The guard rejects `y >= count`. | not executed | AsWritten.RowPastEndAsWritten | Buffer.InsertChar |
| delta.c:124-129 | When a line's `len` becomes 3, it is overwritten with `c` and '\n' whatever its one byte was. | The file "a"; type 'x' in column 0: the line becomes "x\n". | The byte is inserted like any other, giving "xa". | not executed | AsWritten.OneByteLineInsertAsWritten | Buffer.InsertChar |
| delta.c:139-181 | The guard `x > len - 1` admits `x == len - 1`. On an empty line this reallocates the line to 0 bytes, which is implementation-defined. On any other line the second `strncpy` gets the length -1, converted to SIZE_MAX. | An empty file; press Delete. | Nothing happens past the line's last byte. | not executed | AsWritten.EmptyLineRemoveAsWritten | Buffer.RemoveChar |
| delta.c:144-146 | `x == len - 2` on the last line joins with `fc->data[y + 1]`, which does not exist. | The file "a"; press Delete in column 0. | The byte is deleted. | not executed | AsWritten.LastLineJoinAsWritten | Buffer.RemoveChar |
| delta.c:146-164 | The join never updates line y's `len`, and the loop copies the freed pointer of line y + 1 into later slots instead of moving them up. | "a\nb\nc\nd"; press Delete on line 0's newline: "ab", a freed slot and "c\n" remain, and "d" is lost. | Line y + 1 is appended to line y and removed, and the rest move up. | not executed | AsWritten.JoinLosesLinesAsWritten | Contents.FileContents.Remove |
| delta.c:456-466 | The Tab branch inserts spaces but does not set `changed`. | Open "ab", press Tab, then Ctrl-S: nothing is written. | Tab sets `changed` like the other edits. | not executed | Editor.TabAsWrittenLosesEdit | Editor.StepKeepsInv |
| delta.c:469-474 | Ctrl-S clears `changed` even when `write_file` could not open the file. | A changed buffer and a file that cannot be opened for writing. | `changed` is cleared only when the file was written. | not executed | Editor.SaveAsWrittenHidesFailure | Editor.SaveStoresBuffer |
| utils/string_utils.c:53-61 | The back scan has no lower bound. | "  " (two spaces): the scan reads `string[-1]`. | The scan stops at the front scan's index and the result is "". | not executed | StringUtils.AllSpacesAsWritten | StringUtils.Trim |
