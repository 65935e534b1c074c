# QDataViewer bit table, modelled in Dafny

QDataViewer is a small Qt tool for looking at a value bit by bit. The user
types a number in hexadecimal, binary or decimal, and the main window turns
it into a table of bits with one column per bit. Row 0 holds the bits, row 1
the value of each field and row 2 the field names. Adjacent columns can be
merged into a field whose value is shown in hexadecimal. A bit is toggled
by a double click. The output line prints row 0 again, cut into 8-, 16- or
32-bit chunks, in hexadecimal, decimal or binary, with or without spaces.

This project models the event handlers of `mainwindow.cpp` that do this
work, and proves what they compute:

- `QtText` gives the meaning of the Qt string and number routines the
  handlers call:
  - `QString::number`, `rightJustified`, `toUpper`
  - `toUInt` of one character and `toULongLong` in base 2
  - `remove(QRegExp("\\s"))`, `remove("0x", Qt::CaseInsensitive)`
  - `QStringList::join`
- `InputCodec` covers how typed text is cleaned, what `convertToBits`
  returns and what its success flag reports, and the status message.
- `OutputCodec` covers how row 0 is cut into chunks and how the output line
  is printed.
- `FieldLayout` covers the field structure of the table:
  - `spans[i]` is the width of the field starting at column i, and 0 for a
    column inside a wider field.
  - It also gives the value text of a field, the toggle, the de-duplicated
    selection, and the name and span changes of a merge.
- `Window` holds `class MainWindow`:
  - Its fields are the three rows, the spans, the headers, the status
    message, the output line and the output settings.
  - Each slot is a method that changes those fields.
  - Each loop of the source is a method with a `while` or `for` loop,
    proved against a specification function: `InputCodec.Encode`,
    `OutputCodec.Chunks` and `ChunkTexts`, `FieldLayout.Recomputed`,
    `HexFieldText`, `MergeLabels` and `Dedup`, or `Window.Headers`.

`MainWindow.Consistent()` is the state every handler leaves behind:
- Every field start of row 1 shows its field's value.
- The headers count the bits down, from n - 1 to 0.
- The output line is the rendering of row 0 under the current settings.

Every handler keeps `Valid()`, which means:
- one cell per column in every row;
- spans that tile the columns;
- a row 0 made of `'0'` and `'1'`.

If the window was consistent before a handler runs, it is consistent after.

## Model

| member | source | states |
|---|---|---|
| QtText.RemoveWhitespaceClean | mainwindow.cpp:80 | after whitespace removal no character is whitespace and every character comes from the typed text |
| QtText.RemoveWhitespaceKeeps | mainwindow.cpp:80 | text without whitespace is left exactly as it is |
| QtText.RemoveZeroXSubset | mainwindow.cpp:87 | removing "0x"/"0X" introduces no character that was not in the text |
| QtText.RemoveZeroXKeeps | mainwindow.cpp:87 | text with no "0x"/"0X" occurrence is left exactly as it is |
| QtText.RemoveZeroXDoesNotRescan | mainwindow.cpp:87 | every occurrence is removed ("0x0X1f" gives "1f"), but an occurrence that only forms after a cut stays ("00xx" gives "0x") |
| QtText.RemoveZeroXAppend | mainwindow.cpp:87 | a cut after a character other than '0' splits no occurrence, so the removal of two pieces is the removals run together: the characters it keeps stay in order |
| QtText.JoinSpaceRemoved | mainwindow.cpp:198 | joining whitespace-free parts with " " and removing the whitespace again gives the parts run together |
| QtText.NumberRoundTrip | mainwindow.cpp:68 | the digits QString::number prints read back as the number in the same base |
| QtText.HexTextDigits | mainwindow.cpp:141 | number(v,16).rightJustified(w,'0').toUpper() is upper-case hexadecimal, reads back as v, and has exactly max(w, digits of v) digits, so at most k when v < 16^k and w <= k |
| InputCodec.CleanInputChar | mainwindow.cpp:80-87 | a single typed character is dropped exactly when it is whitespace |
| InputCodec.CleanInputAppend | mainwindow.cpp:80-87 | the cleaned text of two pieces is the two cleaned pieces run together (for hexadecimal input, when the cut splits no "0x"), so the kept characters appear in the typed order |
| InputCodec.CleanBinaryExample | mainwindow.cpp:80 | "1 0" typed in binary is cleaned to "10" |
| InputCodec.CleanHexExample | mainwindow.cpp:80-87 | "0x1 f" typed in hexadecimal is cleaned to "1f" |
| InputCodec.CleanInputSpec | mainwindow.cpp:80-87 | the cleaned input has no whitespace and only typed characters; typed text without whitespace (and without "0x" for hexadecimal input) is used as typed |
| InputCodec.CharBitsShape | mainwindow.cpp:67-71 | one character gives exactly 1 bit in base 2 and 4 bits in bases 10 and 16, all '0'/'1', whose value is the digit's value (0 for a rejected character) |
| InputCodec.EncodeShape | mainwindow.cpp:63-76 | the converted row has \|s\| bits in base 2 and 4·\|s\| bits otherwise, each '0' or '1' |
| InputCodec.EncodeCharAt | mainwindow.cpp:66-73 | character k owns bit k in base 2 and bits 4k..4k+3 otherwise, and those bits are its own bits |
| InputCodec.BinaryEncodeAt | mainwindow.cpp:68-72 | in base 2, bit k is '1' exactly when character k is '1' |
| InputCodec.EncodeValue | mainwindow.cpp:63-76 | the row's value is the text read in base 2 or 16; decimal text (all digits) reads back digit for digit as base 16 |
| InputCodec.OkReportsOnlyLastCharacter | mainwindow.cpp:68 | the flag is rewritten per character: "G1" in hexadecimal is reported as parsed and encoded as 00000001 |
| InputCodec.StatusTextInjective | mainwindow.cpp:100-103 | the status message "Detected n/8 bytes[ and n%8 bits]" determines the bit count n |
| Window.HeadersCountDown | mainwindow.cpp:110-111 | header i is the decimal number n - 1 - i |
| Window.MainWindow.constructor | mainwindow.cpp:9-45 | a new window is consistent, with the given output settings, an empty `inputBits`, no status and, by assumption (see "Left out"), an empty table and output line |
| Window.MainWindow.ConvertToBits | mainwindow.cpp:63-76 | the loop returns the characters' bits in order, and the flag reports the last character's parse, or is left alone for empty input |
| Window.MainWindow.TableBitsToChunks | mainwindow.cpp:151-167 | the loop returns the greedy chunks of row 0; with OutputCodec.ChunksShape these are full chunks and one shorter, non-empty last one |
| Window.MainWindow.FormatChunks | mainwindow.cpp:181-196 | the loop prints every chunk in the selected radix, in order |
| Window.MainWindow.OnOutputConfigUpdate | mainwindow.cpp:169-199 | the output line becomes the rendering of row 0 under the current settings; nothing else changes |
| Window.MainWindow.SelectOutput | mainwindow.cpp:36-39 | a click on an output button stores the new settings and redraws the output line; consistency is kept |
| Window.MainWindow.HexFieldValue | mainwindow.cpp:134-143 | the inner loop collects the field's bits, and the text is "0x" plus the 64-bit value in upper-case hexadecimal, padded to ceil(span/4) |
| Window.MainWindow.FieldValue | mainwindow.cpp:133-147 | a one-column field shows its bit, a wider field its hexadecimal text |
| Window.MainWindow.RecomputeValues | mainwindow.cpp:132-148 | the loop writes every field start's value and leaves the cells inside a field as they were |
| Window.MainWindow.OnTableFieldUpdate | mainwindow.cpp:128-149 | row 1 becomes the recomputed row; nothing else changes |
| Window.MainWindow.RebuildTable | mainwindow.cpp:107-123 | one column per bit: the bit in rows 0 and 1, an empty name, header n-1-i, every column a one-bit field |
| Window.MainWindow.OnInputUpdate | mainwindow.cpp:78-126 | empty text: nothing changes; otherwise inputBits is the converted cleaned text; on a failed parse only the status changes (to the failure message); on success the table is rebuilt, the status is the byte/bit message and the window is consistent |
| Window.MainWindow.OnCellDoubleClick | mainwindow.cpp:201-211 | a click outside row 0 changes nothing; in row 0 the bit is toggled ("0" to "1", anything else to "0"), and values and output are recomputed |
| Window.MainWindow.GetSelectedColumns | mainwindow.cpp:213-227 | the result is `Dedup` of the listed columns: no repeats, exactly the listed columns, in the order of their first listing (`DedupOrder`, `DedupLast`) |
| Window.MainWindow.MoveFieldNames | mainwindow.cpp:236-242 | the loop gives the first column the first non-empty name of first..last and clears the rest of the range |
| Window.MainWindow.SetOrRemoveSpan | mainwindow.cpp:245-251 | a wider field at the first column is split into one-bit fields, otherwise a span of \|last-first\|+1 is set there |
| Window.MainWindow.OnCellMergeRequest | mainwindow.cpp:229-255 | with at most one selected column nothing changes; otherwise names and spans change as a merge request prescribes, and values and output are recomputed |
| OutputCodec.ChunksShape | mainwindow.cpp:151-167 | the chunks run together spell the row, there are ceil(n/size) of them, all but the last have exactly size bits, and each has 1..size bits |
| OutputCodec.ChunkValueExact | mainwindow.cpp:183 | a chunk of at most 32 bits fits the uint32_t exactly |
| OutputCodec.HexChunkText | mainwindow.cpp:184-190 | "0x" (dropped in compact mode), then upper-case hexadecimal of the chunk's value with exactly max(floor(len/4), digits of the value) digits, so no extra leading zero and never more than ceil(len/4) |
| OutputCodec.DecimalChunkText | mainwindow.cpp:191-192 | unpadded decimal digits of the chunk's value (no leading zero except for 0) |
| OutputCodec.RenderCompactBinary | mainwindow.cpp:193-198 | compact binary output is row 0 verbatim, whatever the chunk width |
| OutputCodec.RenderSpacedBinary | mainwindow.cpp:193-198 | spaced binary output with the spaces removed is row 0 |
| OutputCodec.RenderCompactHex | mainwindow.cpp:184-198 | compact hexadecimal output of hexadecimal input (all digits) is the input in upper case, whatever the chunk width |
| FieldLayout.PartitionCovers | mainwindow.cpp:132-148 | under the span layout every column lies in exactly one field |
| FieldLayout.FieldTextUnit | mainwindow.cpp:145-147 | a one-bit field shows its bit |
| FieldLayout.FieldTextHex | mainwindow.cpp:134-142 | a field of 2..64 bits shows "0x" and exactly ceil(span/4) upper-case hexadecimal digits that read back as its bits |
| FieldLayout.RecomputeStep | mainwindow.cpp:132-148 | one pass at a field start brings the whole field up to date and lands on the next field start |
| FieldLayout.RecomputedUnits | mainwindow.cpp:116-118 | with one-bit fields the recomputed row 1 is the bits themselves, so a rebuilt table is up to date |
| FieldLayout.RecomputedIdempotent | mainwindow.cpp:128-149 | recomputing row 1 twice is recomputing it once |
| FieldLayout.Flip | mainwindow.cpp:203-207 | the toggled cell becomes '1' from '0' and '0' from anything else; no other cell changes |
| FieldLayout.FlipTwice | mainwindow.cpp:203-207 | toggling keeps row 0 binary and toggling twice restores it |
| FieldLayout.Dedup | mainwindow.cpp:218-224 | no repeats, only listed columns, every listed column present |
| FieldLayout.DedupOrder | mainwindow.cpp:219-223 | the columns keep the order of their first listing: an earlier entry was first listed before a later one |
| FieldLayout.DedupLast | mainwindow.cpp:219-223 | the last entry, which `last()` reads at lines 236 and 249, is the column whose first listing comes latest |
| FieldLayout.DedupFirst | mainwindow.cpp:220-223 | the first selected column is the first one listed, and the result is no longer than the list |
| FieldLayout.FirstNonEmptySpec | mainwindow.cpp:237-238 | the name taken is the earliest non-empty one, and it is empty exactly when all names are |
| FieldLayout.MoveNameStep | mainwindow.cpp:236-242 | one pass of the name loop extends the moved range by one column |
| FieldLayout.MergeLabelsKeepsName | mainwindow.cpp:236-242 | the merged field keeps the earliest non-empty name of first..last, or none if all are empty |
| FieldLayout.MergeLabelsIdempotent | mainwindow.cpp:236-242 | moving the names of the same range twice changes nothing more |
| FieldLayout.MergePreservesPartition | mainwindow.cpp:248-250 | setting a span over one-bit fields keeps the spans a tiling |
| FieldLayout.UnmergePreservesPartition | mainwindow.cpp:245-247 | removing a field's span keeps the spans a tiling |
| FieldLayout.UnmergeUndoesMerge | mainwindow.cpp:245-251 | removing a span just set over one-bit fields restores them |
| FieldLayout.MergeRequestSpans | mainwindow.cpp:233-251 | the layout after a merge request is again a tiling of the same columns |
| FieldLayout.MergeRequestTwice | mainwindow.cpp:229-255 | two merge requests on the same selection of one-bit fields give back one-bit fields (a toggle, not idempotence) |
| FieldLayout.MergeUsesListOrder | mainwindow.cpp:236-249 | the range comes from the selection's first and last entries, not its minimum and maximum: selecting 3 then 1 moves no names and sets a span of 3 at column 3 |

## Left out

- Qt widgets, signals, item flags, alignment and the header resize mode are
  not modelled. The state is the text of the cells and the spans.
- The 3000 ms timeout of status messages is left out because it is clock
  behaviour; the model keeps the last message.
- The selection model's order of indexes is an input sequence of column
  numbers, because its order is decided inside Qt.
- `onSelectChange`, which shows the number of selected bits in a label, is
  left out as display plumbing.
- `eventFilter` is left out as plumbing: it only calls `onCellMergeRequest`
  when the space key is pressed.
- `mainwindow.h` holds only declarations, so it is not modelled.
- Layout save and load, and column insert and delete, are not modelled.
  They are not in `mainwindow.cpp`.
- The model assumes that exactly one button of each radio group is checked.
  An exclusive group only guarantees at most one, and the form's initial
  state is not part of this model. The model keeps one `Radix`, one
  `ChunkWidth` and a flag. The code's path for "no button checked" (empty
  chunk list, unset flag) is not modelled.
- Window.MainWindow.OnInputUpdate requires that non-empty text does not
  clean to the empty string (for example `" "` or, for hexadecimal input, `"0x"`). In that case the
  code reads an uninitialised success flag, so its behaviour is undefined.
- Window.MainWindow.OnInputUpdate overwrites `inputBits` even when the parse
  fails: line 88 (and 91, 93) assigns it before the test at line 96. The
  table, the output line and the other fields keep their old contents.
- Window.MainWindow.ConvertToBits reports the parse of the last character
  only: a rejected character before the last one does not clear the flag,
  as `OkReportsOnlyLastCharacter` shows.
- InputCodec.CleanInput removes every "0x"/"0X" the scan finds, not only a
  leading one.
- Typed text is a sequence of Unicode characters, one Dafny `char` per QChar.
  This is exact only for characters of the Basic Multilingual Plane. Qt
  counts a character outside it as two UTF-16 code units. For example, hex
  input "😀1" gives 12 bits in the code and 8 in the model.
- Window.MainWindow.RebuildTable resets every column to a one-bit field.
  That is what the code relies on `setColumnCount` and the new items to do.
  Qt's retention of old spans that still fit is not modelled.
- Window.MainWindow.OnCellMergeRequest requires `FieldLayout.MergeAllowed`:
  - The first selected column either starts a wider field, or starts a run
    of one-bit fields as wide as the new span.
  - The code does not check this. Otherwise Qt's `setSpan` would split or
    overlap other spans, and that Qt behaviour is not modelled.
  - It also excludes a span that would run past the last column. An example
    is a reversed selection near the right edge. With 8 columns and column 6
    selected before column 1, line 249 calls `setSpan(1, 6, 1, 6)`, which
    covers columns 6 to 11. `onTableFieldUpdate` then reads
    `table->item(0, j)` for j = 8 to 11 (lines 136-137). Those items do not
    exist, so the code probably dereferences a null pointer. This is an
    observation from reading the code; it was not executed.
- One span per column is kept for rows 1 and 2, which the code always sets
  together. The model reads 0 for a column inside a field. Qt reports the
  covering span's width there.
  - The recompute loop only asks at field starts, because it jumps past
    each field.
  - Line 245 asks at whatever column the selection lists first, which can
    be inside a field. `FieldLayout.MergeAllowed` excludes that case, so
    the difference never shows in the model.
- FieldLayout.FieldTextHex is stated for fields of at most 64 bits.
  - Line 140 fails only when the field's value is 2^64 or more, and then
    reads 0. That is what `ULongLong` models, so a 70-bit field whose top
    bits are '0' reads normally in the model too.
  - Nothing further is proved about the text of fields wider than 64 bits.
- Window.MainWindow.HexFieldValue pads to the integer ceiling `(span + 3) / 4`
  rather than the `float` ceiling of the code. The two agree for every span
  below 2^24.
- The initial table is empty and the output line is empty. Both come from
  `setupUi` (line 10) and the form file, which is not part of this model.
  Window.MainWindow.constructor assumes this empty start.
- Field names (row 2) change only through Qt's own cell editing, because
  `nameItem` keeps `ItemIsEditable` (lines 120-122). No operation of the
  model sets a name. The handlers take `labels` as whatever state the user
  left.
