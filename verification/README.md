# Dual text console of the clock homebrew, in Dafny

The clock prints the date and time through a small text console
(`source/console.c`). The console keeps two fixed-geometry character grids:
one for the TV (27 rows by 80 columns) and one for the DRC, the gamepad
screen (18 by 80). Each grid has a linear cursor `offset`. Every character
printed goes to both grids, each with its own geometry:

- a character first triggers a scroll when the cursor has reached the end;
- newline moves the cursor to the next row start;
- tab moves it to the next multiple of 4 of the absolute offset;
- backspace steps back and blanks that cell;
- anything else is stored and the cursor advances.

Drawing is gated by a foreground flag, which the host's acquire and release
callbacks set and clear. While the flag is set, a refresh hands each grid to
the display row by row. While it is clear, a refresh does nothing.

The project has two modules:

- `text_grid.dfy`, module `TextGrid`, is the specification on values. A grid
  is `Grid(cells, offset)` with a `Geometry(rows, cols)`. It defines
  `ScrollCheck`/`Scroll`, `Put` (the character switch), `Step` (one
  character), `WriteText` (a string), `Rows` (what the display gets) and
  `CString` (the characters the print loop visits). The lemmas about them
  live here too.
- `console.dfy`, module `TextConsole`, is the imperative model.
  - Class `Console` is `console_t`: constants `rows`/`cols`, an `array<char>`
    buffer and a mutable `offset`. Its methods are proved against `Step`,
    `Scroll`, `Put` and `Rows`.
  - Class `Consoles` is the file-level state: the two consoles (`cons`) and
    the flag `in_foreground`. Its methods are the functions of
    `console.c`, including the file-local `console_refresh` and
    `console_write_char`.
  - Each method that draws returns the frames handed to the display (one
    `Frame`, a sequence of rows, per console) instead of calling the
    hardware.

`console_clear` blanks both buffers but does not reset the cursor
(console.c:119-124), so the model's `Clear` keeps both offsets unchanged.

## Model

| member | source | states |
|---|---|---|
| `TextGrid.ScrollCheck` | source/console.c:103-108 | the result keeps the grid invariant with the cursor strictly inside the grid, and it differs from the input exactly when `offset >= rows*cols` (scroll happens exactly then) |
| `TextGrid.Scroll` | source/console.c:104-107 | every cell k below `rows*cols - cols` takes the value of cell `k + cols`, the last `cols` cells are spaces, and the cursor drops by `cols` |
| `TextGrid.ScrollShiftsRows` | source/console.c:103-108 | when the cursor is at the end, the rows after the scroll check are the old rows 1..rows-1 followed by one row of spaces, and the offset dropped by `cols` |
| `TextGrid.NextMultipleFacts` | source/console.c:111-112 | `o + k - o % k` is the least multiple of k strictly greater than o, and at most `o + k` |
| `TextGrid.Put` | source/console.c:110-115 | newline sets the cursor to the least multiple of `cols` above it and tab to the least multiple of 4 above it, neither touching a cell; backspace decrements the cursor and blanks only the cell now under it; any other character is stored at the cursor and the cursor advances by 1, every other cell unchanged; `0 <= offset <= rows*cols` holds after every case |
| `TextGrid.Step` | source/console.c:101-115 | one character on one grid keeps `0 <= offset <= rows*cols` and the grid size, given a geometry whose size is a multiple of 4 and a backspace that does not meet offset 0 |
| `TextGrid.WriteText` | source/console.c:136-137 | writing a whole string keeps the grid invariant |
| `TextGrid.WriteTextSplit` | source/console.c:136-137 | writing `a + b` is allowed iff writing `a` and then `b` is, and gives the same grid as writing `a` then `b` |
| `TextGrid.WriteTextNext` | source/console.c:136-137 | the grid after the first i+1 characters is one `Step` from the grid after the first i, and that step's backspace precondition holds |
| `TextGrid.CanWriteWithoutBackspace` | source/console.c:113 | only backspace has a precondition: any text without a backspace can be written from any valid grid |
| `TextGrid.WritePlainWithinGrid` | source/console.c:114 | plain characters that fit before the end are stored in order from the cursor, with no scroll, and the cursor advances by their number |
| `TextGrid.ScrollExample` | source/console.c:98-116 | on a blank 3x4 grid, "AAAABBBBCCCCX" ends as "BBBB", "CCCC", "X   " with the cursor at 9: one scroll, the first row discarded |
| `TextGrid.Rows` | source/console.c:53-54 | there are `rows` rows, and row i is exactly `cells[cols*i .. cols*i + cols)` |
| `TextGrid.FlattenRows` | source/console.c:53-56 | the rows, concatenated in order, are the whole grid |
| `TextGrid.CString` | source/console.c:136 | the visited characters are a prefix of the formatted text without NUL, ending at the first NUL or at the end |
| `TextConsole.Console.constructor` | source/console.c:147-148 | allocates a fresh `rows*cols` buffer with the given geometry and the cursor at 0 |
| `TextConsole.Console.ScrollUp` | source/console.c:103-108 | the buffer and offset after the in-place overlapping move, blanking and cursor adjustment equal `Scroll` of the old grid |
| `TextConsole.Console.PutChar` | source/console.c:110-115 | the buffer and offset after the switch equal `Put` of the old grid, with every array index in bounds |
| `TextConsole.Console.WriteChar` | source/console.c:101-115 | the buffer and offset after one character equal `Step` of the old grid, and the console stays valid |
| `TextConsole.Console.Fill` | source/console.c:122-123 | every cell becomes a space; the cursor is not touched |
| `TextConsole.Console.Draw` | source/console.c:51-57 | returns the rows of the buffer, top to bottom, each the `cols` characters of that row |
| `TextConsole.Consoles.constructor` | source/console.c:34-40 | two distinct consoles, TV 27x80 then DRC 18x80, cursors at 0, not in foreground; each console's buffer is freshly allocated with `rows*cols` cells, as the two `malloc` calls of console.c:147-148 do |
| `TextConsole.Consoles.Refresh` | source/console.c:42-62 | returns nothing when not in foreground; otherwise one frame per console, in order, each the console's rows |
| `TextConsole.Consoles.AcquireForeground` | source/console.c:64-85 | returns 0 and leaves the flag set; when already in foreground it draws nothing, otherwise it draws exactly one refresh |
| `TextConsole.Consoles.ReleaseForeground` | source/console.c:87-96 | returns 0 and leaves the flag clear, in both cases without drawing |
| `TextConsole.Consoles.WriteChar` | source/console.c:98-117 | every console's new grid is `Step` of its old grid with its own geometry |
| `TextConsole.Consoles.Clear` | source/console.c:119-127 | every console's cells become spaces with its offset unchanged; exactly one refresh is drawn |
| `TextConsole.Consoles.Printf` | source/console.c:129-143 | on successful formatting each console's grid becomes `WriteText` of its old grid over the characters before the first NUL; on failure nothing changes; exactly one refresh is drawn either way |
| `TextConsole.Consoles.Init` | source/console.c:145-157 | fresh consoles, TV 27x80 then DRC 18x80, with blank grids, cursors at 0, in foreground, and the frames drawn are those of one refresh of that state |
| `TextConsole.Consoles.Deinit` | source/console.c:159-167 | leaves the foreground flag clear |

## Left out

- The hardware calls are not modelled: OSScreenInit, OSScreenGetBufferSizeEx, OSScreenSetBufferEx, OSScreenEnableEx, OSScreenClearBufferEx, OSScreenPutFontEx, DCFlushRange and OSScreenFlipBuffersEx. A refresh returns the rows it would hand to OSScreenPutFontEx. The NUL terminator added to each row copy is implicit.
- Memory management is not modelled: the frame-heap record, allocate and free-by-state calls, the `malloc`/`free` of the row copy, and the freeing of the buffers in `console_deinit`. So the model has no screen buffers and no allocation failure.
- The `screen` identifier of each console is not modelled. Consoles are identified by their position in `cons`.
- ProcUI callback registration and clearing (console.c:153-156, 161) are not modelled. The callbacks are the methods `AcquireForeground` and `ReleaseForeground`, which a caller may invoke between any two operations.
- `vasprintf` is not modelled. `Printf` takes the already formatted text, or `None` when formatting failed. The text is the formatted bytes, one `char` per byte (the source stores one C `char` byte per cell), so a multi-byte character occupies as many cells as it has bytes.
- TextConsole.Console.ScrollUp: the source moves the rows with `memcpy` on overlapping regions, which C leaves undefined. The model gives it the intended `memmove` meaning.
- `TextConsole.Console.ScrollUp` computes the shift as `rows * cols - cols`, which equals the source's `(rows - 1) * cols`.
- TextGrid.Step: backspace at offset 0 (after the scroll check) writes index -1 in the source. The model makes that a precondition (`NoUnderflow`, `CanWrite`) and does not clamp.
- TextGrid.Step: the source's `int` arithmetic is modelled with unbounded integers. All offsets stay within `[0, 2160]`, so no overflow can occur.
- `source/main.c` (time retrieval, the sleep, the run loop) is not part of this model. `source/console.h` holds only declarations.
