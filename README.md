# VGA text-mode console writer, modelled in Dafny

This project models the console writer of a small freestanding x86-64 kernel
(`src/api/vga.rs`). The writer renders bytes into the 25 × 80 grid of
character cells of the VGA text buffer. It keeps a cursor (`row`, `column`)
and one fixed attribute byte (`color_entry`), and it wraps lines lazily: the
wrap happens on the first glyph written after the column has reached the
width.

- `colors.dfy`, module `Colors`: the sixteen-colour palette with its fixed codes
  0..15, and `ColorEntry::new`, which packs the background into the high nibble
  and the foreground into the low nibble. Bytes are `bv8`, so the shift-or of
  the source is modelled literally.
- `screen.dfy`, module `Screen`: the meaning of the writer as values. This is
  the cursor step of `write_byte` (`Target` for the wrap, `Advance` for the
  new cursor), the cell it writes (`Put`, `Paint`) and the fold of that step over a
  byte string (`CursorAfter`, `PaintAll`). The datatype `Char` is the
  two-byte cell of src/api/vga.rs:54-59, holding the character byte and the
  attribute byte. `Fits` says that every write of a
  string stays inside the buffer. `Sanitize` is the byte substitution of
  `write_string`. The lemmas about these functions are here too.
- `writer.dfy`, module `Vga`: the class `Writer`. It holds `row`, `column`,
  `colorEntry` and the grid as an `array2<Char>` that `WriteByte` updates in
  place. The source never assigns `color_entry` after construction, so
  `colorEntry` is a `const`, and no method can change it. A ghost field
  `cells` mirrors the array as a value, and `Valid()` ties the two together.
  `Newline`, `WriteByte`, `WriteString` and `WriteStr` are proved against the
  `Screen` functions.

The grid never scrolls. In the source, `self.buffer.chars[row][column]` is a
bounds-checked Rust index, so a glyph written on a row at or past 25 panics.
The model states this as a precondition. `WriteByte` requires
`InBounds(Pos(), b)`: a byte other than a line feed must land on a row below
`HEIGHT` after any wrap. `WriteString` requires `Fits(Pos(), Sanitized(s))`,
which says the same of every byte of the string. A line feed is always
allowed, and `row` may go past the last row as long as nothing is written
there afterwards.

## Model

| member | source | states |
|---|---|---|
| `Colors.Code` | src/api/vga.rs:16-33 | every colour has a 4-bit hardware code (below 16) |
| `Colors.FromCode` | src/api/vga.rs:16-33 | every code 0..15 names a colour, and that colour's code is the given code |
| `Colors.FromCodeOfCode` | src/api/vga.rs:16-33 | decoding a colour's code gives back the colour, so the colour-to-code table is one-to-one |
| `Colors.ColorEntry.New` | src/api/vga.rs:46-51 | the packed byte's low nibble is the foreground's code and its high nibble the background's; as a number it equals 16·background + foreground, so the shift loses no bits and the value is below 256 |
| `Colors.UnpackNew` | src/api/vga.rs:49-51 | unpacking the two nibbles of `ColorEntry::new(fg, bg)` returns `fg` and `bg` |
| `Colors.NewUnpack` | src/api/vga.rs:46-51 | every attribute byte is the packing of the colours its nibbles decode to (the other direction of the round trip) |
| `Colors.NewInjective` | src/api/vga.rs:49-51 | different (foreground, background) pairs pack to different bytes |
| `Screen.Sanitize` | src/api/vga.rs:95-98 | the byte passed on is the input byte or 0xFE; it is always printable, a line feed or 0xFE; printable bytes are kept; it is a line feed exactly when the input is |
| `Screen.Sanitized` | src/api/vga.rs:94-98 | the string `write_string` hands to `write_byte` has one byte per input byte, and each is the `Sanitize` of the input byte at the same position |
| `Screen.NextLine` | src/api/vga.rs:102-105 | `newline` moves to the next row and column 0 |
| `Screen.Target` | src/api/vga.rs:78-83 | the cell a non-newline byte goes to is on the current row when the column is below the width, and at the start of the next row when the column has reached it; its column is always below the width |
| `Screen.Advance` | src/api/vga.rs:74-91 | after one `write_byte` the column is at most the width and the row has grown by at most one; a line feed gives (row + 1, 0); any other byte leaves the cursor just right of the cell it wrote |
| `Screen.InBounds` | src/api/vga.rs:10-11 | `write_byte(b)` indexes inside the 25 × 80 buffer exactly when `b` is a line feed or the cell it writes after any wrap (vga.rs:78-84) has row < 25 and column < 80; a cursor on any row but the last can always write; on the last row it can write unless the column has reached 80 (the wrap would leave the buffer); a cursor past the last row (row ≥ 25) can only take a line feed |
| `Screen.Fits` | src/api/vga.rs:84 | a string stays inside the buffer whenever its length is smaller than the number of rows left below the cursor; by its definition, every byte's `write_byte` satisfies `InBounds` at the cursor the earlier bytes leave |
| `Screen.CursorAfter` | src/api/vga.rs:93-100 | over a whole string, a column at most the width stays so, and the row grows by at most one per byte and never decreases |
| `Screen.Put` | src/api/vga.rs:84-87 | writing a cell changes exactly that cell of the grid |
| `Screen.Paint` | src/api/vga.rs:76-88 | the grid after one `write_byte`: a line feed leaves it unchanged; any other byte puts `Char{b, color_entry}` in the cell `Target` picks, and every other cell is kept |
| `Screen.PaintAll` | src/api/vga.rs:93-100 | the grid after `write_byte` of every byte in order; its own contract states only that the result is a 25 × 80 grid, and its meaning comes from its body (a fold of `Paint`) and from the lemmas `PaintAllAppend`, `PaintAllCell`, `StraightRun` and `SanitizedRun` |
| `Screen.CursorAfterAppend` | src/api/vga.rs:93-100 | writing `s` and then `t` moves the cursor exactly as writing `s + t` does |
| `Screen.FitsAppend` | src/api/vga.rs:84 | `s + t` stays inside the buffer exactly when `s` does and `t` does from the cursor `s` leaves |
| `Screen.PaintAllAppend` | src/api/vga.rs:93-100 | writing `s` and then `t` leaves the grid exactly as writing `s + t` does: one step per byte, in input order |
| `Screen.PaintAllCell` | src/api/vga.rs:81-87 | a cell changed by a run of `write_byte` calls holds one of the run's bytes other than a line feed, with the writer's attribute |
| `Screen.WrittenCellsRenderable` | src/api/vga.rs:94-98 | every cell `write_string` changes holds a printable byte or 0xFE, with the writer's attribute (so all written cells share one attribute byte) |
| `Screen.StraightRun` | src/api/vga.rs:78-88 | bytes without a line feed that fit in the rest of the row are written side by side from the cursor, nothing else changes, the row stays and the column grows by their number |
| `Screen.PrintableRun` | src/api/vga.rs:93-100 | `write_string` of n printable bytes with `column + n <= WIDTH` advances the column by n, keeps the row, fills cells `column..column+n-1` of the row with them and leaves all other cells alone |
| `Screen.SanitizedRun` | src/api/vga.rs:94-98 | `write_string` of line-feed-free bytes that fit on the row puts each printable byte at its own position and 0xFE at the position of each byte that is not printable, and advances the column by their number |
| `Screen.SanitizedCursor` | src/api/vga.rs:94-98 | substituting 0xFE never changes where the cursor goes or whether the string stays inside the buffer: the sanitized string moves the cursor exactly as the raw one would, and fits exactly when it does |
| `Screen.PlaceholderInPlace` | src/api/vga.rs:94-98 | anywhere in a string, across line feeds and wraps, a byte that is neither printable nor a line feed is written as `Char{0xFE, color_entry}` in the cell the byte itself would have occupied |
| `Screen.LineWrap` | src/api/vga.rs:78-88 | from column 0, a full row of 80 bytes fills the row, and byte 81 goes to column 0 of the next row, leaving the cursor at (row + 1, 1) |
| `Screen.PrintlnHi` | src/api/vga.rs:127-131 | from (0, 0), writing "hi" and the line feed that `println!` appends puts `h` and `i` at row 0, columns 0 and 1, and leaves the cursor at (1, 0) |
| `Vga.Writer.constructor` | src/api/vga.rs:36-41 | the writer starts at (0, 0), white on black, over the given buffer |
| `Vga.Writer.Newline` | src/api/vga.rs:102-105 | the new cursor is `NextLine` of the old: the row grows by one and the column becomes 0; no cell changes |
| `Vga.Writer.WriteByte` | src/api/vga.rs:74-91 | the new cursor and grid are `Advance`/`Paint` of the old; a line feed writes no cell and gives (row + 1, 0); another byte with column < 80 writes `Char{b, color_entry}` at (row, column) and moves to column + 1 on the same row; with column >= 80 it writes at (row + 1, 0) and ends at (row + 1, 1); every other cell and `column <= WIDTH` are kept |
| `Vga.Writer.WriteString` | src/api/vga.rs:93-100 | the new cursor and grid are `CursorAfter`/`PaintAll` of the sanitized bytes (one `write_byte` per input byte, in order); every changed cell holds a printable byte or 0xFE with the writer's attribute; `column <= WIDTH` is kept |
| `Vga.Writer.WriteStr` | src/api/vga.rs:108-113 | does what `WriteString` does and always returns `Ok` |

## Left out

- The `lazy_static!` global `WRITER` and its `spin::Mutex` (src/api/vga.rs:35-42) are left out. They are lazy initialisation and locking, so concurrent callers and lock serialisation are not modelled. The constructor models only the initial values they set.
- `interrupts::without_interrupts` in `_print` is left out. It is hardware interrupt control.
- `_print`, `write_fmt`, `fmt::Arguments` and the `print!`/`println!` macros are left out. They are `core::fmt` machinery that cannot be seen here. `Screen.PrintlnHi` states only the effect of the line feed that `println!` appends.
- The raw pointer to physical address 0xb8000 and the `Volatile` wrapper are left out. The buffer is an ordinary `array2<Char>` passed to the constructor, and each cell write is a plain array assignment. The ordering of volatile writes for the display hardware is not modelled.
- The `#[repr(C)]`/`#[repr(transparent)]` layout guarantees are left out. These are byte-layout facts about the hardware interface.
- `Vga.Writer.Newline`: `row` is a `nat`. A `usize` overflow of `self.row += 1` would need 2^64 line feeds, so it is not modelled.
- `Vga.Writer.WriteString`: the input is any byte sequence. The UTF-8 validity that a Rust `&str` guarantees is not required or used.
- A glyph written on a row at or past `HEIGHT` panics in the source. The model excludes that case by precondition (`InBounds`, `Fits`) instead of modelling the panic.
