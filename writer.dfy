/**
  The VGA text-mode console writer: a cursor, a fixed attribute byte and the
  25 x 80 grid of character cells it writes in place. Each method is proved
  against the functions of module Screen; the ghost field `cells` mirrors the
  buffer as a value so that the two can be compared.
 */
module Vga {
  import opened Colors
  import opened Screen

  /** The outcome of `fmt::Write::write_str`. */
  datatype FmtResult = Ok | Error

  class Writer {
    var row: nat
    var column: nat
    const colorEntry: ColorEntry
    const buffer: array2<Char>

    /** The contents of `buffer`, as a value. */
    ghost var cells: Grid

    ghost predicate Valid()
      reads this, buffer
    {
      && buffer.Length0 == HEIGHT && buffer.Length1 == WIDTH
      && column <= WIDTH
      && IsGrid(cells)
      && forall i, j :: 0 <= i < HEIGHT && 0 <= j < WIDTH ==> buffer[i, j] == cells[i][j]
    }

    /** The cursor. */
    function Pos(): Cursor
      reads this
    {
      Cursor(row, column)
    }

    /** The writer as the program creates it: cursor at the top-left corner,
        white on black, over the given display buffer (left as it was). */
    constructor (screen: array2<Char>)
      requires screen.Length0 == HEIGHT && screen.Length1 == WIDTH
      ensures Valid()
      ensures buffer == screen && row == 0 && column == 0
      ensures colorEntry == ColorEntry.New(White, Black)
    {
      row, column := 0, 0;
      colorEntry := ColorEntry.New(White, Black);
      buffer := screen;
      cells := seq(HEIGHT, i requires 0 <= i < HEIGHT reads screen =>
                 seq(WIDTH, j requires 0 <= j < WIDTH reads screen => screen[i, j]));
    }

    /** Moves the cursor to the start of the next line; writes no cell. */
    method Newline()
      requires Valid()
      modifies this
      ensures Valid()
      ensures Pos() == NextLine(old(Pos()))
      ensures row == old(row) + 1 && column == 0
      ensures cells == old(cells)
    {
      row := row + 1;
      column := 0;
    }

    /** Writes one byte: a line feed moves to the next line; any other byte
        wraps first when the column has reached the width, then fills the cell
        under the cursor and moves the cursor one column right. */
    method WriteByte(b: bv8)
      requires Valid() && InBounds(Pos(), b)
      modifies this, buffer
      ensures Valid()
      ensures Pos() == Advance(old(Pos()), b)
      ensures cells == Paint(old(cells), old(Pos()), b, colorEntry)
      ensures b == LF ==> row == old(row) + 1 && column == 0 && unchanged(buffer)
      ensures b != LF && old(column) < WIDTH ==>
                row == old(row) && column == old(column) + 1 && buffer[row, column - 1] == Char(b, colorEntry)
      ensures b != LF && old(column) >= WIDTH ==>
                row == old(row) + 1 && column == 1 && buffer[row, 0] == Char(b, colorEntry)
      ensures b != LF ==> forall i, j :: 0 <= i < HEIGHT && 0 <= j < WIDTH && (i != row || j != column - 1) ==>
                buffer[i, j] == old(buffer[i, j])
    {
      if b == LF {
        Newline();
      } else {
        if column >= WIDTH {
          Newline();
        }
        var r, c := row, column;
        buffer[r, c] := Char(b, colorEntry);
        cells := Put(cells, Cursor(r, c), Char(b, colorEntry));
        column := column + 1;
      }
    }

    /** Writes every byte of `s` in order, replacing each byte that is neither
        printable ASCII nor a line feed by the placeholder glyph. */
    method WriteString(s: seq<bv8>)
      requires Valid() && Fits(Pos(), Sanitized(s))
      modifies this, buffer
      ensures Valid()
      ensures Pos() == CursorAfter(old(Pos()), Sanitized(s))
      ensures cells == PaintAll(old(cells), old(Pos()), Sanitized(s), colorEntry)
      ensures forall i, j :: 0 <= i < HEIGHT && 0 <= j < WIDTH ==>
                buffer[i, j] == old(buffer[i, j]) ||
                (buffer[i, j].colorEntry == colorEntry &&
                 (Printable(buffer[i, j].ascii) || buffer[i, j].ascii == PLACEHOLDER))
    {
      ghost var c0, g0, t := Pos(), cells, Sanitized(s);
      for k := 0 to |s|
        invariant Valid()
        invariant Fits(c0, t[..k])
        invariant Pos() == CursorAfter(c0, t[..k])
        invariant cells == PaintAll(g0, c0, t[..k], colorEntry)
      {
        FitsPrefix(c0, t, k + 1);
        assert t[..k + 1][..k] == t[..k];
        var b := s[k];
        if 0x20 <= b <= 0x7e || b == LF {
          WriteByte(b);
        } else {
          WriteByte(PLACEHOLDER);
        }
      }
      assert t[..|s|] == t;
      forall i, j | 0 <= i < HEIGHT && 0 <= j < WIDTH
        ensures buffer[i, j] == old(buffer[i, j]) ||
                (buffer[i, j].colorEntry == colorEntry &&
                 (Printable(buffer[i, j].ascii) || buffer[i, j].ascii == PLACEHOLDER))
      {
        WrittenCellsRenderable(g0, c0, s, colorEntry, i, j);
      }
    }

    /** `fmt::Write::write_str`: writes the string and never fails. */
    method WriteStr(s: seq<bv8>) returns (r: FmtResult)
      requires Valid() && Fits(Pos(), Sanitized(s))
      modifies this, buffer
      ensures r == Ok
      ensures Valid()
      ensures Pos() == CursorAfter(old(Pos()), Sanitized(s))
      ensures cells == PaintAll(old(cells), old(Pos()), Sanitized(s), colorEntry)
    {
      WriteString(s);
      r := Ok;
    }
  }
}
