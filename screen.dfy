/**
  The value-level meaning of the VGA text writer: where the cursor goes and
  which cell of the 25 x 80 grid is written for each byte handed to
  `write_byte`, and the fold of that step over a whole byte string. The
  imperative `Writer` class in module Vga is proved against these functions.
 */
module Screen {
  import opened Colors

  const HEIGHT: nat := 25
  const WIDTH: nat := 80

  /** The line-feed byte, `b'\n'`. */
  const LF: bv8 := 0x0A
  /** The glyph `write_string` puts in place of a byte it cannot render. */
  const PLACEHOLDER: bv8 := 0xFE

  /** One character cell: the character byte and its attribute byte. */
  datatype Char = Char(ascii: bv8, colorEntry: ColorEntry)

  /** The position where the next glyph goes (both coordinates zero-based). */
  datatype Cursor = Cursor(row: nat, column: nat)

  /** The contents of the display buffer, row by row. */
  type Grid = seq<seq<Char>>

  ghost predicate IsGrid(g: Grid)
  {
    |g| == HEIGHT && forall i :: 0 <= i < |g| ==> |g[i]| == WIDTH
  }

  /** Bytes in the printable ASCII range 0x20..=0x7e. */
  predicate Printable(b: bv8)
  {
    0x20 <= b <= 0x7e
  }

  /** The byte `write_string` passes on to `write_byte` for an input byte. */
  function Sanitize(b: bv8): (r: bv8)
    ensures r == b || r == PLACEHOLDER
    ensures Printable(r) || r == LF || r == PLACEHOLDER
    ensures Printable(b) ==> r == b
    ensures (r == LF) == (b == LF)
  {
    if Printable(b) || b == LF then b else PLACEHOLDER
  }

  /** The bytes `write_string` passes on, one per input byte, in input order. */
  function Sanitized(s: seq<bv8>): (t: seq<bv8>)
    ensures |t| == |s|
    ensures forall k :: 0 <= k < |s| ==> t[k] == Sanitize(s[k])
  {
    seq(|s|, k requires 0 <= k < |s| => Sanitize(s[k]))
  }

  /** The cursor after `newline`. */
  function NextLine(c: Cursor): (d: Cursor)
    ensures d.row == c.row + 1 && d.column == 0
  {
    Cursor(c.row + 1, 0)
  }

  /** Where `write_byte` writes a byte other than a line feed: it first wraps
      to the next line when the column has reached the width. */
  function Target(c: Cursor): (p: Cursor)
    ensures p.column < WIDTH
    ensures c.column < WIDTH ==> p == c
    ensures c.column >= WIDTH ==> p == Cursor(c.row + 1, 0)
  {
    if c.column >= WIDTH then NextLine(c) else c
  }

  /** Whether `write_byte(b)` at cursor `c` indexes inside the buffer. The
      grid never scrolls, so a write on a row at or past HEIGHT would fail
      Rust's bounds check. */
  predicate InBounds(c: Cursor, b: bv8): (ok: bool)
    ensures ok <==> b == LF || (Target(c).row < HEIGHT && Target(c).column < WIDTH)
    ensures c.row + 1 < HEIGHT ==> ok
    ensures c.row + 1 == HEIGHT ==> (ok <==> b == LF || c.column < WIDTH)
    ensures c.row >= HEIGHT ==> (ok <==> b == LF)
  {
    b == LF || Target(c).row < HEIGHT
  }

  /** The cursor after `write_byte(b)` at cursor `c`. */
  function Advance(c: Cursor, b: bv8): (d: Cursor)
    ensures d.column <= WIDTH
    ensures c.row <= d.row <= c.row + 1
    ensures b == LF ==> d == Cursor(c.row + 1, 0)
    ensures b != LF ==> 1 <= d.column && Target(c) == Cursor(d.row, d.column - 1)
  {
    if b == LF then NextLine(c)
    else Cursor(Target(c).row, Target(c).column + 1)
  }

  /** The cursor after `write_byte` of every byte of `s`, in order. */
  function CursorAfter(c: Cursor, s: seq<bv8>): (d: Cursor)
    ensures c.column <= WIDTH ==> d.column <= WIDTH
    ensures c.row <= d.row <= c.row + |s|
    decreases |s|
  {
    if s == [] then c
    else Advance(CursorAfter(c, s[..|s| - 1]), s[|s| - 1])
  }

  /** Whether every `write_byte` of the bytes of `s`, starting at `c`, stays
      inside the buffer. */
  predicate Fits(c: Cursor, s: seq<bv8>): (ok: bool)
    ensures c.row + |s| < HEIGHT ==> ok
    decreases |s|
  {
    s == [] ||
    (Fits(c, s[..|s| - 1]) && InBounds(CursorAfter(c, s[..|s| - 1]), s[|s| - 1]))
  }

  /** The grid with exactly the cell at `p` replaced by `ch`. */
  function Put(g: Grid, p: Cursor, ch: Char): (h: Grid)
    requires IsGrid(g) && p.row < HEIGHT && p.column < WIDTH
    ensures IsGrid(h)
    ensures h[p.row][p.column] == ch
    ensures forall i, j :: 0 <= i < HEIGHT && 0 <= j < WIDTH && (i != p.row || j != p.column) ==>
              h[i][j] == g[i][j]
  {
    g[p.row := g[p.row][p.column := ch]]
  }

  /** The grid after `write_byte(b)` at cursor `c` with attribute `e`: a line
      feed writes nothing, any other byte writes one cell. */
  function Paint(g: Grid, c: Cursor, b: bv8, e: ColorEntry): (h: Grid)
    requires IsGrid(g) && InBounds(c, b)
    ensures IsGrid(h)
    ensures b == LF ==> h == g
    ensures b != LF ==> h[Target(c).row][Target(c).column] == Char(b, e)
    ensures forall i, j :: 0 <= i < HEIGHT && 0 <= j < WIDTH && (b == LF || i != Target(c).row || j != Target(c).column) ==>
              h[i][j] == g[i][j]
  {
    if b == LF then g else Put(g, Target(c), Char(b, e))
  }

  /** The grid after `write_byte` of every byte of `s`, in order. */
  function PaintAll(g: Grid, c: Cursor, s: seq<bv8>, e: ColorEntry): (h: Grid)
    requires IsGrid(g) && Fits(c, s)
    ensures IsGrid(h)
    decreases |s|
  {
    if s == [] then g
    else Paint(PaintAll(g, c, s[..|s| - 1], e), CursorAfter(c, s[..|s| - 1]), s[|s| - 1], e)
  }

  // ----- Lemmas -----

  /** Every prefix of a string that fits fits too. */
  lemma {:induction false} FitsPrefix(c: Cursor, s: seq<bv8>, k: nat)
    requires Fits(c, s) && k <= |s|
    ensures Fits(c, s[..k])
    decreases |s|
  {
    if k == |s| {
      assert s[..k] == s;
    } else {
      assert s[..|s| - 1][..k] == s[..k];
      FitsPrefix(c, s[..|s| - 1], k);
    }
  }

  /** Writing `s` then `t` moves the cursor as writing `s + t` does. */
  lemma {:induction false} CursorAfterAppend(c: Cursor, s: seq<bv8>, t: seq<bv8>)
    ensures CursorAfter(c, s + t) == CursorAfter(CursorAfter(c, s), t)
    decreases |t|
  {
    if t == [] {
      assert s + t == s;
    } else {
      assert (s + t)[..|s + t| - 1] == s + t[..|t| - 1];
      CursorAfterAppend(c, s, t[..|t| - 1]);
    }
  }

  /** `s + t` fits exactly when `s` fits and `t` fits from where `s` left the cursor. */
  lemma {:induction false} FitsAppend(c: Cursor, s: seq<bv8>, t: seq<bv8>)
    ensures Fits(c, s + t) <==> Fits(c, s) && Fits(CursorAfter(c, s), t)
    decreases |t|
  {
    if t == [] {
      assert s + t == s;
    } else {
      assert (s + t)[..|s + t| - 1] == s + t[..|t| - 1];
      FitsAppend(c, s, t[..|t| - 1]);
      CursorAfterAppend(c, s, t[..|t| - 1]);
    }
  }

  /** Writing `s` then `t` paints the grid as writing `s + t` does: the bytes
      are applied one at a time, in order. */
  lemma {:induction false} PaintAllAppend(g: Grid, c: Cursor, s: seq<bv8>, t: seq<bv8>, e: ColorEntry)
    requires IsGrid(g) && Fits(c, s + t)
    ensures Fits(c, s) && Fits(CursorAfter(c, s), t)
    ensures PaintAll(g, c, s + t, e) == PaintAll(PaintAll(g, c, s, e), CursorAfter(c, s), t, e)
    decreases |t|
  {
    FitsAppend(c, s, t);
    if t == [] {
      assert s + t == s;
    } else {
      var t' := t[..|t| - 1];
      assert (s + t)[..|s + t| - 1] == s + t';
      PaintAllAppend(g, c, s, t', e);
      CursorAfterAppend(c, s, t');
    }
  }

  /** A cell changed by writing `s` holds one of the non-line-feed bytes of
      `s`, with attribute `e`. */
  lemma {:induction false} PaintAllCell(g: Grid, c: Cursor, s: seq<bv8>, e: ColorEntry, i: nat, j: nat)
    requires IsGrid(g) && Fits(c, s) && i < HEIGHT && j < WIDTH
    ensures var h := PaintAll(g, c, s, e);
      h[i][j] == g[i][j] || (h[i][j].colorEntry == e && h[i][j].ascii in s && h[i][j].ascii != LF)
    decreases |s|
  {
    if s != [] {
      var s' := s[..|s| - 1];
      PaintAllCell(g, c, s', e, i, j);
      var h' := PaintAll(g, c, s', e);
      if h'[i][j] != g[i][j] {
        assert h'[i][j].ascii in s';
        assert forall x :: x in s' ==> x in s;
      }
      assert s[|s| - 1] in s;
    }
  }

  /** Every cell `write_string(s)` changes holds a printable byte or the
      placeholder glyph, with the writer's attribute `e`. */
  lemma WrittenCellsRenderable(g: Grid, c: Cursor, s: seq<bv8>, e: ColorEntry, i: nat, j: nat)
    requires IsGrid(g) && Fits(c, Sanitized(s)) && i < HEIGHT && j < WIDTH
    ensures var h := PaintAll(g, c, Sanitized(s), e);
      h[i][j] == g[i][j] ||
      (h[i][j].colorEntry == e && (Printable(h[i][j].ascii) || h[i][j].ascii == PLACEHOLDER))
  {
    PaintAllCell(g, c, Sanitized(s), e, i, j);
  }

  /** Bytes without a line feed that fit on the rest of the current row are
      written side by side from the cursor, and the cursor moves past them. */
  lemma {:induction false} StraightRun(g: Grid, c: Cursor, s: seq<bv8>, e: ColorEntry)
    requires IsGrid(g) && c.row < HEIGHT && c.column + |s| <= WIDTH
    requires forall k :: 0 <= k < |s| ==> s[k] != LF
    ensures Fits(c, s)
    ensures CursorAfter(c, s) == Cursor(c.row, c.column + |s|)
    ensures forall k :: 0 <= k < |s| ==> PaintAll(g, c, s, e)[c.row][c.column + k] == Char(s[k], e)
    ensures forall i, j :: 0 <= i < HEIGHT && 0 <= j < WIDTH && (i != c.row || j < c.column || c.column + |s| <= j) ==>
              PaintAll(g, c, s, e)[i][j] == g[i][j]
    decreases |s|
  {
    if s != [] {
      var s' := s[..|s| - 1];
      StraightRun(g, c, s', e);
      var h' := PaintAll(g, c, s', e);
      var p := Cursor(c.row, c.column + |s'|);
      assert Target(p) == p;
      assert PaintAll(g, c, s, e) == Put(h', p, Char(s[|s| - 1], e));
    }
  }

  /** `write_string` of printable bytes that fit on the rest of the current
      row advances the column by their number, keeps the row, and fills the
      cells between the old and the new column with them. */
  lemma PrintableRun(g: Grid, c: Cursor, s: seq<bv8>, e: ColorEntry)
    requires IsGrid(g) && c.row < HEIGHT && c.column + |s| <= WIDTH
    requires forall k :: 0 <= k < |s| ==> Printable(s[k])
    ensures Fits(c, Sanitized(s))
    ensures CursorAfter(c, Sanitized(s)) == Cursor(c.row, c.column + |s|)
    ensures forall k :: 0 <= k < |s| ==>
              PaintAll(g, c, Sanitized(s), e)[c.row][c.column + k] == Char(s[k], e)
    ensures forall i, j :: 0 <= i < HEIGHT && 0 <= j < WIDTH && (i != c.row || j < c.column || c.column + |s| <= j) ==>
              PaintAll(g, c, Sanitized(s), e)[i][j] == g[i][j]
  {
    assert Sanitized(s) == s;
    StraightRun(g, c, s, e);
  }

  /** `write_string` of bytes without a line feed that fit on the rest of
      the current row puts, at each byte's position, the byte itself when it
      is printable and the placeholder glyph when it is not. */
  lemma SanitizedRun(g: Grid, c: Cursor, s: seq<bv8>, e: ColorEntry)
    requires IsGrid(g) && c.row < HEIGHT && c.column + |s| <= WIDTH
    requires forall k :: 0 <= k < |s| ==> s[k] != LF
    ensures Fits(c, Sanitized(s))
    ensures CursorAfter(c, Sanitized(s)) == Cursor(c.row, c.column + |s|)
    ensures forall k :: 0 <= k < |s| && Printable(s[k]) ==>
              PaintAll(g, c, Sanitized(s), e)[c.row][c.column + k] == Char(s[k], e)
    ensures forall k :: 0 <= k < |s| && !Printable(s[k]) ==>
              PaintAll(g, c, Sanitized(s), e)[c.row][c.column + k] == Char(PLACEHOLDER, e)
  {
    StraightRun(g, c, Sanitized(s), e);
  }

  /** Substitution never moves the cursor: `Sanitize` keeps line feeds, and
      the cursor step only asks whether a byte is a line feed. */
  lemma {:induction false} SanitizedCursor(c: Cursor, s: seq<bv8>)
    ensures CursorAfter(c, Sanitized(s)) == CursorAfter(c, s)
    ensures Fits(c, Sanitized(s)) <==> Fits(c, s)
    decreases |s|
  {
    if s != [] {
      assert Sanitized(s)[..|s| - 1] == Sanitized(s[..|s| - 1]);
      SanitizedCursor(c, s[..|s| - 1]);
    }
  }

  /** Anywhere in a string, `write_string` writes the placeholder glyph for a
      byte that is neither printable nor a line feed, in the cell that byte
      would have occupied had it been written unchanged. */
  lemma PlaceholderInPlace(g: Grid, c: Cursor, s: seq<bv8>, e: ColorEntry, k: nat)
    requires IsGrid(g) && Fits(c, Sanitized(s)) && k < |s|
    requires s[k] != LF && !Printable(s[k])
    ensures Fits(c, Sanitized(s[..k + 1]))
    ensures var p := Target(CursorAfter(c, s[..k]));
      p.row < HEIGHT && PaintAll(g, c, Sanitized(s[..k + 1]), e)[p.row][p.column] == Char(PLACEHOLDER, e)
  {
    FitsPrefix(c, Sanitized(s), k + 1);
    assert Sanitized(s)[..k + 1] == Sanitized(s[..k + 1]);
    assert Sanitized(s[..k + 1])[..k] == Sanitized(s[..k]);
    assert s[..k + 1][..k] == s[..k];
    SanitizedCursor(c, s[..k]);
  }

  /** A full row of bytes followed by one more: the last byte wraps to the
      first cell of the next row, and the cursor ends just after it. */
  lemma LineWrap(g: Grid, c: Cursor, s: seq<bv8>, e: ColorEntry)
    requires IsGrid(g) && c.column == 0 && c.row + 1 < HEIGHT && |s| == WIDTH + 1
    requires forall k :: 0 <= k < |s| ==> s[k] != LF
    ensures Fits(c, s)
    ensures CursorAfter(c, s) == Cursor(c.row + 1, 1)
    ensures PaintAll(g, c, s, e)[c.row + 1][0] == Char(s[WIDTH], e)
    ensures forall k :: 0 <= k < WIDTH ==> PaintAll(g, c, s, e)[c.row][k] == Char(s[k], e)
  {
    var line := s[..WIDTH];
    StraightRun(g, c, line, e);
    assert s[..|s| - 1] == line;
    var full := Cursor(c.row, WIDTH);
    assert CursorAfter(c, line) == full;
    assert Target(full) == Cursor(c.row + 1, 0);
    var h := PaintAll(g, c, line, e);
    assert PaintAll(g, c, s, e) == Paint(h, full, s[WIDTH], e);
    forall k | 0 <= k < WIDTH
      ensures PaintAll(g, c, s, e)[c.row][k] == Char(s[k], e)
    {
      assert h[c.row][c.column + k] == Char(line[k], e);
    }
  }

  /** `println!("hi")` from the top-left corner: "hi" lands in the first two
      cells of row 0 and the cursor ends at the start of row 1. */
  lemma PrintlnHi(g: Grid, e: ColorEntry)
    requires IsGrid(g)
    ensures Fits(Cursor(0, 0), Sanitized([0x68, 0x69, LF]))
    ensures CursorAfter(Cursor(0, 0), Sanitized([0x68, 0x69, LF])) == Cursor(1, 0)
    ensures PaintAll(g, Cursor(0, 0), Sanitized([0x68, 0x69, LF]), e)[0][0] == Char(0x68, e)
    ensures PaintAll(g, Cursor(0, 0), Sanitized([0x68, 0x69, LF]), e)[0][1] == Char(0x69, e)
  {
    var hi: seq<bv8> := [0x68, 0x69];
    PrintableRun(g, Cursor(0, 0), hi, e);
    assert Sanitized([0x68, 0x69, LF]) == Sanitized(hi) + [LF];
    PaintAllAppend(g, Cursor(0, 0), Sanitized(hi), [LF], e);
    assert [LF][..0] == [];
  }
}
