/** The framebuffer console (drivers/graphics.cpp): a cursor over a flat pixel buffer that is
    drawn into and scrolled in place. */
module Console {
  import opened Words
  import opened Bitwise
  import opened Utf8
  import opened Transcript

  const BASIC_WIDTH: nat := 8
  const WIDE_WIDTH: nat := 16

  type Color = nat

  /** Rows of a glyph bitmap by code point and row; total, as the font data is not modelled. */
  type Font = (nat, nat) -> Byte

  predicate IsWide(cp: nat) {
    0x4E00 <= cp <= 0x9FFF || 0x3040 <= cp <= 0x309F || 0x30A0 <= cp <= 0x30FF || 0xFF00 <= cp <= 0xFFEF
  }

  function GlyphWidth(cp: nat): nat { if IsWide(cp) then WIDE_WIDTH else BASIC_WIDTH }

  predicate Narrow(item: Item) { item.Char? ==> !IsWide(item.cp) }

  ghost predicate AllNarrow(items: seq<Item>) {
    forall i :: 0 <= i < |items| ==> Narrow(items[i])
  }

  predicate Bit(row: Byte, k: nat) { row / Pow2(k) % 2 == 1 }

  /** Whether a glyph pixel is set; wide glyphs duplicate each bit. */
  predicate Lit(font: Font, cp: nat, dy: nat, dx: nat)
    requires dx < GlyphWidth(cp)
  {
    Bit(font(cp, dy), 7 - dx / (GlyphWidth(cp) / BASIC_WIDTH))
  }

  /** A glyph is 16 pixels wide in the CJK, kana and full-width blocks, and 8 elsewhere. */
  lemma {:induction false} WidthByBlock(cp: nat)
    ensures var block, k := cp / 0x100, cp % 0x100;
            GlyphWidth(cp) == 16 <==>
              (block == 0xFF && k < 0xF0) || 0x4E <= block <= 0x9F || (block == 0x30 && 0x40 <= k)
    ensures GlyphWidth(cp) == 8 || GlyphWidth(cp) == 16
  {
  }

  /** The leftmost pixel of a bitmap row is its highest bit; wide glyphs show each bit twice. */
  lemma {:induction false} LitIsMask(font: Font, cp: nat, dy: nat, dx: nat)
    requires dx < GlyphWidth(cp)
    ensures Lit(font, cp, dy, dx) <==> And(font(cp, dy), Pow2(7 - if IsWide(cp) then dx / 2 else dx)) != 0
  {
    OneBit(font(cp, dy), 7 - if IsWide(cp) then dx / 2 else dx);
  }

  // ---------------------------------------------------------------- arithmetic of the grid

  lemma {:induction false} IndexInside(y: nat, x: nat, height: nat, pitch: nat)
    requires y < height && x < pitch
    ensures y * pitch + x < height * pitch
  {
    assert (y + 1) * pitch <= height * pitch;
  }

  lemma {:induction false} IndexDistinct(y: nat, x: nat, v: nat, u: nat, pitch: nat)
    requires x < pitch && u < pitch && (y != v || x != u)
    ensures y * pitch + x != v * pitch + u
  {
    if y < v {
      assert (y + 1) * pitch <= v * pitch;
    } else if v < y {
      assert (v + 1) * pitch <= y * pitch;
    }
  }

  lemma {:induction false} DivUnique(y: nat, q: nat, r: nat, d: nat)
    requires r < d && y == q * d + r
    ensures y / d == q && y % d == r
  {
    var p := y / d;
    assert y == p * d + y % d;
    assert p < q ==> (p + 1) * d <= q * d;
    assert q < p ==> (q + 1) * d <= p * d;
  }

  lemma {:induction false} QuotientPositive(d: nat, cell: nat)
    requires 0 < cell <= d
    ensures 0 < d / cell && d == d / cell * cell + d % cell
  {
  }

  lemma {:induction false} RowBelow(r: nat, rows: nat, cell: nat)
    requires 0 < cell
    ensures r * cell < rows * cell <==> r < rows
    ensures r < rows ==> r * cell + cell <= rows * cell
  {
    if r < rows {
      assert (r + 1) * cell <= rows * cell;
    } else {
      assert rows * cell <= r * cell;
    }
  }

  /** The text row of pixel row y, and the place of y in it. */
  function TextRow(y: nat, cell: nat): nat
    requires 0 < cell
  {
    y / cell
  }

  function RowPixel(y: nat, cell: nat): nat
    requires 0 < cell
  {
    y % cell
  }

  /** Pixel row y lies in text row r. */
  lemma {:induction false} InRow(y: nat, r: nat, cell: nat)
    requires 0 < cell
    ensures TextRow(y, cell) == r <==> r * cell <= y < r * cell + cell
    ensures TextRow(y, cell) == r ==> RowPixel(y, cell) == y - r * cell
  {
    if r * cell <= y < r * cell + cell { DivUnique(y, r, y - r * cell, cell); }
    assert y == y / cell * cell + y % cell;
  }

  lemma {:induction false} NextRow(y: nat, cell: nat)
    requires 0 < cell
    ensures TextRow(y + cell, cell) == TextRow(y, cell) + 1 && RowPixel(y + cell, cell) == RowPixel(y, cell)
  {
    assert y == y / cell * cell + y % cell;
    DivUnique(y + cell, y / cell + 1, y % cell, cell);
  }

  /** A height of `rows` text rows, the last of them `foot` pixels high. */
  ghost predicate Divided(height: nat, cell: nat, rows: nat, foot: nat) {
    0 < rows && 0 < foot <= cell && height == (rows - 1) * cell + foot
  }

  /** Text row r starts on the screen exactly if it is one of the rows. */
  lemma {:induction false} RowInside(r: nat, height: nat, cell: nat, rows: nat, foot: nat)
    requires Divided(height, cell, rows, foot)
    ensures r * cell < height <==> r < rows
  {
    RowBelow(r, rows - 1, cell);
    if r == rows { assert rows * cell == (rows - 1) * cell + cell; }
    if r > rows { RowBelow(rows, r, cell); assert rows * cell == (rows - 1) * cell + cell; }
  }

  /** The row of a pixel, and whether there is a pixel one text row below. */
  lemma {:induction false} ShiftedRow(y: nat, height: nat, cell: nat, rows: nat, foot: nat)
    requires Divided(height, cell, rows, foot) && y < height
    ensures var r := TextRow(y, cell);
            && r < rows && (r + 1 == rows ==> RowPixel(y, cell) < foot)
            && TextRow(y + cell, cell) == r + 1 && RowPixel(y + cell, cell) == RowPixel(y, cell)
            && (y + cell < height <==> r + 2 < rows || (r + 2 == rows && RowPixel(y, cell) < foot))
  {
    var r := TextRow(y, cell);
    NextRow(y, cell);
    InRow(y, r, cell);
    RowInside(r, height, cell, rows, foot);
    RowInside(r + 1, height, cell, rows, foot);
    RowInside(r + 2, height, cell, rows, foot);
    RowStep(r, cell);
    assert r + 1 == rows ==> r * cell == (rows - 1) * cell;
    assert r + 2 == rows ==> (r + 1) * cell == (rows - 1) * cell;
  }

  lemma {:induction false} RowStep(r: nat, cell: nat)
    ensures (r + 1) * cell == r * cell + cell && (r + 2) * cell == r * cell + 2 * cell
  {
  }

  class Screen {
    const buffer: array<Color>
    const width: nat
    const height: nat
    const pitch: nat
    const cell: nat          // FONT_HEIGHT
    const font: Font
    const fg: Color
    const bg: Color
    var xPos: nat
    var yPos: nat
    ghost var text: Text

    /** A usable framebuffer. */
    ghost predicate Framed() {
      0 < width <= pitch && 0 < cell < TWO64 && 0 < height < TWO64 && buffer.Length == height * pitch
    }

    ghost predicate Shape()
      reads this
    {
      Framed() && xPos * BASIC_WIDTH < width && yPos * cell < height
    }

    /** The pixel at row y, column x; columns from `width` to `pitch` are padding. */
    function At(y: nat, x: nat): Color
      reads buffer
    {
      if y * pitch + x < buffer.Length then buffer[y * pitch + x] else 0
    }

    function Cols(): nat { (width + BASIC_WIDTH - 1) / BASIC_WIDTH }

    /** Text rows, of which the last may be cut by the lower edge. */
    function Rows(): nat
      requires 0 < cell
    {
      (height + cell - 1) / cell
    }

    /** Visible pixel rows of the last text row. */
    function Foot(): nat
      requires 0 < cell
    {
      (height + cell - 1) % cell + 1
    }

    /** Colour of a pixel of a text cell. */
    function Ink(c: Cell, dy: nat, dx: nat): Color
      requires dx < BASIC_WIDTH
    {
      if c.Glyph? && Lit(font, c.cp, dy, dx) then fg else bg
    }

    predicate Cut(t: Text, y: nat)
      requires 0 < cell
    {
      Top(t, Rows()) + TextRow(y, cell) + 1 >= Rows() && RowPixel(y, cell) >= Foot()
    }

    /** The colour of a visible pixel when the screen shows the last rows of a transcript. Lines
        that were written in the last text row, as all but the first lines are, show only the
        pixel rows that fit there, also after they have scrolled up. */
    function Picture(t: Text, y: nat, x: nat): Color
      requires 0 < cell
    {
      if Cut(t, y) then bg
      else Ink(CellAt(t, Rows(), TextRow(y, cell), x / BASIC_WIDTH), RowPixel(y, cell), x % BASIC_WIDTH)
    }

    /** The pixels and the cursor are those of the last rows of the transcript. */
    ghost predicate Shows()
      reads this, buffer
    {
      && Shape() && cell <= height && 0 < Rows()
      && TextValid(text, Cols()) && xPos == text.x && yPos == CursorRow(text, Rows())
      && forall y: nat, x: nat :: y < height && x < width ==>
           At(y, x) == Picture(text, y, x)
    }

    constructor (buffer: array<Color>, width: nat, height: nat, pitch: nat, cell: nat, font: Font, fg: Color, bg: Color)
      requires 0 < width <= pitch && 0 < cell < TWO64 && 0 < height < TWO64 && buffer.Length == height * pitch
      modifies buffer
      ensures Shape() && this.buffer == buffer && this.cell == cell && this.width == width && this.height == height
      ensures this.pitch == pitch && this.font == font && this.fg == fg && this.bg == bg
      ensures xPos == 0 && yPos == 0 && forall v: nat, u: nat :: v < height && u < width ==> At(v, u) == bg
      ensures cell <= height ==> Shows() && text == EMPTY
    {
      this.buffer, this.width, this.height, this.pitch := buffer, width, height, pitch;
      this.cell, this.font, this.fg, this.bg := cell, font, fg, bg;
      xPos, yPos, text := 0, 0, EMPTY;
      new;
      Clear();
    }

    // -------------------------------------------------------------- pixels

    method SetPixel(y: nat, x: nat, c: Color)
      requires Framed() && y < height && x < pitch
      modifies buffer
      ensures forall v: nat, u: nat :: v < height && u < pitch ==>
        At(v, u) == if v == y && u == x then c else old(At(v, u))
    {
      IndexInside(y, x, height, pitch);
      buffer[y * pitch + x] := c;
      forall v: nat, u: nat | v < height && u < pitch
        ensures At(v, u) == if v == y && u == x then c else old(At(v, u))
      {
        IndexInside(v, u, height, pitch);
        if v != y || u != x { IndexDistinct(v, u, y, x, pitch); }
      }
    }

    method GetPixel(y: nat, x: nat) returns (c: Color)
      requires Framed() && y < height && x < pitch
      ensures c == At(y, x)
    {
      IndexInside(y, x, height, pitch);
      c := buffer[y * pitch + x];
    }

    /** Fill the visible part of one pixel row with the background. */
    method FillRow(y: nat)
      requires Framed() && y < height
      modifies buffer
      ensures forall v: nat, u: nat :: v < height && u < pitch ==>
        At(v, u) == if v == y && u < width then bg else old(At(v, u))
    {
      var x := 0;
      while x < width
        invariant x <= width
        invariant forall v: nat, u: nat :: v < height && u < pitch ==>
          At(v, u) == if v == y && u < x then bg else old(At(v, u))
      {
        SetPixel(y, x, bg);
        x := x + 1;
      }
    }

    method CopyRow(y: nat, to: nat)
      requires Framed() && to < y < height
      modifies buffer
      ensures forall v: nat, u: nat :: v < height && u < pitch ==>
        At(v, u) == if v == to && u < width then old(At(y, u)) else old(At(v, u))
    {
      var x := 0;
      while x < width
        invariant x <= width
        invariant forall v: nat, u: nat :: v < height && u < pitch ==>
          At(v, u) == if v == to && u < x then old(At(y, u)) else old(At(v, u))
      {
        var c := GetPixel(y, x);
        SetPixel(to, x, c);
        x := x + 1;
      }
    }

    method Clear()
      requires Framed()
      modifies this, buffer
      ensures Shape() && xPos == 0 && yPos == 0 && text == EMPTY
      ensures forall v: nat, u: nat :: v < height && u < pitch ==> At(v, u) == if u < width then bg else old(At(v, u))
      ensures cell <= height ==> Shows()
    {
      var y := 0;
      while y < height
        invariant y <= height && xPos == old(xPos) && yPos == old(yPos)
        invariant forall v: nat, u: nat :: v < height && u < pitch ==>
          At(v, u) == if v < y && u < width then bg else old(At(v, u))
      {
        FillRow(y);
        y := y + 1;
      }
      xPos, yPos, text := 0, 0, EMPTY;
      if cell <= height {
        GridRows();
        forall v: nat, u: nat | v < height && u < width
          ensures At(v, u) == Picture(EMPTY, v, u)
        {
          EmptyPicture(v, u);
        }
      }
    }

    lemma {:induction false} GridRows()
      requires Framed()
      ensures Divided(height, cell, Rows(), Foot())
    {
      var d := height + cell - 1;
      QuotientPositive(d, cell);
      assert (Rows() - 1) * cell == Rows() * cell - cell;
    }

    // -------------------------------------------------------------- scrolling

    method ShiftUp()
      requires Framed()
      modifies buffer
      ensures forall v: nat, u: nat :: v < height && u < pitch ==>
        At(v, u) == if u < width && v + cell < height then old(At(v + cell, u)) else old(At(v, u))
    {
      var y := cell;
      while y < height
        invariant cell <= y && (y <= height || y == cell)
        invariant forall v: nat, u: nat :: v < height && u < pitch ==>
          At(v, u) == if u < width && v + cell < y then old(At(v + cell, u)) else old(At(v, u))
      {
        CopyRow(y, y - cell);
        y := y + 1;
      }
    }

    /** The start row is a wrapped difference: on a screen lower than one text row it lies
        beyond the screen and nothing is cleared. */
    method ClearBottom()
      requires Framed()
      modifies buffer
      ensures forall v: nat, u: nat :: v < height && u < pitch ==>
        At(v, u) == if u < width && cell <= height <= v + cell then bg else old(At(v, u))
    {
      var y := (height - cell) % TWO64;
      assert if height < cell then y >= height else y == height - cell;
      while y < height
        invariant if height < cell then y >= height else height - cell <= y <= height
        invariant forall v: nat, u: nat :: v < height && u < pitch ==>
          At(v, u) == if u < width && cell <= height <= v + cell && v < y then bg else old(At(v, u))
      {
        FillRow(y);
        y := y + 1;
      }
    }

    /** The overlapping in-place scroll is a simultaneous shift by one text row; padding is
        untouched. On a screen lower than one text row nothing moves. */
    method Scroll()
      requires Framed()
      modifies `yPos, buffer
      ensures yPos == if old(yPos) > 0 then old(yPos) - 1 else 0
      ensures forall v: nat, u: nat :: v < height && u < pitch ==>
        At(v, u) == if u >= width || height < cell then old(At(v, u))
                    else if v + cell < height then old(At(v + cell, u)) else bg
    {
      ShiftUp();
      ClearBottom();
      if yPos > 0 { yPos := yPos - 1; }
    }

    /** `newline`: on a screen of at least one text row, the transcript gains a line break. */
    method NewLine()
      requires Framed() && yPos * cell < height
      modifies `xPos, `yPos, `text, buffer
      ensures Shape()
      ensures old(Drawn()) ==> Shows() && text == Break(old(text))
    {
      xPos := 0;
      yPos := yPos + 1;
      if yPos * cell >= height {
        Scroll();
      }
      text := Break(text);
      if old(Drawn()) { BreakShown(); }
    }

    /** The pixels fit the broken transcript, whether or not the screen had to scroll. */
    twostate lemma {:induction false} BreakShown()
      requires old(Drawn()) && Framed() && text == Break(old(text)) && xPos == 0 && yPos * cell < height
      requires var scrolled := (old(yPos) + 1) * cell >= height;
        && yPos == (if scrolled then old(yPos) else old(yPos) + 1)
        && forall v: nat, u: nat :: v < height && u < width ==>
             At(v, u) == if !scrolled || height < cell then old(At(v, u))
                         else if v + cell < height then old(At(v + cell, u)) else bg
      ensures Shows()
    {
      var t, rows := old(text), Rows();
      GridRows();
      RowInside(old(yPos) + 1, height, cell, rows, Foot());
      BreakCell(t, rows, 0, 0);
      forall y: nat, x: nat | y < height && x < width
        ensures At(y, x) == Picture(text, y, x)
      {
        BreakPicture(t, y, x);
        if CursorRow(t, rows) + 1 < rows {
          assert old(At(y, x)) == Picture(t, y, x);
        } else if y + cell < height {
          assert old(At(y + cell, x)) == Picture(t, y + cell, x);
        }
      }
    }

    /** The pixels and the row of the cursor fit the transcript; its column may have reached the
        right edge. */
    ghost predicate Drawn()
      reads this, buffer
    {
      && Framed() && yPos * cell < height && cell <= height && 0 < Rows()
      && text.lines != [] && text.x <= |Last(text)| && yPos == CursorRow(text, Rows())
      && forall y: nat, x: nat :: y < height && x < width ==>
           At(y, x) == Picture(text, y, x)
    }

    /** Where the colour of a pixel comes from after a line break. */
    lemma {:induction false} BreakPicture(t: Text, y: nat, x: nat)
      requires Framed() && y < height && x < width && t.lines != [] && 0 < Rows()
      ensures CursorRow(t, Rows()) + 1 < Rows() ==> Picture(Break(t), y, x) == Picture(t, y, x)
      ensures CursorRow(t, Rows()) + 1 == Rows() ==>
                Picture(Break(t), y, x) == if y + cell < height then Picture(t, y + cell, x) else bg
    {
      GridRows();
      ShiftedRow(y, height, cell, Rows(), Foot());
      BreakCell(t, Rows(), TextRow(y, cell), x / BASIC_WIDTH);
    }

    lemma {:induction false} EmptyPicture(y: nat, x: nat)
      requires 0 < cell
      ensures Picture(EMPTY, y, x) == bg
    {
      var r := TextRow(y, cell);
      assert CellAt(EMPTY, Rows(), r, x / BASIC_WIDTH) == Blank;
    }

    // -------------------------------------------------------------- drawing

    /** Pixel (y, x) belongs to the glyph box whose upper left corner is (top, left). */
    predicate InBox(y: nat, x: nat, top: nat, left: nat, w: nat) {
      top <= y < top + cell && left <= x < left + w && x < width
    }

    function BoxInk(cp: nat, dy: nat, dx: nat): Color
      requires dx < GlyphWidth(cp)
    {
      if Lit(font, cp, dy, dx) then fg else bg
    }

    /** Draws the visible part of one bitmap row of a glyph. */
    method DrawRow(cp: nat, dy: nat, top: nat, left: nat)
      requires Framed() && dy < cell
      modifies buffer
      ensures forall v: nat, u: nat :: v < height && u < pitch ==>
        At(v, u) == if v == top + dy && InBox(v, u, top, left, GlyphWidth(cp)) then BoxInk(cp, dy, u - left)
                    else old(At(v, u))
    {
      var py := top + dy;
      var x := 0;
      while x < GlyphWidth(cp)
        invariant x <= GlyphWidth(cp)
        invariant forall v: nat, u: nat :: v < height && u < pitch ==>
          At(v, u) == if v == py && InBox(v, u, top, left, x) then BoxInk(cp, dy, u - left) else old(At(v, u))
      {
        var px := left + x;
        if px < width && py < height {
          SetPixel(py, px, if Lit(font, cp, dy, x) then fg else bg);
        }
        x := x + 1;
      }
    }

    /** Draws the visible part of a glyph. */
    method DrawGlyph(cp: nat, top: nat, left: nat)
      requires Framed()
      modifies buffer
      ensures forall v: nat, u: nat :: v < height && u < pitch ==>
        At(v, u) == if InBox(v, u, top, left, GlyphWidth(cp)) then BoxInk(cp, v - top, u - left) else old(At(v, u))
    {
      var y := 0;
      while y < cell
        invariant y <= cell
        invariant forall v: nat, u: nat :: v < height && u < pitch ==>
          At(v, u) == if v < top + y && InBox(v, u, top, left, GlyphWidth(cp)) then BoxInk(cp, v - top, u - left)
                      else old(At(v, u))
      {
        DrawRow(cp, y, top, left);
        y := y + 1;
      }
    }

    /** `_putchar`: a glyph that starts on the screen is drawn, clipped to it, and the cursor
        advances; otherwise nothing happens. */
    method DrawAtCursor(cp: nat)
      requires Framed()
      modifies `xPos, buffer
      ensures var w := GlyphWidth(cp);
              if old(xPos) * w >= width || yPos * cell >= height then xPos == old(xPos) && buffer[..] == old(buffer[..])
              else
                && xPos == old(xPos) + 1
                && forall v: nat, u: nat :: v < height && u < pitch ==>
                     At(v, u) == if yPos * cell <= v < yPos * cell + cell
                                    && old(xPos) * w <= u < old(xPos) * w + w && u < width
                                 then BoxInk(cp, v - yPos * cell, u - old(xPos) * w) else old(At(v, u))
    {
      var w := GlyphWidth(cp);
      if xPos * w >= width || yPos * cell >= height { return; }
      DrawGlyph(cp, yPos * cell, xPos * w);
      xPos := xPos + 1;
    }

    /** The same, with the transcript kept up to date. */
    method PutGlyph(cp: nat)
      requires Framed()
      modifies `xPos, `text, buffer
      ensures var w := GlyphWidth(cp);
              if old(xPos) * w >= width || yPos * cell >= height then xPos == old(xPos) && buffer[..] == old(buffer[..])
              else
                && xPos == old(xPos) + 1
                && forall v: nat, u: nat :: v < height && u < pitch ==>
                     At(v, u) == if yPos * cell <= v < yPos * cell + cell
                                    && old(xPos) * w <= u < old(xPos) * w + w && u < width
                                 then BoxInk(cp, v - yPos * cell, u - old(xPos) * w) else old(At(v, u))
      ensures old(Shows()) && !IsWide(cp) ==> Drawn() && text == Put(old(text), cp) && xPos == text.x
    {
      DrawAtCursor(cp);
      if old(Shows()) && !IsWide(cp) {
        text := Put(text, cp);
        PutShown(cp);
      }
    }

    /** A pixel of a glyph is the foreground exactly if its bit of the bitmap row is set: bit 7 for
        the leftmost column, and one bit for two columns of a wide glyph. */
    lemma {:induction false} InkIsMask(cp: nat, dy: nat, dx: nat)
      requires dx < GlyphWidth(cp)
      ensures BoxInk(cp, dy, dx)
           == if And(font(cp, dy), Pow2(7 - if IsWide(cp) then dx / 2 else dx)) != 0 then fg else bg
    {
      LitIsMask(font, cp, dy, dx);
    }

    /** The picture in terms of the lines: pixel row y is row `dy` of text row r, column x bit
        7 - x % 8 of character x / 8; the lines before the last `rows` are hidden. */
    lemma {:induction false} PictureIsMask(t: Text, y: nat, x: nat, rows: nat, r: nat, dy: nat, l: nat, k: nat)
      requires Framed() && rows == Rows() && y == r * cell + dy && dy < cell && k == x / 8
      requires l == r + if |t.lines| > rows then |t.lines| - rows else 0
      requires l < |t.lines| && k < |t.lines[l]| ==> !IsWide(t.lines[l][k])
      ensures Picture(t, y, x)
           == if && l < |t.lines| && k < |t.lines[l]| && (l + 1 < rows || dy < Foot())
                 && And(font(t.lines[l][k], dy), Pow2(7 - x % 8)) != 0 then fg else bg
    {
      InRow(y, r, cell);
      PictureCell(t, y, x, r, dy, l, k);
      if l < |t.lines| && k < |t.lines[l]| { LitIsMask(font, t.lines[l][k], dy, x % 8); }
    }

    lemma {:induction false} PictureCell(t: Text, y: nat, x: nat, r: nat, dy: nat, l: nat, k: nat)
      requires Framed() && r == TextRow(y, cell) && dy == RowPixel(y, cell) && k == x / 8 && l == Top(t, Rows()) + r
      ensures Picture(t, y, x)
           == if && l < |t.lines| && k < |t.lines[l]| && (l + 1 < Rows() || dy < Foot())
                 && Lit(font, t.lines[l][k], dy, x % 8) then fg else bg
    {
    }

    /** The columns just cover the width. */
    lemma {:induction false} ColsCover()
      requires 0 < width
      ensures 0 < Cols() && 8 * (Cols() - 1) < width <= 8 * Cols()
    {
    }

    /** The line of the cursor is never cut within the screen. */
    lemma {:induction false} PutCut(t: Text, c: nat, y: nat)
      requires Framed() && y < height && 0 < Rows() && t.lines != [] && t.x <= |Last(t)|
      ensures Cut(Put(t, c), y) == Cut(t, y)
      ensures TextRow(y, cell) == CursorRow(t, Rows()) ==> !Cut(t, y)
    {
      GridRows();
      ShiftedRow(y, height, cell, Rows(), Foot());
    }

    lemma {:induction false} PutPicture(t: Text, c: nat, y: nat, x: nat)
      requires Framed() && y < height && 0 < Rows() && t.lines != [] && t.x <= |Last(t)| && !IsWide(c)
      ensures var top, left := CursorRow(t, Rows()) * cell, t.x * BASIC_WIDTH;
              Picture(Put(t, c), y, x)
                == if top <= y < top + cell && left <= x < left + BASIC_WIDTH then BoxInk(c, y - top, x - left)
                   else Picture(t, y, x)
    {
      PutCut(t, c, y);
      InRow(y, CursorRow(t, Rows()), cell);
      PutCell(t, c, Rows(), TextRow(y, cell), x / BASIC_WIDTH);
    }

    twostate lemma {:induction false} PutShown(cp: nat)
      requires old(Shows()) && !IsWide(cp) && text == Put(old(text), cp) && yPos == old(yPos)
      requires forall v: nat, u: nat :: v < height && u < width ==>
        At(v, u) == if InBox(v, u, yPos * cell, old(xPos) * BASIC_WIDTH, BASIC_WIDTH)
                    then BoxInk(cp, v - yPos * cell, u - old(xPos) * BASIC_WIDTH) else old(At(v, u))
      ensures Drawn()
    {
      var t := old(text);
      PutCell(t, cp, Rows(), 0, 0);
      forall y: nat, x: nat | y < height && x < width
        ensures At(y, x) == Picture(text, y, x)
      {
        PutPicture(t, cp, y, x);
        assert old(At(y, x)) == Picture(t, y, x);
      }
    }

    /** Draw, then wrap eagerly at the right edge. */
    method PutAndWrap(cp: nat)
      requires Shape()
      modifies `xPos, `yPos, `text, buffer
      ensures Shape()
      ensures old(Shows()) && !IsWide(cp) ==> Shows() && text == Feed(old(text), Char(cp), Cols())
    {
      PutGlyph(cp);
      if xPos * BASIC_WIDTH >= width { NewLine(); }
    }

    /** `putchar`, whose argument is a signed char: bytes from 128 on become code points near
        2^32. The cursor never leaves the screen, so the closing scroll is never needed. */
    method PutChar(c: Byte)
      requires Shape()
      modifies `xPos, `yPos, `text, buffer
      ensures Shape()
      ensures old(Shows()) ==> Shows() && text == Feed(old(text), CharItem(c), Cols())
      ensures c == 13 ==> xPos == 0 && yPos == old(yPos) && buffer[..] == old(buffer[..])
      ensures c == 13 && old(Shows()) ==> text == Text(old(text).lines, 0)
    {
      if c == 10 {
        NewLine();
      } else if c == 13 {
        CarriageReturn();
      } else {
        PutAndWrap(if c < 128 then c else c + 0xFFFF_FF00);
      }
      assert yPos * cell < height;
    }

    /** The cursor goes back to the start of the line; nothing else changes. */
    method CarriageReturn()
      requires Shape()
      modifies `xPos, `text
      ensures Shape() && xPos == 0 && text == Text(old(text).lines, 0)
      ensures old(Shows()) ==> Shows()
    {
      xPos := 0;
      text := text.(x := 0);
      if old(Shows()) { ReturnShown(); }
    }

    twostate lemma {:induction false} ReturnShown()
      requires old(Shows()) && text == old(text).(x := 0) && xPos == 0 && yPos == old(yPos) && unchanged(buffer)
      ensures Shows()
    {
      forall y: nat, x: nat | y < height && x < width
        ensures At(y, x) == Picture(text, y, x)
      {
        assert old(At(y, x)) == Picture(old(text), y, x);
      }
    }

    // -------------------------------------------------------------- strings

    /** `decode_utf8` at one position of a zero-terminated string: it reads no byte after the
        terminator. */
    method DecodeUtf8(str: seq<Byte>, at: nat) returns (cp: nat, len: nat)
      requires Terminated(str) && at < |str| - 1
      ensures (cp, len) == DecodeOne(str[at..|str| - 1])
    {
      ghost var s := str[at..|str| - 1];
      assert forall i: nat :: i <= |s| ==> str[at + i] == ByteAt(s, i);
      var first := str[at];
      if first < 0x80 { return first, 1; }
      var n;
      if first / 32 == 6 {
        n, cp := 2, first % 32;
      } else if first / 16 == 14 {
        n, cp := 3, first % 16;
      } else if first / 8 == 30 {
        n, cp := 4, first % 8;
      } else {
        return REPLACEMENT, 1;
      }
      var i := 1;
      while i < n
        invariant 1 <= i <= n && n == LeadLength(s[0]) && i <= |s|
        invariant cp == Gather(s, i) && forall k :: 1 <= k < i ==> Continuation(ByteAt(s, k))
      {
        var byte := str[at + i];
        if byte / 64 != 2 {
          assert !Continuation(ByteAt(s, i));
          return REPLACEMENT, 1;
        }
        cp := cp * 64 + byte % 64;
        i := i + 1;
      }
      return cp, n;
    }

    /** The body of `write`'s loop: one line feed or one decoded character. */
    method WriteItem(str: seq<Byte>, at: nat) returns (step: nat, ghost item: Item)
      requires Shape() && Terminated(str) && at < |str| - 1
      modifies `xPos, `yPos, `text, buffer
      ensures Shape() && 1 <= step <= |str| - 1 - at
      ensures var rest := str[at..|str| - 1];
              Items(rest) == [item] + Items(rest[step..])
      ensures old(Shows()) && Narrow(item) ==> Shows() && text == Feed(old(text), item, Cols())
    {
      item := Items(str[at..|str| - 1])[0];
      if str[at] == 10 {
        NewLine();
        step := 1;
      } else {
        var cp;
        cp, step := DecodeUtf8(str, at);
        PutAndWrap(cp);
      }
    }

    /** `write_line`: `write` and a line break. */
    method WriteLine(str: seq<Byte>)
      requires Shape() && Terminated(str)
      modifies `xPos, `yPos, `text, buffer
      ensures Shape()
      ensures old(Shows()) && AllNarrow(Items(Content(str))) ==>
        Shows() && text == Break(FeedAll(old(text), Items(Content(str)), Cols()))
    {
      Write(str);
      NewLine();
    }

    /** `write`: on a screen of at least one text row that shows the transcript so far, writing a
        string of single-width characters extends the transcript by the string and shows its
        last rows. */
    method Write(str: seq<Byte>)
      requires Shape() && Terminated(str)
      modifies `xPos, `yPos, `text, buffer
      ensures Shape()
      ensures old(Shows()) && AllNarrow(Items(Content(str))) ==>
        Shows() && text == FeedAll(old(text), Items(Content(str)), Cols())
    {
      ghost var t, items := text, Items(Content(str));
      ghost var good := Shows() && AllNarrow(items);
      ghost var done: seq<Item> := [];
      var at := 0;
      assert Content(str)[0..] == Content(str);
      while str[at] != 0
        invariant Shape() && at <= |Content(str)| && Split(items, done, Content(str), at)
        invariant good ==> TextValid(t, Cols()) && Shows() && text == FeedAll(t, done, Cols())
        decreases |str| - at
      {
        var step;
        step, done := WriteNext(str, at, items, done, t, good);
        at := at + step;
      }
      assert items == done;
    }

    /** One turn of the loop: the items done grow by one. */
    method WriteNext(str: seq<Byte>, at: nat, ghost items: seq<Item>, ghost done: seq<Item>, ghost t: Text,
                     ghost good: bool)
      returns (step: nat, ghost done': seq<Item>)
      requires Shape() && Terminated(str) && at < |Content(str)| && Split(items, done, Content(str), at)
      requires good ==> TextValid(t, Cols()) && Shows() && AllNarrow(items) && text == FeedAll(t, done, Cols())
      modifies `xPos, `yPos, `text, buffer
      ensures Shape() && 1 <= step <= |Content(str)| - at && Split(items, done', Content(str), at + step)
      ensures good ==> Shows() && text == FeedAll(t, done', Cols())
    {
      ghost var item;
      step, item := WriteItem(str, at);
      assert Content(str)[at..] == str[at..|str| - 1];
      NextItems(Content(str), items, done, item, at, step);
      FeedNextIf(good, t, done, item, Cols());
      done' := done + [item];
    }
  }

  lemma {:induction false} FeedNextIf(good: bool, t: Text, done: seq<Item>, item: Item, cols: nat)
    requires good ==> TextValid(t, cols)
    ensures good ==> FeedAll(t, done + [item], cols) == Feed(FeedAll(t, done, cols), item, cols)
  {
    if good { FeedNext(t, done, item, cols); }
  }

  lemma {:induction false} FeedNext(t: Text, done: seq<Item>, item: Item, cols: nat)
    requires TextValid(t, cols)
    ensures FeedAll(t, done + [item], cols) == Feed(FeedAll(t, done, cols), item, cols)
  {
    assert (done + [item])[..|done|] == done;
  }

  /** The items of s are those done and those of the bytes from `at` on. */
  ghost predicate Split(items: seq<Item>, done: seq<Item>, s: seq<Byte>, at: nat)
    requires at <= |s|
  {
    items == done + Items(s[at..])
  }

  lemma {:induction false} NextItems(s: seq<Byte>, items: seq<Item>, done: seq<Item>, item: Item, at: nat, step: nat)
    requires at + step <= |s| && Split(items, done, s, at)
    requires Items(s[at..]) == [item] + Items(s[at..][step..])
    ensures Split(items, done + [item], s, at + step) && |done| < |items| && items[|done|] == item
  {
    assert s[at..][step..] == s[at + step..];
  }

  /** A C string: its bytes, then the terminator. */
  ghost predicate Terminated(str: seq<Byte>) {
    str != [] && str[|str| - 1] == 0 && forall i :: 0 <= i < |str| - 1 ==> str[i] != 0
  }

  ghost function Content(str: seq<Byte>): seq<Byte>
    requires str != []
  {
    str[..|str| - 1]
  }

  function CharItem(c: Byte): Item {
    if c == 10 then Newline else if c == 13 then Return else Char(if c < 128 then c else c + 0xFFFF_FF00)
  }

  /** The signed character is extended to 32 bits. */
  lemma {:induction false} CharCodes(c: Byte)
    ensures (CharItem(c).Newline? <==> c == 10) && (CharItem(c).Return? <==> c == 13)
    ensures CharItem(c).Char? ==>
              var cp := CharItem(c).cp;
              cp % 0x100 == c && if c < 0x80 then cp < 0x80 else 0xFFFF_FF80 <= cp < 0x1_0000_0000
  {
  }
}
