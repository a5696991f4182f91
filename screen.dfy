/** Rendering of one decoded event on the terminal (main.go's `printCells`):
    a header of column numbers, one line per board row with a two-column glyph
    per cell, and a trailer naming the generation and the geometry. The text is
    built as a string instead of being written to standard output. */
module Screen {
  import opened Wire
  import opened Event

  /** `"\033[H"`: cursor home. */
  const Home: string := "\U{1b}[H"
  /** `"\033[E"`: cursor to the start of the next line. */
  const NextLine: string := "\U{1b}[E"
  /** Inverse video around two spaces: a live cell. */
  const LiveGlyph: string := "\U{1b}[07m  \U{1b}[m"
  /** Two spaces: a dead cell. */
  const DeadGlyph: string := "  "

  function DigitChar(d: nat): (c: char)
    requires d < 10
    ensures '0' <= c <= '9'
  {
    (('0' as int) + d) as char
  }

  function DigitValue(c: char): nat {
    if '0' <= c <= '9' then (c as int) - ('0' as int) else 0
  }

  /** `%d` of a non-negative number: its decimal digits, most significant first. */
  function Decimal(n: nat): (s: string)
    ensures 1 <= |s| && '0' <= s[0] <= '9'
    ensures |s| == 1 <==> n < 10
    decreases n
  {
    if n < 10 then [DigitChar(n)] else Decimal(n / 10) + [DigitChar(n % 10)]
  }

  /** The value of a string of decimal digits. */
  function ParseDecimal(s: string): nat
    decreases |s|
  {
    if |s| == 0 then 0 else 10 * ParseDecimal(s[..|s| - 1]) + DigitValue(s[|s| - 1])
  }

  lemma {:induction false} ParseDecimalOfDecimal(n: nat)
    ensures ParseDecimal(Decimal(n)) == n
    decreases n
  {
    if n < 10 {
      assert DigitValue(DigitChar(n)) == n;
    } else {
      var s := Decimal(n);
      assert s[..|s| - 1] == Decimal(n / 10);
      assert DigitValue(DigitChar(n % 10)) == n % 10;
      ParseDecimalOfDecimal(n / 10);
    }
  }

  /** `%2d`: the decimal digits, right-aligned in a field of two. */
  function Pad2(n: nat): (s: string)
    ensures |s| >= 2 && (n < 100 ==> |s| == 2)
  {
    if n < 10 then " " + Decimal(n) else Decimal(n)
  }

  /** Leading spaces removed. */
  function TrimLeft(s: string): string
    decreases |s|
  {
    if |s| > 0 && s[0] == ' ' then TrimLeft(s[1..]) else s
  }

  /** A `%2d` field reads back as the number it shows. */
  lemma {:induction false} Pad2Reads(n: nat)
    ensures ParseDecimal(TrimLeft(Pad2(n))) == n
  {
    var d := Decimal(n);
    assert '0' <= d[0] <= '9';
    if n < 10 {
      assert (" " + d)[1..] == d;
    }
    assert TrimLeft(Pad2(n)) == d;
    ParseDecimalOfDecimal(n);
  }

  function Glyph(alive: bool): string {
    if alive then LiveGlyph else DeadGlyph
  }

  /** The glyphs of a run of cells, left to right. */
  function Glyphs(bits: seq<bool>): string
    decreases |bits|
  {
    if |bits| == 0 then "" else Glyphs(bits[..|bits| - 1]) + Glyph(bits[|bits| - 1])
  }

  /** Reads a run of glyphs back into live/dead cells, from the right. */
  function ReadGlyphs(s: string): seq<bool>
    decreases |s|
  {
    if |s| >= 10 && s[|s| - 10..] == LiveGlyph then ReadGlyphs(s[..|s| - 10]) + [true]
    else if |s| >= 2 && s[|s| - 2..] == DeadGlyph then ReadGlyphs(s[..|s| - 2]) + [false]
    else []
  }

  lemma ReadLiveGlyph(s: string)
    ensures ReadGlyphs(s + LiveGlyph) == ReadGlyphs(s) + [true]
  {
    var t := s + LiveGlyph;
    assert t[|t| - 10..] == LiveGlyph;
    assert t[..|t| - 10] == s;
  }

  lemma ReadDeadGlyph(s: string)
    ensures ReadGlyphs(s + DeadGlyph) == ReadGlyphs(s) + [false]
  {
    var t := s + DeadGlyph;
    assert t[|t| - 1] == ' ';
    assert LiveGlyph[9] == 'm';
    assert t[|t| - 2..] == DeadGlyph;
    assert t[..|t| - 2] == s;
  }

  lemma ReadGlyph(s: string, alive: bool)
    ensures ReadGlyphs(s + Glyph(alive)) == ReadGlyphs(s) + [alive]
  {
    if alive {
      ReadLiveGlyph(s);
    } else {
      ReadDeadGlyph(s);
    }
  }

  lemma GlyphsSnoc(bits: seq<bool>, x: nat)
    requires x < |bits|
    ensures Glyphs(bits[..x + 1]) == Glyphs(bits[..x]) + Glyph(bits[x])
  {
    assert bits[..x + 1][..x] == bits[..x];
  }

  /** Glyphs are unambiguous: the rendered row reads back as the cells it shows. */
  lemma {:induction false} ReadGlyphsOfGlyphs(bits: seq<bool>)
    ensures ReadGlyphs(Glyphs(bits)) == bits
    decreases |bits|
  {
    if |bits| > 0 {
      var front, last := bits[..|bits| - 1], bits[|bits| - 1];
      assert bits == front + [last];
      ReadGlyphsOfGlyphs(front);
      ReadGlyph(Glyphs(front), last);
      calc {
        ReadGlyphs(Glyphs(bits));
        ReadGlyphs(Glyphs(front) + Glyph(last));
        ReadGlyphs(Glyphs(front)) + [last];
        front + [last];
      }
    }
  }

  /** `Cells[i] & 0x01 != 0` for an index inside the array. */
  predicate Alive(cells: seq<Byte>, i: nat) {
    i < |cells| && cells[i] % 2 != 0
  }

  /** The cells of row `y` of a board `width` wide, as the renderer visits
      them, at `x + y*width`. */
  function RowBits(cells: seq<Byte>, width: nat, y: nat): (bits: seq<bool>)
    ensures |bits| == width
  {
    seq(width, x requires 0 <= x => Alive(cells, x + y * width))
  }

  /** Column labels `%2d` of 0 .. n-1. */
  function Labels(n: nat): string {
    if n == 0 then "" else Labels(n - 1) + Pad2(n - 1)
  }

  function Header(e: MsgLifeEvent): string {
    Home + Labels(e.width) + "\n"
  }

  function Row(e: MsgLifeEvent, y: nat): string {
    Pad2(y) + Glyphs(RowBits(e.cells, e.width, y)) + NextLine
  }

  /** Rows 0 .. n-1. */
  function Rows(e: MsgLifeEvent, n: nat): string {
    if n == 0 then "" else Rows(e, n - 1) + Row(e, n - 1)
  }

  function Trailer(e: MsgLifeEvent): string {
    "Life event generation " + Decimal(e.generation) + " received: " + Decimal(e.width)
      + " x " + Decimal(e.height) + "\n"
  }

  /** The board's area `Width*Height` fits the 4096-cell array. */
  predicate Fits(e: MsgLifeEvent) {
    e.width * e.height <= SampleCells
  }

  /** The whole text printed for one event. */
  function Render(e: MsgLifeEvent): string {
    Header(e) + Rows(e, e.height) + Trailer(e)
  }

  lemma {:induction false} LabelsLength(n: nat)
    requires n <= 100
    ensures |Labels(n)| == 2 * n
  {
    if n > 0 {
      LabelsLength(n - 1);
    }
  }

  /** With at most 100 columns, label `x` occupies characters `2x` and `2x+1`
      of the labels line, right above the glyph of column `x`. */
  lemma {:induction false} LabelAt(n: nat, x: nat)
    requires x < n <= 100
    ensures |Labels(n)| == 2 * n && Labels(n)[2 * x..2 * x + 2] == Pad2(x)
    decreases n
  {
    LabelsLength(n - 1);
    var prev, last := Labels(n - 1), Pad2(n - 1);
    assert Labels(n) == prev + last;
    if x < n - 1 {
      LabelAt(n - 1, x);
      SliceOfLeft(prev, last, 2 * x, 2 * x + 2);
    } else {
      SliceOfRight(prev, last);
    }
  }

  /** The number of cells in the first `rows` rows of a board `w` wide. */
  function Area(w: nat, rows: nat): nat {
    if rows == 0 then 0 else Area(w, rows - 1) + w
  }

  lemma {:induction false} AreaIsProduct(w: nat, rows: nat)
    ensures Area(w, rows) == rows * w
  {
    if rows > 0 {
      AreaIsProduct(w, rows - 1);
    }
  }

  lemma {:induction false} AreaMonotone(w: nat, a: nat, b: nat)
    requires a <= b
    ensures Area(w, a) <= Area(w, b)
    decreases b
  {
    if a < b {
      AreaMonotone(w, a, b - 1);
    }
  }

  /** Row `y` of a board `h` rows high ends within its area `w*h`. */
  lemma AreaAbove(y: nat, w: nat, h: nat)
    requires y < h
    ensures y * w + w <= w * h
  {
    assert (h - (y + 1)) * w >= 0;
    assert w * h == (y + 1) * w + (h - (y + 1)) * w;
  }

  /** Each rendered position lies below the board's area `w*h`. */
  lemma RenderedIndexBelowArea(x: nat, y: nat, w: nat, h: nat)
    requires x < w && y < h
    ensures x + y * w < w * h
  {
    AreaAbove(y, w, h);
  }

  /** On a board that fits the array, cell (x, y) is drawn live exactly when
      bit 0 of its byte is set, and its index stays inside the array. */
  lemma CellGlyph(e: MsgLifeEvent, x: nat, y: nat)
    requires |e.cells| == SampleCells && Fits(e)
    requires x < e.width && y < e.height
    ensures x + y * e.width < SampleCells
    ensures Glyphs(RowBits(e.cells, e.width, y)[x..x + 1]) ==
      (if e.cells[x + y * e.width] % 2 != 0 then LiveGlyph else DeadGlyph)
  {
    RenderedIndexBelowArea(x, y, e.width, e.height);
    var one := RowBits(e.cells, e.width, y)[x..x + 1];
    assert one[..0] == [];
  }

  lemma {:induction false} RowsIgnoreLength(e: MsgLifeEvent, len: U32, n: nat)
    ensures Rows(e, n) == Rows(e.(lengthInBytes := len), n)
    decreases n
  {
    if n > 0 {
      var f := e.(lengthInBytes := len);
      RowsIgnoreLength(e, len, n - 1);
      assert Row(e, n - 1) == Row(f, n - 1);
    }
  }

  /** `LengthInBytes` is never consulted by the renderer. */
  lemma {:induction false} RenderIgnoresLength(e: MsgLifeEvent, len: U32)
    ensures Render(e) == Render(e.(lengthInBytes := len))
  {
    RowsIgnoreLength(e, len, e.height);
  }

  /** `x + (y*Width)` in `uint32` arithmetic. */
  function CellIndex(x: U32, y: U32, width: U32): (i: U32)
    ensures x + y * width < 0x1_0000_0000 ==> i == x + y * width
  {
    Wrap32(x + Wrap32(y * width))
  }

  /** The inner loop of `printCells` for row `y`: the glyph of each cell
      `x + y*Width` in turn. The cell array has 4096 entries, so it panics on
      the first index that reaches 4096. */
  method PrintGlyphs(e: MsgLifeEvent, y: U32) returns (glyphs: string, panicked: bool)
    requires |e.cells| == SampleCells && Area(e.width, y) <= SampleCells
    ensures panicked <==> Area(e.width, y + 1) > SampleCells
    ensures !panicked ==> glyphs == Glyphs(RowBits(e.cells, e.width, y))
  {
    panicked := false;
    glyphs := "";
    ghost var row := RowBits(e.cells, e.width, y);
    ghost var base := y * e.width;
    AreaIsProduct(e.width, y);
    var x: U32 := 0;
    while x < e.width
      invariant x <= e.width
      invariant base + x <= SampleCells
      invariant glyphs == Glyphs(row[..x])
    {
      var i := CellIndex(x, y, e.width);
      if i >= SampleCells {
        panicked := true;
        return;
      }
      ghost var glyph := if e.cells[i] % 2 != 0 then LiveGlyph else DeadGlyph;
      assert glyphs + glyph == Glyphs(row[..x + 1]) by {
        assert row[x] == Alive(e.cells, x + y * e.width);
        GlyphsSnoc(row, x);
      }
      if e.cells[i] % 2 != 0 {
        glyphs := glyphs + LiveGlyph;
      } else {
        glyphs := glyphs + DeadGlyph;
      }
      x := x + 1;
    }
    assert row[..x] == row;
  }

  /** `printCells`: builds the text of `Render(e)`; it panics exactly when the
      board's area `Width*Height` exceeds the 4096 cells of the array. */
  method PrintCells(e: MsgLifeEvent) returns (out: string, panicked: bool)
    requires |e.cells| == SampleCells
    ensures panicked <==> !Fits(e)
    ensures !panicked ==> out == Render(e)
  {
    panicked := false;
    out := Home;
    var x: U32 := 0;
    while x < e.width
      invariant x <= e.width
      invariant out == Home + Labels(x)
    {
      AppendAssoc(Home, Labels(x), Pad2(x));
      out := out + Pad2(x);
      x := x + 1;
    }
    out := out + "\n";
    var y: U32 := 0;
    while y < e.height
      invariant y <= e.height
      invariant Area(e.width, y) <= SampleCells && !panicked
      invariant out == Header(e) + Rows(e, y)
    {
      out := out + Pad2(y);
      var glyphs;
      glyphs, panicked := PrintGlyphs(e, y);
      if panicked {
        AreaMonotone(e.width, y + 1, e.height);
        AreaIsProduct(e.width, e.height);
        return;
      }
      assert out + glyphs + NextLine == Header(e) + Rows(e, y + 1) by {
        ghost var prefix := Header(e) + Rows(e, y);
        AppendAssoc(prefix, Pad2(y), glyphs);
        AppendAssoc(prefix, Pad2(y) + glyphs, NextLine);
        AppendAssoc(Header(e), Rows(e, y), Row(e, y));
      }
      out := out + glyphs + NextLine;
      y := y + 1;
    }
    AreaIsProduct(e.width, e.height);
    out := out + Trailer(e);
  }
}
