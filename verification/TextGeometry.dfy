/** Characters as bitmaps, and where a line of text lands on the screen. */
module TextGeometry {
  import opened CInt
  import opened Geometry
  import opened Frame

  /** A font: one bitmap per printable character, row by row, each row padded to whole bytes. */
  datatype Font = Font(width: nat, height: nat, table: seq<int>)

  function RowBytes(f: Font): nat { (f.width + 7) / 8 }

  predicate ValidFont(f: Font) {
    && 1 <= f.width <= 24
    && |f.table| == 95 * f.height * RowBytes(f)
    && forall i :: 0 <= i < |f.table| ==> 0 <= f.table[i] < 0x100
  }

  predicate Printable(c: int) { 0x20 <= c <= 0x7E }

  function Pow2(n: nat): nat {
    if n == 0 then 1 else 2 * Pow2(n - 1)
  }

  predicate Bit(v: nat, n: nat)
  {
    Pow2Positive(n);
    v / Pow2(n) % 2 == 1
  }

  lemma {:induction false} Pow2Positive(n: nat)
    ensures Pow2(n) > 0
  {
    if n > 0 { Pow2Positive(n - 1); }
  }

  /** Where row i of character c starts in the table. */
  function RowStart(f: Font, c: int, i: nat): int {
    (c - 0x20) * f.height * RowBytes(f) + RowBytes(f) * i
  }

  lemma RowInTable(f: Font, c: int, i: nat)
    requires ValidFont(f) && Printable(c) && i < f.height
    ensures 0 <= RowStart(f, c, i) && RowStart(f, c, i) + RowBytes(f) <= |f.table|
  {
    RowOffset(c - 0x20, f.height, RowBytes(f), i);
  }

  /** The table holds the characters from the space on, one after the other, and each row by row. */
  lemma RowsInOrder(f: Font, c: int, i: nat)
    ensures RowStart(f, 0x20, 0) == 0
    ensures RowStart(f, c, i + 1) == RowStart(f, c, i) + (f.width + 7) / 8
    ensures RowStart(f, c + 1, 0) == RowStart(f, c, f.height)
    ensures RowStart(f, c, i) == ((c - 0x20) * f.height + i) * ((f.width + 7) / 8)
  {
    var k, h, b := c - 0x20, f.height, RowBytes(f);
    assert (k + 1) * h == k * h + h && (k * h + h) * b == k * h * b + h * b;
    assert (k * h + i) * b == k * h * b + i * b && b * (i + 1) == b * i + b;
  }

  lemma RowOffset(k: nat, h: nat, b: nat, i: nat)
    requires k < 95 && i < h
    ensures 0 <= k * h * b + b * i && k * h * b + b * i + b <= 95 * h * b
  {
    MulMono(0, k, h);
    MulMono(0, k * h, b);
    MulMono(0, i, b);
    MulMono(i + 1, h, b);
    MulMono(k + 1, 95, h);
    MulMono((k + 1) * h, 95 * h, b);
    assert (k + 1) * h == k * h + h && (k * h + h) * b == k * h * b + h * b;
    assert (i + 1) * b == b * i + b && i * b == b * i;
  }

  /** Pixel j of row i of character c: bits run from the most significant bit of the first
      byte of the row. */
  predicate Ink(f: Font, c: int, i: nat, j: nat)
    requires ValidFont(f) && Printable(c) && i < f.height && j < f.width
  {
    RowInTable(f, c, i);
    Bit(f.table[RowStart(f, c, i) + j / 8], 7 - j % 8)
  }

  // ---- the bits of a row of up to three bytes ----

  lemma Pow2Values()
    ensures Pow2(0) == 1 && Pow2(1) == 2 && Pow2(2) == 4 && Pow2(3) == 8
    ensures Pow2(4) == 16 && Pow2(5) == 32 && Pow2(6) == 64 && Pow2(7) == 128
  {
  }

  lemma Pow2Pair(t: nat)
    requires t < 8
    ensures Pow2(t) * Pow2(7 - t) == 128
  {
    Pow2Values();
    if t == 0 {} else if t == 1 {} else if t == 2 {} else if t == 3 {}
    else if t == 4 {} else if t == 5 {} else if t == 6 {} else {}
  }

  /** Pixel j of row i of a character, straight from the table. */
  lemma InkIsBit(f: Font, c: int, i: nat, j: nat)
    requires ValidFont(f) && Printable(c) && i < f.height && j < f.width
    ensures var at := ((c - 0x20) * f.height + i) * ((f.width + 7) / 8) + j / 8;
      && 0 <= at < |f.table|
      && (Ink(f, c, i, j) <==> f.table[at] / [0x80, 0x40, 0x20, 0x10, 8, 4, 2, 1][j % 8] % 2 == 1)
  {
    RowInTable(f, c, i);
    RowsInOrder(f, c, i);
    Pow2Values();
    hide Pow2, RowStart;
    var at := RowStart(f, c, i) + j / 8;
    BitByWeight(f.table[at], j % 8);
  }

  lemma BitByWeight(v: nat, k: nat)
    requires k < 8
    ensures Bit(v, 7 - k) <==> v / [0x80, 0x40, 0x20, 0x10, 8, 4, 2, 1][k] % 2 == 1
  {
    Pow2Values();
    if k == 0 {} else if k == 1 {} else if k == 2 {} else if k == 3 {}
    else if k == 4 {} else if k == 5 {} else if k == 6 {} else {}
  }

  /** The low bits of a two-part number are those of its low byte. */
  lemma LowBits(hi: nat, b: nat, t: nat)
    requires b < 0x100 && t < 8
    ensures Bit(hi * 0x100 + b, t) == Bit(b, t)
  {
    hide Pow2;
    Pow2Pair(t);
    Pow2Positive(t);
    var m, n := Pow2(t), Pow2(7 - t);
    var q, r := b / m, b % m;
    assert b == q * m + r;
    Regroup(hi, m, n, q);
    QuotientIsUnique(hi * 0x100 + b, m, 2 * (hi * n) + q, r);
    EvenPart(hi * n, q);
  }

  lemma EvenPart(a: int, q: int)
    ensures (2 * a + q) % 2 == q % 2
  {
  }

  lemma Regroup(hi: nat, m: nat, n: nat, q: nat)
    requires m * n == 128
    ensures (2 * (hi * n) + q) * m == hi * 0x100 + q * m
  {
    assert (hi * n) * m == hi * (m * n);
  }

  /** The bits above are those of the part above. */
  lemma HighBits(hi: nat, b: nat, t: nat)
    requires b < 0x100
    ensures Bit(hi * 0x100 + b, t + 8) == Bit(hi, t)
  {
    Pow2Positive(t);
    Pow2Plus8(t);
    var m := Pow2(t);
    var q, r := hi / m, hi % m;
    assert hi == q * m + r;
    var x := hi * 0x100 + b;
    assert x == q * (m * 0x100) + (r * 0x100 + b) by {
      assert hi * 0x100 == q * (m * 0x100) + r * 0x100;
    }
    QuotientIsUnique(x, m * 0x100, q, r * 0x100 + b);
  }

  lemma Pow2Plus8(t: nat)
    ensures Pow2(t + 8) == Pow2(t) * 0x100
  {
    assert Pow2(t + 8) == 2 * Pow2(t + 7);
    assert Pow2(t + 7) == 2 * Pow2(t + 6);
    assert Pow2(t + 6) == 2 * Pow2(t + 5);
    assert Pow2(t + 5) == 2 * Pow2(t + 4);
    assert Pow2(t + 4) == 2 * Pow2(t + 3);
    assert Pow2(t + 3) == 2 * Pow2(t + 2);
    assert Pow2(t + 2) == 2 * Pow2(t + 1);
  }

  /** The word the drawing loop assembles from one row. */
  function Line(row: seq<int>): nat
    requires 1 <= |row| <= 3 && forall k :: 0 <= k < |row| ==> 0 <= row[k] < 0x100
  {
    if |row| == 1 then row[0]
    else if |row| == 2 then row[0] * 0x100 + row[1]
    else (row[0] * 0x100 + row[1]) * 0x100 + row[2]
  }

  /** Counting the bits of the word down from the top is reading the bytes in order. */
  lemma LineBits(row: seq<int>, j: nat)
    requires 1 <= |row| <= 3 && forall k :: 0 <= k < |row| ==> 0 <= row[k] < 0x100
    requires j < 8 * |row|
    ensures Bit(Line(row), 8 * |row| - 1 - j) == Bit(row[j / 8], 7 - j % 8)
  {
    var n := |row| - 1 - j / 8;
    var t := 7 - j % 8;
    assert 8 * |row| - 1 - j == 8 * n + t;
    if n == 0 {
      if |row| == 2 {
        LowBits(row[0], row[1], t);
      } else if |row| == 3 {
        LowBits(row[0] * 0x100 + row[1], row[2], t);
      }
    } else if n == 1 {
      if |row| == 2 {
        HighBits(row[0], row[1], t);
      } else {
        HighBits(row[0] * 0x100 + row[1], row[2], t);
        LowBits(row[0], row[1], t);
      }
    } else {
      HighBits(row[0] * 0x100 + row[1], row[2], t + 8);
      HighBits(row[0], row[1], t);
    }
  }

  /** The word assembled from row i of a character has the bitmap of that row in its top bits. */
  lemma RowInk(f: Font, c: int, i: nat, j: nat, pchar: nat)
    requires ValidFont(f) && Printable(c) && i < f.height && j < f.width
    requires pchar == RowStart(f, c, i) && pchar + RowBytes(f) <= |f.table|
    ensures Bit(Line(f.table[pchar..pchar + RowBytes(f)]), f.width - j + (8 * RowBytes(f) - f.width) - 1)
      == Ink(f, c, i, j)
  {
    var row := f.table[pchar..pchar + RowBytes(f)];
    LineBits(row, j);
    assert row[j / 8] == f.table[pchar + j / 8];
  }

  // ---- placing a line of text ----

  datatype Align = CenterMode | RightMode | LeftMode

  /** The column the first character is drawn at. */
  function RefColumn(screen: nat, width: nat, xpos: nat, size: nat, mode: Align): nat
    requires width > 0
  {
    var xsize := screen / width;
    var slack := ToUint32(ToUint32(xsize - size) * width);
    var column := match mode
      case CenterMode => ToUint16(xpos + slack / 2)
      case LeftMode => ToUint16(xpos)
      case RightMode => ToUint16(slack - xpos);
    if column < 1 || column >= 0x8000 then 1 else column
  }

  /** How many characters are drawn. */
  function CharCount(screen: nat, width: nat, size: nat): nat
    requires width > 0
  {
    Min(size, screen / width)
  }

  predicate FitsLine(screen: nat, width: nat, xpos: nat, size: nat, mode: Align)
    requires width > 0
  {
    RefColumn(screen, width, xpos, size, mode) + CharCount(screen, width, size) * width <= screen
  }

  lemma WholeCells(screen: nat, width: nat, n: nat)
    requires width > 0
    ensures n <= screen / width ==> n * width <= screen / width * width <= screen
    ensures n < screen / width ==> n * width + width <= screen
    ensures screen / width * width + screen % width == screen
  {
    var xs := screen / width;
    if n <= xs {
      MulMono(n, xs, width);
    }
    if n < xs {
      MulMono(n + 1, xs, width);
      assert (n + 1) * width == n * width + width;
    }
  }

  lemma SlackIsExact(screen: nat, width: nat, size: nat)
    requires 0 < width <= screen < 0x8000 && size <= screen / width
    ensures 0 <= screen / width * width - size * width < 0x8000
    ensures ToUint32(ToUint32(screen / width - size) * width) == screen / width * width - size * width
  {
    hide ToUint32;
    Slack(screen, width, size, screen / width, screen % width);
  }

  lemma Slack(screen: nat, width: nat, size: nat, cells: nat, rest: nat)
    requires screen == cells * width + rest && screen < 0x8000 && size <= cells && width > 0
    ensures cells - size < 0x8000 && 0 <= (cells - size) * width == cells * width - size * width < 0x8000
    ensures size < cells ==> 0 < (cells - size) * width
  {
    MulMono(1, width, cells - size);
    assert (cells - size) * width == cells * width - size * width;
    MulMono(0, size, width);
  }

  /** Where a text that fits in one line starts: at xpos, or so that it ends xpos columns
      before the last whole cell, or with equal margins (the odd column on the right) and then
      moved by xpos.  A start of 0 is moved to column 1. */
  lemma Alignment(screen: nat, width: nat, xpos: nat, size: nat, mode: Align)
    requires 0 < width <= screen < 0x8000 && size <= screen / width
    ensures var line, text, start := screen / width * width, size * width, RefColumn(screen, width, xpos, size, mode);
      match mode
      case LeftMode => 1 <= xpos < 0x8000 ==> start == xpos
      case RightMode => xpos < line - text ==> start + text + xpos == line
      case CenterMode => 1 <= xpos + (line - text) / 2 < 0x8000 ==>
        var left := start - xpos; left <= line - text - left <= left + 1
  {
    hide ToUint32, ToUint16;
    SlackIsExact(screen, width, size);
  }

  /** The start column without unsigned arithmetic: no length of text makes the wrap-around of
      the subtraction matter. */
  function ExactColumn(screen: nat, width: nat, xpos: nat, size: nat, mode: Align): nat
    requires width > 0
  {
    var free := (screen / width - size) * width;
    var column := match mode
      case CenterMode => ToUint16(xpos + free / 2)
      case LeftMode => ToUint16(xpos)
      case RightMode => ToUint16(free - xpos);
    if column < 1 || column >= 0x8000 then 1 else column
  }

  lemma Modulo(v: int, u: int, m: int, n: int)
    requires m > 0 && v == u + m * n
    ensures v % m == u % m
  {
    var q, r := u / m, u % m;
    assert u == q * m + r && v == (q + n) * m + r by { assert (q + n) * m == q * m + m * n; }
    QuotientIsUnique(v, m, q + n, r);
    assert v == (v / m) * m + v % m;
  }

  lemma Unwrapped(v: int, width: nat)
    ensures ToUint32(ToUint32(v) * width) == ToUint32(v * width)
  {
    var M := 0x1_0000_0000;
    assert v == M * (v / M) + v % M;
    assert v * width == (v % M) * width + M * (v / M * width);
    Modulo(v * width, (v % M) * width, M, v / M * width);
  }

  lemma LowHalf(v: int, x: int)
    ensures ToUint16(ToUint32(v) - x) == ToUint16(v - x)
    ensures ToUint16(x + ToUint32(v) / 2) == ToUint16(x + v / 2)
  {
    var M, q := 0x1_0000_0000, v / 0x1_0000_0000;
    assert v == M * q + v % M;
    Modulo(v - x, v % M - x, 0x1_0000, 0x1_0000 * q);
    assert v / 2 == 0x8000_0000 * q + (v % M) / 2;
    Modulo(x + v / 2, x + (v % M) / 2, 0x1_0000, 0x8000 * q);
  }

  lemma ColumnIsExact(screen: nat, width: nat, xpos: nat, size: nat, mode: Align)
    requires width > 0
    ensures RefColumn(screen, width, xpos, size, mode) == ExactColumn(screen, width, xpos, size, mode)
  {
    hide ToUint16, ToUint32;
    var v := screen / width - size;
    Unwrapped(v, width);
    LowHalf(v * width, xpos);
  }

  /** The column asked for, before it is cut to 16 bits and moved on the screen. */
  function Asked(screen: nat, width: nat, xpos: nat, size: nat, mode: Align): int
    requires width > 0
  {
    var free := (screen / width - size) * width;
    match mode
    case CenterMode => xpos + free / 2
    case LeftMode => xpos
    case RightMode => free - xpos
  }

  /** A column asked for on the screen is the start; one left of column 1, or further right than
      the widest screen, is moved to column 1. */
  lemma StartFromAsked(screen: nat, width: nat, xpos: nat, size: nat, mode: Align)
    requires width > 0
    ensures var v := Asked(screen, width, xpos, size, mode);
      -0x8000 <= v < 0x1_0000 ==>
        ExactColumn(screen, width, xpos, size, mode) == if 1 <= v < 0x8000 then v else 1
  {
    hide CharCount;
    var v := Asked(screen, width, xpos, size, mode);
    if -0x8000 <= v < 0 {
      Modulo(v, v + 0x1_0000, 0x1_0000, -1);
    }
  }

  /** When a text stays on the screen, for any text, offset and alignment: if and only if it ends
      by the right edge from where it starts.  Mode by mode, the start is xpos (left), the free
      columns less xpos (right) or half of them plus xpos (centre), moved to column 1 when that is
      not on any screen.  A text shorter than a full line placed without an offset always fits; a
      full line without an offset does if and only if the character width does not divide the
      screen width, as long as the excess is at most 0x8000 columns. */
  lemma FitsIff(screen: nat, width: nat, xpos: nat, size: nat, mode: Align)
    requires 0 < width <= screen < 0x8000
    ensures FitsLine(screen, width, xpos, size, mode)
      <==> ExactColumn(screen, width, xpos, size, mode) + CharCount(screen, width, size) * width <= screen
    ensures var v, text := Asked(screen, width, xpos, size, mode), CharCount(screen, width, size) * width;
      -0x8000 <= v < 0x1_0000 ==>
        (FitsLine(screen, width, xpos, size, mode) <==> (if 1 <= v < 0x8000 then v else 1) + text <= screen)
    ensures size < screen / width && (xpos == 0 || (mode == RightMode && xpos < 0x8000)) ==>
      FitsLine(screen, width, xpos, size, mode)
    ensures xpos == 0 && (size - screen / width) * width <= 0x8000 ==>
      (FitsLine(screen, width, 0, size, mode) <==> size < screen / width || screen % width != 0)
  {
    hide ToUint16, ToUint32, Asked;
    ColumnIsExact(screen, width, xpos, size, mode);
    StartFromAsked(screen, width, xpos, size, mode);
    var xs := screen / width;
    WholeCells(screen, width, xs);
    WholeCells(screen, width, size);
    assert (xs - size) * width == xs * width - size * width;
    if size < xs {
      MulMono(1, xs - size, width);
      ShortColumn(screen, width, xpos, size, mode);
    } else if xpos == 0 {
      MulMono(0, size - xs, width);
      assert (size - xs) * width == -((xs - size) * width);
      if (size - xs) * width <= 0x8000 {
        FullColumn(screen, width, size, mode);
      }
    }
  }

  lemma ShortColumn(screen: nat, width: nat, xpos: nat, size: nat, mode: Align)
    requires 0 < width <= screen < 0x8000 && size < screen / width
    ensures xpos == 0 || (mode == RightMode && xpos < 0x8000) ==>
      ExactColumn(screen, width, xpos, size, mode) <= screen - size * width
  {
    Slack(screen, width, size, screen / width, screen % width);
  }

  lemma FullColumn(screen: nat, width: nat, size: nat, mode: Align)
    requires 0 < width && screen / width <= size && (size - screen / width) * width <= 0x8000
    ensures ExactColumn(screen, width, 0, size, mode) == 1
  {
    var free := (screen / width - size) * width;
    MulMono(0, size - screen / width, width);
    assert free == -((size - screen / width) * width);
  }

  // ---- the pixels of characters ----

  predicate InCell(f: Font, o: Pt, p: Pt) {
    o.x <= p.x < o.x + f.width && o.y <= p.y < o.y + f.height
  }

  ghost function CellInk(f: Font, c: int, o: Pt): iset<Pt>
    requires ValidFont(f) && Printable(c)
  {
    iset p: Pt | InCell(f, o, p) && Ink(f, c, p.y - o.y, p.x - o.x)
  }

  ghost function CellPaper(f: Font, c: int, o: Pt): iset<Pt>
    requires ValidFont(f) && Printable(c)
  {
    iset p: Pt | InCell(f, o, p) && !Ink(f, c, p.y - o.y, p.x - o.x)
  }

  /** The part of a cell drawn after i whole rows and j pixels of the next. */
  ghost function Started(o: Pt, i: nat, j: nat): iset<Pt> {
    iset p: Pt | p.y - o.y < i || (p.y - o.y == i && p.x - o.x < j)
  }

  predicate ValidText(text: seq<int>) { forall k :: 0 <= k < |text| ==> Printable(text[k]) }

  function CellAt(f: Font, o: Pt, k: nat): Pt { Pt(o.x + k * f.width, o.y) }

  ghost function TextInk(f: Font, text: seq<int>, o: Pt, n: nat): iset<Pt>
    requires ValidFont(f) && ValidText(text) && n <= |text|
  {
    if n == 0 then iset{} else TextInk(f, text, o, n - 1) + CellInk(f, text[n - 1], CellAt(f, o, n - 1))
  }

  ghost function TextPaper(f: Font, text: seq<int>, o: Pt, n: nat): iset<Pt>
    requires ValidFont(f) && ValidText(text) && n <= |text|
  {
    if n == 0 then iset{} else TextPaper(f, text, o, n - 1) + CellPaper(f, text[n - 1], CellAt(f, o, n - 1))
  }

  /** Ink in one colour, then paper in another, in the columns from left on. */
  ghost function Print(s: seq<Color>, w: nat, left: int, ink: iset<Pt>, paper: iset<Pt>, t: Color, b: Color): seq<Color>
    requires w > 0
  {
    PaintFrom(PaintFrom(s, w, left, ink, t), w, left, paper, b)
  }

  lemma PrintThen(s: seq<Color>, w: nat, left: int, ink: iset<Pt>, paper: iset<Pt>, ink': iset<Pt>, paper': iset<Pt>,
                  t: Color, b: Color)
    requires w > 0 && forall p :: p in ink' ==> p !in paper
    ensures Print(Print(s, w, left, ink, paper, t, b), w, left, ink', paper', t, b)
      == Print(s, w, left, ink + ink', paper + paper', t, b)
  {
  }

  lemma PrintNothing(s: seq<Color>, w: nat, left: int, t: Color, b: Color)
    requires w > 0
    ensures Print(s, w, left, iset{}, iset{}, t, b) == s
  {
  }

  lemma PrintNoText(s: seq<Color>, w: nat, f: Font, text: seq<int>, o: Pt, t: Color, b: Color)
    requires w > 0 && ValidFont(f) && ValidText(text)
    ensures Print(s, w, o.x, TextInk(f, text, o, 0), TextPaper(f, text, o, 0), t, b) == s
  {
    PrintNothing(s, w, o.x, t, b);
  }

  /** One more pixel of a character. */
  lemma PrintPixel(s: seq<Color>, w: nat, left: int, f: Font, c: int, o: Pt, i: nat, j: nat, t: Color, b: Color)
    requires w > 0 && ValidFont(f) && Printable(c) && i < f.height && j < f.width
    ensures var p := Pt(o.x + j, o.y + i);
      PaintFrom(Print(s, w, left, CellInk(f, c, o) * Started(o, i, j), CellPaper(f, c, o) * Started(o, i, j), t, b),
                w, left, iset{p}, if Ink(f, c, i, j) then t else b)
      == Print(s, w, left, CellInk(f, c, o) * Started(o, i, j + 1), CellPaper(f, c, o) * Started(o, i, j + 1), t, b)
  {
    var p := Pt(o.x + j, o.y + i);
    var A, B := CellInk(f, c, o) * Started(o, i, j), CellPaper(f, c, o) * Started(o, i, j);
    if Ink(f, c, i, j) {
      assert CellInk(f, c, o) * Started(o, i, j + 1) == A + iset{p};
      assert CellPaper(f, c, o) * Started(o, i, j + 1) == B;
      assert p !in B;
      PrintThen(s, w, left, A, B, iset{p}, iset{}, t, b);
      PaintFromNothing(PaintFrom(Print(s, w, left, A, B, t, b), w, left, iset{p}, t), w, left, b);
    } else {
      assert CellInk(f, c, o) * Started(o, i, j + 1) == A;
      assert CellPaper(f, c, o) * Started(o, i, j + 1) == B + iset{p};
      PaintFromThen(PaintFrom(s, w, left, A, t), w, left, B, iset{p}, b);
    }
  }

  lemma RowFinished(f: Font, c: int, o: Pt, i: nat)
    requires ValidFont(f) && Printable(c)
    ensures CellInk(f, c, o) * Started(o, i, f.width) == CellInk(f, c, o) * Started(o, i + 1, 0)
    ensures CellPaper(f, c, o) * Started(o, i, f.width) == CellPaper(f, c, o) * Started(o, i + 1, 0)
  {
  }

  lemma CellStartsAndEnds(f: Font, c: int, o: Pt)
    requires ValidFont(f) && Printable(c)
    ensures CellInk(f, c, o) * Started(o, 0, 0) == iset{} && CellPaper(f, c, o) * Started(o, 0, 0) == iset{}
    ensures CellInk(f, c, o) * Started(o, f.height, 0) == CellInk(f, c, o)
    ensures CellPaper(f, c, o) * Started(o, f.height, 0) == CellPaper(f, c, o)
  {
  }

  /** Cells further left hold no pixel of this cell. */
  lemma {:induction false} TextLeftOf(f: Font, text: seq<int>, o: Pt, n: nat, p: Pt)
    requires ValidFont(f) && ValidText(text) && n <= |text|
    requires p in TextPaper(f, text, o, n) || p in TextInk(f, text, o, n)
    ensures p.x < CellAt(f, o, n).x
  {
    hide Ink;
    assert CellAt(f, o, n).x == CellAt(f, o, n - 1).x + f.width by {
      assert n * f.width == (n - 1) * f.width + f.width;
    }
    if p in TextPaper(f, text, o, n - 1) || p in TextInk(f, text, o, n - 1) {
      TextLeftOf(f, text, o, n - 1, p);
    }
  }

  lemma TextGrows(s: seq<Color>, w: nat, f: Font, text: seq<int>, o: Pt, n: nat, t: Color, b: Color)
    requires w > 0 && ValidFont(f) && ValidText(text) && n < |text|
    ensures Print(Print(s, w, o.x, TextInk(f, text, o, n), TextPaper(f, text, o, n), t, b), w, o.x,
                  CellInk(f, text[n], CellAt(f, o, n)), CellPaper(f, text[n], CellAt(f, o, n)), t, b)
      == Print(s, w, o.x, TextInk(f, text, o, n + 1), TextPaper(f, text, o, n + 1), t, b)
  {
    forall p | p in CellInk(f, text[n], CellAt(f, o, n))
      ensures p !in TextPaper(f, text, o, n)
    {
      if p in TextPaper(f, text, o, n) {
        TextLeftOf(f, text, o, n, p);
      }
    }
    PrintThen(s, w, o.x, TextInk(f, text, o, n), TextPaper(f, text, o, n),
              CellInk(f, text[n], CellAt(f, o, n)), CellPaper(f, text[n], CellAt(f, o, n)), t, b);
  }

  /** A text that stays within the screen is printed in plain screen coordinates. */
  lemma PrintOnScreen(s: seq<Color>, w: nat, f: Font, text: seq<int>, o: Pt, n: nat, t: Color, b: Color)
    requires w > 0 && ValidFont(f) && ValidText(text) && n <= |text| && 0 <= o.x && CellAt(f, o, n).x <= w
    ensures Print(s, w, o.x, TextInk(f, text, o, n), TextPaper(f, text, o, n), t, b)
      == Paint(Paint(s, w, TextInk(f, text, o, n), t), w, TextPaper(f, text, o, n), b)
  {
    forall p | p in TextInk(f, text, o, n) || p in TextPaper(f, text, o, n)
      ensures o.x <= p.x < CellAt(f, o, n).x
    {
      TextLeftOf(f, text, o, n, p);
      TextStaysInCells(f, text, o, n, p);
      var k :| 0 <= k < n && InCell(f, CellAt(f, o, k), p);
      MulMono(0, k, f.width);
    }
    PaintFromOnScreen(s, w, o.x, TextInk(f, text, o, n), t);
    PaintFromOnScreen(Paint(s, w, TextInk(f, text, o, n), t), w, o.x, TextPaper(f, text, o, n), b);
  }

  /** Reading a printed text back from the buffer: the word for pixel j of row i of the k-th cell has
      the ink colour where the table has a one bit, and the paper colour where it has a zero. */
  lemma TextShows(s: seq<Color>, w: nat, f: Font, text: seq<int>, o: Pt, n: nat, t: Color, b: Color,
                  k: nat, i: nat, j: nat)
    requires w > 0 && ValidFont(f) && ValidText(text) && k < n <= |text| && n * f.width <= w
    requires i < f.height && j < f.width && 0 <= (o.y + i) * w + (o.x + k * f.width + j) < |s|
    ensures var r := Print(s, w, o.x, TextInk(f, text, o, n), TextPaper(f, text, o, n), t, b);
      var at := ((text[k] - 0x20) * f.height + i) * ((f.width + 7) / 8) + j / 8;
      && 0 <= at < |f.table|
      && r[(o.y + i) * w + (o.x + k * f.width + j)]
           == if f.table[at] / [0x80, 0x40, 0x20, 0x10, 8, 4, 2, 1][j % 8] % 2 == 1 then t else b
  {
    hide Ink, ValidFont, TextInk, TextPaper, CellInk, CellPaper, PointFrom, Print, RowBytes;
    InkIsBit(f, text[k], i, j);
    InRange(k, n, f.width, j);
    var p := Pt(o.x + k * f.width + j, o.y + i);
    WordFrom(w, o.x, p.x, p.y);
    CellShowsInk(f, text[k], CellAt(f, o, k), i, j);
    CellsShowTheirCharacter(f, text, o, n, k, p);
    PrintedWord(s, w, o.x, TextInk(f, text, o, n), TextPaper(f, text, o, n), t, b, p.y * w + p.x);
  }

  lemma InRange(k: nat, n: nat, width: nat, j: nat)
    requires k < n && j < width
    ensures 0 <= k * width + j < n * width
  {
    MulMono(0, k, width);
    MulMono(k + 1, n, width);
    assert (k + 1) * width == k * width + width;
  }

  lemma CellShowsInk(f: Font, c: int, o: Pt, i: nat, j: nat)
    requires ValidFont(f) && Printable(c) && i < f.height && j < f.width
    ensures var p := Pt(o.x + j, o.y + i);
      InCell(f, o, p) && (p in CellInk(f, c, o) <==> Ink(f, c, i, j)) && (p in CellPaper(f, c, o) <==> !Ink(f, c, i, j))
  {
    hide Ink;
  }

  lemma PrintedWord(s: seq<Color>, w: nat, left: int, ink: iset<Pt>, paper: iset<Pt>, t: Color, b: Color, a: nat)
    requires w > 0 && a < |s|
    ensures var p := PointFrom(w, left, a);
      Print(s, w, left, ink, paper, t, b)[a] == if p in paper then b else if p in ink then t else s[a]
  {
    hide PointFrom;
  }

  /** Only words of the cells change. */
  lemma TextTouches(s: seq<Color>, w: nat, f: Font, text: seq<int>, o: Pt, n: nat, t: Color, b: Color, a: nat)
    returns (k: nat, i: nat, j: nat)
    requires w > 0 && ValidFont(f) && ValidText(text) && n <= |text| && a < |s|
    requires Print(s, w, o.x, TextInk(f, text, o, n), TextPaper(f, text, o, n), t, b)[a] != s[a]
    ensures k < n && i < f.height && j < f.width && a == (o.y + i) * w + (o.x + k * f.width + j)
  {
    hide Ink, ValidFont, TextInk, TextPaper, PointFrom, Print;
    var p := PointFrom(w, o.x, a);
    PrintedWord(s, w, o.x, TextInk(f, text, o, n), TextPaper(f, text, o, n), t, b, a);
    PointFromInverse(w, o.x, a);
    TextStaysInCells(f, text, o, n, p);
    k :| 0 <= k < n && InCell(f, CellAt(f, o, k), p);
    i, j := p.y - o.y, p.x - (o.x + k * f.width);
  }

  lemma NextCell(f: Font, o: Pt, i: nat, n: nat)
    requires i < n
    ensures CellAt(f, o, i + 1).x == CellAt(f, o, i).x + f.width
    ensures o.x <= CellAt(f, o, i).x && CellAt(f, o, i + 1).x <= CellAt(f, o, n).x
  {
    assert (i + 1) * f.width == i * f.width + f.width;
    MulMono(i + 1, n, f.width);
    MulMono(0, i, f.width);
  }

  lemma CellsAreDisjoint(f: Font, o: Pt, k: nat, m: nat, p: Pt)
    requires k < m && InCell(f, CellAt(f, o, k), p)
    ensures !InCell(f, CellAt(f, o, m), p)
  {
    MulMono(k + 1, m, f.width);
    assert (k + 1) * f.width == k * f.width + f.width;
  }

  lemma OutsideCell(f: Font, c: int, o: Pt, p: Pt)
    requires ValidFont(f) && Printable(c) && !InCell(f, o, p)
    ensures p !in CellInk(f, c, o) && p !in CellPaper(f, c, o)
  {
  }

  /** Each pixel of each cell belongs to exactly the bitmap of the character of that cell. */
  lemma {:induction false} CellsShowTheirCharacter(f: Font, text: seq<int>, o: Pt, n: nat, k: nat, p: Pt)
    requires ValidFont(f) && ValidText(text) && k < n <= |text| && InCell(f, CellAt(f, o, k), p)
    ensures p in TextInk(f, text, o, n) <==> p in CellInk(f, text[k], CellAt(f, o, k))
    ensures p in TextPaper(f, text, o, n) <==> p in CellPaper(f, text[k], CellAt(f, o, k))
    decreases n
  {
    hide CellInk, CellPaper, ValidFont, CellAt;
    if k < n - 1 {
      CellsShowTheirCharacter(f, text, o, n - 1, k, p);
      CellsAreDisjoint(f, o, k, n - 1, p);
      OutsideCell(f, text[n - 1], CellAt(f, o, n - 1), p);
    } else if p in TextInk(f, text, o, n - 1) || p in TextPaper(f, text, o, n - 1) {
      TextLeftOf(f, text, o, n - 1, p);
    }
  }

  /** No pixel outside the cells is touched. */
  lemma {:induction false} TextStaysInCells(f: Font, text: seq<int>, o: Pt, n: nat, p: Pt)
    requires ValidFont(f) && ValidText(text) && n <= |text|
    requires p in TextInk(f, text, o, n) || p in TextPaper(f, text, o, n)
    ensures exists k :: 0 <= k < n && InCell(f, CellAt(f, o, k), p)
  {
    hide Ink, ValidFont, CellAt;
    if p in TextInk(f, text, o, n - 1) || p in TextPaper(f, text, o, n - 1) {
      TextStaysInCells(f, text, o, n - 1, p);
    } else {
      assert InCell(f, CellAt(f, o, n - 1), p);
    }
  }

  // ---- the loop over the characters ----

  /** The pixels left in the line after i characters, as the loop test computes them. */
  function LineRoom(screen: nat, i: int, width: nat): int {
    ToUint16(screen - i * width)
  }

  /** After i characters the loop goes on exactly while whole cells are left in a line, wherever
      the text starts. */
  lemma LoopTestHolds(screen: nat, width: nat, size: nat, i: nat)
    requires 0 < width && screen < 0x8000 && i <= CharCount(screen, width, size)
    ensures (i < size && LineRoom(screen, i, width) >= width) <==> i < CharCount(screen, width, size)
    ensures i < CharCount(screen, width, size) ==> (i + 1) * width <= screen && i + 1 < 0x8000
  {
    hide ToUint16;
    WholeCells(screen, width, i);
    RoomForMore(screen, width, i, screen / width, screen % width);
  }

  lemma RoomForMore(screen: nat, width: nat, i: nat, cells: nat, rest: nat)
    requires screen == cells * width + rest && rest < width && i <= cells
    ensures 0 <= screen - i * width <= screen && (screen - i * width >= width <==> i < cells)
    ensures i < cells ==> i + 1 <= (i + 1) * width <= screen
  {
    MulMono(0, i, width);
    MulMono(i, cells, width);
    assert (i + 1) * width == i * width + width;
    MulMono(1, width, i + 1);
    if i < cells {
      MulMono(i + 1, cells, width);
    }
  }
}
