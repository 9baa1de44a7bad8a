/** The half-block compositor. A pixel buffer twice as tall as the screen
    area is cut into rows of `area.width` pixels; rows `2r` and `2r + 1` are
    zipped column by column into pairs, and the pairs are enumerated row
    after row. Pair `i` lands on the cell at column `left + i % width`, row
    `top + i / width`: the top pixel colours the foreground of an upper half
    block, the bottom pixel its background, and a transparent pixel leaves
    its half of the cell as it was.

    The terminal buffer is a class over an array of cells, written in place;
    the pipeline of slices and iterators that produces the pairs is a chain
    of functions on sequences, each with its indexing law. */
module FaceWidget {
  import opened Common
  import Raster

  // ---------------------------------------------------------------------------
  // Cells

  /** `'▀'`, the upper half block: its foreground fills the top half of the
      cell and its background the bottom half. */
  const HalfBlock: string := "\U{2580}"

  /** A terminal colour: the default, one of the 256 indexed colours, or true
      colour. */
  datatype Color = Reset | Indexed(index: u8) | Rgb(red: u8, green: u8, blue: u8)

  /** The part of a terminal cell the compositor touches. */
  datatype Cell = Cell(symbol: string, fg: Color, bg: Color)

  predicate Transparent(p: Raster.Pixel)
  {
    p.alpha == 0
  }

  function RgbOf(p: Raster.Pixel): Color
  {
    Rgb(p.red, p.green, p.blue)
  }

  /** The per-cell rule, as the sequence of setter calls on the cell: nothing
      when both pixels are transparent; otherwise the half block, then the
      foreground from an opaque top pixel, then the background from an opaque
      bottom pixel. */
  function Composite(cell: Cell, top: Raster.Pixel, bottom: Raster.Pixel): (r: Cell)
    ensures Transparent(top) && Transparent(bottom) ==> r == cell
    ensures !(Transparent(top) && Transparent(bottom)) ==> r.symbol == HalfBlock
    ensures r.fg == (if Transparent(top) then cell.fg else RgbOf(top))
    ensures r.bg == (if Transparent(bottom) then cell.bg else RgbOf(bottom))
  {
    if Transparent(top) && Transparent(bottom) then cell
    else
      var glyph := cell.(symbol := HalfBlock);
      var withFg := if Transparent(top) then glyph else glyph.(fg := RgbOf(top));
      if Transparent(bottom) then withFg else withFg.(bg := RgbOf(bottom))
  }

  /** Two opaque pixels decide the whole cell: what was there before is
      overwritten entirely. */
  lemma OpaquePairOverwrites(c1: Cell, c2: Cell, top: Raster.Pixel, bottom: Raster.Pixel)
    requires !Transparent(top) && !Transparent(bottom)
    ensures Composite(c1, top, bottom) == Composite(c2, top, bottom) == Cell(HalfBlock, RgbOf(top), RgbOf(bottom))
  {
  }

  // ---------------------------------------------------------------------------
  // From pixels to pairs

  /** `chunks_exact(w)`: consecutive rows of exactly `w` pixels; a shorter
      remainder at the end is dropped. */
  function ChunksExact(p: seq<Raster.Pixel>, w: nat): (rows: seq<seq<Raster.Pixel>>)
    requires w > 0
    ensures |rows| == |p| / w
    ensures forall k :: 0 <= k < |rows| ==> |rows[k]| == w
    decreases |p|
  {
    if |p| < w then []
    else
      DivStep(|p|, w);
      [p[..w]] + ChunksExact(p[w..], w)
  }

  /** Where row `k` starts when rows of `w` items are laid end to end. */
  function RowStart(k: nat, w: nat): nat
  {
    if k == 0 then 0 else RowStart(k - 1, w) + w
  }

  lemma {:induction false} RowStartIsProduct(k: nat, w: nat)
    ensures RowStart(k, w) == k * w
  {
    if k > 0 {
      RowStartIsProduct(k - 1, w);
      MulPred(k, w);
    }
  }

  /** Row `k` of the chunks holds the `w` pixels from `RowStart(k, w)` on. */
  lemma {:induction false} ChunksAt(p: seq<Raster.Pixel>, w: nat, k: nat, c: nat)
    requires w > 0 && k < |ChunksExact(p, w)| && c < w
    ensures RowStart(k, w) + c < |p|
    ensures ChunksExact(p, w)[k][c] == p[RowStart(k, w) + c]
    decreases k
  {
    if k > 0 {
      ChunksAt(p[w..], w, k - 1, c);
    }
  }

  /** `array_chunks::<2>()`: consecutive pairs of rows; an unpaired last row
      is dropped. */
  function PairUp<T>(rows: seq<T>): (pairs: seq<(T, T)>)
    ensures |pairs| == |rows| / 2
    ensures forall r :: 0 <= r < |pairs| ==> pairs[r] == (rows[2 * r], rows[2 * r + 1])
    decreases |rows|
  {
    if |rows| < 2 then [] else [(rows[0], rows[1])] + PairUp(rows[2..])
  }

  /** `a.iter().zip(b.iter())`: stops at the shorter side. */
  function Zip<T>(a: seq<T>, b: seq<T>): (z: seq<(T, T)>)
    ensures |z| == if |a| <= |b| then |a| else |b|
    ensures forall c :: 0 <= c < |z| ==> z[c] == (a[c], b[c])
  {
    var n := if |a| <= |b| then |a| else |b|;
    seq(n, c requires 0 <= c < n => (a[c], b[c]))
  }

  /** `.map(zip).flatten()` over pairs of rows that are all `w` long: the
      pairs of the first two rows, then those of the next two, and so on. */
  function ZipRows<T>(pairs: seq<(seq<T>, seq<T>)>, w: nat): (cells: seq<(T, T)>)
    requires forall r :: 0 <= r < |pairs| ==> |pairs[r].0| == w && |pairs[r].1| == w
    ensures |cells| == RowStart(|pairs|, w)
    decreases |pairs|
  {
    if pairs == [] then [] else Zip(pairs[0].0, pairs[0].1) + ZipRows(pairs[1..], w)
  }

  /** Pair `c` of row pair `r` sits at `RowStart(r, w) + c` of the flattened
      sequence. */
  lemma {:induction false} ZipRowsAt<T>(pairs: seq<(seq<T>, seq<T>)>, w: nat, r: nat, c: nat)
    requires forall r :: 0 <= r < |pairs| ==> |pairs[r].0| == w && |pairs[r].1| == w
    requires r < |pairs| && c < w
    ensures RowStart(r, w) + c < |ZipRows(pairs, w)|
    ensures ZipRows(pairs, w)[RowStart(r, w) + c] == (pairs[r].0[c], pairs[r].1[c])
    decreases r
  {
    if r > 0 {
      ZipRowsAt(pairs[1..], w, r - 1, c);
    }
  }

  /** The pairs `render_ref` enumerates, row of pairs after row of pairs:
      `w` pairs for every two complete pixel rows. */
  function Pairs(p: seq<Raster.Pixel>, w: nat): (cells: seq<(Raster.Pixel, Raster.Pixel)>)
    requires w > 0
    ensures |cells| == CellRows(|p|, w) * w
  {
    var cells := ZipRows(PairUp(ChunksExact(p, w)), w);
    RowStartIsProduct(CellRows(|p|, w), w);
    cells
  }

  /** Pair `RowStart(r, w) + c` is the pixel in column `c` of pixel rows
      `2r` (top) and `2r + 1` (bottom). */
  lemma PairsAtRow(p: seq<Raster.Pixel>, w: nat, r: nat, c: nat)
    requires w > 0 && r < CellRows(|p|, w) && c < w
    ensures RowStart(r, w) + c < |Pairs(p, w)|
    ensures RowStart(2 * r + 1, w) + c < |p|
    ensures Pairs(p, w)[RowStart(r, w) + c] == (p[RowStart(2 * r, w) + c], p[RowStart(2 * r + 1, w) + c])
  {
    var rows := ChunksExact(p, w);
    var paired := PairUp(rows);
    assert r < |paired| && 2 * r + 1 < |rows|;
    assert Pairs(p, w) == ZipRows(paired, w);
    ZipRowsAt(paired, w, r, c);
    assert paired[r] == (rows[2 * r], rows[2 * r + 1]);
    ChunksAt(p, w, 2 * r, c);
    ChunksAt(p, w, 2 * r + 1, c);
  }

  /** Pair `r * w + c` is the pixel in column `c` of pixel rows `2r` (top)
      and `2r + 1` (bottom). */
  lemma PairsAt(p: seq<Raster.Pixel>, w: nat, r: nat, c: nat)
    requires w > 0 && r < CellRows(|p|, w) && c < w
    ensures r * w + c < |Pairs(p, w)|
    ensures 0 <= 2 * r * w + c < (2 * r + 1) * w + c < |p|
    ensures Pairs(p, w)[r * w + c] == (p[2 * r * w + c], p[(2 * r + 1) * w + c])
  {
    PairsAtRow(p, w, r, c);
    RowStartIsProduct(r, w);
    RowStartIsProduct(2 * r, w);
    RowStartIsProduct(2 * r + 1, w);
  }

  /** The number of cell rows a buffer of `len` pixels fills at width `w`. */
  function CellRows(len: nat, w: nat): nat
    requires w > 0
  {
    len / w / 2
  }

  /** The cell rows cover the complete pairs of pixel rows: `2 * rows` full
      rows fit in the buffer, and what is left is less than two rows. */
  lemma CellRowsBounds(len: nat, w: nat)
    requires w > 0
    ensures 2 * CellRows(len, w) * w <= len < 2 * (CellRows(len, w) + 1) * w
  {
    DivMod(len, w);
    DivMod(len / w, 2);
    MulLe(len / w / 2 * 2, len / w, w);
    MulLe(len / w + 1, len / w / 2 * 2 + 2, w);
  }

  // ---------------------------------------------------------------------------
  // Where a pair lands

  /** The cell of pair `i`, computed on unbounded integers. */
  function CellOf(i: nat, w: nat, left: int, top: int): (pos: (int, int))
    requires w > 0
    ensures left <= pos.0 < left + w && top <= pos.1
  {
    (left + i % w, top + i / w)
  }

  /** The cell of pair `i` as `render_ref` computes it: `i as u16` keeps the
      low 16 bits of the pair index before the division by the width. */
  function CellOfAsWritten(i: nat, w: u16, left: u16, top: u16): (pos: (int, int))
    requires w > 0
    ensures left as int <= pos.0 < left as int + w as int && top as int <= pos.1
  {
    var truncated := i % 0x1_0000;
    (left as int + truncated % w as int, top as int + truncated / w as int)
  }

  /** The pair whose cell is `(x, y)`, when that cell lies in the `w` columns
      from `left` at or below `top`. */
  function PairOf(x: int, y: int, w: nat, left: int, top: int): (j: Option<nat>)
    requires w > 0
    ensures j.Some? <==> left <= x < left + w && top <= y
  {
    if left <= x < left + w && top <= y then Some((y - top) * w + (x - left)) else None
  }

  /** Different pairs land on different cells: the pair of the cell of `i`
      is `i`, and the cell of the pair of a cell is that cell. */
  lemma CellOfPairOf(i: nat, x: int, y: int, w: nat, left: int, top: int)
    requires w > 0
    ensures PairOf(CellOf(i, w, left, top).0, CellOf(i, w, left, top).1, w, left, top) == Some(i)
    ensures PairOf(x, y, w, left, top) == Some(i) ==> CellOf(i, w, left, top) == (x, y)
  {
    DivMod(i, w);
    if PairOf(x, y, w, left, top) == Some(i) {
      DivModUnique(y - top, x - left, w);
    }
  }

  /** Below 65536 pairs the truncation is invisible. */
  lemma AsWrittenAgreesBelow(i: nat, w: u16, left: u16, top: u16)
    requires w > 0 && i < 0x1_0000
    ensures CellOfAsWritten(i, w, left, top) == CellOf(i, w as nat, left as int, top as int)
  {
  }

  /** A 300-column area has more than 65536 pairs once it is 219 rows tall;
      there pair 65536 lands on the top-left cell, already painted by pair 0,
      instead of column 136 of row 218. */
  lemma TruncatedPairOverwritesFirst(left: u16, top: u16)
    ensures CellOfAsWritten(0x1_0000, 300, left, top) == CellOfAsWritten(0, 300, left, top)
                                                    == (left as int, top as int)
    ensures CellOf(0x1_0000, 300, left as int, top as int) == (left as int + 136, top as int + 218)
  {
  }

  // ---------------------------------------------------------------------------
  // The terminal buffer

  /** `Buffer::index_of`: the position in the row-major cell array of the
      cell at column `x`, row `y`, or nothing outside the area (`cell_mut`
      returns `None`). */
  function IndexIn(area: Rect, x: int, y: int): (k: Option<nat>)
    ensures k.Some? <==> Contains(area, x, y)
    ensures k.Some? ==> k.value < area.width as int * area.height as int
  {
    if Contains(area, x, y) then
      var k := (y - area.y as int) * area.width as int + (x - area.x as int);
      assert k < area.width as int * area.height as int by {
        RowMajorBound(y - area.y as int, x - area.x as int, area.width as int, area.height as int);
      }
      Some(k)
    else None
  }

  /** `Buffer::pos_of`: the column and row of the `k`-th cell. */
  function PosIn(area: Rect, k: nat): (int, int)
  {
    if area.width == 0 then (area.x as int, area.y as int)
    else (area.x as int + k % area.width as int, area.y as int + k / area.width as int)
  }

  /** Every index of an area that fits the `u16` plane has a position
      inside the area, and that position has this index. */
  lemma PosIndexRoundTrip(area: Rect, k: nat)
    requires area.x as int + area.width as int <= U16Max && area.y as int + area.height as int <= U16Max
    requires k < area.width as int * area.height as int
    ensures Contains(area, PosIn(area, k).0, PosIn(area, k).1)
    ensures IndexIn(area, PosIn(area, k).0, PosIn(area, k).1) == Some(k)
  {
    var w := area.width as int;
    var h := area.height as int;
    assert w > 0;
    var q := k / w;
    var r := k % w;
    DivMod(k, w);
    DivBelow(k, w, h);
    assert PosIn(area, k) == (area.x as int + r, area.y as int + q);
    assert Right(area) == area.x as int + w && Bottom(area) == area.y as int + h;
    assert (area.y as int + q - area.y as int) * w + (area.x as int + r - area.x as int) == k;
  }

  /** Every position inside an area has an index, and that index has this
      position. */
  lemma IndexPosRoundTrip(area: Rect, x: int, y: int)
    ensures IndexIn(area, x, y).Some? ==> PosIn(area, IndexIn(area, x, y).value) == (x, y)
  {
    if Contains(area, x, y) {
      var w := area.width as int;
      var row := y - area.y as int;
      var column := x - area.x as int;
      DivModUnique(row, column, w);
      assert IndexIn(area, x, y).value == row * w + column;
    }
  }

  /** `ratatui::Buffer`: an area and its cells, row after row. */
  class Buffer {
    var area: Rect
    var content: array<Cell>

    /** One cell per position, and an area that does not run past the
        largest `u16` coordinate (which `Rect::new` guarantees). */
    ghost predicate Valid()
      reads this
    {
      content.Length == area.width as int * area.height as int
      && area.x as int + area.width as int <= U16Max && area.y as int + area.height as int <= U16Max
    }
  }

  // ---------------------------------------------------------------------------
  // Rendering

  /** `FaceScreen`: a view of a rasterized face. */
  datatype FaceScreen = FaceScreen(pixmap: Raster.Pixmap)

  /** The cell at `pos` once the first `n` pairs have been drawn into the `w`
      columns from `left`, rows from `top`. */
  function PaintedUpTo(cells: seq<(Raster.Pixel, Raster.Pixel)>, w: nat, left: int, top: int, n: nat,
                       pos: (int, int), cell: Cell): Cell
    requires w > 0 && n <= |cells|
  {
    match PairOf(pos.0, pos.1, w, left, top)
    case Some(j) => if j < n then Composite(cell, cells[j].0, cells[j].1) else cell
    case None => cell
  }

  /** A cell is composited with the pair that lands on it if that pair is
      among the first `n`, and is as it was when none of them does. */
  lemma PaintedUpToSpec(cells: seq<(Raster.Pixel, Raster.Pixel)>, w: nat, left: int, top: int, n: nat,
                        pos: (int, int), cell: Cell)
    requires w > 0 && n <= |cells|
    ensures forall j :: 0 <= j < n && CellOf(j, w, left, top) == pos ==>
              PaintedUpTo(cells, w, left, top, n, pos, cell) == Composite(cell, cells[j].0, cells[j].1)
    ensures (forall j :: 0 <= j < n ==> CellOf(j, w, left, top) != pos) ==>
              PaintedUpTo(cells, w, left, top, n, pos, cell) == cell
  {
    match PairOf(pos.0, pos.1, w, left, top)
    case Some(j) =>
      CellOfPairOf(j, pos.0, pos.1, w, left, top);
      forall j' | 0 <= j' < n && CellOf(j', w, left, top) == pos
        ensures j' == j
      {
        CellOfPairOf(j', pos.0, pos.1, w, left, top);
      }
    case None =>
      forall j' | 0 <= j' < n
        ensures CellOf(j', w, left, top) != pos
      {
        CellOfPairOf(j', pos.0, pos.1, w, left, top);
      }
  }

  /** Drawing pair `i` changes only the cell it lands on, which no earlier
      pair has touched. */
  lemma PaintStep(cells: seq<(Raster.Pixel, Raster.Pixel)>, w: nat, left: int, top: int, i: nat,
                  pos: (int, int), cell: Cell)
    requires w > 0 && i < |cells|
    ensures pos == CellOf(i, w, left, top) ==> PaintedUpTo(cells, w, left, top, i, pos, cell) == cell
    ensures PaintedUpTo(cells, w, left, top, i + 1, pos, cell)
            == if pos == CellOf(i, w, left, top) then Composite(cell, cells[i].0, cells[i].1)
               else PaintedUpTo(cells, w, left, top, i, pos, cell)
  {
    CellOfPairOf(i, pos.0, pos.1, w, left, top);
  }

  /** The buffer contents after one pair is drawn at `pos`: the cell there,
      if the buffer has one, composited with the pair. */
  function DrawPair(area: Rect, content: seq<Cell>, pos: (int, int), top: Raster.Pixel, bottom: Raster.Pixel)
    : (r: seq<Cell>)
    ensures |r| == |content|
    ensures forall k :: 0 <= k < |content| ==>
              r[k] == if IndexIn(area, pos.0, pos.1) == Some(k) then Composite(content[k], top, bottom) else content[k]
  {
    match IndexIn(area, pos.0, pos.1)
    case Some(k) => if k < |content| then content[k := Composite(content[k], top, bottom)] else content
    case None => content
  }

  /** `content` holds `orig` with the first `n` pairs drawn over it. */
  ghost predicate Painted(content: seq<Cell>, cells: seq<(Raster.Pixel, Raster.Pixel)>, w: nat, left: int, top: int,
                          n: nat, area: Rect, orig: seq<Cell>)
  {
    w > 0 && n <= |cells| && |content| == |orig|
    && forall k :: 0 <= k < |content| ==>
         content[k] == PaintedUpTo(cells, w, left, top, n, PosIn(area, k), orig[k])
  }

  /** Drawing pair `i` into a buffer that holds the first `i` pairs leaves it
      holding the first `i + 1`. */
  lemma DrawPairStep(cells: seq<(Raster.Pixel, Raster.Pixel)>, w: nat, left: int, top: int, i: nat,
                     area: Rect, orig: seq<Cell>, before: seq<Cell>)
    requires w > 0 && i < |cells|
    requires area.x as int + area.width as int <= U16Max && area.y as int + area.height as int <= U16Max
    requires |orig| == area.width as int * area.height as int
    requires Painted(before, cells, w, left, top, i, area, orig)
    ensures Painted(DrawPair(area, before, CellOf(i, w, left, top), cells[i].0, cells[i].1),
                    cells, w, left, top, i + 1, area, orig)
  {
    var pos := CellOf(i, w, left, top);
    var after := DrawPair(area, before, pos, cells[i].0, cells[i].1);
    forall k | 0 <= k < |after|
      ensures after[k] == PaintedUpTo(cells, w, left, top, i + 1, PosIn(area, k), orig[k])
    {
      PaintStep(cells, w, left, top, i, PosIn(area, k), orig[k]);
      PosIndexRoundTrip(area, k);
      IndexPosRoundTrip(area, pos.0, pos.1);
    }
  }

  /** The body `render_ref` runs for pair `i`: nothing when both pixels are
      transparent; otherwise the pair's cell, when the buffer has one there,
      gets the half block and the colours of the opaque pixels. */
  method PaintPair(i: nat, fg: Raster.Pixel, bg: Raster.Pixel, left: u16, top: u16, width: u16, buf: Buffer)
    requires buf.Valid()
    requires width > 0
    requires left as int + width as int <= 0x1_0000
    requires top as int + i / width as int < 0x1_0000
    modifies buf.content
    ensures buf.content[..] == DrawPair(buf.area, old(buf.content[..]), CellOf(i, width as nat, left as int, top as int), fg, bg)
  {
    ghost var before := buf.content[..];
    var fgTransparent := fg.alpha == 0;
    var bgTransparent := bg.alpha == 0;
    if fgTransparent && bgTransparent {
      ghost var pos := CellOf(i, width as nat, left as int, top as int);
      ghost var at := IndexIn(buf.area, pos.0, pos.1);
      assert at.Some? ==> before[at.value := Composite(before[at.value], fg, bg)] == before;
      return;
    }
    DivMod(i, width as int);
    var x: u16 := left + (i % width as int) as u16;
    var y: u16 := top + (i / width as int) as u16;
    var at := IndexIn(buf.area, x as int, y as int);
    if at.None? {
      return;
    }
    var k := at.value;
    buf.content[k] := buf.content[k].(symbol := HalfBlock);
    if !fgTransparent {
      buf.content[k] := buf.content[k].(fg := RgbOf(fg));
    }
    if !bgTransparent {
      buf.content[k] := buf.content[k].(bg := RgbOf(bg));
    }
    assert buf.content[..] == before[k := Composite(before[k], fg, bg)];
  }

  /** `render_ref`: draw every pair of the screen's pixels into `buf`. The
      pair index is not truncated here (see `CellOfAsWritten`); the cell
      coordinates are `u16` sums, so the area must leave room for every
      column and cell row the pixels produce. */
  method RenderRef(screen: FaceScreen, area: Rect, buf: Buffer)
    requires buf.Valid()
    requires area.width > 0
    requires area.x as int + area.width as int <= 0x1_0000
    requires area.y as int + CellRows(|screen.pixmap.pixels|, area.width as nat) <= 0x1_0000
    modifies buf.content
    ensures forall k :: 0 <= k < buf.content.Length ==>
              var cells := Pairs(screen.pixmap.pixels, area.width as nat);
              buf.content[k] == PaintedUpTo(cells, area.width as nat, area.x as int, area.y as int, |cells|,
                                            PosIn(buf.area, k), old(buf.content[k]))
  {
    var left := area.x;
    var top := area.y;
    var width := area.width;
    var cells := Pairs(screen.pixmap.pixels, width as nat);
    ghost var orig := buf.content[..];
    var i := 0;
    while i < |cells|
      invariant 0 <= i <= |cells|
      invariant Painted(buf.content[..], cells, width as nat, left as int, top as int, i, buf.area, orig)
    {
      ghost var before := buf.content[..];
      PairRowBound(i, |screen.pixmap.pixels|, width as nat);
      var (fg, bg) := cells[i];
      PaintPair(i, fg, bg, left, top, width, buf);
      DrawPairStep(cells, width as nat, left as int, top as int, i, buf.area, orig, before);
      i := i + 1;
    }
  }

  /** What `render_ref` leaves in cell column `c`, cell row `r` of the
      pair grid: the old cell composited with the pixel in column `c` of
      pixel row `2r` over the one in column `c` of pixel row `2r + 1`. */
  lemma RenderedCell(p: seq<Raster.Pixel>, w: nat, left: int, top: int, r: nat, c: nat, cell: Cell)
    requires w > 0 && r < CellRows(|p|, w) && c < w
    ensures 0 <= 2 * r * w + c < (2 * r + 1) * w + c < |p|
    ensures PaintedUpTo(Pairs(p, w), w, left, top, |Pairs(p, w)|, (left + c, top + r), cell)
            == Composite(cell, p[2 * r * w + c], p[(2 * r + 1) * w + c])
  {
    PairsAt(p, w, r, c);
  }

  /** Cells left of, right of, above or below the pair grid keep what they
      held. */
  lemma RenderedOutside(p: seq<Raster.Pixel>, w: nat, left: int, top: int, pos: (int, int), cell: Cell)
    requires w > 0
    requires pos.0 < left || left + w <= pos.0 || pos.1 < top || top + CellRows(|p|, w) <= pos.1
    ensures PaintedUpTo(Pairs(p, w), w, left, top, |Pairs(p, w)|, pos, cell) == cell
  {
    if left <= pos.0 < left + w && top <= pos.1 {
      MulLe(CellRows(|p|, w), pos.1 - top, w);
    }
  }

  /** A two-column screen of one cell row: red over transparent in the first
      column, transparent over blue in the second. The first cell takes the
      half block and a red foreground and keeps its background; the second
      takes the half block and a blue background and keeps its foreground. */
  lemma TwoByTwoScenario(left: int, top: int, cell: Cell)
    ensures var red := Raster.Pixel(255, 0, 0, 255);
            var blue := Raster.Pixel(0, 0, 255, 255);
            var p := [red, Raster.TransparentPixel, Raster.TransparentPixel, blue];
            var cells := Pairs(p, 2);
            |cells| == 2
            && PaintedUpTo(cells, 2, left, top, 2, (left, top), cell) == Cell(HalfBlock, Rgb(255, 0, 0), cell.bg)
            && PaintedUpTo(cells, 2, left, top, 2, (left + 1, top), cell) == Cell(HalfBlock, cell.fg, Rgb(0, 0, 255))
  {
    var p := [Raster.Pixel(255, 0, 0, 255), Raster.TransparentPixel, Raster.TransparentPixel, Raster.Pixel(0, 0, 255, 255)];
    assert CellRows(|p|, 2) == 1;
    RenderedCell(p, 2, left, top, 0, 0, cell);
    RenderedCell(p, 2, left, top, 0, 1, cell);
  }

  /** `Widget::render`: the same drawing as `render_ref`. */
  method Render(screen: FaceScreen, area: Rect, buf: Buffer)
    requires buf.Valid()
    requires area.width > 0
    requires area.x as int + area.width as int <= 0x1_0000
    requires area.y as int + CellRows(|screen.pixmap.pixels|, area.width as nat) <= 0x1_0000
    modifies buf.content
    ensures forall k :: 0 <= k < buf.content.Length ==>
              var cells := Pairs(screen.pixmap.pixels, area.width as nat);
              buf.content[k] == PaintedUpTo(cells, area.width as nat, area.x as int, area.y as int, |cells|, PosIn(buf.area, k), old(buf.content[k]))
  {
    RenderRef(screen, area, buf);
  }

  // ---------------------------------------------------------------------------
  // Arithmetic

  lemma DivMod(i: int, w: int)
    requires w > 0
    ensures i == (i / w) * w + i % w && 0 <= i % w < w
  {
  }

  lemma MulAtLeast(a: int, w: int)
    requires a >= 1 && w > 0
    ensures a * w >= w
  {
  }

  lemma MulLe(a: int, b: int, w: int)
    requires a <= b && w > 0
    ensures a * w <= b * w
  {
    if a < b {
      MulAtLeast(b - a, w);
    }
  }

  /** Euclidean division by `w` recovers quotient and remainder. */
  lemma DivModUnique(q: int, r: int, w: int)
    requires w > 0 && 0 <= r < w
    ensures (q * w + r) / w == q && (q * w + r) % w == r
  {
    var n := q * w + r;
    var d := n / w;
    var m := n % w;
    DivMod(n, w);
    assert (q - d) * w == m - r;
    if q > d {
      MulAtLeast(q - d, w);
    } else if q < d {
      MulAtLeast(d - q, w);
    }
  }

  lemma DivStep(n: int, w: int)
    requires w > 0 && n >= w
    ensures n / w == (n - w) / w + 1
  {
    DivShift(n, w);
  }

  lemma DivShift(i: int, w: int)
    requires w > 0 && i >= w
    ensures (i - w) / w == i / w - 1 && (i - w) % w == i % w
  {
    var q := (i - w) / w;
    var r := (i - w) % w;
    DivMod(i - w, w);
    MulPred(q + 1, w);
    assert i == (q + 1) * w + r;
    DivModUnique(q + 1, r, w);
  }

  lemma MulPred(k: int, w: int)
    ensures (k - 1) * w + w == k * w
  {
  }

  lemma RowMajorBound(row: int, col: int, w: int, h: int)
    requires 0 <= row < h && 0 <= col < w
    ensures row * w + col < w * h
  {
    MulLe(row, h - 1, w);
  }

  lemma DivBelow(k: int, w: int, h: int)
    requires w > 0 && 0 <= k < w * h
    ensures k / w < h
  {
    DivMod(k, w);
    if k / w >= h {
      MulLe(h, k / w, w);
    }
  }

  lemma PairRowBound(i: int, len: nat, w: nat)
    requires w > 0 && 0 <= i < CellRows(len, w) * w
    ensures i / w < CellRows(len, w)
  {
    DivBelow(i, w, CellRows(len, w));
  }
}
