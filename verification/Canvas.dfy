/** The compositing canvas: a framebuffer decoded into pixels by strided byte streams, drawn on,
    and encoded back. */
module Canvas {
  import opened Basics
  import opened LittleEndian

  datatype PixelFormat = FormatRgb | FormatBgr | FormatU8

  datatype Info = Info(width: nat, height: nat, stride: nat, bytesPerPixel: nat, format: PixelFormat)

  datatype Color = Rgb(r: Byte, g: Byte, b: Byte) | Bgr(r: Byte, g: Byte, b: Byte) | Gray(luma: Byte)

  datatype Pixel = Pixel(x: int, y: int, color: Color)

  // ----- decoding -----

  /** `PixelColorKind::from_framebuffer`. */
  function FromFramebuffer(format: PixelFormat, red: Byte, green: Byte, blue: Byte): Color {
    match format
    case FormatRgb => Rgb(red, green, blue)
    case FormatBgr => Bgr(red, green, blue)
    case FormatU8 => Gray(red * green * blue / 3 % 256)
  }

  /** `iter().skip(skip).step_by(step)`. */
  function Strided(bytes: seq<Byte>, skip: nat, step: nat): seq<Byte>
    requires step > 0
    decreases |bytes| - skip
  {
    if skip >= |bytes| then [] else [bytes[skip]] + Strided(bytes, skip + step, step)
  }

  lemma {:induction false} StridedAt(bytes: seq<Byte>, skip: nat)
    ensures skip <= |bytes| ==> |bytes| - skip <= 4 * |Strided(bytes, skip, 4)| < |bytes| - skip + 4
    ensures skip > |bytes| ==> |Strided(bytes, skip, 4)| == 0
    ensures forall i :: 0 <= i < |Strided(bytes, skip, 4)| ==>
      skip + 4 * i < |bytes| && Strided(bytes, skip, 4)[i] == bytes[skip + 4 * i]
    decreases |bytes| - skip
  {
    if skip < |bytes| {
      StridedAt(bytes, skip + 4);
    }
  }

  /** The zip of the three colour streams, as long as the shortest of them. */
  function ZipColors(format: PixelFormat, red: seq<Byte>, green: seq<Byte>, blue: seq<Byte>): (r: seq<Color>)
    ensures |r| == Min(Min(|red|, |green|), |blue|)
  {
    seq(Min(Min(|red|, |green|), |blue|), i requires 0 <= i < Min(Min(|red|, |green|), |blue|) =>
      FromFramebuffer(format, red[i], green[i], blue[i]))
  }

  /** `buffer_color`: the first byte of a pixel is red or blue by the format. */
  function Colors(bytes: seq<Byte>, info: Info): seq<Color>
    requires info.bytesPerPixel > 0
  {
    var first := Strided(bytes, 0, info.bytesPerPixel);
    var second := Strided(bytes, 1, info.bytesPerPixel);
    var third := Strided(bytes, 2, info.bytesPerPixel);
    match info.format
    case FormatRgb => ZipColors(FormatRgb, first, second, third)
    case FormatBgr => ZipColors(FormatBgr, third, second, first)
    case FormatU8 => ZipColors(FormatU8, first, first, first)
  }

  function Column(x: nat, height: nat): (r: seq<(int, int)>)
    ensures |r| == height
  {
    seq(height, y requires 0 <= y => (x, y))
  }

  /** `buffer_points`: column after column. */
  function Points(width: nat, height: nat): (r: seq<(int, int)>)
    ensures |r| == width * height
  {
    if width == 0 then [] else Points(width - 1, height) + Column(width - 1, height)
  }

  lemma {:induction false} PointsAt(width: nat, height: nat, x: nat, y: nat)
    requires x < width && y < height
    ensures x * height + y < width * height && Points(width, height)[x * height + y] == (x, y)
  {
    if x < width - 1 {
      PointsAt(width - 1, height, x, y);
    } else {
      assert width * height == x * height + height;
    }
  }

  function ZipPixels(points: seq<(int, int)>, colors: seq<Color>): (r: seq<Pixel>)
    ensures |r| == Min(|points|, |colors|)
    ensures forall i :: 0 <= i < |r| ==> r[i] == Pixel(points[i].0, points[i].1, colors[i])
  {
    seq(Min(|points|, |colors|), i requires 0 <= i < Min(|points|, |colors|) =>
      Pixel(points[i].0, points[i].1, colors[i]))
  }

  /** `buffer_pixels`: points and colours, as many as there are of both. */
  function Pixels(bytes: seq<Byte>, info: Info): (r: seq<Pixel>)
    requires info.bytesPerPixel > 0
    ensures |r| == Min(info.width * info.height, |Colors(bytes, info)|)
  {
    ZipPixels(Points(info.width, info.height), Colors(bytes, info))
  }

  /** Column by column, a pixel knows its point of the screen. */
  lemma PixelAt(bytes: seq<Byte>, info: Info, x: nat, y: nat, i: nat)
    requires info.bytesPerPixel > 0 && x < info.width && y < info.height && i == x * info.height + y
    ensures i < info.width * info.height
    ensures i < |Pixels(bytes, info)| ==> Pixels(bytes, info)[i].x == x && Pixels(bytes, info)[i].y == y
  {
    hide Colors, Points;
    PointsAt(info.width, info.height, x, y);
  }

  // ----- encoding -----

  function Encode(color: Color): (r: seq<Byte>)
    ensures |r| == 4
  {
    match color
    case Bgr(r, g, b) => [b, g, r, 0]
    case Rgb(r, g, b) => [r, g, b, 0]
    case Gray(l) => [l, 0, 0, 0]
  }

  /** The framebuffer after `merge_down`, for four bytes per pixel. */
  function Merged(bytes: seq<Byte>, pixels: seq<Pixel>): (r: seq<Byte>)
    ensures |r| == |bytes|
  {
    seq(|bytes|, j requires 0 <= j < |bytes| =>
      if j / 4 < Min(|bytes| / 4, |pixels|) then Encode(pixels[j / 4].color)[j % 4] else bytes[j])
  }

  /** Whole pixels decode to the colour whose encoding keeps their first three bytes and clears the fourth. */
  lemma DecodeEncode(bytes: seq<Byte>, info: Info, i: nat)
    requires info.bytesPerPixel == 4 && !info.format.FormatU8? && i < |bytes| / 4
    ensures |bytes| / 4 <= |Colors(bytes, info)|
    ensures Encode(Colors(bytes, info)[i]) == [bytes[4 * i], bytes[4 * i + 1], bytes[4 * i + 2], 0]
  {
    StridedAt(bytes, 0);
    StridedAt(bytes, 1);
    StridedAt(bytes, 2);
  }

  /** Decoding a framebuffer and merging it down again, for a buffer of any length: of the first
      min(width * height, length / 4) pixels the colour bytes stay and the fourth byte is cleared;
      every other byte stays. */
  lemma RoundTrip(bytes: seq<Byte>, info: Info, j: nat)
    requires info.bytesPerPixel == 4 && !info.format.FormatU8? && j < |bytes|
    ensures Merged(bytes, Pixels(bytes, info))[j]
      == if j < 4 * Min(info.width * info.height, |bytes| / 4) && j % 4 == 3 then 0 else bytes[j]
  {
    hide Pixels, Colors, Merged, Encode;
    PixelsMean(bytes, info);
    MergedAt(bytes, Pixels(bytes, info), j);
    if j / 4 < |bytes| / 4 {
      FirstThree(bytes, j);
    }
  }

  // ----- drawing -----

  /** The colour stored for a drawn colour, in the framebuffer's own order. */
  function Converted(format: PixelFormat, color: Color): Color {
    match color
    case Rgb(r, g, b) => FromFramebuffer(format, Encode(color)[0], Encode(color)[1], Encode(color)[2])
    case Bgr(r, g, b) => FromFramebuffer(format, Encode(color)[2], Encode(color)[1], Encode(color)[0])
    case Gray(l) => FromFramebuffer(format, l, l, l)
  }

  /** Red, green and blue survive the conversion, and the stored colour has the order of the screen. */
  lemma ConvertedKeepsColor(format: PixelFormat, color: Color)
    requires !format.FormatU8? && !color.Gray?
    ensures var c := Converted(format, color);
      (if format.FormatRgb? then c.Rgb? else c.Bgr?) && c.r == color.r && c.g == color.g && c.b == color.b
  {
  }

  /** The four bytes a drawn colour becomes: on a screen of three channels they are in the screen's order, whatever the
      order they were drawn in. */
  lemma DrawnBytes(format: PixelFormat, color: Color)
    ensures Encode(Converted(format, color)) ==
      match format
      case FormatRgb => if color.Gray? then [color.luma, color.luma, color.luma, 0] else [color.r, color.g, color.b, 0]
      case FormatBgr => if color.Gray? then [color.luma, color.luma, color.luma, 0] else [color.b, color.g, color.r, 0]
      case FormatU8 =>
        if color.Gray? then [color.luma * color.luma * color.luma / 3 % 256, 0, 0, 0]
        else [color.r * color.g * color.b / 3 % 256, 0, 0, 0]
  {
  }

  function Cell(info: Info, p: Pixel): int {
    p.y * info.stride + p.x
  }

  /** The indexing of `draw_iter` stays inside the canvas. */
  predicate Drawable(info: Info, p: Pixel, cells: nat) {
    p.x >= 0 && p.y >= 0 && Cell(info, p) < cells
  }

  ghost predicate AllDrawable(info: Info, draws: seq<Pixel>, cells: nat) {
    forall i :: 0 <= i < |draws| ==> Drawable(info, draws[i], cells) && Cell(info, draws[i]) >= 0
  }

  /** The canvas after a list of draws. */
  ghost function Drawn(pixels: seq<Pixel>, info: Info, draws: seq<Pixel>): (r: seq<Pixel>)
    requires AllDrawable(info, draws, |pixels|)
    ensures |r| == |pixels|
    decreases |draws|
  {
    if draws == [] then pixels
    else
      var n := |draws| - 1;
      var stored := draws[n].(color := Converted(info.format, draws[n].color));
      Drawn(pixels, info, draws[..n])[Cell(info, draws[n]) := stored]
  }

  /** The index of the last draw at a cell. */
  ghost function LastDraw(info: Info, draws: seq<Pixel>, cell: int): (r: int)
    ensures -1 <= r < |draws|
    ensures r >= 0 ==> draws[r].y * info.stride + draws[r].x == cell
    ensures forall i :: r < i < |draws| ==> draws[i].y * info.stride + draws[i].x != cell
    decreases |draws|
  {
    if draws == [] then -1
    else
      var n := |draws| - 1;
      if Cell(info, draws[n]) == cell then n
      else
        var r := LastDraw(info, draws[..n], cell);
        assert forall i :: r < i < n ==> draws[..n][i] == draws[i];
        r
  }

  /** The last draw at a cell wins; a cell nobody draws at keeps its pixel. */
  lemma {:induction false} LastDrawWins(pixels: seq<Pixel>, info: Info, draws: seq<Pixel>, cell: nat)
    requires AllDrawable(info, draws, |pixels|) && cell < |pixels|
    ensures var i := LastDraw(info, draws, cell);
      Drawn(pixels, info, draws)[cell]
      == if i < 0 then pixels[cell] else draws[i].(color := Converted(info.format, draws[i].color))
    decreases |draws|
  {
    if draws != [] {
      LastDrawWins(pixels, info, draws[..|draws| - 1], cell);
    }
  }

  /** Drawing, then merging down: the chunk of the cell drawn last, at byte 4 * (y * stride + x), holds the drawn
      colour in the order of the screen. */
  lemma DrawThenMerge(bytes: seq<Byte>, pixels: seq<Pixel>, info: Info, draws: seq<Pixel>, i: nat)
    requires AllDrawable(info, draws, |pixels|) && i < |draws|
    requires i == LastDraw(info, draws, draws[i].y * info.stride + draws[i].x)
    requires draws[i].y * info.stride + draws[i].x < |bytes| / 4
    ensures
      var at, c := 4 * (draws[i].y * info.stride + draws[i].x), draws[i].color;
      var chunk := Merged(bytes, Drawn(pixels, info, draws))[at..at + 4];
      && chunk == Encode(Converted(info.format, c))
      && (info.format.FormatRgb? && !c.Gray? ==> chunk == [c.r, c.g, c.b, 0])
      && (info.format.FormatBgr? && !c.Gray? ==> chunk == [c.b, c.g, c.r, 0])
  {
    hide Merged, Drawn, Converted, Encode, LastDraw;
    LastDrawWins(pixels, info, draws, Cell(info, draws[i]));
    MergedChunk(bytes, Drawn(pixels, info, draws), Cell(info, draws[i]));
    DrawnBytes(info.format, draws[i].color);
  }

  /** The whole life of a canvas over a framebuffer of any length, byte by byte: beyond the first
      min(width * height, length / 4) pixels nothing changes; a pixel drawn on gets the colour drawn last at its
      cell; any other keeps its colour bytes, and its fourth byte is cleared. */
  lemma FramebufferAfter(bytes: seq<Byte>, info: Info, draws: seq<Pixel>, j: nat)
    requires info.bytesPerPixel == 4 && !info.format.FormatU8? && j < |bytes|
    requires AllDrawable(info, draws, |Pixels(bytes, info)|)
    ensures
      var last := LastDraw(info, draws, j / 4);
      Merged(bytes, Drawn(Pixels(bytes, info), info, draws))[j]
      == if j / 4 >= Min(info.width * info.height, |bytes| / 4) then bytes[j]
         else if j % 4 == 3 then 0
         else if last >= 0 then
           var c := draws[last].color;
           if c.Gray? then c.luma
           else if info.format.FormatRgb? then [c.r, c.g, c.b][j % 4]
           else [c.b, c.g, c.r][j % 4]
         else bytes[j]
  {
    hide Converted, Encode, Cell, Pixels, Colors, Merged, Drawn, LastDraw;
    var pixels := Pixels(bytes, info);
    PixelsMean(bytes, info);
    MergedAt(bytes, Drawn(pixels, info, draws), j);
    if j / 4 < Min(info.width * info.height, |bytes| / 4) {
      LastDrawWins(pixels, info, draws, j / 4);
      FirstThree(bytes, j);
      if LastDraw(info, draws, j / 4) >= 0 {
        DrawnBytes(info.format, draws[LastDraw(info, draws, j / 4)].color);
      }
    }
  }

  lemma MergedAt(bytes: seq<Byte>, pixels: seq<Pixel>, j: nat)
    requires j < |bytes|
    ensures Merged(bytes, pixels)[j]
      == if j / 4 < Min(|bytes| / 4, |pixels|) then Encode(pixels[j / 4].color)[j % 4] else bytes[j]
  {
  }

  lemma FirstThree(bytes: seq<Byte>, j: nat)
    requires j / 4 < |bytes| / 4
    ensures var i := j / 4;
      [bytes[4 * i], bytes[4 * i + 1], bytes[4 * i + 2], 0][j % 4] == if j % 4 == 3 then 0 else bytes[j]
  {
    assert j == 4 * (j / 4) + j % 4;
  }

  /** A pixel per point of the screen as long as there are bytes, and each encodes to its own. */
  lemma PixelsMean(bytes: seq<Byte>, info: Info)
    requires info.bytesPerPixel == 4 && !info.format.FormatU8?
    ensures |Pixels(bytes, info)| <= info.width * info.height
    ensures Min(|bytes| / 4, |Pixels(bytes, info)|) == Min(info.width * info.height, |bytes| / 4)
    ensures forall i :: 0 <= i < Min(info.width * info.height, |bytes| / 4) ==>
      Encode(Pixels(bytes, info)[i].color) == [bytes[4 * i], bytes[4 * i + 1], bytes[4 * i + 2], 0]
  {
    hide Encode, Strided, Points;
    if |bytes| >= 4 {
      DecodeEncode(bytes, info, 0);
    }
    forall i | 0 <= i < Min(info.width * info.height, |bytes| / 4)
      ensures Encode(Pixels(bytes, info)[i].color) == [bytes[4 * i], bytes[4 * i + 1], bytes[4 * i + 2], 0]
    {
      DecodeEncode(bytes, info, i);
    }
  }

  lemma MergedChunk(bytes: seq<Byte>, pixels: seq<Pixel>, cell: nat)
    requires cell < |bytes| / 4 && cell < |pixels|
    ensures Merged(bytes, pixels)[4 * cell..4 * cell + 4] == Encode(pixels[cell].color)
  {
    hide Merged, Encode;
    var merged := Merged(bytes, pixels);
    forall k | 0 <= k < 4
      ensures merged[4 * cell + k] == Encode(pixels[cell].color)[k]
    {
      assert (4 * cell + k) / 4 == cell && (4 * cell + k) % 4 == k;
      MergedAt(bytes, pixels, 4 * cell + k);
    }
  }

  /** A full framebuffer decodes to width * height pixels, padding or not. */
  lemma FullCells(bytes: seq<Byte>, info: Info)
    requires info.bytesPerPixel == 4 && !info.format.FormatU8? && info.width <= info.stride
    requires |bytes| == 4 * (info.stride * info.height)
    ensures |Pixels(bytes, info)| == info.width * info.height
  {
    StridedAt(bytes, 0);
    StridedAt(bytes, 1);
    StridedAt(bytes, 2);
    Product(info.width, info.stride, info.height);
  }

  lemma Product(a: int, b: int, c: nat)
    requires a <= b
    ensures a * c <= b * c
  {
  }

  /** Where rows are at least as long as the screen is wide, no two points share a cell. */
  lemma CellsDistinct(info: Info, p: Pixel, q: Pixel)
    requires info.width <= info.stride
    requires 0 <= p.x < info.width && 0 <= q.x < info.width && Cell(info, p) == Cell(info, q)
    ensures p.x == q.x && p.y == q.y
  {
    if p.y < q.y {
      RowsApart(p.y, q.y, info.stride, p.x, q.x);
    } else if q.y < p.y {
      RowsApart(q.y, p.y, info.stride, q.x, p.x);
    }
  }

  lemma RowsApart(a: int, b: int, stride: nat, x: nat, y: nat)
    requires a < b && x < stride
    ensures a * stride + x < b * stride + y
  {
    Product(a + 1, b, stride);
    assert (a + 1) * stride == a * stride + stride;
  }

  lemma CellFits(info: Info, p: Pixel)
    requires info.stride == info.width || info.height == 1
    requires 0 <= p.x < info.width && 0 <= p.y < info.height
    ensures Cell(info, p) < info.width * info.height
  {
    if info.height > 1 {
      Product(p.y + 1, info.height, info.stride);
    }
  }

  lemma LastCellMissing(info: Info, p: Pixel)
    requires 0 < info.width < info.stride && info.height > 1
    requires p.x == info.width - 1 && p.y == info.height - 1
    ensures Cell(info, p) >= info.width * info.height
  {
    Product(info.width + 1, info.stride, info.height - 1);
    assert (info.width + 1) * (info.height - 1) == info.width * info.height - info.width + info.height - 1;
  }

  ghost predicate ScreenDrawable(info: Info, cells: nat) {
    forall p: Pixel :: 0 <= p.x < info.width && 0 <= p.y < info.height ==> Drawable(info, p, cells)
  }

  /** On a full framebuffer every point of the screen can be drawn exactly when rows are stored without
      padding or there is one row: the canvas has only width * height cells, but rows start `stride` apart. */
  lemma ScreenDrawableIff(bytes: seq<Byte>, info: Info)
    requires info.bytesPerPixel == 4 && !info.format.FormatU8? && 0 < info.width <= info.stride && 0 < info.height
    requires |bytes| == 4 * (info.stride * info.height)
    ensures ScreenDrawable(info, |Pixels(bytes, info)|) <==> info.stride == info.width || info.height == 1
  {
    hide Pixels, Cell;
    FullCells(bytes, info);
    var cells := |Pixels(bytes, info)|;
    if info.stride == info.width || info.height == 1 {
      forall p: Pixel | 0 <= p.x < info.width && 0 <= p.y < info.height
        ensures Drawable(info, p, cells)
      {
        CellFits(info, p);
      }
    } else {
      var last := Pixel(info.width - 1, info.height - 1, Gray(0));
      LastCellMissing(info, last);
      assert !Drawable(info, last, cells);
    }
  }

  class CanvasBuf {
    const info: Info
    var pixels: seq<Pixel>

    /** Of four-byte colours there is one pixel for each point of the screen that has its bytes, and it encodes
        to them. */
    constructor (bytes: seq<Byte>, info: Info)
      requires info.bytesPerPixel > 0
      ensures this.info == info && pixels == Pixels(bytes, info)
      ensures info.bytesPerPixel == 4 && !info.format.FormatU8? ==>
        var n := Min(info.width * info.height, |bytes| / 4);
        && n <= |pixels| <= info.width * info.height
        && forall i :: 0 <= i < n ==>
             Encode(pixels[i].color) == [bytes[4 * i], bytes[4 * i + 1], bytes[4 * i + 2], 0]
    {
      this.info, pixels := info, Pixels(bytes, info);
      new;
      if info.bytesPerPixel == 4 && !info.format.FormatU8? {
        PixelsMean(bytes, info);
      }
    }

    method DrawIter(draws: seq<Pixel>)
      requires AllDrawable(info, draws, |pixels|)
      modifies this
      ensures pixels == Drawn(old(pixels), info, draws)
    {
      assert draws[..0] == [];
      for index := 0 to |draws|
        invariant |pixels| == |old(pixels)| && pixels == Drawn(old(pixels), info, draws[..index])
      {
        var p := draws[index];
        var cell := p.y * info.stride + p.x;
        var color := Encode(p.color);
        var stored := match p.color
          case Rgb(_, _, _) => FromFramebuffer(info.format, color[0], color[1], color[2])
          case Bgr(_, _, _) => FromFramebuffer(info.format, color[2], color[1], color[0])
          case Gray(l) => FromFramebuffer(info.format, l, l, l);
        assert draws[..index + 1][..index] == draws[..index];
        pixels := pixels[cell := Pixel(p.x, p.y, stored)];
      }
      assert draws[..|draws|] == draws;
    }

    /** Copying a four-byte colour into a chunk of another size panics. */
    method MergeDown(root: array<Byte>, bytesPerPixel: nat)
      requires bytesPerPixel > 0 && (bytesPerPixel == 4 || Min(root.Length / bytesPerPixel, |pixels|) == 0)
      modifies root
      ensures root[..] == if bytesPerPixel == 4 then Merged(old(root[..]), pixels) else old(root[..])
    {
      var chunks := Min(root.Length / bytesPerPixel, |pixels|);
      for i := 0 to chunks
        invariant forall j :: 0 <= j < root.Length ==>
          root[j] == if j / 4 < i then Encode(pixels[j / 4].color)[j % 4] else old(root[j])
      {
        var chunk := Encode(pixels[i].color);
        forall k | 4 * i <= k < 4 * i + 4 {
          root[k] := chunk[k - 4 * i];
        }
      }
    }
  }
}
