/** `image_to_ansi` of src/lib.rs: the whole picture, two pixel rows per terminal line. */
module Render {
  import opened Wrappers
  import opened Pixels
  import opened Sgr
  import opened Terminal
  import opened Encoder
  import opened Text

  /** A decoded image: `pixels[y][x]` is the pixel in column `x` of row `y`. */
  datatype Image = Image(width: nat, height: nat, pixels: seq<seq<Pixel>>) {

    /** The image library's images are rectangular, with the dimensions they report. */
    predicate Valid() {
      |pixels| == height && forall y :: 0 <= y < height ==> |pixels[y]| == width
    }
  }

  /** The pixel below `(x, y)`, or the invented transparent one below the last row. */
  function Below(img: Image, x: nat, y: nat): Pixel
    requires img.Valid() && x < img.width && y < img.height
  {
    if y + 1 < img.height then img.pixels[y + 1][x] else Transparent
  }

  /** The pixel pairs of the terminal line that starts at pixel row `y`, left to right. */
  function Pairs(img: Image, y: nat): (pairs: seq<(Pixel, Pixel)>)
    requires img.Valid() && y < img.height
    ensures |pairs| == img.width
  {
    seq(img.width, x requires 0 <= x < img.width => (img.pixels[y][x], Below(img, x, y)))
  }

  /** Number of terminal lines: one per pair of pixel rows, a last half pair counting as one. */
  function LineCount(img: Image): nat {
    (img.height + 1) / 2
  }

  /** `ESC[0m` and a newline, written after every terminal line. */
  const LineEnd: seq<char> := Reset + "\n"

  /** One terminal line: the cells of a run of pixel pairs, then the line end. */
  function Line(pairs: seq<(Pixel, Pixel)>): seq<char> {
    EncodeAll(pairs) + LineEnd
  }

  /** The terminal lines for runs of pixel pairs, top to bottom. */
  function Lines(rows: seq<seq<(Pixel, Pixel)>>): (lines: seq<seq<char>>)
    ensures |lines| == |rows|
  {
    seq(|rows|, r requires 0 <= r < |rows| => Line(rows[r]))
  }

  /** The pixel pairs of every terminal line: line `r` pairs pixel rows `2r` and `2r + 1`. */
  function Rows(img: Image): (rows: seq<seq<(Pixel, Pixel)>>)
    requires img.Valid()
    ensures |rows| == LineCount(img)
    ensures forall r :: 0 <= r < |rows| ==> |rows[r]| == img.width
  {
    seq(LineCount(img), r requires 0 <= r < LineCount(img) => Pairs(img, 2 * r))
  }

  /** The whole rendered frame. */
  function Frame(img: Image): (frame: seq<char>)
    requires img.Valid()
  {
    Concat(Lines(Rows(img)))
  }

  /** The inner loop of the source: columns `0 .. width` of the terminal line that starts at
      pixel row `y`, each pixel paired with the one below it or, on the last row of an image of
      odd height, with a transparent pixel. */
  method EncodeLine(img: Image, y: nat) returns (line: seq<char>)
    requires img.Valid() && y < img.height
    ensures line == EncodeAll(Pairs(img, y))
  {
    line := [];
    var x := 0;
    while x < img.width
      invariant x <= img.width
      invariant line == Concat(Cells(Pairs(img, y))[..x])
    {
      var px1 := img.pixels[y][x];
      var px2 := if y + 1 < img.height then img.pixels[y + 1][x] else Transparent;
      ConcatStep(Cells(Pairs(img, y)), x);
      CellsAt(Pairs(img, y), x);
      line := line + PixelsToAnsi(px1, px2);
      x := x + 1;
    }
    assert Cells(Pairs(img, y))[..x] == Cells(Pairs(img, y));
  }

  /** The outer loop of the source: pixel rows `y = 0, 2, 4, ...` below the height, each
      line followed by `ESC[0m` and a newline; the result is the frame. */
  method ImageToAnsi(img: Image) returns (output: seq<char>)
    requires img.Valid()
    ensures output == Frame(img)
    ensures Occurrences('\n', output) == (img.height + 1) / 2
    ensures output == [] <==> img.height == 0
  {
    output := [];
    var y := 0;
    ghost var k := 0;   // terminal lines written so far
    while y < img.height
      invariant y == 2 * k && k <= LineCount(img)
      invariant output == Concat(Lines(Rows(img))[..k])
    {
      var line := EncodeLine(img, y);
      ConcatStep(Lines(Rows(img)), k);
      assert Lines(Rows(img))[k] == line + LineEnd;
      output := output + line + LineEnd;
      y := y + 2;
      k := k + 1;
    }
    assert k == LineCount(img);
    assert Lines(Rows(img))[..k] == Lines(Rows(img));
    FrameCounts(img);
    FrameEmptyIff(img);
  }

  /** The cells each of a run of terminal lines is meant to show. */
  function IntendedRows(rows: seq<seq<(Pixel, Pixel)>>): (pic: seq<seq<Tile>>)
    ensures |pic| == |rows|
  {
    seq(|rows|, i requires 0 <= i < |rows| => IntendedAll(rows[i]))
  }

  /** The picture the frame is meant to show. */
  function Picture(img: Image): seq<seq<Tile>>
    requires img.Valid()
  {
    IntendedRows(Rows(img))
  }

  lemma LineEndShows(rest: seq<char>, pen: Pen, scr: Screen)
    ensures Run(LineEnd + rest, pen, scr) == Run(rest, DefaultPen, Screen(scr.lines + [scr.open], []))
  {
    ResetsAreControls();
    assert LineEnd + rest == Control([0]) + (['\n'] + rest);
    RunControl([0], ['\n'] + rest, pen, scr);
    RunNewline(rest, DefaultPen, scr);
  }

  /** A terminal line draws one screen line of cells, finishes it, and leaves the default
      rendition. */
  lemma LineShows(pairs: seq<(Pixel, Pixel)>, rest: seq<char>, pen: Pen, done: seq<seq<Tile>>)
    ensures Run(Line(pairs) + rest, pen, Screen(done, []))
         == Run(rest, DefaultPen, Screen(done + [IntendedAll(pairs)], []))
  {
    assert Line(pairs) + rest == EncodeAll(pairs) + (LineEnd + rest);
    EncodeAllShows(pairs, LineEnd + rest, pen, Screen(done, []));
    assert [] + IntendedAll(pairs) == IntendedAll(pairs);
    LineEndShows(rest, PenAfterAll(pairs, pen), Screen(done, IntendedAll(pairs)));
  }

  /** Written on any pen after any finished lines, `line` adds the screen line `tiles` and
      leaves the default rendition. */
  ghost predicate DrawsLine(line: seq<char>, tiles: seq<Tile>) {
    forall rest: seq<char>, pen: Pen, done: seq<seq<Tile>> ::
      Run(line + rest, pen, Screen(done, [])) == Run(rest, DefaultPen, Screen(done + [tiles], []))
  }

  lemma LineDraws(pairs: seq<(Pixel, Pixel)>)
    ensures DrawsLine(Line(pairs), IntendedAll(pairs))
  {
    forall rest: seq<char>, pen: Pen, done: seq<seq<Tile>>
      ensures Run(Line(pairs) + rest, pen, Screen(done, []))
           == Run(rest, DefaultPen, Screen(done + [IntendedAll(pairs)], []))
    {
      LineShows(pairs, rest, pen, done);
    }
  }

  /** Lines written one after another draw their screen lines in order. */
  lemma {:induction false} ConcatShows(lines: seq<seq<char>>, pic: seq<seq<Tile>>, rest: seq<char>, pen: Pen, done: seq<seq<Tile>>)
    requires |lines| == |pic|
    requires forall i :: 0 <= i < |lines| ==> DrawsLine(lines[i], pic[i])
    ensures Run(Concat(lines) + rest, pen, Screen(done, []))
         == Run(rest, if |lines| == 0 then pen else DefaultPen, Screen(done + pic, []))
    decreases |lines|
  {
    var n := |lines|;
    if n == 0 {
      assert Concat(lines) + rest == rest;
      assert done + pic == done;
    } else {
      var init, last := lines[..n - 1], lines[n - 1];
      assert Concat(lines) + rest == Concat(init) + (last + rest);
      assert forall i :: 0 <= i < n - 1 ==> init[i] == lines[i] && pic[..n - 1][i] == pic[i];
      ConcatShows(init, pic[..n - 1], last + rest, pen, done);
      var pen1 := if n - 1 == 0 then pen else DefaultPen;
      var done1 := done + pic[..n - 1];
      assert DrawsLine(last, pic[n - 1]);
      assert Run(last + rest, pen1, Screen(done1, [])) == Run(rest, DefaultPen, Screen(done1 + [pic[n - 1]], []));
      assert done1 + [pic[n - 1]] == done + pic;
    }
  }

  /** The rendered frame, written at the start of a line with ANY pen and after any finished
      lines, adds exactly the picture: one line per pair of pixel rows, one cell per column,
      the top half of each cell the upper pixel's colour and the bottom half the lower pixel's
      colour when that pixel is fully opaque, the backdrop otherwise. It leaves the terminal in
      its default rendition unless the image has no rows, in which case nothing is written. */
  lemma FrameShows(img: Image, pen: Pen, done: seq<seq<Tile>>)
    requires img.Valid()
    ensures |Picture(img)| == (img.height + 1) / 2
    ensures forall r :: 0 <= r < |Picture(img)| ==> Picture(img)[r] == IntendedAll(Pairs(img, 2 * r))
    ensures Run(Frame(img), pen, Screen(done, []))
         == Some((if img.height == 0 then pen else DefaultPen, Screen(done + Picture(img), [])))
  {
    var rows := Rows(img);
    var lines := Lines(rows);
    forall i | 0 <= i < |lines|
      ensures DrawsLine(lines[i], Picture(img)[i])
    {
      LineDraws(rows[i]);
    }
    ConcatShows(lines, Picture(img), [], pen, done);
    assert Frame(img) + [] == Frame(img);
  }

  /** Cell `x` of picture line `r` is pixel `(x, 2r)` over pixel `(x, 2r + 1)`, the lower one
      being the backdrop when the image has no row `2r + 1`. */
  lemma PictureTile(img: Image, r: nat, x: nat)
    requires img.Valid() && r < LineCount(img) && x < img.width
    ensures |Picture(img)| == LineCount(img) && |Picture(img)[r]| == img.width
    ensures Picture(img)[r][x]
         == Tile(Seen(img.pixels[2 * r][x]),
                 if 2 * r + 1 < img.height then Seen(img.pixels[2 * r + 1][x]) else Backdrop)
  {
  }

  lemma LineEndCounts()
    ensures Occurrences('\n', LineEnd) == 1 && GlyphCount(LineEnd) == 0
  {
    ResetsAreControls();
    assert LineEnd == [ESC, '[', '0', 'm', '\n'];
    assert ControlText(LineEnd[..4]);
    GlyphAfterControls(LineEnd);
  }

  lemma LineEndClear()
    ensures EscapesClear(LineEnd)
  {
    ResetsAreControls();
    assert LineEnd == [ESC, '[', '0', 'm', '\n'];
  }

  /** A terminal line is one cell encoding per pair and one line end. */
  lemma LineCounts(pairs: seq<(Pixel, Pixel)>)
    ensures Occurrences('\n', Line(pairs)) == 1
    ensures GlyphCount(Line(pairs)) == |pairs|
  {
    EncodeAllCounts(pairs);
    LineEndCounts();
    CountsAppend(EncodeAll(pairs), LineEnd);
  }

  /** The frame has one newline per terminal line, that is, ceil(height / 2) of them, and
      `width` glyphs on each. */
  lemma FrameCounts(img: Image)
    requires img.Valid()
    ensures Occurrences('\n', Frame(img)) == (img.height + 1) / 2
    ensures GlyphCount(Frame(img)) == (img.height + 1) / 2 * img.width
    ensures forall r :: 0 <= r < LineCount(img) ==>
      Occurrences('\n', Lines(Rows(img))[r]) == 1 && GlyphCount(Lines(Rows(img))[r]) == img.width
  {
    var rows := Rows(img);
    forall i | 0 <= i < |rows|
      ensures Occurrences('\n', Lines(rows)[i]) == 1 && GlyphCount(Lines(rows)[i]) == img.width
    {
      LineCounts(rows[i]);
    }
    ConcatOccurrences('\n', Lines(rows), 1);
    ConcatGlyphs(Lines(rows), img.width);
  }

  /** The frame is empty exactly when the image has no rows; an image with rows but no columns
      still gets one `ESC[0m` and newline per terminal line. */
  lemma FrameEmptyIff(img: Image)
    requires img.Valid()
    ensures Frame(img) == [] <==> img.height == 0
  {
    FrameCounts(img);
    if img.height > 0 {
      assert Occurrences('\n', Frame(img)) > 0;
    }
  }

  /** An image without columns renders as ceil(height / 2) bare line ends. */
  lemma ZeroWidthFrame(img: Image)
    requires img.Valid() && img.width == 0
    ensures Frame(img) == Repeat(LineEnd, (img.height + 1) / 2)
  {
    var rows := Rows(img);
    forall i | 0 <= i < |rows|
      ensures Lines(rows)[i] == LineEnd
    {
      assert rows[i] == [];
      assert Line(rows[i]) == EncodeAll([]) + LineEnd;
    }
    ConcatRepeat(Lines(rows), LineEnd);
  }

  /** The last terminal line of an image of odd height starts at its last pixel row and pairs
      every pixel with the invented transparent one. */
  lemma OddLastRow(img: Image, y: nat)
    requires img.Valid() && img.height % 2 == 1 && y == img.height - 1
    ensures LineCount(img) > 0 && Rows(img)[LineCount(img) - 1] == Pairs(img, y)
    ensures forall x :: 0 <= x < img.width ==> Pairs(img, y)[x].1 == Transparent
  {
    assert 2 * (LineCount(img) - 1) == y;
  }

  /** The last line of an image of odd height pairs every pixel with the invented transparent
      one, so each of its cells is either the top colour over the default background with an
      upper half block, or a reset and a space. */
  lemma OddLastCells(img: Image, y: nat)
    requires img.Valid() && img.height % 2 == 1 && y == img.height - 1
    ensures forall x :: 0 <= x < img.width ==>
      var p := img.pixels[y][x];
      Cells(Pairs(img, y))[x]
        == if Visible(p) then Control([38, 2, p.r, p.g, p.b]) + Control([49]) + [UPPER]
           else Control([0]) + [' ']
  {
    OddLastRow(img, y);
    forall x | 0 <= x < img.width
      ensures var p := img.pixels[y][x];
        Cells(Pairs(img, y))[x]
          == if Visible(p) then Control([38, 2, p.r, p.g, p.b]) + Control([49]) + [UPPER]
             else Control([0]) + [' ']
    {
      var p := img.pixels[y][x];
      CellsAt(Pairs(img, y), x);
      if Visible(p) {
        ShowsTopOnly(p, Transparent, [], DefaultPen, EmptyScreen);
      } else {
        ShowsNeither(p, Transparent, [], DefaultPen, EmptyScreen);
      }
    }
  }

  lemma LineEndKeepsClear(s: seq<char>)
    requires EscapesClear(s) && Occurrences(LOWER, s) == 0
    ensures SelectsNoBackground(s + LineEnd)
    ensures Occurrences(LOWER, s + LineEnd) == 0
  {
    LineEndCounts();
    CountsAppend(s, LineEnd);
    LineEndClear();
    EscapesClearAppend(s, LineEnd);
    EscapesClearSelectsNoBackground(s + LineEnd);
  }

  /** A terminal line none of whose bottom pixels is visible selects no background colour and
      draws no lower half block. */
  lemma HiddenBottomsLine(pairs: seq<(Pixel, Pixel)>)
    requires forall i :: 0 <= i < |pairs| ==> !Visible(pairs[i].1)
    ensures SelectsNoBackground(Line(pairs))
    ensures Occurrences(LOWER, Line(pairs)) == 0
  {
    EncodeAllNoLower(pairs);
    EncodeAllClear(pairs);
    LineEndKeepsClear(EncodeAll(pairs));
  }

  /** The last line of an image of odd height selects no background colour and draws no
      lower half block. */
  lemma OddLastLineText(img: Image)
    requires img.Valid() && img.height % 2 == 1
    ensures Rows(img)[LineCount(img) - 1] == Pairs(img, img.height - 1)
    ensures SelectsNoBackground(Line(Pairs(img, img.height - 1)))
    ensures Occurrences(LOWER, Line(Pairs(img, img.height - 1))) == 0
  {
    var y := img.height - 1;
    OddLastRow(img, y);
    HiddenBottomsLine(Pairs(img, y));
  }

  /** On screen, every bottom half of the last line of an image of odd height is the backdrop. */
  lemma OddLastLineShown(img: Image)
    requires img.Valid() && img.height % 2 == 1
    ensures forall t :: t in Picture(img)[LineCount(img) - 1] ==> t.bottom == Backdrop
  {
    var y := img.height - 1;
    OddLastRow(img, y);
    assert Picture(img)[LineCount(img) - 1] == IntendedAll(Pairs(img, y));
  }
}
