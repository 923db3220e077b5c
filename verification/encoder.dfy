/** `pixels_to_ansi` of src/lib.rs: one terminal cell for a vertical pair of pixels. */
module Encoder {
  import opened Wrappers
  import opened Pixels
  import opened Decimal
  import opened Sgr
  import opened Terminal
  import opened Text

  /** `ESC[38;2;R;G;Bm`: select the pixel's colour as foreground, channels in decimal. */
  function Foreground(p: Pixel): seq<char> {
    [ESC] + "[38;2;" + ChannelText(p) + "m"
  }

  /** `ESC[48;2;R;G;Bm`: select the pixel's colour as background. */
  function Background(p: Pixel): seq<char> {
    [ESC] + "[48;2;" + ChannelText(p) + "m"
  }

  /** `ESC[49m`: default background, foreground untouched. */
  const DefaultBackground: seq<char> := [ESC] + "[49m"

  /** `ESC[0m`: default rendition. */
  const Reset: seq<char> := [ESC] + "[0m"

  /** The encoding of the cell whose top half is `top` and bottom half is `bottom`. */
  function PixelsToAnsi(top: Pixel, bottom: Pixel): (s: seq<char>)
  {
    if Visible(top) then
      Foreground(top) + (if Visible(bottom) then Background(bottom) + [UPPER]
                         else DefaultBackground + [UPPER])
    else if Visible(bottom) then
      Foreground(bottom) + DefaultBackground + [LOWER]
    else
      Reset + " "
  }

  /** Every cell encoding ends in exactly one glyph: an upper half block exactly when the top
      pixel is fully opaque, a lower half block exactly when only the bottom one is, and a
      space when neither is. */
  lemma CellGlyph(top: Pixel, bottom: Pixel)
    ensures var s := PixelsToAnsi(top, bottom);
      && |s| > 0 && s[|s| - 1] in {UPPER, LOWER, ' '}
      && (s[|s| - 1] == UPPER <==> Visible(top))
      && (s[|s| - 1] == LOWER <==> !Visible(top) && Visible(bottom))
  {
  }

  /** `R;G;B` in decimal, the colour part shared by both colour controls. */
  function ChannelText(p: Pixel): seq<char> {
    DecimalString(p.r) + ";" + DecimalString(p.g) + ";" + DecimalString(p.b)
  }

  lemma {:induction false} ChannelTextIsJoined(p: Pixel)
    ensures JoinParams([p.r, p.g, p.b]) == ChannelText(p)
  {
    var ps: seq<nat> := [p.r, p.g, p.b];
    var r, g, b := DecimalString(p.r), DecimalString(p.g), DecimalString(p.b);
    assert ps[1..] == [p.g, p.b] && ps[1..][1..] == [p.b];
    assert JoinParams(ps[1..]) == g + ";" + b;
    assert JoinParams(ps) == r + ";" + (g + ";" + b);
  }

  /** `ESC[K;2;R;G;Bm` is the control with parameters `K, 2, R, G, B`. */
  lemma {:induction false} ColorControl(k: nat, p: Pixel)
    requires 10 <= k < 100
    ensures [ESC] + "[" + DecimalString(k) + ";2;" + ChannelText(p) + "m" == Control([k, 2, p.r, p.g, p.b])
  {
    var ps: seq<nat> := [k, 2, p.r, p.g, p.b];
    assert ps[1..] == [2, p.r, p.g, p.b] && ps[1..][1..] == [p.r, p.g, p.b];
    ChannelTextIsJoined(p);
    assert DecimalString(2) == "2";
    assert JoinParams(ps[1..]) == "2" + ";" + ChannelText(p);
    assert JoinParams(ps) == DecimalString(k) + ";" + ("2" + ";" + ChannelText(p));
  }

  /** The four control sequences the encoder writes, as SGR parameter lists. */
  lemma ForegroundIsControl(p: Pixel)
    ensures Foreground(p) == Control([38, 2, p.r, p.g, p.b])
  {
    assert DecimalString(38) == "38";
    ColorControl(38, p);
  }

  lemma BackgroundIsControl(p: Pixel)
    ensures Background(p) == Control([48, 2, p.r, p.g, p.b])
  {
    assert DecimalString(48) == "48";
    ColorControl(48, p);
  }

  lemma ResetsAreControls()
    ensures DefaultBackground == Control([49])
    ensures Reset == Control([0])
  {
    assert DecimalString(49) == "49";
    assert DecimalString(0) == "0";
  }

  /** How the encoder intends a pixel to look: its colour when visible, the bare backdrop otherwise. */
  function Seen(p: Pixel): Shade {
    if Visible(p) then Paint(p.Color()) else Backdrop
  }

  /** The cell a pixel pair should appear as. */
  function Intended(top: Pixel, bottom: Pixel): Tile {
    Tile(Seen(top), Seen(bottom))
  }

  /** The pen a cell's encoding leaves behind. */
  function PenAfter(top: Pixel, bottom: Pixel): Pen {
    if Visible(top) then Pen(Some(top.Color()), if Visible(bottom) then Some(bottom.Color()) else None)
    else if Visible(bottom) then Pen(Some(bottom.Color()), None)
    else DefaultPen
  }

  /** The four rows of the decision table, each drawn on an arbitrary pen. */
  lemma ShowsBoth(top: Pixel, bottom: Pixel, rest: seq<char>, pen: Pen, scr: Screen)
    requires Visible(top) && Visible(bottom)
    ensures PixelsToAnsi(top, bottom)
         == Control([38, 2, top.r, top.g, top.b]) + Control([48, 2, bottom.r, bottom.g, bottom.b]) + [UPPER]
    ensures Run(PixelsToAnsi(top, bottom) + rest, pen, scr)
         == Run(rest, PenAfter(top, bottom), Screen(scr.lines, scr.open + [Intended(top, bottom)]))
  {
    ForegroundIsControl(top);
    BackgroundIsControl(bottom);
    var fg := [38, 2, top.r, top.g, top.b];
    var bg := [48, 2, bottom.r, bottom.g, bottom.b];
    var pen1 := pen.(fg := Some(top.Color()));
    assert PixelsToAnsi(top, bottom) + rest == Control(fg) + (Control(bg) + ([UPPER] + rest));
    RunControl(fg, Control(bg) + ([UPPER] + rest), pen, scr);
    RunControl(bg, [UPPER] + rest, pen1, scr);
    RunGlyph(UPPER, rest, pen1.(bg := Some(bottom.Color())), scr);
  }

  lemma ShowsTopOnly(top: Pixel, bottom: Pixel, rest: seq<char>, pen: Pen, scr: Screen)
    requires Visible(top) && !Visible(bottom)
    ensures PixelsToAnsi(top, bottom) == Control([38, 2, top.r, top.g, top.b]) + Control([49]) + [UPPER]
    ensures Run(PixelsToAnsi(top, bottom) + rest, pen, scr)
         == Run(rest, PenAfter(top, bottom), Screen(scr.lines, scr.open + [Intended(top, bottom)]))
  {
    ResetsAreControls();
    ForegroundIsControl(top);
    var fg := [38, 2, top.r, top.g, top.b];
    var pen1 := pen.(fg := Some(top.Color()));
    assert PixelsToAnsi(top, bottom) + rest == Control(fg) + (Control([49]) + ([UPPER] + rest));
    RunControl(fg, Control([49]) + ([UPPER] + rest), pen, scr);
    RunControl([49], [UPPER] + rest, pen1, scr);
    RunGlyph(UPPER, rest, pen1.(bg := None), scr);
  }

  lemma ShowsBottomOnly(top: Pixel, bottom: Pixel, rest: seq<char>, pen: Pen, scr: Screen)
    requires !Visible(top) && Visible(bottom)
    ensures PixelsToAnsi(top, bottom) == Control([38, 2, bottom.r, bottom.g, bottom.b]) + Control([49]) + [LOWER]
    ensures Run(PixelsToAnsi(top, bottom) + rest, pen, scr)
         == Run(rest, PenAfter(top, bottom), Screen(scr.lines, scr.open + [Intended(top, bottom)]))
  {
    ResetsAreControls();
    ForegroundIsControl(bottom);
    var fg := [38, 2, bottom.r, bottom.g, bottom.b];
    var pen1 := pen.(fg := Some(bottom.Color()));
    assert PixelsToAnsi(top, bottom) + rest == Control(fg) + (Control([49]) + ([LOWER] + rest));
    RunControl(fg, Control([49]) + ([LOWER] + rest), pen, scr);
    RunControl([49], [LOWER] + rest, pen1, scr);
    RunGlyph(LOWER, rest, pen1.(bg := None), scr);
  }

  lemma ShowsNeither(top: Pixel, bottom: Pixel, rest: seq<char>, pen: Pen, scr: Screen)
    requires !Visible(top) && !Visible(bottom)
    ensures PixelsToAnsi(top, bottom) == Control([0]) + [' ']
    ensures Run(PixelsToAnsi(top, bottom) + rest, pen, scr)
         == Run(rest, PenAfter(top, bottom), Screen(scr.lines, scr.open + [Intended(top, bottom)]))
  {
    ResetsAreControls();
    assert PixelsToAnsi(top, bottom) + rest == Control([0]) + ([' '] + rest);
    RunControl([0], [' '] + rest, pen, scr);
    RunGlyph(' ', rest, DefaultPen, scr);
  }

  /** Each encoded cell is self-contained as far as colour goes: whatever colours are selected
      before it (any pen), it draws exactly one cell, showing the top pixel in the top half and the bottom pixel in the
      bottom half, each as its colour if fully opaque and as the backdrop otherwise; and the
      pen it leaves depends only on the pair. */
  lemma CellShows(top: Pixel, bottom: Pixel, rest: seq<char>, pen: Pen, scr: Screen)
    ensures Run(PixelsToAnsi(top, bottom) + rest, pen, scr)
         == Run(rest, PenAfter(top, bottom), Screen(scr.lines, scr.open + [Intended(top, bottom)]))
  {
    if Visible(top) && Visible(bottom) {
      ShowsBoth(top, bottom, rest, pen, scr);
    } else if Visible(top) {
      ShowsTopOnly(top, bottom, rest, pen, scr);
    } else if Visible(bottom) {
      ShowsBottomOnly(top, bottom, rest, pen, scr);
    } else {
      ShowsNeither(top, bottom, rest, pen, scr);
    }
  }

  /** The colour of a pixel that is not fully opaque never reaches the output: such a pixel
      can be replaced by any other such pixel without changing the cell. */
  lemma HiddenColorIgnored(top: Pixel, bottom: Pixel, other: Pixel)
    requires !Visible(other)
    ensures !Visible(bottom) ==> PixelsToAnsi(top, bottom) == PixelsToAnsi(top, other)
    ensures !Visible(top) ==> PixelsToAnsi(top, bottom) == PixelsToAnsi(other, bottom)
  {
  }

  /** The characters of control sequences: no glyph, no space and no newline among them. */
  predicate ControlChar(c: char) {
    c == ESC || c == '[' || c == ';' || c == 'm' || IsDigit(c)
  }

  predicate ControlText(s: seq<char>) {
    forall i :: 0 <= i < |s| ==> ControlChar(s[i])
  }

  lemma ControlTextAppend(a: seq<char>, b: seq<char>)
    requires ControlText(a) && ControlText(b)
    ensures ControlText(a + b)
  {
  }

  lemma ChannelTextIsControl(p: Pixel)
    ensures ControlText(ChannelText(p))
  {
    var r, g, b := DecimalString(p.r), DecimalString(p.g), DecimalString(p.b);
    DecimalDigits(p.r);
    DecimalDigits(p.g);
    DecimalDigits(p.b);
    ControlTextAppend(r, ";");
    ControlTextAppend(r + ";", g);
    ControlTextAppend(r + ";" + g, ";");
    ControlTextAppend(r + ";" + g + ";", b);
  }

  /** A cell encoding is control text followed by its one glyph: it holds no newline, and
      exactly one of its characters is a glyph. */
  lemma CellVocabulary(top: Pixel, bottom: Pixel)
    ensures var s := PixelsToAnsi(top, bottom);
      |s| > 0 && ControlText(s[..|s| - 1]) && s[|s| - 1] in {UPPER, LOWER, ' '}
  {
    var s := PixelsToAnsi(top, bottom);
    ChannelTextIsControl(top);
    ChannelTextIsControl(bottom);
    if Visible(top) {
      ControlTextAppend([ESC] + "[38;2;", ChannelText(top));
      ControlTextAppend([ESC] + "[38;2;" + ChannelText(top), "m");
      if Visible(bottom) {
        ControlTextAppend([ESC] + "[48;2;", ChannelText(bottom));
        ControlTextAppend([ESC] + "[48;2;" + ChannelText(bottom), "m");
        ControlTextAppend(Foreground(top), Background(bottom));
        assert s[..|s| - 1] == Foreground(top) + Background(bottom);
      } else {
        ControlTextAppend(Foreground(top), DefaultBackground);
        assert s[..|s| - 1] == Foreground(top) + DefaultBackground;
      }
    } else if Visible(bottom) {
      ControlTextAppend([ESC] + "[38;2;", ChannelText(bottom));
      ControlTextAppend([ESC] + "[38;2;" + ChannelText(bottom), "m");
      ControlTextAppend(Foreground(bottom), DefaultBackground);
      assert s[..|s| - 1] == Foreground(bottom) + DefaultBackground;
    } else {
      assert s[..|s| - 1] == Reset;
    }
  }

  /** Glyphs drawn by a string: upper and lower half blocks and spaces. */
  function GlyphCount(s: seq<char>): nat {
    Occurrences(UPPER, s) + Occurrences(LOWER, s) + Occurrences(' ', s)
  }

  lemma ControlTextCounts(s: seq<char>)
    requires ControlText(s)
    ensures Occurrences('\n', s) == 0 && GlyphCount(s) == 0
  {
    forall i | 0 <= i < |s| ensures s[i] != '\n' && s[i] != UPPER && s[i] != LOWER && s[i] != ' ' {
      assert ControlChar(s[i]);
    }
    OccurrencesAbsent('\n', s);
    OccurrencesAbsent(UPPER, s);
    OccurrencesAbsent(LOWER, s);
    OccurrencesAbsent(' ', s);
  }

  lemma GlyphAfterControls(s: seq<char>)
    requires |s| > 0 && ControlText(s[..|s| - 1])
    ensures Occurrences('\n', s) == (if s[|s| - 1] == '\n' then 1 else 0)
    ensures Occurrences(LOWER, s) == (if s[|s| - 1] == LOWER then 1 else 0)
    ensures GlyphCount(s) == (if s[|s| - 1] in {UPPER, LOWER, ' '} then 1 else 0)
  {
    var prefix := s[..|s| - 1];
    ControlTextCounts(prefix);
    assert s[..|s| - 1] == prefix;
  }

  /** A cell encoding draws exactly one glyph, which is a lower half block only when the top
      pixel is hidden and the bottom one is not, and it never writes a newline. */
  lemma CellCounts(top: Pixel, bottom: Pixel)
    ensures var s := PixelsToAnsi(top, bottom);
      && Occurrences('\n', s) == 0
      && GlyphCount(s) == 1
      && Occurrences(LOWER, s) == (if !Visible(top) && Visible(bottom) then 1 else 0)
  {
    CellVocabulary(top, bottom);
    GlyphAfterControls(PixelsToAnsi(top, bottom));
  }

  /** The encoding of one pixel pair. */
  function Cell(pair: (Pixel, Pixel)): seq<char> {
    PixelsToAnsi(pair.0, pair.1)
  }

  /** The cell encodings of a run of pixel pairs. */
  function Cells(pairs: seq<(Pixel, Pixel)>): (cells: seq<seq<char>>)
    ensures |cells| == |pairs|
  {
    Map(Cell, pairs)
  }

  /** Cell `i` is the encoding of pair `i`. */
  lemma CellsAt(pairs: seq<(Pixel, Pixel)>, i: nat)
    requires i < |pairs|
    ensures Cells(pairs)[i] == PixelsToAnsi(pairs[i].0, pairs[i].1)
  {
    MapAt(Cell, pairs, i);
  }

  /** The encodings of a run of pixel pairs, left to right. */
  function EncodeAll(pairs: seq<(Pixel, Pixel)>): seq<char> {
    Concat(Cells(pairs))
  }

  /** The pen left after encoding a run of pairs on pen `pen`: that of the last pair. */
  function PenAfterAll(pairs: seq<(Pixel, Pixel)>, pen: Pen): Pen {
    if |pairs| == 0 then pen else PenAfter(pairs[|pairs| - 1].0, pairs[|pairs| - 1].1)
  }

  /** The cells a run of pixel pairs is meant to show. */
  function IntendedAll(pairs: seq<(Pixel, Pixel)>): (tiles: seq<Tile>)
    ensures |tiles| == |pairs|
  {
    seq(|pairs|, i requires 0 <= i < |pairs| => Intended(pairs[i].0, pairs[i].1))
  }

  /** Written after any output, `cell` draws the one cell `tile` and leaves the pen `after`. */
  ghost predicate DrawsCell(cell: seq<char>, tile: Tile, after: Pen) {
    forall rest: seq<char>, pen: Pen, scr: Screen ::
      Run(cell + rest, pen, scr) == Run(rest, after, Screen(scr.lines, scr.open + [tile]))
  }

  lemma CellDraws(top: Pixel, bottom: Pixel)
    ensures DrawsCell(PixelsToAnsi(top, bottom), Intended(top, bottom), PenAfter(top, bottom))
  {
    forall rest: seq<char>, pen: Pen, scr: Screen
      ensures Run(PixelsToAnsi(top, bottom) + rest, pen, scr)
           == Run(rest, PenAfter(top, bottom), Screen(scr.lines, scr.open + [Intended(top, bottom)]))
    {
      CellShows(top, bottom, rest, pen, scr);
    }
  }

  /** Cells written one after another draw their tiles in order and leave the last one's pen. */
  lemma {:induction false} ConcatDrawsCells(cells: seq<seq<char>>, tiles: seq<Tile>, pens: seq<Pen>, rest: seq<char>, pen: Pen, scr: Screen)
    requires |cells| == |tiles| == |pens|
    requires forall i :: 0 <= i < |cells| ==> DrawsCell(cells[i], tiles[i], pens[i])
    ensures Run(Concat(cells) + rest, pen, scr)
         == Run(rest, if |cells| == 0 then pen else pens[|cells| - 1], Screen(scr.lines, scr.open + tiles))
    decreases |cells|
  {
    var n := |cells|;
    if n == 0 {
      assert Concat(cells) + rest == rest;
      assert scr.open + tiles == scr.open;
    } else {
      var init, last := cells[..n - 1], cells[n - 1];
      assert Concat(cells) + rest == Concat(init) + (last + rest);
      assert forall i :: 0 <= i < n - 1 ==> init[i] == cells[i] && tiles[..n - 1][i] == tiles[i] && pens[..n - 1][i] == pens[i];
      ConcatDrawsCells(init, tiles[..n - 1], pens[..n - 1], last + rest, pen, scr);
      var pen1 := if n - 1 == 0 then pen else pens[n - 2];
      var scr1 := Screen(scr.lines, scr.open + tiles[..n - 1]);
      assert DrawsCell(last, tiles[n - 1], pens[n - 1]);
      assert Run(last + rest, pen1, scr1) == Run(rest, pens[n - 1], Screen(scr1.lines, scr1.open + [tiles[n - 1]]));
      assert scr1.open + [tiles[n - 1]] == scr.open + tiles;
    }
  }

  /** A run of encoded cells, written on any pen, draws one intended cell per pair, in order. */
  lemma EncodeAllShows(pairs: seq<(Pixel, Pixel)>, rest: seq<char>, pen: Pen, scr: Screen)
    ensures Run(EncodeAll(pairs) + rest, pen, scr)
         == Run(rest, PenAfterAll(pairs, pen), Screen(scr.lines, scr.open + IntendedAll(pairs)))
  {
    var cells, tiles := Cells(pairs), IntendedAll(pairs);
    var pens := seq(|pairs|, i requires 0 <= i < |pairs| => PenAfter(pairs[i].0, pairs[i].1));
    forall i | 0 <= i < |pairs|
      ensures DrawsCell(cells[i], tiles[i], pens[i])
    {
      CellsAt(pairs, i);
      CellDraws(pairs[i].0, pairs[i].1);
    }
    ConcatDrawsCells(cells, tiles, pens, rest, pen, scr);
  }

  lemma CountsAppend(a: seq<char>, b: seq<char>)
    ensures Occurrences('\n', a + b) == Occurrences('\n', a) + Occurrences('\n', b)
    ensures Occurrences(LOWER, a + b) == Occurrences(LOWER, a) + Occurrences(LOWER, b)
    ensures GlyphCount(a + b) == GlyphCount(a) + GlyphCount(b)
  {
    OccurrencesAppend('\n', a, b);
    OccurrencesAppend(UPPER, a, b);
    OccurrencesAppend(LOWER, a, b);
    OccurrencesAppend(' ', a, b);
  }

  /** Pieces that draw `k` glyphs each draw, together, `k` per piece. */
  lemma {:induction false} ConcatGlyphs(parts: seq<seq<char>>, k: nat)
    requires forall i :: 0 <= i < |parts| ==> GlyphCount(parts[i]) == k
    ensures GlyphCount(Concat(parts)) == |parts| * k
    decreases |parts|
  {
    var n := |parts|;
    if n > 0 {
      var init := parts[..n - 1];
      assert forall i :: 0 <= i < n - 1 ==> init[i] == parts[i];
      ConcatGlyphs(init, k);
      CountsAppend(Concat(init), parts[n - 1]);
      MulStep(n - 1, k);
    }
  }

  /** A run of cells draws one glyph per pair and writes no newline. */
  lemma EncodeAllCounts(pairs: seq<(Pixel, Pixel)>)
    ensures Occurrences('\n', EncodeAll(pairs)) == 0
    ensures GlyphCount(EncodeAll(pairs)) == |pairs|
  {
    var cells := Cells(pairs);
    forall i | 0 <= i < |cells|
      ensures Occurrences('\n', cells[i]) == 0 && GlyphCount(cells[i]) == 1
    {
      CellsAt(pairs, i);
      CellCounts(pairs[i].0, pairs[i].1);
    }
    ConcatOccurrences('\n', cells, 0);
    ConcatGlyphs(cells, 1);
  }

  /** A run of cells none of whose bottom pixels is visible draws no lower half block. */
  lemma EncodeAllNoLower(pairs: seq<(Pixel, Pixel)>)
    requires forall i :: 0 <= i < |pairs| ==> !Visible(pairs[i].1)
    ensures Occurrences(LOWER, EncodeAll(pairs)) == 0
  {
    var cells := Cells(pairs);
    forall i | 0 <= i < |cells|
      ensures Occurrences(LOWER, cells[i]) == 0
    {
      CellsAt(pairs, i);
      CellCounts(pairs[i].0, pairs[i].1);
    }
    ConcatOccurrences(LOWER, cells, 0);
  }

  /** `ESC[48`, the start of a background colour selection. */
  const BackgroundIntro: seq<char> := [ESC] + "[48"

  /** A background colour selection starts at position `i` of `s`. */
  predicate BackgroundAt(s: seq<char>, i: nat)
    requires i + 4 <= |s|
  {
    s[i..i + 4] == BackgroundIntro
  }

  /** No background colour is selected anywhere in `s`. */
  predicate SelectsNoBackground(s: seq<char>) {
    forall i: nat :: i + 4 <= |s| ==> !BackgroundAt(s, i)
  }

  /** Every escape in `s` is followed within `s` by `[` and two parameter characters other
      than `48`; a property that, unlike the one above, survives concatenation. */
  predicate EscapesClear(s: seq<char>) {
    forall i :: 0 <= i < |s| && s[i] == ESC ==> i + 3 < |s| && s[i + 1] == '[' && !(s[i + 2] == '4' && s[i + 3] == '8')
  }

  lemma EscapesClearAppend(a: seq<char>, b: seq<char>)
    requires EscapesClear(a) && EscapesClear(b)
    ensures EscapesClear(a + b)
  {
    var s := a + b;
    forall i | 0 <= i < |s| && s[i] == ESC
      ensures i + 3 < |s| && s[i + 1] == '[' && !(s[i + 2] == '4' && s[i + 3] == '8')
    {
      if i >= |a| {
        assert b[i - |a|] == ESC;
      }
    }
  }

  lemma EscapesClearSelectsNoBackground(s: seq<char>)
    requires EscapesClear(s)
    ensures SelectsNoBackground(s)
  {
    forall i: nat | i + 4 <= |s|
      ensures !BackgroundAt(s, i)
    {
      var w := s[i..i + 4];
      assert w[0] == s[i] && w[2] == s[i + 2] && w[3] == s[i + 3];
      assert BackgroundIntro[0] == ESC && BackgroundIntro[2] == '4' && BackgroundIntro[3] == '8';
    }
  }

  lemma ChannelTextHasNoEscape(p: Pixel)
    ensures EscapesClear(ChannelText(p))
  {
    DecimalDigits(p.r);
    DecimalDigits(p.g);
    DecimalDigits(p.b);
    var c := ChannelText(p);
    forall i | 0 <= i < |c|
      ensures c[i] != ESC
    {
      assert IsDigit(c[i]) || c[i] == ';';
    }
  }

  lemma ForegroundClear(p: Pixel)
    ensures EscapesClear(Foreground(p))
  {
    ChannelTextHasNoEscape(p);
    var lead: seq<char> := [ESC] + "[38;2;";
    assert EscapesClear(lead);
    EscapesClearAppend(lead, ChannelText(p));
    EscapesClearAppend(lead + ChannelText(p), "m");
  }

  /** A cell whose bottom pixel is hidden selects no background colour; in particular the cells
      of the last line of an image of odd height. */
  lemma HiddenBottomSelectsNoBackground(top: Pixel, bottom: Pixel)
    requires !Visible(bottom)
    ensures EscapesClear(PixelsToAnsi(top, bottom))
    ensures SelectsNoBackground(PixelsToAnsi(top, bottom))
  {
    var s := PixelsToAnsi(top, bottom);
    if Visible(top) {
      ForegroundClear(top);
      assert EscapesClear(DefaultBackground + [UPPER]);
      EscapesClearAppend(Foreground(top), DefaultBackground + [UPPER]);
      assert s == Foreground(top) + (DefaultBackground + [UPPER]);
    } else {
      assert EscapesClear(s);
    }
    EscapesClearSelectsNoBackground(s);
  }

  /** Pieces whose escapes all stay clear of `ESC[48` stay clear when written together. */
  lemma {:induction false} ConcatClear(parts: seq<seq<char>>)
    requires forall i :: 0 <= i < |parts| ==> EscapesClear(parts[i])
    ensures EscapesClear(Concat(parts))
    decreases |parts|
  {
    var n := |parts|;
    if n > 0 {
      var init := parts[..n - 1];
      assert forall i :: 0 <= i < n - 1 ==> init[i] == parts[i];
      ConcatClear(init);
      EscapesClearAppend(Concat(init), parts[n - 1]);
    }
  }

  /** A run of cells none of whose bottom pixels is visible selects no background colour. */
  lemma EncodeAllClear(pairs: seq<(Pixel, Pixel)>)
    requires forall i :: 0 <= i < |pairs| ==> !Visible(pairs[i].1)
    ensures EscapesClear(EncodeAll(pairs))
  {
    var cells := Cells(pairs);
    forall i | 0 <= i < |cells|
      ensures EscapesClear(cells[i])
    {
      CellsAt(pairs, i);
      HiddenBottomSelectsNoBackground(pairs[i].0, pairs[i].1);
    }
    ConcatClear(cells);
  }
}
