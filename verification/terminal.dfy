/** A small model of the 24-bit colour terminal the output is written for: it executes SGR
    control sequences and draws space and half-block glyphs, so that what a frame LOOKS like
    can be stated independently of how the encoder spells it. */
module Terminal {
  import opened Wrappers
  import opened Pixels
  import opened Sgr

  /** U+2580 UPPER HALF BLOCK: the top half is drawn in the foreground colour. */
  const UPPER: char := '\U{2580}'
  /** U+2584 LOWER HALF BLOCK: the bottom half is drawn in the foreground colour. */
  const LOWER: char := '\U{2584}'

  /** The current graphic rendition; `None` is the terminal's own default colour. */
  datatype Pen = Pen(fg: Option<Rgb>, bg: Option<Rgb>)

  const DefaultPen: Pen := Pen(None, None)

  /** What one half of a character cell shows. */
  datatype Shade =
    | Backdrop          // the terminal's default background
    | DefaultInk        // the terminal's default foreground
    | Paint(c: Rgb)     // a colour selected by a control sequence

  /** One character cell on screen: its top and bottom halves. */
  datatype Tile = Tile(top: Shade, bottom: Shade)

  /** The lines finished by a newline, and the line being written. */
  datatype Screen = Screen(lines: seq<seq<Tile>>, open: seq<Tile>)

  const EmptyScreen: Screen := Screen([], [])

  function FgShade(pen: Pen): Shade {
    match pen.fg
    case None => DefaultInk
    case Some(c) => Paint(c)
  }

  function BgShade(pen: Pen): Shade {
    match pen.bg
    case None => Backdrop
    case Some(c) => Paint(c)
  }

  /** The effect of one SGR parameter list: 0 default rendition, 39 / 49 default foreground /
      background, 38;2;r;g;b and 48;2;r;g;b direct colour. Other lists are outside the model. */
  function Select(pen: Pen, ps: seq<nat>): (r: Option<Pen>)
    ensures ps == [0] ==> r == Some(DefaultPen)
    ensures ps == [49] ==> r == Some(pen.(bg := None))
    ensures |ps| == 5 && ps[0] == 38 && ps[1] == 2 && ps[2] < 256 && ps[3] < 256 && ps[4] < 256
            ==> r == Some(pen.(fg := Some(Rgb(ps[2], ps[3], ps[4]))))
    ensures |ps| == 5 && ps[0] == 48 && ps[1] == 2 && ps[2] < 256 && ps[3] < 256 && ps[4] < 256
            ==> r == Some(pen.(bg := Some(Rgb(ps[2], ps[3], ps[4]))))
  {
    if ps == [0] then Some(DefaultPen)
    else if ps == [39] then Some(pen.(fg := None))
    else if ps == [49] then Some(pen.(bg := None))
    else if |ps| == 5 && ps[1] == 2 && ps[2] < 256 && ps[3] < 256 && ps[4] < 256 then
      var c := Rgb(ps[2], ps[3], ps[4]);
      if ps[0] == 38 then Some(pen.(fg := Some(c)))
      else if ps[0] == 48 then Some(pen.(bg := Some(c)))
      else None
    else None
  }

  /** How a glyph is drawn with the current pen; `None` for glyphs outside the model. */
  function Draw(pen: Pen, g: char): Option<Tile> {
    if g == UPPER then Some(Tile(FgShade(pen), BgShade(pen)))
    else if g == LOWER then Some(Tile(BgShade(pen), FgShade(pen)))
    else if g == ' ' then Some(Tile(BgShade(pen), BgShade(pen)))
    else None
  }

  /** Writes `s` to the terminal: control sequences change the pen, a newline ends the line,
      and every other character draws one cell. Returns the final pen and screen, or `None`
      at the first thing the model does not understand. */
  function Run(s: seq<char>, pen: Pen, scr: Screen): (r: Option<(Pen, Screen)>)
    decreases |s|
  {
    if |s| == 0 then Some((pen, scr))
    else if s[0] == ESC then
      match ParseControl(s)
      case None => None
      case Some((ps, rest)) =>
        match Select(pen, ps)
        case None => None
        case Some(pen') => Run(rest, pen', scr)
    else if s[0] == '\n' then Run(s[1..], pen, Screen(scr.lines + [scr.open], []))
    else
      match Draw(pen, s[0])
      case None => None
      case Some(t) => Run(s[1..], pen, Screen(scr.lines, scr.open + [t]))
  }

  /** Executing a control sequence and then the rest is executing the rest with the new pen. */
  lemma RunControl(ps: seq<nat>, rest: seq<char>, pen: Pen, scr: Screen)
    requires |ps| > 0 && Select(pen, ps).Some?
    ensures Run(Control(ps) + rest, pen, scr) == Run(rest, Select(pen, ps).value, scr)
  {
    ParseControlOf(ps, rest);
  }

  /** Drawing a glyph and then the rest. */
  lemma RunGlyph(g: char, rest: seq<char>, pen: Pen, scr: Screen)
    requires Draw(pen, g).Some?
    ensures Run([g] + rest, pen, scr)
         == Run(rest, pen, Screen(scr.lines, scr.open + [Draw(pen, g).value]))
  {
    assert ([g] + rest)[1..] == rest;
  }

  /** A newline closes the line being written. */
  lemma RunNewline(rest: seq<char>, pen: Pen, scr: Screen)
    ensures Run(['\n'] + rest, pen, scr) == Run(rest, pen, Screen(scr.lines + [scr.open], []))
  {
    assert (['\n'] + rest)[1..] == rest;
  }
}
