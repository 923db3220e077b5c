/** Two concrete frames, byte for byte. */
module Scenarios {
  import opened Pixels
  import opened Decimal
  import opened Terminal
  import opened Encoder
  import opened Render
  import opened Text

  /** An image of height one or two is one terminal line. */
  lemma OneLineFrame(img: Image, pairs: seq<(Pixel, Pixel)>)
    requires img.Valid() && 0 < img.height <= 2 && pairs == Pairs(img, 0)
    ensures Frame(img) == Line(pairs)
  {
    assert Rows(img) == [pairs];
    assert Lines([pairs]) == [Line(pairs)];
    assert Concat([Line(pairs)]) == Concat([]) + Line(pairs);
  }

  lemma OneCellLine(a: (Pixel, Pixel))
    ensures EncodeAll([a]) == PixelsToAnsi(a.0, a.1)
  {
    assert [a][..0] == [];
    assert Cells([a]) == Cells([]) + [PixelsToAnsi(a.0, a.1)];
    assert Concat([PixelsToAnsi(a.0, a.1)]) == Concat([]) + PixelsToAnsi(a.0, a.1);
  }

  lemma TwoCellLine(a: (Pixel, Pixel), b: (Pixel, Pixel))
    ensures EncodeAll([a, b]) == PixelsToAnsi(a.0, a.1) + PixelsToAnsi(b.0, b.1)
  {
    var left, right := PixelsToAnsi(a.0, a.1), PixelsToAnsi(b.0, b.1);
    assert [a, b][..1] == [a];
    OneCellLine(a);
    assert Cells([a, b]) == Cells([a]) + [right];
    assert Cells([a]) == [left];
    assert [left, right][..1] == [left];
    assert Concat([left, right]) == Concat([left]) + right;
  }

  lemma ChannelTexts()
    ensures ChannelText(Pixel(255, 0, 0, 255)) == "255;0;0"
    ensures ChannelText(Pixel(0, 0, 255, 255)) == "0;0;255"
    ensures ChannelText(Pixel(0, 255, 0, 255)) == "0;255;0"
  {
    assert DecimalString(255) == "255" by {
      assert DecimalString(25) == "25";
    }
    assert DecimalString(0) == "0";
  }

  lemma RedCell()
    ensures PixelsToAnsi(Pixel(255, 0, 0, 255), Transparent) == "\U{1B}[38;2;255;0;0m\U{1B}[49m\U{2580}"
  {
    ChannelTexts();
    assert Foreground(Pixel(255, 0, 0, 255)) == "\U{1B}[38;2;255;0;0m";
  }

  /** A single fully opaque red pixel: foreground red, default background, upper half block,
      then the line end. */
  lemma OpaqueRedPixel()
    ensures Frame(Image(1, 1, [[Pixel(255, 0, 0, 255)]]))
         == "\U{1B}[38;2;255;0;0m\U{1B}[49m\U{2580}\U{1B}[0m\n"
  {
    var red := Pixel(255, 0, 0, 255);
    var img := Image(1, 1, [[red]]);
    var pairs := Pairs(img, 0);
    assert pairs == [(red, Transparent)];
    OneCellLine((red, Transparent));
    RedCell();
    OneLineFrame(img, pairs);
    assert LineEnd == "\U{1B}[0m\n";
  }

  lemma BlueOverGreenControls()
    ensures Foreground(Pixel(0, 0, 255, 255)) == "\U{1B}[38;2;0;0;255m"
    ensures Background(Pixel(0, 255, 0, 255)) == "\U{1B}[48;2;0;255;0m"
  {
    ChannelTexts();
  }

  lemma BlueOverGreenCell()
    ensures PixelsToAnsi(Pixel(0, 0, 255, 255), Pixel(0, 255, 0, 255))
         == "\U{1B}[38;2;0;0;255m\U{1B}[48;2;0;255;0m\U{2580}"
  {
    BlueOverGreenControls();
  }

  /** Two by two: opaque blue over opaque green on the left, a fully transparent column on the
      right. The left cell is blue on green with an upper half block, the right one a reset
      and a space. */
  lemma BlueOverGreen()
    ensures Frame(Image(2, 2, [[Pixel(0, 0, 255, 255), Pixel(0, 0, 0, 0)],
                               [Pixel(0, 255, 0, 255), Pixel(0, 0, 0, 0)]]))
         == "\U{1B}[38;2;0;0;255m\U{1B}[48;2;0;255;0m\U{2580}\U{1B}[0m \U{1B}[0m\n"
  {
    var blue, green, clear := Pixel(0, 0, 255, 255), Pixel(0, 255, 0, 255), Pixel(0, 0, 0, 0);
    var img := Image(2, 2, [[blue, clear], [green, clear]]);
    var pairs := Pairs(img, 0);
    assert pairs == [(blue, green), (clear, clear)];
    var left, right := PixelsToAnsi(blue, green), PixelsToAnsi(clear, clear);
    BlueOverGreenCell();
    assert right == "\U{1B}[0m ";
    assert LineEnd == "\U{1B}[0m\n";
    TwoCellLine((blue, green), (clear, clear));
    OneLineFrame(img, pairs);
  }
}
