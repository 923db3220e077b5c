# px2ansi: pixel pairs to ANSI half-block art, in Dafny

px2ansi turns an RGBA image into terminal text. Each character cell shows two pixels stacked
vertically. It uses the half-block glyphs U+2580 and U+2584, or a space, with 24-bit SGR
colours (Select Graphic Rendition, section 8.3.117 of ECMA-48). This project models the core
of `src/lib.rs`:

- `pixels_to_ansi` is the cell encoder. Given a top and a bottom pixel, it returns one or two
  SGR control sequences followed by exactly one glyph. A pixel counts as visible only when its
  alpha is 255.
- `image_to_ansi` is the frame traversal. It walks rows `0, 2, 4, ...` and, within each, the
  columns left to right. Every terminal line ends with `ESC[0m` and a newline. On the last row
  of an image of odd height, each pixel is paired with an invented transparent pixel
  `(0,0,0,0)`.

Modules:

- `Pixels` defines the RGBA pixel (`Rgba<u8>`), the visibility test `alpha == 255`, and the
  transparent filler pixel.
- `Text` holds sequence helpers: counting a character, writing pieces one after another, and
  mapping a function over a sequence.
- `Decimal` is unpadded decimal notation (`format!("{}")` on a `u8`) plus a reader, with a
  round-trip proof.
- `Sgr` is the syntax of SGR control sequences: `ESC [ p1 ; ... ; pn m`. It has a parser and a
  proof that every sequence reads back to its parameters.
- `Terminal` is an independent partner model of a 24-bit colour terminal. It executes SGR
  parameter lists `0`, `39`, `49`, `38;2;r;g;b` and `48;2;r;g;b`. It draws the three glyphs
  into cells with a top and a bottom half. Text it does not understand gives `None`.
- `Encoder` is `pixels_to_ansi`. Its main theorem (`CellShows`): the encoding of a pixel pair,
  written after whatever colours are selected before it, draws exactly one cell. That cell
  shows each pixel's colour if the pixel is fully opaque and the backdrop otherwise. Other SGR
  attributes are outside the model (see "Left out").
- `Render` is `image_to_ansi`. It has the loops (`EncodeLine`, `ImageToAnsi`), a reference
  definition (`Frame`, the terminal lines concatenated), and the end-to-end theorem
  `FrameShows`: written with any pen at the start of a line, the frame adds exactly the
  intended picture, one line per pair of pixel rows.
- `Scenarios` holds two concrete frames, proved equal byte for byte to their expected text.

Two behaviours of `src/lib.rs` that are easy to miss:

- Visibility is `alpha == 255` (src/lib.rs:14, 18, 28), not `alpha > 0`. A semi-transparent
  pixel is drawn as if absent.
- An image of width 0 but non-zero height does not give empty output. It gives
  ceil(height / 2) lines, each just `ESC[0m` and a newline (src/lib.rs:47-59). Only height 0
  gives the empty string (`FrameEmptyIff`, `ZeroWidthFrame`).

## Model

| member | source | states |
|---|---|---|
| Encoder.PixelsToAnsi | src/lib.rs:11-40 | the definition: the four branches on the two alpha tests, each pushing the same text as the source; its contract is carried by `CellGlyph`, the four `Shows…` lemmas and `CellShows` |
| Encoder.Foreground | src/lib.rs:16-31 | the definition `ESC[38;2;R;G;Bm` (lines 16 and 30-31); `ForegroundIsControl` states it is the SGR sequence 38, 2, R, G, B |
| Encoder.Background | src/lib.rs:20 | the definition `ESC[48;2;R;G;Bm`; `BackgroundIsControl` states it is the SGR sequence 48, 2, R, G, B |
| Encoder.CellGlyph | src/lib.rs:11-40 | the encoding ends in one glyph from {▀, ▄, space}; ▀ exactly when the top pixel has alpha 255; ▄ exactly when the top is not opaque and the bottom is |
| Encoder.ShowsBoth | src/lib.rs:14-21 | both opaque: the text is SGR `38;2;top rgb`, then SGR `48;2;bottom rgb`, then ▀; on any pen it draws top colour over bottom colour |
| Encoder.ShowsTopOnly | src/lib.rs:14-25 | top opaque, bottom not: the text is SGR `38;2;top rgb`, then SGR `49`, then ▀; the top colour shows over the backdrop |
| Encoder.ShowsBottomOnly | src/lib.rs:26-33 | top not opaque, bottom opaque: the text is SGR `38;2;bottom rgb`, then SGR `49`, then ▄; the backdrop shows over the bottom colour |
| Encoder.ShowsNeither | src/lib.rs:34-37 | neither opaque (semi-transparent included): the text is SGR `0` then a space, showing backdrop in both halves whatever the RGB values |
| Encoder.CellShows | src/lib.rs:11-40 | every cell is self-contained as far as colour goes: whatever colours are selected before it, it draws one cell showing each pixel's colour if opaque and the backdrop otherwise; the pen it leaves depends only on the pair |
| Encoder.HiddenColorIgnored | src/lib.rs:14-37 | the RGB of a pixel that is not fully opaque never influences the output |
| Encoder.ForegroundIsControl | src/lib.rs:16 | the foreground text is the SGR sequence with parameters 38, 2, R, G, B in that order, as unpadded decimals |
| Encoder.BackgroundIsControl | src/lib.rs:20 | the background text is the SGR sequence with parameters 48, 2, R, G, B |
| Encoder.ResetsAreControls | src/lib.rs:24-36 | `ESC[49m` and `ESC[0m` are the SGR sequences with parameters 49 and 0 |
| Encoder.CellVocabulary | src/lib.rs:11-40 | a cell encoding is control-sequence characters followed by its single glyph |
| Encoder.CellCounts | src/lib.rs:11-40 | a cell draws exactly one glyph, writes no newline, and draws ▄ only when the top is not opaque and the bottom is |
| Encoder.CellsAt | src/lib.rs:48-57 | the cell written for column x is the encoding of the pair in column x |
| Encoder.EncodeAllShows | src/lib.rs:48-57 | a run of encoded cells draws one intended cell per pixel pair, left to right, from any initial pen |
| Encoder.EncodeAllCounts | src/lib.rs:48-57 | a run of cells draws one glyph per pair and no newline |
| Encoder.EncodeAllNoLower | src/lib.rs:48-57 | a run of cells with no visible bottom pixel draws no ▄ |
| Encoder.HiddenBottomSelectsNoBackground | src/lib.rs:22-25 | a cell whose bottom pixel is not opaque contains no `ESC[48` background selection |
| Encoder.EncodeAllClear | src/lib.rs:48-57 | a run of cells with no visible bottom pixel contains no background selection |
| Decimal.DecimalString | src/lib.rs:16-32 | the definition of `format!("{}")` on a channel value (lines 16, 20 and 30-32), most significant digit first; its contract is carried by `DecimalDigits`, `ParseDecimal` and `ByteWidth` |
| Decimal.DecimalDigits | src/lib.rs:16 | channel values print as non-empty digit strings without leading zeros, one digit exactly below ten |
| Decimal.ParseDecimal | src/lib.rs:16 | the decimal text of a channel, followed by `;` or `m`, reads back as that channel |
| Decimal.ByteWidth | src/lib.rs:16 | a byte prints as one, two or three digits according to its magnitude |
| Sgr.ParseDigitsThenParams | src/lib.rs:16-31 | a run of digits followed by `;` and further parameters reads back as that run's value in front of those parameters, with the same text left over |
| Sgr.ParseControlOf | src/lib.rs:16-36 | every SGR sequence the encoder writes is self-delimiting and reads back to its parameter list |
| Render.Below | src/lib.rs:50-54 | the definition of `px2`: the pixel of the next row when `y + 1 < height`, else `(0,0,0,0)`; `OddLastRow` states the odd-height case |
| Render.Frame | src/lib.rs:47-59 | the reference definition: the terminal lines for row pairs 0, 2, 4, ..., each its cells then `ESC[0m` and a newline, concatenated; `ImageToAnsi` is proved equal to it and `FrameShows`, `FrameCounts` state what it shows and holds |
| Render.EncodeLine | src/lib.rs:48-57 | the column loop yields the encodings of the pairs (pixel, pixel below or transparent) for columns 0 to width-1 |
| Render.ImageToAnsi | src/lib.rs:42-62 | the row-pair loop yields the frame; it has ceil(height/2) newlines and is empty exactly when the height is 0 |
| Render.FrameShows | src/lib.rs:42-62 | with any pen, at the start of a line after any finished lines, the frame adds exactly the picture: ceil(height/2) lines of width cells, with pixel rows 2r and 2r+1 in line r; it leaves the default rendition unless the height is 0 |
| Render.PictureTile | src/lib.rs:47-56 | cell x of picture line r shows pixel (x, 2r) over pixel (x, 2r+1), each as its colour if fully opaque and the backdrop otherwise; the lower half is the backdrop when row 2r+1 does not exist |
| Render.LineShows | src/lib.rs:48-58 | one terminal line, on any pen, draws its cells as one finished screen line, and `ESC[0m` leaves the default rendition |
| Render.FrameCounts | src/lib.rs:47-59 | the frame has ceil(height/2) newlines and ceil(height/2) times width glyphs, and each of its lines holds exactly one newline and width glyphs |
| Render.FrameEmptyIff | src/lib.rs:47-58 | the output is empty if and only if the height is 0 |
| Render.ZeroWidthFrame | src/lib.rs:47-59 | with width 0 the output is ceil(height/2) copies of `ESC[0m` and a newline |
| Render.OddLastRow | src/lib.rs:47-54 | with odd height, the last terminal line starts at the last pixel row and pairs every pixel with (0,0,0,0) |
| Render.OddLastCells | src/lib.rs:50-56 | with odd height, cell x of the last line is SGR `38;2;rgb`, SGR `49` and ▀ when pixel x of the last row is opaque, and SGR `0` and a space otherwise |
| Render.OddLastLineText | src/lib.rs:50-58 | with odd height, the last line contains no `ESC[48` and no ▄ |
| Render.OddLastLineShown | src/lib.rs:50-54 | with odd height, every bottom half of the last line is shown as backdrop |
| Scenarios.OpaqueRedPixel | src/lib.rs:42-62 | a 1x1 opaque red image renders as `ESC[38;2;255;0;0m ESC[49m ▀ ESC[0m \n`, without the spaces |
| Scenarios.BlueOverGreen | src/lib.rs:42-62 | 2x2, blue over green beside a transparent column: `ESC[38;2;0;0;255m ESC[48;2;0;255;0m ▀ ESC[0m space ESC[0m \n`, without the spaces shown between sequences |

## Left out

- `convert_file` (src/lib.rs:6-9): file opening and image decoding through the `image` crate are I/O and foreign code. `Image` stands for the decoded result.
- `Image`: `DynamicImage::get_pixel` is modelled as indexing a rectangular `seq<seq<Pixel>>`. Colour-type conversion inside the `image` crate is foreign code. The `Valid` requirement is the crate's guarantee that images are rectangular with the dimensions they report.
- The width and height are `u32` in the source. `y + 1` cannot overflow because `y < height`, and `step_by(2)` stops inside the range, so unbounded `nat` is exact.
- src/main.rs: argument parsing, terminal-size probing, the floating-point target-size computation, the resize filter, and writing through `BufWriter` are I/O, `f64` arithmetic and foreign calls. `write_ansi_art`, which main.rs imports, is not part of this model: it is not defined in `src/lib.rs`.
- src/cli.rs: clap argument declarations and a one-to-one enum mapping. There is no behaviour to state.
- `Terminal.Select`: only the SGR parameter lists the encoder writes are interpreted, plus `39` (default foreground), one list per control sequence. Anything else is outside the model and yields `None`.
- Encoder.CellShows: the pen holds only the foreground and background colours. The three coloured branches (src/lib.rs:16, 20, 24, 30-31) never write SGR `0`, so other SGR attributes selected before the frame, such as `7` (negative image), stay active until the first `ESC[0m` and change how those cells look. Such attributes are outside the terminal model, which gives `None` for them.
- Render.FrameShows: stated for output that starts at the beginning of a line. Started on a half-written line, the first frame line continues that line, which the model does not describe further.
- Output is modelled as a sequence of Unicode scalar values, as Rust's `String` holds them, not as its UTF-8 bytes. ▀ and ▄ are three bytes each in UTF-8. No contract depends on byte length.
- The terminal model treats a newline only as "end of line". Cursor movement, wrapping and scrolling are not modelled.
- Determinism, i.e. rendering twice gives identical output: the functions are pure, and the two methods are pinned to them by their postconditions `line == EncodeAll(Pairs(img, y))` and `output == Frame(img)`.
