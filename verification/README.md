# Olive text generator: evaluation and CPU frame synthesis

A Dafny model of the text generator node of the Olive video editor's node
graph (`app/node/generator/text/text.cpp`). It models two things:

- **Evaluation** (`TextGenerator::Value`). The node copies the values of its
  three inputs out of the pass's value database: `text_in`, `color_in` and
  `valign_in`. It puts them in a generate job that asks for an alpha channel.
  It then takes the upstream table that the database merges and pushes the job
  on top, but only when the text is non-empty.
- **Frame synthesis** (`TextGenerator::GenerateFrame`). This covers three
  steps:
  - the vertical offset of the laid-out document, in C++ integer arithmetic;
  - the zero-filled 8-bit greyscale image, whose scanlines are padded to
    32-bit words;
  - the alpha transplant. This nested loop writes each frame pixel as the text
    colour premultiplied by the mask byte read as alpha.

Modules, leaves first:

| file | module | what it holds |
|---|---|---|
| variants.dfy | `Variants` | colours with exact real channels, dynamically typed input values, the text/integer/colour conversions |
| jobs.dfy | `Jobs` | the per-pass value database as a map from input id to value, the generate job |
| tables.dfy | `Tables` | value-table entries `(type tag, value, producing node)` |
| alignment.dfy | `Alignment` | the alignment codes and the vertical offset |
| raster.dfy | `Raster` | the greyscale image, scanline padding, pixel addressing, the rasteriser as a list of strokes |
| transplant.dfy | `Transplant` | premultiplication and the transplant loop |
| text_generator.dfy | `TextGenerator` | the node's inputs and defaults, `Value`, `GenerateFrame` |

Choices made in the model:
- Layout and rasterisation are inputs, not computed. The document height is
  `docHeight`. The rasteriser is `drawContents`, a function from the painter's
  vertical offset to the strokes it leaves on the image. A stroke is
  `(x, y, coverage byte)`. Strokes outside the image are clipped, and a later
  stroke on the same pixel replaces an earlier one.
- `Merge()` is the parameter `merged` of `Value`.
- The alpha `byte / 255` is an exact `real`, not a float.
- The offset uses the frame's full-resolution height
  (`video_params().height()`). The loops use the frame's own width and
  height. The source does the same.
- Input values convert as follows. The model assumes these rules; the code
  that implements them is not part of this model.
  - `toString()`: text is returned as is, an integer becomes its decimal
    spelling, and a colour or an unset value becomes empty text.
  - `toInt()`: text is parsed as an optional sign followed by digits, into a
    64-bit integer. Text that does not parse, or does not fit in 64 bits,
    gives 0. The 64-bit result is then narrowed to 32 bits, keeping the low
    32 bits, so "4294967297" reads as 1.
  - `value<Color>()`: a value that is not a colour gives the all-zero colour.

How the code places the text vertically:
- Center computes `H / 2 - D / 2`, truncating each half separately. The
  result is within half a unit of `(H - D) / 2` (`CenterNearMidpoint`).
- No offset is clamped. A document taller than the frame gets a negative
  Bottom offset. Its Center offset is at most zero, and negative once the
  document is at least two units taller (`TallDocumentOffsetNegative`).
  A frame 2 tall with a document 3 tall gets a Center offset of exactly 0
  (`CenterOneUnitTallerIsZero`).

## Model

| member | source | states |
|---|---|---|
| TextGenerator.Value | app/node/generator/text/text.cpp:85-100 | the result starts with the merged upstream table unchanged and adds at most one entry; an entry is added exactly when the text input converts to non-empty text, and it is a generate-job entry holding the snapshot, produced by this node |
| TextGenerator.Snapshot | app/node/generator/text/text.cpp:87-91 | the job holds exactly the three inputs, each with the value the database resolved for it, and requires an alpha channel |
| TextGenerator.SnapshotGetValue | app/node/generator/text/text.cpp:87-90 | reading any of the node's inputs back from the job gives the value the database resolved |
| TextGenerator.ValueReadsOnlyOwnInputs | app/node/generator/text/text.cpp:85-99 | two databases that agree on the node's three inputs give the same table |
| TextGenerator.DefaultInputs | app/node/generator/text/text.cpp:33-50 | the constructor's three inputs have distinct ids; their defaults are non-empty markup, white and Center |
| TextGenerator.ResolveInputs | app/node/generator/text/text.cpp:37-50 | for inputs with distinct ids, the database has exactly their ids; a connected input resolves to the value it receives from upstream, an unconnected one to its default |
| TextGenerator.DefaultNodePushesJob | app/node/generator/text/text.cpp:33-99 | a node with no input connected pushes one job that asks for the default markup, centred, in white |
| TextGenerator.GenerateFrame | app/node/generator/text/text.cpp:102-144 | the frame keeps its size; each pixel is the job's colour premultiplied by the coverage the rasteriser left there, with the rasteriser offset by the job's alignment |
| TextGenerator.TextOffset | app/node/generator/text/text.cpp:119-130 | an unset or colour alignment value reads as Top and gives offset 0; an alignment code the enumeration does not name is drawn as Bottom, with the document's bottom edge on the frame's bottom edge |
| TextGenerator.UntouchedPixelTransparent | app/node/generator/text/text.cpp:108-143 | a pixel no stroke reaches comes out as (0, 0, 0, 0), whatever the colour |
| Alignment.VerticalOffset | app/node/generator/text/text.cpp:119-130 | Top leaves no gap above the document; Center makes the gaps above and below differ by at most one; every other code puts the document's bottom edge on the frame's bottom edge |
| Alignment.TruncDiv | app/node/generator/text/text.cpp:125 | integer halving truncates toward zero: the remainder has the dividend's sign and is smaller than the divisor |
| Alignment.CenterNearMidpoint | app/node/generator/text/text.cpp:123-125 | the centred offset is within half a unit of the exact `(H - D) / 2` |
| Alignment.HalfMonotone | app/node/generator/text/text.cpp:125 | the truncated half of `x`, and `x` minus that half, never decrease as `x` grows |
| Alignment.OffsetOrdering | app/node/generator/text/text.cpp:119-130 | if the document fits, Top <= Center <= Bottom; if it does not fit, the order is reversed |
| Alignment.TallDocumentOffsetNegative | app/node/generator/text/text.cpp:121-129 | there is no clamping: a document taller than the frame gets a negative Bottom offset and a Center offset of at most zero, which is negative once the document is at least two units taller |
| Alignment.CenterOneUnitTallerIsZero | app/node/generator/text/text.cpp:125 | a frame 2 tall with a document 3 tall gives a centred offset of 0 |
| Raster.BytesPerLine | app/node/generator/text/text.cpp:108 | a scanline holds at least `width` bytes, at most three bytes more, and is a multiple of four |
| Raster.PixelIndexInBounds | app/node/generator/text/text.cpp:136-138 | the read position `bytesPerLine * y + x` is inside the image data for every pixel in the loop's range |
| Raster.PixelIndexInjective | app/node/generator/text/text.cpp:136-141 | distinct pixels read distinct bytes |
| Raster.RowGap | app/node/generator/text/text.cpp:138 | a later scanline starts at least one whole scanline further on |
| Raster.ZeroMask | app/node/generator/text/text.cpp:108-109 | a new image has the frame's size and every pixel is zero |
| Raster.PaintStroke | app/node/generator/text/text.cpp:132 | a stroke inside the image sets its own pixel's byte and changes no other pixel; a stroke outside it changes nothing |
| Raster.Paint | app/node/generator/text/text.cpp:132 | after painting, each pixel holds the coverage of the last stroke on it, or what it held before if no stroke reached it; the image keeps its size and scanline length |
| Raster.UntouchedPixelStaysZero | app/node/generator/text/text.cpp:108-132 | a pixel no stroke reaches is still zero after painting |
| Raster.UntouchedCoverageIsBackground | app/node/generator/text/text.cpp:132 | with no stroke on a pixel, its final coverage is the background |
| Transplant.TransplantAlpha | app/node/generator/text/text.cpp:134-143 | every pixel of the frame is written exactly once, with the colour premultiplied by the mask byte at `bytesPerLine * y + x` |
| Transplant.Premultiply | app/node/generator/text/text.cpp:139-141 | the alpha written is the mask byte over 255, and each colour channel written is the colour's channel times that alpha |
| Transplant.PremultiplyAlpha | app/node/generator/text/text.cpp:138-141 | the alpha written is in [0, 1] and times 255 is the mask byte; byte 0 gives (0, 0, 0, 0) and byte 255 gives the colour, opaque |
| Transplant.PremultiplyRoundTrip | app/node/generator/text/text.cpp:139-141 | unpremultiplying a pixel with non-zero coverage gives back the text colour, with the mask's alpha |
| Transplant.PremultipliedChannelsWithinAlpha | app/node/generator/text/text.cpp:141 | for colour channels in [0, 1], each written channel lies between 0 and the written alpha |
| Jobs.SetAlphaChannelRequired | app/node/generator/text/text.cpp:91 | the job keeps its values and its alpha flag becomes the one given |
| Jobs.GetValue | app/node/generator/text/text.cpp:95 | reading an input from a job gives the value stored for it, or an unset value when the job holds none |
| Tables.Push | app/node/generator/text/text.cpp:96 | the table keeps all its entries in order and gains one entry on top, holding the given tag, value and producing node |
| Jobs.InsertValue | app/node/generator/text/text.cpp:88-90 | inserting an input adds its resolved value to the job and leaves the other values and the alpha flag alone |
| Variants.ToText | app/node/generator/text/text.cpp:95 | text converts to itself; an integer converts to non-empty text, and a 32-bit integer's text parses back to it; an unset value or a colour converts to empty text |
| Variants.ToTextEmptyIff | app/node/generator/text/text.cpp:95 | a value converts to empty text exactly when it is unset, a colour, or empty text |
| Variants.ToInt | app/node/generator/text/text.cpp:119 | every result is a 32-bit value; an integer converts to the 32-bit value congruent to it modulo 2^32, which is itself when it already fits; unset, colour and empty text convert to 0 (Top) |
| Variants.ToColor | app/node/generator/text/text.cpp:135 | a colour value converts to that colour; anything else converts to the all-zero colour |
| Variants.ParseInt | app/node/generator/text/text.cpp:119 | the result is always a 32-bit value, and empty text gives 0 |
| Variants.Narrow32 | app/node/generator/text/text.cpp:119 | narrowing gives a 32-bit value congruent to its argument modulo 2^32, and leaves a 32-bit value unchanged |
| Variants.ParseIntWraps | app/node/generator/text/text.cpp:119 | the text "4294967297" converts to 1, wrapping rather than giving 0 |
| Variants.IntTextRoundTrip | app/node/generator/text/text.cpp:119 | an alignment code spelt as text converts back to the same code |
| Variants.ParseIntRoundTrip | app/node/generator/text/text.cpp:119 | parsing the decimal spelling of a 32-bit integer gives the integer |
| Variants.ParseLongRoundTrip | app/node/generator/text/text.cpp:119 | parsing the decimal spelling of a 64-bit integer into 64 bits gives the integer |
| Variants.DecimalRoundTrip | app/node/generator/text/text.cpp:95 | the digits of a natural number read back as that number |

## Left out

- `Name`, `id`, `Category`, `Description`, `Retranslate` and `copy` (lines 53-83) are left out. They are display metadata and object copying, with no logic.
- `tr()` translation is left out. The default markup uses the untranslated "Sample Text".
- HTML parsing, text layout with the text width, and `drawContents` are left out. They belong to the rich-text engine. Their results are the `docHeight` and `drawContents` inputs of `GenerateFrame`.
- The painter's scale by `1 / divider` is left out. It is a floating-point transform applied inside the rasteriser.
- How the painter blends overlapping glyph coverage is left out. Each stroke's byte replaces the previous one.
- IEEE single-precision behaviour of `Color` and of `src_alpha / 255.0f` is left out. Exact reals are used.
- The resolution of the value database and the internals of `Merge()` are left out. The database is a map, and the merged table is a parameter.
- `toInt()` on text: leading or trailing whitespace is not modelled. Text with whitespace converts to 0 in this model.
- ParseInt: the 64-bit parse followed by narrowing to 32 bits is an assumption about how the variant converts text to an integer. That conversion code is not part of this model.
- Value: `merged` stands for whatever `Merge()` returns after the three values are inserted into the job. Any change `InsertValue` might make to the database it is passed is not modelled.
- The default-constructed colour is assumed to be all zeros. The `Color` class is not part of this model.
- The default colour input is built from three channels; its alpha is taken as 1, since the constructor's default alpha is not part of this model. Nothing depends on it: the transplant ignores the colour's alpha.
- ToInt: narrowing an integer value to 32 bits, like the text case, is an assumption about the variant conversion. A 32-bit combo value is unaffected.
- ResolveInputs: "the upstream value if connected, else the default" is an abstract stand-in for how the value database resolves inputs. That resolution is not part of this model.
- TextOffset: codes other than 0, 1 and 2 are cast to the alignment enumeration, whose values range over 0 to 3. For 3 the Bottom branch is what C++ guarantees. For a negative code or one above 3 the cast has no defined result; the model takes the Bottom branch, as common compilers do.
- `app/node/input/media/video/video.h` is left out. It only declares a video input's capabilities and shader code.
- Graph construction, cycle detection, node capabilities and the shader path are left out. They lie outside this file.
