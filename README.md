# ZPL II graphic commands of SharpZebraStandard, modelled in Dafny

This project models the graphic half of `ZPLCommands` in SharpZebraStandard,
a .NET library that drives Zebra label printers in ZPL II. There are three
commands:

- `~DG` downloads a 1-bit raster into printer storage.
- `^FO…^XG…^FS` recalls a stored graphic at a field origin.
- `^ID` deletes a stored graphic.

On top of them, `CustomStringWrite` prints any text as a picture. It renders
the text to a bitmap, stores that bitmap under a fresh `SZT<number>` name and
places it.

The modules follow the code:

- `Bits` holds bit groups and `ConvertToByte`, which folds eight bits into a
  byte with `|=`.
- `Formatting` holds the C# number formats used: `{n}`, `{n:00000}`, `{b:X2}`.
- `Raster` is the image: a width, a height and a red value for every pixel.
- `GraphicCommands` holds the `~DG` encoder `GraphicStore` and the two fixed
  formatters `GraphicWrite` and `GraphicDelete`.
- `GraphicDecode` holds reference readers, one per command, and proves the
  round trips. Each reader is the exact inverse of its encoder, not a
  printer's parser: the store reader wants one newline-terminated line of
  `byteWidth` hex pairs per row and does not check the total byte count.
- `CustomText` is the `CustomString` class: its setters, its no-image guard,
  `TextWidth` and `TextHeight`.
- `Commands` holds the static counter and `CustomStringWrite`.

How the model follows the code:

- **Bit order.** The loop at `GraphicZPLCommand.cs:149` fills `ba[7]` first.
  `ConvertToByte` gives `bits[x]` the weight `1 << x`. So the first pixel of
  each group of eight is the byte's most significant bit: alternating pixels
  starting dark give `AA`, and a dark row nine pixels wide gives `FF80`.
- **Threshold.** The comment at `GraphicZPLCommand.cs:138` says that red values
  higher than 128 are on. The code at `:154` marks a pixel as on when its red
  value is below 128, which is the dark pixel. The model follows the code.

`GraphicStore` and `ConvertToByte` are imperative methods with the source's
loops:

- `GraphicStore` is proved equal to `StoreCommand`, a recursive definition
  of the `~DG` text.
- `ConvertToByte` is proved equal to `Weight`, the value of the bits with
  the least-significant bit first.

What is proved about those definitions:

- Unpacking the rows gives back exactly the image's on/off grid.
- The padding bits are clear.
- The body has `height` lines of `2 * byteWidth + 1` characters.
- Each reference reader gives back what the command was built from. For the
  store command this needs a name without a comma.

`CustomString` and the counter are classes whose methods update their fields.

## Model

| member | source | states |
|---|---|---|
| `Bits.ConvertToByte` | SharpZebraStandard/Commands/GraphicZPLCommand.cs:169-178 | the byte is the sum of `2^x` over the set bits `x` (bit 0 least significant), so it fits in 0..255 |
| `Bits.OrStep` | SharpZebraStandard/Commands/GraphicZPLCommand.cs:175 | one OR-assignment step of the loop adds bit `x`'s weight to the value of the bits below it |
| `Bits.ToBitsWeight` | SharpZebraStandard/Commands/GraphicZPLCommand.cs:169-177 | the eight bits can be read back out of the byte `ConvertToByte` builds: nothing is lost |
| `Raster.Dark` | SharpZebraStandard/Commands/GraphicZPLCommand.cs:154 | a pixel prints exactly when its red value is 0 to 127; 128 and above do not print |
| `Raster.ByteWidth` | SharpZebraStandard/Commands/GraphicZPLCommand.cs:140 | bytes per row are the width over eight rounded up (`width <= 8r < width + 8`), with no padding exactly when the width is a multiple of eight |
| `Formatting.NatToString` | SharpZebraStandard/Commands/GraphicZPLCommand.cs:141 | `{n}` for a count is a non-empty run of decimal digits with no leading zero unless the count is 0 |
| `Formatting.IntToString` | SharpZebraStandard/Commands/GraphicZPLCommand.cs:132 | `{i}` for a coordinate is digits with a leading `-` exactly when the coordinate is negative |
| `Formatting.ZeroPadded` | SharpZebraStandard/Commands/GraphicZPLCommand.cs:122 | `{n:00000}` is all digits: the plain digits when they already fill five places, otherwise exactly five characters |
| `Formatting.ParseNatRoundTrip` | SharpZebraStandard/Commands/GraphicZPLCommand.cs:141 | the decimal text of the header's counts reads back as the same number |
| `Formatting.ParseIntRoundTrip` | SharpZebraStandard/Commands/GraphicZPLCommand.cs:132 | the decimal text of any coordinate, negative ones included, reads back as the same int |
| `Formatting.ZeroPaddedValue` | SharpZebraStandard/Commands/GraphicZPLCommand.cs:122 | `{n:00000}` is at least five digits long and still denotes `n` |
| `Formatting.HexPair` | SharpZebraStandard/Commands/GraphicZPLCommand.cs:157 | `{b:X2}` is exactly two upper-case hex digits whose value, high digit first, is the byte |
| `Formatting.HexPairExamples` | SharpZebraStandard/Commands/GraphicZPLCommand.cs:157 | 0xAA, 0xFF, 0x80 and 0x05 print as `AA`, `FF`, `80` and `05` |
| `GraphicCommands.StoreCommand` | SharpZebraStandard/Commands/GraphicZPLCommand.cs:140-160 | the definition `GraphicStore` is proved equal to: it opens with `~DG`, the drive and `:` and is longer than the name plus those five characters (its field layout is `StoreCommandLayout`) |
| `GraphicCommands.ScanGroup` | SharpZebraStandard/Commands/GraphicZPLCommand.cs:147-156 | the scan from `k = 7` down to 0 fills bit `k` from column `x * 8 + 7 - k`: dark pixels are set, columns past the width are clear |
| `GraphicCommands.GraphicStore` | SharpZebraStandard/Commands/GraphicZPLCommand.cs:135-162 | the output is the header `~DG<drive>:<name>,<height*byteWidth>,<byteWidth>,` followed by each row's bytes as hex pairs and a newline, row by row |
| `GraphicCommands.StorePrefixNextByte` | SharpZebraStandard/Commands/GraphicZPLCommand.cs:145-158 | each pass of the column loop appends the hex pair of the next byte of the row |
| `GraphicCommands.StorePrefixNextRow` | SharpZebraStandard/Commands/GraphicZPLCommand.cs:143-160 | each pass of the row loop, ending in the newline, completes one line of the body |
| `GraphicCommands.PackedByteBit` | SharpZebraStandard/Commands/GraphicZPLCommand.cs:147-157 | bit `7 - j` of byte `x` of row `y` is set if and only if column `x * 8 + j` is inside the image and its red value is below 128 |
| `GraphicCommands.PaddingBitClear` | SharpZebraStandard/Commands/GraphicZPLCommand.cs:151-152 | the `8 * byteWidth - width` low bits of the last byte of a row are always clear |
| `GraphicCommands.PackedRowsWidth` | SharpZebraStandard/Commands/GraphicZPLCommand.cs:143-146 | every one of the `height` rows has exactly `byteWidth` bytes |
| `GraphicCommands.HexBodyLength` | SharpZebraStandard/Commands/GraphicZPLCommand.cs:143-160 | rows of `byteWidth` bytes give a body of `rows * (2 * byteWidth + 1)` characters |
| `GraphicCommands.StoreCommandLength` | SharpZebraStandard/Commands/GraphicZPLCommand.cs:141-160 | after the header the command has exactly `height * (2 * byteWidth + 1)` characters |
| `GraphicCommands.AlternatingPacked` | SharpZebraStandard/Commands/GraphicZPLCommand.cs:147-157 | eight pixels alternating dark and light, dark first, pack into the single byte 0xAA |
| `GraphicCommands.AlternatingBody` | SharpZebraStandard/Commands/GraphicZPLCommand.cs:143-160 | that image's body is `AA` and a newline |
| `GraphicCommands.NineDarkPacked` | SharpZebraStandard/Commands/GraphicZPLCommand.cs:140-157 | a dark row nine pixels wide packs into 0xFF and 0x80: the ninth pixel is the top bit, above seven clear padding bits |
| `GraphicCommands.NineDarkBody` | SharpZebraStandard/Commands/GraphicZPLCommand.cs:143-160 | that image's body is `FF80` and a newline |
| `GraphicCommands.GraphicWrite` | SharpZebraStandard/Commands/GraphicZPLCommand.cs:130-133 | the placement command opens with `^FO` and is 16 characters longer than the two coordinates and the name it carries |
| `GraphicCommands.GraphicWriteExample` | SharpZebraStandard/Commands/GraphicZPLCommand.cs:132 | the first text image placed at (10, 20) on drive `R` is `^FO10,20^XGR:SZT00001.GRF^FS` |
| `GraphicCommands.GraphicDelete` | SharpZebraStandard/Commands/GraphicZPLCommand.cs:164-167 | the delete command is `^ID`, the drive, `:` and the name, then `.GRF^FS`: 12 characters around the name |
| `GraphicDecode.StoreCommandLayout` | SharpZebraStandard/Commands/GraphicZPLCommand.cs:141 | the command opens with `~DG`, the drive and `:`, then the name (no `.GRF`), the total byte count and the bytes per row, each closed by a comma |
| `GraphicDecode.HexBytesRoundTrip` | SharpZebraStandard/Commands/GraphicZPLCommand.cs:157 | the hex pairs of a row read back as the row's bytes |
| `GraphicDecode.HexBodyRoundTrip` | SharpZebraStandard/Commands/GraphicZPLCommand.cs:143-160 | the body splits back into its lines of `byteWidth` bytes, in order |
| `GraphicDecode.StoreRoundTrip` | SharpZebraStandard/Commands/GraphicZPLCommand.cs:135-162 | a store command for a name without commas parses back to its drive, name, `height * byteWidth`, `byteWidth` and the packed rows |
| `GraphicDecode.UnpackPixel` | SharpZebraStandard/Commands/GraphicZPLCommand.cs:147-157 | reading bit `7 - x % 8` of byte `x / 8` of row `y` gives back whether pixel (`x`, `y`) is dark |
| `GraphicDecode.UnpackPackedRows` | SharpZebraStandard/Commands/GraphicZPLCommand.cs:143-160 | unpacking the rows gives exactly the image's on/off grid: nothing is lost, shifted or invented |
| `GraphicDecode.StoreCommandKeepsImage` | SharpZebraStandard/Commands/GraphicZPLCommand.cs:135-162 | the store command, parsed and unpacked, yields the image's grid, its drive and its name, and its total equals rows times bytes per row |
| `GraphicDecode.GraphicWriteLayout` | SharpZebraStandard/Commands/GraphicZPLCommand.cs:132 | the placement command is `^FO`, the two coordinates separated by a comma, then `^XG<drive>:<name>.GRF^FS` |
| `GraphicDecode.GraphicWriteRoundTrip` | SharpZebraStandard/Commands/GraphicZPLCommand.cs:130-133 | the placement command parses back to its coordinates (unvalidated, negative ones included), drive and name, whatever the name holds |
| `GraphicDecode.GraphicDeleteRoundTrip` | SharpZebraStandard/Commands/GraphicZPLCommand.cs:164-167 | the delete command `^ID<drive>:<name>.GRF^FS` parses back to its drive and name |
| `CustomText.RenderedImage` | SharpZebraStandard/Commands/GraphicZPLCommand.cs:58-64 | there is no image exactly when the font is missing or the text is missing or empty |
| `CustomText.CustomString.constructor` | SharpZebraStandard/Commands/GraphicZPLCommand.cs:15-17 | a new custom string has no font, no text, no rotation and no image |
| `CustomText.CustomString.InitGraphic` | SharpZebraStandard/Commands/GraphicZPLCommand.cs:58-99 | the image is recomputed from the current font, text and rotation, which stay as they are |
| `CustomText.CustomString.SetText` | SharpZebraStandard/Commands/GraphicZPLCommand.cs:19-28 | the text takes the new value and the image follows it; setting the current value changes nothing |
| `CustomText.CustomString.SetFont` | SharpZebraStandard/Commands/GraphicZPLCommand.cs:30-39 | the font takes the new value and the image follows it; setting an equal font changes nothing |
| `CustomText.CustomString.SetRotation` | SharpZebraStandard/Commands/GraphicZPLCommand.cs:41-50 | the rotation takes the new value and the image follows it; setting the current value changes nothing |
| `CustomText.CustomString.TextWidth` | SharpZebraStandard/Commands/GraphicZPLCommand.cs:54 | 0 without a font or without text, otherwise the rendered image's width |
| `CustomText.CustomString.TextHeight` | SharpZebraStandard/Commands/GraphicZPLCommand.cs:56 | 0 without a font or without text, otherwise the rendered image's height |
| `Commands.GraphicName` | SharpZebraStandard/Commands/GraphicZPLCommand.cs:122 | the name is `SZT` followed by at least five characters |
| `Commands.GraphicNameExample` | SharpZebraStandard/Commands/GraphicZPLCommand.cs:121-122 | the first call, with the counter at 1, names its image `SZT00001` |
| `Commands.GraphicNameDigits` | SharpZebraStandard/Commands/GraphicZPLCommand.cs:122 | after `SZT` the name holds only digits, which denote the counter, so it has no comma |
| `Commands.GraphicNameInjective` | SharpZebraStandard/Commands/GraphicZPLCommand.cs:121-122 | different counter values give different names |
| `Commands.ResolveDrive` | SharpZebraStandard/Commands/GraphicZPLCommand.cs:124 | the drive is the argument if given, else the printer's RAM drive if known, else `R` |
| `Commands.FreshName` | SharpZebraStandard/Commands/GraphicZPLCommand.cs:121-122 | the name for the next counter value is not among the names already handed out |
| `Commands.ZplCommands.constructor` | SharpZebraStandard/Commands/GraphicZPLCommand.cs:10-11 | the counter starts at 0 with no names handed out |
| `Commands.ZplCommands.CustomStringWrite` | SharpZebraStandard/Commands/GraphicZPLCommand.cs:119-128 | the counter goes up by exactly one and yields a name not used before. Without an image the call fails, after the increment. Otherwise it returns the store command followed by the placement command, with that name and the resolved drive in both |
| `Commands.ZplCommands.CustomStringWriteText` | SharpZebraStandard/Commands/GraphicZPLCommand.cs:113-117 | a custom string built from font, rotation and text fails without a font or text, and otherwise stores and places the text's rendering under a fresh name on the drive resolved from the unchanged printer drive; the counter goes up by one and the new name is recorded |
| `Commands.WriteRecallsStoredImage` | SharpZebraStandard/Commands/GraphicZPLCommand.cs:125-126 | the placement command recalls the same name and drive that the store command stores the image's grid under |

## Left out

- Rendering a text with System.Drawing (lines 66-98) is a parameter of the
  model, `Renderer`. That covers `MeasureString`, `DrawString`, the resized
  `new Bitmap`, `TextRenderingHint` and `RotateFlip`. The model does not say
  what a rendered image looks like, only when there is one.
- `Bitmap.GetPixel(x, y).R` is replaced by the `red` function of `Bitmap`.
  Colours other than red, and the bitmap's lifetime and disposal, are not
  modelled.
- The commands are modelled as character strings. The model does not
  encode them to bytes in code page 850. For ASCII content, characters and
  bytes coincide.
- Numbers are formatted as invariant-culture text: digits, plus a leading
  `-` for negative coordinates. Culture-specific negative signs are not
  modelled.
- `PrinterSettings` becomes one optional RAM drive letter, `printerDrive`.
  Where the printer settings come from is not part of this model.
- The counter `_stringCounter` is an unbounded `nat` on one object, not a
  process-wide static shared by threads. Its 32-bit overflow after 2^31 - 1
  calls is not modelled.
- `GraphicStore` computes the total byte count `image.Height * byteWidth`
  (line 141) as an unbounded integer. The model does not include its
  32-bit overflow on huge images.
- A `null` image reaching `GraphicStore` throws a `NullReferenceException`
  at line 140. The model returns the error value `Failure(NullImage)`
  instead, and the counter has already moved on, as in the source. A
  `null` `CustomString` argument cannot occur in the model, because
  references are non-null.
- `GraphicStore`'s inner bit-scanning loop (lines 147-156) is the separate
  method `ScanGroup`, so that each loop's proof stays small. It runs the
  same steps on a fresh eight-bit array.
- `StoreRoundTrip` and `StoreCommandKeepsImage` require a name without a
  comma. The comma is the header's field separator, so a name with a comma
  does not read back. Every `SZT` name satisfies this
  (`Commands.GraphicNameDigits`).
- A font is only an identity compared by value, as `Font.Equals` compares
  fonts; its metrics matter only to the renderer.
