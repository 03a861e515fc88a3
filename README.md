# Bit-pattern figures and the Unicode code chart

This project models four small scripts from the lecture notes *Einführung in
das Programmieren*. The scripts draw figures about how integers and characters
are represented:

- `manuskript/images/utf8/utf8_2.py` draws a code point (U+00E9) as 16 bit
  cells with hexadecimal nibble labels. It packs the code point into its
  two-byte UTF-8 value with a fixed formula and draws that value the same way.
  Grey boxes cover the code point's unused high bits and the UTF-8 marker bits.
  Arrows connect the payload fields.
- `manuskript/images/utf8/utf8_3.py` is the three-byte analogue, for U+221E
  with 24 cells.
- `jupyterbook/eidprog/images/integers/binary.py` draws a 32-bit number
  (0x6CD8932F) as 32 bits, eight nibbles and a decimal label that reads the
  pattern as a signed two's-complement integer. Below it, the script draws the
  number's negation `(number ^ 0xffffffff)+1` the same way.
- `jupyterbook/eidprog/images/unicode/create_unicode_tex.py` writes a LaTeX
  document of 0x5a tables. Each table shows 128 consecutive code points in an
  8 × 16 grid. Every grid position has three lines: the code point
  `U+%04X`, its UTF-8 encoding in hexadecimal (`get_hex_string`), and either
  the glyph or the name of the control code.

The modules are:

| module | file | models |
|---|---|---|
| `PyBits` | pybits.dfy | Python's `>>`, `<<`, `&`, `\|`, `^`, `2**k` on non-negative integers, with their arithmetic meaning |
| `Digits` | digits.dfy | digit rows (most significant first), nibble rows, `%0NX` formatting and parsing back |
| `DigitLists` | digits.dfy | the list-building loops shared by the UTF-8 scripts: the bit list comprehension, `list.reverse()`, the nibble-label loop |
| `Layout` | layout.dfy | the rectangles drawn over a row of cells, and when they partition the row |
| `Utf8TwoByte` | utf8_two.dfy | utf8_2.py |
| `Utf8ThreeByte` | utf8_three.dfy | utf8_3.py |
| `BinaryFigure` | binary.dfy | binary.py |
| `UnicodeChart` | unicode_chart.dfy | create_unicode_tex.py |

The drawing scripts keep no state: they compute label values and place them on
a canvas. Their model is therefore functions over the labels plus one method per
script (`Draw`, `MakeBinaries`) whose loops build the same lists as the script.
The chart script writes to an open file step by step. Its model is a class
`TexFile` whose `chunks` field is the sequence of strings written so far. The
methods `MakeTable`, `Ccodes` and `WriteChart` append to it, and each is proved
to append exactly what a specification function (`TableChunks`, `CcodeText`,
`Chart`) prescribes. The fixed texts the script writes around the cells (the
table header and footer, the two grey `\rowcolor` lines, the strut and
`\end{document}`) are collected in a `Snippets` value, and the methods write
the script's own texts, `Tex`. The layout lemmas take the texts as a
parameter, so they hold for any texts and in particular for `Tex`. They state
the chart's layout in terms of the specification functions: which code point
sits at which position, and what each cell says.

Two values the figures show, as the code computes them:

- 0x6CD8932F is 1826132783 in decimal. Its negation is the pattern 0x93276CD1,
  labelled −1826132783 (`BinaryFigure.FigureLabels`).
- utf8_3.py packs U+221E to 0xE2889E, the UTF-8 encoding of the infinity sign
  (`Utf8ThreeByte.ExamplePacks`). utf8_2.py packs U+00E9 to 0xC3A9
  (`Utf8TwoByte.ExamplePacks`).

## Model

| member | source | states |
|---|---|---|
| PyBits.ShrIsDiv | manuskript/images/utf8/utf8_2.py:35 | `x >> k` is floor division by 2^k |
| PyBits.ShlIsMul | manuskript/images/utf8/utf8_2.py:35 | `x << k` is multiplication by 2^k |
| PyBits.AndLowMask | manuskript/images/utf8/utf8_2.py:36 | masking with k one-bits (`& 0x3f`, `& 0x1f`, `& 0x0f`, `& 15`) keeps the remainder modulo 2^k |
| PyBits.BitQuotient | manuskript/images/utf8/utf8_2.py:9 | `(x & 2**n)/2**n` is bit n of x, exactly 0 or 1 |
| PyBits.XorAllOnes | jupyterbook/eidprog/images/integers/binary.py:15 | `x ^ 0xffffffff` on a 32-bit x is 0xffffffff − x |
| PyBits.OrDisjoint | manuskript/images/utf8/utf8_2.py:35-36 | `(a << k) \| b` is the sum when b fits in k bits, so the `+` of packed fields never carries |
| Digits.MsbBitsReadBack | jupyterbook/eidprog/images/integers/binary.py:7-11 | the w bit labels, most significant first, read back in base 2 to any number below 2^w, each label 0 or 1 |
| Digits.NibblesReadBack | jupyterbook/eidprog/images/integers/binary.py:23-31 | the nibble labels, most significant first, read back in base 16 to the number, each below 16 |
| Digits.FormatParses | jupyterbook/eidprog/images/unicode/create_unicode_tex.py:14-15 | `%0NX` and `%i`: the formatted digits parse back to the value, for every value and width |
| Digits.NibbleValues | manuskript/images/utf8/utf8_2.py:30-31 | nibble label i of a row of `count` labels is `x >> (count-i-1)*4` modulo 16 |
| Digits.NibblesFront | jupyterbook/eidprog/images/integers/binary.py:23-31 | the first `count − 1` nibble labels of x are the labels of `x >> 4`, and the last is `x % 16` |
| Digits.Pow2IsPow | manuskript/images/utf8/utf8_2.py:37 | `2**k` of the bit operators is the k-th power of the base 2 used by the digit formats |
| Digits.FormatLength | jupyterbook/eidprog/images/unicode/create_unicode_tex.py:14 | `%0NX` of a value that fits in N digits is exactly N characters long |
| Digits.FitsFewerDigits | jupyterbook/eidprog/images/unicode/create_unicode_tex.py:14 | a value that fits in N digits fits in N − 1 digits after dividing by the base |
| Digits.FormatDigits | jupyterbook/eidprog/images/unicode/create_unicode_tex.py:14 | every character `%0NX` or `%i` produces is a digit worth less than the base |
| Digits.FormatShape | jupyterbook/eidprog/images/unicode/create_unicode_tex.py:66 | a formatted field is at least its width long, exactly its width when the value fits, and consists of digit characters below the base |
| DigitLists.Reverse | manuskript/images/utf8/utf8_2.py:10 | `list.reverse()` in place: afterwards cell k holds what cell n − 1 − k held |
| DigitLists.BitList | manuskript/images/utf8/utf8_2.py:9-10 | the comprehension plus `reverse()` yields the bits most significant first, each 0 or 1, reading back to the value when it fits |
| DigitLists.NibbleLabels | manuskript/images/utf8/utf8_2.py:28-32 | label n is `value >> (bits//4-n-1)*4 & 0x0f`: hexadecimal digits that read back to the value |
| Layout.CoverUnique | manuskript/images/utf8/utf8_2.py:16-19 | in a partition, the box covering a cell is unique |
| Utf8TwoByte.Utf8CodeArith | manuskript/images/utf8/utf8_2.py:34-36 | the packing formula is 0xC080 + 256·(bits 10..6) + (bits 5..0) |
| Utf8TwoByte.HighField | manuskript/images/utf8/utf8_2.py:35 | `(codepoint >> 6) & 0x1f` is bits 10..6 of the code point |
| Utf8TwoByte.LowField | manuskript/images/utf8/utf8_2.py:36 | `codepoint & 0x3f` is bits 5..0 of the code point |
| Utf8TwoByte.Utf8CodeBytes | manuskript/images/utf8/utf8_2.py:34-36 | the packed value is the lead byte 110xxxxx and the continuation byte 10xxxxxx side by side, the latter below 256 |
| Utf8TwoByte.LeadByteBit | manuskript/images/utf8/utf8_2.py:34-35 | the lead byte is the marker 110 over code-point bits 10..6 |
| Utf8TwoByte.ContByteBit | manuskript/images/utf8/utf8_2.py:34-36 | the continuation byte is the marker 10 over code-point bits 5..0 |
| Utf8TwoByte.Utf8CodeBit | manuskript/images/utf8/utf8_2.py:34-36 | each bit of the packed value is a marker bit (110, 10) or a named bit of the code point |
| Utf8TwoByte.Utf8Row | manuskript/images/utf8/utf8_2.py:34-38 | the drawn UTF-8 row is 110, code-point bits 10..6, 10, bits 5..0 (layout 110xxxxx 10xxxxxx) |
| Utf8TwoByte.Utf8Markers | manuskript/images/utf8/utf8_2.py:34-36 | the UTF-8 row starts with 110 and has 10 at the top of the low byte, for every code point |
| Utf8TwoByte.Utf8CodeTwoBytes | manuskript/images/utf8/utf8_2.py:34-36 | the packed value lies in [0xC080, 0x10000): it always fits the 16 drawn cells |
| Utf8TwoByte.DecodeFields | manuskript/images/utf8/utf8_2.py:34-36 | the masks `(v >> 8) & 0x1f` and `v & 0x3f` recover both payloads from a packed value |
| Utf8TwoByte.DecodeUtf8Code | manuskript/images/utf8/utf8_2.py:34-36 | unpacking the two payloads gives back every code point up to U+07FF |
| Utf8TwoByte.CodePointRowPartitioned | manuskript/images/utf8/utf8_2.py:16-19 | the code-point row's three boxes cover each of the 16 cells exactly once |
| Utf8TwoByte.Utf8RowPartitioned | manuskript/images/utf8/utf8_2.py:41-46 | the UTF-8 row's four boxes cover each of the 16 cells exactly once |
| Utf8TwoByte.CodePointShadingIsZero | manuskript/images/utf8/utf8_2.py:16-17 | below U+0800, the cells under the grey box of the code-point row hold 0 |
| Utf8TwoByte.Utf8Shading | manuskript/images/utf8/utf8_2.py:41-46 | grey boxes of the UTF-8 row hold exactly the marker bits of 0xC080; white boxes lie where 0xC080 is 0 |
| Utf8TwoByte.PayloadArrows | manuskript/images/utf8/utf8_2.py:61-64 | the arrows' claim: code-point cells [5,10) reappear at [3,8) and cells [10,16) stay in place |
| Utf8TwoByte.ExamplePacks | manuskript/images/utf8/utf8_2.py:6-36 | U+00E9 packs to 0xC3A9 |
| Utf8TwoByte.PackedFields | manuskript/images/utf8/utf8_2.py:34-36 | a code point 64·h + l with five-bit h and six-bit l packs to 0xC080 + 256·h + l |
| Utf8TwoByte.Draw | manuskript/images/utf8/utf8_2.py:9-38 | the labels drawn: both bit rows and nibble rows and the packed value; the UTF-8 rows always read back to the packed value, the code-point rows for code points below 2^16 |
| Utf8ThreeByte.Utf8CodeArith | manuskript/images/utf8/utf8_3.py:35-38 | the packing formula is 0xE08080 + 0x10000·(bits 15..12) + 256·(bits 11..6) + (bits 5..0) |
| Utf8ThreeByte.Utf8CodeBytes | manuskript/images/utf8/utf8_3.py:35-38 | the packed value is the lead byte 1110xxxx and two continuation bytes 10xxxxxx side by side |
| Utf8ThreeByte.LeadByteBit | manuskript/images/utf8/utf8_3.py:36 | the lead byte is the marker 1110 over code-point bits 15..12 |
| Utf8ThreeByte.MidByteBit | manuskript/images/utf8/utf8_3.py:37 | the middle byte is the marker 10 over code-point bits 11..6 |
| Utf8ThreeByte.LowByteBit | manuskript/images/utf8/utf8_3.py:38 | the last byte is the marker 10 over code-point bits 5..0 |
| Utf8ThreeByte.Utf8CodeBit | manuskript/images/utf8/utf8_3.py:35-38 | each bit of the packed value is a marker bit or a named bit of the code point |
| Utf8ThreeByte.UpperBit | manuskript/images/utf8/utf8_3.py:35-37 | the lead byte followed by the middle byte: marker 1110, bits 15..12, marker 10, bits 11..6 |
| Utf8ThreeByte.ContinuationBytesFit | manuskript/images/utf8/utf8_3.py:37-38 | both continuation bytes fit in eight bits, so the bytes do not overlap |
| Utf8ThreeByte.Utf8Row | manuskript/images/utf8/utf8_3.py:35-40 | the drawn UTF-8 row is 1110xxxx 10xxxxxx 10xxxxxx with the code point's bits 15..0 in the x positions |
| Utf8ThreeByte.Utf8RowCell | manuskript/images/utf8/utf8_3.py:35-40 | cell i of the drawn UTF-8 row, for each of the 24 positions: a marker bit or the named code-point cell |
| Utf8ThreeByte.Utf8Markers | manuskript/images/utf8/utf8_3.py:35-38 | the row starts with 1110 and has 10 at the top of both continuation bytes, for every code point |
| Utf8ThreeByte.Utf8CodeThreeBytes | manuskript/images/utf8/utf8_3.py:35-38 | the packed value lies in [0xE08080, 0x1000000): it always fits the 24 drawn cells |
| Utf8ThreeByte.DecodeFields | manuskript/images/utf8/utf8_3.py:35-38 | the three masks recover the three payloads from a packed value |
| Utf8ThreeByte.Assemble | manuskript/images/utf8/utf8_3.py:35-38 | `a << 12 \| b << 6 \| c` is 4096·a + 64·b + c when b and c fit in six bits |
| Utf8ThreeByte.AssembleHigh | manuskript/images/utf8/utf8_3.py:35-37 | `a << 12 \| b << 6` is `(64·a + b) << 6` when b fits in six bits |
| Utf8ThreeByte.DecodeUtf8Code | manuskript/images/utf8/utf8_3.py:35-38 | unpacking gives back every code point up to U+FFFF |
| Utf8ThreeByte.CodePointRowPartitioned | manuskript/images/utf8/utf8_3.py:16-20 | the code-point row's four boxes cover each of the 24 cells exactly once |
| Utf8ThreeByte.Utf8RowPartitioned | manuskript/images/utf8/utf8_3.py:43-51 | the UTF-8 row's six boxes cover each of the 24 cells exactly once |
| Utf8ThreeByte.CodePointShadingIsZero | manuskript/images/utf8/utf8_3.py:16-17 | below U+10000, the cells under the grey box of the code-point row hold 0 |
| Utf8ThreeByte.Utf8Shading | manuskript/images/utf8/utf8_3.py:43-51 | grey boxes of the UTF-8 row hold exactly the marker bits of 0xE08080; white boxes lie where 0xE08080 is 0 |
| Utf8ThreeByte.PayloadArrows | manuskript/images/utf8/utf8_3.py:66-71 | the three arrows' claim: code-point cells [8,12), [12,18), [18,24) reappear at [4,8), [10,16), [18,24) |
| Utf8ThreeByte.ExamplePacks | manuskript/images/utf8/utf8_3.py:6-38 | U+221E packs to 0xE2889E |
| Utf8ThreeByte.PackedFields | manuskript/images/utf8/utf8_3.py:35-38 | a code point 4096·h + 64·m + l with four-bit h and six-bit m, l packs to 0xE08080 + 0x10000·h + 256·m + l |
| Utf8ThreeByte.Draw | manuskript/images/utf8/utf8_3.py:9-40 | the labels drawn: both bit rows and nibble rows and the packed value; the UTF-8 rows always read back to the packed value, the code-point rows for code points below 2^24 |
| BinaryFigure.NegateIsComplement | jupyterbook/eidprog/images/integers/binary.py:38 | on 32-bit patterns, `(n ^ 0xffffffff)+1` is 2^32 − n, stays within 32 bits and undoes itself for n ≠ 0 |
| BinaryFigure.SignedLabelIsTwosComplement | jupyterbook/eidprog/images/integers/binary.py:13-17 | the decimal label is the two's-complement value: n when bit 31 is clear, n − 2^32 when it is set, within [−2^31, 2^31) |
| BinaryFigure.NegateFlipsLabel | jupyterbook/eidprog/images/integers/binary.py:37-38 | the lower row's label is the negation of the upper row's, for every pattern except 0 and 0x80000000 |
| BinaryFigure.FigureLabels | jupyterbook/eidprog/images/integers/binary.py:35-38 | the figure's rows are 0x6CD8932F labelled 1826132783 and 0x93276CD1 labelled −1826132783 |
| BinaryFigure.MakeBinaries | jupyterbook/eidprog/images/integers/binary.py:4-31 | the 32 bit labels, the 8 nibble labels and the signed label; for a 32-bit number, bits and nibbles read back to it |
| BinaryFigure.BitLabel | jupyterbook/eidprog/images/integers/binary.py:7-11 | the label of bit cell n, `(number >> 31-n) & 1`, is the next bit of the row, most significant first |
| BinaryFigure.NibblePair | jupyterbook/eidprog/images/integers/binary.py:23-31 | the two labels of byte n, `(number >> (3-n)*8+4) & 15` and `(number >> (3-n)*8) & 15`, are nibbles 2n and 2n+1 of the number |
| BinaryFigure.Figure | jupyterbook/eidprog/images/integers/binary.py:35-38 | the two rows drawn read back to 0x6CD8932F and 0x93276CD1 with labels ±1826132783 |
| UnicodeChart.GetHexString | jupyterbook/eidprog/images/unicode/create_unicode_tex.py:64-75 | a hexadecimal string is returned exactly for code points up to 0xFFFF; above that the function returns 0 |
| UnicodeChart.HexStringOneByte | jupyterbook/eidprog/images/unicode/create_unicode_tex.py:65-66 | up to 0x7F: two hexadecimal digits that parse back to the code point itself |
| UnicodeChart.HexStringTwoBytes | jupyterbook/eidprog/images/unicode/create_unicode_tex.py:67-68 | 0x80..0x7FF: four digits whose value is the two-byte packing, with markers 110/10, decoding back to the code point |
| UnicodeChart.HexStringThreeBytes | jupyterbook/eidprog/images/unicode/create_unicode_tex.py:69-73 | 0x800..0xFFFF: six digits whose value is the three-byte packing, with markers 1110/10/10, decoding back to the code point |
| UnicodeChart.HexStringInjective | jupyterbook/eidprog/images/unicode/create_unicode_tex.py:64-73 | no two code points up to 0xFFFF get the same encoding string |
| UnicodeChart.TwoByteValueAgrees | jupyterbook/eidprog/images/unicode/create_unicode_tex.py:68 | the chart's unmasked two-byte formula agrees with utf8_2.py's masked one on 0..0x7FF |
| UnicodeChart.ThreeByteValueAgrees | jupyterbook/eidprog/images/unicode/create_unicode_tex.py:70-72 | the chart's `& 0xfc0) << 2` formula agrees with utf8_3.py's on 0..0xFFFF |
| UnicodeChart.C0NamesDomain | jupyterbook/eidprog/images/unicode/create_unicode_tex.py:41-49 | the first half of the dictionary names exactly 0x00..0x20, each with 2 or 3 letters |
| UnicodeChart.C1NamesDomain | jupyterbook/eidprog/images/unicode/create_unicode_tex.py:49-57 | the second half names exactly 0x7F, 0x80..0xA0 and 0xAD, with 2 to 4 letters |
| UnicodeChart.ControlCodesDomain | jupyterbook/eidprog/images/unicode/create_unicode_tex.py:41-57 | a code point has a name exactly when it is a C0 code, SP, DEL, a C1 code, NBSP or SHY |
| UnicodeChart.CcodeCell | jupyterbook/eidprog/images/unicode/create_unicode_tex.py:58-61 | the cell is a `\colorbox` with the name exactly for named codes, otherwise `\symbol{…}` whose decimal argument parses back to the code point |
| UnicodeChart.NamedCell | jupyterbook/eidprog/images/unicode/create_unicode_tex.py:58-59 | a named code is written as `\colorbox{cc}{name} ` followed by the line end |
| UnicodeChart.PlainCell | jupyterbook/eidprog/images/unicode/create_unicode_tex.py:60-61 | any other code is written as `\symbol{n} ` with its decimal number, which parses back to the code point and never starts like a name box |
| UnicodeChart.Ccodes | jupyterbook/eidprog/images/unicode/create_unicode_tex.py:40-61 | writes exactly one chunk, the cell for the code point followed by the given line end |
| UnicodeChart.TexFile.constructor | jupyterbook/eidprog/images/unicode/create_unicode_tex.py:77 | a freshly opened file holds nothing |
| UnicodeChart.TexFile.Write | jupyterbook/eidprog/images/unicode/create_unicode_tex.py:3 | writing appends the string and changes nothing else |
| UnicodeChart.GridCell | jupyterbook/eidprog/images/unicode/create_unicode_tex.py:7-9 | grid position (msb, lsb) of table hexbase shows 128·hexbase + 16·msb + lsb, inside the table's block, and column and row can be read back |
| UnicodeChart.GridCovers | jupyterbook/eidprog/images/unicode/create_unicode_tex.py:4-9 | every code point of a table's 128-block appears at some grid position |
| UnicodeChart.RowCells | jupyterbook/eidprog/images/unicode/create_unicode_tex.py:5-36 | in row lsb, chunk 0 is the grey colour, 9 the lighter grey, 18 the strut, and column msb's code, hex and name cells sit at 1+msb, 10+msb, 19+msb; only column 7 ends the line (`\\`, with `\hline` in the third sub-row) |
| UnicodeChart.TableIndex | jupyterbook/eidprog/images/unicode/create_unicode_tex.py:1-37 | a table is the header, then row lsb's 27 chunks at 1 + 27·lsb, then the footer at 433 |
| UnicodeChart.MakeTable | jupyterbook/eidprog/images/unicode/create_unicode_tex.py:1-37 | appends exactly the header, the 16 rows of 27 chunks and the footer of the table |
| UnicodeChart.WriteRow | jupyterbook/eidprog/images/unicode/create_unicode_tex.py:5-36 | one grid line: grey colour, 8 code cells, grey colour, 8 hex cells, strut, 8 name cells |
| UnicodeChart.WriteCodeRow | jupyterbook/eidprog/images/unicode/create_unicode_tex.py:6-15 | appends the 8 `U+%04X` cells of a grid line |
| UnicodeChart.WriteHexRow | jupyterbook/eidprog/images/unicode/create_unicode_tex.py:17-26 | appends the 8 encoding cells of a grid line |
| UnicodeChart.WriteCcodeRow | jupyterbook/eidprog/images/unicode/create_unicode_tex.py:28-36 | appends the 8 glyph-or-name cells of a grid line |
| UnicodeChart.WriteChart | jupyterbook/eidprog/images/unicode/create_unicode_tex.py:77-98 | the document is the preamble, 0x5a tables and `\end{document}` |
| UnicodeChart.WriteBody | jupyterbook/eidprog/images/unicode/create_unicode_tex.py:95-98 | after the preamble: the tables, then `\end{document}` |
| UnicodeChart.WriteTables | jupyterbook/eidprog/images/unicode/create_unicode_tex.py:95-96 | appends the tables for hexbase 0, 1, … in order |
| UnicodeChart.ChartIndex | jupyterbook/eidprog/images/unicode/create_unicode_tex.py:95-96 | chunk i of table n sits at 1 + 434·n + i in the document, after the preamble |
| UnicodeChart.ChartCell | jupyterbook/eidprog/images/unicode/create_unicode_tex.py:95-96 | in the document, table n's cell (msb, lsb) shows code point below 0x2D00 and an encoding string; the code label has 4 hex digits that parse back to the code point |
| UnicodeChart.ChartRowChunk | jupyterbook/eidprog/images/unicode/create_unicode_tex.py:4-36 | chunk i of row lsb of table n sits at 1 + 434·n + 1 + 27·lsb + i in the document |
| UnicodeChart.ChartCodeCell | jupyterbook/eidprog/images/unicode/create_unicode_tex.py:6-15 | the document holds cell (msb, lsb) of table n's code line at its position, `U+%04X` of the code point |
| UnicodeChart.ChartHexCell | jupyterbook/eidprog/images/unicode/create_unicode_tex.py:17-26 | the document holds cell (msb, lsb) of table n's encoding line at its position |
| UnicodeChart.ChartCovers | jupyterbook/eidprog/images/unicode/create_unicode_tex.py:95-96 | every code point below 0x2D00 appears in table `hexcode / 128`, at column `(hexcode % 128) / 16` and row `hexcode % 16` |

## Left out

- Drawing: the pyx canvas, paths, colours, text placement, transforms and the PDF/PNG output. Coordinates are floats, so the model counts whole cells (`Layout`) instead of positions in centimetres. The gaps `(n/8)*dist` in binary.py are not modelled.
- Python 3's `/` in `(x & 2**n)/2**n` yields the floats 0.0 and 1.0, which `%i` prints as 0 and 1. The model uses the integers 0 and 1.
- `%X` of a single nibble, `%i` of a bit and the decimal label `= %i` / `= -%i` of binary.py (`BinaryFigure.SignedLabel`, a signed integer whose sign stands for the minus sign drawn) are modelled by their values, not by the characters drawn. The chart's `%04X`, `%02X`, `%06X` and `%i` are modelled as strings (`Digits.Format`).
- UTF-8 beyond the scripts: surrogates, four-byte sequences and malformed input. The scripts do not handle these. `get_hex_string` returns the integer 0 above 0xFFFF; the model has a `NoEncoding` value that the chart writes as "0". No table reaches that value, because 0x5a tables end at 0x2CFF.
- `open`, `close` and the file name: the file is a `TexFile` object. The preamble literal is a parameter of `WriteChart`.
- UnicodeChart.ControlCodes: the dictionary is written as the union of four map displays (`C0Low`, `C0High`, `C1Low`, `C1High`) of at most 18 entries each, so that each part's domain can be checked on its own. Together they have the same 68 entries: 0x00 to 0x20, 0x7F, 0x80 to 0xA0 and 0xAD.
- UnicodeChart.WriteChart: the `for n in range(0x5a)` loop is in `WriteTables`, with the table count as a parameter; `WriteChart` calls it with 0x5a.
- UnicodeChart.MakeTable: the three inner `for msb` loops are in the methods `WriteCodeRow`, `WriteHexRow` and `WriteCcodeRow`, each with the same loop and the same writes.
- The other scripts of the repository (ieee754_64.py, listnumbering, randomwalk, the pyx demos, symbols) and the Sphinx configuration conf.py are not part of this model.
