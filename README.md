# WS2812B matrix driver over a UART: a verified model

`ftdi_WS2812b.py` drives a 16 x 14 matrix of WS2812B LEDs from the TX pin of an
FTDI USB serial adapter. The UART runs at 3010000 baud with 7 data bits, so every
byte on the wire is 9 bit cells long. Each byte encodes three WS2812B data bits,
and 8 bytes encode one pixel's 24 bits: green, then red, then blue, each most
significant bit first. The script also has a second display class that pipes raw
rgb24 frames to a video player for previewing effects.

This project models the encoder of `SerialDisplay` and the raster table of
`MPVDisplay`:

- `ws2812.dfy` (module `Ws2812`) covers `format_byte` and `format_color`. It defines an
  independent "what the LED receives" reading of the bytes (`Carried`,
  `Received`, `WireBits`). It proves that the bytes decode to exactly the
  pixel's wire bits, and that ANDing encodings of disjoint channels encodes
  their union.
- `codebook.dfy` (module `Codebook`) covers `create_codebook`, the 3 x 256 x 8 array
  filled in place by three nested loops. It also proves the theorem `display` depends
  on: ANDing the red, green and blue entries of a slot yields that slot of
  `format_color(r, g, b)`.
- `address.dfy` (module `AddressMap`) covers the index tables the two constructors build
  by appending in nested loops. One is serpentine, with odd rows reversed and 8 entries
  per pixel. The other is raster, with 3 entries per pixel. Each table is characterised
  entry by entry, and the serpentine table is shown to hit every (pixel, slot) exactly once.
- `display.dfy` (module `Displays`) covers the two display classes. Their constructors
  build the tables. Their `Display` methods produce the frame that would be written.
  The serial frame starts as a buffer of 0xFF and goes through three in-place
  `&=` rounds, one per colour. It is proved to be, at every position, the
  `format_color` byte of the clipped pixel that position addresses. An image too
  small for the tables yields `Err(IndexError)`, as numpy raises.
- `uart.dfy` (module `Uart`) covers the framing: 7 data bits, one stop bit, no parity.
  On an inverted line, each formatted byte is three WS2812B symbols (high, data, low),
  so a pixel's 8 bytes put exactly its 24 wire bits on the line.

Modelling conventions:

- Bytes are `bv8` and the packed colour word is `bv24`.
- Python's `x & 0xFF` on an arbitrary integer is `x % 256`, whose value is never negative.
- Images are `array3<int>` indexed `[x, y, colour]`, as in the source's own comment.
  Their values are taken as already scaled to the integer range that the clip at
  ftdi_WS2812b.py:86 (and 56 for the preview path) receives.

## Model

| member | source | states |
|---|---|---|
| `Ws2812.FormatByte` | ftdi_WS2812b.py:94-95 | Bits 1 and 4 are always set and bits 2, 5 and 7 always clear. Bit 0 is set iff `b0` is zero, bit 3 iff `b1` is zero, bit 6 iff `b2` is zero. Every result lies in 0x12..0x5B |
| `Ws2812.FormatColor` | ftdi_WS2812b.py:98-105 | The loop returns exactly 8 bytes, and they equal the encoding of the packed word `G << 16 OR R << 8 OR B` of the masked channels |
| `Ws2812.SlotBit` | ftdi_WS2812b.py:102-104 | Data cell `t` of the byte for group `i` carries bit `23 - 3i - t` of the packed word, so the group's high bit is `b0` |
| `Ws2812.GroupBit` | ftdi_WS2812b.py:103-104 | The three data cells of group `k`'s byte carry bits `23-3k`, `22-3k`, `21-3k` of the word |
| `Ws2812.PackBit` | ftdi_WS2812b.py:99 | Packing puts the j-th transmitted bit (green, red, blue, each MSB first) at bit `23 - j` of the word |
| `Ws2812.WireOrder` | ftdi_WS2812b.py:99-105 | Data cell `t` of byte `i` of `format_color(r, g, b)` carries wire bit `3i + t` |
| `Ws2812.ReceivedColor` | ftdi_WS2812b.py:98-105 | Decoding the 8 bytes gives back exactly the 24 wire bits of the pixel |
| `Ws2812.ColorBytesInjective` | ftdi_WS2812b.py:99 | Two calls of `format_color` agree iff their arguments agree modulo 256, in both directions. The encoding depends on the low 8 bits of each channel and on nothing else |
| `Ws2812.MaskValue` | ftdi_WS2812b.py:99 | `x & 0xFF` is `x % 256`, negative `x` included |
| `Ws2812.MaskEq` | ftdi_WS2812b.py:99 | Two masks agree iff the values agree modulo 256 |
| `Ws2812.CarriedFormatByte` | ftdi_WS2812b.py:95 | Data cell `t` of `format_byte(b0, b1, b2)` carries 1 exactly when the t-th argument is non-zero |
| `Ws2812.TripAnd` | ftdi_WS2812b.py:104 | ANDing the bytes of two groups gives the byte of their OR |
| `Ws2812.GroupAnd` | ftdi_WS2812b.py:103-104 | ANDing the group-`k` bytes of two words gives the group-`k` byte of their OR |
| `Ws2812.PackChannels` | ftdi_WS2812b.py:99 | The three channels occupy disjoint bits: the ORed single-channel words are the packed word |
| `Ws2812.CombineChannels` | ftdi_WS2812b.py:99-105 | Byte `p` of the three single-channel encodings ANDed together is byte `p` of `format_color(r, g, b)` |
| `Codebook.Single` | ftdi_WS2812b.py:113-114 | `m` has three entries, entry `c` is `v`, the others are 0 |
| `Codebook.ComputeEntry` | ftdi_WS2812b.py:113-115 | The loop body computes the entry the table is specified to hold at `[c, v, p]` |
| `Codebook.FillSlot` | ftdi_WS2812b.py:112-115 | The innermost loop stores the specified entry for every value of one (channel, slot) pair. It keeps everything stored earlier in loop order, and it leaves the entries of every other (channel, slot) pair unchanged |
| `Codebook.CreateCodebook` | ftdi_WS2812b.py:108-116 | The returned table is a freshly allocated 3 x 256 x 8 array, and every entry `[c, v, p]` is byte `p` of `format_color` with channel `c` at `v` and the others at 0 |
| `Codebook.CombineEntries` | ftdi_WS2812b.py:88-89 | The red, green and blue entries of slot `p` ANDed together are byte `p` of `format_color(r, g, b)` |
| `Codebook.EntryMasked` | ftdi_WS2812b.py:113-115 | Entries for values equal modulo 256 are equal |
| `AddressMap.Column` | ftdi_WS2812b.py:74 | The stored column of a logical column lies in `[0, width)` |
| `AddressMap.ColumnInvolution` | ftdi_WS2812b.py:74 | Reversing a row twice restores the column |
| `AddressMap.ColumnInjective` | ftdi_WS2812b.py:74 | Distinct columns of a row are stored at distinct columns, in both directions |
| `AddressMap.SerpentineTable` | ftdi_WS2812b.py:67-76 | The three lists have length `w*h*8`, every entry is in range, and entry `(y*w + x)*8 + p` is `(x, y, p)` on even rows and `(w-1-x, y, p)` on odd rows |
| `AddressMap.SerpentineCovers` | ftdi_WS2812b.py:71-76 | Every slot of every pixel appears in the table, at a known entry |
| `AddressMap.SerpentineEntry` | ftdi_WS2812b.py:71-76 | Entry `k` of the table, computed from `k` alone |
| `AddressMap.SerpentineInjective` | ftdi_WS2812b.py:71-76 | Two entries hold the same (x, y, p) iff they are the same entry, so no slot is sent twice |
| `AddressMap.RasterTable` | ftdi_WS2812b.py:40-52 | The three lists have length `w*h*3`, every entry is in range, and entry `(y*w + x)*3 + z` is `(x, y, z)` |
| `AddressMap.RasterEntry` | ftdi_WS2812b.py:43-48 | Entry `k` of the raster table, computed from `k` alone |
| `AddressMap.RowSplit` | ftdi_WS2812b.py:71-72 | A pixel number below `w*h` splits into a row below `h` and a column below `w` |
| `Displays.Clamp` | ftdi_WS2812b.py:86 | The clip lands in `[0, 255]` and leaves values inside that range alone |
| `Displays.ClampMonotone` | ftdi_WS2812b.py:86 | The clip keeps order and saturates at 0 and 255 |
| `Displays.Level` | ftdi_WS2812b.py:56 | The stored `uint8` is the clipped value |
| `Displays.PixelLookups` | ftdi_WS2812b.py:88-89 | In a correct codebook, the three lookups for a clipped pixel ANDed together are that pixel's `format_color` byte for the slot |
| `Displays.SerialDisplay.constructor` | ftdi_WS2812b.py:62-76 | The display keeps its width and height. Its codebook is a freshly allocated array, and the codebook and the serpentine tables satisfy their specifications |
| `Displays.SerialDisplay.FitsIndexable` | ftdi_WS2812b.py:89 | An image that fits can be indexed at every table entry |
| `Displays.SerialDisplay.AndChannel` | ftdi_WS2812b.py:89 | One `&=` round ANDs colour `c`'s codebook entry into every byte of the buffer |
| `Displays.SerialDisplay.AndChannels` | ftdi_WS2812b.py:84-89 | The buffer has one byte per table entry: 0xFF, then ANDed with the three colour lookups in order |
| `Displays.SerialDisplay.PartialAll` | ftdi_WS2812b.py:88-89 | After three rounds a byte is the AND of its red, green and blue lookups |
| `Displays.SerialDisplay.LookupsCombine` | ftdi_WS2812b.py:88-89 | After three rounds, byte `k` is byte `pcors[k]` of `format_color` of the clipped pixel `(xcors[k], ycors[k])` |
| `Displays.SerialDisplay.FrameByEntry` | ftdi_WS2812b.py:84-89 | Every byte of the finished buffer is its AND of lookups, and is its pixel's encoded slot |
| `Displays.SerialDisplay.FrameByPixel` | ftdi_WS2812b.py:71-76 | Slot `p` of pixel `(x, y)` sits at the serpentine position `(y*w + col)*8 + p` |
| `Displays.SerialDisplay.Display` | ftdi_WS2812b.py:83-89 | A frame is produced iff the image has three colour planes and covers the matrix (any size will do for an empty matrix), otherwise `IndexError`. The frame has `w*h*8` bytes: byte `k` is the AND of its three lookups and the encoded slot of its pixel, and by pixel the frame is the serpentine layout of every pixel's 8 bytes |
| `Displays.MpvDisplay.constructor` | ftdi_WS2812b.py:29-52 | The display keeps its width and height, and its raster tables satisfy their specification |
| `Displays.MpvDisplay.Display` | ftdi_WS2812b.py:54-56 | A frame is produced iff the tables are non-empty and the image covers them, otherwise `IndexError`. The frame has `w*h*3` bytes, and byte `(y*w + x)*3 + z` is colour `z` of pixel `(x, y)`, clipped |
| `Uart.Frame` | ftdi_WS2812b.py:81 | A frame is `1 + 7 + 1` cells: a low start cell, the 7 data bits LSB first, then a high stop cell |
| `Uart.ShapedSymbols` | ftdi_WS2812b.py:95 | A byte with bits 1 and 4 set and bits 2, 5 and 7 clear (the shape `format_byte` gives; bit 7 is never sent with 7 data bits) is, inverted, three symbols (high, data, low) |
| `Uart.FormatByteSymbols` | ftdi_WS2812b.py:94-95 | `format_byte(b0, b1, b2)` goes out as the symbols of `b0`, `b1`, `b2`, where non-zero means 1 |
| `Uart.LineShaped` | ftdi_WS2812b.py:91 | Back-to-back shaped bytes are the symbols of the data bits they carry, in order |
| `Uart.ColorLine` | ftdi_WS2812b.py:98-105 | The 8 bytes of `format_color(r, g, b)` put exactly the pixel's 24 wire-bit symbols on the line |
| `Uart.EncodeShaped` | ftdi_WS2812b.py:102-104 | Every byte `format_color` emits has the framing shape |

## Left out

- Device access is not modelled: opening the FTDI device, setting baud rate and line properties, and `dev.write` (ftdi_WS2812b.py:79-81, 91). These are hardware I/O through pylibftdi. The data-bit and stop-bit counts are constants in `Uart`; the baud rate and parity appear only in its comment.
- The line inversion `Uart` assumes is not modelled. It is done in hardware, outside the script.
- Pulse timing is not modelled.
- The video-player subprocess and its pipe writes (ftdi_WS2812b.py:32-38, 57-58) are not modelled. They are process I/O. `MpvDisplay.Display` returns the bytes that would be written.
- The floating-point scaling is not modelled: `image * 255` in the serial path, `* 256` in the preview path, and the gamma power `** gamma`, at ftdi_WS2812b.py:56, 86 and 216. Images hold integers that are already scaled, so float truncation, rounding and NaN are outside the model.
- Displays.Clamp: clips integers, not floats. An out-of-range float becomes the same end value, but the truncation of fractional values is not modelled.
- The effect generators `rotor`, `simple` and `hsv_to_rgb` (ftdi_WS2812b.py:121-199) are not modelled. They are trigonometric, floating-point and unbounded content generators.
- The main loop (ftdi_WS2812b.py:203-218) is not modelled: choosing the display from the command line, and the wall-clock pacing with `time.time` and `time.sleep`.
- Negative width or height is excluded, because both are `nat`. In Python the constructor would build empty tables. If the other dimension is 0, the buffer at ftdi_WS2812b.py:84 has size 0 and `display` writes the empty frame, the same as the model's 0-sized matrix. Otherwise `display` raises. With one dimension negative, the buffer size is negative. With both negative, the 0xFF buffer is non-empty while the tables are empty, so the `&=` at line 89 cannot broadcast.
- Images of a rank other than 3 are not modelled. Neither are numpy's negative-index wrap-around and broadcasting rules: an image is an `array3<int>`, and every table index is non-negative.
- Displays.SerialDisplay.Fits: with an empty matrix, any image with three colour planes yields the empty frame. The source then indexes with empty lists, and the only bound still checked is the scalar colour index.
- Displays.MpvDisplay.Fits: an empty matrix always yields `IndexError`. With no entries, the index arrays the constructor builds have a floating-point type, and numpy refuses to index with them.
