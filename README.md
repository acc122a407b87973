# Packed monochrome framebuffer stream: encoder and viewer

This project models the two small programs that carry a 480 x 240 picture as a
1-bit-per-pixel byte stream, and proves properties of that model in Dafny.

- **The encoder (`xvsmfbg`)** reads a frame of one byte per pixel from the shared
  memory of an X virtual framebuffer and skips the `0xCA0`-byte xwd header first.
  `write_bits` keeps the low bit of each pixel. It packs eight pixels per output
  byte, leftmost pixel in the most significant bit, and clears bit 0 of every 60th
  output byte. That bit is the last pixel of each 480-pixel line.
- **The viewer (`emulator`)** reads the packed bytes that are available, at most
  14400 per call of `DrawScreen`. Each byte paints eight pixels black or white
  through the bounds-checked `setpixel`. A static write position `(xx, yy)`
  survives between calls and wraps at the line end and after the last line. Key
  events set or clear entries of a 1024-entry held-key table.

Files:

- `bits.dfy` (module `Bits`): the byte type (`bv8`), `Bit`, and small bit-vector facts.
- `packer.dfy` (module `Packer`): the specification functions `Build`, `Blank` and
  `Pack`, their lemmas, and `write_bits` as the method `WriteBits` over arrays,
  with its inner loop as `BuildByte` and its line-end step as `BlankLineEnd`.
  `EncodeFrame` is the call in the encoder's `main`.
- `emulator.dfy` (module `Emulator`): the picture and write position as a value
  (`View`, `Feed`, `FeedAll`), and the held-key table as a value (`KeysAfter`).
  The class `Viewer` holds the surface (`array2<bool>`, row then column, true for
  white), the position fields `xx`/`yy` and the key table. `SetPixel` states
  its single-cell update directly. `DrawScreen`, `HandleEvent` and `PollEvents`
  are proved against the functions above.
- `roundtrip.dfy` (module `RoundTrip`): the law that connects the two programs.
  Start the viewer at the origin and feed it the encoder's output for a 480 x 240
  frame. Each pixel then shows the low bit of its source pixel, except the last
  column, which is black.

`write_bits` always reads `8 * ((length + 7) / 8)` pixels. When `length` is not a
multiple of 8, that is more than `length`. `WriteBits` therefore requires those
pixels to exist, and `OverRead` shows that they reach the output.

## Model

| member | source | states |
|---|---|---|
| `Packer.Blocks` | xvsmfbg/xvsmfbg.cpp:39-46 | `(length + 7) / 8`, the size of the staging buffer, the number of output bytes and the count passed to `write`, is the least number of 8-pixel groups that covers `length` pixels: `length <= 8 * r < length + 8` |
| `Packer.Build` | xvsmfbg/xvsmfbg.cpp:47-58 | the byte built from fewer than eight pixels has every bit at or above position `n` clear, where `n` is the number of pixels, so the pixels fill the byte from the low end |
| `Packer.Blank` | xvsmfbg/xvsmfbg.cpp:60-64 | bit 0 of output byte `ii` is cleared exactly when `(ii + 1) % 60 == 0`; every other bit is kept |
| `Packer.BlankLineEnd` | xvsmfbg/xvsmfbg.cpp:62-64 | the `&= 0xfe` step of the loop body computes `Blank` |
| `Packer.Pack` | xvsmfbg/xvsmfbg.cpp:46-68 | the output has one byte per eight pixels; the value of each bit is given by `PackBit` |
| `Packer.BuildBit` | xvsmfbg/xvsmfbg.cpp:47-58 | after the shift-and-xor loop, the low bit of pixel `j` is bit `n - 1 - j` of the byte, so the first pixel is the most significant bit |
| `Packer.BuildLowBitsOnly` | xvsmfbg/xvsmfbg.cpp:50-58 | the built byte depends only on the low bit of each pixel |
| `Packer.BuildByte` | xvsmfbg/xvsmfbg.cpp:47-58 | the inner loop turns the eight pixels from `img_buffer` on into `Build` of them, the byte whose bits `PackBit` describes |
| `Packer.PackBit` | xvsmfbg/xvsmfbg.cpp:46-64 | bit `7 - jj` of output byte `ii` is the low bit of pixel `8 * ii + jj`, except bit 0 of the last byte of each line, which is 0 |
| `Packer.PackLowBitsOnly` | xvsmfbg/xvsmfbg.cpp:56 | frames whose pixels agree in bit 0 give the same output, whatever their higher bits |
| `Packer.OverRead` | xvsmfbg/xvsmfbg.cpp:46-57 | when `length % 8 != 0`, pixel `length`, which lies past the frame, changes the output unless it is a blanked line end |
| `Packer.WriteBits` | xvsmfbg/xvsmfbg.cpp:32-74 | reads `8 * ((length + 7) / 8)` pixels from `offset`; the output buffer has `(length + 7) / 8` bytes and equals `Pack` of those pixels |
| `Packer.EncodeFrame` | xvsmfbg/xvsmfbg.cpp:146-151 | the encoded frame is the segment with its first `0xCA0` header bytes skipped, `segsz - 0xCA0` pixels long |
| `Emulator.PaintByte` | xvsmfbg/emulator/emulator.c:68-77 | painting a byte keeps the number of rows and the length of every row; cells outside the surface are not drawn, as `setpixel`'s bounds check discards them |
| `Emulator.Feed` | xvsmfbg/emulator/emulator.c:65-85 | one byte keeps the grid shape, and it keeps the between-bytes invariant `0 <= xx < 480`, `xx % 8 == 0`, `0 <= yy < 240` |
| `Emulator.FeedAll` | xvsmfbg/emulator/emulator.c:60-85 | any number of bytes keeps the grid shape and the between-bytes invariant |
| `Emulator.FeedPaintsEight` | xvsmfbg/emulator/emulator.c:68-81 | between bytes, a byte writes exactly the 8 cells `xx .. xx + 7` of row `yy`, all inside the surface, white iff the bit is set, MSB leftmost; no other cell changes |
| `Emulator.FeedAllAppend` | xvsmfbg/emulator/emulator.c:60-65 | feeding `s` and then `t` equals feeding `s + t`, so a frame split over several `DrawScreen` calls draws the same picture |
| `Emulator.KeysAfter` | xvsmfbg/emulator/emulator.c:151-161 | key-down sets and key-up clears entry `sym` only when `0 <= sym < 1024`; every other entry, and the whole table for other events, is unchanged |
| `Emulator.KeysAfterAll` | xvsmfbg/emulator/emulator.c:140-163 | the table keeps its 1024 entries, and an entry that no event of the sequence tracks keeps its value |
| `Emulator.LatestKeyEvent` | xvsmfbg/emulator/emulator.c:140-163 | there is a latest key event for slot `k` exactly when some event in the sequence is a key event for `k` |
| `Emulator.HeldIffLatestDown` | xvsmfbg/emulator/emulator.c:140-163 | after a sequence of events, a key is held iff its latest in-range key event was a key-down; a key with no such event keeps its former state |
| `Emulator.Viewer.constructor` | xvsmfbg/emulator/emulator.c:60-61 | the write position starts at (0, 0), like the statics at lines 60-61, and the key table starts with every entry cleared, like the zero-initialised `keys_held` at line 17 |
| `Emulator.Viewer.SetPixel` | xvsmfbg/emulator/emulator.c:37-46 | off-surface `(x, y)` changes nothing; otherwise only cell `(x, y)` changes, to the given colour |
| `Emulator.Viewer.DrawScreen` | xvsmfbg/emulator/emulator.c:48-90 | consumes `min(available, 14400)` bytes; the new surface and position are `FeedAll` of the old ones over those bytes; the position invariant holds afterwards |
| `Emulator.Viewer.DrawByte` | xvsmfbg/emulator/emulator.c:66-84 | one byte read between bytes moves the surface and position from `v` to `Feed(v, byte)`, wrap included, and keeps the position invariant |
| `Emulator.Viewer.DrawBits` | xvsmfbg/emulator/emulator.c:68-77 | the eight-pixel loop advances `xx` by 8 and sets cells `xx .. xx + 7` of row `yy` to the byte's bits, most significant first; every other cell keeps its colour |
| `Emulator.Viewer.HandleEvent` | xvsmfbg/emulator/emulator.c:142-162 | the key table becomes `KeysAfter` of the old table; quit, or key-down of escape, clears the running flag |
| `Emulator.Viewer.PollEvents` | xvsmfbg/emulator/emulator.c:140-163 | every pending event is handled in order; running stays set iff no event stops the program |
| `RoundTrip.FeedPosition` | xvsmfbg/emulator/emulator.c:76-84 | after `k <= 14400` bytes from (0, 0), the position is `(8 * (k % 60), (k / 60) % 240)` |
| `RoundTrip.FeedCell` | xvsmfbg/emulator/emulator.c:65-84 | after `k <= 14400` bytes from (0, 0), cell `(r, c)` shows bit `7 - c % 8` of byte `60 * r + c / 8` if that byte was read, and is unchanged otherwise |
| `RoundTrip.FeedFromOrigin` | xvsmfbg/emulator/emulator.c:65-84 | after `k <= 14400` bytes from (0, 0): the position is `(8 * (k % 60), (k / 60) % 240)`; the first `8k` pixels in row-major order show their stream bits; every other cell is unchanged |
| `RoundTrip.EncodedPixel` | xvsmfbg/xvsmfbg.cpp:46-64 | the stream bit that cell `(y, x)` is drawn from equals the low bit of source pixel `480 * y + x`, except at `x = 479`, where it is 0 |
| `RoundTrip.UnpackPackedFrame` | xvsmfbg/emulator/emulator.c:60-85 | the 14400 encoded bytes of a 480 x 240 frame, fed from (0, 0), make pixel `(x, y)` white iff `x != 479` and source pixel `480 * y + x` has its low bit set; the position returns to (0, 0) |
| `RoundTrip.ShowFrame` | xvsmfbg/xvsmfbg.cpp:146-157 | encoding a segment and drawing its output once on a viewer at (0, 0) consumes 14400 bytes and shows the frame's low bits, with the last column black |

## Left out

- The terminal firmware under `Source Code/` (escape-sequence parser, character grid, video and keyboard drivers) is not part of this model.
- The encoder's I/O is not modelled. That covers attaching to and detaching from shared memory, reading the segment size, parsing the shared-memory id from standard input, the SIGINT handler, the `keep_running` loop and `usleep` pacing. `WriteBits` returns the staging buffer, and `write(1, …)` is left out, so its return value is not modelled.
- The static `realloc` cache of the staging buffer in `write_bits` is allocation management. `WriteBits` allocates a fresh buffer of the same size.
- `WriteBits`: `length` is a `nat`. The C `int` parameter could also be negative, and `length + 7` could overflow. Neither is modelled.
- `EncodeFrame`: requires `segsz >= 0xCA0` and `(segsz - 0xCA0) % 8 == 0`. The source checks neither. A smaller segment makes the `size_t` subtraction wrap. Another remainder makes `write_bits` read past the end of the segment.
- The viewer's input is the sequence of bytes that `can_read`/`select` reports as readable. End of input is not modelled. There `select` keeps reporting the descriptor as readable and `read` returns 0 without storing a byte. The loop then paints from `monochrome_packed_byte` as it stands. That local is never initialised, so the first byte of a call is indeterminate. After a byte has been painted it holds 0, because it was shifted left eight times. So at end of input each call paints up to 14400 groups of eight black pixels and advances the position for each one.
- SDL plumbing is not modelled: initialisation, the video-mode failure path, surface lock and unlock (including the early return when locking fails), `SDL_MapRGB`, `SDL_Flip`, `load_image`, and the `pitch / BPP` address arithmetic. The surface is an abstract `array2<bool>`.
- `WIDTH` and `HEIGHT` are constants 480 and 240, because `main` overwrites the values it got from SDL with these.
- `Emulator.Viewer.constructor`: the initial surface contents are left unspecified.
- The viewer's outer `while (continue_running)` loop is modelled as its two steps, `DrawScreen` and `PollEvents`, and not as a loop.
- The left-button branch for mouse events does nothing in the source, so `MouseButtonDown` carries no data.
