/** The monochrome bit-packer of xvsmfbg: a frame of one byte per pixel becomes
    a stream of bytes carrying eight pixels each, leftmost pixel in the most
    significant bit, with the last pixel of every 480-pixel line forced to 0. */
module Packer {
  import opened Bits

  /** Offset of the pixel data in the shared-memory frame: the xwd header is skipped. */
  const ImgOffset: nat := 0xCA0
  const AssumedWidth: nat := 480
  const AssumedHeight: nat := 240
  /** Output bytes per screen line. */
  const BytesPerLine: nat := AssumedWidth / 8

  /** Number of output bytes for `length` input pixels: eight pixels per byte, rounded up. */
  function Blocks(length: nat): (r: nat)
    ensures length <= 8 * r < length + 8
  {
    (length + 7) / 8
  }

  /** The byte the inner loop builds from the pixels `px`: for each pixel the
      byte is shifted left and the pixel's low bit is xored in. Fewer than
      eight pixels fill only the low bits; the others stay 0. */
  function Build(px: seq<byte>): (r: byte)
    ensures forall k :: |px| <= k < 8 ==> !Bit(r, k)
    decreases |px|
  {
    if px == [] then ZeroBits(); 0
    else
      var a := Build(px[..|px| - 1]);
      var r := (a << 1) ^ (px[|px| - 1] & 1);
      ShiftInBitAll(a, px[|px| - 1], r);
      r
  }

  /** The line-end blanking applied to output byte `ii`: bit 0 of the last
      byte of a line is cleared, every other bit is kept. */
  function Blank(ii: nat, b: byte): (r: byte)
    ensures forall k :: 0 <= k < 8 ==> Bit(r, k) == (Bit(b, k) && !(k == 0 && (ii + 1) % BytesPerLine == 0))
  {
    if (ii + 1) % BytesPerLine == 0 then ClearLowBitAll(b); b & 0xfe else b
  }

  /** The bytes written for the pixels `s` (a whole number of 8-pixel groups). */
  function Pack(s: seq<byte>): (r: seq<byte>)
    requires |s| % 8 == 0
    ensures |r| == |s| / 8
  {
    seq(|s| / 8, ii requires 0 <= ii < |s| / 8 => Blank(ii, Build(s[8 * ii .. 8 * ii + 8])))
  }

  /** Bit `|px| - 1 - j` of the built byte is the low bit of pixel `j`: the first
      pixel ends up in the highest of the bits filled. */
  lemma {:induction false} BuildBit(px: seq<byte>, j: nat)
    requires j < |px| <= 8
    ensures Bit(Build(px), |px| - 1 - j) == (px[j] & 1 == 1)
  {
    var n := |px|;
    ShiftInBit(Build(px[..n - 1]), px[n - 1], n - 1 - j);
    if j < n - 1 {
      BuildBit(px[..n - 1], j);
    }
  }

  /** The built byte depends on the low bit of each pixel only. */
  lemma {:induction false} BuildLowBitsOnly(px: seq<byte>, qx: seq<byte>)
    requires |px| == |qx|
    requires forall k :: 0 <= k < |px| ==> px[k] & 1 == qx[k] & 1
    ensures Build(px) == Build(qx)
  {
    if px != [] {
      BuildLowBitsOnly(px[..|px| - 1], qx[..|qx| - 1]);
    }
  }

  /** Bit placement: bit `7 - jj` of output byte `ii` is the low bit of pixel
      `8 * ii + jj`, except bit 0 of the last byte of each line, which is 0. */
  lemma PackBit(s: seq<byte>, ii: nat, jj: nat)
    requires |s| % 8 == 0 && ii < |s| / 8 && jj < 8
    ensures Bit(Pack(s)[ii], 7 - jj)
            == (!(jj == 7 && (ii + 1) % BytesPerLine == 0) && s[8 * ii + jj] & 1 == 1)
  {
    var px := s[8 * ii .. 8 * ii + 8];
    BuildBit(px, jj);
  }

  /** Only bit 0 of each pixel reaches the output: pixels that agree in their
      low bits give the same output, whatever their other bits. */
  lemma PackLowBitsOnly(s: seq<byte>, t: seq<byte>)
    requires |s| == |t| && |s| % 8 == 0
    requires forall k :: 0 <= k < |s| ==> s[k] & 1 == t[k] & 1
    ensures Pack(s) == Pack(t)
  {
    forall ii | 0 <= ii < |s| / 8 ensures Pack(s)[ii] == Pack(t)[ii] {
      BuildLowBitsOnly(s[8 * ii .. 8 * ii + 8], t[8 * ii .. 8 * ii + 8]);
    }
  }

  /** When `length` is not a multiple of 8 the encoder reads past the frame:
      two buffers that agree on the first `length` pixels but differ in the low
      bit of pixel `length` give different output (unless that pixel is a
      blanked line end). */
  lemma OverRead(s: seq<byte>, t: seq<byte>, length: nat)
    requires |s| == |t| == 8 * Blocks(length) && length % 8 != 0
    requires s[..length] == t[..length] && s[length] & 1 != t[length] & 1
    requires !(length % 8 == 7 && (length / 8 + 1) % BytesPerLine == 0)
    ensures Pack(s) != Pack(t)
  {
    var ii, jj := length / 8, length % 8;
    PackBit(s, ii, jj);
    PackBit(t, ii, jj);
  }

  /** The inner loop of `write_bits`: the eight pixels from `img[p]` on are
      shifted into one byte, first pixel first. */
  method BuildByte(img: array<byte>, p: nat) returns (build: byte)
    requires p + 8 <= img.Length
    ensures build == Build(img[p .. p + 8])
  {
    build := 0;
    var jj := 0;
    while jj < 8
      invariant 0 <= jj <= 8
      invariant build == Build(img[p .. p + jj])
    {
      assert img[p .. p + jj + 1][..jj] == img[p .. p + jj];
      build := build << 1;
      build := build ^ (img[p + jj] & 1);
      jj := jj + 1;
    }
  }

  /** The line-end test of `write_bits`: the last pixel of every line is
      blanked in output byte `ii`. */
  method BlankLineEnd(ii: nat, b: byte) returns (build: byte)
    ensures build == Blank(ii, b)
  {
    build := b;
    if (ii + 1) % BytesPerLine == 0 {
      build := build & 0xfe;
    }
  }

  /** `write_bits`: encodes `length` pixels starting at `img[offset]`. The loop
      reads `8 * Blocks(length)` pixels, which is more than `length` when
      `length` is not a multiple of 8, so those pixels must exist. */
  method WriteBits(img: array<byte>, offset: nat, length: nat) returns (buffer: array<byte>)
    requires offset + 8 * Blocks(length) <= img.Length
    ensures fresh(buffer) && buffer.Length == Blocks(length)
    ensures buffer[..] == Pack(img[offset .. offset + 8 * Blocks(length)])
  {
    ghost var s := img[offset .. offset + 8 * Blocks(length)];
    ghost var packed := Pack(s);
    buffer := new byte[Blocks(length)];
    var p := offset;  // img_buffer
    var ii := 0;      // also the index of current_output_byte
    while ii < Blocks(length)
      invariant 0 <= ii <= Blocks(length)
      invariant p == offset + 8 * ii
      invariant forall k :: 0 <= k < ii ==> buffer[k] == packed[k]
    {
      var build := BuildByte(img, p);
      p := p + 8;
      build := BlankLineEnd(ii, build);
      assert img[p - 8 .. p] == s[8 * ii .. 8 * ii + 8];
      buffer[ii] := build;
      ii := ii + 1;
    }
  }

  /** The call in `main`: the frame is the shared-memory segment without its
      header, `segment.Length - ImgOffset` pixels long. */
  method EncodeFrame(segment: array<byte>) returns (out: array<byte>)
    requires segment.Length >= ImgOffset
    requires (segment.Length - ImgOffset) % 8 == 0
    ensures fresh(out)
    ensures out[..] == Pack(segment[ImgOffset..])
  {
    var length := segment.Length - ImgOffset;
    assert 8 * Blocks(length) == length;
    out := WriteBits(segment, ImgOffset, length);
    assert segment[ImgOffset .. ImgOffset + length] == segment[ImgOffset..];
  }
}
