/** What the viewer shows for the encoder's output: starting at the top-left
    corner, the 14400 bytes of one encoded 480 x 240 frame paint every pixel
    white exactly when the low bit of the source pixel is set, except the last
    column, which the encoder blanks. */
module RoundTrip {
  import opened Bits
  import Packer
  import opened Emulator

  /** Byte `k` of the stream is drawn over columns `8 * (k % 60) .. + 7` of row
      `k / 60`: cell (r, c) belongs to byte `60 * r + c / 8`, as its bit `7 - c % 8`. */
  lemma CellOfByte(k: int, r: int, c: int)
    requires 0 <= k && 0 <= r && 0 <= c < Width
    ensures (r == k / 60 && 8 * (k % 60) <= c < 8 * (k % 60) + 8) <==> 60 * r + c / 8 == k
    ensures 60 * r + c / 8 == k ==> c - 8 * (k % 60) == c % 8
  {
    assert k == 60 * (k / 60) + k % 60;
    if 60 * r + c / 8 == k {
      assert r == k / 60 && c / 8 == k % 60;
    }
  }

  /** The write position after byte `k` of a frame that started at the origin. */
  lemma NextPosition(k: nat)
    requires k < MaxReadInOneSitting
    ensures (k / 60) % Height == k / 60
    ensures 8 * (k % 60) + 8 >= Width <==> k % 60 == 59
    ensures k % 60 == 59 ==> (k + 1) % 60 == 0 && (k + 1) / 60 == k / 60 + 1
    ensures k % 60 != 59 ==> (k + 1) % 60 == k % 60 + 1 && (k + 1) / 60 == k / 60
    ensures k % 60 == 59 ==> (k / 60 + 1 >= Height <==> k + 1 == MaxReadInOneSitting)
  {
  }

  /** After the first `|s|` bytes of a frame fed from the origin, the write
      position is `|s|` bytes further on. */
  lemma {:induction false} FeedPosition(v0: View, s: seq<byte>)
    requires WellFormed(v0.grid) && v0.xx == 0 && v0.yy == 0
    requires |s| <= MaxReadInOneSitting
    ensures FeedAll(v0, s).xx == 8 * (|s| % 60)
    ensures FeedAll(v0, s).yy == (|s| / 60) % Height
    decreases |s|
  {
    if s != [] {
      var k := |s| - 1;
      FeedPosition(v0, s[..k]);
      NextPosition(k);
    }
  }

  /** Byte `k` of a frame fed from the origin paints cell (r, c) exactly when
      the cell belongs to it, with the cell's bit. */
  lemma PaintStreamByte(g: seq<seq<bool>>, k: nat, b: byte, r: int, c: int)
    requires WellFormed(g) && 0 <= r < Height && 0 <= c < Width
    ensures PaintByte(g, 8 * (k % 60), k / 60, b)[r][c]
            == if 60 * r + c / 8 == k then Bit(b, 7 - c % 8) else g[r][c]
  {
    PaintByteAt(g, 8 * (k % 60), k / 60, b, r, c);
    CellOfByte(k, r, c);
  }

  /** After the first `|s|` bytes of a frame fed from the origin, cell (r, c)
      shows its bit of the stream if one of those bytes covers it, and is as
      it was otherwise. */
  lemma {:induction false} FeedCell(v0: View, s: seq<byte>, r: int, c: int)
    requires WellFormed(v0.grid) && v0.xx == 0 && v0.yy == 0
    requires |s| <= MaxReadInOneSitting
    requires 0 <= r < Height && 0 <= c < Width
    ensures WellFormed(FeedAll(v0, s).grid)
    ensures FeedAll(v0, s).grid[r][c] == if 60 * r + c / 8 < |s| then Bit(s[60 * r + c / 8], 7 - c % 8)
                                         else v0.grid[r][c]
    decreases |s|
  {
    if s != [] {
      var k := |s| - 1;
      var u := FeedAll(v0, s[..k]);
      FeedCell(v0, s[..k], r, c);
      FeedPosition(v0, s[..k]);
      NextPosition(k);
      PaintStreamByte(u.grid, k, s[k], r, c);
      var i := 60 * r + c / 8;
      if i < k {
        assert s[..k][i] == s[i];
      }
    }
  }

  /** After the first `|s|` bytes of a frame fed from the origin, the position
      is `|s|` bytes further on, every cell of the first `|s|` bytes shows its
      bit of the stream and every other cell is as it was. */
  lemma FeedFromOrigin(v0: View, s: seq<byte>)
    requires WellFormed(v0.grid) && v0.xx == 0 && v0.yy == 0
    requires |s| <= MaxReadInOneSitting
    ensures WellFormed(FeedAll(v0, s).grid)
    ensures FeedAll(v0, s).xx == 8 * (|s| % 60)
    ensures FeedAll(v0, s).yy == (|s| / 60) % Height
    ensures forall r, c :: 0 <= r < Height && 0 <= c < Width ==>
              FeedAll(v0, s).grid[r][c] == if 60 * r + c / 8 < |s| then Bit(s[60 * r + c / 8], 7 - c % 8)
                                           else v0.grid[r][c]
  {
    FeedPosition(v0, s);
    forall r, c | 0 <= r < Height && 0 <= c < Width
      ensures FeedAll(v0, s).grid[r][c] == if 60 * r + c / 8 < |s| then Bit(s[60 * r + c / 8], 7 - c % 8)
                                           else v0.grid[r][c]
    {
      FeedCell(v0, s, r, c);
    }
  }

  /** The last pixel of a line is the only one whose output bit is blanked. */
  lemma LineEnd(r: int, c: int)
    requires 0 <= r && 0 <= c < Width
    ensures 8 * (60 * r + c / 8) + c % 8 == Width * r + c
    ensures (c % 8 == 7 && (60 * r + c / 8 + 1) % Packer.BytesPerLine == 0) <==> c == Width - 1
  {
    assert (60 * r + c / 8 + 1) % 60 == (c / 8 + 1) % 60;
  }

  /** The stream bit that cell (y, x) is drawn from is the low bit of source
      pixel `480 * y + x`, or 0 in the last column. */
  lemma EncodedPixel(frame: seq<byte>, y: int, x: int)
    requires |frame| == Packer.AssumedWidth * Packer.AssumedHeight
    requires 0 <= y < Height && 0 <= x < Width
    ensures 60 * y + x / 8 < |Packer.Pack(frame)|
    ensures Bit(Packer.Pack(frame)[60 * y + x / 8], 7 - x % 8) == (x != Width - 1 && frame[Width * y + x] & 1 == 1)
  {
    LineEnd(y, x);
    Packer.PackBit(frame, 60 * y + x / 8, x % 8);
  }

  /** Round trip: the encoded frame, unpacked from the origin, shows pixel
      (x, y) white exactly when the low bit of source pixel `480 * y + x` is
      set and `x` is not the blanked last column; the position is back at the
      origin, ready for the next frame. */
  lemma UnpackPackedFrame(frame: seq<byte>, v0: View)
    requires |frame| == Packer.AssumedWidth * Packer.AssumedHeight
    requires WellFormed(v0.grid) && v0.xx == 0 && v0.yy == 0
    ensures |Packer.Pack(frame)| == MaxReadInOneSitting
    ensures FeedAll(v0, Packer.Pack(frame)).xx == 0 && FeedAll(v0, Packer.Pack(frame)).yy == 0
    ensures WellFormed(FeedAll(v0, Packer.Pack(frame)).grid)
    ensures forall y, x :: 0 <= y < Height && 0 <= x < Width ==>
              FeedAll(v0, Packer.Pack(frame)).grid[y][x] == (x != Width - 1 && frame[Width * y + x] & 1 == 1)
  {
    var s := Packer.Pack(frame);
    FeedFromOrigin(v0, s);
    forall y, x | 0 <= y < Height && 0 <= x < Width
      ensures FeedAll(v0, s).grid[y][x] == (x != Width - 1 && frame[Width * y + x] & 1 == 1)
    {
      EncodedPixel(frame, y, x);
    }
  }

  /** One frame end to end: the shared-memory segment is encoded as in the
      encoder's `main`, and a viewer whose write position is at the origin
      draws the whole encoded stream in one call of `DrawScreen`. */
  method ShowFrame(segment: array<byte>, viewer: Viewer) returns (consumed: nat)
    requires segment.Length == Packer.ImgOffset + Packer.AssumedWidth * Packer.AssumedHeight
    requires viewer.Valid() && viewer.xx == 0 && viewer.yy == 0
    modifies viewer, viewer.screen
    ensures consumed == MaxReadInOneSitting
    ensures viewer.Valid() && viewer.xx == 0 && viewer.yy == 0
    ensures forall y, x :: 0 <= y < Height && 0 <= x < Width ==>
              viewer.screen[y, x] == (x != Width - 1 && segment[Packer.ImgOffset + Width * y + x] & 1 == 1)
  {
    ghost var v0 := viewer.Current();
    var out := Packer.EncodeFrame(segment);
    consumed := viewer.DrawScreen(out[..]);
    UnpackPackedFrame(segment[Packer.ImgOffset..], v0);
    assert out[..][..consumed] == out[..];
  }
}
