/** The SDL viewer for the packed monochrome stream: every byte read from the
    input paints eight black-or-white pixels at a write position that survives
    from one call of `DrawScreen` to the next, and key events update a table
    of held keys. The SDL surface is a 2D array of booleans (true is white),
    indexed by row and then column; the input is the sequence of bytes that can
    be read without blocking. */
module Emulator {
  import opened Bits

  const Width: nat := 480
  const Height: nat := 240
  /** At most one frame (480 * 240 / 8 bytes) is read per call of `DrawScreen`. */
  const MaxReadInOneSitting: nat := 14400
  const KeyTableSize: nat := 1024
  /** SDL's key symbol for the escape key. */
  const SdlkEscape: int := 27

  // ---------------------------------------------------------------------------
  // The picture and the write position, as values

  /** The surface contents (`grid[y][x]`, true for white) and the write position. */
  datatype View = View(grid: seq<seq<bool>>, xx: int, yy: int)

  /** A grid of `Height` rows of `Width` pixels. */
  predicate WellFormed(g: seq<seq<bool>>)
  {
    |g| == Height && forall y :: 0 <= y < Height ==> |g[y]| == Width
  }

  /** The state between two bytes: the next byte goes to a whole 8-pixel group
      inside the surface. */
  predicate Between(v: View)
  {
    WellFormed(v.grid) && 0 <= v.xx < Width && v.xx % 8 == 0 && 0 <= v.yy < Height
  }

  /** `b` drawn most significant bit first at columns `x .. x + 7` of row `y`,
      a set bit as white; cells that are not in the grid are not drawn. */
  function PaintByte(g: seq<seq<bool>>, x: int, y: int, b: byte): (r: seq<seq<bool>>)
    ensures |r| == |g| && forall i :: 0 <= i < |g| ==> |r[i]| == |g[i]|
  {
    seq(|g|, i requires 0 <= i < |g| =>
      if i == y then
        seq(|g[i]|, c requires 0 <= c < |g[i]| =>
          if x <= c < x + 8 then Bit(b, 7 - (c - x)) else g[i][c])
      else g[i])
  }

  /** One byte of the read loop: its eight pixels are drawn, the position moves
      eight columns right, wrapping to the next line at the line end and to the
      top after the last line. */
  function Feed(v: View, b: byte): (r: View)
    ensures WellFormed(v.grid) ==> WellFormed(r.grid)
    ensures Between(v) ==> Between(r)
  {
    var x := v.xx + 8;
    var y := if x >= Width then v.yy + 1 else v.yy;
    View(PaintByte(v.grid, v.xx, v.yy, b),
         if x >= Width then 0 else x,
         if y >= Height then 0 else y)
  }

  /** The bytes `s`, fed one after another. */
  function FeedAll(v: View, s: seq<byte>): (r: View)
    ensures WellFormed(v.grid) ==> WellFormed(r.grid)
    ensures Between(v) ==> Between(r)
    decreases |s|
  {
    if s == [] then v else Feed(FeedAll(v, s[..|s| - 1]), s[|s| - 1])
  }

  /** A cell of the painted grid. */
  lemma PaintByteAt(g: seq<seq<bool>>, x: int, y: int, b: byte, r: int, c: int)
    requires WellFormed(g) && 0 <= r < Height && 0 <= c < Width
    ensures PaintByte(g, x, y, b)[r][c] == if r == y && x <= c < x + 8 then Bit(b, 7 - (c - x)) else g[r][c]
  {
  }

  /** Between bytes, a byte writes exactly the eight cells `xx .. xx + 7` of row
      `yy`, all inside the surface, white exactly for its set bits, leftmost for
      its most significant bit. */
  lemma FeedPaintsEight(v: View, b: byte)
    requires Between(v)
    ensures v.xx + 8 <= Width
    ensures forall y, x :: 0 <= y < Height && 0 <= x < Width ==>
              Feed(v, b).grid[y][x] == if y == v.yy && v.xx <= x < v.xx + 8 then Bit(b, 7 - (x - v.xx))
                                       else v.grid[y][x]
  {
    assert v.xx + 8 <= Width;
    forall y, x | 0 <= y < Height && 0 <= x < Width
      ensures Feed(v, b).grid[y][x] == if y == v.yy && v.xx <= x < v.xx + 8 then Bit(b, 7 - (x - v.xx))
                                       else v.grid[y][x]
    {
      PaintByteAt(v.grid, v.xx, v.yy, b, y, x);
    }
  }

  /** Feeding `s` and then `t` is feeding `s + t`: a frame split across calls
      of `DrawScreen` draws the same picture. */
  lemma {:induction false} FeedAllAppend(v: View, s: seq<byte>, t: seq<byte>)
    ensures FeedAll(v, s + t) == FeedAll(FeedAll(v, s), t)
    decreases |t|
  {
    if t == [] {
      assert s + t == s;
    } else {
      var t' := t[..|t| - 1];
      assert (s + t)[..|s + t| - 1] == s + t';
      FeedAllAppend(v, s, t');
    }
  }

  // ---------------------------------------------------------------------------
  // Key events, as values

  datatype Option<T> = None | Some(value: T)

  datatype Event = Quit | MouseButtonDown | KeyDown(sym: int) | KeyUp(sym: int) | OtherEvent

  /** Whether `e` is a key event the table records for slot `k`. */
  predicate Tracks(e: Event, k: int)
  {
    (e.KeyDown? || e.KeyUp?) && 0 <= e.sym < KeyTableSize && e.sym == k
  }

  /** Whether `e` ends the main loop: the window is closed or escape is pressed. */
  predicate Stops(e: Event)
  {
    e.Quit? || (e.KeyDown? && e.sym == SdlkEscape)
  }

  /** The held-key table after one event. */
  function KeysAfter(keys: seq<bool>, e: Event): (r: seq<bool>)
    requires |keys| == KeyTableSize
    ensures |r| == KeyTableSize
    ensures forall k :: 0 <= k < KeyTableSize && !Tracks(e, k) ==> r[k] == keys[k]
    ensures forall k :: 0 <= k < KeyTableSize && Tracks(e, k) ==> r[k] == e.KeyDown?
  {
    match e
    case KeyDown(sym) => if 0 <= sym < KeyTableSize then keys[sym := true] else keys
    case KeyUp(sym) => if 0 <= sym < KeyTableSize then keys[sym := false] else keys
    case _ => keys
  }

  /** The held-key table after the events `es`, in order. */
  function KeysAfterAll(keys: seq<bool>, es: seq<Event>): (r: seq<bool>)
    requires |keys| == KeyTableSize
    ensures |r| == KeyTableSize
    ensures forall k :: 0 <= k < KeyTableSize && (forall i :: 0 <= i < |es| ==> !Tracks(es[i], k)) ==> r[k] == keys[k]
    decreases |es|
  {
    if es == [] then keys else KeysAfter(KeysAfterAll(keys, es[..|es| - 1]), es[|es| - 1])
  }

  /** The direction of the latest key event for slot `k` in `es`, if any:
      `Some(true)` for a key-down, `Some(false)` for a key-up. */
  function LatestKeyEvent(es: seq<Event>, k: int): (r: Option<bool>)
    ensures r.Some? <==> exists i :: 0 <= i < |es| && Tracks(es[i], k)
    decreases |es|
  {
    if es == [] then None
    else if Tracks(es[|es| - 1], k) then Some(es[|es| - 1].KeyDown?)
    else LatestKeyEvent(es[..|es| - 1], k)
  }

  /** A key is held exactly when its latest event was a key-down; a key with no
      event keeps its former state. */
  lemma {:induction false} HeldIffLatestDown(keys: seq<bool>, es: seq<Event>, k: int)
    requires |keys| == KeyTableSize && 0 <= k < KeyTableSize
    ensures KeysAfterAll(keys, es)[k] == match LatestKeyEvent(es, k)
                                         case Some(down) => down
                                         case None => keys[k]
    decreases |es|
  {
    if es != [] {
      HeldIffLatestDown(keys, es[..|es| - 1], k);
    }
  }

  // ---------------------------------------------------------------------------
  // The viewer's state, updated in place

  /** The program's state: the surface, the persistent write position of
      `DrawScreen` and the held-key table. */
  class Viewer {
    const screen: array2<bool>
    const keysHeld: array<bool>
    var xx: int
    var yy: int

    ghost predicate Valid()
      reads this
    {
      screen.Length0 == Height && screen.Length1 == Width && keysHeld.Length == KeyTableSize &&
      0 <= xx < Width && xx % 8 == 0 && 0 <= yy < Height
    }

    /** The surface and the write position as a value. */
    ghost function Current(): (v: View)
      requires screen.Length0 == Height && screen.Length1 == Width
      reads this, screen
      ensures WellFormed(v.grid)
    {
      View(seq(Height, y requires 0 <= y < Height reads screen =>
             seq(Width, x requires 0 <= x < Width reads screen => screen[y, x])),
           xx, yy)
    }

    /** The surface and the write position are those of `v`. */
    ghost predicate Shows(v: View)
      reads this, screen
    {
      screen.Length0 == Height && screen.Length1 == Width && WellFormed(v.grid) &&
      xx == v.xx && yy == v.yy &&
      forall y, x :: 0 <= y < Height && 0 <= x < Width ==> screen[y, x] == v.grid[y][x]
    }

    /** The static position starts at (0, 0) and no key is held. */
    constructor ()
      ensures Valid() && fresh(screen) && fresh(keysHeld)
      ensures xx == 0 && yy == 0
      ensures forall k :: 0 <= k < KeyTableSize ==> !keysHeld[k]
    {
      screen := new bool[Height, Width];
      keysHeld := new bool[KeyTableSize](_ => false);
      xx, yy := 0, 0;
    }

    /** `setpixel`: writes one cell, or nothing when (x, y) is off the surface. */
    method SetPixel(x: int, y: int, white: bool)
      requires screen.Length0 == Height && screen.Length1 == Width
      modifies screen
      ensures forall r, c :: 0 <= r < Height && 0 <= c < Width ==>
                screen[r, c] == if r == y && c == x then white else old(screen[r, c])
    {
      if x < 0 || x >= Width || y < 0 || y >= Height {
        return;
      }
      screen[y, x] := white;
    }

    /** The read loop of `DrawScreen`: reads at most `MaxReadInOneSitting` of
        the available bytes and draws each of them at the write position. */
    method DrawScreen(input: seq<byte>) returns (consumed: nat)
      requires Valid()
      modifies this, screen
      ensures Valid()
      ensures consumed == if |input| < MaxReadInOneSitting then |input| else MaxReadInOneSitting
      ensures Shows(FeedAll(old(Current()), input[..consumed]))
    {
      ghost var v0 := Current();
      var readMore := MaxReadInOneSitting;
      consumed := 0;
      while consumed < |input| && readMore != 0
        invariant Valid()
        invariant consumed <= |input| && readMore == MaxReadInOneSitting - consumed
        invariant Shows(FeedAll(v0, input[..consumed]))
      {
        readMore := readMore - 1;
        DrawByte(input[consumed], FeedAll(v0, input[..consumed]));
        assert input[..consumed + 1][..consumed] == input[..consumed];
        consumed := consumed + 1;
      }
    }

    /** The body of the read loop for one byte: its pixels are drawn, then
        the write position wraps at the line end and after the last line. */
    method DrawByte(mono: byte, ghost v: View)
      requires Valid() && Shows(v)
      modifies this, screen
      ensures Valid() && Shows(Feed(v, mono))
    {
      DrawBits(mono);
      if xx >= Width {
        xx := 0;
        yy := yy + 1;
      }
      if yy >= Height {
        yy := 0;
      }
      FeedPaintsEight(v, mono);
    }

    /** The inner loop of `DrawScreen`: eight `setpixel` calls at columns
        `xx .. xx + 7` of row `yy`, most significant bit first, white for a set
        bit; `xx` ends eight columns further right. */
    method DrawBits(mono: byte)
      requires screen.Length0 == Height && screen.Length1 == Width
      modifies this`xx, screen
      ensures xx == old(xx) + 8
      ensures forall r, c :: 0 <= r < Height && 0 <= c < Width ==>
                screen[r, c] == if r == yy && old(xx) <= c < old(xx) + 8 then Bit(mono, 7 - (c - old(xx)))
                                else old(screen[r, c])
    {
      var bits := mono;
      var ii := 0;
      while ii < 8
        invariant 0 <= ii <= 8
        invariant xx == old(xx) + ii
        invariant bits == mono << ii
        invariant forall r, c :: 0 <= r < Height && 0 <= c < Width && !(r == yy && old(xx) <= c < old(xx) + ii) ==>
                    screen[r, c] == old(screen[r, c])
        invariant 0 <= yy < Height ==> forall c :: 0 <= c < Width && old(xx) <= c < old(xx) + ii ==>
                    screen[yy, c] == Bit(mono, 7 - (c - old(xx)))
      {
        TopAfterShift(mono, ii);
        assert (bits & 0x80 != 0) == Bit(mono, 7 - (xx - old(xx)));
        SetPixel(xx, yy, bits & 0x80 != 0);  // white for a set top bit, black otherwise
        ShiftAgain(mono, ii);
        bits := bits << 1;
        xx := xx + 1;
        ii := ii + 1;
      }
    }

    /** One event of the polling loop in `main`: key events update the table
        when the symbol is in range; quitting or escape clears `running`. */
    method HandleEvent(e: Event, running: bool) returns (stillRunning: bool)
      requires keysHeld.Length == KeyTableSize
      modifies keysHeld
      ensures keysHeld[..] == KeysAfter(old(keysHeld[..]), e)
      ensures stillRunning == (running && !Stops(e))
    {
      stillRunning := running;
      match e
      case Quit =>
        stillRunning := false;
      case MouseButtonDown =>
      case KeyDown(sym) =>
        if 0 <= sym < KeyTableSize {
          keysHeld[sym] := true;
        }
        if sym == SdlkEscape {
          stillRunning := false;
        }
      case KeyUp(sym) =>
        if 0 <= sym < KeyTableSize {
          keysHeld[sym] := false;
        }
      case OtherEvent =>
    }

    /** The polling loop in `main`: every pending event is handled, in order. */
    method PollEvents(events: seq<Event>, running: bool) returns (stillRunning: bool)
      requires keysHeld.Length == KeyTableSize
      modifies keysHeld
      ensures keysHeld[..] == KeysAfterAll(old(keysHeld[..]), events)
      ensures stillRunning == (running && forall i :: 0 <= i < |events| ==> !Stops(events[i]))
    {
      stillRunning := running;
      var i := 0;
      while i < |events|
        invariant 0 <= i <= |events|
        invariant keysHeld[..] == KeysAfterAll(old(keysHeld[..]), events[..i])
        invariant stillRunning == (running && forall j :: 0 <= j < i ==> !Stops(events[j]))
      {
        assert events[..i + 1][..i] == events[..i];
        stillRunning := HandleEvent(events[i], stillRunning);
        i := i + 1;
      }
      assert events[..i] == events;
    }
  }
}
