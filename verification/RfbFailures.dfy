/** When the update loop gives up: the messages, encodings and tiles that fail the connection, and no others. */
module RfbFailures {
  import opened Bytes
  import opened Wrappers
  import opened Canvas
  import opened DecoderIO
  import opened HextileDecoder
  import M = RfbMachine

  /** The bits of a subencoding: 1 raw, 2 background, 4 foreground, 8 subrectangles, 16 coloured. */
  lemma {:induction false} BitsOf(sub: byte)
    ensures Bit(sub, 0) <==> sub % 2 == 1
    ensures Bit(sub, 1) <==> sub / 2 % 2 == 1
    ensures Bit(sub, 2) <==> sub / 4 % 2 == 1
    ensures Bit(sub, 3) <==> sub / 8 % 2 == 1
    ensures Bit(sub, 4) <==> sub / 16 % 2 == 1
  {
    assert Pow2(0) == 1 && Pow2(1) == 2 && Pow2(2) == 4;
    assert Pow2(3) == 8 && Pow2(4) == 16;
  }

  /** The tile falls back on a background that was never set. */
  predicate NeedsBackground(h: Hex, sub: byte) {
    h.background.None? && sub % 2 == 0 && (if sub == 0 then !Bit(h.lastSub, 0) else sub / 2 % 2 == 0)
  }

  /** Some subrectangle of the tile falls back on a foreground that was never set. */
  predicate NeedsForeground(h: Hex, inp: seq<byte>) {
    && inp != [] && h.foreground.None? && inp[0] % 2 == 0 && inp[0] / 8 % 2 == 1 && inp[0] / 4 % 2 == 0 && inp[0] / 16 % 2 == 0
    && var count := 1 + 4 * (inp[0] / 2 % 2);
       count < |inp| && inp[count] > 0
  }

  lemma {:induction false} SubsNeedForeground(inp: seq<byte>, at: nat, n: nat, sub: nat, fg: Option<Color>)
    requires at + n * SubrectBytes(sub) <= |inp|
    ensures ReadSubs(inp, at, n, sub, fg).None? <==> n > 0 && !Bit(sub, 4) && fg.None?
    decreases n
  {
    hide Bit;
    if n > 0 {
      assert n * SubrectBytes(sub) == (n - 1) * SubrectBytes(sub) + SubrectBytes(sub);
      SubsNeedForeground(inp, at, n - 1, sub, fg);
    }
  }

  /** A tile that is all there fails exactly if it needs a colour that was never set. */
  lemma {:induction false} TileFailsIff(h: Hex, inp: seq<byte>, fb: Image, t: Tile)
    requires |inp| >= 1 && Expected(inp, t).Some? && Expected(inp, t).value <= |inp|
    ensures DrawTile(h, inp, fb, t).None? <==> NeedsBackground(h, inp[0]) || NeedsForeground(h, inp)
  {
    var sub := inp[0];
    BitsOf(sub);
    hide Bit, PaintSubs, Started, Put, Fill, Pixels32;
    if sub % 2 == 0 && sub / 8 % 2 == 1 {
      var fg := if Bit(sub, 2) then Some(ColorAt(inp, 1 + ColorBytes(sub, 1))) else h.foreground;
      SubsNeedForeground(inp, CountPos(sub) + 1, inp[CountPos(sub)], sub, fg);
    }
  }

  /** The next tile has arrived whole. */
  predicate TileArrived(h: Hex, inp: seq<byte>, r: Rect) {
    && |inp| >= 1 && Expected(inp, CurrentTile(h, r)).Some?
    && Expected(inp, CurrentTile(h, r)).value <= |inp|
  }

  lemma {:induction false} HextileFailsIff(h: Hex, io: IO, r: Rect)
    ensures Unit(h, io, r).2 == Broken <==>
            h.tiles > 0 && io.inp != []
            && (io.inp[0] > 30 || (TileArrived(h, io.inp, r) && (NeedsBackground(h, io.inp[0]) || NeedsForeground(h, io.inp))))
  {
    hide Expected, CurrentTile, DrawTile, NeedsBackground, NeedsForeground, Ceil16;
    if h.tiles > 0 && TileArrived(h, io.inp, r) && io.inp[0] <= 30 {
      TileFailsIff(h, io.inp, io.fb, CurrentTile(h, r));
    }
  }

  /** A step fails the connection exactly for a message other than a framebuffer update or a bell, for a rectangle
      whose encoding is none of Raw, CopyRect, RRE, Hextile, DesktopSize and LastRect, and for a tile that is
      illegal or needs a colour that was never set. */
  lemma {:induction false} FailsExactlyWhen(s: M.Rfb)
    requires !s.halted
    ensures M.Step(s).Some? && M.Step(s).value.halted <==>
            || (s.rects == 0 && s.io.inp != [] && s.io.inp[0] != 0 && s.io.inp[0] != 2)
            || (s.rects > 0 && s.encoding.Some? && s.encoding.value != 0 && s.encoding.value != 1 && s.encoding.value != 2
                && s.encoding.value != 5 && s.encoding.value != -223 && s.encoding.value != -224)
            || (s.rects > 0 && s.encoding == Some(5) && s.hex.tiles > 0 && s.io.inp != []
                && (s.io.inp[0] > 30
                    || (TileArrived(s.hex, s.io.inp, s.rect)
                        && (NeedsBackground(s.hex, s.io.inp[0]) || NeedsForeground(s.hex, s.io.inp)))))
  {
    HextileFailsIff(s.hex, s.io, s.rect);
    hide Unit, M.RawDecoder.Unit, M.RreDecoder.Unit, M.CopyRectDecoder.Unit, Resized, TileArrived, NeedsBackground, NeedsForeground;
    if s.rects > 0 && s.encoding.Some? {
      OnlyHextileBreaks(s);
    }
  }

  lemma {:induction false} OnlyHextileBreaks(s: M.Rfb)
    requires s.encoding.Some?
    ensures M.RectUnit(s).0.halted == s.halted
    ensures s.encoding.value in [0, 1, 2, -223, -224] ==> M.RectUnit(s).1 != Broken
  {
    hide Unit, Put, Fill, Draw, Resized, M.RawDecoder.PixelsOf;
  }
}
