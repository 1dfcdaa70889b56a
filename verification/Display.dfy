/** The viewer's display as a state machine on values: a hidden backbuffer everything is drawn on, a
    visible canvas refreshed from it, a rectangle of damage between the two, and a queue that keeps
    drawing in order while images load. */
module Display {
  import opened Canvas

  datatype Picture = Picture(id: nat, width: nat, height: nat, pixels: Image)

  datatype Action =
    | FlipAct
    | CopyAct(oldX: int, oldY: int, x: int, y: int, w: nat, h: nat)
    | FillAct(x: int, y: int, w: nat, h: nat, color: Color)
    | BlitAct(x: int, y: int, w: nat, h: nat, data: seq<Pixel>)
    | ImgAct(img: Picture, x: int, y: int, w: nat, h: nat)

  datatype Viewport = Viewport(x: int, y: int, w: nat, h: nat)
  datatype Bounds = Bounds(left: int, top: int, right: int, bottom: int)

  /** `loaded` and `listening` are the ids of complete images and of those whose load event is awaited.
      The last five fields are history: what was asked for, what has been drawn, the backbuffer as the
      last resize left it, how much had been drawn by then, and how often onflush fired. */
  datatype Screen = Screen(
    fbWidth: nat, fbHeight: nat, backWidth: nat, backHeight: nat, back: Image, target: Image,
    viewport: Viewport, damage: Bounds, clip: bool,
    renderQ: seq<Action>, flushing: bool, loaded: set<nat>, listening: set<nat>,
    submitted: seq<Action>, drawn: seq<Action>, base: Image, baseMark: nat, flushes: nat)

  const NO_DAMAGE := Bounds(65535, 65535, 0, 0)

  /** A new display: the hidden canvas has the default size of 300 by 150 pixels. */
  function NewScreen(width: nat, height: nat): Screen {
    Screen(0, 0, 300, 150, Blank(300, 150), Blank(width, height),
           Viewport(0, 0, width, height), Bounds(0, 0, 300, 150), false,
           [], false, {}, {}, [], [], Blank(300, 150), 0, 0)
  }

  // ----- damage and flip -----

  function Damaged(b: Bounds, x: int, y: int, w: int, h: int): Bounds {
    Bounds(if x < b.left then x else b.left, if y < b.top then y else b.top,
           if x + w > b.right then x + w else b.right, if y + h > b.bottom then y + h else b.bottom)
  }

  function Damage(d: Screen, x: int, y: int, w: int, h: int): Screen {
    d.(damage := Damaged(d.damage, x, y, w, h))
  }

  /** The visible canvas after copying the damaged part of the viewport. */
  function Refreshed(d: Screen): Image {
    var x0, y0 := d.damage.left, d.damage.top;
    var w0, h0 := d.damage.right - x0, d.damage.bottom - y0;
    var vx0, vy0 := x0 - d.viewport.x, y0 - d.viewport.y;
    var (x, w1, vx) := if vx0 < 0 then (x0 - vx0, w0 + vx0, 0) else (x0, w0, vx0);
    var (y, h1, vy) := if vy0 < 0 then (y0 - vy0, h0 + vy0, 0) else (y0, h0, vy0);
    var w := if vx + w1 > d.viewport.w then d.viewport.w - vx else w1;
    var h := if vy + h1 > d.viewport.h then d.viewport.h - vy else h1;
    if w > 0 && h > 0 then Draw(d.target, d.back, x, y, vx, vy, w, h) else d.target
  }

  function DoFlip(d: Screen): Screen {
    d.(target := Refreshed(d), damage := NO_DAMAGE)
  }

  // ----- drawing -----

  /** What an action does to the backbuffer. */
  function Drawn(back: Image, a: Action): (r: Image)
    ensures r.Keys == back.Keys
  {
    match a
    case FlipAct => back
    case CopyAct(oldX, oldY, x, y, w, h) => Draw(back, back, oldX, oldY, x, y, w, h)
    case FillAct(x, y, w, h, color) => Fill(back, x, y, w, h, color)
    case BlitAct(x, y, w, h, data) => Put(back, x, y, w, h, data)
    case ImgAct(img, x, y, _, _) => Draw(back, img.pixels, 0, 0, x, y, img.width, img.height)
  }

  /** Carrying out one action now: draw and record the damage, or flip. */
  function Execute(d: Screen, a: Action): Screen {
    var d1 := d.(back := Drawn(d.back, a), drawn := d.drawn + [a]);
    match a
    case FlipAct => DoFlip(d1)
    case CopyAct(_, _, x, y, w, h) => Damage(d1, x, y, w, h)
    case FillAct(x, y, w, h, _) => Damage(d1, x, y, w, h)
    case BlitAct(x, y, w, h, _) => Damage(d1, x, y, w, h)
    case ImgAct(img, x, y, _, _) => Damage(d1, x, y, img.width, img.height)
  }

  /** The end of a scan: a flush that was asked for is over once the queue is empty. */
  function CheckFlushed(d: Screen): Screen {
    if d.renderQ == [] && d.flushing then d.(flushing := false, flushes := d.flushes + 1) else d
  }

  /** Carries out queued actions up to the first image that has not loaded. An image of the wrong size
      stops the scan for good. */
  function ScanRenderQ(d: Screen): Screen
    decreases |d.renderQ|
  {
    if d.renderQ == [] then CheckFlushed(d)
    else
      var a := d.renderQ[0];
      if a.ImgAct? && a.img.id !in d.loaded then CheckFlushed(d.(listening := d.listening + {a.img.id}))
      else if a.ImgAct? && (a.img.width != a.w || a.img.height != a.h) then d
      else
        var d1 := Execute(d, a);
        ScanRenderQ(d1.(renderQ := d.renderQ[1..]))
  }

  function Push(d: Screen, a: Action): Screen {
    var d1 := d.(renderQ := d.renderQ + [a]);
    if |d1.renderQ| == 1 then ScanRenderQ(d1) else d1
  }

  /** flip, fillRect and copyImage: queued behind what is waiting, or carried out at once. */
  function Submit(d: Screen, a: Action): Screen {
    var d1 := d.(submitted := d.submitted + [a]);
    if d.renderQ != [] then Push(d1, a) else Execute(d1, a)
  }

  /** n pixels of a buffer from `start` on, or none if the buffer ends before. */
  function Slice(buffer: seq<Pixel>, start: nat, n: nat): seq<Pixel> {
    if start + n <= |buffer| then buffer[start..start + n] else []
  }

  /** blitImage of w*h pixels that begin at `start` in the array's buffer. A queued blit copies them from
      the beginning of the buffer instead. A view that leaves the buffer throws before anything is drawn. */
  function Blit(d: Screen, x: int, y: int, w: nat, h: nat, buffer: seq<Pixel>, start: nat): Screen {
    var asked := BlitAct(x, y, w, h, Slice(buffer, start, w * h));
    var d1 := d.(submitted := d.submitted + [asked]);
    if BlitThrows(d, w, h, buffer, start) then d
    else if d.renderQ != [] then Push(d1, BlitAct(x, y, w, h, buffer[..w * h]))
    else Execute(d1, asked)
  }

  predicate BlitThrows(d: Screen, w: nat, h: nat, buffer: seq<Pixel>, start: nat) {
    (if d.renderQ != [] then w * h else start + w * h) > |buffer|
  }

  /** imageRect: always queued, since the image has yet to be decoded. Empty images are skipped. */
  function DrawPicture(d: Screen, img: Picture, x: int, y: int, w: nat, h: nat): Screen {
    if w == 0 || h == 0 then d
    else
      var a := ImgAct(img, x, y, w, h);
      Push(d.(submitted := d.submitted + [a]), a)
  }

  /** The browser finishes decoding an image; a listener on it resumes the scan. */
  function ImageLoaded(d: Screen, id: nat): Screen {
    var d1 := d.(loaded := d.loaded + {id}, listening := d.listening - {id});
    if id in d.listening then ScanRenderQ(d1) else d1
  }

  function RequestFlush(d: Screen): Screen {
    if d.renderQ == [] then d.(flushes := d.flushes + 1) else d.(flushing := true)
  }

  // ----- viewport and size -----

  /** A flip the display asks for itself; it is queued like any other. */
  function OwnFlip(d: Screen): Screen {
    Submit(d, FlipAct)
  }

  function ClampX(d: Screen, deltaX: int): int {
    var vp := d.viewport;
    var d0 := if d.clip then deltaX else 0 - vp.w as int;
    var right := vp.x + vp.w - 1;
    var d1 := if d0 < 0 && vp.x + d0 < 0 then -vp.x else d0;
    if right + d1 >= d.fbWidth then d1 - (right + d1 - d.fbWidth + 1) else d1
  }

  function ClampY(d: Screen, deltaY: int): int {
    var vp := d.viewport;
    var d0 := if d.clip then deltaY else 0 - vp.h as int;
    var bottom := vp.y + vp.h - 1;
    var d1 := if vp.y + d0 < 0 then -vp.y else d0;
    if bottom + d1 >= d.fbHeight then d1 - (bottom + d1 - d.fbHeight + 1) else d1
  }

  function ChangePos(d: Screen, deltaX: int, deltaY: int): Screen {
    var dx, dy := ClampX(d, deltaX), ClampY(d, deltaY);
    if dx == 0 && dy == 0 then d
    else
      var vp := d.viewport.(x := d.viewport.x + dx, y := d.viewport.y + dy);
      OwnFlip(Damage(d.(viewport := vp), vp.x, vp.y, vp.w, vp.h))
  }

  function Least(a: nat, b: nat): nat {
    if a < b then a else b
  }

  function ChangeSize(d: Screen, width: nat, height: nat): Screen {
    var w := if d.clip then Least(width, d.fbWidth) else d.fbWidth;
    var h := if d.clip then Least(height, d.fbHeight) else d.fbHeight;
    if d.viewport.w == w && d.viewport.h == h then d
    else
      // Setting the size of the visible canvas clears it.
      var d1 := ChangePos(d.(viewport := d.viewport.(w := w, h := h), target := Blank(w, h)), 0, 0);
      var vp := d1.viewport;
      OwnFlip(Damage(d1, vp.x, vp.y, vp.w, vp.h))
  }

  function SetClip(d: Screen, clip: bool): Screen {
    var d1 := d.(clip := clip);
    ChangePos(ChangeSize(d1, d1.viewport.w, d1.viewport.h), 0, 0)
  }

  /** The state in which resize readjusts the viewport. */
  function WithNewSize(d: Screen, width: nat, height: nat): Screen {
    var back := if d.backWidth == width && d.backHeight == height then d.back else Resized(d.back, width, height);
    d.(fbWidth := width, fbHeight := height, backWidth := width, backHeight := height, back := back,
       base := back, baseMark := |d.drawn|)
  }

  function Resize(d: Screen, width: nat, height: nat): Screen {
    var d1 := WithNewSize(d, width, height);
    ChangePos(ChangeSize(d1, d1.viewport.w, d1.viewport.h), 0, 0)
  }
}
