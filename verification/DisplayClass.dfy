/** The display object: its methods change its fields as the original's do, each proved against the state
    machine in Display. */
module DisplayClass {
  import opened Canvas
  import opened Display

  lemma {:induction false} NewSizeIs(d: Screen, width: nat, height: nat)
    ensures var back := if d.backWidth == width && d.backHeight == height then d.back else Resized(d.back, width, height);
            WithNewSize(d, width, height) ==
            Screen(width, height, width, height, back, d.target, d.viewport, d.damage, d.clip, d.renderQ, d.flushing,
                   d.loaded, d.listening, d.submitted, d.drawn, back, |d.drawn|, d.flushes)
  {
    hide Resized, HasSize;
  }

  class DisplayObject {
    var fbWidth: nat
    var fbHeight: nat
    var backWidth: nat
    var backHeight: nat
    var backbuffer: Image
    var target: Image
    var viewportLoc: Viewport
    var damageBounds: Bounds
    var clipViewport: bool
    var renderQ: seq<Action>
    var flushing: bool
    var loaded: set<nat>
    var listening: set<nat>

    ghost var submitted: seq<Action>
    ghost var drawn: seq<Action>
    ghost var base: Image
    ghost var baseMark: nat
    ghost var flushes: nat

    ghost function State(): Screen
      reads this
    {
      Screen(fbWidth, fbHeight, backWidth, backHeight, backbuffer, target, viewportLoc, damageBounds, clipViewport,
             renderQ, flushing, loaded, listening, submitted, drawn, base, baseMark, flushes)
    }

    constructor (width: nat, height: nat)
      ensures State() == NewScreen(width, height)
    {
      fbWidth, fbHeight, backWidth, backHeight := 0, 0, 300, 150;
      backbuffer, target := Blank(300, 150), Blank(width, height);
      viewportLoc, damageBounds, clipViewport := Viewport(0, 0, width, height), Bounds(0, 0, 300, 150), false;
      renderQ, flushing, loaded, listening := [], false, {}, {};
      submitted, drawn, base, baseMark, flushes := [], [], Blank(300, 150), 0, 0;
    }

    method RecordDamage(x: int, y: int, w: int, h: int)
      modifies `damageBounds
      ensures damageBounds == Damaged(old(damageBounds), x, y, w, h)
    {
      if x < damageBounds.left {
        damageBounds := damageBounds.(left := x);
      }
      if y < damageBounds.top {
        damageBounds := damageBounds.(top := y);
      }
      if x + w > damageBounds.right {
        damageBounds := damageBounds.(right := x + w);
      }
      if y + h > damageBounds.bottom {
        damageBounds := damageBounds.(bottom := y + h);
      }
    }

    /** The part of flip that refreshes the visible canvas. */
    method FlipNow()
      modifies `target, `damageBounds
      ensures target == old(Refreshed(State())) && damageBounds == NO_DAMAGE
    {
      hide Draw;
      var x, y := damageBounds.left, damageBounds.top;
      var w, h := damageBounds.right - x, damageBounds.bottom - y;
      var vx, vy := x - viewportLoc.x, y - viewportLoc.y;
      if vx < 0 {
        w := w + vx;
        x := x - vx;
        vx := 0;
      }
      if vy < 0 {
        h := h + vy;
        y := y - vy;
        vy := 0;
      }
      if vx + w > viewportLoc.w {
        w := viewportLoc.w - vx;
      }
      if vy + h > viewportLoc.h {
        h := viewportLoc.h - vy;
      }
      if w > 0 && h > 0 {
        target := Draw(target, backbuffer, x, y, vx, vy, w, h);
      }
      damageBounds := NO_DAMAGE;
    }

    /** The drawing calls made with fromQueue set, or with nothing queued. */
    method DrawNow(a: Action)
      modifies this
      ensures State() == Execute(old(State()), a)
    {
      drawn := drawn + [a];
      match a
      case FlipAct =>
        FlipNow();
      case CopyAct(oldX, oldY, x, y, w, h) =>
        backbuffer := Draw(backbuffer, backbuffer, oldX, oldY, x, y, w, h);
        RecordDamage(x, y, w, h);
      case FillAct(x, y, w, h, color) =>
        backbuffer := Fill(backbuffer, x, y, w, h, color);
        RecordDamage(x, y, w, h);
      case BlitAct(x, y, w, h, data) =>
        backbuffer := Put(backbuffer, x, y, w, h, data);
        RecordDamage(x, y, w, h);
      case ImgAct(img, x, y, _, _) =>
        backbuffer := Draw(backbuffer, img.pixels, 0, 0, x, y, img.width, img.height);
        RecordDamage(x, y, img.width, img.height);
    }

    method Scan()
      modifies this
      ensures State() == ScanRenderQ(old(State()))
    {
      hide Execute;
      var ready := true;
      while ready && renderQ != []
        invariant ready ==> ScanRenderQ(State()) == ScanRenderQ(old(State()))
        invariant !ready ==> renderQ != [] && ScanRenderQ(old(State())) == CheckFlushed(State())
        decreases ready, |renderQ|
      {
        var a := renderQ[0];
        if a.ImgAct? && a.img.id !in loaded {
          // The image's load event will resume the scan.
          listening := listening + {a.img.id};
          ready := false;
        } else if a.ImgAct? && (a.img.width != a.w || a.img.height != a.h) {
          return;
        } else {
          ghost var d := State();
          DrawNow(a);
          ExecuteKeepsQueue(d, a);
          renderQ := renderQ[1..];
        }
      }
      if renderQ == [] && flushing {
        flushing := false;
        flushes := flushes + 1;
      }
    }

    lemma ExecuteKeepsQueue(d: Screen, a: Action)
      ensures Execute(d, a).renderQ == d.renderQ
    {
    }

    method PushAction(a: Action)
      modifies this
      ensures State() == Push(old(State()), a)
    {
      hide ScanRenderQ;
      renderQ := renderQ + [a];
      if |renderQ| == 1 {
        Scan();
      }
    }

    /** flip, fillRect and copyImage. */
    method SubmitAction(a: Action)
      modifies this
      ensures State() == Submit(old(State()), a)
    {
      hide Push, Execute;
      submitted := submitted + [a];
      if renderQ != [] {
        PushAction(a);
      } else {
        DrawNow(a);
      }
    }

    method FillRect(x: int, y: int, w: nat, h: nat, color: Color)
      modifies this
      ensures State() == Submit(old(State()), FillAct(x, y, w, h, color))
    {
      SubmitAction(FillAct(x, y, w, h, color));
    }

    method CopyImage(oldX: int, oldY: int, newX: int, newY: int, w: nat, h: nat)
      modifies this
      ensures State() == Submit(old(State()), CopyAct(oldX, oldY, newX, newY, w, h))
    {
      SubmitAction(CopyAct(oldX, oldY, newX, newY, w, h));
    }

    /** A RangeError, when the view leaves the buffer, leaves the display as it was. */
    method BlitImage(x: int, y: int, w: nat, h: nat, buffer: seq<Pixel>, start: nat) returns (ok: bool)
      modifies this
      ensures State() == Blit(old(State()), x, y, w, h, buffer, start)
      ensures ok == !BlitThrows(old(State()), w, h, buffer, start)
    {
      hide Push, Execute;
      if renderQ != [] {
        if w * h > |buffer| {
          return false;
        }
        submitted := submitted + [BlitAct(x, y, w, h, Slice(buffer, start, w * h))];
        PushAction(BlitAct(x, y, w, h, buffer[..w * h]));
      } else {
        if start + w * h > |buffer| {
          return false;
        }
        submitted := submitted + [BlitAct(x, y, w, h, buffer[start..start + w * h])];
        DrawNow(BlitAct(x, y, w, h, buffer[start..start + w * h]));
      }
      ok := true;
    }

    method ImageRect(img: Picture, x: int, y: int, w: nat, h: nat)
      modifies this
      ensures State() == DrawPicture(old(State()), img, x, y, w, h)
    {
      hide Push;
      if w == 0 || h == 0 {
        return;
      }
      submitted := submitted + [ImgAct(img, x, y, w, h)];
      PushAction(ImgAct(img, x, y, w, h));
    }

    method OnImageLoaded(id: nat)
      modifies this
      ensures State() == ImageLoaded(old(State()), id)
    {
      hide ScanRenderQ;
      var resume := id in listening;
      loaded, listening := loaded + {id}, listening - {id};
      if resume {
        Scan();
      }
    }

    method FlushQueue()
      modifies this
      ensures State() == RequestFlush(old(State()))
    {
      if renderQ == [] {
        flushes := flushes + 1;
      } else {
        flushing := true;
      }
    }

    method ViewportChangePos(deltaX: int, deltaY: int)
      modifies this
      ensures State() == ChangePos(old(State()), deltaX, deltaY)
    {
      hide Submit;
      var vp := viewportLoc;
      var dx, dy := deltaX, deltaY;
      if !clipViewport {
        dx, dy := 0 - vp.w as int, 0 - vp.h as int;
      }
      var vx2, vy2 := vp.x + vp.w - 1, vp.y + vp.h - 1;
      if dx < 0 && vp.x + dx < 0 {
        dx := -vp.x;
      }
      if vx2 + dx >= fbWidth {
        dx := dx - (vx2 + dx - fbWidth + 1);
      }
      if vp.y + dy < 0 {
        dy := -vp.y;
      }
      if vy2 + dy >= fbHeight {
        dy := dy - (vy2 + dy - fbHeight + 1);
      }
      if dx == 0 && dy == 0 {
        return;
      }
      viewportLoc := viewportLoc.(x := viewportLoc.x + dx, y := viewportLoc.y + dy);
      RecordDamage(viewportLoc.x, viewportLoc.y, viewportLoc.w, viewportLoc.h);
      SubmitAction(FlipAct);
    }

    method ViewportChangeSize(width: nat, height: nat)
      modifies this
      ensures State() == ChangeSize(old(State()), width, height)
    {
      hide Submit, ChangePos, Blank;
      var w, h := width, height;
      if !clipViewport {
        w, h := fbWidth, fbHeight;
      }
      if w > fbWidth {
        w := fbWidth;
      }
      if h > fbHeight {
        h := fbHeight;
      }
      if viewportLoc.w != w || viewportLoc.h != h {
        viewportLoc := viewportLoc.(w := w, h := h);
        target := Blank(w, h);
        ViewportChangePos(0, 0);
        RecordDamage(viewportLoc.x, viewportLoc.y, viewportLoc.w, viewportLoc.h);
        SubmitAction(FlipAct);
      }
    }

    method SetClipViewport(viewport: bool)
      modifies this
      ensures State() == SetClip(old(State()), viewport)
    {
      hide ChangePos, ChangeSize;
      clipViewport := viewport;
      ViewportChangeSize(viewportLoc.w, viewportLoc.h);
      ViewportChangePos(0, 0);
    }

    /** The hidden canvas takes the new size and keeps the picture that still fits. */
    method ResizeBack(width: nat, height: nat)
      modifies this`backbuffer, this`backWidth, this`backHeight
      ensures backWidth == width && backHeight == height
      ensures backbuffer == old(if backWidth == width && backHeight == height then backbuffer else Resized(backbuffer, width, height))
    {
      hide Resized, HasSize;
      if backWidth != width || backHeight != height {
        backbuffer := Resized(backbuffer, width, height);
        backWidth, backHeight := width, height;
      }
    }

    method SetBackSize(width: nat, height: nat)
      modifies this
      ensures State() == WithNewSize(old(State()), width, height)
    {
      hide Resized, HasSize, WithNewSize;
      ghost var d := State();
      NewSizeIs(d, width, height);
      ResizeBack(width, height);
      fbWidth, fbHeight, base, baseMark := width, height, backbuffer, |drawn|;
    }

    method ResizeTo(width: nat, height: nat)
      modifies this
      ensures State() == Resize(old(State()), width, height)
    {
      hide ChangePos, ChangeSize, WithNewSize;
      SetBackSize(width, height);
      ViewportChangeSize(viewportLoc.w, viewportLoc.h);
      ViewportChangePos(0, 0);
    }
  }
}
