/** Where the viewport ends up: when exactly it lies inside the framebuffer. */
module DisplayViewport {
  import opened Canvas
  import opened Display

  predicate Fits(d: Screen) {
    d.viewport.w <= d.fbWidth && d.viewport.h <= d.fbHeight
  }

  predicate Inside(d: Screen) {
    && d.viewport.x >= 0 && d.viewport.x + d.viewport.w <= d.fbWidth
    && d.viewport.y >= 0 && d.viewport.y + d.viewport.h <= d.fbHeight
  }

  /** Drawing touches neither the viewport nor any size, and loads no image. */
  ghost predicate SameFrame(d: Screen, e: Screen) {
    && e.viewport == d.viewport && e.clip == d.clip
    && e.fbWidth == d.fbWidth && e.fbHeight == d.fbHeight && e.loaded == d.loaded
  }

  lemma ExecuteFrame(d: Screen, a: Action)
    ensures SameFrame(d, Execute(d, a))
  {
    hide Drawn, Refreshed;
  }

  lemma {:induction false} ScanFrame(d: Screen)
    ensures SameFrame(d, ScanRenderQ(d))
    decreases |d.renderQ|
  {
    hide Execute;
    if d.renderQ != [] {
      ExecuteFrame(d, d.renderQ[0]);
      ScanFrame(Execute(d, d.renderQ[0]).(renderQ := d.renderQ[1..]));
    }
  }

  lemma SubmitFrame(d: Screen, a: Action)
    ensures SameFrame(d, Submit(d, a))
  {
    hide Execute, ScanRenderQ;
    var d1 := d.(submitted := d.submitted + [a]);
    ScanFrame(d1.(renderQ := d.renderQ + [a]));
    ExecuteFrame(d1, a);
  }

  /** How far a move asks to go to the right. Without clipping the viewport is sent all the way back. */
  function AskedX(d: Screen, deltaX: int): int {
    if d.clip then deltaX else 0 - d.viewport.w as int
  }

  lemma ChangePosFrame(d: Screen, deltaX: int, deltaY: int)
    ensures var e := ChangePos(d, deltaX, deltaY);
            e.viewport == d.viewport.(x := d.viewport.x + ClampX(d, deltaX), y := d.viewport.y + ClampY(d, deltaY))
            && e.fbWidth == d.fbWidth && e.fbHeight == d.fbHeight && e.clip == d.clip && e.loaded == d.loaded
  {
    hide Submit, ClampX, ClampY;
    var vp := d.viewport.(x := d.viewport.x + ClampX(d, deltaX), y := d.viewport.y + ClampY(d, deltaY));
    SubmitFrame(Damage(d.(viewport := vp), vp.x, vp.y, vp.w, vp.h), FlipAct);
  }

  function AskedY(d: Screen, deltaY: int): int {
    if d.clip then deltaY else 0 - d.viewport.h as int
  }

  /** The place nearest to v at which a viewport still begins inside; of two conflicting borders the far one wins. */
  function Nearest(v: int, last: int): (r: int)
    ensures 0 <= last ==> 0 <= r <= last && (0 <= v <= last ==> r == v)
    ensures r <= last && (v <= last ==> v <= r)
  {
    var inside := if v < 0 then 0 else v;
    if inside > last then last else inside
  }

  /** Where a move ends: on both axes as near to the place asked for as the framebuffer allows, but that a
      viewport already left of the framebuffer is not brought in by a move to the right or by none. */
  lemma MoveEndsAt(d: Screen, deltaX: int, deltaY: int)
    ensures var e := ChangePos(d, deltaX, deltaY);
            var toX, toY := d.viewport.x + AskedX(d, deltaX), d.viewport.y + AskedY(d, deltaY);
            var lastX, lastY := d.fbWidth - d.viewport.w, d.fbHeight - d.viewport.h;
            && e.viewport.w == d.viewport.w && e.viewport.h == d.viewport.h && e.viewport.y == Nearest(toY, lastY)
            && e.viewport.x == if toX < 0 <= AskedX(d, deltaX) then (if toX > lastX then lastX else toX) else Nearest(toX, lastX)
  {
    hide ChangePos;
    ChangePosFrame(d, deltaX, deltaY);
  }

  /** A move ends inside the framebuffer exactly if the viewport fits and the move is to the left or its
      target is not negative: the guard on the horizontal axis asks for a negative delta as well. */
  lemma ChangePosInsideIff(d: Screen, deltaX: int, deltaY: int)
    ensures Inside(ChangePos(d, deltaX, deltaY)) <==>
            Fits(d) && (AskedX(d, deltaX) < 0 || d.viewport.x + AskedX(d, deltaX) >= 0)
  {
    hide ChangePos;
    ChangePosFrame(d, deltaX, deltaY);
  }

  /** The viewport once it has been given its new size, before it is moved back inside. */
  function Sized(d: Screen, width: nat, height: nat): Viewport {
    d.viewport.(w := if d.clip then Least(width, d.fbWidth) else d.fbWidth,
                h := if d.clip then Least(height, d.fbHeight) else d.fbHeight)
  }

  lemma {:induction false} ChangeSizeFrame(d: Screen, width: nat, height: nat)
    ensures var e := ChangeSize(d, width, height); var vp := Sized(d, width, height);
            e.viewport == (if vp == d.viewport then vp else ChangePos(d.(viewport := vp, target := Blank(vp.w, vp.h)), 0, 0).viewport)
            && e.fbWidth == d.fbWidth && e.fbHeight == d.fbHeight && e.clip == d.clip && e.loaded == d.loaded
  {
    hide Submit, ChangePos;
    var vp := Sized(d, width, height);
    if d.viewport != vp {
      var d0 := d.(viewport := vp, target := Blank(vp.w, vp.h));
      ChangePosFrame(d0, 0, 0);
      var d1 := ChangePos(d0, 0, 0);
      SubmitFrame(Damage(d1, d1.viewport.x, d1.viewport.y, d1.viewport.w, d1.viewport.h), FlipAct);
    }
  }

  /** A new viewport size always fits. The viewport then lies inside if its size was right already and it
      lay inside, or if the size changes and it is not left of the framebuffer, or can be sent back. */
  lemma ChangeSizeInsideIff(d: Screen, width: nat, height: nat)
    ensures var e := ChangeSize(d, width, height);
            && Fits(e)
            && (Inside(e) <==>
                if Sized(d, width, height) == d.viewport then Inside(d)
                else d.viewport.x >= 0 || (!d.clip && d.fbWidth > 0))
  {
    hide ChangeSize, ChangePos;
    ChangeSizeFrame(d, width, height);
    var vp := Sized(d, width, height);
    ChangePosInsideIff(d.(viewport := vp, target := Blank(vp.w, vp.h)), 0, 0);
    ChangePosFrame(d.(viewport := vp, target := Blank(vp.w, vp.h)), 0, 0);
  }

  /** A viewport inside the framebuffer stays inside when it is moved. */
  lemma MoveInside(d: Screen, deltaX: int, deltaY: int)
    requires Inside(d)
    ensures Inside(ChangePos(d, deltaX, deltaY))
  {
    hide ChangePos;
    ChangePosFrame(d, deltaX, deltaY);
  }

  /** Adjusting size and position brings the viewport inside exactly if it is not left of the framebuffer,
      or if clipping is off and the framebuffer is not empty, so that it is sent back. */
  lemma {:induction false} AdjustInsideIff(d: Screen)
    ensures var e := ChangePos(ChangeSize(d, d.viewport.w, d.viewport.h), 0, 0);
            && e.fbWidth == d.fbWidth && e.fbHeight == d.fbHeight
            && (Inside(e) <==> d.viewport.x >= 0 || (!d.clip && d.fbWidth > 0))
  {
    hide ChangeSize, ChangePos;
    var e := ChangeSize(d, d.viewport.w, d.viewport.h);
    ChangeSizeFrame(d, d.viewport.w, d.viewport.h);
    ChangeSizeInsideIff(d, d.viewport.w, d.viewport.h);
    ChangePosInsideIff(e, 0, 0);
    ChangePosFrame(e, 0, 0);
    var vp := Sized(d, d.viewport.w, d.viewport.h);
    ChangePosFrame(d.(viewport := vp, target := Blank(vp.w, vp.h)), 0, 0);
  }

  lemma {:induction false} SetClipInsideIff(d: Screen, clip: bool)
    ensures Inside(SetClip(d, clip)) <==> d.viewport.x >= 0 || (!clip && d.fbWidth > 0)
  {
    hide ChangeSize, ChangePos;
    AdjustInsideIff(d.(clip := clip));
  }

  /** A resize brings the viewport inside the new framebuffer exactly if it was not left of the old one,
      or if clipping is off and the new framebuffer has a width. */
  lemma {:induction false} ResizeInsideIff(d: Screen, width: nat, height: nat)
    ensures Resize(d, width, height).fbWidth == width && Resize(d, width, height).fbHeight == height
    ensures Inside(Resize(d, width, height)) <==> d.viewport.x >= 0 || (!d.clip && width > 0)
  {
    hide ChangeSize, ChangePos, Resized;
    AdjustInsideIff(WithNewSize(d, width, height));
  }

  /** Moved by hand before the framebuffer has a size, the viewport of a new display starts at -300, and
      with clipping on no resize brings it back. */
  lemma {:induction false} ViewportCanEscape(w: nat, h: nat)
    ensures var d := SetClip(ChangePos(NewScreen(300, 150), 0, 0), true);
            d.viewport.x == -300 && d.clip && !Inside(Resize(d, w, h))
  {
    hide ChangePos, ChangeSize, SetClip, Resize, NewScreen, Blank;
    var d0 := NewScreen(300, 150);
    assert d0.viewport == Viewport(0, 0, 300, 150) && !d0.clip && d0.fbWidth == d0.fbHeight == 0 by { EscapeStart(); }
    ChangePosFrame(d0, 0, 0);
    var d1 := ChangePos(d0, 0, 0);
    assert d1.viewport == Viewport(-300, -150, 300, 150);
    EscapeClip(d1);
    ResizeInsideIff(SetClip(d1, true), w, h);
  }

  lemma EscapeStart()
    ensures var d := NewScreen(300, 150);
            d.viewport == Viewport(0, 0, 300, 150) && !d.clip && d.fbWidth == d.fbHeight == 0
  {
  }

  lemma EscapeClip(d: Screen)
    requires d.viewport == Viewport(-300, -150, 300, 150) && d.fbWidth == d.fbHeight == 0
    ensures SetClip(d, true).viewport == Viewport(-300, 0, 0, 0) && SetClip(d, true).clip
  {
    hide ChangePos, ChangeSize, Blank;
    var d1 := d.(clip := true);
    var vp := Viewport(-300, -150, 0, 0);
    ChangeSizeFrame(d1, 300, 150);
    ChangePosFrame(d1.(viewport := vp, target := Blank(0, 0)), 0, 0);
    ChangePosFrame(ChangeSize(d1, 300, 150), 0, 0);
  }
}
