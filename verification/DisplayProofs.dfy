/** What every run of the display keeps: the damage rectangle is exact, the viewport stays inside the
    framebuffer, and drawing happens in the order it was asked for. */
module DisplayProofs {
  import opened Canvas
  import opened Display

  // ----- the damage rectangle is exact -----

  predicate InViewport(d: Screen, p: Point) {
    InBox(p, d.viewport.x, d.viewport.y, d.viewport.w, d.viewport.h)
  }

  predicate InDamage(d: Screen, p: Point) {
    d.damage.left <= p.0 < d.damage.right && d.damage.top <= p.1 < d.damage.bottom
  }

  /** The point of the visible canvas that shows p. */
  function OnTarget(d: Screen, p: Point): Point {
    (p.0 - d.viewport.x, p.1 - d.viewport.y)
  }

  /** The visible canvas shows the backbuffer's pixel at p. */
  ghost predicate Shown(d: Screen, p: Point) {
    p in d.back && d.back[p].Opaque? ==> OnTarget(d, p) in d.target && d.target[OnTarget(d, p)] == d.back[p]
  }

  /** Every painted viewport pixel outside the damage is shown. */
  ghost predicate Agrees(d: Screen) {
    forall p: Point :: InViewport(d, p) && !InDamage(d, p) ==> Shown(d, p)
  }

  ghost predicate Sizes(d: Screen) {
    HasSize(d.back, d.backWidth, d.backHeight) && HasSize(d.target, d.viewport.w, d.viewport.h)
  }

  ghost predicate DamageInv(d: Screen) {
    Sizes(d) && Agrees(d)
  }

  /** A flip copies the painted part of the damage inside the viewport, and nothing else. */
  lemma {:induction false} RefreshedAt(d: Screen, p: Point)
    requires InViewport(d, p) && OnTarget(d, p) in d.target
    ensures var r := Refreshed(d);
            OnTarget(d, p) in r && r[OnTarget(d, p)] ==
              if InDamage(d, p) && p in d.back && d.back[p].Opaque? then d.back[p] else d.target[OnTarget(d, p)]
  {
  }

  /** An executed flip makes the whole viewport agree: a painted pixel is shown, and over a pixel that was
      never painted the visible canvas keeps what it showed. */
  lemma {:induction false} FlipShowsAll(d: Screen)
    requires DamageInv(d)
    ensures DamageInv(DoFlip(d))
    ensures forall p: Point :: InViewport(d, p) ==> Shown(DoFlip(d), p)
    ensures forall p: Point :: InViewport(d, p) && p in d.back && d.back[p].Transparent? ==>
              OnTarget(d, p) in d.target && DoFlip(d).target[OnTarget(d, p)] == d.target[OnTarget(d, p)]
  {
    hide Refreshed;
    FlipFrame(d);
    var e := DoFlip(d);
    forall p: Point | InViewport(d, p)
      ensures Shown(e, p) && OnTarget(d, p) in d.target
      ensures p in d.back && d.back[p].Transparent? ==> e.target[OnTarget(d, p)] == d.target[OnTarget(d, p)]
    {
      assert InBox(OnTarget(d, p), 0, 0, d.viewport.w, d.viewport.h);
      assert Shown(d, p) || InDamage(d, p);
      RefreshedAt(d, p);
    }
  }

  lemma {:induction false} FlipFrame(d: Screen)
    ensures DoFlip(d).back == d.back && DoFlip(d).viewport == d.viewport && DoFlip(d).target.Keys == d.target.Keys
    ensures d.backWidth == DoFlip(d).backWidth && d.backHeight == DoFlip(d).backHeight
  {
  }

  /** The visible canvas equals the backbuffer at p. */
  ghost predicate Mirrors(d: Screen, p: Point) {
    p in d.back && OnTarget(d, p) in d.target && d.target[OnTarget(d, p)] == d.back[p]
  }

  /** p was never painted, yet the visible canvas shows something there. */
  ghost predicate Stale(d: Screen, p: Point) {
    p in d.back && d.back[p].Transparent? && OnTarget(d, p) in d.target && d.target[OnTarget(d, p)].Opaque?
  }

  /** After an executed flip the whole viewport equals the backbuffer except, exactly, where the visible
      canvas showed something over an area the backbuffer never painted. */
  lemma {:induction false} FlipIsExact(d: Screen, p: Point)
    requires DamageInv(d) && InViewport(d, p) && p in d.back
    ensures Mirrors(DoFlip(d), p) <==> !Stale(d, p)
  {
    FlipShowsAll(d);
    FlipFrame(d);
    hide DoFlip;
    assert Shown(DoFlip(d), p);
    assert InBox(OnTarget(d, p), 0, 0, d.viewport.w, d.viewport.h);
    assert OnTarget(d, p) in d.target;
  }

  /** Recording damage over everything that changed keeps the rest in agreement. */
  lemma {:induction false} DamageCovers(d: Screen, x: int, y: int, w: int, h: int, p: Point)
    ensures InDamage(d, p) || InBox(p, x, y, w, h) ==> InDamage(Damage(d, x, y, w, h), p)
  {
  }

  /** Each painted pixel of a loaded image lands to the right of and below the place it is drawn at; the rest of
      the backbuffer stays. */
  lemma {:induction false} PictureLands(back: Image, img: Picture, x: int, y: int, w: nat, h: nat, p: Point)
    requires p in back
    ensures var q := (p.0 - x, p.1 - y);
            Drawn(back, ImgAct(img, x, y, w, h))[p] ==
            if 0 <= q.0 < img.width && 0 <= q.1 < img.height && q in img.pixels && img.pixels[q] != Transparent
            then img.pixels[q] else back[p]
  {
  }

  /** The two states show the same picture; they may differ in queue and history. */
  ghost predicate SamePicture(d: Screen, e: Screen) {
    d.back == e.back && d.target == e.target && d.viewport == e.viewport && d.damage == e.damage
    && d.backWidth == e.backWidth && d.backHeight == e.backHeight
  }

  lemma {:induction false} SamePictureKeeps(d: Screen, e: Screen)
    requires DamageInv(d) && SamePicture(d, e)
    ensures DamageInv(e)
  {
    forall p: Point | InViewport(e, p) && !InDamage(e, p)
      ensures Shown(e, p)
    {
      assert InViewport(d, p) && !InDamage(d, p);
      assert Shown(d, p);
    }
  }

  /** Drawing inside a box and then recording that box as damage. */
  lemma {:induction false} DrawInBoxKeeps(d: Screen, back: Image, x: int, y: int, w: int, h: int)
    requires DamageInv(d) && back.Keys == d.back.Keys
    requires forall p: Point :: p in back && !InBox(p, x, y, w, h) ==> back[p] == d.back[p]
    ensures DamageInv(Damage(d.(back := back), x, y, w, h))
  {
    var e := Damage(d.(back := back), x, y, w, h);
    assert HasSize(back, d.backWidth, d.backHeight) by {
      assert forall p: Point :: p in back <==> p in d.back;
    }
    forall p: Point | InViewport(e, p) && !InDamage(e, p)
      ensures Shown(e, p)
    {
      DamageCovers(d, x, y, w, h, p);
      assert Shown(d, p);
    }
  }

  lemma {:induction false} ExecuteKeeps(d: Screen, a: Action)
    requires DamageInv(d)
    ensures DamageInv(Execute(d, a))
  {
    var d1 := d.(drawn := d.drawn + [a]);
    hide DamageInv;
    SamePictureKeeps(d, d1);
    match a
    case FlipAct =>
      FlipShowsAll(d1);
    case CopyAct(_, _, x, y, w, h) =>
      DrawInBoxKeeps(d1, Drawn(d.back, a), x, y, w, h);
    case FillAct(x, y, w, h, _) =>
      DrawInBoxKeeps(d1, Drawn(d.back, a), x, y, w, h);
    case BlitAct(x, y, w, h, _) =>
      DrawInBoxKeeps(d1, Drawn(d.back, a), x, y, w, h);
    case ImgAct(img, x, y, _, _) =>
      DrawInBoxKeeps(d1, Drawn(d.back, a), x, y, img.width, img.height);
  }

  lemma {:induction false} ScanKeeps(d: Screen)
    requires DamageInv(d)
    ensures DamageInv(ScanRenderQ(d))
    decreases |d.renderQ|
  {
    hide Execute, DamageInv;
    if d.renderQ == [] {
      SamePictureKeeps(d, CheckFlushed(d));
    } else {
      var a := d.renderQ[0];
      if a.ImgAct? && a.img.id !in d.loaded {
        SamePictureKeeps(d, ScanRenderQ(d));
      } else if a.ImgAct? && (a.img.width != a.w || a.img.height != a.h) {
      } else {
        var d1 := Execute(d, a);
        ExecuteKeeps(d, a);
        SamePictureKeeps(d1, d1.(renderQ := d.renderQ[1..]));
        ScanKeeps(d1.(renderQ := d.renderQ[1..]));
      }
    }
  }

  lemma {:induction false} PushKeeps(d: Screen, a: Action)
    requires DamageInv(d)
    ensures DamageInv(Push(d, a))
  {
    hide ScanRenderQ, DamageInv;
    var d1 := d.(renderQ := d.renderQ + [a]);
    SamePictureKeeps(d, d1);
    ScanKeeps(d1);
  }

  lemma {:induction false} SubmitKeeps(d: Screen, a: Action)
    requires DamageInv(d)
    ensures DamageInv(Submit(d, a))
  {
    hide Push, Execute, DamageInv;
    var d1 := d.(submitted := d.submitted + [a]);
    SamePictureKeeps(d, d1);
    PushKeeps(d1, a);
    ExecuteKeeps(d1, a);
  }

  lemma {:induction false} BlitKeeps(d: Screen, x: int, y: int, w: nat, h: nat, buffer: seq<Pixel>, start: nat)
    requires DamageInv(d)
    ensures DamageInv(Blit(d, x, y, w, h, buffer, start))
  {
    hide Push, Execute, DamageInv;
    if !BlitThrows(d, w, h, buffer, start) {
      var asked := BlitAct(x, y, w, h, Slice(buffer, start, w * h));
      var d1 := d.(submitted := d.submitted + [asked]);
      SamePictureKeeps(d, d1);
      PushKeeps(d1, BlitAct(x, y, w, h, if w * h <= |buffer| then buffer[..w * h] else []));
      ExecuteKeeps(d1, asked);
    }
  }

  /** Damaging the whole viewport makes the rest agree trivially, whatever was on the visible canvas. */
  lemma {:induction false} DamagedViewportAgrees(d: Screen)
    requires Sizes(d)
    ensures DamageInv(Damage(d, d.viewport.x, d.viewport.y, d.viewport.w, d.viewport.h))
  {
  }

  lemma {:induction false} RefreshViewportKeeps(d: Screen)
    requires Sizes(d)
    ensures DamageInv(OwnFlip(Damage(d, d.viewport.x, d.viewport.y, d.viewport.w, d.viewport.h)))
  {
    DamagedViewportAgrees(d);
    hide Submit, DamageInv;
    SubmitKeeps(Damage(d, d.viewport.x, d.viewport.y, d.viewport.w, d.viewport.h), FlipAct);
  }

  /** Moving the viewport restores agreement if it moves, and otherwise changes nothing. */
  lemma {:induction false} ChangePosKeeps(d: Screen, deltaX: int, deltaY: int)
    requires Sizes(d)
    ensures Sizes(ChangePos(d, deltaX, deltaY))
    ensures DamageInv(d) || ChangePos(d, deltaX, deltaY) != d ==> DamageInv(ChangePos(d, deltaX, deltaY))
  {
    hide OwnFlip, ClampX, ClampY, Agrees;
    var dx, dy := ClampX(d, deltaX), ClampY(d, deltaY);
    if dx != 0 || dy != 0 {
      RefreshViewportKeeps(d.(viewport := d.viewport.(x := d.viewport.x + dx, y := d.viewport.y + dy)));
    }
  }

  lemma {:induction false} ChangeSizeKeeps(d: Screen, width: nat, height: nat)
    requires DamageInv(d)
    ensures DamageInv(ChangeSize(d, width, height))
  {
    hide OwnFlip, ChangePos, Agrees;
    var w := if d.clip then Least(width, d.fbWidth) else d.fbWidth;
    var h := if d.clip then Least(height, d.fbHeight) else d.fbHeight;
    if d.viewport.w != w || d.viewport.h != h {
      var d0 := d.(viewport := d.viewport.(w := w, h := h), target := Blank(w, h));
      ChangePosKeeps(d0, 0, 0);
      RefreshViewportKeeps(ChangePos(d0, 0, 0));
    }
  }

  lemma {:induction false} SetClipKeeps(d: Screen, clip: bool)
    requires DamageInv(d)
    ensures DamageInv(SetClip(d, clip))
  {
    hide ChangePos, ChangeSize, Agrees;
    var d1 := d.(clip := clip);
    SamePictureKeeps(d, d1);
    ChangeSizeKeeps(d1, d1.viewport.w, d1.viewport.h);
    ChangePosKeeps(ChangeSize(d1, d1.viewport.w, d1.viewport.h), 0, 0);
  }

  /** Growing or shrinking the backbuffer paints nothing, so nothing new has to be shown. */
  lemma {:induction false} ResizedBackKeeps(d: Screen, width: nat, height: nat)
    requires DamageInv(d)
    ensures DamageInv(d.(backWidth := width, backHeight := height, back := Resized(d.back, width, height)))
  {
    hide Resized;
    var e := d.(backWidth := width, backHeight := height, back := Resized(d.back, width, height));
    forall p: Point | InViewport(e, p) && !InDamage(e, p)
      ensures Shown(e, p)
    {
      assert Shown(d, p);
    }
  }

  lemma {:induction false} ResizeKeeps(d: Screen, width: nat, height: nat)
    requires DamageInv(d)
    ensures DamageInv(Resize(d, width, height))
  {
    var same := d.backWidth == width && d.backHeight == height;
    var back := if same then d.back else Resized(d.back, width, height);
    var d0 := d.(backWidth := width, backHeight := height, back := back);
    var d1 := d0.(fbWidth := width, fbHeight := height, base := back, baseMark := |d.drawn|);
    ResizedBackKeeps(d, width, height);
    hide Resized, ChangePos, ChangeSize, DamageInv;
    SamePictureKeeps(if same then d else d0, d1);
    ChangeSizeKeeps(d1, d1.viewport.w, d1.viewport.h);
    SizesHold(ChangeSize(d1, d1.viewport.w, d1.viewport.h));
    ChangePosKeeps(ChangeSize(d1, d1.viewport.w, d1.viewport.h), 0, 0);
  }

  lemma {:induction false} SizesHold(d: Screen)
    requires DamageInv(d)
    ensures Sizes(d)
  {
  }

  lemma {:induction false} NewScreenAgrees(width: nat, height: nat)
    ensures DamageInv(NewScreen(width, height))
  {
  }
}
