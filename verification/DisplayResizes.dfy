/** Which waiting actions a resize may overtake: the exact condition, action by action, under which drawing
    after the resize makes the picture that drawing before it would have made. */
module DisplayResizes {
  import opened Canvas
  import opened Display
  import opened DisplayRuns
  import opened Wrappers

  /** Drawing and then resizing is resizing and then drawing, for every picture of the old size. */
  ghost predicate Commutes(a: Action, oldW: nat, oldH: nat, w: nat, h: nat) {
    forall img: Image :: HasSize(img, oldW, oldH) ==> Resized(Drawn(img, a), w, h) == Drawn(Resized(img, w, h), a)
  }

  /** What an action may do at a point p of the new picture. Nothing may be painted where the old picture had
      no pixel; and a copy must find its source in the new picture if it would have in the old one. */
  predicate SurvivesAt(a: Action, oldW: nat, oldH: nat, w: nat, h: nat, p: Point) {
    var kept := InBox(p, 0, 0, oldW, oldH);
    match a
    case FlipAct => true
    case FillAct(x, y, fw, fh, _) => InBox(p, x, y, fw, fh) ==> kept
    case BlitAct(x, y, bw, bh, data) =>
      var k := RowMajor(bw, p.0 - x, p.1 - y);
      InBox(p, x, y, bw, bh) && !kept && 0 <= k < |data| ==> data[k].Transparent?
    case ImgAct(img, x, y, _, _) =>
      var q := (p.0 - x, p.1 - y);
      InBox(p, x, y, img.width, img.height) && !kept && q in img.pixels ==> img.pixels[q].Transparent?
    case CopyAct(oldX, oldY, x, y, cw, ch) =>
      var q := (p.0 - x + oldX, p.1 - y + oldY);
      InBox(p, x, y, cw, ch) && InBox(q, 0, 0, oldW, oldH) ==> (kept <==> InBox(q, 0, 0, w, h))
  }

  ghost predicate Survives(a: Action, oldW: nat, oldH: nat, w: nat, h: nat) {
    forall p: Point :: InBox(p, 0, 0, w, h) ==> SurvivesAt(a, oldW, oldH, w, h, p)
  }

  lemma {:induction false} ResizedAt(img: Image, oldW: nat, oldH: nat, w: nat, h: nat, p: Point)
    requires HasSize(img, oldW, oldH)
    ensures var r := Resized(img, w, h);
            && (p in r <==> InBox(p, 0, 0, w, h))
            && (p in r ==> r[p] == if InBox(p, 0, 0, oldW, oldH) then img[p] else Transparent)
            && (p in img <==> InBox(p, 0, 0, oldW, oldH))
  {
  }

  lemma DrawnKeepsSize(img: Image, a: Action, w: nat, h: nat)
    requires HasSize(img, w, h)
    ensures HasSize(Drawn(img, a), w, h)
  {
    var r := Drawn(img, a);
    hide Drawn;
    assert forall p: Point :: p in r <==> p in img;
  }

  /** The pixel an action puts at p, if it puts one there. */
  function Puts(img: Image, a: Action, p: Point): Option<Pixel> {
    match a
    case FlipAct => None
    case FillAct(x, y, w, h, color) => if InBox(p, x, y, w, h) then Some(Opaque(color)) else None
    case BlitAct(x, y, w, h, data) =>
      var k := RowMajor(w, p.0 - x, p.1 - y);
      if InBox(p, x, y, w, h) && 0 <= k < |data| then Some(data[k]) else None
    case ImgAct(pic, x, y, _, _) => if InBox(p, x, y, pic.width, pic.height) then Found(pic.pixels, (p.0 - x, p.1 - y)) else None
    case CopyAct(oldX, oldY, x, y, w, h) =>
      if InBox(p, x, y, w, h) then Found(img, (p.0 - x + oldX, p.1 - y + oldY)) else None
  }

  function Found(img: Image, q: Point): Option<Pixel> {
    if q in img && img[q].Opaque? then Some(img[q]) else None
  }

  lemma DrawnAt(img: Image, a: Action, p: Point)
    requires p in img
    ensures p in Drawn(img, a) && Drawn(img, a)[p] == if Puts(img, a, p).Some? then Puts(img, a, p).value else img[p]
  {
    hide RowMajor, Fill, Put, Draw;
    match a
    case FlipAct =>
    case FillAct(x, y, w, h, color) => FillAt(img, x, y, w, h, color, p);
    case BlitAct(x, y, w, h, data) => PutAt(img, x, y, w, h, data, p);
    case ImgAct(pic, x, y, _, _) => DrawAt(img, pic.pixels, 0, 0, x, y, pic.width, pic.height, p);
    case CopyAct(oldX, oldY, x, y, w, h) => DrawAt(img, img, oldX, oldY, x, y, w, h, p);
  }

  lemma FillAt(img: Image, x: int, y: int, w: int, h: int, c: Color, p: Point)
    requires p in img
    ensures p in Fill(img, x, y, w, h, c) && Fill(img, x, y, w, h, c)[p] == if InBox(p, x, y, w, h) then Opaque(c) else img[p]
  {
  }

  lemma PutAt(img: Image, x: int, y: int, w: int, h: int, data: seq<Pixel>, p: Point)
    requires p in img
    ensures var k := RowMajor(w, p.0 - x, p.1 - y);
            p in Put(img, x, y, w, h, data) &&
            Put(img, x, y, w, h, data)[p] == if InBox(p, x, y, w, h) && 0 <= k < |data| then data[k] else img[p]
  {
    hide RowMajor;
  }

  lemma DrawAt(img: Image, src: Image, sx: int, sy: int, x: int, y: int, w: int, h: int, p: Point)
    requires p in img
    ensures var q := Found(src, (p.0 - x + sx, p.1 - y + sy));
            p in Draw(img, src, sx, sy, x, y, w, h) &&
            Draw(img, src, sx, sy, x, y, w, h)[p] == if InBox(p, x, y, w, h) && q.Some? then q.value else img[p]
  {
  }

  /** What an action other than a copy puts down does not depend on the picture; it survives where the old
      picture had a pixel and where it puts down nothing one can see. */
  lemma SurvivesUnlessSeen(a: Action, img: Image, other: Image, oldW: nat, oldH: nat, w: nat, h: nat, p: Point)
    requires !a.CopyAct?
    ensures Puts(img, a, p) == Puts(other, a, p)
    ensures SurvivesAt(a, oldW, oldH, w, h, p) <==>
            InBox(p, 0, 0, oldW, oldH) || Puts(img, a, p) == None || Puts(img, a, p) == Some(Transparent)
  {
    hide RowMajor;
  }

  /** A copy puts down what it finds. */
  function SourceOf(a: Action, p: Point): Point
    requires a.CopyAct?
  {
    (p.0 - a.x + a.oldX, p.1 - a.y + a.oldY)
  }

  lemma SurvivesIfSourceDoes(a: Action, img: Image, oldW: nat, oldH: nat, w: nat, h: nat, p: Point)
    requires a.CopyAct?
    ensures Puts(img, a, p) == if InBox(p, a.x, a.y, a.w, a.h) then Found(img, SourceOf(a, p)) else None
    ensures SurvivesAt(a, oldW, oldH, w, h, p) <==>
            !InBox(p, a.x, a.y, a.w, a.h) || !InBox(SourceOf(a, p), 0, 0, oldW, oldH) ||
            (InBox(p, 0, 0, oldW, oldH) <==> InBox(SourceOf(a, p), 0, 0, w, h))
  {
  }

  /** Both orders, looked at in one point. */
  ghost predicate SameAt(img: Image, a: Action, w: nat, h: nat, p: Point) {
    var early, late := Resized(Drawn(img, a), w, h), Drawn(Resized(img, w, h), a);
    p in early && p in late && early[p] == late[p]
  }

  /** What the two orders make of a point of the new picture. */
  lemma {:induction false} OrdersAt(img: Image, a: Action, oldW: nat, oldH: nat, w: nat, h: nat, p: Point)
    requires HasSize(img, oldW, oldH) && InBox(p, 0, 0, w, h)
    ensures var small := Resized(img, w, h);
            var early, late := Resized(Drawn(img, a), w, h), Drawn(small, a);
            var first, second := Puts(img, a, p), Puts(small, a, p);
            && p in early && p in late && (p in img <==> InBox(p, 0, 0, oldW, oldH))
            && early[p] == (if p !in img then Transparent else if first.Some? then first.value else img[p])
            && late[p] == (if second.Some? then second.value else if p in img then img[p] else Transparent)
  {
    hide Drawn, Puts;
    DrawnKeepsSize(img, a, oldW, oldH);
    ResizedAt(img, oldW, oldH, w, h, p);
    ResizedAt(Drawn(img, a), oldW, oldH, w, h, p);
    if p in img {
      DrawnAt(img, a, p);
    }
    DrawnAt(Resized(img, w, h), a, p);
  }

  /** A copy finds in the resized picture what it would have found, if that is kept. */
  lemma {:induction false} SourceAt(img: Image, oldW: nat, oldH: nat, w: nat, h: nat, q: Point)
    requires HasSize(img, oldW, oldH)
    ensures Found(Resized(img, w, h), q) == if InBox(q, 0, 0, w, h) then Found(img, q) else None
    ensures q in img <==> InBox(q, 0, 0, oldW, oldH)
    ensures q !in img ==> Found(img, q) == None
    ensures Found(img, q).Some? ==> img[q].Opaque? && Found(img, q).value == img[q]
    ensures q in img && img[q].Opaque? ==> Found(img, q) == Some(img[q])
  {
    ResizedAt(img, oldW, oldH, w, h, q);
    hide Resized, HasSize;
  }

  lemma {:induction false} OrdersAgreeAt(img: Image, a: Action, oldW: nat, oldH: nat, w: nat, h: nat, p: Point)
    requires HasSize(img, oldW, oldH) && InBox(p, 0, 0, w, h) && SurvivesAt(a, oldW, oldH, w, h, p)
    ensures SameAt(img, a, w, h, p)
  {
    hide Resized, Drawn, HasSize, SurvivesAt, Puts, Found, InBox;
    OrdersAt(img, a, oldW, oldH, w, h, p);
    if a.CopyAct? {
      SurvivesIfSourceDoes(a, img, oldW, oldH, w, h, p);
      SurvivesIfSourceDoes(a, Resized(img, w, h), oldW, oldH, w, h, p);
      SourceAt(img, oldW, oldH, w, h, SourceOf(a, p));
    } else {
      SurvivesUnlessSeen(a, img, Resized(img, w, h), oldW, oldH, w, h, p);
    }
  }

  /** A picture of the given size on which the two orders differ in p: painted at most in the pixel a copy
      would take. */
  function Witness(a: Action, oldW: nat, oldH: nat, p: Point): Image {
    var blank := Blank(oldW, oldH);
    if a.CopyAct? then Fill(blank, p.0 - a.x + a.oldX, p.1 - a.y + a.oldY, 1, 1, Color(0, 0, 0)) else blank
  }

  lemma {:induction false} WitnessAt(a: Action, oldW: nat, oldH: nat, p: Point)
    ensures var img := Witness(a, oldW, oldH, p);
            && HasSize(img, oldW, oldH)
            && (a.CopyAct? ==>
                  var q := SourceOf(a, p);
                  && (q in img ==> img[q].Opaque?)
                  && (p in img && p != q ==> img[p].Transparent?))
            && (!a.CopyAct? && p in img ==> img[p].Transparent?)
  {
    var img := Witness(a, oldW, oldH, p);
    assert forall p: Point :: p in img <==> p in Blank(oldW, oldH);
  }

  lemma {:induction false} OrdersDifferAt(a: Action, oldW: nat, oldH: nat, w: nat, h: nat, p: Point)
    requires InBox(p, 0, 0, w, h) && !SurvivesAt(a, oldW, oldH, w, h, p)
    ensures HasSize(Witness(a, oldW, oldH, p), oldW, oldH) && !SameAt(Witness(a, oldW, oldH, p), a, w, h, p)
  {
    var img := Witness(a, oldW, oldH, p);
    WitnessAt(a, oldW, oldH, p);
    hide Resized, Drawn, HasSize, SurvivesAt, Puts, Witness, InBox;
    OrdersAt(img, a, oldW, oldH, w, h, p);
    if a.CopyAct? {
      SurvivesIfSourceDoes(a, img, oldW, oldH, w, h, p);
      SurvivesIfSourceDoes(a, Resized(img, w, h), oldW, oldH, w, h, p);
      SourceAt(img, oldW, oldH, w, h, SourceOf(a, p));
    } else {
      SurvivesUnlessSeen(a, img, Resized(img, w, h), oldW, oldH, w, h, p);
    }
  }

  lemma {:induction false} SameEverywhere(img: Image, a: Action, oldW: nat, oldH: nat, w: nat, h: nat)
    requires HasSize(img, oldW, oldH) && Survives(a, oldW, oldH, w, h)
    ensures Resized(Drawn(img, a), w, h) == Drawn(Resized(img, w, h), a)
  {
    var early, late := Resized(Drawn(img, a), w, h), Drawn(Resized(img, w, h), a);
    assert HasSize(early, w, h) && HasSize(late, w, h) by { DrawnKeepsSize(Resized(img, w, h), a, w, h); }
    hide Resized, Drawn, SurvivesAt;
    forall p: Point | InBox(p, 0, 0, w, h)
      ensures SameAt(img, a, w, h, p)
    {
      OrdersAgreeAt(img, a, oldW, oldH, w, h, p);
    }
    SameImages(early, late, w, h);
  }

  lemma SameImages(a: Image, b: Image, w: nat, h: nat)
    requires HasSize(a, w, h) && HasSize(b, w, h)
    requires forall p: Point :: InBox(p, 0, 0, w, h) ==> a[p] == b[p]
    ensures a == b
  {
    assert forall p: Point :: p in a <==> p in b;
  }

  /** Exactly which actions a resize may overtake, for every action and all sizes. */
  lemma {:induction false} CommutesIff(a: Action, oldW: nat, oldH: nat, w: nat, h: nat)
    ensures Commutes(a, oldW, oldH, w, h) <==> Survives(a, oldW, oldH, w, h)
  {
    hide Resized, Drawn, SurvivesAt, HasSize;
    if Survives(a, oldW, oldH, w, h) {
      forall img: Image | HasSize(img, oldW, oldH)
        ensures Resized(Drawn(img, a), w, h) == Drawn(Resized(img, w, h), a)
      {
        SameEverywhere(img, a, oldW, oldH, w, h);
      }
    } else {
      var p: Point :| InBox(p, 0, 0, w, h) && !SurvivesAt(a, oldW, oldH, w, h, p);
      OrdersDifferAt(a, oldW, oldH, w, h, p);
      InResized(Witness(a, oldW, oldH, p), a, w, h, p);
    }
  }

  lemma InResized(img: Image, a: Action, w: nat, h: nat, p: Point)
    requires InBox(p, 0, 0, w, h) && !SameAt(img, a, w, h, p)
    ensures Resized(Drawn(img, a), w, h) != Drawn(Resized(img, w, h), a)
  {
    hide Drawn;
    assert p in Resized(Drawn(img, a), w, h);
  }

  // ----- queues -----

  ghost predicate AllSurvive(actions: seq<Action>, oldW: nat, oldH: nat, w: nat, h: nat) {
    forall a <- actions :: Survives(a, oldW, oldH, w, h)
  }

  /** Every waiting action may be overtaken by a resize to this size. */
  ghost predicate QueueSurvives(d: Screen, w: nat, h: nat) {
    AllSurvive(d.renderQ, d.backWidth, d.backHeight, w, h)
  }

  lemma {:induction false} AllCommute(img: Image, actions: seq<Action>, oldW: nat, oldH: nat, w: nat, h: nat)
    requires HasSize(img, oldW, oldH) && AllSurvive(actions, oldW, oldH, w, h)
    ensures Resized(DrawnAll(img, actions), w, h) == DrawnAll(Resized(img, w, h), actions)
    ensures HasSize(DrawnAll(img, actions), oldW, oldH)
    decreases |actions|
  {
    hide Drawn, Resized, Survives, HasSize;
    if actions != [] {
      var init, last := actions[..|actions| - 1], actions[|actions| - 1];
      assert last in actions && forall a <- init :: a in actions;
      AllCommute(img, init, oldW, oldH, w, h);
      SameEverywhere(DrawnAll(img, init), last, oldW, oldH, w, h);
      DrawnKeepsSize(DrawnAll(img, init), last, oldW, oldH);
    }
  }

  /** The box lies in the part of the picture that the resize keeps, or is empty. */
  predicate BoxKept(x: int, y: int, bw: nat, bh: nat, keptW: nat, keptH: nat) {
    bw == 0 || bh == 0 || (0 <= x && x + bw <= keptW && 0 <= y && y + bh <= keptH)
  }

  /** An action that stays inside the kept part, with the source of a copy as well. */
  predicate StaysInside(a: Action, keptW: nat, keptH: nat) {
    match a
    case FlipAct => true
    case FillAct(x, y, w, h, _) => BoxKept(x, y, w, h, keptW, keptH)
    case BlitAct(x, y, w, h, _) => BoxKept(x, y, w, h, keptW, keptH)
    case ImgAct(img, x, y, _, _) => BoxKept(x, y, img.width, img.height, keptW, keptH)
    case CopyAct(oldX, oldY, x, y, w, h) => BoxKept(x, y, w, h, keptW, keptH) && BoxKept(oldX, oldY, w, h, keptW, keptH)
  }

  /** A resize may overtake everything that stays inside the part it keeps. */
  lemma {:induction false} InsideSurvives(d: Screen, w: nat, h: nat)
    requires forall a <- d.renderQ :: StaysInside(a, Least(d.backWidth, w), Least(d.backHeight, h))
    ensures QueueSurvives(d, w, h)
  {
    hide RowMajor;
    forall a, p: Point | a in d.renderQ && InBox(p, 0, 0, w, h)
      ensures SurvivesAt(a, d.backWidth, d.backHeight, w, h, p)
    {
      assert StaysInside(a, Least(d.backWidth, w), Least(d.backHeight, h));
    }
  }

  /** For a fill: whatever of it the new picture shows, the old one had. */
  lemma {:induction false} FillCommutesIff(x: int, y: int, fw: nat, fh: nat, c: Color, oldW: nat, oldH: nat, w: nat, h: nat)
    ensures Commutes(FillAct(x, y, fw, fh, c), oldW, oldH, w, h) <==>
            forall p: Point :: InBox(p, x, y, fw, fh) && InBox(p, 0, 0, w, h) ==> InBox(p, 0, 0, oldW, oldH)
  {
    hide Commutes;
    var a := FillAct(x, y, fw, fh, c);
    CommutesIff(a, oldW, oldH, w, h);
    if Survives(a, oldW, oldH, w, h) {
      forall p: Point | InBox(p, x, y, fw, fh) && InBox(p, 0, 0, w, h)
        ensures InBox(p, 0, 0, oldW, oldH)
      {
        assert SurvivesAt(a, oldW, oldH, w, h, p);
      }
    }
  }

  /** For a copy: a target in the old picture keeps its source, and a new one has none. */
  lemma {:induction false} CopyCommutesIff(oldX: int, oldY: int, x: int, y: int, cw: nat, ch: nat, oldW: nat, oldH: nat, w: nat, h: nat)
    ensures Commutes(CopyAct(oldX, oldY, x, y, cw, ch), oldW, oldH, w, h) <==>
            forall p: Point :: InBox(p, x, y, cw, ch) && InBox(p, 0, 0, w, h) ==>
              var q := (p.0 - x + oldX, p.1 - y + oldY);
              if InBox(p, 0, 0, oldW, oldH) then InBox(q, 0, 0, oldW, oldH) ==> InBox(q, 0, 0, w, h)
              else !(InBox(q, 0, 0, oldW, oldH) && InBox(q, 0, 0, w, h))
  {
    hide Commutes;
    var a := CopyAct(oldX, oldY, x, y, cw, ch);
    CommutesIff(a, oldW, oldH, w, h);
    if Survives(a, oldW, oldH, w, h) {
      forall p: Point | InBox(p, x, y, cw, ch) && InBox(p, 0, 0, w, h)
        ensures var q := (p.0 - x + oldX, p.1 - y + oldY);
                if InBox(p, 0, 0, oldW, oldH) then InBox(q, 0, 0, oldW, oldH) ==> InBox(q, 0, 0, w, h)
                else !(InBox(q, 0, 0, oldW, oldH) && InBox(q, 0, 0, w, h))
      {
        assert SurvivesAt(a, oldW, oldH, w, h, p);
      }
    }
  }
}
