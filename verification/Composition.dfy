/** What a stack of layers looks like, and why redrawing parts of it is enough (kernel/layer.cpp), as values. */
module Composition {
  import opened Basics
  import opened Graphics
  import opened Windows

  /** The views of the layers from bottom to top. */
  type Scene = seq<View>

  ghost predicate AllValid(scene: Scene) {
    forall i :: 0 <= i < |scene| ==> scene[i].Valid()
  }

  /** The color of a point after the layers were drawn in order. */
  ghost function Paint(scene: Scene, base: Color, x: int, y: int): Color
    requires AllValid(scene)
  {
    if scene == [] then base
    else
      var v := scene[|scene| - 1];
      if v.Shows(x, y).Some? then v.Shows(x, y).value else Paint(scene[..|scene| - 1], base, x, y)
  }

  /** The same, when they are drawn within an area. */
  ghost function PaintArea(scene: Scene, area: Rect, base: Color, x: int, y: int): Color
    requires AllValid(scene)
  {
    if scene == [] then base
    else
      var v, below := scene[|scene| - 1], PaintArea(scene[..|scene| - 1], area, base, x, y);
      if v.Touches(area, x, y) && v.Shows(x, y).Some? then v.Shows(x, y).value else below
  }

  /** The bottom layer is opaque and covers the screen. */
  ghost predicate Covered(scene: Scene, width: nat, height: nat) {
    && scene != [] && scene[0].transparent.None?
    && forall x, y :: 0 <= x < width && 0 <= y < height ==> scene[0].Area().Has(x, y)
  }

  const BLACK := Color(0, 0, 0)

  /** The topmost color that a transparent layer shows at a point, or `base`. */
  ghost function TopOver(scene: Scene, base: Color, x: int, y: int): Color
    requires AllValid(scene)
  {
    if scene == [] then base
    else
      var v := scene[|scene| - 1];
      if v.transparent.Some? && v.Shows(x, y).Some? then v.Shows(x, y).value else TopOver(scene[..|scene| - 1], base, x, y)
  }

  /** The transparent layers over a point have nothing to show there but what the scene shows. */
  ghost predicate ClearAt(scene: Scene, x: int, y: int)
    requires AllValid(scene)
  {
    TopOver(scene, Paint(scene, BLACK, x, y), x, y) == Paint(scene, BLACK, x, y)
  }

  ghost predicate Clear(scene: Scene, width: nat, height: nat)
    requires AllValid(scene)
  {
    forall x, y :: 0 <= x < width && 0 <= y < height ==> ClearAt(scene, x, y)
  }

  /** The bottom layer covers the screen, and no opaque layer hides what a transparent one below it shows, unless it
      has the same color. */
  ghost predicate Composable(scene: Scene, width: nat, height: nat) {
    AllValid(scene) && Covered(scene, width, height) && Clear(scene, width, height)
  }

  /** Every layer but the topmost is opaque. */
  ghost predicate OneTransparent(scene: Scene) {
    forall i :: 0 <= i < |scene| - 1 ==> scene[i].transparent.None?
  }

  /** An image shows the scene. */
  ghost predicate Shown(image: Image, width: nat, height: nat, scene: Scene) {
    && IsImage(image, width, height) && AllValid(scene)
    && forall x, y {:trigger At(image, x, y)} :: 0 <= x < width && 0 <= y < height ==> At(image, x, y) == Paint(scene, BLACK, x, y)
  }

  // ----- painting a point

  lemma {:induction false} PaintJoin(a: Scene, b: Scene, base: Color, x: int, y: int)
    requires AllValid(a) && AllValid(b)
    ensures AllValid(a + b) && Paint(a + b, base, x, y) == Paint(b, Paint(a, base, x, y), x, y)
    decreases |b|
  {
    if b == [] {
      assert a + b == a;
    } else {
      var n := |b| - 1;
      PaintJoin(a, b[..n], base, x, y);
      assert (a + b)[..|a| + n] == a + b[..n];
    }
  }

  /** A layer that shows at a point hides what is below. */
  lemma {:induction false} PaintHides(scene: Scene, i: nat, base: Color, base': Color, x: int, y: int)
    requires AllValid(scene) && i < |scene| && scene[i].Shows(x, y).Some?
    ensures Paint(scene, base, x, y) == Paint(scene, base', x, y)
    decreases |scene|
  {
    if i < |scene| - 1 {
      PaintHides(scene[..|scene| - 1], i, base, base', x, y);
    }
  }

  /** Within the area all layers are drawn. */
  lemma {:induction false} InsideArea(scene: Scene, area: Rect, base: Color, x: int, y: int)
    requires AllValid(scene) && area.Has(x, y)
    ensures PaintArea(scene, area, base, x, y) == Paint(scene, base, x, y)
  {
    if scene != [] {
      InsideArea(scene[..|scene| - 1], area, base, x, y);
    }
  }

  /** Outside the area only the transparent layers are drawn. */
  lemma {:induction false} OutsideArea(scene: Scene, area: Rect, base: Color, x: int, y: int)
    requires AllValid(scene) && !area.Has(x, y)
    ensures PaintArea(scene, area, base, x, y) == TopOver(scene, base, x, y)
  {
    if scene != [] {
      OutsideArea(scene[..|scene| - 1], area, base, x, y);
    }
  }

  /** It is enough that only the topmost layer is transparent. */
  lemma OneIsClear(scene: Scene, width: nat, height: nat)
    requires AllValid(scene) && OneTransparent(scene)
    ensures Clear(scene, width, height)
  {
    forall x, y | 0 <= x < width && 0 <= y < height
      ensures ClearAt(scene, x, y)
    {
      if scene != [] {
        NoneOver(scene[..|scene| - 1], Paint(scene, BLACK, x, y), x, y);
      }
    }
  }

  lemma {:induction false} NoneOver(scene: Scene, base: Color, x: int, y: int)
    requires AllValid(scene) && forall i :: 0 <= i < |scene| ==> scene[i].transparent.None?
    ensures TopOver(scene, base, x, y) == base
  {
    if scene != [] {
      NoneOver(scene[..|scene| - 1], base, x, y);
    }
  }

  lemma OpaqueShows(v: View, x: int, y: int)
    requires v.Valid() && v.transparent.None? && v.Area().Has(x, y)
    ensures v.Shows(x, y).Some?
  {}

  /** Whatever was there before, the covered scene looks the same. */
  lemma BaseHidden(scene: Scene, width: nat, height: nat, base: Color, x: int, y: int)
    requires AllValid(scene) && Covered(scene, width, height) && 0 <= x < width && 0 <= y < height
    ensures Paint(scene, base, x, y) == Paint(scene, BLACK, x, y)
  {
    OpaqueShows(scene[0], x, y);
    PaintHides(scene, 0, base, BLACK, x, y);
  }

  /** Scenes that differ in a layer that does not show at a point look the same there. */
  lemma {:induction false} PaintSame(scene: Scene, scene': Scene, i: nat, base: Color, x: int, y: int)
    requires AllValid(scene) && AllValid(scene') && i < |scene| == |scene'|
    requires forall k :: 0 <= k < |scene| && k != i ==> scene'[k] == scene[k]
    requires scene[i].Shows(x, y) == scene'[i].Shows(x, y)
    ensures Paint(scene, base, x, y) == Paint(scene', base, x, y)
    decreases |scene|
  {
    var n := |scene| - 1;
    if i < n {
      PaintSame(scene[..n], scene'[..n], i, base, x, y);
    } else {
      assert scene[..n] == scene'[..n];
    }
  }

  // ----- drawing the layers from number `i` up

  lemma SuffixValid(scene: Scene, i: nat)
    requires AllValid(scene) && i <= |scene|
    ensures AllValid(scene[i..]) && AllValid(scene[..i])
  {}

  /** Where layer `i` shows, drawing it and those above gives the scene, whatever was there before. */
  lemma SuffixRepaints(scene: Scene, i: nat, base: Color, x: int, y: int)
    requires AllValid(scene) && i < |scene| && scene[i].Shows(x, y).Some?
    ensures AllValid(scene[i..]) && Paint(scene[i..], base, x, y) == Paint(scene, BLACK, x, y)
  {
    assert scene == scene[..i] + scene[i..];
    PaintJoin(scene[..i], scene[i..], BLACK, x, y);
    PaintHides(scene[i..], 0, base, Paint(scene[..i], BLACK, x, y), x, y);
  }

  lemma {:induction false} PaintTwice(scene: Scene, base: Color, x: int, y: int)
    requires AllValid(scene)
    ensures Paint(scene, Paint(scene, base, x, y), x, y) == Paint(scene, base, x, y)
  {
    if scene != [] {
      PaintTwice(scene[..|scene| - 1], base, x, y);
    }
  }

  /** Over the right color, drawing them all changes nothing. */
  lemma SuffixKeeps(scene: Scene, i: nat, x: int, y: int)
    requires AllValid(scene) && i <= |scene|
    ensures AllValid(scene[i..]) && Paint(scene[i..], Paint(scene, BLACK, x, y), x, y) == Paint(scene, BLACK, x, y)
  {
    assert scene == scene[..i] + scene[i..];
    PaintJoin(scene[..i], scene[i..], BLACK, x, y);
    PaintTwice(scene[i..], Paint(scene[..i], BLACK, x, y), x, y);
  }

  /** A partial draw over the right color: inside the area it stays right, and outside exactly if the topmost color
      that these transparent layers show there, if any, is the one of the scene. */
  lemma DrawKeepsPoint(scene: Scene, i: nat, area: Rect, x: int, y: int)
    requires AllValid(scene) && i <= |scene|
    ensures AllValid(scene[i..])
    ensures var c := Paint(scene, BLACK, x, y);
      PaintArea(scene[i..], area, c, x, y) == c <==> area.Has(x, y) || TopOver(scene[i..], c, x, y) == c
  {
    hide Paint, PaintArea, TopOver;
    var c := Paint(scene, BLACK, x, y);
    SuffixKeeps(scene, i, x, y);
    if area.Has(x, y) {
      InsideArea(scene[i..], area, c, x, y);
    } else {
      OutsideArea(scene[i..], area, c, x, y);
    }
  }

  /** The topmost color of all transparent layers is that of the upper ones, or of the lower ones where those show
      none. */
  lemma {:induction false} TopJoin(a: Scene, b: Scene, base: Color, x: int, y: int)
    requires AllValid(a) && AllValid(b)
    ensures AllValid(a + b) && TopOver(a + b, base, x, y) == TopOver(b, TopOver(a, base, x, y), x, y)
    decreases |b|
  {
    if b == [] {
      assert a + b == a;
    } else {
      var n := |b| - 1;
      TopJoin(a, b[..n], base, x, y);
      assert (a + b)[..|a| + n] == a + b[..n];
    }
  }

  /** `TopOver` either ignores `base` or returns it. */
  lemma {:induction false} TopOrBase(scene: Scene, base: Color, base': Color, x: int, y: int)
    requires AllValid(scene)
    ensures (TopOver(scene, base, x, y) == base && TopOver(scene, base', x, y) == base')
      || TopOver(scene, base, x, y) == TopOver(scene, base', x, y)
  {
    if scene != [] {
      TopOrBase(scene[..|scene| - 1], base, base', x, y);
    }
  }

  /** What is clear is clear for the upper layers alone, and drawing those twice is drawing them once. */
  lemma ClearAbove(scene: Scene, i: nat, x: int, y: int)
    requires AllValid(scene) && i <= |scene| && ClearAt(scene, x, y)
    ensures AllValid(scene[i..])
    ensures var c := Paint(scene, BLACK, x, y); TopOver(scene[i..], c, x, y) == c
  {
    hide Paint, TopOver;
    var c := Paint(scene, BLACK, x, y);
    assert scene == scene[..i] + scene[i..];
    TopJoin(scene[..i], scene[i..], c, x, y);
    TopOrBase(scene[i..], c, TopOver(scene[..i], c, x, y), x, y);
  }

  /** After all transparent layers, the upper ones add nothing. */
  lemma TopAgain(scene: Scene, i: nat, base: Color, x: int, y: int)
    requires AllValid(scene) && i <= |scene|
    ensures AllValid(scene[i..])
    ensures TopOver(scene[i..], TopOver(scene, base, x, y), x, y) == TopOver(scene, base, x, y)
  {
    hide TopOver;
    assert scene == scene[..i] + scene[i..];
    TopJoin(scene[..i], scene[i..], base, x, y);
    TopOrBase(scene[i..], TopOver(scene[..i], base, x, y), TopOver(scene, base, x, y), x, y);
  }

  // ----- moving a layer

  /** Layer `i` of the scene moved. */
  ghost predicate Moved(scene: Scene, scene': Scene, i: nat) {
    && i < |scene| == |scene'|
    && (forall k :: 0 <= k < |scene| && k != i ==> scene'[k] == scene[k])
    && scene'[i] == scene[i].(pos := scene'[i].pos)
  }

  lemma HiddenOutside(v: View, x: int, y: int)
    requires v.Valid() && !v.Area().Has(x, y)
    ensures v.Shows(x, y).None?
  {}

  /** A layer of these shows at the point. */
  ghost predicate AnyShows(scene: Scene, x: int, y: int)
    requires AllValid(scene)
  {
    exists k :: 0 <= k < |scene| && scene[k].Shows(x, y).Some?
  }

  /** When both draws of a move leave a point right, by where it lies: where only the old area was drawn, the layers
      from the moved one up must be clear; where the moved layer or one above shows, nothing is asked; elsewhere all
      layers must be clear. */
  ghost predicate MoveIsClear(scene: Scene, scene': Scene, i: nat, x: int, y: int)
    requires AllValid(scene) && AllValid(scene') && i < |scene| == |scene'|
  {
    var c := Paint(scene', BLACK, x, y);
    if scene[i].Area().Has(x, y) then
      scene'[i].Area().Has(x, y) || (SuffixValid(scene', i); TopOver(scene'[i..], c, x, y) == c)
    else
      (scene'[i].Area().Has(x, y) && (SuffixValid(scene', i); AnyShows(scene'[i..], x, y))) || ClearAt(scene', x, y)
  }

  /** One point, through both draws of a move: `c1` is the back buffer after the old area was drawn, `c2` after the
      layer and those above it were drawn at the new place; `s2` is the screen. */
  lemma MovePoint(scene: Scene, scene': Scene, width: nat, height: nat, i: nat, x: int, y: int)
    requires AllValid(scene) && AllValid(scene') && Covered(scene', width, height) && Moved(scene, scene', i)
    requires 0 <= x < width && 0 <= y < height
    ensures AllValid(scene'[i..])
    ensures var oldArea, newArea, c0 := scene[i].Area(), scene'[i].Area(), Paint(scene, BLACK, x, y);
      var c1 := PaintArea(scene', oldArea, c0, x, y);
      var s1 := if oldArea.Has(x, y) then c1 else c0;
      var c2 := PaintArea(scene'[i..], newArea, c1, x, y);
      var s2 := if newArea.Has(x, y) then c2 else s1;
      c2 == Paint(scene', BLACK, x, y) && s2 == Paint(scene', BLACK, x, y) <==> MoveIsClear(scene, scene', i, x, y)
  {
    hide Paint, PaintArea, TopOver, Covered, View.Shows, ClearAt;
    var oldArea, newArea, c0 := scene[i].Area(), scene'[i].Area(), Paint(scene, BLACK, x, y);
    var c1, c' := PaintArea(scene', oldArea, c0, x, y), Paint(scene', BLACK, x, y);
    SuffixValid(scene', i);
    if oldArea.Has(x, y) {
      InsideArea(scene', oldArea, c0, x, y);
      BaseHidden(scene', width, height, c0, x, y);
      DrawKeepsPoint(scene', i, newArea, x, y);
    } else {
      OutsideArea(scene', oldArea, c0, x, y);
      HiddenOutside(scene[i], x, y);
      if newArea.Has(x, y) {
        InsideArea(scene'[i..], newArea, c1, x, y);
        if AnyShows(scene'[i..], x, y) {
          AnyRepaints(scene', i, c1, x, y);
        } else {
          NoneShows(scene, scene', i, c1, x, y);
        }
      } else {
        HiddenOutside(scene'[i], x, y);
        PaintSame(scene, scene', i, BLACK, x, y);
        OutsideArea(scene'[i..], newArea, c1, x, y);
        TopAgain(scene', i, c0, x, y);
      }
    }
    ClearMeans(scene', x, y);
  }

  lemma ClearMeans(scene: Scene, x: int, y: int)
    requires AllValid(scene)
    ensures var c := Paint(scene, BLACK, x, y); ClearAt(scene, x, y) <==> TopOver(scene, c, x, y) == c
  {}

  lemma AnyRepaints(scene: Scene, i: nat, base: Color, x: int, y: int)
    requires AllValid(scene) && i < |scene| && AllValid(scene[i..]) && AnyShows(scene[i..], x, y)
    ensures Paint(scene[i..], base, x, y) == Paint(scene, BLACK, x, y)
  {
    hide Paint;
    var k :| 0 <= k < |scene[i..]| && scene[i..][k].Shows(x, y).Some?;
    PaintHides(scene[i..], k, base, Paint(scene[..i], BLACK, x, y), x, y);
    assert scene == scene[..i] + scene[i..];
    PaintJoin(scene[..i], scene[i..], BLACK, x, y);
  }

  lemma {:induction false} PaintNothing(scene: Scene, base: Color, x: int, y: int)
    requires AllValid(scene) && !AnyShows(scene, x, y)
    ensures Paint(scene, base, x, y) == base
  {
    if scene != [] {
      var n := |scene| - 1;
      assert scene[n].Shows(x, y).None?;
      assert forall k :: 0 <= k < n ==> scene[..n][k] == scene[k];
      PaintNothing(scene[..n], base, x, y);
    }
  }

  lemma NoneShows(scene: Scene, scene': Scene, i: nat, base: Color, x: int, y: int)
    requires AllValid(scene) && AllValid(scene') && i < |scene| == |scene'|
    requires forall k :: 0 <= k < |scene| && k != i ==> scene'[k] == scene[k]
    requires scene[i].Shows(x, y).None? && AllValid(scene'[i..]) && !AnyShows(scene'[i..], x, y)
    ensures Paint(scene'[i..], base, x, y) == base && Paint(scene, BLACK, x, y) == Paint(scene', BLACK, x, y)
  {
    hide Paint;
    PaintNothing(scene'[i..], base, x, y);
    assert scene'[i..][0] == scene'[i];
    PaintSame(scene, scene', i, BLACK, x, y);
  }

  /** In a clear scene every point of a move is right. */
  lemma ClearMoves(scene: Scene, scene': Scene, i: nat, x: int, y: int)
    requires AllValid(scene) && AllValid(scene') && i < |scene| == |scene'| && ClearAt(scene', x, y)
    ensures MoveIsClear(scene, scene', i, x, y)
  {
    hide Paint, TopOver, ClearAt;
    ClearAbove(scene', i, x, y);
  }
}
