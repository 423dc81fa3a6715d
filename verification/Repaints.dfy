/** Why the partial repaints of kernel/layer.cpp leave the whole screen right: images before and after each draw. */
module Repaints {
  import opened Basics
  import opened Graphics
  import opened FrameBuffers
  import opened Windows
  import opened Composition

  /** The layers were drawn over an image, from bottom to top, within an area. */
  ghost predicate Painted(before: Image, after: Image, width: nat, height: nat, scene: Scene, area: Rect) {
    && IsImage(before, width, height) && IsImage(after, width, height) && AllValid(scene)
    && forall x, y {:trigger At(after, x, y)} :: 0 <= x < width && 0 <= y < height ==>
         At(after, x, y) == PaintArea(scene, area, At(before, x, y), x, y)
  }

  /** An area of the screen is taken from the back buffer. */
  ghost predicate Flushed(before: Image, after: Image, width: nat, height: nat, back: Image, area: Rect) {
    Overlaid(before, after, width, height, back, width, height, area, 0, 0)
  }

  lemma NothingPainted(before: Image, width: nat, height: nat, area: Rect)
    requires IsImage(before, width, height)
    ensures Painted(before, before, width, height, [], area)
  {}

  lemma OneMorePainted(before: Image, between: Image, after: Image, width: nat, height: nat, scene: Scene, v: View, area: Rect)
    requires Painted(before, between, width, height, scene, area) && Drawn(between, after, width, height, v, area)
    ensures Painted(before, after, width, height, scene + [v], area)
  {
    hide View.Shows;
    assert (scene + [v])[..|scene|] == scene;
    forall x, y | 0 <= x < width && 0 <= y < height
      ensures At(after, x, y) == PaintArea(scene + [v], area, At(before, x, y), x, y)
    {
      assert At(between, x, y) == PaintArea(scene, area, At(before, x, y), x, y);
    }
  }

  // ----- repainting a scene

  /** The reference: a repaint of an area as large as the screen shows the scene, whatever was there before. */
  lemma FullRepaint(screen: Image, screen': Image, back: Image, back': Image, width: nat, height: nat, scene: Scene, area: Rect)
    requires Composable(scene, width, height)
    requires forall x, y :: 0 <= x < width && 0 <= y < height ==> area.Has(x, y)
    requires Painted(back, back', width, height, scene, area) && Flushed(screen, screen', width, height, back', area)
    ensures Shown(screen', width, height, scene) && Shown(back', width, height, scene)
  {
    hide Paint, PaintArea, Covered;
    forall x, y | 0 <= x < width && 0 <= y < height
      ensures At(back', x, y) == Paint(scene, BLACK, x, y) == At(screen', x, y)
    {
      InsideArea(scene, area, At(back, x, y), x, y);
      BaseHidden(scene, width, height, At(back, x, y), x, y);
    }
  }

  /** A repaint of a part leaves a right image right. */
  lemma RepaintKeeps(back: Image, back': Image, width: nat, height: nat, scene: Scene, area: Rect)
    requires Composable(scene, width, height) && Shown(back, width, height, scene)
    requires Painted(back, back', width, height, scene, area)
    ensures Shown(back', width, height, scene)
  {
    hide Paint, PaintArea, TopOver, Covered;
    forall x, y | 0 <= x < width && 0 <= y < height
      ensures At(back', x, y) == Paint(scene, BLACK, x, y)
    {
      RepaintPoint(scene, width, height, area, x, y);
      assert At(back, x, y) == Paint(scene, BLACK, x, y);
    }
  }

  lemma RepaintPoint(scene: Scene, width: nat, height: nat, area: Rect, x: int, y: int)
    requires Composable(scene, width, height) && 0 <= x < width && 0 <= y < height
    ensures var c := Paint(scene, BLACK, x, y); PaintArea(scene, area, c, x, y) == c
  {
    hide Paint, PaintArea, TopOver, Covered;
    var c := Paint(scene, BLACK, x, y);
    if area.Has(x, y) {
      InsideArea(scene, area, c, x, y);
      BaseHidden(scene, width, height, c, x, y);
    } else {
      OutsideArea(scene, area, c, x, y);
      assert ClearAt(scene, x, y);
    }
  }

  lemma FlushKeeps(screen: Image, screen': Image, back: Image, width: nat, height: nat, scene: Scene, area: Rect)
    requires Shown(screen, width, height, scene) && Shown(back, width, height, scene)
    requires Flushed(screen, screen', width, height, back, area)
    ensures Shown(screen', width, height, scene)
  {
    hide Paint;
    forall x, y | 0 <= x < width && 0 <= y < height
      ensures At(screen', x, y) == Paint(scene, BLACK, x, y)
    {
      assert At(screen, x, y) == Paint(scene, BLACK, x, y) == At(back, x, y);
    }
  }

  // ----- moving a layer

  /** Moving layer `i`: the old area is repainted with all layers, the new one with that layer and those above it. */
  lemma MoveShows(screen: Image, screen1: Image, screen2: Image, back: Image, back1: Image, back2: Image,
                  width: nat, height: nat, scene: Scene, scene': Scene, i: nat)
    requires Composable(scene, width, height) && Composable(scene', width, height) && Moved(scene, scene', i)
    requires Shown(screen, width, height, scene) && Shown(back, width, height, scene)
    requires Painted(back, back1, width, height, scene', scene[i].Area())
    requires Flushed(screen, screen1, width, height, back1, scene[i].Area())
    requires Painted(back1, back2, width, height, scene'[i..], scene'[i].Area())
    requires Flushed(screen1, screen2, width, height, back2, scene'[i].Area())
    ensures Shown(screen2, width, height, scene') && Shown(back2, width, height, scene')
  {
    hide Paint, PaintArea, Covered;
    forall x, y | 0 <= x < width && 0 <= y < height
      ensures At(back2, x, y) == Paint(scene', BLACK, x, y) == At(screen2, x, y)
    {
      ClearMoves(scene, scene', i, x, y);
      MovePoint(scene, scene', width, height, i, x, y);
      assert At(screen, x, y) == Paint(scene, BLACK, x, y) == At(back, x, y);
      assert At(back1, x, y) == PaintArea(scene', scene[i].Area(), At(back, x, y), x, y);
      assert At(screen1, x, y) == if scene[i].Area().Has(x, y) then At(back1, x, y) else At(screen, x, y);
    }
  }

  // ----- changing the order of the layers

  ghost function Without<T>(s: seq<T>, i: nat): seq<T>
    requires i < |s|
  {
    s[..i] + s[i + 1..]
  }

  /** Where a layer does not show, the scene looks as if it were not there. */
  lemma WithoutSame(scene: Scene, i: nat, x: int, y: int)
    requires AllValid(scene) && i < |scene| && scene[i].Shows(x, y).None?
    ensures AllValid(Without(scene, i)) && Paint(Without(scene, i), BLACK, x, y) == Paint(scene, BLACK, x, y)
  {
    var c := Paint(scene[..i], BLACK, x, y);
    assert scene == scene[..i + 1] + scene[i + 1..];
    PaintJoin(scene[..i + 1], scene[i + 1..], BLACK, x, y);
    PaintJoin(scene[..i], scene[i + 1..], BLACK, x, y);
    assert scene[..i + 1][..i] == scene[..i];
  }

  /** Layer `i` is drawn with those above it where it lies now, and nowhere else: that is enough if the image was
      right for the scene without this layer outside its area. */
  lemma DrawUpwardsPoint(scene: Scene, i: nat, base: Color, x: int, y: int)
    requires AllValid(scene) && i < |scene| && ClearAt(scene, x, y)
    requires scene[i].Shows(x, y).None? ==> base == Paint(scene, BLACK, x, y)
    ensures AllValid(scene[i..]) && PaintArea(scene[i..], scene[i].Area(), base, x, y) == Paint(scene, BLACK, x, y)
  {
    hide Paint, PaintArea, TopOver, View.Shows, ClearAt;
    var area := scene[i].Area();
    SuffixValid(scene, i);
    if scene[i].Shows(x, y).Some? {
      SuffixRepaints(scene, i, base, x, y);
      if area.Has(x, y) {
        InsideArea(scene[i..], area, base, x, y);
      } else {
        HiddenOutside(scene[i], x, y);
      }
    } else {
      DrawKeepsPoint(scene, i, area, x, y);
      ClearAbove(scene, i, x, y);
    }
  }

  /** The layer at height `j` was at height `i` before, or not there if that is negative; the others kept their order. */
  ghost predicate Restacked(scene: Scene, i: int, scene': Scene, j: nat) {
    && i < |scene| && j < |scene'| && (i >= 0 ==> scene'[j] == scene[i])
    && Without(scene', j) == if i < 0 then scene else Without(scene, i)
  }

  /** A layer that appeared or changed its height, in either direction, only needs to be drawn with those above it. */
  lemma RestackShows(screen: Image, screen': Image, back: Image, back': Image, width: nat, height: nat,
                     scene: Scene, i: int, scene': Scene, j: nat)
    requires Composable(scene, width, height) && Composable(scene', width, height) && Restacked(scene, i, scene', j)
    requires Shown(screen, width, height, scene) && Shown(back, width, height, scene)
    requires Painted(back, back', width, height, scene'[j..], scene'[j].Area())
    requires Flushed(screen, screen', width, height, back', scene'[j].Area())
    ensures Shown(screen', width, height, scene') && Shown(back', width, height, scene')
  {
    hide Paint, PaintArea, Covered, Without;
    forall x, y | 0 <= x < width && 0 <= y < height
      ensures At(back', x, y) == Paint(scene', BLACK, x, y) == At(screen', x, y)
    {
      assert At(screen, x, y) == Paint(scene, BLACK, x, y) == At(back, x, y);
      if scene'[j].Shows(x, y).None? {
        if i >= 0 {
          WithoutSame(scene, i, x, y);
        }
        WithoutSame(scene', j, x, y);
      }
      DrawUpwardsPoint(scene', j, At(back, x, y), x, y);
      if !scene'[j].Area().Has(x, y) {
        HiddenOutside(scene'[j], x, y);
      }
    }
  }

  /** A layer that disappears leaves an area to repaint with all the others. */
  lemma DisappearShows(screen: Image, screen': Image, back: Image, back': Image, width: nat, height: nat, scene: Scene, i: nat, scene': Scene)
    requires Composable(scene, width, height) && Composable(scene', width, height) && i < |scene|
    requires scene' == Without(scene, i)
    requires Shown(screen, width, height, scene) && Shown(back, width, height, scene)
    requires Painted(back, back', width, height, scene', scene[i].Area())
    requires Flushed(screen, screen', width, height, back', scene[i].Area())
    ensures Shown(screen', width, height, scene') && Shown(back', width, height, scene')
  {
    hide Paint, PaintArea, TopOver, Covered, Without;
    var area := scene[i].Area();
    forall x, y | 0 <= x < width && 0 <= y < height
      ensures At(back', x, y) == Paint(scene', BLACK, x, y) == At(screen', x, y)
    {
      var c := At(back, x, y);
      assert At(screen, x, y) == Paint(scene, BLACK, x, y) == c;
      if area.Has(x, y) {
        InsideArea(scene', area, c, x, y);
        BaseHidden(scene', width, height, c, x, y);
      } else {
        HiddenOutside(scene[i], x, y);
        WithoutSame(scene, i, x, y);
        OutsideArea(scene', area, c, x, y);
        assert ClearAt(scene', x, y);
      }
    }
  }

  // ----- changing what a window shows

  /** Layer `i` has a new image, the same as before outside `area`. */
  ghost predicate Redrawn(scene: Scene, scene': Scene, i: nat, area: Rect) {
    && AllValid(scene) && AllValid(scene') && i < |scene| == |scene'|
    && (forall k :: 0 <= k < |scene| && k != i ==> scene'[k] == scene[k])
    && scene'[i] == scene[i].(image := scene'[i].image)
    && forall x, y {:trigger scene'[i].Shows(x, y)} ::
         scene[i].Area().Has(x, y) && !area.Has(x, y) ==> scene'[i].Shows(x, y) == scene[i].Shows(x, y)
  }

  /** A pixel of a transparent layer that stops showing, under layers that show nothing there, is not erased. */
  ghost predicate Vanished(scene: Scene, scene': Scene, i: nat, x: int, y: int)
    requires AllValid(scene) && AllValid(scene') && i < |scene| == |scene'|
  {
    scene[i].Shows(x, y).Some? && (SuffixValid(scene', i); !AnyShows(scene'[i..], x, y))
  }

  lemma SameElsewhere(scene: Scene, scene': Scene, i: nat, area: Rect, x: int, y: int)
    requires Redrawn(scene, scene', i, area) && !scene[i].Area().And(area).Has(x, y)
    ensures scene[i].Shows(x, y) == scene'[i].Shows(x, y) && Paint(scene, BLACK, x, y) == Paint(scene', BLACK, x, y)
  {
    hide Paint, View.Shows;
    AndHas(scene[i].Area(), area, x, y);
    if !scene[i].Area().Has(x, y) {
      HiddenOutside(scene[i], x, y);
      HiddenOutside(scene'[i], x, y);
    }
    PaintSame(scene, scene', i, BLACK, x, y);
  }

  /** After drawing the part of layer `i` within `area` and the layers above it, every point shows the new scene,
      except that a vanished pixel keeps its old color. */
  lemma RedrawPoint(scene: Scene, scene': Scene, i: nat, area: Rect, x: int, y: int)
    requires Redrawn(scene, scene', i, area) && ClearAt(scene', x, y)
    ensures AllValid(scene'[i..])
    ensures PaintArea(scene'[i..], scene[i].Area().And(area), Paint(scene, BLACK, x, y), x, y)
            == if Vanished(scene, scene', i, x, y) then scene[i].Shows(x, y).value else Paint(scene', BLACK, x, y)
  {
    hide Paint, PaintArea, TopOver, View.Shows, ClearAt, AnyShows;
    var drawn, c := scene[i].Area().And(area), Paint(scene, BLACK, x, y);
    SuffixValid(scene', i);
    AndHas(scene[i].Area(), area, x, y);
    if drawn.Has(x, y) {
      InsideArea(scene'[i..], drawn, c, x, y);
      if AnyShows(scene'[i..], x, y) {
        AnyRepaints(scene', i, c, x, y);
      } else {
        PaintNothing(scene'[i..], c, x, y);
        SameOrTop(scene, scene', i, x, y);
      }
    } else {
      SameElsewhere(scene, scene', i, area, x, y);
      DrawKeepsPoint(scene', i, drawn, x, y);
      ClearAbove(scene', i, x, y);
      ShownIsAny(scene', i, x, y);
    }
  }

  lemma ShownIsAny(scene: Scene, i: nat, x: int, y: int)
    requires AllValid(scene) && i < |scene| && AllValid(scene[i..])
    ensures scene[i].Shows(x, y).Some? ==> AnyShows(scene[i..], x, y)
  {
    assert scene[i..][0] == scene[i];
  }

  /** Where no layer from number `i` up shows in the new scene. */
  lemma SameOrTop(scene: Scene, scene': Scene, i: nat, x: int, y: int)
    requires AllValid(scene) && AllValid(scene') && i < |scene| == |scene'|
    requires forall k :: 0 <= k < |scene| && k != i ==> scene'[k] == scene[k]
    requires AllValid(scene'[i..]) && !AnyShows(scene'[i..], x, y)
    ensures scene[i].Shows(x, y).None? ==> Paint(scene, BLACK, x, y) == Paint(scene', BLACK, x, y)
    ensures scene[i].Shows(x, y).Some? ==> Paint(scene, BLACK, x, y) == scene[i].Shows(x, y).value
  {
    hide Paint;
    assert scene'[i..][0] == scene'[i];
    if scene[i].Shows(x, y).None? {
      PaintSame(scene, scene', i, BLACK, x, y);
    } else {
      var above := scene[i + 1..];
      assert forall k :: 0 <= k < |above| ==> above[k] == scene'[i..][k + 1];
      assert scene == scene[..i + 1] + above && scene[..i + 1][..i] == scene[..i];
      PaintJoin(scene[..i + 1], above, BLACK, x, y);
      PaintNothing(above, Paint(scene[..i + 1], BLACK, x, y), x, y);
      PaintTop(scene[..i + 1], x, y);
    }
  }

  lemma PaintTop(scene: Scene, x: int, y: int)
    requires AllValid(scene) && scene != [] && scene[|scene| - 1].Shows(x, y).Some?
    ensures Paint(scene, BLACK, x, y) == scene[|scene| - 1].Shows(x, y).value
  {}

  /** If no pixel vanishes, which an opaque layer rules out, drawing the changed part is enough. */
  lemma RedrawShows(screen: Image, screen': Image, back: Image, back': Image, width: nat, height: nat,
                    scene: Scene, scene': Scene, i: nat, area: Rect)
    requires Composable(scene, width, height) && Composable(scene', width, height) && Redrawn(scene, scene', i, area)
    requires forall x, y :: 0 <= x < width && 0 <= y < height ==> !Vanished(scene, scene', i, x, y)
    requires Shown(screen, width, height, scene) && Shown(back, width, height, scene)
    requires Painted(back, back', width, height, scene'[i..], scene[i].Area().And(area))
    requires Flushed(screen, screen', width, height, back', scene[i].Area().And(area))
    ensures Shown(screen', width, height, scene') && Shown(back', width, height, scene')
  {
    hide Paint, PaintArea, Covered, View.Shows;
    var drawn := scene[i].Area().And(area);
    forall x, y | 0 <= x < width && 0 <= y < height
      ensures At(back', x, y) == Paint(scene', BLACK, x, y) == At(screen', x, y)
    {
      RedrawPoint(scene, scene', i, area, x, y);
      assert At(screen, x, y) == Paint(scene, BLACK, x, y) == At(back, x, y);
      if !drawn.Has(x, y) {
        SameElsewhere(scene, scene', i, area, x, y);
      }
    }
  }

  // ----- a second transparent layer

  const RED := Color(255, 0, 0)
  const BLUE := Color(0, 0, 255)
  const GREEN := Color(0, 255, 0)

  /** A desktop of two pixels, a transparent red layer below a blue window, and a pointer with no visible pixel. */
  ghost function TwoTransparent(pointer: int): Scene {
    [ View(Vec(0, 0), 2, 1, [[BLACK, BLACK]], None),
      View(Vec(1, 0), 1, 1, [[RED]], Some(GREEN)),
      View(Vec(1, 0), 1, 1, [[BLUE]], None),
      View(Vec(pointer, 0), 1, 1, [[GREEN]], Some(GREEN)) ]
  }

  /** With a transparent layer below an opaque one the repaint of a move can fail: moving the pointer over the window
      brings the layer below it to the front. */
  lemma TwoTransparentFail()
    ensures var scene, scene' := TwoTransparent(0), TwoTransparent(1);
      && AllValid(scene) && AllValid(scene') && Covered(scene, 2, 1) && Covered(scene', 2, 1) && Moved(scene, scene', 3)
      && !MoveIsClear(scene, scene', 3, 1, 0)
      && var c1 := PaintArea(scene', scene[3].Area(), Paint(scene, BLACK, 1, 0), 1, 0);
         Paint(scene', BLACK, 1, 0) == BLUE && AllValid(scene'[3..]) && PaintArea(scene'[3..], scene'[3].Area(), c1, 1, 0) == RED
  {
    var scene, scene' := TwoTransparent(0), TwoTransparent(1);
    TwoTransparentTop(scene');
    OutsideArea(scene', scene[3].Area(), Paint(scene, BLACK, 1, 0), 1, 0);
    assert scene'[3..] == [scene'[3]];
    PaintTwoTransparent(scene');
  }

  /** At the second pixel, for the moved pointer: the transparent layer is red, the scene blue. */
  lemma TwoTransparentTop(scene: Scene)
    requires scene == TwoTransparent(1) && AllValid(scene)
    ensures forall base :: TopOver(scene, base, 1, 0) == RED
  {
    var three, two := scene[..3], scene[..2];
    assert scene[|scene| - 1] == scene[3] && scene[..|scene| - 1] == three;
    assert three[..2] == two && two[1] == scene[1];
    forall base
      ensures TopOver(scene, base, 1, 0) == RED
    {
      assert TopOver(two, base, 1, 0) == RED;
      assert TopOver(three, base, 1, 0) == RED;
    }
  }

  lemma PaintTwoTransparent(scene: Scene)
    requires scene == TwoTransparent(1) && AllValid(scene)
    ensures Paint(scene, BLACK, 1, 0) == BLUE
  {
  }
}
