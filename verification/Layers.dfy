/** The layer manager (kernel/layer.cpp): a stack of windows drawn into a back buffer and from there to the screen. */
module Layers {
  import opened Basics
  import opened Graphics
  import opened FrameBuffers
  import opened Windows
  import opened Composition
  import opened Repaints

  class Layer {
    const id: nat
    var pos: Vec
    var window: Window?
    var draggable: bool

    constructor (id: nat)
      ensures this.id == id && pos == Vec(0, 0) && window == null && !draggable
    {
      this.id, pos, window, draggable := id, Vec(0, 0), null, false;
    }

    /** What the layer's look depends on, besides the layer. */
    ghost function Parts(): set<object>
      reads this
    {
      if window == null then {} else {window, window.data, window.shadow.rows}
    }

    ghost predicate Valid(format: PixelFormat)
      reads this, Parts()
    {
      window != null ==> window.Valid() && window.shadow.format == format
    }

    /** A layer without a window shows nothing. */
    ghost function Look(): View
      reads this, Parts()
    {
      if window == null then View(pos, 0, 0, [], None) else window.ViewAt(pos)
    }

    method Move(newPos: Vec)
      modifies `pos
      ensures pos == newPos
    {
      pos := newPos;
    }

    method DrawTo(screen: FrameBuffer, area: Rect)
      requires Valid(screen.format) && screen.Valid() && screen.rows !in Parts()
      modifies screen.rows
      ensures screen.Valid() && Drawn(old(screen.rows[..]), screen.rows[..], screen.width, screen.height, Look(), area)
    {
      if window != null {
        window.DrawTo(screen, pos, area);
      }
    }
  }

  ghost predicate Distinct(layers: seq<Layer>) {
    forall i, j :: 0 <= i < j < |layers| ==> layers[i].id != layers[j].id
  }

  /** The height of a layer in the stack, -1 when it is not there. */
  ghost function HeightOf(stack: seq<Layer>, id: nat): (h: int)
    ensures -1 <= h < |stack|
    ensures h >= 0 ==> stack[h].id == id
    ensures forall k :: 0 <= k < (if h < 0 then |stack| else h) ==> stack[k].id != id
  {
    if stack == [] then -1
    else if stack[0].id == id then 0
    else
      var h := HeightOf(stack[1..], id);
      if h < 0 then -1 else h + 1
  }

  lemma HeightIs(stack: seq<Layer>, k: nat)
    requires Distinct(stack) && k < |stack|
    ensures HeightOf(stack, stack[k].id) == k
  {}

  /** The part of a layer that a draw of `area`, given within the layer, covers; both sizes negative mean all of it. */
  function DrawnArea(windowArea: Rect, area: Rect): Rect {
    if area.size.x >= 0 || area.size.y >= 0 then windowArea.And(Rect(area.pos.Plus(windowArea.pos), area.size)) else windowArea
  }

  const WHOLE := Rect(Vec(0, 0), Vec(-1, -1))

  lemma SliceEmpty<T>(s: seq<T>, k: nat)
    requires k <= |s|
    ensures s[k..k] == []
  {}

  lemma SliceGrows<T>(s: seq<T>, h: nat, k: nat)
    requires h <= k < |s|
    ensures s[h..k + 1] == s[h..k] + [s[k]]
  {}

  lemma SliceEnds<T>(s: seq<T>, h: nat)
    requires h <= |s|
    ensures s[h..|s|] == s[h..] && s[0..] == s
  {}

  lemma WholeDrawn(windowArea: Rect)
    ensures DrawnArea(windowArea, WHOLE) == windowArea
  {}

  /** What the layers look like, in order. */
  ghost function Looks(layers: seq<Layer>): (scene: Scene)
    reads layers, set l, o | l in layers && o in l.Parts() :: o
    ensures |scene| == |layers| && forall i :: 0 <= i < |layers| ==> scene[i] == layers[i].Look()
  {
    if layers == [] then [] else Looks(layers[..|layers| - 1]) + [layers[|layers| - 1].Look()]
  }

  /** The layers can be drawn into a buffer without changing their own pixels. */
  ghost predicate Drawable(layers: seq<Layer>, format: PixelFormat, buffers: set<object>)
    reads layers, set l, o | l in layers && o in l.Parts() :: o
  {
    forall i :: 0 <= i < |layers| ==> layers[i].Valid(format) && layers[i].Parts() !! buffers
  }

  /** The new stack holds the layer at that height and the other layers in their old order. */
  ghost predicate Inserted(before: seq<Layer>, after: seq<Layer>, id: nat, h: nat) {
    && h < |after| && after[h].id == id && Distinct(after)
    && Without(after, h) == if HeightOf(before, id) < 0 then before else Without(before, HeightOf(before, id))
  }

  ghost function MovedTo(scene: Scene, h: int, newPos: Vec): Scene {
    if 0 <= h < |scene| then scene[h := scene[h].(pos := newPos)] else scene
  }

  /** The area covers the screen. */
  ghost predicate Spans(area: Rect, width: nat, height: nat) {
    forall x, y :: 0 <= x < width && 0 <= y < height ==> area.Has(x, y)
  }

  lemma DrawingShows(screen: Image, screen': Image, back: Image, back': Image, width: nat, height: nat, scene: Scene, area: Rect)
    requires Painted(back, back', width, height, scene, area) && Flushed(screen, screen', width, height, back', area)
    ensures Composable(scene, width, height) && Spans(area, width, height) ==> Shown(screen', width, height, scene) && Shown(back', width, height, scene)
    ensures Composable(scene, width, height) && Shown(screen, width, height, scene) && Shown(back, width, height, scene) ==>
      Shown(screen', width, height, scene) && Shown(back', width, height, scene)
  {
    hide Composable, Shown, Painted, Overlaid;
    if Composable(scene, width, height) && Spans(area, width, height) {
      FullRepaint(screen, screen', back, back', width, height, scene, area);
    }
    if Composable(scene, width, height) && Shown(screen, width, height, scene) && Shown(back, width, height, scene) {
      RepaintKeeps(back, back', width, height, scene, area);
      FlushKeeps(screen, screen', back', width, height, scene, area);
    }
  }

  /** The two draws of a move, of a layer that is in the stack or not. */
  lemma MovingShows(screen: Image, screen1: Image, screen2: Image, back: Image, back1: Image, back2: Image, width: nat, height: nat,
                    scene: Scene, scene': Scene, h: int, newPos: Vec, oldArea: Rect)
    requires h < |scene| && scene' == MovedTo(scene, h, newPos)
    requires Composable(scene, width, height) && Composable(scene', width, height)
    requires Shown(screen, width, height, scene) && Shown(back, width, height, scene)
    requires Painted(back, back1, width, height, scene', oldArea)
    requires Flushed(screen, screen1, width, height, back1, oldArea)
    requires h < 0 ==> back2 == back1 && exists r :: Flushed(screen1, screen2, width, height, back2, r)
    requires h >= 0 ==>
      && oldArea == scene[h].Area() && Painted(back1, back2, width, height, scene'[h..], DrawnArea(scene'[h].Area(), WHOLE))
      && Flushed(screen1, screen2, width, height, back2, DrawnArea(scene'[h].Area(), WHOLE))
    ensures Shown(screen2, width, height, scene') && Shown(back2, width, height, scene')
  {
    hide Composable, Shown, Painted, Overlaid;
    if h >= 0 {
      MoveShows(screen, screen1, screen2, back, back1, back2, width, height, scene, scene', h);
    } else {
      RepaintKeeps(back, back1, width, height, scene, oldArea);
      FlushKeeps(screen, screen1, back1, width, height, scene, oldArea);
      var r :| Flushed(screen1, screen2, width, height, back2, r);
      FlushKeeps(screen1, screen2, back2, width, height, scene, r);
    }
  }

  /** A color written at a point of a window. */
  datatype Pixel = Pixel(pos: Vec, color: Color)

  /** The pixels lie in the window, and in the area, which is given within the window. */
  predicate AllWithin(pixels: seq<Pixel>, size: Vec, area: Rect) {
    forall i :: 0 <= i < |pixels| ==>
      Rect(Vec(0, 0), size).Has(pixels[i].pos.x, pixels[i].pos.y) && area.Has(pixels[i].pos.x, pixels[i].pos.y)
  }

  /** The images differ at most at points of the area. */
  ghost predicate SameOutside(before: Image, after: Image, width: nat, height: nat, area: Rect) {
    && IsImage(before, width, height) && IsImage(after, width, height)
    && forall x, y {:trigger At(after, x, y)} :: 0 <= x < width && 0 <= y < height && !area.Has(x, y) ==>
         At(after, x, y) == At(before, x, y)
  }

  /** Only the image of one layer differs, at points of the area, which is given within the layer. */
  ghost predicate Rewritten(scene: Scene, scene': Scene, h: nat, area: Rect) {
    && h < |scene| == |scene'| && AllValid(scene) && AllValid(scene') && scene' == scene[h := scene[h].(image := scene'[h].image)]
    && SameOutside(scene[h].image, scene'[h].image, scene[h].width, scene[h].height, area)
  }

  /** No pixel of the changed layer stops showing where nothing above it shows. */
  ghost predicate NothingVanished(scene: Scene, scene': Scene, h: nat, width: nat, height: nat)
    requires AllValid(scene) && AllValid(scene') && h < |scene| == |scene'|
  {
    forall x, y :: 0 <= x < width && 0 <= y < height ==> !Vanished(scene, scene', h, x, y)
  }

  /** In an opaque window that cannot happen. */
  lemma OpaqueStays(scene: Scene, scene': Scene, h: nat, area: Rect, width: nat, height: nat)
    requires Rewritten(scene, scene', h, area) && scene[h].transparent.None?
    ensures NothingVanished(scene, scene', h, width, height)
  {
    forall x, y | 0 <= x < width && 0 <= y < height
      ensures !Vanished(scene, scene', h, x, y)
    {
      if scene[h].Shows(x, y).Some? {
        SuffixValid(scene', h);
        ShownIsAny(scene', h, x, y);
      }
    }
  }

  /** An image after a pixel was written, and after several. */
  function Plot(image: Image, p: Pixel): Image {
    if 0 <= p.pos.y < |image| && 0 <= p.pos.x < |image[p.pos.y]| then image[p.pos.y := image[p.pos.y][p.pos.x := p.color]] else image
  }

  function Plotted(image: Image, pixels: seq<Pixel>): Image {
    if pixels == [] then image else Plot(Plotted(image, pixels[..|pixels| - 1]), pixels[|pixels| - 1])
  }

  lemma NothingPlotted(image: Image)
    ensures Plotted(image, []) == image
  {}

  lemma PlottedNext(image: Image, pixels: seq<Pixel>, i: nat)
    requires i < |pixels|
    ensures Plotted(image, pixels[..i + 1]) == Plot(Plotted(image, pixels[..i]), pixels[i])
  {
    assert pixels[..i + 1][..i] == pixels[..i];
  }

  lemma OneWritten(before: Image, image: Image, image': Image, width: nat, height: nat, area: Rect, p: Vec, c: Color)
    requires SameOutside(before, image, width, height, area) && 0 <= p.x < width && 0 <= p.y < height && area.Has(p.x, p.y)
    requires image' == image[p.y := image[p.y][p.x := c]]
    ensures SameOutside(before, image', width, height, area)
  {
    forall x, y | 0 <= x < width && 0 <= y < height
      ensures |image'| == height && |image'[y]| == width && (!area.Has(x, y) ==> At(image', x, y) == At(image, x, y))
    {}
  }

  lemma NotRewritten(scene: Scene, h: nat, area: Rect)
    requires h < |scene| && AllValid(scene)
    ensures Rewritten(scene, scene, h, area)
  {
    assert scene[h].Valid();
  }

  lemma RewrittenMore(scene: Scene, mid: Scene, scene': Scene, h: nat, area: Rect, p: Pixel)
    requires Rewritten(scene, mid, h, area) && area.Has(p.pos.x, p.pos.y) && h < |mid|
    requires mid[h].Valid() && 0 <= p.pos.y < mid[h].height && 0 <= p.pos.x < mid[h].width
    requires scene' == mid[h := mid[h].(image := mid[h].image[p.pos.y := mid[h].image[p.pos.y][p.pos.x := p.color]])]
    ensures Rewritten(scene, scene', h, area)
  {
    OneWritten(scene[h].image, mid[h].image, scene'[h].image, scene[h].width, scene[h].height, area, p.pos, p.color);
    hide SameOutside;
    assert SameOutside(scene[h].image, scene'[h].image, scene[h].width, scene[h].height, area);
    SameIsImage(scene[h].image, scene'[h].image, scene[h].width, scene[h].height, area);
  }

  lemma SameIsImage(before: Image, after: Image, width: nat, height: nat, area: Rect)
    requires SameOutside(before, after, width, height, area)
    ensures IsImage(after, width, height)
  {}

  /** The changed points on the screen. */
  lemma RewrittenIsRedrawn(scene: Scene, scene': Scene, h: nat, area: Rect)
    requires Rewritten(scene, scene', h, area)
    ensures Redrawn(scene, scene', h, Rect(area.pos.Plus(scene[h].pos), area.size))
  {}

  lemma DrawnIsShifted(windowArea: Rect, area: Rect)
    requires area.size.x >= 0 || area.size.y >= 0
    ensures DrawnArea(windowArea, area) == windowArea.And(Rect(area.pos.Plus(windowArea.pos), area.size))
  {}

  /** Where an area is empty nothing was changed, and everything may be drawn. */
  lemma NothingRewritten(scene: Scene, scene': Scene, h: nat, area: Rect)
    requires Rewritten(scene, scene', h, area) && area.size.x < 0 && area.size.y < 0
    ensures Redrawn(scene, scene', h, scene[h].Area())
    ensures DrawnArea(scene[h].Area(), area) == scene[h].Area().And(scene[h].Area())
  {}

  lemma RewrittenArea(scene: Scene, scene': Scene, h: nat, area: Rect)
    requires Rewritten(scene, scene', h, area)
    ensures h < |scene| == |scene'| && scene'[h].Area() == scene[h].Area() && AllValid(scene) && AllValid(scene')
  {}

  lemma RewritingShows(screen: Image, screen': Image, back: Image, back': Image, width: nat, height: nat,
                       scene: Scene, scene': Scene, h: nat, area: Rect)
    requires Composable(scene, width, height) && Composable(scene', width, height) && Rewritten(scene, scene', h, area)
    requires NothingVanished(scene, scene', h, width, height)
    requires Shown(screen, width, height, scene) && Shown(back, width, height, scene)
    requires Painted(back, back', width, height, scene'[h..], DrawnArea(scene[h].Area(), area))
    requires Flushed(screen, screen', width, height, back', DrawnArea(scene[h].Area(), area))
    ensures Shown(screen', width, height, scene') && Shown(back', width, height, scene')
  {
    hide Composable, Shown, Painted, Overlaid, Vanished, Redrawn, View.Shows, DrawnArea;
    if area.size.x >= 0 || area.size.y >= 0 {
      RewrittenIsRedrawn(scene, scene', h, area);
      DrawnIsShifted(scene[h].Area(), area);
      RedrawShows(screen, screen', back, back', width, height, scene, scene', h, Rect(area.pos.Plus(scene[h].pos), area.size));
    } else {
      NothingRewritten(scene, scene', h, area);
      RedrawShows(screen, screen', back, back', width, height, scene, scene', h, scene[h].Area());
    }
  }

  class LayerManager {
    const screen: FrameBuffer
    const back: FrameBuffer
    var layers: seq<Layer>
    var stack: seq<Layer>
    var latestId: nat

    constructor (screen: FrameBuffer)
      requires screen.Valid()
      ensures Valid() && layers == stack == [] && this.screen == screen && fresh(back) && fresh(back.rows)
    {
      this.screen := screen;
      back := new FrameBuffer(screen.width, screen.height, screen.format);
      layers, stack, latestId := [], [], 0;
    }

    /** Everything but the pixels of the two buffers. */
    ghost predicate Sound()
      reads this, layers, set l, o | l in layers && o in l.Parts() :: o
    {
      && screen.rows != back.rows
      && back.width == screen.width && back.height == screen.height && back.format == screen.format
      && Distinct(layers) && Distinct(stack) && (forall l :: l in stack ==> l in layers)
      && (forall l :: l in layers ==> l.id <= latestId)
      && Drawable(layers, screen.format, {this, screen.rows, back.rows})
    }

    ghost predicate Valid()
      reads this, screen.rows, back.rows, layers, set l, o | l in layers && o in l.Parts() :: o
    {
      screen.Valid() && back.Valid() && Sound()
    }

    ghost function SceneNow(): Scene
      reads this, stack, set l, o | l in stack && o in l.Parts() :: o
    {
      Looks(stack)
    }

    /** The screen and the back buffer show the scene. */
    ghost predicate Right()
      requires Valid()
      reads this, screen.rows, back.rows, layers, set l, o | l in layers && o in l.Parts() :: o
      reads stack, set l, o | l in stack && o in l.Parts() :: o
    {
      && Composable(SceneNow(), back.width, back.height)
      && Shown(screen.rows[..], back.width, back.height, SceneNow()) && Shown(back.rows[..], back.width, back.height, SceneNow())
    }

    lemma RightMeans()
      requires Valid()
      ensures Right() <==>
        && Composable(SceneNow(), back.width, back.height)
        && Shown(screen.rows[..], back.width, back.height, SceneNow()) && Shown(back.rows[..], back.width, back.height, SceneNow())
    {}

    lemma Ready(k: nat)
      requires Sound() && k < |stack|
      ensures stack[k].Valid(back.format) && {screen.rows, back.rows} !! stack[k].Parts()
    {
      assert stack[k] in layers;
    }

    /** One layer of the stack is drawn into the back buffer. */
    method DrawOne(k: nat, area: Rect)
      requires Valid() && k < |stack|
      modifies back.rows
      ensures Valid() && SceneNow() == old(SceneNow())
      ensures Drawn(old(back.rows[..]), back.rows[..], back.width, back.height, SceneNow()[k], area)
    {
      hide Distinct, Drawable, Layer.Valid, Layer.Look, Drawn;
      Ready(k);
      LookApart();
      stack[k].DrawTo(back, area);
    }

    lemma LookApart()
      requires Sound()
      ensures forall l :: l in layers ==> {this, screen.rows, back.rows} !! l.Parts()
    {
      forall l | l in layers
        ensures {this, screen.rows, back.rows} !! l.Parts()
      {
        var i :| 0 <= i < |layers| && layers[i] == l;
      }
    }

    /** Draws all layers within `area`. That keeps the screen right, and an area as large as the screen makes it right. */
    method Draw(area: Rect)
      requires Valid()
      modifies screen.rows, back.rows
      ensures Valid() && SceneNow() == old(SceneNow())
      ensures old(Right()) ==> Right()
      ensures Composable(SceneNow(), back.width, back.height) && Spans(area, back.width, back.height) ==> Right()
      ensures Painted(old(back.rows[..]), back.rows[..], back.width, back.height, SceneNow(), area)
      ensures Flushed(old(screen.rows[..]), screen.rows[..], back.width, back.height, back.rows[..], area)
    {
      hide Distinct, Drawable, Looks, Drawn, Painted, View.Shows, Right, Shown, Overlaid, Composable, Spans;
      ghost var before, shown, scene := back.rows[..], screen.rows[..], SceneNow();
      RightMeans();
      SliceEmpty(scene, 0);
      NothingPainted(before, back.width, back.height, area);
      for k := 0 to |stack|
        invariant Valid() && SceneNow() == scene && screen.rows[..] == shown
        invariant Painted(before, back.rows[..], back.width, back.height, scene[0..k], area)
        modifies back.rows
      {
        ghost var between := back.rows[..];
        DrawOne(k, area);
        OneMorePainted(before, between, back.rows[..], back.width, back.height, scene[0..k], scene[k], area);
        SliceGrows(scene, 0, k);
      }
      SliceEnds(scene, 0);
      ghost var after := back.rows[..];
      Flush(area);
      RightMeans();
      DrawingShows(shown, screen.rows[..], before, after, back.width, back.height, scene, area);
    }

    /** An area of the back buffer goes to the screen. */
    method Flush(area: Rect)
      requires Valid()
      modifies screen.rows
      ensures Valid() && SceneNow() == old(SceneNow()) && back.rows[..] == old(back.rows[..])
      ensures Flushed(old(screen.rows[..]), screen.rows[..], back.width, back.height, back.rows[..], area)
    {
      hide Distinct, Drawable, Looks;
      LookApart();
      var error := screen.Copy(area.pos, back, area);
    }

    /** Draws the part of one layer within `area`, and the layers above it there. For a layer that is not in the
        stack the area is never set, and some part of the back buffer goes to the screen. */
    method DrawLayer(id: nat, area: Rect)
      requires Valid() && forall l :: l in stack && l.id == id ==> l.window != null
      modifies screen.rows, back.rows
      ensures Valid() && SceneNow() == old(SceneNow())
      ensures HeightOf(stack, id) < 0 ==>
        && back.rows[..] == old(back.rows[..])
        && exists r :: Flushed(old(screen.rows[..]), screen.rows[..], back.width, back.height, back.rows[..], r)
      ensures HeightOf(stack, id) >= 0 ==>
        var h := HeightOf(stack, id);
        var r := DrawnArea(SceneNow()[h].Area(), area);
        && Painted(old(back.rows[..]), back.rows[..], back.width, back.height, SceneNow()[h..], r)
        && Flushed(old(screen.rows[..]), screen.rows[..], back.width, back.height, back.rows[..], r)
    {
      hide Distinct, Drawable, Looks, Drawn, Painted, View.Shows, Overlaid;
      ghost var before, shown, scene, h := back.rows[..], screen.rows[..], SceneNow(), HeightOf(stack, id);
      var draw, drawArea, windowArea: Rect := false, area, *;
      for k := 0 to |stack|
        invariant Valid() && SceneNow() == scene && screen.rows[..] == shown && draw == (0 <= h < k)
        invariant !draw ==> drawArea == area && back.rows[..] == before
        invariant draw ==> windowArea == DrawnArea(scene[h].Area(), area)
                           && Painted(before, back.rows[..], back.width, back.height, scene[h..k], windowArea)
        modifies back.rows
      {
        if stack[k].id == id {
          OnlyOne(k, id);
          windowArea := Rect(stack[k].pos, stack[k].window.Size());
          if drawArea.size.x >= 0 || drawArea.size.y >= 0 {
            drawArea := Rect(drawArea.pos.Plus(windowArea.pos), drawArea.size);
            windowArea := windowArea.And(drawArea);
          }
          draw := true;
          SliceEmpty(scene, h);
          NothingPainted(before, back.width, back.height, windowArea);
        }
        if draw {
          ghost var between := back.rows[..];
          DrawOne(k, windowArea);
          OneMorePainted(before, between, back.rows[..], back.width, back.height, scene[h..k], scene[k], windowArea);
          SliceGrows(scene, h, k);
        }
      }
      if draw {
        SliceEnds(scene, h);
      }
      Flush(windowArea);
      assert Flushed(shown, screen.rows[..], back.width, back.height, back.rows[..], windowArea);
    }

    lemma OnlyOne(k: nat, id: nat)
      requires Sound() && k < |stack| && stack[k].id == id
      ensures HeightOf(stack, id) == k
    {
      HeightIs(stack, k);
    }

    /** A new layer, not in the stack yet, with its window and place. */
    method NewLayer(window: Window, pos: Vec) returns (layer: Layer)
      requires Valid() && window.Valid() && window.shadow.format == screen.format
      requires screen.rows !in {window.data, window.shadow.rows} && back.rows !in {window.data, window.shadow.rows}
      modifies `layers, `latestId
      ensures Valid() && SceneNow() == old(SceneNow()) && fresh(layer) && layers == old(layers) + [layer]
      ensures layer.id == latestId == old(latestId) + 1 && layer.window == window && layer.pos == pos
      ensures HeightOf(stack, layer.id) == -1
    {
      hide Distinct, Drawable, Looks, HeightOf;
      LookApart();
      NewSound();
      latestId := latestId + 1;
      layer := new Layer(latestId);
      layer.window, layer.pos := window, pos;
      OneMore(layers, layer, screen.format, {this, screen.rows, back.rows});
      layers := layers + [layer];
    }

    lemma NewSound()
      requires Sound()
      ensures HeightOf(stack, latestId + 1) == -1
    {
      forall l | l in stack
        ensures l.id <= latestId
      {
        assert l in layers;
      }
    }

    method FindLayer(id: nat) returns (layer: Layer?)
      requires Valid()
      ensures Valid() && SceneNow() == old(SceneNow()) && Right() == old(Right())
      ensures layer == null <==> forall l :: l in layers ==> l.id != id
      ensures layer != null ==> layer in layers && layer.id == id
    {
      for k := 0 to |layers|
        invariant forall j :: 0 <= j < k ==> layers[j].id != id
      {
        if layers[k].id == id {
          return layers[k];
        }
      }
      return null;
    }

    method GetHeight(id: nat) returns (h: int)
      requires Valid()
      ensures Valid() && SceneNow() == old(SceneNow()) && Right() == old(Right()) && h == HeightOf(stack, id)
    {
      for k := 0 to |stack|
        invariant forall j :: 0 <= j < k ==> stack[j].id != id
      {
        if stack[k].id == id {
          OnlyOne(k, id);
          return k;
        }
      }
      return -1;
    }

    /** The topmost layer at a point of the screen, except one. */
    method FindLayerByPosition(pos: Vec, excluded: nat) returns (layer: Layer?)
      requires Valid()
      ensures layer == null ==> forall k :: 0 <= k < |stack| && stack[k].id != excluded ==> !SceneNow()[k].Area().Has(pos.x, pos.y)
      ensures layer != null ==>
        exists h :: 0 <= h < |stack| && stack[h] == layer && layer.id != excluded && SceneNow()[h].Area().Has(pos.x, pos.y) &&
          forall k :: h < k < |stack| && stack[k].id != excluded ==> !SceneNow()[k].Area().Has(pos.x, pos.y)
    {
      var h := |stack|;
      while h > 0
        invariant 0 <= h <= |stack|
        invariant forall k :: h <= k < |stack| && stack[k].id != excluded ==> !SceneNow()[k].Area().Has(pos.x, pos.y)
      {
        h := h - 1;
        var l := stack[h];
        if l.id != excluded && l.window != null && Rect(l.pos, l.window.Size()).Has(pos.x, pos.y) {
          return l;
        }
      }
      return null;
    }

    // ----- changing what a window shows

    /** The layer shows a window that no other layer has to do with. */
    ghost predicate Owns(layer: Layer)
      reads this, layers, set l, o | l in layers && o in l.Parts() :: o
    {
      && layer in layers && layer in stack && layer.window != null
      && forall l :: l in layers && l != layer ==> l.Parts() !! layer.Parts()
    }

    lemma OwnLook(layer: Layer)
      requires Valid() && Owns(layer)
      ensures layer.Valid(screen.format) && {this, screen.rows, back.rows} !! layer.Parts()
      ensures var h := HeightOf(stack, layer.id); h >= 0 && stack[h] == layer && SceneNow()[h] == layer.Look()
      ensures forall k :: 0 <= k < |stack| && k != HeightOf(stack, layer.id) ==> stack[k] != layer && stack[k] in layers
    {
      InStack(layer);
      LookApart();
      var i :| 0 <= i < |layers| && layers[i] == layer;
    }

    twostate lemma StillDrawable(layer: Layer)
      requires old(Drawable(layers, screen.format, {this, screen.rows, back.rows})) && layers == old(layers)
      requires layer.Valid(screen.format) && layer.Parts() == old(layer.Parts())
      requires forall l :: l in layers && l != layer ==>
        l.Parts() == old(l.Parts()) && (old(l.Valid(screen.format)) ==> l.Valid(screen.format))
      ensures Drawable(layers, screen.format, {this, screen.rows, back.rows})
    {}

    /** Writes one pixel into the window of a layer. */
    method WritePixel(layer: Layer, p: Pixel)
      requires Valid() && Owns(layer) && Rect(Vec(0, 0), layer.window.Size()).Has(p.pos.x, p.pos.y)
      modifies layer.window.data, layer.window.shadow.rows
      ensures Valid() && Owns(layer) && layer.window.Size() == old(layer.window.Size())
      ensures var h, scene := HeightOf(stack, layer.id), old(SceneNow());
        && 0 <= h < |scene| && scene[h].Valid() && 0 <= p.pos.y < scene[h].height && 0 <= p.pos.x < scene[h].width
        && SceneNow() == scene[h := scene[h].(image := scene[h].image[p.pos.y := scene[h].image[p.pos.y][p.pos.x := p.color]])]
        && SceneNow()[h].image == Plot(scene[h].image, p)
    {
      hide Distinct, Looks, HeightOf, Drawable, View.Shows;
      ghost var scene, h := SceneNow(), HeightOf(stack, layer.id);
      OwnLook(layer);
      layer.window.Write(p.pos, p.color);
      forall l | l in layers && l != layer
        ensures l.Look() == old(l.Look()) && l.Parts() == old(l.Parts()) && (old(l.Valid(screen.format)) ==> l.Valid(screen.format))
      {}
      StillDrawable(layer);
      forall k | 0 <= k < |stack| && k != h
        ensures stack[k].Look() == scene[k]
      {}
    }

    lemma SceneValid()
      requires Valid()
      ensures AllValid(SceneNow())
    {
      forall k | 0 <= k < |stack|
        ensures SceneNow()[k].Valid()
      {
        Ready(k);
      }
    }

    /** Writes pixels into the window of a layer. */
    method WritePixels(layer: Layer, pixels: seq<Pixel>, ghost area: Rect)
      requires Valid() && Owns(layer) && AllWithin(pixels, layer.window.Size(), area)
      modifies layer.window.data, layer.window.shadow.rows
      ensures Valid() && HeightOf(stack, layer.id) >= 0
      ensures Rewritten(old(SceneNow()), SceneNow(), HeightOf(stack, layer.id), area)
      ensures SceneNow()[HeightOf(stack, layer.id)].image == Plotted(old(SceneNow()[HeightOf(stack, layer.id)].image), pixels)
    {
      hide Plot, Plotted;
      hide Distinct, Looks, HeightOf, Rewritten, SameOutside, Layer.Look, Layer.Valid, Drawable;
      ghost var scene, h := SceneNow(), HeightOf(stack, layer.id);
      var window := layer.window;
      OwnLook(layer);
      SceneValid();
      NotRewritten(scene, h, area);
      NothingPlotted(scene[h].image);
      for i := 0 to |pixels|
        invariant Valid() && Owns(layer) && layer.window == window && Rewritten(scene, SceneNow(), h, area)
        invariant h < |SceneNow()| && SceneNow()[h].image == Plotted(scene[h].image, pixels[..i])
      {
        ghost var mid := SceneNow();
        PlottedNext(scene[h].image, pixels, i);
        WritePixel(layer, pixels[i]);
        RewrittenMore(scene, mid, SceneNow(), h, area, pixels[i]);
      }
      assert pixels[..|pixels|] == pixels;
    }

    /** A program writes pixels into its window and asks for an area of it, given within the window, to be drawn: if all
        pixels lie in the area, the screen is right again, unless a pixel of a transparent window vanished. */
    method WriteAndDraw(layer: Layer, pixels: seq<Pixel>, area: Rect)
      requires Valid() && Right() && Owns(layer) && AllWithin(pixels, layer.window.Size(), area)
      modifies layer.window.data, layer.window.shadow.rows, screen.rows, back.rows
      ensures Valid() && HeightOf(stack, layer.id) >= 0
      ensures Rewritten(old(SceneNow()), SceneNow(), HeightOf(stack, layer.id), area)
      ensures SceneNow()[HeightOf(stack, layer.id)].image == Plotted(old(SceneNow()[HeightOf(stack, layer.id)].image), pixels)
      ensures Composable(SceneNow(), back.width, back.height) ==>
        NothingVanished(old(SceneNow()), SceneNow(), HeightOf(stack, layer.id), back.width, back.height) ==> Right()
    {
      hide Distinct, Drawable, Looks, HeightOf, Right, Composable, Shown, Painted, Overlaid, DrawnArea, Rewritten, NothingVanished, Plotted;
      hide Layer.Look, Layer.Valid, SameOutside;
      ghost var screen0, back0, scene, h := screen.rows[..], back.rows[..], SceneNow(), HeightOf(stack, layer.id);
      RightMeans();
      OwnLook(layer);
      WritePixels(layer, pixels, area);
      OwnWindow(layer);
      ghost var scene' := SceneNow();
      DrawLayer(layer.id, area);
      RightMeans();
      RewrittenArea(scene, scene', h, area);
      if Composable(scene', back.width, back.height) && NothingVanished(scene, scene', h, back.width, back.height) {
        RewritingShows(screen0, screen.rows[..], back0, back.rows[..], back.width, back.height, scene, scene', h, area);
      }
    }

    lemma OwnWindow(layer: Layer)
      requires Valid() && layer in layers && layer.window != null
      ensures forall l :: l in stack && l.id == layer.id ==> l.window != null
    {
      OnlyLayer(layer.id);
    }

    // ----- moving

    lemma OnlyLayer(id: nat)
      requires Sound()
      ensures forall l, m :: l in layers && m in layers && l.id == m.id == id ==> l == m
    {}

    lemma InStack(layer: Layer)
      requires Sound() && layer in layers
      ensures forall k :: 0 <= k < |stack| ==> (stack[k] == layer <==> k == HeightOf(stack, layer.id))
    {
      forall k | 0 <= k < |stack|
        ensures stack[k] == layer <==> k == HeightOf(stack, layer.id)
      {
        HeightIs(stack, k);
        if stack[k].id == layer.id {
          OnlyLayer(layer.id);
        }
      }
    }

    lemma LookOf(layer: Layer)
      requires Sound() && layer in layers && layer.window != null
      ensures layer.window.Valid()
      ensures var h := HeightOf(stack, layer.id); h >= 0 ==> SceneNow()[h].Area() == Rect(layer.pos, layer.window.Size())
    {
      InStack(layer);
    }

    /** Only the place of one layer changes. */
    method Place(layer: Layer, newPos: Vec)
      requires Valid() && layer in layers
      modifies layer`pos
      ensures Valid() && layer.pos == newPos
      ensures SceneNow() == MovedTo(old(SceneNow()), HeightOf(stack, layer.id), newPos)
    {
      hide Distinct, Looks;
      ghost var before, h := SceneNow(), HeightOf(stack, layer.id);
      InStack(layer);
      layer.Move(newPos);
      forall k | 0 <= k < |stack|
        ensures stack[k].Look() == if k == h then before[k].(pos := newPos) else before[k]
      {
      }
    }

    /** Moves a layer and draws what changed. If the screen was right and the bottom layer still covers it, it is right
        again. */
    method Move(id: nat, newPos: Vec)
      requires Valid() && exists l :: l in layers && l.id == id && l.window != null
      modifies screen.rows, back.rows, layers`pos
      ensures Valid() && (forall l :: l in layers ==> l.pos == if l.id == id then newPos else old(l.pos))
      ensures SceneNow() == MovedTo(old(SceneNow()), HeightOf(stack, id), newPos)
      ensures old(Right()) && Composable(SceneNow(), back.width, back.height) ==> Right()
    {
      hide Distinct, Drawable, Looks, Composable, Shown, Painted, Overlaid, MovedTo, DrawnArea, View.Area;
      hide Right;
      ghost var screen0, back0, scene, h := screen.rows[..], back.rows[..], SceneNow(), HeightOf(stack, id);
      RightMeans();
      OnlyLayer(id);
      var layer := FindLayer(id);
      LookOf(layer);
      var windowSize, oldPos := layer.window.Size(), layer.pos;
      Place(layer, newPos);
      Draw(Rect(oldPos, windowSize));
      ghost var screen1, back1 := screen.rows[..], back.rows[..];
      DrawLayer(id, WHOLE);
      RightMeans();
      if old(Right()) && Composable(SceneNow(), back.width, back.height) {
        MovingShows(screen0, screen1, screen.rows[..], back0, back1, back.rows[..], back.width, back.height,
                    scene, SceneNow(), h, newPos, Rect(oldPos, windowSize));
      }
    }

    method MoveRelative(id: nat, diff: Vec)
      requires Valid() && exists l :: l in layers && l.id == id && l.window != null
      modifies screen.rows, back.rows, layers`pos
      ensures Valid() && (forall l :: l in layers ==> l.pos == if l.id == id then old(l.pos).Plus(diff) else old(l.pos))
      ensures old(Right()) && Composable(SceneNow(), back.width, back.height) ==> Right()
    {
      hide Distinct, Drawable, Looks, Right, Composable;
      ghost var right := Right();
      OnlyLayer(id);
      var layer := FindLayer(id);
      Move(id, layer.pos.Plus(diff));
    }

    // ----- the order of the layers

    method Erase(h: nat)
      requires Valid() && h < |stack|
      modifies `stack
      ensures Valid() && SceneNow() == Without(old(SceneNow()), h) && old(stack)[h].Look() == old(stack[h].Look())
      ensures stack == Without(old(stack), h) && |stack| == |old(stack)| - 1 && HeightOf(stack, old(stack)[h].id) == -1
    {
      hide Distinct, Drawable, Looks, HeightOf, Without;
      ThisApart();
      WithoutDistinct(stack, h);
      LooksWithout(stack, h);
      stack := stack[..h] + stack[h + 1..];
    }

    method Insert(h: nat, layer: Layer)
      requires Valid() && h <= |stack| && layer in layers && HeightOf(stack, layer.id) == -1
      modifies `stack
      ensures Valid() && Distinct(stack) && |stack| == |old(stack)| + 1 && stack[h] == layer
      ensures Without(stack, h) == old(stack)
      ensures Without(SceneNow(), h) == old(SceneNow()) && SceneNow()[h] == old(layer.Look())
    {
      hide Distinct, Drawable, Looks, HeightOf, Without;
      ThisApart();
      InsertDistinct(stack, layer, h);
      LooksWithout(stack[..h] + [layer] + stack[h..], h);
      stack := stack[..h] + [layer] + stack[h..];
    }

    method Hide(id: nat)
      requires Valid()
      modifies `stack
      ensures Valid() && HeightOf(stack, id) == -1
      ensures stack == if old(HeightOf(stack, id)) < 0 then old(stack) else Without(old(stack), old(HeightOf(stack, id)))
      ensures SceneNow() == if old(HeightOf(stack, id)) < 0 then old(SceneNow()) else Without(old(SceneNow()), old(HeightOf(stack, id)))
    {
      hide Distinct, Drawable, Looks, HeightOf, Without, Valid;
      var h := GetHeight(id);
      if h >= 0 {
        Erase(h);
      }
    }

    /** Puts a layer at a height, or hides it when that is negative. */
    method UpDown(id: nat, newHeight: int)
      requires Valid() && (newHeight >= 0 ==> exists l :: l in layers && l.id == id)
      modifies `stack
      ensures Valid()
      ensures newHeight < 0 ==>
        stack == if old(HeightOf(stack, id)) < 0 then old(stack) else Without(old(stack), old(HeightOf(stack, id)))
      ensures newHeight >= 0 ==>
        var h := old(HeightOf(stack, id));
        var h' := Min(newHeight, if h < 0 then |old(stack)| else |old(stack)| - 1);
        Inserted(old(stack), stack, id, h') && Restacked(old(SceneNow()), h, SceneNow(), h')
    {
      hide Distinct, Drawable, Looks, HeightOf, Without;
      if newHeight < 0 {
        Hide(id);
        return;
      }
      var height := Min(newHeight, |stack|);
      OnlyLayer(id);
      var layer := FindLayer(id);
      var oldPos := GetHeight(id);
      if oldPos < 0 {
        Insert(height, layer);
        return;
      }
      if height == |stack| {
        height := height - 1;
      }
      Reorder(layer, oldPos, height);
    }

    /** A layer of the stack gets another height. */
    method Reorder(layer: Layer, oldPos: nat, height: nat)
      requires Valid() && layer in layers && oldPos == HeightOf(stack, layer.id) && height < |stack|
      modifies `stack
      ensures Valid()
      ensures Inserted(old(stack), stack, layer.id, height) && Restacked(old(SceneNow()), oldPos, SceneNow(), height)
    {
      hide Distinct, Drawable, Looks, HeightOf, Without, Layer.Look, Layer.Valid;
      InStack(layer);
      Erase(oldPos);
      Insert(height, layer);
    }

    method Restack(id: nat, mouse: nat)
      requires Valid() && (exists l :: l in layers && l.id == id) && id != mouse && HeightOf(stack, mouse) >= 0
      modifies `stack
      ensures Valid() && HeightOf(stack, mouse) > 0 && HeightOf(stack, id) == HeightOf(stack, mouse) - 1
      ensures Inserted(old(stack), stack, id, HeightOf(stack, mouse) - 1)
      ensures Restacked(old(SceneNow()), old(HeightOf(stack, id)), SceneNow(), HeightOf(stack, id))
    {
      hide Distinct, Drawable, Looks, HeightOf, Inserted, Without, Right, Valid, Restacked;
      ghost var stack0, scene0, h0 := stack, SceneNow(), HeightOf(stack, id);
      SoundStack();
      UpDown(id, 0);
      ghost var stack1, scene1 := stack, SceneNow();
      StillThere(stack0, stack1, id, 0, mouse);
      var mouseHeight := GetHeight(mouse);
      NotBoth(stack1, id, mouse);
      UpDown(id, mouseHeight - 1);
      RaisedOver(stack0, stack1, stack, id, mouse);
      RestackedTwice(scene0, h0, scene1, 0, SceneNow(), mouseHeight - 1);
    }

    lemma HasWindow(id: nat)
      requires Valid() && (exists l :: l in layers && l.id == id && l.window != null)
      ensures forall l :: l in stack && l.id == id ==> l.window != null
    {
      OnlyLayer(id);
    }

    lemma ThisApart()
      requires Valid()
      ensures forall l :: l in layers ==> this !in l.Parts()
    {
      LookApart();
    }

    lemma SoundStack()
      requires Valid()
      ensures Distinct(stack)
    {}

    /** Brings a layer directly below the mouse layer and draws it. */
    method Raise(id: nat, mouse: nat)
      requires Valid() && (exists l :: l in layers && l.id == id && l.window != null)
      requires id != mouse && HeightOf(stack, mouse) >= 0
      modifies `stack, screen.rows, back.rows
      ensures Valid() && HeightOf(stack, mouse) > 0 && Inserted(old(stack), stack, id, HeightOf(stack, mouse) - 1)
      ensures old(Right()) && Composable(SceneNow(), back.width, back.height) ==> Right()
    {
      hide Distinct, Drawable, Looks, HeightOf, Right, Composable, Shown, Painted, Overlaid, DrawnArea, View.Area, Inserted, Restacked, Valid;
      ghost var screen0, back0, scene, h := screen.rows[..], back.rows[..], SceneNow(), HeightOf(stack, id);
      RightMeans();
      Restack(id, mouse);
      HasWindow(id);
      ghost var scene' := SceneNow();
      DrawLayer(id, WHOLE);
      RightMeans();
      if old(Right()) && Composable(SceneNow(), back.width, back.height) {
        WholeDrawn(scene'[HeightOf(stack, id)].Area());
        RestackShows(screen0, screen.rows[..], back0, back.rows[..], back.width, back.height, scene, h, scene', HeightOf(stack, id));
      }
    }

    /** Removes a layer for good and repaints where it was. */
    method Close(id: nat) returns (found: bool)
      requires Valid() && forall l :: l in layers && l.id == id ==> l.window != null
      modifies `stack, `layers, screen.rows, back.rows
      ensures Valid() && HeightOf(stack, id) == HeightOf(layers, id) == -1 && found == (old(HeightOf(layers, id)) >= 0)
      ensures stack == if old(HeightOf(stack, id)) < 0 then old(stack) else Without(old(stack), old(HeightOf(stack, id)))
      ensures layers == if found then Without(old(layers), old(HeightOf(layers, id))) else old(layers)
      ensures old(Right()) && Composable(SceneNow(), back.width, back.height) ==> Right()
    {
      hide Distinct, Drawable, Looks, HeightOf, Right, Composable, Shown, Painted, Overlaid, View.Area, Without;
      ghost var screen0, back0, scene, h := screen.rows[..], back.rows[..], SceneNow(), HeightOf(stack, id);
      RightMeans();
      var layer := FindLayer(id);
      if layer == null {
        return false;
      }
      LookOf(layer);
      var pos, size := layer.pos, layer.window.Size();
      RemoveLayer(id);
      ghost var scene' := SceneNow();
      Draw(Rect(pos, size));
      RightMeans();
      if old(Right()) && Composable(SceneNow(), back.width, back.height) {
        ClosingShows(screen0, screen.rows[..], back0, back.rows[..], back.width, back.height, scene, h, scene', Rect(pos, size));
      }
      found := true;
    }

    method RemoveLayer(id: nat)
      requires Valid()
      modifies `stack, `layers
      ensures Valid() && HeightOf(stack, id) == HeightOf(layers, id) == -1
      ensures stack == if old(HeightOf(stack, id)) < 0 then old(stack) else Without(old(stack), old(HeightOf(stack, id)))
      ensures SceneNow() == if old(HeightOf(stack, id)) < 0 then old(SceneNow()) else Without(old(SceneNow()), old(HeightOf(stack, id)))
      ensures layers == if old(HeightOf(layers, id)) < 0 then old(layers) else Without(old(layers), old(HeightOf(layers, id)))
    {
      hide Distinct, Drawable, Looks, HeightOf, Kept, Without, Valid;
      Hide(id);
      Forget(id);
    }

    method Forget(id: nat)
      requires Valid() && HeightOf(stack, id) == -1
      modifies `layers
      ensures Valid() && HeightOf(layers, id) == -1 && SceneNow() == old(SceneNow())
      ensures layers == if old(HeightOf(layers, id)) < 0 then old(layers) else Without(old(layers), old(HeightOf(layers, id)))
    {
      hide Distinct, Drawable, Looks, HeightOf, Kept, Without;
      LookApart();
      var kept := KeepOthers(id);
      StillSound(kept, id);
      layers := kept;
    }

    method KeepOthers(id: nat) returns (kept: seq<Layer>)
      ensures kept == Kept(layers, id)
    {
      kept := [];
      for k := 0 to |layers|
        invariant kept == Kept(layers[..k], id)
      {
        assert layers[..k + 1][..k] == layers[..k];
        if layers[k].id != id {
          kept := kept + [layers[k]];
        }
      }
      assert layers[..|layers|] == layers;
    }

    lemma StillSound(kept: seq<Layer>, id: nat)
      requires Sound() && HeightOf(stack, id) == -1 && kept == Kept(layers, id)
      ensures Distinct(kept) && HeightOf(kept, id) == -1
      ensures Drawable(kept, screen.format, {this, screen.rows, back.rows})
      ensures (forall l :: l in stack ==> l in kept) && forall l :: l in kept ==> l in layers
      ensures kept == if HeightOf(layers, id) < 0 then layers else Without(layers, HeightOf(layers, id))
    {
      hide HeightOf, Kept;
      var h := HeightOf(layers, id);
      KeptIsWithout(layers, id);
      if h >= 0 {
        WithoutDistinct(layers, h);
        forall l | l in stack
          ensures l in kept
        {
          var p, k :| 0 <= p < |stack| && stack[p] == l && 0 <= k < |layers| && layers[k] == l;
          WithoutAt(layers, h, k);
        }
      }
    }
  }

  lemma WithoutDistinct(stack: seq<Layer>, h: nat)
    requires Distinct(stack) && h < |stack|
    ensures var after := stack[..h] + stack[h + 1..];
      && Distinct(after) && HeightOf(after, stack[h].id) == -1
      && (forall l :: l in after ==> l in stack) && after == Without(stack, h)
  {
  }

  lemma InsertDistinct(stack: seq<Layer>, layer: Layer, h: nat)
    requires Distinct(stack) && HeightOf(stack, layer.id) == -1 && h <= |stack|
    ensures var after := stack[..h] + [layer] + stack[h..];
      && Distinct(after) && after[h] == layer && Without(after, h) == stack
      && forall l :: l in after ==> l in stack || l == layer
  {
    hide HeightOf, Distinct;
    InsertedAt(stack, layer, h);
    StillDistinct(stack, stack[..h] + [layer] + stack[h..], layer, h);
  }

  lemma InsertedAt<T>(s: seq<T>, v: T, h: nat)
    requires h <= |s|
    ensures var after := s[..h] + [v] + s[h..];
      && Without(after, h) == s && forall k {:trigger after[k]} :: 0 <= k < |after| ==> after[k] == if k < h then s[k] else if k == h then v else s[k - 1]
  {
    var after := s[..h] + [v] + s[h..];
    assert after[..h] == s[..h];
    assert after[h + 1..] == s[h..];
  }

  lemma OneMore(layers: seq<Layer>, layer: Layer, format: PixelFormat, buffers: set<object>)
    requires Distinct(layers) && Drawable(layers, format, buffers)
    requires (forall l :: l in layers ==> l.id != layer.id) && layer.Valid(format) && layer.Parts() !! buffers
    ensures Distinct(layers + [layer]) && Drawable(layers + [layer], format, buffers)
  {}

  lemma StillDistinct(stack: seq<Layer>, after: seq<Layer>, layer: Layer, h: nat)
    requires Distinct(stack) && HeightOf(stack, layer.id) == -1 && h <= |stack| == |after| - 1
    requires forall k {:trigger after[k]} :: 0 <= k < |after| ==> after[k] == if k < h then stack[k] else if k == h then layer else stack[k - 1]
    ensures Distinct(after) && forall l :: l in after ==> l in stack || l == layer
  {
    hide HeightOf;
    forall i, j | 0 <= i < j < |after|
      ensures after[i].id != after[j].id
    {
      assert after[i] == if i < h then stack[i] else if i == h then layer else stack[i - 1];
      assert after[j] == if j < h then stack[j] else if j == h then layer else stack[j - 1];
    }
  }

  lemma WithoutAt<T>(s: seq<T>, h: nat, k: nat)
    requires h < |s| && k < |s| && k != h
    ensures |Without(s, h)| == |s| - 1 && Without(s, h)[if k < h then k else k - 1] == s[k]
  {}

  /** Another layer is still there after an insertion. */
  lemma StillThere(before: seq<Layer>, after: seq<Layer>, id: nat, h: nat, other: nat)
    requires Distinct(before) && Inserted(before, after, id, h) && HeightOf(before, other) >= 0 && other != id
    ensures HeightOf(after, other) >= 0 && HeightOf(after, id) == h
  {
    hide HeightOf, Distinct;
    var p, q := HeightOf(before, other), HeightOf(before, id);
    var rest := Without(after, h);
    HeightIs(after, h);
    var r := if q < 0 || p < q then p else p - 1;
    if q >= 0 {
      WithoutAt(before, q, p);
    }
    assert rest[r].id == other;
    HeightIs(after, if r < h then r else r + 1);
  }

  lemma NotBoth(stack: seq<Layer>, id: nat, other: nat)
    requires id != other && HeightOf(stack, id) == 0 && HeightOf(stack, other) >= 0
    ensures HeightOf(stack, other) > 0
  {}

  /** Down to the bottom and then up below the mouse layer. */
  lemma RaisedOver(stack0: seq<Layer>, stack1: seq<Layer>, stack2: seq<Layer>, id: nat, mouse: nat)
    requires Inserted(stack0, stack1, id, 0) && HeightOf(stack1, id) == 0 && HeightOf(stack1, mouse) > 0
    requires Inserted(stack1, stack2, id, HeightOf(stack1, mouse) - 1)
    ensures HeightOf(stack2, mouse) == HeightOf(stack1, mouse) && HeightOf(stack2, id) == HeightOf(stack2, mouse) - 1
    ensures Inserted(stack0, stack2, id, HeightOf(stack2, mouse) - 1)
  {
    hide HeightOf, Distinct;
    var m := HeightOf(stack1, mouse) - 1;
    HeightIs(stack2, m);
    WithoutAt(stack1, 0, m + 1);
    assert Without(stack2, m)[m] == stack2[m + 1];
    HeightIs(stack2, m + 1);
  }

  lemma RestackedTwice(scene0: Scene, h0: int, scene1: Scene, h1: nat, scene2: Scene, h2: nat)
    requires Restacked(scene0, h0, scene1, h1) && Restacked(scene1, h1, scene2, h2)
    ensures Restacked(scene0, h0, scene2, h2)
  {}

  lemma WithoutIndex<T>(s: seq<T>, h: nat)
    requires h < |s|
    ensures |Without(s, h)| == |s| - 1
    ensures forall k {:trigger Without(s, h)[k]} :: 0 <= k < |s| - 1 ==> Without(s, h)[k] == s[if k < h then k else k + 1]
  {}

  lemma LooksWithout(stack: seq<Layer>, h: nat)
    requires h < |stack|
    ensures Looks(Without(stack, h)) == Without(Looks(stack), h)
  {
    hide Layer.Look, Looks, Without;
    var a, b := Looks(Without(stack, h)), Without(Looks(stack), h);
    WithoutIndex(stack, h);
    WithoutIndex(Looks(stack), h);
    forall k | 0 <= k < |stack| - 1
      ensures a[k] == b[k]
    {
      assert a[k] == Without(stack, h)[k].Look();
    }
  }

  ghost function Kept(layers: seq<Layer>, id: nat): (kept: seq<Layer>)
  {
    if layers == [] then []
    else
      var last := layers[|layers| - 1];
      Kept(layers[..|layers| - 1], id) + if last.id == id then [] else [last]
  }

  lemma {:induction false} KeptIsWithout(layers: seq<Layer>, id: nat)
    requires Distinct(layers)
    ensures Kept(layers, id) == if HeightOf(layers, id) < 0 then layers else Without(layers, HeightOf(layers, id))
  {
    if layers == [] {
    } else {
      hide HeightOf, Distinct, Without;
      var n := |layers| - 1;
      PrefixHeight(layers);
      KeptIsWithout(layers[..n], id);
      WithoutLast(layers, HeightOf(layers, id));
    }
  }

  lemma PrefixHeight(layers: seq<Layer>)
    requires Distinct(layers) && layers != []
    ensures var n := |layers| - 1;
      && Distinct(layers[..n])
      && forall id :: HeightOf(layers[..n], id) == if HeightOf(layers, id) < n then HeightOf(layers, id) else -1
  {
    hide HeightOf;
    var n := |layers| - 1;
    forall id: nat
      ensures HeightOf(layers[..n], id) == if HeightOf(layers, id) < n then HeightOf(layers, id) else -1
    {
      var h := HeightOf(layers[..n], id);
      if h >= 0 {
        HeightIs(layers, h);
      }
    }
  }

  lemma WithoutLast<T>(s: seq<T>, h: int)
    requires s != [] && h < |s|
    ensures var n := |s| - 1;
      && (h < 0 ==> s == s[..n] + [s[n]]) && (h == n ==> Without(s, h) == s[..n])
      && (0 <= h < n ==> Without(s, h) == Without(s[..n], h) + [s[n]])
  {}

  lemma ClosingShows(screen: Image, screen': Image, back: Image, back': Image, width: nat, height: nat,
                     scene: Scene, h: int, scene': Scene, area: Rect)
    requires h < |scene| && scene' == if h < 0 then scene else Without(scene, h)
    requires h >= 0 ==> area == scene[h].Area()
    requires Composable(scene, width, height) && Composable(scene', width, height)
    requires Shown(screen, width, height, scene) && Shown(back, width, height, scene)
    requires Painted(back, back', width, height, scene', area) && Flushed(screen, screen', width, height, back', area)
    ensures Shown(screen', width, height, scene') && Shown(back', width, height, scene')
  {
    hide Composable, Shown, Painted, Overlaid, Without;
    if h >= 0 {
      DisappearShows(screen, screen', back, back', width, height, scene, h, scene');
    } else {
      DrawingShows(screen, screen', back, back', width, height, scene, area);
    }
  }
}
