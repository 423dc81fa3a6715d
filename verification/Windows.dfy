/** Windows (kernel/window.cpp): pixels kept twice, and drawn opaque or with one transparent color. */
module Windows {
  import opened Basics
  import opened Graphics
  import opened FrameBuffers

  /** What a window at a place looks like. */
  datatype View = View(pos: Vec, width: nat, height: nat, image: Image, transparent: Option<Color>) {
    ghost predicate Valid() {
      IsImage(image, width, height)
    }

    function Area(): Rect {
      Rect(pos, Vec(width, height))
    }

    /** The color shown at a point of the screen, if any. */
    ghost function Shows(x: int, y: int): Option<Color>
      requires Valid()
    {
      if !Area().Has(x, y) then None
      else
        var c := At(image, x - pos.x, y - pos.y);
        if transparent == Some(c) then None else Some(c)
    }

    /** Drawing within an area touches a point: a transparent window is always drawn as a whole. */
    predicate Touches(area: Rect, x: int, y: int) {
      transparent.Some? || area.Has(x, y)
    }
  }

  /** The window is drawn over an image. */
  ghost predicate Drawn(before: Image, after: Image, width: nat, height: nat, v: View, area: Rect) {
    && IsImage(before, width, height) && IsImage(after, width, height) && v.Valid()
    && forall x, y {:trigger At(after, x, y)} :: 0 <= x < width && 0 <= y < height ==>
         At(after, x, y) == if v.Touches(area, x, y) && v.Shows(x, y).Some? then v.Shows(x, y).value else At(before, x, y)
  }

  /** A row after a transparent window was drawn over it. */
  ghost function TransparentRow(row: seq<Color>, v: View, y: int, upTo: int): (r: seq<Color>)
    requires v.Valid()
    ensures |r| == |row|
  {
    seq(|row|, x requires 0 <= x < |row| => if x < upTo && v.Shows(x, y).Some? then v.Shows(x, y).value else row[x])
  }

  class Window {
    const width: nat
    const height: nat
    const data: array<seq<Color>>
    const shadow: FrameBuffer
    var transparent: Option<Color>

    constructor (width: nat, height: nat, format: PixelFormat)
      ensures Valid() && fresh(data) && fresh(shadow) && fresh(shadow.rows) && transparent == None
      ensures this.width == width && this.height == height && shadow.format == format && data[..] == shadow.rows[..]
    {
      this.width, this.height, transparent := width, height, None;
      data := new seq<Color>[height](_ => BlackRow(width));
      shadow := new FrameBuffer(width, height, format);
      new;
      assert forall y :: 0 <= y < height ==> data[y] == shadow.rows[y];
      assert data[..] == shadow.rows[..];
    }

    ghost predicate Valid()
      reads data, shadow.rows
    {
      && data.Length == height && IsImage(data[..], width, height)
      && shadow.Valid() && shadow.width == width && shadow.height == height && shadow.rows != data
    }

    /** What the window shows at `pos`: an opaque window its shadow buffer, a transparent one its own pixels. */
    ghost function ViewAt(pos: Vec): View
      reads this, data, shadow.rows
    {
      View(pos, width, height, if transparent.Some? then data[..] else shadow.rows[..], transparent)
    }

    function Size(): Vec {
      Vec(width, height)
    }

    /** One pixel, in both buffers: the two stay equal. */
    method Write(pos: Vec, c: Color)
      requires Valid() && Rect(Vec(0, 0), Size()).Has(pos.x, pos.y)
      modifies data, shadow.rows
      ensures Valid()
      ensures data[..] == old(data[..])[pos.y := old(data[pos.y])[pos.x := c]]
      ensures shadow.rows[..] == old(shadow.rows[..])[pos.y := old(shadow.rows[pos.y])[pos.x := c]]
      ensures old(data[..]) == old(shadow.rows[..]) ==> data[..] == shadow.rows[..]
    {
      data[pos.y] := data[pos.y][pos.x := c];
      shadow.Write(pos.x, pos.y, c);
    }

    /** Draws the window at `pos`: an opaque one within `area`, a transparent one as a whole. */
    method DrawTo(dst: FrameBuffer, pos: Vec, area: Rect)
      requires Valid() && dst.Valid() && dst.rows != data && dst.rows != shadow.rows && dst.format == shadow.format
      modifies dst.rows
      ensures dst.Valid() && Drawn(old(dst.rows[..]), dst.rows[..], dst.width, dst.height, ViewAt(pos), area)
    {
      if transparent.None? {
        var windowArea := Rect(pos, Size());
        var intersection := area.And(windowArea);
        ghost var before := dst.rows[..];
        IntersectionHas(area, windowArea);
        if intersection.size.x > 0 && intersection.size.y > 0 {
          var error := dst.Copy(intersection.pos, shadow, Rect(intersection.pos.Minus(pos), intersection.size));
          OverlaidIsDrawn(before, dst.rows[..], dst.width, dst.height, ViewAt(pos), area, intersection);
        }
        return;
      }
      DrawTransparent(dst, pos);
    }

    /** The loops over the pixels of a transparent window that lie on the screen. */
    method DrawTransparent(dst: FrameBuffer, pos: Vec)
      requires Valid() && dst.Valid() && dst.rows != data && dst.rows != shadow.rows && transparent.Some?
      modifies dst.rows
      ensures dst.Valid() && forall area :: Drawn(old(dst.rows[..]), dst.rows[..], dst.width, dst.height, ViewAt(pos), area)
    {
      hide TransparentRow, View.Shows;
      ghost var before, v := dst.rows[..], ViewAt(pos);
      var y := Max(0, 0 - pos.y);
      while y < Min(height, dst.height - pos.y)
        invariant Max(0, 0 - pos.y) <= y && dst.Valid() && ViewAt(pos) == v
        invariant forall k :: 0 <= k < dst.height ==>
          dst.rows[k] == if k < pos.y + y && pos.y <= k then TransparentRow(before[k], v, k, dst.width) else before[k]
        decreases height - y
      {
        DrawTransparentRow(dst, pos, y);
        y := y + 1;
      }
      TransparentIsDrawn(before, dst.rows[..], dst.width, dst.height, v);
    }

    method DrawTransparentRow(dst: FrameBuffer, pos: Vec, y: int)
      requires Valid() && dst.Valid() && dst.rows != data && dst.rows != shadow.rows && transparent.Some?
      requires 0 <= y < height && 0 <= pos.y + y < dst.height
      modifies dst.rows
      ensures dst.Valid()
      ensures dst.rows[..] == old(dst.rows[..])[pos.y + y := TransparentRow(old(dst.rows[pos.y + y]), ViewAt(pos), pos.y + y, dst.width)]
    {
      hide TransparentRow;
      ghost var before, v, sy := dst.rows[..], ViewAt(pos), pos.y + y;
      var x := Max(0, 0 - pos.x);
      RowStarts(before[sy], v, sy, pos.x + x);
      while x < Min(width, dst.width - pos.x)
        invariant Max(0, 0 - pos.x) <= x && dst.Valid() && ViewAt(pos) == v
        invariant dst.rows[..] == before[sy := TransparentRow(before[sy], v, sy, pos.x + x)]
        decreases width - x
      {
        var c := data[y][x];
        RowStep(before[sy], v, sy, pos.x + x);
        if c != transparent.value {
          dst.Write(pos.x + x, pos.y + y, c);
        }
        x := x + 1;
      }
      RowEnds(before[sy], v, sy, pos.x + x, dst.width);
    }
  }

  lemma RowStarts(row: seq<Color>, v: View, y: int, x: int)
    requires v.Valid() && x <= Max(0, v.pos.x)
    ensures TransparentRow(row, v, y, x) == row
  {}

  lemma RowStep(row: seq<Color>, v: View, y: int, x: int)
    requires v.Valid() && 0 <= x < |row| && v.Area().Has(x, y)
    ensures var c := At(v.image, x - v.pos.x, y - v.pos.y);
      TransparentRow(row, v, y, x + 1) == if v.transparent == Some(c) then TransparentRow(row, v, y, x) else TransparentRow(row, v, y, x)[x := c]
  {}

  lemma RowEnds(row: seq<Color>, v: View, y: int, x: int, width: nat)
    requires v.Valid() && |row| == width && (x >= v.pos.x + v.width || x >= width)
    ensures TransparentRow(row, v, y, x) == TransparentRow(row, v, y, width)
  {}

  lemma TransparentIsDrawn(before: Image, after: Image, width: nat, height: nat, v: View)
    requires IsImage(before, width, height) && |after| == height && v.Valid() && v.transparent.Some?
    requires forall k :: 0 <= k < height ==>
      after[k] == TransparentRow(before[k], v, k, width) || (after[k] == before[k] && !(v.pos.y <= k < v.pos.y + v.height))
    ensures forall area :: Drawn(before, after, width, height, v, area)
  {
    forall k | 0 <= k < height
      ensures |after[k]| == width
    {}
    forall x, y | 0 <= x < width && 0 <= y < height
      ensures At(after, x, y) == if v.Shows(x, y).Some? then v.Shows(x, y).value else At(before, x, y)
    {
    }
  }

  lemma IntersectionHas(a: Rect, b: Rect)
    ensures forall x, y {:trigger a.And(b).Has(x, y)} :: a.And(b).Has(x, y) <==> a.Has(x, y) && b.Has(x, y)
  {
    forall x, y
      ensures a.And(b).Has(x, y) <==> a.Has(x, y) && b.Has(x, y)
    {
      AndHas(a, b, x, y);
    }
  }

  lemma OverlaidIsDrawn(before: Image, after: Image, width: nat, height: nat, v: View, area: Rect, intersection: Rect)
    requires v.Valid() && v.transparent.None?
    requires Overlaid(before, after, width, height, v.image, v.width, v.height, Rect(intersection.pos, intersection.size), v.pos.x, v.pos.y)
    requires forall x, y {:trigger intersection.Has(x, y)} :: intersection.Has(x, y) <==> area.Has(x, y) && v.Area().Has(x, y)
    ensures Drawn(before, after, width, height, v, area)
  {
    forall x, y | 0 <= x < width && 0 <= y < height
      ensures intersection.Has(x, y) <==> area.Has(x, y) && v.Area().Has(x, y)
    {}
  }
}
