/** Points, rectangles and images (kernel/graphics.hpp). */
module Graphics {
  import opened Basics

  datatype Vec = Vec(x: int, y: int) {
    function Plus(v: Vec): Vec {
      Vec(x + v.x, y + v.y)
    }

    function Minus(v: Vec): Vec {
      Vec(x - v.x, y - v.y)
    }
  }

  function Max(a: int, b: int): int {
    if a < b then b else a
  }

  function Min(a: int, b: int): int {
    if b < a then b else a
  }

  function ElementMax(a: Vec, b: Vec): Vec {
    Vec(Max(a.x, b.x), Max(a.y, b.y))
  }

  function ElementMin(a: Vec, b: Vec): Vec {
    Vec(Min(a.x, b.x), Min(a.y, b.y))
  }

  datatype Rect = Rect(pos: Vec, size: Vec) {
    predicate Has(x: int, y: int) {
      pos.x <= x < pos.x + size.x && pos.y <= y < pos.y + size.y
    }

    /** The intersection. */
    function And(r: Rect): Rect {
      var end, rEnd := pos.Plus(size), r.pos.Plus(r.size);
      if end.x < r.pos.x || end.y < r.pos.y || rEnd.x < pos.x || rEnd.y < pos.y then Rect(Vec(0, 0), Vec(0, 0))
      else
        var newPos := ElementMax(pos, r.pos);
        Rect(newPos, ElementMin(end, rEnd).Minus(newPos))
    }
  }

  /** A point is in the intersection exactly when it is in both rectangles, whatever their sizes. */
  lemma AndHas(a: Rect, b: Rect, x: int, y: int)
    ensures a.And(b).Has(x, y) <==> a.Has(x, y) && b.Has(x, y)
  {}

  /** A non-empty intersection of three rectangles lies within each of them. */
  lemma AndWithin(a: Rect, b: Rect, c: Rect)
    requires var r := a.And(b).And(c); r.size.x > 0 && r.size.y > 0
    ensures var r := a.And(b).And(c);
      && a.pos.x <= r.pos.x && r.pos.x + r.size.x <= a.pos.x + a.size.x
      && a.pos.y <= r.pos.y && r.pos.y + r.size.y <= a.pos.y + a.size.y
      && b.pos.x <= r.pos.x && r.pos.x + r.size.x <= b.pos.x + b.size.x
      && b.pos.y <= r.pos.y && r.pos.y + r.size.y <= b.pos.y + b.size.y
  {}

  datatype Color = Color(r: Byte, g: Byte, b: Byte)

  /** Rows of pixels from top to bottom. */
  type Image = seq<seq<Color>>

  function BlackRow(width: nat): (row: seq<Color>)
    ensures |row| == width
  {
    seq(width, _ => Color(0, 0, 0))
  }

  ghost predicate IsImage(img: Image, width: nat, height: nat) {
    |img| == height && forall y :: 0 <= y < height ==> |img[y]| == width
  }

  /** The pixel at a point of the image. */
  function At(img: Image, x: int, y: int): Color
    requires 0 <= y < |img| && 0 <= x < |img[y]|
  {
    img[y][x]
  }

  /** The pixels `[x, x + |part|)` of a row are replaced. */
  function Spliced(row: seq<Color>, x: nat, part: seq<Color>): seq<Color>
    requires x + |part| <= |row|
  {
    row[..x] + part + row[x + |part|..]
  }
}
