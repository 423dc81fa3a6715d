/** Frame buffers (kernel/frame_buffer.cpp): clipped copies and moves of rectangles. */
module FrameBuffers {
  import opened Graphics

  datatype PixelFormat = RGB | BGR

  datatype Error = Success | UnknownPixelFormat

  /** Exactly the points of `area` have the pixel that `src` has at the point less the shift. */
  ghost predicate Overlaid(before: Image, after: Image, width: nat, height: nat, src: Image, srcWidth: nat, srcHeight: nat,
                           area: Rect, dx: int, dy: int) {
    && IsImage(before, width, height) && IsImage(after, width, height) && IsImage(src, srcWidth, srcHeight)
    && forall x, y {:trigger At(after, x, y)} :: 0 <= x < width && 0 <= y < height ==>
         At(after, x, y) == if area.Has(x, y) && 0 <= x - dx < srcWidth && 0 <= y - dy < srcHeight then At(src, x - dx, y - dy)
                            else At(before, x, y)
  }

  /** The area lies in an image and, from `start` on, in the source. */
  ghost predicate Fits(width: nat, height: nat, srcWidth: nat, srcHeight: nat, area: Rect, start: Vec) {
    && area.size.x >= 0 && area.size.y >= 0
    && 0 <= area.pos.x && area.pos.x + area.size.x <= width && 0 <= area.pos.y && area.pos.y + area.size.y <= height
    && 0 <= start.x && start.x + area.size.x <= srcWidth && 0 <= start.y && start.y + area.size.y <= srcHeight
  }

  /** Row `k` of the area after the copy. */
  ghost function NewRow(before: Image, src: Image, area: Rect, start: Vec, k: nat): seq<Color>
    requires k < |before| && 0 <= area.pos.x && 0 <= area.size.x && area.pos.x + area.size.x <= |before[k]|
    requires 0 <= k - area.pos.y + start.y < |src| && 0 <= start.x
    requires start.x + area.size.x <= |src[k - area.pos.y + start.y]|
  {
    Spliced(before[k], area.pos.x, src[k - area.pos.y + start.y][start.x..start.x + area.size.x])
  }

  /** The rows `[lo, hi)` of the area are copied. */
  ghost predicate RowsDone(before: Image, after: Image, width: nat, height: nat, src: Image, srcWidth: nat, srcHeight: nat,
                           area: Rect, start: Vec, lo: int, hi: int) {
    && IsImage(before, width, height) && IsImage(src, srcWidth, srcHeight) && Fits(width, height, srcWidth, srcHeight, area, start)
    && area.pos.y <= lo <= hi <= area.pos.y + area.size.y && |after| == height
    && forall k :: 0 <= k < height ==> after[k] == if lo <= k < hi then NewRow(before, src, area, start, k) else before[k]
  }

  lemma NoRowsDone(before: Image, width: nat, height: nat, src: Image, srcWidth: nat, srcHeight: nat, area: Rect, start: Vec, lo: int)
    requires IsImage(before, width, height) && IsImage(src, srcWidth, srcHeight)
    requires Fits(width, height, srcWidth, srcHeight, area, start)
    requires area.pos.y <= lo <= area.pos.y + area.size.y
    ensures RowsDone(before, before, width, height, src, srcWidth, srcHeight, area, start, lo, lo)
  {}

  /** One more row below or above the rows that are done. */
  lemma RowDone(before: Image, after: Image, width: nat, height: nat, src: Image, srcWidth: nat, srcHeight: nat,
                area: Rect, start: Vec, lo: int, hi: int, k: int)
    requires RowsDone(before, after, width, height, src, srcWidth, srcHeight, area, start, lo, hi)
    requires (k == hi < area.pos.y + area.size.y) || (k == lo - 1 >= area.pos.y)
    ensures 0 <= k < height && after[k] == before[k] && |before[k]| == width && area.pos.x + area.size.x <= width
    ensures var s := k - area.pos.y + start.y;
      && 0 <= s < srcHeight && |src[s]| == srcWidth
      && RowsDone(before, after[k := Spliced(before[k], area.pos.x, src[s][start.x..start.x + area.size.x])],
                  width, height, src, srcWidth, srcHeight, area, start, Min(lo, k), Max(hi, k + 1))
  {}

  class FrameBuffer {
    const width: nat
    const height: nat
    const format: PixelFormat
    const rows: array<seq<Color>>

    constructor (width: nat, height: nat, format: PixelFormat)
      ensures Valid() && fresh(rows) && this.width == width && this.height == height && this.format == format
      ensures forall y :: 0 <= y < height ==> rows[y] == BlackRow(width)
    {
      this.width, this.height, this.format := width, height, format;
      rows := new seq<Color>[height](_ => BlackRow(width));
    }

    ghost predicate Valid()
      reads rows
    {
      rows.Length == height && IsImage(rows[..], width, height)
    }

    function Outline(): Rect {
      Rect(Vec(0, 0), Vec(width, height))
    }

    /** One pixel, which must lie in the buffer. */
    method Write(x: int, y: int, c: Color)
      requires Valid() && Outline().Has(x, y)
      modifies rows
      ensures Valid() && rows[..] == old(rows[..])[y := old(rows[y])[x := c]]
    {
      rows[y] := rows[y][x := c];
    }

    /** Copies the part of `src` within `srcArea` to `dstPos`, as far as it lies in both buffers. */
    method Copy(dstPos: Vec, src: FrameBuffer, srcArea: Rect) returns (error: Error)
      requires Valid() && src.Valid() && src.rows != rows
      modifies rows
      ensures Valid() && src.Valid() && src.rows[..] == old(src.rows[..])
      ensures error == if format == src.format then Success else UnknownPixelFormat
      ensures error.UnknownPixelFormat? ==> rows[..] == old(rows[..])
      ensures error.Success? ==>
        Overlaid(old(rows[..]), rows[..], width, height, src.rows[..], src.width, src.height, Rect(dstPos, srcArea.size),
                 dstPos.Minus(srcArea.pos).x, dstPos.Minus(srcArea.pos).y)
    {
      if format != src.format {
        return UnknownPixelFormat;
      }
      hide Rect.And, Rect.Has, Vec.Plus, Vec.Minus, Overlaid, Fits;
      var shifted := Rect(dstPos, srcArea.size);
      var srcOutline := Rect(dstPos.Minus(srcArea.pos), Vec(src.width, src.height));
      var copyArea := Outline().And(srcOutline).And(shifted);
      ghost var before, image, d := rows[..], src.rows[..], dstPos.Minus(srcArea.pos);
      CopyAreaHas(Outline(), srcOutline, shifted);
      if copyArea.size.x <= 0 || copyArea.size.y <= 0 {
        NothingOverlaid(before, width, height, image, src.width, src.height, copyArea, d.x, d.y);
        SameArea(before, before, width, height, image, src.width, src.height, copyArea, shifted, d);
        return Success;
      }
      CopyFits(width, height, src.width, src.height, dstPos, srcArea);
      CopyRows(src, copyArea, srcArea.pos.Plus(copyArea.pos.Minus(dstPos)));
      SameArea(before, rows[..], width, height, image, src.width, src.height, copyArea, shifted, d);
      error := Success;
    }

    /** The row loop of `Copy`. */
    method CopyRows(src: FrameBuffer, area: Rect, start: Vec)
      requires Valid() && src.Valid() && src.rows != rows && Fits(width, height, src.width, src.height, area, start)
      modifies rows
      ensures Valid() && src.rows[..] == old(src.rows[..])
      ensures Overlaid(old(rows[..]), rows[..], width, height, src.rows[..], src.width, src.height, area,
                       area.pos.Minus(start).x, area.pos.Minus(start).y)
    {
      hide Spliced, NewRow, RowsDone;
      ghost var before, image := rows[..], src.rows[..];
      var dy, sy := area.pos.y, start.y;
      NoRowsDone(before, width, height, image, src.width, src.height, area, start, dy);
      for y := 0 to area.size.y
        invariant dy == area.pos.y + y && sy == start.y + y && src.rows[..] == image
        invariant RowsDone(before, rows[..], width, height, image, src.width, src.height, area, start, area.pos.y, dy)
      {
        RowDone(before, rows[..], width, height, image, src.width, src.height, area, start, area.pos.y, dy, dy);
        rows[dy] := Spliced(rows[dy], area.pos.x, src.rows[sy][start.x..start.x + area.size.x]);
        dy, sy := dy + 1, sy + 1;
      }
      RowsCopied(before, rows[..], width, height, image, src.width, src.height, area, start);
    }

    /** Moves the pixels of `src` to `dstPos`, row by row in the order that spares rows not copied yet. Both
        rectangles lie in the buffer, and pixels do not move within their own row unless the ranges are apart. */
    method Move(dstPos: Vec, src: Rect)
      requires Valid() && src.size.x >= 0 && src.size.y >= 0
      requires 0 <= src.pos.x && src.pos.x + src.size.x <= width && 0 <= src.pos.y && src.pos.y + src.size.y <= height
      requires 0 <= dstPos.x && dstPos.x + src.size.x <= width && 0 <= dstPos.y && dstPos.y + src.size.y <= height
      requires dstPos.y == src.pos.y ==> dstPos.x + src.size.x <= src.pos.x || src.pos.x + src.size.x <= dstPos.x
      modifies rows
      ensures Valid()
      ensures Overlaid(old(rows[..]), rows[..], width, height, old(rows[..]), width, height, Rect(dstPos, src.size),
                       dstPos.x - src.pos.x, dstPos.y - src.pos.y)
    {
      hide Spliced, NewRow, RowsDone;
      ghost var before, area := rows[..], Rect(dstPos, src.size);
      if dstPos.y < src.pos.y {
        NoRowsDone(before, width, height, before, width, height, area, src.pos, dstPos.y);
        for y := 0 to src.size.y
          invariant RowsDone(before, rows[..], width, height, before, width, height, area, src.pos, dstPos.y, dstPos.y + y)
        {
          var d, s := dstPos.y + y, src.pos.y + y;
          RowDone(before, rows[..], width, height, before, width, height, area, src.pos, dstPos.y, d, d);
          NotYetDone(before, rows[..], width, height, area, src.pos, dstPos.y, d, s);
          rows[d] := Spliced(rows[d], dstPos.x, rows[s][src.pos.x..src.pos.x + src.size.x]);
        }
      } else {
        ghost var end := dstPos.y + src.size.y;
        NoRowsDone(before, width, height, before, width, height, area, src.pos, end);
        for y := 0 to src.size.y
          invariant RowsDone(before, rows[..], width, height, before, width, height, area, src.pos, end - y, end)
        {
          var d, s := dstPos.y + src.size.y - 1 - y, src.pos.y + src.size.y - 1 - y;
          RowDone(before, rows[..], width, height, before, width, height, area, src.pos, end - y, end, d);
          NotYetDone(before, rows[..], width, height, area, src.pos, end - y, end, s);
          rows[d] := Spliced(rows[d], dstPos.x, rows[s][src.pos.x..src.pos.x + src.size.x]);
        }
      }
      RowsCopied(before, rows[..], width, height, before, width, height, area, src.pos);
    }
  }

  lemma NotYetDone(before: Image, after: Image, width: nat, height: nat, area: Rect, start: Vec, lo: int, hi: int, s: int)
    requires RowsDone(before, after, width, height, before, width, height, area, start, lo, hi)
    requires 0 <= s < height && !(lo <= s < hi)
    ensures after[s] == before[s] && |before[s]| == width
  {}

  lemma CopyAreaHas(a: Rect, b: Rect, c: Rect)
    ensures forall x, y {:trigger a.And(b).And(c).Has(x, y)} :: a.And(b).And(c).Has(x, y) <==> a.Has(x, y) && b.Has(x, y) && c.Has(x, y)
  {
    forall x, y
      ensures a.And(b).And(c).Has(x, y) <==> a.Has(x, y) && b.Has(x, y) && c.Has(x, y)
    {
      AndHas(a.And(b), c, x, y);
      AndHas(a, b, x, y);
    }
  }

  /** Rows spliced one by one overlay the area. */
  lemma RowsCopied(before: Image, after: Image, width: nat, height: nat, src: Image, srcWidth: nat, srcHeight: nat, area: Rect, start: Vec)
    requires RowsDone(before, after, width, height, src, srcWidth, srcHeight, area, start, area.pos.y, area.pos.y + area.size.y)
    ensures Overlaid(before, after, width, height, src, srcWidth, srcHeight, area, area.pos.x - start.x, area.pos.y - start.y)
  {
    forall x, y | 0 <= x < width && 0 <= y < height
      ensures |after[y]| == width
      ensures area.Has(x, y) ==> 0 <= x - area.pos.x + start.x < srcWidth && 0 <= y - area.pos.y + start.y < srcHeight
                                 && after[y][x] == src[y - area.pos.y + start.y][x - area.pos.x + start.x]
      ensures !area.Has(x, y) ==> after[y][x] == before[y][x]
    {
    }
    forall y | 0 <= y < height
      ensures |after[y]| == width
    {}
  }

  lemma NothingOverlaid(before: Image, width: nat, height: nat, src: Image, srcWidth: nat, srcHeight: nat, area: Rect, dx: int, dy: int)
    requires IsImage(before, width, height) && IsImage(src, srcWidth, srcHeight)
    requires (area.size.x <= 0 || area.size.y <= 0)
    ensures Overlaid(before, before, width, height, src, srcWidth, srcHeight, area, dx, dy)
  {}

  /** The clipped area and the whole one say the same. */
  lemma SameArea(before: Image, after: Image, width: nat, height: nat, src: Image, srcWidth: nat, srcHeight: nat,
                 clipped: Rect, area: Rect, d: Vec)
    requires Overlaid(before, after, width, height, src, srcWidth, srcHeight, clipped, d.x, d.y)
    requires forall x, y {:trigger clipped.Has(x, y)} ::
      clipped.Has(x, y) <==>
        Rect(Vec(0, 0), Vec(width, height)).Has(x, y) && Rect(d, Vec(srcWidth, srcHeight)).Has(x, y) && area.Has(x, y)
    ensures Overlaid(before, after, width, height, src, srcWidth, srcHeight, area, d.x, d.y)
  {
    forall x, y | 0 <= x < width && 0 <= y < height
      ensures clipped.Has(x, y) <==> area.Has(x, y) && 0 <= x - d.x < srcWidth && 0 <= y - d.y < srcHeight
    {
    }
  }

  /** The clipped area fits in both buffers, at the same distance. */
  lemma CopyFits(width: nat, height: nat, srcWidth: nat, srcHeight: nat, dstPos: Vec, srcArea: Rect)
    requires var r := CopyArea(width, height, srcWidth, srcHeight, dstPos, srcArea); r.size.x > 0 && r.size.y > 0
    ensures var r := CopyArea(width, height, srcWidth, srcHeight, dstPos, srcArea);
      var start := srcArea.pos.Plus(r.pos.Minus(dstPos));
      Fits(width, height, srcWidth, srcHeight, r, start) && r.pos.Minus(start) == dstPos.Minus(srcArea.pos)
  {
    AndWithin(Rect(Vec(0, 0), Vec(width, height)), Rect(dstPos.Minus(srcArea.pos), Vec(srcWidth, srcHeight)),
              Rect(dstPos, srcArea.size));
  }

  /** What is left of `srcArea`, placed at `dstPos`, within both buffers. */
  function CopyArea(width: nat, height: nat, srcWidth: nat, srcHeight: nat, dstPos: Vec, srcArea: Rect): Rect {
    Rect(Vec(0, 0), Vec(width, height)).And(Rect(dstPos.Minus(srcArea.pos), Vec(srcWidth, srcHeight)))
      .And(Rect(dstPos, srcArea.size))
  }
}
