/** Frame buffers (kernel/io/frame_buffer.cpp): pixels in scan lines, and clipped copies. */
module FrameBuffers {
  import opened Common
  import opened Rectangles

  type Color = nat

  /** A picture: width by height pixels in scan lines of stride. */
  datatype Picture = Picture(width: nat, height: nat, stride: nat, pixels: seq<Color>) {
    predicate Valid() {
      width <= stride && |pixels| == Times(stride, height)
    }
    function Outline(): Rectangle {
      Rectangle(Point(0, 0), Point(width, height))
    }
    function At(p: Point): Color
      requires Valid() && Outline().Contains(p)
    {
      IndexFits(stride, height, p);
      pixels[Index(stride, p)]
    }
  }

  function Index(stride: nat, p: Point): int
    requires p.y >= 0
  {
    Times(stride, p.y) + p.x
  }

  lemma IndexFits(stride: nat, height: nat, p: Point)
    requires 0 <= p.x < stride && 0 <= p.y < height
    ensures 0 <= Index(stride, p) < Times(stride, height)
  {
    TimesMono(stride, p.y, height);
  }

  lemma IndexUnique(stride: nat, p: Point, q: Point)
    requires 0 <= p.x < stride && 0 <= q.x < stride && p.y >= 0 && q.y >= 0
    requires Index(stride, p) == Index(stride, q)
    ensures p == q
  {
    if p.y < q.y {
      TimesMono(stride, p.y, q.y);
    } else if q.y < p.y {
      TimesMono(stride, q.y, p.y);
    }
  }

  // ---- Copying

  /** The part that Copy copies: within the target, within the source, within the area asked for. */
  function CopyArea(dst: Rectangle, dstPos: Point, src: Rectangle, srcArea: Rectangle): Rectangle {
    Intersect(Intersect(dst, Rectangle(dstPos.Minus(srcArea.pos), src.size)), Rectangle(dstPos, srcArea.size))
  }

  lemma CopyAreaIs(dst: Picture, dstPos: Point, src: Picture, srcArea: Rectangle)
    requires srcArea.Proper()
    ensures var area, shift := CopyArea(dst.Outline(), dstPos, src.Outline(), srcArea), dstPos.Minus(srcArea.pos);
      && area.Proper()
      && forall p: Point :: area.Contains(p) <==>
        dst.Outline().Contains(p) && src.Outline().Contains(p.Minus(shift)) && srcArea.Contains(p.Minus(shift))
  {
    var shift := dstPos.Minus(srcArea.pos);
    var a, b, c := dst.Outline(), Rectangle(shift, src.Outline().size), Rectangle(dstPos, srcArea.size);
    IntersectIsCommon(a, b);
    IntersectIsCommon(Intersect(a, b), c);
    forall p: Point
      ensures b.Contains(p) <==> src.Outline().Contains(p.Minus(shift))
      ensures c.Contains(p) <==> srcArea.Contains(p.Minus(shift))
    {
    }
  }

  /** What a pixel of the target is once the rows of area above y, and of row y the pixels left
      of x, are copied. */
  ghost predicate CopiedTo(before: Picture, after: Picture, src: Picture, area: Rectangle, shift: Point, y: int, x: int) {
    && before.Valid() && after.Valid() && src.Valid()
    && after.width == before.width && after.height == before.height && after.stride == before.stride
    && forall p: Point :: before.Outline().Contains(p) ==>
      PixelCopied(before, after, src, area, shift, y, x, p)
  }

  ghost predicate PixelCopied(before: Picture, after: Picture, src: Picture, area: Rectangle, shift: Point, y: int, x: int, p: Point)
    requires before.Valid() && after.Valid() && src.Valid() && before.Outline().Contains(p) && after.Outline().Contains(p)
  {
    if area.Contains(p) && (p.y < y || (p.y == y && p.x < x)) then
      src.Outline().Contains(p.Minus(shift)) && after.At(p) == src.At(p.Minus(shift))
    else after.At(p) == before.At(p)
  }

  lemma CopyPixel(before: Picture, after: Picture, src: Picture, area: Rectangle, shift: Point, q: Point)
    requires CopiedTo(before, after, src, area, shift, q.y, q.x)
    requires area.Contains(q) && before.Outline().Contains(q) && src.Outline().Contains(q.Minus(shift))
    ensures 0 <= Index(after.stride, q) < |after.pixels|
    ensures CopiedTo(before, after.(pixels := after.pixels[Index(after.stride, q) := src.At(q.Minus(shift))]), src, area, shift, q.y, q.x + 1)
  {
    IndexFits(after.stride, after.height, q);
    var now := after.(pixels := after.pixels[Index(after.stride, q) := src.At(q.Minus(shift))]);
    forall p: Point | before.Outline().Contains(p)
      ensures PixelCopied(before, now, src, area, shift, q.y, q.x + 1, p)
    {
      assert PixelCopied(before, after, src, area, shift, q.y, q.x, p);
      if Index(after.stride, p) == Index(after.stride, q) {
        IndexUnique(after.stride, p, q);
      }
      IndexFits(after.stride, after.height, p);
    }
  }

  class FrameBuffer {
    const width: nat
    const height: nat
    const stride: nat
    const buffer: array<Color>

    ghost predicate Valid()
      reads buffer
    {
      Image().Valid()
    }

    function Image(): Picture
      reads buffer
    {
      Picture(width, height, stride, buffer[..])
    }

    constructor (width: nat, height: nat, stride: nat)
      requires width <= stride
      ensures Valid() && fresh(buffer) && this.width == width && this.height == height && this.stride == stride
    {
      this.width, this.height, this.stride := width, height, stride;
      buffer := new Color[Times(stride, height)];
    }

    /** Copies srcArea of a picture to dstPos, as far as both pictures reach. */
    method Copy(dstPos: Point, src: Picture, srcArea: Rectangle)
      requires Valid() && src.Valid() && srcArea.Proper()
      modifies buffer
      ensures Valid() && CopyDone(old(Image()), Image(), src, srcArea, dstPos.Minus(srcArea.pos))
    {
      hide CopiedTo, CopyArea, Times;
      var copyArea := CopyArea(Image().Outline(), dstPos, src.Outline(), srcArea);
      var shift := dstPos.Minus(srcArea.pos);
      CopyAreaIs(Image(), dstPos, src, srcArea);
      ghost var before := Image();
      CopyStarts(before, src, copyArea, shift);
      var y := 0;
      while y < copyArea.size.y
        invariant 0 <= y <= copyArea.size.y
        invariant CopiedTo(before, Image(), src, copyArea, shift, copyArea.pos.y + y, copyArea.pos.x)
      {
        var x := 0;
        while x < copyArea.size.x
          invariant 0 <= x <= copyArea.size.x
          invariant CopiedTo(before, Image(), src, copyArea, shift, copyArea.pos.y + y, copyArea.pos.x + x)
        {
          var q := copyArea.pos.Plus(Point(x, y));
          assert copyArea.Contains(q);
          CopiedFacts(before, Image(), src, copyArea, shift, q.y, q.x);
          CopyPixel(before, Image(), src, copyArea, shift, q);
          ghost var now := buffer[..];
          buffer[Index(stride, q)] := src.At(q.Minus(shift));
          assert buffer[..] == now[Index(stride, q) := src.At(q.Minus(shift))];
          x := x + 1;
        }
        CopyLine(before, Image(), src, copyArea, shift, copyArea.pos.y + y);
        y := y + 1;
      }
      CopyEnds(before, Image(), src, copyArea, shift, srcArea);
    }

    /** One scan line of a move; the source and the target may overlap. */
    method MoveLine(dst: Point, src: Point, n: nat)
      requires Valid() && 0 <= dst.x && dst.x + n <= width && 0 <= dst.y < height
      requires 0 <= src.x && src.x + n <= width && 0 <= src.y < height
      modifies buffer
      ensures Valid() && forall p: Point :: Image().Outline().Contains(p) ==>
        LineMoved(old(Image()), Image(), dst, src, n, p)
    {
      hide Times;
      ghost var before := Image();
      LineFits(stride, height, dst, src, width, n);
      var from, to := Index(stride, src), Index(stride, dst);
      forall x | 0 <= x < n {
        buffer[to + x] := buffer[from + x];
      }
      forall p: Point | Image().Outline().Contains(p)
        ensures LineMoved(before, Image(), dst, src, n, p)
      {
        LineIndex(before, stride, height, dst, src, n, p);
      }
    }

    /** Moves a rectangle within the picture, whether or not its places overlap. */
    method Move(dstPos: Point, src: Rectangle)
      requires Valid() && src.Proper()
      requires 0 <= dstPos.x && dstPos.x + src.size.x <= width && 0 <= dstPos.y && dstPos.y + src.size.y <= height
      requires 0 <= src.pos.x && src.End().x <= width && 0 <= src.pos.y && src.End().y <= height
      modifies buffer
      ensures Valid() && forall p: Point :: Image().Outline().Contains(p) ==>
        RowsMoved(old(Image()), Image(), dstPos, src, 0, src.size.y, p)
    {
      hide LineMoved, Picture.At, Times, Index;
      ghost var before := Image();
      if dstPos.y <= src.pos.y {
        var y := 0;
        RowsStart(before, dstPos, src, 0);
        while y < src.size.y
          invariant 0 <= y <= src.size.y && Valid()
          invariant forall p: Point :: Image().Outline().Contains(p) ==> RowsMoved(before, Image(), dstPos, src, 0, y, p)
        {
          ghost var now := Image();
          MoveLine(dstPos.Plus(Point(0, y)), src.pos.Plus(Point(0, y)), src.size.x);
          RowsStep(before, now, Image(), dstPos, src, 0, y, y, 0, y + 1);
          y := y + 1;
        }
      } else {
        var y := src.size.y;
        RowsStart(before, dstPos, src, y);
        while y > 0
          invariant 0 <= y <= src.size.y && Valid()
          invariant forall p: Point :: Image().Outline().Contains(p) ==> RowsMoved(before, Image(), dstPos, src, y, src.size.y, p)
        {
          y := y - 1;
          ghost var now := Image();
          MoveLine(dstPos.Plus(Point(0, y)), src.pos.Plus(Point(0, y)), src.size.x);
          RowsStep(before, now, Image(), dstPos, src, y + 1, src.size.y, y, y, src.size.y);
        }
      }
    }
  }

  /** A point after n pixels of one line are moved. */
  ghost predicate LineMoved(before: Picture, after: Picture, dst: Point, src: Point, n: nat, p: Point) {
    && before.Valid() && after.Valid() && after.Outline() == before.Outline()
    && before.Outline().Contains(p)
    && var q := src.Plus(p.Minus(dst));
    if p.y == dst.y && dst.x <= p.x < dst.x + n then before.Outline().Contains(q) && after.At(p) == before.At(q)
    else after.At(p) == before.At(p)
  }

  /** A point after rows lo to hi of the rectangle are moved. */
  ghost predicate RowsMoved(before: Picture, after: Picture, dst: Point, src: Rectangle, lo: int, hi: int, p: Point) {
    && before.Valid() && after.Valid() && after.Outline() == before.Outline()
    && before.Outline().Contains(p)
    && var q := src.pos.Plus(p.Minus(dst));
    if dst.x <= p.x < dst.x + src.size.x && dst.y + lo <= p.y < dst.y + hi then before.Outline().Contains(q) && after.At(p) == before.At(q)
    else after.At(p) == before.At(p)
  }

  lemma LineFits(stride: nat, height: nat, dst: Point, src: Point, width: nat, n: nat)
    requires width <= stride && 0 <= dst.x && dst.x + n <= width && 0 <= dst.y < height
    requires 0 <= src.x && src.x + n <= width && 0 <= src.y < height
    ensures 0 <= Index(stride, dst) && Index(stride, dst) + n <= Times(stride, height)
    ensures 0 <= Index(stride, src) && Index(stride, src) + n <= Times(stride, height)
  {
    TimesMono(stride, dst.y, height);
    TimesMono(stride, src.y, height);
  }

  /** A pixel of another line, or outside the moved stretch, has another index. */
  lemma LineIndex(before: Picture, stride: nat, height: nat, dst: Point, src: Point, n: nat, p: Point)
    requires before.Valid() && before.stride == stride && before.height == height && before.Outline().Contains(p)
    requires 0 <= dst.x && dst.x + n <= before.width && 0 <= dst.y < height
    requires 0 <= src.x && src.x + n <= before.width && 0 <= src.y < height
    ensures 0 <= Index(stride, p) < Times(stride, height)
    ensures Index(stride, dst) <= Index(stride, p) < Index(stride, dst) + n <==> p.y == dst.y && dst.x <= p.x < dst.x + n
    ensures p.y == dst.y && dst.x <= p.x < dst.x + n ==>
      var q := src.Plus(p.Minus(dst));
      before.Outline().Contains(q) && Index(stride, q) == Index(stride, src) + (Index(stride, p) - Index(stride, dst))
  {
    IndexFits(stride, height, p);
    if p.y < dst.y {
      TimesMono(stride, p.y, dst.y);
    } else if dst.y < p.y {
      TimesMono(stride, dst.y, p.y);
    }
  }

  lemma RowsStart(before: Picture, dst: Point, src: Rectangle, y: int)
    requires before.Valid()
    ensures forall p: Point :: before.Outline().Contains(p) ==> RowsMoved(before, before, dst, src, y, y, p)
  {
  }

  /** One more row, whose source the rows moved so far have not overwritten. */
  lemma RowsStep(before: Picture, now: Picture, after: Picture, dst: Point, src: Rectangle, lo: int, hi: int, y: int, lo': int, hi': int)
    requires src.Proper() && 0 <= lo <= hi <= src.size.y && 0 <= y < src.size.y
    requires before.Valid() && now.Valid() && now.Outline() == before.Outline() == after.Outline()
    requires
      || (dst.y <= src.pos.y && lo == 0 && y == hi && lo' == lo && hi' == y + 1)
      || (dst.y > src.pos.y && hi == src.size.y && y == lo - 1 && lo' == y && hi' == hi)
    requires forall p: Point :: before.Outline().Contains(p) ==> RowsMoved(before, now, dst, src, lo, hi, p)
    requires var d, s := dst.Plus(Point(0, y)), src.pos.Plus(Point(0, y));
      forall p: Point :: after.Outline().Contains(p) ==> LineMoved(now, after, d, s, src.size.x, p)
    ensures forall p: Point :: before.Outline().Contains(p) ==> RowsMoved(before, after, dst, src, lo', hi', p)
  {
    hide Picture.At;
    forall p: Point | before.Outline().Contains(p)
      ensures RowsMoved(before, after, dst, src, lo', hi', p)
    {
      assert RowsMoved(before, now, dst, src, lo, hi, p);
      assert LineMoved(now, after, dst.Plus(Point(0, y)), src.pos.Plus(Point(0, y)), src.size.x, p);
      var q := src.pos.Plus(p.Minus(dst));
      assert src.pos.Plus(Point(0, y)).Plus(p.Minus(dst.Plus(Point(0, y)))) == q;
      if before.Outline().Contains(q) {
        assert RowsMoved(before, now, dst, src, lo, hi, q);
      }
    }
  }

  /** Exactly the pixels in both pictures and in the area are copied, shifted; the others stay. */
  ghost predicate CopyDone(before: Picture, after: Picture, src: Picture, srcArea: Rectangle, shift: Point) {
    && before.Valid() && after.Valid() && src.Valid()
    && after.width == before.width && after.height == before.height && after.stride == before.stride
    && forall p: Point :: before.Outline().Contains(p) ==>
      after.At(p) == if src.Outline().Contains(p.Minus(shift)) && srcArea.Contains(p.Minus(shift)) then src.At(p.Minus(shift)) else before.At(p)
  }

  lemma CopyStarts(before: Picture, src: Picture, area: Rectangle, shift: Point)
    requires before.Valid() && src.Valid()
    ensures CopiedTo(before, before, src, area, shift, area.pos.y, area.pos.x)
  {
  }

  lemma CopiedFacts(before: Picture, after: Picture, src: Picture, area: Rectangle, shift: Point, y: int, x: int)
    requires CopiedTo(before, after, src, area, shift, y, x)
    ensures before.Valid() && after.Valid() && src.Valid()
    ensures after.width == before.width && after.height == before.height && after.stride == before.stride
  {
  }

  lemma CopyLine(before: Picture, after: Picture, src: Picture, area: Rectangle, shift: Point, y: int)
    requires CopiedTo(before, after, src, area, shift, y, area.pos.x + area.size.x)
    ensures CopiedTo(before, after, src, area, shift, y + 1, area.pos.x)
  {
    forall p: Point | before.Outline().Contains(p)
      ensures PixelCopied(before, after, src, area, shift, y + 1, area.pos.x, p)
    {
      assert PixelCopied(before, after, src, area, shift, y, area.pos.x + area.size.x, p);
    }
  }

  lemma CopyEnds(before: Picture, after: Picture, src: Picture, area: Rectangle, shift: Point, srcArea: Rectangle)
    requires CopiedTo(before, after, src, area, shift, area.pos.y + area.size.y, area.pos.x)
    requires forall p: Point :: area.Contains(p) <==>
      before.Outline().Contains(p) && src.Outline().Contains(p.Minus(shift)) && srcArea.Contains(p.Minus(shift))
    ensures CopyDone(before, after, src, srcArea, shift)
  {
    forall p: Point | before.Outline().Contains(p)
      ensures after.At(p) == if src.Outline().Contains(p.Minus(shift)) && srcArea.Contains(p.Minus(shift)) then src.At(p.Minus(shift)) else before.At(p)
    {
      assert PixelCopied(before, after, src, area, shift, area.pos.y + area.size.y, area.pos.x, p);
    }
  }
}
