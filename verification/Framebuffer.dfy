/** The framebuffer: pixel loops over byte arrays. */
module Framebuffer {
  import opened Screen
  import opened Words

  class Canvas {
    const grid: Grid
    const front: array<u8>
    const back: array?<u8>
    var dirtyValid: bool
    var minX: u32
    var minY: u32
    var maxX: u32
    var maxY: u32

    ghost function Dirty(): Option<Rect>
      reads this
    {
      if dirtyValid then Some(Rect(minX, minY, maxX, maxY)) else None
    }

    ghost function Buffers(): set<object> {
      if back == null then {front} else {front, back}
    }

    ghost function View(): Frame
      reads this, Buffers()
    {
      Frame(grid, front[..], if back == null then None else Some(back[..]), Dirty())
    }

    ghost predicate Valid()
      reads this, Buffers()
    {
      back != front && Screen.Valid(View())
    }

    /** An unused back buffer is filled with zeros; without one, drawing is direct. */
    constructor (grid: Grid, front: array<u8>, back: array?<u8>)
      requires Sized(grid, front[..]) && back != front && (back != null ==> back.Length == front.Length)
      modifies if back == null then {} else {back}
      ensures this.grid == grid && this.front == front && this.back == back && Valid()
      ensures front[..] == old(front[..]) && Dirty() == None
      ensures back != null ==> forall i | 0 <= i < back.Length :: back[i] == 0
    {
      this.grid, this.front, this.back := grid, front, back;
      dirtyValid, minX, minY, maxX, maxY := false, 0, 0, 0, 0;
      new;
      if back != null {
        var i := 0;
        while i < back.Length
          invariant 0 <= i <= back.Length && !dirtyValid && front[..] == old(front[..])
          invariant forall k | 0 <= k < i :: back[k] == 0
        {
          back[i] := 0;
          i := i + 1;
        }
      }
    }

    method ExpandDirtyRect(x1: u32, y1: u32, x2: u32, y2: u32)
      modifies this
      ensures Dirty() == Expanded(old(Dirty()), Rect(x1, y1, x2, y2))
    {
      if x1 >= x2 || y1 >= y2 { return; }
      if !dirtyValid {
        minX, minY, maxX, maxY := x1, y1, x2, y2;
        dirtyValid := true;
        return;
      }
      if x1 < minX { minX := x1; }
      if y1 < minY { minY := y1; }
      if x2 > maxX { maxX := x2; }
      if y2 > maxY { maxY := y2; }
    }

    /** One row of a filled rectangle. */
    method PaintRow(dst: array<u8>, y: u32, x1: u32, x2: u32, color: u8)
      requires Sized(grid, dst[..]) && x2 <= grid.width && y < grid.height
      modifies dst
      ensures forall i | 0 <= i < dst.Length ::
                dst[i] == if InCell(grid, Rect(x1, y, x2, y + 1), i) then color else old(dst[i])
    {
      var row := y * grid.pitch;
      var x := x1;
      while x < x2
        invariant x1 <= x && (x1 <= x2 ==> x <= x2) && (x1 > x2 ==> x == x1)
        invariant forall i | 0 <= i < dst.Length ::
                    dst[i] == if InCell(grid, Rect(x1, y, x, y + 1), i) then color else old(dst[i])
      {
        CellInside(grid, x, y);
        forall i: nat | i < dst.Length
          ensures i == At(grid, x, y) <==> Row(grid, i) == y && Col(grid, i) == x
        {
          CellOf(grid, i, x, y);
        }
        dst[row + x] := color;
        x := x + 1;
      }
    }

    method PaintRect(dst: array<u8>, x1: u32, y1: u32, x2: u32, y2: u32, color: u8)
      requires Sized(grid, dst[..]) && x2 <= grid.width && y2 <= grid.height
      modifies dst
      ensures dst[..] == Painted(grid, old(dst[..]), Rect(x1, y1, x2, y2), color)
    {
      var y := y1;
      while y < y2
        invariant y1 <= y && (y1 <= y2 ==> y <= y2) && (y1 > y2 ==> y == y1)
        invariant forall i | 0 <= i < dst.Length ::
                    dst[i] == if InCell(grid, Rect(x1, y1, x2, y), i) then color else old(dst[i])
      {
        PaintRow(dst, y, x1, x2, color);
        y := y + 1;
      }
    }

    /** Paints where drawing goes, and marks the rectangle. */
    method DrawRect(x1: u32, y1: u32, x2: u32, y2: u32, color: u8)
      requires Valid() && x2 <= grid.width && y2 <= grid.height
      modifies this, Buffers()
      ensures Valid() && View() == Draw(old(View()), Rect(x1, y1, x2, y2), color)
    {
      var dst := if back != null then back else front;
      PaintRect(dst, x1, y1, x2, y2, color);
      ExpandDirtyRect(x1, y1, x2, y2);
    }

    method Clear(color: u8)
      requires Valid()
      modifies this, Buffers()
      ensures Valid() && View() == Apply(old(View()), Op.Clear(color))
    {
      DrawRect(0, 0, grid.width, grid.height, color);
    }

    method PutPixel(x: u32, y: u32, color: u8)
      requires Valid()
      modifies this, Buffers()
      ensures Valid() && View() == Apply(old(View()), Op.PutPixel(x, y, color))
    {
      if x >= grid.width || y >= grid.height { return; }
      DrawRect(x, y, x + 1, y + 1, color);
    }

    method FillRect(x: u32, y: u32, w: u32, h: u32, color: u8)
      requires Valid()
      modifies this, Buffers()
      ensures Valid() && View() == Apply(old(View()), Op.FillRect(x, y, w, h, color))
    {
      if x >= grid.width || y >= grid.height || w == 0 || h == 0 { return; }
      var x2, y2 := (x + w) % TWO_32, (y + h) % TWO_32;
      if x2 > grid.width { x2 := grid.width; }
      if y2 > grid.height { y2 := grid.height; }
      DrawRect(x, y, x2, y2, color);
    }

    method MarkDirtyRect(x: u32, y: u32, w: u32, h: u32)
      requires Valid()
      modifies this
      ensures Valid() && View() == Apply(old(View()), Op.MarkDirty(x, y, w, h))
    {
      if x >= grid.width || y >= grid.height || w == 0 || h == 0 { return; }
      var x2, y2 := (x + w) % TWO_32, (y + h) % TWO_32;
      if x2 > grid.width { x2 := grid.width; }
      if y2 > grid.height { y2 := grid.height; }
      ExpandDirtyRect(x, y, x2, y2);
    }

    /** One row of the dirty rectangle. */
    method CopyRow(y: u32)
      requires Valid() && back != null && minX <= maxX <= grid.width && y < grid.height
      modifies front
      ensures forall i | 0 <= i < front.Length ::
                front[i] == if InCell(grid, Rect(minX, y, maxX, y + 1), i) then back[i] else old(front[i])
    {
      var start := y * grid.pitch + minX;
      var x := 0;
      while x < maxX - minX
        invariant 0 <= x <= maxX - minX && back[..] == old(back[..])
        invariant forall i | 0 <= i < front.Length ::
                    front[i] == if InCell(grid, Rect(minX, y, minX + x, y + 1), i) then back[i] else old(front[i])
      {
        CellInside(grid, minX + x, y);
        forall i: nat | i < front.Length
          ensures i == At(grid, minX + x, y) <==> Row(grid, i) == y && Col(grid, i) == minX + x
        {
          CellOf(grid, i, minX + x, y);
        }
        front[start + x] := back[start + x];
        x := x + 1;
      }
    }

    method Flush()
      requires Valid()
      modifies this, front
      ensures Valid() && View() == Apply(old(View()), Op.Flush)
    {
      if back == null || !dirtyValid { return; }
      ghost var f := View();
      var y := minY;
      while y < maxY
        invariant minY <= y <= maxY && dirtyValid && back[..] == f.back.value
        invariant f.dirty == Some(Rect(minX, minY, maxX, maxY))
        invariant forall i | 0 <= i < front.Length ::
                    front[i] == if InCell(grid, Rect(minX, minY, maxX, y), i) then back[i] else f.front[i]
      {
        CopyRow(y);
        y := y + 1;
      }
      dirtyValid := false;
      assert front[..] == Copied(grid, f.front, f.back.value, f.dirty.value);
    }
  }
}
