/** Drawing into a back buffer and copying only the dirty rectangle to the screen. */
module Screen {
  import opened Words

  /** Pixels (x, y) with x1 <= x < x2 and y1 <= y < y2. */
  datatype Rect = Rect(x1: nat, y1: nat, x2: nat, y2: nat)

  /** pitch is the number of bytes from one row to the next. */
  datatype Grid = Grid(width: u32, height: u32, pitch: u32)

  /** back is None when no memory could be had for it, and drawing goes straight to front. */
  datatype Frame = Frame(grid: Grid, front: seq<u8>, back: Option<seq<u8>>, dirty: Option<Rect>)

  predicate In(r: Rect, x: nat, y: nat) {
    r.x1 <= x < r.x2 && r.y1 <= y < r.y2
  }

  predicate Empty(r: Rect) {
    r.x1 >= r.x2 || r.y1 >= r.y2
  }

  function Whole(g: Grid): Rect { Rect(0, 0, g.width, g.height) }

  predicate Sized(g: Grid, px: seq<u8>) {
    0 < g.pitch && g.width <= g.pitch && |px| == g.height * g.pitch < TWO_32
  }

  ghost predicate Valid(f: Frame) {
    && Sized(f.grid, f.front)
    && (f.back.Some? ==> Sized(f.grid, f.back.value))
    && (f.dirty.Some? ==>
          !Empty(f.dirty.value) && f.dirty.value.x2 <= f.grid.width && f.dirty.value.y2 <= f.grid.height)
  }

  // ---- cells of a buffer ----------------------------------------------------------------

  function Row(g: Grid, i: nat): nat requires 0 < g.pitch { i / g.pitch }
  function Col(g: Grid, i: nat): nat requires 0 < g.pitch { i % g.pitch }
  function At(g: Grid, x: nat, y: nat): nat { y * g.pitch + x }

  predicate InCell(g: Grid, r: Rect, i: nat)
    requires 0 < g.pitch
  {
    In(r, Col(g, i), Row(g, i))
  }

  lemma Scale(p: int, a: int, b: int)
    requires 0 < p && a <= b
    ensures p * a <= p * b
  {
  }

  lemma CellOf(g: Grid, i: nat, x: nat, y: nat)
    requires x < g.pitch
    ensures i == At(g, x, y) <==> Row(g, i) == y && Col(g, i) == x
  {
    var p: int, q, r := g.pitch, Row(g, i), Col(g, i);
    assert i == p * q + r;
    if q < y {
      Scale(p, q + 1, y);
    } else if y < q {
      Scale(p, y + 1, q);
    }
  }

  lemma CellInside(g: Grid, x: nat, y: nat)
    requires x < g.pitch && y < g.height
    ensures At(g, x, y) < g.height * g.pitch
  {
    Scale(g.pitch, y + 1, g.height);
  }

  // ---- the operations ---------------------------------------------------------------------

  function Painted(g: Grid, px: seq<u8>, r: Rect, color: u8): seq<u8>
    requires Sized(g, px)
  {
    seq(|px|, i requires 0 <= i < |px| => if InCell(g, r, i) then color else px[i])
  }

  function Copied(g: Grid, to: seq<u8>, from: seq<u8>, r: Rect): seq<u8>
    requires Sized(g, to) && Sized(g, from)
  {
    seq(|to|, i requires 0 <= i < |to| => if InCell(g, r, i) then from[i] else to[i])
  }

  function Expanded(dirty: Option<Rect>, r: Rect): Option<Rect> {
    if Empty(r) then dirty
    else if dirty.None? then Some(r)
    else
      var d := dirty.value;
      Some(Rect(Min(d.x1, r.x1), Min(d.y1, r.y1), Max(d.x2, r.x2), Max(d.y2, r.y2)))
  }

  function Target(f: Frame): seq<u8> {
    if f.back.Some? then f.back.value else f.front
  }

  function Draw(f: Frame, r: Rect, color: u8): Frame
    requires Sized(f.grid, Target(f))
  {
    var px := Painted(f.grid, Target(f), r, color);
    var g := if f.back.Some? then f.(back := Some(px)) else f.(front := px);
    g.(dirty := Expanded(f.dirty, r))
  }

  /** The rectangle the code works on: far edges are 32-bit sums, clipped to the screen. */
  function Area(g: Grid, x: u32, y: u32, w: u32, h: u32): Option<Rect> {
    if x >= g.width || y >= g.height || w == 0 || h == 0 then None
    else Some(Rect(x, y, Min((x + w) % TWO_32, g.width), Min((y + h) % TWO_32, g.height)))
  }

  datatype Op =
    | Clear(color: u8)
    | PutPixel(x: u32, y: u32, color: u8)
    | FillRect(x: u32, y: u32, w: u32, h: u32, color: u8)
    | MarkDirty(x: u32, y: u32, w: u32, h: u32)
    | Flush

  function Flushed(f: Frame): Frame
    requires Sized(f.grid, f.front) && (f.back.Some? ==> Sized(f.grid, f.back.value))
  {
    if f.back.None? || f.dirty.None? then f
    else f.(front := Copied(f.grid, f.front, f.back.value, f.dirty.value), dirty := None)
  }

  function Apply(f: Frame, op: Op): Frame
    requires Sized(f.grid, f.front) && (f.back.Some? ==> Sized(f.grid, f.back.value))
  {
    match op
    case Clear(c) => Draw(f, Whole(f.grid), c)
    case PutPixel(x, y, c) => if x >= f.grid.width || y >= f.grid.height then f else Draw(f, Rect(x, y, x + 1, y + 1), c)
    case FillRect(x, y, w, h, c) =>
      var a := Area(f.grid, x, y, w, h);
      if a.None? then f else Draw(f, a.value, c)
    case MarkDirty(x, y, w, h) =>
      var a := Area(f.grid, x, y, w, h);
      if a.None? then f else f.(dirty := Expanded(f.dirty, a.value))
    case Flush => Flushed(f)
  }

  lemma ApplyKeepsValid(f: Frame, op: Op)
    requires Valid(f)
    ensures Valid(Apply(f, op)) && Apply(f, op).grid == f.grid && (Apply(f, op).back.Some? <==> f.back.Some?)
  {
  }

  // ---- what is drawn, pixel by pixel ------------------------------------------------------

  /** The pixel at column x of row y where drawing goes. */
  function Pixel(f: Frame, x: nat, y: nat): u8
    requires Valid(f) && x < f.grid.width && y < f.grid.height
  {
    CellInside(f.grid, x, y);
    Target(f)[y * f.grid.pitch + x]
  }

  /** The colour an operation gives the pixel, if it paints it. */
  function PaintedBy(op: Op, x: nat, y: nat): Option<u8> {
    match op
    case Clear(c) => Some(c)
    case PutPixel(x0, y0, c) => if x == x0 && y == y0 then Some(c) else None
    case FillRect(x0, y0, w, h, c) =>
      if x0 + w < TWO_32 && y0 + h < TWO_32 && x0 <= x < x0 + w && y0 <= y < y0 + h then Some(c) else None
    case _ => None
  }

  lemma PixelPainted(f: Frame, r: Rect, color: u8, x: nat, y: nat)
    requires Valid(f) && x < f.grid.width && y < f.grid.height
    ensures var px := Painted(f.grid, Target(f), r, color);
            && At(f.grid, x, y) < |px|
            && px[At(f.grid, x, y)] == if In(r, x, y) then color else Pixel(f, x, y)
  {
    CellInside(f.grid, x, y);
    CellOf(f.grid, At(f.grid, x, y), x, y);
  }

  /** Each operation gives a pixel the colour it says, or leaves it as it was. */
  lemma PixelAfter(f: Frame, op: Op, x: nat, y: nat)
    requires Valid(f) && x < f.grid.width && y < f.grid.height
    ensures Valid(Apply(f, op)) && Apply(f, op).grid == f.grid
    ensures Pixel(Apply(f, op), x, y)
         == match PaintedBy(op, x, y) case Some(c) => c case None => Pixel(f, x, y)
  {
    ApplyKeepsValid(f, op);
    match op
    case Clear(c) => PixelPainted(f, Whole(f.grid), c, x, y);
    case PutPixel(x0, y0, c) =>
      if x0 < f.grid.width && y0 < f.grid.height {
        PixelPainted(f, Rect(x0, y0, x0 + 1, y0 + 1), c, x, y);
      }
    case FillRect(x0, y0, w, h, c) =>
      var a := Area(f.grid, x0, y0, w, h);
      if a.Some? {
        PixelPainted(f, a.value, c, x, y);
        FillClips(f.grid, x0, y0, w, h);
      }
    case _ =>
  }

  /** The last operation that paints the pixel decides its colour. */
  function Shown(ops: seq<Op>, x: nat, y: nat): Option<u8> {
    if ops == [] then None
    else
      var last := PaintedBy(ops[|ops| - 1], x, y);
      if last.Some? then last else Shown(ops[..|ops| - 1], x, y)
  }

  lemma {:induction false} RunConcat(f: Frame, a: seq<Op>, b: seq<Op>)
    requires Valid(f)
    ensures Run(f, a + b) == Run(Run(f, a), b)
    decreases |a|
  {
    if a == [] {
      assert a + b == b;
    } else {
      assert (a + b)[1..] == a[1..] + b;
      ApplyKeepsValid(f, a[0]);
      RunConcat(Apply(f, a[0]), a[1..], b);
    }
  }

  lemma {:induction false} RunKeepsValid(f: Frame, ops: seq<Op>)
    requires Valid(f)
    ensures Valid(Run(f, ops))
    decreases |ops|
  {
    if ops != [] {
      ApplyKeepsValid(f, ops[0]);
      RunKeepsValid(Apply(f, ops[0]), ops[1..]);
    }
  }

  /** After any run of operations a pixel has the colour the last one to paint it gave it. */
  lemma {:induction false} PixelAfterRun(f: Frame, ops: seq<Op>, x: nat, y: nat)
    requires Valid(f) && x < f.grid.width && y < f.grid.height
    ensures Valid(Run(f, ops))
    ensures Pixel(Run(f, ops), x, y) == match Shown(ops, x, y) case Some(c) => c case None => Pixel(f, x, y)
    decreases |ops|
  {
    RunKeepsValid(f, ops);
    if ops != [] {
      var (front, last) := (ops[..|ops| - 1], ops[|ops| - 1]);
      assert ops == front + [last];
      RunConcat(f, front, [last]);
      PixelAfterRun(f, front, x, y);
      var m := Run(f, front);
      PixelAfter(m, last, x, y);
      assert Run(m, [last]) == Apply(m, last) by { assert [last][1..] == []; }
    }
  }

  /** A flush shows the drawn pixel inside the dirty rectangle and leaves the rest of the screen. */
  lemma PixelFlushed(f: Frame, x: nat, y: nat)
    requires Valid(f) && x < f.grid.width && y < f.grid.height
    ensures var (r, i) := (Flushed(f), y * f.grid.pitch + x);
            && i < |r.front| == |f.front| && r.back == f.back && (f.back.Some? ==> r.dirty == None)
            && r.front[i] == if f.back.Some? && f.dirty.Some? && In(f.dirty.value, x, y) then Pixel(f, x, y)
                             else f.front[i]
  {
    CellInside(f.grid, x, y);
    CellOf(f.grid, At(f.grid, x, y), x, y);
  }

  predicate Within(a: Rect, b: Rect) {
    b.x1 <= a.x1 && b.y1 <= a.y1 && a.x2 <= b.x2 && a.y2 <= b.y2
  }

  /** The dirty rectangle grows to the smallest one around itself and the new rectangle. */
  lemma ExpandedIsLeast(dirty: Option<Rect>, r: Rect, other: Rect)
    ensures Expanded(dirty, r) == dirty <==> Empty(r) || (dirty.Some? && Within(r, dirty.value))
    ensures !Empty(r) ==>
              Expanded(dirty, r).Some? &&
              (Within(Expanded(dirty, r).value, other) <==>
                Within(r, other) && (dirty.Some? ==> Within(dirty.value, other)))
  {
  }

  function Run(f: Frame, ops: seq<Op>): (r: Frame)
    requires Sized(f.grid, f.front) && (f.back.Some? ==> Sized(f.grid, f.back.value))
    ensures r.grid == f.grid && Sized(r.grid, r.front) && (r.back.Some? ==> Sized(r.grid, r.back.value))
    decreases |ops|
  {
    if ops == [] then f else Run(Apply(f, ops[0]), ops[1..])
  }

  // ---- fill_rect against its promise ---------------------------------------------------------

  /** The rectangle a caller asks for, clipped to the screen. */
  function Wanted(g: Grid, x: u32, y: u32, w: u32, h: u32): Rect {
    Rect(x, y, Min(x + w, g.width), Min(y + h, g.height))
  }

  /** The clipping the header promises holds exactly when neither far edge passes 2^32;
      past it nothing at all is drawn. */
  lemma FillClips(g: Grid, x: u32, y: u32, w: u32, h: u32)
    requires x < g.width && y < g.height && 0 < w && 0 < h
    ensures Area(g, x, y, w, h) == Some(Wanted(g, x, y, w, h)) <==> x + w < TWO_32 && y + h < TWO_32
    ensures !(x + w < TWO_32 && y + h < TWO_32) ==>
              Empty(Area(g, x, y, w, h).value) && !Empty(Wanted(g, x, y, w, h))
  {
  }

  lemma AreaIsWanted(g: Grid, x: u32, y: u32, w: u32, h: u32)
    requires x + w < TWO_32 && y + h < TWO_32
    ensures match Area(g, x, y, w, h)
            case Some(a) => a == Wanted(g, x, y, w, h)
            case None => Empty(Wanted(g, x, y, w, h))
  {
  }

  /** Filling and marking make exactly the rectangle asked for dirty, clipped to the screen. */
  lemma MarksWanted(f: Frame, x: u32, y: u32, w: u32, h: u32, color: u8)
    requires Valid(f) && x + w < TWO_32 && y + h < TWO_32
    ensures Apply(f, FillRect(x, y, w, h, color)).dirty == Expanded(f.dirty, Wanted(f.grid, x, y, w, h))
    ensures Apply(f, MarkDirty(x, y, w, h)) == f.(dirty := Expanded(f.dirty, Wanted(f.grid, x, y, w, h)))
  {
    AreaIsWanted(f.grid, x, y, w, h);
  }

  // ---- the dirty rectangle -------------------------------------------------------------------

  predicate Visible(g: Grid, i: nat)
    requires 0 < g.pitch
  {
    InCell(g, Whole(g), i)
  }

  /** Both buffers agree at every visible pixel outside the dirty rectangle. */
  ghost predicate InSync(f: Frame)
    requires Valid(f)
  {
    f.back.Some? ==>
      forall i | 0 <= i < |f.front| && Visible(f.grid, i)
                 && !(f.dirty.Some? && InCell(f.grid, f.dirty.value, i)) ::
        f.front[i] == f.back.value[i]
  }

  /** What can be seen of two buffers is the same. */
  ghost predicate SameView(g: Grid, a: seq<u8>, b: seq<u8>)
    requires Sized(g, a) && Sized(g, b)
  {
    forall i | 0 <= i < |a| && Visible(g, i) :: a[i] == b[i]
  }

  lemma ClearSyncs(f: Frame, color: u8)
    requires Valid(f)
    ensures Valid(Apply(f, Clear(color))) && InSync(Apply(f, Clear(color)))
  {
    ApplyKeepsValid(f, Clear(color));
  }

  lemma ApplyKeepsSync(f: Frame, op: Op)
    requires Valid(f) && InSync(f)
    ensures Valid(Apply(f, op)) && InSync(Apply(f, op))
  {
    ApplyKeepsValid(f, op);
  }

  lemma {:induction false} RunKeepsSync(f: Frame, ops: seq<Op>)
    requires Valid(f) && InSync(f)
    ensures Valid(Run(f, ops)) && InSync(Run(f, ops))
    decreases |ops|
  {
    if ops != [] {
      ApplyKeepsSync(f, ops[0]);
      RunKeepsSync(Apply(f, ops[0]), ops[1..]);
    }
  }

  /** From a clear on, flushing the dirty rectangle shows what copying everything would. */
  lemma FlushShowsAll(f: Frame, color: u8, ops: seq<Op>)
    requires Valid(f) && f.back.Some?
    ensures var r := Run(f, [Clear(color)] + ops);
            && Valid(r) && r.back.Some?
            && SameView(r.grid, Flushed(r).front, Copied(r.grid, r.front, r.back.value, Whole(r.grid)))
            && SameView(r.grid, Flushed(r).front, r.back.value)
  {
    ClearSyncs(f, color);
    assert ([Clear(color)] + ops)[1..] == ops;
    RunKeepsSync(Apply(f, Clear(color)), ops);
    RunKeepsBack(f, [Clear(color)] + ops);
  }

  lemma {:induction false} RunKeepsBack(f: Frame, ops: seq<Op>)
    requires Valid(f)
    ensures Run(f, ops).back.Some? <==> f.back.Some?
    decreases |ops|
  {
    if ops != [] {
      ApplyKeepsValid(f, ops[0]);
      RunKeepsBack(Apply(f, ops[0]), ops[1..]);
    }
  }

  /** The back buffer of one frame looks like the front of one that draws directly. */
  ghost predicate Mirrors(f: Frame, d: Frame) {
    && Valid(f) && Valid(d) && f.grid == d.grid && f.back.Some? && d.back.None?
    && SameView(f.grid, f.back.value, d.front)
  }

  lemma ApplyMirrors(f: Frame, d: Frame, op: Op)
    requires Mirrors(f, d)
    ensures Mirrors(Apply(f, op), Apply(d, op))
  {
    ApplyKeepsValid(f, op);
    ApplyKeepsValid(d, op);
  }

  lemma {:induction false} RunMirrors(f: Frame, d: Frame, ops: seq<Op>)
    requires Mirrors(f, d)
    ensures Mirrors(Run(f, ops), Run(d, ops))
    decreases |ops|
  {
    if ops != [] {
      ApplyMirrors(f, d, ops[0]);
      RunMirrors(Apply(f, ops[0]), Apply(d, ops[0]), ops[1..]);
    }
  }

  /** Double buffering refines drawing on the screen: after a clear, any drawing with any
      flushes in between, and a flush, the two screens look the same. */
  lemma BufferedShowsDirect(f: Frame, d: Frame, color: u8, ops: seq<Op>)
    requires Valid(f) && Valid(d) && f.grid == d.grid && f.back.Some? && d.back.None?
    ensures SameView(f.grid, Flushed(Run(f, [Clear(color)] + ops)).front, Run(d, [Clear(color)] + ops).front)
  {
    var all := [Clear(color)] + ops;
    ApplyKeepsValid(f, Clear(color));
    ApplyKeepsValid(d, Clear(color));
    assert Mirrors(Apply(f, Clear(color)), Apply(d, Clear(color)));
    assert all[1..] == ops;
    RunMirrors(Apply(f, Clear(color)), Apply(d, Clear(color)), ops);
    FlushShowsAll(f, color, ops);
  }
}
