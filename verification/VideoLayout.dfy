/** The layout of the video mixer: every visible source gets a rectangle of its own inside the frame. */
module VideoLayout {
  import opened Bytes

  datatype Rect = Rect(x: int, y: int, w: int, h: int)

  predicate Inside(r: Rect, width: nat, height: nat) {
    0 <= r.x && 0 <= r.y && 0 <= r.w && 0 <= r.h && r.x + r.w <= width && r.y + r.h <= height
  }

  /** No pixel belongs to both. */
  predicate Disjoint(a: Rect, b: Rect) {
    a.x + a.w <= b.x || b.x + b.w <= a.x || a.y + a.h <= b.y || b.y + b.h <= a.y
  }

  // ---------------------------------------------------------------- arithmetic

  lemma {:induction false} Times(a: nat, b: nat, w: nat)
    requires a <= b
    ensures a * w <= b * w
  {
    assert b * w == a * w + (b - a) * w;
    assert (b - a) * w >= 0;
  }

  /** Steps of w: the a-th ends before the b-th begins. */
  lemma {:induction false} Steps(a: nat, b: nat, w: nat)
    requires a < b
    ensures w * a + w <= w * b
  {
    Times(a + 1, b, w);
    assert (a + 1) * w == w * a + w && b * w == w * b;
  }

  /** n parts of size / n fit. */
  lemma {:induction false} Parts(size: nat, n: nat, k: nat)
    requires n > 0 && k <= n
    ensures size / n * k <= size
  {
    Times(k, n, size / n);
    assert size == size / n * n + size % n;
  }

  lemma {:induction false} LessOne(size: nat, n: nat)
    ensures size * (n - 1) == size * n - size
  {}

  lemma {:induction false} Minus(p: int, q: int, n: int)
    ensures (p - q) * n == p * n - q * n
  {}

  /** Two integer parts are no more than the whole. */
  lemma {:induction false} BigPart(size: nat, n: nat)
    requires n > 0
    ensures 0 <= size * (n - 1) / n <= size - size / n
  {
    var q := size / n;
    Parts(size, n, n);
    Parts(size, n, 1);
    LessOne(size, n);
    Minus(size, q, n);
    Times(0, n - 1, size);
    DivBelow((n - 1) * size, size - q, n);
    assert (n - 1) * size == size * (n - 1);
  }

  lemma {:induction false} DivBelow(a: nat, q: nat, n: nat)
    requires n > 0 && a <= q * n
    ensures 0 <= a / n <= q
  {
    assert a == a / n * n + a % n;
    Minus(q + 1, q, n);
    if a / n > q {
      Times(q + 1, a / n, n);
    }
  }

  // ---------------------------------------------------------------- grid

  function Square(r: nat): nat {
    r * r
  }

  /** calc_rows: the smallest square grid that has n cells. */
  method CalcRows(n: nat) returns (rows: nat)
    ensures rows >= 1 && n <= Square(rows) && forall r :: 1 <= r < rows ==> n > Square(r)
  {
    rows := 1;
    while n > Square(rows)
      invariant rows >= 1 && forall r :: 1 <= r < rows ==> n > Square(r)
      decreases n - rows
    {
      assert Square(rows) >= rows by { Times(1, rows, rows); }
      rows := rows + 1;
    }
  }

  function GridRect(width: nat, height: nat, rows: nat, idx: nat): Rect
    requires rows > 0
  {
    var w, h := width / rows, height / rows;
    Rect(w * (idx % rows), h * (idx / rows), w, h)
  }

  lemma {:induction false} GridCell(rows: nat, idx: nat)
    requires rows > 0 && idx < Square(rows)
    ensures idx % rows < rows && idx / rows < rows
  {
    if idx / rows >= rows {
      Times(rows, idx / rows, rows);
    }
  }

  lemma {:induction false} GridInside(width: nat, height: nat, rows: nat, idx: nat)
    requires rows > 0 && idx < Square(rows)
    ensures Inside(GridRect(width, height, rows, idx), width, height)
  {
    GridCell(rows, idx);
    CellFits(width, rows, idx % rows);
    CellFits(height, rows, idx / rows);
  }

  lemma {:induction false} CellFits(size: nat, n: nat, k: nat)
    requires k < n
    ensures 0 <= size / n * k && size / n * k + size / n <= size
  {
    Parts(size, n, k + 1);
    assert size / n * (k + 1) == size / n * k + size / n;
    assert 0 * (size / n) <= k * (size / n) by { Times(0, k, size / n); }
  }

  lemma {:induction false} SameColumn(i: nat, j: nat, n: nat)
    requires n > 0 && i != j && i % n == j % n
    ensures i / n != j / n
  {
    assert i == i / n * n + i % n && j == j / n * n + j % n;
  }

  /** Cells in different columns, or in different rows. */
  lemma {:induction false} CellsDisjoint(w: nat, h: nat, c: nat, d: nat, r: nat, q: nat)
    requires c != d || r != q
    ensures Disjoint(Rect(w * c, h * r, w, h), Rect(w * d, h * q, w, h))
  {
    if c < d {
      Steps(c, d, w);
    } else if d < c {
      Steps(d, c, w);
    } else if r < q {
      Steps(r, q, h);
    } else {
      Steps(q, r, h);
    }
  }

  lemma {:induction false} GridDisjoint(width: nat, height: nat, rows: nat, i: nat, j: nat)
    requires rows > 0 && i != j
    ensures Disjoint(GridRect(width, height, rows, i), GridRect(width, height, rows, j))
  {
    hide Disjoint;
    CellsApart(width / rows, height / rows, rows, i, j);
  }

  lemma {:induction false} CellsApart(w: nat, h: nat, rows: nat, i: nat, j: nat)
    requires rows > 0 && i != j
    ensures Disjoint(Rect(w * (i % rows), h * (i / rows), w, h), Rect(w * (j % rows), h * (j / rows), w, h))
  {
    hide Disjoint;
    assert i % rows != j % rows || i / rows != j / rows by {
      if i % rows == j % rows {
        SameColumn(i, j, rows);
      }
    }
    CellsDisjoint(w, h, i % rows, j % rows, i / rows, j / rows);
  }

  /** A pixel of the frame belongs to the rectangle. */
  predicate Covers(r: Rect, px: nat, py: nat) {
    r.x <= px < r.x + r.w && r.y <= py < r.y + r.h
  }

  /**
   * The grid has no gaps: cells are as large as rows of them fit, and every pixel up to the last row and
   * column of cells belongs to exactly the cell of its row and column.
   */
  lemma {:induction false} GridCovers(width: nat, height: nat, rows: nat, px: nat, py: nat, idx: nat)
    requires rows > 0 && width / rows > 0 && height / rows > 0 && px < width / rows * rows && py < height / rows * rows
    ensures width - width / rows * rows < rows && height - height / rows * rows < rows
    ensures Covers(GridRect(width, height, rows, idx), px, py) <==>
            idx % rows == px / (width / rows) && idx / rows == py / (height / rows)
  {
    var w, h := width / rows, height / rows;
    InStep(w, idx % rows, px);
    InStep(h, idx / rows, py);
  }

  /** The k-th step of w holds exactly the numbers whose quotient is k. */
  lemma {:induction false} InStep(w: nat, k: nat, v: nat)
    requires w > 0
    ensures w * k <= v < w * k + w <==> v / w == k
  {
    var q := v / w;
    assert v == w * q + v % w;
    if q < k {
      Steps(q, k, w);
    } else if k < q {
      Steps(k, q, w);
    }
  }

  // ---------------------------------------------------------------- focus

  /** Number of parts the frame is cut into: half the sources, but at least three (six in full focus). */
  function Cuts(n: nat, full: bool): (k: nat)
    ensures k >= 3
  {
    var least := if full then 12 else 6;
    (if n + 1 > least then n + 1 else least) / 2
  }

  function FocusRect(width: nat, height: nat, k: nat): Rect
    requires k > 0
  {
    Rect(0, 0, width * (k - 1) / k, height * (k - 1) / k)
  }

  /** The other sources: down the right side, then along the bottom from right to left. */
  function SideRect(width: nat, height: nat, k: nat, idx: nat): Option<Rect>
    requires k > 0
  {
    var w, h := width / k, height / k;
    if idx < k then Some(Rect(width - w, h * idx, w, h))
    else if idx < 2 * k - 1 then Some(Rect(w * (2 * k - 2 - idx), height - h, w, h))
    else None
  }

  lemma {:induction false} FocusInside(width: nat, height: nat, k: nat)
    requires k > 0
    ensures Inside(FocusRect(width, height, k), width, height)
  {
    BigPart(width, k);
    BigPart(height, k);
    Parts(width, k, 1);
    Parts(height, k, 1);
  }

  lemma {:induction false} SideInside(width: nat, height: nat, k: nat, idx: nat)
    requires k > 0
    ensures var r := SideRect(width, height, k, idx); r.Some? ==> Inside(r.value, width, height)
  {
    Parts(width, k, 1);
    Parts(height, k, 1);
    if idx < k {
      CellFits(height, k, idx);
    } else if idx < 2 * k - 1 {
      CellFits(width, k, 2 * k - 2 - idx);
    }
  }

  lemma {:induction false} FocusSide(width: nat, height: nat, k: nat, idx: nat)
    requires k > 0
    ensures var r := SideRect(width, height, k, idx); r.Some? ==> Disjoint(FocusRect(width, height, k), r.value)
  {
    BigPart(width, k);
    BigPart(height, k);
  }

  lemma {:induction false} SideSide(width: nat, height: nat, k: nat, i: nat, j: nat)
    requires k > 0 && i < j
    ensures var a, b := SideRect(width, height, k, i), SideRect(width, height, k, j);
            a.Some? && b.Some? ==> Disjoint(a.value, b.value)
  {
    if j < k {
      Steps(i, j, height / k);
    } else if j < 2 * k - 1 {
      if i >= k {
        Steps(2 * k - 2 - j, 2 * k - 2 - i, width / k);
      } else {
        Steps(2 * k - 2 - j, k - 1, width / k);
        CellFits(width, k, k - 1);
        assert width / k * (k - 1) + width / k <= width;
      }
    }
  }

  /** The focused part is k - 1 of k parts of the frame in each direction, less than a pixel short. */
  lemma {:induction false} FocusSize(width: nat, height: nat, k: nat)
    requires k > 0
    ensures var r := FocusRect(width, height, k);
            && r.x == 0 && r.y == 0 && k * r.w <= width * (k - 1) < k * (r.w + 1) && k * r.h <= height * (k - 1) < k * (r.h + 1)
  {
    NotNegative(width, k);
    NotNegative(height, k);
    var a: nat, b: nat := width * (k - 1), height * (k - 1);
    Quotient(a, k);
    Quotient(b, k);
  }

  lemma {:induction false} NotNegative(size: nat, k: nat)
    requires k > 0
    ensures 0 <= size * (k - 1)
  {}

  lemma {:induction false} Quotient(a: nat, k: nat)
    requires k > 0
    ensures k * (a / k) <= a < k * (a / k + 1)
  {
    assert a == a / k * k + a % k;
    assert k * (a / k + 1) == a / k * k + k;
  }

  /** The slots are one of k parts each: the right edge is covered from the top by the first k, one below the other. */
  lemma {:induction false} SideCovers(width: nat, height: nat, k: nat, px: nat, py: nat, idx: nat)
    requires k > 0 && width / k > 0 && height / k > 0 && width - width / k <= px < width && py < height / k * k && idx < k
    ensures SideRect(width, height, k, idx).Some?
    ensures Covers(SideRect(width, height, k, idx).value, px, py) <==> idx == py / (height / k)
  {
    InStep(height / k, idx, py);
  }

  /** The bottom edge is covered from the right by the others, one beside the other. */
  lemma {:induction false} BottomCovers(width: nat, height: nat, k: nat, px: nat, py: nat, idx: nat)
    requires k > 0 && width / k > 0 && height / k > 0 && height - height / k <= py < height && px < width / k * (k - 1)
    requires k <= idx < 2 * k - 1
    ensures SideRect(width, height, k, idx).Some?
    ensures Covers(SideRect(width, height, k, idx).value, px, py) <==> 2 * k - 2 - idx == px / (width / k)
  {
    InStep(width / k, 2 * k - 2 - idx, px);
  }

  // ---------------------------------------------------------------- a whole mix

  datatype Source = Source(id: nat, content: bool)

  datatype View = View(self: nat, selfview: bool, contentHide: bool, focus: Option<nat>, focusFull: bool, width: nat, height: nat)

  predicate Visible(v: View, s: Source) {
    !(s.id == v.self && !v.selfview) && !(s.content && v.contentHide)
  }

  predicate Focused(v: View, s: Source) {
    v.focus == Some(s.id)
  }

  /** Visible sources among the first i. */
  function Count(v: View, ss: seq<Source>, i: nat): (n: nat)
    requires i <= |ss|
    ensures n <= i
  {
    if i == 0 then 0 else Count(v, ss, i - 1) + if Visible(v, ss[i - 1]) then 1 else 0
  }

  /** The slot number of source i: visible sources before it that are not in focus. */
  function Slot(v: View, ss: seq<Source>, i: nat): nat
    requires i <= |ss|
  {
    if i == 0 then 0 else Slot(v, ss, i - 1) + if Visible(v, ss[i - 1]) && !Focused(v, ss[i - 1]) then 1 else 0
  }

  /** Where source_mix draws. */
  function Placed(v: View, n: nat, rows: nat, idx: nat, focused: bool): Option<Rect>
    requires rows > 0
  {
    if v.focus.Some? then
      var k := Cuts(n, v.focusFull);
      if focused then Some(FocusRect(v.width, v.height, k)) else SideRect(v.width, v.height, k, idx)
    else if rows == 1 then Some(Rect(0, 0, v.width, v.height))
    else Some(GridRect(v.width, v.height, rows, idx))
  }

  /** The source is drawn over the whole frame, behind all others. */
  predicate Background(v: View, s: Source) {
    Focused(v, s) && v.focusFull
  }

  /** What source i is given in the mix. */
  ghost function RectOf(v: View, ss: seq<Source>, rows: nat, i: nat): Option<Rect>
    requires i < |ss| && rows > 0
  {
    if Visible(v, ss[i]) && !Background(v, ss[i]) then Placed(v, Count(v, ss, |ss|), rows, Slot(v, ss, i), Focused(v, ss[i])) else None
  }

  /** The two loops of the mixer thread: count the visible sources, then place them one by one. */
  method Mix(v: View, ss: seq<Source>) returns (rects: seq<Option<Rect>>, rows: nat)
    ensures rows >= 1 && Count(v, ss, |ss|) <= Square(rows) && forall r :: 1 <= r < rows ==> Count(v, ss, |ss|) > Square(r)
    ensures |rects| == |ss| && forall i {:trigger rects[i]} :: 0 <= i < |ss| ==> rects[i] == RectOf(v, ss, rows, i)
  {
    hide Placed, Square;
    var n, i := 0, 0;
    while i < |ss|
      invariant i <= |ss| && n == Count(v, ss, i)
    {
      if Visible(v, ss[i]) {
        n := n + 1;
      }
      i := i + 1;
    }
    rows := CalcRows(n);
    rects := [];
    var idx := 0;
    i := 0;
    while i < |ss|
      invariant i <= |ss| && |rects| == i && idx == Slot(v, ss, i)
      invariant forall j {:trigger rects[j]} :: 0 <= j < i ==> rects[j] == RectOf(v, ss, rows, j)
    {
      var r := None;
      if Visible(v, ss[i]) {
        if !Background(v, ss[i]) {
          r := Placed(v, n, rows, idx, Focused(v, ss[i]));
        }
        if !Focused(v, ss[i]) {
          idx := idx + 1;
        }
      }
      rects := rects + [r];
      i := i + 1;
    }
  }

  /** Slots of visible sources that are not in focus are all different and below the count. */
  lemma {:induction false} SlotGrows(v: View, ss: seq<Source>, i: nat, j: nat)
    requires i < j <= |ss|
    ensures Slot(v, ss, i) + (if Visible(v, ss[i]) && !Focused(v, ss[i]) then 1 else 0) <= Slot(v, ss, j)
    decreases j
  {
    if i + 1 < j {
      SlotGrows(v, ss, i, j - 1);
    }
  }

  lemma {:induction false} SlotCount(v: View, ss: seq<Source>, i: nat)
    requires i <= |ss|
    ensures Slot(v, ss, i) <= Count(v, ss, i) && (v.focus.None? ==> Slot(v, ss, i) == Count(v, ss, i))
  {
    if i > 0 {
      SlotCount(v, ss, i - 1);
    }
  }

  /** A visible source in focus takes no slot. */
  lemma {:induction false} FocusCounts(v: View, ss: seq<Source>, f: nat, i: nat)
    requires f < i <= |ss| && Visible(v, ss[f]) && Focused(v, ss[f])
    ensures Slot(v, ss, i) + 1 <= Count(v, ss, i)
    decreases i
  {
    if f + 1 < i {
      FocusCounts(v, ss, f, i - 1);
    } else {
      SlotCount(v, ss, f);
    }
  }

  ghost predicate Distinct(ss: seq<Source>) {
    forall i, j {:trigger ss[i], ss[j]} :: 0 <= i < j < |ss| ==> ss[i].id != ss[j].id
  }

  lemma {:induction false} PlacedInside(v: View, n: nat, rows: nat, idx: nat, focused: bool)
    requires rows > 0 && (v.focus.None? ==> idx < Square(rows))
    ensures var r := Placed(v, n, rows, idx, focused); r.Some? ==> Inside(r.value, v.width, v.height)
  {
    if v.focus.Some? {
      FocusInside(v.width, v.height, Cuts(n, v.focusFull));
      SideInside(v.width, v.height, Cuts(n, v.focusFull), idx);
    } else {
      GridInside(v.width, v.height, rows, idx);
    }
  }

  /** Every rectangle of a mix lies inside the frame. */
  lemma {:induction false} MixInside(v: View, ss: seq<Source>, rows: nat, i: nat)
    requires rows > 0 && Count(v, ss, |ss|) <= Square(rows) && i < |ss|
    ensures var r := RectOf(v, ss, rows, i); r.Some? ==> Inside(r.value, v.width, v.height)
  {
    hide Placed, Inside, Square;
    if Visible(v, ss[i]) && !Background(v, ss[i]) {
      SlotGrows(v, ss, i, |ss|);
      SlotCount(v, ss, |ss|);
      PlacedInside(v, Count(v, ss, |ss|), rows, Slot(v, ss, i), Focused(v, ss[i]));
    }
  }

  lemma {:induction false} PlacedDisjoint(v: View, n: nat, rows: nat, i: nat, j: nat, fi: bool, fj: bool)
    requires rows > 1 || v.focus.Some?
    requires rows > 0 && !(fi && fj) && (!fi && !fj ==> i != j)
    ensures var a, b := Placed(v, n, rows, i, fi), Placed(v, n, rows, j, fj);
            (v.focus.None? ==> i != j) && a.Some? && b.Some? ==> Disjoint(a.value, b.value)
  {
    var k := Cuts(n, v.focusFull);
    if v.focus.None? {
      if i != j {
        GridDisjoint(v.width, v.height, rows, i, j);
      }
    } else if fi {
      FocusSide(v.width, v.height, k, j);
    } else if fj {
      FocusSide(v.width, v.height, k, i);
    } else if i < j {
      SideSide(v.width, v.height, k, i, j);
    } else {
      SideSide(v.width, v.height, k, j, i);
    }
  }

  /** Two sources of a mix never share a pixel, the background of full focus aside. */
  lemma {:induction false} MixDisjoint(v: View, ss: seq<Source>, rows: nat, i: nat, j: nat)
    requires Distinct(ss) && rows > 0 && Count(v, ss, |ss|) <= Square(rows) && i < j < |ss|
    ensures var a, b := RectOf(v, ss, rows, i), RectOf(v, ss, rows, j); a.Some? && b.Some? ==> Disjoint(a.value, b.value)
  {
    hide Placed, Disjoint;
    if RectOf(v, ss, rows, i).Some? && RectOf(v, ss, rows, j).Some? {
      SlotGrows(v, ss, i, j);
      assert ss[i].id != ss[j].id;
      if v.focus.None? {
        TwoRows(v, ss, rows, i, j);
      }
      PlacedDisjoint(v, Count(v, ss, |ss|), rows, Slot(v, ss, i), Slot(v, ss, j), Focused(v, ss[i]), Focused(v, ss[j]));
    }
  }

  lemma {:induction false} TwoRows(v: View, ss: seq<Source>, rows: nat, i: nat, j: nat)
    requires v.focus.None? && rows > 0 && Count(v, ss, |ss|) <= Square(rows) && i < j < |ss| && Visible(v, ss[i]) && Visible(v, ss[j])
    ensures rows > 1
  {
    SlotGrows(v, ss, i, j);
    SlotGrows(v, ss, j, |ss|);
    SlotCount(v, ss, |ss|);
  }

  /** Without focus, or with the focused source visible, every visible source has a rectangle. */
  lemma {:induction false} EverySourceShown(v: View, ss: seq<Source>, rows: nat, i: nat, f: nat)
    requires rows > 0 && i < |ss| && f < |ss| && Visible(v, ss[i]) && !Background(v, ss[i])
    requires v.focus.None? || (Visible(v, ss[f]) && Focused(v, ss[f]))
    ensures RectOf(v, ss, rows, i).Some?
  {
    hide Inside;
    if v.focus.Some? && !Focused(v, ss[i]) {
      SlotGrows(v, ss, i, |ss|);
      FocusCounts(v, ss, f, |ss|);
      Enough(Count(v, ss, |ss|), v.focusFull, Slot(v, ss, i));
    }
  }

  lemma {:induction false} Enough(n: nat, full: bool, idx: nat)
    requires idx + 2 <= n
    ensures idx < 2 * Cuts(n, full) - 1
  {}

  /** The fewest visible sources with which a hidden focus can cost a place. */
  function Least(full: bool): nat {
    if full then 12 else 6
  }

  lemma {:induction false} SideIff(v: View, n: nat, idx: nat)
    requires idx < n
    ensures SideRect(v.width, v.height, Cuts(n, v.focusFull), idx).Some? <==> idx + 1 < n || n % 2 == 1 || n < Least(v.focusFull)
  {
    assert (n + 1) / 2 * 2 == if n % 2 == 1 then n + 1 else n;
  }

  ghost predicate FocusShown(v: View, ss: seq<Source>) {
    exists f :: 0 <= f < |ss| && Visible(v, ss[f]) && Focused(v, ss[f])
  }

  lemma {:induction false} SlotIsCount(v: View, ss: seq<Source>, i: nat)
    requires i <= |ss| && !FocusShown(v, ss)
    ensures Slot(v, ss, i) == Count(v, ss, i)
  {
    if i > 0 {
      SlotIsCount(v, ss, i - 1);
    }
  }

  lemma {:induction false} CountGrows(v: View, ss: seq<Source>, i: nat, j: nat)
    requires i < j <= |ss|
    ensures Count(v, ss, i) + (if Visible(v, ss[i]) then 1 else 0) <= Count(v, ss, j)
    decreases j
  {
    if i + 1 < j {
      CountGrows(v, ss, i, j - 1);
    }
  }

  /**
   * Exactly the visible sources have a rectangle, but for the last one if the focus is on a source that
   * is not shown and the number of visible sources is even and not small.
   */
  lemma {:induction false} ShownIff(v: View, ss: seq<Source>, rows: nat, i: nat)
    requires rows > 0 && i < |ss|
    ensures var s, n := ss[i], Count(v, ss, |ss|);
            RectOf(v, ss, rows, i).Some? <==>
            && (s.id == v.self ==> v.selfview) && (s.content ==> !v.contentHide) && (v.focus == Some(s.id) ==> !v.focusFull)
            && (v.focus.None? || FocusShown(v, ss) || Count(v, ss, i) + 1 < n || n % 2 == 1 || n < Least(v.focusFull))
  {
    hide SideRect, Cuts;
    if !Visible(v, ss[i]) || Background(v, ss[i]) {
    } else if v.focus.None? {
      EverySourceShown(v, ss, rows, i, i);
    } else if FocusShown(v, ss) {
      var f :| 0 <= f < |ss| && Visible(v, ss[f]) && Focused(v, ss[f]);
      EverySourceShown(v, ss, rows, i, f);
    } else {
      CountGrows(v, ss, i, |ss|);
      SlotIsCount(v, ss, i);
      SideIff(v, Count(v, ss, |ss|), Slot(v, ss, i));
    }
  }

  /** Six sources without self view or content, and the focus on a seventh that is hidden: the sixth is not shown. */
  lemma {:induction false} HiddenFocus(v: View, ss: seq<Source>, rows: nat)
    requires rows > 0 && v == View(0, false, false, Some(0), false, v.width, v.height)
    requires |ss| == 7 && forall i {:trigger ss[i]} :: 0 <= i < 7 ==> ss[i] == Source((i + 1) % 7, false)
    ensures RectOf(v, ss, rows, 5) == None && Visible(v, ss[5]) && forall i :: 0 <= i < 5 ==> RectOf(v, ss, rows, i).Some?
  {
    hide Placed;
    CountAll(v, ss, 6);
    assert !Visible(v, ss[6]) && Count(v, ss, 7) == 6;
    CountAll(v, ss, 5);
    assert !FocusShown(v, ss);
    ShownIff(v, ss, rows, 5);
    forall i | 0 <= i < 5
      ensures RectOf(v, ss, rows, i).Some?
    {
      CountAll(v, ss, i);
      ShownIff(v, ss, rows, i);
    }
  }

  lemma {:induction false} CountAll(v: View, ss: seq<Source>, i: nat)
    requires i <= |ss| && forall j {:trigger ss[j]} :: 0 <= j < i ==> Visible(v, ss[j])
    ensures Count(v, ss, i) == i
  {
    if i > 0 {
      CountAll(v, ss, i - 1);
    }
  }
}
