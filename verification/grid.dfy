/** The dense, fixed-size 2D container every grid of the library stores its
    cells in (Runtime/Grid.cs). The backing `T[,]` array may be null. */
module Grid {
  import opened Wrappers

  /** A rectangular array: `cols[x][y]` is the cell at `(x, y)`. The two
      dimension lengths are kept explicitly, so a `0 × h` array still reports
      height `h`, as a two-dimensional array does. */
  datatype Array2<T> = Array2(width: nat, height: nat, cols: seq<seq<T>>)

  predicate Shaped<T>(a: Array2<T>)
  {
    && |a.cols| == a.width
    && forall x :: 0 <= x < |a.cols| ==> |a.cols[x]| == a.height
  }

  /** A grid over a possibly-null (`None`) backing array. */
  datatype Grid<T> = Grid(data: Option<Array2<T>>)

  predicate WellFormed<T>(g: Grid<T>)
  {
    g.data.Some? ==> Shaped(g.data.value)
  }

  /** A fresh `width × height` array whose cells all hold `dflt`, the value
      the runtime gives a new array (`default(T)`). */
  function Create<T>(width: nat, height: nat, dflt: T): (g: Grid<T>)
    ensures WellFormed(g) && g.data.Some?
    ensures Width(g) == width && Height(g) == height
    ensures forall x, y :: IsValid(g, x, y) ==> Get(g, x, y) == dflt
  {
    Grid(Some(Array2(width, height, seq(width, _ => seq(height, _ => dflt)))))
  }

  /** A fresh `width × height` array, then filled with `val`. */
  function CreateFilled<T>(width: nat, height: nat, dflt: T, val: T): (g: Grid<T>)
    ensures WellFormed(g) && g.data.Some?
    ensures Width(g) == width && Height(g) == height
    ensures forall x, y :: IsValid(g, x, y) ==> Get(g, x, y) == val
  {
    Fill(Create(width, height, dflt), val)
  }

  /** Length of the first dimension; faults on a null array. */
  function Width<T>(g: Grid<T>): nat
    requires g.data.Some?
  {
    g.data.value.width
  }

  /** Length of the second dimension; faults on a null array. */
  function Height<T>(g: Grid<T>): nat
    requires g.data.Some?
  {
    g.data.value.height
  }

  /** Bounds check; never faults, and is false on a null array. */
  predicate IsValid<T>(g: Grid<T>, x: int, y: int)
  {
    g.data.Some? && 0 <= x < Width(g) && 0 <= y < Height(g)
  }

  /** Border test. It does not check bounds, and its disjunction
      short-circuits: a zero coordinate answers `true` before the array is
      touched, any other query on a null array faults. */
  function IsBoarder<T>(g: Grid<T>, x: int, y: int): (r: Result<bool>)
    ensures g.data.Some? ==> r == Ok(x == 0 || y == 0 || x == Width(g) - 1 || y == Height(g) - 1)
    ensures g.data.None? ==> r == (if x == 0 || y == 0 then Ok(true) else Err(NullReference))
  {
    if x == 0 || y == 0 then Ok(true)
    else if g.data.None? then Err(NullReference)
    else Ok(x == Width(g) - 1 || y == Height(g) - 1)
  }

  /** For an in-range cell, lying on the border is the same as having one of
      its four axis neighbours out of range. */
  lemma BorderMeansOpenSide<T>(g: Grid<T>, x: int, y: int)
    requires IsValid(g, x, y)
    ensures IsBoarder(g, x, y) ==
      Ok(!IsValid(g, x - 1, y) || !IsValid(g, x + 1, y) || !IsValid(g, x, y - 1) || !IsValid(g, x, y + 1))
  {
  }

  /** The border test does not check bounds: the last column, far below the
      last row, still counts as border. */
  lemma BorderOutsideGrid<T>(g: Grid<T>)
    requires g.data.Some? && Width(g) > 0 && Height(g) <= 100
    ensures IsBoarder(g, Width(g) - 1, 100) == Ok(true)
    ensures !IsValid(g, Width(g) - 1, 100)
  {
  }

  /** The unchecked indexer, read side. */
  function Get<T>(g: Grid<T>, x: int, y: int): T
    requires WellFormed(g) && IsValid(g, x, y)
  {
    g.data.value.cols[x][y]
  }

  /** Both grids are null, or both have the same dimensions. */
  predicate SameShape<T>(g: Grid<T>, h: Grid<T>)
  {
    && g.data.Some? == h.data.Some?
    && (g.data.Some? ==> Width(g) == Width(h) && Height(g) == Height(h))
  }

  /** The unchecked indexer, write side: exactly one cell changes. */
  function Set<T>(g: Grid<T>, x: int, y: int, v: T): (r: Grid<T>)
    requires WellFormed(g) && IsValid(g, x, y)
    ensures WellFormed(r) && SameShape(g, r)
    ensures Get(r, x, y) == v
    ensures forall i, j :: IsValid(g, i, j) && (i, j) != (x, y) ==> Get(r, i, j) == Get(g, i, j)
  {
    var a := g.data.value;
    Grid(Some(a.(cols := a.cols[x := a.cols[x][y := v]])))
  }

  // ---------------------------------------------------------------------------
  // Iteration order

  /** The visits of one sweep of row `y`: `x` runs from 0 to `width - 1`. */
  function Row(width: nat, y: nat): (row: seq<(int, int)>)
  {
    seq(width, i => (i, y))
  }

  /** The visits of rows `0 .. height - 1`, row after row. */
  function RowMajor(width: nat, height: nat): seq<(int, int)>
  {
    if height == 0 then [] else RowMajor(width, height - 1) + Row(width, height - 1)
  }

  /** The sequence of `(x, y)` pairs `Iterate` hands to its callback. */
  function Visits<T>(g: Grid<T>): seq<(int, int)>
  {
    if g.data.None? then [] else RowMajor(Width(g), Height(g))
  }

  /** `Iterate`: `y` in the outer loop, `x` in the inner one; nothing at all
      on a null array. The callback is abstracted away: the method returns
      the argument pairs the callback would receive, in order. */
  method Iterate<T>(g: Grid<T>) returns (visits: seq<(int, int)>)
    ensures visits == Visits(g)
  {
    visits := [];
    if g.data.None? {
      return;
    }
    var width, height := Width(g), Height(g);
    for j := 0 to height
      invariant visits == RowMajor(width, j)
    {
      for i := 0 to width
        invariant visits == RowMajor(width, j) + Row(width, j)[..i]
      {
        assert Row(width, j)[..i + 1] == Row(width, j)[..i] + [(i, j)];
        visits := visits + [(i, j)];
      }
    }
  }

  lemma MulAtLeast(w: int, d: int)
    requires w > 0 && d >= 1
    ensures w * d >= w
  {
    if d > 1 {
      MulAtLeast(w, d - 1);
    }
  }

  /** Quotient and remainder are unique: the library's row-major index
      `y * width + x` decodes back to `(x, y)`. */
  lemma DivModUnique(k: int, w: int, q: int, r: int)
    requires w > 0 && 0 <= r < w && k == q * w + r
    ensures k / w == q && k % w == r
  {
    var d := k / w - q;
    assert w * d == r - k % w;
    if d >= 1 {
      MulAtLeast(w, d);
    } else if d <= -1 {
      MulAtLeast(w, -d);
    }
  }

  /** The `k`-th visit is `(k mod width, k div width)`; there are exactly
      `width * height` of them. */
  lemma {:induction false} RowMajorIndex(width: nat, height: nat)
    ensures |RowMajor(width, height)| == width * height
    ensures forall k :: 0 <= k < width * height ==> RowMajor(width, height)[k] == (k % width, k / width)
  {
    if height > 0 {
      RowMajorIndex(width, height - 1);
      var prefix := RowMajor(width, height - 1);
      assert |prefix| == width * (height - 1) == width * height - width;
      forall k | width * height - width <= k < width * height
        ensures RowMajor(width, height)[k] == (k % width, k / width)
      {
        DivModUnique(k, width, height - 1, k - (width * height - width));
      }
    }
  }

  /** Row-major order covers exactly the in-range pairs ... */
  lemma {:induction false} RowMajorMembers(width: nat, height: nat, x: int, y: int)
    ensures (x, y) in RowMajor(width, height) <==> 0 <= x < width && 0 <= y < height
  {
    if height > 0 {
      RowMajorMembers(width, height - 1, x, y);
      assert (x, y) in Row(width, height - 1) <==> 0 <= x < width && y == height - 1 by {
        if 0 <= x < width && y == height - 1 {
          assert Row(width, height - 1)[x] == (x, y);
        }
      }
    }
  }

  /** ... and never repeats one. */
  lemma {:induction false} RowMajorDistinct(width: nat, height: nat)
    ensures forall p, q :: 0 <= p < q < |RowMajor(width, height)| ==>
      RowMajor(width, height)[p] != RowMajor(width, height)[q]
  {
    if height > 0 {
      RowMajorDistinct(width, height - 1);
      var prefix := RowMajor(width, height - 1);
      var row := Row(width, height - 1);
      forall k | 0 <= k < |prefix|
        ensures prefix[k].1 < height - 1
      {
        RowMajorMembers(width, height - 1, prefix[k].0, prefix[k].1);
      }
    }
  }

  /** `Iterate` visits exactly the valid coordinates ... */
  lemma VisitsAreValid<T>(g: Grid<T>, x: int, y: int)
    ensures (x, y) in Visits(g) <==> IsValid(g, x, y)
  {
    if g.data.Some? {
      RowMajorMembers(Width(g), Height(g), x, y);
    }
  }

  /** ... each of them exactly once. */
  lemma VisitsDistinct<T>(g: Grid<T>)
    ensures forall p, q :: 0 <= p < q < |Visits(g)| ==> Visits(g)[p] != Visits(g)[q]
  {
    if g.data.Some? {
      RowMajorDistinct(Width(g), Height(g));
    }
  }

  // ---------------------------------------------------------------------------
  // Fill

  /** Writes `v` at every pair of `visits`, in order. */
  function SetAll<T>(g: Grid<T>, visits: seq<(int, int)>, v: T): (r: Grid<T>)
    requires WellFormed(g)
    requires forall k :: 0 <= k < |visits| ==> IsValid(g, visits[k].0, visits[k].1)
    ensures WellFormed(r) && SameShape(g, r)
    decreases |visits|
  {
    if visits == [] then g
    else
      var last := visits[|visits| - 1];
      assert IsValid(g, last.0, last.1);
      Set(SetAll(g, visits[..|visits| - 1], v), last.0, last.1, v)
  }

  /** A cell holds `v` after `SetAll` exactly when it was visited. */
  lemma {:induction false} SetAllEffect<T>(g: Grid<T>, visits: seq<(int, int)>, v: T, x: int, y: int)
    requires WellFormed(g)
    requires forall k :: 0 <= k < |visits| ==> IsValid(g, visits[k].0, visits[k].1)
    requires IsValid(g, x, y)
    ensures Get(SetAll(g, visits, v), x, y) == if (x, y) in visits then v else Get(g, x, y)
    decreases |visits|
  {
    if visits != [] {
      var init := visits[..|visits| - 1];
      SetAllEffect(g, init, v, x, y);
      assert visits == init + [visits[|visits| - 1]];
    }
  }

  /** `Fill` is `Iterate` with a callback that stores `v` at each visited cell. */
  function Fill<T>(g: Grid<T>, v: T): (r: Grid<T>)
    requires WellFormed(g)
    ensures WellFormed(r) && SameShape(g, r)
    ensures forall x, y :: IsValid(r, x, y) ==> Get(r, x, y) == v
  {
    var visits := Visits(g);
    assert forall k :: 0 <= k < |visits| ==> IsValid(g, visits[k].0, visits[k].1) by {
      forall k | 0 <= k < |visits| {
        VisitsAreValid(g, visits[k].0, visits[k].1);
      }
    }
    var r := SetAll(g, visits, v);
    assert forall x, y :: IsValid(r, x, y) ==> Get(r, x, y) == v by {
      forall x, y | IsValid(r, x, y)
        ensures Get(r, x, y) == v
      {
        VisitsAreValid(g, x, y);
        SetAllEffect(g, visits, v, x, y);
      }
    }
    r
  }

  // ---------------------------------------------------------------------------
  // ToString

  /** The concatenation of `parts`, left to right. */
  function Concat(parts: seq<string>): (s: string)
  {
    if parts == [] then "" else Concat(parts[..|parts| - 1]) + parts[|parts| - 1]
  }

  lemma ConcatPrefix(parts: seq<string>, k: nat)
    requires k < |parts|
    ensures Concat(parts[..k + 1]) == Concat(parts[..k]) + parts[k]
  {
    assert parts[..k + 1][..k] == parts[..k];
  }

  /** The rendering of the cells of row `y`: each is `" " + show(cell) + " "`. */
  function CellTexts<T>(a: Array2<T>, show: T -> string, y: nat): (texts: seq<string>)
    requires Shaped(a) && y < a.height
  {
    seq(a.width, i requires 0 <= i < a.width => " " + show(a.cols[i][y]) + " ")
  }

  /** The rendering of row `y`: its cells between brackets, then a newline. */
  function RowText<T>(a: Array2<T>, show: T -> string, y: nat): string
    requires Shaped(a) && y < a.height
  {
    "[" + Concat(CellTexts(a, show, y)) + "]\n"
  }

  /** The debugging dump: `"null"` for a null array, otherwise one bracketed
      line per row `y`, cells in increasing `x`. The per-cell `ToString` of
      the payload type is the parameter `show`. */
  function Render<T>(g: Grid<T>, show: T -> string): string
    requires WellFormed(g)
  {
    match g.data
    case None => "null"
    case Some(a) => Concat(seq(a.height, j requires 0 <= j < a.height => RowText(a, show, j)))
  }

  /** `ToString`, as the library builds it: one string grown row by row and
      cell by cell. */
  method ToString<T>(g: Grid<T>, show: T -> string) returns (dump: string)
    requires WellFormed(g)
    ensures dump == Render(g, show)
  {
    if g.data.None? {
      return "null";
    }
    var a := g.data.value;
    var rows := seq(a.height, j requires 0 <= j < a.height => RowText(a, show, j));
    dump := "";
    for j := 0 to a.height
      invariant dump == Concat(rows[..j])
    {
      var cells := CellTexts(a, show, j);
      var line := "[";
      for i := 0 to a.width
        invariant line == "[" + Concat(cells[..i])
      {
        ConcatPrefix(cells, i);
        line := line + (" " + show(a.cols[i][j]) + " ");
      }
      assert cells[..a.width] == cells;
      ConcatPrefix(rows, j);
      dump := dump + (line + "]\n");
    }
    assert rows[..a.height] == rows;
  }

  /** Number of occurrences of `c` in `s`. */
  function Count(s: string, c: char): nat
  {
    if s == [] then 0 else Count(s[..|s| - 1], c) + (if s[|s| - 1] == c then 1 else 0)
  }

  lemma {:induction false} CountAppend(s: string, t: string, c: char)
    ensures Count(s + t, c) == Count(s, c) + Count(t, c)
    decreases |t|
  {
    if t != [] {
      CountAppend(s, t[..|t| - 1], c);
      assert (s + t)[..|s + t| - 1] == s + t[..|t| - 1];
    } else {
      assert s + t == s;
    }
  }

  lemma {:induction false} CountConcat(parts: seq<string>, c: char, n: nat)
    requires forall k :: 0 <= k < |parts| ==> Count(parts[k], c) == n
    ensures Count(Concat(parts), c) == n * |parts|
    decreases |parts|
  {
    if parts != [] {
      CountConcat(parts[..|parts| - 1], c, n);
      CountAppend(Concat(parts[..|parts| - 1]), parts[|parts| - 1], c);
      assert n * |parts| == n * (|parts| - 1) + n;
    }
  }

  /** When no cell renders a line break, the dump of a non-null grid has
      exactly one line per row. */
  lemma RenderLines<T>(g: Grid<T>, show: T -> string)
    requires WellFormed(g) && g.data.Some?
    requires forall v :: Count(show(v), '\n') == 0
    ensures Count(Render(g, show), '\n') == Height(g)
  {
    var a := g.data.value;
    var rows := seq(a.height, j requires 0 <= j < a.height => RowText(a, show, j));
    forall j | 0 <= j < a.height
      ensures Count(rows[j], '\n') == 1
    {
      var cells := CellTexts(a, show, j);
      forall i | 0 <= i < |cells|
        ensures Count(cells[i], '\n') == 0
      {
        CountAppend(" ", show(a.cols[i][j]), '\n');
        CountAppend(" " + show(a.cols[i][j]), " ", '\n');
      }
      CountConcat(cells, '\n', 0);
      CountAppend("[", Concat(cells), '\n');
      CountAppend("[" + Concat(cells), "]\n", '\n');
    }
    CountConcat(rows, '\n', 1);
  }
}
