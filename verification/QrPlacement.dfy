/** The zig-zag placement of codeword bits in the QR grid, with data masking
    (ISO/IEC 18004:2015, sections 7.7.3 and 7.8). */
module QrPlacement {
  import opened Wrappers
  import opened Bits

  /** null, false and true in the source. */
  datatype Module = Empty | Light | Dark

  datatype Cell = Cell(row: int, col: int)

  type Grid = map<Cell, Module>

  function Shade(dark: bool): Module { if dark then Dark else Light }

  /** The eight mask conditions; other patterns throw. */
  predicate Mask(pattern: nat, i: int, j: int)
    requires pattern < 8
  {
    match pattern
    case 0 => (i + j) % 2 == 0
    case 1 => i % 2 == 0
    case 2 => j % 3 == 0
    case 3 => (i + j) % 3 == 0
    case 4 => (i / 2 + j / 3) % 2 == 0
    case 5 => (i * j) % 2 + (i * j) % 3 == 0
    case 6 => ((i * j) % 2 + (i * j) % 3) % 2 == 0
    case _ => ((i * j) % 3 + (i + j) % 2) % 2 == 0
  }

  // ---- The path -------------------------------------------------------------------------------

  /** Two columns wide, from `row` to the edge of the grid. */
  function ColumnPath(n: nat, row: int, up: bool, col: int): seq<Cell>
    decreases if up then row + 1 else n - row
  {
    if row < 0 || row >= n then []
    else [Cell(row, col), Cell(row, col - 1)] + ColumnPath(n, if up then row - 1 else row + 1, up, col)
  }

  /** Column pairs from `col` to the left, alternately up and down; column 6 is stepped over. */
  function Path(n: nat, col: int, up: bool): seq<Cell>
    decreases col + 2
  {
    if col <= 0 then []
    else
      var c := if col == 6 then 5 else col;
      ColumnPath(n, if up then n - 1 else 0, up, c) + Path(n, c - 2, !up)
  }

  predicate Distinct<T(==)>(s: seq<T>) {
    forall i, j :: 0 <= i < j < |s| ==> s[i] != s[j]
  }

  lemma DistinctAppend<T>(s: seq<T>, t: seq<T>)
    requires Distinct(s) && Distinct(t)
    requires forall x :: x in s ==> x !in t
    ensures Distinct(s + t)
  {
    forall i, j | 0 <= i < j < |s + t| ensures (s + t)[i] != (s + t)[j] {
      if i < |s| <= j {
        assert s[i] in s && t[j - |s|] in t;
      }
    }
  }

  lemma {:induction false} ColumnCells(n: nat, row: int, up: bool, col: int)
    ensures forall x :: x in ColumnPath(n, row, up, col) <==>
              && (x.col == col || x.col == col - 1)
              && if up then 0 <= x.row <= row < n else 0 <= row <= x.row < n
    ensures Distinct(ColumnPath(n, row, up, col))
    decreases if up then row + 1 else n - row
  {
    if 0 <= row < n {
      var next := if up then row - 1 else row + 1;
      ColumnCells(n, next, up, col);
      DistinctAppend([Cell(row, col), Cell(row, col - 1)], ColumnPath(n, next, up, col));
    }
  }

  /** The columns a path meets when it starts at `col`: even and at least 6, or odd below 6. */
  predicate StartsWell(col: int) {
    (col >= 6 && col % 2 == 0) || (-1 <= col <= 5 && col % 2 == 1)
  }

  lemma NoCells()
    ensures Distinct<Cell>([])
  {}

  /** MAIN RESULT: from the right edge of an odd grid the path visits every module outside column 6
      exactly once, and no other. */
  lemma {:induction false} PathCovers(n: nat, col: int, up: bool)
    requires StartsWell(col)
    ensures forall x :: x in Path(n, col, up) <==> 0 <= x.row < n && 0 <= x.col <= col && x.col != 6
    ensures Distinct(Path(n, col, up))
    decreases col + 2
  {
    hide ColumnPath, Distinct;
    NoCells();
    if col > 0 {
      var c := if col == 6 then 5 else col;
      var start := if up then n - 1 else 0;
      ColumnCells(n, start, up, c);
      PathCovers(n, c - 2, !up);
      DistinctAppend(ColumnPath(n, start, up, c), Path(n, c - 2, !up));
    }
  }

  // ---- The order a reader follows -------------------------------------------------------------
  //
  // ISO/IEC 18004:2015, section 7.7.3, from one module to the next, and table 10. A reader knows
  // nothing of the encoder's loops: it tells the direction from the column.

  /** The right column of the two-module wide column a module is in. */
  function RightColumn(col: int): int {
    if (col > 6) == (col % 2 == 0) then col else col + 1
  }

  /** Columns are read upwards and downwards in turn, the one at the right edge upwards. */
  predicate Upwards(n: nat, right: int) {
    (n - 1 - EvenOf(right)) % 4 == 0
  }

  /** As if column 6 were not there. */
  function EvenOf(right: int): int {
    if right > 6 then right else right + 1
  }

  /** The module after x: the one to its left; or the next row's right one, in the direction of
      reading; or at the edge the right one of the next column to the left, which leaves out column 6. */
  function NextModule(n: nat, x: Cell): Option<Cell> {
    var right := RightColumn(x.col);
    var row := if Upwards(n, right) then x.row - 1 else x.row + 1;
    var left := if right == 8 then 5 else right - 2;
    if x.col == right then Some(Cell(x.row, right - 1))
    else if 0 <= row < n then Some(Cell(row, right))
    else if left > 0 then Some(Cell(x.row, left))
    else None
  }

  /** The modules from x on. */
  function WalkFrom(n: nat, x: Cell): seq<Cell>
    decreases RightColumn(x.col), if Upwards(n, RightColumn(x.col)) then x.row + 1 else n - x.row, x.col - RightColumn(x.col) + 1
  {
    if !(0 <= x.row < n && 0 <= x.col < n && x.col != 6) then [] else
      match NextModule(n, x)
      case None => [x]
      case Some(y) => [x] + WalkFrom(n, y)
  }

  /** Reading starts at the bottom right; a grid of seven has column 6 there. */
  function Walk(n: nat): seq<Cell> {
    WalkFrom(n, Cell(n - 1, if n == 7 then 5 else n - 1))
  }

  /** Which modules the data mask of a pattern inverts. */
  predicate Inverted(pattern: nat, row: int, col: int) {
    || (pattern == 0 && (row + col) % 2 == 0)
    || (pattern == 1 && row % 2 == 0)
    || (pattern == 2 && col % 3 == 0)
    || (pattern == 3 && (row + col) % 3 == 0)
    || (pattern == 4 && (row / 2 + col / 3) % 2 == 0)
    || (pattern == 5 && (row * col) % 2 == 0 && (row * col) % 3 == 0)
    || (pattern == 6 && ((row * col) % 2 + (row * col) % 3) % 2 == 0)
    || (pattern == 7 && ((row + col) % 2 + (row * col) % 3) % 2 == 0)
  }

  lemma MaskInverts(pattern: nat, row: int, col: int)
    requires pattern < 8
    ensures Mask(pattern, row, col) <==> Inverted(pattern, row, col)
  {
    var p := row * col;
    assert p % 2 + p % 3 == 0 <==> p % 2 == 0 && p % 3 == 0;
  }

  predicate IsRight(n: nat, col: int) {
    1 <= col < n && RightColumn(col) == col && col != 6
  }

  function LeftOf(right: int): int {
    if right == 8 then 5 else right - 2
  }

  lemma StepInRow(n: nat, row: int, col: int)
    requires 0 <= row < n && IsRight(n, col)
    ensures WalkFrom(n, Cell(row, col)) == [Cell(row, col)] + WalkFrom(n, Cell(row, col - 1))
  {
    assert NextModule(n, Cell(row, col)) == Some(Cell(row, col - 1));
  }

  lemma StepOn(n: nat, row: int, col: int)
    requires 0 <= row < n && IsRight(n, col)
    ensures var next := if Upwards(n, col) then row - 1 else row + 1;
            var more := if 0 <= next < n then WalkFrom(n, Cell(next, col))
                        else if LeftOf(col) > 0 then WalkFrom(n, Cell(row, LeftOf(col))) else [];
            WalkFrom(n, Cell(row, col - 1)) == [Cell(row, col - 1)] + more
  {
    assert RightColumn(col - 1) == col;
  }

  /** A column pair is walked row by row, and then comes the next pair. */
  lemma {:induction false} WalkColumn(n: nat, row: int, col: int)
    requires 0 <= row < n && IsRight(n, col)
    ensures var up := Upwards(n, col);
            var more := if LeftOf(col) > 0 then WalkFrom(n, Cell(if up then 0 else n - 1, LeftOf(col))) else [];
            WalkFrom(n, Cell(row, col)) == ColumnPath(n, row, up, col) + more
    decreases if Upwards(n, col) then row + 1 else n - row
  {
    hide WalkFrom, Upwards, RightColumn;
    var up := Upwards(n, col);
    var x, y := Cell(row, col), Cell(row, col - 1);
    var next := if up then row - 1 else row + 1;
    var more: seq<Cell> := if LeftOf(col) > 0 then WalkFrom(n, Cell(if up then 0 else n - 1, LeftOf(col))) else [];
    StepInRow(n, row, col);
    StepOn(n, row, col);
    ColumnStep(n, row, up, col);
    if 0 <= next < n {
      WalkColumn(n, next, col);
      Assoc([x, y], ColumnPath(n, next, up, col), more);
      Assoc([x], [y], WalkFrom(n, Cell(next, col)));
    } else {
      Assoc([x], [y], more);
    }
    assert [x] + [y] == [x, y];
  }

  lemma ColumnStep(n: nat, row: int, up: bool, col: int)
    requires 0 <= row < n
    ensures var next := if up then row - 1 else row + 1;
            var more := if 0 <= next < n then ColumnPath(n, next, up, col) else [];
            ColumnPath(n, row, up, col) == [Cell(row, col), Cell(row, col - 1)] + more
  {}

  lemma {:induction false} WalkPath(n: nat, col: int)
    requires n >= 7 && n % 2 == 1 && IsRight(n, col)
    ensures var up := Upwards(n, col); WalkFrom(n, Cell(if up then n - 1 else 0, col)) == Path(n, col, up)
    decreases col
  {
    var up, left := Upwards(n, col), LeftOf(col);
    WalkColumn(n, if up then n - 1 else 0, col);
    if left > 0 {
      Alternates(n, col);
      WalkPath(n, left);
      if col == 8 { assert Path(n, 6, !up) == Path(n, 5, !up); }
    } else {
      assert Path(n, col - 2, !up) == [];
    }
  }

  lemma EvenRight(n: nat, col: int)
    requires IsRight(n, col)
    ensures EvenOf(col) % 2 == 0
  {}

  lemma NextRight(n: nat, col: int)
    requires IsRight(n, col) && LeftOf(col) > 0
    ensures IsRight(n, LeftOf(col)) && EvenOf(LeftOf(col)) == EvenOf(col) - 2
  {
    hide EvenOf;
    EvenRight(n, col);
    EvenCases(col);
  }

  lemma EvenCases(col: int)
    ensures EvenOf(col) == if col > 6 then col else col + 1
    ensures EvenOf(LeftOf(col)) == if LeftOf(col) > 6 then LeftOf(col) else LeftOf(col) + 1
  {}

  lemma Alternates(n: nat, col: int)
    requires n % 2 == 1 && IsRight(n, col) && LeftOf(col) > 0
    ensures IsRight(n, LeftOf(col)) && Upwards(n, LeftOf(col)) == !Upwards(n, col)
  {
    hide IsRight, LeftOf, EvenOf;
    EvenRight(n, col);
    NextRight(n, col);
    NextTurn(n - 1 - EvenOf(col));
  }

  lemma NextTurn(m: int)
    requires m % 2 == 0
    ensures (m + 2) % 4 == 0 <==> m % 4 != 0
  {}

  /** MAIN RESULT: the encoder's loops place the bits in the order of the reader's walk. */
  lemma WalkIsZigZag(n: nat)
    requires n >= 7 && n % 2 == 1
    ensures Walk(n) == ZigZag(n)
  {
    hide WalkFrom;
    if n == 7 {
      WalkPath(n, 5);
      assert Path(7, 6, true) == Path(7, 5, true);
    } else {
      WalkPath(n, n - 1);
    }
  }

  // ---- Filling --------------------------------------------------------------------------------

  /** The i-th data bit; past the data it is zero. */
  function Bit(data: seq<nat>, i: nat): bool {
    i / BYTE < |data| && Shr(data[i / BYTE], BYTE - 1 - i % BYTE) % 2 == 1
  }

  function Masked(pattern: nat, x: Cell, bit: bool): Module
    requires pattern < 8
  {
    Shade(bit != Mask(pattern, x.row, x.col))
  }

  predicate Within(path: seq<Cell>, grid: Grid) {
    forall k :: 0 <= k < |path| ==> path[k] in grid
  }

  /** Empty cells along the path take the bits from the i-th on. */
  function Fill(path: seq<Cell>, grid: Grid, data: seq<nat>, i: nat, pattern: nat): Grid
    requires pattern < 8 && Within(path, grid)
  {
    if path == [] then grid
    else if grid[path[0]] == Empty then
      Fill(path[1..], grid[path[0] := Masked(pattern, path[0], Bit(data, i))], data, i + 1, pattern)
    else
      Fill(path[1..], grid, data, i, pattern)
  }

  /** The bits of the cells that were empty in `before`, in path order, with the mask undone. */
  function ReadBack(path: seq<Cell>, before: Grid, after: Grid, pattern: nat): seq<bool>
    requires pattern < 8 && Within(path, before) && Within(path, after)
  {
    if path == [] then []
    else
      (if before[path[0]] == Empty
       then [(after[path[0]] == Dark) != Inverted(pattern, path[0].row, path[0].col)] else [])
      + ReadBack(path[1..], before, after, pattern)
  }

  /** Cells off the path, and cells that were not empty, are left alone; the others are filled. */
  lemma {:induction false} FillTouches(path: seq<Cell>, grid: Grid, data: seq<nat>, i: nat, pattern: nat)
    requires pattern < 8 && Distinct(path) && Within(path, grid)
    ensures var after := Fill(path, grid, data, i, pattern);
            && after.Keys == grid.Keys
            && (forall x :: x in grid && (x !in path || grid[x] != Empty) ==> after[x] == grid[x])
            && (forall x :: x in grid && x in path ==> after[x] != Empty)
    decreases |path|
  {
    if path != [] {
      var x := path[0];
      assert x !in path[1..];
      if grid[x] == Empty {
        FillTouches(path[1..], grid[x := Masked(pattern, x, Bit(data, i))], data, i + 1, pattern);
      } else {
        FillTouches(path[1..], grid, data, i, pattern);
      }
    }
  }

  /** The bits from the i-th on. */
  function BitsFrom(data: seq<nat>, i: nat, count: nat): (b: seq<bool>)
    ensures |b| == count
  {
    seq(count, k requires 0 <= k < count => Bit(data, i + k))
  }

  function EmptyCount(path: seq<Cell>, grid: Grid): nat
    requires Within(path, grid)
  {
    if path == [] then 0 else (if grid[path[0]] == Empty then 1 else 0) + EmptyCount(path[1..], grid)
  }

  /** The modules still to be filled. */
  function Free(grid: Grid): set<Cell> {
    set x | x in grid && grid[x] == Empty
  }

  lemma {:induction false} CountFree(path: seq<Cell>, grid: Grid)
    requires Distinct(path) && Within(path, grid)
    ensures EmptyCount(path, grid) == |set x | x in path && x in Free(grid)|
  {
    var here := set x | x in path && x in Free(grid);
    if path == [] {
      assert here == {};
    } else {
      var rest := set x | x in path[1..] && x in Free(grid);
      CountFree(path[1..], grid);
      assert path[0] !in path[1..];
      assert here == if grid[path[0]] == Empty then rest + {path[0]} else rest;
    }
  }

  lemma {:induction false} SameAlongPath(path: seq<Cell>, g: Grid, h: Grid, after: Grid, pattern: nat)
    requires pattern < 8
    requires Within(path, g) && Within(path, h) && Within(path, after)
    requires forall k :: 0 <= k < |path| ==> g[path[k]] == h[path[k]]
    ensures EmptyCount(path, g) == EmptyCount(path, h)
    ensures ReadBack(path, g, after, pattern) == ReadBack(path, h, after, pattern)
  {
    if path != [] { SameAlongPath(path[1..], g, h, after, pattern); }
  }

  /** MAIN RESULT: reading the same path with the mask undone returns the bits in order. */
  lemma {:induction false} FillReadsBack(path: seq<Cell>, grid: Grid, data: seq<nat>, i: nat, pattern: nat)
    requires pattern < 8 && Distinct(path) && Within(path, grid)
    ensures var after := Fill(path, grid, data, i, pattern);
            && Within(path, after)
            && ReadBack(path, grid, after, pattern) == BitsFrom(data, i, EmptyCount(path, grid))
    decreases |path|
  {
    hide Mask, Inverted, Bit;
    FillTouches(path, grid, data, i, pattern);
    if path != [] {
      MaskInverts(pattern, path[0].row, path[0].col);
      var x, rest, after := path[0], path[1..], Fill(path, grid, data, i, pattern);
      assert x !in rest;
      if grid[x] == Empty {
        var bit := Bit(data, i);
        var grid' := grid[x := Masked(pattern, x, bit)];
        FillReadsBack(rest, grid', data, i + 1, pattern);
        FillTouches(rest, grid', data, i + 1, pattern);
        SameAlongPath(rest, grid, grid', after, pattern);
        assert after[x] == grid'[x];
        assert [bit] + BitsFrom(data, i + 1, EmptyCount(rest, grid)) == BitsFrom(data, i, EmptyCount(path, grid));
      } else {
        FillReadsBack(rest, grid, data, i, pattern);
      }
    }
  }

  lemma {:induction false} MsbAt(v: nat, n: nat, j: nat)
    requires j < n
    ensures Msb(v, n)[j] == (Shr(v, n - 1 - j) % 2 == 1)
  {
    if j < n - 1 {
      MsbAt(v / 2, n - 1, j);
      HalfThenShift(v, n - 2 - j);
    } else {
      assert Shr(v, 0) == v;
    }
  }

  lemma HalfThenShift(v: nat, k: nat)
    ensures Shr(v / 2, k) == Shr(v, k + 1)
  {
    var q, r := DivMod(v / 2, Pow2(k));
    var p := Pow2(k);
    assert v == (2 * r + v % 2) + q * (2 * p) by { assert 2 * (q * p) == q * (2 * p); }
    ModUnique(v, Pow2(k + 1), q, 2 * r + v % 2);
  }

  /** The data bits are the codewords' bits, most significant first, then zeros for ever. */
  lemma {:induction false} BitIsMsb(data: seq<nat>, i: nat)
    ensures |MsbBytes(data)| == BYTE * |data|
    ensures Bit(data, i) == (i < BYTE * |data| && MsbBytes(data)[i])
  {
    hide Msb, Pow2;
    if data != [] {
      if i < BYTE {
        BitIsMsb(data[1..], i);
        MsbAt(data[0], BYTE, i);
      } else {
        BitIsMsb(data[1..], i - BYTE);
        assert (i - BYTE) / BYTE == i / BYTE - 1 && (i - BYTE) % BYTE == i % BYTE;
      }
    }
  }

  /** What the path reads is the data bits, then zeros. */
  lemma BitsFromStart(data: seq<nat>, count: nat)
    requires count >= BYTE * |data|
    ensures |MsbBytes(data)| == BYTE * |data|
    ensures BitsFrom(data, 0, count) == MsbBytes(data) + Zeros(count - BYTE * |data|)
  {
    hide Bit, MsbBytes;
    BitIsMsb(data, 0);
    forall k | 0 <= k < count ensures BitsFrom(data, 0, count)[k] == (MsbBytes(data) + Zeros(count - BYTE * |data|))[k] {
      BitIsMsb(data, k);
    }
  }

  // ---- The method -----------------------------------------------------------------------------

  function Cells(modules: array2<Module>): (g: Grid)
    reads modules
  {
    map r: int, c: int | 0 <= r < modules.Length0 && 0 <= c < modules.Length1 :: Cell(r, c) := modules[r, c]
  }

  /** The bits still to be placed: `left` is the rest of the path. */
  ghost predicate Placing(left: seq<Cell>, grid: Grid, data: seq<nat>, byteIndex: nat, bitIndex: int,
                          pattern: nat, goal: Grid)
  {
    && pattern < 8 && 0 <= bitIndex < BYTE
    && Within(left, grid)
    && Fill(left, grid, data, BYTE * byteIndex + (BYTE - 1 - bitIndex), pattern) == goal
  }

  /** One module of the path. */
  method PlaceAt(modules: array2<Module>, row: int, col: int, data: seq<nat>, byte: nat, bit: int, pattern: nat,
                 ghost left: seq<Cell>, ghost goal: Grid)
    returns (byteIndex: nat, bitIndex: int)
    requires 0 <= row < modules.Length0 && 0 <= col < modules.Length1
    requires left != [] && left[0] == Cell(row, col)
    requires Placing(left, Cells(modules), data, byte, bit, pattern, goal)
    modifies modules
    ensures Placing(left[1..], Cells(modules), data, byteIndex, bitIndex, pattern, goal)
  {
    hide Mask;
    byteIndex, bitIndex := byte, bit;
    ghost var before := Cells(modules);
    if modules[row, col] == Empty {
      var dark := false;
      if byteIndex < |data| {
        dark := Shr(data[byteIndex], bitIndex) % 2 == 1;
      }
      BitHere(data, byteIndex, bitIndex);
      if Mask(pattern, row, col) {
        dark := !dark;
      }
      modules[row, col] := Shade(dark);
      bitIndex := bitIndex - 1;
      if bitIndex == -1 {
        byteIndex := byteIndex + 1;
        bitIndex := 7;
      }
      assert Cells(modules) == before[Cell(row, col) := Shade(dark)];
    }
  }

  lemma BitHere(data: seq<nat>, byteIndex: nat, bitIndex: int)
    requires 0 <= bitIndex < BYTE
    ensures Bit(data, BYTE * byteIndex + (BYTE - 1 - bitIndex))
         == (byteIndex < |data| && Shr(data[byteIndex], bitIndex) % 2 == 1)
  {
    var i := BYTE * byteIndex + (BYTE - 1 - bitIndex);
    assert i / BYTE == byteIndex && i % BYTE == BYTE - 1 - bitIndex;
  }

  /** A column pair, from `row` to the edge. */
  method PlaceColumn(modules: array2<Module>, row0: int, up: bool, col: int, data: seq<nat>, byte: nat, bit: int,
                     pattern: nat, ghost more: seq<Cell>, ghost goal: Grid)
    returns (byteIndex: nat, bitIndex: int, row: int)
    requires modules.Length0 == modules.Length1 && 1 <= col < modules.Length1 && 0 <= row0 < modules.Length0
    requires Placing(ColumnPath(modules.Length0, row0, up, col) + more, Cells(modules), data, byte, bit, pattern, goal)
    modifies modules
    ensures Placing(more, Cells(modules), data, byteIndex, bitIndex, pattern, goal)
    ensures row == if up then -1 else modules.Length0
  {
    hide Placing;
    byteIndex, bitIndex, row := byte, bit, row0;
    var n := modules.Length0;
    while true
      invariant 0 <= row < n
      invariant Placing(ColumnPath(n, row, up, col) + more, Cells(modules), data, byteIndex, bitIndex, pattern, goal)
      decreases if up then row + 1 else n - row
    {
      ghost var next := if up then row - 1 else row + 1;
      ghost var left := ColumnPath(n, next, up, col) + more;
      Assoc([Cell(row, col), Cell(row, col - 1)], ColumnPath(n, next, up, col), more);
      ghost var path := [Cell(row, col), Cell(row, col - 1)] + left;
      assert path[1..][1..] == left;
      var c := 0;
      while c < 2
        invariant 0 <= c <= 2
        invariant Placing(path[c..], Cells(modules), data, byteIndex, bitIndex, pattern, goal)
      {
        assert path[c..][1..] == path[c + 1..];
        byteIndex, bitIndex := PlaceAt(modules, row, col - c, data, byteIndex, bitIndex, pattern, path[c..], goal);
        c := c + 1;
      }
      assert path[2..] == left;
      row := if up then row - 1 else row + 1;
      if row < 0 || n <= row {
        assert left == more;
        break;
      }
    }
  }

  /** The path of a grid with n modules a side. */
  function ZigZag(n: nat): seq<Cell> {
    Path(n, n - 1, true)
  }

  lemma PathStep(n: nat, col: int, up: bool)
    requires col > 0
    ensures var c := if col == 6 then 5 else col;
            Path(n, col, up) == ColumnPath(n, if up then n - 1 else 0, up, c) + Path(n, c - 2, !up)
  {}

  /** mapData: fills the empty modules along the zig-zag. */
  method MapData(modules: array2<Module>, data: seq<nat>, pattern: nat)
    requires modules.Length0 == modules.Length1 > 0 && pattern < 8
    modifies modules
    ensures Within(ZigZag(modules.Length0), old(Cells(modules)))
    ensures Cells(modules) == Fill(ZigZag(modules.Length0), old(Cells(modules)), data, 0, pattern)
  {
    hide Placing, ColumnPath, Path, Fill;
    var n := modules.Length0;
    ghost var path := Path(n, n - 1, true);
    PathInside(n, n - 1, true);
    assert Within(path, Cells(modules));
    ghost var goal := Fill(path, Cells(modules), data, 0, pattern);
    PlacingStarts(path, Cells(modules), data, pattern);
    var up, row, bitIndex, byteIndex := true, n - 1, 7, 0;
    var col := n - 1;
    while col > 0
      invariant -1 <= col <= n - 1
      invariant col > 0 ==> row == if up then n - 1 else 0
      invariant Placing(Path(n, col, up), Cells(modules), data, byteIndex, bitIndex, pattern, goal)
      decreases col + 2
    {
      PathStep(n, col, up);
      if col == 6 {
        col := col - 1;
      }
      byteIndex, bitIndex, row := PlaceColumn(modules, row, up, col, data, byteIndex, bitIndex, pattern,
                                              Path(n, col - 2, !up), goal);
      row := if up then row + 1 else row - 1;
      up := !up;
      col := col - 2;
    }
    PathEnds(n, col, up);
    PlacingEnds(Cells(modules), data, byteIndex, bitIndex, pattern, goal);
  }

  lemma PathEnds(n: nat, col: int, up: bool)
    requires col <= 0
    ensures Path(n, col, up) == []
  {}

  lemma PlacingStarts(path: seq<Cell>, grid: Grid, data: seq<nat>, pattern: nat)
    requires pattern < 8 && Within(path, grid)
    ensures Placing(path, grid, data, 0, 7, pattern, Fill(path, grid, data, 0, pattern))
  {}

  lemma PlacingEnds(grid: Grid, data: seq<nat>, byteIndex: nat, bitIndex: int, pattern: nat, goal: Grid)
    requires Placing([], grid, data, byteIndex, bitIndex, pattern, goal)
    ensures grid == goal
  {}

  lemma {:induction false} PathInside(n: nat, col: int, up: bool)
    requires col < n
    ensures forall k :: 0 <= k < |Path(n, col, up)| ==>
              var x := Path(n, col, up)[k]; 0 <= x.row < n && 0 <= x.col < n
    decreases col + 2
  {
    hide ColumnPath, Distinct;
    if col > 0 {
      var c := if col == 6 then 5 else col;
      var column := ColumnPath(n, if up then n - 1 else 0, up, c);
      ColumnCells(n, if up then n - 1 else 0, up, c);
      PathInside(n, c - 2, !up);
      forall k | 0 <= k < |column| ensures 0 <= column[k].row < n && 0 <= column[k].col < n {
        assert column[k] in column;
      }
    }
  }

  /** All modules of a grid with n modules a side. */
  ghost predicate IsGrid(n: nat, g: Grid) {
    forall x :: x in g <==> 0 <= x.row < n && 0 <= x.col < n
  }

  /** MAIN RESULT: in an odd grid with column 6 reserved, every empty module is filled, no other
      module changes, and the path reads back the data bits followed by zeros. */
  lemma ZigZagPlaces(n: nat, grid: Grid, data: seq<nat>, pattern: nat)
    requires n >= 7 && n % 2 == 1 && pattern < 8 && IsGrid(n, grid)
    requires forall r :: 0 <= r < n ==> grid[Cell(r, 6)] != Empty
    ensures Within(ZigZag(n), grid)
    ensures var after := Fill(ZigZag(n), grid, data, 0, pattern);
            && after.Keys == grid.Keys && Within(ZigZag(n), after)
            && (forall x :: x in grid ==> after[x] != Empty)
            && (forall x :: x in grid && grid[x] != Empty ==> after[x] == grid[x])
            && Walk(n) == ZigZag(n) && EmptyCount(Walk(n), grid) == |Free(grid)|
            && ReadBack(Walk(n), grid, after, pattern) == BitsFrom(data, 0, EmptyCount(Walk(n), grid))
  {
    hide Path, Fill, ReadBack, EmptyCount, BitsFrom, WalkFrom;
    WalkIsZigZag(n);
    PathCovers(n, n - 1, true);
    PathInside(n, n - 1, true);
    var path := ZigZag(n);
    FillTouches(path, grid, data, 0, pattern);
    FillReadsBack(path, grid, data, 0, pattern);
    forall x | x in grid && x !in path ensures grid[x] != Empty {
      assert x == Cell(x.row, 6);
    }
    CountFree(path, grid);
    assert (set x | x in path && x in Free(grid)) == Free(grid);
  }
}
