/** The Gridster widget grid with no drag in progress: placing, registering and removing widgets
    and the recursive moves upward that follow. */
module Gridster {
  import opened Wrappers
  import opened GridLayout

  /** What a page may do with the grid; an id is added or registered once until it is removed. */
  datatype Command = Add(w: Widget, sizeX: nat, sizeY: nat) | Register(w: Widget, wanted: Coords) | Remove(w: Widget)

  predicate IsCall(command: Command, g: Layout) {
    match command
    case Add(w, _, _) => w !in g
    case Register(w, p) => w !in g && 1 <= p.col && 1 <= p.row && 1 <= p.sizeX && 1 <= p.sizeY
    case Remove(w) => w in g
  }

  class Gridster {
    const cols: nat
    const avoidOverlappedWidgets: bool
    var gridmap: Gridmap
    /** The grid data jQuery keeps for each widget element. */
    var grid: Layout
    var changed: set<Widget>
    var cellsOccupiedByPlaceholder: CellRange

    ghost predicate Shape()
      reads this`gridmap, this`grid
    {
      && |gridmap| == cols + 1 && gridmap[0] == []
      && NoRowZero(gridmap)
      && AllPositive(grid)
    }

    /** The invariant of every run in which no overlap is asked for. */
    ghost predicate Valid()
      reads this`gridmap, this`grid
    {
      Shape() && AllPlaced(grid, cols) && Agrees(gridmap, grid)
    }

    /** The invariant of every run; strict stands for the stronger one. */
    ghost predicate Kept(strict: bool)
      reads this`gridmap, this`grid
    {
      Shape() && Sound(gridmap, grid) && (strict ==> Valid())
    }

    /** The widgets that nothing holds down from above. */
    ghost function Floating(): set<Widget>
      reads this`gridmap, this`grid, this`cellsOccupiedByPlaceholder
    {
      Floaters(gridmap, cellsOccupiedByPlaceholder, grid)
    }

    /** generate_faux_grid. */
    constructor (cols: nat, rows: nat, avoidOverlappedWidgets: bool)
      ensures Valid() && this.cols == cols && this.avoidOverlappedWidgets == avoidOverlappedWidgets
      ensures grid == map[] && changed == {} && cellsOccupiedByPlaceholder == CellRange({}, {})
      ensures forall c, r :: CellAt(gridmap, c, r) == if 1 <= c <= cols && 1 <= r <= rows then Vacant else Undefined
    {
      this.cols := cols;
      this.avoidOverlappedWidgets := avoidOverlappedWidgets;
      var column := if rows == 0 then [] else [Undefined] + seq(rows, _ => Vacant);
      gridmap := [[]] + seq(cols, _ => column);
      grid := map[];
      changed := {};
      cellsOccupiedByPlaceholder := CellRange({}, {});
    }

    // ----- Cell queries -----

    predicate IsWidget(col: int, row: int)
      reads this`gridmap
    {
      CellAt(gridmap, col, row).Occupied?
    }

    predicate IsEmpty(col: int, row: int)
      reads this`gridmap
    {
      CellAt(gridmap, col, row) == Vacant
    }

    predicate IsPlaceholderIn(col: int, row: int)
      reads this`cellsOccupiedByPlaceholder
    {
      col in cellsOccupiedByPlaceholder.cols && row in cellsOccupiedByPlaceholder.rows
    }

    /** can_move_to for coordinates without an element. */
    method CanMoveTo(sizeX: int, sizeY: int, col: int, row: int) returns (result: bool)
      ensures result <==> FreeFor(gridmap, cols, Coords(col, row, sizeX, sizeY))
    {
      var futureWd := Coords(col, row, sizeX, sizeY);
      if col + sizeX - 1 > cols {
        return false;
      }
      result := true;
      for i := 0 to Max(sizeX, 0)
        invariant result <==> forall c, r :: Covers(futureWd, c, r) && c < col + i ==> !CellAt(gridmap, c, r).Occupied?
      {
        for j := 0 to Max(sizeY, 0)
          invariant result <==>
                    forall c, r :: Covers(futureWd, c, r) && (c < col + i || (c == col + i && r < row + j)) ==>
                      !CellAt(gridmap, c, r).Occupied?
        {
          assert Covers(futureWd, col + i, row + j);
          if IsWidget(col + i, row + j) {
            result := false;
          }
        }
      }
    }

    predicate BlockedUpward(col: int, row: int)
      reads this`gridmap, this`cellsOccupiedByPlaceholder
    {
      IsWidget(col, row - 1) || IsPlaceholderIn(col, row - 1)
    }

    /** can_go_up. */
    method CanGoUp(p: Coords) returns (result: bool)
      ensures result <==> p.row != 1 && forall c :: p.col <= c < p.col + p.sizeX ==> !BlockedUpward(c, p.row)
    {
      if p.row == 1 {
        return false;
      }
      result := true;
      for i := 0 to Max(p.sizeX, 0)
        invariant result <==> forall c :: p.col <= c < p.col + i ==> !BlockedUpward(c, p.row)
      {
        if BlockedUpward(p.col + i, p.row) {
          result := false;
        }
      }
    }

    /** can_go_up_to_row. The target column and row are not used: the answer is always the top row
        the widget can slide to. */
    method CanGoUpToRow(p: Coords, col: int, row: int) returns (result: Option<int>)
      requires Shape() && 1 <= p.row && 1 <= p.sizeX
      ensures result.None? <==> forall r :: 1 <= r < p.row ==> !SlideFree(gridmap, cellsOccupiedByPlaceholder, p, r)
      ensures result.Some? ==> IsTopRow(gridmap, cellsOccupiedByPlaceholder, p, result.value)
    {
      var urc: map<int, seq<int>> := map[];
      var blocked := false;
      for tcol := p.col to p.col + p.sizeX
        invariant forall c :: c in urc <==> p.col <= c < tcol
        invariant forall c, r :: c in urc ==>
                  (r in urc[c] <==> 1 <= r < p.row && PassableBetween(gridmap, cellsOccupiedByPlaceholder, c, r, p.row))
        invariant blocked <==> exists c :: c in urc && urc[c] == []
      {
        var upper := UpperRows(tcol, p.row);
        ghost var before := urc;
        urc := urc[tcol := upper];
        assert urc[tcol] == upper && forall c :: c in before ==> urc[c] == before[c];
        if upper == [] {
          blocked := true;
        }
      }
      if blocked {
        ghost var c :| c in urc && urc[c] == [];
        assert forall r :: 1 <= r < p.row && SlideFree(gridmap, cellsOccupiedByPlaceholder, p, r) ==> r in urc[c];
        return None;
      }
      ghost var last := p.row - 1;
      assert 1 <= last && SlideFree(gridmap, cellsOccupiedByPlaceholder, p, last) by {
        assert p.col in urc;
        forall c | c in urc ensures 1 <= last && PassableBetween(gridmap, cellsOccupiedByPlaceholder, c, last, p.row) {
          var r := urc[c][0];
          assert r in urc[c];
        }
        forall c | p.col <= c < p.col + p.sizeX
          ensures PassableBetween(gridmap, cellsOccupiedByPlaceholder, c, last, p.row)
        {
          assert c in urc;
        }
      }
      result := None;
      for r := 1 to p.row
        invariant result.None?
        invariant forall higher :: 1 <= higher < r ==> !SlideFree(gridmap, cellsOccupiedByPlaceholder, p, higher)
      {
        var common := true;
        for tcol := p.col to p.col + p.sizeX
          invariant common <==> forall c :: p.col <= c < tcol ==> r in urc[c]
        {
          if r !in urc[tcol] {
            common := false;
          }
        }
        assert common <==> SlideFree(gridmap, cellsOccupiedByPlaceholder, p, r);
        if common {
          return Some(r);
        }
      }
      assert false;
    }

    /** The rows above row in a column, nearest first, up to the first one that is not passable. */
    method UpperRows(col: int, row: int) returns (upper: seq<int>)
      requires Shape() && 1 <= row
      ensures forall r :: r in upper <==>
              1 <= r < row && PassableBetween(gridmap, cellsOccupiedByPlaceholder, col, r, row)
      ensures upper == [] ==>
              forall r :: 1 <= r < row ==> !PassableBetween(gridmap, cellsOccupiedByPlaceholder, col, r, row)
    {
      upper := [];
      var r := row;
      while r > 0
        invariant 0 < r <= row
        invariant forall q :: q in upper <==> r <= q < row
        invariant PassableBetween(gridmap, cellsOccupiedByPlaceholder, col, r, row)
      {
        r := r - 1;
        if IsEmpty(col, r) && !IsPlaceholderIn(col, r) {
          upper := upper + [r];
        } else {
          break;
        }
      }
      assert !PassableAt(gridmap, cellsOccupiedByPlaceholder, col, r);
    }

    // ----- Changing the index -----

    /** update_widget_position: columns outside the grid are skipped, and writing below the last
        row of a column lengthens it. */
    method UpdateWidgetPosition(p: Coords, value: Cell)
      requires Shape() && 1 <= p.row
      modifies this`gridmap
      ensures Shape() && Written(old(gridmap), gridmap, p, value)
    {
      for i := 0 to Max(p.sizeX, 0)
        invariant Shape()
        invariant Written(old(gridmap), gridmap, p.(sizeX := i), value)
      {
        ghost var before := gridmap;
        for j := 0 to Max(p.sizeY, 0)
          invariant Shape()
          invariant Written(before, gridmap, Coords(p.col + i, p.row, 1, j), value)
        {
          var col, row := p.col + i, p.row + j;
          if 1 <= col < |gridmap| {
            PutWritten(gridmap, col, row, value);
            gridmap := gridmap[col := Put(gridmap[col], row, value)];
          }
        }
      }
    }

    static function Put(column: seq<Cell>, row: nat, value: Cell): seq<Cell> {
      if row < |column| then column[row := value]
      else column + seq(row - |column|, _ => Undefined) + [value]
    }

    static lemma PutWritten(gm: Gridmap, col: nat, row: nat, value: Cell)
      requires 1 <= col < |gm|
      ensures Written(gm, gm[col := Put(gm[col], row, value)], Coords(col, row, 1, 1), value)
    {
    }

    // ----- The widgets right below -----

    /** widgets_below: in every column of p, the first widget under it. */
    method WidgetsBelow(p: Coords) returns (nexts: set<Widget>)
      requires 0 <= p.row + p.sizeY && 0 <= p.sizeX
      ensures AreNext(gridmap, p, nexts)
    {
      nexts := {};
      var nextRow := p.row + p.sizeY - 1;
      for col := p.col to p.col + p.sizeX
        invariant forall w :: w in nexts <==> IsFirstBelowSome(gridmap, p.col, col, nextRow, w)
      {
        ghost var before := nexts;
        var first := FirstBelow(col, nextRow);
        if first.Some? {
          nexts := nexts + {first.value};
        }
        forall w ensures w in nexts <==> IsFirstBelowSome(gridmap, p.col, col + 1, nextRow, w) {
          assert w in before <==> IsFirstBelowSome(gridmap, p.col, col, nextRow, w);
        }
      }
    }

    /** for_each_widget_below with a callback that stops at the first widget. */
    method FirstBelow(col: int, row: int) returns (first: Option<Widget>)
      requires -1 <= row
      ensures forall w: Widget :: IsFirstBelow(gridmap, col, row, w) <==> first == Some(w)
    {
      if col < 0 || |gridmap| <= col {
        return None;
      }
      for trow := row + 1 to Max(row + 1, |gridmap[col]|)
        invariant NoneBetween(gridmap, col, row, trow)
      {
        if IsWidget(col, trow) {
          first := Some(gridmap[col][trow].widget);
          assert IsFirstBelow(gridmap, col, row, first.value);
          return first;
        }
      }
      return None;
    }

    /** What widgets_below finds is below in the sense of Above, hence in every zone closed below. */
    lemma NextsInZone(w: Widget, nexts: set<Widget>, zone: set<Widget>)
      requires Valid() && w in grid
      requires AreNext(gridmap, grid[w], nexts)
      requires forall x :: x in grid && Above(grid[w], grid[x]) ==> x in zone
      ensures nexts <= zone
    {
      var p := grid[w];
      NextsAreWidgets(w, nexts);
      forall x | x in nexts ensures Above(p, grid[x]) {
        var c :| p.col <= c < p.col + p.sizeX && IsFirstBelow(gridmap, c, p.row + p.sizeY - 1, x);
        var r :| p.row + p.sizeY - 1 < r && CellAt(gridmap, c, r) == Occupied(x);
        assert Covers(grid[x], c, r);
        NoOverlap(gridmap, grid, cols, x, w);
      }
    }

    lemma NextsAreWidgets(w: Widget, nexts: set<Widget>)
      requires Kept(false) && w in grid
      requires AreNext(gridmap, grid[w], nexts)
      ensures nexts <= grid.Keys - {w}
    {
      var p := grid[w];
      forall x | x in nexts ensures x in grid && x != w {
        var c :| p.col <= c < p.col + p.sizeX && IsFirstBelow(gridmap, c, p.row + p.sizeY - 1, x);
        var r :| p.row + p.sizeY - 1 < r && CellAt(gridmap, c, r) == Occupied(x);
        assert Covers(grid[x], c, r);
      }
    }

    lemma AdjacentAreNext(w: Widget, nexts: set<Widget>)
      requires Valid() && w in grid
      requires AreNext(gridmap, grid[w], nexts)
      ensures HoldsAdjacent(gridmap, grid[w], nexts)
    {
      var p := grid[w];
      var r := RowUnder(p);
      forall c | p.col <= c < p.col + p.sizeX && CellAt(gridmap, c, r).Occupied?
        ensures CellAt(gridmap, c, r).widget in nexts
      {
        assert NoneBetween(gridmap, c, r - 1, r);
        assert IsFirstBelow(gridmap, c, r - 1, CellAt(gridmap, c, r).widget);
      }
    }

    // ----- Moving up -----

    /** move_widget_up. Widgets only move up, and the move ends. In strict mode a widget that can slide
        ends in the top row it can slide to; all that the move pulls after it lies below, inside the zone,
        and all that it sets afloat is pulled after it. Nothing changes if the widget cannot slide. */
    method MoveWidgetUp(w: Widget, yUnits: int, ghost zone: set<Widget>, ghost strict: bool)
      requires Kept(strict) && w in grid && (strict ==> w in zone && ClosedBelow(grid, zone))
      modifies this
      ensures Kept(strict) && cellsOccupiedByPlaceholder == old(cellsOccupiedByPlaceholder)
      ensures MovedUp(strict, old(grid), grid, zone, old(changed), changed) && StillDefined(old(gridmap), gridmap)
      ensures forall row :: old(IsTopRow(gridmap, cellsOccupiedByPlaceholder, grid[w], row)) ==>
                              grid[w].row <= row && (strict ==> grid[w].row == row)
      ensures (forall row :: !old(IsTopRow(gridmap, cellsOccupiedByPlaceholder, grid[w], row))) ==> grid == old(grid)
      ensures strict ==> Floating() <= old(Floating()) - {w}
      decreases SumOfRows(grid), 4
    {
      hide Agrees, Sound, ClosedBelow, Floaters, MovedUp, StillDefined, SumOfRows;
      var p := grid[w];
      ghost var gm, g0, placeholder := gridmap, grid, cellsOccupiedByPlaceholder;
      FloatsCanSlide(gm, placeholder, p);
      FloatersHas(gm, placeholder, g0, w);
      StillDefinedReflexive(gm);
      MovedUpReflexive(strict, grid, zone, changed);
      var canGoUp := CanGoUp(p);
      if !canGoUp {
        forall row | IsTopRow(gm, placeholder, p, row) ensures false {
          BlockedCannotSlide(p, row);
        }
        return;
      }
      var moved := false;
      for i := 0 to p.sizeX
        invariant Kept(strict) && cellsOccupiedByPlaceholder == placeholder && w in grid
        invariant !moved ==> gridmap == gm && grid == g0 && changed == old(changed)
        invariant !moved && i > 0 ==> forall row :: !IsTopRow(gm, placeholder, p, row)
        invariant MovedUp(strict, g0, grid, zone, old(changed), changed) && StillDefined(gm, gridmap)
        invariant moved ==> exists row :: IsTopRow(gm, placeholder, p, row) && grid[w].row <= row
        invariant moved && strict ==> IsTopRow(gm, placeholder, p, grid[w].row)
        invariant moved && strict ==> Floating() <= old(Floating()) - {w}
      {
        if !moved {
          moved := SlideUp(w, p.col + i, p.row, yUnits, zone, strict);
        }
      }
    }

    lemma BlockedCannotSlide(p: Coords, row: int)
      requires IsTopRow(gridmap, cellsOccupiedByPlaceholder, p, row)
      ensures forall c :: p.col <= c < p.col + p.sizeX ==> !BlockedUpward(c, p.row)
    {
      forall c | p.col <= c < p.col + p.sizeX ensures !BlockedUpward(c, p.row) {
        assert PassableBetween(gridmap, cellsOccupiedByPlaceholder, c, row, p.row);
        assert PassableAt(gridmap, cellsOccupiedByPlaceholder, c, p.row - 1);
      }
    }

    /** The work move_widget_up does for one column, until it has moved the widget. */
    method SlideUp(w: Widget, col: int, actualRow: int, yUnits: int, ghost zone: set<Widget>, ghost strict: bool)
      returns (moved: bool)
      requires Kept(strict) && w in grid && (strict ==> w in zone && ClosedBelow(grid, zone))
      modifies this
      ensures Kept(strict) && cellsOccupiedByPlaceholder == old(cellsOccupiedByPlaceholder) && w in grid
      ensures MovedUp(strict, old(grid), grid, zone, old(changed), changed) && StillDefined(old(gridmap), gridmap)
      ensures !moved ==> gridmap == old(gridmap) && grid == old(grid) && changed == old(changed)
      ensures moved <==> exists row :: IsTopRow(old(gridmap), old(cellsOccupiedByPlaceholder), old(grid[w]), row)
      ensures moved ==> exists row :: IsTopRow(old(gridmap), old(cellsOccupiedByPlaceholder), old(grid[w]), row) &&
                                      grid[w].row <= row
      ensures moved && strict ==> IsTopRow(old(gridmap), old(cellsOccupiedByPlaceholder), old(grid[w]), grid[w].row)
      ensures moved && strict ==> Floating() <= old(Floating()) - {w}
      decreases SumOfRows(grid), 3
    {
      hide Agrees, Sound, ClosedBelow, Floaters, MovedUp, StillDefined, SumOfRows;
      var p := grid[w];
      var nextRow := CanGoUpToRow(p, col, actualRow - yUnits);
      if nextRow.None? {
        StillDefinedReflexive(gridmap);
        MovedUpReflexive(strict, grid, zone, changed);
        return false;
      }
      SlideTo(w, nextRow.value, yUnits, zone, strict);
      return true;
    }

    /** The slide to the top row, and the moves that follow it. */
    method SlideTo(w: Widget, row: int, yUnits: int, ghost zone: set<Widget>, ghost strict: bool)
      requires Kept(strict) && w in grid && (strict ==> w in zone && ClosedBelow(grid, zone))
      requires IsTopRow(gridmap, cellsOccupiedByPlaceholder, grid[w], row)
      modifies this
      ensures Kept(strict) && cellsOccupiedByPlaceholder == old(cellsOccupiedByPlaceholder) && w in grid
      ensures MovedUp(strict, old(grid), grid, zone, old(changed), changed) && StillDefined(old(gridmap), gridmap)
      ensures grid[w].row <= row
      ensures strict ==> grid[w].row == row && Floating() <= old(Floating()) - {w}
      decreases SumOfRows(grid), 2
    {
      hide Agrees, Sound, ClosedBelow, Floaters, IsTopRow, HoldsAdjacent, SumOfRows, StillDefined, Gravity;
      ghost var gm0, g0, changed0 := gridmap, grid, changed;
      ghost var g1 := g0[w := g0[w].(row := row)];
      ghost var below := LowerThan(g1, row, zone);
      var nexts := WidgetsBelow(grid[w]);
      NextsAreWidgets(w, nexts);
      if strict {
        SlideStep(w, row, nexts, zone, changed);
        AdjacentAreNext(w, nexts);
      }
      Rise(w, row, nexts, zone, g1, below, strict);
      ghost var gm2, g2, changed2 := gridmap, grid, changed;
      MoveEachUp(nexts, yUnits, below, strict);
      StillDefinedTransitive(gm0, gm2, gridmap);
      MovedUpTransitive(strict, g0, g2, grid, zone, below, changed0, changed2, changed);
    }

    /** What strict mode knows before a slide of w to its place in g1: nexts are right below, and all that
        the slide can push on or pull after it is in `below`. */
    ghost predicate CanRise(w: Widget, nexts: set<Widget>, zone: set<Widget>, g1: Layout, below: set<Widget>)
      requires w in grid && w in g1
      reads this
    {
      && w !in below && below <= zone && nexts <= below && HoldsAdjacent(gridmap, grid[w], nexts)
      && AllPlaced(g1, cols) && ClosedBelow(g1, below) && (forall x :: x in g1 && Above(g1[w], g1[x]) ==> x in below)
      && PulledUp(grid, g1, zone, changed, changed + {w})
    }

    /** From the index without the widget to the index with it, and the first moves that follow. */
    method Rise(w: Widget, row: int, ghost nexts: set<Widget>, ghost zone: set<Widget>, ghost g1: Layout,
                ghost below: set<Widget>, ghost strict: bool)
      requires Kept(strict) && w in grid && IsTopRow(gridmap, cellsOccupiedByPlaceholder, grid[w], row)
      requires g1 == grid[w := grid[w].(row := row)] && (strict ==> CanRise(w, nexts, zone, g1, below))
      modifies this
      ensures Kept(strict) && cellsOccupiedByPlaceholder == old(cellsOccupiedByPlaceholder)
      ensures MovedUp(strict, old(grid), grid, zone, old(changed), changed) && StillDefined(old(gridmap), gridmap)
      ensures 0 <= SumOfRows(grid) < SumOfRows(old(grid)) && w in grid && grid[w].row <= row
      ensures strict ==> grid[w] == g1[w] && ClosedBelow(grid, below) && Floating() <= old(Floating()) + nexts - {w}
      decreases SumOfRows(grid), 1
    {
      hide Agrees, Sound, ClosedBelow, Floaters, HoldsAdjacent, SumOfRows, Gravity, Written, StillDefined;
      ghost var gm0, g0, placeholder, changed0 := gridmap, grid, cellsOccupiedByPlaceholder, changed;
      RoseByOne(g0, g1, w, changed0);
      Lift(w, row, strict);
      ghost var mid := gridmap;
      ghost var gm1, _ := AddToGridmap(w, below, strict);
      WrittenIsDefined(gm0, mid, g0[w], Vacant);
      StillDefinedTransitive(gm0, mid, gridmap);
      RoseMeasure(g1, grid, changed0, changed);
      if strict {
        FloatersAfterSlide(gm0, mid, gm1, placeholder, g0, g1, cols, w, nexts);
        PulledUpMeasure(g1, grid, below, changed0, changed, cols);
        SlideWhole(w, g0, g1, grid, zone, below, changed0, changed);
      }
      RoseWhole(w, g0, g1, grid, changed0, changed);
      changed := changed + {w};
    }

    /** remove_from_gridmap and the new row, before the widget is written back. */
    method Lift(w: Widget, row: int, ghost strict: bool)
      requires Kept(strict) && w in grid
      requires 1 <= row < grid[w].row && SlideFree(gridmap, cellsOccupiedByPlaceholder, grid[w], row)
      modifies this`gridmap, this`grid
      ensures Shape() && Sound(gridmap, grid - {w}) && Written(old(gridmap), gridmap, old(grid[w]), Vacant)
      ensures grid == old(grid)[w := old(grid[w]).(row := row)]
      ensures strict ==> Agrees(gridmap, grid - {w}) && Unoccupied(gridmap, grid[w])
    {
      hide Agrees, Sound, SlideFree, Unoccupied, Written;
      var p := grid[w];
      SlideOverPassable(gridmap, cellsOccupiedByPlaceholder, p, row);
      UpdateWidgetPosition(p, Vacant);
      SoundAfterRemove(old(gridmap), gridmap, grid, w);
      if strict {
        AgreesAfterRemove(old(gridmap), gridmap, grid, w, cols);
        SlidIntoUnoccupied(old(gridmap), gridmap, p, row);
      }
      grid := grid[w := p.(row := row)];
      assert grid - {w} == old(grid) - {w};
    }

    /** add_to_gridmap for grid data that names its widget: write the cells, then let the widgets
        right below, nexts, move up as far as they can. */
    method AddToGridmap(w: Widget, ghost zone: set<Widget>, ghost strict: bool)
      returns (ghost written: Gridmap, ghost nexts: set<Widget>)
      requires Shape() && w in grid && Sound(gridmap, grid - {w})
      requires strict ==>
                 && AllPlaced(grid, cols) && Agrees(gridmap, grid - {w}) && Unoccupied(gridmap, grid[w])
                 && ClosedBelow(grid, zone) && forall x :: x in grid && Above(grid[w], grid[x]) ==> x in zone
      modifies this
      ensures Kept(strict) && cellsOccupiedByPlaceholder == old(cellsOccupiedByPlaceholder)
      ensures MovedUp(strict, old(grid), grid, zone, old(changed), changed) && StillDefined(old(gridmap), gridmap)
      ensures Written(old(gridmap), written, old(grid[w]), Occupied(w))
      ensures AreNext(written, old(grid[w]), nexts)
      ensures strict ==> Floating() <= Floaters(written, cellsOccupiedByPlaceholder, old(grid)) - nexts
      decreases SumOfRows(grid), 6
    {
      hide Sound, Agrees, Unoccupied, ClosedBelow, Floaters, MovedUp, StillDefined, Written, SumOfRows;
      ghost var gm := gridmap;
      UpdateWidgetPosition(grid[w], Occupied(w));
      written := gridmap;
      WrittenIsDefined(gm, written, grid[w], Occupied(w));
      SoundAfterAdd(gm, gridmap, grid, w);
      if strict {
        AgreesAfterAdd(gm, gridmap, grid, w, cols);
      }
      var below := WidgetsBelow(grid[w]);
      nexts := below;
      NextsAreWidgets(w, below);
      if strict {
        NextsInZone(w, below, zone);
      }
      MoveEachUp(below, 1, zone, strict);
      StillDefinedTransitive(gm, written, gridmap);
    }

    /** move_widget_up on every widget of a collection, in any order. */
    method MoveEachUp(widgets: set<Widget>, yUnits: int, ghost zone: set<Widget>, ghost strict: bool)
      requires Kept(strict) && widgets <= grid.Keys && (strict ==> widgets <= zone && ClosedBelow(grid, zone))
      modifies this
      ensures Kept(strict) && cellsOccupiedByPlaceholder == old(cellsOccupiedByPlaceholder)
      ensures MovedUp(strict, old(grid), grid, zone, old(changed), changed) && StillDefined(old(gridmap), gridmap)
      ensures strict ==> Floating() <= old(Floating()) - widgets
      decreases SumOfRows(grid), 5
    {
      hide Sound, Agrees, ClosedBelow, Floaters, StillDefined, SumOfRows, Gravity;
      var rest := widgets;
      ghost var gm0, g0 := gridmap, grid;
      MovedUpReflexive(strict, grid, zone, changed);
      StillDefinedReflexive(gridmap);
      while rest != {}
        invariant rest <= widgets
        invariant Kept(strict) && cellsOccupiedByPlaceholder == old(cellsOccupiedByPlaceholder)
        invariant MovedUp(strict, g0, grid, zone, old(changed), changed) && StillDefined(gm0, gridmap)
        invariant strict ==> Floating() <= old(Floating()) - (widgets - rest)
        decreases rest
      {
        var w :| w in rest;
        rest := rest - {w};
        RoseMeasure(g0, grid, old(changed), changed);
        if strict {
          PulledUpMeasure(g0, grid, zone, old(changed), changed, cols);
        }
        ghost var gm1, g1, changed1 := gridmap, grid, changed;
        MoveWidgetUp(w, yUnits, zone, strict);
        StillDefinedTransitive(gm0, gm1, gridmap);
        MovedUpTransitive(strict, g0, g1, grid, zone, zone, old(changed), changed1, changed);
      }
    }

    /** The slide itself, before anything else moves. */
    lemma SlideStep(w: Widget, row: int, nexts: set<Widget>, zone: set<Widget>, changed: set<Widget>)
      requires Valid() && w in grid && w in zone && ClosedBelow(grid, zone)
      requires IsTopRow(gridmap, cellsOccupiedByPlaceholder, grid[w], row)
      requires AreNext(gridmap, grid[w], nexts)
      ensures var g1 := grid[w := grid[w].(row := row)];
              var below := LowerThan(g1, row, zone);
              && AllPlaced(g1, cols) && PulledUp(grid, g1, zone, changed, changed + {w})
              && ClosedBelow(g1, below) && nexts <= below && nexts <= grid.Keys
              && (forall x :: x in g1 && Above(g1[w], g1[x]) ==> x in below)
              && 0 <= SumOfRows(g1) < SumOfRows(grid)
    {
      var g1 := grid[w := grid[w].(row := row)];
      SlideOverPassable(gridmap, cellsOccupiedByPlaceholder, grid[w], row);
      SlideIsGravity(gridmap, grid, cols, w, row);
      NextsInZone(w, nexts, LowerThan(grid, grid[w].row, zone));
      PulledUpMeasure(grid, g1, zone, changed, changed + {w}, cols);
      LowerThanClosed(g1, row, zone);
      assert g1[w] != grid[w];
    }

    // ----- Placing and removing -----

    /** next_position: the free position that comes first by row, then column, among those
        scanned; a missing size counts as 1. */
    method NextPosition(sizeX: nat, sizeY: nat) returns (next: Option<Coords>)
      requires Shape()
      ensures next.None? <==> NoPosition(gridmap, cols, SizeOrOne(sizeX), SizeOrOne(sizeY))
      ensures next.Some? ==> IsNextPosition(gridmap, cols, next.value, SizeOrOne(sizeX), SizeOrOne(sizeY))
      ensures next.Some? ==>
                1 <= next.value.col < |gridmap| && 1 <= next.value.row <= |gridmap[next.value.col]|
    {
      var sx, sy := SizeOrOne(sizeX), SizeOrOne(sizeY);
      var validPos: seq<Coords> := [];
      for c := 1 to |gridmap|
        invariant forall p :: p in validPos <==>
                  && p == Coords(p.col, p.row, sx, sy) && Scanned(gridmap, p.col, p.row)
                  && p.col < c && FreeFor(gridmap, cols, p)
      {
        for r := 1 to |gridmap[c]| + 1
          invariant forall p :: p in validPos <==>
                    && p == Coords(p.col, p.row, sx, sy) && Scanned(gridmap, p.col, p.row)
                    && (p.col < c || (p.col == c && p.row < r)) && FreeFor(gridmap, cols, p)
        {
          var canMoveTo := CanMoveTo(sx, sy, c, r);
          if canMoveTo {
            validPos := validPos + [Coords(c, r, sx, sy)];
          }
        }
      }
      if |validPos| > 0 {
        var first := FirstByRowAndCol(validPos);
        return Some(first);
      }
      forall c, r | Scanned(gridmap, c, r) ensures !FreeFor(gridmap, cols, Coords(c, r, sx, sy)) {
        assert Coords(c, r, sx, sy) !in validPos;
      }
      return None;
    }

    /** The head of what sort_by_row_and_col_asc returns. */
    static method FirstByRowAndCol(positions: seq<Coords>) returns (first: Coords)
      requires positions != []
      ensures first in positions
      ensures forall p :: p in positions ==> first.row < p.row || (first.row == p.row && first.col <= p.col)
    {
      first := positions[0];
      for i := 1 to |positions|
        invariant first in positions
        invariant forall p :: p in positions[..i] ==> first.row < p.row || (first.row == p.row && first.col <= p.col)
      {
        assert positions[..i + 1] == positions[..i] + [positions[i]];
        if positions[i].row < first.row || (positions[i].row == first.row && positions[i].col < first.col) {
          first := positions[i];
        }
      }
      assert positions[..|positions|] == positions;
    }

    /** register_widget: the asked position when it is free or overlaps are not avoided, else the next
        position; not placed when there is none. Unless an overlap is asked for, the widget stays where it
        is put, only lower widgets move, those right below it as far as they can, and nothing else is set
        afloat. */
    method RegisterWidget(w: Widget, wanted: Coords) returns (placed: bool, ghost at: Coords)
      requires Kept(false) && w !in grid && IsPositive(wanted)
      modifies this
      ensures Kept(false) && cellsOccupiedByPlaceholder == old(cellsOccupiedByPlaceholder)
      ensures !placed ==> gridmap == old(gridmap) && grid == old(grid) && changed == old(changed)
      ensures !placed <==> avoidOverlappedWidgets && !FreeFor(old(gridmap), cols, wanted) &&
                           NoPosition(old(gridmap), cols, wanted.sizeX, wanted.sizeY)
      ensures placed ==> if !avoidOverlappedWidgets || FreeFor(old(gridmap), cols, wanted) then at == wanted
                         else IsNextPosition(old(gridmap), cols, at, wanted.sizeX, wanted.sizeY)
      ensures placed ==> Rose(old(grid)[w := at], grid, old(changed), changed)
      ensures old(Valid()) && (avoidOverlappedWidgets || FreeFor(old(gridmap), cols, wanted)) ==>
                && Valid() && Floating() <= old(Floating()) + {w}
                && (placed ==> AddedAt(w, at, old(grid), old(changed)) && NextsRest(old(gridmap), at))
                && (!AskedInMidAir(old(gridmap), cellsOccupiedByPlaceholder, cols, wanted) ==>
                      Floating() <= old(Floating()))
    {
      hide Sound, Agrees, ClosedBelow, Floaters, Floats, NoPosition, SumOfRows, Written, Gravity, StillDefined;
      at := wanted;
      ghost var strict := Valid() && (avoidOverlappedWidgets || FreeFor(gridmap, cols, wanted));
      var wgd := wanted;
      if avoidOverlappedWidgets {
        var canMoveTo := CanMoveTo(wanted.sizeX, wanted.sizeY, wanted.col, wanted.row);
        if !canMoveTo {
          var next := NextPosition(wanted.sizeX, wanted.sizeY);
          if next.None? {
            return false, wanted;
          }
          wgd := next.value;
          NextDoesNotFloat(gridmap, cellsOccupiedByPlaceholder, cols, wgd, wanted.sizeX, wanted.sizeY);
        }
      }
      at := wgd;
      Place(w, wgd, strict);
      return true, wgd;
    }

    /** A widget added at a position is there, and only widgets lower than it moved, and only up. */
    ghost predicate AddedAt(w: Widget, at: Coords, g0: Layout, changed0: set<Widget>)
      reads this`grid, this`changed
    {
      && w in grid && grid[w] == at
      && PulledUp(g0[w := at], grid, LowerThan(g0[w := at], at.row, grid.Keys), changed0, changed)
    }

    /** No widget floats that came first below a position in some column. */
    ghost predicate NextsRest(gm: Gridmap, at: Coords)
      reads this`gridmap, this`grid, this`cellsOccupiedByPlaceholder
    {
      forall x :: IsNextBelow(gm, at, x) ==> x !in Floating()
    }

    /** The new grid data, and add_to_gridmap. */
    method Place(w: Widget, wgd: Coords, ghost strict: bool)
      requires Kept(strict) && w !in grid && IsPositive(wgd) && (strict ==> FreeFor(gridmap, cols, wgd))
      modifies this
      ensures Kept(strict) && cellsOccupiedByPlaceholder == old(cellsOccupiedByPlaceholder)
      ensures Rose(old(grid)[w := wgd], grid, old(changed), changed)
      ensures strict ==> AddedAt(w, wgd, old(grid), old(changed)) && Floating() <= old(Floating()) + {w}
      ensures strict && !Floats(old(gridmap), cellsOccupiedByPlaceholder, wgd) ==> Floating() <= old(Floating())
      ensures strict ==> NextsRest(old(gridmap), wgd)
    {
      hide Sound, Agrees, ClosedBelow, Floaters, Floats, SumOfRows, Written, Gravity, StillDefined;
      grid := grid[w := wgd];
      assert grid - {w} == old(grid);
      ghost var g1 := grid;
      ghost var zone := LowerThan(g1, wgd.row, g1.Keys);
      LowerThanClosed(g1, wgd.row, g1.Keys);
      ghost var written, nexts := AddToGridmap(w, zone, strict);
      NextsOfWritten(old(gridmap), written, wgd, Occupied(w), nexts);
      FloatersAfterPlacing(old(gridmap), written, cellsOccupiedByPlaceholder, old(grid), w, wgd);
    }

    /** add_widget: a new widget at the next position. */
    method AddWidget(w: Widget, sizeX: nat, sizeY: nat) returns (placed: bool, ghost at: Coords)
      requires Kept(false) && w !in grid
      modifies this
      ensures Kept(false) && cellsOccupiedByPlaceholder == old(cellsOccupiedByPlaceholder)
      ensures !placed ==> gridmap == old(gridmap) && grid == old(grid) && changed == old(changed)
      ensures !placed <==> NoPosition(old(gridmap), cols, SizeOrOne(sizeX), SizeOrOne(sizeY))
      ensures placed ==> IsNextPosition(old(gridmap), cols, at, SizeOrOne(sizeX), SizeOrOne(sizeY))
      ensures placed ==> at.sizeX == Max(sizeX, 1) && at.sizeY == Max(sizeY, 1)
      ensures placed ==> Rose(old(grid)[w := at], grid, old(changed), changed)
      ensures old(Valid()) ==>
                && Valid() && Floating() <= old(Floating())
                && (placed ==> AddedAt(w, at, old(grid), old(changed)) && NextsRest(old(gridmap), at))
    {
      hide Sound, Agrees, Floaters, Floats, NoPosition, SumOfRows, Gravity;
      at := Coords(1, 1, 1, 1);
      var nextPos := NextPosition(sizeX, sizeY);
      if nextPos.None? {
        return false, at;
      }
      NextDoesNotFloat(gridmap, cellsOccupiedByPlaceholder, cols, nextPos.value, SizeOrOne(sizeX), SizeOrOne(sizeY));
      placed, at := RegisterWidget(w, nextPos.value);
    }

    /** remove_widget, the fade-out taken as immediate. Widgets only move up; where the index and the
        coordinates agree only those lower than the removed one do. */
    method RemoveWidget(w: Widget)
      requires Kept(false) && w in grid
      modifies this
      ensures Kept(false) && cellsOccupiedByPlaceholder == CellRange({}, {})
      ensures Rose(old(grid) - {w}, grid, old(changed), changed)
      ensures old(Valid()) ==>
                && Valid() && Floating() <= Floaters(old(gridmap), CellRange({}, {}), old(grid)) - {w}
                && PulledUp(old(grid) - {w}, grid, LowerThan(old(grid) - {w}, old(grid[w]).row, grid.Keys),
                            old(changed), changed)
      ensures old(Valid()) && old(Solid(gridmap, grid)) && Floaters(old(gridmap), CellRange({}, {}), old(grid)) == {}
              ==> IsOnlyOutcome(old(grid) - {w}, grid, cols)
    {
      hide Sound, Agrees, Floaters, Solid, StillDefined, ClosedBelow, IsOnlyOutcome, HoldsAdjacent, Written, SumOfRows;
      hide Gravity;
      ghost var strict := Valid();
      var wgd := grid[w];
      cellsOccupiedByPlaceholder := CellRange({}, {});
      var nexts := WidgetsBelow(wgd);
      ghost var gm0, g0 := gridmap, grid;
      ghost var zone := LowerThan(grid, wgd.row, grid.Keys);
      NextsAreWidgets(w, nexts);
      if strict {
        NextsInZone(w, nexts, zone);
        AdjacentAreNext(w, nexts);
      }
      UpdateWidgetPosition(wgd, Vacant);
      SoundAfterRemove(gm0, gridmap, grid, w);
      if strict {
        FloatersAfterRemove(gm0, gridmap, cellsOccupiedByPlaceholder, grid, cols, w, nexts);
        AgreesAfterRemove(gm0, gridmap, grid, w, cols);
      }
      grid := grid - {w};
      LowerThanClosed(grid, wgd.row, grid.Keys);
      assert zone == LowerThan(grid, wgd.row, grid.Keys);
      ghost var gm1, g1 := gridmap, grid;
      MoveEachUp(nexts, wgd.sizeY, zone, strict);
      if strict && Solid(gm0, g0) && Floaters(gm0, CellRange({}, {}), g0) == {} {
        SolidAfterRemove(gm0, gm1, g0, w);
        SolidAfterGravity(gm1, gridmap, g1, grid);
        OnlyOneOutcome(g1, gridmap, grid, cols);
      }
    }

    /** What the grid holds. */
    ghost function Now(): Snapshot
      reads this`gridmap, this`grid, this`changed, this`cellsOccupiedByPlaceholder
    {
      Snapshot(gridmap, grid, changed, Floating())
    }

    /** Every run: each command does what it is for, and the index holds a widget only at cells it covers.
        Where overlaps are avoided, it does so at exactly these cells, no two widgets share a cell, and no
        widget is left floating but one that was registered at a free position in mid-air, or floated at
        the start. */
    method Run(commands: seq<Command>) returns (ghost states: seq<Snapshot>)
      requires Kept(avoidOverlappedWidgets) && cellsOccupiedByPlaceholder == CellRange({}, {})
      modifies this
      ensures Kept(avoidOverlappedWidgets) && cellsOccupiedByPlaceholder == CellRange({}, {})
      ensures IsHistory(commands, states, avoidOverlappedWidgets, cols) && states[0] == old(Now())
      ensures states[|commands|] == Now()
      ensures forall w, c, r :: w in grid && CellAt(gridmap, c, r) == Occupied(w) ==>
                grid[w].col <= c < grid[w].col + grid[w].sizeX && grid[w].row <= r < grid[w].row + grid[w].sizeY
      ensures avoidOverlappedWidgets ==>
                && (forall w :: w in Floating() ==> w in old(Floating()) || LeftInMidAir(commands, states, cols, w))
                && (forall a, b :: a in grid && b in grid && a != b && ShareColumn(grid[a], grid[b]) ==>
                      grid[a].row + grid[a].sizeY <= grid[b].row || grid[b].row + grid[b].sizeY <= grid[a].row)
                && (forall w, c, r ::
                      (w in grid && grid[w].col <= c < grid[w].col + grid[w].sizeX &&
                       grid[w].row <= r < grid[w].row + grid[w].sizeY) ==> CellAt(gridmap, c, r) == Occupied(w))
    {
      hide IsStep;
      states := [Now()];
      for i := 0 to |commands|
        invariant Kept(avoidOverlappedWidgets) && cellsOccupiedByPlaceholder == CellRange({}, {})
        invariant |states| == i + 1 && states[0] == old(Now()) && states[i] == Now()
        invariant forall k, n :: 0 <= k < i && n == k + 1 ==>
                    IsStep(commands[k], avoidOverlappedWidgets, cols, states[k], states[n])
        invariant avoidOverlappedWidgets ==>
                    forall w :: w in Floating() ==>
                      w in old(Floating()) || LeftInMidAir(commands[..i], states, cols, w)
      {
        RunOne(commands[i]);
        LeftInMidAirGrows(commands, states, Now(), cols);
        states := states + [Now()];
      }
      assert commands[..|commands|] == commands;
      if avoidOverlappedWidgets {
        forall a, b | a in grid && b in grid && a != b && ShareColumn(grid[a], grid[b])
          ensures grid[a].row + grid[a].sizeY <= grid[b].row || grid[b].row + grid[b].sizeY <= grid[a].row
        {
          NoOverlap(gridmap, grid, cols, a, b);
        }
      }
    }

    /** One command; what is no call does nothing. */
    method RunOne(command: Command)
      requires Kept(avoidOverlappedWidgets) && cellsOccupiedByPlaceholder == CellRange({}, {})
      modifies this
      ensures Kept(avoidOverlappedWidgets) && cellsOccupiedByPlaceholder == CellRange({}, {})
      ensures IsStep(command, avoidOverlappedWidgets, cols, old(Now()), Now())
      ensures avoidOverlappedWidgets ==> Floating() <= old(Floating()) + MadeFloating(command, old(gridmap), cols)
    {
      hide Sound, Agrees, Floaters, Gravity, Rose, PulledUp, NoPosition, IsNextPosition, Floats;
      if !IsCall(command, grid) {
        return;
      }
      match command {
        case Add(w, sizeX, sizeY) =>
          var placed, at := AddWidget(w, sizeX, sizeY);
        case Register(w, wanted) =>
          var placed, at := RegisterWidget(w, wanted);
        case Remove(w) =>
          RemoveWidget(w);
      }
    }
  }

  /** A run from a new grid. Where overlaps are avoided and nothing is registered in mid-air, nothing floats. */
  method RunFromNew(cols: nat, rows: nat, avoidOverlappedWidgets: bool, commands: seq<Command>)
    returns (g: Gridster, ghost states: seq<Snapshot>)
    ensures g.Kept(avoidOverlappedWidgets) && IsHistory(commands, states, avoidOverlappedWidgets, cols)
    ensures states[0].layout == map[] && states[|commands|] == g.Now()
    ensures avoidOverlappedWidgets ==> forall w :: w in g.Floating() ==> LeftInMidAir(commands, states, cols, w)
    ensures avoidOverlappedWidgets && (forall i :: 0 <= i < |commands| ==> !commands[i].Register?) ==>
              g.Floating() == {}
  {
    g := new Gridster(cols, rows, avoidOverlappedWidgets);
    states := g.Run(commands);
  }

  // ----- Histories -----

  datatype Snapshot = Snapshot(index: Gridmap, layout: Layout, changed: set<Widget>, floating: set<Widget>)

  /** The states between commands. */
  ghost predicate IsHistory(commands: seq<Command>, states: seq<Snapshot>, avoid: bool, cols: int) {
    && |states| == |commands| + 1
    && forall k, n :: 0 <= k < |commands| && n == k + 1 ==> IsStep(commands[k], avoid, cols, states[k], states[n])
  }

  /** What one command does. */
  ghost predicate IsStep(command: Command, avoid: bool, cols: int, s: Snapshot, s': Snapshot) {
    if !IsCall(command, s.layout) then s' == s
    else
      match command
      case Add(w, sizeX, sizeY) =>
        var sx, sy := Max(sizeX, 1), Max(sizeY, 1);
        if NoPosition(s.index, cols, sx, sy) then s' == s
        else exists at :: IsNextPosition(s.index, cols, at, sx, sy) && IsPlacedAt(w, at, avoid, s, s')
      case Register(w, wanted) =>
        if !avoid || FreeFor(s.index, cols, wanted) then IsPlacedAt(w, wanted, avoid, s, s')
        else if NoPosition(s.index, cols, wanted.sizeX, wanted.sizeY) then s' == s
        else exists at ::
               IsNextPosition(s.index, cols, at, wanted.sizeX, wanted.sizeY) && IsPlacedAt(w, at, avoid, s, s')
      case Remove(w) =>
        && Rose(s.layout - {w}, s'.layout, s.changed, s'.changed)
        && (avoid ==> s'.floating <= s.floating - {w})
  }

  /** w is new, others only moved up; where overlaps are avoided w stays, and none right below it floats. */
  ghost predicate IsPlacedAt(w: Widget, at: Coords, avoid: bool, s: Snapshot, s': Snapshot) {
    && Rose(s.layout[w := at], s'.layout, s.changed, s'.changed)
    && (avoid ==> s'.layout[w] == at && forall x :: IsNextBelow(s.index, at, x) ==> x !in s'.floating)
  }

  /** The asked position is free, and nothing holds the widget up there. */
  ghost predicate AskedInMidAir(gm: Gridmap, placeholder: CellRange, cols: int, wanted: Coords) {
    FreeFor(gm, cols, wanted) && Floats(gm, placeholder, wanted)
  }

  ghost function MadeFloating(command: Command, gm: Gridmap, cols: int): set<Widget> {
    if command.Register? && AskedInMidAir(gm, CellRange({}, {}), cols, command.wanted) then {command.w} else {}
  }

  /** Some command registered w at a free position in mid-air. */
  ghost predicate LeftInMidAir(commands: seq<Command>, states: seq<Snapshot>, cols: int, w: Widget) {
    exists i :: 0 <= i < |commands| && i < |states| && w in MadeFloating(commands[i], states[i].index, cols)
  }

  lemma LeftInMidAirGrows(commands: seq<Command>, states: seq<Snapshot>, next: Snapshot, cols: int)
    requires 0 < |states| <= |commands|
    ensures var i := |states| - 1;
            forall w ::
              LeftInMidAir(commands[..i], states, cols, w) || w in MadeFloating(commands[i], states[i].index, cols) ==>
                LeftInMidAir(commands[..i + 1], states + [next], cols, w)
  {
    var i := |states| - 1;
    var before, after, states' := commands[..i], commands[..i + 1], states + [next];
    assert forall j :: 0 <= j < i ==> after[j] == before[j];
    assert forall j :: 0 <= j <= i ==> states'[j] == states[j];
    assert after[i] == commands[i];
  }

  lemma SlidIntoUnoccupied(before: Gridmap, after: Gridmap, p: Coords, row: int)
    requires Written(before, after, p, Vacant) && row <= p.row
    requires Unoccupied(before, p.(row := row, sizeY := p.row - row)) && Unoccupied(after, p)
    ensures Unoccupied(after, p.(row := row))
  {
    forall c, r | Covers(p.(row := row), c, r) ensures !CellAt(after, c, r).Occupied? {
      assert Covers(p, c, r) || Covers(p.(row := row, sizeY := p.row - row), c, r);
    }
  }

  /** One widget set to a higher row. */
  lemma RoseByOne(g0: Layout, g1: Layout, w: Widget, changed: set<Widget>)
    requires w in g0 && w in g1 && g1 == g0[w := g0[w].(row := g1[w].row)]
    requires 1 <= g1[w].row < g0[w].row && AllPositive(g0)
    ensures Rose(g0, g1, changed, changed + {w}) && AllPositive(g1)
    ensures 0 <= SumOfRows(g1) < SumOfRows(g0)
  {
    assert Moved(g0, g1) == {w};
    RoseMeasure(g0, g1, changed, changed + {w});
    assert g0[w] != g1[w];
  }

  lemma RoseWhole(w: Widget, g0: Layout, g1: Layout, g2: Layout, changed0: set<Widget>, changed2: set<Widget>)
    requires Rose(g0, g1, changed0, changed0 + {w}) && Rose(g1, g2, changed0, changed2)
    ensures Rose(g0, g2, changed0, changed2 + {w})
  {
    assert Rose(g1, g2, changed0 + {w}, changed2 + {w}) by {
      assert changed0 + {w} + Moved(g1, g2) == changed2 + {w};
    }
    RoseTransitive(g0, g1, g2, changed0, changed0 + {w}, changed2 + {w});
  }

  /** A slide of w followed by moves below it. */
  lemma SlideWhole(w: Widget, g0: Layout, g1: Layout, g2: Layout, zone: set<Widget>, below: set<Widget>,
                   changed0: set<Widget>, changed2: set<Widget>)
    requires w in g1 && w !in below && below <= zone
    requires PulledUp(g0, g1, zone, changed0, changed0 + {w}) && PulledUp(g1, g2, below, changed0, changed2)
    ensures PulledUp(g0, g2, zone, changed0, changed2 + {w}) && w in g2 && g2[w] == g1[w]
  {
    assert PulledUp(g1, g2, below, changed0 + {w}, changed2 + {w}) by {
      assert changed0 + {w} + Moved(g1, g2) == changed2 + {w};
    }
    PulledUpTransitive(g0, g1, g2, zone, below, changed0, changed0 + {w}, changed2 + {w});
  }
}
