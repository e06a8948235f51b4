/** Widget layouts of the dashboard grid and their agreement with the cell index, as values. */
module GridLayout {
  type Widget = nat

  /** The grid data of a widget: its top left cell (columns and rows count from 1) and its size. */
  datatype Coords = Coords(col: int, row: int, sizeX: int, sizeY: int)

  type Layout = map<Widget, Coords>

  /** A cell of the index: never written (JavaScript's undefined), false, or a widget. */
  datatype Cell = Undefined | Vacant | Occupied(widget: Widget)

  /** Columns of cells; column 0 does not exist and stays empty. */
  type Gridmap = seq<seq<Cell>>

  /** What get_cells_occupied returns; both sets empty when nothing is recorded. */
  datatype CellRange = CellRange(cols: set<int>, rows: set<int>)

  function CellAt(gm: Gridmap, c: int, r: int): Cell {
    if 0 <= c < |gm| && 0 <= r < |gm[c]| then gm[c][r] else Undefined
  }

  predicate Covers(p: Coords, c: int, r: int) {
    p.col <= c < p.col + p.sizeX && p.row <= r < p.row + p.sizeY
  }

  predicate WellPlaced(p: Coords, cols: int) {
    1 <= p.col && p.col + p.sizeX - 1 <= cols && 1 <= p.row && 1 <= p.sizeX && 1 <= p.sizeY
  }

  ghost predicate AllPlaced(g: Layout, cols: int) {
    forall w :: w in g ==> WellPlaced(g[w], cols)
  }

  predicate IsPositive(p: Coords) {
    1 <= p.col && 1 <= p.row && 1 <= p.sizeX && 1 <= p.sizeY
  }

  ghost predicate AllPositive(g: Layout) {
    forall w :: w in g ==> IsPositive(g[w])
  }

  /** The index holds a widget only at cells its coordinates cover. */
  ghost predicate Sound(gm: Gridmap, g: Layout) {
    forall c, r :: CellAt(gm, c, r).Occupied? ==>
      CellAt(gm, c, r).widget in g && Covers(g[CellAt(gm, c, r).widget], c, r)
  }

  /** The index holds a widget at exactly the cells its coordinates cover. */
  ghost predicate Agrees(gm: Gridmap, g: Layout) {
    Sound(gm, g) && forall w, c, r :: w in g && Covers(g[w], c, r) ==> CellAt(gm, c, r) == Occupied(w)
  }

  lemma SoundAfterRemove(before: Gridmap, after: Gridmap, g: Layout, w: Widget)
    requires Sound(before, g) && w in g && IsPositive(g[w]) && Written(before, after, g[w], Vacant)
    ensures Sound(after, g - {w})
  {
    forall c, r | CellAt(after, c, r).Occupied?
      ensures CellAt(after, c, r).widget in g - {w} && Covers(g[CellAt(after, c, r).widget], c, r)
    {
      assert 0 <= c < |after|;
      assert !Covers(g[w], c, r);
      assert CellAt(before, c, r) == CellAt(after, c, r);
    }
  }

  lemma SoundAfterAdd(before: Gridmap, after: Gridmap, g: Layout, w: Widget)
    requires w in g && Sound(before, g - {w}) && Written(before, after, g[w], Occupied(w))
    ensures Sound(after, g)
  {
    forall c, r | CellAt(after, c, r).Occupied?
      ensures CellAt(after, c, r).widget in g && Covers(g[CellAt(after, c, r).widget], c, r)
    {
      if !Covers(g[w], c, r) {
        assert CellAt(before, c, r) == CellAt(after, c, r);
      }
    }
  }

  ghost predicate Unoccupied(gm: Gridmap, p: Coords) {
    forall c, r :: Covers(p, c, r) ==> !CellAt(gm, c, r).Occupied?
  }

  /** after is before with v in the cells of p that lie in an existing column. */
  ghost predicate Written(before: Gridmap, after: Gridmap, p: Coords, v: Cell) {
    && |after| == |before|
    && forall c, r :: CellAt(after, c, r) ==
         if 1 <= c < |before| && Covers(p, c, r) then v else CellAt(before, c, r)
  }

  predicate ShareColumn(p: Coords, q: Coords) {
    p.col < q.col + q.sizeX && q.col < p.col + p.sizeX
  }

  predicate Above(p: Coords, q: Coords) {
    ShareColumn(p, q) && p.row < q.row
  }

  function Max(a: int, b: int): int {
    if a < b then b else a
  }

  /** Two widgets that share a column cover different rows of it. */
  lemma NoOverlap(gm: Gridmap, g: Layout, cols: int, a: Widget, b: Widget)
    requires Agrees(gm, g) && AllPlaced(g, cols)
    requires a in g && b in g && a != b && ShareColumn(g[a], g[b])
    ensures g[a].row + g[a].sizeY <= g[b].row || g[b].row + g[b].sizeY <= g[a].row
  {
    var c, r := Max(g[a].col, g[b].col), Max(g[a].row, g[b].row);
    assert Covers(g[a], c, r) ==> CellAt(gm, c, r) == Occupied(a);
    assert Covers(g[b], c, r) ==> CellAt(gm, c, r) == Occupied(b);
  }

  lemma AgreesAfterRemove(before: Gridmap, after: Gridmap, g: Layout, w: Widget, cols: int)
    requires Agrees(before, g) && AllPlaced(g, cols) && |before| == cols + 1 && w in g
    requires Written(before, after, g[w], Vacant)
    ensures Agrees(after, g - {w})
    ensures Unoccupied(after, g[w])
  {
    forall v, c, r | v in g - {w} && Covers(g[v], c, r) ensures CellAt(after, c, r) == Occupied(v) {
      assert CellAt(before, c, r) == Occupied(v);
      assert Covers(g[w], c, r) ==> CellAt(before, c, r) == Occupied(w);
    }
    forall c, r | CellAt(after, c, r).Occupied?
      ensures CellAt(after, c, r).widget in g - {w} && Covers(g[CellAt(after, c, r).widget], c, r)
    {
      assert CellAt(before, c, r) == CellAt(after, c, r);
    }
  }

  lemma AgreesAfterAdd(before: Gridmap, after: Gridmap, g: Layout, w: Widget, cols: int)
    requires w in g && Agrees(before, g - {w}) && AllPlaced(g, cols) && |before| == cols + 1
    requires Unoccupied(before, g[w]) && Written(before, after, g[w], Occupied(w))
    ensures Agrees(after, g)
  {
    forall v, c, r | v in g && Covers(g[v], c, r) ensures CellAt(after, c, r) == Occupied(v) {
      if v != w {
        assert v in g - {w} && Covers((g - {w})[v], c, r);
        assert CellAt(before, c, r) == Occupied(v);
        assert !Covers(g[w], c, r);
      }
    }
  }

  // ----- Positions for new widgets -----

  ghost predicate FreeFor(gm: Gridmap, cols: int, p: Coords) {
    p.col + p.sizeX - 1 <= cols && Unoccupied(gm, p)
  }

  /** The positions next_position tries: every column, down to one row past its last cell. */
  predicate Scanned(gm: Gridmap, c: int, r: int) {
    1 <= c < |gm| && 1 <= r <= |gm[c]|
  }

  ghost predicate NoPosition(gm: Gridmap, cols: int, sizeX: int, sizeY: int) {
    forall c, r :: Scanned(gm, c, r) ==> !FreeFor(gm, cols, Coords(c, r, sizeX, sizeY))
  }

  ghost predicate IsNextPosition(gm: Gridmap, cols: int, p: Coords, sizeX: int, sizeY: int) {
    && p.sizeX == sizeX && p.sizeY == sizeY && Scanned(gm, p.col, p.row) && FreeFor(gm, cols, p)
    && forall c, r :: Scanned(gm, c, r) && FreeFor(gm, cols, Coords(c, r, sizeX, sizeY)) ==>
                        p.row < r || (p.row == r && p.col <= c)
  }

  /** A widget that fits between a column and the right edge always gets a place if no column it would
      cover is longer than that one: below the last cell, if not higher up. */
  lemma RoomBelow(gm: Gridmap, cols: int, c: int, sizeX: int, sizeY: int)
    requires 1 <= c < |gm| && c + sizeX - 1 <= cols && gm[c] != []
    requires forall d :: c <= d < c + sizeX && d < |gm| ==> |gm[d]| <= |gm[c]|
    ensures !NoPosition(gm, cols, sizeX, sizeY)
  {
    var p := Coords(c, |gm[c]|, sizeX, sizeY);
    assert Scanned(gm, c, |gm[c]|);
    assert FreeFor(gm, cols, p);
  }

  /** A widget wider than the grid gets none. */
  lemma NoRoomForWider(gm: Gridmap, cols: int, sizeX: int, sizeY: int)
    requires sizeX > cols
    ensures NoPosition(gm, cols, sizeX, sizeY)
  {
  }

  function SizeOrOne(size: nat): nat {
    if size == 0 then 1 else size
  }

  // ----- Slides -----

  /** is_empty and not is_placeholder_in. */
  predicate PassableAt(gm: Gridmap, placeholder: CellRange, c: int, r: int) {
    CellAt(gm, c, r) == Vacant && !(c in placeholder.cols && r in placeholder.rows)
  }

  ghost predicate PassableBetween(gm: Gridmap, placeholder: CellRange, c: int, from: int, to: int) {
    forall r :: from <= r < to ==> PassableAt(gm, placeholder, c, r)
  }

  /** Every cell between row and the top of p is passable, in all columns of p. */
  ghost predicate SlideFree(gm: Gridmap, placeholder: CellRange, p: Coords, row: int) {
    forall c :: p.col <= c < p.col + p.sizeX ==> PassableBetween(gm, placeholder, c, row, p.row)
  }

  ghost predicate IsTopRow(gm: Gridmap, placeholder: CellRange, p: Coords, row: int) {
    && 1 <= row < p.row && SlideFree(gm, placeholder, p, row)
    && forall higher :: 1 <= higher < row ==> !SlideFree(gm, placeholder, p, higher)
  }

  /** A slide ends in the row reached by going up in all columns until something stops it in one
      of them. */
  lemma TopRowMeans(gm: Gridmap, placeholder: CellRange, p: Coords, row: int)
    requires IsTopRow(gm, placeholder, p, row)
    ensures 1 <= row < p.row
    ensures forall c, r :: p.col <= c < p.col + p.sizeX && row <= r < p.row ==> !Stops(gm, placeholder, c, r)
    ensures row > 1 ==> SomethingStops(gm, placeholder, p, row - 1)
  {
    forall c, r | p.col <= c < p.col + p.sizeX && row <= r < p.row ensures !Stops(gm, placeholder, c, r) {
      assert PassableBetween(gm, placeholder, c, row, p.row);
      assert PassableAt(gm, placeholder, c, r);
    }
    if row > 1 {
      assert !SlideFree(gm, placeholder, p, row - 1);
      var c :| p.col <= c < p.col + p.sizeX && !PassableBetween(gm, placeholder, c, row - 1, p.row);
      assert PassableBetween(gm, placeholder, c, row, p.row);
      assert !PassableAt(gm, placeholder, c, row - 1);
      assert Stops(gm, placeholder, c, row - 1);
    }
  }

  /** Every such row is where the slide ends. */
  lemma TopRowIs(gm: Gridmap, placeholder: CellRange, p: Coords, row: int)
    requires 1 <= row < p.row
    requires forall c, r :: p.col <= c < p.col + p.sizeX && row <= r < p.row ==> !Stops(gm, placeholder, c, r)
    requires row > 1 ==> SomethingStops(gm, placeholder, p, row - 1)
    ensures IsTopRow(gm, placeholder, p, row)
  {
    forall c | p.col <= c < p.col + p.sizeX ensures PassableBetween(gm, placeholder, c, row, p.row) {
      forall r | row <= r < p.row ensures PassableAt(gm, placeholder, c, r) {
        assert !Stops(gm, placeholder, c, r);
      }
    }
    if row > 1 {
      var c :| p.col <= c < p.col + p.sizeX && Stops(gm, placeholder, c, row - 1);
      assert !PassableAt(gm, placeholder, c, row - 1);
      forall higher | 1 <= higher < row ensures !SlideFree(gm, placeholder, p, higher) {
        assert !PassableBetween(gm, placeholder, c, higher, p.row);
      }
    }
  }

  ghost predicate SomethingStops(gm: Gridmap, placeholder: CellRange, p: Coords, r: int) {
    exists c :: p.col <= c < p.col + p.sizeX && Stops(gm, placeholder, c, r)
  }

  /** A cell that was never written, that holds a widget, or that is under the placeholder. */
  predicate Stops(gm: Gridmap, placeholder: CellRange, c: int, r: int) {
    CellAt(gm, c, r) == Undefined || CellAt(gm, c, r).Occupied? || (c in placeholder.cols && r in placeholder.rows)
  }

  // ----- Floating widgets -----

  /** Nothing holds p down from above: every cell on top of it is passable. */
  ghost predicate Floats(gm: Gridmap, placeholder: CellRange, p: Coords) {
    forall c :: p.col <= c < p.col + p.sizeX ==> FreeOnTop(gm, placeholder, p, c)
  }

  predicate FreeOnTop(gm: Gridmap, placeholder: CellRange, p: Coords, c: int) {
    PassableAt(gm, placeholder, c, p.row - 1)
  }

  ghost predicate SameRow(gm: Gridmap, after: Gridmap, r: int) {
    forall c :: CellAt(after, c, r) == CellAt(gm, c, r)
  }

  ghost function Floaters(gm: Gridmap, placeholder: CellRange, g: Layout): (floaters: set<Widget>)
    ensures floaters <= g.Keys
  {
    set w | w in g && Floats(gm, placeholder, g[w])
  }

  lemma FloatersHas(gm: Gridmap, placeholder: CellRange, g: Layout, w: Widget)
    ensures w in Floaters(gm, placeholder, g) <==> w in g && Floats(gm, placeholder, g[w])
  {
  }

  ghost predicate NoRowZero(gm: Gridmap) {
    forall c :: CellAt(gm, c, 0) == Undefined
  }

  lemma TopRowExists(gm: Gridmap, placeholder: CellRange, p: Coords) returns (row: int)
    requires 1 < p.row && SlideFree(gm, placeholder, p, p.row - 1)
    ensures IsTopRow(gm, placeholder, p, row)
  {
    row := 1;
    while !SlideFree(gm, placeholder, p, row)
      invariant 1 <= row < p.row
      invariant forall higher :: 1 <= higher < row ==> !SlideFree(gm, placeholder, p, higher)
      decreases p.row - row
    {
      row := row + 1;
    }
  }

  lemma OnTopIsSlide(gm: Gridmap, placeholder: CellRange, p: Coords)
    requires Floats(gm, placeholder, p)
    ensures SlideFree(gm, placeholder, p, p.row - 1)
  {
    var above := p.row - 1;
    forall c | p.col <= c < p.col + p.sizeX ensures PassableBetween(gm, placeholder, c, above, p.row) {
      assert FreeOnTop(gm, placeholder, p, c);
    }
  }

  /** A widget floats exactly when there is a row it can slide up to. */
  lemma FloatsCanSlide(gm: Gridmap, placeholder: CellRange, p: Coords)
    requires NoRowZero(gm) && 1 <= p.row && 1 <= p.sizeX
    ensures Floats(gm, placeholder, p) <==> exists row :: IsTopRow(gm, placeholder, p, row)
  {
    if Floats(gm, placeholder, p) {
      assert FreeOnTop(gm, placeholder, p, p.col);
      assert CellAt(gm, p.col, 0) == Undefined;
      OnTopIsSlide(gm, placeholder, p);
      var row := TopRowExists(gm, placeholder, p);
    }
    if row :| IsTopRow(gm, placeholder, p, row) {
      forall c | p.col <= c < p.col + p.sizeX ensures FreeOnTop(gm, placeholder, p, c) {
        assert PassableBetween(gm, placeholder, c, row, p.row);
      }
    }
  }

  /** A widget in its top row does not float. */
  lemma TopRowHolds(gm: Gridmap, after: Gridmap, placeholder: CellRange, p: Coords, row: int)
    requires NoRowZero(gm) && 1 <= p.sizeX && IsTopRow(gm, placeholder, p, row)
    requires SameRow(gm, after, row - 1)
    ensures !Floats(after, placeholder, p.(row := row))
  {
    var q, above := p.(row := row), row - 1;
    if Floats(after, placeholder, q) {
      assert FreeOnTop(after, placeholder, q, p.col);
      assert CellAt(gm, p.col, 0) == Undefined;
      forall c | p.col <= c < p.col + p.sizeX ensures PassableBetween(gm, placeholder, c, above, p.row) {
        assert FreeOnTop(after, placeholder, q, c);
        assert PassableBetween(gm, placeholder, c, row, p.row);
      }
      assert SlideFree(gm, placeholder, p, above);
    }
  }

  /** The widget of the first occupied cell of the column under the given row. */
  ghost predicate IsFirstBelow(gm: Gridmap, c: int, row: int, w: Widget) {
    exists r :: row < r && CellAt(gm, c, r) == Occupied(w) && NoneBetween(gm, c, row, r)
  }

  ghost predicate NoneBetween(gm: Gridmap, c: int, row: int, r: int) {
    forall q :: row < q < r ==> !CellAt(gm, c, q).Occupied?
  }

  ghost predicate IsFirstBelowSome(gm: Gridmap, from: int, to: int, row: int, w: Widget) {
    exists c :: from <= c < to && IsFirstBelow(gm, c, row, w)
  }

  /** The widget comes first below p in some column of p. */
  ghost predicate IsNextBelow(gm: Gridmap, p: Coords, w: Widget) {
    IsFirstBelowSome(gm, p.col, p.col + p.sizeX, p.row + p.sizeY - 1, w)
  }

  ghost predicate AreNext(gm: Gridmap, p: Coords, nexts: set<Widget>) {
    forall w :: w in nexts <==> IsNextBelow(gm, p, w)
  }

  /** Writing the cells of p does not change what is below it. */
  lemma NextsOfWritten(gm: Gridmap, written: Gridmap, p: Coords, v: Cell, nexts: set<Widget>)
    requires Written(gm, written, p, v) && AreNext(written, p, nexts)
    ensures AreNext(gm, p, nexts)
  {
    var row := p.row + p.sizeY - 1;
    forall c, r | row < r ensures CellAt(written, c, r) == CellAt(gm, c, r) {
      assert !Covers(p, c, r);
    }
    forall c, w ensures IsFirstBelow(gm, c, row, w) <==> IsFirstBelow(written, c, row, w) {
      SameFirstBelow(gm, written, c, row, w);
      SameFirstBelow(written, gm, c, row, w);
    }
    forall w ensures w in nexts <==> IsNextBelow(gm, p, w) {
      assert w in nexts <==> IsNextBelow(written, p, w);
    }
  }

  lemma SameFirstBelow(gm: Gridmap, gm': Gridmap, c: int, row: int, w: Widget)
    requires forall r :: row < r ==> CellAt(gm', c, r) == CellAt(gm, c, r)
    ensures IsFirstBelow(gm, c, row, w) ==> IsFirstBelow(gm', c, row, w)
  {
    if r :| row < r && CellAt(gm, c, r) == Occupied(w) && NoneBetween(gm, c, row, r) {
      assert NoneBetween(gm', c, row, r);
    }
  }

  /** The row right below p holds, in the columns of p, only widgets of nexts. */
  ghost predicate HoldsAdjacent(gm: Gridmap, p: Coords, nexts: set<Widget>) {
    forall c :: p.col <= c < p.col + p.sizeX && CellAt(gm, c, RowUnder(p)).Occupied? ==>
      CellAt(gm, c, RowUnder(p)).widget in nexts
  }

  function RowUnder(p: Coords): int {
    p.row + p.sizeY
  }

  /** When cells become free only where w was, only widgets right below it can begin to float. */
  lemma NewFloater(gm: Gridmap, after: Gridmap, placeholder: CellRange, g: Layout, w: Widget, nexts: set<Widget>,
                   x: Widget)
    requires Agrees(gm, g) && w in g && x in g && x != w && 1 <= g[x].sizeY && HoldsAdjacent(gm, g[w], nexts)
    requires forall c, r :: CellAt(after, c, r) == Vacant && CellAt(gm, c, r) != Vacant ==> Covers(g[w], c, r)
    requires Floats(after, placeholder, g[x])
    ensures Floats(gm, placeholder, g[x]) || x in nexts
  {
    var q := g[x];
    if !Floats(gm, placeholder, q) {
      var c :| q.col <= c < q.col + q.sizeX && !FreeOnTop(gm, placeholder, q, c);
      assert FreeOnTop(after, placeholder, q, c);
      var above := q.row - 1;
      assert Covers(g[w], c, above);
      assert Covers(q, c, q.row) && CellAt(gm, c, q.row) == Occupied(x);
      assert Covers(g[w], c, q.row) ==> CellAt(gm, c, q.row) == Occupied(w);
      assert q.row == RowUnder(g[w]);
    }
  }

  lemma FloatersAfterRemove(gm: Gridmap, after: Gridmap, placeholder: CellRange, g: Layout, cols: int, w: Widget,
                            nexts: set<Widget>)
    requires Agrees(gm, g) && AllPlaced(g, cols) && w in g && HoldsAdjacent(gm, g[w], nexts)
    requires Written(gm, after, g[w], Vacant)
    ensures Floaters(after, placeholder, g - {w}) <= Floaters(gm, placeholder, g) + nexts
  {
    forall x | x in Floaters(after, placeholder, g - {w}) ensures x in Floaters(gm, placeholder, g) + nexts {
      NewFloater(gm, after, placeholder, g, w, nexts, x);
    }
  }

  lemma SameRowAbove(gm: Gridmap, mid: Gridmap, after: Gridmap, p: Coords, row: int, w: Widget)
    requires row < p.row && Written(gm, mid, p, Vacant) && Written(mid, after, p.(row := row), Occupied(w))
    ensures SameRow(gm, after, row - 1)
  {
    var above := row - 1;
    forall c ensures CellAt(after, c, above) == CellAt(gm, c, above) {
      assert !Covers(p, c, above) && !Covers(p.(row := row), c, above);
    }
  }

  lemma FloatersAfterSlide(gm: Gridmap, mid: Gridmap, after: Gridmap, placeholder: CellRange, g: Layout, g': Layout,
                           cols: int, w: Widget, nexts: set<Widget>)
    requires Agrees(gm, g) && AllPlaced(g, cols) && NoRowZero(gm) && w in g && HoldsAdjacent(gm, g[w], nexts)
    requires w in g' && g' == g[w := g[w].(row := g'[w].row)] && IsTopRow(gm, placeholder, g[w], g'[w].row)
    requires Written(gm, mid, g[w], Vacant) && Written(mid, after, g'[w], Occupied(w))
    ensures Floaters(after, placeholder, g') <= Floaters(gm, placeholder, g) + nexts - {w}
  {
    SameRowAbove(gm, mid, after, g[w], g'[w].row, w);
    TopRowHolds(gm, after, placeholder, g[w], g'[w].row);
    forall x | x in Floaters(after, placeholder, g') ensures x in Floaters(gm, placeholder, g) + nexts - {w} {
      if x != w {
        assert g'[x] == g[x];
        NewFloater(gm, after, placeholder, g, w, nexts, x);
      }
    }
  }

  /** Placing a widget sets no other afloat. */
  lemma FloatersAfterPlacing(gm: Gridmap, after: Gridmap, placeholder: CellRange, g: Layout, w: Widget, p: Coords)
    requires w !in g && Written(gm, after, p, Occupied(w))
    ensures Floaters(after, placeholder, g[w := p]) <=
            Floaters(gm, placeholder, g) + (if Floats(gm, placeholder, p) then {w} else {})
  {
    var g' := g[w := p];
    forall x | x in Floaters(after, placeholder, g')
      ensures Floats(gm, placeholder, g'[x])
    {
      forall c | g'[x].col <= c < g'[x].col + g'[x].sizeX ensures FreeOnTop(gm, placeholder, g'[x], c) {
        assert FreeOnTop(after, placeholder, g'[x], c);
      }
    }
  }

  /** The next position is packed: nothing above it is free all along. */
  lemma NextDoesNotFloat(gm: Gridmap, placeholder: CellRange, cols: int, p: Coords, sizeX: int, sizeY: int)
    requires NoRowZero(gm) && 1 <= sizeX && IsNextPosition(gm, cols, p, sizeX, sizeY)
    ensures !Floats(gm, placeholder, p)
  {
    if Floats(gm, placeholder, p) {
      assert FreeOnTop(gm, placeholder, p, p.col);
      assert CellAt(gm, p.col, 0) == Undefined;
      var q := Coords(p.col, p.row - 1, sizeX, sizeY);
      forall c, r | Covers(q, c, r) ensures !CellAt(gm, c, r).Occupied? {
        assert FreeOnTop(gm, placeholder, p, c);
        assert r >= p.row ==> Covers(p, c, r);
      }
    }
  }

  // ----- Gravity -----

  /** Widgets only moved up, and no two widgets that share a column changed their order. */
  ghost predicate Gravity(before: Layout, after: Layout) {
    && after.Keys == before.Keys
    && (forall w :: w in before ==> Risen(before[w], after[w]))
    && (forall a, b :: a in before && b in before ==> (Above(before[a], before[b]) <==> Above(after[a], after[b])))
  }

  predicate Risen(p: Coords, q: Coords) {
    q == p.(row := q.row) && q.row <= p.row
  }

  lemma GravityTransitive(g0: Layout, g1: Layout, g2: Layout)
    requires Gravity(g0, g1) && Gravity(g1, g2)
    ensures Gravity(g0, g2)
  {
    forall a, b | a in g0 && b in g0 ensures Above(g0[a], g0[b]) <==> Above(g2[a], g2[b]) {
      assert Above(g0[a], g0[b]) <==> Above(g1[a], g1[b]);
    }
    forall w | w in g0 ensures Risen(g0[w], g2[w]) {
      assert Risen(g0[w], g1[w]) && Risen(g1[w], g2[w]);
    }
  }

  /** Everything the widgets of a zone can push on is in the zone. */
  ghost predicate ClosedBelow(g: Layout, zone: set<Widget>) {
    forall a, b :: a in zone && a in g && b in g && Above(g[a], g[b]) ==> b in zone
  }

  ghost predicate SameOutside(before: Layout, after: Layout, zone: set<Widget>) {
    forall w :: w in before && w !in zone ==> w in after && after[w] == before[w]
  }

  ghost function LowerThan(g: Layout, row: int, zone: set<Widget>): set<Widget> {
    set w | w in zone && w in g && g[w].row > row
  }

  lemma LowerThanClosed(g: Layout, row: int, zone: set<Widget>)
    requires ClosedBelow(g, zone)
    ensures ClosedBelow(g, LowerThan(g, row, zone))
  {
  }

  ghost function Moved(before: Layout, after: Layout): set<Widget> {
    set w | w in before && w in after && before[w] != after[w]
  }

  /** One or more upward moves inside a zone, with the set of changed widgets kept up to date. */
  ghost predicate PulledUp(before: Layout, after: Layout, zone: set<Widget>, changed: set<Widget>,
                           changed': set<Widget>) {
    && Gravity(before, after)
    && SameOutside(before, after, zone)
    && changed' == changed + Moved(before, after)
  }

  /** Widgets only moved up, with the set of changed widgets kept up to date. */
  ghost predicate Rose(before: Layout, after: Layout, changed: set<Widget>, changed': set<Widget>) {
    && after.Keys == before.Keys && (forall w :: w in before ==> Risen(before[w], after[w]))
    && changed' == changed + Moved(before, after)
  }

  lemma RoseTransitive(g0: Layout, g1: Layout, g2: Layout,
                       changed0: set<Widget>, changed1: set<Widget>, changed2: set<Widget>)
    requires Rose(g0, g1, changed0, changed1) && Rose(g1, g2, changed1, changed2)
    ensures Rose(g0, g2, changed0, changed2)
  {
    forall w | w in g0 ensures Risen(g0[w], g2[w]) && (g0[w] != g2[w] <==> g0[w] != g1[w] || g1[w] != g2[w]) {
      assert Risen(g0[w], g1[w]) && Risen(g1[w], g2[w]);
    }
    assert Moved(g0, g2) == Moved(g0, g1) + Moved(g1, g2);
  }

  lemma RoseMeasure(before: Layout, after: Layout, changed: set<Widget>, changed': set<Widget>)
    requires Rose(before, after, changed, changed') && AllPositive(after)
    ensures 0 <= SumOfRows(after) <= SumOfRows(before)
    ensures before != after ==> SumOfRows(after) < SumOfRows(before)
  {
    SumOfRowsFalls(before, after);
  }

  /** Widgets rose; in strict mode, the order in every column is kept and nothing moved outside the zone. */
  ghost predicate MovedUp(strict: bool, before: Layout, after: Layout, zone: set<Widget>,
                          changed: set<Widget>, changed': set<Widget>) {
    Rose(before, after, changed, changed') && (strict ==> PulledUp(before, after, zone, changed, changed'))
  }

  lemma MovedUpReflexive(strict: bool, g: Layout, zone: set<Widget>, changed: set<Widget>)
    ensures MovedUp(strict, g, g, zone, changed, changed)
  {
    PulledUpReflexive(g, zone, changed);
  }

  lemma MovedUpTransitive(strict: bool, g0: Layout, g1: Layout, g2: Layout, zone: set<Widget>, inner: set<Widget>,
                          changed0: set<Widget>, changed1: set<Widget>, changed2: set<Widget>)
    requires MovedUp(strict, g0, g1, zone, changed0, changed1) && MovedUp(strict, g1, g2, inner, changed1, changed2)
    requires strict ==> inner <= zone
    ensures MovedUp(strict, g0, g2, zone, changed0, changed2)
  {
    RoseTransitive(g0, g1, g2, changed0, changed1, changed2);
    if strict {
      PulledUpTransitive(g0, g1, g2, zone, inner, changed0, changed1, changed2);
    }
  }

  lemma PulledUpReflexive(g: Layout, zone: set<Widget>, changed: set<Widget>)
    ensures PulledUp(g, g, zone, changed, changed)
  {
    assert Moved(g, g) == {};
  }

  lemma PulledUpTransitive(g0: Layout, g1: Layout, g2: Layout, zone: set<Widget>, inner: set<Widget>,
                           changed0: set<Widget>, changed1: set<Widget>, changed2: set<Widget>)
    requires PulledUp(g0, g1, zone, changed0, changed1) && PulledUp(g1, g2, inner, changed1, changed2)
    requires inner <= zone
    ensures PulledUp(g0, g2, zone, changed0, changed2)
  {
    GravityTransitive(g0, g1, g2);
    forall w | w in g0 ensures Risen(g0[w], g1[w]) && Risen(g1[w], g2[w]) {
    }
    assert Moved(g0, g2) == Moved(g0, g1) + Moved(g1, g2);
  }

  lemma PulledUpMeasure(before: Layout, after: Layout, zone: set<Widget>, changed: set<Widget>, changed': set<Widget>,
                        cols: int)
    requires PulledUp(before, after, zone, changed, changed') && AllPlaced(after, cols)
    ensures 0 <= SumOfRows(after) <= SumOfRows(before)
    ensures before != after ==> SumOfRows(after) < SumOfRows(before)
    ensures ClosedBelow(before, zone) ==> ClosedBelow(after, zone)
  {
    SumOfRowsFalls(before, after);
  }

  lemma SlideOverPassable(gm: Gridmap, placeholder: CellRange, p: Coords, row: int)
    requires SlideFree(gm, placeholder, p, row) && row <= p.row
    ensures Unoccupied(gm, p.(row := row, sizeY := p.row - row))
  {
    forall c, r | Covers(p.(row := row, sizeY := p.row - row), c, r) ensures !CellAt(gm, c, r).Occupied? {
      assert PassableBetween(gm, placeholder, c, row, p.row);
      assert PassableAt(gm, placeholder, c, r);
    }
  }

  /** A slide through unoccupied cells keeps the order in every column. */
  lemma SlideIsGravity(gm: Gridmap, g: Layout, cols: int, w: Widget, row: int)
    requires Agrees(gm, g) && AllPlaced(g, cols) && w in g
    requires 1 <= row < g[w].row && Unoccupied(gm, g[w].(row := row, sizeY := g[w].row - row))
    ensures var g' := g[w := g[w].(row := row)];
            Gravity(g, g') && AllPlaced(g', cols) && Moved(g, g') == {w}
  {
    var p, g' := g[w], g[w := g[w].(row := row)];
    var passed := p.(row := row, sizeY := p.row - row);
    forall v | v in g && v != w && ShareColumn(p, g[v])
      ensures Above(p, g[v]) <==> Above(g'[w], g[v])
      ensures Above(g[v], p) <==> Above(g[v], g'[w])
    {
      NoOverlap(gm, g, cols, v, w);
      var c, r := Max(p.col, g[v].col), Max(row, g[v].row);
      assert Covers(g[v], c, r) && Covers(passed, c, r) ==> CellAt(gm, c, r) == Occupied(v);
    }
    forall a, b | a in g && b in g ensures Above(g[a], g[b]) <==> Above(g'[a], g'[b]) {
    }
  }

  // ----- Packed layouts -----

  /** Cells that were written stay written. */
  ghost predicate StillDefined(before: Gridmap, after: Gridmap) {
    forall c, r :: CellAt(before, c, r) != Undefined ==> CellAt(after, c, r) != Undefined
  }

  lemma WrittenIsDefined(before: Gridmap, after: Gridmap, p: Coords, v: Cell)
    requires Written(before, after, p, v) && v != Undefined
    ensures StillDefined(before, after)
  {
  }

  lemma StillDefinedReflexive(gm: Gridmap)
    ensures StillDefined(gm, gm)
  {
  }

  lemma StillDefinedTransitive(a: Gridmap, b: Gridmap, c: Gridmap)
    requires StillDefined(a, b) && StillDefined(b, c)
    ensures StillDefined(a, c)
  {
  }

  /** No cell above a widget was never written. */
  ghost predicate Solid(gm: Gridmap, g: Layout) {
    forall w, c, r :: w in g && OverOf(g[w], c, r) ==> CellAt(gm, c, r) != Undefined
  }

  predicate OverOf(p: Coords, c: int, r: int) {
    p.col <= c < p.col + p.sizeX && 1 <= r < p.row
  }

  lemma SolidAfterGravity(gm: Gridmap, after: Gridmap, g: Layout, g': Layout)
    requires Solid(gm, g) && StillDefined(gm, after) && Gravity(g, g')
    ensures Solid(after, g')
  {
    forall w, c, r | w in g' && OverOf(g'[w], c, r) ensures CellAt(after, c, r) != Undefined {
      assert Risen(g[w], g'[w]);
      assert OverOf(g[w], c, r);
    }
  }

  lemma SolidAfterRemove(gm: Gridmap, after: Gridmap, g: Layout, w: Widget)
    requires Solid(gm, g) && w in g && Written(gm, after, g[w], Vacant)
    ensures Solid(after, g - {w})
  {
    WrittenIsDefined(gm, after, g[w], Vacant);
  }

  ghost predicate Apart(g: Layout) {
    forall a, b :: a in g && b in g && Above(g[a], g[b]) ==> g[a].row + g[a].sizeY <= g[b].row
  }

  lemma AgreeingAreApart(gm: Gridmap, g: Layout, cols: int)
    requires Agrees(gm, g) && AllPlaced(g, cols)
    ensures Apart(g)
  {
    forall a, b | a in g && b in g && Above(g[a], g[b]) ensures g[a].row + g[a].sizeY <= g[b].row {
      NoOverlap(gm, g, cols, a, b);
    }
  }

  /** v stands right above w. */
  predicate Holds(g: Layout, v: Widget, w: Widget) {
    v in g && w in g && Above(g[v], g[w]) && g[v].row + g[v].sizeY == g[w].row
  }

  /** Every widget is in the first row or right below another. */
  ghost predicate Packed(g: Layout) {
    forall w :: w in g ==> g[w].row == 1 || exists v :: Holds(g, v, w)
  }

  /** Where nothing floats and no cell above a widget was never written, the layout is packed. */
  lemma NothingFloatsIsPacked(gm: Gridmap, g: Layout, cols: int)
    requires Agrees(gm, g) && AllPlaced(g, cols) && Solid(gm, g) && Floaters(gm, CellRange({}, {}), g) == {}
    ensures Packed(g)
  {
    forall w | w in g ensures g[w].row == 1 || exists v :: Holds(g, v, w) {
      assert w !in Floaters(gm, CellRange({}, {}), g);
      var c :| g[w].col <= c < g[w].col + g[w].sizeX && !FreeOnTop(gm, CellRange({}, {}), g[w], c);
      var above := g[w].row - 1;
      if above > 0 {
        assert OverOf(g[w], c, above);
        HeldBy(gm, g, cols, w, c, above);
      }
    }
  }

  lemma HeldBy(gm: Gridmap, g: Layout, cols: int, w: Widget, c: int, above: int)
    requires Agrees(gm, g) && AllPlaced(g, cols) && w in g && above == g[w].row - 1
    requires g[w].col <= c < g[w].col + g[w].sizeX && CellAt(gm, c, above).Occupied?
    ensures exists v :: Holds(g, v, w)
  {
    var v := CellAt(gm, c, above).widget;
    assert Covers(g[v], c, above) && Covers(g[w], c, g[w].row);
    assert v != w;
    NoOverlap(gm, g, cols, v, w);
    assert Holds(g, v, w);
  }

  /** Two layouts of the same widgets in the same order. */
  ghost predicate SameOrder(g: Layout, g': Layout) {
    && g.Keys == g'.Keys && (forall w :: w in g ==> g'[w] == g[w].(row := g'[w].row))
    && forall a, b :: a in g && b in g ==> (Above(g[a], g[b]) <==> Above(g'[a], g'[b]))
  }

  lemma GravityGivesSameOrder(g0: Layout, g: Layout, g': Layout)
    requires Gravity(g0, g) && Gravity(g0, g')
    ensures SameOrder(g, g')
  {
    forall w | w in g ensures g'[w] == g[w].(row := g'[w].row) {
      assert w in g0 && Risen(g0[w], g[w]) && Risen(g0[w], g'[w]);
    }
    forall a, b | a in g && b in g ensures Above(g[a], g[b]) <==> Above(g'[a], g'[b]) {
      assert a in g0 && b in g0 && (Above(g0[a], g0[b]) <==> Above(g[a], g[b]));
    }
  }

  /** A packed layout is the highest one. */
  lemma {:induction false} PackedIsHighest(g: Layout, g': Layout, w: Widget)
    requires SameOrder(g, g') && Packed(g) && Apart(g') && w in g
    requires forall v :: v in g' ==> 1 <= g[v].row && 1 <= g'[v].row && 1 <= g[v].sizeY
    ensures g[w].row <= g'[w].row
    decreases g[w].row
  {
    if g[w].row > 1 {
      var v :| Holds(g, v, w);
      assert g'[v].sizeY == g[v].sizeY;
      assert Above(g'[v], g'[w]);
      PackedIsHighest(g, g', v);
    }
  }

  lemma SameOrderSymmetric(g: Layout, g': Layout)
    requires SameOrder(g, g')
    ensures SameOrder(g', g)
  {
    forall w | w in g' ensures g[w] == g'[w].(row := g[w].row) {
      assert g'[w] == g[w].(row := g'[w].row);
    }
    forall a, b | a in g' && b in g' ensures Above(g'[a], g'[b]) <==> Above(g[a], g[b]) {
      assert a in g && b in g;
    }
  }

  /** There is only one packed layout of widgets in a given order. */
  lemma PackedIsUnique(g: Layout, g': Layout, cols: int)
    requires SameOrder(g, g') && Packed(g) && Packed(g') && Apart(g) && Apart(g')
    requires AllPlaced(g, cols) && AllPlaced(g', cols)
    ensures g == g'
  {
    hide Packed, Apart;
    SameOrderSymmetric(g, g');
    PackedAreHigher(g, g', cols);
    PackedAreHigher(g', g, cols);
    RowsDecide(g, g');
  }

  lemma PackedAreHigher(g: Layout, g': Layout, cols: int)
    requires SameOrder(g, g') && Packed(g) && Apart(g')
    requires AllPlaced(g, cols) && AllPlaced(g', cols)
    ensures forall w :: w in g ==> w in g' && g[w].row <= g'[w].row
  {
    hide Packed, Apart;
    forall w | w in g ensures g[w].row <= g'[w].row {
      PackedIsHighest(g, g', w);
    }
  }

  lemma RowsDecide(g: Layout, g': Layout)
    requires SameOrder(g, g') && forall w :: w in g ==> g[w].row == g'[w].row
    ensures g == g'
  {
  }

  /** Of all packed layouts that widgets moving up from g0 can reach, g is the only one. */
  ghost predicate IsOnlyOutcome(g0: Layout, g: Layout, cols: int) {
    Packed(g) && forall g' :: Gravity(g0, g') && AllPlaced(g', cols) && Apart(g') && Packed(g') ==> g' == g
  }

  lemma OnlyOneOutcome(g0: Layout, gm: Gridmap, g: Layout, cols: int)
    requires Gravity(g0, g) && Agrees(gm, g) && AllPlaced(g, cols) && Solid(gm, g)
    requires Floaters(gm, CellRange({}, {}), g) == {}
    ensures IsOnlyOutcome(g0, g, cols)
  {
    NothingFloatsIsPacked(gm, g, cols);
    AgreeingAreApart(gm, g, cols);
    forall g' | Gravity(g0, g') && AllPlaced(g', cols) && Apart(g') && Packed(g') ensures g' == g {
      GravityGivesSameOrder(g0, g, g');
      PackedIsUnique(g, g', cols);
    }
  }

  // ----- The termination measure -----

  ghost function SumOfRows(g: Layout): int {
    if g == map[] then 0 else
    var w :| w in g;
    g[w].row + SumOfRows(g - {w})
  }

  lemma {:induction false} SumOfRowsSplit(g: Layout, w: Widget)
    requires w in g
    ensures SumOfRows(g) == g[w].row + SumOfRows(g - {w})
    decreases |g|
  {
    var v :| v in g && SumOfRows(g) == g[v].row + SumOfRows(g - {v});
    if v != w {
      SumOfRowsSplit(g - {v}, w);
      SumOfRowsSplit(g - {w}, v);
      assert g - {v} - {w} == g - {w} - {v};
    }
  }

  lemma {:induction false} SumOfRowsFalls(before: Layout, after: Layout)
    requires after.Keys == before.Keys
    requires forall w :: w in before ==> Risen(before[w], after[w]) && after[w].row >= 1
    ensures 0 <= SumOfRows(after) <= SumOfRows(before)
    ensures before != after ==> SumOfRows(after) < SumOfRows(before)
    decreases |before|
  {
    if before == map[] {
      assert after == map[];
    } else {
      var w :| w in before;
      SumOfRowsSplit(before, w);
      SumOfRowsSplit(after, w);
      assert Risen(before[w], after[w]);
      var rest, rest' := before - {w}, after - {w};
      assert forall v :: v in rest ==> v in before;
      SumOfRowsFalls(rest, rest');
      if before != after && before[w] == after[w] {
        assert before == rest[w := before[w]] && after == rest'[w := after[w]];
      }
    }
  }
}
