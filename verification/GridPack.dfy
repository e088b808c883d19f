/** The layout of dashboard panels in rows of a 24-column grid. */
module GridPack {
  const GRID_WIDTH: nat := 24

  datatype Panel = Panel(w: nat, h: nat)

  datatype Placed = Placed(panel: Panel, x: nat, y: nat, w: nat, h: nat) {
    predicate Covers(cx: int, cy: int) {
      x <= cx < x + w && y <= cy < y + h
    }
  }

  // ---------------------------------------------------------------- rows

  function Width(panels: seq<Panel>): (w: nat) {
    if panels == [] then 0 else Width(panels[..|panels| - 1]) + panels[|panels| - 1].w
  }

  function Height(panels: seq<Panel>): (h: nat) {
    if panels == [] then 0 else
      var rest := Height(panels[..|panels| - 1]);
      if panels[|panels| - 1].h > rest then panels[|panels| - 1].h else rest
  }

  /** A row is as high as its highest panel. */
  lemma {:induction false} HeightIsGreatest(panels: seq<Panel>)
    ensures forall p :: p in panels ==> p.h <= Height(panels)
    ensures panels != [] ==> exists p :: p in panels && p.h == Height(panels)
  {
    if panels != [] {
      var n := |panels| - 1;
      HeightIsGreatest(panels[..n]);
      assert panels == panels[..n] + [panels[n]];
      assert panels[n] in panels;
    }
  }

  lemma {:induction false} WidthSplit(a: seq<Panel>, b: seq<Panel>)
    ensures Width(a + b) == Width(a) + Width(b)
  {
    if b == [] {
      assert a + b == a;
    } else {
      var n := |b| - 1;
      assert (a + b)[..|a + b| - 1] == a + b[..n];
      WidthSplit(a, b[..n]);
    }
  }

  function RightEdge(placed: seq<Placed>): (x: nat) {
    if placed == [] then 0 else placed[|placed| - 1].x + placed[|placed| - 1].w
  }

  /** `placed` is the row of `row` at height `y`: the panels side by side from the left edge to the
      right one, all as high as the highest. When the panels fit, what is left of the 24 columns is
      spread evenly, the remainder over the first ones. */
  ghost predicate IsRow(row: seq<Panel>, placed: seq<Placed>, y: nat) {
    && |placed| == |row| > 0
    && (forall k :: 0 <= k < |row| ==>
          placed[k].panel == row[k] && placed[k].y == y && placed[k].h == Height(row))
    && placed[0].x == 0
    && (forall k :: 0 < k < |row| ==> placed[k].x == placed[k - 1].x + placed[k - 1].w)
    && RightEdge(placed) == GRID_WIDTH
    && (Width(row) <= GRID_WIDTH ==> forall k :: 0 <= k < |row| ==> placed[k].w == Share(row, k))
  }

  /** The part of `slack` the `k`-th of `n` panels gets: an even share, and one column more for the
      first ones while the remainder lasts. */
  function Part(slack: int, n: nat, k: nat): (w: int)
    requires n > 0
    ensures slack >= 0 ==> w >= 0
  {
    slack / n + (if k < slack % n then 1 else 0)
  }

  function Parts(slack: int, n: nat, k: nat): (w: int)
    requires n > 0
  {
    if k == 0 then 0 else Parts(slack, n, k - 1) + Part(slack, n, k - 1)
  }

  lemma {:induction false} PartsClosed(slack: int, n: nat, k: nat, q: int, r: int)
    requires n > 0 && q == slack / n && r == slack % n
    ensures Parts(slack, n, k) == k * q + (if k < r then k else r)
  {
    if k > 0 {
      PartsClosed(slack, n, k - 1, q, r);
      assert k * q == (k - 1) * q + q;
    }
  }

  lemma {:induction false} PartsTotal(slack: int, n: nat)
    requires n > 0
    ensures Parts(slack, n, n) == slack
  {
    PartsClosed(slack, n, n, slack / n, slack % n);
  }

  /** The width the slack-distribution formula gives the panel at `k`, the last one included. */
  function Share(row: seq<Panel>, k: nat): (w: nat)
    requires k < |row| && Width(row) <= GRID_WIDTH
    ensures w >= row[k].w
  {
    row[k].w + Part(GRID_WIDTH - Width(row), |row|, k)
  }

  /** The slack is spread evenly: no panel gets two columns more than another, and an earlier one never
      gets less than a later one. */
  lemma {:induction false} SlackIsEven(row: seq<Panel>, i: nat, j: nat)
    requires i < j < |row| && Width(row) <= GRID_WIDTH
    ensures 0 <= (Share(row, i) - row[i].w) - (Share(row, j) - row[j].w) <= 1
  {
  }

  /** Where the panel at `k` starts. */
  function Offset(row: seq<Panel>, k: nat): (x: nat)
    requires k <= |row| && Width(row) <= GRID_WIDTH
  {
    if k == 0 then 0 else Offset(row, k - 1) + Share(row, k - 1)
  }

  lemma {:induction false} OffsetSum(row: seq<Panel>, k: nat)
    requires 0 < |row| && k <= |row| && Width(row) <= GRID_WIDTH
    ensures Offset(row, k) == Width(row[..k]) + Parts(GRID_WIDTH - Width(row), |row|, k)
  {
    if k == 0 {
      assert row[..0] == [];
    } else {
      OffsetSum(row, k - 1);
      assert row[..k][..k - 1] == row[..k - 1];
    }
  }

  /** The shares fill the row, so closing it exactly gives the last panel what the formula gives it. */
  lemma {:induction false} SharesFillRow(row: seq<Panel>)
    requires 0 < |row| && Width(row) <= GRID_WIDTH
    ensures Offset(row, |row|) == GRID_WIDTH
    ensures GRID_WIDTH - Offset(row, |row| - 1) == Share(row, |row| - 1)
  {
    OffsetSum(row, |row|);
    PartsTotal(GRID_WIDTH - Width(row), |row|);
    assert row[..|row|] == row;
  }

  method MeasureRow(row: seq<Panel>) returns (rowW: nat, rowH: nat)
    ensures rowW == Width(row) && rowH == Height(row)
  {
    rowW, rowH := 0, 0;
    for k := 0 to |row|
      invariant rowW == Width(row[..k]) && rowH == Height(row[..k])
    {
      assert row[..k + 1][..k] == row[..k];
      rowW := rowW + row[k].w;
      if row[k].h > rowH { rowH := row[k].h; }
    }
    assert row[..|row|] == row;
  }

  /** The first `k` panels of a row, placed up to column `x`. */
  ghost predicate PlacedUpTo(row: seq<Panel>, placed: seq<Placed>, y: nat, h: nat, k: nat, x: nat) {
    && |placed| == k <= |row|
    && (forall m :: 0 <= m < k ==> placed[m].panel == row[m] && placed[m].y == y && placed[m].h == h)
    && (forall m :: 0 < m < k ==> placed[m].x == placed[m - 1].x + placed[m - 1].w)
    && RightEdge(placed) == x && (k > 0 ==> placed[0].x == 0)
  }

  lemma {:induction false} PlaceOneMore(row: seq<Panel>, placed: seq<Placed>, y: nat, h: nat, x: nat, w: nat)
    requires |placed| < |row| && PlacedUpTo(row, placed, y, h, |placed|, x)
    ensures PlacedUpTo(row, placed + [Placed(row[|placed|], x, y, w, h)], y, h, |placed| + 1, x + w)
  {
  }

  /** The width of the panel at `k` when the row is placed up to column `x`: the last panel closes
      the row exactly. */
  function PanelWidth(row: seq<Panel>, rowW: nat, k: nat, x: nat): (w: int)
    requires k < |row|
  {
    if k == |row| - 1 then GRID_WIDTH - x else row[k].w + Part(GRID_WIDTH - rowW, |row|, k)
  }

  ghost predicate AtOffset(row: seq<Panel>, k: nat, x: nat) {
    if Width(row) <= GRID_WIDTH then k <= |row| && x == Offset(row, k)
    else |row| == 1 && x == if k == 0 then 0 else GRID_WIDTH
  }

  lemma {:induction false} PanelWidthIsShare(row: seq<Panel>, k: nat, x: nat)
    requires k < |row| && AtOffset(row, k, x)
    ensures var w := PanelWidth(row, Width(row), k, x);
      && w >= 0 && AtOffset(row, k + 1, x + w)
      && (Width(row) <= GRID_WIDTH ==> w == Share(row, k))
      && (k == |row| - 1 ==> x + w == GRID_WIDTH)
  {
    if Width(row) <= GRID_WIDTH { SharesFillRow(row); }
  }

  /** Panels that fit side by side, or a single one. */
  predicate MakesRow(row: seq<Panel>) {
    row != [] && (Width(row) <= GRID_WIDTH || |row| == 1)
  }

  ghost predicate RowInProgress(row: seq<Panel>, placed: seq<Placed>, y: nat, h: nat, k: nat, x: nat) {
    && PlacedUpTo(row, placed, y, h, k, x) && AtOffset(row, k, x) && (k == |row| ==> x == GRID_WIDTH)
    && (Width(row) <= GRID_WIDTH ==> forall m :: 0 <= m < k ==> placed[m].w == Share(row, m))
  }

  lemma {:induction false} PlaceNext(row: seq<Panel>, placed: seq<Placed>, y: nat, h: nat, k: nat, x: nat,
                                     w: nat, more: seq<Placed>, x': nat)
    requires k < |row| && RowInProgress(row, placed, y, h, k, x) && w == PanelWidth(row, Width(row), k, x)
    requires more == placed + [Placed(row[k], x, y, w, h)] && x' == x + w
    ensures RowInProgress(row, more, y, h, k + 1, x')
  {
    PanelWidthIsShare(row, k, x);
    PlaceOneMore(row, placed, y, h, x, w);
  }

  lemma {:induction false} RowDone(row: seq<Panel>, placed: seq<Placed>, y: nat, h: nat, x: nat)
    requires row != [] && RowInProgress(row, placed, y, h, |row|, x) && h == Height(row)
    ensures IsRow(row, placed, y)
  {
  }

  method PlaceRow(row: seq<Panel>, y: nat) returns (placed: seq<Placed>, rowH: nat)
    requires MakesRow(row)
    ensures IsRow(row, placed, y) && rowH == Height(row)
  {
    var rowW;
    rowW, rowH := MeasureRow(row);
    placed := [];
    var x: nat := 0;
    for k := 0 to |row|
      invariant RowInProgress(row, placed, y, rowH, k, x)
    {
      PanelWidthIsShare(row, k, x);
      var w := PanelWidth(row, rowW, k, x);
      ghost var before, from := placed, x;
      placed := placed + [Placed(row[k], x, y, w, rowH)];
      x := x + w;
      PlaceNext(row, before, y, rowH, k, from, w, placed, x);
    }
    RowDone(row, placed, y, rowH, x);
  }

  // -------------------------------------------------------------- packing

  datatype Row = Row(panels: seq<Panel>, placed: seq<Placed>, top: nat)

  function Panels(rows: seq<Row>): (r: seq<Panel>) {
    if rows == [] then [] else Panels(rows[..|rows| - 1]) + rows[|rows| - 1].panels
  }

  function AllPlaced(rows: seq<Row>): (r: seq<Placed>) {
    if rows == [] then [] else AllPlaced(rows[..|rows| - 1]) + rows[|rows| - 1].placed
  }

  /** The bottom of the last row. */
  function Bottom(rows: seq<Row>): (y: nat) {
    if rows == [] then 0 else rows[|rows| - 1].top + Height(rows[|rows| - 1].panels)
  }

  ghost predicate RowFits(row: Row) {
    MakesRow(row.panels) && IsRow(row.panels, row.placed, row.top)
  }

  /** The rows follow each other downwards, and each was closed because the first panel of the next
      one would not have fitted. */
  ghost predicate Stacked(rows: seq<Row>) {
    forall r :: 0 <= r < |rows| ==> RowAt(rows, r)
  }

  ghost predicate RowAt(rows: seq<Row>, r: nat)
    requires r < |rows|
  {
    && RowFits(rows[r]) && rows[r].top == Bottom(rows[..r])
    && (r > 0 ==> NextDoesNotFit(rows[r - 1].panels, rows[r].panels[0]))
  }

  ghost predicate NextDoesNotFit(row: seq<Panel>, next: Panel) {
    Width(row) + next.w > GRID_WIDTH
  }

  /** The first `i` panels are laid out in `rows`, down to line `y`. */
  ghost predicate PackedUpTo(panels: seq<Panel>, rows: seq<Row>, placed: seq<Placed>, i: nat, y: nat) {
    && i <= |panels| && Panels(rows) == panels[..i]
    && Stacked(rows) && AllPlaced(rows) == placed && Bottom(rows) == y
    && (rows != [] && i < |panels| ==> NextDoesNotFit(rows[|rows| - 1].panels, panels[i]))
  }

  lemma {:induction false} PackStep(panels: seq<Panel>, rows: seq<Row>, placed: seq<Placed>, i: nat, y: nat, j: nat,
                                    row: Row)
    requires PackedUpTo(panels, rows, placed, i, y) && RowEnds(panels, i, j)
    requires row.panels == panels[i..j] && row.top == y && IsRow(row.panels, row.placed, y)
    ensures PackedUpTo(panels, rows + [row], placed + row.placed, j, y + Height(row.panels))
  {
    assert panels[..i] + panels[i..j] == panels[..j];
    assert row.panels[0] == panels[i];
    OneMoreRow(rows, row);
  }

  /** `placed` is `panels` laid out in `rows`. */
  ghost predicate IsLayout(panels: seq<Panel>, rows: seq<Row>, placed: seq<Placed>) {
    Stacked(rows) && Panels(rows) == panels && AllPlaced(rows) == placed
  }

  /** `pack`. */
  method Pack(panels: seq<Panel>) returns (placed: seq<Placed>)
    ensures exists rows :: IsLayout(panels, rows, placed)
  {
    placed := [];
    ghost var rows: seq<Row> := [];
    var y: nat, i: nat := 0, 0;
    NothingPacked(panels);
    while i < |panels|
      invariant PackedUpTo(panels, rows, placed, i, y)
    {
      var j, rowPlaced, rowH := NextRow(panels, i, y);
      ghost var row := Row(panels[i..j], rowPlaced, y);
      PackStep(panels, rows, placed, i, y, j, row);
      placed, rows, i, y := placed + rowPlaced, rows + [row], j, y + rowH;
    }
    AllPacked(panels, rows, placed, i, y);
  }

  method NextRow(panels: seq<Panel>, i: nat, y: nat) returns (j: nat, placed: seq<Placed>, rowH: nat)
    requires i < |panels|
    ensures RowEnds(panels, i, j) && IsRow(panels[i..j], placed, y) && rowH == Height(panels[i..j])
  {
    j := EndOfRow(panels, i);
    placed, rowH := PlaceRow(panels[i..j], y);
  }

  lemma {:induction false} NothingPacked(panels: seq<Panel>)
    ensures PackedUpTo(panels, [], [], 0, 0)
  {
    assert panels[..0] == [];
  }

  lemma {:induction false} AllPacked(panels: seq<Panel>, rows: seq<Row>, placed: seq<Placed>, i: nat, y: nat)
    requires PackedUpTo(panels, rows, placed, i, y) && i >= |panels|
    ensures IsLayout(panels, rows, placed)
  {
    assert panels[..|panels|] == panels;
  }

  /** The greedy scan ends the row that starts at `i` before `j`. */
  ghost predicate RowEnds(panels: seq<Panel>, i: nat, j: nat) {
    && i < j <= |panels|
    && (Width(panels[i..j]) <= GRID_WIDTH || j == i + 1)
    && (j < |panels| ==> NextDoesNotFit(panels[i..j], panels[j]))
  }

  /** Gathers panels until the row would overflow; a panel wider than the grid goes alone. */
  method EndOfRow(panels: seq<Panel>, i: nat) returns (j: nat)
    requires i < |panels|
    ensures RowEnds(panels, i, j)
  {
    var rowW := 0;
    j := i;
    while j < |panels| && rowW + panels[j].w <= GRID_WIDTH
      invariant i <= j <= |panels| && rowW == Width(panels[i..j]) <= GRID_WIDTH
    {
      assert panels[i..j + 1][..j - i] == panels[i..j];
      rowW := rowW + panels[j].w;
      j := j + 1;
    }
    if j == i {
      assert panels[i..i + 1] == [panels[i]] && [panels[i]][..0] == [];
      j := i + 1;
    }
  }

  lemma {:induction false} OneMoreRow(rows: seq<Row>, row: Row)
    requires Stacked(rows) && RowFits(row) && row.top == Bottom(rows)
    requires rows != [] ==> NextDoesNotFit(rows[|rows| - 1].panels, row.panels[0])
    ensures Stacked(rows + [row]) && Panels(rows + [row]) == Panels(rows) + row.panels
    ensures AllPlaced(rows + [row]) == AllPlaced(rows) + row.placed
    ensures Bottom(rows + [row]) == row.top + Height(row.panels)
  {
    var rows' := rows + [row];
    assert rows'[..|rows|] == rows;
    forall r | 0 <= r < |rows'| ensures RowAt(rows', r) {
      if r < |rows| {
        assert RowAt(rows, r);
        assert rows'[..r] == rows[..r];
      }
    }
  }

  // --------------------------------------------------------------- tiling

  /** Panels keep their order, and one that is not wider than the grid is never made narrower. */
  lemma {:induction false} PanelsKeepOrderAndWidth(rows: seq<Row>, k: nat)
    requires Stacked(rows)
    ensures |AllPlaced(rows)| == |Panels(rows)|
    ensures k < |Panels(rows)| ==> AllPlaced(rows)[k].panel == Panels(rows)[k]
    ensures k < |Panels(rows)| && Panels(rows)[k].w <= GRID_WIDTH ==> AllPlaced(rows)[k].w >= Panels(rows)[k].w
  {
    if rows != [] {
      var n := |rows| - 1;
      StackedPrefix(rows, n);
      PanelsKeepOrderAndWidth(rows[..n], k);
      assert RowAt(rows, n);
      var m := k - |Panels(rows[..n])|;
      if 0 <= m < |rows[n].panels| && Width(rows[n].panels) > GRID_WIDTH {
        assert m == 0;
      }
    }
  }

  lemma {:induction false} StackedPrefix(rows: seq<Row>, n: nat)
    requires Stacked(rows) && n <= |rows|
    ensures Stacked(rows[..n])
  {
    forall r | 0 <= r < n ensures RowAt(rows[..n], r) {
      assert RowAt(rows, r);
      assert rows[..n][..r] == rows[..r];
    }
  }

  /** Within a row, every column belongs to exactly one panel. */
  lemma {:induction false} RowColumn(row: seq<Panel>, placed: seq<Placed>, y: nat, cx: nat) returns (k: nat)
    requires IsRow(row, placed, y) && cx < GRID_WIDTH
    ensures k < |placed| && placed[k].x <= cx < placed[k].x + placed[k].w
    ensures forall m :: 0 <= m < |placed| && placed[m].x <= cx < placed[m].x + placed[m].w ==> m == k
  {
    k := 0;
    while cx >= placed[k].x + placed[k].w
      invariant k < |row| && placed[k].x <= cx
      decreases |row| - k
    {
      k := k + 1;
    }
    forall m | 0 <= m < |row| && m != k ensures !(placed[m].x <= cx < placed[m].x + placed[m].w) {
      if m < k { LeftOf(row, placed, y, m, k); } else { LeftOf(row, placed, y, k, m); }
    }
  }

  lemma {:induction false} LeftOf(row: seq<Panel>, placed: seq<Placed>, y: nat, m: nat, k: nat)
    requires IsRow(row, placed, y) && m < k < |row|
    ensures placed[m].x + placed[m].w <= placed[k].x
    decreases k
  {
    if m + 1 < k { LeftOf(row, placed, y, m, k - 1); }
  }

  lemma {:induction false} Above(rows: seq<Row>, r: nat, r': nat)
    requires Stacked(rows) && r < r' < |rows|
    ensures rows[r].top + Height(rows[r].panels) <= rows[r'].top
    decreases r'
  {
    assert RowAt(rows, r');
    assert rows[..r'][r' - 1] == rows[r' - 1];
    if r + 1 < r' { Above(rows, r, r' - 1); }
  }

  lemma {:induction false} AboveBottom(rows: seq<Row>, r: nat)
    requires Stacked(rows) && r < |rows|
    ensures rows[r].top + Height(rows[r].panels) <= Bottom(rows)
  {
    if r + 1 < |rows| { Above(rows, r, |rows| - 1); }
  }

  /** The row that covers the line `cy`. */
  lemma {:induction false} RowLine(rows: seq<Row>, cy: nat) returns (r: nat)
    requires Stacked(rows) && cy < Bottom(rows)
    ensures r < |rows| && rows[r].top <= cy < rows[r].top + Height(rows[r].panels)
  {
    var n := |rows| - 1;
    assert RowAt(rows, n);
    if rows[n].top <= cy {
      r := n;
    } else {
      StackedPrefix(rows, n);
      r := RowLine(rows[..n], cy);
    }
  }

  /** Every cell of the 24 columns by the height of the layout is covered by exactly one panel, and
      no panel reaches outside. */
  lemma {:induction false} TilesExactly(rows: seq<Row>, cx: nat, cy: nat) returns (r: nat, k: nat)
    requires Stacked(rows) && cx < GRID_WIDTH && cy < Bottom(rows)
    ensures r < |rows| && k < |rows[r].placed| && rows[r].placed[k].Covers(cx, cy)
    ensures forall r', k' :: (0 <= r' < |rows| && 0 <= k' < |rows[r'].placed| && rows[r'].placed[k'].Covers(cx, cy)
      ==> r' == r && k' == k)
  {
    r := RowLine(rows, cy);
    assert RowAt(rows, r);
    k := RowColumn(rows[r].panels, rows[r].placed, rows[r].top, cx);
    forall r', k' | 0 <= r' < |rows| && 0 <= k' < |rows[r'].placed| && rows[r'].placed[k'].Covers(cx, cy)
      ensures r' == r && k' == k
    {
      assert RowAt(rows, r');
      if r' < r { Above(rows, r', r); } else if r < r' { Above(rows, r, r'); }
    }
  }

  lemma {:induction false} StaysInside(rows: seq<Row>, r: nat, k: nat, cx: int, cy: int)
    requires Stacked(rows) && r < |rows| && k < |rows[r].placed| && rows[r].placed[k].Covers(cx, cy)
    ensures 0 <= cx < GRID_WIDTH && 0 <= cy < Bottom(rows)
  {
    assert RowAt(rows, r);
    var row := rows[r];
    var n := |row.panels| - 1;
    if k < n { LeftOf(row.panels, row.placed, row.top, k, n); }
    AboveBottom(rows, r);
  }

  // ------------------------------------------------------------- fewest rows

  function Joined(split: seq<seq<Panel>>): (r: seq<Panel>) {
    if split == [] then [] else Joined(split[..|split| - 1]) + split[|split| - 1]
  }

  lemma {:induction false} PrefixOfPanels(rows: seq<Row>, r: nat)
    requires r <= |rows|
    ensures Panels(rows[..r]) <= Panels(rows)
    decreases |rows|
  {
    if r < |rows| {
      var n := |rows| - 1;
      PrefixOfPanels(rows[..n], r);
      assert rows[..n][..r] == rows[..r];
    } else {
      assert rows[..r] == rows;
    }
  }

  lemma {:induction false} PrefixOfJoined(split: seq<seq<Panel>>, r: nat)
    requires r <= |split|
    ensures Joined(split[..r]) <= Joined(split)
    decreases |split|
  {
    if r < |split| {
      var n := |split| - 1;
      PrefixOfJoined(split[..n], r);
      assert split[..n][..r] == split[..r];
    } else {
      assert split[..r] == split;
    }
  }

  lemma {:induction false} WidthOfPart(a: seq<Panel>, i: nat, i': nat, j': nat, j: nat)
    requires i <= i' <= j' <= j <= |a|
    ensures Width(a[i'..j']) <= Width(a[i..j])
  {
    assert a[i..j] == a[i..i'] + a[i'..j'] + a[j'..j];
    WidthSplit(a[i..i'] + a[i'..j'], a[j'..j]);
    WidthSplit(a[i..i'], a[i'..j']);
  }

  /** After any number of rows the greedy layout has placed at least as many panels as any split. */
  lemma {:induction false} GreedyStaysAhead(rows: seq<Row>, split: seq<seq<Panel>>, r: nat)
    requires Stacked(rows) && Joined(split) == Panels(rows)
    requires forall s :: 0 <= s < |split| ==> Width(split[s]) <= GRID_WIDTH
    requires r <= |split| && r < |rows|
    ensures |Joined(split[..r])| <= |Panels(rows[..r])|
    decreases r
  {
    if r == 0 {
      assert split[..0] == [];
    } else {
      GreedyStaysAhead(rows, split, r - 1);
      StaysAheadStep(rows, split, r - 1);
    }
  }

  /** Row `r` and the first panel behind it are consecutive, and too wide together. */
  lemma {:induction false} GreedyRow(rows: seq<Row>, r: nat)
    requires Stacked(rows) && r + 1 < |rows|
    ensures var g, g' := |Panels(rows[..r])|, |Panels(rows[..r + 1])|;
      && g <= g' == g + |rows[r].panels| < |Panels(rows)|
      && Width(Panels(rows)[g..g' + 1]) > GRID_WIDTH
  {
    var row, next := rows[r].panels, rows[r + 1].panels;
    assert rows[..r + 2][..r + 1] == rows[..r + 1] && rows[..r + 1][..r] == rows[..r];
    PrefixOfPanels(rows, r + 2);
    assert RowAt(rows, r + 1);
    var g, g' := |Panels(rows[..r])|, |Panels(rows[..r + 1])|;
    SliceOf(Panels(rows), Panels(rows[..r]), row, next);
    assert (row + [next[0]])[..|row|] == row;
  }

  lemma {:induction false} SliceOf(all: seq<Panel>, before: seq<Panel>, row: seq<Panel>, next: seq<Panel>)
    requires before + row + next <= all && next != []
    ensures all[|before|..|before| + |row| + 1] == row + [next[0]]
  {
    assert all[..|before + row + next|] == before + row + next;
  }

  lemma {:induction false} SplitRow(split: seq<seq<Panel>>, r: nat)
    requires r < |split|
    ensures var b, b' := |Joined(split[..r])|, |Joined(split[..r + 1])|;
      b <= b' == b + |split[r]| <= |Joined(split)| && Joined(split)[b..b'] == split[r]
  {
    assert split[..r + 1][..r] == split[..r];
    PrefixOfJoined(split, r + 1);
  }

  lemma {:induction false} StaysAheadStep(rows: seq<Row>, split: seq<seq<Panel>>, r: nat)
    requires Stacked(rows) && Joined(split) == Panels(rows)
    requires r < |split| && r + 1 < |rows| && Width(split[r]) <= GRID_WIDTH
    requires |Joined(split[..r])| <= |Panels(rows[..r])|
    ensures |Joined(split[..r + 1])| <= |Panels(rows[..r + 1])|
  {
    GreedyRow(rows, r);
    SplitRow(split, r);
    var b, b' := |Joined(split[..r])|, |Joined(split[..r + 1])|;
    var g, g' := |Panels(rows[..r])|, |Panels(rows[..r + 1])|;
    if b' > g' { WidthOfPart(Panels(rows), b, g, g' + 1, b'); }
  }

  lemma {:induction false} PanelsLeft(rows: seq<Row>, r: nat)
    requires Stacked(rows) && r < |rows|
    ensures |Panels(rows[..r])| < |Panels(rows)|
  {
    assert RowAt(rows, r);
    PrefixOfPanels(rows, r + 1);
    assert rows[..r + 1][..r] == rows[..r];
  }

  /** No split of the panels, in their order, into rows of at most 24 columns has fewer rows. */
  lemma {:induction false} FewestRows(rows: seq<Row>, split: seq<seq<Panel>>)
    requires Stacked(rows) && Joined(split) == Panels(rows)
    requires forall s :: 0 <= s < |split| ==> Width(split[s]) <= GRID_WIDTH
    ensures |rows| <= |split|
  {
    assert split[..|split|] == split;
    if |split| < |rows| {
      PanelsLeft(rows, |split|);
      GreedyStaysAhead(rows, split, |split|);
    }
  }
}
