/**
 * Grid classification of `run_analysis`: a uniform grid over the board's
 * bounding box, where every point becomes a pad node, a generic `n{i}x{j}`
 * node or the empty string (not on the analysed net).
 *
 * The host's geometry (`pad.HitTest`, `track.HitTest`) is given as two
 * predicates over an index and a point.
 */
module Mesh {
  import opened Wrappers
  import opened Text

  /** The board edges' bounding box, in nanometres. */
  datatype BoundingBox = BoundingBox(x: int, y: int, width: int, height: int)

  /** One row of the pad configuration table: label, current-draw text, source toggle. */
  datatype PadRow = PadRow(name: string, current: string, isSource: bool)

  /**
   * The host's hit tests: `pad(k, x, y)` is `analysis_pads[k].HitTest((x, y))`,
   * `track(t, x, y)` the same for the t-th of the `trackCount` tracks of the net.
   */
  datatype HitTests = HitTests(pad: (nat, int, int) -> bool, trackCount: nat, track: (nat, int, int) -> bool)

  /** The grid pitch: 100000 nm, ten nodes per millimetre. */
  const GridSpacing: int := 100000

  /** The number of values `range(start, stop, step)` yields for a positive step. */
  function RangeLen(start: int, stop: int, step: int): nat
    requires step > 0
    decreases stop - start
  {
    if start >= stop then 0 else 1 + RangeLen(start + step, stop, step)
  }

  /** The k-th value of the range, `start + k * step`, is yielded exactly when it lies below `stop`. */
  lemma {:induction false} RangeLenMembers(start: int, stop: int, step: int, k: nat)
    requires step > 0
    ensures k < RangeLen(start, stop, step) <==> start + k * step < stop
    decreases stop - start
  {
    if start < stop && k > 0 {
      RangeLenMembers(start + step, stop, step, k - 1);
      assert start + step + (k - 1) * step == start + k * step;
    }
  }

  /** A pad lends its name to the nodes it covers when it draws current or is the source. */
  predicate Loaded(row: PadRow) {
    row.current != "0" || row.isSource
  }

  predicate PadHitAt(padCount: nat, hits: HitTests, x: int, y: int) {
    exists k :: 0 <= k < padCount && hits.pad(k, x, y)
  }

  predicate TrackHitAt(hits: HitTests, x: int, y: int) {
    exists t :: 0 <= t < hits.trackCount && hits.track(t, x, y)
  }

  /** The first pad at or after `from` whose area contains the point. */
  function FirstPadHit(padCount: nat, hits: HitTests, x: int, y: int, from: nat): (r: Option<nat>)
    ensures r.Some? ==> from <= r.value < padCount && hits.pad(r.value, x, y)
    ensures r.Some? ==> forall k :: from <= k < r.value ==> !hits.pad(k, x, y)
    ensures r.None? ==> forall k :: from <= k < padCount ==> !hits.pad(k, x, y)
    decreases padCount - from
  {
    if from >= padCount then None
    else if hits.pad(from, x, y) then Some(from)
    else FirstPadHit(padCount, hits, x, y, from + 1)
  }

  /** What the grid point (i, j) at (x, y) contributes to the node grid. */
  function CellName(rows: seq<PadRow>, hits: HitTests, i: nat, j: nat, x: int, y: int): string
  {
    match FirstPadHit(|rows|, hits, x, y, 0)
    case Some(k) => if Loaded(rows[k]) then rows[k].name else GenericName(i, j)
    case None => if TrackHitAt(hits, x, y) then GenericName(i, j) else ""
  }

  predicate NamesNonEmpty(rows: seq<PadRow>) {
    forall k :: 0 <= k < |rows| ==> rows[k].name != ""
  }

  /** A cell is on the net exactly when its point hits some pad or some track. */
  lemma CellOnNet(rows: seq<PadRow>, hits: HitTests, i: nat, j: nat, x: int, y: int)
    requires NamesNonEmpty(rows)
    ensures CellName(rows, hits, i, j, x, y) != "" <==> PadHitAt(|rows|, hits, x, y) || TrackHitAt(hits, x, y)
  {
    match FirstPadHit(|rows|, hits, x, y, 0)
    case Some(k) =>
    case None =>
  }

  /**
   * Pads are tested before tracks, and the first pad hit decides: its label when it
   * is loaded or the source, otherwise the generic name; tracks never rename a node.
   */
  lemma CellNaming(rows: seq<PadRow>, hits: HitTests, i: nat, j: nat, x: int, y: int, k: nat)
    requires k < |rows| && hits.pad(k, x, y)
    requires forall k' :: 0 <= k' < k ==> !hits.pad(k', x, y)
    ensures Loaded(rows[k]) ==> CellName(rows, hits, i, j, x, y) == rows[k].name
    ensures !Loaded(rows[k]) ==> CellName(rows, hits, i, j, x, y) == GenericName(i, j)
  {
    var r := FirstPadHit(|rows|, hits, x, y, 0);
    assert r == Some(k);
  }

  /** A node name on the grid is either the cell's generic name or the label of a loaded pad hit there. */
  lemma CellNameOrigin(rows: seq<PadRow>, hits: HitTests, i: nat, j: nat, x: int, y: int)
    ensures var c := CellName(rows, hits, i, j, x, y);
      c == "" || c == GenericName(i, j) ||
      exists k :: 0 <= k < |rows| && hits.pad(k, x, y) && Loaded(rows[k]) && c == rows[k].name
  {
  }

  /** One column of x: the cells for every y of `range(box.y, box.y + box.height, spacing)`. */
  function NodeRow(box: BoundingBox, spacing: int, rows: seq<PadRow>, hits: HitTests, i: nat): seq<string>
    requires spacing > 0
  {
    seq(RangeLen(box.y, box.y + box.height, spacing),
        j requires 0 <= j => CellName(rows, hits, i, j, box.x + i * spacing, box.y + j * spacing))
  }

  /** `analysis_nodes`: one row per x of `range(box.x, box.x + box.width, spacing)`. */
  function NodeGrid(box: BoundingBox, spacing: int, rows: seq<PadRow>, hits: HitTests): seq<seq<string>>
    requires spacing > 0
  {
    seq(RangeLen(box.x, box.x + box.width, spacing), i requires 0 <= i => NodeRow(box, spacing, rows, hits, i))
  }

  /**
   * Every cell of the node grid stands for a point inside the bounding box, and
   * it is on the net exactly when that point hits a pad or a track.
   */
  lemma NodeGridCell(box: BoundingBox, spacing: int, rows: seq<PadRow>, hits: HitTests, i: nat, j: nat)
    requires spacing > 0 && NamesNonEmpty(rows)
    ensures var g := NodeGrid(box, spacing, rows, hits);
      var x, y := box.x + i * spacing, box.y + j * spacing;
      (i < |g| && j < |g[i]| <==> x < box.x + box.width && y < box.y + box.height) &&
      (i < |g| && j < |g[i]| ==> (g[i][j] != "" <==> PadHitAt(|rows|, hits, x, y) || TrackHitAt(hits, x, y)))
  {
    RangeLenMembers(box.x, box.x + box.width, spacing, i);
    RangeLenMembers(box.y, box.y + box.height, spacing, j);
    CellOnNet(rows, hits, i, j, box.x + i * spacing, box.y + j * spacing);
  }

  /** The number of non-empty entries of a row. */
  function CountRow(line: seq<string>): nat
  {
    if line == [] then 0 else CountRow(line[..|line| - 1]) + (if line[|line| - 1] != "" then 1 else 0)
  }

  /** The number of non-empty cells of a grid. */
  function CountNonEmpty(g: seq<seq<string>>): nat
  {
    if g == [] then 0 else CountNonEmpty(g[..|g| - 1]) + CountRow(g[|g| - 1])
  }

  lemma {:induction false} CountRowZero(line: seq<string>)
    ensures CountRow(line) == 0 <==> forall b :: 0 <= b < |line| ==> line[b] == ""
    ensures CountRow(line) <= |line|
  {
    if line != [] {
      CountRowZero(line[..|line| - 1]);
    }
  }

  /** No node is to be processed exactly when no cell of the grid is on the net. */
  lemma {:induction false} CountNonEmptyZero(g: seq<seq<string>>)
    ensures CountNonEmpty(g) == 0 <==> forall a, b :: 0 <= a < |g| && 0 <= b < |g[a]| ==> g[a][b] == ""
  {
    if g != [] {
      CountNonEmptyZero(g[..|g| - 1]);
      CountRowZero(g[|g| - 1]);
      if CountNonEmpty(g) == 0 {
        forall a, b | 0 <= a < |g| && 0 <= b < |g[a]| ensures g[a][b] == "" {
          if a < |g| - 1 {
            assert g[a] == g[..|g| - 1][a];
          }
        }
      }
    }
  }

  /**
   * The body of the innermost loop: test the pads in order, stopping at the first
   * hit, then (only when no pad was hit) the tracks; returns the entry appended
   * to the row and whether the point is on the net.
   */
  method ClassifyPoint(rows: seq<PadRow>, hits: HitTests, i: nat, j: nat, x: int, y: int)
    returns (cell: string, onNet: bool)
    ensures cell == CellName(rows, hits, i, j, x, y)
    ensures onNet <==> PadHitAt(|rows|, hits, x, y) || TrackHitAt(hits, x, y)
  {
    var nodeName := GenericName(i, j);
    onNet := false;
    var index := 0;
    while index < |rows|
      invariant 0 <= index <= |rows|
      invariant !onNet && nodeName == GenericName(i, j)
      invariant FirstPadHit(|rows|, hits, x, y, 0) == FirstPadHit(|rows|, hits, x, y, index)
    {
      if hits.pad(index, x, y) {
        if rows[index].current != "0" || rows[index].isSource {
          nodeName := rows[index].name;
        }
        onNet := true;
        break;
      }
      index := index + 1;
    }
    if !onNet {
      var t := 0;
      while t < hits.trackCount
        invariant 0 <= t <= hits.trackCount
        invariant !onNet
        invariant forall k :: 0 <= k < t ==> !hits.track(k, x, y)
      {
        if hits.track(t, x, y) {
          onNet := true;
          break;
        }
        t := t + 1;
      }
    }
    cell := if onNet then nodeName else "";
  }

  /**
   * The inner loop of `run_analysis` for one x: the entries of row `i` and how
   * many of them are on the net (its share of `nodes_to_process`).
   */
  method BuildNodeRow(box: BoundingBox, spacing: int, rows: seq<PadRow>, hits: HitTests, i: nat, x: int)
    returns (line: seq<string>, onNetCount: nat)
    requires spacing > 0 && NamesNonEmpty(rows) && x == box.x + i * spacing
    ensures line == NodeRow(box, spacing, rows, hits, i)
    ensures onNetCount == CountRow(line)
  {
    var stopY := box.y + box.height;
    line := [];
    onNetCount := 0;
    var j := 0;
    var y := box.y;
    while y < stopY
      invariant y == box.y + j * spacing
      invariant j + RangeLen(y, stopY, spacing) == RangeLen(box.y, stopY, spacing)
      invariant |line| == j
      invariant forall b :: 0 <= b < j ==> line[b] == CellName(rows, hits, i, b, x, box.y + b * spacing)
      invariant onNetCount == CountRow(line)
      decreases stopY - y
    {
      var cell, onNet := ClassifyPoint(rows, hits, i, j, x, y);
      CellOnNet(rows, hits, i, j, x, y);
      if onNet {
        onNetCount := onNetCount + 1;
      }
      assert (line + [cell])[..|line|] == line;
      line := line + [cell];
      assert box.y + (j + 1) * spacing == y + spacing by {
        assert (j + 1) * spacing == j * spacing + spacing;
      }
      j := j + 1;
      y := y + spacing;
    }
  }

  /**
   * The outer loop of `run_analysis` that builds `analysis_nodes` and counts
   * `nodes_to_process`.
   */
  method BuildNodeGrid(box: BoundingBox, spacing: int, rows: seq<PadRow>, hits: HitTests)
    returns (nodes: seq<seq<string>>, count: nat)
    requires spacing > 0 && NamesNonEmpty(rows)
    ensures nodes == NodeGrid(box, spacing, rows, hits)
    ensures |nodes| == RangeLen(box.x, box.x + box.width, spacing)
    ensures forall a :: 0 <= a < |nodes| ==> |nodes[a]| == RangeLen(box.y, box.y + box.height, spacing)
    ensures count == CountNonEmpty(nodes)
  {
    var stopX := box.x + box.width;
    nodes := [];
    count := 0;
    var i := 0;
    var x := box.x;
    while x < stopX
      invariant x == box.x + i * spacing
      invariant i + RangeLen(x, stopX, spacing) == RangeLen(box.x, stopX, spacing)
      invariant |nodes| == i
      invariant forall a :: 0 <= a < i ==> nodes[a] == NodeRow(box, spacing, rows, hits, a)
      invariant count == CountNonEmpty(nodes)
      decreases stopX - x
    {
      var line, onNetCount := BuildNodeRow(box, spacing, rows, hits, i, x);
      count := count + onNetCount;
      assert (nodes + [line])[..|nodes|] == nodes;
      nodes := nodes + [line];
      assert box.x + (i + 1) * spacing == x + spacing by {
        assert (i + 1) * spacing == i * spacing + spacing;
      }
      i := i + 1;
      x := x + spacing;
    }
  }
}
