/**
 * The state of the analyzer window: the nets offered for analysis, the pads of
 * the chosen net with their rows in the pad configuration table (name, current
 * text, source toggle), the source row and the Start button. The events that
 * change this state are methods; `RunAnalysis` chains grid classification, netlist
 * synthesis, the solver and result mapping.
 */
module Analyzer {
  import opened Wrappers
  import opened Text
  import opened Mesh
  import opened Netlist
  import opened Voltages

  /** A pad of the board: the name of its net, its footprint's reference and its pad number. */
  datatype BoardPad = BoardPad(netname: string, reference: string, number: string)

  /** What one run of the analysis produces. */
  datatype Analysis<V> = Analysis(
    nodes: seq<seq<string>>,
    nodesToProcess: nat,
    netlist: seq<NetLine>,
    voltages: Result<seq<seq<V>>, string>)

  /** The net names of the board in iteration order, without the unnamed net. */
  function NamedNets(names: seq<string>): (r: seq<string>)
    ensures forall n :: n in r <==> n in names && n != ""
    ensures |r| <= |names|
  {
    if names == [] then []
    else NamedNets(names[..|names| - 1]) + (if names[|names| - 1] != "" then [names[|names| - 1]] else [])
  }

  /** The pads of the board on the net `netname`, in board order. */
  function PadsOn(pads: seq<BoardPad>, netname: string): (r: seq<BoardPad>)
    ensures forall p :: p in r <==> p in pads && p.netname == netname
    ensures |r| <= |pads|
  {
    if pads == [] then []
    else PadsOn(pads[..|pads| - 1], netname) + (if pads[|pads| - 1].netname == netname then [pads[|pads| - 1]] else [])
  }

  /** Filtering distributes over concatenation: the kept pads stay in board order, repeats included. */
  lemma {:induction false} PadsOnAppend(a: seq<BoardPad>, b: seq<BoardPad>, netname: string)
    ensures PadsOn(a + b, netname) == PadsOn(a, netname) + PadsOn(b, netname)
    decreases |b|
  {
    if b == [] {
      assert a + b == a;
    } else {
      var b' := b[..|b| - 1];
      assert (a + b)[..|a + b| - 1] == a + b';
      PadsOnAppend(a, b', netname);
    }
  }

  /** A single pad is kept exactly when it is on the net. */
  lemma PadsOnOne(pad: BoardPad, netname: string)
    ensures PadsOn([pad], netname) == if pad.netname == netname then [pad] else []
  {
    assert [pad][..0] == [];
  }

  /** The offered nets keep the board's order, repeats included. */
  lemma {:induction false} NamedNetsAppend(a: seq<string>, b: seq<string>)
    ensures NamedNets(a + b) == NamedNets(a) + NamedNets(b)
    decreases |b|
  {
    if b == [] {
      assert a + b == a;
    } else {
      var b' := b[..|b| - 1];
      assert (a + b)[..|a + b| - 1] == a + b';
      NamedNetsAppend(a, b');
    }
  }

  /** The label of each pad: footprint reference, "-Pad", pad number. */
  function PadLabels(pads: seq<BoardPad>): (r: seq<string>)
    ensures |r| == |pads|
    ensures forall k :: 0 <= k < |pads| ==> r[k] == PadName(pads[k].reference, pads[k].number)
    ensures forall k, i: nat, j: nat :: 0 <= k < |r| ==> r[k] != "" && r[k] != GenericName(i, j)
  {
    var r := seq(|pads|, k requires 0 <= k < |pads| => PadName(pads[k].reference, pads[k].number));
    forall k, i: nat, j: nat | 0 <= k < |r| ensures r[k] != "" && r[k] != GenericName(i, j) {
      PadNameIsNotGeneric(pads[k].reference, pads[k].number, i, j);
      assert |r[k]| >= 4;
    }
    r
  }

  /** The rows a fresh pad configuration table holds: the label, current "0", not the source. */
  function FreshRows(labels: seq<string>): (r: seq<PadRow>)
    ensures |r| == |labels|
    ensures forall k :: 0 <= k < |labels| ==> r[k] == PadRow(labels[k], "0", false)
    ensures SourceMarked(r, -1) && forall k :: 0 <= k < |r| ==> !Loaded(r[k])
  {
    seq(|labels|, k requires 0 <= k < |labels| => PadRow(labels[k], "0", false))
  }

  /** The source toggle of exactly the source row is set; with -1 no toggle is set. */
  predicate SourceMarked(rows: seq<PadRow>, sourceRow: int) {
    -1 <= sourceRow < |rows| &&
    forall r :: 0 <= r < |rows| ==> (rows[r].isSource <==> r == sourceRow)
  }

  /** At most one pad is marked as the source. */
  lemma AtMostOneSource(rows: seq<PadRow>, sourceRow: int, r: nat, r': nat)
    requires SourceMarked(rows, sourceRow)
    requires r < |rows| && r' < |rows| && rows[r].isSource && rows[r'].isSource
    ensures r == r'
  {
  }

  /**
   * The loop of `OnSelectNet` over the board's pads: each pad on the net `netname`
   * is kept, labelled and given a fresh table row, in board order.
   */
  method CollectPads(boardPads: seq<BoardPad>, netname: string)
    returns (onNet: seq<BoardPad>, labels: seq<string>, table: seq<PadRow>)
    ensures onNet == PadsOn(boardPads, netname) && labels == PadLabels(onNet) && table == FreshRows(labels)
    ensures forall n :: 0 <= n < |onNet| ==> onNet[n].netname == netname
  {
    onNet, labels, table := [], [], [];
    var k := 0;
    while k < |boardPads|
      invariant k <= |boardPads|
      invariant onNet == PadsOn(boardPads[..k], netname)
      invariant labels == PadLabels(onNet) && table == FreshRows(labels)
    {
      assert boardPads[..k + 1][..k] == boardPads[..k];
      var pad := boardPads[k];
      if pad.netname == netname {
        onNet := onNet + [pad];
        labels := labels + [PadName(pad.reference, pad.number)];
        table := table + [PadRow(labels[|labels| - 1], "0", false)];
      }
      k := k + 1;
    }
    assert boardPads[..k] == boardPads;
    forall n | 0 <= n < |onNet| ensures onNet[n].netname == netname {
      assert onNet[n] in PadsOn(boardPads, netname);
    }
  }

  class PowerNetAnalyzerGui {
    /** `netnames`: the nets offered in the combo box. */
    var netNames: seq<string>
    /** `analysis_netname`: the chosen net. */
    var netName: string
    /** `analysis_pads`: the pads of the chosen net. */
    var pads: seq<BoardPad>
    /** `analysis_padnames`: their labels. */
    var padNames: seq<string>
    /** The rows of the pad configuration table. */
    var rows: seq<PadRow>
    /** `source_row`: the row of the source pad, or -1. */
    var sourceRow: int
    /** Whether the Start Analysis button is enabled. */
    var startEnabled: bool

    /**
     * Start is enabled exactly when a source row is set; the toggles mark exactly
     * that row; a filled table lists the chosen net's pads and their labels.
     */
    ghost predicate Valid()
      reads this
    {
      (startEnabled <==> sourceRow != -1) &&
      SourceMarked(rows, sourceRow) &&
      (forall k :: 0 <= k < |netNames| ==> netNames[k] != "") &&
      (|rows| > 0 ==>
        |pads| == |rows| && padNames == PadLabels(pads) &&
        (forall k :: 0 <= k < |pads| ==> pads[k].netname == netName) &&
        (forall k :: 0 <= k < |rows| ==> rows[k].name == padNames[k]))
    }

    /**
     * The window as opened on a board whose nets, in iteration order, are
     * `boardNets`: the unnamed net is skipped, the table is empty, no source is
     * set and Start is disabled.
     */
    constructor (boardNets: seq<string>)
      ensures Valid()
      ensures netNames == NamedNets(boardNets)
      ensures rows == [] && sourceRow == -1 && !startEnabled
    {
      var names: seq<string> := [];
      var k := 0;
      while k < |boardNets|
        invariant k <= |boardNets|
        invariant names == NamedNets(boardNets[..k])
      {
        assert boardNets[..k + 1][..k] == boardNets[..k];
        if boardNets[k] == "" {
          k := k + 1;
          continue;
        }
        names := names + [boardNets[k]];
        k := k + 1;
      }
      assert boardNets[..k] == boardNets;
      forall n | 0 <= n < |names| ensures names[n] != "" {
        assert names[n] in NamedNets(boardNets);
      }
      netNames := names;
      netName := "";
      pads := [];
      padNames := [];
      rows := [];
      sourceRow := -1;
      startEnabled := false;
    }

    /**
     * `OnSelectNet`: the chosen net becomes the analysis net, the table is cleared,
     * the source is reset and Start disabled; when the board has pads, the pads of
     * that net fill the table in board order, each with current "0" and not the
     * source. A board without pads leaves the previous pad lists in place.
     */
    method OnSelectNet(selection: nat, boardPads: seq<BoardPad>)
      requires Valid() && selection < |netNames|
      modifies this
      ensures Valid()
      ensures netNames == old(netNames) && netName == netNames[selection]
      ensures sourceRow == -1 && !startEnabled
      ensures |boardPads| > 0 ==>
        pads == PadsOn(boardPads, netName) && padNames == PadLabels(pads) && rows == FreshRows(padNames)
      ensures |boardPads| == 0 ==> pads == old(pads) && padNames == old(padNames) && rows == []
    {
      netName := netNames[selection];
      rows := [];
      sourceRow := -1;
      startEnabled := false;
      if |boardPads| > 0 {
        pads, padNames, rows := CollectPads(boardPads, netName);
      }
    }

    /**
     * `OnSelectSource`, the handler of a value change in column `column` of table
     * row `row`: only the source column (2) matters. Selecting the source row again
     * clears the source and disables Start; selecting another row while a source is
     * set clears the old row's toggle and moves the source; otherwise the row
     * becomes the source. Either way Start is enabled exactly when a source is set.
     */
    method OnSelectSource(column: int, row: nat)
      requires row < |rows| && -1 <= sourceRow < |rows|
      modifies this
      ensures netNames == old(netNames) && netName == old(netName) && pads == old(pads) && padNames == old(padNames)
      ensures column != 2 ==> rows == old(rows) && sourceRow == old(sourceRow) && startEnabled == old(startEnabled)
      ensures column == 2 && old(sourceRow) == row ==> rows == old(rows) && sourceRow == -1 && !startEnabled
      ensures column == 2 && old(sourceRow) != row && old(sourceRow) != -1 ==>
        rows == old(rows)[old(sourceRow) := old(rows)[old(sourceRow)].(isSource := false)] &&
        sourceRow == row && startEnabled
      ensures column == 2 && old(sourceRow) == -1 ==> rows == old(rows) && sourceRow == row && startEnabled
    {
      if column == 2 {
        if sourceRow == row {
          sourceRow := -1;
          startEnabled := false;
        } else if sourceRow != -1 {
          rows := rows[sourceRow := rows[sourceRow].(isSource := false)];
          sourceRow := row;
          startEnabled := true;
        } else {
          sourceRow := row;
          startEnabled := true;
        }
      }
    }

    /**
     * The user clicks the source toggle of row `row`: the toggle flips, then the
     * value-change handler runs. Afterwards at most one pad is the source (the
     * invariant), clicking the source again leaves no source, and clicking any other
     * row makes it the source; names and currents are untouched.
     */
    method ToggleSource(row: nat)
      requires Valid() && row < |rows|
      modifies this
      ensures Valid()
      ensures netNames == old(netNames) && netName == old(netName) && pads == old(pads) && padNames == old(padNames)
      ensures old(sourceRow) == row ==> sourceRow == -1 && !startEnabled
      ensures old(sourceRow) != row ==> sourceRow == row && startEnabled
      ensures |rows| == |old(rows)|
      ensures forall k :: 0 <= k < |rows| ==> rows[k].name == old(rows)[k].name && rows[k].current == old(rows)[k].current
    {
      rows := rows[row := rows[row].(isSource := !rows[row].isSource)];
      OnSelectSource(2, row);
    }

    /**
     * The user edits the current text of row `row`: the text changes, then the
     * value-change handler runs for column 1 and changes nothing else.
     */
    method EditCurrent(row: nat, text: string)
      requires Valid() && row < |rows|
      modifies this
      ensures Valid()
      ensures rows == old(rows)[row := old(rows)[row].(current := text)]
      ensures sourceRow == old(sourceRow) && startEnabled == old(startEnabled)
      ensures netNames == old(netNames) && netName == old(netName) && pads == old(pads) && padNames == old(padNames)
    {
      rows := rows[row := rows[row].(current := text)];
      OnSelectSource(1, row);
    }

    /**
     * `run_analysis` with a source set: the node grid over the board outline `box`
     * at the grid spacing, the number of on-net nodes, the netlist handed to the
     * solver, and the voltage grid built from what `solve` reports for that netlist
     * (`source` is the source voltage as a solver value).
     */
    method RunAnalysis<V>(box: BoundingBox, hits: HitTests, solve: seq<string> -> map<string, V>, source: V)
      returns (result: Analysis<V>)
      requires Valid() && sourceRow != -1
      ensures result.nodes == NodeGrid(box, GridSpacing, rows, hits)
      ensures IsGrid(result.nodes)
      ensures result.nodesToProcess == CountNonEmpty(result.nodes)
      ensures result.netlist == NetlistOf(result.nodes, rows, sourceRow)
      ensures result.voltages == VoltageGrid(result.nodes, solve(NetlistText(result.netlist)), source)
    {
      var nodes, nodesToProcess := BuildNodeGrid(box, GridSpacing, rows, hits);
      var netlist := BuildNetlist(nodes, rows, sourceRow);
      var data := solve(NetlistText(netlist));
      var voltages := MapVoltages(nodes, data, source);
      result := Analysis(nodes, nodesToProcess, netlist, voltages);
    }

    /** `OnStartAnalysis`: the analysis runs exactly when a source row is set. */
    method OnStartAnalysis<V>(box: BoundingBox, hits: HitTests, solve: seq<string> -> map<string, V>, source: V)
      returns (result: Option<Analysis<V>>)
      requires Valid()
      ensures result.Some? <==> sourceRow != -1
      ensures result.Some? ==> result.value.netlist == NetlistOf(result.value.nodes, rows, sourceRow)
      ensures result.Some? ==> result.value.nodes == NodeGrid(box, GridSpacing, rows, hits)
      ensures result.Some? ==> result.value.nodesToProcess == CountNonEmpty(result.value.nodes)
      ensures result.Some? ==>
        result.value.voltages == VoltageGrid(result.value.nodes, solve(NetlistText(result.value.netlist)), source)
    {
      if sourceRow != -1 {
        var analysis := RunAnalysis(box, hits, solve, source);
        return Some(analysis);
      }
      return None;
    }
  }
}
