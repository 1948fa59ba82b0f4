# Power Net Analyzer: a verified model of the analysis pipeline

The Power Net Analyzer plugin estimates the voltage drop across a copper net of a
printed circuit board. It models the net as a resistor mesh and hands the mesh to
a SPICE solver. This project models its core, the `PowerNetAnalyzerGui` window in
`power_analyzer.py`, in Dafny and proves properties of that model.

The model covers:

- **The window state** (`Analyzer.PowerNetAnalyzerGui`). This covers:
  - the nets offered for analysis;
  - the pads of the chosen net and their rows in the pad configuration table (label, current text, source toggle);
  - `source_row`;
  - whether the Start Analysis button is enabled.

  The events are methods: net selection, the value-change handler of the table, a click on a source toggle, an edit of a current, and Start.

  The invariant `Valid` says:
  - Start is enabled exactly when `source_row != -1`;
  - exactly the source row carries a set toggle, so there is at most one source;
  - a filled table lists the chosen net's pads under their `{reference}-Pad{number}` labels.
- **Grid classification** (`Mesh`). `analysis_nodes` has one row per x in `range(root_x, root_x + width, 100000)` and one entry per y in the matching range. A cell is one of three things:
  - the label of the first pad hit, when that pad is loaded or is the source;
  - the generic name `n{i}x{j}`;
  - `""` when no pad and no track is hit.

  `nodes_to_process` counts the non-empty cells.
- **Netlist synthesis** (`Netlist`). The netlist is the title, then R1, R2, … numbered consecutively, then one `V1` line and one `I{i}` line per loaded pad, then `.op` and `.end`. Each resistor joins an on-net interior cell to an on-net 4-neighbour, visited right, bottom, left, top. The links are characterised exactly: each good pair is emitted once, in the loops' order, and every element designator is unique.
- **Result mapping** (`Voltages`). Every on-net cell takes the solver's value for its lower-cased node name. Every off-net cell takes the source voltage. A name the solver does not report stops the mapping with the KeyError's key.

Each loop of the source is a method proved against a recursive or comprehension
specification function. Lemmas then prove what the source promises about those
functions.

Host calls are parameters of the model:

- `HitTests` carries `pad.HitTest` for the net's pads, by pad index, and `track.HitTest` for the net's tracks, by track index.
- The board outline is a `BoundingBox`.
- The board's nets and pads are sequences.
- The solver is a function `solve` from the netlist text to a map from lower-case node name to a value. That map stands for `data["op1"][name][0]`.
- The source voltage is such a value. As text it is `"3.3"`; the sheet resistance's text is `"0.0005"`.

## Model

| member | source | states |
|---|---|---|
| Text.Dec | power_analyzer.py:176 | the decimal text `"{}".format` writes for a non-negative integer is non-empty and all digits |
| Text.ParseDecOfDec | power_analyzer.py:176 | reading the decimal text back gives the number (round trip) |
| Text.DecInjective | power_analyzer.py:222-243 | distinct numbers are written differently, so distinct `R{n}` / `I{i}` designators differ |
| Text.GenericNameInjective | power_analyzer.py:176 | distinct grid positions get distinct generic names `n{i}x{j}` |
| Text.PadNameIsNotGeneric | power_analyzer.py:120 | a pad label `{reference}-Pad{number}` is never a generic node name |
| Text.Lower | power_analyzer.py:257 | `str.lower` keeps the length, turns each upper-case ASCII letter into its lower-case letter (code + 32) and keeps every other character |
| Text.LowerGenericName | power_analyzer.py:176 | a generic node name is already lower case, so the solver reports it under the same key |
| Mesh.RangeLenMembers | power_analyzer.py:171-174 | the k-th value of `range(start, stop, step)` exists exactly when `start + k*step < stop` |
| Mesh.FirstPadHit | power_analyzer.py:180-188 | the first pad whose hit test succeeds, or none: no earlier pad is hit |
| Mesh.CellOnNet | power_analyzer.py:180-204 | a cell is non-empty exactly when its point hits some pad or some track |
| Mesh.CellNaming | power_analyzer.py:180-188 | the first pad hit names the cell when its current is not "0" or it is the source, and the generic name stays otherwise |
| Mesh.CellNameOrigin | power_analyzer.py:176-204 | a cell name is empty, the generic name, or the label of a loaded pad hit at that point |
| Mesh.NodeGridCell | power_analyzer.py:171-209 | cell (i, j) exists exactly when its point lies inside the bounding box, and then it is on the net exactly when a pad or track is hit there |
| Mesh.CountRowZero | power_analyzer.py:201-204 | a row counts zero on-net nodes exactly when all its entries are empty, and never more than its length |
| Mesh.CountNonEmptyZero | power_analyzer.py:168-209 | the grid counts zero on-net nodes exactly when every cell is empty |
| Mesh.ClassifyPoint | power_analyzer.py:175-204 | the pad loop with `break`, then the track loop: the cell name and `node_on_net` iff a pad or track is hit |
| Mesh.BuildNodeRow | power_analyzer.py:172-206 | the inner loop builds the row of cells and counts its on-net nodes |
| Mesh.BuildNodeGrid | power_analyzer.py:168-209 | the nested loops build `analysis_nodes`, one row per x and every row one entry per y, and `nodes_to_process` equals the number of non-empty cells |
| Netlist.LinksFromMember | power_analyzer.py:217-235 | from any point of the loops on, a link is emitted exactly when it joins an on-net interior cell reached at or after that point to an on-net neighbour |
| Netlist.LinksStepInOrder | power_analyzer.py:219-234 | one `if` block appends at most the link to neighbour d, which comes after every earlier link and before every link still to come |
| Netlist.LinksFromInOrder | power_analyzer.py:217-235 | from any point of the loops on, the links are emitted in strictly increasing order of row, column, then neighbour (right, bottom, left, top) |
| Netlist.LinksExactly | power_analyzer.py:217-235 | the resistors are exactly the pairs (on-net interior cell, on-net 4-neighbour), in loop order, and no pair is emitted twice |
| Netlist.InteriorPairLinkedTwice | power_analyzer.py:219-234 | two adjacent on-net interior cells are joined by exactly two resistors: the link from each side occurs at exactly one position |
| Netlist.BorderNeverFirst | power_analyzer.py:217-218 | the first node of every resistor is an interior cell (1 <= i <= rows-2, 1 <= j <= cols-2) |
| Netlist.StepResistors | power_analyzer.py:221-223 | one `if` block appends the resistor line numbered one past the links so far |
| Netlist.StencilResistors | power_analyzer.py:215-235 | the stencil's lines are the title followed by R1 .. Rm for the links in loop order, numbered by the counter `n` |
| Netlist.CurrentSourcesSpec | power_analyzer.py:241-243 | one current source per pad whose current text is not "0", in increasing pad order, on that pad's label with its current text |
| Netlist.NetlistLayout | power_analyzer.py:215-246 | title, then R1..Rm joining valid links, then exactly one V1 on the source row's label, then only current sources, then `.op`, `.end` |
| Netlist.RenderDesignator | power_analyzer.py:222-243 | each element line's text starts with its designator and a space |
| Netlist.DesignatorsDiffer | power_analyzer.py:222-243 | equal designators belong to lines of the same kind with the same number |
| Netlist.NetlistDesignatorsUnique | power_analyzer.py:215-246 | no two element lines of the netlist share a designator |
| Netlist.StencilCell | power_analyzer.py:219-235 | the four `if` blocks of one cell advance the stencil by exactly that cell |
| Netlist.BuildNetlist | power_analyzer.py:215-246 | the loops build `analysis_netlist` equal to the netlist whose layout is proved above |
| Voltages.MissingFrom | power_analyzer.py:255-257 | none exactly when every on-net cell of the row from a column on is reported, else the lower-cased name of the first one that is not |
| Voltages.MissingRows | power_analyzer.py:253-257 | the same over the rows from a given row on: none iff all reported, else an unreported cell's key |
| Voltages.VoltageGrid | power_analyzer.py:252-260 | success exactly when every on-net node is reported; then the same shape as the node grid; else the key of an unreported on-net cell |
| Voltages.VoltagesCell | power_analyzer.py:256-259 | on success an on-net cell holds the solver value for its lower-cased name and an off-net cell the source voltage |
| Voltages.MapRow | power_analyzer.py:254-259 | the inner loop: the row of voltages, or fails exactly at the first unreported name |
| Voltages.MapVoltages | power_analyzer.py:252-260 | the loops build `node_voltages` or raise the KeyError, as `VoltageGrid` specifies |
| Analyzer.NamedNets | power_analyzer.py:53-57 | the offered nets are exactly the board's nets with a non-empty name |
| Analyzer.NamedNetsAppend | power_analyzer.py:53-57 | the offered nets of a concatenation are those of its parts in order, so the board's order is kept |
| Analyzer.PadsOn | power_analyzer.py:110-113 | the kept pads are exactly the board's pads on the chosen net |
| Analyzer.PadsOnAppend | power_analyzer.py:110-113 | filtering a concatenation is the concatenation of the filtered parts, so the kept pads keep board order and repeats |
| Analyzer.PadsOnOne | power_analyzer.py:111-113 | a single pad is kept exactly when its net name is the chosen one |
| Analyzer.PadLabels | power_analyzer.py:116-120 | each pad is labelled `{reference}-Pad{number}`, and no label is empty or equal to any generic node name `n{i}x{j}` |
| Analyzer.FreshRows | power_analyzer.py:123 | a fresh table marks no row as the source and no row is loaded (every current is "0"), so no pad label names a grid node yet |
| Analyzer.AtMostOneSource | power_analyzer.py:130-139 | when the toggles mark exactly the source row, no two rows are marked as the source |
| Analyzer.CollectPads | power_analyzer.py:106-123 | the loop over the board's pads fills pads, labels and rows for the chosen net, in board order |
| Analyzer.PowerNetAnalyzerGui.constructor | power_analyzer.py:50-76 | the offered nets skip the unnamed net; no source is set and Start is disabled |
| Analyzer.PowerNetAnalyzerGui.OnSelectNet | power_analyzer.py:93-123 | net selection resets the source to -1 and disables Start, refills the table from the board's pads, keeps `Valid` |
| Analyzer.PowerNetAnalyzerGui.OnSelectSource | power_analyzer.py:126-139 | outside column 2 nothing changes; in column 2 the three branches: clear, move (clearing the old toggle), or set |
| Analyzer.PowerNetAnalyzerGui.ToggleSource | power_analyzer.py:126-139 | a click on a toggle keeps `Valid` (at most one source, Start iff source): clicking the source clears it, any other row becomes the source |
| Analyzer.PowerNetAnalyzerGui.EditCurrent | power_analyzer.py:126-128 | editing a current changes only that text; source and Start are untouched |
| Analyzer.PowerNetAnalyzerGui.RunAnalysis | power_analyzer.py:146-260 | the node grid, its on-net count, the netlist and the voltage grid are the specified ones for the current table and source |
| Analyzer.PowerNetAnalyzerGui.OnStartAnalysis | power_analyzer.py:141-143 | the analysis runs exactly when a source row is set, and then yields the specified node grid, on-net count, netlist and voltage grid |

## Left out

- The wx window, sizer, combo box, data-view control, button and event bindings are not modelled. The table's contents and the button's enabled flag are fields of the class. The events are methods taking the event's column, row or selection.
- The pcbnew geometry calls are parameters: `GetBoardEdgesBoundingBox`, `TracksInNet`, `GetPads`, `pad.HitTest` and `track.HitTest`. So are `GetNetsByName`, given as the net names in iteration order, and `GetNetname`, `GetReference` and `GetPadName`, given as the fields of `BoardPad`.
- `analysis_net`, the net object paired with the chosen name, is not modelled. It serves only as an argument of `TracksInNet`, which is a parameter.
- The NgSpice run is the parameter `solve`. The model does not state what the solver computes; every run is taken to return the `op1` plot.
- Floating-point values are not modelled. The sheet resistance 0.0005 and the source voltage 3.3 appear only as the text Python writes for them. The voltages are values of an arbitrary type `V`.
- The matplotlib/numpy plot, the `print` progress messages and the plugin registration class are not modelled. They are output only.
- Text.Lower: models `str.lower` on ASCII letters only. Pad labels with non-ASCII capitals would be lower-cased differently by Python.
- Analyzer.PowerNetAnalyzerGui.OnSelectSource: the programmatic `SetToggleValue` may fire the value-change handler again. That nested event is not modelled. Run nested, it would clear and then re-set `source_row`, ending in the same state.
- Analyzer.PowerNetAnalyzerGui.constructor: `analysis_netname`, `analysis_pads` and `analysis_padnames` are unset in the window until a net is chosen. The model starts them empty.
- Analyzer.PowerNetAnalyzerGui.OnSelectNet: on a board with no pads the previous pad lists are kept. The table is still cleared and no source can then be set, as in the source.
- Voltages.VoltageGrid: requires a rectangular grid. Every node grid the classification builds is rectangular, which `RunAnalysis` proves.
