/**
 * Netlist synthesis of `run_analysis`: a resistor for every on-net
 * 4-neighbour of every on-net interior cell of the node grid, numbered
 * R1, R2, ..., then one voltage source on the source pad, one current source
 * per loaded pad, and the `.op` / `.end` trailer.
 */
module Netlist {
  import opened Text
  import opened Mesh

  /** The sheet resistance and the source voltage, as Python's `str` writes the floats 0.0005 and 3.3. */
  const SheetResistance: string := "0.0005"
  const SourceVoltage: string := "3.3"

  /** A position (row i, column j) of the node grid. */
  datatype Cell = Cell(i: nat, j: nat)

  /** A resistor of the mesh, from an interior cell to one of its neighbours. */
  datatype Link = Link(from: Cell, to: Cell)

  /** One line of the SPICE netlist. */
  datatype NetLine =
    | Title
    | Resistor(n: nat, a: string, b: string)
    | VoltageSource(node: string)
    | CurrentSource(index: nat, node: string, current: string)
    | Op
    | End

  /** The node grid is rectangular: every row as long as the first. */
  predicate IsGrid(g: seq<seq<string>>) {
    forall a :: 0 <= a < |g| ==> |g[a]| == |g[0]|
  }

  function Cols(g: seq<seq<string>>): nat {
    if g == [] then 0 else |g[0]|
  }

  predicate InGrid(g: seq<seq<string>>, c: Cell) {
    c.i < |g| && c.j < Cols(g)
  }

  /** The cells the netlist loop visits: 1 <= i <= rows - 2, 1 <= j <= cols - 2. */
  predicate Interior(g: seq<seq<string>>, c: Cell) {
    1 <= c.i < |g| - 1 && 1 <= c.j < Cols(g) - 1
  }

  predicate Adjacent(p: Cell, q: Cell) {
    (q.i == p.i + 1 && q.j == p.j) || (q.i == p.i && q.j == p.j + 1) ||
    (q.i + 1 == p.i && q.j == p.j) || (q.i == p.i && q.j + 1 == p.j)
  }

  /** The node name in a cell; a position off the grid is not on the net. */
  function Name(g: seq<seq<string>>, c: Cell): string
  {
    if c.i < |g| && c.j < |g[c.i]| then g[c.i][c.j] else ""
  }

  /** The d-th neighbour the stencil looks at: right (i + 1), bottom (j + 1), left (i - 1), top (j - 1). */
  function Neighbour(i: nat, j: nat, d: nat): Cell
    requires 1 <= i && 1 <= j && d < 4
  {
    if d == 0 then Cell(i + 1, j)
    else if d == 1 then Cell(i, j + 1)
    else if d == 2 then Cell(i - 1, j)
    else Cell(i, j - 1)
  }

  /** Which of the four neighbours of p the cell q is. */
  function Direction(p: Cell, q: Cell): nat {
    if q.i == p.i + 1 && q.j == p.j then 0
    else if q.i == p.i && q.j == p.j + 1 then 1
    else if q.i + 1 == p.i && q.j == p.j then 2
    else 3
  }

  lemma NeighbourDirection(p: Cell, q: Cell, d: nat)
    requires 1 <= p.i && 1 <= p.j && d < 4
    ensures Neighbour(p.i, p.j, d) == q ==> Direction(p, q) == d
    ensures Adjacent(p, q) ==> Direction(p, q) < 4 && Neighbour(p.i, p.j, Direction(p, q)) == q
  {
  }

  /** The resistor towards the d-th neighbour of (i, j), when that cell is on the net. */
  function Towards(g: seq<seq<string>>, i: nat, j: nat, d: nat): seq<Link>
    requires 1 <= i && 1 <= j && d < 4
  {
    var q := Neighbour(i, j, d);
    if Name(g, q) != "" then [Link(Cell(i, j), q)] else []
  }

  /**
   * The resistors of the interior cells from neighbour d of cell (i, j) on, in the
   * order of the loops (row by row, column by column, then the four neighbours),
   * appended to `done`.
   */
  function LinksFrom(g: seq<seq<string>>, i: nat, j: nat, d: nat, done: seq<Link>): seq<Link>
    requires 1 <= i && 1 <= j && d <= 4
    decreases |g| - i, Cols(g) - j, 4 - d
  {
    if i >= |g| - 1 then done
    else if j >= Cols(g) - 1 then LinksFrom(g, i + 1, 1, 0, done)
    else if d == 4 || Name(g, Cell(i, j)) == "" then LinksFrom(g, i, j + 1, 0, done)
    else LinksFrom(g, i, j, d + 1, done + Towards(g, i, j, d))
  }

  /** Every resistor of the mesh, in the order the loops emit them. */
  function Links(g: seq<seq<string>>): seq<Link>
  {
    LinksFrom(g, 1, 1, 0, [])
  }

  /** A resistor joins an on-net interior cell to an on-net 4-neighbour. */
  predicate GoodLink(g: seq<seq<string>>, l: Link)
  {
    Interior(g, l.from) && Adjacent(l.from, l.to) && InGrid(g, l.to) &&
    Name(g, l.from) != "" && Name(g, l.to) != ""
  }

  /** The loops reach link l at or after neighbour d of cell (i, j). */
  predicate Later(l: Link, i: nat, j: nat, d: nat) {
    l.from.i > i || (l.from.i == i && l.from.j > j) ||
    (l.from.i == i && l.from.j == j && Direction(l.from, l.to) >= d)
  }

  /**
   * A link is produced from neighbour d of (i, j) on exactly when it was already
   * done or it is a good link the loops reach at or after that point.
   */
  lemma {:induction false} LinksFromMember(g: seq<seq<string>>, i: nat, j: nat, d: nat, done: seq<Link>, l: Link)
    requires IsGrid(g) && 1 <= i && 1 <= j && d <= 4
    ensures l in LinksFrom(g, i, j, d, done) <==> l in done || (GoodLink(g, l) && Later(l, i, j, d))
    decreases |g| - i, Cols(g) - j, 4 - d
  {
    if i >= |g| - 1 {
    } else if j >= Cols(g) - 1 {
      LinksFromMember(g, i + 1, 1, 0, done, l);
    } else if d == 4 || Name(g, Cell(i, j)) == "" {
      LinksFromMember(g, i, j + 1, 0, done, l);
      if GoodLink(g, l) && l.from == Cell(i, j) {
        NeighbourDirection(l.from, l.to, 0);
      }
    } else {
      var t := Towards(g, i, j, d);
      LinksFromMember(g, i, j, d + 1, done + t, l);
      assert l in done + t <==> l in done || l in t;
      var q := Neighbour(i, j, d);
      NeighbourDirection(Cell(i, j), q, d);
      if l.from == Cell(i, j) && Adjacent(l.from, l.to) {
        NeighbourDirection(l.from, l.to, d);
      }
      if Name(g, q) != "" {
        assert GoodLink(g, Link(Cell(i, j), q));
      }
    }
  }

  /** Link l comes strictly before link m in the loops' order: row, column, then neighbour. */
  predicate Before(l: Link, m: Link) {
    l.from.i < m.from.i || (l.from.i == m.from.i && l.from.j < m.from.j) ||
    (l.from == m.from && Direction(l.from, l.to) < Direction(m.from, m.to))
  }

  /** Every link of s comes strictly before every later link of s. */
  predicate InLoopOrder(s: seq<Link>) {
    forall k, k' :: 0 <= k < k' < |s| ==> Before(s[k], s[k'])
  }

  /** One `if` block keeps the links in loop order and all of them before neighbour d + 1. */
  lemma LinksStepInOrder(g: seq<seq<string>>, i: nat, j: nat, d: nat, done: seq<Link>)
    requires 1 <= i && 1 <= j && d < 4
    requires InLoopOrder(done) && forall l :: l in done ==> !Later(l, i, j, d)
    ensures InLoopOrder(done + Towards(g, i, j, d))
    ensures forall l :: l in done + Towards(g, i, j, d) ==> !Later(l, i, j, d + 1)
  {
    var q := Neighbour(i, j, d);
    NeighbourDirection(Cell(i, j), q, d);
    var s := done + Towards(g, i, j, d);
    if Name(g, q) != "" {
      forall k, k' | 0 <= k < k' < |s| ensures Before(s[k], s[k']) {
        if k' == |done| {
          assert s[k] in done;
        } else {
          assert s[k] == done[k] && s[k'] == done[k'];
        }
      }
      forall l | l in s ensures !Later(l, i, j, d + 1) {
        assert l in done || l == Link(Cell(i, j), q);
      }
    } else {
      assert s == done;
    }
  }

  /**
   * Continuing the loops from neighbour d of (i, j) after links that are in loop
   * order and all come before that point leaves the links in loop order.
   */
  lemma {:induction false} LinksFromInOrder(g: seq<seq<string>>, i: nat, j: nat, d: nat, done: seq<Link>)
    requires 1 <= i && 1 <= j && d <= 4
    requires InLoopOrder(done) && forall l :: l in done ==> !Later(l, i, j, d)
    ensures InLoopOrder(LinksFrom(g, i, j, d, done))
    decreases |g| - i, Cols(g) - j, 4 - d
  {
    if i >= |g| - 1 {
    } else if j >= Cols(g) - 1 {
      LinksFromInOrder(g, i + 1, 1, 0, done);
    } else if d == 4 || Name(g, Cell(i, j)) == "" {
      LinksFromInOrder(g, i, j + 1, 0, done);
    } else {
      LinksStepInOrder(g, i, j, d, done);
      LinksFromInOrder(g, i, j, d + 1, done + Towards(g, i, j, d));
    }
  }

  /**
   * The resistors of the mesh are exactly the pairs of an on-net interior cell and
   * an on-net 4-neighbour of it, each emitted once, in the loops' order.
   */
  lemma LinksExactly(g: seq<seq<string>>)
    requires IsGrid(g)
    ensures forall l :: l in Links(g) <==> GoodLink(g, l)
    ensures InLoopOrder(Links(g))
    ensures forall k, k' :: 0 <= k < k' < |Links(g)| ==> Links(g)[k] != Links(g)[k']
  {
    forall l ensures l in Links(g) <==> GoodLink(g, l) {
      LinksFromMember(g, 1, 1, 0, [], l);
    }
    LinksFromInOrder(g, 1, 1, 0, []);
  }

  /**
   * Two adjacent on-net interior cells are joined by exactly two resistors, one
   * from each side, so the mesh puts two sheet resistances in parallel between them.
   */
  lemma InteriorPairLinkedTwice(g: seq<seq<string>>, p: Cell, q: Cell)
    requires IsGrid(g)
    requires Interior(g, p) && Interior(g, q) && Adjacent(p, q) && Name(g, p) != "" && Name(g, q) != ""
    ensures var ls := Links(g);
      (exists k :: 0 <= k < |ls| && ls[k] == Link(p, q) && forall k' :: 0 <= k' < |ls| && ls[k'] == Link(p, q) ==> k' == k) &&
      (exists k :: 0 <= k < |ls| && ls[k] == Link(q, p) && forall k' :: 0 <= k' < |ls| && ls[k'] == Link(q, p) ==> k' == k)
  {
    var ls := Links(g);
    LinksExactly(g);
    assert GoodLink(g, Link(p, q)) && GoodLink(g, Link(q, p));
    var k1 :| 0 <= k1 < |ls| && ls[k1] == Link(p, q);
    var k2 :| 0 <= k2 < |ls| && ls[k2] == Link(q, p);
    assert forall k' :: 0 <= k' < |ls| && ls[k'] == Link(p, q) ==> k' == k1;
    assert forall k' :: 0 <= k' < |ls| && ls[k'] == Link(q, p) ==> k' == k2;
  }

  /** A cell on the border of the grid is never the first node of a resistor. */
  lemma BorderNeverFirst(g: seq<seq<string>>, l: Link)
    requires IsGrid(g) && l in Links(g)
    ensures 1 <= l.from.i < |g| - 1 && 1 <= l.from.j < Cols(g) - 1
  {
    LinksExactly(g);
  }

  /** The resistor lines for a sequence of links, numbered from R1. */
  function Resistors(g: seq<seq<string>>, links: seq<Link>): (rs: seq<NetLine>)
    ensures |rs| == |links|
  {
    seq(|links|, k requires 0 <= k < |links| => Resistor(k + 1, Name(g, links[k].from), Name(g, links[k].to)))
  }

  /** One `if` block of the stencil: a resistor towards neighbour d, numbered after the lines so far. */
  function StencilStep(g: seq<seq<string>>, i: nat, j: nat, d: nat, acc: seq<NetLine>): seq<NetLine>
    requires 1 <= i && 1 <= j && d < 4
  {
    var q := Neighbour(i, j, d);
    if Name(g, q) != "" then acc + [Resistor(|acc|, Name(g, Cell(i, j)), Name(g, q))] else acc
  }

  /** The lines the stencil appends from neighbour d of cell (i, j) on, after the lines `acc`. */
  function StencilFrom(g: seq<seq<string>>, i: nat, j: nat, d: nat, acc: seq<NetLine>): seq<NetLine>
    requires 1 <= i && 1 <= j && d <= 4
    decreases |g| - i, Cols(g) - j, 4 - d
  {
    if i >= |g| - 1 then acc
    else if j >= Cols(g) - 1 then StencilFrom(g, i + 1, 1, 0, acc)
    else if d == 4 || Name(g, Cell(i, j)) == "" then StencilFrom(g, i, j + 1, 0, acc)
    else StencilFrom(g, i, j, d + 1, StencilStep(g, i, j, d, acc))
  }

  lemma ResistorsSnoc(g: seq<seq<string>>, links: seq<Link>, l: Link)
    ensures Resistors(g, links + [l]) == Resistors(g, links) + [Resistor(|links| + 1, Name(g, l.from), Name(g, l.to))]
  {
    var a, b := Resistors(g, links + [l]), Resistors(g, links) + [Resistor(|links| + 1, Name(g, l.from), Name(g, l.to))];
    forall k | 0 <= k < |a| ensures a[k] == b[k] {
      if k < |links| {
        assert (links + [l])[k] == links[k];
      }
    }
  }

  /** After the title, the counter `n` of a step is one more than the links before it. */
  lemma StepResistors(g: seq<seq<string>>, i: nat, j: nat, d: nat, links: seq<Link>)
    requires 1 <= i && 1 <= j && d < 4
    ensures StencilStep(g, i, j, d, [Title] + Resistors(g, links)) == [Title] + Resistors(g, links + Towards(g, i, j, d))
  {
    var q := Neighbour(i, j, d);
    if Name(g, q) != "" {
      ResistorsSnoc(g, links, Link(Cell(i, j), q));
    } else {
      assert links + Towards(g, i, j, d) == links;
    }
  }

  /** The stencil's lines are the resistor lines of the links, in order, numbered on from R1. */
  lemma {:induction false} StencilResistors(g: seq<seq<string>>, i: nat, j: nat, d: nat, links: seq<Link>)
    requires 1 <= i && 1 <= j && d <= 4
    ensures StencilFrom(g, i, j, d, [Title] + Resistors(g, links)) == [Title] + Resistors(g, LinksFrom(g, i, j, d, links))
    decreases |g| - i, Cols(g) - j, 4 - d
  {
    if i >= |g| - 1 {
    } else if j >= Cols(g) - 1 {
      StencilResistors(g, i + 1, 1, 0, links);
    } else if d == 4 || Name(g, Cell(i, j)) == "" {
      StencilResistors(g, i, j + 1, 0, links);
    } else {
      StepResistors(g, i, j, d, links);
      StencilResistors(g, i, j, d + 1, links + Towards(g, i, j, d));
    }
  }

  /** The current sources of the pads 0 .. upto - 1 whose current text is not "0". */
  function CurrentSources(rows: seq<PadRow>, upto: nat): seq<NetLine>
    requires upto <= |rows|
  {
    if upto == 0 then []
    else
      var r := rows[upto - 1];
      CurrentSources(rows, upto - 1) + (if r.current != "0" then [CurrentSource(upto - 1, r.name, r.current)] else [])
  }

  /**
   * One current source per pad whose current text is not "0", in pad order, each on
   * that pad's label and carrying its current text.
   */
  lemma {:induction false} CurrentSourcesSpec(rows: seq<PadRow>, upto: nat)
    requires upto <= |rows|
    ensures var cs := CurrentSources(rows, upto);
      (forall k :: 0 <= k < |cs| ==>
        cs[k].CurrentSource? && cs[k].index < upto && rows[cs[k].index].current != "0" &&
        cs[k] == CurrentSource(cs[k].index, rows[cs[k].index].name, rows[cs[k].index].current)) &&
      (forall k, k' :: 0 <= k < k' < |cs| ==> cs[k].index < cs[k'].index) &&
      (forall r :: 0 <= r < upto && rows[r].current != "0" ==> CurrentSource(r, rows[r].name, rows[r].current) in cs)
  {
    if upto > 0 {
      CurrentSourcesSpec(rows, upto - 1);
    }
  }

  /** `analysis_netlist` as the source assembles it. */
  function NetlistOf(g: seq<seq<string>>, rows: seq<PadRow>, sourceRow: nat): seq<NetLine>
    requires sourceRow < |rows|
  {
    [Title] + Resistors(g, Links(g)) + [VoltageSource(rows[sourceRow].name)] + CurrentSources(rows, |rows|) + [Op, End]
  }

  /**
   * The netlist opens with the title, then R1 .. Rm each joining an on-net interior
   * cell to an on-net neighbour, then exactly one voltage source, on the source
   * pad, then the current sources, and closes with `.op` and `.end`.
   */
  lemma NetlistLayout(g: seq<seq<string>>, rows: seq<PadRow>, sourceRow: nat)
    requires IsGrid(g) && sourceRow < |rows|
    ensures var nl, m := NetlistOf(g, rows, sourceRow), |Links(g)|;
      |nl| == m + |CurrentSources(rows, |rows|)| + 4 &&
      nl[0] == Title &&
      (forall k :: 1 <= k <= m ==>
        nl[k] == Resistor(k, Name(g, Links(g)[k - 1].from), Name(g, Links(g)[k - 1].to)) &&
        GoodLink(g, Links(g)[k - 1])) &&
      nl[m + 1] == VoltageSource(rows[sourceRow].name) &&
      (forall k :: 0 <= k < |nl| && nl[k].VoltageSource? ==> k == m + 1) &&
      (forall k :: m + 2 <= k < |nl| - 2 ==> nl[k].CurrentSource?) &&
      nl[|nl| - 2] == Op && nl[|nl| - 1] == End
  {
    var links := Links(g);
    var cs := CurrentSources(rows, |rows|);
    var nl := NetlistOf(g, rows, sourceRow);
    var m := |links|;
    LinksExactly(g);
    CurrentSourcesSpec(rows, |rows|);
    var rs := Resistors(g, links);
    assert nl == [Title] + rs + [VoltageSource(rows[sourceRow].name)] + cs + [Op, End];
    forall k | 1 <= k <= m
      ensures nl[k] == Resistor(k, Name(g, links[k - 1].from), Name(g, links[k - 1].to))
      ensures GoodLink(g, links[k - 1])
    {
      assert nl[k] == rs[k - 1];
      assert links[k - 1] in links;
    }
    forall k | m + 2 <= k < |nl| - 2 ensures nl[k].CurrentSource? {
      assert nl[k] == cs[k - m - 2];
    }
  }

  /** The SPICE element name at the head of a line. */
  function Designator(line: NetLine): string {
    match line
    case Resistor(n, _, _) => "R" + Dec(n)
    case VoltageSource(_) => "V1"
    case CurrentSource(i, _, _) => "I" + Dec(i)
    case _ => ""
  }

  /** The text of one netlist line, as the source formats it. */
  function Render(line: NetLine): string {
    match line
    case Title => "analysis"
    case Resistor(n, a, b) => "R" + Dec(n) + " " + a + " " + b + " " + SheetResistance
    case VoltageSource(node) => "V1 " + node + " 0 " + SourceVoltage
    case CurrentSource(i, node, current) => "I" + Dec(i) + " " + node + " 0 " + current
    case Op => ".op"
    case End => ".end"
  }

  /** The list of strings handed to the solver. */
  function NetlistText(netlist: seq<NetLine>): (t: seq<string>)
    ensures |t| == |netlist|
  {
    seq(|netlist|, k requires 0 <= k < |netlist| => Render(netlist[k]))
  }

  /** Each element line starts with its designator, followed by a space. */
  lemma RenderDesignator(line: NetLine)
    requires line.Resistor? || line.VoltageSource? || line.CurrentSource?
    ensures var r, d := Render(line), Designator(line);
      |d| < |r| && r[..|d|] == d && r[|d|] == ' '
  {
    var r, d := Render(line), Designator(line);
    match line
    case Resistor(n, a, b) =>
      assert r == d + (" " + a + " " + b + " " + SheetResistance);
    case VoltageSource(node) =>
    case CurrentSource(i, node, current) =>
      assert r == d + (" " + node + " 0 " + current);
  }

  lemma DesignatorsDiffer(x: NetLine, y: NetLine)
    requires x.Resistor? || x.VoltageSource? || x.CurrentSource?
    requires y.Resistor? || y.VoltageSource? || y.CurrentSource?
    requires Designator(x) == Designator(y)
    ensures x.Resistor? ==> y.Resistor? && x.n == y.n
    ensures x.CurrentSource? ==> y.CurrentSource? && x.index == y.index
    ensures x.VoltageSource? ==> y.VoltageSource?
  {
    var d := Designator(x);
    assert d[0] == Designator(y)[0];
    if x.Resistor? {
      assert Dec(x.n) == d[1..] == Dec(y.n);
      DecInjective(x.n, y.n);
    } else if x.CurrentSource? {
      assert Dec(x.index) == d[1..] == Dec(y.index);
      DecInjective(x.index, y.index);
    }
  }

  /** Every element of the netlist (R, V and I lines) has a designator of its own, as SPICE requires. */
  lemma NetlistDesignatorsUnique(g: seq<seq<string>>, rows: seq<PadRow>, sourceRow: nat, k: nat, k': nat)
    requires IsGrid(g) && sourceRow < |rows|
    requires k < k' < |NetlistOf(g, rows, sourceRow)|
    requires var nl := NetlistOf(g, rows, sourceRow);
      (nl[k].Resistor? || nl[k].VoltageSource? || nl[k].CurrentSource?) &&
      (nl[k'].Resistor? || nl[k'].VoltageSource? || nl[k'].CurrentSource?)
    ensures var nl := NetlistOf(g, rows, sourceRow);
      Designator(nl[k]) != Designator(nl[k'])
  {
    var nl := NetlistOf(g, rows, sourceRow);
    var m := |Links(g)|;
    var cs := CurrentSources(rows, |rows|);
    NetlistLayout(g, rows, sourceRow);
    CurrentSourcesSpec(rows, |rows|);
    assert nl == [Title] + Resistors(g, Links(g)) + [VoltageSource(rows[sourceRow].name)] + cs + [Op, End];
    if Designator(nl[k]) == Designator(nl[k']) {
      DesignatorsDiffer(nl[k], nl[k']);
    }
  }

  /** The body of the stencil loops for one interior cell (i, j): its four `if` blocks. */
  method StencilCell(g: seq<seq<string>>, i: nat, j: nat, acc: seq<NetLine>, n: nat) returns (netlist: seq<NetLine>, n': nat)
    requires IsGrid(g) && 1 <= i < |g| - 1 && 1 <= j < Cols(g) - 1 && n == |acc|
    ensures StencilFrom(g, i, j + 1, 0, netlist) == StencilFrom(g, i, j, 0, acc) && n' == |netlist|
  {
    netlist, n' := acc, n;
    if g[i][j] != "" {
      assert Name(g, Cell(i, j)) == g[i][j];
      if g[i + 1][j] != "" {
        netlist := netlist + [Resistor(n', g[i][j], g[i + 1][j])];
        n' := n' + 1;
      }
      assert netlist == StencilStep(g, i, j, 0, acc);
      ghost var right := netlist;
      if g[i][j + 1] != "" {
        netlist := netlist + [Resistor(n', g[i][j], g[i][j + 1])];
        n' := n' + 1;
      }
      assert netlist == StencilStep(g, i, j, 1, right);
      ghost var bottom := netlist;
      if g[i - 1][j] != "" {
        netlist := netlist + [Resistor(n', g[i][j], g[i - 1][j])];
        n' := n' + 1;
      }
      assert netlist == StencilStep(g, i, j, 2, bottom);
      ghost var left := netlist;
      if g[i][j - 1] != "" {
        netlist := netlist + [Resistor(n', g[i][j], g[i][j - 1])];
        n' := n' + 1;
      }
      assert netlist == StencilStep(g, i, j, 3, left);
      assert StencilFrom(g, i, j, 0, acc) == StencilFrom(g, i, j, 1, right) == StencilFrom(g, i, j, 2, bottom)
        == StencilFrom(g, i, j, 3, left) == StencilFrom(g, i, j, 4, netlist);
    }
  }

  /**
   * The loops of `run_analysis` that write `analysis_netlist`: the resistor stencil
   * over the interior cells with the running counter `n`, the voltage source, the
   * current sources and the trailer.
   */
  method BuildNetlist(g: seq<seq<string>>, rows: seq<PadRow>, sourceRow: nat) returns (netlist: seq<NetLine>)
    requires IsGrid(g) && sourceRow < |rows|
    ensures netlist == NetlistOf(g, rows, sourceRow)
  {
    netlist := [Title];
    assert [Title] + Resistors(g, []) == [Title];
    StencilResistors(g, 1, 1, 0, []);
    var n := 1;
    var i := 1;
    while i < |g| - 1
      invariant 1 <= i
      invariant StencilFrom(g, i, 1, 0, netlist) == [Title] + Resistors(g, Links(g))
      invariant n == |netlist|
    {
      var j := 1;
      while j < |g[0]| - 1
        invariant 1 <= j
        invariant StencilFrom(g, i, j, 0, netlist) == [Title] + Resistors(g, Links(g))
        invariant n == |netlist|
      {
        netlist, n := StencilCell(g, i, j, netlist, n);
        j := j + 1;
      }
      i := i + 1;
    }
    netlist := netlist + [VoltageSource(rows[sourceRow].name)];
    var p := 0;
    ghost var prefix := netlist;
    while p < |rows|
      invariant 0 <= p <= |rows|
      invariant netlist == prefix + CurrentSources(rows, p)
    {
      if rows[p].current != "0" {
        netlist := netlist + [CurrentSource(p, rows[p].name, rows[p].current)];
      }
      p := p + 1;
    }
    netlist := netlist + [Op, End];
  }
}
