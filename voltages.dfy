/**
 * Result mapping of `run_analysis`: every on-net cell of the node grid takes the
 * voltage the solver reports for its node name, looked up in lower case (the
 * solver reports node names in lower case), and every off-net cell takes the
 * source voltage. A node name the solver does not report stops the mapping with
 * a KeyError, modelled as a `Failure` carrying the missing key.
 */
module Voltages {
  import opened Wrappers
  import opened Text
  import opened Netlist

  /** The solver reports the node of an on-net cell named `name`. */
  predicate Reported<V>(name: string, data: map<string, V>) {
    name == "" || Lower(name) in data
  }

  /**
   * The first on-net cell of `line` from column b on whose node the solver does not
   * report, as the key the lookup fails on.
   */
  function MissingFrom<V>(line: seq<string>, data: map<string, V>, b: nat): (r: Option<string>)
    decreases |line| - b
    ensures r.None? <==> forall c :: b <= c < |line| ==> Reported(line[c], data)
    ensures r.Some? ==> exists c :: (b <= c < |line| && !Reported(line[c], data) && r.value == Lower(line[c]) &&
      forall c' :: b <= c' < c ==> Reported(line[c'], data))
  {
    if b >= |line| then None
    else if !Reported(line[b], data) then Some(Lower(line[b]))
    else MissingFrom(line, data, b + 1)
  }

  /** The first missing key in row-major order, from row a on. */
  function MissingRows<V>(g: seq<seq<string>>, data: map<string, V>, a: nat): (r: Option<string>)
    decreases |g| - a
    ensures r.None? <==> forall a', c :: a <= a' < |g| && 0 <= c < |g[a']| ==> Reported(g[a'][c], data)
    ensures r.Some? ==> exists a', c :: (a <= a' < |g| && 0 <= c < |g[a']| && !Reported(g[a'][c], data) &&
      r.value == Lower(g[a'][c]) && r.value !in data)
  {
    if a >= |g| then None
    else match MissingFrom(g[a], data, 0)
      case Some(key) => Some(key)
      case None => MissingRows(g, data, a + 1)
  }

  /** One entry of `node_voltages`: the reported voltage of an on-net cell, the source voltage otherwise. */
  function CellVoltage<V>(name: string, data: map<string, V>, source: V): V
    requires Reported(name, data)
  {
    if name != "" then data[Lower(name)] else source
  }

  /** One line of `node_voltages`, once every on-net cell of `line` is reported. */
  function VoltageRow<V>(line: seq<string>, data: map<string, V>, source: V): (vs: seq<V>)
    requires forall c :: 0 <= c < |line| ==> Reported(line[c], data)
    ensures |vs| == |line|
  {
    seq(|line|, c requires 0 <= c < |line| => CellVoltage(line[c], data, source))
  }

  /** `node_voltages`, or the key of the KeyError that stops the mapping. */
  function VoltageGrid<V>(g: seq<seq<string>>, data: map<string, V>, source: V): (r: Result<seq<seq<V>>, string>)
    requires IsGrid(g)
    ensures r.Success? <==> forall a, c :: 0 <= a < |g| && 0 <= c < |g[a]| ==> Reported(g[a][c], data)
    ensures r.Success? ==> |r.value| == |g| && forall a :: 0 <= a < |g| ==> |r.value[a]| == |g[a]|
    ensures r.Failure? ==> exists a, c :: (0 <= a < |g| && 0 <= c < |g[a]| && g[a][c] != "" &&
      r.error == Lower(g[a][c]) && r.error !in data)
  {
    match MissingRows(g, data, 0)
    case Some(key) => Failure(key)
    case None =>
      Success(seq(|g|, a requires 0 <= a < |g| => VoltageRow(g[a], data, source)))
  }

  /**
   * Once the mapping succeeds, an on-net cell holds the solver's voltage for its
   * lower-cased node name and an off-net cell holds the source voltage.
   */
  lemma VoltagesCell<V>(g: seq<seq<string>>, data: map<string, V>, source: V, a: nat, c: nat)
    requires IsGrid(g) && a < |g| && c < |g[a]| && VoltageGrid(g, data, source).Success?
    ensures var v := VoltageGrid(g, data, source).value[a][c];
      (g[a][c] != "" ==> Lower(g[a][c]) in data && v == data[Lower(g[a][c])]) &&
      (g[a][c] == "" ==> v == source)
  {
  }

  /**
   * The inner loop of the mapping for row a: the voltages of its cells, or the key
   * of the first cell the solver does not report.
   */
  method MapRow<V>(g: seq<seq<string>>, a: nat, data: map<string, V>, source: V) returns (r: Result<seq<V>, string>)
    requires IsGrid(g) && a < |g|
    ensures r.Failure? <==> MissingFrom(g[a], data, 0).Some?
    ensures r.Failure? ==> r.error == MissingFrom(g[a], data, 0).value
    ensures r.Success? ==> r.value == VoltageRow(g[a], data, source)
  {
    var line: seq<V> := [];
    var c := 0;
    while c < |g[0]|
      invariant c <= |g[0]| && |line| == c
      invariant MissingFrom(g[a], data, c) == MissingFrom(g[a], data, 0)
      invariant forall c' :: 0 <= c' < c ==> Reported(g[a][c'], data) && line[c'] == CellVoltage(g[a][c'], data, source)
    {
      if g[a][c] != "" {
        var key := Lower(g[a][c]);
        if key !in data {
          assert MissingFrom(g[a], data, c) == Some(key);
          return Failure(key);
        }
        line := line + [data[key]];
      } else {
        line := line + [source];
      }
      c := c + 1;
    }
    return Success(line);
  }

  /**
   * The loops of `run_analysis` that build `node_voltages`. The lookup of an
   * unreported node raises the KeyError, returned here as a `Failure`.
   */
  method MapVoltages<V>(g: seq<seq<string>>, data: map<string, V>, source: V) returns (r: Result<seq<seq<V>>, string>)
    requires IsGrid(g)
    ensures r == VoltageGrid(g, data, source)
  {
    var nodeVoltages: seq<seq<V>> := [];
    var a := 0;
    while a < |g|
      invariant a <= |g| && |nodeVoltages| == a
      invariant MissingRows(g, data, a) == MissingRows(g, data, 0)
      invariant forall a', c :: 0 <= a' < a && 0 <= c < |g[a']| ==> Reported(g[a'][c], data)
      invariant forall a' :: 0 <= a' < a ==> nodeVoltages[a'] == VoltageRow(g[a'], data, source)
    {
      var line := MapRow(g, a, data, source);
      if line.Failure? {
        assert MissingRows(g, data, a) == Some(line.error);
        return Failure(line.error);
      }
      nodeVoltages := nodeVoltages + [line.value];
      a := a + 1;
    }
    assert MissingRows(g, data, 0) == None;
    assert nodeVoltages == VoltageGrid(g, data, source).value;
    r := Success(nodeVoltages);
  }
}
