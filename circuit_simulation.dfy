/** simulateCircuit: from the objects on the canvas to the reading of the
    meter.

    The placed elements are grouped into nodes by the position of their
    terminals; the meter reads a value only when both leads touch a node (or
    touch each other).  Then one equation per node (Kirchhoff's current law),
    one per element (its constitutive law) and one grounding the black lead
    are handed to the linear solver, and the value of the voltage unknown at
    the red lead is shown. */
module CircuitSimulation {
  import opened AffineExpressions
  import opened LinearSolver
  import opened CircuitElements

  /** What the meter shows: a voltage, "floating" or "short circuit?". */
  datatype Probe = Voltage(v: real) | Floating | ShortCircuit

  /** Objects the simulation takes part in: graph elements other than the
      leads.  Each has two terminals. */
  predicate IsPlaced(e: Element)
    ensures IsPlaced(e) ==> |GetNodes(e)| == 2
  {
    IsGraphElement(e) && !e.Lead?
  }

  /** `placedObjects`: the placed objects in list order. */
  function Placed(objects: seq<Element>): (r: seq<Element>)
    ensures forall k :: 0 <= k < |r| ==> IsPlaced(r[k])
  {
    if |objects| == 0 then []
    else
      var e := objects[|objects| - 1];
      Placed(objects[..|objects| - 1]) + (if IsPlaced(e) then [e] else [])
  }

  /** The `nodes` dictionary: node keys in insertion order and, under each,
      the indices (in `placedObjects`) of the elements pushed for it. */
  datatype NodeTable = NodeTable(keys: seq<string>, members: map<string, seq<nat>>)

  /** `nodes[s].push(obj)`, creating `nodes[s]` first when it is missing. */
  function Attach(t: NodeTable, s: string, k: nat): NodeTable
  {
    if s in t.members then NodeTable(t.keys, t.members[s := t.members[s] + [k]])
    else NodeTable(t.keys + [s], t.members[s := [k]])
  }

  /** The table after the first `n` terminals `ps` of element `k`. */
  function AddTerminals(t: NodeTable, k: nat, ps: seq<Point>, n: nat): NodeTable
    requires n <= |ps|
  {
    if n == 0 then t
    else Attach(AddTerminals(t, k, ps, n - 1), NodeToStr(ps[n - 1]), k)
  }

  /** The node table built from the placed elements. */
  function Nodes(placed: seq<Element>): NodeTable
  {
    if |placed| == 0 then NodeTable([], map[])
    else
      var k := |placed| - 1;
      var ps := GetNodes(placed[k]);
      AddTerminals(Nodes(placed[..k]), k, ps, |ps|)
  }

  /** The flags of the lead loop: the red and the black lead each lie on a
      node key, or the two leads lie on the same position. */
  predicate Connected(t: NodeTable, red: Point, black: Point)
  {
    (NodeToStr(red) in t.keys && NodeToStr(black) in t.keys) || NodeToStr(red) == NodeToStr(black)
  }

  /** A table whose keys are distinct and exactly its entries, each entry
      listing indices of placed elements. */
  ghost predicate TableOver(t: NodeTable, n: nat)
  {
    && Distinct(t.keys)
    && (forall s :: s in t.members <==> s in t.keys)
    && (forall s :: s in t.members ==> forall i :: 0 <= i < |t.members[s]| ==> t.members[s][i] < n)
  }

  /** The orientation of the current into element `e` at node `s`: +1 when
      `s` is its terminal 0, -1 otherwise. */
  function Orientation(e: Element, s: string): real
    requires IsPlaced(e)
  {
    if s == NodeToStr(GetNodes(e)[0]) then 1.0 else -1.0
  }

  function Orientations(placed: seq<Element>, s: string, ks: seq<nat>): (r: seq<real>)
    requires forall i :: 0 <= i < |ks| ==> ks[i] < |placed| && IsPlaced(placed[ks[i]])
    ensures |r| == |ks|
  {
    seq(|ks|, i requires 0 <= i < |ks| => Orientation(placed[ks[i]], s))
  }

  function Currents(ks: seq<nat>): (r: seq<Name>)
    ensures |r| == |ks|
  {
    seq(|ks|, i requires 0 <= i < |ks| => CurrentVariable(ks[i]))
  }

  /** The KCL equation of node `s` whose element list is `ks`. */
  function Kcl(placed: seq<Element>, s: string, ks: seq<nat>): AffineExpression
    requires forall i :: 0 <= i < |ks| ==> ks[i] < |placed| && IsPlaced(placed[ks[i]])
  {
    New(Orientations(placed, s, ks), Currents(ks), 0.0)
  }

  /** One KCL equation per node key, in key order. */
  function KclEquations(placed: seq<Element>, t: NodeTable): (r: seq<AffineExpression>)
    requires TableOver(t, |placed|) && forall k :: 0 <= k < |placed| ==> IsPlaced(placed[k])
    ensures |r| == |t.keys|
  {
    seq(|t.keys|, n requires 0 <= n < |t.keys| => Kcl(placed, t.keys[n], t.members[t.keys[n]]))
  }

  /** The constitutive equation of placed element `e` with index `k`:
      `v1 - v2 - R i = 0` for a resistor, `v1 - v2 = 0` for a wire and
      `v1 - v2 + value = 0` for a source. */
  function ElementEquation(e: Element, k: nat): AffineExpression
    requires IsPlaced(e)
  {
    var ns := GetNodes(e);
    var node1name := VoltageVariable(ns[0]);
    var node2name := VoltageVariable(ns[1]);
    if GetType(e) == "resistor" then
      New([1.0, -1.0, -GetValue(e)], [node1name, node2name, CurrentVariable(k)], 0.0)
    else if GetType(e) == "wire" then
      New([1.0, -1.0], [node1name, node2name], 0.0)
    else
      New([1.0, -1.0], [node1name, node2name], GetValue(e))
  }

  function ElementEquations(placed: seq<Element>): (r: seq<AffineExpression>)
    requires forall k :: 0 <= k < |placed| ==> IsPlaced(placed[k])
    ensures |r| == |placed|
  {
    seq(|placed|, k requires 0 <= k < |placed| => ElementEquation(placed[k], k))
  }

  /** `v[black] = 0`. */
  function Ground(black: Point): AffineExpression
  {
    New([1.0], [VoltageVariable(black)], 0.0)
  }

  /** The system handed to the solver. */
  function System(placed: seq<Element>, t: NodeTable, black: Point): seq<AffineExpression>
    requires TableOver(t, |placed|) && forall k :: 0 <= k < |placed| ==> IsPlaced(placed[k])
  {
    KclEquations(placed, t) + ElementEquations(placed) + [Ground(black)]
  }

  /** The reading for a solver outcome: a thrown inconsistency is a short
      circuit; a missing or NaN value at the red lead is floating. */
  function Reading(soln: Solution, red: Point): Probe
  {
    match soln
    case Inconsistent => ShortCircuit
    case Solved(values) =>
      var key := VoltageVariable(red);
      if key in values && values[key].Known? then Voltage(values[key].number) else Floating
  }

  /** The outcome of simulateCircuit for the objects and the lead positions. */
  function Simulate(objects: seq<Element>, red: Point, black: Point): Probe
  {
    if !Connected(Nodes(Placed(objects)), red, black) then Floating
    else Reading(Solve(Equations(objects, black)), red)
  }

  /** The system generated for the objects, grounded at the black lead. */
  function Equations(objects: seq<Element>, black: Point): (r: seq<AffineExpression>)
    ensures AllValid(r)
  {
    var placed := Placed(objects);
    TableFacts(placed);
    AllValidSystem(placed, Nodes(placed), black);
    System(placed, Nodes(placed), black)
  }

  lemma {:induction false} TableFacts(placed: seq<Element>)
    ensures TableOver(Nodes(placed), |placed|)
  {
    if |placed| > 0 {
      var k := |placed| - 1;
      TableFacts(placed[..k]);
      TableStep(Nodes(placed[..k]), k, GetNodes(placed[k]), |GetNodes(placed[k])|);
    }
  }

  lemma {:induction false} TableStep(t: NodeTable, k: nat, ps: seq<Point>, n: nat)
    requires n <= |ps| && TableOver(t, k)
    ensures TableOver(AddTerminals(t, k, ps, n), k + 1)
    decreases n, 1
  {
    if n > 0 {
      TableStepNext(t, k, ps, n);
    } else {
      assert TableOver(t, k + 1);
    }
  }

  lemma {:induction false} TableStepNext(t: NodeTable, k: nat, ps: seq<Point>, n: nat)
    requires 0 < n <= |ps| && TableOver(t, k)
    ensures TableOver(AddTerminals(t, k, ps, n), k + 1)
    decreases n, 0
  {
    var u := AddTerminals(t, k, ps, n - 1);
    TableStep(t, k, ps, n - 1);
    AddTerminalsNext(t, k, ps, n - 1);
    AttachOver(u, NodeToStr(ps[n - 1]), k);
  }

  lemma {:induction false} AttachOver(t: NodeTable, s: string, k: nat)
    requires TableOver(t, k + 1)
    ensures TableOver(Attach(t, s, k), k + 1)
  {
    var r := Attach(t, s, k);
    forall w | w in r.members
      ensures forall i :: 0 <= i < |r.members[w]| ==> r.members[w][i] < k + 1
    {
      if w != s {
        assert r.members[w] == t.members[w];
      }
    }
  }

  lemma {:induction false} AllValidSystem(placed: seq<Element>, t: NodeTable, black: Point)
    requires TableOver(t, |placed|) && forall k :: 0 <= k < |placed| ==> IsPlaced(placed[k])
    ensures AllValid(System(placed, t, black))
  {
  }

  // The imperative simulation.

  /** The first loop of simulateCircuit: collects `placedObjects` and fills
      the `nodes` dictionary. */
  method BuildNodeTable(objects: seq<Element>) returns (placed: seq<Element>, nodes: NodeTable)
    ensures placed == Placed(objects) && nodes == Nodes(placed)
  {
    placed, nodes := [], NodeTable([], map[]);
    var i := 0;
    while i < |objects|
      invariant i <= |objects| && placed == Placed(objects[..i]) && nodes == Nodes(placed)
    {
      var obj := objects[i];
      PlacedStep(objects, i);
      if IsPlaced(obj) {
        var k := |placed|;
        nodes := AddObjectTerminals(nodes, k, GetNodes(obj));
        placed := placed + [obj];
        TableAppend(placed, k);
      }
      i := i + 1;
    }
    assert objects[..i] == objects;
  }

  lemma {:induction false} PlacedStep(objects: seq<Element>, i: nat)
    requires i < |objects|
    ensures Placed(objects[..i + 1]) == Placed(objects[..i]) + (if IsPlaced(objects[i]) then [objects[i]] else [])
  {
    assert objects[..i + 1][..i] == objects[..i];
  }

  lemma {:induction false} TableAppend(placed: seq<Element>, k: nat)
    requires k + 1 == |placed|
    ensures Nodes(placed) == AddTerminals(Nodes(placed[..k]), k, GetNodes(placed[k]), |GetNodes(placed[k])|)
  {
  }

  /** The inner loop: pushes element `k` under the key of each of its
      terminals, creating a missing entry first. */
  method AddObjectTerminals(nodes0: NodeTable, k: nat, terminals: seq<Point>) returns (nodes: NodeTable)
    ensures nodes == AddTerminals(nodes0, k, terminals, |terminals|)
  {
    nodes := nodes0;
    var j := 0;
    while j < |terminals|
      invariant j <= |terminals| && nodes == AddTerminals(nodes0, k, terminals, j)
    {
      var nodeStr := NodeToStr(terminals[j]);
      AddTerminalsNext(nodes0, k, terminals, j);
      nodes := Push(nodes, nodeStr, k);
      j := j + 1;
    }
  }

  lemma {:induction false} AddTerminalsNext(t: NodeTable, k: nat, ps: seq<Point>, j: nat)
    requires j < |ps|
    ensures AddTerminals(t, k, ps, j + 1) == Attach(AddTerminals(t, k, ps, j), NodeToStr(ps[j]), k)
  {
  }

  /** `nodes[nodeStr] = []` when the key is missing, then
      `nodes[nodeStr].push(obj)`. */
  method Push(nodes0: NodeTable, nodeStr: string, k: nat) returns (nodes: NodeTable)
    ensures nodes == Attach(nodes0, nodeStr, k)
  {
    nodes := nodes0;
    if nodeStr !in nodes.members {
      nodes := NodeTable(nodes.keys + [nodeStr], nodes.members[nodeStr := []]);
      assert [] + [k] == [k];
    }
    nodes := NodeTable(nodes.keys, nodes.members[nodeStr := nodes.members[nodeStr] + [k]]);
  }

  /** The second loop: the flags for the two leads. */
  method CheckLeads(nodes: NodeTable, red: Point, black: Point) returns (connected: bool)
    ensures connected == Connected(nodes, red, black)
  {
    var redLeadConnected, blackLeadConnected := false, false;
    var i := 0;
    while i < |nodes.keys|
      invariant i <= |nodes.keys|
      invariant redLeadConnected == (NodeToStr(red) in nodes.keys[..i])
      invariant blackLeadConnected == (NodeToStr(black) in nodes.keys[..i])
    {
      assert nodes.keys[..i + 1] == nodes.keys[..i] + [nodes.keys[i]];
      if nodes.keys[i] == NodeToStr(red) {
        redLeadConnected := true;
      }
      if nodes.keys[i] == NodeToStr(black) {
        blackLeadConnected := true;
      }
      i := i + 1;
    }
    assert nodes.keys[..i] == nodes.keys;
    connected := (redLeadConnected && blackLeadConnected) || NodeToStr(red) == NodeToStr(black);
  }

  /** The KCL equation of one node: the orientations and current names of
      the elements listed under it. */
  method KclEquation(placed: seq<Element>, nstr: string, ks: seq<nat>) returns (e: AffineExpression)
    requires forall i :: 0 <= i < |ks| ==> ks[i] < |placed| && IsPlaced(placed[ks[i]])
    ensures e == Kcl(placed, nstr, ks)
  {
    var orientations, currents := [], [];
    var j := 0;
    while j < |ks|
      invariant j <= |ks|
      invariant orientations == [] + Orientations(placed, nstr, ks)[..j]
      invariant currents == [] + Currents(ks)[..j]
    {
      var o, c := Orientation(placed[ks[j]], nstr), CurrentVariable(ks[j]);
      PrefixStep([], Orientations(placed, nstr, ks), j, o);
      PrefixStep([], Currents(ks), j, c);
      orientations := orientations + [o];
      currents := currents + [c];
      j := j + 1;
    }
    assert orientations == Orientations(placed, nstr, ks);
    assert currents == Currents(ks);
    e := New(orientations, currents, 0.0);
  }

  /** The equation loops of simulateCircuit: KCL per node, one equation per
      element, then the ground. */
  method GenerateEquations(placed: seq<Element>, nodes: NodeTable, black: Point) returns (system: seq<AffineExpression>)
    requires TableOver(nodes, |placed|) && forall k :: 0 <= k < |placed| ==> IsPlaced(placed[k])
    ensures system == System(placed, nodes, black)
  {
    ghost var kcl, elements := KclEquations(placed, nodes), ElementEquations(placed);
    system := [];
    var n := 0;
    while n < |nodes.keys|
      invariant n <= |nodes.keys| && system == [] + kcl[..n]
    {
      var nstr := nodes.keys[n];
      var e := KclEquation(placed, nstr, nodes.members[nstr]);
      PrefixStep([], kcl, n, e);
      system := system + [e];
      n := n + 1;
    }
    assert kcl[..n] == kcl;
    var k := 0;
    while k < |placed|
      invariant k <= |placed| && system == kcl + elements[..k]
    {
      var e := ElementEquation(placed[k], k);
      PrefixStep(kcl, elements, k, e);
      system := system + [e];
      k := k + 1;
    }
    assert elements[..k] == elements;
    system := system + [Ground(black)];
  }

  lemma {:induction false} PrefixStep<T>(a: seq<T>, b: seq<T>, k: nat, x: T)
    requires k < |b| && x == b[k]
    ensures a + b[..k] + [x] == a + b[..k + 1]
  {
    assert b[..k + 1] == b[..k] + [x];
  }

  /** simulateCircuit: whether both leads are connected, and the reading. */
  method SimulateCircuit(objects: seq<Element>, red: Point, black: Point) returns (connected: bool, probe: Probe)
    ensures connected == Connected(Nodes(Placed(objects)), red, black)
    ensures probe == Simulate(objects, red, black)
  {
    var placed, nodes := BuildNodeTable(objects);
    connected := CheckLeads(nodes, red, black);
    if !connected {
      probe := Floating;
      return;
    }
    TableFacts(placed);
    var system := GenerateEquations(placed, nodes, black);
    AllValidSystem(placed, nodes, black);
    var equations := new AffineExpression[|system|](i requires 0 <= i < |system| => system[i]);
    assert equations[..] == system;
    var soln := SolveLinearSystem(equations);
    match soln
    case Inconsistent =>
      probe := ShortCircuit;
    case Solved(values) =>
      var v := VoltageVariable(red);
      if v in values && values[v].Known? {
        probe := Voltage(values[v].number);
      } else {
        probe := Floating;
      }
  }
}
