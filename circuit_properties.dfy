/** What simulateCircuit promises: which objects take part, how the node
    table groups their terminals, when the leads count as connected, the
    shape of every generated equation and what the reading means. */
module CircuitProperties {
  import opened AffineExpressions
  import opened LinearSolver
  import opened CircuitElements
  import opened CircuitSimulation
  import opened SolverProperties

  // Which objects are placed.

  /** The placed objects are exactly the graph elements that are not leads. */
  lemma {:induction false} PlacedMembers(objects: seq<Element>)
    ensures forall e :: e in Placed(objects) <==> e in objects && IsGraphElement(e) && !e.Lead?
    ensures |Placed(objects)| <= |objects|
  {
    if |objects| > 0 {
      var n := |objects| - 1;
      PlacedMembers(objects[..n]);
      assert objects == objects[..n] + [objects[n]];
    }
  }

  /** The filter loop pushes objects in list order: placing a list joined
      from two parts places the first part's objects, then the second's. */
  lemma {:induction false} PlacedAppend(a: seq<Element>, b: seq<Element>)
    ensures Placed(a + b) == Placed(a) + Placed(b)
    decreases |b|
  {
    if |b| == 0 {
      assert a + b == a;
    } else {
      var n := |b| - 1;
      var last := if IsPlaced(b[n]) then [b[n]] else [];
      PlacedAppend(a, b[..n]);
      PlacedUnfold(a + b, a + b[..n], b[n]);
      PlacedUnfold(b, b[..n], b[n]);
      Assoc(Placed(a), Placed(b[..n]), last);
    }
  }

  /** `Placed` over a list whose last object is `e` and whose other objects
      are `pre`. */
  lemma {:induction false} PlacedUnfold(s: seq<Element>, pre: seq<Element>, e: Element)
    requires |s| > 0 && s[..|s| - 1] == pre && s[|s| - 1] == e
    ensures Placed(s) == Placed(pre) + (if IsPlaced(e) then [e] else [])
  {
  }

  /** One object is placed on its own exactly when it passes the gate. */
  lemma {:induction false} PlacedSingle(e: Element)
    ensures Placed([e]) == if IsGraphElement(e) && !e.Lead? then [e] else []
  {
    assert [e][..0] == [];
  }

  /** The positions in `objects` of the objects the filter loop pushes. */
  ghost function PlacedIndex(objects: seq<Element>): seq<nat>
  {
    if |objects| == 0 then []
    else
      var n := |objects| - 1;
      PlacedIndex(objects[..n]) + (if IsPlaced(objects[n]) then [n] else [])
  }

  /** `placedObjects` is the subsequence of `objects` at the strictly
      increasing positions of the placed objects: each placed object occurs
      once, and in list order. */
  lemma {:induction false} PlacedOrder(objects: seq<Element>)
    ensures |PlacedIndex(objects)| == |Placed(objects)|
    ensures forall k :: 0 <= k < |PlacedIndex(objects)| ==>
              PlacedIndex(objects)[k] < |objects| && Placed(objects)[k] == objects[PlacedIndex(objects)[k]]
    ensures forall k, l :: 0 <= k < l < |PlacedIndex(objects)| ==> PlacedIndex(objects)[k] < PlacedIndex(objects)[l]
    ensures forall j :: 0 <= j < |objects| ==> (j in PlacedIndex(objects) <==> IsGraphElement(objects[j]) && !objects[j].Lead?)
  {
    if |objects| > 0 {
      var n := |objects| - 1;
      var pre := objects[..n];
      PlacedOrder(pre);
      forall j | 0 <= j < n
        ensures objects[j] == pre[j]
      {
      }
    }
  }

  // The node table.

  /** How many of the first `n` terminals `ps` have key `w`. */
  function HitsUpTo(ps: seq<Point>, n: nat, w: string): (c: nat)
    requires n <= |ps|
    ensures c <= n
  {
    if n == 0 then 0
    else HitsUpTo(ps, n - 1, w) + (if NodeToStr(ps[n - 1]) == w then 1 else 0)
  }

  /** How many terminals of `e` have key `w`: 0, 1, or 2 for a wire whose
      ends coincide. */
  function Hits(e: Element, w: string): nat
  {
    HitsUpTo(GetNodes(e), |GetNodes(e)|, w)
  }

  /** How often element `k` is listed under key `w`. */
  function Count(t: NodeTable, w: string, k: nat): nat
  {
    if w in t.members then multiset(t.members[w])[k] else 0
  }

  lemma {:induction false} HitsUpToPositive(ps: seq<Point>, n: nat, w: string)
    requires n <= |ps|
    ensures HitsUpTo(ps, n, w) > 0 <==> exists j :: 0 <= j < n && NodeToStr(ps[j]) == w
    decreases n, 1
  {
    if n > 0 {
      HitsUpToPositiveNext(ps, n, w, NodeToStr(ps[n - 1]));
    }
  }

  lemma {:induction false} HitsUpToPositiveNext(ps: seq<Point>, n: nat, w: string, last: string)
    requires 0 < n <= |ps| && last == NodeToStr(ps[n - 1])
    ensures HitsUpTo(ps, n, w) > 0 <==> exists j :: 0 <= j < n && NodeToStr(ps[j]) == w
    decreases n, 0
  {
    HitsUpToPositive(ps, n - 1, w);
    assert HitsUpTo(ps, n, w) == HitsUpTo(ps, n - 1, w) + (if last == w then 1 else 0);
  }

  lemma {:induction false} AttachCount(t: NodeTable, s: string, k: nat)
    ensures forall w, k': nat :: Count(Attach(t, s, k), w, k') == Count(t, w, k') + (if w == s && k' == k then 1 else 0)
  {
    var r := Attach(t, s, k);
    forall w, k': nat
      ensures Count(r, w, k') == Count(t, w, k') + (if w == s && k' == k then 1 else 0)
    {
      if w == s {
        if s in t.members {
          assert multiset(r.members[w]) == multiset(t.members[w]) + multiset{k};
        } else {
          assert multiset(r.members[w]) == multiset{k};
        }
      } else if w in t.members {
        assert r.members[w] == t.members[w];
      }
    }
  }

  lemma {:induction false} AddTerminalsCount(t: NodeTable, k: nat, ps: seq<Point>, n: nat)
    requires n <= |ps|
    ensures forall w, k': nat :: Count(AddTerminals(t, k, ps, n), w, k') ==
              Count(t, w, k') + (if k' == k then HitsUpTo(ps, n, w) else 0)
    decreases n, 1
  {
    if n > 0 {
      AddTerminalsCountNext(t, k, ps, n);
    }
  }

  lemma {:induction false} AddTerminalsCountNext(t: NodeTable, k: nat, ps: seq<Point>, n: nat)
    requires 0 < n <= |ps|
    ensures forall w, k': nat :: Count(AddTerminals(t, k, ps, n), w, k') ==
              Count(t, w, k') + (if k' == k then HitsUpTo(ps, n, w) else 0)
    decreases n, 0
  {
    var u := AddTerminals(t, k, ps, n - 1);
    AddTerminalsCount(t, k, ps, n - 1);
    AddTerminalsNext(t, k, ps, n - 1);
    AttachCount(u, NodeToStr(ps[n - 1]), k);
  }

  /** Element `k` is listed under key `w` once per terminal of it at `w`, and
      nothing else is listed. */
  lemma {:induction false} TableCount(placed: seq<Element>)
    ensures forall w, k: nat :: Count(Nodes(placed), w, k) == (if k < |placed| then Hits(placed[k], w) else 0)
  {
    if |placed| > 0 {
      var k := |placed| - 1;
      var ps := GetNodes(placed[k]);
      TableCount(placed[..k]);
      TableAppend(placed, k);
      AddTerminalsCount(Nodes(placed[..k]), k, ps, |ps|);
    }
  }

  /** A key is in the table exactly when some placed element has a terminal
      there, and under it are exactly the elements with a terminal there. */
  lemma {:induction false} TableKeys(placed: seq<Element>)
    ensures forall w :: w in Nodes(placed).keys <==> exists k :: 0 <= k < |placed| && Hits(placed[k], w) > 0
    ensures forall w, k :: w in Nodes(placed).members && 0 <= k < |placed| ==>
              (k in Nodes(placed).members[w] <==> Hits(placed[k], w) > 0)
  {
    var t := Nodes(placed);
    TableCount(placed);
    TableFacts(placed);
    TableNonEmpty(placed);
    forall w | w in t.keys
      ensures exists k :: 0 <= k < |placed| && Hits(placed[k], w) > 0
    {
      var k := t.members[w][0];
      assert Count(t, w, k) > 0;
    }
    forall w | exists k :: 0 <= k < |placed| && Hits(placed[k], w) > 0
      ensures w in t.keys
    {
      var k :| 0 <= k < |placed| && Hits(placed[k], w) > 0;
      assert Count(t, w, k) > 0;
    }
  }

  /** Every entry of the table lists at least one element. */
  lemma {:induction false} TableNonEmpty(placed: seq<Element>)
    ensures forall w :: w in Nodes(placed).members ==> |Nodes(placed).members[w]| > 0
  {
    if |placed| > 0 {
      var k := |placed| - 1;
      var ps := GetNodes(placed[k]);
      TableNonEmpty(placed[..k]);
      TableAppend(placed, k);
      AddTerminalsNonEmpty(Nodes(placed[..k]), k, ps, |ps|);
    }
  }

  lemma {:induction false} AddTerminalsNonEmpty(t: NodeTable, k: nat, ps: seq<Point>, n: nat)
    requires n <= |ps|
    requires forall w :: w in t.members ==> |t.members[w]| > 0
    ensures forall w :: w in AddTerminals(t, k, ps, n).members ==> |AddTerminals(t, k, ps, n).members[w]| > 0
  {
    if n > 0 {
      AddTerminalsNonEmpty(t, k, ps, n - 1);
      AddTerminalsNext(t, k, ps, n - 1);
    }
  }

  /** The elements under a key are listed in increasing index order (an
      element whose two terminals coincide twice in a row). */
  lemma {:induction false} TableSorted(placed: seq<Element>)
    ensures forall w :: w in Nodes(placed).members ==>
              forall i, j :: 0 <= i < j < |Nodes(placed).members[w]| ==>
                Nodes(placed).members[w][i] <= Nodes(placed).members[w][j]
  {
    if |placed| > 0 {
      var k := |placed| - 1;
      var ps := GetNodes(placed[k]);
      TableSorted(placed[..k]);
      TableFacts(placed[..k]);
      TableAppend(placed, k);
      AddTerminalsSorted(Nodes(placed[..k]), k, ps, |ps|);
    }
  }

  ghost predicate SortedUpTo(t: NodeTable, k: nat)
  {
    forall w :: w in t.members ==>
      (forall i :: 0 <= i < |t.members[w]| ==> t.members[w][i] <= k)
      && forall i, j :: 0 <= i < j < |t.members[w]| ==> t.members[w][i] <= t.members[w][j]
  }

  lemma {:induction false} AddTerminalsSorted(t: NodeTable, k: nat, ps: seq<Point>, n: nat)
    requires n <= |ps| && TableOver(t, k)
    requires forall w :: w in t.members ==>
               forall i, j :: 0 <= i < j < |t.members[w]| ==> t.members[w][i] <= t.members[w][j]
    ensures SortedUpTo(AddTerminals(t, k, ps, n), k)
    decreases n, 1
  {
    if n > 0 {
      AddTerminalsSortedNext(t, k, ps, n);
    }
  }

  lemma {:induction false} AddTerminalsSortedNext(t: NodeTable, k: nat, ps: seq<Point>, n: nat)
    requires 0 < n <= |ps| && TableOver(t, k)
    requires forall w :: w in t.members ==>
               forall i, j :: 0 <= i < j < |t.members[w]| ==> t.members[w][i] <= t.members[w][j]
    ensures SortedUpTo(AddTerminals(t, k, ps, n), k)
    decreases n, 0
  {
    var u := AddTerminals(t, k, ps, n - 1);
    AddTerminalsSorted(t, k, ps, n - 1);
    AddTerminalsNext(t, k, ps, n - 1);
    AttachSorted(u, NodeToStr(ps[n - 1]), k);
  }

  lemma {:induction false} AttachSorted(t: NodeTable, s: string, k: nat)
    requires SortedUpTo(t, k)
    ensures SortedUpTo(Attach(t, s, k), k)
  {
    var r := Attach(t, s, k);
    forall w | w in r.members && w != s
      ensures r.members[w] == t.members[w]
    {
    }
  }

  // When the meter is connected.

  /** Some placed object has a terminal at `p`. */
  ghost predicate OnTerminal(objects: seq<Element>, p: Point)
  {
    exists e, j :: e in objects && IsPlaced(e) && 0 <= j < |GetNodes(e)| && GetNodes(e)[j] == p
  }

  /** The node containing a position is in the table exactly when some
      placed object has a terminal at that position. */
  lemma {:induction false} KeyIff(objects: seq<Element>, p: Point)
    ensures NodeToStr(p) in Nodes(Placed(objects)).keys <==> OnTerminal(objects, p)
  {
    var placed := Placed(objects);
    PlacedMembers(objects);
    TableKeys(placed);
    if NodeToStr(p) in Nodes(placed).keys {
      var k :| 0 <= k < |placed| && Hits(placed[k], NodeToStr(p)) > 0;
      HitToTerminal(objects, placed, k, p);
    }
    if OnTerminal(objects, p) {
      var e, j :| e in objects && IsPlaced(e) && 0 <= j < |GetNodes(e)| && GetNodes(e)[j] == p;
      assert e in placed;
      var k :| 0 <= k < |placed| && placed[k] == e;
      HitsUpToPositive(GetNodes(e), |GetNodes(e)|, NodeToStr(p));
    }
  }

  lemma {:induction false} HitToTerminal(objects: seq<Element>, placed: seq<Element>, k: nat, p: Point)
    requires forall e :: e in placed <==> e in objects && IsGraphElement(e) && !e.Lead?
    requires k < |placed| && Hits(placed[k], NodeToStr(p)) > 0
    ensures OnTerminal(objects, p)
  {
    var ps := GetNodes(placed[k]);
    HitsUpToPositive(ps, |ps|, NodeToStr(p));
    var j :| 0 <= j < |ps| && NodeToStr(ps[j]) == NodeToStr(p);
    NodeToStrInjective(ps[j], p);
    assert placed[k] in placed;
  }

  /** The meter is connected exactly when both leads lie on terminals of
      placed objects, or the two leads lie on the same position. */
  lemma {:induction false} ConnectedIff(objects: seq<Element>, red: Point, black: Point)
    ensures Connected(Nodes(Placed(objects)), red, black) <==>
              (OnTerminal(objects, red) && OnTerminal(objects, black)) || red == black
  {
    KeyIff(objects, red);
    KeyIff(objects, black);
    NodeToStrInjective(red, black);
  }

  // The equations.

  /** `new AffineExpression([1, -1], [a, b], c)` for two different names. */
  lemma {:induction false} PairFacts(a: Name, b: Name, c: real)
    requires a != b
    ensures var e := New([1.0, -1.0], [a, b], c);
      && e.constant == c
      && (forall w :: Mentions(e, w) <==> w == a || w == b)
      && GetCoefficient(e, a) == 1.0 && GetCoefficient(e, b) == -1.0
  {
    var cs, vs := [1.0, -1.0], [a, b];
    NewFacts(cs, vs, c);
    NewDistinct(cs, vs, c);
    assert !NearZero(cs[0]) && !NearZero(cs[1]);
    assert vs[0] == a && vs[1] == b;
  }

  /** `new AffineExpression([1, -1], [a, a], c)`: the second write wins. */
  lemma {:induction false} SamePairFacts(a: Name, c: real)
    ensures var e := New([1.0, -1.0], [a, a], c);
      && e.constant == c
      && (forall w :: Mentions(e, w) <==> w == a)
      && GetCoefficient(e, a) == -1.0
  {
    var cs, vs := [1.0, -1.0], [a, a];
    var e := New(cs, vs, c);
    NewFacts(cs, vs, c);
    assert !NearZero(cs[0]) && !NearZero(cs[1]);
    assert Mentions(e, a);
    var i :| 0 <= i < 2 && vs[i] == a && GetCoefficient(e, a) == cs[i]
               && forall j :: i < j < 2 && vs[j] == a ==> NearZero(cs[j]);
    assert i == 1;
  }

  /** The shape of a resistor's equation `a - b - r i = 0` over three
      different names; the current drops out when `r` is near zero. */
  ghost predicate ResistorShape(e: AffineExpression, a: Name, b: Name, i: Name, r: real)
  {
    && e.constant == 0.0
    && (forall w :: Mentions(e, w) <==> w == a || w == b || (w == i && !NearZero(r)))
    && GetCoefficient(e, a) == 1.0 && GetCoefficient(e, b) == -1.0
    && GetCoefficient(e, i) == (if NearZero(r) then 0.0 else -r)
  }

  /** `new AffineExpression([1, -1, -r], [a, b, i], 0)` for three different
      names has the resistor shape. */
  lemma {:induction false} TripleFacts(a: Name, b: Name, i: Name, r: real)
    requires a != b && a != i && b != i
    ensures ResistorShape(New([1.0, -1.0, -r], [a, b, i], 0.0), a, b, i, r)
  {
    var cs, vs := [1.0, -1.0, -r], [a, b, i];
    NewFacts(cs, vs, 0.0);
    NewDistinct(cs, vs, 0.0);
    assert !NearZero(cs[0]) && !NearZero(cs[1]) && (NearZero(cs[2]) <==> NearZero(r));
    assert vs[0] == a && vs[1] == b && vs[2] == i;
  }

  /** A resistor's equation `v0 - v1 - R i = 0` over its two terminal
      voltages and its own current. */
  lemma {:induction false} ResistorEquation(e: Element, k: nat)
    requires e.Resistor? && IsPlaced(e)
    ensures ResistorShape(ElementEquation(e, k), VoltageVariable(GetNodes(e)[0]),
                          VoltageVariable(GetNodes(e)[1]), CurrentVariable(k), e.value)
  {
    var p0, p1 := GetNodes(e)[0], GetNodes(e)[1];
    var v0, v1, i := VoltageVariable(p0), VoltageVariable(p1), CurrentVariable(k);
    SourceTerminalsReversed(e.xpos, e.ypos, e.value, e.value);
    DistinctNames(p0, p1, k);
    ResistorLaw(e, k, v0, v1, i);
    TripleFacts(v0, v1, i, e.value);
  }

  lemma {:induction false} ResistorLaw(e: Element, k: nat, v0: Name, v1: Name, i: Name)
    requires e.Resistor? && IsPlaced(e)
    requires v0 == VoltageVariable(GetNodes(e)[0]) && v1 == VoltageVariable(GetNodes(e)[1]) && i == CurrentVariable(k)
    ensures ElementEquation(e, k) == New([1.0, -1.0, -e.value], [v0, v1, i], 0.0)
  {
  }

  lemma {:induction false} DistinctNames(p0: Point, p1: Point, k: nat)
    requires p0 != p1
    ensures VoltageVariable(p0) != VoltageVariable(p1)
    ensures VoltageVariable(p0) != CurrentVariable(k) && VoltageVariable(p1) != CurrentVariable(k)
  {
    VoltageVariableInjective(p0, p1);
    NamesDisjoint(p0, k);
    NamesDisjoint(p1, k);
  }

  /** A wire's equation `v0 - v1 = 0`; when both ends lie on one position
      the second write leaves `-v0 = 0`. */
  lemma {:induction false} WireEquation(e: Element, k: nat)
    requires e.Wire?
    ensures var eq := ElementEquation(e, k);
      var v0, v1 := VoltageVariable(GetNodes(e)[0]), VoltageVariable(GetNodes(e)[1]);
      && eq.constant == 0.0
      && (GetNodes(e)[0] != GetNodes(e)[1] ==>
            (forall w :: Mentions(eq, w) <==> w == v0 || w == v1)
            && GetCoefficient(eq, v0) == 1.0 && GetCoefficient(eq, v1) == -1.0)
      && (GetNodes(e)[0] == GetNodes(e)[1] ==>
            (forall w :: Mentions(eq, w) <==> w == v0) && GetCoefficient(eq, v0) == -1.0)
  {
    var p0, p1 := GetNodes(e)[0], GetNodes(e)[1];
    VoltageVariableInjective(p0, p1);
    if p0 == p1 {
      SamePairFacts(VoltageVariable(p0), 0.0);
    } else {
      PairFacts(VoltageVariable(p0), VoltageVariable(p1), 0.0);
    }
  }

  /** A source's equation `v0 - v1 + V = 0`: terminal 0 is the lower one. */
  lemma {:induction false} SourceEquation(e: Element, k: nat)
    requires e.VoltageSource? && IsPlaced(e)
    ensures var eq := ElementEquation(e, k);
      var v0, v1 := VoltageVariable(GetNodes(e)[0]), VoltageVariable(GetNodes(e)[1]);
      && eq.constant == e.value
      && (forall w :: Mentions(eq, w) <==> w == v0 || w == v1)
      && GetCoefficient(eq, v0) == 1.0 && GetCoefficient(eq, v1) == -1.0
  {
    var p0, p1 := GetNodes(e)[0], GetNodes(e)[1];
    SourceTerminalsReversed(e.xpos, e.ypos, e.value, e.value);
    VoltageVariableInjective(p0, p1);
    PairFacts(VoltageVariable(p0), VoltageVariable(p1), e.value);
  }

  /** The ground equation `v[black] = 0`. */
  lemma {:induction false} GroundEquation(black: Point)
    ensures (forall w :: Mentions(Ground(black), w) <==> w == VoltageVariable(black))
      && GetCoefficient(Ground(black), VoltageVariable(black)) == 1.0
      && Ground(black).constant == 0.0
  {
    var cs, vs := [1.0], [VoltageVariable(black)];
    NewFacts(cs, vs, 0.0);
    assert !NearZero(cs[0]);
    assert Mentions(Ground(black), vs[0]);
  }

  /** The KCL equation of a node: the sum over the listed elements of their
      oriented currents is zero; a current listed twice keeps one
      coefficient, since the orientation depends only on the element. */
  lemma {:induction false} KclFacts(placed: seq<Element>, s: string, ks: seq<nat>)
    requires forall i :: 0 <= i < |ks| ==> ks[i] < |placed| && IsPlaced(placed[ks[i]])
    ensures Kcl(placed, s, ks).constant == 0.0
    ensures forall w :: Mentions(Kcl(placed, s, ks), w) <==> exists i :: 0 <= i < |ks| && w == CurrentVariable(ks[i])
    ensures forall i :: 0 <= i < |ks| ==>
              GetCoefficient(Kcl(placed, s, ks), CurrentVariable(ks[i])) == Orientation(placed[ks[i]], s)
  {
    var cs, vs := Orientations(placed, s, ks), Currents(ks);
    var e := Kcl(placed, s, ks);
    NewFacts(cs, vs, 0.0);
    assert forall i :: 0 <= i < |ks| ==> !NearZero(cs[i]);
    forall i | 0 <= i < |ks|
      ensures GetCoefficient(e, CurrentVariable(ks[i])) == Orientation(placed[ks[i]], s)
    {
      assert vs[i] == CurrentVariable(ks[i]);
      var m :| 0 <= m < |vs| && vs[m] == CurrentVariable(ks[i]) && GetCoefficient(e, CurrentVariable(ks[i])) == cs[m];
      CurrentVariableInjective(ks[m], ks[i]);
    }
  }

  /** The KCL equation generated for the `n`-th node key `s`: it mentions
      exactly the currents of the elements with a terminal at `s`, with
      coefficient 1 when that is the element's terminal 0 and -1 otherwise. */
  lemma {:induction false} KclAtNode(placed: seq<Element>, n: nat)
    requires forall k :: 0 <= k < |placed| ==> IsPlaced(placed[k])
    requires n < |Nodes(placed).keys|
    ensures TableOver(Nodes(placed), |placed|)
    ensures var s := Nodes(placed).keys[n]; var eq := KclEquations(placed, Nodes(placed))[n];
      && eq.constant == 0.0
      && (forall w :: Mentions(eq, w) <==>
            exists k :: 0 <= k < |placed| && Hits(placed[k], s) > 0 && w == CurrentVariable(k))
      && (forall k :: 0 <= k < |placed| && Hits(placed[k], s) > 0 ==>
            GetCoefficient(eq, CurrentVariable(k)) ==
              if NodeToStr(GetNodes(placed[k])[0]) == s then 1.0 else -1.0)
  {
    var t := Nodes(placed);
    TableFacts(placed);
    TableKeys(placed);
    var s := t.keys[n];
    var ks := t.members[s];
    KclFacts(placed, s, ks);
    assert KclEquations(placed, t)[n] == Kcl(placed, s, ks);
    forall k | 0 <= k < |placed| && Hits(placed[k], s) > 0
      ensures exists i :: 0 <= i < |ks| && ks[i] == k
    {
      assert k in ks;
    }
  }

  /** The generated system: one KCL equation per node key in key order, one
      constitutive equation per placed element in list order, and last the
      ground equation. */
  lemma {:induction false} SystemLayout(placed: seq<Element>, t: NodeTable, black: Point)
    requires TableOver(t, |placed|) && forall k :: 0 <= k < |placed| ==> IsPlaced(placed[k])
    ensures |System(placed, t, black)| == |t.keys| + |placed| + 1
    ensures System(placed, t, black)[..|t.keys|] == KclEquations(placed, t)
    ensures System(placed, t, black)[|t.keys|..|t.keys| + |placed|] == ElementEquations(placed)
    ensures System(placed, t, black)[|t.keys| + |placed|] == Ground(black)
  {
    Parts(KclEquations(placed, t), ElementEquations(placed), Ground(black));
  }

  lemma {:induction false} Parts<T>(a: seq<T>, b: seq<T>, x: T)
    ensures |a + b + [x]| == |a| + |b| + 1
    ensures (a + b + [x])[..|a|] == a
    ensures (a + b + [x])[|a|..|a| + |b|] == b
    ensures (a + b + [x])[|a| + |b|] == x
  {
    assert (a + b + [x])[..|a|] == a;
    assert (a + b + [x])[|a|..|a| + |b|] == b;
  }

  // The reading.

  /** What the meter shows.  Unconnected leads read "floating" without
      solving; otherwise the reading is "short circuit?" exactly when the
      elimination meets a contradictory equation, and otherwise a voltage `v`
      exactly when the red lead's voltage unknown was eliminated and back
      substitution left it the constant `v`, and "floating" in every other
      case. */
  lemma {:induction false} ReadingFacts(objects: seq<Element>, red: Point, black: Point)
    ensures !Connected(Nodes(Placed(objects)), red, black) ==> Simulate(objects, red, black) == Floating
    ensures Connected(Nodes(Placed(objects)), red, black) ==>
              var f := ForwardPass(Equations(objects, black));
              && (Simulate(objects, red, black) == ShortCircuit <==>
                    exists k :: 0 <= k < |f.seen| && Contradiction(f.seen[k]))
              && (forall v :: Simulate(objects, red, black) == Voltage(v) <==>
                    (forall k :: 0 <= k < |f.seen| ==> !Contradiction(f.seen[k]))
                    && exists k :: 0 <= k < |f.pivots| && f.pivots[k] == VoltageVariable(red)
                                   && ValueOf(Back(f.pivots, f.exprs, 0)[k]) == Known(v))
  {
    SolvedReading(Equations(objects, black), red);
  }

  /** The reading of the solver's outcome for any valid system. */
  lemma {:induction false} SolvedReading(sys: seq<AffineExpression>, red: Point)
    requires AllValid(sys)
    ensures var f := ForwardPass(sys);
      && (Reading(Solve(sys), red) == ShortCircuit <==>
            exists k :: 0 <= k < |f.seen| && Contradiction(f.seen[k]))
      && (forall v :: Reading(Solve(sys), red) == Voltage(v) <==>
            (forall k :: 0 <= k < |f.seen| ==> !Contradiction(f.seen[k]))
            && exists k :: 0 <= k < |f.pivots| && f.pivots[k] == VoltageVariable(red)
                           && ValueOf(Back(f.pivots, f.exprs, 0)[k]) == Known(v))
  {
    var f := ForwardPass(sys);
    InconsistentIff(sys);
    if f.consistent {
      SolutionFacts(sys);
      PivotFacts(sys);
      ReadingSolved(f.pivots, Back(f.pivots, f.exprs, 0), Solve(sys).values, VoltageVariable(red));
    }
  }

  /** The value found for a distinct pivot is the value of its expression. */
  lemma {:induction false} ReadingSolved(vs: seq<Name>, bs: seq<AffineExpression>, values: map<Name, Value>, key: Name)
    requires |vs| <= |bs| && Distinct(vs)
    requires forall w :: w in values <==> w in vs
    requires forall k :: 0 <= k < |vs| ==> values[vs[k]] == ValueOf(bs[k])
    ensures forall v :: (key in values && values[key] == Known(v)) <==>
              exists k :: 0 <= k < |vs| && vs[k] == key && ValueOf(bs[k]) == Known(v)
  {
    forall v | key in values && values[key] == Known(v)
      ensures exists k :: 0 <= k < |vs| && vs[k] == key && ValueOf(bs[k]) == Known(v)
    {
      var k :| 0 <= k < |vs| && vs[k] == key;
    }
  }
}
