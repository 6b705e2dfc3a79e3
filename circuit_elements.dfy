/** The circuit elements of the drawing and the names the simulator gives to
    its unknowns.

    Every object on the canvas is a resistor, a voltage source, a wire or one
    of the two meter leads.  An element's terminals ("nodes" in the original)
    are canvas positions; two terminals are connected exactly when they lie on
    the same position.  Voltage unknowns are named after a position,
    `v[x,y]`, current unknowns after the index of an element among the placed
    ones, `i[k]`. */
module CircuitElements {

  /** A canvas position in whole pixels. */
  datatype Point = Point(x: int, y: int)

  /** The four kinds of canvas object.  A template is one of the two palette
      entries the user drags new resistors and sources from. */
  datatype Element =
    | Resistor(xpos: int, ypos: int, value: real, isTemplate: bool)
    | VoltageSource(xpos: int, ypos: int, value: real, isTemplate: bool)
    | Wire(x1: int, y1: int, x2: int, y2: int)
    | Lead(xpos: int, ypos: int, black: bool)

  /** getType. */
  function GetType(e: Element): string
  {
    match e
    case Resistor(_, _, _, _) => "resistor"
    case VoltageSource(_, _, _, _) => "voltagesource"
    case Wire(_, _, _, _) => "wire"
    case Lead(_, _, _) => "lead"
  }

  /** getValue, which only resistors (ohms) and sources (volts) have. */
  function GetValue(e: Element): real
    requires e.Resistor? || e.VoltageSource?
  {
    e.value
  }

  /** isGraphElement: everything except the two palette templates. */
  function IsGraphElement(e: Element): bool
  {
    match e
    case Resistor(_, _, _, template) => !template
    case VoltageSource(_, _, _, template) => !template
    case Wire(_, _, _, _) => true
    case Lead(_, _, _) => true
  }

  /** getNodes: the terminals of an element, in the order the simulator
      orients currents by (terminal 0 first). */
  function GetNodes(e: Element): seq<Point>
  {
    match e
    case Resistor(x, y, _, template) =>
      if template then [] else [Point(x + 30, y), Point(x + 30, y + 60)]
    case VoltageSource(x, y, _, template) =>
      if template then [] else [Point(x + 30, y + 60), Point(x + 30, y)]
    case Wire(x1, y1, x2, y2) => [Point(x1, y1), Point(x2, y2)]
    case Lead(x, y, _) => [Point(x, y)]
  }

  /** The kind test the simulator dispatches on tells the kinds apart. */
  lemma {:induction false} TypesDistinct(a: Element, b: Element)
    ensures GetType(a) == GetType(b) <==>
              (a.Resistor? && b.Resistor?) || (a.VoltageSource? && b.VoltageSource?)
              || (a.Wire? && b.Wire?) || (a.Lead? && b.Lead?)
  {
    assert GetType(a)[0] == GetType(b)[0] ==> GetType(a) == GetType(b);
  }

  /** An element has terminals exactly when it is a graph element: a lead has
      one, every other graph element two, a template none. */
  lemma {:induction false} TerminalCount(e: Element)
    ensures IsGraphElement(e) <==> |GetNodes(e)| > 0
    ensures |GetNodes(e)| == (if e.Lead? then 1 else if IsGraphElement(e) then 2 else 0)
  {
  }

  /** A placed source has the terminals of a resistor at the same position,
      in the opposite order, and neither kind joins its two terminals. */
  lemma {:induction false} SourceTerminalsReversed(x: int, y: int, r: real, v: real)
    ensures GetNodes(VoltageSource(x, y, v, false))[0] == GetNodes(Resistor(x, y, r, false))[1]
    ensures GetNodes(VoltageSource(x, y, v, false))[1] == GetNodes(Resistor(x, y, r, false))[0]
    ensures GetNodes(Resistor(x, y, r, false))[0] != GetNodes(Resistor(x, y, r, false))[1]
  {
  }

  // Decimal rendering of whole numbers, as `String(n)` writes them.

  predicate IsDigit(c: char)
  {
    '0' <= c <= '9'
  }

  predicate AllDigits(s: string)
  {
    forall i :: 0 <= i < |s| ==> IsDigit(s[i])
  }

  function DigitChar(d: nat): (c: char)
    requires d < 10
  {
    (d + '0' as int) as char
  }

  /** The decimal digits of `n`, most significant first, without leading zeros. */
  function NatToString(n: nat): (s: string)
    ensures |s| > 0
    decreases n
  {
    if n < 10 then [DigitChar(n)]
    else NatToString(n / 10) + [DigitChar(n % 10)]
  }

  /** `String(n)` for an integer: a minus sign before the digits of a
      negative number. */
  function IntToString(n: int): (s: string)
    ensures |s| > 0
  {
    (if n < 0 then "-" else "") + NatToString(if n < 0 then -n else n)
  }

  /** Reads a string of decimal digits. */
  function ParseNat(s: string): nat
    requires AllDigits(s)
  {
    if |s| == 0 then 0
    else ParseNat(s[..|s| - 1]) * 10 + (s[|s| - 1] as int - '0' as int)
  }

  function ParseInt(s: string): int
    requires |s| > 0
    requires if s[0] == '-' then AllDigits(s[1..]) else AllDigits(s)
  {
    if s[0] == '-' then -(ParseNat(s[1..]) as int) else ParseNat(s)
  }

  /** The rendering of a natural number is all digits, and reading it back
      gives the number. */
  lemma {:induction false} NatToStringRoundTrip(n: nat)
    ensures AllDigits(NatToString(n)) && ParseNat(NatToString(n)) == n
    decreases n
  {
    var s := NatToString(n);
    if n < 10 {
      assert s[..0] == [];
    } else {
      NatToStringRoundTrip(n / 10);
      assert s[..|s| - 1] == NatToString(n / 10);
    }
    assert IsDigit(s[|s| - 1]);
  }

  /** Reading back the rendering of an integer gives the integer, and the
      rendering holds no comma. */
  lemma {:induction false} IntToStringRoundTrip(n: int)
    ensures ',' !in IntToString(n)
    ensures IntToString(n)[0] == '-' ==> AllDigits(IntToString(n)[1..])
    ensures IntToString(n)[0] != '-' ==> AllDigits(IntToString(n))
    ensures ParseInt(IntToString(n)) == n
  {
    if n < 0 {
      NegativeRoundTrip(n);
    } else {
      assert IntToString(n) == NatToString(n);
      NatToStringRoundTrip(n);
      DigitsNoComma(NatToString(n));
    }
  }

  lemma {:induction false} NegativeRoundTrip(n: int)
    requires n < 0
    ensures IntToString(n)[0] == '-' && IntToString(n)[1..] == NatToString(-n)
    ensures AllDigits(IntToString(n)[1..]) && ',' !in IntToString(n)
    ensures ParseInt(IntToString(n)) == n
  {
    assert IntToString(n) == "-" + NatToString(-n);
    assert IntToString(n)[1..] == NatToString(-n);
    NatToStringRoundTrip(-n);
    DigitsNoComma(NatToString(-n));
  }

  lemma {:induction false} DigitsNoComma(s: string)
    requires AllDigits(s)
    ensures ',' !in s
  {
    forall i | 0 <= i < |s|
      ensures s[i] != ','
    {
      assert IsDigit(s[i]);
    }
  }

  /** nodeToStr: the key of a position, `x,y`. */
  function NodeToStr(p: Point): string
  {
    IntToString(p.x) + "," + IntToString(p.y)
  }

  /** The index of the first comma of `s`, or `|s|` when there is none. */
  function CommaIndex(s: string): (i: nat)
    ensures i <= |s| && ',' !in s[..i] && (i < |s| ==> s[i] == ',')
  {
    if |s| == 0 then 0
    else if s[0] == ',' then 0
    else
      var i := CommaIndex(s[1..]);
      assert s[..i + 1] == [s[0]] + s[1..][..i];
      i + 1
  }

  lemma {:induction false} CommaIndexOf(a: string, b: string)
    requires ',' !in a
    ensures CommaIndex(a + "," + b) == |a|
  {
    if |a| > 0 {
      CommaIndexOf(a[1..], b);
      assert (a + "," + b)[1..] == a[1..] + "," + b;
    }
  }

  /** The two integers of a key of the form `x,y`. */
  function ParseNode(s: string): Point
    requires var i := CommaIndex(s);
      && 0 < i < |s| - 1
      && (if s[0] == '-' then AllDigits(s[1..i]) else AllDigits(s[..i]))
      && (if s[i + 1] == '-' then AllDigits(s[i + 2..]) else AllDigits(s[i + 1..]))
  {
    var i := CommaIndex(s);
    Point(ParseInt(s[..i]), ParseInt(s[i + 1..]))
  }

  /** A node key determines its position: reading it back gives the position. */
  lemma {:induction false} NodeToStrRoundTrip(p: Point)
    ensures var s := NodeToStr(p); var i := CommaIndex(s);
      && 0 < i < |s| - 1
      && (if s[0] == '-' then AllDigits(s[1..i]) else AllDigits(s[..i]))
      && (if s[i + 1] == '-' then AllDigits(s[i + 2..]) else AllDigits(s[i + 1..]))
      && ParseNode(s) == p
  {
    var a, b := IntToString(p.x), IntToString(p.y);
    IntToStringRoundTrip(p.x);
    IntToStringRoundTrip(p.y);
    SplitKey(a, b);
  }

  /** The parts of `a,b` when `a` holds no comma. */
  lemma {:induction false} SplitKey(a: string, b: string)
    requires ',' !in a && |a| > 0 && |b| > 0
    ensures var s := a + "," + b;
      && CommaIndex(s) == |a| && |s| == |a| + |b| + 1
      && s[..|a|] == a && s[|a| + 1..] == b && s[0] == a[0] && s[1..|a|] == a[1..]
      && s[|a| + 1] == b[0] && s[|a| + 2..] == b[1..]
  {
    CommaIndexOf(a, b);
    var s := a + "," + b;
    assert s[..|a|] == a && s[|a| + 1..] == b;
    assert s[1..|a|] == a[1..] && s[|a| + 2..] == b[1..];
  }

  /** Two positions share a node key exactly when they are equal. */
  lemma {:induction false} NodeToStrInjective(p: Point, q: Point)
    ensures NodeToStr(p) == NodeToStr(q) <==> p == q
  {
    NodeToStrRoundTrip(p);
    NodeToStrRoundTrip(q);
  }

  /** voltageVariable: the unknown for the voltage at a position. */
  function VoltageVariable(p: Point): string
  {
    "v[" + NodeToStr(p) + "]"
  }

  /** The unknown for the current through the placed element with index `k`,
      `'i[' + k + ']'`. */
  function CurrentVariable(k: nat): string
  {
    "i[" + NatToString(k) + "]"
  }

  lemma {:induction false} VoltageVariableInjective(p: Point, q: Point)
    ensures VoltageVariable(p) == VoltageVariable(q) <==> p == q
  {
    var a, b := VoltageVariable(p), VoltageVariable(q);
    if a == b {
      assert a[2..|a| - 1] == NodeToStr(p) && b[2..|b| - 1] == NodeToStr(q);
      NodeToStrInjective(p, q);
    }
  }

  lemma {:induction false} CurrentVariableInjective(j: nat, k: nat)
    ensures CurrentVariable(j) == CurrentVariable(k) <==> j == k
  {
    var a, b := CurrentVariable(j), CurrentVariable(k);
    if a == b {
      assert a[2..|a| - 1] == NatToString(j) && b[2..|b| - 1] == NatToString(k);
      NatToStringRoundTrip(j);
      NatToStringRoundTrip(k);
    }
  }

  /** No voltage unknown is a current unknown. */
  lemma {:induction false} NamesDisjoint(p: Point, k: nat)
    ensures VoltageVariable(p) != CurrentVariable(k)
  {
    assert VoltageVariable(p)[0] != CurrentVariable(k)[0];
  }
}
