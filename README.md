# Maxwell circuit simulator: the solver and the circuit-to-equations translation

Maxwell is a JavaScript program. The user draws resistors, voltage sources and
wires on a canvas, places two meter leads, and reads the DC voltage at the red
lead relative to the black one. This project models, and proves properties
of, the two parts that carry its logic:

- **The symbolic linear solver.** This is `linearsystem.js`.
  - An `AffineExpression` is a sparse table from unknown names to
    coefficients, kept in insertion order, plus a constant. It stands for the
    equation `Σ cᵢ·vᵢ + c = 0`.
  - The constructor drops every coefficient whose magnitude is below `1e-9`.
  - `solveLinearSystem` runs forward elimination, taking the largest pivot of
    each equation in turn. It then back-substitutes in reverse order. The
    result is either "inconsistent" (the thrown error) or one value per pivot
    unknown: a number, or NaN when the unknown is underconstrained.
- **The translation of a drawing into equations.** This is `simulateCircuit`
  in `circ.js`, with the terminal rules of each element and the naming
  helpers.
  - Terminals are grouped into nodes when their positions are equal.
  - The program decides whether the leads are connected.
  - It emits one Kirchhoff-current-law (KCL) equation per node, one
    constitutive equation per element and one equation grounding the black
    lead.
  - It reads off the red lead's unknown as a voltage, "floating" or
    "short circuit?".

The files:

- `affine_expression.dfy`, module `AffineExpressions`.
  - A JavaScript object used as a dictionary is modelled as
    `Table(keys, values)`: the keys in insertion order plus a map.
  - The constructor is `New`. The expression operations are pure functions,
    each with a lemma stating what it computes.
- `linear_solver.dfy`, module `LinearSolver`.
  - The specification functions are `ForwardPass`, `Back`, `Extract` and
    `Solve`.
  - The imperative `SolveLinearSystem` works over an `array` of expressions.
    It rewrites later equations in place and builds `backVars` and
    `backExprs` as sequences. It is proved equal to `Solve`.
- `solver_properties.dfy`, module `SolverProperties`: what elimination
  guarantees. The pivots are distinct, no back expression mentions a pivot,
  and the cases in which the solver reports inconsistency or a solution are
  characterised.
- `circuit_elements.dfy`, module `CircuitElements`.
  - Elements and their terminal rules.
  - The decimal rendering of integers and the names `v[x,y]` and `i[k]`,
    with round-trip and injectivity proofs.
- `circuit_simulation.dfy`, module `CircuitSimulation`.
  - The node table, the lead test, the equations and the reading, each as a
    function.
  - The imperative loops of `simulateCircuit` as methods, each proved equal
    to those functions.
- `circuit_properties.dfy`, module `CircuitProperties`: what the
  translation guarantees about placed objects, nodes, connectivity, the
  shape of every equation and the meaning of the reading.

Inputs the program reads from globals and the page are parameters here:

- the object list and the two lead positions;
- the connected flag, which the program writes to the global
  `bBothLeadsConnected`, is returned as an out-parameter;
- the message printed to the page is the `Probe` value `Voltage(v)`,
  `Floating` or `ShortCircuit`.

Where a comment in the source and the code differ, the model follows the code:

- **Voltage source equation.** The comment at `circ.js:523` describes the
  source's equation as `v0 − v1 = V`, which is `v0 − v1 − V = 0`. The code
  builds the expression with constant `+V` (`circ.js:524-526`), which
  stands for `v0 − v1 + V = 0`. Terminal 0 of a source is its lower end
  (`circ.js:256`), so the code puts the upper terminal `V` above the lower
  one. `CircuitProperties.SourceEquation` states the code's form.

The model also keeps one behaviour of the code that its comments do not
mention:

- **Zero-length wires.** A mouse-down on a node pushes a new wire whose two
  ends are both that node (`circ.js:614-617`). Clicking a node without
  dragging leaves such a wire in the object list. The constructor lets a
  later write to a name overwrite an earlier one (`linearsystem.js:36`), so
  the wire's equation `[1, -1]` over the same name twice becomes `-v = 0`.
  That grounds the node. `CircuitProperties.WireEquation` states this form,
  and `CircuitProperties.KclAtNode` states that the wire's current enters
  its node's KCL equation once, with coefficient +1.

## Model

| member | source | states |
|---|---|---|
| AffineExpressions.NearZero | linearsystem.js:23-25 | a magnitude strictly below `1e-9`; the partner lemmas `StoredNotNearZero` and `NewFacts` state that no coefficient the constructor keeps is near zero |
| AffineExpressions.New | linearsystem.js:31-41 | the constructed expression keeps the constructor's invariant (well-formed table, no stored coefficient near zero, `empty` iff nothing stored) and the given constant |
| AffineExpressions.NewFacts | linearsystem.js:31-41 | `empty` holds iff every coefficient is near zero; a name is stored iff one of its coefficients is not near zero; a stored name holds its last such coefficient, every later one for that name being near zero |
| AffineExpressions.NewDistinct | linearsystem.js:34-39 | with distinct names, each name's coefficient is its own value, or 0 when that value is near zero |
| AffineExpressions.StoredWritten | linearsystem.js:34-39 | after n rounds of the loop, a name is stored exactly when one of its first n writes is not near zero |
| AffineExpressions.StoredLastWrite | linearsystem.js:34-39 | after n rounds of the loop, the stored value of a name is its last write that is not near zero |
| AffineExpressions.StoredNotNearZero | linearsystem.js:35-36 | no stored coefficient is near zero |
| AffineExpressions.StoredAny | linearsystem.js:33-38 | the `empty` flag is cleared exactly when some coefficient was stored, which is exactly when the table has a key |
| AffineExpressions.StoredWellFormed | linearsystem.js:32-39 | the table the loop builds has distinct keys, and its keys are exactly its entries |
| AffineExpressions.GetCoefficient | linearsystem.js:44-50 | an absent name reads as 0; a name present in a valid expression reads as a coefficient that is not near zero |
| AffineExpressions.IsScalar | linearsystem.js:73-75 | for a valid expression, `isScalar` (the `empty` flag) holds exactly when no name is stored |
| AffineExpressions.GetScalarValue | linearsystem.js:67-69 | the constant term; its partner `ScalarValue` states that this is the value of a scalar expression under every assignment |
| AffineExpressions.ScalarValue | linearsystem.js:67-75 | a valid scalar expression evaluates to `getScalarValue()` whatever values its names are given |
| AffineExpressions.PivotScan | linearsystem.js:56-63 | the scan returns no index only on an empty table; otherwise the chosen magnitude is at least every other, and every later one is strictly smaller (the `>=` tie-break keeps the last maximum) |
| AffineExpressions.LargestPivot | linearsystem.js:54-65 | the pivot is null exactly when the expression is scalar, and otherwise is a stored name |
| AffineExpressions.LargestPivotFacts | linearsystem.js:54-65 | the pivot's magnitude is at least that of every stored coefficient, and every key after it has a strictly smaller magnitude |
| AffineExpressions.SolveFor | linearsystem.js:79-90 | the result is a valid expression with constant `-c / c_v` |
| AffineExpressions.SolveForFacts | linearsystem.js:79-90 | the result never mentions `v`, mentions only names of the input, and gives every other name `w` the coefficient `-c_w / c_v`, pruned |
| AffineExpressions.WithoutFacts | linearsystem.js:100-106 | the copy loop keeps exactly the entries other than `v`, with their values, and changes nothing when `v` is absent |
| AffineExpressions.ScaledFacts | linearsystem.js:111-113 | the scaled table has the keys of `expr`, each value multiplied by the old coefficient of `v` |
| AffineExpressions.AddEntryFacts | linearsystem.js:110-114 | one round of the add loop adds to an existing key or creates a new one, and leaves every other key unchanged |
| AffineExpressions.AddAllFacts | linearsystem.js:109-115 | after the add loop, a key is present iff it came from either table; values present in both are summed, the others are kept |
| AffineExpressions.FromTableIsNew | linearsystem.js:118-124 | building `vars`/`coeffs` from a table's keys and values and calling the constructor is the table with its near-zero entries pruned, keys in order |
| AffineExpressions.KeptKeysFacts | linearsystem.js:118-124 | the pruned keys are exactly the keys whose value is not near zero, and stay distinct |
| AffineExpressions.Substitute | linearsystem.js:94-125 | the result is valid, with constant `c + c_v · expr.c` |
| AffineExpressions.SubstituteFacts | linearsystem.js:94-125 | every name `x` gets the coefficient `c_x + c_v · expr_x` (for `x = v` only `c_v · expr_x`), pruned; only names of `e` other than `v`, or names of `expr`, are mentioned |
| AffineExpressions.SubstituteMentions | linearsystem.js:100-115 | a name the result mentions is a name of `e` other than `v`, or a name of `expr` |
| AffineExpressions.SubstitutedKeysAbsent | linearsystem.js:97-124 | substituting a name the expression does not mention keeps its key order |
| AffineExpressions.SubstituteAbsent | linearsystem.js:97-124 | substituting a name the expression does not mention returns an expression equal to the original |
| LinearSolver.Pivot | linearsystem.js:160-161 | an equation is eliminated on exactly when it is not scalar; its pivot is stored with a coefficient that is not near zero |
| LinearSolver.SubstituteAll | linearsystem.js:169-171 | substitution into the remaining equations keeps their number and their validity |
| LinearSolver.ForwardPass | linearsystem.js:158-183 | the specification of the forward loop; its own contract states one entry per input equation and one valid solved expression per pivot; that it stops at the first contradiction, leaving the later equations as they were, is its definition, and `SolverProperties.InconsistentIff` characterises when that happens |
| LinearSolver.Back | linearsystem.js:185-189 | after the outer back-substitution loop has done indices `m..`, the entries below `m` are untouched |
| LinearSolver.SubstituteFrom | linearsystem.js:169-171 | the inner forward loop rewrites exactly `system[i+1..]` by substitution and leaves `system[..i+1]` unchanged |
| LinearSolver.ForwardEliminate | linearsystem.js:158-183 | the forward loop's flag, `backVars`, `backExprs` and the final array are those of `ForwardPass` |
| LinearSolver.EliminatePivot | linearsystem.js:161-171 | one pivot step pushes the pivot and its solved expression and substitutes it into every later equation |
| LinearSolver.SubstituteLater | linearsystem.js:186-188 | the inner back loop substitutes every later pivot's expression in ascending order |
| LinearSolver.BackSubstitute | linearsystem.js:185-189 | the nested back-substitution loops compute `Back` |
| LinearSolver.ReadSolution | linearsystem.js:191-200 | the read-out loop computes `Extract`: scalar back expressions give their value, others NaN |
| LinearSolver.ValueOf | linearsystem.js:193-198 | a scalar back expression gives its scalar value, any other NaN; the partner `SolverProperties.SolutionFacts` states this for every pivot |
| LinearSolver.Extract | linearsystem.js:191-200 | the `soln` object filled in `backVars` order; the partner `SolverProperties.ExtractFacts` states that its keys are exactly the pivots, each with the value of its own back expression |
| LinearSolver.Solve | linearsystem.js:153-203 | forward elimination, back substitution and read-out; the partners `SolverProperties.InconsistentIff` and `SolutionFacts` state when it throws and what each solved value is, and `SolveLinearSystem` is proved equal to it |
| LinearSolver.SolveLinearSystem | linearsystem.js:153-203 | the method returns `Solve` of the input system and leaves the array as forward elimination left it |
| SolverProperties.PivotFacts | linearsystem.js:158-171 | the pivots are pairwise distinct, and the expression solved at each step mentions neither its own pivot nor any earlier one |
| SolverProperties.ForwardAvoids | linearsystem.js:163-171 | a name no remaining equation mentions is never a pivot and never appears in a back expression |
| SolverProperties.SubstituteAllRemoves | linearsystem.js:169-171 | after a pivot is substituted away, no later equation mentions it |
| SolverProperties.SubstituteAllAvoids | linearsystem.js:169-171 | substitution never brings in a name that neither side mentions |
| SolverProperties.SubstFoldMentions | linearsystem.js:186-188 | a name left after the inner back loop was in the expression and substituted by none of the pivots, or came from one of their expressions |
| SolverProperties.BackFacts | linearsystem.js:185-189 | after back substitution no back expression mentions any pivot |
| SolverProperties.InconsistentIff | linearsystem.js:172-181 | elimination reports inconsistent exactly when some visited equation is scalar with a constant that is not near zero |
| SolverProperties.ExtractFacts | linearsystem.js:191-200 | the solution's keys are exactly the pivots; for distinct pivots each value is that of its own back expression |
| SolverProperties.SolutionFacts | linearsystem.js:191-200 | a consistent system yields a solution whose keys are exactly the pivots, each a number when its back expression is scalar and underconstrained otherwise |
| CircuitElements.GetType | circ.js:180-182 | the kind string of an element (also 246-248, 294-296, 106-108); the partner `TypesDistinct` states that it tells the four kinds apart |
| CircuitElements.GetValue | circ.js:183-185 | the resistance or the source voltage (also 249-251); the partners `CircuitProperties.ResistorEquation` and `SourceEquation` state where it enters the equations |
| CircuitElements.IsGraphElement | circ.js:196-198 | everything but a palette template (also 129-131, 262-264, 305-307); the partner `TerminalCount` states that it holds exactly for elements with terminals |
| CircuitElements.GetNodes | circ.js:186-192 | the terminals of an element (also 109-111, 252-258, 297-299); the partners `TerminalCount` and `SourceTerminalsReversed` state how many each kind has and how a source orders them |
| CircuitElements.TypesDistinct | circ.js:180-182 | the type strings `resistor` (here), `voltagesource` (246-248), `wire` (294-296) and `lead` (106-108) tell the four kinds apart |
| CircuitElements.TerminalCount | circ.js:186-198 | an element has terminals exactly when it is a graph element: two for a placed resistor (here), source (252-264) or wire (297-307), one for a lead (109-131), none for a template |
| CircuitElements.SourceTerminalsReversed | circ.js:252-258 | a source's terminals are those of a resistor at the same position (186-192) in the reverse order, and the two terminals of either differ |
| CircuitElements.NatToStringRoundTrip | circ.js:61-63 | the decimal rendering of a whole number is all digits and reads back as the number |
| CircuitElements.IntToStringRoundTrip | circ.js:61-63 | the rendering of an integer (minus sign, then digits) has no comma and reads back as the integer |
| CircuitElements.NodeToStr | circ.js:61-63 | the key `x,y` of a position; the partners `NodeToStrRoundTrip` and `NodeToStrInjective` state that the key reads back as the position and that different positions get different keys |
| CircuitElements.NodeToStrRoundTrip | circ.js:61-63 | a node key `x,y` splits at its comma into the two coordinates, which read back as the position |
| CircuitElements.NodeToStrInjective | circ.js:61-63 | two positions have the same node key exactly when they are equal |
| CircuitElements.VoltageVariable | circ.js:413-415 | the unknown `v[x,y]` of a position; the partner `VoltageVariableInjective` states that different positions get different unknowns |
| CircuitElements.CurrentVariable | circ.js:499 | the unknown `i[k]` of the element with index `k`; the partner `CurrentVariableInjective` states that different indices get different unknowns |
| CircuitElements.VoltageVariableInjective | circ.js:413-415 | two positions have the same voltage unknown exactly when they are equal |
| CircuitElements.CurrentVariableInjective | circ.js:499 | two element indices have the same current unknown exactly when they are equal |
| CircuitElements.NamesDisjoint | circ.js:413-415 | no voltage unknown is a current unknown |
| CircuitSimulation.IsPlaced | circ.js:452 | a placed object, a graph element that is not a lead, has two terminals |
| CircuitSimulation.Placed | circ.js:450-455 | every object of `placedObjects` is placed |
| CircuitSimulation.Nodes | circ.js:456-464 | the `nodes` dictionary of the placed elements; the partners `TableFacts`, `CircuitProperties.TableKeys`, `TableCount` and `TableSorted` state its keys and what each entry lists |
| CircuitSimulation.Connected | circ.js:466-479 | the value of `bBothLeadsConnected`; the partner `CircuitProperties.ConnectedIff` states it in terms of the placed terminals |
| CircuitSimulation.TableFacts | circ.js:456-464 | the node table has distinct keys, exactly its entries, each listing indices of placed elements |
| CircuitSimulation.BuildNodeTable | circ.js:450-465 | the first loop builds `placedObjects` and the node table of their terminals |
| CircuitSimulation.AddObjectTerminals | circ.js:456-464 | the terminal loop adds each terminal of one element to the node table in order |
| CircuitSimulation.Push | circ.js:460-463 | a missing entry is created empty, then the element is appended to it |
| CircuitSimulation.CheckLeads | circ.js:468-479 | the lead loop sets the connected flag exactly as the lead test says |
| CircuitSimulation.Kcl | circ.js:488-503 | the KCL equation of one node; the partners `CircuitProperties.KclFacts` and `KclAtNode` state its coefficients and constant |
| CircuitSimulation.KclEquations | circ.js:487-504 | there is one KCL equation per node key |
| CircuitSimulation.KclEquation | circ.js:488-503 | the inner loop builds the KCL equation of one node from its listed elements |
| CircuitSimulation.ElementEquations | circ.js:507-528 | there is one constitutive equation per placed element |
| CircuitSimulation.ElementEquation | circ.js:507-527 | the constitutive equation of one placed element; the partners `CircuitProperties.ResistorEquation`, `WireEquation` and `SourceEquation` state its coefficients and constant for each kind |
| CircuitSimulation.Ground | circ.js:530-532 | the equation grounding the black lead; the partner `CircuitProperties.GroundEquation` states that it sets that voltage unknown to zero |
| CircuitSimulation.System | circ.js:484-532 | the generated system; the partner `CircuitProperties.SystemLayout` states its length and the order of its three blocks |
| CircuitSimulation.GenerateEquations | circ.js:484-532 | the three generating loops build the whole system |
| CircuitSimulation.Equations | circ.js:484-532 | every generated equation is a valid expression |
| CircuitSimulation.Reading | circ.js:546-564 | the message for a solver outcome; the partner `CircuitProperties.SolvedReading` states when it is a short circuit, a voltage or floating |
| CircuitSimulation.Simulate | circ.js:438-566 | the reading of the meter; the partner `CircuitProperties.ReadingFacts` states when it is floating, a short circuit or a voltage |
| CircuitSimulation.SimulateCircuit | circ.js:438-566 | the method returns the lead test's flag and the reading `Simulate` defines |
| CircuitProperties.PlacedMembers | circ.js:450-455 | the placed objects are exactly the graph elements that are not leads, and there are no more of them than objects |
| CircuitProperties.PlacedAppend | circ.js:450-455 | the filter loop works left to right: the placed objects of a joined list are those of the first part followed by those of the second |
| CircuitProperties.PlacedSingle | circ.js:451-454 | a single object is placed exactly when it is a graph element and not a lead |
| CircuitProperties.PlacedOrder | circ.js:450-455 | `placedObjects` is the subsequence of the objects at strictly increasing positions, and those positions are exactly the objects that pass the gate; so each placed object appears once, in list order, which fixes the index `k` of its current unknown `i[k]` |
| CircuitProperties.TableCount | circ.js:456-464 | element k is listed under a key once per terminal of k with that key, and no other index is listed |
| CircuitProperties.TableKeys | circ.js:456-464 | a key is in the table iff some placed element has a terminal there, and the key's list contains k iff element k does |
| CircuitProperties.TableNonEmpty | circ.js:460-463 | every entry of the table lists at least one element |
| CircuitProperties.TableSorted | circ.js:450-464 | each entry lists elements in the order they were placed |
| CircuitProperties.KeyIff | circ.js:450-476 | a lead position is on a node key exactly when some placed object has a terminal there; leads add no nodes |
| CircuitProperties.ConnectedIff | circ.js:468-479 | the meter is connected iff both leads lie on terminals of placed objects, or the two leads are at the same position |
| CircuitProperties.SystemLayout | circ.js:484-532 | the system has `#nodes + #placed + 1` equations: the KCL equations in key order, then the constitutive equations in placed order, then the ground equation |
| CircuitProperties.KclFacts | circ.js:488-503 | a KCL equation has constant 0 and mentions exactly the listed currents, each with its orientation |
| CircuitProperties.KclAtNode | circ.js:487-504 | the KCL equation of a node mentions exactly the currents of the elements touching it, with +1 when the node is the element's terminal 0 and -1 otherwise; a zero-length wire gets +1 |
| CircuitProperties.PairFacts | circ.js:519-526 | `[1, -1]` over two different names gives coefficients 1 and -1 and the given constant |
| CircuitProperties.SamePairFacts | circ.js:521 | `[1, -1]` over one name twice leaves only the later coefficient -1 |
| CircuitProperties.TripleFacts | circ.js:515-518 | `[1, -1, -R]` over three different names has the resistor shape |
| CircuitProperties.ResistorEquation | circ.js:512-518 | a resistor gives `v0 - v1 - R i = 0` over its own two voltage unknowns and its own current; the current drops out when R is near zero |
| CircuitProperties.DistinctNames | circ.js:510-513 | the two voltage unknowns of different terminals and the current unknown are three different names |
| CircuitProperties.WireEquation | circ.js:519-521 | a wire gives `v0 - v1 = 0`; a wire whose ends coincide gives `-v0 = 0` |
| CircuitProperties.SourceEquation | circ.js:522-526 | a source gives `v0 - v1 + V = 0` over its two voltage unknowns |
| CircuitProperties.GroundEquation | circ.js:531-532 | the last equation is `v[black] = 0` |
| CircuitProperties.ReadingFacts | circ.js:478-564 | not connected reads Floating without solving; connected reads ShortCircuit iff elimination meets a contradiction, and Voltage(v) iff there is none and the red lead's unknown is a pivot whose back expression is the constant v; every other case is Floating |
| CircuitProperties.SolvedReading | circ.js:546-564 | for any valid system, a thrown inconsistency reads ShortCircuit, a scalar value at the red lead reads Voltage, and a missing or NaN value reads Floating |

## Left out

- Rendering, the page, mouse and keyboard handling, hit testing and geometry
  are not modelled (`*_draw`, `redraw`, `printOutput`, `md`/`mu`/`mm`,
  `isClickInArea`, `findNearbyNode`, util.js). They are I/O and
  floating-point geometry.
- `toPrecision(6)` formatting of the reading is not modelled: `Voltage(v)`
  carries the number itself.
- `w_getOtherNode` is not modelled. It is never called.
- The debug dump of the system and `AE_toString` are not modelled. They are
  diagnostic text.
- Numbers are Dafny `real`s.
  - There is no IEEE rounding, overflow, NaN arithmetic or division by a
    subnormal coefficient.
  - NaN in the solution is the separate value `Under`.
  - The JavaScript exponent form of integers of magnitude at least `1e21`
    in node keys is not modelled; integers render as plain decimal digits.
- No theorem says that the reported values solve the real system. Pruning
  below `1e-9` changes the system, so only the structural properties of
  elimination are proved.
- The thrown `inconsistentSystemError` is the value `Inconsistent`, and the
  `try`/`catch` is a match on it. No other exception can arise in the model.
- AffineExpressions.New: requires `|vars| <= |coeffs|`, because a missing
  coefficient would be `undefined` in JavaScript. Every caller in the source
  passes arrays of equal length.
- A JavaScript object's `for … in` order is modelled as insertion order. The
  model does not say which pivot wins beyond the `>=` tie-break, and it does
  not order node keys beyond "distinct, in first-seen order".
- Object identity is modelled by index: `placedObjects.indexOf(obj)` becomes
  the index under which the element was placed. The unreachable
  `objectId > -1` test is always true and is not modelled.
- The reassignment of the local `nodes` (`circ.js:509`) is modelled as a
  fresh local. The node table is not read after that line.
- The two lead positions that the program reads from the globals
  `redLeadObj` and `blackLeadObj` are parameters. Leads in the object list
  are skipped by the gate `!obj.isGraphElement() || obj.isLead`.
