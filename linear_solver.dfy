/** solveLinearSystem (linearsystem.js:153-203): forward elimination with
    a largest pivot per equation, back substitution in reverse order, and
    the read-out of one value per pivot variable. */
module LinearSolver {
  import opened AffineExpressions

  /** What the solution reports for one pivot variable: a number, or NaN
      when its back expression still depends on other variables. */
  datatype Value = Known(number: real) | Under

  /** Either the thrown inconsistentSystemError or the `soln` object. */
  datatype Solution = Inconsistent | Solved(values: map<Name, Value>)

  predicate AllValid(s: seq<AffineExpression>)
  {
    forall k :: 0 <= k < |s| ==> Valid(s[k])
  }

  lemma {:induction false} AllValidCons(e: AffineExpression, s: seq<AffineExpression>)
    requires Valid(e) && AllValid(s)
    ensures AllValid([e] + s)
  {
    forall k | 0 <= k < |[e] + s|
      ensures Valid(([e] + s)[k])
    {
      if k > 0 {
        assert ([e] + s)[k] == s[k - 1];
      }
    }
  }

  /** An equation `c == 0` with no variables and a constant that is not near zero. */
  predicate Contradiction(e: AffineExpression)
  {
    IsScalar(e) && !NearZero(e.constant)
  }

  /** The pivot the forward loop eliminates with `e`, if any: the largest
      pivot, kept only when its coefficient is not near zero. */
  function Pivot(e: AffineExpression): (r: Option<Name>)
    requires Valid(e)
    ensures r.None? <==> IsScalar(e)
    ensures r.Some? ==> Mentions(e, r.value) && !NearZero(GetCoefficient(e, r.value))
  {
    var pivotVar := LargestPivot(e);
    if pivotVar.Some? && !NearZero(GetCoefficient(e, pivotVar.value)) then pivotVar else None
  }

  /** Every equation of `s` with `v` replaced by `x`. */
  function SubstituteAll(s: seq<AffineExpression>, v: Name, x: AffineExpression): (r: seq<AffineExpression>)
    requires AllValid(s) && Valid(x)
    ensures |r| == |s| && AllValid(r)
  {
    seq(|s|, k requires 0 <= k < |s| => Substitute(s[k], v, x))
  }

  /** The outcome of forward elimination: whether it ran to the end,
      `backVars`, `backExprs`, and the contents of `system` when it stopped
      (each equation as it was when the loop reached it, the rest as left). */
  datatype Elimination = Elimination(consistent: bool, pivots: seq<Name>, exprs: seq<AffineExpression>,
                                     seen: seq<AffineExpression>)

  /** Forward elimination over the equations still to be visited. */
  function ForwardPass(s: seq<AffineExpression>): (f: Elimination)
    requires AllValid(s)
    ensures |f.seen| == |s| && AllValid(f.seen)
    ensures |f.pivots| == |f.exprs| && AllValid(f.exprs)
    decreases |s|
  {
    if |s| == 0 then Elimination(true, [], [], [])
    else
      var e := s[0];
      match Pivot(e)
      case Some(p) =>
        var sub := SolveFor(e, p);
        var rest := ForwardPass(SubstituteAll(s[1..], p, sub));
        AllValidCons(sub, rest.exprs);
        AllValidCons(e, rest.seen);
        Elimination(rest.consistent, [p] + rest.pivots, [sub] + rest.exprs, [e] + rest.seen)
      case None =>
        if NearZero(e.constant) then
          var rest := ForwardPass(s[1..]);
          AllValidCons(e, rest.seen);
          Elimination(rest.consistent, rest.pivots, rest.exprs, [e] + rest.seen)
        else
          Elimination(false, [], [], s)
  }

  /** `e` after substituting `vs[lo]` by `bs[lo]`, then `vs[lo + 1]` by
      `bs[lo + 1]`, and so on up to index `hi - 1`: the inner loop of the
      back substitution. */
  function SubstFold(e: AffineExpression, vs: seq<Name>, bs: seq<AffineExpression>, lo: nat, hi: nat): (r: AffineExpression)
    requires Valid(e) && AllValid(bs) && |vs| == |bs| && hi <= |bs|
    ensures Valid(r)
    decreases hi - lo
  {
    if hi <= lo then e
    else SubstFold(Substitute(e, vs[lo], bs[lo]), vs, bs, lo + 1, hi)
  }

  /** `backExprs` once the outer back-substitution loop has finished every
      index from `m` on: each such entry has every later pivot replaced by
      that pivot's own final expression; the entries below `m` are untouched. */
  function Back(vs: seq<Name>, es: seq<AffineExpression>, m: nat): (r: seq<AffineExpression>)
    requires AllValid(es) && |vs| == |es| && m <= |es|
    ensures |r| == |es| && AllValid(r)
    ensures forall k :: 0 <= k < m ==> r[k] == es[k]
    decreases |es| - m
  {
    if m == |es| then es
    else
      var b := Back(vs, es, m + 1);
      var x := SubstFold(b[m], vs, b, m + 1, |es|);
      AllValidUpdate(b, m, x);
      b[m := x]
  }

  lemma {:induction false} AllValidUpdate(s: seq<AffineExpression>, m: nat, x: AffineExpression)
    requires AllValid(s) && m < |s| && Valid(x)
    ensures AllValid(s[m := x])
  {
  }

  function ValueOf(e: AffineExpression): Value
  {
    if IsScalar(e) then Known(GetScalarValue(e)) else Under
  }

  /** The `soln` object filled in `backVars` order (a repeated key is overwritten). */
  function Extract(vs: seq<Name>, bs: seq<AffineExpression>): map<Name, Value>
    requires |vs| == |bs|
  {
    if |vs| == 0 then map[]
    else
      var n := |vs| - 1;
      Extract(vs[..n], bs[..n])[vs[n] := ValueOf(bs[n])]
  }

  function Solve(s: seq<AffineExpression>): Solution
    requires AllValid(s)
  {
    var f := ForwardPass(s);
    if !f.consistent then Inconsistent
    else Solved(Extract(f.pivots, Back(f.pivots, f.exprs, 0)))
  }

  /** `f` with a prefix of pivots, expressions and visited equations prepended. */
  ghost function Resume(vs: seq<Name>, es: seq<AffineExpression>, pre: seq<AffineExpression>, f: Elimination): Elimination
  {
    Elimination(f.consistent, vs + f.pivots, es + f.exprs, pre + f.seen)
  }

  lemma {:induction false} ResumeShift(vs: seq<Name>, es: seq<AffineExpression>, pre: seq<AffineExpression>,
                    ps: seq<Name>, xs: seq<AffineExpression>, e: AffineExpression, f: Elimination)
    ensures Resume(vs, es, pre, Elimination(f.consistent, ps + f.pivots, xs + f.exprs, [e] + f.seen))
         == Resume(vs + ps, es + xs, pre + [e], f)
  {
    Assoc(vs, ps, f.pivots);
    Assoc(es, xs, f.exprs);
    Assoc(pre, [e], f.seen);
  }

  /** Forward elimination unfolded once at an equation with a pivot: an
      unfolding step for the forward loop's invariant, not a property. */
  lemma {:induction false} ForwardPivot(t: seq<AffineExpression>, p: Name, sub: AffineExpression, rest: Elimination)
    requires AllValid(t) && |t| > 0 && Pivot(t[0]) == Some(p)
    requires sub == SolveFor(t[0], p) && rest == ForwardPass(SubstituteAll(t[1..], p, sub))
    ensures ForwardPass(t) == Elimination(rest.consistent, [p] + rest.pivots, [sub] + rest.exprs, [t[0]] + rest.seen)
  {
  }

  /** One visit of the forward loop to a redundant equation: an unfolding
      step for the forward loop's invariant, not a property. */
  lemma {:induction false} ResumeRedundant(vs: seq<Name>, es: seq<AffineExpression>, pre: seq<AffineExpression>,
                        t: seq<AffineExpression>)
    requires AllValid(t) && |t| > 0 && Pivot(t[0]).None? && NearZero(t[0].constant)
    ensures Resume(vs, es, pre, ForwardPass(t)) == Resume(vs, es, pre + [t[0]], ForwardPass(t[1..]))
  {
    var rest := ForwardPass(t[1..]);
    ResumeShift(vs, es, pre, [], [], t[0], rest);
    Ends(vs);
    Ends(es);
  }

  /** Forward elimination unfolded once at a contradiction: an unfolding
      step for the forward loop's invariant, not a property. */
  lemma {:induction false} ForwardStops(t: seq<AffineExpression>)
    requires AllValid(t) && |t| > 0 && Pivot(t[0]).None? && !NearZero(t[0].constant)
    ensures ForwardPass(t) == Elimination(false, [], [], t)
  {
  }

  /** The inner forward loop: `system[j] = system[j].substitute(v, x)` for
      every `j` from `start` on. */
  method SubstituteFrom(system: array<AffineExpression>, start: nat, v: Name, x: AffineExpression)
    requires start <= system.Length && AllValid(system[start..]) && Valid(x)
    modifies system
    ensures system[..start] == old(system[..start])
    ensures system[start..] == SubstituteAll(old(system[start..]), v, x)
  {
    ghost var s0 := system[..];
    var j := start;
    while j < system.Length
      invariant start <= j <= system.Length
      invariant SubstitutedUpTo(s0, system[..], start, j, v, x)
    {
      ghost var prev := system[..];
      SubstitutedValid(s0, prev, start, j, v, x);
      system[j] := Substitute(system[j], v, x);
      SubstitutedStep(s0, prev, system[..], start, j, v, x);
      j := j + 1;
    }
    SubstitutedSlice(s0, system[..], start, v, x);
  }

  /** `after` is `before` with the equations in `start..j` substituted. */
  ghost predicate SubstitutedUpTo(before: seq<AffineExpression>, after: seq<AffineExpression>, start: nat, j: nat,
                                  v: Name, x: AffineExpression)
  {
    && start <= j <= |before| == |after| && AllValid(before[start..]) && Valid(x)
    && (forall k :: 0 <= k < start ==> after[k] == before[k])
    && (forall k :: start <= k < j ==> after[k] == Substitute(before[k], v, x))
    && (forall k :: j <= k < |before| ==> after[k] == before[k])
  }

  lemma {:induction false} SubstitutedValid(before: seq<AffineExpression>, after: seq<AffineExpression>, start: nat, j: nat,
                         v: Name, x: AffineExpression)
    requires SubstitutedUpTo(before, after, start, j, v, x) && j < |after|
    ensures Valid(after[j])
  {
    assert after[j] == before[start..][j - start];
  }

  lemma {:induction false} SubstitutedStep(before: seq<AffineExpression>, prev: seq<AffineExpression>, after: seq<AffineExpression>,
                        start: nat, j: nat, v: Name, x: AffineExpression)
    requires SubstitutedUpTo(before, prev, start, j, v, x) && j < |prev|
    requires Valid(prev[j]) && after == prev[j := Substitute(prev[j], v, x)]
    ensures SubstitutedUpTo(before, after, start, j + 1, v, x)
  {
  }

  lemma {:induction false} SubstitutedSlice(before: seq<AffineExpression>, after: seq<AffineExpression>, start: nat, v: Name,
                         x: AffineExpression)
    requires SubstitutedUpTo(before, after, start, |before|, v, x)
    ensures after[..start] == before[..start]
    ensures after[start..] == SubstituteAll(before[start..], v, x)
  {
  }

  /** The back-substitution loop: for `m` from the last index down to 0,
      `backExprs[m]` gets every later `backVars[n]` substituted by `backExprs[n]`. */
  method BackSubstitute(backVars: seq<Name>, exprs: seq<AffineExpression>) returns (backExprs: seq<AffineExpression>)
    requires AllValid(exprs) && |backVars| == |exprs|
    ensures backExprs == Back(backVars, exprs, 0)
  {
    backExprs := exprs;
    var m := |backVars|;
    while m > 0
      invariant 0 <= m <= |backVars|
      invariant backExprs == Back(backVars, exprs, m)
    {
      m := m - 1;
      var e := SubstituteLater(backVars, backExprs, m);
      backExprs := backExprs[m := e];
    }
  }

  /** The inner loop of the back substitution at index `m`: `backExprs[m]`
      with `backVars[n]` substituted by `backExprs[n]` for each later `n`. */
  method SubstituteLater(backVars: seq<Name>, backExprs: seq<AffineExpression>, m: nat)
    returns (e: AffineExpression)
    requires AllValid(backExprs) && |backVars| == |backExprs| && m < |backExprs|
    ensures e == SubstFold(backExprs[m], backVars, backExprs, m + 1, |backExprs|)
  {
    e := backExprs[m];
    var n := m + 1;
    while n < |backExprs|
      invariant m + 1 <= n <= |backExprs| && Valid(e)
      invariant SubstFold(e, backVars, backExprs, n, |backExprs|)
             == SubstFold(backExprs[m], backVars, backExprs, m + 1, |backExprs|)
    {
      e := Substitute(e, backVars[n], backExprs[n]);
      n := n + 1;
    }
  }


  /** The copy of the output into `soln`, in `backVars` order. */
  method ReadSolution(backVars: seq<Name>, backExprs: seq<AffineExpression>) returns (values: map<Name, Value>)
    requires |backVars| == |backExprs|
    ensures values == Extract(backVars, backExprs)
  {
    values := map[];
    var v := 0;
    while v < |backVars|
      invariant 0 <= v <= |backVars|
      invariant values == Extract(backVars[..v], backExprs[..v])
    {
      Prefix(backVars, v);
      Prefix(backExprs, v);
      if IsScalar(backExprs[v]) {
        values := values[backVars[v] := Known(GetScalarValue(backExprs[v]))];
      } else {
        values := values[backVars[v] := Under];
      }
      v := v + 1;
    }
    Ends(backVars);
    Ends(backExprs);
  }

  /** solveLinearSystem: forward elimination rewrites `system` in place;
      the result is the thrown inconsistency or the solution. */
  method SolveLinearSystem(system: array<AffineExpression>) returns (soln: Solution)
    requires AllValid(system[..])
    modifies system
    ensures soln == Solve(old(system[..]))
    ensures system[..] == ForwardPass(old(system[..])).seen
  {
    var consistent, backVars, backExprs := ForwardEliminate(system);
    if !consistent {
      return Inconsistent;
    }
    backExprs := BackSubstitute(backVars, backExprs);
    var values := ReadSolution(backVars, backExprs);
    soln := Solved(values);
  }

  /** The forward loop of solveLinearSystem; `consistent` is false where it
      throws inconsistentSystemError. */
  method ForwardEliminate(system: array<AffineExpression>)
    returns (consistent: bool, backVars: seq<Name>, backExprs: seq<AffineExpression>)
    requires AllValid(system[..])
    modifies system
    ensures ForwardPass(old(system[..])) == Elimination(consistent, backVars, backExprs, system[..])
  {
    ghost var s0 := system[..];
    backVars := [];
    backExprs := [];
    ForwardStart(s0);
    var i := 0;
    while i < system.Length
      invariant 0 <= i <= system.Length
      invariant Forward(s0, system[..], i, backVars, backExprs)
    {
      ghost var cur := system[..];
      ForwardValid(s0, cur, i, backVars, backExprs);
      var e := system[i];
      assert e == cur[i];
      var pivotVar := LargestPivot(e);
      PivotOf(e, pivotVar);
      if pivotVar.Some? && !NearZero(GetCoefficient(e, pivotVar.value)) {
        var p := pivotVar.value;
        var subExpr := EliminatePivot(system, i, p, s0, backVars, backExprs);
        backVars := backVars + [p];
        backExprs := backExprs + [subExpr];
      } else if !NearZero(e.constant) {
        InconsistentStep(s0, cur, i, backVars, backExprs);
        return false, backVars, backExprs;
      } else {
        RedundantStep(s0, cur, i, backVars, backExprs);
      }
      i := i + 1;
    }
    ForwardEnd(s0, system[..], i, backVars, backExprs);
    consistent := true;
  }

  /** One round of the forward loop with pivot `p`: `subExpr` is the
      equation solved for `p`, substituted into every later equation. */
  method EliminatePivot(system: array<AffineExpression>, i: nat, p: Name,
                        ghost s0: seq<AffineExpression>, ghost vs: seq<Name>, ghost es: seq<AffineExpression>)
    returns (subExpr: AffineExpression)
    requires i < system.Length && Forward(s0, system[..], i, vs, es)
    requires Valid(system[i]) && Pivot(system[i]) == Some(p)
    modifies system
    ensures Forward(s0, system[..], i + 1, vs + [p], es + [subExpr])
  {
    ghost var cur := system[..];
    subExpr := SolveFor(system[i], p);
    ForwardRest(s0, cur, i, vs, es);
    SubstituteFrom(system, i + 1, p, subExpr);
    PivotStep(s0, cur, system[..], i, vs, es, p, subExpr);
  }

  /** The forward loop has visited the equations before `i` of `s`, which started as `s0`. */
  ghost predicate Forward(s0: seq<AffineExpression>, s: seq<AffineExpression>, i: nat,
                          vs: seq<Name>, es: seq<AffineExpression>)
  {
    && AllValid(s0) && i <= |s| && AllValid(s[i..]) && AllValid(es) && |vs| == |es|
    && ForwardPass(s0) == Resume(vs, es, s[..i], ForwardPass(s[i..]))
  }

  lemma {:induction false} ForwardStart(s0: seq<AffineExpression>)
    requires AllValid(s0)
    ensures Forward(s0, s0, 0, [], [])
  {
    var f := ForwardPass(s0);
    Ends(s0);
    Ends(f.pivots);
    Ends(f.exprs);
    Ends(f.seen);
  }

  lemma {:induction false} ForwardValid(s0: seq<AffineExpression>, s: seq<AffineExpression>, i: nat,
                     vs: seq<Name>, es: seq<AffineExpression>)
    requires Forward(s0, s, i, vs, es) && i < |s|
    ensures Valid(s[i])
  {
    Slices(s, i);
    AllValidTail(s[i..]);
  }

  lemma {:induction false} ForwardRest(s0: seq<AffineExpression>, s: seq<AffineExpression>, i: nat,
                    vs: seq<Name>, es: seq<AffineExpression>)
    requires Forward(s0, s, i, vs, es) && i < |s|
    ensures AllValid(s[i + 1..])
  {
    Slices(s, i);
    AllValidTail(s[i..]);
  }

  lemma {:induction false} AllValidTail(s: seq<AffineExpression>)
    requires AllValid(s) && |s| > 0
    ensures Valid(s[0]) && AllValid(s[1..])
  {
    forall k | 0 <= k < |s| - 1
      ensures Valid(s[1..][k])
    {
      assert s[1..][k] == s[k + 1];
    }
  }

  lemma {:induction false} PivotStep(s0: seq<AffineExpression>, prev: seq<AffineExpression>, s: seq<AffineExpression>, i: nat,
                  vs: seq<Name>, es: seq<AffineExpression>, p: Name, sub: AffineExpression)
    requires Forward(s0, prev, i, vs, es) && i < |prev|
    requires Pivot(prev[i]) == Some(p) && sub == SolveFor(prev[i], p)
    requires |s| == |prev| && s[..i + 1] == prev[..i + 1]
    requires s[i + 1..] == SubstituteAll(prev[i + 1..], p, sub)
    ensures Forward(s0, s, i + 1, vs + [p], es + [sub])
  {
    var t := prev[i..];
    Slices(prev, i);
    var rest := ForwardPass(s[i + 1..]);
    ForwardPivot(t, p, sub, rest);
    ResumeShift(vs, es, prev[..i], [p], [sub], t[0], rest);
    AllValidSnoc(es, sub);
  }

  /** Pivot unfolded at the value the loop computed for getLargestPivot: an
      unfolding step for the forward loop, not a property. */
  lemma {:induction false} PivotOf(e: AffineExpression, pv: Option<Name>)
    requires Valid(e) && pv == LargestPivot(e)
    ensures Pivot(e) == if pv.Some? && !NearZero(GetCoefficient(e, pv.value)) then pv else None
  {
  }

  lemma {:induction false} RedundantStep(s0: seq<AffineExpression>, s: seq<AffineExpression>, i: nat,
                      vs: seq<Name>, es: seq<AffineExpression>)
    requires Forward(s0, s, i, vs, es) && i < |s|
    requires Pivot(s[i]).None? && NearZero(s[i].constant)
    ensures Forward(s0, s, i + 1, vs, es)
  {
    Slices(s, i);
    ResumeRedundant(vs, es, s[..i], s[i..]);
  }

  lemma {:induction false} InconsistentStep(s0: seq<AffineExpression>, s: seq<AffineExpression>, i: nat,
                         vs: seq<Name>, es: seq<AffineExpression>)
    requires Forward(s0, s, i, vs, es) && i < |s|
    requires Pivot(s[i]).None? && !NearZero(s[i].constant)
    ensures ForwardPass(s0) == Elimination(false, vs, es, s)
  {
    Slices(s, i);
    ForwardStops(s[i..]);
    Joined(s, i);
  }

  lemma {:induction false} ForwardEnd(s0: seq<AffineExpression>, s: seq<AffineExpression>, i: nat,
                   vs: seq<Name>, es: seq<AffineExpression>)
    requires Forward(s0, s, i, vs, es) && i == |s|
    ensures ForwardPass(s0) == Elimination(true, vs, es, s)
  {
    Ends(s);
    Ends(vs);
    Ends(es);
  }

  lemma {:induction false} Ends<T>(s: seq<T>)
    ensures [] + s == s && s + [] == s && s[0..] == s && s[..0] == [] && s[..|s|] == s && s[|s|..] == []
  {
  }

  lemma {:induction false} Assoc<T>(a: seq<T>, b: seq<T>, c: seq<T>)
    ensures a + (b + c) == a + b + c
  {
  }

  lemma {:induction false} Prefix<T>(s: seq<T>, m: nat)
    requires m < |s|
    ensures s[..m + 1][..m] == s[..m] && s[..m + 1][m] == s[m]
  {
  }


  lemma {:induction false} Joined<T>(s: seq<T>, i: nat)
    requires i <= |s|
    ensures s[..i] + s[i..] == s
  {
  }

  lemma {:induction false} Slices<T>(s: seq<T>, i: nat)
    requires i < |s|
    ensures s[i..][0] == s[i] && s[i..][1..] == s[i + 1..] && s[..i + 1] == s[..i] + [s[i]]
  {
  }

  lemma {:induction false} AllValidSnoc(s: seq<AffineExpression>, e: AffineExpression)
    requires AllValid(s) && Valid(e)
    ensures AllValid(s + [e])
  {
    forall k | 0 <= k < |s| + 1
      ensures Valid((s + [e])[k])
    {
      if k < |s| {
        assert (s + [e])[k] == s[k];
      }
    }
  }
}
