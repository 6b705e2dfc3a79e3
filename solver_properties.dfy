/** What solveLinearSystem (linearsystem.js:153-203) guarantees about the
    pivots it chooses, the back expressions it computes and the solution it
    returns, stated over the specification functions of LinearSolver. */
module SolverProperties {
  import opened AffineExpressions
  import opened LinearSolver

  /** No equation of `s` mentions `p`. */
  predicate MentionsNone(s: seq<AffineExpression>, p: Name)
  {
    forall k :: 0 <= k < |s| ==> !Mentions(s[k], p)
  }

  /** Substituting `q` by an expression that does not mention `p` into
      equations that do not mention `p` introduces no `p`. */
  lemma {:induction false} SubstituteAllAvoids(t: seq<AffineExpression>, q: Name, sub: AffineExpression, p: Name)
    requires AllValid(t) && Valid(sub) && MentionsNone(t, p) && !Mentions(sub, p)
    ensures MentionsNone(SubstituteAll(t, q, sub), p)
  {
    var r := SubstituteAll(t, q, sub);
    forall k | 0 <= k < |r|
      ensures !Mentions(r[k], p)
    {
      SubstituteFacts(t[k], q, sub);
    }
  }

  /** Substituting `q` by an expression that does not mention `q` removes
      `q` from every equation. */
  lemma {:induction false} SubstituteAllRemoves(t: seq<AffineExpression>, q: Name, sub: AffineExpression)
    requires AllValid(t) && Valid(sub) && !Mentions(sub, q)
    ensures MentionsNone(SubstituteAll(t, q, sub), q)
  {
    var r := SubstituteAll(t, q, sub);
    forall k | 0 <= k < |r|
      ensures !Mentions(r[k], q)
    {
      SubstituteFacts(t[k], q, sub);
    }
  }

  /** Equations that never mention `p` never make `p` a pivot, and none of
      the expressions solved from them mentions `p`. */
  lemma {:induction false} ForwardAvoids(t: seq<AffineExpression>, p: Name)
    requires AllValid(t) && MentionsNone(t, p)
    ensures p !in ForwardPass(t).pivots && MentionsNone(ForwardPass(t).exprs, p)
    decreases |t|
  {
    if |t| > 0 {
      match Pivot(t[0])
      case Some(q) =>
        var sub := SolveFor(t[0], q);
        SolveForFacts(t[0], q);
        AllValidTail(t);
        var t' := SubstituteAll(t[1..], q, sub);
        MentionsNoneTail(t, p);
        SubstituteAllAvoids(t[1..], q, sub, p);
        ForwardAvoids(t', p);
        ForwardPivot(t, q, sub, ForwardPass(t'));
        MentionsNoneCons(sub, ForwardPass(t').exprs, p);
      case None =>
        if NearZero(t[0].constant) {
          AllValidTail(t);
          MentionsNoneTail(t, p);
          ForwardAvoids(t[1..], p);
        }
    }
  }

  lemma {:induction false} MentionsNoneTail(t: seq<AffineExpression>, p: Name)
    requires MentionsNone(t, p) && |t| > 0
    ensures !Mentions(t[0], p) && MentionsNone(t[1..], p)
  {
    assert forall k :: 0 <= k < |t| - 1 ==> t[1..][k] == t[k + 1];
  }

  lemma {:induction false} MentionsNoneCons(e: AffineExpression, t: seq<AffineExpression>, p: Name)
    requires !Mentions(e, p) && MentionsNone(t, p)
    ensures MentionsNone([e] + t, p)
  {
    forall k | 0 <= k < |[e] + t|
      ensures !Mentions(([e] + t)[k], p)
    {
      if k > 0 {
        assert ([e] + t)[k] == t[k - 1];
      }
    }
  }

  /** The pivots and back expressions of forward elimination are triangular:
      the expression solved at step `j` mentions neither its own pivot nor
      any earlier one. */
  ghost predicate Triangular(vs: seq<Name>, es: seq<AffineExpression>)
  {
    |vs| == |es| && forall i, j :: 0 <= i <= j < |vs| ==> !Mentions(es[j], vs[i])
  }

  /** Step i of forward elimination leaves no later equation mentioning pivot
      i, so every solved expression avoids the pivots up to its own and the
      pivots are pairwise distinct (linearsystem.js:158-171). */
  lemma {:induction false} PivotFacts(t: seq<AffineExpression>)
    requires AllValid(t)
    ensures Distinct(ForwardPass(t).pivots)
    ensures Triangular(ForwardPass(t).pivots, ForwardPass(t).exprs)
    decreases |t|
  {
    if |t| > 0 {
      match Pivot(t[0])
      case Some(q) =>
        var sub := SolveFor(t[0], q);
        SolveForFacts(t[0], q);
        AllValidTail(t);
        var t' := SubstituteAll(t[1..], q, sub);
        SubstituteAllRemoves(t[1..], q, sub);
        ForwardAvoids(t', q);
        PivotFacts(t');
        var rest := ForwardPass(t');
        ForwardPivot(t, q, sub, rest);
        PivotCons(q, sub, rest.pivots, rest.exprs);
      case None =>
        if NearZero(t[0].constant) {
          AllValidTail(t);
          PivotFacts(t[1..]);
        }
    }
  }

  /** Putting a pivot and its expression in front of a triangular tail that
      never mentions that pivot keeps it triangular and distinct. */
  lemma {:induction false} PivotCons(q: Name, sub: AffineExpression, vs: seq<Name>, es: seq<AffineExpression>)
    requires !Mentions(sub, q) && q !in vs && MentionsNone(es, q)
    requires Distinct(vs) && Triangular(vs, es)
    ensures Distinct([q] + vs) && Triangular([q] + vs, [sub] + es)
  {
    var vs' := [q] + vs;
    var es' := [sub] + es;
    forall i, j | 0 <= i < j < |vs'|
      ensures vs'[i] != vs'[j]
    {
      assert vs'[j] == vs[j - 1];
      if i > 0 {
        assert vs'[i] == vs[i - 1];
      }
    }
    forall i, j | 0 <= i <= j < |vs'|
      ensures !Mentions(es'[j], vs'[i])
    {
      if j > 0 {
        assert es'[j] == es[j - 1];
        if i > 0 {
          assert vs'[i] == vs[i - 1];
        }
      }
    }
  }

  /** What a fold of substitutions can mention: a name of `e` that is never
      substituted, or a name of one of the substituted expressions. */
  lemma {:induction false} SubstFoldMentions(e: AffineExpression, vs: seq<Name>, bs: seq<AffineExpression>,
                                             lo: nat, hi: nat, x: Name)
    requires Valid(e) && AllValid(bs) && |vs| == |bs| && hi <= |bs|
    ensures Mentions(SubstFold(e, vs, bs, lo, hi), x) ==>
              (Mentions(e, x) && forall j :: lo <= j < hi ==> vs[j] != x)
              || exists j :: lo <= j < hi && Mentions(bs[j], x)
    decreases hi - lo, 1
  {
    if lo < hi {
      SubstFoldMentionsNext(e, vs, bs, lo, hi, x, SubstFold(e, vs, bs, lo, hi));
    }
  }

  lemma {:induction false} SubstFoldMentionsNext(e: AffineExpression, vs: seq<Name>, bs: seq<AffineExpression>,
                                                 lo: nat, hi: nat, x: Name, f: AffineExpression)
    requires Valid(e) && AllValid(bs) && |vs| == |bs| && lo < hi <= |bs|
    requires f == SubstFold(e, vs, bs, lo, hi)
    ensures Mentions(f, x) ==>
              (Mentions(e, x) && forall j :: lo <= j < hi ==> vs[j] != x)
              || exists j :: lo <= j < hi && Mentions(bs[j], x)
    decreases hi - lo, 0
  {
    var r := Substitute(e, vs[lo], bs[lo]);
    SubstFoldMentions(r, vs, bs, lo + 1, hi, x);
    if Mentions(f, x) {
      if Mentions(r, x) {
        SubstituteMentions(e, vs[lo], bs[lo], x);
      }
      MentionsCombine(e, r, vs, bs, lo, hi, x);
    }
  }

  lemma {:induction false} MentionsCombine(e: AffineExpression, r: AffineExpression, vs: seq<Name>, bs: seq<AffineExpression>,
                        lo: nat, hi: nat, x: Name)
    requires lo < hi <= |vs| == |bs|
    requires (Mentions(r, x) && forall j :: lo + 1 <= j < hi ==> vs[j] != x)
             || exists j :: lo + 1 <= j < hi && Mentions(bs[j], x)
    requires Mentions(r, x) ==> (Mentions(e, x) && x != vs[lo]) || Mentions(bs[lo], x)
    ensures (Mentions(e, x) && forall j :: lo <= j < hi ==> vs[j] != x)
            || exists j :: lo <= j < hi && Mentions(bs[j], x)
  {
  }

  /** Once the outer loop has finished index `m`, no entry from `m` on
      mentions any pivot. */
  lemma {:induction false} BackAvoids(vs: seq<Name>, es: seq<AffineExpression>, m: nat, r: seq<AffineExpression>)
    requires AllValid(es) && Triangular(vs, es) && m <= |es| && r == Back(vs, es, m)
    ensures forall k, i :: m <= k < |es| && 0 <= i < |vs| ==> !Mentions(r[k], vs[i])
    decreases |es| - m, 1
  {
    if m < |es| {
      BackAvoidsNext(vs, es, m, r);
    }
  }

  lemma {:induction false} BackAvoidsNext(vs: seq<Name>, es: seq<AffineExpression>, m: nat, r: seq<AffineExpression>)
    requires AllValid(es) && Triangular(vs, es) && m < |es| && r == Back(vs, es, m)
    ensures forall k, i :: m <= k < |es| && 0 <= i < |vs| ==> !Mentions(r[k], vs[i])
    decreases |es| - m, 0
  {
    var b := Back(vs, es, m + 1);
    BackAvoids(vs, es, m + 1, b);
    BackAvoidsStep(vs, es, m, b, r);
  }

  /** One step of the outer loop keeps the entries from `m + 1` on and
      replaces entry `m` by a fold free of pivots. */
  lemma {:induction false} BackAvoidsStep(vs: seq<Name>, es: seq<AffineExpression>, m: nat, b: seq<AffineExpression>, r: seq<AffineExpression>)
    requires AllValid(es) && Triangular(vs, es) && m < |es|
    requires b == Back(vs, es, m + 1) && r == Back(vs, es, m)
    requires forall k, i :: m + 1 <= k < |es| && 0 <= i < |vs| ==> !Mentions(b[k], vs[i])
    ensures forall k, i :: m <= k < |es| && 0 <= i < |vs| ==> !Mentions(r[k], vs[i])
  {
    FoldAvoids(vs, es, b, m);
    BackStep(vs, es, m);
    AvoidsUpdate(vs, b, m, SubstFold(b[m], vs, b, m + 1, |es|), r);
  }

  lemma {:induction false} BackStep(vs: seq<Name>, es: seq<AffineExpression>, m: nat)
    requires AllValid(es) && |vs| == |es| && m < |es|
    ensures var b := Back(vs, es, m + 1);
      Back(vs, es, m) == b[m := SubstFold(b[m], vs, b, m + 1, |es|)]
  {
  }

  /** Folding the later back expressions into equation `m` leaves no pivot. */
  lemma {:induction false} FoldAvoids(vs: seq<Name>, es: seq<AffineExpression>, b: seq<AffineExpression>, m: nat)
    requires AllValid(b) && Triangular(vs, es) && m < |es| == |b| && b[m] == es[m]
    requires forall k, i :: m + 1 <= k < |es| && 0 <= i < |vs| ==> !Mentions(b[k], vs[i])
    ensures forall i :: 0 <= i < |vs| ==> !Mentions(SubstFold(b[m], vs, b, m + 1, |es|), vs[i])
  {
    forall i | 0 <= i < |vs|
      ensures !Mentions(SubstFold(b[m], vs, b, m + 1, |es|), vs[i])
    {
      SubstFoldMentions(b[m], vs, b, m + 1, |es|, vs[i]);
      NoPivotLeft(vs, es, b, m, i);
    }
  }

  /** Neither way a fold at index `m` could mention pivot `i` is open: the
      equation avoids the pivots up to `m` and every later pivot was
      substituted by an expression free of pivots. */
  lemma {:induction false} NoPivotLeft(vs: seq<Name>, es: seq<AffineExpression>, b: seq<AffineExpression>, m: nat, i: nat)
    requires Triangular(vs, es) && m < |es| == |b| && i < |vs| && b[m] == es[m]
    requires forall k, i :: m + 1 <= k < |es| && 0 <= i < |vs| ==> !Mentions(b[k], vs[i])
    ensures !(Mentions(b[m], vs[i]) && forall j :: m + 1 <= j < |es| ==> vs[j] != vs[i])
    ensures !exists j :: m + 1 <= j < |es| && Mentions(b[j], vs[i])
  {
    if i > m {
      assert vs[i] == vs[i];
    }
  }

  lemma {:induction false} AvoidsUpdate(vs: seq<Name>, b: seq<AffineExpression>, m: nat, x: AffineExpression, r: seq<AffineExpression>)
    requires m < |b| && r == b[m := x] && forall i :: 0 <= i < |vs| ==> !Mentions(x, vs[i])
    requires forall k, i :: m + 1 <= k < |b| && 0 <= i < |vs| ==> !Mentions(b[k], vs[i])
    ensures forall k, i :: m <= k < |b| && 0 <= i < |vs| ==> !Mentions(r[k], vs[i])
  {
  }

  /** After the reverse back-substitution loop no back expression mentions
      any pivot variable (linearsystem.js:185-189). */
  lemma {:induction false} BackFacts(s: seq<AffineExpression>)
    requires AllValid(s)
    ensures forall k, i :: 0 <= k < |ForwardPass(s).exprs| && 0 <= i < |ForwardPass(s).pivots| ==>
              !Mentions(Back(ForwardPass(s).pivots, ForwardPass(s).exprs, 0)[k], ForwardPass(s).pivots[i])
  {
    PivotFacts(s);
    BackAvoids(ForwardPass(s).pivots, ForwardPass(s).exprs, 0, Back(ForwardPass(s).pivots, ForwardPass(s).exprs, 0));
  }

  /** Forward elimination fails exactly when the system it leaves holds an
      equation with no variables and a constant that is not near zero (each
      equation there has the pivots found before it substituted). */
  lemma {:induction false} InconsistentIff(t: seq<AffineExpression>)
    requires AllValid(t)
    ensures !ForwardPass(t).consistent <==>
              exists k :: 0 <= k < |ForwardPass(t).seen| && Contradiction(ForwardPass(t).seen[k])
    decreases |t|
  {
    if |t| > 0 {
      AllValidTail(t);
      match Pivot(t[0])
      case Some(q) =>
        var sub := SolveFor(t[0], q);
        var t' := SubstituteAll(t[1..], q, sub);
        InconsistentIff(t');
        ForwardPivot(t, q, sub, ForwardPass(t'));
        ContradictionCons(t[0], ForwardPass(t').seen);
      case None =>
        if NearZero(t[0].constant) {
          InconsistentIff(t[1..]);
          ContradictionCons(t[0], ForwardPass(t[1..]).seen);
        } else {
          assert Contradiction(ForwardPass(t).seen[0]);
        }
    }
  }

  lemma {:induction false} ContradictionCons(e: AffineExpression, t: seq<AffineExpression>)
    requires !Contradiction(e)
    ensures (exists k :: 0 <= k < |[e] + t| && Contradiction(([e] + t)[k])) <==>
            (exists k :: 0 <= k < |t| && Contradiction(t[k]))
  {
    if exists k :: 0 <= k < |[e] + t| && Contradiction(([e] + t)[k]) {
      var k :| 0 <= k < |[e] + t| && Contradiction(([e] + t)[k]);
      assert ([e] + t)[k] == t[k - 1];
    }
    if exists k :: 0 <= k < |t| && Contradiction(t[k]) {
      var k :| 0 <= k < |t| && Contradiction(t[k]);
      assert ([e] + t)[k + 1] == t[k];
    }
  }

  /** The `soln` object has exactly the pivot variables as keys; with
      distinct pivots each one holds the value of its own back expression. */
  lemma {:induction false} ExtractFacts(vs: seq<Name>, bs: seq<AffineExpression>)
    requires |vs| == |bs|
    ensures forall w :: w in Extract(vs, bs) <==> w in vs
    ensures Distinct(vs) ==> forall k :: 0 <= k < |vs| ==> Extract(vs, bs)[vs[k]] == ValueOf(bs[k])
    decreases |vs|
  {
    if |vs| > 0 {
      var n := |vs| - 1;
      ExtractFacts(vs[..n], bs[..n]);
      assert vs == vs[..n] + [vs[n]];
      if Distinct(vs) {
        assert Distinct(vs[..n]);
        forall k | 0 <= k < |vs|
          ensures Extract(vs, bs)[vs[k]] == ValueOf(bs[k])
        {
          if k < n {
            assert vs[..n][k] == vs[k] && bs[..n][k] == bs[k];
          }
        }
      }
    }
  }

  /** A consistent system is solved: the keys of the solution are exactly the
      pivot variables, each holding a number when its back expression is
      scalar and "underconstrained" otherwise (linearsystem.js:191-200). */
  lemma {:induction false} SolutionFacts(s: seq<AffineExpression>)
    requires AllValid(s) && ForwardPass(s).consistent
    ensures Solve(s).Solved?
    ensures forall w :: w in Solve(s).values <==> w in ForwardPass(s).pivots
    ensures forall k :: 0 <= k < |ForwardPass(s).pivots| ==>
              Solve(s).values[ForwardPass(s).pivots[k]] ==
                ValueOf(Back(ForwardPass(s).pivots, ForwardPass(s).exprs, 0)[k])
  {
    var f := ForwardPass(s);
    PivotFacts(s);
    ExtractFacts(f.pivots, Back(f.pivots, f.exprs, 0));
  }
}
