/** Affine expressions: a sparse linear combination of named variables plus a
    constant, read as the equation  sum(c_i * v_i) + constant == 0.

    The coefficient table of the original is a JavaScript object keyed by
    variable name.  It is modelled as a `Table`: the keys in insertion order
    (the order a `for ... in` loop visits them, which decides which of two
    equally large coefficients LargestPivot returns) and a map holding the
    value of each key.  Coefficients are `real`; IEEE rounding is not
    modelled. */
module AffineExpressions {

  datatype Option<T> = None | Some(value: T)

  type Name = string

  /** The pruning tolerance 1e-9 of nearZero. */
  const Tolerance: real := 0.000000001

  function Abs(a: real): real
  {
    if a < 0.0 then -a else a
  }

  predicate NearZero(a: real)
  {
    Abs(a) < Tolerance
  }

  /** The coefficient a table reports after the constructor was given `a`. */
  function Pruned(a: real): real
  {
    if NearZero(a) then 0.0 else a
  }

  predicate Distinct(s: seq<Name>)
  {
    forall i, j :: 0 <= i < j < |s| ==> s[i] != s[j]
  }

  /** A JavaScript object used as a dictionary: its keys in insertion order
      and the value stored under each. */
  datatype Table = Table(keys: seq<Name>, values: map<Name, real>)

  predicate WellFormed(t: Table)
  {
    && Distinct(t.keys)
    && (forall v :: v in t.values ==> v in t.keys)
    && (forall i :: 0 <= i < |t.keys| ==> t.keys[i] in t.values)
  }

  /** `t[v]`, reading an absent key as 0. */
  function Lookup(t: Table, v: Name): real
  {
    if v in t.values then t.values[v] else 0.0
  }

  /** The assignment `t[v] = a`: a new key goes to the end of the key order,
      an existing key keeps its place. */
  function Put(t: Table, v: Name, a: real): (r: Table)
    ensures WellFormed(t) ==> WellFormed(r)
  {
    if v in t.values then Table(t.keys, t.values[v := a])
    else Table(t.keys + [v], t.values[v := a])
  }

  /** `coeffs` is the table, `empty` the flag the constructor clears on every
      store, `constant` the constant term. */
  datatype AffineExpression = AffineExpression(coeffs: Table, empty: bool, constant: real)

  /** `v in this.coeffs`. */
  predicate Mentions(e: AffineExpression, v: Name)
  {
    v in e.coeffs.values
  }

  /** What every constructed expression satisfies: a well-formed table, no
      stored coefficient near zero, and `empty` exactly when nothing is stored. */
  predicate Valid(e: AffineExpression)
  {
    && WellFormed(e.coeffs)
    && (forall v :: v in e.coeffs.values ==> !NearZero(e.coeffs.values[v]))
    && (e.empty <==> |e.coeffs.keys| == 0)
  }

  /** The table after the first `n` rounds of the constructor's loop. */
  function Stored(coeffs: seq<real>, vars: seq<Name>, n: nat): Table
    requires n <= |vars| <= |coeffs|
  {
    if n == 0 then Table([], map[])
    else if NearZero(coeffs[n - 1]) then Stored(coeffs, vars, n - 1)
    else Put(Stored(coeffs, vars, n - 1), vars[n - 1], coeffs[n - 1])
  }

  /** Whether one of the first `n` rounds stored a coefficient (clearing `empty`). */
  function AnyStored(coeffs: seq<real>, vars: seq<Name>, n: nat): bool
    requires n <= |vars| <= |coeffs|
  {
    n > 0 && (AnyStored(coeffs, vars, n - 1) || !NearZero(coeffs[n - 1]))
  }

  lemma {:induction false} StoredWellFormed(coeffs: seq<real>, vars: seq<Name>, n: nat)
    requires n <= |vars| <= |coeffs|
    ensures WellFormed(Stored(coeffs, vars, n))
  {
    if n > 0 {
      StoredWellFormed(coeffs, vars, n - 1);
    }
  }

  lemma {:induction false} StoredNotNearZero(coeffs: seq<real>, vars: seq<Name>, n: nat)
    requires n <= |vars| <= |coeffs|
    ensures forall v :: v in Stored(coeffs, vars, n).values ==> !NearZero(Stored(coeffs, vars, n).values[v])
  {
    if n > 0 {
      StoredNotNearZero(coeffs, vars, n - 1);
      StoredStep(coeffs, vars, n);
      NotNearZeroAt(coeffs, vars, n, Stored(coeffs, vars, n - 1).values, Stored(coeffs, vars, n).values);
    }
  }

  lemma {:induction false} NotNearZeroAt(coeffs: seq<real>, vars: seq<Name>, n: nat, before: map<Name, real>, after: map<Name, real>)
    requires 0 < n <= |vars| <= |coeffs|
    requires after == if NearZero(coeffs[n - 1]) then before else before[vars[n - 1] := coeffs[n - 1]]
    requires forall v :: v in before ==> !NearZero(before[v])
    ensures forall v :: v in after ==> !NearZero(after[v])
  {
  }

  lemma {:induction false} StoredWritten(coeffs: seq<real>, vars: seq<Name>, n: nat)
    requires n <= |vars| <= |coeffs|
    ensures forall w :: w in Stored(coeffs, vars, n).values <==>
              exists i :: 0 <= i < n && vars[i] == w && !NearZero(coeffs[i])
  {
    if n > 0 {
      StoredWritten(coeffs, vars, n - 1);
      StoredStep(coeffs, vars, n);
      WrittenAt(coeffs, vars, n, Stored(coeffs, vars, n - 1).values, Stored(coeffs, vars, n).values);
    }
  }

  /** One round of the constructor's loop keeps "a name is stored exactly when
      one of its writes so far is not near zero". */
  lemma {:induction false} WrittenAt(coeffs: seq<real>, vars: seq<Name>, n: nat, before: map<Name, real>, after: map<Name, real>)
    requires 0 < n <= |vars| <= |coeffs|
    requires after == if NearZero(coeffs[n - 1]) then before else before[vars[n - 1] := coeffs[n - 1]]
    requires forall w :: w in before <==> exists i :: 0 <= i < n - 1 && vars[i] == w && !NearZero(coeffs[i])
    ensures forall w :: w in after <==> exists i :: 0 <= i < n && vars[i] == w && !NearZero(coeffs[i])
  {
    forall w | exists i :: 0 <= i < n && vars[i] == w && !NearZero(coeffs[i])
      ensures w in after
    {
      var i :| 0 <= i < n && vars[i] == w && !NearZero(coeffs[i]);
      if i < n - 1 {
        assert w in before;
      }
    }
  }

  lemma {:induction false} StoredAny(coeffs: seq<real>, vars: seq<Name>, n: nat)
    requires n <= |vars| <= |coeffs|
    ensures AnyStored(coeffs, vars, n) <==> |Stored(coeffs, vars, n).keys| != 0
    ensures AnyStored(coeffs, vars, n) <==> exists i :: 0 <= i < n && !NearZero(coeffs[i])
  {
    if n > 0 {
      StoredAny(coeffs, vars, n - 1);
      StoredWellFormed(coeffs, vars, n - 1);
      if AnyStored(coeffs, vars, n) && !AnyStored(coeffs, vars, n - 1) {
        assert !NearZero(coeffs[n - 1]);
      }
    }
  }

  lemma {:induction false} StoredLastWrite(coeffs: seq<real>, vars: seq<Name>, n: nat)
    requires n <= |vars| <= |coeffs|
    ensures forall w :: w in Stored(coeffs, vars, n).values ==>
              exists i :: 0 <= i < n && vars[i] == w && Stored(coeffs, vars, n).values[w] == coeffs[i]
                          && forall j :: i < j < n && vars[j] == w ==> NearZero(coeffs[j])
  {
    if n > 0 {
      StoredLastWrite(coeffs, vars, n - 1);
      var before := Stored(coeffs, vars, n - 1).values;
      var after := Stored(coeffs, vars, n).values;
      StoredStep(coeffs, vars, n);
      forall w | w in after
        ensures exists i :: 0 <= i < n && vars[i] == w && after[w] == coeffs[i]
                            && forall j :: i < j < n && vars[j] == w ==> NearZero(coeffs[j])
      {
        LastWriteAt(coeffs, vars, n, before, after, w);
      }
    }
  }

  lemma {:induction false} StoredStep(coeffs: seq<real>, vars: seq<Name>, n: nat)
    requires 0 < n <= |vars| <= |coeffs|
    ensures Stored(coeffs, vars, n).values ==
              if NearZero(coeffs[n - 1]) then Stored(coeffs, vars, n - 1).values
              else Stored(coeffs, vars, n - 1).values[vars[n - 1] := coeffs[n - 1]]
  {
  }

  /** One round of the constructor's loop keeps "the stored value of `w` is its
      last write that is not near zero". */
  lemma {:induction false} LastWriteAt(coeffs: seq<real>, vars: seq<Name>, n: nat, before: map<Name, real>, after: map<Name, real>,
                    w: Name)
    requires 0 < n <= |vars| <= |coeffs|
    requires after == if NearZero(coeffs[n - 1]) then before else before[vars[n - 1] := coeffs[n - 1]]
    requires w in before ==>
               exists i :: 0 <= i < n - 1 && vars[i] == w && before[w] == coeffs[i]
                           && forall j :: i < j < n - 1 && vars[j] == w ==> NearZero(coeffs[j])
    requires w in after
    ensures exists i :: 0 <= i < n && vars[i] == w && after[w] == coeffs[i]
                        && forall j :: i < j < n && vars[j] == w ==> NearZero(coeffs[j])
  {
    if w == vars[n - 1] && !NearZero(coeffs[n - 1]) {
      assert 0 <= n - 1 < n && vars[n - 1] == w && after[w] == coeffs[n - 1];
    } else {
      assert w in before && after[w] == before[w];
      var i :| 0 <= i < n - 1 && vars[i] == w && before[w] == coeffs[i]
               && forall j :: i < j < n - 1 && vars[j] == w ==> NearZero(coeffs[j]);
      assert forall j :: i < j < n && vars[j] == w ==> NearZero(coeffs[j]);
    }
  }

  /** The constructor `new AffineExpression(coeffs, vars, c)`.  It stores every
      pair whose coefficient is not near zero, a later store for a name
      overwriting an earlier one. */
  function New(coeffs: seq<real>, vars: seq<Name>, c: real): (r: AffineExpression)
    requires |vars| <= |coeffs|
    ensures Valid(r) && r.constant == c
  {
    StoredWellFormed(coeffs, vars, |vars|);
    StoredNotNearZero(coeffs, vars, |vars|);
    StoredAny(coeffs, vars, |vars|);
    AffineExpression(Stored(coeffs, vars, |vars|), !AnyStored(coeffs, vars, |vars|), c)
  }

  /** What the constructor stores: exactly the names written with a
      coefficient that is not near zero, each with its last such write. */
  lemma {:induction false} NewFacts(coeffs: seq<real>, vars: seq<Name>, c: real)
    requires |vars| <= |coeffs|
    ensures New(coeffs, vars, c).empty <==> forall i :: 0 <= i < |vars| ==> NearZero(coeffs[i])
    ensures forall w :: Mentions(New(coeffs, vars, c), w) <==>
              exists i :: 0 <= i < |vars| && vars[i] == w && !NearZero(coeffs[i])
    ensures forall w :: Mentions(New(coeffs, vars, c), w) ==>
              exists i :: 0 <= i < |vars| && vars[i] == w && GetCoefficient(New(coeffs, vars, c), w) == coeffs[i]
                          && forall j :: i < j < |vars| && vars[j] == w ==> NearZero(coeffs[j])
  {
    StoredWritten(coeffs, vars, |vars|);
    StoredAny(coeffs, vars, |vars|);
    StoredLastWrite(coeffs, vars, |vars|);
  }

  /** With distinct names, the constructor keeps every coefficient that is
      not near zero and reports 0 for the others. */
  lemma {:induction false} NewDistinct(coeffs: seq<real>, vars: seq<Name>, c: real)
    requires |vars| <= |coeffs| && Distinct(vars)
    ensures forall i :: 0 <= i < |vars| ==>
              GetCoefficient(New(coeffs, vars, c), vars[i]) == (if NearZero(coeffs[i]) then 0.0 else coeffs[i])
  {
    var e := New(coeffs, vars, c);
    NewFacts(coeffs, vars, c);
    forall i | 0 <= i < |vars|
      ensures GetCoefficient(e, vars[i]) == (if NearZero(coeffs[i]) then 0.0 else coeffs[i])
    {
      if !NearZero(coeffs[i]) {
        assert Mentions(e, vars[i]);
        var m :| 0 <= m < |vars| && vars[m] == vars[i] && GetCoefficient(e, vars[i]) == coeffs[m];
      }
    }
  }

  /** getCoefficient: the stored coefficient, or 0 when `v` is absent. */
  function GetCoefficient(e: AffineExpression, v: Name): (r: real)
    ensures !Mentions(e, v) ==> r == 0.0
    ensures Valid(e) && Mentions(e, v) ==> !NearZero(r)
  {
    Lookup(e.coeffs, v)
  }

  /** isScalar: the `empty` flag. */
  function IsScalar(e: AffineExpression): (r: bool)
    ensures Valid(e) ==> (r <==> forall v :: !Mentions(e, v))
  {
    assert Valid(e) && |e.coeffs.keys| > 0 ==> Mentions(e, e.coeffs.keys[0]);
    e.empty
  }

  /** getScalarValue. */
  function GetScalarValue(e: AffineExpression): real
  {
    e.constant
  }

  /** The sum of `t[k] * env[k]` over the names `ks`, an unassigned name
      counting as 0. */
  function Terms(t: Table, ks: seq<Name>, env: map<Name, real>): real
  {
    if |ks| == 0 then 0.0
    else
      var k := ks[|ks| - 1];
      Terms(t, ks[..|ks| - 1], env) + Lookup(t, k) * (if k in env then env[k] else 0.0)
  }

  /** The value of the left-hand side of `e == 0` when the names take the
      values `env`. */
  function Eval(e: AffineExpression, env: map<Name, real>): real
  {
    Terms(e.coeffs, e.coeffs.keys, env) + e.constant
  }

  /** A scalar expression has the same value under every assignment, and
      getScalarValue reads that value. */
  lemma {:induction false} ScalarValue(e: AffineExpression, env: map<Name, real>)
    requires Valid(e) && IsScalar(e)
    ensures Eval(e, env) == GetScalarValue(e)
  {
  }

  /** The magnitudes of the stored coefficients, in key order. */
  function Magnitudes(t: Table): (m: seq<real>)
    requires WellFormed(t)
    ensures |m| == |t.keys| && forall q :: 0 <= q < |m| ==> m[q] == Abs(t.values[t.keys[q]])
  {
    seq(|t.keys|, q requires 0 <= q < |t.keys| => Abs(t.values[t.keys[q]]))
  }

  /** The loop of getLargestPivot from key position `i` on, over the
      magnitudes `m`, with `maxPivot` and the position `pivot` of `pivotVar`
      (-1 for null) as the loop left them. */
  function PivotScan(m: seq<real>, i: nat, maxPivot: real, pivot: int): (r: int)
    requires i <= |m| && -1 <= pivot < i
    requires forall q :: 0 <= q < |m| ==> 0.0 <= m[q]
    requires pivot == -1 ==> i == 0 && maxPivot == 0.0
    requires pivot >= 0 ==>
               && maxPivot == m[pivot]
               && (forall q :: 0 <= q < i ==> m[q] <= maxPivot)
               && (forall q :: pivot < q < i ==> m[q] < maxPivot)
    ensures -1 <= r < |m|
    ensures r == -1 <==> |m| == 0
    ensures 0 <= r ==> (forall q :: 0 <= q < |m| ==> m[q] <= m[r])
                       && (forall q :: r < q < |m| ==> m[q] < m[r])
    decreases |m| - i
  {
    if i == |m| then pivot
    else if m[i] >= maxPivot then PivotScan(m, i + 1, m[i], i)
    else PivotScan(m, i + 1, maxPivot, pivot)
  }

  /** getLargestPivot: null for a scalar; otherwise a stored name whose
      coefficient has the largest magnitude; of equally large ones the `>=`
      picks the last in key order. */
  function LargestPivot(e: AffineExpression): (r: Option<Name>)
    requires Valid(e)
    ensures r.None? <==> IsScalar(e)
    ensures r.Some? ==> Mentions(e, r.value)
  {
    var p := PivotScan(Magnitudes(e.coeffs), 0, 0.0, -1);
    if p == -1 then None else Some(e.coeffs.keys[p])
  }

  /** The pivot's coefficient is at least as large in magnitude as every
      other stored one, and strictly larger than every one stored after it. */
  lemma {:induction false} LargestPivotFacts(e: AffineExpression)
    requires Valid(e) && LargestPivot(e).Some?
    ensures forall w :: Mentions(e, w) ==> Abs(GetCoefficient(e, w)) <= Abs(GetCoefficient(e, LargestPivot(e).value))
    ensures exists p :: 0 <= p < |e.coeffs.keys| && e.coeffs.keys[p] == LargestPivot(e).value
                        && forall q :: p < q < |e.coeffs.keys| ==>
                             Abs(GetCoefficient(e, e.coeffs.keys[q])) < Abs(GetCoefficient(e, LargestPivot(e).value))
  {
    var m := Magnitudes(e.coeffs);
    var p := PivotScan(m, 0, 0.0, -1);
    LargestPivotStep(e, m, p);
    forall q | p < q < |e.coeffs.keys|
      ensures Abs(GetCoefficient(e, e.coeffs.keys[q])) < Abs(GetCoefficient(e, e.coeffs.keys[p]))
    {
      assert m[q] < m[p];
    }
  }

  lemma {:induction false} LargestPivotStep(e: AffineExpression, m: seq<real>, p: int)
    requires Valid(e) && m == Magnitudes(e.coeffs) && 0 <= p < |m|
    requires forall q :: 0 <= q < |m| ==> m[q] <= m[p]
    ensures forall w :: Mentions(e, w) ==> Abs(GetCoefficient(e, w)) <= Abs(GetCoefficient(e, e.coeffs.keys[p]))
  {
    forall w | Mentions(e, w)
      ensures Abs(GetCoefficient(e, w)) <= Abs(GetCoefficient(e, e.coeffs.keys[p]))
    {
      var q :| 0 <= q < |e.coeffs.keys| && e.coeffs.keys[q] == w;
      assert m[q] <= m[p];
    }
  }

  /** The keys of `ks` whose value in `m` is not near zero, in order. */
  function KeptKeys(ks: seq<Name>, m: map<Name, real>): seq<Name>
    requires forall i :: 0 <= i < |ks| ==> ks[i] in m
  {
    if |ks| == 0 then []
    else
      var last := ks[|ks| - 1];
      KeptKeys(ks[..|ks| - 1], m) + (if NearZero(m[last]) then [] else [last])
  }

  /** The values `m[ks[0]], m[ks[1]], ...` (the `coeffs` array filled beside `vars`). */
  function ValuesAt(ks: seq<Name>, m: map<Name, real>): (r: seq<real>)
    requires forall i :: 0 <= i < |ks| ==> ks[i] in m
    ensures |r| == |ks| && forall i :: 0 <= i < |ks| ==> r[i] == m[ks[i]]
  {
    seq(|ks|, i requires 0 <= i < |ks| => m[ks[i]])
  }

  lemma {:induction false} StoredDistinct(t: Table, n: nat)
    requires WellFormed(t) && n <= |t.keys|
    ensures Stored(ValuesAt(t.keys, t.values), t.keys, n).keys == KeptKeys(t.keys[..n], t.values)
    ensures forall w :: w in Stored(ValuesAt(t.keys, t.values), t.keys, n).values ==>
              w in t.values && Stored(ValuesAt(t.keys, t.values), t.keys, n).values[w] == t.values[w]
  {
    if n > 0 {
      var cs := ValuesAt(t.keys, t.values);
      StoredDistinct(t, n - 1);
      StoredWritten(cs, t.keys, n - 1);
      StoredUnfold(cs, t.keys, n);
      KeptKeysLast(t.keys, n, t.values);
      DistinctAt(t, n, Stored(cs, t.keys, n - 1), Stored(cs, t.keys, n));
    }
  }

  lemma {:induction false} StoredUnfold(coeffs: seq<real>, vars: seq<Name>, n: nat)
    requires 0 < n <= |vars| <= |coeffs|
    ensures Stored(coeffs, vars, n) ==
              if NearZero(coeffs[n - 1]) then Stored(coeffs, vars, n - 1)
              else Put(Stored(coeffs, vars, n - 1), vars[n - 1], coeffs[n - 1])
  {
  }

  lemma {:induction false} KeptKeysLast(ks: seq<Name>, n: nat, m: map<Name, real>)
    requires 0 < n <= |ks| && forall i :: 0 <= i < |ks| ==> ks[i] in m
    ensures KeptKeys(ks[..n], m) ==
              KeptKeys(ks[..n - 1], m) + (if NearZero(m[ks[n - 1]]) then [] else [ks[n - 1]])
  {
    assert ks[..n][..n - 1] == ks[..n - 1];
  }

  /** One round of the constructor's loop over a table's own keys appends the
      key it stores, which no earlier round stored. */
  lemma {:induction false} DistinctAt(t: Table, n: nat, before: Table, after: Table)
    requires WellFormed(t) && 0 < n <= |t.keys|
    requires before.keys == KeptKeys(t.keys[..n - 1], t.values)
    requires forall w :: w in before.values ==> w in t.values && before.values[w] == t.values[w]
    requires forall w :: w in before.values ==> exists i :: 0 <= i < n - 1 && t.keys[i] == w
    requires after == if NearZero(t.values[t.keys[n - 1]]) then before
                      else Put(before, t.keys[n - 1], t.values[t.keys[n - 1]])
    requires KeptKeys(t.keys[..n], t.values) ==
               KeptKeys(t.keys[..n - 1], t.values) + (if NearZero(t.values[t.keys[n - 1]]) then [] else [t.keys[n - 1]])
    ensures after.keys == KeptKeys(t.keys[..n], t.values)
    ensures forall w :: w in after.values ==> w in t.values && after.values[w] == t.values[w]
  {
    assert t.keys[n - 1] !in before.values;
  }

  /** `new AffineExpression(coeffs, vars, c)` where `vars` lists the keys of a
      table and `coeffs` their values, as solveFor and substitute build them. */
  function FromTable(t: Table, c: real): (r: AffineExpression)
    requires WellFormed(t)
    ensures Valid(r) && r.constant == c
  {
    PrunedWellFormed(t);
    AffineExpression(PrunedTable(t), |KeptKeys(t.keys, t.values)| == 0, c)
  }

  lemma {:induction false} PrunedWellFormed(t: Table)
    requires WellFormed(t)
    ensures WellFormed(PrunedTable(t))
  {
    KeptKeysFacts(t.keys, t.values);
    var p := PrunedTable(t);
    forall i | 0 <= i < |p.keys|
      ensures p.keys[i] in p.values
    {
      assert p.keys[i] in KeptKeys(t.keys, t.values);
    }
  }

  lemma {:induction false} KeptKeysFacts(ks: seq<Name>, m: map<Name, real>)
    requires forall i :: 0 <= i < |ks| ==> ks[i] in m
    ensures forall w :: w in KeptKeys(ks, m) <==> w in ks && w in m && !NearZero(m[w])
    ensures Distinct(ks) ==> Distinct(KeptKeys(ks, m))
  {
    if |ks| > 0 {
      var init := ks[..|ks| - 1];
      var last := ks[|ks| - 1];
      KeptKeysFacts(init, m);
      assert ks == init + [last];
      if Distinct(ks) {
        assert Distinct(init);
        assert last !in init;
      }
    }
  }

  /** The entries of `t` whose value is not near zero, in key order. */
  function PrunedTable(t: Table): Table
    requires WellFormed(t)
  {
    Table(KeptKeys(t.keys, t.values), map w | w in t.values && !NearZero(t.values[w]) :: t.values[w])
  }

  /** Running the constructor over a table's keys and values keeps exactly
      its entries that are not near zero, in key order. */
  lemma {:induction false} StoredIsPruned(t: Table, c: real)
    requires WellFormed(t)
    ensures New(ValuesAt(t.keys, t.values), t.keys, c)
         == AffineExpression(PrunedTable(t), |KeptKeys(t.keys, t.values)| == 0, c)
  {
    var coeffs := ValuesAt(t.keys, t.values);
    var n := |t.keys|;
    StoredDistinct(t, n);
    StoredAny(coeffs, t.keys, n);
    assert t.keys[..n] == t.keys;
    StoredPrunedValues(t);
  }

  lemma {:induction false} StoredPrunedValues(t: Table)
    requires WellFormed(t)
    ensures Stored(ValuesAt(t.keys, t.values), t.keys, |t.keys|).values == PrunedTable(t).values
  {
    var coeffs := ValuesAt(t.keys, t.values);
    var n := |t.keys|;
    StoredDistinct(t, n);
    StoredWritten(coeffs, t.keys, n);
    PrunedValuesFrom(t, coeffs, Stored(coeffs, t.keys, n).values, PrunedTable(t).values);
  }

  lemma {:induction false} PrunedValuesFrom(t: Table, coeffs: seq<real>, stored: map<Name, real>, pruned: map<Name, real>)
    requires WellFormed(t) && |coeffs| == |t.keys|
    requires forall i :: 0 <= i < |t.keys| ==> coeffs[i] == t.values[t.keys[i]]
    requires forall w :: w in stored <==> exists i :: 0 <= i < |t.keys| && t.keys[i] == w && !NearZero(coeffs[i])
    requires forall w :: w in stored ==> w in t.values && stored[w] == t.values[w]
    requires pruned == map w | w in t.values && !NearZero(t.values[w]) :: t.values[w]
    ensures stored == pruned
  {
    forall w
      ensures w in stored <==> w in t.values && !NearZero(t.values[w])
    {
      if w in t.values && !NearZero(t.values[w]) {
        var i :| 0 <= i < |t.keys| && t.keys[i] == w;
        assert coeffs[i] == t.values[w];
      }
    }
  }

  /** FromTable is the constructor applied to the keys of a table and the
      values under them, as solveFor and substitute call it. */
  lemma {:induction false} FromTableIsNew(t: Table, c: real)
    requires WellFormed(t)
    ensures FromTable(t, c) == New(ValuesAt(t.keys, t.values), t.keys, c)
  {
    StoredIsPruned(t, c);
  }

  /** The keys of `ks` other than `v`, in order. */
  function RemoveKey(ks: seq<Name>, v: Name): seq<Name>
  {
    if |ks| == 0 then []
    else
      var last := ks[|ks| - 1];
      RemoveKey(ks[..|ks| - 1], v) + (if last == v then [] else [last])
  }

  lemma {:induction false} RemoveKeyFacts(ks: seq<Name>, v: Name)
    ensures forall w :: w in RemoveKey(ks, v) <==> w in ks && w != v
    ensures v !in ks ==> RemoveKey(ks, v) == ks
    ensures Distinct(ks) ==> Distinct(RemoveKey(ks, v))
  {
    if |ks| > 0 {
      var init := ks[..|ks| - 1];
      RemoveKeyFacts(init, v);
      assert ks == init + [ks[|ks| - 1]];
      if Distinct(ks) {
        assert Distinct(init);
        assert ks[|ks| - 1] !in init;
      }
    }
  }

  /** A table over the keys of `t` other than `v`, in the same order. */
  lemma {:induction false} RemovedWellFormed(t: Table, v: Name, m: map<Name, real>)
    requires WellFormed(t)
    requires forall w :: w in m <==> w in t.values && w != v
    ensures WellFormed(Table(RemoveKey(t.keys, v), m))
  {
    RemoveKeyFacts(t.keys, v);
    var ks := RemoveKey(t.keys, v);
    forall i | 0 <= i < |ks|
      ensures ks[i] in m
    {
      assert ks[i] in ks;
    }
  }

  /** solveFor: the expression giving `v` in terms of the other variables: each
      other name w with -c_w / c_v, in key order, and the constant -c / c_v.
      The original expects `v` to have a non-zero coefficient. */
  function SolveFor(e: AffineExpression, v: Name): (r: AffineExpression)
    requires Valid(e) && GetCoefficient(e, v) != 0.0
    ensures Valid(r) && r.constant == -e.constant / GetCoefficient(e, v)
  {
    FromTable(SolvedTable(e, v), -e.constant / GetCoefficient(e, v))
  }

  /** The table of solveFor's loop: every key but `v`, in key order. */
  function SolvedTable(e: AffineExpression, v: Name): (t: Table)
    requires Valid(e) && GetCoefficient(e, v) != 0.0
    ensures WellFormed(t)
  {
    var d := Divided(e.coeffs, v, GetCoefficient(e, v));
    RemovedWellFormed(e.coeffs, v, d);
    Table(RemoveKey(e.coeffs.keys, v), d)
  }

  /** What solveFor computes: `v` is gone, no name is added, and every other
      name w gets -c_w / c_v (pruned). */
  lemma {:induction false} SolveForFacts(e: AffineExpression, v: Name)
    requires Valid(e) && GetCoefficient(e, v) != 0.0
    ensures !Mentions(SolveFor(e, v), v)
    ensures forall w :: Mentions(SolveFor(e, v), w) ==> Mentions(e, w)
    ensures forall w :: Mentions(e, w) && w != v ==>
              GetCoefficient(SolveFor(e, v), w) == Pruned(-GetCoefficient(e, w) / GetCoefficient(e, v))
  {
    var d := GetCoefficient(e, v);
    var t := SolvedTable(e, v);
    var r := SolveFor(e, v);
    SolvedValues(e.coeffs, v, d, t);
    SolvedCoefficients(e, v, d, t, r);
  }

  lemma {:induction false} SolvedCoefficients(e: AffineExpression, v: Name, d: real, t: Table, r: AffineExpression)
    requires Valid(e) && d == GetCoefficient(e, v) && d != 0.0
    requires forall w :: w in e.coeffs.values && w != v ==> w in t.values && t.values[w] == -e.coeffs.values[w] / d
    requires forall w :: GetCoefficient(r, w) == Pruned(Lookup(t, w))
    ensures forall w :: Mentions(e, w) && w != v ==>
              GetCoefficient(r, w) == Pruned(-GetCoefficient(e, w) / GetCoefficient(e, v))
  {
    forall w | Mentions(e, w) && w != v
      ensures GetCoefficient(r, w) == Pruned(-GetCoefficient(e, w) / GetCoefficient(e, v))
    {
      assert GetCoefficient(e, w) == e.coeffs.values[w];
      assert Lookup(t, w) == t.values[w];
    }
  }

  /** The values solveFor pushes: -t[w] / d for each key w other than `v`. */
  function Divided(t: Table, v: Name, d: real): (m: map<Name, real>)
    requires d != 0.0
  {
    map w | w in t.values && w != v :: -t.values[w] / d
  }

  lemma {:induction false} SolvedValues(t: Table, v: Name, d: real, r: Table)
    requires WellFormed(t) && d != 0.0
    requires r.values == Divided(t, v, d)
    ensures v !in r.values
    ensures forall w :: w in r.values <==> w in t.values && w != v
    ensures forall w :: w in t.values && w != v ==> r.values[w] == -t.values[w] / d
  {
  }

  /** One round of substitute's second loop: `acc[x] += a` when `x` is a key
      of `acc`, otherwise `acc[x] = a`. */
  function AddEntry(acc: Table, x: Name, a: real): (r: Table)
    requires WellFormed(acc)
    ensures WellFormed(r)
  {
    if x in acc.values then Put(acc, x, acc.values[x] + a) else Put(acc, x, a)
  }

  lemma {:induction false} AddEntryFacts(acc: Table, x: Name, a: real)
    requires WellFormed(acc)
    ensures forall w :: w in AddEntry(acc, x, a).values <==> w in acc.values || w == x
    ensures forall w :: w in acc.values && w != x ==> AddEntry(acc, x, a).values[w] == acc.values[w]
    ensures x in acc.values ==> AddEntry(acc, x, a).values[x] == acc.values[x] + a
    ensures x !in acc.values ==> AddEntry(acc, x, a).values[x] == a
  {
  }

  /** The table `u` without its first key: what the rest of a `for ... in`
      loop over `u` still visits. */
  function Rest(u: Table): (r: Table)
    requires WellFormed(u) && |u.keys| > 0
    ensures WellFormed(r) && |r.keys| < |u.keys|
  {
    var r := Table(u.keys[1..], u.values - {u.keys[0]});
    RestWellFormed(u, r);
    r
  }

  lemma {:induction false} RestFacts(u: Table)
    requires WellFormed(u) && |u.keys| > 0
    ensures forall w :: w in Rest(u).values <==> w in u.values && w != u.keys[0]
    ensures forall w :: w in Rest(u).values ==> Rest(u).values[w] == u.values[w]
  {
  }

  lemma {:induction false} RestWellFormed(u: Table, r: Table)
    requires WellFormed(u) && |u.keys| > 0
    requires r == Table(u.keys[1..], u.values - {u.keys[0]})
    ensures WellFormed(r)
  {
    assert u.keys == [u.keys[0]] + r.keys;
    forall w | w in r.values
      ensures w in r.keys
    {
      assert w in u.keys;
    }
  }

  /** The products `u[x] * s` the second loop of substitute adds, by key. */
  function Scaled(u: Table, s: real): (r: Table)
    requires WellFormed(u)
    ensures WellFormed(r) && r.keys == u.keys
  {
    Table(u.keys, map w | w in u.values :: u.values[w] * s)
  }

  lemma {:induction false} ScaledFacts(u: Table, s: real)
    requires WellFormed(u)
    ensures forall w :: w in Scaled(u, s).values <==> w in u.values
    ensures forall w :: w in Scaled(u, s).values ==> Scaled(u, s).values[w] == u.values[w] * s
  {
  }

  /** The second loop of substitute: for each key x of `u`, in order,
      `acc[x] += u[x]` when `x` is a key of `acc`, otherwise `acc[x] = u[x]`. */
  function AddAll(acc: Table, u: Table): (r: Table)
    requires WellFormed(acc) && WellFormed(u)
    ensures WellFormed(r)
    decreases |u.keys|
  {
    if |u.keys| == 0 then acc
    else AddAll(AddEntry(acc, u.keys[0], u.values[u.keys[0]]), Rest(u))
  }

  lemma {:induction false} AddAllFacts(acc: Table, u: Table)
    requires WellFormed(acc) && WellFormed(u)
    ensures forall w :: w in AddAll(acc, u).values <==> w in acc.values || w in u.values
    ensures forall w :: w in acc.values && w !in u.values ==> AddAll(acc, u).values[w] == acc.values[w]
    ensures forall w :: w in acc.values && w in u.values ==> AddAll(acc, u).values[w] == acc.values[w] + u.values[w]
    ensures forall w :: w !in acc.values && w in u.values ==> AddAll(acc, u).values[w] == u.values[w]
    decreases |u.keys|
  {
    if |u.keys| > 0 {
      var next := AddEntry(acc, u.keys[0], u.values[u.keys[0]]);
      AddEntryFacts(acc, u.keys[0], u.values[u.keys[0]]);
      RestFacts(u);
      AddAllFacts(next, Rest(u));
      AddAllStep(acc, u, next, Rest(u), AddAll(next, Rest(u)));
    }
  }

  lemma {:induction false} AddAllStep(acc: Table, u: Table, next: Table, rest: Table, r: Table)
    requires WellFormed(u) && |u.keys| > 0
    requires u.keys[0] in u.values
    requires forall w :: w in next.values <==> w in acc.values || w == u.keys[0]
    requires forall w :: w in acc.values && w != u.keys[0] ==> next.values[w] == acc.values[w]
    requires u.keys[0] in acc.values ==> next.values[u.keys[0]] == acc.values[u.keys[0]] + u.values[u.keys[0]]
    requires u.keys[0] !in acc.values ==> next.values[u.keys[0]] == u.values[u.keys[0]]
    requires forall w :: w in rest.values <==> w in u.values && w != u.keys[0]
    requires forall w :: w in rest.values ==> rest.values[w] == u.values[w]
    requires forall w :: w in r.values <==> w in next.values || w in rest.values
    requires forall w :: w in next.values && w !in rest.values ==> r.values[w] == next.values[w]
    requires forall w :: w in next.values && w in rest.values ==> r.values[w] == next.values[w] + rest.values[w]
    requires forall w :: w !in next.values && w in rest.values ==> r.values[w] == rest.values[w]
    ensures forall w :: w in r.values <==> w in acc.values || w in u.values
    ensures forall w :: w in acc.values && w !in u.values ==> r.values[w] == acc.values[w]
    ensures forall w :: w in acc.values && w in u.values ==> r.values[w] == acc.values[w] + u.values[w]
    ensures forall w :: w !in acc.values && w in u.values ==> r.values[w] == u.values[w]
  {
  }

  /** The first loop of substitute: a copy of `t` without the key `v`. */
  function Without(t: Table, v: Name): (r: Table)
    requires WellFormed(t)
    ensures WellFormed(r)
  {
    RemovedWellFormed(t, v, t.values - {v});
    Table(RemoveKey(t.keys, v), t.values - {v})
  }

  lemma {:induction false} WithoutFacts(t: Table, v: Name)
    requires WellFormed(t)
    ensures forall w :: w in Without(t, v).values <==> w in t.values && w != v
    ensures forall w :: w in Without(t, v).values ==> Without(t, v).values[w] == t.values[w]
    ensures v !in t.values ==> Without(t, v) == t
  {
    RemoveKeyFacts(t.keys, v);
    if v !in t.values {
      assert t.values - {v} == t.values;
    }
  }

  /** substitute(v, expr): `v` replaced by `expr` scaled by v's coefficient;
      the constant becomes `c + c_v * expr.c`. What it does to each
      coefficient is stated by SubstituteFacts. */
  function Substitute(e: AffineExpression, v: Name, expr: AffineExpression): (r: AffineExpression)
    requires Valid(e) && Valid(expr)
    ensures Valid(r)
    ensures r.constant == e.constant + expr.constant * GetCoefficient(e, v)
  {
    FromTable(SubstitutedTable(e, v, expr), e.constant + expr.constant * GetCoefficient(e, v))
  }

  /** The table `newCoeffs` after the first two loops of substitute. */
  function SubstitutedTable(e: AffineExpression, v: Name, expr: AffineExpression): (t: Table)
    requires Valid(e) && Valid(expr)
    ensures WellFormed(t)
  {
    AddAll(Without(e.coeffs, v), Scaled(expr.coeffs, GetCoefficient(e, v)))
  }

  /** Each coefficient of the result is `c_x + c_v * e_x` (with `c_x` read
      as 0 for `v` itself), pruned, and the result only mentions variables
      of the two operands. */
  lemma {:induction false} SubstituteFacts(e: AffineExpression, v: Name, expr: AffineExpression)
    requires Valid(e) && Valid(expr)
    ensures forall x :: GetCoefficient(Substitute(e, v, expr), x) ==
              Pruned((if x == v then 0.0 else GetCoefficient(e, x)) + GetCoefficient(expr, x) * GetCoefficient(e, v))
    ensures forall x :: Mentions(Substitute(e, v, expr), x) ==> (Mentions(e, x) && x != v) || Mentions(expr, x)
  {
    var copied := Without(e.coeffs, v);
    var scaled := Scaled(expr.coeffs, GetCoefficient(e, v));
    WithoutFacts(e.coeffs, v);
    ScaledFacts(expr.coeffs, GetCoefficient(e, v));
    AddAllFacts(copied, scaled);
    SubstitutedCoefficients(e, v, expr, copied, scaled, SubstitutedTable(e, v, expr), Substitute(e, v, expr));
  }

  /** The names a substitution can mention: those of `e` other than `v`,
      and those of `expr`. */
  lemma {:induction false} SubstituteMentions(e: AffineExpression, v: Name, expr: AffineExpression, x: Name)
    requires Valid(e) && Valid(expr) && Mentions(Substitute(e, v, expr), x)
    ensures (Mentions(e, x) && x != v) || Mentions(expr, x)
  {
    SubstituteFacts(e, v, expr);
  }

  lemma {:induction false} SubstitutedCoefficients(e: AffineExpression, v: Name, expr: AffineExpression,
                                copied: Table, scaled: Table, t: Table, r: AffineExpression)
    requires forall w :: w in copied.values <==> w in e.coeffs.values && w != v
    requires forall w :: w in copied.values ==> copied.values[w] == e.coeffs.values[w]
    requires forall w :: w in scaled.values <==> w in expr.coeffs.values
    requires forall w :: w in scaled.values ==> scaled.values[w] == expr.coeffs.values[w] * GetCoefficient(e, v)
    requires forall w :: w in t.values <==> w in copied.values || w in scaled.values
    requires forall w :: w in copied.values && w !in scaled.values ==> t.values[w] == copied.values[w]
    requires forall w :: w in copied.values && w in scaled.values ==> t.values[w] == copied.values[w] + scaled.values[w]
    requires forall w :: w !in copied.values && w in scaled.values ==> t.values[w] == scaled.values[w]
    requires forall w :: GetCoefficient(r, w) == Pruned(Lookup(t, w))
    requires forall w :: Mentions(r, w) <==> w in t.values && !NearZero(t.values[w])
    ensures forall x :: GetCoefficient(r, x) ==
              Pruned((if x == v then 0.0 else GetCoefficient(e, x)) + GetCoefficient(expr, x) * GetCoefficient(e, v))
    ensures forall x :: Mentions(r, x) ==> (Mentions(e, x) && x != v) || Mentions(expr, x)
  {
    forall x
      ensures GetCoefficient(r, x) ==
                Pruned((if x == v then 0.0 else GetCoefficient(e, x)) + GetCoefficient(expr, x) * GetCoefficient(e, v))
    {
      SubstitutedAt(e, v, expr, copied, scaled, t, r, x);
    }
    forall x | Mentions(r, x)
      ensures (Mentions(e, x) && x != v) || Mentions(expr, x)
    {
      assert x in t.values;
    }
  }

  lemma {:induction false} SubstitutedAt(e: AffineExpression, v: Name, expr: AffineExpression,
                      copied: Table, scaled: Table, t: Table, r: AffineExpression, x: Name)
    requires x in copied.values <==> x in e.coeffs.values && x != v
    requires x in copied.values ==> copied.values[x] == e.coeffs.values[x]
    requires x in scaled.values <==> x in expr.coeffs.values
    requires x in scaled.values ==> scaled.values[x] == expr.coeffs.values[x] * GetCoefficient(e, v)
    requires x in t.values <==> x in copied.values || x in scaled.values
    requires x in copied.values && x !in scaled.values ==> t.values[x] == copied.values[x]
    requires x in copied.values && x in scaled.values ==> t.values[x] == copied.values[x] + scaled.values[x]
    requires x !in copied.values && x in scaled.values ==> t.values[x] == scaled.values[x]
    requires GetCoefficient(r, x) == Pruned(Lookup(t, x))
    ensures GetCoefficient(r, x) ==
              Pruned((if x == v then 0.0 else GetCoefficient(e, x)) + GetCoefficient(expr, x) * GetCoefficient(e, v))
  {
    var s := GetCoefficient(e, v);
    var a := if x == v then 0.0 else GetCoefficient(e, x);
    var b := GetCoefficient(expr, x);
    var bs := if x in scaled.values then scaled.values[x] else 0.0;
    assert bs == b * s by {
      if x !in scaled.values {
        assert b == 0.0;
      }
    }
    assert a == (if x in copied.values then copied.values[x] else 0.0);
    assert Lookup(t, x) == a + bs;
  }

  lemma {:induction false} KeptKeysAppend(a: seq<Name>, b: seq<Name>, m: map<Name, real>)
    requires (forall i :: 0 <= i < |a| ==> a[i] in m) && (forall i :: 0 <= i < |b| ==> b[i] in m)
    ensures KeptKeys(a + b, m) == KeptKeys(a, m) + KeptKeys(b, m)
    decreases |b|
  {
    if |b| > 0 {
      var b' := b[..|b| - 1];
      assert (a + b)[..|a + b| - 1] == a + b';
      assert (a + b)[|a + b| - 1] == b[|b| - 1];
      KeptKeysAppend(a, b', m);
    } else {
      assert a + b == a;
    }
  }

  lemma {:induction false} KeptKeysAgree(ks: seq<Name>, m: map<Name, real>, m': map<Name, real>)
    requires forall i :: 0 <= i < |ks| ==> ks[i] in m && ks[i] in m' && m[ks[i]] == m'[ks[i]]
    ensures KeptKeys(ks, m) == KeptKeys(ks, m')
  {
    if |ks| > 0 {
      KeptKeysAgree(ks[..|ks| - 1], m, m');
    }
  }

  lemma {:induction false} KeptKeysAll(ks: seq<Name>, m: map<Name, real>)
    requires forall i :: 0 <= i < |ks| ==> ks[i] in m && !NearZero(m[ks[i]])
    ensures KeptKeys(ks, m) == ks
  {
    if |ks| > 0 {
      KeptKeysAll(ks[..|ks| - 1], m);
      assert ks == ks[..|ks| - 1] + [ks[|ks| - 1]];
    }
  }

  /** Adding a table of zeros keeps the non-negligible keys, their order and
      their values. */
  lemma {:induction false} AddAllZeros(acc: Table, u: Table)
    requires WellFormed(acc) && WellFormed(u)
    requires forall w :: w in u.values ==> u.values[w] == 0.0
    ensures KeptKeys(AddAll(acc, u).keys, AddAll(acc, u).values) == KeptKeys(acc.keys, acc.values)
    decreases |u.keys|
  {
    if |u.keys| > 0 {
      var x := u.keys[0];
      AddZero(acc, x, u.values[x]);
      RestFacts(u);
      AddAllZeros(AddEntry(acc, x, u.values[x]), Rest(u));
    }
  }

  /** One round of the second loop with a zero product. */
  lemma {:induction false} AddZero(acc: Table, x: Name, a: real)
    requires WellFormed(acc) && a == 0.0
    ensures KeptKeys(AddEntry(acc, x, a).keys, AddEntry(acc, x, a).values) == KeptKeys(acc.keys, acc.values)
  {
    if x in acc.values {
      assert acc.values[x := acc.values[x] + a] == acc.values;
      assert AddEntry(acc, x, a) == acc;
    } else {
      AddZeroKey(acc, x, AddEntry(acc, x, a));
    }
  }

  lemma {:induction false} AddZeroKey(acc: Table, x: Name, next: Table)
    requires WellFormed(acc) && x !in acc.values
    requires next == Table(acc.keys + [x], acc.values[x := 0.0])
    ensures KeptKeys(next.keys, next.values) == KeptKeys(acc.keys, acc.values)
  {
    assert next.keys[..|acc.keys|] == acc.keys;
    KeptKeysAgree(acc.keys, acc.values, next.values);
  }

  /** Two valid expressions with the same key order, coefficients and
      constant are the same value. */
  lemma {:induction false} SameExpression(a: AffineExpression, b: AffineExpression)
    requires Valid(a) && Valid(b)
    requires a.coeffs.keys == b.coeffs.keys && a.constant == b.constant
    requires forall w :: GetCoefficient(a, w) == GetCoefficient(b, w)
    ensures a == b
  {
    forall w | w in a.coeffs.values
      ensures a.coeffs.values[w] == b.coeffs.values[w]
    {
      assert GetCoefficient(a, w) == GetCoefficient(b, w);
    }
    assert a.coeffs.values == b.coeffs.values;
  }

  /** With `v` absent the scale factor is 0: every added term is 0 and
      pruned again, so the key order of the result is that of `e`. */
  lemma {:induction false} SubstitutedKeysAbsent(e: AffineExpression, v: Name, expr: AffineExpression)
    requires Valid(e) && Valid(expr) && !Mentions(e, v)
    ensures Substitute(e, v, expr).coeffs.keys == e.coeffs.keys
  {
    var copied := Without(e.coeffs, v);
    var scaled := Scaled(expr.coeffs, 0.0);
    WithoutFacts(e.coeffs, v);
    ScaledFacts(expr.coeffs, 0.0);
    AddAllZeros(copied, scaled);

    KeptKeysAll(e.coeffs.keys, e.coeffs.values);
  }

  /** Substituting for a variable the expression does not mention gives the
      expression back. */
  lemma {:induction false} SubstituteAbsent(e: AffineExpression, v: Name, expr: AffineExpression)
    requires Valid(e) && Valid(expr) && !Mentions(e, v)
    ensures Substitute(e, v, expr) == e
  {
    var r := Substitute(e, v, expr);
    SubstitutedKeysAbsent(e, v, expr);
    SubstituteFacts(e, v, expr);
    forall w
      ensures GetCoefficient(r, w) == GetCoefficient(e, w)
    {
      SubstitutedAbsentAt(e, v, expr, r, w);
    }
    SameExpression(r, e);
  }

  /** One coefficient of a substitution for a variable `e` does not mention. */
  lemma {:induction false} SubstitutedAbsentAt(e: AffineExpression, v: Name, expr: AffineExpression, r: AffineExpression, w: Name)
    requires Valid(e) && !Mentions(e, v)
    requires GetCoefficient(r, w) ==
               Pruned((if w == v then 0.0 else GetCoefficient(e, w)) + GetCoefficient(expr, w) * GetCoefficient(e, v))
    ensures GetCoefficient(r, w) == GetCoefficient(e, w)
  {
    var a := if w == v then 0.0 else GetCoefficient(e, w);
    assert GetCoefficient(e, v) == 0.0;
    assert Pruned(a) == a == GetCoefficient(e, w);
    PrunedUnscaled(GetCoefficient(r, w), a, GetCoefficient(expr, w), GetCoefficient(e, v));
  }

  lemma {:induction false} PrunedUnscaled(c: real, a: real, b: real, s: real)
    requires c == Pruned(a + b * s) && s == 0.0 && Pruned(a) == a
    ensures c == a
  {
  }
}
