/** `asclogit_pred` up to the softmax: the alternative dummies, the reading
    of each coefficient name, the accumulation of the utility column over
    the estimated parameters, the per-case reshaping and the `max`
    prediction.

    A coefficient whose name ends in `" for <alt>"` for one of the
    alternatives is case-specific: the name is split at `" for "` into a
    main variable and an alternative, and the coefficient multiplies that
    alternative's dummy (`ASC`) or the main column times the dummy. Any
    other name is an alternative-specific column of the table. Utilities
    are over the reals: floating-point rounding is not modelled. */
module Prediction {
  import opened Common
  import opened Table
  import Specification

  /** The ways the call fails. `UnknownVariable` is the early `return` after
      the error message; the others are the exceptions pandas and numpy
      raise. */
  datatype PredictError =
    | MissingColumn(name: string)      // `data[varname]` on a missing column
    | NonNumericColumn(name: string)   // arithmetic on the string column `alt`
    | BadCaseName(name: string)        // `split(' for ')` does not give two parts
    | UnknownAlternative(alt: string)  // `dummies_dict[alt]` on an unknown alternative
    | LengthMismatch(name: string)     // a dummy as long as the table it is applied to
    | UnknownVariable(name: string)    // the main variable is not a column

  const Sep: string := " for "

  /** The first `" for "` of `v + " for "` is the appended one: `v` holds no
      `" for "` and does not end in a part of one that the separator
      completes. Main variables may hold spaces, as in `travel time`. */
  predicate SepFollows(v: string)
  {
    Find(v + Sep, Sep) == Some(|v|)
  }

  /** `varname` contains no `" for "` anywhere. */
  predicate NoSep(s: string)
  {
    forall j | 0 <= j <= |s| :: !OccursAt(s, Sep, j)
  }

  /** `data.columns`: the bookkeeping columns, `utility` once it is added,
      and every attribute the rows carry. */
  predicate HasColumn(rows: seq<Row>, name: string)
  {
    name == "utility" || name == "group" || name == "alt" || name == "choice"
    || forall r | 0 <= r < |rows| :: name in rows[r].attrs
  }

  /** `data[name]` as numbers, with the current utility column. */
  function Column(rows: seq<Row>, utility: seq<real>, name: string): (r: Result<seq<real>, PredictError>)
    requires |utility| == |rows|
    ensures r.Ok? ==> |r.value| == |rows|
    ensures r.Ok? <==> HasColumn(rows, name) && name != "alt"
    ensures r.Err? ==> r.error == if name == "alt" then NonNumericColumn(name) else MissingColumn(name)
  {
    if name == "utility" then Ok(utility)
    else if name == "group" then Ok(seq(|rows|, r requires 0 <= r < |rows| => rows[r].group as real))
    else if name == "choice" then Ok(seq(|rows|, r requires 0 <= r < |rows| => rows[r].choice as real))
    else if name == "alt" then Err(NonNumericColumn(name))
    else if forall r | 0 <= r < |rows| :: name in rows[r].attrs then
      Ok(seq(|rows|, r requires 0 <= r < |rows| && name in rows[r].attrs => rows[r].attrs[name]))
    else Err(MissingColumn(name))
  }

  /** `case_varname_endswith_flag` */
  function Flags(alts: seq<string>): seq<string>
  {
    seq(|alts|, i requires 0 <= i < |alts| => Sep + alts[i])
  }

  /** `np.tile(x, n)` */
  function Tile<T>(x: seq<T>, n: nat): seq<T>
  {
    Concat(Repeat(x, n))
  }

  /** The dummy column of the alternative at index `k`. */
  function Dummy(k: nat, nalt: nat, numChoices: nat): seq<real>
  {
    Tile(Reals(OneHot(k, nalt)), numChoices)
  }

  /** `dummies_dict` after the loop has visited the first `i` alternatives:
      a later alternative of the same name replaces an earlier one. */
  function DummiesUpTo(alts: seq<string>, i: nat, numChoices: nat): map<string, seq<real>>
    requires i <= |alts|
  {
    if i == 0 then map[]
    else DummiesUpTo(alts, i - 1, numChoices)[alts[i - 1] := Dummy(i - 1, |alts|, numChoices)]
  }

  /** After `i` steps the dictionary holds exactly the first `i` names, each
      with the dummy of its last position among them. */
  lemma {:induction false} DummiesUpToSpec(alts: seq<string>, i: nat, numChoices: nat)
    requires i <= |alts|
    ensures forall a :: a in DummiesUpTo(alts, i, numChoices) <==> a in alts[..i]
    ensures forall a | a in alts[..i] ::
      DummiesUpTo(alts, i, numChoices)[a] == Dummy(LastIndexOf(alts[..i], a), |alts|, numChoices)
  {
    if i > 0 {
      DummiesUpToSpec(alts, i - 1, numChoices);
      assert alts[..i] == alts[..i - 1] + [alts[i - 1]];
      forall a | a in alts[..i] && a != alts[i - 1]
        ensures LastIndexOf(alts[..i], a) == LastIndexOf(alts[..i - 1], a)
      {
        LastIndexOfSnoc(alts[..i - 1], alts[i - 1], a);
      }
    }
  }

  lemma LastIndexOfSnoc(s: seq<string>, x: string, a: string)
    requires a in s && a != x
    ensures a in s + [x] && LastIndexOf(s + [x], a) == LastIndexOf(s, a)
  {
    assert (s + [x])[..|s|] == s;
  }

  function Dummies(alts: seq<string>, numChoices: nat): map<string, seq<real>>
  {
    DummiesUpTo(alts, |alts|, numChoices)
  }

  /** The loop over `alts` that builds `case_varname_endswith_flag` and
      `dummies_dict`. */
  method BuildDummies(alts: seq<string>, numChoices: nat) returns (dummies: map<string, seq<real>>, flags: seq<string>)
    ensures dummies == Dummies(alts, numChoices)
    ensures flags == Flags(alts)
  {
    dummies, flags := map[], [];
    for i := 0 to |alts|
      invariant dummies == DummiesUpTo(alts, i, numChoices)
      invariant flags == Flags(alts)[..i]
    {
      BuildStep(alts, i, numChoices);
      flags := flags + [Sep + alts[i]];
      var tmp := OneHot(i, |alts|);
      dummies := dummies[alts[i] := Tile(Reals(tmp), numChoices)];
    }
    assert Flags(alts)[..|alts|] == Flags(alts);
  }

  lemma BuildStep(alts: seq<string>, i: nat, numChoices: nat)
    requires i < |alts|
    ensures Flags(alts)[..i + 1] == Flags(alts)[..i] + [Sep + alts[i]]
    ensures DummiesUpTo(alts, i + 1, numChoices) == DummiesUpTo(alts, i, numChoices)[alts[i] := Dummy(i, |alts|, numChoices)]
  {
  }

  /** `utility + xs * param` */
  function AddScaled(utility: seq<real>, xs: seq<real>, param: real): (r: seq<real>)
    requires |xs| == |utility|
    ensures |r| == |utility|
  {
    seq(|utility|, i requires 0 <= i < |utility| => utility[i] + xs[i] * param)
  }

  /** `xs * dummy`, elementwise. */
  function Times(xs: seq<real>, ys: seq<real>): (r: seq<real>)
    requires |xs| == |ys|
    ensures |r| == |xs|
  {
    seq(|xs|, i requires 0 <= i < |xs| => xs[i] * ys[i])
  }

  /** One pass of the parameter loop: the utility column after the
      coefficient `name` with value `param`. */
  function Step(rows: seq<Row>, alts: seq<string>, utility: seq<real>, name: string, param: real)
    : (r: Result<seq<real>, PredictError>)
    requires |utility| == |rows|
    ensures r.Ok? ==> |r.value| == |rows|
  {
    if !EndsWithAny(name, Flags(alts)) then
      match Column(rows, utility, name)
      case Err(e) => Err(e)
      case Ok(xs) => Ok(AddScaled(utility, xs, param))
    else
      var parts := Split(name, Sep);
      var dummies := Dummies(alts, |GroupIds(rows)|);
      if |parts| != 2 then Err(BadCaseName(name))
      else if parts[1] !in dummies then Err(UnknownAlternative(parts[1]))
      else if parts[0] == "ASC" then
        if |dummies[parts[1]]| != |utility| then Err(LengthMismatch(name))
        else Ok(AddScaled(utility, dummies[parts[1]], param))
      else if !HasColumn(rows, parts[0]) then Err(UnknownVariable(name))
      else if |dummies[parts[1]]| != |rows| then Err(LengthMismatch(name))
      else
        match Column(rows, utility, parts[0])
        case Err(e) => Err(e)
        case Ok(xs) => Ok(AddScaled(utility, Times(xs, dummies[parts[1]]), param))
  }

  /** `data['utility']` after the parameter loop, or how the loop stops. */
  function Utilities(rows: seq<Row>, alts: seq<string>, params: seq<(string, real)>)
    : (r: Result<seq<real>, PredictError>)
    ensures r.Ok? ==> |r.value| == |rows|
  {
    if params == [] then Ok(Repeat(0.0, |rows|))
    else
      var n := |params| - 1;
      match Utilities(rows, alts, params[..n])
      case Err(e) => Err(e)
      case Ok(u) => Step(rows, alts, u, params[n].0, params[n].1)
  }

  /** The parameter loop of `asclogit_pred`. */
  method AccumulateUtility(rows: seq<Row>, alts: seq<string>, params: seq<(string, real)>)
    returns (r: Result<seq<real>, PredictError>)
    ensures r == Utilities(rows, alts, params)
  {
    var numChoices := |GroupIds(rows)|;
    var dummies, flags := BuildDummies(alts, numChoices);
    var utility := Repeat(0.0, |rows|);
    assert params[..0] == [];
    for i := 0 to |params|
      invariant Utilities(rows, alts, params[..i]) == Ok(utility)
    {
      var (name, param) := params[i];
      UtilitiesSnoc(rows, alts, params, i);
      if !EndsWithAny(name, flags) {
        var col := Column(rows, utility, name);
        if col.Err? {
          r := Err(col.error);
          UtilitiesErrorPersists(rows, alts, params, i + 1);
          return;
        }
        utility := AddScaled(utility, col.value, param);
      } else {
        var parts := Split(name, Sep);
        if |parts| != 2 {
          r := Err(BadCaseName(name));
          UtilitiesErrorPersists(rows, alts, params, i + 1);
          return;
        }
        var main, alt := parts[0], parts[1];
        if alt !in dummies {
          r := Err(UnknownAlternative(alt));
          UtilitiesErrorPersists(rows, alts, params, i + 1);
          return;
        }
        var useDummy := dummies[alt];
        if main == "ASC" {
          if |useDummy| != |utility| {
            r := Err(LengthMismatch(name));
            UtilitiesErrorPersists(rows, alts, params, i + 1);
            return;
          }
          utility := AddScaled(utility, useDummy, param);
        } else if HasColumn(rows, main) {
          if |useDummy| != |rows| {
            r := Err(LengthMismatch(name));
            UtilitiesErrorPersists(rows, alts, params, i + 1);
            return;
          }
          var col := Column(rows, utility, main);
          if col.Err? {
            r := Err(col.error);
            UtilitiesErrorPersists(rows, alts, params, i + 1);
            return;
          }
          utility := AddScaled(utility, Times(col.value, useDummy), param);
        } else {
          r := Err(UnknownVariable(name));
          UtilitiesErrorPersists(rows, alts, params, i + 1);
          return;
        }
      }
    }
    assert params[..|params|] == params;
    r := Ok(utility);
  }

  lemma UtilitiesSnoc(rows: seq<Row>, alts: seq<string>, params: seq<(string, real)>, i: nat)
    requires i < |params|
    ensures var prev := Utilities(rows, alts, params[..i]);
      Utilities(rows, alts, params[..i + 1])
      == if prev.Err? then Err(prev.error) else Step(rows, alts, prev.value, params[i].0, params[i].1)
  {
    assert params[..i + 1][..i] == params[..i];
  }

  /** Once a parameter stops the loop, later parameters change nothing. */
  lemma {:induction false} UtilitiesErrorPersists(rows: seq<Row>, alts: seq<string>, params: seq<(string, real)>, i: nat)
    requires i <= |params| && Utilities(rows, alts, params[..i]).Err?
    ensures Utilities(rows, alts, params) == Utilities(rows, alts, params[..i])
    decreases |params| - i
  {
    if i < |params| {
      UtilitiesSnoc(rows, alts, params, i);
      UtilitiesErrorPersists(rows, alts, params, i + 1);
    } else {
      assert params[..i] == params;
    }
  }

  /** The dummy of alternative `k` is the indicator of `k`, once per case:
      at position `c * nalt + j` it is 1 exactly when `j == k`. */
  lemma DummyAt(k: nat, nalt: nat, numChoices: nat, c: nat, j: nat)
    requires c < numChoices && j < nalt
    ensures |Dummy(k, nalt, numChoices)| == nalt * numChoices
    ensures c * nalt + j < nalt * numChoices
    ensures Dummy(k, nalt, numChoices)[c * nalt + j] == if j == k then 1.0 else 0.0
  {
    var x := Reals(OneHot(k, nalt));
    ConcatAt(Repeat(x, numChoices), nalt, c, j);
  }

  /** The dummy `dummies_dict` holds for an alternative name is the one of
      the last alternative carrying that name. */
  lemma DummiesLookup(alts: seq<string>, numChoices: nat, a: string)
    ensures a in Dummies(alts, numChoices) <==> a in alts
    ensures a in alts ==> Dummies(alts, numChoices)[a] == Dummy(LastIndexOf(alts, a), |alts|, numChoices)
  {
    DummiesUpToSpec(alts, |alts|, numChoices);
    assert alts[..|alts|] == alts;
  }

  /** A name `v for a` whose first `" for "` follows `v`, and with no
      `" for "` in `a`, splits back into `[v, a]`. */
  lemma SplitName(v: string, a: string)
    requires SepFollows(v)
    requires NoSep(a)
    ensures Split(v + Sep + a, Sep) == [v, a]
  {
    var s := v + Sep + a;
    FindSep(v, a);
    assert s[..|v|] == v;
    assert s[|v| + |Sep|..] == a;
    assert Find(a, Sep).None?;
  }

  /** The leftmost `" for "` of such a name is the one after `v`, whatever
      follows it. */
  lemma FindSep(v: string, a: string)
    requires SepFollows(v)
    ensures Find(v + Sep + a, Sep) == Some(|v|)
  {
    var s := v + Sep + a;
    assert OccursAt(s, Sep, |v|) by {
      assert s[|v|..|v| + |Sep|] == Sep;
    }
    forall j | 0 <= j < |v| ensures !OccursAt(s, Sep, j) {
      assert !OccursAt(v + Sep, Sep, j);
      assert s[j..j + |Sep|] == (v + Sep)[j..j + |Sep|];
    }
  }

  /** A main variable without a space is always followed by the first
      `" for "`. */
  lemma NoSpaceSepFollows(v: string)
    requires forall j | 0 <= j < |v| :: v[j] != ' '
    ensures SepFollows(v)
  {
    var s := v + Sep;
    assert OccursAt(s, Sep, |v|) by {
      assert s[|v|..] == Sep;
    }
    forall j | 0 <= j < |v| ensures !OccursAt(s, Sep, j) {
      assert s[j] == v[j];
    }
  }

  /** A main variable with a space is read back too: `travel time for drive`
      splits into `travel time` and `drive`. */
  lemma SpacedNameSplits()
    ensures Split("travel time" + Sep + "drive", Sep) == ["travel time", "drive"]
  {
    var v, a := "travel time", "drive";
    assert SepFollows(v) by {
      var s := v + Sep;
      assert OccursAt(s, Sep, |v|) by {
        assert |Sep| == 5 && |v| == 11;
        assert s[|v|..|v| + |Sep|] == Sep;
      }
      forall j | 0 <= j < |v| ensures !OccursAt(s, Sep, j) {
        assert s[j] != ' ' || j == 6;
        assert s[7] == 't';
      }
    }
    assert NoSep(a) by {
      forall j | 0 <= j <= |a| ensures !OccursAt(a, Sep, j) {
        assert a[0] != Sep[0];
      }
    }
    SplitName(v, a);
  }

  /** Such a name is read as case-specific when `a` is one of the
      alternatives. */
  lemma NameIsCaseSpecific(v: string, a: string, alts: seq<string>)
    requires a in alts
    ensures EndsWithAny(v + Sep + a, Flags(alts))
  {
    var i :| 0 <= i < |alts| && alts[i] == a;
    var s := v + Sep + a;
    assert s[|s| - |Flags(alts)[i]|..] == Flags(alts)[i];
  }

  /** Every coefficient name `logit_spec` gives a case-specific variable or
      the constants is read back as that variable and alternative, provided
      the variable name is followed by the first `" for "` and alternative
      names hold no `" for "`. */
  lemma SpecNamesReadBack(v: string, alts: seq<string>, ref: int, i: nat)
    requires SepFollows(v)
    requires i < |Specification.Excluding(alts, ref)|
    requires NoSep(Specification.Excluding(alts, ref)[i])
    ensures var name := Specification.Suffixed(v, Specification.Excluding(alts, ref))[i];
      && EndsWithAny(name, Flags(alts))
      && Split(name, Sep) == [v, Specification.Excluding(alts, ref)[i]]
  {
    var others := Specification.Excluding(alts, ref);
    var a := others[i];
    assert a in alts by {
      if 0 <= ref < |alts| {
        assert others == alts[..ref] + alts[ref + 1..];
        if i < ref {
          assert a == alts[i];
        } else {
          assert a == alts[i + 1];
        }
      } else {
        assert a == alts[i];
      }
    }
    var k :| 0 <= k < |alts| && alts[k] == a;
    NameIsCaseSpecific(v, a, alts);
    SplitName(v, a);
  }

  /** An alternative-specific coefficient adds its column times the
      coefficient to every row. */
  lemma AltSpecificTerm(rows: seq<Row>, alts: seq<string>, utility: seq<real>, name: string, param: real)
    requires |utility| == |rows|
    requires !EndsWithAny(name, Flags(alts))
    ensures HasColumn(rows, name) && name != "alt" ==>
      var xs := Column(rows, utility, name).value;
      && Step(rows, alts, utility, name, param).Ok?
      && forall r | 0 <= r < |rows| :: Step(rows, alts, utility, name, param).value[r] == utility[r] + xs[r] * param
    ensures !HasColumn(rows, name) ==> Step(rows, alts, utility, name, param) == Err(MissingColumn(name))
  {
  }

  /** How one pass reads a name `v for a` built from an alternative. */
  lemma StepOnCaseName(rows: seq<Row>, alts: seq<string>, utility: seq<real>, v: string, a: string, param: real)
    requires |utility| == |rows|
    requires SepFollows(v)
    requires a in alts && NoSep(a)
    ensures var d := Dummy(LastIndexOf(alts, a), |alts|, |GroupIds(rows)|);
      var name := v + Sep + a;
      Step(rows, alts, utility, name, param)
      == if v == "ASC" then
           (if |d| != |utility| then Err(LengthMismatch(name)) else Ok(AddScaled(utility, d, param)))
         else if !HasColumn(rows, v) then Err(UnknownVariable(name))
         else if |d| != |rows| then Err(LengthMismatch(name))
         else if v == "alt" then Err(NonNumericColumn(v))
         else Ok(AddScaled(utility, Times(Column(rows, utility, v).value, d), param))
  {
    NameIsCaseSpecific(v, a, alts);
    SplitName(v, a);
    DummiesLookup(alts, |GroupIds(rows)|, a);
  }

  /** The term `ASC for a` (see `StepOnCaseName`) adds the coefficient to
      the rows of alternative `k` and nothing to the others, in every case,
      when the table holds `nalt` rows per case. */
  lemma AscTerm(utility: seq<real>, k: nat, nalt: nat, numChoices: nat, param: real, c: nat, j: nat)
    requires |utility| == nalt * numChoices
    requires c < numChoices && j < nalt
    ensures c * nalt + j < |utility|
    ensures |Dummy(k, nalt, numChoices)| == |utility|
    ensures AddScaled(utility, Dummy(k, nalt, numChoices), param)[c * nalt + j]
            == utility[c * nalt + j] + (if j == k then param else 0.0)
  {
    DummyAt(k, nalt, numChoices, c, j);
  }

  /** The term `v for a` (see `StepOnCaseName`) adds the coefficient times
      column `v` to the rows of alternative `k` and nothing to the others. */
  lemma CaseSpecificTerm(utility: seq<real>, xs: seq<real>, k: nat, nalt: nat, numChoices: nat, param: real,
                         c: nat, j: nat)
    requires |utility| == |xs| == nalt * numChoices
    requires c < numChoices && j < nalt
    ensures c * nalt + j < |utility|
    ensures |Dummy(k, nalt, numChoices)| == |utility|
    ensures AddScaled(utility, Times(xs, Dummy(k, nalt, numChoices)), param)[c * nalt + j]
            == utility[c * nalt + j] + (if j == k then xs[c * nalt + j] * param else 0.0)
  {
    DummyAt(k, nalt, numChoices, c, j);
  }

  /** A case-specific coefficient whose main variable is neither `ASC` nor
      a column stops the loop: the call returns nothing. */
  lemma UnknownVariableStops(rows: seq<Row>, alts: seq<string>, params: seq<(string, real)>, i: nat,
                             v: string, a: string)
    requires i < |params| && Utilities(rows, alts, params[..i]).Ok?
    requires params[i].0 == v + Sep + a
    requires SepFollows(v)
    requires a in alts && NoSep(a)
    requires v != "ASC" && !HasColumn(rows, v)
    ensures Utilities(rows, alts, params) == Err(UnknownVariable(v + Sep + a))
  {
    StepOnCaseName(rows, alts, Utilities(rows, alts, params[..i]).value, v, a, params[i].1);
    UtilitiesSnoc(rows, alts, params, i);
    UtilitiesErrorPersists(rows, alts, params, i + 1);
  }

  /** The `method='max'` labels. The utility column of `numChoices` cases
      of `nalt` alternatives is cut into one row per case by
      `reshape(numChoices, -1)`, exactly the rows `reshape(-1, nalt)` gives.
      The softmax turns each row into a row `p[c]` of probabilities;
      `p.reshape(-1, nalt)` hands `p` back unchanged, and its row-wise
      argmax is that of the utilities whenever each row keeps the strict
      order of its utilities. */
  lemma MaxLabels(u: seq<real>, numChoices: nat, nalt: nat, p: seq<seq<real>>)
    requires numChoices > 0 && nalt > 0 && |u| == numChoices * nalt
    requires |p| == numChoices && forall c | 0 <= c < |p| :: |p[c]| == nalt
    requires forall c, i, j | 0 <= c < |p| && c < |Chunks(u, nalt)| && 0 <= i < nalt && 0 <= j < nalt ::
      p[c][i] < p[c][j] <==> Chunks(u, nalt)[c][i] < Chunks(u, nalt)[c][j]
    ensures ReshapeRows(u, numChoices) == Reshape(u, nalt) == Some(Chunks(u, nalt))
    ensures Reshape(Concat(p), nalt) == Some(p)
    ensures ArgMaxRows(p) == ArgMaxRows(Chunks(u, nalt))
  {
    ReshapeAgree(u, numChoices, nalt);
    ReshapeRoundTrip(u, nalt, p);
    ArgMaxRowsOrderInvariant(p, Chunks(u, nalt));
  }
}
