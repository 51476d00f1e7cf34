/** `long_form_data_upsample`: balance a long-form table by appending copies
    of randomly drawn cases of chosen alternatives. Each directive names an
    alternative (a position in a case's `choice` block) and says how many
    copies to add: `"+N"` adds `N`, `"*K"` adds `int(count * (K - 1))`, where
    `count` is the number of cases that chose the alternative. The copies are
    renumbered with fresh case ids above the largest existing one and appended
    after the untouched input rows.

    The random draws are a parameter: `draw(j, t)` stands for the `t`-th index
    `np.random.choice` returns while serving directive `j`; it is reduced into
    the range of the pool, so every sequence of indices the library could
    return is some `draw`. */
module Upsample {
  import opened Common
  import opened Table

  /** One value of `upsample_new`, already read: `"+N"`, `"*K"`, a string
      starting with `+` or `*` whose number does not parse, or a string
      starting with neither. */
  datatype Directive = Add(n: int) | Scale(k: real) | Malformed | Unrecognised

  datatype UpsampleError =
    | ChoiceIndexOutOfRange(altIdx: int)  // `list(data['choice'])[alt_idx]` raises IndexError
    | BadNumber(altIdx: int)              // `int(...)` / `float(...)` of the directive raises ValueError
    | UnrecognisedDirective(altIdx: int)  // neither `+` nor `*`: rejected (see `SampledAsWritten`)
    | CountUnbound(altIdx: int)           // as written: `num_new` read before any assignment
    | SampleError(altIdx: int)            // `np.random.choice`: negative size, or draws from an empty pool
    | NoCases                             // `np.array(caseIDs).max()` of no ids

  /** Python's `s[i]` on a list: negative positions count from the end;
      `None` where Python raises IndexError. */
  function PyIndex(s: seq<int>, i: int): Option<int>
  {
    if 0 <= i < |s| then Some(s[i])
    else if -|s| <= i < 0 then Some(s[|s| + i])
    else None
  }

  /** `[data for caseID, data in df.groupby('group')]`: the rows of each
      case, by ascending case id. */
  function Cases(rows: seq<Row>): seq<seq<Row>>
  {
    var ids := GroupIds(rows);
    seq(|ids|, i requires 0 <= i < |ids| => WithGroupIn(rows, {ids[i]}))
  }

  /** The cases that chose alternative `altIdx`:
      `[data for data in cases if list(data['choice'])[alt_idx] == 1]`;
      `None` where some case is too short to have position `altIdx`. */
  function Pool(cases: seq<seq<Row>>, altIdx: int): (r: Option<seq<seq<Row>>>)
    ensures r.Some? <==> forall c | 0 <= c < |cases| :: PyIndex(Choices(cases[c]), altIdx).Some?
    ensures r.Some? ==> |r.value| <= |cases|
    ensures r.Some? ==> forall p | 0 <= p < |r.value| ::
      r.value[p] in cases && PyIndex(Choices(r.value[p]), altIdx) == Some(1)
  {
    if cases == [] then Some([])
    else
      var init := cases[..|cases| - 1];
      var last := cases[|cases| - 1];
      assert forall c | 0 <= c < |init| :: init[c] == cases[c];
      match Pool(init, altIdx)
      case None => None
      case Some(pool) =>
        match PyIndex(Choices(last), altIdx)
        case None => None
        case Some(v) => Some(if v == 1 then pool + [last] else pool)
  }

  /** No case that chose the alternative is left out of its pool. */
  lemma {:induction false} PoolComplete(cases: seq<seq<Row>>, altIdx: int, c: nat)
    requires Pool(cases, altIdx).Some?
    requires c < |cases| && PyIndex(Choices(cases[c]), altIdx) == Some(1)
    ensures cases[c] in Pool(cases, altIdx).value
  {
    var init := cases[..|cases| - 1];
    assert forall d | 0 <= d < |init| :: init[d] == cases[d];
    if c < |cases| - 1 {
      PoolComplete(init, altIdx, c);
    }
  }

  /** The number of new cases a directive asks for, given the `count` cases
      of its alternative; `None` where the directive is not a number. */
  function NumNew(d: Directive, count: nat): Option<int>
  {
    match d
    case Add(n) => Some(n)
    case Scale(k) => Some(Trunc(count as real * (k - 1.0)))
    case Malformed => None
    case Unrecognised => None
  }

  /** `[pool[i].copy() for i in np.random.choice(range(len(pool)), size=n)]`
      for directive `j`; `None` where numpy refuses the size. */
  function Draw(pool: seq<seq<Row>>, n: int, j: nat, draw: (nat, nat) -> nat): Option<seq<seq<Row>>>
  {
    if n < 0 || (n > 0 && pool == []) then None
    else Some(seq(n, t requires 0 <= t < n => pool[draw(j, t) % |pool|]))
  }

  /** The copies added for one directive `(alt_idx, d)`, the `j`-th. */
  function Step(cases: seq<seq<Row>>, altIdx: int, d: Directive, j: nat, draw: (nat, nat) -> nat)
    : Result<seq<seq<Row>>, UpsampleError>
  {
    match Pool(cases, altIdx)
    case None => Err(ChoiceIndexOutOfRange(altIdx))
    case Some(pool) =>
      match NumNew(d, |pool|)
      case None => Err(if d.Malformed? then BadNumber(altIdx) else UnrecognisedDirective(altIdx))
      case Some(n) =>
        match Draw(pool, n, j, draw)
        case None => Err(SampleError(altIdx))
        case Some(copies) => Ok(copies)
  }

  /** The copies of every directive, one list per directive in the order of
      `upsample_new`, or the first directive's error. */
  function Sampled(cases: seq<seq<Row>>, directives: seq<(int, Directive)>, draw: (nat, nat) -> nat)
    : (r: Result<seq<seq<seq<Row>>>, UpsampleError>)
    ensures r.Ok? ==> |r.value| == |directives|
  {
    if directives == [] then Ok([])
    else
      var j := |directives| - 1;
      match Sampled(cases, directives[..j], draw)
      case Err(e) => Err(e)
      case Ok(blocks) =>
        match Step(cases, directives[j].0, directives[j].1, j, draw)
        case Err(e) => Err(e)
        case Ok(copies) => Ok(blocks + [copies])
  }

  /** `new_casedata['group'] = maxID + idx + 1` for every copy. */
  function Relabel(copies: seq<seq<Row>>, maxId: int): seq<seq<Row>>
  {
    seq(|copies|, k requires 0 <= k < |copies| => SetGroup(copies[k], maxId + k + 1))
  }

  /** `new_casedata_list`: the copies of all directives, in order. */
  function NewCases(cases: seq<seq<Row>>, directives: seq<(int, Directive)>, draw: (nat, nat) -> nat)
    : Result<seq<seq<Row>>, UpsampleError>
  {
    match Sampled(cases, directives, draw)
    case Err(e) => Err(e)
    case Ok(blocks) => Ok(Concat(blocks))
  }

  /** What `long_form_data_upsample(df, upsample_new)` returns or raises. */
  function Upsample(rows: seq<Row>, directives: seq<(int, Directive)>, draw: (nat, nat) -> nat)
    : Result<seq<Row>, UpsampleError>
  {
    match NewCases(Cases(rows), directives, draw)
    case Err(e) => Err(e)
    case Ok(copies) =>
      if rows == [] then Err(NoCases)
      else Ok(rows + Concat(Relabel(copies, MaxGroup(rows))))
  }

  /** The loop over `upsample_new`, growing `new_casedata_list`. */
  method CollectCopies(cases: seq<seq<Row>>, directives: seq<(int, Directive)>, draw: (nat, nat) -> nat)
    returns (r: Result<seq<seq<Row>>, UpsampleError>)
    ensures r == NewCases(cases, directives, draw)
  {
    var newCases: seq<seq<Row>> := [];
    var j := 0;
    while j < |directives|
      invariant 0 <= j <= |directives|
      invariant Sampled(cases, directives[..j], draw).Ok?
      invariant newCases == Concat(Sampled(cases, directives[..j], draw).value)
    {
      var step := Step(cases, directives[j].0, directives[j].1, j, draw);
      SampledSnoc(cases, directives, draw, j);
      if step.Err? {
        SampledErrorPersists(cases, directives, draw, j + 1);
        return Err(step.error);
      }
      ConcatSnoc(Sampled(cases, directives[..j], draw).value, step.value);
      newCases := newCases + step.value;
      j := j + 1;
    }
    assert directives[..j] == directives;
    r := Ok(newCases);
  }

  /** The loop `for idx, new_casedata in enumerate(new_casedata_list)`,
      renumbering each copy in place. */
  method RelabelCopies(copies: seq<seq<Row>>, maxId: int) returns (out: seq<seq<Row>>)
    ensures out == Relabel(copies, maxId)
  {
    out := copies;
    var k := 0;
    while k < |out|
      invariant 0 <= k <= |out| == |copies|
      invariant out[..k] == Relabel(copies, maxId)[..k]
      invariant out[k..] == copies[k..]
    {
      out := out[k := SetGroup(out[k], maxId + k + 1)];
      k := k + 1;
    }
    assert out == out[..k];
  }

  /** `long_form_data_upsample`, statement by statement. */
  method UpsampleLongForm(rows: seq<Row>, directives: seq<(int, Directive)>, draw: (nat, nat) -> nat)
    returns (r: Result<seq<Row>, UpsampleError>)
    ensures r == Upsample(rows, directives, draw)
  {
    var cases := Cases(rows);
    var collected := CollectCopies(cases, directives, draw);
    if collected.Err? {
      return Err(collected.error);
    }
    if rows == [] {
      return Err(NoCases);
    }
    var maxId := MaxGroup(rows);
    var renumbered := RelabelCopies(collected.value, maxId);
    r := Ok(rows + Concat(renumbered));
  }

  /** One more directive: its copies are appended, or its error ends the loop. */
  lemma SampledSnoc(cases: seq<seq<Row>>, directives: seq<(int, Directive)>, draw: (nat, nat) -> nat, j: nat)
    requires j < |directives| && Sampled(cases, directives[..j], draw).Ok?
    ensures var step := Step(cases, directives[j].0, directives[j].1, j, draw);
      Sampled(cases, directives[..j + 1], draw)
        == if step.Err? then Err(step.error) else Ok(Sampled(cases, directives[..j], draw).value + [step.value])
  {
    assert directives[..j + 1][..j] == directives[..j];
  }

  /** Once a directive fails, the whole call fails with its error. */
  lemma {:induction false} SampledErrorPersists(cases: seq<seq<Row>>, directives: seq<(int, Directive)>, draw: (nat, nat) -> nat, j: nat)
    requires j <= |directives| && Sampled(cases, directives[..j], draw).Err?
    ensures Sampled(cases, directives, draw) == Sampled(cases, directives[..j], draw)
    decreases |directives|
  {
    if j < |directives| {
      var n := |directives| - 1;
      assert directives[..n][..j] == directives[..j];
      SampledErrorPersists(cases, directives[..n], draw, j);
    } else {
      assert directives[..j] == directives;
    }
  }

  /** The copies of a prefix of the directives are a prefix of the copies. */
  lemma {:induction false} SampledPrefix(cases: seq<seq<Row>>, directives: seq<(int, Directive)>, draw: (nat, nat) -> nat, j: nat)
    requires j <= |directives| && Sampled(cases, directives, draw).Ok?
    ensures Sampled(cases, directives[..j], draw).Ok?
    ensures Sampled(cases, directives[..j], draw).value == Sampled(cases, directives, draw).value[..j]
    decreases |directives|
  {
    if j < |directives| {
      var n := |directives| - 1;
      assert directives[..n][..j] == directives[..j];
      SampledPrefix(cases, directives[..n], draw, j);
    } else {
      assert directives[..j] == directives;
    }
  }

  /** What one directive contributes: copies of cases that chose its
      alternative, `draw(j, t)` picking the `t`-th; `"+N"` adds exactly `N`
      copies and `"*K"` adds `count * (K - 1)` truncated, which for `K >= 1`
      is its floor. */
  lemma StepCopies(cases: seq<seq<Row>>, altIdx: int, d: Directive, j: nat, draw: (nat, nat) -> nat)
    requires Step(cases, altIdx, d, j, draw).Ok?
    ensures Pool(cases, altIdx).Some?
    ensures var pool := Pool(cases, altIdx).value;
      var block := Step(cases, altIdx, d, j, draw).value;
      && (d.Add? ==> |block| == d.n)
      && NumNew(d, |pool|) == Some(|block|)
      && !d.Malformed? && !d.Unrecognised?
      && (|block| > 0 ==> |pool| > 0)
      && forall t | 0 <= t < |block| :: block[t] == pool[draw(j, t) % |pool|]
  {
    var pool := Pool(cases, altIdx).value;
    var n := NumNew(d, |pool|).value;
    var block := Draw(pool, n, j, draw).value;
    assert Step(cases, altIdx, d, j, draw).value == block;
    assert |block| == n;
  }

  /** `"*K"` with `K >= 1` asks for the floor of `count * (K - 1)` new cases;
      with `K < 1` for none or a negative number, which numpy refuses
      unless it is zero. */
  lemma ScaleCount(count: nat, k: real)
    ensures var n := NumNew(Scale(k), count).value;
      && (k >= 1.0 ==> 0 <= n && n as real <= count as real * (k - 1.0) < n as real + 1.0)
      && (k < 1.0 ==> n <= 0)
  {
    SignOfProduct(count as real, k - 1.0);
  }

  lemma SignOfProduct(a: real, b: real)
    requires 0.0 <= a
    ensures 0.0 <= b ==> 0.0 <= a * b
    ensures b < 0.0 ==> a * b <= 0.0
  {
  }

  /** Directive `j`'s copies in the result of the whole loop. */
  lemma SampledBlock(cases: seq<seq<Row>>, directives: seq<(int, Directive)>, draw: (nat, nat) -> nat, j: nat)
    requires Sampled(cases, directives, draw).Ok? && j < |directives|
    ensures Step(cases, directives[j].0, directives[j].1, j, draw).Ok?
    ensures Sampled(cases, directives, draw).value[j] == Step(cases, directives[j].0, directives[j].1, j, draw).value
  {
    SampledPrefix(cases, directives, draw, j + 1);
    assert directives[..j + 1][..j] == directives[..j];
  }

  /** The upsampled table starts with the input rows, unchanged. */
  lemma UpsampleKeepsOriginals(rows: seq<Row>, directives: seq<(int, Directive)>, draw: (nat, nat) -> nat)
    requires Upsample(rows, directives, draw).Ok?
    ensures |rows| > 0
    ensures |Upsample(rows, directives, draw).value| >= |rows|
    ensures Upsample(rows, directives, draw).value[..|rows|] == rows
  {
  }

  /** Every appended row is a row of the `k`-th copy under the id
      `maxID + k + 1`: copies never share an id, and no copy reuses an id of
      the input. */
  lemma UpsampleNewRow(rows: seq<Row>, directives: seq<(int, Directive)>, draw: (nat, nat) -> nat, p: nat)
      returns (k: nat, i: nat)
    requires Upsample(rows, directives, draw).Ok?
    requires |rows| <= p < |Upsample(rows, directives, draw).value|
    ensures |rows| > 0
    ensures var copies := NewCases(Cases(rows), directives, draw).value;
      var row := Upsample(rows, directives, draw).value[p];
      && k < |copies| && i < |copies[k]|
      && row == copies[k][i].(group := MaxGroup(rows) + k + 1)
      && forall q | 0 <= q < |rows| :: rows[q].group < row.group
  {
    var copies := NewCases(Cases(rows), directives, draw).value;
    var maxId := MaxGroup(rows);
    var renumbered := Relabel(copies, maxId);
    var out := Upsample(rows, directives, draw).value;
    assert out == rows + Concat(renumbered);
    k, i := ConcatIndex(renumbered, p - |rows|);
  }

  /** `num_new` as the loop actually computes it: a directive starting with
      neither `+` nor `*` assigns nothing, so the count of the previous
      directive is used again, and on the first directive the name is unbound. */
  function NumNewAsWritten(d: Directive, count: nat, prev: Option<int>): Option<int>
  {
    if d.Unrecognised? then prev else NumNew(d, count)
  }

  /** One iteration as written: the copies and the `num_new` it leaves behind. */
  function StepAsWritten(cases: seq<seq<Row>>, altIdx: int, d: Directive, prev: Option<int>, j: nat, draw: (nat, nat) -> nat)
    : Result<(seq<seq<Row>>, int), UpsampleError>
  {
    match Pool(cases, altIdx)
    case None => Err(ChoiceIndexOutOfRange(altIdx))
    case Some(pool) =>
      match NumNewAsWritten(d, |pool|, prev)
      case None => Err(if d.Malformed? then BadNumber(altIdx) else CountUnbound(altIdx))
      case Some(n) =>
        match Draw(pool, n, j, draw)
        case None => Err(SampleError(altIdx))
        case Some(copies) => Ok((copies, n))
  }

  /** The directive loop as written, carrying `num_new` from one iteration to
      the next. */
  function SampledAsWritten(cases: seq<seq<Row>>, directives: seq<(int, Directive)>, draw: (nat, nat) -> nat)
    : Result<(seq<seq<seq<Row>>>, Option<int>), UpsampleError>
  {
    if directives == [] then Ok(([], None))
    else
      var j := |directives| - 1;
      match SampledAsWritten(cases, directives[..j], draw)
      case Err(e) => Err(e)
      case Ok((blocks, prev)) =>
        match StepAsWritten(cases, directives[j].0, directives[j].1, prev, j, draw)
        case Err(e) => Err(e)
        case Ok((copies, n)) => Ok((blocks + [copies], Some(n)))
  }

  /** When every directive starts with `+` or `*`, the loop as written and the
      corrected one agree, result for result and error for error. */
  lemma {:induction false} AsWrittenAgrees(cases: seq<seq<Row>>, directives: seq<(int, Directive)>, draw: (nat, nat) -> nat)
    requires forall j | 0 <= j < |directives| :: !directives[j].1.Unrecognised?
    ensures Sampled(cases, directives, draw).Err? ==>
      SampledAsWritten(cases, directives, draw) == Err(Sampled(cases, directives, draw).error)
    ensures Sampled(cases, directives, draw).Ok? ==>
      SampledAsWritten(cases, directives, draw).Ok? &&
      SampledAsWritten(cases, directives, draw).value.0 == Sampled(cases, directives, draw).value
    decreases |directives|
  {
    if directives != [] {
      var j := |directives| - 1;
      AsWrittenAgrees(cases, directives[..j], draw);
    }
  }

  /** A directive such as `"x3"` after `"+2"` silently receives two copies
      as written, where it should be refused. */
  lemma StaleCountExample()
    ensures var cases := [[Row(1, "a", 1, map[]), Row(1, "b", 0, map[])],
                          [Row(2, "a", 0, map[]), Row(2, "b", 1, map[])]];
      var directives := [(0, Add(2)), (1, Unrecognised)];
      var draw := (j: nat, t: nat) => 0;
      && SampledAsWritten(cases, directives, draw).Ok?
      && |SampledAsWritten(cases, directives, draw).value.0[1]| == 2
      && Sampled(cases, directives, draw) == Err(UnrecognisedDirective(1))
  {
    var cases := [[Row(1, "a", 1, map[]), Row(1, "b", 0, map[])],
                  [Row(2, "a", 0, map[]), Row(2, "b", 1, map[])]];
    var directives := [(0, Add(2)), (1, Unrecognised)];
    var draw := (j: nat, t: nat) => 0;
    assert Choices(cases[0]) == [1, 0] && Choices(cases[1]) == [0, 1];
    assert PyIndex(Choices(cases[0]), 0) == Some(1) && PyIndex(Choices(cases[1]), 0) == Some(0);
    assert PyIndex(Choices(cases[0]), 1) == Some(0) && PyIndex(Choices(cases[1]), 1) == Some(1);
    var first := cases[..1];
    assert first[..0] == [] && first[0] == cases[0] && cases[..|cases| - 1] == first;
    assert Pool(first[..0], 0) == Some([]) && Pool(first[..0], 1) == Some([]);
    assert Pool(first, 0).value == [cases[0]];
    assert Pool(first, 1).value == [];
    assert Pool(cases, 0).value == [cases[0]];
    assert Pool(cases, 1).value == [cases[1]];
    assert directives[..1] == [(0, Add(2))];
    assert [(0, Add(2))][..0] == [];
  }
}
