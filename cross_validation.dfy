/** The bookkeeping of `logit_cv`: the shuffled case ids are cut into
    `nfold` folds of `int(ncs / nfold)` cases each, every fold in turn is
    held out while the others form the training data, and the true label
    of each held-out case is recovered from its block of choice indicators
    by argmax. */
module CrossValidation {
  import opened Common
  import opened Table
  import opened WideToLong

  /** `int(ncs / nfold)`: the quotient truncated toward zero. */
  function FoldSize(ncs: nat, nfold: int): int
    requires nfold != 0
  {
    if nfold > 0 then ncs / nfold else -(ncs / -nfold)
  }

  /** The fold size is what Python's `int` makes of the float quotient. */
  lemma FoldSizeTrunc(ncs: nat, nfold: int)
    requires nfold != 0
    ensures FoldSize(ncs, nfold) == Trunc(ncs as real / nfold as real)
  {
    if nfold > 0 {
      RealQuotient(ncs, nfold);
    } else {
      var d := -nfold;
      RealQuotient(ncs, d);
      NegateDivisor(ncs as real, d as real);
    }
  }

  lemma RealQuotient(ncs: nat, d: int)
    requires d > 0
    ensures (ncs as real / d as real).Floor == ncs / d
  {
    var q, r := ncs / d, ncs % d;
    assert ncs == d * q + r;
    assert ncs as real / d as real == q as real + r as real / d as real;
  }

  lemma NegateDivisor(a: real, d: real)
    requires d > 0.0
    ensures a / -d == -(a / d)
  {
  }

  /** For a positive number of folds, `nfold` folds of `n` cases use up all
      but `ncs mod nfold` of the cases. */
  lemma FoldSizeFloor(ncs: nat, nfold: int)
    requires nfold > 0
    ensures FoldSize(ncs, nfold) == ncs / nfold
    ensures nfold * FoldSize(ncs, nfold) <= ncs
    ensures ncs - nfold * FoldSize(ncs, nfold) == ncs % nfold
  {
  }

  /** The case ids of the folds: `caseIDs[i * n:(i + 1) * n]` for `i in
      range(nfold)`; `None` where `nfold == 0` raises ZeroDivisionError. */
  function Folds(ids: seq<int>, nfold: int): Option<seq<seq<int>>>
  {
    if nfold == 0 then None
    else if nfold < 0 then Some([])
    else
      var n := FoldSize(|ids|, nfold);
      FoldSizeFloor(|ids|, nfold);
      Some(seq(nfold, i requires 0 <= i < nfold => Slice(ids, i * n, (i + 1) * n)))
  }

  /** `s[lo:hi]` for bounds that Python would not need to clamp. */
  function Slice(s: seq<int>, lo: int, hi: int): seq<int>
  {
    if 0 <= lo <= hi <= |s| then s[lo..hi] else []
  }

  /** Fold `i` holds the `n` shuffled ids at positions `i * n` up to `(i + 1) * n`. */
  lemma FoldAt(ids: seq<int>, nfold: int, i: nat)
    requires 0 <= i < nfold
    ensures var n := |ids| / nfold; var folds := Folds(ids, nfold).value;
      && |folds| == nfold
      && 0 <= i * n <= i * n + n == (i + 1) * n <= nfold * n <= |ids|
      && folds[i] == ids[i * n..(i + 1) * n]
      && |folds[i]| == n
  {
    var n := |ids| / nfold;
    FoldSizeFloor(|ids|, nfold);
    MulMono(i + 1, nfold, n);
    MulMono(0, i, n);
    var lo, hi := i * n, (i + 1) * n;
    assert hi == lo + n;
    assert 0 <= lo <= hi <= |ids|;
    assert Folds(ids, nfold).value[i] == Slice(ids, lo, hi);
  }

  /** With distinct shuffled ids, the id at position `p` is in fold `i`
      exactly when `i * n <= p < (i + 1) * n`: the folds are pairwise disjoint. */
  lemma FoldMember(ids: seq<int>, nfold: int, i: nat, p: nat)
    requires Distinct(ids) && 0 <= i < nfold && p < |ids|
    ensures var n := |ids| / nfold;
      ids[p] in Folds(ids, nfold).value[i] <==> i * n <= p < (i + 1) * n
  {
    var n := |ids| / nfold;
    FoldAt(ids, nfold, i);
    var fold := Folds(ids, nfold).value[i];
    if ids[p] in fold {
      var k :| 0 <= k < |fold| && fold[k] == ids[p];
      assert ids[i * n + k] == ids[p];
    }
    if i * n <= p < (i + 1) * n {
      assert fold[p - i * n] == ids[p];
    }
  }

  /** An id belongs to some fold exactly when its position is below
      `nfold * n`: the last `ncs mod nfold` shuffled ids belong to no fold. */
  lemma FoldsCover(ids: seq<int>, nfold: int, p: nat)
    requires nfold > 0 && Distinct(ids) && p < |ids|
    ensures var n := |ids| / nfold;
      && (p < nfold * n <==> exists i | 0 <= i < nfold :: ids[p] in Folds(ids, nfold).value[i])
      && |ids| - nfold * n == |ids| % nfold
  {
    var n := |ids| / nfold;
    FoldSizeFloor(|ids|, nfold);
    if p < nfold * n {
      var i := DivBounds(p, n, nfold);
      FoldMember(ids, nfold, i, p);
    } else {
      forall i | 0 <= i < nfold ensures ids[p] !in Folds(ids, nfold).value[i] {
        MulMono(i + 1, nfold, n);
        FoldMember(ids, nfold, i, p);
      }
    }
  }

  /** The block of width `n` that position `p` falls in. */
  lemma DivBounds(p: nat, n: nat, nfold: nat) returns (i: nat)
    requires p < nfold * n
    ensures i < nfold && i * n <= p < (i + 1) * n
  {
    assert n > 0;
    i := p / n;
    assert p == i * n + p % n;
    if i >= nfold {
      MulMono(nfold, i, n);
    }
  }

  /** The folds other than the held-out one, in fold order. */
  function Others<T>(folds: seq<T>, holdout: nat): seq<T>
  {
    if holdout < |folds| then folds[..holdout] + folds[holdout + 1..] else folds
  }

  /** With distinct shuffled ids no case is in two folds. */
  lemma FoldsDisjoint(ids: seq<int>, nfold: int, i: nat, k: nat, x: int)
    requires Distinct(ids) && i < nfold && k < nfold && i != k
    ensures !(x in Folds(ids, nfold).value[i] && x in Folds(ids, nfold).value[k])
  {
    var n := |ids| / nfold;
    var folds := Folds(ids, nfold).value;
    if x in folds[i] && x in folds[k] {
      FoldAt(ids, nfold, i);
      var q :| 0 <= q < |folds[i]| && folds[i][q] == x;
      var p := i * n + q;
      assert ids[p] == x;
      FoldMember(ids, nfold, i, p);
      FoldMember(ids, nfold, k, p);
      if i < k { MulMono(i + 1, k, n); } else { MulMono(k + 1, i, n); }
    }
  }

  /** Without the held-out fold, fold `t` of the rest is fold `t` or `t + 1`. */
  lemma OthersIndex<T>(folds: seq<T>, holdout: nat, t: nat)
    requires holdout < |folds| && t < |folds| - 1
    ensures |Others(folds, holdout)| == |folds| - 1
    ensures Others(folds, holdout)[t] == folds[if t < holdout then t else t + 1]
  {
  }

  /** Membership in the remaining folds is membership in some fold other
      than the held-out one. */
  lemma OthersUnion<T>(folds: seq<seq<T>>, holdout: nat, x: T)
    requires holdout < |folds|
    ensures (exists t | 0 <= t < |Others(folds, holdout)| :: x in Others(folds, holdout)[t]) <==>
      exists i | 0 <= i < |folds| && i != holdout :: x in folds[i]
  {
    var train := Others(folds, holdout);
    if exists i | 0 <= i < |folds| && i != holdout :: x in folds[i] {
      var i :| 0 <= i < |folds| && i != holdout && x in folds[i];
      var t := if i < holdout then i else i - 1;
      OthersIndex(folds, holdout, t);
      assert x in train[t];
    }
    if exists t | 0 <= t < |train| :: x in train[t] {
      var t :| 0 <= t < |train| && x in train[t];
      OthersIndex(folds, holdout, t);
    }
  }

  /** The number of folds `Folds` produces for a positive fold count. */
  lemma FoldsLength(ids: seq<int>, nfold: int)
    requires nfold > 0
    ensures Folds(ids, nfold).Some? && |Folds(ids, nfold).value| == nfold
  {
  }

  /** The cases a model is trained on when fold `holdout` is held out: the
      union of every other fold, which shares no case with the held-out fold. */
  lemma OthersMembers(ids: seq<int>, nfold: int, holdout: nat, x: int)
    requires Distinct(ids) && holdout < nfold
    ensures var folds := Folds(ids, nfold).value; var train := Others(folds, holdout);
      && |train| == nfold - 1
      && ((exists t | 0 <= t < |train| :: x in train[t]) <==>
          exists i | 0 <= i < nfold && i != holdout :: x in folds[i])
      && ((exists t | 0 <= t < |train| :: x in train[t]) ==> x !in folds[holdout])
  {
    FoldsLength(ids, nfold);
    var folds := Folds(ids, nfold).value;
    var train := Others(folds, holdout);
    OthersUnion(folds, holdout, x);
    if exists i | 0 <= i < nfold && i != holdout :: x in folds[i] {
      var i :| 0 <= i < nfold && i != holdout && x in folds[i];
      FoldsDisjoint(ids, nfold, i, holdout, x);
    }
  }

  /** `cv_data[i]`: the rows of the cases of fold `i`, in table order. */
  function FoldRows(rows: seq<Row>, fold: seq<int>): seq<Row>
  {
    WithGroupIn(rows, set x | x in fold)
  }

  /** The training rows for one held-out fold before sorting: the other
      folds' rows stacked in fold order; `None` where no other fold is left
      (a single fold), since `pd.concat` of an empty list raises ValueError. */
  function TrainingRows(rows: seq<Row>, folds: seq<seq<int>>, holdout: nat): Option<seq<Row>>
  {
    var others := Others(folds, holdout);
    if |others| == 0 then None
    else Some(Concat(seq(|others|, t requires 0 <= t < |others| => FoldRows(rows, others[t]))))
  }

  /** Stacking fails exactly when the held-out fold is the only one; otherwise
      the training rows are the rows of the cases of every fold other than the
      held-out one. */
  lemma TrainingRowsMembers(rows: seq<Row>, folds: seq<seq<int>>, holdout: nat, x: Row)
    requires holdout < |folds|
    ensures TrainingRows(rows, folds, holdout).None? <==> |folds| == 1
    ensures TrainingRows(rows, folds, holdout).Some? ==>
      (x in TrainingRows(rows, folds, holdout).value <==>
       x in rows && exists i | 0 <= i < |folds| && i != holdout :: x.group in folds[i])
  {
    var others := Others(folds, holdout);
    assert |others| == |folds| - 1;
    var parts := seq(|others|, t requires 0 <= t < |others| => FoldRows(rows, others[t]));
    ConcatMember(parts, x);
    forall t | 0 <= t < |others| ensures x in parts[t] <==> x in rows && x.group in others[t] {
      WithGroupInMember(rows, (set y | y in others[t]), x);
    }
    OthersUnion(folds, holdout, x.group);
  }

  /** `np.array(choice).reshape(-1, nalt).argmax(axis=1)`; `None` where the
      reshape fails (no alternatives, or a length that is not a multiple). */
  function TrueLabels(choice: seq<int>, nalt: nat): (r: Option<seq<nat>>)
    ensures r.Some? <==> nalt > 0 && |choice| % nalt == 0
    ensures r.Some? ==> |r.value| == |choice| / nalt && forall c | 0 <= c < |r.value| :: r.value[c] < nalt
  {
    match Reshape(Reals(choice), nalt)
    case None => None
    case Some(rows) =>
      ReshapeRoundTrip(Reals(choice), nalt, []);
      ConcatLength(rows, nalt);
      MulDiv(nalt, |rows|);
      Some(ArgMaxRows(rows))
  }

  /** A one-hot block has its argmax at the hot position. */
  lemma ArgMaxOneHot(k: nat, n: nat)
    requires k < n
    ensures ArgMax(Reals(OneHot(k, n))) == k
  {
    var block := Reals(OneHot(k, n));
    assert block[k] == 1.0;
    assert forall j | 0 <= j < n && j != k :: block[j] == 0.0;
  }

  /** `modes.index(mode)` for every record: the label each case should get. */
  function ModeIndices(table: seq<Record>, modes: seq<string>): (r: seq<nat>)
    requires forall c | 0 <= c < |table| :: table[c].mode in modes
    ensures |r| == |table|
    ensures forall c | 0 <= c < |table| :: r[c] < |modes| && modes[r[c]] == table[c].mode
  {
    seq(|table|, c requires 0 <= c < |table| => IndexOf(modes, table[c].mode))
  }

  /** A leading one-hot block contributes its hot position. */
  lemma LabelsOneHot(tail: seq<int>, k: nat, m: nat)
    requires k < m
    ensures ArgMaxRows(Chunks(Reals(OneHot(k, m) + tail), m)) == [k] + ArgMaxRows(Chunks(Reals(tail), m))
  {
    var x := Reals(OneHot(k, m));
    RealsAppend(OneHot(k, m), tail);
    ChunksCons(x, Reals(tail), m);
    ArgMaxOneHot(k, m);
    ArgMaxRowsCons(x, Chunks(Reals(tail), m));
  }

  lemma ModeIndicesCons(table: seq<Record>, modes: seq<string>)
    requires |table| > 0
    requires forall c | 0 <= c < |table| :: table[c].mode in modes
    ensures ModeIndices(table, modes) == [IndexOf(modes, table[0].mode)] + ModeIndices(table[1..], modes)
  {
  }

  /** The labels recovered from the choice column of a table's blocks are the
      indices of the records' modes. */
  lemma {:induction false} BlockLabelsOfBlocks(table: seq<Record>, altAttrs: AltAttrs, generic: seq<string>, modes: seq<string>)
    requires forall c | 0 <= c < |table| :: RecordError(table[c], modes, generic, true).None?
    requires |modes| > 0
    ensures forall c | 0 <= c < |table| :: table[c].mode in modes
    ensures ArgMaxRows(Chunks(Reals(Choices(Blocks(table, modes, altAttrs, generic, true))), |modes|))
         == ModeIndices(table, modes)
    decreases |table|
  {
    forall c | 0 <= c < |table| ensures table[c].mode in modes {
      CaseBlockChoices(table[c], modes, altAttrs, generic, true);
    }
    if table == [] {
      assert Blocks(table, modes, altAttrs, generic, true) == [];
    } else {
      var rest := table[1..];
      assert forall c | 0 <= c < |rest| :: rest[c] == table[c + 1];
      BlockLabelsOfBlocks(rest, altAttrs, generic, modes);
      var block := CaseBlock(table[0], modes, altAttrs, generic, true);
      var others := Blocks(rest, modes, altAttrs, generic, true);
      BlocksCons(table, modes, altAttrs, generic, true);
      ChoicesAppend(block, others);
      CaseBlockChoices(table[0], modes, altAttrs, generic, true);
      LabelsOneHot(Choices(others), IndexOf(modes, table[0].mode), |modes|);
      ModeIndicesCons(table, modes);
    }
  }

  /** The held-out labels: on the rows of a long form that `isin` keeps for
      a set of case ids, `reshape(-1, nalt).argmax(axis=1)` of the choices
      gives `modes.index(mode)` of each kept record, in table order. */
  lemma HeldOutLabels(table: seq<Record>, altAttrs: AltAttrs, generic: seq<string>, modes: seq<string>, ids: set<int>)
    requires LongForm(table, altAttrs, generic, modes, true).Ok?
    requires |modes| > 0
    ensures var kept := RecordsIn(table, ids);
      && (forall c | 0 <= c < |kept| :: kept[c].mode in modes)
      && TrueLabels(Choices(WithGroupIn(LongForm(table, altAttrs, generic, modes, true).value, ids)), |modes|)
         == Some(ModeIndices(kept, modes))
  {
    var kept := RecordsIn(table, ids);
    BlocksWithGroupIn(table, modes, altAttrs, generic, true, ids);
    if |kept| > 0 {
      assert kept[0] in table;
    }
    assert LongForm(kept, altAttrs, generic, modes, true).value
        == Blocks(kept, modes, altAttrs, generic, true);
    LabelsRoundTrip(kept, altAttrs, generic, modes);
  }

  /** Round trip with `long_form_data`: the argmax of each case's block of
      `nalt` choice indicators is the index of the record's mode. */
  lemma LabelsRoundTrip(table: seq<Record>, altAttrs: AltAttrs, generic: seq<string>, modes: seq<string>)
    requires LongForm(table, altAttrs, generic, modes, true).Ok?
    requires |modes| > 0
    ensures forall c | 0 <= c < |table| :: table[c].mode in modes
    ensures TrueLabels(Choices(LongForm(table, altAttrs, generic, modes, true).value), |modes|)
         == Some(ModeIndices(table, modes))
  {
    var rows := Blocks(table, modes, altAttrs, generic, true);
    assert LongForm(table, altAttrs, generic, modes, true).value == rows;
    var m, n := |modes|, |table|;
    assert |Choices(rows)| % m == 0 by {
      ConcatLength(CaseBlocks(table, modes, altAttrs, generic, true), m);
      MulDiv(m, n);
    }
    BlockLabelsOfBlocks(table, altAttrs, generic, modes);
  }
}
