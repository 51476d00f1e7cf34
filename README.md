# Multinomial-logit toolbox: the combinatorial core

This project models, in Dafny, the non-numeric logic of the mode-choice
toolbox `logit_toolbox.py` of the CityScope ABM backend, and proves its
properties. It covers five parts:

- **`long_form_data`** (module `WideToLong`, `long_form.dfy`). Each survey
  record of the wide mode table becomes `nalt` consecutive long-form rows.
  Each row carries the case id, the mode name, a one-hot `choice` indicator,
  the alternative-specific attributes (0 where the record lacks the field)
  and the case-specific attributes, repeated on every row.
- **`long_form_data_upsample`** (module `Upsample`, `upsample.dfy`). Each
  directive `"+N"` or `"*K"` appends copies of randomly drawn cases that chose
  a given alternative. The copies are renumbered with fresh case ids above
  the largest existing one.
- **`logit_spec`** (module `Specification`, `specification.dfy`). It builds
  the two ordered dictionaries: the alternatives each variable applies to,
  and the coefficient names. It then counts the coefficients. The reference
  alternative is left out for case-specific variables and for the
  alternative-specific constants (ASCs).
- **The bookkeeping of `logit_cv`** (module `CrossValidation`,
  `cross_validation.dfy`):
  - the shuffled case ids are cut into `nfold` folds of `int(ncs / nfold)` cases;
  - each training set is made of the other folds;
  - the true label of a case is recovered from its block of choice indicators by argmax.
- **The utility loop and the `method='max'` prediction of `asclogit_pred`**
  (module `Prediction`, `prediction.dfy`):
  - a coefficient name ending in `" for <alt>"` is split into a main
    variable and an alternative, and applied through that alternative's
    one-hot dummy, tiled over the cases (`np.tile`);
  - `ASC` uses the dummy alone, and an unknown main variable stops the call;
  - any other name is a column multiplied by its coefficient;
  - the prediction is the first maximal position of each case's row.

Shared pieces live in `common.dfy` (module `Common`) and `table.dfy`
(module `Table`):
- `Option`/`Result`, and Python's `list.index`, `int()`, `str.find` and `str.split`, and numpy's `argmax` of one row and of every row;
- records and long-form rows, with `set(df['group'])`, `df.loc[... isin(...)]`, `pd.concat` and numpy's two `reshape` forms.

Tables are sequences of rows. A row holds `group`, `alt`, `choice` and a
map from attribute name to value. Floats are modelled as mathematical reals.
Where Python raises, the model returns an error value of a `Result` or an
`Option`, so every operation is total. The random draws (`np.random.shuffle`
and `np.random.choice`) are parameters:
- the shuffled id order is an input sequence;
- the `t`-th index drawn for directive `j` is `draw(j, t)`, reduced into the pool.

Where the source loops and updates variables, the model is a method with a
loop, proved equal to a specification function whose properties are proved
as lemmas:
- `LongFormData`;
- `CollectCopies` and `RelabelCopies`;
- `LogitSpec`, through `PutAltVars` and `PutGeneric`;
- `BuildDummies` and `AccumulateUtility`.

## Model

All source paths are relative to the repository root.

| member | source | states |
|---|---|---|
| Common.IndexOf | Software/L3_SZ_CityScope-cw_dev/backend/abm_toolbox/logit_toolbox.py:35 | `modes.index(mode)` is a position holding the mode, and no earlier position holds it |
| Common.LastIndexOf | Software/L3_SZ_CityScope-cw_dev/backend/abm_toolbox/logit_toolbox.py:269-273 | a position holding the name with no later one holding it (the dictionary entry that survives repeated alternative names) |
| Common.ArgMax | Software/L3_SZ_CityScope-cw_dev/backend/abm_toolbox/logit_toolbox.py:229 | `argmax` is a maximal position, and every earlier entry is strictly smaller (numpy returns the first maximum) |
| Common.ArgMaxOrderInvariant | Software/L3_SZ_CityScope-cw_dev/backend/abm_toolbox/logit_toolbox.py:297-304 | two rows whose entries compare in the same strict order have the same argmax |
| Common.Trunc | Software/L3_SZ_CityScope-cw_dev/backend/abm_toolbox/logit_toolbox.py:79 | Python's `int()` on a float truncates toward zero: the result is within 1 of the value and not farther from zero |
| Common.Find | Software/L3_SZ_CityScope-cw_dev/backend/abm_toolbox/logit_toolbox.py:284 | the separator occurs at the result and nowhere before it; no result means it occurs nowhere |
| Table.GroupIds | Software/L3_SZ_CityScope-cw_dev/backend/abm_toolbox/logit_toolbox.py:259 | `set(data['group'])` as an increasing list holding exactly the case ids that occur |
| Table.WithGroupIn | Software/L3_SZ_CityScope-cw_dev/backend/abm_toolbox/logit_toolbox.py:214-215 | the rows kept by `isin` come from the table and belong to the given cases |
| Table.WithGroupInMember | Software/L3_SZ_CityScope-cw_dev/backend/abm_toolbox/logit_toolbox.py:214-215 | a row is kept exactly when it is in the table and its case is among the ids |
| Table.WithGroupInAppend | Software/L3_SZ_CityScope-cw_dev/backend/abm_toolbox/logit_toolbox.py:214-215 | filtering a stacked table is stacking the filtered parts (table order is kept) |
| Table.WithGroupInCase | Software/L3_SZ_CityScope-cw_dev/backend/abm_toolbox/logit_toolbox.py:214-215 | the rows of one case are kept whole or dropped whole |
| Table.MaxGroup | Software/L3_SZ_CityScope-cw_dev/backend/abm_toolbox/logit_toolbox.py:84 | `maxID` is a case id of the table and no row has a larger one |
| Table.ConcatAppend | Software/L3_SZ_CityScope-cw_dev/backend/abm_toolbox/logit_toolbox.py:87 | `pd.concat` of two lists of frames is the concatenation of the two stacks |
| Table.ConcatIndex | Software/L3_SZ_CityScope-cw_dev/backend/abm_toolbox/logit_toolbox.py:87 | every row of a stack is a row of one of the stacked frames |
| Table.ConcatMember | Software/L3_SZ_CityScope-cw_dev/backend/abm_toolbox/logit_toolbox.py:222 | a row is in a stack exactly when it is in one of the stacked frames |
| WideToLong.MissingGeneric | Software/L3_SZ_CityScope-cw_dev/backend/abm_toolbox/logit_toolbox.py:39-40 | no result exactly when the record has every case-specific attribute; otherwise a listed attribute the record lacks, and every attribute listed before its first occurrence is present (the `KeyError` names the first missing one in `generic_attrs` order) |
| WideToLong.FirstError | Software/L3_SZ_CityScope-cw_dev/backend/abm_toolbox/logit_toolbox.py:30-40 | no error exactly when no record raises; otherwise the error of a record before which none raises |
| WideToLong.LongFormData | Software/L3_SZ_CityScope-cw_dev/backend/abm_toolbox/logit_toolbox.py:25-42 | the row loop returns what `LongForm` specifies: the first record's error, the column-length error, or the rows |
| WideToLong.BlocksSnoc | Software/L3_SZ_CityScope-cw_dev/backend/abm_toolbox/logit_toolbox.py:30-40 | one more error-free record appends its own block after the rows so far |
| WideToLong.FirstErrorAt | Software/L3_SZ_CityScope-cw_dev/backend/abm_toolbox/logit_toolbox.py:30-40 | when records before `i` raise nothing and record `i` raises, the call raises record `i`'s error |
| WideToLong.BlocksAt | Software/L3_SZ_CityScope-cw_dev/backend/abm_toolbox/logit_toolbox.py:30-36 | there are `nalt * len(table)` rows, and row `c * nalt + j` is row `j` of record `c`'s block |
| WideToLong.LongFormBlock | Software/L3_SZ_CityScope-cw_dev/backend/abm_toolbox/logit_toolbox.py:30-40 | on success, rows `c * nalt` up to `(c + 1) * nalt` are exactly the block of record `c` |
| WideToLong.BlocksWithGroupIn | Software/L3_SZ_CityScope-cw_dev/backend/abm_toolbox/logit_toolbox.py:214-215 | keeping the long-form rows whose case id is in a set keeps exactly the blocks of the records with those ids, in record order |
| WideToLong.CaseBlockChoices | Software/L3_SZ_CityScope-cw_dev/backend/abm_toolbox/logit_toolbox.py:27-36 | with `y_true` the block's choices are one-hot at `modes.index(mode)`; without it they are all zero |
| WideToLong.LongFormSucceeds | Software/L3_SZ_CityScope-cw_dev/backend/abm_toolbox/logit_toolbox.py:28-41 | the model succeeds exactly when no record raises and, for a non-empty table, every column list grows by `nalt` values per record; when no attribute is named `group`, `alt` or `choice`, that is exactly when `from_dict` gets column lists of equal length |
| WideToLong.AlignedIffEqualColumns | Software/L3_SZ_CityScope-cw_dev/backend/abm_toolbox/logit_toolbox.py:28-41 | when no attribute reuses a basic column name, every list growing by `nalt` per record is the same as all lists growing by the same amount, which is what `from_dict` needs |
| WideToLong.UnknownModeFails | Software/L3_SZ_CityScope-cw_dev/backend/abm_toolbox/logit_toolbox.py:34-35 | with `y_true`, a record whose mode is not among `modes` makes the call fail |
| WideToLong.MissingFieldFails | Software/L3_SZ_CityScope-cw_dev/backend/abm_toolbox/logit_toolbox.py:39-40 | a record lacking a case-specific attribute makes the call fail |
| WideToLong.LongFormShape | Software/L3_SZ_CityScope-cw_dev/backend/abm_toolbox/logit_toolbox.py:25-36 | `nalt * len(table)` rows; row `c * nalt + j` has the record's id as `group`, `modes[j]` as `alt`, and choice 1 exactly at the chosen mode's index (all 0 without `y_true`) |
| WideToLong.LongFormAttributes | Software/L3_SZ_CityScope-cw_dev/backend/abm_toolbox/logit_toolbox.py:37-40 | row `j` of a case holds the record's `j`-th listed field for each alternative-specific attribute, or 0 when the field is absent, and the record's own value for each case-specific attribute |
| CrossValidation.FoldSizeTrunc | Software/L3_SZ_CityScope-cw_dev/backend/abm_toolbox/logit_toolbox.py:213 | the fold size is `int()` of the float quotient, for either sign of `nfold` |
| CrossValidation.FoldSizeFloor | Software/L3_SZ_CityScope-cw_dev/backend/abm_toolbox/logit_toolbox.py:212-213 | for positive `nfold`, the fold size is `floor(ncs / nfold)`; the folds use at most `ncs` cases; `ncs mod nfold` cases are left over |
| CrossValidation.FoldsLength | Software/L3_SZ_CityScope-cw_dev/backend/abm_toolbox/logit_toolbox.py:214-215 | a positive `nfold` gives exactly `nfold` folds |
| CrossValidation.FoldAt | Software/L3_SZ_CityScope-cw_dev/backend/abm_toolbox/logit_toolbox.py:214-215 | fold `i` is `caseIDs[i*n:(i+1)*n]`, and it holds `n` cases |
| CrossValidation.FoldMember | Software/L3_SZ_CityScope-cw_dev/backend/abm_toolbox/logit_toolbox.py:214-215 | with distinct ids, the id at position `p` is in fold `i` exactly when `i*n <= p < (i+1)*n` |
| CrossValidation.FoldsCover | Software/L3_SZ_CityScope-cw_dev/backend/abm_toolbox/logit_toolbox.py:212-215 | the id at position `p` is in some fold exactly when `p < nfold*n`, so the last `ncs mod nfold` shuffled cases are in none |
| CrossValidation.FoldsDisjoint | Software/L3_SZ_CityScope-cw_dev/backend/abm_toolbox/logit_toolbox.py:214-215 | with distinct ids, no case is in two different folds |
| CrossValidation.OthersIndex | Software/L3_SZ_CityScope-cw_dev/backend/abm_toolbox/logit_toolbox.py:221 | without the held-out fold there are `nfold - 1` folds, and the `t`-th of them is fold `t` or fold `t + 1` |
| CrossValidation.OthersUnion | Software/L3_SZ_CityScope-cw_dev/backend/abm_toolbox/logit_toolbox.py:221 | a case is in the training folds exactly when it is in some fold other than the held-out one |
| CrossValidation.OthersMembers | Software/L3_SZ_CityScope-cw_dev/backend/abm_toolbox/logit_toolbox.py:221 | the training set is the union of the other folds and shares no case with the held-out fold |
| CrossValidation.TrainingRowsMembers | Software/L3_SZ_CityScope-cw_dev/backend/abm_toolbox/logit_toolbox.py:221-222 | stacking fails exactly when there is a single fold (`pd.concat([])` raises); otherwise a row is in the stacked training frames exactly when it is a row of the table whose case is in a fold other than the held-out one |
| CrossValidation.TrueLabels | Software/L3_SZ_CityScope-cw_dev/backend/abm_toolbox/logit_toolbox.py:229 | `reshape(-1, nalt).argmax(axis=1)` of the choices succeeds exactly when `nalt > 0` divides their number, and gives one valid alternative index per row |
| CrossValidation.ArgMaxOneHot | Software/L3_SZ_CityScope-cw_dev/backend/abm_toolbox/logit_toolbox.py:229 | the argmax of a one-hot block is its hot position |
| CrossValidation.BlockLabelsOfBlocks | Software/L3_SZ_CityScope-cw_dev/backend/abm_toolbox/logit_toolbox.py:33-36 | row-wise argmax of the long-form choices cut into rows of `nalt` gives, case by case, the index of the record's chosen mode |
| CrossValidation.LabelsRoundTrip | Software/L3_SZ_CityScope-cw_dev/backend/abm_toolbox/logit_toolbox.py:229 | round trip: for a successful `long_form_data` with `y_true`, `reshape(-1, nalt).argmax(axis=1)` of the choices succeeds and returns `modes.index(mode)` of every record |
| CrossValidation.HeldOutLabels | Software/L3_SZ_CityScope-cw_dev/backend/abm_toolbox/logit_toolbox.py:214-229 | on a held-out fold (the rows `isin` keeps for a set of ids) of a successful `long_form_data` with `y_true`, the labels are `modes.index(mode)` of the kept records, in table order, for any ids |
| Upsample.Pool | Software/L3_SZ_CityScope-cw_dev/backend/abm_toolbox/logit_toolbox.py:73 | selection succeeds exactly when every case has position `alt_idx`; each selected case is a case of the table whose choice is 1 at `alt_idx` |
| Upsample.PoolComplete | Software/L3_SZ_CityScope-cw_dev/backend/abm_toolbox/logit_toolbox.py:73 | every case whose choice is 1 at `alt_idx` is selected |
| Upsample.Sampled | Software/L3_SZ_CityScope-cw_dev/backend/abm_toolbox/logit_toolbox.py:72-83 | on success there is one list of copies per directive |
| Upsample.StepCopies | Software/L3_SZ_CityScope-cw_dev/backend/abm_toolbox/logit_toolbox.py:76-82 | a directive that succeeds is `"+N"` or `"*K"`; `"+N"` adds exactly `N` copies; the count is what the directive asks for; every copy is a drawn case of the pool; a non-empty result needs a non-empty pool |
| Upsample.ScaleCount | Software/L3_SZ_CityScope-cw_dev/backend/abm_toolbox/logit_toolbox.py:79 | `"*K"` with `K >= 1` adds `floor(count * (K - 1))` copies; with `K < 1` it asks for no positive number |
| Upsample.SampledSnoc | Software/L3_SZ_CityScope-cw_dev/backend/abm_toolbox/logit_toolbox.py:72-83 | one more directive either raises its own error or appends its copies |
| Upsample.SampledErrorPersists | Software/L3_SZ_CityScope-cw_dev/backend/abm_toolbox/logit_toolbox.py:72-83 | once a directive raises, the later directives do not change the outcome |
| Upsample.SampledPrefix | Software/L3_SZ_CityScope-cw_dev/backend/abm_toolbox/logit_toolbox.py:72-83 | when the whole loop succeeds, every prefix of it succeeds with the prefix of its copies |
| Upsample.SampledBlock | Software/L3_SZ_CityScope-cw_dev/backend/abm_toolbox/logit_toolbox.py:72-83 | the copies listed for directive `j` are exactly what directive `j` alone produces |
| Upsample.CollectCopies | Software/L3_SZ_CityScope-cw_dev/backend/abm_toolbox/logit_toolbox.py:72-83 | the directive loop returns `NewCases`: the copies of every directive, in order, or the first error |
| Upsample.RelabelCopies | Software/L3_SZ_CityScope-cw_dev/backend/abm_toolbox/logit_toolbox.py:85-86 | the renumbering loop gives copy `k` the case id `maxID + k + 1` |
| Upsample.UpsampleLongForm | Software/L3_SZ_CityScope-cw_dev/backend/abm_toolbox/logit_toolbox.py:64-92 | the whole upsampling returns what `Upsample` specifies |
| Upsample.UpsampleKeepsOriginals | Software/L3_SZ_CityScope-cw_dev/backend/abm_toolbox/logit_toolbox.py:87 | on success the input table is non-empty, and the output starts with the input rows, unchanged |
| Upsample.UpsampleNewRow | Software/L3_SZ_CityScope-cw_dev/backend/abm_toolbox/logit_toolbox.py:84-87 | every appended row is a row of the `k`-th copy with case id `maxID + k + 1`, larger than every original case id |
| Upsample.AsWrittenAgrees | Software/L3_SZ_CityScope-cw_dev/backend/abm_toolbox/logit_toolbox.py:76-79 | when every directive starts with `+` or `*`, the loop as written and the corrected loop give the same copies or the same error |
| Upsample.StaleCountExample | Software/L3_SZ_CityScope-cw_dev/backend/abm_toolbox/logit_toolbox.py:76-79 | as written, a directive starting with neither sign reuses the previous directive's count; the corrected loop refuses it |
| Specification.PutKeys | Software/L3_SZ_CityScope-cw_dev/backend/abm_toolbox/logit_toolbox.py:121-130 | `OrderedDict` assignment keeps an existing key's place or appends a new key; the key then maps to the new value and other keys are unchanged |
| Specification.PutNew | Software/L3_SZ_CityScope-cw_dev/backend/abm_toolbox/logit_toolbox.py:121-130 | assigning a key not yet present appends the pair at the end |
| Specification.Excluding | Software/L3_SZ_CityScope-cw_dev/backend/abm_toolbox/logit_toolbox.py:125 | the alternatives in index order without the one at `ref_alt_idx`; all of them when that index is out of range |
| Specification.ExcludingLength | Software/L3_SZ_CityScope-cw_dev/backend/abm_toolbox/logit_toolbox.py:125 | it drops exactly one alternative when `ref_alt_idx` is in range, and none otherwise |
| Specification.LogitSpec | Software/L3_SZ_CityScope-cw_dev/backend/abm_toolbox/logit_toolbox.py:114-139 | the two dictionaries and `numCoef` the loops build are `SpecDict`, `NameDict` and `CoefCount` of the entries in insertion order |
| Specification.PutAltVars | Software/L3_SZ_CityScope-cw_dev/backend/abm_toolbox/logit_toolbox.py:119-122 | the first loop inserts one pooled entry per alternative-specific variable |
| Specification.PutGeneric | Software/L3_SZ_CityScope-cw_dev/backend/abm_toolbox/logit_toolbox.py:123-126 | the second loop inserts one entry per case-specific variable after those already present |
| Specification.PutAgree | Software/L3_SZ_CityScope-cw_dev/backend/abm_toolbox/logit_toolbox.py:121-130 | assigning lists of equal length to the same key in both dictionaries keeps them in step |
| Specification.DictsAgree | Software/L3_SZ_CityScope-cw_dev/backend/abm_toolbox/logit_toolbox.py:119-130 | entries whose two lists have equal lengths give dictionaries with the same keys in the same order and lists of equal length |
| Specification.SpecAndNamesAgree | Software/L3_SZ_CityScope-cw_dev/backend/abm_toolbox/logit_toolbox.py:119-130 | for every input, each key's list of names is as long as its specification list |
| Specification.DistinctKeysAppend | Software/L3_SZ_CityScope-cw_dev/backend/abm_toolbox/logit_toolbox.py:119-130 | with distinct variable names, both dictionaries hold the entries in insertion order, one per variable |
| Specification.EntriesKeys | Software/L3_SZ_CityScope-cw_dev/backend/abm_toolbox/logit_toolbox.py:119-130 | the keys are inserted as the alternative-specific variables, then the case-specific ones, then `intercept` if `constant` |
| Specification.CoefCountOfEntries | Software/L3_SZ_CityScope-cw_dev/backend/abm_toolbox/logit_toolbox.py:139 | with distinct keys, `numCoef` is the total length of the inserted specification lists |
| Specification.NumCoefClosedForm | Software/L3_SZ_CityScope-cw_dev/backend/abm_toolbox/logit_toolbox.py:119-139 | with distinct names, `numCoef = len(alt_attr_vars) + (len(generic_attrs) + (1 if constant else 0)) * (nalt - 1)`, or times `nalt` when `ref_alt_idx` is out of range |
| Specification.AltSpec | Software/L3_SZ_CityScope-cw_dev/backend/abm_toolbox/logit_toolbox.py:119-130 | an alternative-specific variable applies to all alternatives pooled, under its own name, unless a case-specific variable or the constant `intercept` reuses the name; listing it twice is allowed |
| Specification.GenericSpec | Software/L3_SZ_CityScope-cw_dev/backend/abm_toolbox/logit_toolbox.py:119-130 | for any variable names, `specifications[var]` of a case-specific variable is every non-reference alternative in index order: each later write to the same key writes the same list |
| Specification.GenericNames | Software/L3_SZ_CityScope-cw_dev/backend/abm_toolbox/logit_toolbox.py:119-130 | for any variable names, `names[var]` of a case-specific variable is `var for alt` over the non-reference alternatives, except that a variable named `intercept` ends with the constants' `ASC for alt` names when `constant` is set |
| Specification.ConstantSpec | Software/L3_SZ_CityScope-cw_dev/backend/abm_toolbox/logit_toolbox.py:127-130 | for any variable names, with `constant` set, `intercept` applies to every non-reference alternative in index order, named `ASC for alt`, since it is the last key written |
| Specification.LookupDistinct | Software/L3_SZ_CityScope-cw_dev/backend/abm_toolbox/logit_toolbox.py:119-130 | with distinct keys, looking up an entry's key gives back that entry's lists |
| Prediction.Column | Software/L3_SZ_CityScope-cw_dev/backend/abm_toolbox/logit_toolbox.py:281 | `data[name]` gives one value per row exactly when the column exists and is numeric; otherwise it is a missing-column or non-numeric error |
| Prediction.BuildDummies | Software/L3_SZ_CityScope-cw_dev/backend/abm_toolbox/logit_toolbox.py:267-274 | the loop over `alts` builds exactly the `" for alt"` flags and the dummy dictionary |
| Prediction.DummiesUpToSpec | Software/L3_SZ_CityScope-cw_dev/backend/abm_toolbox/logit_toolbox.py:269-273 | after `i` steps the dictionary holds exactly the first `i` names, each with the dummy of its last position among them |
| Prediction.DummiesLookup | Software/L3_SZ_CityScope-cw_dev/backend/abm_toolbox/logit_toolbox.py:285 | `dummies_dict[alt]` exists exactly for the alternatives, and it is the dummy of the alternative's last index |
| Prediction.DummyAt | Software/L3_SZ_CityScope-cw_dev/backend/abm_toolbox/logit_toolbox.py:271-273 | the dummy of alternative `k` has `nalt * numChoices` entries; entry `c*nalt + j` is 1 when `j == k` and 0 otherwise |
| Prediction.AccumulateUtility | Software/L3_SZ_CityScope-cw_dev/backend/abm_toolbox/logit_toolbox.py:277-292 | the parameter loop returns `Utilities`: the utility column after every coefficient, or how the loop stopped |
| Prediction.Utilities | Software/L3_SZ_CityScope-cw_dev/backend/abm_toolbox/logit_toolbox.py:277-292 | a finished loop leaves one utility per row |
| Prediction.UtilitiesSnoc | Software/L3_SZ_CityScope-cw_dev/backend/abm_toolbox/logit_toolbox.py:278-292 | one more coefficient either keeps the earlier stop or applies one pass to the utility so far |
| Prediction.UtilitiesErrorPersists | Software/L3_SZ_CityScope-cw_dev/backend/abm_toolbox/logit_toolbox.py:290-292 | once the loop stops, later coefficients do not change the outcome |
| Prediction.NameIsCaseSpecific | Software/L3_SZ_CityScope-cw_dev/backend/abm_toolbox/logit_toolbox.py:268-279 | `v for a` with `a` an alternative ends with one of the flags |
| Prediction.SplitName | Software/L3_SZ_CityScope-cw_dev/backend/abm_toolbox/logit_toolbox.py:284 | `split(' for ')` of `v for a` gives `[v, a]` when the first `" for "` of `v + " for "` is the appended one (so `v` may hold spaces, as in `travel time`) and `a` holds no `" for "` |
| Prediction.FindSep | Software/L3_SZ_CityScope-cw_dev/backend/abm_toolbox/logit_toolbox.py:284 | for such a `v`, the leftmost `" for "` of `v for a` is the one right after `v`, whatever `a` is |
| Prediction.NoSpaceSepFollows | Software/L3_SZ_CityScope-cw_dev/backend/abm_toolbox/logit_toolbox.py:284 | a main variable without spaces always meets that condition |
| Prediction.SpacedNameSplits | Software/L3_SZ_CityScope-cw_dev/backend/abm_toolbox/logit_toolbox.py:284 | `travel time for drive` splits into `travel time` and `drive` |
| Prediction.SpecNamesReadBack | Software/L3_SZ_CityScope-cw_dev/backend/abm_toolbox/logit_toolbox.py:126 | a case-specific coefficient name that `logit_spec` makes is read back as case-specific and splits into its variable and its alternative |
| Prediction.AltSpecificTerm | Software/L3_SZ_CityScope-cw_dev/backend/abm_toolbox/logit_toolbox.py:279-281 | a name without a flag adds the column times the coefficient to every row, or fails as a missing column |
| Prediction.StepOnCaseName | Software/L3_SZ_CityScope-cw_dev/backend/abm_toolbox/logit_toolbox.py:282-292 | every branch of one pass for `v for a`: `ASC` adds the dummy times the coefficient; a known column adds column times dummy times coefficient; an unknown variable stops; a dummy of the wrong length fails |
| Prediction.AscTerm | Software/L3_SZ_CityScope-cw_dev/backend/abm_toolbox/logit_toolbox.py:286-287 | the ASC term adds the coefficient to the rows of alternative `k` in every case and nothing to the other rows |
| Prediction.CaseSpecificTerm | Software/L3_SZ_CityScope-cw_dev/backend/abm_toolbox/logit_toolbox.py:288-289 | a case-specific term adds column times coefficient to the rows of alternative `k` and nothing to the other rows |
| Prediction.UnknownVariableStops | Software/L3_SZ_CityScope-cw_dev/backend/abm_toolbox/logit_toolbox.py:290-292 | a case-specific name whose main variable is neither `ASC` nor a column makes the whole call return nothing |
| Table.Reshape | Software/L3_SZ_CityScope-cw_dev/backend/abm_toolbox/logit_toolbox.py:302 | `reshape(-1, w)` succeeds exactly when `w > 0` divides the length, and every row has `w` entries |
| Table.ReshapeRoundTrip | Software/L3_SZ_CityScope-cw_dev/backend/abm_toolbox/logit_toolbox.py:302 | `reshape(-1, w)` loses nothing both ways: its `len / w` rows, stacked again, are the input, and a matrix of width `w` stacked and reshaped is the same matrix |
| Table.ReshapeRowsRoundTrip | Software/L3_SZ_CityScope-cw_dev/backend/abm_toolbox/logit_toolbox.py:295 | `reshape(r, -1)` succeeds exactly when `r > 0` divides the length; it gives `r` rows of `len / r` entries which, stacked again, are the input |
| Table.ReshapeAgree | Software/L3_SZ_CityScope-cw_dev/backend/abm_toolbox/logit_toolbox.py:295-302 | for `r * w` entries with `r, w > 0`, `reshape(r, -1)` and `reshape(-1, w)` give the same `r` rows |
| Common.ArgMaxRows | Software/L3_SZ_CityScope-cw_dev/backend/abm_toolbox/logit_toolbox.py:303-304 | `argmax(axis=1)`: one label per row, the first maximal entry of that row |
| Common.ArgMaxRowsOrderInvariant | Software/L3_SZ_CityScope-cw_dev/backend/abm_toolbox/logit_toolbox.py:297-304 | any row-wise transformation that keeps the strict order of the entries leaves the labels unchanged |
| Prediction.MaxLabels | Software/L3_SZ_CityScope-cw_dev/backend/abm_toolbox/logit_toolbox.py:295-304 | for `numChoices` cases of `nalt > 0` alternatives, `reshape(numChoices, -1)` of the utilities gives the rows of `reshape(-1, nalt)`; `p.reshape(-1, nalt)` gives back the probability matrix; and its labels are those of the utilities whenever each probability row keeps its utilities' strict order |

## Left out

- `logit_est_disp` and `pl.create_choice_model` are left out: maximum-likelihood fitting, the point-only fallback and the summary all live in pylogit, which is not part of this model.
- The softmax of `asclogit_pred` is left out: mean-centering, clamping to ±700, `np.exp` and normalisation are floating-point numerics.
  - `Prediction.MaxLabels` states when the softmax keeps the `method='max'` labels: it must keep the strict order of each case's utilities.
  - The clamp can break that order: two utilities beyond ±700 become equal.
- The log-likelihood and McFadden R² arithmetic is left out: it is floating-point numerics inside the left-out estimation.
- `method='random'` (a draw from each probability row) and `method='none'` are left out: only `method='max'` is modelled.
- The sklearn metrics (accuracy, macro-F1, confusion matrix) and all `print` output are left out.
- The sort by group and alternative of the training frame is left out. `CrossValidation.TrainingRows` is the stack before sorting.
- Frame copies, dtypes and indexes are left out: tables are sequences of rows.
- `WideToLong.LongFormSucceeds`, `WideToLong.LongFormData`: attribute names that reuse `group`, `alt` or `choice` are refused as `ColumnLengthMismatch` unless every list still grows by `nalt` per record. `from_dict` accepts any lists of equal length. Such a table would mix case ids, mode names and attribute values in one column, which a `Row` cannot hold. `WideToLong.AlignedIffEqualColumns` shows that without such names the two conditions agree.
- Randomness is a parameter, not modelled:
  - the shuffled id order in `logit_cv` is an input;
  - the draws of `np.random.choice` in the upsampling are the function `draw`;
  - seeding is not modelled.
- Reading a directive string is left abstract: `Upsample.Directive` is the string already read as `"+N"`, `"*K"`, a sign followed by text `int()`/`float()` refuses, or neither sign.
- A dictionary `alts` is modelled as its list of names. An alternative's index is its position, so a dictionary whose keys are not `0 … n-1` is not modelled.
- `customIDColumnName` is taken to be `group`, as `logit_cv` passes it.
- `Prediction.Column` on a table with no rows treats every attribute as present: the columns of an empty frame are not modelled.
- All numbers are mathematical reals. Float rounding and overflow are not modelled, and integer columns (`group`, `choice`) are read as exact reals.
- `Prediction.Utilities`, `Prediction.Step`: the contract states only the length of the result. What each pass adds is stated by `Prediction.UtilitiesSnoc`, `Prediction.AltSpecificTerm`, `Prediction.StepOnCaseName`, `Prediction.AscTerm` and `Prediction.CaseSpecificTerm`.
- `Upsample.Sampled`: the contract states only the number of lists. Their contents are stated by `Upsample.SampledBlock` and `Upsample.StepCopies`.

## Findings

| source | as written | input that shows it | evidently intended | confidence | as-written member | corrected member |
|---|---|---|---|---|---|---|
| Software/L3_SZ_CityScope-cw_dev/backend/abm_toolbox/logit_toolbox.py:76-79 | a directive starting with neither `+` nor `*` leaves `num_new` untouched, so it reuses the previous directive's count (or raises `UnboundLocalError` when it is the first) | `upsample_new = {0: '+2', 1: 'x'}` on two cases, one choosing each alternative: alternative 1 gets 2 copies | an unrecognised directive is refused instead of silently reusing another alternative's count | medium; not executed | Upsample.SampledAsWritten, Upsample.StaleCountExample | Upsample.Sampled, Upsample.AsWrittenAgrees |
