/** `long_form_data`: every record of the wide mode table becomes `nalt`
    consecutive rows of the long-form table, one per mode, carrying the case
    id, the mode name, a one-hot choice indicator, the alternative-specific
    attribute values (0 where the record lacks the field) and the
    case-specific attributes repeated on every row. */
module WideToLong {
  import opened Common
  import opened Table

  datatype LongFormError =
    | ModeNotFound(id: int, mode: string)   // `modes.index` raises ValueError
    | MissingField(id: int, field: string)  // `row[g_attr]` raises KeyError
    | ColumnLengthMismatch                  // `DataFrame.from_dict` refuses columns of unequal length

  /** Alternative-specific attributes: long-form column name to the wide
      field holding its value for each alternative, in mode order. */
  type AltAttrs = map<string, seq<string>>

  const BasicColumns: seq<string> := ["group", "alt", "choice"]

  /** The values one record appends to the column list named `k` through
      the columns `names`: `nalt` each time `k` is listed. */
  function Appended(k: string, names: seq<string>, nalt: nat): (n: nat)
    ensures k !in names ==> n == 0
    ensures k in names ==> n >= nalt
  {
    if names == [] then 0 else (if names[0] == k then nalt else 0) + Appended(k, names[1..], nalt)
  }

  /** The number of values one record appends to the column list named `k`.
      A name listed several times shares one list, so the appends add up. */
  function Width(k: string, nalt: nat, altAttrs: AltAttrs, generic: seq<string>): nat
  {
    Appended(k, BasicColumns + generic, nalt) + (if k in altAttrs then |altAttrs[k]| else 0)
  }

  /** Every column list grows by exactly `nalt` values per record, so the
      columns end up equally long whatever the number of records. */
  predicate Aligned(nalt: nat, altAttrs: AltAttrs, generic: seq<string>)
  {
    && (forall k | k in altAttrs :: Width(k, nalt, altAttrs, generic) == nalt)
    && (forall i | 0 <= i < |generic| :: Width(generic[i], nalt, altAttrs, generic) == nalt)
    && (forall i | 0 <= i < |BasicColumns| :: Width(BasicColumns[i], nalt, altAttrs, generic) == nalt)
  }

  /** `DataFrame.from_dict` accepts the column lists: after any positive
      number of records every list has the length of the `group` list. */
  predicate EqualColumns(nalt: nat, altAttrs: AltAttrs, generic: seq<string>)
  {
    var w := Width("group", nalt, altAttrs, generic);
    && (forall k | k in altAttrs :: Width(k, nalt, altAttrs, generic) == w)
    && (forall i | 0 <= i < |generic| :: Width(generic[i], nalt, altAttrs, generic) == w)
    && (forall i | 0 <= i < |BasicColumns| :: Width(BasicColumns[i], nalt, altAttrs, generic) == w)
  }

  /** No attribute column reuses the name of `group`, `alt` or `choice`. */
  predicate NoBasicAttr(altAttrs: AltAttrs, generic: seq<string>)
  {
    && (forall k | k in altAttrs :: k !in BasicColumns)
    && (forall i | 0 <= i < |generic| :: generic[i] !in BasicColumns)
  }

  lemma {:induction false} AppendedAppend(k: string, a: seq<string>, b: seq<string>, nalt: nat)
    ensures Appended(k, a + b, nalt) == Appended(k, a, nalt) + Appended(k, b, nalt)
    decreases |a|
  {
    if a == [] {
      assert a + b == b;
    } else {
      assert (a + b)[1..] == a[1..] + b;
      AppendedAppend(k, a[1..], b, nalt);
    }
  }

  /** Where no attribute reuses a basic column's name, each basic column
      grows by exactly `nalt` per record, so the columns agree in length
      exactly when every one of them grows by `nalt`. */
  lemma AlignedIffEqualColumns(nalt: nat, altAttrs: AltAttrs, generic: seq<string>)
    requires NoBasicAttr(altAttrs, generic)
    ensures Aligned(nalt, altAttrs, generic) <==> EqualColumns(nalt, altAttrs, generic)
  {
    forall i | 0 <= i < |BasicColumns|
      ensures Width(BasicColumns[i], nalt, altAttrs, generic) == nalt
    {
      var k := BasicColumns[i];
      AppendedAppend(k, BasicColumns, generic, nalt);
      assert k !in generic;
      assert Appended(k, BasicColumns, nalt) == nalt by {
        assert BasicColumns[1..] == ["alt", "choice"];
        assert ["alt", "choice"][1..] == ["choice"];
        assert ["choice"][1..] == [];
        assert Appended(k, ["choice"], nalt) == (if k == "choice" then nalt else 0);
        assert Appended(k, ["alt", "choice"], nalt) == (if k == "group" then 0 else nalt);
      }
    }
    assert BasicColumns[0] == "group";
  }

  /** `row.get(name, 0)` */
  function Get(fields: map<string, real>, name: string): real
  {
    if name in fields then fields[name] else 0.0
  }

  /** The first case-specific attribute the record lacks. */
  function MissingGeneric(rec: Record, generic: seq<string>): (r: Option<string>)
    ensures r.None? <==> forall i | 0 <= i < |generic| :: generic[i] in rec.fields
    ensures r.Some? ==> r.value in generic && r.value !in rec.fields
    ensures r.Some? ==> forall j | 0 <= j < IndexOf(generic, r.value) :: generic[j] in rec.fields
  {
    if generic == [] then None
    else if generic[0] !in rec.fields then Some(generic[0])
    else MissingGeneric(rec, generic[1..])
  }

  /** The error processing one record raises, if any: first the mode lookup,
      then the case-specific attributes in order. */
  function RecordError(rec: Record, modes: seq<string>, generic: seq<string>, yTrue: bool): Option<LongFormError>
  {
    if yTrue && rec.mode !in modes then Some(ModeNotFound(rec.id, rec.mode))
    else match MissingGeneric(rec, generic)
      case Some(f) => Some(MissingField(rec.id, f))
      case None => None
  }

  /** The error of the first record that raises one. */
  function FirstError(table: seq<Record>, modes: seq<string>, generic: seq<string>, yTrue: bool): (e: Option<LongFormError>)
    ensures e.None? <==> forall c | 0 <= c < |table| :: RecordError(table[c], modes, generic, yTrue).None?
    ensures e.Some? ==> exists c | 0 <= c < |table| ::
      && e == RecordError(table[c], modes, generic, yTrue)
      && forall d | 0 <= d < c :: RecordError(table[d], modes, generic, yTrue).None?
  {
    if table == [] then None
    else
      var init := table[..|table| - 1];
      var e := FirstError(init, modes, generic, yTrue);
      if e.Some? then
        assert forall c | 0 <= c < |init| :: table[c] == init[c];
        e
      else
        assert forall c | 0 <= c < |init| :: table[c] == init[c];
        RecordError(table[|table| - 1], modes, generic, yTrue)
  }

  /** The attribute cells of the row for alternative `j`. */
  function RowAttrs(rec: Record, j: nat, altAttrs: AltAttrs, generic: seq<string>): map<string, real>
    requires forall i | 0 <= i < |generic| :: generic[i] in rec.fields
  {
    (map k | k in altAttrs && j < |altAttrs[k]| :: Get(rec.fields, altAttrs[k][j]))
    + (map g | g in generic :: rec.fields[g])
  }

  /** The `nalt` rows one record contributes. */
  function CaseBlock(rec: Record, modes: seq<string>, altAttrs: AltAttrs, generic: seq<string>, yTrue: bool): seq<Row>
    requires RecordError(rec, modes, generic, yTrue).None?
  {
    var chosen := if yTrue then IndexOf(modes, rec.mode) else |modes|;
    seq(|modes|, j requires 0 <= j < |modes| =>
      Row(rec.id, modes[j], if j == chosen then 1 else 0, RowAttrs(rec, j, altAttrs, generic)))
  }

  /** The blocks of a table whose records raise no error, in record order. */
  function CaseBlocks(table: seq<Record>, modes: seq<string>, altAttrs: AltAttrs, generic: seq<string>, yTrue: bool): seq<seq<Row>>
    requires forall c | 0 <= c < |table| :: RecordError(table[c], modes, generic, yTrue).None?
  {
    seq(|table|, c requires 0 <= c < |table| => CaseBlock(table[c], modes, altAttrs, generic, yTrue))
  }

  function Blocks(table: seq<Record>, modes: seq<string>, altAttrs: AltAttrs, generic: seq<string>, yTrue: bool): seq<Row>
    requires forall c | 0 <= c < |table| :: RecordError(table[c], modes, generic, yTrue).None?
  {
    Concat(CaseBlocks(table, modes, altAttrs, generic, yTrue))
  }

  /** What `long_form_data(mode_table, alt_attrs, generic_attrs, modes, y_true)` returns or raises. */
  function LongForm(table: seq<Record>, altAttrs: AltAttrs, generic: seq<string>, modes: seq<string>, yTrue: bool)
    : Result<seq<Row>, LongFormError>
  {
    match FirstError(table, modes, generic, yTrue)
    case Some(e) => Err(e)
    case None =>
      if |table| > 0 && !Aligned(|modes|, altAttrs, generic) then Err(ColumnLengthMismatch)
      else Ok(Blocks(table, modes, altAttrs, generic, yTrue))
  }

  /** The row loop of `long_form_data`: the columns grow by one block of
      `nalt` rows per record. */
  method LongFormData(table: seq<Record>, altAttrs: AltAttrs, generic: seq<string>, modes: seq<string>, yTrue: bool)
    returns (r: Result<seq<Row>, LongFormError>)
    ensures r == LongForm(table, altAttrs, generic, modes, yTrue)
  {
    var rows: seq<Row> := [];
    var i := 0;
    while i < |table|
      invariant 0 <= i <= |table|
      invariant FirstError(table[..i], modes, generic, yTrue).None?
      invariant rows == Blocks(table[..i], modes, altAttrs, generic, yTrue)
    {
      var rec := table[i];
      if yTrue && rec.mode !in modes {
        FirstErrorAt(table, i, modes, generic, yTrue);
        return Err(ModeNotFound(rec.id, rec.mode));
      }
      var missing := MissingGeneric(rec, generic);
      if missing.Some? {
        FirstErrorAt(table, i, modes, generic, yTrue);
        return Err(MissingField(rec.id, missing.value));
      }
      BlocksSnoc(table, i, modes, altAttrs, generic, yTrue);
      rows := rows + CaseBlock(rec, modes, altAttrs, generic, yTrue);
      i := i + 1;
    }
    assert table[..i] == table;
    if |table| > 0 && !Aligned(|modes|, altAttrs, generic) {
      return Err(ColumnLengthMismatch);
    }
    return Ok(rows);
  }

  /** One more error-free record adds its block at the end. */
  lemma BlocksSnoc(table: seq<Record>, i: nat, modes: seq<string>, altAttrs: AltAttrs, generic: seq<string>, yTrue: bool)
    requires i < |table|
    requires FirstError(table[..i], modes, generic, yTrue).None?
    requires RecordError(table[i], modes, generic, yTrue).None?
    ensures FirstError(table[..i + 1], modes, generic, yTrue).None?
    ensures Blocks(table[..i + 1], modes, altAttrs, generic, yTrue)
         == Blocks(table[..i], modes, altAttrs, generic, yTrue) + CaseBlock(table[i], modes, altAttrs, generic, yTrue)
  {
    assert table[..i + 1] == table[..i] + [table[i]];
    var block := CaseBlock(table[i], modes, altAttrs, generic, yTrue);
    assert CaseBlocks(table[..i + 1], modes, altAttrs, generic, yTrue)
        == CaseBlocks(table[..i], modes, altAttrs, generic, yTrue) + [block];
    ConcatSnoc(CaseBlocks(table[..i], modes, altAttrs, generic, yTrue), block);
  }

  /** The first failing record decides the error, whatever follows it. */
  lemma {:induction false} FirstErrorAt(table: seq<Record>, i: nat, modes: seq<string>, generic: seq<string>, yTrue: bool)
    requires i < |table|
    requires FirstError(table[..i], modes, generic, yTrue).None?
    requires RecordError(table[i], modes, generic, yTrue).Some?
    ensures FirstError(table, modes, generic, yTrue) == RecordError(table[i], modes, generic, yTrue)
  {
    assert forall d | 0 <= d < i :: RecordError(table[d], modes, generic, yTrue).None? by {
      forall d | 0 <= d < i ensures RecordError(table[d], modes, generic, yTrue).None? {
        assert table[d] == table[..i][d];
      }
    }
  }

  /** Row `c * nalt + j` of the long-form rows is row `j` of record `c`'s block. */
  lemma BlocksAt(table: seq<Record>, modes: seq<string>, altAttrs: AltAttrs, generic: seq<string>, yTrue: bool, c: nat, j: nat)
    requires forall d | 0 <= d < |table| :: RecordError(table[d], modes, generic, yTrue).None?
    requires c < |table| && j < |modes|
    ensures |Blocks(table, modes, altAttrs, generic, yTrue)| == |modes| * |table|
    ensures c * |modes| + j < |modes| * |table|
    ensures Blocks(table, modes, altAttrs, generic, yTrue)[c * |modes| + j]
         == CaseBlock(table[c], modes, altAttrs, generic, yTrue)[j]
  {
    ConcatAt(CaseBlocks(table, modes, altAttrs, generic, yTrue), |modes|, c, j);
  }

  /** The records whose id is among `ids`, in table order. */
  function RecordsIn(table: seq<Record>, ids: set<int>): (r: seq<Record>)
    ensures |r| <= |table|
    ensures forall c | 0 <= c < |r| :: r[c] in table && r[c].id in ids
  {
    if table == [] then []
    else
      var init := RecordsIn(table[..|table| - 1], ids);
      var last := table[|table| - 1];
      if last.id in ids then init + [last] else init
  }

  /** Keeping the long-form rows of some cases, as `isin` does, keeps
      exactly the blocks of the records with those ids, in record order. */
  lemma {:induction false} BlocksWithGroupIn(table: seq<Record>, modes: seq<string>, altAttrs: AltAttrs, generic: seq<string>, yTrue: bool, ids: set<int>)
    requires forall c | 0 <= c < |table| :: RecordError(table[c], modes, generic, yTrue).None?
    ensures forall c | 0 <= c < |RecordsIn(table, ids)| :: RecordError(RecordsIn(table, ids)[c], modes, generic, yTrue).None?
    ensures WithGroupIn(Blocks(table, modes, altAttrs, generic, yTrue), ids)
         == Blocks(RecordsIn(table, ids), modes, altAttrs, generic, yTrue)
  {
    if table != [] {
      var n := |table| - 1;
      var init, last := table[..n], table[n];
      assert forall c | 0 <= c < |init| :: init[c] == table[c];
      BlocksWithGroupIn(init, modes, altAttrs, generic, yTrue, ids);
      var block := CaseBlock(last, modes, altAttrs, generic, yTrue);
      assert table[..n + 1] == table;
      BlocksSnoc(table, n, modes, altAttrs, generic, yTrue);
      WithGroupInAppend(Blocks(init, modes, altAttrs, generic, yTrue), block, ids);
      WithGroupInCase(block, last.id, ids);
      if last.id in ids {
        KeptSnoc(init, last, modes, altAttrs, generic, yTrue, ids);
      }
    }
  }

  /** One more kept record appends its block. */
  lemma KeptSnoc(init: seq<Record>, last: Record, modes: seq<string>, altAttrs: AltAttrs, generic: seq<string>, yTrue: bool, ids: set<int>)
    requires forall c | 0 <= c < |RecordsIn(init, ids)| :: RecordError(RecordsIn(init, ids)[c], modes, generic, yTrue).None?
    requires RecordError(last, modes, generic, yTrue).None?
    requires last.id in ids
    ensures RecordsIn(init + [last], ids) == RecordsIn(init, ids) + [last]
    ensures Blocks(RecordsIn(init + [last], ids), modes, altAttrs, generic, yTrue)
         == Blocks(RecordsIn(init, ids), modes, altAttrs, generic, yTrue) + CaseBlock(last, modes, altAttrs, generic, yTrue)
  {
    assert (init + [last])[..|init|] == init;
    var keptInit := RecordsIn(init, ids);
    var kept := keptInit + [last];
    assert kept[..|keptInit|] == keptInit && kept[..|keptInit| + 1] == kept;
    BlocksSnoc(kept, |keptInit|, modes, altAttrs, generic, yTrue);
  }

  /** Each record becomes `nalt` consecutive rows, in record order: rows
      `c * nalt` up to `(c + 1) * nalt` are record `c`'s block. */
  lemma LongFormBlock(table: seq<Record>, altAttrs: AltAttrs, generic: seq<string>, modes: seq<string>, yTrue: bool, c: nat)
    requires LongForm(table, altAttrs, generic, modes, yTrue).Ok?
    requires c < |table|
    ensures RecordError(table[c], modes, generic, yTrue).None?
    ensures var rows := LongForm(table, altAttrs, generic, modes, yTrue).value;
      && |rows| == |modes| * |table|
      && c * |modes| + |modes| <= |rows|
      && rows[c * |modes|..c * |modes| + |modes|] == CaseBlock(table[c], modes, altAttrs, generic, yTrue)
  {
    var blocks := CaseBlocks(table, modes, altAttrs, generic, yTrue);
    assert LongForm(table, altAttrs, generic, modes, yTrue).value == Concat(blocks);
    ConcatSlice(blocks, |modes|, c);
  }

  /** The blocks of a table are the first record's block followed by the
      blocks of the rest. */
  lemma BlocksCons(table: seq<Record>, modes: seq<string>, altAttrs: AltAttrs, generic: seq<string>, yTrue: bool)
    requires |table| > 0
    requires forall c | 0 <= c < |table| :: RecordError(table[c], modes, generic, yTrue).None?
    ensures Blocks(table, modes, altAttrs, generic, yTrue)
         == CaseBlock(table[0], modes, altAttrs, generic, yTrue) + Blocks(table[1..], modes, altAttrs, generic, yTrue)
  {
    var blocks := CaseBlocks(table, modes, altAttrs, generic, yTrue);
    assert blocks[1..] == CaseBlocks(table[1..], modes, altAttrs, generic, yTrue);
    ConcatCons(blocks);
  }

  /** The choice indicators of one record's block: one-hot at
      `modes.index(mode)` with `y_true`, all zero without it. */
  lemma CaseBlockChoices(rec: Record, modes: seq<string>, altAttrs: AltAttrs, generic: seq<string>, yTrue: bool)
    requires RecordError(rec, modes, generic, yTrue).None?
    ensures yTrue ==> rec.mode in modes
    ensures yTrue ==> Choices(CaseBlock(rec, modes, altAttrs, generic, yTrue)) == OneHot(IndexOf(modes, rec.mode), |modes|)
    ensures !yTrue ==> Choices(CaseBlock(rec, modes, altAttrs, generic, yTrue)) == Repeat(0, |modes|)
  {
  }

  /** The model succeeds exactly when no record raises and, for a non-empty
      table, every column list grows by `nalt` per record. Where no attribute
      reuses a basic column's name, that is exactly when `from_dict` accepts
      the column lists. */
  lemma LongFormSucceeds(table: seq<Record>, altAttrs: AltAttrs, generic: seq<string>, modes: seq<string>, yTrue: bool)
    ensures LongForm(table, altAttrs, generic, modes, yTrue).Ok? <==>
      && (forall c | 0 <= c < |table| :: RecordError(table[c], modes, generic, yTrue).None?)
      && (|table| == 0 || Aligned(|modes|, altAttrs, generic))
    ensures NoBasicAttr(altAttrs, generic) ==>
      (LongForm(table, altAttrs, generic, modes, yTrue).Ok? <==>
        && (forall c | 0 <= c < |table| :: RecordError(table[c], modes, generic, yTrue).None?)
        && (|table| == 0 || EqualColumns(|modes|, altAttrs, generic)))
  {
    if NoBasicAttr(altAttrs, generic) {
      AlignedIffEqualColumns(|modes|, altAttrs, generic);
    }
  }

  /** With `y_true`, a record whose mode is not among `modes` makes the
      whole call fail; so does a record lacking a case-specific attribute. */
  lemma UnknownModeFails(table: seq<Record>, altAttrs: AltAttrs, generic: seq<string>, modes: seq<string>, c: nat)
    requires c < |table| && table[c].mode !in modes
    ensures LongForm(table, altAttrs, generic, modes, true).Err?
  {
    assert RecordError(table[c], modes, generic, true).Some?;
  }

  lemma MissingFieldFails(table: seq<Record>, altAttrs: AltAttrs, generic: seq<string>, modes: seq<string>, yTrue: bool, c: nat, g: string)
    requires c < |table| && g in generic && g !in table[c].fields
    ensures LongForm(table, altAttrs, generic, modes, yTrue).Err?
  {
    var k :| 0 <= k < |generic| && generic[k] == g;
    assert RecordError(table[c], modes, generic, yTrue).Some?;
  }

  /** Shape of the long-form table: `nalt` rows per record, in record order;
      each carries the record's id as `group` and the modes in order as `alt`;
      `choice` is one-hot at `modes.index(mode)` with `y_true` and all zero
      without it. */
  lemma LongFormShape(table: seq<Record>, altAttrs: AltAttrs, generic: seq<string>, modes: seq<string>, yTrue: bool, c: nat, j: nat)
    requires LongForm(table, altAttrs, generic, modes, yTrue).Ok?
    requires c < |table| && j < |modes|
    ensures var rows := LongForm(table, altAttrs, generic, modes, yTrue).value;
      && |rows| == |modes| * |table|
      && c * |modes| + j < |rows|
      && rows[c * |modes| + j].group == table[c].id
      && rows[c * |modes| + j].alt == modes[j]
      && (yTrue ==> table[c].mode in modes &&
                    rows[c * |modes| + j].choice == if j == IndexOf(modes, table[c].mode) then 1 else 0)
      && (!yTrue ==> rows[c * |modes| + j].choice == 0)
  {
    BlocksAt(table, modes, altAttrs, generic, yTrue, c, j);
    assert RecordError(table[c], modes, generic, yTrue).None?;
  }

  /** Attribute cells: an alternative-specific column takes the record's
      field for that alternative, or 0 when the record lacks it; a
      case-specific column repeats the record's value on every row. */
  lemma LongFormAttributes(table: seq<Record>, altAttrs: AltAttrs, generic: seq<string>, modes: seq<string>, yTrue: bool, c: nat, j: nat)
    requires LongForm(table, altAttrs, generic, modes, yTrue).Ok?
    requires c < |table| && j < |modes|
    ensures c * |modes| + j < |LongForm(table, altAttrs, generic, modes, yTrue).value|
    ensures var row := LongForm(table, altAttrs, generic, modes, yTrue).value[c * |modes| + j];
      && (forall k | k in altAttrs && k !in generic && k !in BasicColumns ::
            k in row.attrs && j < |altAttrs[k]| && row.attrs[k] == Get(table[c].fields, altAttrs[k][j]))
      && (forall g | g in generic :: g in table[c].fields && g in row.attrs && row.attrs[g] == table[c].fields[g])
  {
    BlocksAt(table, modes, altAttrs, generic, yTrue, c, j);
    var rec := table[c];
    assert RecordError(rec, modes, generic, yTrue).None?;
    assert Aligned(|modes|, altAttrs, generic);
    forall k | k in altAttrs && k !in generic && k !in BasicColumns
      ensures j < |altAttrs[k]|
    {
      assert Appended(k, BasicColumns + generic, |modes|) == 0;
      assert Width(k, |modes|, altAttrs, generic) == |modes|;
    }
  }
}
