/** `logit_spec` without the call into pylogit: the two ordered
    dictionaries that describe a multinomial logit model to the estimator,
    and the number of coefficients they ask for.

    An alternative-specific variable gets one coefficient shared by every
    alternative. A case-specific variable, and the alternative-specific
    constant (`intercept`, named `ASC for <alt>`), get one coefficient per
    alternative other than the reference one, named `<var> for <alt>`.

    `alts` is the list of alternative names; a dict `{0: .., 1: .., ...}`
    with keys `0 .. nalt - 1` is the same list. */
module Specification {
  import opened Common

  /** The alternatives one coefficient applies to: a single alternative, or
      all of them sharing the coefficient. */
  datatype SpecItem = Single(alt: string) | Pooled(alts: seq<string>)

  /** An `OrderedDict` keyed by variable name: entries in first-insertion order. */
  type OrderedDict<V> = seq<(string, V)>

  function Keys<V>(d: OrderedDict<V>): (keys: seq<string>)
    ensures |keys| == |d|
    ensures forall i | 0 <= i < |d| :: keys[i] == d[i].0
  {
    if d == [] then [] else [d[0].0] + Keys(d[1..])
  }

  /** `d[key] = value`: an existing key keeps its place and takes the new
      value; a new key goes to the end. */
  function Put<V>(d: OrderedDict<V>, key: string, value: V): OrderedDict<V>
  {
    if d == [] then [(key, value)]
    else if d[0].0 == key then [(key, value)] + d[1..]
    else [d[0]] + Put(d[1..], key, value)
  }

  /** `d[key]`, `None` for a missing key. */
  function Lookup<V>(d: OrderedDict<V>, key: string): Option<V>
  {
    if d == [] then None
    else if d[0].0 == key then Some(d[0].1)
    else Lookup(d[1..], key)
  }

  /** What `d[key] = value` does to the keys and to every lookup. */
  lemma {:induction false} PutKeys<V>(d: OrderedDict<V>, key: string, value: V)
    ensures Keys(Put(d, key, value)) == if key in Keys(d) then Keys(d) else Keys(d) + [key]
    ensures Lookup(Put(d, key, value), key) == Some(value)
    ensures forall k | k != key :: Lookup(Put(d, key, value), k) == Lookup(d, k)
  {
    if d != [] && d[0].0 != key {
      PutKeys(d[1..], key, value);
      assert Keys(d) == [d[0].0] + Keys(d[1..]);
      assert Put(d, key, value)[1..] == Put(d[1..], key, value);
    }
  }

  /** A lookup after `d[key] = value`, one key at a time. */
  lemma PutLookup<V>(d: OrderedDict<V>, key: string, value: V, k: string)
    ensures Lookup(Put(d, key, value), k) == if k == key then Some(value) else Lookup(d, k)
  {
    PutKeys(d, key, value);
  }

  /** Assigning a key not yet present appends it. */
  lemma {:induction false} PutNew<V>(d: OrderedDict<V>, key: string, value: V)
    requires key !in Keys(d)
    ensures Put(d, key, value) == d + [(key, value)]
  {
    if d != [] {
      assert Keys(d)[0] != key;
      assert key !in Keys(d[1..]) by {
        assert forall j | 0 <= j < |d| - 1 :: Keys(d[1..])[j] == Keys(d)[j + 1];
      }
      PutNew(d[1..], key, value);
      assert [d[0]] + (d[1..] + [(key, value)]) == d + [(key, value)];
    }
  }

  /** `[alts[i] for i in range(nalt) if i != ref_alt_idx]` */
  function Excluding(alts: seq<string>, ref: int): (r: seq<string>)
    ensures 0 <= ref < |alts| ==> r == alts[..ref] + alts[ref + 1..]
    ensures !(0 <= ref < |alts|) ==> r == alts
  {
    if alts == [] then []
    else
      var n := |alts| - 1;
      var init := Excluding(alts[..n], ref);
      assert 0 <= ref < n ==> alts[..n][..ref] + alts[..n][ref + 1..] + [alts[n]] == alts[..ref] + alts[ref + 1..];
      assert alts[..n] + [alts[n]] == alts;
      if n == ref then init else init + [alts[n]]
  }

  /** `[var + ' for ' + a for a in alts]` */
  function Suffixed(name: string, alts: seq<string>): (r: seq<string>)
  {
    seq(|alts|, i requires 0 <= i < |alts| => name + " for " + alts[i])
  }

  /** One assignment to both dictionaries, in the order `logit_spec` makes them. */
  datatype Entry = Entry(key: string, spec: seq<SpecItem>, names: seq<string>)

  function EntryKeys(entries: seq<Entry>): seq<string>
  {
    seq(|entries|, i requires 0 <= i < |entries| => entries[i].key)
  }

  /** The entries of the alternative-specific variables. */
  function AltEntries(altVars: seq<string>, alts: seq<string>): seq<Entry>
  {
    seq(|altVars|, i requires 0 <= i < |altVars| => Entry(altVars[i], [Pooled(alts)], [altVars[i]]))
  }

  /** The entries of the case-specific variables. */
  function GenericEntries(generic: seq<string>, alts: seq<string>, ref: int): seq<Entry>
  {
    var others := Excluding(alts, ref);
    seq(|generic|, i requires 0 <= i < |generic| => Entry(generic[i], Singles(others), Suffixed(generic[i], others)))
  }

  /** The alternative-specific constants, when `constant` is set. */
  function ConstantEntries(constant: bool, alts: seq<string>, ref: int): seq<Entry>
  {
    var others := Excluding(alts, ref);
    if constant then [Entry("intercept", Singles(others), Suffixed("ASC", others))] else []
  }

  function Singles(alts: seq<string>): seq<SpecItem>
  {
    seq(|alts|, i requires 0 <= i < |alts| => Single(alts[i]))
  }

  function Entries(altVars: seq<string>, generic: seq<string>, constant: bool, alts: seq<string>, ref: int): seq<Entry>
  {
    AltEntries(altVars, alts) + GenericEntries(generic, alts, ref) + ConstantEntries(constant, alts, ref)
  }

  /** `specifications` after the given assignments. */
  function SpecDict(entries: seq<Entry>): OrderedDict<seq<SpecItem>>
  {
    if entries == [] then []
    else
      var n := |entries| - 1;
      Put(SpecDict(entries[..n]), entries[n].key, entries[n].spec)
  }

  /** `names` after the given assignments. */
  function NameDict(entries: seq<Entry>): OrderedDict<seq<string>>
  {
    if entries == [] then []
    else
      var n := |entries| - 1;
      Put(NameDict(entries[..n]), entries[n].key, entries[n].names)
  }

  lemma DictSnoc(done: seq<Entry>, e: Entry)
    ensures SpecDict(done + [e]) == Put(SpecDict(done), e.key, e.spec)
    ensures NameDict(done + [e]) == Put(NameDict(done), e.key, e.names)
  {
    assert (done + [e])[..|done|] == done;
  }

  lemma AltEntriesStep(altVars: seq<string>, alts: seq<string>, i: nat)
    requires i < |altVars|
    ensures AltEntries(altVars, alts)[..i + 1] == AltEntries(altVars, alts)[..i] + [Entry(altVars[i], [Pooled(alts)], [altVars[i]])]
  {
  }

  lemma GenericEntriesStep(generic: seq<string>, alts: seq<string>, ref: int, i: nat)
    requires i < |generic|
    ensures var others := Excluding(alts, ref);
      GenericEntries(generic, alts, ref)[..i + 1]
      == GenericEntries(generic, alts, ref)[..i] + [Entry(generic[i], Singles(others), Suffixed(generic[i], others))]
  {
  }

  /** `sum([len(specifications[s]) for s in specifications])` */
  function CoefCount(d: OrderedDict<seq<SpecItem>>): nat
  {
    if d == [] then 0 else CoefCount(d[..|d| - 1]) + |d[|d| - 1].1|
  }

  /** The body of `logit_spec` that fills the two dictionaries, and the
      count of coefficients. */
  method LogitSpec(altVars: seq<string>, generic: seq<string>, constant: bool, alts: seq<string>, ref: int)
    returns (specs: OrderedDict<seq<SpecItem>>, names: OrderedDict<seq<string>>, numCoef: nat)
    ensures specs == SpecDict(Entries(altVars, generic, constant, alts, ref))
    ensures names == NameDict(Entries(altVars, generic, constant, alts, ref))
    ensures numCoef == CoefCount(specs)
  {
    specs, names := PutAltVars(altVars, alts);
    ghost var done := AltEntries(altVars, alts);
    specs, names := PutGeneric(specs, names, done, generic, alts, ref);
    done := done + GenericEntries(generic, alts, ref);
    if constant {
      var others := Excluding(alts, ref);
      var e := Entry("intercept", Singles(others), Suffixed("ASC", others));
      specs := Put(specs, "intercept", Singles(others));
      names := Put(names, "intercept", Suffixed("ASC", others));
      DictSnoc(done, e);
      done := done + [e];
    }
    assert done == Entries(altVars, generic, constant, alts, ref);
    numCoef := CoefCount(specs);
  }

  /** The loop over the alternative-specific variables. */
  method PutAltVars(altVars: seq<string>, alts: seq<string>)
    returns (specs: OrderedDict<seq<SpecItem>>, names: OrderedDict<seq<string>>)
    ensures specs == SpecDict(AltEntries(altVars, alts)) && names == NameDict(AltEntries(altVars, alts))
  {
    ghost var done: seq<Entry> := [];
    specs, names := [], [];
    for i := 0 to |altVars|
      invariant done == AltEntries(altVars, alts)[..i]
      invariant specs == SpecDict(done) && names == NameDict(done)
    {
      var e := Entry(altVars[i], [Pooled(alts)], [altVars[i]]);
      specs := Put(specs, altVars[i], [Pooled(alts)]);
      names := Put(names, altVars[i], [altVars[i]]);
      DictSnoc(done, e);
      AltEntriesStep(altVars, alts, i);
      done := done + [e];
    }
    assert AltEntries(altVars, alts)[..|altVars|] == AltEntries(altVars, alts);
  }

  /** The loop over the case-specific variables, continuing the dictionaries
      built from `prior`. */
  method PutGeneric(specs0: OrderedDict<seq<SpecItem>>, names0: OrderedDict<seq<string>>, ghost prior: seq<Entry>,
                    generic: seq<string>, alts: seq<string>, ref: int)
    returns (specs: OrderedDict<seq<SpecItem>>, names: OrderedDict<seq<string>>)
    requires specs0 == SpecDict(prior) && names0 == NameDict(prior)
    ensures specs == SpecDict(prior + GenericEntries(generic, alts, ref))
    ensures names == NameDict(prior + GenericEntries(generic, alts, ref))
  {
    var others := Excluding(alts, ref);
    ghost var done := prior;
    specs, names := specs0, names0;
    for i := 0 to |generic|
      invariant done == prior + GenericEntries(generic, alts, ref)[..i]
      invariant specs == SpecDict(done) && names == NameDict(done)
    {
      var e := Entry(generic[i], Singles(others), Suffixed(generic[i], others));
      specs := Put(specs, generic[i], Singles(others));
      names := Put(names, generic[i], Suffixed(generic[i], others));
      DictSnoc(done, e);
      GenericEntriesStep(generic, alts, ref, i);
      done := done + [e];
    }
    assert GenericEntries(generic, alts, ref)[..|generic|] == GenericEntries(generic, alts, ref);
  }

  /** The two dictionaries list the same keys in the same order, and give
      each key as many names as alternatives. */
  predicate Agree(specs: OrderedDict<seq<SpecItem>>, names: OrderedDict<seq<string>>)
  {
    && |specs| == |names|
    && forall i | 0 <= i < |specs| :: specs[i].0 == names[i].0 && |specs[i].1| == |names[i].1|
  }

  /** Assigning a key in both dictionaries, with equally long lists, keeps
      them in agreement. */
  lemma {:induction false} PutAgree(specs: OrderedDict<seq<SpecItem>>, names: OrderedDict<seq<string>>,
                                    key: string, spec: seq<SpecItem>, ns: seq<string>)
    requires Agree(specs, names) && |spec| == |ns|
    ensures Agree(Put(specs, key, spec), Put(names, key, ns))
  {
    if specs != [] && specs[0].0 != key {
      PutAgree(specs[1..], names[1..], key, spec, ns);
    }
  }

  lemma {:induction false} DictsAgree(entries: seq<Entry>)
    requires forall i | 0 <= i < |entries| :: |entries[i].spec| == |entries[i].names|
    ensures Agree(SpecDict(entries), NameDict(entries))
  {
    if entries != [] {
      var n := |entries| - 1;
      DictsAgree(entries[..n]);
      PutAgree(SpecDict(entries[..n]), NameDict(entries[..n]), entries[n].key, entries[n].spec, entries[n].names);
    }
  }

  /** For whatever `logit_spec` is given, the two dictionaries it builds
      agree key by key on the number of coefficients. */
  lemma SpecAndNamesAgree(altVars: seq<string>, generic: seq<string>, constant: bool, alts: seq<string>, ref: int)
    ensures Agree(SpecDict(Entries(altVars, generic, constant, alts, ref)), NameDict(Entries(altVars, generic, constant, alts, ref)))
  {
    var entries := Entries(altVars, generic, constant, alts, ref);
    forall i | 0 <= i < |entries| ensures |entries[i].spec| == |entries[i].names| {
      if i >= |altVars| + |generic| {
        assert entries[i] == ConstantEntries(constant, alts, ref)[i - |altVars| - |generic|];
      } else if i >= |altVars| {
        assert entries[i] == GenericEntries(generic, alts, ref)[i - |altVars|];
      } else {
        assert entries[i] == AltEntries(altVars, alts)[i];
      }
    }
    DictsAgree(entries);
  }

  /** With distinct variable names every assignment adds a new key, so the
      dictionaries list the entries in order. */
  lemma DistinctKeysAppend(entries: seq<Entry>)
    requires Distinct(EntryKeys(entries))
    ensures Keys(SpecDict(entries)) == EntryKeys(entries) && Keys(NameDict(entries)) == EntryKeys(entries)
    ensures forall k | 0 <= k < |entries| :: SpecDict(entries)[k] == (entries[k].key, entries[k].spec)
    ensures forall k | 0 <= k < |entries| :: NameDict(entries)[k] == (entries[k].key, entries[k].names)
  {
    SpecDictAppends(entries);
    NameDictAppends(entries);
  }

  /** Dropping the last of entries with distinct keys keeps the keys
      distinct, and the last key is none of the others. */
  lemma DistinctInit(entries: seq<Entry>)
    requires Distinct(EntryKeys(entries)) && |entries| > 0
    ensures var n := |entries| - 1;
      && Distinct(EntryKeys(entries[..n]))
      && EntryKeys(entries) == EntryKeys(entries[..n]) + [entries[n].key]
      && entries[n].key !in EntryKeys(entries[..n])
      && forall i | 0 <= i < n :: entries[i].key != entries[n].key
  {
    var n := |entries| - 1;
    var keys := EntryKeys(entries);
    assert EntryKeys(entries[..n]) == keys[..n];
    forall i | 0 <= i < n ensures entries[i].key != entries[n].key {
      assert keys[i] != keys[n];
    }
  }

  lemma {:induction false} SpecDictAppends(entries: seq<Entry>)
    requires Distinct(EntryKeys(entries))
    ensures Keys(SpecDict(entries)) == EntryKeys(entries)
    ensures forall k | 0 <= k < |entries| :: SpecDict(entries)[k] == (entries[k].key, entries[k].spec)
  {
    if entries != [] {
      var n := |entries| - 1;
      var init, e := entries[..n], entries[n];
      DistinctInit(entries);
      SpecDictAppends(init);
      var d := SpecDict(init);
      PutKeys(d, e.key, e.spec);
      PutNew(d, e.key, e.spec);
      assert SpecDict(entries) == d + [(e.key, e.spec)];
      forall k | 0 <= k < n ensures SpecDict(entries)[k] == (entries[k].key, entries[k].spec) {
        assert init[k] == entries[k];
      }
    }
  }

  lemma {:induction false} NameDictAppends(entries: seq<Entry>)
    requires Distinct(EntryKeys(entries))
    ensures Keys(NameDict(entries)) == EntryKeys(entries)
    ensures forall k | 0 <= k < |entries| :: NameDict(entries)[k] == (entries[k].key, entries[k].names)
  {
    if entries != [] {
      var n := |entries| - 1;
      var init, e := entries[..n], entries[n];
      DistinctInit(entries);
      NameDictAppends(init);
      var d := NameDict(init);
      PutKeys(d, e.key, e.names);
      PutNew(d, e.key, e.names);
      assert NameDict(entries) == d + [(e.key, e.names)];
      forall k | 0 <= k < n ensures NameDict(entries)[k] == (entries[k].key, entries[k].names) {
        assert init[k] == entries[k];
      }
    }
  }

  /** The sum of the lengths of the specification lists. */
  function SpecTotal(entries: seq<Entry>): nat
  {
    if entries == [] then 0 else SpecTotal(entries[..|entries| - 1]) + |entries[|entries| - 1].spec|
  }

  lemma CoefCountOfEntries(entries: seq<Entry>)
    requires Distinct(EntryKeys(entries))
    ensures CoefCount(SpecDict(entries)) == SpecTotal(entries)
  {
    DistinctKeysAppend(entries);
    CoefCountPointwise(SpecDict(entries), entries);
  }

  lemma {:induction false} CoefCountPointwise(d: OrderedDict<seq<SpecItem>>, entries: seq<Entry>)
    requires |d| == |entries|
    requires forall k | 0 <= k < |d| :: d[k].1 == entries[k].spec
    ensures CoefCount(d) == SpecTotal(entries)
  {
    if d != [] {
      var n := |d| - 1;
      CoefCountPointwise(d[..n], entries[..n]);
    }
  }

  lemma {:induction false} SpecTotalAppend(a: seq<Entry>, b: seq<Entry>)
    ensures SpecTotal(a + b) == SpecTotal(a) + SpecTotal(b)
    decreases |b|
  {
    if b == [] {
      assert a + b == a;
    } else {
      var n := |b| - 1;
      assert (a + b)[..|a + b| - 1] == a + b[..n];
      SpecTotalAppend(a, b[..n]);
    }
  }

  /** `n` entries of `w` alternatives each ask for `n * w` coefficients. */
  lemma {:induction false} SpecTotalUniform(entries: seq<Entry>, w: nat)
    requires forall i | 0 <= i < |entries| :: |entries[i].spec| == w
    ensures SpecTotal(entries) == |entries| * w
  {
    if entries != [] {
      var n := |entries| - 1;
      SpecTotalUniform(entries[..n], w);
      assert (n + 1) * w == n * w + w;
    }
  }

  /** Every alternative but the reference one, when the reference index is
      in range; otherwise every alternative. */
  lemma ExcludingLength(alts: seq<string>, ref: int)
    ensures |Excluding(alts, ref)| == |alts| - (if 0 <= ref < |alts| then 1 else 0)
  {
  }

  /** `numCoef` in closed form: one coefficient per alternative-specific
      variable, and one per non-reference alternative for every
      case-specific variable and for the constants. */
  lemma NumCoefClosedForm(altVars: seq<string>, generic: seq<string>, constant: bool, alts: seq<string>, ref: int)
    requires Distinct(altVars + generic + (if constant then ["intercept"] else []))
    ensures CoefCount(SpecDict(Entries(altVars, generic, constant, alts, ref)))
         == |altVars| + (|generic| + (if constant then 1 else 0)) * (|alts| - (if 0 <= ref < |alts| then 1 else 0))
  {
    var entries := Entries(altVars, generic, constant, alts, ref);
    EntriesKeys(altVars, generic, constant, alts, ref);
    CoefCountOfEntries(entries);
    ExcludingLength(alts, ref);
    EntriesTotal(altVars, generic, constant, alts, ref);
  }

  lemma EntriesKeys(altVars: seq<string>, generic: seq<string>, constant: bool, alts: seq<string>, ref: int)
    ensures EntryKeys(Entries(altVars, generic, constant, alts, ref)) == altVars + generic + (if constant then ["intercept"] else [])
  {
  }

  lemma EntriesTotal(altVars: seq<string>, generic: seq<string>, constant: bool, alts: seq<string>, ref: int)
    ensures SpecTotal(Entries(altVars, generic, constant, alts, ref))
         == |altVars| + (|generic| + (if constant then 1 else 0)) * |Excluding(alts, ref)|
  {
    var a, g, c := AltEntries(altVars, alts), GenericEntries(generic, alts, ref), ConstantEntries(constant, alts, ref);
    var w := |Excluding(alts, ref)|;
    assert SpecTotal(Entries(altVars, generic, constant, alts, ref)) == SpecTotal(a) + SpecTotal(g) + SpecTotal(c) by {
      SpecTotalAppend(a + g, c);
      SpecTotalAppend(a, g);
    }
    assert SpecTotal(a) == |altVars| by {
      SpecTotalUniform(a, 1);
    }
    assert SpecTotal(g) == |generic| * w by {
      SpecTotalUniform(g, w);
    }
    assert SpecTotal(c) == |c| * w by {
      SpecTotalUniform(c, w);
    }
    Distribute(|generic|, |c|, w);
  }

  lemma Distribute(x: nat, y: nat, w: nat)
    ensures (x + y) * w == x * w + y * w
  {
  }

  /** Each case-specific variable applies to every non-reference
      alternative in index order. This holds for any variable names: every
      later assignment to the same key (the variable listed again, or the
      constants when it is named `intercept`) writes the same alternatives. */
  lemma GenericSpec(altVars: seq<string>, generic: seq<string>, constant: bool, alts: seq<string>, ref: int, i: nat)
    requires i < |generic|
    ensures Lookup(SpecDict(Entries(altVars, generic, constant, alts, ref)), generic[i]) == Some(Singles(Excluding(alts, ref)))
  {
    var entries := Entries(altVars, generic, constant, alts, ref);
    var k := |altVars| + i;
    LaterEntries(altVars, generic, constant, alts, ref);
    assert entries[k].key == generic[i];
    assert forall j | k < j < |entries| :: entries[j].spec == Singles(Excluding(alts, ref));
    LookupSpecLast(entries, k);
  }

  /** Each case-specific variable's coefficients are named `var for alt`
      over the non-reference alternatives, except that a case-specific
      variable named `intercept` has its names overwritten by the constants'
      `ASC for alt`. No distinctness of the names is needed. */
  lemma GenericNames(altVars: seq<string>, generic: seq<string>, constant: bool, alts: seq<string>, ref: int, i: nat)
    requires i < |generic|
    ensures var main := if constant && generic[i] == "intercept" then "ASC" else generic[i];
      Lookup(NameDict(Entries(altVars, generic, constant, alts, ref)), generic[i]) == Some(Suffixed(main, Excluding(alts, ref)))
  {
    var entries := Entries(altVars, generic, constant, alts, ref);
    var others := Excluding(alts, ref);
    var a, g := |altVars|, |generic|;
    var k := a + i;
    LaterEntries(altVars, generic, constant, alts, ref);
    if constant && generic[i] == "intercept" {
      var last := |entries| - 1;
      assert entries[last].key == "intercept" && entries[last].names == Suffixed("ASC", others);
      LookupNameLast(entries, last);
    } else {
      assert entries[k].key == generic[i] && entries[k].names == Suffixed(generic[i], others);
      assert forall j | a + g <= j < |entries| :: entries[j].key != generic[i];
      assert forall j | k < j < |entries| && entries[j].key == generic[i] :: entries[j].names == Suffixed(generic[i], others);
      LookupNameLast(entries, k);
    }
  }

  /** The entries after the alternative-specific ones: one per case-specific
      variable, then at most the constants. */
  lemma LaterEntries(altVars: seq<string>, generic: seq<string>, constant: bool, alts: seq<string>, ref: int)
    ensures var entries := Entries(altVars, generic, constant, alts, ref);
      var others := Excluding(alts, ref);
      var a, g := |altVars|, |generic|;
      && |entries| == a + g + (if constant then 1 else 0)
      && (forall j | a <= j < a + g :: entries[j] == Entry(generic[j - a], Singles(others), Suffixed(generic[j - a], others)))
      && (forall j | a + g <= j < |entries| :: entries[j] == Entry("intercept", Singles(others), Suffixed("ASC", others)))
  {
    var entries := Entries(altVars, generic, constant, alts, ref);
    var a, g := |altVars|, |generic|;
    forall j | a <= j < a + g ensures entries[j] == GenericEntries(generic, alts, ref)[j - a] { }
    forall j | a + g <= j < |entries| ensures entries[j] == ConstantEntries(constant, alts, ref)[j - a - g] { }
  }

  /** The constants apply to, and are named after, every non-reference
      alternative in index order, whatever the variable names: `intercept`
      is the last key assigned. */
  lemma ConstantSpec(altVars: seq<string>, generic: seq<string>, alts: seq<string>, ref: int)
    ensures var entries := Entries(altVars, generic, true, alts, ref);
      && Lookup(SpecDict(entries), "intercept") == Some(Singles(Excluding(alts, ref)))
      && Lookup(NameDict(entries), "intercept") == Some(Suffixed("ASC", Excluding(alts, ref)))
  {
    var entries := Entries(altVars, generic, true, alts, ref);
    var last := |entries| - 1;
    assert entries[last] == ConstantEntries(true, alts, ref)[0];
    LookupSpecLast(entries, last);
    LookupNameLast(entries, last);
  }

  /** A key's lookup gives the specification list of an entry when every
      later entry for the same key assigns the same list. */
  lemma {:induction false} LookupSpecLast(entries: seq<Entry>, i: nat)
    requires i < |entries|
    requires forall j | i < j < |entries| && entries[j].key == entries[i].key :: entries[j].spec == entries[i].spec
    ensures Lookup(SpecDict(entries), entries[i].key) == Some(entries[i].spec)
  {
    var n := |entries| - 1;
    var init, e := entries[..n], entries[n];
    var d := SpecDict(init);
    assert SpecDict(entries) == Put(d, e.key, e.spec);
    PutLookup(d, e.key, e.spec, entries[i].key);
    if i < n && e.key != entries[i].key {
      assert init[i] == entries[i];
      assert forall j | i < j < |init| :: init[j] == entries[j];
      LookupSpecLast(init, i);
    }
  }

  /** The same for the name lists. */
  lemma {:induction false} LookupNameLast(entries: seq<Entry>, i: nat)
    requires i < |entries|
    requires forall j | i < j < |entries| && entries[j].key == entries[i].key :: entries[j].names == entries[i].names
    ensures Lookup(NameDict(entries), entries[i].key) == Some(entries[i].names)
  {
    var n := |entries| - 1;
    var init, e := entries[..n], entries[n];
    var d := NameDict(init);
    assert NameDict(entries) == Put(d, e.key, e.names);
    PutLookup(d, e.key, e.names, entries[i].key);
    if i < n && e.key != entries[i].key {
      assert init[i] == entries[i];
      assert forall j | i < j < |init| :: init[j] == entries[j];
      LookupNameLast(init, i);
    }
  }

  /** An alternative-specific variable has one coefficient for all
      alternatives, named after the variable, unless a case-specific variable
      or the constants' `intercept` later reuse the name. Listing it twice
      among the alternative-specific variables writes the same lists again. */
  lemma AltSpec(altVars: seq<string>, generic: seq<string>, constant: bool, alts: seq<string>, ref: int, i: nat)
    requires i < |altVars|
    requires altVars[i] !in generic && !(constant && altVars[i] == "intercept")
    ensures var entries := Entries(altVars, generic, constant, alts, ref);
      && Lookup(SpecDict(entries), altVars[i]) == Some([Pooled(alts)])
      && Lookup(NameDict(entries), altVars[i]) == Some([altVars[i]])
  {
    var entries := Entries(altVars, generic, constant, alts, ref);
    var a := |altVars|;
    LaterEntries(altVars, generic, constant, alts, ref);
    assert entries[i] == AltEntries(altVars, alts)[i];
    forall j | i < j < |entries| && entries[j].key == entries[i].key
      ensures entries[j].spec == entries[i].spec && entries[j].names == entries[i].names
    {
      if j < a {
        assert entries[j] == AltEntries(altVars, alts)[j];
      } else if j < a + |generic| {
        assert false;
      } else {
        assert false;
      }
    }
    LookupSpecLast(entries, i);
    LookupNameLast(entries, i);
  }

  lemma LookupDistinct(entries: seq<Entry>, i: nat)
    requires Distinct(EntryKeys(entries)) && i < |entries|
    ensures Lookup(SpecDict(entries), entries[i].key) == Some(entries[i].spec)
    ensures Lookup(NameDict(entries), entries[i].key) == Some(entries[i].names)
  {
    LookupSpecDict(entries, i);
    LookupNameDict(entries, i);
  }

  lemma {:induction false} LookupSpecDict(entries: seq<Entry>, i: nat)
    requires Distinct(EntryKeys(entries)) && i < |entries|
    ensures Lookup(SpecDict(entries), entries[i].key) == Some(entries[i].spec)
  {
    var n := |entries| - 1;
    var init, e := entries[..n], entries[n];
    DistinctInit(entries);
    var d := SpecDict(init);
    assert SpecDict(entries) == Put(d, e.key, e.spec);
    PutLookup(d, e.key, e.spec, entries[i].key);
    if i < n {
      assert init[i] == entries[i];
      LookupSpecDict(init, i);
    }
  }

  lemma {:induction false} LookupNameDict(entries: seq<Entry>, i: nat)
    requires Distinct(EntryKeys(entries)) && i < |entries|
    ensures Lookup(NameDict(entries), entries[i].key) == Some(entries[i].names)
  {
    var n := |entries| - 1;
    var init, e := entries[..n], entries[n];
    DistinctInit(entries);
    var d := NameDict(init);
    assert NameDict(entries) == Put(d, e.key, e.names);
    PutLookup(d, e.key, e.names, entries[i].key);
    if i < n {
      assert init[i] == entries[i];
      LookupNameDict(init, i);
    }
  }
}
