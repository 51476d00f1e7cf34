/** The two table shapes the toolbox works with. A wide mode table holds one
    record per surveyed trip; a long-form table holds one row per
    (case, alternative) pair with the columns `group`, `alt`, `choice` and
    one numeric column per attribute. Grouping, `isin` filtering, stacking
    and the largest case id are the pandas operations on them that the
    toolbox uses; numpy's `reshape` cuts a column into rows. */
module Table {
  import opened Common

  /** One record of the wide table: its index label, the chosen mode and
      its numeric fields. */
  datatype Record = Record(id: int, mode: string, fields: map<string, real>)

  /** One row of the long-form table. */
  datatype Row = Row(group: int, alt: string, choice: int, attrs: map<string, real>)

  predicate Increasing(s: seq<int>)
  {
    forall i, j | 0 <= i < j < |s| :: s[i] < s[j]
  }

  predicate HasGroup(rows: seq<Row>, g: int)
  {
    exists i | 0 <= i < |rows| :: rows[i].group == g
  }

  function Insert(x: int, s: seq<int>): (r: seq<int>)
    requires Increasing(s)
    ensures Increasing(r)
    ensures forall y :: y in r <==> y == x || y in s
  {
    if s == [] then [x]
    else if x < s[0] then [x] + s
    else if x == s[0] then s
    else
      var rest := Insert(x, s[1..]);
      assert forall y | y in rest :: s[0] < y by {
        forall y | y in s[1..] ensures s[0] < y {
          var j :| 0 <= j < |s[1..]| && s[1..][j] == y;
          assert s[j + 1] == y;
        }
      }
      var r := [s[0]] + rest;
      forall j | 1 <= j < |r| ensures s[0] < r[j] {
        assert r[j] == rest[j - 1] && rest[j - 1] in rest;
      }
      r
  }

  /** The case ids of a long-form table, each once and in ascending order:
      the keys `groupby('group')` visits, and `set(df['group'])`. */
  function GroupIds(rows: seq<Row>): (ids: seq<int>)
    ensures Increasing(ids)
    ensures forall g :: g in ids <==> HasGroup(rows, g)
  {
    if rows == [] then []
    else
      var init := rows[..|rows| - 1];
      var ids := Insert(rows[|rows| - 1].group, GroupIds(init));
      assert forall g :: HasGroup(rows, g) <==> HasGroup(init, g) || rows[|rows| - 1].group == g by {
        forall g | HasGroup(init, g) ensures HasGroup(rows, g) {
          var i :| 0 <= i < |init| && init[i].group == g;
          assert rows[i].group == g;
        }
      }
      ids
  }

  /** `df.loc[df['group'].isin(ids)]`: the rows of the given cases, in table order. */
  function WithGroupIn(rows: seq<Row>, ids: set<int>): (r: seq<Row>)
    ensures |r| <= |rows|
    ensures forall i | 0 <= i < |r| :: r[i].group in ids && r[i] in rows
  {
    if rows == [] then []
    else
      var init := WithGroupIn(rows[..|rows| - 1], ids);
      var last := rows[|rows| - 1];
      if last.group in ids then init + [last] else init
  }

  lemma {:induction false} WithGroupInAppend(a: seq<Row>, b: seq<Row>, ids: set<int>)
    ensures WithGroupIn(a + b, ids) == WithGroupIn(a, ids) + WithGroupIn(b, ids)
    decreases |b|
  {
    if b == [] {
      assert a + b == a;
    } else {
      var b' := b[..|b| - 1];
      assert (a + b)[..|a + b| - 1] == a + b';
      WithGroupInAppend(a, b', ids);
    }
  }

  /** Exactly the rows of the given cases are kept. */
  lemma {:induction false} WithGroupInMember(rows: seq<Row>, ids: set<int>, x: Row)
    ensures x in WithGroupIn(rows, ids) <==> x in rows && x.group in ids
    decreases |rows|
  {
    if rows != [] {
      var init, last := rows[..|rows| - 1], rows[|rows| - 1];
      WithGroupInMember(init, ids, x);
      assert rows == init + [last];
    }
  }

  /** A case (the rows of one group) is kept whole or dropped whole. */
  lemma WithGroupInCase(rows: seq<Row>, g: int, ids: set<int>)
    requires forall i | 0 <= i < |rows| :: rows[i].group == g
    ensures WithGroupIn(rows, ids) == if g in ids then rows else []
  {
  }

  /** The largest case id of a non-empty table: `np.array(caseIDs).max()`. */
  function MaxGroup(rows: seq<Row>): (m: int)
    requires |rows| > 0
    ensures HasGroup(rows, m)
    ensures forall i | 0 <= i < |rows| :: rows[i].group <= m
  {
    if |rows| == 1 then rows[0].group
    else
      var m := MaxGroup(rows[..|rows| - 1]);
      var last := rows[|rows| - 1].group;
      if m < last then last else (assert rows[..|rows| - 1][0] == rows[0]; m)
  }

  /** `df['choice']` */
  function Choices(rows: seq<Row>): seq<int>
  {
    seq(|rows|, i requires 0 <= i < |rows| => rows[i].choice)
  }

  /** `case['group'] = g`: the same rows under a new case id. */
  function SetGroup(rows: seq<Row>, g: int): seq<Row>
  {
    seq(|rows|, i requires 0 <= i < |rows| => rows[i].(group := g))
  }

  /** Rows of several tables stacked in order: `pd.concat(tables)`. */
  function Concat<T>(tables: seq<seq<T>>): seq<T>
  {
    if tables == [] then [] else Concat(tables[..|tables| - 1]) + tables[|tables| - 1]
  }

  lemma ConcatSnoc<T>(tables: seq<seq<T>>, t: seq<T>)
    ensures Concat(tables + [t]) == Concat(tables) + t
  {
    assert (tables + [t])[..|tables|] == tables;
  }

  lemma {:induction false} ConcatLength<T>(blocks: seq<seq<T>>, m: nat)
    requires forall k | 0 <= k < |blocks| :: |blocks[k]| == m
    ensures |Concat(blocks)| == m * |blocks|
  {
    if blocks != [] {
      var n := |blocks|;
      ConcatLength(blocks[..n - 1], m);
      MulStep(m, n - 1);
    }
  }

  /** Stacking two lists of tables stacks their stacks. */
  lemma {:induction false} ConcatAppend<T>(a: seq<seq<T>>, b: seq<seq<T>>)
    ensures Concat(a + b) == Concat(a) + Concat(b)
    decreases |b|
  {
    if b == [] {
      assert a + b == a;
    } else {
      var init, last := b[..|b| - 1], b[|b| - 1];
      assert b == init + [last];
      assert a + b == (a + init) + [last];
      ConcatAppend(a, init);
      ConcatSnoc(a + init, last);
      ConcatSnoc(init, last);
    }
  }

  /** The same for a whole block: rows `c * m` up to `(c + 1) * m` are block `c`. */
  lemma ConcatSlice<T>(blocks: seq<seq<T>>, m: nat, c: nat)
    requires forall k | 0 <= k < |blocks| :: |blocks[k]| == m
    requires c < |blocks|
    ensures |Concat(blocks)| == m * |blocks|
    ensures c * m + m <= m * |blocks|
    ensures Concat(blocks)[c * m..c * m + m] == blocks[c]
  {
    var before, after := blocks[..c], blocks[c + 1..];
    assert blocks == before + [blocks[c]] + after;
    ConcatAppend(before + [blocks[c]], after);
    ConcatSnoc(before, blocks[c]);
    ConcatLength(blocks, m);
    ConcatLength(before, m);
    SliceMiddle(Concat(before), blocks[c], Concat(after));
  }

  lemma SliceMiddle<T>(a: seq<T>, b: seq<T>, c: seq<T>)
    ensures (a + b + c)[|a|..|a| + |b|] == b
  {
  }

  /** Stacking blocks of equal width `m`: position `c * m + j` of the result
      is position `j` of block `c`. */
  lemma ConcatAt<T>(blocks: seq<seq<T>>, m: nat, c: nat, j: nat)
    requires forall k | 0 <= k < |blocks| :: |blocks[k]| == m
    requires c < |blocks| && j < m
    ensures |Concat(blocks)| == m * |blocks|
    ensures c * m + j < m * |blocks|
    ensures Concat(blocks)[c * m + j] == blocks[c][j]
  {
    ConcatSlice(blocks, m, c);
    var lo := c * m;
    assert Concat(blocks)[lo..lo + m][j] == Concat(blocks)[lo + j];
  }

  /** Every row of a stack comes from one of the stacked tables. */
  lemma {:induction false} ConcatIndex<T>(tables: seq<seq<T>>, p: nat) returns (k: nat, i: nat)
    requires p < |Concat(tables)|
    ensures k < |tables| && i < |tables[k]| && Concat(tables)[p] == tables[k][i]
  {
    var n := |tables|;
    var init := tables[..n - 1];
    if p < |Concat(init)| {
      k, i := ConcatIndex(init, p);
    } else {
      k, i := n - 1, p - |Concat(init)|;
    }
  }

  /** A row is in a stack exactly when it is in one of the stacked tables. */
  lemma {:induction false} ConcatMember<T>(tables: seq<seq<T>>, x: T)
    ensures x in Concat(tables) <==> exists t | 0 <= t < |tables| :: x in tables[t]
    decreases |tables|
  {
    if tables != [] {
      var n := |tables|;
      var init := tables[..n - 1];
      ConcatMember(init, x);
      if exists t | 0 <= t < |init| :: x in init[t] {
        var t :| 0 <= t < |init| && x in init[t];
        assert x in tables[t];
      }
      if exists t | 0 <= t < n :: x in tables[t] {
        var t :| 0 <= t < n && x in tables[t];
        if t < n - 1 {
          assert x in init[t];
        }
      }
    }
  }

  /** Stacking from the front: the first block, then the rest. */
  lemma ConcatCons<T>(tables: seq<seq<T>>)
    requires |tables| > 0
    ensures Concat(tables) == tables[0] + Concat(tables[1..])
  {
    var first, rest := tables[0], tables[1..];
    assert tables == [first] + rest;
    ConcatAppend([first], rest);
    assert Concat([first]) == first by {
      assert [first][..0] == [];
    }
  }

  lemma MulStep(m: nat, n: nat)
    ensures m * (n + 1) == m * n + m
  {
  }

  lemma MulMono(a: nat, b: nat, n: nat)
    requires a <= b
    ensures a * n <= b * n
  {
    var k: nat := b - a;
    assert b * n == a * n + k * n;
  }

  lemma MulDiv(m: nat, n: nat)
    requires m > 0
    ensures (m * n) % m == 0 && (m * n) / m == n
  {
    var x := m * n;
    var q, r := x / m, x % m;
    assert x == m * q + r && 0 <= r < m;
    if q < n {
      MulMono(q + 1, n, m);
      assert false;
    } else if q > n {
      MulMono(n + 1, q, m);
      assert false;
    }
  }

  lemma ChoicesAppend(a: seq<Row>, b: seq<Row>)
    ensures Choices(a + b) == Choices(a) + Choices(b)
  {
  }

  /** Consecutive rows of `w` entries, front to back; a short tail is dropped. */
  function Chunks<T>(u: seq<T>, w: nat): (rows: seq<seq<T>>)
    requires w > 0
    ensures forall c | 0 <= c < |rows| :: |rows[c]| == w
    decreases |u|
  {
    if |u| < w then [] else [u[..w]] + Chunks(u[w..], w)
  }

  lemma ChunksCons<T>(x: seq<T>, rest: seq<T>, w: nat)
    requires |x| == w > 0
    ensures Chunks(x + rest, w) == [x] + Chunks(rest, w)
  {
    assert (x + rest)[..w] == x && (x + rest)[w..] == rest;
  }

  /** numpy's `reshape(-1, w)`: rows of `w` entries, which fails unless
      `w > 0` divides the length. */
  function Reshape<T>(u: seq<T>, w: nat): (r: Option<seq<seq<T>>>)
    ensures r.Some? <==> w > 0 && |u| % w == 0
    ensures r.Some? ==> forall c | 0 <= c < |r.value| :: |r.value[c]| == w
  {
    if w == 0 || |u| % w != 0 then None else Some(Chunks(u, w))
  }

  /** numpy's `reshape(r, -1)`: `r` rows of equal width, which fails unless
      `r > 0` divides the length. */
  function ReshapeRows<T>(u: seq<T>, r: nat): Option<seq<seq<T>>>
  {
    if r == 0 || |u| % r != 0 then None
    else if |u| == 0 then Some(Repeat([], r))
    else Some(Chunks(u, |u| / r))
  }

  lemma DivExact(a: nat, w: nat)
    requires w > 0 && a % w == 0
    ensures a == w * (a / w)
  {
  }

  /** Cutting `k` rows of `w` entries and reading them in order gives the
      column back. */
  lemma {:induction false} ChunksConcat<T>(u: seq<T>, w: nat, k: nat)
    requires w > 0 && |u| == w * k
    ensures |Chunks(u, w)| == k && Concat(Chunks(u, w)) == u
    decreases k
  {
    if k > 0 {
      MulStep(w, k - 1);
      ChunksConcat(u[w..], w, k - 1);
      var rest := Chunks(u[w..], w);
      ConcatCons([u[..w]] + rest);
      assert ([u[..w]] + rest)[1..] == rest;
      assert u[..w] + u[w..] == u;
    }
  }

  /** Rows of `w` entries, stacked and cut again, are the same rows. */
  lemma {:induction false} ChunksOfConcat<T>(p: seq<seq<T>>, w: nat)
    requires w > 0
    requires forall c | 0 <= c < |p| :: |p[c]| == w
    ensures Chunks(Concat(p), w) == p
    decreases |p|
  {
    if p != [] {
      ConcatCons(p);
      ConcatLength(p[1..], w);
      ChunksOfConcat(p[1..], w);
      var u := Concat(p);
      assert u[..w] == p[0] && u[w..] == Concat(p[1..]);
      assert p == [p[0]] + p[1..];
    } else {
      assert Concat(p) == [];
    }
  }

  /** `reshape(-1, w)` loses nothing, in both directions: the rows, read in
      order, are the column, and a matrix of width `w` read as a column and
      reshaped is the same matrix. */
  lemma ReshapeRoundTrip<T>(u: seq<T>, w: nat, p: seq<seq<T>>)
    requires w > 0 && forall c | 0 <= c < |p| :: |p[c]| == w
    ensures Reshape(u, w).Some? ==> Concat(Reshape(u, w).value) == u && |Reshape(u, w).value| == |u| / w
    ensures Reshape(Concat(p), w) == Some(p)
  {
    if |u| % w == 0 {
      DivExact(|u|, w);
      ChunksConcat(u, w, |u| / w);
    }
    ConcatLength(p, w);
    MulDiv(w, |p|);
    ChunksOfConcat(p, w);
  }

  /** `reshape(r, -1)` makes `r` rows of `len / r` entries which, read in
      order, are the column. */
  lemma ReshapeRowsRoundTrip<T>(u: seq<T>, r: nat)
    ensures ReshapeRows(u, r).Some? <==> r > 0 && |u| % r == 0
    ensures ReshapeRows(u, r).Some? ==>
      var rows := ReshapeRows(u, r).value;
      && |rows| == r
      && (forall c | 0 <= c < r :: |rows[c]| == |u| / r)
      && Concat(rows) == u
  {
    if r > 0 && |u| % r == 0 {
      if |u| == 0 {
        ConcatLength(ReshapeRows(u, r).value, 0);
      } else {
        var w := |u| / r;
        DivExact(|u|, r);
        assert w > 0;
        ChunksConcat(u, w, r);
      }
    }
  }

  /** A column of `r * w` entries, `w > 0`, gives the same matrix under
      `reshape(r, -1)` and `reshape(-1, w)`. */
  lemma ReshapeAgree<T>(u: seq<T>, r: nat, w: nat)
    requires r > 0 && w > 0 && |u| == r * w
    ensures ReshapeRows(u, r) == Reshape(u, w)
    ensures Reshape(u, w).Some? && |Reshape(u, w).value| == r
  {
    MulDiv(r, w);
    MulDiv(w, r);
    ChunksConcat(u, w, r);
  }
}
