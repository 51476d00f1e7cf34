/** Small building blocks shared by the logit toolbox model: failure-carrying
    wrappers, list lookups in Python's sense, numpy's argmax, truncation of a
    float to an int, and the two string operations the toolbox relies on
    (`str.endswith` and `str.split`). */
module Common {

  datatype Option<T> = None | Some(value: T)

  datatype Result<T, E> = Ok(value: T) | Err(error: E)

  /** `[x for i in range(n)]` */
  function Repeat<T>(x: T, n: nat): (r: seq<T>)
    ensures |r| == n
    ensures forall i | 0 <= i < n :: r[i] == x
  {
    if n == 0 then [] else [x] + Repeat(x, n - 1)
  }

  /** `tmp = [0] * n; tmp[k] = 1`: the indicator of position `k`. */
  function OneHot(k: int, n: nat): (r: seq<int>)
  {
    seq(n, j requires 0 <= j < n => if j == k then 1 else 0)
  }

  /** An integer column read as floats. */
  function Reals(s: seq<int>): seq<real>
  {
    seq(|s|, j requires 0 <= j < |s| => s[j] as real)
  }

  lemma RealsAppend(a: seq<int>, b: seq<int>)
    ensures Reals(a + b) == Reals(a) + Reals(b)
  {
  }

  /** Python's `list.index`: the position of the first occurrence. */
  function IndexOf<T(==)>(s: seq<T>, x: T): (i: nat)
    requires x in s
    ensures i < |s| && s[i] == x
    ensures forall j | 0 <= j < i :: s[j] != x
  {
    if s[0] == x then 0 else 1 + IndexOf(s[1..], x)
  }

  /** The position of the last occurrence: the index a dict keyed by the
      elements of `s` keeps when later entries overwrite earlier ones. */
  function LastIndexOf<T(==)>(s: seq<T>, x: T): (i: nat)
    requires x in s
    ensures i < |s| && s[i] == x
    ensures forall j | i < j < |s| :: s[j] != x
  {
    if s[|s| - 1] == x then |s| - 1 else LastIndexOf(s[..|s| - 1], x)
  }

  /** numpy's `argmax` on one row: the first position holding a maximal entry. */
  function ArgMax(s: seq<real>): (k: nat)
    requires |s| > 0
    ensures k < |s|
    ensures forall j | 0 <= j < |s| :: s[j] <= s[k]
    ensures forall j | 0 <= j < k :: s[j] < s[k]
  {
    if |s| == 1 then 0
    else
      var k := ArgMax(s[..|s| - 1]);
      if s[k] < s[|s| - 1] then |s| - 1 else k
  }

  /** The first maximal position is unaffected by any transformation of the
      entries that keeps their strict order, such as a softmax over them. */
  lemma {:induction false} ArgMaxOrderInvariant(s: seq<real>, t: seq<real>)
    requires |s| == |t| > 0
    requires forall i, j | 0 <= i < |s| && 0 <= j < |s| :: s[i] < s[j] <==> t[i] < t[j]
    ensures ArgMax(s) == ArgMax(t)
  {
  }

  /** `k` is the first position of a maximal entry of `s`. */
  predicate FirstMax(s: seq<real>, k: nat)
  {
    && k < |s|
    && (forall j | 0 <= j < |s| :: s[j] <= s[k])
    && (forall j | 0 <= j < k :: s[j] < s[k])
  }

  /** numpy's `argmax(axis=1)`: for each row the first position of its
      highest entry. */
  function ArgMaxRows(p: seq<seq<real>>): (y: seq<nat>)
    requires forall c | 0 <= c < |p| :: |p[c]| > 0
    ensures |y| == |p|
    ensures forall c | 0 <= c < |p| :: FirstMax(p[c], y[c])
  {
    if p == [] then [] else [ArgMax(p[0])] + ArgMaxRows(p[1..])
  }

  lemma ArgMaxRowsCons(x: seq<real>, rest: seq<seq<real>>)
    requires |x| > 0 && forall c | 0 <= c < |rest| :: |rest[c]| > 0
    ensures ArgMaxRows([x] + rest) == [ArgMax(x)] + ArgMaxRows(rest)
  {
    assert ([x] + rest)[1..] == rest;
  }

  /** Row-wise argmax is unaffected by a transformation of each row that
      keeps the strict order of its entries. */
  lemma {:induction false} ArgMaxRowsOrderInvariant(p: seq<seq<real>>, v: seq<seq<real>>)
    requires |p| == |v|
    requires forall c | 0 <= c < |p| :: |p[c]| == |v[c]| > 0
    requires forall c, i, j | 0 <= c < |p| && 0 <= i < |p[c]| && 0 <= j < |p[c]| :: p[c][i] < p[c][j] <==> v[c][i] < v[c][j]
    ensures ArgMaxRows(p) == ArgMaxRows(v)
    decreases |p|
  {
    if p != [] {
      ArgMaxOrderInvariant(p[0], v[0]);
      assert forall c | 0 <= c < |p| - 1 :: p[1..][c] == p[c + 1] && v[1..][c] == v[c + 1];
      ArgMaxRowsOrderInvariant(p[1..], v[1..]);
    }
  }

  /** No element occurs twice. */
  predicate Distinct<T(==)>(s: seq<T>)
  {
    forall i, j | 0 <= i < j < |s| :: s[i] != s[j]
  }

  /** Python's `int(x)` on a float: truncation toward zero. */
  function Trunc(x: real): (r: int)
    ensures 0.0 <= x ==> r as real <= x < r as real + 1.0
    ensures x < 0.0 ==> r as real - 1.0 < x <= r as real
  {
    if 0.0 <= x then x.Floor else -((-x).Floor)
  }

  /** `s.endswith(suffix)` */
  predicate EndsWith(s: string, suffix: string)
  {
    |suffix| <= |s| && s[|s| - |suffix|..] == suffix
  }

  /** `s.endswith(tuple(suffixes))` */
  predicate EndsWithAny(s: string, suffixes: seq<string>)
  {
    exists i | 0 <= i < |suffixes| :: EndsWith(s, suffixes[i])
  }

  predicate OccursAt(s: string, sep: string, i: int)
  {
    0 <= i && i + |sep| <= |s| && s[i..i + |sep|] == sep
  }

  /** `s.find(sep)`: the leftmost position where `sep` occurs. */
  function Find(s: string, sep: string): (r: Option<nat>)
    requires |sep| > 0
    ensures r.Some? ==> OccursAt(s, sep, r.value)
    ensures r.Some? ==> forall j | 0 <= j < r.value :: !OccursAt(s, sep, j)
    ensures r.None? ==> forall j | 0 <= j <= |s| :: !OccursAt(s, sep, j)
  {
    if |s| < |sep| then None
    else if s[..|sep|] == sep then Some(0)
    else
      match Find(s[1..], sep)
      case None =>
        forall j | 1 <= j <= |s| ensures !OccursAt(s, sep, j) {
          OccursShift(s, sep, j);
        }
        None
      case Some(i) =>
        forall j | 1 <= j <= i + 1 ensures OccursAt(s, sep, j) <==> OccursAt(s[1..], sep, j - 1) {
          OccursShift(s, sep, j);
        }
        Some(i + 1)
  }

  /** An occurrence past the first character is one in the tail. */
  lemma OccursShift(s: string, sep: string, j: int)
    requires 1 <= j && |s| > 0
    ensures OccursAt(s, sep, j) <==> OccursAt(s[1..], sep, j - 1)
  {
    if j + |sep| <= |s| {
      assert s[j..j + |sep|] == s[1..][j - 1..j - 1 + |sep|];
    }
  }

  /** `s.split(sep)`: the pieces between the non-overlapping occurrences of
      `sep`, found from the left. */
  function Split(s: string, sep: string): (parts: seq<string>)
    requires |sep| > 0
    ensures |parts| >= 1
    decreases |s|
  {
    match Find(s, sep)
    case None => [s]
    case Some(i) => [s[..i]] + Split(s[i + |sep|..], sep)
  }
}
