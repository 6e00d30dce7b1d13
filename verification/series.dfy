/**
 * The pandas `Series` operations the statistics rely on, over a column given as a sequence:
 * `mode()[0]`, `groupby(...).size()` with `idxmax()`, `value_counts()`, `min()`, `max()`,
 * `sum()` and the dropping of missing cells.
 */
module Series {
  import opened Outcomes
  import opened Orders

  /** How often `v` occurs in the column. */
  function Count<T(==)>(xs: seq<T>, v: T): nat {
    multiset(xs)[v]
  }

  /**
   * `v` is what `xs.mode()[0]` reports: a value of the column that no other value outnumbers,
   * and the least (in `le`) of the values that occur equally often.
   */
  ghost predicate IsModeOf<T>(xs: seq<T>, le: (T, T) -> bool, v: T) {
    && v in xs
    && (forall y :: y in xs ==> Count(xs, y) <= Count(xs, v))
    && (forall y :: y in xs && Count(xs, y) == Count(xs, v) ==> le(v, y))
  }

  /** `a` comes before `b` in the list `xs.mode()` draws from: more frequent, or as frequent and not larger. */
  predicate Precedes<T(==)>(xs: seq<T>, le: (T, T) -> bool, a: T, b: T) {
    Count(xs, a) > Count(xs, b) || (Count(xs, a) == Count(xs, b) && le(a, b))
  }

  /** The first value of `cands` in the order of `Precedes`. */
  function Best<T(==)>(xs: seq<T>, le: (T, T) -> bool, cands: seq<T>): (r: T)
    requires |cands| > 0
    ensures r in cands
    ensures forall y :: y in cands ==> Count(xs, y) <= Count(xs, r)
    decreases |cands|
  {
    if |cands| == 1 then cands[0]
    else
      var b := Best(xs, le, cands[1..]);
      if Precedes(xs, le, cands[0], b) then cands[0] else b
  }

  /**
   * `xs.mode()[0]`: `mode()` lists the most frequent values in ascending order and `[0]` takes
   * the first; on a column without values the list is empty and the lookup fails (None).
   */
  function Mode<T(==)>(xs: seq<T>, le: (T, T) -> bool): (r: Option<T>)
    ensures r.Some? <==> |xs| > 0
    ensures r.Some? ==> r.value in xs && forall y :: y in xs ==> Count(xs, y) <= Count(xs, r.value)
  {
    if |xs| == 0 then None else Some(Best(xs, le, xs))
  }

  lemma {:induction false} BestIsLeastOfTies<T(!new)>(xs: seq<T>, le: (T, T) -> bool, cands: seq<T>)
    requires IsTotalOrder(le)
    requires |cands| > 0
    ensures forall y :: y in cands && Count(xs, y) == Count(xs, Best(xs, le, cands)) ==> le(Best(xs, le, cands), y)
    decreases |cands|
  {
    if |cands| > 1 {
      var rest := cands[1..];
      BestIsLeastOfTies(xs, le, rest);
      var b := Best(xs, le, rest);
      forall y | y in cands && Count(xs, y) == Count(xs, Best(xs, le, cands))
        ensures le(Best(xs, le, cands), y)
      {
        if y != cands[0] {
          assert y in rest;
        }
      }
    }
  }

  /** `mode()[0]` is the least of the most frequent values. */
  lemma ModeIsLeastMostFrequent<T(!new)>(xs: seq<T>, le: (T, T) -> bool)
    requires IsTotalOrder(le)
    requires |xs| > 0
    ensures Mode(xs, le).Some? && IsModeOf(xs, le, Mode(xs, le).value)
  {
    BestIsLeastOfTies(xs, le, xs);
  }

  /** The mode is determined by the column: two values that both pass `IsModeOf` are the same. */
  lemma ModeIsUnique<T(!new)>(xs: seq<T>, le: (T, T) -> bool, v: T, w: T)
    requires IsTotalOrder(le)
    requires IsModeOf(xs, le, v) && IsModeOf(xs, le, w)
    ensures v == w
  {
    assert Count(xs, v) == Count(xs, w);
    assert le(v, w) && le(w, v);
  }

  // ----- groupby(...).size() and idxmax() -----

  /** One group of `groupby(...).size()`: a distinct value and the number of rows holding it. */
  datatype Group<T> = Group(key: T, size: nat)

  function Keys<T>(gs: seq<Group<T>>): (ks: seq<T>)
    ensures |ks| == |gs|
  {
    if gs == [] then [] else [gs[0].key] + Keys(gs[1..])
  }

  /** The sum of the sizes of the groups. */
  function Total<T>(gs: seq<Group<T>>): nat {
    if gs == [] then 0 else gs[0].size + Total(gs[1..])
  }

  /** The size recorded for `k`, or 0 when no group has that key. */
  function SizeOf<T(==)>(gs: seq<Group<T>>, k: T): nat {
    if gs == [] then 0 else if gs[0].key == k then gs[0].size else SizeOf(gs[1..], k)
  }

  /** The keys ascend strictly: the groups are sorted by key and no key repeats. */
  ghost predicate StrictlyAscending<T>(gs: seq<Group<T>>, le: (T, T) -> bool) {
    forall i, j :: 0 <= i < j < |gs| ==> le(gs[i].key, gs[j].key) && gs[i].key != gs[j].key
  }

  /** `gs` is `xs.groupby(xs).size()`: ascending distinct keys, each with its number of rows. */
  ghost predicate GroupsOf<T(!new)>(gs: seq<Group<T>>, xs: seq<T>, le: (T, T) -> bool) {
    && StrictlyAscending(gs, le)
    && (forall g :: g in gs ==> g.size > 0)
    && (forall k :: SizeOf(gs, k) == Count(xs, k))
  }

  /** Adds one row holding `x` to sorted groups. */
  function Tally<T(==)>(gs: seq<Group<T>>, x: T, le: (T, T) -> bool): seq<Group<T>>
    decreases |gs|
  {
    if gs == [] then [Group(x, 1)]
    else if gs[0].key == x then [Group(x, gs[0].size + 1)] + gs[1..]
    else if le(x, gs[0].key) then [Group(x, 1)] + gs
    else [gs[0]] + Tally(gs[1..], x, le)
  }

  /** `groupby(...).size()`: the groups of the column, in ascending key order. */
  function GroupSizes<T(==)>(xs: seq<T>, le: (T, T) -> bool): seq<Group<T>>
    decreases |xs|
  {
    if xs == [] then [] else Tally(GroupSizes(xs[..|xs| - 1], le), xs[|xs| - 1], le)
  }

  /** The position `idxmax()` reports: the first position holding the largest size. */
  function ArgMax<T>(gs: seq<Group<T>>): (i: nat)
    requires |gs| > 0
    ensures i < |gs|
    ensures forall j :: 0 <= j < |gs| ==> gs[j].size <= gs[i].size
    ensures forall j :: 0 <= j < i ==> gs[j].size < gs[i].size
  {
    if |gs| == 1 then 0
    else
      var i := ArgMax(gs[..|gs| - 1]);
      if gs[|gs| - 1].size > gs[i].size then |gs| - 1 else i
  }

  /** `groupby(...).size().idxmax()`: the key of the first largest group; fails on no groups. */
  function IdxMax<T>(gs: seq<Group<T>>): (r: Result<T>)
    ensures r.Ok? <==> |gs| > 0
    ensures r.Ok? ==> exists i :: 0 <= i < |gs| && gs[i].key == r.value && forall j :: 0 <= j < |gs| ==> gs[j].size <= gs[i].size
  {
    if gs == [] then Err(EmptyIdxMax) else Ok(gs[ArgMax(gs)].key)
  }

  lemma {:induction false} SizeOfAbsent<T>(gs: seq<Group<T>>, k: T)
    requires forall g :: g in gs ==> g.key != k
    ensures SizeOf(gs, k) == 0
  {
    if gs != [] {
      SizeOfAbsent(gs[1..], k);
    }
  }

  lemma {:induction false} SizeOfAt<T>(gs: seq<Group<T>>, le: (T, T) -> bool, i: nat)
    requires StrictlyAscending(gs, le)
    requires i < |gs|
    ensures SizeOf(gs, gs[i].key) == gs[i].size
  {
    if i > 0 {
      SizeOfAt(gs[1..], le, i - 1);
    }
  }

  lemma {:induction false} SizeOfPositive<T>(gs: seq<Group<T>>, k: T) returns (i: nat)
    requires SizeOf(gs, k) > 0
    ensures i < |gs| && gs[i].key == k
  {
    if gs[0].key == k {
      i := 0;
    } else {
      var j := SizeOfPositive(gs[1..], k);
      i := j + 1;
    }
  }

  lemma {:induction false} TallyElements<T>(gs: seq<Group<T>>, x: T, le: (T, T) -> bool)
    ensures forall g :: g in Tally(gs, x, le) ==> g in gs || (g.key == x && g.size > 0)
    ensures Total(Tally(gs, x, le)) == Total(gs) + 1
    decreases |gs|
  {
    var t := Tally(gs, x, le);
    if gs != [] && gs[0].key != x && !le(x, gs[0].key) {
      TallyElements(gs[1..], x, le);
      assert t == [gs[0]] + Tally(gs[1..], x, le);
    } else if gs != [] && gs[0].key == x {
      assert gs == [gs[0]] + gs[1..];
    }
  }

  lemma {:induction false} TallyCounts<T(!new)>(gs: seq<Group<T>>, x: T, le: (T, T) -> bool)
    requires IsTotalOrder(le)
    requires StrictlyAscending(gs, le)
    ensures forall k :: SizeOf(Tally(gs, x, le), k) == SizeOf(gs, k) + (if k == x then 1 else 0)
    decreases |gs|
  {
    if gs == [] {
    } else if gs[0].key == x {
    } else if le(x, gs[0].key) {
      forall g | g in gs ensures g.key != x {
        var j :| 0 <= j < |gs| && gs[j] == g;
        if j > 0 {
          assert le(gs[0].key, gs[j].key);
        }
      }
      SizeOfAbsent(gs, x);
    } else {
      TallyCounts(gs[1..], x, le);
    }
  }

  lemma {:induction false} TallyAscends<T(!new)>(gs: seq<Group<T>>, x: T, le: (T, T) -> bool)
    requires IsTotalOrder(le)
    requires StrictlyAscending(gs, le)
    ensures StrictlyAscending(Tally(gs, x, le), le)
    decreases |gs|
  {
    var t := Tally(gs, x, le);
    if gs == [] {
    } else if gs[0].key == x {
      forall i, j | 0 <= i < j < |t| ensures le(t[i].key, t[j].key) && t[i].key != t[j].key {
        assert t[i].key == gs[i].key && t[j].key == gs[j].key;
      }
    } else if le(x, gs[0].key) {
      forall i, j | 0 <= i < j < |t| ensures le(t[i].key, t[j].key) && t[i].key != t[j].key {
        if i == 0 {
          assert t[j] == gs[j - 1];
          if j > 1 {
            assert le(gs[0].key, gs[j - 1].key);
          }
        } else {
          assert t[i] == gs[i - 1] && t[j] == gs[j - 1];
        }
      }
    } else {
      var rest := Tally(gs[1..], x, le);
      TallyAscends(gs[1..], x, le);
      TallyElements(gs[1..], x, le);
      assert t == [gs[0]] + rest;
      assert le(gs[0].key, x);
      forall i, j | 0 <= i < j < |t| ensures le(t[i].key, t[j].key) && t[i].key != t[j].key {
        if i == 0 {
          assert t[j] == rest[j - 1] && rest[j - 1] in rest;
          if t[j] in gs[1..] {
            var m :| 0 <= m < |gs[1..]| && gs[1..][m] == t[j];
            assert gs[m + 1] == t[j];
          }
        } else {
          assert t[i] == rest[i - 1] && t[j] == rest[j - 1];
        }
      }
    }
  }

  /** `groupby(...).size()` groups the column: ascending distinct keys with their row counts, summing to the length. */
  lemma {:induction false} GroupSizesGroups<T(!new)>(xs: seq<T>, le: (T, T) -> bool)
    requires IsTotalOrder(le)
    ensures GroupsOf(GroupSizes(xs, le), xs, le)
    ensures Total(GroupSizes(xs, le)) == |xs|
    decreases |xs|
  {
    if xs != [] {
      var init := xs[..|xs| - 1];
      var x := xs[|xs| - 1];
      GroupSizesGroups(init, le);
      TallyElements(GroupSizes(init, le), x, le);
      TallyCounts(GroupSizes(init, le), x, le);
      TallyAscends(GroupSizes(init, le), x, le);
      assert xs == init + [x];
      assert multiset(xs) == multiset(init) + multiset{x};
    }
  }

  /** Every group is a value of the column with its exact count, and every value of the column has a group. */
  lemma GroupsCoverColumn<T(!new)>(gs: seq<Group<T>>, xs: seq<T>, le: (T, T) -> bool)
    requires GroupsOf(gs, xs, le)
    ensures forall g :: g in gs ==> g.key in xs && g.size == Count(xs, g.key)
    ensures forall v :: v in xs ==> v in Keys(gs)
  {
    forall g | g in gs ensures g.key in xs && g.size == Count(xs, g.key) {
      var i :| 0 <= i < |gs| && gs[i] == g;
      SizeOfAt(gs, le, i);
    }
    forall v | v in xs ensures v in Keys(gs) {
      assert Count(xs, v) > 0;
      var i := SizeOfPositive(gs, v);
      KeysAt(gs, i);
    }
  }

  lemma {:induction false} KeysAt<T>(gs: seq<Group<T>>, i: nat)
    requires i < |gs|
    ensures Keys(gs)[i] == gs[i].key
  {
    if i > 0 {
      KeysAt(gs[1..], i - 1);
    }
  }

  /**
   * The start/end combination the station statistics report, `groupby(...).size().idxmax()`,
   * is the mode of the column in the sense of `mode()[0]`: a most frequent value, the least of
   * those tied; so it equals `Mode`.
   */
  lemma IdxMaxOfGroupsIsMode<T(!new)>(xs: seq<T>, le: (T, T) -> bool)
    requires IsTotalOrder(le)
    requires |xs| > 0
    ensures IdxMax(GroupSizes(xs, le)).Ok?
    ensures IsModeOf(xs, le, IdxMax(GroupSizes(xs, le)).value)
    ensures IdxMax(GroupSizes(xs, le)).value == Mode(xs, le).value
  {
    var gs := GroupSizes(xs, le);
    GroupSizesGroups(xs, le);
    GroupsCoverColumn(gs, xs, le);
    assert xs[0] in xs;
    var i := ArgMax(gs);
    var v := gs[i].key;
    SizeOfAt(gs, le, i);
    assert v in xs;
    forall y | y in xs ensures Count(xs, y) <= Count(xs, v) && (Count(xs, y) == Count(xs, v) ==> le(v, y)) {
      var j := SizeOfPositive(gs, y);
      SizeOfAt(gs, le, j);
      if j == i {
        assert le(v, v) || le(v, v);
      }
    }
    assert IsModeOf(xs, le, v);
    ModeIsLeastMostFrequent(xs, le);
    ModeIsUnique(xs, le, v, Mode(xs, le).value);
  }

  // ----- value_counts() -----

  /** Places `g` before the first group that is strictly smaller, keeping the order of equal sizes. */
  function InsertBySize<T>(g: Group<T>, gs: seq<Group<T>>): seq<Group<T>> {
    if gs == [] || g.size >= gs[0].size then [g] + gs
    else [gs[0]] + InsertBySize(g, gs[1..])
  }

  /** Sorts groups by size, largest first (a stable insertion sort). */
  function SortBySize<T>(gs: seq<Group<T>>): seq<Group<T>> {
    if gs == [] then [] else InsertBySize(gs[0], SortBySize(gs[1..]))
  }

  /** Sizes never increase along the sequence. */
  ghost predicate SizesNonIncreasing<T>(gs: seq<Group<T>>) {
    forall i, j :: 0 <= i < j < |gs| ==> gs[i].size >= gs[j].size
  }

  lemma {:induction false} InsertBySizePermutes<T>(g: Group<T>, gs: seq<Group<T>>)
    ensures multiset(InsertBySize(g, gs)) == multiset{g} + multiset(gs)
    decreases |gs|
  {
    if gs != [] && g.size < gs[0].size {
      InsertBySizePermutes(g, gs[1..]);
      assert gs == [gs[0]] + gs[1..];
    }
  }

  lemma {:induction false} InsertBySizeKeys<T>(g: Group<T>, gs: seq<Group<T>>)
    ensures multiset(Keys(InsertBySize(g, gs))) == multiset{g.key} + multiset(Keys(gs))
    decreases |gs|
  {
    var r := InsertBySize(g, gs);
    if gs == [] || g.size >= gs[0].size {
      assert r[1..] == gs;
    } else {
      InsertBySizeKeys(g, gs[1..]);
      assert r[1..] == InsertBySize(g, gs[1..]);
    }
  }

  lemma {:induction false} InsertBySizeTotal<T>(g: Group<T>, gs: seq<Group<T>>)
    ensures Total(InsertBySize(g, gs)) == g.size + Total(gs)
    decreases |gs|
  {
    var r := InsertBySize(g, gs);
    if gs == [] || g.size >= gs[0].size {
      assert r[1..] == gs;
    } else {
      InsertBySizeTotal(g, gs[1..]);
      assert r[1..] == InsertBySize(g, gs[1..]);
    }
  }

  lemma {:induction false} InsertBySizeSorts<T>(g: Group<T>, gs: seq<Group<T>>)
    requires SizesNonIncreasing(gs)
    ensures SizesNonIncreasing(InsertBySize(g, gs))
    decreases |gs|
  {
    var r := InsertBySize(g, gs);
    if gs == [] || g.size >= gs[0].size {
      forall i, j | 0 <= i < j < |r| ensures r[i].size >= r[j].size {
        if i == 0 {
          assert r[j] == gs[j - 1];
        } else {
          assert r[i] == gs[i - 1] && r[j] == gs[j - 1];
        }
      }
    } else {
      var rest := InsertBySize(g, gs[1..]);
      InsertBySizeSorts(g, gs[1..]);
      InsertBySizePermutes(g, gs[1..]);
      assert r == [gs[0]] + rest;
      forall i, j | 0 <= i < j < |r| ensures r[i].size >= r[j].size {
        if i == 0 {
          assert r[j] == rest[j - 1] && rest[j - 1] in multiset(rest);
          if r[j] != g {
            assert r[j] in multiset(gs[1..]);
            var m :| 0 <= m < |gs[1..]| && gs[1..][m] == r[j];
            assert gs[m + 1] == r[j];
          }
        } else {
          assert r[i] == rest[i - 1] && r[j] == rest[j - 1];
        }
      }
    }
  }

  lemma {:induction false} SortBySizeSorts<T>(gs: seq<Group<T>>)
    ensures SizesNonIncreasing(SortBySize(gs))
  {
    if gs != [] {
      SortBySizeSorts(gs[1..]);
      InsertBySizeSorts(gs[0], SortBySize(gs[1..]));
    }
  }

  lemma {:induction false} SortBySizePermutes<T>(gs: seq<Group<T>>)
    ensures multiset(SortBySize(gs)) == multiset(gs)
  {
    if gs != [] {
      SortBySizePermutes(gs[1..]);
      InsertBySizePermutes(gs[0], SortBySize(gs[1..]));
      assert gs == [gs[0]] + gs[1..];
    }
  }

  lemma {:induction false} SortBySizeKeys<T>(gs: seq<Group<T>>)
    ensures multiset(Keys(SortBySize(gs))) == multiset(Keys(gs))
    ensures Total(SortBySize(gs)) == Total(gs)
  {
    if gs != [] {
      SortBySizeKeys(gs[1..]);
      InsertBySizeKeys(gs[0], SortBySize(gs[1..]));
      InsertBySizeTotal(gs[0], SortBySize(gs[1..]));
    }
  }

  /** Sorted groups with distinct keys hold each value of the column once as a key. */
  lemma {:induction false} KeysOnce<T>(gs: seq<Group<T>>, le: (T, T) -> bool, v: T)
    requires StrictlyAscending(gs, le)
    requires forall g :: g in gs ==> g.size > 0
    ensures multiset(Keys(gs))[v] == if SizeOf(gs, v) > 0 then 1 else 0
  {
    if gs != [] {
      KeysOnce(gs[1..], le, v);
      if gs[0].key == v {
        forall g | g in gs[1..] ensures g.key != v {
          var m :| 0 <= m < |gs[1..]| && gs[1..][m] == g;
          assert gs[m + 1] == g;
        }
        SizeOfAbsent(gs[1..], v);
      }
    }
  }

  /**
   * `value_counts()`: one entry per distinct value of the column, largest count first. pandas
   * does not fix the order of equal counts; this model keeps ascending key order among them.
   */
  function ValueCounts<T(==)>(xs: seq<T>, le: (T, T) -> bool): seq<Group<T>> {
    SortBySize(GroupSizes(xs, le))
  }

  /**
   * `value_counts()` lists each distinct value of the column exactly once, with its count, in
   * non-increasing count order, and the counts add up to the length of the column.
   */
  lemma ValueCountsCounts<T(!new)>(xs: seq<T>, le: (T, T) -> bool)
    requires IsTotalOrder(le)
    ensures forall v :: multiset(Keys(ValueCounts(xs, le)))[v] == if v in xs then 1 else 0
    ensures forall g :: g in ValueCounts(xs, le) ==> g.size == Count(xs, g.key)
    ensures SizesNonIncreasing(ValueCounts(xs, le))
    ensures Total(ValueCounts(xs, le)) == |xs|
  {
    var gs := GroupSizes(xs, le);
    GroupSizesGroups(xs, le);
    GroupsCoverColumn(gs, xs, le);
    SortBySizeSorts(gs);
    SortBySizePermutes(gs);
    SortBySizeKeys(gs);
    forall v ensures multiset(Keys(ValueCounts(xs, le)))[v] == if v in xs then 1 else 0 {
      KeysOnce(gs, le, v);
    }
    forall g | g in ValueCounts(xs, le) ensures g.size == Count(xs, g.key) {
      assert g in multiset(gs);
    }
  }

  // ----- min(), max(), sum(), dropna() -----

  /** `min()` of a column with at least one value. */
  function Min(xs: seq<int>): (r: int)
    requires |xs| > 0
    ensures r in xs && forall y :: y in xs ==> r <= y
  {
    if |xs| == 1 then xs[0]
    else
      var m := Min(xs[1..]);
      assert xs == [xs[0]] + xs[1..];
      if xs[0] <= m then xs[0] else m
  }

  /** `max()` of a column with at least one value. */
  function Max(xs: seq<int>): (r: int)
    requires |xs| > 0
    ensures r in xs && forall y :: y in xs ==> y <= r
  {
    if |xs| == 1 then xs[0]
    else
      var m := Max(xs[1..]);
      assert xs == [xs[0]] + xs[1..];
      if xs[0] >= m then xs[0] else m
  }

  /** `sum()`: 0 on an empty column. */
  function Sum(xs: seq<nat>): nat {
    if xs == [] then 0 else xs[0] + Sum(xs[1..])
  }

  /** `dropna()`: the values of the cells that are not missing, in order. */
  function Present<T(!new)>(col: seq<Option<T>>): (r: seq<T>)
    ensures forall v :: Count(r, v) == Count(col, Some(v))
    ensures |r| + Count(col, None) == |col|
  {
    if col == [] then []
    else
      assert col == [col[0]] + col[1..];
      match col[0]
      case None => Present(col[1..])
      case Some(v) => [v] + Present(col[1..])
  }
}
