/**
 The list's column sort: the direction toggle on a header click, the
 per-key comparator (numeric id, calendar date, false-before-true flags,
 lower-cased string order, inverted when descending) and a stable sort,
 proved to be a sorted permutation that keeps equal keys in their prior
 order — which pins its result down uniquely, as it does for
 `Array.prototype.sort`.
 */
module Sorting {
  import opened Text
  import opened Calendar
  import opened Records

  datatype SortKey = ShowIdKey | MovieTitleKey | TheaterKey | ShowDateKey | ShowTimeKey | SubtitlesKey | ImaxKey | NotesKey

  datatype Direction = Asc | Desc

  /** No key until the first header click. */
  datatype SortConfig = SortConfig(key: Option<SortKey>, direction: Direction)

  const InitialSort := SortConfig(None, Asc)

  /** A header click on column `k`. */
  function Toggle(cfg: SortConfig, k: SortKey): (r: SortConfig)
    ensures r.key == Some(k)
  {
    if cfg.key == Some(k) && cfg.direction == Asc then SortConfig(Some(k), Desc)
    else SortConfig(Some(k), Asc)
  }

  /** The first click on a column sorts it ascending; every further click on it flips the direction. */
  lemma ToggleAlternates(cfg: SortConfig, k: SortKey)
    ensures cfg.key != Some(k) ==> Toggle(cfg, k).direction == Asc
    ensures Toggle(Toggle(cfg, k), k).direction != Toggle(cfg, k).direction
    ensures Toggle(Toggle(Toggle(cfg, k), k), k) == Toggle(cfg, k)
  {
  }

  // ---------------------------------------------------------------------
  // Comparator

  /** What a column compares by. */
  datatype KeyValue = Num(n: int) | Day(day: int) | Flag(b: bool) | Str(s: string)

  /** Sorting by show date needs the date to parse; every other column always compares. */
  predicate Comparable(k: SortKey, x: Show)
  {
    k == ShowDateKey ==> ParseShowDate(x.showDate).Some?
  }

  predicate AllComparable(k: SortKey, s: seq<Show>)
  {
    forall i :: 0 <= i < |s| ==> Comparable(k, s[i])
  }

  function ValueOf(k: SortKey, x: Show): KeyValue
    requires Comparable(k, x)
  {
    match k
    case ShowIdKey => Num(x.showId)
    case ShowDateKey => Day(DayNumber(ParseShowDate(x.showDate).value))
    case SubtitlesKey => Flag(x.subtitles)
    case ImaxKey => Flag(x.imax)
    case MovieTitleKey => Str(ToLower(x.movieTitle))
    case TheaterKey => Str(ToLower(x.theater))
    case ShowTimeKey => Str(ToLower(x.showTime))
    case NotesKey => Str(ToLower(x.notes))
  }

  function Sign(n: int): int
  {
    if n < 0 then -1 else if n > 0 then 1 else 0
  }

  /** Ascending comparison of two values of one column: its sign is what the sort reads. */
  function CompareValues(a: KeyValue, b: KeyValue): int
  {
    match (a, b)
    case (Num(x), Num(y)) => Sign(x - y)
    case (Day(x), Day(y)) => Sign(x - y)
    case (Flag(x), Flag(y)) => if x == y then 0 else if x then 1 else -1
    case (Str(x), Str(y)) => if StrLess(x, y) then -1 else if StrLess(y, x) then 1 else 0
    case _ => 0
  }

  /** The comparator handed to the sort: ascending, or the same comparison with its arguments swapped. */
  function Compare(k: SortKey, d: Direction, a: Show, b: Show): int
    requires Comparable(k, a) && Comparable(k, b)
  {
    if d == Asc then CompareValues(ValueOf(k, a), ValueOf(k, b))
    else CompareValues(ValueOf(k, b), ValueOf(k, a))
  }

  /** Ascending order by column, in the column's own terms. */
  lemma AscendingMeaning(k: SortKey, a: Show, b: Show)
    requires Comparable(k, a) && Comparable(k, b)
    ensures k == ShowIdKey ==> (Compare(k, Asc, a, b) < 0 <==> a.showId < b.showId)
    ensures k == ShowDateKey ==>
      (Compare(k, Asc, a, b) < 0 <==> Before(ParseShowDate(a.showDate).value, ParseShowDate(b.showDate).value))
    ensures k == SubtitlesKey ==> (Compare(k, Asc, a, b) < 0 <==> !a.subtitles && b.subtitles)
    ensures k == MovieTitleKey ==> (Compare(k, Asc, a, b) < 0 <==> StrLess(ToLower(a.movieTitle), ToLower(b.movieTitle)))
  {
    if k == ShowDateKey {
      DayNumberOrder(ParseShowDate(a.showDate).value, ParseShowDate(b.showDate).value);
    }
  }

  /** Descending is ascending reversed. */
  lemma DescendingReverses(k: SortKey, a: Show, b: Show)
    requires Comparable(k, a) && Comparable(k, b)
    ensures Compare(k, Desc, a, b) == Compare(k, Asc, b, a)
    ensures Compare(k, Desc, a, b) == -Compare(k, Asc, a, b)
  {
    CompareFlip(k, Asc, a, b);
  }

  lemma SameKind(k: SortKey, a: Show, b: Show)
    requires Comparable(k, a) && Comparable(k, b)
    ensures ValueOf(k, a).Num? == ValueOf(k, b).Num?
    ensures ValueOf(k, a).Day? == ValueOf(k, b).Day?
    ensures ValueOf(k, a).Flag? == ValueOf(k, b).Flag?
    ensures ValueOf(k, a).Str? == ValueOf(k, b).Str?
  {
  }

  lemma CompareFlip(k: SortKey, d: Direction, a: Show, b: Show)
    requires Comparable(k, a) && Comparable(k, b)
    ensures Compare(k, d, a, b) == -Compare(k, d, b, a)
  {
    SameKind(k, a, b);
    var va, vb := ValueOf(k, a), ValueOf(k, b);
    if va.Str? {
      if StrLess(va.s, vb.s) { StrLessAsymmetric(va.s, vb.s); }
    }
  }

  /** Comparing equal is having equal column values. */
  lemma CompareZero(k: SortKey, d: Direction, a: Show, b: Show)
    requires Comparable(k, a) && Comparable(k, b)
    ensures Compare(k, d, a, b) == 0 <==> ValueOf(k, a) == ValueOf(k, b)
  {
    SameKind(k, a, b);
    var va, vb := ValueOf(k, a), ValueOf(k, b);
    if va.Str? {
      StrLessTotal(va.s, vb.s);
      StrLessIrreflexive(va.s);
    }
  }

  lemma CompareValuesTransitive(a: KeyValue, b: KeyValue, c: KeyValue)
    requires a.Num? == b.Num? == c.Num? && a.Day? == b.Day? == c.Day?
    requires a.Flag? == b.Flag? == c.Flag? && a.Str? == b.Str? == c.Str?
    requires CompareValues(a, b) <= 0 && CompareValues(b, c) <= 0
    ensures CompareValues(a, c) <= 0
  {
    if a.Str? {
      StrLessTotal(a.s, b.s);
      StrLessTotal(b.s, c.s);
      StrLessTotal(a.s, c.s);
      if StrLess(c.s, a.s) && StrLess(a.s, b.s) {
        StrLessTransitive(c.s, a.s, b.s);
      }
    }
  }

  lemma CompareTransitive(k: SortKey, d: Direction, a: Show, b: Show, c: Show)
    requires Comparable(k, a) && Comparable(k, b) && Comparable(k, c)
    requires Compare(k, d, a, b) <= 0 && Compare(k, d, b, c) <= 0
    ensures Compare(k, d, a, c) <= 0
  {
    SameKind(k, a, b);
    SameKind(k, b, c);
    if d == Asc {
      CompareValuesTransitive(ValueOf(k, a), ValueOf(k, b), ValueOf(k, c));
    } else {
      CompareValuesTransitive(ValueOf(k, c), ValueOf(k, b), ValueOf(k, a));
    }
  }

  // ---------------------------------------------------------------------
  // Stable sort

  predicate Sorted(k: SortKey, d: Direction, s: seq<Show>)
    requires AllComparable(k, s)
  {
    forall i, j :: 0 <= i < j < |s| ==> Compare(k, d, s[i], s[j]) <= 0
  }

  /** Places `x` before the first element it does not compare after. */
  function Insert(k: SortKey, d: Direction, x: Show, t: seq<Show>): (r: seq<Show>)
    requires Comparable(k, x) && AllComparable(k, t)
    ensures multiset(r) == multiset(t) + multiset{x}
    ensures AllComparable(k, r)
    ensures Sorted(k, d, t) ==> Sorted(k, d, r)
    decreases |t|
  {
    if |t| == 0 then [x]
    else if Compare(k, d, x, t[0]) <= 0 then
      var r := [x] + t;
      InsertFrontSorted(k, d, x, t);
      r
    else
      var rest := Insert(k, d, x, t[1..]);
      assert t == [t[0]] + t[1..];
      var r := [t[0]] + rest;
      CompareFlip(k, d, x, t[0]);
      InsertBehindSorted(k, d, t, x, rest);
      r
  }

  /** Putting an element that compares at most equal to everything in front of a sorted sequence keeps it sorted. */
  lemma ConsSorted(k: SortKey, d: Direction, a: Show, s: seq<Show>)
    requires Comparable(k, a) && AllComparable(k, s) && Sorted(k, d, s)
    requires forall j :: 0 <= j < |s| ==> Compare(k, d, a, s[j]) <= 0
    ensures AllComparable(k, [a] + s) && Sorted(k, d, [a] + s)
  {
    var r := [a] + s;
    ConsComparable(k, a, s);
    forall i, j | 0 <= i < j < |r|
      ensures Compare(k, d, r[i], r[j]) <= 0
    {
      assert r[j] == s[j - 1];
      if i > 0 {
        assert r[i] == s[i - 1];
      }
    }
  }

  lemma ConsComparable(k: SortKey, a: Show, s: seq<Show>)
    requires Comparable(k, a) && AllComparable(k, s)
    ensures AllComparable(k, [a] + s)
  {
    var r := [a] + s;
    assert forall i :: 1 <= i < |r| ==> r[i] == s[i - 1];
  }

  lemma InsertFrontSorted(k: SortKey, d: Direction, x: Show, t: seq<Show>)
    requires Comparable(k, x) && AllComparable(k, t) && |t| > 0
    requires Compare(k, d, x, t[0]) <= 0
    ensures AllComparable(k, [x] + t)
    ensures Sorted(k, d, t) ==> Sorted(k, d, [x] + t)
  {
    ConsComparable(k, x, t);
    if Sorted(k, d, t) {
      forall j | 0 <= j < |t|
        ensures Compare(k, d, x, t[j]) <= 0
      {
        if j > 0 {
          CompareTransitive(k, d, x, t[0], t[j]);
        }
      }
      ConsSorted(k, d, x, t);
    }
  }

  lemma HeadBeforeInserted(k: SortKey, d: Direction, t: seq<Show>, x: Show, rest: seq<Show>, y: Show)
    requires Comparable(k, x) && AllComparable(k, t) && |t| > 0 && Sorted(k, d, t)
    requires Compare(k, d, t[0], x) < 0
    requires multiset(rest) == multiset(t[1..]) + multiset{x}
    requires y in multiset(rest)
    ensures Comparable(k, y) && Compare(k, d, t[0], y) <= 0
  {
    if y != x {
      assert y in multiset(t[1..]);
      var m :| 0 <= m < |t[1..]| && t[1..][m] == y;
      assert t[m + 1] == y;
    }
  }

  lemma InsertBehindSorted(k: SortKey, d: Direction, t: seq<Show>, x: Show, rest: seq<Show>)
    requires Comparable(k, x) && AllComparable(k, t) && |t| > 0 && AllComparable(k, rest)
    requires Compare(k, d, t[0], x) < 0
    requires multiset(rest) == multiset(t[1..]) + multiset{x}
    requires Sorted(k, d, t[1..]) ==> Sorted(k, d, rest)
    ensures multiset([t[0]] + rest) == multiset(t) + multiset{x}
    ensures AllComparable(k, [t[0]] + rest)
    ensures Sorted(k, d, t) ==> Sorted(k, d, [t[0]] + rest)
  {
    assert t == [t[0]] + t[1..];
    ConsComparable(k, t[0], rest);
    if Sorted(k, d, t) {
      SortedTail(k, d, t);
      forall j | 0 <= j < |rest|
        ensures Compare(k, d, t[0], rest[j]) <= 0
      {
        assert rest[j] in multiset(rest);
        HeadBeforeInserted(k, d, t, x, rest, rest[j]);
      }
      ConsSorted(k, d, t[0], rest);
    }
  }

  /** The stable insertion sort: each element goes before the equal ones that followed it. */
  function SortBy(k: SortKey, d: Direction, s: seq<Show>): (r: seq<Show>)
    requires AllComparable(k, s)
    ensures multiset(r) == multiset(s)
    ensures AllComparable(k, r)
    ensures Sorted(k, d, r)
    decreases |s|
  {
    if |s| == 0 then []
    else
      assert s == [s[0]] + s[1..];
      Insert(k, d, s[0], SortBy(k, d, s[1..]))
  }

  /** The records of `s` whose column value is `v`, in order. */
  function WithValue(k: SortKey, s: seq<Show>, v: KeyValue): seq<Show>
    requires AllComparable(k, s)
    decreases |s|
  {
    if |s| == 0 then []
    else (if ValueOf(k, s[0]) == v then [s[0]] else []) + WithValue(k, s[1..], v)
  }

  lemma WithValueCons(k: SortKey, a: Show, s: seq<Show>, v: KeyValue)
    requires Comparable(k, a) && AllComparable(k, s)
    ensures AllComparable(k, [a] + s)
    ensures WithValue(k, [a] + s, v) == (if ValueOf(k, a) == v then [a] else []) + WithValue(k, s, v)
  {
    var r := [a] + s;
    assert r[0] == a && r[1..] == s;
    assert forall i :: 1 <= i < |r| ==> r[i] == s[i - 1];
  }

  /** Where an inserted element lands among the ones with its column value. */
  lemma {:induction false} InsertWithValue(k: SortKey, d: Direction, x: Show, t: seq<Show>, v: KeyValue)
    requires Comparable(k, x) && AllComparable(k, t)
    ensures WithValue(k, Insert(k, d, x, t), v) ==
      (if ValueOf(k, x) == v then [x] else []) + WithValue(k, t, v)
    decreases |t|
  {
    if |t| == 0 {
      WithValueCons(k, x, t, v);
      assert Insert(k, d, x, t) == [x] + t;
    } else if Compare(k, d, x, t[0]) <= 0 {
      WithValueCons(k, x, t, v);
      assert Insert(k, d, x, t) == [x] + t;
    } else {
      InsertAfterHead(k, d, x, t, v);
    }
  }

  lemma {:induction false} InsertAfterHead(k: SortKey, d: Direction, x: Show, t: seq<Show>, v: KeyValue)
    requires Comparable(k, x) && AllComparable(k, t) && |t| > 0
    requires Compare(k, d, x, t[0]) > 0
    ensures WithValue(k, Insert(k, d, x, t), v) ==
      (if ValueOf(k, x) == v then [x] else []) + WithValue(k, t, v)
    decreases |t|, 0
  {
    var t0, tail := t[0], t[1..];
    assert t == [t0] + tail;
    var rest := Insert(k, d, x, tail);
    assert Insert(k, d, x, t) == [t0] + rest;
    InsertWithValue(k, d, x, tail, v);
    CompareZero(k, d, x, t0);
    WithValueCons(k, t0, rest, v);
    WithValueCons(k, t0, tail, v);
    var hx := if ValueOf(k, x) == v then [x] else [];
    var h0 := if ValueOf(k, t0) == v then [t0] else [];
    var w := WithValue(k, tail, v);
    assert hx == [] || h0 == [];
    assert WithValue(k, Insert(k, d, x, t), v) == h0 + (hx + w);
    assert WithValue(k, t, v) == h0 + w;
    SwapDisjoint(h0, hx, w);
  }

  /** At most one of two prefixes is non-empty, so their order does not matter. */
  lemma SwapDisjoint<T>(a: seq<T>, b: seq<T>, w: seq<T>)
    requires a == [] || b == []
    ensures a + (b + w) == b + (a + w)
  {
    if a == [] {
      assert a + (b + w) == b + w;
      assert a + w == w;
    } else {
      assert b + w == w;
      assert b + (a + w) == a + w;
    }
  }

  /** Stability: records with equal column values keep their relative order. */
  lemma {:induction false} SortStable(k: SortKey, d: Direction, s: seq<Show>, v: KeyValue)
    requires AllComparable(k, s)
    ensures WithValue(k, SortBy(k, d, s), v) == WithValue(k, s, v)
    decreases |s|
  {
    if |s| > 0 {
      SortStable(k, d, s[1..], v);
      InsertWithValue(k, d, s[0], SortBy(k, d, s[1..]), v);
    }
  }

  /** What the sort promises: a sorted, stable permutation. */
  ghost predicate StableSortOf(k: SortKey, d: Direction, s: seq<Show>, r: seq<Show>)
    requires AllComparable(k, s) && AllComparable(k, r)
  {
    && multiset(r) == multiset(s)
    && Sorted(k, d, r)
    && forall v :: WithValue(k, r, v) == WithValue(k, s, v)
  }

  lemma CompareSelf(k: SortKey, d: Direction, a: Show)
    requires Comparable(k, a)
    ensures Compare(k, d, a, a) == 0
  {
    CompareZero(k, d, a, a);
  }

  lemma SortedTail(k: SortKey, d: Direction, s: seq<Show>)
    requires |s| > 0 && AllComparable(k, s) && Sorted(k, d, s)
    ensures AllComparable(k, s[1..]) && Sorted(k, d, s[1..])
  {
    assert forall i :: 0 <= i < |s| - 1 ==> s[1..][i] == s[i + 1];
  }

  /** The head of a sorted sequence compares at most equal to every element. */
  lemma HeadIsLeast(k: SortKey, d: Direction, s: seq<Show>, y: Show)
    requires |s| > 0 && AllComparable(k, s) && Sorted(k, d, s)
    requires y in multiset(s)
    ensures Comparable(k, y) && Compare(k, d, s[0], y) <= 0
  {
    var j :| 0 <= j < |s| && s[j] == y;
    if j == 0 { CompareSelf(k, d, y); }
  }

  /** Sorted arrangements of the same records start with records of the same column value. */
  lemma HeadsEquivalent(k: SortKey, d: Direction, r: seq<Show>, q: seq<Show>)
    requires |r| > 0 && |q| > 0
    requires AllComparable(k, r) && AllComparable(k, q)
    requires multiset(r) == multiset(q)
    requires Sorted(k, d, r) && Sorted(k, d, q)
    ensures ValueOf(k, r[0]) == ValueOf(k, q[0])
  {
    assert r[0] in multiset(r);
    assert q[0] in multiset(q);
    HeadIsLeast(k, d, q, r[0]);
    HeadIsLeast(k, d, r, q[0]);
    CompareFlip(k, d, r[0], q[0]);
    CompareZero(k, d, r[0], q[0]);
  }

  lemma HeadsEqual(k: SortKey, d: Direction, r: seq<Show>, q: seq<Show>)
    requires |r| > 0 && |q| > 0
    requires AllComparable(k, r) && AllComparable(k, q)
    requires multiset(r) == multiset(q)
    requires Sorted(k, d, r) && Sorted(k, d, q)
    requires forall v :: WithValue(k, r, v) == WithValue(k, q, v)
    ensures r[0] == q[0]
  {
    HeadsEquivalent(k, d, r, q);
    var v0 := ValueOf(k, r[0]);
    WithValueHead(k, r, v0);
    WithValueHead(k, q, v0);
    assert WithValue(k, r, v0) == WithValue(k, q, v0);
  }

  /** A record is the first with its own column value when it comes first. */
  lemma WithValueHead(k: SortKey, s: seq<Show>, v: KeyValue)
    requires |s| > 0 && AllComparable(k, s) && ValueOf(k, s[0]) == v
    ensures |WithValue(k, s, v)| > 0 && WithValue(k, s, v)[0] == s[0]
  {
    assert AllComparable(k, s[1..]) by {
      assert forall i :: 0 <= i < |s| - 1 ==> s[1..][i] == s[i + 1];
    }
    assert WithValue(k, s, v) == [s[0]] + WithValue(k, s[1..], v);
  }

  lemma TailWithValue(k: SortKey, r: seq<Show>, q: seq<Show>, v: KeyValue)
    requires |r| > 0 && |q| > 0 && r[0] == q[0]
    requires AllComparable(k, r) && AllComparable(k, q)
    requires WithValue(k, r, v) == WithValue(k, q, v)
    ensures AllComparable(k, r[1..]) && AllComparable(k, q[1..])
    ensures WithValue(k, r[1..], v) == WithValue(k, q[1..], v)
  {
    var h := if ValueOf(k, r[0]) == v then [r[0]] else [];
    assert WithValue(k, r, v) == h + WithValue(k, r[1..], v);
    assert WithValue(k, q, v) == h + WithValue(k, q[1..], v);
    assert (h + WithValue(k, r[1..], v))[|h|..] == WithValue(k, r[1..], v);
    assert (h + WithValue(k, q[1..], v))[|h|..] == WithValue(k, q[1..], v);
  }

  lemma TailMultiset(r: seq<Show>, q: seq<Show>)
    requires |r| > 0 && |q| > 0 && r[0] == q[0]
    requires multiset(r) == multiset(q)
    ensures multiset(r[1..]) == multiset(q[1..])
  {
    assert r == [r[0]] + r[1..];
    assert q == [q[0]] + q[1..];
    assert multiset(r) == multiset{r[0]} + multiset(r[1..]);
    assert multiset(q) == multiset{q[0]} + multiset(q[1..]);
    assert multiset(r[1..]) == multiset(r) - multiset{r[0]};
    assert multiset(q[1..]) == multiset(q) - multiset{q[0]};
  }

  lemma TailsAgree(k: SortKey, r: seq<Show>, q: seq<Show>)
    requires |r| > 0 && |q| > 0 && r[0] == q[0]
    requires AllComparable(k, r) && AllComparable(k, q)
    requires multiset(r) == multiset(q)
    requires forall v :: WithValue(k, r, v) == WithValue(k, q, v)
    ensures AllComparable(k, r[1..]) && AllComparable(k, q[1..])
    ensures multiset(r[1..]) == multiset(q[1..])
    ensures forall v :: WithValue(k, r[1..], v) == WithValue(k, q[1..], v)
  {
    TailMultiset(r, q);
    TailWithValue(k, r, q, KeyValue.Flag(false));
    forall v
      ensures WithValue(k, r[1..], v) == WithValue(k, q[1..], v)
    {
      TailWithValue(k, r, q, v);
    }
  }

  /** Two sorted, stable arrangements of the same records are the same sequence. */
  lemma {:induction false} StableSortUnique(k: SortKey, d: Direction, r: seq<Show>, q: seq<Show>)
    requires AllComparable(k, r) && AllComparable(k, q)
    requires multiset(r) == multiset(q)
    requires Sorted(k, d, r) && Sorted(k, d, q)
    requires forall v :: WithValue(k, r, v) == WithValue(k, q, v)
    ensures r == q
    decreases |r|
  {
    if |r| == 0 {
      assert |multiset(q)| == 0;
    } else {
      assert |q| == |multiset(q)| == |multiset(r)| == |r|;
      HeadsEqual(k, d, r, q);
      TailsAgree(k, r, q);
      SortedTail(k, d, r);
      SortedTail(k, d, q);
      StableSortUnique(k, d, r[1..], q[1..]);
      assert r == [r[0]] + r[1..] && q == [q[0]] + q[1..];
    }
  }

  /** The sort meets its promise, and it is the only result that does. */
  lemma SortIsTheStableSort(k: SortKey, d: Direction, s: seq<Show>, r: seq<Show>)
    requires AllComparable(k, s) && AllComparable(k, r)
    ensures StableSortOf(k, d, s, SortBy(k, d, s))
    ensures StableSortOf(k, d, s, r) <==> r == SortBy(k, d, s)
  {
    forall v
      ensures WithValue(k, SortBy(k, d, s), v) == WithValue(k, s, v)
    {
      SortStable(k, d, s, v);
    }
    if StableSortOf(k, d, s, r) {
      StableSortUnique(k, d, r, SortBy(k, d, s));
    }
  }
}
