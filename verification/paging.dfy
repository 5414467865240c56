/**
 Fixed-size pagination of the list: ten records a page, the page count
 rounded up, and a page taken with JavaScript's `Array.prototype.slice`.
 */
module Paging {

  const PageSize: nat := 10

  /** `Math.ceil(n / 10)`. */
  function TotalPages(n: nat): (t: nat)
    ensures t * PageSize >= n
    ensures t > 0 ==> (t - 1) * PageSize < n
  {
    (n + PageSize - 1) / PageSize
  }

  /** How `slice` reads an index: negative counts back from the end, and both ends clamp to [0, n]. */
  function ClampIndex(i: int, n: nat): (k: nat)
    ensures k <= n
    ensures 0 <= i <= n ==> k == i
    ensures i > n ==> k == n
    ensures i < 0 && n + i >= 0 ==> k == n + i
    ensures n + i < 0 ==> k == 0
  {
    if i < 0 then (if n + i < 0 then 0 else n + i)
    else if i > n then n
    else i
  }

  /** `s.slice(start, end)`. */
  function Slice<T>(s: seq<T>, start: int, end: int): seq<T>
  {
    var a, b := ClampIndex(start, |s|), ClampIndex(end, |s|);
    if a < b then s[a..b] else []
  }

  function Min(a: int, b: int): int { if a <= b then a else b }

  /** `runs.slice((page - 1) * 10, (page - 1) * 10 + 10)`. */
  function PageSlice<T>(runs: seq<T>, page: int): (r: seq<T>)
    ensures page >= 1 ==>
      var n := |runs|;
      r == runs[Min((page - 1) * PageSize, n)..Min(page * PageSize, n)]
    ensures |r| <= PageSize
  {
    Slice(runs, (page - 1) * PageSize, (page - 1) * PageSize + PageSize)
  }

  /** Pages 1..TotalPages each hold one to ten records, taken in order. */
  lemma PageInRange<T>(runs: seq<T>, page: int)
    requires 1 <= page <= TotalPages(|runs|)
    ensures 1 <= |PageSlice(runs, page)| <= PageSize
    ensures PageSlice(runs, page) == runs[(page - 1) * PageSize..Min(page * PageSize, |runs|)]
  {
  }

  /** A page past the last one is empty. */
  lemma PageBeyondEnd<T>(runs: seq<T>, page: int)
    requires page > TotalPages(|runs|)
    ensures PageSlice(runs, page) == []
  {
  }

  /** The pages in order: page i + 1 at index i. */
  function Pages<T>(runs: seq<T>): (pages: seq<seq<T>>)
    ensures |pages| == TotalPages(|runs|)
    ensures forall i :: 0 <= i < |pages| ==> pages[i] == PageSlice(runs, i + 1)
  {
    seq(TotalPages(|runs|), i => PageSlice(runs, i + 1))
  }

  function Flatten<T>(pages: seq<seq<T>>): seq<T>
  {
    if |pages| == 0 then [] else pages[0] + Flatten(pages[1..])
  }

  /** Dropping the first page shifts every later page down by one. */
  lemma PageShift<T>(runs: seq<T>, page: int)
    requires |runs| > PageSize && page >= 1
    ensures PageSlice(runs, page + 1) == PageSlice(runs[PageSize..], page)
  {
    var n := |runs|;
    var rest := runs[PageSize..];
    var a, b := Min(page * PageSize, n), Min((page + 1) * PageSize, n);
    assert Min((page - 1) * PageSize, n - PageSize) == a - PageSize;
    assert Min(page * PageSize, n - PageSize) == b - PageSize;
    assert PageSlice(runs, page + 1) == runs[a..b];
    assert PageSlice(rest, page) == rest[a - PageSize..b - PageSize];
    assert rest[a - PageSize..b - PageSize] == runs[a..b];
  }

  /** Past the first page, the pages are those of the list with its first ten records removed. */
  lemma PagesAfterFirst<T>(runs: seq<T>)
    requires |runs| > PageSize
    ensures Pages(runs)[0] == runs[..PageSize]
    ensures Pages(runs)[1..] == Pages(runs[PageSize..])
  {
    var pages, rest := Pages(runs), Pages(runs[PageSize..]);
    assert |pages[1..]| == |rest|;
    forall i | 0 <= i < |rest|
      ensures pages[1..][i] == rest[i]
    {
      PageShift(runs, i + 1);
    }
  }

  /** Reading the pages one after another gives back the whole list exactly. */
  lemma {:induction false} PagesCover<T>(runs: seq<T>)
    ensures Flatten(Pages(runs)) == runs
    decreases |runs|
  {
    var pages := Pages(runs);
    if |runs| == 0 {
    } else if |runs| <= PageSize {
      assert TotalPages(|runs|) == 1;
      assert pages[0] == runs[0..|runs|];
      assert runs[0..|runs|] == runs;
      assert pages == [runs];
      assert Flatten(pages[1..]) == [];
    } else {
      var rest := runs[PageSize..];
      PagesCover(rest);
      PagesAfterFirst(runs);
      assert runs == runs[..PageSize] + rest;
    }
  }
}
