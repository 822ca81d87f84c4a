/**
 * The arithmetic behind the patient table's pagination in dash.js: the page
 * count Math.ceil(len / n), the window filteredData.slice(p*n, p*n + n), the
 * "Showing start to end of total" figures and the state of the page
 * controls, for a page size n > 0 and a page index p >= 0.
 */
module Paging {

  function Min(a: int, b: int): int {
    if a <= b then a else b
  }

  /** Math.ceil(len / n) for n > 0. */
  function TotalPages(len: nat, n: nat): nat
    requires n > 0
  {
    (len + n - 1) / n
  }

  /** Where JavaScript's slice(p*n, p*n + n) starts once clamped to the length. */
  function PageLo(len: nat, n: nat, p: nat): nat {
    Min(p * n, len)
  }

  /** Where JavaScript's slice(p*n, p*n + n) ends once clamped to the length. */
  function PageHi(len: nat, n: nat, p: nat): (hi: nat)
    ensures PageLo(len, n, p) <= hi <= len
  {
    Min(p * n + n, len)
  }

  /** filteredData.slice(p*n, p*n + n): at most n rows, the i-th of them row p*n + i of the list. */
  function Page<T>(s: seq<T>, n: nat, p: nat): (page: seq<T>)
    ensures |page| <= n
    ensures forall i :: 0 <= i < |page| ==> p * n + i < |s| && page[i] == s[p * n + i]
  {
    s[PageLo(|s|, n, p)..PageHi(|s|, n, p)]
  }

  /** The pages 0 .. k-1, concatenated in order. */
  function Pages<T>(s: seq<T>, n: nat, k: nat): seq<T> {
    if k == 0 then [] else Pages(s, n, k - 1) + Page(s, n, k - 1)
  }

  /** The figure in #showingStart: 0 for an empty list, else p*n + 1. */
  function ShowingStart(len: nat, n: nat, p: nat): int {
    if len > 0 then p * n + 1 else 0
  }

  /** The figure in #showingEnd: Math.min((p + 1) * n, len). */
  function ShowingEnd(len: nat, n: nat, p: nat): int {
    Min((p + 1) * n, len)
  }

  /** prevBtn.disabled. */
  predicate PrevDisabled(p: nat) {
    p == 0
  }

  /** nextBtn.disabled. */
  predicate NextDisabled(len: nat, n: nat, p: nat)
    requires n > 0
  {
    p >= TotalPages(len, n) - 1
  }

  /** The `active` marks of `count` page-number buttons when page p is current. */
  function ActiveMarks(count: nat, p: nat): (marks: seq<bool>)
    ensures |marks| == count
    ensures forall i :: 0 <= i < count && marks[i] ==> i == p
    ensures p < count ==> marks[p]
  {
    seq(count, i => i == p)
  }

  /** The number of marks that are set. */
  function CountSet(marks: seq<bool>): nat {
    if marks == [] then 0 else CountSet(marks[..|marks| - 1]) + (if marks[|marks| - 1] then 1 else 0)
  }

  /** Exactly one button is active when page p has a button, and none otherwise. */
  lemma {:induction false} ActiveMarksCount(count: nat, p: nat)
    ensures CountSet(ActiveMarks(count, p)) == if p < count then 1 else 0
  {
    if count > 0 {
      var m := ActiveMarks(count, p);
      assert m[..count - 1] == ActiveMarks(count - 1, p);
      ActiveMarksCount(count - 1, p);
    }
  }

  /** The page index prevPage leaves. */
  function PrevIndex(p: nat): nat {
    if p > 0 then p - 1 else p
  }

  /** The page index nextPage leaves. */
  function NextIndex(len: nat, n: nat, p: nat): nat
    requires n > 0
  {
    if p < TotalPages(len, n) - 1 then p + 1 else p
  }

  /** Page p exists: 0 <= p < TotalPages. */
  predicate InRange(len: nat, n: nat, p: nat)
    requires n > 0
  {
    p < TotalPages(len, n)
  }

  /** Math.ceil: the fewest pages of n rows that hold len rows. */
  lemma TotalPagesCeil(len: nat, n: nat)
    requires n > 0
    ensures TotalPages(len, n) * n >= len
    ensures TotalPages(len, n) > 0 ==> (TotalPages(len, n) - 1) * n < len
  {
    var q, r := (len + n - 1) / n, (len + n - 1) % n;
    assert len + n - 1 == q * n + r;
    if q > 0 {
      assert (q - 1) * n == q * n - n;
    }
  }

  /** A list has no pages exactly when it is empty. */
  lemma NoPagesIffEmpty(len: nat, n: nat)
    requires n > 0
    ensures TotalPages(len, n) == 0 <==> len == 0
  {
    TotalPagesCeil(len, n);
  }

  /** A page never holds more than n rows, and every page but the last is full. */
  lemma PageSize<T>(s: seq<T>, n: nat, p: nat)
    requires n > 0
    ensures |Page(s, n, p)| <= n
    ensures p + 1 < TotalPages(|s|, n) ==> |Page(s, n, p)| == n
    ensures InRange(|s|, n, p) ==> |Page(s, n, p)| > 0
  {
    var len, t := |s|, TotalPages(|s|, n);
    assert |Page(s, n, p)| == PageHi(len, n, p) - PageLo(len, n, p);
    TotalPagesCeil(len, n);
    if p + 1 < t {
      MulMonotone(p + 1, t - 1, n);
      assert p * n + n == (p + 1) * n;
    }
    if p < t {
      MulMonotone(p, t - 1, n);
    }
  }

  lemma MulMonotone(a: nat, b: nat, n: nat)
    requires a <= b
    ensures a * n <= b * n
  {
    assert b * n == a * n + (b - a) * n;
  }

  /** The pages before k, concatenated, are the prefix of the list up to page k. */
  lemma {:induction false} PagesPrefix<T>(s: seq<T>, n: nat, k: nat)
    ensures Pages(s, n, k) == s[..PageLo(|s|, n, k)]
  {
    if k > 0 {
      PagesPrefix(s, n, k - 1);
      assert (k - 1) * n + n == k * n;
      var a, b := PageLo(|s|, n, k - 1), PageHi(|s|, n, k - 1);
      assert b == PageLo(|s|, n, k);
      assert s[..a] + s[a..b] == s[..b];
    }
  }

  /** Concatenating the pages 0 .. TotalPages-1 in order gives back the whole list. */
  lemma PagesCover<T>(s: seq<T>, n: nat)
    requires n > 0
    ensures Pages(s, n, TotalPages(|s|, n)) == s
  {
    PagesPrefix(s, n, TotalPages(|s|, n));
    TotalPagesCeil(|s|, n);
  }

  /** The page lengths add up to the length of the list. */
  lemma {:induction false} PageLengthsSum<T>(s: seq<T>, n: nat, k: nat)
    ensures |Pages(s, n, k)| == SumPageLengths(s, n, k)
  {
    if k > 0 {
      PageLengthsSum(s, n, k - 1);
    }
  }

  function SumPageLengths<T>(s: seq<T>, n: nat, k: nat): nat {
    if k == 0 then 0 else SumPageLengths(s, n, k - 1) + |Page(s, n, k - 1)|
  }

  /** The sum of all page lengths is the number of rows. */
  lemma PageLengthsTotal<T>(s: seq<T>, n: nat)
    requires n > 0
    ensures SumPageLengths(s, n, TotalPages(|s|, n)) == |s|
  {
    PageLengthsSum(s, n, TotalPages(|s|, n));
    PagesCover(s, n);
  }

  /** Distinct pages cover disjoint index ranges of the list, page i before page j. */
  lemma PagesDisjoint(len: nat, n: nat, i: nat, j: nat)
    requires i < j
    ensures PageHi(len, n, i) <= PageLo(len, n, j)
  {
    assert i * n + n == (i + 1) * n;
    assert (i + 1) * n <= j * n;
  }

  /** Index k of the list lies on page k / n, at offset k % n. */
  lemma PageOfIndex<T>(s: seq<T>, n: nat, k: nat)
    requires n > 0 && k < |s|
    ensures InRange(|s|, n, k / n)
    ensures PageLo(|s|, n, k / n) + k % n == k
    ensures Page(s, n, k / n)[k % n] == s[k]
  {
    var p, r := k / n, k % n;
    assert k == p * n + r;
    TotalPagesCeil(|s|, n);
  }

  /**
   * The "Showing start to end of total" figures describe the current page
   * exactly: on an existing page, rows start..end (counted from 1) are the
   * ones shown; an empty list reads 0 to 0.
   */
  lemma ShowingMatchesPage<T>(s: seq<T>, n: nat, p: nat)
    requires n > 0
    ensures |s| == 0 ==> ShowingStart(|s|, n, p) == 0 && ShowingEnd(|s|, n, p) == 0
    ensures InRange(|s|, n, p) ==>
      ShowingStart(|s|, n, p) == PageLo(|s|, n, p) + 1 &&
      ShowingEnd(|s|, n, p) == PageHi(|s|, n, p) &&
      ShowingEnd(|s|, n, p) - ShowingStart(|s|, n, p) + 1 == |Page(s, n, p)|
  {
    assert (p + 1) * n == p * n + n;
    if InRange(|s|, n, p) {
      TotalPagesCeil(|s|, n);
      assert p * n <= (TotalPages(|s|, n) - 1) * n;
    }
  }

  /** On an empty list the next button is disabled, whatever the current page. */
  lemma EmptyListDisablesNext(n: nat, p: nat)
    requires n > 0
    ensures NextDisabled(0, n, p)
  {
  }

  /** prevPage and nextPage keep an existing page existing, and never move by more than one. */
  lemma StepsStayInRange(len: nat, n: nat, p: nat)
    requires n > 0 && InRange(len, n, p)
    ensures InRange(len, n, PrevIndex(p)) && InRange(len, n, NextIndex(len, n, p))
    ensures PrevIndex(p) == p - 1 || (p == 0 && PrevIndex(p) == 0)
    ensures NextIndex(len, n, p) == p + 1 || (NextDisabled(len, n, p) && NextIndex(len, n, p) == p)
  {
  }

  /** nextPage moves exactly when the next button is enabled, prevPage exactly when the previous one is. */
  lemma StepsFollowButtons(len: nat, n: nat, p: nat)
    requires n > 0
    ensures NextIndex(len, n, p) != p <==> !NextDisabled(len, n, p)
    ensures PrevIndex(p) != p <==> !PrevDisabled(p)
  {
  }

  /**
   * A page index left over from a longer list: with 10 rows in pages of 10
   * and page index 1 still current, the page is empty, no page button is
   * active and the info reads "Showing 11 to 10 of 10".
   */
  lemma StalePageExample<T>(s: seq<T>)
    requires |s| == 10
    ensures TotalPages(|s|, 10) == 1 && !InRange(|s|, 10, 1)
    ensures Page(s, 10, 1) == []
    ensures forall i :: 0 <= i < TotalPages(|s|, 10) ==> !ActiveMarks(TotalPages(|s|, 10), 1)[i]
    ensures ShowingStart(|s|, 10, 1) == 11 && ShowingEnd(|s|, 10, 1) == 10
  {
  }

  /** 25 rows in pages of 10: three pages, of 10, 10 and 5 rows. */
  lemma TwentyFiveRowsExample<T>(s: seq<T>)
    requires |s| == 25
    ensures TotalPages(|s|, 10) == 3
    ensures |Page(s, 10, 0)| == 10 && |Page(s, 10, 1)| == 10 && |Page(s, 10, 2)| == 5
    ensures Page(s, 10, 3) == []
  {
  }
}
