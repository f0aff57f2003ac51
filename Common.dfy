/** Small building blocks shared by the components: an optional value, the two
    JavaScript array operations the components use (filter and slice), the
    wrap-around index step of the two carousels, and the three-way view decision
    of the detail pages. */
module Common {

  datatype Option<+T> = None | Some(value: T)

  function Min(a: int, b: int): int { if a <= b then a else b }
  function Max(a: int, b: int): int { if a >= b then a else b }

  // ---------------------------------------------------------------------------
  // Array.prototype.filter
  // ---------------------------------------------------------------------------

  /** The elements of `s` that satisfy `p`, in their original order. */
  function Filter<T>(p: T -> bool, s: seq<T>): (r: seq<T>)
    ensures |r| <= |s|
    ensures forall x :: x in r ==> x in s && p(x)
  {
    if s == [] then []
    else (if p(s[0]) then [s[0]] else []) + Filter(p, s[1..])
  }

  /** Nothing that satisfies `p` is dropped. */
  lemma {:induction false} FilterKeeps<T>(p: T -> bool, s: seq<T>, x: T)
    requires x in s && p(x)
    ensures x in Filter(p, s)
  {
    if s[0] != x {
      assert x in s[1..];
      FilterKeeps(p, s[1..], x);
    }
  }

  /** Filtering commutes with concatenation: the relative order of the kept
      elements is the order of the input. */
  lemma {:induction false} FilterAppend<T>(p: T -> bool, a: seq<T>, b: seq<T>)
    ensures Filter(p, a + b) == Filter(p, a) + Filter(p, b)
  {
    if a == [] {
      assert a + b == b;
    } else {
      assert (a + b)[1..] == a[1..] + b;
      FilterAppend(p, a[1..], b);
    }
  }

  // ---------------------------------------------------------------------------
  // Array.prototype.slice
  // ---------------------------------------------------------------------------

  /** How slice reads one of its bounds: a negative bound counts from the end,
      and every bound is clamped to [0, len]. */
  function SliceBound(x: int, len: nat): (b: nat)
    ensures b <= len
    ensures x >= 0 ==> b == Min(x, len)
    ensures x < 0 ==> b == Max(len + x, 0)
  {
    if x < 0 then (if len + x < 0 then 0 else len + x)
    else if x < len then x else len
  }

  /** `s.slice(start, end)`. */
  function JsSlice<T>(s: seq<T>, start: int, end: int): (r: seq<T>)
    ensures |r| <= |s|
    ensures 0 <= start && 0 <= end ==>
              |r| == Max(0, Min(end, |s|) - Min(start, |s|)) &&
              forall i :: 0 <= i < |r| ==> start + i < |s| && r[i] == s[start + i]
  {
    var from, to := SliceBound(start, |s|), SliceBound(end, |s|);
    if from < to then s[from..to] else []
  }

  // ---------------------------------------------------------------------------
  // Wrap-around carousel index
  // ---------------------------------------------------------------------------

  /** `(i + 1) % n`: the next position of a carousel of `n` items. */
  function Succ(i: nat, n: nat): (r: nat)
    requires n > 0
    ensures r < n
    ensures i < n - 1 ==> r == i + 1
    ensures i == n - 1 ==> r == 0
  {
    (i + 1) % n
  }

  /** `(i - 1 + n) % n`: the previous position. For `i >= 0` the dividend is
      never negative, so JavaScript's truncating `%` agrees with Dafny's. */
  function Pred(i: nat, n: nat): (r: nat)
    requires n > 0
    ensures r < n
    ensures 0 < i < n ==> r == i - 1
    ensures i == 0 ==> r == n - 1
  {
    (i - 1 + n) % n
  }

  /** Stepping back undoes stepping forward and vice versa, for any position
      inside the carousel. */
  lemma PredSuccInverse(i: nat, n: nat)
    requires i < n
    ensures Pred(Succ(i, n), n) == i
    ensures Succ(Pred(i, n), n) == i
  {
  }

  /** The position after `k` forward steps from `i`. */
  function SuccIter(i: nat, n: nat, k: nat): (r: nat)
    requires n > 0
  {
    if k == 0 then i else Succ(SuccIter(i, n, k - 1), n)
  }

  /** Up to one full turn, `k` forward steps from a position in range land on
      `i + k`, wrapped once past the end. */
  lemma {:induction false} SuccIterWraps(i: nat, n: nat, k: nat)
    requires i < n && k <= n
    ensures SuccIter(i, n, k) == if i + k < n then i + k else i + k - n
  {
    if k > 0 {
      SuccIterWraps(i, n, k - 1);
    }
  }

  /** After `n` steps a carousel of `n` items is back where it started, and on
      the way from position 0 it visits every position. */
  lemma FullCycle(i: nat, n: nat)
    requires i < n
    ensures SuccIter(i, n, n) == i
    ensures forall j :: 0 <= j < n ==> SuccIter(0, n, j) == j
  {
    SuccIterWraps(i, n, n);
    forall j | 0 <= j < n ensures SuccIter(0, n, j) == j {
      SuccIterWraps(0, n, j);
    }
  }

  // ---------------------------------------------------------------------------
  // Detail pages
  // ---------------------------------------------------------------------------

  /** What a detail page renders: its skeleton, the not-found view with a link
      home, or the record. */
  datatype DetailView<T> = Loading | NotFound | Found(row: T)

  /** The loading check comes first, then the missing-record check. */
  function DetailViewOf<T>(loading: bool, row: Option<T>): (v: DetailView<T>)
    ensures v.Loading? <==> loading
    ensures v.NotFound? <==> !loading && row.None?
    ensures v.Found? <==> !loading && row.Some?
    ensures v.Found? ==> v.row == row.value
  {
    if loading then Loading
    else if row.None? then NotFound
    else Found(row.value)
  }
}
