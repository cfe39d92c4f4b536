/**
 * The unique_copy kernel of the Kokkos standard algorithms
 * (algorithms/src/std_algorithms/impl/Kokkos_UniqueCopy.hpp).
 *
 * For an input range a[0..n) and a binary predicate pred, the kernel copies
 * a[i] to the destination exactly when !pred(a[i], a[i + 1]) for i < n - 1, and
 * always copies a[n - 1] last; it returns the position one past the last slot
 * written.  The execution-space version obtains each element's output slot from
 * an exclusive prefix scan; the team version keeps a running counter.  Both are
 * modelled here with their parallel dispatch replaced by its serial meaning.
 *
 * Iterators are an array and an index into it: the input range is
 * src[first..last), the destination starts at dst[dFirst].
 */
module UniqueCopy {

  // ---------------------------------------------------------------------------
  // Specification over sequences
  // ---------------------------------------------------------------------------

  /** Whether the kernel copies a[i] (i < n - 1): pred does not relate it to its successor. */
  predicate Keeps<T>(a: seq<T>, pred: (T, T) -> bool, i: nat)
    requires i + 1 < |a|
  {
    !pred(a[i], a[i + 1])
  }

  /** Whether a[i] ends up in the output: kept, or the last element. */
  predicate KeptOrLast<T>(a: seq<T>, pred: (T, T) -> bool, i: nat)
    requires i < |a|
  {
    i + 1 == |a| || Keeps(a, pred, i)
  }

  /**
   * The exclusive prefix sum the scan hands to index k: how many of
   * a[0], ..., a[k - 1] are kept.  It is also the team loop's counter on
   * entry to iteration k.
   */
  function PrefixCount<T>(a: seq<T>, pred: (T, T) -> bool, k: nat): (c: nat)
    requires k < |a|
    ensures c <= k
    decreases k
  {
    if k == 0 then 0
    else PrefixCount(a, pred, k - 1) + (if Keeps(a, pred, k - 1) then 1 else 0)
  }

  /** The kept elements among a[0], ..., a[k - 1], in increasing index order. */
  function KeptPrefix<T>(a: seq<T>, pred: (T, T) -> bool, k: nat): seq<T>
    requires k < |a|
    decreases k
  {
    if k == 0 then []
    else KeptPrefix(a, pred, k - 1) + (if Keeps(a, pred, k - 1) then [a[k - 1]] else [])
  }

  /** What unique_copy writes to the destination for the input a. */
  function UniqueCopyOf<T>(a: seq<T>, pred: (T, T) -> bool): (r: seq<T>)
    ensures |a| == 0 ==> r == []
    ensures |a| == 1 ==> r == a
    ensures |a| > 0 ==> 0 < |r| <= |a| && r[|r| - 1] == a[|a| - 1]
  {
    if |a| == 0 then []
    else
      KeptPrefixLength(a, pred, |a| - 1);
      KeptPrefix(a, pred, |a| - 1) + [a[|a| - 1]]
  }

  /**
   * The destination d after the scan's final pass has run on indices
   * 0..k-1 with output starting at slot at: every kept a[i] is stored at slot
   * at + PrefixCount(a, pred, i), and no other slot changes.
   */
  function ScanWrites<T>(a: seq<T>, pred: (T, T) -> bool, d: seq<T>, at: nat, k: nat): (r: seq<T>)
    requires k < |a| && at + k <= |d|
    ensures |r| == |d|
    decreases k
  {
    if k == 0 then d
    else
      var prev := ScanWrites(a, pred, d, at, k - 1);
      if Keeps(a, pred, k - 1) then prev[at + PrefixCount(a, pred, k - 1) := a[k - 1]] else prev
  }

  /** d with r written over the slots at, ..., at + |r| - 1, and nothing else changed. */
  function WrittenAt<T>(d: seq<T>, at: nat, r: seq<T>): (w: seq<T>)
    requires at + |r| <= |d|
    ensures |w| == |d|
  {
    d[..at] + r + d[at + |r|..]
  }

  // ---------------------------------------------------------------------------
  // Properties of the specification
  // ---------------------------------------------------------------------------

  /** The number of kept elements is the scan's running count. */
  lemma {:induction false} KeptPrefixLength<T>(a: seq<T>, pred: (T, T) -> bool, k: nat)
    requires k < |a|
    ensures |KeptPrefix(a, pred, k)| == PrefixCount(a, pred, k)
    decreases k
  {
    if k > 0 {
      KeptPrefixLength(a, pred, k - 1);
    }
  }

  /** The number written is the count of kept elements plus one for the last element. */
  lemma UniqueCopyLength<T>(a: seq<T>, pred: (T, T) -> bool)
    ensures |UniqueCopyOf(a, pred)| == if |a| == 0 then 0 else PrefixCount(a, pred, |a| - 1) + 1
  {
    if |a| > 0 {
      KeptPrefixLength(a, pred, |a| - 1);
    }
  }

  /** The prefix count never decreases, and passing a kept index raises it. */
  lemma {:induction false} PrefixCountMonotone<T>(a: seq<T>, pred: (T, T) -> bool, i: nat, j: nat)
    requires i <= j < |a|
    ensures PrefixCount(a, pred, i) <= PrefixCount(a, pred, j)
    ensures i < j && Keeps(a, pred, i) ==> PrefixCount(a, pred, i) < PrefixCount(a, pred, j)
    decreases j
  {
    if i < j {
      PrefixCountMonotone(a, pred, i, j - 1);
    }
  }

  /**
   * The scan's writes never collide: two distinct kept indices get distinct
   * slots, so the order in which a parallel scan performs them is irrelevant.
   */
  lemma ScanSlotsDistinct<T>(a: seq<T>, pred: (T, T) -> bool, i: nat, j: nat)
    requires i < j && j + 1 < |a|
    requires Keeps(a, pred, i) && Keeps(a, pred, j)
    ensures PrefixCount(a, pred, i) < PrefixCount(a, pred, j)
  {
    PrefixCountMonotone(a, pred, i, j);
  }

  /** Each kept a[i] with i < k sits at position PrefixCount(a, pred, i) of KeptPrefix(a, pred, k). */
  lemma {:induction false} KeptAt<T>(a: seq<T>, pred: (T, T) -> bool, k: nat, i: nat)
    requires i < k < |a| && Keeps(a, pred, i)
    ensures PrefixCount(a, pred, i) < |KeptPrefix(a, pred, k)|
    ensures KeptPrefix(a, pred, k)[PrefixCount(a, pred, i)] == a[i]
    decreases k
  {
    KeptPrefixLength(a, pred, k - 1);
    if i < k - 1 {
      KeptAt(a, pred, k - 1, i);
    }
  }

  /** Every position of KeptPrefix(a, pred, k) holds some kept a[i], i < k, at i's prefix count. */
  lemma {:induction false} KeptFrom<T>(a: seq<T>, pred: (T, T) -> bool, k: nat, j: nat)
    requires k < |a| && j < |KeptPrefix(a, pred, k)|
    ensures exists i: nat :: i < k && Keeps(a, pred, i) && PrefixCount(a, pred, i) == j
                             && KeptPrefix(a, pred, k)[j] == a[i]
    decreases k
  {
    KeptPrefixLength(a, pred, k - 1);
    if j < |KeptPrefix(a, pred, k - 1)| {
      KeptFrom(a, pred, k - 1, j);
      var i: nat :| i < k - 1 && Keeps(a, pred, i) && PrefixCount(a, pred, i) == j
                    && KeptPrefix(a, pred, k - 1)[j] == a[i];
      assert KeptPrefix(a, pred, k)[j] == a[i];
    } else {
      assert Keeps(a, pred, k - 1) && PrefixCount(a, pred, k - 1) == j;
    }
  }

  /**
   * The output of unique_copy, described element by element: slot
   * PrefixCount(a, pred, i) holds a[i] for every kept-or-last i, and these
   * slots increase strictly with i.  With UniqueCopySlot (every slot is filled
   * that way) the output is the kept elements in input order followed by the
   * last element.
   */
  lemma UniqueCopyElements<T>(a: seq<T>, pred: (T, T) -> bool)
    ensures forall i: nat :: i < |a| && KeptOrLast(a, pred, i) ==>
              PrefixCount(a, pred, i) < |UniqueCopyOf(a, pred)|
              && UniqueCopyOf(a, pred)[PrefixCount(a, pred, i)] == a[i]
    ensures forall i: nat, i': nat :: i < i' < |a| && KeptOrLast(a, pred, i) && KeptOrLast(a, pred, i') ==>
              PrefixCount(a, pred, i) < PrefixCount(a, pred, i')
  {
    if |a| > 0 {
      var n := |a|;
      var r := UniqueCopyOf(a, pred);
      KeptPrefixLength(a, pred, n - 1);
      forall i: nat | i < n && KeptOrLast(a, pred, i)
        ensures PrefixCount(a, pred, i) < |r| && r[PrefixCount(a, pred, i)] == a[i]
      {
        if i < n - 1 {
          KeptAt(a, pred, n - 1, i);
        }
      }
      forall i: nat, i': nat | i < i' < n && KeptOrLast(a, pred, i) && KeptOrLast(a, pred, i')
        ensures PrefixCount(a, pred, i) < PrefixCount(a, pred, i')
      {
        PrefixCountMonotone(a, pred, i, i');
      }
    }
  }

  /** Slot j of the output holds a kept-or-last a[i] whose prefix count is j. */
  lemma UniqueCopySlot<T>(a: seq<T>, pred: (T, T) -> bool, j: nat)
    requires j < |UniqueCopyOf(a, pred)|
    ensures exists i: nat :: i < |a| && KeptOrLast(a, pred, i) && PrefixCount(a, pred, i) == j
                             && UniqueCopyOf(a, pred)[j] == a[i]
  {
    var n := |a|;
    var r := UniqueCopyOf(a, pred);
    KeptPrefixLength(a, pred, n - 1);
    if j < |r| - 1 {
      KeptFrom(a, pred, n - 1, j);
      var i: nat :| i < n - 1 && Keeps(a, pred, i) && PrefixCount(a, pred, i) == j
                    && KeptPrefix(a, pred, n - 1)[j] == a[i];
      assert KeptOrLast(a, pred, i) && r[j] == a[i];
    } else {
      assert KeptOrLast(a, pred, n - 1) && PrefixCount(a, pred, n - 1) == j && r[j] == a[n - 1];
    }
  }

  /**
   * The scan formulation equals the serial one: after the final pass over
   * indices 0..k-1 the destination holds the kept prefix at slot at and is
   * unchanged elsewhere.
   */
  lemma {:induction false} ScanWritesKept<T>(a: seq<T>, pred: (T, T) -> bool, d: seq<T>, at: nat, k: nat)
    requires k < |a| && at + k <= |d|
    ensures at + |KeptPrefix(a, pred, k)| <= |d|
    ensures ScanWrites(a, pred, d, at, k) == WrittenAt(d, at, KeptPrefix(a, pred, k))
    decreases k
  {
    KeptPrefixLength(a, pred, k);
    if k > 0 {
      ScanWritesKept(a, pred, d, at, k - 1);
      KeptPrefixLength(a, pred, k - 1);
      if Keeps(a, pred, k - 1) {
        WrittenAtExtend(d, at, KeptPrefix(a, pred, k - 1), a[k - 1]);
      }
    }
  }

  // ---------------------------------------------------------------------------
  // Adjacent output elements
  // ---------------------------------------------------------------------------

  /** pred is symmetric on the values occurring in a. */
  ghost predicate SymmetricOn<T>(a: seq<T>, pred: (T, T) -> bool)
  {
    forall x, y | x in a && y in a :: pred(x, y) ==> pred(y, x)
  }

  /** pred is transitive on the values occurring in a. */
  ghost predicate TransitiveOn<T>(a: seq<T>, pred: (T, T) -> bool)
  {
    forall x, y, z | x in a && y in a && z in a :: pred(x, y) && pred(y, z) ==> pred(x, z)
  }

  /** No two neighbours of s are related by pred. */
  ghost predicate NoAdjacentRelated<T>(s: seq<T>, pred: (T, T) -> bool)
  {
    forall j :: 0 <= j < |s| - 1 ==> !pred(s[j], s[j + 1])
  }

  lemma {:induction false} KeptPrefixNoAdjacentRelated<T>(a: seq<T>, pred: (T, T) -> bool, k: nat)
    requires k < |a| && SymmetricOn(a, pred) && TransitiveOn(a, pred)
    ensures NoAdjacentRelated(KeptPrefix(a, pred, k) + [a[k]], pred)
    ensures forall x :: x in KeptPrefix(a, pred, k) ==> x in a
    decreases k
  {
    if k > 0 {
      KeptPrefixNoAdjacentRelated(a, pred, k - 1);
      var p := KeptPrefix(a, pred, k - 1);
      var w := p + [a[k - 1]];
      var s := KeptPrefix(a, pred, k) + [a[k]];
      if Keeps(a, pred, k - 1) {
        assert s == w + [a[k]];
      } else {
        assert s == p + [a[k]];
        forall j | 0 <= j < |s| - 1
          ensures !pred(s[j], s[j + 1])
        {
          if j + 1 < |p| {
            assert s[j] == w[j] && s[j + 1] == w[j + 1];
          } else {
            assert s[j] == w[j] && w[j + 1] == a[k - 1] && s[j + 1] == a[k];
            var x, y, z := w[j], a[k], a[k - 1];
            assert x in a && y in a && z in a;
            assert pred(z, y) ==> pred(y, z);
            assert pred(x, y) && pred(y, z) ==> pred(x, z);
          }
        }
      }
    }
  }

  /**
   * When pred is symmetric and transitive on the input values (an equivalence
   * such as ==), no two adjacent output elements are related.
   */
  lemma UniqueCopyNoAdjacentRelated<T>(a: seq<T>, pred: (T, T) -> bool)
    requires SymmetricOn(a, pred) && TransitiveOn(a, pred)
    ensures NoAdjacentRelated(UniqueCopyOf(a, pred), pred)
  {
    if |a| > 0 {
      KeptPrefixNoAdjacentRelated(a, pred, |a| - 1);
    }
  }

  /** The default predicate of the overloads without pred. */
  function Equal<T(==)>(x: T, y: T): bool
  {
    x == y
  }

  /** With the default equality predicate, neighbouring output elements differ. */
  lemma UniqueCopyNoAdjacentEqual<T>(a: seq<T>)
    ensures forall j :: 0 <= j < |UniqueCopyOf(a, Equal)| - 1 ==>
              UniqueCopyOf(a, Equal)[j] != UniqueCopyOf(a, Equal)[j + 1]
  {
    UniqueCopyNoAdjacentRelated(a, Equal);
  }

  // ---------------------------------------------------------------------------
  // The kernels over arrays
  // ---------------------------------------------------------------------------

  /**
   * StdUniqueCopyFunctor::operator(): one index i of the scan, with running
   * value update.  Reads src[first + i] and src[first + i + 1]; in the final
   * pass it stores a kept element at dFirst + update; returns the updated
   * running value.
   */
  method ScanFunctorApply<T>(src: array<T>, first: nat, last: nat, dst: array<T>, dFirst: nat,
                             pred: (T, T) -> bool, i: nat, update: nat, finalPass: bool)
    returns (updated: nat)
    requires first + i + 1 < last <= src.Length
    requires src != dst
    requires finalPass && Keeps(src[first..last], pred, i) ==> dFirst + update < dst.Length
    modifies dst
    ensures updated == update + if Keeps(src[first..last], pred, i) then 1 else 0
    ensures finalPass && Keeps(src[first..last], pred, i) ==>
              dst[..] == old(dst[..])[dFirst + update := src[first + i]]
    ensures !(finalPass && Keeps(src[first..last], pred, i)) ==> dst[..] == old(dst[..])
  {
    ghost var a := src[first..last];
    var valI := src[first + i];
    var valNext := src[first + i + 1];
    assert valI == a[i] && valNext == a[i + 1];
    if finalPass {
      if !pred(valI, valNext) {
        dst[dFirst + update] := valI;
      }
    }
    updated := update;
    if !pred(valI, valNext) {
      updated := updated + 1;
    }
  }

  /**
   * The serial meaning of parallel_scan over RangePolicy(0, scanSize) with
   * StdUniqueCopyFunctor: the functor runs on each index in turn, in its final
   * pass, receiving the exclusive prefix sum as its running value.  Returns
   * the total.
   */
  method ParallelScan<T>(src: array<T>, first: nat, last: nat, dst: array<T>, dFirst: nat,
                         pred: (T, T) -> bool, scanSize: nat)
    returns (count: nat)
    requires first + scanSize + 1 == last <= src.Length
    requires dFirst + (last - first) <= dst.Length
    requires src != dst
    modifies dst
    ensures count == |KeptPrefix(old(src[first..last]), pred, scanSize)| <= scanSize
    ensures dst[..] == WrittenAt(old(dst[..]), dFirst, KeptPrefix(old(src[first..last]), pred, scanSize))
  {
    ghost var a := src[first..last];
    ghost var d0 := dst[..];
    count := 0;
    var i := 0;
    while i < scanSize
      invariant i <= scanSize
      invariant count == PrefixCount(a, pred, i)
      invariant dst[..] == ScanWrites(a, pred, d0, dFirst, i)
    {
      count := ScanFunctorApply(src, first, last, dst, dFirst, pred, i, count, true);
      i := i + 1;
    }
    ScanWritesKept(a, pred, d0, dFirst, scanSize);
    KeptPrefixLength(a, pred, scanSize);
  }

  /**
   * copy_exespace_impl, as a plain element-by-element copy of
   * src[first..last) to dst starting at dFirst; returns one past the last
   * slot written.
   */
  method CopyExespace<T>(src: array<T>, first: nat, last: nat, dst: array<T>, dFirst: nat)
    returns (dLast: nat)
    requires first <= last <= src.Length
    requires dFirst + (last - first) <= dst.Length
    requires src != dst
    modifies dst
    ensures dLast == dFirst + (last - first)
    ensures dst[..] == WrittenAt(old(dst[..]), dFirst, old(src[first..last]))
  {
    ghost var a := src[first..last];
    ghost var d0 := dst[..];
    var i := 0;
    while i < last - first
      invariant i <= last - first
      invariant dst[..] == WrittenAt(d0, dFirst, a[..i])
    {
      var v := src[first + i];
      WrittenAtExtend(d0, dFirst, a[..i], v);
      dst[dFirst + i] := v;
      assert a[..i] + [v] == a[..i + 1];
      i := i + 1;
    }
    dLast := dFirst + i;
    assert a[..i] == a;
  }

  /**
   * unique_copy_exespace_impl with an explicit predicate: the scan runs over
   * the n - 1 indices whose successor exists, then the last element is copied
   * to the slot given by the final count.  Only dst[dFirst..dLast) changes.
   */
  method UniqueCopyExespace<T>(src: array<T>, first: nat, last: nat, dst: array<T>, dFirst: nat,
                               pred: (T, T) -> bool)
    returns (dLast: nat)
    requires first <= last <= src.Length
    requires dFirst + (last - first) <= dst.Length
    requires src != dst
    modifies dst
    ensures dLast == dFirst + |UniqueCopyOf(old(src[first..last]), pred)| <= dst.Length
    ensures dst[..] == WrittenAt(old(dst[..]), dFirst, UniqueCopyOf(old(src[first..last]), pred))
  {
    var n := last - first;
    if n == 0 {
      assert dst[..] == WrittenAt(dst[..], dFirst, []);
      return dFirst;
    } else if n == 1 {
      dLast := CopyExespace(src, first, last, dst, dFirst);
      return;
    }
    dLast := ScanThenCopyLast(src, first, last, dst, dFirst, pred);
  }

  /**
   * The n >= 2 path of unique_copy_exespace_impl: parallel_scan over the
   * n - 1 indices whose successor exists, then copy_exespace_impl of the last
   * element to the slot given by the scan's total.
   */
  method ScanThenCopyLast<T>(src: array<T>, first: nat, last: nat, dst: array<T>, dFirst: nat,
                             pred: (T, T) -> bool)
    returns (dLast: nat)
    requires first + 2 <= last <= src.Length
    requires dFirst + (last - first) <= dst.Length
    requires src != dst
    modifies dst
    ensures dLast == dFirst + |UniqueCopyOf(old(src[first..last]), pred)| <= dst.Length
    ensures dst[..] == WrittenAt(old(dst[..]), dFirst, UniqueCopyOf(old(src[first..last]), pred))
  {
    ghost var a := src[first..last];
    ghost var d0 := dst[..];
    var scanSize := last - first - 1;
    var count := ParallelScan(src, first, last, dst, dFirst, pred, scanSize);
    ghost var kept := KeptPrefix(a, pred, scanSize);
    ghost var cur := dst[..];
    dLast := CopyExespace(src, first + scanSize, last, dst, dFirst + count);
    assert src[first + scanSize..last] == [a[scanSize]];
    WrittenAtSingle(cur, dFirst + count, a[scanSize]);
    WrittenAtExtend(d0, dFirst, kept, a[scanSize]);
    UniqueCopySplit(a, pred);
  }

  /** unique_copy_exespace_impl without a predicate: the default equality predicate. */
  method UniqueCopyExespaceDefault<T(==)>(src: array<T>, first: nat, last: nat, dst: array<T>, dFirst: nat)
    returns (dLast: nat)
    requires first <= last <= src.Length
    requires dFirst + (last - first) <= dst.Length
    requires src != dst
    modifies dst
    ensures dLast == dFirst + |UniqueCopyOf(old(src[first..last]), Equal)| <= dst.Length
    ensures dst[..] == WrittenAt(old(dst[..]), dFirst, UniqueCopyOf(old(src[first..last]), Equal))
    ensures forall j :: dFirst <= j < dLast - 1 ==> dst[j] != dst[j + 1]
  {
    ghost var a := src[first..last];
    dLast := UniqueCopyExespace(src, first, last, dst, dFirst, Equal);
    NoAdjacentEqualAt(a, dst[..], dFirst);
  }

  /**
   * unique_copy_team_impl with an explicit predicate.  The trivial sizes are
   * handled inline; otherwise one thread of the team runs TeamSerialCopy.
   * Only dst[dFirst..dLast) changes.
   */
  method UniqueCopyTeam<T>(src: array<T>, first: nat, last: nat, dst: array<T>, dFirst: nat,
                           pred: (T, T) -> bool)
    returns (dLast: nat)
    requires first <= last <= src.Length
    requires dFirst + (last - first) <= dst.Length
    requires src != dst
    modifies dst
    ensures dLast == dFirst + |UniqueCopyOf(old(src[first..last]), pred)| <= dst.Length
    ensures dst[..] == WrittenAt(old(dst[..]), dFirst, UniqueCopyOf(old(src[first..last]), pred))
  {
    var n := last - first;
    if n == 0 {
      assert dst[..] == WrittenAt(dst[..], dFirst, []);
      return dFirst;
    } else if n == 1 {
      ghost var d0 := dst[..];
      var v := src[first];
      assert [v] == src[first..last];
      dst[dFirst] := v;
      WrittenAtSingle(d0, dFirst, v);
      return dFirst + 1;
    }
    var count := TeamSerialCopy(src, first, last, dst, dFirst, pred);
    dLast := dFirst + count;
  }

  /**
   * The body run by a single thread of the team (n >= 2): walk the n - 1
   * indices whose successor exists, storing each kept element at the counter
   * and bumping it, then store the last element.  Returns the final counter.
   */
  method TeamSerialCopy<T>(src: array<T>, first: nat, last: nat, dst: array<T>, dFirst: nat,
                           pred: (T, T) -> bool)
    returns (count: nat)
    requires first + 2 <= last <= src.Length
    requires dFirst + (last - first) <= dst.Length
    requires src != dst
    modifies dst
    ensures count == |UniqueCopyOf(old(src[first..last]), pred)|
    ensures dst[..] == WrittenAt(old(dst[..]), dFirst, UniqueCopyOf(old(src[first..last]), pred))
  {
    ghost var a := src[first..last];
    ghost var d0 := dst[..];
    ghost var kept: seq<T> := [];
    var n := last - first;
    count := 0;
    var i := 0;
    while i < n - 1
      invariant i <= n - 1
      invariant kept == KeptPrefix(a, pred, i) && count == |kept| <= i
      invariant dst[..] == WrittenAt(d0, dFirst, kept)
    {
      var valI := src[first + i];
      var valNext := src[first + i + 1];
      if !pred(valI, valNext) {
        WrittenAtExtend(d0, dFirst, kept, valI);
        dst[dFirst + count] := valI;
        count := count + 1;
        kept := kept + [valI];
      }
      i := i + 1;
    }
    var lastVal := src[first + n - 1];
    UniqueCopySplit(a, pred);
    WrittenAtExtend(d0, dFirst, kept, lastVal);
    dst[dFirst + count] := lastVal;
    count := count + 1;
  }

  /** unique_copy_team_impl without a predicate: the default equality predicate. */
  method UniqueCopyTeamDefault<T(==)>(src: array<T>, first: nat, last: nat, dst: array<T>, dFirst: nat)
    returns (dLast: nat)
    requires first <= last <= src.Length
    requires dFirst + (last - first) <= dst.Length
    requires src != dst
    modifies dst
    ensures dLast == dFirst + |UniqueCopyOf(old(src[first..last]), Equal)| <= dst.Length
    ensures dst[..] == WrittenAt(old(dst[..]), dFirst, UniqueCopyOf(old(src[first..last]), Equal))
    ensures forall j :: dFirst <= j < dLast - 1 ==> dst[j] != dst[j + 1]
  {
    ghost var a := src[first..last];
    dLast := UniqueCopyTeam(src, first, last, dst, dFirst, Equal);
    NoAdjacentEqualAt(a, dst[..], dFirst);
  }

  // ---------------------------------------------------------------------------
  // Facts about WrittenAt used by the kernels
  // ---------------------------------------------------------------------------

  /** Storing just past a written block extends the block by one element. */
  lemma WrittenAtExtend<T>(d: seq<T>, at: nat, r: seq<T>, v: T)
    requires at + |r| < |d|
    ensures WrittenAt(d, at, r)[at + |r| := v] == WrittenAt(d, at, r + [v])
  {
    assert d[at + |r|..][1..] == d[at + |r| + 1..];
  }

  /** For two or more elements the output is the kept prefix followed by the last element. */
  lemma UniqueCopySplit<T>(a: seq<T>, pred: (T, T) -> bool)
    requires |a| >= 2
    ensures |KeptPrefix(a, pred, |a| - 1)| == PrefixCount(a, pred, |a| - 1)
    ensures UniqueCopyOf(a, pred) == KeptPrefix(a, pred, |a| - 1) + [a[|a| - 1]]
  {
    KeptPrefixLength(a, pred, |a| - 1);
  }

  /** Writing a one-element block is a single store. */
  lemma WrittenAtSingle<T>(d: seq<T>, at: nat, v: T)
    requires at < |d|
    ensures WrittenAt(d, at, [v]) == d[at := v]
  {
  }

  /** A destination holding the default-predicate output at dFirst has no equal neighbours there. */
  lemma NoAdjacentEqualAt<T>(a: seq<T>, w: seq<T>, dFirst: nat)
    requires dFirst + |UniqueCopyOf(a, Equal)| <= |w|
    requires w[dFirst..dFirst + |UniqueCopyOf(a, Equal)|] == UniqueCopyOf(a, Equal)
    ensures forall j :: dFirst <= j < dFirst + |UniqueCopyOf(a, Equal)| - 1 ==> w[j] != w[j + 1]
  {
    var r := UniqueCopyOf(a, Equal);
    UniqueCopyNoAdjacentEqual(a);
    forall j | dFirst <= j < dFirst + |r| - 1
      ensures w[j] != w[j + 1]
    {
      assert w[j] == r[j - dFirst] && w[j + 1] == r[j + 1 - dFirst];
    }
  }
}
