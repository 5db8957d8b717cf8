/** The three in-place sorts of a vector of records, by the record order:
    selection sort, insertion sort and cocktail (shaker) sort. */
module Sorts {
  import opened Records

  /** Non-decreasing in the record order: no later element is `<` an earlier one. */
  ghost predicate Sorted(s: seq<Camp>)
  {
    forall p, q | 0 <= p < q < |s| :: !Less(s[q], s[p])
  }

  /** The window `[lo, hi]` is sorted. */
  ghost predicate SortedWindow(s: seq<Camp>, lo: int, hi: int)
  {
    forall p, q | lo <= p < q <= hi && 0 <= p && q < |s| :: !Less(s[q], s[p])
  }

  /** The first `i` elements are sorted and none of the rest is `<` any of them. */
  ghost predicate SelectionDone(s: seq<Camp>, i: nat)
    requires i <= |s|
  {
    && SortedWindow(s, 0, i - 1)
    && (forall p, q | 0 <= p < i <= q < |s| :: !Less(s[q], s[p]))
  }

  /** `m` holds a minimum of `s[i..]`. */
  ghost predicate MinimumAt(s: seq<Camp>, i: nat, m: nat)
    requires i <= m < |s|
  {
    forall k | i <= k < |s| :: !Less(s[k], s[m])
  }

  /** One outer step of selection sort: swapping a minimum of the rest into
      position `i` extends the finished part by one. */
  lemma SelectionStep(s: seq<Camp>, i: nat, m: nat)
    requires i <= m < |s|
    requires SelectionDone(s, i) && MinimumAt(s, i, m)
    ensures SelectionDone(s[i := s[m]][m := s[i]], i + 1)
    ensures multiset(s[i := s[m]][m := s[i]]) == multiset(s)
  {
    var t := s[i := s[m]][m := s[i]];
    forall p, q | 0 <= p < q < i + 1
      ensures !Less(t[q], t[p])
    {
      if q < i {
        assert t[p] == s[p] && t[q] == s[q];
      } else {
        assert t[p] == s[p] && t[q] == s[m];
      }
    }
    forall p, q | 0 <= p < i + 1 <= q < |s|
      ensures !Less(t[q], t[p])
    {
      var v := if q == m then s[i] else s[q];
      assert t[q] == v;
      if p < i {
        assert t[p] == s[p];
      } else {
        assert t[p] == s[m];
      }
    }
  }

  lemma SelectionFinished(s: seq<Camp>, i: nat)
    requires i <= |s| && |s| <= i + 1
    requires SelectionDone(s, i)
    ensures Sorted(s)
  {
  }

  /** `selectionSort`: for each position, find the first strict minimum of the
      rest and swap it in when it is elsewhere. */
  method SelectionSort(a: array<Camp>)
    modifies a
    ensures Sorted(a[..])
    ensures multiset(a[..]) == old(multiset(a[..]))
    ensures old(Sorted(a[..])) ==> a[..] == old(a[..])
  {
    var n := a.Length;
    ghost var wasSorted := Sorted(a[..]);
    var i := 0;
    while i < n - 1
      invariant 0 <= i <= n
      invariant SelectionDone(a[..], i)
      invariant multiset(a[..]) == old(multiset(a[..]))
      invariant wasSorted ==> a[..] == old(a[..])
    {
      ghost var s := a[..];
      var minIdx := MinIndexFrom(a, i);
      if wasSorted {
        SortedPair(s, i, minIdx);
      }
      SelectionStep(s, i, minIdx);
      if minIdx != i {
        a[i], a[minIdx] := a[minIdx], a[i];
      }
      assert a[..] == s[i := s[minIdx]][minIdx := s[i]];
      i := i + 1;
    }
    SelectionFinished(a[..], i);
  }

  /** The inner loop of `selectionSort`: the index of the first minimum of
      `a[i..]`; the candidate moves only on a strict `<`. */
  method MinIndexFrom(a: array<Camp>, i: int) returns (minIdx: int)
    requires 0 <= i < a.Length
    ensures i <= minIdx < a.Length
    ensures MinimumAt(a[..], i, minIdx)
    ensures forall k | i <= k < minIdx :: Less(a[minIdx], a[k])
  {
    minIdx := i;
    LessIrreflexive(a[i]);
    for j := i + 1 to a.Length
      invariant i <= minIdx < j
      invariant forall k | i <= k < j :: !Less(a[k], a[minIdx])
      invariant forall k | i <= k < minIdx :: Less(a[minIdx], a[k])
    {
      if Less(a[j], a[minIdx]) {
        forall k | i <= k < j
          ensures !Less(a[k], a[j]) && Less(a[j], a[k])
        {
          if Less(a[k], a[j]) {
            LessTransitive(a[k], a[j], a[minIdx]);
          }
          LessThenNotLess(a[j], a[minIdx], a[k]);
        }
        LessIrreflexive(a[j]);
        minIdx := j;
      }
    }
  }

  /** `s` with its element at `i` moved down to position `lo`, the elements
      `s[lo..i]` each moving up by one: one pass of the insertion sort's shift. */
  ghost function Shifted(s: seq<Camp>, lo: nat, i: nat): seq<Camp>
    requires lo <= i < |s|
  {
    s[..lo] + [s[i]] + s[lo..i] + s[i + 1..]
  }

  /** `Shifted` element by element. */
  lemma ShiftedAt(s: seq<Camp>, lo: nat, i: nat, t: seq<Camp>)
    requires lo <= i < |s| == |t|
    requires forall k | 0 <= k < lo :: t[k] == s[k]
    requires t[lo] == s[i]
    requires forall k | lo < k <= i :: t[k] == s[k - 1]
    requires forall k | i < k < |s| :: t[k] == s[k]
    ensures t == Shifted(s, lo, i)
  {
  }

  lemma ShiftedInPlace(s: seq<Camp>, i: nat)
    requires i < |s|
    ensures Shifted(s, i, i) == s
  {
    assert s == s[..i] + [s[i]] + s[i + 1..];
  }

  lemma SortedPair(s: seq<Camp>, p: nat, q: nat)
    requires Sorted(s) && p <= q < |s|
    ensures p < q ==> !Less(s[q], s[p])
  {
  }

  lemma ShiftedPermutes(s: seq<Camp>, lo: nat, i: nat)
    requires lo <= i < |s|
    ensures multiset(Shifted(s, lo, i)) == multiset(s)
  {
    var x, m, z := s[..lo], s[lo..i], s[i + 1..];
    assert s == x + m + [s[i]] + z;
    calc {
      multiset(Shifted(s, lo, i));
      multiset(x + [s[i]] + m + z);
      multiset(x) + multiset([s[i]]) + multiset(m) + multiset(z);
      multiset(x + m + [s[i]] + z);
    }
  }

  /** Inserting `s[i]` after the last element it is not `<` and before the
      run of elements `>` it extends the sorted prefix by one. */
  lemma InsertionStep(s: seq<Camp>, lo: nat, i: nat)
    requires lo <= i < |s|
    requires SortedWindow(s, 0, i - 1)
    requires forall k | lo <= k < i :: Less(s[i], s[k])
    requires lo > 0 ==> !Less(s[i], s[lo - 1])
    ensures SortedWindow(Shifted(s, lo, i), 0, i)
  {
    var t := Shifted(s, lo, i);
    forall p, q | 0 <= p < q < i + 1
      ensures !Less(t[q], t[p])
    {
      if q < lo {
        assert t[p] == s[p] && t[q] == s[q];
      } else if q == lo {
        assert t[q] == s[i] && t[p] == s[p];
        if p < lo - 1 {
          NotLessTransitive(s[p], s[lo - 1], s[i]);
        }
      } else if p < lo {
        assert t[p] == s[p] && t[q] == s[q - 1];
      } else if p == lo {
        assert t[p] == s[i] && t[q] == s[q - 1];
        LessAsymmetric(s[i], s[q - 1]);
      } else {
        assert t[p] == s[p - 1] && t[q] == s[q - 1];
      }
    }
  }

  /** The records of `s` that are `==` to `c`, in their order in `s`. */
  ghost function EqualRun(s: seq<Camp>, c: Camp): seq<Camp>
  {
    if s == [] then []
    else (if Equal(s[0], c) then [s[0]] else []) + EqualRun(s[1..], c)
  }

  lemma {:induction false} EqualRunEmpty(s: seq<Camp>, c: Camp)
    requires forall k | 0 <= k < |s| :: !Equal(s[k], c)
    ensures EqualRun(s, c) == []
  {
    if s != [] {
      EqualRunEmpty(s[1..], c);
    }
  }

  lemma {:induction false} EqualRunConcat(x: seq<Camp>, y: seq<Camp>, c: Camp)
    ensures EqualRun(x + y, c) == EqualRun(x, c) + EqualRun(y, c)
    decreases |x|
  {
    if x == [] {
      assert x + y == y;
    } else {
      assert (x + y)[1..] == x[1..] + y;
      EqualRunConcat(x[1..], y, c);
    }
  }

  /** Stability: records that are `==` keep their relative order. */
  ghost predicate Stable(t: seq<Camp>, s: seq<Camp>)
  {
    forall c :: EqualRun(t, c) == EqualRun(s, c)
  }

  /** Moving `s[i]` only past elements strictly greater than it never reorders
      two equivalent records. */
  lemma ShiftedStable(s: seq<Camp>, lo: nat, i: nat)
    requires lo <= i < |s|
    requires forall k | lo <= k < i :: Less(s[i], s[k])
    ensures Stable(Shifted(s, lo, i), s)
  {
    var x, m, z := s[..lo], s[lo..i], s[i + 1..];
    assert s == x + m + [s[i]] + z;
    assert Shifted(s, lo, i) == x + [s[i]] + m + z;
    forall k | 0 <= k < |m|
      ensures !Equal(m[k], s[i])
    {
      Trichotomy(s[i], m[k]);
    }
    forall c
      ensures EqualRun(x + [s[i]] + m + z, c) == EqualRun(x + m + [s[i]] + z, c)
    {
      PassingKeepsRun(x, s[i], m, z, c);
    }
  }

  /** Moving `key` past a block none of whose records is `==` to it leaves
      every run of equivalent records as it was. */
  lemma PassingKeepsRun(x: seq<Camp>, key: Camp, m: seq<Camp>, z: seq<Camp>, c: Camp)
    requires forall k | 0 <= k < |m| :: !Equal(m[k], key)
    ensures EqualRun(x + [key] + m + z, c) == EqualRun(x + m + [key] + z, c)
  {
    EqualRunOfFour(x, [key], m, z, c);
    EqualRunOfFour(x, m, [key], z, c);
    if Equal(key, c) {
      EqualRunEmpty(m, c);
    } else {
      EqualRunEmpty([key], c);
    }
  }

  lemma EqualRunOfFour(w: seq<Camp>, x: seq<Camp>, y: seq<Camp>, z: seq<Camp>, c: Camp)
    ensures EqualRun(w + x + y + z, c) == EqualRun(w, c) + EqualRun(x, c) + EqualRun(y, c) + EqualRun(z, c)
  {
    EqualRunConcat(w + x + y, z, c);
    EqualRunConcat(w + x, y, c);
    EqualRunConcat(w, x, c);
  }

  /** What one outer step of insertion sort keeps: the sorted prefix grows by
      one, and the array stays a stable permutation of the input `orig`. */
  lemma InsertionPass(s: seq<Camp>, lo: nat, i: nat, orig: seq<Camp>)
    requires lo <= i < |s|
    requires SortedWindow(s, 0, i - 1)
    requires forall k | lo <= k < i :: Less(s[i], s[k])
    requires lo > 0 ==> !Less(s[i], s[lo - 1])
    requires multiset(s) == multiset(orig) && Stable(s, orig)
    ensures SortedWindow(Shifted(s, lo, i), 0, i)
    ensures multiset(Shifted(s, lo, i)) == multiset(orig)
    ensures Stable(Shifted(s, lo, i), orig)
  {
    InsertionStep(s, lo, i);
    ShiftedPermutes(s, lo, i);
    ShiftedStable(s, lo, i);
  }

  /** `insertionSort`: each element in turn is shifted left past every
      predecessor that is `>` it. */
  method InsertionSort(a: array<Camp>)
    modifies a
    ensures Sorted(a[..])
    ensures multiset(a[..]) == old(multiset(a[..]))
    ensures Stable(a[..], old(a[..]))
    ensures old(Sorted(a[..])) ==> a[..] == old(a[..])
  {
    var n := a.Length;
    ghost var wasSorted := Sorted(a[..]);
    var i := 1;
    while i < n
      invariant 1 <= i && (n == 0 || i <= n)
      invariant n > 0 ==> SortedWindow(a[..], 0, i - 1)
      invariant multiset(a[..]) == old(multiset(a[..]))
      invariant Stable(a[..], old(a[..]))
      invariant wasSorted ==> a[..] == old(a[..])
    {
      ghost var s := a[..];
      ghost var lo := InsertAt(a, i, s);
      InsertionPass(s, lo, i, old(a[..]));
      if wasSorted {
        SortedPair(s, i - 1, i);
        ShiftedInPlace(s, i);
      }
      i := i + 1;
    }
  }

  /** The array during the shift loop: `s[j + 1]` has been copied up to
      `j + 2`, and so on up to `i`; the slot `j + 1` is the one `key` may fill. */
  ghost function Shifting(s: seq<Camp>, j: int, i: nat): seq<Camp>
    requires -1 <= j < i < |s|
  {
    s[..j + 2] + s[j + 1..i] + s[i + 1..]
  }

  lemma ShiftingStart(s: seq<Camp>, i: nat)
    requires 0 < i < |s|
    ensures Shifting(s, i - 1, i) == s
  {
    assert s == s[..i + 1] + s[i + 1..];
  }

  lemma ShiftingStep(s: seq<Camp>, j: nat, i: nat)
    requires j < i < |s|
    ensures Shifting(s, j, i)[j + 1 := s[j]] == Shifting(s, j - 1, i)
  {
    var t, u := Shifting(s, j, i)[j + 1 := s[j]], Shifting(s, j - 1, i);
    assert |t| == |u|;
    forall k | 0 <= k < |t|
      ensures t[k] == u[k]
    {
      if k <= j {
      } else if k <= i {
      } else {
      }
    }
  }

  lemma ShiftingEnd(s: seq<Camp>, j: int, i: nat)
    requires -1 <= j < i < |s|
    ensures Shifting(s, j, i)[j + 1 := s[i]] == Shifted(s, j + 1, i)
  {
    var t, u := Shifting(s, j, i)[j + 1 := s[i]], Shifted(s, j + 1, i);
    assert |t| == |u|;
    forall k | 0 <= k < |t|
      ensures t[k] == u[k]
    {
      if k <= j {
      } else if k <= i {
      } else {
      }
    }
  }

  /** The body of `insertionSort`'s outer loop: `a[i]` is moved down past the
      run of predecessors that are `>` it, which shift up by one. The ghost
      result is where it lands. */
  method InsertAt(a: array<Camp>, i: int, ghost s: seq<Camp>) returns (ghost lo: nat)
    requires 1 <= i < a.Length && a[..] == s
    modifies a
    ensures lo <= i && a[..] == Shifted(s, lo, i)
    ensures forall k | lo <= k < i :: Less(s[i], s[k])
    ensures lo > 0 ==> !Less(s[i], s[lo - 1])
    ensures !Less(s[i], s[i - 1]) ==> lo == i
  {
    var key := a[i];
    var j := i - 1;
    ShiftingStart(s, i);
    while j >= 0 && Greater(a[j], key)
      invariant -1 <= j < i
      invariant a[..] == Shifting(s, j, i)
      invariant forall k | j + 1 <= k < i :: Less(key, s[k])
    {
      assert a[j] == s[j];
      assert Greater(a[j], key) <==> Less(key, a[j]) by {
        DerivedOperators(a[j], key);
      }
      ShiftingStep(s, j, i);
      a[j + 1] := a[j];
      j := j - 1;
    }
    if j >= 0 {
      assert a[j] == s[j];
      assert Greater(a[j], key) <==> Less(key, a[j]) by {
        DerivedOperators(a[j], key);
      }
    }
    ShiftingEnd(s, j, i);
    a[j + 1] := key;
    lo := j + 1;
  }

  /** Outside the window `[left, right]` every element is in its final place:
      nothing is `<` an element before `left`, and no element after `right`
      is `<` anything before it. */
  ghost predicate Settled(s: seq<Camp>, left: int, right: int)
  {
    forall p, q | 0 <= p < q < |s| && (p < left || right < q) :: !Less(s[q], s[p])
  }

  /** No adjacent pair of the window `[lo, hi]` is out of order. */
  ghost predicate Ascending(s: seq<Camp>, lo: int, hi: int)
  {
    forall k | lo <= k < hi && 0 <= k && k + 1 < |s| :: !Less(s[k + 1], s[k])
  }

  lemma SortedAscending(s: seq<Camp>, lo: int, hi: int)
    requires Sorted(s)
    ensures Ascending(s, lo, hi)
  {
  }

  /** A sorted window with everything outside it settled is a sorted whole. */
  lemma SettledSorted(s: seq<Camp>, left: int, right: int)
    requires Settled(s, left, right) && SortedWindow(s, left, right)
    ensures Sorted(s)
  {
  }

  /** Swapping two neighbours inside the window permutes and keeps the
      outside settled. */
  lemma SwapAdjacent(s: seq<Camp>, left: int, right: int, i: int)
    requires 0 <= left <= i < right < |s|
    requires Settled(s, left, right)
    ensures Settled(s[i := s[i + 1]][i + 1 := s[i]], left, right)
    ensures multiset(s[i := s[i + 1]][i + 1 := s[i]]) == multiset(s)
  {
    var t := s[i := s[i + 1]][i + 1 := s[i]];
    forall p, q | 0 <= p < q < |t| && (p < left || right < q)
      ensures !Less(t[q], t[p])
    {
      var p' := if p == i then i + 1 else if p == i + 1 then i else p;
      var q' := if q == i then i + 1 else if q == i + 1 then i else q;
      assert t[p] == s[p'] && t[q] == s[q'];
    }
  }

  /** A maximum of the window at its right end joins the settled part. */
  lemma ForwardSettles(s: seq<Camp>, left: int, right: int)
    requires 0 <= left <= right + 1 < |s|
    requires Settled(s, left, right + 1)
    requires MaxAt(s, left, right + 1)
    ensures Settled(s, left, right)
  {
  }

  /** A minimum of the window at its left end joins the settled part. */
  lemma BackwardSettles(s: seq<Camp>, left: int, right: int)
    requires 0 <= left <= right < |s|
    requires Settled(s, left, right)
    requires MinAt(s, left, right)
    ensures Settled(s, left + 1, right)
  {
  }

  /** `shakerSort`: alternate a forward pass, which carries a maximum of the
      window `[left, right]` to `right`, and a backward pass, which carries a
      minimum to `left`, shrinking the window after each; stop after a pass
      that swaps nothing. On an empty vector `right` starts at -1. */
  method ShakerSort(a: array<Camp>)
    modifies a
    ensures Sorted(a[..])
    ensures multiset(a[..]) == old(multiset(a[..]))
    ensures old(Sorted(a[..])) ==> a[..] == old(a[..])
  {
    ghost var wasSorted := Sorted(a[..]);
    var left := 0;
    var right := a.Length - 1;
    var swapped: bool;
    while true
      invariant 0 <= left <= right + 1 <= a.Length
      invariant Settled(a[..], left, right)
      invariant multiset(a[..]) == old(multiset(a[..]))
      invariant wasSorted ==> left == 0 && right == a.Length - 1 && a[..] == old(a[..])
      decreases right - left + 1
    {
      if wasSorted {
        SortedAscending(a[..], left, right);
      }
      swapped := ForwardPass(a, left, right);
      if !swapped {
        SettledSorted(a[..], left, right);
        break;
      }
      right := right - 1;
      ForwardSettles(a[..], left, right);
      swapped := BackwardPass(a, left, right);
      BackwardSettles(a[..], left, right);
      left := left + 1;
      if !swapped {
        SettledSorted(a[..], left, right);
        break;
      }
    }
  }

  /** `t` and `s` agree outside the window `[left, right]`. */
  ghost predicate SameOutside(t: seq<Camp>, s: seq<Camp>, left: int, right: int)
  {
    |t| == |s| && forall k | 0 <= k < |t| && (k < left || right < k) :: t[k] == s[k]
  }

  /** `t` is a rearrangement of `s`. */
  ghost predicate Permutes(t: seq<Camp>, s: seq<Camp>)
  {
    multiset(t) == multiset(s)
  }

  /** `s` with the neighbours at `i` and `i + 1` exchanged. */
  ghost function Swap(s: seq<Camp>, i: nat): seq<Camp>
    requires i + 1 < |s|
  {
    s[i := s[i + 1]][i + 1 := s[i]]
  }

  /** `s[i]` is a maximum of the window `[lo, i]`. */
  ghost predicate MaxAt(s: seq<Camp>, lo: int, i: nat)
    requires i < |s|
  {
    forall k | lo <= k <= i && 0 <= k :: !Less(s[i], s[k])
  }

  /** `s[i]` is a minimum of the window `[i, hi]`. */
  ghost predicate MinAt(s: seq<Camp>, i: nat, hi: int)
    requires i < |s|
  {
    forall k | i <= k <= hi && k < |s| :: !Less(s[k], s[i])
  }

  /** What the forward pass keeps after its first `i - left` comparisons,
      starting from `s`: the outside stays settled, the contents are
      permuted, `t[i]` is the running maximum, the part passed is sorted
      and unchanged when nothing was swapped, and a swap happened only at a
      descent of `s`. */
  ghost predicate ForwardInvariant(t: seq<Camp>, s: seq<Camp>, left: int, right: int, i: int,
                                   swapped: bool)
  {
    && 0 <= left <= i && (left <= right ==> i <= right) && left <= right + 1 && right < |t| == |s|
    && Settled(t, left, right)
    && Permutes(t, s) && SameOutside(t, s, left, right)
    && (left <= right ==> MaxAt(t, left, i))
    && (swapped ==> left < right)
    && (!swapped ==> SortedWindow(t, left, i))
    && (!swapped ==> t == s)
    && (swapped ==> !Ascending(s, left, right))
  }

  /** A forward swap carries the running maximum one place on. */
  lemma ForwardSwap(t: seq<Camp>, s: seq<Camp>, left: int, right: int, i: int, swapped: bool)
    requires ForwardInvariant(t, s, left, right, i, swapped)
    requires i < right && Less(t[i + 1], t[i])
    ensures ForwardInvariant(Swap(t, i), s, left, right, i + 1, true)
  {
    SwapAdjacent(t, left, right, i);
    LessAsymmetric(t[i], t[i + 1]);
    var u := Swap(t, i);
    forall k | left <= k <= i + 1
      ensures !Less(u[i + 1], u[k])
    {
      if k < i {
        assert u[k] == t[k];
      }
    }
  }

  /** Without a swap the next element is the running maximum, and the sorted
      part grows. */
  lemma ForwardKeep(t: seq<Camp>, s: seq<Camp>, left: int, right: int, i: int, swapped: bool)
    requires ForwardInvariant(t, s, left, right, i, swapped)
    requires i < right && !Less(t[i + 1], t[i])
    ensures ForwardInvariant(t, s, left, right, i + 1, swapped)
  {
    forall k | left <= k <= i
      ensures !Less(t[i + 1], t[k])
    {
      NotLessTransitive(t[k], t[i], t[i + 1]);
    }
    LessIrreflexive(t[i + 1]);
  }

  /** What the backward pass keeps once it has come down to `i`: the outside
      stays settled, the contents are permuted, `t[i]` is the running minimum
      and the part passed is sorted when nothing was swapped. */
  ghost predicate BackwardInvariant(t: seq<Camp>, s: seq<Camp>, left: int, right: int, i: int,
                                    swapped: bool)
  {
    && 0 <= left <= right + 1 && right < |t| == |s|
    && (left <= right ==> left <= i <= right) && (right < left ==> i == right)
    && Settled(t, left, right)
    && Permutes(t, s) && SameOutside(t, s, left, right)
    && (left <= right ==> MinAt(t, i, right))
    && (!swapped ==> SortedWindow(t, i, right))
  }

  /** A backward swap carries the running minimum one place back. */
  lemma BackwardSwap(t: seq<Camp>, s: seq<Camp>, left: int, right: int, i: int, swapped: bool)
    requires BackwardInvariant(t, s, left, right, i, swapped)
    requires left < i && Less(t[i], t[i - 1])
    ensures BackwardInvariant(Swap(t, i - 1), s, left, right, i - 1, true)
  {
    SwapAdjacent(t, left, right, i - 1);
    LessAsymmetric(t[i], t[i - 1]);
    var u := Swap(t, i - 1);
    forall k | i - 1 <= k <= right
      ensures !Less(u[k], u[i - 1])
    {
      if k > i {
        assert u[k] == t[k];
      }
    }
  }

  /** Without a swap the previous element is the running minimum, and the
      sorted part grows. */
  lemma BackwardKeep(t: seq<Camp>, s: seq<Camp>, left: int, right: int, i: int, swapped: bool)
    requires BackwardInvariant(t, s, left, right, i, swapped)
    requires left < i && !Less(t[i], t[i - 1])
    ensures BackwardInvariant(t, s, left, right, i - 1, swapped)
  {
    forall k | i <= k <= right
      ensures !Less(t[k], t[i - 1])
    {
      NotLessTransitive(t[i - 1], t[i], t[k]);
    }
    LessIrreflexive(t[i - 1]);
  }

  lemma ForwardStart(s: seq<Camp>, left: int, right: int)
    requires 0 <= left <= right + 1 <= |s| && Settled(s, left, right)
    ensures ForwardInvariant(s, s, left, right, left, false)
  {
    if left <= right {
      LessIrreflexive(s[left]);
    }
  }

  lemma BackwardStart(s: seq<Camp>, left: int, right: int)
    requires 0 <= left <= right + 1 <= |s| && Settled(s, left, right)
    ensures BackwardInvariant(s, s, left, right, right, false)
  {
    if left <= right {
      LessIrreflexive(s[right]);
    }
  }

  /** One comparison of the forward pass, either way it goes. */
  lemma ForwardStep(t: seq<Camp>, s: seq<Camp>, left: int, right: int, i: int, swapped: bool)
    requires ForwardInvariant(t, s, left, right, i, swapped) && i < right
    ensures Less(t[i + 1], t[i]) ==> ForwardInvariant(Swap(t, i), s, left, right, i + 1, true)
    ensures !Less(t[i + 1], t[i]) ==> ForwardInvariant(t, s, left, right, i + 1, swapped)
  {
    if Less(t[i + 1], t[i]) {
      ForwardSwap(t, s, left, right, i, swapped);
    } else {
      ForwardKeep(t, s, left, right, i, swapped);
    }
  }

  /** One comparison of the backward pass, either way it goes. */
  lemma BackwardStep(t: seq<Camp>, s: seq<Camp>, left: int, right: int, i: int, swapped: bool)
    requires BackwardInvariant(t, s, left, right, i, swapped) && left < i
    ensures Less(t[i], t[i - 1]) ==> BackwardInvariant(Swap(t, i - 1), s, left, right, i - 1, true)
    ensures !Less(t[i], t[i - 1]) ==> BackwardInvariant(t, s, left, right, i - 1, swapped)
  {
    if Less(t[i], t[i - 1]) {
      BackwardSwap(t, s, left, right, i, swapped);
    } else {
      BackwardKeep(t, s, left, right, i, swapped);
    }
  }

  /** The forward pass of `shakerSort`: swap each neighbour pair of the
      window that is `>`, left to right. */
  method ForwardPass(a: array<Camp>, left: int, right: int) returns (swapped: bool)
    requires 0 <= left <= right + 1 <= a.Length
    requires Settled(a[..], left, right)
    modifies a
    ensures SameOutside(a[..], old(a[..]), left, right)
    ensures Settled(a[..], left, right)
    ensures Permutes(a[..], old(a[..]))
    ensures left <= right ==> MaxAt(a[..], left, right)
    ensures swapped ==> left < right
    ensures !swapped ==> SortedWindow(a[..], left, right)
    ensures !swapped ==> a[..] == old(a[..])
    ensures swapped ==> !Ascending(old(a[..]), left, right)
  {
    ghost var s := old(a[..]);
    swapped := false;
    var i := left;
    ForwardStart(s, left, right);
    ghost var t := s;
    while i < right
      invariant a[..] == t
      invariant ForwardInvariant(t, s, left, right, i, swapped)
    {
      assert Greater(a[i], a[i + 1]) <==> Less(a[i + 1], a[i]) by {
        DerivedOperators(a[i], a[i + 1]);
      }
      ForwardStep(t, s, left, right, i, swapped);
      if Greater(a[i], a[i + 1]) {
        a[i], a[i + 1] := a[i + 1], a[i];
        t := Swap(t, i);
        swapped := true;
      }
      i := i + 1;
    }
  }

  /** The backward pass of `shakerSort`: swap each neighbour pair of the
      window that is `>`, right to left. */
  method BackwardPass(a: array<Camp>, left: int, right: int) returns (swapped: bool)
    requires 0 <= left <= right + 1 <= a.Length
    requires Settled(a[..], left, right)
    modifies a
    ensures SameOutside(a[..], old(a[..]), left, right)
    ensures Settled(a[..], left, right)
    ensures Permutes(a[..], old(a[..]))
    ensures left <= right ==> MinAt(a[..], left, right)
    ensures !swapped ==> SortedWindow(a[..], left, right)
  {
    ghost var s := old(a[..]);
    swapped := false;
    var i := right;
    BackwardStart(s, left, right);
    ghost var t := s;
    while i > left
      invariant a[..] == t
      invariant BackwardInvariant(t, s, left, right, i, swapped)
    {
      assert Greater(a[i - 1], a[i]) <==> Less(a[i], a[i - 1]) by {
        DerivedOperators(a[i - 1], a[i]);
      }
      BackwardStep(t, s, left, right, i, swapped);
      if Greater(a[i - 1], a[i]) {
        a[i - 1], a[i] := a[i], a[i - 1];
        t := Swap(t, i - 1);
        swapped := true;
      }
      i := i - 1;
    }
  }
}
