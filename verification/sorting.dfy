/**
 * The candidate edges of the spanning-tree computation and their sort by
 * weight: a merge of two arrays and a recursive merge sort.
 */
module Sorting {

  /** A candidate edge: its weight and the keys of its two endpoints. */
  datatype Cand<K> = Cand(weight: int, a: K, b: K)

  /** Weight-ascending. */
  ghost predicate Sorted<K>(s: seq<Cand<K>>) {
    forall i, j :: 0 <= i < j < |s| ==> s[i].weight <= s[j].weight
  }

  /**
   * The merge of two lists: the smaller front goes first, and on equal
   * weights the front of `right` goes first.
   */
  function Merged<K>(left: seq<Cand<K>>, right: seq<Cand<K>>): (r: seq<Cand<K>>)
    ensures |r| == |left| + |right|
    decreases |left| + |right|
  {
    if left == [] then right
    else if right == [] then left
    else if left[0].weight < right[0].weight then [left[0]] + Merged(left[1..], right)
    else [right[0]] + Merged(left, right[1..])
  }

  /** The merge holds exactly the items of both lists. */
  lemma {:induction false} MergedPermutes<K>(left: seq<Cand<K>>, right: seq<Cand<K>>)
    ensures multiset(Merged(left, right)) == multiset(left) + multiset(right)
    decreases |left| + |right|
  {
    if left != [] && right != [] {
      if left[0].weight < right[0].weight {
        MergedPermutes(left[1..], right);
        FrontSplit(left);
        FrontSplit(Merged(left, right));
      } else {
        MergedPermutes(left, right[1..]);
        FrontSplit(right);
        FrontSplit(Merged(left, right));
      }
    }
  }

  /** A non-empty list holds its front and the items of its tail. */
  lemma FrontSplit<T>(s: seq<T>)
    requires s != []
    ensures multiset(s) == multiset{s[0]} + multiset(s[1..])
  {
    assert s == [s[0]] + s[1..];
  }

  /** The first item of a merge is the front of one of the two lists. */
  lemma MergedFront<K>(left: seq<Cand<K>>, right: seq<Cand<K>>)
    requires left != [] || right != []
    ensures Merged(left, right)[0] == (if left == [] then right[0]
      else if right == [] then left[0]
      else if left[0].weight < right[0].weight then left[0] else right[0])
  {
  }

  /** A weight below every item of both lists is below every item of their merge. */
  lemma {:induction false} MergedBound<K>(left: seq<Cand<K>>, right: seq<Cand<K>>, w: int)
    requires forall i :: 0 <= i < |left| ==> w <= left[i].weight
    requires forall i :: 0 <= i < |right| ==> w <= right[i].weight
    ensures forall i :: 0 <= i < |Merged(left, right)| ==> w <= Merged(left, right)[i].weight
    decreases |left| + |right|
  {
    if left != [] && right != [] {
      if left[0].weight < right[0].weight {
        MergedBound(left[1..], right, w);
      } else {
        MergedBound(left, right[1..], w);
      }
    }
  }

  /** Merging two weight-ascending lists gives a weight-ascending list. */
  lemma {:induction false} MergedSorted<K>(left: seq<Cand<K>>, right: seq<Cand<K>>)
    requires Sorted(left) && Sorted(right)
    ensures Sorted(Merged(left, right))
    decreases |left| + |right|
  {
    if left != [] && right != [] {
      var h, t;
      if left[0].weight < right[0].weight {
        MergedSorted(left[1..], right);
        h, t := left[0], Merged(left[1..], right);
        MergedBound(left[1..], right, h.weight);
      } else {
        MergedSorted(left, right[1..]);
        h, t := right[0], Merged(left, right[1..]);
        MergedBound(left, right[1..], h.weight);
      }
      assert Merged(left, right) == [h] + t;
    }
  }

  /**
   * Ties go to the right: when both fronts have the same weight the merge
   * starts with the front of `right`, so the sort is not stable.
   */
  lemma MergedTie<K>(left: seq<Cand<K>>, right: seq<Cand<K>>)
    requires left != [] && right != [] && left[0].weight == right[0].weight
    ensures Merged(left, right)[0] == right[0]
    ensures Merged(left, right)[1..] == Merged(left, right[1..])
  {
  }

  /** The merge sort: lists shorter than two are returned as they are. */
  function SortedBy<K>(s: seq<Cand<K>>): (r: seq<Cand<K>>)
    ensures |r| == |s|
    decreases |s|
  {
    if |s| < 2 then s
    else Merged(SortedBy(s[..|s| / 2]), SortedBy(s[|s| / 2..]))
  }

  /** The merge sort returns a weight-ascending list... */
  lemma {:induction false} SortedBySorted<K>(s: seq<Cand<K>>)
    ensures Sorted(SortedBy(s))
    decreases |s|
  {
    if |s| >= 2 {
      var mid := |s| / 2;
      SortedBySorted(s[..mid]);
      SortedBySorted(s[mid..]);
      MergedSorted(SortedBy(s[..mid]), SortedBy(s[mid..]));
    }
  }

  /** ... holding exactly the items of its input. */
  lemma {:induction false} SortedByPermutes<K>(s: seq<Cand<K>>)
    ensures multiset(SortedBy(s)) == multiset(s)
    decreases |s|
  {
    if |s| >= 2 {
      var mid := |s| / 2;
      var front, back := s[..mid], s[mid..];
      SortedByPermutes(front);
      SortedByPermutes(back);
      MergedPermutes(SortedBy(front), SortedBy(back));
      assert SortedBy(s) == Merged(SortedBy(front), SortedBy(back));
      assert s == front + back;
      assert multiset(s) == multiset(front) + multiset(back);
    }
  }

  /** One step of the merge of the suffixes from `l` and `r`. */
  lemma MergedStep<K>(left: seq<Cand<K>>, right: seq<Cand<K>>, l: nat, r: nat)
    requires l <= |left| && r <= |right| && (l < |left| || r < |right|)
    ensures Merged(left[l..], right[r..]) ==
      if l == |left| then [right[r]] + Merged(left[l..], right[r + 1..])
      else if r == |right| then [left[l]] + Merged(left[l + 1..], right[r..])
      else if left[l].weight < right[r].weight then [left[l]] + Merged(left[l + 1..], right[r..])
      else [right[r]] + Merged(left[l..], right[r + 1..])
  {
    if l == |left| {
      assert right[r..] == [right[r]] + right[r + 1..];
    } else if r == |right| {
      assert left[l..] == [left[l]] + left[l + 1..];
    } else {
      assert left[l..][1..] == left[l + 1..];
      assert right[r..][1..] == right[r + 1..];
    }
  }

  /**
   * Merges two arrays into a fresh one, taking the smaller front each time
   * (the right one on equal weights), then the rest of whichever is left.
   */
  method Merge<K(0)>(left: array<Cand<K>>, right: array<Cand<K>>) returns (sorted: array<Cand<K>>)
    ensures fresh(sorted)
    ensures sorted[..] == Merged(left[..], right[..])
  {
    sorted := new Cand<K>[left.Length + right.Length];
    ghost var all := Merged(left[..], right[..]);
    var l, r, s := MergeFronts(left, right, sorted, all);
    MergedRest(left[..], right[..], l, r);
    if l < left.Length {
      s, l := Drain(left, l, sorted, s, all);
    }
    if r < right.Length {
      s, r := Drain(right, r, sorted, s, all);
    }
    assert sorted[..] == sorted[..s];
  }

  /**
   * The main loop of the merge: while both arrays have items left, writes
   * the smaller front (the right one on equal weights) to `sorted`.
   */
  method MergeFronts<K>(left: array<Cand<K>>, right: array<Cand<K>>, sorted: array<Cand<K>>, ghost all: seq<Cand<K>>)
    returns (l: nat, r: nat, s: nat)
    requires sorted != left && sorted != right
    requires sorted.Length == left.Length + right.Length && all == Merged(left[..], right[..])
    modifies sorted
    ensures l <= left.Length && r <= right.Length && s == l + r && (l == left.Length || r == right.Length)
    ensures sorted[..s] == all[..s] && Merged(left[l..], right[r..]) == all[s..]
  {
    l, r, s := 0, 0, 0;
    ghost var L, R := left[..], right[..];
    assert L[0..] == L && R[0..] == R;
    while l < left.Length && r < right.Length
      invariant l <= left.Length && r <= right.Length && s == l + r
      invariant sorted[..s] == all[..s] && Merged(L[l..], R[r..]) == all[s..]
      decreases left.Length + right.Length - s
    {
      if left[l].weight < right[r].weight {
        TakeLeft(L, R, l, r, all, s);
        sorted[s] := left[l];
        l := l + 1;
      } else {
        TakeRight(L, R, l, r, all, s);
        sorted[s] := right[r];
        r := r + 1;
      }
      s := s + 1;
    }
  }

  /** Where the merge of the suffixes stands at `s` of the whole merge and the left front is smaller, it comes next. */
  lemma TakeLeft<K>(left: seq<Cand<K>>, right: seq<Cand<K>>, l: nat, r: nat, all: seq<Cand<K>>, s: nat)
    requires l < |left| && r < |right| && s < |all| && Merged(left[l..], right[r..]) == all[s..]
    requires left[l].weight < right[r].weight
    ensures all[s] == left[l] && Merged(left[l + 1..], right[r..]) == all[s + 1..] && all[..s + 1] == all[..s] + [left[l]]
  {
    MergedStep(left, right, l, r);
    Advance(all, s, left[l], Merged(left[l + 1..], right[r..]));
  }

  /** Where the merge of the suffixes stands at `s` of the whole merge and the right front is no larger, it comes next. */
  lemma TakeRight<K>(left: seq<Cand<K>>, right: seq<Cand<K>>, l: nat, r: nat, all: seq<Cand<K>>, s: nat)
    requires l < |left| && r < |right| && s < |all| && Merged(left[l..], right[r..]) == all[s..]
    requires left[l].weight >= right[r].weight
    ensures all[s] == right[r] && Merged(left[l..], right[r + 1..]) == all[s + 1..] && all[..s + 1] == all[..s] + [right[r]]
  {
    MergedStep(left, right, l, r);
    Advance(all, s, right[r], Merged(left[l..], right[r + 1..]));
  }

  /** Once one side is used up, the merge of the suffixes is the rest of the other side. */
  lemma MergedRest<K>(left: seq<Cand<K>>, right: seq<Cand<K>>, l: nat, r: nat)
    requires l <= |left| && r <= |right| && (l == |left| || r == |right|)
    ensures Merged(left[l..], right[r..]) == left[l..] + right[r..]
  {
  }

  /**
   * Copies the items of `src` from index `i` on to `dst` from index `s` on,
   * where they complete the list `all`.
   */
  method Drain<T>(src: array<T>, i: nat, dst: array<T>, s: nat, ghost all: seq<T>) returns (s': nat, i': nat)
    requires i <= src.Length && s <= dst.Length && src != dst
    requires |all| == dst.Length == s + src.Length - i
    requires dst[..s] == all[..s] && src[i..] == all[s..]
    modifies dst
    ensures i' == src.Length && s' == dst.Length && dst[..] == all
  {
    s', i' := s, i;
    while i' < src.Length
      invariant i <= i' <= src.Length && s' == s + (i' - i)
      invariant dst[..s'] == all[..s'] && src[i'..] == all[s'..]
    {
      Advance(all, s', src[i'], src[i' + 1..]);
      dst[s'] := src[i'];
      s', i' := s' + 1, i' + 1;
    }
    assert dst[..] == dst[..s'];
  }

  /** The suffix of `all` from `s` starts with `x` and goes on with `rest`: the prefix grows by `x`. */
  lemma Advance<T>(all: seq<T>, s: nat, x: T, rest: seq<T>)
    requires s < |all| && all[s..] == [x] + rest
    ensures all[s] == x && all[s + 1..] == rest
    ensures all[..s + 1] == all[..s] + [x]
  {
    assert all[s..][0] == x;
    assert all[s + 1..] == all[s..][1..];
  }

  /** A fresh array holding the items of `src` from index `lo` up to `hi`. */
  method CopyRange<T(0)>(src: array<T>, lo: nat, hi: nat) returns (dst: array<T>)
    requires lo <= hi <= src.Length
    ensures fresh(dst) && dst[..] == src[lo..hi]
  {
    dst := new T[hi - lo];
    for i := lo to hi
      invariant dst[..i - lo] == src[lo..i]
    {
      dst[i - lo] := src[i];
    }
    assert dst[..] == dst[..hi - lo];
  }

  /**
   * Sorts by weight: an array shorter than two is returned itself; otherwise
   * both halves are copied out, sorted recursively and merged.
   */
  method Mergesort<K(0)>(elements: array<Cand<K>>) returns (res: array<Cand<K>>)
    ensures res[..] == SortedBy(elements[..])
    ensures elements.Length < 2 ==> res == elements
    decreases elements.Length
  {
    if elements.Length < 2 {
      return elements;
    }
    var mid := elements.Length / 2;
    var left := CopyRange(elements, 0, mid);
    var right := CopyRange(elements, mid, elements.Length);
    assert left[..] == elements[..][..mid];
    assert right[..] == elements[..][mid..];
    left := Mergesort(left);
    right := Mergesort(right);
    res := Merge(left, right);
  }
}
