/** The result lists of the ALPM backend: `my_list_mmerge`, the two-way merge
    that combines per-database search results, the constant comparator
    `list_cmp_fn` it is always called with, and `my_list_remove_node`, the
    unlinking of one node of a doubly-linked list.

    A list is modelled as a sequence for merging; for node removal the links
    themselves are modelled as a map from node references to nodes, and a
    representation predicate ties such a map to the sequence it stands for. */
module AlpmList {
  import opened Common

  // ---------------------------------------------------------------------
  // Merge

  /** The merge of `left` and `right` under comparator `cmp`: whenever both
      are non-empty the head with `cmp(l, r) <= 0` goes first, so ties are
      taken from the left. */
  function Merge<T>(left: seq<T>, right: seq<T>, cmp: (T, T) -> int): (r: seq<T>)
    ensures |r| == |left| + |right|
    ensures |left| == 0 ==> r == right
    ensures |right| == 0 ==> r == left
    decreases |left| + |right|
  {
    if |left| == 0 then right
    else if |right| == 0 then left
    else if cmp(left[0], right[0]) <= 0 then
      assert left == [left[0]] + left[1..];
      [left[0]] + Merge(left[1..], right, cmp)
    else
      assert right == [right[0]] + right[1..];
      [right[0]] + Merge(left, right[1..], cmp)
  }

  /** The merge is a permutation of its two inputs together. */
  lemma {:induction false} MergePermutes<T>(left: seq<T>, right: seq<T>, cmp: (T, T) -> int)
    ensures multiset(Merge(left, right, cmp)) == multiset(left) + multiset(right)
    decreases |left| + |right|
  {
    if |left| == 0 || |right| == 0 {
    } else if cmp(left[0], right[0]) <= 0 {
      var rest := Merge(left[1..], right, cmp);
      assert Merge(left, right, cmp) == [left[0]] + rest by {
        MergeTakesLeft(left, right, cmp);
      }
      MergePermutes(left[1..], right, cmp);
      MultisetHead(left);
      MultisetHead([left[0]] + rest);
    } else {
      var rest := Merge(left, right[1..], cmp);
      assert Merge(left, right, cmp) == [right[0]] + rest by {
        MergeTakesRight(left, right, cmp);
      }
      MergePermutes(left, right[1..], cmp);
      MultisetHead(right);
      MultisetHead([right[0]] + rest);
    }
  }

  /** The relinking loop of `my_list_mmerge`: the two empty-input shortcuts,
      the choice of the new head, the loop that appends the smaller head
      while both lists last, and the final splice of whichever list is left
      over. It produces exactly the merge. */
  method MergeLists<T>(left: seq<T>, right: seq<T>, cmp: (T, T) -> int) returns (r: seq<T>)
    ensures r == Merge(left, right, cmp)
  {
    if |left| == 0 && |right| == 0 {
      return [];
    }
    if |left| == 0 {
      return right;
    }
    if |right| == 0 {
      return left;
    }
    var l, rt := left, right;
    if cmp(l[0], rt[0]) <= 0 {
      MergeTakesLeft(l, rt, cmp);
      r := [l[0]];
      l := l[1..];
    } else {
      MergeTakesRight(l, rt, cmp);
      r := [rt[0]];
      rt := rt[1..];
    }
    while |l| > 0 && |rt| > 0
      invariant r + Merge(l, rt, cmp) == Merge(left, right, cmp)
      decreases |l| + |rt|
    {
      if cmp(l[0], rt[0]) <= 0 {
        AppendTakesLeft(r, l, rt, cmp);
        r := r + [l[0]];
        l := l[1..];
      } else {
        AppendTakesRight(r, l, rt, cmp);
        r := r + [rt[0]];
        rt := rt[1..];
      }
    }
    if |l| > 0 {
      r := r + l;
    } else if |rt| > 0 {
      r := r + rt;
    }
  }

  /** A merge step of `MergeLists` with the output so far in front: the
      left head moves to the output. */
  lemma AppendTakesLeft<T>(r: seq<T>, l: seq<T>, rt: seq<T>, cmp: (T, T) -> int)
    requires |l| > 0 && |rt| > 0 && cmp(l[0], rt[0]) <= 0
    ensures r + Merge(l, rt, cmp) == (r + [l[0]]) + Merge(l[1..], rt, cmp)
  {
    MergeTakesLeft(l, rt, cmp);
    var m := Merge(l[1..], rt, cmp);
    assert r + ([l[0]] + m) == (r + [l[0]]) + m;
  }

  /** A merge step of `MergeLists` with the output so far in front: the
      right head moves to the output. */
  lemma AppendTakesRight<T>(r: seq<T>, l: seq<T>, rt: seq<T>, cmp: (T, T) -> int)
    requires |l| > 0 && |rt| > 0 && cmp(l[0], rt[0]) > 0
    ensures r + Merge(l, rt, cmp) == (r + [rt[0]]) + Merge(l, rt[1..], cmp)
  {
    MergeTakesRight(l, rt, cmp);
    var m := Merge(l, rt[1..], cmp);
    assert r + ([rt[0]] + m) == (r + [rt[0]]) + m;
  }

  /** `list_cmp_fn`: every pair of elements compares equal. */
  function ListCmp<T>(a: T, b: T): int
  {
    0
  }

  /** A comparator that never puts the right head first merges by plain
      concatenation. */
  lemma {:induction false} MergeLeftFirstIsConcat<T>(left: seq<T>, right: seq<T>, cmp: (T, T) -> int)
    requires forall a, b :: cmp(a, b) <= 0
    ensures Merge(left, right, cmp) == left + right
    decreases |left|
  {
    if |left| == 0 || |right| == 0 {
    } else {
      MergeLeftFirstIsConcat(left[1..], right, cmp);
      assert left + right == [left[0]] + (left[1..] + right);
    }
  }

  /** Under `list_cmp_fn` the merge is exactly `left + right`, which is how
      the search concatenates per-database results in database order. */
  lemma MergeListCmpIsConcat<T>(left: seq<T>, right: seq<T>)
    ensures Merge(left, right, ListCmp) == left + right
  {
    MergeLeftFirstIsConcat(left, right, ListCmp);
  }

  /** Merging each list of `lists` in turn onto `acc`, as a caller folds
      per-database results into one list. */
  function MergeAll<T>(acc: seq<T>, lists: seq<seq<T>>, cmp: (T, T) -> int): seq<T>
    decreases |lists|
  {
    if |lists| == 0 then acc else MergeAll(Merge(acc, lists[0], cmp), lists[1..], cmp)
  }

  /** The lists of `lists`, one after the other. */
  function Concat<T>(lists: seq<seq<T>>): seq<T>
  {
    if |lists| == 0 then [] else lists[0] + Concat(lists[1..])
  }

  /** Folding under `list_cmp_fn` appends the lists in order. */
  lemma {:induction false} MergeAllListCmpIsConcat<T>(acc: seq<T>, lists: seq<seq<T>>)
    ensures MergeAll(acc, lists, ListCmp) == acc + Concat(lists)
    decreases |lists|
  {
    if |lists| > 0 {
      MergeListCmpIsConcat(acc, lists[0]);
      MergeAllListCmpIsConcat(acc + lists[0], lists[1..]);
      assert acc + lists[0] + Concat(lists[1..]) == acc + (lists[0] + Concat(lists[1..]));
    }
  }

  /** `cmp <= 0` is total and transitive, so it orders elements. */
  ghost predicate TotalPreorder<T(!new)>(cmp: (T, T) -> int) {
    && (forall a, b :: cmp(a, b) <= 0 || cmp(b, a) <= 0)
    && (forall a, b, c :: cmp(a, b) <= 0 && cmp(b, c) <= 0 ==> cmp(a, c) <= 0)
  }

  /** Every element is `<= 0`-related to every later element. */
  ghost predicate Sorted<T>(s: seq<T>, cmp: (T, T) -> int) {
    forall i, j :: 0 <= i < j < |s| ==> cmp(s[i], s[j]) <= 0
  }

  /** An element below every element of a sorted list can lead it. */
  lemma SortedCons<T>(x: T, s: seq<T>, cmp: (T, T) -> int)
    requires Sorted(s, cmp)
    requires forall y :: y in s ==> cmp(x, y) <= 0
    ensures Sorted([x] + s, cmp)
  {
    var t := [x] + s;
    forall i, j | 0 <= i < j < |t|
      ensures cmp(t[i], t[j]) <= 0
    {
      if i == 0 {
        assert t[j] == s[j - 1] && t[j] in s;
      } else {
        assert t[i] == s[i - 1] && t[j] == s[j - 1];
      }
    }
  }

  /** The head of a sorted list is below all its elements. */
  lemma SortedHeadBelow<T(!new)>(s: seq<T>, cmp: (T, T) -> int, y: T)
    requires TotalPreorder(cmp) && Sorted(s, cmp) && |s| > 0 && y in s
    ensures cmp(s[0], y) <= 0
  {
    var k :| 0 <= k < |s| && s[k] == y;
    if k == 0 {
      assert cmp(y, y) <= 0 || cmp(y, y) <= 0;
    }
  }

  /** Merging two sorted lists gives a sorted list. */
  lemma {:induction false} MergeSorted<T(!new)>(left: seq<T>, right: seq<T>, cmp: (T, T) -> int)
    requires TotalPreorder(cmp)
    requires Sorted(left, cmp) && Sorted(right, cmp)
    ensures Sorted(Merge(left, right, cmp), cmp)
    decreases |left| + |right|
  {
    if |left| == 0 || |right| == 0 {
    } else if cmp(left[0], right[0]) <= 0 {
      var x := left[0];
      var rest := Merge(left[1..], right, cmp);
      MergeSorted(left[1..], right, cmp);
      MergePermutes(left[1..], right, cmp);
      forall y | y in rest
        ensures cmp(x, y) <= 0
      {
        assert y in multiset(rest);
        if y in left[1..] {
          SortedHeadBelow(left, cmp, y);
        } else {
          SortedHeadBelow(right, cmp, y);
        }
      }
      SortedCons(x, rest, cmp);
    } else {
      var x := right[0];
      var rest := Merge(left, right[1..], cmp);
      MergeSorted(left, right[1..], cmp);
      MergePermutes(left, right[1..], cmp);
      forall y | y in rest
        ensures cmp(x, y) <= 0
      {
        assert y in multiset(rest);
        if y in left {
          SortedHeadBelow(left, cmp, y);
        } else {
          SortedHeadBelow(right, cmp, y);
        }
      }
      SortedCons(x, rest, cmp);
    }
  }

  /** For each element of `Merge(left, right, cmp)`, whether it was taken
      from `left` (true) or from `right` (false). */
  function Origins<T>(left: seq<T>, right: seq<T>, cmp: (T, T) -> int): (m: seq<bool>)
    ensures |m| == |left| + |right|
    decreases |left| + |right|
  {
    if |left| == 0 then seq(|right|, _ => false)
    else if |right| == 0 then seq(|left|, _ => true)
    else if cmp(left[0], right[0]) <= 0 then [true] + Origins(left[1..], right, cmp)
    else [false] + Origins(left, right[1..], cmp)
  }

  /** The elements of `s` at the positions where `m` holds `b`, in order. */
  function Pick<T>(s: seq<T>, m: seq<bool>, b: bool): (r: seq<T>)
    requires |s| == |m|
  {
    if |s| == 0 then []
    else (if m[0] == b then [s[0]] else []) + Pick(s[1..], m[1..], b)
  }

  /** Picking from a constant mask takes everything or nothing. */
  lemma {:induction false} PickConstant<T>(s: seq<T>, c: bool, b: bool)
    ensures Pick(s, seq(|s|, _ => c), b) == if c == b then s else []
  {
    if |s| > 0 {
      assert seq(|s|, _ => c)[1..] == seq(|s| - 1, _ => c);
      PickConstant(s[1..], c, b);
      assert s == [s[0]] + s[1..];
    }
  }

  /** Picking from a list with one more element in front. */
  lemma PickCons<T>(x: T, s: seq<T>, c: bool, m: seq<bool>, b: bool)
    requires |s| == |m|
    ensures Pick([x] + s, [c] + m, b) == (if c == b then [x] else []) + Pick(s, m, b)
  {
    assert ([x] + s)[1..] == s;
    assert ([c] + m)[1..] == m;
  }

  /** One step of the merge when the left head goes first. */
  lemma MergeTakesLeft<T>(left: seq<T>, right: seq<T>, cmp: (T, T) -> int)
    requires |left| > 0 && |right| > 0 && cmp(left[0], right[0]) <= 0
    ensures Merge(left, right, cmp) == [left[0]] + Merge(left[1..], right, cmp)
    ensures Origins(left, right, cmp) == [true] + Origins(left[1..], right, cmp)
  {
  }

  /** One step of the merge when the right head goes first. */
  lemma MergeTakesRight<T>(left: seq<T>, right: seq<T>, cmp: (T, T) -> int)
    requires |left| > 0 && |right| > 0 && cmp(left[0], right[0]) > 0
    ensures Merge(left, right, cmp) == [right[0]] + Merge(left, right[1..], cmp)
    ensures Origins(left, right, cmp) == [false] + Origins(left, right[1..], cmp)
  {
  }

  /** The merge interleaves its inputs: the elements it took from the left
      are exactly `left` in its order, those it took from the right exactly
      `right` in its order. */
  lemma {:induction false} MergeInterleaves<T>(left: seq<T>, right: seq<T>, cmp: (T, T) -> int)
    ensures Pick(Merge(left, right, cmp), Origins(left, right, cmp), true) == left
    ensures Pick(Merge(left, right, cmp), Origins(left, right, cmp), false) == right
    decreases |left| + |right|
  {
    if |left| == 0 {
      PickConstant(right, false, true);
      PickConstant(right, false, false);
    } else if |right| == 0 {
      PickConstant(left, true, true);
      PickConstant(left, true, false);
    } else if cmp(left[0], right[0]) <= 0 {
      MergeTakesLeft(left, right, cmp);
      MergeInterleaves(left[1..], right, cmp);
      PickCons(left[0], Merge(left[1..], right, cmp), true, Origins(left[1..], right, cmp), true);
      PickCons(left[0], Merge(left[1..], right, cmp), true, Origins(left[1..], right, cmp), false);
      assert left == [left[0]] + left[1..];
    } else {
      MergeTakesRight(left, right, cmp);
      MergeInterleaves(left, right[1..], cmp);
      PickCons(right[0], Merge(left, right[1..], cmp), false, Origins(left, right[1..], cmp), true);
      PickCons(right[0], Merge(left, right[1..], cmp), false, Origins(left, right[1..], cmp), false);
      assert right == [right[0]] + right[1..];
    }
  }

  /** Each output element comes from the input its origin names. */
  lemma {:induction false} MergeOrigins<T>(left: seq<T>, right: seq<T>, cmp: (T, T) -> int)
    ensures forall j :: 0 <= j < |left| + |right| && Origins(left, right, cmp)[j] ==> Merge(left, right, cmp)[j] in left
    ensures forall j :: 0 <= j < |left| + |right| && !Origins(left, right, cmp)[j] ==> Merge(left, right, cmp)[j] in right
    decreases |left| + |right|
  {
    if |left| == 0 || |right| == 0 {
    } else if cmp(left[0], right[0]) <= 0 {
      MergeTakesLeft(left, right, cmp);
      MergeOrigins(left[1..], right, cmp);
      forall j | 1 <= j < |left| + |right| && Origins(left, right, cmp)[j]
        ensures Merge(left, right, cmp)[j] in left
      {
        assert Merge(left, right, cmp)[j] in left[1..];
      }
    } else {
      MergeTakesRight(left, right, cmp);
      MergeOrigins(left, right[1..], cmp);
      forall j | 1 <= j < |left| + |right| && !Origins(left, right, cmp)[j]
        ensures Merge(left, right, cmp)[j] in right
      {
        assert Merge(left, right, cmp)[j] in right[1..];
      }
    }
  }

  /** A right element that precedes a left element in the merge compares
      strictly below it (the statement of `MergeStable` for one list). */
  ghost predicate RightBeforeLeftIsStrict<T>(r: seq<T>, m: seq<bool>, cmp: (T, T) -> int)
    requires |r| == |m|
  {
    forall i, j :: 0 <= i < j < |r| && !m[i] && m[j] ==> cmp(r[j], r[i]) > 0
  }

  /** Stability: an element of `right` precedes an element of `left` in the
      merge only when the left one compares strictly greater, so elements
      that compare equal keep left before right. */
  lemma {:induction false} MergeStable<T(!new)>(left: seq<T>, right: seq<T>, cmp: (T, T) -> int)
    requires TotalPreorder(cmp) && Sorted(left, cmp)
    ensures RightBeforeLeftIsStrict(Merge(left, right, cmp), Origins(left, right, cmp), cmp)
    decreases |left| + |right|
  {
    if |left| == 0 || |right| == 0 {
      var m := Origins(left, right, cmp);
      assert forall j :: 0 <= j < |m| ==> m[j] == (|right| == 0);
    } else if cmp(left[0], right[0]) <= 0 {
      assert Sorted(left[1..], cmp);
      MergeStable(left[1..], right, cmp);
      MergeStableLeftStep(left, right, cmp);
    } else {
      MergeStable(left, right[1..], cmp);
      LeftAboveRightHead(left, right[0], cmp);
      MergeStableRightStep(left, right, cmp);
    }
  }

  /** When the right head loses against the left head, it loses against
      every element of the sorted left list. */
  lemma LeftAboveRightHead<T(!new)>(left: seq<T>, y: T, cmp: (T, T) -> int)
    requires TotalPreorder(cmp) && Sorted(left, cmp)
    requires |left| > 0 && cmp(left[0], y) > 0
    ensures forall z :: z in left ==> cmp(z, y) > 0
  {
    forall z | z in left
      ensures cmp(z, y) > 0
    {
      SortedHeadBelow(left, cmp, z);
    }
  }

  /** `MergeStable` when the left head goes first. */
  lemma MergeStableLeftStep<T>(left: seq<T>, right: seq<T>, cmp: (T, T) -> int)
    requires |left| > 0 && |right| > 0 && cmp(left[0], right[0]) <= 0
    requires RightBeforeLeftIsStrict(Merge(left[1..], right, cmp), Origins(left[1..], right, cmp), cmp)
    ensures RightBeforeLeftIsStrict(Merge(left, right, cmp), Origins(left, right, cmp), cmp)
  {
    MergeTakesLeft(left, right, cmp);
    var r', m' := Merge(left[1..], right, cmp), Origins(left[1..], right, cmp);
    ShiftedStrict(left[0], r', true, m', cmp);
  }

  /** `MergeStable` when the right head goes first, given that it is
      strictly below every left element. */
  lemma MergeStableRightStep<T>(left: seq<T>, right: seq<T>, cmp: (T, T) -> int)
    requires |left| > 0 && |right| > 0 && cmp(left[0], right[0]) > 0
    requires forall z :: z in left ==> cmp(z, right[0]) > 0
    requires RightBeforeLeftIsStrict(Merge(left, right[1..], cmp), Origins(left, right[1..], cmp), cmp)
    ensures RightBeforeLeftIsStrict(Merge(left, right, cmp), Origins(left, right, cmp), cmp)
  {
    MergeTakesRight(left, right, cmp);
    MergeOrigins(left, right[1..], cmp);
    var r', m' := Merge(left, right[1..], cmp), Origins(left, right[1..], cmp);
    assert forall j :: 0 <= j < |r'| && m'[j] ==> cmp(r'[j], right[0]) > 0;
    ShiftedStrict(right[0], r', false, m', cmp);
  }

  /** Putting one element in front keeps `RightBeforeLeftIsStrict` when
      that element is from the left, or is from the right and strictly below
      every later left element. */
  lemma ShiftedStrict<T>(x: T, r': seq<T>, b: bool, m': seq<bool>, cmp: (T, T) -> int)
    requires |r'| == |m'|
    requires RightBeforeLeftIsStrict(r', m', cmp)
    requires !b ==> forall j :: 0 <= j < |r'| && m'[j] ==> cmp(r'[j], x) > 0
    ensures RightBeforeLeftIsStrict([x] + r', [b] + m', cmp)
  {
    var r, m := [x] + r', [b] + m';
    forall i, j | 0 <= i < j < |r| && !m[i] && m[j]
      ensures cmp(r[j], r[i]) > 0
    {
      assert m[j] == m'[j - 1] && r[j] == r'[j - 1];
      if i > 0 {
        assert m[i] == m'[i - 1] && r[i] == r'[i - 1];
      }
    }
  }

  // ---------------------------------------------------------------------
  // Node removal on a doubly-linked list

  /** A node reference, standing for an `alpm_list_t *`. */
  type Ref = nat

  /** One list node: its payload and its two links (NULL is None). */
  datatype Node<T> = Node(data: T, prev: Option<Ref>, next: Option<Ref>)

  /** The nodes reachable from the program, by reference. */
  type Heap<T> = map<Ref, Node<T>>

  /** `ids` lists, head first, a correctly doubly-linked list in `h`: the
      nodes are distinct, each `prev` points at the node before and each
      `next` at the node after, and the ends point at NULL. */
  ghost predicate Linked<T>(h: Heap<T>, ids: seq<Ref>) {
    && (forall k :: 0 <= k < |ids| ==> ids[k] in h)
    && (forall i, j :: 0 <= i < j < |ids| ==> ids[i] != ids[j])
    && (|ids| > 0 ==> h[ids[0]].prev == None && h[ids[|ids| - 1]].next == None)
    && (forall k :: 0 < k < |ids| ==> h[ids[k]].prev == Some(ids[k - 1]))
    && (forall k :: 0 <= k < |ids| - 1 ==> h[ids[k]].next == Some(ids[k + 1]))
  }

  /** The payloads along `ids`. */
  function Contents<T>(h: Heap<T>, ids: seq<Ref>): (xs: seq<T>)
    requires forall k :: 0 <= k < |ids| ==> ids[k] in h
    ensures |xs| == |ids|
    ensures forall k :: 0 <= k < |ids| ==> xs[k] == h[ids[k]].data
  {
    if |ids| == 0 then [] else [h[ids[0]].data] + Contents(h, ids[1..])
  }

  /** The links `my_list_remove_node` follows are present in the heap. */
  predicate CanUnlink<T>(h: Heap<T>, node: Option<Ref>) {
    node.Some? ==>
      && node.value in h
      && (h[node.value].prev.Some? ==> h[node.value].prev.value in h)
      && (h[node.value].next.Some? ==> h[node.value].next.value in h)
  }

  /** `my_list_remove_node`: a NULL node gives NULL and changes nothing;
      otherwise the previous node's `next` is pointed past the node, the next
      node's `prev` is pointed before it, the node's own `next` is cleared,
      and the next neighbour is returned if there is one, else the previous
      one, else NULL. */
  function RemoveNode<T>(h: Heap<T>, node: Option<Ref>): (res: (Heap<T>, Option<Ref>))
    requires CanUnlink(h, node)
    ensures node.None? ==> res == (h, None)
    ensures res.0.Keys == h.Keys
    ensures forall q :: q in h ==> res.0[q].data == h[q].data
    ensures node.Some? ==> res.1 == (if h[node.value].next.Some? then h[node.value].next else h[node.value].prev)
    ensures node.Some? ==> forall q :: q in h && Some(q) != node && Some(q) != h[node.value].prev && Some(q) != h[node.value].next ==> res.0[q] == h[q]
    ensures node.Some? && h[node.value].prev.Some? && h[node.value].prev != node ==>
              res.0[h[node.value].prev.value].next == h[node.value].next
    ensures node.Some? && h[node.value].next.Some? && h[node.value].next != node ==>
              res.0[h[node.value].next.value].prev == h[node.value].prev
  {
    if node.None? then (h, None)
    else
      var n := h[node.value];
      var h1 := if n.prev.Some? then h[n.prev.value := h[n.prev.value].(next := n.next)] else h;
      var ret1 := if n.prev.Some? then n.prev else None;
      if n.next.Some? then
        var h2 := h1[n.next.value := h1[n.next.value].(prev := n.prev)];
        (h2[node.value := h2[node.value].(next := None)], n.next)
      else (h1, ret1)
  }

  /** The links of a list node other than the removed one, after removal:
      only the neighbours of the removed node change, and only in the link
      that pointed at it. */
  lemma RemoveNodeAt<T>(h: Heap<T>, ids: seq<Ref>, k: nat, j: nat)
    requires Linked(h, ids) && k < |ids| && j < |ids| && j != k
    ensures CanUnlink(h, Some(ids[k]))
    ensures ids[j] in RemoveNode(h, Some(ids[k])).0
    ensures RemoveNode(h, Some(ids[k])).0[ids[j]].data == h[ids[j]].data
    ensures RemoveNode(h, Some(ids[k])).0[ids[j]].prev == if j == k + 1 then h[ids[k]].prev else h[ids[j]].prev
    ensures RemoveNode(h, Some(ids[k])).0[ids[j]].next == if j + 1 == k then h[ids[k]].next else h[ids[j]].next
  {
    var n := h[ids[k]];
    assert k > 0 ==> n.prev == Some(ids[k - 1]);
    assert k == 0 ==> n.prev == None;
    assert k < |ids| - 1 ==> n.next == Some(ids[k + 1]);
    assert k == |ids| - 1 ==> n.next == None;
    if j != k + 1 && j + 1 != k {
      assert Some(ids[j]) != n.prev && Some(ids[j]) != n.next && ids[j] != ids[k];
    } else if j == k + 1 {
      assert ids[j] != ids[k];
      if k > 0 {
        assert ids[k - 1] != ids[j];
      }
    } else {
      assert ids[j] != ids[k];
      if k + 1 < |ids| {
        assert ids[k + 1] != ids[j];
      }
    }
  }

  /** The sequence `ids` without its element at position `k`. */
  function Without<T>(ids: seq<T>, k: nat): (r: seq<T>)
    requires k < |ids|
    ensures |r| == |ids| - 1
    ensures forall i :: 0 <= i < |r| ==> r[i] == ids[if i < k then i else i + 1]
  {
    ids[..k] + ids[k + 1..]
  }

  /** The remaining nodes are still correctly linked after the removal. */
  lemma RemoveNodeKeepsLinked<T>(h: Heap<T>, ids: seq<Ref>, k: nat)
    requires Linked(h, ids) && k < |ids|
    ensures CanUnlink(h, Some(ids[k]))
    ensures Linked(RemoveNode(h, Some(ids[k])).0, Without(ids, k))
  {
    if |ids| > 1 {
      RemoveNodeAt(h, ids, k, if k == 0 then 1 else 0);
    } else {
      assert h[ids[k]].prev.None? && h[ids[k]].next.None?;
    }
    var h' := RemoveNode(h, Some(ids[k])).0;
    var ids' := Without(ids, k);
    forall i | 0 <= i < |ids'|
      ensures ids'[i] in h'
      ensures i > 0 ==> h'[ids'[i]].prev == Some(ids'[i - 1])
      ensures i < |ids'| - 1 ==> h'[ids'[i]].next == Some(ids'[i + 1])
    {
      RemoveNodeAt(h, ids, k, if i < k then i else i + 1);
    }
    if |ids'| > 0 {
      RemoveNodeAt(h, ids, k, if 0 < k then 0 else 1);
      RemoveNodeAt(h, ids, k, if |ids'| - 1 < k then |ids'| - 1 else |ids'|);
    }
    WithoutDistinct(ids, k);
  }

  /** Dropping one element of a list of distinct elements keeps them
      distinct. */
  lemma WithoutDistinct<T>(ids: seq<T>, k: nat)
    requires k < |ids|
    requires forall i, j :: 0 <= i < j < |ids| ==> ids[i] != ids[j]
    ensures forall i, j :: 0 <= i < j < |Without(ids, k)| ==> Without(ids, k)[i] != Without(ids, k)[j]
  {
    var ids' := Without(ids, k);
    forall i, j | 0 <= i < j < |ids'|
      ensures ids'[i] != ids'[j]
    {
      assert ids'[i] == ids[if i < k then i else i + 1];
      assert ids'[j] == ids[if j < k then j else j + 1];
    }
  }

  /** Every remaining node is still in the heap, with its payload. */
  lemma RemoveNodeKeepsData<T>(h: Heap<T>, ids: seq<Ref>, k: nat)
    requires Linked(h, ids) && k < |ids|
    ensures CanUnlink(h, Some(ids[k]))
    ensures forall i :: 0 <= i < |ids| - 1 ==>
      Without(ids, k)[i] in RemoveNode(h, Some(ids[k])).0 &&
      RemoveNode(h, Some(ids[k])).0[Without(ids, k)[i]].data == h[Without(ids, k)[i]].data
  {
    if |ids| > 1 {
      RemoveNodeAt(h, ids, k, if k == 0 then 1 else 0);
    } else {
      assert h[ids[k]].prev.None? && h[ids[k]].next.None?;
    }
    var h' := RemoveNode(h, Some(ids[k])).0;
    var ids' := Without(ids, k);
    forall i | 0 <= i < |ids'|
      ensures ids'[i] in h' && h'[ids'[i]].data == h[ids'[i]].data
    {
      RemoveNodeAt(h, ids, k, if i < k then i else i + 1);
    }
  }

  /** The remaining nodes still hold the remaining payloads, in order. */
  lemma RemoveNodeKeepsContents<T>(h: Heap<T>, ids: seq<Ref>, k: nat)
    requires Linked(h, ids) && k < |ids|
    ensures CanUnlink(h, Some(ids[k]))
    ensures forall i :: 0 <= i < |ids| - 1 ==> Without(ids, k)[i] in RemoveNode(h, Some(ids[k])).0
    ensures Contents(RemoveNode(h, Some(ids[k])).0, Without(ids, k)) == Without(Contents(h, ids), k)
  {
    RemoveNodeKeepsData(h, ids, k);
    var h' := RemoveNode(h, Some(ids[k])).0;
    var ids' := Without(ids, k);
    var before, after := Contents(h, ids), Contents(h', ids');
    var kept := Without(before, k);
    forall i | 0 <= i < |ids'|
      ensures after[i] == kept[i]
    {
      var src := if i < k then i else i + 1;
      assert ids'[i] == ids[src];
      assert kept[i] == before[src];
    }
    assert after == kept;
  }

  /** Removing the node at position `k` of a linked list leaves a linked list
      of the remaining nodes in their order, holding the remaining payloads,
      and returns the old next neighbour, else the old previous one. */
  lemma RemoveNodeRelinks<T>(h: Heap<T>, ids: seq<Ref>, k: nat)
    requires Linked(h, ids) && k < |ids|
    ensures CanUnlink(h, Some(ids[k]))
    ensures Linked(RemoveNode(h, Some(ids[k])).0, Without(ids, k))
    ensures Contents(RemoveNode(h, Some(ids[k])).0, Without(ids, k)) == Without(Contents(h, ids), k)
    ensures RemoveNode(h, Some(ids[k])).1 == (if k + 1 < |ids| then Some(ids[k + 1]) else if k > 0 then Some(ids[k - 1]) else None)
  {
    RemoveNodeKeepsLinked(h, ids, k);
    RemoveNodeKeepsContents(h, ids, k);
    assert k > 0 ==> h[ids[k]].prev == Some(ids[k - 1]);
    assert k == 0 ==> h[ids[k]].prev == None;
    assert k < |ids| - 1 ==> h[ids[k]].next == Some(ids[k + 1]);
    assert k == |ids| - 1 ==> h[ids[k]].next == None;
  }
}
