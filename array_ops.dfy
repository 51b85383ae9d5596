/**
  The collection operations the reducers call on `IdentifiedArray` (and on Swift's `Array`),
  stated as functions on sequences: `filter` and `removeAll(where:)`, `remove(atOffsets:)`,
  `move(fromOffsets:toOffset:)` and `sort()`. Their code lives in libraries that are not part of
  this model; each function here is the behaviour those libraries document, with the
  properties the reducers rely on proved about it.
*/
module ArrayOps {

  // ---------------------------------------------------------------------------------------
  // filter / removeAll(where:)
  // ---------------------------------------------------------------------------------------

  /** The elements of `s` that satisfy `p`, in their order in `s`.
      `removeAll(where: q)` is `Filter(s, x => !q(x))`. */
  function Filter<T>(s: seq<T>, p: T -> bool): (r: seq<T>)
    ensures |r| <= |s|
    ensures forall x :: x in r ==> x in s && p(x)
    ensures forall x :: x in s && p(x) ==> x in r
    ensures multiset(r) <= multiset(s)
  {
    if |s| == 0 then []
    else
      assert s == [s[0]] + s[1..];
      (if p(s[0]) then [s[0]] else []) + Filter(s[1..], p)
  }

  lemma ConcatAssociative<T>(a: seq<T>, b: seq<T>, c: seq<T>)
    ensures a + (b + c) == (a + b) + c
  {
  }

  /** One step of `Filter`: the head is kept exactly when it satisfies `p`. */
  lemma FilterHead<T>(s: seq<T>, p: T -> bool)
    requires |s| != 0
    ensures p(s[0]) ==> Filter(s, p) == [s[0]] + Filter(s[1..], p)
    ensures !p(s[0]) ==> Filter(s, p) == Filter(s[1..], p)
  {
  }

  /** Filtering distributes over concatenation: the filter keeps the relative order. */
  lemma {:induction false} FilterConcat<T>(a: seq<T>, b: seq<T>, p: T -> bool)
    ensures Filter(a + b, p) == Filter(a, p) + Filter(b, p)
  {
    if |a| == 0 {
      assert a + b == b;
    } else {
      assert (a + b)[1..] == a[1..] + b;
      FilterConcat(a[1..], b, p);
    }
  }

  /** An element that passes the filter lands at the position given by the number of elements
      before it that pass too; so the filter is an order-preserving subsequence. */
  lemma FilterAt<T>(s: seq<T>, p: T -> bool, i: nat)
    requires i < |s| && p(s[i])
    ensures |Filter(s[..i], p)| < |Filter(s, p)|
    ensures Filter(s, p)[|Filter(s[..i], p)|] == s[i]
  {
    assert s == s[..i] + ([s[i]] + s[i + 1..]);
    FilterConcat(s[..i], [s[i]] + s[i + 1..], p);
    FilterConcat([s[i]], s[i + 1..], p);
    assert Filter([s[i]], p) == [s[i]] by {
      assert [s[i]][1..] == [];
    }
  }

  /** The filter leaves `s` as it is exactly when every element passes. */
  lemma {:induction false} FilterUnchanged<T>(s: seq<T>, p: T -> bool)
    ensures Filter(s, p) == s <==> forall x :: x in s ==> p(x)
  {
    if |s| != 0 {
      FilterUnchanged(s[1..], p);
      assert s == [s[0]] + s[1..];
      if !p(s[0]) {
        assert s[0] !in Filter(s, p);
      }
    }
  }

  /** Filtering twice with the same predicate is filtering once. */
  lemma FilterIdempotent<T>(s: seq<T>, p: T -> bool)
    ensures Filter(Filter(s, p), p) == Filter(s, p)
  {
    FilterUnchanged(Filter(s, p), p);
  }

  /** Two complementary filters split `s` into two parts that together hold every element. */
  lemma {:induction false} FilterPartition<T>(s: seq<T>, p: T -> bool, q: T -> bool)
    requires forall x :: q(x) == !p(x)
    ensures multiset(Filter(s, p)) + multiset(Filter(s, q)) == multiset(s)
    ensures |Filter(s, p)| + |Filter(s, q)| == |s|
  {
    if |s| != 0 {
      FilterPartition(s[1..], p, q);
      assert s == [s[0]] + s[1..];
    }
  }

  // ---------------------------------------------------------------------------------------
  // Selecting by position: the building block of remove(atOffsets:) and move(fromOffsets:toOffset:)
  // ---------------------------------------------------------------------------------------

  /** The elements of `s[lo..hi]`, in order, whose position is among `offsets` (when `chosen`)
      or is not (when `!chosen`). */
  function Pick<T>(s: seq<T>, lo: nat, hi: nat, offsets: set<nat>, chosen: bool): (r: seq<T>)
    requires lo <= hi <= |s|
    ensures |r| <= hi - lo
    decreases hi - lo
  {
    if lo == hi then []
    else (if (lo in offsets) == chosen then [s[lo]] else []) + Pick(s, lo + 1, hi, offsets, chosen)
  }

  lemma {:induction false} PickSplit<T>(s: seq<T>, lo: nat, mid: nat, hi: nat, offsets: set<nat>, chosen: bool)
    requires lo <= mid <= hi <= |s|
    ensures Pick(s, lo, hi, offsets, chosen) == Pick(s, lo, mid, offsets, chosen) + Pick(s, mid, hi, offsets, chosen)
    decreases mid - lo
  {
    if lo < mid {
      PickSplit(s, lo + 1, mid, hi, offsets, chosen);
    }
  }

  /** The chosen and the unchosen positions of `s[lo..hi]` together hold every element once. */
  lemma {:induction false} PickPartition<T>(s: seq<T>, lo: nat, hi: nat, offsets: set<nat>)
    requires lo <= hi <= |s|
    ensures multiset(Pick(s, lo, hi, offsets, true)) + multiset(Pick(s, lo, hi, offsets, false)) == multiset(s[lo..hi])
    ensures |Pick(s, lo, hi, offsets, true)| + |Pick(s, lo, hi, offsets, false)| == hi - lo
    decreases hi - lo
  {
    if lo < hi {
      PickPartition(s, lo + 1, hi, offsets);
      assert s[lo..hi] == [s[lo]] + s[lo + 1..hi];
    }
  }

  /** As many elements are chosen as there are offsets inside `[lo, hi)`. */
  lemma {:induction false} PickChosenCount<T>(s: seq<T>, lo: nat, hi: nat, offsets: set<nat>)
    requires lo <= hi <= |s|
    ensures |Pick(s, lo, hi, offsets, true)| == |set o | o in offsets && lo <= o < hi|
    decreases hi - lo
  {
    var inside := set o | o in offsets && lo <= o < hi;
    if lo == hi {
      assert inside == {};
    } else {
      PickChosenCount(s, lo + 1, hi, offsets);
      var rest := set o | o in offsets && lo + 1 <= o < hi;
      if lo in offsets {
        assert inside == {lo} + rest;
      } else {
        assert inside == rest;
      }
    }
  }

  /** A selected position `i` lands at the number of selected positions before it. */
  lemma PickAt<T>(s: seq<T>, lo: nat, hi: nat, offsets: set<nat>, chosen: bool, i: nat)
    requires lo <= i < hi <= |s| && (i in offsets) == chosen
    ensures |Pick(s, lo, i, offsets, chosen)| < |Pick(s, lo, hi, offsets, chosen)|
    ensures Pick(s, lo, hi, offsets, chosen)[|Pick(s, lo, i, offsets, chosen)|] == s[i]
  {
    PickSplit(s, lo, i, hi, offsets, chosen);
  }

  /** Every element of a selection comes from a selected position, the one whose count of
      selected predecessors is its index. */
  lemma {:induction false} PickFrom<T>(s: seq<T>, lo: nat, hi: nat, offsets: set<nat>, chosen: bool, k: nat)
    requires lo <= hi <= |s| && k < |Pick(s, lo, hi, offsets, chosen)|
    ensures exists i :: lo <= i < hi && (i in offsets) == chosen
                        && |Pick(s, lo, i, offsets, chosen)| == k && Pick(s, lo, hi, offsets, chosen)[k] == s[i]
    decreases hi - lo
  {
    var here := (lo in offsets) == chosen;
    if here && k == 0 {
      assert |Pick(s, lo, lo, offsets, chosen)| == 0;
    } else {
      var k' := if here then k - 1 else k;
      PickFrom(s, lo + 1, hi, offsets, chosen, k');
      var i :| lo + 1 <= i < hi && (i in offsets) == chosen
               && |Pick(s, lo + 1, i, offsets, chosen)| == k' && Pick(s, lo + 1, hi, offsets, chosen)[k'] == s[i];
      assert |Pick(s, lo, i, offsets, chosen)| == k;
    }
  }

  // ---------------------------------------------------------------------------------------
  // remove(atOffsets:)
  // ---------------------------------------------------------------------------------------

  /** `remove(atOffsets:)`: drop the elements at the given positions, keep the others in order.
      Swift traps on an offset outside the collection, hence the precondition. */
  function RemoveAtOffsets<T>(s: seq<T>, offsets: set<nat>): (r: seq<T>)
    requires forall o :: o in offsets ==> o < |s|
    ensures |r| == |s| - |offsets|
    ensures multiset(r) <= multiset(s)
  {
    PickPartition(s, 0, |s|, offsets);
    PickChosenCount(s, 0, |s|, offsets);
    assert (set o | o in offsets && 0 <= o < |s|) == offsets;
    assert s[0..|s|] == s;
    Pick(s, 0, |s|, offsets, false)
  }

  /** What `remove(atOffsets:)` keeps and where: each position not among the offsets lands at
      the number of kept positions before it, and every element of the result is such a one. */
  lemma RemoveAtOffsetsKeeps<T>(s: seq<T>, offsets: set<nat>)
    requires forall o :: o in offsets ==> o < |s|
    ensures forall i :: 0 <= i < |s| && i !in offsets ==>
              |Pick(s, 0, i, offsets, false)| < |RemoveAtOffsets(s, offsets)|
              && RemoveAtOffsets(s, offsets)[|Pick(s, 0, i, offsets, false)|] == s[i]
    ensures forall k :: 0 <= k < |RemoveAtOffsets(s, offsets)| ==>
              exists i :: 0 <= i < |s| && i !in offsets && RemoveAtOffsets(s, offsets)[k] == s[i]
  {
    forall i | 0 <= i < |s| && i !in offsets
      ensures |Pick(s, 0, i, offsets, false)| < |RemoveAtOffsets(s, offsets)|
      ensures RemoveAtOffsets(s, offsets)[|Pick(s, 0, i, offsets, false)|] == s[i]
    {
      PickAt(s, 0, |s|, offsets, false, i);
    }
    forall k | 0 <= k < |RemoveAtOffsets(s, offsets)|
      ensures exists i :: 0 <= i < |s| && i !in offsets && RemoveAtOffsets(s, offsets)[k] == s[i]
    {
      PickFrom(s, 0, |s|, offsets, false, k);
      var i :| 0 <= i < |s| && (i in offsets) == false
               && |Pick(s, 0, i, offsets, false)| == k && Pick(s, 0, |s|, offsets, false)[k] == s[i];
      assert RemoveAtOffsets(s, offsets)[k] == s[i];
    }
  }

  // ---------------------------------------------------------------------------------------
  // move(fromOffsets:toOffset:)
  // ---------------------------------------------------------------------------------------

  /** `move(fromOffsets:toOffset:)`: the elements at `offsets` are gathered, in their order, in
      front of the element at `destination`; the others keep their order around them. */
  function MoveOffsets<T>(s: seq<T>, offsets: set<nat>, destination: nat): (r: seq<T>)
    requires destination <= |s|
    ensures multiset(r) == multiset(s)
    ensures |r| == |s|
  {
    PickSplit(s, 0, destination, |s|, offsets, false);
    PickPartition(s, 0, |s|, offsets);
    assert s[0..|s|] == s;
    Pick(s, 0, destination, offsets, false) + Pick(s, 0, |s|, offsets, true) + Pick(s, destination, |s|, offsets, false)
  }

  /** The moved block stands, in its order, right after the kept elements before `destination`,
      and ends in front of the element that was at `destination`, unless that element is itself
      being moved. */
  lemma MovePlacesBefore<T>(s: seq<T>, offsets: set<nat>, destination: nat)
    requires destination < |s| && destination !in offsets
    ensures var at := |Pick(s, 0, destination, offsets, false)|;
            var moved := Pick(s, 0, |s|, offsets, true);
            var r := MoveOffsets(s, offsets, destination);
            && at + |moved| < |r|
            && r[at..at + |moved|] == moved
            && r[at + |moved|] == s[destination]
  {
    var before := Pick(s, 0, destination, offsets, false);
    var moved := Pick(s, 0, |s|, offsets, true);
    var after := Pick(s, destination, |s|, offsets, false);
    assert MoveOffsets(s, offsets, destination) == before + moved + after;
    assert (before + moved + after)[|before|..|before| + |moved|] == moved;
  }

  /** The documented reading of `move`: remove the elements at `offsets`, then insert them, in
      order, at `destination` less the number of removed elements that stood before it. */
  lemma MoveIsRemoveThenInsert<T>(s: seq<T>, offsets: set<nat>, destination: nat)
    requires destination <= |s|
    requires forall o :: o in offsets ==> o < |s|
    ensures var rest := RemoveAtOffsets(s, offsets);
            var at := destination - |set o | o in offsets && o < destination|;
            0 <= at <= |rest|
            && MoveOffsets(s, offsets, destination) == rest[..at] + Pick(s, 0, |s|, offsets, true) + rest[at..]
  {
    var rest := RemoveAtOffsets(s, offsets);
    PickSplit(s, 0, destination, |s|, offsets, false);
    PickPartition(s, 0, destination, offsets);
    PickChosenCount(s, 0, destination, offsets);
    assert (set o | o in offsets && 0 <= o < destination) == (set o | o in offsets && o < destination);
    var at := |Pick(s, 0, destination, offsets, false)|;
    assert rest[..at] == Pick(s, 0, destination, offsets, false);
    assert rest[at..] == Pick(s, destination, |s|, offsets, false);
  }

  /** Moving to the end of the collection appends the moved block, in its order, to what
      `remove(atOffsets:)` leaves. */
  lemma MoveToEnd<T>(s: seq<T>, offsets: set<nat>)
    requires forall o :: o in offsets ==> o < |s|
    ensures MoveOffsets(s, offsets, |s|) == RemoveAtOffsets(s, offsets) + Pick(s, 0, |s|, offsets, true)
  {
    assert Pick(s, |s|, |s|, offsets, false) == [];
  }

  /** Moving no element leaves the collection as it was. */
  lemma MoveNothing<T>(s: seq<T>, destination: nat)
    requires destination <= |s|
    ensures MoveOffsets(s, {}, destination) == s
  {
    PickPartition(s, 0, |s|, {});
    PickEverything(s, 0, destination);
    PickEverything(s, destination, |s|);
    assert s[0..|s|] == s;
    assert s[0..destination] + s[destination..|s|] == s;
  }

  lemma {:induction false} PickEverything<T>(s: seq<T>, lo: nat, hi: nat)
    requires lo <= hi <= |s|
    ensures Pick(s, lo, hi, {}, false) == s[lo..hi]
    decreases hi - lo
  {
    if lo < hi {
      PickEverything(s, lo + 1, hi);
      assert s[lo..hi] == [s[lo]] + s[lo + 1..hi];
    }
  }

  // ---------------------------------------------------------------------------------------
  // sort()
  // ---------------------------------------------------------------------------------------

  /** Insert `x` into `s` after the leading elements that are strictly less than `x`. */
  function Insert<T>(x: T, s: seq<T>, less: (T, T) -> bool): (r: seq<T>)
    ensures multiset(r) == multiset(s) + multiset{x}
  {
    if |s| == 0 then [x]
    else if less(s[0], x) then
      assert s == [s[0]] + s[1..];
      [s[0]] + Insert(x, s[1..], less)
    else [x] + s
  }

  /** One step of `Sort`: the head is inserted into the sorted tail. */
  lemma SortHead<T>(s: seq<T>, less: (T, T) -> bool)
    requires |s| != 0
    ensures Sort(s, less) == Insert(s[0], Sort(s[1..], less), less)
  {
  }

  /** `sort()` by `less`, as a stable insertion sort: elements that neither precedes keep their
      relative order. */
  function Sort<T>(s: seq<T>, less: (T, T) -> bool): (r: seq<T>)
    ensures multiset(r) == multiset(s)
    ensures |r| == |s|
  {
    if |s| == 0 then []
    else
      assert s == [s[0]] + s[1..];
      Insert(s[0], Sort(s[1..], less), less)
  }
}
