/** The collector: finalized slots kept in descending order of size, and a greedy selection of as few
    of them as possible. */
module Collecting {
  datatype CollectItem = CollectItem(sign: string, hash: string, size: int)

  predicate Descending(items: seq<CollectItem>) {
    forall i, j :: 0 <= i < j < |items| ==> items[i].size >= items[j].size
  }

  // ----- Selections ------------------------------------------------------

  /** The sum of the first `k` sizes. */
  function Prefix(items: seq<CollectItem>, k: nat): int
    requires k <= |items|
  {
    if k == 0 then 0 else Prefix(items, k - 1) + items[k - 1].size
  }

  /** A selection says of each item whether it is taken. */
  function Selected(items: seq<CollectItem>, taken: seq<bool>): int
    requires |items| == |taken|
  {
    if items == [] then 0
    else
      var n := |items| - 1;
      Selected(items[..n], taken[..n]) + if taken[n] then items[n].size else 0
  }

  function Count(taken: seq<bool>): (c: nat)
    ensures c <= |taken|
  {
    if taken == [] then 0
    else Count(taken[..|taken| - 1]) + if taken[|taken| - 1] then 1 else 0
  }

  /** Taking nothing gives nothing, and taking one more item gives its size more: that fixes the sum. */
  lemma {:induction false} SelectedOneMore(items: seq<CollectItem>, taken: seq<bool>, i: nat)
    requires |items| == |taken| && i < |items| && !taken[i]
    ensures Selected(items, taken[i := true]) == Selected(items, taken) + items[i].size
    ensures Count(taken[i := true]) == Count(taken) + 1
  {
    var n := |items| - 1;
    if i < n {
      assert taken[i := true][..n] == taken[..n][i := true];
      SelectedOneMore(items[..n], taken[..n], i);
    } else {
      assert taken[i := true][..n] == taken[..n];
    }
  }

  lemma {:induction false} SelectedNone(items: seq<CollectItem>, taken: seq<bool>)
    requires |items| == |taken| && forall i :: 0 <= i < |taken| ==> !taken[i]
    ensures Selected(items, taken) == 0 && Count(taken) == 0
  {
    if items != [] {
      SelectedNone(items[..|items| - 1], taken[..|taken| - 1]);
    }
  }

  /** The selection of the first `k` of `n` items. */
  function FirstOnes(n: nat, k: nat): (taken: seq<bool>)
    requires k <= n
    ensures |taken| == n && forall i :: 0 <= i < n ==> taken[i] == (i < k)
  {
    seq(n, i => i < k)
  }

  lemma {:induction false} PrefixIsSelected(items: seq<CollectItem>, k: nat)
    requires k <= |items|
    ensures Prefix(items, k) == Selected(items, FirstOnes(|items|, k)) && Count(FirstOnes(|items|, k)) == k
    decreases k
  {
    if k == 0 {
      SelectedNone(items, FirstOnes(|items|, 0));
    } else {
      PrefixIsSelected(items, k - 1);
      SelectedOneMore(items, FirstOnes(|items|, k - 1), k - 1);
      assert FirstOnes(|items|, k - 1)[k - 1 := true] == FirstOnes(|items|, k);
    }
  }

  lemma {:induction false} PrefixOfInit(items: seq<CollectItem>, n: nat, k: nat)
    requires k <= n <= |items|
    ensures Prefix(items[..n], k) == Prefix(items, k)
    decreases k
  {
    if k > 0 {
      PrefixOfInit(items, n, k - 1);
    }
  }

  /** In a descending list no selection of a given number of items beats the first ones. */
  lemma {:induction false} FirstOnesAreBest(items: seq<CollectItem>, taken: seq<bool>)
    requires |items| == |taken| && Descending(items)
    ensures Selected(items, taken) <= Prefix(items, Count(taken))
  {
    if items != [] {
      var n := |items| - 1;
      FirstOnesAreBest(items[..n], taken[..n]);
      PrefixOfInit(items, n, Count(taken[..n]));
    }
  }

  /** Where the greedy loop stops: at the first prefix that covers the request, or at the end. */
  ghost predicate GreedyStop(items: seq<CollectItem>, request: int, k: nat) {
    && k <= |items| && (k < |items| ==> Prefix(items, k) >= request)
    && forall i :: 0 <= i < k ==> Prefix(items, i) < request
  }

  /** The first `k` items are enough for the request. */
  predicate Covers(items: seq<CollectItem>, k: nat, request: int)
    requires k <= |items|
  {
    Selected(items, FirstOnes(|items|, k)) >= request
  }

  ghost predicate NothingCovers(items: seq<CollectItem>, request: int) {
    forall taken: seq<bool> :: |taken| == |items| ==> Selected(items, taken) < request
  }

  lemma NotEnoughBefore(items: seq<CollectItem>, request: int, k: nat, i: nat)
    requires GreedyStop(items, request, k) && i <= |items|
    ensures i < k ==> Prefix(items, i) < request
  {
  }

  /** No selection that covers the request takes fewer slots than the greedy one. */
  lemma GreedyIsMinimal(items: seq<CollectItem>, request: int, k: nat, taken: seq<bool>)
    requires Descending(items) && GreedyStop(items, request, k)
    requires |taken| == |items| && Selected(items, taken) >= request
    ensures k <= Count(taken) && Prefix(items, k) >= request
  {
    FirstOnesAreBest(items, taken);
    NotEnoughBefore(items, request, k, Count(taken));
  }

  /** The greedy selection falls short only when every selection does. */
  lemma ShortOnlyIfAllShort(items: seq<CollectItem>, request: int, k: nat, taken: seq<bool>)
    requires Descending(items) && GreedyStop(items, request, k) && Prefix(items, k) < request && |taken| == |items|
    ensures k == |items| && Selected(items, taken) < request
  {
    FirstOnesAreBest(items, taken);
  }

  /** `after` is `before` with one more item at position `at`. */
  predicate Inserted(before: seq<CollectItem>, after: seq<CollectItem>, at: nat, item: CollectItem) {
    at <= |before| && after == before[..at] + [item] + before[at..]
  }

  /** Position `at` is behind everything that is no smaller. */
  predicate LastOfItsSize(items: seq<CollectItem>, at: nat, item: CollectItem) {
    at <= |items| && (forall i :: 0 <= i < at ==> items[i].size >= item.size) && forall i :: at <= i < |items| ==> items[i].size < item.size
  }

  lemma InsertedMultiset(before: seq<CollectItem>, at: nat, item: CollectItem)
    requires at <= |before|
    ensures multiset(before[..at] + [item] + before[at..]) == multiset(before) + multiset{item}
  {
    assert before == before[..at] + before[at..];
  }

  lemma InsertedAt(before: seq<CollectItem>, after: seq<CollectItem>, at: nat, item: CollectItem, i: nat)
    requires Inserted(before, after, at, item) && i < |after|
    ensures |after| == |before| + 1 && after[i] == if i < at then before[i] else if i == at then item else before[i - 1]
  {
  }

  lemma InsertedDescending(before: seq<CollectItem>, after: seq<CollectItem>, at: nat, item: CollectItem)
    requires Descending(before) && Inserted(before, after, at, item)
    requires forall i :: 0 <= i < at ==> before[i].size >= item.size
    requires forall i :: at <= i < |before| ==> before[i].size < item.size
    ensures Descending(after) && multiset(after) == multiset(before) + multiset{item}
  {
    InsertedMultiset(before, at, item);
    forall i, j | 0 <= i < j < |after| ensures after[i].size >= after[j].size {
      InsertedAt(before, after, at, item, i);
      InsertedAt(before, after, at, item, j);
      hide Inserted;
    }
  }

  class Collector {
    const taskID: string
    var items: seq<CollectItem>

    ghost predicate Valid()
      reads this
    {
      Descending(items)
    }

    constructor (taskID: string)
      ensures Valid() && items == [] && this.taskID == taskID
    {
      this.taskID := taskID;
      items := [];
    }

    /** The last position whose size is at least the given one; -1 when all are smaller. */
    method BinarySearch(size: int) returns (index: int)
      requires Valid()
      ensures -1 <= index < |items|
      ensures forall i :: 0 <= i <= index ==> items[i].size >= size
      ensures forall i :: index < i < |items| ==> items[i].size < size
    {
      var left, right := 0, |items| - 1;
      index := -1;
      while left <= right
        invariant 0 <= left <= |items| && -1 <= right < |items| && index == left - 1 && left <= right + 1
        invariant forall i :: 0 <= i < left ==> items[i].size >= size
        invariant forall i :: right < i < |items| ==> items[i].size < size
      {
        var mid := (left + right) / 2;
        if items[mid].size >= size {
          index := mid;
          left := mid + 1;
        } else {
          right := mid - 1;
        }
      }
    }

    /** A slot of another task is reported and kept all the same. */
    method ProcessSlotUpdate(slot: CollectItem)
      requires Valid()
      modifies this
      ensures Valid() && multiset(items) == multiset(old(items)) + multiset{slot}
      ensures exists at: nat :: Inserted(old(items), items, at, slot) && LastOfItsSize(old(items), at, slot)
    {
      ghost var before := items;
      var index := BinarySearch(slot.size);
      if index == -1 {
        items := [slot] + items;
      } else {
        items := items[..index + 1] + ([slot] + items[index + 1..]);
      }
      assert Inserted(before, items, index + 1, slot);
      InsertedDescending(before, items, index + 1, slot);
    }

    /** The slots to collect for a request: the fewest that cover it, or all when none do. */
    method ProcessCollect(sign: string, size: int) returns (slotList: seq<CollectItem>, err: bool)
      requires Valid()
      ensures err <==> sign != taskID
      ensures !err ==> |slotList| <= |items| && slotList == items[..|slotList|] && GreedyStop(items, size, |slotList|)
      ensures !err ==> Covers(items, |slotList|, size) || (slotList == items && NothingCovers(items, size))
      ensures !err ==> forall taken: seq<bool> :: |taken| == |items| && Selected(items, taken) >= size ==>
        |slotList| <= Count(taken) && Covers(items, |slotList|, size)
    {
      slotList := [];
      if sign != taskID {
        return [], true;
      }
      err := false;
      var remain := size;
      var i := 0;
      while i < |items|
        invariant 0 <= i <= |items| && slotList == items[..i] && remain == size - Prefix(items, i)
        invariant forall j :: 0 <= j < i ==> Prefix(items, j) < size
      {
        if remain > 0 {
          remain := remain - items[i].size;
          slotList := slotList + [items[i]];
        } else {
          break;
        }
        i := i + 1;
      }
      forall taken: seq<bool> | |taken| == |items| && Selected(items, taken) >= size
        ensures |slotList| <= Count(taken) && Prefix(items, |slotList|) >= size
      {
        GreedyIsMinimal(items, size, |slotList|, taken);
      }
      PrefixIsSelected(items, |slotList|);
      assert items[..|items|] == items;
      if Prefix(items, |slotList|) < size {
        forall taken: seq<bool> | |taken| == |items| ensures Selected(items, taken) < size {
          ShortOnlyIfAllShort(items, size, |slotList|, taken);
        }
      }
    }
  }
}
