/**
  The indexed min-heap that orders one cache shard's entries by the moment
  they may be dropped.  Ties are broken by hash, so the order is total.
 */
module CacheQueue {
  import opened Wrappers

  type Hash = nat

  type Time = int

  datatype Item = Item(hash: Hash, removeAfter: Time)

  predicate Before(a: Item, b: Item) {
    a.removeAfter < b.removeAfter || (a.removeAfter == b.removeAfter && a.hash < b.hash)
  }

  lemma BeforeIsAsymmetric(a: Item, b: Item)
    ensures !(Before(a, b) && Before(b, a))
  {
  }

  function Parent(i: nat): (p: nat)
    requires i > 0
    ensures p < i
  {
    (i - 1) / 2
  }

  /** indices is the inverse of the positions in items. */
  ghost predicate Indexed(items: seq<Item>, indices: map<Hash, nat>) {
    && (forall i | 0 <= i < |items| :: items[i].hash in indices && indices[items[i].hash] == i)
    && (forall h | h in indices :: indices[h] < |items| && items[indices[h]].hash == h)
  }

  ghost predicate ParentFirst(items: seq<Item>, j: nat)
    requires 0 < j < |items|
  {
    !Before(items[j], items[Parent(j)])
  }

  ghost predicate HeapOrdered(items: seq<Item>) {
    forall j | 0 < j < |items| :: ParentFirst(items, j)
  }

  /** The children of a misplaced position still follow its parent. */
  ghost predicate BridgedAt(items: seq<Item>, index: nat)
    requires index < |items|
  {
    index > 0 ==>
      forall j | 0 < j < |items| && Parent(j) == index :: !Before(items[j], items[Parent(index)])
  }

  /** Ordered but for index, which may precede its parent. */
  ghost predicate OrderedAbove(items: seq<Item>, index: nat) {
    && index < |items| && BridgedAt(items, index)
    && forall j | 0 < j < |items| && j != index :: ParentFirst(items, j)
  }

  /** Ordered but for index, which may follow its children. */
  ghost predicate OrderedBelow(items: seq<Item>, index: nat) {
    && index < |items| && BridgedAt(items, index)
    && forall j | 0 < j < |items| && Parent(j) != index :: ParentFirst(items, j)
  }

  function Swapped(items: seq<Item>, i: nat, j: nat): (r: seq<Item>)
    requires i < |items| && j < |items|
    ensures |r| == |items|
  {
    items[i := items[j]][j := items[i]]
  }

  lemma SwapUp(items: seq<Item>, index: nat)
    requires 0 < index && OrderedAbove(items, index) && Before(items[index], items[Parent(index)])
    ensures OrderedAbove(Swapped(items, index, Parent(index)), Parent(index))
  {
    var p := Parent(index);
    var r := Swapped(items, index, p);
    forall j | 0 < j < |r| && j != p ensures ParentFirst(r, j) {
      assert j != index ==> ParentFirst(items, j);
      assert p > 0 ==> ParentFirst(items, p);
    }
    if p > 0 {
      forall j | 0 < j < |r| && Parent(j) == p ensures !Before(r[j], r[Parent(p)]) {
        assert ParentFirst(items, p);
        assert j != index ==> ParentFirst(items, j);
      }
    }
  }

  lemma SwapDown(items: seq<Item>, index: nat, child: nat)
    requires OrderedBelow(items, index) && 0 < child < |items| && Parent(child) == index
    requires forall j | 0 < j < |items| && Parent(j) == index :: !Before(items[j], items[child])
    requires Before(items[child], items[index])
    ensures OrderedBelow(Swapped(items, index, child), child)
  {
    var r := Swapped(items, index, child);
    forall j | 0 < j < |r| && Parent(j) != child ensures ParentFirst(r, j) {
      assert Parent(j) != index ==> ParentFirst(items, j);
    }
    forall j | 0 < j < |r| && Parent(j) == child ensures !Before(r[j], r[Parent(child)]) {
      assert ParentFirst(items, j);
    }
  }

  /** Nothing in an ordered heap precedes its root. */
  lemma {:induction false} RootIsFirst(items: seq<Item>, i: nat)
    requires HeapOrdered(items) && i < |items|
    ensures !Before(items[i], items[0])
  {
    if i > 0 {
      assert ParentFirst(items, i);
      RootIsFirst(items, Parent(i));
    }
  }

  /** Moving the last item into a hole leaves it misplaced in one direction at most. */
  lemma Refilled(before: seq<Item>, after: seq<Item>, index: nat)
    requires HeapOrdered(before) && index < |before| - 1
    requires after == before[index := before[|before| - 1]][..|before| - 1]
    ensures if index > 0 && Before(after[index], after[Parent(index)])
            then OrderedAbove(after, index) else OrderedBelow(after, index)
  {
    assert forall j | 0 < j < |before| :: ParentFirst(before, j);
    forall j | 0 < j < |after| && j != index && Parent(j) != index ensures ParentFirst(after, j) {
      assert ParentFirst(before, j);
    }
    if index > 0 {
      assert ParentFirst(before, index);
      forall j | 0 < j < |after| && Parent(j) == index ensures !Before(after[j], after[Parent(index)]) {
        assert ParentFirst(before, j);
      }
    }
    if index > 0 && Before(after[index], after[Parent(index)]) {
      forall j | 0 < j < |after| && j != index ensures ParentFirst(after, j) {
        if Parent(j) == index {
          assert !Before(after[j], after[Parent(index)]);
        }
      }
    }
  }

  /** Giving one item another key misplaces it in one direction at most. */
  lemma Rekeyed(items: seq<Item>, index: nat, item: Item)
    requires HeapOrdered(items) && index < |items| && item.hash == items[index].hash
    ensures if item.removeAfter < items[index].removeAfter
            then OrderedAbove(items[index := item], index) else OrderedBelow(items[index := item], index)
  {
    var after := items[index := item];
    forall j | 0 < j < |items|
      ensures j != index && Parent(j) != index ==> ParentFirst(after, j)
      ensures Parent(j) == index && item.removeAfter < items[index].removeAfter ==> ParentFirst(after, j)
      ensures j == index && item.removeAfter >= items[index].removeAfter ==> ParentFirst(after, j)
      ensures index > 0 && Parent(j) == index ==> !Before(after[j], after[Parent(index)])
    {
      assert ParentFirst(items, j);
      assert index > 0 ==> ParentFirst(items, index);
    }
  }

  lemma Appended(items: seq<Item>, item: Item)
    requires HeapOrdered(items)
    ensures OrderedAbove(items + [item], |items|)
  {
    forall j | 0 < j < |items| ensures ParentFirst(items + [item], j) {
      assert ParentFirst(items, j);
    }
  }

  lemma Truncated(items: seq<Item>)
    requires HeapOrdered(items) && items != []
    ensures HeapOrdered(items[..|items| - 1])
  {
    var shorter := items[..|items| - 1];
    forall j | 0 < j < |shorter| ensures ParentFirst(shorter, j) {
      assert ParentFirst(items, j);
    }
  }

  /** What a queue holds, and until when. */
  function ContentsOf(items: seq<Item>, indices: map<Hash, nat>): map<Hash, Time>
    requires forall h | h in indices :: indices[h] < |items|
  {
    map h | h in indices :: items[indices[h]].removeAfter
  }

  lemma RekeyedContents(items: seq<Item>, indices: map<Hash, nat>, hash: Hash, removeAfter: Time)
    requires Indexed(items, indices) && hash in indices
    ensures var after := items[indices[hash] := Item(hash, removeAfter)];
            Indexed(after, indices) && ContentsOf(after, indices) == ContentsOf(items, indices)[hash := removeAfter]
  {
  }

  lemma AppendedContents(items: seq<Item>, indices: map<Hash, nat>, hash: Hash, removeAfter: Time)
    requires Indexed(items, indices) && hash !in indices
    ensures var after, places := items + [Item(hash, removeAfter)], indices[hash := |items|];
            Indexed(after, places) && ContentsOf(after, places) == ContentsOf(items, indices)[hash := removeAfter]
  {
  }

  lemma TruncatedContents(items: seq<Item>, indices: map<Hash, nat>, hash: Hash)
    requires Indexed(items, indices) && hash in indices && indices[hash] == |items| - 1
    ensures var after, places := items[..|items| - 1], indices - {hash};
            Indexed(after, places) && ContentsOf(after, places) == ContentsOf(items, indices) - {hash}
  {
  }

  lemma RefilledContents(items: seq<Item>, indices: map<Hash, nat>, hash: Hash)
    requires Indexed(items, indices) && hash in indices && indices[hash] < |items| - 1
    ensures var index, last := indices[hash], |items| - 1;
            var after, places := items[index := items[last]][..last], (indices - {hash})[items[last].hash := index];
            Indexed(after, places) && ContentsOf(after, places) == ContentsOf(items, indices) - {hash}
  {
  }

  class ExpiryQueue {
    var items: seq<Item>
    var indices: map<Hash, nat>

    ghost predicate Valid()
      reads this
    {
      Indexed(items, indices) && HeapOrdered(items)
    }

    function Contents(): map<Hash, Time>
      requires forall h | h in indices :: indices[h] < |items|
      reads this
    {
      ContentsOf(items, indices)
    }

    constructor ()
      ensures Valid() && Contents() == map[]
    {
      items, indices := [], map[];
    }

    method Swap(i: nat, j: nat)
      requires Indexed(items, indices) && i < |items| && j < |items|
      modifies this
      ensures Indexed(items, indices) && items == Swapped(old(items), i, j)
      ensures Contents() == old(Contents())
    {
      var a, b := items[i], items[j];
      items := items[i := b][j := a];
      indices := indices[items[i].hash := i];
      indices := indices[items[j].hash := j];
    }

    method Up(start: nat)
      requires Indexed(items, indices) && OrderedAbove(items, start)
      modifies this
      ensures Valid() && Contents() == old(Contents())
    {
      var index: nat := start;
      while index > 0
        invariant Indexed(items, indices) && OrderedAbove(items, index)
        invariant Contents() == old(Contents())
      {
        var parent := (index - 1) / 2;
        if !Before(items[index], items[parent]) {
          assert ParentFirst(items, index);
          return;
        }
        SwapUp(items, index);
        Swap(index, parent);
        index := parent;
      }
    }

    method Down(start: nat)
      requires Indexed(items, indices) && OrderedBelow(items, start)
      modifies this
      ensures Valid() && Contents() == old(Contents())
    {
      var index: nat := start;
      while true
        invariant Indexed(items, indices) && OrderedBelow(items, index)
        invariant Contents() == old(Contents()) && |items| == |old(items)|
        decreases |items| - index
      {
        var left := index * 2 + 1;
        if left >= |items| {
          return;
        }
        var smallest := left;
        var right := left + 1;
        if right < |items| && Before(items[right], items[left]) {
          smallest := right;
        }
        assert forall j | 0 < j < |items| && Parent(j) == index :: j == left || j == right;
        if !Before(items[smallest], items[index]) {
          return;
        }
        SwapDown(items, index, smallest);
        Swap(index, smallest);
        index := smallest;
      }
    }

    /** Queues hash, or moves it if it is queued already. */
    method Set(hash: Hash, removeAfter: Time)
      requires Valid()
      modifies this
      ensures Valid() && Contents() == old(Contents())[hash := removeAfter]
    {
      if hash in indices {
        var index := indices[hash];
        var previous := items[index].removeAfter;
        RekeyedContents(items, indices, hash, removeAfter);
        Rekeyed(items, index, Item(hash, removeAfter));
        items := items[index := Item(hash, removeAfter)];
        if removeAfter < previous {
          Up(index);
        } else {
          Down(index);
        }
        return;
      }
      AppendedContents(items, indices, hash, removeAfter);
      Appended(items, Item(hash, removeAfter));
      items := items + [Item(hash, removeAfter)];
      var index := |items| - 1;
      indices := indices[hash := index];
      Up(index);
    }

    method Peek() returns (item: Option<Item>)
      requires Valid()
      ensures item.None? <==> Contents() == map[]
      ensures item.Some? ==>
                && item.value.hash in Contents() && Contents()[item.value.hash] == item.value.removeAfter
                && forall h | h in Contents() :: !Before(Item(h, Contents()[h]), item.value)
    {
      if |items| == 0 {
        return None;
      }
      assert items[0].hash in Contents();
      forall h | h in Contents() ensures !Before(Item(h, Contents()[h]), items[0]) {
        RootIsFirst(items, indices[h]);
      }
      return Some(items[0]);
    }

    /** Takes out the first item of all. */
    method Pop() returns (item: Option<Item>)
      requires Valid()
      modifies this
      ensures Valid()
      ensures item.None? <==> old(Contents()) == map[]
      ensures item.None? ==> Contents() == old(Contents())
      ensures item.Some? ==>
                && item.value.hash in old(Contents()) && old(Contents())[item.value.hash] == item.value.removeAfter
                && (forall h | h in old(Contents()) :: !Before(Item(h, old(Contents())[h]), item.value))
                && Contents() == old(Contents()) - {item.value.hash}
    {
      item := Peek();
      if item.Some? {
        var _ := Remove(item.value.hash);
      }
    }

    method Remove(hash: Hash) returns (removed: bool)
      requires Valid()
      modifies this
      ensures Valid() && Contents() == old(Contents()) - {hash}
      ensures removed <==> hash in old(Contents())
    {
      if hash !in indices {
        return false;
      }
      var index := indices[hash];
      var last := |items| - 1;
      if index == last {
        TruncatedContents(items, indices, hash);
        Truncated(items);
        indices := indices - {hash};
        items := items[..last];
        return true;
      }
      RefilledContents(items, indices, hash);
      indices := indices - {hash};
      items := items[index := items[last]];
      items := items[..last];
      indices := indices[items[index].hash := index];
      Refilled(old(items), items, index);
      if index > 0 && Before(items[index], items[(index - 1) / 2]) {
        Up(index);
      } else {
        Down(index);
      }
      return true;
    }
  }
}
