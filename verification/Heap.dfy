/**
 The array heap of src/lib/lib_heap.c: sift loops that move a hole, in-place heap
 construction, and a capacity that doubles when full and halves when three quarters empty.
 */
module Heaps {

  const BASE_SIZE := 4

  function Parent(i: int): int { (i - 1) / 2 }

  /** Heap order among the elements whose parent is at `lo` or later. */
  ghost predicate OrderedFrom(s: seq<int>, lo: int) {
    forall i {:trigger Parent(i)} :: 1 <= i < |s| && Parent(i) >= lo ==> s[Parent(i)] >= s[i]
  }

  ghost predicate IsHeap(s: seq<int>) {
    OrderedFrom(s, 0)
  }

  /** In order except between `hole` and its parent, where the parent may be too small. */
  ghost predicate UpHole(s: seq<int>, hole: int) {
    && 0 <= hole < |s|
    && (forall i {:trigger Parent(i)} :: 1 <= i < |s| && i != hole ==> s[Parent(i)] >= s[i])
    && (forall i {:trigger Parent(i)} :: 1 <= i < |s| && Parent(i) == hole && hole > 0 ==> s[Parent(hole)] >= s[i])
  }

  /** In order from `lo` on except between `hole` and its children, which may be too big. */
  ghost predicate DownHole(s: seq<int>, lo: int, hole: int) {
    && 0 <= lo <= hole < |s|
    && (forall i {:trigger Parent(i)} :: 1 <= i < |s| && Parent(i) >= lo && Parent(i) != hole ==> s[Parent(i)] >= s[i])
    && (forall i {:trigger Parent(i)} :: 1 <= i < |s| && Parent(i) == hole && Parent(hole) >= lo && hole > 0 ==> s[Parent(hole)] >= s[i])
  }

  lemma SwapBag(s: seq<int>, i: int, j: int, v: int)
    requires 0 <= i < |s| && 0 <= j < |s| && i != j && s[i] == v
    ensures multiset(s[i := s[j]][j := v]) == multiset(s)
  {
  }

  /** Moving the parent down moves the hole up. */
  lemma {:induction false} UpStep(s: seq<int>, hole: int)
    requires UpHole(s, hole) && hole > 0 && s[Parent(hole)] < s[hole]
    ensures var p := Parent(hole);
            var u := Moved(s, hole, p);
            UpHole(u, p) && multiset(u) == multiset(s)
  {
    SwapBag(s, hole, Parent(hole), s[hole]);
  }

  /** Moving the bigger child up moves the hole down. */
  lemma {:induction false} DownStep(s: seq<int>, lo: int, hole: int, child: int)
    requires DownHole(s, lo, hole) && 1 <= child < |s| && Parent(child) == hole && s[hole] < s[child]
    requires forall i {:trigger Parent(i)} :: 1 <= i < |s| && Parent(i) == hole ==> s[i] <= s[child]
    ensures var u := Moved(s, hole, child);
            DownHole(u, lo, child) && multiset(u) == multiset(s)
  {
    SwapBag(s, hole, child, s[hole]);
  }

  /** The root of a heap is a greatest element. */
  lemma {:induction false} RootIsGreatest(s: seq<int>, i: int)
    requires IsHeap(s) && 0 <= i < |s|
    ensures s[i] <= s[0]
    decreases i
  {
    if i > 0 {
      RootIsGreatest(s, Parent(i));
    }
  }

  /** `data`'s first `|s|` elements are `s` but for the hole. */
  ghost predicate Holed(data: array<int>, s: seq<int>, hole: int)
    reads data
  {
    0 <= hole < |s| <= data.Length && forall i :: 0 <= i < |s| && i != hole ==> data[i] == s[i]
  }

  /** The value at `from` moves to `hole`, which moves to `from`. */
  function Moved(s: seq<int>, hole: int, from: int): (u: seq<int>)
    requires 0 <= hole < |s| && 0 <= from < |s|
    ensures |u| == |s| && u[from] == s[hole]
  {
    s[hole := s[from]][from := s[hole]]
  }

  lemma HoledAfter(data: array<int>, s: seq<int>, hole: int, from: int)
    requires Holed(data, s, hole) && 0 <= from < |s| && hole != from
    ensures data[from] == s[from]
    ensures forall i :: 0 <= i < |s| && i != from ==> (if i == hole then data[from] else data[i]) == Moved(s, hole, from)[i]
  {
  }

  /** Lets the value missing at `item` sink; `index` is where it comes to rest. */
  method SiftDown(data: array<int>, item: int, temp: int, ghost s: seq<int>, n: int) returns (index: int, ghost u: seq<int>)
    requires n == |s| && Holed(data, s, item) && s[item] == temp && DownHole(s, item, item)
    modifies data
    ensures item <= index < |s| == |u| && Holed(data, u, index) && u[index] == temp
    ensures OrderedFrom(u, item) && (item == 0 ==> IsHeap(u)) && multiset(u) == multiset(s)
    ensures forall i :: |s| <= i < data.Length ==> data[i] == old(data[i])
    ensures index == item ==> u == s && data[item] == old(data[item])
  {
    hide DownHole, OrderedFrom, IsHeap, Parent, Moved;
    index := item;
    u := s;
    while 2 * index + 1 < n
      invariant item <= index < n == |u| && Holed(data, u, index) && u[index] == temp
      invariant DownHole(u, item, index) && multiset(u) == multiset(s)
      invariant forall i :: n <= i < data.Length ==> data[i] == old(data[i])
      invariant index == item ==> u == s && data[item] == old(data[item])
    {
      var swap := 2 * index + 1;
      var other := swap + 1;
      if other < n && data[other] >= data[swap] { swap := other; }
      BiggerChild(u, index, swap);
      if temp >= data[swap] {
        DownDone(u, item, index);
        return;
      }
      DownStep(u, item, index, swap);
      HoledAfter(data, u, index, swap);
      data[index] := data[swap];
      u := Moved(u, index, swap);
      index := swap;
    }
    NoChild(u, index);
    DownDone(u, item, index);
  }

  lemma NoChild(s: seq<int>, hole: int)
    requires 0 <= hole < |s| <= 2 * hole + 1
    ensures forall i {:trigger Parent(i)} :: 1 <= i < |s| ==> Parent(i) != hole
  {
  }

  /** A hole filled with a value as great as its children leaves everything in order. */
  lemma DownDone(s: seq<int>, lo: int, hole: int)
    requires DownHole(s, lo, hole)
    requires forall i {:trigger Parent(i)} :: 1 <= i < |s| && Parent(i) == hole ==> s[i] <= s[hole]
    ensures OrderedFrom(s, lo) && (lo == 0 ==> IsHeap(s))
  {
  }

  /** The child chosen by the sift loop is the greatest one. */
  lemma BiggerChild(s: seq<int>, hole: int, child: int)
    requires 0 <= hole && 2 * hole + 1 < |s|
    requires child == if 2 * hole + 2 < |s| && s[2 * hole + 2] >= s[2 * hole + 1] then 2 * hole + 2 else 2 * hole + 1
    ensures 1 <= child < |s| && Parent(child) == hole
    ensures forall i {:trigger Parent(i)} :: 1 <= i < |s| && Parent(i) == hole ==> s[i] <= s[child]
  {
  }

  /** Lets `value` rise from the last place, `hole`. */
  method SiftUp(data: array<int>, hole: int, value: int, ghost s: seq<int>) returns (index: int, ghost u: seq<int>)
    requires hole == |s| - 1 && Holed(data, s, hole) && s[hole] == value && UpHole(s, hole)
    modifies data
    ensures 0 <= index < |s| == |u| && Holed(data, u, index) && u[index] == value
    ensures IsHeap(u) && multiset(u) == multiset(s)
  {
    hide UpHole, OrderedFrom, IsHeap, Moved;
    index := hole;
    u := s;
    while index > 0
      invariant 0 <= index < |s| == |u| && Holed(data, u, index) && u[index] == value
      invariant UpHole(u, index) && multiset(u) == multiset(s)
      decreases index
    {
      var parent := (index - 1) / 2;
      if data[parent] >= value { break; }
      UpStep(u, index);
      HoledAfter(data, u, index, parent);
      data[index] := data[parent];
      u := Moved(u, index, parent);
      index := parent;
    }
    UpDone(u, index);
  }

  lemma UpDone(s: seq<int>, hole: int)
    requires UpHole(s, hole) && (hole > 0 ==> s[Parent(hole)] >= s[hole])
    ensures IsHeap(s)
  {
  }

  const WORD := 0x1_0000_0000

  /** Where heapifying starts, in 32-bit unsigned arithmetic. */
  function StartIndex(count: nat): (item: nat)
    ensures item < WORD
  {
    (count / 2 - 1) % WORD
  }

  /** The start is an element of the array if and only if there are at least two: the source,
      which asks for an array that is not empty, goes wrong on a single element. */
  lemma StartInside(count: nat)
    requires count < WORD
    ensures StartIndex(count) < count <==> count >= 2
  {
    if count < 2 {
      assert (0 - 1) % WORD == WORD - 1;
    }
  }

  /** Heapifies an array in place; `inside` says that it starts inside the array, where the
      source reads without a check. */
  method Heapify(data: array<int>) returns (inside: bool)
    requires data.Length < WORD
    modifies data
    ensures inside <==> data.Length >= 2
    ensures inside ==> IsHeap(data[..])
    ensures multiset(data[..]) == multiset(old(data[..]))
    ensures !inside ==> data[..] == old(data[..])
  {
    var count := data.Length;
    var item := StartIndex(count);
    StartInside(count);
    if item >= count { return false; }
    inside := true;
    while true
      invariant 0 <= item < count / 2
      invariant OrderedFrom(data[..], item + 1)
      invariant multiset(data[..]) == multiset(old(data[..]))
      decreases item
    {
      var temp := data[item];
      var index, u := SiftDown(data, item, temp, data[..], count);
      if index != item { data[index] := temp; }
      assert data[..] == u;
      if item == 0 { return; }
      item := item - 1;
    }
  }

  // ---------------------------------------------------------------- capacity

  /** Base size doubled some number of times. */
  ghost predicate DoubledBase(size: int) {
    size == BASE_SIZE || (size > BASE_SIZE && size % 2 == 0 && DoubledBase(size / 2))
  }

  /** Credit stored in a heap of this shape, in elements copied: what the next resize will
      cost. */
  function Credit(count: int, size: int): int {
    if 2 * count >= size then 2 * count - size
    else if size > BASE_SIZE then size / 2 - count
    else 0
  }

  class Heap {
    var data: array<int>
    var count: int
    var size: int
    /** Pushes and pops so far, and live elements that resizing has carried over. */
    ghost var operations: int
    ghost var carried: int

    /** The capacity suits `n` elements and the copying so far is paid for by `ops`
        operations. */
    ghost predicate Suits(n: int, ops: int)
      reads `size, `carried
    {
      && DoubledBase(size) && (size == BASE_SIZE || 4 * n > size)
      && carried + Credit(n, size) <= 2 * ops
    }

    ghost predicate Shape()
      reads this, data
    {
      0 <= count <= size == data.Length && BASE_SIZE <= size && Suits(count, operations)
    }

    ghost predicate Valid()
      reads this, data
    {
      Shape() && IsHeap(data[..count])
    }

    ghost function Contents(): multiset<int>
      requires Shape()
      reads this, data
    {
      multiset(data[..count])
    }

    constructor ()
      ensures Valid() && fresh(data) && Contents() == multiset{} && count == operations == carried == 0 && size == 4
    {
      size := BASE_SIZE;
      count := 0;
      data := new int[BASE_SIZE];
      operations, carried := 0, 0;
    }

    /** What the amortised credit amounts to. */
    lemma CarriedBound()
      requires Valid()
      ensures carried <= 2 * operations
    {
    }

    function Front(): (top: int)
      requires Valid() && count > 0
      reads this, data
      ensures top in Contents() && forall x :: x in Contents() ==> x <= top
    {
      assert data[0] == data[..count][0];
      FrontIsGreatest(data[..count]);
      data[0]
    }

    /** Reallocates to `newSize` cells and carries the live elements over. */
    method Resize(newSize: int)
      requires 0 <= count <= data.Length && count <= newSize
      modifies this
      ensures count == old(count) && fresh(data) && data.Length == newSize == size
      ensures data[..count] == old(data[..count])
      ensures operations == old(operations) && carried == old(carried) + count
    {
      var fresh' := new int[newSize];
      forall i | 0 <= i < count {
        fresh'[i] := data[i];
      }
      data := fresh';
      size := newSize;
      carried := carried + count;
    }

    /** Doubles a full array. */
    method MakeRoom()
      requires Shape()
      modifies this
      ensures count < size == data.Length && BASE_SIZE <= size && Suits(count + 1, operations + 1)
      ensures count == old(count) && operations == old(operations)
      ensures data[..count] == old(data[..count]) && (data == old(data) || fresh(data))
      ensures size == old(if count == size then 2 * size else size)
    {
      GrowArithmetic(count, size);
      if count == size {
        Resize(2 * size);
      }
    }

    /** Halves an array of which no more than a quarter is used, after an element left. */
    method GiveBack()
      requires 0 <= count < size == data.Length && BASE_SIZE <= size && Suits(count + 1, operations - 1)
      modifies this
      ensures Shape()
      ensures count == old(count) && operations == old(operations)
      ensures data[..count] == old(data[..count]) && (data == old(data) || fresh(data))
      ensures size == if count <= old(size) / 4 && old(size) > BASE_SIZE then old(size) / 2 else old(size)
    {
      ShrinkArithmetic(count + 1, size);
      if count <= size / 4 && size > BASE_SIZE {
        Resize(size / 2);
      }
    }

    method Push(value: int)
      requires Valid()
      modifies this, data
      ensures Valid() && (data == old(data) || fresh(data))
      ensures count == old(count) + 1 && operations == old(operations) + 1
      ensures Contents() == old(Contents()) + multiset{value}
      ensures size == old(if count == size then 2 * size else size)
    {
      hide UpHole, OrderedFrom, IsHeap, Heap.Suits, Parent;
      ghost var live := data[..count];
      MakeRoom();
      NewLeaf(live, value);
      count := count + 1;
      operations := operations + 1;
      assert Suits(count, operations);
      var index, u := SiftUp(data, count - 1, value, live + [value]);
      assert Suits(count, operations);
      data[index] := value;
      assert Suits(count, operations);
      assert Shape();
      assert data[..count] == u;
      assert IsHeap(data[..count]);
    }

    /** Takes the last element away, and gives back memory. */
    method TakeLast(ghost all: seq<int>) returns (temp: int)
      requires Shape() && count > 0 && all == data[..count]
      modifies this
      ensures Shape() && (data == old(data) || fresh(data))
      ensures count == old(count) - 1 && operations == old(operations) + 1
      ensures temp == all[count] && forall i :: 0 <= i < count ==> data[i] == all[i]
      ensures size == if count <= old(size) / 4 && old(size) > BASE_SIZE then old(size) / 2 else old(size)
    {
      hide Heap.Suits;
      assert Suits(count, operations);
      count := count - 1;
      operations := operations + 1;
      assert Suits(count + 1, operations - 1);
      temp := data[count];
      GiveBack();
      assert data[..count] == all[..count];
    }

    /** Removes the element at the front. */
    method Pop()
      requires Valid() && count > 0
      modifies this, data
      ensures Valid() && (data == old(data) || fresh(data))
      ensures count == old(count) - 1 && operations == old(operations) + 1
      ensures Contents() == old(Contents()) - multiset{old(data[0])}
      ensures size == if count <= old(size) / 4 && old(size) > BASE_SIZE then old(size) / 2 else old(size)
    {
      hide DownHole, OrderedFrom, IsHeap, Heap.Suits, Parent, FrontDropped;
      ghost var all := data[..count];
      LastToFront(all);
      assert all[0] == data[0];
      var temp := TakeLast(all);
      Refill(FrontDropped(all), temp);
    }

    /** The last element sinks from the root, if any element is left. */
    method Refill(ghost s: seq<int>, temp: int)
      requires Shape() && |s| == count && forall i :: 0 < i < count ==> data[i] == s[i]
      requires count > 0 ==> s[0] == temp && DownHole(s, 0, 0)
      modifies data
      ensures Valid()
      ensures multiset(data[..count]) == multiset(s)
    {
      hide DownHole, OrderedFrom, IsHeap, Heap.Suits, Parent;
      if count == 0 {
        EmptyHeap();
        data[0] := temp;
        assert Shape();
        assert data[..count] == [] == s;
      } else {
        var index, u := SiftDown(data, 0, temp, s, count);
        data[index] := temp;
        assert Shape();
        assert data[..count] == u;
      }
    }
  }

  lemma EmptyHeap()
    ensures IsHeap([])
  {
  }

  lemma NewLeaf(live: seq<int>, value: int)
    requires IsHeap(live)
    ensures UpHole(live + [value], |live|)
  {
  }

  /** A push, with its reallocation if there is one, costs at most two elements of credit. */
  lemma GrowArithmetic(count: int, size: int)
    requires 0 <= count <= size && DoubledBase(size) && (size == BASE_SIZE || 4 * count > size)
    ensures var newSize := if count == size then 2 * size else size;
            && DoubledBase(newSize) && count < newSize && (newSize == BASE_SIZE || 4 * (count + 1) > newSize)
            && (if count == size then count else 0) + Credit(count + 1, newSize) <= Credit(count, size) + 2
  {
  }

  /** So does a pop. */
  lemma ShrinkArithmetic(count: int, size: int)
    requires 0 < count <= size && DoubledBase(size) && (size == BASE_SIZE || 4 * count > size)
    ensures var shrinks := count - 1 <= size / 4 && size > BASE_SIZE;
            var newSize := if shrinks then size / 2 else size;
            && DoubledBase(newSize) && BASE_SIZE <= newSize && count - 1 <= newSize && (newSize == BASE_SIZE || 4 * (count - 1) > newSize)
            && (if shrinks then count - 1 else 0) + Credit(count - 1, newSize) <= Credit(count, size) + 2
  {
    MultipleOfBase(size);
  }

  lemma MultipleOfBase(size: int)
    requires DoubledBase(size)
    ensures size >= BASE_SIZE && size % 4 == 0
  {
  }

  lemma FrontIsGreatest(s: seq<int>)
    requires IsHeap(s) && s != []
    ensures s[0] in multiset(s) && forall x :: x in multiset(s) ==> x <= s[0]
  {
    forall x | x in multiset(s) ensures x <= s[0] {
      assert x in s;
      var i :| 0 <= i < |s| && s[i] == x;
      RootIsGreatest(s, i);
    }
  }

  /** The last element in the place of the first. */
  function FrontDropped(all: seq<int>): seq<int>
    requires all != []
  {
    if |all| == 1 then [] else all[..|all| - 1][0 := all[|all| - 1]]
  }

  /** That leaves at most the root out of order, and removes the first element. */
  lemma {:induction false} LastToFront(all: seq<int>)
    requires IsHeap(all) && all != []
    ensures var s := FrontDropped(all);
            && |s| == |all| - 1 && multiset(s) == multiset(all) - multiset{all[0]}
            && (forall i :: 0 < i < |s| ==> s[i] == all[i])
            && (|s| > 0 ==> s[0] == all[|s|] && DownHole(s, 0, 0))
  {
    var n := |all| - 1;
    assert all == all[..n] + [all[n]];
  }

  // ---------------------------------------------------------------- draining

  ghost predicate Descending(s: seq<int>) {
    forall i, j :: 0 <= i < j < |s| ==> s[i] >= s[j]
  }

  /** Reads the front and pops it. */
  method TakeTop(h: Heap) returns (top: int)
    requires h.Valid() && h.count > 0
    modifies h, h.data
    ensures h.Valid() && (h.data == old(h.data) || fresh(h.data))
    ensures h.count == old(h.count) - 1 && h.operations == old(h.operations) + 1
    ensures top in old(h.Contents()) && forall y :: y in old(h.Contents()) ==> y <= top
    ensures h.Contents() == old(h.Contents()) - multiset{top}
  {
    hide IsHeap, OrderedFrom, Heap.Suits;
    top := h.Front();
    h.Pop();
  }

  /** Reading the front and popping until nothing is left yields the contents in order. */
  method Drain(h: Heap) returns (out: seq<int>)
    requires h.Valid()
    modifies h, h.data
    ensures h.Valid() && h.count == 0
    ensures multiset(out) == old(h.Contents()) && Descending(out)
    ensures h.operations == old(h.operations + h.count)
  {
    hide IsHeap, OrderedFrom, Descending, Heap.Suits;
    out := [];
    DescendingNothing();
    while h.count > 0
      invariant h.Valid() && (h.data == old(h.data) || fresh(h.data))
      invariant multiset(out) + h.Contents() == old(h.Contents())
      invariant Descending(out) && forall i, y :: 0 <= i < |out| && y in h.Contents() ==> y <= out[i]
      invariant h.operations + h.count == old(h.operations + h.count)
      decreases h.count
    {
      ghost var before := h.Contents();
      var top := TakeTop(h);
      DrainStep(out, before, top);
      out := out + [top];
    }
    assert h.data[..h.count] == [];
  }

  lemma DescendingNothing()
    ensures Descending([])
  {
  }

  lemma DrainStep(out: seq<int>, before: multiset<int>, top: int)
    requires Descending(out) && forall i, y :: 0 <= i < |out| && y in before ==> y <= out[i]
    requires top in before && forall y :: y in before ==> y <= top
    ensures Descending(out + [top])
    ensures forall i, y :: 0 <= i < |out| + 1 && y in before - multiset{top} ==> y <= (out + [top])[i]
    ensures multiset(out + [top]) + (before - multiset{top}) == multiset(out) + before
  {
  }

  /** Pushing values into a new heap and draining it sorts them, and over the whole run
      resizing carries over at most two elements per operation. */
  method PushAndDrain(values: seq<int>) returns (out: seq<int>, ghost carried: int)
    ensures multiset(out) == multiset(values) && Descending(out)
    ensures carried <= 4 * |values|
  {
    var h := new Heap();
    for i := 0 to |values|
      invariant h.Valid() && fresh(h) && fresh(h.data)
      invariant h.Contents() == multiset(values[..i]) && h.count == h.operations == i
    {
      assert values[..i + 1] == values[..i] + [values[i]];
      h.Push(values[i]);
    }
    assert values[..|values|] == values;
    out := Drain(h);
    h.CarriedBound();
    carried := h.carried;
  }
}
