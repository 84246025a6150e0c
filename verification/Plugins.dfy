/**
 The running minimum/maximum and the running sum (src/lib/lib_swplugins.c), and a window
 with both attached: what they report equals what a scan of the live items finds.
 */
module Plugins {
  import opened Options
  import opened TreeShape
  import opened BinTrees
  import opened Events
  import opened SlidingWindows

  // ---------------------------------------------------------------- scanning

  /** The newest item with the given key. */
  function Newest(items: seq<Ref>, key: int): Option<Ref> {
    if items == [] then None
    else if items[|items| - 1].key == key then Some(items[|items| - 1])
    else Newest(items[..|items| - 1], key)
  }

  function Least(keys: seq<int>): (m: int)
    requires keys != []
    ensures m in keys && forall k :: k in keys ==> m <= k
  {
    if |keys| == 1 then keys[0]
    else
      var m := Least(keys[1..]);
      assert keys == [keys[0]] + keys[1..];
      if keys[0] < m then keys[0] else m
  }

  function Greatest(keys: seq<int>): (m: int)
    requires keys != []
    ensures m in keys && forall k :: k in keys ==> k <= m
  {
    if |keys| == 1 then keys[0]
    else
      var m := Greatest(keys[1..]);
      assert keys == [keys[0]] + keys[1..];
      if m < keys[0] then keys[0] else m
  }

  function Total(keys: seq<int>): int {
    if keys == [] then 0 else Total(keys[..|keys| - 1]) + keys[|keys| - 1]
  }

  /** Two's complement wrap-around at 32 bits. */
  function Wrap32(x: int): (w: int)
    ensures -0x8000_0000 <= w < 0x8000_0000
    ensures -0x8000_0000 <= x < 0x8000_0000 ==> w == x
  {
    (x + 0x8000_0000) % 0x1_0000_0000 - 0x8000_0000
  }

  /** Reported extremes as a scan of the live items finds them: pointers to the newest item
      with the least and with the greatest key. */
  ghost predicate Extremes(items: seq<Ref>, min: Option<Ref>, max: Option<Ref>) {
    if items == [] then min == None && max == None
    else min == Newest(items, Least(KeysOf(items))) && max == Newest(items, Greatest(KeysOf(items)))
  }

  /** The tree holds the live keys with their multiplicities, and for each key the newest
      item's pointer. */
  ghost predicate Tracks(t: Tree, items: seq<Ref>) {
    && Bag(t) == multiset(KeysOf(items))
    && forall k :: Kept(t, k) == Newest(items, k)
  }

  lemma TracksNewest(t: Tree, items: seq<Ref>, k: int)
    requires Tracks(t, items)
    ensures Kept(t, k) == Newest(items, k)
  {
  }

  // ---------------------------------------------------------------- minimum and maximum

  class MinMax {
    const tree: BinTree
    var min: Option<Ref>
    var max: Option<Ref>
    ghost var live: seq<Ref>

    ghost predicate Valid()
      reads this, tree, Nodes(tree.tree)
    {
      && tree.Valid() && this !in tree.Footprint()
      && Tracks(tree.tree, live)
      && Extremes(live, min, max)
    }

    constructor ()
      ensures Valid() && live == [] && fresh(tree.Footprint())
    {
      tree := new BinTree();
      min, max := None, None;
      live := [];
    }

    method AddPipe(item: Ref)
      requires Valid()
      modifies this, tree.Footprint()
      ensures Valid() && live == old(live) + [item]
      ensures fresh(tree.Footprint() - old(tree.Footprint()))
    {
      hide Kept, Bag, Nodes, Search, Least, Greatest, Extremes, Newest, Rightmost, Leftmost, TopOf, BottomOf, KeysOf;
      ghost var t := tree.tree;
      tree.InsertData(item);
      TracksAppend(t, tree.tree, live, item);
      live := live + [item];
      Publish();
    }

    method RemPipe(item: Ref)
      requires Valid() && live != [] && live[0] == item
      modifies this, tree.Footprint()
      ensures Valid() && live == old(live)[1..]
      ensures fresh(tree.Footprint() - old(tree.Footprint()))
    {
      hide Kept, Bag, Nodes, Search, Least, Greatest, Extremes, Newest, Rightmost, Leftmost, TopOf, BottomOf, KeysOf;
      ghost var t := tree.tree;
      tree.DeleteValue(item.key);
      TracksTail(t, tree.tree, live);
      live := live[1..];
      Publish();
    }

    method Publish()
      requires tree.Valid() && this !in tree.Footprint() && Tracks(tree.tree, live)
      modifies `min, `max
      ensures Valid()
    {
      tree.Allocated();
      TracksExtremes(tree.tree, live);
      min := tree.GetBottomData();
      max := tree.GetTopData();
    }
  }

  lemma {:induction false} TracksExtremes(t: Tree, items: seq<Ref>)
    requires Search(t) && Tracks(t, items)
    ensures Extremes(items, BottomOf(t), TopOf(t))
  {
    BagSize(t);
    assert |multiset(KeysOf(items))| == |items|;
    if t.Fork? {
      LeastKept(t, items);
      GreatestKept(t, items);
    }
  }

  lemma {:induction false} LeastKept(t: Tree, items: seq<Ref>)
    requires Search(t) && Tracks(t, items) && t.Fork? && items != []
    ensures Newest(items, Least(KeysOf(items))) == Some(Leftmost(t).data)
  {
    var lo, least := Leftmost(t).data.key, Least(KeysOf(items));
    LeftmostMin(t);
    BagDomain(t);
    assert least in multiset(KeysOf(items)) && least in KeySet(t);
    assert lo in Bag(t) && lo in KeysOf(items);
    assert lo == least;
    assert Kept(t, lo) == Newest(items, lo);
  }

  lemma {:induction false} GreatestKept(t: Tree, items: seq<Ref>)
    requires Search(t) && Tracks(t, items) && t.Fork? && items != []
    ensures Newest(items, Greatest(KeysOf(items))) == Some(Rightmost(t).data)
  {
    var hi, greatest := Rightmost(t).data.key, Greatest(KeysOf(items));
    RightmostMax(t);
    BagDomain(t);
    assert greatest in multiset(KeysOf(items)) && greatest in KeySet(t);
    assert hi in Bag(t) && hi in KeysOf(items);
    assert hi == greatest;
    assert Kept(t, hi) == Newest(items, hi);
  }

  /** Inserting an item's pointer makes the tree track one item more. */
  lemma {:induction false} TracksAppend(t: Tree, u: Tree, items: seq<Ref>, item: Ref)
    requires Tracks(t, items)
    requires Bag(u) == Bag(t) + multiset{item.key}
    requires forall k :: Kept(u, k) == if k == item.key then Some(item) else Kept(t, k)
    ensures Tracks(u, items + [item])
  {
    KeysBagAppend(items, item);
    assert (items + [item])[..|items|] == items;
  }

  /** Deleting the oldest item's key makes the tree track all the others. */
  lemma {:induction false} TracksTail(t: Tree, u: Tree, items: seq<Ref>)
    requires Tracks(t, items) && items != []
    requires Bag(u) == Bag(t) - multiset{items[0].key}
    requires forall k :: Kept(u, k) == if k == items[0].key && Bag(t)[items[0].key] <= 1 then None else Kept(t, k)
    ensures Tracks(u, items[1..])
  {
    KeysBagTail(items);
    forall k ensures Kept(u, k) == Newest(items[1..], k) {
      NewestTail(items, k);
    }
  }

  lemma {:induction false} NewestTail(items: seq<Ref>, key: int)
    requires items != []
    ensures Newest(items[1..], key) ==
            if key == items[0].key && multiset(KeysOf(items))[key] <= 1 then None else Newest(items, key)
    decreases |items|
  {
    hide KeysOf;
    var n := |items| - 1;
    KeysBagTail(items);
    NewestMissing(items[1..], key);
    if n > 0 {
      assert items[1..][..n - 1] == items[..n][1..];
      assert items == items[..n] + [items[n]];
      KeysBagAppend(items[..n], items[n]);
      if items[n].key != key {
        NewestTail(items[..n], key);
      } else if key == items[0].key {
        assert items[0] == items[..n][0];
        KeysBagTail(items[..n]);
      }
    }
  }

  lemma {:induction false} NewestMissing(items: seq<Ref>, key: int)
    ensures Newest(items, key) == None <==> multiset(KeysOf(items))[key] == 0
    ensures Newest(items, key).Some? ==> Newest(items, key).value in items && Newest(items, key).value.key == key
    decreases |items|
  {
    if items != [] {
      var n := |items| - 1;
      assert items == items[..n] + [items[n]];
      KeysBagAppend(items[..n], items[n]);
      NewestMissing(items[..n], key);
    }
  }

  // ---------------------------------------------------------------- sum

  class Summer {
    var sum: int
    ghost var live: seq<Ref>

    ghost predicate Valid()
      reads this
    {
      sum == Wrap32(Total(KeysOf(live)))
    }

    constructor ()
      ensures Valid() && live == []
    {
      sum := 0;
      live := [];
    }

    method AddPipe(item: Ref)
      requires Valid()
      modifies this
      ensures Valid() && live == old(live) + [item]
    {
      KeysBagAppend(live, item);
      TotalAppend(KeysOf(live), item.key);
      WrapShift(Total(KeysOf(live)), item.key);
      sum := Wrap32(sum + item.key);
      live := live + [item];
    }

    method RemPipe(item: Ref)
      requires Valid() && live != [] && live[0] == item
      modifies this
      ensures Valid() && live == old(live)[1..]
    {
      KeysBagTail(live);
      TotalTail(KeysOf(live));
      WrapShift(Total(KeysOf(live)), -item.key);
      sum := Wrap32(sum - item.key);
      assert KeysOf(live)[1..] == KeysOf(live[1..]);
      live := live[1..];
    }
  }

  lemma TotalAppend(keys: seq<int>, x: int)
    ensures Total(keys + [x]) == Total(keys) + x
  {
    assert (keys + [x])[..|keys|] == keys;
  }

  lemma {:induction false} TotalTail(keys: seq<int>)
    requires keys != []
    ensures Total(keys[1..]) == Total(keys) - keys[0]
    decreases |keys|
  {
    var n := |keys| - 1;
    if n > 0 {
      assert keys[1..][..n - 1] == keys[..n][1..];
      TotalTail(keys[..n]);
    }
  }

  /** Wrapping may be postponed. */
  lemma WrapShift(x: int, y: int)
    ensures Wrap32(Wrap32(x) + y) == Wrap32(x + y)
  {
  }

  // ---------------------------------------------------------------- a window with both attached

  class Monitor {
    const window: SlidingWindow
    const minmax: MinMax
    const summer: Summer

    ghost function PluginObjects(): set<object>
      reads minmax, minmax.tree
    {
      {minmax, summer} + minmax.tree.Footprint()
    }

    ghost predicate PluginsValid()
      reads minmax, minmax.tree, Nodes(minmax.tree.tree), summer
    {
      minmax.Valid() && summer.Valid() && minmax.live == summer.live && summer !in minmax.tree.Footprint()
    }

    ghost predicate Valid()
      reads window, window.Footprint(), minmax, minmax.tree, Nodes(minmax.tree.tree), summer
    {
      && window.Valid() && PluginsValid()
      && window.Footprint() !! PluginObjects()
      && minmax.live == Live(window.log)
    }

    /** The plugins report what a scan of the tracked items finds, and every pointer that a
        tree node keeps leads to a cell that still holds the node's value. */
    ghost predicate ReportsScan()
      reads window, window.Footprint(), minmax, minmax.tree, summer
    {
      var items := DataOf(window.trackeditems.contents);
      && Extremes(items, minmax.min, minmax.max)
      && summer.sum == Wrap32(Total(KeysOf(items)))
      && (forall k :: Kept(minmax.tree.tree, k).Some? ==> PointsTo(window.storage.cells, Kept(minmax.tree.tree, k).value))
      && (items != [] ==> minmax.min.Some? && minmax.max.Some? && window.storage.cells.Length > 0
                          && PointsTo(window.storage.cells, minmax.min.value) && PointsTo(window.storage.cells, minmax.max.value))
    }

    constructor (num: nat, timeLimit: real)
      requires timeLimit >= 0.0
      ensures Valid() && window.log == []
    {
      hide SlidingWindow.Valid, MinMax.Valid, Summer.Valid;
      window := new SlidingWindow(num, timeLimit);
      var m := new MinMax();
      m.tree.Allocated();
      minmax := m;
      summer := new Summer();
    }

    lemma ValidReports()
      requires Valid()
      ensures ReportsScan()
    {
      hide Newest, Least, Greatest, Wrap32, Total, DataOf, SlidingWindow.CellsIntact, Live, Fifo, PushedInOrder, Last, Tracks;
      var items := DataOf(window.trackeditems.contents);
      forall k | Kept(minmax.tree.tree, k).Some?
        ensures PointsTo(window.storage.cells, Kept(minmax.tree.tree, k).value)
      {
        TracksNewest(minmax.tree.tree, items, k);
        NewestMissing(items, k);
        window.TrackedPointer(Kept(minmax.tree.tree, k).value);
      }
      if items != [] {
        KeysOfSome(items);
        NewestMissing(items, Least(KeysOf(items)));
        NewestMissing(items, Greatest(KeysOf(items)));
        window.TrackedPointer(minmax.min.value);
        window.TrackedPointer(minmax.max.value);
      }
    }

    /** One pipe call to each plugin. */
    method Notify(e: Event)
      requires PluginsValid() && minmax != (summer as object)
      requires e.Removed? ==> minmax.live != [] && minmax.live[0] == e.item
      modifies minmax, minmax.tree.Footprint(), summer
      ensures PluginsValid() && minmax.live == After(old(minmax.live), e)
      ensures fresh(minmax.tree.Footprint() - old(minmax.tree.Footprint()))
    {
      hide BinTree.Valid, Tracks, Extremes, Total, Wrap32, KeysOf, Kept, Bag;
      minmax.tree.Allocated();
      if e.Added? {
        minmax.AddPipe(e.item);
        minmax.tree.Allocated();
        summer.AddPipe(e.item);
      } else {
        minmax.RemPipe(e.item);
        minmax.tree.Allocated();
        summer.RemPipe(e.item);
      }
    }

    /** Hands the calls logged since `start` to the plugins. */
    method Deliver(start: nat)
      requires window.Valid() && PluginsValid() && window.Footprint() !! PluginObjects()
      requires start <= |window.log| && minmax.live == Live(window.log[..start])
      modifies minmax, minmax.tree.Footprint(), summer
      ensures Valid() && ReportsScan() && window.log == old(window.log)
    {
      hide SlidingWindow.Valid, Live, Fifo, Newest, Extremes, Tracks, KeysOf, DataOf, Total, Wrap32, LongestFit, IsEnd, Dropped, Removals, BinTree.Valid, BinTree.Footprint, Kept, Bag;
      minmax.tree.Allocated();
      window.LogIsFifo();
      for i := start to |window.log|
        invariant window.Valid() && PluginsValid() && window.Footprint() !! PluginObjects()
        invariant fresh(minmax.tree.Footprint() - old(minmax.tree.Footprint()))
        invariant window.log == old(window.log) && minmax.live == Live(window.log[..i])
      {
        NextEvent(window.log, i);
        label Round:
        Notify(window.log[i]);
        forall o | o in minmax.tree.Footprint() && o !in old(minmax.tree.Footprint()) ensures fresh(o) {
          assert o in old@Round(minmax.tree.Footprint()) || fresh@Round(o);
        }
      }
      assert window.log[..|window.log|] == window.log;
      ValidReports();
    }

    /** Adds a value: the window is the longest end of its history within the limits, and
        what the plugins report is what scanning it finds. */
    method AddData(value: int) returns (ghost seen: int)
      requires Valid()
      modifies window.Footprint(), PluginObjects()
      ensures Valid() && ReportsScan() && old(window.clock) <= seen <= window.clock
      ensures LongestFit(window.trackeditems.contents, window.history, window.numLimit, window.timeLimit, seen)
    {
      hide SlidingWindow.Valid, SlidingWindow.Evicted, Live, Fifo, LongestFit, IsEnd, Dropped, Removals, MinMax.Valid, Summer.Valid, Monitor.ReportsScan;
      minmax.tree.Allocated();
      var start := |window.log|;
      seen := window.AddData(value);
      assert window.log[..start] == old(window.log);
      Deliver(start);
    }

    method Refresh()
      requires Valid()
      modifies window.Footprint(), PluginObjects()
      ensures Valid() && ReportsScan()
    {
      hide SlidingWindow.Valid, Live, Fifo, LongestFit, IsEnd, Dropped, Removals, MinMax.Valid, Summer.Valid, Monitor.ReportsScan;
      minmax.tree.Allocated();
      var start := |window.log|;
      window.Refresh();
      assert window.log[..start] == old(window.log);
      Deliver(start);
    }

    lemma EmptyReports()
      requires Valid() && ReportsScan() && window.trackeditems.contents == []
      ensures minmax.min == None && minmax.max == None && summer.sum == 0
    {
    }

    method Clear()
      requires Valid()
      modifies window.Footprint(), PluginObjects()
      ensures Valid() && ReportsScan() && minmax.min == None && minmax.max == None && summer.sum == 0
    {
      hide SlidingWindow.Valid, Live, Fifo, LongestFit, IsEnd, Dropped, Removals, MinMax.Valid, Summer.Valid, Monitor.ReportsScan;
      minmax.tree.Allocated();
      var start := |window.log|;
      window.Clear();
      assert window.log[..start] == old(window.log);
      Deliver(start);
      EmptyReports();
    }
  }

  lemma {:induction false} NextEvent(log: seq<Event>, i: nat)
    requires Fifo(log) && i < |log|
    ensures Live(log[..i + 1]) == After(Live(log[..i]), log[i])
    ensures log[i].Removed? ==> Live(log[..i]) != [] && Live(log[..i])[0] == log[i].item
  {
    assert log[..i + 1] == log[..i] + [log[i]];
    LiveExtend(log[..i], log[i]);
    FifoPrefix(log, i + 1);
  }

  lemma KeysOfSome(items: seq<Ref>)
    requires items != []
    ensures KeysOf(items) != []
    ensures forall k :: k in KeysOf(items) ==> multiset(KeysOf(items))[k] > 0
  {
  }

  ghost predicate PointsTo(cells: array<int>, r: Ref)
    reads cells
  {
    r.addr < cells.Length && cells[r.addr] == r.key
  }
}
